/** The time codec of `src/main.rs`: `hhmmss_to_s` (a wall-clock "H:M:S"
    string to seconds), `s_to_hhmm` (seconds to "HH:MM"), the unused helper
    `_hhmmss_distance`, and the "%H:%M:%S" clock text the program stamps.

    Rust's `isize` is modelled by the unbounded `int`; an hour is 3600
    seconds and a minute 60, written as literals; the program's
    truncating `/` and `%` are written out as `TruncDiv` and `TruncRem`. */
module TimeCodec {
  import opened Wrappers

  /** Why `hhmmss_to_s` panics: a `:`-separated part is missing (the
      `unwrap` of an exhausted split), or a part is not an integer (the
      `expect` on `parse::<isize>`). */
  datatype TimeError =
    | MissingPart(index: nat)
    | NotAnInteger(part: string)

  // ---------------------------------------------------------------------
  // Decimal integers as text
  // ---------------------------------------------------------------------

  predicate IsDigit(c: char) {
    '0' <= c <= '9'
  }

  predicate AllDigits(s: string) {
    forall i :: 0 <= i < |s| ==> IsDigit(s[i])
  }

  function DigitValue(c: char): nat
    requires IsDigit(c)
  {
    c as int - '0' as int
  }

  function DigitChar(d: nat): (c: char)
    requires d < 10
    ensures IsDigit(c) && DigitValue(c) == d
  {
    ('0' as int + d) as char
  }

  /** The value of a string of decimal digits, most significant first. */
  function DigitsValue(s: string): nat
    requires AllDigits(s)
  {
    if |s| == 0 then 0 else 10 * DigitsValue(s[..|s| - 1]) + DigitValue(s[|s| - 1])
  }

  /** One or more decimal digits. */
  function ParseDigits(s: string): (r: Option<nat>)
    ensures r.Some? <==> |s| > 0 && AllDigits(s)
  {
    if |s| > 0 && AllDigits(s) then Some(DigitsValue(s)) else None
  }

  /** `str::parse::<isize>` without the width bound: an optional `+` or `-`
      followed by at least one ASCII digit; nothing else is accepted, not
      even surrounding blanks. */
  function ParseInt(s: string): (r: Option<int>)
    ensures r.Some? ==> |s| > 0 && ':' !in s && ' ' !in s
  {
    if |s| == 0 then None
    else if s[0] == '+' then
      match ParseDigits(s[1..])
      case None => None
      case Some(n) => Some(n)
    else if s[0] == '-' then
      match ParseDigits(s[1..])
      case None => None
      case Some(n) => Some(-(n as int))
    else
      ParseDigits(s)
  }

  /** The decimal text of a natural number (`Display` for a non-negative
      integer): digits only, no leading zero. */
  function ShowNat(n: nat): (r: string)
    ensures |r| > 0 && AllDigits(r) && DigitsValue(r) == n
    ensures n < 10 ==> |r| == 1
    ensures 10 <= n < 100 ==> |r| == 2
    ensures |r| > 1 ==> r[0] != '0'
  {
    if n < 10 then [DigitChar(n)]
    else
      var prefix := ShowNat(n / 10);
      var r := prefix + [DigitChar(n % 10)];
      assert r[..|r| - 1] == prefix;
      r
  }

  /** `format!("{:02}", n)`: at least two characters, zero-padded after the
      sign; a negative number already has two characters and is not padded. */
  function Pad2(n: int): string {
    if n < 0 then "-" + ShowNat(-n)
    else if n < 10 then "0" + ShowNat(n)
    else ShowNat(n)
  }

  /** The padded text reads back as the number; it is digits only when the
      number is not negative, and exactly two of them below 100. */
  lemma Pad2Parses(n: int)
    ensures ParseInt(Pad2(n)) == Some(n)
    ensures n >= 0 ==> AllDigits(Pad2(n))
    ensures 0 <= n < 100 ==> |Pad2(n)| == 2
  {
    var r := Pad2(n);
    if n < 0 {
      assert r[1..] == ShowNat(-n);
    } else if n < 10 {
      assert r[..|r| - 1] == "0" && DigitsValue("0") == 0;
    }
  }

  // ---------------------------------------------------------------------
  // Splitting on ':'
  // ---------------------------------------------------------------------

  /** Joins parts with ':' between them. */
  function JoinColon(parts: seq<string>): string {
    if |parts| == 0 then ""
    else if |parts| == 1 then parts[0]
    else parts[0] + ":" + JoinColon(parts[1..])
  }

  /** Splits at the first ':', if there is one. */
  function SplitAtColon(s: string): (r: Option<(string, string)>)
    ensures r.None? <==> ':' !in s
    ensures r.Some? ==> s == r.value.0 + ":" + r.value.1 && ':' !in r.value.0
  {
    if |s| == 0 then None
    else if s[0] == ':' then Some(("", s[1..]))
    else
      match SplitAtColon(s[1..])
      case None => None
      case Some((a, b)) =>
        assert s == [s[0]] + s[1..];
        Some(([s[0]] + a, b))
  }

  /** `s.splitn(3, ':')`, cut at the first two colons. */
  function SplitN3(s: string): (parts: seq<string>)
    ensures 1 <= |parts| <= 3
  {
    match SplitAtColon(s)
    case None => [s]
    case Some((a, rest)) =>
      match SplitAtColon(rest)
      case None => [a, rest]
      case Some((b, c)) => [a, b, c]
  }

  /** The parts of `splitn(3, ':')` join back to the input; the first two
      end at the first two colons, and any further colon stays inside the
      third part. */
  lemma SplitN3Parts(s: string)
    ensures JoinColon(SplitN3(s)) == s
    ensures forall i :: 0 <= i < |SplitN3(s)| - 1 ==> ':' !in SplitN3(s)[i]
    ensures |SplitN3(s)| < 3 ==> ':' !in SplitN3(s)[|SplitN3(s)| - 1]
  {
    match SplitAtColon(s)
    case None =>
    case Some((a, rest)) =>
      match SplitAtColon(rest)
      case None =>
      case Some((b, c)) =>
        var parts := [a, b, c];
        assert parts[1..] == [b, c] && parts[1..][1..] == [c];
        assert JoinColon([b, c]) == rest;
        assert JoinColon(parts) == a + ":" + rest;
  }

  lemma {:induction false} SplitAtColonOfJoin(a: string, b: string)
    requires ':' !in a
    ensures SplitAtColon(a + ":" + b) == Some((a, b))
  {
    if |a| > 0 {
      var s := a + ":" + b;
      assert s[1..] == a[1..] + ":" + b;
      SplitAtColonOfJoin(a[1..], b);
      assert [s[0]] + a[1..] == a;
    }
  }

  /** Splitting undoes joining three parts whose first two hold no ':'. */
  lemma SplitN3OfJoin(a: string, b: string, c: string)
    requires ':' !in a && ':' !in b
    ensures SplitN3(a + ":" + b + ":" + c) == [a, b, c]
  {
    var rest := b + ":" + c;
    assert a + ":" + b + ":" + c == a + ":" + rest;
    SplitAtColonOfJoin(a, rest);
    SplitAtColonOfJoin(b, c);
    assert SplitAtColon(a + ":" + rest) == Some((a, rest));
    assert SplitAtColon(rest) == Some((b, c));
  }

  // ---------------------------------------------------------------------
  // hhmmss_to_s
  // ---------------------------------------------------------------------

  function PartValue(part: string): Result<int, TimeError> {
    match ParseInt(part)
    case None => Err(NotAnInteger(part))
    case Some(v) => Ok(v)
  }

  /** `hhmmss_to_s`: the parts are parsed lazily in order, so the first
      failing step (a bad part, or a missing one) decides the error. */
  function ParseTime(t: string): Result<int, TimeError> {
    var parts := SplitN3(t);
    var h :- PartValue(parts[0]);
    var m :- if |parts| < 2 then Err(MissingPart(1)) else PartValue(parts[1]);
    var s :- if |parts| < 3 then Err(MissingPart(2)) else PartValue(parts[2]);
    Ok(Seconds(h, m, s))
  }

  /** `(h * SECONDS_PER_HOUR) + (m * SECONDS_PER_MINUTE) + s`. */
  function Seconds(h: int, m: int, s: int): int {
    h * 3600 + m * 60 + s
  }

  /** The time parses exactly when the split has three parts and each is
      an integer; the seconds are then H*3600 + M*60 + S. */
  lemma ParseTimeOk(t: string)
    ensures ParseTime(t).Ok? <==> |SplitN3(t)| == 3 && forall i :: 0 <= i < 3 ==> ParseInt(SplitN3(t)[i]).Some?
    ensures ParseTime(t).Ok? ==>
              ParseTime(t).value == ParseInt(SplitN3(t)[0]).value * 3600
                                  + ParseInt(SplitN3(t)[1]).value * 60
                                  + ParseInt(SplitN3(t)[2]).value
  {
    var parts := SplitN3(t);
    if |parts| == 3 {
      var h, m, s := ParseInt(parts[0]), ParseInt(parts[1]), ParseInt(parts[2]);
      if h.Some? && m.Some? && s.Some? {
        assert ParseTime(t) == Ok(h.value * 3600 + m.value * 60 + s.value);
      }
    }
  }

  function CountColons(s: string): nat {
    multiset(s)[':']
  }

  lemma NoColonCount(s: string)
    requires ':' !in s
    ensures CountColons(s) == 0
  {
  }

  /** Three integer parts joined by ':' parse to H*3600 + M*60 + S. */
  lemma ParseTimeOfParts(a: string, b: string, c: string, h: int, m: int, s: int)
    requires ParseInt(a) == Some(h) && ParseInt(b) == Some(m) && ParseInt(c) == Some(s)
    ensures ParseTime(a + ":" + b + ":" + c) == Ok(Seconds(h, m, s))
  {
    SplitN3OfJoin(a, b, c);
  }

  /** A time parses only if it has exactly two colons: with fewer a part is
      missing, with more the third part keeps a ':' and is no integer. */
  lemma ParseTimeNeedsTwoColons(t: string)
    requires ParseTime(t).Ok?
    ensures CountColons(t) == 2
  {
    var parts := SplitN3(t);
    ParseTimeOk(t);
    SplitN3Parts(t);
    assert t == parts[0] + ":" + parts[1] + ":" + parts[2];
    assert multiset(t) == multiset(parts[0]) + multiset(":") + multiset(parts[1])
                          + multiset(":") + multiset(parts[2]);
    NoColonCount(parts[0]);
    NoColonCount(parts[1]);
    NoColonCount(parts[2]);
  }

  // ---------------------------------------------------------------------
  // The "%H:%M:%S" clock text and its round trip
  // ---------------------------------------------------------------------

  /** The wall-clock text stamped into the log for `t` seconds after
      midnight: zero-padded hours, minutes and seconds. */
  function ClockString(t: int): (r: string)
    requires 0 <= t < 24 * 3600
    ensures |r| == 8 && r[2] == ':' && r[5] == ':'
  {
    var h, m, s := t / 3600, t / 60 % 60, t % 60;
    assert 0 <= h < 24 && 0 <= m < 60 && 0 <= s < 60;
    Pad2Parses(h);
    Pad2Parses(m);
    Pad2Parses(s);
    ColonJoinedPairs(Pad2(h), Pad2(m), Pad2(s));
    Pad2(h) + ":" + Pad2(m) + ":" + Pad2(s)
  }

  lemma ColonJoinedPairs(a: string, b: string, c: string)
    requires |a| == 2 && |b| == 2 && |c| == 2
    ensures var r := a + ":" + b + ":" + c;
            |r| == 8 && r[2] == ':' && r[5] == ':'
  {
  }

  lemma ClockFields(t: nat)
    ensures t / 3600 * 3600 + t / 60 % 60 * 60 + t % 60 == t
  {
    var q, s := t / 60, t % 60;
    assert t == 60 * q + s;
    assert q == 60 * (q / 60) + q % 60;
    assert t == 3600 * (q / 60) + 60 * (q % 60) + s;
    assert t / 3600 == q / 60;
  }

  /** `hhmmss_to_s` inverts the clock text for every time of day. */
  lemma ClockRoundTrip(t: int)
    requires 0 <= t < 24 * 3600
    ensures ParseTime(ClockString(t)) == Ok(t)
  {
    var h, m, s := t / 3600, t / 60 % 60, t % 60;
    ClockFields(t);
    PaddedFieldsParse(h, m, s, t);
  }

  lemma PaddedFieldsParse(h: int, m: int, s: int, t: int)
    requires Seconds(h, m, s) == t
    ensures ParseTime(Pad2(h) + ":" + Pad2(m) + ":" + Pad2(s)) == Ok(t)
  {
    Pad2Parses(h);
    Pad2Parses(m);
    Pad2Parses(s);
    ParseTimeOfParts(Pad2(h), Pad2(m), Pad2(s), h, m, s);
  }

  // ---------------------------------------------------------------------
  // s_to_hhmm
  // ---------------------------------------------------------------------

  /** Rust's integer `/`: the quotient rounded toward zero. */
  function TruncDiv(a: int, b: int): (q: int)
    requires b > 0
    ensures a >= 0 ==> 0 <= a - b * q < b
    ensures a < 0 ==> -b < a - b * q <= 0
  {
    if a >= 0 then a / b else -((-a) / b)
  }

  /** Rust's integer `%`: the remainder takes the sign of the dividend. */
  function TruncRem(a: int, b: int): (r: int)
    requires b > 0
    ensures a >= 0 ==> 0 <= r < b
    ensures a < 0 ==> -b < r <= 0
    ensures a == b * TruncDiv(a, b) + r
  {
    a - b * TruncDiv(a, b)
  }

  function Hours(s: int): int {
    TruncDiv(s, 3600)
  }

  function Minutes(s: int): int {
    TruncDiv(TruncRem(s, 3600), 60)
  }

  /** `s_to_hhmm`: whole hours and the remaining whole minutes, each as
      `{:02}`, joined by a colon. */
  function FormatHHMM(s: int): string {
    Pad2(Hours(s)) + ":" + Pad2(Minutes(s))
  }

  /** Below 100, `{:02}` writes exactly two digits spelling the number. */
  lemma TwoDigits(n: int)
    requires 0 <= n < 100
    ensures |Pad2(n)| == 2 && AllDigits(Pad2(n)) && DigitsValue(Pad2(n)) == n
  {
    Pad2Parses(n);
    assert ParseDigits(Pad2(n)) == ParseInt(Pad2(n));
  }

  /** A non-negative time below 100 hours reads "HH:MM": two digits, a
      colon, two digits, with the minutes below 60. */
  lemma FormatHHMMShape(s: int)
    requires 0 <= s < 100 * 3600
    ensures var r := FormatHHMM(s);
            |r| == 5 && r[2] == ':' && AllDigits(r[..2]) && AllDigits(r[3..])
            && DigitsValue(r[3..]) < 60
  {
    var h, m := Hours(s), Minutes(s);
    assert 0 <= h < 100 && 0 <= m < 60;
    var hh, mm := Pad2(h), Pad2(m);
    TwoDigits(h);
    TwoDigits(m);
    var r := hh + ":" + mm;
    assert r[..2] == hh && r[3..] == mm;
  }

  /** Reads "H:M" back into its two integers; the inverse of `FormatHHMM`. */
  function ParseHHMM(text: string): Option<(int, int)> {
    match SplitAtColon(text)
    case None => None
    case Some((hh, mm)) =>
      match (ParseInt(hh), ParseInt(mm))
      case (Some(h), Some(m)) => Some((h, m))
      case _ => None
  }

  lemma FormatHHMMDecodes(s: int)
    ensures ParseHHMM(FormatHHMM(s)) == Some((Hours(s), Minutes(s)))
  {
    Pad2Parses(Hours(s));
    Pad2Parses(Minutes(s));
    SplitAtColonOfJoin(Pad2(Hours(s)), Pad2(Minutes(s)));
  }

  /** The text depends on exactly the hour and minute fields: two times
      format alike if and only if both fields agree. */
  lemma FormatHHMMDependsOnlyOnFields(a: int, b: int)
    ensures FormatHHMM(a) == FormatHHMM(b) <==> Hours(a) == Hours(b) && Minutes(a) == Minutes(b)
  {
    FormatHHMMDecodes(a);
    FormatHHMMDecodes(b);
  }

  /** For a non-negative count the fields are hours and minutes of a clock:
      the hours are whole hours and the minutes lie in [0, 59]. */
  lemma FieldsOfNonNegative(s: int)
    requires s >= 0
    ensures Hours(s) == s / 3600 && Minutes(s) == s % 3600 / 60
    ensures 0 <= Minutes(s) < 60
  {
  }

  lemma {:induction false} FieldsOfWholeMinutesNat(a: nat)
    ensures (a / 60 * 60) / 3600 == a / 3600
    ensures (a / 60 * 60) % 3600 / 60 == a % 3600 / 60
  {
    var h, m, sec := a / 3600, a % 3600 / 60, a % 60;
    assert a == 3600 * h + 60 * m + sec;
    assert a / 60 * 60 == 3600 * h + 60 * m;
  }

  /** Sub-minute seconds are dropped: truncating the time to whole minutes
      (toward zero, as Rust does) does not change the text. */
  lemma FormatHHMMDropsSeconds(s: int)
    ensures FormatHHMM(s) == FormatHHMM(TruncDiv(s, 60) * 60)
  {
    var w := TruncDiv(s, 60) * 60;
    var a: nat := if s >= 0 then s else -s;
    FieldsOfWholeMinutesNat(a);
    assert Hours(w) == Hours(s) && Minutes(w) == Minutes(s);
  }

  /** A non-negative count reads back as its whole hours and the minutes
      left over. */
  lemma NonNegativeDecodes(d: int)
    requires d >= 0
    ensures ParseHHMM(FormatHHMM(d)) == Some((d / 3600, d % 3600 / 60))
  {
    FormatHHMMDecodes(d);
    FieldsOfNonNegative(d);
  }

  // ---------------------------------------------------------------------
  // _hhmmss_distance
  // ---------------------------------------------------------------------

  /** `(to - from).abs()`. */
  function Gap(from: int, to: int): nat {
    if to < from then from - to else to - from
  }

  /** `_hhmmss_distance`: the absolute difference of two parsed times,
      formatted as "HH:MM"; `from` is parsed first. */
  function HhmmssDistance(from: string, to: string): Result<string, TimeError> {
    var f :- ParseTime(from);
    var t :- ParseTime(to);
    Ok(FormatHHMM(Gap(f, t)))
  }

  /** The distance does not depend on the order of its arguments. */
  lemma DistanceSymmetric(a: string, b: string)
    ensures HhmmssDistance(a, b).Ok? <==> ParseTime(a).Ok? && ParseTime(b).Ok?
    ensures HhmmssDistance(a, b).Ok? <==> HhmmssDistance(b, a).Ok?
    ensures HhmmssDistance(a, b).Ok? ==> HhmmssDistance(a, b) == HhmmssDistance(b, a)
  {
  }

  /** The distance formats a non-negative number of seconds: its fields are
      the whole hours and the remaining minutes of |to - from|. */
  lemma DistanceNonNegative(a: string, b: string, from: int, to: int)
    requires ParseTime(a) == Ok(from) && ParseTime(b) == Ok(to)
    ensures HhmmssDistance(a, b).Ok?
    ensures ParseHHMM(HhmmssDistance(a, b).value)
         == Some((Gap(from, to) / 3600, Gap(from, to) % 3600 / 60))
  {
    var d := Gap(from, to);
    DistanceOfValues(a, b, from, to, d);
    NonNegativeDecodes(d);
  }

  lemma DistanceOfValues(a: string, b: string, from: int, to: int, d: int)
    requires ParseTime(a) == Ok(from) && ParseTime(b) == Ok(to) && d == Gap(from, to)
    ensures HhmmssDistance(a, b) == Ok(FormatHHMM(d))
  {
  }
}
