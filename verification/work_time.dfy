/** The day summary and the toggle rule of `src/main.rs`: `DayInfo`,
    `read_work_time` (split the records into those tagged exactly "strt"
    and all the rest, sum each side's times, take the first "strt" time as
    the start) and `update_time` (pick the next record's kind from the sign
    of that sum and append it).

    As written, the duration is the "strt" times minus all other times, so
    it is negative only when the stops outweigh the starts. */
module WorkTime {
  import opened Wrappers
  import opened TimeCodec
  import opened RecordLog
  import opened Seqs

  const StartKind: string := "strt"
  const StopKind: string := "stop"

  /** `DayInfo`: the first start time and the signed duration, in seconds. */
  datatype DayInfo = DayInfo(start: int, duration: int) {
    /** The clock time the day's work ends at, as `get` computes it. */
    function End(): int {
      start + duration
    }
  }

  /** What makes `read_work_time` (and so `update_time`) panic: a row that
      does not deserialise, or a time that does not parse. */
  datatype DayError =
    | Corrupt(log: LogError)
    | Malformed(time: TimeError)

  predicate IsStart(r: Record) {
    r.kind == StartKind
  }

  // ---------------------------------------------------------------------
  // Reference definitions
  // ---------------------------------------------------------------------

  predicate AllTimesParse(recs: seq<Record>) {
    forall i :: 0 <= i < |recs| ==> ParseTime(recs[i].time).Ok?
  }

  /** The seconds of a record's time, or 0 if it does not parse. */
  function TimeValue(r: Record): int {
    match ParseTime(r.time)
    case Ok(v) => v
    case Err(_) => 0
  }

  /** A start adds its time, every other kind subtracts it. */
  function Weight(r: Record): int {
    if IsStart(r) then TimeValue(r) else -TimeValue(r)
  }

  /** The signed sum in one pass over the records, in their order. */
  function SignedSum(recs: seq<Record>): int {
    SumBy(recs, Weight)
  }

  /** The sum of the records' times. */
  function Total(recs: seq<Record>): int {
    SumBy(recs, TimeValue)
  }

  /** The position of the first record tagged "strt". */
  function FirstStart(recs: seq<Record>): (r: Option<nat>)
    ensures r.Some? ==> r.value < |recs| && IsStart(recs[r.value])
                        && forall j :: 0 <= j < r.value ==> !IsStart(recs[j])
    ensures r.None? ==> forall j :: 0 <= j < |recs| ==> !IsStart(recs[j])
  {
    if |recs| == 0 then None
    else if IsStart(recs[0]) then Some(0)
    else
      match FirstStart(recs[1..])
      case None => None
      case Some(i) => Some(i + 1)
  }

  // ---------------------------------------------------------------------
  // read_work_time
  // ---------------------------------------------------------------------

  /** `partition(|x| x.kind == "strt")`: the starts and the rest, each in
      the order of the log. */
  function Partition(recs: seq<Record>): (p: (seq<Record>, seq<Record>))
    ensures forall i :: 0 <= i < |p.0| ==> IsStart(p.0[i])
    ensures forall i :: 0 <= i < |p.1| ==> !IsStart(p.1[i])
  {
    if |recs| == 0 then ([], [])
    else
      var rest := Partition(recs[1..]);
      if IsStart(recs[0]) then ([recs[0]] + rest.0, rest.1)
      else (rest.0, [recs[0]] + rest.1)
  }

  /** Every record lands on exactly one side, as often as it occurs. */
  lemma {:induction false} PartitionPermutes(recs: seq<Record>)
    ensures multiset(Partition(recs).0) + multiset(Partition(recs).1) == multiset(recs)
  {
    if |recs| > 0 {
      PartitionPermutes(recs[1..]);
      HeadTail(recs);
    }
  }

  /** The starts side is empty exactly when the log has no "strt", and
      otherwise begins with the log's first "strt". */
  lemma {:induction false} PartitionFirst(recs: seq<Record>)
    ensures |Partition(recs).0| > 0 <==> FirstStart(recs).Some?
    ensures |Partition(recs).0| > 0 ==> Partition(recs).0[0] == recs[FirstStart(recs).value]
  {
    if |recs| > 0 && !IsStart(recs[0]) {
      PartitionFirst(recs[1..]);
    }
  }

  /** `.map(|x| hhmmss_to_s(&x.time)).sum()`: the first time that does not
      parse aborts the sum. */
  function SumTimes(recs: seq<Record>): (r: Result<int, TimeError>)
    ensures r.Ok? <==> AllTimesParse(recs)
    ensures r.Ok? ==> r.value == Total(recs)
  {
    if |recs| == 0 then Ok(0)
    else
      var t :- ParseTime(recs[0].time);
      var rest :- SumTimes(recs[1..]);
      Ok(t + rest)
  }

  /** The pure part of `read_work_time`, once the records are read: the
      starts are summed, then the rest, then the first start is parsed
      again for `start`. */
  function Summarize(recs: seq<Record>): Result<DayInfo, TimeError> {
    var (starts, stops) := Partition(recs);
    var adding :- SumTimes(starts);
    var subtracting :- SumTimes(stops);
    var start :- if |starts| == 0 then Ok(0) else ParseTime(starts[0].time);
    Ok(DayInfo(start, adding - subtracting))
  }

  /** `read_work_time`: a row that does not deserialise aborts before any
      time is parsed, and a time that does not parse aborts the rest. */
  function ReadWorkTime(file: seq<Row>): Result<DayInfo, DayError> {
    var recs :- ReadRecords(file).MapError(e => Corrupt(e));
    Summarize(recs).MapError(e => Malformed(e))
  }

  lemma {:induction false} PartitionSums(recs: seq<Record>)
    ensures Total(Partition(recs).0) - Total(Partition(recs).1) == SignedSum(recs)
  {
    if |recs| > 0 {
      PartitionSums(recs[1..]);
      var rest := Partition(recs[1..]);
      if IsStart(recs[0]) {
        assert ([recs[0]] + rest.0)[1..] == rest.0;
      } else {
        assert ([recs[0]] + rest.1)[1..] == rest.1;
      }
    }
  }

  /** Records drawn from a log whose times all parse have times that parse. */
  lemma TimesParseWithin(a: seq<Record>, b: seq<Record>)
    requires multiset(a) <= multiset(b) && AllTimesParse(b)
    ensures AllTimesParse(a)
  {
    forall i | 0 <= i < |a| ensures ParseTime(a[i].time).Ok? {
      var j := Occurrence(a, b, i);
    }
  }

  lemma AllTimesParseConcat(a: seq<Record>, b: seq<Record>)
    ensures AllTimesParse(a + b) <==> AllTimesParse(a) && AllTimesParse(b)
  {
    if AllTimesParse(a + b) {
      forall i | 0 <= i < |a| ensures ParseTime(a[i].time).Ok? {
        assert (a + b)[i] == a[i];
      }
      forall i | 0 <= i < |b| ensures ParseTime(b[i].time).Ok? {
        assert (a + b)[|a| + i] == b[i];
      }
    }
  }

  lemma PartitionParses(recs: seq<Record>)
    ensures AllTimesParse(recs) <==> AllTimesParse(Partition(recs).0) && AllTimesParse(Partition(recs).1)
  {
    var p := Partition(recs);
    PartitionPermutes(recs);
    AllTimesParseConcat(p.0, p.1);
    assert multiset(p.0 + p.1) == multiset(recs);
    if AllTimesParse(recs) {
      TimesParseWithin(p.0 + p.1, recs);
    }
    if AllTimesParse(p.0 + p.1) {
      TimesParseWithin(recs, p.0 + p.1);
    }
  }

  /** The read is all-or-nothing in the times: it succeeds exactly when
      every record's time parses, whatever its kind. */
  lemma {:induction false} SummarizeAllOrNothing(recs: seq<Record>)
    ensures Summarize(recs).Ok? <==> AllTimesParse(recs)
  {
    PartitionParses(recs);
  }

  /** The duration is the sum of the "strt" times minus the sum of all
      other times; any tag other than "strt" counts as a stop. */
  lemma SummarizeDuration(recs: seq<Record>)
    requires Summarize(recs).Ok?
    ensures Summarize(recs).value.duration == SignedSum(recs)
  {
    PartitionSums(recs);
  }

  /** The start is the time of the first "strt" record, or 0 when there is
      none. */
  lemma {:induction false} SummarizeStart(recs: seq<Record>)
    requires Summarize(recs).Ok?
    ensures FirstStart(recs).None? ==> Summarize(recs).value.start == 0
    ensures FirstStart(recs).Some? ==> Summarize(recs).value.start == TimeValue(recs[FirstStart(recs).value])
  {
    PartitionFirst(recs);
  }

  /** A day whose times all parse summarises to its first start's time
      and its signed sum. */
  lemma {:induction false} SummarizeValue(recs: seq<Record>)
    requires AllTimesParse(recs)
    ensures Summarize(recs)
         == Ok(DayInfo(if FirstStart(recs).None? then 0 else TimeValue(recs[FirstStart(recs).value]), SignedSum(recs)))
  {
    SummarizeAllOrNothing(recs);
    SummarizeDuration(recs);
    SummarizeStart(recs);
  }

  /** An empty day has start 0 and duration 0. */
  lemma SummarizeEmpty()
    ensures Summarize([]) == Ok(DayInfo(0, 0))
  {
  }

  // ---------------------------------------------------------------------
  // The duration does not depend on the order of the records
  // ---------------------------------------------------------------------

  /** The signed sum does not depend on the order of the records. */
  lemma {:induction false} SignedSumPermutation(a: seq<Record>, b: seq<Record>)
    requires multiset(a) == multiset(b)
    ensures SignedSum(a) == SignedSum(b)
  {
    SumByPermutation(a, b, Weight);
  }

  lemma PermutationParses(a: seq<Record>, b: seq<Record>)
    requires multiset(a) == multiset(b)
    requires AllTimesParse(a)
    ensures AllTimesParse(b)
  {
    TimesParseWithin(b, a);
  }

  /** Reordering the records changes neither whether the read succeeds
      nor the duration it computes. */
  lemma {:induction false} DurationPermutationInvariant(a: seq<Record>, b: seq<Record>)
    requires multiset(a) == multiset(b)
    ensures Summarize(a).Ok? <==> Summarize(b).Ok?
    ensures Summarize(a).Ok? ==> Summarize(a).value.duration == Summarize(b).value.duration
  {
    SummarizeAllOrNothing(a);
    SummarizeAllOrNothing(b);
    if AllTimesParse(a) {
      PermutationParses(a, b);
    }
    if AllTimesParse(b) {
      PermutationParses(b, a);
    }
    if Summarize(a).Ok? {
      SummarizeDuration(a);
      SummarizeDuration(b);
      SignedSumPermutation(a, b);
    }
  }

  /** The whole read: a bad row fails it as corrupt, even when some time
      is also malformed; with every row readable it fails exactly when a
      time does not parse. */
  lemma {:induction false} ReadWorkTimeAllOrNothing(file: seq<Row>)
    ensures ReadRecords(file).Err? ==> ReadWorkTime(file) == Err(Corrupt(ReadRecords(file).error))
    ensures ReadRecords(file).Ok? ==>
              (ReadWorkTime(file).Ok? <==> AllTimesParse(ReadRecords(file).value))
  {
    if ReadRecords(file).Ok? {
      SummarizeAllOrNothing(ReadRecords(file).value);
    }
  }

  // ---------------------------------------------------------------------
  // update_time
  // ---------------------------------------------------------------------

  /** The kind of the next stamp: "stop" when the duration is negative,
      "strt" otherwise. */
  function NextKind(duration: int): (kind: string)
    ensures kind == StopKind <==> duration < 0
    ensures kind == StartKind <==> duration >= 0
  {
    if duration < 0 then StopKind else StartKind
  }

  /** `update_time`: read the day, then append one record with the given
      time (written as it is, unchecked) and the kind the duration picks. */
  function UpdateTime(file: seq<Row>, time: string): Result<seq<Row>, DayError> {
    var info :- ReadWorkTime(file);
    Ok(WriteRecord(file, Record(NextKind(info.duration), time)))
  }

  /** One stamp appends exactly one record and leaves the earlier rows as
      they were; its time is the given one and its kind is "stop" exactly
      when the signed sum of the earlier records is negative. It fails
      exactly when the read fails. */
  lemma UpdateTimeAppends(file: seq<Row>, time: string)
    requires ProperHeader(file)
    ensures UpdateTime(file, time).Ok? <==> ReadWorkTime(file).Ok?
    ensures UpdateTime(file, time).Ok? ==>
              var after := UpdateTime(file, time).value;
              var recs := ReadRecords(file).value;
              && ProperHeader(after)
              && after[..|file|] == file
              && ReadRecords(after) == Ok(recs + [Record(if SignedSum(recs) < 0 then StopKind else StartKind, time)])
  {
    if ReadWorkTime(file).Ok? {
      var recs := ReadRecords(file).value;
      SummarizeDuration(recs);
      ReadAfterWrite(file, Record(NextKind(SignedSum(recs)), time));
    }
  }

  // ---------------------------------------------------------------------
  // A run of stamps
  // ---------------------------------------------------------------------

  /** Stamping each time in turn, stopping at the first failure. */
  function StampAll(file: seq<Row>, times: seq<string>): Result<seq<Row>, DayError> {
    if |times| == 0 then Ok(file)
    else
      var before :- StampAll(file, times[..|times| - 1]);
      UpdateTime(before, times[|times| - 1])
  }

  /** The records that stamping only "strt" at each time gives. */
  function StartsAt(times: seq<string>): (recs: seq<Record>)
    ensures |recs| == |times|
    ensures forall i :: 0 <= i < |times| ==> recs[i] == Record(StartKind, times[i])
  {
    if |times| == 0 then []
    else StartsAt(times[..|times| - 1]) + [Record(StartKind, times[|times| - 1])]
  }

  lemma {:induction false} StartsAreNonNegative(recs: seq<Record>)
    requires forall i :: 0 <= i < |recs| ==> IsNonNegativeStart(recs[i])
    ensures SignedSum(recs) >= 0
  {
    if |recs| > 0 {
      StartsAreNonNegative(recs[1..]);
    }
  }

  predicate IsNonNegativeStart(r: Record) {
    IsStart(r) && ParseTime(r.time).Ok? && ParseTime(r.time).value >= 0
  }

  lemma {:induction false} ReadWorkTimeOfRecords(file: seq<Row>, recs: seq<Record>, info: DayInfo)
    requires ReadRecords(file) == Ok(recs)
    requires Summarize(recs) == Ok(info)
    ensures ReadWorkTime(file) == Ok(info)
  {
  }

  /** Reading a log built by `write_record` from records whose times all
      parse gives the first start's time and the signed sum. */
  lemma {:induction false} ReadBuiltDay(recs: seq<Record>)
    requires AllTimesParse(recs)
    ensures ReadWorkTime(BuildLog(recs))
         == Ok(DayInfo(if FirstStart(recs).None? then 0 else TimeValue(recs[FirstStart(recs).value]), SignedSum(recs)))
  {
    SummarizeValue(recs);
    ReadBuiltLog(recs);
    ReadWorkTimeOfRecords(BuildLog(recs), recs, Summarize(recs).value);
  }

  /** The same, for a log whose first record is a "strt". */
  lemma ReadStartedDay(recs: seq<Record>, start: int, duration: int)
    requires AllTimesParse(recs) && FirstStart(recs) == Some(0)
    requires TimeValue(recs[0]) == start && SignedSum(recs) == duration
    ensures ReadWorkTime(BuildLog(recs)) == Ok(DayInfo(start, duration))
  {
    ReadBuiltDay(recs);
  }

  lemma UpdateTimeOfDay(file: seq<Row>, time: string, info: DayInfo)
    requires ReadWorkTime(file) == Ok(info)
    ensures UpdateTime(file, time) == Ok(WriteRecord(file, Record(NextKind(info.duration), time)))
  {
  }

  /** One stamp on a day of "strt" records at non-negative times is
      another "strt". */
  lemma {:induction false} StampAfterStarts(recs: seq<Record>, time: string)
    requires forall i :: 0 <= i < |recs| ==> IsNonNegativeStart(recs[i])
    ensures UpdateTime(BuildLog(recs), time) == Ok(BuildLog(recs + [Record(StartKind, time)]))
  {
    var before := BuildLog(recs);
    ReadBuiltLog(recs);
    StartsAreNonNegative(recs);
    assert AllTimesParse(recs);
    SummarizeAllOrNothing(recs);
    SummarizeDuration(recs);
    var info := Summarize(recs).value;
    ReadWorkTimeOfRecords(before, recs, info);
    UpdateTimeOfDay(before, time, info);
    assert NextKind(info.duration) == StartKind;
    var all := recs + [Record(StartKind, time)];
    assert all[..|all| - 1] == recs;
    assert BuildLog(all) == WriteRecord(before, Record(StartKind, time));
  }

  /** Because the duration is the starts minus the stops, a day stamped
      from an empty log at times that parse to non-negative seconds (every
      time of day does) never gets a "stop": every record is "strt". */
  lemma {:induction false} EveryStampStarts(times: seq<string>)
    requires forall i :: 0 <= i < |times| ==> ParseTime(times[i]).Ok? && ParseTime(times[i]).value >= 0
    ensures StampAll([], times) == Ok(BuildLog(StartsAt(times)))
    ensures ReadRecords(BuildLog(StartsAt(times))) == Ok(StartsAt(times))
  {
    ReadBuiltLog(StartsAt(times));
    if |times| > 0 {
      var init := times[..|times| - 1];
      var last := times[|times| - 1];
      EveryStampStarts(init);
      var recs := StartsAt(init);
      forall i | 0 <= i < |recs|
        ensures IsNonNegativeStart(recs[i])
      {
        assert recs[i] == Record(StartKind, times[i]);
      }
      StampAfterStarts(recs, last);
      assert StartsAt(times) == recs + [Record(StartKind, last)];
      assert StampAll([], times) == UpdateTime(BuildLog(recs), last);
    } else {
      assert StartsAt(times) == [];
    }
  }
}
