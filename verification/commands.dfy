/** The two subcommands of `main`, with the clock, the file system and the
    printing taken out: `stamp` gets the day's log (absent when the file
    does not exist yet) and the current "%H:%M:%S" time as parameters and
    returns the new log; `get` gets the day's log and returns what it would
    report. */
module Commands {
  import opened Wrappers
  import opened TimeCodec
  import opened RecordLog
  import opened WorkTime
  import opened Seqs

  /** What `get` prints: that the day is still open, or the worked time and
      the clock range it covers. */
  datatype Report =
    | NotOverYet
    | Worked(duration: string, from: string, to: string)

  /** Why `get` ends with an error: the day's file cannot be opened, or
      reading it panics. */
  datatype GetError =
    | NoLog
    | Unreadable(day: DayError)

  /** The report arithmetic of `get`: a negative duration means the day is
      not over; otherwise the worked time runs from `start` to
      `start + duration`, each shown as "HH:MM". */
  function DayReport(info: DayInfo): (r: Report)
    ensures r.NotOverYet? <==> info.duration < 0
  {
    if info.duration < 0 then NotOverYet
    else Worked(FormatHHMM(info.duration), FormatHHMM(info.start), FormatHHMM(info.End()))
  }

  /** A finished day's report reads back as the hours and minutes of the
      duration, of the start, and of the end. */
  lemma DayReportReadsBack(info: DayInfo)
    requires info.duration >= 0
    ensures ReportReadsBack(DayReport(info), info)
  {
    FormatHHMMDecodes(info.duration);
    FormatHHMMDecodes(info.start);
    FormatHHMMDecodes(info.End());
  }

  /** `get`: `File::open` fails on a day without a file, a read that
      panics is an error, and a readable day is reported. */
  function Get(file: Option<seq<Row>>): (r: Result<Report, GetError>)
    ensures file.None? ==> r == Err(NoLog)
    ensures r.Ok? <==> file.Some? && ReadWorkTime(file.value).Ok?
    ensures file.Some? && ReadWorkTime(file.value).Err? ==> r == Err(Unreadable(ReadWorkTime(file.value).error))
    ensures r.Ok? ==> (r.value.NotOverYet? <==> ReadWorkTime(file.value).value.duration < 0)
  {
    match file
    case None => Err(NoLog)
    case Some(rows) =>
      match ReadWorkTime(rows)
      case Ok(info) => Ok(DayReport(info))
      case Err(e) => Err(Unreadable(e))
  }

  /** `get` in terms of the records of the day: a bad row fails it as
      corrupt; otherwise it succeeds exactly when every time parses, and
      the day is open exactly when the signed sum is negative. A finished
      day reports the hours and minutes of the signed sum, of the first
      "strt" time (0 without one), and of their sum. */
  lemma GetOfRecords(rows: seq<Row>)
    ensures ReadRecords(rows).Err? ==> Get(Some(rows)) == Err(Unreadable(Corrupt(ReadRecords(rows).error)))
    ensures ReadRecords(rows).Ok? ==> (Get(Some(rows)).Ok? <==> AllTimesParse(ReadRecords(rows).value))
    ensures Get(Some(rows)).Ok? ==>
              var recs := ReadRecords(rows).value;
              var info := DayInfo(if FirstStart(recs).None? then 0 else TimeValue(recs[FirstStart(recs).value]),
                                  SignedSum(recs));
              && (Get(Some(rows)).value.NotOverYet? <==> info.duration < 0)
              && (info.duration >= 0 ==> ReportReadsBack(Get(Some(rows)).value, info))
  {
    ReadWorkTimeAllOrNothing(rows);
    if Get(Some(rows)).Ok? {
      var recs := ReadRecords(rows).value;
      SummarizeValue(recs);
      var info := Summarize(recs).value;
      ReadWorkTimeOfRecords(rows, recs, info);
      if info.duration >= 0 {
        DayReportReadsBack(info);
      }
    }
  }

  /** The report holds the "HH:MM" fields of the day's duration, start and
      end. */
  predicate ReportReadsBack(r: Report, info: DayInfo) {
    && r.Worked?
    && ParseHHMM(r.duration) == Some((Hours(info.duration), Minutes(info.duration)))
    && ParseHHMM(r.from) == Some((Hours(info.start), Minutes(info.start)))
    && ParseHHMM(r.to) == Some((Hours(info.End()), Minutes(info.End())))
  }

  /** `get` on a readable day reports what `DayReport` makes of it. */
  lemma GetOfDay(log: seq<Row>, info: DayInfo)
    requires ReadWorkTime(log) == Ok(info)
    ensures Get(Some(log)) == Ok(DayReport(info))
  {
  }

  /** `stamp`: the file is created empty when it does not exist, then one
      record is appended by `update_time`. */
  function Stamp(file: Option<seq<Row>>, time: string): Result<seq<Row>, DayError> {
    var rows := match file case None => [] case Some(rows) => rows;
    UpdateTime(rows, time)
  }

  /** The first stamp of a day creates the file with the header and one
      "strt" record. */
  lemma FirstStampStarts(time: string)
    ensures Stamp(None, time) == Ok([HeaderRow, EncodeRecord(Record(StartKind, time))])
  {
    SummarizeEmpty();
    assert ReadWorkTime([]) == Ok(DayInfo(0, 0));
  }

  // ---------------------------------------------------------------------
  // Two days worked from 09:00:00 to 17:00:00
  // ---------------------------------------------------------------------

  lemma NineAndFive()
    ensures ParseTime("09:00:00") == Ok(9 * 3600)
    ensures ParseTime("17:00:00") == Ok(17 * 3600)
  {
    NineOClock();
    FiveOClock();
  }

  lemma NineOClock()
    ensures ParseTime("09:00:00") == Ok(32400)
  {
    Pad2Literals();
    PaddedFieldsParse(9, 0, 0, 32400);
    assert "09:00:00" == Pad2(9) + ":" + Pad2(0) + ":" + Pad2(0);
  }

  lemma FiveOClock()
    ensures ParseTime("17:00:00") == Ok(61200)
  {
    Pad2Literals();
    PaddedFieldsParse(17, 0, 0, 61200);
    assert "17:00:00" == Pad2(17) + ":" + Pad2(0) + ":" + Pad2(0);
  }

  lemma SignedSumPair(x: Record, y: Record)
    ensures SignedSum([x, y]) == Weight(x) + Weight(y)
  {
    assert [y][1..] == [];
    assert SumBy([y], Weight) == Weight(y) + SumBy([y][1..], Weight);
    assert [x, y][1..] == [y];
    assert SumBy([x, y], Weight) == Weight(x) + SumBy([y], Weight);
  }

  lemma FirstStartPair(x: Record, y: Record)
    requires IsStart(x)
    ensures FirstStart([x, y]) == Some(0)
  {
  }

  /** A day of two records, the first a "strt": it starts at the first
      time, and the second time is added or subtracted by its kind. */
  lemma TwoRecordDay(x: Record, y: Record, tx: int, d: int)
    requires IsStart(x) && ParseTime(x.time) == Ok(tx) && ParseTime(y.time).Ok?
    requires d == tx + Weight(y)
    ensures ReadWorkTime(BuildLog([x, y])) == Ok(DayInfo(tx, d))
  {
    TwoRecordFacts(x, y, tx, d);
    ReadStartedDay([x, y], tx, d);
  }

  lemma TwoRecordFacts(x: Record, y: Record, tx: int, d: int)
    requires IsStart(x) && ParseTime(x.time) == Ok(tx) && ParseTime(y.time).Ok?
    requires d == tx + Weight(y)
    ensures var recs := [x, y];
            AllTimesParse(recs) && FirstStart(recs) == Some(0) && TimeValue(recs[0]) == tx && SignedSum(recs) == d
  {
    var recs := [x, y];
    assert forall i :: 0 <= i < 2 ==> recs[i] == x || recs[i] == y;
    SignedSumPair(x, y);
    FirstStartPair(x, y);
  }

  /** A log holding a "strt" at 09:00:00 and a "stop" at 17:00:00 has
      duration 09:00:00 - 17:00:00 = -28800 seconds, so `get` reports the
      day as not over. */
  lemma NineToFiveIsNotOver()
    ensures var log := BuildLog([Record(StartKind, "09:00:00"), Record(StopKind, "17:00:00")]);
            && ReadWorkTime(log) == Ok(DayInfo(32400, -28800))
            && Get(Some(log)) == Ok(NotOverYet)
  {
    NineAndFive();
    assert Weight(Record(StopKind, "17:00:00")) == -61200;
    var log := BuildLog([Record(StartKind, "09:00:00"), Record(StopKind, "17:00:00")]);
    TwoRecordDay(Record(StartKind, "09:00:00"), Record(StopKind, "17:00:00"), 32400, -28800);
    GetOfDay(log, DayInfo(32400, -28800));
  }

  lemma Pad2Literals()
    ensures Pad2(0) == "00" && Pad2(9) == "09" && Pad2(17) == "17" && Pad2(26) == "26" && Pad2(35) == "35"
  {
    assert ShowNat(17) == ShowNat(1) + "7";
    assert ShowNat(26) == ShowNat(2) + "6";
    assert ShowNat(35) == ShowNat(3) + "5";
  }

  lemma FormatFields(s: int, h: int, m: int)
    requires Hours(s) == h && Minutes(s) == m
    ensures FormatHHMM(s) == Pad2(h) + ":" + Pad2(m)
  {
  }

  /** The three fields `get` prints for a day started at 09:00 that ran 26
      hours. */
  lemma TwentySixHoursFromNine()
    ensures DayReport(DayInfo(32400, 93600)) == Worked("26:00", "09:00", "35:00")
  {
    Pad2Literals();
    FormatFields(93600, 26, 0);
    FormatFields(32400, 9, 0);
    FormatFields(126000, 35, 0);
  }

  lemma StartsAtPair(a: string, b: string)
    ensures StartsAt([a, b]) == [Record(StartKind, a), Record(StartKind, b)]
  {
    var recs := StartsAt([a, b]);
    assert recs[0] == Record(StartKind, a) && recs[1] == Record(StartKind, b);
  }

  /** Two stamps at non-negative times from an empty log are both "strt". */
  lemma TwoStampsStart(a: string, b: string, ta: int, tb: int)
    requires ParseTime(a) == Ok(ta) && ta >= 0 && ParseTime(b) == Ok(tb) && tb >= 0
    ensures StampAll([], [a, b]) == Ok(BuildLog([Record(StartKind, a), Record(StartKind, b)]))
  {
    var times := [a, b];
    forall i | 0 <= i < |times|
      ensures ParseTime(times[i]).Ok? && ParseTime(times[i]).value >= 0
    {
      assert times[i] == a || times[i] == b;
    }
    EveryStampStarts(times);
    StartsAtPair(a, b);
  }

  /** Both stamps of the day are "strt" ones. */
  lemma NineAndFiveStampsStart()
    ensures StampAll([], ["09:00:00", "17:00:00"])
         == Ok(BuildLog([Record(StartKind, "09:00:00"), Record(StartKind, "17:00:00")]))
  {
    NineAndFive();
    TwoStampsStart("09:00:00", "17:00:00", 32400, 61200);
  }

  /** Stamping at 09:00:00 and at 17:00:00 from an empty log writes two
      "strt" records, and `get` then reports 26 hours, from 09:00 to 35:00. */
  lemma StampedNineToFive()
    ensures StampAll([], ["09:00:00", "17:00:00"]).Ok?
    ensures var log := StampAll([], ["09:00:00", "17:00:00"]).value;
            && ReadRecords(log) == Ok([Record(StartKind, "09:00:00"), Record(StartKind, "17:00:00")])
            && Get(Some(log)) == Ok(Worked("26:00", "09:00", "35:00"))
  {
    var recs := [Record(StartKind, "09:00:00"), Record(StartKind, "17:00:00")];
    NineAndFiveStampsStart();
    ReadBuiltLog(recs);
    NineAndFive();
    assert Weight(recs[1]) == 61200;
    TwoRecordDay(recs[0], recs[1], 32400, 93600);
    GetOfDay(BuildLog(recs), DayInfo(32400, 93600));
    TwentySixHoursFromNine();
  }
}
