# azk work-time tracker — Dafny model

`azk` is a command-line work-time tracker. Every `stamp` appends a
timestamped record, tagged `strt` or `stop`, to the CSV log of the
current day. `get` reads that log back and reports how long was worked.
This project models the logic in `src/main.rs` as pure functions and
proves what that logic guarantees.

- **Time codec** (`time_codec.dfy`, module `TimeCodec`):
  - `hhmmss_to_s`, including how `splitn(3, ':')` splits its input and
    how Rust's `parse::<isize>` accepts text;
  - `s_to_hhmm`, with Rust's truncating `/` and `%` and `{:02}`;
  - `_hhmmss_distance`;
  - the `%H:%M:%S` clock text that `stamp` writes.
- **Record log** (`record_log.dfy`, module `RecordLog`):
  - `Record`, and the CSV file as a sequence of rows;
  - `write_record`, which writes the header only into an empty file;
  - the reader that `read_work_time` uses: it takes row 0 as the header
    and deserialises every later row by field name.
- **Work time** (`work_time.dfy`, module `WorkTime`):
  - `DayInfo` and `read_work_time`: partition on `kind == "strt"`, sum
    each side, take the start from the first `strt`;
  - `update_time`, which chooses the next record's kind from the sign of
    the duration;
  - repeated stamping.
- **Commands** (`commands.dfy`, module `Commands`):
  - the `stamp` arm of `main` with the clock taken out;
  - the `get` arm, including its report arithmetic;
  - two concrete days.
- `wrappers.dfy` (`Option`, `Result`) and `seqs.dfy` (generic sequence and
  sum lemmas) are support modules.

A panic in the program becomes an `Err` in the model:

- `expect`, `unwrap` or `panic!` inside `hhmmss_to_s` or `read_work_time`
  become `TimeError` or `DayError`;
- `File::open` failing in `get` becomes `GetError.NoLog`.

Parsing follows the program's lazy iterator order, so the first step that
fails decides which error is returned. A row that does not deserialise
fails the read before any time is parsed, because `partition` consumes
every row first.

### What the toggle does as written

The help text of `stamp` promises to "toggle between work and break"
(main.rs:147-148). The code does not toggle that way:

- The duration is the sum of the `strt` times minus the sum of all other
  times (main.rs:75-81).
- The next stamp is `stop` only when that duration is negative
  (main.rs:131).

Every time of day is a non-negative number of seconds. A day stamped
from an empty log therefore never gets a `stop`: every record is `strt`
(`WorkTime.EveryStampStarts`). For example, stamping at 09:00:00 and
then at 17:00:00 writes two `strt` records. `get` then reports "26:00"
worked, from "09:00" to "35:00" (`Commands.StampedNineToFive`).

A `stop` only appears in a log written by hand. A log with a `strt` at
09:00:00 and a `stop` at 17:00:00 has duration −28800, so `get` reports
the day as not over (`Commands.NineToFiveIsNotOver`).

Two more consequences of the code:

- Any kind other than exactly `strt` counts as a stop.
- "Work ain't over yet" is printed on standard output, and `get` still
  returns `Ok`.

## Model

| member | source | states |
|---|---|---|
| TimeCodec.ParseInt | src/main.rs:28 | `parse::<isize>` succeeds only on non-empty text without ':' or blanks (the shape needed for a `splitn` part) |
| TimeCodec.Pad2Parses | src/main.rs:41 | `{:02}` text parses back to the same integer; for 0..99 it is exactly two digits |
| TimeCodec.SplitN3 | src/main.rs:26-27 | `splitn(3, ':')` yields one to three parts |
| TimeCodec.SplitN3Parts | src/main.rs:26-27 | the parts join back to the input with ':'; only the last part can hold a ':' and only when there are three parts |
| TimeCodec.SplitN3OfJoin | src/main.rs:26-27 | three parts, the first two colon-free, joined by ':' split back into exactly those parts |
| TimeCodec.ParseTimeOk | src/main.rs:25-35 | `hhmmss_to_s` succeeds if and only if there are three parts and all are integers; its value is h*3600 + m*60 + s |
| TimeCodec.ParseTimeOfParts | src/main.rs:25-35 | three integer texts joined by ':' parse to h*3600 + m*60 + s |
| TimeCodec.ParseTimeNeedsTwoColons | src/main.rs:26-32 | a time that parses has exactly two colons: with fewer a part is missing, with more the third part is not an integer |
| TimeCodec.ClockString | src/main.rs:171 | the `%H:%M:%S` text of a time of day has eight characters with colons at positions 2 and 5 |
| TimeCodec.ClockRoundTrip | src/main.rs:25-35 | `hhmmss_to_s` inverts the `%H:%M:%S` clock text for every second of the day |
| TimeCodec.TruncDiv | src/main.rs:38 | Rust's integer `/` rounds toward zero: the remainder takes the sign of the dividend and is smaller than the divisor |
| TimeCodec.TruncRem | src/main.rs:39 | Rust's `%`: the remainder takes the sign of the dividend, is below the divisor in size, and recombines with the quotient to the dividend |
| TimeCodec.TwoDigits | src/main.rs:41 | below 100, `{:02}` writes two decimal digits whose value is the number |
| TimeCodec.FormatHHMMShape | src/main.rs:37-42 | for 0 <= s < 100 hours, `s_to_hhmm` yields "HH:MM": two digits, a colon, two digits, and the minutes are below 60 |
| TimeCodec.FormatHHMMDecodes | src/main.rs:37-42 | the `s_to_hhmm` text reads back as the truncated hours and the truncated minutes of the remainder |
| TimeCodec.FormatHHMMDependsOnlyOnFields | src/main.rs:37-42 | two second counts give the same text if and only if their hour and minute fields agree |
| TimeCodec.FieldsOfNonNegative | src/main.rs:38-39 | for a non-negative count the fields are whole hours and minutes in 0..59 |
| TimeCodec.FormatHHMMDropsSeconds | src/main.rs:37-42 | seconds below a minute do not show: truncating toward zero to whole minutes keeps the text |
| TimeCodec.NonNegativeDecodes | src/main.rs:37-42 | a non-negative count reads back as s / 3600 and s % 3600 / 60 |
| TimeCodec.DistanceSymmetric | src/main.rs:44-49 | the distance succeeds exactly when both times parse, and swapping its arguments changes nothing |
| TimeCodec.DistanceNonNegative | src/main.rs:44-49 | the distance formats \|to − from\|, so it reads back as that gap's whole hours and remaining minutes |
| RecordLog.FieldIndex | src/main.rs:9-15 | the position of a field name in the header, absent exactly when the header lacks the name |
| RecordLog.RepeatedField | src/main.rs:9 | the derived `Deserialize` of `Record` finds a repeated field exactly when `kind` or `time` occurs more than once in the header; other names do not matter |
| RecordLog.DecodeRow | src/main.rs:9-15 | a row deserialises exactly when it has as many fields as the header and the header names `kind` and `time` once each; the record takes the fields under those names |
| RecordLog.RepeatedKindRejected | src/main.rs:9 | a header naming `kind` twice fails at the second `kind`, although a `time` is present |
| RecordLog.DecodeEncode | src/main.rs:9-15 | a `Record` serialised under the program's own header deserialises to itself |
| RecordLog.DecodeRows | src/main.rs:66-72 | the rows decode if and only if every row does; the records then correspond to the rows one for one, in order |
| RecordLog.ReadRecords | src/main.rs:62-72 | reading fails exactly when some data row fails; otherwise there is one record per row after the header, in order |
| RecordLog.WriteRecord | src/main.rs:51-59 | writing appends after the existing rows and never changes them; the header is added exactly when the file has no rows |
| RecordLog.ReadAfterWrite | src/main.rs:51-72 | after a write the read succeeds exactly when it did before, and yields the earlier records plus the new one |
| RecordLog.EncodeAll | src/main.rs:56 | one row per record, in order |
| RecordLog.BuildLogShape | src/main.rs:51-59 | a log built only by writes holds a single header in front, followed by the written records |
| RecordLog.ReadBuiltLog | src/main.rs:51-72 | reading a log built only by writes gives back every written record |
| WorkTime.FirstStart | src/main.rs:77 | the first record tagged "strt": it is one, and none before it is |
| WorkTime.Partition | src/main.rs:73 | the first side holds only "strt" records and the second only records of other kinds |
| WorkTime.PartitionPermutes | src/main.rs:73 | every record lands on exactly one side, as often as it occurs |
| WorkTime.PartitionFirst | src/main.rs:73-77 | `starts.get(0)` exists exactly when the log has a "strt", and is the first one |
| WorkTime.SumTimes | src/main.rs:75-76 | summing the parsed times succeeds exactly when every time parses, and gives their total |
| WorkTime.PartitionSums | src/main.rs:73-81 | the starts' total minus the rest's total is the signed sum of the log |
| WorkTime.SummarizeAllOrNothing | src/main.rs:68-82 | the summary succeeds exactly when every record's time parses, whatever its kind |
| WorkTime.SummarizeDuration | src/main.rs:75-81 | the duration is the sum of the "strt" times minus the sum of all other times |
| WorkTime.SummarizeStart | src/main.rs:77 | the start is the time of the first "strt", or 0 without one |
| WorkTime.SummarizeValue | src/main.rs:68-82 | with all times parsing, the summary is the first start's time and the signed sum |
| WorkTime.SummarizeEmpty | src/main.rs:77-82 | an empty log gives start 0 and duration 0 |
| WorkTime.SignedSumPermutation | src/main.rs:73-81 | the signed sum does not depend on the order of the records |
| WorkTime.DurationPermutationInvariant | src/main.rs:68-82 | reordering the records changes neither whether the summary succeeds nor its duration |
| WorkTime.ReadWorkTimeAllOrNothing | src/main.rs:61-82 | a bad row fails the read as corrupt even if a time is also bad; with every row readable, the read fails exactly when a time does not parse |
| WorkTime.NextKind | src/main.rs:131 | the next kind is "stop" if and only if the duration is negative, and "strt" otherwise |
| WorkTime.UpdateTimeAppends | src/main.rs:128-140 | a stamp succeeds exactly when the read does; it keeps the earlier rows and adds one record with the given time, "stop" exactly when the earlier signed sum is negative |
| WorkTime.StartsAreNonNegative | src/main.rs:75-81 | "strt" records at non-negative times give a non-negative duration |
| WorkTime.ReadBuiltDay | src/main.rs:61-82 | reading a written log whose times parse gives the first start's time and the signed sum |
| WorkTime.StampAfterStarts | src/main.rs:128-140 | a stamp after only "strt" records at non-negative times writes another "strt" |
| WorkTime.EveryStampStarts | src/main.rs:128-140 | stamping from an empty log at non-negative times writes only "strt" records, one per stamp, in order |
| Commands.DayReport | src/main.rs:193-200 | the day is reported as not over exactly when the duration is negative |
| Commands.DayReportReadsBack | src/main.rs:193-200 | a finished day reports the hours and minutes of the duration, of the start, and of start + duration |
| Commands.Get | src/main.rs:189-201 | a missing file is an error; `get` succeeds exactly when the read does, passes the read's error on otherwise, and reports the day as not over exactly when the read duration is negative |
| Commands.GetOfRecords | src/main.rs:189-201 | a bad row fails `get` as corrupt; with every row readable it succeeds exactly when every time parses; the day is open exactly when the signed sum of the records is negative, and a finished day reports the "HH:MM" fields of that sum, of the first "strt" time, and of their total |
| Commands.FirstStampStarts | src/main.rs:176-183 | the first stamp of a day creates the header and a single "strt" record |
| Commands.TwentySixHoursFromNine | src/main.rs:196-200 | a day starting at 09:00 that lasts 26 hours is reported as "26:00" from "09:00" to "35:00" |
| Commands.NineToFiveIsNotOver | src/main.rs:189-201 | a "strt" at 09:00:00 followed by a "stop" at 17:00:00 has duration −28800 and is reported as not over |
| Commands.StampedNineToFive | src/main.rs:176-201 | stamping at 09:00:00 and at 17:00:00 writes two "strt" records, and `get` reports 26:00 worked, from 09:00 to 35:00 |

## Left out

- Command-line parsing (`clap`), `println!` and `dbg!` output, and the
  process exit status. `get` returns a `Report` value instead of printing
  it.
- The data directory and file path resolution (`directories::ProjectDirs`,
  `create_dir_all`). `stamp` and `get` receive the day's log directly.
- The clock (`chrono::Local::now`). The stamp time is a parameter. The
  `%H:%M:%S` text is modelled as `ClockString` and used in the round-trip
  lemma.
- RecordLog.WriteRecord: "the file is empty" is modelled as "the file has
  no rows", but the program tests a length of zero bytes (main.rs:52). A
  file holding only blank lines has no CSV rows but a non-zero length.
  The program writes no header into such a file, so the next read takes
  the first stamped record as the header. The model cannot represent
  that file.
- File I/O, `metadata()` and flush errors, and the CSV crate's byte-level
  quoting and escaping. A file is a sequence of rows of fields, so these
  failures are not modelled.
- `isize` overflow in `hhmmss_to_s`, in the sums and in `start + duration`.
  Integers are unbounded.
- The commented-out loop in main.rs:84-125, which is dead code.
- `get DAY`: the argument only changes the printed label, because the file
  read is always today's. The label is not part of `Report`.
- Concurrent stamps on the same file, and the Windows or OS behaviour of
  append mode.
- `Commands.Stamp`: has no contract of its own. Its behaviour is stated
  through `WorkTime.UpdateTimeAppends`, `Commands.FirstStampStarts` and the
  two concrete days.
