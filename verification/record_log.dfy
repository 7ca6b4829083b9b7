/** The day's log as `write_record` and `read_work_time` see it through the
    csv crate: a sequence of rows, each a sequence of fields. The reader
    takes the first row as the header and deserialises every later row into
    a `Record` by the header's field names; the writer serialises a `Record`
    as its two fields and puts the header `kind,time` in front only when the
    file is empty. Byte-level quoting and escaping are below this model. */
module RecordLog {
  import opened Wrappers
  import opened Seqs

  /** `Record`: one stamp, a free-form kind tag and the time text. */
  datatype Record = Record(kind: string, time: string)

  /** One CSV row, as its fields. */
  datatype Row = Row(fields: seq<string>)

  /** The header serialising a `Record` writes: its field names in order. */
  const HeaderRow: Row := Row(["kind", "time"])

  /** Why deserialising a row fails (the `Err` that `read_work_time`
      turns into a panic). Rows are numbered from 0, the header. */
  datatype LogError =
    | UnequalLengths(row: nat)
    | DuplicateField(row: nat, field: string)
    | MissingField(row: nat, field: string)

  function EncodeRecord(r: Record): Row {
    Row([r.kind, r.time])
  }

  /** The position of the first field called `name`. */
  function FieldIndex(names: seq<string>, name: string): (r: Option<nat>)
    ensures r.Some? ==> r.value < |names| && names[r.value] == name
                        && forall j :: 0 <= j < r.value ==> names[j] != name
    ensures r.None? <==> name !in names
  {
    if |names| == 0 then None
    else if names[0] == name then Some(0)
    else
      match FieldIndex(names[1..], name)
      case None => None
      case Some(i) => Some(i + 1)
  }

  predicate IsRecordField(name: string) {
    name == "kind" || name == "time"
  }

  /** A field name occurs at most once among `names` and the names already
      `seen`. */
  predicate AtMostOnce(names: seq<string>, seen: set<string>, name: string) {
    multiset(names)[name] + (if name in seen then 1 else 0) <= 1
  }

  /** Serde's derived visitor for `Record` takes the header/field pairs in
      order and fails on the first `kind` or `time` it has already seen;
      other names are ignored. `seen` holds the record fields met so far. */
  function RepeatedField(names: seq<string>, seen: set<string>): (r: Option<string>)
    ensures r.Some? ==> IsRecordField(r.value)
    ensures r.None? <==> AtMostOnce(names, seen, "kind") && AtMostOnce(names, seen, "time")
  {
    if |names| == 0 then None
    else
      assert multiset(names) == multiset{names[0]} + multiset(names[1..]) by {
        HeadTail(names);
      }
      if IsRecordField(names[0]) && names[0] in seen then Some(names[0])
      else RepeatedField(names[1..], if IsRecordField(names[0]) then seen + {names[0]} else seen)
  }

  /** Deserialising one data row: it must have as many fields as the header
      (checked by the reader), the header must not repeat a field of
      `Record` (checked while visiting the pairs) and must name both of them
      (checked after, `kind` first). */
  function DecodeRow(header: Row, row: Row, index: nat): (r: Result<Record, LogError>)
    ensures r.Ok? <==> |row.fields| == |header.fields|
                       && multiset(header.fields)["kind"] == 1 && multiset(header.fields)["time"] == 1
    ensures r.Ok? ==> exists k, t :: 0 <= k < |header.fields| && 0 <= t < |header.fields|
                                     && header.fields[k] == "kind" && header.fields[t] == "time"
                                     && r.value == Record(row.fields[k], row.fields[t])
  {
    if |row.fields| != |header.fields| then Err(UnequalLengths(index))
    else
      match RepeatedField(header.fields, {})
      case Some(name) => Err(DuplicateField(index, name))
      case None =>
        match FieldIndex(header.fields, "kind")
        case None => Err(MissingField(index, "kind"))
        case Some(k) =>
          match FieldIndex(header.fields, "time")
          case None => Err(MissingField(index, "time"))
          case Some(t) => Ok(Record(row.fields[k], row.fields[t]))
  }

  /** A record written under the program's own header reads back unchanged. */
  lemma DecodeEncode(r: Record, index: nat)
    ensures DecodeRow(HeaderRow, EncodeRecord(r), index) == Ok(r)
  {
    assert FieldIndex(["kind", "time"], "kind") == Some(0);
    assert ["kind", "time"][1..] == ["time"];
    assert FieldIndex(["kind", "time"], "time") == Some(1);
  }

  /** A header that names `kind` twice fails at the second `kind`, even
      though a `time` follows. */
  lemma RepeatedKindRejected()
    ensures DecodeRow(Row(["kind", "kind", "time"]), Row(["strt", "stop", "09:00:00"]), 1)
         == Err(DuplicateField(1, "kind"))
  {
    var names := ["kind", "kind", "time"];
    assert names[1..] == ["kind", "time"];
    assert RepeatedField(names[1..], {"kind"}) == Some("kind");
  }

  /** Rows `from` onward, decoded in order; the first bad row aborts. */
  function DecodeRows(header: Row, rows: seq<Row>, from: nat): (r: Result<seq<Record>, LogError>)
    requires from <= |rows|
    decreases |rows| - from
    ensures r.Ok? <==> forall i :: from <= i < |rows| ==> DecodeRow(header, rows[i], i).Ok?
    ensures r.Ok? ==> |r.value| == |rows| - from
    ensures r.Ok? ==> forall i :: from <= i < |rows| ==> DecodeRow(header, rows[i], i) == Ok(r.value[i - from])
  {
    if from == |rows| then Ok([])
    else
      var rec :- DecodeRow(header, rows[from], from);
      var rest :- DecodeRows(header, rows, from + 1);
      Ok([rec] + rest)
  }

  /** `csv::Reader` with `deserialize::<Record>` collected eagerly: an empty
      file has no records; otherwise row 0 is the header and every other
      row must decode, or the whole read fails. */
  function ReadRecords(file: seq<Row>): (r: Result<seq<Record>, LogError>)
    ensures r.Ok? <==> forall i :: 1 <= i < |file| ==> DecodeRow(file[0], file[i], i).Ok?
    ensures r.Ok? ==> |r.value| == if |file| == 0 then 0 else |file| - 1
    ensures r.Ok? ==> forall i :: 1 <= i < |file| ==> DecodeRow(file[0], file[i], i) == Ok(r.value[i - 1])
  {
    if |file| == 0 then Ok([]) else DecodeRows(file[0], file, 1)
  }

  /** `write_record`: the header goes in only when the file is still empty
      (`metadata().len() == 0`); the record is appended after what is
      there, which is never rewritten. */
  function WriteRecord(file: seq<Row>, rec: Record): (r: seq<Row>)
    ensures |r| > |file| && r[..|file|] == file
    ensures r[|r| - 1] == EncodeRecord(rec)
    ensures |r| == |file| + 2 <==> |file| == 0
    ensures |r| == |file| + 1 <==> |file| > 0
    ensures |file| == 0 ==> r[0] == HeaderRow
  {
    if |file| == 0 then [HeaderRow, EncodeRecord(rec)] else file + [EncodeRecord(rec)]
  }

  /** A log whose first row, if any, is the program's own header. */
  predicate ProperHeader(file: seq<Row>) {
    |file| == 0 || file[0] == HeaderRow
  }

  /** Reading after writing yields the records read before plus the new one. */
  lemma ReadAfterWrite(file: seq<Row>, rec: Record)
    requires ProperHeader(file)
    ensures ProperHeader(WriteRecord(file, rec))
    ensures ReadRecords(WriteRecord(file, rec)).Ok? <==> ReadRecords(file).Ok?
    ensures ReadRecords(file).Ok? ==> ReadRecords(WriteRecord(file, rec)) == Ok(ReadRecords(file).value + [rec])
  {
    var after := WriteRecord(file, rec);
    DecodeEncode(rec, |after| - 1);
    if |file| == 0 {
      assert after == [HeaderRow, EncodeRecord(rec)];
      assert DecodeRow(after[0], after[1], 1) == Ok(rec);
      assert ReadRecords(after).value == [rec];
      assert ReadRecords(file).value + [rec] == [rec];
    } else {
      assert after == file + [EncodeRecord(rec)];
      forall i | 1 <= i < |file|
        ensures DecodeRow(after[0], after[i], i) == DecodeRow(file[0], file[i], i)
      {
        assert after[i] == file[i];
      }
      if ReadRecords(file).Ok? {
        var before := ReadRecords(file).value;
        assert ReadRecords(after).Ok?;
        var got := ReadRecords(after).value;
        assert |got| == |before| + 1;
        forall i | 0 <= i < |got|
          ensures got[i] == (before + [rec])[i]
        {
          if i < |before| {
            assert DecodeRow(after[0], after[i + 1], i + 1) == Ok(got[i]);
            assert DecodeRow(file[0], file[i + 1], i + 1) == Ok(before[i]);
          } else {
            assert DecodeRow(after[0], after[i + 1], i + 1) == Ok(got[i]);
          }
        }
        assert got == before + [rec];
      } else {
        var i :| 1 <= i < |file| && !DecodeRow(file[0], file[i], i).Ok?;
        assert !DecodeRow(after[0], after[i], i).Ok?;
      }
    }
  }

  /** The rows for the given records, one each, in order. */
  function EncodeAll(recs: seq<Record>): (rows: seq<Row>)
    ensures |rows| == |recs|
    ensures forall i :: 0 <= i < |recs| ==> rows[i] == EncodeRecord(recs[i])
  {
    if |recs| == 0 then [] else EncodeAll(recs[..|recs| - 1]) + [EncodeRecord(recs[|recs| - 1])]
  }

  /** The log produced by writing the records one after another, starting
      from an empty file. */
  function BuildLog(recs: seq<Record>): seq<Row> {
    if |recs| == 0 then [] else WriteRecord(BuildLog(recs[..|recs| - 1]), recs[|recs| - 1])
  }

  /** A log built only by `write_record` holds one header, in front, and
      then exactly the written records; the empty log has no header. */
  lemma {:induction false} BuildLogShape(recs: seq<Record>)
    ensures BuildLog(recs) == if |recs| == 0 then [] else [HeaderRow] + EncodeAll(recs)
  {
    if |recs| > 1 {
      var init := recs[..|recs| - 1];
      BuildLogShape(init);
      assert BuildLog(recs) == [HeaderRow] + EncodeAll(init) + [EncodeRecord(recs[|recs| - 1])];
    }
  }

  /** Reading a log built only by `write_record` gives back every record. */
  lemma {:induction false} ReadBuiltLog(recs: seq<Record>)
    ensures ProperHeader(BuildLog(recs))
    ensures ReadRecords(BuildLog(recs)) == Ok(recs)
  {
    if |recs| > 0 {
      var init := recs[..|recs| - 1];
      ReadBuiltLog(init);
      ReadAfterWrite(BuildLog(init), recs[|recs| - 1]);
      InitLast(recs);
    }
  }
}
