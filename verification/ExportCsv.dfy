/**
 The CSV manifest of an export, and a reader for section 2 of RFC 4180 that takes it apart again.
 */
module ExportCsv {
  import opened Wrappers
  import opened Texts

  const QUOTE: CodeUnit := 0x22
  const COMMA: CodeUnit := 0x2C
  const CR: CodeUnit := 0x0D
  const LF: CodeUnit := 0x0A

  datatype ManifestRow = ManifestRow(
    recordId: Text, jobNumber: Text, assetCode: Text, documentNumber: Text, revisionCode: Text,
    frequency: Text, archivedAt: Option<Text>, pdfFilename: Text)

  type Record = fields: seq<Text> | |fields| > 0 witness [[]]

  const HEADER: Record := [
    Ascii("recordId"), Ascii("jobNumber"), Ascii("assetCode"), Ascii("documentNumber"),
    Ascii("revisionCode"), Ascii("frequency"), Ascii("archivedAt"), Ascii("pdfFilename")]

  function Fields(row: ManifestRow): Record {
    [row.recordId, row.jobNumber, row.assetCode, row.documentNumber, row.revisionCode, row.frequency,
     match row.archivedAt { case None => [] case Some(at) => at }, row.pdfFilename]
  }

  function AllFields(rows: seq<ManifestRow>): (records: seq<Record>)
    ensures |records| == |rows|
  {
    seq(|rows|, i requires 0 <= i < |rows| => Fields(rows[i]))
  }

  // ---------------------------------------------------------------- writing

  predicate IsSpecial(c: CodeUnit) {
    c == QUOTE || c == COMMA || c == LF || c == CR
  }

  /** `replace(/"/g, '""')` */
  function DoubleQuotes(value: Text): Text {
    if value == [] then []
    else (if value[0] == QUOTE then [QUOTE, QUOTE] else [value[0]]) + DoubleQuotes(value[1..])
  }

  function CsvField(value: Text): Text {
    if exists i | 0 <= i < |value| :: IsSpecial(value[i]) then [QUOTE] + DoubleQuotes(value) + [QUOTE] else value
  }

  /** `.map(csvField).join(',')` */
  function Line(fields: Record): Text {
    if |fields| == 1 then CsvField(fields[0]) else CsvField(fields[0]) + [COMMA] + Line(fields[1..])
  }

  /** Every record on a line of its own, each line ended. */
  function WriteFile(records: seq<Record>): Text {
    if records == [] then [] else Line(records[0]) + ([CR, LF] + WriteFile(records[1..]))
  }

  /** `lines.join('\r\n')` */
  function JoinLines(lines: seq<Text>): Text {
    if lines == [] then []
    else if |lines| == 1 then lines[0]
    else lines[0] + ([CR, LF] + JoinLines(lines[1..]))
  }

  lemma {:induction false} JoinedLinesAreFile(records: seq<Record>, lines: seq<Text>)
    requires |records| == |lines| > 0
    requires forall i | 0 <= i < |lines| :: lines[i] == Line(records[i])
    ensures JoinLines(lines) + [CR, LF] == WriteFile(records)
  {
    if |lines| == 1 {
      assert WriteFile(records[1..]) == [];
      assert [CR, LF] + [] == [CR, LF];
    } else {
      JoinedLinesAreFile(records[1..], lines[1..]);
      EndAfter(lines[0], JoinLines(lines[1..]));
    }
  }

  lemma EndAfter(a: Text, b: Text)
    ensures a + ([CR, LF] + b) + [CR, LF] == a + ([CR, LF] + (b + [CR, LF]))
  {}

  /** The manifest is the header and one record for each row, and reads back as exactly those. */
  method BuildExportManifestCsv(rows: seq<ManifestRow>) returns (csv: Text)
    ensures csv == WriteFile([HEADER] + AllFields(rows))
    ensures ReadFile(csv) == Some([HEADER] + AllFields(rows))
  {
    WrittenReadsBack([HEADER] + AllFields(rows));
    csv := WriteLines(HEADER, rows);
  }

  /** The lines of the first `n` records. */
  ghost predicate AreLines(lines: seq<Text>, records: seq<Record>, n: nat) {
    |lines| == n <= |records| && forall i | 0 <= i < n :: lines[i] == Line(records[i])
  }

  method WriteLines(header: Record, rows: seq<ManifestRow>) returns (csv: Text)
    ensures csv == WriteFile([header] + AllFields(rows))
  {
    ghost var records := [header] + AllFields(rows);
    var lines := [Line(header)];
    for k := 0 to |rows|
      invariant AreLines(lines, records, k + 1)
    {
      assert records[k + 1] == Fields(rows[k]);
      lines := lines + [Line(Fields(rows[k]))];
    }
    JoinedLinesAreFile(records, lines);
    csv := JoinLines(lines) + [CR, LF];
  }

  // ---------------------------------------------------------------- reading, RFC 4180 section 2

  datatype Read<+T> = Read(value: T, rest: Text)

  /** The rest of an escaped field: a doubled quote is a quote, a single one ends the field. */
  function ReadEscaped(t: Text): (r: Option<Read<Text>>)
    ensures r.Some? ==> |r.value.rest| < |t|
  {
    if t == [] then None
    else if t[0] == 0x22 && (|t| == 1 || t[1] != 0x22) then Some(Read([], t[1..]))
    else
      var skip := if t[0] == 0x22 then 2 else 1;
      match ReadEscaped(t[skip..])
      case None => None
      case Some(r) => Some(Read([t[0]] + r.value, r.rest))
  }

  /** A non-escaped field: everything up to the next comma, quote or line break. */
  function ReadPlain(t: Text): (r: Read<Text>)
    ensures |r.rest| <= |t|
  {
    if t == [] || t[0] in {0x22, 0x2C, 0x0D, 0x0A} then Read([], t)
    else
      var r := ReadPlain(t[1..]);
      Read([t[0]] + r.value, r.rest)
  }

  function ReadField(t: Text): (r: Option<Read<Text>>)
    ensures r.Some? ==> |r.value.rest| <= |t|
  {
    if t != [] && t[0] == 0x22 then ReadEscaped(t[1..]) else Some(ReadPlain(t))
  }

  function ReadRecord(t: Text): (r: Option<Read<Record>>)
    ensures r.Some? ==> |r.value.rest| <= |t|
    decreases |t|
  {
    match ReadField(t)
    case None => None
    case Some(f) =>
      if f.rest != [] && f.rest[0] == 0x2C then
        match ReadRecord(f.rest[1..])
        case None => None
        case Some(more) => Some(Read([f.value] + more.value, more.rest))
      else Some(Read([f.value], f.rest))
  }

  /** Records separated by line breaks; the last one may end without. */
  function ReadFile(t: Text): Option<seq<Record>>
    decreases |t|
  {
    if t == [] then Some([])
    else
      match ReadRecord(t)
      case None => None
      case Some(r) =>
        if r.rest == [] then Some([r.value])
        else if |r.rest| < 2 || r.rest[0] != 0x0D || r.rest[1] != 0x0A then None
        else
          match ReadFile(r.rest[2..])
          case None => None
          case Some(more) => Some([r.value] + more)
  }

  // ---------------------------------------------------------------- round trip

  predicate EndsField(rest: Text) {
    rest != [] && (rest[0] == COMMA || rest[0] == CR)
  }

  lemma EscapedUnit(c: CodeUnit, behind: Text, value: Text, rest: Text)
    requires ReadEscaped(behind) == Some(Read(value, rest))
    ensures ReadEscaped((if c == QUOTE then [QUOTE, QUOTE] else [c]) + behind) == Some(Read([c] + value, rest))
  {
    assert ([QUOTE, QUOTE] + behind)[2..] == behind && ([c] + behind)[1..] == behind;
  }

  lemma EscapedEnd(rest: Text)
    requires EndsField(rest)
    ensures ReadEscaped([QUOTE] + rest) == Some(Read([], rest))
  {
    assert ([QUOTE] + rest)[1..] == rest;
  }

  lemma Regroup(a: Text, b: Text, c: Text, d: Text)
    ensures (a + b) + c + d == a + (b + c + d)
  {}

  lemma {:induction false} EscapedReadsBack(value: Text, rest: Text)
    requires EndsField(rest)
    ensures ReadEscaped(DoubleQuotes(value) + [QUOTE] + rest) == Some(Read(value, rest))
  {
    if value == [] {
      assert DoubleQuotes(value) + [QUOTE] + rest == [QUOTE] + rest;
      EscapedEnd(rest);
    } else {
      EscapedReadsBack(value[1..], rest);
      var behind := DoubleQuotes(value[1..]) + [QUOTE] + rest;
      EscapedUnit(value[0], behind, value[1..], rest);
      Regroup(if value[0] == QUOTE then [QUOTE, QUOTE] else [value[0]], DoubleQuotes(value[1..]), [QUOTE], rest);
      assert value == [value[0]] + value[1..];
    }
  }

  lemma {:induction false} PlainReadsBack(value: Text, rest: Text)
    requires forall i | 0 <= i < |value| :: !IsSpecial(value[i])
    requires EndsField(rest)
    ensures ReadPlain(value + rest) == Read(value, rest)
  {
    if value == [] {
      assert value + rest == rest;
    } else {
      PlainReadsBack(value[1..], rest);
      assert (value + rest)[1..] == value[1..] + rest;
      assert (value + rest)[0] == value[0] && !IsSpecial(value[0]);
      assert value == [value[0]] + value[1..];
    }
  }

  lemma EscapedStarts(inner: Text, rest: Text)
    ensures
      var t := [QUOTE] + inner + [QUOTE] + rest;
      t[0] == QUOTE && t[1..] == inner + [QUOTE] + rest
  {}

  lemma FieldReadsBack(value: Text, rest: Text)
    requires EndsField(rest)
    ensures ReadField(CsvField(value) + rest) == Some(Read(value, rest))
  {
    var t := CsvField(value) + rest;
    if exists i | 0 <= i < |value| :: IsSpecial(value[i]) {
      EscapedReadsBack(value, rest);
      EscapedStarts(DoubleQuotes(value), rest);
    } else {
      PlainReadsBack(value, rest);
      assert t[0] == if value == [] then rest[0] else value[0];
    }
  }

  lemma RecordStops(t: Text, field: Text, rest: Text)
    requires ReadField(t) == Some(Read(field, rest)) && rest != [] && rest[0] == CR
    ensures ReadRecord(t) == Some(Read([field], rest))
  {}

  lemma RecordGoesOn(t: Text, field: Text, behind: Text, more: Record, rest: Text)
    requires ReadField(t) == Some(Read(field, [COMMA] + behind))
    requires ReadRecord(behind) == Some(Read(more, rest))
    ensures ReadRecord(t) == Some(Read([field] + more, rest))
  {
    assert ([COMMA] + behind)[1..] == behind;
  }

  lemma LineSplit(a: Text, b: Text, rest: Text)
    ensures a + [COMMA] + b + rest == a + ([COMMA] + (b + rest))
  {}

  lemma {:induction false} RecordReadsBack(fields: Record, rest: Text)
    requires rest != [] && rest[0] == CR
    ensures ReadRecord(Line(fields) + rest) == Some(Read(fields, rest))
  {
    if |fields| == 1 {
      FieldReadsBack(fields[0], rest);
      RecordStops(Line(fields) + rest, fields[0], rest);
      assert fields == [fields[0]];
    } else {
      var behind := Line(fields[1..]) + rest;
      LineSplit(CsvField(fields[0]), Line(fields[1..]), rest);
      FieldReadsBack(fields[0], [COMMA] + behind);
      RecordReadsBack(fields[1..], rest);
      RecordGoesOn(Line(fields) + rest, fields[0], behind, fields[1..], rest);
      assert fields == [fields[0]] + fields[1..];
    }
  }

  /** Whatever the fields hold - commas, quotes, line breaks - every record reads back unchanged. */
  lemma {:induction false} WrittenReadsBack(records: seq<Record>)
    ensures ReadFile(WriteFile(records)) == Some(records)
  {
    if records != [] {
      var rest := [CR, LF] + WriteFile(records[1..]);
      RecordReadsBack(records[0], rest);
      assert rest[2..] == WriteFile(records[1..]);
      WrittenReadsBack(records[1..]);
      assert records == [records[0]] + records[1..];
    }
  }

  /** Two manifests are the same text exactly when their rows are, a missing date reading as the empty one. */
  lemma SameManifestIff(a: seq<ManifestRow>, b: seq<ManifestRow>)
    ensures WriteFile([HEADER] + AllFields(a)) == WriteFile([HEADER] + AllFields(b)) <==> AllFields(a) == AllFields(b)
  {
    WrittenReadsBack([HEADER] + AllFields(a));
    WrittenReadsBack([HEADER] + AllFields(b));
    assert ([HEADER] + AllFields(a))[1..] == AllFields(a);
    assert ([HEADER] + AllFields(b))[1..] == AllFields(b);
  }

  // ---------------------------------------------------------------- columns by their names

  /** Row `i` of the file holds the value under each column of that name, and there is one. */
  ghost predicate HoldsUnder(file: seq<Record>, i: nat, name: string, value: Text) {
    && 0 < i < |file| && |file[i]| == |file[0]|
    && (exists c | 0 <= c < |file[0]| :: IsNamed(file[0][c], name))
    && forall c | 0 <= c < |file[0]| && IsNamed(file[0][c], name) :: file[i][c] == value
  }

  ghost predicate IsColumn(c: nat, name: string) {
    && c < |HEADER| && IsNamed(HEADER[c], name)
    && forall d | 0 <= d < |HEADER| && d != c :: HEADER[d] != HEADER[c]
  }

  lemma HeaderDistinct()
    ensures forall c, d | 0 <= c < d < |HEADER| :: HEADER[c] != HEADER[d]
  {
    assert |HEADER[0]| == 8 && |HEADER[1]| == 9 && |HEADER[2]| == 9 && |HEADER[3]| == 14;
    assert |HEADER[4]| == 12 && |HEADER[5]| == 9 && |HEADER[6]| == 10 && |HEADER[7]| == 11;
    assert HEADER[1][0] == 'j' as int && HEADER[2][0] == 'a' as int && HEADER[5][0] == 'f' as int;
  }

  lemma Columns()
    ensures IsColumn(0, "recordId") && IsColumn(1, "jobNumber") && IsColumn(2, "assetCode")
    ensures IsColumn(3, "documentNumber") && IsColumn(4, "revisionCode") && IsColumn(5, "frequency")
    ensures IsColumn(6, "archivedAt") && IsColumn(7, "pdfFilename")
  {
    HeaderDistinct();
  }

  lemma ColumnHolds(rows: seq<ManifestRow>, i: nat, c: nat, name: string)
    requires i < |rows| && IsColumn(c, name)
    ensures |Fields(rows[i])| == |HEADER|
    ensures HoldsUnder([HEADER] + AllFields(rows), i + 1, name, Fields(rows[i])[c])
  {
    var file := [HEADER] + AllFields(rows);
    assert file[0] == HEADER && file[i + 1] == Fields(rows[i]);
    forall d | 0 <= d < |HEADER| && IsNamed(HEADER[d], name) ensures d == c {
      assert HEADER[d] == HEADER[c];
    }
  }

  /** Read back, each row of the manifest holds under each name of the header the field of that name. */
  lemma CellsByName(rows: seq<ManifestRow>, i: nat)
    requires i < |rows|
    ensures
      var file := ReadFile(WriteFile([HEADER] + AllFields(rows)));
      && file.Some? && |file.value| == |rows| + 1
      && HoldsUnder(file.value, i + 1, "recordId", rows[i].recordId)
      && HoldsUnder(file.value, i + 1, "jobNumber", rows[i].jobNumber)
      && HoldsUnder(file.value, i + 1, "assetCode", rows[i].assetCode)
      && HoldsUnder(file.value, i + 1, "documentNumber", rows[i].documentNumber)
      && HoldsUnder(file.value, i + 1, "revisionCode", rows[i].revisionCode)
      && HoldsUnder(file.value, i + 1, "frequency", rows[i].frequency)
      && HoldsUnder(file.value, i + 1, "archivedAt", if rows[i].archivedAt.Some? then rows[i].archivedAt.value else [])
      && HoldsUnder(file.value, i + 1, "pdfFilename", rows[i].pdfFilename)
  {
    WrittenReadsBack([HEADER] + AllFields(rows));
    Columns();
    ColumnHolds(rows, i, 0, "recordId");
    ColumnHolds(rows, i, 1, "jobNumber");
    ColumnHolds(rows, i, 2, "assetCode");
    ColumnHolds(rows, i, 3, "documentNumber");
    ColumnHolds(rows, i, 4, "revisionCode");
    ColumnHolds(rows, i, 5, "frequency");
    ColumnHolds(rows, i, 6, "archivedAt");
    ColumnHolds(rows, i, 7, "pdfFilename");
  }
}
