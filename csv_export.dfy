/**
 * The CSV text that `handleExport` of src/components/dashboard/ExportButton.tsx
 * builds from an array of plain objects: a header line of the first
 * object's keys, then one line per object projected onto those keys, lines
 * joined by '\n'. The Blob and the download link are left out.
 */
module CsvExport {
  import opened Base
  import Text
  import Csv

  /** A property value of a row object. */
  datatype Value = VStr(s: string) | VNum(n: int) | VBool(b: bool) | VNull

  /** A plain object: its own keys in `Object.keys` order, and their values. */
  datatype Row = Row(keys: seq<string>, fields: map<string, Value>)

  /** `row[key]`: undefined (None) for a key the object does not have. */
  function Get(row: Row, key: string): (v: Option<Value>)
    ensures v.Some? <==> key in row.fields
    ensures v.Some? ==> v.value == row.fields[key]
  {
    if key in row.fields then Some(row.fields[key]) else None
  }

  /** The text a value stands for in a joined line: `String(v)`, '' for null and undefined. */
  function Display(v: Option<Value>): (r: string)
    ensures v.None? || v == Some(VNull) ==> r == ""
    ensures v.Some? && v.value.VStr? ==> r == v.value.s
    ensures v.Some? && v.value.VNum? ==> r == Text.IntToString(v.value.n)
  {
    match v
    case None => ""
    case Some(VNull) => ""
    case Some(VStr(s)) => s
    case Some(VNum(n)) => Text.IntToString(n)
    case Some(VBool(b)) => if b then "true" else "false"
  }

  /** Numbers, booleans, null and undefined never need quoting. */
  lemma NonStringIsPlain(v: Option<Value>)
    requires v.None? || !v.value.VStr?
    ensures !Csv.NeedsQuotes(Display(v))
  {
    if v.Some? && v.value.VNum? {
      Text.IntToStringPlain(v.value.n);
    }
  }

  /**
   * The cell as the component writes it: a string holding a comma or a
   * double quote is quoted with inner quotes doubled; everything else,
   * including a string holding a line feed, is emitted as it is.
   */
  function CellAsWritten(v: Option<Value>): (c: string)
    ensures v.Some? && v.value.VStr? && (',' in v.value.s || '"' in v.value.s) ==> c == Csv.Quote(v.value.s)
    ensures !(v.Some? && v.value.VStr? && (',' in v.value.s || '"' in v.value.s)) ==> c == Display(v)
  {
    if v.Some? && v.value.VStr? && (',' in v.value.s || '"' in v.value.s) then Csv.Quote(v.value.s)
    else Display(v)
  }

  /** The cell as RFC 4180 rule 6 asks: a line feed is quoted too. */
  function Cell(v: Option<Value>): (c: string)
    ensures Csv.Written(c, Display(v))
  {
    Csv.Field(Display(v))
  }

  /** The row projected onto the keys: `headers.map(header => ...)`. */
  function Cells(row: Row, headers: seq<string>, cell: Option<Value> -> string): (r: seq<string>)
    ensures |r| == |headers|
    ensures forall j :: 0 <= j < |headers| ==> r[j] == cell(Get(row, headers[j]))
  {
    seq(|headers|, j requires 0 <= j < |headers| => cell(Get(row, headers[j])))
  }

  /** What the projected row stands for: each value's text. */
  function Values(row: Row, headers: seq<string>): (r: seq<string>)
    ensures |r| == |headers|
    ensures forall j :: 0 <= j < |headers| ==> r[j] == Display(Get(row, headers[j]))
  {
    seq(|headers|, j requires 0 <= j < |headers| => Display(Get(row, headers[j])))
  }

  /** One line: the row's cells joined by commas. */
  function Line(row: Row, headers: seq<string>, cell: Option<Value> -> string): string
  {
    Text.Join(Cells(row, headers, cell), ",")
  }

  /** Nothing for no rows; otherwise the header line and one line per row. */
  function Build(data: seq<Row>, cell: Option<Value> -> string): (r: Option<string>)
    ensures r.None? <==> data == []
  {
    if |data| == 0 then None
    else
      var headers := data[0].keys;
      Some(Text.Join([Text.Join(headers, ",")] +
        seq(|data|, i requires 0 <= i < |data| => Line(data[i], headers, cell)), "\n"))
  }

  /** The export as the component builds it. */
  function ExportAsWritten(data: seq<Row>): (r: Option<string>)
    ensures r.None? <==> data == []
  {
    Build(data, CellAsWritten)
  }

  /** The export with line feeds quoted as well. */
  function Export(data: seq<Row>): (r: Option<string>)
    ensures r.None? <==> data == []
  {
    Build(data, Cell)
  }

  /** What the export stands for: the header, then every row's values for those keys. */
  function Table(data: seq<Row>): (t: seq<seq<string>>)
    requires data != []
    ensures |t| == |data| + 1 && t[0] == data[0].keys
    ensures forall i :: 1 <= i < |t| ==> |t[i]| == |data[0].keys|
  {
    var headers := data[0].keys;
    [headers] + seq(|data|, i requires 0 <= i < |data| => Values(data[i], headers))
  }

  /** A line of conforming cells reads back as the row's values. */
  lemma LineReadsBack(row: Row, headers: seq<string>)
    requires headers != []
    ensures Csv.LineReads(Line(row, headers, Cell), Values(row, headers))
  {
    Csv.JoinedLineReads(Cells(row, headers, Cell), Values(row, headers));
  }

  /** Plain keys joined by commas read back as the keys. */
  lemma HeaderReadsBack(headers: seq<string>)
    requires headers != []
    requires forall h :: h in headers ==> !Csv.NeedsQuotes(h)
    ensures Csv.LineReads(Text.Join(headers, ","), headers)
  {
    forall j | 0 <= j < |headers| ensures Csv.Written(headers[j], headers[j]) {
      assert headers[j] in headers;
    }
    Csv.JoinedLineReads(headers, headers);
  }

  /**
   * Reading the export back gives the header and, row by row in input order,
   * each row's values projected onto the first row's keys (a missing key an
   * empty field). The keys themselves are written unescaped, so they must
   * be plain.
   */
  lemma ExportReadsBack(data: seq<Row>)
    requires data != [] && data[0].keys != []
    requires forall h :: h in data[0].keys ==> !Csv.NeedsQuotes(h)
    ensures Csv.ReadFile(Export(data).value) == Table(data)
  {
    var headers := data[0].keys;
    var rows := seq(|data|, i requires 0 <= i < |data| => Line(data[i], headers, Cell));
    var lines := [Text.Join(headers, ",")] + rows;
    var t := Table(data);
    assert Export(data).value == Text.Join(lines, "\n");
    forall i | 0 <= i < |lines| ensures Csv.LineReads(lines[i], t[i]) {
      if i == 0 {
        HeaderReadsBack(headers);
      } else {
        LineReadsBack(data[i - 1], headers);
      }
    }
    Csv.ReadJoinedFile(lines, t);
  }

  /** Without line feeds in the values the two cell rules agree. */
  lemma CellsAgree(v: Option<Value>)
    requires '\n' !in Display(v)
    ensures CellAsWritten(v) == Cell(v)
  {
    if v.None? || !v.value.VStr? {
      NonStringIsPlain(v);
    }
  }

  /** Without line feeds in the values, the component's export reads back as well. */
  lemma AsWrittenReadsBackWithoutLineFeeds(data: seq<Row>)
    requires data != [] && data[0].keys != []
    requires forall h :: h in data[0].keys ==> !Csv.NeedsQuotes(h)
    requires forall i, j :: 0 <= i < |data| && 0 <= j < |data[0].keys| ==> '\n' !in Display(Get(data[i], data[0].keys[j]))
    ensures Csv.ReadFile(ExportAsWritten(data).value) == Table(data)
  {
    var headers := data[0].keys;
    forall i | 0 <= i < |data| ensures Line(data[i], headers, CellAsWritten) == Line(data[i], headers, Cell) {
      forall j | 0 <= j < |headers| ensures CellAsWritten(Get(data[i], headers[j])) == Cell(Get(data[i], headers[j])) {
        CellsAgree(Get(data[i], headers[j]));
      }
      assert Cells(data[i], headers, CellAsWritten) == Cells(data[i], headers, Cell);
    }
    assert seq(|data|, i requires 0 <= i < |data| => Line(data[i], headers, CellAsWritten)) ==
      seq(|data|, i requires 0 <= i < |data| => Line(data[i], headers, Cell));
    ExportReadsBack(data);
  }

  /** The one-row table with a line feed in its value, and what the component writes for it. */
  lemma LineFeedExport()
    ensures ExportAsWritten([Row(["note"], map["note" := VStr("a\nb")])]) == Some("note\na\nb")
  {
    var data := [Row(["note"], map["note" := VStr("a\nb")])];
    var v := Get(data[0], "note");
    assert v == Some(VStr("a\nb"));
    assert ',' !in "a\nb" && '"' !in "a\nb";
    assert CellAsWritten(v) == "a\nb";
    assert Cells(data[0], ["note"], CellAsWritten) == ["a\nb"];
    assert Line(data[0], ["note"], CellAsWritten) == "a\nb";
    assert Text.Join(["note"], ",") == "note";
    assert seq(1, i requires 0 <= i < 1 => Line(data[i], ["note"], CellAsWritten)) == ["a\nb"];
    assert Text.Join(["note", "a\nb"], "\n") == "note\na\nb";
  }

  /** A line holding one plain field reads back as that field alone. */
  lemma BareLineReads(x: string)
    requires !Csv.NeedsQuotes(x)
    ensures Csv.LineReads(x, [x])
  {
    assert Csv.Written(x, x);
    Csv.JoinedLineReads([x], [x]);
  }

  /** A plain line followed by a line feed is one record of one field. */
  lemma BareFileStep(x: string, tail: string)
    requires !Csv.NeedsQuotes(x)
    ensures Csv.ReadFile(x + "\n" + tail) == [[x]] + Csv.ReadFile(tail)
  {
    BareLineReads(x);
    Csv.ReadFileStep(x, [x], tail);
  }

  /** A plain last line is one record of one field. */
  lemma BareFileLast(x: string)
    requires !Csv.NeedsQuotes(x)
    ensures Csv.ReadFile(x) == [[x]]
  {
    BareLineReads(x);
    Csv.ReadFileLast(x, [x]);
  }

  /** Three plain lines read as three records. */
  lemma ThreeRecords(x: string, y: string, z: string)
    requires !Csv.NeedsQuotes(x) && !Csv.NeedsQuotes(y) && !Csv.NeedsQuotes(z)
    ensures Csv.ReadFile(x + "\n" + (y + "\n" + z)) == [[x]] + [[y]] + [[z]]
  {
    BareFileLast(z);
    BareFileStep(y, z);
    BareFileStep(x, y + "\n" + z);
  }

  /**
   * A value holding a line feed but no comma or quote is written bare, so
   * the one row reads back as two records: the file has three records where
   * the table has two.
   */
  lemma LineFeedSplitsRecord()
    ensures var data := [Row(["note"], map["note" := VStr("a\nb")])];
      Csv.ReadFile(ExportAsWritten(data).value) != Table(data)
  {
    LineFeedExport();
    assert "note\na\nb" == "note" + "\n" + ("a" + "\n" + "b");
    ThreeRecords("note", "a", "b");
  }
}
