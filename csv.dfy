/**
 * Comma-separated text after RFC 4180, section 2, with records ended by a
 * line feed (the writers of this program emit '\n', not CRLF). The writer
 * side is the field escape of rules 6 and 7: a field holding a comma, a
 * double quote or a line break is enclosed in double quotes, and each double
 * quote inside it is doubled. The reader side is the partner every writer of
 * the program is checked against: reading what was written gives back the
 * fields.
 */
module Csv {
  import Text

  /** `s.replace(/"/g, '""')`: every double quote doubled. */
  function DoubleQuotes(s: string): (r: string)
    ensures '"' !in s ==> r == s
  {
    if s == [] then []
    else (if s[0] == '"' then "\"\"" else [s[0]]) + DoubleQuotes(s[1..])
  }

  /** A field enclosed in double quotes, inner quotes doubled (rule 7). */
  function Quote(s: string): string
  {
    "\"" + DoubleQuotes(s) + "\""
  }

  /** Rule 6: fields holding a separator, a quote or a line break must be quoted. */
  predicate NeedsQuotes(s: string)
  {
    ',' in s || '"' in s || '\n' in s
  }

  /** A field as a conforming writer emits it: quoted exactly when it must be. */
  function Field(s: string): (r: string)
    ensures NeedsQuotes(s) ==> r == Quote(s)
    ensures !NeedsQuotes(s) ==> r == s
  {
    if NeedsQuotes(s) then Quote(s) else s
  }

  /** The text of a cell stands for `field`: written by the rule, or always quoted. */
  predicate Written(cell: string, field: string)
  {
    cell == Field(field) || cell == Quote(field)
  }

  /** What may follow a field: the end, a separator or the end of the record. */
  predicate FieldEnd(t: string)
  {
    t == [] || t[0] == ',' || t[0] == '\n'
  }

  /**
   * The content of a quoted field, `s` starting just after the opening
   * quote: a doubled quote stands for one, a lone quote closes the field.
   * Returns the content and what follows the closing quote.
   */
  function ReadQuoted(s: string): (r: (string, string))
    ensures |r.1| <= |s|
  {
    if s == [] then ("", [])
    else if s[0] == '"' then
      if |s| > 1 && s[1] == '"' then
        var (c, rest) := ReadQuoted(s[2..]);
        ("\"" + c, rest)
      else ("", s[1..])
    else
      var (c, rest) := ReadQuoted(s[1..]);
      ([s[0]] + c, rest)
  }

  /** An unquoted field: everything up to the next separator or line feed. */
  function ReadBare(s: string): (r: (string, string))
    ensures |r.1| <= |s|
    ensures ',' !in r.0 && '\n' !in r.0
    ensures r.0 + r.1 == s
  {
    if s == [] || s[0] == ',' || s[0] == '\n' then ("", s)
    else
      var (c, rest) := ReadBare(s[1..]);
      assert s == [s[0]] + s[1..];
      ([s[0]] + c, rest)
  }

  function ReadField(s: string): (r: (string, string))
    ensures |r.1| <= |s|
  {
    if s != [] && s[0] == '"' then ReadQuoted(s[1..]) else ReadBare(s)
  }

  /** One record: fields separated by commas, up to a line feed or the end. */
  function ReadRecord(s: string): (r: (seq<string>, string))
    ensures |r.0| >= 1 && |r.1| <= |s|
    decreases |s|
  {
    var (f, rest) := ReadField(s);
    if rest != [] && rest[0] == ',' then
      var (fs, rest') := ReadRecord(rest[1..]);
      ([f] + fs, rest')
    else ([f], rest)
  }

  /** The records of a text; a line feed always starts another record. */
  function ReadFile(s: string): (r: seq<seq<string>>)
    ensures |r| >= 1
    decreases |s|
  {
    var (rec, rest) := ReadRecord(s);
    if rest == [] then [rec] else [rec] + ReadFile(rest[1..])
  }

  /** A doubled quote inside a quoted field stands for one quote. */
  lemma {:induction false} ReadQuotedEscape(tail: string)
    ensures ReadQuoted("\"\"" + tail) == ("\"" + ReadQuoted(tail).0, ReadQuoted(tail).1)
  {
    var s := "\"\"" + tail;
    assert s[0] == '"' && s[1] == '"' && s[2..] == tail;
  }

  /** Any other character is content. */
  lemma {:induction false} ReadQuotedChar(c: char, tail: string)
    requires c != '"'
    ensures ReadQuoted([c] + tail) == ([c] + ReadQuoted(tail).0, ReadQuoted(tail).1)
  {
    assert ([c] + tail)[1..] == tail;
  }

  /** A lone quote closes the field. */
  lemma {:induction false} ReadQuotedClose(t: string)
    requires t == [] || t[0] != '"'
    ensures ReadQuoted("\"" + t) == ("", t)
  {
    assert ("\"" + t)[1..] == t;
  }

  /** Reading the doubled content and the closing quote gives back the content. */
  lemma {:induction false} ReadQuotedDoubled(x: string, t: string)
    requires t == [] || t[0] != '"'
    ensures ReadQuoted(DoubleQuotes(x) + "\"" + t) == (x, t)
  {
    if x == [] {
      assert DoubleQuotes(x) + "\"" + t == "\"" + t;
      ReadQuotedClose(t);
    } else {
      ReadQuotedDoubled(x[1..], t);
      ReadQuotedDoubledStep(x, t);
    }
  }

  /** Doubling works character by character. */
  lemma {:induction false} DoubledFront(x: string, t: string)
    requires x != []
    ensures DoubleQuotes(x) + "\"" + t ==
      (if x[0] == '"' then "\"\"" else [x[0]]) + (DoubleQuotes(x[1..]) + "\"" + t)
  {
    var head := if x[0] == '"' then "\"\"" else [x[0]];
    assert DoubleQuotes(x) == head + DoubleQuotes(x[1..]);
    Text.AppendAssoc(head, DoubleQuotes(x[1..]), "\"");
    Text.AppendAssoc(head, DoubleQuotes(x[1..]) + "\"", t);
  }

  /** The doubled first character in front of the doubled rest reads back as that character. */
  lemma {:induction false} ReadQuotedDoubledStep(x: string, t: string)
    requires x != []
    requires ReadQuoted(DoubleQuotes(x[1..]) + "\"" + t) == (x[1..], t)
    ensures ReadQuoted(DoubleQuotes(x) + "\"" + t) == (x, t)
  {
    var tail := DoubleQuotes(x[1..]) + "\"" + t;
    DoubledFront(x, t);
    if x[0] == '"' {
      ReadQuotedEscape(tail);
      assert x == "\"" + x[1..];
    } else {
      ReadQuotedChar(x[0], tail);
      assert x == [x[0]] + x[1..];
    }
  }

  /** A bare field without separators, quotes or line feeds reads back unchanged. */
  lemma {:induction false} ReadBarePlain(x: string, t: string)
    requires ',' !in x && '\n' !in x
    requires FieldEnd(t)
    ensures ReadBare(x + t) == (x, t)
  {
    if x == [] {
      assert x + t == t;
    } else {
      ReadBarePlain(x[1..], t);
      ReadBareChar(x[0], x[1..] + t);
      assert x + t == [x[0]] + (x[1..] + t);
      assert x == [x[0]] + x[1..];
    }
  }

  /** Any character but a separator or a line feed belongs to the bare field. */
  lemma {:induction false} ReadBareChar(c: char, s: string)
    requires c != ',' && c != '\n'
    ensures ReadBare([c] + s) == ([c] + ReadBare(s).0, ReadBare(s).1)
  {
    assert ([c] + s)[1..] == s;
  }


  /** A quoted field reads back as its content, leaving what follows the closing quote. */
  lemma {:induction false} ReadQuotedField(field: string, t: string)
    requires FieldEnd(t)
    ensures ReadField(Quote(field) + t) == (field, t)
  {
    var inner := DoubleQuotes(field) + "\"" + t;
    assert Quote(field) + t == "\"" + inner;
    assert (Quote(field) + t)[1..] == inner;
    ReadQuotedDoubled(field, t);
  }

  /** Every written field reads back as itself, leaving what follows it. */
  lemma {:induction false} ReadWritten(cell: string, field: string, t: string)
    requires Written(cell, field)
    requires FieldEnd(t)
    ensures ReadField(cell + t) == (field, t)
  {
    if NeedsQuotes(field) || cell == Quote(field) {
      ReadQuotedField(field, t);
    } else {
      ReadBarePlain(field, t);
      if field != [] {
        assert (field + t)[0] == field[0];
      }
    }
  }

  /** Stripping the outer quotes and collapsing doubled quotes recovers the field. */
  lemma {:induction false} Unquote(s: string)
    ensures ReadField(Quote(s)) == (s, "")
  {
    ReadWritten(Quote(s), s, "");
    assert Quote(s) + "" == Quote(s);
  }

  /** The last field of a record, followed by the end of the record. */
  lemma {:induction false} ReadRecordLast(cell: string, field: string, t: string)
    requires Written(cell, field)
    requires t == [] || t[0] == '\n'
    ensures ReadRecord(cell + t) == ([field], t)
  {
    ReadWritten(cell, field, t);
  }

  /** A field and a comma in front of a record add the field to it. */
  lemma {:induction false} ReadRecordStep(cell: string, field: string, rest: string, fields: seq<string>, t: string)
    requires Written(cell, field)
    requires ReadRecord(rest) == (fields, t)
    ensures ReadRecord(cell + ("," + rest)) == ([field] + fields, t)
  {
    ReadWritten(cell, field, "," + rest);
    assert ("," + rest)[1..] == rest;
  }

  /** The first part of a comma-joined line and the rest of the text after it. */
  lemma {:induction false} JoinFront(cells: seq<string>, t: string)
    requires |cells| >= 2
    ensures Text.Join(cells, ",") + t == cells[0] + ("," + (Text.Join(cells[1..], ",") + t))
  {
    var j := Text.Join(cells[1..], ",");
    calc {
      Text.Join(cells, ",") + t;
      (cells[0] + ",") + j + t;
      { Text.AppendAssoc(cells[0] + ",", j, t); }
      (cells[0] + ",") + (j + t);
      { Text.AppendAssoc(cells[0], ",", j + t); }
      cells[0] + ("," + (j + t));
    }
  }


  /** Comma-joined written cells read back as their fields, up to the end of the record. */
  lemma {:induction false} ReadJoinedRecord(cells: seq<string>, fields: seq<string>, t: string)
    requires |cells| == |fields| >= 1
    requires forall i :: 0 <= i < |cells| ==> Written(cells[i], fields[i])
    requires t == [] || t[0] == '\n'
    ensures ReadRecord(Text.Join(cells, ",") + t) == (fields, t)
  {
    if |cells| == 1 {
      ReadRecordLast(cells[0], fields[0], t);
      assert fields == [fields[0]];
    } else {
      forall i | 0 <= i < |cells| - 1
        ensures Written(cells[1..][i], fields[1..][i])
      {
        assert cells[1..][i] == cells[i + 1] && fields[1..][i] == fields[i + 1];
      }
      ReadJoinedRecord(cells[1..], fields[1..], t);
      ReadJoinedStep(cells, fields, t);
    }
  }

  /** One more written cell in front of a line that reads back adds its field in front. */
  lemma {:induction false} ReadJoinedStep(cells: seq<string>, fields: seq<string>, t: string)
    requires |cells| == |fields| >= 2 && Written(cells[0], fields[0])
    requires ReadRecord(Text.Join(cells[1..], ",") + t) == (fields[1..], t)
    ensures ReadRecord(Text.Join(cells, ",") + t) == (fields, t)
  {
    ReadRecordStep(cells[0], fields[0], Text.Join(cells[1..], ",") + t, fields[1..], t);
    JoinFront(cells, t);
    assert fields == [fields[0]] + fields[1..];
  }




  /** A line reads back as `record` whatever record boundary follows it. */
  ghost predicate LineReads(line: string, record: seq<string>)
  {
    forall t :: (t == [] || t[0] == '\n') ==> ReadRecord(line + t) == (record, t)
  }

  /** A line of written cells reads as the record of their fields. */
  lemma {:induction false} JoinedLineReads(cells: seq<string>, fields: seq<string>)
    requires |cells| == |fields| >= 1
    requires forall i :: 0 <= i < |cells| ==> Written(cells[i], fields[i])
    ensures LineReads(Text.Join(cells, ","), fields)
  {
    forall t | t == [] || t[0] == '\n' ensures ReadRecord(Text.Join(cells, ",") + t) == (fields, t) {
      ReadJoinedRecord(cells, fields, t);
    }
  }

  /** A record line followed by a line feed: the record, then the records of the rest. */
  lemma {:induction false} ReadFileStep(line: string, record: seq<string>, tail: string)
    requires LineReads(line, record)
    ensures ReadFile(line + "\n" + tail) == [record] + ReadFile(tail)
  {
    var after := "\n" + tail;
    assert after[0] == '\n' && after[1..] == tail;
    assert ReadRecord(line + after) == (record, after);
    Text.AppendAssoc(line, "\n", tail);
  }

  /** The last record line. */
  lemma {:induction false} ReadFileLast(line: string, record: seq<string>)
    requires LineReads(line, record)
    ensures ReadFile(line) == [record]
  {
    assert ReadRecord(line + []) == (record, []);
    assert line + [] == line;
  }

  /** Records whose lines read back one by one read back as a whole when joined by line feeds. */
  lemma {:induction false} ReadJoinedFile(lines: seq<string>, records: seq<seq<string>>)
    requires |lines| == |records| >= 1
    requires forall i :: 0 <= i < |lines| ==> LineReads(lines[i], records[i])
    ensures ReadFile(Text.Join(lines, "\n")) == records
  {
    if |lines| == 1 {
      assert LineReads(lines[0], records[0]);
      ReadFileLast(lines[0], records[0]);
      assert records == [records[0]];
    } else {
      var tl, tr := lines[1..], records[1..];
      forall i | 0 <= i < |tl| ensures LineReads(tl[i], tr[i]) {
        assert tl[i] == lines[i + 1] && tr[i] == records[i + 1];
      }
      ReadJoinedFile(tl, tr);
      var rest := Text.Join(tl, "\n");
      assert Text.Join(lines, "\n") == lines[0] + "\n" + rest;
      assert LineReads(lines[0], records[0]);
      ReadFileStep(lines[0], records[0], rest);
      assert records == [records[0]] + tr;
    }
  }
}
