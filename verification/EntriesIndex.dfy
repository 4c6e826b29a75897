// The per-entry index of a staged tree: one line a record, five fields separated by tabs.
module EntriesIndex {
  import opened Text
  import opened Order
  import opened TreeScan

  // What the index says of an entry.  mode is the octal text as Python writes it, with its 0o prefix.
  datatype Meta = DirMeta(mode: string) | FileMeta(mode: string, size: nat, sha256: string)

  datatype Row = Row(path: string, meta: Meta)

  predicate PlainField(s: string) { '\t' !in s && '\n' !in s }

  // A record as a scan makes it: octal mode, hexadecimal digest.
  predicate ValidMeta(m: Meta) {
    "0o" <= m.mode && PlainField(m.mode) && (m.FileMeta? ==> PlainField(m.sha256))
  }

  predicate Printable(path: string) { '\t' !in path && '\n' !in path && '\r' !in path }

  // The decimal digits of a size.
  function Digits(n: nat): (s: string)
    ensures PlainField(s)
  {
    var last := [DigitChar(n % 10)];
    if n < 10 then last else Digits(n / 10) + last
  }

  function DigitChar(d: nat): char
    requires d < 10
  {
    '0' + d as char
  }

  function DigitValue(c: char): nat { if c >= '0' then (c as int) - ('0' as int) else 0 }

  function Number(s: string): nat {
    if s == "" then 0 else Number(s[..|s| - 1]) * 10 + DigitValue(s[|s| - 1])
  }

  lemma {:induction false} NumberOfDigits(n: nat)
    ensures Number(Digits(n)) == n
  {
    var last := [DigitChar(n % 10)];
    if n >= 10 {
      NumberOfDigits(n / 10);
      assert (Digits(n / 10) + last)[..|Digits(n / 10)|] == Digits(n / 10);
    } else {
      assert last[..0] == "";
    }
  }

  function Fields(r: Row): (fields: seq<string>)
    ensures |fields| == 5
  {
    var path := if r.path == "" then "." else r.path;
    match r.meta
    case DirMeta(mode) => ["dir", if |mode| >= 2 then mode[2..] else mode, "-", "-", path]
    case FileMeta(mode, size, sha256) => ["file", if |mode| >= 2 then mode[2..] else mode, Digits(size), sha256, path]
  }

  // "\t".join(fields)
  function Line(fields: seq<string>): string
    requires |fields| >= 1
    decreases |fields|
  {
    if |fields| == 1 then fields[0] else fields[0] + "\t" + Line(fields[1..])
  }

  function IndexText(rows: seq<Row>): string
    decreases |rows|
  {
    if |rows| == 0 then "" else IndexText(rows[..|rows| - 1]) + Line(Fields(rows[|rows| - 1])) + "\n"
  }

  // write_entries_index: None when some path cannot be represented.
  method WriteEntriesIndex(rows: seq<Row>) returns (text: Option<string>)
    ensures text.Some? <==> forall r | r in rows :: Printable(r.path)
    ensures text.Some? ==> text.value == IndexText(rows)
  {
    var lines := "";
    for i := 0 to |rows|
      invariant lines == IndexText(rows[..i])
      invariant forall r | r in rows[..i] :: Printable(r.path)
    {
      assert rows[..i + 1] == rows[..i] + [rows[i]];
      assert rows[..i + 1][..i] == rows[..i];
      var path := if rows[i].path == "" then "." else rows[i].path;
      if '\t' in path || '\n' in path || '\r' in path {
        assert rows[i] in rows;
        return None;
      }
      lines := lines + Line(Fields(rows[i])) + "\n";
    }
    assert rows[..|rows|] == rows;
    return Some(lines);
  }

  // The line of an entry, field by field, and the digits of its size.
  lemma LineExact(path: string, mode: string, size: nat, sha256: string)
    ensures var shown := if path == "" then "." else path;
      && Line(Fields(Row(path, DirMeta("0o" + mode)))) == "dir" + "\t" + mode + "\t" + "-" + "\t" + "-" + "\t" + shown
      && Line(Fields(Row(path, FileMeta("0o" + mode, size, sha256)))) == "file" + "\t" + mode + "\t" + Digits(size) + "\t" + sha256 + "\t" + shown
  {
    var shown := if path == "" then "." else path;
    assert ("0o" + mode)[2..] == mode;
    assert Fields(Row(path, DirMeta("0o" + mode))) == ["dir", mode, "-", "-", shown];
    assert Fields(Row(path, FileMeta("0o" + mode, size, sha256))) == ["file", mode, Digits(size), sha256, shown];
    hide *;
    LineOfFive("dir", mode, "-", "-", shown);
    LineOfFive("file", mode, Digits(size), sha256, shown);
  }

  lemma LineOfFive(a: string, b: string, c: string, e: string, f: string)
    ensures Line([a, b, c, e, f]) == a + "\t" + b + "\t" + c + "\t" + e + "\t" + f
  {
    assert [a, b, c, e, f][1..] == [b, c, e, f] && [b, c, e, f][1..] == [c, e, f] && [c, e, f][1..] == [e, f] && [e, f][1..] == [f];
    assert Line([e, f]) == e + "\t" + f;
    assert Line([c, e, f]) == c + "\t" + (e + "\t" + f);
    assert Line([b, c, e, f]) == b + "\t" + (c + "\t" + (e + "\t" + f));
  }

  // The digits are decimal, without leading zeros.
  lemma {:induction false} DigitsExact(n: nat)
    ensures Digits(n) != "" && (forall c | c in Digits(n) :: IsDigit(c)) && (n > 0 ==> Digits(n)[0] != '0')
    ensures n < 10 ==> Digits(n) == [['0', '1', '2', '3', '4', '5', '6', '7', '8', '9'][n]]
  {
    if n >= 10 { DigitsExact(n / 10); }
  }

  // ----- reading it back -----

  // line.split("\t")
  function SplitTabs(line: string): (fields: seq<string>)
    ensures |fields| >= 1
  {
    if line == "" then [""]
    else
      var rest := SplitTabs(line[1..]);
      if line[0] == '\t' then [""] + rest else [[line[0]] + rest[0]] + rest[1..]
  }

  function ParseRow(line: string): Option<Row> {
    var f := SplitTabs(line);
    if |f| != 5 then None
    else
      var path := if f[4] == "." then "" else f[4];
      if f[0] == "dir" then Some(Row(path, DirMeta("0o" + f[1])))
      else if f[0] == "file" then Some(Row(path, FileMeta("0o" + f[1], Number(f[2]), f[3])))
      else None
  }

  lemma {:induction false} SplitField(field: string, rest: string)
    requires '\t' !in field
    ensures SplitTabs(field + "\t" + rest) == [field] + SplitTabs(rest)
    ensures SplitTabs(field) == [field]
  {
    if field == "" {
      assert field + "\t" + rest == "\t" + rest;
      assert ("\t" + rest)[1..] == rest;
    } else {
      SplitField(field[1..], rest);
      assert (field + "\t" + rest)[1..] == field[1..] + "\t" + rest;
      assert [field[0]] + field[1..] == field;
      assert ([field[1..]] + SplitTabs(rest))[1..] == SplitTabs(rest);
    }
  }

  lemma {:induction false} SplitLine5(fields: seq<string>)
    requires |fields| >= 1 && forall f | f in fields :: '\t' !in f
    ensures SplitTabs(Line(fields)) == fields
    decreases |fields|
  {
    hide SplitTabs;
    assert fields[0] in fields;
    if |fields| == 1 {
      SplitField(fields[0], "");
    } else {
      assert forall f | f in fields[1..] :: f in fields;
      SplitLine5(fields[1..]);
      SplitField(fields[0], Line(fields[1..]));
    }
  }

  ghost predicate Representable(r: Row) {
    ValidMeta(r.meta) && Printable(r.path) && r.path != "."
  }

  lemma FieldsPlain(r: Row)
    requires Representable(r)
    ensures forall f | f in Fields(r) :: PlainField(f)
  {
    assert forall i | 0 <= i < 5 :: PlainField(Fields(r)[i]);
  }

  lemma ParsePrinted(r: Row)
    requires Representable(r)
    ensures ParseRow(Line(Fields(r))) == Some(r)
  {
    FieldsPlain(r);
    SplitLine5(Fields(r));
    hide SplitTabs, Line, Digits, Number;
    assert "0o" + r.meta.mode[2..] == r.meta.mode;
    assert "dir" != "file" by { assert |"dir"| != |"file"|; }
    if r.meta.FileMeta? { NumberOfDigits(r.meta.size); }
  }

  lemma {:induction false} LinePlain(fields: seq<string>)
    requires |fields| >= 1 && forall f | f in fields :: '\n' !in f
    ensures '\n' !in Line(fields)
    decreases |fields|
  {
    assert fields[0] in fields;
    if |fields| > 1 {
      assert forall f | f in fields[1..] :: f in fields;
      LinePlain(fields[1..]);
    }
  }

  // The index text is uniquely readable: equal texts come from equal records.
  lemma {:induction false} IndexInjective(a: seq<Row>, b: seq<Row>)
    requires (forall r | r in a :: Representable(r)) && (forall r | r in b :: Representable(r))
    requires IndexText(a) == IndexText(b)
    ensures a == b
    decreases |a|
  {
    hide *;
    IndexLines(a);
    IndexLines(b);
    SameLines(a, b);
    forall i | 0 <= i < |a| ensures a[i] == b[i] {
      assert a[i] in a && b[i] in b;
      ParsePrinted(a[i]);
      ParsePrinted(b[i]);
      assert RowLines(a)[i] == RowLines(b)[i];
    }
  }

  function RowLines(rows: seq<Row>): (lines: seq<string>)
    ensures |lines| == |rows|
    ensures forall i | 0 <= i < |rows| :: lines[i] == Line(Fields(rows[i]))
  {
    seq(|rows|, i requires 0 <= i < |rows| => Line(Fields(rows[i])))
  }

  lemma {:induction false} IndexTerminated(rows: seq<Row>)
    ensures IndexText(rows) == Terminated(RowLines(rows))
    decreases |rows|
  {
    hide Fields, Line, Terminated;
    if |rows| > 0 {
      var init, last := rows[..|rows| - 1], rows[|rows| - 1];
      IndexTerminated(init);
      assert RowLines(rows) == RowLines(init) + [Line(Fields(last))];
      TerminatedSnoc(RowLines(init), Line(Fields(last)));
    } else {
      assert RowLines(rows) == [];
      assert Terminated([]) == "" by { TerminatedNone(); }
    }
  }

  lemma TerminatedNone()
    ensures Terminated([]) == ""
  {
  }

  // Splitting the text at newlines gives the lines, and an empty rest.
  lemma IndexLines(rows: seq<Row>)
    requires forall r | r in rows :: Representable(r)
    ensures SplitLines(IndexText(rows)) == RowLines(rows) + [""]
  {
    hide *;
    var lines := RowLines(rows);
    IndexTerminated(rows);
    JoinIsTerminatedPlusLast(lines, "");
    forall i | 0 <= i < |rows| ensures SingleLine(lines[i]) {
      assert rows[i] in rows;
      FieldsPlain(rows[i]);
      FieldsNoNewline(rows[i]);
      LinePlain(Fields(rows[i]));
      SingleLineIs(lines[i]);
    }
    AllSingle(lines);
    SplitJoin(lines + [""]);
    assert Terminated(lines) + "" == Terminated(lines);
  }

  lemma FieldsNoNewline(r: Row)
    requires Representable(r) && forall f | f in Fields(r) :: PlainField(f)
    ensures forall f | f in Fields(r) :: '\n' !in f
  {
    hide Fields;
  }

  lemma SingleLineIs(line: string)
    ensures SingleLine(line) <==> '\n' !in line
  {
  }

  lemma AllSingle(lines: seq<string>)
    requires forall i | 0 <= i < |lines| :: SingleLine(lines[i])
    ensures SingleLines(lines + [""])
  {
    forall line | line in lines + [""] ensures SingleLine(line) {
      if line in lines { var i :| 0 <= i < |lines| && lines[i] == line; }
    }
  }

  lemma SameLines(a: seq<Row>, b: seq<Row>)
    requires RowLines(a) + [""] == RowLines(b) + [""]
    ensures |a| == |b| && forall i | 0 <= i < |a| :: RowLines(a)[i] == RowLines(b)[i]
  {
    hide RowLines;
    assert |RowLines(a) + [""]| == |RowLines(b) + [""]|;
    forall i | 0 <= i < |a| ensures RowLines(a)[i] == RowLines(b)[i] {
      assert (RowLines(a) + [""])[i] == (RowLines(b) + [""])[i];
    }
  }
}
