// Lines of a note body.  The program splits a body with `body.split("\n")`, works on character
// offsets computed from the lines, and slices the body again; this module relates the three views.
module Text {

  datatype Option<+T> = None | Some(value: T)

  predicate IsDigit(c: char) { '0' <= c <= '9' }

  // What str.strip removes.
  predicate IsSpace(c: char) {
    var n := c as int;
    || 0x09 <= n <= 0x0d || 0x1c <= n <= 0x20 || n == 0x85 || n == 0xa0 || n == 0x1680 || 0x2000 <= n <= 0x200a
    || n == 0x2028 || n == 0x2029 || n == 0x202f || n == 0x205f || n == 0x3000
  }

  predicate SingleLine(line: string) {
    '\n' !in line
  }

  predicate SingleLines(lines: seq<string>) {
    forall line | line in lines :: SingleLine(line)
  }

  // body.split("\n"): always at least one line, possibly empty.
  function SplitLines(body: string): (lines: seq<string>)
    ensures |lines| >= 1
  {
    if body == "" then [""]
    else
      var rest := SplitLines(body[1..]);
      if body[0] == '\n' then [""] + rest else [[body[0]] + rest[0]] + rest[1..]
  }

  // "\n".join(lines)
  function JoinLines(lines: seq<string>): string
    requires |lines| >= 1
  {
    if |lines| == 1 then lines[0] else lines[0] + "\n" + JoinLines(lines[1..])
  }

  // Every line followed by its newline.
  function Terminated(lines: seq<string>): string {
    if lines == [] then "" else lines[0] + "\n" + Terminated(lines[1..])
  }

  // Character offset at which line i starts (one past the end of the body plus one for i == |lines|).
  function Offset(lines: seq<string>, i: nat): nat
    requires i <= |lines|
  {
    if i == 0 then 0 else Offset(lines, i - 1) + |lines[i - 1]| + 1
  }

  // The offset the program uses for "end of section": the end of the body when no line follows.
  function EndOffset(lines: seq<string>, e: nat): int
    requires e <= |lines|
  {
    if e == |lines| then Offset(lines, e) - 1 else Offset(lines, e)
  }

  lemma {:induction false} SplitIsSingleLines(body: string)
    ensures SingleLines(SplitLines(body))
  {
    if body != "" {
      SplitIsSingleLines(body[1..]);
      var rest := SplitLines(body[1..]);
      assert rest[0] in rest;
      assert forall line | line in rest[1..] :: line in rest;
    }
  }

  lemma {:induction false} JoinSplit(body: string)
    ensures JoinLines(SplitLines(body)) == body
  {
    if body != "" {
      JoinSplit(body[1..]);
      var rest := SplitLines(body[1..]);
      if body[0] == '\n' {
        assert ([""] + rest)[1..] == rest;
        assert body == "\n" + body[1..];
      } else {
        var lines := [[body[0]] + rest[0]] + rest[1..];
        assert lines[1..] == rest[1..];
        assert body == [body[0]] + body[1..];
        if |rest| > 1 {
          assert [body[0]] + (rest[0] + "\n" + JoinLines(rest[1..])) == [body[0]] + rest[0] + "\n" + JoinLines(rest[1..]);
        }
      }
    }
  }

  lemma {:induction false} SplitLine(line: string, tail: string)
    requires SingleLine(line)
    ensures SplitLines(line + "\n" + tail) == [line] + SplitLines(tail)
    ensures SplitLines(line) == [line]
  {
    var body := line + "\n" + tail;
    if line == "" {
      assert body == "\n" + tail;
      assert body[1..] == tail;
    } else {
      SplitLine(line[1..], tail);
      assert body[1..] == line[1..] + "\n" + tail;
      assert line == [line[0]] + line[1..];
      assert ([line[1..]] + SplitLines(tail))[1..] == SplitLines(tail);
    }
  }

  lemma {:induction false} SplitJoin(lines: seq<string>)
    requires |lines| >= 1 && SingleLines(lines)
    ensures SplitLines(JoinLines(lines)) == lines
  {
    assert SingleLine(lines[0]);
    if |lines| == 1 {
      SplitLine(lines[0], "");
    } else {
      assert forall line | line in lines[1..] :: line in lines;
      SplitJoin(lines[1..]);
      SplitLine(lines[0], JoinLines(lines[1..]));
    }
  }

  lemma {:induction false} TerminatedAppend(a: seq<string>, b: seq<string>)
    ensures Terminated(a + b) == Terminated(a) + Terminated(b)
  {
    if a == [] {
      assert a + b == b;
    } else {
      assert (a + b)[1..] == a[1..] + b;
      TerminatedAppend(a[1..], b);
    }
  }

  lemma TerminatedSnoc(a: seq<string>, line: string)
    ensures Terminated(a + [line]) == Terminated(a) + line + "\n"
  {
    TerminatedAppend(a, [line]);
    assert Terminated([line]) == line + "\n";
  }

  lemma {:induction false} JoinIsTerminatedPlusLast(init: seq<string>, last: string)
    ensures JoinLines(init + [last]) == Terminated(init) + last
  {
    if init == [] {
      assert init + [last] == [last];
    } else {
      assert (init + [last])[1..] == init[1..] + [last];
      JoinIsTerminatedPlusLast(init[1..], last);
    }
  }

  // A body cut at the start of line i.
  lemma {:induction false} JoinCut(lines: seq<string>, i: nat)
    requires i < |lines|
    ensures JoinLines(lines) == Terminated(lines[..i]) + JoinLines(lines[i..])
    ensures Offset(lines, i) == |Terminated(lines[..i])|
  {
    if i == 0 {
      assert lines[..0] == [] && lines[0..] == lines;
    } else {
      JoinCut(lines, i - 1);
      assert lines[..i] == lines[..i - 1] + [lines[i - 1]];
      TerminatedSnoc(lines[..i - 1], lines[i - 1]);
      assert lines[i - 1..][1..] == lines[i..];
    }
  }

  // Where line i sits in the joined body.
  lemma LineAt(lines: seq<string>, i: nat)
    requires i < |lines|
    ensures var body, o, l := JoinLines(lines), Offset(lines, i), |lines[i]|;
            && o + l <= |body|
            && body[..o] == Terminated(lines[..i])
            && body[o..o + l] == lines[i]
            && (i + 1 == |lines| ==> o + l == |body|)
            && (i + 1 < |lines| ==> o + l < |body| && body[o + l] == '\n' && Offset(lines, i + 1) == o + l + 1 <= |body|)
  {
    JoinCut(lines, i);
    var body, o, l := JoinLines(lines), Offset(lines, i), |lines[i]|;
    assert body == Terminated(lines[..i]) + JoinLines(lines[i..]);
    if i + 1 < |lines| {
      assert JoinLines(lines[i..]) == lines[i] + "\n" + JoinLines(lines[i..][1..]);
    }
  }

  lemma OffsetStep(lines: seq<string>, i: nat)
    requires i < |lines|
    ensures Offset(lines, i + 1) == Offset(lines, i) + |lines[i]| + 1
  {
  }

  lemma {:induction false} OffsetMonotone(lines: seq<string>, i: nat, j: nat)
    requires i < j <= |lines|
    ensures Offset(lines, i) + |lines[i]| + 1 <= Offset(lines, j)
  {
    if i + 1 < j {
      OffsetMonotone(lines, i, j - 1);
    }
  }

  lemma {:induction false} OffsetIsTerminatedLength(lines: seq<string>, i: nat)
    requires i <= |lines|
    ensures Offset(lines, i) == |Terminated(lines[..i])|
  {
    if i > 0 {
      OffsetIsTerminatedLength(lines, i - 1);
      assert lines[..i] == lines[..i - 1] + [lines[i - 1]];
      TerminatedSnoc(lines[..i - 1], lines[i - 1]);
    }
  }

  // The slice body[start:end] of a block of whole lines, as the program takes it: with its final
  // newline when another line follows, so that splitting it yields one extra empty line.
  lemma SplitBlock(lines: seq<string>, a: nat, b: nat)
    requires a < b <= |lines| && SingleLines(lines)
    ensures 0 <= Offset(lines, a) <= EndOffset(lines, b) <= |JoinLines(lines)|
    ensures b == |lines| ==> EndOffset(lines, b) == |JoinLines(lines)|
    ensures SplitLines(JoinLines(lines)[Offset(lines, a)..EndOffset(lines, b)])
         == lines[a..b] + if b < |lines| then [""] else []
  {
    hide JoinLines, SplitLines, Terminated, Offset;
    OffsetMonotone(lines, a, b);
    var body := JoinLines(lines);
    JoinCut(lines, a);
    assert SingleLines(lines[a..b]) by {
      forall line | line in lines[a..b] ensures line in lines {}
    }
    if b < |lines| {
      JoinCut(lines, b);
      assert lines[..b] == lines[..a] + lines[a..b];
      TerminatedAppend(lines[..a], lines[a..b]);
      assert body[Offset(lines, a)..Offset(lines, b)] == Terminated(lines[a..b]);
      JoinIsTerminatedPlusLast(lines[a..b], "");
      assert Terminated(lines[a..b]) == JoinLines(lines[a..b] + [""]);
      SplitJoin(lines[a..b] + [""]);
    } else {
      var n := |lines|;
      LineAt(lines, n - 1);
      OffsetStep(lines, n - 1);
      assert lines[a..b] == lines[a..];
      assert body[Offset(lines, a)..] == JoinLines(lines[a..]);
      assert body[Offset(lines, a)..EndOffset(lines, b)] == body[Offset(lines, a)..];
      SplitJoin(lines[a..]);
    }
  }
}
