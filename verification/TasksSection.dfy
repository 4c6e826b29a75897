// The `## Tasks` section transformer: offset and span editing of a note body, proved equal to a
// simple operation on the list of lines.
module TasksSection {
  import opened Text
  import opened SpanEdits
  import opened TaskLines

  // ----- the section -----

  // Line h is the only `## Tasks` heading; e is the next level-2 heading, or the end.
  ghost predicate IsSection(lines: seq<string>, h: nat, e: nat) {
    && h < e <= |lines|
    && IsTasksHeading(lines[h])
    && (forall i | 0 <= i < |lines| && i != h :: !IsTasksHeading(lines[i]))
    && (forall i | h < i < e :: !IsH2Heading(lines[i]))
    && (e < |lines| ==> IsH2Heading(lines[e]))
  }

  ghost predicate OneSection(lines: seq<string>) {
    exists h: nat, e: nat :: IsSection(lines, h, e)
  }

  lemma SectionUnique(lines: seq<string>, h: nat, e: nat, h2: nat, e2: nat)
    requires IsSection(lines, h, e) && IsSection(lines, h2, e2)
    ensures h == h2 && e == e2
  {
  }

  // ----- what the edits mean on lines -----

  // The lines that are not bullets linking to `slug`, in order.
  function WithoutSlug(seg: seq<string>, slug: string): seq<string> {
    if seg == [] then []
    else (if LinksTo(seg[0], slug) then [] else [seg[0]]) + WithoutSlug(seg[1..], slug)
  }

  // Position of the first bullet linking to `slug`, or the length.
  function FirstLink(seg: seq<string>, slug: string): (k: nat)
    ensures k <= |seg|
  {
    if seg == [] || LinksTo(seg[0], slug) then 0 else 1 + FirstLink(seg[1..], slug)
  }

  lemma {:induction false} FirstLinkIsFirst(seg: seq<string>, slug: string)
    ensures forall i | 0 <= i < FirstLink(seg, slug) :: !LinksTo(seg[i], slug)
    ensures FirstLink(seg, slug) < |seg| ==> LinksTo(seg[FirstLink(seg, slug)], slug)
  {
    hide LinksTo;
    if seg != [] && !LinksTo(seg[0], slug) {
      FirstLinkIsFirst(seg[1..], slug);
      forall i | 0 <= i < FirstLink(seg, slug) ensures !LinksTo(seg[i], slug) {
        if i > 0 { assert seg[i] == seg[1..][i - 1]; }
      }
    }
  }

  // A run of two or more dropped lines that reaches an unterminated end of body: the one case in
  // which the span editing leaves a final newline behind.
  predicate DropsLastTwo(post: seq<string>, atEnd: bool, slug: string) {
    atEnd && |post| >= 2 && LinksTo(post[|post| - 1], slug) && LinksTo(post[|post| - 2], slug)
  }

  function Trailer(leaveNewline: bool): seq<string> {
    if leaveNewline then [""] else []
  }

  // A run of lines without its links to slug; atEnd says the run reaches the end of the body.
  function Filtered(post: seq<string>, atEnd: bool, slug: string): seq<string> {
    WithoutSlug(post, slug) + Trailer(DropsLastTwo(post, atEnd, slug))
  }

  // A matched line normalised in place, keeping its indentation.
  function Normalised(line: string, slug: string): string {
    var b := ParseBullet(line);
    LinkLine(slug, if b.Some? then b.value.indent else "")
  }

  // The section's lines after an add: the first link normalised and the others dropped, or the bare
  // link as a new last line.
  function AddedTo(seg: seq<string>, atEnd: bool, slug: string): seq<string> {
    var k := FirstLink(seg, slug);
    if k < |seg| then seg[..k] + [Normalised(seg[k], slug)] + Filtered(seg[k + 1..], atEnd, slug)
    else if !atEnd then seg + [LinkLine(slug, "")]
    else if seg != [] && seg[|seg| - 1] == "" then seg[..|seg| - 1] + [LinkLine(slug, ""), ""]
    else seg + [LinkLine(slug, ""), ""]
  }

  function RemoveLines(lines: seq<string>, h: nat, e: nat, slug: string): seq<string>
    requires h < e <= |lines|
  {
    lines[..h + 1] + Filtered(lines[h + 1..e], e == |lines|, slug) + lines[e..]
  }

  function AddLines(lines: seq<string>, h: nat, e: nat, slug: string): seq<string>
    requires h < e <= |lines|
  {
    lines[..h + 1] + AddedTo(lines[h + 1..e], e == |lines|, slug) + lines[e..]
  }

  datatype EditResult =
    | Edited(text: string, changed: bool)
    | InvalidSlug
    | NotOneTasksSection

  ghost function RemoveSpec(body: string, slug: string): EditResult {
    var lines := SplitLines(body);
    if !ValidSlug(slug) then InvalidSlug
    else if !OneSection(lines) then NotOneTasksSection
    else
      var h: nat, e: nat :| IsSection(lines, h, e);
      Edited(JoinLines(RemoveLines(lines, h, e, slug)), FirstLinkLine(lines, h + 1, e, slug) < e)
  }

  ghost function AddSpec(body: string, slug: string): EditResult {
    var lines := SplitLines(body);
    if !ValidSlug(slug) then InvalidSlug
    else if !OneSection(lines) then NotOneTasksSection
    else
      var h: nat, e: nat :| IsSection(lines, h, e);
      var text := JoinLines(AddLines(lines, h, e, slug));
      Edited(text, text != body)
  }

  // ----- the program's operations -----

  // Character offsets of the section, found with a running offset.
  method FindTasksSection(body: string) returns (found: bool, start: nat, end: nat, ghost h: nat, ghost e: nat)
    ensures found <==> OneSection(SplitLines(body))
    ensures found ==> IsSection(SplitLines(body), h, e)
    ensures found ==> start == Offset(SplitLines(body), h) && end == EndOffset(SplitLines(body), e)
  {
    hide IsTasksHeading, IsH2Heading, SplitLines;
    var lines := SplitLines(body);
    var headingOffsets: seq<nat> := [];
    var lineOffsets: seq<nat> := [];
    var offset := 0;
    ghost var first, second := 0, 0;
    for i := 0 to |lines|
      invariant offset == Offset(lines, i)
      invariant |lineOffsets| == i && forall j | 0 <= j < i :: lineOffsets[j] == Offset(lines, j)
      invariant headingOffsets != [] ==> first < i && IsTasksHeading(lines[first]) && headingOffsets[0] == Offset(lines, first)
      invariant |headingOffsets| >= 2 ==> first < second < i && IsTasksHeading(lines[second])
      invariant |headingOffsets| <= 1 ==> forall j | 0 <= j < i && IsTasksHeading(lines[j]) :: headingOffsets != [] && j == first
    {
      lineOffsets := lineOffsets + [offset];
      if IsTasksHeading(lines[i]) {
        if headingOffsets == [] { first := i; } else { second := i; }
        headingOffsets := headingOffsets + [offset];
      }
      offset := offset + |lines[i]| + 1;
    }
    found, start, end, h, e := |headingOffsets| == 1, 0, 0, 0, 0;
    if found {
      start, h := headingOffsets[0], first;
      end, e := FindSectionEnd(body, lines, lineOffsets, start, h);
      assert IsSection(lines, h, e);
    }
  }

  // The second loop: the first level-2 heading after the section heading, by offset.
  method FindSectionEnd(body: string, lines: seq<string>, lineOffsets: seq<nat>, start: nat, ghost h: nat)
    returns (end: nat, ghost e: nat)
    requires lines == SplitLines(body) && h < |lines| && start == Offset(lines, h)
    requires |lineOffsets| == |lines| && forall j | 0 <= j < |lines| :: lineOffsets[j] == Offset(lines, j)
    ensures h < e <= |lines| && end == EndOffset(lines, e)
    ensures forall i | h < i < e :: !IsH2Heading(lines[i])
    ensures e < |lines| ==> IsH2Heading(lines[e])
  {
    hide IsH2Heading, SplitLines, JoinLines, Offset;
    JoinSplit(body);
    LineAt(lines, |lines| - 1);
    OffsetStep(lines, |lines| - 1);
    end, e := |body|, |lines|;
    var i := 0;
    while i < |lines|
      invariant 0 <= i <= |lines|
      invariant forall j | h < j < i :: !IsH2Heading(lines[j])
    {
      if i < h { OffsetMonotone(lines, i, h); }
      if h < i { OffsetMonotone(lines, h, i); }
      if lineOffsets[i] > start && IsH2Heading(lines[i]) {
        return lineOffsets[i], i;
      }
      i := i + 1;
    }
  }

  // The indices, in increasing order, of the lines in lo..hi that link to slug.
  ghost function LinkIndices(lines: seq<string>, lo: nat, hi: nat, slug: string): (idx: seq<nat>)
    requires hi <= |lines|
  {
    if hi <= lo then []
    else LinkIndices(lines, lo, hi - 1, slug) + (if LinksTo(lines[hi - 1], slug) then [hi - 1] else [])
  }

  lemma {:induction false} LinkIndicesAre(lines: seq<string>, lo: nat, hi: nat, slug: string)
    requires hi <= |lines|
    ensures forall i: nat :: i in LinkIndices(lines, lo, hi, slug) <==> lo <= i < hi && LinksTo(lines[i], slug)
  {
    hide LinksTo;
    if lo < hi {
      LinkIndicesAre(lines, lo, hi - 1, slug);
    }
  }

  ghost predicate AllAfter(idx: seq<nat>, a: nat) {
    forall i | i in idx :: a < i
  }

  lemma AllAfterIs(idx: seq<nat>, a: nat, i: nat)
    requires AllAfter(idx, a)
    ensures i in idx ==> a < i
  {
  }

  lemma LinkIndicesAfter(lines: seq<string>, a: nat, e: nat, slug: string)
    requires e <= |lines|
    ensures AllAfter(LinkIndices(lines, a + 1, e, slug), a)
  {
    hide LinksTo, LinkIndices;
    LinkIndicesAre(lines, a + 1, e, slug);
  }

  ghost predicate SpansOf(lines: seq<string>, idx: seq<nat>, spans: seq<(nat, nat)>) {
    && |spans| == |idx|
    && (forall j | 0 <= j < |idx| :: idx[j] < |lines| && spans[j] == (Offset(lines, idx[j]), |lines[idx[j]]|))
  }

  // (offset, length) of every bullet of the section that links to exactly this slug.
  method SectionBulletWikilinkSpans(body: string, start: nat, end: nat, slug: string, ghost h: nat, ghost e: nat)
    returns (spans: seq<(nat, nat)>)
    requires IsSection(SplitLines(body), h, e)
    requires start == Offset(SplitLines(body), h) && end == EndOffset(SplitLines(body), e)
    ensures SpansOf(SplitLines(body), LinkIndices(SplitLines(body), h + 1, e, slug), spans)
  {
    hide *;
    ghost var lines := SplitLines(body);
    SectionBlock(body, h, e, slug);
    SpansNone(lines, h, slug);
    spans := [];
    var block := SplitLines(body[start..end]);
    var offset := start;
    for i := 0 to |block|
      invariant i <= e - h ==> offset == Offset(lines, h + i)
      invariant SpansOf(lines, LinkIndices(lines, h + 1, if i <= e - h then h + i else e, slug), spans)
    {
      if i < e - h {
        assert block[i] == lines[h + i];
        SpansSnoc(lines, h, h + i, slug, spans);
        OffsetStep(lines, h + i);
      }
      if LinksTo(block[i], slug) {
        spans := spans + [(offset, |block[i]|)];
      }
      offset := offset + |block[i]| + 1;
    }
  }

  // The lines of the section's slice: its heading line and body lines, and an empty one when another
  // line follows the section.
  lemma SectionBlock(body: string, h: nat, e: nat, slug: string)
    requires IsSection(SplitLines(body), h, e)
    ensures h < e <= |SplitLines(body)|
    ensures 0 <= Offset(SplitLines(body), h) <= EndOffset(SplitLines(body), e) <= |body|
    ensures SplitLines(body[Offset(SplitLines(body), h)..EndOffset(SplitLines(body), e)])
         == SplitLines(body)[h..e] + if e < |SplitLines(body)| then [""] else []
    ensures !LinksTo(SplitLines(body)[h], slug) && !LinksTo("", slug)
  {
    JoinSplit(body);
    SplitIsSingleLines(body);
    SplitBlock(SplitLines(body), h, e);
    HeadingIsNoLink(SplitLines(body)[h], slug);
    EmptyIsNoLink(slug);
  }

  lemma SpansNone(lines: seq<string>, h: nat, slug: string)
    requires h <= |lines|
    ensures SpansOf(lines, LinkIndices(lines, h + 1, h, slug), [])
  {
  }

  lemma SpansSnoc(lines: seq<string>, h: nat, k: nat, slug: string, spans: seq<(nat, nat)>)
    requires h <= k < |lines| && !LinksTo(lines[h], slug)
    requires SpansOf(lines, LinkIndices(lines, h + 1, k, slug), spans)
    ensures SpansOf(lines, LinkIndices(lines, h + 1, k + 1, slug),
                    if LinksTo(lines[k], slug) then spans + [(Offset(lines, k), |lines[k]|)] else spans)
  {
    hide LinksTo, Offset;
    assert LinkIndices(lines, h + 1, k + 1, slug)
        == if LinksTo(lines[k], slug) then LinkIndices(lines, h + 1, k, slug) + [k] else LinkIndices(lines, h + 1, k, slug) by {
      hide LinkIndices;
      LinkIndicesStep(lines, h, k, slug);
    }
    hide LinkIndices;
  }

  lemma LinkIndicesStep(lines: seq<string>, h: nat, k: nat, slug: string)
    requires h <= k < |lines| && !LinksTo(lines[h], slug)
    ensures LinkIndices(lines, h + 1, k + 1, slug)
         == if LinksTo(lines[k], slug) then LinkIndices(lines, h + 1, k, slug) + [k] else LinkIndices(lines, h + 1, k, slug)
  {
    hide LinksTo;
    assert LinkIndices(lines, h + 1, k, slug) + [] == LinkIndices(lines, h + 1, k, slug);
  }

  lemma EmptyIsNoLink(slug: string)
    ensures !LinksTo("", slug)
  {
  }

  lemma HeadingIsNoLink(line: string, slug: string)
    requires IsTasksHeading(line)
    ensures !LinksTo(line, slug)
  {
    if ParseBullet(line).Some? {
      BulletIsNoHeading(line);
    }
  }

  // A line's span extended to swallow exactly one adjacent newline.
  function LineRemovalSpan(body: string, lineStart: nat, lineLen: nat): Edit {
    var lineEnd := lineStart + lineLen;
    if lineEnd < |body| && body[lineEnd] == '\n' then Edit(lineStart, lineEnd + 1, "")
    else if 0 < lineStart <= |body| && body[lineStart - 1] == '\n' then Edit(lineStart - 1, lineEnd, "")
    else Edit(lineStart, lineEnd, "")
  }

  ghost function RemovalOf(lines: seq<string>, i: nat): Edit
    requires 0 < i < |lines|
  {
    if i + 1 < |lines| then Edit(Offset(lines, i), Offset(lines, i + 1), "")
    else Edit(Offset(lines, i - 1) + |lines[i - 1]|, Offset(lines, i) + |lines[i]|, "")
  }

  lemma LineRemovalSpanOf(lines: seq<string>, i: nat)
    requires 0 < i < |lines|
    ensures LineRemovalSpan(JoinLines(lines), Offset(lines, i), |lines[i]|) == RemovalOf(lines, i)
    ensures RemovalOf(lines, i).start <= RemovalOf(lines, i).end <= |JoinLines(lines)|
  {
    hide JoinLines, Offset, Terminated;
    LineAt(lines, i);
    LineAt(lines, i - 1);
  }

  ghost predicate RemovalsOf(lines: seq<string>, idx: seq<nat>, removals: seq<Edit>) {
    && |removals| == |idx|
    && (forall j | 0 <= j < |idx| :: 0 < idx[j] < |lines| && removals[j] == RemovalOf(lines, idx[j]))
  }

  method RemovalSpans(body: string, spans: seq<(nat, nat)>, ghost lines: seq<string>, ghost idx: seq<nat>, ghost a: nat)
    returns (removals: seq<Edit>)
    requires lines != [] && body == JoinLines(lines) && SpansOf(lines, idx, spans)
    requires a < |lines| && AllAfter(idx, a)
    ensures RemovalsOf(lines, idx, removals)
    ensures RemovalsWithin(removals, Offset(lines, a) + |lines[a]|, |body|)
  {
    RemovalsNone(lines, idx, spans, a);
    hide *;
    removals := [];
    for i := 0 to |spans|
      invariant |removals| == i <= |idx|
      invariant RemovalsOf(lines, idx[..i], removals)
      invariant RemovalsWithin(removals, Offset(lines, a) + |lines[a]|, |body|)
    {
      RemovalsSnoc(lines, idx, spans, removals, i, a);
      removals := removals + [LineRemovalSpan(body, spans[i].0, spans[i].1)];
    }
    assert idx[..|idx|] == idx;
  }

  lemma RemovalsNone(lines: seq<string>, idx: seq<nat>, spans: seq<(nat, nat)>, a: nat)
    requires a < |lines| && SpansOf(lines, idx, spans)
    ensures |spans| == |idx| && RemovalsOf(lines, idx[..0], [])
    ensures RemovalsWithin([], Offset(lines, a) + |lines[a]|, |JoinLines(lines)|)
  {
  }

  lemma RemovalsSnoc(lines: seq<string>, idx: seq<nat>, spans: seq<(nat, nat)>, removals: seq<Edit>, i: nat, a: nat)
    requires a < |lines| && AllAfter(idx, a) && SpansOf(lines, idx, spans) && i < |spans|
    requires RemovalsOf(lines, idx[..i], removals)
    requires RemovalsWithin(removals, Offset(lines, a) + |lines[a]|, |JoinLines(lines)|)
    ensures var next := removals + [LineRemovalSpan(JoinLines(lines), spans[i].0, spans[i].1)];
      RemovalsOf(lines, idx[..i + 1], next) && RemovalsWithin(next, Offset(lines, a) + |lines[a]|, |JoinLines(lines)|)
  {
    hide Offset, JoinLines, LineRemovalSpan, RemovalOf;
    assert idx[i] in idx;
    LineRemovalSpanOf(lines, idx[i]);
    RemovalStart(lines, a, idx[i]);
    assert idx[..i + 1] == idx[..i] + [idx[i]];
  }

  lemma RemovalStart(lines: seq<string>, a: nat, i: nat)
    requires a < i < |lines|
    ensures Offset(lines, a) + |lines[a]| <= RemovalOf(lines, i).start
    ensures RemovalOf(lines, i).text == ""
  {
    OffsetMonotone(lines, a, i);
    if a < i - 1 { OffsetMonotone(lines, a, i - 1); }
  }

  // ----- span editing is line filtering -----

  // lines[a..b] without the indices in idx
  ghost function Without(lines: seq<string>, idx: seq<nat>, a: nat, b: nat): seq<string>
    requires a <= b <= |lines|
  {
    if a == b then [] else Without(lines, idx, a, b - 1) + (if b - 1 in idx then [] else [lines[b - 1]])
  }

  lemma WithoutStep(lines: seq<string>, idx: seq<nat>, a: nat, b: nat)
    requires a < b <= |lines|
    ensures Without(lines, idx, a, b) == Without(lines, idx, a, b - 1) + (if b - 1 in idx then [] else [lines[b - 1]])
  {
  }

  // Which positions of line i (its newline included) the removals delete.
  lemma CoverOfLine(lines: seq<string>, idx: seq<nat>, removals: seq<Edit>, i: nat, p: int)
    requires RemovalsOf(lines, idx, removals)
    requires i < |lines| && Offset(lines, i) <= p <= Offset(lines, i) + |lines[i]|
    requires i + 1 == |lines| ==> p < Offset(lines, i) + |lines[i]|
    ensures Covered(removals, p) <==> i in idx || (|lines| - 1 in idx && i + 2 == |lines| && p == Offset(lines, i) + |lines[i]|)
  {
    hide *;
    if i in idx {
      RemovalCovers(lines, idx, removals, i, p);
      OwnLine(lines, i, p);
    }
    if |lines| - 1 in idx {
      RemovalCovers(lines, idx, removals, |lines| - 1, p);
      if i + 2 == |lines| { OwnLine(lines, i, p); }
    }
    if Covered(removals, p) {
      var k := CoveringRemoval(lines, idx, removals, p);
      OnlyOwnLine(lines, i, p, k);
    }
  }

  lemma RemovalCovers(lines: seq<string>, idx: seq<nat>, removals: seq<Edit>, k: nat, p: int)
    requires RemovalsOf(lines, idx, removals) && k in idx
    ensures 0 < k < |lines|
    ensures RemovalOf(lines, k).start <= p < RemovalOf(lines, k).end ==> Covered(removals, p)
  {
    hide Offset;
    var j :| 0 <= j < |idx| && idx[j] == k;
    assert removals[j] in removals;
  }

  lemma CoveringRemoval(lines: seq<string>, idx: seq<nat>, removals: seq<Edit>, p: int) returns (k: nat)
    requires RemovalsOf(lines, idx, removals) && Covered(removals, p)
    ensures k in idx && 0 < k < |lines| && RemovalOf(lines, k).start <= p < RemovalOf(lines, k).end
  {
    hide Offset;
    var s :| s in removals && s.start <= p < s.end;
    var j :| 0 <= j < |removals| && removals[j] == s;
    k := idx[j];
  }

  // Which positions of line i the removals of line i and of a last line right after it reach.
  lemma OwnLine(lines: seq<string>, i: nat, p: int)
    requires i < |lines| && Offset(lines, i) <= p <= Offset(lines, i) + |lines[i]|
    requires i + 1 == |lines| ==> p < Offset(lines, i) + |lines[i]|
    ensures 0 < i ==> RemovalOf(lines, i).start <= p < RemovalOf(lines, i).end
    ensures i + 2 == |lines| && p == Offset(lines, i) + |lines[i]| ==> RemovalOf(lines, i + 1).start <= p < RemovalOf(lines, i + 1).end
  {
    hide Offset;
    OffsetStep(lines, i);
    if i > 0 { OffsetStep(lines, i - 1); }
  }

  // The removal of line k reaches no position of another line, except the newline before a last line.
  lemma OnlyOwnLine(lines: seq<string>, i: nat, p: int, k: nat)
    requires i < |lines| && 0 < k < |lines| && Offset(lines, i) <= p <= Offset(lines, i) + |lines[i]|
    requires RemovalOf(lines, k).start <= p < RemovalOf(lines, k).end
    ensures k == i || (k + 1 == |lines| && i + 1 == k && p == Offset(lines, i) + |lines[i]|)
  {
    hide Offset;
    OffsetStep(lines, k);
    OffsetStep(lines, k - 1);
    if k < i { OffsetMonotone(lines, k, i); }
    if i < k { OffsetMonotone(lines, i, k); }
    if i < k - 1 { OffsetMonotone(lines, i, k - 1); }
  }

  lemma KeepLine(lines: seq<string>, idx: seq<nat>, removals: seq<Edit>, i: nat)
    requires RemovalsOf(lines, idx, removals)
    requires i + 1 < |lines| && (|lines| - 1 in idx ==> i + 3 <= |lines|)
    ensures Offset(lines, i) <= Offset(lines, i + 1) <= |JoinLines(lines)|
    ensures Keep(JoinLines(lines), removals, Offset(lines, i), Offset(lines, i + 1))
         == if i in idx then "" else lines[i] + "\n"
  {
    hide *;
    var body, lo, hi := JoinLines(lines), Offset(lines, i), Offset(lines, i + 1);
    LineAt(lines, i);
    forall p | lo <= p < hi ensures Covered(removals, p) <==> i in idx {
      CoverOfLine(lines, idx, removals, i, p);
    }
    if i in idx {
      KeepCovered(body, removals, lo, hi);
    } else {
      KeepUncovered(body, removals, lo, hi);
    }
  }

  lemma TerminatedWithout(lines: seq<string>, idx: seq<nat>, a: nat, b: nat)
    requires a < b <= |lines|
    ensures Terminated(Without(lines, idx, a, b))
         == Terminated(Without(lines, idx, a, b - 1)) + (if b - 1 in idx then "" else lines[b - 1] + "\n")
  {
    TerminatedSnoc(Without(lines, idx, a, b - 1), lines[b - 1]);
    assert Without(lines, idx, a, b - 1) + [] == Without(lines, idx, a, b - 1);
  }

  // A block of whole lines, each entirely kept or entirely deleted.
  lemma {:induction false} KeepBlock(lines: seq<string>, idx: seq<nat>, removals: seq<Edit>, a: nat, b: nat)
    requires RemovalsOf(lines, idx, removals)
    requires a <= b < |lines| && (|lines| - 1 in idx ==> b + 2 <= |lines|)
    ensures Offset(lines, a) <= Offset(lines, b) <= |JoinLines(lines)|
    ensures Keep(JoinLines(lines), removals, Offset(lines, a), Offset(lines, b)) == Terminated(Without(lines, idx, a, b))
  {
    LineAt(lines, b);
    if a < b {
      hide *;
      KeepBlock(lines, idx, removals, a, b - 1);
      KeepLine(lines, idx, removals, b - 1);
      KeepSplit(JoinLines(lines), removals, Offset(lines, a), Offset(lines, b - 1), Offset(lines, b));
      TerminatedWithout(lines, idx, a, b);
    }
  }

  // Each line preceded by a newline.
  function Led(lines: seq<string>): string {
    if lines == [] then "" else "\n" + JoinLines(lines)
  }

  lemma {:induction false} JoinLed(pre: seq<string>, x: string, post: seq<string>)
    ensures JoinLines(pre + [x] + post) == Terminated(pre) + x + Led(post)
  {
    if pre == [] {
      assert [] + [x] + post == [x] + post;
      assert ([x] + post)[1..] == post;
    } else {
      assert (pre + [x] + post)[1..] == pre[1..] + [x] + post;
      JoinLed(pre[1..], x, post);
    }
  }

  lemma LedSnoc(init: seq<string>, last: string)
    ensures Led(init + [last]) == "\n" + Terminated(init) + last
  {
    hide JoinLines, Terminated;
    JoinIsTerminatedPlusLast(init, last);
  }

  // Everything after line a, when every deleted line comes after a: the remaining lines, plus one
  // final newline when the last two lines are both deleted.
  lemma KeepRest(lines: seq<string>, idx: seq<nat>, removals: seq<Edit>, a: nat)
    requires RemovalsOf(lines, idx, removals)
    requires a < |lines| && AllAfter(idx, a)
    ensures Offset(lines, a) + |lines[a]| <= |JoinLines(lines)|
    ensures Keep(JoinLines(lines), removals, Offset(lines, a) + |lines[a]|, |JoinLines(lines)|)
         == Led(Without(lines, idx, a + 1, |lines|) + Trailer(|lines| - 1 in idx && |lines| - 2 in idx))
  {
    hide *;
    var body, n, q := JoinLines(lines), |lines|, Offset(lines, a) + |lines[a]|;
    LineAt(lines, a);
    AllAfterIs(idx, a, a);
    if n >= 2 { AllAfterIs(idx, a, n - 2); }
    if a + 1 == n {
      KeepNothing(lines, idx, removals, a);
    } else if n - 1 !in idx {
      KeepRestTail(lines, idx, removals, a, n - 1, n - 1);
      NoTrailer(Without(lines, idx, a + 1, n), false);
    } else if n - 2 in idx {
      KeepRestTwo(lines, idx, removals, a);
    } else if n - 2 == a {
      KeepRestLast(lines, idx, removals, a);
    } else {
      KeepRestTail(lines, idx, removals, a, n - 2, n - 1);
      NoTrailer(Without(lines, idx, a + 1, n), false);
    }
  }

  lemma NoTrailer(ls: seq<string>, leaveNewline: bool)
    ensures ls + Trailer(leaveNewline) == if leaveNewline then ls + [""] else ls
  {
  }

  lemma KeepNothing(lines: seq<string>, idx: seq<nat>, removals: seq<Edit>, a: nat)
    requires a + 1 == |lines| && a !in idx
    ensures Offset(lines, a) + |lines[a]| == |JoinLines(lines)|
    ensures Keep(JoinLines(lines), removals, |JoinLines(lines)|, |JoinLines(lines)|)
         == Led(Without(lines, idx, a + 1, |lines|) + Trailer(false))
  {
    LineAt(lines, a);
  }

  // The last two lines are deleted: the newline before them stays.
  lemma KeepRestTwo(lines: seq<string>, idx: seq<nat>, removals: seq<Edit>, a: nat)
    requires RemovalsOf(lines, idx, removals)
    requires a + 2 < |lines| && |lines| - 1 in idx && |lines| - 2 in idx && AllAfter(idx, a)
    ensures Offset(lines, a) + |lines[a]| <= |JoinLines(lines)|
    ensures Keep(JoinLines(lines), removals, Offset(lines, a) + |lines[a]|, |JoinLines(lines)|)
         == Led(Without(lines, idx, a + 1, |lines|) + Trailer(true))
  {
    hide *;
    var body, n, q := JoinLines(lines), |lines|, Offset(lines, a) + |lines[a]|;
    LineAt(lines, a);
    LineAt(lines, n - 2);
    LineAt(lines, n - 1);
    KeepDroppedLine(lines, idx, removals, n - 2);
    KeepDroppedLine(lines, idx, removals, n - 1);
    KeepToLine(lines, idx, removals, a, n - 2);
    KeepSplit(body, removals, q, Offset(lines, n - 2), |body|);
    KeepSplit(body, removals, Offset(lines, n - 2), Offset(lines, n - 1), |body|);
    WithoutStep(lines, idx, a + 1, n);
    WithoutStep(lines, idx, a + 1, n - 1);
    assert Without(lines, idx, a + 1, n) == Without(lines, idx, a + 1, n - 2) by {
      assert Without(lines, idx, a + 1, n - 1) + [] == Without(lines, idx, a + 1, n - 1);
      assert Without(lines, idx, a + 1, n - 2) + [] == Without(lines, idx, a + 1, n - 2);
    }
    NoTrailer(Without(lines, idx, a + 1, n), true);
    LedSnoc(Without(lines, idx, a + 1, n - 2), "");
  }

  // Only the last line is deleted, right after line a: a's newline goes with it.
  lemma KeepRestLast(lines: seq<string>, idx: seq<nat>, removals: seq<Edit>, a: nat)
    requires RemovalsOf(lines, idx, removals)
    requires a + 2 == |lines| && a + 1 in idx && a !in idx
    ensures Offset(lines, a) + |lines[a]| <= |JoinLines(lines)|
    ensures Keep(JoinLines(lines), removals, Offset(lines, a) + |lines[a]|, |JoinLines(lines)|)
         == Led(Without(lines, idx, a + 1, |lines|) + Trailer(false))
  {
    hide *;
    var body, q := JoinLines(lines), Offset(lines, a) + |lines[a]|;
    WithoutOne(lines, idx, a + 1);
    LineAt(lines, a);
    CoverOfLine(lines, idx, removals, a, q);
    KeepDroppedLine(lines, idx, removals, a + 1);
    KeepSplit(body, removals, q, q + 1, |body|);
    KeepCovered(body, removals, q, q + 1);
    LedEmpty();
  }

  lemma WithoutOne(lines: seq<string>, idx: seq<nat>, i: nat)
    requires i + 1 == |lines| && i in idx
    ensures Without(lines, idx, i, |lines|) + Trailer(false) == []
  {
  }

  lemma LedEmpty()
    ensures Led([]) == ""
  {
  }

  lemma KeepDroppedLine(lines: seq<string>, idx: seq<nat>, removals: seq<Edit>, i: nat)
    requires RemovalsOf(lines, idx, removals) && i in idx
    ensures i < |lines| && Offset(lines, i) + |lines[i]| <= |JoinLines(lines)|
    ensures i + 1 == |lines| ==> Keep(JoinLines(lines), removals, Offset(lines, i), |JoinLines(lines)|) == ""
    ensures i + 1 < |lines| ==> Offset(lines, i) <= Offset(lines, i + 1) <= |JoinLines(lines)|
    ensures i + 1 < |lines| ==> Keep(JoinLines(lines), removals, Offset(lines, i), Offset(lines, i + 1)) == ""
  {
    LineAt(lines, i);
    var body, lo, l := JoinLines(lines), Offset(lines, i), |lines[i]|;
    forall p | lo <= p < lo + l || (p == lo + l && i + 1 < |lines|) ensures Covered(removals, p) {
      CoverOfLine(lines, idx, removals, i, p);
    }
    if i + 1 < |lines| {
      KeepCovered(body, removals, lo, lo + l + 1);
    } else {
      KeepCovered(body, removals, lo, lo + l);
    }
  }

  // From the newline of line a up to the start of line b: that newline, then the kept lines.
  lemma KeepToLine(lines: seq<string>, idx: seq<nat>, removals: seq<Edit>, a: nat, b: nat)
    requires RemovalsOf(lines, idx, removals)
    requires a + 1 <= b < |lines| && AllAfter(idx, a)
    requires |lines| - 1 in idx ==> b + 2 <= |lines|
    ensures Offset(lines, a) + |lines[a]| <= Offset(lines, b) <= |JoinLines(lines)|
    ensures Keep(JoinLines(lines), removals, Offset(lines, a) + |lines[a]|, Offset(lines, b))
         == "\n" + Terminated(Without(lines, idx, a + 1, b))
  {
    hide *;
    var body, q := JoinLines(lines), Offset(lines, a) + |lines[a]|;
    LineAt(lines, a);
    OffsetMonotone(lines, a, b);
    AllAfterIs(idx, a, a);
    CoverOfLine(lines, idx, removals, a, q);
    KeepBlock(lines, idx, removals, a + 1, b);
    KeepSplit(body, removals, q, q + 1, Offset(lines, b));
    KeepUncovered(body, removals, q, q + 1);
  }

  // The last surviving line is b: what follows it is deleted with b's newline, or nothing follows.
  lemma KeepRestTail(lines: seq<string>, idx: seq<nat>, removals: seq<Edit>, a: nat, b: nat, last: nat)
    requires RemovalsOf(lines, idx, removals)
    requires a + 1 <= b <= last && last + 1 == |lines| && b !in idx && AllAfter(idx, a)
    requires b == last || (b + 1 == last && last in idx)
    ensures Offset(lines, a) + |lines[a]| <= |JoinLines(lines)|
    ensures Keep(JoinLines(lines), removals, Offset(lines, a) + |lines[a]|, |JoinLines(lines)|)
         == Led(Without(lines, idx, a + 1, |lines|))
  {
    hide *;
    var body, q := JoinLines(lines), Offset(lines, a) + |lines[a]|;
    var o, l := Offset(lines, b), |lines[b]|;
    LineAt(lines, a);
    LineAt(lines, b);
    KeepToLine(lines, idx, removals, a, b);
    KeepSplit(body, removals, q, o, |body|);
    KeepSplit(body, removals, o, o + l, |body|);
    forall p | o <= p < o + l ensures !Covered(removals, p) {
      CoverOfLine(lines, idx, removals, b, p);
    }
    KeepUncovered(body, removals, o, o + l);
    if b < last {
      CoverOfLine(lines, idx, removals, b, o + l);
      KeepCovered(body, removals, o + l, o + l + 1);
      KeepSplit(body, removals, o + l, o + l + 1, |body|);
      KeepDroppedLine(lines, idx, removals, last);
      WithoutStep(lines, idx, a + 1, |lines|);
      assert Without(lines, idx, a + 1, last) + [] == Without(lines, idx, a + 1, last);
    }
    WithoutStep(lines, idx, a + 1, b + 1);
    LedSnoc(Without(lines, idx, a + 1, b), lines[b]);
  }

  // ----- from index lists to line filters -----

  lemma {:induction false} WithoutSlugConcat(a: seq<string>, b: seq<string>, slug: string)
    ensures WithoutSlug(a + b, slug) == WithoutSlug(a, slug) + WithoutSlug(b, slug)
  {
    hide LinksTo;
    if a == [] {
      assert a + b == b;
    } else {
      assert (a + b)[1..] == a[1..] + b;
      WithoutSlugConcat(a[1..], b, slug);
    }
  }

  lemma {:induction false} WithoutIsFilter(lines: seq<string>, lo: nat, e: nat, b: nat, slug: string)
    requires lo <= b <= e <= |lines|
    ensures Without(lines, LinkIndices(lines, lo, e, slug), lo, b) == WithoutSlug(lines[lo..b], slug)
    decreases b
  {
    hide LinksTo, LinkIndices;
    if b > lo {
      WithoutIsFilter(lines, lo, e, b - 1, slug);
      LinkIndexIs(lines, lo, e, slug, b - 1);
      WithoutSlugSnoc(lines[lo..b - 1], lines[b - 1], slug);
      assert lines[lo..b] == lines[lo..b - 1] + [lines[b - 1]];
    }
  }

  lemma WithoutSlugSnoc(a: seq<string>, line: string, slug: string)
    ensures WithoutSlug(a + [line], slug) == WithoutSlug(a, slug) + (if LinksTo(line, slug) then [] else [line])
  {
    hide LinksTo;
    WithoutSlugConcat(a, [line], slug);
  }

  lemma LinkIndexIs(lines: seq<string>, lo: nat, e: nat, slug: string, i: nat)
    requires e <= |lines|
    ensures i in LinkIndices(lines, lo, e, slug) <==> lo <= i < e && LinksTo(lines[i], slug)
  {
    hide LinksTo, LinkIndices;
    LinkIndicesAre(lines, lo, e, slug);
  }

  lemma {:induction false} WithoutBeyond(lines: seq<string>, lo: nat, e: nat, b: nat, slug: string)
    requires lo <= e <= b <= |lines|
    ensures Without(lines, LinkIndices(lines, lo, e, slug), lo, b) == WithoutSlug(lines[lo..e], slug) + lines[e..b]
    decreases b
  {
    hide LinksTo, LinkIndices, WithoutSlug;
    if b > e {
      WithoutBeyond(lines, lo, e, b - 1, slug);
      LinkIndexIs(lines, lo, e, slug, b - 1);
      assert lines[e..b] == lines[e..b - 1] + [lines[b - 1]];
    } else {
      WithoutIsFilter(lines, lo, e, e, slug);
    }
  }

  ghost predicate NoLinks(lines: seq<string>, lo: nat, hi: nat, slug: string)
    requires hi <= |lines|
  {
    forall i | lo <= i < hi :: !LinksTo(lines[i], slug)
  }

  // The line index of the first link from lo on and before e; e when there is none.
  ghost function FirstLinkLine(lines: seq<string>, lo: nat, e: nat, slug: string): nat
    requires lo <= e <= |lines|
  {
    lo + FirstLink(lines[lo..e], slug)
  }

  lemma FirstLinkLineIs(lines: seq<string>, lo: nat, e: nat, slug: string)
    requires lo <= e <= |lines|
    ensures lo <= FirstLinkLine(lines, lo, e, slug) <= e
    ensures NoLinks(lines, lo, FirstLinkLine(lines, lo, e, slug), slug)
    ensures FirstLinkLine(lines, lo, e, slug) < e ==> LinksTo(lines[FirstLinkLine(lines, lo, e, slug)], slug)
  {
    hide LinksTo, FirstLink;
    FirstLinkIsFirst(lines[lo..e], slug);
    var k := FirstLinkLine(lines, lo, e, slug);
    forall i | lo <= i < k ensures !LinksTo(lines[i], slug) {
      assert lines[i] == lines[lo..e][i - lo];
    }
  }

  // The first index of the list is the section's first link; the rest lists the later ones.
  lemma {:induction false} LinkIndicesSplit(lines: seq<string>, lo: nat, k: nat, hi: nat, slug: string)
    requires lo <= k < hi <= |lines|
    requires NoLinks(lines, lo, k, slug) && LinksTo(lines[k], slug)
    ensures LinkIndices(lines, lo, hi, slug) == [k] + LinkIndices(lines, k + 1, hi, slug)
    decreases hi
  {
    hide LinksTo;
    if k + 1 < hi {
      LinkIndicesSplit(lines, lo, k, hi - 1, slug);
    } else {
      LinkIndicesNone(lines, lo, k, slug);
    }
  }

  lemma {:induction false} LinkIndicesNone(lines: seq<string>, lo: nat, hi: nat, slug: string)
    requires hi <= |lines| && NoLinks(lines, lo, hi, slug)
    ensures LinkIndices(lines, lo, hi, slug) == []
    decreases hi
  {
    hide LinksTo;
    if lo < hi {
      LinkIndicesNone(lines, lo, hi - 1, slug);
    }
  }

  lemma LinkIndicesOfSection(lines: seq<string>, lo: nat, e: nat, slug: string, k: nat)
    requires lo <= e <= |lines| && k == FirstLinkLine(lines, lo, e, slug)
    ensures k <= e
    ensures k == e ==> LinkIndices(lines, lo, e, slug) == []
    ensures k < e ==> LinkIndices(lines, lo, e, slug) == [k] + LinkIndices(lines, k + 1, e, slug)
  {
    hide *;
    FirstLinkLineIs(lines, lo, e, slug);
    if k < e { LinkIndicesSplit(lines, lo, k, e, slug); } else { LinkIndicesNone(lines, lo, e, slug); }
  }

  // What is left after line a: the section without its links to slug, then everything else.
  ghost function Rest(lines: seq<string>, a: nat, e: nat, slug: string): seq<string>
    requires a < e <= |lines|
  {
    Filtered(lines[a + 1..e], e == |lines|, slug) + lines[e..]
  }

  lemma RestIs(lines: seq<string>, a: nat, e: nat, slug: string)
    requires a < e <= |lines|
    ensures Rest(lines, a, e, slug)
         == WithoutSlug(lines[a + 1..e], slug) + lines[e..] + Trailer(DropsLastTwo(lines[a + 1..e], e == |lines|, slug))
  {
    hide WithoutSlug, LinksTo;
    if e == |lines| { assert lines[e..] == []; }
  }

  // Deleting the removal spans of all links after line a leaves the filtered lines.
  lemma SpliceIsFilter(lines: seq<string>, a: nat, e: nat, slug: string, removals: seq<Edit>, merged: seq<Edit>)
    requires a < e <= |lines|
    requires RemovalsOf(lines, LinkIndices(lines, a + 1, e, slug), removals)
    requires SameCover(merged, removals) && Separated(merged)
    requires Offset(lines, a) + |lines[a]| <= |JoinLines(lines)|
    requires RemovalsWithin(merged, Offset(lines, a) + |lines[a]|, |JoinLines(lines)|)
    ensures Splice(JoinLines(lines), Offset(lines, a) + |lines[a]|, merged)
         == Led(Rest(lines, a, e, slug))
  {
    hide *;
    RestIs(lines, a, e, slug);
    var idx, n, body, q := LinkIndices(lines, a + 1, e, slug), |lines|, JoinLines(lines), Offset(lines, a) + |lines[a]|;
    DropsLastTwoIndices(lines, a, e, slug);
    LinkIndicesAfter(lines, a, e, slug);
    SpliceDeletes(body, q, merged);
    KeepSameMergedCover(body, merged, removals, q);
    KeepRest(lines, idx, removals, a);
    WithoutBeyond(lines, a + 1, e, n, slug);
    assert lines[e..n] == lines[e..];
  }

  lemma DropsLastTwoIndices(lines: seq<string>, a: nat, e: nat, slug: string)
    requires a < e <= |lines|
    ensures DropsLastTwo(lines[a + 1..e], e == |lines|, slug) <==>
      |lines| - 1 in LinkIndices(lines, a + 1, e, slug) && |lines| - 2 in LinkIndices(lines, a + 1, e, slug)
  {
    hide LinksTo, LinkIndices;
    var n := |lines|;
    LinkIndexIs(lines, a + 1, e, slug, n - 1);
    if n >= 2 { LinkIndexIs(lines, a + 1, e, slug, n - 2); }
  }

  lemma KeepSameMergedCover(body: string, merged: seq<Edit>, removals: seq<Edit>, q: nat)
    requires SameCover(merged, removals) && q <= |body|
    ensures Keep(body, merged, q, |body|) == Keep(body, removals, q, |body|)
  {
    KeepSameCover(body, merged, removals, q, |body|);
  }

  lemma {:induction false} SortFixesMerged(merged: seq<Edit>, lo: nat, hi: nat)
    requires Separated(merged) && RemovalsWithin(merged, lo, hi)
    ensures Sort(merged) == merged
  {
    forall i, j | 0 <= i < j < |merged| ensures SpanLe(merged[i], merged[j]) {
      assert merged[i] in merged && merged[j] in merged;
    }
    SortFixesOrdered(merged);
  }

  // A cursor that starts at 0 copies the text before the first removal verbatim.
  lemma SpliceFromStart(body: string, q: nat, merged: seq<Edit>)
    requires q <= |body| && RemovalsWithin(merged, q, |body|)
    ensures Splice(body, 0, merged) == body[..q] + Splice(body, q, merged)
  {
    hide Sort;
    if merged != [] {
      assert merged[0] in merged;
      assert body[0..merged[0].start] == body[..q] + body[q..merged[0].start];
    } else {
      assert body == body[..q] + body[q..];
    }
  }

  lemma JoinAround(lines: seq<string>, a: nat, x: string, post: seq<string>)
    requires a < |lines|
    ensures Offset(lines, a) <= |JoinLines(lines)|
    ensures JoinLines(lines)[..Offset(lines, a)] + x + Led(post) == JoinLines(lines[..a] + [x] + post)
    ensures x == lines[a] ==> Offset(lines, a) + |x| <= |JoinLines(lines)|
    ensures x == lines[a] ==> JoinLines(lines)[..Offset(lines, a) + |x|] == JoinLines(lines)[..Offset(lines, a)] + x
  {
    hide JoinLines, Terminated, Offset, Led;
    LineAt(lines, a);
    JoinLed(lines[..a], x, post);
  }

  // ----- the transformer -----

  // The canonical line inserted at the end of the section, on a line of its own.
  function Appended(body: string, end: nat, slug: string): string
    requires end <= |body|
  {
    var prefix := if end == |body| && body != "" && body[|body| - 1] != '\n' then "\n" else "";
    body[..end] + prefix + LinkLine(slug, "") + "\n" + body[end..]
  }

  // Remove every bullet of the section that links to slug.
  method RemoveDailyNoteTaskLink(body: string, slug: string) returns (r: EditResult)
    ensures r == RemoveSpec(body, slug)
  {
    hide *;
    SpecErrors(body, slug);
    if !ValidSlug(slug) { return InvalidSlug; }
    var found, start, end, h, e := FindTasksSection(body);
    if !found { return NotOneTasksSection; }
    ghost var lines := SplitLines(body);
    JoinSplit(body);
    SectionBounds(lines, h, e);
    var spans := SectionBulletWikilinkSpans(body, start, end, slug, h, e);
    SpansCount(lines, h, e, slug, spans);
    if |spans| == 0 {
      RemoveNothing(body, h, e, slug);
      return Edited(body, false);
    }
    LinkIndicesAfter(lines, h, e, slug);
    var removals := RemovalSpans(body, spans, lines, LinkIndices(lines, h + 1, e, slug), h);
    LineAt(lines, h);
    var merged := MergeRemovalSpans(removals, Offset(lines, h) + |lines[h]|, |body|);
    var newBody := ApplyEdits(body, merged);
    RemoveGlue(body, h, e, slug, removals, merged);
    return Edited(newBody, true);
  }

  // Add the bare canonical bullet, or normalise the first matching bullet and drop its duplicates.
  method AddDailyNoteTaskLink(body: string, slug: string) returns (r: EditResult)
    ensures r == AddSpec(body, slug)
  {
    hide *;
    SpecErrors(body, slug);
    if !ValidSlug(slug) { return InvalidSlug; }
    var found, start, end, h, e := FindTasksSection(body);
    if !found { return NotOneTasksSection; }
    ghost var lines := SplitLines(body);
    JoinSplit(body);
    SectionBounds(lines, h, e);
    var spans := SectionBulletWikilinkSpans(body, start, end, slug, h, e);
    SpansCount(lines, h, e, slug, spans);
    if |spans| == 0 {
      AppendGlue(body, h, e, slug);
      return Edited(Appended(body, end, slug), true);
    }
    ghost var k := FirstLinkLine(lines, h + 1, e, slug);
    var firstStart, firstLen := spans[0].0, spans[0].1;
    FirstSpanIs(lines, h, e, slug, k, spans);
    LineAt(lines, k);
    var canonical := Normalised(body[firstStart..firstStart + firstLen], slug);
    LinkIndicesAfter(lines, k, e, slug);
    var removals := RemovalSpans(body, spans[1..], lines, LinkIndices(lines, k + 1, e, slug), k);
    var merged := MergeRemovalSpans(removals, Offset(lines, k) + |lines[k]|, |body|);
    var edits := [Edit(firstStart, firstStart + firstLen, canonical)] + merged;
    var newBody := ApplyEdits(body, edits);
    AddGlue(body, h, e, slug, k, removals, merged, canonical);
    return Edited(newBody, newBody != body);
  }

  lemma SpecErrors(body: string, slug: string)
    ensures !ValidSlug(slug) ==> RemoveSpec(body, slug) == AddSpec(body, slug) == InvalidSlug
    ensures ValidSlug(slug) && !OneSection(SplitLines(body)) ==>
      RemoveSpec(body, slug) == AddSpec(body, slug) == NotOneTasksSection
  {
    hide ValidSlug, OneSection, SplitLines, RemoveLines, AddLines, FirstLinkLine, JoinLines;
  }

  lemma SectionBounds(lines: seq<string>, h: nat, e: nat)
    requires IsSection(lines, h, e)
    ensures h < e <= |lines|
  {
  }

  lemma SpansCount(lines: seq<string>, h: nat, e: nat, slug: string, spans: seq<(nat, nat)>)
    requires h < e <= |lines|
    requires SpansOf(lines, LinkIndices(lines, h + 1, e, slug), spans)
    ensures |spans| == 0 <==> FirstLinkLine(lines, h + 1, e, slug) == e
    ensures FirstLinkLine(lines, h + 1, e, slug) <= e
  {
    hide LinkIndices, FirstLinkLine, LinksTo;
    LinkIndicesOfSection(lines, h + 1, e, slug, FirstLinkLine(lines, h + 1, e, slug));
  }

  lemma FirstSpanIs(lines: seq<string>, h: nat, e: nat, slug: string, k: nat, spans: seq<(nat, nat)>)
    requires h < e <= |lines| && k == FirstLinkLine(lines, h + 1, e, slug) && k < e
    requires SpansOf(lines, LinkIndices(lines, h + 1, e, slug), spans)
    ensures |spans| > 0 && spans[0] == (Offset(lines, k), |lines[k]|)
    ensures SpansOf(lines, LinkIndices(lines, k + 1, e, slug), spans[1..])
  {
    hide LinkIndices, FirstLinkLine, Offset;
    LinkIndicesOfSection(lines, h + 1, e, slug, k);
    var rest := LinkIndices(lines, k + 1, e, slug);
    forall j | 0 <= j < |rest| ensures rest[j] < |lines| && spans[1..][j] == (Offset(lines, rest[j]), |lines[rest[j]]|) {
      assert ([k] + rest)[j + 1] == rest[j];
    }
  }

  lemma SpecsAre(body: string, slug: string, h: nat, e: nat)
    requires ValidSlug(slug) && IsSection(SplitLines(body), h, e)
    ensures h < e <= |SplitLines(body)|
    ensures RemoveSpec(body, slug) == Edited(JoinLines(RemoveLines(SplitLines(body), h, e, slug)),
                                             FirstLinkLine(SplitLines(body), h + 1, e, slug) < e)
    ensures AddSpec(body, slug).Edited? && AddSpec(body, slug).text == JoinLines(AddLines(SplitLines(body), h, e, slug))
    ensures AddSpec(body, slug).changed == (AddSpec(body, slug).text != body)
  {
    var lines := SplitLines(body);
    hide RemoveLines, AddLines, FirstLinkLine, SplitLines, JoinLines, IsTasksHeading, IsH2Heading, ValidSlug;
    forall h2: nat, e2: nat | IsSection(lines, h2, e2) ensures h2 == h && e2 == e {
      SectionUnique(lines, h, e, h2, e2);
    }
  }

  lemma {:induction false} WithoutSlugNone(seg: seq<string>, slug: string)
    requires forall i | 0 <= i < |seg| :: !LinksTo(seg[i], slug)
    ensures WithoutSlug(seg, slug) == seg
  {
    hide LinksTo;
    if seg != [] {
      assert forall i | 0 <= i < |seg[1..]| :: seg[1..][i] == seg[i + 1];
      WithoutSlugNone(seg[1..], slug);
    }
  }

  lemma RemoveNothing(body: string, h: nat, e: nat, slug: string)
    requires ValidSlug(slug) && IsSection(SplitLines(body), h, e)
    requires FirstLinkLine(SplitLines(body), h + 1, e, slug) == e
    ensures RemoveSpec(body, slug) == Edited(body, false)
  {
    hide *;
    SpecsAre(body, slug, h, e);
    RemoveLinesSame(SplitLines(body), h, e, slug);
    JoinSplit(body);
  }

  lemma RemoveLinesSame(lines: seq<string>, h: nat, e: nat, slug: string)
    requires h < e <= |lines| && FirstLinkLine(lines, h + 1, e, slug) == e
    ensures RemoveLines(lines, h, e, slug) == lines
  {
    hide LinksTo, WithoutSlug, FirstLink;
    FirstLinkIsFirst(lines[h + 1..e], slug);
    FilteredSame(lines[h + 1..e], e == |lines|, slug);
    assert lines[..h + 1] + lines[h + 1..e] + lines[e..] == lines;
  }

  lemma FilteredSame(post: seq<string>, atEnd: bool, slug: string)
    requires forall i | 0 <= i < |post| :: !LinksTo(post[i], slug)
    ensures Filtered(post, atEnd, slug) == post
  {
    hide LinksTo, WithoutSlug;
    WithoutSlugNone(post, slug);
  }

  lemma RemoveGlue(body: string, h: nat, e: nat, slug: string, removals: seq<Edit>, merged: seq<Edit>)
    requires ValidSlug(slug) && IsSection(SplitLines(body), h, e) && h < e <= |SplitLines(body)|
    requires FirstLinkLine(SplitLines(body), h + 1, e, slug) < e
    requires RemovalsOf(SplitLines(body), LinkIndices(SplitLines(body), h + 1, e, slug), removals)
    requires SameCover(merged, removals) && Separated(merged)
    requires Offset(SplitLines(body), h) + |SplitLines(body)[h]| <= |body|
    requires RemovalsWithin(merged, Offset(SplitLines(body), h) + |SplitLines(body)[h]|, |body|)
    ensures RemoveSpec(body, slug) == Edited(Splice(body, 0, Sort(merged)), true)
  {
    hide *;
    var lines := SplitLines(body);
    JoinSplit(body);
    SpecsAre(body, slug, h, e);
    RemoveLinesAre(lines, h, e, slug);
    SortFixesMerged(merged, Offset(lines, h) + |lines[h]|, |body|);
    SpliceFromStart(body, Offset(lines, h) + |lines[h]|, merged);
    SpliceIsFilter(lines, h, e, slug, removals, merged);
    JoinAround(lines, h, lines[h], Rest(lines, h, e, slug));
  }

  lemma RemoveLinesAre(lines: seq<string>, h: nat, e: nat, slug: string)
    requires h < e <= |lines|
    ensures RemoveLines(lines, h, e, slug) == lines[..h] + [lines[h]] + Rest(lines, h, e, slug)
  {
    hide Filtered;
    assert lines[..h + 1] == lines[..h] + [lines[h]];
  }

  lemma AddLinesAre(lines: seq<string>, h: nat, e: nat, slug: string, k: nat)
    requires h < e <= |lines| && k == FirstLinkLine(lines, h + 1, e, slug) && k < e
    ensures AddLines(lines, h, e, slug) == lines[..k] + [Normalised(lines[k], slug)] + Rest(lines, k, e, slug)
    ensures lines[k] != ""
  {
    hide *;
    FirstLinkLineIs(lines, h + 1, e, slug);
    EmptyIsNoLink(slug);
    FirstLinkLineOffset(lines, h + 1, e, slug);
    var seg, j := lines[h + 1..e], k - h - 1;
    SegmentPieces(lines, h, e, k);
    AddedToFirst(seg, e == |lines|, slug, j);
    AddLinesUnfold(lines, h, e, slug);
    Regroup(lines[..h + 1], seg[..j], Normalised(lines[k], slug), Filtered(seg[j + 1..], e == |lines|, slug), lines[e..]);
    RestUnfold(lines, k, e, slug);
  }

  lemma FirstLinkLineOffset(lines: seq<string>, lo: nat, e: nat, slug: string)
    requires lo <= e <= |lines|
    ensures FirstLinkLine(lines, lo, e, slug) == lo + FirstLink(lines[lo..e], slug)
  {
  }

  lemma SegmentPieces(lines: seq<string>, h: nat, e: nat, k: nat)
    requires h < k < e <= |lines|
    ensures lines[..h + 1] + lines[h + 1..e][..k - h - 1] == lines[..k]
    ensures lines[h + 1..e][k - h - 1] == lines[k]
    ensures lines[h + 1..e][k - h..] == lines[k + 1..e]
  {
  }

  lemma AddedToFirst(seg: seq<string>, atEnd: bool, slug: string, k: nat)
    requires k == FirstLink(seg, slug) && k < |seg|
    ensures AddedTo(seg, atEnd, slug) == seg[..k] + [Normalised(seg[k], slug)] + Filtered(seg[k + 1..], atEnd, slug)
  {
    hide FirstLink, Normalised, Filtered;
  }

  lemma AddLinesUnfold(lines: seq<string>, h: nat, e: nat, slug: string)
    requires h < e <= |lines|
    ensures AddLines(lines, h, e, slug) == lines[..h + 1] + AddedTo(lines[h + 1..e], e == |lines|, slug) + lines[e..]
  {
    hide AddedTo;
  }

  lemma RestUnfold(lines: seq<string>, a: nat, e: nat, slug: string)
    requires a < e <= |lines|
    ensures Rest(lines, a, e, slug) == Filtered(lines[a + 1..e], e == |lines|, slug) + lines[e..]
  {
    hide Filtered;
  }

  lemma Regroup(a: seq<string>, b: seq<string>, x: string, c: seq<string>, d: seq<string>)
    ensures a + (b + [x] + c) + d == (a + b) + [x] + (c + d)
  {
  }

  lemma AddLinesAppend(lines: seq<string>, h: nat, e: nat, slug: string)
    requires h < e <= |lines| && FirstLinkLine(lines, h + 1, e, slug) == e && lines[h] != ""
    ensures e < |lines| ==> AddLines(lines, h, e, slug) == lines[..e] + [LinkLine(slug, "")] + lines[e..]
    ensures e == |lines| ==>
      AddLines(lines, h, e, slug) == if lines[e - 1] == "" then lines[..e - 1] + [LinkLine(slug, ""), ""] else lines + [LinkLine(slug, ""), ""]
  {
    hide FirstLink, LinkLine;
    var seg := lines[h + 1..e];
    assert lines[..h + 1] + seg == lines[..e];
    if e == |lines| {
      assert lines[e..] == [] && lines[..e] == lines;
      if lines[e - 1] == "" { assert lines[..h + 1] + seg[..|seg| - 1] == lines[..e - 1]; }
    }
  }

  lemma AddGlue(body: string, h: nat, e: nat, slug: string, k: nat, removals: seq<Edit>, merged: seq<Edit>, canonical: string)
    requires ValidSlug(slug) && IsSection(SplitLines(body), h, e) && h < e <= |SplitLines(body)|
    requires k == FirstLinkLine(SplitLines(body), h + 1, e, slug) && k < e
    requires canonical == Normalised(SplitLines(body)[k], slug)
    requires RemovalsOf(SplitLines(body), LinkIndices(SplitLines(body), k + 1, e, slug), removals)
    requires SameCover(merged, removals) && Separated(merged)
    requires Offset(SplitLines(body), k) + |SplitLines(body)[k]| <= |body|
    requires RemovalsWithin(merged, Offset(SplitLines(body), k) + |SplitLines(body)[k]|, |body|)
    ensures var lines := SplitLines(body);
      var newBody := Splice(body, 0, Sort([Edit(Offset(lines, k), Offset(lines, k) + |lines[k]|, canonical)] + merged));
      AddSpec(body, slug) == Edited(newBody, newBody != body)
  {
    hide *;
    var lines := SplitLines(body);
    JoinSplit(body);
    SpecsAre(body, slug, h, e);
    AddLinesAre(lines, h, e, slug, k);
    var first := Edit(Offset(lines, k), Offset(lines, k) + |lines[k]|, canonical);
    SortFixesFirst(body, first, merged);
    SpliceIsFilter(lines, k, e, slug, removals, merged);
    JoinAround(lines, k, canonical, Rest(lines, k, e, slug));
  }

  lemma SortFixesFirst(body: string, first: Edit, merged: seq<Edit>)
    requires first.start < first.end <= |body| && Separated(merged) && RemovalsWithin(merged, first.end, |body|)
    ensures Sort([first] + merged) == [first] + merged
    ensures Splice(body, 0, [first] + merged) == body[..first.start] + first.text + Splice(body, first.end, merged)
  {
    SortFixesMerged(merged, first.end, |body|);
    assert ([first] + merged)[1..] == merged;
    if merged != [] { assert merged[0] in merged; }
  }

  lemma AppendGlue(body: string, h: nat, e: nat, slug: string)
    requires ValidSlug(slug) && IsSection(SplitLines(body), h, e)
    requires FirstLinkLine(SplitLines(body), h + 1, e, slug) == e
    ensures 0 <= EndOffset(SplitLines(body), e) <= |body|
    ensures AddSpec(body, slug) == Edited(Appended(body, EndOffset(SplitLines(body), e), slug), true)
  {
    hide *;
    JoinSplit(body);
    SpecsAre(body, slug, h, e);
    SplitIsSingleLines(body);
    HeadingsNonEmpty(SplitLines(body), h, e);
    AppendedIs(SplitLines(body), h, e, slug);
    AppendedLength(body, EndOffset(SplitLines(body), e), slug);
  }

  lemma AppendedLength(body: string, end: nat, slug: string)
    requires end <= |body|
    ensures Appended(body, end, slug) != body
  {
    hide LinkLine;
    assert |Appended(body, end, slug)| > |body|;
  }

  lemma HeadingsNonEmpty(lines: seq<string>, h: nat, e: nat)
    requires IsSection(lines, h, e)
    ensures h < e <= |lines| && lines[h] != "" && (e < |lines| ==> lines[e] != "")
  {
  }

  lemma AppendedIs(lines: seq<string>, h: nat, e: nat, slug: string)
    requires h < e <= |lines| && FirstLinkLine(lines, h + 1, e, slug) == e
    requires SingleLines(lines) && lines[h] != "" && (e < |lines| ==> lines[e] != "")
    ensures 0 <= EndOffset(lines, e) <= |JoinLines(lines)|
    ensures Appended(JoinLines(lines), EndOffset(lines, e), slug) == JoinLines(AddLines(lines, h, e, slug))
  {
    hide *;
    AddLinesAppend(lines, h, e, slug);
    OffsetMonotone(lines, h, e);
    if e < |lines| { AppendedInside(lines, e, slug); } else { AppendedAtEnd(lines, h, slug); }
  }

  lemma AppendedInside(lines: seq<string>, e: nat, slug: string)
    requires e < |lines| && lines[e] != ""
    ensures 0 <= EndOffset(lines, e) <= |JoinLines(lines)|
    ensures Appended(JoinLines(lines), EndOffset(lines, e), slug) == JoinLines(lines[..e] + [LinkLine(slug, "")] + lines[e..])
  {
    hide *;
    EndOffsetInside(lines, e);
    LineAt(lines, e);
    JoinCut(lines, e);
    JoinLed(lines[..e], LinkLine(slug, ""), lines[e..]);
    LedOf(lines[e..]);
    AppendedBefore(JoinLines(lines), Terminated(lines[..e]), JoinLines(lines[e..]), slug);
  }

  lemma EndOffsetInside(lines: seq<string>, e: nat)
    requires e < |lines|
    ensures EndOffset(lines, e) == Offset(lines, e)
  {
  }

  lemma LedOf(lines: seq<string>)
    requires lines != []
    ensures Led(lines) == "\n" + JoinLines(lines)
  {
  }

  lemma AppendedBefore(body: string, before: string, after: string, slug: string)
    requires body == before + after && after != ""
    ensures Appended(body, |before|, slug) == before + LinkLine(slug, "") + ("\n" + after)
  {
    hide LinkLine;
  }

  lemma AppendedAtEnd(lines: seq<string>, h: nat, slug: string)
    requires h < |lines| && SingleLines(lines) && lines[h] != ""
    ensures EndOffset(lines, |lines|) == |JoinLines(lines)|
    ensures Appended(JoinLines(lines), |JoinLines(lines)|, slug)
         == JoinLines(if lines[|lines| - 1] == "" then lines[..|lines| - 1] + [LinkLine(slug, ""), ""] else lines + [LinkLine(slug, ""), ""])
  {
    hide *;
    var n, link := |lines|, LinkLine(slug, "");
    var init, last := lines[..n - 1], lines[n - 1];
    LineAt(lines, n - 1);
    EndOffsetAtEnd(lines);
    assert lines == init + [last] && last in lines;
    JoinIsTerminatedPlusLast(init, last);
    if last == "" {
      TerminatedEnd(init);
      AppendedAfter(JoinLines(lines), slug);
      assert Terminated(init) + "" == Terminated(init);
      JoinLinkLast(init, link);
    } else {
      LastOfSingleLine(lines, last);
      AppendedAfter(JoinLines(lines), slug);
      assert JoinLines(lines)[|JoinLines(lines)| - 1] == last[|last| - 1];
      TerminatedSnoc(init, last);
      JoinLinkLast(lines, link);
      assert JoinLines(lines) + "\n" == Terminated(lines);
    }
  }

  lemma EndOffsetAtEnd(lines: seq<string>)
    requires lines != []
    ensures EndOffset(lines, |lines|) == Offset(lines, |lines| - 1) + |lines[|lines| - 1]|
  {
  }

  lemma LastOfSingleLine(lines: seq<string>, last: string)
    requires SingleLines(lines) && last in lines && last != ""
    ensures last[|last| - 1] != '\n'
  {
    assert last[|last| - 1] in last;
  }

  lemma TerminatedEnd(init: seq<string>)
    requires init != []
    ensures Terminated(init) != "" && Terminated(init)[|Terminated(init)| - 1] == '\n'
  {
    var m := |init| - 1;
    assert init == init[..m] + [init[m]];
    TerminatedSnoc(init[..m], init[m]);
  }

  lemma JoinLinkLast(init: seq<string>, link: string)
    ensures JoinLines(init + [link, ""]) == Terminated(init) + link + "\n"
  {
    hide JoinLines, Terminated;
    assert init + [link, ""] == (init + [link]) + [""];
    JoinIsTerminatedPlusLast(init + [link], "");
    TerminatedSnoc(init, link);
  }

  lemma AppendedAfter(body: string, slug: string)
    requires body != ""
    ensures Appended(body, |body|, slug)
         == (if body[|body| - 1] == '\n' then body else body + "\n") + LinkLine(slug, "") + "\n"
  {
    hide LinkLine;
    assert body[..|body|] == body && body[|body|..] == "";
  }
}
