// When a section edit changes where the frontmatter of a note ends: exactly when a link is appended after
// an unterminated last line `---` of a note whose opening `---` was not closed before.
module FrontmatterFence {
  import opened Text
  import opened TaskLines
  import opened TasksSection
  import opened LinkAlgebra
  import opened Reconcile
  import opened Projection
  import opened NoteBodies

  const RULE := "---"

  // A line `---` from the third line on that is not the last line.
  predicate FenceLine(lines: seq<string>) {
    |lines| >= 3 && RULE in lines[2..|lines| - 1]
  }

  // ----- fences in a text are fence lines -----

  lemma {:induction false} SplitAt(a: string, b: string)
    ensures SplitLines(a + "\n" + b) == SplitLines(a) + SplitLines(b)
    decreases |a|
  {
    if |a| == 0 {
      assert a + "\n" + b == ['\n'] + b;
      assert (a + "\n" + b)[1..] == b;
    } else {
      assert (a + "\n" + b)[1..] == a[1..] + "\n" + b;
      SplitAt(a[1..], b);
    }
  }

  lemma {:induction false} FindsFence(text: string, from: nat, k: nat)
    requires from <= k && k + 5 <= |text| && text[k..k + 5] == FENCE
    ensures FindFence(text, from).Some?
    decreases k - from
  {
    if from < k && text[from..from + 5] != FENCE {
      FindsFence(text, from + 1, k);
    }
  }

  lemma SplitOpened(text: string)
    requires "---\n" <= text
    ensures SplitLines(text) == [RULE] + SplitLines(text[4..])
  {
    hide SplitLines;
    assert text == RULE + "\n" + text[4..];
    SplitAt(RULE, text[4..]);
    SplitLine(RULE, "");
    assert RULE + "\n" + "" == RULE + "\n";
  }

  lemma FenceIsLine(text: string)
    requires "---\n" <= text
    ensures BodyOffset(text) > 0 <==> FenceLine(SplitLines(text))
  {
    hide SplitLines, FenceLine;
    if BodyOffset(text) > 0 { FenceToLine(text); }
    if FenceLine(SplitLines(text)) { LineToFence(text); }
  }

  lemma FenceToLine(text: string)
    requires "---\n" <= text && FindFence(text, 4).Some?
    ensures FenceLine(SplitLines(text))
  {
    hide SplitLines;
    var k := FindFence(text, 4).value;
    var a, b := text[..k], text[k + 5..];
    assert text[k..k + 5] == FENCE;
    assert FENCE == "\n" + (RULE + "\n");
    assert text[..k] + text[k..k + 5] + text[k + 5..] == text;
    assert text == a + "\n" + (RULE + "\n" + b);
    SplitAt(a, RULE + "\n" + b);
    SplitAt(RULE, b);
    SplitRule();
    assert "---\n" <= a;
    SplitOpened(a);
    FenceLineAt(SplitLines(a), SplitLines(b));
  }

  lemma SplitRule()
    ensures SplitLines(RULE) == [RULE]
  {
    hide SplitLines;
    SplitLine(RULE, "");
  }

  lemma FenceLineAt(a: seq<string>, b: seq<string>)
    requires |a| >= 2 && |b| >= 1
    ensures FenceLine(a + ([RULE] + b))
  {
    var lines := a + ([RULE] + b);
    assert lines[2..|lines| - 1][|a| - 2] == RULE;
  }

  // Line i of a text, with the newlines around it.
  lemma LineInText(text: string, i: nat) returns (o: nat)
    requires 2 <= i < |SplitLines(text)| && |SplitLines(text)[0]| == 3
    ensures o >= 5 && o + |SplitLines(text)[i]| <= |text| && text[o..o + |SplitLines(text)[i]|] == SplitLines(text)[i]
    ensures text[o - 1] == '\n'
    ensures i + 1 < |SplitLines(text)| ==> o + |SplitLines(text)[i]| < |text| && text[o + |SplitLines(text)[i]|] == '\n'
    ensures i + 1 == |SplitLines(text)| ==> o + |SplitLines(text)[i]| == |text|
  {
    hide *;
    var lines := SplitLines(text);
    JoinSplit(text);
    LineAt(lines, i);
    LineAt(lines, i - 1);
    OffsetMonotone(lines, 0, i - 1);
    OffsetAtLeast(lines, i);
    o := Offset(lines, i);
  }

  lemma OffsetAtLeast(lines: seq<string>, i: nat)
    requires 2 <= i <= |lines| && |lines[0]| == 3
    ensures Offset(lines, i) >= 5
  {
    if i > 2 { OffsetMonotone(lines, 2, i); }
  }

  lemma FenceAround(text: string, o: nat)
    requires 1 <= o && o + 4 <= |text| && text[o..o + 3] == RULE && text[o - 1] == '\n' && text[o + 3] == '\n'
    ensures text[o - 1..o + 4] == FENCE
  {
    assert text[o - 1..o + 4] == [text[o - 1]] + text[o..o + 3] + [text[o + 3]];
    assert FENCE == "\n" + RULE + "\n";
  }

  lemma LineToFence(text: string)
    requires "---\n" <= text && FenceLine(SplitLines(text))
    ensures FindFence(text, 4).Some?
  {
    var i := FenceLineIndex(SplitLines(text));
    hide *;
    SplitOpened(text);
    RuleLength();
    var o := LineInText(text, i);
    FenceAround(text, o);
    FindsFence(text, 4, o - 1);
  }

  lemma RuleLength()
    ensures |RULE| == 3
  {
  }

  lemma FenceLineIndex(lines: seq<string>) returns (i: nat)
    requires FenceLine(lines)
    ensures 2 <= i && i + 1 < |lines| && lines[i] == RULE
  {
    var j :| 0 <= j < |lines| - 3 && lines[2..|lines| - 1][j] == RULE;
    i := j + 2;
  }

  // ----- edits of the section and fence lines -----

  lemma RuleIsNoLink(slug: string, indent: string)
    requires ValidSlug(slug)
    ensures RULE != "" && LinkLine(slug, indent) != RULE && !LinksTo(RULE, slug) && !IsTasksHeading(RULE)
  {
    assert LinkLine(slug, indent)[|indent| + 2] == '[';
    assert forall c | c in RULE :: c == '-';
    if LinksTo(RULE, slug) {
      var b, marker, gap, link, trail := ParseBulletSound(RULE);
    }
    assert StripRight(RULE) == RULE;
  }

  lemma {:induction false} FilteredMembers(seg: seq<string>, atEnd: bool, slug: string, x: string)
    requires x in Filtered(seg, atEnd, slug)
    ensures x in seg || x == ""
  {
    hide LinksTo, WithoutSlug;
    WithoutSlugSubset(seg, slug);
  }

  // Only the last line of a section at the end of the body can be a rule, and filtering leaves it last.
  lemma FilteredRule(seg: seq<string>, atEnd: bool, slug: string)
    requires ValidSlug(slug)
    requires seg != [] ==> RULE !in seg[..|seg| - 1]
    ensures var q := Filtered(seg, atEnd, slug); q != [] ==> RULE !in q[..|q| - 1]
  {
    hide LinksTo, WithoutSlug, LinkLine, AllBlank, IsTasksHeading;
    RuleIsNoLink(slug, "");
    var q := Filtered(seg, atEnd, slug);
    if seg != [] && seg[|seg| - 1] == RULE {
      var init := seg[..|seg| - 1];
      assert seg == init + [RULE];
      WithoutSlugSnoc(init, RULE, slug);
      WithoutSlugSubset(init, slug);
      assert q == WithoutSlug(init, slug) + [RULE] + [];
      assert q[..|q| - 1] == WithoutSlug(init, slug);
    } else {
      if seg != [] { assert seg == seg[..|seg| - 1] + [seg[|seg| - 1]]; }
      assert RULE !in seg;
      if RULE in q { FilteredMembers(seg, atEnd, slug, RULE); }
    }
  }

  // Appending the link after a last line that is a rule is the only way to end it.
  lemma LastOrBefore(seg: seq<string>)
    requires seg != []
    ensures RULE in seg <==> RULE in seg[..|seg| - 1] || seg[|seg| - 1] == RULE
  {
    assert seg == seg[..|seg| - 1] + [seg[|seg| - 1]];
  }

  lemma AddedRule(seg: seq<string>, slug: string)
    requires ValidSlug(slug)
    requires seg != [] ==> RULE !in seg[..|seg| - 1]
    ensures var q := AddedTo(seg, true, slug);
      q != [] && (RULE in q[..|q| - 1] <==> FirstLink(seg, slug) == |seg| && seg != [] && seg[|seg| - 1] == RULE)
  {
    hide *;
    RuleIsNoLink(slug, "");
    var k := FirstLink(seg, slug);
    FirstLinkIsFirst(seg, slug);
    if k < |seg| {
      AddedToFirst(seg, true, slug, k);
      var post := seg[k + 1..];
      var indent := NormalisedIndent(seg[k], slug);
      RuleIsNoLink(slug, indent);
      assert post != [] ==> post[..|post| - 1] == seg[..|seg| - 1][k + 1..];
      FilteredRule(post, true, slug);
      assert seg[..k] == seg[..|seg| - 1][..k];
      RuleInParts(seg[..k], Normalised(seg[k], slug), Filtered(post, true, slug));
    } else {
      AddedToAppended(seg, true, slug);
      var link := LinkLine(slug, "");
      if seg != [] && seg[|seg| - 1] == "" {
        RuleInParts(seg[..|seg| - 1], link, [""]);
        assert seg[..|seg| - 1] + [link, ""] == seg[..|seg| - 1] + [link] + [""];
      } else {
        RuleInParts(seg, link, [""]);
        assert seg + [link, ""] == seg + [link] + [""];
        if seg != [] { LastOrBefore(seg); }
      }
    }
  }

  lemma RuleInParts(pre: seq<string>, x: string, post: seq<string>)
    requires x != RULE && (post != [] ==> RULE !in post[..|post| - 1])
    ensures var q := pre + [x] + post; RULE in q[..|q| - 1] <==> RULE in pre
  {
    var q := pre + [x] + post;
    if post == [] {
      assert q[..|q| - 1] == pre;
    } else {
      assert q[..|q| - 1] == pre + [x] + post[..|post| - 1];
    }
  }

  // The lines of a note with a section, cut into parts around it.
  lemma PartsRule(lines: seq<string>, h: nat, e: nat, q: seq<string>)
    requires 1 <= h < e <= |lines| && !FenceLine(lines) && lines[h] != RULE
    ensures var seg := lines[h + 1..e]; seg != [] ==> RULE !in seg[..|seg| - 1]
    ensures e < |lines| ==> RULE !in lines[h + 1..e]
    ensures e < |lines| && RULE !in q ==> !FenceLine(lines[..h + 1] + q + lines[e..])
    ensures e == |lines| ==>
      (FenceLine(lines[..h + 1] + q + lines[e..]) <==> q != [] && RULE in q[..|q| - 1])
  {
    hide FenceLine;
    FenceLineExact(lines);
    FenceLineExact(lines[..h + 1] + q + lines[e..]);
    if e < |lines| { PartsInside(lines, h, e, q); } else { PartsAtEnd(lines, h, q); }
  }

  lemma FenceLineExact(lines: seq<string>)
    ensures FenceLine(lines) <==> exists i | 2 <= i < |lines| - 1 :: lines[i] == RULE
  {
    forall i | 2 <= i < |lines| - 1 ensures lines[i] == lines[2..|lines| - 1][i - 2] {}
  }

  lemma PartsInside(lines: seq<string>, h: nat, e: nat, q: seq<string>)
    requires 1 <= h < e < |lines| && lines[h] != RULE
    requires forall i | 2 <= i < |lines| - 1 :: lines[i] != RULE
    ensures var edited := lines[..h + 1] + q + lines[e..];
      RULE !in q ==> forall i | 2 <= i < |edited| - 1 :: edited[i] != RULE
  {
    var edited := lines[..h + 1] + q + lines[e..];
    forall i | 2 <= i < |edited| - 1 ensures RULE !in q ==> edited[i] != RULE {
      if i >= h + 1 + |q| { assert edited[i] == lines[i - |q| - h - 1 + e]; } else if i > h { assert edited[i] == q[i - h - 1]; }
    }
  }

  lemma PartsAtEnd(lines: seq<string>, h: nat, q: seq<string>)
    requires 1 <= h < |lines| && lines[h] != RULE
    requires forall i | 2 <= i < |lines| - 1 :: lines[i] != RULE
    ensures var edited := lines[..h + 1] + q + lines[|lines|..];
      (exists i | 2 <= i < |edited| - 1 :: edited[i] == RULE) <==> q != [] && RULE in q[..|q| - 1]
  {
    var edited := lines[..h + 1] + q + lines[|lines|..];
    assert edited == lines[..h + 1] + q;
    forall i | 2 <= i < |edited| - 1
      ensures i <= h ==> edited[i] != RULE
      ensures i > h ==> edited[i] == q[..|q| - 1][i - h - 1]
    {
    }
    if q != [] && RULE in q[..|q| - 1] {
      var j :| 0 <= j < |q| - 1 && q[j] == RULE;
      assert edited[h + 1 + j] == RULE;
    }
  }

  // ----- the exact condition -----

  // The note opens a frontmatter block it does not close, its section runs to its end, its last line is
  // a rule, and the slug has no link yet.
  ghost predicate ClosesFence(text: string, slug: Slug) {
    var lines := SplitLines(text);
    && "---\n" <= text && !FenceLine(lines)
    && |lines| >= 3 && lines[|lines| - 1] == RULE
    && (exists h: nat :: IsSection(lines, h, |lines|))
    && slug !in SectionLinks(text)
  }

  // An edit leaves the body where it was, except exactly when it appends a link that closes the fence.
  lemma ReparseExact(op: Operation, slug: Slug, text: string)
    requires Transform(op, slug, text).NewText?
    ensures Steady(op, slug, text) <==> !(op == Ensure && ClosesFence(text, slug))
  {
    hide *;
    EditableBody(op, slug, text);
    SteadyIs(op, slug, text);
    var h, e := TheSection(Body(text));
    if Closed(text) {
      ClosedStays(op, slug, text);
      ClosedHasFence(text, slug);
    } else {
      UnclosedReparse(op, slug, text, h, e);
    }
  }

  lemma ClosedHasFence(text: string, slug: Slug)
    requires Closed(text)
    ensures !ClosesFence(text, slug)
  {
    hide FenceLine, SplitLines, SectionLinks, IsSection, FindFence, BodyOffset;
    if "---\n" <= text { FenceIsLine(text); }
  }

  // An edit of an unclosed note, in lines: q takes the place of the section's lines.
  lemma UnclosedEdit(op: Operation, slug: Slug, text: string, h: nat, e: nat) returns (q: seq<string>)
    requires Transform(op, slug, text).NewText? && !Closed(text)
    requires IsSection(SplitLines(Body(text)), h, e) && h < e <= |SplitLines(Body(text))|
    ensures Body(text) == text && BodyOffset(text) == 0 && "---\n" <= text && !FenceLine(SplitLines(text))
    ensures 1 <= h < e <= |SplitLines(text)| && SplitLines(text)[h] != RULE && ValidSlug(slug)
    ensures q == if op == Ensure then AddedTo(SplitLines(text)[h + 1..e], e == |SplitLines(text)|, slug)
                 else Filtered(SplitLines(text)[h + 1..e], e == |SplitLines(text)|, slug)
    ensures SplitLines(Transform(op, slug, text).text) == SplitLines(text)[..h + 1] + q + SplitLines(text)[e..]
    ensures "---\n" <= Transform(op, slug, text).text
  {
    hide *;
    EditableBody(op, slug, text);
    UnclosedIs(text);
    var lines := SplitLines(text);
    SpecsAre(text, slug, h, e);
    RemoveLinesUnfold(lines, h, e, slug);
    AddLinesUnfold(lines, h, e, slug);
    SplitOpened(text);
    RuleIsNoLink(slug, "");
    HeadingIsNotFirst(lines, h, e);
    var seg, atEnd := lines[h + 1..e], e == |lines|;
    q := if op == Ensure then AddedTo(seg, atEnd, slug) else Filtered(seg, atEnd, slug);
    var edited := lines[..h + 1] + q + lines[e..];
    SplitIsSingleLines(text);
    SectionIsBody(lines, h, e);
    AddedLinks(seg, atEnd, slug);
    FilteredLinks(seg, atEnd, slug);
    ResectionText(text, h, e, q);
    var t := Transform(op, slug, text).text;
    assert t == text[..0] + JoinLines(edited);
    assert t == JoinLines(edited);
    SameStart(text, t);
    OpenedAlike(text, t);
  }

  lemma UnclosedReparse(op: Operation, slug: Slug, text: string, h: nat, e: nat)
    requires Transform(op, slug, text).NewText? && !Closed(text)
    requires IsSection(SplitLines(Body(text)), h, e) && h < e <= |SplitLines(Body(text))|
    ensures BodyOffset(Transform(op, slug, text).text) == BodyOffset(text) <==> !(op == Ensure && ClosesFence(text, slug))
  {
    hide *;
    var q := UnclosedEdit(op, slug, text, h, e);
    PartsRule(SplitLines(text), h, e, q);
    SegmentRule(SplitLines(text), h, e, op, slug, q);
    FenceIsLine(Transform(op, slug, text).text);
    ClosesFenceIs(text, slug, h, e);
  }

  // ----- notes no edit spoils -----

  // The frontmatter is closed, or the last line is no rule: then no edit ever moves the body.
  predicate Safe(text: string) {
    Closed(text) || SplitLines(text)[|SplitLines(text)| - 1] != RULE
  }

  lemma SafeStays(op: Operation, slug: Slug, text: string)
    requires Safe(text) && Transform(op, slug, text).NewText?
    ensures Steady(op, slug, text) && Safe(Transform(op, slug, text).text)
  {
    hide *;
    if Closed(text) {
      ClosedStays(op, slug, text);
    } else {
      UnclosedAndSafe(text, slug);
      ReparseExact(op, slug, text);
      EditableBody(op, slug, text);
      var h, e := TheSection(Body(text));
      var q := UnclosedEdit(op, slug, text, h, e);
      LastIsNoRule(SplitLines(text), h, e, op, slug, q);
    }
    SafeIs(Transform(op, slug, text).text);
  }

  lemma SafeIs(text: string)
    ensures Safe(text) <==> Closed(text) || SplitLines(text)[|SplitLines(text)| - 1] != RULE
  {
    hide SplitLines, Closed;
  }

  lemma UnclosedAndSafe(text: string, slug: Slug)
    requires Safe(text) && !Closed(text)
    ensures !ClosesFence(text, slug) && SplitLines(text)[|SplitLines(text)| - 1] != RULE
  {
    hide SplitLines, Closed, FenceLine, SectionLinks, IsSection;
  }

  lemma LastIsNoRule(lines: seq<string>, h: nat, e: nat, op: Operation, slug: Slug, q: seq<string>)
    requires 1 <= h < e <= |lines| && !FenceLine(lines) && lines[h] != RULE && ValidSlug(slug)
    requires q == if op == Ensure then AddedTo(lines[h + 1..e], e == |lines|, slug) else Filtered(lines[h + 1..e], e == |lines|, slug)
    requires lines[|lines| - 1] != RULE
    ensures var edited := lines[..h + 1] + q + lines[e..]; edited[|edited| - 1] != RULE
  {
    hide *;
    var seg := lines[h + 1..e];
    PartsRule(lines, h, e, q);
    RuleIsNoLink(slug, "");
    if e == |lines| {
      if seg != [] {
        assert seg[|seg| - 1] == lines[|lines| - 1];
        assert seg == seg[..|seg| - 1] + [seg[|seg| - 1]];
      }
      assert RULE !in seg;
      if op == Ensure { AddedMembers(seg, true, slug); } else if RULE in q { FilteredMembers(seg, true, slug, RULE); }
      assert RULE !in q;
    }
  }

  lemma UnclosedIs(text: string)
    requires !Closed(text)
    ensures BodyOffset(text) == 0 && "---\n" <= text && Body(text) == text && !FenceLine(SplitLines(text))
  {
    hide SplitLines, FenceLine;
    FenceIsLine(text);
  }

  lemma OpenedAlike(a: string, b: string)
    requires |a| >= 4 && |b| >= 4 && a[..4] == b[..4] && "---\n" <= a
    ensures "---\n" <= b
  {
  }

  lemma HeadingIsNotFirst(lines: seq<string>, h: nat, e: nat)
    requires IsSection(lines, h, e) && lines != [] && lines[0] == RULE && !IsTasksHeading(RULE)
    ensures h >= 1 && h < |lines| && lines[h] != RULE
  {
    hide IsTasksHeading, IsH2Heading;
  }

  lemma SegmentRule(lines: seq<string>, h: nat, e: nat, op: Operation, slug: Slug, q: seq<string>)
    requires 1 <= h < e <= |lines| && !FenceLine(lines) && lines[h] != RULE && ValidSlug(slug)
    requires q == if op == Ensure then AddedTo(lines[h + 1..e], e == |lines|, slug) else Filtered(lines[h + 1..e], e == |lines|, slug)
    ensures e < |lines| ==> RULE !in q
    ensures e == |lines| ==>
      (q != [] && RULE in q[..|q| - 1] <==>
        op == Ensure && FirstLink(lines[h + 1..e], slug) == |lines[h + 1..e]| && lines[|lines| - 1] == RULE)
  {
    hide *;
    var seg := lines[h + 1..e];
    PartsRule(lines, h, e, q);
    RuleIsNoLink(slug, "");
    if e == |lines| {
      if op == Ensure { AddedRule(seg, slug); } else { FilteredRule(seg, true, slug); }
      LastOfSegment(lines, h);
    } else if RULE in q {
      if op == Ensure { AddedMembers(seg, false, slug); } else { FilteredMembers(seg, false, slug, RULE); }
    }
  }

  lemma LastOfSegment(lines: seq<string>, h: nat)
    requires h < |lines| && lines[h] != RULE
    ensures lines[|lines| - 1] == RULE <==> (lines[h + 1..] != [] && lines[h + 1..][|lines[h + 1..]| - 1] == RULE)
  {
  }

  lemma AddedMembers(seg: seq<string>, atEnd: bool, slug: string)
    requires ValidSlug(slug) && RULE !in seg
    ensures RULE !in AddedTo(seg, atEnd, slug)
  {
    hide *;
    var k := FirstLink(seg, slug);
    FirstLinkIsFirst(seg, slug);
    RuleIsNoLink(slug, "");
    if k < |seg| {
      AddedToFirst(seg, atEnd, slug, k);
      var indent := NormalisedIndent(seg[k], slug);
      RuleIsNoLink(slug, indent);
      if RULE in Filtered(seg[k + 1..], atEnd, slug) { FilteredMembers(seg[k + 1..], atEnd, slug, RULE); }
    } else {
      AddedToAppended(seg, atEnd, slug);
    }
  }

  lemma ClosesFenceIs(text: string, slug: Slug, h: nat, e: nat)
    requires "---\n" <= text && !FenceLine(SplitLines(text))
    requires ValidSlug(slug) && IsSection(SplitLines(text), h, e) && 1 <= h < e <= |SplitLines(text)|
    requires SplitLines(text)[h] != RULE
    ensures var lines := SplitLines(text);
      ClosesFence(text, slug) <==>
        e == |lines| && lines[|lines| - 1] == RULE && FirstLink(lines[h + 1..e], slug) == |lines[h + 1..e]|
  {
    hide SplitLines, FenceLine, SectionLinks, FirstLink, IsTasksHeading, IsH2Heading, Targets;
    var lines := SplitLines(text);
    SectionLinksAre(text, h, e);
    LinkedIffTarget(lines[h + 1..e], slug);
    forall h2: nat | IsSection(lines, h2, |lines|) ensures e == |lines| {
      SectionUnique(lines, h, e, h2, |lines|);
    }
  }

  lemma LinkedIffTarget(seg: seq<string>, slug: string)
    ensures slug !in Targets(seg) <==> FirstLink(seg, slug) == |seg|
  {
    hide *;
    if slug !in Targets(seg) { NoTargetNoLink(seg, slug); }
    FirstLinkIsFirst(seg, slug);
    if FirstLink(seg, slug) == |seg| { NoLinkNoTarget(seg, slug); }
  }

  lemma NoLinkNoTarget(seg: seq<string>, slug: string)
    requires FirstLink(seg, slug) == |seg|
    ensures slug !in Targets(seg)
  {
    hide Targets, LinksTo, FirstLink;
    FirstLinkIsFirst(seg, slug);
    TargetsAvoid(seg, slug);
  }

  // Such a note is spoiled by the edit: its section is now read as frontmatter.
  lemma SpoiledHasNoSection(text: string, slug: Slug)
    requires Transform(Ensure, slug, text).NewText? && ClosesFence(text, slug)
    ensures !OneSection(SplitLines(Body(Transform(Ensure, slug, text).text)))
  {
    hide *;
    EditableBody(Ensure, slug, text);
    UnclosedBody(text, slug);
    var lines := SplitLines(text);
    var h, e := TheSection(text);
    SpecsAre(text, slug, h, e);
    SplitOpened(text);
    RuleIsNoLink(slug, "");
    HeadingIsNotFirst(lines, h, e);
    ClosesFenceIs(text, slug, h, e);
    FirstLinkLineOffset(lines, h + 1, e, slug);
    HeadingsNonEmpty(lines, h, e);
    AddLinesAppend(lines, h, e, slug);
    var t := Transform(Ensure, slug, text).text;
    var link := LinkLine(slug, "");
    assert AddLines(lines, h, e, slug) == lines + [link, ""];
    AppendedText(lines, link);
    JoinSplit(text);
    assert t == text[..0] + (text + "\n" + link + "\n");
    assert t == text + "\n" + link + "\n";
    SpoiledBody(text, link, slug);
    LinkHasNoSection(slug);
  }

  // No further link edit of it succeeds.
  lemma ClosedFenceBlocksEdits(text: string, slug: Slug, op: Operation, other: Slug)
    requires Transform(Ensure, slug, text).NewText? && ClosesFence(text, slug)
    ensures Transform(op, other, Transform(Ensure, slug, text).text).BadNote?
  {
    hide *;
    SpoiledHasNoSection(text, slug);
    NoSectionNoEdit(op, other, Transform(Ensure, slug, text).text);
  }

  // The shortest such note.
  lemma SpoiledNote(slug: Slug) returns (text: string)
    requires ValidSlug(slug)
    ensures text == "---\n## Tasks\n---"
    ensures Transform(Ensure, slug, text).NewText? && ClosesFence(text, slug)
  {
    text := "---\n## Tasks\n---";
    SpoiledLines(text);
    SpoiledSection(SplitLines(text));
    SpoiledCloses(text, slug);
    EditableWith(text, slug);
  }

  lemma SpoiledSection(lines: seq<string>)
    requires lines == [RULE, "## Tasks", RULE]
    ensures IsSection(lines, 1, 3) && !FenceLine(lines) && lines[2..3] == [RULE]
  {
    HeadingLine();
    hide IsTasksHeading, IsH2Heading;
  }

  lemma SpoiledCloses(text: string, slug: Slug)
    requires "---\n" <= text && SplitLines(text) == [RULE, "## Tasks", RULE]
    requires IsSection(SplitLines(text), 1, 3) && !FenceLine(SplitLines(text)) && SplitLines(text)[2..3] == [RULE]
    ensures ClosesFence(text, slug) && Body(text) == text
  {
    UnclosedAt(text);
    SectionLinksAre(text, 1, 3);
    RuleTarget();
    hide SplitLines, IsSection, Targets, FenceLine, BodyOffset, SectionLinks;
    assert IsSection(SplitLines(text), 1, |SplitLines(text)|);
  }

  lemma EditableWith(text: string, slug: Slug)
    requires ValidSlug(slug) && Body(text) == text && IsSection(SplitLines(text), 1, 3)
    ensures Transform(Ensure, slug, text).NewText?
  {
    SpecsAre(Body(text), slug, 1, 3);
    hide AddSpec, SplitLines, IsSection, BodyOffset, ValidSlug;
  }

  lemma SpoiledLines(text: string)
    requires text == "---\n## Tasks\n---"
    ensures SplitLines(text) == [RULE, "## Tasks", RULE]
    ensures "---\n" <= text
  {
    hide SplitLines;
    assert text == RULE + "\n" + ("## Tasks" + "\n" + RULE);
    SplitLine(RULE, "## Tasks" + "\n" + RULE);
    SplitLine("## Tasks", RULE);
    SplitRule();
  }

  lemma HeadingLine()
    ensures IsTasksHeading("## Tasks") && !IsTasksHeading(RULE) && !IsH2Heading(RULE)
  {
    assert StripRight("## Tasks") == "## Tasks";
    assert StripRight(RULE) == RULE;
  }

  lemma UnclosedAt(text: string)
    requires "---\n" <= text && !FenceLine(SplitLines(text))
    ensures BodyOffset(text) == 0 && Body(text) == text
  {
    hide SplitLines, FenceLine;
    FenceIsLine(text);
  }

  lemma RuleTarget()
    ensures Targets([RULE]) == []
  {
    hide Targets, LinkAlgebra.TargetOf;
    OneTarget(RULE);
    RuleParses();
  }

  lemma RuleParses()
    ensures LinkAlgebra.TargetOf(RULE) == []
  {
    hide BeforeBar;
    if ParseBullet(RULE).Some? {
      var b, marker, gap, link, trail := ParseBulletSound(RULE);
    }
  }

  lemma UnclosedBody(text: string, slug: Slug)
    requires ClosesFence(text, slug)
    ensures "---\n" <= text && !FenceLine(SplitLines(text)) && BodyOffset(text) == 0 && Body(text) == text
    ensures |SplitLines(text)| >= 3 && SplitLines(text)[|SplitLines(text)| - 1] == RULE
  {
    hide SplitLines, FenceLine, SectionLinks, IsSection;
    FenceIsLine(text);
  }

  lemma AppendedText(lines: seq<string>, link: string)
    requires lines != []
    ensures JoinLines(lines + [link, ""]) == JoinLines(lines) + "\n" + link + "\n"
  {
    hide JoinLines, Terminated;
    var n := |lines| - 1;
    assert lines == lines[..n] + [lines[n]];
    JoinIsTerminatedPlusLast(lines[..n], lines[n]);
    TerminatedSnoc(lines[..n], lines[n]);
    TerminatedSnoc(lines, link);
    assert lines + [link, ""] == (lines + [link]) + [""];
    JoinIsTerminatedPlusLast(lines + [link], "");
  }

  // The first fence of the new text is the old last line.
  lemma SpoiledBody(text: string, link: string, slug: Slug)
    requires "---\n" <= text && !FenceLine(SplitLines(text)) && |SplitLines(text)| >= 3
    requires SplitLines(text)[|SplitLines(text)| - 1] == RULE
    ensures Body(text + "\n" + link + "\n") == link + "\n"
  {
    hide *;
    var t := text + "\n" + link + "\n";
    SplitOpened(text);
    RuleLength();
    var o := LineInText(text, |SplitLines(text)| - 1);
    assert t[o..o + 3] == text[o..o + 3] && t[o - 1] == text[o - 1];
    FenceAround(t, o);
    NoFenceYet(text);
    FindsFence(t, 4, o - 1);
    FirstFence(text, t, 4, o - 1);
    BodyAfterFence(t, o - 1);
    assert t[o + 4..] == link + "\n";
  }

  lemma NoFenceYet(text: string)
    requires "---\n" <= text && !FenceLine(SplitLines(text))
    ensures FindFence(text, 4).None?
  {
    hide SplitLines, FenceLine;
    FenceIsLine(text);
  }

  lemma BodyAfterFence(t: string, k: nat)
    requires "---\n" <= t && FindFence(t, 4) == Some(k)
    ensures Body(t) == t[k + 5..]
  {
  }

  lemma {:induction false} FirstFence(text: string, t: string, from: nat, k: nat)
    requires FindFence(text, from).None? && text <= t && from <= k && k + 4 == |text| && k + 5 <= |t|
    requires t[k..k + 5] == FENCE
    ensures FindFence(t, from) == Some(k)
    decreases k - from
  {
    if from < k {
      assert t[from..from + 5] == text[from..from + 5];
      FirstFence(text, t, from + 1, k);
    }
  }

  lemma LinkHasNoSection(slug: Slug)
    requires ValidSlug(slug)
    ensures !OneSection(SplitLines(LinkLine(slug, "") + "\n"))
  {
    hide *;
    AllBlankEmpty();
    LinkLineLinks(slug, "");
    SplitLine(LinkLine(slug, ""), "");
    assert LinkLine(slug, "") + "\n" + "" == LinkLine(slug, "") + "\n";
    SplitEmpty();
    EmptyIsNoHeading();
    NoHeadingNoSection([LinkLine(slug, "")] + [""]);
  }

  lemma SplitEmpty()
    ensures SplitLines("") == [""]
  {
  }

  lemma EmptyIsNoHeading()
    ensures !IsTasksHeading("")
  {
    assert StripRight("") == "";
  }

  lemma NoHeadingNoSection(lines: seq<string>)
    requires forall line | line in lines :: !IsTasksHeading(line)
    ensures !OneSection(lines)
  {
    hide IsTasksHeading, IsH2Heading;
    forall h: nat, e: nat ensures !IsSection(lines, h, e) {}
  }

  lemma NoSectionNoEdit(op: Operation, slug: Slug, text: string)
    requires !OneSection(SplitLines(Body(text)))
    ensures Transform(op, slug, text).BadNote?
  {
    hide SplitLines, BodyOffset, IsSection;
  }
}
