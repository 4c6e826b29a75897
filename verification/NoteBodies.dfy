// One note: the body behind its frontmatter, the links its section holds, and what an edit does to both.
module NoteBodies {
  import opened Text
  import opened TaskLines
  import opened TasksSection
  import opened LinkAlgebra
  import opened Reconcile
  import opened Projection

  // The frontmatter block, if the text opens one, is closed.
  predicate Closed(text: string) {
    "---\n" <= text ==> BodyOffset(text) > 0
  }

  // ----- the body of an edited note is the edited body -----

  lemma {:induction false} FenceInPrefix(a: string, b: string, from: nat)
    requires FindFence(a, from).Some?
    requires FindFence(a, from).value + 5 <= |b| && a[..FindFence(a, from).value + 5] == b[..FindFence(a, from).value + 5]
    ensures FindFence(b, from) == FindFence(a, from)
    decreases |a| - from
  {
    var k := FindFence(a, from).value;
    assert a[from..from + 5] == a[..k + 5][from..from + 5];
    assert b[from..from + 5] == b[..k + 5][from..from + 5];
    if a[from..from + 5] != FENCE {
      FenceInPrefix(a, b, from + 1);
    }
  }

  lemma OffsetOfClosed(text: string, newBody: string)
    requires BodyOffset(text) > 0
    ensures BodyOffset(text[..BodyOffset(text)] + newBody) == BodyOffset(text)
  {
    var t := text[..BodyOffset(text)] + newBody;
    assert t[..BodyOffset(text)] == text[..BodyOffset(text)];
    assert t[..4] == text[..4];
    FenceInPrefix(text, t, 4);
  }

  lemma {:induction false} StripRightLength(line: string)
    ensures |StripRight(line)| <= |line|
  {
    StripRightIsPrefix(line);
  }

  // An edit of the section keeps the first characters of the body.
  lemma SameStart(body: string, text: string)
    requires SameOutside(body, text)
    ensures |body| >= 4 && |text| >= 4 && body[..4] == text[..4]
  {
    hide *;
    var h, e, e2 := SameOutsideParts(body, text);
    HeadingIsLong(SplitLines(body), h, e);
    BeforeIs(body, h);
    BeforeIs(text, h);
    BeforeIsPrefix(body, h);
    BeforeIsPrefix(text, h);
    assert Before(body, h)[..4] == body[..4] && Before(text, h)[..4] == text[..4];
  }

  lemma SameOutsideParts(body: string, text: string) returns (h: nat, e: nat, e2: nat)
    requires SameOutside(body, text)
    ensures IsSection(SplitLines(body), h, e) && IsSection(SplitLines(text), h, e2)
    ensures h < |SplitLines(body)| && h < |SplitLines(text)| && Before(body, h) == Before(text, h)
  {
    hide Before, After, SplitLines, IsTasksHeading, IsH2Heading;
    h, e, e2 :|
      && IsSection(SplitLines(body), h, e) && IsSection(SplitLines(text), h, e2)
      && Before(body, h) == Before(text, h)
      && After(body, e) == After(text, e2);
  }

  lemma BeforeIsPrefix(body: string, h: nat)
    ensures Before(body, h) <= body
  {
    hide SplitLines, Offset;
  }

  lemma HeadingIsLong(lines: seq<string>, h: nat, e: nat)
    requires IsSection(lines, h, e) && h < |lines|
    ensures |lines[h]| >= 4
  {
    hide IsH2Heading;
    StripRightLength(lines[h]);
  }

  lemma BodyOfEdited(text: string, newBody: string)
    requires Closed(text) && SameOutside(Body(text), newBody)
    ensures var t := text[..BodyOffset(text)] + newBody;
      Closed(t) && BodyOffset(t) == BodyOffset(text) && Body(t) == newBody
  {
    hide SameOutside, FindFence;
    var t := text[..BodyOffset(text)] + newBody;
    SameStartOfBody(text, newBody);
    if BodyOffset(text) > 0 {
      OffsetOfClosed(text, newBody);
    } else {
      assert t == newBody;
    }
  }

  lemma SameStartOfBody(text: string, newBody: string)
    requires SameOutside(Body(text), newBody)
    ensures BodyOffset(text) == 0 && !("---\n" <= text) ==> !("---\n" <= newBody)
  {
    SameStart(Body(text), newBody);
    hide SameOutside, BodyOffset;
    if BodyOffset(text) == 0 && !("---\n" <= text) {
      assert Body(text) == text;
      assert newBody[..4] == text[..4];
    }
  }

  // ----- the links of an edited note -----

  function LinkOp(links: set<Slug>, op: Operation, slug: Slug): set<Slug> {
    if op == Ensure then links + {slug} else links - {slug}
  }

  ghost function SlugsOf(text: string): set<Slug> {
    set slug | slug in SectionLinks(Body(text))
  }

  // The edit leaves the body where it was.
  ghost predicate Steady(op: Operation, slug: Slug, text: string) {
    Transform(op, slug, text).NewText? ==> BodyOffset(Transform(op, slug, text).text) == BodyOffset(text)
  }

  // A closed frontmatter stays where it is and closed.
  lemma ClosedStays(op: Operation, slug: Slug, text: string)
    requires Closed(text) && Transform(op, slug, text).NewText?
    ensures Steady(op, slug, text) && Closed(Transform(op, slug, text).text)
  {
    hide *;
    EditableBody(op, slug, text);
    AddMeaning(Body(text), slug);
    RemoveMeaning(Body(text), slug);
    var r := if op == Ensure then AddSpec(Body(text), slug) else RemoveSpec(Body(text), slug);
    BodyOfEdited(text, r.text);
    SteadyIs(op, slug, text);
  }

  lemma SteadyIs(op: Operation, slug: Slug, text: string)
    requires Transform(op, slug, text).NewText?
    ensures Steady(op, slug, text) <==> BodyOffset(Transform(op, slug, text).text) == BodyOffset(text)
  {
    hide Transform, BodyOffset;
  }

  // The new note's body is the edited body.
  lemma BodyOfSteady(op: Operation, slug: Slug, text: string)
    requires Steady(op, slug, text) && Transform(op, slug, text).NewText?
    ensures AddSpec(Body(text), slug).Edited? && RemoveSpec(Body(text), slug).Edited?
    ensures Body(Transform(op, slug, text).text) == (if op == Ensure then AddSpec(Body(text), slug) else RemoveSpec(Body(text), slug)).text
  {
    EditableBody(op, slug, text);
    hide Transform, BodyOffset, AddSpec, RemoveSpec;
  }

  // A steady edit adds or removes exactly the slug, and leaves one section.
  lemma EditedLinks(op: Operation, slug: Slug, text: string)
    requires Steady(op, slug, text) && Transform(op, slug, text).NewText?
    ensures var t := Transform(op, slug, text).text;
      SlugsOf(t) == LinkOp(SlugsOf(text), op, slug) && OneSection(SplitLines(Body(t)))
  {
    hide *;
    var body := Body(text);
    EditableBody(op, slug, text);
    AddMeaning(body, slug);
    RemoveMeaning(body, slug);
    BodyOfSteady(op, slug, text);
    SlugsIs(text);
    if op == Ensure {
      AddedSlugs(SectionLinks(body), SectionLinks(AddSpec(body, slug).text), slug);
      SectionOutside(body, AddSpec(body, slug).text);
    } else {
      RemovedSlugs(SectionLinks(body), SectionLinks(RemoveSpec(body, slug).text), slug);
      SectionOutside(body, RemoveSpec(body, slug).text);
    }
    SlugsIs(Transform(op, slug, text).text);
    LinkOpIs(SlugsOf(text), op, slug);
  }

  lemma SectionOutside(body: string, text: string)
    requires SameOutside(body, text)
    ensures OneSection(SplitLines(text))
  {
    hide *;
    var h, e, e2 := SameOutsideParts(body, text);
    OneSectionIs(SplitLines(text), h, e2);
  }

  lemma OneSectionIs(lines: seq<string>, h: nat, e: nat)
    requires IsSection(lines, h, e)
    ensures OneSection(lines)
  {
  }

  lemma SlugsIs(text: string)
    ensures SlugsOf(text) == set s | s in SectionLinks(Body(text))
  {
    hide SectionLinks, Body;
  }

  lemma LinkOpIs(links: set<Slug>, op: Operation, slug: Slug)
    ensures LinkOp(links, op, slug) == if op == Ensure then links + {slug} else links - {slug}
  {
  }

  lemma AddedSlugs(was: seq<string>, now: seq<string>, slug: string)
    requires Except(now, slug) == Except(was, slug) && multiset(now)[slug] == 1
    ensures (set s | s in now) == (set s | s in was) + {slug}
  {
    hide Except;
    ExceptRemoves(was, slug);
    ExceptRemoves(now, slug);
    assert slug in multiset(now);
    forall s ensures s in now <==> s in was || s == slug {
      if s != slug { assert s in now <==> s in Except(now, slug); }
    }
  }

  lemma RemovedSlugs(was: seq<string>, now: seq<string>, slug: string)
    requires now == Except(was, slug)
    ensures (set s | s in now) == (set s | s in was) - {slug}
  {
    hide Except;
    ExceptRemoves(was, slug);
  }
}
