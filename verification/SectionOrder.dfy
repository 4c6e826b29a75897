// What an edit of the `## Tasks` section leaves in place: the order of its links, and every other line.
module SectionOrder {
  import opened Text
  import opened TaskLines
  import opened TasksSection
  import opened LinkAlgebra

  // ----- the order of the links -----

  // The first link to the slug stays where it is, further ones go; a new link comes last.
  function AddedTargets(targets: seq<string>, slug: string): seq<string> {
    if targets == [] then [slug]
    else if targets[0] == slug then [slug] + Except(targets[1..], slug)
    else [targets[0]] + AddedTargets(targets[1..], slug)
  }

  lemma {:induction false} AddedTargetsAt(pre: seq<string>, post: seq<string>, slug: string)
    requires slug !in pre
    ensures AddedTargets(pre + [slug] + post, slug) == pre + [slug] + Except(post, slug)
    ensures AddedTargets(pre, slug) == pre + [slug]
  {
    hide Except;
    if pre == [] {
      assert pre + [slug] + post == [slug] + post;
      assert ([slug] + post)[1..] == post;
    } else {
      AddedTargetsAt(pre[1..], post, slug);
      assert (pre + [slug] + post)[1..] == pre[1..] + [slug] + post;
      assert pre == [pre[0]] + pre[1..];
    }
  }

  lemma TargetsAround(pre: seq<string>, x: string, post: seq<string>)
    ensures Targets(pre + [x] + post) == Targets(pre) + TargetOf(x) + Targets(post)
  {
    hide Targets, TargetOf;
    TargetsConcat(pre + [x], post);
    TargetsConcat(pre, [x]);
    OneTarget(x);
  }

  lemma AddedOrder(seg: seq<string>, atEnd: bool, slug: string)
    requires ValidSlug(slug) && SectionBody(seg)
    ensures Targets(AddedTo(seg, atEnd, slug)) == AddedTargets(Targets(seg), slug)
  {
    var k := FirstLink(seg, slug);
    FirstLinkIsFirst(seg, slug);
    AllBlankEmpty();
    hide *;
    if k < |seg| {
      AddedToFirst(seg, atEnd, slug, k);
      var indent := NormalisedIndent(seg[k], slug);
      CanonicalLine(slug, indent);
      SectionParts(seg, k);
      FilteredLinks(seg[k + 1..], atEnd, slug);
      assert seg == seg[..k] + [seg[k]] + seg[k + 1..];
      TargetsAround(seg[..k], seg[k], seg[k + 1..]);
      TargetsAround(seg[..k], LinkLine(slug, indent), Filtered(seg[k + 1..], atEnd, slug));
      TargetOfLine(seg[k], slug);
      forall line | line in seg[..k] ensures !LinksTo(line, slug) {}
      TargetsAvoid(seg[..k], slug);
      AddedTargetsAt(Targets(seg[..k]), Targets(seg[k + 1..]), slug);
    } else {
      var pre, x, post := AppendedParts(seg, atEnd, slug);
      TargetsPadded(seg, pre, post);
      CanonicalLine(slug, "");
      TargetsAround(pre, x, post);
      forall line | line in seg ensures !LinksTo(line, slug) {}
      TargetsAvoid(seg, slug);
      PadHasNoTargets(post);
      AddedTargetsAt(Targets(seg), [], slug);
    }
  }

  lemma PadHasNoTargets(post: seq<string>)
    requires post == [] || post == [""]
    ensures Targets(post) == []
  {
    EmptyLine();
    OneTarget("");
  }

  // The first link's line becomes the bare bullet with the indentation it had.
  lemma AddedIndent(seg: seq<string>, atEnd: bool, slug: string)
    requires FirstLink(seg, slug) < |seg|
    ensures var k := FirstLink(seg, slug);
      && LinksTo(seg[k], slug) && k < |AddedTo(seg, atEnd, slug)|
      && AddedTo(seg, atEnd, slug)[k] == ParseBullet(seg[k]).value.indent + "- [[" + slug + "]]"
  {
    var k := FirstLink(seg, slug);
    FirstLinkIsFirst(seg, slug);
    assert ParseBullet(seg[k]).Some?;
    hide ParseBullet, FirstLink, Filtered;
    AddedToFirst(seg, atEnd, slug, k);
  }

  // ----- every other line -----

  // The lines that are neither empty nor bullets linking to the slug: text, and bullets of other slugs.
  function OtherLines(seg: seq<string>, slug: string): seq<string> {
    if seg == [] then []
    else (if seg[0] == "" || LinksTo(seg[0], slug) then [] else [seg[0]]) + OtherLines(seg[1..], slug)
  }

  lemma {:induction false} OtherLinesConcat(a: seq<string>, b: seq<string>, slug: string)
    ensures OtherLines(a + b, slug) == OtherLines(a, slug) + OtherLines(b, slug)
  {
    hide LinksTo;
    if a == [] {
      assert a + b == b;
    } else {
      assert (a + b)[1..] == a[1..] + b;
      OtherLinesConcat(a[1..], b, slug);
    }
  }

  lemma NoOtherLine(x: string, slug: string)
    requires x == "" || LinksTo(x, slug)
    ensures OtherLines([x], slug) == []
  {
    assert [x][1..] == [];
  }

  lemma {:induction false} OtherLinesWithout(seg: seq<string>, slug: string)
    ensures OtherLines(WithoutSlug(seg, slug), slug) == OtherLines(seg, slug)
  {
    hide LinksTo;
    if seg != [] {
      OtherLinesWithout(seg[1..], slug);
      if !LinksTo(seg[0], slug) {
        assert ([seg[0]] + WithoutSlug(seg[1..], slug))[1..] == WithoutSlug(seg[1..], slug);
      } else {
        assert [] + WithoutSlug(seg[1..], slug) == WithoutSlug(seg[1..], slug);
      }
    }
  }

  lemma FilteredKeeps(seg: seq<string>, atEnd: bool, slug: string)
    ensures OtherLines(Filtered(seg, atEnd, slug), slug) == OtherLines(seg, slug)
  {
    hide LinksTo, OtherLines, WithoutSlug, DropsLastTwo;
    OtherLinesWithout(seg, slug);
    NoOtherLine("", slug);
    OtherLinesConcat(WithoutSlug(seg, slug), [""], slug);
    assert WithoutSlug(seg, slug) + [] == WithoutSlug(seg, slug);
  }

  lemma OtherLinesAround(pre: seq<string>, x: string, post: seq<string>, slug: string)
    requires LinksTo(x, slug)
    ensures OtherLines(pre + [x] + post, slug) == OtherLines(pre, slug) + OtherLines(post, slug)
  {
    hide OtherLines;
    OtherLinesConcat(pre + [x], post, slug);
    OtherLinesConcat(pre, [x], slug);
    NoOtherLine(x, slug);
  }

  lemma AddedKeeps(seg: seq<string>, atEnd: bool, slug: string)
    requires ValidSlug(slug)
    ensures OtherLines(AddedTo(seg, atEnd, slug), slug) == OtherLines(seg, slug)
  {
    var k := FirstLink(seg, slug);
    FirstLinkIsFirst(seg, slug);
    AllBlankEmpty();
    hide *;
    if k < |seg| {
      AddedToFirst(seg, atEnd, slug, k);
      var indent := NormalisedIndent(seg[k], slug);
      CanonicalLine(slug, indent);
      TargetOfLine(LinkLine(slug, indent), slug);
      FilteredKeeps(seg[k + 1..], atEnd, slug);
      assert seg == seg[..k] + [seg[k]] + seg[k + 1..];
      OtherLinesAround(seg[..k], seg[k], seg[k + 1..], slug);
      OtherLinesAround(seg[..k], LinkLine(slug, indent), Filtered(seg[k + 1..], atEnd, slug), slug);
    } else {
      var pre, x, post := AppendedParts(seg, atEnd, slug);
      CanonicalLine(slug, "");
      TargetOfLine(x, slug);
      OtherLinesAround(pre, x, post, slug);
      PadKeeps(seg, pre, post, slug);
    }
  }

  lemma PadKeeps(seg: seq<string>, pre: seq<string>, post: seq<string>, slug: string)
    requires (post == [] || post == [""]) && (seg == pre || seg == pre + [""])
    ensures OtherLines(pre, slug) + OtherLines(post, slug) == OtherLines(seg, slug)
  {
    NoOtherLine("", slug);
    hide LinksTo;
    OtherLinesConcat(pre, [""], slug);
    assert OtherLines([], slug) == [];
  }

  // ----- whole notes -----

  // The lines of a note's one section.
  ghost function SectionLines(body: string): seq<string> {
    var lines := SplitLines(body);
    if !OneSection(lines) then []
    else
      var h: nat, e: nat :| IsSection(lines, h, e);
      lines[h + 1..e]
  }

  lemma SectionLinesAre(body: string, h: nat, e: nat)
    requires IsSection(SplitLines(body), h, e)
    ensures h < e <= |SplitLines(body)| && SectionLines(body) == SplitLines(body)[h + 1..e]
  {
    var lines := SplitLines(body);
    hide SplitLines, IsTasksHeading, IsH2Heading;
    forall h2: nat, e2: nat | IsSection(lines, h2, e2) ensures h2 == h && e2 == e {
      SectionUnique(lines, h, e, h2, e2);
    }
  }

  // An add links the slug where its first link was, or after all other links.
  lemma AddKeepsOrder(body: string, slug: string)
    requires ValidSlug(slug) && OneSection(SplitLines(body))
    ensures AddSpec(body, slug).Edited?
    ensures SectionLinks(AddSpec(body, slug).text) == AddedTargets(SectionLinks(body), slug)
  {
    var h, e := TheSection(body);
    hide *;
    SpecsAre(body, slug, h, e);
    AddLinesUnfold(SplitLines(body), h, e, slug);
    SplitIsSingleLines(body);
    SectionIsBody(SplitLines(body), h, e);
    var seg, atEnd := SplitLines(body)[h + 1..e], e == |SplitLines(body)|;
    AddedLinks(seg, atEnd, slug);
    AddedOrder(seg, atEnd, slug);
    ResectionText(body, h, e, AddedTo(seg, atEnd, slug));
    SectionLinksAre(body, h, e);
  }

  // Either edit keeps every other line of the section that is not empty, as it is and in order.
  lemma EditsKeepLines(body: string, slug: string)
    requires ValidSlug(slug) && OneSection(SplitLines(body))
    ensures AddSpec(body, slug).Edited? && RemoveSpec(body, slug).Edited?
    ensures OtherLines(SectionLines(AddSpec(body, slug).text), slug) == OtherLines(SectionLines(body), slug)
    ensures OtherLines(SectionLines(RemoveSpec(body, slug).text), slug) == OtherLines(SectionLines(body), slug)
  {
    var h, e := TheSection(body);
    hide *;
    var lines := SplitLines(body);
    SpecsAre(body, slug, h, e);
    AddLinesUnfold(lines, h, e, slug);
    RemoveLinesUnfold(lines, h, e, slug);
    SplitIsSingleLines(body);
    SectionIsBody(lines, h, e);
    SectionLinesAre(body, h, e);
    var seg, atEnd := lines[h + 1..e], e == |lines|;
    AddedLinks(seg, atEnd, slug);
    AddedKeeps(seg, atEnd, slug);
    FilteredLinks(seg, atEnd, slug);
    FilteredKeeps(seg, atEnd, slug);
    ResectionLinesAre(body, h, e, AddedTo(seg, atEnd, slug));
    ResectionLinesAre(body, h, e, Filtered(seg, atEnd, slug));
  }

  lemma ResectionLinesAre(body: string, h: nat, e: nat, seg: seq<string>)
    requires IsSection(SplitLines(body), h, e) && SectionBody(seg)
    ensures h < e <= |SplitLines(body)|
    ensures SectionLines(JoinLines(SplitLines(body)[..h + 1] + seg + SplitLines(body)[e..])) == seg
  {
    hide *;
    ResectionText(body, h, e, seg);
    var edited := SplitLines(body)[..h + 1] + seg + SplitLines(body)[e..];
    SectionLinesAre(JoinLines(edited), h, h + 1 + |seg|);
    assert edited[h + 1..h + 1 + |seg|] == seg;
  }
}
