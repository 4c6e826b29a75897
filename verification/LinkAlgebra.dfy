// What adding and removing a task link means for the links of a note: the algebra of the two edits.
module LinkAlgebra {
  import opened Text
  import opened TaskLines
  import opened TasksSection

  // ----- the links of a section -----

  // Targets of the section's link bullets, in order and with repetitions.
  function Targets(seg: seq<string>): seq<string> {
    if seg == [] then []
    else
      var b := ParseBullet(seg[0]);
      (if b.Some? then [BeforeBar(b.value.inner)] else []) + Targets(seg[1..])
  }

  function Except(targets: seq<string>, slug: string): seq<string> {
    if targets == [] then []
    else (if targets[0] == slug then [] else [targets[0]]) + Except(targets[1..], slug)
  }

  lemma {:induction false} TargetsConcat(a: seq<string>, b: seq<string>)
    ensures Targets(a + b) == Targets(a) + Targets(b)
  {
    hide ParseBullet;
    if a == [] {
      assert a + b == b;
    } else {
      assert (a + b)[1..] == a[1..] + b;
      TargetsConcat(a[1..], b);
    }
  }

  lemma {:induction false} ExceptConcat(a: seq<string>, b: seq<string>, slug: string)
    ensures Except(a + b, slug) == Except(a, slug) + Except(b, slug)
  {
    if a == [] {
      assert a + b == b;
    } else {
      assert (a + b)[1..] == a[1..] + b;
      ExceptConcat(a[1..], b, slug);
    }
  }

  lemma {:induction false} ExceptNone(targets: seq<string>, slug: string)
    requires slug !in targets
    ensures Except(targets, slug) == targets
  {
    if targets != [] {
      ExceptNone(targets[1..], slug);
    }
  }

  lemma {:induction false} ExceptRemoves(targets: seq<string>, slug: string)
    ensures forall t :: t in Except(targets, slug) <==> t in targets && t != slug
  {
    if targets != [] {
      ExceptRemoves(targets[1..], slug);
    }
  }

  lemma ExceptSelf(slug: string)
    ensures Except([slug], slug) == []
  {
    assert [slug][1..] == [];
  }

  // Dropping the lines that link to slug drops exactly its targets.
  lemma {:induction false} TargetsWithoutSlug(seg: seq<string>, slug: string)
    ensures Targets(WithoutSlug(seg, slug)) == Except(Targets(seg), slug)
  {
    hide ParseBullet;
    if seg != [] {
      TargetsWithoutSlug(seg[1..], slug);
      var rest := WithoutSlug(seg[1..], slug);
      TargetsConcat([seg[0]], rest);
      TargetsConcat([], rest);
      OneTarget(seg[0]);
      assert WithoutSlug(seg, slug) == (if LinksTo(seg[0], slug) then [] else [seg[0]]) + rest;
      assert [] + rest == rest;
      ExceptConcat(TargetOf(seg[0]), Targets(seg[1..]), slug);
    }
  }

  function TargetOf(line: string): seq<string> {
    var b := ParseBullet(line);
    if b.Some? then [BeforeBar(b.value.inner)] else []
  }

  lemma OneTarget(line: string)
    ensures Targets([line]) == TargetOf(line)
  {
    hide ParseBullet, BeforeBar;
    assert [line][1..] == [];
  }

  lemma TargetOfLine(line: string, slug: string)
    ensures LinksTo(line, slug) <==> TargetOf(line) == [slug]
    ensures !LinksTo(line, slug) ==> slug !in TargetOf(line)
  {
    hide ParseBullet, BeforeBar;
  }

  // ----- section lines -----

  predicate SectionLine(line: string) {
    SingleLine(line) && !IsH2Heading(line)
  }

  ghost predicate SectionBody(seg: seq<string>) {
    forall line | line in seg :: SectionLine(line)
  }

  lemma {:induction false} WithoutSlugSubset(seg: seq<string>, slug: string)
    ensures forall line :: line in WithoutSlug(seg, slug) <==> line in seg && !LinksTo(line, slug)
  {
    hide LinksTo;
    if seg != [] {
      WithoutSlugSubset(seg[1..], slug);
    }
  }

  lemma EmptyLine()
    ensures SectionLine("") && TargetOf("") == []
  {
  }

  lemma CanonicalLine(slug: string, indent: string)
    requires ValidSlug(slug) && AllBlank(indent)
    ensures SectionLine(LinkLine(slug, indent)) && TargetOf(LinkLine(slug, indent)) == [slug]
    ensures Normalised(LinkLine(slug, indent), slug) == LinkLine(slug, indent)
  {
    hide LinkLine, ParseBullet, BeforeBar, IsH2Heading, SingleLine;
    LinkLineLinks(slug, indent);
    SlugIsPlain(slug);
    BeforeBarOfPlain(slug);
  }

  lemma NormalisedIndent(line: string, slug: string) returns (indent: string)
    requires LinksTo(line, slug)
    ensures AllBlank(indent) && Normalised(line, slug) == LinkLine(slug, indent)
  {
    var b, marker, gap, link, trail := ParseBulletSound(line);
    indent := b.indent;
  }

  lemma AllBlankEmpty()
    ensures AllBlank("")
  {
  }

  // ----- removing -----

  lemma FilteredLinks(seg: seq<string>, atEnd: bool, slug: string)
    requires SectionBody(seg)
    ensures SectionBody(Filtered(seg, atEnd, slug))
    ensures Targets(Filtered(seg, atEnd, slug)) == Except(Targets(seg), slug)
    ensures forall line | line in Filtered(seg, atEnd, slug) :: !LinksTo(line, slug)
  {
    hide LinksTo, WithoutSlug, Targets, Except, DropsLastTwo, SectionLine, TargetOf;
    TargetsWithoutSlug(seg, slug);
    WithoutSlugSubset(seg, slug);
    EmptyLine();
    EmptyIsNoLink(slug);
    OneTarget("");
    var kept := WithoutSlug(seg, slug);
    TargetsConcat(kept, [""]);
    assert kept + [] == kept;
  }

  // ----- adding -----

  lemma {:induction false} FirstLinkAt(pre: seq<string>, x: string, post: seq<string>, slug: string)
    requires LinksTo(x, slug) && forall line | line in pre :: !LinksTo(line, slug)
    ensures FirstLink(pre + [x] + post, slug) == |pre|
  {
    hide LinksTo;
    if pre != [] {
      assert (pre + [x] + post)[1..] == pre[1..] + [x] + post;
      FirstLinkAt(pre[1..], x, post, slug);
    }
  }

  // Lines among which exactly one, canonical, links to slug.
  ghost predicate OneLink(seg: seq<string>, pre: seq<string>, x: string, post: seq<string>, slug: string) {
    && seg == pre + [x] + post
    && (exists indent | AllBlank(indent) :: x == LinkLine(slug, indent))
    && (forall line | line in pre :: !LinksTo(line, slug))
    && (forall line | line in post :: !LinksTo(line, slug))
  }

  lemma {:induction false} TargetsAvoid(seg: seq<string>, slug: string)
    requires forall line | line in seg :: !LinksTo(line, slug)
    ensures slug !in Targets(seg)
  {
    hide LinksTo, TargetOf;
    if seg != [] {
      TargetsAvoid(seg[1..], slug);
      TargetsConcat([seg[0]], seg[1..]);
      OneTarget(seg[0]);
      TargetOfLine(seg[0], slug);
      assert [seg[0]] + seg[1..] == seg;
    }
  }

  // The shape an add produces, and the lines it leaves around the one link.
  lemma AddedShape(seg: seq<string>, atEnd: bool, slug: string) returns (pre: seq<string>, x: string, post: seq<string>)
    requires ValidSlug(slug) && SectionBody(seg)
    ensures OneLink(AddedTo(seg, atEnd, slug), pre, x, post, slug)
    ensures SectionBody(AddedTo(seg, atEnd, slug))
    ensures Except(Targets(pre) + Targets(post), slug) == Except(Targets(seg), slug)
  {
    var k := FirstLink(seg, slug);
    if k < |seg| {
      pre, x, post := AddedShapeInPlace(seg, atEnd, slug, k);
    } else {
      pre, x, post := AddedShapeAppended(seg, atEnd, slug);
    }
  }

  lemma AddedShapeInPlace(seg: seq<string>, atEnd: bool, slug: string, k: nat) returns (pre: seq<string>, x: string, post: seq<string>)
    requires ValidSlug(slug) && SectionBody(seg) && k == FirstLink(seg, slug) && k < |seg|
    ensures OneLink(AddedTo(seg, atEnd, slug), pre, x, post, slug)
    ensures SectionBody(AddedTo(seg, atEnd, slug))
    ensures Except(Targets(pre) + Targets(post), slug) == Except(Targets(seg), slug)
  {
    hide *;
    AddedToFirst(seg, atEnd, slug, k);
    FirstLinkIsFirst(seg, slug);
    pre, x, post := seg[..k], Normalised(seg[k], slug), Filtered(seg[k + 1..], atEnd, slug);
    var indent := NormalisedIndent(seg[k], slug);
    CanonicalLine(slug, indent);
    SectionParts(seg, k);
    FilteredLinks(seg[k + 1..], atEnd, slug);
    OneLinkIs(pre, x, post, slug, indent);
    SectionJoin(pre, x, post);
    TargetsParts(seg, k, slug);
    ExceptConcat(Targets(pre), Targets(post), slug);
    ExceptTwice(Targets(seg[k + 1..]), slug);
  }

  lemma SectionParts(seg: seq<string>, k: nat)
    requires k < |seg| && SectionBody(seg)
    ensures SectionBody(seg[..k]) && SectionBody(seg[k + 1..])
  {
    hide SectionLine;
  }

  lemma SectionJoin(pre: seq<string>, x: string, post: seq<string>)
    requires SectionBody(pre) && SectionLine(x) && SectionBody(post)
    ensures SectionBody(pre + [x] + post)
  {
    hide SectionLine;
  }

  lemma OneLinkIs(pre: seq<string>, x: string, post: seq<string>, slug: string, indent: string)
    requires AllBlank(indent) && x == LinkLine(slug, indent)
    requires forall i | 0 <= i < |pre| :: !LinksTo(pre[i], slug)
    requires forall line | line in post :: !LinksTo(line, slug)
    ensures OneLink(pre + [x] + post, pre, x, post, slug)
  {
    hide LinksTo, LinkLine, AllBlank;
  }

  lemma ExceptTwice(targets: seq<string>, slug: string)
    ensures Except(Except(targets, slug), slug) == Except(targets, slug)
  {
    ExceptRemoves(targets, slug);
    ExceptNone(Except(targets, slug), slug);
  }

  // Targets of a run of lines around one that links to slug.
  lemma TargetsParts(seg: seq<string>, k: nat, slug: string)
    requires k < |seg| && LinksTo(seg[k], slug)
    ensures Except(Targets(seg), slug) == Except(Targets(seg[..k]), slug) + Except(Targets(seg[k + 1..]), slug)
  {
    hide Targets, Except, LinksTo, TargetOf;
    assert seg == seg[..k] + ([seg[k]] + seg[k + 1..]);
    TargetsConcat(seg[..k], [seg[k]] + seg[k + 1..]);
    TargetsConcat([seg[k]], seg[k + 1..]);
    OneTarget(seg[k]);
    TargetOfLine(seg[k], slug);
    ExceptConcat(Targets(seg[..k]), [slug] + Targets(seg[k + 1..]), slug);
    ExceptConcat([slug], Targets(seg[k + 1..]), slug);
    ExceptSelf(slug);
  }

  lemma AddedShapeAppended(seg: seq<string>, atEnd: bool, slug: string) returns (pre: seq<string>, x: string, post: seq<string>)
    requires ValidSlug(slug) && SectionBody(seg) && FirstLink(seg, slug) == |seg|
    ensures OneLink(AddedTo(seg, atEnd, slug), pre, x, post, slug)
    ensures SectionBody(AddedTo(seg, atEnd, slug))
    ensures Except(Targets(pre) + Targets(post), slug) == Except(Targets(seg), slug)
  {
    pre, x, post := AppendedParts(seg, atEnd, slug);
    hide *;
    FirstLinkIsFirst(seg, slug);
    AllBlankEmpty();
    CanonicalLine(slug, "");
    EmptyIsNoLink(slug);
    EmptyLine();
    TargetsPadded(seg, pre, post);
    assert forall i | 0 <= i < |pre| :: pre[i] == seg[i];
    OneLinkIs(pre, x, post, slug, "");
    SectionPadded(seg, pre, post);
    SectionJoin(pre, x, post);
  }

  lemma AppendedParts(seg: seq<string>, atEnd: bool, slug: string) returns (pre: seq<string>, x: string, post: seq<string>)
    requires FirstLink(seg, slug) == |seg|
    ensures AddedTo(seg, atEnd, slug) == pre + [x] + post && x == LinkLine(slug, "")
    ensures pre <= seg && (post == [] || post == [""]) && (seg == pre || seg == pre + [""])
  {
    hide FirstLink, LinkLine;
    x := LinkLine(slug, "");
    if !atEnd { pre, post := seg, []; }
    else if seg != [] && seg[|seg| - 1] == "" { pre, post := seg[..|seg| - 1], [""]; }
    else { pre, post := seg, [""]; }
  }

  lemma TargetsPadded(seg: seq<string>, pre: seq<string>, post: seq<string>)
    requires (post == [] || post == [""]) && (seg == pre || seg == pre + [""])
    ensures Targets(pre) + Targets(post) == Targets(seg)
  {
    EmptyLine();
    OneTarget("");
    hide TargetOf;
    TargetsConcat(pre, [""]);
    assert Targets([]) == [];
  }

  lemma SectionPadded(seg: seq<string>, pre: seq<string>, post: seq<string>)
    requires SectionBody(seg) && pre <= seg && (post == [] || post == [""])
    ensures SectionBody(pre) && SectionBody(post)
  {
    EmptyLine();
    hide SectionLine;
    assert forall line | line in pre :: line in seg;
  }

  // After an add the section links to slug exactly once and to every other target as before.
  lemma AddedLinks(seg: seq<string>, atEnd: bool, slug: string)
    requires ValidSlug(slug) && SectionBody(seg)
    ensures Except(Targets(AddedTo(seg, atEnd, slug)), slug) == Except(Targets(seg), slug)
    ensures multiset(Targets(AddedTo(seg, atEnd, slug)))[slug] == 1
    ensures SectionBody(AddedTo(seg, atEnd, slug))
  {
    hide *;
    var pre, x, post := AddedShape(seg, atEnd, slug);
    OneLinkTargets(AddedTo(seg, atEnd, slug), pre, x, post, slug);
  }

  lemma OneLinkTargets(seg: seq<string>, pre: seq<string>, x: string, post: seq<string>, slug: string)
    requires ValidSlug(slug) && OneLink(seg, pre, x, post, slug)
    ensures Except(Targets(seg), slug) == Except(Targets(pre) + Targets(post), slug)
    ensures multiset(Targets(seg))[slug] == 1
  {
    hide LinksTo, LinkLine, AllBlank, Targets, Except, SectionLine, Normalised, TargetOf;
    var indent :| AllBlank(indent) && x == LinkLine(slug, indent);
    CanonicalLine(slug, indent);
    TargetsAvoid(pre, slug);
    TargetsAvoid(post, slug);
    OneLinkSplit(seg, pre, x, post, slug);
    CountOne(pre, x, post, slug);
  }

  lemma CountOne(pre: seq<string>, x: string, post: seq<string>, slug: string)
    requires TargetOf(x) == [slug] && slug !in Targets(pre) && slug !in Targets(post)
    ensures Except(Targets(pre + ([x] + post)), slug) == Except(Targets(pre) + Targets(post), slug)
    ensures multiset(Targets(pre + ([x] + post)))[slug] == 1
  {
    hide *;
    TargetsConcat(pre, [x] + post);
    TargetsConcat([x], post);
    OneTarget(x);
    ExceptConcat(Targets(pre), [slug] + Targets(post), slug);
    ExceptConcat([slug], Targets(post), slug);
    ExceptConcat(Targets(pre), Targets(post), slug);
    ExceptSelf(slug);
    assert Targets(pre + ([x] + post)) == Targets(pre) + [slug] + Targets(post);
  }

  lemma OneLinkSplit(seg: seq<string>, pre: seq<string>, x: string, post: seq<string>, slug: string)
    requires OneLink(seg, pre, x, post, slug)
    ensures seg == pre + ([x] + post)
  {
    hide LinksTo, LinkLine, AllBlank;
  }

  // Adding again changes nothing.
  lemma AddedTwice(seg: seq<string>, atEnd: bool, slug: string)
    requires ValidSlug(slug) && SectionBody(seg)
    ensures AddedTo(AddedTo(seg, atEnd, slug), atEnd, slug) == AddedTo(seg, atEnd, slug)
  {
    hide *;
    var pre, x, post := AddedShape(seg, atEnd, slug);
    OneLinkFixed(AddedTo(seg, atEnd, slug), pre, x, post, atEnd, slug);
  }

  lemma OneLinkFixed(seg: seq<string>, pre: seq<string>, x: string, post: seq<string>, atEnd: bool, slug: string)
    requires ValidSlug(slug) && OneLink(seg, pre, x, post, slug)
    ensures AddedTo(seg, atEnd, slug) == seg
  {
    hide LinksTo, LinkLine, AllBlank, Normalised, Filtered, FirstLink, TargetOf, SectionLine, WithoutSlug, AddedTo;
    var indent :| AllBlank(indent) && x == LinkLine(slug, indent);
    CanonicalLine(slug, indent);
    TargetOfLine(x, slug);
    FirstLinkAt(pre, x, post, slug);
    FilteredSame(post, atEnd, slug);
    PiecesOf(pre, [x], post);
    AddedToFirst(seg, atEnd, slug, |pre|);
  }

  // Removing what an add appended gives the section back, plus an empty last line when the section
  // ran to an unterminated end of body.
  lemma RemoveAfterAdd(seg: seq<string>, atEnd: bool, slug: string)
    requires ValidSlug(slug) && SectionBody(seg) && FirstLink(seg, slug) == |seg|
    ensures Filtered(AddedTo(seg, atEnd, slug), atEnd, slug)
         == if atEnd && (seg == [] || seg[|seg| - 1] != "") then seg + [""] else seg
  {
    hide *;
    FirstLinkIsFirst(seg, slug);
    AllBlankEmpty();
    CanonicalLine(slug, "");
    TargetOfLine(LinkLine(slug, ""), slug);
    EmptyIsNoLink(slug);
    var link := LinkLine(slug, "");
    AddedToAppended(seg, atEnd, slug);
    if !atEnd {
      FilteredOne(seg, [], link, atEnd, slug);
      assert seg + [link] + [] == seg + [link] && seg + [] == seg;
    } else if seg != [] && seg[|seg| - 1] == "" {
      var init := seg[..|seg| - 1];
      assert init + [link] + [""] == init + [link, ""] && init + [""] == seg;
      FilteredOne(init, [""], link, atEnd, slug);
    } else {
      assert seg + [link] + [""] == seg + [link, ""];
      FilteredOne(seg, [""], link, atEnd, slug);
    }
  }

  lemma AddedToAppended(seg: seq<string>, atEnd: bool, slug: string)
    requires FirstLink(seg, slug) == |seg|
    ensures AddedTo(seg, atEnd, slug) ==
      if !atEnd then seg + [LinkLine(slug, "")]
      else if seg != [] && seg[|seg| - 1] == "" then seg[..|seg| - 1] + [LinkLine(slug, ""), ""]
      else seg + [LinkLine(slug, ""), ""]
  {
    hide FirstLink, LinkLine;
  }

  lemma FilteredOne(pre: seq<string>, post: seq<string>, x: string, atEnd: bool, slug: string)
    requires LinksTo(x, slug) && (post == [] ==> !atEnd) && (post == [] || post == [""])
    requires forall i | 0 <= i < |pre| :: !LinksTo(pre[i], slug)
    ensures Filtered(pre + [x] + post, atEnd, slug) == pre + post
  {
    EmptyIsNoLink(slug);
    hide LinksTo, WithoutSlug;
    WithoutSlugConcat(pre + [x], post, slug);
    WithoutSlugSnoc(pre, x, slug);
    WithoutSlugNone(pre, slug);
    WithoutSlugNone(post, slug);
    assert pre + [] == pre;
    assert pre + post + [] == pre + post;
  }

  // ----- whole notes -----

  // The link targets of a note's one `## Tasks` section (none when there is not exactly one).
  ghost function SectionLinks(body: string): seq<string> {
    var lines := SplitLines(body);
    if !OneSection(lines) then []
    else
      var h: nat, e: nat :| IsSection(lines, h, e);
      Targets(lines[h + 1..e])
  }

  ghost function Before(body: string, h: nat): string {
    var lines := SplitLines(body);
    if h < |lines| && Offset(lines, h) + |lines[h]| <= |body| then body[..Offset(lines, h) + |lines[h]|] else body
  }

  ghost function After(body: string, e: nat): string {
    var lines := SplitLines(body);
    if e <= |lines| && 0 <= EndOffset(lines, e) <= |body| then body[EndOffset(lines, e)..] else body
  }

  // Both texts have one section, and agree byte for byte up to the end of its heading line and from
  // the next level-2 heading on.
  ghost predicate SameOutside(body: string, text: string) {
    exists h: nat, e: nat, e2: nat ::
      && IsSection(SplitLines(body), h, e) && IsSection(SplitLines(text), h, e2)
      && Before(body, h) == Before(text, h)
      && After(body, e) == After(text, e2)
  }

  lemma SectionLinksAre(body: string, h: nat, e: nat)
    requires IsSection(SplitLines(body), h, e)
    ensures h < e <= |SplitLines(body)| && SectionLinks(body) == Targets(SplitLines(body)[h + 1..e])
  {
    var lines := SplitLines(body);
    hide SplitLines, Targets, IsTasksHeading, IsH2Heading;
    forall h2: nat, e2: nat | IsSection(lines, h2, e2) ensures h2 == h && e2 == e {
      SectionUnique(lines, h, e, h2, e2);
    }
  }

  lemma SectionIsBody(lines: seq<string>, h: nat, e: nat)
    requires IsSection(lines, h, e) && SingleLines(lines)
    ensures h < e <= |lines| && SectionBody(lines[h + 1..e])
  {
    hide IsTasksHeading, IsH2Heading, SingleLine;
    forall line | line in lines[h + 1..e] ensures SectionLine(line) {
      var i :| 0 <= i < |lines[h + 1..e]| && lines[h + 1..e][i] == line;
      assert lines[h + 1 + i] == line && line in lines;
    }
  }

  // Replacing the section's lines by other section lines gives a note with the same heading, the new
  // lines as its section, and the same text around it.
  lemma Resection(lines: seq<string>, h: nat, e: nat, seg: seq<string>)
    requires IsSection(lines, h, e) && SectionBody(seg)
    ensures h < e <= |lines|
    ensures IsSection(lines[..h + 1] + seg + lines[e..], h, h + 1 + |seg|)
  {
    hide IsTasksHeading, IsH2Heading, SingleLine;
    var edited := lines[..h + 1] + seg + lines[e..];
    forall i | 0 <= i < |edited| && i != h ensures !IsTasksHeading(edited[i]) {
      if h < i < h + 1 + |seg| {
        assert edited[i] == seg[i - h - 1] && edited[i] in seg;
        if IsTasksHeading(edited[i]) { TasksHeadingIsH2(edited[i]); }
      } else if h < i {
        assert edited[i] == lines[i - |seg| - h - 1 + e];
      }
    }
    forall i | h < i < h + 1 + |seg| ensures !IsH2Heading(edited[i]) {
      assert edited[i] == seg[i - h - 1] && edited[i] in seg;
    }
  }

  lemma ResectionLines(lines: seq<string>, h: nat, e: nat, seg: seq<string>)
    requires h < e <= |lines| && SingleLines(lines) && SectionBody(seg)
    ensures SingleLines(lines[..h + 1] + seg + lines[e..])
  {
    hide SingleLine, IsH2Heading;
  }

  lemma ResectionText(body: string, h: nat, e: nat, seg: seq<string>)
    requires IsSection(SplitLines(body), h, e) && SectionBody(seg)
    ensures h < e <= |SplitLines(body)|
    ensures var edited := SplitLines(body)[..h + 1] + seg + SplitLines(body)[e..];
      SplitLines(JoinLines(edited)) == edited && SectionLinks(JoinLines(edited)) == Targets(seg)
      && IsSection(edited, h, h + 1 + |seg|) && SameOutside(body, JoinLines(edited))
  {
    hide *;
    var lines := SplitLines(body);
    Resection(lines, h, e, seg);
    SplitIsSingleLines(body);
    ResectionLines(lines, h, e, seg);
    var edited := lines[..h + 1] + seg + lines[e..];
    SplitJoin(edited);
    SectionLinksAre(JoinLines(edited), h, h + 1 + |seg|);
    assert edited[h + 1..h + 1 + |seg|] == seg;
    JoinSplit(body);
    BeforeIs(body, h);
    BeforeIs(JoinLines(edited), h);
    assert edited[..h] == lines[..h] && edited[h] == lines[h];
    AfterIs(body, e);
    AfterIs(JoinLines(edited), h + 1 + |seg|);
    assert edited[h + 1 + |seg|..] == lines[e..];
    SameOutsideIs(body, JoinLines(edited), h, e, h + 1 + |seg|);
  }

  lemma SameOutsideIs(body: string, text: string, h: nat, e: nat, e2: nat)
    requires IsSection(SplitLines(body), h, e) && IsSection(SplitLines(text), h, e2)
    requires Before(body, h) == Before(text, h) && After(body, e) == After(text, e2)
    ensures SameOutside(body, text)
  {
    hide IsSection, SplitLines, Before, After;
  }

  lemma BeforeIs(body: string, h: nat)
    requires h < |SplitLines(body)|
    ensures Before(body, h) == Terminated(SplitLines(body)[..h]) + SplitLines(body)[h]
  {
    hide SplitLines, Terminated, Offset, JoinLines;
    JoinSplit(body);
    LineAt(SplitLines(body), h);
  }

  lemma AfterIs(body: string, e: nat)
    requires 0 < e <= |SplitLines(body)|
    ensures After(body, e) == if e < |SplitLines(body)| then JoinLines(SplitLines(body)[e..]) else ""
  {
    hide SplitLines, Terminated, Offset, JoinLines;
    var lines := SplitLines(body);
    JoinSplit(body);
    if e < |lines| {
      JoinCut(lines, e);
    } else {
      LineAt(lines, e - 1);
      OffsetStep(lines, e - 1);
    }
  }

  // Removing a task link removes it and nothing else.
  lemma RemoveMeaning(body: string, slug: string)
    requires ValidSlug(slug) && OneSection(SplitLines(body))
    ensures RemoveSpec(body, slug).Edited?
    ensures SectionLinks(RemoveSpec(body, slug).text) == Except(SectionLinks(body), slug)
    ensures SameOutside(body, RemoveSpec(body, slug).text)
  {
    var h, e := TheSection(body);
    hide *;
    SpecsAre(body, slug, h, e);
    RemoveLinesUnfold(SplitLines(body), h, e, slug);
    SplitIsSingleLines(body);
    SectionIsBody(SplitLines(body), h, e);
    var seg, atEnd := SplitLines(body)[h + 1..e], e == |SplitLines(body)|;
    FilteredLinks(seg, atEnd, slug);
    ResectionText(body, h, e, Filtered(seg, atEnd, slug));
    SectionLinksAre(body, h, e);
  }

  lemma TheSection(body: string) returns (h: nat, e: nat)
    requires OneSection(SplitLines(body))
    ensures IsSection(SplitLines(body), h, e) && h < e <= |SplitLines(body)|
  {
    h, e :| IsSection(SplitLines(body), h, e);
  }

  lemma RemoveLinesUnfold(lines: seq<string>, h: nat, e: nat, slug: string)
    requires h < e <= |lines|
    ensures RemoveLines(lines, h, e, slug) == lines[..h + 1] + Filtered(lines[h + 1..e], e == |lines|, slug) + lines[e..]
  {
    hide Filtered;
  }

  // An edit reports a change exactly when the text is another one.
  lemma ChangedExact(body: string, slug: string)
    requires ValidSlug(slug) && OneSection(SplitLines(body))
    ensures RemoveSpec(body, slug).Edited? && (RemoveSpec(body, slug).changed <==> RemoveSpec(body, slug).text != body)
    ensures AddSpec(body, slug).Edited? && (AddSpec(body, slug).changed <==> AddSpec(body, slug).text != body)
  {
    var h, e := TheSection(body);
    hide *;
    var lines := SplitLines(body);
    SpecsAre(body, slug, h, e);
    FirstLinkLineIs(lines, h + 1, e, slug);
    if FirstLinkLine(lines, h + 1, e, slug) == e {
      RemoveNothing(body, h, e, slug);
    } else {
      RemoveMeaning(body, slug);
      SectionLinksAre(body, h, e);
      FirstLinkLineOffset(lines, h + 1, e, slug);
      if slug !in SectionLinks(body) { NoTargetNoLink(lines[h + 1..e], slug); }
      ExceptRemoves(SectionLinks(body), slug);
    }
  }

  // Adding a task link leaves exactly one link to it and every other link as it was.
  lemma AddMeaning(body: string, slug: string)
    requires ValidSlug(slug) && OneSection(SplitLines(body))
    ensures AddSpec(body, slug).Edited?
    ensures multiset(SectionLinks(AddSpec(body, slug).text))[slug] == 1
    ensures Except(SectionLinks(AddSpec(body, slug).text), slug) == Except(SectionLinks(body), slug)
    ensures SameOutside(body, AddSpec(body, slug).text)
  {
    var h, e := TheSection(body);
    hide *;
    SpecsAre(body, slug, h, e);
    AddLinesUnfold(SplitLines(body), h, e, slug);
    SplitIsSingleLines(body);
    SectionIsBody(SplitLines(body), h, e);
    var seg, atEnd := SplitLines(body)[h + 1..e], e == |SplitLines(body)|;
    AddedLinks(seg, atEnd, slug);
    ResectionText(body, h, e, AddedTo(seg, atEnd, slug));
    SectionLinksAre(body, h, e);
  }

  // Either edit, made twice, changes nothing the second time.
  lemma EditsIdempotent(body: string, slug: string)
    requires ValidSlug(slug) && OneSection(SplitLines(body))
    ensures AddSpec(body, slug).Edited? && RemoveSpec(body, slug).Edited?
    ensures var text := AddSpec(body, slug).text; AddSpec(text, slug) == Edited(text, false)
    ensures var text := RemoveSpec(body, slug).text; RemoveSpec(text, slug) == Edited(text, false)
  {
    var h, e := TheSection(body);
    hide *;
    SpecsAre(body, slug, h, e);
    SplitIsSingleLines(body);
    SectionIsBody(SplitLines(body), h, e);
    AddAgain(body, slug, h, e);
    RemoveAgain(body, slug, h, e);
  }

  // The note an add produces: its lines, and its section e2 lines from the start.
  lemma AfterAdd(body: string, slug: string, h: nat, e: nat) returns (edited: seq<string>, e2: nat)
    requires ValidSlug(slug) && IsSection(SplitLines(body), h, e) && h < e <= |SplitLines(body)|
    ensures SectionBody(SplitLines(body)[h + 1..e])
    ensures edited == AddLines(SplitLines(body), h, e, slug) && SplitLines(JoinLines(edited)) == edited
    ensures AddSpec(body, slug).Edited? && AddSpec(body, slug).text == JoinLines(edited)
    ensures IsSection(edited, h, e2) && h < e2 <= |edited| && (e2 == |edited| <==> e == |SplitLines(body)|)
    ensures edited[..h + 1] == SplitLines(body)[..h + 1] && edited[e2..] == SplitLines(body)[e..]
    ensures edited[h + 1..e2] == AddedTo(SplitLines(body)[h + 1..e], e == |SplitLines(body)|, slug)
    ensures SectionLinks(JoinLines(edited)) == Targets(edited[h + 1..e2])
    ensures multiset(Targets(edited[h + 1..e2]))[slug] == 1
  {
    hide *;
    var lines := SplitLines(body);
    var added := AddedTo(lines[h + 1..e], e == |lines|, slug);
    SpecsAre(body, slug, h, e);
    SplitIsSingleLines(body);
    SectionIsBody(lines, h, e);
    AddLinesUnfold(lines, h, e, slug);
    AddedLinks(lines[h + 1..e], e == |lines|, slug);
    ResectionText(body, h, e, added);
    edited, e2 := lines[..h + 1] + added + lines[e..], h + 1 + |added|;
    PiecesOf(lines[..h + 1], added, lines[e..]);
  }

  lemma PiecesOf(a: seq<string>, b: seq<string>, c: seq<string>)
    ensures (a + b + c)[..|a|] == a && (a + b + c)[|a|..|a| + |b|] == b && (a + b + c)[|a| + |b|..] == c
  {
  }

  lemma AddAgain(body: string, slug: string, h: nat, e: nat)
    requires ValidSlug(slug) && IsSection(SplitLines(body), h, e) && h < e <= |SplitLines(body)|
    ensures AddSpec(body, slug).Edited?
    ensures AddSpec(AddSpec(body, slug).text, slug) == Edited(AddSpec(body, slug).text, false)
  {
    hide *;
    var edited, e2 := AfterAdd(body, slug, h, e);
    SpecsAre(JoinLines(edited), slug, h, e2);
    AddLinesUnfold(SplitLines(body), h, e, slug);
    AddLinesUnfold(edited, h, e2, slug);
    AddedTwice(SplitLines(body)[h + 1..e], e == |SplitLines(body)|, slug);
  }

  lemma RemoveAgain(body: string, slug: string, h: nat, e: nat)
    requires ValidSlug(slug) && IsSection(SplitLines(body), h, e) && h < e <= |SplitLines(body)|
    requires SectionBody(SplitLines(body)[h + 1..e])
    ensures var text := JoinLines(RemoveLines(SplitLines(body), h, e, slug)); RemoveSpec(text, slug) == Edited(text, false)
  {
    hide *;
    var lines := SplitLines(body);
    var seg := Filtered(lines[h + 1..e], e == |lines|, slug);
    RemoveLinesUnfold(lines, h, e, slug);
    FilteredLinks(lines[h + 1..e], e == |lines|, slug);
    ResectionText(body, h, e, seg);
    var edited := lines[..h + 1] + seg + lines[e..];
    assert edited[h + 1..h + 1 + |seg|] == seg;
    NoFirstLink(edited, h + 1, h + 1 + |seg|, slug);
    RemoveNothing(JoinLines(edited), h, h + 1 + |seg|, slug);
  }

  lemma NoFirstLink(lines: seq<string>, lo: nat, e: nat, slug: string)
    requires lo <= e <= |lines| && forall line | line in lines[lo..e] :: !LinksTo(line, slug)
    ensures FirstLinkLine(lines, lo, e, slug) == e
  {
    hide LinksTo, FirstLinkLine;
    FirstLinkLineIs(lines, lo, e, slug);
  }

  // A remove undoes an add that appended the link: the body comes back, with one more newline exactly
  // when the section ran to the end of a body that does not end in a newline.
  lemma RemoveUndoesAdd(body: string, slug: string) returns (h: nat, e: nat)
    requires ValidSlug(slug) && OneSection(SplitLines(body)) && slug !in SectionLinks(body)
    ensures IsSection(SplitLines(body), h, e) && AddSpec(body, slug).Edited?
    ensures RemoveSpec(AddSpec(body, slug).text, slug)
         == Edited(if e == |SplitLines(body)| && SplitLines(body)[e - 1] != "" then body + "\n" else body, true)
  {
    h, e := TheSection(body);
    hide *;
    var lines := SplitLines(body);
    var edited, e2 := AfterAdd(body, slug, h, e);
    SectionLinksAre(body, h, e);
    NoTargetNoLink(lines[h + 1..e], slug);
    SpecsAre(JoinLines(edited), slug, h, e2);
    AddedHasLink(edited, h, e2, slug);
    RemoveLinesUnfold(edited, h, e2, slug);
    RemoveAfterAdd(lines[h + 1..e], e == |lines|, slug);
    HeadingsNonEmpty(lines, h, e);
    JoinSplit(body);
    JoinExtraEmpty(lines);
    RegroupBack(lines, h, e);
  }

  lemma RegroupBack(lines: seq<string>, h: nat, e: nat)
    requires h < e <= |lines| && lines[h] != ""
    ensures lines[..h + 1] + lines[h + 1..e] + lines[e..] == lines
    ensures e == |lines| ==> lines[..h + 1] + (lines[h + 1..e] + [""]) + lines[e..] == lines + [""]
    ensures var seg := lines[h + 1..e]; (seg == [] || seg[|seg| - 1] != "") <==> lines[e - 1] != ""
  {
  }

  lemma JoinExtraEmpty(lines: seq<string>)
    requires lines != []
    ensures JoinLines(lines + [""]) == JoinLines(lines) + "\n"
  {
    hide JoinLines, Terminated;
    var n := |lines| - 1;
    assert lines == lines[..n] + [lines[n]];
    JoinIsTerminatedPlusLast(lines[..n], lines[n]);
    TerminatedSnoc(lines[..n], lines[n]);
    JoinIsTerminatedPlusLast(lines, "");
  }

  lemma {:induction false} NoTargetNoLink(seg: seq<string>, slug: string)
    requires slug !in Targets(seg)
    ensures FirstLink(seg, slug) == |seg|
  {
    hide LinksTo, TargetOf;
    if seg != [] {
      OneTarget(seg[0]);
      TargetOfLine(seg[0], slug);
      TargetsConcat([seg[0]], seg[1..]);
      assert [seg[0]] + seg[1..] == seg;
      NoTargetNoLink(seg[1..], slug);
    }
  }

  lemma AddedHasLink(edited: seq<string>, h: nat, e: nat, slug: string)
    requires h < e <= |edited| && multiset(Targets(edited[h + 1..e]))[slug] == 1
    ensures FirstLinkLine(edited, h + 1, e, slug) < e
  {
    hide LinksTo, Targets, FirstLink;
    FirstLinkIsFirst(edited[h + 1..e], slug);
    if FirstLink(edited[h + 1..e], slug) >= |edited[h + 1..e]| {
      TargetsAvoid(edited[h + 1..e], slug);
    }
  }
}
