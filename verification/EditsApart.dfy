// Edits of different pairs of note and slug do not interfere: whether one changes anything does not depend
// on the others.  So edits made in order leave the notes they found exactly when none of them changes one.
module EditsApart {
  import opened Text
  import opened TaskLines
  import opened TasksSection
  import opened LinkAlgebra
  import opened SectionOrder
  import opened Reconcile
  import opened Projection
  import opened NoteBodies
  import opened FrontmatterFence
  import opened NoteLinks

  // ----- one section -----

  // The lines that link to the slug.
  function Bullets(seg: seq<string>, slug: string): seq<string> {
    if seg == [] then [] else (if LinksTo(seg[0], slug) then [seg[0]] else []) + Bullets(seg[1..], slug)
  }

  lemma {:induction false} BulletsConcat(a: seq<string>, b: seq<string>, slug: string)
    ensures Bullets(a + b, slug) == Bullets(a, slug) + Bullets(b, slug)
  {
    hide LinksTo;
    if a == [] {
      assert a + b == b;
    } else {
      assert (a + b)[1..] == a[1..] + b;
      BulletsConcat(a[1..], b, slug);
    }
  }

  lemma {:induction false} NoBullets(seg: seq<string>, slug: string)
    ensures Bullets(seg, slug) == [] <==> forall line | line in seg :: !LinksTo(line, slug)
  {
    hide LinksTo;
    if seg != [] {
      NoBullets(seg[1..], slug);
      assert forall line :: line in seg <==> line == seg[0] || line in seg[1..];
    }
  }

  lemma BulletIsNotEmpty(line: string, slug: string, other: string)
    requires LinksTo(line, other) && slug != other
    ensures line != "" && !LinksTo(line, slug)
  {
    EmptyIsNoLink(other);
    hide ParseBullet, BeforeBar;
  }

  // What is kept apart from one slug's lines holds every other slug's bullets.
  lemma {:induction false} BulletsOfOthers(seg: seq<string>, slug: string, other: string)
    requires slug != other
    ensures Bullets(OtherLines(seg, slug), other) == Bullets(seg, other)
  {
    hide LinksTo;
    if seg != [] {
      BulletsOfOthers(seg[1..], slug, other);
      if LinksTo(seg[0], other) { BulletIsNotEmpty(seg[0], slug, other); }
      BulletsConcat(if seg[0] == "" || LinksTo(seg[0], slug) then [] else [seg[0]], OtherLines(seg[1..], slug), other);
      assert [seg[0]][1..] == [];
    }
  }

  // The slug has one bullet, and it is the one the program writes.
  ghost predicate OneBare(bullets: seq<string>, slug: string) {
    exists indent | AllBlank(indent) :: bullets == [LinkLine(slug, indent)]
  }

  lemma OneLinkBullets(seg: seq<string>, pre: seq<string>, x: string, post: seq<string>, slug: string)
    requires ValidSlug(slug) && OneLink(seg, pre, x, post, slug)
    ensures OneBare(Bullets(seg, slug), slug)
  {
    hide LinkLine, AllBlank, LinksTo, ValidSlug;
    var indent :| AllBlank(indent) && x == LinkLine(slug, indent);
    CanonicalLine(slug, indent);
    TargetOfLine(x, slug);
    BulletsConcat(pre + [x], post, slug);
    BulletsConcat(pre, [x], slug);
    NoBullets(pre, slug);
    NoBullets(post, slug);
    assert [x][1..] == [];
  }

  lemma {:induction false} BulletsSplit(seg: seq<string>, slug: string) returns (pre: seq<string>, x: string, post: seq<string>)
    requires |Bullets(seg, slug)| == 1
    ensures seg == pre + [x] + post && Bullets(seg, slug) == [x]
    ensures (forall line | line in pre :: !LinksTo(line, slug)) && (forall line | line in post :: !LinksTo(line, slug))
  {
    hide LinksTo;
    if LinksTo(seg[0], slug) {
      pre, x, post := [], seg[0], seg[1..];
      NoBullets(post, slug);
      assert seg == [] + [x] + post;
    } else {
      pre, x, post := BulletsSplit(seg[1..], slug);
      assert seg == [seg[0]] + seg[1..];
      pre := [seg[0]] + pre;
    }
  }

  // An add changes nothing in exactly such a section.
  lemma AddedIsSame(seg: seq<string>, atEnd: bool, slug: string)
    requires ValidSlug(slug) && SectionBody(seg)
    ensures AddedTo(seg, atEnd, slug) == seg <==> OneBare(Bullets(seg, slug), slug)
  {
    hide LinksTo, AddedTo, LinkLine, AllBlank, SectionLine, Bullets, ValidSlug;
    if AddedTo(seg, atEnd, slug) == seg {
      var pre, x, post := AddedShape(seg, atEnd, slug);
      OneLinkBullets(seg, pre, x, post, slug);
    }
    if OneBare(Bullets(seg, slug), slug) {
      var pre, x, post := BulletsSplit(seg, slug);
      OneLinkFixed(seg, pre, x, post, atEnd, slug);
    }
  }

  // ----- one body -----

  // The edit changes nothing.
  ghost predicate Same(op: Operation, slug: string, body: string) {
    if op == Ensure then AddSpec(body, slug) == Edited(body, false) else RemoveSpec(body, slug) == Edited(body, false)
  }

  ghost predicate Kept(op: Operation, slug: string, bullets: seq<string>) {
    if op == Ensure then OneBare(bullets, slug) else bullets == []
  }

  lemma SameExact(op: Operation, slug: string, body: string)
    requires ValidSlug(slug) && OneSection(SplitLines(body))
    ensures Same(op, slug, body) <==> Kept(op, slug, Bullets(SectionLines(body), slug))
  {
    var h, e := TheSection(body);
    hide *;
    var lines := SplitLines(body);
    SpecsAre(body, slug, h, e);
    SectionLinesAre(body, h, e);
    SplitIsSingleLines(body);
    SectionIsBody(lines, h, e);
    ChangedExact(body, slug);
    SameIs(op, slug, body);
    KeptIs(op, slug, Bullets(SectionLines(body), slug));
    var seg, atEnd := lines[h + 1..e], e == |lines|;
    if op == Ensure {
      AddedIsSame(seg, atEnd, slug);
      AddLinesUnfold(lines, h, e, slug);
      AddedLinks(seg, atEnd, slug);
      ResectionLinesAre(body, h, e, AddedTo(seg, atEnd, slug));
      Regroup(lines, h, e);
      JoinSplit(body);
    } else {
      NoBullets(seg, slug);
      FirstLinkLineOffset(lines, h + 1, e, slug);
      FirstLinkIsFirst(seg, slug);
      FirstLinkLineIs(lines, h + 1, e, slug);
    }
  }

  lemma Regroup(lines: seq<string>, h: nat, e: nat)
    requires h < e <= |lines|
    ensures lines[..h + 1] + lines[h + 1..e] + lines[e..] == lines
  {
  }

  lemma SameIs(op: Operation, slug: string, body: string)
    ensures Same(op, slug, body) <==>
      if op == Ensure then AddSpec(body, slug) == Edited(body, false) else RemoveSpec(body, slug) == Edited(body, false)
  {
    hide AddSpec, RemoveSpec;
  }

  lemma KeptIs(op: Operation, slug: string, bullets: seq<string>)
    ensures Kept(op, slug, bullets) <==> if op == Ensure then OneBare(bullets, slug) else bullets == []
  {
    hide OneBare;
  }

  // The text an edit makes of a body.
  ghost function EditedBody(op: Operation, slug: string, body: string): EditResult {
    if op == Ensure then AddSpec(body, slug) else RemoveSpec(body, slug)
  }

  // An edit of one slug leaves the bullets of every other.
  lemma OtherBullets(op: Operation, slug: string, body: string, other: string)
    requires ValidSlug(slug) && OneSection(SplitLines(body)) && slug != other
    ensures EditedBody(op, slug, body).Edited?
    ensures OneSection(SplitLines(EditedBody(op, slug, body).text))
    ensures Bullets(SectionLines(EditedBody(op, slug, body).text), other) == Bullets(SectionLines(body), other)
  {
    hide SplitLines, AddSpec, RemoveSpec, OneSection, SectionLines, OtherLines, Bullets, ValidSlug, SectionLinks, SameOutside;
    AddMeaning(body, slug);
    RemoveMeaning(body, slug);
    SectionOutside(body, EditedBody(op, slug, body).text);
    EditsKeepLines(body, slug);
    BulletsOfOthers(SectionLines(body), slug, other);
    BulletsOfOthers(SectionLines(EditedBody(op, slug, body).text), slug, other);
  }

  // So whether another edit changes anything stays as it was; and the edit itself would change nothing more.
  lemma SameStays(op: Operation, slug: string, body: string, other: Operation, otherSlug: string)
    requires ValidSlug(slug) && ValidSlug(otherSlug) && OneSection(SplitLines(body))
    ensures EditedBody(op, slug, body).Edited?
    ensures slug != otherSlug ==> (Same(other, otherSlug, EditedBody(op, slug, body).text) <==> Same(other, otherSlug, body))
    ensures Same(op, slug, EditedBody(op, slug, body).text)
  {
    hide SplitLines, AddSpec, RemoveSpec, OneSection, SectionLines, Bullets, ValidSlug, Kept;
    EditsIdempotent(body, slug);
    if slug != otherSlug {
      OtherBullets(op, slug, body, otherSlug);
      SameExact(other, otherSlug, body);
      SameExact(other, otherSlug, EditedBody(op, slug, body).text);
    }
  }

  // ----- the notes -----

  // The edit changes nothing.
  ghost predicate Idle(notes: Notes, edit: LinkEdit) { FoldStep(notes, edit) == Some(notes) }

  lemma IdleExact(notes: Notes, edit: LinkEdit)
    requires Ready(notes, edit)
    ensures Idle(notes, edit) <==>
      if edit.target in notes then Same(edit.op, edit.slug, Body(notes[edit.target])) else edit.op == Remove
  {
    ReadyIs(notes, edit);
    hide SplitLines, Body, BodyOffset, OneSection, ValidSlug, AddSpec, RemoveSpec;
    if edit.target in notes {
      var text := notes[edit.target];
      assert Transform(edit.op, edit.slug, text).NewText?;
      EditableBody(edit.op, edit.slug, text);
      TransformChanged(edit.op, edit.slug, text);
      ChangedExact(Body(text), edit.slug);
      if Transform(edit.op, edit.slug, text).changed {
        assert notes[edit.target := Transform(edit.op, edit.slug, text).text][edit.target] != text;
      }
    } else if edit.op == Ensure {
      assert edit.target in FoldStep(notes, edit).value;
    }
  }

  // The body of an edited note is the edited body, whose section is still one.
  lemma NextBody(notes: Notes, edit: LinkEdit)
    requires AllSafe(notes) && Safe(edit.base) && Ready(notes, edit) && !Skipped(notes, edit)
    ensures FoldStep(notes, edit).Some? && edit.target in FoldStep(notes, edit).value
    ensures var body := Body(SourceOf(notes, edit));
      && OneSection(SplitLines(body)) && EditedBody(edit.op, edit.slug, body).Edited?
      && Body(FoldStep(notes, edit).value[edit.target]) == EditedBody(edit.op, edit.slug, body).text
    ensures forall t | t != edit.target :: (t in FoldStep(notes, edit).value <==> t in notes) && (t in notes ==> FoldStep(notes, edit).value[t] == notes[t])
  {
    ReadyIs(notes, edit);
    hide SplitLines, Body, BodyOffset, OneSection, ValidSlug, AddSpec, RemoveSpec, Transform, Safe, FoldStep;
    FoldStepIs(notes, edit, StepOf(edit));
    var text := SourceOf(notes, edit);
    SafeStays(edit.op, edit.slug, text);
    BodyOfSteady(edit.op, edit.slug, text);
    EditableBody(edit.op, edit.slug, text);
  }

  // An edit leaves every other edit as idle or not as it was, and is idle itself afterwards.
  lemma IdleStays(notes: Notes, edit: LinkEdit, other: LinkEdit)
    requires AllSafe(notes) && Blank(edit) && Ready(notes, edit) && Ready(notes, other)
    ensures FoldStep(notes, edit).Some?
    ensures (edit.target, edit.slug) != (other.target, other.slug) ==> (Idle(FoldStep(notes, edit).value, other) <==> Idle(notes, other))
    ensures Idle(FoldStep(notes, edit).value, edit)
  {
    hide SplitLines, Body, BodyOffset, OneSection, AddSpec, RemoveSpec, Safe, FoldStep, Idle, Same, EditedBody, SlugsOf;
    SkippedIs(notes, edit);
    BlankIsSafe(edit);
    if !Skipped(notes, edit) {
      NextBody(notes, edit);
      var next := FoldStep(notes, edit).value;
      StaysReady(notes, edit, other);
      StaysReady(notes, edit, edit);
      IdleExact(next, edit);
      IdleExact(next, other);
      IdleExact(notes, other);
      SameStays(edit.op, edit.slug, Body(SourceOf(notes, edit)), other.op, other.slug);
      if edit.target !in notes && other.target == edit.target && other.slug != edit.slug {
        NewNoteIdle(edit.base, other.op, other.slug);
      }
    }
  }

  lemma SkippedIs(notes: Notes, edit: LinkEdit)
    requires Ready(notes, edit)
    ensures Skipped(notes, edit) ==> FoldStep(notes, edit) == Some(notes) && Idle(notes, edit)
    ensures Skipped(notes, edit) <==> edit.target !in notes && edit.op == Remove
  {
    hide Transform;
  }

  // A note without links: only a remove leaves it as it is.
  lemma NewNoteIdle(base: string, op: Operation, slug: Slug)
    requires SlugsOf(base) == {} && ValidSlug(slug) && OneSection(SplitLines(Body(base)))
    ensures Same(op, slug, Body(base)) <==> op == Remove
  {
    var body := Body(base);
    NotLinked(base, slug);
    hide *;
    SameExact(op, slug, body);
    KeptIs(op, slug, Bullets(SectionLines(body), slug));
    var h, e := TheSection(body);
    SectionLinesAre(body, h, e);
    SectionLinksAre(body, h, e);
    NoTargetNoLink(SectionLines(body), slug);
    FirstLinkIsFirst(SectionLines(body), slug);
    NoBullets(SectionLines(body), slug);
    NotBare(slug);
  }

  lemma NotLinked(base: string, slug: Slug)
    requires SlugsOf(base) == {}
    ensures slug !in SectionLinks(Body(base))
  {
    hide SectionLinks, Body;
    assert forall s: Slug :: s in SectionLinks(Body(base)) ==> s in SlugsOf(base);
  }

  lemma NotBare(slug: string)
    ensures !OneBare([], slug)
  {
  }

  // ----- edits in order -----

  // The pairs of note and slug are different, and every edit can be made on the notes as they are.
  ghost predicate AllApartAndReady(start: Notes, edits: seq<LinkEdit>) {
    && AllSafe(start) && (forall edit | edit in edits :: Blank(edit) && Ready(start, edit))
    && forall i, j | 0 <= i < j < |edits| :: (edits[i].target, edits[i].slug) != (edits[j].target, edits[j].slug)
  }

  // After the first k edits everything can still be done.
  lemma {:induction false} ReadyAt(start: Notes, edits: seq<LinkEdit>, k: nat)
    requires AllApartAndReady(start, edits) && k <= |edits|
    ensures Fold(start, edits[..k]).Some? && AllSafe(Fold(start, edits[..k]).value)
    ensures forall edit | edit in edits :: Ready(Fold(start, edits[..k]).value, edit)
  {
    hide AllSafe, Blank, Ready, FoldStep, Fold;
    if k == 0 {
      FoldNone(start, edits);
    } else {
      ReadyAt(start, edits, k - 1);
      var sofar, edit := Fold(start, edits[..k - 1]).value, edits[k - 1];
      FoldOneMore(start, edits, k - 1);
      assert edit in edits;
      BlankIsSafe(edit);
      ReadyIs(sofar, edit);
      SafeStep(sofar, edit);
      forall other | other in edits ensures Ready(Fold(start, edits[..k]).value, other) { StaysReady(sofar, edit, other); }
    }
  }

  lemma FoldNone(start: Notes, edits: seq<LinkEdit>)
    ensures Fold(start, edits[..0]) == Some(start)
  {
  }

  // Edits i..j leave an edit of another pair as idle or not as it was.
  lemma {:induction false} IdleAlong(start: Notes, edits: seq<LinkEdit>, i: nat, j: nat, other: LinkEdit)
    requires AllApartAndReady(start, edits) && i <= j <= |edits| && other in edits
    requires forall k | i <= k < j :: (edits[k].target, edits[k].slug) != (other.target, other.slug)
    ensures Fold(start, edits[..i]).Some? && Fold(start, edits[..j]).Some?
    ensures Idle(Fold(start, edits[..i]).value, other) <==> Idle(Fold(start, edits[..j]).value, other)
    decreases j
  {
    hide AllSafe, Blank, Ready, FoldStep, Fold, Idle;
    ReadyAt(start, edits, i);
    ReadyAt(start, edits, j);
    if i < j {
      IdleAlong(start, edits, i, j - 1, other);
      ReadyAt(start, edits, j - 1);
      FoldOneMore(start, edits, j - 1);
      assert edits[j - 1] in edits;
      IdleStays(Fold(start, edits[..j - 1]).value, edits[j - 1], other);
    }
  }

  // Some of the edits lo..hi changes the notes exactly when they leave other notes than they found.
  lemma WritesExact(start: Notes, edits: seq<LinkEdit>, lo: nat, hi: nat)
    requires AllApartAndReady(start, edits) && lo <= hi <= |edits|
    ensures Writes(start, edits, lo, hi) <==> Fold(start, edits[..lo]) != Fold(start, edits[..hi])
  {
    hide AllSafe, Blank, Ready, FoldStep, Fold, Idle, Writes;
    if Fold(start, edits[..lo]) != Fold(start, edits[..hi]) {
      ChangedIsWritten(start, edits, lo, hi);
    } else {
      forall k | lo <= k < hi ensures Fold(start, edits[..k]) == Fold(start, edits[..k + 1]) { StepIsIdle(start, edits, lo, hi, k); }
      NoWritesIs(start, edits, lo, hi);
    }
  }

  lemma NoWritesIs(start: Notes, edits: seq<LinkEdit>, lo: nat, hi: nat)
    requires lo <= hi <= |edits| && forall k | lo <= k < hi :: Fold(start, edits[..k]) == Fold(start, edits[..k + 1])
    ensures !Writes(start, edits, lo, hi)
  {
    hide Fold;
  }

  // In a range that leads back to where it started no step changes anything: the step is idle at the end, as
  // no later one undoes that, so it was at the start, and so when its turn came.
  lemma StepIsIdle(start: Notes, edits: seq<LinkEdit>, lo: nat, hi: nat, k: nat)
    requires AllApartAndReady(start, edits) && lo <= k < hi <= |edits|
    requires Fold(start, edits[..lo]) == Fold(start, edits[..hi])
    ensures Fold(start, edits[..k]) == Fold(start, edits[..k + 1])
  {
    var edit := edits[k];
    assert edit in edits && Blank(edit);
    forall i | lo <= i < k || k + 1 <= i < hi ensures (edits[i].target, edits[i].slug) != (edit.target, edit.slug) {}
    hide AllSafe, Blank, Ready, FoldStep, Fold, Idle;
    ReadyAt(start, edits, k);
    FoldOneMore(start, edits, k);
    IdleStays(Fold(start, edits[..k]).value, edit, edit);
    IdleAlong(start, edits, k + 1, hi, edit);
    IdleAlong(start, edits, lo, k, edit);
    IdleIs(Fold(start, edits[..k]).value, edit);
  }

  lemma IdleIs(notes: Notes, edit: LinkEdit)
    ensures Idle(notes, edit) <==> FoldStep(notes, edit) == Some(notes)
  {
    hide FoldStep;
  }
}
