// The links the notes of a vault hold, and how carried-out link edits change them: the bridge between
// texts and the link sets of the convergence results.
module NoteLinks {
  import opened Text
  import opened TaskLines
  import opened TasksSection
  import opened LinkAlgebra
  import opened DailyFormat
  import opened Reconcile
  import opened Convergence
  import opened Projection
  import opened NoteBodies
  import opened FrontmatterFence

  ghost function LinksOf(notes: Notes): Links {
    set t, slug | t in notes && slug in SectionLinks(Body(notes[t])) :: (t, slug)
  }

  // No edit of any note moves its body.
  ghost predicate AllSafe(notes: Notes) {
    forall t | t in notes :: Safe(notes[t])
  }

  // What a missing note is created from brings no links of its own.
  ghost predicate Blank(edit: LinkEdit) {
    Safe(edit.base) && SlugsOf(edit.base) == {}
  }

  ghost predicate IsEditOf(edit: LinkEdit, s: Step) {
    edit.op == s.op && edit.slug == s.slug && edit.target == s.target
  }

  lemma LinksOfNote(notes: Notes, t: Path, slug: Slug)
    ensures (t, slug) in LinksOf(notes) <==> t in notes && slug in SlugsOf(notes[t])
  {
  }

  // The text an edit starts from.
  function SourceOf(notes: Notes, edit: LinkEdit): string {
    if edit.target in notes then notes[edit.target] else edit.base
  }

  predicate Skipped(notes: Notes, edit: LinkEdit) { edit.target !in notes && edit.op == Remove }

  // The edit neither closes an open frontmatter nor starts a note with links of other slugs.
  ghost predicate Plain(notes: Notes, edit: LinkEdit) {
    !Skipped(notes, edit) ==>
      && !(edit.op == Ensure && ClosesFence(SourceOf(notes, edit), edit.slug))
      && (edit.target !in notes ==> SlugsOf(edit.base) <= {edit.slug})
  }

  // One edit carried out on the notes is one step carried out on the links, exactly for plain edits.
  lemma FoldStepLinks(notes: Notes, edit: LinkEdit, s: Step)
    requires IsEditOf(edit, s) && FoldStep(notes, edit).Some?
    ensures LinksOf(FoldStep(notes, edit).value) == ApplyStep(LinksOf(notes), s) <==> Plain(notes, edit)
  {
    hide *;
    var after, text := FoldStep(notes, edit).value, SourceOf(notes, edit);
    FoldStepIs(notes, edit, s);
    PlainIs(notes, edit);
    if Skipped(notes, edit) {
      SkippedLinks(notes, s);
    } else {
      var t := Transform(edit.op, edit.slug, text).text;
      ReparseExact(edit.op, edit.slug, text);
      if Steady(edit.op, edit.slug, text) {
        EditedLinks(edit.op, edit.slug, text);
        StepOnLinks(notes, after, s, text, t, edit);
      } else {
        SpoiledLinks(edit.slug, text);
        LinksOfNote(after, s.target, s.slug);
        EnsuredLink(notes, s);
      }
    }
  }

  lemma FoldStepIs(notes: Notes, edit: LinkEdit, s: Step)
    requires IsEditOf(edit, s) && FoldStep(notes, edit).Some?
    ensures edit.op == s.op && edit.slug == s.slug && edit.target == s.target
    ensures Skipped(notes, edit) <==> s.target !in notes && s.op == Remove
    ensures Skipped(notes, edit) ==> FoldStep(notes, edit).value == notes
    ensures !Skipped(notes, edit) ==>
      var t := Transform(edit.op, edit.slug, SourceOf(notes, edit));
      && t.NewText? && FoldStep(notes, edit).value == notes[s.target := t.text]
    ensures SourceOf(notes, edit) == if s.target in notes then notes[s.target] else edit.base
  {
    hide Transform;
    if !Skipped(notes, edit) && edit.target in notes && !Transform(edit.op, edit.slug, notes[edit.target]).changed {
      TransformChanged(edit.op, edit.slug, notes[edit.target]);
      assert notes[s.target := notes[s.target]] == notes;
    }
  }

  lemma PlainIs(notes: Notes, edit: LinkEdit)
    ensures Plain(notes, edit) <==> (!Skipped(notes, edit) ==>
      && !(edit.op == Ensure && ClosesFence(SourceOf(notes, edit), edit.slug))
      && (edit.target !in notes ==> SlugsOf(edit.base) <= {edit.slug}))
  {
    hide SlugsOf, ClosesFence;
  }

  // A remove from a note that does not exist has nothing to remove.
  lemma SkippedLinks(notes: Notes, s: Step)
    requires s.target !in notes && s.op == Remove
    ensures LinksOf(notes) == ApplyStep(LinksOf(notes), s)
  {
    hide SlugsOf, LinksOf;
    LinksOfNote(notes, s.target, s.slug);
  }

  lemma EnsuredLink(notes: Notes, s: Step)
    ensures s.op == Ensure ==> (s.target, s.slug) in ApplyStep(LinksOf(notes), s)
  {
    hide LinksOf;
  }

  // A note spoiled by an edit holds no links any more.
  lemma SpoiledLinks(slug: Slug, text: string)
    requires Transform(Ensure, slug, text).NewText? && ClosesFence(text, slug)
    ensures SlugsOf(Transform(Ensure, slug, text).text) == {}
  {
    hide *;
    SpoiledHasNoSection(text, slug);
    NoSectionNoLinks(Body(Transform(Ensure, slug, text).text));
    SlugsIs(Transform(Ensure, slug, text).text);
  }

  lemma NoSectionNoLinks(body: string)
    requires !OneSection(SplitLines(body))
    ensures SectionLinks(body) == []
  {
    hide SplitLines, IsSection;
  }

  lemma StepOnLinks(notes: Notes, after: Notes, s: Step, text: string, t: string, edit: LinkEdit)
    requires text == (if s.target in notes then notes[s.target] else edit.base) && after == notes[s.target := t]
    requires SlugsOf(t) == LinkOp(SlugsOf(text), s.op, s.slug)
    requires s.target in notes || s.op == Ensure
    ensures LinksOf(after) == ApplyStep(LinksOf(notes), s) <==> (s.target !in notes ==> SlugsOf(edit.base) <= {s.slug})
  {
    hide LinksOf, SlugsOf;
    forall key: (Path, Slug)
      ensures key in LinksOf(after) <==>
        key in ApplyStep(LinksOf(notes), s) || (s.target !in notes && key.0 == s.target && key.1 in SlugsOf(edit.base))
    {
      assert key == (key.0, key.1);
      LinksOfNote(notes, key.0, key.1);
      LinksOfNote(after, key.0, key.1);
    }
    if s.target !in notes {
      forall slug | slug in SlugsOf(edit.base) && slug != s.slug ensures (s.target, slug) !in ApplyStep(LinksOf(notes), s) {
        LinksOfNote(notes, s.target, slug);
      }
    }
  }

  // Edits of safe notes are plain, and leave them safe.
  lemma SafeStep(notes: Notes, edit: LinkEdit)
    requires AllSafe(notes) && Blank(edit) && FoldStep(notes, edit).Some?
    ensures Plain(notes, edit) && AllSafe(FoldStep(notes, edit).value)
  {
    var s := StepOf(edit);
    hide Transform, Safe, SlugsOf, ClosesFence, FoldStep, IsEditOf;
    FoldStepIs(notes, edit, s);
    if !Skipped(notes, edit) {
      SafeStays(edit.op, edit.slug, SourceOf(notes, edit));
      ReparseExact(edit.op, edit.slug, SourceOf(notes, edit));
    }
  }

  // ----- a prepared plan never fails half-way -----

  // The edit can be made on the notes as they are.
  ghost predicate Ready(notes: Notes, edit: LinkEdit) {
    && ValidSlug(edit.slug)
    && (edit.target in notes ==> OneSection(SplitLines(Body(notes[edit.target]))))
    && (edit.target !in notes && edit.op == Ensure ==> OneSection(SplitLines(Body(edit.base))))
  }

  lemma ReadyIs(notes: Notes, edit: LinkEdit)
    ensures Ready(notes, edit) <==> Prepare(notes, edit).Some?
    ensures Ready(notes, edit) <==> FoldStep(notes, edit).Some?
  {
    hide SplitLines, Body, AddLines, RemoveLines, IsSection, JoinLines, FirstLinkLine, ValidSlug, BodyOffset;
    PreparedMatches(notes, edit);
  }

  // An edit leaves every edit ready that was.
  lemma StaysReady(notes: Notes, edit: LinkEdit, other: LinkEdit)
    requires AllSafe(notes) && Safe(edit.base) && FoldStep(notes, edit).Some? && Ready(notes, other)
    ensures Ready(FoldStep(notes, edit).value, other)
  {
    hide SplitLines, Body, IsSection, BodyOffset, Transform, ValidSlug, Safe, OneSection, FoldStep, SlugsOf;
    FoldStepIs(notes, edit, StepOf(edit));
    if !Skipped(notes, edit) {
      SafeStays(edit.op, edit.slug, SourceOf(notes, edit));
      EditedLinks(edit.op, edit.slug, SourceOf(notes, edit));
    }
  }

  // With no outside writer, edits that were all prepared against one state of the notes are all carried
  // out when they are applied to it one after the other.
  lemma {:induction false} PreparedPlanSucceeds(notes: Notes, edits: seq<LinkEdit>)
    requires AllSafe(notes) && forall edit | edit in edits :: Blank(edit) && Prepare(notes, edit).Some?
    ensures Fold(notes, edits).Some?
    decreases |edits|
  {
    hide Ready, FoldStep, Prepare, AllSafe, Blank;
    if |edits| > 0 {
      assert edits[0] in edits && forall edit | edit in edits[1..] :: edit in edits;
      ReadyIs(notes, edits[0]);
      SafeStep(notes, edits[0]);
      var next := FoldStep(notes, edits[0]).value;
      forall edit | edit in edits[1..] ensures Blank(edit) && Prepare(next, edit).Some? {
        ReadyIs(notes, edit);
        BlankIsSafe(edits[0]);
        StaysReady(notes, edits[0], edit);
        ReadyIs(next, edit);
      }
      PreparedPlanSucceeds(next, edits[1..]);
    }
  }

  ghost function StepOf(edit: LinkEdit): (s: Step)
    ensures IsEditOf(edit, s)
  {
    Step(edit.op, edit.slug, Date(1, 1, 1), Current, edit.target)
  }

  lemma BlankIsSafe(edit: LinkEdit)
    requires Blank(edit)
    ensures Safe(edit.base)
  {
    hide Safe, SlugsOf;
  }

  // Projections prepared up front and carried out in order do to the links what the steps do.
  lemma {:induction false} FoldLinks(notes: Notes, edits: seq<LinkEdit>, steps: seq<Step>)
    requires AllSafe(notes) && |edits| == |steps| && Fold(notes, edits).Some?
    requires forall i | 0 <= i < |edits| :: Blank(edits[i]) && IsEditOf(edits[i], steps[i])
    ensures AllSafe(Fold(notes, edits).value)
    ensures LinksOf(Fold(notes, edits).value) == ApplySteps(LinksOf(notes), steps)
    decreases |edits|
  {
    hide LinksOf, FoldStep, AllSafe, Blank, IsEditOf, ApplyStep;
    if |edits| > 0 {
      assert Blank(edits[0]) && IsEditOf(edits[0], steps[0]);
      FoldStepLinks(notes, edits[0], steps[0]);
      SafeStep(notes, edits[0]);
      FoldLinks(FoldStep(notes, edits[0]).value, edits[1..], steps[1..]);
    }
  }
}
