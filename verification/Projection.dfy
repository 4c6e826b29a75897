// The optimistic projection writer: prepared note contents applied under concurrent outside writers.
module Projection {
  import opened Text
  import opened TaskLines
  import opened TasksSection
  import opened Reconcile
  import LinkAlgebra

  type Notes = map<Path, string>

  // ----- the transform of one note -----

  const FENCE := "\n---\n"

  // text.index(FENCE, from)
  function FindFence(text: string, from: nat): (r: Option<nat>)
    ensures r.Some? ==> from <= r.value && r.value + 5 <= |text| && text[r.value..r.value + 5] == FENCE
    decreases |text| - from
  {
    if from + 5 > |text| then None
    else if text[from..from + 5] == FENCE then Some(from)
    else FindFence(text, from + 1)
  }

  // Where the body starts: after a closed frontmatter block, else at the beginning.
  function BodyOffset(text: string): (n: nat)
    ensures n <= |text|
  {
    if !("---\n" <= text) then 0
    else
      var fence := FindFence(text, 4);
      if fence.Some? then fence.value + 5 else 0
  }

  function Body(text: string): string { text[BodyOffset(text)..] }

  datatype Transformed = NewText(text: string, changed: bool) | BadNote

  // The section edit applied to the body; everything before the body is kept verbatim.
  ghost function Transform(op: Operation, slug: Slug, text: string): Transformed {
    var r := if op == Ensure then AddSpec(Body(text), slug) else RemoveSpec(Body(text), slug);
    if r.Edited? then NewText(text[..BodyOffset(text)] + r.text, r.changed) else BadNote
  }

  method TransformDailyNoteText(op: Operation, slug: Slug, text: string) returns (r: Transformed)
    ensures r == Transform(op, slug, text)
    ensures r.NewText? ==> (r.changed <==> r.text != text)
  {
    var offset := BodyOffset(text);
    var edit;
    if op == Ensure {
      edit := AddDailyNoteTaskLink(text[offset..], slug);
    } else {
      edit := RemoveDailyNoteTaskLink(text[offset..], slug);
    }
    r := if edit.Edited? then NewText(text[..offset] + edit.text, edit.changed) else BadNote;
    if r.NewText? { TransformChanged(op, slug, text); }
  }

  // The edits are those of the body.
  lemma EditableBody(op: Operation, slug: Slug, text: string)
    requires Transform(op, slug, text).NewText?
    ensures ValidSlug(slug) && OneSection(SplitLines(Body(text)))
    ensures AddSpec(Body(text), slug).Edited? && RemoveSpec(Body(text), slug).Edited?
    ensures Transform(op, slug, text).text
         == text[..BodyOffset(text)] + (if op == Ensure then AddSpec(Body(text), slug) else RemoveSpec(Body(text), slug)).text
    ensures Transform(op, slug, text).changed == (if op == Ensure then AddSpec(Body(text), slug) else RemoveSpec(Body(text), slug)).changed
  {
    hide IsTasksHeading, IsH2Heading, SplitLines, AddLines, RemoveLines, ValidSlug, FirstLinkLine, JoinLines;
  }

  lemma TextIsHeadAndBody(text: string)
    ensures text[..BodyOffset(text)] + Body(text) == text
  {
  }

  // A transform reports a change exactly when the text is another one.
  lemma TransformChanged(op: Operation, slug: Slug, text: string)
    requires Transform(op, slug, text).NewText?
    ensures Transform(op, slug, text).changed <==> Transform(op, slug, text).text != text
  {
    hide *;
    EditableBody(op, slug, text);
    TextIsHeadAndBody(text);
    LinkAlgebra.ChangedExact(Body(text), slug);
    SameHead(text[..BodyOffset(text)], Body(text), (if op == Ensure then AddSpec(Body(text), slug) else RemoveSpec(Body(text), slug)).text);
  }

  lemma SameHead(head: string, a: string, b: string)
    ensures head + a == head + b <==> a == b
  {
    assert (head + a)[|head|..] == a && (head + b)[|head|..] == b;
  }

  // ----- preparing -----

  // One planned link edit.  base is what a missing note is created from (the rendered template or the
  // default body).
  datatype LinkEdit = LinkEdit(op: Operation, slug: Slug, target: Path, base: string)

  datatype Kind = Create | Replace | Nothing

  // source is the fingerprint: the note's text when the projection was prepared (None: no note).
  datatype Projection = Projection(edit: LinkEdit, kind: Kind, content: string, source: Option<string>)

  ghost function Prepare(notes: Notes, edit: LinkEdit): Option<Projection> {
    if !ValidSlug(edit.slug) then None
    else if edit.target !in notes then
      if edit.op == Remove then Some(Projection(edit, Nothing, "", None))
      else
        var t := Transform(Ensure, edit.slug, edit.base);
        if t.BadNote? then None else Some(Projection(edit, Create, t.text, None))
    else
      var t := Transform(edit.op, edit.slug, notes[edit.target]);
      if t.BadNote? then None
      else if !t.changed then Some(Projection(edit, Nothing, "", Some(notes[edit.target])))
      else Some(Projection(edit, Replace, t.text, Some(notes[edit.target])))
  }

  // ----- outside writers -----

  // An outside writer replaces or deletes a note.
  datatype Outside = Outside(path: Path, text: Option<string>)

  function Interfere(notes: Notes, writes: seq<Outside>): Notes
    decreases |writes|
  {
    if |writes| == 0 then notes
    else
      Interfere(OneWrite(notes, writes[0]), writes[1..])
  }

  function OneWrite(notes: Notes, w: Outside): Notes {
    if w.text.Some? then notes[w.path := w.text.value] else notes - {w.path}
  }

  // A write that fails with an error: of the temporary file, or of its publication.
  datatype Fault = NoFault | AtTemp | AtPublish

  // What happens during one attempt: outside writes up to the final check, outside writes between that
  // check and the no-clobber publication of a new note, and a failing write of the program's own.
  datatype Race = Race(beforeCheck: seq<Outside>, beforeLink: seq<Outside>, fault: Fault)

  // An attempt detects a race, raises an error, or ends having written or not.
  datatype AttemptEnd = Raced | Raised | Ended(written: bool)

  datatype Outcome = Applied(attempts: nat, kind: Kind) | NotApplied(attempts: nat) | Conflict | Failed

  // The notes at the moment the attempt publishes: after the outside writes it can still notice.
  function AtPublication(notes: Notes, p: Projection, race: Race): Notes {
    if p.kind == Create then Interfere(Interfere(notes, race.beforeCheck), race.beforeLink) else Interfere(notes, race.beforeCheck)
  }

  // The source is what it was when the projection was prepared.
  predicate SourceMatches(notes: Notes, p: Projection) {
    if p.source.None? then p.edit.target !in notes else p.edit.target in notes && notes[p.edit.target] == p.source.value
  }

  // The notes outside `changed` are the same: as many, with the same text.
  ghost predicate SameExcept(was: Notes, now: Notes, changed: seq<Path>) {
    forall t | t !in changed :: (t in now <==> t in was) && (t in was ==> now[t] == was[t])
  }

  class Vault {
    var notes: Notes

    constructor (initial: Notes)
      ensures notes == initial
    {
      notes := initial;
    }

    method PrepareDailyNoteProjection(edit: LinkEdit) returns (r: Option<Projection>)
      ensures r == Prepare(notes, edit)
    {
      hide Transform;
      if !ValidSlug(edit.slug) { return None; }
      if edit.target !in notes {
        if edit.op == Remove { return Some(Projection(edit, Nothing, "", None)); }
        var t := TransformDailyNoteText(Ensure, edit.slug, edit.base);
        return if t.BadNote? then None else Some(Projection(edit, Create, t.text, None));
      }
      var source := notes[edit.target];
      var t := TransformDailyNoteText(edit.op, edit.slug, source);
      return if t.BadNote? then None
             else if !t.changed then Some(Projection(edit, Nothing, "", Some(source)))
             else Some(Projection(edit, Replace, t.text, Some(source)));
    }

    // One attempt.
    method Attempt(p: Projection, race: Race) returns (end: AttemptEnd)
      modifies this
      ensures end == AttemptOutcome(old(notes), p, race)
      ensures notes == AttemptNotes(old(notes), p, race)
    {
      // outside writers up to the final check
      notes := Interfere(notes, race.beforeCheck);
      if p.kind != Nothing && race.fault == AtTemp {
        return Raised;
      }
      if !SourceMatches(notes, p) {
        return Raced;
      }
      match p.kind
      case Nothing =>
        return Ended(false);
      case Replace =>
        if race.fault == AtPublish { return Raised; }
        notes := notes[p.edit.target := p.content];
        return Ended(true);
      case Create =>
        // outside writers between the check and the hard link, which refuses an existing name
        notes := Interfere(notes, race.beforeLink);
        if p.edit.target in notes {
          return Raced;
        }
        if race.fault == AtPublish { return Raised; }
        notes := notes[p.edit.target := p.content];
        return Ended(true);
    }

    // Apply a prepared projection in at most two attempts, recomputing it between them.
    method ApplyDailyNoteProjection(projection: Projection, races: (Race, Race)) returns (outcome: Outcome)
      modifies this
      ensures (outcome, notes) == ApplyResult(old(notes), projection, races)
    {
      hide Prepare, AttemptNotes, AttemptOutcome;
      var attempts, current := 0, projection;
      while attempts < 2
        invariant attempts <= 2
        invariant attempts == 0 ==> current == projection && notes == old(notes)
        invariant attempts >= 1 ==>
          && AttemptOutcome(old(notes), projection, races.0).Raced?
          && Prepare(AttemptNotes(old(notes), projection, races.0), projection.edit) == Some(current)
        invariant attempts == 1 ==> notes == AttemptNotes(old(notes), projection, races.0)
        invariant attempts == 2 ==>
          && AttemptOutcome(AttemptNotes(old(notes), projection, races.0), current, races.1).Raced?
          && notes == AttemptNotes(AttemptNotes(old(notes), projection, races.0), current, races.1)
      {
        attempts := attempts + 1;
        var end := Attempt(current, if attempts == 1 then races.0 else races.1);
        if end.Raised? { return Failed; }
        if end.Ended? {
          return if end.written then Applied(attempts, current.kind) else NotApplied(attempts);
        }
        if attempts < 2 {
          var again := PrepareDailyNoteProjection(projection.edit);
          if again.None? { return Failed; }
          current := again.value;
        }
      }
      return Conflict;
    }

    // Apply projections in order; ok is false when one could not be applied and the rest were not tried.
    // changed lists the notes that were written.
    method ApplyProjections(projections: seq<Projection>, ghost snapshot: Notes, ghost edits: seq<LinkEdit>) returns (ok: bool, changed: seq<Path>)
      requires |edits| == |projections|
      requires forall i | 0 <= i < |edits| :: projections[i].edit == edits[i] && Prepare(snapshot, edits[i]) == Some(projections[i])
      modifies this
      ensures ok <==> Fold(old(notes), edits).Some?
      ensures ok ==> notes == Fold(old(notes), edits).value
      ensures !ok ==> exists k | 0 <= k < |edits| :: Fold(old(notes), edits[..k]) == Some(notes) && Fold(old(notes), edits[..k + 1]) == None
      ensures SameExcept(old(notes), notes, changed)
      ensures forall t | t in changed :: exists edit | edit in edits :: edit.target == t
      ensures ok ==> (changed != [] <==> Writes(old(notes), edits, 0, |edits|))
    {
      hide Prepare, FoldStep, ApplyResult, Writes;
      changed := [];
      NoWrites(old(notes), edits, 0);
      for i := 0 to |projections|
        invariant Fold(old(notes), edits[..i]) == Some(notes)
        invariant SameExcept(old(notes), notes, changed)
        invariant forall t | t in changed :: exists edit | edit in edits :: edit.target == t
        invariant changed != [] <==> Writes(old(notes), edits, 0, i)
      {
        var projection := projections[i];
        assert projection.edit == edits[i] && Prepare(snapshot, edits[i]) == Some(projection);
        QuietApplyIsFoldStep(snapshot, notes, projection);
        QuietApplyWrites(snapshot, notes, projection);
        WritesOneMore(old(notes), edits, 0, i);
        FoldOneMore(old(notes), edits, i);
        assert edits[i] in edits;
        var outcome := ApplyDailyNoteProjection(projection, (QUIET, QUIET));
        if outcome.Conflict? || outcome.Failed? {
          return false, changed;
        }
        if outcome.Applied? {
          changed := changed + [projection.edit.target];
        }
      }
      assert edits[..|projections|] == edits;
      ok := true;
    }
  }

  function AttemptOutcome(notes: Notes, p: Projection, race: Race): AttemptEnd {
    if p.kind != Nothing && race.fault == AtTemp then Raised
    else if !SourceMatches(Interfere(notes, race.beforeCheck), p) then Raced
    else if p.kind == Create && p.edit.target in AtPublication(notes, p, race) then Raced
    else if p.kind != Nothing && race.fault == AtPublish then Raised
    else Ended(p.kind != Nothing)
  }

  // How far an attempt gets: to the final check, or to the publication.
  predicate ReachesPublication(notes: Notes, p: Projection, race: Race) {
    !(p.kind != Nothing && race.fault == AtTemp) && SourceMatches(Interfere(notes, race.beforeCheck), p)
  }

  function AttemptNotes(notes: Notes, p: Projection, race: Race): Notes {
    if !ReachesPublication(notes, p, race) then Interfere(notes, race.beforeCheck)
    else if AttemptOutcome(notes, p, race) == Ended(true) then AtPublication(notes, p, race)[p.edit.target := p.content]
    else AtPublication(notes, p, race)
  }

  ghost function ApplyResult(notes: Notes, p: Projection, races: (Race, Race)): (Outcome, Notes) {
    var first := AttemptOutcome(notes, p, races.0);
    var notes1 := AttemptNotes(notes, p, races.0);
    match first
    case Raised => (Failed, notes1)
    case Ended(written) => (if written then Applied(1, p.kind) else NotApplied(1), notes1)
    case Raced =>
      var again := Prepare(notes1, p.edit);
      if again.None? then (Failed, notes1)
      else
        var second := AttemptOutcome(notes1, again.value, races.1);
        var notes2 := AttemptNotes(notes1, again.value, races.1);
        match second
        case Raised => (Failed, notes2)
        case Ended(written) => (if written then Applied(2, again.value.kind) else NotApplied(2), notes2)
        case Raced => (Conflict, notes2)
  }

  // ----- what is published -----

  lemma {:induction false} InterfereConcat(notes: Notes, a: seq<Outside>, b: seq<Outside>)
    ensures Interfere(notes, a + b) == Interfere(Interfere(notes, a), b)
    decreases |a|
  {
    if |a| == 0 {
      assert a + b == b;
    } else {
      assert (a + b)[1..] == a[1..] + b;
      InterfereConcat(OneWrite(notes, a[0]), a[1..], b);
    }
  }

  // The note a link edit makes of the notes as they are.
  ghost function TransformedNote(notes: Notes, edit: LinkEdit): Transformed {
    Transform(edit.op, edit.slug, if edit.target in notes then notes[edit.target] else edit.base)
  }

  // A projection prepared against some state of the notes.
  ghost predicate Prepared(p: Projection) {
    exists notes :: Prepare(notes, p.edit) == Some(p)
  }

  // The outside writes that take place during one attempt.
  function AttemptWrites(notes: Notes, p: Projection, race: Race): seq<Outside> {
    if ReachesPublication(notes, p, race) && p.kind == Create then race.beforeCheck + race.beforeLink
    else race.beforeCheck
  }

  lemma AttemptPublishes(notes: Notes, p: Projection, race: Race)
    requires Prepared(p)
    ensures var present := Interfere(notes, AttemptWrites(notes, p, race));
      && (AttemptOutcome(notes, p, race) != Ended(true) ==> AttemptNotes(notes, p, race) == present)
      && (AttemptOutcome(notes, p, race) == Ended(true) ==>
            && TransformedNote(present, p.edit).NewText?
            && AttemptNotes(notes, p, race) == present[p.edit.target := TransformedNote(present, p.edit).text]
            && (p.kind == Replace <==> p.edit.target in present))
  {
    hide Transform;
    InterfereConcat(notes, race.beforeCheck, race.beforeLink);
    hide Interfere;
  }

  // The outside writes that take place during one call.
  ghost function CallWrites(notes: Notes, p: Projection, races: (Race, Race)): seq<Outside> {
    AttemptWrites(notes, p, races.0)
    + if !AttemptOutcome(notes, p, races.0).Raced? then []
      else
        var again := Prepare(AttemptNotes(notes, p, races.0), p.edit);
        if again.None? then [] else AttemptWrites(AttemptNotes(notes, p, races.0), again.value, races.1)
  }

  // Whatever outside writers do before the final check, and whichever write fails: a call leaves exactly what they wrote, or that
  // with the one note replaced by the transform of the text they left there.  A new note is published
  // only where there is none, even at the moment of publication.
  lemma PublishesTransformOfPresentText(notes: Notes, p: Projection, races: (Race, Race))
    requires Prepared(p)
    ensures var (outcome, after) := ApplyResult(notes, p, races);
      var present := Interfere(notes, CallWrites(notes, p, races));
      && (!outcome.Applied? ==> after == present)
      && (outcome.Applied? ==>
            && TransformedNote(present, p.edit).NewText?
            && after == present[p.edit.target := TransformedNote(present, p.edit).text]
            && (outcome.kind == Replace <==> p.edit.target in present))
  {
    var notes1 := AttemptNotes(notes, p, races.0);
    AttemptPublishes(notes, p, races.0);
    var writes := AttemptWrites(notes, p, races.0);
    assert writes + [] == writes;
    if AttemptOutcome(notes, p, races.0).Raced? {
      var again := Prepare(notes1, p.edit);
      if again.Some? {
        PreparedKeepsEdit(notes1, p.edit);
        AttemptPublishes(notes1, again.value, races.1);
        InterfereConcat(notes, writes, AttemptWrites(notes1, again.value, races.1));
        hide Prepare, AttemptOutcome, AttemptNotes, AttemptWrites, Interfere, TransformedNote;
      }
    }
  }

  // The note an attempt would write is not as the projection found it, at the check or, for a new note, at
  // its publication.
  predicate SourceMoved(notes: Notes, p: Projection, race: Race) {
    var checked := Interfere(notes, race.beforeCheck);
    || (if p.edit.target in checked then p.source != Some(checked[p.edit.target]) else p.source.Some?)
    || (p.kind == Create && p.edit.target in Interfere(checked, race.beforeLink))
  }

  // A conflict is reported exactly when the note moved in both attempts, the second against a text read
  // after the first; a failure exactly for a failing write or a text that cannot be edited.
  lemma ConflictExact(notes: Notes, p: Projection, races: (Race, Race))
    ensures var outcome, notes1 := ApplyResult(notes, p, races).0, AttemptNotes(notes, p, races.0);
      var again := Prepare(notes1, p.edit);
      var raced := SourceMoved(notes, p, races.0) && !Faulty(p, races.0, AtTemp);
      var racedAgain := again.Some? && SourceMoved(notes1, again.value, races.1) && !Faulty(again.value, races.1, AtTemp);
      && (outcome.Conflict? <==> raced && racedAgain)
      && (outcome.Failed? <==>
            || Faulty(p, races.0, AtTemp) || (!raced && Faulty(p, races.0, AtPublish))
            || (raced && (again.None? || Faulty(again.value, races.1, AtTemp) || (!racedAgain && Faulty(again.value, races.1, AtPublish)))))
  {
    hide Prepare, Interfere, AttemptNotes;
  }

  predicate Faulty(p: Projection, race: Race, fault: Fault) { p.kind != Nothing && race.fault == fault }

  lemma PreparedKeepsEdit(notes: Notes, edit: LinkEdit)
    ensures Prepare(notes, edit).Some? ==> Prepare(notes, edit).value.edit == edit
  {
    hide Transform;
  }

  // ----- no lost update -----

  const QUIET := Race([], [], NoFault)

  // One link edit made directly on the notes.
  ghost function FoldStep(notes: Notes, edit: LinkEdit): Option<Notes> {
    if !ValidSlug(edit.slug) then None
    else if edit.target !in notes && edit.op == Remove then Some(notes)
    else
      var t := TransformedNote(notes, edit);
      if t.BadNote? then None
      else if edit.target in notes && !t.changed then Some(notes)
      else Some(notes[edit.target := t.text])
  }

  ghost function Fold(notes: Notes, edits: seq<LinkEdit>): Option<Notes>
    decreases |edits|
  {
    if |edits| == 0 then Some(notes)
    else
      var next := FoldStep(notes, edits[0]);
      if next.None? then None else Fold(next.value, edits[1..])
  }

  lemma {:induction false} FoldConcat(notes: Notes, a: seq<LinkEdit>, b: seq<LinkEdit>)
    ensures Fold(notes, a + b) == (var first := Fold(notes, a); if first.None? then None else Fold(first.value, b))
    decreases |a|
  {
    hide FoldStep;
    if |a| == 0 {
      assert a + b == b;
    } else {
      assert (a + b)[1..] == a[1..] + b;
      var next := FoldStep(notes, a[0]);
      if next.Some? { FoldConcat(next.value, a[1..], b); }
    }
  }

  lemma QuietAttempt(notes: Notes, p: Projection)
    ensures AttemptOutcome(notes, p, QUIET) == (if SourceMatches(notes, p) && !(p.kind == Create && p.edit.target in notes) then Ended(p.kind != Nothing) else Raced)
    ensures AttemptNotes(notes, p, QUIET) == (if AttemptOutcome(notes, p, QUIET) == Ended(true) then notes[p.edit.target := p.content] else notes)
  {
  }

  // A projection that still matches does exactly the fold step; and one just prepared matches.
  lemma MatchingIsFoldStep(snapshot: Notes, notes: Notes, p: Projection)
    requires Prepare(snapshot, p.edit) == Some(p) && SourceMatches(notes, p)
    ensures !(p.kind == Create && p.edit.target in notes)
    ensures FoldStep(notes, p.edit) == Some(if p.kind == Nothing then notes else notes[p.edit.target := p.content])
  {
    hide Transform;
  }

  lemma PreparedMatches(notes: Notes, edit: LinkEdit)
    ensures Prepare(notes, edit).None? <==> FoldStep(notes, edit).None?
    ensures Prepare(notes, edit).Some? ==> Prepare(notes, edit).value.edit == edit && SourceMatches(notes, Prepare(notes, edit).value)
  {
    hide Transform;
  }

  // With no outside writer a projection has the effect of its edit on the notes as they are now, however
  // old the snapshot it was prepared against: it is recomputed at most once and never a conflict.
  lemma QuietApplyIsFoldStep(snapshot: Notes, notes: Notes, p: Projection)
    requires Prepare(snapshot, p.edit) == Some(p)
    ensures var (outcome, after) := ApplyResult(notes, p, (QUIET, QUIET));
      && !outcome.Conflict?
      && (outcome.Failed? <==> FoldStep(notes, p.edit).None?)
      && after == (if outcome.Failed? then notes else FoldStep(notes, p.edit).value)
      && (outcome.Applied? ==> outcome.attempts == if SourceMatches(notes, p) then 1 else 2)
  {
    QuietAttempt(notes, p);
    if SourceMatches(notes, p) {
      MatchingIsFoldStep(snapshot, notes, p);
    } else {
      PreparedMatches(notes, p.edit);
      var again := Prepare(notes, p.edit);
      if again.Some? {
        MatchingIsFoldStep(notes, notes, again.value);
        QuietAttempt(notes, again.value);
      }
    }
    hide Prepare, AttemptOutcome, AttemptNotes, SourceMatches, FoldStep;
  }

  // A call reports a write exactly when it changes the notes, and it changes its target only.
  lemma QuietApplyWrites(snapshot: Notes, notes: Notes, p: Projection)
    requires Prepare(snapshot, p.edit) == Some(p)
    ensures var (outcome, after) := ApplyResult(notes, p, (QUIET, QUIET));
      && (outcome.Applied? <==> after != notes)
      && SameExcept(notes, after, if outcome.Applied? then [p.edit.target] else [])
  {
    QuietAttempt(notes, p);
    QuietAttemptWrites(notes, p);
    hide Prepare, AttemptOutcome, AttemptNotes, SourceMatches, SameExcept;
    if AttemptOutcome(notes, p, QUIET).Raced? {
      PreparedMatches(notes, p.edit);
      var again := Prepare(notes, p.edit);
      if again.Some? {
        QuietAttemptWrites(notes, again.value);
        KindWrites(notes, notes, again.value);
      }
    } else if SourceMatches(notes, p) {
      KindWrites(snapshot, notes, p);
    }
  }

  // A projection that creates or replaces a note brings another text.
  lemma KindWrites(snapshot: Notes, notes: Notes, p: Projection)
    requires Prepare(snapshot, p.edit) == Some(p) && SourceMatches(notes, p)
    ensures p.kind != Nothing ==> notes[p.edit.target := p.content] != notes
    ensures AttemptOutcome(notes, p, QUIET) == Ended(p.kind != Nothing)
    ensures AttemptNotes(notes, p, QUIET) == if p.kind == Nothing then notes else notes[p.edit.target := p.content]
  {
    hide Transform;
    QuietAttempt(notes, p);
    if p.kind == Replace {
      TransformChanged(p.edit.op, p.edit.slug, snapshot[p.edit.target]);
      assert notes[p.edit.target := p.content][p.edit.target] != notes[p.edit.target];
    }
  }

  lemma QuietAttemptWrites(notes: Notes, p: Projection)
    ensures AttemptOutcome(notes, p, QUIET) != Ended(true) ==> AttemptNotes(notes, p, QUIET) == notes
    ensures SameExcept(notes, AttemptNotes(notes, p, QUIET), if AttemptOutcome(notes, p, QUIET) == Ended(true) then [p.edit.target] else [])
  {
    QuietAttempt(notes, p);
    hide AttemptOutcome, AttemptNotes;
  }

  lemma FoldOneMore(notes: Notes, edits: seq<LinkEdit>, i: nat)
    requires i < |edits| && Fold(notes, edits[..i]).Some?
    ensures var next := FoldStep(Fold(notes, edits[..i]).value, edits[i]);
      && Fold(notes, edits[..i + 1]) == next
      && (next.None? ==> Fold(notes, edits).None?)
  {
    hide FoldStep;
    var sofar := Fold(notes, edits[..i]).value;
    assert edits[..i + 1] == edits[..i] + [edits[i]];
    FoldConcat(notes, edits[..i], [edits[i]]);
    assert [edits[i]][1..] == [];
    assert edits == edits[..i + 1] + edits[i + 1..];
    FoldConcat(notes, edits[..i + 1], edits[i + 1..]);
  }

  // One of the edits lo..hi changes the notes when the edits are made in order.
  ghost predicate Writes(start: Notes, edits: seq<LinkEdit>, lo: nat, hi: nat)
    requires hi <= |edits|
  {
    exists k | lo <= k < hi :: Fold(start, edits[..k]) != Fold(start, edits[..k + 1])
  }

  lemma NoWrites(start: Notes, edits: seq<LinkEdit>, lo: nat)
    requires lo <= |edits|
    ensures !Writes(start, edits, lo, lo)
  {
  }

  lemma WritesOneMore(start: Notes, edits: seq<LinkEdit>, lo: nat, i: nat)
    requires lo <= i < |edits|
    ensures Writes(start, edits, lo, i + 1) <==> Writes(start, edits, lo, i) || Fold(start, edits[..i]) != Fold(start, edits[..i + 1])
  {
    if Writes(start, edits, lo, i) {
      var k :| lo <= k < i && Fold(start, edits[..k]) != Fold(start, edits[..k + 1]);
      assert lo <= k < i + 1;
    }
  }

  // Edits that leave other notes than they found have made one of them.
  lemma {:induction false} ChangedIsWritten(start: Notes, edits: seq<LinkEdit>, lo: nat, hi: nat)
    requires lo <= hi <= |edits|
    requires Fold(start, edits[..lo]) != Fold(start, edits[..hi])
    ensures Writes(start, edits, lo, hi)
    decreases hi
  {
    hide Writes;
    if lo < hi {
      WritesOneMore(start, edits, lo, hi - 1);
      if Fold(start, edits[..hi - 1]) == Fold(start, edits[..hi]) { ChangedIsWritten(start, edits, lo, hi - 1); }
    }
  }
}
