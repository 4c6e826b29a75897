// One reconciliation cycle on real notes: plan, prepare every projection, apply, commit, record; and the
// finalization that follows.  Each operation is a step of the protocol whose runs ReconcileRuns is about.
module ReconcileStore {
  import opened Text
  import opened Sets
  import opened DailyFormat
  import opened Reconcile
  import opened Convergence
  import opened ReconcileRuns
  import opened Projection
  import opened NoteBodies
  import opened FrontmatterFence
  import opened NoteLinks
  import opened Batching
  import opened EditsApart

  // Where a cycle is cut: after some number of projections and before anything else, or before the
  // pending record is written.
  datatype Crash = NoCrash | AfterProjections(n: nat) | BeforeRecord

  // How many of the steps are carried out, and whether the cycle gets past the first n of them.
  function CutAt(crash: Crash, steps: nat): (cut: nat)
    ensures cut <= steps
  {
    if crash.AfterProjections? && crash.n < steps then crash.n else steps
  }

  predicate Passes(crash: Crash, n: nat) { crash.AfterProjections? ==> n < crash.n }

  datatype CycleOutcome = Refused | Interrupted(during: During) | Recorded(during: During)

  // What others do between the check of the task files and the reading of HEAD: commits before and after
  // the cycle's own (any of them for a first pass), and the task files they leave in the worktree.
  datatype Others = Others(before: seq<Tasks>, after: seq<Tasks>, tasks: Tasks)

  // The cycle's own commits repeat the task files of HEAD.
  function Own(history: seq<Tasks>, commits: nat): (r: seq<Tasks>)
    requires history != []
    ensures |r| == commits && Repeats(history, r)
  {
    seq(commits, i => history[|history| - 1])
  }

  // The text a missing note is created from.
  type NewNote = (Path, Date) -> string

  // It brings no links of its own.
  ghost predicate BlankNotes(newNote: NewNote) {
    forall path, date :: Safe(newNote(path, date)) && SlugsOf(newNote(path, date)) == {}
  }

  function EditOf(s: Step, newNote: NewNote): LinkEdit {
    LinkEdit(s.op, s.slug, s.target, newNote(s.target, s.date))
  }

  function EditsOf(steps: seq<Step>, newNote: NewNote): (edits: seq<LinkEdit>)
    ensures |edits| == |steps|
    ensures forall i | 0 <= i < |steps| :: edits[i] == EditOf(steps[i], newNote)
  {
    seq(|steps|, i requires 0 <= i < |steps| => EditOf(steps[i], newNote))
  }

  // ----- where the notes are while a plan is applied -----

  ghost predicate AllPrepared(start: Notes, edits: seq<LinkEdit>, projections: seq<Projection>) {
    && |projections| == |edits|
    && forall i | 0 <= i < |edits| :: projections[i].edit == edits[i] && Prepare(start, edits[i]) == Some(projections[i])
  }

  ghost predicate Applicable(start: Notes, steps: seq<Step>, edits: seq<LinkEdit>) {
    && AllSafe(start) && |edits| == |steps|
    && forall i | 0 <= i < |edits| :: Blank(edits[i]) && IsEditOf(edits[i], steps[i])
  }

  // The first k edits have been carried out.
  ghost predicate Reached(notes: Notes, start: Notes, edits: seq<LinkEdit>, k: nat) {
    k <= |edits| && Fold(start, edits[..k]) == Some(notes)
  }

  lemma ReachedStart(start: Notes, edits: seq<LinkEdit>)
    ensures Reached(start, start, edits, 0)
  {
  }

  lemma RangeSucceeds(notes: Notes, start: Notes, steps: seq<Step>, edits: seq<LinkEdit>, projections: seq<Projection>, lo: nat, hi: nat)
    requires Applicable(start, steps, edits) && AllPrepared(start, edits, projections)
    requires lo <= hi <= |edits| && Reached(notes, start, edits, lo)
    ensures Fold(notes, edits[lo..hi]).Some?
    ensures Reached(Fold(notes, edits[lo..hi]).value, start, edits, hi)
  {
    hide FoldStep, Prepare, AllSafe, Blank, IsEditOf, Fold;
    forall edit | edit in edits[..hi] ensures Blank(edit) && Prepare(start, edit).Some? {
      var i :| 0 <= i < hi && edits[i] == edit;
    }
    PreparedPlanSucceeds(start, edits[..hi]);
    assert edits[..hi] == edits[..lo] + edits[lo..hi];
    FoldConcat(start, edits[..lo], edits[lo..hi]);
  }

  // After the first k edits the links are what the first k steps make of them.
  lemma ReachedLinks(notes: Notes, start: Notes, steps: seq<Step>, edits: seq<LinkEdit>, k: nat)
    requires Applicable(start, steps, edits) && Reached(notes, start, edits, k)
    ensures AllSafe(notes) && LinksOf(notes) == ApplySteps(LinksOf(start), steps[..k])
  {
    hide FoldStep, AllSafe, Blank, IsEditOf, Fold, ApplySteps, LinksOf;
    FoldLinks(start, edits[..k], steps[..k]);
  }

  lemma PlanIsApplicable(start: Notes, steps: seq<Step>, newNote: NewNote)
    requires AllSafe(start) && BlankNotes(newNote)
    ensures Applicable(start, steps, EditsOf(steps, newNote))
  {
    hide AllSafe, Safe, SlugsOf;
  }

  // ----- batches as ranges of the plan -----

  function StepCount(batches: seq<seq<Step>>): nat
    decreases |batches|
  {
    if |batches| == 0 then 0 else StepCount(batches[..|batches| - 1]) + |batches[|batches| - 1]|
  }

  lemma {:induction false} FlattenLength(batches: seq<seq<Step>>)
    ensures |Flatten(batches)| == StepCount(batches)
    decreases |batches|
  {
    if |batches| > 0 { FlattenLength(batches[..|batches| - 1]); }
  }

  lemma {:induction false} FlattenPrefix(batches: seq<seq<Step>>, i: nat)
    requires i <= |batches|
    ensures Flatten(batches[..i]) <= Flatten(batches)
    ensures StepCount(batches[..i]) <= StepCount(batches)
    decreases |batches|
  {
    if i < |batches| {
      FlattenPrefix(batches[..|batches| - 1], i);
      assert batches[..|batches| - 1][..i] == batches[..i];
    } else {
      assert batches[..i] == batches;
    }
  }

  // Batch i is a range of the concatenated steps.
  lemma BatchRange(batches: seq<seq<Step>>, i: nat)
    requires i < |batches|
    ensures var lo, hi := StepCount(batches[..i]), StepCount(batches[..i]) + |batches[i]|;
      && hi == StepCount(batches[..i + 1]) && hi <= |Flatten(batches)|
      && Flatten(batches)[lo..hi] == batches[i]
  {
    hide Flatten, StepCount;
    FlattenPrefix(batches, i + 1);
    FlattenLength(batches);
    FlattenLength(batches[..i]);
    FlattenLength(batches[..i + 1]);
    FlattenLast(batches[..i + 1]);
    assert batches[..i + 1][..i] == batches[..i];
  }

  lemma FlattenLast(batches: seq<seq<Step>>)
    requires |batches| > 0
    ensures Flatten(batches) == Flatten(batches[..|batches| - 1]) + batches[|batches| - 1]
    ensures StepCount(batches) == StepCount(batches[..|batches| - 1]) + |batches[|batches| - 1]|
  {
  }

  // ----- the commits of a cycle -----

  // A batch is committed exactly when the cycle gets past it, it changes the notes, and what is staged
  // differs from HEAD.
  ghost predicate CommitsBatch(start: Notes, edits: seq<LinkEdit>, batches: seq<seq<Step>>, differs: nat -> bool, crash: Crash, b: nat) {
    && b < |batches|
    && var lo, hi := StepCount(batches[..b]), StepCount(batches[..b + 1]);
       lo <= hi <= |edits| && Fold(start, edits[..lo]) != Fold(start, edits[..hi]) && differs(b) && Passes(crash, hi)
  }

  ghost function Committed(start: Notes, edits: seq<LinkEdit>, batches: seq<seq<Step>>, differs: nat -> bool, crash: Crash, n: nat): set<nat> {
    set b: nat | b < n && CommitsBatch(start, edits, batches, differs, crash, b)
  }

  ghost function CommitCount(start: Notes, edits: seq<LinkEdit>, batches: seq<seq<Step>>, differs: nat -> bool, crash: Crash, n: nat): nat {
    |Committed(start, edits, batches, differs, crash, n)|
  }

  lemma CommittedIs(start: Notes, edits: seq<LinkEdit>, batches: seq<seq<Step>>, differs: nat -> bool, crash: Crash, n: nat, b: nat)
    ensures b in Committed(start, edits, batches, differs, crash, n) <==> b < n && CommitsBatch(start, edits, batches, differs, crash, b)
  {
    hide CommitsBatch;
  }

  lemma CountOneMore(start: Notes, edits: seq<LinkEdit>, batches: seq<seq<Step>>, differs: nat -> bool, crash: Crash, n: nat)
    requires n < |batches|
    ensures CommitCount(start, edits, batches, differs, crash, n + 1) ==
      CommitCount(start, edits, batches, differs, crash, n) + if CommitsBatch(start, edits, batches, differs, crash, n) then 1 else 0
  {
    hide CommitsBatch, Committed;
    var was, now := Committed(start, edits, batches, differs, crash, n), Committed(start, edits, batches, differs, crash, n + 1);
    var commits := CommitsBatch(start, edits, batches, differs, crash, n);
    forall b: nat ensures b in now <==> b in was || (b == n && commits) {
      CommittedIs(start, edits, batches, differs, crash, n, b);
      CommittedIs(start, edits, batches, differs, crash, n + 1, b);
    }
    CommittedIs(start, edits, batches, differs, crash, n, n);
    assert now == if commits then was + {n} else was;
  }

  lemma NoneCounted(start: Notes, edits: seq<LinkEdit>, batches: seq<seq<Step>>, differs: nat -> bool, crash: Crash)
    ensures CommitCount(start, edits, batches, differs, crash, 0) == 0
  {
    hide CommitsBatch;
  }

  // Past the cut nothing is committed.
  lemma {:induction false} CountStops(start: Notes, edits: seq<LinkEdit>, batches: seq<seq<Step>>, differs: nat -> bool, crash: Crash, i: nat, n: nat)
    requires i < n <= |batches| && !Passes(crash, StepCount(batches[..i + 1]))
    ensures CommitCount(start, edits, batches, differs, crash, n) == CommitCount(start, edits, batches, differs, crash, i)
    decreases n
  {
    hide StepCount, Fold, CommitCount;
    CountOneMore(start, edits, batches, differs, crash, n - 1);
    CountGrows(batches, i + 1, n);
    if i < n - 1 { CountStops(start, edits, batches, differs, crash, i, n - 1); }
  }

  lemma CountGrows(batches: seq<seq<Step>>, i: nat, n: nat)
    requires i <= n <= |batches|
    ensures StepCount(batches[..i]) <= StepCount(batches[..n])
  {
    FlattenPrefix(batches[..n], i);
    assert batches[..n][..i] == batches[..i];
  }

  // The commits a cycle makes itself: one for all of an established pass, one a batch in a first pass.
  ghost function OwnCommits(start: Notes, edits: seq<LinkEdit>, plan: seq<Step>, established: bool, differs: nat -> bool, crash: Crash): nat {
    var batches := if established then [plan] else Batches(plan);
    CommitCount(start, edits, batches, differs, crash, |batches|)
  }

  // An established pass makes one commit exactly when it gets through its steps, they leave other notes than
  // they found, and these differ from HEAD.
  lemma OneCommit(start: Notes, edits: seq<LinkEdit>, plan: seq<Step>, differs: nat -> bool, crash: Crash)
    requires |edits| == |plan|
    ensures OwnCommits(start, edits, plan, true, differs, crash) ==
      if Fold(start, edits) != Some(start) && differs(0) && Passes(crash, |plan|) then 1 else 0
  {
    FoldNothing(start, edits);
    hide Fold;
    var batches := [plan];
    assert batches[..0] == [] && batches[..1] == batches && batches[..1][..0] == [];
    CountOneMore(start, edits, batches, differs, crash, 0);
    NoneCounted(start, edits, batches, differs, crash);
    hide CommitCount;
    assert StepCount(batches[..0]) == 0 && StepCount(batches[..1]) == |plan|;
  }

  lemma FoldNothing(start: Notes, edits: seq<LinkEdit>)
    ensures Fold(start, edits[..0]) == Some(start) && edits[..|edits|] == edits
  {
  }

  // sorted(set(changed)), as a set
  function Staged(changed: seq<Path>): set<Path> { set t | t in changed }

  // HEAD is the recorded one, and the record is based on the cursor or already reached by it.
  predicate FinalizesAt(w: World)
    requires w.WellFormed()
  {
    && w.pending.Some? && w.pending.value.toHead == w.Head()
    && (w.cursor.Some? ==> w.cursor.value.reconciledHead in {w.pending.value.toHead, w.pending.value.fromHead})
  }

  class Store {
    const vault: Vault
    const profile: Profile
    var tasks: Tasks
    var history: seq<Tasks>
    var config: DailyNotesConfig
    var cursor: Option<Cursor>
    var pending: Option<Pending>

    constructor (vault: Vault, profile: Profile, tasks: Tasks, config: DailyNotesConfig)
      ensures this.vault == vault && this.profile == profile
      ensures WorldOf() == World([tasks], tasks, config, LinksOf(vault.notes), None, None)
    {
      this.vault, this.profile, this.tasks, this.config := vault, profile, tasks, config;
      history, cursor, pending := [tasks], None, None;
    }

    ghost function WorldOf(): World
      reads this, vault
    {
      World(history, tasks, config, LinksOf(vault.notes), cursor, pending)
    }

    ghost predicate Valid()
      reads this, vault
    {
      WorldOf().WellFormed() && AllSafe(vault.notes)
    }

    // The steps of this pass, or none when it must be refused.
    method Plan() returns (r: ComposeResult, ghost es: seq<Step>, ghost rs: seq<Step>)
      requires Valid()
      ensures WorldOf().ForeignPending() ==> !r.Composed?
      ensures r.Composed? ==> !WorldOf().ForeignPending() && es == r.ensureSteps && rs == r.removeSteps
      ensures r.Composed? ==> PlanFor(es, rs, WorldOf().Baseline(), tasks, WorldOf().PriorRouting(), config)
      ensures r.Composed? && cursor.Some? ==> |es + rs| <= MAX_TARGETS
      ensures r.Composed? && cursor.None? ==> rs == [] && Grouped(es)
      ensures !WorldOf().ForeignPending() ==>
        (r.Unroutable? <==> !Composable(profile, Nets(WorldOf().Baseline(), tasks), config, WorldOf().PriorRouting()))
      ensures !WorldOf().ForeignPending() && !r.Unroutable? ==>
        (r.TooManyTargets? <==> cursor.Some? && PlanCount(WorldOf().Baseline(), tasks, WorldOf().PriorRouting(), config) > MAX_TARGETS)
    {
      es, rs := [], [];
      var w := World(history, tasks, config, {}, cursor, pending);
      SameButLinks(w);
      hide *;
      if w.ForeignPending() { return ComposeResult.Unroutable, [], []; }
      r := ComposeReconcileSteps(profile, config, w.PriorRouting(), Nets(w.Baseline(), tasks), cursor.Some?);
      SizeDecides(r, w.Baseline(), tasks, w.PriorRouting(), config);
      if r.Composed? {
        es, rs := r.ensureSteps, r.removeSteps;
        StepsAre(r);
        PlanForIs(es, rs, w.Baseline(), tasks, w.PriorRouting(), config);
        if cursor.None? { BootstrapPlan(es, rs, tasks, config); }
      }
    }

    // Prepare a projection for every step against the notes as they are; None when one cannot be.
    method PrepareAll(steps: seq<Step>, newNote: NewNote) returns (r: Option<seq<Projection>>)
      ensures r.None? <==> exists edit | edit in EditsOf(steps, newNote) :: Prepare(vault.notes, edit).None?
      ensures r.Some? ==> AllPrepared(vault.notes, EditsOf(steps, newNote), r.value)
    {
      hide Prepare;
      var projections := [];
      var edits := EditsOf(steps, newNote);
      for i := 0 to |steps|
        invariant AllPrepared(vault.notes, edits[..i], projections)
      {
        assert edits[i] in edits;
        var projection := vault.PrepareDailyNoteProjection(edits[i]);
        PreparedKeepsEdit(vault.notes, edits[i]);
        if projection.None? { return None; }
        projections := projections + [projection.value];
      }
      assert edits[..|steps|] == edits;
      return Some(projections);
    }

    // Apply projections lo..hi of the plan; changed lists the notes written.
    method ApplyRange(projections: seq<Projection>, lo: nat, hi: nat, ghost start: Notes, ghost steps: seq<Step>, ghost edits: seq<LinkEdit>)
      returns (changed: seq<Path>)
      requires Applicable(start, steps, edits) && AllPrepared(start, edits, projections)
      requires lo <= hi <= |projections| && Reached(vault.notes, start, edits, lo) && AllApartAndReady(start, edits)
      modifies vault
      ensures Reached(vault.notes, start, edits, hi)
      ensures SameExcept(old(vault.notes), vault.notes, changed)
      ensures forall t | t in changed :: exists s | s in steps[lo..hi] :: s.target == t
      ensures changed != [] <==> Fold(start, edits[..lo]) != Fold(start, edits[..hi])
    {
      hide Prepare, Fold, SameExcept, AllSafe, Blank, Reached, Writes, AllApartAndReady, Ready;
      RangeSucceeds(vault.notes, start, steps, edits, projections, lo, hi);
      RangeWrites(vault.notes, start, edits, lo, hi);
      WritesExact(start, edits, lo, hi);
      var ok;
      ok, changed := vault.ApplyProjections(projections[lo..hi], start, edits[lo..hi]);
      TargetsOfEdits(steps, edits, lo, hi);
    }

    // Stage the changed notes and commit them, if they differ from HEAD.  The commit refuses more than
    // MAX_TARGETS notes; no cycle asks it to.
    method CommitNotes(changed: seq<Path>, differs: bool) returns (created: nat)
      requires history != [] && |Staged(changed)| <= MAX_TARGETS
      modifies this`history
      ensures created <= 1 && (created == 1 <==> changed != [] && differs)
      ensures history == old(history) + Own(old(history), created)
    {
      created := 0;
      if changed != [] && differs {
        history := history + [history[|history| - 1]];
        created := 1;
      }
    }

    // The established path: every projection, then one commit, whoever else commits around it.
    method ApplyOnce(projections: seq<Projection>, crash: Crash, differs: nat -> bool, others: Others, ghost start: Notes, ghost steps: seq<Step>, ghost edits: seq<LinkEdit>)
      returns (commits: nat)
      requires history != [] && start == vault.notes && |projections| <= MAX_TARGETS
      requires Applicable(start, steps, edits) && AllPrepared(start, edits, projections) && AllApartAndReady(start, edits)
      modifies this`history, vault
      ensures Reached(vault.notes, start, edits, CutAt(crash, |steps|))
      ensures commits == OwnCommits(start, edits, steps, true, differs, crash)
      ensures history == (old(history) + others.before) + Own(old(history) + others.before, commits) + others.after
    {
      hide *;
      ReachedStart(start, edits);
      OnePlanLength(start, steps, edits, projections);
      OneCommit(start, edits, steps, differs, crash);
      FoldNothing(start, edits);
      var cut := CutAt(crash, |projections|);
      var changed := ApplyRange(projections, 0, cut, start, steps, edits);
      StagedWithin(changed, steps[..cut]);
      FewTargets(steps[..cut]);
      assert steps[0..cut] == steps[..cut];
      CutIs(crash, |projections|);
      history := history + others.before;
      commits := 0;
      OwnIs(history, 0);
      if Passes(crash, |projections|) {
        commits := CommitNotes(changed, differs(0));
      }
      history := history + others.after;
    }

    // The bootstrap path: batch after batch, each with its own commit.
    method ApplyBatches(projections: seq<Projection>, batches: seq<seq<Step>>, crash: Crash, differs: nat -> bool,
                        ghost start: Notes, ghost steps: seq<Step>, ghost edits: seq<LinkEdit>)
      returns (commits: nat)
      requires history != [] && start == vault.notes
      requires Applicable(start, steps, edits) && AllPrepared(start, edits, projections) && AllApartAndReady(start, edits)
      requires batches == Batches(steps) && Flatten(batches) == steps
      modifies this`history, vault
      ensures Reached(vault.notes, start, edits, CutAt(crash, |steps|))
      ensures commits == OwnCommits(start, edits, steps, false, differs, crash)
      ensures history == old(history) + Own(old(history), commits)
    {
      hide *;
      ReachedStart(start, edits);
      OwnIs(history, 0);
      PlanLengths(start, steps, edits, projections, batches);
      OwnInBatches(start, edits, steps, batches, differs, crash);
      NoneCounted(start, edits, batches, differs, crash);
      var cut := CutAt(crash, |projections|);
      commits := 0;
      var done := 0;
      for i := 0 to |batches|
        invariant history != [] && done == StepCount(batches[..i]) <= cut
        invariant Reached(vault.notes, start, edits, done)
        invariant history == old(history) + Own(old(history), commits)
        invariant commits == CommitCount(start, edits, batches, differs, crash, i)
      {
        var hi := done + |batches[i]|;
        BatchRange(batches, i);
        CutOff(crash, |projections|, hi);
        var changed := ApplyRange(projections, done, if cut < hi then cut else hi, start, steps, edits);
        if !Passes(crash, hi) {
          CountStops(start, edits, batches, differs, crash, i, |batches|);
          return;
        }
        StagedWithin(changed, batches[i]);
        BatchTargets(steps, i);
        CountOneMore(start, edits, batches, differs, crash, i);
        CommitsIs(start, edits, batches, differs, crash, i);
        var created := CommitNotes(changed, differs(i));
        OwnAdd(old(history), commits, created);
        commits := commits + created;
        done := hi;
      }
      assert batches[..|batches|] == batches;
    }

    // Exactly when a cycle refuses: the pending record belongs to neither head nor base of the cursor, some
    // day does not resolve outside the task folders, the plan is over the bound of an established pass, or
    // some edit cannot be made on the notes as they are.
    ghost predicate MustRefuse(plan: seq<Step>, newNote: NewNote)
      reads this, vault
      requires Valid()
    {
      || (cursor.Some? && pending.Some? && cursor.value.reconciledHead !in {pending.value.fromHead, pending.value.toHead})
      || !Composable(profile, Nets(WorldOf().Baseline(), tasks), config, WorldOf().PriorRouting())
      || (cursor.Some? && |plan| > MAX_TARGETS)
      || exists edit | edit in EditsOf(plan, newNote) :: !Ready(vault.notes, edit)
    }

    // Plan the pass and prepare every projection.
    method PrepareCycle(newNote: NewNote) returns (r: Option<seq<Projection>>, steps: seq<Step>, ghost es: seq<Step>, ghost rs: seq<Step>)
      requires Valid()
      ensures PlanFor(es, rs, WorldOf().Baseline(), tasks, WorldOf().PriorRouting(), config)
      ensures r.None? <==> MustRefuse(es + rs, newNote)
      ensures r.Some? ==> steps == es + rs && AllPrepared(vault.notes, EditsOf(steps, newNote), r.value) && !WorldOf().ForeignPending()
      ensures r.Some? && cursor.Some? ==> |steps| <= MAX_TARGETS
      ensures r.Some? && cursor.None? ==> rs == [] && Grouped(es)
    {
      hide *;
      ghost var w := WorldOf();
      StateIsValid();
      ForeignIs();
      steps := [];
      es, rs := PlanExists(w.Baseline(), tasks, w.PriorRouting(), config);
      PlanCountIs(es, rs, w.Baseline(), tasks, w.PriorRouting(), config);
      MustRefuseIs(es + rs, newNote);
      var composed, es1, rs1 := Plan();
      if !composed.Composed? { return None, steps, es, rs; }
      PlanUnique(es, rs, es1, rs1, w.Baseline(), tasks, w.PriorRouting(), config);
      steps := composed.ensureSteps + composed.removeSteps;
      AllReady(vault.notes, EditsOf(steps, newNote));
      r := PrepareAll(steps, newNote);
    }

    lemma MustRefuseIs(plan: seq<Step>, newNote: NewNote)
      requires Valid()
      ensures MustRefuse(plan, newNote) <==>
        || (cursor.Some? && pending.Some? && cursor.value.reconciledHead !in {pending.value.fromHead, pending.value.toHead})
        || !Composable(profile, Nets(WorldOf().Baseline(), tasks), config, WorldOf().PriorRouting())
        || (cursor.Some? && |plan| > MAX_TARGETS)
        || exists edit | edit in EditsOf(plan, newNote) :: !Ready(vault.notes, edit)
    {
      hide Composable, Ready, LinksOf, AllSafe, Nets;
    }

    // Carry out the steps and commit them.
    method ApplyCycle(projections: seq<Projection>, steps: seq<Step>, differs: nat -> bool, crash: Crash, others: Others, ghost edits: seq<LinkEdit>)
      returns (appended: seq<Tasks>)
      requires history != [] && Applicable(vault.notes, steps, edits) && AllPrepared(vault.notes, edits, projections)
      requires AllApartAndReady(vault.notes, edits)
      requires cursor.Some? ==> |steps| <= MAX_TARGETS
      requires cursor.None? ==> Grouped(steps)
      modifies this`history, vault
      ensures Reached(vault.notes, old(vault.notes), edits, CutAt(crash, |steps|))
      ensures history == old(history) + appended
      ensures Appended(old(history), appended, OwnCommits(old(vault.notes), edits, steps, cursor.Some?, differs, crash), cursor.Some?, others)
      ensures cursor.Some? && crash.NoCrash? ==>
        var was := old(history) + others.before;
        history == was + (if vault.notes != old(vault.notes) && differs(0) then [was[|was| - 1]] else []) + others.after
    {
      hide *;
      ghost var start := vault.notes;
      var was := history;
      OnePlanLength(start, steps, edits, projections);
      if cursor.None? {
        BatchesConcatenate(steps);
        var batches := BatchReconcileTransitions(steps);
        var commits := ApplyBatches(projections, batches, crash, differs, start, steps, edits);
        appended := Own(was, commits) + (others.before + others.after);
        OwnRepeats(was, commits, others);
        AppendedIs(was, commits, others);
        history := history + (others.before + others.after);
      } else {
        var commits := ApplyOnce(projections, crash, differs, others, start, steps, edits);
        appended := others.before + Own(was + others.before, commits) + others.after;
        EstablishedCommit(start, vault.notes, edits, steps, differs, crash, was, others, commits);
        AppendedIs(was, commits, others);
      }
    }

    // One cycle.  It refuses before any write, or carries out the plan up to where it is cut.  A first pass
    // that meets anyone else's commit or task change is not recorded.
    method ReconcileCycle(newNote: NewNote, differs: nat -> bool, crash: Crash, others: Others)
      returns (r: CycleOutcome, ghost es: seq<Step>, ghost rs: seq<Step>)
      requires Valid() && BlankNotes(newNote)
      modifies this`history, this`tasks, this`pending, vault
      ensures Valid()
      // the one plan of this state; a refusal touches nothing
      ensures PlanFor(es, rs, old(WorldOf()).Baseline(), old(tasks), old(WorldOf()).PriorRouting(), old(config))
      ensures r.Refused? <==> old(MustRefuse(es + rs, newNote))
      ensures r.Refused? ==> WorldOf() == old(WorldOf()) && vault.notes == old(vault.notes)
      // the notes it leaves, and every commit
      ensures !r.Refused? ==> Reached(vault.notes, old(vault.notes), EditsOf(es + rs, newNote), CutAt(crash, |es + rs|))
      ensures !r.Refused? ==> history == old(history) + r.during.appended && r.during.cut == CutAt(crash, |es + rs|)
      ensures !r.Refused? ==>
        var own := OwnCommits(old(vault.notes), EditsOf(es + rs, newNote), es + rs, old(cursor).Some?, differs, crash);
        Appended(old(history), r.during.appended, own, old(cursor).Some?, others)
      ensures !r.Refused? && old(cursor).Some? && crash.NoCrash? ==>
        var was := old(history) + others.before;
        was != [] && history == was + (if vault.notes != old(vault.notes) && differs(0) then [was[|was| - 1]] else []) + others.after
      // its record
      ensures r.Recorded? <==> !r.Refused? && crash.NoCrash? && (old(cursor).Some? || Undisturbed(old(tasks), others))
      ensures r.Recorded? ==>
        pending == Some(Pending(if old(cursor).Some? then old(cursor).value.reconciledHead else |old(history)| - 1, |history| - 1, old(config)))
      ensures !r.Recorded? ==> pending == old(pending)
      // it is a step of the protocol
      ensures !r.Refused? ==> AttemptStep(old(WorldOf()), r.during, WorldOf()) && (r.during.published <==> r.Recorded?)
      ensures !r.Refused? ==> r.during.tasks == others.tasks && r.during.config == old(config)
    {
      hide *;
      ghost var before := WorldOf();
      StateIsValid();
      var prepared, steps;
      prepared, steps, es, rs := PrepareCycle(newNote);
      if prepared.None? { return CycleOutcome.Refused, es, rs; }
      ghost var start, edits := vault.notes, EditsOf(steps, newNote);
      PlanIsApplicable(start, steps, newNote);
      PlanPairs(es, rs, before.Baseline(), tasks, before.PriorRouting(), config);
      PlanIsApart(start, steps, edits, prepared.value);
      var fromHead := if cursor.None? then |history| - 1 else cursor.value.reconciledHead;
      var undisturbed := others.before == [] && others.after == [] && others.tasks == tasks;
      UndisturbedIs(tasks, others);
      assert rs == [] ==> es + rs == es;
      var appended := ApplyCycle(prepared.value, steps, differs, crash, others, edits);
      tasks := others.tasks;
      var published := crash.NoCrash? && (cursor.Some? || undisturbed);
      if published {
        pending := Some(Pending(fromHead, |history| - 1, config));
      }
      var during := During(CutAt(crash, |steps|), appended, tasks, config, published);
      r := if published then Recorded(during) else Interrupted(during);
      CutIs(crash, |steps|);
      ReachedLinks(vault.notes, start, steps, edits, during.cut);
      FirstPassRepeats(before.history, appended, OwnCommits(start, edits, steps, cursor.Some?, differs, crash), others);
      IsAttempt(before, es, rs, during);
    }

    // Advance the cursor after a successful sync, with the configuration the caller supplies.
    method FinalizeDailyLinks(syncSucceeded: bool, supplied: DailyNotesConfig, crashAfterCursor: bool) returns (ok: bool)
      requires Valid()
      modifies this`cursor, this`pending
      ensures Valid()
      ensures WorldOf() == FinalizeStep(old(WorldOf()), syncSucceeded, supplied, crashAfterCursor)
      ensures ok <==> FinalizeDecision(old(WorldOf()), syncSucceeded, supplied) != FinalizeOutcome.Refused
    {
      hide LinksOf, AllSafe;
      if !syncSucceeded || pending.None? || |history| - 1 != pending.value.toHead { return false; }
      if cursor.Some? && cursor.value.reconciledHead == pending.value.toHead {
        pending := None;
        return true;
      }
      if cursor.Some? && pending.value.fromHead != cursor.value.reconciledHead { return false; }
      if pending.value.routing != supplied { return false; }
      cursor := Some(Cursor(pending.value.toHead, supplied));
      if !crashAfterCursor { pending := None; }
      return true;
    }

    // The command line's second phase: the configuration is the one the pending record pins, whatever
    // the configuration says by then, so it refuses only for a moved HEAD or a foreign base.
    method RunFinalize(crashAfterCursor: bool) returns (ok: bool)
      requires Valid()
      modifies this`cursor, this`pending
      ensures Valid()
      ensures !ok ==> WorldOf() == old(WorldOf())
      ensures old(pending).Some? ==> WorldOf() == FinalizeStep(old(WorldOf()), true, old(pending).value.routing, crashAfterCursor)
      ensures ok <==> FinalizesAt(old(WorldOf()))
    {
      hide LinksOf, AllSafe;
      if pending.None? { return false; }
      ok := FinalizeDailyLinks(true, pending.value.routing, crashAfterCursor);
    }

    ghost predicate SameStateAs(w: World)
      reads this
    {
      w.history == history && w.tasks == tasks && w.config == config && w.cursor == cursor && w.pending == pending
    }

    lemma SameButLinks(w: World)
      requires Valid() && SameStateAs(w)
      ensures w.WellFormed() && w.ForeignPending() == WorldOf().ForeignPending()
      ensures w.PriorRouting() == WorldOf().PriorRouting() && w.Baseline() == WorldOf().Baseline()
      ensures cursor.None? ==> w.PriorRouting() == None && w.Baseline() == map[]
    {
      hide LinksOf, AllSafe;
    }

    lemma ForeignIs()
      requires Valid()
      ensures WorldOf().ForeignPending() <==>
        cursor.Some? && pending.Some? && cursor.value.reconciledHead !in {pending.value.fromHead, pending.value.toHead}
    {
      hide LinksOf, AllSafe;
    }

    lemma StateIsValid()
      requires Valid()
      ensures history != [] && AllSafe(vault.notes)
      ensures WorldOf().history == history && WorldOf().links == LinksOf(vault.notes) && WorldOf().config == config
      ensures WorldOf().tasks == tasks && WorldOf().cursor == cursor && WorldOf().pending == pending
      ensures WorldOf().WellFormed()
      ensures WorldOf().FromHead() == if cursor.None? then |history| - 1 else cursor.value.reconciledHead
    {
      hide AllSafe, LinksOf;
    }

    // What a cycle leaves behind is an attempt from the state it started in.
    lemma IsAttempt(before: World, es: seq<Step>, rs: seq<Step>, d: During)
      requires before.WellFormed() && !before.ForeignPending()
      requires PlanFor(es, rs, before.Baseline(), before.tasks, before.PriorRouting(), before.config)
      requires d.cut <= |es + rs| && (d.published ==> d.cut == |es + rs|)
      requires d.published && before.cursor.None? ==> Repeats(before.history, d.appended) && d.tasks == before.tasks
      requires AllSafe(vault.notes) && LinksOf(vault.notes) == ApplySteps(before.links, (es + rs)[..d.cut])
      requires history == before.history + d.appended
      requires tasks == d.tasks && config == d.config && config == before.config && cursor == before.cursor
      requires pending == if d.published then Some(Pending(before.FromHead(), |history| - 1, config)) else before.pending
      ensures Valid() && AttemptStep(before, d, WorldOf())
    {
      hide LinksOf, AllSafe, ApplySteps, PlanFor;
      assert AttemptWith(before, es, rs, d, WorldOf());
    }
  }

  // Nobody else commits or changes a task file.
  predicate Undisturbed(tasks: Tasks, others: Others) {
    others.before == [] && others.after == [] && others.tasks == tasks
  }

  // The commits of a cycle: its own after what others put before them, or, in a first pass, before anyone
  // else's.
  ghost predicate Appended(history: seq<Tasks>, appended: seq<Tasks>, own: nat, established: bool, others: Others)
    requires history != []
  {
    appended == if established then others.before + Own(history + others.before, own) + others.after
                else Own(history, own) + (others.before + others.after)
  }

  lemma AppendedIs(history: seq<Tasks>, own: nat, others: Others)
    requires history != []
    ensures Appended(history, others.before + Own(history + others.before, own) + others.after, own, true, others)
    ensures Appended(history, Own(history, own) + (others.before + others.after), own, false, others)
  {
  }

  // In a first pass without anyone else, every commit repeats HEAD's task files.
  lemma FirstPassRepeats(history: seq<Tasks>, appended: seq<Tasks>, own: nat, others: Others)
    requires history != []
    ensures Appended(history, appended, own, false, others) && others.before == [] && others.after == [] ==> Repeats(history, appended)
  {
    OwnRepeats(history, own, others);
    hide Own;
  }

  lemma UndisturbedIs(tasks: Tasks, others: Others)
    ensures Undisturbed(tasks, others) <==> others.before == [] && others.after == [] && others.tasks == tasks
  {
  }

  // The size of the plan for a change of tasks and routing.
  ghost function PlanCount(was: Tasks, now: Tasks, prior: Option<DailyNotesConfig>, config: DailyNotesConfig): nat {
    |Gaining(was, now, prior, config)| + |Losing(was, now, prior, config)|
  }

  lemma SizeDecides(r: ComposeResult, was: Tasks, now: Tasks, prior: Option<DailyNotesConfig>, config: DailyNotesConfig)
    ensures r.Composed? && IsPlan(r.ensureSteps, r.removeSteps, Nets(was, now), config, prior) ==>
      |r.Steps()| == PlanCount(was, now, prior, config)
    ensures (exists es, rs :: IsPlan(es, rs, Nets(was, now), config, prior) && |es + rs| > MAX_TARGETS) ==>
      PlanCount(was, now, prior, config) > MAX_TARGETS
  {
    hide IsPlan, Gaining, Losing;
    if r.Composed? && IsPlan(r.ensureSteps, r.removeSteps, Nets(was, now), config, prior) {
      PlanSizeExact(r.ensureSteps, r.removeSteps, was, now, prior, config);
    }
    if es, rs :| IsPlan(es, rs, Nets(was, now), config, prior) && |es + rs| > MAX_TARGETS {
      PlanSizeExact(es, rs, was, now, prior, config);
    }
  }

  // A range of the edits writes on the notes it starts from what it writes in the whole.
  lemma RangeWrites(notes: Notes, start: Notes, edits: seq<LinkEdit>, lo: nat, hi: nat)
    requires lo <= hi <= |edits| && Reached(notes, start, edits, lo)
    ensures |edits[lo..hi]| == hi - lo
    ensures Writes(notes, edits[lo..hi], 0, hi - lo) <==> Writes(start, edits, lo, hi)
  {
    hide Fold;
    var part := edits[lo..hi];
    forall k: nat | k <= hi - lo ensures Fold(notes, part[..k]) == Fold(start, edits[..lo + k]) {
      assert edits[..lo + k] == edits[..lo] + part[..k];
      FoldConcat(start, edits[..lo], part[..k]);
    }
    if k :| lo <= k < hi && Fold(start, edits[..k]) != Fold(start, edits[..k + 1]) {
      assert lo + (k - lo) == k && lo + (k - lo + 1) == k + 1;
      assert Fold(notes, part[..k - lo]) != Fold(notes, part[..k - lo + 1]);
    }
    if k :| 0 <= k < hi - lo && Fold(notes, part[..k]) != Fold(notes, part[..k + 1]) {
      assert lo + (k + 1) == (lo + k) + 1;
      assert Fold(start, edits[..lo + k]) != Fold(start, edits[..(lo + k) + 1]);
    }
  }

  lemma CutIs(crash: Crash, n: nat)
    ensures Passes(crash, n) ==> CutAt(crash, n) == n
    ensures crash.NoCrash? ==> Passes(crash, n)
  {
  }

  lemma CutOff(crash: Crash, n: nat, hi: nat)
    requires hi <= n
    ensures if Passes(crash, hi) then hi <= CutAt(crash, n) else CutAt(crash, n) <= hi
  {
  }

  lemma OwnInBatches(start: Notes, edits: seq<LinkEdit>, plan: seq<Step>, batches: seq<seq<Step>>, differs: nat -> bool, crash: Crash)
    requires batches == Batches(plan)
    ensures OwnCommits(start, edits, plan, false, differs, crash) == CommitCount(start, edits, batches, differs, crash, |batches|)
  {
    hide CommitCount, Batches;
  }

  lemma CommitsIs(start: Notes, edits: seq<LinkEdit>, batches: seq<seq<Step>>, differs: nat -> bool, crash: Crash, b: nat)
    requires b < |batches| && Passes(crash, StepCount(batches[..b + 1]))
    requires StepCount(batches[..b]) <= StepCount(batches[..b + 1]) <= |edits|
    ensures CommitsBatch(start, edits, batches, differs, crash, b) <==>
      Fold(start, edits[..StepCount(batches[..b])]) != Fold(start, edits[..StepCount(batches[..b + 1])]) && differs(b)
  {
    hide Fold, StepCount;
  }

  // The edits of a plan that could all be prepared: each pair once, and all of them ready.
  lemma PlanIsApart(start: Notes, steps: seq<Step>, edits: seq<LinkEdit>, projections: seq<Projection>)
    requires Applicable(start, steps, edits) && AllPrepared(start, edits, projections)
    requires forall i, j | 0 <= i < j < |steps| :: StepKey(steps[i]) != StepKey(steps[j])
    ensures AllApartAndReady(start, edits)
  {
    hide AllSafe, Blank, Ready, Prepare;
    forall edit | edit in edits ensures Blank(edit) && Ready(start, edit) {
      var i :| 0 <= i < |edits| && edits[i] == edit;
      ReadyIs(start, edit);
    }
    forall i, j | 0 <= i < j < |edits| ensures (edits[i].target, edits[i].slug) != (edits[j].target, edits[j].slug) {
      assert IsEditOf(edits[i], steps[i]) && IsEditOf(edits[j], steps[j]);
    }
  }

  lemma AllReady(start: Notes, edits: seq<LinkEdit>)
    ensures (exists edit | edit in edits :: Prepare(start, edit).None?) <==> (exists edit | edit in edits :: !Ready(start, edit))
  {
    hide Prepare, Ready;
    forall edit: LinkEdit ensures Ready(start, edit) <==> Prepare(start, edit).Some? { ReadyIs(start, edit); }
  }

  lemma PlanCountIs(es: seq<Step>, rs: seq<Step>, was: Tasks, now: Tasks, prior: Option<DailyNotesConfig>, config: DailyNotesConfig)
    requires PlanFor(es, rs, was, now, prior, config)
    ensures |es + rs| == PlanCount(was, now, prior, config)
  {
    hide PlanFor, Gaining, Losing;
    PlanSizeExact(es, rs, was, now, prior, config);
  }

  // What the commits of an established pass make of the history.
  lemma EstablishedCommit(start: Notes, notes: Notes, edits: seq<LinkEdit>, plan: seq<Step>, differs: nat -> bool, crash: Crash,
                          history: seq<Tasks>, others: Others, commits: nat)
    requires history != [] && |edits| == |plan| && Reached(notes, start, edits, CutAt(crash, |plan|))
    requires commits == OwnCommits(start, edits, plan, true, differs, crash)
    ensures var was := history + others.before;
      && was + Own(was, commits) + others.after == history + (others.before + Own(was, commits) + others.after)
      && (crash.NoCrash? ==>
            was + Own(was, commits) + others.after == was + (if notes != start && differs(0) then [was[|was| - 1]] else []) + others.after)
  {
    hide Fold, OwnCommits;
    OneCommit(start, edits, plan, differs, crash);
    CutIs(crash, |plan|);
    assert edits[..|edits|] == edits;
    OwnIs(history + others.before, commits);
  }

  lemma TargetsOfEdits(steps: seq<Step>, edits: seq<LinkEdit>, lo: nat, hi: nat)
    requires |edits| == |steps| && lo <= hi <= |edits|
    requires forall i | 0 <= i < |edits| :: IsEditOf(edits[i], steps[i])
    ensures forall edit | edit in edits[lo..hi] :: exists s | s in steps[lo..hi] :: s.target == edit.target
  {
    forall edit | edit in edits[lo..hi] ensures exists s | s in steps[lo..hi] :: s.target == edit.target {
      var i :| 0 <= i < hi - lo && edits[lo..hi][i] == edit;
      assert IsEditOf(edits[lo + i], steps[lo + i]) && steps[lo..hi][i] in steps[lo..hi];
    }
  }

  lemma PlanLengths(start: Notes, steps: seq<Step>, edits: seq<LinkEdit>, projections: seq<Projection>, batches: seq<seq<Step>>)
    requires Applicable(start, steps, edits) && AllPrepared(start, edits, projections) && Flatten(batches) == steps
    ensures |projections| == |steps| == |edits| == StepCount(batches) && StepCount([]) == 0
  {
    hide Prepare, AllSafe, Blank, Flatten;
    FlattenLength(batches);
  }

  lemma OnePlanLength(start: Notes, steps: seq<Step>, edits: seq<LinkEdit>, projections: seq<Projection>)
    requires Applicable(start, steps, edits) && AllPrepared(start, edits, projections)
    ensures |projections| == |steps| == |edits|
  {
    hide Prepare, AllSafe, Blank;
  }

  // What is staged for some steps are targets of theirs.
  lemma StagedWithin(changed: seq<Path>, steps: seq<Step>)
    requires forall t | t in changed :: exists s | s in steps :: s.target == t
    ensures |Staged(changed)| <= |TargetSet(steps)|
  {
    SubsetSize(Staged(changed), TargetSet(steps));
  }

  lemma {:induction false} FewTargets(steps: seq<Step>)
    ensures |TargetSet(steps)| <= |steps|
    decreases |steps|
  {
    if |steps| > 0 {
      FewTargets(steps[1..]);
      assert forall s :: s in steps <==> s == steps[0] || s in steps[1..];
      assert TargetSet(steps) == {steps[0].target} + TargetSet(steps[1..]);
    }
  }

  lemma OwnIs(history: seq<Tasks>, commits: nat)
    requires history != []
    ensures commits == 0 ==> Own(history, commits) == [] && history + Own(history, commits) == history
    ensures commits == 1 ==> Own(history, commits) == [history[|history| - 1]]
  {
  }

  lemma OwnAdd(history: seq<Tasks>, a: nat, b: nat)
    requires history != []
    ensures history + Own(history, a) != []
    ensures (history + Own(history, a)) + Own(history + Own(history, a), b) == history + Own(history, a + b)
  {
  }

  lemma OwnRepeats(history: seq<Tasks>, commits: nat, others: Others)
    requires history != []
    ensures others.before == [] && others.after == [] ==> Repeats(history, Own(history, commits) + (others.before + others.after))
    ensures (history + Own(history, commits)) + (others.before + others.after) == history + (Own(history, commits) + (others.before + others.after))
  {
  }

  lemma StepsAre(r: ComposeResult)
    requires r.Composed?
    ensures r.Steps() == r.ensureSteps + r.removeSteps
  {
  }

  lemma PlanForIs(es: seq<Step>, rs: seq<Step>, was: Tasks, now: Tasks, prior: Option<DailyNotesConfig>, config: DailyNotesConfig)
    requires IsPlan(es, rs, Nets(was, now), config, prior)
    ensures PlanFor(es, rs, was, now, prior, config)
  {
    hide IsPlan, Nets;
  }

  // A first pass only ensures, and steps of one note stand together.
  lemma BootstrapPlan(es: seq<Step>, rs: seq<Step>, now: Tasks, config: DailyNotesConfig)
    requires PlanFor(es, rs, map[], now, None, config)
    ensures rs == [] && Grouped(es)
  {
    hide AskedFor, Keys, Nets, Grouped, SortedSteps;
    SortedIsGrouped(es);
    if |rs| > 0 {
      var key := StepKey(rs[0]);
      assert key in Keys(rs) by { KeyOfStep(rs); }
      PlanKeys(es, rs, map[], now, None, config, key.0, key.1);
    }
  }

  lemma KeyOfStep(steps: seq<Step>)
    requires |steps| > 0
    ensures StepKey(steps[0]) in Keys(steps)
  {
    assert steps[0] in steps;
  }
}
