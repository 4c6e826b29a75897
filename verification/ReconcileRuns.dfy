// The cursor/pending protocol over whole runs: reconcile attempts cut at any point, retries, other
// committers at any moment, the engine's own link writes, and finalization interrupted between its writes.
module ReconcileRuns {
  import opened Text
  import opened DailyFormat
  import opened Reconcile
  import opened Convergence

  // A commit is its position in the vault's history; HEAD is the last one.
  type Commit = nat

  datatype Cursor = Cursor(reconciledHead: Commit, routing: DailyNotesConfig)
  datatype Pending = Pending(fromHead: Commit, toHead: Commit, routing: DailyNotesConfig)

  // history holds the task files of every commit; tasks and config are the worktree's.
  datatype World = World(history: seq<Tasks>, tasks: Tasks, config: DailyNotesConfig, links: Links,
                         cursor: Option<Cursor>, pending: Option<Pending>) {
    function Head(): Commit
      requires history != []
    {
      |history| - 1
    }

    predicate WellFormed() {
      && history != []
      && (cursor.Some? ==> cursor.value.reconciledHead < |history|)
      && (pending.Some? ==> pending.value.fromHead < |history| && pending.value.toHead < |history|)
    }

    // The pending record belongs to neither the cursor's head nor its base: prepare refuses.
    predicate ForeignPending() {
      && cursor.Some? && pending.Some?
      && pending.value.fromHead != cursor.value.reconciledHead && pending.value.toHead != cursor.value.reconciledHead
    }

    // Old links are looked up at the pending record's routing when there is one, else the cursor's.
    function PriorRouting(): Option<DailyNotesConfig> {
      if cursor.None? then None else if pending.Some? then Some(pending.value.routing) else Some(cursor.value.routing)
    }

    // The task states the worktree is compared against: those of the cursor's commit.
    function Baseline(): Tasks
      requires WellFormed()
    {
      if cursor.None? then map[] else history[cursor.value.reconciledHead]
    }

    function FromHead(): Commit
      requires WellFormed()
    {
      if cursor.None? then Head() else cursor.value.reconciledHead
    }
  }

  // ----- the steps of a run -----

  // During an attempt: how many steps are carried out, the commits that follow HEAD until HEAD is read
  // again (the attempt's own, which repeat HEAD's task files, and anyone's), the task files and the
  // configuration in the worktree by then, and whether the pending record was written.
  datatype During = During(cut: nat, appended: seq<Tasks>, tasks: Tasks, config: DailyNotesConfig, published: bool)

  datatype Event =
    | EditTasks(tasks: Tasks)
    | EditConfig(config: DailyNotesConfig)
    | OutsideCommit
    | EngineEdit(slug: Slug, state: Option<TaskState>, removed: bool)
    | Attempt(during: During)
    | Finalize(syncSucceeded: bool, config: DailyNotesConfig, crashAfterCursor: bool)

  // Commits that repeat the task files of HEAD.
  predicate Repeats(history: seq<Tasks>, appended: seq<Tasks>)
    requires history != []
  {
    forall tasks | tasks in appended :: tasks == history[|history| - 1]
  }

  // Prepare and apply, carried out up to some point: some of the steps, the commits, and only after all
  // steps the pending record.  Without a cursor the record is written only if nobody else committed or
  // changed a task file; with one, whatever HEAD has become is adopted.
  ghost predicate AttemptStep(w: World, d: During, w': World) {
    && w.WellFormed() && !w.ForeignPending()
    && exists es, rs :: PlanFor(es, rs, w.Baseline(), w.tasks, w.PriorRouting(), w.config) && AttemptWith(w, es, rs, d, w')
  }

  ghost predicate AttemptWith(w: World, es: seq<Step>, rs: seq<Step>, d: During, w': World)
    requires w.WellFormed()
  {
    && d.cut <= |es + rs| && (d.published ==> d.cut == |es + rs|)
    && (d.published && w.cursor.None? ==> Repeats(w.history, d.appended) && d.tasks == w.tasks)
    && var history := w.history + d.appended;
       w' == World(history, d.tasks, d.config, ApplySteps(w.links, (es + rs)[..d.cut]), w.cursor,
                   if d.published then Some(Pending(w.FromHead(), |history| - 1, w.config)) else w.pending)
  }

  // A mutation by the engine: the task file is committed, its new day's note linked, its old day's note
  // unlinked unless that fails.
  function EngineTasks(tasks: Tasks, slug: Slug, state: Option<TaskState>): Tasks {
    if state.Some? then tasks[slug := state.value] else tasks - {slug}
  }

  ghost function EngineLinks(w: World, slug: Slug, tasks: Tasks, removed: bool): Links {
    var source, target := NoteOf(Some(w.config), w.tasks, slug), NoteOf(Some(w.config), tasks, slug);
    (if removed && source.Some? then w.links - {(source.value, slug)} else w.links) + (if target.Some? then {(target.value, slug)} else {})
  }

  datatype FinalizeOutcome = Refused | Cleared | Advanced

  // What finalize decides, from the two files, HEAD and the caller's sync signal and configuration.
  function FinalizeDecision(w: World, syncSucceeded: bool, config: DailyNotesConfig): FinalizeOutcome
    requires w.WellFormed()
  {
    if !syncSucceeded || w.pending.None? || w.pending.value.toHead != w.Head() then Refused
    else if w.cursor.Some? && w.cursor.value.reconciledHead == w.pending.value.toHead then Cleared
    else if w.cursor.Some? && w.pending.value.fromHead != w.cursor.value.reconciledHead then Refused
    else if w.pending.value.routing != config then Refused
    else Advanced
  }

  function FinalizeStep(w: World, syncSucceeded: bool, config: DailyNotesConfig, crashAfterCursor: bool): World
    requires w.WellFormed()
  {
    match FinalizeDecision(w, syncSucceeded, config)
    case Refused => w
    case Cleared => w.(pending := None)
    case Advanced =>
      w.(cursor := Some(Cursor(w.pending.value.toHead, config)), pending := if crashAfterCursor then w.pending else None)
  }

  ghost predicate Next(w: World, e: Event, w': World) {
    && w.WellFormed()
    && match e
       case EditTasks(tasks) => w' == w.(tasks := tasks)
       case EditConfig(config) => w' == w.(config := config)
       case OutsideCommit => w' == w.(history := w.history + [w.tasks])
       case EngineEdit(slug, state, removed) =>
         var tasks := EngineTasks(w.tasks, slug, state);
         w' == w.(tasks := tasks, history := w.history + [tasks], links := EngineLinks(w, slug, tasks, removed))
       case Attempt(during) => AttemptStep(w, during, w')
       case Finalize(sync, config, crash) => w' == FinalizeStep(w, sync, config, crash)
  }

  // Neither file exists yet; the notes may already hold links.
  ghost predicate Initial(w: World) {
    w.history != [] && w.cursor.None? && w.pending.None?
  }

  ghost predicate Run(ws: seq<World>, events: seq<Event>) {
    && |ws| == |events| + 1 && Initial(ws[0])
    && forall i | 0 <= i < |events| :: Next(ws[i], events[i], ws[i + 1])
  }

  // ----- protocol safety: every run, whatever is edited, committed or interrupted -----

  lemma {:induction false} RunSafe(ws: seq<World>, events: seq<Event>, i: nat)
    requires Run(ws, events) && i < |ws|
    ensures ws[i].WellFormed() && !ws[i].ForeignPending()
  {
    hide NoteOf, ApplySteps, PlanFor;
    if i > 0 {
      RunSafe(ws, events, i - 1);
      assert Next(ws[i - 1], events[i - 1], ws[i]);
    }
  }

  // The cursor changes only in a finalization with a successful sync, and only to a recorded head that
  // is HEAD; a refused finalization changes neither file; and a finalization never meets a pending
  // record from another base.
  lemma CursorMovesOnlyToHead(ws: seq<World>, events: seq<Event>, i: nat)
    requires Run(ws, events) && i < |events|
    ensures ws[i].WellFormed()
    ensures ws[i + 1].cursor != ws[i].cursor ==>
      && events[i].Finalize? && events[i].syncSucceeded && ws[i].pending.Some?
      && ws[i + 1].cursor == Some(Cursor(ws[i].Head(), ws[i].pending.value.routing)) && ws[i].pending.value.toHead == ws[i].Head()
    ensures events[i].Finalize? && FinalizeDecision(ws[i], events[i].syncSucceeded, events[i].config) == Refused ==> ws[i + 1] == ws[i]
    ensures events[i].Finalize? && events[i].syncSucceeded && ws[i].pending.Some? && ws[i].pending.value.toHead == ws[i].Head()
              && events[i].config == ws[i].pending.value.routing ==>
      FinalizeDecision(ws[i], true, events[i].config) != Refused
  {
    hide NoteOf, ApplySteps, PlanFor;
    RunSafe(ws, events, i);
    assert Next(ws[i], events[i], ws[i + 1]);
  }

  // A crash between the cursor write and the clearing of the pending record is closed by finalizing
  // again, under any configuration, as long as HEAD has not moved.
  lemma CrashWindowCloses(w: World, config: DailyNotesConfig, again: DailyNotesConfig)
    requires w.WellFormed() && FinalizeDecision(w, true, config) == Advanced
    ensures var crashed := FinalizeStep(w, true, config, true);
      && crashed.WellFormed() && FinalizeDecision(crashed, true, again) == Cleared
      && FinalizeStep(crashed, true, again, false) == FinalizeStep(w, true, config, false)
  {
  }

  // ----- convergence over whole runs -----

  // Published: the last attempt wrote its pending record and it is not finalized.  Rerouted: neither, and
  // the configuration was changed since.
  datatype Phase = Open | Published | Rerouted

  function NextPhase(phase: Phase, w: World, e: Event): Phase
    requires w.WellFormed()
  {
    match e
    case Attempt(during) => if during.published then Published else phase
    case Finalize(sync, config, _) => if phase != Open && FinalizeDecision(w, sync, config) != Refused then Open else phase
    case EditConfig(_) => if phase == Open then Open else Rerouted
    case _ => phase
  }

  // The slug's links are where the baseline puts them.
  ghost predicate AtBaseline(w: World, slug: Slug)
    requires w.WellFormed()
  {
    LinkedExactly(w.links, slug, NoteOf(w.PriorRouting(), w.Baseline(), slug))
  }

  // A link held at one note can be taken up by a pass from an old note to a new one.
  predicate Reachable(was: Option<Path>, held: Option<Path>, now: Option<Path>) {
    held == was || held == now || (held.None? && (was.None? || now.None?))
  }

  // While a record waits: the slug's links are where the record has them, and a pass to its note under the
  // new configuration reaches them.
  ghost predicate Reroutes(w: World, config: DailyNotesConfig, slug: Slug)
    requires w.WellFormed()
  {
    && w.pending.Some?
    && var held := NoteOf(Some(w.pending.value.routing), w.tasks, slug);
       && LinkedExactly(w.links, slug, held)
       && Reachable(NoteOf(w.PriorRouting(), w.Baseline(), slug), held, NoteOf(Some(config), w.tasks, slug))
  }

  // The discipline under which runs converge.  While no record waits for finalization, anyone may edit
  // tasks and configuration, as long as every slug whose note this moves still has its links where the
  // baseline has them; the engine may write links too, completely or from a day the baseline has.  While
  // one waits, the configuration may change where a pass can take up every link this moves.  During
  // an attempt others may commit but not change task files or configuration.  A recorded cycle is
  // finalized with its task files committed, and not through the early return with a routing the cursor
  // does not have yet.
  ghost predicate Disciplined(phase: Phase, w: World, e: Event)
    requires w.WellFormed()
  {
    match e
    case EditTasks(tasks) =>
      phase == Open && forall slug: Slug :: NoteOf(Some(w.config), tasks, slug) == NoteOf(Some(w.config), w.tasks, slug) || AtBaseline(w, slug)
    case EditConfig(config) =>
      forall slug: Slug :: NoteOf(Some(config), w.tasks, slug) == NoteOf(Some(w.config), w.tasks, slug)
        || if phase == Open then AtBaseline(w, slug) else Reroutes(w, config, slug)
    case EngineEdit(slug, _, removed) =>
      phase == Open && (removed || NoteOf(Some(w.config), w.tasks, slug) == NoteOf(w.PriorRouting(), w.Baseline(), slug))
    case Attempt(during) => during.tasks == w.tasks && during.config == w.config
    case Finalize(sync, config, _) =>
      phase != Open && FinalizeDecision(w, sync, config) != Refused ==>
        && w.history[w.Head()] == w.tasks
        && (FinalizeDecision(w, sync, config) == Cleared && w.pending.Some? && w.cursor.Some? ==> w.pending.value.routing == w.cursor.value.routing)
    case _ => true
  }

  // The run starts with links only where the tasks put them.
  ghost predicate DisciplinedRun(ws: seq<World>, phases: seq<Phase>, events: seq<Event>) {
    && Run(ws, events) && |phases| == |ws| && phases[0] == Open
    && AllBetween(ws[0].links, map[], ws[0].tasks, None, ws[0].config)
    && forall i | 0 <= i < |events| ::
         ws[i].WellFormed() && Disciplined(phases[i], ws[i], events[i]) && phases[i + 1] == NextPhase(phases[i], ws[i], events[i])
  }

  // A pending record left over from a finished cycle says nothing the cursor does not say.
  predicate PendingStale(w: World) {
    w.cursor.Some? && w.pending.Some? ==>
      w.pending.value.toHead == w.cursor.value.reconciledHead && w.pending.value.routing == w.cursor.value.routing
  }

  ghost predicate Invariant(phase: Phase, w: World) {
    && w.WellFormed()
    && match phase
       case Open =>
         && (w.cursor.None? ==> w.pending.None?) && PendingStale(w)
         && AllBetween(w.links, w.Baseline(), w.tasks, w.PriorRouting(), w.config)
       case Published =>
         && w.pending.Some? && w.pending.value.routing == w.config
         && (w.cursor.Some? ==> w.pending.value.fromHead == w.cursor.value.reconciledHead)
         && Settled(w.links, w.tasks, w.config)
       case Rerouted =>
         && w.pending.Some? && (w.cursor.Some? ==> w.pending.value.fromHead == w.cursor.value.reconciledHead)
         && AllBetween(w.links, w.Baseline(), w.tasks, w.PriorRouting(), w.config)
         && AllBetween(w.links, w.tasks, w.tasks, Some(w.pending.value.routing), w.config)
  }

  // Links settled for the old tasks and routing lie between them and any new tasks and configuration.
  lemma SettledIsBetween(links: Links, was: Tasks, routing: DailyNotesConfig, now: Tasks, config: DailyNotesConfig)
    requires Settled(links, was, routing)
    ensures AllBetween(links, was, now, Some(routing), config)
  {
    hide NoteOf;
    forall slug: Slug ensures Between(links, slug, NoteOf(Some(routing), was, slug), NoteOf(Some(config), now, slug)) {
      var p := NoteOf(Some(routing), was, slug);
      assert LinkedExactly(links, slug, p);
      if p.Some? { assert (p.value, slug) in links; }
    }
  }

  // Settled links lie between any old notes and the new ones, and no part of a plan changes them.
  lemma SettledStays(links: Links, es: seq<Step>, rs: seq<Step>, was: Tasks, now: Tasks, prior: Option<DailyNotesConfig>, config: DailyNotesConfig, cut: nat)
    requires PlanFor(es, rs, was, now, prior, config) && Settled(links, now, config) && cut <= |es + rs|
    ensures ApplySteps(links, (es + rs)[..cut]) == links
  {
    hide ApplySteps, NoteOf, Moves, Keys, PlanFor;
    PlanOps(es, rs, was, now, prior, config);
    ApplyPrefix(links, es, rs, cut);
    forall t: Path, slug: Slug
      ensures (t, slug) in Keys(es) ==> (t, slug) in links
      ensures (t, slug) in Keys(rs) ==> (t, slug) !in links
    {
      PlanKeys(es, rs, was, now, prior, config, t, slug);
      assert LinkedExactly(links, slug, NoteOf(Some(config), now, slug));
    }
    assert Keys(es) <= links by { forall key | key in Keys(es) ensures key in links { assert (key.0, key.1) in Keys(es); } }
    assert links !! Keys(rs) by { forall key | key in Keys(rs) ensures key !in links { assert (key.0, key.1) in Keys(rs); } }
  }

  // A pass that is cut leaves every link between where it is held and where it goes, whatever the old
  // note of the pass.
  lemma PrefixStaysBetweenHeld(links: Links, es: seq<Step>, rs: seq<Step>, was: Tasks, now: Tasks, prior: Option<DailyNotesConfig>, config: DailyNotesConfig, held: Tasks, routing: DailyNotesConfig, k: nat)
    requires PlanFor(es, rs, was, now, prior, config) && AllBetween(links, held, now, Some(routing), config)
    requires k <= |es + rs|
    ensures AllBetween(ApplySteps(links, (es + rs)[..k]), held, now, Some(routing), config)
  {
    hide NoteOf, Moves, ApplySteps, Keys, PlanFor;
    PlanOps(es, rs, was, now, prior, config);
    ApplyPrefix(links, es, rs, k);
    var after := ApplySteps(links, (es + rs)[..k]);
    forall slug: Slug ensures Between(after, slug, NoteOf(Some(routing), held, slug), NoteOf(Some(config), now, slug)) {
      var h, n := NoteOf(Some(routing), held, slug), NoteOf(Some(config), now, slug);
      forall t: Path
        ensures (t, slug) in Keys(es) ==> n == Some(t)
        ensures (t, slug) in Keys(rs) ==> n != Some(t)
      {
        PlanKeys(es, rs, was, now, prior, config, t, slug);
      }
      assert Between(links, slug, h, n);
      if h.Some? && n.Some? && k > |es| {
        var t: Path :| (t, slug) in links;
        PlanKeys(es, rs, was, now, prior, config, t, slug);
        PlanKeys(es, rs, was, now, prior, config, n.value, slug);
        assert (t, slug) in after || (n.value, slug) in after;
      }
    }
  }

  // What a completed attempt leaves: links settled for the tasks and configuration it started from.
  lemma PublishedIsSettled(w: World, d: During, w': World)
    requires (Invariant(Open, w) || Invariant(Rerouted, w)) && AttemptStep(w, d, w') && d.published
    ensures Settled(w'.links, w.tasks, w.config)
  {
    hide NoteOf, ApplySteps, AllBetween, Settled, PlanFor;
    var es, rs :| PlanFor(es, rs, w.Baseline(), w.tasks, w.PriorRouting(), w.config) && AttemptWith(w, es, rs, d, w');
    assert (es + rs)[..d.cut] == es + rs;
    PassSettles(w.links, es, rs, w.Baseline(), w.tasks, w.PriorRouting(), w.config);
  }

  lemma AttemptKeepsInvariant(phase: Phase, w: World, d: During, w': World)
    requires Invariant(phase, w) && AttemptStep(w, d, w') && d.tasks == w.tasks && d.config == w.config
    ensures Invariant(NextPhase(phase, w, Attempt(d)), w')
  {
    hide NoteOf, ApplySteps, AllBetween, Settled, PlanFor;
    var es, rs :| PlanFor(es, rs, w.Baseline(), w.tasks, w.PriorRouting(), w.config) && AttemptWith(w, es, rs, d, w');
    if phase == Published {
      SettledStays(w.links, es, rs, w.Baseline(), w.tasks, w.PriorRouting(), w.config, d.cut);
    } else if d.published {
      PublishedIsSettled(w, d, w');
    } else {
      PrefixStaysBetween(w.links, es, rs, w.Baseline(), w.tasks, w.PriorRouting(), w.config, d.cut);
      if phase == Rerouted {
        PrefixStaysBetweenHeld(w.links, es, rs, w.Baseline(), w.tasks, w.PriorRouting(), w.config, w.tasks, w.pending.value.routing, d.cut);
      }
    }
  }

  // An edit that moves only slugs still linked as the baseline has them.
  lemma EditStaysBetween(w: World, tasks: Tasks, config: DailyNotesConfig)
    requires Invariant(Open, w)
    requires forall slug: Slug :: NoteOf(Some(config), tasks, slug) == NoteOf(Some(w.config), w.tasks, slug) || AtBaseline(w, slug)
    ensures AllBetween(w.links, w.Baseline(), tasks, w.PriorRouting(), config)
  {
    hide NoteOf;
    forall slug: Slug ensures Between(w.links, slug, NoteOf(w.PriorRouting(), w.Baseline(), slug), NoteOf(Some(config), tasks, slug)) {
      var p := NoteOf(w.PriorRouting(), w.Baseline(), slug);
      assert Between(w.links, slug, p, NoteOf(Some(w.config), w.tasks, slug));
      if AtBaseline(w, slug) && p.Some? { assert (p.value, slug) in w.links; }
    }
  }

  // A change of configuration while a record waits.
  lemma RerouteStaysBetween(phase: Phase, w: World, config: DailyNotesConfig)
    requires phase != Open && Invariant(phase, w)
    requires forall slug: Slug :: NoteOf(Some(config), w.tasks, slug) == NoteOf(Some(w.config), w.tasks, slug) || Reroutes(w, config, slug)
    ensures Invariant(Rerouted, w.(config := config))
  {
    hide NoteOf;
    var q := Some(w.pending.value.routing);
    forall slug: Slug
      ensures Between(w.links, slug, NoteOf(w.PriorRouting(), w.Baseline(), slug), NoteOf(Some(config), w.tasks, slug))
      ensures Between(w.links, slug, NoteOf(q, w.tasks, slug), NoteOf(Some(config), w.tasks, slug))
    {
      var p, h, n := NoteOf(w.PriorRouting(), w.Baseline(), slug), NoteOf(q, w.tasks, slug), NoteOf(Some(config), w.tasks, slug);
      if Reroutes(w, config, slug) {
        HeldIsBetween(w.links, slug, p, h, n);
      }
    }
  }

  lemma HeldIsBetween(links: Links, slug: Slug, p: Option<Path>, h: Option<Path>, n: Option<Path>)
    requires LinkedExactly(links, slug, h) && Reachable(p, h, n)
    ensures Between(links, slug, p, n) && Between(links, slug, h, n)
  {
    if h.Some? { assert (h.value, slug) in links; }
  }

  // The engine's own link writes keep the invariant whatever was edited before.
  lemma EngineStaysBetween(w: World, slug: Slug, state: Option<TaskState>, removed: bool)
    requires Invariant(Open, w) && Disciplined(Open, w, EngineEdit(slug, state, removed))
    ensures var tasks := EngineTasks(w.tasks, slug, state);
      AllBetween(EngineLinks(w, slug, tasks, removed), w.Baseline(), tasks, w.PriorRouting(), w.config)
  {
    var tasks := EngineTasks(w.tasks, slug, state);
    hide NoteOf;
    var links := EngineLinks(w, slug, tasks, removed);
    forall other: Slug ensures Between(links, other, NoteOf(w.PriorRouting(), w.Baseline(), other), NoteOf(Some(w.config), tasks, other)) {
      var p := NoteOf(w.PriorRouting(), w.Baseline(), other);
      assert Between(w.links, other, p, NoteOf(Some(w.config), w.tasks, other));
      if other != slug {
        OtherNote(w.tasks, slug, state, w.config, other);
        SameBetween(w.links, links, other, p, NoteOf(Some(w.config), w.tasks, other));
      } else {
        MovedBetween(w.links, slug, p, NoteOf(Some(w.config), w.tasks, slug), NoteOf(Some(w.config), tasks, slug), removed);
      }
    }
  }

  lemma OtherNote(tasks: Tasks, slug: Slug, state: Option<TaskState>, config: DailyNotesConfig, other: Slug)
    requires other != slug
    ensures NoteOf(Some(config), EngineTasks(tasks, slug, state), other) == NoteOf(Some(config), tasks, other)
  {
    hide Resolve;
  }

  lemma SameBetween(links: Links, after: Links, slug: Slug, p: Option<Path>, n: Option<Path>)
    requires Between(links, slug, p, n) && forall t: Path :: (t, slug) in after <==> (t, slug) in links
    ensures Between(after, slug, p, n)
  {
  }

  lemma MovedBetween(links: Links, slug: Slug, p: Option<Path>, source: Option<Path>, target: Option<Path>, removed: bool)
    requires Between(links, slug, p, source) && (removed || source == p)
    ensures Between((if removed && source.Some? then links - {(source.value, slug)} else links) + (if target.Some? then {(target.value, slug)} else {}),
                    slug, p, target)
  {
    var after := (if removed && source.Some? then links - {(source.value, slug)} else links) + (if target.Some? then {(target.value, slug)} else {});
    if target.Some? { assert (target.value, slug) in after; }
  }

  lemma FinalizeKeepsInvariant(phase: Phase, w: World, sync: bool, config: DailyNotesConfig, crash: bool)
    requires Invariant(phase, w) && Disciplined(phase, w, Finalize(sync, config, crash))
    ensures Invariant(NextPhase(phase, w, Finalize(sync, config, crash)), FinalizeStep(w, sync, config, crash))
  {
    hide NoteOf, AllBetween, Settled;
    if phase == Published { SettledIsBetween(w.links, w.tasks, w.config, w.tasks, w.config); }
  }

  lemma StepKeepsInvariant(phase: Phase, w: World, e: Event, w': World)
    requires Invariant(phase, w) && Next(w, e, w') && Disciplined(phase, w, e)
    ensures Invariant(NextPhase(phase, w, e), w')
  {
    hide NoteOf, AllBetween, Settled, AttemptStep, EngineLinks, AtBaseline, Reroutes;
    match e
    case Attempt(d) => AttemptKeepsInvariant(phase, w, d, w');
    case EditTasks(tasks) => EditStaysBetween(w, tasks, w.config);
    case EditConfig(config) =>
      if phase == Open { EditStaysBetween(w, w.tasks, config); } else { RerouteStaysBetween(phase, w, config); }
    case EngineEdit(slug, state, removed) => EngineStaysBetween(w, slug, state, removed);
    case Finalize(sync, config, crash) => FinalizeKeepsInvariant(phase, w, sync, config, crash);
    case OutsideCommit =>
  }

  lemma {:induction false} RunKeepsInvariant(ws: seq<World>, phases: seq<Phase>, events: seq<Event>, i: nat)
    requires DisciplinedRun(ws, phases, events) && i < |ws|
    ensures Invariant(phases[i], ws[i])
  {
    hide Settled, AllBetween, Disciplined, Next, NextPhase;
    if i > 0 {
      RunKeepsInvariant(ws, phases, events, i - 1);
      assert Next(ws[i - 1], events[i - 1], ws[i]) && Disciplined(phases[i - 1], ws[i - 1], events[i - 1]);
      StepKeepsInvariant(phases[i - 1], ws[i - 1], events[i - 1], ws[i]);
    }
  }

  // Whatever attempts were interrupted and retried before, a finalization that takes effect finds every
  // link exactly where the current tasks and configuration put it, and records a baseline for which
  // the same is true.
  lemma FinalizedRunsAreSettled(ws: seq<World>, phases: seq<Phase>, events: seq<Event>, i: nat)
    requires DisciplinedRun(ws, phases, events) && i < |events|
    requires phases[i] == Published && phases[i + 1] == Open
    ensures ws[i + 1].WellFormed() && ws[i + 1].cursor.Some?
    ensures Settled(ws[i + 1].links, ws[i + 1].tasks, ws[i + 1].config)
    ensures Settled(ws[i + 1].links, ws[i + 1].Baseline(), ws[i + 1].cursor.value.routing)
  {
    hide Settled, AllBetween;
    RunKeepsInvariant(ws, phases, events, i);
    RunKeepsInvariant(ws, phases, events, i + 1);
    assert Next(ws[i], events[i], ws[i + 1]) && Disciplined(phases[i], ws[i], events[i]);
  }

  // The record of a published cycle supersedes the cursor's routing: once the configuration changes again,
  // a completed attempt looks for every link where that record put it.  It settles a slug exactly when
  // that is nowhere, or its note of the cursor's commit under the recorded routing, or its new note; so
  // every slug is settled whose day is the same in the cursor's commit and now.
  lemma ReroutedPassExact(w: World, config: DailyNotesConfig, d: During, w': World, slug: Slug)
    requires w.WellFormed() && w.cursor.Some? && w.pending.Some?
    requires w.pending.value.fromHead == w.cursor.value.reconciledHead
    requires Settled(w.links, w.tasks, w.pending.value.routing)
    requires AttemptStep(w.(config := config), d, w') && d.published
    ensures var recorded, based := Some(w.pending.value.routing), w.history[w.cursor.value.reconciledHead];
      var was, held, now := NoteOf(recorded, based, slug), NoteOf(recorded, w.tasks, slug), NoteOf(Some(config), w.tasks, slug);
      && (LinkedExactly(w'.links, slug, now) <==> held.None? || held == was || held == now)
      && (DayOf(based, slug) == DayOf(w.tasks, slug) ==> LinkedExactly(w'.links, slug, now))
  {
    hide ApplySteps, PlanFor;
    var v := w.(config := config);
    var es, rs :| PlanFor(es, rs, v.Baseline(), v.tasks, v.PriorRouting(), config) && AttemptWith(v, es, rs, d, w');
    assert (es + rs)[..d.cut] == es + rs;
    var based := v.Baseline();
    assert LinkedExactly(w.links, slug, NoteOf(Some(w.pending.value.routing), w.tasks, slug));
    PassExact(w.links, es, rs, based, w.tasks, v.PriorRouting(), config, slug);
    if !Moves(based, w.tasks, v.PriorRouting(), config, slug) { SameNoteWithoutMove(based, w.tasks, v.PriorRouting(), config, slug); }
    var held := NoteOf(Some(w.pending.value.routing), w.tasks, slug);
    if held.Some? { assert (held.value, slug) in w.links; }
  }

  // ----- where convergence stops -----

  // A pass never touches a link of a slug that is at neither the slug's baseline note nor its current one.
  lemma StaleLinkSurvives(w: World, d: During, w': World, slug: Slug, t: Path)
    requires AttemptStep(w, d, w') && d.published && (t, slug) in w.links
    requires NoteOf(w.PriorRouting(), w.Baseline(), slug) != Some(t) && NoteOf(Some(w.config), w.tasks, slug) != Some(t)
    ensures (t, slug) in w'.links && !Settled(w'.links, w.tasks, w.config)
  {
    hide NoteOf, ApplySteps, PlanFor, Moves;
    var es, rs :| PlanFor(es, rs, w.Baseline(), w.tasks, w.PriorRouting(), w.config) && AttemptWith(w, es, rs, d, w');
    assert (es + rs)[..d.cut] == es + rs;
    PlanOps(es, rs, w.Baseline(), w.tasks, w.PriorRouting(), w.config);
    ApplyPrefix(w.links, es, rs, |es + rs|);
    PlanKeys(es, rs, w.Baseline(), w.tasks, w.PriorRouting(), w.config, t, slug);
    assert (t, slug) in w'.links;
    assert !LinkedExactly(w'.links, slug, NoteOf(Some(w.config), w.tasks, slug));
  }

  // The tasks the links were last settled for, and the baseline a finalization records.
  lemma RecordExact(links: Links, tasks: Tasks, config: DailyNotesConfig, recorded: Tasks, routing: DailyNotesConfig)
    requires Settled(links, tasks, config)
    ensures Settled(links, recorded, routing) <==>
      forall slug: Slug :: NoteOf(Some(routing), recorded, slug) == NoteOf(Some(config), tasks, slug)
  {
    hide NoteOf;
    forall slug: Slug
      ensures LinkedExactly(links, slug, NoteOf(Some(routing), recorded, slug)) <==>
        NoteOf(Some(routing), recorded, slug) == NoteOf(Some(config), tasks, slug)
    {
      assert LinkedExactly(links, slug, NoteOf(Some(config), tasks, slug));
      SameExactly(links, slug, NoteOf(Some(config), tasks, slug), NoteOf(Some(routing), recorded, slug));
    }
  }

  lemma SameExactly(links: Links, slug: Slug, a: Option<Path>, b: Option<Path>)
    requires LinkedExactly(links, slug, a)
    ensures LinkedExactly(links, slug, b) <==> a == b
  {
    if LinkedExactly(links, slug, b) {
      if a.Some? { assert (a.value, slug) in links; }
      if b.Some? { assert (b.value, slug) in links; }
    }
  }

  // After a finalization, the baseline the cursor records accounts for the links exactly when every
  // slug has the same note in the recorded commit under the recorded routing as it has now.
  lemma FinalizeExact(w: World)
    requires Invariant(Published, w) && FinalizeDecision(w, true, w.config) != Refused
    ensures var after := FinalizeStep(w, true, w.config, false);
      && after.WellFormed() && after.cursor.Some?
      && (Settled(after.links, after.Baseline(), after.cursor.value.routing) <==>
            forall slug: Slug :: NoteOf(Some(after.cursor.value.routing), after.Baseline(), slug) == NoteOf(Some(w.config), w.tasks, slug))
  {
    hide NoteOf, Settled;
    var after := FinalizeStep(w, true, w.config, false);
    RecordExact(w.links, w.tasks, w.config, after.Baseline(), after.cursor.value.routing);
  }

  // An established pass records whatever HEAD has become.  The record accounts for the links exactly when
  // the last commit has every slug at the note the pass was planned for.
  lemma AdoptedCommitExact(w: World, d: During, w': World)
    requires Invariant(Open, w) && w.cursor.Some? && AttemptStep(w, d, w') && d.published
    requires FinalizeDecision(w', true, w.config) == Advanced
    ensures var after := FinalizeStep(w', true, w.config, false);
      && after.WellFormed() && after.cursor.Some? && after.Baseline() == w'.history[w'.Head()]
      && (Settled(after.links, after.Baseline(), after.cursor.value.routing) <==>
            forall slug: Slug :: NoteOf(Some(w.config), w'.history[w'.Head()], slug) == NoteOf(Some(w.config), w.tasks, slug))
  {
    hide NoteOf, Settled, ApplySteps, PlanFor, AllBetween;
    PublishedIsSettled(w, d, w');
    var after := FinalizeStep(w', true, w.config, false);
    RecordExact(w'.links, w.tasks, w.config, after.Baseline(), w.config);
  }

  // Such a slug, once it moves on, keeps its link at the planned note for good: the next pass has neither
  // that note as its old one nor as its new one.
  lemma AdoptedCommitLeavesLink(w: World, d: During, w': World, slug: Slug, t: Path, later: Tasks, d2: During, w2: World)
    requires Invariant(Open, w) && w.cursor.Some? && AttemptStep(w, d, w') && d.published
    requires FinalizeDecision(w', true, w.config) == Advanced
    requires NoteOf(Some(w.config), w.tasks, slug) == Some(t) && NoteOf(Some(w.config), w'.history[w'.Head()], slug) != Some(t)
    requires NoteOf(Some(w'.config), later, slug) != Some(t)
    requires AttemptStep(FinalizeStep(w', true, w.config, false).(tasks := later), d2, w2) && d2.published
    ensures (t, slug) in w2.links && !Settled(w2.links, later, w'.config)
  {
    hide NoteOf, AllBetween, ApplySteps, PlanFor;
    PublishedIsSettled(w, d, w');
    assert LinkedExactly(w'.links, slug, Some(t));
    var after := FinalizeStep(w', true, w.config, false).(tasks := later);
    assert after.PriorRouting() == Some(w.config) && after.Baseline() == w'.history[w'.Head()];
    hide AttemptStep;
    StaleLinkSurvives(after, d2, w2, slug, t);
  }

  // Finalizing while a task's new day is not committed: once the task moves on again, the link of the
  // uncommitted day is never removed.
  lemma UncommittedDayLeavesLink(w: World, slug: Slug, t: Path, later: Tasks, d: During, w': World)
    requires Invariant(Published, w) && FinalizeDecision(w, true, w.config) == Advanced
    requires NoteOf(Some(w.config), w.tasks, slug) == Some(t) && NoteOf(Some(w.config), w.history[w.Head()], slug) != Some(t)
    requires NoteOf(Some(w.config), later, slug) != Some(t)
    requires AttemptStep(FinalizeStep(w, true, w.config, false).(tasks := later), d, w') && d.published
    ensures (t, slug) in w'.links && !Settled(w'.links, later, w.config)
  {
    hide NoteOf, AttemptStep;
    assert LinkedExactly(w.links, slug, Some(t));
    StaleLinkSurvives(FinalizeStep(w, true, w.config, false).(tasks := later), d, w', slug, t);
  }

  // The early return of finalize keeps the cursor's old routing: once a task whose note the routing
  // change moved is rescheduled, the link at the moved note is never removed.
  lemma LostRoutingLeavesLink(w: World, slug: Slug, t: Path, later: Tasks, d: During, w': World)
    requires Invariant(Published, w) && FinalizeDecision(w, true, w.config) == Cleared
    requires NoteOf(Some(w.config), w.tasks, slug) == Some(t)
    requires w.cursor.Some? && NoteOf(Some(w.cursor.value.routing), w.Baseline(), slug) != Some(t)
    requires NoteOf(Some(w.config), later, slug) != Some(t)
    requires AttemptStep(FinalizeStep(w, true, w.config, false).(tasks := later), d, w') && d.published
    ensures (t, slug) in w'.links && !Settled(w'.links, later, w.config)
  {
    hide NoteOf, AttemptStep;
    assert LinkedExactly(w.links, slug, Some(t));
    StaleLinkSurvives(FinalizeStep(w, true, w.config, false).(tasks := later), d, w', slug, t);
  }

  // How a run gets there: a routing change whose pass is cut after its note writes but before their
  // commit; the retry finds nothing left to change, commits nothing, and finalize returns early.
  lemma LostRoutingIsReached(w: World, config: DailyNotesConfig, cut: nat, w1: World, w2: World)
    requires Invariant(Open, w) && Disciplined(Open, w, EditConfig(config)) && w.cursor.Some? && w.pending.None?
    requires w.cursor.value.reconciledHead == w.Head()
    requires AttemptStep(w.(config := config), During(cut, [], w.tasks, config, false), w1)
    requires AttemptStep(w1, During(cut, [], w.tasks, config, true), w2)
    ensures Invariant(Published, w2) && FinalizeDecision(w2, true, config) == Cleared
    ensures FinalizeStep(w2, true, config, false).cursor == w.cursor
    ensures Settled(w2.links, w2.tasks, config)
  {
    assert w.Head() == |w.history| - 1;
    hide *;
    EditedKeepsInvariant(w, config);
    var d1, d2 := During(cut, [], w.tasks, config, false), During(cut, [], w.tasks, config, true);
    AttemptFiles(w.(config := config), d1, w1);
    AttemptKeepsInvariant(Open, w.(config := config), d1, w1);
    PhaseAfter(w.(config := config), d1);
    AttemptFiles(w1, d2, w2);
    AttemptKeepsInvariant(Open, w1, d2, w2);
    PhaseAfter(w1, d2);
    assert w.history + [] == w.history;
    ClearedRecord(w2, w.cursor, config);
  }

  lemma EditedKeepsInvariant(w: World, config: DailyNotesConfig)
    requires Invariant(Open, w) && Disciplined(Open, w, EditConfig(config))
    ensures Invariant(Open, w.(config := config)) && w.WellFormed()
  {
    hide NoteOf, AllBetween, AtBaseline;
    EditStaysBetween(w, w.tasks, config);
  }

  lemma PhaseAfter(w: World, d: During)
    requires w.WellFormed()
    ensures NextPhase(Open, w, Attempt(d)) == if d.published then Published else Open
  {
  }

  // What an attempt does to everything but the links.
  lemma AttemptFiles(w: World, d: During, w': World)
    requires AttemptStep(w, d, w')
    ensures w.WellFormed() && w'.history == w.history + d.appended && w'.tasks == d.tasks && w'.config == d.config && w'.cursor == w.cursor
    ensures var from := if w.cursor.None? then |w.history| - 1 else w.cursor.value.reconciledHead;
      w'.pending == if d.published then Some(Pending(from, |w'.history| - 1, w.config)) else w.pending
  {
    hide PlanFor, ApplySteps;
  }

  lemma ClearedRecord(w: World, cursor: Option<Cursor>, config: DailyNotesConfig)
    requires Invariant(Published, w) && w.config == config && w.cursor == cursor && cursor.Some?
    requires w.history != [] && cursor.value.reconciledHead == |w.history| - 1 && w.pending == Some(Pending(|w.history| - 1, |w.history| - 1, config))
    ensures w.WellFormed() && FinalizeDecision(w, true, config) == Cleared
    ensures FinalizeStep(w, true, config, false).cursor == cursor && Settled(w.links, w.tasks, config)
  {
    hide Settled;
  }

  // A second reschedule before the first one is finalized: the link of the first is never removed.
  lemma SecondRescheduleLeavesLink(w: World, slug: Slug, t: Path, later: Tasks, d: During, w': World)
    requires Invariant(Published, w) && NoteOf(Some(w.config), w.tasks, slug) == Some(t)
    requires NoteOf(w.PriorRouting(), w.Baseline(), slug) != Some(t) && NoteOf(Some(w.config), later, slug) != Some(t)
    requires AttemptStep(w.(tasks := later), d, w') && d.published
    ensures (t, slug) in w'.links && !Settled(w'.links, later, w.config)
  {
    hide NoteOf, AttemptStep;
    assert LinkedExactly(w.links, slug, Some(t));
    StaleLinkSurvives(w.(tasks := later), d, w', slug, t);
  }

  // ----- attempts exist -----

  // From any state that is not foreign an attempt can run to its end, whatever is committed meanwhile.
  lemma AttemptExists(w: World, appended: seq<Tasks>, tasks: Tasks, published: bool) returns (d: During, w': World)
    requires w.WellFormed() && !w.ForeignPending()
    requires published && w.cursor.None? ==> Repeats(w.history, appended) && tasks == w.tasks
    ensures d.appended == appended && d.tasks == tasks && d.config == w.config && d.published == published
    ensures AttemptStep(w, d, w')
    ensures forall es, rs | PlanFor(es, rs, w.Baseline(), w.tasks, w.PriorRouting(), w.config) :: d.cut == |es + rs|
  {
    hide NoteOf, ApplySteps, PlanFor, Keys, Moves;
    var es, rs := PlanExists(w.Baseline(), w.tasks, w.PriorRouting(), w.config);
    d := During(|es + rs|, appended, tasks, w.config, published);
    var history := w.history + appended;
    w' := World(history, tasks, w.config, ApplySteps(w.links, (es + rs)[..d.cut]), w.cursor,
                if published then Some(Pending(w.FromHead(), |history| - 1, w.config)) else w.pending);
    assert AttemptWith(w, es, rs, d, w');
    forall es2, rs2 | PlanFor(es2, rs2, w.Baseline(), w.tasks, w.PriorRouting(), w.config) ensures d.cut == |es2 + rs2| {
      PlanSizeExact(es, rs, w.Baseline(), w.tasks, w.PriorRouting(), w.config);
      PlanSizeExact(es2, rs2, w.Baseline(), w.tasks, w.PriorRouting(), w.config);
    }
  }
}
