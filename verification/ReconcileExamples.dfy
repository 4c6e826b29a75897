// Concrete worlds in which convergence stops: one task `a`, notes named by the day or by the month.
module ReconcileExamples {
  import opened Text
  import opened DailyFormat
  import opened Reconcile
  import opened Convergence
  import opened ReconcileRuns

  const BY_DAY := DailyNotesConfig("", "D")
  const BY_MONTH := DailyNotesConfig("", "M")
  const SLUG: Slug := "a"

  function On(month: nat, day: nat): Tasks {
    map[SLUG := TaskState(true, true, "", Some(Date(2001, month, day)), false)]
  }

  function Note(n: nat): Path
    requires n < 10
  {
    [DigitOf(n)] + ".md"
  }

  lemma OneToken(token: string)
    requires token == "D" || token == "M"
    ensures ValidFormat(token) && Pieces(token) == [Run(token)]
  {
    assert AlphaRun(token) == 1 + AlphaRun(token[1..]);
    assert token[..1] == token && token[1..] == "";
    assert Pieces(token) == [Run(token)] + Pieces("");
    assert Run(token) in Pieces(token);
  }

  lemma {:induction false} OnePart(path: string)
    requires '/' !in path
    ensures PathParts(path) == [path]
  {
    if path != "" {
      assert path[0] in path;
      OnePart(path[1..]);
      assert [path[0]] + path[1..] == path;
    }
  }

  lemma NoteIsValid(n: nat)
    requires n < 10
    ensures ValidRelativePath(Note(n))
  {
    var path := Note(n);
    assert IsDigit(path[0]) && path == [path[0], '.', 'm', 'd'];
    OnePart(path);
    assert |path| == 4;
  }

  lemma NoteDiffers(m: nat, n: nat)
    requires m < 10 && n < 10 && m != n
    ensures Note(m) != Note(n)
  {
    assert Note(m)[0] == DigitOf(m) && Note(n)[0] == DigitOf(n);
  }

  // Under a one-digit day or month the note is that digit.
  lemma NoteFor(config: DailyNotesConfig, month: nat, day: nat)
    requires config == BY_DAY || config == BY_MONTH
    requires 1 <= month < 10 && 1 <= day < 10
    ensures Resolve(config, Date(2001, month, day)) == Some(Note(if config == BY_DAY then day else month))
  {
    var d := Date(2001, month, day);
    var n := if config == BY_DAY then day else month;
    assert ValidDate(d);
    assert "D" != "M" by { assert "D"[0] != "M"[0]; }
    OneToken(config.format);
    NoteIsValid(n);
    assert [Run(config.format)][1..] == [];
    assert RenderPieces([], d) == "";
    assert Rendered(config.format, d) == FormatToken(config.format, d) + "";
    TokenShows(config.format, d);
    assert NotePath(config, d) == "" + Rendered(config.format, d) + ".md" == Note(n);
  }

  lemma TokenShows(token: string, d: Date)
    requires ValidDate(d) && (token == "D" || token == "M") && d.day < 10 && d.month < 10
    ensures FormatToken(token, d) == [DigitOf(if token == "D" then d.day else d.month)]
  {
    assert |"YYYY"| == 4 && |"YY"| == 2 && |"MM"| == 2 && |"DD"| == 2 && |token| == 1;
    assert "D"[0] != "M"[0];
  }

  lemma NotesOf(config: DailyNotesConfig, month: nat, day: nat)
    requires config == BY_DAY || config == BY_MONTH
    requires 1 <= month < 10 && 1 <= day < 10
    ensures NoteOf(Some(config), On(month, day), SLUG) == Some(Note(if config == BY_DAY then day else month))
    ensures forall slug: Slug | slug != SLUG :: NoteOf(Some(config), On(month, day), slug) == None
  {
    NoteFor(config, month, day);
    hide Resolve;
  }

  lemma NoTasks(config: DailyNotesConfig)
    ensures forall slug: Slug :: NoteOf(Some(config), map[], slug) == None
  {
    hide Resolve;
  }

  // The task linked from its note and nowhere else.
  lemma OneLink(config: DailyNotesConfig, month: nat, day: nat)
    requires config == BY_DAY || config == BY_MONTH
    requires 1 <= month < 10 && 1 <= day < 10
    ensures Settled({(Note(if config == BY_DAY then day else month), SLUG)}, On(month, day), config)
  {
    NotesOf(config, month, day);
    hide NoteOf, Note;
  }

  // A finalization over an uncommitted day: HEAD has no task, the worktree has it on the second, and it
  // then moves to the third.
  lemma UncommittedDayHappens() returns (w: World, d: During, w': World)
    ensures Invariant(Published, w) && FinalizeDecision(w, true, w.config) == Advanced
    ensures AttemptStep(FinalizeStep(w, true, w.config, false).(tasks := On(1, 3)), d, w') && d.published
    ensures (Note(2), SLUG) in w'.links && !Settled(w'.links, On(1, 3), w.config)
  {
    w := World([map[]], On(1, 2), BY_DAY, {(Note(2), SLUG)}, None, Some(Pending(0, 0, BY_DAY)));
    RecordedUncommitted(w);
    NotesOf(BY_DAY, 1, 2);
    NotesOf(BY_DAY, 1, 3);
    NoTasks(BY_DAY);
    NoteDiffers(2, 3);
    assert w.history[w.Head()] == map[] && w.config == BY_DAY;
    hide *;
    var next := FinalizeStep(w, true, w.config, false).(tasks := On(1, 3));
    d, w' := AttemptExists(next, [], next.tasks, true);
    UncommittedDayLeavesLink(w, SLUG, Note(2), On(1, 3), d, w');
  }

  lemma RecordedUncommitted(w: World)
    requires w == World([map[]], On(1, 2), BY_DAY, {(Note(2), SLUG)}, None, Some(Pending(0, 0, BY_DAY)))
    ensures Invariant(Published, w) && FinalizeDecision(w, true, w.config) == Advanced
    ensures var next := FinalizeStep(w, true, w.config, false).(tasks := On(1, 3));
      next.WellFormed() && !next.ForeignPending() && next.cursor.Some? && next.tasks == On(1, 3)
  {
    OneLink(BY_DAY, 1, 2);
    hide On, Settled, Note;
  }

  // A change of configuration over a recorded reschedule: committed for the second, moved to the fourth of
  // March and recorded by day, then routed by month.
  lemma RerouteHappens() returns (w: World, d: During, w': World)
    ensures Invariant(Published, w) && w.cursor == Some(Cursor(0, BY_DAY)) && w.pending == Some(Pending(0, 0, BY_DAY))
    ensures AttemptStep(w.(config := BY_MONTH), d, w') && d.published
    ensures (Note(4), SLUG) in w'.links && !LinkedExactly(w'.links, SLUG, NoteOf(Some(BY_MONTH), w.tasks, SLUG))
  {
    w := World([On(1, 2)], On(3, 4), BY_DAY, {(Note(4), SLUG)}, Some(Cursor(0, BY_DAY)), Some(Pending(0, 0, BY_DAY)));
    RecordedMove(w);
    NotesOf(BY_DAY, 1, 2);
    NotesOf(BY_DAY, 3, 4);
    NotesOf(BY_MONTH, 3, 4);
    NoteDiffers(2, 4);
    NoteDiffers(3, 4);
    var next := w.(config := BY_MONTH);
    assert next.PriorRouting() == Some(BY_DAY) && next.Baseline() == On(1, 2) && next.WellFormed() && !next.ForeignPending();
    assert (Note(4), SLUG) in next.links && w.history[0] == On(1, 2);
    hide *;
    d, w' := AttemptExists(next, [], next.tasks, true);
    StaleLinkSurvives(next, d, w', SLUG, Note(4));
    ReroutedPassExact(w, BY_MONTH, d, w', SLUG);
  }

  lemma RecordedMove(w: World)
    requires w == World([On(1, 2)], On(3, 4), BY_DAY, {(Note(4), SLUG)}, Some(Cursor(0, BY_DAY)), Some(Pending(0, 0, BY_DAY)))
    ensures Invariant(Published, w) && Settled(w.links, w.tasks, BY_DAY) && w.WellFormed()
  {
    OneLink(BY_DAY, 3, 4);
    hide On, Settled, Note;
  }

  // A second reschedule inside one cycle: from the second to the third, recorded, then to the fourth.
  lemma SecondRescheduleHappens() returns (w: World, d: During, w': World)
    ensures Invariant(Published, w) && AttemptStep(w.(tasks := On(1, 4)), d, w') && d.published
    ensures (Note(3), SLUG) in w'.links && !Settled(w'.links, On(1, 4), w.config)
  {
    w := World([On(1, 2)], On(1, 3), BY_DAY, {(Note(3), SLUG)}, Some(Cursor(0, BY_DAY)), Some(Pending(0, 0, BY_DAY)));
    OneLink(BY_DAY, 1, 3);
    NotesOf(BY_DAY, 1, 2);
    NotesOf(BY_DAY, 1, 3);
    NotesOf(BY_DAY, 1, 4);
    NoteDiffers(2, 3);
    NoteDiffers(3, 4);
    hide NoteOf, Settled, AttemptStep, On, PlanFor;
    var next := w.(tasks := On(1, 4));
    d, w' := AttemptExists(next, [], next.tasks, true);
    SecondRescheduleLeavesLink(w, SLUG, Note(3), On(1, 4), d, w');
  }

  // Someone commits the task on the fourth while the pass that moves it from the second to the third runs;
  // it then moves to the fifth.
  lemma AdoptedCommitHappens() returns (w: World, d: During, w1: World, d2: During, w2: World)
    ensures Invariant(Open, w) && AttemptStep(w, d, w1) && d.published && FinalizeDecision(w1, true, w.config) == Advanced
    ensures AttemptStep(FinalizeStep(w1, true, w.config, false).(tasks := On(1, 5)), d2, w2) && d2.published
    ensures (Note(3), SLUG) in w2.links && !Settled(w2.links, On(1, 5), w1.config)
  {
    w := World([On(1, 2)], On(1, 3), BY_DAY, {(Note(2), SLUG)}, Some(Cursor(0, BY_DAY)), None);
    Started(w);
    NotesOf(BY_DAY, 1, 3);
    NotesOf(BY_DAY, 1, 4);
    NotesOf(BY_DAY, 1, 5);
    NoteDiffers(3, 4);
    NoteDiffers(3, 5);
    hide *;
    d, w1 := AttemptExists(w, [On(1, 4)], On(1, 4), true);
    AttemptFiles(w, d, w1);
    Advances(w, w1);
    var next := FinalizeStep(w1, true, w.config, false).(tasks := On(1, 5));
    d2, w2 := AttemptExists(next, [], next.tasks, true);
    AdoptedCommitLeavesLink(w, d, w1, SLUG, Note(3), On(1, 5), d2, w2);
  }

  lemma Started(w: World)
    requires w.history == [On(1, 2)] && w.links == {(Note(2), SLUG)} && w.cursor == Some(Cursor(0, BY_DAY)) && w.pending.None?
    ensures Invariant(Open, w) && w.WellFormed() && !w.ForeignPending()
  {
    OneLink(BY_DAY, 1, 2);
    SettledIsBetween(w.links, On(1, 2), BY_DAY, w.tasks, w.config);
    hide AllBetween, Note, On;
  }

  lemma Advances(w: World, w1: World)
    requires w.history == [On(1, 2)] && w.config == BY_DAY && w.cursor == Some(Cursor(0, BY_DAY))
    requires w1.history == w.history + [On(1, 4)] && w1.cursor == w.cursor && w1.pending == Some(Pending(0, |w1.history| - 1, BY_DAY))
    ensures w1.WellFormed() && FinalizeDecision(w1, true, BY_DAY) == Advanced && w1.history[w1.Head()] == On(1, 4)
    ensures var next := FinalizeStep(w1, true, BY_DAY, false).(tasks := On(1, 5));
      next.WellFormed() && !next.ForeignPending() && next.cursor.Some? && next.tasks == On(1, 5)
  {
  }

  // Notes named by the day become notes named by the month; the pass is cut before its commit, retried and
  // finalized; then the task moves to February.
  lemma LostRoutingHappens() returns (w: World, w2: World, d: During, w3: World)
    ensures Invariant(Open, w) && Invariant(Published, w2) && FinalizeDecision(w2, true, BY_MONTH) == Cleared
    ensures FinalizeStep(w2, true, BY_MONTH, false).cursor == w.cursor
    ensures AttemptStep(FinalizeStep(w2, true, BY_MONTH, false).(tasks := On(2, 2)), d, w3) && d.published
    ensures (Note(1), SLUG) in w3.links && !Settled(w3.links, On(2, 2), BY_MONTH)
  {
    w := World([On(1, 2)], On(1, 2), BY_DAY, {(Note(2), SLUG)}, Some(Cursor(0, BY_DAY)), None);
    Started(w);
    ChangeIsDisciplined(w);
    NotesOf(BY_DAY, 1, 2);
    NotesOf(BY_MONTH, 1, 2);
    NotesOf(BY_MONTH, 2, 2);
    NoteDiffers(1, 2);
    hide NoteOf, Settled, AllBetween, AttemptStep, On, Note, PlanFor, Disciplined, Invariant;
    var cut, w1;
    cut, w1, w2 := CutAndRetried(w, BY_MONTH);
    LostRoutingIsReached(w, BY_MONTH, cut, w1, w2);
    AttemptFiles(w.(config := BY_MONTH), During(cut, [], w.tasks, BY_MONTH, false), w1);
    AttemptFiles(w1, During(cut, [], w.tasks, BY_MONTH, true), w2);
    d, w3 := MovesOn(w2);
    LostRoutingLeavesLink(w2, SLUG, Note(1), On(2, 2), d, w3);
  }

  lemma MovesOn(w2: World) returns (d: During, w3: World)
    requires w2.WellFormed() && w2.cursor == Some(Cursor(0, BY_DAY)) && FinalizeDecision(w2, true, BY_MONTH) == Cleared
    ensures AttemptStep(FinalizeStep(w2, true, BY_MONTH, false).(tasks := On(2, 2)), d, w3) && d.published
  {
    hide AttemptStep, On, PlanFor;
    var next := FinalizeStep(w2, true, BY_MONTH, false).(tasks := On(2, 2));
    d, w3 := AttemptExists(next, [], next.tasks, true);
  }

  lemma ChangeIsDisciplined(w: World)
    requires w == World([On(1, 2)], On(1, 2), BY_DAY, {(Note(2), SLUG)}, Some(Cursor(0, BY_DAY)), None)
    ensures w.WellFormed() && Disciplined(Open, w, EditConfig(BY_MONTH))
  {
    OneLink(BY_DAY, 1, 2);
    hide NoteOf, On, Note;
  }

  // An attempt cut after all its steps, and its retry.
  lemma CutAndRetried(w: World, config: DailyNotesConfig) returns (cut: nat, w1: World, w2: World)
    requires w.WellFormed() && w.cursor.Some? && w.pending.None?
    ensures AttemptStep(w.(config := config), During(cut, [], w.tasks, config, false), w1)
    ensures AttemptStep(w1, During(cut, [], w.tasks, config, true), w2)
  {
    hide PlanFor, AttemptStep;
    var start := w.(config := config);
    var d1, d2;
    d1, w1 := AttemptExists(start, [], w.tasks, false);
    AttemptFiles(start, d1, w1);
    assert w1.history == w.history;
    d2, w2 := AttemptExists(w1, [], w.tasks, true);
    var es, rs := PlanExists(start.Baseline(), w.tasks, start.PriorRouting(), config);
    cut := d1.cut;
    assert d2.cut == |es + rs| == d1.cut;
  }

  // ----- a routing change over the bound -----

  // Slugs of different lengths.
  lemma {:induction false} Slugs(n: nat) returns (slugs: set<Slug>)
    ensures |slugs| == n && forall slug | slug in slugs :: 1 <= |slug| <= n
    decreases n
  {
    if n == 0 {
      slugs := {};
    } else {
      var rest := Slugs(n - 1);
      var slug: Slug := seq(n, i => 'a');
      assert slug !in rest;
      slugs := rest + {slug};
    }
  }

  // Nine tasks on the second of January, when notes named by the day become notes named by the month.
  lemma OverBoundHappens() returns (tasks: Tasks, es: seq<Step>, rs: seq<Step>)
    ensures |tasks| == 9 && PlanFor(es, rs, tasks, tasks, Some(BY_DAY), BY_MONTH) && |es + rs| > MAX_TARGETS
  {
    var slugs := Slugs(9);
    tasks := map slug | slug in slugs :: TaskState(true, true, "", Some(Date(2001, 1, 2)), false);
    assert tasks.Keys == slugs;
    NoteFor(BY_DAY, 1, 2);
    NoteFor(BY_MONTH, 1, 2);
    NoteDiffers(1, 2);
    assert BY_DAY != BY_MONTH by { assert "D"[0] != "M"[0]; }
    forall slug | slug in slugs
      ensures Moves(tasks, tasks, Some(BY_DAY), BY_MONTH, slug)
      ensures NoteOf(Some(BY_DAY), tasks, slug) == Some(Note(2)) && NoteOf(Some(BY_MONTH), tasks, slug) == Some(Note(1))
    {
      hide Resolve, Note;
    }
    hide NoteOf, Moves, PlanFor, Resolve, Note;
    es, rs := PlanExists(tasks, tasks, Some(BY_DAY), BY_MONTH);
    MovesOverBound(es, rs, tasks, tasks, Some(BY_DAY), BY_MONTH, slugs);
  }
}
