// What a composed plan does to the links of the daily notes, whatever part of it is carried out.
module Convergence {
  import opened Text
  import opened Sets
  import opened Order
  import opened DailyFormat
  import opened Reconcile

  type Links = set<(Path, Slug)>
  type Tasks = map<Slug, TaskState>

  function StateOf(tasks: Tasks, slug: Slug): Option<TaskState> {
    if slug in tasks then Some(tasks[slug]) else None
  }

  function DayOf(tasks: Tasks, slug: Slug): Option<Date> {
    LinkDate(StateOf(tasks, slug))
  }

  // The net change of every slug on either side of the comparison.
  function Nets(was: Tasks, now: Tasks): map<Slug, NetChange> {
    map slug | slug in was.Keys + now.Keys :: ClassifyNetChange(StateOf(was, slug), StateOf(now, slug))
  }

  // The note that should link to the slug under a routing.
  ghost function NoteOf(routing: Option<DailyNotesConfig>, tasks: Tasks, slug: Slug): Option<Path> {
    if routing.Some? && DayOf(tasks, slug).Some? then Resolve(routing.value, DayOf(tasks, slug).value) else None
  }

  ghost predicate LinkedExactly(links: Links, slug: Slug, note: Option<Path>) {
    forall t: Path :: (t, slug) in links <==> note == Some(t)
  }

  // Every link of every slug is where the tasks and the routing say, and nowhere else.
  ghost predicate Settled(links: Links, tasks: Tasks, routing: DailyNotesConfig) {
    forall slug: Slug :: LinkedExactly(links, slug, NoteOf(Some(routing), tasks, slug))
  }

  // ----- carrying out steps -----

  function ApplyStep(links: Links, s: Step): Links {
    match s.op
    case Ensure => links + {StepKey(s)}
    case Remove => links - {StepKey(s)}
  }

  function ApplySteps(links: Links, steps: seq<Step>): Links
    decreases |steps|
  {
    if steps == [] then links else ApplySteps(ApplyStep(links, steps[0]), steps[1..])
  }

  lemma {:induction false} ApplyConcat(links: Links, a: seq<Step>, b: seq<Step>)
    ensures ApplySteps(links, a + b) == ApplySteps(ApplySteps(links, a), b)
    decreases |a|
  {
    if a == [] {
      assert a + b == b;
    } else {
      assert (a + b)[1..] == a[1..] + b;
      ApplyConcat(ApplyStep(links, a[0]), a[1..], b);
    }
  }

  lemma {:induction false} ApplyEnsures(links: Links, es: seq<Step>)
    requires forall s | s in es :: s.op == Ensure
    ensures ApplySteps(links, es) == links + Keys(es)
    decreases |es|
  {
    if es != [] {
      ApplyEnsures(ApplyStep(links, es[0]), es[1..]);
      KeysCons(es);
    }
  }

  lemma {:induction false} ApplyRemoves(links: Links, rs: seq<Step>)
    requires forall s | s in rs :: s.op == Remove
    ensures ApplySteps(links, rs) == links - Keys(rs)
    decreases |rs|
  {
    if rs != [] {
      ApplyRemoves(ApplyStep(links, rs[0]), rs[1..]);
      KeysCons(rs);
    }
  }

  lemma KeysCons(steps: seq<Step>)
    requires steps != []
    ensures Keys(steps) == {StepKey(steps[0])} + Keys(steps[1..])
  {
    assert forall s :: s in steps <==> s == steps[0] || s in steps[1..];
  }

  // A prefix of a plan: some ensures; or all ensures and some removes.
  lemma ApplyPrefix(links: Links, es: seq<Step>, rs: seq<Step>, k: nat)
    requires forall s | s in es :: s.op == Ensure
    requires forall s | s in rs :: s.op == Remove
    requires k <= |es + rs|
    ensures k <= |es| ==> exists done | done <= Keys(es) :: ApplySteps(links, (es + rs)[..k]) == links + done
    ensures |es| <= k ==> exists done | done <= Keys(rs) :: ApplySteps(links, (es + rs)[..k]) == links + Keys(es) - done
    ensures k == |es + rs| ==> ApplySteps(links, (es + rs)[..k]) == links + Keys(es) - Keys(rs)
  {
    if k <= |es| {
      assert (es + rs)[..k] == es[..k];
      ApplyEnsures(links, es[..k]);
      assert Keys(es[..k]) <= Keys(es);
    }
    if |es| <= k {
      var tail := rs[..k - |es|];
      assert (es + rs)[..k] == es + tail;
      ApplyConcat(links, es, tail);
      ApplyEnsures(links, es);
      ApplyRemoves(links + Keys(es), tail);
      assert Keys(tail) <= Keys(rs);
      if k == |es + rs| { assert tail == rs; }
    }
  }

  // ----- what a plan's steps are, slug by slug -----

  // The slug's day changed, or its note moved with the routing.
  predicate Moves(was: Tasks, now: Tasks, prior: Option<DailyNotesConfig>, config: DailyNotesConfig, slug: Slug) {
    DayOf(was, slug) != DayOf(now, slug) || (RoutingChanged(prior, config) && DayOf(now, slug).Some?)
  }

  // A plan for tasks that changed from was to now under a routing that changed from prior to config.
  ghost predicate PlanFor(es: seq<Step>, rs: seq<Step>, was: Tasks, now: Tasks, prior: Option<DailyNotesConfig>, config: DailyNotesConfig) {
    IsPlan(es, rs, Nets(was, now), config, prior)
  }

  // A missing cursor has no prior routing and nothing on the old side.
  ghost predicate Comparable(was: Tasks, prior: Option<DailyNotesConfig>) {
    prior.None? ==> was == map[]
  }

  // What is asked for: the new day of every slug that moves, and its old day.
  lemma AskedIsDay(was: Tasks, now: Tasks, rehome: bool, slug: Slug, d: Date)
    ensures IsAsked(Ask(Ensure, slug, d), Nets(was, now), rehome) <==>
      (DayOf(was, slug) != DayOf(now, slug) || rehome) && DayOf(now, slug) == Some(d)
    ensures IsAsked(Ask(Remove, slug, d), Nets(was, now), rehome) <==>
      (DayOf(was, slug) != DayOf(now, slug) || rehome) && DayOf(was, slug) == Some(d)
  {
    hide ClassifyNetChange;
    ClassifyMeaning(StateOf(was, slug), StateOf(now, slug));
    if slug in Nets(was, now) { assert Nets(was, now)[slug] == ClassifyNetChange(StateOf(was, slug), StateOf(now, slug)); }
  }

  lemma DatedIsDay(was: Tasks, now: Tasks, prior: Option<DailyNotesConfig>, config: DailyNotesConfig, s: Step)
    ensures s.op == Ensure ==> (Dated(s, Nets(was, now), config, prior) <==>
      Moves(was, now, prior, config, s.slug) && DayOf(now, s.slug) == Some(s.date) && NoteOf(Some(config), now, s.slug) == Some(s.target))
    ensures s.op == Remove ==> (Dated(s, Nets(was, now), config, prior) <==>
      Moves(was, now, prior, config, s.slug) && DayOf(was, s.slug) == Some(s.date) && NoteOf(prior, was, s.slug) == Some(s.target))
  {
    hide Resolve, Nets, DayOf, IsAsked;
    AskedIsDay(was, now, RoutingChanged(prior, config), s.slug, s.date);
  }

  lemma AskedIsNote(was: Tasks, now: Tasks, prior: Option<DailyNotesConfig>, config: DailyNotesConfig, t: Path, slug: Slug)
    ensures AskedFor(Ensure, (t, slug), Nets(was, now), config, prior)
      <==> Moves(was, now, prior, config, slug) && NoteOf(Some(config), now, slug) == Some(t)
    ensures AskedFor(Remove, (t, slug), Nets(was, now), config, prior)
      <==> Moves(was, now, prior, config, slug) && NoteOf(prior, was, slug) == Some(t)
  {
    hide Resolve, Nets, IsAsked, DayOf;
    var rehome := RoutingChanged(prior, config);
    forall ask: Ask | ask.slug == slug
      ensures ask.op == Ensure ==> (IsAsked(ask, Nets(was, now), rehome) <==> Moves(was, now, prior, config, slug) && DayOf(now, slug) == Some(ask.date))
      ensures ask.op == Remove ==> (IsAsked(ask, Nets(was, now), rehome) <==> Moves(was, now, prior, config, slug) && DayOf(was, slug) == Some(ask.date))
    {
      AskedIsDay(was, now, rehome, slug, ask.date);
    }
    hide Moves;
    if DayOf(now, slug).Some? { assert Ask(Ensure, slug, DayOf(now, slug).value).slug == slug; }
    if DayOf(was, slug).Some? { assert Ask(Remove, slug, DayOf(was, slug).value).slug == slug; }
  }

  lemma PlanKeys(es: seq<Step>, rs: seq<Step>, was: Tasks, now: Tasks, prior: Option<DailyNotesConfig>, config: DailyNotesConfig, t: Path, slug: Slug)
    requires PlanFor(es, rs, was, now, prior, config)
    ensures (t, slug) in Keys(es) <==> Moves(was, now, prior, config, slug) && NoteOf(Some(config), now, slug) == Some(t)
    ensures (t, slug) in Keys(rs) <==>
      Moves(was, now, prior, config, slug) && NoteOf(prior, was, slug) == Some(t) && NoteOf(Some(config), now, slug) != Some(t)
  {
    AskedIsNote(was, now, prior, config, t, slug);
    hide AskedFor, Keys, Moves, NoteOf, SortedSteps;
    assert (t, slug) in Keys(es) <==> AskedFor(Ensure, (t, slug), Nets(was, now), config, prior);
    assert (t, slug) in Keys(rs) <==> AskedFor(Remove, (t, slug), Nets(was, now), config, prior) && (t, slug) !in Keys(es);
  }

  // A slug has steps exactly when its day changed, or the routing did and it keeps a day: an unchanged task
  // under an unchanged routing is left alone.
  lemma StepsExact(es: seq<Step>, rs: seq<Step>, was: Tasks, now: Tasks, prior: Option<DailyNotesConfig>, config: DailyNotesConfig, slug: Slug)
    requires PlanFor(es, rs, was, now, prior, config)
    ensures (exists s | s in es + rs :: s.slug == slug) <==>
      && (DayOf(was, slug) != DayOf(now, slug) || (prior.Some? && prior.value != config && DayOf(now, slug).Some?))
      && (NoteOf(prior, was, slug).Some? || NoteOf(Some(config), now, slug).Some?)
  {
    hide NoteOf, DayOf, Keys, PlanFor;
    forall s | s in es + rs ensures (s.target, s.slug) in Keys(es) + Keys(rs) {
      if s in es { StepInKeys(es, s); } else { StepInKeys(rs, s); }
    }
    forall t: Path
      ensures (t, slug) in Keys(es) <==> Moves(was, now, prior, config, slug) && NoteOf(Some(config), now, slug) == Some(t)
      ensures (t, slug) in Keys(rs) <==>
        Moves(was, now, prior, config, slug) && NoteOf(prior, was, slug) == Some(t) && NoteOf(Some(config), now, slug) != Some(t)
    {
      PlanKeys(es, rs, was, now, prior, config, t, slug);
    }
    forall t: Path | (t, slug) in Keys(es) + Keys(rs) ensures exists s | s in es + rs :: s.slug == slug { StepOfKey(es, rs, t, slug); }
    if NoteOf(prior, was, slug).Some? { assert (NoteOf(prior, was, slug).value, slug) in Keys(es) + Keys(rs) || !Moves(was, now, prior, config, slug); }
    if NoteOf(Some(config), now, slug).Some? { assert (NoteOf(Some(config), now, slug).value, slug) in Keys(es) + Keys(rs) || !Moves(was, now, prior, config, slug); }
  }

  lemma StepOfKey(es: seq<Step>, rs: seq<Step>, t: Path, slug: Slug)
    requires (t, slug) in Keys(es) + Keys(rs)
    ensures exists s | s in es + rs :: s.slug == slug
  {
    if (t, slug) in Keys(es) {
      var s :| s in es && StepKey(s) == (t, slug);
      assert s in es + rs;
    } else {
      var s :| s in rs && StepKey(s) == (t, slug);
      assert s in es + rs;
    }
  }

  // ----- convergence -----

  ghost predicate LinksWithin(links: Links, slug: Slug, p: Option<Path>, n: Option<Path>) {
    forall t: Path | (t, slug) in links :: p == Some(t) || n == Some(t)
  }

  // The slug's links lie at its old note, its new note or both, and it is not left without a link
  // while both exist.
  ghost predicate Between(links: Links, slug: Slug, p: Option<Path>, n: Option<Path>) {
    && LinksWithin(links, slug, p, n)
    && (p.Some? && n.Some? ==> exists t: Path :: (t, slug) in links)
  }

  ghost predicate AllBetween(links: Links, was: Tasks, now: Tasks, prior: Option<DailyNotesConfig>, config: DailyNotesConfig) {
    forall slug: Slug :: Between(links, slug, NoteOf(prior, was, slug), NoteOf(Some(config), now, slug))
  }

  lemma SameNoteWithoutMove(was: Tasks, now: Tasks, prior: Option<DailyNotesConfig>, config: DailyNotesConfig, slug: Slug)
    requires Comparable(was, prior) && !Moves(was, now, prior, config, slug)
    ensures NoteOf(prior, was, slug) == NoteOf(Some(config), now, slug)
  {
    hide Resolve;
  }

  // Every prefix of a plan, applied to links between the old and the new notes, leaves them between.
  lemma PrefixStaysBetween(links: Links, es: seq<Step>, rs: seq<Step>, was: Tasks, now: Tasks, prior: Option<DailyNotesConfig>, config: DailyNotesConfig, k: nat)
    requires PlanFor(es, rs, was, now, prior, config) && AllBetween(links, was, now, prior, config)
    requires k <= |es + rs|
    ensures AllBetween(ApplySteps(links, (es + rs)[..k]), was, now, prior, config)
  {
    hide ApplySteps, NoteOf, Moves, Keys, PlanFor;
    PlanOps(es, rs, was, now, prior, config);
    ApplyPrefix(links, es, rs, k);
    var after := ApplySteps(links, (es + rs)[..k]);
    forall slug: Slug ensures Between(after, slug, NoteOf(prior, was, slug), NoteOf(Some(config), now, slug)) {
      var p, n := NoteOf(prior, was, slug), NoteOf(Some(config), now, slug);
      assert Between(links, slug, p, n);
      forall t: Path
        ensures (t, slug) in Keys(es) ==> n == Some(t)
        ensures (t, slug) in Keys(rs) ==> n != Some(t) && p == Some(t)
      {
        PlanKeys(es, rs, was, now, prior, config, t, slug);
      }
      if p.Some? && n.Some? {
        var t: Path :| (t, slug) in links;
        if k <= |es| {
          assert (t, slug) in after;
        } else {
          PlanKeys(es, rs, was, now, prior, config, t, slug);
          PlanKeys(es, rs, was, now, prior, config, n.value, slug);
          assert (t, slug) in Keys(rs) ==> (n.value, slug) in Keys(es);
          assert (t, slug) in after || (n.value, slug) in after;
        }
      }
    }
  }

  lemma PlanOps(es: seq<Step>, rs: seq<Step>, was: Tasks, now: Tasks, prior: Option<DailyNotesConfig>, config: DailyNotesConfig)
    requires PlanFor(es, rs, was, now, prior, config)
    ensures forall s | s in es :: s.op == Ensure
    ensures forall s | s in rs :: s.op == Remove
  {
    hide Keys, AskedFor, SortedSteps;
  }

  // Exactly when a whole pass leaves the slug at its new note only: its links must lie within the old
  // and the new note, and if the pass has no step for it they must be right already.
  lemma PassExact(links: Links, es: seq<Step>, rs: seq<Step>, was: Tasks, now: Tasks, prior: Option<DailyNotesConfig>, config: DailyNotesConfig, slug: Slug)
    requires PlanFor(es, rs, was, now, prior, config)
    ensures var p, n := NoteOf(prior, was, slug), NoteOf(Some(config), now, slug);
      LinkedExactly(ApplySteps(links, es + rs), slug, n) <==>
        LinksWithin(links, slug, p, n) && (!Moves(was, now, prior, config, slug) ==> LinkedExactly(links, slug, n))
  {
    hide ApplySteps, NoteOf, Moves, Keys, PlanFor;
    PlanOps(es, rs, was, now, prior, config);
    ApplyPrefix(links, es, rs, |es + rs|);
    assert (es + rs)[..|es + rs|] == es + rs;
    forall t: Path
      ensures (t, slug) in Keys(es) <==> Moves(was, now, prior, config, slug) && NoteOf(Some(config), now, slug) == Some(t)
      ensures (t, slug) in Keys(rs) <==> Moves(was, now, prior, config, slug) && NoteOf(prior, was, slug) == Some(t) && NoteOf(Some(config), now, slug) != Some(t)
    {
      PlanKeys(es, rs, was, now, prior, config, t, slug);
    }
    var after := ApplySteps(links, es + rs);
    assert after == links + Keys(es) - Keys(rs);
    var p, n := NoteOf(prior, was, slug), NoteOf(Some(config), now, slug);
    if Moves(was, now, prior, config, slug) {
      forall t: Path ensures (t, slug) in after <==> n == Some(t) || ((t, slug) in links && p != Some(t)) {}
      if LinkedExactly(after, slug, n) {
        forall t: Path | (t, slug) in links ensures p == Some(t) || n == Some(t) {
          assert (t, slug) in after <==> n == Some(t);
        }
      }
    } else {
      forall t: Path ensures (t, slug) in after <==> (t, slug) in links {}
    }
  }

  // A whole pass from links between the old and the new notes settles every link.
  lemma PassSettles(links: Links, es: seq<Step>, rs: seq<Step>, was: Tasks, now: Tasks, prior: Option<DailyNotesConfig>, config: DailyNotesConfig)
    requires Comparable(was, prior)
    requires PlanFor(es, rs, was, now, prior, config) && AllBetween(links, was, now, prior, config)
    ensures Settled(ApplySteps(links, es + rs), now, config)
  {
    hide ApplySteps, NoteOf, Moves, PlanFor;
    forall slug: Slug ensures LinkedExactly(ApplySteps(links, es + rs), slug, NoteOf(Some(config), now, slug)) {
      PassExact(links, es, rs, was, now, prior, config, slug);
      var p, n := NoteOf(prior, was, slug), NoteOf(Some(config), now, slug);
      assert Between(links, slug, p, n);
      if !Moves(was, now, prior, config, slug) {
        SameNoteWithoutMove(was, now, prior, config, slug);
      }
    }
  }

  // Any number of interrupted passes, each cut after any number of steps, then a whole one.
  function Interrupted(links: Links, steps: seq<Step>, cuts: seq<nat>): Links
    requires forall k | k in cuts :: k <= |steps|
    decreases |cuts|
  {
    if cuts == [] then links
    else
      assert cuts[0] in cuts && forall k | k in cuts[1..] :: k in cuts;
      Interrupted(ApplySteps(links, steps[..cuts[0]]), steps, cuts[1..])
  }

  lemma {:induction false} RetriesConverge(links: Links, es: seq<Step>, rs: seq<Step>, cuts: seq<nat>, was: Tasks, now: Tasks, prior: Option<DailyNotesConfig>, config: DailyNotesConfig)
    requires Comparable(was, prior)
    requires PlanFor(es, rs, was, now, prior, config) && AllBetween(links, was, now, prior, config)
    requires forall k | k in cuts :: k <= |es + rs|
    ensures AllBetween(Interrupted(links, es + rs, cuts), was, now, prior, config)
    ensures Settled(ApplySteps(Interrupted(links, es + rs, cuts), es + rs), now, config)
    decreases |cuts|
  {
    hide ApplySteps, AllBetween, PlanFor, Settled;
    if cuts == [] {
      PassSettles(links, es, rs, was, now, prior, config);
    } else {
      assert cuts[0] in cuts && forall k | k in cuts[1..] :: k in cuts;
      PrefixStaysBetween(links, es, rs, was, now, prior, config, cuts[0]);
      RetriesConverge(ApplySteps(links, (es + rs)[..cuts[0]]), es, rs, cuts[1..], was, now, prior, config);
    }
  }

  // ----- the pairs of a plan, from the tasks alone -----

  // The slugs a pass links from their current note, and those it unlinks from an old one.
  ghost function Gaining(was: Tasks, now: Tasks, prior: Option<DailyNotesConfig>, config: DailyNotesConfig): set<Slug> {
    set slug | slug in was.Keys + now.Keys && Moves(was, now, prior, config, slug) && NoteOf(Some(config), now, slug).Some?
  }

  ghost function Losing(was: Tasks, now: Tasks, prior: Option<DailyNotesConfig>, config: DailyNotesConfig): set<Slug> {
    set slug | slug in was.Keys + now.Keys && Moves(was, now, prior, config, slug)
      && NoteOf(prior, was, slug).Some? && NoteOf(prior, was, slug) != NoteOf(Some(config), now, slug)
  }

  ghost function EnsureKeys(was: Tasks, now: Tasks, prior: Option<DailyNotesConfig>, config: DailyNotesConfig): Links {
    set slug | slug in Gaining(was, now, prior, config) && NoteOf(Some(config), now, slug).Some? :: (NoteOf(Some(config), now, slug).value, slug)
  }

  ghost function RemoveKeys(was: Tasks, now: Tasks, prior: Option<DailyNotesConfig>, config: DailyNotesConfig): Links {
    set slug | slug in Losing(was, now, prior, config) && NoteOf(prior, was, slug).Some? :: (NoteOf(prior, was, slug).value, slug)
  }

  lemma KeysMeaning(was: Tasks, now: Tasks, prior: Option<DailyNotesConfig>, config: DailyNotesConfig, t: Path, slug: Slug)
    ensures (t, slug) in EnsureKeys(was, now, prior, config) <==>
      Moves(was, now, prior, config, slug) && NoteOf(Some(config), now, slug) == Some(t)
    ensures (t, slug) in RemoveKeys(was, now, prior, config) <==>
      Moves(was, now, prior, config, slug) && NoteOf(prior, was, slug) == Some(t) && NoteOf(Some(config), now, slug) != Some(t)
  {
    MovesIsKnown(was, now, prior, config, slug);
    hide NoteOf, Moves;
  }

  lemma MovesIsKnown(was: Tasks, now: Tasks, prior: Option<DailyNotesConfig>, config: DailyNotesConfig, slug: Slug)
    ensures Moves(was, now, prior, config, slug) ==> slug in was.Keys + now.Keys
  {
  }

  // A plan is one exactly when its pairs are these, each once and sorted.
  lemma PlanExact(es: seq<Step>, rs: seq<Step>, was: Tasks, now: Tasks, prior: Option<DailyNotesConfig>, config: DailyNotesConfig)
    ensures PlanFor(es, rs, was, now, prior, config) <==>
      && (forall s | s in es :: s.op == Ensure && s.routing == Current && DayOf(now, s.slug) == Some(s.date))
      && (forall s | s in rs :: s.op == Remove && s.routing == Prior && DayOf(was, s.slug) == Some(s.date))
      && Keys(es) == EnsureKeys(was, now, prior, config) && Keys(rs) == RemoveKeys(was, now, prior, config)
      && SortedSteps(es) && SortedSteps(rs) && |Keys(es)| == |es| && |Keys(rs)| == |rs|
  {
    hide AskedFor, Keys, Moves, NoteOf, SortedSteps, EnsureKeys, RemoveKeys, Nets, Dated, DayOf;
    var nets := Nets(was, now);
    forall s: Step
      ensures s in es && s.op == Ensure && Keys(es) == EnsureKeys(was, now, prior, config) ==>
        (Dated(s, nets, config, prior) <==> DayOf(now, s.slug) == Some(s.date))
      ensures s in rs && s.op == Remove && Keys(rs) == RemoveKeys(was, now, prior, config) ==>
        (Dated(s, nets, config, prior) <==> DayOf(was, s.slug) == Some(s.date))
    {
      DatedIsDay(was, now, prior, config, s);
      if s in es { StepInKeys(es, s); }
      if s in rs { StepInKeys(rs, s); }
      KeysMeaning(was, now, prior, config, s.target, s.slug);
    }
    forall key: (Path, Slug)
      ensures key in EnsureKeys(was, now, prior, config) <==> AskedFor(Ensure, key, nets, config, prior)
      ensures key in RemoveKeys(was, now, prior, config) <==>
        AskedFor(Remove, key, nets, config, prior) && key !in EnsureKeys(was, now, prior, config)
    {
      assert key == (key.0, key.1);
      AskedIsNote(was, now, prior, config, key.0, key.1);
      KeysMeaning(was, now, prior, config, key.0, key.1);
    }
  }

  lemma StepInKeys(steps: seq<Step>, s: Step)
    requires s in steps
    ensures (s.target, s.slug) in Keys(steps)
  {
    assert StepKey(s) == (s.target, s.slug);
  }

  // There is only one: the steps of the given pairs are determined, and so is their order.
  lemma PlanUnique(es: seq<Step>, rs: seq<Step>, es2: seq<Step>, rs2: seq<Step>, was: Tasks, now: Tasks, prior: Option<DailyNotesConfig>, config: DailyNotesConfig)
    requires PlanFor(es, rs, was, now, prior, config) && PlanFor(es2, rs2, was, now, prior, config)
    ensures es == es2 && rs == rs2
  {
    PlanExact(es, rs, was, now, prior, config);
    PlanExact(es2, rs2, was, now, prior, config);
    hide PlanFor, EnsureKeys, RemoveKeys, SortedSteps, Keys, DayOf;
    SortedUnique(es, es2);
    SortedUnique(rs, rs2);
  }

  // A sorted list of steps is determined by the steps of its pairs.
  lemma {:induction false} SortedUnique(a: seq<Step>, b: seq<Step>)
    requires SortedSteps(a) && SortedSteps(b) && Keys(a) == Keys(b) && |Keys(a)| == |a| && |Keys(b)| == |b|
    requires forall s, t | s in a && t in b && StepKey(s) == StepKey(t) :: s == t
    ensures a == b
    decreases |a|
  {
    hide *;
    assert |a| == |b|;
    if a != [] {
      SameFirst(a, b);
      SortedTail(a);
      SortedTail(b);
      SortedUnique(a[1..], b[1..]);
      assert a == [a[0]] + a[1..] && b == [b[0]] + b[1..];
    }
  }

  lemma SameFirst(a: seq<Step>, b: seq<Step>)
    requires SortedSteps(a) && SortedSteps(b) && Keys(a) == Keys(b) && a != [] && b != []
    requires forall s, t | s in a && t in b && StepKey(s) == StepKey(t) :: s == t
    ensures a[0] == b[0]
  {
    hide SortedSteps, StepLe;
    StepInKeys(a, a[0]);
    StepInKeys(b, b[0]);
    var i :| 0 <= i < |a| && StepKey(a[i]) == StepKey(b[0]);
    var j :| 0 <= j < |b| && StepKey(b[j]) == StepKey(a[0]);
    FirstIsLeast(a, i);
    FirstIsLeast(b, j);
    SameKey(a[0], b[0], a[i], b[j]);
  }

  lemma FirstIsLeast(steps: seq<Step>, i: nat)
    requires SortedSteps(steps) && i < |steps|
    ensures i == 0 || StepLe(steps[0], steps[i])
  {
  }

  lemma SameKey(a: Step, b: Step, a2: Step, b2: Step)
    requires StepKey(a2) == StepKey(b) && StepKey(b2) == StepKey(a)
    requires (a == a2 || StepLe(a, a2)) && (b == b2 || StepLe(b, b2))
    ensures StepKey(a) == StepKey(b)
  {
    hide LexLe;
    if StepKey(a) != StepKey(b) {
      assert StepLe(a, b) && StepLe(b, a);
      if a.target == b.target { LexAntisymmetric(a.slug, b.slug); } else { LexAntisymmetric(a.target, b.target); }
    }
  }

  lemma SortedTail(steps: seq<Step>)
    requires steps != [] && SortedSteps(steps) && |Keys(steps)| == |steps|
    ensures SortedSteps(steps[1..]) && Keys(steps[1..]) == Keys(steps) - {StepKey(steps[0])} && |Keys(steps[1..])| == |steps| - 1
    ensures forall s | s in steps[1..] :: s in steps
  {
    hide StepLe;
    KeysCons(steps);
    FewKeys(steps[1..]);
    hide Keys;
  }

  lemma {:induction false} FewKeys(steps: seq<Step>)
    ensures |Keys(steps)| <= |steps|
    decreases |steps|
  {
    if steps != [] {
      KeysCons(steps);
      FewKeys(steps[1..]);
      hide Keys;
    }
  }

  // A plan has every pair once.
  lemma PlanPairs(es: seq<Step>, rs: seq<Step>, was: Tasks, now: Tasks, prior: Option<DailyNotesConfig>, config: DailyNotesConfig)
    requires PlanFor(es, rs, was, now, prior, config)
    ensures forall i, j | 0 <= i < j < |es + rs| :: StepKey((es + rs)[i]) != StepKey((es + rs)[j])
  {
    assert Keys(es) !! Keys(rs) && |Keys(es)| == |es| && |Keys(rs)| == |rs| by {
      hide AskedFor, SortedSteps, Dated, Keys;
      assert forall key | key in Keys(rs) :: key !in Keys(es);
    }
    hide PlanFor;
    EachOnce(es);
    EachOnce(rs);
    forall i, j | 0 <= i < j < |es + rs| ensures StepKey((es + rs)[i]) != StepKey((es + rs)[j]) {
      if i < |es| <= j {
        assert StepKey(es[i]) in Keys(es) by { StepInKeys(es, es[i]); }
        assert StepKey(rs[j - |es|]) in Keys(rs) by { StepInKeys(rs, rs[j - |es|]); }
      }
    }
  }

  lemma {:induction false} EachOnce(steps: seq<Step>)
    requires |Keys(steps)| == |steps|
    ensures forall i, j | 0 <= i < j < |steps| :: StepKey(steps[i]) != StepKey(steps[j])
    decreases |steps|
  {
    if steps != [] {
      KeysCons(steps);
      FewKeys(steps[1..]);
      EachOnce(steps[1..]);
      forall j | 1 <= j < |steps| ensures StepKey(steps[j]) in Keys(steps[1..]) { StepInKeys(steps[1..], steps[1..][j - 1]); }
      hide Keys;
    }
  }

  // Steps for any set of pairs, each once and sorted.
  lemma {:induction false} StepsFor(pairs: Links, op: Operation, routing: Routing, tasks: Tasks) returns (steps: seq<Step>)
    requires forall key | key in pairs :: DayOf(tasks, key.1).Some?
    ensures forall s | s in steps :: s.op == op && s.routing == routing && DayOf(tasks, s.slug) == Some(s.date)
    ensures Keys(steps) == pairs && SortedSteps(steps) && |steps| == |pairs|
    decreases |pairs|
  {
    hide SortedSteps;
    if pairs == {} {
      steps := [];
      NoSteps();
    } else {
      var key :| key in pairs;
      var rest := StepsFor(pairs - {key}, op, routing, tasks);
      var s := Step(op, key.1, DayOf(tasks, key.1).value, routing, key.0);
      InsertStepSorted(s, rest);
      hide InsertStep;
      KeysInsert(s, rest);
      steps := InsertStep(s, rest);
    }
  }

  lemma NoSteps()
    ensures SortedSteps([]) && Keys([]) == {}
  {
  }

  lemma KeysHaveDays(was: Tasks, now: Tasks, prior: Option<DailyNotesConfig>, config: DailyNotesConfig)
    ensures forall key | key in EnsureKeys(was, now, prior, config) :: DayOf(now, key.1).Some?
    ensures forall key | key in RemoveKeys(was, now, prior, config) :: DayOf(was, key.1).Some?
  {
    hide Moves, Resolve;
  }

  // Every comparison of tasks has a plan.
  lemma PlanExists(was: Tasks, now: Tasks, prior: Option<DailyNotesConfig>, config: DailyNotesConfig) returns (es: seq<Step>, rs: seq<Step>)
    ensures PlanFor(es, rs, was, now, prior, config)
  {
    hide *;
    KeysHaveDays(was, now, prior, config);
    es := StepsFor(EnsureKeys(was, now, prior, config), Ensure, Current, now);
    rs := StepsFor(RemoveKeys(was, now, prior, config), Remove, Prior, was);
    PlanExact(es, rs, was, now, prior, config);
  }

  // ----- the bound on established passes -----

  // As many pairs as slugs when each slug has exactly one.
  lemma {:induction false} OnePairEach(slugs: set<Slug>, pairs: Links)
    requires forall slug | slug in slugs :: exists t: Path :: (t, slug) in pairs
    requires forall t: Path, slug: Slug | (t, slug) in pairs :: slug in slugs
    requires forall t: Path, u: Path, slug: Slug | (t, slug) in pairs && (u, slug) in pairs :: t == u
    ensures |pairs| == |slugs|
    decreases |slugs|
  {
    if slugs == {} {
      forall key ensures key !in pairs {
        assert key == (key.0, key.1);
      }
      assert pairs == {};
    } else {
      var slug :| slug in slugs;
      var t: Path :| (t, slug) in pairs;
      forall other | other in slugs - {slug} ensures exists u: Path :: (u, other) in pairs - {(t, slug)} {
        var u: Path :| (u, other) in pairs;
        assert (u, other) in pairs - {(t, slug)};
      }
      OnePairEach(slugs - {slug}, pairs - {(t, slug)});
    }
  }

  // The size of a plan: one step for every slug that gains a link, one for every slug that loses one.  So an
  // established pass is refused for its size exactly when these are more than MAX_TARGETS together.
  lemma PlanSizeExact(es: seq<Step>, rs: seq<Step>, was: Tasks, now: Tasks, prior: Option<DailyNotesConfig>, config: DailyNotesConfig)
    requires PlanFor(es, rs, was, now, prior, config)
    ensures |es| == |Gaining(was, now, prior, config)| && |rs| == |Losing(was, now, prior, config)|
    ensures |es + rs| == |Gaining(was, now, prior, config)| + |Losing(was, now, prior, config)|
  {
    PlanExact(es, rs, was, now, prior, config);
    hide PlanFor, Keys, Moves, NoteOf, SortedSteps;
    forall slug | slug in Gaining(was, now, prior, config)
      ensures exists t: Path :: (t, slug) in EnsureKeys(was, now, prior, config)
    {
      assert (NoteOf(Some(config), now, slug).value, slug) in EnsureKeys(was, now, prior, config);
    }
    forall slug | slug in Losing(was, now, prior, config)
      ensures exists t: Path :: (t, slug) in RemoveKeys(was, now, prior, config)
    {
      assert (NoteOf(prior, was, slug).value, slug) in RemoveKeys(was, now, prior, config);
    }
    OnePairEach(Gaining(was, now, prior, config), EnsureKeys(was, now, prior, config));
    OnePairEach(Losing(was, now, prior, config), RemoveKeys(was, now, prior, config));
  }

  // A slug that moves from one note to another counts twice, so a pass that moves more than eight is over
  // the bound.
  lemma MovesOverBound(es: seq<Step>, rs: seq<Step>, was: Tasks, now: Tasks, prior: Option<DailyNotesConfig>, config: DailyNotesConfig, moved: set<Slug>)
    requires PlanFor(es, rs, was, now, prior, config)
    requires forall slug | slug in moved ::
      && Moves(was, now, prior, config, slug)
      && NoteOf(prior, was, slug).Some? && NoteOf(Some(config), now, slug).Some?
      && NoteOf(prior, was, slug) != NoteOf(Some(config), now, slug)
    ensures |es + rs| >= 2 * |moved|
    ensures |moved| > 8 ==> |es + rs| > MAX_TARGETS
  {
    PlanSizeExact(es, rs, was, now, prior, config);
    forall slug | slug in moved ensures slug in was.Keys + now.Keys { MovesIsKnown(was, now, prior, config, slug); }
    hide NoteOf, Moves, PlanFor;
    SubsetSize(moved, Gaining(was, now, prior, config));
    SubsetSize(moved, Losing(was, now, prior, config));
  }
}
