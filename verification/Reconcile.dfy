// Planning one reconciliation pass: the net change of each task, the composed ensure/remove steps,
// and what applying them does to the links of the daily notes.
module Reconcile {
  import opened Text
  import opened Order
  import opened DailyFormat

  // ----- net changes -----

  datatype TaskState = TaskState(present: bool, isTask: bool, location: string, scheduled: Option<Date>, archived: bool)

  datatype NetClass = Added | Removed | TagLoss | Rescheduled | Unscheduled | ArchiveMove | Unchanged

  datatype NetChange = NetChange(cls: NetClass, currentScheduled: Option<Date>, ensureDate: Option<Date>, removeDate: Option<Date>)

  const ABSENT := TaskState(false, false, "", None, false)

  // Net external change of one slug between the cursor's commit and now (None is an absent file).
  function ClassifyNetChange(oldState: Option<TaskState>, newState: Option<TaskState>): NetChange {
    var o := if oldState.Some? then oldState.value else ABSENT;
    var n := if newState.Some? then newState.value else ABSENT;
    if !o.present && !n.present then NetChange(Unchanged, None, None, None)
    else if !o.present then
      if n.isTask then NetChange(Added, n.scheduled, n.scheduled, None) else NetChange(Unchanged, None, None, None)
    else if !n.present then NetChange(Removed, None, None, if o.isTask then o.scheduled else None)
    else if o.isTask && !n.isTask then NetChange(TagLoss, None, None, o.scheduled)
    else if !o.isTask && n.isTask then NetChange(Added, n.scheduled, n.scheduled, None)
    else if !o.isTask && !n.isTask then NetChange(Unchanged, None, None, None)
    else if o.scheduled != n.scheduled then
      if o.scheduled.None? then NetChange(Rescheduled, n.scheduled, n.scheduled, None)
      else if n.scheduled.None? then NetChange(Unscheduled, None, None, o.scheduled)
      else NetChange(Rescheduled, n.scheduled, n.scheduled, o.scheduled)
    else if o.location != n.location then NetChange(ArchiveMove, n.scheduled, None, None)
    else NetChange(Unchanged, n.scheduled, None, None)
  }

  // The day whose note should link to the task: only a present, tagged, scheduled task has one.
  function LinkDate(state: Option<TaskState>): Option<Date> {
    if state.Some? && state.value.present && state.value.isTask then state.value.scheduled else None
  }

  predicate Rehomes(net: NetChange) {
    (net.cls == Unchanged || net.cls == ArchiveMove) && net.currentScheduled.Some?
  }

  // The plan in terms of link days alone: ensure the new day and remove the old one exactly when they
  // differ; re-home on a routing change exactly the tasks that keep their day.
  lemma ClassifyMeaning(oldState: Option<TaskState>, newState: Option<TaskState>)
    ensures var net, p, n := ClassifyNetChange(oldState, newState), LinkDate(oldState), LinkDate(newState);
      && net.ensureDate == (if p != n then n else None)
      && net.removeDate == (if p != n then p else None)
      && (Rehomes(net) <==> p == n && n.Some?)
      && (Rehomes(net) ==> net.currentScheduled == n)
  {
  }

  // Which class a change falls into, from the two sides alone.
  lemma ClassExact(oldState: Option<TaskState>, newState: Option<TaskState>)
    ensures var cls := ClassifyNetChange(oldState, newState).cls;
      var there, here := oldState.Some? && oldState.value.present, newState.Some? && newState.value.present;
      var was, now := there && oldState.value.isTask, here && newState.value.isTask;
      && (cls == Added <==> !was && now)
      && (cls == Removed <==> there && !here)
      && (cls == TagLoss <==> was && here && !now)
      && (cls == Rescheduled <==> was && now && newState.value.scheduled.Some? && oldState.value.scheduled != newState.value.scheduled)
      && (cls == Unscheduled <==> was && now && newState.value.scheduled.None? && oldState.value.scheduled.Some?)
      && (cls == ArchiveMove <==> was && now && oldState.value.scheduled == newState.value.scheduled && oldState.value.location != newState.value.location)
  {
  }

  // ----- composition -----

  type Slug = string
  type Path = string

  datatype Operation = Ensure | Remove
  datatype Routing = Current | Prior
  datatype Step = Step(op: Operation, slug: Slug, date: Date, routing: Routing, target: Path)

  datatype Profile = Profile(tasksFolder: string, moveArchivedTasks: bool, archiveFolder: string)

  const MAX_TARGETS: nat := 16

  predicate InFolder(target: Path, folder: string) {
    target == folder || folder + "/" <= target
  }

  // The projection writer must never touch task or archive Markdown.
  predicate Collides(profile: Profile, target: Path) {
    || InFolder(target, profile.tasksFolder)
    || (profile.moveArchivedTasks && profile.archiveFolder != "" && InFolder(target, profile.archiveFolder))
  }

  // The path is the folder or lies below it.
  ghost predicate Inside(path: Path, folder: string) {
    path == folder || exists rest: string :: path == folder + "/" + rest
  }

  lemma CollidesExact(profile: Profile, target: Path)
    ensures Collides(profile, target) <==>
      || Inside(target, profile.tasksFolder)
      || (profile.moveArchivedTasks && profile.archiveFolder != "" && Inside(target, profile.archiveFolder))
  {
    forall folder: string ensures InFolder(target, folder) <==> Inside(target, folder) {
      if folder + "/" <= target { assert target == folder + "/" + target[|folder| + 1..]; }
    }
  }

  predicate RoutingChanged(prior: Option<DailyNotesConfig>, config: DailyNotesConfig) {
    prior.Some? && prior.value != config
  }

  datatype Ask = Ask(op: Operation, slug: Slug, date: Date)

  // What one net change asks for: its own days, and for a re-homed task its day under both routings.
  function Asks(slug: Slug, net: NetChange, rehome: bool): seq<Ask> {
    (if net.ensureDate.Some? then [Ask(Ensure, slug, net.ensureDate.value)] else [])
    + (if net.removeDate.Some? then [Ask(Remove, slug, net.removeDate.value)] else [])
    + (if rehome && Rehomes(net) then [Ask(Remove, slug, net.currentScheduled.value), Ask(Ensure, slug, net.currentScheduled.value)] else [])
  }

  ghost predicate IsAsked(ask: Ask, nets: map<Slug, NetChange>, rehome: bool) {
    ask.slug in nets && ask in Asks(ask.slug, nets[ask.slug], rehome)
  }

  // Ensures route through the current configuration, removes through the prior one.
  ghost function TargetOf(ask: Ask, config: DailyNotesConfig, prior: Option<DailyNotesConfig>): Option<Path> {
    match ask.op
    case Ensure => Resolve(config, ask.date)
    case Remove => if prior.Some? then Resolve(prior.value, ask.date) else None
  }

  // The pair (target, slug) is asked for with this operation.
  ghost predicate AskedFor(op: Operation, key: (Path, Slug), nets: map<Slug, NetChange>, config: DailyNotesConfig, prior: Option<DailyNotesConfig>) {
    exists ask: Ask :: IsAsked(ask, nets, RoutingChanged(prior, config)) && ask.op == op && ask.slug == key.1
      && TargetOf(ask, config, prior) == Some(key.0)
  }

  function StepKey(s: Step): (Path, Slug) { (s.target, s.slug) }

  function Keys(steps: seq<Step>): set<(Path, Slug)> {
    set s | s in steps :: StepKey(s)
  }

  predicate StepLe(a: Step, b: Step) {
    if a.target == b.target then LexLe(a.slug, b.slug) else LexLe(a.target, b.target)
  }

  ghost predicate SortedSteps(steps: seq<Step>) {
    forall i, j | 0 <= i < j < |steps| :: StepLe(steps[i], steps[j])
  }

  // The step is for a day that is asked for, and its target is where that day resolves to.
  ghost predicate Dated(s: Step, nets: map<Slug, NetChange>, config: DailyNotesConfig, prior: Option<DailyNotesConfig>) {
    var ask := Ask(s.op, s.slug, s.date);
    IsAsked(ask, nets, RoutingChanged(prior, config)) && TargetOf(ask, config, prior) == Some(s.target)
  }

  // A composed plan: all ensures, then all removes of pairs that are not ensured, each sorted and each
  // (target, slug) pair once.
  ghost predicate IsPlan(es: seq<Step>, rs: seq<Step>, nets: map<Slug, NetChange>, config: DailyNotesConfig, prior: Option<DailyNotesConfig>) {
    && (forall s | s in es :: s.op == Ensure && s.routing == Current)
    && (forall s | s in rs :: s.op == Remove && s.routing == Prior)
    && (forall s | s in es + rs :: Dated(s, nets, config, prior))
    && (forall key :: key in Keys(es) <==> AskedFor(Ensure, key, nets, config, prior))
    && (forall key :: key in Keys(rs) <==> AskedFor(Remove, key, nets, config, prior) && key !in Keys(es))
    && SortedSteps(es) && SortedSteps(rs)
    && |Keys(es)| == |es| && |Keys(rs)| == |rs|
  }

  // Sorted is by target, then by slug, each in Python's order on strings.
  lemma SortedExact(steps: seq<Step>)
    requires SortedSteps(steps)
    ensures forall i, j | 0 <= i < j < |steps| ::
      || Before(steps[i].target, steps[j].target)
      || (steps[i].target == steps[j].target && (steps[i].slug == steps[j].slug || Before(steps[i].slug, steps[j].slug)))
  {
    forall i, j | 0 <= i < j < |steps|
      ensures Before(steps[i].target, steps[j].target)
        || (steps[i].target == steps[j].target && (steps[i].slug == steps[j].slug || Before(steps[i].slug, steps[j].slug)))
    {
      assert StepLe(steps[i], steps[j]);
      LexExact(steps[i].target, steps[j].target);
      LexExact(steps[i].slug, steps[j].slug);
    }
  }

  // Every asked day resolves, outside the task and archive folders, and removes have a prior routing.
  ghost predicate Composable(profile: Profile, nets: map<Slug, NetChange>, config: DailyNotesConfig, prior: Option<DailyNotesConfig>) {
    forall ask: Ask | IsAsked(ask, nets, RoutingChanged(prior, config)) :: Routable(profile, ask, config, prior)
  }

  ghost predicate Routable(profile: Profile, ask: Ask, config: DailyNotesConfig, prior: Option<DailyNotesConfig>) {
    TargetOf(ask, config, prior).Some? && !Collides(profile, TargetOf(ask, config, prior).value)
  }

  // No step of a composed plan touches a task file or an archived one.
  lemma PlanStaysOut(profile: Profile, es: seq<Step>, rs: seq<Step>, nets: map<Slug, NetChange>, config: DailyNotesConfig, prior: Option<DailyNotesConfig>)
    requires Composable(profile, nets, config, prior) && IsPlan(es, rs, nets, config, prior)
    ensures forall s | s in es + rs ::
      && !Inside(s.target, profile.tasksFolder)
      && (profile.moveArchivedTasks && profile.archiveFolder != "" ==> !Inside(s.target, profile.archiveFolder))
  {
    forall s | s in es + rs
      ensures !Inside(s.target, profile.tasksFolder)
      ensures profile.moveArchivedTasks && profile.archiveFolder != "" ==> !Inside(s.target, profile.archiveFolder)
    {
      hide IsAsked, TargetOf, RoutingChanged, Collides, Inside, Keys, AskedFor, SortedSteps;
      assert Dated(s, nets, config, prior) && Routable(profile, Ask(s.op, s.slug, s.date), config, prior);
      CollidesExact(profile, s.target);
    }
  }

  // Insert a step into a sorted list.
  function InsertStep(s: Step, steps: seq<Step>): seq<Step> {
    if steps == [] || StepLe(s, steps[0]) then [s] + steps else [steps[0]] + InsertStep(s, steps[1..])
  }

  lemma StepLeOrder(a: Step, b: Step, c: Step)
    ensures StepLe(a, b) || StepLe(b, a)
    ensures StepLe(a, b) && StepLe(b, c) ==> StepLe(a, c)
  {
    LexTotal(a.slug, b.slug);
    LexTotal(a.target, b.target);
    if StepLe(a, b) && StepLe(b, c) {
      if a.target == b.target == c.target {
        LexTransitive(a.slug, b.slug, c.slug);
      } else if a.target != b.target && b.target != c.target {
        LexTransitive(a.target, b.target, c.target);
        if a.target == c.target { LexAntisymmetric(a.target, b.target); }
      }
    }
  }

  lemma {:induction false} InsertStepSorted(s: Step, steps: seq<Step>)
    requires SortedSteps(steps)
    ensures SortedSteps(InsertStep(s, steps))
    ensures forall x :: x in InsertStep(s, steps) <==> x == s || x in steps
    ensures |InsertStep(s, steps)| == |steps| + 1
  {
    hide StepLe;
    if steps != [] {
      if StepLe(s, steps[0]) {
        forall j | 0 <= j < |steps| ensures StepLe(s, steps[j]) {
          StepLeOrder(s, steps[0], steps[j]);
        }
      } else {
        InsertStepSorted(s, steps[1..]);
        var rest := InsertStep(s, steps[1..]);
        forall j | 0 <= j < |rest| ensures StepLe(steps[0], rest[j]) {
          assert rest[j] in rest;
          StepLeOrder(steps[0], s, s);
        }
      }
    }
  }

  datatype ComposeResult = Composed(ensureSteps: seq<Step>, removeSteps: seq<Step>) | Unroutable | TooManyTargets {
    function Steps(): seq<Step>
      requires Composed?
    {
      ensureSteps + removeSteps
    }
  }

  // Compose the net changes into ordered, target-resolved steps.
  method ComposeReconcileSteps(profile: Profile, config: DailyNotesConfig, prior: Option<DailyNotesConfig>,
                               nets: map<Slug, NetChange>, enforceTargetBound: bool) returns (r: ComposeResult)
    ensures r.Unroutable? <==> !Composable(profile, nets, config, prior)
    ensures r.Composed? ==> IsPlan(r.ensureSteps, r.removeSteps, nets, config, prior)
    ensures r.Composed? && enforceTargetBound ==> |r.Steps()| <= MAX_TARGETS
    ensures r.TooManyTargets? ==> enforceTargetBound && exists es, rs :: IsPlan(es, rs, nets, config, prior) && |es + rs| > MAX_TARGETS
  {
    hide IsPlan, Composable, Keyed, AsksAll, SortedSteps, Routable, RoutingChanged, Resolve, Keys;
    var raw := CollectAsks(nets, RoutingChanged(prior, config));
    var ok, toEnsure, toRemove := ResolveAsks(profile, config, prior, raw);
    ComposableIs(profile, config, prior, nets, raw);
    if !ok { return Unroutable; }
    var es := SortedValues(toEnsure, toEnsure.Keys);
    var rs := SortedValues(toRemove, toRemove.Keys - toEnsure.Keys);
    PlanIs(nets, config, prior, raw, toEnsure, toRemove, es, rs);
    if enforceTargetBound && |es + rs| > MAX_TARGETS { return TooManyTargets; }
    return Composed(es, rs);
  }

  ghost predicate AsksAll(raw: seq<Ask>, nets: map<Slug, NetChange>, rehome: bool) {
    forall ask: Ask :: ask in raw <==> IsAsked(ask, nets, rehome)
  }

  method CollectAsks(nets: map<Slug, NetChange>, rehome: bool) returns (raw: seq<Ask>)
    ensures AsksAll(raw, nets, rehome)
  {
    raw := [];
    var slugs := nets.Keys;
    while slugs != {}
      invariant slugs <= nets.Keys
      invariant forall ask: Ask :: ask in raw <==> IsAsked(ask, nets, rehome) && ask.slug !in slugs
      decreases slugs
    {
      var slug :| slug in slugs;
      AsksOwnSlug(slug, nets[slug], rehome);
      hide Asks;
      raw := raw + Asks(slug, nets[slug], rehome);
      slugs := slugs - {slug};
    }
  }

  lemma AsksOwnSlug(slug: Slug, net: NetChange, rehome: bool)
    ensures forall ask | ask in Asks(slug, net, rehome) :: ask.slug == slug
  {
  }

  // Steps keyed by (target, slug): exactly the resolved asks of one operation.
  ghost predicate Keyed(steps: map<(Path, Slug), Step>, op: Operation, raw: seq<Ask>, config: DailyNotesConfig, prior: Option<DailyNotesConfig>) {
    && (forall key | key in steps :: KeyedAs(key, steps[key], op, raw, config, prior))
    && (forall key :: key in steps <==> exists ask | ask in raw :: ask.op == op && ask.slug == key.1 && TargetOf(ask, config, prior) == Some(key.0))
  }

  ghost predicate KeyedAs(key: (Path, Slug), s: Step, op: Operation, raw: seq<Ask>, config: DailyNotesConfig, prior: Option<DailyNotesConfig>) {
    && StepKey(s) == key && s.op == op && s.routing == (if op == Ensure then Current else Prior)
    && Ask(op, s.slug, s.date) in raw && TargetOf(Ask(op, s.slug, s.date), config, prior) == Some(s.target)
  }

  ghost predicate Indexed(steps: map<(Path, Slug), Step>) {
    forall key | key in steps :: StepKey(steps[key]) == key
  }

  method ResolveAsks(profile: Profile, config: DailyNotesConfig, prior: Option<DailyNotesConfig>, raw: seq<Ask>)
    returns (ok: bool, toEnsure: map<(Path, Slug), Step>, toRemove: map<(Path, Slug), Step>)
    ensures ok <==> forall ask | ask in raw :: Routable(profile, ask, config, prior)
    ensures ok ==> Keyed(toEnsure, Ensure, raw, config, prior) && Keyed(toRemove, Remove, raw, config, prior)
    ensures Indexed(toEnsure) && Indexed(toRemove)
  {
    hide Resolve, Collides;
    ok, toEnsure, toRemove := true, map[], map[];
    for i := 0 to |raw|
      invariant ok
      invariant forall ask | ask in raw[..i] :: Routable(profile, ask, config, prior)
      invariant Keyed(toEnsure, Ensure, raw[..i], config, prior) && Keyed(toRemove, Remove, raw[..i], config, prior)
    {
      var ask := raw[i];
      assert raw[..i + 1] == raw[..i] + [ask];
      var target := None;
      if ask.op == Ensure {
        target := ResolveDailyNotePath(config, ask.date);
      } else if prior.Some? {
        target := ResolveDailyNotePath(prior.value, ask.date);
      }
      if target.None? || Collides(profile, target.value) {
        assert ask in raw;
        return false, map[], map[];
      }
      var key := (target.value, ask.slug);
      KeyedStep(toEnsure, Ensure, raw[..i], ask, target.value, config, prior);
      KeyedStep(toRemove, Remove, raw[..i], ask, target.value, config, prior);
      if ask.op == Ensure {
        toEnsure := toEnsure[key := Step(Ensure, ask.slug, ask.date, Current, target.value)];
      } else {
        toRemove := toRemove[key := Step(Remove, ask.slug, ask.date, Prior, target.value)];
      }
    }
    assert raw[..|raw|] == raw;
  }

  lemma KeyedStep(steps: map<(Path, Slug), Step>, op: Operation, seen: seq<Ask>, ask: Ask, target: Path, config: DailyNotesConfig, prior: Option<DailyNotesConfig>)
    requires Keyed(steps, op, seen, config, prior) && TargetOf(ask, config, prior) == Some(target)
    ensures ask.op != op ==> Keyed(steps, op, seen + [ask], config, prior)
    ensures ask.op == op ==>
      Keyed(steps[(target, ask.slug) := Step(op, ask.slug, ask.date, if op == Ensure then Current else Prior, target)], op, seen + [ask], config, prior)
  {
    hide TargetOf, KeyedAs;
    forall key | key in steps ensures KeyedAs(key, steps[key], op, seen + [ask], config, prior) {
      KeyedAsLater(key, steps[key], op, seen, ask, config, prior);
    }
    assert forall x :: x in seen + [ask] <==> x in seen || x == ask;
    if ask.op == op {
      KeyedAsNew(op, seen, ask, target, config, prior);
      var next := steps[(target, ask.slug) := Step(op, ask.slug, ask.date, if op == Ensure then Current else Prior, target)];
      forall key ensures key in next <==> exists x | x in seen + [ask] :: x.op == op && x.slug == key.1 && TargetOf(x, config, prior) == Some(key.0) {
        if key == (target, ask.slug) { assert ask in seen + [ask]; }
      }
    }
  }

  lemma KeyedAsLater(key: (Path, Slug), s: Step, op: Operation, seen: seq<Ask>, ask: Ask, config: DailyNotesConfig, prior: Option<DailyNotesConfig>)
    requires KeyedAs(key, s, op, seen, config, prior)
    ensures KeyedAs(key, s, op, seen + [ask], config, prior)
  {
    hide TargetOf;
  }

  lemma KeyedAsNew(op: Operation, seen: seq<Ask>, ask: Ask, target: Path, config: DailyNotesConfig, prior: Option<DailyNotesConfig>)
    requires ask.op == op && TargetOf(ask, config, prior) == Some(target)
    ensures KeyedAs((target, ask.slug), Step(op, ask.slug, ask.date, if op == Ensure then Current else Prior, target), op, seen + [ask], config, prior)
  {
    hide TargetOf;
  }

  // sorted(steps.values(), key=(target, slug)) over the given keys
  method SortedValues(steps: map<(Path, Slug), Step>, keys: set<(Path, Slug)>) returns (sorted: seq<Step>)
    requires keys <= steps.Keys && Indexed(steps)
    ensures SortedSteps(sorted) && Keys(sorted) == keys && |sorted| == |keys|
    ensures FromMap(sorted, steps)
  {
    sorted := [];
    var todo := keys;
    while todo != {}
      invariant todo <= keys
      invariant SortedSteps(sorted) && Keys(sorted) == keys - todo && |sorted| + |todo| == |keys|
      invariant FromMap(sorted, steps)
      decreases todo
    {
      var key :| key in todo;
      hide StepLe, SortedSteps;
      InsertStepSorted(steps[key], sorted);
      KeysInsert(steps[key], sorted);
      sorted := InsertStep(steps[key], sorted);
      todo := todo - {key};
    }
  }

  lemma KeysInsert(s: Step, steps: seq<Step>)
    requires forall x :: x in InsertStep(s, steps) <==> x == s || x in steps
    ensures Keys(InsertStep(s, steps)) == Keys(steps) + {StepKey(s)}
  {
    hide InsertStep;
  }

  lemma ComposableIs(profile: Profile, config: DailyNotesConfig, prior: Option<DailyNotesConfig>, nets: map<Slug, NetChange>, raw: seq<Ask>)
    requires AsksAll(raw, nets, RoutingChanged(prior, config))
    ensures Composable(profile, nets, config, prior) <==> forall ask | ask in raw :: Routable(profile, ask, config, prior)
  {
    hide Routable, IsAsked;
  }

  lemma AskedIs(op: Operation, steps: map<(Path, Slug), Step>, nets: map<Slug, NetChange>, config: DailyNotesConfig, prior: Option<DailyNotesConfig>, raw: seq<Ask>)
    requires AsksAll(raw, nets, RoutingChanged(prior, config)) && Keyed(steps, op, raw, config, prior)
    ensures forall key :: key in steps <==> AskedFor(op, key, nets, config, prior)
  {
    hide IsAsked, TargetOf, RoutingChanged;
    forall key ensures key in steps <==> AskedFor(op, key, nets, config, prior) {
      if key in steps {
        var ask :| ask in raw && ask.op == op && ask.slug == key.1 && TargetOf(ask, config, prior) == Some(key.0);
        assert IsAsked(ask, nets, RoutingChanged(prior, config));
      }
    }
  }

  ghost predicate FromMap(sorted: seq<Step>, steps: map<(Path, Slug), Step>) {
    forall s | s in sorted :: StepKey(s) in steps && steps[StepKey(s)] == s
  }

  lemma PlanIs(nets: map<Slug, NetChange>, config: DailyNotesConfig, prior: Option<DailyNotesConfig>, raw: seq<Ask>,
               toEnsure: map<(Path, Slug), Step>, toRemove: map<(Path, Slug), Step>, es: seq<Step>, rs: seq<Step>)
    requires AsksAll(raw, nets, RoutingChanged(prior, config))
    requires Keyed(toEnsure, Ensure, raw, config, prior) && Keyed(toRemove, Remove, raw, config, prior)
    requires SortedSteps(es) && Keys(es) == toEnsure.Keys && |es| == |toEnsure.Keys| && FromMap(es, toEnsure)
    requires SortedSteps(rs) && Keys(rs) == toRemove.Keys - toEnsure.Keys && |rs| == |toRemove.Keys - toEnsure.Keys| && FromMap(rs, toRemove)
    ensures IsPlan(es, rs, nets, config, prior)
  {
    hide SortedSteps, AskedFor, AsksAll, Keys, Keyed, FromMap, Dated;
    AskedIs(Ensure, toEnsure, nets, config, prior, raw);
    AskedIs(Remove, toRemove, nets, config, prior, raw);
    FromKeyed(es, toEnsure, Ensure, raw, nets, config, prior);
    FromKeyed(rs, toRemove, Remove, raw, nets, config, prior);
  }

  lemma FromKeyed(sorted: seq<Step>, steps: map<(Path, Slug), Step>, op: Operation, raw: seq<Ask>, nets: map<Slug, NetChange>, config: DailyNotesConfig, prior: Option<DailyNotesConfig>)
    requires AsksAll(raw, nets, RoutingChanged(prior, config))
    requires Keyed(steps, op, raw, config, prior) && FromMap(sorted, steps)
    ensures forall s | s in sorted :: s.op == op && s.routing == (if op == Ensure then Current else Prior)
    ensures forall s | s in sorted :: Dated(s, nets, config, prior)
  {
    hide TargetOf, IsAsked, RoutingChanged;
    forall s | s in sorted
      ensures s.op == op && s.routing == (if op == Ensure then Current else Prior)
      ensures Dated(s, nets, config, prior)
    {
      assert KeyedAs(StepKey(s), steps[StepKey(s)], op, raw, config, prior);
      assert IsAsked(Ask(s.op, s.slug, s.date), nets, RoutingChanged(prior, config));
    }
  }
}
