// Splitting the composed steps of a first reconciliation into batches, one commit each.
module Batching {
  import opened Text
  import opened Order
  import opened Reconcile

  // ----- the specification: a step's batch is the rank of its target, sixteen targets to a batch -----

  // The distinct targets in order of first appearance.
  function FirstSeen(ts: seq<Step>): seq<Path>
    decreases |ts|
  {
    if |ts| == 0 then []
    else
      var seen := FirstSeen(ts[..|ts| - 1]);
      if ts[|ts| - 1].target in seen then seen else seen + [ts[|ts| - 1].target]
  }

  // Position of a target in a list, or the length.
  function Rank(seen: seq<Path>, target: Path): (r: nat)
    ensures r <= |seen|
  {
    if |seen| == 0 || seen[0] == target then 0 else 1 + Rank(seen[1..], target)
  }

  function BatchOf(seen: seq<Path>, target: Path): nat { Rank(seen, target) / MAX_TARGETS }

  // The steps of batch b, in input order.
  function InBatch(ts: seq<Step>, seen: seq<Path>, b: nat): seq<Step>
    decreases |ts|
  {
    if |ts| == 0 then []
    else
      var last := ts[|ts| - 1];
      InBatch(ts[..|ts| - 1], seen, b) + if BatchOf(seen, last.target) == b then [last] else []
  }

  function Ceiling(n: nat): nat { (n + MAX_TARGETS - 1) / MAX_TARGETS }

  function Batches(ts: seq<Step>): seq<seq<Step>> {
    var seen := FirstSeen(ts);
    seq(Ceiling(|seen|), b requires 0 <= b => InBatch(ts, seen, b))
  }

  lemma {:induction false} RankIs(seen: seq<Path>, target: Path)
    ensures target in seen <==> Rank(seen, target) < |seen|
    ensures target in seen ==> seen[Rank(seen, target)] == target
  {
    if |seen| > 0 {
      RankIs(seen[1..], target);
      assert target in seen <==> target == seen[0] || target in seen[1..];
    }
  }

  lemma {:induction false} RankInPrefix(seen: seq<Path>, full: seq<Path>, target: Path)
    requires seen <= full && target in seen
    ensures Rank(full, target) == Rank(seen, target)
  {
    if seen[0] != target {
      assert target in seen[1..];
      RankInPrefix(seen[1..], full[1..], target);
    }
  }

  lemma {:induction false} FirstSeenPrefix(ts: seq<Step>, i: nat)
    requires i <= |ts|
    ensures FirstSeen(ts[..i]) <= FirstSeen(ts)
    decreases |ts|
  {
    if i < |ts| {
      FirstSeenPrefix(ts[..|ts| - 1], i);
      assert ts[..|ts| - 1][..i] == ts[..i];
    } else {
      assert ts[..i] == ts;
    }
  }

  lemma {:induction false} FirstSeenIs(ts: seq<Step>)
    ensures forall t :: t in FirstSeen(ts) <==> exists s :: s in ts && s.target == t
    ensures forall i, j | 0 <= i < j < |FirstSeen(ts)| :: FirstSeen(ts)[i] != FirstSeen(ts)[j]
    decreases |ts|
  {
    if |ts| > 0 {
      var init, last := ts[..|ts| - 1], ts[|ts| - 1];
      FirstSeenIs(init);
      assert ts == init + [last];
      forall t ensures t in FirstSeen(ts) <==> exists s :: s in ts && s.target == t {
        if t == last.target { assert last in ts; }
        if t in FirstSeen(init) {
          var s :| s in init && s.target == t;
          assert s in ts;
        }
      }
    }
  }

  // ----- the program's loop -----

  // Targets already counted into batch b when n targets have been seen.
  function TargetsIn(n: nat, b: nat): int {
    if n - b * MAX_TARGETS < MAX_TARGETS then n - b * MAX_TARGETS else MAX_TARGETS
  }

  method BatchReconcileTransitions(transitions: seq<Step>) returns (batches: seq<seq<Step>>)
    ensures batches == Batches(transitions)
  {
    hide Rank, BatchOf, InBatch, FirstSeen, Ceiling, TargetsIn;
    batches := [];
    var targetsPerBatch: seq<nat> := [];
    var batchOfTarget: map<Path, nat> := map[];
    ghost var seen, full := [], FirstSeen(transitions);
    SeenNothing();
    NextTarget(0);
    assert transitions[..0] == [];
    for i := 0 to |transitions|
      invariant seen == FirstSeen(transitions[..i])
      invariant |batches| == |targetsPerBatch| == Ceiling(|seen|)
      invariant forall b: nat | b < |batches| :: targetsPerBatch[b] == TargetsIn(|seen|, b)
      invariant forall t :: t in batchOfTarget <==> t in seen
      invariant forall t | t in batchOfTarget :: batchOfTarget[t] == BatchOf(full, t) < |batches|
      invariant forall b: nat | b < |batches| :: batches[b] == InBatch(transitions[..i], full, b)
    {
      var transition := transitions[i];
      var target := transition.target;
      SeenStep(transitions, i);
      InBatchStep(transitions, full, i);
      NextTarget(|seen|);
      var index;
      if target in batchOfTarget {
        index := batchOfTarget[target];
      } else {
        if |batches| > 0 && targetsPerBatch[|targetsPerBatch| - 1] < MAX_TARGETS {
          index := |batches| - 1;
        } else {
          InBatchNone(transitions[..i], full, |batches|, seen);
          batches := batches + [[]];
          targetsPerBatch := targetsPerBatch + [0];
          index := |batches| - 1;
        }
        batchOfTarget := batchOfTarget[target := index];
        targetsPerBatch := targetsPerBatch[index := targetsPerBatch[index] + 1];
        seen := seen + [target];
      }
      batches := batches[index := batches[index] + [transition]];
    }
    assert transitions[..|transitions|] == transitions;
  }

  // Where the next new target goes when n have been seen: into the last batch while it has room, else
  // into a new one.
  lemma NextTarget(n: nat)
    ensures Ceiling(0) == 0
    ensures var m, room := Ceiling(n), Ceiling(n) > 0 && TargetsIn(n, Ceiling(n) - 1) < MAX_TARGETS;
      && Ceiling(n + 1) == (if room then m else m + 1)
      && n / MAX_TARGETS == (if room then m - 1 else m)
      && TargetsIn(n, n / MAX_TARGETS) == TargetsIn(n + 1, n / MAX_TARGETS) - 1
      && (!room ==> TargetsIn(n, m) == 0)
      && forall b: nat | b < m && b != n / MAX_TARGETS :: TargetsIn(n + 1, b) == TargetsIn(n, b)
  {
  }

  lemma SeenNothing()
    ensures FirstSeen([]) == []
    ensures forall full: seq<Path>, b: nat :: InBatch([], full, b) == []
  {
  }

  lemma SeenStep(ts: seq<Step>, i: nat)
    requires i < |ts|
    ensures var seen, full, target := FirstSeen(ts[..i]), FirstSeen(ts), ts[i].target;
      && FirstSeen(ts[..i + 1]) == (if target in seen then seen else seen + [target])
      && (target !in seen ==> BatchOf(full, target) == |seen| / MAX_TARGETS)
  {
    hide Rank;
    var seen, full, target := FirstSeen(ts[..i]), FirstSeen(ts), ts[i].target;
    assert ts[..i + 1][..i] == ts[..i];
    FirstSeenPrefix(ts, i + 1);
    if target !in seen {
      RankInPrefix(seen + [target], full, target);
      RankIs(seen + [target], target);
      RankOfLast(seen, target);
    }
  }

  lemma {:induction false} RankOfLast(seen: seq<Path>, target: Path)
    requires target !in seen
    ensures Rank(seen + [target], target) == |seen|
  {
    if |seen| > 0 {
      assert (seen + [target])[1..] == seen[1..] + [target];
      RankOfLast(seen[1..], target);
    }
  }

  lemma InBatchStep(ts: seq<Step>, full: seq<Path>, i: nat)
    requires i < |ts|
    ensures forall b: nat :: InBatch(ts[..i + 1], full, b) == InBatch(ts[..i], full, b) + if BatchOf(full, ts[i].target) == b then [ts[i]] else []
  {
    assert ts[..i + 1][..i] == ts[..i];
  }

  // A batch that is not open yet has no steps.
  lemma InBatchNone(ts: seq<Step>, full: seq<Path>, b: nat, seen: seq<Path>)
    requires seen == FirstSeen(ts) && forall t | t in seen :: BatchOf(full, t) < b
    ensures InBatch(ts, full, b) == []
  {
    hide BatchOf;
    FirstSeenIs(ts);
    InBatchIs(ts, full, b);
    forall s | s in ts ensures BatchOf(full, s.target) < b {
      assert s.target in seen;
    }
    FirstIsMember(InBatch(ts, full, b));
  }

  lemma FirstIsMember(ts: seq<Step>)
    ensures ts == [] || ts[0] in ts
  {
  }

  lemma {:induction false} InBatchIs(ts: seq<Step>, full: seq<Path>, b: nat)
    ensures forall s :: s in InBatch(ts, full, b) <==> s in ts && BatchOf(full, s.target) == b
    decreases |ts|
  {
    hide BatchOf;
    if |ts| > 0 {
      assert ts == ts[..|ts| - 1] + [ts[|ts| - 1]];
      InBatchIs(ts[..|ts| - 1], full, b);
    }
  }

  // ----- what the batches are -----

  function TargetSet(ts: seq<Step>): set<Path> {
    set s | s in ts :: s.target
  }

  // Every batch holds the steps of its own targets only, a target is in one batch, and every batch but
  // the last has exactly sixteen targets: there are as many batches as that takes.
  lemma BatchTargets(ts: seq<Step>, b: nat)
    requires b < |Batches(ts)|
    ensures |Batches(ts)| == Ceiling(|TargetSet(ts)|)
    ensures forall s :: s in Batches(ts)[b] <==> s in ts && s.target in TargetSet(Batches(ts)[b])
    ensures forall c: nat | c < |Batches(ts)| && c != b :: TargetSet(Batches(ts)[b]) !! TargetSet(Batches(ts)[c])
    ensures |TargetSet(Batches(ts)[b])| == if b + 1 < |Batches(ts)| then MAX_TARGETS else |TargetSet(ts)| - b * MAX_TARGETS
    ensures 1 <= |TargetSet(Batches(ts)[b])| <= MAX_TARGETS
  {
    hide FirstSeen, InBatch, BatchOf;
    var seen := FirstSeen(ts);
    FirstSeenIs(ts);
    assert TargetSet(ts) == set t | t in seen;
    DistinctCount(seen);
    forall c: nat ensures forall s :: s in InBatch(ts, seen, c) <==> s in ts && BatchOf(seen, s.target) == c {
      InBatchIs(ts, seen, c);
    }
    var lo := b * MAX_TARGETS;
    var hi := if lo + MAX_TARGETS < |seen| then lo + MAX_TARGETS else |seen|;
    BatchIsSlice(seen, b, lo, hi);
    DistinctCount(seen[lo..hi]);
    forall t ensures t in TargetSet(Batches(ts)[b]) <==> t in seen[lo..hi] {
      if t in seen[lo..hi] {
        assert t in seen;
        var s :| s in ts && s.target == t;
        assert s in Batches(ts)[b];
      }
    }
    assert TargetSet(Batches(ts)[b]) == set t | t in seen[lo..hi];
  }

  lemma {:induction false} DistinctCount(seen: seq<Path>)
    requires forall i, j | 0 <= i < j < |seen| :: seen[i] != seen[j]
    ensures |set t | t in seen| == |seen|
  {
    if |seen| > 0 {
      DistinctCount(seen[1..]);
      assert (set t | t in seen) == {seen[0]} + (set t | t in seen[1..]);
    }
  }

  lemma BatchIsSlice(seen: seq<Path>, b: nat, lo: nat, hi: nat)
    requires forall i, j | 0 <= i < j < |seen| :: seen[i] != seen[j]
    requires lo == b * MAX_TARGETS <= hi && hi == if lo + MAX_TARGETS < |seen| then lo + MAX_TARGETS else |seen|
    ensures forall t | t in seen :: BatchOf(seen, t) == b <==> t in seen[lo..hi]
  {
    hide Rank;
    forall t | t in seen ensures BatchOf(seen, t) == b <==> t in seen[lo..hi] {
      RankIs(seen, t);
      var r := Rank(seen, t);
      if lo <= r < hi { assert seen[lo..hi][r - lo] == t; }
      if t in seen[lo..hi] {
        var k :| 0 <= k < hi - lo && seen[lo..hi][k] == t;
        assert seen[lo + k] == t;
      }
    }
  }

  // ----- on composed input the batches are consecutive runs of it -----

  // Steps of one target stand together.
  ghost predicate Grouped(ts: seq<Step>) {
    forall i, j, k | 0 <= i < j < k < |ts| && ts[i].target == ts[k].target :: ts[j].target == ts[i].target
  }

  lemma SortedIsGrouped(ts: seq<Step>)
    requires SortedSteps(ts)
    ensures Grouped(ts)
  {
    forall i, j, k | 0 <= i < j < k < |ts| && ts[i].target == ts[k].target ensures ts[j].target == ts[i].target {
      assert StepLe(ts[i], ts[j]) && StepLe(ts[j], ts[k]);
      if ts[j].target != ts[i].target { LexAntisymmetric(ts[i].target, ts[j].target); }
    }
  }

  function Flatten(batches: seq<seq<Step>>): seq<Step>
    decreases |batches|
  {
    if |batches| == 0 then [] else Flatten(batches[..|batches| - 1]) + batches[|batches| - 1]
  }

  lemma BatchesConcatenate(ts: seq<Step>)
    requires Grouped(ts)
    ensures Flatten(Batches(ts)) == ts
  {
    hide FirstSeen, InBatch, BatchOf, Flatten;
    var seen := FirstSeen(ts);
    RanksMonotone(ts);
    forall s | s in ts ensures BatchOf(seen, s.target) < Ceiling(|seen|) {
      FirstSeenIs(ts);
      RankBelow(seen, s.target);
    }
    FlattenIsBelow(ts, seen, Ceiling(|seen|));
    BelowAll(ts, seen, Ceiling(|seen|));
  }

  lemma RankBelow(seen: seq<Path>, t: Path)
    requires t in seen
    ensures BatchOf(seen, t) < Ceiling(|seen|)
  {
    RankIs(seen, t);
  }

  ghost predicate Monotone(ts: seq<Step>, seen: seq<Path>) {
    forall i, j | 0 <= i < j < |ts| :: BatchOf(seen, ts[i].target) <= BatchOf(seen, ts[j].target)
  }

  // Every step's rank is known and at most that of the last step.
  ghost predicate LastIsGreatest(ts: seq<Step>, full: seq<Path>) {
    forall i | 0 <= i < |ts| :: Rank(full, ts[i].target) <= Rank(full, ts[|ts| - 1].target) < |FirstSeen(ts)|
  }

  lemma LastStays(init: seq<Step>, last: Step, full: seq<Path>)
    requires Grouped(init + [last]) && FirstSeen(init + [last]) <= full && LastIsGreatest(init, full)
    ensures LastIsGreatest(init + [last], full)
  {
    hide Rank, FirstSeen, Grouped;
    var ts, seen := init + [last], FirstSeen(init);
    assert ts[..|ts| - 1] == init;
    SeenStep(ts, |ts| - 1);
    assert ts[..|ts|] == ts;
    if last.target in seen {
      LastRepeats(init, last);
    } else {
      RankInPrefix(seen + [last.target], full, last.target);
      RankOfLast(seen, last.target);
    }
    assert forall k | 0 <= k < |init| :: ts[k] == init[k];
  }

  lemma LastRepeats(init: seq<Step>, last: Step)
    requires Grouped(init + [last]) && last.target in FirstSeen(init)
    ensures |init| > 0 && init[|init| - 1].target == last.target
  {
    hide FirstSeen, Grouped;
    FirstSeenIs(init);
    var ts := init + [last];
    var s :| s in init && s.target == last.target;
    var i :| 0 <= i < |init| && init[i] == s;
    assert ts[i] == s && ts[|init|] == last && ts[|init| - 1] == init[|init| - 1];
    if i < |init| - 1 { GroupedAt(ts, i, |init| - 1, |init|); }
  }

  lemma GroupedAt(ts: seq<Step>, i: nat, j: nat, k: nat)
    requires Grouped(ts) && i < j < k < |ts| && ts[i].target == ts[k].target
    ensures ts[j].target == ts[i].target
  {
  }

  // On grouped input ranks never decrease.
  lemma {:induction false} RanksGrow(ts: seq<Step>, full: seq<Path>)
    requires Grouped(ts) && FirstSeen(ts) <= full
    ensures LastIsGreatest(ts, full)
    ensures forall i, j | 0 <= i < j < |ts| :: Rank(full, ts[i].target) <= Rank(full, ts[j].target)
    decreases |ts|
  {
    hide Rank, FirstSeen;
    if |ts| > 0 {
      var init, last := ts[..|ts| - 1], ts[|ts| - 1];
      assert ts == init + [last];
      FirstSeenPrefix(ts, |ts| - 1);
      RanksGrow(init, full);
      LastStays(init, last, full);
    }
  }

  lemma RanksMonotone(ts: seq<Step>)
    requires Grouped(ts)
    ensures Monotone(ts, FirstSeen(ts))
  {
    hide Rank, FirstSeen;
    RanksGrow(ts, FirstSeen(ts));
  }

  // The steps of the batches below m.
  function Below(ts: seq<Step>, seen: seq<Path>, m: nat): seq<Step>
    decreases |ts|
  {
    if |ts| == 0 then []
    else
      var last := ts[|ts| - 1];
      Below(ts[..|ts| - 1], seen, m) + if BatchOf(seen, last.target) < m then [last] else []
  }

  lemma {:induction false} BelowStep(ts: seq<Step>, seen: seq<Path>, m: nat)
    requires Monotone(ts, seen)
    ensures Below(ts, seen, m + 1) == Below(ts, seen, m) + InBatch(ts, seen, m)
    decreases |ts|
  {
    hide BatchOf;
    if |ts| > 0 {
      var init, last := ts[..|ts| - 1], ts[|ts| - 1];
      BelowStep(init, seen, m);
      if BatchOf(seen, last.target) < m {
        InBatchIs(init, seen, m);
        assert forall s | s in init :: BatchOf(seen, s.target) < m;
        FirstIsMember(InBatch(init, seen, m));
      }
    }
  }

  lemma {:induction false} BelowAll(ts: seq<Step>, seen: seq<Path>, m: nat)
    requires forall s | s in ts :: BatchOf(seen, s.target) < m
    ensures Below(ts, seen, m) == ts
    decreases |ts|
  {
    hide BatchOf;
    if |ts| > 0 {
      var init, last := ts[..|ts| - 1], ts[|ts| - 1];
      assert ts == init + [last];
      assert last in ts;
      BelowAll(init, seen, m);
    }
  }

  lemma {:induction false} BelowNothing(ts: seq<Step>, seen: seq<Path>)
    ensures Below(ts, seen, 0) == []
    decreases |ts|
  {
    if |ts| > 0 { BelowNothing(ts[..|ts| - 1], seen); }
  }

  lemma {:induction false} FlattenIsBelow(ts: seq<Step>, seen: seq<Path>, m: nat)
    requires Monotone(ts, seen)
    ensures Flatten(seq(m, b requires 0 <= b => InBatch(ts, seen, b))) == Below(ts, seen, m)
    decreases m
  {
    hide BatchOf, InBatch, Below;
    var batches := seq(m, b requires 0 <= b => InBatch(ts, seen, b));
    if m == 0 {
      BelowNothing(ts, seen);
    } else {
      FlattenIsBelow(ts, seen, m - 1);
      assert batches[..m - 1] == seq(m - 1, b requires 0 <= b => InBatch(ts, seen, b));
      BelowStep(ts, seen, m - 1);
    }
  }
}
