// Applying a first reconciliation batch by batch while others move HEAD: what the provenance checks
// guarantee about the history the pending record names.
module Bootstrap {
  import opened Text

  // Commits are numbered as they are made, so a new commit's number is never an old one's.
  type Id = nat

  datatype Author = Own(batch: nat) | Outsider
  datatype Commit = Commit(parents: seq<Id>, author: Author)

  datatype Repo = Repo(commits: seq<Commit>, head: Id) {
    // HEAD exists, and a commit's parents were there before it.
    predicate Valid() {
      head < |commits| && forall i: nat | i < |commits| :: Older(commits[i].parents, i)
    }

    function With(commit: Commit): Repo { Repo(commits + [commit], |commits|) }
  }

  predicate Older(parents: seq<Id>, id: Id) {
    forall p | p in parents :: p < id
  }

  // Only commits that exist can be parents.
  function Existing(ids: seq<Id>, count: nat): (r: seq<Id>)
    ensures Older(r, count)
  {
    if |ids| == 0 then [] else (if ids[0] < count then [ids[0]] else []) + Existing(ids[1..], count)
  }

  // What an outside committer does: a commit (or merge) on top of HEAD, moving HEAD to another commit,
  // or putting a rewritten commit in its place.
  datatype Act = Append(merged: seq<Id>) | Move(to: Id) | Rewrite(parents: seq<Id>)

  function ApplyAct(repo: Repo, act: Act): (r: Repo)
    ensures repo.Valid() ==> r.Valid()
    ensures repo.commits <= r.commits
  {
    match act
    case Append(merged) => repo.With(Commit([repo.head] + Existing(merged, |repo.commits|), Outsider))
    case Move(to) => if to < |repo.commits| then repo.(head := to) else repo
    case Rewrite(parents) => repo.With(Commit(Existing(parents, |repo.commits|), Outsider))
  }

  function ApplyActs(repo: Repo, acts: seq<Act>): (r: Repo)
    ensures repo.Valid() ==> r.Valid()
    ensures repo.commits <= r.commits
    decreases |acts|
  {
    if |acts| == 0 then repo else ApplyActs(ApplyAct(repo, acts[0]), acts[1..])
  }

  predicate AppendOnly(acts: seq<Act>) {
    forall act | act in acts :: act.Append?
  }

  // One batch: its recheck (skipped for the first batch), whether a projection conflicts, whether notes
  // changed and differ from HEAD, and what outsiders do before the recheck and around the commit.
  datatype BatchRun = BatchRun(beforeCheck: seq<Act>, sourcesMatch: bool, conflict: bool, changed: bool, differs: bool,
                               beforeCommit: seq<Act>, afterCommit: seq<Act>)

  predicate Commits(run: BatchRun) { run.changed && run.differs }

  // The rest of a call: the first recheck, the batches, the final recheck and the last HEAD check.
  datatype Call = Call(beforeFirst: seq<Act>, firstMatch: bool, batches: seq<BatchRun>,
                       beforeFinal: seq<Act>, finalMatch: bool, beforeHead: seq<Act>)

  datatype Progress = Stopped(repo: Repo) | Going(repo: Repo, expected: Id)

  function RunBatch(repo: Repo, expected: Id, run: BatchRun, index: nat): (p: Progress)
    requires repo.Valid()
    ensures p.repo.Valid() && repo.commits <= p.repo.commits
  {
    var checked := if index > 0 then ApplyActs(repo, run.beforeCheck) else repo;
    if index > 0 && !(run.sourcesMatch && checked.head == expected) then Stopped(checked)
    else if run.conflict then Stopped(checked)
    else
      var ready := ApplyActs(checked, run.beforeCommit);
      if !Commits(run) then Going(ApplyActs(ready, run.afterCommit), expected)
      else
        var after := ApplyActs(ready.With(Commit([ready.head], Own(index))), run.afterCommit);
        if after.commits[after.head].parents == [expected] then Going(after, after.head) else Stopped(after)
  }

  function RunBatches(repo: Repo, expected: Id, runs: seq<BatchRun>, index: nat): (p: Progress)
    requires repo.Valid()
    ensures p.repo.Valid() && repo.commits <= p.repo.commits
    decreases |runs|
  {
    if |runs| == 0 then Going(repo, expected)
    else
      var p := RunBatch(repo, expected, runs[0], index);
      if p.Stopped? then p else RunBatches(p.repo, p.expected, runs[1..], index + 1)
  }

  // The head the pending record names, if the call succeeds.
  function Outcome(repo: Repo, toHead: Id, call: Call): (r: (Repo, Option<Id>))
    requires repo.Valid()
    ensures r.0.Valid() && repo.commits <= r.0.commits
  {
    var first := ApplyActs(repo, call.beforeFirst);
    if !(call.firstMatch && first.head == toHead) then (first, None)
    else
      var p := RunBatches(first, toHead, call.batches, 0);
      if p.Stopped? then (p.repo, None)
      else
        var checked := ApplyActs(p.repo, call.beforeFinal);
        if !(call.finalMatch && checked.head == p.expected) then (checked, None)
        else
          var last := ApplyActs(checked, call.beforeHead);
          (last, if last.head == p.expected then Some(p.expected) else None)
  }

  class Repository {
    var commits: seq<Commit>
    var head: Id
    var pending: Option<(Id, Id)>

    ghost predicate Valid()
      reads this
    {
      Value().Valid()
    }

    function Value(): Repo
      reads this
    {
      Repo(commits, head)
    }

    constructor (initial: Repo)
      requires initial.Valid()
      ensures Valid() && Value() == initial && pending == None
    {
      commits, head, pending := initial.commits, initial.head, None;
    }

    method Interfere(acts: seq<Act>)
      requires Valid()
      modifies this`commits, this`head
      ensures Valid() && Value() == ApplyActs(old(Value()), acts)
    {
      for i := 0 to |acts|
        invariant Valid() && ApplyActs(Value(), acts[i..]) == ApplyActs(old(Value()), acts)
      {
        assert acts[i..][0] == acts[i] && acts[i..][1..] == acts[i + 1..];
        var next := ApplyAct(Value(), acts[i]);
        commits, head := next.commits, next.head;
      }
    }

    // The recheck of the task sources and of HEAD.
    method Recheck(acts: seq<Act>, sourcesMatch: bool, expected: Id) returns (ok: bool)
      requires Valid()
      modifies this`commits, this`head
      ensures Valid() && Value() == ApplyActs(old(Value()), acts)
      ensures ok <==> sourcesMatch && head == expected
    {
      Interfere(acts);
      ok := head == expected && sourcesMatch;
    }

    // Make the targeted commit, then adopt HEAD only if it is a direct child of the expected head.
    method CommitBatch(run: BatchRun, index: nat, expected: Id) returns (ok: bool, evolved: Id)
      requires Valid()
      modifies this`commits, this`head
      ensures Valid()
      ensures var ready := ApplyActs(old(Value()), run.beforeCommit);
        Value() == ApplyActs(if Commits(run) then ready.With(Commit([ready.head], Own(index))) else ready, run.afterCommit)
      ensures !Commits(run) ==> ok && evolved == expected
      ensures Commits(run) ==> (ok <==> commits[head].parents == [expected]) && evolved == head
    {
      Interfere(run.beforeCommit);
      if run.changed && run.differs {
        commits := commits + [Commit([head], Own(index))];
        head := |commits| - 1;
      }
      Interfere(run.afterCommit);
      if run.changed && run.differs {
        return commits[head].parents == [expected], head;
      }
      return true, expected;
    }

    // The bootstrap path of apply: rechecks, batches, one commit a batch, and the pending record last.
    method ApplyBootstrap(fromHead: Id, toHead: Id, call: Call) returns (ok: bool)
      requires Valid()
      modifies this
      ensures Valid()
      ensures var (repo, named) := Outcome(old(Value()), toHead, call);
        && Value() == repo && (ok <==> named.Some?)
        && pending == if ok then Some((fromHead, named.value)) else old(pending)
    {
      hide ApplyActs;
      ok := Recheck(call.beforeFirst, call.firstMatch, toHead);
      if !ok { return; }
      var expected := toHead;
      ghost var first := Value();
      for i := 0 to |call.batches|
        invariant Valid() && pending == old(pending)
        invariant RunBatches(Value(), expected, call.batches[i..], i) == RunBatches(first, toHead, call.batches, 0)
      {
        var run := call.batches[i];
        assert call.batches[i..][0] == run && call.batches[i..][1..] == call.batches[i + 1..];
        if i > 0 {
          ok := Recheck(run.beforeCheck, run.sourcesMatch, expected);
          if !ok { return; }
        }
        if run.conflict { return false; }
        ok, expected := CommitBatch(run, i, expected);
        if !ok { return; }
      }
      ok := Recheck(call.beforeFinal, call.finalMatch, expected);
      if !ok { return; }
      Interfere(call.beforeHead);
      if head != expected { return false; }
      pending := Some((fromHead, expected));
      return true;
    }
  }

  // ----- any outside activity: the named head is a chain of single-parent commits long -----

  // to is reached from `from` by n commits with a single parent each.
  ghost predicate Chain(commits: seq<Commit>, from: Id, to: Id, n: nat)
    decreases n
  {
    if n == 0 then to == from
    else to < |commits| && |commits[to].parents| == 1 && Chain(commits, from, commits[to].parents[0], n - 1)
  }

  lemma {:induction false} ChainInLonger(a: seq<Commit>, b: seq<Commit>, from: Id, to: Id, n: nat)
    requires a <= b && Chain(a, from, to, n)
    ensures Chain(b, from, to, n)
    decreases n
  {
    if n > 0 { ChainInLonger(a, b, from, a[to].parents[0], n - 1); }
  }

  function CommitCount(runs: seq<BatchRun>): nat
    decreases |runs|
  {
    if |runs| == 0 then 0 else (if runs[0].changed && runs[0].differs then 1 else 0) + CommitCount(runs[1..])
  }

  lemma CommitCountStep(runs: seq<BatchRun>)
    requires |runs| > 0
    ensures CommitCount(runs) == (if Commits(runs[0]) then 1 else 0) + CommitCount(runs[1..])
  {
  }

  lemma {:induction false} RunBatchesChain(repo: Repo, from: Id, expected: Id, n: nat, runs: seq<BatchRun>, index: nat)
    requires repo.Valid() && Chain(repo.commits, from, expected, n)
    ensures var p := RunBatches(repo, expected, runs, index);
      p.Going? ==> Chain(p.repo.commits, from, p.expected, n + CommitCount(runs))
    decreases |runs|
  {
    hide ApplyActs;
    if |runs| > 0 {
      var p := RunBatch(repo, expected, runs[0], index);
      if p.Going? {
        CommitCountStep(runs);
        hide CommitCount, RunBatch, Chain, Commits;
        ChainInLonger(repo.commits, p.repo.commits, from, expected, n);
        ChainStep(p, from, expected, n, runs[0], repo, index);
        RunBatchesChain(p.repo, from, p.expected, n + if Commits(runs[0]) then 1 else 0, runs[1..], index + 1);
      }
    }
  }

  lemma ChainStep(p: Progress, from: Id, expected: Id, n: nat, run: BatchRun, repo: Repo, index: nat)
    requires repo.Valid() && p == RunBatch(repo, expected, run, index) && p.Going?
    requires Chain(p.repo.commits, from, expected, n)
    ensures Chain(p.repo.commits, from, p.expected, n + if Commits(run) then 1 else 0)
  {
    hide ApplyActs;
    if Commits(run) { assert p.repo.commits[p.expected].parents == [expected]; }
  }

  // Whatever outsiders do, a recorded head is one single-parent commit per committing batch above the
  // planned head.
  lemma NamedHeadIsChain(repo: Repo, toHead: Id, call: Call)
    requires repo.Valid()
    ensures var (after, named) := Outcome(repo, toHead, call);
      named.Some? ==> after.head == named.value && Chain(after.commits, toHead, named.value, CommitCount(call.batches))
  {
    hide ApplyActs, RunBatches;
    var first := ApplyActs(repo, call.beforeFirst);
    RunBatchesChain(first, toHead, toHead, 0, call.batches, 0);
    var p := RunBatches(first, toHead, call.batches, 0);
    if Outcome(repo, toHead, call).1.Some? {
      ChainInLonger(p.repo.commits, Outcome(repo, toHead, call).0.commits, toHead, p.expected, CommitCount(call.batches));
    }
  }

  // What a recorded head has passed: HEAD stood at the planned head and the sources matched at the first
  // check, at every later one HEAD stood at the last adopted commit, and at the end twice.
  lemma GatesExact(repo: Repo, toHead: Id, call: Call)
    requires repo.Valid()
    ensures var first := ApplyActs(repo, call.beforeFirst);
      var p := RunBatches(first, toHead, call.batches, 0);
      var named, final := Outcome(repo, toHead, call).1, ApplyActs(p.repo, call.beforeFinal);
      && first.Valid()
      && (named.Some? <==>
            && first.head == toHead && call.firstMatch && p.Going?
            && final.head == p.expected && call.finalMatch && ApplyActs(final, call.beforeHead).head == p.expected)
      && (named.Some? ==> named.value == p.expected)
  {
    hide ApplyActs, RunBatches;
  }

  // A batch goes on exactly when its recheck passes, no projection conflicts, and the commit it makes, if it
  // makes one, is found as HEAD with the expected head as its one parent.
  lemma BatchGatesExact(repo: Repo, expected: Id, run: BatchRun, index: nat)
    requires repo.Valid()
    ensures var checked := if index == 0 then repo else ApplyActs(repo, run.beforeCheck);
      var ready := ApplyActs(checked, run.beforeCommit);
      var committed := if run.changed && run.differs then Repo(ready.commits + [Commit([ready.head], Own(index))], |ready.commits|) else ready;
      var after, p := ApplyActs(committed, run.afterCommit), RunBatch(repo, expected, run, index);
      && after.head < |after.commits|
      && (p.Going? <==>
            && (index > 0 ==> run.sourcesMatch && checked.head == expected) && !run.conflict
            && (run.changed && run.differs ==> after.commits[after.head].parents == [expected]))
      && (p.Going? ==> p.repo == after && p.expected == if run.changed && run.differs then after.head else expected)
  {
    hide ApplyActs;
    CommitKeepsValid(ApplyActs(if index == 0 then repo else ApplyActs(repo, run.beforeCheck), run.beforeCommit), index);
  }

  // ----- outsiders that only add commits -----

  ghost predicate AppendOnlyCall(call: Call) {
    && AppendOnly(call.beforeFirst) && AppendOnly(call.beforeFinal) && AppendOnly(call.beforeHead)
    && forall run | run in call.batches :: AppendOnlyRun(run)
  }

  predicate AppendOnlyRun(run: BatchRun) {
    AppendOnly(run.beforeCheck) && AppendOnly(run.beforeCommit) && AppendOnly(run.afterCommit)
  }

  predicate QuietRun(run: BatchRun, index: nat) {
    (index > 0 ==> run.beforeCheck == [] && run.sourcesMatch) && run.beforeCommit == [] && run.afterCommit == [] && !run.conflict
  }

  predicate QuietRuns(runs: seq<BatchRun>, index: nat)
    decreases |runs|
  {
    |runs| == 0 || (QuietRun(runs[0], index) && QuietRuns(runs[1..], index + 1))
  }

  // No outside commit anywhere, sources as planned at every check, no conflict.
  predicate Undisturbed(call: Call) {
    && call.beforeFirst == [] && call.firstMatch && QuietRuns(call.batches, 0)
    && call.beforeFinal == [] && call.finalMatch && call.beforeHead == []
  }

  // The reconciler's own commits, one per committing batch in batch order, each on top of the last.
  function OwnCommits(count: nat, parent: Id, runs: seq<BatchRun>, index: nat): seq<Commit>
    decreases |runs|
  {
    if |runs| == 0 then []
    else if runs[0].changed && runs[0].differs then [Commit([parent], Own(index))] + OwnCommits(count + 1, count, runs[1..], index + 1)
    else OwnCommits(count, parent, runs[1..], index + 1)
  }

  // Adding commits moves HEAD to a commit that was not there, above everything that was.
  lemma {:induction false} ActsMoveOn(repo: Repo, acts: seq<Act>)
    requires repo.Valid() && AppendOnly(acts)
    ensures var after := ApplyActs(repo, acts);
      acts != [] ==> after.head >= |repo.commits| && |after.commits[after.head].parents| >= 1 && after.commits[after.head].parents[0] >= repo.head
    decreases |acts|
  {
    if |acts| > 0 {
      assert acts[0] in acts && forall act | act in acts[1..] :: act in acts;
      var next := ApplyAct(repo, acts[0]);
      ActsMoveOn(next, acts[1..]);
      if |acts| == 1 { assert acts[1..] == []; }
    }
  }

  // A head that has drifted above the expected one never satisfies a check again.
  lemma DriftStays(repo: Repo, expected: Id, run: BatchRun, index: nat)
    requires repo.Valid() && AppendOnlyRun(run) && repo.head > expected
    ensures var p := RunBatch(repo, expected, run, index);
      p.Going? ==> p.expected == expected && p.repo.head > expected
  {
    hide ApplyActs, AppendOnly;
    var checked := if index > 0 then ApplyActs(repo, run.beforeCheck) else repo;
    ActsMoveOn(repo, run.beforeCheck);
    ApplyNone(repo);
    var ready := ApplyActs(checked, run.beforeCommit);
    ActsMoveOn(checked, run.beforeCommit);
    ApplyNone(checked);
    var committed := ready.With(Commit([ready.head], Own(index)));
    ActsMoveOn(ready, run.afterCommit);
    ApplyNone(ready);
    ActsMoveOn(committed, run.afterCommit);
    ApplyNone(committed);
  }

  lemma ApplyNone(repo: Repo)
    ensures ApplyActs(repo, []) == repo
  {
  }

  lemma {:induction false} DriftFails(repo: Repo, expected: Id, runs: seq<BatchRun>, index: nat)
    requires repo.Valid() && repo.head > expected && forall run | run in runs :: AppendOnlyRun(run)
    ensures var p := RunBatches(repo, expected, runs, index);
      p.Going? ==> p.expected == expected && p.repo.head > expected
    decreases |runs|
  {
    hide RunBatch, AppendOnlyRun;
    if |runs| > 0 {
      assert runs[0] in runs && forall run | run in runs[1..] :: run in runs;
      DriftStays(repo, expected, runs[0], index);
      var p := RunBatch(repo, expected, runs[0], index);
      if p.Going? { DriftFails(p.repo, p.expected, runs[1..], index + 1); }
    }
  }

  // A batch met by a head as expected: undisturbed it makes exactly its own commit; disturbed by an
  // outside commit it stops or leaves a head that has drifted.
  lemma BatchExact(repo: Repo, run: BatchRun, index: nat)
    requires repo.Valid() && AppendOnlyRun(run)
    ensures var p := RunBatch(repo, repo.head, run, index);
      && (QuietRun(run, index) ==>
            p == if Commits(run) then Going(repo.With(Commit([repo.head], Own(index))), |repo.commits|) else Going(repo, repo.head))
      && (!QuietRun(run, index) && p.Going? ==> p.repo.head > p.expected)
  {
    hide ApplyActs, AppendOnly;
    var checked := if index > 0 then ApplyActs(repo, run.beforeCheck) else repo;
    ActsMoveOn(repo, run.beforeCheck);
    ApplyNone(repo);
    var ready := ApplyActs(checked, run.beforeCommit);
    ActsMoveOn(checked, run.beforeCommit);
    ApplyNone(checked);
    var committed := ready.With(Commit([ready.head], Own(index)));
    ActsMoveOn(ready, run.afterCommit);
    ApplyNone(ready);
    ActsMoveOn(committed, run.afterCommit);
    ApplyNone(committed);
  }

  lemma {:induction false} BatchesExact(repo: Repo, runs: seq<BatchRun>, index: nat)
    requires repo.Valid() && forall run | run in runs :: AppendOnlyRun(run)
    ensures var p := RunBatches(repo, repo.head, runs, index);
      && (QuietRuns(runs, index) ==>
            && p.Going? && p.repo.head == p.expected
            && p.repo.commits == repo.commits + OwnCommits(|repo.commits|, repo.head, runs, index))
      && (!QuietRuns(runs, index) && p.Going? ==> p.repo.head > p.expected)
    decreases |runs|
  {
    hide RunBatch, RunBatches, AppendOnlyRun, QuietRun, OwnCommits;
    RunBatchesStep(repo, repo.head, runs, index);
    OwnCommitsStep(|repo.commits|, repo.head, runs, index);
    if |runs| > 0 {
      assert runs[0] in runs && forall run | run in runs[1..] :: run in runs;
      BatchExact(repo, runs[0], index);
      var p := RunBatch(repo, repo.head, runs[0], index);
      if QuietRun(runs[0], index) {
        BatchesExact(p.repo, runs[1..], index + 1);
      } else if p.Going? {
        DriftFails(p.repo, p.expected, runs[1..], index + 1);
      }
    }
  }

  lemma RunBatchesStep(repo: Repo, expected: Id, runs: seq<BatchRun>, index: nat)
    requires repo.Valid()
    ensures |runs| == 0 ==> RunBatches(repo, expected, runs, index) == Going(repo, expected)
    ensures |runs| > 0 ==>
      var p := RunBatch(repo, expected, runs[0], index);
      RunBatches(repo, expected, runs, index) == if p.Stopped? then p else RunBatches(p.repo, p.expected, runs[1..], index + 1)
  {
    hide RunBatch;
  }

  lemma OwnCommitsStep(count: nat, parent: Id, runs: seq<BatchRun>, index: nat)
    ensures |runs| == 0 ==> OwnCommits(count, parent, runs, index) == []
    ensures |runs| > 0 && Commits(runs[0]) ==>
      OwnCommits(count, parent, runs, index) == [Commit([parent], Own(index))] + OwnCommits(count + 1, count, runs[1..], index + 1)
    ensures |runs| > 0 && !Commits(runs[0]) ==>
      OwnCommits(count, parent, runs, index) == OwnCommits(count, parent, runs[1..], index + 1)
  {
  }

  // Against outsiders that only add commits, a call succeeds exactly when there is none anywhere before
  // its last check (and nothing else goes wrong); then the history grows by exactly the reconciler's own
  // commits, in batch order, each the only child of the one before.
  lemma ProvenanceExact(repo: Repo, toHead: Id, call: Call)
    requires repo.Valid() && AppendOnlyCall(call)
    requires toHead < |repo.commits|
    ensures var (after, named) := Outcome(repo, toHead, call);
      && (named.Some? <==> repo.head == toHead && Undisturbed(call))
      && (named.Some? ==> after.commits == repo.commits + OwnCommits(|repo.commits|, toHead, call.batches, 0) && after.head == named.value)
  {
    hide ApplyActs, RunBatches, QuietRuns, OwnCommits, AppendOnly, AppendOnlyRun;
    var first := ApplyActs(repo, call.beforeFirst);
    ActsMoveOn(repo, call.beforeFirst);
    ApplyNone(repo);
    if call.firstMatch && first.head == toHead {
      BatchesExact(first, call.batches, 0);
      var p := RunBatches(first, toHead, call.batches, 0);
      if p.Going? {
        var checked := ApplyActs(p.repo, call.beforeFinal);
        ActsMoveOn(p.repo, call.beforeFinal);
        ApplyNone(p.repo);
        ActsMoveOn(checked, call.beforeHead);
        ApplyNone(checked);
      }
    }
  }

  // ----- any committer: exactly when the recorded chain is the reconciler's own -----

  // The commits on the way back from a head, oldest first.
  ghost function ChainIds(commits: seq<Commit>, to: Id, n: nat): seq<Id>
    decreases n
  {
    if n == 0 || to >= |commits| || |commits[to].parents| == 0 then [] else ChainIds(commits, commits[to].parents[0], n - 1) + [to]
  }

  lemma {:induction false} ChainIdsInLonger(a: seq<Commit>, b: seq<Commit>, from: Id, to: Id, n: nat)
    requires a <= b && Chain(a, from, to, n)
    ensures ChainIds(b, to, n) == ChainIds(a, to, n)
    decreases n
  {
    if n > 0 { ChainIdsInLonger(a, b, from, a[to].parents[0], n - 1); }
  }

  // The repository as a batch finds it when it commits.
  function ReadyFor(repo: Repo, run: BatchRun, index: nat): (r: Repo)
    ensures repo.Valid() ==> r.Valid()
    ensures repo.commits <= r.commits
  {
    ApplyActs(if index > 0 then ApplyActs(repo, run.beforeCheck) else repo, run.beforeCommit)
  }

  // The commits the batches make, and the heads they adopt.
  ghost function CreatedIds(repo: Repo, expected: Id, runs: seq<BatchRun>, index: nat): seq<Id>
    requires repo.Valid()
    decreases |runs|
  {
    if |runs| == 0 then []
    else
      var p := RunBatch(repo, expected, runs[0], index);
      (if Commits(runs[0]) then [|ReadyFor(repo, runs[0], index).commits|] else [])
      + if p.Stopped? then [] else CreatedIds(p.repo, p.expected, runs[1..], index + 1)
  }

  ghost function AdoptedIds(repo: Repo, expected: Id, runs: seq<BatchRun>, index: nat): seq<Id>
    requires repo.Valid()
    decreases |runs|
  {
    if |runs| == 0 then []
    else
      var p := RunBatch(repo, expected, runs[0], index);
      if p.Stopped? then []
      else (if Commits(runs[0]) then [p.expected] else []) + AdoptedIds(p.repo, p.expected, runs[1..], index + 1)
  }

  // Where outside acts leave HEAD, from HEAD and the number of commits alone.
  function HeadAfter(head: Id, count: nat, acts: seq<Act>): Id
    decreases |acts|
  {
    if |acts| == 0 then head
    else match acts[0]
      case Move(to) => HeadAfter(if to < count then to else head, count, acts[1..])
      case _ => HeadAfter(count, count + 1, acts[1..])
  }

  lemma {:induction false} HeadAfterIs(repo: Repo, acts: seq<Act>)
    ensures ApplyActs(repo, acts).head == HeadAfter(repo.head, |repo.commits|, acts)
    decreases |acts|
  {
    hide Existing;
    if |acts| > 0 { HeadAfterIs(ApplyAct(repo, acts[0]), acts[1..]); }
  }

  // After the batch's own commit, number `own`, the outside acts leave HEAD on it.
  predicate HeadKept(run: BatchRun, own: Id) { HeadAfter(own, own + 1, run.afterCommit) == own }

  // At every committing batch.
  ghost predicate AllKept(repo: Repo, expected: Id, runs: seq<BatchRun>, index: nat)
    requires repo.Valid()
    decreases |runs|
  {
    |runs| == 0 ||
      (var p := RunBatch(repo, expected, runs[0], index);
       && (Commits(runs[0]) ==> HeadKept(runs[0], |ReadyFor(repo, runs[0], index).commits|))
       && (p.Going? ==> AllKept(p.repo, p.expected, runs[1..], index + 1)))
  }

  // One batch that goes on: what it adopts is above what it expected, its own commit exactly if HEAD was
  // left there, and older than everything made later.
  lemma BatchAdopts(repo: Repo, expected: Id, run: BatchRun, index: nat)
    requires repo.Valid() && expected < |repo.commits|
    ensures var p, own := RunBatch(repo, expected, run, index), |ReadyFor(repo, run, index).commits|;
      p.Going? && Commits(run) ==>
        && expected < p.expected < |p.repo.commits| && (p.expected == own <==> HeadKept(run, own))
        && own < |p.repo.commits| && p.repo.commits[p.expected].parents == [expected]
    ensures var p := RunBatch(repo, expected, run, index);
      p.Going? ==> p.expected < |p.repo.commits| && (!Commits(run) ==> p.expected == expected)
  {
    hide ApplyActs, HeadAfter;
    if Commits(run) {
      var ready := ReadyFor(repo, run, index);
      var committed := ready.With(Commit([ready.head], Own(index)));
      HeadAfterIs(committed, run.afterCommit);
      CommitKeepsValid(ready, index);
      var after := ApplyActs(committed, run.afterCommit);
      assert Older(after.commits[after.head].parents, after.head);
      if after.commits[after.head].parents == [expected] { assert expected in after.commits[after.head].parents; }
    }
  }

  lemma CommitKeepsValid(repo: Repo, index: nat)
    requires repo.Valid()
    ensures repo.With(Commit([repo.head], Own(index))).Valid()
  {
  }

  lemma {:induction false} CreatedAbove(repo: Repo, expected: Id, runs: seq<BatchRun>, index: nat)
    requires repo.Valid()
    ensures forall id | id in CreatedIds(repo, expected, runs, index) :: id >= |repo.commits|
    decreases |runs|
  {
    hide RunBatch;
    if |runs| > 0 {
      var p := RunBatch(repo, expected, runs[0], index);
      if p.Going? { CreatedAbove(p.repo, p.expected, runs[1..], index + 1); }
    }
  }

  lemma {:induction false} AdoptedAbove(repo: Repo, expected: Id, runs: seq<BatchRun>, index: nat)
    requires repo.Valid() && expected < |repo.commits|
    ensures forall id | id in AdoptedIds(repo, expected, runs, index) :: id > expected
    decreases |runs|
  {
    hide RunBatch;
    if |runs| > 0 {
      BatchAdopts(repo, expected, runs[0], index);
      var p := RunBatch(repo, expected, runs[0], index);
      if p.Going? { AdoptedAbove(p.repo, p.expected, runs[1..], index + 1); }
    }
  }

  // The adopted heads are all commits of the batches exactly when HEAD was left on every one of them.
  lemma {:induction false} AdoptedExact(repo: Repo, expected: Id, runs: seq<BatchRun>, index: nat)
    requires repo.Valid() && expected < |repo.commits| && RunBatches(repo, expected, runs, index).Going?
    ensures AllIn(AdoptedIds(repo, expected, runs, index), CreatedIds(repo, expected, runs, index)) <==> AllKept(repo, expected, runs, index)
    decreases |runs|
  {
    hide RunBatch, RunBatches, ReadyFor, HeadKept, AllIn;
    NothingIn([]);
    RunBatchesStep(repo, expected, runs, index);
    if |runs| > 0 {
      var p, own := RunBatch(repo, expected, runs[0], index), |ReadyFor(repo, runs[0], index).commits|;
      BatchAdopts(repo, expected, runs[0], index);
      AdoptedExact(p.repo, p.expected, runs[1..], index + 1);
      var adopted, created := AdoptedIds(p.repo, p.expected, runs[1..], index + 1), CreatedIds(p.repo, p.expected, runs[1..], index + 1);
      CreatedAbove(p.repo, p.expected, runs[1..], index + 1);
      AdoptedAbove(p.repo, p.expected, runs[1..], index + 1);
      if Commits(runs[0]) {
        FirstDecides(p.expected, own, |p.repo.commits|, adopted, created);
        assert AdoptedIds(repo, expected, runs, index) == [p.expected] + adopted;
        assert CreatedIds(repo, expected, runs, index) == [own] + created;
        assert AllKept(repo, expected, runs, index) <==> p.expected == own && AllKept(p.repo, p.expected, runs[1..], index + 1);
      } else {
        assert [] + adopted == adopted && [] + created == created;
      }
    }
  }

  predicate AllIn(a: seq<Id>, b: seq<Id>) { forall id | id in a :: id in b }

  lemma NothingIn(b: seq<Id>)
    ensures AllIn([], b)
  {
  }

  lemma FirstDecides(first: Id, own: Id, count: nat, adopted: seq<Id>, created: seq<Id>)
    requires first < count && own < count
    requires forall id | id in created :: id >= count
    requires forall id | id in adopted :: id > first
    ensures AllIn([first] + adopted, [own] + created) <==> first == own && AllIn(adopted, created)
  {
    assert first in [first] + adopted;
    assert forall id | id in adopted :: id in [first] + adopted;
    assert forall id :: id in [own] + created <==> id == own || id in created;
  }

  lemma ChainIdsStep(commits: seq<Commit>, from: Id, parent: Id, to: Id, n: nat)
    requires to < |commits| && commits[to].parents == [parent] && Chain(commits, from, parent, n)
    ensures ChainIds(commits, to, n + 1) == ChainIds(commits, parent, n) + [to]
  {
  }

  lemma {:induction false} ChainIsAdopted(repo: Repo, from: Id, expected: Id, n: nat, sofar: seq<Id>, runs: seq<BatchRun>, index: nat)
    requires repo.Valid() && Chain(repo.commits, from, expected, n) && ChainIds(repo.commits, expected, n) == sofar
    requires RunBatches(repo, expected, runs, index).Going? && expected < |repo.commits|
    ensures var p := RunBatches(repo, expected, runs, index);
      ChainIds(p.repo.commits, p.expected, n + CommitCount(runs)) == sofar + AdoptedIds(repo, expected, runs, index)
    decreases |runs|
  {
    hide RunBatch, RunBatches, Chain, ChainIds;
    RunBatchesStep(repo, expected, runs, index);
    if |runs| > 0 {
      var p := RunBatch(repo, expected, runs[0], index);
      BatchAdopts(repo, expected, runs[0], index);
      ChainInLonger(repo.commits, p.repo.commits, from, expected, n);
      ChainIdsInLonger(repo.commits, p.repo.commits, from, expected, n);
      ChainStep(p, from, expected, n, runs[0], repo, index);
      if Commits(runs[0]) {
        ChainIdsStep(p.repo.commits, from, expected, p.expected, n);
        ChainIsAdopted(p.repo, from, p.expected, n + 1, sofar + [p.expected], runs[1..], index + 1);
        assert sofar + [p.expected] + AdoptedIds(p.repo, p.expected, runs[1..], index + 1) == sofar + AdoptedIds(repo, expected, runs, index);
      } else {
        ChainIsAdopted(p.repo, from, expected, n, sofar, runs[1..], index + 1);
        assert AdoptedIds(repo, expected, runs, index) == [] + AdoptedIds(p.repo, p.expected, runs[1..], index + 1);
      }
    } else {
      assert sofar + [] == sofar;
    }
  }

  // A recorded chain consists of the reconciler's own commits of this call exactly when, after every own
  // commit, the outside acts left HEAD on it.
  lemma RecordedIsOwnExact(repo: Repo, toHead: Id, call: Call)
    requires repo.Valid() && Outcome(repo, toHead, call).1.Some?
    ensures var first, (after, named) := ApplyActs(repo, call.beforeFirst), Outcome(repo, toHead, call);
      AllIn(ChainIds(after.commits, named.value, CommitCount(call.batches)), CreatedIds(first, toHead, call.batches, 0))
      <==> AllKept(first, toHead, call.batches, 0)
  {
    hide ApplyActs, RunBatches, AllKept, CreatedIds, AdoptedIds;
    var first := ApplyActs(repo, call.beforeFirst);
    var p := RunBatches(first, toHead, call.batches, 0);
    AdoptedExact(first, toHead, call.batches, 0);
    RunBatchesChain(first, toHead, toHead, 0, call.batches, 0);
    ChainIsAdopted(first, toHead, toHead, 0, [], call.batches, 0);
    ChainIdsInLonger(p.repo.commits, Outcome(repo, toHead, call).0.commits, toHead, p.expected, CommitCount(call.batches));
    assert [] + AdoptedIds(first, toHead, call.batches, 0) == AdoptedIds(first, toHead, call.batches, 0);
  }

  // ----- where the checks stop: a rewritten commit -----

  // An outsider that replaces the reconciler's fresh commit by another child of the same parent is not
  // noticed: the recorded head is the outsider's commit.
  lemma RewriteIsAdopted(repo: Repo)
    requires repo.Valid()
    ensures var run := BatchRun([], true, false, true, true, [], [Rewrite([repo.head])]);
      var (after, named) := Outcome(repo, repo.head, Call([], true, [run], [], true, []));
      named == Some(|repo.commits| + 1) && after.commits[named.value] == Commit([repo.head], Outsider)
  {
    var run := BatchRun([], true, false, true, true, [], [Rewrite([repo.head])]);
    var own := repo.With(Commit([repo.head], Own(0)));
    var theirs := own.With(Commit([repo.head], Outsider));
    assert ApplyActs(own, run.afterCommit) == theirs by {
      assert run.afterCommit[1..] == [];
      assert Existing([repo.head], |own.commits|) == [repo.head] by { assert [repo.head][1..] == []; }
      ApplyNone(theirs);
    }
    ApplyNone(repo);
    assert RunBatch(repo, repo.head, run, 0) == Going(theirs, |repo.commits| + 1);
    RunBatchesStep(repo, repo.head, [run], 0);
    RunBatchesStep(theirs, |repo.commits| + 1, [run][1..], 1);
    ApplyNone(theirs);
  }
}
