// The inference job scheduler: a FIFO deque and a job table changed only by compare-and-set.
module JobScheduler {
  import opened Text

  type Id = string

  datatype Status = Queued | Running | Cancelling | Succeeded | Failed | Cancelled

  datatype Job = Job(status: Status, result: Option<string>, error: Option<string>, started: bool, finished: bool)

  predicate Terminal(s: Status) { s.Succeeded? || s.Failed? || s.Cancelled? }

  predicate Allowed(a: Status, b: Status) {
    match a
    case Queued => b.Running? || b.Cancelled?
    case Running => b.Succeeded? || b.Failed? || b.Cancelling?
    case Cancelling => b.Cancelled? || b.Failed?
    case _ => false
  }

  // ----- the scheduler's state and what each atomic operation does to it -----

  datatype State = State(queue: seq<Id>, jobs: map<Id, Job>, events: map<Id, bool>)

  datatype Op =
    | Create(id: Id)
    | Delete(id: Id)
    | Enqueue(id: Id)
    | ClaimNext
    | CancelQueued(id: Id)
    | Transition(id: Id, expected: Status, to: Status, result: Option<string>, error: Option<string>)

  datatype Reply = Done | No | Full | Invalid | Waiting | Claimed(id: Id)

  function NewJob(): Job { Job(Queued, None, None, false, false) }

  function Moved(job: Job, to: Status, result: Option<string>, error: Option<string>): Job {
    Job(to, if result.Some? then result else job.result,
        if error.Some? then error else if result.Some? then None else job.error,
        job.started || to.Running?, job.finished || Terminal(to))
  }

  function Cas(s: State, id: Id, expected: Status, to: Status, result: Option<string>, error: Option<string>): (State, Reply) {
    if id !in s.jobs || s.jobs[id].status != expected then (s, No)
    else if !Allowed(expected, to) then (s, Invalid)
    else
      (s.(jobs := s.jobs[id := Moved(s.jobs[id], to, result, error)],
          events := if Terminal(to) && id in s.events then s.events[id := true] else s.events), Done)
  }

  // Position of the first occurrence, or the length.
  function FirstAt(queue: seq<Id>, id: Id): (p: nat)
    ensures p <= |queue|
    ensures forall k | 0 <= k < p :: queue[k] != id
    ensures p < |queue| ==> queue[p] == id
  {
    if |queue| == 0 || queue[0] == id then 0
    else
      var rest := FirstAt(queue[1..], id);
      assert forall k | 1 <= k < rest + 1 :: queue[k] == queue[1..][k - 1];
      rest + 1
  }

  function Drop<T>(xs: seq<T>, p: nat): seq<T> {
    if p < |xs| then xs[..p] + xs[p + 1..] else xs
  }

  // deque.remove: the first occurrence, if any.
  function Without(queue: seq<Id>, id: Id): seq<Id> { Drop(queue, FirstAt(queue, id)) }

  predicate IsQueued(jobs: map<Id, Job>, id: Id) { id in jobs && jobs[id].status.Queued? }

  // How many leading entries a claim skips: unknown jobs and jobs no longer queued.
  function Skipped(queue: seq<Id>, jobs: map<Id, Job>): (n: nat)
    ensures n <= |queue|
    ensures forall k | 0 <= k < n :: !IsQueued(jobs, queue[k])
    ensures n < |queue| ==> IsQueued(jobs, queue[n])
  {
    if |queue| == 0 || IsQueued(jobs, queue[0]) then 0
    else
      var rest := Skipped(queue[1..], jobs);
      assert forall k | 1 <= k < rest + 1 :: queue[k] == queue[1..][k - 1];
      rest + 1
  }

  function Do(s: State, maxSize: nat, op: Op): (State, Reply) {
    match op
    case Create(id) => (s.(jobs := s.jobs[id := NewJob()], events := s.events[id := false]), Done)
    case Delete(id) => (State(Without(s.queue, id), s.jobs - {id}, s.events - {id}), Done)
    case Enqueue(id) => if |s.queue| >= maxSize then (s, Full) else (s.(queue := s.queue + [id]), Done)
    case ClaimNext =>
      var n := Skipped(s.queue, s.jobs);
      if n == |s.queue| then (s.(queue := []), Waiting)
      else (Cas(s.(queue := s.queue[n + 1..]), s.queue[n], Queued, Running, None, None).0, Claimed(s.queue[n]))
    case CancelQueued(id) =>
      if !IsQueued(s.jobs, id) then (s, No) else Cas(s.(queue := Without(s.queue, id)), id, Queued, Cancelled, None, None)
    case Transition(id, expected, to, result, error) => Cas(s, id, expected, to, result, error)
  }

  class Scheduler {
    const maxSize: nat
    var queue: seq<Id>
    var jobs: map<Id, Job>
    var events: map<Id, bool>

    constructor (maxSize: nat)
      ensures this.maxSize == maxSize && Value() == State([], map[], map[])
    {
      this.maxSize := maxSize;
      queue, jobs, events := [], map[], map[];
    }

    function Value(): State
      reads this
    {
      State(queue, jobs, events)
    }

    method CasLocked(id: Id, expected: Status, to: Status, result: Option<string>, error: Option<string>) returns (r: Reply)
      modifies this`jobs, this`events
      ensures (Value(), r) == Cas(old(Value()), id, expected, to, result, error)
    {
      if id !in jobs { return No; }
      var job := jobs[id];
      if job.status != expected { return No; }
      if !Allowed(expected, to) { return Invalid; }
      job := job.(status := to);
      if Terminal(to) { job := job.(finished := true); }
      if to.Running? { job := job.(started := true); }
      if result.Some? { job := job.(result := result, error := None); }
      if error.Some? { job := job.(error := error); }
      jobs := jobs[id := job];
      if Terminal(to) && id in events { events := events[id := true]; }
      return Done;
    }

    method CreateJob(id: Id)
      modifies this`jobs, this`events
      ensures Value() == Do(old(Value()), maxSize, Create(id)).0
    {
      jobs := jobs[id := NewJob()];
      events := events[id := false];
    }

    method DeleteJob(id: Id)
      modifies this
      ensures Value() == Do(old(Value()), maxSize, Delete(id)).0
    {
      jobs, events := jobs - {id}, events - {id};
      Remove(id);
    }

    method Remove(id: Id)
      modifies this`queue
      ensures queue == Without(old(queue), id)
    {
      var i := 0;
      while i < |queue| && queue[i] != id
        invariant i <= FirstAt(queue, id)
      {
        i := i + 1;
      }
      if i < |queue| {
        queue := queue[..i] + queue[i + 1..];
      }
    }

    method EnqueueJob(id: Id) returns (position: Option<nat>)
      modifies this`queue
      ensures (Value(), if position.Some? then Done else Full) == Do(old(Value()), maxSize, Enqueue(id))
      ensures position.Some? ==> position.value == |queue| <= maxSize
    {
      if |queue| >= maxSize { return None; }
      queue := queue + [id];
      return Some(|queue|);
    }

    // One pass of the claim loop; None is the wait for a new entry.
    method ClaimNextJob() returns (claimed: Option<Id>)
      modifies this
      ensures (Value(), if claimed.Some? then Claimed(claimed.value) else Waiting) == Do(old(Value()), maxSize, ClaimNext)
    {
      ghost var n := Skipped(queue, jobs);
      ghost var popped := 0;
      while |queue| > 0
        invariant popped <= n && queue == old(queue)[popped..]
        invariant jobs == old(jobs) && events == old(events)
      {
        var id := queue[0];
        queue := queue[1..];
        if id !in jobs || !jobs[id].status.Queued? {
          popped := popped + 1;
        } else {
          var cas := CasLocked(id, Queued, Running, None, None);
          return Some(id);
        }
      }
      return None;
    }

    method CancelQueuedJob(id: Id) returns (r: Reply)
      modifies this
      ensures (Value(), r) == Do(old(Value()), maxSize, CancelQueued(id))
    {
      if id !in jobs || !jobs[id].status.Queued? { return No; }
      Remove(id);
      r := CasLocked(id, Queued, Cancelled, None, None);
    }
  }

  // ----- what every state keeps -----

  ghost predicate Valid(s: State, maxSize: nat) {
    && |s.queue| <= maxSize
    && s.events.Keys == s.jobs.Keys
    && (forall id | id in s.jobs :: s.events[id] <==> Terminal(s.jobs[id].status))
  }

  lemma WithoutShrinks(queue: seq<Id>, id: Id)
    ensures |Without(queue, id)| <= |queue|
  {
  }

  lemma StepKeepsValid(s: State, maxSize: nat, op: Op)
    requires Valid(s, maxSize)
    ensures Valid(Do(s, maxSize, op).0, maxSize)
  {
    if op.Delete? || op.CancelQueued? { WithoutShrinks(s.queue, op.id); }
  }

  // Any operation leaves a job's status as it is, moves it along one allowed transition, or is the
  // job's creation or deletion.
  lemma StatusMoves(s: State, maxSize: nat, op: Op, id: Id)
    requires id in s.jobs && op != Create(id) && op != Delete(id)
    ensures var s' := Do(s, maxSize, op).0;
      id in s'.jobs && (s'.jobs[id].status == s.jobs[id].status || Allowed(s.jobs[id].status, s'.jobs[id].status))
  {
  }

  // ----- runs -----

  // Ids are created fresh.
  ghost predicate Run(ss: seq<State>, ops: seq<Op>, maxSize: nat) {
    && |ss| == |ops| + 1 && ss[0] == State([], map[], map[])
    && (forall i | 0 <= i < |ops| :: ss[i + 1] == Do(ss[i], maxSize, ops[i]).0)
    && (forall i, j | 0 <= i < j < |ops| && ops[i].Create? && ops[j].Create? :: ops[i].id != ops[j].id)
    && (forall i, j | 0 <= i < j < |ops| && ops[i].Enqueue? && ops[j].Create? :: ops[i].id != ops[j].id)
  }

  ghost function ReplyAt(ss: seq<State>, ops: seq<Op>, maxSize: nat, i: nat): Reply
    requires |ss| == |ops| + 1 && i < |ops|
  {
    Do(ss[i], maxSize, ops[i]).1
  }

  lemma {:induction false} RunValid(ss: seq<State>, ops: seq<Op>, maxSize: nat, i: nat)
    requires Run(ss, ops, maxSize) && i < |ss|
    ensures Valid(ss[i], maxSize)
  {
    hide Do;
    if i > 0 {
      RunValid(ss, ops, maxSize, i - 1);
      StepKeepsValid(ss[i - 1], maxSize, ops[i - 1]);
    }
  }

  // A path of allowed transitions.
  ghost predicate Reaches(a: Status, b: Status) {
    || a == b
    || a.Queued?
    || (a.Running? && !b.Queued?)
    || (a.Cancelling? && (b.Cancelled? || b.Failed?))
  }

  lemma ReachesStep(a: Status, b: Status, c: Status)
    requires Reaches(a, b) && (b == c || Allowed(b, c))
    ensures Reaches(a, c)
  {
  }

  lemma {:induction false} StatusHistory(ss: seq<State>, ops: seq<Op>, maxSize: nat, i: nat, j: nat, id: Id)
    requires Run(ss, ops, maxSize) && i <= j < |ss| && id in ss[i].jobs
    requires forall k | i <= k < j :: ops[k] != Delete(id)
    ensures id in ss[j].jobs && Reaches(ss[i].jobs[id].status, ss[j].jobs[id].status)
    ensures Terminal(ss[i].jobs[id].status) ==> ss[j].jobs[id].status == ss[i].jobs[id].status
  {
    hide Do;
    if i < j {
      StatusHistory(ss, ops, maxSize, i, j - 1, id);
      CreatedBefore(ss, ops, maxSize, i, id);
      StatusMoves(ss[j - 1], maxSize, ops[j - 1], id);
      ReachesStep(ss[i].jobs[id].status, ss[j - 1].jobs[id].status, ss[j].jobs[id].status);
    }
  }

  // A job that exists was created, so it is not created again.
  lemma {:induction false} CreatedBefore(ss: seq<State>, ops: seq<Op>, maxSize: nat, i: nat, id: Id)
    requires Run(ss, ops, maxSize) && i < |ss| && id in ss[i].jobs
    ensures exists k | 0 <= k < i :: ops[k] == Create(id)
    ensures forall k | i <= k < |ops| :: ops[k] != Create(id)
  {
    assert i > 0;
    if ops[i - 1] != Create(id) {
      OnlyCreateAdds(ss[i - 1], maxSize, ops[i - 1], id);
      CreatedBefore(ss, ops, maxSize, i - 1, id);
    }
  }

  lemma OnlyCreateAdds(s: State, maxSize: nat, op: Op, id: Id)
    requires op != Create(id) && id in Do(s, maxSize, op).0.jobs
    ensures id in s.jobs
  {
  }

  // A deleted job stays deleted.
  lemma {:induction false} StaysDeleted(ss: seq<State>, ops: seq<Op>, maxSize: nat, i: nat, j: nat, id: Id)
    requires Run(ss, ops, maxSize) && i <= j < |ss| && id !in ss[i].jobs
    requires exists k | 0 <= k < i :: ops[k] == Create(id)
    ensures id !in ss[j].jobs
  {
    hide Do;
    if i < j {
      StaysDeleted(ss, ops, maxSize, i, j - 1, id);
      if id in ss[j].jobs { OnlyCreateAdds(ss[j - 1], maxSize, ops[j - 1], id); }
    }
  }

  lemma ClaimIs(s: State, maxSize: nat)
    ensures var (s', r) := Do(s, maxSize, ClaimNext);
      r.Claimed? ==>
        && IsQueued(s.jobs, r.id) && r.id in s'.jobs && s'.jobs[r.id].status.Running?
        && var n := Skipped(s.queue, s.jobs); n < |s.queue| && s.queue[n] == r.id && s'.queue == s.queue[n + 1..]
  {
  }

  // A job is claimed at most once, however often it was enqueued.
  lemma ClaimedOnce(ss: seq<State>, ops: seq<Op>, maxSize: nat, i: nat, j: nat, id: Id)
    requires Run(ss, ops, maxSize) && i < j < |ops| && ops[i].ClaimNext? && ops[j].ClaimNext?
    requires ReplyAt(ss, ops, maxSize, i) == Claimed(id)
    ensures ReplyAt(ss, ops, maxSize, j) != Claimed(id)
  {
    hide Do;
    ClaimIs(ss[i], maxSize);
    ClaimIs(ss[j], maxSize);
    NeverQueuedAgain(ss, ops, maxSize, i + 1, j, id);
  }

  lemma {:induction false} NeverQueuedAgain(ss: seq<State>, ops: seq<Op>, maxSize: nat, i: nat, j: nat, id: Id)
    requires Run(ss, ops, maxSize) && i <= j < |ss| && id in ss[i].jobs && !ss[i].jobs[id].status.Queued?
    ensures !IsQueued(ss[j].jobs, id)
    decreases j - i
  {
    hide Do;
    if i < j {
      CreatedBefore(ss, ops, maxSize, i, id);
      if ops[i] == Delete(id) {
        DeleteRemoves(ss[i], maxSize, id);
        var k :| 0 <= k < i && ops[k] == Create(id);
        StaysDeleted(ss, ops, maxSize, i + 1, j, id);
      } else {
        StatusMoves(ss[i], maxSize, ops[i], id);
        NeverQueuedAgain(ss, ops, maxSize, i + 1, j, id);
      }
    }
  }

  lemma DeleteRemoves(s: State, maxSize: nat, id: Id)
    ensures id !in Do(s, maxSize, Delete(id)).0.jobs
  {
  }

  // ----- what each operation does to jobs and deque, in a run -----

  // Every job but this one is as before, and no other is there.
  ghost predicate OthersKept(was: map<Id, Job>, now: map<Id, Job>, id: Id) {
    forall other: Id | other != id :: (other in now <==> other in was) && (other in was ==> now[other] == was[other])
  }

  // The deque without the first entry of the job, if it has one.
  ghost predicate FirstEntryGone(was: seq<Id>, now: seq<Id>, id: Id) {
    if id in was then exists p :: 0 <= p < |was| && was[p] == id && id !in was[..p] && now == was[..p] + was[p + 1..]
    else now == was
  }

  lemma WithoutIs(queue: seq<Id>, id: Id)
    ensures FirstEntryGone(queue, Without(queue, id), id)
  {
    var p := FirstAt(queue, id);
    if id in queue {
      var k :| 0 <= k < |queue| && queue[k] == id;
      assert queue[p] == id && id !in queue[..p] && Without(queue, id) == queue[..p] + queue[p + 1..];
    }
  }

  // A transition is made exactly when the job has the expected status and the table allows the new one.
  // It stores the result and the error it is given; a result alone clears the error.
  lemma TransitionStores(ss: seq<State>, ops: seq<Op>, maxSize: nat, i: nat)
    requires Run(ss, ops, maxSize) && i < |ops| && ops[i].Transition?
    ensures var (was, now, reply, id, to) := (ss[i], ss[i + 1], ReplyAt(ss, ops, maxSize, i), ops[i].id, ops[i].to);
      && (reply == No <==> id !in was.jobs || was.jobs[id].status != ops[i].expected)
      && (reply == Done <==>
            && id in was.jobs && was.jobs[id].status == ops[i].expected
            && (ops[i].expected, to) in {(Queued, Running), (Queued, Cancelled), (Running, Succeeded), (Running, Failed),
                                         (Running, Cancelling), (Cancelling, Cancelled), (Cancelling, Failed)})
      && (reply == No || reply == Done || reply == Invalid)
      && (reply != Done ==> now == was)
      && now.queue == was.queue && OthersKept(was.jobs, now.jobs, id)
      && (reply == Done ==>
            && id in was.jobs && id in now.jobs && now.jobs[id].status == to
            && (ops[i].result.Some? ==> now.jobs[id].result == ops[i].result)
            && (ops[i].error.Some? ==> now.jobs[id].error == ops[i].error)
            && (ops[i].result.Some? && ops[i].error.None? ==> now.jobs[id].error == None)
            && (ops[i].result.None? ==> now.jobs[id].result == was.jobs[id].result)
            && (ops[i].result.None? && ops[i].error.None? ==> now.jobs[id].error == was.jobs[id].error))
  {
  }

  // No other operation touches the result or the error of a job that exists.
  lemma OnlyTransitionsStore(ss: seq<State>, ops: seq<Op>, maxSize: nat, i: nat, id: Id)
    requires Run(ss, ops, maxSize) && i < |ops| && id in ss[i].jobs && id in ss[i + 1].jobs
    requires ops[i].Transition? ==> ops[i].id != id
    ensures ss[i + 1].jobs[id].result == ss[i].jobs[id].result && ss[i + 1].jobs[id].error == ss[i].jobs[id].error
  {
    CreatedBefore(ss, ops, maxSize, i, id);
  }

  // A job is finished exactly when its status is terminal, and started exactly when it has been running.
  lemma {:induction false} FlagsExact(ss: seq<State>, ops: seq<Op>, maxSize: nat, i: nat, id: Id)
    requires Run(ss, ops, maxSize) && i < |ss| && id in ss[i].jobs
    ensures ss[i].jobs[id].finished <==> ss[i].jobs[id].status in {Succeeded, Failed, Cancelled}
    ensures ss[i].jobs[id].started <==> HasRun(ss, i, id)
  {
    hide Do, HasRun;
    assert i > 0 && ss[0].jobs == map[];
    CreatedBefore(ss, ops, maxSize, i, id);
    HasRunStep(ss, i, id);
    if id in ss[i - 1].jobs {
      CreatedBefore(ss, ops, maxSize, i - 1, id);
      FlagsExact(ss, ops, maxSize, i - 1, id);
      HasRunNow(ss, i - 1, id);
      FlagsStep(ss[i - 1], maxSize, ops[i - 1], id);
    } else {
      NeverBefore(ss, ops, maxSize, i, id);
      NeverRan(ss, i - 1, id);
    }
  }

  ghost predicate WasRunning(s: State, id: Id) { id in s.jobs && s.jobs[id].status.Running? }

  ghost predicate HasRun(ss: seq<State>, i: nat, id: Id)
    requires i < |ss|
  {
    exists k | 0 <= k <= i :: WasRunning(ss[k], id)
  }

  lemma HasRunStep(ss: seq<State>, i: nat, id: Id)
    requires 0 < i < |ss|
    ensures HasRun(ss, i, id) <==> HasRun(ss, i - 1, id) || WasRunning(ss[i], id)
  {
    if HasRun(ss, i - 1, id) {
      var k :| 0 <= k <= i - 1 && WasRunning(ss[k], id);
    }
  }

  lemma HasRunNow(ss: seq<State>, i: nat, id: Id)
    requires i < |ss|
    ensures WasRunning(ss[i], id) ==> HasRun(ss, i, id)
  {
  }

  lemma NeverRan(ss: seq<State>, i: nat, id: Id)
    requires i < |ss| && forall k | 0 <= k <= i :: id !in ss[k].jobs
    ensures !HasRun(ss, i, id)
  {
  }

  lemma FlagsStep(s: State, maxSize: nat, op: Op, id: Id)
    requires id in s.jobs && op != Create(id) && id in Do(s, maxSize, op).0.jobs
    requires (s.jobs[id].finished <==> Terminal(s.jobs[id].status)) && (s.jobs[id].status.Running? ==> s.jobs[id].started)
    ensures var job := Do(s, maxSize, op).0.jobs[id];
      && (job.finished <==> Terminal(job.status))
      && (job.started <==> s.jobs[id].started || job.status.Running?)
  {
  }

  // A job that appears in a step was never there before.
  lemma NeverBefore(ss: seq<State>, ops: seq<Op>, maxSize: nat, i: nat, id: Id)
    requires Run(ss, ops, maxSize) && 0 < i < |ss| && id in ss[i].jobs && id !in ss[i - 1].jobs
    ensures ss[i].jobs[id] == NewJob()
    ensures forall k | 0 <= k < i :: id !in ss[k].jobs
  {
    if ops[i - 1] != Create(id) { OnlyCreateAdds(ss[i - 1], maxSize, ops[i - 1], id); }
    forall k | 0 <= k < i ensures id !in ss[k].jobs {
      if id in ss[k].jobs { CreatedBefore(ss, ops, maxSize, k, id); }
    }
  }

  // What a job was when it ended it stays, until it is deleted.
  lemma {:induction false} FinishedIsFinal(ss: seq<State>, ops: seq<Op>, maxSize: nat, i: nat, j: nat, id: Id)
    requires Run(ss, ops, maxSize) && i <= j < |ss| && id in ss[i].jobs && Terminal(ss[i].jobs[id].status)
    requires forall k | i <= k < j :: ops[k] != Delete(id)
    ensures id in ss[j].jobs && ss[j].jobs[id] == ss[i].jobs[id]
  {
    if i < j {
      FinishedIsFinal(ss, ops, maxSize, i, j - 1, id);
      CreatedBefore(ss, ops, maxSize, i, id);
      TerminalStays(ss[j - 1], maxSize, ops[j - 1], id);
    }
  }

  lemma TerminalStays(s: State, maxSize: nat, op: Op, id: Id)
    requires id in s.jobs && Terminal(s.jobs[id].status) && op != Create(id) && op != Delete(id)
    ensures var s' := Do(s, maxSize, op).0; id in s'.jobs && s'.jobs[id] == s.jobs[id]
  {
  }

  // A job that was running and ends cancelled was asked to cancel in between.
  lemma {:induction false} CancelledWhenAsked(ss: seq<State>, ops: seq<Op>, maxSize: nat, i: nat, j: nat, id: Id)
    requires Run(ss, ops, maxSize) && i <= j < |ss| && WasRunning(ss[i], id)
    requires id in ss[j].jobs && ss[j].jobs[id].status.Cancelled?
    ensures exists k | i < k < j :: id in ss[k].jobs && ss[k].jobs[id].status.Cancelling?
    decreases j
  {
    CreatedBefore(ss, ops, maxSize, i, id);
    OnlyCreateAdds(ss[j - 1], maxSize, ops[j - 1], id);
    StatusMoves(ss[j - 1], maxSize, ops[j - 1], id);
    hide Do;
    if ss[j - 1].jobs[id].status.Cancelled? {
      CancelledWhenAsked(ss, ops, maxSize, i, j - 1, id);
    } else if ss[j - 1].jobs[id].status.Queued? {
      NeverQueuedAgain(ss, ops, maxSize, i, j - 1, id);
    }
  }

  // Cancelling succeeds exactly for a queued job: it ends cancelled and loses its first entry.
  lemma CancelExact(ss: seq<State>, ops: seq<Op>, maxSize: nat, i: nat)
    requires Run(ss, ops, maxSize) && i < |ops| && ops[i].CancelQueued?
    ensures var (was, now, reply, id) := (ss[i], ss[i + 1], ReplyAt(ss, ops, maxSize, i), ops[i].id);
      && (reply == Done <==> id in was.jobs && was.jobs[id].status == Queued) && (reply == Done || reply == No)
      && (reply == No ==> now == was)
      && (reply == Done ==>
            && id in now.jobs && now.jobs[id].status == Cancelled && OthersKept(was.jobs, now.jobs, id)
            && FirstEntryGone(was.queue, now.queue, id))
  {
    WithoutIs(ss[i].queue, ops[i].id);
    hide Without, FirstEntryGone;
  }

  // A claim takes the first entry whose job is queued and drops the entries before it; without one it
  // waits with an empty deque.
  lemma ClaimExact(ss: seq<State>, ops: seq<Op>, maxSize: nat, i: nat)
    requires Run(ss, ops, maxSize) && i < |ops| && ops[i].ClaimNext?
    ensures var (was, now, reply) := (ss[i], ss[i + 1], ReplyAt(ss, ops, maxSize, i));
      && (reply.Waiting? || reply.Claimed?)
      && (reply.Waiting? <==> forall id | id in was.queue :: id in was.jobs ==> was.jobs[id].status != Queued)
      && (reply.Waiting? ==> now.queue == [] && now.jobs == was.jobs)
      && (reply.Claimed? ==>
            && reply.id in was.jobs && was.jobs[reply.id].status == Queued
            && reply.id in now.jobs && now.jobs[reply.id].status == Running && OthersKept(was.jobs, now.jobs, reply.id)
            && exists n: nat :: n < |was.queue| && was.queue[n] == reply.id && now.queue == was.queue[n + 1..]
                 && forall id | id in was.queue[..n] :: id in was.jobs ==> was.jobs[id].status != Queued)
  {
    var (s, n) := (ss[i], Skipped(ss[i].queue, ss[i].jobs));
    forall id | id in s.queue[..n] ensures id in s.jobs ==> s.jobs[id].status != Queued {
      var k :| 0 <= k < n && s.queue[k] == id;
      assert !IsQueued(s.jobs, s.queue[k]);
    }
    assert n == |s.queue| ==> s.queue[..n] == s.queue;
    assert n < |s.queue| ==> IsQueued(s.jobs, s.queue[n]) && s.queue[n] in s.queue;
  }

  // A created job is queued and blank, a deleted one is gone with its first entry, and an enqueue goes to
  // the end of the deque or is refused for its bound.
  lemma TableExact(ss: seq<State>, ops: seq<Op>, maxSize: nat, i: nat)
    requires Run(ss, ops, maxSize) && i < |ops|
    ensures ops[i].Create? ==>
      && ops[i].id in ss[i + 1].jobs && ss[i + 1].jobs[ops[i].id] == Job(Queued, None, None, false, false)
      && OthersKept(ss[i].jobs, ss[i + 1].jobs, ops[i].id) && ss[i + 1].queue == ss[i].queue
    ensures ops[i].Delete? ==>
      && ops[i].id !in ss[i + 1].jobs && OthersKept(ss[i].jobs, ss[i + 1].jobs, ops[i].id)
      && FirstEntryGone(ss[i].queue, ss[i + 1].queue, ops[i].id)
    ensures ops[i].Enqueue? ==>
      && (ReplyAt(ss, ops, maxSize, i) == Full <==> |ss[i].queue| == maxSize)
      && ss[i + 1].queue == (if |ss[i].queue| == maxSize then ss[i].queue else ss[i].queue + [ops[i].id])
      && ss[i + 1].jobs == ss[i].jobs
  {
    RunValid(ss, ops, maxSize, i);
    if ops[i].Delete? {
      WithoutIs(ss[i].queue, ops[i].id);
      hide Without, FirstEntryGone;
    }
  }

  // ----- claims follow enqueue order -----

  // The step at which each entry of the deque was enqueued, kept along with the deque.
  ghost function NextTickets(s: State, was: seq<nat>, maxSize: nat, op: Op, now: nat): seq<nat> {
    match op
    case Enqueue(_) => if |s.queue| >= maxSize then was else was + [now]
    case Delete(id) => Drop(was, FirstAt(s.queue, id))
    case CancelQueued(id) => if IsQueued(s.jobs, id) then Drop(was, FirstAt(s.queue, id)) else was
    case ClaimNext => if Skipped(s.queue, s.jobs) < |was| then was[Skipped(s.queue, s.jobs) + 1..] else []
    case _ => was
  }

  ghost function Tickets(ss: seq<State>, ops: seq<Op>, maxSize: nat, i: nat): seq<nat>
    requires |ss| == |ops| + 1 && i < |ss|
    decreases i
  {
    if i == 0 then [] else NextTickets(ss[i - 1], Tickets(ss, ops, maxSize, i - 1), maxSize, ops[i - 1], i - 1)
  }

  ghost predicate Ascending(tickets: seq<nat>) {
    forall k, l | 0 <= k < l < |tickets| :: tickets[k] < tickets[l]
  }

  // Tickets match the deque, increase along it, and belong to its entries.
  ghost predicate Ticketed(queue: seq<Id>, tickets: seq<nat>, ops: seq<Op>, i: nat) {
    && |tickets| == |queue| && i <= |ops| && Ascending(tickets)
    && (forall k | 0 <= k < |tickets| :: tickets[k] < i && ops[tickets[k]] == Enqueue(queue[k]))
  }

  ghost predicate Accepted(s: State, maxSize: nat, op: Op) { op.Enqueue? && |s.queue| < maxSize }

  lemma DropKeeps(queue: seq<Id>, tickets: seq<nat>, ops: seq<Op>, i: nat, p: nat)
    requires Ticketed(queue, tickets, ops, i)
    ensures Ticketed(Drop(queue, p), Drop(tickets, p), ops, i)
    ensures forall t | t in Drop(tickets, p) :: t in tickets
    ensures forall t | t in tickets && (p < |tickets| ==> t != tickets[p]) :: t in Drop(tickets, p)
  {
    hide Ascending, Drop;
    DropAscending(tickets, p);
    DropAt(queue, p);
    DropAt(tickets, p);
    DropMembers(tickets, p);
    var dt, dq := Drop<nat>(tickets, p), Drop<Id>(queue, p);
    forall k | 0 <= k < |dt| ensures dt[k] < i && ops[dt[k]] == Enqueue(dq[k]) {
      var l := if k < p then k else k + 1;
      assert dt[k] == tickets[l] && dq[k] == queue[l];
    }
  }

  lemma DropAt<T>(xs: seq<T>, p: nat)
    ensures |Drop(xs, p)| == if p < |xs| then |xs| - 1 else |xs|
    ensures forall k | 0 <= k < |Drop(xs, p)| :: Drop(xs, p)[k] == xs[if k < p then k else k + 1]
  {
  }

  lemma DropMembers(tickets: seq<nat>, p: nat)
    ensures forall t | t in Drop(tickets, p) :: t in tickets
    ensures forall t | t in tickets && (p < |tickets| ==> t != tickets[p]) :: t in Drop(tickets, p)
  {
    if p < |tickets| {
      assert tickets == tickets[..p] + [tickets[p]] + tickets[p + 1..];
    }
  }

  lemma DropAscending(tickets: seq<nat>, p: nat)
    requires Ascending(tickets)
    ensures Ascending(Drop(tickets, p))
  {
  }

  lemma SuffixKeeps(queue: seq<Id>, tickets: seq<nat>, ops: seq<Op>, i: nat, n: nat)
    requires Ticketed(queue, tickets, ops, i) && n <= |tickets|
    ensures Ticketed(queue[n..], tickets[n..], ops, i)
    ensures forall t | t in tickets[n..] :: t in tickets
    ensures forall t | t in tickets && t !in tickets[n..] :: exists k | 0 <= k < n :: tickets[k] == t
  {
    hide Ascending;
    SuffixAscending(tickets, n);
    assert tickets == tickets[..n] + tickets[n..];
  }

  lemma SuffixAscending(tickets: seq<nat>, n: nat)
    requires Ascending(tickets) && n <= |tickets|
    ensures Ascending(tickets[n..])
  {
  }

  // One step keeps the tickets matched; it drops only tickets of jobs it leaves not queued, and adds only
  // the ticket of an accepted enqueue.
  lemma StepTickets(s: State, was: seq<nat>, maxSize: nat, ops: seq<Op>, i: nat)
    requires i < |ops| && Ticketed(s.queue, was, ops, i)
    ensures var (s', now) := (Do(s, maxSize, ops[i]).0, NextTickets(s, was, maxSize, ops[i], i));
      && Ticketed(s'.queue, now, ops, i + 1)
      && (forall t | t in was && IsQueued(s'.jobs, ops[t].id) :: t in now)
      && (forall t | t in now :: t in was || (t == i && Accepted(s, maxSize, ops[i])))
      && (Accepted(s, maxSize, ops[i]) ==> i in now)
  {
    hide Ticketed, Drop, FirstAt, Skipped, IsQueued, Cas;
    TicketedLater(s.queue, was, ops, i);
    match ops[i]
    case Delete(id) => RemovalTickets(s, was, maxSize, ops, i, id);
    case CancelQueued(id) => RemovalTickets(s, was, maxSize, ops, i, id);
    case ClaimNext => ClaimTickets(s, was, maxSize, ops, i);
    case Enqueue(id) => AppendTickets(s, was, maxSize, ops, i, id);
    case Create(_) =>
    case Transition(id, expected, to, result, error) => CasKeepsQueue(s, id, expected, to, result, error);
  }

  lemma TicketedLater(queue: seq<Id>, tickets: seq<nat>, ops: seq<Op>, i: nat)
    requires Ticketed(queue, tickets, ops, i) && i < |ops|
    ensures Ticketed(queue, tickets, ops, i + 1)
    ensures forall t | t in tickets :: t < i && ops[t].Enqueue?
  {
    hide Ascending;
    forall t | t in tickets ensures t < i && ops[t].Enqueue? {
      var k :| 0 <= k < |tickets| && tickets[k] == t;
    }
  }

  lemma CasKeepsQueue(s: State, id: Id, expected: Status, to: Status, result: Option<string>, error: Option<string>)
    ensures Cas(s, id, expected, to, result, error).0.queue == s.queue
  {
  }

  lemma RemovalTickets(s: State, was: seq<nat>, maxSize: nat, ops: seq<Op>, i: nat, id: Id)
    requires i < |ops| && Ticketed(s.queue, was, ops, i) && (ops[i] == Delete(id) || ops[i] == CancelQueued(id))
    ensures var (s', now) := (Do(s, maxSize, ops[i]).0, NextTickets(s, was, maxSize, ops[i], i));
      && Ticketed(s'.queue, now, ops, i + 1)
      && (forall t | t in was && t < |ops| && ops[t].Enqueue? && IsQueued(s'.jobs, ops[t].id) :: t in now)
      && (forall t | t in now :: t in was)
  {
    hide Drop, Ascending;
    var p := FirstAt(s.queue, id);
    DropKeeps(s.queue, was, ops, i, p);
    TicketedLater(s.queue, was, ops, i);
    TicketedLater(Drop(s.queue, p), Drop(was, p), ops, i);
    assert p < |was| ==> ops[was[p]] == Enqueue(id);
  }

  lemma ClaimTickets(s: State, was: seq<nat>, maxSize: nat, ops: seq<Op>, i: nat)
    requires i < |ops| && Ticketed(s.queue, was, ops, i) && ops[i].ClaimNext?
    ensures var (s', now) := (Do(s, maxSize, ops[i]).0, NextTickets(s, was, maxSize, ops[i], i));
      && Ticketed(s'.queue, now, ops, i + 1)
      && (forall t | t in was && t < |ops| && ops[t].Enqueue? && IsQueued(s'.jobs, ops[t].id) :: t in now)
      && (forall t | t in now :: t in was)
  {
    hide Ascending;
    var n := Skipped(s.queue, s.jobs);
    var m := if n < |was| then n + 1 else |was|;
    SuffixKeeps(s.queue, was, ops, i, m);
    TicketedLater(s.queue[m..], was[m..], ops, i);
    var s' := Do(s, maxSize, ClaimNext).0;
    forall k: nat | k < m ensures ops[was[k]] == Enqueue(s.queue[k]) && !IsQueued(s'.jobs, s.queue[k]) {
    }
    assert was[|was|..] == [];
  }

  lemma AppendTickets(s: State, was: seq<nat>, maxSize: nat, ops: seq<Op>, i: nat, id: Id)
    requires i < |ops| && Ticketed(s.queue, was, ops, i) && ops[i] == Enqueue(id)
    ensures Ticketed(s.queue, was, ops, i + 1) && Ticketed(s.queue + [id], was + [i], ops, i + 1)
  {
  }

  ghost predicate Enqueued(ss: seq<State>, ops: seq<Op>, maxSize: nat, e: nat)
    requires |ss| == |ops| + 1 && e < |ops|
  {
    Accepted(ss[e], maxSize, ops[e])
  }

  // Along a run: tickets match the deque, are those of accepted enqueues, and every accepted enqueue of a
  // job that is still queued has its ticket there.
  lemma {:induction false} TicketsKept(ss: seq<State>, ops: seq<Op>, maxSize: nat, i: nat)
    requires Run(ss, ops, maxSize) && i < |ss|
    ensures Ticketed(ss[i].queue, Tickets(ss, ops, maxSize, i), ops, i)
    ensures forall t | t in Tickets(ss, ops, maxSize, i) :: t < i && Enqueued(ss, ops, maxSize, t)
    ensures forall e: nat | e < i && Enqueued(ss, ops, maxSize, e) && IsQueued(ss[i].jobs, ops[e].id) :: e in Tickets(ss, ops, maxSize, i)
  {
    hide Do, Ticketed, NextTickets, IsQueued;
    if i == 0 {
      NoTickets(ops);
      assert ss[0].queue == [];
    } else {
      TicketsKept(ss, ops, maxSize, i - 1);
      StepTickets(ss[i - 1], Tickets(ss, ops, maxSize, i - 1), maxSize, ops, i - 1);
      forall e: nat | e < i && Enqueued(ss, ops, maxSize, e) && IsQueued(ss[i].jobs, ops[e].id) ensures e in Tickets(ss, ops, maxSize, i) {
        if e < i - 1 { StaysQueued(ss, ops, maxSize, i - 1, e); }
      }
    }
  }

  lemma NoTickets(ops: seq<Op>)
    ensures Ticketed([], [], ops, 0)
  {
  }

  // A job that is queued after a step was queued before it, unless the step created it.
  lemma StaysQueued(ss: seq<State>, ops: seq<Op>, maxSize: nat, i: nat, e: nat)
    requires Run(ss, ops, maxSize) && e < i < |ops| && ops[e].Enqueue? && IsQueued(ss[i + 1].jobs, ops[e].id)
    ensures IsQueued(ss[i].jobs, ops[e].id)
  {
    hide Skipped, Without;
  }

  // When a job is claimed, it had been enqueued before every enqueue of any job that is still queued.
  lemma ClaimsInOrder(ss: seq<State>, ops: seq<Op>, maxSize: nat, i: nat, e: nat)
    requires Run(ss, ops, maxSize) && i < |ops| && ops[i].ClaimNext? && ReplyAt(ss, ops, maxSize, i).Claimed?
    requires e < i && Enqueued(ss, ops, maxSize, e) && IsQueued(ss[i + 1].jobs, ops[e].id)
    ensures exists t | 0 <= t < e :: Enqueued(ss, ops, maxSize, t) && ops[t] == Enqueue(ReplyAt(ss, ops, maxSize, i).id)
  {
    hide Do, IsQueued, Ticketed, NextTickets;
    TicketsKept(ss, ops, maxSize, i);
    TicketsKept(ss, ops, maxSize, i + 1);
    var t := ClaimedTicket(ss[i], Tickets(ss, ops, maxSize, i), maxSize, ops, i, e);
  }

  // The claimed entry's ticket is below every ticket that stays.
  lemma ClaimedTicket(s: State, was: seq<nat>, maxSize: nat, ops: seq<Op>, i: nat, e: nat) returns (t: nat)
    requires i < |ops| && Ticketed(s.queue, was, ops, i) && ops[i].ClaimNext? && Do(s, maxSize, ClaimNext).1.Claimed?
    requires e in NextTickets(s, was, maxSize, ops[i], i)
    ensures t in was && t < e && t < |ops| && ops[t] == Enqueue(Do(s, maxSize, ClaimNext).1.id)
  {
    hide Ascending;
    var n := Skipped(s.queue, s.jobs);
    ClaimIs(s, maxSize);
    t := was[n];
    var k :| 0 <= k < |was[n + 1..]| && was[n + 1..][k] == e;
    AscendingAt(was, n, n + 1 + k);
  }

  lemma AscendingAt(tickets: seq<nat>, k: nat, l: nat)
    requires Ascending(tickets) && k < l < |tickets|
    ensures tickets[k] < tickets[l]
  {
  }

  // An enqueued job that is still queued is in the deque, so it can still be claimed.
  lemma QueuedIsInDeque(ss: seq<State>, ops: seq<Op>, maxSize: nat, i: nat, e: nat)
    requires Run(ss, ops, maxSize) && e < i < |ss| && Enqueued(ss, ops, maxSize, e) && IsQueued(ss[i].jobs, ops[e].id)
    ensures ops[e].id in ss[i].queue
  {
    hide Do, Ascending, IsQueued, NextTickets;
    var tickets := Tickets(ss, ops, maxSize, i);
    TicketsKept(ss, ops, maxSize, i);
    var k :| 0 <= k < |tickets| && tickets[k] == e;
    assert ops[e] == Enqueue(ss[i].queue[k]);
  }
}
