// The asynchronous pool: producers post, workers take, and the destructor posts
// one terminate message per worker and joins. Every locked region of the queue
// is one step; any enabled thread may take the next step.
module ThreadPool {
  import CircularQueueModel
  import BlockingQueueModel

  datatype Message = Log(id: nat) | Flush(id: nat) | Terminate

  // What became of a message that left the queue.
  datatype Fate = Taken(worker: nat) | Handled(worker: nat) | Overrun

  datatype Worker = Waiting | Handling(message: nat) | Stopped

  // The destructor: not yet called, having posted i terminates, having joined i.
  datatype Phase = Live | Posting(i: nat) | Joining(i: nat)

  // Message k of all the posted ones has left the queue when k < |fates|.
  datatype State = State(posted: seq<Message>, fates: seq<Fate>, queue: seq<Message>, workers: seq<Worker>, phase: Phase)

  datatype Step =
    | PostBlocking(message: Message)
    | PostNowait(message: Message)
    | BeginDestruction
    | PostTerminate
    | BeginJoining
    | Join
    | Take(worker: nat)
    | Finish(worker: nat)
    | TimeOut(worker: nat)

  ghost function Init(threads: nat): State {
    State([], [], [], seq(threads, _ => Waiting), Live)
  }

  ghost predicate Enabled(capacity: nat, s: State, step: Step) {
    match step
    case PostBlocking(m) => s.phase.Live? && !m.Terminate? && |s.queue| < capacity
    case PostNowait(m) => s.phase.Live? && !m.Terminate? && |s.queue| <= capacity
    case BeginDestruction => s.phase.Live?
    case PostTerminate => s.phase.Posting? && s.phase.i < |s.workers| && |s.queue| < capacity
    case BeginJoining => s.phase.Posting? && s.phase.i >= |s.workers|
    case Join => s.phase.Joining? && s.phase.i < |s.workers| && s.workers[s.phase.i].Stopped?
    case Take(w) => w < |s.workers| && s.workers[w].Waiting? && s.queue != []
    case Finish(w) => w < |s.workers| && s.workers[w].Handling? && s.workers[w].message < |s.fates|
    case TimeOut(w) => w < |s.workers| && s.workers[w].Waiting? && s.queue == []
  }

  ghost function Post(s: State, m: Message): State {
    s.(posted := s.posted + [m], queue := s.queue + [m])
  }

  ghost function Apply(capacity: nat, s: State, step: Step): State
    requires Enabled(capacity, s, step)
  {
    match step
    case PostBlocking(m) => Post(s, m)
    case PostNowait(m) =>
      s.(posted := s.posted + [m],
         queue := CircularQueueModel.Pushed(capacity, s.queue, m),
         fates := if |s.queue| < capacity then s.fates else s.fates + [Overrun])
    case BeginDestruction => s.(phase := Posting(0))
    case PostTerminate => Post(s, Terminate).(phase := Posting(s.phase.i + 1))
    case BeginJoining => s.(phase := Joining(0))
    case Join => s.(phase := Joining(s.phase.i + 1))
    case Take(w) =>
      var stops := s.queue[0].Terminate?;
      s.(queue := s.queue[1..],
         fates := s.fates + [if stops then Handled(w) else Taken(w)],
         workers := s.workers[w := if stops then Stopped else Handling(|s.fates|)])
    case Finish(w) => s.(fates := s.fates[s.workers[w].message := Handled(w)], workers := s.workers[w := Waiting])
    case TimeOut(w) => s
  }

  ghost predicate Run(capacity: nat, threads: nat, states: seq<State>, steps: seq<Step>) {
    && |states| == |steps| + 1 && states[0] == Init(threads)
    && forall k :: 0 <= k < |steps| ==> Enabled(capacity, states[k], steps[k]) && states[k + 1] == Apply(capacity, states[k], steps[k])
  }

  // The destructor has joined every worker.
  ghost predicate Destroyed(s: State) {
    s.phase.Joining? && s.phase.i >= |s.workers|
  }

  ghost function Terminates(s: State): nat {
    match s.phase
    case Live => 0
    case Posting(i) => i
    case Joining(_) => |s.workers|
  }

  // The messages before this one were posted before the first terminate.
  ghost function FirstTerminate(s: State): int {
    |s.posted| - Terminates(s)
  }

  ghost function StoppedCount(workers: seq<Worker>): nat {
    if workers == [] then 0
    else StoppedCount(workers[..|workers| - 1]) + if workers[|workers| - 1].Stopped? then 1 else 0
  }

  // The terminates are the messages from t on.
  ghost predicate TerminatesLast(posted: seq<Message>, t: nat) {
    forall k: nat :: k < |posted| ==> (posted[k].Terminate? <==> k >= t)
  }

  // A message is being handled exactly by the worker that took it; terminates
  // go to workers that stopped.
  ghost predicate Owned(fates: seq<Fate>, workers: seq<Worker>, t: nat) {
    && (forall k: nat :: k < |fates| && fates[k].Taken? ==> fates[k].worker < |workers| && workers[fates[k].worker] == Handling(k))
    && (forall w: nat :: w < |workers| && workers[w].Handling? ==> workers[w].message < |fates| && fates[workers[w].message] == Taken(w))
    && (forall k: nat :: t <= k < |fates| ==> fates[k].Handled? && fates[k].worker < |workers| && workers[fates[k].worker].Stopped?)
  }

  ghost predicate ConsumedTerminate(fates: seq<Fate>, t: nat, w: nat) {
    exists k: nat :: t <= k < |fates| && fates[k] == Handled(w)
  }

  // Stopped workers and consumed terminates are one to one.
  ghost predicate Paired(fates: seq<Fate>, workers: seq<Worker>, t: nat) {
    && (forall w: nat :: w < |workers| && workers[w].Stopped? ==> ConsumedTerminate(fates, t, w))
    && (forall j: nat, k: nat :: t <= j < k < |fates| ==> fates[j] != fates[k])
    && StoppedCount(workers) == if |fates| <= t then 0 else |fates| - t
  }

  ghost predicate Inv(capacity: nat, threads: nat, s: State) {
    && |s.workers| == threads && |s.queue| <= capacity
    && |s.fates| <= |s.posted| && s.queue == s.posted[|s.fates|..]
    && Terminates(s) <= threads && FirstTerminate(s) >= 0
    && TerminatesLast(s.posted, FirstTerminate(s))
    && Owned(s.fates, s.workers, FirstTerminate(s))
    && Paired(s.fates, s.workers, FirstTerminate(s))
    && (s.phase.Joining? ==> s.phase.i <= threads && forall w: nat :: w < s.phase.i && w < threads ==> s.workers[w].Stopped?)
  }

  lemma {:induction false} NoneStopped(workers: seq<Worker>)
    requires forall w :: 0 <= w < |workers| ==> !workers[w].Stopped?
    ensures StoppedCount(workers) == 0
  {
    if workers != [] {
      NoneStopped(workers[..|workers| - 1]);
    }
  }

  lemma {:induction false} SomeoneRuns(workers: seq<Worker>)
    requires StoppedCount(workers) < |workers|
    ensures exists w :: 0 <= w < |workers| && !workers[w].Stopped?
  {
    var n := |workers| - 1;
    if workers[n].Stopped? {
      SomeoneRuns(workers[..n]);
      var w :| 0 <= w < n && !workers[..n][w].Stopped?;
      assert !workers[w].Stopped?;
    }
  }

  lemma {:induction false} AllStopped(workers: seq<Worker>)
    requires forall w :: 0 <= w < |workers| ==> workers[w].Stopped?
    ensures StoppedCount(workers) == |workers|
  {
    if workers != [] {
      AllStopped(workers[..|workers| - 1]);
    }
  }

  lemma {:induction false} StoppedUpdate(workers: seq<Worker>, w: nat, to: Worker)
    requires w < |workers|
    ensures StoppedCount(workers[w := to]) == StoppedCount(workers) + (if to.Stopped? then 1 else 0)
                                                - (if workers[w].Stopped? then 1 else 0)
  {
    var n := |workers| - 1;
    if w == n {
      assert workers[w := to][..n] == workers[..n];
    } else {
      assert workers[w := to][..n] == workers[..n][w := to];
      StoppedUpdate(workers[..n], w, to);
    }
  }

  lemma InitInv(capacity: nat, threads: nat)
    ensures Inv(capacity, threads, Init(threads))
  {
    NoneStopped(Init(threads).workers);
  }

  lemma PostInv(capacity: nat, threads: nat, s: State, step: Step)
    requires Inv(capacity, threads, s) && Enabled(capacity, s, step)
    requires step.PostBlocking? || step.PostTerminate?
    ensures Inv(capacity, threads, Apply(capacity, s, step))
  {
  }

  // The oldest message is overrun; no terminate is in the queue yet.
  lemma PostNowaitInv(capacity: nat, threads: nat, s: State, step: Step)
    requires Inv(capacity, threads, s) && Enabled(capacity, s, step) && step.PostNowait?
    ensures Inv(capacity, threads, Apply(capacity, s, step))
  {
    var s' := Apply(capacity, s, step);
    assert s.queue + [step.message] == s'.posted[|s.fates|..];
  }

  lemma TakeOwned(fates: seq<Fate>, workers: seq<Worker>, t: nat, w: nat)
    requires Owned(fates, workers, t) && w < |workers| && workers[w].Waiting?
    ensures |fates| >= t ==> Owned(fates + [Handled(w)], workers[w := Stopped], t)
    ensures |fates| < t ==> Owned(fates + [Taken(w)], workers[w := Handling(|fates|)], t)
  {
  }

  lemma StopPaired(fates: seq<Fate>, workers: seq<Worker>, t: nat, w: nat)
    requires Owned(fates, workers, t) && Paired(fates, workers, t)
    requires w < |workers| && workers[w].Waiting? && |fates| >= t
    ensures Paired(fates + [Handled(w)], workers[w := Stopped], t)
  {
    var fates', workers' := fates + [Handled(w)], workers[w := Stopped];
    StoppedUpdate(workers, w, Stopped);
    forall v: nat | v < |workers'| && workers'[v].Stopped?
      ensures ConsumedTerminate(fates', t, v)
    {
      if v == w {
        assert fates'[|fates|] == Handled(w);
      } else {
        var k: nat :| t <= k < |fates| && fates[k] == Handled(v);
        assert fates'[k] == Handled(v);
      }
    }
  }

  lemma TakeInv(capacity: nat, threads: nat, s: State, w: nat)
    requires Inv(capacity, threads, s) && Enabled(capacity, s, Take(w))
    ensures Inv(capacity, threads, Apply(capacity, s, Take(w)))
  {
    var s', t := Apply(capacity, s, Take(w)), FirstTerminate(s);
    assert s.queue[0] == s.posted[|s.fates|];
    assert FirstTerminate(s') == t && s'.queue == s.posted[|s.fates| + 1..];
    TakeOwned(s.fates, s.workers, t, w);
    assert Owned(s'.fates, s'.workers, t) && Paired(s'.fates, s'.workers, t) by {
      if s.queue[0].Terminate? {
        StopPaired(s.fates, s.workers, t, w);
      } else {
        TakePaired(s.fates, s.workers, t, w);
      }
    }
  }

  lemma TakePaired(fates: seq<Fate>, workers: seq<Worker>, t: nat, w: nat)
    requires Paired(fates, workers, t) && w < |workers| && workers[w].Waiting? && |fates| < t
    ensures Paired(fates + [Taken(w)], workers[w := Handling(|fates|)], t)
  {
    StoppedUpdate(workers, w, Handling(|fates|));
    assert forall v: nat :: v < |workers| && workers[v].Stopped? ==> ConsumedTerminate(fates, t, v);
    assert forall v: nat :: !ConsumedTerminate(fates, t, v);
  }

  lemma FinishOwned(fates: seq<Fate>, workers: seq<Worker>, t: nat, w: nat)
    requires Owned(fates, workers, t) && w < |workers| && workers[w].Handling?
    ensures var k := workers[w].message;
            k < |fates| && k < t && fates[k] == Taken(w) && Owned(fates[k := Handled(w)], workers[w := Waiting], t)
  {
  }

  lemma FinishPaired(fates: seq<Fate>, workers: seq<Worker>, t: nat, w: nat, k: nat)
    requires Paired(fates, workers, t) && w < |workers| && workers[w].Handling? && k < |fates| && k < t
    ensures Paired(fates[k := Handled(w)], workers[w := Waiting], t)
  {
    StoppedUpdate(workers, w, Waiting);
    forall v: nat | v < |workers| && workers[v].Stopped?
      ensures ConsumedTerminate(fates[k := Handled(w)], t, v)
    {
      var j: nat :| t <= j < |fates| && fates[j] == Handled(v);
      assert fates[k := Handled(w)][j] == Handled(v);
    }
  }

  lemma FinishInv(capacity: nat, threads: nat, s: State, w: nat)
    requires Inv(capacity, threads, s) && Enabled(capacity, s, Finish(w))
    ensures Inv(capacity, threads, Apply(capacity, s, Finish(w)))
  {
    var s', t := Apply(capacity, s, Finish(w)), FirstTerminate(s);
    assert FirstTerminate(s') == t;
    FinishOwned(s.fates, s.workers, t, w);
    FinishPaired(s.fates, s.workers, t, w, s.workers[w].message);
  }

  lemma DestructorInv(capacity: nat, threads: nat, s: State, step: Step)
    requires Inv(capacity, threads, s) && Enabled(capacity, s, step)
    requires step.BeginDestruction? || step.BeginJoining? || step.Join? || step.TimeOut?
    ensures Inv(capacity, threads, Apply(capacity, s, step))
  {
    assert FirstTerminate(Apply(capacity, s, step)) == FirstTerminate(s);
  }

  lemma StepInv(capacity: nat, threads: nat, s: State, step: Step)
    requires Inv(capacity, threads, s) && Enabled(capacity, s, step)
    ensures Inv(capacity, threads, Apply(capacity, s, step))
  {
    match step {
      case PostBlocking(_) => PostInv(capacity, threads, s, step);
      case PostTerminate => PostInv(capacity, threads, s, step);
      case PostNowait(_) => PostNowaitInv(capacity, threads, s, step);
      case Take(w) => TakeInv(capacity, threads, s, w);
      case Finish(w) => FinishInv(capacity, threads, s, w);
      case _ => DestructorInv(capacity, threads, s, step);
    }
  }

  lemma {:induction false} RunInv(capacity: nat, threads: nat, states: seq<State>, steps: seq<Step>)
    requires Run(capacity, threads, states, steps)
    ensures Inv(capacity, threads, states[|steps|])
  {
    var n := |steps| - 1;
    if steps == [] {
      InitInv(capacity, threads);
    } else {
      RunInv(capacity, threads, states[..n + 1], steps[..n]);
      StepInv(capacity, threads, states[n], steps[n]);
    }
  }

  // When the joins are done, the queue is empty, every message posted before the
  // first terminate was handled to its end or overrun, and the workers and the
  // terminates are one to one.
  lemma ShutdownIsComplete(capacity: nat, threads: nat, states: seq<State>, steps: seq<Step>)
    requires threads > 0 && Run(capacity, threads, states, steps) && Destroyed(states[|steps|])
    ensures var s := states[|steps|];
            && s.queue == [] && |s.fates| == |s.posted| && |s.posted| >= threads == |s.workers|
            && (forall k: nat :: k < |s.posted| - threads ==> !s.posted[k].Terminate? && (s.fates[k].Handled? || s.fates[k].Overrun?))
            && (forall k: nat :: |s.posted| - threads <= k < |s.posted| ==> s.posted[k].Terminate? && s.fates[k].Handled?)
            && (forall w: nat :: w < threads ==> s.workers[w].Stopped? && ConsumedTerminate(s.fates, |s.posted| - threads, w))
            && (forall j: nat, k: nat :: |s.posted| - threads <= j < k < |s.posted| ==> s.fates[j].worker != s.fates[k].worker)
  {
    var s := states[|steps|];
    RunInv(capacity, threads, states, steps);
    AllStopped(s.workers);
    assert forall k: nat :: |s.posted| - threads <= k < |s.posted| ==> s.fates[k] == Handled(s.fates[k].worker);
  }

  // A destructor that waits for room has a worker to wait for, and that worker
  // has something to do.
  lemma BlockedDestructorHasWorker(capacity: nat, threads: nat, states: seq<State>, steps: seq<Step>)
    requires Run(capacity, threads, states, steps)
    requires states[|steps|].phase.Posting? && states[|steps|].phase.i < threads
    requires 0 < capacity == |states[|steps|].queue|
    ensures exists w: nat :: w < threads && (Enabled(capacity, states[|steps|], Take(w)) || Enabled(capacity, states[|steps|], Finish(w)))
  {
    var s := states[|steps|];
    RunInv(capacity, threads, states, steps);
    RunningWorkerCanStep(capacity, threads, s);
  }

  lemma RunningWorkerCanStep(capacity: nat, threads: nat, s: State)
    requires Inv(capacity, threads, s) && s.queue != [] && StoppedCount(s.workers) < threads
    ensures exists w: nat :: w < threads && (Enabled(capacity, s, Take(w)) || Enabled(capacity, s, Finish(w)))
  {
    SomeoneRuns(s.workers);
    var w: nat :| w < threads && !s.workers[w].Stopped?;
    assert Enabled(capacity, s, Take(w)) || Enabled(capacity, s, Finish(w));
  }

  // The destructor never deadlocks on a queue that can hold a message.
  lemma DestructorProgresses(capacity: nat, threads: nat, s: State)
    requires Inv(capacity, threads, s) && capacity > 0 && !s.phase.Live? && !Destroyed(s)
    ensures exists step: Step :: !step.TimeOut? && Enabled(capacity, s, step)
  {
    match s.phase {
      case Posting(i) =>
        if i >= threads {
          assert Enabled(capacity, s, BeginJoining);
        } else if |s.queue| < capacity {
          assert Enabled(capacity, s, PostTerminate);
        } else {
          RunningWorkerCanStep(capacity, threads, s);
        }
      case Joining(i) =>
        if s.workers[i].Stopped? {
          assert Enabled(capacity, s, Join);
        } else if s.workers[i].Handling? {
          assert Enabled(capacity, s, Finish(i));
        } else {
          StoppedUpdate(s.workers, i, Stopped);
          StoppedBound(s.workers[i := Stopped]);
          assert Enabled(capacity, s, Take(i));
        }
    }
  }

  lemma {:induction false} StoppedBound(workers: seq<Worker>)
    ensures StoppedCount(workers) <= |workers|
  {
    if workers != [] {
      StoppedBound(workers[..|workers| - 1]);
    }
  }

  ghost function HandlingCount(workers: seq<Worker>): nat {
    if workers == [] then 0
    else HandlingCount(workers[..|workers| - 1]) + if workers[|workers| - 1].Handling? then 1 else 0
  }

  lemma {:induction false} HandlingUpdate(workers: seq<Worker>, w: nat, to: Worker)
    requires w < |workers|
    ensures HandlingCount(workers[w := to]) == HandlingCount(workers) + (if to.Handling? then 1 else 0)
                                                 - (if workers[w].Handling? then 1 else 0)
  {
    var n := |workers| - 1;
    if w == n {
      assert workers[w := to][..n] == workers[..n];
    } else {
      assert workers[w := to][..n] == workers[..n][w := to];
      HandlingUpdate(workers[..n], w, to);
    }
  }

  // What the destructor and the workers can still do once destruction began.
  ghost function Remaining(threads: nat, s: State): int {
    2 * |s.queue| + HandlingCount(s.workers) +
    match s.phase
    case Live => 0
    case Posting(i) => 4 * (threads - i) + threads + 1
    case Joining(i) => threads - i
  }

  lemma RemainingDecreases(capacity: nat, threads: nat, s: State, step: Step)
    requires Inv(capacity, threads, s) && !s.phase.Live? && Enabled(capacity, s, step) && !step.TimeOut?
    ensures Remaining(threads, Apply(capacity, s, step)) < Remaining(threads, s)
    ensures !Apply(capacity, s, step).phase.Live?
  {
    if step.Take? || step.Finish? {
      HandlingUpdate(s.workers, step.worker, Apply(capacity, s, step).workers[step.worker]);
    }
  }

  ghost function BusySteps(steps: seq<Step>): nat {
    if steps == [] then 0 else BusySteps(steps[..|steps| - 1]) + if steps[|steps| - 1].TimeOut? then 0 else 1
  }

  lemma BusyTail(steps: seq<Step>, begin: nat)
    requires begin < |steps|
    ensures var n := |steps| - 1;
            BusySteps(steps[begin..]) == BusySteps(steps[..n][begin..]) + if steps[n].TimeOut? then 0 else 1
  {
    var n := |steps| - 1;
    assert steps[begin..][..n - begin] == steps[..n][begin..];
  }

  lemma RemainingIsNatural(capacity: nat, threads: nat, s: State)
    requires Inv(capacity, threads, s)
    ensures 0 <= Remaining(threads, s)
  {
  }

  lemma {:induction false} DestructionIsBounded(capacity: nat, threads: nat, states: seq<State>, steps: seq<Step>, begin: nat)
    requires Run(capacity, threads, states, steps) && begin <= |steps| && !states[begin].phase.Live?
    ensures !states[|steps|].phase.Live?
    ensures BusySteps(steps[begin..]) + Remaining(threads, states[|steps|]) <= Remaining(threads, states[begin])
    decreases |steps|
  {
    var n := |steps| - 1;
    if begin < |steps| {
      DestructionIsBounded(capacity, threads, states[..n + 1], steps[..n], begin);
      BusyTail(steps, begin);
      RunInv(capacity, threads, states[..n + 1], steps[..n]);
      var s, step := states[n], steps[n];
      assert Enabled(capacity, s, step) && states[n + 1] == Apply(capacity, s, step);
      if !step.TimeOut? {
        RemainingDecreases(capacity, threads, s, step);
      }
    }
  }

  // From the moment destruction begins only a bounded number of steps that are
  // not time-outs remain, so with DestructorProgresses it ends.
  lemma DestructionEnds(capacity: nat, threads: nat, states: seq<State>, steps: seq<Step>, begin: nat)
    requires Run(capacity, threads, states, steps) && begin <= |steps| && !states[begin].phase.Live?
    ensures BusySteps(steps[begin..]) <= Remaining(threads, states[begin])
  {
    DestructionIsBounded(capacity, threads, states, steps, begin);
    RunInv(capacity, threads, states, steps);
    RemainingIsNatural(capacity, threads, states[|steps|]);
  }

  // With no room for even one message the destructor waits for ever.
  lemma {:induction false} NoCapacityNeverEnds(threads: nat, states: seq<State>, steps: seq<Step>)
    requires Run(0, threads, states, steps) && threads > 0
    ensures !Destroyed(states[|steps|])
    ensures states[|steps|].phase == Live || states[|steps|].phase == Posting(0)
  {
    var n := |steps| - 1;
    if steps != [] {
      NoCapacityNeverEnds(threads, states[..n + 1], steps[..n]);
      RunInv(0, threads, states[..n + 1], steps[..n]);
    }
  }

  // A run in which nobody posts without waiting loses no message.
  lemma {:induction false} BlockingNeverOverruns(capacity: nat, threads: nat, states: seq<State>, steps: seq<Step>)
    requires Run(capacity, threads, states, steps)
    requires forall k :: 0 <= k < |steps| ==> !steps[k].PostNowait?
    ensures forall k :: 0 <= k < |states[|steps|].fates| ==> !states[|steps|].fates[k].Overrun?
  {
    var n := |steps| - 1;
    if steps != [] {
      BlockingNeverOverruns(capacity, threads, states[..n + 1], steps[..n]);
      assert !steps[n].PostNowait?;
    }
  }

  // What a step posts, and what those of a run post, in order.
  ghost function PostedBy(step: Step): seq<Message> {
    match step
    case PostBlocking(m) => [m]
    case PostNowait(m) => [m]
    case PostTerminate => [Terminate]
    case _ => []
  }

  ghost function Messages(steps: seq<Step>): seq<Message> {
    if steps == [] then [] else Messages(steps[..|steps| - 1]) + PostedBy(steps[|steps| - 1])
  }

  lemma StepPosts(capacity: nat, s: State, step: Step)
    requires Enabled(capacity, s, step) && |s.queue| <= capacity
    ensures Apply(capacity, s, step).posted == s.posted + PostedBy(step)
  {
  }

  // Every message that a step posts enters the queue behind all the others; what
  // is no longer in the queue left it from the front.
  lemma {:induction false} PostedInOrder(capacity: nat, threads: nat, states: seq<State>, steps: seq<Step>)
    requires Run(capacity, threads, states, steps)
    ensures var s := states[|steps|];
            s.posted == Messages(steps) && |s.fates| <= |s.posted| && s.queue == Messages(steps)[|s.fates|..]
  {
    hide Apply, Enabled;
    var n := |steps| - 1;
    RunInv(capacity, threads, states, steps);
    if steps != [] {
      PostedInOrder(capacity, threads, states[..n + 1], steps[..n]);
      RunInv(capacity, threads, states[..n + 1], steps[..n]);
      StepPosts(capacity, states[n], steps[n]);
    }
  }

  // A post that does not wait puts its message last, and in a full queue that
  // costs the oldest message and no other.
  lemma OverrunTakesOldest(capacity: nat, threads: nat, states: seq<State>, steps: seq<Step>, k: nat)
    requires Run(capacity, threads, states, steps) && k < |steps| && steps[k].PostNowait? && capacity > 0
    ensures var s, s' := states[k], states[k + 1];
            && (|s.queue| < capacity ==> s'.fates == s.fates && s'.queue == s.queue + [steps[k].message])
            && (|s.queue| == capacity ==>
                 && s'.fates == s.fates + [Overrun] && |s.fates| < |s.posted| && s.posted[|s.fates|] == s.queue[0]
                 && s'.queue == s.queue[1..] + [steps[k].message])
  {
    RunInv(capacity, threads, states[..k + 1], steps[..k]);
    var s, s' := states[k], states[k + 1];
    assert s' == Apply(capacity, s, steps[k]);
    if |s.queue| == capacity {
      assert (s.queue + [steps[k].message])[1..] == s.queue[1..] + [steps[k].message];
    }
  }

  datatype OverflowPolicy = Block | OverrunOldest

  // What left the queue in the model of the protocol and in the ring.
  ghost predicate SameFates(fates: seq<Fate>, departed: seq<CircularQueueModel.Departure<Message>>) {
    |fates| == |departed| && forall k :: 0 <= k < |fates| ==> (fates[k].Overrun? <==> departed[k].Overrun?)
  }

  function PostStep(m: Message, policy: OverflowPolicy): Step {
    if m.Terminate? then PostTerminate else if policy.Block? then PostBlocking(m) else PostNowait(m)
  }

  // The code each thread runs against the queue, one locked region at a time.
  // Each region does what the step of the protocol says.
  class Pool {
    const queue: BlockingQueueModel.BlockingQueue<Message>
    ghost var state: State

    ghost predicate Valid()
      reads this, queue, queue.queue, queue.queue.cells
    {
      && queue.Valid()
      && state.queue == queue.Contents() && state.posted == queue.queue.pushed
      && SameFates(state.fates, queue.queue.departed)
    }

    ghost function Capacity(): nat
      reads this, queue, queue.queue, queue.queue.cells
      requires queue.Valid()
    {
      queue.queue.Capacity()
    }

    constructor (maxItems: nat, threads: nat)
      ensures Valid() && Capacity() == maxItems && state == Init(threads)
    {
      queue := new BlockingQueueModel.BlockingQueue(maxItems);
      state := Init(threads);
    }

    // Loggers post until the destructor does; it posts one terminate per worker.
    ghost predicate MayPost(m: Message, policy: OverflowPolicy)
      reads this
    {
      if m.Terminate? then policy.Block? && state.phase.Posting? && state.phase.i < |state.workers| else state.phase.Live?
    }

    // `posted` is false when the caller has to wait for room and try again.
    method PostMessage(m: Message, policy: OverflowPolicy) returns (posted: bool)
      requires Valid() && MayPost(m, policy)
      modifies this`state, queue.queue, queue.queue.cells
      ensures Valid() && Capacity() == old(Capacity()) && queue.queue.cells == old(queue.queue.cells)
      ensures posted <==> Enabled(Capacity(), old(state), PostStep(m, policy))
      ensures state == if posted then Apply(Capacity(), old(state), PostStep(m, policy)) else old(state)
      ensures posted <==> policy.OverrunOldest? || |old(queue.Contents())| < Capacity()
    {
      queue.queue.SizeBound();
      if policy.Block? {
        posted := queue.Enqueue(m);
      } else {
        queue.EnqueueNowait(m);
        posted := true;
      }
      if posted {
        state := Apply(Capacity(), state, PostStep(m, policy));
      }
    }

    // The region in which a worker gets its next message, or runs out of time.
    method NextMessage(ghost worker: nat) returns (dequeued: bool, message: Message)
      requires Valid() && worker < |state.workers| && state.workers[worker].Waiting?
      modifies this`state, queue.queue, queue.queue.cells
      ensures Valid() && Capacity() == old(Capacity()) && queue.queue.cells == old(queue.queue.cells)
      ensures dequeued <==> old(state).queue != []
      ensures dequeued ==> message == old(state).queue[0] && state == Apply(Capacity(), old(state), Take(worker))
      ensures !dequeued ==> state == Apply(Capacity(), old(state), TimeOut(worker))
    {
      dequeued, message := queue.DequeueFor();
      if dequeued {
        state := Apply(Capacity(), state, Take(worker));
      }
    }

    // Once the message has been dealt with, the worker waits again.
    ghost method FinishMessage(worker: nat)
      requires Valid() && worker < |state.workers| && state.workers[worker].Handling?
      requires state.workers[worker].message < |state.fates| && state.fates[state.workers[worker].message].Taken?
      modifies this`state
      ensures Valid() && state == Apply(Capacity(), old(state), Finish(worker))
    {
      state := Apply(Capacity(), state, Finish(worker));
    }

    // The worker goes on unless it was handed a terminate message.
    method ProcessNextMessage(ghost worker: nat) returns (active: bool)
      requires Valid() && worker < |state.workers| && state.workers[worker].Waiting?
      modifies this`state, queue.queue, queue.queue.cells
      ensures Valid() && Capacity() == old(Capacity()) && queue.queue.cells == old(queue.queue.cells)
      ensures active <==> old(state).queue == [] || !old(state).queue[0].Terminate?
      ensures active ==> state.workers == old(state).workers
      ensures old(state).queue != [] ==> state.fates == old(state).fates + [Handled(worker)]
      ensures !active ==> state.workers == old(state).workers[worker := Stopped]
      ensures queue.Contents() == if old(queue.Contents()) == [] then [] else old(queue.Contents())[1..]
    {
      var dequeued, message := NextMessage(worker);
      if !dequeued {
        return true;
      }
      match message {
        case Log(_) =>
          FinishMessage(worker);
          return true;
        case Flush(_) =>
          FinishMessage(worker);
          return true;
        case Terminate =>
          return false;
      }
    }
  }
}
