// Building the sieve. The marking jobs run concurrently with the loop that
// reads the sieve and starts them; every access to a bit and to the shared
// counter is one step.
module Sieve {
  import opened Powers
  import opened PrimeNumbers

  datatype JobPc = Starting | Marking(next: nat) | Finished

  datatype Job = Job(number: nat, pc: JobPc)

  datatype MainPc = Reading(i: nat) | Launching(i: nat) | Joining

  datatype State = State(numbers: seq<bool>, asyncCount: int, main: MainPc, jobs: seq<Job>)

  ghost function Init(max: nat): State {
    State(seq(max + 1, _ => true), 0, Reading(2), [])
  }

  // The loop of `build`: test i, then read its bit, then start a job for it.
  ghost function MainStep(max: nat, s: State): State
    requires !s.main.Joining?
  {
    match s.main
    case Reading(i) =>
      if i * i > max || i >= |s.numbers| then s.(main := Joining)
      else if s.numbers[i] then s.(main := Launching(i))
      else s.(main := Reading(i + 1))
    case Launching(i) => s.(main := Reading(i + 1), jobs := s.jobs + [Job(i, Starting)])
    case Joining => s
  }

  // One job, `build_for`.
  ghost function JobStep(max: nat, s: State, j: nat): State
    requires j < |s.jobs|
  {
    var job := s.jobs[j];
    match job.pc
    case Starting =>
      s.(asyncCount := s.asyncCount + 1, jobs := s.jobs[j := job.(pc := Marking(2 * job.number))])
    case Marking(next) =>
      if next <= max && next < |s.numbers| then
        s.(numbers := s.numbers[next := false], jobs := s.jobs[j := job.(pc := Marking(next + job.number))])
      else
        s.(asyncCount := s.asyncCount - 1, jobs := s.jobs[j := job.(pc := Finished)])
    case Finished => s
  }

  ghost predicate JobCanStep(s: State, j: nat) {
    j < |s.jobs| && !s.jobs[j].pc.Finished?
  }

  ghost predicate Next(max: nat, s: State, s': State) {
    || (!s.main.Joining? && s' == MainStep(max, s))
    || exists j: nat :: JobCanStep(s, j) && s' == JobStep(max, s, j)
  }

  // `build` returns when the futures of all its jobs have been joined.
  ghost predicate Complete(s: State) {
    s.main.Joining? && forall j :: 0 <= j < |s.jobs| ==> s.jobs[j].pc.Finished?
  }

  ghost predicate Run(max: nat, states: seq<State>) {
    && |states| > 0 && states[0] == Init(max)
    && forall k :: 0 <= k < |states| - 1 ==> Next(max, states[k], states[k + 1])
  }

  // Every multiple of n from 2n up to, not including, `end` has been struck.
  ghost predicate MarkedBelow(numbers: seq<bool>, n: nat, end: nat) {
    forall m: nat :: m < |numbers| && m < end && Struck(n, m) ==> !numbers[m]
  }

  ghost predicate JobOk(max: nat, numbers: seq<bool>, job: Job) {
    && 2 <= job.number
    && match job.pc
       case Starting => true
       case Marking(next) => 2 * job.number <= next && Divides(job.number, next) && MarkedBelow(numbers, job.number, next)
       case Finished => MarkedBelow(numbers, job.number, max + 1)
  }

  ghost predicate HasJob(jobs: seq<Job>, n: nat) {
    exists j :: 0 <= j < |jobs| && jobs[j].number == n
  }

  ghost function Active(jobs: seq<Job>): nat {
    if jobs == [] then 0 else Active(jobs[..|jobs| - 1]) + if jobs[|jobs| - 1].pc.Marking? then 1 else 0
  }

  // A cleared bit is composite; a job has cleared what it went past; no prime
  // that the loop went past is without its job, although the loop also starts
  // jobs for composites that are not marked yet.
  ghost predicate Inv(max: nat, s: State) {
    && |s.numbers| == max + 1
    && s.asyncCount == Active(s.jobs)
    && (forall k: nat :: k <= max && !s.numbers[k] ==> 2 <= k && !IsPrime(k))
    && (forall j :: 0 <= j < |s.jobs| ==> JobOk(max, s.numbers, s.jobs[j]))
    && match s.main
       case Reading(i) => 2 <= i <= max + 2 && forall p: nat :: IsPrime(p) && p < i ==> HasJob(s.jobs, p)
       case Launching(i) => 2 <= i <= max && forall p: nat :: IsPrime(p) && p < i ==> HasJob(s.jobs, p)
       case Joining => forall p: nat :: IsPrime(p) && p * p <= max ==> HasJob(s.jobs, p)
  }

  lemma InitInv(max: nat)
    ensures Inv(max, Init(max))
  {
  }

  lemma HasJobGrows(jobs: seq<Job>, job: Job, n: nat)
    requires HasJob(jobs, n) || job.number == n
    ensures HasJob(jobs + [job], n)
  {
    if job.number == n {
      assert (jobs + [job])[|jobs|].number == n;
    } else {
      var j :| 0 <= j < |jobs| && jobs[j].number == n;
      assert (jobs + [job])[j].number == n;
    }
  }

  lemma HasJobUpdate(jobs: seq<Job>, j: nat, pc: JobPc, n: nat)
    requires j < |jobs| && HasJob(jobs, n)
    ensures HasJob(jobs[j := jobs[j].(pc := pc)], n)
  {
    var i :| 0 <= i < |jobs| && jobs[i].number == n;
    assert jobs[j := jobs[j].(pc := pc)][i].number == n;
  }

  lemma {:induction false} ActiveUpdate(jobs: seq<Job>, j: nat, job: Job)
    requires j < |jobs|
    ensures Active(jobs[j := job]) == Active(jobs) + (if job.pc.Marking? then 1 else 0) - (if jobs[j].pc.Marking? then 1 else 0)
  {
    var n := |jobs| - 1;
    if j == n {
      assert jobs[j := job][..n] == jobs[..n];
    } else {
      assert jobs[j := job][..n] == jobs[..n][j := job];
      ActiveUpdate(jobs[..n], j, job);
    }
  }

  lemma SquareGrows(i: nat, p: nat, max: nat)
    requires i * i > max && p * p <= max
    ensures p < i
  {
    if i <= p {
      MulLe(i, p, i);
      MulLe(i, p, p);
    }
  }

  lemma MainStepInv(max: nat, s: State)
    requires Inv(max, s) && !s.main.Joining?
    ensures Inv(max, MainStep(max, s))
  {
    if s.main.Reading? {
      ReadStepInv(max, s);
    } else {
      LaunchStepInv(max, s);
    }
  }

  lemma ReadStepInv(max: nat, s: State)
    requires Inv(max, s) && s.main.Reading?
    ensures Inv(max, MainStep(max, s))
  {
    var s', i := MainStep(max, s), s.main.i;
    if i * i > max || i >= |s.numbers| {
      if i > max {
        MulLe(1, i, i);
      }
      forall p: nat | IsPrime(p) && p * p <= max
        ensures HasJob(s'.jobs, p)
      {
        SquareGrows(i, p, max);
      }
    }
  }

  lemma LaunchStepInv(max: nat, s: State)
    requires Inv(max, s) && s.main.Launching?
    ensures Inv(max, MainStep(max, s))
  {
    hide IsPrime, HasJob;
    var s', i := MainStep(max, s), s.main.i;
    var job := Job(i, Starting);
    assert s'.jobs[..|s.jobs|] == s.jobs;
    assert JobOk(max, s'.numbers, job);
    forall p: nat | IsPrime(p) && p < i + 1
      ensures HasJob(s'.jobs, p)
    {
      HasJobGrows(s.jobs, job, p);
    }
  }

  lemma JobStepInv(max: nat, s: State, j: nat)
    requires Inv(max, s) && JobCanStep(s, j)
    ensures Inv(max, JobStep(max, s, j))
  {
    var s', job := JobStep(max, s, j), s.jobs[j];
    ActiveUpdate(s.jobs, j, s'.jobs[j]);
    forall n: nat | HasJob(s.jobs, n)
      ensures HasJob(s'.jobs, n)
    {
      HasJobUpdate(s.jobs, j, s'.jobs[j].pc, n);
    }
    hide IsPrime, HasJob, JobOk;
    if job.pc.Marking? && job.pc.next <= max {
      MarkInv(max, s, j);
    } else {
      BorderInv(max, s, j);
    }
  }

  // At either end of a job no bit changes.
  lemma BorderInv(max: nat, s: State, j: nat)
    requires Inv(max, s) && JobCanStep(s, j) && !(s.jobs[j].pc.Marking? && s.jobs[j].pc.next <= max)
    ensures var s' := JobStep(max, s, j); s'.numbers == s.numbers && forall i :: 0 <= i < |s'.jobs| ==> JobOk(max, s'.numbers, s'.jobs[i])
  {
    hide IsPrime, HasJob;
    var s', job := JobStep(max, s, j), s.jobs[j];
    assert JobOk(max, s.numbers, job);
    assert JobOk(max, s.numbers, s'.jobs[j]) by {
      if job.pc.Starting? {
        TwiceIsMultiple(job.number);
      }
    }
    forall i | 0 <= i < |s'.jobs| && i != j
      ensures JobOk(max, s'.numbers, s'.jobs[i])
    {
      assert s'.jobs[i] == s.jobs[i];
    }
  }

  lemma TwiceIsMultiple(n: nat)
    requires n >= 2
    ensures Divides(n, 2 * n) && forall m: nat :: m < 2 * n ==> !Struck(n, m)
  {
  }

  // The interleaved write: it clears only a composite, undoes no other job's
  // work and brings its own job one multiple further.
  lemma MarkInv(max: nat, s: State, j: nat)
    requires Inv(max, s) && JobCanStep(s, j) && s.jobs[j].pc.Marking? && s.jobs[j].pc.next <= max
    ensures var s' := JobStep(max, s, j);
            && (forall k: nat :: k <= max && !s'.numbers[k] ==> 2 <= k && !IsPrime(k))
            && forall i :: 0 <= i < |s'.jobs| ==> JobOk(max, s'.numbers, s'.jobs[i])
  {
    var s', n, next := JobStep(max, s, j), s.jobs[j].number, s.jobs[j].pc.next;
    StruckIsComposite(n, next);
    NextMultiple(n, next);
    forall m: nat | m <= max && m < next + n && Struck(n, m)
      ensures !s'.numbers[m]
    {
      if m >= next {
        MultiplesStep(n, next, m);
      }
    }
    forall i | 0 <= i < |s'.jobs|
      ensures JobOk(max, s'.numbers, s'.jobs[i])
    {
      assert JobOk(max, s.numbers, s.jobs[i]);
    }
  }

  lemma NextInv(max: nat, s: State, s': State)
    requires Inv(max, s) && Next(max, s, s')
    ensures Inv(max, s')
  {
    if !s.main.Joining? && s' == MainStep(max, s) {
      MainStepInv(max, s);
    } else {
      var j: nat :| JobCanStep(s, j) && s' == JobStep(max, s, j);
      JobStepInv(max, s, j);
    }
  }

  lemma {:induction false} RunInv(max: nat, states: seq<State>)
    requires Run(max, states)
    ensures Inv(max, states[|states| - 1])
  {
    var n := |states| - 1;
    if n == 0 {
      InitInv(max);
    } else {
      RunInv(max, states[..n]);
      assert Next(max, states[n - 1], states[n]);
      NextInv(max, states[n - 1], states[n]);
    }
  }

  lemma {:induction false} NoneActive(jobs: seq<Job>)
    requires forall j :: 0 <= j < |jobs| ==> jobs[j].pc.Finished?
    ensures Active(jobs) == 0
  {
    if jobs != [] {
      NoneActive(jobs[..|jobs| - 1]);
    }
  }

  // However the jobs and the loop interleave, once all of them are done a bit
  // is set exactly for the primes, and the counter is back at zero.
  lemma SieveIsCorrect(max: nat, states: seq<State>, k: nat)
    requires Run(max, states) && Complete(states[|states| - 1])
    requires 2 <= k <= max
    ensures |states[|states| - 1].numbers| == max + 1
    ensures states[|states| - 1].numbers[k] <==> IsPrime(k)
    ensures states[|states| - 1].asyncCount == 0
  {
    var s := states[|states| - 1];
    RunInv(max, states);
    NoneActive(s.jobs);
    if !IsPrime(k) {
      var p := SmallPrimeFactor(k);
      assert HasJob(s.jobs, p);
      var j :| 0 <= j < |s.jobs| && s.jobs[j].number == p;
      assert JobOk(max, s.numbers, s.jobs[j]);
    }
  }

  // What is left to do, counted in steps: at most one job is started for every
  // number, and a job visits every number at most once.
  ghost function JobWork(max: nat, job: Job): nat {
    match job.pc
    case Starting => max + 3
    case Marking(next) => if next <= max then max + 2 - next else 1
    case Finished => 0
  }

  ghost function JobsWork(max: nat, jobs: seq<Job>): nat {
    if jobs == [] then 0 else JobsWork(max, jobs[..|jobs| - 1]) + JobWork(max, jobs[|jobs| - 1])
  }

  ghost function MainWork(max: nat, main: MainPc): int {
    match main
    case Reading(i) => (max + 2 - i) * (max + 6) + 1
    case Launching(i) => (max + 2 - i) * (max + 6)
    case Joining => 0
  }

  ghost function Work(max: nat, s: State): int {
    MainWork(max, s.main) + JobsWork(max, s.jobs)
  }

  lemma {:induction false} JobsWorkUpdate(max: nat, jobs: seq<Job>, j: nat, job: Job)
    requires j < |jobs|
    ensures JobsWork(max, jobs[j := job]) == JobsWork(max, jobs) + JobWork(max, job) - JobWork(max, jobs[j])
  {
    var n := |jobs| - 1;
    if j == n {
      assert jobs[j := job][..n] == jobs[..n];
    } else {
      assert jobs[j := job][..n] == jobs[..n][j := job];
      JobsWorkUpdate(max, jobs[..n], j, job);
    }
  }

  lemma MainWorkStep(max: nat, i: nat)
    requires i <= max + 1
    ensures (max + 2 - i) * (max + 6) == (max + 2 - (i + 1)) * (max + 6) + max + 6
    ensures (max + 2 - (i + 1)) * (max + 6) >= 0
  {
    MulDistribute(max + 2 - (i + 1), 1, max + 6);
    MulLe(0, max + 2 - (i + 1), max + 6);
  }

  lemma WorkIsNatural(max: nat, s: State)
    requires Inv(max, s)
    ensures Work(max, s) >= 0
  {
    if !s.main.Joining? {
      MulLe(0, max + 2 - s.main.i, max + 6);
    }
  }

  lemma MainWorkDecreases(max: nat, s: State)
    requires Inv(max, s) && !s.main.Joining?
    ensures Work(max, MainStep(max, s)) < Work(max, s)
  {
    var s' := MainStep(max, s);
    if s.main.i <= max + 1 {
      MainWorkStep(max, s.main.i);
    } else {
      assert MainWork(max, s.main) == 1;
    }
    if s.main.Launching? {
      assert s'.jobs[..|s.jobs|] == s.jobs;
    }
  }

  lemma JobWorkDecreases(max: nat, s: State, j: nat)
    requires Inv(max, s) && JobCanStep(s, j)
    ensures Work(max, JobStep(max, s, j)) < Work(max, s)
  {
    assert JobOk(max, s.numbers, s.jobs[j]);
    JobsWorkUpdate(max, s.jobs, j, JobStep(max, s, j).jobs[j]);
  }

  // Every step of any thread leaves less work.
  lemma WorkDecreases(max: nat, s: State, s': State)
    requires Inv(max, s) && Next(max, s, s')
    ensures Work(max, s') < Work(max, s)
  {
    if !s.main.Joining? && s' == MainStep(max, s) {
      MainWorkDecreases(max, s);
    } else {
      var j: nat :| JobCanStep(s, j) && s' == JobStep(max, s, j);
      JobWorkDecreases(max, s, j);
    }
  }

  // No schedule runs for ever: the length of a run is bounded by `max` alone.
  lemma {:induction false} RunsAreBounded(max: nat, states: seq<State>)
    requires Run(max, states)
    ensures |states| - 1 + Work(max, states[|states| - 1]) <= Work(max, Init(max))
    ensures |states| - 1 <= Work(max, Init(max))
  {
    var n := |states| - 1;
    RunInv(max, states);
    WorkIsNatural(max, states[n]);
    if n > 0 {
      RunsAreBounded(max, states[..n]);
      RunInv(max, states[..n]);
      assert Next(max, states[n - 1], states[n]);
      WorkDecreases(max, states[n - 1], states[n]);
    }
  }

  // No schedule gets stuck either: until `build` can return, some step is open.
  lemma SomeStepIsOpen(max: nat, s: State)
    requires !Complete(s)
    ensures exists s' :: Next(max, s, s')
  {
    if !s.main.Joining? {
      assert Next(max, s, MainStep(max, s));
    } else {
      var j: nat :| j < |s.jobs| && !s.jobs[j].pc.Finished?;
      assert JobCanStep(s, j);
      assert Next(max, s, JobStep(max, s, j));
    }
  }
}
