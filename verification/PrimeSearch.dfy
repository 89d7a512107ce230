// Searching the finished sieve. A call either scans its range or splits it and
// hands the upper half to another thread; which of the two it does depends on a
// counter shared with every other thread of the process.
module PrimeSearch {
  import opened Words
  import opened PrimeNumbers
  import Sieve

  datatype Config = Config(numbers: seq<bool>, number: nat, portion: nat, limit: nat)

  // One activation of the recursive search, with the two it waits for. A broken
  // one has done what the language leaves undefined: it has read beyond the
  // sieve, or counted beyond the largest int.
  datatype Task =
    | Call(lo: nat, hi: nat)
    | Scan(lo: nat, hi: nat, i: int)
    | Fork(lo: nat, hi: nat)
    | Both(lo: nat, hi: nat, left: Task, right: Task)
    | Leaving(lo: nat, hi: nat, result: bool)
    | Done(lo: nat, hi: nat, result: bool)
    | Broken(lo: nat, hi: nat)

  // The counter is what this search holds of it and what the others hold.
  datatype State = State(count: int, others: nat, task: Task)

  // A 64-bit bound as the scan's 32-bit counter, and the counter seen as a
  // 64-bit number again.
  function Narrow(x: nat): int {
    var low := x % U32;
    if low <= INT_MAX then low else low - U32
  }

  function Unsigned(i: int): int {
    if i < 0 then i + U64 else i
  }

  // The difference of the bounds wraps when the upper one is the smaller.
  function Length(lo: nat, hi: nat): nat {
    (hi - lo) % U64
  }

  function Mid(lo: nat, hi: nat): nat {
    (lo + Length(lo, hi) / 2) % U64
  }

  function ScanStep(c: Config, lo: nat, hi: nat, i: int): Task {
    var n := Unsigned(i);
    if n > hi then Done(lo, hi, false)
    else if n < 0 || n >= |c.numbers| then Broken(lo, hi)
    else if c.numbers[n] && n == c.number then Done(lo, hi, true)
    else if i == INT_MAX then Broken(lo, hi)
    else Scan(lo, hi, i + 1)
  }

  function CallStep(c: Config, count: int, lo: nat, hi: nat): Task {
    if Length(lo, hi) < c.portion || count >= c.limit then Scan(lo, hi, Narrow(lo)) else Fork(lo, hi)
  }

  // One step of one of the threads that work on t.
  ghost predicate TaskStep(c: Config, count: int, t: Task, count': int, t': Task) {
    match t
    case Call(lo, hi) => count' == count && t' == CallStep(c, count, lo, hi)
    case Scan(lo, hi, i) => count' == count && t' == ScanStep(c, lo, hi, i)
    case Fork(lo, hi) => count' == count + 1 && t' == Both(lo, hi, Call(lo, Mid(lo, hi)), Call(Mid(lo, hi), hi))
    case Both(lo, hi, left, right) =>
      || (left.Done? && right.Done? && count' == count && t' == Leaving(lo, hi, left.result || right.result))
      || (t'.Both? && t' == t.(left := t'.left) && TaskStep(c, count, left, count', t'.left))
      || (t'.Both? && t' == t.(right := t'.right) && TaskStep(c, count, right, count', t'.right))
    case Leaving(lo, hi, result) => count' == count - 1 && t' == Done(lo, hi, result)
    case Done(_, _, _) => false
    case Broken(_, _) => false
  }

  // Other threads change the counter as they like, but give back only what
  // they took.
  ghost predicate OthersStep(s: State, s': State) {
    s'.task == s.task && s'.count - s.count == s'.others - s.others
  }

  ghost predicate SearchStep(c: Config, s: State, s': State) {
    s'.others == s.others && TaskStep(c, s.count, s.task, s'.count, s'.task)
  }

  ghost predicate Next(c: Config, s: State, s': State) {
    SearchStep(c, s, s') || OthersStep(s, s')
  }

  ghost predicate Run(c: Config, max: nat, states: seq<State>) {
    && |states| > 0 && states[0].task == Call(2, max) && states[0].count == states[0].others
    && forall k :: 0 <= k < |states| - 1 ==> Next(c, states[k], states[k + 1])
  }

  ghost function Last(states: seq<State>): State
    requires |states| > 0
  {
    states[|states| - 1]
  }

  // The sieve that a detector for numbers up to max has; a vector of bits has
  // no more than 2^63 of them.
  ghost predicate SieveUpTo(c: Config, max: nat) {
    |c.numbers| == max + 1 <= 0x8000_0000_0000_0000
  }

  // What the threads of this search have added to the counter.
  ghost function Held(t: Task): nat {
    match t
    case Both(_, _, left, right) => 1 + Held(left) + Held(right)
    case Leaving(_, _, _) => 1
    case _ => 0
  }

  // `fuel` is how many more levels of splitting the counter still admits. A
  // scan's counter is an int.
  ghost predicate DepthOk(fuel: int, t: Task) {
    match t
    case Scan(_, _, i) => i <= INT_MAX
    case Fork(_, _) => fuel > 0
    case Both(_, _, left, right) => fuel > 0 && DepthOk(fuel - 1, left) && DepthOk(fuel - 1, right)
    case Leaving(_, _, _) => fuel > 0
    case _ => true
  }

  // A task at depth d sees a counter of at least d, so only `limit` levels split.
  lemma {:induction false} DepthStep(c: Config, depth: nat, fuel: int, t: Task, count: int, t': Task, count': int)
    requires DepthOk(fuel, t) && fuel == c.limit - depth
    requires count >= depth + Held(t) && TaskStep(c, count, t, count', t')
    ensures DepthOk(fuel, t') && t'.lo == t.lo && t'.hi == t.hi
    ensures count' - count == Held(t') - Held(t)
    decreases t
  {
    hide Length, Mid, Unsigned;
    if t.Both? && t'.Both? {
      if t' == t.(left := t'.left) && TaskStep(c, count, t.left, count', t'.left) {
        DepthStep(c, depth + 1, fuel - 1, t.left, count, t'.left, count');
      } else {
        DepthStep(c, depth + 1, fuel - 1, t.right, count, t'.right, count');
      }
    }
  }

  lemma {:induction false} RunDepth(c: Config, max: nat, states: seq<State>)
    requires Run(c, max, states)
    ensures var s := Last(states); DepthOk(c.limit, s.task) && s.count == s.others + Held(s.task) && s.task.lo == 2 && s.task.hi == max
  {
    var n := |states| - 1;
    if n > 0 {
      RunDepth(c, max, states[..n]);
      var s, s' := states[n - 1], states[n];
      assert Next(c, s, s');
      if SearchStep(c, s, s') {
        DepthStep(c, 0, c.limit, s.task, s.count, s'.task, s'.count);
      }
    }
  }

  // The number is among those that a scan of this range can find.
  ghost predicate Found(c: Config, lo: nat, hi: nat) {
    lo <= c.number <= hi && c.number <= INT_MAX && c.number < |c.numbers| && c.numbers[c.number]
  }

  // What an answer for lo..hi says. A range that holds the largest int has no
  // answer but yes.
  ghost predicate Answer(c: Config, lo: nat, hi: nat, result: bool) {
    && (result ==> Found(c, if lo <= INT_MAX then lo else 0, hi))
    && (Found(c, lo, hi) ==> result)
    && (lo <= INT_MAX <= hi ==> result)
  }

  ghost predicate TaskOk(c: Config, t: Task) {
    && t.lo <= t.hi < |c.numbers|
    && match t
       case Scan(lo, hi, i) =>
         && Narrow(lo) <= i <= INT_MAX
         && (i >= 0 && lo <= INT_MAX ==> i <= hi + 1 && !(lo <= c.number < i && Found(c, lo, hi)))
       case Both(lo, hi, left, right) =>
         && TaskOk(c, left) && TaskOk(c, right)
         && left.lo == lo && left.hi == right.lo == Mid(lo, hi) && right.hi == hi
       case Leaving(lo, hi, result) => Answer(c, lo, hi, result)
       case Done(lo, hi, result) => Answer(c, lo, hi, result)
       case Broken(_, hi) => hi >= INT_MAX
       case _ => true
  }

  lemma MidBetween(lo: nat, hi: nat)
    requires lo <= hi < U64
    ensures Length(lo, hi) == hi - lo && Mid(lo, hi) == lo + (hi - lo) / 2 && lo <= Mid(lo, hi) <= hi
  {
  }

  lemma Halves(c: Config, lo: nat, mid: nat, hi: nat, left: bool, right: bool)
    requires lo <= mid <= hi && Answer(c, lo, mid, left) && Answer(c, mid, hi, right)
    ensures Answer(c, lo, hi, left || right)
  {
  }

  lemma ScanOk(c: Config, lo: nat, hi: nat, i: int)
    requires hi < 0x8000_0000_0000_0000 && TaskOk(c, Scan(lo, hi, i))
    ensures TaskOk(c, ScanStep(c, lo, hi, i))
  {
  }

  lemma {:induction false} TaskStepOk(c: Config, t: Task, count: int, t': Task, count': int)
    requires |c.numbers| <= 0x8000_0000_0000_0000 && TaskOk(c, t) && TaskStep(c, count, t, count', t')
    ensures TaskOk(c, t') && t'.lo == t.lo && t'.hi == t.hi
    decreases t
  {
    MidBetween(t.lo, t.hi);
    match t {
      case Scan(lo, hi, i) => ScanOk(c, lo, hi, i);
      case Both(lo, hi, left, right) =>
        hide Mid, Length, Answer;
        if left.Done? && right.Done? && t'.Leaving? {
          Halves(c, lo, left.hi, hi, left.result, right.result);
        } else if t' == t.(left := t'.left) && TaskStep(c, count, left, count', t'.left) {
          TaskStepOk(c, left, count, t'.left, count');
        } else {
          TaskStepOk(c, right, count, t'.right, count');
        }
      case _ =>
    }
  }

  lemma {:induction false} RunOk(c: Config, max: nat, states: seq<State>)
    requires Run(c, max, states) && SieveUpTo(c, max) && 2 <= max
    ensures TaskOk(c, Last(states).task)
  {
    var n := |states| - 1;
    if n > 0 {
      RunOk(c, max, states[..n]);
      var s, s' := states[n - 1], states[n];
      assert Next(c, s, s');
      if SearchStep(c, s, s') {
        TaskStepOk(c, s.task, s.count, s'.task, s'.count);
      }
    }
  }

  // With a maximum below two the length of the whole range wraps. A search that
  // splits it has a thread that will read beyond the sieve.
  ghost predicate LeftOk(t: Task) {
    && t.lo == 2
    && match t
       case Call(_, hi) => 2 <= hi < U64
       case Scan(_, hi, i) => 2 <= hi && i == 2
       case Fork(_, hi) => 2 <= hi < U64
       case Both(_, _, left, _) => LeftOk(left)
       case Broken(_, _) => true
       case _ => false
  }

  ghost predicate WrappedOk(max: nat, t: Task) {
    match t
    case Scan(_, _, i) => i == 2
    case Both(_, _, left, _) => LeftOk(left)
    case Leaving(_, _, _) => false
    case Done(_, _, result) => !result
    case Broken(_, _) => false
    case _ => true
  }

  lemma {:induction false} LeftStep(c: Config, t: Task, count: int, t': Task, count': int)
    requires |c.numbers| <= 2 && LeftOk(t) && TaskStep(c, count, t, count', t')
    ensures LeftOk(t')
    decreases t
  {
    if t.Both? {
      if t' == t.(left := t'.left) && TaskStep(c, count, t.left, count', t'.left) {
        LeftStep(c, t.left, count, t'.left, count');
      }
    } else if t.Fork? {
      MidBetween(2, t.hi);
    }
  }

  lemma {:induction false} RunWrapped(c: Config, max: nat, states: seq<State>)
    requires Run(c, max, states) && SieveUpTo(c, max) && max < 2
    ensures WrappedOk(max, Last(states).task)
  {
    var n := |states| - 1;
    if n > 0 {
      RunWrapped(c, max, states[..n]);
      RunDepth(c, max, states[..n]);
      var s, s' := states[n - 1], states[n];
      assert Next(c, s, s');
      if SearchStep(c, s, s') {
        WrappedStep(c, max, s.task, s.count, s'.task, s'.count);
      }
    }
  }

  lemma WrappedStep(c: Config, max: nat, t: Task, count: int, t': Task, count': int)
    requires max < 2 && |c.numbers| <= 2 && t.lo == 2 && t.hi == max && WrappedOk(max, t) && TaskStep(c, count, t, count', t')
    ensures WrappedOk(max, t')
  {
    if t.Both? && t'.Both? {
      if t' == t.(left := t'.left) && TaskStep(c, count, t.left, count', t'.left) {
        LeftStep(c, t.left, count, t'.left, count');
      }
    } else if t.Fork? {
      assert Length(2, max) == U64 - 2 + max;
    }
  }

  // Whatever the schedule, the portion and the other threads did to the counter,
  // an answer is the bit of a number in range, and the counter is given back.
  lemma SearchIsCorrect(c: Config, max: nat, states: seq<State>)
    requires Run(c, max, states) && SieveUpTo(c, max) && Last(states).task.Done?
    ensures Last(states).task.result <==> 2 <= c.number <= max && c.numbers[c.number]
    ensures Last(states).count == Last(states).others
    ensures max >= INT_MAX ==> Last(states).task.result && c.number <= INT_MAX
  {
    RunDepth(c, max, states);
    if max < 2 {
      RunWrapped(c, max, states);
    } else {
      RunOk(c, max, states);
    }
  }

  // A sieve run followed by a search run: the detector knows the primes.
  lemma DetectorIsCorrect(max: nat, build: seq<Sieve.State>, c: Config, search: seq<State>)
    requires Sieve.Run(max, build) && Sieve.Complete(build[|build| - 1])
    requires c.numbers == build[|build| - 1].numbers && SieveUpTo(c, max)
    requires Run(c, max, search) && Last(search).task.Done?
    ensures Last(search).task.result <==> c.number <= max && IsPrime(c.number)
    ensures max >= INT_MAX ==> IsPrime(c.number) && c.number <= INT_MAX
  {
    SearchIsCorrect(c, max, search);
    if 2 <= c.number <= max {
      Sieve.SieveIsCorrect(max, build, c.number);
    }
  }

  // So a prime that is no int is never found, although the detector was built
  // for it: no search for it has an answer at all.
  lemma LargePrimesAreNotFound(max: nat, build: seq<Sieve.State>, c: Config, search: seq<State>)
    requires Sieve.Run(max, build) && Sieve.Complete(build[|build| - 1])
    requires c.numbers == build[|build| - 1].numbers && SieveUpTo(c, max)
    requires Run(c, max, search) && INT_MAX < c.number <= max && IsPrime(c.number)
    ensures !Last(search).task.Done?
  {
    if Last(search).task.Done? {
      DetectorIsCorrect(max, build, c, search);
    }
  }

  ghost predicate HasBroken(t: Task) {
    t.Broken? || (t.Both? && (HasBroken(t.left) || HasBroken(t.right)))
  }

  // No search, for whatever number, in whatever schedule, does what the
  // language leaves undefined.
  ghost predicate NeverBroken(numbers: seq<bool>, portion: nat, limit: nat, max: nat) {
    forall number: nat, states: seq<State> ::
      Run(Config(numbers, number, portion, limit), max, states) ==> !HasBroken(Last(states).task)
  }

  lemma {:induction false} SmallIsWhole(c: Config, t: Task)
    requires TaskOk(c, t) && t.hi < INT_MAX
    ensures !HasBroken(t)
    decreases t
  {
    hide Mid, Length, Answer;
    if t.Both? {
      MidBelow(c, t);
      SmallIsWhole(c, t.left);
      SmallIsWhole(c, t.right);
    }
  }

  lemma MidBelow(c: Config, t: Task)
    requires TaskOk(c, t) && t.Both? && t.hi < INT_MAX
    ensures t.left.hi < INT_MAX && t.right.hi < INT_MAX
  {
    MidBetween(t.lo, t.hi);
  }

  // Nothing splits when the first call scans.
  lemma {:induction false} RunUnsplit(c: Config, max: nat, states: seq<State>)
    requires Run(c, max, states) && max < 2 && (c.limit == 0 || c.portion > U64 - 2 + max)
    ensures var t := Last(states).task; t == Call(2, max) || t == Scan(2, max, 2) || t == Done(2, max, false)
  {
    var n := |states| - 1;
    if n > 0 {
      RunUnsplit(c, max, states[..n]);
      RunDepth(c, max, states[..n]);
      var s, s' := states[n - 1], states[n];
      assert Next(c, s, s');
      assert Length(2, max) == U64 - 2 + max;
    }
  }

  lemma RunGoesOn(c: Config, max: nat, states: seq<State>, s: State)
    requires Run(c, max, states) && Next(c, Last(states), s)
    ensures Run(c, max, states + [s])
  {
  }

  // A run in which the others hold the counter at its limit, so that the first
  // call scans, up to the index k.
  lemma {:induction false} ScanRun(c: Config, max: nat, k: nat) returns (states: seq<State>)
    requires SieveUpTo(c, max) && 2 <= k <= INT_MAX && k <= max && (c.number < 2 || INT_MAX < c.number)
    ensures Run(c, max, states) && Last(states) == State(c.limit, c.limit, Scan(2, max, k))
    decreases k
  {
    if k == 2 {
      states := [State(c.limit, c.limit, Call(2, max))];
    } else {
      states := ScanRun(c, max, k - 1);
    }
    var s := State(c.limit, c.limit, Scan(2, max, k));
    assert SearchStep(c, Last(states), s);
    RunGoesOn(c, max, states, s);
    states := states + [s];
  }

  // Counting up from two, it goes beyond the largest int.
  lemma OverflowRun(c: Config, max: nat) returns (states: seq<State>)
    requires SieveUpTo(c, max) && INT_MAX <= max && (c.number < 2 || INT_MAX < c.number)
    ensures Run(c, max, states) && Last(states).task == Broken(2, max)
  {
    states := ScanRun(c, max, INT_MAX);
    var s := State(c.limit, c.limit, Broken(2, max));
    assert SearchStep(c, Last(states), s);
    RunGoesOn(c, max, states, s);
    states := states + [s];
  }

  // The first call splits its wrapped range; then the others take the counter,
  // and the lower half scans.
  lemma WrapRun(c: Config, max: nat) returns (states: seq<State>)
    requires SieveUpTo(c, max) && max < 2 && c.limit > 0 && c.portion <= U64 - 2 + max
    ensures Run(c, max, states) && HasBroken(Last(states).task)
  {
    assert Length(2, max) == U64 - 2 + max;
    var mid := Mid(2, max);
    var right := Call(mid, max);
    assert TaskStep(c, 1 + c.limit, Call(2, mid), 1 + c.limit, Scan(2, mid, 2));
    assert TaskStep(c, 1 + c.limit, Scan(2, mid, 2), 1 + c.limit, Broken(2, mid));
    states := [State(0, 0, Call(2, max))];
    states := OneStep(c, max, states, State(0, 0, Fork(2, max)));
    states := OneStep(c, max, states, State(1, 0, Both(2, max, Call(2, mid), right)));
    states := OneStep(c, max, states, State(1 + c.limit, c.limit, Both(2, max, Call(2, mid), right)));
    states := OneStep(c, max, states, State(1 + c.limit, c.limit, Both(2, max, Scan(2, mid, 2), right)));
    states := OneStep(c, max, states, State(1 + c.limit, c.limit, Both(2, max, Broken(2, mid), right)));
  }

  lemma OneStep(c: Config, max: nat, states: seq<State>, s: State) returns (longer: seq<State>)
    requires Run(c, max, states) && Next(c, Last(states), s)
    ensures Run(c, max, longer) && Last(longer) == s
  {
    RunGoesOn(c, max, states, s);
    longer := states + [s];
  }

  // Exactly which detectors are safe to ask: those whose maximum is below the
  // largest int, except zero and one, which need a first call that scans.
  lemma UndefinedExactly(numbers: seq<bool>, portion: nat, limit: nat, max: nat)
    requires |numbers| == max + 1 <= 0x8000_0000_0000_0000
    ensures NeverBroken(numbers, portion, limit, max) <==>
            if max < 2 then limit == 0 || portion > U64 - 2 + max else max < INT_MAX
  {
    var c := Config(numbers, 0, portion, limit);
    if max >= INT_MAX {
      var states := OverflowRun(c, max);
    } else if max < 2 && limit > 0 && portion <= U64 - 2 + max {
      var states := WrapRun(c, max);
    } else {
      forall number: nat, states: seq<State> | Run(Config(numbers, number, portion, limit), max, states)
        ensures !HasBroken(Last(states).task)
      {
        var c' := Config(numbers, number, portion, limit);
        if max < 2 {
          RunUnsplit(c', max, states);
        } else {
          RunOk(c', max, states);
          RunDepth(c', max, states);
          SmallIsWhole(c', Last(states).task);
        }
      }
    }
  }

  // A detector for the numbers up to 2147483659, asked for the last of them: its
  // counter can overflow, and no search ever has an answer.
  lemma NumberBeyondInt(c: Config)
    requires |c.numbers| == 2_147_483_660 && c.number == 2_147_483_659
    ensures exists states :: Run(c, 2_147_483_659, states) && Last(states).task == Broken(2, 2_147_483_659)
    ensures forall states :: Run(c, 2_147_483_659, states) ==> !Last(states).task.Done?
  {
    var overflow := OverflowRun(c, 2_147_483_659);
    forall states: seq<State> | Run(c, 2_147_483_659, states)
      ensures !Last(states).task.Done?
    {
      if Last(states).task.Done? {
        SearchIsCorrect(c, 2_147_483_659, states);
      }
    }
  }

  // Steps a call can still take, when `fuel` levels may split and a scan takes
  // at most `scan` steps.
  ghost function CallWork(fuel: nat, scan: nat): nat {
    1 + scan + if fuel == 0 then 0 else 3 + 2 * CallWork(fuel - 1, scan)
  }

  // No scan takes more steps than its counter has values.
  const SCAN_STEPS: nat := 0x1_0000_0000

  ghost function Work(fuel: int, t: Task): nat
    decreases t
  {
    match t
    case Call(_, _) => CallWork(if fuel < 0 then 0 else fuel, SCAN_STEPS)
    case Scan(_, _, i) => if i <= INT_MAX then INT_MAX + 1 - i else 0
    case Fork(_, _) => if fuel <= 0 then 0 else 3 + 2 * CallWork(fuel - 1, SCAN_STEPS)
    case Both(_, _, left, right) => 2 + Work(fuel - 1, left) + Work(fuel - 1, right)
    case Leaving(_, _, _) => 1
    case _ => 0
  }

  lemma {:induction false} WorkDecreases(c: Config, depth: nat, fuel: int, t: Task, count: int, t': Task, count': int)
    requires DepthOk(fuel, t) && fuel == c.limit - depth
    requires count >= depth + Held(t) && TaskStep(c, count, t, count', t')
    ensures Work(fuel, t') < Work(fuel, t)
    decreases t
  {
    hide Length, Mid;
    if t.Both? && t'.Both? {
      if t' == t.(left := t'.left) && TaskStep(c, count, t.left, count', t'.left) {
        WorkDecreases(c, depth + 1, fuel - 1, t.left, count, t'.left, count');
      } else {
        WorkDecreases(c, depth + 1, fuel - 1, t.right, count, t'.right, count');
      }
    }
  }

  ghost function SearchSteps(c: Config, states: seq<State>): nat {
    if |states| <= 1 then 0
    else SearchSteps(c, states[..|states| - 1]) + if SearchStep(c, states[|states| - 2], states[|states| - 1]) then 1 else 0
  }

  // The search terminates for every portion and every maximum, zero included:
  // the steps its own threads take are bounded however the others interfere.
  lemma {:induction false} SearchTerminates(c: Config, max: nat, states: seq<State>)
    requires Run(c, max, states)
    ensures SearchSteps(c, states) + Work(c.limit, Last(states).task) <= CallWork(c.limit, SCAN_STEPS)
  {
    var n := |states| - 1;
    if n > 0 {
      SearchTerminates(c, max, states[..n]);
      RunDepth(c, max, states[..n]);
      var s, s' := states[n - 1], states[n];
      assert Next(c, s, s');
      if SearchStep(c, s, s') {
        WorkDecreases(c, 0, c.limit, s.task, s.count, s'.task, s'.count);
      }
    }
  }

  // While there is no answer, and nothing undefined has happened, some thread of
  // the search can take a step.
  lemma {:induction false} SomeTaskCanStep(c: Config, t: Task, count: int)
    requires !t.Done? && !HasBroken(t)
    ensures exists t', count' :: TaskStep(c, count, t, count', t')
    decreases t
  {
    match t {
      case Call(lo, hi) =>
        assert TaskStep(c, count, t, count, CallStep(c, count, lo, hi));
      case Scan(lo, hi, i) =>
        assert TaskStep(c, count, t, count, ScanStep(c, lo, hi, i));
      case Fork(lo, hi) =>
        assert TaskStep(c, count, t, count + 1, Both(lo, hi, Call(lo, Mid(lo, hi)), Call(Mid(lo, hi), hi)));
      case Both(lo, hi, left, right) =>
        if !left.Done? {
          SomeTaskCanStep(c, left, count);
          var l, n :| TaskStep(c, count, left, n, l);
          assert TaskStep(c, count, t, n, t.(left := l));
        } else if !right.Done? {
          SomeTaskCanStep(c, right, count);
          var r, n :| TaskStep(c, count, right, n, r);
          assert TaskStep(c, count, t, n, t.(right := r));
        } else {
          assert TaskStep(c, count, t, count, Leaving(lo, hi, left.result || right.result));
        }
      case Leaving(lo, hi, result) =>
        assert TaskStep(c, count, t, count - 1, Done(lo, hi, result));
    }
  }
}
