// The two condition variables of the queue. A thread that cannot go on sleeps on
// one of them; each push and each pop wakes one thread, if any sleeps, after the
// lock has been given up. Here waiting is what the threads do, where in the
// protocol of the pool it is a step that is not enabled.
module WakeUps {
  import CircularQueueModel

  // How many items there are; how many consumers sleep, and how many are about
  // to look at the queue; how many notices of a push are still to be given; and
  // the same for the producers and the notices of a pop.
  datatype State = State(items: nat, sleepingConsumers: nat, awakeConsumers: nat, pushNotices: nat,
                         sleepingProducers: nat, awakeProducers: nat, popNotices: nat)

  datatype Action =
    | ConsumerArrives | Take | ConsumerSleeps | ConsumerGivesUp | ConsumerStirs | NotifyPush
    | ProducerArrives | Put | ProducerSleeps | ProducerStirs | NotifyPop
    | PutNow

  const IDLE := State(0, 0, 0, 0, 0, 0, 0)

  // Sleepers may also stir without a notice: at a time-out, or for no reason.
  ghost predicate Enabled(capacity: nat, s: State, a: Action) {
    match a
    case Take => s.awakeConsumers > 0 && s.items > 0
    case ConsumerSleeps => s.awakeConsumers > 0 && s.items == 0
    case ConsumerGivesUp => s.awakeConsumers > 0 && s.items == 0
    case ConsumerStirs => s.sleepingConsumers > 0
    case NotifyPush => s.pushNotices > 0
    case Put => s.awakeProducers > 0 && s.items < capacity
    case ProducerSleeps => s.awakeProducers > 0 && s.items >= capacity
    case ProducerStirs => s.sleepingProducers > 0
    case NotifyPop => s.popNotices > 0
    case _ => true
  }

  ghost function Step(capacity: nat, s: State, a: Action): State
    requires Enabled(capacity, s, a)
  {
    match a
    case ConsumerArrives => s.(awakeConsumers := s.awakeConsumers + 1)
    case Take => s.(items := s.items - 1, awakeConsumers := s.awakeConsumers - 1, popNotices := s.popNotices + 1)
    case ConsumerSleeps => s.(awakeConsumers := s.awakeConsumers - 1, sleepingConsumers := s.sleepingConsumers + 1)
    case ConsumerGivesUp => s.(awakeConsumers := s.awakeConsumers - 1)
    case ConsumerStirs => WakeConsumer(s)
    case NotifyPush =>
      var t := s.(pushNotices := s.pushNotices - 1);
      if t.sleepingConsumers > 0 then WakeConsumer(t) else t
    case ProducerArrives => s.(awakeProducers := s.awakeProducers + 1)
    case Put => s.(items := s.items + 1, awakeProducers := s.awakeProducers - 1, pushNotices := s.pushNotices + 1)
    case ProducerSleeps => s.(awakeProducers := s.awakeProducers - 1, sleepingProducers := s.sleepingProducers + 1)
    case ProducerStirs => WakeProducer(s)
    case NotifyPop =>
      var t := s.(popNotices := s.popNotices - 1);
      if t.sleepingProducers > 0 then WakeProducer(t) else t
    case PutNow => s.(items := if s.items < capacity then s.items + 1 else s.items, pushNotices := s.pushNotices + 1)
  }

  ghost function WakeConsumer(s: State): State
    requires s.sleepingConsumers > 0
  {
    s.(sleepingConsumers := s.sleepingConsumers - 1, awakeConsumers := s.awakeConsumers + 1)
  }

  ghost function WakeProducer(s: State): State
    requires s.sleepingProducers > 0
  {
    s.(sleepingProducers := s.sleepingProducers - 1, awakeProducers := s.awakeProducers + 1)
  }

  ghost predicate Next(capacity: nat, s: State, s': State) {
    exists a :: Enabled(capacity, s, a) && s' == Step(capacity, s, a)
  }

  ghost predicate Run(capacity: nat, states: seq<State>) {
    && |states| > 0 && states[0] == IDLE
    && forall k :: 0 <= k < |states| - 1 ==> Next(capacity, states[k], states[k + 1])
  }

  // The items are those of the queue: threads go on exactly when the queue lets
  // them, push and pop as it does, and owe a notice for every push and pop.
  lemma ItemsFollowQueue<T>(capacity: nat, s: State, queue: seq<T>, item: T)
    requires s.items == |queue| <= capacity && s.awakeConsumers > 0 && s.awakeProducers > 0
    ensures Enabled(capacity, s, Take) <==> queue != []
    ensures Enabled(capacity, s, ConsumerSleeps) <==> queue == []
    ensures queue != [] ==> Step(capacity, s, Take).items == |queue[1..]| && Step(capacity, s, Take).popNotices == s.popNotices + 1
    ensures Enabled(capacity, s, Put) <==> |queue| < capacity
    ensures Enabled(capacity, s, ProducerSleeps) <==> |queue| >= capacity
    ensures |queue| < capacity ==>
              && Step(capacity, s, Put).items == |queue + [item]| && Step(capacity, s, Put).pushNotices == s.pushNotices + 1
    ensures Enabled(capacity, s, PutNow) && Step(capacity, s, PutNow).items == |CircularQueueModel.Pushed(capacity, queue, item)|
    ensures Step(capacity, s, PutNow).pushNotices == s.pushNotices + 1
  {
    assert queue != [] ==> |queue[1..]| == |queue| - 1;
  }

  // While a consumer sleeps, every item has a notice on its way, or an awake
  // consumer; while a producer sleeps, so has every free place.
  ghost predicate Inv(capacity: nat, s: State) {
    && s.items <= capacity
    && (s.sleepingConsumers > 0 ==> s.items <= s.pushNotices + s.awakeConsumers)
    && (s.sleepingProducers > 0 ==> capacity - s.items <= s.popNotices + s.awakeProducers)
  }

  lemma {:induction false} RunInv(capacity: nat, states: seq<State>)
    requires Run(capacity, states)
    ensures Inv(capacity, states[|states| - 1])
  {
    var n := |states| - 1;
    if n > 0 {
      RunInv(capacity, states[..n]);
      assert Next(capacity, states[n - 1], states[n]);
    }
  }

  // No wake-up is lost: once all notices have been given and nobody is about to
  // look, consumers sleep only at an empty queue and producers at a full one.
  lemma NobodySleepsInVain(capacity: nat, states: seq<State>)
    requires Run(capacity, states)
    ensures var s := states[|states| - 1];
            && (s.pushNotices == 0 && s.awakeConsumers == 0 && s.sleepingConsumers > 0 ==> s.items == 0)
            && (s.popNotices == 0 && s.awakeProducers == 0 && s.sleepingProducers > 0 ==> s.items == capacity)
  {
    RunInv(capacity, states);
  }

  // Until then the notices that are left reach enough of the sleepers: for each
  // item that no awake consumer will take, one will be woken, as long as any
  // sleeps; and for each free place a producer.
  lemma NoticesSuffice(capacity: nat, states: seq<State>)
    requires Run(capacity, states)
    ensures var s := states[|states| - 1];
            && (s.items > s.awakeConsumers && s.sleepingConsumers > 0 ==> s.pushNotices >= s.items - s.awakeConsumers)
            && (capacity - s.items > s.awakeProducers && s.sleepingProducers > 0 ==>
                  s.popNotices >= capacity - s.items - s.awakeProducers)
  {
    RunInv(capacity, states);
  }

  // The notice is needed: a run in which nothing but the notice of a push will
  // wake a consumer that sleeps beside an item.
  lemma OneNoticeLeft()
    ensures exists states :: Run(1, states) && states[|states| - 1] == State(1, 1, 0, 1, 0, 0, 0)
  {
    var arrived, asleep := IDLE.(awakeConsumers := 1), IDLE.(sleepingConsumers := 1);
    var put := State(1, 1, 0, 1, 0, 0, 0);
    assert arrived == Step(1, IDLE, ConsumerArrives);
    assert asleep == Step(1, arrived, ConsumerSleeps);
    assert put == Step(1, asleep, PutNow);
    assert Next(1, IDLE, arrived) && Next(1, arrived, asleep) && Next(1, asleep, put);
    assert Run(1, [IDLE, arrived, asleep, put]);
  }
}
