/**
 The hand-off of point packets in the Livox driver: any number of producer threads running Lds::PushLidarData, one
 consumer thread running Lddc::DistributePointCloudData, and a counting semaphore between them. Every access to shared
 state is one step, and steps interleave freely.
 */
module LivoxHandoff {

  datatype Packet = Packet(baseTime: int, points: seq<int>)

  // ----- the program counters

  /** Where a producer is in PushLidarData, with the lidar it pushes for. */
  datatype Producer =
    | Idle
    | Storing(lidar: nat, packet: Packet) // the queue was not full
    | Stored(lidar: nat)                  // the packet is in the queue
    | Counting(lidar: nat)                // about to read the count
    | Signalling(lidar: nat)              // the count read was not positive

  /** Where the consumer is: blocked in Wait, at the loop header for a lidar, or in one of the two nested loops. */
  datatype Consumer =
    | Waiting
    | At(i: nat)
    | Polling(i: nat)
    | Popping(i: nat)

  datatype State = State(
    count: nat,
    producers: seq<Producer>,
    consumer: Consumer,
    sampling: seq<bool>,
    capacity: seq<nat>,
    queues: seq<seq<Packet>>,
    accepted: seq<seq<Packet>>, // what was stored for each lidar so far
    taken: seq<seq<Packet>>)    // what the consumer popped for each lidar so far
  {
    predicate Shaped() {
      |sampling| == |capacity| == |queues| == |accepted| == |taken|
    }
  }

  datatype Event =
    | Push(p: nat, lidar: nat, packet: Packet) // a producer is called
    | Produce(p: nat)                          // it takes its next step
    | Consume                                  // the consumer takes its next step
    | Connect(lidar: nat)                      // a lidar reaches the sampling state

  // ----- the steps

  function Called(s: State, p: nat, lidar: nat, packet: Packet): State
    requires s.Shaped()
  {
    if p >= |s.producers| || s.producers[p] != Idle || lidar >= |s.queues| then s
    else if |s.queues[lidar]| >= s.capacity[lidar] then s.(producers := s.producers[p := Counting(lidar)])
    else s.(producers := s.producers[p := Storing(lidar, packet)])
  }

  function ProducerStep(s: State, p: nat): State
    requires s.Shaped()
  {
    if p >= |s.producers| || (!s.producers[p].Idle? && s.producers[p].lidar >= |s.queues|) then s
    else match s.producers[p]
      case Idle => s
      case Storing(i, packet) =>
        s.(queues := s.queues[i := s.queues[i] + [packet]],
           accepted := s.accepted[i := s.accepted[i] + [packet]],
           producers := s.producers[p := Stored(i)])
      case Stored(i) => s.(producers := s.producers[p := if s.queues[i] == [] then Idle else Counting(i)])
      case Counting(i) => s.(producers := s.producers[p := if s.count <= 0 then Signalling(i) else Idle])
      case Signalling(i) => s.(count := s.count + 1, producers := s.producers[p := Idle])
  }

  function ConsumerStep(s: State): State
    requires s.Shaped()
  {
    match s.consumer
    case Waiting => if s.count > 0 then s.(count := s.count - 1, consumer := At(0)) else s
    case At(i) =>
      if i >= |s.queues| then s.(consumer := Waiting)
      else if !s.sampling[i] then s.(consumer := At(i + 1))
      else s.(consumer := Polling(i))
    case Polling(i) =>
      if i >= |s.queues| || s.queues[i] == [] then s.(consumer := At(i + 1)) else s.(consumer := Popping(i))
    case Popping(i) =>
      if i >= |s.queues| || s.queues[i] == [] then s.(consumer := Polling(i))
      else s.(queues := s.queues[i := s.queues[i][1..]], taken := s.taken[i := s.taken[i] + [s.queues[i][0]]])
  }

  function Next(s: State, e: Event): (s': State)
    requires s.Shaped()
    ensures s'.Shaped() && |s'.queues| == |s.queues| && |s'.producers| == |s.producers| && s'.capacity == s.capacity
  {
    match e
    case Push(p, i, packet) => Called(s, p, i, packet)
    case Produce(p) => ProducerStep(s, p)
    case Consume => ConsumerStep(s)
    case Connect(i) => if i < |s.sampling| then s.(sampling := s.sampling[i := true]) else s
  }

  /** Any interleaving: a sequence of events. */
  function Run(s: State, events: seq<Event>): (s': State)
    requires s.Shaped()
    ensures s'.Shaped() && |s'.queues| == |s.queues|
    decreases |events|
  {
    if events == [] then s else Run(Next(s, events[0]), events[1..])
  }

  predicate Initial(s: State) {
    && s.Shaped() && s.count == 0 && s.consumer == Waiting
    && (forall p :: 0 <= p < |s.producers| ==> s.producers[p] == Idle)
    && (forall i :: 0 <= i < |s.queues| ==> s.queues[i] == [] && s.accepted[i] == [] && s.taken[i] == [])
  }

  // ----- no lost wakeup

  /** Data is queued, nobody is on the way, and the consumer is blocked. */
  predicate Stranded(s: State, i: nat)
    requires s.Shaped() && i < |s.queues|
  {
    s.sampling[i] && s.queues[i] != [] && AtRest(s)
  }

  /** The driver is at rest: the consumer is blocked and no producer is at work. */
  predicate AtRest(s: State) {
    s.consumer == Waiting && s.count == 0 && forall p :: 0 <= p < |s.producers| ==> s.producers[p] == Idle
  }

  /** The pass that the consumer is on still empties the queue of lidar j. */
  predicate Drains(c: Consumer, sampling: seq<bool>, j: nat)
    requires j < |sampling|
  {
    && !c.Waiting? && c.i <= j
    && (sampling[j] || (!c.At? && c.i == j))
  }

  /** The producer is going to signal unless the count is positive: the packet it looks for is there to stay. */
  predicate Signals(s: State, p: Producer)
    requires s.Shaped()
  {
    match p
    case Idle => false
    case Storing(j, _) => j < |s.queues| && !Drains(s.consumer, s.sampling, j)
    case Stored(j) => j < |s.queues| && s.queues[j] != [] && !Drains(s.consumer, s.sampling, j)
    case Counting(_) => true
    case Signalling(_) => true
  }

  /** The consumer is on its way to lidar i, or is going to be. */
  predicate Safe(s: State, i: nat)
    requires s.Shaped() && i < |s.queues|
  {
    || s.count > 0
    || Drains(s.consumer, s.sampling, i)
    || exists p :: 0 <= p < |s.producers| && Signals(s, s.producers[p])
  }

  /** Data of lidar i, if it is sampling, is never left without the consumer coming. */
  predicate Guarded(s: State, i: nat)
    requires s.Shaped() && i < |s.queues|
  {
    s.sampling[i] && s.queues[i] != [] ==> Safe(s, i)
  }

  predicate Awake(s: State)
    requires s.Shaped()
  {
    forall i :: 0 <= i < |s.queues| ==> Guarded(s, i)
  }

  /** Producers and consumer are at work on lidars that there are. */
  predicate Proper(s: State)
    requires s.Shaped()
  {
    && (forall p :: 0 <= p < |s.producers| && !s.producers[p].Idle? ==> s.producers[p].lidar < |s.queues|)
    && (s.consumer.At? ==> s.consumer.i <= |s.queues|)
    && (s.consumer.Polling? || s.consumer.Popping? ==> s.consumer.i < |s.queues|)
  }

  lemma StepProper(s: State, e: Event)
    requires s.Shaped() && Proper(s)
    ensures Proper(Next(s, e))
  {
  }

  lemma PushKeepsGuard(s: State, p: nat, lidar: nat, packet: Packet, i: nat)
    requires s.Shaped() && i < |s.queues| && Guarded(s, i)
    ensures Guarded(Called(s, p, lidar, packet), i)
  {
    var s' := Called(s, p, lidar, packet);
    if q :| 0 <= q < |s.producers| && Signals(s, s.producers[q]) {
      assert Signals(s', s'.producers[q]);
    }
  }

  lemma ProduceKeepsGuard(s: State, p: nat, i: nat)
    requires s.Shaped() && i < |s.queues| && Guarded(s, i)
    ensures Guarded(ProducerStep(s, p), i)
  {
    var s' := ProducerStep(s, p);
    if q :| 0 <= q < |s.producers| && Signals(s, s.producers[q]) {
      assert q != p ==> Signals(s', s'.producers[q]);
      assert q == p && s'.count == 0 ==> Signals(s', s'.producers[p]);
    }
    if s'.queues[i] != s.queues[i] && !Drains(s.consumer, s.sampling, i) {
      assert Signals(s', s'.producers[p]);
    }
  }

  lemma ConsumeKeepsGuard(s: State, i: nat)
    requires s.Shaped() && i < |s.queues| && Guarded(s, i)
    ensures Guarded(ConsumerStep(s), i)
  {
    var s' := ConsumerStep(s);
    if q :| 0 <= q < |s.producers| && Signals(s, s.producers[q]) {
      assert s.consumer != Waiting ==> Signals(s', s'.producers[q]);
    }
  }

  /** Every step but a connection keeps each lidar guarded. */
  lemma StepKeepsGuard(s: State, e: Event, i: nat)
    requires s.Shaped() && i < |s.queues| && Guarded(s, i) && !e.Connect?
    ensures Guarded(Next(s, e), i)
  {
    match e {
      case Push(p, lidar, packet) => PushKeepsGuard(s, p, lidar, packet, i);
      case Produce(p) => ProduceKeepsGuard(s, p, i);
      case Consume => ConsumeKeepsGuard(s, i);
    }
  }

  // ----- a state that is not safe can end in a stranded packet

  /** Threads that are already at work take their next steps. */
  predicate Quiet(events: seq<Event>) {
    forall k :: 0 <= k < |events| ==> events[k].Produce? || events[k].Consume?
  }

  /** Lidar i has data to deliver and no way to get it noticed. */
  predicate Doomed(s: State, i: nat)
    requires s.Shaped() && i < |s.queues|
  {
    s.sampling[i] && s.queues[i] != [] && !Safe(s, i)
  }

  lemma StoreKeepsDoomed(s: State, p: nat, i: nat)
    requires s.Shaped() && i < |s.queues| && Proper(s) && Doomed(s, i) && p < |s.producers| && s.producers[p].Storing?
    ensures Doomed(ProducerStep(s, p), i)
  {
    var s' := ProducerStep(s, p);
    assert !Signals(s, s.producers[p]);
    forall q | 0 <= q < |s.producers| ensures !Signals(s', s'.producers[q]) {
      assert !Signals(s, s.producers[q]);
    }
  }

  lemma ConsumeKeepsDoomed(s: State, i: nat)
    requires s.Shaped() && i < |s.queues| && Proper(s) && Doomed(s, i) && s.consumer != Waiting
    requires forall p :: 0 <= p < |s.producers| ==> !s.producers[p].Storing?
    ensures Doomed(ConsumerStep(s), i)
  {
    var s' := ConsumerStep(s);
    forall q | 0 <= q < |s.producers| ensures !Signals(s', s'.producers[q]) {
      assert !Signals(s, s.producers[q]);
    }
  }

  /** Once the consumer is blocked, a producer that finds its queue empty gives up. */
  lemma CheckKeepsDoomed(s: State, p: nat, i: nat)
    requires s.Shaped() && i < |s.queues| && Proper(s) && Doomed(s, i) && s.consumer == Waiting
    requires p < |s.producers| && s.producers[p] != Idle && !s.producers[p].Storing?
    ensures Doomed(ProducerStep(s, p), i) && ProducerStep(s, p) == s.(producers := s.producers[p := Idle])
  {
    assert !Signals(s, s.producers[p]);
    forall q | 0 <= q < |s.producers| ensures !Signals(ProducerStep(s, p), ProducerStep(s, p).producers[q]) {
      assert !Signals(s, s.producers[q]);
    }
  }

  function StoringAt(ps: seq<Producer>): set<nat> {
    set p: nat | p < |ps| && ps[p].Storing?
  }

  function BusyAt(ps: seq<Producer>): set<nat> {
    set p: nat | p < |ps| && ps[p] != Idle
  }

  /** What is left of the pass: lidars, packets at the present one, and which of the loops comes next. */
  function PassLeft(s: State): (left: (nat, nat, nat))
    requires s.Shaped() && Proper(s)
  {
    match s.consumer
    case Waiting => (0, 0, 0)
    case At(c) => (|s.queues| - c + 1, if c < |s.queues| then |s.queues[c]| else 0, 3)
    case Polling(c) => (|s.queues| - c + 1, |s.queues[c]|, if s.queues[c] == [] then 1 else 2)
    case Popping(c) => (|s.queues| - c + 1, |s.queues[c]|, if s.queues[c] == [] then 2 else 1)
  }

  lemma PassGoesOn(s: State)
    requires s.Shaped() && Proper(s) && s.consumer != Waiting
    ensures Proper(ConsumerStep(s))
    ensures var a, b := PassLeft(s), PassLeft(ConsumerStep(s));
            b.0 < a.0 || (b.0 == a.0 && (b.1 < a.1 || (b.1 == a.1 && b.2 < a.2)))
  {
  }

  lemma FewerThere(ps: seq<Producer>, p: nat, to: Producer)
    requires p < |ps| && ps[p] != Idle && !to.Storing?
    ensures ps[p].Storing? ==> StoringAt(ps[p := to]) < StoringAt(ps)
    ensures !ps[p].Storing? ==> StoringAt(ps[p := to]) == StoringAt(ps)
    ensures to == Idle ==> BusyAt(ps[p := to]) < BusyAt(ps)
  {
    assert p in BusyAt(ps) && (ps[p].Storing? ==> p in StoringAt(ps));
    if to == Idle {
      assert p !in BusyAt(ps[p := to]);
    }
    assert p !in StoringAt(ps[p := to]);
  }

  /**
   The way to a stranded packet: everybody stores, the pass empties what it still comes to, and the producers find
   their queues empty.
   */
  lemma {:induction false} Strand(s: State, i: nat) returns (events: seq<Event>)
    requires s.Shaped() && i < |s.queues| && Proper(s) && Doomed(s, i)
    ensures Quiet(events) && |Run(s, events).queues| == |s.queues| && Stranded(Run(s, events), i)
    decreases StoringAt(s.producers), PassLeft(s).0, PassLeft(s).1, PassLeft(s).2, BusyAt(s.producers)
  {
    hide Signals;
    hide Drains;
    hide Safe;
    var e: Event;
    if p :| 0 <= p < |s.producers| && s.producers[p].Storing? {
      e := Produce(p);
      StoreKeepsDoomed(s, p, i);
      FewerThere(s.producers, p, Stored(s.producers[p].lidar));
    } else if s.consumer != Waiting {
      e := Consume;
      ConsumeKeepsDoomed(s, i);
      PassGoesOn(s);
    } else if p :| 0 <= p < |s.producers| && s.producers[p] != Idle {
      e := Produce(p);
      CheckKeepsDoomed(s, p, i);
      FewerThere(s.producers, p, Idle);
    } else {
      NotSafe(s, i);
      return [];
    }
    StepProper(s, e);
    var rest := Strand(Next(s, e), i);
    RunStep(s, e, rest);
    return [e] + rest;
  }

  lemma NotSafe(s: State, i: nat)
    requires s.Shaped() && i < |s.queues| && Doomed(s, i)
    ensures s.count == 0
  {
  }

  lemma RunStep(s: State, e: Event, events: seq<Event>)
    requires s.Shaped()
    ensures Run(s, [e] + events) == Run(Next(s, e), events)
  {
    assert ([e] + events)[1..] == events;
  }

  /** Steps of threads already at work can leave data of lidar i stranded. */
  ghost predicate CanStrand(s: State, i: nat)
    requires s.Shaped() && i < |s.queues|
  {
    exists events :: Quiet(events) && Stranded(Run(s, events), i)
  }

  predicate Unconnected(events: seq<Event>) {
    forall k :: 0 <= k < |events| ==> !events[k].Connect?
  }

  lemma {:induction false} RunKeepsGuard(s: State, events: seq<Event>, i: nat)
    requires s.Shaped() && i < |s.queues| && Guarded(s, i) && Unconnected(events)
    ensures Guarded(Run(s, events), i)
    decreases |events|
  {
    if events != [] {
      StepKeepsGuard(s, events[0], i);
      RunKeepsGuard(Next(s, events[0]), events[1..], i);
    }
  }

  lemma GuardedNotStranded(s: State, i: nat)
    requires s.Shaped() && i < |s.queues| && Guarded(s, i)
    ensures !Stranded(s, i)
  {
  }

  /**
   Data can get stranded from a state exactly when it is there for a sampling lidar and the lidar is not safe. New
   packets, for whichever lidars, cannot change that.
   */
  lemma StrandsExactly(s: State, i: nat)
    requires s.Shaped() && Proper(s) && i < |s.queues|
    ensures CanStrand(s, i) <==> s.sampling[i] && s.queues[i] != [] && !Safe(s, i)
    ensures CanStrand(s, i) <==> exists events :: Unconnected(events) && Stranded(Run(s, events), i)
  {
    hide Safe;
    hide Stranded;
    if Doomed(s, i) {
      var events := Strand(s, i);
      assert Quiet(events) && Unconnected(events);
    } else {
      forall events | Unconnected(events) ensures !Stranded(Run(s, events), i) {
        RunKeepsGuard(s, events, i);
        GuardedNotStranded(Run(s, events), i);
      }
      assert forall events :: Quiet(events) ==> Unconnected(events);
    }
  }

  // ----- connections, and whole runs

  /** Every lidar with data that samples once j does is safe then. */
  predicate Timely(s: State, j: nat)
    requires s.Shaped() && j < |s.queues|
  {
    var s' := s.(sampling := s.sampling[j := true]);
    forall i :: 0 <= i < |s.queues| && (s.sampling[i] || i == j) && s.queues[i] != [] ==> Safe(s', i)
  }

  /** All lidars that start sampling during the run do so in time. */
  predicate TimelyRun(s: State, events: seq<Event>)
    requires s.Shaped()
    decreases |events|
  {
    events == [] ||
    (&& (events[0].Connect? && events[0].lidar < |s.queues| ==> Timely(s, events[0].lidar))
     && TimelyRun(Next(s, events[0]), events[1..]))
  }

  ghost predicate AnyCanStrand(s: State)
    requires s.Shaped()
  {
    exists i :: 0 <= i < |s.queues| && CanStrand(s, i)
  }

  lemma AwakeExactly(s: State)
    requires s.Shaped() && Proper(s)
    ensures Awake(s) <==> !AnyCanStrand(s)
  {
    hide Safe;
    hide CanStrand;
    forall i | 0 <= i < |s.queues| ensures CanStrand(s, i) <==> !Guarded(s, i) {
      StrandsExactly(s, i);
    }
  }

  lemma StepAwake(s: State, e: Event)
    requires s.Shaped() && Awake(s)
    ensures Awake(Next(s, e)) <==> (e.Connect? && e.lidar < |s.queues| ==> Timely(s, e.lidar))
  {
    hide Safe;
    if !e.Connect? {
      forall i | 0 <= i < |s.queues| ensures Guarded(Next(s, e), i) {
        assert Guarded(s, i);
        hide Guarded;
        StepKeepsGuard(s, e, i);
      }
    } else if e.lidar < |s.queues| {
      var s' := Next(s, e);
      assert forall i :: 0 <= i < |s.queues| ==>
        (Guarded(s', i) <==> ((s.sampling[i] || i == e.lidar) && s.queues[i] != [] ==> Safe(s', i)));
    }
  }

  /** A connection leaves nothing that can get stranded exactly when it is timely. */
  lemma ConnectExactly(s: State, j: nat)
    requires s.Shaped() && Proper(s) && j < |s.queues| && !AnyCanStrand(s)
    ensures AnyCanStrand(Next(s, Connect(j))) <==> !Timely(s, j)
  {
    AwakeExactly(s);
    StepProper(s, Connect(j));
    AwakeExactly(Next(s, Connect(j)));
    StepAwake(s, Connect(j));
  }

  /**
   In every interleaving: at no point of the run can data of a sampling lidar get stranded, if and only if all
   connections are timely.
   */
  lemma {:induction false} NoLostWakeup(s: State, events: seq<Event>)
    requires s.Shaped() && Proper(s) && Awake(s)
    ensures TimelyRun(s, events) <==> forall k :: 0 <= k <= |events| ==> !AnyCanStrand(Run(s, events[..k]))
    ensures TimelyRun(s, events) ==> Awake(Run(s, events))
    decreases |events|
  {
    hide Awake;
    hide AnyCanStrand;
    AwakeExactly(s);
    assert events[..0] == [];
    if events != [] {
      var s', rest := Next(s, events[0]), events[1..];
      StepProper(s, events[0]);
      StepAwake(s, events[0]);
      AwakeExactly(s');
      assert forall k :: 0 <= k <= |rest| ==> Run(s, events[..k + 1]) == Run(s', rest[..k]) by {
        forall k | 0 <= k <= |rest| ensures Run(s, events[..k + 1]) == Run(s', rest[..k]) {
          assert events[..k + 1] == [events[0]] + rest[..k];
          RunStep(s, events[0], rest[..k]);
        }
      }
      if Awake(s') {
        NoLostWakeup(s', rest);
        forall k | 0 < k <= |events| ensures Run(s, events[..k]) == Run(s', rest[..k - 1]) {
          assert events[..k] == events[..k - 1 + 1];
        }
        assert rest[..|rest|] == rest;
      } else {
        assert Run(s', rest[..0]) == s';
      }
    }
  }

  // ----- first in, first out

  /** What was accepted for a lidar is what was taken from it, then what is still queued, in order. */
  predicate Conserved(s: State)
    requires s.Shaped()
  {
    forall i :: 0 <= i < |s.queues| ==> s.accepted[i] == s.taken[i] + s.queues[i]
  }

  lemma StepConserves(s: State, e: Event)
    requires s.Shaped() && Conserved(s)
    ensures Conserved(Next(s, e))
  {
    var s' := Next(s, e);
    forall i | 0 <= i < |s.queues| ensures s'.accepted[i] == s'.taken[i] + s'.queues[i] {
      assert s.accepted[i] == s.taken[i] + s.queues[i];
    }
  }

  lemma {:induction false} RunConserves(s: State, events: seq<Event>)
    requires s.Shaped() && Conserved(s)
    ensures Conserved(Run(s, events))
    decreases |events|
  {
    if events != [] {
      StepConserves(s, events[0]);
      RunConserves(Next(s, events[0]), events[1..]);
    }
  }

  /**
   Whenever the driver comes to rest, each packet accepted for a sampling lidar has been taken by the consumer: once,
   and in the order of acceptance. All connections since some point must be timely at which nothing could get stranded,
   such as the start, or any at which the count was positive.
   */
  lemma RestMeansDelivered(s: State, events: seq<Event>, later: seq<Event>)
    requires Initial(s) && Awake(Run(s, events)) && TimelyRun(Run(s, events), later) && AtRest(Run(s, events + later))
    ensures var s' := Run(s, events + later);
            forall i :: 0 <= i < |s'.queues| && s'.sampling[i] ==> s'.taken[i] == s'.accepted[i]
  {
    RunAppend(s, events, later);
    RunProper(s, events);
    NoLostWakeup(Run(s, events), later);
    RunConserves(s, events + later);
    var s' := Run(s, events + later);
    forall i | 0 <= i < |s'.queues| && s'.sampling[i] ensures s'.taken[i] == s'.accepted[i] {
      assert Guarded(s', i);
      GuardedNotStranded(s', i);
      assert s'.accepted[i] == s'.taken[i] + s'.queues[i];
    }
  }

  /** The start, and every state with a positive count, is such a point. */
  lemma AwakeAtFirst(s: State)
    requires s.Shaped() && (Initial(s) || s.count > 0)
    ensures Awake(s)
  {
  }

  lemma {:induction false} RunAppend(s: State, a: seq<Event>, b: seq<Event>)
    requires s.Shaped()
    ensures Run(s, a + b) == Run(Run(s, a), b)
    decreases |a|
  {
    if a == [] {
      assert a + b == b;
    } else {
      assert (a + b)[1..] == a[1..] + b;
      RunAppend(Next(s, a[0]), a[1..], b);
    }
  }

  lemma {:induction false} RunProper(s: State, events: seq<Event>)
    requires s.Shaped() && Proper(s)
    ensures Proper(Run(s, events))
    decreases |events|
  {
    if events != [] {
      StepProper(s, events[0]);
      RunProper(Next(s, events[0]), events[1..]);
    }
  }

  // ----- the ledger of what is offered

  /** The event calls an idle producer for lidar i. */
  predicate Calls(s: State, e: Event, i: nat)
    requires s.Shaped() && i < |s.queues|
  {
    e.Push? && e.lidar == i && e.p < |s.producers| && s.producers[e.p] == Idle
  }

  /** The packets offered for lidar i while fewer than its capacity are queued, and those offered on a full queue. */
  function Admitted(s: State, events: seq<Event>, i: nat): seq<Packet>
    requires s.Shaped() && i < |s.queues|
    decreases |events|
  {
    if events == [] then []
    else
      (if Calls(s, events[0], i) && |s.queues[i]| < s.capacity[i] then [events[0].packet] else []) +
      Admitted(Next(s, events[0]), events[1..], i)
  }

  /** What producer p has in its hands for lidar i. */
  function InHand(s: State, p: nat, i: nat): seq<Packet> {
    if p < |s.producers| && s.producers[p].Storing? && s.producers[p].lidar == i then [s.producers[p].packet] else []
  }

  /** Nobody but producer p pushes for lidar i. */
  predicate Sole(s: State, p: nat, i: nat) {
    forall q :: 0 <= q < |s.producers| && s.producers[q].Storing? && s.producers[q].lidar == i ==> q == p
  }

  predicate SolePusher(events: seq<Event>, p: nat, i: nat) {
    forall k :: 0 <= k < |events| && events[k].Push? && events[k].lidar == i ==> events[k].p == p
  }

  lemma StepLedger(s: State, e: Event, p: nat, i: nat)
    requires s.Shaped() && i < |s.queues| && Sole(s, p, i) && SolePusher([e], p, i)
    ensures var s' := Next(s, e);
            && Sole(s', p, i)
            && s'.accepted[i] + InHand(s', p, i) ==
               s.accepted[i] + InHand(s, p, i) +
               if Calls(s, e, i) && |s.queues[i]| < s.capacity[i] then [e.packet] else []
  {
    assert [e][0] == e;
    var s' := Next(s, e);
    if e.Produce? && s'.accepted[i] != s.accepted[i] {
      assert s.producers[e.p].Storing? && s.producers[e.p].lidar == i;
      assert e.p == p;
    }
  }

  /** A packet offered is accepted exactly when there is room at the call, and packets are accepted in order. */
  lemma {:induction false} Ledger(s: State, events: seq<Event>, p: nat, i: nat)
    requires s.Shaped() && i < |s.queues| && Sole(s, p, i) && SolePusher(events, p, i)
    ensures var s' := Run(s, events);
            && Sole(s', p, i)
            && s'.accepted[i] + InHand(s', p, i) == s.accepted[i] + InHand(s, p, i) + Admitted(s, events, i)
    decreases |events|
  {
    hide Next;
    hide InHand;
    hide Calls;
    if events == [] {
      assert s.accepted[i] + InHand(s, p, i) + [] == s.accepted[i] + InHand(s, p, i);
    } else {
      assert [events[0]][0] == events[0];
      StepLedger(s, events[0], p, i);
      Ledger(Next(s, events[0]), events[1..], p, i);
    }
  }

  /**
   End to end: at rest, with timely connections, the consumer has taken from a sampling lidar exactly the packets
   that were offered while its queue had room, in the order of the offers.
   */
  lemma RestMeansAllAdmitted(s: State, events: seq<Event>, p: nat, i: nat)
    requires Initial(s) && TimelyRun(s, events) && AtRest(Run(s, events)) && i < |s.queues| && SolePusher(events, p, i)
    ensures Run(s, events).sampling[i] ==> Run(s, events).taken[i] == Admitted(s, events, i)
  {
    AwakeAtFirst(s);
    assert [] + events == events;
    RestMeansDelivered(s, [], events);
    Ledger(s, events, p, i);
    var s' := Run(s, events);
    assert InHand(s', p, i) == [] && s.accepted[i] + InHand(s, p, i) == [];
    assert s'.accepted[i] + [] == s'.accepted[i] && [] + Admitted(s, events, i) == Admitted(s, events, i);
  }

  // ----- the count

  function SignallingAt(ps: seq<Producer>): set<nat> {
    set p: nat | p < |ps| && ps[p].Signalling?
  }

  function Below(n: nat): (r: set<nat>)
    ensures |r| == n && forall p: nat :: p in r <==> p < n
  {
    if n == 0 then {} else Below(n - 1) + {n - 1}
  }

  lemma SmallerSet(a: set<nat>, b: set<nat>)
    requires a <= b
    ensures |a| <= |b|
  {
    assert b == a + (b - a);
  }

  predicate CountBounded(s: State) {
    s.count + |SignallingAt(s.producers)| <= |s.producers|
  }

  lemma StepCounts(s: State, e: Event)
    requires s.Shaped() && CountBounded(s)
    ensures CountBounded(Next(s, e))
  {
    var p := if e.Push? || e.Produce? then e.p else 0;
    var ps, s' := s.producers, Next(s, e);
    if p < |ps| {
      assert s'.producers == ps[p := s'.producers[p]];
      OneMoves(ps, p, s'.producers[p]);
    }
    hide SignallingAt;
  }

  lemma OneMoves(ps: seq<Producer>, p: nat, to: Producer)
    requires p < |ps|
    ensures var a, b := |SignallingAt(ps)|, |SignallingAt(ps[p := to])|;
            && (ps[p].Signalling? == to.Signalling? ==> b == a)
            && (!ps[p].Signalling? && to.Signalling? ==> b == a + 1 <= |ps|)
            && (ps[p].Signalling? && !to.Signalling? ==> b == a - 1)
  {
    if ps[p].Signalling? == to.Signalling? {
      assert SignallingAt(ps) == SignallingAt(ps[p := to]);
    } else if to.Signalling? {
      OneMore(ps, p, to);
    } else {
      assert ps[p := to][p := ps[p]] == ps;
      OneMore(ps[p := to], p, ps[p]);
    }
  }

  lemma OneMore(ps: seq<Producer>, p: nat, to: Producer)
    requires p < |ps| && !ps[p].Signalling? && to.Signalling?
    ensures |SignallingAt(ps[p := to])| == |SignallingAt(ps)| + 1 <= |ps|
  {
    var a, b := SignallingAt(ps), SignallingAt(ps[p := to]);
    assert b == a + {p} && p !in a;
    assert b <= Below(|ps|);
    hide SignallingAt;
    SmallerSet(b, Below(|ps|));
  }

  /** However pushes race on the count, no more wake-ups are pending than there are producers. */
  lemma {:induction false} RunCounts(s: State, events: seq<Event>)
    requires s.Shaped() && CountBounded(s)
    ensures CountBounded(Run(s, events))
    decreases |events|
  {
    if events != [] {
      StepCounts(s, events[0]);
      RunCounts(Next(s, events[0]), events[1..]);
    }
  }

  /** Signals given during a run, and passes begun. */
  function Given(s: State, events: seq<Event>): nat
    requires s.Shaped()
    decreases |events|
  {
    if events == [] then 0
    else
      var e := events[0];
      (if e.Produce? && e.p < |s.producers| && s.producers[e.p].Signalling? && s.producers[e.p].lidar < |s.queues|
       then 1 else 0) + Given(Next(s, e), events[1..])
  }

  function Passes(s: State, events: seq<Event>): nat
    requires s.Shaped()
    decreases |events|
  {
    if events == [] then 0
    else
      (if events[0].Consume? && s.consumer == Waiting && s.count > 0 then 1 else 0) +
      Passes(Next(s, events[0]), events[1..])
  }

  /** Every signal wakes the consumer for one pass, or is still pending. */
  lemma {:induction false} SignalsWake(s: State, events: seq<Event>)
    requires s.Shaped()
    ensures Run(s, events).count + Passes(s, events) == s.count + Given(s, events)
    decreases |events|
  {
    if events != [] {
      SignalsWake(Next(s, events[0]), events[1..]);
    }
  }

  // ----- late connection, and how it heals

  function LateConnection(packet: Packet): seq<Event> {
    [Push(0, 0, packet)] + ([Produce(0)] + ([Produce(0)] + ([Produce(0)] + ([Produce(0)] +
    ([Consume] + ([Consume] + ([Consume] + ([Connect(0)] + []))))))))
  }

  /**
   The guarantee does not survive a late connection: a packet arrives for a lidar that is not sampling yet, the
   consumer wakes up and passes over it, then the lidar starts sampling. The packet is stranded.
   */
  lemma LateConnectionStrands(packet: Packet)
    ensures var s := Run(State(0, [Idle], Waiting, [false], [16], [[]], [[]], [[]]), LateConnection(packet));
            |s.queues| == 1 && Stranded(s, 0)
  {
    hide Run;
    var s0 := State(0, [Idle], Waiting, [false], [16], [[]], [[]], [[]]);
    var s1 := s0.(producers := [Storing(0, packet)]);
    var s2 := s0.(producers := [Stored(0)], queues := [[packet]], accepted := [[packet]]);
    var s3 := s2.(producers := [Counting(0)]);
    var s4 := s2.(producers := [Signalling(0)]);
    var s5 := s2.(producers := [Idle], count := 1);
    var s6 := s2.(producers := [Idle], consumer := At(0));
    var s7 := s6.(consumer := At(1));
    var s8 := s6.(consumer := Waiting);
    var s9 := s8.(sampling := [true]);
    var e9: seq<Event> := [];
    var e8 := [Connect(0)] + e9;
    var e7, e6 := [Consume] + e8, [Consume] + ([Consume] + e8);
    var e5 := [Consume] + e6;
    var e4 := [Produce(0)] + e5;
    var e3 := [Produce(0)] + e4;
    var e2 := [Produce(0)] + e3;
    var e1 := [Produce(0)] + e2;
    assert [] + [packet] == [packet];
    assert Next(s0, Push(0, 0, packet)) == s1;
    assert Next(s1, Produce(0)) == s2;
    assert Next(s2, Produce(0)) == s3;
    assert Next(s3, Produce(0)) == s4;
    assert Next(s4, Produce(0)) == s5;
    assert Next(s5, Consume) == s6;
    assert Next(s6, Consume) == s7;
    assert Next(s7, Consume) == s8;
    assert Next(s8, Connect(0)) == s9;
    RunStep(s0, Push(0, 0, packet), e1);
    RunStep(s1, Produce(0), e2);
    RunStep(s2, Produce(0), e3);
    RunStep(s3, Produce(0), e4);
    RunStep(s4, Produce(0), e5);
    RunStep(s5, Consume, e6);
    RunStep(s6, Consume, e7);
    RunStep(s7, Consume, e8);
    RunStep(s8, Connect(0), e9);
    RunEmpty(s9);
    assert LateConnection(packet) == [Push(0, 0, packet)] + e1;
    assert Run(s0, LateConnection(packet)) == s9;
    assert Stranded(s9, 0);
  }

  lemma RunEmpty(s: State)
    requires s.Shaped()
    ensures Run(s, []) == s
  {
  }

  /**
   In any state whatever, a push that runs to its end without interruption leaves the count positive, also when the
   queue is full: so the next packet of any lidar wakes the consumer for the stranded ones.
   */
  lemma NextPushWakes(s: State, p: nat, i: nat, packet: Packet)
    requires s.Shaped() && p < |s.producers| && s.producers[p] == Idle && i < |s.queues|
    ensures Run(s, [Push(p, i, packet)] +
                   ([Produce(p)] + ([Produce(p)] + ([Produce(p)] + ([Produce(p)] + []))))).count > 0
  {
    hide Run;
    var produce := [Produce(p)] + [];
    var s1 := Next(s, Push(p, i, packet));
    var s2 := Next(s1, Produce(p));
    var s3 := Next(s2, Produce(p));
    var s4 := Next(s3, Produce(p));
    var s5 := Next(s4, Produce(p));
    RunStep(s, Push(p, i, packet), [Produce(p)] + ([Produce(p)] + ([Produce(p)] + produce)));
    RunStep(s1, Produce(p), [Produce(p)] + ([Produce(p)] + produce));
    RunStep(s2, Produce(p), [Produce(p)] + produce);
    RunStep(s3, Produce(p), produce);
    RunStep(s4, Produce(p), []);
    RunEmpty(s5);
    if |s.queues[i]| >= s.capacity[i] {
      assert s1.producers[p] == Counting(i);
      assert s3.count > 0 && s3.producers[p] == Idle;
    } else {
      assert s2.producers[p] == Stored(i) && s2.queues[i] != [];
      assert s3.producers[p] == Counting(i);
    }
  }

  // ----- one producer for each lidar

  /** No queue is over its capacity, and whoever found room for a lidar is its only producer and still has it. */
  predicate Fits(s: State, owner: seq<nat>)
    requires s.Shaped()
  {
    && |owner| == |s.queues|
    && (forall i :: 0 <= i < |s.queues| ==> |s.queues[i]| <= s.capacity[i])
    && (forall p :: 0 <= p < |s.producers| && s.producers[p].Storing? && s.producers[p].lidar < |owner| ==>
          owner[s.producers[p].lidar] == p && |s.queues[s.producers[p].lidar]| < s.capacity[s.producers[p].lidar])
  }

  predicate Owned(events: seq<Event>, owner: seq<nat>) {
    forall k :: 0 <= k < |events| && events[k].Push? && events[k].lidar < |owner| ==>
        owner[events[k].lidar] == events[k].p
  }

  lemma StepFits(s: State, e: Event, owner: seq<nat>)
    requires s.Shaped() && Fits(s, owner) && Owned([e], owner)
    ensures Fits(Next(s, e), owner)
  {
    var s' := Next(s, e);
    assert [e][0] == e;
    forall i | 0 <= i < |s.queues| ensures |s'.queues[i]| <= s.capacity[i] {
      assert |s.queues[i]| <= s.capacity[i];
    }
    forall p | 0 <= p < |s.producers| && s'.producers[p].Storing? && s'.producers[p].lidar < |owner|
      ensures var i := s'.producers[p].lidar; owner[i] == p && |s'.queues[i]| < s.capacity[i]
    {
      if s.producers[p].Storing? {
        assert owner[s.producers[p].lidar] == p;
      }
    }
  }

  /** Testing for a full queue and storing are separate steps, yet with one producer for each lidar none overflows. */
  lemma {:induction false} NoOverrun(s: State, events: seq<Event>, owner: seq<nat>)
    requires s.Shaped() && Fits(s, owner) && Owned(events, owner)
    ensures Fits(Run(s, events), owner)
    decreases |events|
  {
    if events != [] {
      assert events[0] == [events[0]][0];
      StepFits(s, events[0], owner);
      NoOverrun(Next(s, events[0]), events[1..], owner);
    }
  }
}
