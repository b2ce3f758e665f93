// R2CPTransceiverQueue: one of its two queues (reception and transmission are alike).
// The lock protects each access, not the check before it, so producers and consumers
// interleave between check and push, and between count and pop.
module PacketQueue {
  import opened Bytes

  type Packet = seq<byte>

  const DEFAULT_MAX: uint32 := 16777216

  // ------------------------------------------------------ under the lock

  /** What the lock protects, and the maximum. */
  datatype Shared = Shared(queue: seq<Packet>, size: uint32, max: uint32)

  function Push(s: Shared, p: Packet): Shared {
    s.(queue := s.queue + [p], size := (s.size + |p| % TWO_32) % TWO_32)
  }

  function Pop(s: Shared): Shared
    requires s.queue != []
  {
    s.(queue := s.queue[1..], size := (s.size - |s.queue[0]| % TWO_32) % TWO_32)
  }

  /** The check before a push, in 32 bits. */
  predicate Admits(s: Shared, p: Packet) { (s.size + |p| % TWO_32) % TWO_32 <= s.max }

  function Total(q: seq<Packet>): nat
    decreases |q|
  {
    if q == [] then 0 else |q[0]| + Total(q[1..])
  }

  lemma {:induction false} TotalSnoc(q: seq<Packet>, p: Packet)
    ensures Total(q + [p]) == Total(q) + |p|
    decreases |q|
  {
    if q != [] {
      TotalSnoc(q[1..], p);
      assert (q + [p])[1..] == q[1..] + [p];
    } else {
      assert [p][1..] == [];
    }
  }

  /** The object; Push and Pop as its callers see them when nobody else comes between. */
  class TransceiverQueue {
    var queue: seq<Packet>
    var size: uint32
    var max: uint32

    function Value(): Shared reads this { Shared(queue, size, max) }

    /** The counter is the total of the queued lengths, modulo 2^32. */
    ghost predicate Valid() reads this { Counted(Value()) }

    constructor ()
      ensures Valid() && queue == [] && size == 0 && max == 16777216
    {
      queue, size, max := [], 0, DEFAULT_MAX;
    }

    /** getreceptionqueuesize */
    method GetSize() returns (n: uint32)
      requires Valid()
      ensures n == Total(queue) % TWO_32
    {
      n := size;
    }

    /** getreceptionqueuer2cppacketscount */
    method GetPacketsCount() returns (n: uint32)
      ensures n == |queue| % TWO_32
    {
      n := |queue| % TWO_32;
    }

    /** setmaxreceptionqueuesize */
    method SetMax(m: uint32)
      requires Valid()
      modifies this`max
      ensures Valid() && Value() == old(Value()).(max := m)
    {
      max := m;
    }

    /** The locked part of pushtoreceptionqueue. */
    method LockedPush(p: Packet)
      requires Valid()
      modifies this`queue, this`size
      ensures Valid() && Value() == Push(old(Value()), p)
    {
      PushCounts(Value(), p);
      queue := queue + [p];
      size := (size + |p| % TWO_32) % TWO_32;
    }

    /** The locked part of popfromreceptionqueue; false when at(0) throws. */
    method LockedPop() returns (ok: bool, p: Packet)
      requires Valid()
      modifies this`queue, this`size
      ensures Valid() && ok == (old(queue) != [])
      ensures if ok then p == old(queue)[0] && Value() == Pop(old(Value())) else p == [] && Value() == old(Value())
    {
      if |queue| == 0 {
        return false, [];
      }
      PopCounts(Value());
      p := queue[0];
      queue := queue[1..];
      size := (size - |p| % TWO_32) % TWO_32;
      ok := true;
    }

    /** pushtoreceptionqueue; false for the overflow error. */
    method PushPacket(p: Packet) returns (ok: bool)
      requires Valid()
      modifies this`queue, this`size
      ensures Valid() && ok == Admits(old(Value()), p)
      ensures Value() == if ok then Push(old(Value()), p) else old(Value())
    {
      var n := GetSize();
      if (n + |p| % TWO_32) % TWO_32 <= max {
        LockedPush(p);
        ok := true;
      } else {
        ok := false;
      }
    }

    /** popfromreceptionqueue; false for the underflow error. */
    method PopPacket() returns (ok: bool, p: Packet)
      requires Valid()
      modifies this`queue, this`size
      ensures Valid() && ok == (|old(queue)| % TWO_32 > 0)
      ensures if ok then p == old(queue)[0] && Value() == Pop(old(Value())) else p == [] && Value() == old(Value())
    {
      ok, p := false, [];
      var n := GetPacketsCount();
      if n > 0 {
        ok, p := LockedPop();
      }
    }
  }

  predicate Counted(s: Shared) { s.size == Total(s.queue) % TWO_32 }

  lemma PushCounts(s: Shared, p: Packet)
    requires Counted(s)
    ensures Counted(Push(s, p))
  {
    TotalSnoc(s.queue, p);
    SumWraps(Total(s.queue), |p|);
  }

  lemma PopCounts(s: Shared)
    requires Counted(s) && s.queue != []
    ensures Counted(Pop(s))
  {
    DifferenceWraps(Total(s.queue), |s.queue[0]|);
  }

  lemma SumWraps(a: nat, b: nat)
    ensures (a % TWO_32 + b % TWO_32) % TWO_32 == (a + b) % TWO_32
  {
  }

  lemma DifferenceWraps(a: nat, b: nat)
    ensures (a % TWO_32 - b % TWO_32) % TWO_32 == (a - b) % TWO_32
  {
  }

  // ------------------------------------------------------------- threads

  /** What a thread of one kind has done since it last held no promise: a producer has
      passed the check with a packet, a consumer has seen a non-empty queue. */
  datatype Producer = Resting | Admitted(packet: Packet)

  /** Any number of threads. pushed and popped are the packets that went through, and
      emptyPops counts the pops that found nothing. */
  datatype System = System(
    shared: Shared,
    producers: seq<Producer>,
    consumers: seq<bool>,
    pushed: seq<Packet>,
    popped: seq<Packet>,
    emptyPops: nat)

  datatype Event =
    | Check(thread: nat, packet: Packet)
    | Append(thread: nat)
    | Count(thread: nat)
    | Take(thread: nat)
    | SetMaximum(max: uint32)

  function Start(producers: nat, consumers: nat, max: uint32): System {
    System(Shared([], 0, max), seq(producers, _ => Resting), seq(consumers, _ => false), [], [], 0)
  }

  predicate Enabled(s: System, e: Event) {
    match e
    case Check(t, p) => t < |s.producers| && s.producers[t] == Resting
    case Append(t) => t < |s.producers| && s.producers[t].Admitted?
    case Count(t) => t < |s.consumers| && !s.consumers[t]
    case Take(t) => t < |s.consumers| && s.consumers[t]
    case SetMaximum(_) => true
  }

  function Step(s: System, e: Event): System
    requires Enabled(s, e)
  {
    match e
    case Check(t, p) =>
      if Admits(s.shared, p) then s.(producers := s.producers[t := Admitted(p)]) else s
    case Append(t) =>
      var p := s.producers[t].packet;
      s.(shared := Push(s.shared, p), producers := s.producers[t := Resting], pushed := s.pushed + [p])
    case Count(t) =>
      if |s.shared.queue| % TWO_32 > 0 then s.(consumers := s.consumers[t := true]) else s
    case Take(t) =>
      var next := s.(consumers := s.consumers[t := false]);
      if s.shared.queue == [] then next.(emptyPops := s.emptyPops + 1)
      else next.(shared := Pop(s.shared), popped := s.popped + [s.shared.queue[0]])
    case SetMaximum(m) => s.(shared := s.shared.(max := m))
  }

  /** A run: each state follows from the one before. */
  ghost predicate IsRun(states: seq<System>, events: seq<Event>) {
    && |states| == |events| + 1
    && forall i :: 0 <= i < |events| ==> Enabled(states[i], events[i]) && states[i + 1] == Step(states[i], events[i])
  }

  // ---------------------------------------- whatever the number of threads

  predicate Inv(s: System) {
    Counted(s.shared) && s.pushed == s.popped + s.shared.queue
  }

  lemma StepKeepsInv(s: System, e: Event)
    requires Inv(s) && Enabled(s, e)
    ensures Inv(Step(s, e))
    ensures s.popped <= Step(s, e).popped && s.pushed <= Step(s, e).pushed
  {
    hide Counted, Push, Pop;
    match e
    case Append(t) =>
      PushCounts(s.shared, s.producers[t].packet);
      PushKeeps(s.shared, s.producers[t].packet);
    case Take(t) =>
      if s.shared.queue != [] {
        PopCounts(s.shared);
        PopKeeps(s.shared);
      }
    case SetMaximum(m) =>
      SameCount(s.shared, m);
    case _ =>
  }

  lemma SameCount(s: Shared, m: uint32)
    ensures Counted(s.(max := m)) == Counted(s)
  {
  }

  lemma PushKeeps(s: Shared, p: Packet)
    ensures Push(s, p).queue == s.queue + [p] && Push(s, p).max == s.max
  {
  }

  lemma PopKeeps(s: Shared)
    requires s.queue != []
    ensures Pop(s).max == s.max && Pop(s).queue == s.queue[1..] && s.queue == [s.queue[0]] + Pop(s).queue
  {
  }

  /** In every run the counter is the total length of what is queued, modulo 2^32, and
      what was popped is a prefix of what was pushed, the queue being the rest. */
  lemma {:induction false} Conservation(states: seq<System>, events: seq<Event>, producers: nat, consumers: nat,
                                        max: uint32, i: nat)
    requires IsRun(states, events) && states[0] == Start(producers, consumers, max) && i < |states|
    ensures states[i].shared.size == Total(states[i].shared.queue) % TWO_32
    ensures states[i].pushed == states[i].popped + states[i].shared.queue
    ensures Inv(states[i])
    decreases i
  {
    hide Step, Enabled;
    if i > 0 {
      Conservation(states, events, producers, consumers, max, i - 1);
      StepKeepsInv(states[i - 1], events[i - 1]);
    }
  }

  // ------------------------------------------------- one consumer at most

  predicate OneConsumer(s: System) {
    && |s.consumers| <= 1 && s.emptyPops == 0
    && (|s.consumers| == 1 && s.consumers[0] ==> s.shared.queue != [])
  }

  /** With one consumer, however many producers, no pop ever finds the queue empty. */
  lemma {:induction false} NoEmptyPop(states: seq<System>, events: seq<Event>, producers: nat, consumers: nat,
                                      max: uint32, i: nat)
    requires IsRun(states, events) && states[0] == Start(producers, consumers, max) && i < |states| && consumers <= 1
    ensures OneConsumer(states[i])
    decreases i
  {
    hide Push, Pop, Admits;
    if i > 0 {
      NoEmptyPop(states, events, producers, consumers, max, i - 1);
      var s, e := states[i - 1], events[i - 1];
      if e.Append? {
        PushKeeps(s.shared, s.producers[e.thread].packet);
      }
    }
  }

  predicate Unused(s: System) {
    && s.producers == [] && s.shared.queue == [] && s.emptyPops == 0
    && forall t :: 0 <= t < |s.consumers| ==> !s.consumers[t]
  }

  lemma {:induction false} NothingProduced(states: seq<System>, events: seq<Event>, consumers: nat, max: uint32, i: nat)
    requires IsRun(states, events) && states[0] == Start(0, consumers, max) && i < |states|
    ensures Unused(states[i])
    decreases i
  {
    if i > 0 {
      NothingProduced(states, events, consumers, max, i - 1);
    }
  }

  // ------------------------------------------------- one producer at most

  /** The length of the packet that the only producer is about to append. */
  function Promised(s: System): nat {
    if |s.producers| == 1 && s.producers[0].Admitted? then |s.producers[0].packet| else 0
  }

  /** Its promise still holds: consumers only make room. */
  ghost predicate OneProducer(s: System, bound: nat) {
    && |s.producers| <= 1 && s.shared.max <= bound && Counted(s.shared)
    && Total(s.shared.queue) + Promised(s) <= bound
  }

  /** No packet is so long that its addition to the counter wraps. */
  predicate Fits(e: Event, bound: nat) {
    match e
    case Check(_, p) => |p| + bound < TWO_32
    case SetMaximum(m) => m <= bound
    case _ => true
  }

  lemma AdmitsExactly(s: Shared, p: Packet, bound: nat)
    requires Counted(s) && Total(s.queue) <= bound && |p| + bound < TWO_32
    ensures Admits(s, p) <==> Total(s.queue) + |p| <= s.max
  {
  }

  lemma PopTotal(s: Shared)
    requires s.queue != []
    ensures Total(Pop(s).queue) == Total(s.queue) - |s.queue[0]|
  {
  }

  lemma StepKeepsOneProducer(s: System, e: Event, bound: nat)
    requires OneProducer(s, bound) && Enabled(s, e) && Fits(e, bound)
    ensures OneProducer(Step(s, e), bound)
  {
    hide Counted, Push, Pop, Admits, Total;
    match e
    case Check(t, p) => AdmitsExactly(s.shared, p, bound);
    case Append(t) =>
      var p := s.producers[t].packet;
      PushCounts(s.shared, p);
      PushKeeps(s.shared, p);
      TotalSnoc(s.shared.queue, p);
    case Take(t) =>
      if s.shared.queue != [] {
        PopCounts(s.shared);
        PopKeeps(s.shared);
        PopTotal(s.shared);
      }
    case SetMaximum(m) => SameCount(s.shared, m);
    case _ =>
  }

  predicate AllFit(events: seq<Event>, bound: nat) {
    forall j :: 0 <= j < |events| ==> Fits(events[j], bound)
  }

  /** With one producer, however many consumers, the counter is the total length exactly
      and never exceeds the greatest maximum, if no addition wraps. */
  lemma {:induction false} Bounded(states: seq<System>, events: seq<Event>, producers: nat, consumers: nat, max: uint32,
                                   bound: nat, i: nat)
    requires IsRun(states, events) && states[0] == Start(producers, consumers, max) && i < |states| && producers <= 1
    requires max <= bound < TWO_32 && AllFit(events, bound)
    ensures states[i].shared.size == Total(states[i].shared.queue) <= bound
    ensures OneProducer(states[i], bound)
    decreases i
  {
    hide Step, Enabled, Fits;
    if i > 0 {
      Bounded(states, events, producers, consumers, max, bound, i - 1);
      StepKeepsOneProducer(states[i - 1], events[i - 1], bound);
    }
  }

  /** Nothing but empty packets; so it is when the maximum is the least or the greatest. */
  ghost predicate OnlyEmpty(s: System, bound: nat) {
    && s.shared.max <= bound && Counted(s.shared) && Total(s.shared.queue) == 0
    && forall t :: 0 <= t < |s.producers| && s.producers[t].Admitted? ==> s.producers[t].packet == []
  }

  lemma StepKeepsOnlyEmpty(s: System, e: Event, bound: nat)
    requires OnlyEmpty(s, bound) && Enabled(s, e) && Fits(e, bound) && bound in {0, TWO_32 - 1}
    ensures OnlyEmpty(Step(s, e), bound)
  {
    hide Counted, Push, Pop, Admits, Total;
    match e
    case Check(t, p) => AdmitsExactly(s.shared, p, bound);
    case Append(t) =>
      var p := s.producers[t].packet;
      PushCounts(s.shared, p);
      PushKeeps(s.shared, p);
      TotalSnoc(s.shared.queue, p);
    case Take(t) =>
      if s.shared.queue != [] {
        PopCounts(s.shared);
        PopKeeps(s.shared);
        PopTotal(s.shared);
      }
    case SetMaximum(m) => SameCount(s.shared, m);
    case _ =>
  }

  lemma {:induction false} OnlyEmptyRun(states: seq<System>, events: seq<Event>, producers: nat, consumers: nat,
                                        max: uint32, i: nat)
    requires IsRun(states, events) && states[0] == Start(producers, consumers, max) && i < |states|
    requires max in {0, TWO_32 - 1} && AllFit(events, max)
    ensures OnlyEmpty(states[i], max)
    decreases i
  {
    hide Step, Enabled, Fits;
    if i > 0 {
      OnlyEmptyRun(states, events, producers, consumers, max, i - 1);
      StepKeepsOnlyEmpty(states[i - 1], events[i - 1], max);
    }
  }

  // ------------------------------------- exactly how many threads are safe

  ghost predicate RunFrom(states: seq<System>, events: seq<Event>, producers: nat, consumers: nat, max: uint32) {
    IsRun(states, events) && states[0] == Start(producers, consumers, max)
  }

  lemma RunBegins(producers: nat, consumers: nat, max: uint32)
    ensures RunFrom([Start(producers, consumers, max)], [], producers, consumers, max)
  {
  }

  lemma RunLength(states: seq<System>, events: seq<Event>, producers: nat, consumers: nat, max: uint32)
    requires RunFrom(states, events, producers, consumers, max)
    ensures |states| == |events| + 1
  {
  }

  /** One more step of a run. */
  lemma RunExtended(states: seq<System>, events: seq<Event>, producers: nat, consumers: nat, max: uint32, e: Event)
      returns (more: seq<System>, longer: seq<Event>)
    requires RunFrom(states, events, producers, consumers, max) && Enabled(states[|events|], e)
    ensures RunFrom(more, longer, producers, consumers, max) && longer == events + [e] && |longer| < |more|
    ensures more[|longer|] == Step(states[|events|], e)
  {
    hide Step, Enabled;
    more, longer := states + [Step(states[|events|], e)], events + [e];
  }

  /** No pop ever finds the queue empty. */
  ghost predicate NeverEmptyPops(producers: nat, consumers: nat, max: uint32) {
    forall states: seq<System>, events: seq<Event>, i: nat ::
      RunFrom(states, events, producers, consumers, max) && i < |states| ==> states[i].emptyPops == 0
  }

  /** It is so exactly with one consumer at most, unless nothing is ever pushed. */
  lemma NeverEmptyPopsIff(producers: nat, consumers: nat, max: uint32)
    ensures NeverEmptyPops(producers, consumers, max) <==> producers == 0 || consumers <= 1
  {
    hide IsRun, Start;
    if producers == 0 || consumers <= 1 {
      forall states: seq<System>, events: seq<Event>, i: nat
        | RunFrom(states, events, producers, consumers, max) && i < |states|
        ensures states[i].emptyPops == 0
      {
        if producers == 0 {
          NothingProduced(states, events, consumers, max, i);
        } else {
          NoEmptyPop(states, events, producers, consumers, max, i);
        }
      }
    } else {
      var states, events := TwoConsumersCollide(producers, consumers, max);
      assert states[|events|].emptyPops == 1;
    }
  }

  /** Two of the consumers both see the one packet, and the second pop finds nothing. */
  lemma TwoConsumersCollide(producers: nat, consumers: nat, max: uint32)
      returns (states: seq<System>, events: seq<Event>)
    requires producers >= 1 && consumers >= 2
    ensures RunFrom(states, events, producers, consumers, max) && |events| < |states|
    ensures states[|events|].emptyPops == 1
  {
    hide IsRun;
    RunBegins(producers, consumers, max);
    states, events := [Start(producers, consumers, max)], [];
    states, events := RunExtended(states, events, producers, consumers, max, Check(0, []));
    states, events := RunExtended(states, events, producers, consumers, max, Append(0));
    ghost var queued := states[|events|];
    assert |queued.shared.queue| == 1 && queued.emptyPops == 0 && queued.consumers == seq(consumers, _ => false);
    hide Push, Admits, Start;
    states, events := RunExtended(states, events, producers, consumers, max, Count(0));
    states, events := RunExtended(states, events, producers, consumers, max, Count(1));
    states, events := RunExtended(states, events, producers, consumers, max, Take(0));
    states, events := RunExtended(states, events, producers, consumers, max, Take(1));
  }

  /** The counter is exact and within the maximum, if no addition wraps. */
  ghost predicate KeepsMaximum(producers: nat, consumers: nat, max: uint32) {
    forall states: seq<System>, events: seq<Event>, i: nat ::
      RunFrom(states, events, producers, consumers, max) && AllFit(events, max) && i < |states| ==>
        states[i].shared.size == Total(states[i].shared.queue) <= max
  }

  /** It is so exactly with one producer at most, unless only empty packets can pass. */
  lemma KeepsMaximumIff(producers: nat, consumers: nat, max: uint32)
    ensures KeepsMaximum(producers, consumers, max) <==> producers <= 1 || max in {0, TWO_32 - 1}
  {
    hide IsRun, Start, AllFit, Total;
    if producers <= 1 || max in {0, TWO_32 - 1} {
      forall states: seq<System>, events: seq<Event>, i: nat
        | RunFrom(states, events, producers, consumers, max) && AllFit(events, max) && i < |states|
        ensures states[i].shared.size == Total(states[i].shared.queue) <= max
      {
        if producers <= 1 {
          Bounded(states, events, producers, consumers, max, max, i);
        } else {
          OnlyEmptyRun(states, events, producers, consumers, max, i);
        }
      }
    } else {
      var states, events := TwoProducersOverrun(producers, consumers, max);
      assert states[|events|].shared.size == max + 1;
    }
  }

  /** One producer has filled the queue with k packets of one byte, and all rest. */
  ghost predicate Filled(s: System, producers: nat, k: nat, max: uint32) {
    s.producers == seq(producers, _ => Resting) && s.shared.size == k && s.shared.max == max
  }

  lemma {:induction false} Fill(producers: nat, consumers: nat, max: uint32, k: nat)
      returns (states: seq<System>, events: seq<Event>)
    requires producers >= 1 && k <= max < TWO_32 - 1
    ensures RunFrom(states, events, producers, consumers, max) && AllFit(events, max)
    ensures Filled(states[|events|], producers, k, max)
    decreases k
  {
    hide IsRun;
    RunBegins(producers, consumers, max);
    if k == 0 {
      states, events := [Start(producers, consumers, max)], [];
    } else {
      states, events := Fill(producers, consumers, max, k - 1);
      states, events := RunExtended(states, events, producers, consumers, max, Check(0, [0]));
      states, events := RunExtended(states, events, producers, consumers, max, Append(0));
    }
  }

  /** Two of the producers both pass the check that only one of them should. */
  lemma TwoProducersOverrun(producers: nat, consumers: nat, max: uint32)
      returns (states: seq<System>, events: seq<Event>)
    requires producers >= 2 && 0 < max < TWO_32 - 1
    ensures RunFrom(states, events, producers, consumers, max) && AllFit(events, max) && |events| < |states|
    ensures states[|events|].shared.size == max + 1
  {
    hide IsRun;
    states, events := Fill(producers, consumers, max, max - 1);
    states, events := RunExtended(states, events, producers, consumers, max, Check(0, [0]));
    states, events := RunExtended(states, events, producers, consumers, max, Check(1, [0]));
    states, events := RunExtended(states, events, producers, consumers, max, Append(0));
    states, events := RunExtended(states, events, producers, consumers, max, Append(1));
  }

  /** In four steps the counter reaches twice the maximum. */
  lemma CounterDoubles(producers: nat, consumers: nat, max: uint32) returns (states: seq<System>, events: seq<Event>)
    requires producers >= 2 && 0 < max && 2 * max < TWO_32
    ensures RunFrom(states, events, producers, consumers, max) && AllFit(events, max) && |events| < |states|
    ensures states[|events|].shared.size == 2 * max
  {
    hide IsRun;
    var p := Zeros(max);
    RunBegins(producers, consumers, max);
    states, events := [Start(producers, consumers, max)], [];
    states, events := RunExtended(states, events, producers, consumers, max, Check(0, p));
    states, events := RunExtended(states, events, producers, consumers, max, Check(1, p));
    states, events := RunExtended(states, events, producers, consumers, max, Append(0));
    states, events := RunExtended(states, events, producers, consumers, max, Append(1));
  }

  /** A long packet: the sum wraps and the check lets it in, exactly in this case. */
  lemma AdmittedBeyondMaximum(s: Shared, p: Packet)
    requires Counted(s) && Total(s.queue) < TWO_32 && |p| < TWO_32
    ensures Admits(s, p) && Total(s.queue) + |p| > s.max <==>
            TWO_32 <= Total(s.queue) + |p| <= TWO_32 + s.max
  {
  }

  /** Such a packet: one byte queued, and one of 2^32 - 1 bytes is let in. */
  lemma LongPacketAdmitted() returns (s: Shared, p: Packet)
    ensures Counted(s) && s.max == DEFAULT_MAX && Total(s.queue) == 1 && |p| == TWO_32 - 1 && Admits(s, p)
  {
    s, p := Push(Shared([], 0, DEFAULT_MAX), [7]), Zeros(TWO_32 - 1);
    TotalSnoc([], [7]);
  }

  // --------------------------------------- one producer whose packets all fit

  /** The packets of the checks, in order. */
  function Checks(events: seq<Event>): seq<Packet>
    decreases |events|
  {
    if events == [] then []
    else
      var n := |events| - 1;
      Checks(events[..n]) + if events[n].Check? then [events[n].packet] else []
  }

  /** No new maximum is below the total. */
  predicate MaximaAtLeast(events: seq<Event>, total: nat) {
    forall j :: 0 <= j < |events| && events[j].SetMaximum? ==> total <= events[j].max
  }

  lemma {:induction false} TotalConcat(a: seq<Packet>, b: seq<Packet>)
    ensures Total(a + b) == Total(a) + Total(b)
    decreases |b|
  {
    if b == [] {
      assert a + b == a;
    } else {
      var n := |b| - 1;
      TotalConcat(a, b[..n]);
      TotalSnoc(a + b[..n], b[n]);
      TotalSnoc(b[..n], b[n]);
      assert a + b == a + b[..n] + [b[n]] && b == b[..n] + [b[n]];
    }
  }

  lemma {:induction false} ChecksPrefix(events: seq<Event>, i: nat)
    requires i <= |events|
    ensures Checks(events[..i]) <= Checks(events) && Total(Checks(events[..i])) <= Total(Checks(events))
    decreases |events|
  {
    var n := |events| - 1;
    if i <= n {
      ChecksPrefix(events[..n], i);
      assert events[..n][..i] == events[..i];
      TotalConcat(Checks(events[..n]), if events[n].Check? then [events[n].packet] else []);
    } else {
      assert events[..i] == events;
    }
  }

  lemma ChecksSnoc(events: seq<Event>, i: nat)
    requires i < |events|
    ensures Checks(events[..i + 1]) == Checks(events[..i]) + if events[i].Check? then [events[i].packet] else []
  {
    assert events[..i + 1][..i] == events[..i];
  }

  /** The packet that the producer is about to append. */
  function Waiting(s: System): seq<Packet> {
    if |s.producers| == 1 && s.producers[0].Admitted? then [s.producers[0].packet] else []
  }

  /** Everything checked so far is pushed or about to be. */
  ghost predicate NothingRefused(s: System, checked: seq<Packet>, total: nat) {
    && |s.producers| == 1 && total <= s.shared.max && Inv(s)
    && s.pushed + Waiting(s) == checked
  }

  lemma StepRefusesNothing(s: System, e: Event, checked: seq<Packet>, total: nat)
    requires NothingRefused(s, checked, total) && Enabled(s, e) && (e.SetMaximum? ==> total <= e.max)
    requires Total(checked) + (if e.Check? then |e.packet| else 0) <= total
    ensures NothingRefused(Step(s, e), checked + if e.Check? then [e.packet] else [], total)
  {
    hide Push, Pop, Admits, Total, Counted, Inv;
    StepKeepsInv(s, e);
    assert checked + [] == checked;
    match e
    case Check(t, p) =>
      assert s.pushed + [] == s.pushed;
      Room(s, p, total);
    case Append(t) =>
      PushKeeps(s.shared, s.producers[t].packet);
      assert s.pushed + [s.producers[t].packet] + [] == s.pushed + [s.producers[t].packet];
    case Take(t) =>
      if s.shared.queue != [] {
        PopKeeps(s.shared);
      }
    case _ =>
  }

  /** A packet for which there is room is admitted. */
  lemma Room(s: System, p: Packet, total: nat)
    requires Inv(s) && Total(s.pushed) + |p| <= total <= s.shared.max
    ensures Admits(s.shared, p)
  {
    hide Admits;
    TotalConcat(s.popped, s.shared.queue);
    AdmitsExactly(s.shared, p, Total(s.shared.queue));
  }

  /** With one producer and a maximum that all its packets fit, none is refused, in any
      interleaving with any number of consumers. */
  lemma {:induction false} AllPushed(states: seq<System>, events: seq<Event>, consumers: nat, max: uint32,
                                     total: nat, i: nat)
    requires RunFrom(states, events, 1, consumers, max) && i < |states|
    requires Total(Checks(events)) <= total <= max && MaximaAtLeast(events, total)
    ensures NothingRefused(states[i], Checks(events[..i]), total)
    decreases i
  {
    hide Step, Enabled, Total, NothingRefused;
    if i == 0 {
      StartRefusesNothing(consumers, max, total);
      assert events[..0] == [];
    } else {
      var s, e := states[i - 1], events[i - 1];
      AllPushed(states, events, consumers, max, total, i - 1);
      ChecksSnoc(events, i - 1);
      ChecksPrefix(events, i);
      TotalConcat(Checks(events[..i - 1]), if e.Check? then [e.packet] else []);
      OneTotal(if e.Check? then e.packet else []);
      StepRefusesNothing(s, e, Checks(events[..i - 1]), total);
    }
  }

  lemma StartRefusesNothing(consumers: nat, max: uint32, total: nat)
    requires total <= max
    ensures NothingRefused(Start(1, consumers, max), [], total)
  {
  }

  lemma OneTotal(p: Packet)
    ensures Total([p]) == |p| && Total([]) == 0
  {
    assert [p][1..] == [];
  }
}
