/**
 The device-list hand-off between the manager and a ListAndWatch stream (plugin.go:125-144,
 181-201): a channel with one slot in which a newer list replaces an older one.  Each step below
 is one atomic action of the producer, of a stream, or of the transport; a run is any interleaving.
 */
module Handoff {
  import opened Ordering

  type DeviceList = seq<int>

  /** Where UpdateDevices stands: idle; the new list stored and about to be offered; the slot found
      full and about to be drained; about to make the final, unconditional send. */
  datatype Producer = Idle | Offering(list: DeviceList) | Draining(list: DeviceList) | Sending(list: DeviceList)

  /** Where ListAndWatch stands: no stream; about to read the stored list; sending a list; waiting. */
  datatype Stream = Absent | Starting | Delivering(list: DeviceList) | Waiting(last: DeviceList)

  /** stored is p.devices, slot is updateCh. */
  datatype State = State(stored: DeviceList, slot: Option<DeviceList>, producer: Producer, stream: Stream)

  datatype Event =
    | Store(list: DeviceList)   // UpdateDevices: p.devices = devices, under the mutex
    | Offer                     // select: send if the slot is free, otherwise go on to drain
    | Drain                     // select: take the old list if it is still there
    | Send                      // p.updateCh <- current
    | Connect                   // a stream starts
    | ReadStored                // its first list is the stored one
    | Delivered                 // stream.Send succeeds
    | Receive                   // the stream takes the list in the slot
    | Disconnect                // the stream ends: stopped, cancelled or failed

  ghost predicate Init(s: State) {
    s.slot.None? && s.producer.Idle? && s.stream.Absent?
  }

  ghost predicate Step(s: State, e: Event, t: State) {
    match e
    case Store(list) =>
      s.producer.Idle? && t == s.(stored := list, producer := Offering(list))
    case Offer =>
      s.producer.Offering? &&
      t == if s.slot.None? then s.(slot := Some(s.producer.list), producer := Idle)
           else s.(producer := Draining(s.producer.list))
    case Drain =>
      s.producer.Draining? && t == s.(slot := None, producer := Sending(s.producer.list))
    case Send =>
      s.producer.Sending? && s.slot.None? && t == s.(slot := Some(s.producer.list), producer := Idle)
    case Connect =>
      s.stream.Absent? && t == s.(stream := Starting)
    case ReadStored =>
      s.stream.Starting? && t == s.(stream := Delivering(s.stored))
    case Delivered =>
      s.stream.Delivering? && t == s.(stream := Waiting(s.stream.list))
    case Receive =>
      s.stream.Waiting? && s.slot.Some? && t == s.(slot := None, stream := Delivering(s.slot.value))
    case Disconnect =>
      !s.stream.Absent? && t == s.(stream := Absent)
  }

  ghost predicate Run(states: seq<State>, events: seq<Event>) {
    && |states| == |events| + 1 && Init(states[0])
    && forall i | 0 <= i < |events| :: Step(states[i], events[i], states[i + 1])
  }

  /** The list a stream has sent or is sending. */
  ghost predicate Holds(stream: Stream, list: DeviceList) {
    (stream.Delivering? && stream.list == list) || (stream.Waiting? && stream.last == list)
  }

  /** With the producer idle the slot holds nothing but the stored list, and a stream with nothing
      left to receive holds it too; a producer that is not idle carries the stored list. */
  ghost predicate Inv(s: State) {
    && (!s.producer.Idle? ==> s.producer.list == s.stored)
    && (s.producer.Sending? ==> s.slot.None?)
    && (s.producer.Idle? && s.slot.Some? ==> s.slot.value == s.stored)
    && (s.producer.Idle? && s.slot.None? ==> s.stream.Absent? || s.stream.Starting? || Holds(s.stream, s.stored))
  }

  lemma StepKeepsInv(s: State, e: Event, t: State)
    requires Inv(s) && Step(s, e, t)
    ensures Inv(t)
  {}

  lemma {:induction false} RunKeepsInv(states: seq<State>, events: seq<Event>, k: nat)
    requires Run(states, events) && k < |states|
    ensures Inv(states[k])
  {
    if k > 0 {
      RunKeepsInv(states, events, k - 1);
      assert Step(states[k - 1], events[k - 1], states[k - 1 + 1]);
    }
  }

  /** The final send never blocks, at any moment of any run. */
  lemma SendNeverBlocks(states: seq<State>, events: seq<Event>, k: nat)
    requires Run(states, events) && k < |states|
    ensures !(states[k].producer.Sending? && states[k].slot.Some?)
  {
    RunKeepsInv(states, events, k);
  }

  ghost predicate Quiet(s: State) {
    s.producer.Idle? && s.slot.None? && s.stream.Waiting?
  }

  /** Whenever the producer is idle, the slot empty and no send in flight, the list last sent is the
      stored one. */
  lemma QuietMeansCurrent(states: seq<State>, events: seq<Event>, k: nat)
    requires Run(states, events) && k < |states| && Quiet(states[k])
    ensures states[k].stream.last == states[k].stored
  {
    RunKeepsInv(states, events, k);
  }

  /** The stored list is the one the manager handed over last. */
  lemma {:induction false} StoredIsGiven(states: seq<State>, events: seq<Event>, i: nat, k: nat, list: DeviceList)
    requires Run(states, events) && i < k <= |events|
    requires events[i] == Store(list) && forall j | i < j < k :: !events[j].Store?
    ensures states[k].stored == list
    ensures Quiet(states[k]) ==> states[k].stream.last == list
  {
    assert Step(states[k - 1], events[k - 1], states[k - 1 + 1]);
    if k > i + 1 { StoredIsGiven(states, events, i, k - 1, list); }
    if Quiet(states[k]) { QuietMeansCurrent(states, events, k); }
  }

  /** A bound on the steps left until the hand-off is quiet. */
  ghost function Pending(s: State): nat {
    (match s.producer case Idle => 0 case Offering(_) => 9 case Draining(_) => 6 case Sending(_) => 5) +
    (if s.slot.Some? then 2 else 0) +
    (match s.stream case Absent => 0 case Starting => 2 case Delivering(_) => 1 case Waiting(_) => 0)
  }

  /** A step that starts nothing: no new list, no stream coming or going. */
  predicate Finishes(e: Event) {
    !e.Store? && !e.Connect? && !e.Disconnect?
  }

  ghost predicate Continues(states: seq<State>, events: seq<Event>) {
    && |states| == |events| + 1
    && forall i | 0 <= i < |events| :: Step(states[i], events[i], states[i + 1]) && Finishes(events[i])
  }

  /** No step can finish anything more. */
  ghost predicate Settled(s: State) {
    forall e, t | Step(s, e, t) :: !Finishes(e)
  }

  lemma FinishingStep(s: State, e: Event, t: State)
    requires Step(s, e, t) && Finishes(e)
    ensures Pending(t) < Pending(s) && t.stored == s.stored
    ensures !s.stream.Absent? ==> !t.stream.Absent?
  {}

  /** A live hand-off that is not quiet has a step to take: neither side waits for the other. */
  lemma NeverStuck(s: State)
    requires Inv(s) && !s.stream.Absent?
    ensures Settled(s) <==> Quiet(s)
  {
    if Settled(s) {
      var offered := if s.slot.None? && s.producer.Offering? then s.(slot := Some(s.producer.list), producer := Idle)
                     else if s.producer.Offering? then s.(producer := Draining(s.producer.list)) else s;
      assert s.producer.Offering? ==> Step(s, Offer, offered);
      assert s.producer.Draining? ==> Step(s, Drain, s.(slot := None, producer := Sending(s.producer.list)));
      assert s.producer.Sending? ==> Step(s, Send, s.(slot := Some(s.producer.list), producer := Idle));
      assert s.stream.Starting? ==> Step(s, ReadStored, s.(stream := Delivering(s.stored)));
      assert s.stream.Delivering? ==> Step(s, Delivered, s.(stream := Waiting(s.stream.list)));
      assert s.stream.Waiting? && s.slot.Some? ==>
        Step(s, Receive, s.(slot := None, stream := Delivering(s.slot.value)));
    }
  }

  /** However the steps interleave, a store is followed by a bounded number of finishing steps, and
      when they run out the list last sent is the stored one. */
  lemma {:induction false} EveryContinuationSettles(states: seq<State>, events: seq<Event>)
    requires Continues(states, events) && Inv(states[0]) && !states[0].stream.Absent?
    ensures |events| + Pending(states[|events|]) <= Pending(states[0]) <= 13
    ensures states[|events|].stored == states[0].stored
    ensures Settled(states[|events|]) ==> states[|events|].stream == Waiting(states[0].stored)
    decreases |events|
  {
    if |events| == 0 {
      NeverStuck(states[0]);
    } else {
      assert Step(states[0], events[0], states[0 + 1]) && Finishes(events[0]);
      FinishingStep(states[0], events[0], states[1]);
      StepKeepsInv(states[0], events[0], states[1]);
      forall i | 0 <= i < |events[1..]|
        ensures Step(states[1..][i], events[1..][i], states[1..][i + 1]) && Finishes(events[1..][i])
      {
        assert Step(states[i + 1], events[i + 1], states[i + 1 + 1]);
      }
      EveryContinuationSettles(states[1..], events[1..]);
    }
  }

  /** A stale list can be sent for a while: a stream that connects between the store and the offer
      of a second list sends that list first and then the older one left in the slot. */
  lemma StaleListCanBeSent(old': DeviceList, new': DeviceList) returns (states: seq<State>, events: seq<Event>)
    requires old' != new'
    ensures Run(states, events)
    ensures states[|events|].stored == new' && states[|events|].stream == Waiting(old')
  {
    var s0 := State(old', None, Idle, Absent);
    var s1 := s0.(producer := Offering(old'));
    var s2 := s1.(slot := Some(old'), producer := Idle);
    var s3 := s2.(stored := new', producer := Offering(new'));
    var s4 := s3.(stream := Starting);
    var s5 := s4.(stream := Delivering(new'));
    var s6 := s5.(stream := Waiting(new'));
    var s7 := s6.(slot := None, stream := Delivering(old'));
    var s8 := s7.(stream := Waiting(old'));
    states := [s0, s1, s2, s3, s4, s5, s6, s7, s8];
    events := [Store(old'), Offer, Store(new'), Connect, ReadStored, Delivered, Receive, Delivered];
    assert Step(s0, Store(old'), s1) && Step(s1, Offer, s2) && Step(s2, Store(new'), s3) && Step(s3, Connect, s4);
    assert Step(s4, ReadStored, s5) && Step(s5, Delivered, s6) && Step(s6, Receive, s7) && Step(s7, Delivered, s8);
    forall i | 0 <= i < |events| ensures Step(states[i], events[i], states[i + 1]) {}
  }
}
