/**
 * The ring of input events from the compositor to a client, as interleaved atomic steps of one producer and one
 * consumer. Both indices are 32-bit and run freely; `published`, `released` and `received` only record what happened.
 */
module EventRing {
  import opened Options
  import opened Powers

  const MAX_INPUT_EVENTS := 16

  /** Where PushEvent is. */
  datatype Producer<Event> =
    | Ready
    | WriteLoaded(ev: Event, w: nat)
    | BothLoaded(ev: Event, w: nat, r: nat)
    | EventWritten(ev: Event, w: nat)

  /** Where PollInput is: `r` is its local index, which it stores at the end of the loop. */
  datatype Consumer = Idle | EndLoaded(w: nat) | Reading(w: nat, r: nat)

  datatype State<Event> = State(
    // the shared slot
    writeIndex: nat, readIndex: nat, events: seq<Event>,
    producer: Producer<Event>, consumer: Consumer,
    // the record: all events accepted and made visible, how many of them the client has given back,
    // and the events the client has received; `until` is how many were visible when it began to read
    published: seq<Event>, released: nat, received: seq<Event>, until: nat)

  datatype Action<Event> =
    | LoadWrite(ev: Event) | LoadRead | WriteEvent | StoreWrite
    | LoadEnd | LoadOwn | ReadEvent | StoreRead

  function Start<Event>(events: seq<Event>): State<Event> {
    State(0, 0, events, Ready, Idle, [], 0, [], 0)
  }

  /** One atomic step, if it is possible. */
  function Step<Event>(s: State<Event>, a: Action<Event>): Option<State<Event>>
    requires |s.events| == MAX_INPUT_EVENTS
  {
    match a
    case LoadWrite(ev) =>
      if s.producer != Ready then None else Some(s.(producer := WriteLoaded(ev, s.writeIndex)))
    case LoadRead =>
      if !s.producer.WriteLoaded? then None
      else Some(s.(producer := BothLoaded(s.producer.ev, s.producer.w, s.readIndex)))
    case WriteEvent =>
      if !s.producer.BothLoaded? then None
      else
        var p := s.producer;
        if Wrap(p.w - p.r) >= MAX_INPUT_EVENTS then Some(s.(producer := Ready))
        else Some(s.(events := s.events[Place(p.w) := p.ev], producer := EventWritten(p.ev, p.w)))
    case StoreWrite =>
      if !s.producer.EventWritten? then None
      else
        Some(s.(writeIndex := Wrap(s.producer.w + 1), published := s.published + [s.producer.ev], producer := Ready))
    case LoadEnd =>
      if s.consumer != Idle then None
      else Some(s.(consumer := EndLoaded(s.writeIndex), until := |s.published|))
    case LoadOwn =>
      if !s.consumer.EndLoaded? then None
      else Some(s.(consumer := Reading(s.consumer.w, s.readIndex)))
    case ReadEvent =>
      if !s.consumer.Reading? || s.consumer.r == s.consumer.w then None
      else
        var c := s.consumer;
        Some(s.(received := s.received + [s.events[Place(c.r)]],
                consumer := Reading(c.w, Wrap(c.r + 1))))
    case StoreRead =>
      if !s.consumer.Reading? || s.consumer.r != s.consumer.w then None
      else Some(s.(readIndex := s.consumer.r, released := |s.received|, consumer := Idle))
  }

  predicate Shaped<Event>(s: State<Event>) { |s.events| == MAX_INPUT_EVENTS }

  function Run<Event>(events: seq<Event>, acts: seq<Action<Event>>): Option<State<Event>> {
    if acts == [] then Some(Start(events))
    else
      match Run(events, acts[..|acts| - 1])
      case None => None
      case Some(s) => if Shaped(s) then Step(s, acts[|acts| - 1]) else None
  }

  // ---- The invariant ----

  /** A 32-bit index. */
  function Wrap(i: int): nat { i % TWO32 }

  /** The place of an index in the ring. */
  function Place(i: nat): (p: nat)
    ensures p < MAX_INPUT_EVENTS
  {
    i % MAX_INPUT_EVENTS
  }

  /** The accepted events from number `r` on are in their places in the ring. */
  predicate InRing<Event(==)>(events: seq<Event>, published: seq<Event>, r: nat)
    requires |events| == MAX_INPUT_EVENTS
  {
    forall i: nat :: r <= i < |published| ==> events[Place(i)] == published[i]
  }

  predicate Inv<Event(==)>(s: State<Event>) {
    var w, r, c := |s.published|, s.released, |s.received|;
    && Shaped(s) && s.writeIndex == Wrap(w) && s.readIndex == Wrap(r)
    && r <= c <= w <= r + MAX_INPUT_EVENTS
    && InRing(s.events, s.published, r)
    && s.received <= s.published
    && ProducerInv(s) && ConsumerInv(s)
  }

  predicate ProducerInv<Event(==)>(s: State<Event>)
    requires Shaped(s)
  {
    var w, r := |s.published|, s.released;
    match s.producer
    case Ready => true
    case WriteLoaded(ev, w') => w' == Wrap(w)
    case BothLoaded(ev, w', r') =>
      && w' == Wrap(w)
      && (Wrap(w' - r') < MAX_INPUT_EVENTS ==> w < r + MAX_INPUT_EVENTS)
    case EventWritten(ev, w') =>
      && w' == Wrap(w) && w < r + MAX_INPUT_EVENTS
      && s.events[Place(w)] == ev
  }

  predicate ConsumerInv<Event(==)>(s: State<Event>) {
    var w, r, c := |s.published|, s.released, |s.received|;
    match s.consumer
    case Idle => c == r
    case EndLoaded(w') => c == r && r <= s.until <= w && w' == Wrap(s.until)
    case Reading(w', r') => c <= s.until <= w && w' == Wrap(s.until) && r' == Wrap(c)
  }

  lemma StartInv<Event>(events: seq<Event>)
    requires |events| == MAX_INPUT_EVENTS
    ensures Inv(Start(events))
  {
  }

  // ---- Indices that wrap ----

  /** The difference of two wrapped indices is the number of entries between them. */
  lemma Difference(w: nat, r: nat)
    requires r <= w <= r + MAX_INPUT_EVENTS
    ensures Wrap(Wrap(w) - Wrap(r)) == w - r
    ensures Wrap(w) == Wrap(r) <==> w == r
  {
  }

  /** An index counts up to 2^32 and then starts again. */
  lemma IndexIs(i: nat, k: nat)
    requires i < 0x1_0000_0000
    ensures Wrap(i + k * 0x1_0000_0000) == i
  {
    DivModIs(i + k * 0x1_0000_0000, 0x1_0000_0000, k, i);
  }

  lemma NextIndex(w: nat)
    ensures Wrap(Wrap(w) + 1) == Wrap(w + 1)
  {
  }

  /** The ring size divides 2^32, so that wrapping does not disturb the places. */
  lemma PlaceOfWrapped(w: nat)
    ensures Place(Wrap(w)) == Place(w)
  {
  }

  /** Sixteen entries in a row are in sixteen places. */
  lemma Apart(i: nat, w: nat)
    requires i < w < i + MAX_INPUT_EVENTS
    ensures Place(i) != Place(w)
  {
  }

  // ---- Every step keeps the invariant ----

  lemma LoadWriteInv<Event>(s: State<Event>, ev: Event)
    requires Inv(s) && Step(s, LoadWrite(ev)).Some?
    ensures Inv(Step(s, LoadWrite(ev)).value)
  {
    hide Wrap, Place, InRing;
  }

  lemma LoadReadInv<Event>(s: State<Event>)
    requires Inv(s) && Step(s, LoadRead).Some?
    ensures Inv(Step(s, LoadRead).value)
  {
    hide Wrap, Place, InRing;
    Difference(|s.published|, s.released);
  }

  /** An accepted event goes to a place that holds no unread entry. */
  lemma WriteEventInv<Event>(s: State<Event>)
    requires Inv(s) && Step(s, WriteEvent).Some?
    ensures Inv(Step(s, WriteEvent).value)
    ensures Step(s, WriteEvent).value.producer.EventWritten? ==>
      forall i: nat :: s.released <= i < |s.published| ==> Place(i) != Place(s.producer.w)
  {
    hide Wrap, Place;
    PlaceOfWrapped(|s.published|);
    forall i: nat | s.released <= i < |s.published| < s.released + MAX_INPUT_EVENTS
      ensures Place(i) != Place(|s.published|)
    {
      Apart(i, |s.published|);
    }
  }

  lemma StoreWriteInv<Event>(s: State<Event>)
    requires Inv(s) && Step(s, StoreWrite).Some?
    ensures Inv(Step(s, StoreWrite).value)
  {
    hide Wrap, Place;
    NextIndex(|s.published|);
  }

  lemma LoadEndInv<Event>(s: State<Event>)
    requires Inv(s) && Step(s, LoadEnd).Some?
    ensures Inv(Step(s, LoadEnd).value)
  {
    hide Wrap, Place, InRing;
  }

  lemma LoadOwnInv<Event>(s: State<Event>)
    requires Inv(s) && Step(s, LoadOwn).Some?
    ensures Inv(Step(s, LoadOwn).value)
  {
    hide Wrap, Place, InRing;
  }

  /** The entry read is the next accepted event. */
  lemma ReadEventInv<Event>(s: State<Event>)
    requires Inv(s) && Step(s, ReadEvent).Some?
    ensures Inv(Step(s, ReadEvent).value)
  {
    hide Wrap, Place;
    var c := |s.received|;
    Difference(s.until, c);
    NextIndex(c);
    PlaceOfWrapped(c);
    assert s.published[..c + 1] == s.published[..c] + [s.published[c]];
  }

  lemma StoreReadInv<Event>(s: State<Event>)
    requires Inv(s) && Step(s, StoreRead).Some?
    ensures Inv(Step(s, StoreRead).value) && |s.received| == s.until
  {
    hide Wrap, Place;
    Difference(s.until, |s.received|);
  }

  lemma InvStep<Event>(s: State<Event>, a: Action<Event>)
    requires Inv(s) && Step(s, a).Some?
    ensures Inv(Step(s, a).value)
  {
    hide Inv, Step;
    match a
    case LoadWrite(ev) => LoadWriteInv(s, ev);
    case LoadRead => LoadReadInv(s);
    case WriteEvent => WriteEventInv(s);
    case StoreWrite => StoreWriteInv(s);
    case LoadEnd => LoadEndInv(s);
    case LoadOwn => LoadOwnInv(s);
    case ReadEvent => ReadEventInv(s);
    case StoreRead => StoreReadInv(s);
  }

  // ---- The main results ----

  lemma {:induction false} RunInv<Event>(events: seq<Event>, acts: seq<Action<Event>>)
    requires |events| == MAX_INPUT_EVENTS && Run(events, acts).Some?
    ensures Inv(Run(events, acts).value)
  {
    hide Step;
    if acts == [] {
      StartInv(events);
    } else {
      RunInv(events, acts[..|acts| - 1]);
      InvStep(Run(events, acts[..|acts| - 1]).value, acts[|acts| - 1]);
    }
  }

  /**
   * In every interleaving, however often the indices have wrapped around: the client has received the first events
   * accepted, each once and in order, and all that it has not given back are still in the ring.
   */
  lemma InOrderOnce<Event>(events: seq<Event>, acts: seq<Action<Event>>)
    requires |events| == MAX_INPUT_EVENTS && Run(events, acts).Some?
    ensures var s := Run(events, acts).value;
            && s.received <= s.published && |s.events| == MAX_INPUT_EVENTS
            && s.released <= |s.received| && |s.published| <= s.released + 16
            && forall i: nat :: s.released <= i < |s.published| ==> s.events[i % 16] == s.published[i]
  {
    hide Run;
    RunInv(events, acts);
    assert forall i: nat :: Place(i) == i % 16;
  }

  /** When PollInput ends, every event that was visible when it began has been received. */
  lemma NoneLeft<Event>(events: seq<Event>, acts: seq<Action<Event>>)
    requires |events| == MAX_INPUT_EVENTS && Run(events, acts).Some?
    requires Shaped(Run(events, acts).value) && Step(Run(events, acts).value, StoreRead).Some?
    ensures var s := Run(events, acts).value;
            s.until <= |s.published| && s.received == s.published[..s.until]
  {
    hide Run, Step;
    RunInv(events, acts);
    StoreReadInv(Run(events, acts).value);
  }

  /**
   * An event is turned away exactly if sixteen events were waiting in the ring when the read index was loaded at `s`,
   * whatever the client has done up to the state `t` of the decision.
   */
  lemma DroppedOnlyIfFull<Event>(s: State<Event>, t: State<Event>)
    requires Inv(s) && Step(s, LoadRead).Some? && Shaped(t) && t.producer == Step(s, LoadRead).value.producer
    ensures Step(t, WriteEvent).Some?
    ensures Step(t, WriteEvent).value.producer == Ready <==> |s.published| == s.released + 16
  {
    hide Wrap, Place, InRing;
    Difference(|s.published|, s.released);
  }

  /** The client can always go on: while events visible at the start of its loop are left it reads, then it ends the loop. */
  lemma ClientGoesOn<Event>(s: State<Event>)
    requires Inv(s)
    ensures s.consumer == Idle ==> Step(s, LoadEnd).Some? && Step(s, LoadEnd).value.until == |s.published|
    ensures s.consumer.EndLoaded? ==> Step(s, LoadOwn).Some?
    ensures s.consumer.Reading? ==> (Step(s, ReadEvent).Some? <==> |s.received| < s.until)
    ensures s.consumer.Reading? ==> (Step(s, StoreRead).Some? <==> |s.received| == s.until)
  {
    hide Wrap, Place, InRing;
    if s.consumer.Reading? { Difference(s.until, |s.received|); }
  }

  /** So can the compositor, and an event that is not turned away is the next one accepted. */
  lemma ProducerGoesOn<Event>(s: State<Event>, ev: Event)
    requires Inv(s)
    ensures s.producer == Ready ==> Step(s, LoadWrite(ev)).Some?
    ensures s.producer.WriteLoaded? ==> Step(s, LoadRead).Some?
    ensures s.producer.BothLoaded? ==> Step(s, WriteEvent).Some?
    ensures s.producer.EventWritten? ==>
      Step(s, StoreWrite).Some? && Step(s, StoreWrite).value.published == s.published + [s.producer.ev]
  {
  }

  // ---- The two functions themselves, run without interruption ----

  /** Where entry `i` of those after the first `first` stands. */
  function Spot(first: nat, i: nat): (p: nat)
    ensures p < MAX_INPUT_EVENTS
  {
    Place(first + i)
  }

  /** The ring of one slot; `waiting` are the events in it, `first` is how many were given back before. */
  class InputRing<Event> {
    var inputWriteIndex: nat
    var inputReadIndex: nat
    const inputEvents: array<Event>
    ghost var first: nat
    ghost var waiting: seq<Event>

    ghost predicate Valid()
      reads this, inputEvents
    {
      && inputEvents.Length == MAX_INPUT_EVENTS && |waiting| <= MAX_INPUT_EVENTS
      && inputReadIndex == Wrap(first) && inputWriteIndex == Wrap(first + |waiting|)
      && forall i: nat :: i < |waiting| ==> inputEvents[Spot(first, i)] == waiting[i]
    }

    constructor (events: array<Event>)
      requires events.Length == MAX_INPUT_EVENTS
      ensures Valid() && waiting == [] && inputEvents == events
    {
      inputEvents := events;
      inputWriteIndex, inputReadIndex, first, waiting := 0, 0, 0, [];
    }

    /** The event joins the end of the queue, unless sixteen are waiting. */
    method PushEvent(ev: Event) returns (accepted: bool)
      requires Valid()
      modifies this, inputEvents
      ensures Valid() && (accepted <==> |old(waiting)| < 16)
      ensures waiting == if accepted then old(waiting) + [ev] else old(waiting)
    {
      hide Wrap, Place;
      var w, r := inputWriteIndex, inputReadIndex;
      ghost var end := first + |waiting|;
      Difference(end, first);
      if Wrap(w as int - r) >= MAX_INPUT_EVENTS { return false; }
      PlaceOfWrapped(end);
      NextIndex(end);
      forall i: nat | i < |waiting|
        ensures Spot(first, i) != Place(end)
      {
        Apart(first + i, end);
      }
      inputEvents[Place(w)] := ev;
      inputWriteIndex := Wrap(w + 1);
      waiting := waiting + [ev];
      accepted := true;
    }

    /** Hands out everything waiting, in order, and empties the queue. */
    method PollInput() returns (received: seq<Event>)
      requires Valid()
      modifies this
      ensures Valid() && waiting == [] && received == old(waiting)
    {
      hide Wrap, Place;
      var w, r := inputWriteIndex, inputReadIndex;
      ghost var end := first + |waiting|;
      received := [];
      Difference(end, first);
      while r != w
        invariant |received| <= |waiting| && received == waiting[..|received|] && r == Wrap(first + |received|)
        modifies {}
        decreases |waiting| - |received|
      {
        ghost var n := |received|;
        Difference(end, first + n);
        PlaceOfWrapped(first + n);
        NextIndex(first + n);
        assert inputEvents[Spot(first, n)] == waiting[n];
        received := received + [inputEvents[Place(r)]];
        r := Wrap(r + 1);
      }
      Difference(end, first + |received|);
      inputReadIndex := r;
      first, waiting := end, [];
    }
  }
}
