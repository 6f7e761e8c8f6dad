/** Publish and subscribe over buffered channels: the slot event bus and the log broadcaster. */
module PubSub {
  import opened Prelude

  /** A channel with what has happened to it: `closes` counts closings, `lateSends` sends after one; a Go
      program panics at a second closing or a late send. */
  datatype Chan<E> = Chan(capacity: nat, queue: seq<E>, closed: bool, closes: nat, lateSends: nat, received: seq<E>)

  function NewChan<E>(capacity: nat): Chan<E> { Chan(capacity, [], false, 0, 0, []) }

  predicate HasRoom<E>(c: Chan<E>) { |c.queue| < c.capacity }

  /** A non-blocking send. */
  function Send<E>(c: Chan<E>, e: E): Chan<E> {
    if c.closed then c.(lateSends := c.lateSends + 1)
    else if HasRoom(c) then c.(queue := c.queue + [e])
    else c
  }

  function CloseChan<E>(c: Chan<E>): Chan<E> { c.(closed := true, closes := c.closes + 1) }

  function Receive<E>(c: Chan<E>): Chan<E> {
    if c.queue == [] then c else c.(queue := c.queue[1..], received := c.received + [c.queue[0]])
  }

  /** Every channel ever handed out, by number; `subs` are the registered ones. */
  datatype Hub<E> = Hub(chans: map<nat, Chan<E>>, subs: set<nat>, next: nat, closed: bool)

  datatype Op<E> =
    | Subscribe(capacity: nat)
    | Cancel(id: nat)                   // a cancel closure, or Unsubscribe
    | Publish(e: E)
    | Take(id: nat)                     // a subscriber receives
    | CloseHub(latch: bool)             // the bus latches shut, the broadcaster does not

  function Apply<E>(h: Hub<E>, op: Op<E>): Hub<E>
    requires h.subs <= h.chans.Keys
  {
    match op
    case Subscribe(capacity) =>
      if h.closed then h.(chans := h.chans[h.next := CloseChan(NewChan(0))], next := h.next + 1)
      else h.(chans := h.chans[h.next := NewChan(capacity)], subs := h.subs + {h.next}, next := h.next + 1)
    case Cancel(id) =>
      if id in h.subs then h.(chans := h.chans[id := CloseChan(h.chans[id])], subs := h.subs - {id}) else h
    case Publish(e) => h.(chans := map id | id in h.chans :: if id in h.subs then Send(h.chans[id], e) else h.chans[id])
    case Take(id) => if id in h.chans then h.(chans := h.chans[id := Receive(h.chans[id])]) else h
    case CloseHub(latch) =>
      if h.closed then h
      else h.(chans := map id | id in h.chans :: if id in h.subs then CloseChan(h.chans[id]) else h.chans[id],
              subs := {}, closed := latch)
  }

  // ---------- Runs ----------

  ghost predicate ChanInv<E>(c: Chan<E>) {
    |c.queue| <= c.capacity && c.lateSends == 0 && c.closes == if c.closed then 1 else 0
  }

  /** A channel is open exactly while it is registered. */
  ghost predicate Inv<E>(h: Hub<E>) {
    && h.subs <= h.chans.Keys
    && (forall id :: id in h.chans ==> id < h.next && ChanInv(h.chans[id]) && (h.chans[id].closed <==> id !in h.subs))
  }

  lemma StepKeepsInv<E>(h: Hub<E>, op: Op<E>)
    requires Inv(h)
    ensures Inv(Apply(h, op))
  {
  }

  ghost predicate IsRun<E>(hubs: seq<Hub<E>>, ops: seq<Op<E>>) {
    && |hubs| == |ops| + 1
    && hubs[0] == Hub(map[], {}, 0, false)
    && (forall i :: 0 <= i < |hubs| ==> hubs[i].subs <= hubs[i].chans.Keys)
    && (forall i :: 0 <= i < |ops| ==> hubs[i + 1] == Apply(hubs[i], ops[i]))
  }

  lemma {:induction false} ClosedHasNone<E>(hubs: seq<Hub<E>>, ops: seq<Op<E>>, i: nat)
    requires IsRun(hubs, ops) && i < |hubs|
    ensures hubs[i].closed ==> hubs[i].subs == {}
  {
    if i > 0 {
      ClosedHasNone(hubs, ops, i - 1);
    }
  }

  /** A hub that has been shut for good stays so, and nobody is registered with it. */
  lemma {:induction false} ShutForGood<E>(hubs: seq<Hub<E>>, ops: seq<Op<E>>, i: nat, j: nat)
    requires IsRun(hubs, ops) && i < j < |hubs| && ops[i] == CloseHub(true)
    ensures hubs[j].closed && hubs[j].subs == {}
  {
    if j > i + 1 {
      ShutForGood(hubs, ops, i, j - 1);
    } else {
      ClosedHasNone(hubs, ops, i);
    }
  }

  /** The events published while channel `id` was registered, in order. */
  function PublishedTo<E>(hubs: seq<Hub<E>>, ops: seq<Op<E>>, id: nat): seq<E>
    requires |hubs| == |ops| + 1
  {
    if ops == [] then []
    else
      var n := |ops| - 1;
      PublishedTo(hubs[..n + 1], ops[..n], id)
      + if ops[n].Publish? && id in hubs[n].subs then [ops[n].e] else []
  }

  /** A publish as channel `id` met it: the event, and whether fewer events than its capacity were waiting. */
  datatype Offer<E> = Offer(event: E, room: bool)

  /** The publishes that channel `id` met while it was registered, in order. */
  function OffersTo<E>(hubs: seq<Hub<E>>, ops: seq<Op<E>>, id: nat): seq<Offer<E>>
    requires |hubs| == |ops| + 1
  {
    if ops == [] then []
    else
      var n := |ops| - 1;
      OffersTo(hubs[..n + 1], ops[..n], id)
      + if ops[n].Publish? && id in hubs[n].subs && id in hubs[n].chans
        then [Offer(ops[n].e, |hubs[n].chans[id].queue| < hubs[n].chans[id].capacity)] else []
  }

  /** The events that met room, in order. */
  function Accepted<E>(offers: seq<Offer<E>>): seq<E> {
    if offers == [] then []
    else Accepted(offers[..|offers| - 1]) + if offers[|offers| - 1].room then [offers[|offers| - 1].event] else []
  }

  function Events<E>(offers: seq<Offer<E>>): seq<E> {
    seq(|offers|, i requires 0 <= i < |offers| => offers[i].event)
  }

  lemma {:induction false} AcceptedSnoc<E>(offers: seq<Offer<E>>, o: Offer<E>)
    ensures Accepted(offers + [o]) == if o.room then Accepted(offers) + [o.event] else Accepted(offers)
    ensures Events(offers + [o]) == Events(offers) + [o.event]
  {
    assert (offers + [o])[..|offers|] == offers;
  }

  lemma RoomIs<E>(c: Chan<E>)
    ensures HasRoom(c) <==> |c.queue| < c.capacity
  {
  }

  lemma NothingOffered<E>()
    ensures Accepted<E>([]) == [] && Events<E>([]) == []
  {
  }

  /** A step gives a channel at most the event it publishes, and only one that is registered and has room. */
  lemma StepTakes<E>(h: Hub<E>, op: Op<E>, id: nat)
    requires Inv(h)
    ensures id in h.subs ==> id in h.chans
    ensures id in h.chans ==> id in Apply(h, op).chans
    ensures id in h.chans ==>
              var c, c' := h.chans[id], Apply(h, op).chans[id];
              c'.received + c'.queue ==
              if op.Publish? && id in h.subs && HasRoom(c) then c.received + c.queue + [op.e] else c.received + c.queue
    ensures id !in h.chans && id in Apply(h, op).chans ==>
              Apply(h, op).chans[id].received == [] && Apply(h, op).chans[id].queue == []
  {
  }

  /** Over every run, a channel has met every event published while it was registered, and has taken, in
      order, exactly those that met room. */
  lemma {:induction false} TakenWhatMetRoom<E>(hubs: seq<Hub<E>>, ops: seq<Op<E>>, id: nat)
    requires IsRun(hubs, ops)
    ensures Inv(hubs[|ops|])
    ensures Events(OffersTo(hubs, ops, id)) == PublishedTo(hubs, ops, id)
    ensures id in hubs[|ops|].chans ==>
              hubs[|ops|].chans[id].received + hubs[|ops|].chans[id].queue == Accepted(OffersTo(hubs, ops, id))
    ensures id !in hubs[|ops|].chans ==> OffersTo(hubs, ops, id) == []
  {
    hide ChanInv, Apply, HasRoom, Accepted, Events;
    if ops == [] {
      NothingOffered<E>();
    } else {
      var n := |ops| - 1;
      var before := hubs[n];
      assert IsRun(hubs[..n + 1], ops[..n]);
      TakenWhatMetRoom(hubs[..n + 1], ops[..n], id);
      assert hubs[..n + 1][n] == before;
      StepKeepsInv(before, ops[n]);
      StepTakes(before, ops[n], id);
      NothingOffered<E>();
      var earlier := OffersTo(hubs[..n + 1], ops[..n], id);
      if ops[n].Publish? && id in before.subs {
        var offer := Offer(ops[n].e, HasRoom(before.chans[id]));
        AcceptedSnoc(earlier, offer);
        RoomIs(before.chans[id]);
        assert OffersTo(hubs, ops, id) == earlier + [offer];
      } else {
        assert OffersTo(hubs, ops, id) == earlier;
      }
    }
  }

  lemma SubsequenceOfNothing<E>()
    ensures IsSubsequence<E>([], [])
  {
  }

  /** What met room is a subsequence of what was offered, and all of it exactly when everything met room. */
  lemma {:induction false} AcceptedIsSubsequence<E>(offers: seq<Offer<E>>)
    ensures IsSubsequence(Accepted(offers), Events(offers))
    ensures |Accepted(offers)| <= |offers|
    ensures |Accepted(offers)| == |offers| <==> forall i :: 0 <= i < |offers| ==> offers[i].room
    ensures (forall i :: 0 <= i < |offers| ==> offers[i].room) ==> Accepted(offers) == Events(offers)
  {
    hide IsSubsequence;
    if offers == [] {
      SubsequenceOfNothing<E>();
    } else {
      var n := |offers| - 1;
      AcceptedIsSubsequence(offers[..n]);
      SubsequenceSnoc(Accepted(offers[..n]), Events(offers[..n]), offers[n].event);
      assert Events(offers) == Events(offers[..n]) + [offers[n].event];
      if !offers[n].room {
        assert Accepted(offers) == Accepted(offers[..n]);
      }
    }
  }

  /** Over every run and for every subscriber: what it has received plus what waits for it is, in order,
      exactly the events published while it was registered that met fewer than `capacity` waiting ones;
      so it is all of them exactly when the buffer was never full at a publish. No channel is sent to
      after its closing, and none is closed twice. */
  lemma DeliveryIsFaithful<E>(hubs: seq<Hub<E>>, ops: seq<Op<E>>, id: nat)
    requires IsRun(hubs, ops) && id in hubs[|ops|].chans
    ensures var c, offers, published := hubs[|ops|].chans[id], OffersTo(hubs, ops, id), PublishedTo(hubs, ops, id);
            && Events(offers) == published
            && c.received + c.queue == Accepted(offers)
            && IsSubsequence(c.received + c.queue, published)
            && (c.received + c.queue == published <==> forall i :: 0 <= i < |offers| ==> offers[i].room)
            && c.lateSends == 0 && c.closes <= 1 && (c.closed <==> id !in hubs[|ops|].subs)
  {
    TakenWhatMetRoom(hubs, ops, id);
    AcceptedIsSubsequence(OffersTo(hubs, ops, id));
  }

  // ---------- The code ----------

  lemma RegisteredAreOpen<E>(h: Hub<E>)
    requires Inv(h)
    ensures forall id :: id in h.subs ==> id in h.chans && !h.chans[id].closed
  {
  }

  const SUB_BUFFER := 32

  class Bus<E> {
    var chans: map<nat, Chan<E>>
    var subs: set<nat>
    var nextId: nat
    var closed: bool

    ghost predicate Valid()
      reads this
    {
      Inv(View())
    }

    ghost function View(): Hub<E>
      reads this
    {
      Hub(chans, subs, nextId, closed)
    }

    constructor ()
      ensures Valid() && View() == Hub(map[], {}, 0, false)
    {
      chans, subs, nextId, closed := map[], {}, 0, false;
    }

    method SubscribeNew() returns (id: nat)
      requires Valid()
      modifies this
      ensures Valid() && id == old(nextId) && View() == Apply(old(View()), Subscribe(32))
      ensures id in chans && chans[id].queue == [] && chans[id].closed == old(closed)
      ensures !closed ==> id in subs && chans[id].capacity == 32
    {
      StepKeepsInv(View(), Subscribe(SUB_BUFFER));
      id := nextId;
      nextId := nextId + 1;
      if closed {
        chans := chans[id := CloseChan(NewChan(0))];
      } else {
        chans := chans[id := NewChan(SUB_BUFFER)];
        subs := subs + {id};
      }
    }

    method CancelSub(id: nat)
      requires Valid()
      modifies this
      ensures Valid() && View() == Apply(old(View()), Cancel(id))
    {
      StepKeepsInv(View(), Cancel(id));
      if id in subs {
        assert !chans[id].closed;
        chans := chans[id := CloseChan(chans[id])];
        subs := subs - {id};
      }
    }

    /** The registered channels are visited in whatever order the map gives. */
    method PublishEvent(e: E)
      requires Valid()
      modifies this
      ensures Valid() && View() == Apply(old(View()), Publish(e))
    {
      hide Inv, ChanInv, Send, CloseChan;
      StepKeepsInv(View(), Publish(e));
      RegisteredAreOpen(View());
      var todo := subs;
      while todo != {}
        invariant todo <= subs && subs == old(subs) && nextId == old(nextId) && closed == old(closed)
        invariant chans.Keys == old(chans).Keys
        invariant forall id :: id in chans ==>
                    chans[id] == if id in subs && id !in todo then Send(old(chans)[id], e) else old(chans)[id]
      {
        ghost var some := AnElement(todo);
        assert some in todo;
        var id :| id in todo;
        assert !chans[id].closed;
        chans := chans[id := Send(chans[id], e)];
        todo := todo - {id};
      }
      assert chans == Apply(old(View()), Publish(e)).chans;
    }

    method Close()
      requires Valid()
      modifies this
      ensures Valid() && View() == Apply(old(View()), CloseHub(true))
    {
      hide Inv, ChanInv, Send, CloseChan;
      StepKeepsInv(View(), CloseHub(true));
      RegisteredAreOpen(View());
      if closed {
        return;
      }
      closed := true;
      while subs != {}
        invariant subs <= old(subs) && nextId == old(nextId) && closed
        invariant chans.Keys == old(chans).Keys
        invariant forall id :: id in chans ==>
                    chans[id] == if id in old(subs) && id !in subs then CloseChan(old(chans)[id]) else old(chans)[id]
      {
        ghost var some := AnElement(subs);
        assert some in subs;
        var id :| id in subs;
        assert !chans[id].closed;
        chans := chans[id := CloseChan(chans[id])];
        subs := subs - {id};
      }
      assert chans == Apply(old(View()), CloseHub(true)).chans;
    }
  }

  /** The log tailer's fan-out: subscribers choose their buffer, and closing does not latch. */
  class Broadcaster<E> {
    var chans: map<nat, Chan<E>>
    var subscribers: set<nat>
    var made: nat

    ghost predicate Valid()
      reads this
    {
      Inv(View())
    }

    ghost function View(): Hub<E>
      reads this
    {
      Hub(chans, subscribers, made, false)
    }

    constructor ()
      ensures Valid() && View() == Hub(map[], {}, 0, false)
    {
      chans, subscribers, made := map[], {}, 0;
    }

    method SubscribeNew(buf: int) returns (id: nat)
      requires Valid()
      modifies this
      ensures Valid() && id == old(made) && View() == Apply(old(View()), Subscribe(if buf < 1 then 1 else buf))
      ensures id in subscribers && id in chans && chans[id].queue == [] && !chans[id].closed
      ensures chans[id].capacity == if buf < 1 then 1 else buf
    {
      StepKeepsInv(View(), Subscribe(if buf < 1 then 1 else buf));
      id := made;
      made := made + 1;
      chans := chans[id := NewChan(if buf < 1 then 1 else buf)];
      subscribers := subscribers + {id};
    }

    method Unsubscribe(id: nat)
      requires Valid()
      modifies this
      ensures Valid() && View() == Apply(old(View()), Cancel(id))
    {
      StepKeepsInv(View(), Cancel(id));
      if id in subscribers {
        assert !chans[id].closed;
        chans := chans[id := CloseChan(chans[id])];
        subscribers := subscribers - {id};
      }
    }

    method PublishEvent(e: E)
      requires Valid()
      modifies this
      ensures Valid() && View() == Apply(old(View()), Publish(e))
    {
      hide Inv, ChanInv, Send, CloseChan;
      StepKeepsInv(View(), Publish(e));
      RegisteredAreOpen(View());
      var todo := subscribers;
      while todo != {}
        invariant todo <= subscribers && subscribers == old(subscribers) && made == old(made)
        invariant chans.Keys == old(chans).Keys
        invariant forall id :: id in chans ==>
                    chans[id] == if id in subscribers && id !in todo then Send(old(chans)[id], e) else old(chans)[id]
      {
        ghost var some := AnElement(todo);
        assert some in todo;
        var id :| id in todo;
        assert !chans[id].closed;
        chans := chans[id := Send(chans[id], e)];
        todo := todo - {id};
      }
      assert chans == Apply(old(View()), Publish(e)).chans;
    }

    method Close()
      requires Valid()
      modifies this
      ensures Valid() && View() == Apply(old(View()), CloseHub(false))
    {
      hide Inv, ChanInv, Send, CloseChan;
      StepKeepsInv(View(), CloseHub(false));
      RegisteredAreOpen(View());
      var todo := subscribers;
      while todo != {}
        invariant todo <= subscribers && subscribers == old(subscribers) && made == old(made)
        invariant chans.Keys == old(chans).Keys
        invariant forall id :: id in chans ==>
                    chans[id] == if id in subscribers && id !in todo then CloseChan(old(chans)[id]) else old(chans)[id]
      {
        ghost var some := AnElement(todo);
        assert some in todo;
        var id :| id in todo;
        assert !chans[id].closed;
        chans := chans[id := CloseChan(chans[id])];
        todo := todo - {id};
      }
      subscribers := {};
      assert chans == Apply(old(View()), CloseHub(false)).chans;
    }
  }
}
