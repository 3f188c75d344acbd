/**
 The publisher's bounded buffer: a ring that stores what could not be sent, and
 the drain that sends it later. Whether a publish got through is a parameter.
 */
module Publisher {
  import opened Protocol
  import opened GoInt

  const CAPACITY: nat := 1024

  datatype Event = Event(subject: string, data: Bytes)

  // ----- The buffer as a bounded queue -----

  /** The drop counter is 64-bit and wraps. */
  datatype Queue = Queue(pending: seq<Event>, drops: int)

  function Enqueue(q: Queue, ev: Event): Queue {
    if |q.pending| < CAPACITY then q.(pending := q.pending + [ev]) else q.(drops := Wrap64(q.drops + 1))
  }

  /** Attempt k of a drain: is the connection up, and does the publish succeed? */
  datatype Link = Link(up: bool, ok: bool)

  /** What a drain leaves in the buffer, what it delivered, and what it popped and failed to deliver. */
  datatype Drained = Drained(left: seq<Event>, delivered: seq<Event>, lost: seq<Event>)

  function Drain(pending: seq<Event>, link: nat -> Link, k: nat): Drained
    decreases |pending|
  {
    if pending == [] || !link(k).up then Drained(pending, [], [])
    else if !link(k).ok then Drained(pending[1..], [], [pending[0]])
    else
      var d := Drain(pending[1..], link, k + 1);
      d.(delivered := [pending[0]] + d.delivered)
  }

  /** What a drain comes to when these events were delivered before it. */
  function After(sent: seq<Event>, d: Drained): Drained {
    d.(delivered := sent + d.delivered)
  }

  lemma DrainStep(sent: seq<Event>, ev: Event, rest: seq<Event>, link: nat -> Link, k: nat)
    requires link(k).up
    ensures After(sent, Drain([ev] + rest, link, k)) ==
            if link(k).ok then After(sent + [ev], Drain(rest, link, k + 1)) else Drained(rest, sent, [ev])
  {
    assert ([ev] + rest)[1..] == rest;
    var d := Drain(rest, link, k + 1);
    assert sent + ([ev] + d.delivered) == sent + [ev] + d.delivered;
  }

  lemma Regroup(ev: Event, rest: seq<Event>, a: seq<Event>, b: seq<Event>, c: seq<Event>)
    requires rest == a + b + c
    ensures [ev] + rest == [ev] + a + b + c
  {
  }

  /** A drain sends a prefix in order, loses at most the next event, and stops early only for a reason. */
  lemma {:induction false} DrainMeaning(pending: seq<Event>, link: nat -> Link, k: nat)
    ensures var d := Drain(pending, link, k);
            var n := |d.delivered|;
            && pending == d.delivered + d.lost + d.left
            && |d.lost| <= 1
            && (forall j :: k <= j < k + n ==> link(j) == Link(true, true))
            && (d.lost != [] ==> link(k + n) == Link(true, false))
            && (d.lost == [] && d.left != [] ==> !link(k + n).up)
    decreases |pending|
  {
    if pending != [] && link(k) == Link(true, true) {
      DrainMeaning(pending[1..], link, k + 1);
      var d := Drain(pending[1..], link, k + 1);
      Regroup(pending[0], pending[1..], d.delivered, d.lost, d.left);
      assert pending == [pending[0]] + pending[1..];
    }
  }

  /** Publishing a whole list while nothing can be sent. */
  function EnqueueAll(q: Queue, evs: seq<Event>): Queue {
    if evs == [] then q else Enqueue(EnqueueAll(q, evs[..|evs| - 1]), evs[|evs| - 1])
  }

  lemma WrapNext(n: int)
    ensures Wrap64(Wrap64(n) + 1) == Wrap64(n + 1)
  {
  }

  /** The first 1024 events, and how many there were beyond them. */
  function Kept(evs: seq<Event>): Queue {
    if |evs| <= CAPACITY then Queue(evs, 0) else Queue(evs[..CAPACITY], Wrap64(|evs| - CAPACITY))
  }

  lemma KeptNext(evs: seq<Event>, ev: Event)
    ensures Enqueue(Kept(evs), ev) == Kept(evs + [ev])
  {
    var n := |evs|;
    if n == CAPACITY {
      assert (evs + [ev])[..n] == evs;
    } else if n > CAPACITY {
      assert (evs + [ev])[..CAPACITY] == evs[..CAPACITY];
      WrapNext(n - CAPACITY);
    }
  }

  /** From empty, the first 1024 events are kept in order and exactly the others are counted as dropped. */
  lemma OutageDropsExcess(evs: seq<Event>)
    ensures var q := EnqueueAll(Queue([], 0), evs);
            if |evs| <= 1024 then q.pending == evs && q.drops == 0
            else q.pending == evs[..1024] && q.drops == Wrap64(|evs| - 1024)
  {
    AllKept(evs);
  }

  lemma {:induction false} AllKept(evs: seq<Event>)
    ensures EnqueueAll(Queue([], 0), evs) == Kept(evs)
  {
    if evs != [] {
      var n := |evs| - 1;
      AllKept(evs[..n]);
      KeptNext(evs[..n], evs[n]);
      assert evs == evs[..n] + [evs[n]];
    }
  }

  // ----- The ring -----

  /** The events that a ring of this content holds from tail on. */
  ghost function Window(ring: seq<Event>, tail: nat, count: nat): (s: seq<Event>)
    requires |ring| == CAPACITY
    ensures |s| == count
  {
    seq(count, i requires 0 <= i < count => ring[(tail + i) % CAPACITY])
  }

  lemma Wraps(a: nat, b: nat)
    requires a < CAPACITY && b < CAPACITY
    ensures (a + b) % CAPACITY == if a + b < CAPACITY then a + b else a + b - CAPACITY
  {
  }

  lemma WindowPush(ring: seq<Event>, tail: nat, count: nat, ev: Event)
    requires |ring| == CAPACITY && tail < CAPACITY && count < CAPACITY
    ensures Window(ring[(tail + count) % CAPACITY := ev], tail, count + 1) == Window(ring, tail, count) + [ev]
  {
    var after := ring[(tail + count) % CAPACITY := ev];
    Wraps(tail, count);
    forall i | 0 <= i < count ensures Window(after, tail, count + 1)[i] == Window(ring, tail, count)[i] {
      Wraps(tail, i);
    }
  }

  lemma WindowPop(ring: seq<Event>, tail: nat, count: nat)
    requires |ring| == CAPACITY && tail < CAPACITY && 0 < count <= CAPACITY
    ensures Window(ring, tail, count) == [ring[tail]] + Window(ring, (tail + 1) % CAPACITY, count - 1)
  {
    var next := (tail + 1) % CAPACITY;
    Wraps(tail, 1);
    Wraps(tail, 0);
    var rest := Window(ring, next, count - 1);
    forall i | 0 <= i < count - 1 ensures rest[i] == Window(ring, tail, count)[i + 1] {
      Wraps(next, i);
      Wraps(tail, i + 1);
    }
  }

  lemma Advance(tail: nat, n: nat)
    requires tail < CAPACITY && n < CAPACITY
    ensures ((tail + n) % CAPACITY + 1) % CAPACITY == (tail + (n + 1)) % CAPACITY
    ensures ((tail + 1) % CAPACITY + n) % CAPACITY == (tail + (n + 1)) % CAPACITY
  {
  }

  class NatsPublisher {
    const ring: array<Event>
    var head: nat
    var tail: nat
    var count: nat
    var drops: int

    ghost predicate Valid()
      reads this
    {
      ring.Length == CAPACITY && tail < CAPACITY && count <= CAPACITY && head == (tail + count) % CAPACITY
    }

    /** The buffered events, oldest first. */
    ghost function Pending(): (s: seq<Event>)
      reads this, ring
      requires Valid()
      ensures |s| == count
    {
      Window(ring[..], tail, count)
    }

    ghost function Value(): Queue
      reads this, ring
      requires Valid()
    {
      Queue(Pending(), drops)
    }

    constructor ()
      ensures Valid() && fresh(ring) && ring.Length == 1024 && Value() == Queue([], 0)
    {
      ring := new Event[CAPACITY](_ => Event("", []));
      head, tail, count, drops := 0, 0, 0, 0;
    }

    /** `sent` says that a live connection took the event within the deadline; otherwise it is buffered or dropped. */
    method Publish(ev: Event, sent: bool)
      requires Valid()
      modifies this, ring
      ensures Valid() && Value() == if sent then old(Value()) else Enqueue(old(Value()), ev)
    {
      if sent {
        return;
      }
      if count < CAPACITY {
        Store(ev);
      } else {
        ghost var before := Pending();
        drops := Wrap64(drops + 1);
        assert Pending() == before;
      }
    }

    /** Writes at the head, which no buffered event occupies. */
    method Store(ev: Event)
      requires Valid() && count < CAPACITY
      modifies this, ring
      ensures Valid() && Pending() == old(Pending()) + [ev] && drops == old(drops)
    {
      WindowPush(ring[..], tail, count, ev);
      Advance(tail, count);
      ring[head] := ev;
      assert ring[..] == old(ring[..])[head := ev];
      head := (head + 1) % CAPACITY;
      count := count + 1;
    }

    method Pop() returns (ev: Event)
      requires Valid() && count > 0
      modifies this
      ensures Valid() && old(Pending()) == [ev] + Pending() && drops == old(drops)
    {
      WindowPop(ring[..], tail, count);
      Advance(tail, count - 1);
      ev := ring[tail];
      tail := (tail + 1) % CAPACITY;
      count := count - 1;
    }

    /** Sends buffered events until the buffer is empty, the connection is down, or a publish fails. */
    method Flush(link: nat -> Link) returns (delivered: seq<Event>, lost: seq<Event>)
      requires Valid()
      modifies this
      ensures Valid() && drops == old(drops)
      ensures Drained(Pending(), delivered, lost) == Drain(old(Pending()), link, 0)
    {
      delivered, lost := [], [];
      var k := 0;
      while count > 0 && link(k).up
        invariant Valid() && drops == old(drops)
        invariant After(delivered, Drain(Pending(), link, k)) == Drain(old(Pending()), link, 0)
        decreases count
      {
        var ev := Pop();
        DrainStep(delivered, ev, Pending(), link, k);
        if !link(k).ok {
          lost := [ev];
          return;
        }
        delivered := delivered + [ev];
        k := k + 1;
      }
    }
  }

  // ----- Publishers and the drain running together -----

  /** `flying` was popped and is not yet settled; `dropping` were refused and are not yet counted. */
  datatype Traffic = Traffic(queue: Queue, dropping: nat, flying: seq<Event>,
                             accepted: seq<Event>, settled: seq<(Event, bool)>, refused: nat)

  datatype Action =
    | Offer(ev: Event)
    | CountDrop
    | Take
    | Settle(ok: bool)

  function Next(t: Traffic, a: Action): Traffic {
    match a
    case Offer(ev) =>
      if |t.queue.pending| < CAPACITY
      then t.(queue := Enqueue(t.queue, ev), accepted := t.accepted + [ev])
      else t.(dropping := t.dropping + 1, refused := t.refused + 1)
    case CountDrop =>
      if t.dropping == 0 then t
      else t.(dropping := t.dropping - 1, queue := t.queue.(drops := Wrap64(t.queue.drops + 1)))
    case Take =>
      if t.flying != [] || t.queue.pending == [] then t
      else t.(queue := t.queue.(pending := t.queue.pending[1..]), flying := [t.queue.pending[0]])
    case Settle(ok) =>
      if t.flying == [] then t else t.(flying := [], settled := t.settled + [(t.flying[0], ok)])
  }

  function Run(acts: seq<Action>, n: nat): Traffic
    requires n <= |acts|
  {
    if n == 0 then Traffic(Queue([], 0), 0, [], [], [], 0) else Next(Run(acts, n - 1), acts[n - 1])
  }

  function Firsts(s: seq<(Event, bool)>): seq<Event> {
    seq(|s|, i requires 0 <= i < |s| => s[i].0)
  }

  function CountOffers(acts: seq<Action>, n: nat): nat
    requires n <= |acts|
  {
    if n == 0 then 0 else CountOffers(acts, n - 1) + if acts[n - 1].Offer? then 1 else 0
  }

  ghost predicate Conserved(t: Traffic) {
    && t.accepted == Firsts(t.settled) + t.flying + t.queue.pending
    && |t.queue.pending| <= CAPACITY && |t.flying| <= 1
    && t.dropping <= t.refused && t.queue.drops == Wrap64(t.refused - t.dropping)
  }

  lemma NextConserves(t: Traffic, a: Action)
    requires Conserved(t)
    ensures Conserved(Next(t, a))
  {
    var u := Next(t, a);
    match a
    case Take =>
      if t.flying == [] && t.queue.pending != [] {
        assert t.queue.pending == u.flying + u.queue.pending;
      }
    case Settle(_) =>
      if t.flying != [] {
        assert Firsts(u.settled) == Firsts(t.settled) + t.flying;
      }
    case CountDrop => WrapNext(t.refused - t.dropping);
    case _ =>
  }

  /** Offered events are settled, in flight, waiting or refused. */
  ghost predicate Balanced(t: Traffic, offers: nat) {
    offers == |t.settled| + |t.flying| + |t.queue.pending| + t.refused
  }

  lemma NextBalances(t: Traffic, a: Action, offers: nat)
    requires Conserved(t) && Balanced(t, offers)
    ensures Balanced(Next(t, a), offers + if a.Offer? then 1 else 0)
  {
  }

  /**
   In every interleaving: what reached the buffer stage was settled in the order
   it came, is in the hands of the drain, waits, or was refused; the drop counter
   is the number of refused events it has been told of, in 64 bits.
   */
  lemma {:induction false} NothingVanishes(acts: seq<Action>, n: nat)
    requires n <= |acts|
    ensures Conserved(Run(acts, n))
    ensures Balanced(Run(acts, n), CountOffers(acts, n))
  {
    if n > 0 {
      NothingVanishes(acts, n - 1);
      NextConserves(Run(acts, n - 1), acts[n - 1]);
      NextBalances(Run(acts, n - 1), acts[n - 1], CountOffers(acts, n - 1));
    }
  }

  /** An event that reaches the buffer stage is refused exactly if 1024 events wait there; otherwise it waits behind them. */
  lemma RefusedOnlyWhenFull(acts: seq<Action>, n: nat)
    requires n < |acts| && acts[n].Offer?
    ensures var t, u := Run(acts, n), Run(acts, n + 1);
            && |t.queue.pending| <= 1024
            && (u.refused == t.refused + 1 <==> |t.queue.pending| == 1024)
            && u.queue.pending == t.queue.pending + if |t.queue.pending| == 1024 then [] else [acts[n].ev]
  {
    NothingVanishes(acts, n);
  }
}
