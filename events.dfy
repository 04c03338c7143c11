/**
 * `Events` of the content repository's event store: an immutable, ordered
 * list of events (plain or decorated) that every operation copies.
 */
module EventStore {
  /** An `Events` instance; `E` stands for `EventInterface|DecoratedEvent`. */
  datatype Events<E> = Events(events: seq<E>)

  /** `getIterator`: the events, in order; iterating loses and reorders nothing, so the collection is what it yields. */
  function Iterate<E>(e: Events<E>): (s: seq<E>)
    ensures Events(s) == e
  {
    e.events
  }

  /** `count`. */
  function Count<E>(e: Events<E>): (n: nat)
    ensures n == |Iterate(e)|
  {
    |e.events|
  }

  /** `isEmpty`: holds exactly when there is no event. */
  function IsEmpty<E>(e: Events<E>): (b: bool)
    ensures b <==> Count(e) == 0
    ensures b <==> Iterate(e) == []
  {
    e.events == []
  }

  /** `with`: the collection holding exactly the one event. */
  function With<E>(event: E): (r: Events<E>)
    ensures Count(r) == 1 && Iterate(r)[0] == event
  {
    Events([event])
  }

  /** `fromArray`: the events of the list, in its order, duplicates kept. */
  function FromArray<E>(xs: seq<E>): (r: Events<E>)
    ensures Count(r) == |xs|
    ensures forall i :: 0 <= i < |xs| ==> Iterate(r)[i] == xs[i]
  {
    Events(xs)
  }

  /** `withAppendedEvents`: this collection's events followed by the other's; neither operand changes. */
  function WithAppendedEvents<E>(a: Events<E>, b: Events<E>): (r: Events<E>)
    ensures Count(r) == Count(a) + Count(b)
    ensures forall i :: 0 <= i < Count(a) ==> Iterate(r)[i] == Iterate(a)[i]
    ensures forall j :: 0 <= j < Count(b) ==> Iterate(r)[Count(a) + j] == Iterate(b)[j]
  {
    Events(a.events + b.events)
  }

  /** `map`: a list as long as the collection whose i-th entry is the callback applied to the i-th event. */
  function Map<E, T>(e: Events<E>, f: E -> T): (r: seq<T>)
    ensures |r| == Count(e)
    ensures forall i :: 0 <= i < |r| ==> r[i] == f(Iterate(e)[i])
  {
    seq(|e.events|, i requires 0 <= i < |e.events| => f(e.events[i]))
  }

  /** Iterating a collection built from a list gives that list back, and the other way round. */
  lemma FromArrayRoundTrip<E>(xs: seq<E>, e: Events<E>)
    ensures Iterate(FromArray(xs)) == xs
    ensures FromArray(Iterate(e)) == e
  {
  }

  /** Appending is associative and the empty collection is its unit. */
  lemma AppendMonoid<E>(a: Events<E>, b: Events<E>, c: Events<E>)
    ensures WithAppendedEvents(WithAppendedEvents(a, b), c) == WithAppendedEvents(a, WithAppendedEvents(b, c))
    ensures WithAppendedEvents(FromArray([]), a) == a && WithAppendedEvents(a, FromArray([])) == a
  {
    assert a.events + b.events + c.events == a.events + (b.events + c.events);
    assert [] + a.events == a.events && a.events + [] == a.events;
  }

  /** Mapping an appended collection maps each part. */
  lemma MapAppended<E, T>(a: Events<E>, b: Events<E>, f: E -> T)
    ensures Map(WithAppendedEvents(a, b), f) == Map(a, f) + Map(b, f)
  {
  }
}
