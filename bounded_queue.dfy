/**
 * BoundedQueue: a decorator that caps the number of elements of a
 * caller-supplied FIFO backing queue. Writes check the cap before they
 * delegate; reads are plain delegation.
 *
 * The backing queue is its contents, head first, together with the decision
 * its own `offer` makes about an element given the current contents (an
 * unrestricted java.util.LinkedList accepts everything).
 */
module BoundedQueues {
  import opened Java

  /** The argument of addAll, by identity: `null`, this queue, its backing queue, or another collection. */
  datatype Collection<E> = Null | ThisQueue | BackingQueue | Other(items: seq<E>)

  /** offer's condition: room under the cap, and the backing queue accepts `e`. */
  predicate OfferSucceeds<E>(contents: seq<E>, capacity: int32, accepts: (seq<E>, E) -> bool, e: E)
  {
    |contents| < capacity as int && accepts(contents, e)
  }

  /**
   * The effect of addAll's loop: each item in turn through add(), which is
   * offer() or IllegalStateException. Gives the contents afterwards and whether
   * every add returned normally.
   */
  function AddEach<E>(contents: seq<E>, items: seq<E>, capacity: int32, accepts: (seq<E>, E) -> bool): (r: (seq<E>, bool))
    ensures |contents| <= |r.0| <= |contents| + |items|
    ensures r.0[..|contents|] == contents
    ensures r.1 <==> |r.0| == |contents| + |items|
    decreases |items|
  {
    if items == [] then (contents, true)
    else if OfferSucceeds(contents, capacity, accepts, items[0]) then
      AddEach(contents + [items[0]], items[1..], capacity, accepts)
    else (contents, false)
  }

  /**
   * The loop appends a prefix of the items, in their iteration order, and
   * never rolls back: it completes exactly when the whole collection went in.
   */
  lemma {:induction false} AddEachAppendsPrefix<E>(contents: seq<E>, items: seq<E>, capacity: int32, accepts: (seq<E>, E) -> bool)
    ensures var (after, complete) := AddEach(contents, items, capacity, accepts);
            && |contents| <= |after| <= |contents| + |items|
            && after == contents + items[..|after| - |contents|]
            && (complete <==> |after| == |contents| + |items|)
    decreases |items|
  {
    if items != [] && OfferSucceeds(contents, capacity, accepts, items[0]) {
      AddEachAppendsPrefix(contents + [items[0]], items[1..], capacity, accepts);
      var after := AddEach(contents, items, capacity, accepts).0;
      var k := |after| - |contents|;
      assert after == contents + [items[0]] + items[1..][..k - 1];
      assert [items[0]] + items[1..][..k - 1] == items[..k];
    }
  }

  /** The loop never takes a queue that is within its cap above it. */
  lemma {:induction false} AddEachWithinCapacity<E>(contents: seq<E>, items: seq<E>, capacity: int32, accepts: (seq<E>, E) -> bool)
    requires |contents| <= capacity as int
    ensures |AddEach(contents, items, capacity, accepts).0| <= capacity as int
    decreases |items|
  {
    if items != [] && OfferSucceeds(contents, capacity, accepts, items[0]) {
      AddEachWithinCapacity(contents + [items[0]], items[1..], capacity, accepts);
    }
  }

  /**
   * Over a backing queue that accepts every element, a collection that fits
   * under the cap goes in completely: the contents become the old contents
   * followed by the collection.
   */
  lemma {:induction false} AddEachIntoAcceptingQueue<E>(contents: seq<E>, items: seq<E>, capacity: int32, accepts: (seq<E>, E) -> bool)
    requires forall p: seq<E>, e: E :: accepts(p, e)
    requires |contents| + |items| <= capacity as int
    ensures AddEach(contents, items, capacity, accepts) == (contents + items, true)
    decreases |items|
  {
    if items != [] {
      assert OfferSucceeds(contents, capacity, accepts, items[0]);
      assert AddEach(contents, items, capacity, accepts)
          == AddEach(contents + [items[0]], items[1..], capacity, accepts);
      AddEachIntoAcceptingQueue(contents + [items[0]], items[1..], capacity, accepts);
      assert contents + [items[0]] + items[1..] == contents + items;
    } else {
      assert contents + items == contents;
    }
  }

  /** checkNotNull: NullPointerException exactly for an absent collection. */
  function CheckNotNull<E>(c: Collection<E>): (r: Completion)
    ensures r.Fail? <==> c == Null
    ensures r.Fail? ==> r.error == NullPointer
  {
    if c.Null? then Fail(NullPointer) else Done
  }

  /**
   * checkNotSame: IllegalArgumentException exactly when the argument is the
   * very object `first` (this queue or its backing queue).
   */
  function CheckNotSame<E>(first: Collection<E>, second: Collection<E>): (r: Completion)
    requires first == ThisQueue || first == BackingQueue
    ensures r.Fail? <==> second == first
    ensures r.Fail? ==> r.error == IllegalArgument
  {
    if (first.ThisQueue? && second.ThisQueue?) || (first.BackingQueue? && second.BackingQueue?)
    then Fail(IllegalArgument)
    else Done
  }

  class BoundedQueue<E> {
    /** The backing queue's contents, head first. */
    var elements: seq<E>
    const capacity: int32
    /** The backing queue's own offer decision, given its contents. */
    const accepts: (seq<E>, E) -> bool

    /** The cap holds; it is not enforced on the backing queue handed to the constructor. */
    predicate WithinCapacity()
      reads this
    {
      |elements| <= capacity as int
    }

    /** BoundedQueue(backingQueue, capacity). */
    constructor (backingQueue: seq<E>, capacity: int32, accepts: (seq<E>, E) -> bool)
      ensures elements == backingQueue
      ensures this.capacity == capacity && this.accepts == accepts
    {
      elements := backingQueue;
      this.capacity := capacity;
      this.accepts := accepts;
    }

    /** getCapacity: the capacity given at construction (a constant field). */
    method GetCapacity() returns (r: int32)
      ensures r == capacity
    {
      r := capacity;
    }

    /** size: the backing queue's size. */
    method Size() returns (n: nat)
      ensures n == |elements|
    {
      n := |elements|;
    }

    /** peek: the head without removing it, or null on an empty queue. */
    method Peek() returns (head: Option<E>)
      ensures elements == [] ==> head == None
      ensures elements != [] ==> head == Some(elements[0])
    {
      head := if elements == [] then None else Some(elements[0]);
    }

    /** poll: removes and returns the head, or null on an empty queue. */
    method Poll() returns (head: Option<E>)
      modifies this`elements
      ensures old(elements) == [] ==> head == None && elements == []
      ensures old(elements) != [] ==> head == Some(old(elements)[0]) && elements == old(elements)[1..]
      ensures old(WithinCapacity()) ==> WithinCapacity()
    {
      if elements == [] {
        head := None;
      } else {
        head := Some(elements[0]);
        elements := elements[1..];
      }
    }

    /**
     * offer: below the cap, delegates to the backing queue (which appends at
     * the tail when it accepts) and returns its answer; at or above the cap,
     * false with no delegation and no change.
     */
    method Offer(e: E) returns (inserted: bool)
      modifies this`elements
      ensures |old(elements)| >= capacity as int ==> !inserted
      ensures inserted == OfferSucceeds(old(elements), capacity, accepts, e)
      ensures elements == if inserted then old(elements) + [e] else old(elements)
      ensures old(WithinCapacity()) ==> WithinCapacity()
    {
      inserted := false;
      if |elements| < capacity as int {
        inserted := accepts(elements, e);
        if inserted {
          elements := elements + [e];
        }
      }
    }

    /** add (inherited from AbstractQueue): offer, or IllegalStateException when offer refuses. */
    method Add(e: E) returns (r: Result<bool>)
      modifies this`elements
      ensures r == if OfferSucceeds(old(elements), capacity, accepts, e) then Ok(true) else Err(IllegalState)
      ensures elements == if r.Ok? then old(elements) + [e] else old(elements)
    {
      var inserted := Offer(e);
      r := if inserted then Ok(true) else Err(IllegalState);
    }

    /**
     * addAll: rejects a null collection, this queue and the backing queue,
     * and a collection that would take the queue above its cap, all before any
     * change; otherwise adds the elements one by one, in iteration order, and
     * reports whether any element was added.
     */
    method AddAll(c: Collection<E>) returns (r: Result<bool>)
      modifies this`elements
      ensures c == Null ==> r == Err(NullPointer) && elements == old(elements)
      ensures c == ThisQueue || c == BackingQueue ==> r == Err(IllegalArgument) && elements == old(elements)
      ensures c.Other? && |old(elements)| + |c.items| > capacity as int ==>
                r == Err(IllegalState) && elements == old(elements)
      ensures c.Other? && |old(elements)| + |c.items| <= capacity as int ==>
                var (after, complete) := AddEach(old(elements), c.items, capacity, accepts);
                && elements == after
                && r == if complete then Ok(|c.items| > 0) else Err(IllegalState)
      ensures old(WithinCapacity()) ==> WithinCapacity()
    {
      var check := CheckNotNull(c);
      if check.Fail? {
        return Err(check.error);
      }
      check := CheckNotSame(ThisQueue, c);
      if check.Fail? {
        return Err(check.error);
      }
      check := CheckNotSame(BackingQueue, c);
      if check.Fail? {
        return Err(check.error);
      }
      var items := c.items;
      if |elements| + |items| > capacity as int {
        return Err(IllegalState);
      }
      AddEachWithinCapacity(elements, items, capacity, accepts);
      var modified := false;
      for i := 0 to |items|
        invariant AddEach(elements, items[i..], capacity, accepts) == AddEach(old(elements), items, capacity, accepts)
        invariant modified <==> i > 0
      {
        assert items[i..][1..] == items[i + 1..];
        var added := Add(items[i]);
        if added.Err? {
          return Err(added.error);
        }
        if added.value {
          modified := true;
        }
      }
      assert items[|items|..] == [];
      r := Ok(modified);
    }
  }

  // ---------------------------------------------------------------------------
  // Behaviour over an unrestricted FIFO backing queue, as callers see it

  /**
   * A queue of capacity K over an empty backing queue takes K offers, then
   * refuses the next one and keeps size K.
   */
  method OfferBeyondCapacity<E>(xs: seq<E>, extra: E) returns (allInserted: bool, extraInserted: bool, finalSize: nat)
    requires |xs| <= INT_MAX
    ensures allInserted && !extraInserted && finalSize == |xs|
  {
    var queue := new BoundedQueue<E>([], |xs| as int32, (p: seq<E>, e: E) => true);
    allInserted := true;
    for i := 0 to |xs|
      invariant queue.elements == xs[..i] && allInserted
    {
      var inserted := queue.Offer(xs[i]);
      allInserted := allInserted && inserted;
      assert xs[..i + 1] == xs[..i] + [xs[i]];
    }
    extraInserted := queue.Offer(extra);
    finalSize := queue.Size();
  }

  /**
   * Offered elements come back out of peek and poll in the order they went
   * in, and a poll of the emptied queue returns null.
   */
  method PollInOfferOrder<E>(xs: seq<E>) returns (peeked: seq<E>, polled: seq<E>, last: Option<E>)
    requires |xs| <= INT_MAX
    ensures peeked == xs && polled == xs
    ensures last == None
  {
    var queue := new BoundedQueue<E>([], |xs| as int32, (p: seq<E>, e: E) => true);
    for i := 0 to |xs|
      invariant queue.elements == xs[..i]
    {
      var inserted := queue.Offer(xs[i]);
      assert xs[..i + 1] == xs[..i] + [xs[i]];
    }
    peeked, polled := [], [];
    var n := queue.Size();
    while n > 0
      invariant 0 <= n <= |xs|
      invariant queue.elements == xs[|xs| - n..]
      invariant peeked == xs[..|xs| - n] && polled == xs[..|xs| - n]
    {
      var head := queue.Peek();
      var next := queue.Poll();
      assert xs[..|xs| - n + 1] == xs[..|xs| - n] + [xs[|xs| - n]];
      peeked, polled := peeked + [head.value], polled + [next.value];
      n := queue.Size();
    }
    last := queue.Poll();
  }

  /** A successful addAll into an unrestricted backing queue appends the whole collection. */
  method AddAllAppends<E>(queue: BoundedQueue<E>, items: seq<E>) returns (r: Result<bool>)
    requires forall p: seq<E>, e: E :: queue.accepts(p, e)
    requires |queue.elements| + |items| <= queue.capacity as int
    modifies queue
    ensures r == Ok(items != []) && queue.elements == old(queue.elements) + items
  {
    AddEachIntoAcceptingQueue(queue.elements, items, queue.capacity, queue.accepts);
    r := queue.AddAll(Other(items));
  }
}
