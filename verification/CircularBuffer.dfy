/** The ring buffer, and the bounded queue it implements. */
module RingBuffer {
  /** A queue of at most n elements after one more arrives: a full one loses its
      oldest. */
  function Pushed<T>(q: seq<T>, x: T, n: nat): (r: seq<T>)
    requires 0 < n && |q| <= n
    ensures |r| <= n
  {
    if |q| < n then q + [x] else q[1..] + [x]
  }

  /** The last n elements, or all of them. */
  function Last<T>(s: seq<T>, n: nat): (r: seq<T>)
    ensures |r| <= n
  {
    if |s| <= n then s else s[|s| - n..]
  }

  function PushedAll<T>(q: seq<T>, xs: seq<T>, n: nat): (r: seq<T>)
    requires 0 < n && |q| <= n
    ensures |r| <= n
  {
    if xs == [] then q else Pushed(PushedAll(q, xs[..|xs| - 1], n), xs[|xs| - 1], n)
  }

  /** Any number of pushes keep exactly the most recent n elements. */
  lemma {:induction false} PushedAllKeepsLast<T>(q: seq<T>, xs: seq<T>, n: nat)
    requires 0 < n && |q| <= n
    ensures PushedAll(q, xs, n) == Last(q + xs, n)
  {
    if xs == [] {
      assert q + xs == q;
    } else {
      var k := |xs| - 1;
      PushedAllKeepsLast(q, xs[..k], n);
      PushedLast(q + xs[..k], xs[k], n);
      assert q + xs == (q + xs[..k]) + [xs[k]];
      hide Pushed, Last;
    }
  }

  lemma PushedLast<T>(s: seq<T>, x: T, n: nat)
    requires 0 < n
    ensures Pushed(Last(s, n), x, n) == Last(s + [x], n)
  {
  }

  /** capacity slots; the indices are of an unsigned type with counterRange values. */
  class CircularBuffer<T(0)> {
    const capacity: nat
    const counterRange: nat
    const pool: array<T>
    var head: nat
    var tail: nat
    var full: bool
    ghost var contents: seq<T>

    function Wrap(k: nat): nat {
      if k < capacity then k else k - capacity
    }

    ghost predicate Valid()
      reads this, pool
    {
      && 0 < capacity == pool.Length < counterRange
      && head < capacity && tail < capacity
      && |contents| <= capacity
      && (full <==> |contents| == capacity)
      && head == Wrap(tail + |contents|)
      && forall i | 0 <= i < |contents| :: contents[i] == pool[Wrap(tail + i)]
    }

    /** The index after a step, taken modulo the capacity. */
    function Reduced(k: nat): (r: nat)
      requires 0 < capacity && k <= capacity
      ensures r == Wrap(k)
    {
      k % capacity
    }

    constructor (capacity: nat, counterRange: nat)
      requires 0 < capacity < counterRange
      ensures Valid() && fresh(pool)
      ensures this.capacity == capacity && this.counterRange == counterRange && contents == []
    {
      this.capacity, this.counterRange := capacity, counterRange;
      pool := new T[capacity];
      head, tail, full, contents := 0, 0, false, [];
    }

    method Push(data: T)
      requires Valid()
      modifies this, pool
      ensures Valid() && contents == Pushed(old(contents), data, capacity)
    {
      hide Reduced;
      var isFull := Full();
      if isFull {
        tail := Reduced(tail + 1);
        contents := contents[1..];
      }
      pool[head] := data;
      head := Reduced(head + 1);
      contents := contents + [data];
      if head == tail {
        full := true;
      }
    }

    method Pop() returns (popped: bool, data: T)
      requires Valid()
      modifies this
      ensures Valid() && popped == (old(contents) != [])
      ensures popped ==> [data] + contents == old(contents)
      ensures !popped ==> contents == []
    {
      hide Reduced;
      popped, data := false, *;
      var isEmpty := Empty();
      if !isEmpty {
        data := pool[tail];
        tail := Reduced(tail + 1);
        full := false;
        contents := contents[1..];
        popped := true;
      }
    }

    method Empty() returns (isEmpty: bool)
      requires Valid()
      ensures isEmpty == (contents == [])
    {
      isEmpty := head == tail && !full;
    }

    method Full() returns (isFull: bool)
      requires Valid()
      ensures isFull == (|contents| == capacity)
    {
      isFull := full;
    }

    method Reset()
      requires Valid()
      modifies this
      ensures Valid() && contents == []
    {
      head, tail, full, contents := 0, 0, false, [];
    }

    /** Index arithmetic is modulo the range of the counter type. */
    method Size() returns (elements: nat)
      requires Valid()
      ensures elements == |contents|
    {
      if !full {
        if head < tail {
          elements := (capacity + head - tail) % counterRange;
        } else {
          elements := head - tail;
        }
      } else {
        elements := capacity;
      }
    }

    method Peek() returns (updated: bool, data: T)
      requires Valid()
      ensures updated == (contents != []) && (updated ==> data == contents[0])
    {
      updated, data := false, *;
      var isEmpty := Empty();
      if !isEmpty {
        data := pool[tail];
        updated := true;
      }
    }
  }
}
