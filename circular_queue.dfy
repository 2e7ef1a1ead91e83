/** The fixed-capacity ring buffer of queue.py. */
module CircularQueues {
  import opened Wrappers

  /** The slot k steps after front in a ring of c slots, for front < c and
      k <= c: at most one wrap-around. */
  function Wrap(c: int, front: int, k: int): int
  {
    if front + k < c then front + k else front + k - c
  }

  /** Whether slot i lies in the window of n slots starting at front. */
  predicate InWindow(c: int, front: int, n: int, i: int)
  {
    n > 0 && (if front + n <= c then front <= i < front + n else front <= i || i < front + n - c)
  }

  /** Below twice the modulus, `%` subtracts the modulus at most once. */
  lemma ModOnce(x: int, c: int)
    requires c > 0 && 0 <= x < 2 * c
    ensures x % c == if x < c then x else x - c
  {
    if x >= c {
      assert (x - c) % c == x % c;
    }
  }

  /** Advancing an index by one modulo c, as `(i + 1) % capacity` does. */
  lemma ModStep(a: int, c: int)
    requires 0 < c && -1 <= a < c
    ensures (a + 1) % c == if a + 1 == c then 0 else a + 1
  {
    ModOnce(a + 1, c);
  }

  /** The wrapped slot of the ring is the source's modular index. */
  lemma WrapIsMod(c: int, front: int, k: int)
    requires 0 <= front < c && 0 <= k <= c
    ensures Wrap(c, front, k) == (front + k) % c
  {
    ModOnce(front + k, c);
  }

  /** Stepping front once shifts the window: slot k from the new front is
      slot k + 1 from the old one, and the new window is the old one without
      its first slot. */
  lemma WrapShift(c: int, front: int, n: int)
    requires 0 <= front < c && 1 < n <= c
    ensures 0 <= Wrap(c, front, 1) < c
    ensures forall k :: 0 <= k < n - 1 ==> Wrap(c, Wrap(c, front, 1), k) == Wrap(c, front, k + 1)
    ensures forall i :: 0 <= i < c ==>
              (InWindow(c, Wrap(c, front, 1), n - 1, i) <==> InWindow(c, front, n, i) && i != front)
  {
  }

  /** Growing the window by one adds exactly the slot n steps after front. */
  lemma WrapGrow(c: int, front: int, n: int)
    requires 0 <= front < c && 0 <= n < c
    ensures 0 <= Wrap(c, front, n) < c
    ensures forall i :: 0 <= i < c ==>
              (InWindow(c, front, n + 1, i) <==> InWindow(c, front, n, i) || i == Wrap(c, front, n))
    ensures forall k :: 0 <= k < n ==> Wrap(c, front, k) != Wrap(c, front, n)
  {
    forall i | 0 <= i < c
      ensures InWindow(c, front, n + 1, i) <==> InWindow(c, front, n, i) || i == Wrap(c, front, n)
    {
      if n == 0 {
        assert InWindow(c, front, 1, i) <==> i == front;
      } else if front + n + 1 <= c {
      } else if front + n == c {
        assert Wrap(c, front, n) == 0;
      }
    }
  }

  /** A ring buffer of capacity slots. While it holds size > 0 elements they
      sit in the slots front, front + 1, ... modulo capacity, rear is the slot
      of the last one and every other slot is None; an empty buffer has
      front == rear == -1. Contents is the abstract view, front first. */
  class CircularQueue<T> {
    const capacity: int
    var items: array<Option<T>>
    var front: int
    var rear: int
    var size: int
    ghost var Contents: seq<T>

    ghost predicate Valid()
      reads this, items
    {
      0 < capacity && items.Length == capacity &&
      0 <= size <= capacity && |Contents| == size &&
      (size == 0 ==> front == -1 && rear == -1) &&
      (size > 0 ==> 0 <= front < capacity && rear == Wrap(capacity, front, size - 1)) &&
      (forall k :: 0 <= k < size ==> items[Wrap(capacity, front, k)] == Some(Contents[k])) &&
      (forall i :: 0 <= i < capacity && !InWindow(capacity, front, size, i) ==> items[i] == None)
    }

    constructor (capacity: int)
      requires capacity > 0
      ensures Valid() && fresh(items) && this.capacity == capacity
      ensures Contents == [] && front == -1 && rear == -1 && size == 0
    {
      this.capacity := capacity;
      items := new Option<T>[capacity](_ => None);
      front, rear, size := -1, -1, 0;
      Contents := [];
    }

    /** Writes element into the slot after rear and returns the new size;
        raises Overflow, changing nothing, when all slots are taken. */
    method Enqueue(element: T) returns (r: Result<nat>)
      requires Valid()
      modifies this, items
      ensures Valid() && items == old(items)
      ensures old(size) == capacity ==>
                r == Err(Overflow) && Contents == old(Contents) && items[..] == old(items[..]) &&
                front == old(front) && rear == old(rear) && size == old(size)
      ensures old(size) < capacity ==> r == Ok(size) && Contents == old(Contents) + [element]
    {
      if IsFull() {
        return Err(Overflow);
      }
      if IsEmpty() {
        front := 0;
      }
      WrapGrow(capacity, front, size);
      ModStep(rear, capacity);
      rear := (rear + 1) % capacity;
      assert rear == Wrap(capacity, front, size);
      items[rear] := Some(element);
      size := size + 1;
      Contents := Contents + [element];
      r := Ok(size);
    }

    /** Removes and returns the front element, clearing its slot; raises
        Underflow when empty. Removing the last element resets front and rear
        to -1. */
    method Dequeue() returns (r: Result<T>)
      requires Valid()
      modifies this, items
      ensures Valid() && items == old(items)
      ensures old(size) == 0 ==>
                r == Err(Underflow) && Contents == [] && items[..] == old(items[..]) &&
                front == -1 && rear == -1 && size == 0
      ensures old(size) > 0 ==>
                r == Ok(old(Contents)[0]) && Contents == old(Contents)[1..] &&
                items[old(front)] == None
    {
      if IsEmpty() {
        return Err(Underflow);
      }
      var element := items[front];
      assert element == Some(Contents[0]);
      items[front] := None;
      if size == 1 {
        front := -1;
        rear := -1;
      } else {
        WrapShift(capacity, front, size);
        ModStep(front, capacity);
        front := (front + 1) % capacity;
      }
      size := size - 1;
      Contents := Contents[1..];
      r := Ok(element.value);
    }

    /** The front element, or None when empty. */
    function GetFront(): (r: Option<T>)
      requires Valid()
      reads this, items
      ensures r.None? <==> Contents == []
      ensures r.Some? ==> r.value == Contents[0]
    {
      if IsEmpty() then None
      else
        assert items[Wrap(capacity, front, 0)] == Some(Contents[0]);
        items[front]
    }

    /** The rear element, or None when empty. */
    function GetRear(): (r: Option<T>)
      requires Valid()
      reads this, items
      ensures r.None? <==> Contents == []
      ensures r.Some? ==> r.value == Contents[|Contents| - 1]
    {
      if IsEmpty() then None
      else
        assert items[Wrap(capacity, front, size - 1)] == Some(Contents[size - 1]);
        items[rear]
    }

    function IsEmpty(): (r: bool)
      reads this, items
      ensures Valid() ==> (r <==> Contents == [])
    {
      size == 0
    }

    function IsFull(): (r: bool)
      requires Valid()
      reads this, items
      ensures r <==> |Contents| == capacity
    {
      size == capacity
    }

    function GetSize(): (r: int)
      reads this, items
      ensures Valid() ==> r == |Contents|
    {
      size
    }

    /** Replaces the slots by capacity fresh empty ones and resets the indices. */
    method Clear()
      requires Valid()
      modifies this
      ensures Valid() && fresh(items)
      ensures Contents == [] && front == -1 && rear == -1 && size == 0
      ensures forall i :: 0 <= i < capacity ==> items[i] == None
    {
      items := new Option<T>[capacity](_ => None);
      front, rear, size := -1, -1, 0;
      Contents := [];
    }

    /** The elements front to rear, walking size modular steps from front. */
    method GetAll() returns (result: seq<T>)
      requires Valid()
      ensures result == Contents
    {
      if IsEmpty() {
        return [];
      }
      result := [];
      var current := front;
      for i := 0 to size
        invariant result == Contents[..i]
        invariant current == Wrap(capacity, front, i)
      {
        result := result + [items[current].value];
        ModStep(current, capacity);
        current := (current + 1) % capacity;
      }
      assert Contents[..size] == Contents;
    }
  }

  /** While the buffer is non-empty its rear index is the source's
      (front + size - 1) % capacity. */
  lemma RearIsModular<T>(q: CircularQueue<T>)
    requires q.Valid() && q.size > 0
    ensures q.rear == (q.front + q.size - 1) % q.capacity
  {
    WrapIsMod(q.capacity, q.front, q.size - 1);
  }

  /** The demonstration: capacity 3, enqueue 1, 2, 3, dequeue, enqueue 4.
      The dequeue yields 1 and the wrapped-around buffer lists [2, 3, 4]. */
  method WrapAroundExample() returns (first: Result<int>, all: seq<int>)
    ensures first == Ok(1) && all == [2, 3, 4]
  {
    var q := new CircularQueue<int>(3);
    var size := q.Enqueue(1);
    size := q.Enqueue(2);
    size := q.Enqueue(3);
    first := q.Dequeue();
    size := q.Enqueue(4);
    all := q.GetAll();
  }
}
