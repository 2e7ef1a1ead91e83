/** The list-backed FIFO containers of queue.py: a queue with an optional
    bound and a double-ended queue. */
module Queues {
  import opened Wrappers
  import opened Sequences

  /** A list-backed queue; the front is items[0], the rear the last element. */
  class Queue<T(==)> {
    var items: seq<T>
    var maxSize: Option<int>

    constructor (maxSize: Option<int>)
      ensures items == [] && this.maxSize == maxSize
    {
      items := [];
      this.maxSize := maxSize;
    }

    /** The guard of enqueue: a bound is set and already reached. */
    predicate AtCapacity()
      reads this
    {
      maxSize.Some? && |items| >= maxSize.value
    }

    /** Adds element at the rear and returns the new size; raises Overflow,
        changing nothing, when the bound is reached. */
    method Enqueue(element: T) returns (r: Result<nat>)
      modifies this
      ensures maxSize == old(maxSize)
      ensures old(AtCapacity()) ==> r == Err(Overflow) && items == old(items)
      ensures !old(AtCapacity()) ==> items == old(items) + [element] && r == Ok(|items|)
    {
      if AtCapacity() {
        return Err(Overflow);
      }
      items := items + [element];
      r := Ok(|items|);
    }

    /** Removes and returns the front element; raises Underflow when empty. */
    method Dequeue() returns (r: Result<T>)
      modifies this
      ensures maxSize == old(maxSize)
      ensures old(items) == [] ==> r == Err(Underflow) && items == []
      ensures old(items) != [] ==> r == Ok(old(items)[0]) && items == old(items)[1..]
    {
      if IsEmpty() {
        return Err(Underflow);
      }
      r := Ok(items[0]);
      items := items[1..];
    }

    /** The front element, or None when empty. */
    function Front(): (r: Option<T>)
      reads this
      ensures r.None? <==> IsEmpty()
      ensures r.Some? ==> r.value == items[0]
      ensures r == ElementAt(0)
    {
      if IsEmpty() then None else Some(items[0])
    }

    /** The rear element, or None when empty. */
    function Rear(): (r: Option<T>)
      reads this
      ensures r.None? <==> IsEmpty()
      ensures r.Some? ==> r.value == items[|items| - 1]
      ensures r == ElementAt(Size() - 1)
    {
      if IsEmpty() then None else Some(items[|items| - 1])
    }

    function IsEmpty(): (r: bool)
      reads this
      ensures r <==> Size() == 0
    {
      |items| == 0
    }

    function Size(): nat
      reads this
    {
      |items|
    }

    method Clear()
      modifies this
      ensures items == [] && maxSize == old(maxSize)
    {
      items := [];
    }

    /** Replaces the bound; the current contents are kept even when they
        already exceed the new bound. */
    method SetMaxSize(size: Option<int>)
      modifies this
      ensures maxSize == size && items == old(items)
    {
      maxSize := size;
    }

    /** A copy of the contents, front first: position k of it is ElementAt(k). */
    function GetAll(): (r: seq<T>)
      reads this
      ensures |r| == Size()
      ensures forall k :: 0 <= k < |r| ==> ElementAt(k) == Some(r[k])
    {
      items
    }

    /** The index from the front of the first occurrence of element, or -1. */
    function Search(element: T): (r: int)
      reads this
      ensures -1 <= r < Size()
      ensures r == -1 <==> element !in items
      ensures r >= 0 ==> ElementAt(r) == Some(element)
      ensures r >= 0 ==> forall j :: 0 <= j < r ==> ElementAt(j) != Some(element)
    {
      FirstIndexOf(items, element)
    }

    /** The element at index position from the front, or None out of range. */
    function ElementAt(position: int): (r: Option<T>)
      reads this
      ensures r.None? <==> position < 0 || position >= Size()
      ensures r.Some? ==> r.value == items[position]
    {
      if position < 0 || position >= |items| then None else Some(items[position])
    }
  }

  /** The FIFO law: enqueuing xs and then dequeuing until the queue is empty
      yields the earlier contents followed by xs, in order. */
  method EnqueueAllThenDequeueAll<T(==)>(q: Queue<T>, xs: seq<T>) returns (out: seq<T>)
    requires q.maxSize.None? || |q.items| + |xs| <= q.maxSize.value
    modifies q
    ensures out == old(q.items) + xs
    ensures q.items == [] && q.maxSize == old(q.maxSize)
  {
    for i := 0 to |xs|
      invariant q.items == old(q.items) + xs[..i] && q.maxSize == old(q.maxSize)
    {
      var _ := q.Enqueue(xs[i]);
      assert xs[..i + 1] == xs[..i] + [xs[i]];
    }
    assert xs[..|xs|] == xs;
    out := [];
    while !q.IsEmpty()
      invariant out + q.items == old(q.items) + xs && q.maxSize == old(q.maxSize)
      decreases |q.items|
    {
      ghost var before := q.items;
      var r := q.Dequeue();
      assert before == [r.value] + q.items;
      out := out + [r.value];
    }
  }

  /** A double-ended queue over a list: front is items[0]. */
  class Deque<T> {
    var items: seq<T>

    constructor ()
      ensures items == []
    {
      items := [];
    }

    /** Inserts element before the front and returns the new size. */
    method AddFront(element: T) returns (r: nat)
      modifies this
      ensures items == [element] + old(items) && r == |items|
    {
      items := [element] + items;
      r := |items|;
    }

    /** Appends element after the rear and returns the new size. */
    method AddRear(element: T) returns (r: nat)
      modifies this
      ensures items == old(items) + [element] && r == |items|
    {
      items := items + [element];
      r := |items|;
    }

    /** Removes and returns the front element; raises Underflow when empty. */
    method RemoveFront() returns (r: Result<T>)
      modifies this
      ensures old(items) == [] ==> r == Err(Underflow) && items == []
      ensures old(items) != [] ==> r == Ok(old(items)[0]) && items == old(items)[1..]
    {
      if IsEmpty() {
        return Err(Underflow);
      }
      r := Ok(items[0]);
      items := items[1..];
    }

    /** Removes and returns the rear element; raises Underflow when empty. */
    method RemoveRear() returns (r: Result<T>)
      modifies this
      ensures old(items) == [] ==> r == Err(Underflow) && items == []
      ensures old(items) != [] ==> r == Ok(Last(old(items))) && items == DropLast(old(items))
    {
      if IsEmpty() {
        return Err(Underflow);
      }
      r := Ok(Last(items));
      items := DropLast(items);
    }

    /** The front element, or None when empty. */
    function PeekFront(): (r: Option<T>)
      reads this
      ensures r.None? <==> IsEmpty()
      ensures r.Some? ==> r.value == items[0]
    {
      if IsEmpty() then None else Some(items[0])
    }

    /** The rear element, or None when empty. */
    function PeekRear(): (r: Option<T>)
      reads this
      ensures r.None? <==> IsEmpty()
      ensures r.Some? ==> r.value == items[|items| - 1]
    {
      if IsEmpty() then None else Some(items[|items| - 1])
    }

    function IsEmpty(): (r: bool)
      reads this
      ensures r <==> Size() == 0
    {
      |items| == 0
    }

    function Size(): nat
      reads this
    {
      |items|
    }

    method Clear()
      modifies this
      ensures items == []
    {
      items := [];
    }

    /** A copy of the contents, front first. */
    function GetAll(): (r: seq<T>)
      reads this
      ensures |r| == Size() && forall k :: 0 <= k < |r| ==> r[k] == items[k]
      ensures r != [] ==> Some(r[0]) == PeekFront() && Some(r[|r| - 1]) == PeekRear()
    {
      items
    }
  }

  /** add_front followed by remove_front returns the added element and
      restores the previous contents. */
  method AddFrontThenRemoveFront<T>(d: Deque<T>, x: T) returns (r: Result<T>)
    modifies d
    ensures r == Ok(x) && d.items == old(d.items)
  {
    var _ := d.AddFront(x);
    r := d.RemoveFront();
  }

  /** add_rear followed by remove_rear returns the added element and restores
      the previous contents. */
  method AddRearThenRemoveRear<T>(d: Deque<T>, x: T) returns (r: Result<T>)
    modifies d
    ensures r == Ok(x) && d.items == old(d.items)
  {
    var _ := d.AddRear(x);
    r := d.RemoveRear();
    assert DropLast(old(d.items) + [x]) == old(d.items);
  }

  /** The demonstration: add_rear 1, add_front 2, add_rear 3, add_front 4
      gives [4, 2, 1, 3]; removing at both ends yields 4 and 3 and leaves
      [2, 1]. */
  method DequeDemoExample() returns (all: seq<int>, front: Result<int>, rear: Result<int>, after: seq<int>)
    ensures all == [4, 2, 1, 3] && front == Ok(4) && rear == Ok(3) && after == [2, 1]
  {
    var d := new Deque<int>();
    var size := d.AddRear(1);
    size := d.AddFront(2);
    size := d.AddRear(3);
    size := d.AddFront(4);
    all := d.GetAll();
    front := d.RemoveFront();
    rear := d.RemoveRear();
    after := d.GetAll();
  }
}
