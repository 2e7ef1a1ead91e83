/** The stable insertion-sorted priority queue of queue.py. */
module PriorityQueues {
  import opened Wrappers

  /** One queued pair; a higher priority is served sooner. */
  datatype Entry<T> = Entry(element: T, priority: int)

  /** Entries in non-increasing priority order, front first. */
  ghost predicate SortedByPriority<T>(s: seq<Entry<T>>)
  {
    forall i, j :: 0 <= i < j < |s| ==> s[i].priority >= s[j].priority
  }

  /** The entries of s whose priority is q, in their order in s. */
  function WithPriority<T>(s: seq<Entry<T>>, q: int): seq<Entry<T>>
  {
    if s == [] then []
    else (if s[0].priority == q then [s[0]] else []) + WithPriority(s[1..], q)
  }

  /** The index of the first entry with priority strictly below p, or |s|
      when there is none: where enqueue inserts an entry of priority p. */
  function InsertionPoint<T>(s: seq<Entry<T>>, p: int): (k: nat)
    ensures k <= |s|
    ensures forall j :: 0 <= j < k ==> s[j].priority >= p
    ensures k < |s| ==> s[k].priority < p
  {
    if s == [] then 0
    else if p > s[0].priority then 0
    else 1 + InsertionPoint(s[1..], p)
  }

  /** s with e inserted at its insertion point. */
  function Insert<T>(s: seq<Entry<T>>, e: Entry<T>): (r: seq<Entry<T>>)
    ensures |r| == |s| + 1 && e in r
  {
    var k := InsertionPoint(s, e.priority);
    s[..k] + [e] + s[k..]
  }

  /** The entries other than the first one of priority p, in order. */
  function RemoveFirstWithPriority<T>(s: seq<Entry<T>>, p: int): (r: seq<Entry<T>>)
    ensures |r| == if WithPriority(s, p) == [] then |s| else |s| - 1
    ensures multiset(r) <= multiset(s)
  {
    if s == [] then []
    else if s[0].priority == p then
      assert s == [s[0]] + s[1..];
      s[1..]
    else
      assert s == [s[0]] + s[1..];
      [s[0]] + RemoveFirstWithPriority(s[1..], p)
  }

  function Tail<T>(s: seq<T>): seq<T>
  {
    if s == [] then [] else s[1..]
  }

  lemma {:induction false} WithPriorityAppend<T>(a: seq<Entry<T>>, b: seq<Entry<T>>, q: int)
    ensures WithPriority(a + b, q) == WithPriority(a, q) + WithPriority(b, q)
    decreases |a|
  {
    if a == [] {
      assert a + b == b;
    } else {
      var head := if a[0].priority == q then [a[0]] else [];
      assert (a + b)[0] == a[0] && (a + b)[1..] == a[1..] + b;
      assert WithPriority(a + b, q) == head + WithPriority(a[1..] + b, q);
      WithPriorityAppend(a[1..], b, q);
      assert WithPriority(a, q) == head + WithPriority(a[1..], q);
      assert head + (WithPriority(a[1..], q) + WithPriority(b, q)) ==
             (head + WithPriority(a[1..], q)) + WithPriority(b, q);
    }
  }

  /** In a sorted sequence every entry from the insertion point of p on has a
      priority below p, so none of them has a priority q >= p. */
  lemma SortedTailBelow<T>(s: seq<Entry<T>>, p: int, q: int)
    requires SortedByPriority(s)
    requires q >= p
    ensures WithPriority(s[InsertionPoint(s, p)..], q) == []
  {
    var k := InsertionPoint(s, p);
    NoneWithPriority(s[k..], q);
  }

  lemma {:induction false} NoneWithPriority<T>(s: seq<Entry<T>>, q: int)
    requires forall j :: 0 <= j < |s| ==> s[j].priority < q
    ensures WithPriority(s, q) == []
    decreases |s|
  {
    if s != [] {
      NoneWithPriority(s[1..], q);
    }
  }

  /** Insertion keeps a sequence sorted by non-increasing priority. */
  lemma InsertKeepsSorted<T>(s: seq<Entry<T>>, e: Entry<T>)
    requires SortedByPriority(s)
    ensures SortedByPriority(Insert(s, e))
  {
    var k := InsertionPoint(s, e.priority);
    var r := Insert(s, e);
    assert forall i :: 0 <= i < |r| ==> r[i] == if i < k then s[i] else if i == k then e else s[i - 1];
  }

  /** Filtering distributes over a sequence with one entry spliced in. */
  lemma WithPrioritySplice<T>(pre: seq<Entry<T>>, e: Entry<T>, post: seq<Entry<T>>, q: int)
    ensures WithPriority(pre + [e] + post, q) ==
            WithPriority(pre, q) + (if e.priority == q then [e] else []) + WithPriority(post, q)
  {
    WithPriorityAppend(pre + [e], post, q);
    WithPriorityAppend(pre, [e], q);
    assert [e][1..] == [];
  }

  /** Insertion is stable: among entries of any one priority q, the new entry
      comes after all the old ones, which keep their order. */
  lemma InsertIsStable<T>(s: seq<Entry<T>>, e: Entry<T>, q: int)
    requires SortedByPriority(s)
    ensures WithPriority(Insert(s, e), q) ==
            WithPriority(s, q) + (if e.priority == q then [e] else [])
  {
    var k := InsertionPoint(s, e.priority);
    WithPrioritySplice(s[..k], e, s[k..], q);
    assert s == s[..k] + s[k..];
    WithPriorityAppend(s[..k], s[k..], q);
    if e.priority == q {
      SortedTailBelow(s, e.priority, q);
    }
  }

  /** Insertion adds exactly the new pair to the entries. */
  lemma InsertAddsEntry<T>(s: seq<Entry<T>>, e: Entry<T>)
    ensures |Insert(s, e)| == |s| + 1
    ensures multiset(Insert(s, e)) == multiset(s) + multiset{e}
  {
    var k := InsertionPoint(s, e.priority);
    assert s == s[..k] + s[k..];
  }

  /** Removing the first entry of priority p drops the first element of the
      priority-p entries and leaves the other priorities alone. */
  lemma {:induction false} RemoveFirstWithPriorityFilter<T>(s: seq<Entry<T>>, p: int, q: int)
    ensures WithPriority(RemoveFirstWithPriority(s, p), q) ==
            if q == p then Tail(WithPriority(s, q)) else WithPriority(s, q)
    decreases |s|
  {
    if s != [] && s[0].priority != p {
      RemoveFirstWithPriorityFilter(s[1..], p, q);
      assert ([s[0]] + RemoveFirstWithPriority(s[1..], p))[1..] == RemoveFirstWithPriority(s[1..], p);
    }
  }

  /** For a sorted sequence whose entries of each priority are those of the
      arrival log, in the same order: the front entry has the highest priority
      of all arrivals and is the earliest arrival of that priority. */
  lemma FrontIsHighestAndEarliest<T>(items: seq<Entry<T>>, arrivals: seq<Entry<T>>)
    requires SortedByPriority(items) && items != []
    requires forall q :: WithPriority(items, q) == WithPriority(arrivals, q)
    ensures forall e :: e in arrivals ==> e.priority <= items[0].priority
    ensures WithPriority(arrivals, items[0].priority) != []
    ensures WithPriority(arrivals, items[0].priority)[0] == items[0]
  {
    forall e | e in arrivals
      ensures e.priority <= items[0].priority
    {
      MemberWithPriority(arrivals, e);
      assert WithPriority(items, e.priority) != [];
      var j := SomeWithPriority(items, e.priority);
    }
  }

  lemma {:induction false} MemberWithPriority<T>(s: seq<Entry<T>>, e: Entry<T>)
    requires e in s
    ensures WithPriority(s, e.priority) != []
    decreases |s|
  {
    if s[0] != e {
      MemberWithPriority(s[1..], e);
    }
  }

  /** A witness position of an entry of priority q. */
  lemma {:induction false} SomeWithPriority<T>(s: seq<Entry<T>>, q: int) returns (j: nat)
    requires WithPriority(s, q) != []
    ensures j < |s| && s[j].priority == q
    decreases |s|
  {
    if s[0].priority == q {
      j := 0;
    } else {
      j := SomeWithPriority(s[1..], q);
      j := j + 1;
    }
  }

  /** A priority queue of (element, priority) pairs kept sorted by priority,
      stable among equal priorities. The ghost arrival log lists the entries
      still queued in the order they were enqueued. */
  class PriorityQueue<T> {
    var items: seq<Entry<T>>
    ghost var arrivals: seq<Entry<T>>

    ghost predicate Valid()
      reads this
    {
      SortedByPriority(items) &&
      forall q :: WithPriority(items, q) == WithPriority(arrivals, q)
    }

    constructor ()
      ensures Valid() && items == [] && arrivals == []
    {
      items := [];
      arrivals := [];
    }

    /** Inserts the pair before the first entry of strictly lower priority
        (at the end when there is none) and returns the new size. */
    method Enqueue(element: T, priority: int) returns (r: nat)
      requires Valid()
      modifies this
      ensures Valid()
      ensures items == Insert(old(items), Entry(element, priority))
      ensures arrivals == old(arrivals) + [Entry(element, priority)]
      ensures r == |items| == |old(items)| + 1
    {
      var queueElement := Entry(element, priority);
      ghost var s := items;
      if IsEmpty() {
        items := items + [queueElement];
      } else {
        var added := false;
        var i := 0;
        while i < |items|
          invariant 0 <= i <= |s| && items == s && !added
          invariant forall j :: 0 <= j < i ==> s[j].priority >= priority
        {
          if queueElement.priority > items[i].priority {
            items := items[..i] + [queueElement] + items[i..];
            added := true;
            break;
          }
          i := i + 1;
        }
        if !added {
          items := items + [queueElement];
          assert s[..i] == s && s[i..] == [];
        }
        InsertionPointIs(s, priority, i);
      }
      assert items == Insert(s, queueElement);
      InsertKeepsArrivalOrder(s, arrivals, queueElement);
      arrivals := arrivals + [queueElement];
      r := |items|;
    }

    /** Removes and returns the element of the front pair; raises Underflow
        when empty. */
    method Dequeue() returns (r: Result<T>)
      requires Valid()
      modifies this
      ensures Valid()
      ensures old(items) == [] ==> r == Err(Underflow) && items == [] && arrivals == old(arrivals)
      ensures old(items) != [] ==>
                r == Ok(old(items)[0].element) && items == old(items)[1..] &&
                arrivals == RemoveFirstWithPriority(old(arrivals), old(items)[0].priority)
    {
      if IsEmpty() {
        return Err(Underflow);
      }
      var head := items[0];
      DropFrontKeepsArrivalOrder(items, arrivals);
      items := items[1..];
      arrivals := RemoveFirstWithPriority(arrivals, head.priority);
      r := Ok(head.element);
    }

    /** The element of the front pair, or None when empty. */
    function Front(): (r: Option<T>)
      reads this
      ensures r.None? <==> IsEmpty()
      ensures r.Some? ==> r.value == items[0].element
    {
      if IsEmpty() then None else Some(items[0].element)
    }

    function IsEmpty(): (r: bool)
      reads this
      ensures r <==> Size() == 0
    {
      |items| == 0
    }

    function Size(): nat
      reads this
    {
      |items|
    }

    method Clear()
      modifies this
      ensures Valid() && items == [] && arrivals == []
    {
      items := [];
      arrivals := [];
    }

    /** Copies of the pairs in their current order, front first: sorted by
        non-increasing priority, and per priority in arrival order. */
    function GetAll(): (r: seq<Entry<T>>)
      requires Valid()
      reads this
      ensures |r| == Size() && forall k :: 0 <= k < |r| ==> r[k] == items[k]
      ensures SortedByPriority(r)
      ensures forall q :: WithPriority(r, q) == WithPriority(arrivals, q)
      ensures r != [] ==> Front() == Some(r[0].element)
    {
      items
    }
  }

  /** The scan of enqueue stops at the insertion point. */
  lemma {:induction false} InsertionPointIs<T>(s: seq<Entry<T>>, p: int, i: nat)
    requires i <= |s|
    requires forall j :: 0 <= j < i ==> s[j].priority >= p
    requires i < |s| ==> s[i].priority < p
    ensures InsertionPoint(s, p) == i
  {
    if i > 0 {
      assert s[0].priority >= p;
      InsertionPointIs(s[1..], p, i - 1);
    }
  }

  /** Enqueue keeps the representation invariant: inserting e into a sorted
      sequence that agrees per priority with the arrival log yields a sorted
      sequence that agrees per priority with the log extended by e. */
  lemma InsertKeepsArrivalOrder<T>(items: seq<Entry<T>>, arrivals: seq<Entry<T>>, e: Entry<T>)
    requires SortedByPriority(items)
    requires forall q :: WithPriority(items, q) == WithPriority(arrivals, q)
    ensures SortedByPriority(Insert(items, e))
    ensures forall q :: WithPriority(Insert(items, e), q) == WithPriority(arrivals + [e], q)
    ensures |Insert(items, e)| == |items| + 1
  {
    InsertKeepsSorted(items, e);
    forall q
      ensures WithPriority(Insert(items, e), q) == WithPriority(arrivals + [e], q)
    {
      InsertIsStable(items, e, q);
      WithPriorityAppend(arrivals, [e], q);
      assert WithPriority([e], q) == if e.priority == q then [e] else [];
    }
    InsertAddsEntry(items, e);
  }

  /** Dequeue keeps the representation invariant: dropping the front entry
      removes the earliest arrival of its priority from the log. */
  lemma DropFrontKeepsArrivalOrder<T>(items: seq<Entry<T>>, arrivals: seq<Entry<T>>)
    requires SortedByPriority(items) && items != []
    requires forall q :: WithPriority(items, q) == WithPriority(arrivals, q)
    ensures SortedByPriority(items[1..])
    ensures forall q :: WithPriority(items[1..], q) ==
                        WithPriority(RemoveFirstWithPriority(arrivals, items[0].priority), q)
  {
    forall q
      ensures WithPriority(items[1..], q) ==
              WithPriority(RemoveFirstWithPriority(arrivals, items[0].priority), q)
    {
      RemoveFirstWithPriorityFilter(arrivals, items[0].priority, q);
    }
  }

  /** Equal priorities are served in arrival order and a higher priority goes
      first: enqueue a at 1, b at 3, c at 3; the dequeues yield b, c, a. */
  method StableOrderExample() returns (first: Result<char>, second: Result<char>, third: Result<char>)
    ensures first == Ok('b') && second == Ok('c') && third == Ok('a')
  {
    var q := new PriorityQueue<char>();
    var size := q.Enqueue('a', 1);
    size := q.Enqueue('b', 3);
    size := q.Enqueue('c', 3);
    first := q.Dequeue();
    second := q.Dequeue();
    third := q.Dequeue();
  }

  /** The demonstration: Task1 at 1, Urgent Task at 5, Task2 at 2, Critical
      Task at 4; the queue lists them by priority and Urgent Task is next. */
  method DemoExample() returns (all: seq<Entry<string>>, next: Option<string>)
    ensures all == [Entry("Urgent Task", 5), Entry("Critical Task", 4),
                    Entry("Task2", 2), Entry("Task1", 1)]
    ensures next == Some("Urgent Task")
  {
    var q := new PriorityQueue<string>();
    var size := q.Enqueue("Task1", 1);
    assert q.items == [Entry("Task1", 1)];
    size := q.Enqueue("Urgent Task", 5);
    assert q.items == [Entry("Urgent Task", 5), Entry("Task1", 1)];
    ghost var before := q.items;
    assert before[1..] == [Entry("Task1", 1)];
    assert InsertionPoint(before, 2) == 1;
    size := q.Enqueue("Task2", 2);
    assert q.items == [Entry("Urgent Task", 5), Entry("Task2", 2), Entry("Task1", 1)];
    before := q.items;
    assert before[1..] == [Entry("Task2", 2), Entry("Task1", 1)];
    assert InsertionPoint(before, 4) == 1;
    size := q.Enqueue("Critical Task", 4);
    all := q.GetAll();
    next := q.Front();
  }
}
