/** The LIFO containers of stack.py: a stack with an optional bound and a
    stack that also reports its current minimum. */
module Stacks {
  import opened Wrappers
  import opened Sequences

  /** A list-backed stack; the top is the last element of items. */
  class Stack<T(==)> {
    var items: seq<T>
    var maxSize: Option<int>

    constructor (maxSize: Option<int>)
      ensures items == [] && this.maxSize == maxSize
    {
      items := [];
      this.maxSize := maxSize;
    }

    /** The guard of push: a bound is set and already reached. */
    predicate AtCapacity()
      reads this
    {
      maxSize.Some? && |items| >= maxSize.value
    }

    /** Adds element on top and returns the new size; raises Overflow, changing
        nothing, when the bound is reached. */
    method Push(element: T) returns (r: Result<nat>)
      modifies this
      ensures maxSize == old(maxSize)
      ensures old(AtCapacity()) ==> r == Err(Overflow) && items == old(items)
      ensures !old(AtCapacity()) ==> items == old(items) + [element] && r == Ok(|items|)
    {
      if AtCapacity() {
        return Err(Overflow);
      }
      items := items + [element];
      r := Ok(|items|);
    }

    /** Removes and returns the top element; raises Underflow on an empty stack. */
    method Pop() returns (r: Result<T>)
      modifies this
      ensures maxSize == old(maxSize)
      ensures old(items) == [] ==> r == Err(Underflow) && items == []
      ensures old(items) != [] ==> r == Ok(Last(old(items))) && items == DropLast(old(items))
    {
      if IsEmpty() {
        return Err(Underflow);
      }
      r := Ok(Last(items));
      items := DropLast(items);
    }

    /** The top element, or None on an empty stack. */
    function Peek(): (r: Option<T>)
      reads this
      ensures r.None? <==> IsEmpty()
      ensures r.Some? ==> r.value == items[|items| - 1]
    {
      if IsEmpty() then None else Some(items[|items| - 1])
    }

    function IsEmpty(): (r: bool)
      reads this
      ensures r <==> Size() == 0
    {
      |items| == 0
    }

    function Size(): nat
      reads this
    {
      |items|
    }

    method Clear()
      modifies this
      ensures items == [] && maxSize == old(maxSize)
    {
      items := [];
    }

    /** Replaces the bound; the current contents are kept even when they
        already exceed the new bound. */
    method SetMaxSize(size: Option<int>)
      modifies this
      ensures maxSize == size && items == old(items)
    {
      maxSize := size;
    }

    /** A copy of the contents, bottom first: position k of it is the element
        at distance Size() - 1 - k from the top. */
    function GetAll(): (r: seq<T>)
      reads this
      ensures |r| == Size()
      ensures forall k :: 0 <= k < |r| ==> ElementAt(|r| - 1 - k) == Some(r[k])
    {
      items
    }

    /** The distance from the top of the topmost occurrence of element, or -1. */
    function Search(element: T): (r: int)
      reads this
      ensures -1 <= r < Size()
      ensures r == -1 <==> element !in items
      ensures r >= 0 ==> ElementAt(r) == Some(element)
      ensures r >= 0 ==> forall j :: 0 <= j < r ==> ElementAt(j) != Some(element)
    {
      ReverseIsMirror(items);
      var fromTop := FirstIndexOf(Reverse(items), element);
      assert element in Reverse(items) <==> element in items by {
        forall x | x in items ensures x in Reverse(items) {
          var k :| 0 <= k < |items| && items[k] == x;
          assert Reverse(items)[|items| - 1 - k] == x;
        }
      }
      if fromTop == -1 then -1
      else
        assert forall j :: 0 <= j < fromTop ==> ElementAt(j) == Some(Reverse(items)[j]);
        var index := |items| - 1 - fromTop;
        |items| - 1 - index
    }

    /** The element at distance position from the top, or None out of range. */
    function ElementAt(position: int): (r: Option<T>)
      reads this
      ensures r.None? <==> position < 0 || position >= Size()
      ensures r.Some? ==> r.value == items[|items| - 1 - position]
      ensures position == 0 ==> r == Peek()
    {
      if position < 0 || position >= |items| then None
      else Some(items[|items| - 1 - position])
    }
  }

  /** A push that is admitted, followed by a pop, returns the pushed element
      and restores the previous contents. */
  method PushThenPop<T(==)>(s: Stack<T>, x: T) returns (pushed: Result<nat>, popped: Option<T>)
    modifies s
    ensures pushed.Err? <==> old(s.AtCapacity())
    ensures pushed.Ok? ==> popped == Some(x)
    ensures s.items == old(s.items) && s.maxSize == old(s.maxSize)
  {
    pushed := s.Push(x);
    popped := None;
    if pushed.Ok? {
      var r := s.Pop();
      popped := Some(r.value);
    }
  }

  /** The LIFO law: pushing xs and then popping until the stack is empty
      yields the earlier contents followed by xs, in reverse order. */
  method PushAllThenPopAll<T(==)>(s: Stack<T>, xs: seq<T>) returns (out: seq<T>)
    requires s.maxSize.None? || |s.items| + |xs| <= s.maxSize.value
    modifies s
    ensures out == Reverse(old(s.items) + xs)
    ensures s.items == [] && s.maxSize == old(s.maxSize)
  {
    for i := 0 to |xs|
      invariant s.items == old(s.items) + xs[..i] && s.maxSize == old(s.maxSize)
    {
      var _ := s.Push(xs[i]);
      assert xs[..i + 1] == xs[..i] + [xs[i]];
    }
    assert xs[..|xs|] == xs;
    out := [];
    while !s.IsEmpty()
      invariant out + Reverse(s.items) == Reverse(old(s.items) + xs) && s.maxSize == old(s.maxSize)
      decreases |s.items|
    {
      ghost var before := s.items;
      var r := s.Pop();
      assert Reverse(before) == [r.value] + Reverse(s.items);
      out := out + [r.value];
    }
  }

  /** The running minima of s: the elements that were no larger than every
      element below them when pushed, bottom first. This is the list the
      minimum-tracking stack keeps beside its items. */
  function PrefixMinima(s: seq<int>): (r: seq<int>)
    ensures |r| <= |s|
  {
    if s == [] then []
    else
      var m := PrefixMinima(DropLast(s));
      if m == [] || Last(s) <= Last(m) then m + [Last(s)] else m
  }

  ghost predicate NonIncreasing(s: seq<int>)
  {
    forall i, j :: 0 <= i < j < |s| ==> s[i] >= s[j]
  }

  /** a can be obtained from b by deleting elements (matched from the end). */
  predicate IsSubsequence<T(==)>(a: seq<T>, b: seq<T>)
    decreases |b|
  {
    if a == [] then true
    else if b == [] then false
    else if Last(a) == Last(b) then IsSubsequence(DropLast(a), DropLast(b))
    else IsSubsequence(a, DropLast(b))
  }

  lemma {:induction false} SubsequenceExtend<T>(a: seq<T>, b: seq<T>, x: T)
    requires IsSubsequence(a, b)
    ensures IsSubsequence(a, b + [x])
    decreases |b|, 1
  {
    assert DropLast(b + [x]) == b;
    if a != [] && Last(a) == x {
      SubsequenceDropLast(a, b);
    }
  }

  lemma {:induction false} SubsequenceDropLast<T>(a: seq<T>, b: seq<T>)
    requires a != [] && IsSubsequence(a, b)
    ensures IsSubsequence(DropLast(a), b)
    decreases |b|, 0
  {
    if DropLast(a) != [] {
      if Last(a) == Last(b) {
        SubsequenceExtend(DropLast(a), DropLast(b), Last(b));
        assert DropLast(b) + [Last(b)] == b;
      } else {
        SubsequenceDropLast(a, DropLast(b));
        SubsequenceExtend(DropLast(a), DropLast(b), Last(b));
        assert DropLast(b) + [Last(b)] == b;
      }
    }
  }

  /** The last running minimum is an element of s no larger than any other. */
  lemma {:induction false} PrefixMinimaLastIsMinimum(s: seq<int>)
    ensures PrefixMinima(s) == [] <==> s == []
    ensures s != [] ==> Last(PrefixMinima(s)) in s
    ensures s != [] ==> forall x :: x in s ==> Last(PrefixMinima(s)) <= x
  {
    if s != [] {
      var p := DropLast(s);
      PrefixMinimaLastIsMinimum(p);
      assert s == p + [Last(s)];
    }
  }

  /** The running minima are non-increasing and a subsequence of s. */
  lemma PrefixMinimaShape(s: seq<int>)
    ensures NonIncreasing(PrefixMinima(s))
    ensures IsSubsequence(PrefixMinima(s), s)
  {
    PrefixMinimaNonIncreasing(s);
    PrefixMinimaSubsequence(s);
  }

  lemma {:induction false} PrefixMinimaNonIncreasing(s: seq<int>)
    ensures NonIncreasing(PrefixMinima(s))
  {
    if s != [] {
      var m := PrefixMinima(DropLast(s));
      PrefixMinimaNonIncreasing(DropLast(s));
      if m == [] || Last(s) <= Last(m) {
        var r := m + [Last(s)];
        assert forall i :: 0 <= i < |m| ==> r[i] == m[i] && m[i] >= Last(m);
      }
    }
  }

  lemma {:induction false} PrefixMinimaSubsequence(s: seq<int>)
    ensures IsSubsequence(PrefixMinima(s), s)
  {
    if s != [] {
      var p := DropLast(s);
      var m := PrefixMinima(p);
      PrefixMinimaSubsequence(p);
      if m == [] || Last(s) <= Last(m) {
        assert Last(m + [Last(s)]) == Last(s);
        assert DropLast(m + [Last(s)]) == m;
      } else {
        SubsequenceExtend(m, p, Last(s));
        assert p + [Last(s)] == s;
      }
    }
  }

  /** Popping the top of s removes the last running minimum exactly when the
      popped element equals it: the update StackWithMin.Pop performs. */
  lemma PrefixMinimaAfterPop(s: seq<int>)
    requires s != []
    ensures PrefixMinima(s) != []
    ensures PrefixMinima(DropLast(s)) ==
            if Last(s) == Last(PrefixMinima(s)) then DropLast(PrefixMinima(s)) else PrefixMinima(s)
  {
    var m := PrefixMinima(DropLast(s));
    if m == [] || Last(s) <= Last(m) {
      assert DropLast(m + [Last(s)]) == m;
    }
  }

  /** A stack of integers that also reports its minimum. The source derives it
      from Stack; here it holds a Stack and the list of running minima. */
  class StackWithMin {
    const base: Stack<int>
    var minStack: seq<int>

    ghost predicate Valid()
      reads this, base
    {
      minStack == PrefixMinima(base.items)
    }

    constructor (maxSize: Option<int>)
      ensures Valid() && fresh(base)
      ensures base.items == [] && base.maxSize == maxSize
    {
      base := new Stack(maxSize);
      minStack := [];
    }

    /** Pushes like Stack.Push (but returns no size) and records element as a
        running minimum when it is no larger than the current one. */
    method Push(element: int) returns (r: Result<()>)
      requires Valid()
      modifies this, base
      ensures Valid() && base.maxSize == old(base.maxSize)
      ensures old(base.AtCapacity()) ==> r == Err(Overflow) && base.items == old(base.items)
      ensures !old(base.AtCapacity()) ==> r == Ok(()) && base.items == old(base.items) + [element]
    {
      var pushed := base.Push(element);
      if pushed.Err? {
        return Err(pushed.error);
      }
      assert DropLast(base.items) == old(base.items);
      if minStack == [] || element <= minStack[|minStack| - 1] {
        minStack := minStack + [element];
      }
      r := Ok(());
    }

    /** Pops like Stack.Pop and drops the last running minimum when the popped
        element equals it. */
    method Pop() returns (r: Result<int>)
      requires Valid()
      modifies this, base
      ensures Valid() && base.maxSize == old(base.maxSize)
      ensures old(base.items) == [] ==> r == Err(Underflow) && base.items == []
      ensures old(base.items) != [] ==>
                r == Ok(Last(old(base.items))) && base.items == DropLast(old(base.items))
    {
      var popped := base.Pop();
      if popped.Err? {
        return Err(popped.error);
      }
      PrefixMinimaAfterPop(old(base.items));
      if popped.value == minStack[|minStack| - 1] {
        minStack := minStack[..|minStack| - 1];
      }
      r := Ok(popped.value);
    }

    /** The minimum of the stack, or None when it is empty. */
    function GetMin(): (r: Option<int>)
      reads this, base
      ensures Valid() ==> (r.None? <==> base.items == [])
      ensures Valid() && r.Some? ==> r.value in base.items
      ensures Valid() && r.Some? ==> forall x :: x in base.items ==> r.value <= x
    {
      PrefixMinimaLastIsMinimum(base.items);
      if minStack == [] then None else Some(minStack[|minStack| - 1])
    }

    /** Empties the stack and its running minima together. */
    method Clear()
      requires Valid()
      modifies this, base
      ensures Valid() && base.items == [] && base.maxSize == old(base.maxSize)
      ensures GetMin() == None
    {
      base.Clear();
      minStack := [];
    }
  }

  /** The source's StackWithMin inherits Stack.clear, which empties the items
      but not the running minima: after push(1) and clear(), get_min() still
      answers 1 for an empty stack. */
  method StaleMinimumAfterInheritedClear() returns (contents: seq<int>, min: Option<int>)
    ensures contents == [] && min == Some(1)
  {
    var s := new StackWithMin(None);
    var _ := s.Push(1);
    s.base.Clear();
    contents := s.base.items;
    min := s.GetMin();
  }
}
