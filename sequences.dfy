/** Sequence helpers shared by the containers: the last element, reversal
    (Python's `[::-1]`) and the first-occurrence search of `list.index`. */
module Sequences {

  function Last<T>(s: seq<T>): T
    requires s != []
  {
    s[|s| - 1]
  }

  function DropLast<T>(s: seq<T>): seq<T>
    requires s != []
  {
    s[..|s| - 1]
  }

  /** The elements of s from the last to the first. */
  function Reverse<T>(s: seq<T>): (r: seq<T>)
    ensures |r| == |s|
  {
    if s == [] then [] else [Last(s)] + Reverse(DropLast(s))
  }

  /** Position k of the reversal holds position |s| - 1 - k of the original. */
  lemma {:induction false} ReverseAt<T>(s: seq<T>, k: int)
    requires 0 <= k < |s|
    ensures Reverse(s)[k] == s[|s| - 1 - k]
  {
    if k > 0 {
      ReverseAt(DropLast(s), k - 1);
    }
  }

  /** The pointwise characterisation of Reverse, for every position at once. */
  lemma ReverseIsMirror<T>(s: seq<T>)
    ensures |Reverse(s)| == |s|
    ensures forall k :: 0 <= k < |s| ==> Reverse(s)[k] == s[|s| - 1 - k]
  {
    forall k | 0 <= k < |s|
      ensures Reverse(s)[k] == s[|s| - 1 - k]
    {
      ReverseAt(s, k);
    }
  }

  /** Reversing twice gives the original sequence back. */
  lemma ReverseInvolution<T>(s: seq<T>)
    ensures Reverse(Reverse(s)) == s
  {
    ReverseIsMirror(s);
    ReverseIsMirror(Reverse(s));
  }

  /** The index of the first occurrence of x in s, or -1 when x does not
      occur (where `list.index` raises ValueError, which every caller turns
      into -1). */
  function FirstIndexOf<T(==)>(s: seq<T>, x: T): (r: int)
    ensures -1 <= r < |s|
    ensures r == -1 <==> x !in s
    ensures 0 <= r ==> s[r] == x && forall j :: 0 <= j < r ==> s[j] != x
  {
    if s == [] then -1
    else if s[0] == x then 0
    else
      var i := FirstIndexOf(s[1..], x);
      if i == -1 then -1 else i + 1
  }
}
