/**
  Generic sequence operations the resolver is built from: JavaScript's
  `Array.prototype.findIndex` and `slice`, removal and insertion at an index,
  and `arrayMove` from the sortable drag-and-drop library.
 */
module Seqs {

  function Min(x: int, y: int): int {
    if x <= y then x else y
  }

  /** `s.findIndex(p)`: the first index whose element satisfies `p`, or -1. */
  function FindIndex<T>(s: seq<T>, p: T -> bool): (r: int)
    ensures -1 <= r < |s|
    ensures r >= 0 ==> p(s[r]) && forall k :: 0 <= k < r ==> !p(s[k])
    ensures r < 0 <==> forall k :: 0 <= k < |s| ==> !p(s[k])
    decreases |s|
  {
    if |s| == 0 then -1
    else if p(s[0]) then 0
    else
      var t := FindIndex(s[1..], p);
      assert forall k :: 1 <= k < |s| ==> s[k] == s[1..][k - 1];
      if t < 0 then -1 else t + 1
  }

  /**
    `s.slice(start, end)` for non-negative arguments: both bounds are clamped
    to the length, and an empty range gives the empty sequence.
   */
  function Slice<T>(s: seq<T>, start: nat, end: nat): (r: seq<T>)
    ensures start <= end <= |s| ==> r == s[start..end]
    ensures start <= |s| <= end ==> r == s[start..]
    ensures end <= start || |s| <= start ==> r == []
  {
    var lo := Min(start, |s|);
    var hi := Min(end, |s|);
    if lo < hi then s[lo..hi] else []
  }

  /** The sequence without its element at index `k`; the others keep their order. */
  function Remove<T>(s: seq<T>, k: nat): (r: seq<T>)
    requires k < |s|
    ensures |r| == |s| - 1
    ensures forall n :: 0 <= n < k ==> r[n] == s[n]
    ensures forall n :: k <= n < |r| ==> r[n] == s[n + 1]
    ensures multiset(r) + multiset{s[k]} == multiset(s)
  {
    assert s == s[..k] + [s[k]] + s[k + 1..];
    s[..k] + s[k + 1..]
  }

  /** The sequence with `x` placed at index `k`; the others keep their order. */
  function Insert<T>(s: seq<T>, k: nat, x: T): (r: seq<T>)
    requires k <= |s|
    ensures |r| == |s| + 1
    ensures r[k] == x
    ensures forall n :: 0 <= n < k ==> r[n] == s[n]
    ensures forall n :: k < n < |r| ==> r[n] == s[n - 1]
    ensures multiset(r) == multiset(s) + multiset{x}
  {
    assert s == s[..k] + s[k..];
    s[..k] + [x] + s[k..]
  }

  /** Removing what was just inserted gives back the original sequence. */
  lemma RemoveInsert<T>(s: seq<T>, k: nat, x: T)
    requires k <= |s|
    ensures Remove(Insert(s, k, x), k) == s
  {
    var r := Remove(Insert(s, k, x), k);
    assert |r| == |s|;
    forall n | 0 <= n < |s|
      ensures r[n] == s[n]
    {
      if n < k {
        assert r[n] == Insert(s, k, x)[n];
      } else {
        assert r[n] == Insert(s, k, x)[n + 1];
      }
    }
  }

  /** Putting a removed element back where it was gives back the original sequence. */
  lemma InsertRemove<T>(s: seq<T>, k: nat)
    requires k < |s|
    ensures Insert(Remove(s, k), k, s[k]) == s
  {
    var r := Insert(Remove(s, k), k, s[k]);
    assert |r| == |s|;
    forall n | 0 <= n < |s|
      ensures r[n] == s[n]
    {
      if n < k {
        assert r[n] == Remove(s, k)[n];
      } else if n > k {
        assert r[n] == Remove(s, k)[n - 1];
      }
    }
  }

  /**
    `arrayMove(s, from, to)`: take the element at `from` out and put it back at
    `to`. Only indices inside the sequence are modelled.
   */
  function ArrayMove<T>(s: seq<T>, from: nat, to: nat): (r: seq<T>)
    requires from < |s| && to < |s|
    ensures |r| == |s|
    ensures r[to] == s[from]
    ensures Remove(r, to) == Remove(s, from)
    ensures multiset(r) == multiset(s)
  {
    RemoveInsert(Remove(s, from), to, s[from]);
    Insert(Remove(s, from), to, s[from])
  }

  /**
    An independent, position-by-position description of a move: the moved
    element lands at `to`, the elements strictly between the two positions
    shift by one slot towards `from`, and everything else stays put.
   */
  function Shifted<T>(s: seq<T>, from: nat, to: nat): (r: seq<T>)
    requires from < |s| && to < |s|
  {
    seq(|s|, n requires 0 <= n < |s| =>
      if n == to then s[from]
      else if from < to && from <= n < to then s[n + 1]
      else if to < from && to < n <= from then s[n - 1]
      else s[n])
  }

  lemma ArrayMoveIsShift<T>(s: seq<T>, from: nat, to: nat)
    requires from < |s| && to < |s|
    ensures ArrayMove(s, from, to) == Shifted(s, from, to)
  {
    var r := ArrayMove(s, from, to);
    var t := Remove(s, from);
    assert r == Insert(t, to, s[from]);
    forall n | 0 <= n < |s|
      ensures r[n] == Shifted(s, from, to)[n]
    {
      if n < to {
        assert r[n] == t[n];
      } else if n > to {
        assert r[n] == t[n - 1];
      }
    }
  }

  /** Moving back from `to` to `from` undoes a move. */
  lemma ArrayMoveRoundTrip<T>(s: seq<T>, from: nat, to: nat)
    requires from < |s| && to < |s|
    ensures ArrayMove(ArrayMove(s, from, to), to, from) == s
  {
    var m := ArrayMove(s, from, to);
    assert ArrayMove(m, to, from) == Insert(Remove(m, to), from, m[to]);
    InsertRemove(s, from);
  }

  /** Two equal elements at different positions make a count of at least two. */
  lemma CountTwo<T>(s: seq<T>, p: nat, q: nat)
    requires p < q < |s|
    ensures s[p] == s[q] ==> multiset(s)[s[p]] >= 2
  {
    assert s == s[..p] + [s[p]] + s[p + 1..q] + [s[q]] + s[q + 1..];
  }
}
