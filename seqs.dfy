/** Sequence helpers used by the geometry and sieve modules: an order-preserving
    filter with the indices it selects, and sequence reversal. */
module Seqs {

  /** The elements of `s` that satisfy `keep`, in their original order.
      Defined by peeling off the last element, the way a loop that appends
      grows its result. */
  function Filter<T>(s: seq<T>, keep: T -> bool): (r: seq<T>)
    ensures |r| <= |s|
    ensures forall k :: 0 <= k < |r| ==> r[k] in s && keep(r[k])
    ensures forall i :: 0 <= i < |s| && keep(s[i]) ==> s[i] in r
    decreases |s|
  {
    if s == [] then []
    else
      var init := s[..|s| - 1];
      assert s == init + [s[|s| - 1]];
      Filter(init, keep) + (if keep(s[|s| - 1]) then [s[|s| - 1]] else [])
  }

  /** The positions of `s` whose elements satisfy `keep`, in increasing order. */
  function FilterIndices<T>(s: seq<T>, keep: T -> bool): seq<nat>
    decreases |s|
  {
    if s == [] then []
    else FilterIndices(s[..|s| - 1], keep) + (if keep(s[|s| - 1]) then [|s| - 1] else [])
  }

  /** `r` is `s` restricted to the strictly increasing positions `idx`. */
  ghost predicate Selects<T>(r: seq<T>, s: seq<T>, idx: seq<nat>) {
    && |r| == |idx|
    && (forall k :: 0 <= k < |idx| ==> idx[k] < |s| && r[k] == s[idx[k]])
    && (forall k, l :: 0 <= k < l < |idx| ==> idx[k] < idx[l])
  }

  /** FilterIndices holds positions of `s`, and a position is among them
      exactly when its element satisfies `keep`. */
  lemma {:induction false} FilterIndicesIn<T>(s: seq<T>, keep: T -> bool)
    ensures forall k :: 0 <= k < |FilterIndices(s, keep)| ==> FilterIndices(s, keep)[k] < |s|
    ensures forall i :: 0 <= i < |s| ==> (i in FilterIndices(s, keep) <==> keep(s[i]))
    decreases |s|
  {
    if s != [] {
      var n := |s| - 1;
      var init := s[..n];
      FilterIndicesIn(init, keep);
      forall i | 0 <= i < |s|
        ensures i in FilterIndices(s, keep) <==> keep(s[i])
      {
        if i < n {
          assert s[i] == init[i];
        }
      }
    }
  }

  /** A selection of `s` stays a selection of `s + [x]`, and can be
      extended by the new last position. */
  lemma SelectsExtend<T>(r: seq<T>, s: seq<T>, idx: seq<nat>, x: T)
    requires Selects(r, s, idx)
    ensures Selects(r, s + [x], idx)
    ensures Selects(r + [x], s + [x], idx + [|s|])
  {
    var s', r', idx' := s + [x], r + [x], idx + [|s|];
    forall k | 0 <= k < |idx'|
      ensures idx'[k] < |s'| && r'[k] == s'[idx'[k]]
    {
      if k < |idx| {
        assert r'[k] == r[k] && idx'[k] == idx[k] && s'[idx[k]] == s[idx[k]];
      }
    }
    forall k | 0 <= k < |idx|
      ensures r[k] == s'[idx[k]]
    {
      assert s'[idx[k]] == s[idx[k]];
    }
  }

  /** Filter keeps exactly the positions whose element satisfies `keep`, and
      keeps them in order: together this determines the result uniquely. */
  lemma {:induction false} FilterSelects<T>(s: seq<T>, keep: T -> bool)
    ensures Selects(Filter(s, keep), s, FilterIndices(s, keep))
    ensures forall i :: 0 <= i < |s| ==> (i in FilterIndices(s, keep) <==> keep(s[i]))
    decreases |s|
  {
    FilterIndicesIn(s, keep);
    if s != [] {
      var n := |s| - 1;
      var init := s[..n];
      assert s == init + [s[n]];
      FilterSelects(init, keep);
      SelectsExtend(Filter(init, keep), init, FilterIndices(init, keep), s[n]);
    }
  }

  /** The elements of `s` in reverse order. */
  function Reverse<T>(s: seq<T>): (r: seq<T>)
    ensures |r| == |s|
    ensures forall i :: 0 <= i < |s| ==> r[i] == s[|s| - 1 - i]
    decreases |s|
  {
    if s == [] then [] else Reverse(s[1..]) + [s[0]]
  }
}
