/** Order-preserving selection from a sequence, the shape shared by pandas'
    boolean-mask indexing (`df.loc[mask]`) and `dropna`. */
module Seqs {

  /** The elements of `s` that satisfy `p`, in their original order. */
  function Where<T(==,!new)>(s: seq<T>, p: T -> bool): (r: seq<T>)
    ensures |r| <= |s|
    ensures forall x :: x in r <==> x in s && p(x)
  {
    if s == [] then []
    else if p(s[0]) then [s[0]] + Where(s[1..], p)
    else Where(s[1..], p)
  }

  /** `idx` lists, in strictly increasing order, positions of `s` whose elements
      make up `r`: `r` is `s` with some elements removed and the rest kept in order. */
  predicate SubsequenceAt<T(==,!new)>(r: seq<T>, s: seq<T>, idx: seq<int>) {
    && |idx| == |r|
    && (forall k :: 0 <= k < |idx| ==> 0 <= idx[k] < |s| && r[k] == s[idx[k]])
    && (forall k, l :: 0 <= k < l < |idx| ==> idx[k] < idx[l])
  }

  function Shift(idx: seq<int>, d: int): (r: seq<int>)
    ensures |r| == |idx|
    ensures forall k :: 0 <= k < |idx| ==> r[k] == idx[k] + d
  {
    seq(|idx|, k requires 0 <= k < |idx| => idx[k] + d)
  }

  /** `Where` keeps exactly the positions whose element satisfies `p`, in order. */
  lemma {:induction false} WhereSubsequence<T(!new)>(s: seq<T>, p: T -> bool) returns (idx: seq<int>)
    ensures SubsequenceAt(Where(s, p), s, idx)
    ensures forall i :: 0 <= i < |s| ==> (i in idx <==> p(s[i]))
  {
    idx := WherePositions(s, p);
    forall i | 0 <= i < |s| && i in idx ensures p(s[i]) {
      var k :| 0 <= k < |idx| && idx[k] == i;
      assert Where(s, p)[k] in Where(s, p);
    }
  }

  lemma {:induction false} WherePositions<T(!new)>(s: seq<T>, p: T -> bool) returns (idx: seq<int>)
    ensures SubsequenceAt(Where(s, p), s, idx)
    ensures forall i :: 0 <= i < |s| && p(s[i]) ==> i in idx
  {
    if s == [] {
      idx := [];
    } else {
      var rest := WherePositions(s[1..], p);
      var tail := Shift(rest, 1);
      ShiftKeeps(s, p, rest, tail);
      if p(s[0]) {
        idx := [0] + tail;
        ConsKeeps(s, Where(s[1..], p), tail);
        assert Where(s, p) == [s[0]] + Where(s[1..], p);
      } else {
        idx := tail;
        assert Where(s, p) == Where(s[1..], p);
      }
    }
  }

  lemma ConsKeeps<T(!new)>(s: seq<T>, r: seq<T>, tail: seq<int>)
    requires s != []
    requires SubsequenceAt(r, s, tail)
    requires forall k :: 0 <= k < |tail| ==> tail[k] >= 1
    ensures SubsequenceAt([s[0]] + r, s, [0] + tail)
  {
    var idx := [0] + tail;
    assert forall k :: 0 < k < |idx| ==> idx[k] == tail[k - 1];
  }

  lemma ShiftKeeps<T(!new)>(s: seq<T>, p: T -> bool, rest: seq<int>, tail: seq<int>)
    requires s != []
    requires SubsequenceAt(Where(s[1..], p), s[1..], rest)
    requires forall i :: 0 <= i < |s| - 1 && p(s[1..][i]) ==> i in rest
    requires tail == Shift(rest, 1)
    ensures SubsequenceAt(Where(s[1..], p), s, tail)
    ensures forall k :: 0 <= k < |tail| ==> tail[k] >= 1
    ensures forall i :: 1 <= i < |s| && p(s[i]) ==> i in tail
  {
    ShiftSubsequence(Where(s[1..], p), s, rest);
    forall i | 1 <= i < |s| && p(s[i]) ensures i in tail {
      assert s[1..][i - 1] == s[i];
      var k :| 0 <= k < |rest| && rest[k] == i - 1;
      assert tail[k] == i;
    }
  }

  /** Positions in the tail of `s`, shifted by one, are positions in `s`. */
  lemma ShiftSubsequence<T(!new)>(r: seq<T>, s: seq<T>, rest: seq<int>)
    requires s != []
    requires SubsequenceAt(r, s[1..], rest)
    ensures SubsequenceAt(r, s, Shift(rest, 1))
    ensures forall k :: 0 <= k < |rest| ==> Shift(rest, 1)[k] >= 1
  {
    var tail := Shift(rest, 1);
    forall k | 0 <= k < |tail| ensures 0 <= tail[k] < |s| && r[k] == s[tail[k]] {
      assert s[1..][rest[k]] == s[rest[k] + 1];
    }
  }

  /** Selecting twice with the same predicate selects nothing more. */
  lemma {:induction false} WhereIdempotent<T(!new)>(s: seq<T>, p: T -> bool)
    ensures Where(Where(s, p), p) == Where(s, p)
  {
    if s != [] {
      WhereIdempotent(s[1..], p);
    }
  }

  /** When no element satisfies `p`, nothing is selected. */
  lemma {:induction false} WhereNone<T(!new)>(s: seq<T>, p: T -> bool)
    requires forall x :: x in s ==> !p(x)
    ensures Where(s, p) == []
  {
    if s != [] {
      WhereNone(s[1..], p);
    }
  }

  /** Selection distributes over concatenation; with `t == [x]` this is the
      step an accumulating loop takes. */
  lemma {:induction false} WhereAppend<T(!new)>(s: seq<T>, t: seq<T>, p: T -> bool)
    ensures Where(s + t, p) == Where(s, p) + Where(t, p)
  {
    if s == [] {
      assert s + t == t;
    } else {
      assert (s + t)[1..] == s[1..] + t;
      WhereAppend(s[1..], t, p);
    }
  }
}
