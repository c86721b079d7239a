/** `Array.prototype.filter` on sequences, used by both the search view and delete. */
module Seqs {

  /** The elements of `s` that satisfy `keep`, in their original order. */
  function Filter<T(!new)>(s: seq<T>, keep: T -> bool): (r: seq<T>)
    ensures |r| <= |s|
  {
    if s == [] then [] else (if keep(s[0]) then [s[0]] else []) + Filter(s[1..], keep)
  }

  /** An element survives the filter exactly when it is in `s` and satisfies `keep`. */
  lemma {:induction false} FilterMembers<T(!new)>(s: seq<T>, keep: T -> bool)
    ensures forall x :: x in Filter(s, keep) <==> x in s && keep(x)
    decreases |s|
  {
    if s != [] {
      FilterMembers(s[1..], keep);
      assert s == [s[0]] + s[1..];
    }
  }

  function Shift(idx: seq<nat>): (r: seq<nat>)
    ensures |r| == |idx|
    ensures forall k :: 0 <= k < |idx| ==> r[k] == idx[k] + 1
  {
    seq(|idx|, k requires 0 <= k < |idx| => idx[k] + 1)
  }

  /** The indices of `s` whose element satisfies `keep`, in increasing order. */
  ghost function Positions<T>(s: seq<T>, keep: T -> bool): seq<nat>
  {
    if s == [] then [] else (if keep(s[0]) then [0] else []) + Shift(Positions(s[1..], keep))
  }

  lemma {:induction false} PositionsSelect<T(!new)>(s: seq<T>, keep: T -> bool)
    ensures |Positions(s, keep)| == |Filter(s, keep)|
    ensures forall k :: 0 <= k < |Positions(s, keep)| ==>
      Positions(s, keep)[k] < |s| && Filter(s, keep)[k] == s[Positions(s, keep)[k]]
    decreases |s|
  {
    if s != [] {
      PositionsSelect(s[1..], keep);
      var rest, tail := Positions(s[1..], keep), Filter(s[1..], keep);
      var idx, r := Positions(s, keep), Filter(s, keep);
      var d := if keep(s[0]) then 1 else 0;
      assert |idx| == d + |rest| && |r| == d + |tail|;
      forall k | d <= k < |idx|
        ensures idx[k] < |s| && r[k] == s[idx[k]]
      {
        var j := k - d;
        assert idx[k] == Shift(rest)[j] == rest[j] + 1;
        assert r[k] == tail[j] == s[1..][rest[j]];
      }
    }
  }

  lemma {:induction false} PositionsIncrease<T>(s: seq<T>, keep: T -> bool)
    ensures forall k, l :: 0 <= k < l < |Positions(s, keep)| ==> Positions(s, keep)[k] < Positions(s, keep)[l]
    ensures forall k :: 0 <= k < |Positions(s, keep)| ==> Positions(s, keep)[k] < |s|
    decreases |s|
  {
    if s != [] {
      PositionsIncrease(s[1..], keep);
      var rest, idx := Positions(s[1..], keep), Positions(s, keep);
      var d := if keep(s[0]) then 1 else 0;
      assert |idx| == d + |rest|;
      assert d == 1 ==> idx[0] == 0;
      forall k | d <= k < |idx|
        ensures idx[k] == rest[k - d] + 1
      {
        assert idx[k] == Shift(rest)[k - d];
      }
    }
  }

  lemma {:induction false} PositionsExact<T>(s: seq<T>, keep: T -> bool)
    ensures forall i :: 0 <= i < |s| ==> (keep(s[i]) <==> i in Positions(s, keep))
    decreases |s|
  {
    if s != [] {
      PositionsExact(s[1..], keep);
      var rest, idx := Positions(s[1..], keep), Positions(s, keep);
      forall i | 0 <= i < |s|
        ensures keep(s[i]) <==> i in idx
      {
        ShiftIn(rest, i);
        if i >= 1 {
          assert s[i] == s[1..][i - 1];
        }
      }
    }
  }

  /**
   `Filter` is an order-preserving selection: its k-th element is `s[idx[k]]`
   for strictly increasing positions `idx`, which are exactly the indices
   whose element satisfies `keep`.
   */
  lemma FilterPositions<T(!new)>(s: seq<T>, keep: T -> bool) returns (idx: seq<nat>)
    ensures |idx| == |Filter(s, keep)|
    ensures forall k :: 0 <= k < |idx| ==> idx[k] < |s| && Filter(s, keep)[k] == s[idx[k]]
    ensures forall k, l :: 0 <= k < l < |idx| ==> idx[k] < idx[l]
    ensures forall i :: 0 <= i < |s| ==> (keep(s[i]) <==> i in idx)
  {
    idx := Positions(s, keep);
    PositionsSelect(s, keep);
    PositionsIncrease(s, keep);
    PositionsExact(s, keep);
  }

  lemma ShiftIn(idx: seq<nat>, i: nat)
    ensures i in Shift(idx) <==> i >= 1 && i - 1 in idx
  {
  }

  /** A filter whose predicate holds everywhere keeps everything. */
  lemma {:induction false} FilterAll<T(!new)>(s: seq<T>, keep: T -> bool)
    requires forall i :: 0 <= i < |s| ==> keep(s[i])
    ensures Filter(s, keep) == s
    decreases |s|
  {
    if s != [] {
      FilterAll(s[1..], keep);
    }
  }

  /** Filtering distributes over concatenation. */
  lemma {:induction false} FilterConcat<T(!new)>(a: seq<T>, b: seq<T>, keep: T -> bool)
    ensures Filter(a + b, keep) == Filter(a, keep) + Filter(b, keep)
    decreases |a|
  {
    if a == [] {
      assert a + b == b;
    } else {
      var head := if keep(a[0]) then [a[0]] else [];
      assert (a + b)[0] == a[0] && (a + b)[1..] == a[1..] + b;
      assert Filter(a + b, keep) == head + Filter(a[1..] + b, keep);
      FilterConcat(a[1..], b, keep);
      assert Filter(a, keep) == head + Filter(a[1..], keep);
    }
  }
}
