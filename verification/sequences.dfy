/** Generic facts about sequences used by the table operations. */
module Sequences {
  import opened Wrappers

  /** `a` can be obtained from `b` by deleting elements, keeping the order
      of the rest. */
  predicate SubsequenceOf<T(==)>(a: seq<T>, b: seq<T>)
    decreases |b|
  {
    |a| == 0 || (|b| > 0 && ((a[0] == b[0] && SubsequenceOf(a[1..], b[1..])) || SubsequenceOf(a, b[1..])))
  }

  /** Every sequence is a subsequence of itself. */
  lemma {:induction false} SubsequenceOfSelf<T>(a: seq<T>)
    ensures SubsequenceOf(a, a)
    decreases |a|
  {
    if |a| > 0 {
      SubsequenceOfSelf(a[1..]);
    }
  }

  function Map<T, U>(s: seq<T>, f: T -> U): (r: seq<U>)
    ensures |r| == |s| && forall k :: 0 <= k < |s| ==> r[k] == f(s[k])
  {
    seq(|s|, k requires 0 <= k < |s| => f(s[k]))
  }

  /** Transform every element with `f` and keep the results that are
      present, in order. */
  function FilterMap<T, U>(s: seq<T>, f: T -> Option<U>): (r: seq<U>)
    ensures |r| <= |s|
  {
    if |s| == 0 then []
    else (if f(s[0]).Some? then [f(s[0]).value] else []) + FilterMap(s[1..], f)
  }

  lemma {:induction false} FilterMapAppend<T, U>(a: seq<T>, b: seq<T>, f: T -> Option<U>)
    ensures FilterMap(a + b, f) == FilterMap(a, f) + FilterMap(b, f)
    decreases |a|
  {
    if |a| == 0 {
      assert a + b == b;
    } else {
      var head: seq<U> := if f(a[0]).Some? then [f(a[0]).value] else [];
      assert (a + b)[0] == a[0];
      assert (a + b)[1..] == a[1..] + b;
      FilterMapAppend(a[1..], b, f);
      assert FilterMap(a + b, f) == head + FilterMap(a[1..] + b, f);
      assert FilterMap(a, f) == head + FilterMap(a[1..], f);
    }
  }

  /** Every position moved one place on. */
  function Shift(p: seq<int>): (r: seq<int>)
    ensures |r| == |p| && forall k :: 0 <= k < |p| ==> r[k] == p[k] + 1
  {
    seq(|p|, k requires 0 <= k < |p| => p[k] + 1)
  }

  /** The positions of `s` at which `f` gives a result, in increasing order. */
  function KeptPositions<T, U>(s: seq<T>, f: T -> Option<U>): seq<int> {
    if |s| == 0 then []
    else (if f(s[0]).Some? then [0] else []) + Shift(KeptPositions(s[1..], f))
  }

  /** Every kept position is a position of `s` at which `f` gives a result. */
  lemma {:induction false} KeptPositionsValid<T, U>(s: seq<T>, f: T -> Option<U>)
    ensures forall k :: 0 <= k < |KeptPositions(s, f)| ==> 0 <= KeptPositions(s, f)[k] < |s|
    ensures forall k :: 0 <= k < |KeptPositions(s, f)| ==> f(s[KeptPositions(s, f)[k]]).Some?
    decreases |s|
  {
    if |s| > 0 {
      var tail := s[1..];
      KeptPositionsValid(tail, f);
      var q := KeptPositions(tail, f);
      var head: seq<int> := if f(s[0]).Some? then [0] else [];
      var p := head + Shift(q);
      forall k | 0 <= k < |p|
        ensures 0 <= p[k] < |s| && f(s[p[k]]).Some?
      {
        if k >= |head| {
          var j := k - |head|;
          assert 0 <= q[j] < |tail| && f(tail[q[j]]).Some?;
          assert p[k] == q[j] + 1;
          assert s[p[k]] == tail[q[j]];
        }
      }
    }
  }

  /** The kept positions are in strictly increasing order. */
  lemma {:induction false} KeptPositionsIncreasing<T, U>(s: seq<T>, f: T -> Option<U>)
    ensures forall k, l :: 0 <= k < l < |KeptPositions(s, f)| ==> KeptPositions(s, f)[k] < KeptPositions(s, f)[l]
    decreases |s|
  {
    if |s| > 0 {
      var tail := s[1..];
      KeptPositionsIncreasing(tail, f);
      KeptPositionsValid(tail, f);
      var q := KeptPositions(tail, f);
      var head: seq<int> := if f(s[0]).Some? then [0] else [];
      var p := head + Shift(q);
      forall k, l | 0 <= k < l < |p|
        ensures p[k] < p[l]
      {
        assert p[l] == q[l - |head|] + 1;
        if k >= |head| {
          assert p[k] == q[k - |head|] + 1;
        }
      }
    }
  }

  /** Every position at which `f` gives a result is kept. */
  lemma {:induction false} KeptPositionsComplete<T, U>(s: seq<T>, f: T -> Option<U>)
    ensures forall i :: 0 <= i < |s| && f(s[i]).Some? ==> i in KeptPositions(s, f)
    decreases |s|
  {
    if |s| > 0 {
      var tail := s[1..];
      KeptPositionsComplete(tail, f);
      var q := KeptPositions(tail, f);
      var head: seq<int> := if f(s[0]).Some? then [0] else [];
      var p := head + Shift(q);
      forall i | 0 <= i < |s| && f(s[i]).Some?
        ensures i in p
      {
        if i > 0 {
          assert tail[i - 1] == s[i];
          var k :| 0 <= k < |q| && q[k] == i - 1;
          assert p[|head| + k] == i;
        } else {
          assert p[0] == 0;
        }
      }
    }
  }

  /** The `k`-th result of `FilterMap` is `f` of the `k`-th kept element. */
  lemma {:induction false} FilterMapAtKept<T, U>(s: seq<T>, f: T -> Option<U>)
    ensures var p := KeptPositions(s, f); var r := FilterMap(s, f);
      |r| == |p| &&
      forall k :: 0 <= k < |p| ==> 0 <= p[k] < |s| && f(s[p[k]]) == Some(r[k])
    decreases |s|
  {
    if |s| > 0 {
      var tail := s[1..];
      FilterMapAtKept(tail, f);
      var q := KeptPositions(tail, f);
      var head: seq<int> := if f(s[0]).Some? then [0] else [];
      var p := head + Shift(q);
      var r := FilterMap(s, f);
      var rt := FilterMap(tail, f);
      var hr: seq<U> := if f(s[0]).Some? then [f(s[0]).value] else [];
      assert KeptPositions(s, f) == p;
      assert r == hr + rt;
      assert |hr| == |head|;
      forall k | 0 <= k < |p|
        ensures 0 <= p[k] < |s| && f(s[p[k]]) == Some(r[k])
      {
        if k >= |head| {
          assert p[k] == q[k - |head|] + 1;
          assert s[p[k]] == tail[q[k - |head|]];
          assert r[k] == rt[k - |head|];
        }
      }
    }
  }

  /** When `f` undoes `g` on every element of `s`, filter-mapping the
      `g`-images of `s` with `f` gives `s` back. */
  lemma {:induction false} FilterMapUndoesMap<T, U>(s: seq<U>, g: U -> T, f: T -> Option<U>)
    requires forall k :: 0 <= k < |s| ==> f(g(s[k])) == Some(s[k])
    ensures FilterMap(Map(s, g), f) == s
    decreases |s|
  {
    if |s| > 0 {
      var m := Map(s, g);
      assert m[1..] == Map(s[1..], g);
      FilterMapUndoesMap(s[1..], g, f);
      assert f(m[0]) == Some(s[0]);
    }
  }
}
