/** Positions counted from the front or, when negative, from the end. */
module Indexes {
  import opened Store

  /** The position that an index means. */
  function Normal(i: int, len: nat): int {
    if i < 0 then i + len else i
  }

  /** Positions `min` to `max`, as far as they exist. */
  function Slice<T>(r: seq<T>, min: int, max: int): seq<T> {
    var first, last := if min < 0 then 0 else min, if max > |r| - 1 then |r| - 1 else max;
    if first > last then [] else r[first..last + 1]
  }

  /** The part of a list that Redis documents for an index range, in LRANGE and LTRIM. */
  function RedisRange<T>(s: seq<T>, start: int, end: int): seq<T> {
    Slice(s, Normal(start, |s|), Normal(end, |s|))
  }

  /** A range between two positions, whichever end its indexes are counted from. */
  lemma RangeBetween<T>(s: seq<T>, i: nat, j: nat)
    requires i < |s| && j < |s|
    ensures RedisRange(s, i, j) == if i <= j then s[i..j + 1] else []
    ensures RedisRange(s, i - |s|, j) == RedisRange(s, i, j - |s|) == RedisRange(s, i - |s|, j - |s|)
            == RedisRange(s, i, j)
    ensures RedisRange(s, 0, -1) == s
  {
  }

  /** An index outside the sequence: too early for a start and too late for an end make no difference. */
  lemma RangeOutside<T>(s: seq<T>, start: int, end: int)
    ensures start >= |s| || end < -|s| ==> RedisRange(s, start, end) == []
    ensures start < -|s| ==> RedisRange(s, start, end) == RedisRange(s, 0, end)
    ensures end >= |s| ==> RedisRange(s, start, end) == RedisRange(s, start, -1)
  {
  }

  lemma {:induction false} ReverseConcat<T>(a: seq<T>, b: seq<T>)
    ensures Reverse(a + b) == Reverse(b) + Reverse(a)
  {
    if b == [] {
      assert a + b == a && Reverse(b) + Reverse(a) == Reverse(a);
    } else {
      var init, last := b[..|b| - 1], [b[|b| - 1]];
      assert (a + b)[..|a + b| - 1] == a + init;
      ReverseConcat(a, init);
      assert last + (Reverse(init) + Reverse(a)) == (last + Reverse(init)) + Reverse(a);
    }
  }

  lemma ReverseSub<T>(r: seq<T>, first: nat, last: nat)
    requires first <= last < |r|
    ensures Reverse(r[|r| - 1 - last..|r| - first]) == Reverse(r)[first..last + 1]
  {
    hide Reverse;
    var p, q := |r| - 1 - last, |r| - first;
    InThree(r, p, q);
    ReverseThree(r[..p], r[p..q], r[q..]);
    Middle(Reverse(r[q..]), Reverse(r[p..q]), Reverse(r[..p]));
  }

  lemma ReverseThree<T>(a: seq<T>, b: seq<T>, c: seq<T>)
    ensures Reverse(a + b + c) == Reverse(c) + (Reverse(b) + Reverse(a))
  {
    hide Reverse;
    ReverseConcat(a + b, c);
    ReverseConcat(a, b);
  }

  lemma InThree<T>(r: seq<T>, p: nat, q: nat)
    requires p <= q <= |r|
    ensures r == r[..p] + r[p..q] + r[q..]
  {
  }

  lemma Middle<T>(z: seq<T>, y: seq<T>, x: seq<T>)
    ensures (z + (y + x))[|z|..|z| + |y|] == y
  {
  }

  lemma SliceIs<T>(r: seq<T>, min: int, max: int)
    ensures var first, last := if min < 0 then 0 else min, if max > |r| - 1 then |r| - 1 else max;
            Slice(r, min, max) == if first <= last then r[first..last + 1] else []
  {
  }

  /** Counting from the other end and reversing the slice is slicing the reversed sequence. */
  lemma ReversedSlice<T>(r: seq<T>, min: int, max: int)
    ensures var a, b := Normal(min, |r|), Normal(max, |r|);
            Reverse(Slice(r, |r| - b - 1, |r| - a - 1)) == RedisRange(Reverse(r), min, max)
  {
    hide Reverse, Slice;
    var n, a, b := |r|, Normal(min, |r|), Normal(max, |r|);
    var first, last := if a < 0 then 0 else a, if b > n - 1 then n - 1 else b;
    SliceIs(r, n - b - 1, n - a - 1);
    SliceIs(Reverse(r), a, b);
    if first <= last {
      ReverseSub(r, first, last);
    } else {
      assert Reverse<T>([]) == [];
    }
  }
}
