/**
  LREM: collect the indexes of all matches, then compact the list in one pass, deleting the
  matches that fall under the count and moving every later element over the holes.
 */
module ListRemove {
  import opened Bytes
  import opened Keys
  import opened Values
  import opened Store
  import opened Gc
  import opened ListWindow
  import opened List
  import opened Replies
  import opened ListEdit

  // ----- the reference: what is removed -----

  function Matches<T(==)>(s: seq<T>, x: T): (n: nat)
    ensures n <= |s|
  {
    if s == [] then 0 else Matches(s[..|s| - 1], x) + if s[|s| - 1] == x then 1 else 0
  }

  lemma {:induction false} MatchesIs<T>(s: seq<T>, x: T)
    ensures Matches(s, x) == multiset(s)[x]
  {
    if s != [] {
      MatchesIs(s[..|s| - 1], x);
      assert s == s[..|s| - 1] + [s[|s| - 1]];
    }
  }

  /** How many matches a count removes; 0 stands for all of them. */
  function Limit<T(==)>(s: seq<T>, x: T, count: nat): nat {
    if 0 < count < Matches(s, x) then count else Matches(s, x)
  }

  lemma LimitIs<T>(s: seq<T>, x: T, count: nat)
    ensures var m := multiset(s)[x]; Limit(s, x, count) == if count == 0 || count >= m then m else count
  {
    hide Matches;
    MatchesIs(s, x);
  }

  /** Drop the first `limit` occurrences of `x`. */
  function RemoveFirst<T(==)>(s: seq<T>, x: T, limit: nat): seq<T> {
    if s == [] then []
    else if s[0] == x && limit > 0 then RemoveFirst(s[1..], x, limit - 1)
    else [s[0]] + RemoveFirst(s[1..], x, limit)
  }

  /** Drop the last `limit` occurrences of `x`. */
  function RemoveLast<T(==)>(s: seq<T>, x: T, limit: nat): seq<T> {
    if s == [] then []
    else
      var init, last := s[..|s| - 1], s[|s| - 1];
      if last == x && limit > 0 then RemoveLast(init, x, limit - 1) else RemoveLast(init, x, limit) + [last]
  }

  /** A sequence without the elements equal to `x`, in order. */
  function Others<T(==)>(s: seq<T>, x: T): seq<T> {
    if s == [] then [] else (if s[0] == x then [] else [s[0]]) + Others(s[1..], x)
  }

  lemma {:induction false} OthersSnoc<T>(s: seq<T>, y: T, x: T)
    ensures Others(s + [y], x) == Others(s, x) + if y == x then [] else [y]
    decreases |s|
  {
    if s == [] {
      assert s + [y] == [y] && [y][1..] == [];
      assert Others([y][1..], x) == [];
    } else {
      assert (s + [y])[1..] == s[1..] + [y];
      OthersSnoc(s[1..], y, x);
    }
  }

  lemma {:induction false} OthersIs<T>(s: seq<T>, x: T)
    ensures x !in Others(s, x) && multiset(Others(s, x)) == multiset(s)[x := 0]
  {
    if s != [] {
      OthersIs(s[1..], x);
      assert s == [s[0]] + s[1..];
    }
  }

  /** Removing the first `n`: a front that holds just these loses them, and the rest stays as it is. */
  lemma {:induction false} RemoveFirstSplit<T>(s: seq<T>, x: T, n: nat) returns (i: nat)
    requires n <= Matches(s, x)
    ensures i <= |s| && Matches(s[..i], x) == n && RemoveFirst(s, x, n) == Others(s[..i], x) + s[i..]
    decreases |s|
  {
    hide Matches;
    if n == 0 {
      i := 0;
      RemoveZero(s, x);
      NoMatches(x);
      assert s[..0] == [] && s[0..] == s;
    } else {
      MatchesCons(s, x);
      var rest := s[1..];
      var j := RemoveFirstSplit(rest, x, if s[0] == x then n - 1 else n);
      i := j + 1;
      FrontOf(s, j);
      MatchesCons(s[..i], x);
    }
  }

  lemma NoMatches<T>(x: T)
    ensures Matches([], x) == 0 && Others([], x) == []
  {
  }

  lemma MatchesCons<T>(s: seq<T>, x: T)
    ensures s == [] ==> Matches(s, x) == 0
    ensures s != [] ==> Matches(s, x) == Matches(s[1..], x) + if s[0] == x then 1 else 0
  {
    if s != [] {
      var head := [s[0]];
      assert s == head + s[1..] && head[..0] == [];
      MatchesConcat(head, s[1..], x);
    }
  }

  lemma FrontOf<T>(s: seq<T>, j: nat)
    requires j < |s|
    ensures s[..j + 1][0] == s[0] && s[..j + 1][1..] == s[1..][..j] && s[j + 1..] == s[1..][j..]
  {
  }

  lemma LastStep<T>(s: seq<T>, x: T, n: nat)
    requires s != []
    ensures var init, last := s[..|s| - 1], s[|s| - 1];
            && Matches(s, x) == Matches(init, x) + (if last == x then 1 else 0)
            && RemoveLast(s, x, n) == if last == x && n > 0 then RemoveLast(init, x, n - 1)
                                      else RemoveLast(init, x, n) + [last]
  {
  }

  lemma JoinSnoc<T>(a: seq<T>, b: seq<T>, y: T)
    ensures a + b + [y] == a + (b + [y]) && b + [] == b
  {
  }

  /** Removing the last `n`: the same with a back. */
  lemma {:induction false} RemoveLastSplit<T>(s: seq<T>, x: T, n: nat) returns (i: nat)
    requires n <= Matches(s, x)
    ensures i <= |s| && Matches(s[i..], x) == n && RemoveLast(s, x, n) == s[..i] + Others(s[i..], x)
    decreases |s|
  {
    hide Matches, Others, RemoveLast;
    if n == 0 {
      i := |s|;
      RemoveZero(s, x);
      NoMatches(x);
      assert s[|s|..] == [] && s[..|s|] == s;
    } else {
      MatchesCons(s, x);
      LastStep(s, x, n);
      var init, last := s[..|s| - 1], s[|s| - 1];
      i := RemoveLastSplit(init, x, if last == x then n - 1 else n);
      BackOf(s, i);
      LastStep(s[i..], x, n);
      OthersSnoc(init[i..], last, x);
      JoinSnoc(s[..i], Others(init[i..], x), last);
    }
  }

  lemma BackOf<T>(s: seq<T>, i: nat)
    requires i < |s|
    ensures s[i..] == s[..|s| - 1][i..] + [s[|s| - 1]] && s[i..][..|s| - i - 1] == s[..|s| - 1][i..]
    ensures s[..i] == s[..|s| - 1][..i] && s[i..][|s| - i - 1] == s[|s| - 1]
  {
  }

  /** A front of `s` that holds `n` times `x` has lost these, and the rest is as it was. */
  ghost predicate FreedFront<T>(s: seq<T>, t: seq<T>, x: T, n: nat) {
    exists i :: 0 <= i <= |s| && multiset(s[..i])[x] == n && t == Others(s[..i], x) + s[i..]
  }

  /** The same for a back. */
  ghost predicate FreedBack<T>(s: seq<T>, t: seq<T>, x: T, n: nat) {
    exists i :: 0 <= i <= |s| && multiset(s[i..])[x] == n && t == s[..i] + Others(s[i..], x)
  }

  lemma {:induction false} RemovedMultiset<T>(s: seq<T>, x: T, n: nat)
    requires n <= multiset(s)[x]
    ensures multiset(RemoveFirst(s, x, n)) == multiset(s)[x := multiset(s)[x] - n]
    decreases |s|
  {
    if s != [] {
      assert s == [s[0]] + s[1..];
      RemovedMultiset(s[1..], x, if s[0] == x && n > 0 then n - 1 else if s[0] == x then 0 else n);
    }
  }

  lemma {:induction false} RemovedLastMultiset<T>(s: seq<T>, x: T, n: nat)
    requires n <= multiset(s)[x]
    ensures multiset(RemoveLast(s, x, n)) == multiset(s)[x := multiset(s)[x] - n]
    decreases |s|
  {
    if s != [] {
      var init, last := s[..|s| - 1], s[|s| - 1];
      assert s == init + [last];
      RemovedLastMultiset(init, x, if last == x && n > 0 then n - 1 else if last == x then 0 else n);
    }
  }

  lemma RemoveFirstIs<T>(s: seq<T>, x: T, n: nat)
    requires n <= multiset(s)[x]
    ensures FreedFront(s, RemoveFirst(s, x, n), x, n)
  {
    hide Matches, RemoveFirst, Others;
    MatchesIs(s, x);
    var i := RemoveFirstSplit(s, x, n);
    MatchesIs(s[..i], x);
  }

  lemma RemoveLastIs<T>(s: seq<T>, x: T, n: nat)
    requires n <= multiset(s)[x]
    ensures FreedBack(s, RemoveLast(s, x, n), x, n)
  {
    hide Matches, RemoveLast, Others;
    MatchesIs(s, x);
    var i := RemoveLastSplit(s, x, n);
    MatchesIs(s[i..], x);
  }

  /** What LREM leaves, in terms of the list alone. */
  lemma LremMeans<T>(s: seq<T>, x: T, count: nat, fromHead: bool)
    ensures var m := multiset(s)[x]; var n := if count == 0 || count >= m then m else count;
            var t := if fromHead then RemoveFirst(s, x, n) else RemoveLast(s, x, n);
            && n == Limit(s, x, count) && multiset(t) == multiset(s)[x := m - n]
            && if fromHead then FreedFront(s, t, x, n) else FreedBack(s, t, x, n)
  {
    hide Matches, RemoveFirst, RemoveLast, Limit, FreedFront, FreedBack;
    LimitIs(s, x, count);
    var n := Limit(s, x, count);
    if fromHead {
      RemoveFirstIs(s, x, n);
      RemovedMultiset(s, x, n);
    } else {
      RemoveLastIs(s, x, n);
      RemovedLastMultiset(s, x, n);
    }
  }

  lemma {:induction false} MatchesConcat<T>(s: seq<T>, t: seq<T>, x: T)
    ensures Matches(s + t, x) == Matches(s, x) + Matches(t, x)
  {
    if t == [] {
      assert s + t == s;
    } else {
      var init := t[..|t| - 1];
      assert (s + t)[..|s + t| - 1] == s + init;
      MatchesConcat(s, init, x);
    }
  }

  lemma {:induction false} RemoveFirstSnoc<T>(s: seq<T>, y: T, x: T, limit: nat)
    ensures RemoveFirst(s + [y], x, limit)
            == RemoveFirst(s, x, limit) + if y == x && Matches(s, x) < limit then [] else [y]
    decreases |s|
  {
    if s == [] {
      assert s + [y] == [y];
      assert [y][1..] == [];
    } else {
      var head, rest := [s[0]], s[1..];
      assert head[..0] == [];
      assert (s + [y])[1..] == rest + [y] && s == head + rest;
      MatchesConcat(head, rest, x);
      RemoveFirstSnoc(rest, y, x, if s[0] == x && limit > 0 then limit - 1 else limit);
    }
  }

  lemma {:induction false} RemoveLastCons<T>(s: seq<T>, y: T, x: T, limit: nat)
    ensures RemoveLast([y] + s, x, limit)
            == (if y == x && Matches(s, x) < limit then [] else [y]) + RemoveLast(s, x, limit)
    decreases |s|
  {
    if s == [] {
      assert [y] + s == [y];
      assert [y][..0] == [];
    } else {
      var init := s[..|s| - 1];
      assert ([y] + s)[..|s|] == [y] + init;
      RemoveLastCons(init, y, x, if s[|s| - 1] == x && limit > 0 then limit - 1 else limit);
    }
  }

  // ----- the indexes of the matches -----

  function Positions(s: seq<bytes>, x: bytes, left: int): (p: seq<int>)
    ensures |p| == Matches(s, x)
  {
    if s == [] then []
    else Positions(s[..|s| - 1], x, left) + if s[|s| - 1] == x then [left + |s| - 1] else []
  }

  /** The match at position `n` is the one after all matches before it; other positions are not listed. */
  lemma {:induction false} PositionAt(s: seq<bytes>, x: bytes, left: int, n: nat)
    requires n < |s|
    ensures s[n] == x ==>
              Matches(s[..n], x) < |Positions(s, x, left)|
              && Positions(s, x, left)[Matches(s[..n], x)] == left + n
    ensures s[n] != x ==> left + n !in Positions(s, x, left)
    ensures forall p :: p in Positions(s, x, left) ==> p < left + |s|
  {
    var init := s[..|s| - 1];
    PositionsBounded(init, x, left);
    if n < |s| - 1 {
      PositionAt(init, x, left, n);
      assert init[..n] == s[..n];
    } else {
      assert s[..n] == init;
    }
  }

  lemma {:induction false} PositionsBounded(s: seq<bytes>, x: bytes, left: int)
    ensures forall p :: p in Positions(s, x, left) ==> p < left + |s|
  {
    if s != [] {
      PositionsBounded(s[..|s| - 1], x, left);
    }
  }

  /** The first `n` elements, which the head loop has passed. */
  function Front(s: seq<bytes>, n: nat): seq<bytes>
    requires n <= |s|
  {
    s[..n]
  }

  lemma FrontEnds(s: seq<bytes>)
    ensures Front(s, 0) == [] && Front(s, |s|) == s
  {
  }

  method ForwardPairs(txn: Txn, k: bytes, v: u16, ghost left: u64, ghost right: u64, ghost s: seq<bytes>)
    returns (pairs: seq<(Key, Value)>)
    requires Window(BlockOf(txn.kv, k), v, left, right, s)
    ensures |pairs| == |s| == right - left
    ensures forall i :: 0 <= i < |s| ==> pairs[i] == (ElemKey(k, v, left + i), Blob(s[i]))
  {
    hide BlockOf, Scan, FamilyRange;
    ListPairs(txn.kv, k, v, left, right, s);
    pairs := txn.ScanPairs(ListRange(k, v));
  }

  method FindHoles(txn: Txn, k: bytes, v: u16, x: bytes, ghost left: nat, ghost right: nat, ghost s: seq<bytes>)
    returns (hole: seq<int>)
    requires Window(BlockOf(txn.kv, k), v, left, right, s)
    ensures hole == Positions(s, x, left)
  {
    hide BlockOf, Window, Positions, Front;
    WindowBounds(BlockOf(txn.kv, k), v, left, right, s);
    var pairs := ForwardPairs(txn, k, v, left, right, s);
    hole := [];
    FrontEnds(s);
    PositionsNone(x, left);
    for i := 0 to |pairs|
      invariant hole == Positions(Front(s, i), x, left)
    {
      PositionsNext(s, x, left, i);
      if pairs[i].1 == Blob(x) {
        hole := hole + [pairs[i].0.part.slot.idx];
      }
    }
  }

  lemma PositionsNone(x: bytes, left: int)
    ensures Positions([], x, left) == []
  {
  }

  lemma PositionsNext(s: seq<bytes>, x: bytes, left: int, n: nat)
    requires n < |s|
    ensures Positions(Front(s, n + 1), x, left)
            == if s[n] == x then Positions(Front(s, n), x, left) + [left + n] else Positions(Front(s, n), x, left)
  {
    assert s[..n + 1][..n] == s[..n];
  }

  /** The loops' test whether the element at `idx` is the next hole. */
  predicate IsHole(hole: seq<int>, count: nat, removed: nat, idx: int)
    requires removed <= |hole|
  {
    !((count > 0 && removed == count) || removed == |hole|) && hole[removed] == idx
  }

  /** From the head, the test picks out the matches that fall under the limit. */
  lemma HoleFromHead(s: seq<bytes>, x: bytes, left: int, n: nat, count: nat, removed: nat)
    requires n < |s|
    requires var limit := Limit(s, x, count); var before := Matches(Front(s, n), x);
             removed == if before < limit then before else limit
    ensures removed <= Matches(s, x)
    ensures IsHole(Positions(s, x, left), count, removed, left + n) <==>
              s[n] == x
              && Matches(Front(s, n), x) < Limit(s, x, count)
  {
    hide Positions, Matches;
    PositionAt(s, x, left, n);
    RemoveFirstNext(s, n, x, 0);
  }

  // ----- from the head -----

  /** After `n` elements: the kept ones stand packed at the left end, the rest is untouched, nothing lies between. */
  ghost predicate PackedLeft(b: Block, v: u16, left: int, right: int, s: seq<bytes>, n: nat, kept: seq<bytes>) {
    && 0 <= left && right == left + |s| && right < INDEX_LIMIT && |kept| <= n <= |s|
    && (forall i: u64 :: ElemPart(v, i) in b <==> left <= i < left + |kept| || left + n <= i < right)
    && (forall i: u64 :: left <= i < left + |kept| ==> b[ElemPart(v, i)] == Blob(kept[i - left]))
    && (forall i: u64 :: left + n <= i < right ==> b[ElemPart(v, i)] == Blob(s[i - left]))
  }

  lemma LeftSkip(base: Block, b: Block, v: u16, left: int, right: int, s: seq<bytes>, n: nat, kept: seq<bytes>)
    requires PackedLeft(b, v, left, right, s, n, kept) && OnlyElems(base, b, v) && n < |s|
    ensures var c := b - {ElemPart(v, left + n)};
            PackedLeft(c, v, left, right, s, n + 1, kept) && OnlyElems(base, c, v)
  {
  }

  lemma LeftMove(base: Block, b: Block, v: u16, left: int, right: int, s: seq<bytes>, n: nat, kept: seq<bytes>)
    requires PackedLeft(b, v, left, right, s, n, kept) && OnlyElems(base, b, v) && n < |s|
    ensures |kept| == n ==> PackedLeft(b, v, left, right, s, n + 1, kept + [s[n]])
    ensures var c := b[ElemPart(v, left + |kept|) := Blob(s[n])] - {ElemPart(v, left + n)};
            |kept| < n ==> PackedLeft(c, v, left, right, s, n + 1, kept + [s[n]]) && OnlyElems(base, c, v)
  {
  }

  lemma LeftEnds(b: Block, v: u16, left: int, right: int, s: seq<bytes>)
    ensures Window(b, v, left, right, s) ==> PackedLeft(b, v, left, right, s, 0, [])
    ensures forall kept :: PackedLeft(b, v, left, right, s, |s|, kept) ==> Window(b, v, left, left + |kept|, kept)
  {
  }

  method RemoveFromHead(txn: Txn, k: bytes, v: u16, left: u64, right: u64, count: nat, hole: seq<int>, x: bytes,
                        ghost s: seq<bytes>, ghost base: Block)
    returns (removed: nat)
    requires Window(BlockOf(txn.kv, k), v, left, right, s) && OnlyElems(base, BlockOf(txn.kv, k), v)
    requires hole == Positions(s, x, left)
    modifies txn
    ensures OnlyBlock(old(txn.kv), txn.kv, k) && OnlyElems(base, BlockOf(txn.kv, k), v)
    ensures removed == Limit(s, x, count)
    ensures Window(BlockOf(txn.kv, k), v, left, right - removed, RemoveFirst(s, x, removed))
  {
    hide BlockOf, Window, OnlyElems, OnlyBlock, PackedLeft, RemoveFirst, Matches, Positions, IsHole, Front;
    ghost var limit := Limit(s, x, count);
    var pairs := ForwardPairs(txn, k, v, left, right, s);
    removed := 0;
    ghost var kept: seq<bytes> := [];
    LeftEnds(BlockOf(txn.kv, k), v, left, right, s);
    OnlyBlockRefl(txn.kv, k);
    RemoveNone(x, limit);
    FrontEnds(s);
    for n := 0 to |pairs|
      invariant OnlyBlock(old(txn.kv), txn.kv, k) && OnlyElems(base, BlockOf(txn.kv, k), v)
      invariant removed == (if Matches(Front(s, n), x) < limit then Matches(Front(s, n), x) else limit)
      invariant kept == RemoveFirst(Front(s, n), x, limit) && |kept| == n - removed
      invariant PackedLeft(BlockOf(txn.kv, k), v, left, right, s, n, kept)
    {
      ghost var kv, b := txn.kv, BlockOf(txn.kv, k);
      var idx := pairs[n].0.part.slot.idx;
      HoleFromHead(s, x, left, n, count, removed);
      RemoveFirstNext(s, n, x, limit);
      if IsHole(hole, count, removed, idx) {
        LeftSkip(base, b, v, left, right, s, n, kept);
        txn.Delete(pairs[n].0);
        OnlyBlockTrans(old(txn.kv), kv, txn.kv, k);
        removed := removed + 1;
      } else {
        LeftMove(base, b, v, left, right, s, n, kept);
        if removed > 0 {
          txn.Put(ElemKey(k, v, idx - removed), pairs[n].1);
          OnlyBlockTrans(old(txn.kv), kv, txn.kv, k);
          kv := txn.kv;
          txn.Delete(pairs[n].0);
          OnlyBlockTrans(old(txn.kv), kv, txn.kv, k);
        }
        kept := kept + [s[n]];
      }
    }
    LeftEnds(BlockOf(txn.kv, k), v, left, right, s);
  }

  lemma RemoveNone<T>(x: T, limit: nat)
    ensures RemoveFirst([], x, limit) == [] && RemoveLast([], x, limit) == [] && Matches([], x) == 0
  {
  }

  lemma RemoveFirstNext(s: seq<bytes>, n: nat, x: bytes, limit: nat)
    requires n < |s|
    ensures Matches(Front(s, n + 1), x) == Matches(Front(s, n), x) + (if s[n] == x then 1 else 0) <= Matches(s, x)
    ensures RemoveFirst(Front(s, n + 1), x, limit)
            == RemoveFirst(Front(s, n), x, limit) + if s[n] == x && Matches(Front(s, n), x) < limit then [] else [s[n]]
  {
    assert s[..n + 1] == s[..n] + [s[n]] && s[..n + 1][..n] == s[..n];
    RemoveFirstSnoc(s[..n], s[n], x, limit);
    assert s == s[..n + 1] + s[n + 1..];
    MatchesConcat(s[..n + 1], s[n + 1..], x);
  }

  // ----- from the tail -----

  /** After `n` elements from the right: the kept ones stand packed at the right end. */
  ghost predicate PackedRight(b: Block, v: u16, left: int, right: int, s: seq<bytes>, n: nat, kept: seq<bytes>) {
    && 0 <= left && right == left + |s| && right < INDEX_LIMIT && |kept| <= n <= |s|
    && (forall i: u64 :: ElemPart(v, i) in b <==> left <= i < right - n || right - |kept| <= i < right)
    && (forall i: u64 :: left <= i < right - n ==> b[ElemPart(v, i)] == Blob(s[i - left]))
    && (forall i: u64 :: right - |kept| <= i < right ==> b[ElemPart(v, i)] == Blob(kept[i - (right - |kept|)]))
  }

  lemma RightSkip(base: Block, b: Block, v: u16, left: int, right: int, s: seq<bytes>, n: nat, kept: seq<bytes>)
    requires PackedRight(b, v, left, right, s, n, kept) && OnlyElems(base, b, v) && n < |s|
    ensures var c := b - {ElemPart(v, right - n - 1)};
            PackedRight(c, v, left, right, s, n + 1, kept) && OnlyElems(base, c, v)
  {
  }

  lemma RightMove(base: Block, b: Block, v: u16, left: int, right: int, s: seq<bytes>, n: nat, kept: seq<bytes>)
    requires PackedRight(b, v, left, right, s, n, kept) && OnlyElems(base, b, v) && n < |s|
    ensures |kept| == n ==> PackedRight(b, v, left, right, s, n + 1, [s[|s| - n - 1]] + kept)
    ensures var c := b[ElemPart(v, right - |kept| - 1) := Blob(s[|s| - n - 1])] - {ElemPart(v, right - n - 1)};
            |kept| < n ==> PackedRight(c, v, left, right, s, n + 1, [s[|s| - n - 1]] + kept) && OnlyElems(base, c, v)
  {
  }

  lemma RightEnds(b: Block, v: u16, left: int, right: int, s: seq<bytes>)
    ensures Window(b, v, left, right, s) ==> PackedRight(b, v, left, right, s, 0, [])
    ensures forall kept :: PackedRight(b, v, left, right, s, |s|, kept) ==> Window(b, v, right - |kept|, right, kept)
  {
  }

  /** The last `n` elements, which the tail loop has passed. */
  function Back(s: seq<bytes>, n: nat): seq<bytes>
    requires n <= |s|
  {
    s[|s| - n..]
  }

  lemma BackEnds(s: seq<bytes>)
    ensures Back(s, 0) == [] && Back(s, |s|) == s
  {
  }

  lemma RemoveLastNext(s: seq<bytes>, n: nat, x: bytes, limit: nat)
    requires n < |s|
    ensures var m := |s| - n - 1;
            && Matches(Back(s, n + 1), x) == Matches(Back(s, n), x) + (if s[m] == x then 1 else 0)
            && Matches(s[..m], x) + Matches(Back(s, n + 1), x) == Matches(s, x)
            && RemoveLast(Back(s, n + 1), x, limit)
               == (if s[m] == x && Matches(Back(s, n), x) < limit then [] else [s[m]])
                  + RemoveLast(Back(s, n), x, limit)
  {
    var m := |s| - n - 1;
    var head := [s[m]];
    assert head[..0] == [];
    assert s[m..] == head + s[m + 1..] && s == s[..m] + s[m..];
    RemoveLastCons(s[m + 1..], s[m], x, limit);
    MatchesConcat(head, s[m + 1..], x);
    MatchesConcat(s[..m], s[m..], x);
  }

  method ReversePairs(txn: Txn, k: bytes, v: u16, ghost left: u64, ghost right: u64, ghost s: seq<bytes>)
    returns (pairs: seq<(Key, Value)>)
    requires Window(BlockOf(txn.kv, k), v, left, right, s)
    ensures |pairs| == |s| == right - left
    ensures forall i :: 0 <= i < |s| ==> pairs[i] == (ElemKey(k, v, right - 1 - i), Blob(s[|s| - 1 - i]))
  {
    hide BlockOf, Window, Reverse;
    pairs := ForwardPairs(txn, k, v, left, right, s);
    pairs := Reverse(pairs);
  }

  /** On the reversed holes, the test picks out the matches that fall under the limit from the tail. */
  lemma HoleFromTail(s: seq<bytes>, x: bytes, left: int, n: nat, count: nat, removed: nat)
    requires n < |s|
    requires var limit := Limit(s, x, count); var after := Matches(Back(s, n), x);
             removed == if after < limit then after else limit
    ensures removed <= Matches(s, x)
    ensures IsHole(Reverse(Positions(s, x, left)), count, removed, left + |s| - n - 1)
            <==> s[|s| - n - 1] == x && Matches(Back(s, n), x) < Limit(s, x, count)
  {
    hide Positions, Matches, RemoveLast, Reverse, Back;
    PositionAt(s, x, left, |s| - n - 1);
    RemoveLastNext(s, n, x, 0);
  }

  method RemoveFromTail(txn: Txn, k: bytes, v: u16, left: u64, right: u64, count: nat, hole: seq<int>, x: bytes,
                        ghost s: seq<bytes>, ghost base: Block)
    returns (removed: nat)
    requires Window(BlockOf(txn.kv, k), v, left, right, s) && OnlyElems(base, BlockOf(txn.kv, k), v)
    requires hole == Reverse(Positions(s, x, left))
    modifies txn
    ensures OnlyBlock(old(txn.kv), txn.kv, k) && OnlyElems(base, BlockOf(txn.kv, k), v)
    ensures removed == Limit(s, x, count)
    ensures Window(BlockOf(txn.kv, k), v, left + removed, right, RemoveLast(s, x, removed))
  {
    hide BlockOf, Window, OnlyElems, OnlyBlock, PackedRight, RemoveLast, Matches, Positions, Reverse, IsHole, Back;
    ghost var limit := Limit(s, x, count);
    var pairs := ReversePairs(txn, k, v, left, right, s);
    removed := 0;
    ghost var kept: seq<bytes> := [];
    RightEnds(BlockOf(txn.kv, k), v, left, right, s);
    OnlyBlockRefl(txn.kv, k);
    RemoveNone(x, limit);
    BackEnds(s);
    for n := 0 to |pairs|
      invariant OnlyBlock(old(txn.kv), txn.kv, k) && OnlyElems(base, BlockOf(txn.kv, k), v)
      invariant removed == (if Matches(Back(s, n), x) < limit then Matches(Back(s, n), x) else limit)
      invariant kept == RemoveLast(Back(s, n), x, limit) && |kept| == n - removed
      invariant PackedRight(BlockOf(txn.kv, k), v, left, right, s, n, kept)
    {
      ghost var kv, b := txn.kv, BlockOf(txn.kv, k);
      var idx := pairs[n].0.part.slot.idx;
      HoleFromTail(s, x, left, n, count, removed);
      RemoveLastNext(s, n, x, limit);
      if IsHole(hole, count, removed, idx) {
        RightSkip(base, b, v, left, right, s, n, kept);
        txn.Delete(pairs[n].0);
        OnlyBlockTrans(old(txn.kv), kv, txn.kv, k);
        removed := removed + 1;
      } else {
        RightMove(base, b, v, left, right, s, n, kept);
        if removed > 0 {
          txn.Put(ElemKey(k, v, idx + removed), pairs[n].1);
          OnlyBlockTrans(old(txn.kv), kv, txn.kv, k);
          kv := txn.kv;
          txn.Delete(pairs[n].0);
          OnlyBlockTrans(old(txn.kv), kv, txn.kv, k);
        }
        kept := [s[|s| - n - 1]] + kept;
      }
    }
    RightEnds(BlockOf(txn.kv, k), v, left, right, s);
  }

  // ----- the command -----

  /** The part of LREM after the window is known. */
  method RemoveLive(txn: Txn, k: bytes, ttl: u64, v: u16, left: u64, right: u64, count: nat, fromHead: bool,
                    element: bytes, ghost s: seq<bytes>, ghost b: Block)
    returns (removed: nat)
    requires b == BlockOf(txn.kv, k) && ListInv(b) && WorksOn(b, v) && Window(b, v, left, right, s) && s == Elements(b)
    requires HasList(b) && b[Meta].ttl == ttl
    modifies txn
    ensures OnlyBlock(old(txn.kv), txn.kv, k)
    ensures ListInv(BlockOf(txn.kv, k)) && Reaches(b, BlockOf(txn.kv, k))
    ensures Meta in BlockOf(txn.kv, k) ==> HasList(BlockOf(txn.kv, k)) && BlockOf(txn.kv, k)[Meta].ttl == ttl
    ensures removed == Limit(s, element, count)
    ensures Elements(BlockOf(txn.kv, k))
            == if fromHead then RemoveFirst(s, element, removed) else RemoveLast(s, element, removed)
  {
    hide BlockOf, Window, OnlyElems, VersionInv, Reaches, RemoveFirst, RemoveLast, Matches, Positions, Reverse,
         OnlyBlock, WorksOn, Elements;
    ReachesSelf(b);
    OnlyBlockRefl(txn.kv, k);
    var hole := FindHoles(txn, k, v, element, left, right, s);
    if |hole| == 0 {
      RemoveZero(s, element);
      return 0;
    }
    OnlyElemsRefl(b, v);
    var l, r := left, right;
    ghost var t;
    if fromHead {
      removed := RemoveFromHead(txn, k, v, left, right, count, hole, element, s, b);
      r := right - removed;
      t := RemoveFirst(s, element, removed);
    } else {
      removed := RemoveFromTail(txn, k, v, left, right, count, Reverse(hole), element, s, b);
      l := left + removed;
      t := RemoveLast(s, element, removed);
    }
    ghost var kv := txn.kv;
    WindowBounds(BlockOf(kv, k), v, l, r, t);
    Settle(txn, k, ttl, v, l, r, b, t);
    OnlyBlockTrans(old(txn.kv), kv, txn.kv, k);
  }

  method Lrem(txn: Txn, k: bytes, count: nat, fromHead: bool, element: bytes, limit: nat, now: u64, threshold: nat)
    returns (reply: Reply<int>)
    requires ListInv(BlockOf(txn.kv, k))
    modifies txn
    ensures OnlyBlock(old(txn.kv), txn.kv, k)
    ensures ListInv(BlockOf(txn.kv, k)) && Served(Kind.List, old(BlockOf(txn.kv, k)), BlockOf(txn.kv, k))
    ensures KeepsTtl(old(BlockOf(txn.kv, k)), BlockOf(txn.kv, k))
    ensures old(Visible(BlockOf(txn.kv, k), now)) == [] ==>
              BlockOf(txn.kv, k) == Lapsed(old(BlockOf(txn.kv, k)), now, threshold)
    ensures var s := old(Visible(BlockOf(txn.kv, k), now)); var m := multiset(s)[element];
            var n := if count == 0 || count >= m then m else count;
            if WrongKind(old(BlockOf(txn.kv, k))) then reply == Err(WrongType) && txn.kv == old(txn.kv)
            else if limit > 0 && |s| > limit then reply == Err(ListTooLarge) && txn.kv == old(txn.kv)
            else
              var t := Elements(BlockOf(txn.kv, k));
              && reply == Ok(n) && multiset(t) == multiset(s)[element := m - n]
              && if fromHead then FreedFront(s, t, element, n) else FreedBack(s, t, element, n)
  {
    hide BlockOf, Lapsed, Window, VersionInv, Reaches, RemoveFirst, RemoveLast, Limit, OnlyBlock, FreedFront, FreedBack;
    LremMeans(Visible(BlockOf(txn.kv, k), now), element, count, fromHead);
    NothingRemoved(element, count);
    var meta := Open(txn, k, now, threshold);
    if meta.Wrong? {
      return Err(WrongType);
    } else if meta.Missing? {
      return Ok(0);
    }
    var Found(ttl, version, left, right) := meta;
    WindowBounds(BlockOf(txn.kv, k), version, left, right, Elements(BlockOf(txn.kv, k)));
    if limit > 0 && right - left > limit {
      return Err(ListTooLarge);
    }
    var removed := RemoveLive(txn, k, ttl, version, left, right, count, fromHead, element, Elements(BlockOf(txn.kv, k)),
                              BlockOf(txn.kv, k));
    return Ok(removed);
  }

  lemma NothingRemoved<T>(x: T, count: nat)
    ensures Limit([], x, count) == 0 && RemoveFirst([], x, 0) == [] && RemoveLast([], x, 0) == []
  {
  }

  lemma {:induction false} RemoveZero<T>(s: seq<T>, x: T)
    ensures RemoveFirst(s, x, 0) == s && RemoveLast(s, x, 0) == s
    decreases |s|
  {
    if s != [] {
      RemoveZero(s[1..], x);
      RemoveZero(s[..|s| - 1], x);
      assert s == [s[0]] + s[1..] == s[..|s| - 1] + [s[|s| - 1]];
    }
  }
}
