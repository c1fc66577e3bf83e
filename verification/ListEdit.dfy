/**
  LINSERT: find the pivot, shift the shorter side of the list by one, and write the element
  into the hole.
 */
module ListEdit {
  import opened Bytes
  import opened Keys
  import opened Values
  import opened Store
  import opened Gc
  import opened ListWindow
  import opened List
  import opened Replies

  // ----- searching -----

  /** The position of the first `x`, or the length if there is none. */
  function FirstIndex(s: seq<bytes>, x: bytes): (p: nat)
    ensures p <= |s|
    ensures p < |s| ==> s[p] == x
    ensures forall i :: 0 <= i < p ==> s[i] != x
  {
    if s == [] then 0 else if s[0] == x then 0 else 1 + FirstIndex(s[1..], x)
  }

  lemma FirstIndexIs(s: seq<bytes>, x: bytes, p: nat)
    requires p <= |s| && (forall i :: 0 <= i < p ==> s[i] != x) && (p < |s| ==> s[p] == x)
    ensures p == FirstIndex(s, x)
  {
  }

  /** A scan of the list as (key, value) pairs in list order. */
  lemma ListPairs(kv: Map, k: bytes, v: u16, left: nat, right: nat, s: seq<bytes>)
    requires Window(BlockOf(kv, k), v, left, right, s)
    ensures var keys := Scan(kv, ListRange(k, v));
            && |keys| == |s|
            && (forall i :: 0 <= i < |s| ==>
                      keys[i] == ElemKey(k, v, left + i) && keys[i] in kv
                      && kv[keys[i]] == Blob(s[i]))
  {
    hide Scan, KeyLess, FamilyRange, BlockOf;
    ScanList(kv, k, v, left, right, s);
    forall i | 0 <= i < |s| ensures ElemKey(k, v, left + i) in kv && kv[ElemKey(k, v, left + i)] == Blob(s[i]) {
      InBlockOf(kv, k, ElemPart(v, left + i));
    }
  }

  method FindPivot(txn: Txn, k: bytes, v: u16, pivot: bytes, ghost left: nat, ghost right: nat, ghost s: seq<bytes>)
    returns (found: bool, idx: u64)
    requires Window(BlockOf(txn.kv, k), v, left, right, s)
    ensures found <==> pivot in s
    ensures found ==> idx == left + FirstIndex(s, pivot) && FirstIndex(s, pivot) < |s|
  {
    hide BlockOf, Window, Scan, FamilyRange, FirstIndex;
    ListPairs(txn.kv, k, v, left, right, s);
    var pairs := txn.ScanPairs(ListRange(k, v));
    for i := 0 to |pairs|
      invariant forall j :: 0 <= j < i ==> s[j] != pivot
    {
      if pairs[i].1 == Blob(pivot) {
        FirstIndexIs(s, pivot, i);
        return true, pairs[i].0.part.slot.idx;
      }
    }
    return false, 0;
  }

  // ----- insert -----

  function InsertAt(s: seq<bytes>, m: nat, x: bytes): (r: seq<bytes>)
    requires m <= |s|
    ensures |r| == |s| + 1
  {
    s[..m] + [x] + s[m..]
  }

  lemma InsertAtIs(s: seq<bytes>, x: bytes)
    ensures forall m :: 0 <= m <= |s| ==> InsertAt(s, m, x) == s[..m] + [x] + s[m..]
  {
  }

  /** Overwriting the duplicate that a shift leaves inserts the element. */
  lemma FillHole(s: seq<bytes>, m: nat, x: bytes)
    requires m <= |s|
    ensures m > 0 ==> (s[..m] + s[m - 1..])[m := x] == InsertAt(s, m, x)
    ensures m < |s| ==> (s[..m + 1] + s[m..])[m := x] == InsertAt(s, m, x)
    ensures m == 0 ==> [x] + s == InsertAt(s, m, x)
    ensures m == |s| ==> s + [x] == InsertAt(s, m, x)
  {
  }

  lemma ShiftDownStep(s: seq<bytes>, j: nat)
    requires 0 < j < |s|
    ensures (s[..j] + s[j - 1..])[j := s[j]] == s[..j + 1] + s[j..]
  {
  }

  /** The elements from position `m` on, `j` of them copied one position up. */
  ghost function Lifted(s: seq<bytes>, m: nat, j: nat): (t: seq<bytes>)
    requires m + j < |s|
    ensures |t| == |s|
  {
    s[..m + 1] + s[m..m + j] + s[m + j + 1..]
  }

  lemma LiftNone(s: seq<bytes>, m: nat)
    requires m < |s|
    ensures Lifted(s, m, 0) == s
  {
  }

  lemma LiftStep(s: seq<bytes>, m: nat, j: nat)
    requires m + j < |s|
    ensures m + j + 1 < |s| ==> Lifted(s, m, j)[m + j + 1 := s[m + j]] == Lifted(s, m, j + 1)
    ensures m + j + 1 == |s| ==> Lifted(s, m, j) + [s[m + j]] == s[..m + 1] + s[m..]
  {
  }

  lemma LiftOne(base: Block, c: Block, v: u16, left: u64, right: u64, s: seq<bytes>, m: nat, j: nat)
    requires m + j < |s| && Window(c, v, left, right, Lifted(s, m, j)) && OnlyElems(base, c, v)
    requires right + 1 < INDEX_LIMIT
    ensures right == left + |s|
    ensures var d := c[ElemPart(v, left + m + j + 1) := Blob(s[m + j])];
            && (m + j + 1 < |s| ==> Window(d, v, left, right, Lifted(s, m, j + 1)))
            && (m + j + 1 == |s| ==> Window(d, v, left, right + 1, s[..m + 1] + s[m..]))
  {
    hide Window, OnlyElems, Lifted;
    WindowBounds(c, v, left, right, Lifted(s, m, j));
    LiftStep(s, m, j);
    if m + j + 1 < |s| {
      PutInside(base, c, v, left, right, Lifted(s, m, j), left + m + j + 1, s[m + j]);
    } else {
      PutRight(base, c, v, left, right, Lifted(s, m, j), s[m + j]);
    }
  }

  /** Copy the elements from `left` to `last` one index down, leaving a duplicate at `last`. */
  method ShiftDown(txn: Txn, k: bytes, v: u16, left: u64, last: u64, ghost right: u64, ghost s: seq<bytes>,
                   ghost base: Block)
    requires Window(BlockOf(txn.kv, k), v, left, right, s) && OnlyElems(base, BlockOf(txn.kv, k), v)
    requires left <= last
    modifies txn
    ensures OnlyBlock(old(txn.kv), txn.kv, k) && OnlyElems(base, BlockOf(txn.kv, k), v)
    ensures left > 0 && last < right ==>
              var m := last - left + 1;
              m <= |s| && Window(BlockOf(txn.kv, k), v, left - 1, right, s[..m] + s[m - 1..])
  {
    hide BlockOf, Window, OnlyElems, OnlyBlock, ScanBetween;
    var pairs := ElemPairs(txn, k, v, left, right, s, left, last);
    WindowBounds(BlockOf(txn.kv, k), v, left, right, s);
    OnlyBlockRefl(txn.kv, k);
    ghost var fits := left > 0 && last < right;
    for j := 0 to |pairs|
      invariant OnlyBlock(old(txn.kv), txn.kv, k) && OnlyElems(base, BlockOf(txn.kv, k), v)
      invariant fits && j == 0 ==> Window(BlockOf(txn.kv, k), v, left, right, s)
      invariant fits && j > 0 ==> Window(BlockOf(txn.kv, k), v, left - 1, right, s[..j] + s[j - 1..])
    {
      ghost var kv, c := txn.kv, BlockOf(txn.kv, k);
      var idx := pairs[j].0.part.slot.idx;
      if fits {
        if j == 0 {
          PutLeft(base, c, v, left, right, s, s[0]);
          assert [s[0]] + s == s[..1] + s[0..];
        } else {
          PutInside(base, c, v, left - 1, right, s[..j] + s[j - 1..], idx - 1, s[j]);
          ShiftDownStep(s, j);
        }
      }
      PutAnywhere(base, c, v, Below(idx, 1), pairs[j].1);
      txn.Put(ElemKey(k, v, Below(idx, 1)), pairs[j].1);
      OnlyBlockTrans(old(txn.kv), kv, txn.kv, k);
    }
  }

  /** Copy the elements from `first` to the last one index up, leaving a duplicate at `first`. */
  method ShiftUp(txn: Txn, k: bytes, v: u16, ghost left: u64, first: u64, right: u64, ghost s: seq<bytes>,
                 ghost base: Block)
    requires Window(BlockOf(txn.kv, k), v, left, right, s) && OnlyElems(base, BlockOf(txn.kv, k), v)
    requires left <= first < right
    modifies txn
    ensures OnlyBlock(old(txn.kv), txn.kv, k) && OnlyElems(base, BlockOf(txn.kv, k), v)
    ensures right + 1 < INDEX_LIMIT ==>
              var m := first - left; m < |s| && Window(BlockOf(txn.kv, k), v, left, right + 1, s[..m + 1] + s[m..])
  {
    hide BlockOf, Window, OnlyElems, OnlyBlock, ScanBetween, Lifted;
    var pairs := ElemPairs(txn, k, v, left, right, s, first, right - 1);
    WindowBounds(BlockOf(txn.kv, k), v, left, right, s);
    OnlyBlockRefl(txn.kv, k);
    ghost var m, fits := first - left, right + 1 < INDEX_LIMIT;
    LiftNone(s, m);
    for j := 0 to |pairs|
      invariant OnlyBlock(old(txn.kv), txn.kv, k) && OnlyElems(base, BlockOf(txn.kv, k), v)
      invariant fits && j < |pairs| ==> Window(BlockOf(txn.kv, k), v, left, right, Lifted(s, m, j))
      invariant fits && j == |pairs| ==> Window(BlockOf(txn.kv, k), v, left, right + 1, s[..m + 1] + s[m..])
    {
      ghost var kv, c := txn.kv, BlockOf(txn.kv, k);
      var idx := pairs[j].0.part.slot.idx;
      if fits {
        LiftOne(base, c, v, left, right, s, m, j);
      }
      PutAnywhere(base, c, v, idx + 1, pairs[j].1);
      txn.Put(ElemKey(k, v, idx + 1), pairs[j].1);
      OnlyBlockTrans(old(txn.kv), kv, txn.kv, k);
    }
  }

  /** The elements between two indexes; a last index behind the list is one that has wrapped around. */
  method ElemPairs(txn: Txn, k: bytes, v: u16, ghost left: u64, ghost right: u64, ghost s: seq<bytes>,
                   first: u64, last: u64)
    returns (pairs: seq<(Key, Value)>)
    requires Window(BlockOf(txn.kv, k), v, left, right, s) && left <= first <= last
    ensures forall i :: 0 <= i < |pairs| ==> IsElem(pairs[i].0, k, v)
    ensures last < right ==>
              && |pairs| == last - first + 1 && right - left == |s|
              && forall i :: 0 <= i < |pairs| ==> pairs[i] == (ElemKey(k, v, first + i), Blob(s[first - left + i]))
  {
    hide ScanBetween, AtOrAfter;
    pairs := txn.ScanPairsBetween(ElemKey(k, v, first), ElemKey(k, v, last));
    AllElems(txn.kv, k, v, first, last);
    if last < right {
      ScanElems(txn.kv, k, v, left, right, s, first, last);
      forall i | 0 <= i < |pairs| ensures pairs[i] == (ElemKey(k, v, first + i), Blob(s[first - left + i])) {
        InBlockOf(txn.kv, k, ElemPart(v, first + i));
      }
    }
  }

  lemma AllElems(kv: Map, k: bytes, v: u16, first: u64, last: u64)
    requires first <= last
    ensures var keys := ScanBetween(kv, ElemKey(k, v, first), ElemKey(k, v, last));
            forall i :: 0 <= i < |keys| ==> IsElem(keys[i], k, v)
  {
    hide AtOrAfter, Ascending, Ascends, KeyLess;
    var keys := ScanBetween(kv, ElemKey(k, v, first), ElemKey(k, v, last));
    forall i | 0 <= i < |keys| ensures IsElem(keys[i], k, v) {
      assert keys[i] in keys;
      ListIdxRangeExact(k, v, first, last, keys[i]);
    }
  }

  /** The side that is shifted for a pivot at position `p` of `n`, and whether it can grow. */
  predicate Room(left: u64, right: u64, p: nat, n: nat) {
    if p < n - p then left > 0 else right + 1 < INDEX_LIMIT
  }

  ghost function Place(left: u64, idx: u64, beforePivot: bool): int {
    if beforePivot then idx - left else idx - left + 1
  }

  /** Make room by shifting the left side, and write the element there. */
  method InsertLeft(txn: Txn, k: bytes, v: u16, left: u64, ghost right: u64, idx: u64, beforePivot: bool,
                    element: bytes, ghost s: seq<bytes>, ghost base: Block)
    requires Window(BlockOf(txn.kv, k), v, left, right, s) && OnlyElems(base, BlockOf(txn.kv, k), v)
    requires left <= idx < right
    modifies txn
    ensures OnlyBlock(old(txn.kv), txn.kv, k) && OnlyElems(base, BlockOf(txn.kv, k), v)
    ensures left > 0 ==>
              var m := Place(left, idx, beforePivot);
              m <= |s| && Window(BlockOf(txn.kv, k), v, left - 1, right, InsertAt(s, m, element))
  {
    hide BlockOf, Window, OnlyElems, OnlyBlock, InsertAt;
    WindowBounds(BlockOf(txn.kv, k), v, left, right, s);
    OnlyBlockRefl(txn.kv, k);
    ghost var m := Place(left, idx, beforePivot);
    FillHole(s, m, element);
    var idxOp := if beforePivot then Below(idx, 1) else idx;
    if idxOp >= left {
      ShiftDown(txn, k, v, left, idxOp, right, s, base);
      if left > 0 {
        PutInside(base, BlockOf(txn.kv, k), v, left - 1, right, s[..m] + s[m - 1..], idxOp, element);
      }
    } else {
      PutLeft(base, BlockOf(txn.kv, k), v, left, right, s, element);
    }
    ghost var kv := txn.kv;
    PutAnywhere(base, BlockOf(kv, k), v, idxOp, Blob(element));
    txn.Put(ElemKey(k, v, idxOp), Blob(element));
    OnlyBlockTrans(old(txn.kv), kv, txn.kv, k);
  }

  /** The same with the right side. */
  method InsertRight(txn: Txn, k: bytes, v: u16, ghost left: u64, right: u64, idx: u64, beforePivot: bool,
                     element: bytes, ghost s: seq<bytes>, ghost base: Block)
    requires Window(BlockOf(txn.kv, k), v, left, right, s) && OnlyElems(base, BlockOf(txn.kv, k), v)
    requires left <= idx < right
    modifies txn
    ensures OnlyBlock(old(txn.kv), txn.kv, k) && OnlyElems(base, BlockOf(txn.kv, k), v)
    ensures right + 1 < INDEX_LIMIT ==>
              var m := Place(left, idx, beforePivot);
              m <= |s| && Window(BlockOf(txn.kv, k), v, left, right + 1, InsertAt(s, m, element))
  {
    hide BlockOf, Window, OnlyElems, OnlyBlock, InsertAt;
    WindowBounds(BlockOf(txn.kv, k), v, left, right, s);
    OnlyBlockRefl(txn.kv, k);
    ghost var m := Place(left, idx, beforePivot);
    FillHole(s, m, element);
    var idxOp := if beforePivot then idx else idx + 1;
    if idxOp < right {
      ShiftUp(txn, k, v, left, idxOp, right, s, base);
      if right + 1 < INDEX_LIMIT {
        PutInside(base, BlockOf(txn.kv, k), v, left, right + 1, s[..m + 1] + s[m..], idxOp, element);
      }
    } else if right + 1 < INDEX_LIMIT {
      PutRight(base, BlockOf(txn.kv, k), v, left, right, s, element);
    }
    ghost var kv := txn.kv;
    PutAnywhere(base, BlockOf(kv, k), v, idxOp, Blob(element));
    txn.Put(ElemKey(k, v, idxOp), Blob(element));
    OnlyBlockTrans(old(txn.kv), kv, txn.kv, k);
  }

  /** Insert by shifting the shorter side; indexes wrap around. */
  method InsertElem(txn: Txn, k: bytes, v: u16, left: u64, right: u64, idx: u64, beforePivot: bool, element: bytes,
                    ghost s: seq<bytes>, ghost base: Block)
    returns (l: u64, r: u64)
    requires Window(BlockOf(txn.kv, k), v, left, right, s) && OnlyElems(base, BlockOf(txn.kv, k), v)
    requires left <= idx < right
    modifies txn
    ensures OnlyBlock(old(txn.kv), txn.kv, k) && OnlyElems(base, BlockOf(txn.kv, k), v)
    ensures idx - left < |s|
    ensures if idx - left < right - idx then l == Below(left, 1) && r == right else l == left && r == right + 1
    ensures Room(left, right, idx - left, |s|) ==>
              Window(BlockOf(txn.kv, k), v, l, r, InsertAt(s, Place(left, idx, beforePivot), element))
  {
    hide BlockOf, Window, OnlyElems, OnlyBlock, InsertAt;
    WindowBounds(BlockOf(txn.kv, k), v, left, right, s);
    l, r := left, right;
    var fromLeft := idx - left < right - idx;
    if fromLeft {
      InsertLeft(txn, k, v, left, right, idx, beforePivot, element, s, base);
      l := Below(left, 1);
    } else {
      InsertRight(txn, k, v, left, right, idx, beforePivot, element, s, base);
      r := right + 1;
    }
  }

  /** ... and the new window to the meta key. */
  method Insert(txn: Txn, k: bytes, ttl: u64, v: u16, left: u64, right: u64, idx: u64, beforePivot: bool,
                element: bytes, ghost s: seq<bytes>, ghost b: Block)
    returns (n: int)
    requires b == BlockOf(txn.kv, k) && VersionInv(b) && WorksOn(b, v) && Window(b, v, left, right, s)
    requires left <= idx < right
    modifies txn
    ensures OnlyBlock(old(txn.kv), txn.kv, k) && Reaches(b, BlockOf(txn.kv, k))
    ensures HasList(BlockOf(txn.kv, k)) && BlockOf(txn.kv, k)[Meta].ttl == ttl
    ensures n == |s| + 1 && idx - left < |s|
    ensures ListInv(BlockOf(txn.kv, k)) <==> Room(left, right, idx - left, |s|)
    ensures ListInv(BlockOf(txn.kv, k)) ==>
              Elements(BlockOf(txn.kv, k)) == InsertAt(s, Place(left, idx, beforePivot), element)
  {
    hide BlockOf, Window, OnlyElems, VersionInv, InsertAt, Reaches, OnlyBlock, WorksOn, ListInv, Elements;
    WindowBounds(b, v, left, right, s);
    OnlyElemsRefl(b, v);
    ghost var room, m := Room(left, right, idx - left, |s|), Place(left, idx, beforePivot);
    var l, r := InsertElem(txn, k, v, left, right, idx, beforePivot, element, s, b);
    ghost var kv := txn.kv;
    WriteMeta(txn, k, ttl, v, l, r, b, room, InsertAt(s, m, element));
    OnlyBlockTrans(old(txn.kv), kv, txn.kv, k);
    return Between64(l, r);
  }

  /** LINSERT into this block runs out of the index space. */
  ghost predicate Overruns(b: Block, s: seq<bytes>, pivot: bytes, limit: nat) {
    && HasList(b) && s != [] && !(limit > 0 && |s| > limit)
    && FirstIndex(s, pivot) < |s| && !Room(b[Meta].left, b[Meta].right, FirstIndex(s, pivot), |s|)
  }

  /** The list stays in order if and only if the side that is shifted has room. */
  method Linsert(txn: Txn, k: bytes, beforePivot: bool, pivot: bytes, element: bytes, limit: nat, now: u64,
                 threshold: nat)
    returns (reply: Reply<int>)
    requires ListInv(BlockOf(txn.kv, k))
    modifies txn
    ensures OnlyBlock(old(txn.kv), txn.kv, k)
    ensures Served(Kind.List, old(BlockOf(txn.kv, k)), BlockOf(txn.kv, k))
    ensures KeepsTtl(old(BlockOf(txn.kv, k)), BlockOf(txn.kv, k))
    ensures old(Visible(BlockOf(txn.kv, k), now)) == [] ==>
              BlockOf(txn.kv, k) == Lapsed(old(BlockOf(txn.kv, k)), now, threshold)
    ensures var s := old(Visible(BlockOf(txn.kv, k), now)); var p := FirstIndex(s, pivot);
            && (ListInv(BlockOf(txn.kv, k)) <==> !Overruns(old(BlockOf(txn.kv, k)), s, pivot, limit))
            && if WrongKind(old(BlockOf(txn.kv, k))) then reply == Err(WrongType) && txn.kv == old(txn.kv)
               else if limit > 0 && |s| > limit then reply == Err(ListTooLarge) && txn.kv == old(txn.kv)
               else if s == [] then reply == Ok(0) && Meta !in BlockOf(txn.kv, k)
               else if p == |s| then reply == Ok(-1) && txn.kv == old(txn.kv)
               else
                 && reply == Ok(|s| + 1)
                 && (ListInv(BlockOf(txn.kv, k)) ==>
                       Elements(BlockOf(txn.kv, k))
                       == if beforePivot then s[..p] + [element] + s[p..] else s[..p + 1] + [element] + s[p + 1..])
  {
    InsertAtIs(Visible(BlockOf(txn.kv, k), now), element);
    hide BlockOf, Lapsed, Window, OnlyElems, VersionInv, InsertAt, FirstIndex, Reaches;
    var meta := Open(txn, k, now, threshold);
    if meta.Wrong? {
      return Err(WrongType);
    } else if meta.Missing? {
      return Ok(0);
    }
    var Found(ttl, version, left, right) := meta;
    ghost var b := BlockOf(txn.kv, k);
    ghost var s := Elements(b);
    WindowBounds(b, version, left, right, s);
    if limit > 0 && right - left > limit {
      return Err(ListTooLarge);
    }
    var found, idx := FindPivot(txn, k, version, pivot, left, right, s);
    if !found {
      return Ok(-1);
    }
    var n := Insert(txn, k, ttl, version, left, right, idx, beforePivot, element, s, b);
    return Ok(n);
  }
}
