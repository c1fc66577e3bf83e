/**
  How a list is stored: its elements sit at consecutive indexes `[left, right)` of one
  version, and the meta key holds the window.
 */
module ListWindow {
  import opened Bytes
  import opened Codec
  import opened Keys
  import opened Values
  import opened Store
  import opened Gc

  /** The code converts indexes to `i64`, so windows stay below 2^63. */
  const INDEX_LIMIT: nat := 0x8000_0000_0000_0000

  function ElemPart(v: u16, i: u64): Part {
    Data(v, Elem(i))
  }

  function ElemKey(k: bytes, v: u16, i: u64): Key {
    Key(k, ElemPart(v, i))
  }

  /** The elements stored under version `v` are exactly `s`, at the indexes from `left` to `right`. */
  ghost predicate Window(b: Block, v: u16, left: int, right: int, s: seq<bytes>) {
    && 0 <= left && right == left + |s| && right < INDEX_LIMIT
    && (forall i: u64 :: ElemPart(v, i) in b <==> left <= i < right)
    && (forall i: u64 :: left <= i < right ==> b[ElemPart(v, i)] == Blob(s[i - left]))
  }

  predicate HasList(b: Block) {
    Meta in b && b[Meta].ListMeta?
  }

  /** A list that is still there has the ttl it had. */
  ghost predicate KeepsTtl(b: Block, c: Block) {
    HasList(c) ==> HasList(b) && c[Meta].ttl == b[Meta].ttl
  }

  /** What every list command keeps: a stored list is a non-empty window of elements. */
  ghost predicate ListInv(b: Block) {
    && VersionInv(b)
    && (HasList(b) ==>
          && b[Meta].left < b[Meta].right < INDEX_LIMIT
          && (forall i: u64 :: ElemPart(b[Meta].version, i) in b <==> b[Meta].left <= i < b[Meta].right)
          && (forall i: u64 :: b[Meta].left <= i < b[Meta].right ==> b[ElemPart(b[Meta].version, i)].Blob?))
  }

  ghost function Elements(b: Block): (s: seq<bytes>)
    requires ListInv(b)
    ensures HasList(b) ==> s != [] && Window(b, b[Meta].version, b[Meta].left, b[Meta].right, s)
    ensures !HasList(b) ==> s == []
  {
    if HasList(b) then
      var meta := b[Meta];
      seq(meta.right - meta.left,
          i requires 0 <= i < meta.right - meta.left => b[ElemPart(meta.version, meta.left + i)].data)
    else []
  }

  /** Nothing differs but the meta key and elements of version `v`. */
  ghost predicate OnlyElems(before: Block, after: Block, v: u16) {
    forall p :: p != Meta && !(p.Data? && p.version == v && p.slot.Elem?) ==>
      (p in before <==> p in after) && (p in before ==> before[p] == after[p])
  }

  /** The version a list command works under: the live one, or a free one for a new list. */
  ghost predicate WorksOn(b: Block, v: u16) {
    if HasColl(b) then b[Meta].ListMeta? && b[Meta].version == v
    else Meta !in b && VersionForNew(b) == Some(v)
  }

  lemma Stored(b: Block, c: Block, ttl: u64, v: u16, left: u64, right: u64, s: seq<bytes>)
    requires VersionInv(b) && WorksOn(b, v) && OnlyElems(b, c, v)
    requires Meta in c && c[Meta] == ListMeta(ttl, v, left, right)
    requires Window(c, v, left, right, s) && s != []
    ensures ListInv(c) && Elements(c) == s && Reaches(b, c)
  {
    hide Reaches;
    forall w, x | Data(w, x) in c ensures Owned(c, w, x) {
      if !(w == v && x.Elem?) {
        assert Data(w, x) in b && Owned(b, w, x);
      }
    }
    StoredReached(b, c, v);
  }

  lemma StoredReached(b: Block, c: Block, v: u16)
    requires VersionInv(b) && WorksOn(b, v) && OnlyElems(b, c, v) && Meta in c && c[Meta].ListMeta?
            && c[Meta].version == v
    ensures Reaches(b, c)
  {
    hide Reaches;
    if Meta !in b {
      FreshVersionEmpty(b, v);
    }
    forall s | Data(v, s) in c ensures s.Elem? {
      assert Data(v, s) in b ==> Owned(b, v, s);
    }
    ReachesByWrite(b, c, v);
  }

  lemma DroppedReached(b: Block, c: Block, v: u16)
    requires VersionInv(b) && WorksOn(b, v) && OnlyElems(b, c, v) && Meta !in c && forall i: u64 :: ElemPart(v, i) !in c
    ensures Reaches(b, c)
  {
    hide Reaches;
    if HasColl(b) {
      forall s ensures Data(v, s) !in c {
        assert s.Elem? ==> ElemPart(v, s.idx) !in c;
        assert Data(v, s) in b ==> Owned(b, v, s);
      }
      ReachesByDel(b, c, v);
    } else {
      FreshVersionEmpty(b, v);
      forall p | p in c ensures p in b {
        match p {
          case Data(w, Elem(i)) => assert ElemPart(v, i) !in c;
          case _ =>
        }
      }
      assert b == c;
      ReachesSelf(b);
    }
  }

  lemma Dropped(b: Block, c: Block, v: u16)
    requires VersionInv(b) && WorksOn(b, v) && OnlyElems(b, c, v)
    requires Meta !in c && forall i: u64 :: ElemPart(v, i) !in c
    ensures ListInv(c) && Elements(c) == [] && Reaches(b, c)
  {
    hide Reaches;
    DroppedReached(b, c, v);
    forall w, x | Data(w, x) in c ensures Owned(c, w, x) {
      assert x.Elem? ==> ElemPart(v, x.idx) !in c;
      assert Data(w, x) in b && Owned(b, w, x);
    }
  }

  /** Write the meta key of a list whose elements are in place. */
  method SaveMeta(txn: Txn, k: bytes, ttl: u64, v: u16, left: u64, right: u64, ghost base: Block, ghost s: seq<bytes>)
    requires VersionInv(base) && WorksOn(base, v) && OnlyElems(base, BlockOf(txn.kv, k), v)
    requires Window(BlockOf(txn.kv, k), v, left, right, s) && s != []
    modifies txn
    ensures OnlyBlock(old(txn.kv), txn.kv, k)
    ensures ListInv(BlockOf(txn.kv, k)) && Elements(BlockOf(txn.kv, k)) == s && Reaches(base, BlockOf(txn.kv, k))
    ensures HasList(BlockOf(txn.kv, k)) && BlockOf(txn.kv, k)[Meta] == ListMeta(ttl, v, left, right)
  {
    hide BlockOf, Reaches;
    txn.Put(Key(k, Meta), ListMeta(ttl, v, left, right));
    Stored(base, BlockOf(txn.kv, k), ttl, v, left, right, s);
  }

  /** Delete the meta key of a list that has no elements left. */
  method DropMeta(txn: Txn, k: bytes, v: u16, ghost base: Block, ghost left: int)
    requires VersionInv(base) && WorksOn(base, v) && OnlyElems(base, BlockOf(txn.kv, k), v)
    requires Window(BlockOf(txn.kv, k), v, left, left, [])
    modifies txn
    ensures OnlyBlock(old(txn.kv), txn.kv, k)
    ensures ListInv(BlockOf(txn.kv, k)) && Elements(BlockOf(txn.kv, k)) == [] && Meta !in BlockOf(txn.kv, k)
    ensures Reaches(base, BlockOf(txn.kv, k))
  {
    hide BlockOf, Reaches;
    txn.Delete(Key(k, Meta));
    Dropped(base, BlockOf(txn.kv, k), v);
  }

  /** One or the other, by what is left. */
  method Settle(txn: Txn, k: bytes, ttl: u64, v: u16, left: u64, right: u64, ghost base: Block, ghost s: seq<bytes>)
    requires VersionInv(base) && WorksOn(base, v) && OnlyElems(base, BlockOf(txn.kv, k), v)
    requires Window(BlockOf(txn.kv, k), v, left, right, s)
    modifies txn
    ensures OnlyBlock(old(txn.kv), txn.kv, k)
    ensures ListInv(BlockOf(txn.kv, k)) && Elements(BlockOf(txn.kv, k)) == s && Reaches(base, BlockOf(txn.kv, k))
    ensures Meta in BlockOf(txn.kv, k) ==> HasList(BlockOf(txn.kv, k)) && BlockOf(txn.kv, k)[Meta].ttl == ttl
  {
    hide BlockOf, Window, OnlyElems, VersionInv, Reaches, WorksOn, OnlyBlock, Elements, ListInv;
    WindowBounds(BlockOf(txn.kv, k), v, left, right, s);
    if left == right {
      DropMeta(txn, k, v, base, left);
    } else {
      SaveMeta(txn, k, ttl, v, left, right, base, s);
    }
  }

  // ----- index arithmetic -----

  /** `n` below an index, wrapping around below 0. */
  function Below(i: u64, n: nat): u64
    requires n <= INDEX_LIMIT
  {
    if n <= i then i - n else i - n + 0x1_0000_0000_0000_0000
  }

  /** The unsigned difference of two indexes. */
  function Between64(left: u64, right: u64): u64 {
    if left <= right then right - left else right - left + 0x1_0000_0000_0000_0000
  }

  // ----- one write at a time -----

  lemma PutAnywhere(b: Block, c: Block, v: u16, i: u64, x: Value)
    requires OnlyElems(b, c, v)
    ensures var d := c[ElemPart(v, i) := x]; OnlyElems(b, d, v) && (Meta in d <==> Meta in c)
  {
  }

  lemma EmptyWindow(b: Block, v: u16, left: u64)
    requires left < INDEX_LIMIT && forall s :: Data(v, s) !in b
    ensures Window(b, v, left, left, [])
  {
  }

  lemma PutLeft(b: Block, c: Block, v: u16, left: int, right: int, s: seq<bytes>, x: bytes)
    requires Window(c, v, left, right, s) && OnlyElems(b, c, v) && left > 0
    ensures var d := c[ElemPart(v, left - 1) := Blob(x)];
            && Window(d, v, left - 1, right, [x] + s) && OnlyElems(b, d, v) && (Meta in d <==> Meta in c)
  {
  }

  lemma PutRight(b: Block, c: Block, v: u16, left: int, right: int, s: seq<bytes>, x: bytes)
    requires Window(c, v, left, right, s) && OnlyElems(b, c, v) && right + 1 < INDEX_LIMIT
    ensures var d := c[ElemPart(v, right) := Blob(x)];
            && Window(d, v, left, right + 1, s + [x]) && OnlyElems(b, d, v) && (Meta in d <==> Meta in c)
  {
  }

  lemma DropLeft(b: Block, c: Block, v: u16, left: int, right: int, s: seq<bytes>)
    requires Window(c, v, left, right, s) && OnlyElems(b, c, v) && s != []
    ensures ElemPart(v, left) in c && c[ElemPart(v, left)] == Blob(s[0])
    ensures var d := c - {ElemPart(v, left)};
            && Window(d, v, left + 1, right, s[1..]) && OnlyElems(b, d, v) && (Meta in d <==> Meta in c)
  {
  }

  lemma DropRight(b: Block, c: Block, v: u16, left: int, right: int, s: seq<bytes>)
    requires Window(c, v, left, right, s) && OnlyElems(b, c, v) && s != []
    ensures ElemPart(v, right - 1) in c && c[ElemPart(v, right - 1)] == Blob(s[|s| - 1])
    ensures var d := c - {ElemPart(v, right - 1)};
            && Window(d, v, left, right - 1, s[..|s| - 1]) && OnlyElems(b, d, v) && (Meta in d <==> Meta in c)
  {
  }

  lemma WindowBounds(b: Block, v: u16, left: int, right: int, s: seq<bytes>)
    requires Window(b, v, left, right, s)
    ensures 0 <= left && right == left + |s| < INDEX_LIMIT
  {
  }

  lemma OnlyElemsRefl(b: Block, v: u16)
    ensures OnlyElems(b, b, v)
  {
  }

  // ----- scans of a window -----

  function ElemKeys(k: bytes, v: u16, first: nat, last: nat): (keys: seq<Key>)
    requires first <= last < INDEX_LIMIT
    ensures |keys| == last - first
    ensures forall i :: 0 <= i < |keys| ==> keys[i] == ElemKey(k, v, first + i)
  {
    seq(last - first, i requires 0 <= i < last - first => ElemKey(k, v, first + i))
  }

  predicate IsElem(key: Key, k: bytes, v: u16) {
    key.ukey == k && key.part.Data? && key.part.version == v && key.part.slot.Elem?
  }

  lemma ElemKeysAscend(k: bytes, v: u16, first: nat, last: nat)
    requires first <= last < INDEX_LIMIT
    ensures Ascends(ElemKeys(k, v, first, last))
    ensures forall key :: key in ElemKeys(k, v, first, last)
                          <==> IsElem(key, k, v) && first <= key.part.slot.idx < last
  {
    hide KeyLess;
    var keys := ElemKeys(k, v, first, last);
    forall i, j | 0 <= i < j < |keys| ensures KeyLess(keys[i], keys[j]) {
      ElemOrder(k, v, first + i, first + j);
    }
    forall key: Key | IsElem(key, k, v) && first <= key.part.slot.idx < last
      ensures key in keys
    {
      assert keys[key.part.slot.idx - first] == key;
    }
  }

  /** A scan of the list's range returns the elements in list order. */
  lemma ScanList(kv: Map, k: bytes, v: u16, left: nat, right: nat, s: seq<bytes>)
    requires Window(BlockOf(kv, k), v, left, right, s)
    ensures Scan(kv, ListRange(k, v)) == ElemKeys(k, v, left, right)
  {
    hide KeyLess, Ascends, FamilyRange, ElemKeys, Ascending;
    var keys := ElemKeys(k, v, left, right);
    ElemKeysAscend(k, v, left, right);
    forall key ensures key in keys <==> key in Selected(kv, ListRange(k, v)) {
      FamilyRangeExact(DATA_TYPE_LIST, k, v, key);
      if IsElem(key, k, v) {
        assert key == ElemKey(k, v, key.part.slot.idx);
        assert key in kv <==> ElemPart(v, key.part.slot.idx) in BlockOf(kv, k) by { InBlockOf(kv, k, key.part); }
      }
    }
    AscendingUnique(Selected(kv, ListRange(k, v)), keys);
  }

  /** An inclusive scan between two stored indexes returns exactly the elements between them. */
  lemma ScanElems(kv: Map, k: bytes, v: u16, left: nat, right: nat, s: seq<bytes>, first: nat, last: nat)
    requires Window(BlockOf(kv, k), v, left, right, s) && left <= first <= last < right
    ensures ScanBetween(kv, ElemKey(k, v, first), ElemKey(k, v, last)) == ElemKeys(k, v, first, last + 1)
  {
    hide KeyLess, Ascends, ElemKeys, AtOrAfter, Ascending;
    var keys := ElemKeys(k, v, first, last + 1);
    ElemKeysAscend(k, v, first, last + 1);
    var selected := Between(kv, ElemKey(k, v, first), ElemKey(k, v, last));
    forall key ensures key in keys <==> key in selected {
      ListIdxRangeExact(k, v, first, last, key);
      if IsElem(key, k, v) {
        assert key == ElemKey(k, v, key.part.slot.idx);
        assert key in kv <==> ElemPart(v, key.part.slot.idx) in BlockOf(kv, k) by { InBlockOf(kv, k, key.part); }
      }
    }
    AscendingUnique(selected, keys);
  }
}
