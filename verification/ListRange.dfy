/**
  LRANGE. The code scans from the first wanted element on, with no upper bound but a
  count, so what it returns depends on what is stored behind the list.
 */
module ListRange {
  import opened Bytes
  import opened Codec
  import opened Keys
  import opened Values
  import opened Store
  import opened Gc
  import opened ListWindow
  import opened List
  import opened Replies
  import opened Indexes

  // ----- what lies behind the list -----

  /** The meta key of a list sorts behind its elements. */
  lemma MetaAfterElems(k: bytes, v: u16, i: u64)
    ensures KeyLess(ElemKey(k, v, i), Key(k, Meta))
  {
    hide Enc, Be16, Be64, Less;
    var p := [DATA_TYPE_USER] + Enc(k);
    var x, y := Rest(ElemPart(v, i)), Rest(Meta);
    assert Less(x, y) by { FirstByte(x, y); }
    LessAppend(p, x, y);
  }

  /** From an index on, an open-ended scan sees the elements first, and then at least one more key. */
  lemma ScanFromElem(kv: Map, k: bytes, v: u16, left: nat, right: nat, s: seq<bytes>, from: nat)
    requires Window(BlockOf(kv, k), v, left, right, s) && from <= right && Meta in BlockOf(kv, k)
    ensures var lo := if from < left then left else from;
            var keys := Ascending(From(kv, ElemKey(k, v, from)));
            |keys| > right - lo && keys[..right - lo] == ElemKeys(k, v, lo, right)
  {
    hide KeyLess, Ascends, ElemKeys, AtOrAfter, Ascending, BlockOf, Window;
    WindowBounds(BlockOf(kv, k), v, left, right, s);
    var lo := if from < left then left else from;
    var elems := ElemKeys(k, v, lo, right);
    var all := From(kv, ElemKey(k, v, from));
    var rest := all - set key | key in elems;
    ElemKeysAscend(k, v, lo, right);
    forall key | key in elems ensures key in all {
      ElemInFrom(kv, k, v, left, right, s, from, key.part.slot.idx);
    }
    forall x, y | x in elems && y in rest ensures KeyLess(x, y) {
      BehindElem(kv, k, v, left, right, s, from, x.part.slot.idx, y);
    }
    AscendingConcat(elems, rest);
    assert (set key | key in elems) + rest == all;
    MetaAfterElems(k, v, from);
    AfterOrEqual(ElemKey(k, v, from), Key(k, Meta));
    InBlockOf(kv, k, Meta);
    assert Key(k, Meta) in rest;
    assert Key(k, Meta) in Ascending(rest);
  }

  lemma ElemInFrom(kv: Map, k: bytes, v: u16, left: nat, right: nat, s: seq<bytes>, from: nat, i: u64)
    requires Window(BlockOf(kv, k), v, left, right, s) && from <= i && left <= i < right
    ensures ElemKey(k, v, i) in From(kv, ElemKey(k, v, from))
  {
    hide KeyLess, AtOrAfter, BlockOf;
    InBlockOf(kv, k, ElemPart(v, i));
    ListIdxRangeExact(k, v, from, i, ElemKey(k, v, i));
  }

  /** A key behind the start that is no element of the window lies behind each of its elements. */
  lemma BehindElem(kv: Map, k: bytes, v: u16, left: nat, right: nat, s: seq<bytes>, from: nat, i: u64, key: Key)
    requires Window(BlockOf(kv, k), v, left, right, s) && from <= i && left <= i < right
    requires key in From(kv, ElemKey(k, v, from))
    requires !(IsElem(key, k, v) && from <= key.part.slot.idx && left <= key.part.slot.idx < right)
    ensures KeyLess(ElemKey(k, v, i), key)
  {
    hide KeyLess, AtOrAfter, BlockOf;
    ListIdxRangeExact(k, v, from, i, key);
    InBlockOf(kv, key.ukey, key.part);
    if IsElem(key, k, v) {
      assert key.part == ElemPart(v, key.part.slot.idx);
    }
    AfterOrEqual(key, ElemKey(k, v, i));
    KeyLessTotal(key, ElemKey(k, v, i));
  }

  // ----- the command -----

  /** The values a scan from list position `a` with the computed count returns. */
  function Returned(kv: Map, k: bytes, v: u16, left: u64, len: nat, a: int, b: int): seq<Value>
    requires len < INDEX_LIMIT
  {
    if a > b || a > len then []
    else
      var at := left + a;
      // the conversion to u64 wraps a negative position around
      var from: u64 := at % 0x1_0000_0000_0000_0000;
      ValuesFrom(kv, ElemKey(k, v, from), CountOf(a, b, len))
  }

  function Blobs(s: seq<bytes>): (r: seq<Value>)
    ensures |r| == |s| && forall i :: 0 <= i < |s| ==> r[i] == Blob(s[i])
  {
    seq(|s|, i requires 0 <= i < |s| => Blob(s[i]))
  }

  /** When the code returns what Redis documents, for indexes with negative ones already counted from the end. */
  predicate InRange(a: int, b: int, len: nat) {
    a > b || a > len || a == 0 || (0 < a && b < len) || (a < 0 && b >= len - 1)
  }

  lemma InRangeIs(a: int, b: int, len: nat)
    ensures InRange(a, b, len) <==> a > b || a > len || a == 0 || (0 < a && b < len) || (a < 0 && b >= len - 1)
  {
  }

  lemma RangeHits(kv: Map, k: bytes, v: u16, left: nat, right: nat, s: seq<bytes>, start: i64, end: i64)
    requires Window(BlockOf(kv, k), v, left, right, s) && s != [] && Meta in BlockOf(kv, k)
    requires left + Normal(start, |s|) >= 0
    ensures var a, b := Normal(start, |s|), Normal(end, |s|);
            var reply, wanted := Returned(kv, k, v, left, |s|, a, b), Blobs(RedisRange(s, start, end));
            && (reply == wanted <==> InRange(a, b, |s|))
            && (!InRange(a, b, |s|) ==> |reply| > |wanted|)
  {
    hide BlockOf, Window, ValuesFrom, Blobs, RedisRange, InRange, Returned, CountOf;
    WindowBounds(BlockOf(kv, k), v, left, right, s);
    var a, b := Normal(start, |s|), Normal(end, |s|);
    WantedRange(s, start, end);
    NotWrapped(kv, k, v, left, |s|, a, b);
    if !(a > b || a > |s|) {
      ReturnedElems(kv, k, v, left, right, s, left + a, CountOf(a, b, |s|));
    }
  }

  /** Outside those cases the reply is too long: it holds elements or other keys' values that were not asked for. */
  lemma RangeMeetsRedisIff(kv: Map, k: bytes, v: u16, left: nat, right: nat, s: seq<bytes>, start: i64, end: i64)
    requires Window(BlockOf(kv, k), v, left, right, s) && s != [] && Meta in BlockOf(kv, k)
    requires left + Normal(start, |s|) >= 0
    ensures var a, b := Normal(start, |s|), Normal(end, |s|);
            var reply, wanted := Returned(kv, k, v, left, |s|, a, b), Blobs(RedisRange(s, start, end));
            && (reply == wanted <==> a > b || a > |s| || a == 0 || (0 < a && b < |s|) || (a < 0 && b >= |s| - 1))
            && (reply == wanted || |reply| > |wanted|)
  {
    hide BlockOf, Window, Blobs, RedisRange, InRange, Returned, Normal;
    RangeHits(kv, k, v, left, right, s, start, end);
    InRangeIs(Normal(start, |s|), Normal(end, |s|), |s|);
  }

  function CountOf(a: int, b: int, len: nat): int {
    if b - a + 1 > len then len else b - a + 1
  }

  lemma NotWrapped(kv: Map, k: bytes, v: u16, left: u64, len: nat, a: int, b: int)
    requires len < INDEX_LIMIT && left + len < INDEX_LIMIT && left + a >= 0
    ensures Returned(kv, k, v, left, len, a, b)
            == if a > b || a > len then [] else ValuesFrom(kv, ElemKey(k, v, left + a), CountOf(a, b, len))
  {
    hide ValuesFrom;
  }

  /** The range asked for against the start and the count of the scan. */
  lemma WantedRange(s: seq<bytes>, start: i64, end: i64)
    requires s != []
    ensures var a, b := Normal(start, |s|), Normal(end, |s|);
            var wanted, lo, count := RedisRange(s, start, end), if a < 0 then 0 else a, CountOf(a, b, |s|);
            if a > b || a > |s| then wanted == [] && InRange(a, b, |s|)
            else
              && count >= 0
              && (InRange(a, b, |s|) ==> count <= |s| - lo && wanted == s[lo..lo + count])
              && (!InRange(a, b, |s|) ==> |wanted| < count && |wanted| <= |s| - lo)
  {
  }

  /** A value stored under a key that is no element of the list. */
  ghost predicate Foreign(kv: Map, k: bytes, v: u16, x: Value) {
    exists key: Key :: key in kv && !IsElem(key, k, v) && kv[key] == x
  }

  /** A start so far before the list that its index wraps around: nothing of the list is returned, but something is. */
  lemma WrappedStart(kv: Map, k: bytes, v: u16, left: nat, right: nat, s: seq<bytes>, start: i64, end: i64)
    requires Window(BlockOf(kv, k), v, left, right, s) && s != [] && Meta in BlockOf(kv, k)
    requires left + Normal(start, |s|) < 0
    ensures var a, b := Normal(start, |s|), Normal(end, |s|);
            var reply, wanted := Returned(kv, k, v, left, |s|, a, b), Blobs(RedisRange(s, start, end));
            && (a > b ==> reply == wanted == [])
            && (a <= b ==> reply != [] && forall i :: 0 <= i < |reply| ==> Foreign(kv, k, v, reply[i]))
            && (a <= b < 0 ==> wanted == [])
  {
    hide KeyLess, Ascends, AtOrAfter, Ascending, BlockOf;
    var a, b := Normal(start, |s|), Normal(end, |s|);
    if a <= b {
      var from: u64 := left + a + 0x1_0000_0000_0000_0000;
      var first := ElemKey(k, v, from);
      var keys := Ascending(From(kv, first));
      AllStored(kv, From(kv, first));
      MetaAfterElems(k, v, from);
      AfterOrEqual(first, Key(k, Meta));
      InBlockOf(kv, k, Meta);
      assert Key(k, Meta) in keys;
      var reply := ValuesFrom(kv, first, CountOf(a, b, |s|));
      assert Returned(kv, k, v, left, |s|, a, b) == reply;
      forall i | 0 <= i < |reply| ensures Foreign(kv, k, v, reply[i]) {
        assert keys[i] in keys && reply[i] == kv[keys[i]];
        NotInWindow(kv, k, v, left, right, s, from, keys[i]);
      }
    }
  }

  lemma NotInWindow(kv: Map, k: bytes, v: u16, left: nat, right: nat, s: seq<bytes>, from: u64, key: Key)
    requires Window(BlockOf(kv, k), v, left, right, s) && right <= from && key in From(kv, ElemKey(k, v, from))
    ensures !IsElem(key, k, v)
  {
    hide KeyLess, AtOrAfter, BlockOf;
    if IsElem(key, k, v) {
      var i := key.part.slot.idx;
      assert key == ElemKey(k, v, i);
      InBlockOf(kv, k, ElemPart(v, i));
      AfterOrEqual(ElemKey(k, v, from), key);
      ElemOrder(k, v, i, from);
      KeyLessTotal(key, ElemKey(k, v, from));
    }
  }

  /** Elements of a deleted list of the same key that are not collected yet. */
  ghost predicate Leftovers(b: Block, v: u16) {
    exists w: u16, i: u64 :: w != v && ElemPart(w, i) in b
  }

  /** Between an element and the meta key of a list there are only elements of the same user key. */
  lemma UpToMeta(k: bytes, v: u16, i: u64, key: Key)
    requires AtOrAfter(key, ElemKey(k, v, i)) && KeyLess(key, Key(k, Meta))
    ensures key.ukey == k && key.part.Data? && key.part.slot.Elem?
  {
    hide Enc, Rest, Less;
    var elem, meta := ElemKey(k, v, i), Key(k, Meta);
    LessTrichotomy(Tail(key), Tail(elem));
    LessTrichotomy(Tail(key), Tail(meta));
    FirstByte(Tail(key), Tail(elem));
    FirstByte(Tail(meta), Tail(key));
    assert key.part.User();
    if key.ukey != k {
      AfterOrEqual(elem, key);
      BlockOrder(elem, key);
      BlockOrder(key, meta);
      LessTrichotomy(k, key.ukey);
    }
    var p := [DATA_TYPE_USER] + Enc(k);
    LessAppend(p, Rest(elem.part), Rest(key.part));
    LessAppend(p, Rest(key.part), Rest(elem.part));
    LessAppend(p, Rest(key.part), Rest(Meta));
    RestUpToMeta(key.part, v, i);
  }

  lemma RestUpToMeta(p: Part, v: u16, i: u64)
    requires p.User() && !Less(Rest(p), Rest(ElemPart(v, i))) && Less(Rest(p), Rest(Meta))
    ensures p.Data? && p.slot.Elem?
  {
    hide Less, Be16, Be64;
    var x, y := Rest(p), Rest(ElemPart(v, i));
    FirstByte(x, y);
    FirstByte(Rest(Meta), x);
    LessTrichotomy(x, Rest(Meta));
    if x[0] == DATA_TYPE_META {
      var more := x[1..];
      assert x == Rest(Meta) + more && Rest(Meta) == Rest(Meta) + [];
      LessNothing(more);
      LessAppend(Rest(Meta), more, []);
    }
  }

  lemma LessNothing(x: bytes)
    ensures !Less(x, [])
  {
  }

  /** A wrapped start agrees with Redis by accident at most: if elements of a deleted list lie behind this one. */
  lemma WrappedAgreesOnlyIf(kv: Map, k: bytes, v: u16, left: nat, right: nat, s: seq<bytes>, start: i64, end: i64)
    requires Window(BlockOf(kv, k), v, left, right, s) && s != [] && HasList(BlockOf(kv, k))
    requires left + Normal(start, |s|) < 0 && Normal(start, |s|) <= Normal(end, |s|)
    requires Returned(kv, k, v, left, |s|, Normal(start, |s|), Normal(end, |s|)) == Blobs(RedisRange(s, start, end))
    ensures Leftovers(BlockOf(kv, k), v)
  {
    hide KeyLess, Ascends, AtOrAfter, Ascending, BlockOf, RedisRange;
    var a, b := Normal(start, |s|), Normal(end, |s|);
    var from: u64 := left + a + 0x1_0000_0000_0000_0000;
    var first, meta := ElemKey(k, v, from), Key(k, Meta);
    var keys := Ascending(From(kv, first));
    WrappedStart(kv, k, v, left, right, s, start, end);
    AllStored(kv, From(kv, first));
    var reply := ValuesFrom(kv, first, CountOf(a, b, |s|));
    assert Returned(kv, k, v, left, |s|, a, b) == reply;
    assert keys[0] in keys && reply[0] == kv[keys[0]] && reply[0].Blob?;
    FirstIsElem(kv, k, v, from);
    NotInWindow(kv, k, v, left, right, s, from, keys[0]);
    InBlockOf(kv, k, keys[0].part);
    assert keys[0] == Key(k, keys[0].part);
    assert ElemPart(keys[0].part.version, keys[0].part.slot.idx) in BlockOf(kv, k);
  }

  lemma WrappedAgrees(kv: Map, k: bytes, v: u16, left: nat, right: nat, s: seq<bytes>, start: i64, end: i64)
    requires Window(BlockOf(kv, k), v, left, right, s) && s != [] && HasList(BlockOf(kv, k))
    requires left + Normal(start, |s|) < 0
    ensures var a, b := Normal(start, |s|), Normal(end, |s|);
            a <= b && Returned(kv, k, v, left, |s|, a, b) == Blobs(RedisRange(s, start, end)) ==>
              Leftovers(BlockOf(kv, k), v)
  {
    hide BlockOf, Window, Returned, Blobs, RedisRange, Leftovers;
    var a, b := Normal(start, |s|), Normal(end, |s|);
    if a <= b && Returned(kv, k, v, left, |s|, a, b) == Blobs(RedisRange(s, start, end)) {
      WrappedAgreesOnlyIf(kv, k, v, left, right, s, start, end);
    }
  }

  /** The first key behind an index is the meta key of the list, or an element before that. */
  lemma FirstIsElem(kv: Map, k: bytes, v: u16, from: u64)
    requires HasList(BlockOf(kv, k))
    ensures var keys := Ascending(From(kv, ElemKey(k, v, from)));
            && keys != [] && keys[0] in kv
            && (kv[keys[0]].Blob? ==> keys[0].ukey == k && keys[0].part.Data? && keys[0].part.slot.Elem?)
  {
    hide KeyLess, AtOrAfter, Ascending, BlockOf;
    var first, meta := ElemKey(k, v, from), Key(k, Meta);
    var keys := Ascending(From(kv, first));
    MetaAfterElems(k, v, from);
    AfterOrEqual(first, meta);
    InBlockOf(kv, k, Meta);
    assert meta in keys;
    assert keys[0] in keys;
    var j :| 0 <= j < |keys| && keys[j] == meta;
    if j > 0 {
      assert KeyLess(keys[0], meta);
      UpToMeta(k, v, from, keys[0]);
    }
  }

  /** LRANGE 1 5 of a list of three returns three values, not two: the third belongs to another key. */
  lemma RangeExample(kv: Map, k: bytes, v: u16, left: nat, right: nat, s: seq<bytes>)
    requires Window(BlockOf(kv, k), v, left, right, s) && |s| == 3 && Meta in BlockOf(kv, k)
    ensures |Returned(kv, k, v, left, 3, 1, 5)| > 2 && RedisRange(s, 1, 5) == s[1..]
  {
    hide Returned, Window, BlockOf, Blobs;
    RangeMeetsRedisIff(kv, k, v, left, right, s, 1, 5);
  }

  /** A counted scan returns elements as far as the window goes, and more behind it. */
  lemma ReturnedElems(kv: Map, k: bytes, v: u16, left: nat, right: nat, s: seq<bytes>, from: nat, count: nat)
    requires Window(BlockOf(kv, k), v, left, right, s) && Meta in BlockOf(kv, k) && from <= right
    ensures var lo := if from < left then left else from;
            var r := ValuesFrom(kv, ElemKey(k, v, from), count);
            && (count <= right - lo ==> r == Blobs(s[lo - left..lo - left + count]))
            && (count > right - lo ==> |r| > right - lo)
  {
    hide KeyLess, Ascends, AtOrAfter, Ascending, BlockOf, ElemKeys, Window;
    WindowBounds(BlockOf(kv, k), v, left, right, s);
    var lo := if from < left then left else from;
    ScanFromElem(kv, k, v, left, right, s, from);
    ElemValues(kv, k, v, left, right, s, lo);
    AllStored(kv, From(kv, ElemKey(k, v, from)));
    var keys := Ascending(From(kv, ElemKey(k, v, from)));
    forall i | 0 <= i < right - lo ensures kv[keys[i]] == Blob(s[lo - left + i]) {
      assert keys[i] == keys[..right - lo][i];
    }
  }

  lemma ElemValues(kv: Map, k: bytes, v: u16, left: nat, right: nat, s: seq<bytes>, lo: nat)
    requires Window(BlockOf(kv, k), v, left, right, s) && left <= lo <= right
    ensures var elems := ElemKeys(k, v, lo, right);
            forall i :: 0 <= i < right - lo ==> elems[i] in kv && kv[elems[i]] == Blob(s[lo - left + i])
  {
    hide BlockOf;
    var elems := ElemKeys(k, v, lo, right);
    forall i | 0 <= i < right - lo ensures elems[i] in kv && kv[elems[i]] == Blob(s[lo - left + i]) {
      InBlockOf(kv, k, ElemPart(v, lo + i));
    }
  }

  /** The part of LRANGE after the window is known. */
  method ScanRange(txn: Txn, k: bytes, v: u16, left: u64, right: u64, start: i64, end: i64, ghost s: seq<bytes>)
    returns (values: seq<Value>)
    requires Window(BlockOf(txn.kv, k), v, left, right, s) && s != [] && HasList(BlockOf(txn.kv, k))
    ensures var a, b := if start < 0 then |s| + start else start, if end < 0 then |s| + end else end;
            var wanted := RedisRange(s, start, end);
            && (left + a >= 0 ==>
                  && (values == Blobs(wanted) <==>
                        a > b || a > |s| || a == 0 || (0 < a && b < |s|) || (a < 0 && b >= |s| - 1))
                  && (values == Blobs(wanted) || |values| > |wanted|))
            && (left + a < 0 ==>
                  if a > b then values == [] && wanted == []
                  else
                    && values != [] && (b < 0 ==> wanted == [])
                    && (values == Blobs(wanted) ==> Leftovers(BlockOf(txn.kv, k), v))
                    && forall i :: 0 <= i < |values| ==> Foreign(txn.kv, k, v, values[i]))
  {
    hide BlockOf, Foreign, Leftovers, Window, ValuesFrom, Blobs, RedisRange;
    WindowBounds(BlockOf(txn.kv, k), v, left, right, s);
    if left + Normal(start, |s|) >= 0 {
      RangeMeetsRedisIff(txn.kv, k, v, left, right, s, start, end);
    } else {
      WrappedStart(txn.kv, k, v, left, right, s, start, end);
      WrappedAgrees(txn.kv, k, v, left, right, s, start, end);
    }
    var len := right - left;
    var a, b := Normal(start, len), Normal(end, len);
    if a > b || a > len {
      return [];
    }
    var from: u64 := (left + a) % 0x1_0000_0000_0000_0000;
    values := txn.ScanValuesFrom(ElemKey(k, v, from), CountOf(a, b, len));
  }

  method Lrange(txn: Txn, k: bytes, start: i64, end: i64, now: u64, threshold: nat) returns (reply: Reply<seq<Value>>)
    requires ListInv(BlockOf(txn.kv, k))
    modifies txn
    ensures OnlyBlock(old(txn.kv), txn.kv, k)
    ensures ListInv(BlockOf(txn.kv, k)) && Served(Kind.List, old(BlockOf(txn.kv, k)), BlockOf(txn.kv, k))
    ensures KeepsTtl(old(BlockOf(txn.kv, k)), BlockOf(txn.kv, k))
    ensures BlockOf(txn.kv, k) == Lapsed(old(BlockOf(txn.kv, k)), now, threshold)
    ensures var s := old(Visible(BlockOf(txn.kv, k), now));
            var a, b := if start < 0 then |s| + start else start, if end < 0 then |s| + end else end;
            && (WrongKind(old(BlockOf(txn.kv, k))) ==> reply == Err(WrongType) && txn.kv == old(txn.kv))
            && (!WrongKind(old(BlockOf(txn.kv, k))) ==> Elements(BlockOf(txn.kv, k)) == s && reply.Ok?)
            && (!WrongKind(old(BlockOf(txn.kv, k))) && s == [] ==> reply == Ok([]))
            && (s != [] && old(BlockOf(txn.kv, k))[Meta].left + a >= 0 ==>
                  && (reply == Ok(Blobs(RedisRange(s, start, end))) <==>
                        a > b || a > |s| || a == 0 || (0 < a && b < |s|) || (a < 0 && b >= |s| - 1))
                  && (reply == Ok(Blobs(RedisRange(s, start, end))) || |reply.value| > |RedisRange(s, start, end)|))
            && (s != [] && old(BlockOf(txn.kv, k))[Meta].left + a < 0 ==>
                  if a > b then reply == Ok([]) && RedisRange(s, start, end) == []
                  else
                    && reply.value != [] && (b < 0 ==> RedisRange(s, start, end) == [])
                    && (reply == Ok(Blobs(RedisRange(s, start, end))) ==>
                          Leftovers(old(BlockOf(txn.kv, k)), old(BlockOf(txn.kv, k))[Meta].version))
                    && forall i :: 0 <= i < |reply.value| ==>
                         Foreign(txn.kv, k, old(BlockOf(txn.kv, k))[Meta].version, reply.value[i]))
  {
    hide BlockOf, Lapsed, Foreign, Leftovers, VersionInv, Reaches, Window, Blobs, RedisRange, OnlyBlock;
    var meta := Open(txn, k, now, threshold);
    if meta.Wrong? {
      return Err(WrongType);
    } else if meta.Missing? {
      return Ok([]);
    }
    var Found(ttl, version, left, right) := meta;
    var values := ScanRange(txn, k, version, left, right, start, end, Elements(BlockOf(txn.kv, k)));
    return Ok(values);
  }
}
