/**
  The size of a hash, set or sorted set is not stored in one place: it is the sum of up to
  65536 counters (sub meta keys), each update picking one of them at random. Single
  counters may be negative; only the sum means something.
 */
module Counters {
  import opened Bytes
  import opened Codec
  import opened Keys
  import opened Values
  import opened Store

  const SHARDS: nat := 0x1_0000

  function CountAt(b: Block, v: u16, i: u16): int {
    var p := Data(v, Counter(i));
    if p in b && b[p].Count? then b[p].n else 0
  }

  /** The counters below `n`, added up. */
  function Sum(b: Block, v: u16, n: nat): int
    requires n <= SHARDS
    decreases v, n
  {
    if n == 0 then 0 else Sum(b, v, n - 1) + CountAt(b, v, n - 1)
  }

  function Total(b: Block, v: u16): int {
    Sum(b, v, SHARDS)
  }

  ghost predicate CountersTyped(b: Block, v: u16) {
    forall i: u16 :: Data(v, Counter(i)) in b ==> b[Data(v, Counter(i))].Count?
  }

  lemma {:induction false} SumSame(b: Block, c: Block, v: u16, lo: nat, hi: nat)
    requires lo <= hi <= SHARDS && forall i: u16 :: lo <= i < hi ==> CountAt(b, v, i) == CountAt(c, v, i)
    ensures Sum(b, v, hi) - Sum(b, v, lo) == Sum(c, v, hi) - Sum(c, v, lo)
    decreases hi
  {
    hide CountAt;
    if lo < hi {
      SumSame(b, c, v, lo, hi - 1);
    }
  }

  lemma {:induction false} SumGap(b: Block, v: u16, lo: nat, hi: nat)
    requires lo <= hi <= SHARDS && forall i: u16 :: lo <= i < hi ==> CountAt(b, v, i) == 0
    ensures Sum(b, v, hi) == Sum(b, v, lo)
    decreases hi
  {
    hide CountAt;
    if lo < hi {
      SumGap(b, v, lo, hi - 1);
    }
  }

  /** Changing one counter changes the size by as much. */
  lemma TotalChange(b: Block, c: Block, v: u16, j: u16)
    requires forall i: u16 :: i != j ==> CountAt(b, v, i) == CountAt(c, v, i)
    ensures Total(c, v) == Total(b, v) - CountAt(b, v, j) + CountAt(c, v, j)
  {
    hide CountAt;
    SumSame(b, c, v, 0, j);
    SumSame(b, c, v, j + 1, SHARDS);
  }

  lemma TotalSame(b: Block, c: Block, v: u16)
    requires forall i: u16 :: CountAt(b, v, i) == CountAt(c, v, i)
    ensures Total(c, v) == Total(b, v)
  {
    hide CountAt;
    SumSame(b, c, v, 0, SHARDS);
  }

  lemma NoCounters(b: Block, v: u16)
    requires forall i: u16 :: Data(v, Counter(i)) !in b
    ensures Total(b, v) == 0
  {
    SumGap(b, v, 0, SHARDS);
  }

  // ----- reading the size -----

  /** The sub meta keys of a version, in order of their index. */
  lemma ScanCounters(kv: Map, k: bytes, v: u16)
    ensures var keys := Scan(kv, SubMetaRange(k, v));
            && (forall i :: 0 <= i < |keys| ==>
                  && keys[i] in kv && keys[i].ukey == k
                  && keys[i].part.Data? && keys[i].part.version == v && keys[i].part.slot.Counter?)
            && (forall i, j :: 0 <= i < j < |keys| ==> keys[i].part.slot.shard < keys[j].part.slot.shard)
            && (forall i: u16 :: Data(v, Counter(i)) in BlockOf(kv, k) ==> Key(k, Data(v, Counter(i))) in keys)
  {
    hide KeyLess, FamilyRange, BlockOf, Ascending;
    var keys := Scan(kv, SubMetaRange(k, v));
    forall key
      ensures key in keys <==>
                key in kv && key.ukey == k && key.part.Data? && key.part.version == v && key.part.slot.Counter?
    {
      FamilyRangeExact(DATA_TYPE_META, k, v, key);
    }
    forall i, j | 0 <= i < j < |keys| ensures keys[i].part.slot.shard < keys[j].part.slot.shard {
      assert keys[i] in keys && keys[j] in keys;
      CounterOrder(k, v, keys[i].part.slot.shard, keys[j].part.slot.shard);
    }
    forall i: u16 | Data(v, Counter(i)) in BlockOf(kv, k) ensures Key(k, Data(v, Counter(i))) in kv {
      InBlockOf(kv, k, Data(v, Counter(i)));
    }
  }

  lemma CounterOrder(k: bytes, v: u16, i: u16, j: u16)
    ensures KeyLess(Key(k, Data(v, Counter(i))), Key(k, Data(v, Counter(j)))) <==> i < j
  {
    SuffixOrder(k, v, Counter(i), Counter(j));
    Be16Order(i, j);
  }

  /** Where the next counter of a scan stands. */
  function NextShard(keys: seq<Key>, i: nat): (s: nat)
    requires i <= |keys| && forall j :: 0 <= j < |keys| ==> keys[j].part.Data? && keys[j].part.slot.Counter?
    ensures s <= SHARDS
  {
    if i < |keys| then keys[i].part.slot.shard else SHARDS
  }

  /** Adding the next counter of an ordered, complete scan advances the sum to the counter after it. */
  lemma SumNext(b: Block, v: u16, keys: seq<Key>, i: nat)
    requires forall j :: 0 <= j < |keys| ==> keys[j].part.Data? && keys[j].part.slot.Counter?
    requires forall j, l :: 0 <= j < l < |keys| ==> keys[j].part.slot.shard < keys[l].part.slot.shard
    requires forall s: u16 :: Data(v, Counter(s)) in b ==> exists j :: 0 <= j < |keys| && keys[j].part.slot.shard == s
    requires i <= |keys|
    ensures i == 0 ==> Sum(b, v, NextShard(keys, 0)) == 0
    ensures i < |keys| ==>
              Sum(b, v, NextShard(keys, i + 1))
              == Sum(b, v, NextShard(keys, i)) + CountAt(b, v, keys[i].part.slot.shard)
  {
    if i == 0 {
      forall s: u16 | s < NextShard(keys, 0) ensures CountAt(b, v, s) == 0 {
        assert Data(v, Counter(s)) !in b;
      }
      SumGap(b, v, 0, NextShard(keys, 0));
    }
    if i < |keys| {
      var lo, hi := NextShard(keys, i) + 1, NextShard(keys, i + 1);
      forall s: u16 | lo <= s < hi ensures CountAt(b, v, s) == 0 {
        forall j | 0 <= j < |keys| ensures keys[j].part.slot.shard != s {
          assert j < i ==> keys[j].part.slot.shard < keys[i].part.slot.shard;
          assert j > i + 1 ==> keys[i + 1].part.slot.shard < keys[j].part.slot.shard;
        }
        assert Data(v, Counter(s)) !in b;
      }
      SumGap(b, v, lo, hi);
    }
  }

  /** The size of the collection; the code asserts that it is positive. */
  method SumKeySize(txn: Txn, k: bytes, v: u16) returns (sum: int)
    requires CountersTyped(BlockOf(txn.kv, k), v) && Total(BlockOf(txn.kv, k), v) > 0
    ensures sum == Total(BlockOf(txn.kv, k), v)
  {
    hide KeyLess, FamilyRange, BlockOf, Scan, Sum, NextShard;
    ghost var b := BlockOf(txn.kv, k);
    ScanCounters(txn.kv, k, v);
    var pairs := txn.ScanPairs(SubMetaRange(k, v));
    ghost var keys := Scan(txn.kv, SubMetaRange(k, v));
    AllCounters(b, k, v, keys);
    SumNext(b, v, keys, 0);
    sum := 0;
    for i := 0 to |pairs|
      invariant sum == Sum(b, v, NextShard(keys, i))
    {
      InBlockOf(txn.kv, k, keys[i].part);
      SumNext(b, v, keys, i);
      assert keys[i].part == Data(v, Counter(keys[i].part.slot.shard));
      sum := sum + pairs[i].1.n;
    }
    AtEnd(keys);
  }

  lemma AllCounters(b: Block, k: bytes, v: u16, keys: seq<Key>)
    requires forall j :: 0 <= j < |keys| ==> keys[j].part.Data? && keys[j].part.slot.Counter?
    requires forall i: u16 :: Data(v, Counter(i)) in b ==> Key(k, Data(v, Counter(i))) in keys
    ensures forall s: u16 :: Data(v, Counter(s)) in b ==> exists j :: 0 <= j < |keys| && keys[j].part.slot.shard == s
  {
    forall s: u16 | Data(v, Counter(s)) in b ensures exists j :: 0 <= j < |keys| && keys[j].part.slot.shard == s {
      var j :| 0 <= j < |keys| && keys[j] == Key(k, Data(v, Counter(s)));
      assert keys[j].part.slot.shard == s;
    }
  }

  lemma AtEnd(keys: seq<Key>)
    requires forall j :: 0 <= j < |keys| ==> keys[j].part.Data? && keys[j].part.slot.Counter?
    ensures NextShard(keys, |keys|) == SHARDS
  {
  }

  // ----- changing the size -----

  /** Add to one counter, creating it if it does not exist. */
  method Bump(txn: Txn, k: bytes, v: u16, idx: u16, delta: int)
    requires CountersTyped(BlockOf(txn.kv, k), v)
    modifies txn
    ensures OnlyBlock(old(txn.kv), txn.kv, k)
    ensures BlockOf(txn.kv, k)
            == old(BlockOf(txn.kv, k))[Data(v, Counter(idx)) := Count(old(CountAt(BlockOf(txn.kv, k), v, idx)) + delta)]
    ensures Total(BlockOf(txn.kv, k), v) == old(Total(BlockOf(txn.kv, k), v)) + delta
  {
    hide BlockOf, Total;
    ghost var b := BlockOf(txn.kv, k);
    var key := Key(k, Data(v, Counter(idx)));
    var value := txn.Get(key);
    txn.Put(key, Count(if value.None? then delta else value.value.n + delta));
    TotalChange(b, BlockOf(txn.kv, k), v, idx);
  }
}
