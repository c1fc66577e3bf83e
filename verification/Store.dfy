/**
  The store as a transaction sees it: a map from keys to values with ordered scans.
  Keys are named structurally and compared by their encoded bytes, which `Keys` proves
  injective; values are named structurally and `Values` proves their encodings invertible.
 */
module Store {
  import opened Bytes
  import opened Codec
  import opened Keys
  import opened Values

  type Map = map<Key, Value>

  /** The keys of one user key: what every command on that key works on. */
  type Block = map<Part, Value>

  function BlockOf(kv: Map, k: bytes): Block {
    map key | key in kv && key.ukey == k :: key.part := kv[key]
  }

  /** Nothing outside the block of `k` differs. */
  ghost predicate OnlyBlock(before: Map, after: Map, k: bytes) {
    forall key: Key :: key.ukey != k ==>
      (key in before <==> key in after) && (key in before ==> before[key] == after[key])
  }

  lemma OnlyBlockRefl(a: Map, k: bytes)
    ensures OnlyBlock(a, a, k)
  {
  }

  lemma OnlyBlockTrans(a: Map, b: Map, c: Map, k: bytes)
    requires OnlyBlock(a, b, k) && OnlyBlock(b, c, k)
    ensures OnlyBlock(a, c, k)
  {
  }

  lemma InBlockOf(kv: Map, k: bytes, p: Part)
    ensures p in BlockOf(kv, k) <==> Key(k, p) in kv
    ensures p in BlockOf(kv, k) ==> BlockOf(kv, k)[p] == kv[Key(k, p)]
  {
  }

  lemma OtherBlocks(before: Map, after: Map, k: bytes, other: bytes)
    requires OnlyBlock(before, after, k) && other != k
    ensures BlockOf(before, other) == BlockOf(after, other)
  {
    var a, b := BlockOf(before, other), BlockOf(after, other);
    forall p | p in a ensures p in b && b[p] == a[p] {
      assert Key(other, p) in before;
      assert Key(other, p) in after;
    }
    forall p | p in b ensures p in a {
      assert Key(other, p) in after;
      assert Key(other, p) in before;
    }
  }

  // ----- ordered scans -----

  predicate Ascends(s: seq<Key>) {
    forall i, j :: 0 <= i < j < |s| ==> KeyLess(s[i], s[j])
  }

  predicate IsLeast(k: Key, s: set<Key>) {
    k in s && forall j :: j in s ==> j == k || KeyLess(k, j)
  }

  lemma {:induction false} LeastExists(s: set<Key>)
    requires s != {}
    ensures exists k :: IsLeast(k, s)
    decreases |s|
  {
    hide KeyLess;
    var x :| x in s;
    var t := s - {x};
    if t == {} {
      assert s == {x};
      assert IsLeast(x, s);
    } else {
      LeastExists(t);
      var m :| IsLeast(m, t);
      KeyLessTotal(x, m);
      if KeyLess(x, m) {
        forall j | j in s ensures j == x || KeyLess(x, j) {
          if j != x && j != m {
            KeyLessTransitive(x, m, j);
          }
        }
        assert IsLeast(x, s);
      } else {
        assert IsLeast(m, s);
      }
    }
  }

  lemma LeastUnique(s: set<Key>)
    ensures forall a, b :: IsLeast(a, s) && IsLeast(b, s) ==> a == b
  {
    hide KeyLess;
    forall a, b | IsLeast(a, s) && IsLeast(b, s) ensures a == b {
      KeyLessTotal(a, b);
    }
  }

  function Least(s: set<Key>): (k: Key)
    requires s != {}
    ensures IsLeast(k, s)
  {
    LeastExists(s);
    LeastUnique(s);
    var k :| IsLeast(k, s);
    k
  }

  /** The keys of a set in byte order. */
  function Ascending(s: set<Key>): (r: seq<Key>)
    ensures Ascends(r)
    ensures |r| == |s|
    ensures forall k :: k in r <==> k in s
    decreases |s|
  {
    hide KeyLess;
    if s == {} then []
    else
      var k := Least(s);
      var rest := Ascending(s - {k});
      ConsAscends(k, rest);
      [k] + rest
  }

  lemma ConsAscends(k: Key, rest: seq<Key>)
    requires Ascends(rest) && forall x :: x in rest ==> KeyLess(k, x)
    ensures Ascends([k] + rest)
  {
    hide KeyLess;
    var r := [k] + rest;
    forall i, j | 0 <= i < j < |r| ensures KeyLess(r[i], r[j]) {
      assert r[j] == rest[j - 1];
      assert i > 0 ==> r[i] == rest[i - 1];
    }
  }

  /** There is only one way to put a set of keys in order. */
  lemma {:induction false} AscendingUnique(s: set<Key>, r: seq<Key>)
    requires Ascends(r) && forall k :: k in r <==> k in s
    ensures r == Ascending(s)
    decreases |s|
  {
    hide KeyLess, Ascending;
    AscendingStep(s);
    if r == [] {
      assert s == {};
    } else {
      assert r[0] in s;
      var k := Least(s);
      assert k in r;
      var i :| 0 <= i < |r| && r[i] == k;
      KeyLessTotal(k, r[0]);
      assert i == 0;
      TailAscends(r);
      AscendingUnique(s - {k}, r[1..]);
      assert r == [k] + r[1..];
    }
  }

  lemma AscendingStep(s: set<Key>)
    ensures Ascending(s) == if s == {} then [] else [Least(s)] + Ascending(s - {Least(s)})
  {
  }

  lemma TailAscends(r: seq<Key>)
    requires Ascends(r) && r != []
    ensures Ascends(r[1..])
    ensures forall k :: k in r[1..] <==> k in r && k != r[0]
  {
    hide KeyLess;
    var t := r[1..];
    forall x | x in t ensures x in r && x != r[0] {
      var j :| 0 <= j < |t| && t[j] == x;
      assert KeyLess(r[0], r[j + 1]);
      KeyLessTotal(r[0], x);
    }
    forall x | x in r && x != r[0] ensures x in t {
      var j :| 0 <= j < |r| && r[j] == x;
      assert t[j - 1] == x;
    }
  }

  /** Two sets of keys, one wholly before the other, sort one after the other. */
  lemma AscendingConcat(a: seq<Key>, rest: set<Key>)
    requires Ascends(a) && forall x, y :: x in a && y in rest ==> KeyLess(x, y)
    ensures Ascending((set x | x in a) + rest) == a + Ascending(rest)
  {
    hide KeyLess, Ascending;
    var r := a + Ascending(rest);
    forall i, j | 0 <= i < j < |r| ensures KeyLess(r[i], r[j]) {
      if i < |a| <= j {
        assert r[i] in a && r[j] in Ascending(rest);
      }
    }
    AscendingUnique((set x | x in a) + rest, r);
  }

  function Selected(kv: Map, range: Range): set<Key> {
    set key | key in kv && range.Has(key)
  }

  function Scan(kv: Map, range: Range): seq<Key> {
    Ascending(Selected(kv, range))
  }

  function Between(kv: Map, first: Key, last: Key): set<Key> {
    set key | key in kv && AtOrAfter(key, first) && AtOrAfter(last, key)
  }

  /** A scan of an inclusive range of keys. */
  function ScanBetween(kv: Map, first: Key, last: Key): seq<Key> {
    Ascending(Between(kv, first, last))
  }

  function From(kv: Map, first: Key): set<Key> {
    set key | key in kv && AtOrAfter(key, first)
  }

  /** The values of an open-ended scan with a limit. */
  function ValuesFrom(kv: Map, first: Key, limit: nat): seq<Value> {
    AllStored(kv, From(kv, first));
    var pairs := Take(Pairs(kv, Ascending(From(kv, first))), limit);
    seq(|pairs|, i requires 0 <= i < |pairs| => pairs[i].1)
  }

  /** Keys with the values they hold. */
  function Pairs(kv: Map, keys: seq<Key>): (r: seq<(Key, Value)>)
    requires forall i :: 0 <= i < |keys| ==> keys[i] in kv
    ensures |r| == |keys|
    ensures forall i :: 0 <= i < |r| ==> r[i] == (keys[i], kv[keys[i]])
  {
    seq(|keys|, i requires 0 <= i < |keys| => (keys[i], kv[keys[i]]))
  }

  lemma AllStored(kv: Map, s: set<Key>)
    requires forall key :: key in s ==> key in kv
    ensures forall i :: 0 <= i < |Ascending(s)| ==> Ascending(s)[i] in kv
  {
    hide Ascending, Ascends;
    forall i | 0 <= i < |Ascending(s)| ensures Ascending(s)[i] in kv {
      assert Ascending(s)[i] in Ascending(s);
    }
  }

  function Take<T>(s: seq<T>, n: nat): seq<T> {
    if n < |s| then s[..n] else s
  }

  function Reverse<T>(s: seq<T>): (r: seq<T>)
    ensures |r| == |s|
    ensures forall i :: 0 <= i < |s| ==> r[i] == s[|s| - 1 - i]
  {
    if s == [] then [] else [s[|s| - 1]] + Reverse(s[..|s| - 1])
  }

  function StoredOf(kv: Map, keys: seq<Key>): set<Key> {
    set key | key in keys && key in kv
  }

  /** A TiKV transaction: buffered writes are visible to its own reads; a scan is a snapshot. */
  class Txn {
    var kv: Map

    constructor Begin(snapshot: Map)
      ensures kv == snapshot
    {
      kv := snapshot;
    }

    method Get(key: Key) returns (v: Option<Value>)
      ensures v == if key in kv then Some(kv[key]) else None
      ensures v.Some? <==> key.part in BlockOf(kv, key.ukey)
      ensures v.Some? ==> v.value == BlockOf(kv, key.ukey)[key.part]
    {
      v := if key in kv then Some(kv[key]) else None;
      if key.part in BlockOf(kv, key.ukey) {
        assert Key(key.ukey, key.part) == key;
      }
    }

    method Put(key: Key, v: Value)
      modifies this
      ensures kv == old(kv)[key := v]
      ensures OnlyBlock(old(kv), kv, key.ukey)
      ensures BlockOf(kv, key.ukey) == old(BlockOf(kv, key.ukey))[key.part := v]
    {
      kv := kv[key := v];
      assert Key(key.ukey, key.part) == key;
    }

    method Delete(key: Key)
      modifies this
      ensures kv == old(kv) - {key}
      ensures OnlyBlock(old(kv), kv, key.ukey)
      ensures BlockOf(kv, key.ukey) == old(BlockOf(kv, key.ukey)) - {key.part}
    {
      kv := kv - {key};
    }

    /** One pair per requested key that is stored, in an order that callers do not know. */
    method BatchGet(keys: seq<Key>) returns (pairs: seq<(Key, Value)>, ghost order: seq<Key>)
      ensures |order| == |StoredOf(kv, keys)| && forall key :: key in order <==> key in StoredOf(kv, keys)
      ensures forall i, j :: 0 <= i < j < |order| ==> order[i] != order[j]
      ensures forall i :: 0 <= i < |order| ==> order[i] in kv
      ensures pairs == Pairs(kv, order)
    {
      var sorted := Ascending(StoredOf(kv, keys));
      AllStored(kv, StoredOf(kv, keys));
      pairs, order := Pairs(kv, sorted), sorted;
      forall i, j | 0 <= i < j < |order| ensures order[i] != order[j] {
        KeyLessTotal(order[i], order[j]);
      }
    }

    /** A scan whose limit is `u32::MAX`. */
    method ScanAll(range: Range) returns (keys: seq<Key>)
      ensures keys == Scan(kv, range)
    {
      keys := Scan(kv, range);
    }

    /** `scan_keys`, `scan_keys_stream` and their limit. */
    method ScanKeys(range: Range, limit: nat) returns (keys: seq<Key>)
      ensures keys == Take(Scan(kv, range), limit)
    {
      keys := Take(Scan(kv, range), limit);
    }

    method ScanKeysReverse(range: Range, limit: nat) returns (keys: seq<Key>)
      ensures keys == Take(Reverse(Scan(kv, range)), limit)
    {
      keys := Take(Reverse(Scan(kv, range)), limit);
    }

    /** `scan`, `scan_stream`: the keys of a range with the values they hold now. */
    method ScanPairs(range: Range) returns (pairs: seq<(Key, Value)>)
      ensures forall i :: 0 <= i < |Scan(kv, range)| ==> Scan(kv, range)[i] in kv
      ensures pairs == Pairs(kv, Scan(kv, range))
    {
      AllStored(kv, Selected(kv, range));
      pairs := Pairs(kv, Scan(kv, range));
    }

    /** The values of the first keys from a given one on, with no upper bound. */
    method ScanValuesFrom(first: Key, limit: nat) returns (values: seq<Value>)
      ensures values == ValuesFrom(kv, first, limit)
    {
      values := ValuesFrom(kv, first, limit);
    }

    /** The same over an inclusive range of keys. */
    method ScanPairsBetween(first: Key, last: Key) returns (pairs: seq<(Key, Value)>)
      ensures forall i :: 0 <= i < |ScanBetween(kv, first, last)| ==> ScanBetween(kv, first, last)[i] in kv
      ensures pairs == Pairs(kv, ScanBetween(kv, first, last))
    {
      AllStored(kv, Between(kv, first, last));
      pairs := Pairs(kv, ScanBetween(kv, first, last));
    }

    /** The loops that delete every key of a scan of one user key. */
    method DeleteAll(keys: seq<Key>, k: bytes)
      requires forall key :: key in keys ==> key.ukey == k
      modifies this
      ensures kv == old(kv) - set key | key in keys
      ensures OnlyBlock(old(kv), kv, k)
      ensures BlockOf(kv, k) == old(BlockOf(kv, k)) - set key | key in keys :: key.part
    {
      for i := 0 to |keys|
        invariant kv == old(kv) - set key | key in keys[..i]
      {
        kv := kv - {keys[i]};
      }
      assert keys[..|keys|] == keys;
      assert forall p :: p in BlockOf(kv, k) <==> Key(k, p) in kv;
      assert forall p :: p in old(BlockOf(kv, k)) <==> Key(k, p) in old(kv);
      assert forall key :: key in keys ==> key == Key(k, key.part);
    }
  }
}
