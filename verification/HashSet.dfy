/**
  The hash and set commands that change the number of items. Each is proved to act on the
  stored items as the matching operation acts on a map, and to keep the sharded size exact.
 */
module HashSet {
  import opened Bytes
  import opened Codec
  import opened Keys
  import opened Values
  import opened Store
  import opened Gc
  import opened Counters
  import opened Replies
  import opened Collection

  /** Hashes and sets: no second index. */
  type PlainKind = kind: CollKind | kind != Kind.Zset witness Kind.Hash

  // ----- names and keys -----

  function NameKey(k: bytes, kind: CollKind, v: u16, m: bytes): Key {
    Key(k, NamePart(kind, v, m))
  }

  function NameKeys(k: bytes, kind: CollKind, v: u16, names: seq<bytes>): (keys: seq<Key>)
    ensures |keys| == |names| && forall i :: 0 <= i < |names| ==> keys[i] == NameKey(k, kind, v, names[i])
  {
    seq(|names|, i requires 0 <= i < |names| => NameKey(k, kind, v, names[i]))
  }

  function Unique(names: seq<bytes>): set<bytes> {
    set m | m in names
  }

  lemma {:induction false} ImageSize(names: set<bytes>, k: bytes, kind: CollKind, v: u16)
    ensures |set m | m in names :: NameKey(k, kind, v, m)| == |names|
    decreases |names|
  {
    var image := set m | m in names :: NameKey(k, kind, v, m);
    if names != {} {
      var x :| x in names;
      var rest := names - {x};
      ImageSize(rest, k, kind, v);
      forall m | m in rest ensures NameKey(k, kind, v, m) != NameKey(k, kind, v, x) {
        assert NameOf(NameKey(k, kind, v, m).part.slot) == m;
        assert NameOf(NameKey(k, kind, v, x).part.slot) == x;
      }
      assert image == (set m | m in rest :: NameKey(k, kind, v, m)) + {NameKey(k, kind, v, x)};
    }
  }

  /** A batch get finds the requested names that the collection has. */
  lemma FoundNames(kv: Map, k: bytes, kind: CollKind, v: u16, names: seq<bytes>)
    ensures var present := Unique(names) * Entries(BlockOf(kv, k), v, kind).Keys;
            && StoredOf(kv, NameKeys(k, kind, v, names)) == (set m | m in present :: NameKey(k, kind, v, m))
            && |StoredOf(kv, NameKeys(k, kind, v, names))| == |present|
  {
    hide BlockOf, Entries, NamePart, NameKeys;
    var b := BlockOf(kv, k);
    var present := Unique(names) * Entries(b, v, kind).Keys;
    EntriesAt(b, v, kind);
    var keys := NameKeys(k, kind, v, names);
    forall m ensures m in Entries(b, v, kind) <==> NameKey(k, kind, v, m) in kv {
      InBlockOf(kv, k, NamePart(kind, v, m));
    }
    forall key | key in StoredOf(kv, keys) ensures exists m :: m in present && key == NameKey(k, kind, v, m) {
      var i :| 0 <= i < |keys| && keys[i] == key;
      assert names[i] in present;
    }
    forall m | m in present ensures NameKey(k, kind, v, m) in StoredOf(kv, keys) {
      var i :| 0 <= i < |names| && names[i] == m;
      assert keys[i] == NameKey(k, kind, v, m);
    }
    ImageSize(present, k, kind, v);
  }

  /** How many of the names are stored, by a batch get. */
  method CountFound(txn: Txn, k: bytes, kind: CollKind, v: u16, names: seq<bytes>) returns (n: nat)
    ensures n == |Unique(names) * Entries(BlockOf(txn.kv, k), v, kind).Keys|
  {
    hide BlockOf, Entries, Ascends;
    FoundNames(txn.kv, k, kind, v, names);
    var pairs, order := txn.BatchGet(NameKeys(k, kind, v, names));
    n := |pairs|;
  }

  // ----- putting items -----

  type Item = (bytes, Value)

  function ItemNames<T>(items: seq<(bytes, T)>): (names: seq<bytes>)
    ensures |names| == |items| && forall i :: 0 <= i < |items| ==> names[i] == items[i].0
  {
    seq(|items|, i requires 0 <= i < |items| => items[i].0)
  }

  /** A map after a sequence of assignments. */
  function Updated(m: map<bytes, Value>, items: seq<Item>): (r: map<bytes, Value>)
    ensures r.Keys == m.Keys + Unique(ItemNames(items))
  {
    if items == [] then m
    else
      var init, last := items[..|items| - 1], items[|items| - 1];
      NamesSnoc(items);
      Updated(m, init)[last.0 := last.1]
  }

  lemma NamesSnoc(items: seq<Item>)
    requires items != []
    ensures Unique(ItemNames(items)) == Unique(ItemNames(items[..|items| - 1])) + {items[|items| - 1].0}
  {
    var init, last := items[..|items| - 1], items[|items| - 1];
    forall m | m in ItemNames(items) ensures m in ItemNames(init) || m == last.0 {
      var i :| 0 <= i < |items| && ItemNames(items)[i] == m;
      if i < |init| {
        assert ItemNames(init)[i] == m;
      }
    }
    forall m | m in ItemNames(init) ensures m in ItemNames(items) {
      var i :| 0 <= i < |init| && ItemNames(init)[i] == m;
      assert ItemNames(items)[i] == m;
    }
    assert ItemNames(items)[|items| - 1] == last.0;
  }

  lemma UpdatedSnoc(m: map<bytes, Value>, items: seq<Item>, item: Item)
    ensures Updated(m, items + [item]) == Updated(m, items)[item.0 := item.1]
  {
    assert (items + [item])[..|items|] == items;
  }

  lemma NameWritten(b: Block, v: u16, kind: PlainKind, m: bytes, x: Value)
    requires Shaped(b, v, kind) && x.Blob?
    ensures var c := b[NamePart(kind, v, m) := x];
            && Shaped(c, v, kind) && Entries(c, v, kind) == Entries(b, v, kind)[m := x]
            && Total(c, v) == Total(b, v) && OnlyVersion(b, c, v)
  {
    hide Entries, Total;
    var c := b[NamePart(kind, v, m) := x];
    EntriesAt(b, v, kind);
    EntriesAt(c, v, kind);
    TotalSame(b, c, v);
    forall n | n != m ensures NamePart(kind, v, n) != NamePart(kind, v, m) {
      assert NameOf(NamePart(kind, v, n).slot) == n && NameOf(NamePart(kind, v, m).slot) == m;
    }
  }

  method PutItems(txn: Txn, k: bytes, kind: PlainKind, v: u16, items: seq<Item>)
    requires Shaped(BlockOf(txn.kv, k), v, kind) && forall i :: 0 <= i < |items| ==> items[i].1.Blob?
    modifies txn
    ensures OnlyBlock(old(txn.kv), txn.kv, k) && OnlyVersion(old(BlockOf(txn.kv, k)), BlockOf(txn.kv, k), v)
    ensures Shaped(BlockOf(txn.kv, k), v, kind) && Total(BlockOf(txn.kv, k), v) == old(Total(BlockOf(txn.kv, k), v))
    ensures Entries(BlockOf(txn.kv, k), v, kind) == Updated(old(Entries(BlockOf(txn.kv, k), v, kind)), items)
    ensures forall p: Part :: !p.Data? || p.slot.Counter? ==>
              && (p in BlockOf(txn.kv, k) <==> p in old(BlockOf(txn.kv, k)))
              && (p in BlockOf(txn.kv, k) ==> BlockOf(txn.kv, k)[p] == old(BlockOf(txn.kv, k))[p])
  {
    hide BlockOf, Entries, Total, Shaped, OnlyBlock, OnlyVersion;
    ghost var b := BlockOf(txn.kv, k);
    OnlyBlockRefl(txn.kv, k);
    OnlyVersionRefl(b, v);
    for i := 0 to |items|
      invariant OnlyBlock(old(txn.kv), txn.kv, k) && OnlyVersion(b, BlockOf(txn.kv, k), v)
      invariant Shaped(BlockOf(txn.kv, k), v, kind) && Total(BlockOf(txn.kv, k), v) == Total(b, v)
      invariant Entries(BlockOf(txn.kv, k), v, kind) == Updated(Entries(b, v, kind), items[..i])
      invariant forall p: Part :: !p.Data? || p.slot.Counter? ==>
                  (p in BlockOf(txn.kv, k) <==> p in b) && (p in b ==> BlockOf(txn.kv, k)[p] == b[p])
    {
      ghost var kv, c := txn.kv, BlockOf(txn.kv, k);
      assert items[..i + 1][..i] == items[..i];
      NameWritten(c, v, kind, items[i].0, items[i].1);
      txn.Put(NameKey(k, kind, v, items[i].0), items[i].1);
      OnlyBlockTrans(old(txn.kv), kv, txn.kv, k);
      OnlyVersionTrans(b, c, BlockOf(txn.kv, k), v);
    }
    assert items[..|items|] == items;
  }

  /** Write the items, count the new ones on one counter, and write the meta key if there is none. */
  method AddItems(txn: Txn, k: bytes, kind: PlainKind, v: u16, idx: u16, items: seq<Item>, added: int,
                  newMeta: Option<Value>, ghost base: Block)
    requires base == BlockOf(txn.kv, k) && VersionInv(base) && WorksOn(base, kind, v) && Counted(base, v, kind)
    requires items != [] && forall i :: 0 <= i < |items| ==> items[i].1.Blob?
    requires added == |Unique(ItemNames(items)) - Entries(base, v, kind).Keys|
    requires newMeta.Some? <==> Meta !in base
    requires newMeta.Some? ==> newMeta.value.CollMeta? && newMeta.value.kind == kind && newMeta.value.version == v
    modifies txn
    ensures OnlyBlock(old(txn.kv), txn.kv, k)
    ensures CollInv(BlockOf(txn.kv, k)) && Reaches(base, BlockOf(txn.kv, k))
    ensures Stored(BlockOf(txn.kv, k)) == Updated(Entries(base, v, kind), items)
    ensures HasShared(BlockOf(txn.kv, k)) && BlockOf(txn.kv, k)[Meta] == if newMeta.Some? then newMeta.value
            else base[Meta]
  {
    hide BlockOf, Entries, Total, Shaped, Reaches, OnlyVersion, VersionInv, OnlyBlock, Updated, WorksOn;
    PutItems(txn, k, kind, v, items);
    UpdatedSize(Entries(base, v, kind), items);
    ghost var kv := txn.kv;
    Grow(txn, k, kind, v, idx, added, newMeta, base);
    OnlyBlockTrans(old(txn.kv), kv, txn.kv, k);
  }

  lemma UnionSize(a: set<bytes>, b: set<bytes>)
    ensures |a + b| == |a| + |b - a|
  {
    assert a + b == a + (b - a);
  }

  lemma UpdatedSize(m: map<bytes, Value>, items: seq<Item>)
    requires items != []
    ensures |Updated(m, items)| == |m| + |Unique(ItemNames(items)) - m.Keys|
    ensures Updated(m, items) != map[]
  {
    hide Updated, ItemNames;
    var names := Unique(ItemNames(items));
    UnionSize(m.Keys, names);
    assert |Updated(m, items)| == |Updated(m, items).Keys|;
    assert items[0].0 == ItemNames(items)[0];
    assert items[0].0 in Updated(m, items).Keys;
  }

  // ----- HSET, HSETNX, HMSET and SADD -----

  function Fields(fvs: seq<(bytes, bytes)>): (items: seq<Item>)
    ensures |items| == |fvs| && forall i :: 0 <= i < |fvs| ==> items[i] == (fvs[i].0, Blob(fvs[i].1))
  {
    seq(|fvs|, i requires 0 <= i < |fvs| => (fvs[i].0, Blob(fvs[i].1)))
  }

  /** The ttl of the meta key that is there, expired or not. */
  function TtlOf(b: Block): u64 {
    if Meta in b && b[Meta].CollMeta? then b[Meta].ttl else 0
  }

  /** The names of a batch that are new; duplicates count once. */
  method CountNew(txn: Txn, k: bytes, kind: CollKind, v: u16, names: seq<bytes>) returns (added: int)
    ensures added == |Unique(names) - Entries(BlockOf(txn.kv, k), v, kind).Keys|
  {
    hide BlockOf, Entries;
    var found := CountFound(txn, k, kind, v, names);
    ghost var stored := Entries(BlockOf(txn.kv, k), v, kind).Keys;
    assert Unique(names) == (Unique(names) - stored) + (Unique(names) * stored);
    return |Unique(names)| - found;
  }

  /** The part of HSET after the version is settled. */
  method SetFields(txn: Txn, k: bytes, fvs: seq<(bytes, bytes)>, nx: bool, v: u16, idx: u16, newMeta: Option<Value>,
                   ghost b: Block)
    returns (n: int)
    requires b == BlockOf(txn.kv, k) && CollInv(b) && WorksOn(b, Kind.Hash, v) && Counted(b, v, Kind.Hash)
    requires fvs != [] && (nx ==> |fvs| == 1)
    requires newMeta.Some? <==> Meta !in b
    requires newMeta.Some? ==> newMeta.value.CollMeta? && newMeta.value.kind == Kind.Hash && newMeta.value.version == v
    requires newMeta.Some? ==> Entries(b, v, Kind.Hash) == map[]
    modifies txn
    ensures OnlyBlock(old(txn.kv), txn.kv, k)
    ensures CollInv(BlockOf(txn.kv, k)) && Reaches(b, BlockOf(txn.kv, k))
    ensures var h := Entries(b, v, Kind.Hash);
            if nx && fvs[0].0 in h then n == 0 && txn.kv == old(txn.kv)
            else
              && n == |fvs| && Stored(BlockOf(txn.kv, k)) == Updated(h, Fields(fvs)) && HasShared(BlockOf(txn.kv, k))
              && BlockOf(txn.kv, k)[Meta] == if newMeta.Some? then newMeta.value else b[Meta]
  {
    hide BlockOf, Entries, Counted, Reaches, VersionInv, OnlyBlock, WorksOn, Updated, Fields, Unique, ItemNames,
         NamePart, Stored, CollInv;
    var items := Fields(fvs);
    SingleName(items);
    EntriesAt(b, v, Kind.Hash);
    CollVersionInv(b);
    ReachesSelf(b);
    OnlyBlockRefl(txn.kv, k);
    var added := 1;
    if newMeta.None? && nx {
      var value := txn.Get(NameKey(k, Kind.Hash, v, fvs[0].0));
      if value.Some? {
        return 0;
      }
    } else if !nx {
      added := CountNew(txn, k, Kind.Hash, v, ItemNames(items));
    }
    AddItems(txn, k, Kind.Hash, v, idx, items, added, newMeta, b);
    return |fvs|;
  }

  /**
    The reply counts the given pairs, not the new fields. An expired hash is replaced by one
    with the same ttl, so what was just written is already expired.
   */
  method Hset(txn: Txn, k: bytes, fvs: seq<(bytes, bytes)>, nx: bool, idx: u16, slots: u16, now: u64, threshold: nat)
    returns (reply: Reply<int>)
    requires CollInv(BlockOf(txn.kv, k)) && fvs != [] && (nx ==> |fvs| == 1)
    modifies txn
    ensures OnlyBlock(old(txn.kv), txn.kv, k)
    ensures CollInv(BlockOf(txn.kv, k)) && Served(Kind.Hash, old(BlockOf(txn.kv, k)), BlockOf(txn.kv, k))
    ensures reply == Err(WrongType) <==> WrongKind(old(BlockOf(txn.kv, k)), Kind.Hash)
    ensures reply == Err(VersionExhausted) <==> Exhausted(old(BlockOf(txn.kv, k)), Kind.Hash, now, threshold)
    ensures reply.Err? ==>
              && (reply.error == WrongType || reply.error == VersionExhausted)
              && BlockOf(txn.kv, k) == Lapsed(old(BlockOf(txn.kv, k)), Kind.Hash, now, threshold)
    ensures var h := old(Visible(BlockOf(txn.kv, k), now));
            reply.Ok? ==>
              if nx && fvs[0].0 in h then reply == Ok(0) && txn.kv == old(txn.kv)
              else
                && reply == Ok(|fvs|) && Stored(BlockOf(txn.kv, k)) == Updated(h, Fields(fvs))
                && TtlOf(BlockOf(txn.kv, k)) == old(TtlOf(BlockOf(txn.kv, k)))
                && MetaSet(Lapsed(old(BlockOf(txn.kv, k)), Kind.Hash, now, threshold), BlockOf(txn.kv, k), Kind.Hash,
                           old(TtlOf(BlockOf(txn.kv, k))), slots)
                && Visible(BlockOf(txn.kv, k), now)
                   == if Expired(old(TtlOf(BlockOf(txn.kv, k))), now) then map[] else Updated(h, Fields(fvs))
  {
    hide BlockOf, MetaSet, Lapsed, Exhausted, Entries, Counted, Reaches, VersionInv, OnlyBlock, WorksOn, Updated,
         Fields, NextVersion, Unique, ItemNames, NamePart;
    var start := Prepare(txn, k, Kind.Hash, now, threshold);
    if start.Refused? {
      return Err(start.error);
    }
    var Ready(version, isNew, expired) := start;
    ghost var b, kv := BlockOf(txn.kv, k), txn.kv;
    var ttl := if expired.Some? then expired.value else 0;
    var n := SetFields(txn, k, fvs, nx, version, idx,
                       if isNew then Some(CollMeta(Kind.Hash, ttl, version, slots)) else None, b);
    OnlyBlockTrans(old(txn.kv), kv, txn.kv, k);
    ReachesTrans(old(BlockOf(txn.kv, k)), b, BlockOf(txn.kv, k));
    if !(nx && n == 0) {
      MetaIsSet(b, BlockOf(txn.kv, k), Kind.Hash, version, old(TtlOf(BlockOf(txn.kv, k))), slots);
    }
    return Ok(n);
  }

  lemma SingleName(items: seq<Item>)
    ensures |items| == 1 ==> Unique(ItemNames(items)) == {items[0].0}
  {
  }

  predicate Distinct(names: seq<bytes>) {
    forall i, j :: 0 <= i < j < |names| ==> names[i] != names[j]
  }

  lemma {:induction false} UniqueSize(names: seq<bytes>)
    ensures |Unique(names)| <= |names| && (|Unique(names)| == |names| <==> Distinct(names))
  {
    if names != [] {
      var init, last := names[..|names| - 1], names[|names| - 1];
      UniqueSize(init);
      assert names == init + [last];
      assert Unique(names) == Unique(init) + {last};
      if last in init {
        var i :| 0 <= i < |init| && init[i] == last;
        assert names[i] == names[|names| - 1];
      }
    }
  }

  /** Redis answers HSET with the number of new fields: the same if and only if all are new and none is given twice. */
  lemma HsetMeetsRedisIff(h: map<bytes, Value>, fvs: seq<(bytes, bytes)>)
    ensures |fvs| == |Unique(ItemNames(fvs)) - h.Keys|
            <==> Distinct(ItemNames(fvs)) && forall i :: 0 <= i < |fvs| ==> fvs[i].0 !in h
  {
    var names := ItemNames(fvs);
    UniqueSize(names);
    var present := Unique(names) * h.Keys;
    assert Unique(names) == (Unique(names) - h.Keys) + present;
    assert present == {} <==> forall i :: 0 <= i < |fvs| ==> names[i] !in h by {
      forall i | 0 <= i < |fvs| ensures names[i] in Unique(names) {
      }
      if present != {} {
        var m :| m in present;
        assert m in names;
      }
    }
  }

  /** Setting a field that is there is answered with 1, where Redis answers 0. */
  lemma HsetExample(field: bytes, x: Value, data: bytes)
    ensures var h, fvs := map[field := x], [(field, data)];
            |fvs| == 1 && Unique(ItemNames(fvs)) - h.Keys == {}
  {
    var fvs := [(field, data)];
    assert ItemNames(fvs) == [field];
  }

  function Marks(members: seq<bytes>): (items: seq<Item>)
    ensures |items| == |members| && forall i :: 0 <= i < |members| ==> items[i] == (members[i], Blob([0]))
    ensures ItemNames(items) == members
  {
    seq(|members|, i requires 0 <= i < |members| => (members[i], Blob([0])))
  }

  /** The reply counts the members that were not there; an expired set is replaced by one without ttl. */
  method Sadd(txn: Txn, k: bytes, members: seq<bytes>, idx: u16, now: u64, threshold: nat) returns (reply: Reply<int>)
    requires CollInv(BlockOf(txn.kv, k)) && members != []
    modifies txn
    ensures OnlyBlock(old(txn.kv), txn.kv, k)
    ensures CollInv(BlockOf(txn.kv, k)) && Served(Kind.Set, old(BlockOf(txn.kv, k)), BlockOf(txn.kv, k))
    ensures reply == Err(WrongType) <==> WrongKind(old(BlockOf(txn.kv, k)), Kind.Set)
    ensures reply == Err(VersionExhausted) <==> Exhausted(old(BlockOf(txn.kv, k)), Kind.Set, now, threshold)
    ensures reply.Err? ==>
              && (reply.error == WrongType || reply.error == VersionExhausted)
              && BlockOf(txn.kv, k) == Lapsed(old(BlockOf(txn.kv, k)), Kind.Set, now, threshold)
    ensures var s := old(Visible(BlockOf(txn.kv, k), now));
            reply.Ok? ==>
              && reply == Ok(|Unique(members) - s.Keys|)
              && Visible(BlockOf(txn.kv, k), now) == Stored(BlockOf(txn.kv, k)) == Updated(s, Marks(members))
              && Visible(BlockOf(txn.kv, k), now).Keys == s.Keys + Unique(members)
              && MetaSet(Lapsed(old(BlockOf(txn.kv, k)), Kind.Set, now, threshold), BlockOf(txn.kv, k), Kind.Set, 0, 0)
  {
    hide BlockOf, MetaSet, Lapsed, Exhausted, Entries, Counted, Reaches, VersionInv, OnlyBlock, WorksOn, Updated,
         Marks, Unique, ItemNames, NextVersion;
    var start := Prepare(txn, k, Kind.Set, now, threshold);
    if start.Refused? {
      return Err(start.error);
    }
    var Ready(version, isNew, expired) := start;
    ghost var b, kv := BlockOf(txn.kv, k), txn.kv;
    var added;
    if isNew && expired.None? {
      added := |Unique(members)|;
      NoneStored(Unique(members), Entries(b, version, Kind.Set));
    } else {
      added := CountNew(txn, k, Kind.Set, version, members);
    }
    AddItems(txn, k, Kind.Set, version, idx, Marks(members), added,
             if isNew then Some(CollMeta(Kind.Set, 0, version, 0)) else None, b);
    OnlyBlockTrans(old(txn.kv), kv, txn.kv, k);
    ReachesTrans(old(BlockOf(txn.kv, k)), b, BlockOf(txn.kv, k));
    MetaIsSet(b, BlockOf(txn.kv, k), Kind.Set, version, 0, 0);
    return Ok(added);
  }

  lemma NoneStored(names: set<bytes>, m: map<bytes, Value>)
    requires m == map[]
    ensures names - m.Keys == names
  {
  }

  // ----- HDEL and SREM -----

  lemma NamesDeleted(b: Block, v: u16, kind: PlainKind, names: set<bytes>)
    requires Shaped(b, v, kind)
    ensures var c := b - set m | m in names :: NamePart(kind, v, m);
            && Shaped(c, v, kind) && Entries(c, v, kind) == Entries(b, v, kind) - names
            && Total(c, v) == Total(b, v) && OnlyVersion(b, c, v)
            && (Meta in c <==> Meta in b) && (Meta in b ==> c[Meta] == b[Meta])
  {
    hide Entries, Total;
    var c := b - set m | m in names :: NamePart(kind, v, m);
    EntriesAt(b, v, kind);
    EntriesAt(c, v, kind);
    forall i: u16 ensures CountAt(b, v, i) == CountAt(c, v, i) {
    }
    TotalSame(b, c, v);
    forall m ensures NamePart(kind, v, m) in (set n | n in names :: NamePart(kind, v, n)) <==> m in names {
      if NamePart(kind, v, m) in (set n | n in names :: NamePart(kind, v, n)) {
        var n :| n in names && NamePart(kind, v, n) == NamePart(kind, v, m);
        assert NameOf(NamePart(kind, v, n).slot) == n && NameOf(NamePart(kind, v, m).slot) == m;
      }
    }
  }

  method DeleteFound(txn: Txn, k: bytes, kind: PlainKind, v: u16, names: seq<bytes>) returns (removed: nat)
    requires Shaped(BlockOf(txn.kv, k), v, kind)
    modifies txn
    ensures OnlyBlock(old(txn.kv), txn.kv, k) && OnlyVersion(old(BlockOf(txn.kv, k)), BlockOf(txn.kv, k), v)
    ensures Shaped(BlockOf(txn.kv, k), v, kind) && Total(BlockOf(txn.kv, k), v) == old(Total(BlockOf(txn.kv, k), v))
    ensures Entries(BlockOf(txn.kv, k), v, kind) == old(Entries(BlockOf(txn.kv, k), v, kind)) - Unique(names)
    ensures removed == |Unique(names) * old(Entries(BlockOf(txn.kv, k), v, kind)).Keys|
    ensures Meta in BlockOf(txn.kv, k) <==> Meta in old(BlockOf(txn.kv, k))
    ensures Meta in BlockOf(txn.kv, k) ==> BlockOf(txn.kv, k)[Meta] == old(BlockOf(txn.kv, k)[Meta])
  {
    hide BlockOf, Entries, Shaped, OnlyBlock, OnlyVersion, Total, Unique;
    ghost var b := BlockOf(txn.kv, k);
    ghost var present := Unique(names) * Entries(b, v, kind).Keys;
    var keys := FindKeys(txn, k, kind, v, names);
    txn.DeleteAll(keys, k);
    NamesDeleted(b, v, kind, present);
    OnlyPresent(Entries(b, v, kind), Unique(names));
    return |keys|;
  }

  /** The keys a batch get finds. */
  method FindKeys(txn: Txn, k: bytes, kind: PlainKind, v: u16, names: seq<bytes>) returns (keys: seq<Key>)
    ensures var present := Unique(names) * Entries(BlockOf(txn.kv, k), v, kind).Keys;
            && |keys| == |present| && (forall key :: key in keys ==> key.ukey == k)
            && (set key | key in keys :: key.part) == set m | m in present :: NamePart(kind, v, m)
  {
    hide BlockOf, Entries, Ascends, Ascending, Unique, NameKeys, KeyLess;
    ghost var present := Unique(names) * Entries(BlockOf(txn.kv, k), v, kind).Keys;
    FoundNames(txn.kv, k, kind, v, names);
    var pairs, order := txn.BatchGet(NameKeys(k, kind, v, names));
    keys := seq(|pairs|, i requires 0 <= i < |pairs| => pairs[i].0);
    assert keys == order;
    PartsOf(keys, present, k, kind, v);
  }

  lemma OnlyPresent(m: map<bytes, Value>, names: set<bytes>)
    ensures m - (names * m.Keys) == m - names
  {
  }

  lemma PartsOf(keys: seq<Key>, names: set<bytes>, k: bytes, kind: CollKind, v: u16)
    requires forall key :: key in keys <==> key in set m | m in names :: NameKey(k, kind, v, m)
    ensures forall key :: key in keys ==> key.ukey == k
    ensures (set key | key in keys :: key.part) == set m | m in names :: NamePart(kind, v, m)
  {
    forall m | m in names ensures NamePart(kind, v, m) in set key | key in keys :: key.part {
      assert NameKey(k, kind, v, m) in keys;
    }
  }

  /** HDEL and SREM: delete the items that are there, and take them off the size. */
  method RemoveItems(txn: Txn, k: bytes, kind: PlainKind, names: seq<bytes>, idx: u16, now: u64, threshold: nat)
    returns (reply: Reply<int>)
    requires CollInv(BlockOf(txn.kv, k))
    modifies txn
    ensures OnlyBlock(old(txn.kv), txn.kv, k)
    ensures CollInv(BlockOf(txn.kv, k)) && Served(kind, old(BlockOf(txn.kv, k)), BlockOf(txn.kv, k))
    ensures KeepsMeta(Lapsed(old(BlockOf(txn.kv, k)), kind, now, threshold), BlockOf(txn.kv, k))
    ensures old(Visible(BlockOf(txn.kv, k), now)) == map[] ==>
              BlockOf(txn.kv, k) == Lapsed(old(BlockOf(txn.kv, k)), kind, now, threshold)
    ensures var s := old(Visible(BlockOf(txn.kv, k), now));
            if WrongKind(old(BlockOf(txn.kv, k)), kind) then reply == Err(WrongType) && txn.kv == old(txn.kv)
            else reply == Ok(|Unique(names) * s.Keys|) && Visible(BlockOf(txn.kv, k), now) == s - Unique(names)
  {
    hide BlockOf, Lapsed, Entries, Counted, Reaches, VersionInv, WorksOn, Unique, Shaped, Total, OnlyVersion;
    var meta := Open(txn, k, kind, now, threshold);
    if meta.Wrong? {
      return Err(WrongType);
    } else if meta.Missing? {
      return Ok(0);
    }
    var version := meta.version;
    ghost var b := BlockOf(txn.kv, k);
    LiveVersion(b, kind);
    var size := SumKeySize(txn, k, version);
    var removed := DeleteFound(txn, k, kind, version, names);
    RemovedSize(Entries(b, version, kind), Unique(names));
    Shrink(txn, k, kind, version, idx, removed, size, b);
    return Ok(removed);
  }

  /** What the invariant says about the live version. */
  lemma LiveVersion(b: Block, kind: CollKind)
    requires CollInv(b) && HasShared(b) && b[Meta].kind == kind
    ensures var v := b[Meta].version;
            && VersionInv(b) && WorksOn(b, kind, v) && OnlyVersion(b, b, v)
            && Shaped(b, v, kind) && CountersTyped(b, v) && Total(b, v) == |Entries(b, v, kind)| > 0
  {
    hide Entries, Total, Indexed, VersionInv;
  }

  lemma RemovedSize(m: map<bytes, Value>, names: set<bytes>)
    ensures |m - names| == |m| - |names * m.Keys|
  {
    assert (m - names).Keys == m.Keys - names;
    assert m.Keys == (m.Keys - names) + (names * m.Keys);
  }

  // ----- SPOP -----

  /** The members of a set in scan order, which is byte order. */
  function MembersOf(keys: seq<Key>): (r: seq<bytes>)
    ensures |r| == |keys|
    ensures forall i :: 0 <= i < |keys| ==> r[i] == if keys[i].part.Data? then NameOf(keys[i].part.slot) else []
  {
    seq(|keys|, i requires 0 <= i < |keys| => if keys[i].part.Data? then NameOf(keys[i].part.slot) else [])
  }

  lemma ScanSet(kv: Map, k: bytes, v: u16)
    ensures var keys, s := Scan(kv, SetRange(k, v)), Entries(BlockOf(kv, k), v, Kind.Set);
            && (forall i :: 0 <= i < |keys| ==> keys[i] == NameKey(k, Kind.Set, v, MembersOf(keys)[i]))
            && Sorted(MembersOf(keys)) && (forall m :: m in MembersOf(keys) <==> m in s) && |keys| == |s|
  {
    hide KeyLess, Scan, FamilyRange, BlockOf, Entries, Less;
    var keys, s := Scan(kv, SetRange(k, v)), Entries(BlockOf(kv, k), v, Kind.Set);
    var members := MembersOf(keys);
    SetKeys(kv, k, v);
    forall i | 0 <= i < |keys| ensures keys[i] == NameKey(k, Kind.Set, v, members[i]) && members[i] in s {
      assert keys[i] in keys;
    }
    forall m | m in s ensures m in members {
      assert NameKey(k, Kind.Set, v, m) in keys;
      var i :| 0 <= i < |keys| && keys[i] == NameKey(k, Kind.Set, v, m);
      assert members[i] == m;
    }
    MembersSorted(kv, k, v, keys, members);
    SortedSize(members, s);
  }

  lemma SetKeys(kv: Map, k: bytes, v: u16)
    ensures forall key :: key in Scan(kv, SetRange(k, v)) ==>
              key.part.Data? && key == NameKey(k, Kind.Set, v, NameOf(key.part.slot))
              && NameOf(key.part.slot) in Entries(BlockOf(kv, k), v, Kind.Set)
    ensures forall m ::
              m in Entries(BlockOf(kv, k), v, Kind.Set) ==> NameKey(k, Kind.Set, v, m) in Scan(kv, SetRange(k, v))
  {
    hide KeyLess, FamilyRange, BlockOf, Ascending, Ascends, Entries, Less;
    EntriesAt(BlockOf(kv, k), v, Kind.Set);
    forall key ensures key in Scan(kv, SetRange(k, v))
                       <==> key in kv && key.ukey == k && key.part.Data? && key.part.version == v
                               && key.part.slot.Member?
    {
      FamilyRangeExact(DATA_TYPE_SET, k, v, key);
    }
    forall m ensures m in Entries(BlockOf(kv, k), v, Kind.Set) <==> NameKey(k, Kind.Set, v, m) in kv {
      InBlockOf(kv, k, NamePart(Kind.Set, v, m));
    }
  }

  lemma MembersSorted(kv: Map, k: bytes, v: u16, keys: seq<Key>, members: seq<bytes>)
    requires keys == Scan(kv, SetRange(k, v)) && |members| == |keys|
    requires forall i :: 0 <= i < |keys| ==> keys[i] == NameKey(k, Kind.Set, v, members[i])
    ensures Sorted(members)
  {
    hide KeyLess, FamilyRange, Ascending, Less;
    forall i, j | 0 <= i < j < |members| ensures Less(members[i], members[j]) {
      assert KeyLess(keys[i], keys[j]);
      SuffixOrder(k, v, Member(members[i]), Member(members[j]));
    }
  }

  lemma SortedSize(members: seq<bytes>, s: map<bytes, Value>)
    requires Sorted(members) && forall m :: m in members <==> m in s
    ensures |members| == |s|
  {
    hide Less;
    forall i, j | 0 <= i < j < |members| ensures members[i] != members[j] {
      LessTrichotomy(members[i], members[j]);
    }
    DistinctSize(members);
    assert s.Keys == Unique(members);
  }

  lemma {:induction false} DistinctSize(s: seq<bytes>)
    requires forall i, j :: 0 <= i < j < |s| ==> s[i] != s[j]
    ensures |Unique(s)| == |s|
  {
    if s != [] {
      var init, last := s[..|s| - 1], s[|s| - 1];
      DistinctSize(init);
      assert s == init + [last];
      assert Unique(s) == Unique(init) + {last};
    }
  }

  /** What SPOP takes: the first members in byte order, as many as asked for or as there are. */
  ghost predicate Smallest(popped: seq<bytes>, s: map<bytes, Value>, count: nat) {
    && |popped| == (if count < |s| then count else |s|) && Sorted(popped)
    && (forall m :: m in popped ==> m in s)
    && (forall m, n :: m in popped && n in s && n !in popped ==> Less(m, n))
  }

  lemma TakeSmallest(members: seq<bytes>, s: map<bytes, Value>, count: nat)
    requires Sorted(members) && (forall m :: m in members <==> m in s) && |members| == |s|
    ensures Smallest(Take(members, count), s, count)
    ensures |Unique(Take(members, count)) * s.Keys| == |Take(members, count)|
  {
    hide Less;
    var popped := Take(members, count);
    forall m, n | m in popped && n in s && n !in popped ensures Less(m, n) {
      var i :| 0 <= i < |popped| && popped[i] == m;
      var j :| 0 <= j < |members| && members[j] == n;
      assert forall q :: 0 <= q < |popped| ==> members[q] in popped by {
        assert forall q :: 0 <= q < |popped| ==> popped[q] == members[q];
      }
      assert j >= |popped| && members[i] == m;
    }
    forall i, j | 0 <= i < j < |popped| ensures popped[i] != popped[j] {
      LessTrichotomy(popped[i], popped[j]);
    }
    DistinctSize(popped);
    assert Unique(popped) * s.Keys == Unique(popped);
  }

  method PopMembers(txn: Txn, k: bytes, v: u16, count: nat) returns (popped: seq<bytes>)
    requires Shaped(BlockOf(txn.kv, k), v, Kind.Set)
    modifies txn
    ensures OnlyBlock(old(txn.kv), txn.kv, k) && OnlyVersion(old(BlockOf(txn.kv, k)), BlockOf(txn.kv, k), v)
    ensures Shaped(BlockOf(txn.kv, k), v, Kind.Set) && Total(BlockOf(txn.kv, k), v) == old(Total(BlockOf(txn.kv, k), v))
    ensures Entries(BlockOf(txn.kv, k), v, Kind.Set) == old(Entries(BlockOf(txn.kv, k), v, Kind.Set)) - Unique(popped)
    ensures Smallest(popped, old(Entries(BlockOf(txn.kv, k), v, Kind.Set)), count)
    ensures |Unique(popped) * old(Entries(BlockOf(txn.kv, k), v, Kind.Set)).Keys| == |popped|
    ensures Meta in BlockOf(txn.kv, k) <==> Meta in old(BlockOf(txn.kv, k))
    ensures Meta in BlockOf(txn.kv, k) ==> BlockOf(txn.kv, k)[Meta] == old(BlockOf(txn.kv, k)[Meta])
  {
    hide BlockOf, Entries, Shaped, OnlyBlock, OnlyVersion, Total, Scan, FamilyRange, Less, Sorted;
    ghost var b := BlockOf(txn.kv, k);
    ScanSet(txn.kv, k, v);
    ghost var all := Scan(txn.kv, SetRange(k, v));
    var keys := txn.ScanKeys(SetRange(k, v), count);
    popped := MembersOf(keys);
    assert popped == Take(MembersOf(all), count);
    TakeSmallest(MembersOf(all), Entries(b, v, Kind.Set), count);
    PoppedParts(keys, popped, k, v);
    txn.DeleteAll(keys, k);
    NamesDeleted(b, v, Kind.Set, Unique(popped));
  }

  lemma PoppedParts(keys: seq<Key>, names: seq<bytes>, k: bytes, v: u16)
    requires |keys| == |names| && forall i :: 0 <= i < |keys| ==> keys[i] == NameKey(k, Kind.Set, v, names[i])
    ensures forall key :: key in keys ==> key.ukey == k
    ensures (set key | key in keys :: key.part) == set m | m in Unique(names) :: NamePart(Kind.Set, v, m)
  {
    forall m | m in Unique(names) ensures NamePart(Kind.Set, v, m) in set key | key in keys :: key.part {
      var i :| 0 <= i < |names| && names[i] == m;
      assert keys[i] in keys;
    }
  }

  method Spop(txn: Txn, k: bytes, count: nat, idx: u16, now: u64, threshold: nat) returns (reply: Reply<seq<bytes>>)
    requires CollInv(BlockOf(txn.kv, k))
    modifies txn
    ensures OnlyBlock(old(txn.kv), txn.kv, k)
    ensures CollInv(BlockOf(txn.kv, k)) && Served(Kind.Set, old(BlockOf(txn.kv, k)), BlockOf(txn.kv, k))
    ensures KeepsMeta(Lapsed(old(BlockOf(txn.kv, k)), Kind.Set, now, threshold), BlockOf(txn.kv, k))
    ensures old(Visible(BlockOf(txn.kv, k), now)) == map[] ==>
              BlockOf(txn.kv, k) == Lapsed(old(BlockOf(txn.kv, k)), Kind.Set, now, threshold)
    ensures var s := old(Visible(BlockOf(txn.kv, k), now));
            if WrongKind(old(BlockOf(txn.kv, k)), Kind.Set) then reply == Err(WrongType) && txn.kv == old(txn.kv)
            else reply.Ok? && Smallest(reply.value, s, count)
                    && Visible(BlockOf(txn.kv, k), now) == s - Unique(reply.value)
  {
    hide BlockOf, Lapsed, Entries, Counted, Reaches, VersionInv, WorksOn, Unique, Shaped, Total, OnlyVersion, Sorted,
         Less;
    var meta := Open(txn, k, Kind.Set, now, threshold);
    if meta.Wrong? {
      return Err(WrongType);
    } else if meta.Missing? {
      PopNothing(map[], count);
      return Ok([]);
    }
    var version := meta.version;
    ghost var b := BlockOf(txn.kv, k);
    LiveVersion(b, Kind.Set);
    var popped := PopMembers(txn, k, version, count);
    RemovedSize(Entries(b, version, Kind.Set), Unique(popped));
    ShapedCounters(BlockOf(txn.kv, k), version, Kind.Set);
    var size := SumKeySize(txn, k, version);
    Shrink(txn, k, Kind.Set, version, idx, |popped|, size, b);
    return Ok(popped);
  }

  lemma PopNothing(s: map<bytes, Value>, count: nat)
    requires s == map[]
    ensures Smallest([], s, count) && s - Unique([]) == s
  {
  }

  lemma CollVersionInv(b: Block)
    requires CollInv(b)
    ensures VersionInv(b)
  {
  }
}
