/**
  What hashes, sets and sorted sets share: named items under one version, a sharded size,
  and the same ways of opening, shrinking and deleting a collection.
 */
module Collection {
  import opened Bytes
  import opened Codec
  import opened Keys
  import opened Values
  import opened Store
  import opened Gc
  import opened GcWorker
  import opened Counters
  import opened Replies
  import Score

  type CollKind = kind: Kind | kind != Kind.List witness Kind.Hash

  /** The slots that name the items of a collection. */
  predicate Names(kind: CollKind, s: Slot) {
    match kind
    case Hash => s.Field?
    case Set => s.Member?
    case Zset => s.Scored?
  }

  function NameSlot(kind: CollKind, m: bytes): (s: Slot)
    ensures Names(kind, s) && NameOf(s) == m
  {
    match kind
    case Hash => Field(m)
    case Set => Member(m)
    case Zset => Scored(m)
  }

  function NameOf(s: Slot): bytes {
    match s
    case Field(f) => f
    case Member(m) => m
    case Scored(m) => m
    case _ => []
  }

  function NamePart(kind: CollKind, v: u16, m: bytes): Part {
    Data(v, NameSlot(kind, m))
  }

  /** The collection as a client thinks of it: names with what is stored for them. */
  function Entries(b: Block, v: u16, kind: CollKind): map<bytes, Value> {
    map p | p in b && p.Data? && p.version == v && Names(kind, p.slot) :: NameOf(p.slot) := b[p]
  }

  lemma EntriesAt(b: Block, v: u16, kind: CollKind)
    ensures forall m :: m in Entries(b, v, kind) <==> NamePart(kind, v, m) in b
    ensures forall m :: m in Entries(b, v, kind) ==> Entries(b, v, kind)[m] == b[NamePart(kind, v, m)]
  {
    forall m | NamePart(kind, v, m) in b ensures m in Entries(b, v, kind) {
      assert NameOf(NamePart(kind, v, m).slot) == m;
    }
    forall p: Part | p in b && p.Data? && p.version == v && Names(kind, p.slot)
            ensures p == NamePart(kind, v, NameOf(p.slot)) {
    }
  }

  // ----- the invariant -----

  predicate ValidCode(code: u64) {
    !Score.IsNan(Score.FromCmp(code)) && Score.ToCmp(Score.FromCmp(code)) == code
  }

  /** The two indexes of a sorted set describe the same (member, score) pairs. */
  ghost predicate Indexed(b: Block, v: u16) {
    && (forall m :: Data(v, Scored(m)) in b ==> b[Data(v, Scored(m))].Code? && ValidCode(b[Data(v, Scored(m))].code))
    && (forall c, m :: Data(v, Ranked(c, m)) in b <==> Data(v, Scored(m)) in b && b[Data(v, Scored(m))] == Code(c))
    && (forall c, m :: Data(v, Ranked(c, m)) in b ==> b[Data(v, Ranked(c, m))] == Blob(m))
  }

  /** Everything stored under the version but the size: slots of the right type, with values of the right type. */
  ghost predicate Shaped(b: Block, v: u16, kind: CollKind) {
    && (forall s :: Data(v, s) in b ==> Of(kind, s))
    && CountersTyped(b, v)
    && (if kind.Zset? then Indexed(b, v) else forall m :: NamePart(kind, v, m) in b ==> b[NamePart(kind, v, m)].Blob?)
  }

  /** ... and the counters add up to the number of items. */
  ghost predicate Counted(b: Block, v: u16, kind: CollKind) {
    Shaped(b, v, kind) && Total(b, v) == |Entries(b, v, kind)|
  }

  predicate HasShared(b: Block) {
    Meta in b && b[Meta].CollMeta? && b[Meta].kind != Kind.List
  }

  /** What every command keeps: a stored collection is not empty, and its counters tell its size. */
  ghost predicate CollInv(b: Block) {
    && VersionInv(b)
    && (HasShared(b) ==>
          Counted(b, b[Meta].version, b[Meta].kind) && Entries(b, b[Meta].version, b[Meta].kind) != map[])
  }

  ghost function Stored(b: Block): map<bytes, Value> {
    if HasShared(b) then Entries(b, b[Meta].version, b[Meta].kind) else map[]
  }

  /** What a client sees at time `now`: an expired collection counts as absent. */
  ghost function Visible(b: Block, now: u64): map<bytes, Value> {
    if HasShared(b) && Expired(b[Meta].ttl, now) then map[] else Stored(b)
  }

  predicate WrongKind(b: Block, kind: CollKind) {
    Meta in b && !(b[Meta].CollMeta? && b[Meta].kind == kind)
  }

  // ----- from the stored parts to the invariant -----

  lemma OnlyVersionRefl(b: Block, v: u16)
    ensures OnlyVersion(b, b, v)
  {
  }

  lemma OnlyVersionTrans(a: Block, b: Block, c: Block, v: u16)
    requires OnlyVersion(a, b, v) && OnlyVersion(b, c, v)
    ensures OnlyVersion(a, c, v)
  {
  }

  /** The version a command works under: the live one, or a free one for a new collection. */
  ghost predicate WorksOn(b: Block, kind: CollKind, v: u16) {
    if HasColl(b) then b[Meta].CollMeta? && b[Meta].kind == kind && b[Meta].version == v
    else Meta !in b && VersionForNew(b) == Some(v)
  }

  lemma Saved(b: Block, c: Block, kind: CollKind, v: u16)
    requires VersionInv(b) && WorksOn(b, kind, v) && OnlyVersion(b, c, v)
    requires HasShared(c) && c[Meta].kind == kind && c[Meta].version == v
    requires Counted(c, v, kind) && Entries(c, v, kind) != map[]
    ensures CollInv(c) && Stored(c) == Entries(c, v, kind) && Reaches(b, c)
  {
    hide Entries, Total, Indexed, Reaches;
    ReachesByWrite(b, c, v);
    forall w, s | Data(w, s) in c ensures Owned(c, w, s) {
      if w != v {
        assert Data(w, s) in b && Owned(b, w, s);
      }
    }
  }

  /** Whatever a command wrote under its own version, it is one write step. */
  lemma WrittenIsReached(b: Block, c: Block, kind: CollKind, v: u16)
    requires WorksOn(b, kind, v) && OnlyVersion(b, c, v)
    requires HasShared(c) && c[Meta].kind == kind && c[Meta].version == v
    requires forall s :: Data(v, s) in c ==> Of(kind, s)
    ensures Reaches(b, c)
  {
    hide Reaches, OnlyVersion, Of;
    ReachesByWrite(b, c, v);
  }

  lemma Dropped(b: Block, c: Block, kind: CollKind, v: u16)
    requires VersionInv(b) && WorksOn(b, kind, v) && OnlyVersion(b, c, v)
    requires Meta !in c && forall s :: Data(v, s) !in c
    ensures CollInv(c) && Stored(c) == map[] && Reaches(b, c)
  {
    hide Entries, Total, Indexed, Reaches;
    if HasColl(b) {
      ReachesByDel(b, c, v);
    } else {
      FreshVersionEmpty(b, v);
      assert b == c;
      ReachesSelf(b);
    }
    forall w, s | Data(w, s) in c ensures Owned(c, w, s) {
      assert Data(w, s) in b && Owned(b, w, s);
    }
  }

  // ----- deletion and expiry -----

  /** The family that holds the names. */
  function NameFamily(kind: CollKind): byte {
    match kind
    case Hash => DATA_TYPE_HASH
    case Set => DATA_TYPE_SET
    case Zset => DATA_TYPE_ZSET
  }

  /** The members of a sorted set, in scan order, with their codes. */
  lemma ScanMembers(kv: Map, k: bytes, v: u16)
    requires Indexed(BlockOf(kv, k), v)
    ensures var keys, b := Scan(kv, ZsetRange(k, v)), BlockOf(kv, k);
            && (forall i :: 0 <= i < |keys| ==>
                  && keys[i] in kv && keys[i].ukey == k && keys[i].part.Data? && keys[i].part.version == v
                  && keys[i].part.slot.Scored? && keys[i].part in b && kv[keys[i]] == b[keys[i].part]
                  && kv[keys[i]].Code? && ValidCode(kv[keys[i]].code))
            && (forall m :: Data(v, Scored(m)) in b ==> Key(k, Data(v, Scored(m))) in keys)
  {
    hide KeyLess, FamilyRange, BlockOf, Ascending, Ascends, ValidCode;
    var keys := Scan(kv, ZsetRange(k, v));
    forall key
      ensures key in keys <==>
                key in kv && key.ukey == k && key.part.Data? && key.part.version == v && key.part.slot.Scored?
    {
      FamilyRangeExact(DATA_TYPE_ZSET, k, v, key);
    }
    forall i | 0 <= i < |keys| ensures keys[i].part in BlockOf(kv, k) && kv[keys[i]] == BlockOf(kv, k)[keys[i].part] {
      assert keys[i] in keys;
      assert keys[i] == Key(k, Data(v, Scored(keys[i].part.slot.member)));
      InBlockOf(kv, k, keys[i].part);
    }
    forall m | Data(v, Scored(m)) in BlockOf(kv, k) ensures Key(k, Data(v, Scored(m))) in kv {
      InBlockOf(kv, k, Data(v, Scored(m)));
    }
  }

  /** Delete both keys of every member. */
  method DeleteMembers(txn: Txn, k: bytes, v: u16)
    requires Indexed(BlockOf(txn.kv, k), v)
    modifies txn
    ensures OnlyBlock(old(txn.kv), txn.kv, k)
    ensures BlockOf(txn.kv, k)
            == WithoutType(WithoutType(old(BlockOf(txn.kv, k)), DATA_TYPE_ZSET, v), DATA_TYPE_SCORE, v)
  {
    hide BlockOf, Scan, FamilyRange, OnlyBlock, WithoutType, ValidCode;
    ghost var b := BlockOf(txn.kv, k);
    ScanMembers(txn.kv, k, v);
    var pairs := txn.ScanPairs(ZsetRange(k, v));
    ghost var keys := Scan(txn.kv, ZsetRange(k, v));
    ghost var gone: set<Part> := {};
    OnlyBlockRefl(txn.kv, k);
    for i := 0 to |pairs|
      invariant OnlyBlock(old(txn.kv), txn.kv, k)
      invariant BlockOf(txn.kv, k) == b - gone
      invariant forall j :: 0 <= j < i ==>
                  keys[j].part in gone && Data(v, Ranked(pairs[j].1.code, keys[j].part.slot.member)) in gone
      invariant forall p :: p in gone ==> p.Data? && p.version == v && (p.slot.Scored? || p.slot.Ranked?)
    {
      ghost var kv := txn.kv;
      var score := Decoded(pairs[i].1.code);
      var scoreKey := Key(k, Data(v, Ranked(Score.ToCmp(score), pairs[i].0.part.slot.member)));
      txn.Delete(pairs[i].0);
      OnlyBlockTrans(old(txn.kv), kv, txn.kv, k);
      kv := txn.kv;
      txn.Delete(scoreKey);
      OnlyBlockTrans(old(txn.kv), kv, txn.kv, k);
      gone := gone + {pairs[i].0.part, scoreKey.part};
    }
    AllGone(b, k, v, keys, pairs, gone);
  }

  /** The score that a stored code stands for. */
  function Decoded(code: u64): (score: Score.f64)
    requires ValidCode(code)
    ensures Score.ToCmp(score) == code
  {
    Score.FromCmp(code)
  }

  lemma AllGone(b: Block, k: bytes, v: u16, keys: seq<Key>, pairs: seq<(Key, Value)>, gone: set<Part>)
    requires Indexed(b, v) && |keys| == |pairs|
    requires forall i :: 0 <= i < |keys| ==>
               && keys[i].part.Data? && keys[i].part.slot.Scored? && keys[i].part.version == v
               && keys[i].part in b && pairs[i].1 == b[keys[i].part] && pairs[i].1.Code?
    requires forall m :: Data(v, Scored(m)) in b ==> Key(k, Data(v, Scored(m))) in keys
    requires forall j :: 0 <= j < |keys| ==>
               keys[j].part in gone && Data(v, Ranked(pairs[j].1.code, keys[j].part.slot.member)) in gone
    requires forall p :: p in gone ==> p.Data? && p.version == v && (p.slot.Scored? || p.slot.Ranked?)
    ensures b - gone == WithoutType(WithoutType(b, DATA_TYPE_ZSET, v), DATA_TYPE_SCORE, v)
  {
    hide ValidCode;
    forall p | p in b && p.Data? && p.version == v && (p.slot.Scored? || p.slot.Ranked?) ensures p in gone {
      assert p.slot.Ranked? ==> p == Data(v, Ranked(p.slot.code, p.slot.member));
      assert p.slot.Scored? ==> p == Data(v, Scored(p.slot.member));
      assert Key(k, Data(v, Scored(p.slot.member))) in keys;
    }
  }

  /** Both branches of deletion: leave a large collection to the gc, or delete every key now. */
  method DropColl(txn: Txn, k: bytes, kind: CollKind, threshold: nat)
    requires CollInv(BlockOf(txn.kv, k)) && HasShared(BlockOf(txn.kv, k)) && BlockOf(txn.kv, k)[Meta].kind == kind
    modifies txn
    ensures OnlyBlock(old(txn.kv), txn.kv, k)
    ensures BlockOf(txn.kv, k) == Apply(old(BlockOf(txn.kv, k)), Del(|old(Stored(BlockOf(txn.kv, k)))| > threshold)).0
    ensures CollInv(BlockOf(txn.kv, k)) && Meta !in BlockOf(txn.kv, k)
            && Reaches(old(BlockOf(txn.kv, k)), BlockOf(txn.kv, k))
  {
    hide BlockOf, Entries, Total, Reaches, Indexed, VersionInv;
    ghost var b := BlockOf(txn.kv, k);
    var meta := txn.Get(Key(k, Meta));
    var version := meta.value.version;
    var size := SumKeySize(txn, k, version);
    DelRefines(b, size > threshold);
    ReachesByStep(b, Del(size > threshold));
    if size > threshold {
      txn.Delete(Key(k, Meta));
      txn.Put(Key(k, Part.Gc), Version(version));
      txn.Put(Key(k, GcVersion(version)), TypeTag(kind));
    } else {
      if kind == Kind.Zset {
        DeleteMembers(txn, k, version);
      } else {
        DeleteFamily(txn, NameFamily(kind), k, version);
      }
      DeleteFamily(txn, DATA_TYPE_META, k, version);
      txn.Delete(Key(k, Meta));
      AllFamilies(b, kind, version);
    }
  }

  lemma AllFamilies(b: Block, kind: CollKind, v: u16)
    ensures kind == Kind.Zset ==>
              var c := WithoutType(WithoutType(b, DATA_TYPE_ZSET, v), DATA_TYPE_SCORE, v);
              WithoutType(c, DATA_TYPE_META, v) - {Meta} == Without(b - {Meta}, kind, v)
    ensures kind != Kind.Zset ==>
              var c := WithoutType(b, NameFamily(kind), v);
              WithoutType(c, DATA_TYPE_META, v) - {Meta} == Without(b - {Meta}, kind, v)
  {
  }

  // ----- opening -----

  /** The block once a collection of the given type that has expired is dropped. */
  ghost function Lapsed(b: Block, kind: CollKind, now: u64, threshold: nat): Block {
    if HasShared(b) && b[Meta].kind == kind && Expired(b[Meta].ttl, now) then Apply(b, Del(|Stored(b)| > threshold)).0
    else b
  }

  /** What is left keeps its meta key, and with it the ttl. */
  ghost predicate KeepsMeta(b: Block, c: Block) {
    Meta in c ==> Meta in b && c[Meta] == b[Meta]
  }

  /** The meta key that was there, or a new one: with the next version, and with the given ttl and slot count. */
  ghost predicate MetaSet(b: Block, c: Block, kind: CollKind, ttl: u64, slots: u16) {
    && HasShared(c)
    && if Meta in b then c[Meta] == b[Meta]
       else VersionForNew(b) == Some(c[Meta].version) && c[Meta] == CollMeta(kind, ttl, c[Meta].version, slots)
  }

  lemma MetaIsSet(b: Block, c: Block, kind: CollKind, v: u16, ttl: u64, slots: u16)
    requires WorksOn(b, kind, v) && HasShared(c)
    requires c[Meta] == if Meta in b then b[Meta] else CollMeta(kind, ttl, v, slots)
    ensures MetaSet(b, c, kind, ttl, slots)
  {
  }

  /** A collection would have to be created, and its version is still pending. */
  ghost predicate Exhausted(b: Block, kind: CollKind, now: u64, threshold: nat) {
    var c := Lapsed(b, kind, now, threshold);
    Meta !in c && VersionForNew(c) == None
  }

  datatype Opened = Missing(expired: Option<u64>) | Wrong | Found(ttl: u64, version: u16)

  /** Read the meta key, check type and ttl, and drop an expired collection (its ttl is remembered). */
  method Open(txn: Txn, k: bytes, kind: CollKind, now: u64, threshold: nat) returns (meta: Opened)
    requires CollInv(BlockOf(txn.kv, k))
    modifies txn
    ensures OnlyBlock(old(txn.kv), txn.kv, k)
    ensures CollInv(BlockOf(txn.kv, k)) && Reaches(old(BlockOf(txn.kv, k)), BlockOf(txn.kv, k))
    ensures BlockOf(txn.kv, k) == Lapsed(old(BlockOf(txn.kv, k)), kind, now, threshold)
    ensures meta.Wrong? <==> WrongKind(old(BlockOf(txn.kv, k)), kind)
    ensures meta.Wrong? || meta.Found? || meta == Missing(None) ==> txn.kv == old(txn.kv)
    ensures meta.Missing? ==> old(Visible(BlockOf(txn.kv, k), now)) == map[] && Meta !in BlockOf(txn.kv, k)
    ensures meta.Missing? ==>
              meta.expired == if Meta in old(BlockOf(txn.kv, k)) then Some(old(BlockOf(txn.kv, k)[Meta].ttl)) else None
    ensures meta.Missing? && meta.expired.Some? ==> Expired(meta.expired.value, now)
    ensures meta.Found? ==>
              && HasShared(BlockOf(txn.kv, k)) && !Expired(meta.ttl, now) && BlockOf(txn.kv, k)[Meta].kind == kind
              && BlockOf(txn.kv, k)[Meta].ttl == meta.ttl && BlockOf(txn.kv, k)[Meta].version == meta.version
              && old(Visible(BlockOf(txn.kv, k), now)) == Stored(BlockOf(txn.kv, k))
              && Stored(BlockOf(txn.kv, k)) == Entries(BlockOf(txn.kv, k), meta.version, kind)
  {
    hide BlockOf, VersionInv, Entries, Counted, Reaches;
    ReachesSelf(BlockOf(txn.kv, k));
    var value := txn.Get(Key(k, Meta));
    if value.None? {
      return Missing(None);
    }
    if !(value.value.CollMeta? && value.value.kind == kind) {
      return Wrong;
    }
    if Expired(value.value.ttl, now) {
      DropColl(txn, k, kind, threshold);
      return Missing(Some(value.value.ttl));
    }
    return Found(value.value.ttl, value.value.version);
  }

  datatype Prepared = Refused(error: Error) | Ready(version: u16, isNew: bool, expired: Option<u64>)

  /** The start of the commands that create a missing collection. */
  method Prepare(txn: Txn, k: bytes, kind: CollKind, now: u64, threshold: nat) returns (start: Prepared)
    requires CollInv(BlockOf(txn.kv, k))
    modifies txn
    ensures OnlyBlock(old(txn.kv), txn.kv, k)
    ensures CollInv(BlockOf(txn.kv, k)) && Reaches(old(BlockOf(txn.kv, k)), BlockOf(txn.kv, k))
    ensures start == Refused(WrongType) <==> WrongKind(old(BlockOf(txn.kv, k)), kind)
    ensures start == Refused(WrongType) || (start.Ready? && start.expired.None?) ==> txn.kv == old(txn.kv)
    ensures start == Refused(VersionExhausted) <==> Exhausted(old(BlockOf(txn.kv, k)), kind, now, threshold)
    ensures start.Refused? ==> start.error == WrongType || start.error == VersionExhausted
    ensures start.Refused? ==> Stays(old(BlockOf(txn.kv, k)), BlockOf(txn.kv, k), kind)
    ensures BlockOf(txn.kv, k) == Lapsed(old(BlockOf(txn.kv, k)), kind, now, threshold)
    ensures start.Ready? ==>
              && WorksOn(BlockOf(txn.kv, k), kind, start.version)
              && Counted(BlockOf(txn.kv, k), start.version, kind)
              && Entries(BlockOf(txn.kv, k), start.version, kind) == old(Visible(BlockOf(txn.kv, k), now))
              && (start.isNew <==> Meta !in BlockOf(txn.kv, k))
              && (!start.isNew ==> !Expired(BlockOf(txn.kv, k)[Meta].ttl, now))
              && (start.expired.Some? ==> start.isNew && Expired(start.expired.value, now))
              && (start.expired.Some? || !start.isNew <==> Meta in old(BlockOf(txn.kv, k)))
              && (start.isNew ==> forall s :: Data(start.version, s) !in BlockOf(txn.kv, k))
              && (start.isNew ==>
                    start.expired
                    == if Meta in old(BlockOf(txn.kv, k)) then Some(old(BlockOf(txn.kv, k)[Meta].ttl)) else None)
  {
    hide BlockOf, Entries, Counted, Reaches, VersionInv, NextVersion;
    var meta := Open(txn, k, kind, now, threshold);
    if meta.Wrong? {
      return Refused(WrongType);
    }
    if meta.Found? {
      return Ready(meta.version, false, None);
    }
    var version := GetVersionForNew(txn, k);
    if version.None? {
      return Refused(VersionExhausted);
    }
    FreshVersionEmpty(BlockOf(txn.kv, k), version.value);
    EmptyVersion(BlockOf(txn.kv, k), kind, version.value);
    return Ready(version.value, true, meta.expired);
  }

  lemma EmptyVersion(b: Block, kind: CollKind, v: u16)
    requires forall s :: Data(v, s) !in b
    ensures Counted(b, v, kind) && Entries(b, v, kind) == map[]
  {
    hide Total;
    NoCounters(b, v);
  }

  // ----- single writes -----

  /** Writing a counter changes nothing but the size. */
  lemma CounterWritten(b: Block, v: u16, kind: CollKind, i: u16, n: int)
    requires Shaped(b, v, kind)
    ensures var c := b[Data(v, Counter(i)) := Count(n)];
            Shaped(c, v, kind) && Entries(c, v, kind) == Entries(b, v, kind) && OnlyVersion(b, c, v)
  {
    hide ValidCode, Entries;
    var c := b[Data(v, Counter(i)) := Count(n)];
    EntriesAt(b, v, kind);
    EntriesAt(c, v, kind);
  }

  lemma EmptyIsBare(b: Block, v: u16, kind: CollKind)
    requires Shaped(b, v, kind) && Entries(b, v, kind) == map[]
    ensures forall s :: Data(v, s) in b ==> s.Counter?
  {
    hide ValidCode, Entries;
    EntriesAt(b, v, kind);
    assert forall m :: NamePart(kind, v, m) !in b;
    forall s | Data(v, s) in b ensures s.Counter? {
      var named := NamePart(kind, v, if s.Ranked? then s.member else NameOf(s));
      assert named !in b;
    }
  }

  lemma MetaWritten(b: Block, v: u16, kind: CollKind, meta: Value)
    requires Shaped(b, v, kind)
    ensures var c := b[Meta := meta];
            Shaped(c, v, kind) && Entries(c, v, kind) == Entries(b, v, kind) && Total(c, v) == Total(b, v)
                    && OnlyVersion(b, c, v)
  {
    hide Entries, Total, ValidCode;
    var c := b[Meta := meta];
    EntriesAt(b, v, kind);
    EntriesAt(c, v, kind);
    TotalSame(b, c, v);
  }

  /** After items were added: count them on one counter, and write the meta key if there is none. */
  method Grow(txn: Txn, k: bytes, kind: CollKind, v: u16, idx: u16, added: int, newMeta: Option<Value>,
              ghost base: Block)
    requires VersionInv(base) && WorksOn(base, kind, v) && OnlyVersion(base, BlockOf(txn.kv, k), v)
    requires Meta in BlockOf(txn.kv, k) <==> Meta in base
    requires Meta in base ==> BlockOf(txn.kv, k)[Meta] == base[Meta]
    requires Shaped(BlockOf(txn.kv, k), v, kind) && Entries(BlockOf(txn.kv, k), v, kind) != map[]
    requires Total(BlockOf(txn.kv, k), v) + added == |Entries(BlockOf(txn.kv, k), v, kind)|
    requires newMeta.Some? <==> Meta !in base
    requires newMeta.Some? ==> newMeta.value.CollMeta? && newMeta.value.kind == kind && newMeta.value.version == v
    modifies txn
    ensures OnlyBlock(old(txn.kv), txn.kv, k)
    ensures CollInv(BlockOf(txn.kv, k)) && Reaches(base, BlockOf(txn.kv, k))
    ensures Stored(BlockOf(txn.kv, k)) == old(Entries(BlockOf(txn.kv, k), v, kind))
    ensures HasShared(BlockOf(txn.kv, k)) && BlockOf(txn.kv, k)[Meta] == if newMeta.Some? then newMeta.value
            else base[Meta]
  {
    hide BlockOf, Entries, Total, Shaped, Reaches, OnlyVersion, VersionInv, OnlyBlock;
    ghost var b := BlockOf(txn.kv, k);
    ShapedCounters(b, v, kind);
    CounterWritten(b, v, kind, idx, CountAt(b, v, idx) + added);
    Bump(txn, k, v, idx, added);
    ghost var kv, c := txn.kv, BlockOf(txn.kv, k);
    OnlyVersionTrans(base, b, c, v);
    if newMeta.Some? {
      MetaWritten(c, v, kind, newMeta.value);
      txn.Put(Key(k, Meta), newMeta.value);
      OnlyBlockTrans(old(txn.kv), kv, txn.kv, k);
      OnlyVersionTrans(base, c, BlockOf(txn.kv, k), v);
    }
    Saved(base, BlockOf(txn.kv, k), kind, v);
  }

  /** After items were removed: take them off a counter, or drop what is left of an empty collection. */
  method Shrink(txn: Txn, k: bytes, kind: CollKind, v: u16, idx: u16, removed: nat, size: int, ghost base: Block)
    requires VersionInv(base) && HasShared(base) && WorksOn(base, kind, v) && OnlyVersion(base, BlockOf(txn.kv, k), v)
    requires Meta in BlockOf(txn.kv, k) && BlockOf(txn.kv, k)[Meta] == base[Meta]
    requires Shaped(BlockOf(txn.kv, k), v, kind) && Total(BlockOf(txn.kv, k), v) == size
    requires |Entries(BlockOf(txn.kv, k), v, kind)| == size - removed
    modifies txn
    ensures OnlyBlock(old(txn.kv), txn.kv, k)
    ensures CollInv(BlockOf(txn.kv, k)) && Reaches(base, BlockOf(txn.kv, k))
    ensures Stored(BlockOf(txn.kv, k)) == old(Entries(BlockOf(txn.kv, k), v, kind))
    ensures if removed == size then Meta !in BlockOf(txn.kv, k)
            else Meta in BlockOf(txn.kv, k) && BlockOf(txn.kv, k)[Meta] == base[Meta]
  {
    hide BlockOf, Entries, Total, Reaches, Shaped, VersionInv, OnlyVersion, WorksOn, CollInv, Stored;
    ghost var b := BlockOf(txn.kv, k);
    if removed >= size {
      txn.Delete(Key(k, Meta));
      DeleteFamily(txn, DATA_TYPE_META, k, v);
      EmptyIsBare(b, v, kind);
      BareDropped(base, b, v);
      Dropped(base, BlockOf(txn.kv, k), kind, v);
    } else {
      Grow(txn, k, kind, v, idx, 0 - removed, None, base);
    }
  }

  lemma ShapedCounters(b: Block, v: u16, kind: CollKind)
    requires Shaped(b, v, kind)
    ensures CountersTyped(b, v)
  {
  }

  lemma BareDropped(base: Block, b: Block, v: u16)
    requires OnlyVersion(base, b, v) && forall s :: Data(v, s) in b ==> s.Counter?
    ensures var c := WithoutType(b - {Meta}, DATA_TYPE_META, v);
            OnlyVersion(base, c, v) && forall s :: Data(v, s) !in c
  {
  }
}
