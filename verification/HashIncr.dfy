/**
  HINCRBY. Unlike every other command it does not hand its transaction to the expiry that it
  starts, so outside MULTI an expired hash is dropped by a second transaction that the first
  one does not see.
 */
module HashIncr {
  import opened Bytes
  import opened Codec
  import opened Keys
  import opened Values
  import opened Store
  import opened Gc
  import opened GcWorker
  import opened Counters
  import opened Replies
  import opened Collection
  import opened HashSet

  /**
    HINCRBY on a new field of a live hash, with a counter already stored under the chosen
    index: the code writes that counter back unchanged instead of adding one.
   */
  predicate CountMissed(b: Block, now: u64, field: bytes, idx: u16) {
    && HasShared(b) && b[Meta].kind == Kind.Hash && !Expired(b[Meta].ttl, now)
    && NamePart(Kind.Hash, b[Meta].version, field) !in b && Data(b[Meta].version, Counter(idx)) in b
  }

  function FieldValue(h: map<bytes, Value>, field: bytes): bytes {
    if field in h && h[field].Blob? then h[field].data else []
  }

  /** The counter update for a new field, and the meta key of a new hash. */
  method CountField(txn: Txn, k: bytes, v: u16, idx: u16, newMeta: Option<Value>)
    requires Shaped(BlockOf(txn.kv, k), v, Kind.Hash)
    modifies txn
    ensures OnlyBlock(old(txn.kv), txn.kv, k) && OnlyVersion(old(BlockOf(txn.kv, k)), BlockOf(txn.kv, k), v)
    ensures Shaped(BlockOf(txn.kv, k), v, Kind.Hash)
    ensures Entries(BlockOf(txn.kv, k), v, Kind.Hash) == old(Entries(BlockOf(txn.kv, k), v, Kind.Hash))
    ensures Total(BlockOf(txn.kv, k), v)
            == old(Total(BlockOf(txn.kv, k), v)) + if Data(v, Counter(idx)) in old(BlockOf(txn.kv, k)) then 0 else 1
    ensures newMeta.Some? ==> Meta in BlockOf(txn.kv, k) && BlockOf(txn.kv, k)[Meta] == newMeta.value
    ensures newMeta.None? ==>
              && (Meta in BlockOf(txn.kv, k) <==> Meta in old(BlockOf(txn.kv, k)))
              && (Meta in BlockOf(txn.kv, k) ==> BlockOf(txn.kv, k)[Meta] == old(BlockOf(txn.kv, k)[Meta]))
  {
    hide BlockOf, Entries, Total, Shaped, OnlyVersion, OnlyBlock;
    ghost var b := BlockOf(txn.kv, k);
    ShapedCounters(b, v, Kind.Hash);
    var key := Key(k, Data(v, Counter(idx)));
    var value := txn.Get(key);
    var size := if value.None? then 1 else value.value.n;
    txn.Put(key, Count(size));
    ghost var c, kv := BlockOf(txn.kv, k), txn.kv;
    CounterWritten(b, v, Kind.Hash, idx, size);
    TotalChange(b, c, v, idx);
    if newMeta.Some? {
      MetaWritten(c, v, Kind.Hash, newMeta.value);
      txn.Put(Key(k, Meta), newMeta.value);
      OnlyVersionTrans(b, c, BlockOf(txn.kv, k), v);
      OnlyBlockTrans(old(txn.kv), kv, txn.kv, k);
    }
  }

  /** The field's integer: 0 if there is no field, none if it is no integer. */
  method ReadField(txn: Txn, k: bytes, v: u16, field: bytes, parse: bytes -> Option<int>)
    returns (present: bool, prev: Option<int>)
    requires Shaped(BlockOf(txn.kv, k), v, Kind.Hash)
    ensures var h := Entries(BlockOf(txn.kv, k), v, Kind.Hash);
            (present <==> field in h) && prev == if present then parse(FieldValue(h, field)) else Some(0)
  {
    hide BlockOf, Entries, Shaped;
    EntriesAt(BlockOf(txn.kv, k), v, Kind.Hash);
    ShapedBlob(BlockOf(txn.kv, k), v, field);
    var value := txn.Get(NameKey(k, Kind.Hash, v, field));
    if value.None? {
      return false, Some(0);
    }
    return true, parse(value.value.data);
  }

  /** The part of HINCRBY after the version is settled. */
  method IncrField(txn: Txn, k: bytes, field: bytes, step: int, parse: bytes -> Option<int>, show: int -> bytes,
                   v: u16, idx: u16, newMeta: Option<Value>, ghost b: Block)
    returns (reply: Reply<int>)
    requires b == BlockOf(txn.kv, k) && VersionInv(b) && WorksOn(b, Kind.Hash, v) && Counted(b, v, Kind.Hash)
    requires newMeta.Some? <==> Meta !in b
    requires newMeta.Some? ==> newMeta.value.CollMeta? && newMeta.value.kind == Kind.Hash && newMeta.value.version == v
    requires newMeta.Some? ==> Entries(b, v, Kind.Hash) == map[]
    modifies txn
    ensures OnlyBlock(old(txn.kv), txn.kv, k)
    ensures var h := Entries(b, v, Kind.Hash); var prev := parse(FieldValue(h, field));
            if field in h && prev.None? then reply == Err(NotInteger) && txn.kv == old(txn.kv)
            else
              && reply == Ok((if field in h then prev.value else 0) + step)
              && Stored(BlockOf(txn.kv, k)) == h[field := Blob(show(reply.value))]
              && (CollInv(BlockOf(txn.kv, k)) <==> field in h || Data(v, Counter(idx)) !in b)
              && HasShared(BlockOf(txn.kv, k))
              && BlockOf(txn.kv, k)[Meta] == if newMeta.Some? then newMeta.value else b[Meta]
    ensures Reaches(b, BlockOf(txn.kv, k))
  {
    hide BlockOf, Entries, Total, Shaped, OnlyVersion, VersionInv, OnlyBlock, WorksOn, CollInv, Stored, FieldValue,
         Reaches;
    ghost var h := Entries(b, v, Kind.Hash);
    if Meta in b {
      LiveIsWorked(b, Kind.Hash, v);
    }
    OnlyVersionRefl(b, v);
    OnlyBlockRefl(txn.kv, k);
    ReachesSelf(b);
    var present, prev := ReadField(txn, k, v, field, parse);
    if prev.None? {
      return Err(NotInteger);
    }
    if !present {
      CountField(txn, k, v, idx, newMeta);
    }
    ghost var c, kv := BlockOf(txn.kv, k), txn.kv;
    var n := prev.value + step;
    var x := Blob(show(n));
    NameWritten(c, v, Kind.Hash, field, x);
    txn.Put(NameKey(k, Kind.Hash, v, field), x);
    OnlyBlockTrans(old(txn.kv), kv, txn.kv, k);
    OnlyVersionTrans(b, c, BlockOf(txn.kv, k), v);
    MapSize(h, field, x);
    SizeIsExactIff(b, BlockOf(txn.kv, k), v);
    return Ok(n);
  }

  /**
    What HINCRBY does in one transaction: the value is right in every case, and the size stays
    exact if and only if no count is missed.
   */
  ghost predicate Increments(b: Block, c: Block, field: bytes, step: int, parse: bytes -> Option<int>,
                             show: int -> bytes, idx: u16, now: u64, threshold: nat, reply: Reply<int>)
  {
    var h := Visible(b, now);
    var prev := if field in h then parse(FieldValue(h, field)) else Some(0);
    && Served(Kind.Hash, b, c)
    && (reply == Err(WrongType) <==> WrongKind(b, Kind.Hash))
    && (reply == Err(VersionExhausted) <==> Exhausted(b, Kind.Hash, now, threshold))
    && (reply == Err(NotInteger) <==> !WrongKind(b, Kind.Hash) && prev.None?)
    && (reply.Err? ==> c == Lapsed(b, Kind.Hash, now, threshold))
    && (reply.Ok? ==>
          && prev.Some? && reply == Ok(prev.value + step)
          && Stored(c) == h[field := Blob(show(reply.value))] && TtlOf(c) == TtlOf(b)
          && (CollInv(c) <==> !CountMissed(b, now, field, idx)))
    && (reply.Err? ==> reply.error == WrongType || reply.error == VersionExhausted || reply.error == NotInteger)
  }

  lemma ExhaustedSeesNothing(b: Block, now: u64, threshold: nat)
    ensures Exhausted(b, Kind.Hash, now, threshold) ==> Visible(b, now) == map[]
  {
  }

  method IncrInside(txn: Txn, k: bytes, field: bytes, step: int, parse: bytes -> Option<int>, show: int -> bytes,
                    idx: u16, slots: u16, now: u64, threshold: nat)
    returns (reply: Reply<int>)
    requires CollInv(BlockOf(txn.kv, k))
    modifies txn
    ensures OnlyBlock(old(txn.kv), txn.kv, k)
    ensures Increments(old(BlockOf(txn.kv, k)), BlockOf(txn.kv, k), field, step, parse, show, idx, now, threshold,
                       reply)
  {
    hide BlockOf, Entries, Counted, VersionInv, OnlyBlock, NextVersion, Reaches, WorksOn, Lapsed, Exhausted;
    ExhaustedSeesNothing(BlockOf(txn.kv, k), now, threshold);
    var start := Prepare(txn, k, Kind.Hash, now, threshold);
    if start.Refused? {
      return Err(start.error);
    }
    var Ready(version, isNew, expired) := start;
    ghost var b, kv := BlockOf(txn.kv, k), txn.kv;
    EntriesAt(b, version, Kind.Hash);
    if !isNew {
      LiveIsWorked(b, Kind.Hash, version);
    }
    var ttl := if expired.Some? then expired.value else 0;
    reply := IncrField(txn, k, field, step, parse, show, version, idx,
                       if isNew then Some(CollMeta(Kind.Hash, ttl, version, slots)) else None, b);
    OnlyBlockTrans(old(txn.kv), kv, txn.kv, k);
    ReachesTrans(old(BlockOf(txn.kv, k)), b, BlockOf(txn.kv, k));
  }

  // ----- an expired hash outside MULTI -----

  predicate HasLapsed(b: Block, now: u64) {
    HasShared(b) && b[Meta].kind == Kind.Hash && Expired(b[Meta].ttl, now)
  }

  /** The field, under the version that the snapshot from before the expiry hands out. */
  function OldPart(b: Block, field: bytes): Part {
    NamePart(Kind.Hash, NextVersion(b), field)
  }

  function OldCounter(b: Block, idx: u16): Part {
    Data(NextVersion(b), Counter(idx))
  }

  /** The expiry leaves the data to the gc. */
  ghost predicate Later(b: Block, threshold: nat) {
    |Stored(b)| > threshold
  }

  /**
    An optimistic transaction is refused, and the command starts again, if the expiry changed a
    key that it writes. The one case without such a key: the old field is there, so that only
    its data key is written, and the expiry left that key to the gc.
   */
  ghost predicate Restarts(b: Block, field: bytes, pessimistic: bool, threshold: nat) {
    !pessimistic && !(OldPart(b, field) in b && Later(b, threshold))
  }

  /** What the transaction puts on top of what the expiry left. */
  function Overlaid(b: Block, c: Block, field: bytes, x: Value, idx: u16, slots: u16): Block
    requires HasShared(b)
  {
    if OldPart(b, field) in b then c[OldPart(b, field) := x]
    else
      var n := if OldCounter(b, idx) in b then b[OldCounter(b, idx)] else Count(1);
      c[OldCounter(b, idx) := n][Meta := CollMeta(Kind.Hash, b[Meta].ttl, NextVersion(b), slots)]
      [OldPart(b, field) := x]
  }

  /** The hash that INCR of an absent field creates, and nothing else. */
  ghost predicate Created(c: Block, field: bytes, step: int, show: int -> bytes, reply: Reply<int>) {
    reply == Ok(step) && Stored(c) == map[field := Blob(show(step))] && CollInv(c)
  }

  /**
    When the command does what it should: optimistic, if it starts again; pessimistic, if the
    field is not found and the version is another one, or its data is gone and its counter was 1.
   */
  ghost predicate Clean(b: Block, field: bytes, idx: u16, pessimistic: bool, threshold: nat)
    requires HasShared(b)
  {
    if !pessimistic then Restarts(b, field, pessimistic, threshold)
    else
      && OldPart(b, field) !in b
      && (NextVersion(b) != b[Meta].version
          || (!Later(b, threshold) && (OldCounter(b, idx) in b ==> b[OldCounter(b, idx)] == Count(1))))
  }

  ghost function PrevOf(b: Block, field: bytes, parse: bytes -> Option<int>): Option<int> {
    if OldPart(b, field) in b then parse(if b[OldPart(b, field)].Blob? then b[OldPart(b, field)].data else [])
    else Some(0)
  }

  /** What HINCRBY does to an expired hash in two transactions. */
  ghost predicate Overtaken(b: Block, d: Block, field: bytes, step: int, parse: bytes -> Option<int>,
                            show: int -> bytes, idx: u16, slots: u16, now: u64, threshold: nat, pessimistic: bool,
                            reply: Reply<int>)
    requires HasShared(b)
  {
    var c := Lapsed(b, Kind.Hash, now, threshold);
    var prev := PrevOf(b, field, parse);
    && (if VersionForNew(b) == None then reply == Err(VersionExhausted) && d == c
        else if prev.None? then reply == Err(NotInteger) && d == c
        else if !Restarts(b, field, pessimistic, threshold) then
          && reply == Ok(prev.value + step)
          && d == Overlaid(b, c, field, Blob(show(reply.value)), idx, slots)
        else if VersionForNew(c) == None then reply == Err(VersionExhausted) && d == c
        else Created(d, field, step, show, reply) && TtlOf(d) == 0)
    && (reply.Ok? ==> (Created(d, field, step, show, reply) <==> Clean(b, field, idx, pessimistic, threshold)))
    && (!pessimistic ==> CollInv(d))
  }

  /** Data under the version that the snapshot hands out can only be that of the expired hash. */
  lemma OldIsLive(b: Block, s: Slot)
    requires VersionInv(b) && HasShared(b) && VersionForNew(b).Some? && Data(NextVersion(b), s) in b
    ensures NextVersion(b) == b[Meta].version
  {
    assert Owned(b, NextVersion(b), s);
  }

  lemma OldValues(b: Block, field: bytes, idx: u16)
    requires CollInv(b) && HasShared(b) && b[Meta].kind == Kind.Hash && VersionForNew(b).Some?
    ensures OldPart(b, field) in b ==> b[OldPart(b, field)].Blob? && NextVersion(b) == b[Meta].version
    ensures OldCounter(b, idx) in b ==> b[OldCounter(b, idx)].Count? && NextVersion(b) == b[Meta].version
  {
    hide Entries, Total, VersionInv, NextVersion;
    if OldPart(b, field) in b {
      OldIsLive(b, NameSlot(Kind.Hash, field));
    }
    if OldCounter(b, idx) in b {
      OldIsLive(b, Counter(idx));
    }
  }

  /** What the expiry does to the keys that the other transaction writes. */
  lemma LapsedKeys(b: Block, field: bytes, now: u64, threshold: nat)
    requires CollInv(b) && HasLapsed(b, now) && VersionForNew(b).Some?
    ensures var c := Lapsed(b, Kind.Hash, now, threshold);
            && Meta !in c
            && (OldPart(b, field) in b ==> (OldPart(b, field) in c <==> Later(b, threshold)))
            && (OldPart(b, field) in c ==> OldPart(b, field) in b && c[OldPart(b, field)] == b[OldPart(b, field)])
  {
    hide Entries, Total, VersionInv, NextVersion, Counted;
    OldValues(b, field, 0);
  }

  /** A hash of one field, written over a version without data. */
  lemma OneField(c: Block, v: u16, field: bytes, x: Value, idx: u16, n: int, meta: Value)
    requires VersionInv(c) && Meta !in c && x.Blob? && forall s :: Data(v, s) !in c
    requires meta.CollMeta? && meta.kind == Kind.Hash && meta.version == v
    ensures var d := c[Data(v, Counter(idx)) := Count(n)][Meta := meta][NamePart(Kind.Hash, v, field) := x];
            Stored(d) == map[field := x] && (CollInv(d) <==> n == 1 && GcVersion(v) !in c)
  {
    hide Entries, Total;
    var c1 := c[Data(v, Counter(idx)) := Count(n)];
    var c2 := c1[Meta := meta];
    var d := c2[NamePart(Kind.Hash, v, field) := x];
    EmptyVersion(c, Kind.Hash, v);
    CounterWritten(c, v, Kind.Hash, idx, n);
    TotalChange(c, c1, v, idx);
    MetaWritten(c1, v, Kind.Hash, meta);
    NameWritten(c2, v, Kind.Hash, field, x);
    assert Entries(d, v, Kind.Hash) == map[field := x] && Total(d, v) == n;
    if GcVersion(v) !in c {
      forall w, s | Data(w, s) in d ensures Owned(d, w, s) {
        if w != v {
          assert Data(w, s) in c && Owned(c, w, s);
        }
      }
    }
  }

  /** The exact condition, on blocks. */
  lemma OverlaidIsCreatedIff(b: Block, field: bytes, prev: int, step: int, show: int -> bytes, idx: u16, slots: u16,
                             now: u64, threshold: nat, pessimistic: bool)
    requires CollInv(b) && HasLapsed(b, now) && VersionForNew(b).Some?
    requires !Restarts(b, field, pessimistic, threshold) && (OldPart(b, field) !in b ==> prev == 0)
    ensures var c := Lapsed(b, Kind.Hash, now, threshold);
            var d := Overlaid(b, c, field, Blob(show(prev + step)), idx, slots);
            && (Created(d, field, step, show, Ok(prev + step)) <==> Clean(b, field, idx, pessimistic, threshold))
            && (!pessimistic ==> CollInv(d))
  {
    hide Entries, Total, Counted;
    var c, v, x := Lapsed(b, Kind.Hash, now, threshold), NextVersion(b), Blob(show(prev + step));
    DelRefines(b, Later(b, threshold));
    OldValues(b, field, idx);
    if OldPart(b, field) in b {
      var d := c[OldPart(b, field) := x];
      assert Meta !in d && Stored(d) == map[];
      assert field in map[field := Blob(show(step))];
      if !pessimistic {
        forall w, s | Data(w, s) in d ensures Owned(d, w, s) {
          assert Data(w, s) in b && Owned(b, w, s);
        }
      }
    } else if v != b[Meta].version || !Later(b, threshold) {
      forall s ensures Data(v, s) !in c {
        if Data(v, s) in b {
          OldIsLive(b, s);
          assert Owned(b, v, s);
        }
      }
      OneField(c, v, field, x, idx, if OldCounter(b, idx) in b then b[OldCounter(b, idx)].n else 1,
               CollMeta(Kind.Hash, b[Meta].ttl, v, slots));
    } else {
      var d := Overlaid(b, c, field, x, idx, slots);
      assert HasColl(d) && GcVersion(d[Meta].version) in d;
    }
  }

  /** Whether a key differs between two states of the store. */
  predicate Changed(before: Map, after: Map, key: Key) {
    (key in before) != (key in after) || (key in before && before[key] != after[key])
  }

  /** The writes of the transaction, decided on its own snapshot. */
  method Overlay(txn: Txn, own: Txn, k: bytes, field: bytes, x: Value, v: u16, idx: u16, slots: u16, ghost b: Block)
    requires txn != own && b == BlockOf(own.kv, k) && HasShared(b) && v == NextVersion(b)
    modifies txn
    ensures OnlyBlock(old(txn.kv), txn.kv, k)
    ensures BlockOf(txn.kv, k) == Overlaid(b, old(BlockOf(txn.kv, k)), field, x, idx, slots)
  {
    hide BlockOf, OnlyBlock, NextVersion, NamePart;
    OnlyBlockRefl(txn.kv, k);
    var meta := own.Get(Key(k, Meta));
    var value := own.Get(NameKey(k, Kind.Hash, v, field));
    ghost var kv := txn.kv;
    if value.None? {
      var counter := own.Get(Key(k, Data(v, Counter(idx))));
      txn.Put(Key(k, Data(v, Counter(idx))), if counter.Some? then counter.value else Count(1));
      OnlyBlockTrans(old(txn.kv), kv, txn.kv, k);
      kv := txn.kv;
      txn.Put(Key(k, Meta), CollMeta(Kind.Hash, meta.value.ttl, v, slots));
      OnlyBlockTrans(old(txn.kv), kv, txn.kv, k);
      kv := txn.kv;
    }
    txn.Put(NameKey(k, Kind.Hash, v, field), x);
    OnlyBlockTrans(old(txn.kv), kv, txn.kv, k);
  }

  /**
    The transaction keeps the snapshot from before the expiry, which another transaction
    commits; at its end it writes to the store as the expiry left it, or starts again.
   */
  method IncrAcross(txn: Txn, k: bytes, field: bytes, step: int, parse: bytes -> Option<int>, show: int -> bytes,
                    idx: u16, slots: u16, now: u64, threshold: nat, pessimistic: bool)
    returns (reply: Reply<int>)
    requires CollInv(BlockOf(txn.kv, k)) && HasLapsed(BlockOf(txn.kv, k), now)
    modifies txn
    ensures OnlyBlock(old(txn.kv), txn.kv, k)
    ensures Overtaken(old(BlockOf(txn.kv, k)), BlockOf(txn.kv, k), field, step, parse, show, idx, slots, now,
                      threshold, pessimistic, reply)
  {
    hide BlockOf, Entries, Counted, VersionInv, OnlyBlock, NextVersion, Reaches, Stored, Clean, Restarts, Lapsed,
         CollInv, Created, NamePart, Overlaid;
    ghost var b := BlockOf(txn.kv, k);
    var own := new Txn.Begin(txn.kv);
    LapsedIsDropped(b, now, threshold);
    DropColl(txn, k, Kind.Hash, threshold);
    ghost var c, kv := BlockOf(txn.kv, k), txn.kv;
    CollVersionInv(b);
    var version := GetVersionForNew(own, k);
    if version.None? {
      return Err(VersionExhausted);
    }
    OldValues(b, field, idx);
    LapsedKeys(b, field, now, threshold);
    var dataKey, counterKey := NameKey(k, Kind.Hash, version.value, field), Key(k, Data(version.value, Counter(idx)));
    var value := own.Get(dataKey);
    var prev := if value.Some? then parse(value.value.data) else Some(0);
    if prev.None? {
      return Err(NotInteger);
    }
    var n := prev.value + step;
    var conflict := Changed(own.kv, txn.kv, dataKey)
                    || (value.None? && (Changed(own.kv, txn.kv, counterKey) || Changed(own.kv, txn.kv, Key(k, Meta))));
    InBlockOf(own.kv, k, dataKey.part);
    InBlockOf(txn.kv, k, dataKey.part);
    InBlockOf(own.kv, k, Meta);
    InBlockOf(txn.kv, k, Meta);
    if !pessimistic && conflict {
      RestartsIff(b, field, threshold);
      reply := IncrInside(txn, k, field, step, parse, show, idx, slots, now, threshold);
      OnlyBlockTrans(old(txn.kv), kv, txn.kv, k);
      FreshIncrement(b, c, BlockOf(txn.kv, k), field, step, parse, show, idx, now, threshold, reply);
      return;
    }
    RestartsIff(b, field, threshold);
    Overlay(txn, own, k, field, Blob(show(n)), version.value, idx, slots, b);
    OnlyBlockTrans(old(txn.kv), kv, txn.kv, k);
    OverlaidIsCreatedIff(b, field, prev.value, step, show, idx, slots, now, threshold, pessimistic);
    return Ok(n);
  }

  lemma LapsedIsDropped(b: Block, now: u64, threshold: nat)
    requires HasLapsed(b, now)
    ensures Lapsed(b, Kind.Hash, now, threshold) == Apply(b, Del(|Stored(b)| > threshold)).0
  {
  }

  lemma RestartsIff(b: Block, field: bytes, threshold: nat)
    ensures Restarts(b, field, false, threshold) <==> !(OldPart(b, field) in b && Later(b, threshold))
    ensures !Restarts(b, field, true, threshold)
  {
  }

  /** Started again, the command finds no hash and creates one. */
  lemma FreshIncrement(b: Block, c: Block, d: Block, field: bytes, step: int, parse: bytes -> Option<int>,
                       show: int -> bytes, idx: u16, now: u64, threshold: nat, reply: Reply<int>)
    requires Meta !in c && CollInv(c) && HasShared(b) && Restarts(b, field, false, threshold)
    requires Increments(c, d, field, step, parse, show, idx, now, threshold, reply)
    ensures if VersionForNew(c) == None then reply == Err(VersionExhausted) && d == c
            else Created(d, field, step, show, reply) && TtlOf(d) == 0
    ensures Clean(b, field, idx, false, threshold) && CollInv(d)
  {
    hide Entries, Counted, VersionInv, NextVersion, Reaches;
  }

  /**
    HINCRBY, in MULTI or outside. Outside MULTI an expired hash is overtaken by its own expiry:
    with optimistic transactions the old value is then incremented, and the result lost to the
    gc, exactly if the field was stored under the version that would be handed out next and the
    hash is large enough to be left to the gc.
   */
  method Hincrby(txn: Txn, k: bytes, field: bytes, step: int, parse: bytes -> Option<int>, show: int -> bytes,
                 idx: u16, slots: u16, now: u64, threshold: nat, inMulti: bool, pessimistic: bool)
    returns (reply: Reply<int>)
    requires CollInv(BlockOf(txn.kv, k))
    modifies txn
    ensures OnlyBlock(old(txn.kv), txn.kv, k)
    ensures var b, c := old(BlockOf(txn.kv, k)), BlockOf(txn.kv, k);
            if inMulti || !HasLapsed(b, now) then
              Increments(b, c, field, step, parse, show, idx, now, threshold, reply)
            else Overtaken(b, c, field, step, parse, show, idx, slots, now, threshold, pessimistic, reply)
  {
    hide BlockOf, Increments, Overtaken, CollInv, OnlyBlock;
    if !inMulti {
      var meta := txn.Get(Key(k, Meta));
      if meta.Some? && meta.value.CollMeta? && meta.value.kind == Kind.Hash && Expired(meta.value.ttl, now) {
        reply := IncrAcross(txn, k, field, step, parse, show, idx, slots, now, threshold, pessimistic);
        return;
      }
    }
    reply := IncrInside(txn, k, field, step, parse, show, idx, slots, now, threshold);
  }

  // ----- examples -----

  /** A hash of one field, counted on counter 0. */
  function Single(ttl: u64, field: bytes, data: bytes): Block {
    var empty: Block := map[];
    empty[Data(0, Counter(0)) := Count(1)][Meta := CollMeta(Kind.Hash, ttl, 0, 1)][Data(0, Field(field)) := Blob(data)]
  }

  lemma SingleInv(ttl: u64, field: bytes, data: bytes)
    ensures CollInv(Single(ttl, field, data)) && Stored(Single(ttl, field, data)) == map[field := Blob(data)]
  {
    hide Entries, Total, CollInv, Stored;
    OneField(map[], 0, field, Blob(data), 0, 1, CollMeta(Kind.Hash, ttl, 0, 1));
  }

  /** Incrementing another field on the counter that is there misses the count. */
  lemma CountMissedExample()
    ensures CollInv(Single(0, [1], [1])) && CountMissed(Single(0, [1], [1]), 0, [2], 0)
  {
    hide CollInv, Stored;
    SingleInv(0, [1], [1]);
    var one: bytes, two: bytes := [1], [2];
    assert one[0] != two[0];
  }

  /** Incrementing the one field of an expired hash that is left to the gc increments its old value. */
  lemma OvertakenExample(data: bytes)
    ensures var b := Single(1, [1], data);
            && CollInv(b) && HasLapsed(b, 2) && VersionForNew(b).Some? && OldPart(b, [1]) in b
            && !Clean(b, [1], 0, false, 0)
  {
    hide CollInv, Stored;
    SingleInv(1, [1], data);
    var one: bytes := [1];
    var h: map<bytes, Value> := map[one := Blob(data)];
    assert one in h;
    assert |h| > 0;
  }

  lemma LiveIsWorked(b: Block, kind: CollKind, v: u16)
    requires WorksOn(b, kind, v) && Meta in b
    ensures HasShared(b) && b[Meta].kind == kind && b[Meta].version == v
  {
  }

  lemma MapSize(m: map<bytes, Value>, x: bytes, y: Value)
    ensures |m[x := y]| == if x in m then |m| else |m| + 1
    ensures m[x := y] != map[]
  {
    assert m[x := y].Keys == m.Keys + {x};
    assert |m[x := y]| == |m[x := y].Keys| && |m| == |m.Keys|;
    assert x in m[x := y];
  }

  lemma ShapedBlob(b: Block, v: u16, field: bytes)
    requires Shaped(b, v, Kind.Hash)
    ensures NamePart(Kind.Hash, v, field) in b ==> b[NamePart(Kind.Hash, v, field)].Blob?
  {
  }

  lemma SizeIsExactIff(b: Block, c: Block, v: u16)
    requires VersionInv(b) && WorksOn(b, Kind.Hash, v) && OnlyVersion(b, c, v)
    requires HasShared(c) && c[Meta].kind == Kind.Hash && c[Meta].version == v
    requires Shaped(c, v, Kind.Hash) && Entries(c, v, Kind.Hash) != map[]
    ensures CollInv(c) <==> Total(c, v) == |Entries(c, v, Kind.Hash)|
    ensures Stored(c) == Entries(c, v, Kind.Hash) && Reaches(b, c)
  {
    hide Entries, Total, OnlyVersion, VersionInv, Reaches, WorksOn, Indexed;
    WrittenIsReached(b, c, Kind.Hash, v);
    if Total(c, v) == |Entries(c, v, Kind.Hash)| {
      Saved(b, c, Kind.Hash, v);
    }
  }
}
