/**
  The commands that remove members of a sorted set: by name, by rank, by score, or from
  either end. All of them delete both keys of each member and keep the sharded size exact.
 */
module ZsetRemove {
  import opened Bytes
  import opened Keys
  import opened Values
  import opened Store
  import opened Gc
  import opened Counters
  import opened Replies
  import opened Indexes
  import opened Collection
  import opened HashSet
  import opened ZsetAdd
  import opened ZsetRank

  // ----- removing pairs -----

  function PairParts(v: u16, r: seq<Pair>): set<Part> {
    (set x | x in r :: Data(v, Ranked(x.0, x.1))) + (set x | x in r :: Data(v, Scored(x.1)))
  }

  ghost predicate Holds(z: map<bytes, Value>, r: seq<Pair>) {
    forall x: Pair :: x in r ==> x.1 in z && z[x.1] == Code(x.0)
  }

  lemma InMembers(r: seq<Pair>, m: bytes)
    ensures m in Unique(MembersIn(r)) <==> exists x: Pair :: x in r && x.1 == m
  {
    if m in MembersIn(r) {
      var i :| 0 <= i < |r| && MembersIn(r)[i] == m;
      assert r[i] in r;
    }
    if x: Pair :| x in r && x.1 == m {
      var i :| 0 <= i < |r| && r[i] == x;
      assert MembersIn(r)[i] == m;
    }
  }

  lemma PairsRemoved(b: Block, v: u16, r: seq<Pair>)
    requires Shaped(b, v, Kind.Zset) && Holds(Entries(b, v, Kind.Zset), r)
    ensures var c := b - PairParts(v, r);
            && Shaped(c, v, Kind.Zset) && Entries(c, v, Kind.Zset) == Entries(b, v, Kind.Zset) - Unique(MembersIn(r))
            && Total(c, v) == Total(b, v) && OnlyVersion(b, c, v)
            && (Meta in c <==> Meta in b) && (Meta in b ==> c[Meta] == b[Meta])
  {
    hide Entries, Total, Indexed, Unique, MembersIn, PairParts;
    var c := b - PairParts(v, r);
    PartsAre(b, v, r);
    IndexShrinks(b, c, v, Unique(MembersIn(r)));
    EntriesAt(b, v, Kind.Zset);
    EntriesAt(c, v, Kind.Zset);
    forall m ensures NamePart(Kind.Zset, v, m) == Data(v, Scored(m)) {
    }
    TotalSame(b, c, v);
  }

  /** The keys of held pairs are all keys of their members. */
  lemma PartsAre(b: Block, v: u16, r: seq<Pair>)
    requires Indexed(b, v) && Holds(Entries(b, v, Kind.Zset), r)
    ensures forall m :: Data(v, Scored(m)) in PairParts(v, r) <==> m in Unique(MembersIn(r))
    ensures forall code, m :: Data(v, Ranked(code, m)) in b ==> (Data(v, Ranked(code, m)) in PairParts(v, r)
            <==> m in Unique(MembersIn(r)))
    ensures forall p :: p in PairParts(v, r) ==> p.Data? && p.version == v && (p.slot.Scored? || p.slot.Ranked?)
  {
    hide Entries, ValidCode, Unique, MembersIn;
    EntriesAt(b, v, Kind.Zset);
    forall m ensures Data(v, Scored(m)) in PairParts(v, r) <==> m in Unique(MembersIn(r)) {
      InMembers(r, m);
    }
    forall code, m | Data(v, Ranked(code, m)) in b
      ensures Data(v, Ranked(code, m)) in PairParts(v, r) <==> m in Unique(MembersIn(r))
    {
      InMembers(r, m);
      assert Data(v, Scored(m)) == NamePart(Kind.Zset, v, m);
    }
  }

  lemma IndexShrinks(b: Block, c: Block, v: u16, gone: set<bytes>)
    requires Indexed(b, v)
    requires forall m :: Data(v, Scored(m)) in c <==> Data(v, Scored(m)) in b && m !in gone
    requires forall m :: Data(v, Scored(m)) in c ==> c[Data(v, Scored(m))] == b[Data(v, Scored(m))]
    requires forall code, m :: Data(v, Ranked(code, m)) in c <==> Data(v, Ranked(code, m)) in b && m !in gone
    requires forall code, m :: Data(v, Ranked(code, m)) in c ==>
               c[Data(v, Ranked(code, m))] == b[Data(v, Ranked(code, m))]
    ensures Indexed(c, v)
  {
    hide ValidCode;
  }

  method DeletePairs(txn: Txn, k: bytes, v: u16, r: seq<Pair>) returns (resp: seq<Bulk>)
    modifies txn
    ensures OnlyBlock(old(txn.kv), txn.kv, k)
    ensures BlockOf(txn.kv, k) == old(BlockOf(txn.kv, k)) - PairParts(v, r)
    ensures resp == Flat(r, true)
  {
    hide BlockOf, OnlyBlock, Flat, PairParts;
    ghost var b := BlockOf(txn.kv, k);
    resp := [];
    OnlyBlockRefl(txn.kv, k);
    NoPairs(b, v);
    for i := 0 to |r|
      invariant OnlyBlock(old(txn.kv), txn.kv, k)
      invariant BlockOf(txn.kv, k) == b - PairParts(v, r[..i])
      invariant resp == Flat(r[..i], true)
    {
      var (code, m) := r[i];
      ghost var kv := txn.kv;
      assert r[..i + 1] == r[..i] + [r[i]];
      FlatNext(r[..i], r[i], true);
      PartsNext(b, v, r[..i], r[i]);
      resp := AddToReply(resp, m, code, true, false);
      txn.Delete(Key(k, Data(v, Scored(m))));
      OnlyBlockTrans(old(txn.kv), kv, txn.kv, k);
      kv := txn.kv;
      txn.Delete(RankKey(k, v, r[i]));
      OnlyBlockTrans(old(txn.kv), kv, txn.kv, k);
    }
    assert r[..|r|] == r;
  }

  lemma NoPairs(b: Block, v: u16)
    ensures b - PairParts(v, []) == b && Flat([], true) == []
  {
  }

  lemma PartsNext(b: Block, v: u16, r: seq<Pair>, x: Pair)
    ensures b - PairParts(v, r + [x]) == b - PairParts(v, r) - {Data(v, Scored(x.1))} - {Data(v, Ranked(x.0, x.1))}
  {
    assert forall y: Pair :: y in r + [x] <==> y in r || y == x;
    assert PairParts(v, r + [x]) == PairParts(v, r) + {Data(v, Scored(x.1))} + {Data(v, Ranked(x.0, x.1))};
  }

  /** Delete pairs that the sorted set holds, and take them off the size. */
  method RemovePairs(txn: Txn, k: bytes, v: u16, r: seq<Pair>, removed: nat, idx: u16, ghost b: Block)
    returns (resp: seq<Bulk>)
    requires b == BlockOf(txn.kv, k) && CollInv(b) && HasShared(b) && b[Meta].kind == Kind.Zset && b[Meta].version == v
    requires Holds(Entries(b, v, Kind.Zset), r) && removed == |Unique(MembersIn(r))|
    modifies txn
    ensures OnlyBlock(old(txn.kv), txn.kv, k) && CollInv(BlockOf(txn.kv, k)) && Reaches(b, BlockOf(txn.kv, k))
    ensures Stored(BlockOf(txn.kv, k)) == Entries(b, v, Kind.Zset) - Unique(MembersIn(r))
    ensures Meta in BlockOf(txn.kv, k) ==> BlockOf(txn.kv, k)[Meta] == b[Meta]
    ensures resp == Flat(r, true)
  {
    hide BlockOf, Entries, Counted, Reaches, VersionInv, WorksOn, Unique, MembersIn, Shaped, Total, OnlyVersion,
         Flat, PairParts, OnlyBlock, Holds;
    LiveVersion(b, Kind.Zset);
    resp := DeletePairs(txn, k, v, r);
    ghost var kv := txn.kv;
    PairsRemoved(b, v, r);
    ShapedCounters(BlockOf(txn.kv, k), v, Kind.Zset);
    var size := SumKeySize(txn, k, v);
    HeldSize(Entries(b, v, Kind.Zset), r);
    Shrink(txn, k, Kind.Zset, v, idx, removed, size, b);
    OnlyBlockTrans(old(txn.kv), kv, txn.kv, k);
  }

  lemma HeldSize(z: map<bytes, Value>, r: seq<Pair>)
    requires Holds(z, r)
    ensures |z - Unique(MembersIn(r))| == |z| - |Unique(MembersIn(r))|
  {
    hide Unique, MembersIn;
    RemovedSize(z, Unique(MembersIn(r)));
    forall m | m in Unique(MembersIn(r)) ensures m in z {
      InMembers(r, m);
    }
    assert Unique(MembersIn(r)) * z.Keys == Unique(MembersIn(r));
  }

  // ----- the commands -----

  /** What a removing command leaves: everything but the given pairs. */
  ghost function Left(z: map<bytes, Value>, q: seq<Pair>): map<bytes, Value> {
    z - Unique(MembersIn(q))
  }

  /** A part of a ranking in order holds distinct members. */
  lemma PartOfRanking(r: seq<Pair>, q: seq<Pair>, z: map<bytes, Value>)
    requires IsRanking(r, z) && (InOrder(q) || InOrder(Reverse(q))) && forall x: Pair :: x in q ==> x in r
    ensures Holds(z, q) && |Unique(MembersIn(q))| == |q|
  {
    hide RankLess, ValidCode, InOrder, Reverse, MembersIn, Unique;
    if InOrder(q) {
      MembersDistinct(q, z);
    } else {
      var p := Reverse(q);
      forall x: Pair ensures x in p <==> x in q {
        InReverse(q, x);
      }
      MembersDistinct(p, z);
      forall m ensures m in Unique(MembersIn(p)) <==> m in Unique(MembersIn(q)) {
        InMembers(p, m);
        InMembers(q, m);
      }
      assert Unique(MembersIn(p)) == Unique(MembersIn(q));
    }
  }

  lemma InReverse(q: seq<Pair>, x: Pair)
    ensures x in Reverse(q) <==> x in q
  {
    hide Reverse;
    var p := Reverse(q);
    if x in q {
      var i :| 0 <= i < |q| && q[i] == x;
      assert p[|q| - 1 - i] == x;
    }
    if x in p {
      var i :| 0 <= i < |p| && p[i] == x;
      assert q[|q| - 1 - i] == x;
    }
  }

  /** What ZPOPMIN and ZPOPMAX take. */
  ghost function Popped(r: seq<Pair>, fromMin: bool, count: nat): seq<Pair> {
    Take(if fromMin then r else Reverse(r), count)
  }

  lemma PoppedPart(r: seq<Pair>, z: map<bytes, Value>, fromMin: bool, count: nat)
    requires IsRanking(r, z)
    ensures var q := Popped(r, fromMin, count); Holds(z, q) && |Unique(MembersIn(q))| == |q|
  {
    hide RankLess, ValidCode, Holds, Reverse;
    var p := if fromMin then r else Reverse(r);
    var q := Take(p, count);
    forall x: Pair | x in q ensures x in r {
      assert x in p;
      InReverse(r, x);
    }
    if !fromMin {
      var s := Reverse(q);
      forall i, j | 0 <= i < j < |s| ensures RankLess(s[i], s[j]) {
        assert s[i] == q[|q| - 1 - i] == p[|q| - 1 - i] == r[|r| - |q| + i];
        assert s[j] == q[|q| - 1 - j] == p[|q| - 1 - j] == r[|r| - |q| + j];
      }
    }
    PartOfRanking(r, q, z);
  }

  method Zpop(txn: Txn, k: bytes, fromMin: bool, count: nat, idx: u16, now: u64, threshold: nat)
    returns (reply: Reply<seq<Bulk>>)
    requires CollInv(BlockOf(txn.kv, k))
    modifies txn
    ensures OnlyBlock(old(txn.kv), txn.kv, k)
    ensures CollInv(BlockOf(txn.kv, k)) && Served(Kind.Zset, old(BlockOf(txn.kv, k)), BlockOf(txn.kv, k))
    ensures KeepsMeta(Lapsed(old(BlockOf(txn.kv, k)), Kind.Zset, now, threshold), BlockOf(txn.kv, k))
    ensures old(Visible(BlockOf(txn.kv, k), now)) == map[] ==>
              BlockOf(txn.kv, k) == Lapsed(old(BlockOf(txn.kv, k)), Kind.Zset, now, threshold)
    ensures var z := old(Visible(BlockOf(txn.kv, k), now));
            if WrongKind(old(BlockOf(txn.kv, k)), Kind.Zset) then reply == Err(WrongType) && txn.kv == old(txn.kv)
            else exists r :: IsRanking(r, z) && reply == Ok(Flat(Popped(r, fromMin, count), true))
                             && Visible(BlockOf(txn.kv, k), now) == Left(z, Popped(r, fromMin, count))
  {
    hide BlockOf, Lapsed, Entries, Counted, Reaches, VersionInv, IsRanking, Flat, Reverse, Scan, FamilyRange, Left,
         Holds, Popped, PairOf, Take;
    var meta := Open(txn, k, Kind.Zset, now, threshold);
    if meta.Wrong? {
      return Err(WrongType);
    } else if meta.Missing? {
      NothingLeft(fromMin, count);
      return Ok([]);
    }
    var version := meta.version;
    ghost var b, kv := BlockOf(txn.kv, k), txn.kv;
    LiveVersion(b, Kind.Zset);
    ShapedIndex(b, version);
    ScanRanking(txn.kv, k, version);
    ghost var r := PairsOf(Scan(txn.kv, ScoreRange(k, version)));
    PoppedPart(r, Entries(b, version, Kind.Zset), fromMin, count);
    var keys;
    if fromMin {
      keys := txn.ScanKeys(ScoreRange(k, version), count);
    } else {
      keys := txn.ScanKeysReverse(ScoreRange(k, version), count);
    }
    PoppedKeys(k, version, r, fromMin, count);
    var q := PairsOf(keys);
    var resp := RemovePairs(txn, k, version, q, |q|, idx, b);
    LeftIs(Entries(b, version, Kind.Zset), q);
    return Ok(resp);
  }

  lemma LeftIs(z: map<bytes, Value>, q: seq<Pair>)
    ensures Left(z, q) == z - Unique(MembersIn(q))
  {
  }

  lemma NothingLeft(fromMin: bool, count: nat)
    ensures IsRanking([], map[]) && Popped([], fromMin, count) == [] && Flat([], true) == [] && Left(map[], []) == map[]
  {
  }

  lemma PoppedKeys(k: bytes, v: u16, r: seq<Pair>, fromMin: bool, count: nat)
    ensures var keys := RankKeys(k, v, r);
            PairsOf(Take(if fromMin then keys else Reverse(keys), count)) == Popped(r, fromMin, count)
  {
    hide Reverse;
  }

  method ZremrangeByRank(txn: Txn, k: bytes, min: i64, max: i64, idx: u16, now: u64, threshold: nat)
    returns (reply: Reply<int>)
    requires CollInv(BlockOf(txn.kv, k))
    modifies txn
    ensures OnlyBlock(old(txn.kv), txn.kv, k)
    ensures CollInv(BlockOf(txn.kv, k)) && Served(Kind.Zset, old(BlockOf(txn.kv, k)), BlockOf(txn.kv, k))
    ensures KeepsMeta(Lapsed(old(BlockOf(txn.kv, k)), Kind.Zset, now, threshold), BlockOf(txn.kv, k))
    ensures old(Visible(BlockOf(txn.kv, k), now)) == map[] ==>
              BlockOf(txn.kv, k) == Lapsed(old(BlockOf(txn.kv, k)), Kind.Zset, now, threshold)
    ensures var z := old(Visible(BlockOf(txn.kv, k), now));
            if WrongKind(old(BlockOf(txn.kv, k)), Kind.Zset) then reply == Err(WrongType) && txn.kv == old(txn.kv)
            else exists r :: IsRanking(r, z) && reply == Ok(|RedisRange(r, min, max)|)
                             && Visible(BlockOf(txn.kv, k), now) == Left(z, RedisRange(r, min, max))
  {
    hide BlockOf, Lapsed, Entries, Counted, Reaches, VersionInv, IsRanking, Flat, Scan, FamilyRange, Left, Holds,
         PairOf, Slice;
    var meta := Open(txn, k, Kind.Zset, now, threshold);
    if meta.Wrong? {
      return Err(WrongType);
    } else if meta.Missing? {
      NothingLeft(true, 0);
      NoRange(min, max);
      return Ok(0);
    }
    var version := meta.version;
    ghost var b, z := BlockOf(txn.kv, k), Entries(BlockOf(txn.kv, k), meta.version, Kind.Zset);
    LiveVersion(b, Kind.Zset);
    ShapedIndex(b, version);
    ScanRanking(txn.kv, k, version);
    ghost var r := PairsOf(Scan(txn.kv, ScoreRange(k, version)));
    var size := SumKeySize(txn, k, version);
    SlicePart(r, z, Normal(min, size), Normal(max, size));
    var pairs := txn.ScanPairs(ScoreRange(k, version));
    var q := Ranks(Take(pairs, size), Normal(min, size), Normal(max, size), r);
    var _ := RemovePairs(txn, k, version, q, |q|, idx, b);
    LeftIs(z, q);
    return Ok(|q|);
  }

  /** The pairs the loop over a scan picks by position. */
  method Ranks(pairs: seq<(Key, Value)>, min: int, max: int, ghost r: seq<Pair>) returns (q: seq<Pair>)
    requires |pairs| == |r| && forall i :: 0 <= i < |r| ==> PairOf(pairs[i].0) == r[i] && pairs[i].1 == Blob(r[i].1)
    ensures q == Slice(r, min, max)
  {
    hide Slice, PairOf;
    q := [];
    SliceStart(r, min, max);
    var idx := 0;
    for i := 0 to |pairs|
      invariant idx == i && q == Slice(r[..i], min, max)
    {
      SliceNext(r, min, max, i);
      if idx < min {
        idx := idx + 1;
        continue;
      }
      if idx > max {
        SliceDone(r, min, max, i);
        break;
      }
      idx := idx + 1;
      q := q + [(PairOf(pairs[i].0).0, pairs[i].1.data)];
    }
    assert r[..|r|] == r;
  }

  lemma SlicePart(r: seq<Pair>, z: map<bytes, Value>, min: int, max: int)
    requires IsRanking(r, z)
    ensures var q := Slice(r, min, max); Holds(z, q) && |Unique(MembersIn(q))| == |q|
  {
    hide RankLess, ValidCode, Holds, Unique, MembersIn;
    PartOfRanking(r, Slice(r, min, max), z);
  }

  lemma NoRange(min: i64, max: i64)
    ensures RedisRange<Pair>([], min, max) == []
  {
  }

  method ZremrangeByScore(txn: Txn, k: bytes, min: Score.f64, max: Score.f64, idx: u16, now: u64, threshold: nat)
    returns (reply: Reply<int>)
    requires CollInv(BlockOf(txn.kv, k))
    modifies txn
    ensures OnlyBlock(old(txn.kv), txn.kv, k)
    ensures CollInv(BlockOf(txn.kv, k)) && Served(Kind.Zset, old(BlockOf(txn.kv, k)), BlockOf(txn.kv, k))
    ensures KeepsMeta(Lapsed(old(BlockOf(txn.kv, k)), Kind.Zset, now, threshold), BlockOf(txn.kv, k))
    ensures old(Visible(BlockOf(txn.kv, k), now)) == map[] ==>
              BlockOf(txn.kv, k) == Lapsed(old(BlockOf(txn.kv, k)), Kind.Zset, now, threshold)
    ensures var z := old(Visible(BlockOf(txn.kv, k), now)); var range := Interval(min, true, max, true);
            if WrongKind(old(BlockOf(txn.kv, k)), Kind.Zset) then reply == Err(WrongType) && txn.kv == old(txn.kv)
            else exists r :: IsRanking(r, z) && reply == Ok(|Within(r, range)|)
                             && Visible(BlockOf(txn.kv, k), now) == Left(z, Within(r, range))
  {
    hide BlockOf, Lapsed, Entries, Counted, Reaches, VersionInv, IsRanking, Flat, Scan, FamilyRange, ScoreBounds, Left,
         Holds, PairOf, Within,
         Score.Value, Interval.Lo, Interval.Hi;
    var range := Interval(min, true, max, true);
    var meta := Open(txn, k, Kind.Zset, now, threshold);
    if meta.Wrong? {
      return Err(WrongType);
    } else if meta.Missing? {
      NothingLeft(true, 0);
      EmptyRanking(0, 0, range, false, false);
      return Ok(0);
    }
    var version := meta.version;
    ghost var b, z := BlockOf(txn.kv, k), Entries(BlockOf(txn.kv, k), meta.version, Kind.Zset);
    LiveVersion(b, Kind.Zset);
    ShapedIndex(b, version);
    ScanRanking(txn.kv, k, version);
    ghost var r := PairsOf(Scan(txn.kv, ScoreRange(k, version)));
    if Score.Value(min) > Score.Value(max) {
      NothingWithin(r, range);
      NoneRemoved(z);
      return Ok(0);
    }
    ScanInterval(txn.kv, k, version, range, r);
    WithinPart(r, z, range);
    RankKeysPairs(k, version, Within(r, range));
    var keys := txn.ScanAll(ScoreBounds(k, version, range.Lo(), range.Hi()));
    var q := PairsOf(keys);
    assert q == Within(r, range);
    var _ := RemovePairs(txn, k, version, q, |q|, idx, b);
    LeftIs(z, q);
    return Ok(|q|);
  }

  lemma WithinPart(r: seq<Pair>, z: map<bytes, Value>, range: Interval)
    requires IsRanking(r, z)
    ensures var q := Within(r, range); Holds(z, q) && |Unique(MembersIn(q))| == |q|
  {
    hide RankLess, ValidCode, Holds, Unique, MembersIn, InOrder;
    WithinInOrder(r, range);
    PartOfRanking(r, Within(r, range), z);
  }

  lemma NoneRemoved(z: map<bytes, Value>)
    ensures Left(z, []) == z
  {
  }

  method Zrem(txn: Txn, k: bytes, members: seq<bytes>, idx: u16, now: u64, threshold: nat) returns (reply: Reply<int>)
    requires CollInv(BlockOf(txn.kv, k))
    modifies txn
    ensures OnlyBlock(old(txn.kv), txn.kv, k)
    ensures CollInv(BlockOf(txn.kv, k)) && Served(Kind.Zset, old(BlockOf(txn.kv, k)), BlockOf(txn.kv, k))
    ensures KeepsMeta(Lapsed(old(BlockOf(txn.kv, k)), Kind.Zset, now, threshold), BlockOf(txn.kv, k))
    ensures old(Visible(BlockOf(txn.kv, k), now)) == map[] ==>
              BlockOf(txn.kv, k) == Lapsed(old(BlockOf(txn.kv, k)), Kind.Zset, now, threshold)
    ensures var z := old(Visible(BlockOf(txn.kv, k), now));
            if WrongKind(old(BlockOf(txn.kv, k)), Kind.Zset) then reply == Err(WrongType) && txn.kv == old(txn.kv)
            else reply == Ok(|Unique(members) * z.Keys|) && Visible(BlockOf(txn.kv, k), now) == z - Unique(members)
  {
    hide BlockOf, Lapsed, Entries, Counted, Reaches, VersionInv, Flat, Holds, Unique, MembersIn, CodesOf;
    var meta := Open(txn, k, Kind.Zset, now, threshold);
    if meta.Wrong? {
      return Err(WrongType);
    } else if meta.Missing? {
      return Ok(0);
    }
    var version := meta.version;
    ghost var b, z := BlockOf(txn.kv, k), Entries(BlockOf(txn.kv, k), meta.version, Kind.Zset);
    LiveVersion(b, Kind.Zset);
    ShapedIndex(b, version);
    var found := LookUp(txn, k, version, members);
    FoundCodes(b, version, members, found);
    var q := Hits(members, found, z);
    var _ := RemovePairs(txn, k, version, q, |found|, idx, b);
    OnlyPresent(z, Unique(members));
    return Ok(|found|);
  }

  /** The pairs of the given members that were found, in the order given. */
  method Hits(members: seq<bytes>, found: Codes, ghost z: map<bytes, Value>) returns (q: seq<Pair>)
    requires forall m :: m in found ==> m in z && z[m] == Code(found[m]) && m in members
    ensures Holds(z, q) && Unique(MembersIn(q)) == found.Keys
  {
    q := [];
    for i := 0 to |members|
      invariant forall x: Pair :: x in q ==> x.1 in found && found[x.1] == x.0
      invariant forall j :: 0 <= j < i && members[j] in found ==> (found[members[j]], members[j]) in q
    {
      if members[i] in found {
        q := q + [(found[members[i]], members[i])];
      }
    }
    forall m ensures m in Unique(MembersIn(q)) <==> m in found.Keys {
      InMembers(q, m);
    }
  }

  lemma FoundCodes(b: Block, v: u16, members: seq<bytes>, found: Codes)
    requires Indexed(b, v)
    requires var codes := CodesOf(Entries(b, v, Kind.Zset));
             && (forall m :: m in members ==> (m in found <==> m in codes) && (m in found ==> found[m] == codes[m]))
             && (forall m :: m in found ==> m in members)
    ensures var z := Entries(b, v, Kind.Zset);
            && (forall m :: m in found ==> m in z && z[m] == Code(found[m]) && m in members)
            && found.Keys == Unique(members) * z.Keys && |found| == |found.Keys|
  {
    hide Entries, ValidCode;
    SameNames(b, v, CodesOf(Entries(b, v, Kind.Zset)));
  }
}
