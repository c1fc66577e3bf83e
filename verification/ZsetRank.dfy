/**
  The order of a sorted set and the commands that read it. The reference is a sequence of
  (score, member) pairs sorted by numeric score and then by member bytes; there is exactly
  one, and the score keys list it.
 */
module ZsetRank {
  import opened Bytes
  import opened Codec
  import opened Keys
  import opened Values
  import opened Store
  import opened Gc
  import opened Counters
  import opened Replies
  import opened Indexes
  import opened Collection
  import opened HashSet
  import opened ZsetAdd

  type Pair = (u64, bytes)

  // ----- the ranking -----

  /** The numeric value of a stored score. */
  function ScoreOf(code: u64): int {
    var x := Score.FromCmp(code);
    if Score.IsNan(x) then 0 else Score.Value(x)
  }

  predicate RankLess(a: Pair, b: Pair) {
    ScoreOf(a.0) < ScoreOf(b.0) || (ScoreOf(a.0) == ScoreOf(b.0) && Less(a.1, b.1))
  }

  ghost predicate InOrder(r: seq<Pair>) {
    forall i, j :: 0 <= i < j < |r| ==> RankLess(r[i], r[j])
  }

  ghost predicate IsRanking(r: seq<Pair>, z: map<bytes, Value>) {
    && InOrder(r)
    && (forall x: Pair :: x in r <==> x.1 in z && z[x.1] == Code(x.0))
    && (forall x: Pair :: x in r ==> ValidCode(x.0))
  }

  lemma ScoreOfCode(code: u64)
    requires ValidCode(code)
    ensures ScoreOf(code) == Score.Value(Decoded(code))
  {
  }

  /** On stored scores, the order of pairs is the order of their score keys. */
  lemma RankOrder(k: bytes, v: u16, a: Pair, b: Pair)
    requires ValidCode(a.0) && ValidCode(b.0)
    ensures RankLess(a, b) <==> KeyLess(Key(k, Data(v, Ranked(a.0, a.1))), Key(k, Data(v, Ranked(b.0, b.1))))
  {
    hide KeyLess, Less, ScoreOf, ValidCode, Score.Value, Score.ToCmp;
    ScoreOfCode(a.0);
    ScoreOfCode(b.0);
    Score.ToCmpOrder(Decoded(a.0), Decoded(b.0));
    RankedOrder(k, v, a.0, a.1, b.0, b.1);
  }

  function RankKey(k: bytes, v: u16, x: Pair): Key {
    Key(k, Data(v, Ranked(x.0, x.1)))
  }

  function RankKeys(k: bytes, v: u16, r: seq<Pair>): (keys: seq<Key>)
    ensures |keys| == |r| && forall i :: 0 <= i < |r| ==> keys[i] == RankKey(k, v, r[i])
  {
    seq(|r|, i requires 0 <= i < |r| => RankKey(k, v, r[i]))
  }

  lemma RankKeysOf(k: bytes, v: u16, r: seq<Pair>)
    ensures forall x: Pair :: x in r <==> RankKey(k, v, x) in RankKeys(k, v, r)
    ensures forall key :: key in RankKeys(k, v, r) ==>
              && key.part.Data? && key.part.slot.Ranked?
              && key == RankKey(k, v, (key.part.slot.code, key.part.slot.member))
  {
    var keys := RankKeys(k, v, r);
    forall x: Pair | x in r ensures RankKey(k, v, x) in keys {
      var i :| 0 <= i < |r| && r[i] == x;
      assert keys[i] == RankKey(k, v, x);
    }
    forall x: Pair | RankKey(k, v, x) in keys ensures x in r {
      var i :| 0 <= i < |r| && keys[i] == RankKey(k, v, x);
      assert r[i] == x;
    }
  }

  /** Sorted pairs make sorted keys. */
  lemma KeysAscend(k: bytes, v: u16, r: seq<Pair>)
    requires InOrder(r) && forall x: Pair :: x in r ==> ValidCode(x.0)
    ensures Ascends(RankKeys(k, v, r))
  {
    hide KeyLess, RankLess, ValidCode;
    forall i, j | 0 <= i < j < |r| ensures KeyLess(RankKey(k, v, r[i]), RankKey(k, v, r[j])) {
      RankOrder(k, v, r[i], r[j]);
    }
  }

  lemma RankKeysInjective(k: bytes, v: u16, r: seq<Pair>, q: seq<Pair>)
    requires RankKeys(k, v, r) == RankKeys(k, v, q)
    ensures r == q
  {
    assert |r| == |RankKeys(k, v, r)| == |q|;
    forall i | 0 <= i < |r| ensures r[i] == q[i] {
      assert RankKeys(k, v, r)[i] == RankKeys(k, v, q)[i];
    }
  }

  /** There is only one way to put pairs in order. */
  lemma SameOrder(q: seq<Pair>, w: seq<Pair>)
    requires InOrder(q) && InOrder(w) && (forall x: Pair :: x in q <==> x in w)
    requires forall x: Pair :: x in q ==> ValidCode(x.0)
    ensures q == w
  {
    hide RankLess, ValidCode, Ascends, InOrder;
    KeysAscend([], 0, q);
    KeysAscend([], 0, w);
    RankKeysOf([], 0, q);
    RankKeysOf([], 0, w);
    var keys := set key | key in RankKeys([], 0, q);
    AscendingUnique(keys, RankKeys([], 0, q));
    AscendingUnique(keys, RankKeys([], 0, w));
    RankKeysInjective([], 0, q, w);
  }

  lemma RankingUnique(r: seq<Pair>, q: seq<Pair>, z: map<bytes, Value>)
    requires IsRanking(r, z) && IsRanking(q, z)
    ensures r == q
  {
    SameOrder(r, q);
  }

  // ----- scans of the score keys -----

  function PairOf(key: Key): Pair {
    if key.part.Data? && key.part.slot.Ranked? then (key.part.slot.code, key.part.slot.member) else (0, [])
  }

  function PairsOf(keys: seq<Key>): (r: seq<Pair>)
    ensures |r| == |keys| && forall i :: 0 <= i < |keys| ==> r[i] == PairOf(keys[i])
  {
    seq(|keys|, i requires 0 <= i < |keys| => PairOf(keys[i]))
  }

  /** The pairs of a set of score keys, in key order, are in rank order. */
  lemma ScannedPairs(kv: Map, k: bytes, v: u16, selected: set<Key>)
    requires Indexed(BlockOf(kv, k), v)
    requires forall key :: key in selected ==>
               key in kv && key.ukey == k && key.part.Data? && key.part.version == v && key.part.slot.Ranked?
    ensures var r := PairsOf(Ascending(selected));
            && Ascending(selected) == RankKeys(k, v, r) && InOrder(r)
            && (forall x: Pair :: x in r <==> RankKey(k, v, x) in selected)
            && (forall x: Pair :: x in r ==> ValidCode(x.0) && kv[RankKey(k, v, x)] == Blob(x.1))
  {
    hide KeyLess, BlockOf, Ascending, RankLess, ValidCode;
    var keys := Ascending(selected);
    var r := PairsOf(keys);
    assert keys == RankKeys(k, v, r) by {
      forall i | 0 <= i < |keys| ensures keys[i] == RankKey(k, v, r[i]) {
        assert keys[i] in keys;
      }
    }
    RankKeysOf(k, v, r);
    forall x: Pair | x in r ensures ValidCode(x.0) && kv[RankKey(k, v, x)] == Blob(x.1) {
      InBlockOf(kv, k, Data(v, Ranked(x.0, x.1)));
    }
    forall i, j | 0 <= i < j < |r| ensures RankLess(r[i], r[j]) {
      assert KeyLess(keys[i], keys[j]) && r[i] in r && r[j] in r;
      RankOrder(k, v, r[i], r[j]);
    }
  }

  /** The score keys of a sorted set, scanned, are its ranking. */
  lemma ScanRanking(kv: Map, k: bytes, v: u16)
    requires Indexed(BlockOf(kv, k), v)
    ensures var keys := Scan(kv, ScoreRange(k, v)); var r := PairsOf(keys);
            && IsRanking(r, Entries(BlockOf(kv, k), v, Kind.Zset)) && keys == RankKeys(k, v, r)
            && |r| == |Entries(BlockOf(kv, k), v, Kind.Zset)|
            && (forall i :: 0 <= i < |r| ==> keys[i] in kv && kv[keys[i]] == Blob(r[i].1))
  {
    hide KeyLess, BlockOf, Ascending, RankLess, ValidCode, Entries, FamilyRange, InOrder;
    var selected := Selected(kv, ScoreRange(k, v));
    var z := Entries(BlockOf(kv, k), v, Kind.Zset);
    forall key ensures key in selected <==>
              key in kv && key.ukey == k && key.part.Data? && key.part.version == v
              && key.part.slot.Ranked? {
      FamilyRangeExact(DATA_TYPE_SCORE, k, v, key);
    }
    ScannedPairs(kv, k, v, selected);
    var r := PairsOf(Ascending(selected));
    RankKeysOf(k, v, r);
    forall x: Pair ensures x in r <==> x.1 in z && z[x.1] == Code(x.0) {
      PairStored(kv, k, v, x);
    }
    EntriesCodes(BlockOf(kv, k), v);
    RankingSize(r, z);
    forall i | 0 <= i < |r| ensures RankKeys(k, v, r)[i] in kv {
      assert r[i] in r;
    }
  }

  lemma EntriesCodes(b: Block, v: u16)
    requires Indexed(b, v)
    ensures forall m :: m in Entries(b, v, Kind.Zset) ==> Entries(b, v, Kind.Zset)[m].Code?
  {
    hide Entries, ValidCode;
    EntriesAt(b, v, Kind.Zset);
    forall m ensures NamePart(Kind.Zset, v, m) == Data(v, Scored(m)) {
    }
  }

  lemma PairStored(kv: Map, k: bytes, v: u16, x: Pair)
    requires Indexed(BlockOf(kv, k), v)
    ensures RankKey(k, v, x) in kv <==> var z := Entries(BlockOf(kv, k), v, Kind.Zset); x.1 in z && z[x.1] == Code(x.0)
  {
    hide BlockOf, ValidCode, Entries;
    EntriesAt(BlockOf(kv, k), v, Kind.Zset);
    InBlockOf(kv, k, Data(v, Ranked(x.0, x.1)));
    assert NamePart(Kind.Zset, v, x.1) == Data(v, Scored(x.1));
  }

  function MembersIn(r: seq<Pair>): (s: seq<bytes>)
    ensures |s| == |r| && forall i :: 0 <= i < |r| ==> s[i] == r[i].1
  {
    seq(|r|, i requires 0 <= i < |r| => r[i].1)
  }

  /** A member has one score, so sorted pairs name distinct members. */
  lemma MembersDistinct(r: seq<Pair>, z: map<bytes, Value>)
    requires InOrder(r) && forall x: Pair :: x in r ==> x.1 in z && z[x.1] == Code(x.0)
    ensures |Unique(MembersIn(r))| == |r|
  {
    hide ScoreOf, Less;
    var s := MembersIn(r);
    forall i, j | 0 <= i < j < |s| ensures s[i] != s[j] {
      assert r[i] in r && r[j] in r && RankLess(r[i], r[j]);
      LessTrichotomy(r[i].1, r[j].1);
    }
    DistinctSize(s);
  }

  lemma RankingSize(r: seq<Pair>, z: map<bytes, Value>)
    requires InOrder(r) && (forall x: Pair :: x in r <==> x.1 in z && z[x.1] == Code(x.0))
    requires forall m :: m in z ==> z[m].Code?
    ensures |r| == |z|
  {
    hide InOrder;
    MembersDistinct(r, z);
    forall m ensures m in Unique(MembersIn(r)) <==> m in z {
      if m in z {
        assert (z[m].code, m) in r;
        var i :| 0 <= i < |r| && r[i] == (z[m].code, m);
        assert MembersIn(r)[i] == m;
      }
      if m in MembersIn(r) {
        var i :| 0 <= i < |r| && MembersIn(r)[i] == m;
        assert r[i] in r;
      }
    }
    assert z.Keys == Unique(MembersIn(r));
    assert |z| == |z.Keys|;
  }

  // ----- score intervals -----

  datatype Interval = Interval(min: Score.f64, minIncluded: bool, max: Score.f64, maxIncluded: bool) {
    predicate Has(code: u64) {
      && (Score.Value(min) < ScoreOf(code) || (minIncluded && Score.Value(min) == ScoreOf(code)))
      && (ScoreOf(code) < Score.Value(max) || (maxIncluded && ScoreOf(code) == Score.Value(max)))
    }

    /** The codes that bound the scan. */
    function Lo(): int {
      if minIncluded then Score.ToCmp(min) else Score.ToCmp(min) + 1
    }

    function Hi(): int {
      if maxIncluded then Score.ToCmp(max) else Score.ToCmp(max) - 1
    }
  }

  /** Moving an excluded bound by one code is exact, and stays in range. */
  lemma IntervalCodes(range: Interval, code: u64)
    requires ValidCode(code)
    ensures 0 <= range.Lo() <= Score.MAX && 0 <= range.Hi() <= Score.MAX
    ensures range.Has(code) <==> range.Lo() <= code <= range.Hi()
  {
    hide Score.Value, Score.ToCmp, ValidCode, ScoreOf;
    ScoreOfCode(code);
    var x := Decoded(code);
    Score.ExclusiveBound(range.min, x);
    Score.ExclusiveBound(range.max, x);
    Score.ToCmpOrder(range.min, x);
    Score.ToCmpOrder(x, range.max);
  }

  /** Which scores an interval has: each bound counts if it is included. */
  lemma IntervalIs(range: Interval, x: Score.f64)
    ensures range.Has(Score.ToCmp(x))
            <==> && (if range.minIncluded then Score.Value(range.min) <= Score.Value(x)
                     else Score.Value(range.min) < Score.Value(x))
                 && (if range.maxIncluded then Score.Value(x) <= Score.Value(range.max)
                     else Score.Value(x) < Score.Value(range.max))
  {
    hide Score.Value, Score.ToCmp, ValidCode, ScoreOf;
    ValidCodeOf(x);
    ScoreOfCode(Score.ToCmp(x));
    Score.ToCmpOrder(x, Decoded(Score.ToCmp(x)));
  }

  /** The pairs of a ranking whose score lies in the interval. */
  function Within(r: seq<Pair>, range: Interval): (q: seq<Pair>)
    ensures forall x: Pair :: x in q <==> x in r && range.Has(x.0)
  {
    if r == [] then []
    else
      var init, last := r[..|r| - 1], r[|r| - 1];
      assert r == init + [last];
      Within(init, range) + if range.Has(last.0) then [last] else []
  }

  lemma {:induction false} WithinInOrder(r: seq<Pair>, range: Interval)
    requires InOrder(r)
    ensures InOrder(Within(r, range))
  {
    hide RankLess;
    if r != [] {
      var init, last := r[..|r| - 1], r[|r| - 1];
      WithinInOrder(init, range);
      var q := Within(init, range);
      forall i | 0 <= i < |q| ensures RankLess(q[i], last) {
        assert q[i] in q;
        var j :| 0 <= j < |init| && init[j] == q[i];
        assert RankLess(r[j], r[|r| - 1]);
      }
    }
  }

  /** The scan between the two bounds returns the part of the ranking inside the interval. */
  lemma ScanInterval(kv: Map, k: bytes, v: u16, range: Interval, r: seq<Pair>)
    requires Indexed(BlockOf(kv, k), v) && IsRanking(r, Entries(BlockOf(kv, k), v, Kind.Zset))
    ensures 0 <= range.Lo() <= Score.MAX && 0 <= range.Hi() <= Score.MAX
    ensures var keys := Scan(kv, ScoreBounds(k, v, range.Lo(), range.Hi()));
            && keys == RankKeys(k, v, Within(r, range))
            && (forall i :: 0 <= i < |keys| ==> keys[i] in kv && kv[keys[i]] == Blob(Within(r, range)[i].1))
  {
    hide KeyLess, BlockOf, Ascending, RankLess, ValidCode, Entries, ScoreBounds, InOrder, Ascends;
    BoundsExist(range);
    var selected := Selected(kv, ScoreBounds(k, v, range.Lo(), range.Hi()));
    forall key ensures key in selected
                       <==> key in kv && key.ukey == k && key.part.Data? && key.part.version == v
                            && key.part.slot.Ranked? && range.Lo() <= key.part.slot.code <= range.Hi()
    {
      ScoreBoundsExact(k, v, range.Lo(), range.Hi(), key);
    }
    ScannedPairs(kv, k, v, selected);
    var q, w := PairsOf(Ascending(selected)), Within(r, range);
    forall x: Pair ensures x in q <==> x in w {
      PairStored(kv, k, v, x);
      if x in q || x in w {
        IntervalCodes(range, x.0);
      }
    }
    WithinInOrder(r, range);
    SameOrder(q, w);
    forall i | 0 <= i < |q| ensures RankKey(k, v, q[i]) in kv && kv[RankKey(k, v, q[i])] == Blob(q[i].1) {
      assert q[i] in q;
    }
  }

  lemma BoundsExist(range: Interval)
    ensures 0 <= range.Lo() <= Score.MAX && 0 <= range.Hi() <= Score.MAX
  {
    hide Score.Value, Score.ToCmp, ValidCode;
    ValidCodeOf(range.min);
    IntervalCodes(range, Score.ToCmp(range.min));
  }

  // ----- replies -----

  datatype Bulk = Name(member: bytes) | ScoreText(score: u64)

  function One(x: Pair, withScores: bool): seq<Bulk> {
    if withScores then [Name(x.1), ScoreText(Score.FromCmp(x.0))] else [Name(x.1)]
  }

  /** Pairs as a flat reply, members only or members with scores. */
  function Flat(r: seq<Pair>, withScores: bool): seq<Bulk> {
    if r == [] then [] else Flat(r[..|r| - 1], withScores) + One(r[|r| - 1], withScores)
  }

  lemma {:induction false} FlatCons(x: Pair, r: seq<Pair>, withScores: bool)
    ensures Flat([x] + r, withScores) == One(x, withScores) + Flat(r, withScores)
    decreases |r|
  {
    if r == [] {
      assert [x] + r == [x];
      var one := [x];
      assert one[..0] == [];
    } else {
      assert ([x] + r)[..|r|] == [x] + r[..|r| - 1];
      FlatCons(x, r[..|r| - 1], withScores);
    }
  }

  /** Entry by entry: the members alone, or each member followed by its score. */
  lemma {:induction false} FlatIs(r: seq<Pair>)
    ensures |Flat(r, false)| == |r| && |Flat(r, true)| == 2 * |r|
    ensures forall i :: 0 <= i < |r| ==> Flat(r, false)[i] == Name(r[i].1)
    ensures forall i :: 0 <= i < |r| ==>
              && Flat(r, true)[2 * i] == Name(r[i].1)
              && Flat(r, true)[2 * i + 1] == ScoreText(Score.FromCmp(r[i].0))
    decreases |r|
  {
    hide Score.FromCmp;
    if r != [] {
      FlatIs(r[..|r| - 1]);
    }
  }

  /** One more pair, at the back or, for a reversed reply, at the front. */
  method AddToReply(resp: seq<Bulk>, member: bytes, code: u64, withScores: bool, reverse: bool) returns (r: seq<Bulk>)
    ensures r == if reverse then One((code, member), withScores) + resp else resp + One((code, member), withScores)
  {
    r := if reverse then [Name(member)] + resp else resp + [Name(member)];
    if withScores {
      var score := Score.FromCmp(code);
      r := if reverse then r[..1] + [ScoreText(score)] + r[1..] else r + [ScoreText(score)];
    }
  }

  /** The pairs of a scan from position `lo` to position `hi`, in order or reversed. */
  method ReplyOf(pairs: seq<(Key, Value)>, min: int, max: int, withScores: bool, reverse: bool, ghost r: seq<Pair>)
    returns (resp: seq<Bulk>)
    requires |pairs| == |r| && forall i :: 0 <= i < |r| ==> PairOf(pairs[i].0) == r[i] && pairs[i].1 == Blob(r[i].1)
    ensures var q := Slice(r, min, max); resp == Flat(if reverse then Reverse(q) else q, withScores)
  {
    hide Reverse, Flat, PairOf;
    resp := [];
    EmptyReply(withScores);
    SliceStart(r, min, max);
    var idx := 0;
    for i := 0 to |pairs|
      invariant idx == i
      invariant resp == Flat(if reverse then Reverse(Slice(r[..i], min, max)) else Slice(r[..i], min, max), withScores)
    {
      SliceNext(r, min, max, i);
      if idx < min {
        idx := idx + 1;
        continue;
      }
      if idx > max {
        SliceDone(r, min, max, i);
        break;
      }
      idx := idx + 1;
      FlatNext(Slice(r[..i], min, max), r[i], withScores);
      resp := AddToReply(resp, pairs[i].1.data, PairOf(pairs[i].0).0, withScores, reverse);
    }
    assert r[..|r|] == r;
  }

  lemma EmptyReply(withScores: bool)
    ensures Flat([], withScores) == [] && Reverse<Pair>([]) == []
  {
  }

  lemma SliceStart(r: seq<Pair>, min: int, max: int)
    ensures Slice(r[..0], min, max) == []
  {
  }

  lemma SliceNext(r: seq<Pair>, min: int, max: int, i: nat)
    requires i < |r|
    ensures Slice(r[..i + 1], min, max) == if min <= i <= max then Slice(r[..i], min, max) + [r[i]]
            else Slice(r[..i], min, max)
  {
  }

  lemma SliceDone(r: seq<Pair>, min: int, max: int, i: nat)
    requires i < |r| && i > max
    ensures Slice(r[..i], min, max) == Slice(r, min, max)
  {
  }

  lemma FlatNext(q: seq<Pair>, x: Pair, withScores: bool)
    ensures Flat(q + [x], withScores) == Flat(q, withScores) + One(x, withScores)
    ensures Flat(Reverse(q + [x]), withScores) == One(x, withScores) + Flat(Reverse(q), withScores)
  {
    assert (q + [x])[..|q|] == q;
    assert Reverse(q + [x]) == [x] + Reverse(q);
    FlatCons(x, Reverse(q), withScores);
  }

  // ----- the reading commands -----

  function Oriented(r: seq<Pair>, reverse: bool): seq<Pair> {
    if reverse then Reverse(r) else r
  }

  method Zrange(txn: Txn, k: bytes, min: i64, max: i64, withScores: bool, reverse: bool, now: u64, threshold: nat)
    returns (reply: Reply<seq<Bulk>>)
    requires CollInv(BlockOf(txn.kv, k))
    modifies txn
    ensures OnlyBlock(old(txn.kv), txn.kv, k)
    ensures CollInv(BlockOf(txn.kv, k)) && Served(Kind.Zset, old(BlockOf(txn.kv, k)), BlockOf(txn.kv, k))
    ensures BlockOf(txn.kv, k) == Lapsed(old(BlockOf(txn.kv, k)), Kind.Zset, now, threshold)
    ensures var z := old(Visible(BlockOf(txn.kv, k), now));
            if WrongKind(old(BlockOf(txn.kv, k)), Kind.Zset) then reply == Err(WrongType) && txn.kv == old(txn.kv)
            else
              && Visible(BlockOf(txn.kv, k), now) == z
              && exists r :: IsRanking(r, z)
                             && reply == Ok(Flat(RedisRange(Oriented(r, reverse), min, max), withScores))
  {
    hide BlockOf, Lapsed, Entries, Counted, Reaches, VersionInv, WorksOn, Total, IsRanking, Flat, Slice,
         Reverse, Scan, FamilyRange, PairOf;
    var meta := Open(txn, k, Kind.Zset, now, threshold);
    if meta.Wrong? {
      return Err(WrongType);
    } else if meta.Missing? {
      EmptyRanking(min, max, Interval(0, true, 0, true), withScores, reverse);
      return Ok([]);
    }
    ghost var b := BlockOf(txn.kv, k);
    LiveVersion(b, Kind.Zset);
    ShapedIndex(b, meta.version);
    ScanRanking(txn.kv, k, meta.version);
    ghost var r := PairsOf(Scan(txn.kv, ScoreRange(k, meta.version)));
    var size := SumKeySize(txn, k, meta.version);
    var lo, hi := Normal(min, size), Normal(max, size);
    ReversedSlice(r, min, max);
    if reverse {
      lo, hi := size - hi - 1, size - lo - 1;
    }
    var pairs := txn.ScanPairs(ScoreRange(k, meta.version));
    var resp := ReplyOf(Take(pairs, size), lo, hi, withScores, reverse, r);
    return Ok(resp);
  }

  lemma ShapedIndex(b: Block, v: u16)
    requires Shaped(b, v, Kind.Zset)
    ensures Indexed(b, v)
  {
  }

  lemma EmptyRanking(min: i64, max: i64, range: Interval, withScores: bool, reverse: bool)
    ensures IsRanking([], map[])
    ensures Flat(RedisRange(Oriented([], reverse), min, max), withScores) == []
    ensures Within([], range) == [] && Flat(Oriented([], reverse), withScores) == []
  {
  }

  method ZrangeByScore(txn: Txn, k: bytes, bounds: Interval, withScores: bool, reverse: bool, now: u64, threshold: nat)
    returns (reply: Reply<seq<Bulk>>)
    requires CollInv(BlockOf(txn.kv, k))
    modifies txn
    ensures OnlyBlock(old(txn.kv), txn.kv, k)
    ensures CollInv(BlockOf(txn.kv, k)) && Served(Kind.Zset, old(BlockOf(txn.kv, k)), BlockOf(txn.kv, k))
    ensures BlockOf(txn.kv, k) == Lapsed(old(BlockOf(txn.kv, k)), Kind.Zset, now, threshold)
    ensures var z := old(Visible(BlockOf(txn.kv, k), now));
            var range := if !reverse then bounds
                         else Interval(bounds.max, bounds.maxIncluded, bounds.min, bounds.minIncluded);
            if WrongKind(old(BlockOf(txn.kv, k)), Kind.Zset) then reply == Err(WrongType) && txn.kv == old(txn.kv)
            else
              && Visible(BlockOf(txn.kv, k), now) == z
              && exists r :: IsRanking(r, z) && reply == Ok(Flat(Oriented(Within(r, range), reverse), withScores))
  {
    hide BlockOf, Lapsed, Entries, Counted, Reaches, VersionInv, WorksOn, Total, IsRanking, Within, Flat, Slice,
         Reverse, Scan, PairOf, FamilyRange, ScoreBounds, Interval.Lo, Interval.Hi, Score.Value;
    var meta := Open(txn, k, Kind.Zset, now, threshold);
    if meta.Wrong? {
      return Err(WrongType);
    } else if meta.Missing? {
      EmptyRanking(0, 0, if reverse then Swapped(bounds) else bounds, withScores, reverse);
      return Ok([]);
    }
    ghost var b := BlockOf(txn.kv, k);
    LiveVersion(b, Kind.Zset);
    ShapedIndex(b, meta.version);
    ScanRanking(txn.kv, k, meta.version);
    ghost var r := PairsOf(Scan(txn.kv, ScoreRange(k, meta.version)));
    var range := if reverse then Swapped(bounds) else bounds;
    if Score.Value(range.min) > Score.Value(range.max) {
      NothingWithin(r, range);
      EmptyRanking(0, 0, range, withScores, reverse);
      return Ok([]);
    }
    var size := SumKeySize(txn, k, meta.version);
    ScanInterval(txn.kv, k, meta.version, range, r);
    WithinSize(r, range);
    var pairs := txn.ScanPairs(ScoreBounds(k, meta.version, range.Lo(), range.Hi()));
    ghost var q := Within(r, range);
    WholeSlice(q);
    RankKeysPairs(k, meta.version, q);
    var resp := ReplyOf(Take(pairs, size), 0, |pairs|, withScores, reverse, q);
    return Ok(resp);
  }

  function Swapped(range: Interval): Interval {
    Interval(range.max, range.maxIncluded, range.min, range.minIncluded)
  }

  lemma {:induction false} NothingWithin(r: seq<Pair>, range: Interval)
    requires Score.Value(range.min) > Score.Value(range.max)
    ensures Within(r, range) == []
  {
    hide Score.Value, ScoreOf;
    if r != [] {
      NothingWithin(r[..|r| - 1], range);
    }
  }

  lemma {:induction false} WithinSize(r: seq<Pair>, range: Interval)
    ensures |Within(r, range)| <= |r|
  {
    if r != [] {
      WithinSize(r[..|r| - 1], range);
    }
  }

  lemma WholeSlice(q: seq<Pair>)
    ensures Slice(q, 0, |q|) == q
  {
  }

  lemma RankKeysPairs(k: bytes, v: u16, q: seq<Pair>)
    ensures forall i :: 0 <= i < |q| ==> PairOf(RankKeys(k, v, q)[i]) == q[i]
  {
  }

  /** ZCOUNT answers an expired sorted set with an empty array, not with zero. */
  datatype CountReply = Number(n: int) | EmptyArray

  method Zcount(txn: Txn, k: bytes, range: Interval, now: u64, threshold: nat) returns (reply: Reply<CountReply>)
    requires CollInv(BlockOf(txn.kv, k))
    modifies txn
    ensures OnlyBlock(old(txn.kv), txn.kv, k)
    ensures CollInv(BlockOf(txn.kv, k)) && Served(Kind.Zset, old(BlockOf(txn.kv, k)), BlockOf(txn.kv, k))
    ensures BlockOf(txn.kv, k) == Lapsed(old(BlockOf(txn.kv, k)), Kind.Zset, now, threshold)
    ensures var z := old(Visible(BlockOf(txn.kv, k), now));
            if WrongKind(old(BlockOf(txn.kv, k)), Kind.Zset) then reply == Err(WrongType) && txn.kv == old(txn.kv)
            else if Meta in old(BlockOf(txn.kv, k)) && Expired(old(TtlOf(BlockOf(txn.kv, k))), now)
                    then reply == Ok(EmptyArray)
            else txn.kv == old(txn.kv) && exists r :: IsRanking(r, z) && reply == Ok(Number(|Within(r, range)|))
  {
    hide BlockOf, Lapsed, Entries, Counted, Reaches, VersionInv, WorksOn, Total, IsRanking, Within, Scan, FamilyRange,
         ScoreBounds,
         Interval.Lo, Interval.Hi, Score.Value;
    var meta := Open(txn, k, Kind.Zset, now, threshold);
    if meta.Wrong? {
      return Err(WrongType);
    } else if meta.Missing? && meta.expired.Some? {
      return Ok(EmptyArray);
    } else if meta.Missing? {
      EmptyRanking(0, 0, range, false, false);
      return Ok(Number(0));
    }
    ghost var b := BlockOf(txn.kv, k);
    LiveVersion(b, Kind.Zset);
    ShapedIndex(b, meta.version);
    ScanRanking(txn.kv, k, meta.version);
    ghost var r := PairsOf(Scan(txn.kv, ScoreRange(k, meta.version)));
    if Score.Value(range.min) > Score.Value(range.max) {
      NothingWithin(r, range);
      return Ok(Number(0));
    }
    ScanInterval(txn.kv, k, meta.version, range, r);
    var pairs := txn.ScanPairs(ScoreBounds(k, meta.version, range.Lo(), range.Hi()));
    return Ok(Number(|pairs|));
  }

  /** How many keys come before the given one. */
  method KeysBefore(keys: seq<Key>, key: Key) returns (rank: nat)
    ensures rank <= |keys| && key !in keys[..rank]
    ensures key in keys ==> rank < |keys| && keys[rank] == key
  {
    rank := 0;
    for i := 0 to |keys|
      invariant rank == i && key !in keys[..i]
    {
      if keys[i] == key {
        break;
      }
      rank := rank + 1;
    }
  }

  /** The position of a member: how many pairs come before its own. */
  method Zrank(txn: Txn, k: bytes, m: bytes, now: u64, threshold: nat) returns (reply: Reply<Option<nat>>)
    requires CollInv(BlockOf(txn.kv, k))
    modifies txn
    ensures OnlyBlock(old(txn.kv), txn.kv, k)
    ensures CollInv(BlockOf(txn.kv, k)) && Served(Kind.Zset, old(BlockOf(txn.kv, k)), BlockOf(txn.kv, k))
    ensures BlockOf(txn.kv, k) == Lapsed(old(BlockOf(txn.kv, k)), Kind.Zset, now, threshold)
    ensures var z := old(Visible(BlockOf(txn.kv, k), now));
            if WrongKind(old(BlockOf(txn.kv, k)), Kind.Zset) then reply == Err(WrongType) && txn.kv == old(txn.kv)
            else
              && Visible(BlockOf(txn.kv, k), now) == z && reply.Ok? && (reply.value.Some? <==> m in z)
              && exists r: seq<Pair> :: IsRanking(r, z) && (m in z ==>
                        reply.value.value < |r|
                        && r[reply.value.value].1 == m)
  {
    hide BlockOf, Lapsed, Entries, Counted, Reaches, VersionInv, WorksOn, Total, RankLess, ValidCode, Scan, FamilyRange,
         Score.ToCmp;
    var meta := Open(txn, k, Kind.Zset, now, threshold);
    if meta.Wrong? {
      return Err(WrongType);
    } else if meta.Missing? {
      EmptyRanking(0, 0, Interval(0, true, 0, true), false, false);
      return Ok(None);
    }
    var version := meta.version;
    ghost var b := BlockOf(txn.kv, k);
    LiveVersion(b, Kind.Zset);
    ShapedIndex(b, version);
    ScanRanking(txn.kv, k, version);
    ghost var r := PairsOf(Scan(txn.kv, ScoreRange(k, version)));
    EntriesAt(b, version, Kind.Zset);
    IndexedCode(b, version, m);
    assert NamePart(Kind.Zset, version, m) == Data(version, Scored(m));
    var value := txn.Get(Key(k, Data(version, Scored(m))));
    if value.None? {
      return Ok(None);
    }
    var score := Decoded(value.value.code);
    var scoreKey := RankKey(k, version, (Score.ToCmp(score), m));
    assert (value.value.code, m) in r;
    var keys := txn.ScanAll(ScoreRange(k, version));
    var rank := KeysBefore(keys, scoreKey);
    RankKeysOf(k, version, r);
    return Ok(Some(rank));
  }
}
