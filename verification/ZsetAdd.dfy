/**
  ZADD and ZINCRBY. A sorted set keeps two keys per member, member to score and score to
  member; both commands rewrite them in step. ZADD reads the old scores once, before it
  writes, so a member given twice can go wrong; the exact condition is proved here.
 */
module ZsetAdd {
  import opened Bytes
  import opened Codec
  import opened Keys
  import opened Values
  import opened Store
  import opened Gc
  import opened Counters
  import opened Replies
  import opened Collection
  import opened HashSet

  type Codes = map<bytes, u64>
  type Scoring = (bytes, u64)

  /** The scores of a sorted set, as codes. */
  function CodesOf(entries: map<bytes, Value>): Codes {
    map m | m in entries && entries[m].Code? :: entries[m].code
  }

  // ----- the writes as functions -----

  /** The writes for one member, given the scores read beforehand. */
  function AddOne(b: Block, v: u16, before: Codes, s: Scoring): Block {
    var (m, code) := s;
    var c := b[Data(v, Scored(m)) := Code(code)];
    var d := if m in before && before[m] != code then c - {Data(v, Ranked(before[m], m))} else c;
    d[Data(v, Ranked(code, m)) := Blob(m)]
  }

  function AddAll(b: Block, v: u16, before: Codes, t: seq<Scoring>): Block
    decreases |t|
  {
    if t == [] then b else AddOne(AddAll(b, v, before, t[..|t| - 1]), v, before, t[|t| - 1])
  }

  function LastCode(t: seq<Scoring>, m: bytes): Option<u64> {
    if t == [] then None else if t[|t| - 1].0 == m then Some(t[|t| - 1].1) else LastCode(t[..|t| - 1], m)
  }

  lemma {:induction false} LastCodeGiven(t: seq<Scoring>, m: bytes)
    ensures LastCode(t, m).Some? ==> (m, LastCode(t, m).value) in t
    ensures LastCode(t, m).None? ==> forall i :: 0 <= i < |t| ==> t[i].0 != m
  {
    if t != [] && t[|t| - 1].0 != m {
      LastCodeGiven(t[..|t| - 1], m);
      assert t == t[..|t| - 1] + [t[|t| - 1]];
    }
  }

  // ----- what is stored afterwards -----

  /** The member keys: the last given score, else the old one. */
  lemma {:induction false} AddAllScored(b: Block, v: u16, before: Codes, t: seq<Scoring>, m: bytes)
    ensures var c, last := AddAll(b, v, before, t), LastCode(t, m);
            && (last.Some? ==> Data(v, Scored(m)) in c && c[Data(v, Scored(m))] == Code(last.value))
            && (last.None? ==> (Data(v, Scored(m)) in c <==> Data(v, Scored(m)) in b)
                               && (Data(v, Scored(m)) in b ==> c[Data(v, Scored(m))] == b[Data(v, Scored(m))]))
    decreases |t|
  {
    if t != [] {
      AddAllScored(b, v, before, t[..|t| - 1], m);
    }
  }

  /** Which score keys a member has afterwards. */
  predicate RankedAfter(b: Block, v: u16, before: Codes, t: seq<Scoring>, code: u64, m: bytes) {
    var last := LastCode(t, m);
    if last.None? then Data(v, Ranked(code, m)) in b
    else if m in before && code == before[m] then last == Some(code)
    else (m, code) in t || Data(v, Ranked(code, m)) in b
  }

  lemma {:induction false} AddAllRanked(b: Block, v: u16, before: Codes, t: seq<Scoring>, code: u64, m: bytes)
    requires m in before ==> Data(v, Ranked(before[m], m)) in b
    ensures Data(v, Ranked(code, m)) in AddAll(b, v, before, t) <==> RankedAfter(b, v, before, t, code, m)
    decreases |t|
  {
    if t != [] {
      var init, last := t[..|t| - 1], t[|t| - 1];
      AddAllRanked(b, v, before, init, code, m);
      assert t == init + [last];
      LastCodeGiven(init, m);
    }
  }

  /** Score keys hold their member; nothing else is touched. */
  lemma {:induction false} AddAllRest(b: Block, v: u16, before: Codes, t: seq<Scoring>)
    ensures var c := AddAll(b, v, before, t);
            && (forall code, m :: Data(v, Ranked(code, m)) in c ==>
                  c[Data(v, Ranked(code, m))] == Blob(m)
                  || (Data(v, Ranked(code, m)) in b && c[Data(v, Ranked(code, m))] == b[Data(v, Ranked(code, m))]))
            && (forall p: Part :: !(p.Data? && p.version == v && (p.slot.Scored? || p.slot.Ranked?)) ==>
                  (p in c <==> p in b) && (p in b ==> c[p] == b[p]))
    decreases |t|
  {
    if t != [] {
      AddAllRest(b, v, before, t[..|t| - 1]);
    }
  }

  // ----- when both indexes still agree -----

  /** Every score given for a member is its last given one or its old one. */
  ghost predicate Settles(before: Codes, t: seq<Scoring>) {
    forall i :: 0 <= i < |t| ==>
      Some(t[i].1) == LastCode(t, t[i].0) || (t[i].0 in before && t[i].1 == before[t[i].0])
  }

  lemma IndexedIff(b: Block, v: u16, before: Codes, t: seq<Scoring>)
    requires Indexed(b, v) && before == CodesOf(Entries(b, v, Kind.Zset))
    requires forall i :: 0 <= i < |t| ==> ValidCode(t[i].1)
    ensures Indexed(AddAll(b, v, before, t), v) <==> Settles(before, t)
  {
    hide AddAll, LastCode, Entries, ValidCode, RankedAfter;
    var c := AddAll(b, v, before, t);
    AddAllRest(b, v, before, t);
    BeforeIs(b, v, before);
    forall m ensures Data(v, Scored(m)) in c ==> c[Data(v, Scored(m))].Code? && ValidCode(c[Data(v, Scored(m))].code) {
      AddAllScored(b, v, before, t, m);
      LastCodeGiven(t, m);
    }
    if Settles(before, t) {
      forall code, m
        ensures Data(v, Ranked(code, m)) in c <==> Data(v, Scored(m)) in c && c[Data(v, Scored(m))] == Code(code)
      {
        AgreesAt(b, v, before, t, code, m);
      }
    } else {
      var i :| 0 <= i < |t| && !(Some(t[i].1) == LastCode(t, t[i].0) || (t[i].0 in before && t[i].1 == before[t[i].0]));
      var (m, code) := t[i];
      StaleAt(b, v, before, t, i);
      assert Data(v, Ranked(code, m)) in c && c[Data(v, Scored(m))] != Code(code);
    }
  }

  lemma BeforeIs(b: Block, v: u16, before: Codes)
    requires Indexed(b, v) && before == CodesOf(Entries(b, v, Kind.Zset))
    ensures forall m :: m in before <==> Data(v, Scored(m)) in b
    ensures forall m :: m in before ==> b[Data(v, Scored(m))] == Code(before[m])
    ensures forall code, m :: Data(v, Ranked(code, m)) in b <==> m in before && before[m] == code
  {
    hide Entries, ValidCode;
    EntriesAt(b, v, Kind.Zset);
    forall m ensures m in before <==> Data(v, Scored(m)) in b {
      assert NamePart(Kind.Zset, v, m) == Data(v, Scored(m));
    }
  }

  lemma AgreesAt(b: Block, v: u16, before: Codes, t: seq<Scoring>, code: u64, m: bytes)
    requires Indexed(b, v) && before == CodesOf(Entries(b, v, Kind.Zset)) && Settles(before, t)
    ensures var c := AddAll(b, v, before, t);
            Data(v, Ranked(code, m)) in c <==> Data(v, Scored(m)) in c && c[Data(v, Scored(m))] == Code(code)
  {
    hide AddAll, LastCode, Entries, ValidCode;
    BeforeIs(b, v, before);
    AddAllScored(b, v, before, t, m);
    AddAllRanked(b, v, before, t, code, m);
    LastCodeGiven(t, m);
    if (m, code) in t {
      var i :| 0 <= i < |t| && t[i] == (m, code);
    }
  }

  /** A score that is neither the last nor the old one leaves a stale score key behind. */
  lemma StaleAt(b: Block, v: u16, before: Codes, t: seq<Scoring>, i: nat)
    requires Indexed(b, v) && before == CodesOf(Entries(b, v, Kind.Zset))
    requires i < |t| && Some(t[i].1) != LastCode(t, t[i].0) && !(t[i].0 in before && t[i].1 == before[t[i].0])
    ensures var c, (m, code) := AddAll(b, v, before, t), t[i];
            Data(v, Ranked(code, m)) in c && Data(v, Scored(m)) in c && c[Data(v, Scored(m))] != Code(code)
  {
    hide AddAll, LastCode, Entries, ValidCode;
    var (m, code) := t[i];
    BeforeIs(b, v, before);
    AddAllScored(b, v, before, t, m);
    AddAllRanked(b, v, before, t, code, m);
    LastCodeGiven(t, m);
  }

  // ----- the items and their number -----

  function Scores(t: seq<Scoring>): (items: seq<Item>)
    ensures |items| == |t| && forall i :: 0 <= i < |t| ==> items[i] == (t[i].0, Code(t[i].1))
  {
    seq(|t|, i requires 0 <= i < |t| => (t[i].0, Code(t[i].1)))
  }

  lemma {:induction false} AddAllEntries(b: Block, v: u16, before: Codes, t: seq<Scoring>)
    ensures Entries(AddAll(b, v, before, t), v, Kind.Zset) == Updated(Entries(b, v, Kind.Zset), Scores(t))
    decreases |t|
  {
    hide Entries, AddOne;
    if t != [] {
      var init, last := t[..|t| - 1], t[|t| - 1];
      AddAllEntries(b, v, before, init);
      AddOneEntries(AddAll(b, v, before, init), v, before, last);
      assert Scores(t)[..|t| - 1] == Scores(init);
    }
  }

  lemma AddOneEntries(b: Block, v: u16, before: Codes, s: Scoring)
    ensures Entries(AddOne(b, v, before, s), v, Kind.Zset) == Entries(b, v, Kind.Zset)[s.0 := Code(s.1)]
  {
    hide Entries;
    var c := AddOne(b, v, before, s);
    EntriesAt(b, v, Kind.Zset);
    EntriesAt(c, v, Kind.Zset);
    forall m ensures NamePart(Kind.Zset, v, m) == Data(v, Scored(m)) {
    }
  }

  /** How often the given members are new; a new member given twice counts twice. */
  function NewCount(before: Codes, t: seq<Scoring>): nat {
    if t == [] then 0 else NewCount(before, t[..|t| - 1]) + if t[|t| - 1].0 in before then 0 else 1
  }

  /** How often the given members are new or get another score. */
  function ChangedCount(before: Codes, t: seq<Scoring>): nat {
    if t == [] then 0
    else
      var (m, code) := t[|t| - 1];
      ChangedCount(before, t[..|t| - 1]) + if m in before && before[m] == code then 0 else 1
  }

  /** No new member is given twice. */
  ghost predicate NewOnce(before: Codes, t: seq<Scoring>) {
    forall i, j :: 0 <= i < j < |t| && t[i].0 == t[j].0 ==> t[i].0 in before
  }

  lemma {:induction false} NewCountIff(before: Codes, t: seq<Scoring>)
    ensures var added := Unique(ItemNames(Scores(t))) - before.Keys;
            |added| <= NewCount(before, t) && (|added| == NewCount(before, t) <==> NewOnce(before, t))
  {
    if t != [] {
      var init, m := t[..|t| - 1], t[|t| - 1].0;
      NewCountIff(before, init);
      NewNames(before, t);
      NewOnceSnoc(before, t);
    }
  }

  lemma NewNames(before: Codes, t: seq<Scoring>)
    requires t != []
    ensures var init, m := t[..|t| - 1], t[|t| - 1].0;
            var added, rest := Unique(ItemNames(Scores(t))) - before.Keys,
                    Unique(ItemNames(Scores(init))) - before.Keys;
            added == if m in before then rest else rest + {m}
  {
    hide ItemNames;
    NamesSnoc(Scores(t));
    assert Scores(t)[..|t| - 1] == Scores(t[..|t| - 1]);
  }

  lemma NewOnceSnoc(before: Codes, t: seq<Scoring>)
    requires t != []
    ensures var init, m := t[..|t| - 1], t[|t| - 1].0;
            NewOnce(before, t) <==> NewOnce(before, init) && (m in before || m !in Unique(ItemNames(Scores(init))))
  {
    var init, m := t[..|t| - 1], t[|t| - 1].0;
    var names := ItemNames(Scores(init));
    if m !in before && m in Unique(names) {
      var i :| 0 <= i < |names| && names[i] == m;
      assert t[i].0 == m;
    }
    if NewOnce(before, t) {
      assert forall i :: 0 <= i < |init| ==> init[i] == t[i];
    }
    if NewOnce(before, init) && (m in before || m !in Unique(names)) {
      forall i, j | 0 <= i < j < |t| && t[i].0 == t[j].0 ensures t[i].0 in before {
        if j < |init| {
          assert init[i].0 == init[j].0;
        } else {
          assert names[i] == t[i].0;
        }
      }
    }
  }

  // ----- the exact condition -----

  /** The scorings that keep a sorted set whole. */
  ghost predicate Fits(before: Codes, t: seq<Scoring>) {
    Settles(before, t) && NewOnce(before, t) && (before != map[] || t != [])
  }

  /** Distinct members always fit. */
  lemma DistinctFits(before: Codes, t: seq<Scoring>)
    requires forall i, j :: 0 <= i < j < |t| ==> t[i].0 != t[j].0
    requires before != map[] || t != []
    ensures Fits(before, t)
  {
    forall i | 0 <= i < |t| ensures Some(t[i].1) == LastCode(t, t[i].0) {
      LastCodeGiven(t, t[i].0);
    }
  }

  /** A new member given with two scores does not fit. */
  lemma TwiceDoesNotFit(m: bytes, a: u64, b: u64)
    requires a != b
    ensures !Fits(map[], [(m, a), (m, b)])
  {
    var before: Codes, t := map[], [(m, a), (m, b)];
    assert t[0].0 == t[1].0 && t[0].0 !in before;
  }

  ghost predicate SameScoreKeys(a: Block, c: Block, v: u16) {
    forall p: Part :: p.Data? && p.version == v && (p.slot.Scored? || p.slot.Ranked?) ==>
      (p in a <==> p in c) && (p in a ==> a[p] == c[p])
  }

  /** Two blocks with the same member and score keys have the same index. */
  lemma SameIndex(a: Block, c: Block, v: u16)
    requires SameScoreKeys(a, c, v)
    ensures Indexed(a, v) <==> Indexed(c, v)
    ensures Entries(a, v, Kind.Zset) == Entries(c, v, Kind.Zset)
  {
    hide Entries, Indexed;
    if Indexed(a, v) {
      IndexMoves(a, c, v);
    }
    if Indexed(c, v) {
      IndexMoves(c, a, v);
    }
    EntriesAt(a, v, Kind.Zset);
    EntriesAt(c, v, Kind.Zset);
    forall m ensures NamePart(Kind.Zset, v, m) == Data(v, Scored(m)) {
    }
  }

  lemma IndexMoves(a: Block, c: Block, v: u16)
    requires SameScoreKeys(a, c, v) && Indexed(a, v)
    ensures Indexed(c, v)
  {
    hide ValidCode;
  }

  /** The sorted set is left whole if and only if the scorings fit; the scores are right in every case. */
  lemma ZaddIff(b: Block, c: Block, v: u16, before: Codes, t: seq<Scoring>)
    requires VersionInv(b) && WorksOn(b, Kind.Zset, v) && Counted(b, v, Kind.Zset)
            && before == CodesOf(Entries(b, v, Kind.Zset))
    requires OnlyVersion(b, c, v) && HasShared(c) && c[Meta].kind == Kind.Zset && c[Meta].version == v
    requires forall i :: 0 <= i < |t| ==> ValidCode(t[i].1)
    requires SameScoreKeys(AddAll(b, v, before, t), c, v)
    requires (forall s :: Data(v, s) in c ==> Of(Kind.Zset, s)) && CountersTyped(c, v)
    requires Total(c, v) == Total(b, v) + NewCount(before, t)
    ensures CollInv(c) <==> Fits(before, t)
    ensures Stored(c) == Updated(Entries(b, v, Kind.Zset), Scores(t))
    ensures Reaches(b, c)
  {
    hide Entries, Total, OnlyVersion, VersionInv, Reaches, WorksOn, AddAll, Indexed, Settles, NewOnce, Updated,
         NewCount, CodesOf, ValidCode, SameScoreKeys;
    var e := Entries(b, v, Kind.Zset);
    SameIndex(AddAll(b, v, before, t), c, v);
    IndexedIff(b, v, before, t);
    AddAllEntries(b, v, before, t);
    NewCountIff(before, t);
    AddedSize(b, v, before, t);
    WrittenIsReached(b, c, Kind.Zset, v);
    if Fits(before, t) {
      Saved(b, c, Kind.Zset, v);
    }
  }

  lemma AddedSize(b: Block, v: u16, before: Codes, t: seq<Scoring>)
    requires Indexed(b, v) && before == CodesOf(Entries(b, v, Kind.Zset))
    ensures var e := Entries(b, v, Kind.Zset); var e' := Updated(e, Scores(t));
            && |e'| == |e| + |Unique(ItemNames(Scores(t))) - before.Keys|
            && (e' == map[] <==> before == map[] && t == [])
  {
    hide Entries, Indexed, Updated, ItemNames;
    var e := Entries(b, v, Kind.Zset);
    SameNames(b, v, before);
    UnionSize(e.Keys, Unique(ItemNames(Scores(t))));
    assert |Updated(e, Scores(t))| == |Updated(e, Scores(t)).Keys|;
    if t != [] {
      assert ItemNames(Scores(t))[0] in Updated(e, Scores(t)).Keys;
    }
  }

  lemma SameNames(b: Block, v: u16, before: Codes)
    requires Indexed(b, v) && before == CodesOf(Entries(b, v, Kind.Zset))
    ensures before.Keys == Entries(b, v, Kind.Zset).Keys
  {
    hide Entries;
    BeforeIs(b, v, before);
    EntriesAt(b, v, Kind.Zset);
    forall m ensures NamePart(Kind.Zset, v, m) == Data(v, Scored(m)) {
    }
  }

  // ----- ZADD -----

  type Given = (bytes, Score.f64)

  /** NX takes new members only, XX existing ones only. */
  predicate Accepts(exist: Option<bool>, present: bool) {
    exist.None? || exist.value == present
  }

  /** The scorings that ZADD carries out. */
  function Taken(before: Codes, exist: Option<bool>, given: seq<Given>): (t: seq<Scoring>)
    ensures forall i :: 0 <= i < |t| ==> ValidCode(t[i].1)
  {
    if given == [] then []
    else
      var (m, score) := given[|given| - 1];
      Score.FromToCmp(score);
      Taken(before, exist, given[..|given| - 1]) + if Accepts(exist, m in before) then [(m, Score.ToCmp(score))] else []
  }

  /** The last score given for a member. */
  function LastScore(given: seq<Given>, m: bytes): (last: Option<Score.f64>)
    ensures last.None? ==> forall i :: 0 <= i < |given| ==> given[i].0 != m
    ensures last.Some? ==>
              exists i :: 0 <= i < |given| && given[i] == (m, last.value)
                          && forall j :: i < j < |given| ==> given[j].0 != m
  {
    if given == [] then None
    else if given[|given| - 1].0 == m then
      assert given[|given| - 1] == (m, given[|given| - 1].1);
      Some(given[|given| - 1].1)
    else
      var init := given[..|given| - 1];
      assert forall i :: 0 <= i < |init| ==> init[i] == given[i];
      LastScore(init, m)
  }

  /**
    What ZADD does to the scores: the last score given for a member counts if there is no option,
    if XX is given and the member is stored, or if NX is given and it is not; all else stays.
   */
  ghost predicate Rescored(z: map<bytes, Value>, after: map<bytes, Value>, exist: Option<bool>, given: seq<Given>) {
    forall m :: ScoreIs(z, after, exist, LastScore(given, m), m)
  }

  predicate ScoreIs(z: map<bytes, Value>, after: map<bytes, Value>, exist: Option<bool>, last: Option<Score.f64>,
                    m: bytes)
  {
    if last.Some? && (exist == None || (exist == Some(true) && m in z) || (exist == Some(false) && m !in z)) then
      m in after && after[m] == Code(Score.ToCmp(last.value))
    else (m in after <==> m in z) && (m in z ==> after[m] == z[m])
  }

  /** Where a new member is given and accepted. */
  ghost function NewAt(before: Codes, exist: Option<bool>, given: seq<Given>): set<int> {
    set i | 0 <= i < |given| && exist != Some(true) && given[i].0 !in before
  }

  /** Where a score is given and accepted that the member does not have. */
  ghost function ChangedAt(before: Codes, exist: Option<bool>, given: seq<Given>): set<int> {
    set i | 0 <= i < |given| && (exist == None || exist == Some(given[i].0 in before))
            && !(given[i].0 in before && before[given[i].0] == Score.ToCmp(given[i].1))
  }

  /** What ZADD answers, in terms of what is given. */
  lemma {:induction false} ZaddReply(before: Codes, exist: Option<bool>, given: seq<Given>)
    ensures NewCount(before, Taken(before, exist, given)) == |NewAt(before, exist, given)|
    ensures ChangedCount(before, Taken(before, exist, given)) == |ChangedAt(before, exist, given)|
    decreases |given|
  {
    hide Score.ToCmp, Score.Value, Taken, NewAt, ChangedAt;
    if given == [] {
      NothingGiven(before, exist);
    } else {
      var n := |given| - 1;
      ZaddReply(before, exist, given[..n]);
      TakenNext(before, exist, given, n);
      assert given[..n + 1] == given;
      NewAtNext(before, exist, given);
      ChangedAtNext(before, exist, given);
      var t := Taken(before, exist, given[..n]);
      var x := (given[n].0, Score.ToCmp(given[n].1));
      assert (t + [x])[..|t|] == t && t + [] == t;
    }
  }

  lemma NothingGiven(before: Codes, exist: Option<bool>)
    ensures Taken(before, exist, []) == [] && NewAt(before, exist, []) == {} == ChangedAt(before, exist, [])
  {
  }

  lemma NewAtNext(before: Codes, exist: Option<bool>, given: seq<Given>)
    requires given != []
    ensures var n := |given| - 1;
            |NewAt(before, exist, given)|
            == |NewAt(before, exist, given[..n])| + if exist != Some(true) && given[n].0 !in before then 1 else 0
  {
    var n := |given| - 1;
    assert NewAt(before, exist, given) - {n} == NewAt(before, exist, given[..n]);
  }

  lemma ChangedAtNext(before: Codes, exist: Option<bool>, given: seq<Given>)
    requires given != []
    ensures var n := |given| - 1; var (m, score) := given[n];
            |ChangedAt(before, exist, given)|
            == |ChangedAt(before, exist, given[..n])|
               + if (exist == None || exist == Some(m in before)) && !(m in before && before[m] == Score.ToCmp(score))
                 then 1 else 0
  {
    hide Score.ToCmp, Score.Value;
    var n := |given| - 1;
    assert forall i :: 0 <= i < n ==> given[..n][i] == given[i];
    assert ChangedAt(before, exist, given) - {n} == ChangedAt(before, exist, given[..n]);
  }

  /** What that says of a given member, i being where its last score is given: of NX, of XX, and of neither. */
  lemma RescoredMeans(z: map<bytes, Value>, after: map<bytes, Value>, exist: Option<bool>, given: seq<Given>, i: nat)
    requires Rescored(z, after, exist, given)
    requires i < |given| && forall j :: i < j < |given| ==> given[j].0 != given[i].0
    ensures var (m, score) := given[i];
            var code := Code(Score.ToCmp(score));
            && (exist == None ==> m in after && after[m] == code)
            && (exist == Some(true) ==> if m in z then m in after && after[m] == code else m !in after)
            && (exist == Some(false) ==> m in after && after[m] == if m in z then z[m] else code)
  {
    hide Score.ToCmp, Score.Value;
    assert ScoreIs(z, after, exist, LastScore(given, given[i].0), given[i].0);
  }

  /** And of a member that is not given. */
  lemma RescoredOthers(z: map<bytes, Value>, after: map<bytes, Value>, exist: Option<bool>, given: seq<Given>, m: bytes)
    requires Rescored(z, after, exist, given)
    requires forall i :: 0 <= i < |given| ==> given[i].0 != m
    ensures (m in after <==> m in z) && (m in z ==> after[m] == z[m])
  {
    hide Score.ToCmp, Score.Value;
    assert ScoreIs(z, after, exist, LastScore(given, m), m);
  }

  /** One more given score. */
  lemma TakenOneMore(before: Codes, exist: Option<bool>, given: seq<Given>, z: map<bytes, Value>)
    requires given != []
    ensures var t, s := Taken(before, exist, given[..|given| - 1]), given[|given| - 1];
            Updated(z, Scores(Taken(before, exist, given)))
            == if Accepts(exist, s.0 in before) then Updated(z, Scores(t))[s.0 := Code(Score.ToCmp(s.1))]
               else Updated(z, Scores(t))
  {
    hide Score.ToCmp, Score.Value, Updated, Accepts;
    var n := |given| - 1;
    var t, s := Taken(before, exist, given[..n]), given[n];
    TakenNext(before, exist, given, n);
    assert given[..n + 1] == given;
    if Accepts(exist, s.0 in before) {
      var code := Score.ToCmp(s.1);
      assert Scores(t + [(s.0, code)]) == Scores(t) + [(s.0, Code(code))];
      UpdatedSnoc(z, Scores(t), (s.0, Code(code)));
    } else {
      assert t + [] == t;
    }
  }

  lemma {:induction false} ScoreAfter(z: map<bytes, Value>, before: Codes, exist: Option<bool>, given: seq<Given>,
                                      m: bytes)
    requires before.Keys == z.Keys
    ensures ScoreIs(z, Updated(z, Scores(Taken(before, exist, given))), exist, LastScore(given, m), m)
    decreases |given|
  {
    hide Score.ToCmp, Score.Value, Taken, Updated;
    if given == [] {
      NothingScored(z, before, exist);
    } else {
      ScoreAfter(z, before, exist, given[..|given| - 1], m);
      TakenOneMore(before, exist, given, z);
    }
  }

  lemma NothingScored(z: map<bytes, Value>, before: Codes, exist: Option<bool>)
    ensures Updated(z, Scores(Taken(before, exist, []))) == z
  {
  }

  lemma ZaddMeans(z: map<bytes, Value>, before: Codes, exist: Option<bool>, given: seq<Given>)
    requires before.Keys == z.Keys
    ensures Rescored(z, Updated(z, Scores(Taken(before, exist, given))), exist, given)
  {
    hide Score.ToCmp, Score.Value, Taken, Updated, LastScore, ScoreIs;
    forall m ensures ScoreIs(z, Updated(z, Scores(Taken(before, exist, given))), exist, LastScore(given, m), m) {
      ScoreAfter(z, before, exist, given, m);
    }
  }

  lemma TakenSnoc(before: Codes, t: seq<Scoring>, s: Scoring, b: Block, v: u16)
    ensures AddAll(b, v, before, t + [s]) == AddOne(AddAll(b, v, before, t), v, before, s)
    ensures NewCount(before, t + [s]) == NewCount(before, t) + if s.0 in before then 0 else 1
    ensures ChangedCount(before, t + [s])
            == ChangedCount(before, t) + if s.0 in before && before[s.0] == s.1 then 0 else 1
  {
    assert (t + [s])[..|t|] == t;
  }

  /** Float comparison of a stored and a given score is comparison of their codes. */
  lemma SameScore(code: u64, score: Score.f64)
    requires ValidCode(code)
    ensures Score.Value(Decoded(code)) != Score.Value(score) <==> code != Score.ToCmp(score)
  {
    hide Score.Value, Score.ToCmp;
    Score.ToCmpOrder(Decoded(code), score);
  }

  method WriteScore(txn: Txn, k: bytes, v: u16, m: bytes, score: Score.f64, before: Option<u64>, ghost codes: Codes)
    requires before == (if m in codes then Some(codes[m]) else None) && (before.Some? ==> ValidCode(before.value))
    modifies txn
    ensures OnlyBlock(old(txn.kv), txn.kv, k)
    ensures BlockOf(txn.kv, k) == AddOne(old(BlockOf(txn.kv, k)), v, codes, (m, Score.ToCmp(score)))
  {
    hide BlockOf, ValidCode, Score.Value, Score.ToCmp;
    txn.Put(Key(k, Data(v, Scored(m))), Code(Score.ToCmp(score)));
    if before.Some? {
      SameScore(before.value, score);
      var oldScore := Decoded(before.value);
      if Score.Value(oldScore) != Score.Value(score) {
        txn.Delete(Key(k, Data(v, Ranked(Score.ToCmp(oldScore), m))));
      }
    }
    txn.Put(Key(k, Data(v, Ranked(Score.ToCmp(score), m))), Blob(m));
  }

  method WriteScores(txn: Txn, k: bytes, v: u16, found: Codes, exist: Option<bool>, given: seq<Given>,
                     ghost before: Codes)
    returns (added: nat, updated: nat)
    requires forall i :: 0 <= i < |given| ==> var m := given[i].0;
               (m in found <==> m in before) && (m in found ==> found[m] == before[m] && ValidCode(found[m]))
    modifies txn
    ensures OnlyBlock(old(txn.kv), txn.kv, k)
    ensures var t := Taken(before, exist, given);
            && BlockOf(txn.kv, k) == AddAll(old(BlockOf(txn.kv, k)), v, before, t)
            && added == NewCount(before, t) && updated == ChangedCount(before, t)
  {
    hide BlockOf, ValidCode, Score.Value, Score.ToCmp, AddAll, AddOne, NewCount, ChangedCount, OnlyBlock, Taken;
    ghost var b := BlockOf(txn.kv, k);
    added, updated := 0, 0;
    ghost var t: seq<Scoring> := [];
    OnlyBlockRefl(txn.kv, k);
    NothingTaken(b, v, before, exist);
    for i := 0 to |given|
      invariant OnlyBlock(old(txn.kv), txn.kv, k)
      invariant t == Taken(before, exist, given[..i])
      invariant BlockOf(txn.kv, k) == AddAll(b, v, before, t)
      invariant added == NewCount(before, t) && updated == ChangedCount(before, t)
    {
      var (m, score) := given[i];
      var present := m in found;
      TakenNext(before, exist, given, i);
      if Accepts(exist, present) {
        ghost var kv := txn.kv;
        TakenSnoc(before, t, (m, Score.ToCmp(score)), b, v);
        if present {
          SameScore(found[m], score);
        } else {
          added := added + 1;
        }
        if !present || Score.Value(Decoded(found[m])) != Score.Value(score) {
          updated := updated + 1;
        }
        WriteScore(txn, k, v, m, score, if present then Some(found[m]) else None, before);
        OnlyBlockTrans(old(txn.kv), kv, txn.kv, k);
        t := t + [(m, Score.ToCmp(score))];
      }
    }
    assert given[..|given|] == given;
  }

  lemma NothingTaken(b: Block, v: u16, before: Codes, exist: Option<bool>)
    ensures Taken(before, exist, []) == [] && AddAll(b, v, before, []) == b
    ensures NewCount(before, []) == 0 && ChangedCount(before, []) == 0
  {
  }

  lemma TakenNext(before: Codes, exist: Option<bool>, given: seq<Given>, i: nat)
    requires i < |given|
    ensures Taken(before, exist, given[..i + 1])
            == Taken(before, exist, given[..i])
               + if Accepts(exist, given[i].0 in before) then [(given[i].0, Score.ToCmp(given[i].1))] else []
    ensures given[..0] == []
  {
    hide Score.ToCmp, Score.Value;
    assert given[..i + 1][..i] == given[..i];
  }

  /** The old scores of the given members, by one batch get. */
  method LookUp(txn: Txn, k: bytes, v: u16, members: seq<bytes>) returns (found: Codes)
    requires Indexed(BlockOf(txn.kv, k), v)
    ensures var codes := CodesOf(Entries(BlockOf(txn.kv, k), v, Kind.Zset));
            forall m :: m in members ==> (m in found <==> m in codes) && (m in found ==>
                      found[m] == codes[m]
                      && ValidCode(found[m]))
    ensures forall m :: m in found ==> m in members
  {
    hide BlockOf, Entries, ValidCode, Ascends, KeyLess, NameKeys, Ascending;
    ghost var b := BlockOf(txn.kv, k);
    BeforeIs(b, v, CodesOf(Entries(b, v, Kind.Zset)));
    var keys := NameKeys(k, Kind.Zset, v, members);
    var pairs, asked := txn.BatchGet(keys);
    found := map[];
    forall key | key in asked
      ensures key.part.Data? && key.part.slot.Scored? && key == Key(k, Data(v, Scored(key.part.slot.member)))
      ensures key.part in b && txn.kv[key] == b[key.part] && key.part.slot.member in members
    {
      var i :| 0 <= i < |keys| && keys[i] == key;
      InBlockOf(txn.kv, k, key.part);
    }
    for i := 0 to |pairs|
      invariant forall m :: m in found ==>
                  Data(v, Scored(m)) in b && b[Data(v, Scored(m))] == Code(found[m]) && m in members
      invariant forall j :: 0 <= j < i ==> asked[j].part.slot.member in found
    {
      assert asked[i] in asked;
      found := found[pairs[i].0.part.slot.member := pairs[i].1.code];
    }
    forall m | m in members && Data(v, Scored(m)) in b ensures m in found {
      InBlockOf(txn.kv, k, Data(v, Scored(m)));
      var i :| 0 <= i < |members| && members[i] == m;
      assert keys[i] == NameKey(k, Kind.Zset, v, m) && keys[i] in StoredOf(txn.kv, keys);
      assert keys[i] in asked;
      var j :| 0 <= j < |asked| && asked[j] == keys[i];
    }
  }

  /** What the counter and the meta key add to the writes of the scores. */
  lemma ZaddEnds(b: Block, a: Block, c: Block, v: u16, before: Codes, t: seq<Scoring>)
    requires Shaped(b, v, Kind.Zset) && a == AddAll(b, v, before, t)
    requires OnlyCounters(a, c, v)
    ensures SameScoreKeys(a, c, v)
    ensures OnlyVersion(b, c, v) && forall s :: Data(v, s) in c ==> Of(Kind.Zset, s)
    ensures CountersTyped(a, v) && Total(a, v) == Total(b, v)
  {
    hide AddAll, Total, ValidCode;
    AddAllRest(b, v, before, t);
    TotalSame(b, a, v);
  }

  /** Nothing differs but the meta key and counters. */
  ghost predicate OnlyCounters(a: Block, c: Block, v: u16) {
    forall p: Part :: p != Meta && !(p.Data? && p.version == v && p.slot.Counter?) ==>
      (p in a <==> p in c) && (p in a ==> a[p] == c[p])
  }

  lemma OnlyCountersRefl(a: Block, v: u16)
    ensures OnlyCounters(a, a, v)
  {
  }

  /** Count the new members, and write the meta key of a new sorted set. */
  method FinishAdd(txn: Txn, k: bytes, v: u16, idx: u16, added: nat, newMeta: Option<Value>)
    requires CountersTyped(BlockOf(txn.kv, k), v)
    modifies txn
    ensures OnlyBlock(old(txn.kv), txn.kv, k) && OnlyCounters(old(BlockOf(txn.kv, k)), BlockOf(txn.kv, k), v)
    ensures CountersTyped(BlockOf(txn.kv, k), v)
    ensures Total(BlockOf(txn.kv, k), v) == old(Total(BlockOf(txn.kv, k), v)) + added
    ensures newMeta.Some? ==> Meta in BlockOf(txn.kv, k) && BlockOf(txn.kv, k)[Meta] == newMeta.value
    ensures newMeta.None? ==>
              && (Meta in BlockOf(txn.kv, k) <==> Meta in old(BlockOf(txn.kv, k)))
              && (Meta in BlockOf(txn.kv, k) ==> BlockOf(txn.kv, k)[Meta] == old(BlockOf(txn.kv, k)[Meta]))
  {
    hide BlockOf, Total, OnlyBlock;
    OnlyBlockRefl(txn.kv, k);
    if added > 0 {
      Bump(txn, k, v, idx, added);
    }
    ghost var c, kv := BlockOf(txn.kv, k), txn.kv;
    if newMeta.Some? {
      txn.Put(Key(k, Meta), newMeta.value);
      OnlyBlockTrans(old(txn.kv), kv, txn.kv, k);
      TotalSame(c, BlockOf(txn.kv, k), v);
    }
  }

  /** Write the scores, then the counter and the meta key. */
  method AddScores(txn: Txn, k: bytes, v: u16, exist: Option<bool>, given: seq<Given>, idx: u16,
                   newMeta: Option<Value>, ghost b: Block)
    returns (added: nat, updated: nat)
    requires b == BlockOf(txn.kv, k) && VersionInv(b) && WorksOn(b, Kind.Zset, v) && Counted(b, v, Kind.Zset)
    requires newMeta.Some? <==> Meta !in b
    requires newMeta.Some? ==> newMeta.value.CollMeta? && newMeta.value.kind == Kind.Zset && newMeta.value.version == v
    modifies txn
    ensures OnlyBlock(old(txn.kv), txn.kv, k)
    ensures var before := CodesOf(Entries(b, v, Kind.Zset)); var t := Taken(before, exist, given);
            && added == NewCount(before, t) && updated == ChangedCount(before, t)
            && Stored(BlockOf(txn.kv, k)) == Updated(Entries(b, v, Kind.Zset), Scores(t))
            && Rescored(Entries(b, v, Kind.Zset), Stored(BlockOf(txn.kv, k)), exist, given)
            && (CollInv(BlockOf(txn.kv, k)) <==> Fits(before, t))
    ensures Reaches(b, BlockOf(txn.kv, k))
    ensures HasShared(BlockOf(txn.kv, k)) && BlockOf(txn.kv, k)[Meta] == if newMeta.Some? then newMeta.value
            else b[Meta]
  {
    hide BlockOf, Rescored, Entries, Total, VersionInv, OnlyBlock, NextVersion, AddAll, Indexed, Taken, CodesOf,
         NewCount, ChangedCount, Fits, Updated, CollInv, Stored, Reaches, OnlyVersion, Scores, OnlyCounters,
         SameScoreKeys;
    ghost var before := CodesOf(Entries(b, v, Kind.Zset));
    ghost var t := Taken(before, exist, given);
    var found := LookUp(txn, k, v, ItemNames(given));
    assert forall i :: 0 <= i < |given| ==> given[i].0 == ItemNames(given)[i];
    added, updated := WriteScores(txn, k, v, found, exist, given, before);
    ghost var a, kv := BlockOf(txn.kv, k), txn.kv;
    AddAllKeepsMeta(b, v, before, t);
    OnlyCountersRefl(a, v);
    ZaddEnds(b, a, a, v, before, t);
    FinishAdd(txn, k, v, idx, added, newMeta);
    OnlyBlockTrans(old(txn.kv), kv, txn.kv, k);
    ZaddEnds(b, a, BlockOf(txn.kv, k), v, before, t);
    ZaddIff(b, BlockOf(txn.kv, k), v, before, t);
    SameNames(b, v, before);
    ZaddMeans(Entries(b, v, Kind.Zset), before, exist, given);
  }

  lemma AddAllKeepsMeta(b: Block, v: u16, before: Codes, t: seq<Scoring>)
    ensures Meta in AddAll(b, v, before, t) <==> Meta in b
    ensures Meta in b ==> AddAll(b, v, before, t)[Meta] == b[Meta]
  {
    hide AddAll;
    AddAllRest(b, v, before, t);
  }

  /**
    ZADD. The scores are right in every case; the sorted set is left whole exactly when the
    scorings fit. An expired sorted set is replaced by one with the same ttl.
   */
  method Zadd(txn: Txn, k: bytes, given: seq<Given>, exist: Option<bool>, changedOnly: bool, idx: u16, now: u64,
              threshold: nat)
    returns (reply: Reply<int>)
    requires CollInv(BlockOf(txn.kv, k)) && given != []
    modifies txn
    ensures OnlyBlock(old(txn.kv), txn.kv, k) && Served(Kind.Zset, old(BlockOf(txn.kv, k)), BlockOf(txn.kv, k))
    ensures reply == Err(WrongType) <==> WrongKind(old(BlockOf(txn.kv, k)), Kind.Zset)
    ensures reply == Err(VersionExhausted) <==> Exhausted(old(BlockOf(txn.kv, k)), Kind.Zset, now, threshold)
    ensures reply.Err? ==>
              && (reply.error == WrongType || reply.error == VersionExhausted)
              && BlockOf(txn.kv, k) == Lapsed(old(BlockOf(txn.kv, k)), Kind.Zset, now, threshold)
    ensures var z := old(Visible(BlockOf(txn.kv, k), now));
            var before := CodesOf(z); var t := Taken(before, exist, given);
            reply.Ok? ==>
              if Meta !in old(BlockOf(txn.kv, k)) && exist == Some(true) then reply == Ok(0) && txn.kv == old(txn.kv)
              else
                && reply == Ok(if changedOnly then ChangedCount(before, t) else NewCount(before, t))
                && Stored(BlockOf(txn.kv, k)) == Updated(z, Scores(t))
                && Rescored(z, Stored(BlockOf(txn.kv, k)), exist, given)
                && TtlOf(BlockOf(txn.kv, k)) == old(TtlOf(BlockOf(txn.kv, k)))
                && MetaSet(Lapsed(old(BlockOf(txn.kv, k)), Kind.Zset, now, threshold), BlockOf(txn.kv, k), Kind.Zset,
                           old(TtlOf(BlockOf(txn.kv, k))), 0)
                && (CollInv(BlockOf(txn.kv, k)) <==> Fits(before, t))
  {
    hide BlockOf, MetaSet, Rescored, Lapsed, Exhausted, Entries, Counted, VersionInv, OnlyBlock, NextVersion, Reaches,
         WorksOn, Taken, CodesOf, NewCount, ChangedCount, Fits, Updated, Scores;
    var start := Prepare(txn, k, Kind.Zset, now, threshold);
    if start.Refused? {
      return Err(start.error);
    }
    var Ready(version, isNew, expired) := start;
    var created := isNew && expired.None?;
    if created && exist == Some(true) {
      return Ok(0);
    }
    ghost var b, kv := BlockOf(txn.kv, k), txn.kv;
    var ttl := if expired.Some? then expired.value else 0;
    var added, updated := AddScores(txn, k, version, exist, given, idx,
                                    if isNew then Some(CollMeta(Kind.Zset, ttl, version, 0)) else None, b);
    OnlyBlockTrans(old(txn.kv), kv, txn.kv, k);
    ReachesTrans(old(BlockOf(txn.kv, k)), b, BlockOf(txn.kv, k));
    MetaIsSet(b, BlockOf(txn.kv, k), Kind.Zset, version, old(TtlOf(BlockOf(txn.kv, k))), 0);
    return Ok(if changedOnly then updated else added);
  }

  // ----- ZINCRBY -----

  /** The score that is added to: zero for a new member. */
  function OldScore(codes: Codes, m: bytes): (score: Score.f64)
    requires m in codes ==> ValidCode(codes[m])
    ensures if m in codes then Score.ToCmp(score) == codes[m] else score == 0
  {
    if m in codes then Decoded(codes[m]) else 0
  }

  /** Delete the old score key if there is one, then write both keys: the same as one scoring. */
  method MoveScore(txn: Txn, k: bytes, v: u16, m: bytes, code: u64, before: Option<u64>, ghost codes: Codes)
    requires before == if m in codes then Some(codes[m]) else None
    modifies txn
    ensures OnlyBlock(old(txn.kv), txn.kv, k)
    ensures BlockOf(txn.kv, k) == AddAll(old(BlockOf(txn.kv, k)), v, codes, [(m, code)])
  {
    hide BlockOf;
    ghost var b := BlockOf(txn.kv, k);
    if before.Some? {
      txn.Delete(Key(k, Data(v, Ranked(before.value, m))));
    }
    txn.Put(Key(k, Data(v, Scored(m))), Code(code));
    txn.Put(Key(k, Data(v, Ranked(code, m))), Blob(m));
    ghost var t := [(m, code)];
    assert t[..0] == [];
    assert AddAll(b, v, codes, t) == AddOne(b, v, codes, (m, code));
  }

  /** ZINCRBY; `plus` adds the step to a score. The sorted set is left whole in every case. */
  method Zincrby(txn: Txn, k: bytes, m: bytes, plus: Score.f64 -> Score.f64, idx: u16, now: u64, threshold: nat)
    returns (reply: Reply<Score.f64>)
    requires CollInv(BlockOf(txn.kv, k))
    modifies txn
    ensures OnlyBlock(old(txn.kv), txn.kv, k)
    ensures CollInv(BlockOf(txn.kv, k)) && Served(Kind.Zset, old(BlockOf(txn.kv, k)), BlockOf(txn.kv, k))
    ensures reply == Err(WrongType) <==> WrongKind(old(BlockOf(txn.kv, k)), Kind.Zset)
    ensures reply == Err(VersionExhausted) <==> Exhausted(old(BlockOf(txn.kv, k)), Kind.Zset, now, threshold)
    ensures reply.Err? ==>
              && (reply.error == WrongType || reply.error == VersionExhausted)
              && BlockOf(txn.kv, k) == Lapsed(old(BlockOf(txn.kv, k)), Kind.Zset, now, threshold)
    ensures var z := old(Visible(BlockOf(txn.kv, k), now)); var codes := CodesOf(z);
            reply.Ok? ==>
              && (m in codes ==> ValidCode(codes[m]))
              && reply == Ok(plus(OldScore(codes, m)))
              && Stored(BlockOf(txn.kv, k)) == z[m := Code(Score.ToCmp(reply.value))]
              && TtlOf(BlockOf(txn.kv, k)) == old(TtlOf(BlockOf(txn.kv, k)))
              && MetaSet(Lapsed(old(BlockOf(txn.kv, k)), Kind.Zset, now, threshold), BlockOf(txn.kv, k), Kind.Zset,
                         old(TtlOf(BlockOf(txn.kv, k))), 0)
  {
    hide BlockOf, MetaSet, Lapsed, Exhausted, Entries, Counted, VersionInv, OnlyBlock, NextVersion, Reaches, WorksOn,
         CodesOf, Score.ToCmp, ValidCode;
    var start := Prepare(txn, k, Kind.Zset, now, threshold);
    if start.Refused? {
      return Err(start.error);
    }
    var Ready(version, isNew, expired) := start;
    ghost var b, kv := BlockOf(txn.kv, k), txn.kv;
    var ttl := if expired.Some? then expired.value else 0;
    CollVersionInv(b);
    var score := IncrScore(txn, k, version, m, plus, idx,
                           if isNew then Some(CollMeta(Kind.Zset, ttl, version, 0)) else None, b);
    OnlyBlockTrans(old(txn.kv), kv, txn.kv, k);
    ReachesTrans(old(BlockOf(txn.kv, k)), b, BlockOf(txn.kv, k));
    MetaIsSet(b, BlockOf(txn.kv, k), Kind.Zset, version, old(TtlOf(BlockOf(txn.kv, k))), 0);
    return Ok(score);
  }

  method IncrScore(txn: Txn, k: bytes, v: u16, m: bytes, plus: Score.f64 -> Score.f64, idx: u16,
                   newMeta: Option<Value>, ghost b: Block)
    returns (score: Score.f64)
    requires b == BlockOf(txn.kv, k) && VersionInv(b) && WorksOn(b, Kind.Zset, v) && Counted(b, v, Kind.Zset)
    requires newMeta.Some? <==> Meta !in b
    requires newMeta.Some? ==> newMeta.value.CollMeta? && newMeta.value.kind == Kind.Zset && newMeta.value.version == v
    modifies txn
    ensures OnlyBlock(old(txn.kv), txn.kv, k)
    ensures var codes := CodesOf(Entries(b, v, Kind.Zset));
            && (m in codes ==> ValidCode(codes[m]))
            && score == plus(OldScore(codes, m))
            && Stored(BlockOf(txn.kv, k)) == Entries(b, v, Kind.Zset)[m := Code(Score.ToCmp(score))]
    ensures CollInv(BlockOf(txn.kv, k)) && Reaches(b, BlockOf(txn.kv, k))
    ensures HasShared(BlockOf(txn.kv, k)) && BlockOf(txn.kv, k)[Meta] == if newMeta.Some? then newMeta.value
            else b[Meta]
  {
    hide BlockOf, Entries, Total, VersionInv, OnlyBlock, NextVersion, AddAll, CodesOf, Score.ToCmp, ValidCode, CollInv,
         Stored, Reaches, OnlyVersion, OnlyCounters, SameScoreKeys, Fits, NewCount, Updated, Scores, Indexed,
         Score.Value;
    ghost var codes := CodesOf(Entries(b, v, Kind.Zset));
    BeforeIs(b, v, codes);
    IndexedCode(b, v, m);
    var value := txn.Get(Key(k, Data(v, Scored(m))));
    var before := if value.Some? then Some(value.value.code) else None;
    score := plus(if before.Some? then Decoded(before.value) else 0);
    ghost var t := [(m, Score.ToCmp(score))];
    OneScoring(codes, Entries(b, v, Kind.Zset), m, Score.ToCmp(score));
    Score.FromToCmp(score);
    ValidCodeOf(score);
    MoveScore(txn, k, v, m, Score.ToCmp(score), before, codes);
    ghost var a, kv := BlockOf(txn.kv, k), txn.kv;
    AddAllKeepsMeta(b, v, codes, t);
    OnlyCountersRefl(a, v);
    ZaddEnds(b, a, a, v, codes, t);
    FinishAdd(txn, k, v, idx, if before.Some? then 0 else 1, newMeta);
    OnlyBlockTrans(old(txn.kv), kv, txn.kv, k);
    ZaddEnds(b, a, BlockOf(txn.kv, k), v, codes, t);
    ZaddIff(b, BlockOf(txn.kv, k), v, codes, t);
  }

  lemma IndexedCode(b: Block, v: u16, m: bytes)
    requires Indexed(b, v)
    ensures Data(v, Scored(m)) in b ==> b[Data(v, Scored(m))].Code? && ValidCode(b[Data(v, Scored(m))].code)
  {
  }

  lemma ValidCodeOf(score: Score.f64)
    ensures ValidCode(Score.ToCmp(score))
  {
    hide Score.Value;
    Score.FromToCmp(score);
  }

  lemma OneScoring(codes: Codes, z: map<bytes, Value>, m: bytes, code: u64)
    ensures var t := [(m, code)];
            Fits(codes, t) && NewCount(codes, t) == (if m in codes then 0 else 1)
                    && Updated(z, Scores(t)) == z[m := Code(code)]
  {
    var t := [(m, code)];
    DistinctFits(codes, t);
    assert t[..0] == [] && Scores(t)[..0] == [];
    assert NewCount(codes, t[..0]) == 0;
    assert Updated(z, Scores(t)[..0]) == z;
  }
}
