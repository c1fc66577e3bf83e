/**
  The key space. Every TiKV key the server writes for user data belongs to one user key
  and is one of nine parts of it. `Encode` is the byte string that goes to TiKV; ranges
  are pairs of byte strings, and what a range selects is decided on the bytes.
 */
module Keys {
  import opened Bytes
  import opened Codec

  const TXN_KEY_PREFIX: byte := 0x78      // 'x'
  const DATA_TYPE_USER: byte := 0x75      // 'u'
  const DATA_TYPE_USER_END: byte := 0x76  // 'v'
  const DATA_TYPE_GC: byte := 0x67        // 'g'
  const DATA_TYPE_GC_VERSION: byte := 0x76 // 'v'
  const DATA_TYPE_META: byte := 0x6D      // 'm'
  const DATA_TYPE_SCORE: byte := 0x53     // 'S'
  const DATA_TYPE_HASH: byte := 0x68      // 'h'
  const DATA_TYPE_LIST: byte := 0x6C      // 'l'
  const DATA_TYPE_SET: byte := 0x73       // 's'
  const DATA_TYPE_ZSET: byte := 0x7A      // 'z'
  const PLACE_HOLDER: byte := 0x60        // '`'

  /** One item of a collection's contents, whatever version it is stored under. */
  datatype Slot =
    | Counter(shard: u16)               // sub meta key
    | Field(field: bytes)               // hash
    | Elem(idx: u64)                    // list
    | Member(member: bytes)             // set
    | Scored(member: bytes)             // sorted set: member to score
    | Ranked(code: u64, member: bytes)  // sorted set: score to member

  datatype Part =
    | Meta
    | Data(version: u16, slot: Slot)
    | Gc
    | GcVersion(version: u16)
  {
    /** Parts stored under the user-data prefix, the part of the key space that SCAN walks. */
    predicate User() {
      Meta? || Data?
    }
  }

  datatype Key = Key(ukey: bytes, part: Part)

  function DataType(s: Slot): byte {
    match s
    case Counter(_) => DATA_TYPE_META
    case Field(_) => DATA_TYPE_HASH
    case Elem(_) => DATA_TYPE_LIST
    case Member(_) => DATA_TYPE_SET
    case Scored(_) => DATA_TYPE_ZSET
    case Ranked(_, _) => DATA_TYPE_SCORE
  }

  /** What follows version and place holder in a data key. */
  function Suffix(s: Slot): bytes {
    match s
    case Counter(i) => Be16(i)
    case Field(f) => f
    case Elem(i) => Be64(i)
    case Member(m) => m
    case Scored(m) => m
    case Ranked(c, m) => Be64(c) + [PLACE_HOLDER] + m
  }

  /** A user-space key after the encoded user key. */
  function Rest(p: Part): bytes
    requires p.User()
  {
    if p.Meta? then [DATA_TYPE_META]
    else [DataType(p.slot)] + Be16(p.version) + [PLACE_HOLDER] + Suffix(p.slot)
  }

  /** A key after the transaction prefix and the instance id. */
  function Tail(key: Key): bytes {
    match key.part
    case Gc => [DATA_TYPE_GC] + [PLACE_HOLDER] + Enc(key.ukey)
    case GcVersion(v) => [DATA_TYPE_GC_VERSION] + [PLACE_HOLDER] + Enc(key.ukey) + Be16(v)
    case _ => [DATA_TYPE_USER] + Enc(key.ukey) + Rest(key.part)
  }

  function Header(instance: u16): (h: bytes)
    ensures |h| == 3
  {
    [TXN_KEY_PREFIX] + Be16(instance)
  }

  function Encode(instance: u16, key: Key): bytes {
    Header(instance) + Tail(key)
  }

  /** All nine families, byte for byte. */
  lemma KeyLayout(instance: u16, k: bytes, v: u16, s: Slot)
    ensures forall key :: Encode(instance, key) == [0x78] + Be16(instance) + Tail(key)
    ensures Tail(Key(k, Meta)) == [0x75] + Enc(k) + [0x6D]
    ensures Tail(Key(k, Gc)) == [0x67] + [0x60] + Enc(k)
    ensures Tail(Key(k, GcVersion(v))) == [0x76] + [0x60] + Enc(k) + Be16(v)
    ensures Tail(Key(k, Data(v, s))) == [0x75] + Enc(k) + match s
            case Counter(i) => [0x6D] + Be16(v) + [0x60] + Be16(i)
            case Field(f) => [0x68] + Be16(v) + [0x60] + f
            case Elem(i) => [0x6C] + Be16(v) + [0x60] + Be64(i)
            case Member(m) => [0x73] + Be16(v) + [0x60] + m
            case Scored(m) => [0x7A] + Be16(v) + [0x60] + m
            case Ranked(c, m) => [0x53] + Be16(v) + [0x60] + (Be64(c) + [0x60] + m)
  {
    hide Be16, Be64, Enc;
  }

  predicate KeyLess(a: Key, b: Key) {
    Less(Tail(a), Tail(b))
  }

  // ----- joint injectivity -----

  lemma RestInjective(p: Part, q: Part)
    requires p.User() && q.User() && Rest(p) == Rest(q)
    ensures p == q
  {
    hide Be16, Be64;
    assert Rest(p)[0] == Rest(q)[0];
    assert p.Meta? <==> |Rest(p)| == 1;
    assert q.Meta? <==> |Rest(q)| == 1;
    if !p.Meta? {
      assert Rest(p)[1..3] == Be16(p.version) && Rest(q)[1..3] == Be16(q.version);
      assert Rest(p)[4..] == Suffix(p.slot) && Rest(q)[4..] == Suffix(q.slot);
      Be16Order(p.version, q.version);
      SuffixInjective(p.slot, q.slot);
    }
  }

  lemma SuffixInjective(s: Slot, t: Slot)
    requires DataType(s) == DataType(t) && Suffix(s) == Suffix(t)
    ensures s == t
  {
    hide Be16, Be64;
    match s {
      case Counter(i) => Be16Order(i, t.shard);
      case Elem(i) => Be64Order(i, t.idx);
      case Ranked(c, m) =>
        assert Suffix(s)[..8] == Be64(c) && Suffix(t)[..8] == Be64(t.code);
        assert Suffix(s)[9..] == m && Suffix(t)[9..] == t.member;
        Be64Order(c, t.code);
      case _ =>
    }
  }

  /** All nine key families are jointly injective: distinct keys never share their bytes. */
  lemma TailInjective(a: Key, b: Key)
    requires Tail(a) == Tail(b)
    ensures a == b
  {
    hide Enc, Rest, Be16;
    assert Tail(a)[0] == Tail(b)[0];
    if a.part.User() {
      assert Tail(a)[1..] == Enc(a.ukey) + Rest(a.part);
      assert Tail(b)[1..] == Enc(b.ukey) + Rest(b.part);
      EncPrefixFree(a.ukey, b.ukey, Rest(a.part), Rest(b.part));
      RestInjective(a.part, b.part);
    } else {
      var x, y := if a.part.Gc? then [] else Be16(a.part.version), if b.part.Gc? then [] else Be16(b.part.version);
      assert Tail(a)[2..] == Enc(a.ukey) + x;
      assert Tail(b)[2..] == Enc(b.ukey) + y;
      EncPrefixFree(a.ukey, b.ukey, x, y);
      if a.part.GcVersion? {
        Be16Order(a.part.version, b.part.version);
      }
    }
  }

  /** Under one instance id, encoded keys are equal and ordered exactly as their tails. */
  lemma EncodeOrder(instance: u16, a: Key, b: Key)
    ensures Encode(instance, a) == Encode(instance, b) <==> a == b
    ensures Less(Encode(instance, a), Encode(instance, b)) <==> KeyLess(a, b)
  {
    LessAppend(Header(instance), Tail(a), Tail(b));
    if Encode(instance, a) == Encode(instance, b) {
      assert Encode(instance, a)[3..] == Tail(a) && Encode(instance, b)[3..] == Tail(b);
      TailInjective(a, b);
    }
  }

  lemma KeyLessTotal(a: Key, b: Key)
    ensures !(KeyLess(a, b) && KeyLess(b, a))
    ensures KeyLess(a, b) || a == b || KeyLess(b, a)
    ensures !KeyLess(a, a)
  {
    LessTrichotomy(Tail(a), Tail(b));
    LessTrichotomy(Tail(a), Tail(a));
    if Tail(a) == Tail(b) {
      TailInjective(a, b);
    }
  }

  lemma KeyLessTransitive(a: Key, b: Key, c: Key)
    requires KeyLess(a, b) && KeyLess(b, c)
    ensures KeyLess(a, c)
  {
    LessTransitive(Tail(a), Tail(b), Tail(c));
  }

  // ----- order inside the key space -----

  /** The keys of one user key form one block: blocks sort as the user keys do. */
  lemma BlockOrder(a: Key, b: Key)
    requires a.part.User() && b.part.User() && a.ukey != b.ukey
    ensures KeyLess(a, b) <==> Less(a.ukey, b.ukey)
  {
    hide Enc, Rest, Less;
    assert Tail(a) == [DATA_TYPE_USER] + (Enc(a.ukey) + Rest(a.part));
    assert Tail(b) == [DATA_TYPE_USER] + (Enc(b.ukey) + Rest(b.part));
    LessAppend([DATA_TYPE_USER], Enc(a.ukey) + Rest(a.part), Enc(b.ukey) + Rest(b.part));
    EncOrder(a.ukey, b.ukey, Rest(a.part), Rest(b.part));
  }

  /** The prefix shared by all keys of one family, user key and version. */
  function DataPrefix(dataType: byte, k: bytes, v: u16): bytes {
    [DATA_TYPE_USER] + Enc(k) + [dataType] + Be16(v)
  }

  lemma DataTail(k: bytes, v: u16, s: Slot)
    ensures Tail(Key(k, Data(v, s))) == DataPrefix(DataType(s), k, v) + ([PLACE_HOLDER] + Suffix(s))
  {
  }

  lemma SuffixOrder(k: bytes, v: u16, s: Slot, t: Slot)
    requires DataType(s) == DataType(t)
    ensures KeyLess(Key(k, Data(v, s)), Key(k, Data(v, t))) <==> Less(Suffix(s), Suffix(t))
  {
    hide Tail, Less, DataPrefix, Suffix;
    DataTail(k, v, s);
    DataTail(k, v, t);
    LessAppend(DataPrefix(DataType(s), k, v), [PLACE_HOLDER] + Suffix(s), [PLACE_HOLDER] + Suffix(t));
    LessAppend([PLACE_HOLDER], Suffix(s), Suffix(t));
  }

  lemma ElemOrder(k: bytes, v: u16, i: u64, j: u64)
    ensures KeyLess(Key(k, Data(v, Elem(i))), Key(k, Data(v, Elem(j)))) <==> i < j
  {
    SuffixOrder(k, v, Elem(i), Elem(j));
    Be64Order(i, j);
  }

  lemma CodeMemberOrder(c: u64, m: bytes, d: u64, n: bytes)
    ensures Less(Be64(c) + [PLACE_HOLDER] + m, Be64(d) + [PLACE_HOLDER] + n) <==> c < d || (c == d && Less(m, n))
  {
    hide Be64;
    Be64Order(c, d);
    LessBlocks(Be64(c) + [PLACE_HOLDER], Be64(d) + [PLACE_HOLDER], m, n);
    LessBlocks(Be64(c), Be64(d), [PLACE_HOLDER], [PLACE_HOLDER]);
    assert (Be64(c) + [PLACE_HOLDER])[..8] == Be64(c) && (Be64(d) + [PLACE_HOLDER])[..8] == Be64(d);
  }

  /** Score keys sort by score code and then by member. */
  lemma RankedOrder(k: bytes, v: u16, c: u64, m: bytes, d: u64, n: bytes)
    ensures KeyLess(Key(k, Data(v, Ranked(c, m))), Key(k, Data(v, Ranked(d, n)))) <==> c < d || (c == d && Less(m, n))
  {
    SuffixOrder(k, v, Ranked(c, m), Ranked(d, n));
    CodeMemberOrder(c, m, d, n);
  }

  // ----- ranges -----

  /** A half-open range of tails. */
  datatype Range = Range(lo: bytes, hi: bytes) {
    predicate Has(key: Key) {
      LessEq(lo, Tail(key)) && Less(Tail(key), hi)
    }
  }

  function FamilyRange(dataType: byte, k: bytes, v: u16): Range {
    Range(DataPrefix(dataType, k, v) + [PLACE_HOLDER], DataPrefix(dataType, k, v) + [PLACE_HOLDER + 1])
  }

  function SubMetaRange(k: bytes, v: u16): Range { FamilyRange(DATA_TYPE_META, k, v) }

  function ListRange(k: bytes, v: u16): Range { FamilyRange(DATA_TYPE_LIST, k, v) }

  function SetRange(k: bytes, v: u16): Range { FamilyRange(DATA_TYPE_SET, k, v) }

  function ZsetRange(k: bytes, v: u16): Range { FamilyRange(DATA_TYPE_ZSET, k, v) }

  function ScoreRange(k: bytes, v: u16): Range { FamilyRange(DATA_TYPE_SCORE, k, v) }

  function GcVersionRange(): Range {
    Range([DATA_TYPE_GC_VERSION] + [PLACE_HOLDER], [DATA_TYPE_GC_VERSION] + [PLACE_HOLDER + 1])
  }

  /**
    A family range selects exactly the keys of its own family, user key and version.
    (The sub-meta range shares its type byte with the meta key and does not select it.)
   */
  lemma FamilyRangeExact(dataType: byte, k: bytes, v: u16, key: Key)
    ensures FamilyRange(dataType, k, v).Has(key)
            <==> key.ukey == k && key.part.Data? && DataType(key.part.slot) == dataType && key.part.version == v
  {
    hide Less, Tail, Be16;
    var p := DataPrefix(dataType, k, v);
    PrefixRange(p, PLACE_HOLDER, Tail(key));
    if p + [PLACE_HOLDER] <= Tail(key) {
      HasDataPrefix(dataType, k, v, key);
    }
    if key.ukey == k && key.part.Data? && DataType(key.part.slot) == dataType && key.part.version == v {
      DataTail(k, v, key.part.slot);
      assert Tail(key)[..|p| + 1] == p + [PLACE_HOLDER];
    }
  }

  lemma HasDataPrefix(dataType: byte, k: bytes, v: u16, key: Key)
    requires DataPrefix(dataType, k, v) + [PLACE_HOLDER] <= Tail(key)
    ensures key.ukey == k && key.part.Data? && DataType(key.part.slot) == dataType && key.part.version == v
  {
    hide Enc, Be16, Suffix;
    var p := DataPrefix(dataType, k, v) + [PLACE_HOLDER];
    var t := Tail(key)[|p|..];
    assert Tail(key) == p + t;
    assert Tail(key)[0] == DATA_TYPE_USER;
    assert key.part.User();
    var r := [dataType] + Be16(v) + [PLACE_HOLDER] + t;
    assert Tail(key)[1..] == Enc(k) + r;
    assert Tail(key)[1..] == Enc(key.ukey) + Rest(key.part);
    EncPrefixFree(k, key.ukey, r, Rest(key.part));
    assert r[0] == Rest(key.part)[0] && |r| >= 4;
    assert key.part.Data?;
    assert r[1..3] == Be16(v) && Rest(key.part)[1..3] == Be16(key.part.version);
    Be16Order(v, key.part.version);
  }

  lemma GcVersionRangeExact(key: Key)
    ensures GcVersionRange().Has(key) <==> key.part.GcVersion?
  {
    PrefixRange([DATA_TYPE_GC_VERSION], PLACE_HOLDER, Tail(key));
    assert key.part.GcVersion? ==> Tail(key)[..2] == [DATA_TYPE_GC_VERSION] + [PLACE_HOLDER];
    assert Tail(key)[0] == DATA_TYPE_GC_VERSION <==> key.part.GcVersion?;
  }

  /** Keys between two data keys of one family, user key and version belong to it too. */
  lemma BetweenDataKeys(k: bytes, v: u16, s: Slot, t: Slot, key: Key)
    requires DataType(s) == DataType(t)
    requires LessEq(Tail(Key(k, Data(v, s))), Tail(key)) && LessEq(Tail(key), Tail(Key(k, Data(v, t))))
    ensures key.ukey == k && key.part.Data? && DataType(key.part.slot) == DataType(s) && key.part.version == v
  {
    hide Tail, DataPrefix, Less, Suffix;
    var x := DataPrefix(DataType(s), k, v) + [PLACE_HOLDER];
    DataTail(k, v, s);
    DataTail(k, v, t);
    assert Tail(Key(k, Data(v, s))) == x + Suffix(s) && Tail(Key(k, Data(v, t))) == x + Suffix(t);
    BetweenSharesPrefix(x, Suffix(s), Tail(key), Suffix(t));
    HasDataPrefix(DataType(s), k, v, key);
  }

  predicate AtOrAfter(key: Key, from: Key) {
    LessEq(Tail(from), Tail(key))
  }

  /** The inclusive index range of a list selects exactly the data keys with those indexes. */
  lemma ListIdxRangeExact(k: bytes, v: u16, first: u64, last: u64, key: Key)
    requires first <= last
    ensures AtOrAfter(key, Key(k, Data(v, Elem(first)))) && AtOrAfter(Key(k, Data(v, Elem(last))), key)
            <==> key.ukey == k && key.part.Data? && key.part.version == v
                 && key.part.slot.Elem? && first <= key.part.slot.idx <= last
  {
    hide Tail, Less;
    var a, b := Key(k, Data(v, Elem(first))), Key(k, Data(v, Elem(last)));
    if AtOrAfter(key, a) && AtOrAfter(b, key) {
      BetweenDataKeys(k, v, Elem(first), Elem(last), key);
    }
    if key.ukey == k && key.part.Data? && key.part.version == v && key.part.slot.Elem? {
      ElemOrder(k, v, first, key.part.slot.idx);
      ElemOrder(k, v, key.part.slot.idx, last);
      LessEqTails(a, key);
      LessEqTails(key, b);
    }
  }

  lemma LessEqTails(a: Key, b: Key)
    ensures LessEq(Tail(a), Tail(b)) <==> a == b || KeyLess(a, b)
  {
    if Tail(a) == Tail(b) {
      TailInjective(a, b);
    }
  }

  lemma AfterOrEqual(a: Key, b: Key)
    ensures AtOrAfter(b, a) <==> a == b || KeyLess(a, b)
  {
    hide Tail, Less;
    LessEqTails(a, b);
  }

  /** The range between two score codes, both included, as the two score-bound builders make it. */
  function ScoreBounds(k: bytes, v: u16, lo: u64, hi: u64): Range {
    var p := DataPrefix(DATA_TYPE_SCORE, k, v) + [PLACE_HOLDER];
    Range(p + Be64(lo) + [PLACE_HOLDER], p + Be64(hi) + [PLACE_HOLDER + 1])
  }

  /**
    Score bounds select exactly the score keys whose code lies between them, and no key equals
    the upper bound, so the half-open and the closed range are the same.
   */
  lemma ScoreBoundsExact(k: bytes, v: u16, lo: u64, hi: u64, key: Key)
    ensures ScoreBounds(k, v, lo, hi).Has(key)
            <==> key.ukey == k && key.part.Data? && key.part.version == v
                 && key.part.slot.Ranked? && lo <= key.part.slot.code <= hi
    ensures Tail(key) != ScoreBounds(k, v, lo, hi).hi
  {
    hide Less, Tail, DataPrefix, Be64;
    var p := DataPrefix(DATA_TYPE_SCORE, k, v) + [PLACE_HOLDER];
    var r := ScoreBounds(k, v, lo, hi);
    assert r.lo == p + (Be64(lo) + [PLACE_HOLDER]) && r.hi == p + (Be64(hi) + [PLACE_HOLDER + 1]);
    if r.Has(key) {
      BetweenSharesPrefix(p, Be64(lo) + [PLACE_HOLDER], Tail(key), Be64(hi) + [PLACE_HOLDER + 1]);
      HasDataPrefix(DATA_TYPE_SCORE, k, v, key);
    } else if Tail(key) == r.hi {
      HasDataPrefix(DATA_TYPE_SCORE, k, v, key);
    }
    if key.ukey == k && key.part.Data? && key.part.version == v && key.part.slot.Ranked? {
      DataTail(k, v, key.part.slot);
      var s := Suffix(key.part.slot);
      assert Tail(key) == p + s;
      CodeBounds(lo, hi, key.part.slot.code, key.part.slot.member);
      LessAppend(p, Be64(lo) + [PLACE_HOLDER], s);
      LessAppend(p, s, Be64(hi) + [PLACE_HOLDER + 1]);
      assert Tail(key)[|p|..] == s && r.hi[|p|..] == Be64(hi) + [PLACE_HOLDER + 1];
    }
  }

  lemma CodeBounds(lo: u64, hi: u64, c: u64, m: bytes)
    ensures var s := Be64(c) + [PLACE_HOLDER] + m;
            && (LessEq(Be64(lo) + [PLACE_HOLDER], s) <==> lo <= c)
            && (Less(s, Be64(hi) + [PLACE_HOLDER + 1]) <==> c <= hi)
            && s != Be64(hi) + [PLACE_HOLDER + 1]
  {
    hide Be64;
    var s := Be64(c) + [PLACE_HOLDER] + m;
    assert Be64(lo) + [PLACE_HOLDER] + [] == Be64(lo) + [PLACE_HOLDER];
    CodeMemberOrder(lo, [], c, m);
    Be64Order(lo, c);
    if c == lo && m == [] {
      assert s == Be64(lo) + [PLACE_HOLDER];
    }
    assert s[..8] == Be64(c) && (Be64(lo) + [PLACE_HOLDER])[..8] == Be64(lo);
    assert s[8] == PLACE_HOLDER && (Be64(hi) + [PLACE_HOLDER + 1])[8] == PLACE_HOLDER + 1;
    Be64Order(c, hi);
    assert s == Be64(c) + ([PLACE_HOLDER] + m);
    LessBlocks(Be64(c), Be64(hi), [PLACE_HOLDER] + m, [PLACE_HOLDER + 1]);
  }

  // ----- decoding whole keys -----

  /** `decode_key_gc_userkey_version`; `None` where the slicing panics. */
  function DecodeGcVersionKey(key: bytes): Option<(bytes, nat)> {
    if |key| < 5 then None
    else
      var idx := 5 + EncLen(key[5..]);
      match Dec(key[5..])
      case None => None
      case Some(k) => if |key| < idx + 2 then None else Some((k, FromBigEndian(key[idx..idx + 2])))
  }

  /** `decode_key_userkey_from_metakey`: the user key, and whether the key is a meta key. */
  function DecodeMetaKey(key: bytes): Option<(bytes, bool)> {
    if |key| < 4 then None
    else
      var idx := 4 + EncLen(key[4..]);
      match Dec(key[4..])
      case None => None
      case Some(k) => if |key| <= idx then None else Some((k, key[idx] == DATA_TYPE_META && idx + 1 == |key|))
  }

  /** A gc-version key decodes to its user key and version. */
  lemma GcVersionKeyRoundTrip(instance: u16, k: bytes, v: u16)
    ensures DecodeGcVersionKey(Encode(instance, Key(k, GcVersion(v)))) == Some((k, v))
  {
    hide Enc, Dec, EncLen, Be16;
    var key := Encode(instance, Key(k, GcVersion(v)));
    assert key[5..] == Enc(k) + Be16(v);
    DecEnc(k, Be16(v));
    var idx := 5 + |Enc(k)|;
    assert key[idx..idx + 2] == Be16(v);
    Be16Order(v, v);
  }

  /** On every user-space key the decoder finds the user key and accepts exactly the meta keys. */
  lemma MetaKeyTest(instance: u16, key: Key)
    requires key.part.User()
    ensures DecodeMetaKey(Encode(instance, key)) == Some((key.ukey, key.part.Meta?))
  {
    hide Enc, Dec, EncLen, Be16, Suffix;
    var b := Encode(instance, key);
    assert b[4..] == Enc(key.ukey) + Rest(key.part);
    DecEnc(key.ukey, Rest(key.part));
    var idx := 4 + |Enc(key.ukey)|;
    assert b[idx] == Rest(key.part)[0] && |b| == idx + |Rest(key.part)|;
  }

  /** The field, member or index that the data-key decoders read: everything after the first 8 fixed bytes. */
  lemma DataKeySuffix(instance: u16, k: bytes, v: u16, s: Slot)
    ensures |Encode(instance, Key(k, Data(v, s)))| >= 8 + |Enc(k)|
    ensures Encode(instance, Key(k, Data(v, s)))[8 + |Enc(k)|..] == Suffix(s)
    ensures s.Elem? ==> FromBigEndian(Suffix(s)) == s.idx
    ensures s.Ranked? ==> |Suffix(s)| >= 9 && FromBigEndian(Suffix(s)[..8]) == s.code && Suffix(s)[9..] == s.member
  {
    hide Enc, Less;
    DataTail(k, v, s);
    if s.Elem? {
      Be64Order(s.idx, s.idx);
    } else if s.Ranked? {
      assert Suffix(s)[..8] == Be64(s.code);
      Be64Order(s.code, s.code);
    }
  }
}
