/**
  DEL of keys of any type, and SCAN: walking the user keys of an instance page by page, in batches that run over all of
  the instance's keys, and removing expired keys on the way.
 */
module Keyspace {
  import opened Bytes
  import opened Codec
  import opened Keys
  import opened Values
  import opened Store
  import opened Gc
  import opened Invariants
  import opened Replies
  import List

  // ----- deleting one key, whatever its type -----

  /** DEL of one key, dispatched on the type of its meta value. */
  method DelKey(txn: Txn, k: bytes, listThreshold: nat, collThreshold: nat) returns (n: nat)
    requires BlockInv(BlockOf(txn.kv, k))
    modifies txn
    ensures OnlyBlock(old(txn.kv), txn.kv, k) && BlockInv(BlockOf(txn.kv, k)) && Meta !in BlockOf(txn.kv, k)
    ensures Reaches(old(BlockOf(txn.kv, k)), BlockOf(txn.kv, k))
    ensures forall p :: p in BlockOf(txn.kv, k) && p.User() ==> p in old(BlockOf(txn.kv, k))
    ensures n == if Meta in old(BlockOf(txn.kv, k)) then 1 else 0
  {
    hide BlockOf, VersionInv, Reaches, Collection.Counted, ListWindow.Elements, Collection.Stored;
    ghost var b := BlockOf(txn.kv, k);
    ReachesSelf(b);
    var meta := txn.Get(Key(k, Meta));
    if meta.Some? {
      MetaTyped(b);
      match meta.value {
        case StringVal(_, _) =>
          DelRefines(b, false);
          ReachesByStep(b, Del(false));
          txn.Delete(Key(k, Meta));
        case ListMeta(_, _, _, _) =>
          List.DropList(txn, k, listThreshold);
        case CollMeta(kind, _, _, _) =>
          Collection.DropColl(txn, k, kind, collThreshold);
      }
    }
    BareInv(BlockOf(txn.kv, k));
    n := if meta.Some? then 1 else 0;
  }

  lemma MetaTyped(b: Block)
    requires VersionInv(b) && Meta in b
    ensures IsMeta(b[Meta])
  {
  }

  predicate HasExpired(b: Block, now: u64) {
    Meta in b && IsMeta(b[Meta]) && Expired(b[Meta].ttl, now)
  }

  /** The given keys that are stored, as often as they are given. */
  function Present(kv: Map, keys: seq<bytes>): seq<bytes> {
    if keys == [] then []
    else
      var last := keys[|keys| - 1];
      Present(kv, keys[..|keys| - 1]) + if Meta in BlockOf(kv, last) then [last] else []
  }

  /** After DEL of some keys: those hold nothing, and the others are as they were. */
  ghost predicate Deleted(before: Map, after: Map, keys: seq<bytes>) {
    && StoreInv(after)
    && (forall k :: k in keys ==> Meta !in BlockOf(after, k) && Reaches(BlockOf(before, k), BlockOf(after, k)))
    && (forall k :: k !in keys ==> BlockOf(after, k) == BlockOf(before, k))
  }

  /** The types are read before anything is deleted, so a key that is given twice is counted twice. */
  method DelKeys(txn: Txn, keys: seq<bytes>, listThreshold: nat, collThreshold: nat) returns (n: nat)
    requires StoreInv(txn.kv)
    modifies txn
    ensures Deleted(old(txn.kv), txn.kv, keys)
    ensures n == |Present(old(txn.kv), keys)|
  {
    hide BlockOf, BlockInv, Reaches, Deleted;
    var stored: seq<bool> := [];
    for i := 0 to |keys|
      invariant |stored| == i && txn.kv == old(txn.kv)
      invariant forall j :: 0 <= j < i ==> (stored[j] <==> Meta in BlockOf(txn.kv, keys[j]))
    {
      var meta := txn.Get(Key(keys[i], Meta));
      stored := stored + [meta.Some?];
    }
    n := 0;
    NoneDeleted(txn.kv);
    for i := 0 to |keys|
      invariant Deleted(old(txn.kv), txn.kv, keys[..i])
      invariant n == |Present(old(txn.kv), keys[..i])|
    {
      ghost var kv := txn.kv;
      DeletedInv(old(txn.kv), kv, keys[..i]);
      assert keys[..i + 1][..i] == keys[..i];
      if stored[i] {
        var _ := DelKey(txn, keys[i], listThreshold, collThreshold);
        n := n + 1;
      } else {
        ReachesSelf(BlockOf(kv, keys[i]));
        OnlyBlockRefl(kv, keys[i]);
        StaysMissing(old(txn.kv), kv, keys[..i], keys[i]);
      }
      OneDeleted(old(txn.kv), kv, txn.kv, keys, i);
    }
    assert keys[..|keys|] == keys;
  }

  lemma NoneDeleted(kv: Map)
    requires StoreInv(kv)
    ensures Deleted(kv, kv, [])
  {
  }

  lemma DeletedInv(before: Map, kv: Map, keys: seq<bytes>)
    requires Deleted(before, kv, keys)
    ensures StoreInv(kv)
  {
  }

  lemma StaysMissing(before: Map, kv: Map, keys: seq<bytes>, k: bytes)
    requires Deleted(before, kv, keys) && Meta !in BlockOf(before, k)
    ensures Meta !in BlockOf(kv, k)
  {
    hide BlockOf;
  }

  lemma OneDeleted(before: Map, kv: Map, after: Map, keys: seq<bytes>, i: nat)
    requires i < |keys| && Deleted(before, kv, keys[..i]) && OnlyBlock(kv, after, keys[i])
    requires Meta !in BlockOf(after, keys[i]) && BlockInv(BlockOf(after, keys[i]))
    requires Reaches(BlockOf(kv, keys[i]), BlockOf(after, keys[i]))
    ensures Deleted(before, after, keys[..i + 1])
  {
    hide BlockOf, BlockInv, Reaches, OnlyBlock;
    var x := keys[i];
    assert forall k :: k in keys[..i + 1] <==> k in keys[..i] || k == x;
    forall k | k != x ensures BlockOf(after, k) == BlockOf(kv, k) {
      OtherBlocks(kv, after, x, k);
    }
    ReachesSelf(BlockOf(before, x));
    ReachesTrans(BlockOf(before, x), BlockOf(kv, x), BlockOf(after, x));
  }

  function There(kv: Map, keys: seq<bytes>): set<bytes> {
    set k | k in keys && Meta in BlockOf(kv, k)
  }

  /** A stored key is given more than once. */
  ghost predicate Repeats(kv: Map, keys: seq<bytes>) {
    exists i, j :: 0 <= i < j < |keys| && keys[i] == keys[j] && keys[i] in There(kv, keys)
  }

  lemma ThereSnoc(kv: Map, keys: seq<bytes>)
    requires keys != []
    ensures var init, last := keys[..|keys| - 1], keys[|keys| - 1];
            There(kv, keys) == There(kv, init) + if Meta in BlockOf(kv, last) then {last} else {}
  {
    hide BlockOf;
    assert keys == keys[..|keys| - 1] + [keys[|keys| - 1]];
  }

  lemma RepeatsSnoc(kv: Map, keys: seq<bytes>)
    requires keys != []
    ensures var init, last := keys[..|keys| - 1], keys[|keys| - 1];
            Repeats(kv, keys) <==> Repeats(kv, init) || last in There(kv, init)
  {
    hide BlockOf;
    var init, last := keys[..|keys| - 1], keys[|keys| - 1];
    if last in There(kv, init) {
      var i :| 0 <= i < |init| && init[i] == last;
      assert keys[i] == keys[|keys| - 1];
    }
  }

  /** Every given name that is stored is counted, so at least one for each key, and exactly one if none is repeated. */
  lemma {:induction false} PresentCounts(kv: Map, keys: seq<bytes>)
    ensures |Present(kv, keys)| == |There(kv, keys)| <==> !Repeats(kv, keys)
    ensures |Present(kv, keys)| >= |There(kv, keys)|
    decreases |keys|
  {
    hide BlockOf, There, Repeats;
    if keys == [] {
      assert There(kv, keys) == {} && !Repeats(kv, keys) by { NothingThere(kv); }
    } else {
      PresentCounts(kv, keys[..|keys| - 1]);
      ThereSnoc(kv, keys);
      RepeatsSnoc(kv, keys);
      StoredThere(kv, keys[..|keys| - 1], keys[|keys| - 1]);
    }
  }

  /** What Redis counts: the keys that exist, each once; one that has expired does not exist. */
  function Existing(kv: Map, keys: seq<bytes>, now: u64): set<bytes> {
    set k | k in keys && Meta in BlockOf(kv, k) && !HasExpired(BlockOf(kv, k), now)
  }

  /** The answers agree if and only if no stored key is given twice and none of them has expired. */
  lemma DelMeetsRedisIff(kv: Map, keys: seq<bytes>, now: u64)
    ensures |Present(kv, keys)| == |Existing(kv, keys, now)|
            <==> !Repeats(kv, keys) && forall k :: k in keys ==> !HasExpired(BlockOf(kv, k), now)
  {
    hide BlockOf, Repeats, Present;
    PresentCounts(kv, keys);
    var all, some := There(kv, keys), Existing(kv, keys, now);
    if k :| k in keys && HasExpired(BlockOf(kv, k), now) {
      assert k in all && k !in some;
      SmallerSet(all, some);
    } else {
      assert all == some;
    }
  }

  lemma SmallerSet<T>(all: set<T>, some: set<T>)
    requires some < all
    ensures |some| < |all|
  {
    assert all == some + (all - some);
    assert all - some != {};
  }

  /** A string that has expired, given once, is answered with 1; one that has not, given twice, with 2. */
  lemma DelExample(k: bytes, now: u64)
    requires now > 1
    ensures var kv: Map := map[Key(k, Meta) := StringVal(1, [])];
            |Present(kv, [k])| == 1 && Existing(kv, [k], now) == {}
    ensures var kv: Map := map[Key(k, Meta) := StringVal(0, [])];
            |Present(kv, [k, k])| == 2 && Existing(kv, [k, k], now) == {k}
  {
    OneStored(k, 1);
    OneStored(k, 0);
    var one, two := [k], [k, k];
    assert one[0] in one && two[0] in two;
  }

  lemma OneStored(k: bytes, ttl: u64)
    ensures var kv: Map := map[Key(k, Meta) := StringVal(ttl, [])];
            && Meta in BlockOf(kv, k) && BlockOf(kv, k)[Meta] == StringVal(ttl, [])
            && Present(kv, [k]) == [k] && Present(kv, [k, k]) == [k, k]
  {
    hide BlockOf;
    var kv: Map := map[Key(k, Meta) := StringVal(ttl, [])];
    InBlockOf(kv, k, Meta);
    var one, two := [k], [k, k];
    assert one[..0] == [] && two[..1] == one;
    assert Present(kv, one) == Present(kv, []) + [k];
    assert Present(kv, two) == Present(kv, one) + [k];
  }

  lemma NothingThere(kv: Map)
    ensures There(kv, []) == {} && !Repeats(kv, [])
  {
  }

  lemma StoredThere(kv: Map, keys: seq<bytes>, k: bytes)
    ensures k in There(kv, keys) ==> Meta in BlockOf(kv, k)
  {
  }

  // ----- the order of the walk -----

  /** From a key to the end of the instance's user keys. */
  function KeyspaceRange(first: Key): Range {
    Range(Tail(first), [DATA_TYPE_USER_END])
  }

  lemma KeyspaceExact(first: Key, key: Key)
    requires first.part.User()
    ensures KeyspaceRange(first).Has(key) <==> key.part.User() && AtOrAfter(key, first)
  {
    hide Enc, Rest, Less;
    var x := Tail(key);
    assert x != [] && Tail(first)[0] == DATA_TYPE_USER;
    var end := [DATA_TYPE_USER_END];
    FirstByte(x, end);
    FirstByte(end, x);
    FirstByte(x, Tail(first));
    LessTrichotomy(x, Tail(first));
    LessTrichotomy(x, end);
    assert key.part.User() <==> x[0] == DATA_TYPE_USER;
    assert key.part.Gc? ==> x[0] == DATA_TYPE_GC;
    assert key.part.GcVersion? ==> x[0] == DATA_TYPE_USER_END && |x| > 1;
    if key.part.GcVersion? {
      assert x == end + x[1..];
      assert end + [] == end;
      LessAppend(end, [], x[1..]);
      EmptyFirst(x[1..]);
    }
  }

  lemma EmptyFirst(k: bytes)
    ensures Less([], k) <==> k != []
  {
  }

  /** The meta keys behind a key. */
  function MetaAfter(kv: Map, left: Key): set<Key> {
    set key | key in kv && key.part.Meta? && KeyLess(left, key)
  }

  /** All user-space keys behind a key. */
  function SpaceAfter(kv: Map, left: Key): set<Key> {
    set key | key in kv && key.part.User() && KeyLess(left, key)
  }

  function UserKeys(keys: seq<Key>): (r: seq<bytes>)
    ensures |r| == |keys| && forall i :: 0 <= i < |keys| ==> r[i] == keys[i].ukey
  {
    seq(|keys|, i requires 0 <= i < |keys| => keys[i].ukey)
  }

  /** The user keys behind `start` in byte order: what one page is taken from. */
  function UserKeysAfter(kv: Map, start: bytes): seq<bytes> {
    UserKeys(Ascending(MetaAfter(kv, Key(start, Meta))))
  }

  lemma MetaOrder(a: bytes, b: bytes)
    ensures KeyLess(Key(a, Meta), Key(b, Meta)) <==> Less(a, b)
  {
    hide Less, KeyLess;
    LessTrichotomy(a, b);
    if a == b {
      KeyLessTotal(Key(a, Meta), Key(b, Meta));
    } else {
      BlockOrder(Key(a, Meta), Key(b, Meta));
    }
  }

  /** They are sorted, and they are exactly the stored user keys behind `start`. */
  lemma UserKeysAre(kv: Map, start: bytes)
    ensures Sorted(UserKeysAfter(kv, start))
    ensures forall k :: k in UserKeysAfter(kv, start) <==> Meta in BlockOf(kv, k) && Less(start, k)
  {
    hide Less, KeyLess, Ascending, BlockOf;
    var keys := Ascending(MetaAfter(kv, Key(start, Meta)));
    var r := UserKeys(keys);
    forall i | 0 <= i < |keys| ensures keys[i] == Key(r[i], Meta) {
      assert keys[i] in keys;
    }
    forall i, j | 0 <= i < j < |r| ensures Less(r[i], r[j]) {
      MetaOrder(r[i], r[j]);
    }
    forall k ensures k in r <==> Meta in BlockOf(kv, k) && Less(start, k) {
      InBlockOf(kv, k, Meta);
      MetaOrder(start, k);
      if k in r {
        var i :| 0 <= i < |r| && r[i] == k;
        assert keys[i] in keys;
      }
      if Key(k, Meta) in keys {
        var i :| 0 <= i < |keys| && keys[i] == Key(k, Meta);
        assert r[i] == k;
      }
    }
  }

  // ----- one step of the walk -----

  lemma KeyspaceScan(kv: Map, first: Key)
    requires first.part.User()
    ensures forall key :: key in Scan(kv, KeyspaceRange(first)) <==>
              key in kv && key.part.User()
              && (key == first || KeyLess(first, key))
  {
    hide Less, KeyLess, Ascending, AtOrAfter, KeyspaceRange;
    forall key ensures key in Scan(kv, KeyspaceRange(first)) <==>
              key in kv && key.part.User()
              && (key == first || KeyLess(first, key)) {
      KeyspaceExact(first, key);
      AfterOrEqual(first, key);
    }
  }

  /** In an ordered sequence, what lies behind one position is at the next one or behind it. */
  lemma BehindPosition(all: seq<Key>, i: nat, x: Key)
    requires Ascends(all) && 0 < i <= |all| && x in all && KeyLess(all[i - 1], x)
    ensures i < |all| && (x == all[i] || KeyLess(all[i], x))
  {
    hide KeyLess;
    var j :| 0 <= j < |all| && all[j] == x;
    KeyLessTotal(x, all[i - 1]);
  }

  /** In the scan of the key space, every key behind the current position is the next one or behind it. */
  lemma NextInScan(kv: Map, first: Key, i: nat)
    requires first.part.User() && i <= |Scan(kv, KeyspaceRange(first))|
    ensures var all := Scan(kv, KeyspaceRange(first)); var left := if i == 0 then first else all[i - 1];
            && left.part.User()
            && (i < |all| ==>
                  all[i] in kv && all[i].part.User() && (KeyLess(left, all[i]) || (i == 0 && all[i] == left)))
            && (forall x :: x in SpaceAfter(kv, left) ==> i < |all| && (x == all[i] || KeyLess(all[i], x)))
            && (i == |all| ==> SpaceAfter(kv, left) == {})
  {
    hide Less, KeyLess, KeyspaceRange;
    var all := Scan(kv, KeyspaceRange(first));
    var left := if i == 0 then first else all[i - 1];
    KeyspaceScan(kv, first);
    if i < |all| {
      assert all[i] in all;
    }
    if i > 0 {
      assert all[i - 1] in all;
    }
    forall x | x in SpaceAfter(kv, left) ensures i < |all| && (x == all[i] || KeyLess(all[i], x)) {
      if i == 0 {
        assert x in all;
        var j :| 0 <= j < |all| && all[j] == x;
      } else {
        if left != first {
          KeyLessTransitive(first, left, x);
        }
        BehindPosition(all, i, x);
      }
    }
  }

  /** Moving past a key uncovers it if it is a meta key, and nothing else. */
  lemma Advance(kv: Map, left: Key, key: Key)
    requires KeyLess(left, key) && forall x :: x in MetaAfter(kv, left) ==> x == key || KeyLess(key, x)
    ensures if key.part.Meta? && key in kv then Ascending(MetaAfter(kv, left)) == [key] + Ascending(MetaAfter(kv, key))
            else MetaAfter(kv, left) == MetaAfter(kv, key)
  {
    hide Less, KeyLess, Ascending;
    forall x | KeyLess(key, x) ensures KeyLess(left, x) {
      KeyLessTransitive(left, key, x);
    }
    KeyLessTotal(key, key);
    if key.part.Meta? && key in kv {
      assert MetaAfter(kv, left) == (set x | x in [key]) + MetaAfter(kv, key);
      AscendingConcat([key], MetaAfter(kv, key));
    }
  }

  // ----- pages -----

  function Matching(keys: seq<bytes>, fits: bytes -> bool): seq<bytes> {
    if keys == [] then []
    else Matching(keys[..|keys| - 1], fits) + if fits(keys[|keys| - 1]) then [keys[|keys| - 1]] else []
  }

  /** Compared with the start of the walk: the expired keys among the first `n` are deleted, and nothing else. */
  ghost predicate Cleaned(before: Map, kv: Map, all: seq<bytes>, n: nat, now: u64)
    requires n <= |all|
  {
    && StoreInv(kv)
    && (forall k: bytes ::
          if k in all[..n] && HasExpired(BlockOf(before, k), now) then
            Meta !in BlockOf(kv, k) && Reaches(BlockOf(before, k), BlockOf(kv, k))
          else BlockOf(kv, k) == BlockOf(before, k))
  }

  /** The walk has passed the first `n` user keys, and the others lie behind `left`. */
  ghost predicate Passed(kv: Map, left: Key, all: seq<bytes>, n: nat) {
    && n <= |all| && left.part.User() && UserKeys(Ascending(MetaAfter(kv, left))) == all[n..]
    && (forall k :: k in all[..n] ==> !KeyLess(left, Key(k, Meta)))
  }

  lemma StillPassed(left: Key, key: Key, x: Key)
    requires KeyLess(left, key) && !KeyLess(left, x)
    ensures !KeyLess(key, x)
  {
    hide KeyLess;
    if KeyLess(key, x) {
      KeyLessTransitive(left, key, x);
    }
  }

  lemma PassOther(kv: Map, left: Key, key: Key, all: seq<bytes>, n: nat)
    requires Passed(kv, left, all, n) && key.part.User() && !(key.part.Meta? && key in kv)
    requires KeyLess(left, key) && forall x :: x in MetaAfter(kv, left) ==> x == key || KeyLess(key, x)
    ensures Passed(kv, key, all, n)
  {
    hide KeyLess, Ascending;
    Advance(kv, left, key);
    forall k | k in all[..n] ensures !KeyLess(key, Key(k, Meta)) {
      StillPassed(left, key, Key(k, Meta));
    }
  }

  lemma PassMeta(kv: Map, left: Key, key: Key, all: seq<bytes>, n: nat)
    requires Passed(kv, left, all, n) && key.part.Meta? && key in kv
    requires KeyLess(left, key) && forall x :: x in MetaAfter(kv, left) ==> x == key || KeyLess(key, x)
    ensures n < |all| && all[n] == key.ukey && Passed(kv, key, all, n + 1)
  {
    hide KeyLess, Ascending;
    Advance(kv, left, key);
    var keys := Ascending(MetaAfter(kv, left));
    assert UserKeys(keys)[0] == key.ukey;
    assert all[..n + 1] == all[..n] + [all[n]];
    KeyLessTotal(key, key);
    forall k | k in all[..n] ensures !KeyLess(key, Key(k, Meta)) {
      StillPassed(left, key, Key(k, Meta));
    }
    assert all[n..][1..] == all[n + 1..];
    assert UserKeys(keys)[1..] == UserKeys(Ascending(MetaAfter(kv, key)));
  }

  /** Removing the key just passed does not touch what lies behind it. */
  lemma PassDeleted(kv: Map, after: Map, key: Key)
    requires key.part.Meta? && OnlyBlock(kv, after, key.ukey) && Meta !in BlockOf(after, key.ukey)
    ensures MetaAfter(after, key) == MetaAfter(kv, key)
  {
    hide KeyLess, BlockOf;
    KeyLessTotal(key, key);
    InBlockOf(after, key.ukey, Meta);
  }

  lemma CleanedSame(before: Map, kv: Map, all: seq<bytes>, n: nat, now: u64)
    requires n < |all| && Cleaned(before, kv, all, n, now) && !HasExpired(BlockOf(before, all[n]), now)
    ensures Cleaned(before, kv, all, n + 1, now)
  {
    hide BlockOf, BlockInv, HasExpired, Reaches;
    assert all[..n + 1] == all[..n] + [all[n]];
  }

  lemma CleanedMore(before: Map, kv: Map, after: Map, all: seq<bytes>, n: nat, now: u64)
    requires n < |all| && Cleaned(before, kv, all, n, now)
    requires OnlyBlock(kv, after, all[n]) && BlockInv(BlockOf(after, all[n])) && Meta !in BlockOf(after, all[n])
    requires HasExpired(BlockOf(before, all[n]), now) && Reaches(BlockOf(before, all[n]), BlockOf(after, all[n]))
    ensures Cleaned(before, after, all, n + 1, now)
  {
    hide BlockOf, BlockInv, HasExpired, Reaches;
    assert all[..n + 1] == all[..n] + [all[n]];
    forall k: bytes ensures k != all[n] ==> BlockOf(after, k) == BlockOf(kv, k) {
      if k != all[n] {
        OtherBlocks(kv, after, all[n], k);
      }
    }
  }

  /** Every user-space key is one that was there before. */
  ghost predicate Shrunk(before: Map, kv: Map) {
    forall x: Key :: x in kv && x.part.User() ==> x in before
  }

  lemma ShrunkMore(before: Map, kv: Map, after: Map, k: bytes)
    requires Shrunk(before, kv) && OnlyBlock(kv, after, k)
    requires forall p :: p in BlockOf(after, k) && p.User() ==> p in BlockOf(kv, k)
    ensures Shrunk(before, after)
  {
    hide BlockOf;
    forall x: Key | x in after && x.part.User() ensures x in before {
      if x.ukey == k {
        InBlockOf(after, k, x.part);
        InBlockOf(kv, k, x.part);
        assert x == Key(k, x.part);
      }
    }
  }

  /** The next meta key of the scan is the next user key of the walk, with the value it had at the start. */
  lemma NextMeta(before: Map, kv0: Map, kv: Map, all: seq<bytes>, m: nat, n: nat, left: Key, key: Key, now: u64)
    requires m <= n <= |all| && Cleaned(before, kv0, all, m, now) && Cleaned(before, kv, all, n, now)
    requires Passed(kv, left, all, n) && key in kv0 && key.part.Meta? && KeyLess(left, key)
    ensures key in kv && kv0[key] == kv[key]
    ensures BlockOf(kv, key.ukey) == BlockOf(before, key.ukey) && Meta in BlockOf(kv, key.ukey)
            && BlockOf(kv, key.ukey)[Meta] == kv[key]
    ensures IsMeta(kv[key]) && BlockInv(BlockOf(kv, key.ukey))
  {
    hide BlockOf, KeyLess, Ascending, HasExpired, VersionInv, Reaches;
    var u := key.ukey;
    assert key == Key(u, Meta);
    assert u !in all[..n];
    assert all[..m] <= all[..n];
    assert u !in all[..m];
    InBlockOf(kv0, u, Meta);
    InBlockOf(kv, u, Meta);
    assert BlockInv(BlockOf(kv, u));
    MetaTyped(BlockOf(kv, u));
  }

  lemma ScanIsSmaller(before: Map, kv: Map, first: Key, left: Key)
    requires Shrunk(before, kv) && left in before && left.part.User() && KeyLess(first, left)
    ensures SpaceAfter(kv, left) < SpaceAfter(before, first)
  {
    hide KeyLess;
    KeyLessTotal(left, left);
    forall x | x in SpaceAfter(kv, left) ensures x in SpaceAfter(before, first) {
      KeyLessTransitive(first, left, x);
    }
    assert left in SpaceAfter(before, first) && left !in SpaceAfter(kv, left);
  }

  lemma MatchingNext(all: seq<bytes>, n: nat, fits: bytes -> bool)
    requires n < |all|
    ensures Matching(all[..n + 1], fits) == if fits(all[n]) then Matching(all[..n], fits) + [all[n]]
            else Matching(all[..n], fits)
  {
    assert all[..n + 1][..n] == all[..n];
  }

  /** One batch of at most 256 keys. */
  method Round(txn: Txn, first: Key, count: nat, retrieved0: nat, keys0: seq<bytes>, fits: bytes -> bool,
               now: u64, listThreshold: nat, collThreshold: nat, ghost before: Map, ghost all: seq<bytes>)
    returns (left: Key, seen: nat, retrieved: nat, next: bytes, keys: seq<bytes>)
    requires Passed(txn.kv, first, all, retrieved0) && Cleaned(before, txn.kv, all, retrieved0, now)
    requires retrieved0 < count && keys0 == Matching(all[..retrieved0], fits)
    modifies txn
    ensures Passed(txn.kv, left, all, retrieved) && Cleaned(before, txn.kv, all, retrieved, now)
    ensures retrieved <= count && keys == Matching(all[..retrieved], fits)
    ensures next == if retrieved == count then all[count - 1] else []
    ensures seen <= 256
    ensures seen > 0 ==> SpaceAfter(txn.kv, left) < SpaceAfter(old(txn.kv), first)
    ensures seen == 0 ==> retrieved == |all| < count && SpaceAfter(txn.kv, left) == SpaceAfter(old(txn.kv), first)
  {
    hide BlockOf, KeyLess, Ascending, Scan, KeyspaceRange, Cleaned, Passed, Shrunk, Matching, SpaceAfter,
         MetaAfter, BlockInv, Reaches, OnlyBlock;
    ghost var kv0 := txn.kv;
    left, seen, retrieved, next, keys := first, 0, retrieved0, [], keys0;
    ghost var scan := Scan(kv0, KeyspaceRange(first));
    var pairs := txn.ScanPairs(KeyspaceRange(first));
    pairs := Take(pairs, 256);
    UserFirst(txn.kv, first, all, retrieved);
    ShrunkSelf(kv0);
    for i := 0 to |pairs|
      invariant left == (if i == 0 then first else scan[i - 1]) && retrieved <= |all| && seen <= i
      invariant Passed(txn.kv, left, all, retrieved) && Cleaned(before, txn.kv, all, retrieved, now)
      invariant retrieved0 <= retrieved < count && keys == Matching(all[..retrieved], fits) && next == []
      invariant Shrunk(kv0, txn.kv)
      invariant seen > 0 ==> left in kv0 && left.part.User() && KeyLess(first, left)
      invariant seen == 0 ==> left == first && i <= 1 && txn.kv == kv0
    {
      NextInScan(kv0, first, i);
      KeyLessTotal(left, left);
      var key := pairs[i].0;
      if key == left {
        continue;
      }
      NextInBoth(kv0, txn.kv, left, key);
      if seen > 0 {
        KeyLessTransitive(first, left, key);
      }
      ghost var was := left;
      left := key;
      seen := seen + 1;
      if !key.part.Meta? {
        PassOther(txn.kv, was, key, all, retrieved);
        continue;
      }
      NextMeta(before, kv0, txn.kv, all, retrieved0, retrieved, was, key, now);
      PassMeta(txn.kv, was, key, all, retrieved);
      if Expired(pairs[i].1.ttl, now) {
        ghost var kv := txn.kv;
        var _ := DelKey(txn, key.ukey, listThreshold, collThreshold);
        PassDeleted(kv, txn.kv, key);
        PassedSame(kv, txn.kv, key, all, retrieved + 1);
        ShrunkMore(kv0, kv, txn.kv, key.ukey);
        CleanedMore(before, kv, txn.kv, all, retrieved, now);
      } else {
        CleanedSame(before, txn.kv, all, retrieved, now);
      }
      MatchingNext(all, retrieved, fits);
      retrieved := retrieved + 1;
      if fits(key.ukey) {
        keys := keys + [key.ukey];
      }
      if retrieved == count {
        next := key.ukey;
        break;
      }
    }
    if seen > 0 {
      ScanIsSmaller(kv0, txn.kv, first, left);
    } else {
      NothingBehind(kv0, first, all, retrieved);
    }
  }

  lemma UserFirst(kv: Map, left: Key, all: seq<bytes>, n: nat)
    requires Passed(kv, left, all, n)
    ensures left.part.User() && n <= |all|
  {
  }

  lemma ShrunkSelf(kv: Map)
    ensures Shrunk(kv, kv)
  {
  }

  lemma PassedSame(kv: Map, after: Map, left: Key, all: seq<bytes>, n: nat)
    requires Passed(kv, left, all, n) && MetaAfter(after, left) == MetaAfter(kv, left)
    ensures Passed(after, left, all, n)
  {
  }

  /** What is next in the snapshot is next in the current state. */
  lemma NextInBoth(kv0: Map, kv: Map, left: Key, key: Key)
    requires Shrunk(kv0, kv) && forall x :: x in SpaceAfter(kv0, left) ==> x == key || KeyLess(key, x)
    ensures forall x :: x in MetaAfter(kv, left) ==> x == key || KeyLess(key, x)
  {
    hide KeyLess;
    forall x | x in MetaAfter(kv, left) ensures x in SpaceAfter(kv0, left) {
    }
  }

  /** A batch that holds nothing new means that every user key was passed. */
  lemma NothingBehind(kv: Map, first: Key, all: seq<bytes>, n: nat)
    requires Passed(kv, first, all, n) && |Scan(kv, KeyspaceRange(first))| <= 1
    requires |Scan(kv, KeyspaceRange(first))| == 1 ==> Scan(kv, KeyspaceRange(first))[0] == first
    ensures n == |all|
  {
    hide KeyLess, Ascending, KeyspaceRange, Scan;
    var scan := Scan(kv, KeyspaceRange(first));
    NextInScan(kv, first, |scan|);
    assert SpaceAfter(kv, first) == {};
    assert MetaAfter(kv, first) <= SpaceAfter(kv, first);
    assert |Ascending(MetaAfter(kv, first))| == 0;
    assert |all[n..]| == 0;
  }

  /** What one call of SCAN answers: the cursor for the next call, empty at the end, and the matching keys. */
  function Page(all: seq<bytes>, count: nat, fits: bytes -> bool): (bytes, seq<bytes>) {
    if count == 0 then ([], [])
    else if |all| < count then ([], Matching(all, fits))
    else (all[count - 1], Matching(all[..count], fits))
  }

  /** SCAN. Expired keys are removed, but still listed and counted. */
  method ScanKeyspace(txn: Txn, start: bytes, count: nat, fits: bytes -> bool, now: u64, listThreshold: nat,
                      collThreshold: nat)
    returns (next: bytes, keys: seq<bytes>)
    requires StoreInv(txn.kv)
    modifies txn
    ensures var all := UserKeysAfter(old(txn.kv), start);
            && (next, keys) == Page(all, count, fits)
            && Cleaned(old(txn.kv), txn.kv, all, if count < |all| then count else |all|, now)
  {
    hide BlockOf, KeyLess, Ascending, Cleaned, Passed, Matching, SpaceAfter, MetaAfter, UserKeys, StoreInv;
    ghost var before, all := txn.kv, UserKeysAfter(txn.kv, start);
    next, keys := [], [];
    var left, retrieved: nat, lastRound: nat := Key(start, Meta), 0, 1;
    WalkStarts(txn.kv, start, now, fits);
    while retrieved < count
      invariant retrieved <= count && retrieved <= |all|
      invariant Passed(txn.kv, left, all, retrieved) && Cleaned(before, txn.kv, all, retrieved, now)
      invariant keys == Matching(all[..retrieved], fits)
      invariant next == if 0 < retrieved == count then all[count - 1] else []
      invariant lastRound == 0 ==> retrieved == |all| < count
      decreases SpaceAfter(txn.kv, left), lastRound
    {
      if lastRound == 0 {
        next := [];
        break;
      }
      left, lastRound, retrieved, next, keys :=
        Round(txn, left, count, retrieved, keys, fits, now, listThreshold, collThreshold, before, all);
      UserFirst(txn.kv, left, all, retrieved);
    }
    assert all[..|all|] == all;
  }

  lemma WalkStarts(kv: Map, start: bytes, now: u64, fits: bytes -> bool)
    requires StoreInv(kv)
    ensures var all := UserKeysAfter(kv, start);
            Passed(kv, Key(start, Meta), all, 0) && Cleaned(kv, kv, all, 0, now) && Matching(all[..0], fits) == []
  {
    hide KeyLess, Ascending, BlockOf, BlockInv;
  }

  // ----- pagination -----

  /** Following the cursors from `start`, with the counts the client chooses, until one comes back empty. */
  function Walk(kv: Map, start: bytes, counts: seq<nat>, fits: bytes -> bool): (seq<bytes>, bool)
    decreases |counts|
  {
    if counts == [] then ([], false)
    else
      var (next, keys) := Page(UserKeysAfter(kv, start), counts[0], fits);
      if next == [] then (keys, true)
      else
        var (more, done) := Walk(kv, next, counts[1..], fits);
        (keys + more, done)
  }

  /** The user keys behind the last key of a page are the rest of the keys. */
  lemma RestOfKeys(kv: Map, start: bytes, n: nat)
    requires n < |UserKeysAfter(kv, start)|
    ensures UserKeysAfter(kv, UserKeysAfter(kv, start)[n]) == UserKeysAfter(kv, start)[n + 1..]
    ensures UserKeysAfter(kv, start)[n] != []
  {
    hide Less, BlockOf, UserKeysAfter;
    UserKeysAre(kv, start);
    var all := UserKeysAfter(kv, start);
    var k, rest := all[n], all[n + 1..];
    UserKeysAre(kv, k);
    assert k in all;
    EmptyIsLeast(start, k);
    forall x ensures x in rest <==> x in UserKeysAfter(kv, k) {
      InRest(kv, start, all, n, x);
    }
    SortedUnique(rest, UserKeysAfter(kv, k));
  }

  lemma EmptyIsLeast(a: bytes, b: bytes)
    requires Less(a, b)
    ensures b != []
  {
  }

  lemma InRest(kv: Map, start: bytes, all: seq<bytes>, n: nat, x: bytes)
    requires Sorted(all) && n < |all| && forall k :: k in all <==> Meta in BlockOf(kv, k) && Less(start, k)
    ensures x in all[n + 1..] <==> Meta in BlockOf(kv, x) && Less(all[n], x)
  {
    hide Less, BlockOf;
    assert all[n] in all;
    if x in all[n + 1..] {
      var i :| n + 1 <= i < |all| && all[i] == x;
      assert x in all;
    }
    if Meta in BlockOf(kv, x) && Less(all[n], x) {
      LessTransitive(start, all[n], x);
      var i :| 0 <= i < |all| && all[i] == x;
      LessTrichotomy(x, all[n]);
      assert i > n;
      assert all[n + 1..][i - n - 1] == x;
    }
  }

  lemma {:induction false} SortedUnique(a: seq<bytes>, b: seq<bytes>)
    requires Sorted(a) && Sorted(b) && forall x :: x in a <==> x in b
    ensures a == b
  {
    hide Less;
    assert a != [] ==> a[0] in b;
    assert b != [] ==> b[0] in a;
    if a != [] {
      var j :| 0 <= j < |b| && b[j] == a[0];
      var i :| 0 <= i < |a| && a[i] == b[0];
      LessTrichotomy(a[0], b[0]);
      assert a[0] == b[0];
      SortedTail(a);
      SortedTail(b);
      SortedUnique(a[1..], b[1..]);
      assert a == [a[0]] + a[1..] && b == [b[0]] + b[1..];
    }
  }

  lemma SortedTail(a: seq<bytes>)
    requires Sorted(a) && a != []
    ensures Sorted(a[1..]) && forall x :: x in a[1..] <==> x in a && x != a[0]
  {
    hide Less;
    forall x | x in a[1..] ensures x in a && x != a[0] {
      var i :| 1 <= i < |a| && a[i] == x;
      LessTrichotomy(a[0], x);
    }
    forall x | x in a && x != a[0] ensures x in a[1..] {
      var i :| 0 <= i < |a| && a[i] == x;
      assert a[1..][i - 1] == x;
    }
  }

  lemma {:induction false} MatchingConcat(a: seq<bytes>, b: seq<bytes>, fits: bytes -> bool)
    ensures Matching(a + b, fits) == Matching(a, fits) + Matching(b, fits)
    decreases |b|
  {
    if b == [] {
      assert a + b == a;
    } else {
      assert (a + b)[..|a + b| - 1] == a + b[..|b| - 1];
      MatchingConcat(a, b[..|b| - 1], fits);
    }
  }

  /**
    Over an unchanged store, a walk that reaches an empty cursor has returned every stored user
    key behind its start exactly once and in order, whatever counts were used.
   */
  lemma {:induction false} WalkReturnsAll(kv: Map, start: bytes, counts: seq<nat>, fits: bytes -> bool)
    requires Walk(kv, start, counts, fits).1 && forall i :: 0 <= i < |counts| ==> counts[i] > 0
    ensures Walk(kv, start, counts, fits).0 == Matching(UserKeysAfter(kv, start), fits)
    decreases |counts|
  {
    hide UserKeysAfter, Matching;
    var all, n := UserKeysAfter(kv, start), counts[0];
    if |all| >= n {
      RestOfKeys(kv, start, n - 1);
      WalkReturnsAll(kv, all[n - 1], counts[1..], fits);
      assert all == all[..n] + all[n..];
      MatchingConcat(all[..n], all[n..], fits);
    }
  }

  /** With one more call than there are keys, every walk comes to its end. */
  lemma {:induction false} WalkEnds(kv: Map, start: bytes, counts: seq<nat>, fits: bytes -> bool)
    requires |counts| > |UserKeysAfter(kv, start)| && forall i :: 0 <= i < |counts| ==> counts[i] > 0
    ensures Walk(kv, start, counts, fits).1
    decreases |counts|
  {
    hide UserKeysAfter, Matching;
    var all, n := UserKeysAfter(kv, start), counts[0];
    if |all| >= n {
      RestOfKeys(kv, start, n - 1);
      WalkEnds(kv, all[n - 1], counts[1..], fits);
    }
  }

  lemma {:induction false} MatchingIn(keys: seq<bytes>, fits: bytes -> bool)
    ensures forall k :: k in Matching(keys, fits) <==> k in keys && fits(k)
    decreases |keys|
  {
    if keys != [] {
      MatchingIn(keys[..|keys| - 1], fits);
      assert keys == keys[..|keys| - 1] + [keys[|keys| - 1]];
    }
  }

  /**
    Redis lists the matching keys that exist. A complete walk lists exactly those if and only if,
    of the stored keys that match, none but the empty one has expired, and that one has.
   */
  lemma WalkMeetsRedisIff(kv: Map, fits: bytes -> bool, now: u64)
    ensures (forall k :: k in Matching(UserKeysAfter(kv, []), fits)
                         <==> Meta in BlockOf(kv, k) && !HasExpired(BlockOf(kv, k), now) && fits(k))
            <==> forall k :: Meta in BlockOf(kv, k) && fits(k) ==> (k == [] <==> HasExpired(BlockOf(kv, k), now))
  {
    hide BlockOf, UserKeysAfter, Matching, HasExpired, Less;
    UserKeysAre(kv, []);
    MatchingIn(UserKeysAfter(kv, []), fits);
    forall k ensures Less([], k) <==> k != [] {
      EmptyFirst(k);
    }
  }
}
