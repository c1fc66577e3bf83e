/**
  The list commands, as they run against the store. Each is proved to act on the stored
  window as the matching operation acts on a sequence.
 */
module List {
  import opened Bytes
  import opened Codec
  import opened Keys
  import opened Values
  import opened Store
  import opened Gc
  import opened GcWorker
  import opened Replies
  import opened Indexes
  import opened ListWindow

  const INIT_INDEX: u64 := 0x1_0000_0000

  /** The list a client sees at time `now`: an expired list counts as absent. */
  ghost function Visible(b: Block, now: u64): seq<bytes>
    requires ListInv(b)
  {
    if HasList(b) && Expired(b[Meta].ttl, now) then [] else Elements(b)
  }

  predicate WrongKind(b: Block) {
    Meta in b && !b[Meta].ListMeta?
  }

  // ----- deletion and expiry -----

  /** Both branches of list deletion: leave the version to the gc, or delete the elements now. */
  method DropList(txn: Txn, k: bytes, threshold: nat)
    requires ListInv(BlockOf(txn.kv, k)) && HasList(BlockOf(txn.kv, k))
    modifies txn
    ensures OnlyBlock(old(txn.kv), txn.kv, k)
    ensures BlockOf(txn.kv, k) == old(Apply(BlockOf(txn.kv, k), Del(|Elements(BlockOf(txn.kv, k))| >= threshold)).0)
    ensures ListInv(BlockOf(txn.kv, k)) && Meta !in BlockOf(txn.kv, k)
            && Reaches(old(BlockOf(txn.kv, k)), BlockOf(txn.kv, k))
  {
    hide BlockOf, Reaches;
    ghost var b := BlockOf(txn.kv, k);
    var meta := txn.Get(Key(k, Meta));
    var version, len := meta.value.version, meta.value.right - meta.value.left;
    assert |Elements(b)| == len;
    DelRefines(b, len >= threshold);
    ReachesByStep(b, Del(len >= threshold));
    if len >= threshold {
      txn.Delete(Key(k, Meta));
      txn.Put(Key(k, Part.Gc), Version(version));
      txn.Put(Key(k, GcVersion(version)), TypeTag(Kind.List));
    } else {
      DeleteFamily(txn, DATA_TYPE_LIST, k, version);
      txn.Delete(Key(k, Meta));
      assert BlockOf(txn.kv, k) == Without(b - {Meta}, Kind.List, version);
    }
  }

  method ListDel(txn: Txn, k: bytes, threshold: nat) returns (n: int)
    requires ListInv(BlockOf(txn.kv, k)) && !WrongKind(BlockOf(txn.kv, k))
    modifies txn
    ensures OnlyBlock(old(txn.kv), txn.kv, k)
    ensures ListInv(BlockOf(txn.kv, k)) && Meta !in BlockOf(txn.kv, k)
            && Reaches(old(BlockOf(txn.kv, k)), BlockOf(txn.kv, k))
    ensures n == if old(Elements(BlockOf(txn.kv, k))) == [] then 0 else 1
    ensures BlockOf(txn.kv, k)
            == if n == 0 then old(BlockOf(txn.kv, k))
               else old(Apply(BlockOf(txn.kv, k), Del(|Elements(BlockOf(txn.kv, k))| >= threshold)).0)
  {
    hide BlockOf, Reaches;
    ReachesSelf(BlockOf(txn.kv, k));
    var meta := txn.Get(Key(k, Meta));
    if meta.None? {
      return 0;
    }
    DropList(txn, k, threshold);
    return 1;
  }

  /** The block once an expired list is dropped. */
  ghost function Lapsed(b: Block, now: u64, threshold: nat): Block
    requires ListInv(b)
  {
    if HasList(b) && Expired(b[Meta].ttl, now) then Apply(b, Del(|Elements(b)| >= threshold)).0 else b
  }

  /** A list would have to be created, and its version is still pending. */
  ghost predicate Exhausted(b: Block, now: u64, threshold: nat)
    requires ListInv(b)
  {
    var c := Lapsed(b, now, threshold);
    Meta !in c && VersionForNew(c) == None
  }

  // ----- the common start of the other commands -----

  datatype Opened = Missing | Wrong | Found(ttl: u64, version: u16, left: u64, right: u64)

  /** Read the meta key, check type and ttl, and drop an expired list. */
  method Open(txn: Txn, k: bytes, now: u64, threshold: nat) returns (meta: Opened)
    requires ListInv(BlockOf(txn.kv, k))
    modifies txn
    ensures OnlyBlock(old(txn.kv), txn.kv, k)
    ensures ListInv(BlockOf(txn.kv, k)) && Reaches(old(BlockOf(txn.kv, k)), BlockOf(txn.kv, k))
    ensures BlockOf(txn.kv, k) == Lapsed(old(BlockOf(txn.kv, k)), now, threshold)
    ensures meta.Wrong? <==> WrongKind(old(BlockOf(txn.kv, k)))
    ensures meta.Wrong? || meta.Found? ==> txn.kv == old(txn.kv)
    ensures meta.Missing? ==> old(Visible(BlockOf(txn.kv, k), now)) == [] && Meta !in BlockOf(txn.kv, k)
    ensures meta.Found? ==>
              && HasList(BlockOf(txn.kv, k)) && !Expired(meta.ttl, now)
              && BlockOf(txn.kv, k)[Meta] == ListMeta(meta.ttl, meta.version, meta.left, meta.right)
              && old(Visible(BlockOf(txn.kv, k), now)) == Elements(BlockOf(txn.kv, k))
  {
    hide BlockOf, VersionInv, Reaches;
    ReachesSelf(BlockOf(txn.kv, k));
    var value := txn.Get(Key(k, Meta));
    if value.None? {
      return Missing;
    }
    if !value.value.ListMeta? {
      return Wrong;
    }
    var ListMeta(ttl, version, left, right) := value.value;
    if Expired(ttl, now) {
      DropList(txn, k, threshold);
      return Missing;
    }
    return Found(ttl, version, left, right);
  }

  // ----- push -----

  ghost function Pushed(s: seq<bytes>, values: seq<bytes>, left: bool): (r: seq<bytes>)
    ensures |r| == |s| + |values|
  {
    if left then Reverse(values) + s else s + values
  }

  /** Room in the index space for `n` more elements on the side they go to. */
  predicate Fits(left: u64, right: u64, n: nat, opLeft: bool) {
    if opLeft then n <= left else right + n < INDEX_LIMIT
  }

  ghost predicate Headroom(b: Block, now: u64, n: nat, opLeft: bool) {
    if HasList(b) && !Expired(b[Meta].ttl, now) then Fits(b[Meta].left, b[Meta].right, n, opLeft)
    else Fits(INIT_INDEX, INIT_INDEX, n, opLeft)
  }

  /** A new list has room for 2^32 elements on the left, and for almost 2^63 on the right. */
  lemma RoomOfNew(b: Block, now: u64, n: nat, opLeft: bool)
    requires Meta !in b
    ensures Headroom(b, now, n, opLeft) <==> if opLeft then n <= 0x1_0000_0000 else n < 0x7FFF_FFFF_0000_0000
  {
  }

  lemma PushedStep(s: seq<bytes>, values: seq<bytes>, i: nat, left: bool)
    requires i < |values|
    ensures Pushed(s, values[..i + 1], left)
            == if left then [values[i]] + Pushed(s, values[..i], left) else Pushed(s, values[..i], left) + [values[i]]
  {
    assert values[..i + 1] == values[..i] + [values[i]];
    if left {
      assert Reverse(values[..i + 1]) == [values[i]] + Reverse(values[..i]);
    }
  }

  lemma PushedIs(s: seq<bytes>, values: seq<bytes>, left: bool)
    ensures Pushed(s, values, left) == if left then Reverse(values) + s else s + values
  {
  }

  lemma PushedNone(s: seq<bytes>, left: bool)
    ensures Pushed(s, [], left) == s
  {
  }

  /** The loop that writes the values one by one at the ends of the window; indexes wrap around. */
  method WriteElems(txn: Txn, k: bytes, v: u16, left: u64, right: u64, values: seq<bytes>, opLeft: bool,
                    ghost s: seq<bytes>)
    returns (l: u64, r: u64)
    requires Window(BlockOf(txn.kv, k), v, left, right, s) && |values| < INDEX_LIMIT
    modifies txn
    ensures OnlyBlock(old(txn.kv), txn.kv, k)
    ensures OnlyElems(old(BlockOf(txn.kv, k)), BlockOf(txn.kv, k), v)
    ensures Meta in BlockOf(txn.kv, k) <==> Meta in old(BlockOf(txn.kv, k))
    ensures if opLeft then l == Below(left, |values|) && r == right else l == left && r == right + |values|
    ensures Fits(left, right, |values|, opLeft) ==> Window(BlockOf(txn.kv, k), v, l, r, Pushed(s, values, opLeft))
  {
    hide BlockOf, Window, OnlyElems, OnlyBlock, Pushed;
    ghost var b, fits := BlockOf(txn.kv, k), Fits(left, right, |values|, opLeft);
    l, r := left, right;
    assert values[..0] == [];
    PushedNone(s, opLeft);
    OnlyElemsRefl(b, v);
    OnlyBlockRefl(txn.kv, k);
    WindowBounds(b, v, left, right, s);
    for i := 0 to |values|
      invariant opLeft ==> l == Below(left, i) && r == right
      invariant !opLeft ==> l == left && r == right + i
      invariant OnlyBlock(old(txn.kv), txn.kv, k)
      invariant OnlyElems(b, BlockOf(txn.kv, k), v) && (Meta in BlockOf(txn.kv, k) <==> Meta in b)
      invariant fits ==> Window(BlockOf(txn.kv, k), v, l, r, Pushed(s, values[..i], opLeft))
    {
      ghost var was, kv, c := Pushed(s, values[..i], opLeft), txn.kv, BlockOf(txn.kv, k);
      PushedStep(s, values, i, opLeft);
      var idx: u64;
      if opLeft {
        l := Below(l, 1);
        idx := l;
        if fits {
          PutLeft(b, c, v, l + 1, r, was, values[i]);
        }
      } else {
        idx := r;
        r := r + 1;
        if fits {
          PutRight(b, c, v, l, r - 1, was, values[i]);
        }
      }
      PutAnywhere(b, c, v, idx, Blob(values[i]));
      txn.Put(ElemKey(k, v, idx), Blob(values[i]));
      OnlyBlockTrans(old(txn.kv), kv, txn.kv, k);
    }
    assert values[..|values|] == values;
  }

  datatype Prepared = Refused(error: Error) | Ready(ttl: u64, version: u16, left: u64, right: u64)

  /** Settle version and window: those of a live list, or a free version and the middle of the index space. */
  method Prepare(txn: Txn, k: bytes, now: u64, threshold: nat) returns (start: Prepared)
    requires ListInv(BlockOf(txn.kv, k))
    modifies txn
    ensures OnlyBlock(old(txn.kv), txn.kv, k)
    ensures ListInv(BlockOf(txn.kv, k)) && Reaches(old(BlockOf(txn.kv, k)), BlockOf(txn.kv, k))
    ensures start == Refused(WrongType) <==> WrongKind(old(BlockOf(txn.kv, k)))
    ensures start == Refused(WrongType) ==> txn.kv == old(txn.kv)
    ensures start == Refused(VersionExhausted) <==> old(Exhausted(BlockOf(txn.kv, k), now, threshold))
    ensures start.Refused? ==> start.error == WrongType || start.error == VersionExhausted
    ensures start.Refused? ==> Stays(old(BlockOf(txn.kv, k)), BlockOf(txn.kv, k), Kind.List)
    ensures BlockOf(txn.kv, k) == old(Lapsed(BlockOf(txn.kv, k), now, threshold))
    ensures start.Ready? ==>
              && WorksOn(BlockOf(txn.kv, k), start.version)
              && Window(BlockOf(txn.kv, k), start.version, start.left, start.right,
                        old(Visible(BlockOf(txn.kv, k), now)))
              && start.ttl == (if Meta in old(BlockOf(txn.kv, k)) then old(BlockOf(txn.kv, k)[Meta].ttl) else 0)
              && (forall n: nat, opLeft :: old(Headroom(BlockOf(txn.kv, k), now, n, opLeft))
                                           <==> Fits(start.left, start.right, n, opLeft))
  {
    hide BlockOf, Window, VersionInv, Reaches, NextVersion;
    ReachesSelf(BlockOf(txn.kv, k));
    var meta := txn.Get(Key(k, Meta));
    var ttl: u64 := 0;
    if meta.Some? {
      if !meta.value.ListMeta? {
        return Refused(WrongType);
      }
      ttl := meta.value.ttl;
      if !Expired(ttl, now) {
        return Ready(ttl, meta.value.version, meta.value.left, meta.value.right);
      }
      DropList(txn, k, threshold);
    }
    var free := GetVersionForNew(txn, k);
    if free.None? {
      return Refused(VersionExhausted);
    }
    FreshVersionEmpty(BlockOf(txn.kv, k), free.value);
    EmptyWindow(BlockOf(txn.kv, k), free.value, INIT_INDEX);
    return Ready(ttl, free.value, INIT_INDEX, INIT_INDEX);
  }

  /** The meta key of a list whose window has left the index space. */
  lemma NoWindow(b: Block, c: Block, ttl: u64, v: u16, left: u64, right: u64)
    requires VersionInv(b) && WorksOn(b, v) && OnlyElems(b, c, v)
    requires Meta in c && c[Meta] == ListMeta(ttl, v, left, right) && !(left < right < INDEX_LIMIT)
    ensures !ListInv(c) && Reaches(b, c)
  {
    StoredReached(b, c, v);
  }

  /** Write the meta key; the list is in order exactly if its window is one. */
  method WriteMeta(txn: Txn, k: bytes, ttl: u64, v: u16, left: u64, right: u64, ghost base: Block, ghost fits: bool,
                  ghost s: seq<bytes>)
    requires VersionInv(base) && WorksOn(base, v) && OnlyElems(base, BlockOf(txn.kv, k), v)
    requires if fits then s != [] && Window(BlockOf(txn.kv, k), v, left, right, s) else !(left < right < INDEX_LIMIT)
    modifies txn
    ensures OnlyBlock(old(txn.kv), txn.kv, k) && Reaches(base, BlockOf(txn.kv, k))
    ensures Meta in BlockOf(txn.kv, k) && BlockOf(txn.kv, k)[Meta] == ListMeta(ttl, v, left, right)
    ensures ListInv(BlockOf(txn.kv, k)) <==> fits
    ensures fits ==> Elements(BlockOf(txn.kv, k)) == s
  {
    hide BlockOf, Window, OnlyElems, VersionInv, Reaches, OnlyBlock, WorksOn, ListInv, Elements;
    ghost var c := BlockOf(txn.kv, k);
    var meta := ListMeta(ttl, v, left, right);
    txn.Put(Key(k, Meta), meta);
    SameElems(base, c, v, meta);
    if fits {
      MetaKeepsWindow(c, v, left, right, s, meta);
      Stored(base, BlockOf(txn.kv, k), ttl, v, left, right, s);
    } else {
      NoWindow(base, BlockOf(txn.kv, k), ttl, v, left, right);
    }
  }

  lemma SameElems(base: Block, c: Block, v: u16, meta: Value)
    requires OnlyElems(base, c, v)
    ensures OnlyElems(base, c[Meta := meta], v)
  {
  }

  lemma MetaKeepsWindow(c: Block, v: u16, left: int, right: int, s: seq<bytes>, meta: Value)
    requires Window(c, v, left, right, s)
    ensures Window(c[Meta := meta], v, left, right, s)
  {
  }

  /**
    An expired list is replaced by one with the same ttl, so what was just pushed is already
    expired. The length that is answered is right in every case; the list is in order if and only
    if the index space has room, for indexes wrap around silently.
   */
  method Push(txn: Txn, k: bytes, values: seq<bytes>, opLeft: bool, now: u64, threshold: nat)
    returns (reply: Reply<int>)
    requires ListInv(BlockOf(txn.kv, k)) && 0 < |values| < INDEX_LIMIT
    modifies txn
    ensures OnlyBlock(old(txn.kv), txn.kv, k)
    ensures Served(Kind.List, old(BlockOf(txn.kv, k)), BlockOf(txn.kv, k))
    ensures var b := old(BlockOf(txn.kv, k)); var c := BlockOf(txn.kv, k);
            if WrongKind(b) then reply == Err(WrongType) && c == b
            else if Exhausted(b, now, threshold) then
              reply == Err(VersionExhausted) && c == Lapsed(b, now, threshold) && ListInv(c)
            else
              && reply == Ok(|Visible(b, now)| + |values|)
              && Meta in c && c[Meta].ListMeta? && c[Meta].ttl == (if Meta in b then b[Meta].ttl else 0)
              && (ListInv(c) <==> Headroom(b, now, |values|, opLeft))
              && (ListInv(c) ==>
                    Elements(c) == if opLeft then Reverse(values) + Visible(b, now) else Visible(b, now) + values)
  {
    hide BlockOf, Window, OnlyElems, Pushed, VersionInv, Reaches, OnlyBlock, Headroom, WorksOn, Lapsed, Exhausted,
         Reverse;
    ghost var s := Visible(BlockOf(txn.kv, k), now);
    var start := Prepare(txn, k, now, threshold);
    if start.Refused? {
      return Err(start.error);
    }
    var Ready(ttl, version, left, right) := start;
    ghost var base, kv, fits := BlockOf(txn.kv, k), txn.kv, Fits(left, right, |values|, opLeft);
    WindowBounds(base, version, left, right, s);
    left, right := WriteElems(txn, k, version, left, right, values, opLeft, s);
    OnlyBlockTrans(old(txn.kv), kv, txn.kv, k);
    kv := txn.kv;
    WriteMeta(txn, k, ttl, version, left, right, base, fits, Pushed(s, values, opLeft));
    PushedIs(s, values, opLeft);
    OnlyBlockTrans(old(txn.kv), kv, txn.kv, k);
    ReachesTrans(old(BlockOf(txn.kv, k)), base, BlockOf(txn.kv, k));
    return Ok(Between64(left, right));
  }

  /** A list that starts at index 0, as after 2^32 pushes to the left: one more breaks it. */
  lemma WrapExample()
    ensures var b: Block := map[Meta := ListMeta(0, 0, 0, 1), ElemPart(0, 0) := Blob([])];
            ListInv(b) && !Headroom(b, 0, 1, true)
  {
    var b: Block := map[Meta := ListMeta(0, 0, 0, 1), ElemPart(0, 0) := Blob([])];
    forall v, s | Data(v, s) in b ensures Owned(b, v, s) {
    }
  }

  // ----- pop -----

  function Taken(count: i64, len: nat): nat {
    if 0 <= count < len then count else len
  }

  ghost function Popped(s: seq<bytes>, n: nat, left: bool): (seq<bytes>, seq<bytes>)
    requires n <= |s|
  {
    if left then (s[..n], s[n..]) else (Reverse(s)[..n], s[..|s| - n])
  }

  lemma PoppedStep(s: seq<bytes>, n: nat, left: bool)
    requires n < |s|
    ensures var (taken, rest) := Popped(s, n, left);
            var x, rest' := if left then rest[0] else rest[|rest| - 1], if left then rest[1..] else rest[..|rest| - 1];
            Popped(s, n + 1, left) == (taken + [x], rest')
  {
    if left {
      assert s[..n + 1] == s[..n] + [s[n]] && s[n..][1..] == s[n + 1..];
    } else {
      var r := Reverse(s);
      assert r[..n + 1] == r[..n] + [r[n]] && s[..|s| - n][..|s| - n - 1] == s[..|s| - n - 1];
    }
  }

  /** The keys of the elements to pop, in the order they are asked for. */
  function PopKeys(k: bytes, v: u16, left: nat, right: nat, n: nat, opLeft: bool): (keys: seq<Key>)
    requires left + n <= right < INDEX_LIMIT
    ensures |keys| == n
    ensures forall i :: 0 <= i < n ==> keys[i] == ElemKey(k, v, if opLeft then left + i else right - 1 - i)
  {
    seq(n, i requires 0 <= i < n => ElemKey(k, v, if opLeft then left + i else right - 1 - i))
  }

  function DataAt(kv: Map, key: Key): bytes {
    if key in kv && kv[key].Blob? then kv[key].data else []
  }

  function Image<S, T>(a: seq<S>, f: S -> T): (r: seq<T>)
    ensures |r| == |a| && forall i :: 0 <= i < |r| ==> r[i] == f(a[i])
  {
    seq(|a|, i requires 0 <= i < |a| => f(a[i]))
  }

  function DataOf(kv: Map, keys: seq<Key>): (r: seq<bytes>)
    ensures |r| == |keys| && forall i :: 0 <= i < |r| ==> r[i] == DataAt(kv, keys[i])
  {
    Image(keys, key => DataAt(kv, key))
  }

  lemma {:induction false} Once<T>(a: seq<T>)
    requires forall i, j :: 0 <= i < j < |a| ==> a[i] != a[j]
    ensures forall x :: multiset(a)[x] == if x in a then 1 else 0
  {
    if a != [] {
      var init, last := a[..|a| - 1], a[|a| - 1];
      Once(init);
      assert a == init + [last];
    }
  }

  lemma ImageAround<S, T>(front: seq<S>, x: S, back: seq<S>, f: S -> T)
    ensures multiset(Image(front + [x] + back, f)) == multiset(Image(front + back, f)) + multiset{f(x)}
  {
    var a, b := Image(front, f), Image(back, f);
    assert Image(front + [x] + back, f) == a + [f(x)] + b;
    assert Image(front + back, f) == a + b;
  }

  /** Take an element out of a sequence that has it. */
  lemma TakeOut<T>(b: seq<T>, x: T) returns (front: seq<T>, back: seq<T>)
    requires x in multiset(b)
    ensures b == front + [x] + back && multiset(front + back) == multiset(b) - multiset{x}
  {
    var j :| 0 <= j < |b| && b[j] == x;
    front, back := b[..j], b[j + 1..];
    assert b == front + [x] + back;
  }

  lemma Headed<T>(a: seq<T>)
    requires a != []
    ensures a == [] + [a[0]] + a[1..] && [] + a[1..] == a[1..] && multiset(a[1..]) == multiset(a) - multiset{a[0]}
    ensures a[0] in multiset(a)
  {
    assert a == [a[0]] + a[1..];
  }

  /** The same things in another order have the same images in another order. */
  lemma {:induction false} ImageInAnyOrder<S, T>(a: seq<S>, b: seq<S>, f: S -> T)
    requires multiset(a) == multiset(b)
    ensures multiset(Image(a, f)) == multiset(Image(b, f))
    decreases |a|
  {
    hide Image;
    if a == [] {
      assert |b| == |multiset(b)| == 0;
      assert a == b;
    } else {
      Headed(a);
      var front, back := TakeOut(b, a[0]);
      ImageInAnyOrder(a[1..], front + back, f);
      ImageAround([], a[0], a[1..], f);
      ImageAround(front, a[0], back, f);
    }
  }

  lemma DataInAnyOrder(kv: Map, keys: seq<Key>, order: seq<Key>)
    requires forall i, j :: 0 <= i < j < |keys| ==> keys[i] != keys[j]
    requires forall i, j :: 0 <= i < j < |order| ==> order[i] != order[j]
    requires forall key :: key in order <==> key in keys
    ensures multiset(DataOf(kv, order)) == multiset(DataOf(kv, keys))
  {
    hide DataAt, Image;
    Once(keys);
    Once(order);
    assert multiset(order) == multiset(keys);
    ImageInAnyOrder(order, keys, key => DataAt(kv, key));
  }

  /** The keys asked for are distinct and stored, and hold the popped elements. */
  lemma PopKeysHold(kv: Map, k: bytes, v: u16, left: nat, right: nat, s: seq<bytes>, n: nat, opLeft: bool)
    requires Window(BlockOf(kv, k), v, left, right, s) && n <= |s|
    ensures var keys := PopKeys(k, v, left, right, n, opLeft);
            && (forall i, j :: 0 <= i < j < n ==> keys[i] != keys[j])
            && (forall key :: key in keys <==> key in StoredOf(kv, keys))
            && (forall key :: key in keys ==> key in kv && kv[key].Blob?)
            && DataOf(kv, keys) == Popped(s, n, opLeft).0
  {
    hide BlockOf;
    var keys := PopKeys(k, v, left, right, n, opLeft);
    forall i | 0 <= i < n
      ensures keys[i] in kv && kv[keys[i]] == Blob(s[if opLeft then i else |s| - 1 - i])
    {
      InBlockOf(kv, k, keys[i].part);
    }
  }

  lemma GoneParts(k: bytes, v: u16, left: nat, right: nat, n: nat, opLeft: bool, i: u64)
    requires left + n <= right < INDEX_LIMIT
    ensures ElemPart(v, i) in (set key | key in PopKeys(k, v, left, right, n, opLeft) :: key.part)
            <==> if opLeft then left <= i < left + n else right - n <= i < right
  {
    var keys := PopKeys(k, v, left, right, n, opLeft);
    if if opLeft then left <= i < left + n else right - n <= i < right {
      assert keys[if opLeft then i - left else right - 1 - i].part == ElemPart(v, i);
    }
  }

  lemma PoppedRest(s: seq<bytes>, n: nat, left: bool)
    requires n <= |s|
    ensures Popped(s, n, left).1 == if left then s[n..] else s[..|s| - n]
  {
  }

  lemma PopWindow(b: Block, k: bytes, v: u16, left: nat, right: nat, s: seq<bytes>, n: nat, opLeft: bool)
    requires Window(b, v, left, right, s) && n <= |s|
    ensures var c := b - set key | key in PopKeys(k, v, left, right, n, opLeft) :: key.part;
            && OnlyElems(b, c, v)
            && Window(c, v, if opLeft then left + n else left, if opLeft then right else right - n,
                      Popped(s, n, opLeft).1)
  {
    hide Popped, Reverse;
    var gone := set key | key in PopKeys(k, v, left, right, n, opLeft) :: key.part;
    forall i: u64
      ensures ElemPart(v, i) in gone <==> if opLeft then left <= i < left + n else right - n <= i < right
    {
      GoneParts(k, v, left, right, n, opLeft, i);
    }
    PoppedRest(s, n, opLeft);
  }

  /** LPOP and RPOP of one element. */
  method TakeElem(txn: Txn, k: bytes, v: u16, left: u64, right: u64, opLeft: bool, ghost s: seq<bytes>)
    returns (l: u64, r: u64, values: seq<bytes>)
    requires Window(BlockOf(txn.kv, k), v, left, right, s) && s != []
    modifies txn
    ensures OnlyBlock(old(txn.kv), txn.kv, k)
    ensures OnlyElems(old(BlockOf(txn.kv, k)), BlockOf(txn.kv, k), v)
    ensures values == Popped(s, 1, opLeft).0
    ensures Window(BlockOf(txn.kv, k), v, l, r, Popped(s, 1, opLeft).1)
  {
    hide BlockOf, Window, OnlyElems, OnlyBlock, Reverse, Popped;
    ghost var b := BlockOf(txn.kv, k);
    WindowBounds(b, v, left, right, s);
    OnlyElemsRefl(b, v);
    PoppedNone(s, opLeft);
    PoppedStep(s, 0, opLeft);
    l, r := left, right;
    var idx: u64;
    if opLeft {
      idx := left;
      l := left + 1;
      DropLeft(b, b, v, left, right, s);
    } else {
      r := right - 1;
      idx := r;
      DropRight(b, b, v, left, right, s);
    }
    var value := txn.Get(ElemKey(k, v, idx));
    values := [value.value.data];
    txn.Delete(ElemKey(k, v, idx));
  }

  /** Pop several elements: collect their keys, fetch them in one batch, and delete them. */
  method TakeElems(txn: Txn, k: bytes, v: u16, left: u64, right: u64, n: nat, opLeft: bool, ghost s: seq<bytes>)
    returns (l: u64, r: u64, values: seq<bytes>)
    requires Window(BlockOf(txn.kv, k), v, left, right, s) && n <= |s|
    modifies txn
    ensures OnlyBlock(old(txn.kv), txn.kv, k)
    ensures OnlyElems(old(BlockOf(txn.kv, k)), BlockOf(txn.kv, k), v)
    ensures multiset(values) == multiset(Popped(s, n, opLeft).0)
    ensures Window(BlockOf(txn.kv, k), v, l, r, Popped(s, n, opLeft).1)
  {
    hide BlockOf, Window, OnlyElems, OnlyBlock, Reverse, Popped;
    ghost var b := BlockOf(txn.kv, k);
    WindowBounds(b, v, left, right, s);
    l, r := left, right;
    var keys: seq<Key> := [];
    for i := 0 to n
      invariant |keys| == i
      invariant l == if opLeft then left + i else left
      invariant r == if opLeft then right else right - i
      invariant keys == PopKeys(k, v, left, right, i, opLeft)
    {
      var idx: u64;
      if opLeft {
        idx := l;
        l := l + 1;
      } else {
        idx := r - 1;
        r := r - 1;
      }
      keys := keys + [ElemKey(k, v, idx)];
    }
    PopWindow(b, k, v, left, right, s, n, opLeft);
    values := FetchAll(txn, k, v, left, right, n, opLeft, keys, s);
  }

  method FetchAll(txn: Txn, k: bytes, v: u16, ghost left: nat, ghost right: nat, ghost n: nat, ghost opLeft: bool,
                  keys: seq<Key>, ghost s: seq<bytes>)
    returns (values: seq<bytes>)
    requires Window(BlockOf(txn.kv, k), v, left, right, s) && n <= |s|
    requires keys == PopKeys(k, v, left, right, n, opLeft)
    modifies txn
    ensures OnlyBlock(old(txn.kv), txn.kv, k)
    ensures BlockOf(txn.kv, k) == old(BlockOf(txn.kv, k)) - set key | key in keys :: key.part
    ensures multiset(values) == multiset(Popped(s, n, opLeft).0)
  {
    hide BlockOf, Window, OnlyBlock, Popped, DataAt, DataOf;
    PopKeysHold(txn.kv, k, v, left, right, s, n, opLeft);
    var pairs, order := txn.BatchGet(keys);
    DataInAnyOrder(txn.kv, keys, order);
    forall i | 0 <= i < |order| ensures order[i] in keys {
      assert order[i] in order;
    }
    values := DeletePairs(txn, k, pairs, order);
    assert (set key | key in order :: key.part) == set key | key in keys :: key.part;
  }

  /** The loop over the fetched pairs. */
  method DeletePairs(txn: Txn, k: bytes, pairs: seq<(Key, Value)>, ghost order: seq<Key>) returns (values: seq<bytes>)
    requires forall i :: 0 <= i < |order| ==> order[i] in txn.kv && txn.kv[order[i]].Blob? && order[i].ukey == k
    requires pairs == Pairs(txn.kv, order)
    modifies txn
    ensures OnlyBlock(old(txn.kv), txn.kv, k)
    ensures BlockOf(txn.kv, k) == old(BlockOf(txn.kv, k)) - set key | key in order :: key.part
    ensures values == DataOf(old(txn.kv), order)
  {
    hide BlockOf, OnlyBlock;
    ghost var b := BlockOf(txn.kv, k);
    OnlyBlockRefl(txn.kv, k);
    values := [];
    for i := 0 to |pairs|
      invariant OnlyBlock(old(txn.kv), txn.kv, k)
      invariant BlockOf(txn.kv, k) == b - set key | key in order[..i] :: key.part
      invariant values == DataOf(old(txn.kv), order[..i])
    {
      ghost var kv := txn.kv;
      values := values + [pairs[i].1.data];
      txn.Delete(pairs[i].0);
      OnlyBlockTrans(old(txn.kv), kv, txn.kv, k);
      assert order[..i + 1] == order[..i] + [order[i]];
    }
    assert order[..|order|] == order;
  }

  lemma PoppedIs(s: seq<bytes>, n: nat, left: bool)
    requires n <= |s|
    ensures multiset(Popped(s, n, left).0) == multiset(if left then s[..n] else s[|s| - n..])
    ensures n == 1 ==> Popped(s, n, left).0 == [if left then s[0] else s[|s| - 1]]
    ensures Popped(s, n, left).1 == if left then s[n..] else s[..|s| - n]
  {
    if !left {
      hide Reverse;
      var back := s[|s| - n..];
      ReversedPrefix(s, n);
      ReverseMultiset(back);
      ReverseOne(s);
    }
  }

  lemma ReversedPrefix(s: seq<bytes>, n: nat)
    requires n <= |s|
    ensures Reverse(s)[..n] == Reverse(s[|s| - n..])
  {
    hide Reverse;
    if n > 0 {
      ReverseSub(s, 0, n - 1);
      assert Reverse(s)[0..n] == Reverse(s)[..n];
    } else {
      assert s[|s| - n..] == [];
    }
  }

  lemma ReverseOne(s: seq<bytes>)
    ensures s != [] ==> Reverse(s)[..1] == [s[|s| - 1]]
  {
  }

  lemma {:induction false} ReverseMultiset<T>(s: seq<T>)
    ensures multiset(Reverse(s)) == multiset(s)
  {
    if s != [] {
      ReverseMultiset(s[..|s| - 1]);
      assert s == s[..|s| - 1] + [s[|s| - 1]];
    }
  }

  lemma PoppedNone(s: seq<bytes>, left: bool)
    ensures Popped(s, 0, left) == ([], s)
  {
    assert s[..0] == [] && s[0..] == s && Reverse(s)[..0] == [] && s[..|s| - 0] == s;
  }

  /** What a count takes: as many as it says, or all for a negative one or one that is too large. */
  lemma PopMeans(s: seq<bytes>, count: i64, left: bool)
    ensures var n := if 0 <= count <= |s| then count else |s|; var (taken, rest) := Popped(s, Taken(count, |s|), left);
            && multiset(taken) == multiset(if left then s[..n] else s[|s| - n..])
            && (count == 1 && s != [] ==> taken == [if left then s[0] else s[|s| - 1]])
            && rest == if left then s[n..] else s[..|s| - n]
  {
    hide Popped;
    PoppedIs(s, Taken(count, |s|), left);
  }

  /** The part of LPOP and RPOP after the window is known. */
  method PopLive(txn: Txn, k: bytes, ttl: u64, v: u16, left: u64, right: u64, opLeft: bool, count: i64,
                 ghost s: seq<bytes>, ghost b: Block)
    returns (values: seq<bytes>)
    requires b == BlockOf(txn.kv, k) && VersionInv(b) && WorksOn(b, v) && Window(b, v, left, right, s) && s != []
    modifies txn
    ensures OnlyBlock(old(txn.kv), txn.kv, k)
    ensures ListInv(BlockOf(txn.kv, k)) && Reaches(b, BlockOf(txn.kv, k))
    ensures Meta in BlockOf(txn.kv, k) ==> HasList(BlockOf(txn.kv, k)) && BlockOf(txn.kv, k)[Meta].ttl == ttl
    ensures var (taken, rest) := Popped(s, Taken(count, |s|), opLeft);
            && multiset(values) == multiset(taken) && (count == 1 ==> values == taken)
            && Elements(BlockOf(txn.kv, k)) == rest
  {
    hide BlockOf, Window, OnlyElems, Popped, VersionInv, Reverse, Reaches, OnlyBlock, WorksOn, ListInv, Elements;
    WindowBounds(b, v, left, right, s);
    var l, r, n := left, right, Taken(count, right - left);
    if count == 1 {
      l, r, values := TakeElem(txn, k, v, left, right, opLeft, s);
    } else {
      l, r, values := TakeElems(txn, k, v, left, right, n, opLeft, s);
    }
    ghost var kv := txn.kv;
    Settle(txn, k, ttl, v, l, r, b, Popped(s, n, opLeft).1);
    OnlyBlockTrans(old(txn.kv), kv, txn.kv, k);
  }

  /** One element comes back as it is; several come back in whatever order the batch get returns them. */
  method Pop(txn: Txn, k: bytes, opLeft: bool, count: i64, now: u64, threshold: nat) returns (reply: Reply<seq<bytes>>)
    requires ListInv(BlockOf(txn.kv, k))
    modifies txn
    ensures OnlyBlock(old(txn.kv), txn.kv, k)
    ensures ListInv(BlockOf(txn.kv, k)) && Served(Kind.List, old(BlockOf(txn.kv, k)), BlockOf(txn.kv, k))
    ensures KeepsTtl(old(BlockOf(txn.kv, k)), BlockOf(txn.kv, k))
    ensures old(Visible(BlockOf(txn.kv, k), now)) == [] ==>
              BlockOf(txn.kv, k) == Lapsed(old(BlockOf(txn.kv, k)), now, threshold)
    ensures var s := old(Visible(BlockOf(txn.kv, k), now)); var n := if 0 <= count <= |s| then count else |s|;
            if WrongKind(old(BlockOf(txn.kv, k))) then reply == Err(WrongType) && txn.kv == old(txn.kv)
            else
              && reply.Ok? && multiset(reply.value) == multiset(if opLeft then s[..n] else s[|s| - n..])
              && (count == 1 && s != [] ==> reply.value == [if opLeft then s[0] else s[|s| - 1]])
              && Elements(BlockOf(txn.kv, k)) == if opLeft then s[n..] else s[..|s| - n]
  {
    hide BlockOf, Lapsed, Window, VersionInv, Reaches, OnlyBlock, Popped, Taken;
    PopMeans(Visible(BlockOf(txn.kv, k), now), count, opLeft);
    var meta := Open(txn, k, now, threshold);
    if meta.Wrong? {
      return Err(WrongType);
    } else if meta.Missing? {
      return Ok([]);
    }
    var Found(ttl, version, left, right) := meta;
    var values := PopLive(txn, k, ttl, version, left, right, opLeft, count, Elements(BlockOf(txn.kv, k)),
                          BlockOf(txn.kv, k));
    return Ok(values);
  }

  // ----- trim -----

  function Clamp(i: int, len: nat): int
    requires len > 0
  {
    if i < 0 then 0 else if i > len - 1 then len - 1 else i
  }

  /** LTRIM as coded: both indexes are clamped into the list. */
  function Trimmed(s: seq<bytes>, start: int, end: int): seq<bytes> {
    if s == [] then []
    else
      var a, b := Clamp(Normal(start, |s|), |s|), Clamp(Normal(end, |s|), |s|);
      if a <= b then s[a..b + 1] else []
  }

  /** The code meets the documented behaviour except where clamping pulls an index back into the list. */
  lemma TrimMeetsRedisIff(s: seq<bytes>, start: int, end: int)
    requires s != []
    ensures var a, b := Normal(start, |s|), Normal(end, |s|);
            Trimmed(s, start, end) == RedisRange(s, start, end)
            <==> (start < |s| && end >= -|s|) || Clamp(a, |s|) > Clamp(b, |s|)
  {
    var a, b := Normal(start, |s|), Normal(end, |s|);
    if Clamp(a, |s|) <= Clamp(b, |s|) {
      assert |Trimmed(s, start, end)| == Clamp(b, |s|) - Clamp(a, |s|) + 1;
    }
  }

  /** Clamping: a start behind the list counts as its last position, an end before it as its first. */
  lemma TrimIsRange(s: seq<bytes>, start: int, end: int)
    ensures Trimmed(s, start, end)
            == RedisRange(s, if start >= |s| > 0 then |s| - 1 else start, if end < -|s| then -|s| else end)
  {
  }

  lemma NothingTrimmed(start: int, end: int)
    ensures Trimmed([], start, end) == []
  {
  }

  /** A start behind the list keeps its last element, where Redis empties the list. */
  lemma TrimExample()
    ensures Trimmed([[1], [2], [3]], 5, 9) == [[3]] && RedisRange([[1], [2], [3]], 5, 9) == []
  {
    var s: seq<bytes> := [[1], [2], [3]];
    assert s[2..3] == [[3]];
  }

  predicate ElemIn(p: Part, v: u16, first: int, last: int) {
    p.Data? && p.version == v && p.slot.Elem? && first <= p.slot.idx < last
  }

  function WithoutElems(b: Block, v: u16, first: int, last: int): Block {
    map p | p in b && !ElemIn(p, v, first, last) :: b[p]
  }

  method DeleteElems(txn: Txn, k: bytes, v: u16, first: nat, last: nat)
    requires first <= last < INDEX_LIMIT
    modifies txn
    ensures OnlyBlock(old(txn.kv), txn.kv, k)
    ensures BlockOf(txn.kv, k) == WithoutElems(old(BlockOf(txn.kv, k)), v, first, last)
  {
    hide BlockOf;
    ghost var b := BlockOf(txn.kv, k);
    var idx := first;
    while idx < last
      invariant first <= idx <= last
      invariant OnlyBlock(old(txn.kv), txn.kv, k)
      invariant BlockOf(txn.kv, k) == WithoutElems(b, v, first, idx)
    {
      txn.Delete(ElemKey(k, v, idx));
      idx := idx + 1;
    }
  }

  lemma TrimWindow(b: Block, v: u16, left: nat, right: nat, s: seq<bytes>, start: nat, end: nat)
    requires Window(b, v, left, right, s) && left <= start < right && left <= end < right
    ensures var c := WithoutElems(WithoutElems(b, v, left, start), v, end + 1, right);
            && OnlyElems(b, c, v)
            && (start <= end ==> Window(c, v, start, end + 1, s[start - left..end + 1 - left]))
            && (start > end ==> Window(c, v, left, left, []))
  {
    var c := WithoutElems(WithoutElems(b, v, left, start), v, end + 1, right);
    assert forall i: u64 :: ElemPart(v, i) in c <==> left <= i < right && start <= i <= end;
  }

  /** The part of LTRIM after the window is known. */
  method TrimLive(txn: Txn, k: bytes, ttl: u64, v: u16, left: u64, right: u64, start: i64, end: i64,
                  ghost s: seq<bytes>, ghost b: Block)
    requires b == BlockOf(txn.kv, k) && VersionInv(b) && WorksOn(b, v) && Window(b, v, left, right, s) && s != []
    modifies txn
    ensures OnlyBlock(old(txn.kv), txn.kv, k)
    ensures ListInv(BlockOf(txn.kv, k)) && Reaches(b, BlockOf(txn.kv, k))
    ensures Meta in BlockOf(txn.kv, k) ==> HasList(BlockOf(txn.kv, k)) && BlockOf(txn.kv, k)[Meta].ttl == ttl
    ensures Elements(BlockOf(txn.kv, k)) == Trimmed(s, start, end)
  {
    hide BlockOf, Window, OnlyElems, VersionInv, Reaches, OnlyBlock, WorksOn, WithoutElems, ListInv, Elements;
    WindowBounds(b, v, left, right, s);
    var len := right - left;
    var first, last := left + Clamp(Normal(start, len), len), left + Clamp(Normal(end, len), len);
    TrimWindow(b, v, left, right, s, first, last);
    DeleteElems(txn, k, v, left, first);
    ghost var kv := txn.kv;
    DeleteElems(txn, k, v, last + 1, right);
    OnlyBlockTrans(old(txn.kv), kv, txn.kv, k);
    kv := txn.kv;
    if first >= last + 1 {
      DropMeta(txn, k, v, b, left);
    } else {
      SaveMeta(txn, k, ttl, v, first, last + 1, b, s[first - left..last + 1 - left]);
    }
    OnlyBlockTrans(old(txn.kv), kv, txn.kv, k);
  }

  method Ltrim(txn: Txn, k: bytes, start: i64, end: i64, now: u64, threshold: nat) returns (reply: Reply<()>)
    requires ListInv(BlockOf(txn.kv, k))
    modifies txn
    ensures OnlyBlock(old(txn.kv), txn.kv, k)
    ensures ListInv(BlockOf(txn.kv, k)) && Served(Kind.List, old(BlockOf(txn.kv, k)), BlockOf(txn.kv, k))
    ensures KeepsTtl(old(BlockOf(txn.kv, k)), BlockOf(txn.kv, k))
    ensures old(Visible(BlockOf(txn.kv, k), now)) == [] ==>
              BlockOf(txn.kv, k) == Lapsed(old(BlockOf(txn.kv, k)), now, threshold)
    ensures var s := old(Visible(BlockOf(txn.kv, k), now));
            if WrongKind(old(BlockOf(txn.kv, k))) then reply == Err(WrongType) && txn.kv == old(txn.kv)
            else
              && reply == Ok(())
              && Elements(BlockOf(txn.kv, k))
                 == RedisRange(s, if start >= |s| > 0 then |s| - 1 else start, if end < -|s| then -|s| else end)
  {
    hide BlockOf, Lapsed, Window, VersionInv, Reaches, RedisRange, Trimmed, OnlyBlock;
    TrimIsRange(Visible(BlockOf(txn.kv, k), now), start, end);
    NothingTrimmed(start, end);
    var meta := Open(txn, k, now, threshold);
    if meta.Wrong? {
      return Err(WrongType);
    } else if meta.Missing? {
      return Ok(());
    }
    var Found(ttl, version, left, right) := meta;
    TrimLive(txn, k, ttl, version, left, right, start, end, Elements(BlockOf(txn.kv, k)), BlockOf(txn.kv, k));
    return Ok(());
  }

  // ----- single elements -----

  lemma PutInside(b: Block, c: Block, v: u16, left: int, right: int, s: seq<bytes>, i: int, x: bytes)
    requires Window(c, v, left, right, s) && OnlyElems(b, c, v) && left <= i < right
    ensures var d := c[ElemPart(v, i) := Blob(x)];
            && Window(d, v, left, right, s[i - left := x]) && OnlyElems(b, d, v) && (Meta in d <==> Meta in c)
  {
  }

  method Lset(txn: Txn, k: bytes, idx: i64, ele: bytes, now: u64, threshold: nat) returns (reply: Reply<()>)
    requires ListInv(BlockOf(txn.kv, k))
    modifies txn
    ensures OnlyBlock(old(txn.kv), txn.kv, k)
    ensures ListInv(BlockOf(txn.kv, k)) && Served(Kind.List, old(BlockOf(txn.kv, k)), BlockOf(txn.kv, k))
    ensures KeepsTtl(old(BlockOf(txn.kv, k)), BlockOf(txn.kv, k))
    ensures old(Visible(BlockOf(txn.kv, k), now)) == [] ==>
              BlockOf(txn.kv, k) == Lapsed(old(BlockOf(txn.kv, k)), now, threshold)
    ensures var s := old(Visible(BlockOf(txn.kv, k), now)); var i := if idx < 0 then |s| + idx else idx;
            if WrongKind(old(BlockOf(txn.kv, k))) then reply == Err(WrongType) && txn.kv == old(txn.kv)
            else if s == [] then reply == Err(NoSuchKey) && Elements(BlockOf(txn.kv, k)) == []
            else if 0 <= i < |s| then reply == Ok(()) && Elements(BlockOf(txn.kv, k)) == s[i := ele]
            else reply == Err(IndexOutOfRange) && txn.kv == old(txn.kv)
  {
    hide BlockOf, Lapsed, Window, OnlyElems, VersionInv, Reaches;
    var meta := Open(txn, k, now, threshold);
    if meta.Wrong? {
      return Err(WrongType);
    } else if meta.Missing? {
      return Err(NoSuchKey);
    }
    var Found(ttl, version, left, right) := meta;
    ghost var b := BlockOf(txn.kv, k);
    ghost var s := Elements(b);
    WindowBounds(b, version, left, right, s);
    var i := Normal(idx, right - left);
    var uidx := i + left;
    if i < 0 || uidx < left || uidx > right - 1 {
      return Err(IndexOutOfRange);
    }
    OnlyElemsRefl(b, version);
    PutInside(b, b, version, left, right, s, uidx, ele);
    txn.Put(ElemKey(k, version, uidx), Blob(ele));
    Stored(b, BlockOf(txn.kv, k), ttl, version, left, right, s[i := ele]);
    return Ok(());
  }

  method Lindex(txn: Txn, k: bytes, idx: i64, now: u64, threshold: nat) returns (reply: Reply<Option<bytes>>)
    requires ListInv(BlockOf(txn.kv, k))
    modifies txn
    ensures OnlyBlock(old(txn.kv), txn.kv, k)
    ensures ListInv(BlockOf(txn.kv, k)) && Served(Kind.List, old(BlockOf(txn.kv, k)), BlockOf(txn.kv, k))
    ensures KeepsTtl(old(BlockOf(txn.kv, k)), BlockOf(txn.kv, k))
    ensures BlockOf(txn.kv, k) == Lapsed(old(BlockOf(txn.kv, k)), now, threshold)
    ensures var s := old(Visible(BlockOf(txn.kv, k), now)); var i := if idx < 0 then |s| + idx else idx;
            && (WrongKind(old(BlockOf(txn.kv, k))) ==> reply == Err(WrongType) && txn.kv == old(txn.kv))
            && (!WrongKind(old(BlockOf(txn.kv, k))) ==>
                  reply == Ok(if 0 <= i < |s| then Some(s[i]) else None) && Elements(BlockOf(txn.kv, k)) == s)
  {
    hide BlockOf, Lapsed, VersionInv, Reaches;
    var meta := Open(txn, k, now, threshold);
    if meta.Wrong? {
      return Err(WrongType);
    } else if meta.Missing? {
      return Ok(None);
    }
    var Found(ttl, version, left, right) := meta;
    var position := left + Normal(idx, right - left);
    // the conversion to u64 wraps a negative position around
    var uidx: u64 := if position < 0 then position + 0x1_0000_0000_0000_0000 else position;
    var value := txn.Get(ElemKey(k, version, uidx));
    ghost var s := Elements(BlockOf(txn.kv, k));
    assert ElemPart(version, uidx) in BlockOf(txn.kv, k) <==> left <= uidx < right;
    return Ok(if value.None? then None else Some(value.value.data));
  }
}
