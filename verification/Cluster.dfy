/**
  Cluster slots: how the 16384 slots are dealt out to the nodes, which part of a key is
  hashed, and which node therefore collects a deleted version.
 */
module Cluster {
  import opened Bytes
  import opened Codec

  const SLOTS: nat := 16384

  // ----- dealing out the slots -----

  datatype SlotRange = SlotRange(first: nat, last: nat) {
    predicate Owns(slot: nat) {
      first <= slot <= last
    }
  }

  /** The ranges of `n` nodes in the order of their addresses. */
  method BuildRanges(n: nat) returns (ranges: seq<SlotRange>)
    requires 0 < n <= SLOTS
    ensures ranges == Layout(n)
  {
    var step := SLOTS / n - 1;
    var start := 0;
    ranges := [];
    for i := 0 to n
      invariant |ranges| == i && start == i * (SLOTS / n) + (if i == n then Extra(n) else 0)
      invariant forall j :: 0 <= j < i ==> ranges[j] == RangeOf(n, j)
    {
      StartFits(n, i);
      var end := start + step;
      if end + step > SLOTS - 1 {
        end := SLOTS - 1;
      }
      ranges := ranges + [SlotRange(start, end)];
      start := end + 1;
    }
  }

  /** What the last node gets on top of an equal share. */
  function Extra(n: nat): nat
    requires 0 < n <= SLOTS
  {
    if SLOTS / n >= SLOTS % n + 2 then SLOTS % n else 0
  }

  /** An equal share each; the last node also takes the rest, unless the rest is almost a share or more. */
  function RangeOf(n: nat, i: nat): SlotRange
    requires 0 < n <= SLOTS && i < n
  {
    var q := SLOTS / n;
    StartFits(n, i);
    SlotRange(i * q, i * q + q - 1 + if i == n - 1 then Extra(n) else 0)
  }

  function Layout(n: nat): (r: seq<SlotRange>)
    requires 0 < n <= SLOTS
    ensures |r| == n && forall i :: 0 <= i < n ==> r[i] == RangeOf(n, i)
  {
    seq(n, i requires 0 <= i < n => RangeOf(n, i))
  }

  /** Where the clamp to the last slot takes effect: never before the last node, and there only if the rest is small. */
  lemma StartFits(n: nat, i: nat)
    requires 0 < n <= SLOTS && i < n
    ensures var q := SLOTS / n;
            && q >= 1 && i * q >= 0
            && (i + 1) * q == i * q + q
            && (i < n - 1 ==> i * q + 2 * (q - 1) < SLOTS)
            && (i == n - 1 ==> i * q + q == SLOTS - SLOTS % n)
  {
    var q := SLOTS / n;
    DivMod(n);
    assert (i + 1) * q == i * q + q;
    if i < n - 1 {
      MulLe(i + 2, n, q);
      assert (i + 2) * q == i * q + 2 * q;
    } else {
      assert n * q == (i + 1) * q;
    }
  }

  lemma DivMod(n: nat)
    requires 0 < n <= SLOTS
    ensures n * (SLOTS / n) + SLOTS % n == SLOTS && SLOTS / n >= 1 && 0 <= SLOTS % n < n
  {
  }

  lemma MulLe(a: nat, b: nat, c: nat)
    requires a <= b
    ensures a * c <= b * c
  {
  }

  // ----- who owns a slot -----

  /** The slots that are dealt out at all. */
  function Dealt(n: nat): nat
    requires 0 < n <= SLOTS
  {
    SLOTS - SLOTS % n + Extra(n)
  }

  /** The node that owns a slot. */
  function Owner(n: nat, slot: nat): (i: nat)
    requires 0 < n <= SLOTS && slot < Dealt(n)
    ensures i < n && RangeOf(n, i).Owns(slot)
  {
    var q := SLOTS / n;
    DivMod(n);
    StartFits(n, n - 1);
    if slot / q < n - 1 then
      ShareOf(slot, q);
      slot / q
    else
      ShareOf(slot, q);
      MulLe(n - 1, slot / q, q);
      n - 1
  }

  lemma ShareOf(slot: nat, q: nat)
    requires q > 0
    ensures slot / q * q <= slot < slot / q * q + q
  {
  }

  /** Ranges follow one another without overlap. */
  lemma RangesDisjoint(n: nat, i: nat, j: nat, slot: nat)
    requires 0 < n <= SLOTS && i < n && j < n && RangeOf(n, i).Owns(slot) && RangeOf(n, j).Owns(slot)
    ensures i == j
  {
    var q := SLOTS / n;
    StartFits(n, i);
    StartFits(n, j);
    if i < j {
      MulLe(i + 1, j, q);
    } else if j < i {
      MulLe(j + 1, i, q);
    }
  }

  ghost predicate Served(n: nat, slot: nat)
    requires 0 < n <= SLOTS
  {
    exists i :: 0 <= i < n && RangeOf(n, i).Owns(slot)
  }

  /** The slots that have an owner are exactly those dealt out. */
  lemma OwnedIff(n: nat, slot: nat)
    requires 0 < n <= SLOTS
    ensures Served(n, slot) <==> slot < Dealt(n)
  {
    if slot < Dealt(n) {
      assert RangeOf(n, Owner(n, slot)).Owns(slot);
    } else {
      forall i | 0 <= i < n ensures !RangeOf(n, i).Owns(slot) {
        StartFits(n, i);
        StartFits(n, n - 1);
        if i < n - 1 {
          MulLe(i + 1, n - 1, SLOTS / n);
        }
      }
    }
  }

  /** All slots are served if and only if they divide evenly or the rest is at least two smaller than a share. */
  lemma AllServedIff(n: nat)
    requires 0 < n <= SLOTS
    ensures (forall slot: nat :: slot < SLOTS ==> Served(n, slot))
            <==> SLOTS % n == 0 || SLOTS / n >= SLOTS % n + 2
  {
    if SLOTS % n == 0 || SLOTS / n >= SLOTS % n + 2 {
      forall slot: nat | slot < SLOTS ensures Served(n, slot) {
        OwnedIff(n, slot);
      }
    } else {
      OwnedIff(n, SLOTS - 1);
    }
  }

  /** With 10000 nodes of one slot each, the last slots belong to nobody. */
  lemma UnservedExample()
    ensures !Served(10000, SLOTS - 1)
  {
    OwnedIff(10000, SLOTS - 1);
  }

  /** That covers every cluster of up to 128 nodes. */
  lemma SmallClustersServed(n: nat)
    requires 0 < n <= 128
    ensures SLOTS % n == 0 || SLOTS / n >= SLOTS % n + 2
  {
    DivMod(n);
    if n < 128 {
      MulLe(n, 127, n + 1);
      assert 127 * (n + 1) <= 127 * 128;
      ShareAtLeast(n, n + 1);
    }
  }

  lemma ShareAtLeast(n: nat, m: nat)
    requires 0 < n <= SLOTS && n * m <= SLOTS
    ensures SLOTS / n >= m
  {
    DivMod(n);
    var q := SLOTS / n;
    assert (q + 1) * n == n * q + n;
    if q < m {
      MulLe(q + 1, m, n);
    }
  }

  // ----- which part of a key is hashed -----

  const OPEN: byte := 0x7B   // left brace
  const CLOSE: byte := 0x7D  // right brace

  function FirstFrom(key: bytes, c: byte, from: nat): (r: Option<nat>)
    requires from <= |key|
    ensures r.Some? ==> from <= r.value < |key| && key[r.value] == c && forall i :: from <= i < r.value ==> key[i] != c
    ensures r.None? ==> forall i :: from <= i < |key| ==> key[i] != c
    decreases |key| - from
  {
    if from == |key| then None else if key[from] == c then Some(from) else FirstFrom(key, c, from + 1)
  }

  /** The hash tag as Redis Cluster defines it: between the first opening brace and the first closing one after it. */
  function RedisTag(key: bytes): (tag: Option<(nat, nat)>)
    ensures tag.Some? ==> tag.value.0 < tag.value.1 < |key|
  {
    match FirstFrom(key, OPEN, 0)
    case None => None
    case Some(l) =>
      match FirstFrom(key, CLOSE, l + 1)
      case None => None
      case Some(r) => Some((l, r))
  }

  /** What is hashed, given the braces: what stands between them, unless that is nothing. */
  function HashedPart(key: bytes, tag: Option<(nat, nat)>): bytes
    requires tag.Some? ==> tag.value.0 < tag.value.1 < |key|
  {
    if tag.Some? && tag.value.1 - tag.value.0 > 1 then key[tag.value.0 + 1..tag.value.1] else key
  }

  /** What is hashed, byte for byte: the whole key without braces or with nothing between them. */
  lemma HashedIs(key: bytes)
    ensures RedisTag(key).None? ==> HashedPart(key, RedisTag(key)) == key
    ensures forall l, r ::
              && 0 <= l < r < |key| && key[l] == 0x7B && key[r] == 0x7D
              && (forall i :: 0 <= i < l ==> key[i] != 0x7B) && (forall i :: l < i < r ==> key[i] != 0x7D)
              ==> HashedPart(key, RedisTag(key)) == if l + 1 == r then key else key[l + 1..r]
    ensures (forall l, r :: 0 <= l < r < |key| ==> key[l] != 0x7B || key[r] != 0x7D) ==> RedisTag(key).None?
  {
  }

  /** The last opening brace before a position. */
  function LastOpen(key: bytes, end: nat): (r: Option<nat>)
    requires end <= |key|
    ensures r.Some? ==> r.value < end && key[r.value] == OPEN && forall i :: r.value < i < end ==> key[i] != OPEN
    ensures r.None? ==> forall i :: 0 <= i < end ==> key[i] != OPEN
  {
    if end == 0 then None else if key[end - 1] == OPEN then Some(end - 1) else LastOpen(key, end - 1)
  }

  /** The loop of the gc master: it keeps the last opening brace it saw. */
  method FindTag(key: bytes) returns (tag: Option<(nat, nat)>)
    ensures tag.Some? <==> RedisTag(key).Some?
    ensures tag.Some? ==> tag.value.1 == RedisTag(key).value.1 && Some(tag.value.0) == LastOpen(key, tag.value.1)
    ensures tag.Some? ==> tag.value.0 < tag.value.1 < |key|
  {
    var left: Option<nat> := None;
    for idx := 0 to |key|
      invariant left == LastOpen(key, idx)
      invariant left.Some? ==> forall j, i :: 0 <= j < i < idx && key[j] == OPEN ==> key[i] != CLOSE
    {
      if key[idx] == OPEN {
        left := Some(idx);
      }
      if left.Some? && key[idx] == CLOSE {
        return Some((left.value, idx));
      }
    }
    return None;
  }

  /** The loop hashes what Redis hashes if and only if no second opening brace stands inside the tag. */
  lemma TagMeetsRedisIff(key: bytes, tag: Option<(nat, nat)>)
    requires tag.Some? <==> RedisTag(key).Some?
    requires tag.Some? ==> tag.value.0 < tag.value.1 < |key|
    requires tag.Some? ==> tag.value.1 == RedisTag(key).value.1 && Some(tag.value.0) == LastOpen(key, tag.value.1)
    ensures HashedPart(key, tag) == HashedPart(key, RedisTag(key))
            <==> (RedisTag(key).Some? ==> var (l, r) := RedisTag(key).value; forall i :: l < i < r ==> key[i] != OPEN)
  {
    if tag.Some? {
      var (l, r) := RedisTag(key).value;
      var m := tag.value.0;
      if l < m {
        assert |HashedPart(key, RedisTag(key))| == r - l - 1;
        assert |HashedPart(key, tag)| == if r - m > 1 then r - m - 1 else |key|;
      }
    }
  }

  /** With a second opening brace, Redis hashes two bytes and the gc only one. */
  lemma TagExample()
    ensures var key: bytes := [OPEN, OPEN, 97, CLOSE];
            && HashedPart(key, RedisTag(key)) == [OPEN, 97]
            && LastOpen(key, 3) == Some(1) && HashedPart(key, Some((1, 3))) == [97]
  {
    var key: bytes := [OPEN, OPEN, 97, CLOSE];
    assert FirstFrom(key, OPEN, 0) == Some(0);
    assert FirstFrom(key, CLOSE, 3) == Some(3);
    assert FirstFrom(key, CLOSE, 2) == Some(3);
    assert FirstFrom(key, CLOSE, 1) == Some(3);
    assert key[1..3] == [OPEN, 97] && key[2..3] == [97];
    assert LastOpen(key, 2) == Some(1);
  }

  // ----- who collects a deleted version -----

  /** The slot of a key, for a checksum `crc` of its hashed part. */
  function SlotOf(part: bytes, crc: bytes -> nat): nat {
    crc(part) % SLOTS
  }

  /** Two nodes never collect the same key, and some node collects it exactly when its slot is dealt out. */
  lemma OneCollector(n: nat, part: bytes, crc: bytes -> nat)
    requires 0 < n <= SLOTS
    ensures var slot := SlotOf(part, crc);
            && slot == crc(part) % 0x4000
            && (forall i, j :: 0 <= i < n && 0 <= j < n && RangeOf(n, i).Owns(slot) && RangeOf(n, j).Owns(slot)
                    ==> i == j)
            && (Served(n, slot) <==> slot < Dealt(n))
            && (n <= 128 ==> Served(n, slot))
  {
    var slot := SlotOf(part, crc);
    forall i, j | 0 <= i < n && 0 <= j < n && RangeOf(n, i).Owns(slot) && RangeOf(n, j).Owns(slot) ensures i == j {
      RangesDisjoint(n, i, j, slot);
    }
    OwnedIff(n, slot);
    if n <= 128 {
      SmallClustersServed(n);
    }
  }
}
