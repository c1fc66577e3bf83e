/**
  The two building blocks of every TiKV key: the memcomparable encoding of user keys
  (groups of eight bytes, each followed by a marker that counts the padding) and
  fixed-width big-endian integers.
 */
module Codec {
  import opened Bytes

  datatype Option<+T> = None | Some(value: T)

  const GROUP: nat := 8
  const MARKER: byte := 0xFF

  function Zeros(n: nat): (z: bytes)
    ensures |z| == n
  {
    seq(n, _ => 0)
  }

  // ----- memcomparable byte strings -----

  /** What `encode_bytes` computes, one group at a time. */
  function Enc(key: bytes): bytes {
    if |key| >= GROUP then key[..GROUP] + [MARKER] + Enc(key[GROUP..])
    else key + Zeros(GROUP - |key|) + [MARKER - (GROUP - |key|)]
  }

  lemma EncStep(acc: bytes, rest: bytes)
    ensures |rest| >= GROUP ==> acc + Enc(rest) == acc + rest[..GROUP] + [MARKER] + Enc(rest[GROUP..])
    ensures |rest| < GROUP ==> acc + Enc(rest) == acc + rest + Zeros(GROUP - |rest|) + [MARKER - (GROUP - |rest|)]
  {
    if |rest| >= GROUP {
      ConcatAssoc(acc, rest[..GROUP], [MARKER], Enc(rest[GROUP..]));
    } else {
      ConcatAssoc(acc, rest, Zeros(GROUP - |rest|), [MARKER - (GROUP - |rest|)]);
    }
  }

  lemma ConcatAssoc(a: bytes, b: bytes, c: bytes, d: bytes)
    ensures a + (b + c + d) == a + b + c + d
  {
  }

  /** The groups, byte for byte. */
  lemma EncLayout(key: bytes)
    ensures |key| >= 8 ==> Enc(key) == key[..8] + [0xFF] + Enc(key[8..])
    ensures |key| < 8 ==>
              && |Enc(key)| == 9 && Enc(key)[..|key|] == key && Enc(key)[8] == 0xF7 + |key|
              && forall i :: |key| <= i < 8 ==> Enc(key)[i] == 0
  {
  }

  method EncodeBytes(key: bytes) returns (enc: bytes)
    ensures enc == Enc(key)
  {
    hide Enc;
    var len := |key|;
    var index := 0;
    enc := [];
    ghost var done := false;
    while index <= len
      invariant 0 <= index <= len + GROUP
      invariant done <==> index > len
      invariant !done ==> enc + Enc(key[index..]) == Enc(key)
      invariant done ==> enc == Enc(key)
    {
      var remain := len - index;
      var pad := 0;
      ghost var before, rest := enc, key[index..];
      if remain > GROUP {
        enc := enc + key[index..index + GROUP];
        assert rest[..GROUP] == key[index..index + GROUP];
      } else {
        pad := GROUP - remain;
        enc := enc + key[index..];
        enc := enc + Zeros(pad);
        if remain == GROUP {
          assert before + rest + Zeros(0) == before + rest[..GROUP];
        }
      }
      enc := enc + [MARKER - pad];
      EncStep(before, rest);
      if remain >= GROUP {
        assert rest[GROUP..] == key[index + GROUP..];
      } else {
        done := true;
      }
      index := index + GROUP;
    }
  }

  /** Padding with zeros keeps the order, except that it can make a string equal to a longer one. */
  lemma {:induction false} PadOrder(a: bytes, b: bytes, n: nat)
    requires |a| <= n && |b| <= n && a != b
    ensures var p, q := a + Zeros(n - |a|), b + Zeros(n - |b|);
            Less(a, b) <==> Less(p, q) || (p == q && |a| < |b|)
    decreases n
  {
    var p, q := a + Zeros(n - |a|), b + Zeros(n - |b|);
    if a != [] && b != [] {
      assert p[1..] == a[1..] + Zeros(n - 1 - |a[1..]|) && q[1..] == b[1..] + Zeros(n - 1 - |b[1..]|);
      assert a == [a[0]] + a[1..] && b == [b[0]] + b[1..];
      assert p == [p[0]] + p[1..] && q == [q[0]] + q[1..];
      if a[0] == b[0] {
        PadOrder(a[1..], b[1..], n - 1);
      }
    } else if a == [] {
      assert p == Zeros(|q|);
      ZerosLeast(q);
    } else {
      assert q == Zeros(|p|);
      ZerosLeast(p);
    }
  }

  lemma {:induction false} ZerosLeast(s: bytes)
    ensures !Less(s, Zeros(|s|))
    ensures s != Zeros(|s|) ==> Less(Zeros(|s|), s)
  {
    if s != [] {
      assert Zeros(|s|)[1..] == Zeros(|s[1..]|);
      assert Zeros(|s|) == [0] + Zeros(|s[1..]|) && s == [s[0]] + s[1..];
      ZerosLeast(s[1..]);
    }
  }

  /**
    Encoded user keys compare exactly as the user keys do, whatever is appended to them:
    the encoding is a strict order embedding and no encoding is a prefix of another.
   */
  lemma {:induction false} EncOrder(a: bytes, b: bytes, x: bytes, y: bytes)
    requires a != b
    ensures Less(Enc(a) + x, Enc(b) + y) <==> Less(a, b)
    decreases |a| + |b|
  {
    hide Less;
    if |a| >= GROUP && |b| >= GROUP {
      var ga, gb := a[..GROUP], b[..GROUP];
      var ra, rb := a[GROUP..], b[GROUP..];
      assert a == ga + ra && b == gb + rb;
      assert Enc(a) + x == ga + ([MARKER] + (Enc(ra) + x));
      assert Enc(b) + y == gb + ([MARKER] + (Enc(rb) + y));
      LessBlocks(ga, gb, ra, rb);
      LessBlocks(ga, gb, [MARKER] + (Enc(ra) + x), [MARKER] + (Enc(rb) + y));
      if ga == gb {
        LessAppend([MARKER], Enc(ra) + x, Enc(rb) + y);
        EncOrder(ra, rb, x, y);
      }
    } else {
      LastGroupOrder(a, b, x, y);
    }
  }

  function FirstGroup(a: bytes): (g: bytes)
    ensures |g| == GROUP
  {
    if |a| >= GROUP then a[..GROUP] else a + Zeros(GROUP - |a|)
  }

  function FirstMarker(a: bytes): byte {
    if |a| >= GROUP then MARKER else MARKER - (GROUP - |a|)
  }

  lemma EncFirst(a: bytes, x: bytes) returns (rest: bytes)
    ensures Enc(a) + x == FirstGroup(a) + ([FirstMarker(a)] + rest)
  {
    if |a| >= GROUP {
      rest := Enc(a[GROUP..]) + x;
      assert Enc(a) + x == a[..GROUP] + ([MARKER] + rest);
    } else {
      rest := x;
    }
  }

  lemma LastGroupOrder(a: bytes, b: bytes, x: bytes, y: bytes)
    requires a != b && (|a| < GROUP || |b| < GROUP)
    ensures Less(Enc(a) + x, Enc(b) + y) <==> Less(a, b)
  {
    hide Enc, FirstGroup, FirstMarker;
    var ra := EncFirst(a, x);
    var rb := EncFirst(b, y);
    var ga, gb, ma, mb := FirstGroup(a), FirstGroup(b), FirstMarker(a), FirstMarker(b);
    LessBlocks(ga, gb, [ma] + ra, [mb] + rb);
    assert Less(Enc(a) + x, Enc(b) + y) <==> Less(ga, gb) || (ga == gb && Less([ma] + ra, [mb] + rb));
    FirstGroupOrder(a, b);
    if ga == gb {
      assert ma != mb;
      assert Less([ma] + ra, [mb] + rb) <==> ma < mb;
    }
  }

  function Cut(a: bytes): bytes {
    if |a| >= GROUP then a[..GROUP] else a
  }

  lemma FirstGroupOrder(a: bytes, b: bytes)
    requires a != b && (|a| < GROUP || |b| < GROUP)
    ensures FirstGroup(a) == FirstGroup(b) ==> FirstMarker(a) != FirstMarker(b)
    ensures Less(a, b) <==> Less(FirstGroup(a), FirstGroup(b))
                            || (FirstGroup(a) == FirstGroup(b) && FirstMarker(a) < FirstMarker(b))
  {
    hide Less, FirstGroup;
    CutPads(a);
    CutPads(b);
    assert Cut(a) != Cut(b);
    PadOrder(Cut(a), Cut(b), GROUP);
    TruncationOrder(a, b);
    if |a| < GROUP && |b| < GROUP && |a| == |b| && FirstGroup(a) == FirstGroup(b) {
      SamePad(a, b, Zeros(GROUP - |a|));
    }
  }

  lemma SamePad(a: bytes, b: bytes, z: bytes)
    requires a + z == b + z && |a| == |b|
    ensures a == b
  {
    assert a == (a + z)[..|a|] && b == (b + z)[..|b|];
  }

  lemma CutPads(a: bytes)
    ensures FirstGroup(a) == Cut(a) + Zeros(GROUP - |Cut(a)|)
    ensures FirstMarker(a) == MARKER - (GROUP - |Cut(a)|)
  {
  }

  /** When one side is shorter than a group, cutting both to a group decides the order. */
  lemma TruncationOrder(a: bytes, b: bytes)
    requires a != b && (|a| < GROUP || |b| < GROUP)
    ensures Less(a, b) <==> Less(Cut(a), Cut(b))
  {
    if |a| >= GROUP {
      PrefixOrder(b, a[..GROUP], a[GROUP..]);
      assert a == a[..GROUP] + a[GROUP..];
      LessTrichotomy(a, b);
      LessTrichotomy(a[..GROUP], b);
    } else if |b| >= GROUP {
      PrefixOrder(a, b[..GROUP], b[GROUP..]);
      assert b == b[..GROUP] + b[GROUP..];
    }
  }

  lemma {:induction false} PrefixOrder(s: bytes, p: bytes, t: bytes)
    requires |s| < |p|
    ensures Less(s, p + t) <==> Less(s, p)
  {
    if s != [] {
      assert (p + t)[1..] == p[1..] + t;
      PrefixOrder(s[1..], p[1..], t);
    }
  }

  /** No encoding is a proper prefix of another, and equal keys leave equal remainders. */
  lemma EncPrefixFree(a: bytes, b: bytes, x: bytes, y: bytes)
    requires Enc(a) + x == Enc(b) + y
    ensures a == b && x == y
  {
    if a != b {
      EncOrder(a, b, x, y);
      EncOrder(b, a, y, x);
      LessTrichotomy(a, b);
      LessTrichotomy(Enc(a) + x, Enc(b) + y);
    } else {
      assert x == (Enc(a) + x)[|Enc(a)|..] && y == (Enc(b) + y)[|Enc(b)|..];
    }
  }

  /** What `decode_bytes` computes; `None` where the slicing or the subtraction panics. */
  function Dec(data: bytes): Option<bytes> {
    if |data| < GROUP + 1 then None
    else
      var pad := MARKER - data[GROUP];
      if pad == 0 then
        match Dec(data[GROUP + 1..])
        case None => None
        case Some(rest) => Some(data[..GROUP] + rest)
      else if pad > GROUP then None
      else Some(data[..GROUP - pad])
  }

  method DecodeBytes(data: bytes) returns (key: Option<bytes>)
    ensures key == Dec(data)
  {
    var acc, offset := [], 0;
    assert data[0..] == data;
    assert forall t: bytes :: [] + t == t;
    while true
      invariant 0 <= offset <= |data|
      invariant Dec(data) == match Dec(data[offset..]) case None => None case Some(rest) => Some(acc + rest)
      decreases |data| - offset
    {
      var next := offset + GROUP + 1;
      if next > |data| {
        return None;
      }
      var chunk := data[offset..next];
      ghost var rest := data[offset..];
      assert chunk[GROUP] == rest[GROUP] && rest[GROUP + 1..] == data[next..];
      offset := next;
      var pad := MARKER - chunk[GROUP];
      if pad == 0 {
        ghost var was := acc;
        acc := acc + chunk[..GROUP];
        assert chunk[..GROUP] == rest[..GROUP];
        assert forall t: bytes :: was + (rest[..GROUP] + t) == acc + t;
        continue;
      }
      if pad > GROUP {
        return None;
      }
      assert chunk[..GROUP - pad] == rest[..GROUP - pad];
      return Some(acc + chunk[..GROUP - pad]);
    }
  }

  function EncLen(encoded: bytes): nat {
    if |encoded| < GROUP + 1 then |encoded|
    else if encoded[GROUP] != MARKER then GROUP + 1
    else GROUP + 1 + EncLen(encoded[GROUP + 1..])
  }

  method EncodedBytesLen(encoded: bytes) returns (n: nat)
    ensures n == EncLen(encoded)
  {
    var idx := GROUP;
    while true
      invariant GROUP <= idx <= |encoded| + GROUP
      invariant EncLen(encoded) == idx - GROUP + EncLen(encoded[idx - GROUP..])
      decreases |encoded| + GROUP - idx
    {
      ghost var rest := encoded[idx - GROUP..];
      if |encoded| < idx + 1 {
        return |encoded|;
      }
      assert rest[GROUP] == encoded[idx];
      if encoded[idx] != MARKER {
        return idx + 1;
      }
      assert rest[GROUP + 1..] == encoded[idx + 1..];
      idx := idx + GROUP + 1;
    }
  }

  /** With anything appended, the decoder recovers the key and the length of its encoding. */
  lemma {:induction false} DecEnc(a: bytes, x: bytes)
    ensures Dec(Enc(a) + x) == Some(a)
    ensures EncLen(Enc(a) + x) == |Enc(a)|
  {
    var s := Enc(a) + x;
    if |a| >= GROUP {
      assert s[..GROUP] == a[..GROUP] && s[GROUP] == MARKER;
      assert s[GROUP + 1..] == Enc(a[GROUP..]) + x;
      DecEnc(a[GROUP..], x);
      assert a == a[..GROUP] + a[GROUP..];
    } else {
      assert s[GROUP] == MARKER - (GROUP - |a|);
      assert s[..|a|] == a;
    }
  }

  // ----- fixed-width big-endian integers -----

  function Pow256(w: nat): (p: nat)
    ensures p > 0
  {
    if w == 0 then 1 else 256 * Pow256(w - 1)
  }

  function BigEndian(n: nat, w: nat): (s: bytes)
    ensures |s| == w
    decreases w, n
  {
    if w == 0 then [] else BigEndian(n / 256, w - 1) + [n % 256]
  }

  function FromBigEndian(s: bytes): nat {
    if s == [] then 0 else 256 * FromBigEndian(s[..|s| - 1]) + s[|s| - 1]
  }

  lemma {:induction false} BigEndianRoundTrip(n: nat, w: nat)
    requires n < Pow256(w)
    ensures FromBigEndian(BigEndian(n, w)) == n
  {
    if w > 0 {
      BigEndianRoundTrip(n / 256, w - 1);
      assert BigEndian(n, w)[..w - 1] == BigEndian(n / 256, w - 1);
    }
  }

  /** Equal-width big-endian integers compare as the integers do. */
  lemma {:induction false} BigEndianOrder(m: nat, n: nat, w: nat)
    requires m < Pow256(w) && n < Pow256(w)
    ensures Less(BigEndian(m, w), BigEndian(n, w)) <==> m < n
    ensures BigEndian(m, w) == BigEndian(n, w) ==> m == n
  {
    if w > 0 {
      BigEndianOrder(m / 256, n / 256, w - 1);
      var p, q := BigEndian(m / 256, w - 1), BigEndian(n / 256, w - 1);
      LessBlocks(p, q, [m % 256], [n % 256]);
      LessTrichotomy(p, q);
      assert BigEndian(m, w)[..w - 1] == p && BigEndian(n, w)[..w - 1] == q;
      assert BigEndian(m, w)[w - 1] == m % 256 && BigEndian(n, w)[w - 1] == n % 256;
    }
  }

  function Be16(n: u16): (s: bytes)
    ensures |s| == 2
  {
    BigEndian(n, 2)
  }

  function Be64(n: u64): (s: bytes)
    ensures |s| == 8
  {
    BigEndian(n, 8)
  }

  lemma Be16Order(m: u16, n: u16)
    ensures Less(Be16(m), Be16(n)) <==> m < n
    ensures Be16(m) == Be16(n) ==> m == n
    ensures FromBigEndian(Be16(n)) == n
  {
    assert Pow256(2) == 0x1_0000;
    BigEndianOrder(m, n, 2);
    BigEndianRoundTrip(n, 2);
  }

  lemma Be64Order(m: u64, n: u64)
    ensures Less(Be64(m), Be64(n)) <==> m < n
    ensures Be64(m) == Be64(n) ==> m == n
    ensures FromBigEndian(Be64(n)) == n
  {
    Pow256Eight();
    BigEndianOrder(m, n, 8);
    BigEndianRoundTrip(n, 8);
  }

  lemma Pow256Eight()
    ensures Pow256(8) == 0x1_0000_0000_0000_0000
  {
    assert Pow256(4) == 0x1_0000_0000;
    assert Pow256(6) == 0x1_0000_0000_0000;
  }
}
