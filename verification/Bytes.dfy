/**
  Byte strings and their lexicographic order: the order in which TiKV keeps keys,
  and so the order in which every scan returns them.
 */
module Bytes {

  type byte = b: int | 0 <= b < 256

  type u16 = n: int | 0 <= n < 0x1_0000

  type u64 = n: int | 0 <= n < 0x1_0000_0000_0000_0000

  type i64 = n: int | -0x8000_0000_0000_0000 <= n < 0x8000_0000_0000_0000

  type bytes = seq<byte>

  /** Lexicographic order; a proper prefix comes first. */
  predicate Less(a: bytes, b: bytes) {
    if b == [] then false
    else if a == [] then true
    else a[0] < b[0] || (a[0] == b[0] && Less(a[1..], b[1..]))
  }

  predicate LessEq(a: bytes, b: bytes) {
    a == b || Less(a, b)
  }

  lemma {:induction false} LessTrichotomy(a: bytes, b: bytes)
    ensures !(Less(a, b) && Less(b, a))
    ensures Less(a, b) || a == b || Less(b, a)
    ensures a == b ==> !Less(a, b)
  {
    if a != [] && b != [] {
      LessTrichotomy(a[1..], b[1..]);
      assert a == [a[0]] + a[1..] && b == [b[0]] + b[1..];
    }
  }

  lemma {:induction false} LessTransitive(a: bytes, b: bytes, c: bytes)
    requires Less(a, b) && Less(b, c)
    ensures Less(a, c)
  {
    if a != [] && a[0] == b[0] == c[0] {
      LessTransitive(a[1..], b[1..], c[1..]);
    }
  }

  /** Strings that start with blocks of one length compare by the blocks, then by what follows. */
  lemma {:induction false} LessBlocks(p: bytes, q: bytes, x: bytes, y: bytes)
    requires |p| == |q|
    ensures Less(p + x, q + y) <==> Less(p, q) || (p == q && Less(x, y))
  {
    if p == [] {
      assert p + x == x && q + y == y;
    } else {
      assert (p + x)[1..] == p[1..] + x && (q + y)[1..] == q[1..] + y;
      assert p == [p[0]] + p[1..] && q == [q[0]] + q[1..];
      LessBlocks(p[1..], q[1..], x, y);
      LessTrichotomy(p, q);
    }
  }

  lemma LessAppend(p: bytes, x: bytes, y: bytes)
    ensures Less(p + x, p + y) <==> Less(x, y)
    ensures LessEq(p + x, p + y) <==> LessEq(x, y)
  {
    LessBlocks(p, p, x, y);
    LessTrichotomy(p, p);
    if p + x == p + y {
      assert x == (p + x)[|p|..] && y == (p + y)[|p|..];
    }
  }

  /** Everything between two strings with a common prefix has that prefix. */
  lemma {:induction false} BetweenSharesPrefix(p: bytes, x: bytes, r: bytes, y: bytes)
    requires LessEq(p + x, r) && LessEq(r, p + y)
    ensures p <= r
  {
    if p != [] {
      assert (p + x)[1..] == p[1..] + x && (p + y)[1..] == p[1..] + y;
      assert (p + x)[0] == p[0] && (p + y)[0] == p[0];
      assert r != [] && r[0] == p[0];
      assert r == [r[0]] + r[1..] && p == [p[0]] + p[1..];
      assert p + x == [p[0]] + (p[1..] + x) && p + y == [p[0]] + (p[1..] + y);
      BetweenSharesPrefix(p[1..], x, r[1..], y);
    }
  }

  /** A half-open range from `p + [c]` to `p + [c + 1]` holds exactly the extensions of `p + [c]`. */
  lemma PrefixRange(p: bytes, c: byte, r: bytes)
    requires c < 255
    ensures LessEq(p + [c], r) && Less(r, p + [c + 1]) <==> p + [c] <= r
  {
    if LessEq(p + [c], r) && Less(r, p + [c + 1]) {
      BetweenSharesPrefix(p, [c], r, [c + 1]);
      var t := r[|p|..];
      assert r == p + t;
      LessAppend(p, [c], t);
      LessAppend(p, t, [c + 1]);
      assert t != [] && t[0] == c;
      assert p + [c] == r[..|p| + 1];
    }
    if p + [c] <= r {
      var t := r[|p|..];
      assert r == p + t && t[0] == c;
      LessAppend(p, [c], t);
      LessAppend(p, t, [c + 1]);
      assert t == [c] + t[1..];
      LessAppend([c], [], t[1..]);
      assert [c] + [] == [c];
    }
  }

  lemma FirstByte(x: bytes, y: bytes)
    requires x != [] && y != []
    ensures x[0] < y[0] ==> Less(x, y)
  {
  }

  ghost predicate Sorted(s: seq<bytes>) {
    forall i, j :: 0 <= i < j < |s| ==> Less(s[i], s[j])
  }
}
