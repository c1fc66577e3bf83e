/**
  UTF-8, which the parser demands of simple strings and errors: the byte patterns that a
  decoder accepts, and a proof that they are the encodings of Unicode texts.
 */
module Utf8 {
  import opened Bytes

  predicate Continuation(c: byte) {
    0x80 <= c <= 0xBF
  }

  /** Well-formed byte sequences, as in section 4 of RFC 3629. */
  predicate ValidUtf8(t: bytes) {
    if t == [] then true
    else if t[0] <= 0x7F then ValidUtf8(t[1..])
    else if 0xC2 <= t[0] <= 0xDF then |t| >= 2 && Continuation(t[1]) && ValidUtf8(t[2..])
    else if 0xE0 <= t[0] <= 0xEF then
      && |t| >= 3 && Continuation(t[1]) && Continuation(t[2])
      && (t[0] == 0xE0 ==> t[1] >= 0xA0) && (t[0] == 0xED ==> t[1] <= 0x9F) && ValidUtf8(t[3..])
    else if 0xF0 <= t[0] <= 0xF4 then
      && |t| >= 4 && Continuation(t[1]) && Continuation(t[2]) && Continuation(t[3])
      && (t[0] == 0xF0 ==> t[1] >= 0x90) && (t[0] == 0xF4 ==> t[1] <= 0x8F) && ValidUtf8(t[4..])
    else false
  }

  /** The code points of characters: all but the surrogates. */
  type scalar = c: nat | c < 0xD800 || 0xE000 <= c < 0x11_0000

  /** One character in as few bytes as hold it, as in section 3 of RFC 3629. */
  function Encode(c: scalar): (t: bytes)
    ensures 1 <= |t| <= 4
  {
    if c < 0x80 then [c]
    else if c < 0x800 then [0xC0 + c / 64, 0x80 + c % 64]
    else if c < 0x1_0000 then [0xE0 + c / 4096, 0x80 + c / 64 % 64, 0x80 + c % 64]
    else [0xF0 + c / 262144, 0x80 + c / 4096 % 64, 0x80 + c / 64 % 64, 0x80 + c % 64]
  }

  function EncodeAll(text: seq<scalar>): bytes {
    if text == [] then [] else Encode(text[0]) + EncodeAll(text[1..])
  }

  lemma CharacterValid(c: scalar, t: bytes)
    requires ValidUtf8(t)
    ensures ValidUtf8(Encode(c) + t)
  {
    var s := Encode(c) + t;
    assert s[|Encode(c)|..] == t;
  }

  lemma {:induction false} TextValid(text: seq<scalar>)
    ensures ValidUtf8(EncodeAll(text))
  {
    if text != [] {
      TextValid(text[1..]);
      CharacterValid(text[0], EncodeAll(text[1..]));
    }
  }

  lemma Digits(w: nat, x: nat, y: nat, z: nat)
    requires x < 64 && y < 64 && z < 64
    ensures var c := w * 262144 + x * 4096 + y * 64 + z;
            && c / 262144 == w && c / 4096 == w * 64 + x && c / 64 == w * 4096 + x * 64 + y
            && c / 4096 % 64 == x && c / 64 % 64 == y && c % 64 == z
  {
  }

  lemma EncodeTwo(y: nat, z: nat) returns (c: scalar)
    requires 2 <= y < 32 && z < 64
    ensures Encode(c) == [0xC0 + y, 0x80 + z]
  {
    Digits(0, 0, y, z);
    c := y * 64 + z;
  }

  lemma EncodeThree(x: nat, y: nat, z: nat) returns (c: scalar)
    requires x < 16 && y < 64 && z < 64 && (x == 0 ==> y >= 32) && (x == 13 ==> y < 32)
    ensures Encode(c) == [0xE0 + x, 0x80 + y, 0x80 + z]
  {
    Digits(0, x, y, z);
    c := x * 4096 + y * 64 + z;
  }

  lemma EncodeFour(w: nat, x: nat, y: nat, z: nat) returns (c: scalar)
    requires w <= 4 && x < 64 && y < 64 && z < 64 && (w == 0 ==> x >= 16) && (w == 4 ==> x < 16)
    ensures Encode(c) == [0xF0 + w, 0x80 + x, 0x80 + y, 0x80 + z]
  {
    Digits(w, x, y, z);
    c := w * 262144 + x * 4096 + y * 64 + z;
  }

  /** The first character of a well-formed sequence. */
  lemma FirstCharacter(t: bytes) returns (c: scalar)
    requires ValidUtf8(t) && t != []
    ensures |Encode(c)| <= |t| && t[..|Encode(c)|] == Encode(c) && ValidUtf8(t[|Encode(c)|..])
  {
    var w: int := t[0];
    if w <= 0x7F {
      c := w;
    } else {
      hide Encode;
      var x: int := t[1];
      if w <= 0xDF {
        c := EncodeTwo(w - 0xC0, x - 0x80);
      } else if w <= 0xEF {
        var y: int := t[2];
        c := EncodeThree(w - 0xE0, x - 0x80, y - 0x80);
      } else {
        var y: int, z: int := t[2], t[3];
        c := EncodeFour(w - 0xF0, x - 0x80, y - 0x80, z - 0x80);
      }
    }
  }

  lemma {:induction false} ValidIsText(t: bytes) returns (text: seq<scalar>)
    requires ValidUtf8(t)
    ensures EncodeAll(text) == t
    decreases |t|
  {
    hide ValidUtf8, Encode;
    if t == [] {
      text := [];
    } else {
      var c := FirstCharacter(t);
      var rest := ValidIsText(t[|Encode(c)|..]);
      text := [c] + rest;
      assert text[1..] == rest;
    }
  }

  /** The accepted sequences are exactly the encodings of texts. */
  lemma Utf8Iff(t: bytes)
    ensures ValidUtf8(t) <==> exists text :: EncodeAll(text) == t
  {
    hide ValidUtf8, EncodeAll;
    if ValidUtf8(t) {
      var text := ValidIsText(t);
    }
    forall text | EncodeAll(text) == t ensures ValidUtf8(t) {
      TextValid(text);
    }
  }
}
