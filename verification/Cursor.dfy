/**
  The cursor over the read buffer, with the check and the parser as they move it. Each
  method is proved against the functions of `Resp` on the bytes that are left.
 */
module Cursor {
  import opened Bytes
  import opened Codec
  import opened Utf8
  import opened Resp

  function Shift(r: Result<nat>, n: nat): Result<nat> {
    if r.Ok? then Ok(r.value + n) else r
  }

  function Prepend(out: seq<Frame>, n: nat, r: Result<(seq<Frame>, nat)>): Result<(seq<Frame>, nat)> {
    if r.Ok? then Ok((out + r.value.0, r.value.1 + n)) else r
  }

  class Cursor {
    const src: bytes
    var pos: nat

    constructor (src: bytes)
      ensures this.src == src && pos == 0
    {
      this.src := src;
      pos := 0;
    }

    ghost predicate Valid()
      reads this
    {
      pos <= |src|
    }

    function Rest(): bytes
      requires Valid()
      reads this
    {
      src[pos..]
    }

    /** What is left, seen from an earlier position. */
    lemma RestIs(start: nat)
      requires Valid()
      ensures start <= pos ==> Rest() == src[start..][pos - start..]
    {
    }

    method PeekU8() returns (r: Result<byte>)
      requires Valid()
      ensures r == if Rest() == [] then Incomplete else Ok(Rest()[0])
    {
      if pos == |src| {
        return Incomplete;
      }
      return Ok(src[pos]);
    }

    method GetU8() returns (r: Result<byte>)
      requires Valid()
      modifies this
      ensures Valid()
      ensures r == if old(Rest()) == [] then Incomplete else Ok(old(Rest())[0])
      ensures r.Ok? ==> pos == old(pos) + 1 && Rest() == old(Rest())[1..]
    {
      if pos == |src| {
        return Incomplete;
      }
      r := Ok(src[pos]);
      pos := pos + 1;
    }

    method Skip(n: nat) returns (r: Result<()>)
      requires Valid()
      modifies this
      ensures Valid()
      ensures r == if |old(Rest())| < n then Incomplete else Ok(())
      ensures r.Ok? ==> pos == old(pos) + n && Rest() == old(Rest())[n..]
    {
      if |src| - pos < n {
        return Incomplete;
      }
      pos := pos + n;
      return Ok(());
    }

    /** Scan for the line end and move behind it. */
    method ReadLine() returns (r: Result<bytes>)
      requires Valid() && pos > 0
      modifies this
      ensures Valid()
      ensures match GetLine(old(Rest()))
              case Ok((line, n)) => r == Ok(line) && pos == old(pos) + n && Rest() == old(Rest())[n..]
              case _ => r == Incomplete
    {
      hide FindCrlf;
      var start, end := pos, |src| - 1;
      ghost var rest := Rest();
      var i := start;
      while i < end
        invariant start <= i && pos == start
        invariant i <= |src| && FindCrlf(rest) == Behind(FindCrlf(src[i..]), i - start)
      {
        CrlfStep(src[i..]);
        assert src[i..][1..] == src[i + 1..];
        if src[i] == CR && src[i + 1] == LF {
          pos := i + 2;
          assert rest[..i - start] == src[start..i];
          return Ok(src[start..i]);
        }
        i := i + 1;
      }
      CrlfStep(src[i..]);
      return Incomplete;
    }

    method ReadDecimal() returns (r: Result<i64>)
      requires Valid() && pos > 0
      modifies this
      ensures Valid()
      ensures match GetDecimal(old(Rest()))
              case Ok((v, n)) => r == Ok(v) && pos == old(pos) + n && Rest() == old(Rest())[n..]
              case Incomplete => r == Incomplete
              case Invalid => r == Invalid
    {
      hide GetLine, Atoi;
      var line := ReadLine();
      match line {
        case Incomplete => return Incomplete;
        case Invalid => return Invalid;
        case Ok(text) =>
          var v := Atoi(text);
          return if v.None? then Invalid else Ok(v.value);
      }
    }

    /** The part of `Frame::check` behind a dollar sign. */
    method CheckBulk() returns (r: Result<()>)
      requires Valid() && pos > 0
      modifies this
      ensures Valid()
      ensures match Check([DOLLAR] + old(Rest()))
              case Ok(n) => r == Ok(()) && pos == old(pos) + n - 1 && Rest() == old(Rest())[n - 1..]
              case Incomplete => r == Incomplete
              case Invalid => r == Invalid
    {
      hide GetDecimal, GetLine, CheckAll, Check;
      ghost var t, start := Rest(), pos;
      CheckStep([DOLLAR] + t);
      assert ([DOLLAR] + t)[1..] == t;
      var sign := PeekU8();
      if !sign.Ok? {
        return Incomplete;
      } else if sign.value == MINUS {
        r := Skip(4);
        RestIs(start);
        return;
      }
      var len := ReadDecimal();
      if !len.Ok? {
        return if len.Incomplete? then Incomplete else Invalid;
      } else if len.value < 0 {
        return Invalid;
      }
      r := Skip((len.value as int) + 2);
      RestIs(start);
    }

    /** `Frame::check`: move behind one frame. */
    method CheckFrame() returns (r: Result<()>)
      requires Valid()
      modifies this
      ensures Valid()
      ensures match Check(old(Rest()))
              case Ok(n) => r == Ok(()) && pos == old(pos) + n && Rest() == old(Rest())[n..]
              case Incomplete => r == Incomplete
              case Invalid => r == Invalid
      decreases |src| - pos, 0
    {
      hide GetDecimal, GetLine, CheckAll, Check;
      ghost var s, start := Rest(), pos;
      CheckStep(s);
      var first := GetU8();
      if !first.Ok? {
        return Incomplete;
      }
      if first.value == PLUS || first.value == MINUS {
        var line := ReadLine();
        RestIs(start);
        return if line.Ok? then Ok(()) else Incomplete;
      } else if first.value == COLON {
        var n := ReadDecimal();
        RestIs(start);
        return if n.Ok? then Ok(()) else if n.Incomplete? then Incomplete else Invalid;
      } else if first.value == DOLLAR {
        assert s == [DOLLAR] + Rest();
        r := CheckBulk();
        return;
      } else if first.value == STAR {
        var len := ReadDecimal();
        if !len.Ok? {
          return if len.Incomplete? then Incomplete else Invalid;
        }
        r := CheckItems(len.value);
        RestIs(start);
        return;
      } else {
        return Invalid;
      }
    }

    /** The loop over the elements of an array. */
    method CheckItems(len: int) returns (r: Result<()>)
      requires Valid()
      modifies this
      ensures Valid()
      ensures match CheckAll(old(Rest()), len)
              case Ok(n) => r == Ok(()) && pos == old(pos) + n && Rest() == old(Rest())[n..]
              case Incomplete => r == Incomplete
              case Invalid => r == Invalid
      decreases |src| - pos, 1
    {
      hide Check, CheckAll;
      var i := 0;
      ghost var s, start := Rest(), pos;
      RestIs(start);
      while i < len
        invariant Valid() && pos >= start && 0 <= i && (i > 0 ==> pos > start)
        invariant CheckAll(s, len) == Shift(CheckAll(Rest(), len - i), pos - start)
        decreases len - i
      {
        CheckAllStep(Rest(), len - i);
        var item := CheckFrame();
        if !item.Ok? {
          return if item.Incomplete? then Incomplete else Invalid;
        }
        i := i + 1;
      }
      CheckAllStep(Rest(), len - i);
      RestIs(start);
      return Ok(());
    }

    /** `Frame::parse`: read one frame and move behind it. */
    method ParseFrame() returns (r: Result<Frame>)
      requires Valid()
      modifies this
      ensures Valid()
      ensures match Parse(old(Rest()))
              case Ok((frame, n)) => r == Ok(frame) && pos == old(pos) + n && Rest() == old(Rest())[n..]
              case Incomplete => r == Incomplete
              case Invalid => r == Invalid
      decreases |src| - pos, 0
    {
      hide GetDecimal, GetLine, ParseAll, Parse, ValidUtf8;
      ghost var s, start := Rest(), pos;
      ParseStep(s);
      var first := GetU8();
      if !first.Ok? {
        return Incomplete;
      }
      if first.value == PLUS || first.value == MINUS {
        var line := ReadLine();
        RestIs(start);
        if !line.Ok? {
          return Incomplete;
        } else if !ValidUtf8(line.value) {
          return Invalid;
        }
        return Ok(if first.value == PLUS then Simple(line.value) else ErrorOwned(line.value));
      } else if first.value == COLON {
        var n := ReadDecimal();
        RestIs(start);
        return if n.Ok? then Ok(Integer(n.value)) else if n.Incomplete? then Incomplete else Invalid;
      } else if first.value == DOLLAR {
        var sign := PeekU8();
        if !sign.Ok? {
          return Incomplete;
        } else if sign.value == MINUS {
          var line := ReadLine();
          RestIs(start);
          return if !line.Ok? then Incomplete else if line.value != [MINUS, ZERO + 1] then Invalid else Ok(Null);
        }
        var len := ReadDecimal();
        if !len.Ok? {
          return if len.Incomplete? then Incomplete else Invalid;
        } else if len.value < 0 {
          return Invalid;
        }
        var n := len.value as int;
        if |src| - pos < n + 2 {
          return Incomplete;
        }
        var data := src[pos..pos + n];
        assert data == Rest()[..n];
        var _ := Skip(n + 2);
        RestIs(start);
        return Ok(Bulk(data));
      } else if first.value == STAR {
        var len := ReadDecimal();
        if !len.Ok? {
          return if len.Incomplete? then Incomplete else Invalid;
        } else if len.value < 0 {
          return Invalid;
        }
        var items := ParseItems(len.value);
        RestIs(start);
        return if items.Ok? then Ok(Array(items.value)) else if items.Incomplete? then Incomplete else Invalid;
      } else {
        return Invalid;
      }
    }

    method ParseItems(len: nat) returns (r: Result<seq<Frame>>)
      requires Valid()
      modifies this
      ensures Valid()
      ensures match ParseAll(old(Rest()), len)
              case Ok((items, n)) => r == Ok(items) && pos == old(pos) + n && Rest() == old(Rest())[n..]
              case Incomplete => r == Incomplete
              case Invalid => r == Invalid
      decreases |src| - pos, 1
    {
      hide Parse, ParseAll;
      var out: seq<Frame> := [];
      ghost var s, start := Rest(), pos;
      RestIs(start);
      NothingYet(ParseAll(s, len));
      for i := 0 to len
        invariant Valid() && pos >= start && (i > 0 ==> pos > start)
        invariant ParseAll(s, len) == Prepend(out, pos - start, ParseAll(Rest(), len - i))
      {
        ParseAllStep(out, pos - start, Rest(), len - i);
        var item := ParseFrame();
        if !item.Ok? {
          return if item.Incomplete? then Incomplete else Invalid;
        }
        out := out + [item.value];
      }
      ParseAllStep(out, pos - start, Rest(), 0);
      RestIs(start);
      return Ok(out);
    }
  }

  function Behind(i: Option<nat>, n: nat): Option<nat> {
    if i.Some? then Some(i.value + n) else None
  }

  lemma CrlfStep(s: bytes)
    ensures |s| < 2 ==> FindCrlf(s).None?
    ensures |s| >= 2 ==> FindCrlf(s) == if s[0] == CR && s[1] == LF then Some(0) else Behind(FindCrlf(s[1..]), 1)
  {
  }

  lemma CheckAllStep(s: bytes, count: int)
    ensures CheckAll(s, count) ==
            if count <= 0 then Ok(0)
            else if Check(s).Ok? then Shift(CheckAll(s[Check(s).value..], count - 1), Check(s).value)
            else Check(s)
  {
    hide Check;
  }

  /** The check, by the type byte. */
  lemma CheckStep(s: bytes)
    ensures s == [] ==> Check(s) == Incomplete
    ensures s != [] ==>
              var c, t := s[0], s[1..];
              && (c == PLUS || c == MINUS ==>
                    Check(s) == if GetLine(t).Ok? then Ok(1 + GetLine(t).value.1) else Incomplete)
              && (c == COLON ==>
                    Check(s) == match GetDecimal(t)
                                case Ok((_, n)) => Ok(1 + n)
                                case Incomplete => Incomplete
                                case Invalid => Invalid)
              && (c == DOLLAR && t == [] ==> Check(s) == Incomplete)
              && (c == DOLLAR && t != [] && t[0] == MINUS ==> Check(s) == if |t| < 4 then Incomplete else Ok(5))
              && (c == DOLLAR && t != [] && t[0] != MINUS ==>
                    Check(s) == match GetDecimal(t)
                                case Ok((len, n)) =>
                                  (if len < 0 then Invalid else if |t| - n < len + 2 then Incomplete
                                   else Ok(1 + n + len + 2))
                                case Incomplete => Incomplete
                                case Invalid => Invalid)
              && (c == STAR ==>
                    Check(s) == match GetDecimal(t)
                                case Ok((len, n)) => Shift(CheckAll(t[n..], len), 1 + n)
                                case Incomplete => Incomplete
                                case Invalid => Invalid)
              && (c != PLUS && c != MINUS && c != COLON && c != DOLLAR && c != STAR ==> Check(s) == Invalid)
  {
    hide GetDecimal, GetLine, CheckAll;
  }

  lemma NothingYet(r: Result<(seq<Frame>, nat)>)
    ensures Prepend([], 0, r) == r
  {
    if r.Ok? {
      assert [] + r.value.0 == r.value.0;
    }
  }

  lemma ParseAllStep(out: seq<Frame>, n: nat, s: bytes, count: nat)
    ensures Prepend(out, n, ParseAll(s, count)) ==
            if count == 0 then Ok((out, n))
            else
              match Parse(s)
              case Ok((frame, m)) => Prepend(out + [frame], n + m, ParseAll(s[m..], count - 1))
              case Incomplete => Incomplete
              case Invalid => Invalid
  {
    hide Parse;
    assert out + [] == out;
    if count > 0 && Parse(s).Ok? && ParseAll(s[Parse(s).value.1..], count - 1).Ok? {
      var frame, items := Parse(s).value.0, ParseAll(s[Parse(s).value.1..], count - 1).value.0;
      assert out + ([frame] + items) == (out + [frame]) + items;
    }
  }

  /** The parser, by the type byte. */
  lemma ParseStep(s: bytes)
    ensures s == [] ==> Parse(s) == Incomplete
    ensures s != [] ==>
              var c, t := s[0], s[1..];
              && (c == PLUS || c == MINUS ==>
                    Parse(s) == if !GetLine(t).Ok? then Incomplete
                                else if !ValidUtf8(GetLine(t).value.0) then Invalid
                                else
                                  var (line, n) := GetLine(t).value;
                                  Ok((if c == PLUS then Simple(line) else ErrorOwned(line), 1 + n)))
              && (c == COLON ==>
                    Parse(s) == match GetDecimal(t)
                                case Ok((v, n)) => Ok((Integer(v), 1 + n))
                                case Incomplete => Incomplete
                                case Invalid => Invalid)
              && (c == DOLLAR && t == [] ==> Parse(s) == Incomplete)
              && (c == DOLLAR && t != [] && t[0] == MINUS ==>
                    Parse(s) == if !GetLine(t).Ok? then Incomplete
                                else if GetLine(t).value.0 != [MINUS, ZERO + 1] then Invalid
                                else Ok((Null, 1 + GetLine(t).value.1)))
              && (c == DOLLAR && t != [] && t[0] != MINUS ==>
                    Parse(s) == match GetDecimal(t)
                                case Ok((len, n)) =>
                                  (if len < 0 then Invalid else if |t| - n < len + 2 then Incomplete
                                   else Ok((Bulk(t[n..][..len]), 1 + n + len + 2)))
                                case Incomplete => Incomplete
                                case Invalid => Invalid)
              && (c == STAR ==>
                    Parse(s) == match GetDecimal(t)
                                case Ok((len, n)) =>
                                  (if len < 0 then Invalid
                                   else match ParseAll(t[n..], len)
                                        case Ok((items, m)) => Ok((Array(items), 1 + n + m))
                                        case Incomplete => Incomplete
                                        case Invalid => Invalid)
                                case Incomplete => Incomplete
                                case Invalid => Invalid)
              && (c != PLUS && c != MINUS && c != COLON && c != DOLLAR && c != STAR ==> Parse(s) == Invalid)
  {
    hide GetDecimal, GetLine, ParseAll, ValidUtf8;
    if s != [] && s[0] == DOLLAR && GetDecimal(s[1..]).Ok? {
      var (len, n) := GetDecimal(s[1..]).value;
      if 0 <= len && len + 2 <= |s| - 1 - n {
        assert s[1..][n..n + len] == s[1..][n..][..len];
      }
    }
  }
}
