/**
  RESP frames: the check that a whole frame is there, the parser that runs after it, and
  the printer. A cursor over the read buffer is the rest of the buffer; advancing it is
  dropping bytes from the front.
 */
module Resp {
  import opened Bytes
  import opened Codec
  import opened Utf8

  const CR: byte := 13
  const LF: byte := 10
  const CRLF: bytes := [CR, LF]

  const PLUS: byte := 0x2B
  const MINUS: byte := 0x2D
  const COLON: byte := 0x3A
  const DOLLAR: byte := 0x24
  const STAR: byte := 0x2A
  const ZERO: byte := 0x30

  datatype Frame =
    | Simple(text: bytes)
    | ErrorOwned(text: bytes)
    | ErrorString(text: bytes)
    | Integer(n: i64)
    | Bulk(data: bytes)
    | Null
    | Array(items: seq<Frame>)

  datatype Result<+T> = Ok(value: T) | Incomplete | Invalid

  // ----- lines and numbers -----

  /** Where the first CR LF starts. */
  function FindCrlf(s: bytes): Option<nat>
  {
    if |s| < 2 then None
    else if s[0] == CR && s[1] == LF then Some(0)
    else
      match FindCrlf(s[1..])
      case None => None
      case Some(i) => Some(i + 1)
  }

  lemma {:induction false} FindCrlfBounds(s: bytes)
    ensures FindCrlf(s).Some? ==> FindCrlf(s).value + 2 <= |s|
  {
    if |s| >= 2 {
      FindCrlfBounds(s[1..]);
    }
  }

  /** The line, and how many bytes it takes with its end. */
  function GetLine(s: bytes): (r: Result<(bytes, nat)>)
    ensures r.Ok? ==> 2 <= r.value.1 <= |s| && r.value.0 == s[..r.value.1 - 2]
    ensures !r.Invalid?
  {
    FindCrlfBounds(s);
    match FindCrlf(s)
    case None => Incomplete
    case Some(i) => Ok((s[..i], i + 2))
  }

  predicate IsDigit(c: byte) {
    ZERO <= c <= ZERO + 9
  }

  function NumberOf(t: bytes, acc: nat): nat {
    if t == [] || !IsDigit(t[0]) then acc else NumberOf(t[1..], acc * 10 + (t[0] - ZERO))
  }

  /** An optional sign and leading digits; what follows is ignored, and a number outside i64 is refused. */
  function Atoi(t: bytes): Option<i64> {
    if t == [] then None
    else
      var signed := t[0] == PLUS || t[0] == MINUS;
      if !signed && !IsDigit(t[0]) then None
      else
        var n := NumberOf(if signed then t[1..] else t, 0);
        var v := if t[0] == MINUS then 0 - n else n;
        if -0x8000_0000_0000_0000 <= v < 0x8000_0000_0000_0000 then Some(v) else None
  }

  function GetDecimal(s: bytes): (r: Result<(i64, nat)>)
    ensures r.Ok? ==> 2 <= r.value.1 <= |s|
  {
    match GetLine(s)
    case Incomplete => Incomplete
    case Invalid => Invalid
    case Ok((line, n)) =>
      match Atoi(line)
      case None => Invalid
      case Some(v) => Ok((v, n))
  }

  // ----- check and parse -----

  /** Whether a whole frame is there, and how many bytes it takes. */
  function Check(s: bytes): (r: Result<nat>)
    ensures r.Ok? ==> 0 < r.value <= |s|
    decreases |s|, 0
  {
    if s == [] then Incomplete
    else
      var t := s[1..];
      if s[0] == PLUS || s[0] == MINUS then
        match GetLine(t)
        case Ok((_, n)) => Ok(1 + n)
        case Incomplete => Incomplete
        case Invalid => Invalid
      else if s[0] == COLON then
        match GetDecimal(t)
        case Ok((_, n)) => Ok(1 + n)
        case Incomplete => Incomplete
        case Invalid => Invalid
      else if s[0] == DOLLAR then
        if t == [] then Incomplete
        else if t[0] == MINUS then (if |t| < 4 then Incomplete else Ok(5))
        else
          match GetDecimal(t)
          case Ok((len, n)) => if len < 0 then Invalid else if |t| - n < len + 2 then Incomplete
                  else Ok(1 + n + len + 2)
          case Incomplete => Incomplete
          case Invalid => Invalid
      else if s[0] == STAR then
        match GetDecimal(t)
        case Ok((len, n)) =>
          (match CheckAll(t[n..], len)
           case Ok(m) => Ok(1 + n + m)
           case Incomplete => Incomplete
           case Invalid => Invalid)
        case Incomplete => Incomplete
        case Invalid => Invalid
      else Invalid
  }

  function CheckAll(s: bytes, count: int): (r: Result<nat>)
    ensures r.Ok? ==> r.value <= |s|
    decreases |s|, 1
  {
    if count <= 0 then Ok(0)
    else
      match Check(s)
      case Incomplete => Incomplete
      case Invalid => Invalid
      case Ok(n) =>
        match CheckAll(s[n..], count - 1)
        case Ok(m) => Ok(n + m)
        case Incomplete => Incomplete
        case Invalid => Invalid
  }

  /** The frame at the front, and how many bytes it takes. */
  function Parse(s: bytes): (r: Result<(Frame, nat)>)
    ensures r.Ok? ==> 0 < r.value.1 <= |s|
    decreases |s|, 0
  {
    if s == [] then Incomplete
    else
      var t := s[1..];
      if s[0] == PLUS || s[0] == MINUS then
        match GetLine(t)
        case Ok((line, n)) =>
          if !ValidUtf8(line) then Invalid
          else Ok((if s[0] == PLUS then Simple(line) else ErrorOwned(line), 1 + n))
        case Incomplete => Incomplete
        case Invalid => Invalid
      else if s[0] == COLON then
        match GetDecimal(t)
        case Ok((v, n)) => Ok((Integer(v), 1 + n))
        case Incomplete => Incomplete
        case Invalid => Invalid
      else if s[0] == DOLLAR then
        if t == [] then Incomplete
        else if t[0] == MINUS then
          match GetLine(t)
          case Ok((line, n)) => if line != [MINUS, ZERO + 1] then Invalid else Ok((Null, 1 + n))
          case Incomplete => Incomplete
          case Invalid => Invalid
        else
          match GetDecimal(t)
          case Ok((len, n)) =>
            if len < 0 then Invalid
            else if |t| - n < len + 2 then Incomplete
            else Ok((Bulk(t[n..n + len]), 1 + n + len + 2))
          case Incomplete => Incomplete
          case Invalid => Invalid
      else if s[0] == STAR then
        match GetDecimal(t)
        case Ok((len, n)) =>
          if len < 0 then Invalid
          else
            (match ParseAll(t[n..], len)
             case Ok((items, m)) => Ok((Array(items), 1 + n + m))
             case Incomplete => Incomplete
             case Invalid => Invalid)
        case Incomplete => Incomplete
        case Invalid => Invalid
      else Invalid
  }

  function ParseAll(s: bytes, count: nat): (r: Result<(seq<Frame>, nat)>)
    ensures r.Ok? ==> r.value.1 <= |s|
    decreases |s|, 1
  {
    if count == 0 then Ok(([], 0))
    else
      match Parse(s)
      case Incomplete => Incomplete
      case Invalid => Invalid
      case Ok((frame, n)) =>
        match ParseAll(s[n..], count - 1)
        case Ok((items, m)) => Ok(([frame] + items, n + m))
        case Incomplete => Incomplete
        case Invalid => Invalid
  }

  // ----- the check and the parser agree -----

  /** Whatever the parser accepts, the check has accepted, with the same length. */
  lemma {:induction false} ParsedIsChecked(s: bytes)
    ensures Parse(s).Ok? ==> Check(s) == Ok(Parse(s).value.1)
    decreases |s|, 0
  {
    if s != [] && s[0] == STAR && GetDecimal(s[1..]).Ok? {
      var (len, n) := GetDecimal(s[1..]).value;
      if len >= 0 {
        AllParsedAreChecked(s[1..][n..], len);
      }
    }
  }

  lemma {:induction false} AllParsedAreChecked(s: bytes, count: nat)
    ensures ParseAll(s, count).Ok? ==> CheckAll(s, count) == Ok(ParseAll(s, count).value.1)
    decreases |s|, 1
  {
    hide Parse, Check;
    if count > 0 {
      ParsedIsChecked(s);
      if Parse(s).Ok? {
        AllParsedAreChecked(s[Parse(s).value.1..], count - 1);
      }
    }
  }

  // ----- printing -----

  function Digits(n: nat): (t: bytes)
    ensures t != [] && forall i :: 0 <= i < |t| ==> IsDigit(t[i])
  {
    if n < 10 then [ZERO + n] else Digits(n / 10) + [ZERO + n % 10]
  }

  function Decimal(n: int): (t: bytes)
    ensures t != [] && t[0] != CR && t[0] != LF
  {
    if n < 0 then [MINUS] + Digits(-n) else Digits(n)
  }

  /** A frame as it goes over the wire. */
  function Print(f: Frame): bytes
    decreases f
  {
    match f
    case Simple(text) => [PLUS] + text + CRLF
    case ErrorOwned(text) => [MINUS] + text + CRLF
    case ErrorString(text) => [MINUS] + text + CRLF
    case Integer(n) => [COLON] + (Decimal(n) + CRLF)
    case Null => [DOLLAR, MINUS, ZERO + 1] + CRLF
    case Bulk(data) => [DOLLAR] + (Decimal(|data|) + CRLF) + (data + CRLF)
    case Array(items) => [STAR] + (Decimal(|items|) + CRLF) + PrintAll(items)
  }

  function PrintAll(items: seq<Frame>): bytes
    decreases items
  {
    if items == [] then [] else Print(items[0]) + PrintAll(items[1..])
  }

  /** The same, byte for byte. */
  lemma WireFormat(f: Frame)
    ensures Print(f) == match f
            case Simple(text) => [43] + text + [13, 10]
            case ErrorOwned(text) => [45] + text + [13, 10]
            case ErrorString(text) => [45] + text + [13, 10]
            case Integer(n) => [58] + Decimal(n) + [13, 10]
            case Null => [36, 45, 49, 13, 10]
            case Bulk(data) => [36] + Decimal(|data|) + [13, 10] + data + [13, 10]
            case Array(items) => [42] + Decimal(|items|) + [13, 10] + PrintAll(items)
  {
  }

  lemma DecimalFormat(n: nat)
    ensures Decimal(n) == if n < 10 then [48 + n] else Decimal(n / 10) + [48 + n % 10]
    ensures n > 0 ==> Decimal(0 - n) == [45] + Decimal(n)
  {
  }

  /** Texts are strings without a line end inside, and lengths fit an i64. */
  predicate Printable(f: Frame)
    decreases f
  {
    match f
    case Simple(text) => ValidUtf8(text) && FindCrlf(text).None?
    case ErrorOwned(text) => ValidUtf8(text) && FindCrlf(text).None?
    case ErrorString(text) => ValidUtf8(text) && FindCrlf(text).None?
    case Bulk(data) => |data| < 0x8000_0000_0000_0000
    case Array(items) => |items| < 0x8000_0000_0000_0000 && forall i :: 0 <= i < |items| ==> Printable(items[i])
    case _ => true
  }

  /** Lengths that the writer can put in a header: those of any data in memory. */
  predicate Sized(f: Frame)
    decreases f
  {
    match f
    case Bulk(data) => |data| < 0x8000_0000_0000_0000
    case Array(items) => |items| < 0x8000_0000_0000_0000 && forall i :: 0 <= i < |items| ==> Sized(items[i])
    case _ => true
  }

  /** What a printed frame reads back as: the two kinds of error are one on the wire. */
  function Received(f: Frame): Frame
    decreases f
  {
    match f
    case ErrorString(text) => ErrorOwned(text)
    case Array(items) => Array(ReceivedAll(items))
    case _ => f
  }

  function ReceivedAll(items: seq<Frame>): (r: seq<Frame>)
    ensures |r| == |items|
    decreases items
  {
    if items == [] then [] else [Received(items[0])] + ReceivedAll(items[1..])
  }

  // ----- reading back numbers and lines -----

  lemma {:induction false} NumberSnoc(t: bytes, d: nat, acc: nat)
    requires d < 10 && forall i :: 0 <= i < |t| ==> IsDigit(t[i])
    ensures NumberOf(t + [ZERO + d], acc) == NumberOf(t, acc) * 10 + d
    decreases |t|
  {
    if t == [] {
      assert t + [ZERO + d] == [ZERO + d];
      var one := [ZERO + d];
      assert one[1..] == [];
    } else {
      assert (t + [ZERO + d])[1..] == t[1..] + [ZERO + d];
      NumberSnoc(t[1..], d, acc * 10 + (t[0] - ZERO));
    }
  }

  lemma {:induction false} NumberOfDigits(n: nat)
    ensures NumberOf(Digits(n), 0) == n
  {
    if n < 10 {
      var t: bytes := Digits(n);
      assert t[1..] == [];
    } else {
      NumberOfDigits(n / 10);
      NumberSnoc(Digits(n / 10), n % 10, 0);
    }
  }

  /** Digits are read up to the first byte that is none. */
  lemma {:induction false} NumberStops(ds: bytes, rest: bytes, acc: nat)
    requires (forall i :: 0 <= i < |ds| ==> 48 <= ds[i] <= 57) && (rest == [] || !(48 <= rest[0] <= 57))
    ensures NumberOf(ds + rest, acc) == NumberOf(ds, acc)
    decreases |ds|
  {
    if ds == [] {
      assert ds + rest == rest;
    } else {
      assert (ds + rest)[1..] == ds[1..] + rest;
      NumberStops(ds[1..], rest, acc * 10 + (ds[0] - ZERO));
    }
  }

  /** A text as a number: any digits, after a sign or none and before anything else, unless it does not fit 64 bits. */
  lemma AtoiIs(ds: bytes, rest: bytes)
    requires (forall i :: 0 <= i < |ds| ==> 48 <= ds[i] <= 57) && (rest == [] || !(48 <= rest[0] <= 57))
    ensures var n := NumberOf(ds, 0);
            && Atoi([43] + ds + rest) == (if n < 0x8000_0000_0000_0000 then Some(n) else None)
            && Atoi([45] + ds + rest) == (if n <= 0x8000_0000_0000_0000 then Some(0 - n) else None)
            && (ds != [] ==> Atoi(ds + rest) == Atoi([43] + ds + rest))
            && (rest == [] || (rest[0] != 43 && rest[0] != 45) ==> Atoi(rest) == None)
  {
    hide NumberOf, Atoi;
    NumberStops(ds, rest, 0);
    AtoiSigned(43, ds, rest);
    AtoiSigned(45, ds, rest);
    AtoiUnsigned(ds, rest);
  }

  lemma AtoiUnsigned(ds: bytes, rest: bytes)
    requires (forall i :: 0 <= i < |ds| ==> 48 <= ds[i] <= 57) && (rest == [] || !(48 <= rest[0] <= 57))
    ensures var n := NumberOf(ds + rest, 0);
            ds != [] ==> Atoi(ds + rest) == if n < 0x8000_0000_0000_0000 then Some(n) else None
    ensures rest == [] || (rest[0] != 43 && rest[0] != 45) ==> Atoi(rest) == None
  {
    hide NumberOf;
    assert ds != [] ==> (ds + rest)[0] == ds[0];
  }

  lemma AtoiSigned(sign: byte, ds: bytes, rest: bytes)
    requires sign == 43 || sign == 45
    ensures var n := NumberOf(ds + rest, 0); var v := if sign == 45 then 0 - n else n;
            Atoi([sign] + ds + rest)
            == if -0x8000_0000_0000_0000 <= v < 0x8000_0000_0000_0000 then Some(v) else None
  {
    hide NumberOf;
    var t := [sign] + ds + rest;
    assert t[0] == sign && t[1..] == ds + rest;
  }

  lemma AtoiDecimal(n: i64)
    ensures Atoi(Decimal(n)) == Some(n)
  {
    if n < 0 {
      var m: int := n;
      NumberOfDigits(0 - m);
      assert Decimal(n)[1..] == Digits(0 - m);
    } else {
      NumberOfDigits(n);
    }
  }

  /** A text without a line end of its own, followed by one, is read as one line. */
  lemma {:induction false} CrlfAfter(text: bytes, rest: bytes)
    requires FindCrlf(text + [CR]).None?
    ensures FindCrlf(text + CRLF + rest) == Some(|text|)
    decreases |text|
  {
    var s := text + CRLF + rest;
    if text != [] {
      assert s[1..] == text[1..] + CRLF + rest;
      assert (text + [CR])[1..] == text[1..] + [CR];
      CrlfAfter(text[1..], rest);
      assert s[1] == (text + [CR])[1];
    }
  }

  lemma {:induction false} NoNewCrlf(text: bytes)
    requires FindCrlf(text).None?
    ensures FindCrlf(text + [CR]).None?
    decreases |text|
  {
    if |text| >= 2 {
      assert (text + [CR])[1..] == text[1..] + [CR];
      NoNewCrlf(text[1..]);
    }
  }

  lemma LineBack(text: bytes, rest: bytes)
    requires FindCrlf(text).None?
    ensures GetLine(text + CRLF + rest) == Ok((text, |text| + 2))
  {
    NoNewCrlf(text);
    CrlfAfter(text, rest);
    assert (text + CRLF + rest)[..|text|] == text;
  }

  /** Cut short, it is no line yet. */
  lemma {:induction false} NoCrlfYet(text: bytes, k: nat)
    requires FindCrlf(text + [CR]).None? && k < |text| + 2
    ensures FindCrlf((text + CRLF)[..k]).None?
    decreases |text|
  {
    var s := (text + CRLF)[..k];
    if text != [] && k >= 2 {
      assert s[1..] == (text[1..] + CRLF)[..k - 1];
      assert (text + [CR])[1..] == text[1..] + [CR];
      NoCrlfYet(text[1..], k - 1);
      assert s[0] == (text + [CR])[0] && s[1] == (text + [CR])[1];
    }
  }

  lemma {:induction false} NoCrlfInPlain(t: bytes)
    requires forall i :: 0 <= i < |t| ==> t[i] != CR
    ensures FindCrlf(t).None?
  {
    if t != [] {
      NoCrlfInPlain(t[1..]);
    }
  }

  lemma DecimalBack(n: i64, rest: bytes)
    ensures GetDecimal(Decimal(n) + CRLF + rest) == Ok((n, |Decimal(n)| + 2))
    ensures FindCrlf(Decimal(n)).None?
  {
    assert forall i :: 0 <= i < |Decimal(n)| ==> Decimal(n)[i] != CR;
    NoCrlfInPlain(Decimal(n));
    LineBack(Decimal(n), rest);
    AtoiDecimal(n);
  }

  // ----- the round trip -----

  lemma TextBack(c: byte, text: bytes, rest: bytes)
    requires (c == PLUS || c == MINUS) && ValidUtf8(text) && FindCrlf(text).None?
    ensures Parse([c] + text + CRLF + rest) == Ok((if c == PLUS then Simple(text) else ErrorOwned(text), |text| + 3))
  {
    hide ValidUtf8;
    var s := [c] + text + CRLF + rest;
    assert s[1..] == text + CRLF + rest;
    LineBack(text, rest);
  }

  lemma IntegerBack(n: i64, rest: bytes)
    ensures Parse([COLON] + (Decimal(n) + CRLF) + rest) == Ok((Integer(n), |Decimal(n)| + 3))
  {
    hide Decimal, GetDecimal;
    var s := [COLON] + (Decimal(n) + CRLF) + rest;
    assert s[1..] == Decimal(n) + CRLF + rest;
    DecimalBack(n, rest);
  }

  lemma NullBack(rest: bytes)
    ensures Parse([DOLLAR, MINUS, ZERO + 1] + CRLF + rest) == Ok((Null, 5))
  {
    var s, text: bytes := [DOLLAR, MINUS, ZERO + 1] + CRLF + rest, [MINUS, ZERO + 1];
    assert s[1..] == text + CRLF + rest;
    NoCrlfInPlain(text);
    LineBack(text, rest);
  }

  lemma BulkBack(data: bytes, rest: bytes)
    requires |data| < 0x8000_0000_0000_0000
    ensures Parse([DOLLAR] + (Decimal(|data|) + CRLF) + (data + CRLF) + rest)
            == Ok((Bulk(data), 1 + |Decimal(|data|)| + 2 + |data| + 2))
  {
    hide Decimal, GetDecimal;
    var n, more := Decimal(|data|), data + CRLF + rest;
    var s := [DOLLAR] + (n + CRLF) + (data + CRLF) + rest;
    assert s[1..] == n + CRLF + more;
    assert n[0] != MINUS by { NotNegative(|data|); }
    DecimalBack(|data|, more);
    assert s[1..][|n| + 2..|n| + 2 + |data|] == data;
  }

  lemma NotNegative(n: nat)
    ensures Decimal(n)[0] != MINUS
  {
  }

  /** Parsing what was printed, with anything behind it, gives the frame back and stops where it ended. */
  lemma {:induction false} RoundTrip(f: Frame, rest: bytes)
    requires Printable(f)
    ensures Parse(Print(f) + rest) == Ok((Received(f), |Print(f)|))
    decreases f
  {
    hide Parse, ValidUtf8, FindCrlf, Decimal;
    match f {
      case Simple(text) => TextBack(PLUS, text, rest);
      case ErrorOwned(text) => TextBack(MINUS, text, rest);
      case ErrorString(text) => TextBack(MINUS, text, rest);
      case Integer(n) => IntegerBack(n, rest);
      case Null => NullBack(rest);
      case Bulk(data) => BulkBack(data, rest);
      case Array(items) =>
        AllRoundTrip(items, rest);
        ArrayBack(items, rest);
    }
  }

  lemma ArrayBack(items: seq<Frame>, rest: bytes)
    requires |items| < 0x8000_0000_0000_0000
    requires ParseAll(PrintAll(items) + rest, |items|) == Ok((ReceivedAll(items), |PrintAll(items)|))
    ensures Parse([STAR] + (Decimal(|items|) + CRLF) + PrintAll(items) + rest)
            == Ok((Array(ReceivedAll(items)), 1 + |Decimal(|items|)| + 2 + |PrintAll(items)|))
  {
    hide Decimal, GetDecimal, ParseAll, PrintAll, ReceivedAll;
    var n, more := Decimal(|items|), PrintAll(items) + rest;
    var s := [STAR] + (n + CRLF) + PrintAll(items) + rest;
    assert s[1..] == n + CRLF + more;
    DecimalBack(|items|, more);
    assert s[1..][|n| + 2..] == more;
  }

  lemma {:induction false} AllRoundTrip(items: seq<Frame>, rest: bytes)
    requires forall i :: 0 <= i < |items| ==> Printable(items[i])
    ensures ParseAll(PrintAll(items) + rest, |items|) == Ok((ReceivedAll(items), |PrintAll(items)|))
    decreases items
  {
    hide Parse, Print, Received;
    if items != [] {
      var head, more := Print(items[0]), PrintAll(items[1..]) + rest;
      assert PrintAll(items) + rest == head + more;
      RoundTrip(items[0], more);
      AllRoundTrip(items[1..], rest);
      assert (head + more)[|head|..] == more;
    }
  }

  // ----- a frame that is not there yet -----

  lemma LineCut(text: bytes, k: nat)
    requires FindCrlf(text).None? && k < |text| + 2
    ensures GetLine((text + CRLF)[..k]) == Incomplete
  {
    NoNewCrlf(text);
    NoCrlfYet(text, k);
  }

  lemma DecimalCut(n: i64, k: nat)
    requires k < |Decimal(n)| + 2
    ensures GetDecimal((Decimal(n) + CRLF)[..k]) == Incomplete
  {
    hide Decimal;
    DecimalBack(n, []);
    LineCut(Decimal(n), k);
  }

  lemma TextCut(c: byte, text: bytes, k: nat)
    requires (c == PLUS || c == MINUS) && FindCrlf(text).None? && k < |text| + 3
    ensures Check(([c] + text + CRLF)[..k]) == Incomplete
  {
    hide GetLine, GetDecimal, FindCrlf;
    var s := ([c] + text + CRLF)[..k];
    if k > 0 {
      assert s[1..] == (text + CRLF)[..k - 1];
      LineCut(text, k - 1);
    }
  }

  lemma IntegerCut(n: i64, k: nat)
    requires k < |Decimal(n)| + 3
    ensures Check(([COLON] + (Decimal(n) + CRLF))[..k]) == Incomplete
  {
    hide Decimal, GetDecimal;
    var s := ([COLON] + (Decimal(n) + CRLF))[..k];
    if k > 0 {
      assert s[1..] == (Decimal(n) + CRLF)[..k - 1];
      DecimalCut(n, k - 1);
    }
  }

  lemma NullCut(k: nat)
    requires k < 5
    ensures Check(([DOLLAR, MINUS, ZERO + 1] + CRLF)[..k]) == Incomplete
  {
    var s := ([DOLLAR, MINUS, ZERO + 1] + CRLF)[..k];
    assert k > 0 ==> s[0] == DOLLAR;
    assert k > 1 ==> s[1..][0] == MINUS;
  }

  lemma HeaderCut<T>(c: T, n: seq<T>, end: seq<T>, rest: seq<T>, k: nat)
    requires 1 + |n| + |end| <= k <= 1 + |n| + |end| + |rest|
    ensures ([c] + (n + end) + rest)[..k][1..] == n + end + rest[..k - |n| - |end| - 1]
  {
  }

  lemma BulkCut(data: bytes, k: nat)
    requires |data| < 0x8000_0000_0000_0000 && k < 1 + |Decimal(|data|)| + 2 + |data| + 2
    ensures Check(([DOLLAR] + (Decimal(|data|) + CRLF) + (data + CRLF))[..k]) == Incomplete
  {
    hide Decimal, GetDecimal;
    var n := Decimal(|data|);
    var s := ([DOLLAR] + (n + CRLF) + (data + CRLF))[..k];
    NotNegative(|data|);
    if 0 < k <= |n| + 2 {
      assert s[1..] == (n + CRLF)[..k - 1];
      DecimalCut(|data|, k - 1);
    } else if k > 0 {
      var more := (data + CRLF)[..k - |n| - 3];
      HeaderCut(DOLLAR, n, CRLF, data + CRLF, k);
      DecimalBack(|data|, more);
    }
  }

  lemma ArrayCut(items: seq<Frame>, k: nat)
    requires |items| < 0x8000_0000_0000_0000 && k < 1 + |Decimal(|items|)| + 2 + |PrintAll(items)|
    requires forall j :: 0 <= j < |PrintAll(items)| ==> CheckAll(PrintAll(items)[..j], |items|) == Incomplete
    ensures Check(([STAR] + (Decimal(|items|) + CRLF) + PrintAll(items))[..k]) == Incomplete
  {
    hide Decimal, GetDecimal, CheckAll, PrintAll;
    var n := Decimal(|items|);
    var s := ([STAR] + (n + CRLF) + PrintAll(items))[..k];
    if 0 < k <= |n| + 2 {
      assert s[1..] == (n + CRLF)[..k - 1];
      DecimalCut(|items|, k - 1);
    } else if k > 0 {
      var more := PrintAll(items)[..k - |n| - 3];
      HeaderCut(STAR, n, CRLF, PrintAll(items), k);
      DecimalBack(|items|, more);
      assert s[1..][|n| + 2..] == more;
    }
  }

  /** No proper prefix of a printed frame passes the check, and none is refused. */
  lemma {:induction false} PrefixIncomplete(f: Frame, k: nat)
    requires Printable(f) && k < |Print(f)|
    ensures Check(Print(f)[..k]) == Incomplete
    decreases f
  {
    hide Check, ValidUtf8, FindCrlf, Decimal;
    match f {
      case Simple(text) => TextCut(PLUS, text, k);
      case ErrorOwned(text) => TextCut(MINUS, text, k);
      case ErrorString(text) => TextCut(MINUS, text, k);
      case Integer(n) => IntegerCut(n, k);
      case Null => NullCut(k);
      case Bulk(data) => BulkCut(data, k);
      case Array(items) =>
        forall j | 0 <= j < |PrintAll(items)| ensures CheckAll(PrintAll(items)[..j], |items|) == Incomplete {
          AllPrefixIncomplete(items, j);
        }
        ArrayCut(items, k);
    }
  }

  lemma {:induction false} AllPrefixIncomplete(items: seq<Frame>, k: nat)
    requires (forall i :: 0 <= i < |items| ==> Printable(items[i])) && k < |PrintAll(items)|
    ensures CheckAll(PrintAll(items)[..k], |items|) == Incomplete
    decreases items
  {
    hide Check, Parse, Print, Received;
    var head, tail := Print(items[0]), PrintAll(items[1..]);
    assert PrintAll(items) == head + tail;
    if k < |head| {
      assert (head + tail)[..k] == head[..k];
      PrefixIncomplete(items[0], k);
    } else {
      var more := tail[..k - |head|];
      assert (head + tail)[..k] == head + more;
      RoundTrip(items[0], more);
      ParsedIsChecked(head + more);
      assert (head + more)[|head|..] == more;
      AllPrefixIncomplete(items[1..], k - |head|);
    }
  }

  /** Arrays at most `depth` deep. */
  predicate Nested(f: Frame, depth: nat)
    decreases depth
  {
    f.Array? ==> depth > 0 && forall i :: 0 <= i < |f.items| ==> Nested(f.items[i], depth - 1)
  }

  lemma {:induction false} PrintAllConcat(a: seq<Frame>, b: seq<Frame>)
    ensures PrintAll(a + b) == PrintAll(a) + PrintAll(b)
    decreases |a|
  {
    hide Print;
    if a == [] {
      assert a + b == b;
    } else {
      assert (a + b)[1..] == a[1..] + b;
      PrintAllConcat(a[1..], b);
    }
  }

  lemma PrintNext(items: seq<Frame>, i: nat)
    requires i < |items|
    ensures PrintAll(items[..i + 1]) == PrintAll(items[..i]) + Print(items[i])
  {
    hide Print;
    var last := [items[i]];
    assert items[..i + 1] == items[..i] + last;
    PrintAllConcat(items[..i], last);
    assert last[1..] == [];
    assert PrintAll(last) == Print(items[i]) + PrintAll(last[1..]);
  }

  lemma PrintArray(items: seq<Frame>)
    ensures Print(Array(items)) == [STAR] + (Decimal(|items|) + CRLF) + PrintAll(items)
    ensures PrintAll(items[..0]) == []
  {
  }
}
