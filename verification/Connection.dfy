/**
  A client connection: bytes arrive in chunks of any size, are buffered, and leave the
  buffer frame by frame; replies are printed to the other side.
 */
module Connection {
  import opened Bytes
  import opened Resp
  import Cursor

  datatype Outcome = Got(frame: Frame) | Closed | Reset | ProtocolError

  /** The rest of a stream that has arrived in part. */
  function Flatten(chunks: seq<bytes>): bytes {
    if chunks == [] then [] else chunks[0] + Flatten(chunks[1..])
  }

  // ----- reading, as a function -----

  datatype Attempt = Parsed(frame: Frame, length: nat) | NeedMore | Broken

  /** One attempt to take a frame from the buffer: check first, then parse. */
  function TryParse(buffer: bytes): (a: Attempt)
    ensures a.Parsed? ==> 0 < a.length <= |buffer|
  {
    match Check(buffer)
    case Incomplete => NeedMore
    case Invalid => Broken
    case Ok(n) =>
      match Parse(buffer)
      case Ok((frame, _)) => Parsed(frame, n)
      case _ => Broken
  }

  /** Read one frame: the outcome, the buffer and the chunks that are left. */
  function Receive(buffer: bytes, chunks: seq<bytes>): (Outcome, bytes, seq<bytes>)
    decreases |chunks|
  {
    match TryParse(buffer)
    case Parsed(frame, n) => (Got(frame), buffer[n..], chunks)
    case Broken => (ProtocolError, buffer, chunks)
    case NeedMore =>
      if chunks == [] then (if buffer == [] then Closed else Reset, buffer, chunks)
      else Receive(buffer + chunks[0], chunks[1..])
  }

  lemma WholeFrame(f: Frame, more: bytes)
    requires Printable(f)
    ensures TryParse(Print(f) + more) == Parsed(Received(f), |Print(f)|)
  {
    hide Check, Parse, Print, Received, Printable;
    RoundTrip(f, more);
    ParsedIsChecked(Print(f) + more);
  }

  lemma PartialFrame(f: Frame, k: nat)
    requires Printable(f) && k < |Print(f)|
    ensures TryParse(Print(f)[..k]) == NeedMore
  {
    hide Check, Parse, Print, Printable;
    PrefixIncomplete(f, k);
  }

  /** However a printed frame is cut into chunks, it is received whole, and what follows stays. */
  lemma {:induction false} ReceiveFrame(f: Frame, rest: bytes, buffer: bytes, chunks: seq<bytes>)
    requires Printable(f) && buffer + Flatten(chunks) == Print(f) + rest
    ensures var (outcome, b, c) := Receive(buffer, chunks);
            outcome == Got(Received(f)) && b + Flatten(c) == rest
    decreases |chunks|
  {
    hide TryParse, Print, Received, Printable;
    var p := Print(f);
    if |buffer| >= |p| {
      var more := buffer[|p|..];
      assert buffer == p + more by {
        assert buffer == (buffer + Flatten(chunks))[..|buffer|];
        assert p == (p + rest)[..|p|];
      }
      WholeFrame(f, more);
      assert more + Flatten(chunks) == (p + rest)[|p|..] == rest;
    } else {
      assert buffer == p[..|buffer|] by {
        assert buffer == (buffer + Flatten(chunks))[..|buffer|] == (p + rest)[..|buffer|];
      }
      PartialFrame(f, |buffer|);
      assert chunks != [] by { assert |buffer + Flatten(chunks)| >= |p|; }
      assert (buffer + chunks[0]) + Flatten(chunks[1..]) == buffer + Flatten(chunks);
      ReceiveFrame(f, rest, buffer + chunks[0], chunks[1..]);
    }
  }

  /** A stream that ends inside a frame is a reset; one that ends before a frame is a clean close. */
  lemma {:induction false} ReceiveEnd(f: Frame, k: nat, buffer: bytes, chunks: seq<bytes>)
    requires Printable(f) && k < |Print(f)| && buffer + Flatten(chunks) == Print(f)[..k]
    ensures Receive(buffer, chunks).0 == if k == 0 then Closed else Reset
    decreases |chunks|
  {
    hide TryParse, Print, Printable;
    var p := Print(f);
    assert buffer == p[..|buffer|] by {
      assert buffer == (buffer + Flatten(chunks))[..|buffer|] == p[..k][..|buffer|];
    }
    PartialFrame(f, |buffer|);
    if chunks == [] {
      assert buffer + Flatten(chunks) == buffer;
    } else {
      assert (buffer + chunks[0]) + Flatten(chunks[1..]) == buffer + Flatten(chunks);
      ReceiveEnd(f, k, buffer + chunks[0], chunks[1..]);
    }
  }

  // ----- a whole conversation -----

  lemma {:induction false} ReceiveShrinks(buffer: bytes, chunks: seq<bytes>)
    ensures var (outcome, b, c) := Receive(buffer, chunks);
            outcome.Got? ==> |b| + |Flatten(c)| < |buffer| + |Flatten(chunks)|
    decreases |chunks|
  {
    hide TryParse;
    if TryParse(buffer).NeedMore? && chunks != [] {
      ReceiveShrinks(buffer + chunks[0], chunks[1..]);
    }
  }

  /** All frames up to the first outcome that is none. */
  function ReceiveAll(buffer: bytes, chunks: seq<bytes>): (seq<Frame>, Outcome)
    decreases |buffer| + |Flatten(chunks)|
  {
    ReceiveShrinks(buffer, chunks);
    var (outcome, b, c) := Receive(buffer, chunks);
    if !outcome.Got? then ([], outcome)
    else
      var (frames, end) := ReceiveAll(b, c);
      ([outcome.frame] + frames, end)
  }

  /** Frames, printed and cut anywhere, arrive complete and in order, and then the stream closes cleanly. */
  lemma {:induction false} Conversation(frames: seq<Frame>, buffer: bytes, chunks: seq<bytes>)
    requires forall i :: 0 <= i < |frames| ==> Printable(frames[i])
    requires buffer + Flatten(chunks) == PrintAll(frames)
    ensures ReceiveAll(buffer, chunks) == (ReceivedAll(frames), Closed)
    decreases |frames|
  {
    hide Print, Received, Printable, Receive, PrintAll, ReceivedAll;
    ConversationStep(frames);
    if frames == [] {
      NullPrinted();
      ReceiveEnd(Null, 0, buffer, chunks);
    } else {
      ReceiveFrame(frames[0], PrintAll(frames[1..]), buffer, chunks);
      var (_, b, c) := Receive(buffer, chunks);
      Conversation(frames[1..], b, c);
    }
  }

  lemma ConversationStep(frames: seq<Frame>)
    ensures frames == [] ==> PrintAll(frames) == [] && ReceivedAll(frames) == []
    ensures frames != [] ==> PrintAll(frames) == Print(frames[0]) + PrintAll(frames[1..])
    ensures frames != [] ==> ReceivedAll(frames) == [Received(frames[0])] + ReceivedAll(frames[1..])
  {
  }

  lemma NullPrinted()
    ensures Printable(Null) && Print(Null)[..0] == [] && |Print(Null)| > 0
  {
  }

  // ----- the connection -----

  lemma Join(a: bytes, b: bytes, c: bytes, d: bytes)
    ensures a + b + c + d == a + (b + c + d) && a + b + c == a + (b + c)
  {
  }

  class Connection {
    var buffer: bytes
    var incoming: seq<bytes>  // what the peer will still send, read by read, before it closes
    var sent: bytes

    /** Drop the frame at the front of the buffer, if a whole one is there. */
    method ParseFrame() returns (a: Attempt)
      modifies this
      ensures a == TryParse(old(buffer)) && incoming == old(incoming) && sent == old(sent)
      ensures buffer == if a.Parsed? then old(buffer)[a.length..] else old(buffer)
    {
      hide Check, Parse;
      var cursor := new Cursor.Cursor(buffer);
      assert cursor.Rest() == buffer;
      var checked := cursor.CheckFrame();
      match checked {
        case Incomplete => return NeedMore;
        case Invalid => return Broken;
        case Ok(_) =>
          var length := cursor.pos;
          cursor.pos := 0;
          assert cursor.Rest() == buffer;
          var frame := cursor.ParseFrame();
          if !frame.Ok? {
            return Broken;
          }
          buffer := buffer[length..];
          return Parsed(frame.value, length);
      }
    }

    method ReadFrame() returns (outcome: Outcome)
      modifies this
      ensures (outcome, buffer, incoming) == Receive(old(buffer), old(incoming))
      ensures sent == old(sent)
    {
      while true
        invariant Receive(buffer, incoming) == Receive(old(buffer), old(incoming)) && sent == old(sent)
        decreases |incoming|
      {
        var a := ParseFrame();
        if a.Parsed? {
          return Got(a.frame);
        } else if a.Broken? {
          return ProtocolError;
        }
        if incoming == [] {
          return if buffer == [] then Closed else Reset;
        }
        buffer := buffer + incoming[0];
        incoming := incoming[1..];
      }
    }

    // ----- writing -----

    method WriteAll(data: bytes)
      modifies this
      ensures sent == old(sent) + data && buffer == old(buffer) && incoming == old(incoming)
    {
      sent := sent + data;
    }

    method WriteDecimal(n: i64)
      modifies this
      ensures sent == old(sent) + (Decimal(n) + CRLF) && buffer == old(buffer) && incoming == old(incoming)
    {
      WriteAll(Decimal(n));
      WriteAll(CRLF);
    }

    method WriteValue(f: Frame)
      requires !f.Array? && (f.Bulk? ==> |f.data| < 0x8000_0000_0000_0000)
      modifies this
      ensures sent == old(sent) + Print(f) && buffer == old(buffer) && incoming == old(incoming)
    {
      hide Decimal;
      ghost var was := sent;
      match f {
        case Simple(text) => WriteAll([PLUS]); WriteAll(text); WriteAll(CRLF); Join(was, [PLUS], text, CRLF);
        case ErrorString(text) => WriteAll([MINUS]); WriteAll(text); WriteAll(CRLF); Join(was, [MINUS], text, CRLF);
        case ErrorOwned(text) => WriteAll([MINUS]); WriteAll(text); WriteAll(CRLF); Join(was, [MINUS], text, CRLF);
        case Integer(n) => WriteAll([COLON]); WriteDecimal(n); Join(was, [COLON], Decimal(n) + CRLF, []);
        case Null => WriteAll([DOLLAR, MINUS, ZERO + 1] + CRLF);
        case Bulk(data) =>
          WriteAll([DOLLAR]);
          WriteDecimal(|data|);
          WriteAll(data);
          WriteAll(CRLF);
          Join(was, [DOLLAR], Decimal(|data|) + CRLF, data + CRLF);
          Join(was + [DOLLAR] + (Decimal(|data|) + CRLF), data, CRLF, []);
      }
    }

    method WriteHeader(n: nat)
      requires n < 0x8000_0000_0000_0000
      modifies this
      ensures sent == old(sent) + ([STAR] + (Decimal(n) + CRLF)) && buffer == old(buffer) && incoming == old(incoming)
    {
      WriteAll([STAR]);
      WriteDecimal(n);
    }

    /** The third level of nesting, which holds no arrays. */
    method WriteInnermost(items: seq<Frame>)
      requires Sized(Array(items)) && Nested(Array(items), 1)
      modifies this
      ensures sent == old(sent) + Print(Array(items)) && buffer == old(buffer) && incoming == old(incoming)
    {
      hide Print, PrintAll, Decimal;
      WriteHeader(|items|);
      ghost var header := sent;
      PrintArray(items);
      for i := 0 to |items|
        invariant sent == header + PrintAll(items[..i]) && buffer == old(buffer) && incoming == old(incoming)
      {
        PrintNext(items, i);
        WriteValue(items[i]);
      }
      assert items[..|items|] == items;
    }

    method WriteNested(items: seq<Frame>)
      requires Sized(Array(items)) && Nested(Array(items), 2)
      modifies this
      ensures sent == old(sent) + Print(Array(items)) && buffer == old(buffer) && incoming == old(incoming)
    {
      hide Print, PrintAll, Decimal;
      WriteHeader(|items|);
      ghost var header := sent;
      PrintArray(items);
      for i := 0 to |items|
        invariant sent == header + PrintAll(items[..i]) && buffer == old(buffer) && incoming == old(incoming)
      {
        PrintNext(items, i);
        if items[i].Array? {
          WriteInnermost(items[i].items);
        } else {
          WriteValue(items[i]);
        }
      }
      assert items[..|items|] == items;
    }

    /** Write a frame; arrays are supported up to three levels deep. */
    method WriteFrame(f: Frame)
      requires Sized(f) && Nested(f, 3)
      modifies this
      ensures sent == old(sent) + Print(f) && buffer == old(buffer) && incoming == old(incoming)
    {
      hide Print, PrintAll, Decimal;
      if !f.Array? {
        WriteValue(f);
        return;
      }
      WriteHeader(|f.items|);
      ghost var header := sent;
      PrintArray(f.items);
      for i := 0 to |f.items|
        invariant sent == header + PrintAll(f.items[..i]) && buffer == old(buffer) && incoming == old(incoming)
      {
        PrintNext(f.items, i);
        if f.items[i].Array? {
          WriteNested(f.items[i].items);
        } else {
          WriteValue(f.items[i]);
        }
      }
      assert f.items[..|f.items|] == f.items;
    }
  }
}
