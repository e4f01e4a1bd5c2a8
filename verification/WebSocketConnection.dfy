/** Connections of webserver/src/mongoose.c that carry WebSocket frames: the
    buffers, the delivery of frames to the handler, and the writer. */
module WebSocketConnection {
  import opened Sequences
  import opened WebSocket
  import opened Words
  import opened Wrappers

  const ZERO: Byte := Fill(8, false)

  class IoBuf {
    var buf: array<Byte>
    var len: nat

    ghost predicate Valid()
      reads this
    {
      len <= buf.Length
    }

    ghost function Contents(): (s: seq<Byte>)
      requires Valid()
      reads this, buf
      ensures |s| == len
    {
      buf[..len]
    }

    constructor (size: nat)
      ensures Valid() && Contents() == [] && fresh(buf)
    {
      buf := new Byte[size](_ => ZERO);
      len := 0;
    }

    // A buffer that is too short is reallocated.
    method Append(data: seq<Byte>)
      requires Valid()
      modifies this, buf
      ensures Valid() && Contents() == old(Contents()) + data
      ensures buf == old(buf) || fresh(buf)
    {
      if len + |data| > buf.Length {
        var p := new Byte[len + |data|](_ => ZERO);
        forall i | 0 <= i < len {
          p[i] := buf[i];
        }
        buf := p;
      }
      forall i | 0 <= i < |data| {
        buf[len + i] := data[i];
      }
      len := len + |data|;
    }

    method Remove(n: nat)
      requires Valid()
      modifies this`len, buf
      ensures Valid()
      ensures Contents() == if 0 < n <= old(len) then old(Contents())[n..] else old(Contents())
    {
      if 0 < n <= len {
        forall i | 0 <= i < len - n {
          buf[i] := buf[i + n];
        }
        len := len - n;
      }
    }

    // The loop that applies the mask, in place.
    method Unmask(headerLen: nat, dataLen: nat)
      requires Valid() && 4 <= headerLen && headerLen + dataLen <= len
      modifies buf
      ensures var n := headerLen + dataLen;
        && buf[headerLen..n] == Masked(old(buf[headerLen - 4..headerLen]), old(buf[headerLen..n]))
        && buf[..headerLen] == old(buf[..headerLen]) && buf[n..] == old(buf[n..])
    {
      ghost var key, data := buf[headerLen - 4..headerLen], buf[headerLen..headerLen + dataLen];
      for i := 0 to dataLen
        invariant buf[..headerLen] == old(buf[..headerLen]) && buf[headerLen + i..] == old(buf[headerLen + i..])
        invariant buf[headerLen..headerLen + i] == Masked(key, data)[..i]
      {
        var k := headerLen - 4 + i % 4;
        assert buf[headerLen + i] == buf[headerLen + i..][0] == data[i];
        assert buf[k] == buf[..headerLen][k] == old(buf[..headerLen])[k] == key[i % 4];
        buf[headerLen + i] := XorByte(buf[headerLen + i], buf[k]);
        assert buf[headerLen..headerLen + i + 1] == buf[headerLen..headerLen + i] + [buf[headerLen + i]];
      }
    }
  }

  // What an int keeps of a sum or of a size_t.
  function AsInt(n: int): int {
    Int32(n % WORD)
  }

  lemma LengthIsInt(n: nat)
    requires n <= INT_MAX
    ensures AsInt(n) == n
  {
  }

  // Too long a frame has a negative length in the code.
  lemma FrameLenIsInt(b: seq<Byte>)
    requires |b| <= INT_MAX
    ensures var h := ReadHeader(b);
      && (0 < AsInt(h.headerLen + h.dataLen) <= |b| <==> Buffered(b))
      && (Buffered(b) ==> AsInt(h.headerLen + h.dataLen) == FrameLen(b))
  {
    LengthRange(b);
    assert ReadHeader(b).headerLen <= 14;
  }

  const CONNECTION_CLOSE := 8

  // 0x80 + (opcode & 0x0f)
  function FirstByte(opcode: int): (b: Byte)
    ensures b[7] && !b[6] && !b[5] && !b[4] && Val(b[..4]) == opcode % 16
  {
    FinAndOpcode(opcode % 16);
    ToBits(8, 0x80 + opcode % 16)
  }

  lemma FinAndOpcode(m: nat)
    requires m < 16
    ensures ToBits(8, 0x80 + m) == ToBits(4, m) + [false, false, false, true]
    ensures ToBits(8, 0x80 + m)[..4] == ToBits(4, m) && Val(ToBits(4, m)) == m
  {
    Powers();
    ValOfToBits(4, m);
    var low: Bits, fin: Bits := ToBits(4, m), [false, false, false, true];
    assert Val(fin) == 8;
    ValAppend(low, fin);
    ToBitsOfVal(low + fin);
  }

  class Connection {
    const recv: IoBuf
    const send: IoBuf
    // Whether the handler returns something other than MG_FALSE.
    const accepts: Delivery -> bool
    // NSF_FINISHED_SENDING_DATA
    var finished: bool
    // The calls of the handler so far.
    var delivered: seq<Delivery>
    ghost var received: seq<Byte>

    ghost predicate Shape()
      reads this, recv, send
    {
      recv.Valid() && send.Valid() && recv != send && recv.buf != send.buf
    }

    // What was delivered and what is left depends on the bytes received only.
    ghost predicate Valid()
      reads this, recv, send, recv.buf
    {
      Shape() && (delivered, recv.Contents()) == Drain(NextFrame, received)
    }

    constructor (handler: Delivery -> bool)
      ensures Valid() && received == [] && delivered == [] && send.Contents() == [] && !finished
      ensures accepts == handler && fresh(recv) && fresh(send) && fresh(recv.buf) && fresh(send.buf)
    {
      recv := new IoBuf(0);
      send := new IoBuf(0);
      accepts, finished, delivered, received := handler, false, [], [];
    }

    method CallUser(d: Delivery)
      modifies this`finished, this`delivered
      ensures delivered == old(delivered) + [d] && finished == (old(finished) || !accepts(d))
    {
      delivered := delivered + [d];
      if !accepts(d) {
        finished := true;
      }
    }

    /** One frame, if there is a complete one. */
    method DeliverFrame() returns (buffered: bool)
      requires Shape() && recv.len <= INT_MAX
      modifies this`finished, this`delivered, recv`len, recv.buf
      ensures Shape()
      ensures var next := NextFrame(old(recv.Contents()));
        && buffered == Ready(next, old(recv.len))
        && (if buffered then
              && delivered == old(delivered) + [next.item] && recv.Contents() == old(recv.Contents())[next.size..]
              && finished == (old(finished) || !accepts(next.item))
            else delivered == old(delivered) && recv.Contents() == old(recv.Contents()) && finished == old(finished))
    {
      var bufLen := AsInt(recv.len);
      LengthIsInt(recv.len);
      var h := ReadHeader(recv.buf[..bufLen]);
      var frameLen := AsInt(h.headerLen + h.dataLen);
      FrameLenIsInt(recv.Contents());
      buffered := 0 < frameLen <= bufLen;
      if buffered {
        DeliverBuffered(h, frameLen);
      }
    }

    method DeliverBuffered(h: Header, frameLen: nat)
      requires Shape() && h == ReadHeader(recv.Contents()) && Buffered(recv.Contents()) && frameLen == FrameLen(recv.Contents())
      modifies this`finished, this`delivered, recv`len, recv.buf
      ensures Shape() && delivered == old(delivered) + [old(Delivered(recv.Contents()))]
      ensures recv.Contents() == old(recv.Contents())[frameLen..]
      ensures finished == (old(finished) || !accepts(old(Delivered(recv.Contents()))))
    {
      ghost var b := recv.Contents();
      var content := [];
      if h.dataLen >= 0 {
        content := UnmaskedContent(h, frameLen);
      }
      assert recv.Contents()[frameLen..] == recv.buf[frameLen..][..recv.len - frameLen] == b[frameLen..];
      CallUser(Delivery(recv.buf[0], h.dataLen % LENGTHS, content));
      recv.Remove(frameLen);
    }

    method UnmaskedContent(h: Header, frameLen: nat) returns (content: seq<Byte>)
      requires Shape() && h == ReadHeader(recv.Contents()) && Buffered(recv.Contents()) && frameLen == FrameLen(recv.Contents())
      requires h.dataLen >= 0
      modifies recv.buf
      ensures Shape() && content == old(Content(recv.Contents(), h))
      ensures recv.buf[0] == old(recv.buf[0]) && recv.buf[frameLen..] == old(recv.buf[frameLen..])
    {
      ghost var b := recv.Contents();
      assert b[h.headerLen..frameLen] == recv.buf[h.headerLen..frameLen];
      if h.maskLen > 0 {
        assert b[h.headerLen - 4..h.headerLen] == recv.buf[h.headerLen - 4..h.headerLen];
        assert recv.buf[0] == recv.buf[..h.headerLen][0];
        recv.Unmask(h.headerLen, h.dataLen);
        assert recv.buf[0] == recv.buf[..h.headerLen][0];
      }
      content := recv.buf[h.headerLen..frameLen];
    }

    /** Bytes arrive, and every frame that is now complete is delivered. */
    method Receive(piece: seq<Byte>)
      requires Valid() && recv.len + |piece| <= INT_MAX
      modifies this, recv, recv.buf
      ensures Valid() && received == old(received) + piece
      ensures send.Contents() == old(send.Contents())
      ensures recv.buf == old(recv.buf) || fresh(recv.buf)
    {
      ghost var all := received + piece;
      recv.Append(piece);
      received := all;
      FramesAreStable();
      DrainSplit(NextFrame, old(received), piece);
      var more := true;
      while more
        invariant Shape() && received == all && recv.len <= INT_MAX
        invariant send.buf == old(send.buf) && (recv.buf == old(recv.buf) || fresh(recv.buf))
        invariant if more then Drained(NextFrame, all, delivered, recv.Contents())
                  else Drain(NextFrame, all) == (delivered, recv.Contents())
        decreases recv.len, more
      {
        DrainedNext(NextFrame, all, delivered, recv.Contents());
        more := DeliverFrame();
      }
    }

    /** mg_websocket_write: an unmasked frame; a closing frame ends the connection. */
    method WebsocketWrite(opcode: int, data: seq<Byte>) returns (pending: nat)
      requires Valid() && |data| < LENGTHS - 10
      modifies this`finished, send, send.buf
      ensures Valid() && received == old(received)
      ensures send.Contents() == old(send.Contents()) + Wire(Frame(FirstByte(opcode), None, data))
      ensures var b := send.Contents()[|old(send.Contents())|];
        b[7] && !b[6] && !b[5] && !b[4] && Val(b[..4]) == opcode % 16
      ensures finished == (old(finished) || opcode == 0x8) && pending == send.len
      ensures send.buf == old(send.buf) || fresh(send.buf)
    {
      var frame := BuildFrame(FirstByte(opcode), data);
      send.Append(frame);
      if opcode == CONNECTION_CLOSE {
        finished := true;
      }
      pending := send.len;
    }
  }

  // The frame, in a buffer of its own.
  method BuildFrame(first: Byte, data: seq<Byte>) returns (frame: seq<Byte>)
    requires |data| < LENGTHS - 10
    ensures frame == Wire(Frame(first, None, data))
  {
    var copy := new Byte[if |data| + 10 > 4192 then |data| + 10 else 4192](_ => ZERO);
    copy[0] := first;
    var start := PutLength(copy, |data|);
    forall i | 0 <= i < |data| {
      copy[start + i] := data[i];
    }
    frame := copy[..start + |data|];
    WireIs(first, data, start, frame);
  }

  // The length field, inline or in 2 or 8 more bytes.
  method PutLength(copy: array<Byte>, n: nat) returns (start: nat)
    requires copy.Length >= n + 10 && n < LENGTHS
    modifies copy
    ensures 2 <= start <= 10 && copy[..start] == [old(copy[0])] + LengthField(n, false)
  {
    if n < 126 {
      copy[1] := ToBits(7, n) + [false];
      start := 2;
    } else if n <= 0xFFFF {
      copy[1] := ToBits(7, 126) + [false];
      PutBytes(copy, 2, Big2(n));
      start := 4;
    } else {
      copy[1] := ToBits(7, 127) + [false];
      PutBytes(copy, 2, Big4(n / WORD));
      PutBytes(copy, 6, Big4(n % WORD));
      start := 10;
    }
  }

  // Stores the bytes of a number in network order.
  method PutBytes(copy: array<Byte>, at: nat, bytes: seq<Byte>)
    requires at + |bytes| <= copy.Length
    modifies copy
    ensures copy[..] == old(copy[..at]) + bytes + old(copy[at + |bytes|..])
  {
    forall i | 0 <= i < |bytes| {
      copy[at + i] := bytes[i];
    }
  }

  lemma WireIs(first: Byte, data: seq<Byte>, start: nat, copied: seq<Byte>)
    requires |data| < LENGTHS && start <= |copied| && copied[..start] == [first] + LengthField(|data|, false)
    requires copied[start..] == data
    ensures copied == Wire(Frame(first, None, data))
  {
    var f := Frame(first, None, data);
    assert Head(f) == [first] + LengthField(|data|, false) + [];
    assert copied == copied[..start] + copied[start..];
  }

  // ----- streams of frames -----

  // Between two pieces the buffer holds less than a frame.
  lemma LeftFits(fs: seq<Frame>, t: seq<Byte>, start: seq<Byte>, largest: nat)
    requires AllReadable(fs) && forall i :: 0 <= i < |fs| ==> |Wire(fs[i])| <= largest
    requires |t| <= largest && (t == [] || exists f :: Partial(t, f))
    requires start <= Joined(WireAll(fs)) + t
    ensures |Drain(NextFrame, start).1| <= largest
  {
    FramesAreRead(fs, t);
    FramesAreStable();
    LeftIsShort(NextFrame, WireAll(fs), AnnouncedAll(fs), t, start, largest);
  }

  /** Frames that arrive in any pieces are delivered exactly, in order, and an
      incomplete frame at the end is kept. */
  method ReceivePieces(pieces: seq<seq<Byte>>, handler: Delivery -> bool,
                       ghost fs: seq<Frame>, ghost t: seq<Byte>, ghost largest: nat)
      returns (delivered: seq<Delivery>, left: seq<Byte>)
    requires AllReadable(fs) && forall i :: 0 <= i < |fs| ==> |Wire(fs[i])| <= largest
    requires |t| <= largest && (t == [] || exists f :: Partial(t, f))
    requires Concat(pieces) == Joined(WireAll(fs)) + t
    requires forall i :: 0 <= i < |pieces| ==> largest + |pieces[i]| <= INT_MAX
    ensures delivered == AnnouncedAll(fs) && left == t
  {
    var conn := new Connection(handler);
    for i := 0 to |pieces|
      invariant conn.Valid() && conn.received == Concat(pieces[..i])
      invariant fresh(conn) && fresh(conn.recv) && fresh(conn.recv.buf)
    {
      assert pieces[..i + 1][..i] == pieces[..i];
      ConcatStart(pieces, i);
      LeftFits(fs, t, Concat(pieces[..i]), largest);
      conn.Receive(pieces[i]);
    }
    assert pieces[..|pieces|] == pieces;
    FramesDelivered(fs, t);
    delivered, left := conn.delivered, conn.recv.buf[..conn.recv.len];
  }
}
