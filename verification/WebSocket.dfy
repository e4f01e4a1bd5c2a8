/** WebSocket frames: the format of sections 5.2 and 5.3 of RFC 6455, and what
    webserver/src/mongoose.c reads from a buffer. */
module WebSocket {
  import opened Sequences
  import opened Words
  import opened Wrappers

  // ----- RFC 6455 -----

  type Key = k: seq<Byte> | |k| == 4 witness seq(4, _ => Fill(8, false))

  // The first byte holds FIN, the reserved bits and the opcode.
  datatype Frame = Frame(first: Byte, key: Option<Key>, payload: seq<Byte>)

  function XorByte(a: Byte, b: Byte): Byte {
    seq(8, i requires 0 <= i < 8 => a[i] != b[i])
  }

  // Section 5.3; masking and unmasking are the same.
  function Masked(key: Key, data: seq<Byte>): (r: seq<Byte>)
    ensures |r| == |data|
  {
    seq(|data|, i requires 0 <= i < |data| => XorByte(data[i], key[i % 4]))
  }

  lemma MaskedTwice(key: Key, data: seq<Byte>)
    ensures Masked(key, Masked(key, data)) == data
  {
    forall i | 0 <= i < |data| ensures Masked(key, Masked(key, data))[i] == data[i] {
      var k := key[i % 4];
      assert XorByte(XorByte(data[i], k), k) == data[i];
    }
  }

  const LENGTHS := 0x1_0000_0000_0000_0000

  type Length = n: nat | n < LENGTHS

  function Big2(n: nat): (b: seq<Byte>)
    requires n <= 0xFFFF
    ensures |b| == 2
  {
    [ToBits(8, n / 0x100), ToBits(8, n % 0x100)]
  }

  function Big4(n: nat): (b: seq<Byte>)
    requires n < WORD
    ensures |b| == 4
  {
    Big2(n / 0x1_0000) + Big2(n % 0x1_0000)
  }

  // The mask bit and the payload length, in the shortest of three forms.
  function LengthField(n: Length, mask: bool): seq<Byte> {
    if n < 126 then [ToBits(7, n) + [mask]]
    else if n <= 0xFFFF then [ToBits(7, 126) + [mask]] + Big2(n)
    else [ToBits(7, 127) + [mask]] + (Big4(n / WORD) + Big4(n % WORD))
  }

  predicate Sendable(f: Frame) {
    |f.payload| < LENGTHS
  }

  function MaskLen(mask: bool): nat {
    if mask then 4 else 0
  }

  function KeyBytes(key: Option<Key>): (k: seq<Byte>)
    ensures |k| == MaskLen(key.Some?)
  {
    if key.Some? then key.value else []
  }

  function Hidden(key: Option<Key>, data: seq<Byte>): (r: seq<Byte>)
    ensures |r| == |data|
  {
    if key.Some? then Masked(key.value, data) else data
  }

  function Head(f: Frame): (h: seq<Byte>)
    requires Sendable(f)
    ensures |h| >= 2
  {
    [f.first] + LengthField(|f.payload|, f.key.Some?) + KeyBytes(f.key)
  }

  function Wire(f: Frame): (s: seq<Byte>)
    requires Sendable(f)
    ensures |s| == |Head(f)| + |f.payload| && |s| >= 2
  {
    Head(f) + Hidden(f.key, f.payload)
  }

  // Network byte order
  function Network(b: seq<Byte>): nat {
    if b == [] then 0 else 0x100 * Network(b[..|b| - 1]) + Val(b[|b| - 1])
  }

  /** The bits of section 5.2: the mask bit, and the length in seven bits, or in two or
      eight more bytes announced by 126 and 127. */
  lemma WireHead(f: Frame)
    requires Sendable(f)
    ensures var w, n := Wire(f), |f.payload|;
      && w[0] == f.first && w[1][7] == f.key.Some?
      && Val(w[1][..7]) == (if n < 126 then n else if n <= 0xFFFF then 126 else 127)
      && |w| == (if n < 126 then 2 else if n <= 0xFFFF then 4 else 10) + (if f.key.Some? then 4 else 0) + n
      && (126 <= n <= 0xFFFF ==> Network(w[2..4]) == n) && (n > 0xFFFF ==> Network(w[2..10]) == n)
  {
    var field := LengthField(|f.payload|, f.key.Some?);
    FieldFormat(|f.payload|, f.key.Some?);
    FieldPlace(f.first, field, KeyBytes(f.key) + Hidden(f.key, f.payload));
    assert Wire(f) == [f.first] + field + (KeyBytes(f.key) + Hidden(f.key, f.payload));
  }

  lemma FieldPlace(first: Byte, field: seq<Byte>, rest: seq<Byte>)
    requires field != []
    ensures var w := [first] + field + rest;
      w[0] == first && w[1] == field[0] && w[2..1 + |field|] == field[1..]
  {
  }

  /** Then the key. */
  lemma WireKey(f: Frame)
    requires Sendable(f)
    ensures var w, n := Wire(f), |f.payload|;
      var h := if n < 126 then 2 else if n <= 0xFFFF then 4 else 10;
      h <= |w| - n && w[h..] == (if f.key.Some? then f.key.value else []) + w[|w| - n..]
  {
    FieldFormat(|f.payload|, f.key.Some?);
    PayloadLast([f.first] + LengthField(|f.payload|, f.key.Some?), KeyBytes(f.key), Hidden(f.key, f.payload));
  }

  /** Then the payload, masked byte by byte with the key in turn. */
  lemma WirePayload(f: Frame, i: nat, j: nat)
    requires Sendable(f) && i < |f.payload| && j < 8
    ensures var w, n := Wire(f), |f.payload|;
      w[|w| - n + i][j] == (f.payload[i][j] != (f.key.Some? && f.key.value[i % 4][j]))
  {
    PayloadLast([f.first] + LengthField(|f.payload|, f.key.Some?), KeyBytes(f.key), Hidden(f.key, f.payload));
    assert Wire(f)[|Wire(f)| - |f.payload| + i] == Wire(f)[|Wire(f)| - |f.payload|..][i];
    HiddenBit(f.key, f.payload, i, j);
  }

  lemma PayloadLast(head: seq<Byte>, key: seq<Byte>, rest: seq<Byte>)
    ensures var w := head + key + rest; w[|head|..] == key + rest && w[|w| - |rest|..] == rest
  {
  }

  lemma HiddenBit(key: Option<Key>, data: seq<Byte>, i: nat, j: nat)
    requires i < |data| && j < 8
    ensures Hidden(key, data)[i][j] == (data[i][j] != (key.Some? && key.value[i % 4][j]))
  {
  }

  lemma FieldFormat(n: Length, mask: bool)
    ensures var field := LengthField(n, mask);
      && |field| == (if n < 126 then 1 else if n <= 0xFFFF then 3 else 9) && field[0][7] == mask
      && Val(field[0][..7]) == (if n < 126 then n else if n <= 0xFFFF then 126 else 127)
      && (n >= 126 ==> Network(field[1..]) == n)
  {
    var field := LengthField(n, mask);
    var m := if n < 126 then n else if n <= 0xFFFF then 126 else 127;
    assert Pow2(7) == 128;
    ValOfToBits(7, m);
    assert field[0][..7] == ToBits(7, m);
    if n > 0xFFFF {
      NetworkOf4(n / WORD, []);
      NetworkOf4(n % WORD, Big4(n / WORD));
      assert field[1..] == Big4(n / WORD) + Big4(n % WORD);
      assert [] + Big4(n / WORD) == Big4(n / WORD);
    } else if n >= 126 {
      NetworkOf2(n, []);
      assert field[1..] == [] + Big2(n);
    }
  }

  lemma NetworkOf2(n: nat, start: seq<Byte>)
    requires n <= 0xFFFF
    ensures Network(start + Big2(n)) == 0x1_0000 * Network(start) + n
  {
    var b := start + Big2(n);
    Powers();
    ValOfToBits(8, n / 0x100);
    ValOfToBits(8, n % 0x100);
    var c := b[..|b| - 1];
    assert c[..|c| - 1] == start && c[|c| - 1] == Big2(n)[0] && b[|b| - 1] == Big2(n)[1];
  }

  lemma NetworkOf4(n: nat, start: seq<Byte>)
    requires n < WORD
    ensures Network(start + Big4(n)) == WORD * Network(start) + n
  {
    NetworkOf2(n / 0x1_0000, start);
    NetworkOf2(n % 0x1_0000, start + Big2(n / 0x1_0000));
    assert start + Big4(n) == start + Big2(n / 0x1_0000) + Big2(n % 0x1_0000);
  }

  // ----- what deliver_websocket_frame makes of a buffer -----

  // A 32-bit number as a C int.
  function Int32(n: nat): int
    requires n < WORD
  {
    if n < 0x8000_0000 then n else n - WORD
  }

  function Value2(b: seq<Byte>, i: nat): nat
    requires i + 2 <= |b|
  {
    0x100 * Val(b[i]) + Val(b[i + 1])
  }

  function Value4(b: seq<Byte>, i: nat): (n: nat)
    requires i + 4 <= |b|
    ensures n < WORD
  {
    ByteBounds(b, i);
    0x1_0000 * Value2(b, i) + Value2(b, i + 2)
  }

  lemma ByteBounds(b: seq<Byte>, i: nat)
    requires i + 4 <= |b|
    ensures Val(b[i]) < 256 && Val(b[i + 1]) < 256 && Val(b[i + 2]) < 256 && Val(b[i + 3]) < 256
  {
    Powers();
    ValBound(b[i]);
    ValBound(b[i + 1]);
    ValBound(b[i + 2]);
    ValBound(b[i + 3]);
  }

  // All zero lengths when the header is incomplete. Of the 8 bytes of a long
  // length the first four are shifted out of the int.
  datatype Header = Header(headerLen: nat, maskLen: nat, dataLen: int)

  function ReadHeader(b: seq<Byte>): Header {
    if |b| < 2 then Header(0, 0, 0)
    else
      var len := Val(b[1][..7]);
      var maskLen := if b[1][7] then 4 else 0;
      if len < 126 && |b| >= maskLen then Header(2 + maskLen, maskLen, len)
      else if len == 126 && |b| >= 4 + maskLen then Header(4 + maskLen, maskLen, Value2(b, 2))
      else if |b| >= 10 + maskLen then Header(10 + maskLen, maskLen, Int32(Value4(b, 6)))
      else Header(0, maskLen, 0)
  }

  function FrameLen(b: seq<Byte>): int {
    ReadHeader(b).headerLen + ReadHeader(b).dataLen
  }

  predicate Buffered(b: seq<Byte>) {
    0 < FrameLen(b) <= |b|
  }

  /** What the handler is given: wsbits, content_len and content. */
  datatype Delivery = Delivery(first: Byte, contentLen: nat, content: seq<Byte>)

  // A negative length becomes a huge size_t.
  function Delivered(b: seq<Byte>): Delivery
    requires Buffered(b)
  {
    var h := ReadHeader(b);
    Delivery(b[0], h.dataLen % LENGTHS, if h.dataLen < 0 then [] else Content(b, h))
  }

  function Content(b: seq<Byte>, h: Header): seq<Byte>
    requires h == ReadHeader(b) && Buffered(b) && h.dataLen >= 0
  {
    var data := b[h.headerLen..FrameLen(b)];
    if h.maskLen > 0 then Masked(b[h.headerLen - 4..h.headerLen], data) else data
  }

  lemma TopBit(b: Byte)
    ensures b[7] <==> Val(b) >= 128
  {
    var low: Bits := b[..7];
    ValAppend(low, [b[7]]);
    ValBound(low);
    assert b == low + [b[7]] && Pow2(7) == 128;
  }

  // The length comes from 8 bytes, and the low word of it is negative as an int.
  predicate NegativeLength(b: seq<Byte>) {
    |b| >= 10 && |b| >= 10 + MaskLen(b[1][7]) && Val(b[1][..7]) == 127 && b[6][7]
  }

  lemma LengthRange(b: seq<Byte>)
    ensures -0x8000_0000 <= ReadHeader(b).dataLen < 0x8000_0000
    ensures ReadHeader(b).dataLen < 0 <==> NegativeLength(b)
  {
    if |b| >= 10 {
      ByteBounds(b, 0);
      LongLengthSign(b);
      ValBound(b[1][..7]);
      assert Pow2(7) == 128;
    } else if |b| >= 4 {
      ByteBounds(b, 0);
    }
  }

  lemma LongLengthSign(b: seq<Byte>)
    requires |b| >= 10
    ensures Int32(Value4(b, 6)) < 0 <==> b[6][7]
  {
    ByteBounds(b, 6);
    TopBit(b[6]);
  }

  /** content_len is the number of bytes handed over, except when the header has a
      64-bit length whose low word has its top bit set. */
  lemma ContentLengthIff(b: seq<Byte>)
    requires Buffered(b)
    ensures Delivered(b).contentLen == |Delivered(b).content| <==> !NegativeLength(b)
  {
    LengthRange(b);
  }

  function NextFrame(b: seq<Byte>): Next<Delivery> {
    if Buffered(b) then Complete(Delivered(b), FrameLen(b)) else Incomplete
  }

  // ----- a frame once in the buffer stays what it is -----

  lemma HeaderStays(a: seq<Byte>, b: seq<Byte>)
    requires ReadHeader(a).headerLen > 0
    ensures ReadHeader(a + b) == ReadHeader(a)
  {
    assert (a + b)[1] == a[1];
  }

  lemma FrameStays(a: seq<Byte>, b: seq<Byte>)
    requires Buffered(a)
    ensures Buffered(a + b) && FrameLen(a + b) == FrameLen(a) && Delivered(a + b) == Delivered(a)
  {
    HeaderStays(a, b);
    var h := ReadHeader(a);
    if h.dataLen >= 0 {
      assert (a + b)[h.headerLen..FrameLen(a)] == a[h.headerLen..FrameLen(a)];
      if h.maskLen > 0 {
        assert (a + b)[h.headerLen - 4..h.headerLen] == a[h.headerLen - 4..h.headerLen];
      }
    }
  }

  lemma FramesAreStable()
    ensures Stable(NextFrame)
  {
    forall a: seq<Byte>, b: seq<Byte> | Ready(NextFrame(a), |a|) ensures NextFrame(a + b) == NextFrame(a) {
      FrameStays(a, b);
    }
  }

  // ----- frames in the format of RFC 6455 -----

  lemma ValOfByte(n: nat)
    requires n < 256
    ensures Val(ToBits(8, n)) == n
  {
    Powers();
    ValOfToBits(8, n);
  }

  lemma ValOfSeven(n: nat, mask: bool)
    requires n < 128
    ensures var b: Byte := ToBits(7, n) + [mask]; Val(b[..7]) == n && b[7] == mask
  {
    Powers();
    assert Pow2(7) == 128;
    ValOfToBits(7, n);
    var b: Byte := ToBits(7, n) + [mask];
    assert b[..7] == ToBits(7, n);
  }

  lemma ValueOfBig2(n: nat, b: seq<Byte>, i: nat)
    requires n <= 0xFFFF && i + 2 <= |b| && b[i..i + 2] == Big2(n)
    ensures Value2(b, i) == n
  {
    ValOfByte(n / 0x100);
    ValOfByte(n % 0x100);
    assert b[i] == b[i..i + 2][0] && b[i + 1] == b[i..i + 2][1];
  }

  lemma ValueOfBig4(n: nat, b: seq<Byte>, i: nat)
    requires n < WORD && i + 4 <= |b| && b[i..i + 4] == Big4(n)
    ensures Value4(b, i) == n
  {
    assert b[i..i + 2] == b[i..i + 4][..2] == Big2(n / 0x1_0000);
    assert b[i + 2..i + 4] == b[i..i + 4][2..] == Big2(n % 0x1_0000);
    ValueOfBig2(n / 0x1_0000, b, i);
    ValueOfBig2(n % 0x1_0000, b, i + 2);
  }

  lemma ReadsShort(b: seq<Byte>, n: nat, mask: bool)
    requires |b| >= 2 + MaskLen(mask) && n < 126 && b[1] == ToBits(7, n) + [mask]
    ensures ReadHeader(b) == Header(2 + MaskLen(mask), MaskLen(mask), n)
  {
    ValOfSeven(n, mask);
  }

  lemma ReadsMedium(b: seq<Byte>, n: nat, mask: bool)
    requires |b| >= 4 + MaskLen(mask) && n <= 0xFFFF && b[1] == ToBits(7, 126) + [mask] && b[2..4] == Big2(n)
    ensures ReadHeader(b) == Header(4 + MaskLen(mask), MaskLen(mask), n)
  {
    ValOfSeven(126, mask);
    ValueOfBig2(n, b, 2);
  }

  lemma ReadsLong(b: seq<Byte>, n: nat, mask: bool)
    requires |b| >= 10 + MaskLen(mask) && n < WORD && b[1] == ToBits(7, 127) + [mask] && b[6..10] == Big4(n)
    ensures ReadHeader(b) == Header(10 + MaskLen(mask), MaskLen(mask), Int32(n))
  {
    ValOfSeven(127, mask);
    ValueOfBig4(n, b, 6);
  }

  function LengthRead(n: Length): int {
    if n <= 0xFFFF then n else Int32(n % WORD)
  }

  lemma LengthReadExact(n: Length)
    ensures LengthRead(n) == n <==> n < 0x8000_0000
  {
  }

  // The header of a frame, whatever follows its length field and its key.
  lemma ReadsLength(first: Byte, n: Length, mask: bool, key: seq<Byte>, rest: seq<Byte>)
    requires |key| == MaskLen(mask)
    ensures var field := LengthField(n, mask);
      ReadHeader([first] + field + key + rest)
        == Header(1 + |field| + |key|, |key|, LengthRead(n))
  {
    var field := LengthField(n, mask);
    var b := [first] + field + key + rest;
    assert b[1..1 + |field|] == field;
    assert b[1] == field[0];
    if n < 126 {
      ReadsShort(b, n, mask);
    } else if n <= 0xFFFF {
      assert b[2..4] == field[1..] == Big2(n);
      ReadsMedium(b, n, mask);
    } else {
      assert b[6..10] == field[5..] == Big4(n % WORD);
      ReadsLong(b, n % WORD, mask);
    }
  }

  /** The length read from a frame is its length exactly below 2^31. */
  lemma LengthReadIff(f: Frame, rest: seq<Byte>)
    requires Sendable(f)
    ensures ReadHeader(Head(f) + rest).dataLen == |f.payload| <==> |f.payload| < 0x8000_0000
  {
    LengthReadExact(|f.payload|);
    ReadsLength(f.first, |f.payload|, f.key.Some?, KeyBytes(f.key), rest);
  }

  const INT_MAX := 0x7FFF_FFFF

  /** A frame of 2^32 - 1 bytes, as soon as ten bytes of it are there: its length is
      read as -1, and nine bytes of its header are taken for the whole frame. */
  lemma LongFrameMisread(first: Byte, data: seq<Byte>, start: seq<Byte>)
    requires |data| == 0xFFFF_FFFF && 10 <= |start| <= INT_MAX && start <= Wire(Frame(first, None, data))
    ensures ReadHeader(start).dataLen == -1 && Buffered(start) && FrameLen(start) == 9
    ensures Delivered(start) == Delivery(first, LENGTHS - 1, [])
  {
    var head := Head(Frame(first, None, data));
    assert |head| == 10 && start[..10] == head && start == head + start[10..];
    assert head == [first] + LengthField(|data|, false) + [];
    ReadsLength(first, |data|, false, [], start[10..]);
    assert start[0] == head[0];
  }

  predicate Readable(f: Frame) {
    |f.payload| < LENGTHS && |Wire(f)| <= INT_MAX
  }

  function Announced(f: Frame): Delivery {
    Delivery(f.first, |f.payload|, f.payload)
  }

  lemma HeadReads(f: Frame, rest: seq<Byte>)
    requires Sendable(f) && |f.payload| < 0x8000_0000
    ensures ReadHeader(Head(f) + rest) == Header(|Head(f)|, MaskLen(f.key.Some?), |f.payload|)
  {
    LengthReadExact(|f.payload|);
    ReadsLength(f.first, |f.payload|, f.key.Some?, KeyBytes(f.key), rest);
  }

  // Where the key and the data are in head + data + rest.
  lemma Parts(start: seq<Byte>, key: seq<Byte>, data: seq<Byte>, rest: seq<Byte>)
    ensures var n := |start| + |key|;
      var b := start + key + data + rest;
      b[n - |key|..n] == key && b[n..n + |data|] == data
  {
  }

  /** A frame at the start of the buffer is delivered as it was sent. */
  lemma WholeFrame(f: Frame, rest: seq<Byte>)
    requires Readable(f)
    ensures Buffered(Wire(f) + rest) && FrameLen(Wire(f) + rest) == |Wire(f)|
    ensures Delivered(Wire(f) + rest) == Announced(f)
  {
    var data := Hidden(f.key, f.payload);
    assert Wire(f) + rest == Head(f) + (data + rest);
    HeadReads(f, data + rest);
    Parts([f.first] + LengthField(|f.payload|, f.key.Some?), KeyBytes(f.key), data, rest);
    FromParts(f, Wire(f) + rest);
  }

  lemma FromParts(f: Frame, b: seq<Byte>)
    requires Readable(f) && ReadHeader(b) == Header(|Head(f)|, MaskLen(f.key.Some?), |f.payload|)
    requires Wire(f) <= b && b[|Head(f)| - MaskLen(f.key.Some?)..|Head(f)|] == KeyBytes(f.key)
    requires b[|Head(f)|..|Wire(f)|] == Hidden(f.key, f.payload)
    ensures Buffered(b) && FrameLen(b) == |Wire(f)| && Delivered(b) == Announced(f)
  {
    HiddenShown(f.key, f.payload);
    assert Content(b, ReadHeader(b)) == f.payload;
  }

  lemma HiddenShown(key: Option<Key>, data: seq<Byte>)
    ensures key.Some? ==> Masked(key.value, Hidden(key, data)) == data
    ensures key.None? ==> Hidden(key, data) == data
  {
    if key.Some? {
      MaskedTwice(key.value, data);
    }
  }

  // A proper part of a frame, from its start.
  predicate Partial(t: seq<Byte>, f: Frame) {
    Readable(f) && |t| < |Wire(f)| && t == Wire(f)[..|t|]
  }

  lemma PartialWaits(t: seq<Byte>, f: Frame)
    requires Partial(t, f)
    ensures !Buffered(t)
  {
    if Buffered(t) {
      var rest := Wire(f)[|t|..];
      FrameStays(t, rest);
      assert t + rest == Wire(f) + [];
      WholeFrame(f, []);
    }
  }

  predicate AllReadable(fs: seq<Frame>) {
    forall i :: 0 <= i < |fs| ==> Readable(fs[i])
  }

  function WireAll(fs: seq<Frame>): (ws: seq<seq<Byte>>)
    requires AllReadable(fs)
    ensures |ws| == |fs|
  {
    seq(|fs|, i requires 0 <= i < |fs| => Wire(fs[i]))
  }

  function AnnouncedAll(fs: seq<Frame>): (ds: seq<Delivery>)
    ensures |ds| == |fs|
  {
    seq(|fs|, i requires 0 <= i < |fs| => Announced(fs[i]))
  }

  lemma FrameIsRead(f: Frame)
    requires Readable(f)
    ensures Reads(NextFrame, Wire(f), Announced(f))
  {
    forall rest ensures NextFrame(Wire(f) + rest) == Complete(Announced(f), |Wire(f)|) {
      WholeFrame(f, rest);
    }
  }

  lemma FramesAreRead(fs: seq<Frame>, t: seq<Byte>)
    requires AllReadable(fs) && (t == [] || exists f :: Partial(t, f))
    ensures forall i {:trigger WireAll(fs)[i]} :: 0 <= i < |fs| ==> Reads(NextFrame, WireAll(fs)[i], AnnouncedAll(fs)[i])
    ensures !Ready(NextFrame(t), |t|)
  {
    if t != [] {
      var f :| Partial(t, f);
      PartialWaits(t, f);
    }
    forall i {:trigger WireAll(fs)[i]} | 0 <= i < |fs| ensures Reads(NextFrame, WireAll(fs)[i], AnnouncedAll(fs)[i]) {
      FrameIsRead(fs[i]);
    }
  }

  /** Exactly the frames sent are delivered, in order; an incomplete frame at the
      end stays in the buffer untouched. */
  lemma FramesDelivered(fs: seq<Frame>, t: seq<Byte>)
    requires AllReadable(fs) && (t == [] || exists f :: Partial(t, f))
    ensures Drain(NextFrame, Joined(WireAll(fs)) + t) == (AnnouncedAll(fs), t)
  {
    FramesAreRead(fs, t);
    DrainPieces(NextFrame, WireAll(fs), AnnouncedAll(fs), t);
  }
}
