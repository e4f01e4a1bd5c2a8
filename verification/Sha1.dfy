/** SHA-1 as RFC 3174 defines it in sections 4 to 6.1. */
module Sha1 {
  import opened Words
  import opened BlockHash
  import Md5

  type Regs = r: seq<Word> | |r| == 5 witness seq(5, _ => Fill(32, false))

  type Round = t: nat | t < 80

  // S^n(X), the circular left shift of section 3.
  function Rol(w: Word, n: nat): Word
    requires n <= 32
  {
    Or(Shl(w, n), Shr(w, 32 - n))
  }

  // A word from four bytes, high-order byte first; bits count from the low end.
  function BigEndian(b: seq<Byte>, i: nat): Word
    requires i + 4 <= |b|
  {
    var low: Bits := b[i + 3];
    low + b[i + 2] + b[i + 1] + b[i]
  }

  // Section 5.
  function Choose(t: Round, b: Word, c: Word, d: Word): Word {
    if t < 20 then Or(And(b, c), And(Not(b), d))
    else if 40 <= t < 60 then Or(Or(And(b, c), And(b, d)), And(c, d))
    else Xor(Xor(b, c), d)
  }

  function K(t: Round): nat {
    if t < 20 then 0x5A827999 else if t < 40 then 0x6ED9EBA1 else if t < 60 then 0x8F1BBCDC else 0xCA62C1D6
  }

  // Section 6.1, steps a and b: the message schedule.
  function W(m: Block, t: Round): Word {
    if t < 16 then BigEndian(m, 4 * t)
    else Rol(Xor(Xor(Xor(W(m, t - 3), W(m, t - 8)), W(m, t - 14)), W(m, t - 16)), 1)
  }

  // Step d.
  function Step(t: Round, r: Regs, w: Word): Regs {
    var temp := Plus(Plus(Plus(Plus(Rol(r[0], 5), Choose(t, r[1], r[2], r[3])), r[4]), w), Num(K(t)));
    [temp, r[0], Rol(r[1], 30), r[2], r[3]]
  }

  // The registers before round n.
  function Exec(m: Block, n: nat, r: Regs): Regs
    requires n <= 80
  {
    if n == 0 then r else Step(n - 1, Exec(m, n - 1, r), W(m, n - 1))
  }

  function AddRegs(r: Regs, s: Regs): Regs {
    [Plus(r[0], s[0]), Plus(r[1], s[1]), Plus(r[2], s[2]), Plus(r[3], s[3]), Plus(r[4], s[4])]
  }

  // There are 80 rounds, 16 more than a block has bytes.
  function Compress(r: Regs, m: Block): Regs {
    AddRegs(r, Exec(m, |m| + 16, r))
  }

  const INITIAL: seq<nat> := [0x67452301, 0xEFCDAB89, 0x98BADCFE, 0x10325476, 0xC3D2E1F0]

  function InitialRegs(): Regs {
    seq(5, i requires 0 <= i < 5 => Num(INITIAL[i]))
  }

  lemma StartValues()
    ensures InitialRegs() == [Num(0x67452301), Num(0xEFCDAB89), Num(0x98BADCFE), Num(0x10325476), Num(0xC3D2E1F0)]
  {
  }

  /** The first four start values are those of MD5, low-order byte first 01 23 45 67 to
      76 54 32 10; the bytes of the last one are f0 e1 d2 c3. */
  lemma StartDigits(i: nat)
    requires i < 4
    ensures INITIAL[..4] == Md5.INITIAL
    ensures INITIAL[4] / [1, 0x100, 0x1_0000, 0x100_0000][i] % 0x100 == 0xf0 - 0x0f * i
  {
  }

  /** Section 5: the constants are the square roots of 2, 3, 5 and 10, times 2^30. */
  lemma ConstantsAreRoots(t: Round)
    ensures var c := if t < 20 then 2 else if t < 40 then 3 else if t < 60 then 5 else 10;
      K(t) * K(t) <= c * 0x1000_0000_0000_0000 < (K(t) + 1) * (K(t) + 1)
  {
  }

  function BytesOf(w: Word): (b: seq<Byte>)
    ensures |b| == 4
  {
    [w[24..], w[16..24], w[8..16], w[..8]]
  }

  // Section 4: the length in bits as two words, the high-order word first.
  function LengthBytes(n: nat): (b: seq<Byte>)
    ensures |b| == 8
  {
    BytesOf(Num(BitsHigh(n))) + BytesOf(Num(BitsLow(n)))
  }

  function Pad(m: seq<Byte>): (p: seq<Byte>)
    ensures |p| % 64 == 0
  {
    Padded(m, LengthBytes(|m|))
  }

  function DigestOf(r: Regs): (d: seq<Byte>)
    ensures |d| == 20
  {
    BytesOf(r[0]) + BytesOf(r[1]) + BytesOf(r[2]) + BytesOf(r[3]) + BytesOf(r[4])
  }

  function Digest(m: seq<Byte>): seq<Byte> {
    DigestOf(Fold(Compress, InitialRegs(), Pad(m)))
  }
}

/** SHA1Init, SHA1Transform, SHA1Update and SHA1Final of webserver/src/mongoose.c
    on a little-endian machine. */
module MongooseSha1 {
  import opened Words
  import opened BlockHash
  import opened Sequences
  import opened Sha1

  type Words16 = x: seq<Word> | |x| == 16 witness seq(16, _ => Fill(32, false))

  // Word i of the block as the machine reads it.
  function Raw(b: Block, i: nat): Word
    requires i < 16
  {
    var low: Bits := b[4 * i];
    low + b[4 * i + 1] + b[4 * i + 2] + b[4 * i + 3]
  }

  const EVEN_BYTES := 0x00FF00FF
  const ODD_BYTES := 0xFF00FF00

  // The macros blk0 and blk: word i of the schedule replaces word i - 16.
  function Blk(x: Words16, i: Round): Words16 {
    if i < 16 then
      x[i := Or(And(Rol(x[i], 24), Num(ODD_BYTES)), And(Rol(x[i], 8), Num(EVEN_BYTES)))]
    else
      x[i % 16 := Rol(Xor(Xor(Xor(x[(i + 13) % 16], x[(i + 8) % 16]), x[(i + 2) % 16]), x[i % 16]), 1)]
  }

  // The expressions in R0 to R4.
  function CChoose(i: Round, w: Word, x: Word, y: Word): Word {
    if i < 20 then Xor(And(w, Xor(x, y)), y)
    else if 40 <= i < 60 then Or(And(Or(w, x), y), And(w, x))
    else Xor(Xor(w, x), y)
  }

  // The constants in R0 to R4.
  function CK(i: Round): nat {
    if i < 20 then 0x5A827999 else if i < 40 then 0x6ED9EBA1 else if i < 60 then 0x8F1BBCDC else 0xCA62C1D6
  }

  // Position of the k-th argument of the i-th macro call among a, b, c, d, e.
  function Arg(i: nat, k: nat): nat
    requires k < 5
  {
    var turn := i % 5;
    if k < turn then k + 5 - turn else k - turn
  }

  // The i-th macro call: z += ...; w = rol(w, 30).
  function CStep(i: Round, r: Regs, blk: Word): Regs {
    var v, w, x, y, z := r[Arg(i, 0)], r[Arg(i, 1)], r[Arg(i, 2)], r[Arg(i, 3)], r[Arg(i, 4)];
    r[Arg(i, 4) := Plus(z, Plus(Plus(Plus(CChoose(i, w, x, y), blk), Num(CK(i))), Rol(v, 5)))][Arg(i, 1) := Rol(w, 30)]
  }

  // The registers in the order in which the i-th call takes them.
  function Turned(i: nat, r: Regs): Regs {
    [r[Arg(i, 0)], r[Arg(i, 1)], r[Arg(i, 2)], r[Arg(i, 3)], r[Arg(i, 4)]]
  }

  lemma CChooseIsRfc(i: Round, w: Word, x: Word, y: Word)
    ensures CChoose(i, w, x, y) == Choose(i, w, x, y)
  {
    Choice(w, x, y);
    Majority(w, x, y);
  }

  lemma SumOrder(v: Word, f: Word, e: Word, w: Word, k: Word)
    ensures Plus(e, Plus(Plus(Plus(f, w), k), v)) == Plus(Plus(Plus(Plus(v, f), e), w), k)
  {
    var fw := Plus(f, w);
    PlusCommutes(Plus(fw, k), v);
    PlusAssociates(v, fw, k);
    PlusAssociates(v, f, w);
    var vf := Plus(v, f);
    PlusAssociates(e, Plus(vf, w), k);
    PlusAssociates(e, vf, w);
    PlusCommutes(e, vf);
  }

  lemma ArgsTurn(i: nat)
    ensures Arg(i + 1, 0) == Arg(i, 4) && Arg(i + 1, 1) == Arg(i, 0) && Arg(i + 1, 2) == Arg(i, 1)
    ensures Arg(i + 1, 3) == Arg(i, 2) && Arg(i + 1, 4) == Arg(i, 3)
    ensures forall j, k :: 0 <= j < k < 5 ==> Arg(i, j) != Arg(i, k)
  {
    NextTurn(i);
  }

  lemma NextTurn(i: nat)
    ensures (i + 1) % 5 == if i % 5 == 4 then 0 else i % 5 + 1
  {
  }

  // Replacing two of five registers, seen in the order of the next call.
  lemma TurnedUpdate(i: nat, r: Regs, temp: Word, w: Word)
    ensures Turned(i + 1, r[Arg(i, 4) := temp][Arg(i, 1) := w])
      == var t := Turned(i, r); [temp, t[0], w, t[2], t[3]]
  {
    ArgsTurn(i);
  }

  lemma TurnedStep(i: Round, r: Regs, blk: Word)
    ensures Turned(i + 1, CStep(i, r, blk)) == Step(i, Turned(i, r), blk)
  {
    var t := Turned(i, r);
    CChooseIsRfc(i, t[1], t[2], t[3]);
    var f, v, k := Choose(i, t[1], t[2], t[3]), Rol(t[0], 5), Num(K(i));
    SumOrder(v, f, t[4], blk, k);
    TurnedUpdate(i, r, Plus(t[4], Plus(Plus(Plus(f, blk), k), v)), Rol(t[1], 30));
  }

  // ----- the circular message schedule -----

  const NO_BITS: Byte := Fill(8, false)
  const ALL_BITS: Byte := Fill(8, true)

  lemma ByteMasks()
    ensures var z: Bits, o: Bits := NO_BITS, ALL_BITS;
      Num(EVEN_BYTES) == o + z + o + z && Num(ODD_BYTES) == z + o + z + o
  {
    assert Val(NO_BITS) == 0 && Val(ALL_BITS) == 255 by {
      Powers();
      ValFill(8);
    }
    NumOfBytes(ALL_BITS, NO_BITS, ALL_BITS, NO_BITS, EVEN_BYTES);
    NumOfBytes(NO_BITS, ALL_BITS, NO_BITS, ALL_BITS, ODD_BYTES);
  }

  function Reversed(l: Word): Word {
    l[24..] + l[16..24] + l[8..16] + l[..8]
  }

  /** The rotations and masks of blk0 reverse the bytes of a word. */
  lemma Swapped(l: Word)
    ensures Or(And(Rol(l, 24), Num(ODD_BYTES)), And(Rol(l, 8), Num(EVEN_BYTES))) == Reversed(l)
  {
    ByteMasks();
    assert Rol(l, 24) == l[8..] + l[..8];
    assert Rol(l, 8) == l[24..] + l[..24];
  }

  // The 80 words of the schedule follow from the 16 words read.
  ghost predicate IsSchedule(raw: Words16, w: seq<Word>) {
    && |w| == 80
    && (forall t :: 0 <= t < 16 ==> w[t] == Reversed(raw[t]))
    && (forall t :: 16 <= t < 80 ==> w[t] == Expanded(w, t))
  }

  function Expanded(w: seq<Word>, t: nat): Word
    requires 16 <= t < |w|
  {
    Rol(Xor(Xor(Xor(w[t - 3], w[t - 8]), w[t - 14]), w[t - 16]), 1)
  }

  // What word j of the block holds before round i: w[t] for the last t < i with
  // t = j modulo 16, or the word as read when there is none.
  function Latest(i: nat, j: nat): (t: nat)
    requires j < i && j < 16
    ensures t < i <= t + 16 && t % 16 == j
  {
    i - 1 - (i - 1 - j) % 16
  }

  ghost predicate Circular(raw: Words16, w: seq<Word>, i: nat, x: Words16)
    requires |w| == 80 && i <= 80
  {
    forall j :: 0 <= j < 16 ==> x[j] == if i <= j then raw[j] else w[Latest(i, j)]
  }

  lemma SlotOf(raw: Words16, w: seq<Word>, i: Round, x: Words16, d: nat)
    requires |w| == 80 && Circular(raw, w, i, x) && i >= 16 && 0 < d <= 16
    ensures x[(i + 16 - d) % 16] == w[i - d]
  {
    assert Latest(i, (i + 16 - d) % 16) == i - d;
  }

  lemma BlkEarly(raw: Words16, w: seq<Word>, i: Round, x: Words16)
    requires IsSchedule(raw, w) && Circular(raw, w, i, x) && i < 16
    ensures Blk(x, i) == x[i % 16 := w[i]]
  {
    assert x[i] == raw[i];
    Swapped(raw[i]);
  }

  lemma BlkLate(raw: Words16, w: seq<Word>, i: Round, x: Words16)
    requires |w| == 80 && Circular(raw, w, i, x) && i >= 16 && w[i] == Expanded(w, i)
    ensures Blk(x, i) == x[i % 16 := w[i]]
  {
    SlotOf(raw, w, i, x, 3);
    SlotOf(raw, w, i, x, 8);
    SlotOf(raw, w, i, x, 14);
    SlotOf(raw, w, i, x, 16);
  }

  lemma BlkKeeps(raw: Words16, w: seq<Word>, i: Round, x: Words16, x': Words16)
    requires |w| == 80 && Circular(raw, w, i, x) && x' == x[i % 16 := w[i]]
    ensures Circular(raw, w, i + 1, x')
  {
    forall j | 0 <= j < 16 ensures x'[j] == if i + 1 <= j then raw[j] else w[Latest(i + 1, j)] {
      if j == i % 16 {
        assert Latest(i + 1, j) == i;
      } else if j < i {
        LatestSame(i, j);
      }
    }
  }

  lemma LatestSame(i: nat, j: nat)
    requires j < i && j < 16 && j != i % 16
    ensures Latest(i + 1, j) == Latest(i, j)
  {
  }

  function RawWords(b: Block): Words16 {
    seq(16, i requires 0 <= i < 16 => Raw(b, i))
  }

  function Schedule(b: Block): seq<Word> {
    seq(80, t requires 0 <= t < 80 => W(b, t))
  }

  lemma ScheduleExpands(b: Block)
    ensures IsSchedule(RawWords(b), Schedule(b))
  {
    var w := Schedule(b);
    forall t | 16 <= t < 80 ensures w[t] == Expanded(w, t) {
      assert w[t] == W(b, t);
    }
    forall t | 0 <= t < 16 ensures w[t] == Reversed(Raw(b, t)) {
      assert w[t] == W(b, t) == BigEndian(b, 4 * t);
    }
  }

  // ----- SHA1Transform -----

  ghost predicate InRound(b: Block, start: Regs, i: nat, x: Words16, r: Regs)
    requires i <= 80
  {
    Circular(RawWords(b), Schedule(b), i, x) && Turned(i, r) == Exec(b, i, start)
  }

  method RunRounds(start: Regs, b: Block) returns (r: Regs)
    ensures TransformResult(start, b, r)
  {
    var x := RawWords(b);
    r := start;
    EntersFirst(b, start);
    for i := 0 to |b| + 16
      invariant InRound(b, start, i, x, r)
    {
      x, r := RunRound(i, x, r, b, start);
    }
    LeavesLast(b, start, |b| + 16, r);
  }

  lemma EntersFirst(b: Block, start: Regs)
    ensures InRound(b, start, 0, RawWords(b), start)
  {
  }

  lemma LeavesLast(b: Block, start: Regs, n: nat, r: Regs)
    requires n == |b| + 16
    ensures Turned(n, r) == Exec(b, n, start) ==> TransformResult(start, b, r)
  {
    if Turned(n, r) == Exec(b, n, start) {
      TurnedBack(n, r, Exec(b, n, start));
    }
  }

  method RunRound(i: Round, x: Words16, r: Regs, ghost b: Block, ghost start: Regs) returns (x': Words16, r': Regs)
    requires InRound(b, start, i, x, r)
    ensures InRound(b, start, i + 1, x', r')
  {
    ghost var raw, w := RawWords(b), Schedule(b);
    ScheduleExpands(b);
    if i < 16 {
      BlkEarly(raw, w, i, x);
    } else {
      BlkLate(raw, w, i, x);
    }
    x' := Blk(x, i);
    BlkKeeps(raw, w, i, x, x');
    TurnedStep(i, r, x'[i % 16]);
    r' := CStep(i, r, x'[i % 16]);
    ExecNext(b, i, start);
  }

  lemma ExecNext(b: Block, i: Round, start: Regs)
    ensures Exec(b, i + 1, start) == Step(i, Exec(b, i, start), Schedule(b)[i])
  {
  }

  lemma TurnedBack(n: nat, r: Regs, e: Regs)
    requires n % 5 == 0 && Turned(n, r) == e
    ensures r == e
  {
  }

  ghost predicate TransformResult(start: Regs, b: Block, r: Regs) {
    r == Exec(b, |b| + 16, start)
  }

  lemma CompressResult(step: (Regs, Block) -> Regs, start: Regs, b: Block, r: Regs)
    requires Agree(step, Compress)
    ensures TransformResult(start, b, r) ==> AddRegs(start, r) == step(start, b)
  {
    var compress := Compress;
    assert compress(start, b) == step(start, b);
  }

  class Sha1Context {
    const state: array<Word>
    const buffer: array<Byte>
    var count0: nat
    var count1: nat
    ghost const step: (Regs, Block) -> Regs
    // All bytes given to SHA1Update so far.
    ghost var message: seq<Byte>

    ghost predicate Shape() {
      state.Length == 5 && buffer.Length == 64 && Agree(step, Compress)
    }

    // The state after whole blocks.
    ghost function After(m: seq<Byte>): Regs {
      Fold(step, InitialRegs(), m)
    }

    ghost predicate Valid()
      reads this, state, buffer
    {
      Counted() && Holds(message)
    }

    // The counters have the length of the message in bits.
    ghost predicate Counted()
      reads this
    {
      count0 == BitsLow(|message|) && count1 == BitsHigh(|message|)
    }

    // The registers are those after the whole blocks of m, the buffer has the rest.
    ghost predicate Holds(m: seq<Byte>)
      reads state, buffer
    {
      Shape() && state[..] == After(Whole(m)) && buffer[..|Left(m)|] == Left(m)
    }

    // SHA1Init
    constructor ()
      ensures Valid() && message == [] && fresh(state) && fresh(buffer)
    {
      StartValues();
      state := new Word[5] [Num(0x67452301), Num(0xEFCDAB89), Num(0x98BADCFE), Num(0x10325476), Num(0xC3D2E1F0)];
      buffer := new Byte[64](_ => Fill(8, false));
      count0, count1 := 0, 0;
      step := Compress;
      message := [];
    }

    method SHA1Transform(b: Block)
      requires Shape()
      modifies state
      ensures state[..] == step(old(state[..]), b)
    {
      ghost var start: Regs := state[..];
      var r := RunRounds(state[..], b);
      AddTo(r);
      CompressResult(step, start, b, r);
    }

    method AddTo(r: Regs)
      requires Shape()
      modifies state
      ensures state[..] == AddRegs(old(state[..]), r)
    {
      state[0] := Plus(state[0], r[0]);
      state[1] := Plus(state[1], r[1]);
      state[2] := Plus(state[2], r[2]);
      state[3] := Plus(state[3], r[3]);
      state[4] := Plus(state[4], r[4]);
    }

    // memcpy into the block in progress.
    method Copy(at: nat, data: seq<Byte>)
      requires Shape() && at + |data| <= 64
      modifies buffer
      ensures buffer[..] == old(buffer[..at]) + data + old(buffer[at + |data|..])
    {
      forall i | 0 <= i < |data| {
        buffer[at + i] := data[i];
      }
    }

    // The counters for the length in bits; returns the old low word.
    method AddLength(len: nat, ghost n: nat) returns (j: nat)
      requires count0 == BitsLow(n) && count1 == BitsHigh(n) && len < WORD
      modifies this`count0, this`count1
      ensures j == old(count0) && count0 == BitsLow(n + len) && count1 == BitsHigh(n + len)
    {
      j := count0;
      count0, count1 := CountLength(len, count0, count1, n);
    }

    // Counts new bytes; returns their place in the block.
    method Count(data: seq<Byte>) returns (j: nat)
      requires Counted() && |data| < WORD
      modifies this`count0, this`count1, this`message
      ensures j == |Left(old(message))| && message == old(message) + data && Counted()
    {
      PositionOf(message);
      j := AddLength(|data|, |message|);
      j := j / 8 % 64;
      message := message + data;
    }

    /** Any number of bytes, in any pieces for which j + len does not wrap around. */
    method SHA1Update(data: seq<Byte>)
      requires Valid() && |message| % 64 + |data| < WORD
      modifies this, state, buffer
      ensures Valid() && message == old(message) + data
    {
      ghost var m := message;
      var j := Count(data);
      Absorb(data, j, m);
    }

    // The data after m go to the buffer, whole blocks into the hash.
    method Absorb(data: seq<Byte>, j: nat, ghost m: seq<Byte>)
      requires Holds(m) && j == |Left(m)| && |m| % 64 + |data| < WORD
      modifies state, buffer
      ensures Holds(m + data)
    {
      LeftLength(m);
      if (j + |data|) % WORD > 63 {
        UpdateBlocks(data, j, m);
      } else {
        Copy(j, data);
        AppendShort(m, data);
      }
    }

    // The input completes at least one block.
    method UpdateBlocks(data: seq<Byte>, j: nat, ghost m: seq<Byte>)
      requires Holds(m) && j == |Left(m)| && |data| >= 64 - j && |m| % 64 + |data| < WORD
      modifies state, buffer
      ensures Holds(m + data)
    {
      CompleteBlock(data[..64 - j], m, m + data);
      var i, k := TakeBlocks(data, 64 - j, m, |m| / 64 + 1);
      KeepRest(data[i..], m + data, k);
    }

    // The bytes after the last whole block wait for the next call.
    method KeepRest(rest: seq<Byte>, ghost all: seq<Byte>, ghost k: nat)
      requires Shape() && |rest| < 64 && |all| == 64 * k + |rest| && rest == all[64 * k..]
      requires state[..] == After(all[..64 * k])
      modifies buffer
      ensures Holds(all)
    {
      Copy(0, rest);
      WholeLengthIs(all, k);
    }

    // Fills up the block in progress and processes it.
    method CompleteBlock(data: seq<Byte>, ghost m: seq<Byte>, ghost all: seq<Byte>)
      requires Holds(m) && |Left(m)| + |data| == 64 && m + data <= all
      modifies state, buffer
      ensures state[..] == After(all[..|m| + |data|])
    {
      ghost var n := WholeLength(m);
      BlockAcross(m, data, all);
      Copy(64 - |data|, data);
      assert buffer[..] == Left(m) + data;
      SHA1Transform(buffer[..]);
      NextBlock(step, InitialRegs(), all, n);
    }

    // Whole blocks straight from the input.
    method TakeBlocks(data: seq<Byte>, start: nat, ghost m: seq<Byte>, ghost done: nat) returns (i: nat, ghost k: nat)
      requires Shape() && start <= |data|
      requires |m| + start == 64 * done && state[..] == After((m + data)[..64 * done])
      requires |m| % 64 + |data| < WORD
      modifies state
      ensures start <= i <= |data| && |data| - i < 64
      ensures |m| + i == 64 * k && state[..] == After((m + data)[..64 * k])
    {
      i, k := start, done;
      PlaceFits(|m|, |data|, i, k);
      while (i + 63) % WORD < |data|
        invariant start <= i <= |data| && |m| + i == 64 * k && (i + 63) % WORD == i + 63
        invariant state[..] == After((m + data)[..64 * k])
      {
        BlockWithin(m, data, i, k);
        TakeBlock(data[i..i + 64], m + data, k);
        i, k := i + 64, k + 1;
        PlaceFits(|m|, |data|, i, k);
      }
    }

    method TakeBlock(b: Block, ghost all: seq<Byte>, ghost k: nat)
      requires Shape() && 64 * k + 64 <= |all| && b == all[64 * k..64 * k + 64]
      requires state[..] == After(all[..64 * k])
      modifies state
      ensures state[..] == After(all[..64 * k + 64])
    {
      SHA1Transform(b);
      NextBlock(step, InitialRegs(), all, 64 * k);
    }

    /** Padding byte by byte, then the length; the loop ends. */
    method SHA1Final() returns (digest: seq<Byte>)
      requires Valid()
      modifies this, state, buffer
      ensures digest == DigestOf(After(Pad(old(message))))
    {
      PadMessage();
      WholeOfBlocks(message);
      var r := state[..];
      digest := seq(20, i requires 0 <= i < 20 => ShiftedByte(r[i / 4], i));
      ShiftedDigest(r);
    }

    method PadMessage()
      requires Valid()
      modifies this, state, buffer
      ensures Valid() && message == Pad(old(message))
    {
      ghost var m := message;
      var high, low := Num(count1), Num(count0);
      var finalcount := seq(8, i requires 0 <= i < 8 => ShiftedByte(if i >= 4 then low else high, i));
      ShiftedCount(high, low);
      CountsAreLength(m, finalcount);
      OneBitIs();
      SHA1Update([ToBits(8, 0x80)]);
      PadWithZeros(m);
      SHA1Update(finalcount);
    }

    lemma CountsAreLength(m: seq<Byte>, finalcount: seq<Byte>)
      requires finalcount == BytesOf(Num(BitsHigh(|m|))) + BytesOf(Num(BitsLow(|m|)))
      ensures |finalcount| == 8 && PadPrefix(m) + finalcount == Pad(m)
    {
    }

    method PadWithZeros(ghost m: seq<Byte>)
      requires Valid() && message == m + [ONE_BIT]
      modifies this, state, buffer
      ensures Valid() && message == PadPrefix(m)
    {
      ghost var n := 0;
      ZerosNeeded(m, 0);
      assert message == WithZeros(m, 0);
      ByteCount(|message|);
      while count0 / 8 % 64 * 8 != 448
        invariant Valid() && n <= ZeroCount(|m|) && message == WithZeros(m, n)
        decreases ZeroCount(|m|) - n
      {
        ByteCount(|message|);
        PadByte(m, n);
        n := n + 1;
      }
      ByteCount(|message|);
      ZerosNeeded(m, n);
    }

    method PadByte(ghost m: seq<Byte>, ghost n: nat)
      requires Valid() && n <= ZeroCount(|m|) && message == WithZeros(m, n)
      requires |message| % 64 != 56
      modifies this, state, buffer
      ensures Valid() && n < ZeroCount(|m|) && message == WithZeros(m, n + 1)
    {
      ZerosNeeded(m, n);
      SHA1Update([Fill(8, false)]);
    }
  }

  // Nor does i + 63 wrap around in the loop over the blocks.
  lemma PlaceFits(n: nat, len: nat, i: nat, k: nat)
    requires n + i == 64 * k && i <= len && n % 64 + len < WORD
    ensures (i + 63) % WORD == i + 63
  {
    assert (n % 64 + i) % 64 == 0;
  }

  /** A sum that wraps around selects the copy into the block in progress for input
      that does not fit there; no other length does. */
  lemma LengthWraps(j: nat, len: nat)
    requires j < 64 && len < WORD
    ensures (j + len) % WORD <= 63 && j + len > 64 <==> j + len >= WORD
  {
  }

  // (w >> ((3 - (i & 3)) * 8)) & 255
  function ShiftedByte(w: Word, i: nat): Byte {
    w[(3 - i % 4) * 8..(3 - i % 4) * 8 + 8]
  }

  lemma ShiftedCount(high: Word, low: Word)
    ensures seq(8, i requires 0 <= i < 8 => ShiftedByte(if i >= 4 then low else high, i)) == BytesOf(high) + BytesOf(low)
  {
    forall i | 0 <= i < 8 ensures ShiftedByte(if i >= 4 then low else high, i) == (BytesOf(high) + BytesOf(low))[i] {
      ShiftedIs(if i >= 4 then low else high, i);
    }
  }

  lemma ShiftedIs(w: Word, i: nat)
    ensures ShiftedByte(w, i) == BytesOf(w)[i % 4]
  {
  }

  lemma DigestByte(r: Regs, q: nat, k: nat)
    requires q < 5 && k < 4
    ensures DigestOf(r)[4 * q + k] == BytesOf(r[q])[k]
  {
    match q
    case 0 =>
    case 1 =>
    case 2 =>
    case 3 =>
    case _ =>
  }

  lemma ShiftedDigest(r: Regs)
    ensures seq(20, i requires 0 <= i < 20 => ShiftedByte(r[i / 4], i)) == DigestOf(r)
  {
    forall i | 0 <= i < 20 ensures ShiftedByte(r[i / 4], i) == DigestOf(r)[i] {
      ShiftedIs(r[i / 4], i);
      DigestByte(r, i / 4, i % 4);
      assert i == 4 * (i / 4) + i % 4;
    }
  }

  function WithZeros(m: seq<Byte>, n: nat): (p: seq<Byte>)
    ensures |p| == |m| + 1 + n
  {
    m + [ONE_BIT] + Zeros(n)
  }

  // Exactly ZeroCount zero bytes lead to the place of the length.
  lemma ZerosNeeded(m: seq<Byte>, n: nat)
    requires n <= ZeroCount(|m|)
    ensures |WithZeros(m, n)| % 64 == 56 <==> n == ZeroCount(|m|)
    ensures WithZeros(m, ZeroCount(|m|)) == PadPrefix(m)
    ensures WithZeros(m, n) + [Fill(8, false)] == WithZeros(m, n + 1)
  {
    assert Zeros(n) + [Fill(8, false)] == Zeros(n + 1);
  }

  /** Two ways of cutting one message into updates: the contexts agree in every
      field that later calls read. */
  lemma SplitIndependent(c: Sha1Context, d: Sha1Context)
    requires c.Valid() && d.Valid() && c.message == d.message
    ensures c.count0 == d.count0 && c.count1 == d.count1 && c.state[..] == d.state[..]
    ensures c.buffer[..|Left(c.message)|] == d.buffer[..|Left(c.message)|]
  {
    SameFold(c.step, Compress, InitialRegs(), Whole(c.message));
    SameFold(d.step, Compress, InitialRegs(), Whole(d.message));
  }

  /** Hashing in pieces: the digest RFC 3174 defines for their concatenation. */
  method HashPieces(chunks: seq<seq<Byte>>) returns (digest: seq<Byte>)
    requires forall i :: 0 <= i < |chunks| ==> |Concat(chunks[..i])| % 64 + |chunks[i]| < WORD
    ensures digest == Digest(Concat(chunks))
  {
    var ctx := new Sha1Context();
    for i := 0 to |chunks|
      invariant ctx.Valid() && fresh(ctx) && fresh(ctx.state) && fresh(ctx.buffer)
      invariant ctx.message == Concat(chunks[..i])
    {
      assert chunks[..i + 1][..i] == chunks[..i];
      ctx.SHA1Update(chunks[i]);
    }
    assert chunks[..|chunks|] == chunks;
    SameFold(ctx.step, Compress, InitialRegs(), Pad(ctx.message));
    digest := ctx.SHA1Final();
  }
}
