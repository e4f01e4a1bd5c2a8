/** MD5 as RFC 1321 defines it in sections 3.1 to 3.5, and the C implementation of
    webserver/src/mongoose.c that takes its input in pieces. */
module Md5 {
  import opened Words
  import opened BlockHash

  // ----- RFC 1321 -----

  // The auxiliary functions of section 3.4.
  datatype Fn = F | G | H | I

  function Aux(f: Fn, x: Word, y: Word, z: Word): Word {
    match f
    case F => Or(And(x, y), And(Not(x), z))
    case G => Or(And(x, z), And(y, Not(z)))
    case H => Xor(Xor(x, y), z)
    case I => Xor(y, Or(x, Not(z)))
  }

  type Reg = i: nat | i < 4

  type Shift = s: nat | s <= 32

  type Index = k: nat | k < 16

  /** One operation [abcd k s i]: w becomes x + ((w + f(x, y, z) + X[k] + t) <<< s). */
  datatype Op = Op(f: Fn, w: Reg, x: Reg, y: Reg, z: Reg, k: Index, t: nat, s: Shift)

  function T1(j: Index): nat {
    match j
    case 0 => 0xd76aa478
    case 1 => 0xe8c7b756
    case 2 => 0x242070db
    case 3 => 0xc1bdceee
    case 4 => 0xf57c0faf
    case 5 => 0x4787c62a
    case 6 => 0xa8304613
    case 7 => 0xfd469501
    case 8 => 0x698098d8
    case 9 => 0x8b44f7af
    case 10 => 0xffff5bb1
    case 11 => 0x895cd7be
    case 12 => 0x6b901122
    case 13 => 0xfd987193
    case 14 => 0xa679438e
    case _ => 0x49b40821
  }

  function T2(j: Index): nat {
    match j
    case 0 => 0xf61e2562
    case 1 => 0xc040b340
    case 2 => 0x265e5a51
    case 3 => 0xe9b6c7aa
    case 4 => 0xd62f105d
    case 5 => 0x02441453
    case 6 => 0xd8a1e681
    case 7 => 0xe7d3fbc8
    case 8 => 0x21e1cde6
    case 9 => 0xc33707d6
    case 10 => 0xf4d50d87
    case 11 => 0x455a14ed
    case 12 => 0xa9e3e905
    case 13 => 0xfcefa3f8
    case 14 => 0x676f02d9
    case _ => 0x8d2a4c8a
  }

  function T3(j: Index): nat {
    match j
    case 0 => 0xfffa3942
    case 1 => 0x8771f681
    case 2 => 0x6d9d6122
    case 3 => 0xfde5380c
    case 4 => 0xa4beea44
    case 5 => 0x4bdecfa9
    case 6 => 0xf6bb4b60
    case 7 => 0xbebfbc70
    case 8 => 0x289b7ec6
    case 9 => 0xeaa127fa
    case 10 => 0xd4ef3085
    case 11 => 0x04881d05
    case 12 => 0xd9d4d039
    case 13 => 0xe6db99e5
    case 14 => 0x1fa27cf8
    case _ => 0xc4ac5665
  }

  function T4(j: Index): nat {
    match j
    case 0 => 0xf4292244
    case 1 => 0x432aff97
    case 2 => 0xab9423a7
    case 3 => 0xfc93a039
    case 4 => 0x655b59c3
    case 5 => 0x8f0ccc92
    case 6 => 0xffeff47d
    case 7 => 0x85845dd1
    case 8 => 0x6fa87e4f
    case 9 => 0xfe2ce6e0
    case 10 => 0xa3014314
    case 11 => 0x4e0811a1
    case 12 => 0xf7537e82
    case 13 => 0xbd3af235
    case 14 => 0x2ad7d2bb
    case _ => 0xeb86d391
  }

  // The four shifts of a round take turns.
  function InTurn(r: nat, a: Shift, b: Shift, c: Shift, d: Shift): Shift {
    match r
    case 0 => a
    case 1 => b
    case 2 => c
    case _ => d
  }

  // Operation j of the round with function f: the registers rotate.
  function RfcOp(f: Fn, j: Index): Op {
    var r := j % 4;
    var (k, t, s) :=
      match f
      case F => (j, T1(j), InTurn(r, 7, 12, 17, 22))
      case G => ((5 * j + 1) % 16, T2(j), InTurn(r, 5, 9, 14, 20))
      case H => ((3 * j + 5) % 16, T3(j), InTurn(r, 4, 11, 16, 23))
      case I => (7 * j % 16, T4(j), InTurn(r, 6, 10, 15, 21));
    Op(f, (4 - r) % 4, (5 - r) % 4, (6 - r) % 4, (7 - r) % 4, k, t, s)
  }

  // The round operation i of the 64 belongs to.
  function RoundOf(i: nat): Fn {
    if i < 16 then F else if i < 32 then G else if i < 48 then H else I
  }

  type Regs = r: seq<Word> | |r| == 4 witness seq(4, _ => Fill(32, false))

  type Words16 = x: seq<Word> | |x| == 16 witness seq(16, _ => Fill(32, false))

  function Rol(w: Word, s: Shift): Word {
    Or(Shl(w, s), Shr(w, 32 - s))
  }

  function Step(op: Op, r: Regs, x: Words16): Regs {
    var sum := Plus(Plus(Plus(r[op.w], Aux(op.f, r[op.x], r[op.y], r[op.z])), x[op.k]), Num(op.t));
    r[op.w := Plus(r[op.x], Rol(sum, op.s))]
  }

  function RfcProgram(): (p: seq<Op>)
    ensures |p| == 64
  {
    seq(64, i requires 0 <= i < 64 => RfcOp(RoundOf(i), i % 16))
  }

  lemma RfcProgramAt(j: Index)
    ensures RfcProgram()[j] == RfcOp(F, j) && RfcProgram()[16 + j] == RfcOp(G, j)
    ensures RfcProgram()[32 + j] == RfcOp(H, j) && RfcProgram()[48 + j] == RfcOp(I, j)
  {
    assert (16 + j) % 16 == j && (32 + j) % 16 == j && (48 + j) % 16 == j;
  }

  lemma FourRounds(p: seq<Op>, a: seq<Op>, b: seq<Op>, c: seq<Op>, d: seq<Op>)
    requires |a| == |b| == |c| == |d| == 16 && |p| == 64
    requires forall j :: 0 <= j < 16 ==> a[j] == p[j] && b[j] == p[16 + j] && c[j] == p[32 + j] && d[j] == p[48 + j]
    ensures a + b + c + d == p
  {
    var q := a + b + c + d;
    forall i | 0 <= i < 64 ensures q[i] == p[i] {
      var j: Index := i % 16;
      assert q[i] == if i < 16 then a[j] else if i < 32 then b[j] else if i < 48 then c[j] else d[j];
    }
  }

  // The registers after the first n operations of a program.
  function Exec(p: seq<Op>, n: nat, r: Regs, x: Words16): Regs
    requires n <= |p|
  {
    if n == 0 then r else Step(p[n - 1], Exec(p, n - 1, r, x), x)
  }

  function AddRegs(r: Regs, s: Regs): Regs {
    [Plus(r[0], s[0]), Plus(r[1], s[1]), Plus(r[2], s[2]), Plus(r[3], s[3])]
  }

  function Join(b0: Byte, b1: Byte, b2: Byte, b3: Byte): Word {
    var low: Bits := b0;
    low + b1 + b2 + b3
  }

  // A word from four bytes, low-order byte first.
  function WordAt(b: seq<Byte>, i: nat): Word
    requires i + 4 <= |b|
  {
    Join(b[i], b[i + 1], b[i + 2], b[i + 3])
  }

  function WordsOf(b: Block): Words16 {
    seq(16, j requires 0 <= j < 16 => WordAt(b, 4 * j))
  }

  function Compress(r: Regs, b: Block): Regs {
    var x := WordsOf(b);
    AddRegs(r, Exec(RfcProgram(), 4 * |x|, r, x))
  }

  const INITIAL: seq<nat> := [0x67452301, 0xefcdab89, 0x98badcfe, 0x10325476]

  function InitialRegs(): Regs {
    seq(4, i requires 0 <= i < 4 => Num(INITIAL[i]))
  }

  lemma StartValues()
    ensures InitialRegs() == [Num(0x67452301), Num(0xefcdab89), Num(0x98badcfe), Num(0x10325476)]
  {
  }

  function BytesOf(w: Word): (b: seq<Byte>)
    ensures |b| == 4
  {
    [w[..8], w[8..16], w[16..24], w[24..]]
  }

  // Section 3.2: the low-order word of the length comes first.
  function LengthBytes(n: nat): (b: seq<Byte>)
    ensures |b| == 8
  {
    BytesOf(Num(BitsLow(n))) + BytesOf(Num(BitsHigh(n)))
  }

  function Pad(m: seq<Byte>): (p: seq<Byte>)
    ensures |p| % 64 == 0
  {
    Padded(m, LengthBytes(|m|))
  }

  // Section 3.5: A, B, C, D, each low-order byte first.
  function Digest(m: seq<Byte>): (d: seq<Byte>)
    ensures |d| == 16
  {
    DigestOf(Fold(Compress, InitialRegs(), Pad(m)))
  }

  function DigestOf(r: Regs): (d: seq<Byte>)
    ensures |d| == 16
  {
    BytesOf(r[0]) + BytesOf(r[1]) + BytesOf(r[2]) + BytesOf(r[3])
  }

  // The bytes 01 23 45 67 89 ab cd ef fe dc ba 98 76 54 32 10
  function StartByte(i: nat): nat
    requires i < 16
  {
    if i < 8 then 0x01 + 0x22 * i else 0xfe - 0x22 * (i - 8)
  }

  lemma StartByteIs(i: nat)
    requires i < 16
    ensures Val(ToBits(8, StartByte(i))) == StartByte(i)
  {
    Powers();
    ValOfToBits(8, StartByte(i));
  }

  lemma StartWord(n: nat, i: nat)
    requires i + 3 < 16
    requires n == StartByte(i) + 0x100 * StartByte(i + 1) + 0x1_0000 * StartByte(i + 2) + 0x100_0000 * StartByte(i + 3)
    ensures BytesOf(Num(n)) ==
      [ToBits(8, StartByte(i)), ToBits(8, StartByte(i + 1)), ToBits(8, StartByte(i + 2)), ToBits(8, StartByte(i + 3))]
  {
    StartByteIs(i);
    StartByteIs(i + 1);
    StartByteIs(i + 2);
    StartByteIs(i + 3);
    var a, b := ToBits(8, StartByte(i)), ToBits(8, StartByte(i + 1));
    var c, d := ToBits(8, StartByte(i + 2)), ToBits(8, StartByte(i + 3));
    NumOfBytes(a, b, c, d, n);
    BytesOfJoined(a, b, c, d);
  }

  lemma BytesOfJoined(a: Byte, b: Byte, c: Byte, d: Byte)
    ensures BytesOf(Join(a, b, c, d)) == [a, b, c, d]
  {
    var w := Join(a, b, c, d);
    assert w[..8] == a && w[8..16] == b && w[16..24] == c && w[24..] == d;
  }

  /** Section 3.3: the start values of A, B, C and D, each low-order byte first. */
  lemma StartBytes(i: nat)
    requires i < 16
    ensures DigestOf(InitialRegs())[i] == ToBits(8, StartByte(i))
  {
    StartWord(INITIAL[0], 0);
    StartWord(INITIAL[1], 4);
    StartWord(INITIAL[2], 8);
    StartWord(INITIAL[3], 12);
  }
}

/** MD5Init, MD5Transform, MD5Update, MD5Final and mg_md5. */
module MongooseMd5 {
  import opened Words
  import opened BlockHash
  import opened Sequences
  import opened Md5

  // The 64 calls of MD5STEP; the registers are numbered a, b, c, d.
  function StepsOfRound1(j: Index): Op {
    match j
    case 0 => Op(F, 0, 1, 2, 3, 0, 0xd76aa478, 7)
    case 1 => Op(F, 3, 0, 1, 2, 1, 0xe8c7b756, 12)
    case 2 => Op(F, 2, 3, 0, 1, 2, 0x242070db, 17)
    case 3 => Op(F, 1, 2, 3, 0, 3, 0xc1bdceee, 22)
    case 4 => Op(F, 0, 1, 2, 3, 4, 0xf57c0faf, 7)
    case 5 => Op(F, 3, 0, 1, 2, 5, 0x4787c62a, 12)
    case 6 => Op(F, 2, 3, 0, 1, 6, 0xa8304613, 17)
    case 7 => Op(F, 1, 2, 3, 0, 7, 0xfd469501, 22)
    case 8 => Op(F, 0, 1, 2, 3, 8, 0x698098d8, 7)
    case 9 => Op(F, 3, 0, 1, 2, 9, 0x8b44f7af, 12)
    case 10 => Op(F, 2, 3, 0, 1, 10, 0xffff5bb1, 17)
    case 11 => Op(F, 1, 2, 3, 0, 11, 0x895cd7be, 22)
    case 12 => Op(F, 0, 1, 2, 3, 12, 0x6b901122, 7)
    case 13 => Op(F, 3, 0, 1, 2, 13, 0xfd987193, 12)
    case 14 => Op(F, 2, 3, 0, 1, 14, 0xa679438e, 17)
    case _ => Op(F, 1, 2, 3, 0, 15, 0x49b40821, 22)
  }

  function StepsOfRound2(j: Index): Op {
    match j
    case 0 => Op(G, 0, 1, 2, 3, 1, 0xf61e2562, 5)
    case 1 => Op(G, 3, 0, 1, 2, 6, 0xc040b340, 9)
    case 2 => Op(G, 2, 3, 0, 1, 11, 0x265e5a51, 14)
    case 3 => Op(G, 1, 2, 3, 0, 0, 0xe9b6c7aa, 20)
    case 4 => Op(G, 0, 1, 2, 3, 5, 0xd62f105d, 5)
    case 5 => Op(G, 3, 0, 1, 2, 10, 0x02441453, 9)
    case 6 => Op(G, 2, 3, 0, 1, 15, 0xd8a1e681, 14)
    case 7 => Op(G, 1, 2, 3, 0, 4, 0xe7d3fbc8, 20)
    case 8 => Op(G, 0, 1, 2, 3, 9, 0x21e1cde6, 5)
    case 9 => Op(G, 3, 0, 1, 2, 14, 0xc33707d6, 9)
    case 10 => Op(G, 2, 3, 0, 1, 3, 0xf4d50d87, 14)
    case 11 => Op(G, 1, 2, 3, 0, 8, 0x455a14ed, 20)
    case 12 => Op(G, 0, 1, 2, 3, 13, 0xa9e3e905, 5)
    case 13 => Op(G, 3, 0, 1, 2, 2, 0xfcefa3f8, 9)
    case 14 => Op(G, 2, 3, 0, 1, 7, 0x676f02d9, 14)
    case _ => Op(G, 1, 2, 3, 0, 12, 0x8d2a4c8a, 20)
  }

  function StepsOfRound3(j: Index): Op {
    match j
    case 0 => Op(H, 0, 1, 2, 3, 5, 0xfffa3942, 4)
    case 1 => Op(H, 3, 0, 1, 2, 8, 0x8771f681, 11)
    case 2 => Op(H, 2, 3, 0, 1, 11, 0x6d9d6122, 16)
    case 3 => Op(H, 1, 2, 3, 0, 14, 0xfde5380c, 23)
    case 4 => Op(H, 0, 1, 2, 3, 1, 0xa4beea44, 4)
    case 5 => Op(H, 3, 0, 1, 2, 4, 0x4bdecfa9, 11)
    case 6 => Op(H, 2, 3, 0, 1, 7, 0xf6bb4b60, 16)
    case 7 => Op(H, 1, 2, 3, 0, 10, 0xbebfbc70, 23)
    case 8 => Op(H, 0, 1, 2, 3, 13, 0x289b7ec6, 4)
    case 9 => Op(H, 3, 0, 1, 2, 0, 0xeaa127fa, 11)
    case 10 => Op(H, 2, 3, 0, 1, 3, 0xd4ef3085, 16)
    case 11 => Op(H, 1, 2, 3, 0, 6, 0x04881d05, 23)
    case 12 => Op(H, 0, 1, 2, 3, 9, 0xd9d4d039, 4)
    case 13 => Op(H, 3, 0, 1, 2, 12, 0xe6db99e5, 11)
    case 14 => Op(H, 2, 3, 0, 1, 15, 0x1fa27cf8, 16)
    case _ => Op(H, 1, 2, 3, 0, 2, 0xc4ac5665, 23)
  }

  function StepsOfRound4(j: Index): Op {
    match j
    case 0 => Op(I, 0, 1, 2, 3, 0, 0xf4292244, 6)
    case 1 => Op(I, 3, 0, 1, 2, 7, 0x432aff97, 10)
    case 2 => Op(I, 2, 3, 0, 1, 14, 0xab9423a7, 15)
    case 3 => Op(I, 1, 2, 3, 0, 5, 0xfc93a039, 21)
    case 4 => Op(I, 0, 1, 2, 3, 12, 0x655b59c3, 6)
    case 5 => Op(I, 3, 0, 1, 2, 3, 0x8f0ccc92, 10)
    case 6 => Op(I, 2, 3, 0, 1, 10, 0xffeff47d, 15)
    case 7 => Op(I, 1, 2, 3, 0, 1, 0x85845dd1, 21)
    case 8 => Op(I, 0, 1, 2, 3, 8, 0x6fa87e4f, 6)
    case 9 => Op(I, 3, 0, 1, 2, 15, 0xfe2ce6e0, 10)
    case 10 => Op(I, 2, 3, 0, 1, 6, 0xa3014314, 15)
    case 11 => Op(I, 1, 2, 3, 0, 13, 0x4e0811a1, 21)
    case 12 => Op(I, 0, 1, 2, 3, 4, 0xf7537e82, 6)
    case 13 => Op(I, 3, 0, 1, 2, 11, 0xbd3af235, 10)
    case 14 => Op(I, 2, 3, 0, 1, 2, 0x2ad7d2bb, 15)
    case _ => Op(I, 1, 2, 3, 0, 9, 0xeb86d391, 21)
  }

  function CAux(f: Fn, x: Word, y: Word, z: Word): Word {
    match f
    case F => Xor(z, And(x, Xor(y, z)))
    case G => Xor(y, And(z, Xor(x, y)))
    case H => Xor(Xor(x, y), z)
    case I => Xor(y, Or(x, Not(z)))
  }

  // The macro MD5STEP: three assignments to w.
  function CStep(op: Op, r: Regs, x: Words16): Regs {
    var w := Plus(r[op.w], Plus(CAux(op.f, r[op.x], r[op.y], r[op.z]), Plus(x[op.k], Num(op.t))));
    r[op.w := Plus(Or(Shl(w, op.s), Shr(w, 32 - op.s)), r[op.x])]
  }

  // The registers and the shift depend on j % 4 only.
  lemma CRound1(j: Index)
    ensures StepsOfRound1(j) == RfcOp(F, j)
  {
    assert j == 4 * (j / 4) + j % 4;
    match j % 4
    case 0 =>
    case 1 =>
    case 2 =>
    case _ =>
  }

  lemma CRound2(j: Index)
    ensures StepsOfRound2(j) == RfcOp(G, j)
  {
    assert j == 4 * (j / 4) + j % 4;
    match j % 4
    case 0 =>
    case 1 =>
    case 2 =>
    case _ =>
  }

  lemma CRound3(j: Index)
    ensures StepsOfRound3(j) == RfcOp(H, j)
  {
    assert j == 4 * (j / 4) + j % 4;
    match j % 4
    case 0 =>
    case 1 =>
    case 2 =>
    case _ =>
  }

  lemma CRound4(j: Index)
    ensures StepsOfRound4(j) == RfcOp(I, j)
  {
    assert j == 4 * (j / 4) + j % 4;
    match j % 4
    case 0 =>
    case 1 =>
    case 2 =>
    case _ =>
  }

  lemma CAuxIsRfc(f: Fn, x: Word, y: Word, z: Word)
    ensures CAux(f, x, y, z) == Aux(f, x, y, z)
  {
    Choice(x, y, z);
  }

  lemma SumOrder(w: Word, a: Word, x: Word, t: Word, b: Word, s: Shift)
    ensures Plus(Rol(Plus(w, Plus(a, Plus(x, t))), s), b) == Plus(b, Rol(Plus(Plus(Plus(w, a), x), t), s))
  {
    PlusAssociates(a, x, t);
    PlusAssociates(w, Plus(a, x), t);
    PlusAssociates(w, a, x);
    PlusCommutes(Rol(Plus(w, Plus(a, Plus(x, t))), s), b);
  }

  lemma CStepIsRfc(op: Op, r: Regs, x: Words16)
    ensures CStep(op, r, x) == Step(op, r, x)
  {
    CAuxIsRfc(op.f, r[op.x], r[op.y], r[op.z]);
    SumOrder(r[op.w], Aux(op.f, r[op.x], r[op.y], r[op.z]), x[op.k], Num(op.t), r[op.x], op.s);
  }

  // The calls as they follow each other.
  function CProgram(): (p: seq<Op>)
    ensures |p| == 64
  {
    seq(16, j requires 0 <= j < 16 => StepsOfRound1(j)) + seq(16, j requires 0 <= j < 16 => StepsOfRound2(j))
    + seq(16, j requires 0 <= j < 16 => StepsOfRound3(j)) + seq(16, j requires 0 <= j < 16 => StepsOfRound4(j))
  }

  lemma CProgramIsRfc()
    ensures CProgram() == RfcProgram()
  {
    var a, b := seq(16, j requires 0 <= j < 16 => StepsOfRound1(j)), seq(16, j requires 0 <= j < 16 => StepsOfRound2(j));
    var c, d := seq(16, j requires 0 <= j < 16 => StepsOfRound3(j)), seq(16, j requires 0 <= j < 16 => StepsOfRound4(j));
    var p := RfcProgram();
    forall j | 0 <= j < 16 ensures a[j] == p[j] && b[j] == p[16 + j] && c[j] == p[32 + j] && d[j] == p[48 + j] {
      RfcProgramAt(j);
      CRound1(j);
      CRound2(j);
      CRound3(j);
      CRound4(j);
    }
    FourRounds(p, a, b, c, d);
  }

  // One after the other, on local copies of the registers.
  method RunSteps(p: seq<Op>, start: Regs, x: Words16) returns (r: Regs)
    requires |p| == 64
    ensures r == Exec(p, 4 * |x|, start, x)
  {
    r := start;
    for i := 0 to 4 * |x|
      invariant r == Exec(p, i, start, x)
    {
      CStepIsRfc(p[i], r, x);
      r := CStep(p[i], r, x);
    }
  }

  method RunTransform(start: Regs, b: Block) returns (r: Regs)
    ensures TransformResult(start, b, r)
  {
    CProgramIsRfc();
    r := RunSteps(CProgram(), start, WordsOf(b));
  }

  ghost predicate TransformResult(start: Regs, b: Block, r: Regs) {
    r == Exec(RfcProgram(), 4 * |WordsOf(b)|, start, WordsOf(b))
  }

  lemma CompressResult(step: (Regs, Block) -> Regs, start: Regs, b: Block, r: Regs)
    requires Agree(step, Compress)
    ensures TransformResult(start, b, r) ==> AddRegs(start, r) == step(start, b)
  {
    var compress := Compress;
    assert compress(start, b) == step(start, b);
  }

  class Md5Context {
    const buf: array<Word>
    const input: array<Byte>
    var bits0: nat
    var bits1: nat
    ghost const step: (Regs, Block) -> Regs
    // All bytes given to MD5Update so far.
    ghost var message: seq<Byte>

    ghost predicate Shape() {
      buf.Length == 4 && input.Length == 64 && Agree(step, Compress)
    }

    // The state after whole blocks.
    ghost function After(m: seq<Byte>): Regs {
      Fold(step, InitialRegs(), m)
    }

    ghost predicate Valid()
      reads this, buf, input
    {
      Counted() && Holds(message)
    }

    // The counters have the length of the message in bits.
    ghost predicate Counted()
      reads this
    {
      bits0 == BitsLow(|message|) && bits1 == BitsHigh(|message|)
    }

    // The registers are those after the whole blocks of m, the buffer has the rest.
    ghost predicate Holds(m: seq<Byte>)
      reads buf, input
    {
      Shape() && buf[..] == After(Whole(m)) && input[..|Left(m)|] == Left(m)
    }

    // MD5Init
    constructor ()
      ensures Valid() && message == [] && fresh(buf) && fresh(input)
    {
      StartValues();
      buf := new Word[4] [Num(0x67452301), Num(0xefcdab89), Num(0x98badcfe), Num(0x10325476)];
      input := new Byte[64](_ => Fill(8, false));
      bits0, bits1 := 0, 0;
      step := Compress;
      message := [];
    }

    method MD5Transform()
      requires Shape()
      modifies buf
      ensures buf[..] == step(old(buf[..]), input[..])
    {
      ghost var start: Regs := buf[..];
      var r := RunTransform(buf[..], input[..]);
      AddTo(r);
      CompressResult(step, start, input[..], r);
    }

    method AddTo(r: Regs)
      requires Shape()
      modifies buf
      ensures buf[..] == AddRegs(old(buf[..]), r)
    {
      buf[0] := Plus(buf[0], r[0]);
      buf[1] := Plus(buf[1], r[1]);
      buf[2] := Plus(buf[2], r[2]);
      buf[3] := Plus(buf[3], r[3]);
    }

    // memcpy into the block in progress.
    method Copy(at: nat, data: seq<Byte>)
      requires Shape() && at + |data| <= 64
      modifies input
      ensures input[..] == old(input[..at]) + data + old(input[at + |data|..])
    {
      forall i | 0 <= i < |data| {
        input[at + i] := data[i];
      }
    }

    // The counters for the length in bits; returns the old low word.
    method AddLength(len: nat, ghost n: nat) returns (t: nat)
      requires bits0 == BitsLow(n) && bits1 == BitsHigh(n) && len < WORD
      modifies this`bits0, this`bits1
      ensures t == old(bits0) && bits0 == BitsLow(n + len) && bits1 == BitsHigh(n + len)
    {
      t := bits0;
      bits0, bits1 := CountLength(len, bits0, bits1, n);
    }

    // Replaces the block in progress by whole blocks of the input.
    method TakeBlocks(data: seq<Byte>, start: nat, ghost m: seq<Byte>, ghost done: nat) returns (pos: nat, ghost k: nat)
      requires Shape() && start <= |data|
      requires |m| + start == 64 * done && buf[..] == After((m + data)[..64 * done])
      modifies buf, input
      ensures start <= pos <= |data| && |data| - pos < 64
      ensures |m| + pos == 64 * k && buf[..] == After((m + data)[..64 * k])
    {
      pos, k := start, done;
      while |data| - pos >= 64
        invariant start <= pos <= |data| && |m| + pos == 64 * k
        invariant buf[..] == After((m + data)[..64 * k])
      {
        BlockWithin(m, data, pos, k);
        TakeBlock(data[pos..pos + 64], m + data, k);
        pos, k := pos + 64, k + 1;
      }
    }

    method TakeBlock(b: Block, ghost all: seq<Byte>, ghost k: nat)
      requires Shape() && 64 * k + 64 <= |all| && b == all[64 * k..64 * k + 64]
      requires buf[..] == After(all[..64 * k])
      modifies buf, input
      ensures buf[..] == After(all[..64 * k + 64])
    {
      Copy(0, b);
      assert input[..] == b;
      MD5Transform();
      NextBlock(step, InitialRegs(), all, 64 * k);
    }

    // Fills up the block in progress and processes it.
    method CompleteBlock(data: seq<Byte>, ghost m: seq<Byte>, ghost all: seq<Byte>)
      requires Holds(m) && |Left(m)| + |data| == 64 && m + data <= all
      modifies buf, input
      ensures buf[..] == After(all[..|m| + |data|])
    {
      ghost var n := WholeLength(m);
      BlockAcross(m, data, all);
      Copy(64 - |data|, data);
      assert input[..] == Left(m) + data;
      MD5Transform();
      NextBlock(step, InitialRegs(), all, n);
    }

    // Counts new bytes; returns their place in the block.
    method Count(data: seq<Byte>) returns (t: nat)
      requires Counted() && |data| < WORD
      modifies this`bits0, this`bits1, this`message
      ensures t == |Left(old(message))| && message == old(message) + data && Counted()
    {
      PositionOf(message);
      t := AddLength(|data|, |message|);
      t := t / 8 % 64;
      message := message + data;
    }

    /** Any number of bytes, in any pieces. */
    method MD5Update(data: seq<Byte>)
      requires Valid() && |data| < WORD
      modifies this, buf, input
      ensures Valid() && message == old(message) + data
    {
      ghost var m := message;
      var t := Count(data);
      Absorb(data, t, m);
    }

    // The data after m go to the buffer, whole blocks into the hash.
    method Absorb(data: seq<Byte>, t: nat, ghost m: seq<Byte>)
      requires Holds(m) && t == |Left(m)|
      modifies buf, input
      ensures Holds(m + data)
    {
      if t != 0 && |data| < 64 - t {
        Copy(t, data);
        AppendShort(m, data);
      } else {
        UpdateBlocks(data, t, m);
      }
    }

    // The input completes at least one block, or starts one.
    method UpdateBlocks(data: seq<Byte>, t: nat, ghost m: seq<Byte>)
      requires Holds(m) && t == |Left(m)| && (t == 0 || |data| >= 64 - t)
      modifies buf, input
      ensures Holds(m + data)
    {
      ghost var all := m + data;
      var pos := if t == 0 then 0 else 64 - t;
      ghost var k := StartBlocks(data[..pos], m, all);
      pos, k := TakeBlocks(data, pos, m, k);
      KeepRest(data[pos..], m + data, k);
    }

    // The bytes after the last whole block wait for the next call.
    method KeepRest(rest: seq<Byte>, ghost all: seq<Byte>, ghost k: nat)
      requires Shape() && |rest| < 64 && |all| == 64 * k + |rest| && rest == all[64 * k..]
      requires buf[..] == After(all[..64 * k])
      modifies input
      ensures Holds(all)
    {
      Copy(0, rest);
      WholeLengthIs(all, k);
    }

    // Completes the block in progress, if there is one.
    method StartBlocks(data: seq<Byte>, ghost m: seq<Byte>, ghost all: seq<Byte>) returns (ghost k: nat)
      requires Holds(m) && |Left(m)| + |data| in {0, 64} && m + data <= all
      modifies buf, input
      ensures |m| + |data| == 64 * k && buf[..] == After(all[..64 * k])
    {
      k := |m| / 64;
      if data != [] {
        CompleteBlock(data, m, all);
        k := k + 1;
      } else {
        assert Whole(m) == all[..64 * k];
      }
    }

    /** Padding, the length, the last blocks, the digest. */
    method MD5Final() returns (digest: seq<Byte>)
      requires Valid()
      modifies this, buf, input
      ensures digest == DigestOf(After(Pad(message)))
      ensures message == old(message)
    {
      ghost var whole := PadBlock();
      Copy(56, BytesOf(Num(bits0)) + BytesOf(Num(bits1)));
      ghost var b: Block := input[..];
      assert b == input[..56] + LengthBytes(|message|);
      assert whole + b == Pad(message);
      FoldBlock(step, InitialRegs(), whole, b);
      MD5Transform();
      digest := BytesOf(buf[0]) + BytesOf(buf[1]) + BytesOf(buf[2]) + BytesOf(buf[3]);
    }

    // The padding up to the length; a block of its own when it does not fit.
    method PadBlock() returns (ghost whole: seq<Byte>)
      requires Valid()
      modifies buf, input
      ensures Shape() && buf[..] == After(whole)
      ensures whole + input[..56] == PadPrefix(message)
    {
      PositionOf(message);
      PadPrefixBlocks(message);
      var count := bits0 / 8 % 64;
      OneBitIs();
      Copy(count, [ToBits(8, 0x80)]);
      var rest := 63 - count;
      if rest < 8 {
        whole := PadOverflow(rest);
      } else {
        whole := Whole(message);
        PadShort(rest);
      }
    }

    // The length fits.
    method PadShort(rest: nat)
      requires Shape() && 8 <= rest == 63 - |Left(message)|
      requires input[..64 - rest] == Left(message) + [ONE_BIT]
      modifies input
      ensures input[..56] == Left(message) + [ONE_BIT] + Zeros(rest - 8)
    {
      Copy(64 - rest, Zeros(rest - 8));
    }

    // The length does not fit into the block in progress.
    method PadOverflow(rest: nat) returns (ghost whole: seq<Byte>)
      requires Shape() && rest == 63 - |Left(message)|
      requires buf[..] == After(Whole(message)) && input[..64 - rest] == Left(message) + [ONE_BIT]
      modifies buf, input
      ensures Shape() && input[..56] == Zeros(56)
      ensures whole == Whole(message) + (Left(message) + [ONE_BIT] + Zeros(rest)) && buf[..] == After(whole)
    {
      Copy(64 - rest, Zeros(rest));
      ghost var b: Block := input[..];
      assert b == Left(message) + [ONE_BIT] + Zeros(rest);
      FoldBlock(step, InitialRegs(), Whole(message), b);
      MD5Transform();
      whole := Whole(message) + b;
      Copy(0, Zeros(56));
    }
  }

  // The characters of "0123456789abcdef".
  function HexDigit(n: nat): (c: char)
    requires n < 16
    ensures c as int == if n < 10 then '0' as int + n else 'a' as int + (n - 10)
  {
    "0123456789abcdef"[n]
  }

  // p[0] >> 4 and p[0] & 0x0f
  function High(b: Byte): (n: nat)
    ensures n < 16
  {
    Powers();
    ValBound(b[4..]);
    Val(b[4..])
  }

  function Low(b: Byte): (n: nat)
    ensures n < 16
  {
    Powers();
    ValBound(b[..4]);
    Val(b[..4])
  }

  function HexPair(b: Byte): string {
    [HexDigit(High(b)), HexDigit(Low(b))]
  }

  function HexText(bytes: seq<Byte>): string {
    FlatMap(HexPair, bytes)
  }

  // bin2str: the high half of each byte first.
  method Bin2Str(bytes: seq<Byte>) returns (text: string)
    ensures text == HexText(bytes)
  {
    text := "";
    for i := 0 to |bytes|
      invariant text == HexText(bytes[..i])
    {
      FlatMapNext(HexPair, bytes, i);
      text := text + HexPair(bytes[i]);
    }
    assert bytes[..|bytes|] == bytes;
  }

  /** The streaming digest of any list of strings is the digest RFC 1321 defines
      for their concatenation. */
  method MgMd5(chunks: seq<seq<Byte>>) returns (text: string)
    requires forall i :: 0 <= i < |chunks| ==> |chunks[i]| < WORD
    ensures text == HexText(Digest(Concat(chunks)))
  {
    var ctx := new Md5Context();
    for i := 0 to |chunks|
      invariant ctx.Valid() && fresh(ctx) && fresh(ctx.buf) && fresh(ctx.input)
      invariant ctx.message == Concat(chunks[..i])
    {
      assert chunks[..i + 1][..i] == chunks[..i];
      ctx.MD5Update(chunks[i]);
    }
    assert chunks[..|chunks|] == chunks;
    ghost var m := ctx.message;
    var hash := ctx.MD5Final();
    SameFold(ctx.step, Compress, InitialRegs(), Pad(m));
    text := Bin2Str(hash);
  }
}
