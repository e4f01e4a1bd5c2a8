/** The one-shot MD5 of webgui/scripts/codecompass/util.js. A number that takes
    part in a bitwise operation stands for its 32-bit pattern, which is all that
    these operations look at; array elements never assigned read as zero. */
module JsMd5 {
  import opened Words
  import opened BlockHash
  import opened Sequences
  import opened Md5
  import MongooseMd5

  const HIGH := 0x80000000
  const SECOND := 0x40000000
  const BOTH := 0xC0000000
  const LOW30 := 0x3FFFFFFF

  const NIL: Word := Fill(32, false)

  /** Addition modulo 2^32 from sums of 30-bit numbers. */
  function AddUnsigned(x: Word, y: Word): Word {
    var x8, y8 := And(x, Num(HIGH)), And(y, Num(HIGH));
    var x4, y4 := And(x, Num(SECOND)), And(y, Num(SECOND));
    var sum := Num(Val(And(x, Num(LOW30))) + Val(And(y, Num(LOW30))));
    if And(x4, y4) != NIL then Xor(Xor(Xor(sum, Num(HIGH)), x8), y8)
    else if Or(x4, y4) != NIL then
      if And(sum, Num(SECOND)) != NIL then Xor(Xor(Xor(sum, Num(BOTH)), x8), y8)
      else Xor(Xor(Xor(sum, Num(SECOND)), x8), y8)
    else Xor(Xor(sum, x8), y8)
  }

  // A word with given upper two bits.
  function WithTop(low: Bits, b30: bool, b31: bool): Word
    requires |low| == 30
  {
    low + [b30, b31]
  }

  function Weight(b: bool): nat {
    if b then 1 else 0
  }

  lemma TwoBits(b30: bool, b31: bool)
    ensures Val([b30, b31]) == Weight(b30) + 2 * Weight(b31)
  {
    assert [b30, b31][1..] == [b31];
    assert [b31][1..] == [];
    assert Val([b31]) == Weight(b31);
  }

  lemma ValWithTop(low: Bits, b30: bool, b31: bool)
    requires |low| == 30
    ensures Val(WithTop(low, b30, b31)) == Val(low) + SECOND * Weight(b30) + HIGH * Weight(b31)
    ensures Val(low) < SECOND
  {
    assert Pow2(30) == SECOND by {
      Powers();
    }
    ValBound(low);
    ValAppend(low, [b30, b31]);
    TwoBits(b30, b31);
  }

  // The word with a given value.
  lemma NumWithTop(low: Bits, b30: bool, b31: bool, n: nat)
    requires |low| == 30 && n == Val(low) + SECOND * Weight(b30) + HIGH * Weight(b31)
    ensures Num(n) == WithTop(low, b30, b31)
  {
    ValWithTop(low, b30, b31);
    ToBitsOfVal(WithTop(low, b30, b31));
  }

  lemma Masks()
    ensures Num(HIGH) == WithTop(Fill(30, false), false, true)
    ensures Num(SECOND) == WithTop(Fill(30, false), true, false)
    ensures Num(BOTH) == WithTop(Fill(30, false), true, true)
    ensures Num(LOW30) == WithTop(Fill(30, true), false, false)
  {
    assert Val(Fill(30, false)) == 0 && Val(Fill(30, true)) == LOW30 by {
      Powers();
      ValFill(30);
    }
    NumWithTop(Fill(30, false), false, true, HIGH);
    NumWithTop(Fill(30, false), true, false, SECOND);
    NumWithTop(Fill(30, false), true, true, BOTH);
    NumWithTop(Fill(30, true), false, false, LOW30);
  }

  lemma Masked(w: Word)
    ensures And(w, Num(HIGH)) == WithTop(Fill(30, false), false, w[31])
    ensures And(w, Num(SECOND)) == WithTop(Fill(30, false), w[30], false)
    ensures And(w, Num(LOW30)) == WithTop(w[..30], false, false)
    ensures w == WithTop(w[..30], w[30], w[31])
  {
    Masks();
  }

  const ZEROS30: Bits := Fill(30, false)

  lemma XorTop(low: Bits, b30: bool, b31: bool, c30: bool, c31: bool)
    requires |low| == 30
    ensures Xor(WithTop(low, b30, b31), WithTop(ZEROS30, c30, c31)) == WithTop(low, b30 != c30, b31 != c31)
  {
  }

  // The part of AddUnsigned that depends on the second-highest bits.
  function Selected(sum: Word, x4: Word, y4: Word): Word {
    if And(x4, y4) != NIL then Xor(sum, Num(HIGH))
    else if Or(x4, y4) != NIL then
      if And(sum, Num(SECOND)) != NIL then Xor(sum, Num(BOTH)) else Xor(sum, Num(SECOND))
    else sum
  }

  predicate Carries(c: bool, x: bool, y: bool) {
    Weight(c) + Weight(x) + Weight(y) >= 2
  }

  lemma SecondBit(b: bool, c: bool, low: Bits)
    requires |low| == 30
    ensures And(WithTop(ZEROS30, b, false), WithTop(ZEROS30, c, false)) != NIL <==> b && c
    ensures Or(WithTop(ZEROS30, b, false), WithTop(ZEROS30, c, false)) != NIL <==> b || c
    ensures And(WithTop(low, b, false), WithTop(ZEROS30, true, false)) != NIL <==> b
  {
    assert And(WithTop(ZEROS30, b, false), WithTop(ZEROS30, c, false)) == WithTop(ZEROS30, b && c, false);
    assert Or(WithTop(ZEROS30, b, false), WithTop(ZEROS30, c, false)) == WithTop(ZEROS30, b || c, false);
    assert And(WithTop(low, b, false), WithTop(ZEROS30, true, false)) == WithTop(ZEROS30, b, false);
    assert NIL == WithTop(ZEROS30, false, false);
    assert WithTop(ZEROS30, true, false)[30] != NIL[30];
  }

  lemma SelectedIs(low: Bits, c: bool, x: bool, y: bool)
    requires |low| == 30
    ensures Selected(WithTop(low, c, false), WithTop(ZEROS30, x, false), WithTop(ZEROS30, y, false))
      == WithTop(low, (c != x) != y, Carries(c, x, y))
  {
    Masks();
    SecondBit(x, y, low);
    SecondBit(c, y, low);
    XorTop(low, c, false, false, true);
    XorTop(low, c, false, true, true);
    XorTop(low, c, false, true, false);
  }

  lemma AddBySelected(x: Word, y: Word)
    ensures AddUnsigned(x, y) ==
      Xor(Xor(Selected(Num(Val(And(x, Num(LOW30))) + Val(And(y, Num(LOW30)))), And(x, Num(SECOND)), And(y, Num(SECOND))),
              And(x, Num(HIGH))), And(y, Num(HIGH)))
  {
  }

  lemma SumOfLow(a: Bits, b: Bits) returns (low: Bits, carry: bool)
    requires |a| == |b| == 30
    ensures |low| == 30 && Num(Val(a) + Val(b)) == WithTop(low, carry, false)
    ensures Val(low) + SECOND * Weight(carry) == Val(a) + Val(b)
  {
    ValWithTop(a, false, false);
    ValWithTop(b, false, false);
    var n := Val(a) + Val(b);
    carry := n >= SECOND;
    var rest: nat := if carry then n - SECOND else n;
    low := ToBits(30, rest);
    assert Pow2(30) == SECOND by {
      Powers();
    }
    ValOfToBits(30, rest);
    NumWithTop(low, carry, false, n);
  }

  lemma TopSums(l: nat, c: bool, x: bool, x': bool, y: bool, y': bool, a: nat, b: nat)
    requires l < SECOND && l + SECOND * Weight(c) == a + b
    ensures l + SECOND * Weight((c != x) != y) + HIGH * Weight((Carries(c, x, y) != x') != y')
      == (a + SECOND * Weight(x) + HIGH * Weight(x') + b + SECOND * Weight(y) + HIGH * Weight(y')) % WORD
  {
  }

  /** The split into 30 bits and two more is addition modulo 2^32. */
  lemma AddIsPlus(x: Word, y: Word)
    ensures AddUnsigned(x, y) == Plus(x, y)
  {
    var low, c := SumOfLow(x[..30], y[..30]);
    Masked(x);
    Masked(y);
    ValWithTop(x[..30], false, false);
    ValWithTop(y[..30], false, false);
    AddBySelected(x, y);
    SelectedIs(low, c, x[30], y[30]);
    XorTops(low, (c != x[30]) != y[30], Carries(c, x[30], y[30]), x[31], y[31]);
    SumIsPlus(x, y, low, c);
  }

  lemma XorTops(low: Bits, b30: bool, b31: bool, c31: bool, d31: bool)
    requires |low| == 30
    ensures Xor(Xor(WithTop(low, b30, b31), WithTop(ZEROS30, false, c31)), WithTop(ZEROS30, false, d31))
      == WithTop(low, b30, (b31 != c31) != d31)
  {
    XorTop(low, b30, b31, false, c31);
    XorTop(low, b30, b31 != c31, false, d31);
  }

  lemma SumIsPlus(x: Word, y: Word, low: Bits, c: bool)
    requires |low| == 30 && Val(low) + SECOND * Weight(c) == Val(x[..30]) + Val(y[..30])
    ensures WithTop(low, (c != x[30]) != y[30], (Carries(c, x[30], y[30]) != x[31]) != y[31]) == Plus(x, y)
  {
    var b30, b31 := (c != x[30]) != y[30], (Carries(c, x[30], y[30]) != x[31]) != y[31];
    TopSums(Val(low), c, x[30], x[31], y[30], y[31], Val(x[..30]), Val(y[..30])) by {
      ValWithTop(low, b30, b31);
    }
    ValByTop(x);
    ValByTop(y);
    NumWithTop(low, b30, b31, (Val(x) + Val(y)) % WORD);
  }

  lemma ValByTop(w: Word)
    ensures Val(w) == Val(w[..30]) + SECOND * Weight(w[30]) + HIGH * Weight(w[31])
  {
    ValWithTop(w[..30], w[30], w[31]);
    assert w == WithTop(w[..30], w[30], w[31]);
  }

  // ----- the calls of FF, GG, HH and II -----

  function CallsOfRound1(j: Index): Op {
    match j
    case 0 => Op(F, 0, 1, 2, 3, 0, 0xd76aa478, 7)
    case 1 => Op(F, 3, 0, 1, 2, 1, 0xe8c7b756, 12)
    case 2 => Op(F, 2, 3, 0, 1, 2, 0x242070db, 17)
    case 3 => Op(F, 1, 2, 3, 0, 3, 0xc1bdceee, 22)
    case 4 => Op(F, 0, 1, 2, 3, 4, 0xf57c0faf, 7)
    case 5 => Op(F, 3, 0, 1, 2, 5, 0x4787c62a, 12)
    case 6 => Op(F, 2, 3, 0, 1, 6, 0xa8304613, 17)
    case 7 => Op(F, 1, 2, 3, 0, 7, 0xfd469501, 22)
    case 8 => Op(F, 0, 1, 2, 3, 8, 0x698098d8, 7)
    case 9 => Op(F, 3, 0, 1, 2, 9, 0x8b44f7af, 12)
    case 10 => Op(F, 2, 3, 0, 1, 10, 0xffff5bb1, 17)
    case 11 => Op(F, 1, 2, 3, 0, 11, 0x895cd7be, 22)
    case 12 => Op(F, 0, 1, 2, 3, 12, 0x6b901122, 7)
    case 13 => Op(F, 3, 0, 1, 2, 13, 0xfd987193, 12)
    case 14 => Op(F, 2, 3, 0, 1, 14, 0xa679438e, 17)
    case _ => Op(F, 1, 2, 3, 0, 15, 0x49b40821, 22)
  }

  function CallsOfRound2(j: Index): Op {
    match j
    case 0 => Op(G, 0, 1, 2, 3, 1, 0xf61e2562, 5)
    case 1 => Op(G, 3, 0, 1, 2, 6, 0xc040b340, 9)
    case 2 => Op(G, 2, 3, 0, 1, 11, 0x265e5a51, 14)
    case 3 => Op(G, 1, 2, 3, 0, 0, 0xe9b6c7aa, 20)
    case 4 => Op(G, 0, 1, 2, 3, 5, 0xd62f105d, 5)
    case 5 => Op(G, 3, 0, 1, 2, 10, 0x2441453, 9)
    case 6 => Op(G, 2, 3, 0, 1, 15, 0xd8a1e681, 14)
    case 7 => Op(G, 1, 2, 3, 0, 4, 0xe7d3fbc8, 20)
    case 8 => Op(G, 0, 1, 2, 3, 9, 0x21e1cde6, 5)
    case 9 => Op(G, 3, 0, 1, 2, 14, 0xc33707d6, 9)
    case 10 => Op(G, 2, 3, 0, 1, 3, 0xf4d50d87, 14)
    case 11 => Op(G, 1, 2, 3, 0, 8, 0x455a14ed, 20)
    case 12 => Op(G, 0, 1, 2, 3, 13, 0xa9e3e905, 5)
    case 13 => Op(G, 3, 0, 1, 2, 2, 0xfcefa3f8, 9)
    case 14 => Op(G, 2, 3, 0, 1, 7, 0x676f02d9, 14)
    case _ => Op(G, 1, 2, 3, 0, 12, 0x8d2a4c8a, 20)
  }

  function CallsOfRound3(j: Index): Op {
    match j
    case 0 => Op(H, 0, 1, 2, 3, 5, 0xfffa3942, 4)
    case 1 => Op(H, 3, 0, 1, 2, 8, 0x8771f681, 11)
    case 2 => Op(H, 2, 3, 0, 1, 11, 0x6d9d6122, 16)
    case 3 => Op(H, 1, 2, 3, 0, 14, 0xfde5380c, 23)
    case 4 => Op(H, 0, 1, 2, 3, 1, 0xa4beea44, 4)
    case 5 => Op(H, 3, 0, 1, 2, 4, 0x4bdecfa9, 11)
    case 6 => Op(H, 2, 3, 0, 1, 7, 0xf6bb4b60, 16)
    case 7 => Op(H, 1, 2, 3, 0, 10, 0xbebfbc70, 23)
    case 8 => Op(H, 0, 1, 2, 3, 13, 0x289b7ec6, 4)
    case 9 => Op(H, 3, 0, 1, 2, 0, 0xeaa127fa, 11)
    case 10 => Op(H, 2, 3, 0, 1, 3, 0xd4ef3085, 16)
    case 11 => Op(H, 1, 2, 3, 0, 6, 0x4881d05, 23)
    case 12 => Op(H, 0, 1, 2, 3, 9, 0xd9d4d039, 4)
    case 13 => Op(H, 3, 0, 1, 2, 12, 0xe6db99e5, 11)
    case 14 => Op(H, 2, 3, 0, 1, 15, 0x1fa27cf8, 16)
    case _ => Op(H, 1, 2, 3, 0, 2, 0xc4ac5665, 23)
  }

  function CallsOfRound4(j: Index): Op {
    match j
    case 0 => Op(I, 0, 1, 2, 3, 0, 0xf4292244, 6)
    case 1 => Op(I, 3, 0, 1, 2, 7, 0x432aff97, 10)
    case 2 => Op(I, 2, 3, 0, 1, 14, 0xab9423a7, 15)
    case 3 => Op(I, 1, 2, 3, 0, 5, 0xfc93a039, 21)
    case 4 => Op(I, 0, 1, 2, 3, 12, 0x655b59c3, 6)
    case 5 => Op(I, 3, 0, 1, 2, 3, 0x8f0ccc92, 10)
    case 6 => Op(I, 2, 3, 0, 1, 10, 0xffeff47d, 15)
    case 7 => Op(I, 1, 2, 3, 0, 1, 0x85845dd1, 21)
    case 8 => Op(I, 0, 1, 2, 3, 8, 0x6fa87e4f, 6)
    case 9 => Op(I, 3, 0, 1, 2, 15, 0xfe2ce6e0, 10)
    case 10 => Op(I, 2, 3, 0, 1, 6, 0xa3014314, 15)
    case 11 => Op(I, 1, 2, 3, 0, 13, 0x4e0811a1, 21)
    case 12 => Op(I, 0, 1, 2, 3, 4, 0xf7537e82, 6)
    case 13 => Op(I, 3, 0, 1, 2, 11, 0xbd3af235, 10)
    case 14 => Op(I, 2, 3, 0, 1, 2, 0x2ad7d2bb, 15)
    case _ => Op(I, 1, 2, 3, 0, 9, 0xeb86d391, 21)
  }

  function RotateLeft(v: Word, s: Shift): Word {
    Or(Shl(v, s), Shr(v, 32 - s))
  }

  // FF, GG, HH and II differ in the auxiliary function only.
  function JsStep(op: Op, r: Regs, x: Words16): Regs {
    var a := AddUnsigned(r[op.w], AddUnsigned(AddUnsigned(Aux(op.f, r[op.x], r[op.y], r[op.z]), x[op.k]), Num(op.t)));
    r[op.w := AddUnsigned(RotateLeft(a, op.s), r[op.x])]
  }

  // The registers and the shift depend on j % 4 only.
  lemma JsRound1(j: Index)
    ensures CallsOfRound1(j) == RfcOp(F, j)
  {
    assert j == 4 * (j / 4) + j % 4;
    match j % 4
    case 0 =>
    case 1 =>
    case 2 =>
    case _ =>
  }

  lemma JsRound2(j: Index)
    ensures CallsOfRound2(j) == RfcOp(G, j)
  {
    assert j == 4 * (j / 4) + j % 4;
    match j % 4
    case 0 =>
    case 1 =>
    case 2 =>
    case _ =>
  }

  lemma JsRound3(j: Index)
    ensures CallsOfRound3(j) == RfcOp(H, j)
  {
    assert j == 4 * (j / 4) + j % 4;
    match j % 4
    case 0 =>
    case 1 =>
    case 2 =>
    case _ =>
  }

  lemma JsRound4(j: Index)
    ensures CallsOfRound4(j) == RfcOp(I, j)
  {
    assert j == 4 * (j / 4) + j % 4;
    match j % 4
    case 0 =>
    case 1 =>
    case 2 =>
    case _ =>
  }

  // The calls as they follow each other.
  function JsProgram(): (p: seq<Op>)
    ensures |p| == 64
  {
    seq(16, j requires 0 <= j < 16 => CallsOfRound1(j)) + seq(16, j requires 0 <= j < 16 => CallsOfRound2(j))
    + seq(16, j requires 0 <= j < 16 => CallsOfRound3(j)) + seq(16, j requires 0 <= j < 16 => CallsOfRound4(j))
  }

  lemma JsProgramIsRfc()
    ensures JsProgram() == RfcProgram()
  {
    var a, b := seq(16, j requires 0 <= j < 16 => CallsOfRound1(j)), seq(16, j requires 0 <= j < 16 => CallsOfRound2(j));
    var c, d := seq(16, j requires 0 <= j < 16 => CallsOfRound3(j)), seq(16, j requires 0 <= j < 16 => CallsOfRound4(j));
    var p := RfcProgram();
    forall j | 0 <= j < 16 ensures a[j] == p[j] && b[j] == p[16 + j] && c[j] == p[32 + j] && d[j] == p[48 + j] {
      RfcProgramAt(j);
      JsRound1(j);
      JsRound2(j);
      JsRound3(j);
      JsRound4(j);
    }
    FourRounds(p, a, b, c, d);
  }

  lemma JsStepIsRfc(op: Op, r: Regs, x: Words16)
    ensures JsStep(op, r, x) == Step(op, r, x)
  {
    var a := Aux(op.f, r[op.x], r[op.y], r[op.z]);
    AddIsPlus(a, x[op.k]);
    AddIsPlus(Plus(a, x[op.k]), Num(op.t));
    var sum := Plus(Plus(a, x[op.k]), Num(op.t));
    AddIsPlus(r[op.w], sum);
    PlusAssociates(r[op.w], Plus(a, x[op.k]), Num(op.t));
    PlusAssociates(r[op.w], a, x[op.k]);
    var w := Plus(r[op.w], sum);
    AddIsPlus(Rol(w, op.s), r[op.x]);
    PlusCommutes(Rol(w, op.s), r[op.x]);
  }

  // ----- ConvertToWordArray -----

  function AllWords(p: seq<Byte>): (x: seq<Word>)
    ensures |x| == |p| / 4
  {
    seq(|p| / 4, j requires 0 <= j < |p| / 4 => WordAt(p, 4 * j))
  }

  // A character code as a number.
  function Widen(b: Byte): Word {
    b + Fill(24, false)
  }

  // b in place k of four bytes, the others as in w.
  lemma OrByte(w: Word, b: Byte, k: nat)
    requires k < 4 && w[8 * k..8 * k + 8] == Fill(8, false)
    ensures Or(w, Shl(Widen(b), 8 * k)) == w[..8 * k] + b + w[8 * k + 8..]
  {
    var s := Shl(Widen(b), 8 * k);
    var old8 := w[8 * k..8 * k + 8];
    assert forall i :: 0 <= i < 8 ==> !old8[i];
    assert forall i :: 0 <= i < 32 ==> s[i] == (8 * k <= i < 8 * k + 8 && b[i - 8 * k]);
    assert forall i :: 8 * k <= i < 8 * k + 8 ==> w[i] == old8[i - 8 * k];
  }

  lemma SetByte(p: seq<Byte>, c: nat, b: Byte)
    requires |p| % 4 == 0 && c < |p| && p[c] == Fill(8, false)
    ensures AllWords(p[c := b]) == AllWords(p)[c / 4 := Or(AllWords(p)[c / 4], Shl(Widen(b), c % 4 * 8))]
  {
    var w, k := AllWords(p)[c / 4], c % 4;
    assert w[8 * k..8 * k + 8] == p[c];
    OrByte(w, b, k);
    var q := p[c := b];
    assert WordAt(q, 4 * (c / 4)) == w[..8 * k] + b + w[8 * k + 8..];
    forall j | 0 <= j < |p| / 4 && j != c / 4 ensures AllWords(q)[j] == AllWords(p)[j] {
      assert q[4 * j..4 * j + 4] == p[4 * j..4 * j + 4];
      assert WordAt(q, 4 * j) == WordAt(q[4 * j..4 * j + 4], 0) == WordAt(p[4 * j..4 * j + 4], 0) == WordAt(p, 4 * j);
    }
  }

  // The bytes entered so far, the rest still zero.
  function Entered(m: seq<Byte>, size: nat): seq<Byte>
    requires |m| <= size
  {
    m + Zeros(size - |m|)
  }

  lemma EnterByte(m: seq<Byte>, b: Byte, size: nat)
    requires |m| < size && size % 4 == 0
    ensures AllWords(Entered(m + [b], size)) == var x := AllWords(Entered(m, size));
      x[|m| / 4 := Or(x[|m| / 4], Shl(Widen(b), |m| % 4 * 8))]
  {
    var p := Entered(m, size);
    assert p[|m|] == Fill(8, false);
    assert p[|m| := b] == Entered(m + [b], size);
    SetByte(p, |m|, b);
  }

  // Whether the last word is the high half of the length in bits: it is taken
  // from the length as a 32-bit number.
  predicate LengthFits(n: nat) {
    n % WORD / 0x2000_0000 == BitsHigh(n)
  }

  /** It is for all lengths below 2^32, and for larger ones only where 2^61
      bytes, a length of zero bits, have gone by. */
  lemma LengthFitsIff(n: nat)
    ensures LengthFits(n) <==> n % 0x2000_0000_0000_0000 < WORD
  {
    var q, r := n / 0x2000_0000, n % 0x2000_0000;
    Split(8 * n, q, 8 * r);
    Split(n, q / 8, q % 8 * 0x2000_0000 + r);
    assert n == q / WORD * 0x2000_0000_0000_0000 + (q % WORD * 0x2000_0000 + r);
    assert n % 0x2000_0000_0000_0000 == q % WORD * 0x2000_0000 + r;
  }

  /** The first length that goes wrong: for 2^32 bytes the high word is 0, not 8. */
  lemma LengthTooLong()
    ensures !LengthFits(WORD) && BitsHigh(WORD) == 8
  {
    LengthFitsIff(WORD);
    Split(8 * WORD, 8, 0);
  }

  // The high word of the length as the code computes it.
  function HighWord(n: nat): Word {
    Num(n % WORD / 0x2000_0000)
  }

  lemma HighWordIff(n: nat)
    ensures HighWord(n) == Num(BitsHigh(n)) <==> n % 0x2000_0000_0000_0000 < WORD
  {
    LengthFitsIff(n);
    ValOfNum(n % WORD / 0x2000_0000);
    ValOfNum(BitsHigh(n));
  }

  // The padded message that the word array stands for.
  function JsPad(m: seq<Byte>): (p: seq<Byte>)
    ensures |p| % 64 == 0
  {
    Padded(m, BytesOf(Num(BitsLow(|m|))) + BytesOf(HighWord(|m|)))
  }

  lemma BytesTellWords(v: Word, w: Word)
    ensures BytesOf(v) == BytesOf(w) <==> v == w
  {
    if BytesOf(v) == BytesOf(w) {
      var b, c := BytesOf(v), BytesOf(w);
      assert b[0] == c[0] && b[1] == c[1] && b[2] == c[2] && b[3] == c[3];
      assert v == v[..8] + v[8..16] + v[16..24] + v[24..];
      assert w == w[..8] + w[8..16] + w[16..24] + w[24..];
    }
  }

  /** It is the padding of RFC 1321 exactly for these lengths. */
  lemma JsPadIff(m: seq<Byte>)
    ensures JsPad(m) == Pad(m) <==> |m| % 0x2000_0000_0000_0000 < WORD
  {
    HighWordIff(|m|);
    var high, rfc := HighWord(|m|), Num(BitsHigh(|m|));
    var start := PadPrefix(m) + BytesOf(Num(BitsLow(|m|)));
    assert JsPad(m) == start + BytesOf(high) && Pad(m) == start + BytesOf(rfc);
    assert JsPad(m)[|start|..] == BytesOf(high) && Pad(m)[|start|..] == BytesOf(rfc);
    BytesTellWords(high, rfc);
  }

  lemma SetLength(m: seq<Byte>, size: nat, x: seq<Word>, low: Word, high: Word)
    requires size % 4 == 0 && size == |PadPrefix(m)| + 8
    requires |x| == size / 4 && x == AllWords(Entered(m + [ONE_BIT], size))
    ensures x[|x| - 2 := low][|x| - 1 := high] == AllWords(PadPrefix(m) + (BytesOf(low) + BytesOf(high)))
  {
    var p := PadPrefix(m);
    var q := p + (BytesOf(low) + BytesOf(high));
    assert Entered(m + [ONE_BIT], size)[..|p|] == p;
    forall j | 0 <= j < |x| - 2 ensures AllWords(q)[j] == x[j] {
      assert q[4 * j..4 * j + 4] == p[4 * j..4 * j + 4];
      assert WordAt(q, 4 * j) == WordAt(q[4 * j..4 * j + 4], 0) == WordAt(p[4 * j..4 * j + 4], 0);
    }
    assert WordAt(q, |p|) == low && WordAt(q, |p| + 4) == high;
  }

  lemma NothingEntered(size: nat)
    requires size % 4 == 0
    ensures AllWords(Entered([], size)) == seq(size / 4, _ => NIL)
  {
    forall j | 0 <= j < size / 4 ensures AllWords(Entered([], size))[j] == NIL {
      assert WordAt(Entered([], size), 4 * j) == NIL;
    }
  }

  // The bytes of the text and the one bit after it.
  method EnterText(text: seq<Byte>, words: array<Word>)
    requires |text| < 4 * words.Length && words[..] == seq(words.Length, _ => NIL)
    modifies words
    ensures words[..] == AllWords(Entered(text + [ONE_BIT], 4 * words.Length))
  {
    ghost var size := 4 * words.Length;
    NothingEntered(size);
    for c := 0 to |text|
      invariant words[..] == AllWords(Entered(text[..c], size))
    {
      EnterByte(text[..c], text[c], size);
      assert text[..c] + [text[c]] == text[..c + 1];
      words[c / 4] := Or(words[c / 4], Shl(Widen(text[c]), c % 4 * 8));
    }
    assert text[..|text|] == text;
    OneBitIs();
    EnterByte(text, ONE_BIT, size);
    words[|text| / 4] := Or(words[|text| / 4], Shl(Widen(ToBits(8, 0x80)), |text| % 4 * 8));
  }

  function WordCount(n: nat): nat {
    var temp1 := n + 8;
    var temp2 := (temp1 - temp1 % 64) / 64;
    (temp2 + 1) * 16
  }

  lemma BlocksNeeded(m: seq<Byte>)
    ensures 4 * WordCount(|m|) == |PadPrefix(m)| + 8
  {
    var n := |m|;
    var r, q := n % 64, n / 64;
    assert (n + 8) / 64 == if r < 56 then q else q + 1;
  }

  /** The words are those of the padded message of RFC 1321 exactly when the length
      modulo 2^61 is below 2^32. */
  method ConvertToWordArray(text: seq<Byte>) returns (words: array<Word>)
    ensures fresh(words) && words[..] == AllWords(JsPad(text))
    ensures words[..] == AllWords(Pad(text)) <==> |text| % 0x2000_0000_0000_0000 < WORD
  {
    var n := |text|;
    var count := WordCount(n);
    BlocksNeeded(text);
    words := new Word[count](_ => NIL);
    EnterText(text, words);
    ghost var x := words[..];
    SetLength(text, 4 * count, x, Num(BitsLow(n)), HighWord(n));
    SetLength(text, 4 * count, x, Num(BitsLow(n)), Num(BitsHigh(n)));
    words[count - 2] := Num(8 * n % WORD);
    words[count - 1] := Num(n % WORD / 0x2000_0000);
    HighWordIff(n);
    assert AllWords(Pad(text))[count - 1] == Num(BitsHigh(n));
  }

  // ----- the main loop -----

  method RunStep(op: Op, s: Regs, x: Words16) returns (r: Regs)
    ensures r == Step(op, s, x)
  {
    JsStepIsRfc(op, s, x);
    r := JsStep(op, s, x);
  }

  lemma NextStep(p: seq<Op>, i: nat, start: Regs, x: Words16)
    requires i < |p|
    ensures Exec(p, i + 1, start, x) == Step(p[i], Exec(p, i, start, x), x)
  {
  }

  method RunSteps(p: seq<Op>, start: Regs, x: Words16) returns (r: Regs)
    requires |p| == 64
    ensures r == Exec(p, 4 * |x|, start, x)
  {
    r := start;
    for i := 0 to 4 * |x|
      invariant r == Exec(p, i, start, x)
    {
      NextStep(p, i, start, x);
      r := RunStep(p[i], r, x);
    }
  }

  function AddSaved(r: Regs, saved: Regs): Regs {
    [AddUnsigned(r[0], saved[0]), AddUnsigned(r[1], saved[1]), AddUnsigned(r[2], saved[2]), AddUnsigned(r[3], saved[3])]
  }

  lemma AddSavedIsAddRegs(r: Regs, saved: Regs)
    ensures AddSaved(r, saved) == AddRegs(saved, r)
  {
    forall i | 0 <= i < 4 ensures AddUnsigned(r[i], saved[i]) == Plus(saved[i], r[i]) {
      AddIsPlus(r[i], saved[i]);
      PlusCommutes(r[i], saved[i]);
    }
  }

  method RunBlock(saved: Regs, x: Words16, ghost b: Block, ghost step: (Regs, Block) -> Regs) returns (r: Regs)
    requires x == WordsOf(b) && Agree(step, Compress)
    ensures r == step(saved, b)
  {
    r := RunTransform(saved, x, b);
    AddSavedIsAddRegs(r, saved);
    MongooseMd5.CompressResult(step, saved, b, r);
    r := AddSaved(r, saved);
  }

  method RunTransform(saved: Regs, x: Words16, ghost b: Block) returns (r: Regs)
    requires x == WordsOf(b)
    ensures MongooseMd5.TransformResult(saved, b, r)
  {
    JsProgramIsRfc();
    r := RunSteps(JsProgram(), saved, x);
  }

  lemma WordInBlock(p: seq<Byte>, n: nat, k: nat)
    requires n + 64 <= |p| && k + 4 <= 64
    ensures WordAt(p, n + k) == WordAt(p[n..n + 64], k)
  {
  }

  lemma BlockWords(p: seq<Byte>, k: nat)
    requires |p| % 4 == 0 && 4 * k + 64 <= |p|
    ensures AllWords(p)[k..k + 16] == WordsOf(p[4 * k..4 * k + 64])
  {
    var x := AllWords(p)[k..k + 16];
    forall j | 0 <= j < 16 ensures x[j] == WordsOf(p[4 * k..4 * k + 64])[j] {
      WordInBlock(p, 4 * k, 4 * j);
    }
  }

  // r is the state after the blocks before word k of the bytes p.
  ghost predicate Reached(start: Regs, x: seq<Word>, p: seq<Byte>, step: (Regs, Block) -> Regs, k: nat, r: Regs) {
    && |p| % 64 == 0 && x == AllWords(p) && Agree(step, Compress)
    && k % 16 == 0 && 4 * k <= |p| && r == Fold(step, start, p[..4 * k])
  }

  lemma NoneReached(start: Regs, x: seq<Word>, p: seq<Byte>, step: (Regs, Block) -> Regs)
    requires |p| % 64 == 0 && x == AllWords(p) && Agree(step, Compress)
    ensures Reached(start, x, p, step, 0, start)
  {
  }

  lemma AllReached(start: Regs, x: seq<Word>, p: seq<Byte>, step: (Regs, Block) -> Regs, k: nat, r: Regs)
    requires Reached(start, x, p, step, k, r) && k >= |x|
    ensures r == Fold(step, start, p)
  {
    assert p[..4 * k] == p;
  }

  method RunBlocks(start: Regs, x: seq<Word>, ghost p: seq<Byte>, ghost step: (Regs, Block) -> Regs)
      returns (r: Regs)
    requires |p| % 64 == 0 && x == AllWords(p) && Agree(step, Compress)
    ensures r == Fold(step, start, p)
  {
    r := start;
    var k := 0;
    NoneReached(start, x, p, step);
    while k < |x|
      invariant Reached(start, x, p, step, k, r)
    {
      r := RunNext(x, k, r, start, p, step);
      k := k + 16;
    }
    AllReached(start, x, p, step, k, r);
  }

  lemma RoomForBlock(n: nat, k: nat)
    requires n % 64 == 0 && k % 16 == 0 && k < n / 4
    ensures 4 * k + 64 <= n && k + 16 <= n / 4 && (k + 16) % 16 == 0
  {
  }

  lemma NextReached(start: Regs, x: seq<Word>, p: seq<Byte>, step: (Regs, Block) -> Regs, k: nat, s: Regs)
    requires Reached(start, x, p, step, k, s) && 4 * k + 64 <= |p|
    ensures Reached(start, x, p, step, k + 16, step(s, p[4 * k..4 * k + 64]))
  {
    NextBlock(step, start, p, 4 * k);
    assert 4 * (k + 16) == 4 * k + 64;
  }

  lemma WordsReady(x: seq<Word>, p: seq<Byte>, k: nat)
    requires |p| % 64 == 0 && x == AllWords(p) && k % 16 == 0 && k < |x|
    ensures 4 * k + 64 <= |p| && k + 16 <= |x| && x[k..k + 16] == WordsOf(p[4 * k..4 * k + 64])
  {
    RoomForBlock(|p|, k);
    BlockWords(p, k);
  }

  // The block whose words come next.
  lemma BlockReady(start: Regs, x: seq<Word>, p: seq<Byte>, step: (Regs, Block) -> Regs, k: nat, s: Regs)
      returns (b: Block)
    requires Reached(start, x, p, step, k, s) && k < |x|
    ensures k + 16 <= |x| && x[k..k + 16] == WordsOf(b) && Agree(step, Compress)
    ensures Reached(start, x, p, step, k + 16, step(s, b))
  {
    WordsReady(x, p, k);
    NextReached(start, x, p, step, k, s);
    b := p[4 * k..4 * k + 64];
  }

  method RunNext(x: seq<Word>, k: nat, s: Regs, ghost start: Regs, ghost p: seq<Byte>, ghost step: (Regs, Block) -> Regs)
      returns (r: Regs)
    requires Reached(start, x, p, step, k, s) && k < |x|
    ensures Reached(start, x, p, step, k + 16, r)
  {
    ghost var b := BlockReady(start, x, p, step, k, s);
    r := RunBlock(s, x[k..k + 16], b, step);
  }

  // ----- text in and out -----

  // Number.prototype.toString(16) for a byte.
  function ToString16(n: nat): string
    requires n < 256
  {
    if n < 16 then [MongooseMd5.HexDigit(n)] else [MongooseMd5.HexDigit(n / 16), MongooseMd5.HexDigit(n % 16)]
  }

  lemma Halves(low: nat, high: nat)
    requires low < 16
    ensures (low + 16 * high) / 16 == high && (low + 16 * high) % 16 == low
  {
  }

  // temp.substr(temp.length - 2, 2) after the leading zero
  function LastTwo(n: nat): string
    requires n < 256
  {
    var temp := "0" + ToString16(n);
    temp[|temp| - 2..]
  }

  lemma TwoDigits(n: nat)
    requires n < 256
    ensures LastTwo(n) == [MongooseMd5.HexDigit(n / 16), MongooseMd5.HexDigit(n % 16)]
  {
    if n < 16 {
      assert "0"[0] == MongooseMd5.HexDigit(0);
    }
  }

  lemma ValOfByte(b: Byte)
    ensures Val(b) == MongooseMd5.Low(b) + 16 * MongooseMd5.High(b) && Val(b) < 256
  {
    assert Pow2(4) == 16 by {
      Powers();
    }
    ValAppend(b[..4], b[4..]);
    assert b == b[..4] + b[4..];
  }

  // (lValue >>> (lCount * 8)) & 255
  function ByteAt(w: Word, count: nat): Byte
    requires count < 4
  {
    w[8 * count..8 * count + 8]
  }

  lemma HalvesOf(b: Byte)
    ensures Val(b) < 256 && MongooseMd5.Low(b) == Val(b) % 16 && MongooseMd5.High(b) == Val(b) / 16
  {
    ValOfByte(b);
    Halves(MongooseMd5.Low(b), MongooseMd5.High(b));
  }

  lemma ByteInHex(b: Byte)
    ensures Val(b) < 256 && LastTwo(Val(b)) == MongooseMd5.HexPair(b)
  {
    HalvesOf(b);
    TwoDigits(Val(b));
  }

  lemma ByteOf(w: Word, count: nat)
    requires count < 4
    ensures BytesOf(w)[count] == ByteAt(w, count)
  {
    assert count == 0 || count == 1 || count == 2 || count == 3;
  }

  method WordToHex(w: Word) returns (hex: string)
    ensures hex == MongooseMd5.HexText(BytesOf(w))
  {
    ghost var bytes := BytesOf(w);
    hex := "";
    for count := 0 to 4
      invariant hex == MongooseMd5.HexText(bytes[..count])
    {
      ByteOf(w, count);
      ByteInHex(ByteAt(w, count));
      FlatMapNext(MongooseMd5.HexPair, bytes, count);
      hex := hex + LastTwo(Val(ByteAt(w, count)));
    }
    assert bytes[..4] == bytes;
  }

  // A code unit of a text, below 2^16.
  type Unit = c: nat | c < 0x1_0000

  // string.replace(/\r\n/g, "\n")
  function DropReturns(s: seq<Unit>): seq<Unit> {
    if s == [] then []
    else if |s| > 1 && s[0] == 13 && s[1] == 10 then [10] + DropReturns(s[2..])
    else [s[0]] + DropReturns(s[1..])
  }

  function Shifted(at: seq<nat>, k: nat): (r: seq<nat>)
    ensures |r| == |at|
  {
    seq(|at|, i requires 0 <= i < |at| => k + at[i])
  }

  lemma InShifted(at: seq<nat>, k: nat, i: nat)
    ensures i in Shifted(at, k) <==> i >= k && i - k in at
  {
    if i >= k && i - k in at {
      var j :| 0 <= j < |at| && at[j] == i - k;
      assert Shifted(at, k)[j] == i;
    }
  }

  // Not a CR in front of an LF.
  predicate Kept(s: seq<Unit>, i: nat)
    requires i < |s|
  {
    !(s[i] == 13 && i + 1 < |s| && s[i + 1] == 10)
  }

  lemma KeptLater(s: seq<Unit>, n: nat, i: nat)
    requires n <= |s| && i < |s|
    ensures i >= n ==> Kept(s, i) == Kept(s[n..], i - n)
  {
  }

  // r holds the units that are kept from n on; they come from the places `at`.
  ghost predicate KeptFrom(s: seq<Unit>, n: nat, at: seq<nat>, r: seq<Unit>) {
    && |at| == |r| && (forall k :: 0 <= k < |at| ==> n <= at[k] < |s| && r[k] == s[at[k]])
    && (forall j, k :: 0 <= j < k < |at| ==> at[j] < at[k])
    && (forall i :: n <= i < |s| ==> (i in at <==> Kept(s, i)))
  }

  lemma KeptShifted(s: seq<Unit>, n: nat, at: seq<nat>, r: seq<Unit>)
    requires n <= |s| && KeptFrom(s[n..], 0, at, r)
    ensures KeptFrom(s, n, Shifted(at, n), r)
  {
    forall k | 0 <= k < |at| ensures r[k] == s[Shifted(at, n)[k]] {
      assert s[n..][at[k]] == s[n + at[k]];
    }
    forall i | n <= i < |s| ensures i in Shifted(at, n) <==> Kept(s, i) {
      InShifted(at, n, i);
      KeptLater(s, n, i);
    }
  }

  lemma KeptFirst(s: seq<Unit>, n: nat, at: seq<nat>, r: seq<Unit>)
    requires 0 < n <= |s| && KeptFrom(s, n, at, r)
    requires Kept(s, n - 1) && forall i :: 0 <= i < n - 1 ==> !Kept(s, i)
    ensures KeptFrom(s, 0, [n - 1] + at, [s[n - 1]] + r)
  {
  }

  /** What the replacement keeps, in order: every unit but a CR in front of an LF. */
  lemma {:induction false} ReturnsDropped(s: seq<Unit>) returns (at: seq<nat>)
    ensures |at| == |DropReturns(s)| && forall k :: 0 <= k < |at| ==> at[k] < |s| && DropReturns(s)[k] == s[at[k]]
    ensures forall j, k :: 0 <= j < k < |at| ==> at[j] < at[k]
    ensures forall i :: 0 <= i < |s| ==> (i in at <==> !(s[i] == 13 && i + 1 < |s| && s[i + 1] == 10))
  {
    at := PlacesKept(s);
    assert forall i :: 0 <= i < |s| ==> (Kept(s, i) <==> !(s[i] == 13 && i + 1 < |s| && s[i + 1] == 10));
  }

  lemma {:induction false} PlacesKept(s: seq<Unit>) returns (at: seq<nat>)
    ensures KeptFrom(s, 0, at, DropReturns(s))
    decreases |s|
  {
    at := [];
    if s != [] {
      var n := if |s| > 1 && s[0] == 13 && s[1] == 10 then 2 else 1;
      var rest := PlacesKept(s[n..]);
      KeptShifted(s, n, rest, DropReturns(s[n..]));
      KeptFirst(s, n, Shifted(rest, n), DropReturns(s[n..]));
      at := [n - 1] + Shifted(rest, n);
    }
  }

  // The values joined by | below have no bit in common.
  function Encoded(c: Unit): seq<Byte> {
    if c < 128 then [ToBits(8, c)]
    else if c < 2048 then [ToBits(8, c / 64 + 192), ToBits(8, c % 64 + 128)]
    else [ToBits(8, c / 4096 + 224), ToBits(8, c / 64 % 64 + 128), ToBits(8, c % 64 + 128)]
  }

  function EncodedAll(s: seq<Unit>): seq<Byte> {
    FlatMap(Encoded, s)
  }

  method Utf8Encode(text: seq<Unit>) returns (utf: seq<Byte>)
    ensures utf == EncodedAll(DropReturns(text))
    ensures Utf8Decoded(utf) == Characters(DropReturns(text)) <==> !HasSurrogate(text)
  {
    var s := DropReturns(text);
    utf := [];
    for n := 0 to |s|
      invariant utf == EncodedAll(s[..n])
    {
      FlatMapNext(Encoded, s, n);
      utf := utf + Encoded(s[n]);
    }
    assert s[..|s|] == s;
    Utf8Exactly(s);
    ReturnsAreNoSurrogates(text);
  }

  /** The digest computed in the browser is the digest RFC 1321 defines for the
      encoded text, whenever its padding is that of RFC 1321. */
  method MD5(text: seq<Unit>) returns (hex: string)
    ensures var utf := EncodedAll(DropReturns(text));
      && hex == MongooseMd5.HexText(DigestOf(Fold(Compress, InitialRegs(), JsPad(utf))))
      && (|utf| % 0x2000_0000_0000_0000 < WORD ==> hex == MongooseMd5.HexText(Digest(utf)))
  {
    var utf := Utf8Encode(text);
    var x := ConvertToWordArray(utf);
    StartValues();
    var r := RunBlocks([Num(0x67452301), Num(0xEFCDAB89), Num(0x98BADCFE), Num(0x10325476)], x[..], JsPad(utf), Compress);
    hex := RegsToHex(r);
    JsPadIff(utf);
  }

  method RegsToHex(r: Regs) returns (hex: string)
    ensures hex == MongooseMd5.HexText(DigestOf(r))
  {
    var a := WordToHex(r[0]);
    var b := WordToHex(r[1]);
    var c := WordToHex(r[2]);
    var d := WordToHex(r[3]);
    hex := a + b + c + d;
    var (u, v, w, x) := (BytesOf(r[0]), BytesOf(r[1]), BytesOf(r[2]), BytesOf(r[3]));
    FlatMapAppend(MongooseMd5.HexPair, u, v);
    FlatMapAppend(MongooseMd5.HexPair, u + v, w);
    FlatMapAppend(MongooseMd5.HexPair, u + v + w, x);
  }

  // ----- the bytes as UTF-8 -----

  predicate Surrogate(c: nat) {
    0xD800 <= c < 0xE000
  }

  predicate HasSurrogate(s: seq<Unit>) {
    exists i :: 0 <= i < |s| && Surrogate(s[i])
  }

  lemma HasSurrogateIff(s: seq<Unit>, k: nat)
    requires k <= |s|
    ensures HasSurrogate(s) <==> HasSurrogate(s[..k]) || HasSurrogate(s[k..])
  {
    if i :| 0 <= i < |s| && Surrogate(s[i]) {
      assert if i < k then Surrogate(s[..k][i]) else Surrogate(s[k..][i - k]);
    }
  }

  lemma {:induction false} ReturnsAreNoSurrogates(s: seq<Unit>)
    ensures HasSurrogate(DropReturns(s)) <==> HasSurrogate(s)
    decreases |s|
  {
    if s != [] {
      var k := if |s| > 1 && s[0] == 13 && s[1] == 10 then 2 else 1;
      var first := if k == 2 then 10 else s[0];
      var r := DropReturns(s);
      assert r == [first] + DropReturns(s[k..]) && r[..1] == [first] && r[1..] == DropReturns(s[k..]);
      ReturnsAreNoSurrogates(s[k..]);
      HasSurrogateIff(s, k);
      HasSurrogateIff(r, 1);
      assert [first][0] == first && (k == 1 ==> s[..k] == [first]);
    }
  }

  /** The characters of a text of 16-bit units (section 2.2 of RFC 2781): surrogate
      pairs are joined; a surrogate without a partner stays as it is. */
  function Characters(s: seq<Unit>): seq<nat> {
    if s == [] then []
    else if IsPair(s) then [Joined(s[0], s[1])] + Characters(s[2..])
    else [s[0]] + Characters(s[1..])
  }

  function Joined(high: nat, low: nat): nat
    requires 0xD800 <= high && 0xDC00 <= low
  {
    0x1_0000 + (high - 0xD800) * 0x400 + (low - 0xDC00)
  }

  predicate IsPair(s: seq<Unit>) {
    |s| > 1 && 0xD800 <= s[0] < 0xDC00 && 0xDC00 <= s[1] < 0xE000
  }

  // Section 2.1 of RFC 2781.
  function UnitsOf(c: nat): seq<Unit>
    requires c <= 0x10_FFFF
  {
    if c < 0x1_0000 then [c] else [0xD800 + (c - 0x1_0000) / 0x400, 0xDC00 + (c - 0x1_0000) % 0x400]
  }

  function UnitsOfAll(cs: seq<nat>): seq<Unit>
    requires forall i :: 0 <= i < |cs| ==> cs[i] <= 0x10_FFFF
  {
    if cs == [] then [] else UnitsOf(cs[0]) + UnitsOfAll(cs[1..])
  }

  /** A surrogate is a unit of a pair. */
  lemma SurrogateIff(u: Unit)
    ensures Surrogate(u) <==> exists c :: 0x1_0000 <= c <= 0x10_FFFF && u in UnitsOf(c)
  {
    if 0xD800 <= u < 0xDC00 {
      var c := 0x1_0000 + (u as int - 0xD800) * 0x400;
      assert UnitsOf(c)[0] == u;
    } else if 0xDC00 <= u < 0xE000 {
      var c := 0x1_0000 + (u as int - 0xDC00);
      assert UnitsOf(c)[1] == u;
    }
  }

  /** The characters of the UTF-16 form of some characters are these. */
  lemma {:induction false} CharactersOfUnits(cs: seq<nat>)
    requires forall i :: 0 <= i < |cs| ==> cs[i] <= 0x10_FFFF && !Surrogate(cs[i])
    ensures Characters(UnitsOfAll(cs)) == cs
  {
    if cs != [] {
      CharactersOfUnits(cs[1..]);
      FirstUnits(cs[0], UnitsOfAll(cs[1..]));
    }
  }

  lemma FirstUnits(c: nat, t: seq<Unit>)
    requires c <= 0x10_FFFF && !Surrogate(c)
    ensures Characters(UnitsOf(c) + t) == [c] + Characters(t)
  {
    var s := UnitsOf(c) + t;
    if c < 0x1_0000 {
      assert s[1..] == t;
    } else {
      var d := c - 0x1_0000;
      assert d == d / 0x400 * 0x400 + d % 0x400;
      assert s[2..] == t;
    }
  }

  predicate Continuation(v: nat) {
    0x80 <= v < 0xC0
  }

  /** One character of section 4 of RFC 3629 at the start of some byte values: its
      number and its length, or 0xFFFD for a byte that starts no character. */
  function FirstOf(v: seq<nat>): (r: (nat, nat))
    requires v != []
    ensures 0 < r.1 <= |v| && !Surrogate(r.0)
  {
    if v[0] < 0x80 then (v[0], 1)
    else if 0xC2 <= v[0] < 0xE0 && |v| > 1 && Continuation(v[1]) then ((v[0] - 0xC0) * 0x40 + (v[1] - 0x80), 2)
    else if 0xE0 <= v[0] < 0xF0 && |v| > 2 && Continuation(v[1]) && Continuation(v[2]) then
      var c := ((v[0] - 0xE0) * 0x40 + (v[1] - 0x80)) * 0x40 + (v[2] - 0x80);
      if c < 0x800 || Surrogate(c) then (0xFFFD, 1) else (c, 3)
    else if 0xF0 <= v[0] < 0xF5 && |v| > 3 && Continuation(v[1]) && Continuation(v[2]) && Continuation(v[3]) then
      var c := (((v[0] - 0xF0) * 0x40 + (v[1] - 0x80)) * 0x40 + (v[2] - 0x80)) * 0x40 + (v[3] - 0x80);
      if c < 0x1_0000 || c > 0x10_FFFF then (0xFFFD, 1) else (c, 4)
    else (0xFFFD, 1)
  }

  predicate Scalar(c: nat) {
    c <= 0x10_FFFF && !Surrogate(c)
  }

  // The table of section 3 of RFC 3629.
  function Utf8Form(c: nat): seq<nat> {
    if c < 0x80 then [c]
    else if c < 0x800 then [0xC0 + c / 0x40, 0x80 + c % 0x40]
    else if c < 0x1_0000 then [0xE0 + c / 0x1000, 0x80 + c / 0x40 % 0x40, 0x80 + c % 0x40]
    else [0xF0 + c / 0x4_0000, 0x80 + c / 0x1000 % 0x40, 0x80 + c / 0x40 % 0x40, 0x80 + c % 0x40]
  }

  /** The decoder reads the form of every character, */
  lemma FormIsRead(c: nat, v: seq<nat>)
    requires Scalar(c) && Utf8Form(c) <= v
    ensures FirstOf(v) == (c, |Utf8Form(c)|)
  {
    var f := Utf8Form(c);
    assert forall i :: 0 <= i < |f| ==> v[i] == f[i];
    Quotients(c);
  }

  lemma Quotients(c: nat)
    requires c <= 0x10_FFFF
    ensures c == 0x40 * (c / 0x40) + c % 0x40 && c / 0x40 == 0x40 * (c / 0x1000) + c / 0x40 % 0x40
    ensures c / 0x1000 == 0x40 * (c / 0x4_0000) + c / 0x1000 % 0x40 && c / 0x4_0000 <= 4
  {
  }

  /** and nothing else: what it does not take for a stray byte is the form of a character. */
  lemma ReadIsForm(v: seq<nat>)
    requires v != [] && FirstOf(v) != (0xFFFD, 1)
    ensures Scalar(FirstOf(v).0) && Utf8Form(FirstOf(v).0) == v[..FirstOf(v).1]
  {
    var (c, n) := FirstOf(v);
    if n == 2 {
      Digits64(c, v[0] - 0xC0, v[1] - 0x80);
    } else if n == 3 {
      Digits64(c, (v[0] - 0xE0) * 0x40 + (v[1] - 0x80), v[2] - 0x80);
      Digits64(c / 0x40, v[0] - 0xE0, v[1] - 0x80);
    } else if n == 4 {
      var high := (v[0] - 0xF0) * 0x40 + (v[1] - 0x80);
      Digits64(c, high * 0x40 + (v[2] - 0x80), v[3] - 0x80);
      Digits64(c / 0x40, high, v[2] - 0x80);
      Digits64(high, v[0] - 0xF0, v[1] - 0x80);
      Quotients(c);
    }
  }

  lemma Digits64(n: nat, high: nat, low: nat)
    requires n == 0x40 * high + low && low < 0x40
    ensures n / 0x40 == high && n % 0x40 == low
  {
  }

  function ByteValues(b: seq<Byte>): (v: seq<nat>)
    ensures |v| == |b|
  {
    seq(|b|, i requires 0 <= i < |b| => Val(b[i]))
  }

  function FirstCharacter(b: seq<Byte>): (r: (nat, nat))
    requires b != []
    ensures 0 < r.1 <= |b| && !Surrogate(r.0)
  {
    FirstOf(ByteValues(b))
  }

  function Utf8Decoded(b: seq<Byte>): seq<nat> {
    if b == [] then [] else [FirstCharacter(b).0] + Utf8Decoded(b[FirstCharacter(b).1..])
  }

  lemma ValOfNumByte(n: nat)
    requires n < 256
    ensures Val(ToBits(8, n)) == n
  {
    Powers();
    ValOfToBits(8, n);
  }

  // The numbers of the bytes written for a character.
  function Leads(c: Unit): seq<nat> {
    if c < 128 then [c]
    else if c < 2048 then [c / 64 + 192, c % 64 + 128]
    else [c / 4096 + 224, c / 64 % 64 + 128, c % 64 + 128]
  }

  lemma LeadsDecode(c: Unit, v: seq<nat>)
    requires !Surrogate(c) && Leads(c) <= v
    ensures FirstOf(v) == (c, |Leads(c)|)
  {
    assert v[0] == Leads(c)[0];
    if 128 <= c < 2048 {
      assert v[1] == Leads(c)[1];
      TwoParts(c, c / 64, c % 64);
    } else if c >= 2048 {
      assert v[1] == Leads(c)[1] && v[2] == Leads(c)[2];
      TwoParts(c, c / 64, c % 64);
      TwoParts(c / 64, c / 4096, c / 64 % 64);
    }
  }

  lemma TwoParts(c: nat, high: nat, low: nat)
    requires c == 64 * high + low && low < 64
    ensures (high + 192 - 0xC0) * 0x40 + (low + 128 - 0x80) == c && Continuation(low + 128)
  {
  }

  lemma EncodedValues(c: Unit, t: seq<Byte>)
    ensures |Encoded(c)| == |Leads(c)| && Leads(c) <= ByteValues(Encoded(c) + t)
  {
    forall i | 0 <= i < |Leads(c)| ensures Val(Encoded(c)[i]) == Leads(c)[i] {
      ValOfNumByte(Leads(c)[i]);
    }
  }

  // What a unit becomes: the three bytes of a surrogate start no character.
  function ReadBack(c: Unit): seq<nat> {
    if Surrogate(c) then [0xFFFD, 0xFFFD, 0xFFFD] else [c]
  }

  lemma CharacterDecodes(c: Unit, t: seq<Byte>)
    requires !Surrogate(c)
    ensures Utf8Decoded(Encoded(c) + t) == [c] + Utf8Decoded(t)
  {
    EncodedValues(c, t);
    LeadsDecode(c, ByteValues(Encoded(c) + t));
    assert (Encoded(c) + t)[|Encoded(c)|..] == t;
  }

  lemma LeadsOfSurrogate(c: Unit, v: seq<nat>)
    requires Surrogate(c) && Leads(c) <= v
    ensures FirstOf(v) == (0xFFFD, 1) && |v| > 2 && Continuation(v[1]) && Continuation(v[2])
  {
    assert v[0] == Leads(c)[0] && v[1] == Leads(c)[1] && v[2] == Leads(c)[2];
    TwoParts(c, c / 64, c % 64);
    TwoParts(c / 64, c / 4096, c / 64 % 64);
  }

  lemma StrayByte(b: Byte, t: seq<Byte>)
    requires Continuation(Val(b))
    ensures Utf8Decoded([b] + t) == [0xFFFD] + Utf8Decoded(t)
  {
    assert ByteValues([b] + t)[0] == Val(b);
    assert ([b] + t)[1..] == t;
  }

  lemma SurrogateBytes(c: Unit, t: seq<Byte>)
    requires Surrogate(c)
    ensures var e := Encoded(c);
      |e| == 3 && Continuation(Val(e[1])) && Continuation(Val(e[2])) && FirstCharacter(e + t) == (0xFFFD, 1)
  {
    var e := Encoded(c);
    EncodedValues(c, t);
    LeadsOfSurrogate(c, ByteValues(e + t));
    assert ByteValues(e + t)[1] == Val(e[1]) && ByteValues(e + t)[2] == Val(e[2]);
  }

  lemma ThreeStray(e: seq<Byte>, t: seq<Byte>)
    requires |e| == 3 && Continuation(Val(e[1])) && Continuation(Val(e[2])) && FirstCharacter(e + t) == (0xFFFD, 1)
    ensures Utf8Decoded(e + t) == [0xFFFD] + ([0xFFFD] + ([0xFFFD] + Utf8Decoded(t)))
  {
    assert (e + t)[1..] == [e[1]] + ([e[2]] + t);
    StrayByte(e[1], [e[2]] + t);
    StrayByte(e[2], t);
  }

  lemma SurrogateDecodes(c: Unit, t: seq<Byte>)
    requires Surrogate(c)
    ensures Utf8Decoded(Encoded(c) + t) == ReadBack(c) + Utf8Decoded(t)
  {
    SurrogateBytes(c, t);
    ThreeStray(Encoded(c), t);
    assert [0xFFFD] + ([0xFFFD] + ([0xFFFD] + Utf8Decoded(t))) == ReadBack(c) + Utf8Decoded(t);
  }

  lemma UnitDecodes(c: Unit, t: seq<Byte>)
    ensures Utf8Decoded(Encoded(c) + t) == ReadBack(c) + Utf8Decoded(t)
  {
    if Surrogate(c) {
      SurrogateDecodes(c, t);
    } else {
      CharacterDecodes(c, t);
    }
  }

  /** What a decoder makes of the bytes: each unit back, but each surrogate as three
      replacement characters. */
  lemma {:induction false} Utf8ReadBack(s: seq<Unit>, t: seq<Byte>)
    ensures Utf8Decoded(EncodedAll(s) + t) == FlatMap(ReadBack, s) + Utf8Decoded(t)
    decreases |s|
  {
    if s == [] {
      assert EncodedAll(s) + t == t && FlatMap(ReadBack, s) + Utf8Decoded(t) == Utf8Decoded(t);
    } else {
      var c := s[|s| - 1];
      Utf8ReadBack(s[..|s| - 1], Encoded(c) + t);
      UnitDecodes(c, t);
      LastEncoded(s, t);
      LastReadBack(s, Utf8Decoded(t));
    }
  }

  lemma LastReadBack(s: seq<Unit>, rest: seq<nat>)
    requires s != []
    ensures FlatMap(ReadBack, s[..|s| - 1]) + (ReadBack(s[|s| - 1]) + rest) == FlatMap(ReadBack, s) + rest
  {
  }

  lemma LastEncoded(s: seq<Unit>, t: seq<Byte>)
    requires s != []
    ensures EncodedAll(s) + t == EncodedAll(s[..|s| - 1]) + (Encoded(s[|s| - 1]) + t)
  {
  }

  lemma {:induction false} ReadBackIsSmall(s: seq<Unit>, i: nat)
    requires i < |FlatMap(ReadBack, s)|
    ensures FlatMap(ReadBack, s)[i] < 0x1_0000 && !Surrogate(FlatMap(ReadBack, s)[i])
  {
    var first := FlatMap(ReadBack, s[..|s| - 1]);
    if i < |first| {
      ReadBackIsSmall(s[..|s| - 1], i);
    }
  }

  lemma {:induction false} ReadBackPlain(s: seq<Unit>)
    requires !HasSurrogate(s)
    ensures FlatMap(ReadBack, s) == s
  {
    if s != [] {
      HasSurrogateIff(s, |s| - 1);
      ReadBackPlain(s[..|s| - 1]);
      assert !Surrogate(s[|s| - 1]);
    }
  }

  lemma {:induction false} CharactersPlain(s: seq<Unit>)
    requires !HasSurrogate(s)
    ensures Characters(s) == s
  {
    if s != [] {
      HasSurrogateIff(s, 1);
      CharactersPlain(s[1..]);
      assert !Surrogate(s[0]);
    }
  }

  // Of a surrogate there is a trace among the characters.
  lemma {:induction false} SurrogateShows(s: seq<Unit>) returns (j: nat)
    requires HasSurrogate(s)
    ensures j < |Characters(s)| && (Characters(s)[j] >= 0x1_0000 || Surrogate(Characters(s)[j]))
    decreases |s|
  {
    if IsPair(s) || Surrogate(s[0]) {
      j := 0;
    } else {
      HasSurrogateIff(s, 1);
      assert s[..1][0] == s[0];
      j := SurrogateShows(s[1..]);
      j := j + 1;
    }
  }

  /** The bytes are the UTF-8 form of the characters of the text exactly when it has
      no surrogates: neither a pair nor a single one comes through. */
  lemma Utf8Exactly(s: seq<Unit>)
    ensures Utf8Decoded(EncodedAll(s)) == Characters(s) <==> !HasSurrogate(s)
  {
    Utf8ReadBack(s, []);
    assert EncodedAll(s) + [] == EncodedAll(s) && FlatMap(ReadBack, s) + [] == FlatMap(ReadBack, s);
    if HasSurrogate(s) {
      var j := SurrogateShows(s);
      if FlatMap(ReadBack, s) == Characters(s) {
        ReadBackIsSmall(s, j);
      }
    } else {
      ReadBackPlain(s);
      CharactersPlain(s);
    }
  }

  // Text of characters below 128 without CR LF is its own UTF-8 form.
  predicate PlainText(s: seq<Unit>) {
    (forall i :: 0 <= i < |s| ==> s[i] < 128) && forall i :: 0 < i < |s| ==> !(s[i - 1] == 13 && s[i] == 10)
  }

  function AsBytes(s: seq<Unit>): (b: seq<Byte>)
    ensures |b| == |s|
  {
    seq(|s|, i requires 0 <= i < |s| => ToBits(8, s[i]))
  }

  lemma {:induction false} PlainHasNoReturns(s: seq<Unit>)
    requires PlainText(s)
    ensures DropReturns(s) == s
  {
    if s != [] {
      assert forall i :: 0 <= i < |s[1..]| ==> s[1..][i] == s[i + 1];
      PlainHasNoReturns(s[1..]);
      if |s| > 1 {
        assert !(s[1 - 1] == 13 && s[1] == 10);
      }
    }
  }

  lemma {:induction false} PlainIsEncoded(s: seq<Unit>)
    requires forall i :: 0 <= i < |s| ==> s[i] < 128
    ensures EncodedAll(s) == AsBytes(s)
  {
    if s != [] {
      PlainIsEncoded(s[..|s| - 1]);
    }
  }

  /** On plain text, in whatever pieces the server takes it, both sides compute
      the same hexadecimal digest. */
  method SameDigest(text: seq<Unit>, chunks: seq<seq<Byte>>) returns (client: string, server: string)
    requires PlainText(text) && Concat(chunks) == AsBytes(text) && |text| % 0x2000_0000_0000_0000 < WORD
    requires forall i :: 0 <= i < |chunks| ==> |chunks[i]| < WORD
    ensures client == server == MongooseMd5.HexText(Digest(AsBytes(text)))
  {
    PlainHasNoReturns(text);
    PlainIsEncoded(text);
    client := MD5(text);
    server := MongooseMd5.MgMd5(chunks);
  }
}
