/** 32-bit words as bit strings, least significant bit first, with the operators
    of C and JavaScript on them. */
module Words {

  type Bits = seq<bool>

  type Byte = b: Bits | |b| == 8 witness seq(8, _ => false)

  type Word = w: Bits | |w| == 32 witness seq(32, _ => false)

  const WORD := 0x1_0000_0000

  function Pow2(k: nat): (p: nat)
    ensures p > 0
  {
    if k == 0 then 1 else 2 * Pow2(k - 1)
  }

  // The number a bit string stands for, and back.
  function Val(s: Bits): nat {
    if s == [] then 0 else (if s[0] then 1 else 0) + 2 * Val(s[1..])
  }

  function Bit(n: nat, i: nat): bool {
    if i == 0 then n % 2 == 1 else Bit(n / 2, i - 1)
  }

  function ToBits(k: nat, n: nat): (s: Bits)
    ensures |s| == k
  {
    seq(k, i requires 0 <= i < k => Bit(n, i))
  }

  function Num(n: nat): Word {
    ToBits(32, n)
  }

  function Fill(k: nat, b: bool): (s: Bits)
    ensures |s| == k && forall i :: 0 <= i < k ==> s[i] == b
  {
    seq(k, _ => b)
  }

  function And(x: Word, y: Word): Word {
    seq(32, i requires 0 <= i < 32 => x[i] && y[i])
  }

  function Or(x: Word, y: Word): Word {
    seq(32, i requires 0 <= i < 32 => x[i] || y[i])
  }

  function Xor(x: Word, y: Word): Word {
    seq(32, i requires 0 <= i < 32 => x[i] != y[i])
  }

  function Not(x: Word): Word {
    seq(32, i requires 0 <= i < 32 => !x[i])
  }

  function Shl(x: Word, s: nat): Word
    requires s <= 32
  {
    Fill(s, false) + x[..32 - s]
  }

  function Shr(x: Word, s: nat): Word
    requires s <= 32
  {
    x[s..] + Fill(s, false)
  }

  // Addition of unsigned 32-bit integers wraps around.
  function Plus(x: Word, y: Word): Word {
    Num((Val(x) + Val(y)) % WORD)
  }

  // ----- numbers and bit strings -----

  lemma LowestBit(k: nat, n: nat)
    requires k > 0
    ensures ToBits(k, n) == [n % 2 == 1] + ToBits(k - 1, n / 2)
  {
  }

  lemma {:induction false} ToBitsOfVal(s: Bits)
    ensures ToBits(|s|, Val(s)) == s
  {
    if s != [] {
      ToBitsOfVal(s[1..]);
      LowestBit(|s|, Val(s));
      assert s == [s[0]] + s[1..];
    }
  }

  lemma {:induction false} ValOfToBits(k: nat, n: nat)
    requires n < Pow2(k)
    ensures Val(ToBits(k, n)) == n
  {
    if k > 0 {
      ValOfToBits(k - 1, n / 2);
      LowestBit(k, n);
      assert ToBits(k, n)[1..] == ToBits(k - 1, n / 2);
    }
  }

  lemma {:induction false} ValBound(s: Bits)
    ensures Val(s) < Pow2(|s|)
  {
    if s != [] {
      ValBound(s[1..]);
    }
  }

  lemma {:induction false} ValAppend(a: Bits, b: Bits)
    ensures Val(a + b) == Val(a) + Pow2(|a|) * Val(b)
  {
    if a == [] {
      assert a + b == b;
    } else {
      ValAppend(a[1..], b);
      assert (a + b)[1..] == a[1..] + b;
      Doubled(Pow2(|a| - 1), Val(b));
    }
  }

  lemma Doubled(p: nat, z: nat)
    ensures (2 * p) * z == 2 * (p * z)
  {
  }

  lemma {:induction false} ValFill(k: nat)
    ensures Val(Fill(k, false)) == 0 && Val(Fill(k, true)) == Pow2(k) - 1
  {
    if k > 0 {
      ValFill(k - 1);
      assert Fill(k, false)[1..] == Fill(k - 1, false) && Fill(k, true)[1..] == Fill(k - 1, true);
    }
  }

  lemma Powers()
    ensures Pow2(4) == 16 && Pow2(8) == 256 && Pow2(16) == 0x1_0000 && Pow2(24) == 0x100_0000
    ensures Pow2(30) == 0x4000_0000 && Pow2(31) == 0x8000_0000 && Pow2(32) == WORD
  {
    assert Pow2(4) == 16;
    assert Pow2(12) == 4096;
    assert Pow2(20) == 0x10_0000;
    assert Pow2(28) == 0x1000_0000;
  }

  // ----- laws of the operators -----

  /** Both ways in which the sources write "if x then y else z". */
  lemma Choice(x: Word, y: Word, z: Word)
    ensures Xor(z, And(x, Xor(y, z))) == Or(And(x, y), And(Not(x), z))
    ensures Xor(And(x, Xor(y, z)), z) == Or(And(x, y), And(Not(x), z))
    ensures Xor(y, And(z, Xor(x, y))) == Or(And(x, z), And(y, Not(z)))
  {
  }

  /** Both ways in which the majority of three bits is written. */
  lemma Majority(x: Word, y: Word, z: Word)
    ensures Or(And(Or(x, y), z), And(x, y)) == Or(Or(And(x, y), And(x, z)), And(y, z))
  {
  }

  lemma ValOfNum(n: nat)
    requires n < WORD
    ensures Val(Num(n)) == n
  {
    Powers();
    ValOfToBits(32, n);
  }

  lemma NumOfBytes(b0: Byte, b1: Byte, b2: Byte, b3: Byte, n: nat)
    requires n == Val(b0) + 0x100 * Val(b1) + 0x1_0000 * Val(b2) + 0x100_0000 * Val(b3)
    ensures var low: Bits := b0; Num(n) == low + b1 + b2 + b3
  {
    var low: Bits := b0;
    assert Pow2(8) == 256 && Pow2(16) == 0x1_0000 && Pow2(24) == 0x100_0000 by {
      Powers();
    }
    ValAppend(low, b1);
    ValAppend(low + b1, b2);
    ValAppend(low + b1 + b2, b3);
    ToBitsOfVal(low + b1 + b2 + b3);
  }

  lemma ValPlus(x: Word, y: Word)
    ensures Val(Plus(x, y)) == (Val(x) + Val(y)) % WORD
  {
    ValOfNum((Val(x) + Val(y)) % WORD);
  }

  // A quotient and a remainder modulo 2^32.
  lemma Split(t: nat, q: nat, r: nat)
    requires t == q * WORD + r && r < WORD
    ensures t / WORD == q && t % WORD == r
  {
  }

  lemma AddMod(a: nat, b: nat)
    ensures (a % WORD + b) % WORD == (a + b) % WORD
  {
    Split(a + b, a / WORD + (a % WORD + b) / WORD, (a % WORD + b) % WORD);
  }

  lemma SumsAgree(a: nat, b: nat, c: nat)
    ensures ((a + b) % WORD + c) % WORD == (a + (b + c) % WORD) % WORD
  {
    AddMod(a + b, c);
    AddMod(b + c, a);
  }

  lemma PlusCommutes(x: Word, y: Word)
    ensures Plus(x, y) == Plus(y, x)
  {
  }

  lemma NumOfSum(x: Word, y: Word, p: nat, q: nat)
    requires Val(x) == p && Val(y) == q
    ensures Plus(x, y) == Num((p + q) % WORD)
  {
  }

  lemma PlusAssociates(x: Word, y: Word, z: Word)
    ensures Plus(Plus(x, y), z) == Plus(x, Plus(y, z))
  {
    var a, b, c := Val(x), Val(y), Val(z);
    ValPlus(x, y);
    ValPlus(y, z);
    var ab, bc := (a + b) % WORD, (b + c) % WORD;
    NumOfSum(Plus(x, y), z, ab, c);
    NumOfSum(x, Plus(y, z), a, bc);
    SumsAgree(a, b, c);
  }
}
