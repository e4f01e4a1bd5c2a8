/** Digests that work block by block, 64 bytes at a time: folding a step function
    over a message, and the padding common to MD5 and SHA-1. */
module BlockHash {
  import opened Words

  type Block = b: seq<Byte> | |b| == 64 witness seq(64, _ => Fill(8, false))

  // The state after all blocks of m, one after the other; m is made of whole blocks.
  function Fold<S>(f: (S, Block) -> S, s: S, m: seq<Byte>): S
    decreases |m|
  {
    if |m| < 64 then s else f(Fold(f, s, m[..|m| - 64]), m[|m| - 64..])
  }

  lemma FoldBlock<S>(f: (S, Block) -> S, s: S, m: seq<Byte>, b: Block)
    ensures Fold(f, s, m + b) == f(Fold(f, s, m), b)
  {
    assert (m + b)[..|m|] == m && (m + b)[|m|..] == b;
  }

  lemma NextBlock<S>(f: (S, Block) -> S, s: S, all: seq<Byte>, n: nat)
    requires n + 64 <= |all|
    ensures Fold(f, s, all[..n + 64]) == f(Fold(f, s, all[..n]), all[n..n + 64])
  {
    assert all[..n + 64] == all[..n] + all[n..n + 64];
    FoldBlock(f, s, all[..n], all[n..n + 64]);
  }

  // The proofs about buffering do not need to know what the block function does:
  // it is some function f that agrees with the one of the standard, g.
  ghost predicate Agree<S(!new)>(f: (S, Block) -> S, g: (S, Block) -> S) {
    forall s: S, b: Block {:trigger g(s, b)} :: f(s, b) == g(s, b)
  }

  lemma {:induction false} SameFold<S(!new)>(f: (S, Block) -> S, g: (S, Block) -> S, s: S, m: seq<Byte>)
    requires Agree(f, g)
    ensures Fold(f, s, m) == Fold(g, s, m)
    decreases |m|
  {
    if |m| >= 64 {
      var n := |m| - 64;
      SameFold(f, g, s, m[..n]);
      assert g(Fold(g, s, m[..n]), m[n..]) == f(Fold(g, s, m[..n]), m[n..]);
    }
  }

  // The whole blocks of a message and the bytes left over.
  function WholeLength(m: seq<Byte>): (n: nat)
    ensures n <= |m| < n + 64
  {
    64 * (|m| / 64)
  }

  function Whole(m: seq<Byte>): seq<Byte> {
    m[..WholeLength(m)]
  }

  function Left(m: seq<Byte>): (t: seq<Byte>)
    ensures |t| < 64
  {
    m[WholeLength(m)..]
  }

  lemma LeftLength(m: seq<Byte>)
    ensures |Left(m)| == |m| % 64
  {
  }

  lemma WholeLengthIs(m: seq<Byte>, k: nat)
    requires 64 * k <= |m| < 64 * k + 64
    ensures WholeLength(m) == 64 * k
  {
  }

  // Data that does not fill the block in progress.
  lemma AppendShort(m: seq<Byte>, data: seq<Byte>)
    requires |Left(m)| + |data| < 64
    ensures Whole(m + data) == Whole(m) && Left(m + data) == Left(m) + data
  {
    WholeLengthIs(m + data, |m| / 64);
  }

  // Data that completes the block in progress.
  lemma BlockAcross(m: seq<Byte>, data: seq<Byte>, all: seq<Byte>)
    requires |Left(m)| + |data| == 64 && m + data <= all
    ensures var n := WholeLength(m); all[..n] == Whole(m) && all[n..n + 64] == Left(m) + data
  {
  }

  lemma BlockWithin(m: seq<Byte>, data: seq<Byte>, i: nat, k: nat)
    requires |m| + i == 64 * k && i + 64 <= |data|
    ensures data[i..i + 64] == (m + data)[64 * k..64 * k + 64] && 64 * k + 64 <= |m + data|
  {
  }

  lemma WholeOfBlocks(m: seq<Byte>)
    requires |m| % 64 == 0
    ensures Whole(m) == m
  {
  }

  // A one bit, zero bits up to 8 bytes before the end of a block, the length.
  function Zeros(n: nat): (z: seq<Byte>)
    ensures |z| == n
  {
    seq(n, _ => Fill(8, false))
  }

  function ZeroCount(n: nat): (z: nat)
    ensures (n + 1 + z + 8) % 64 == 0 && z < 64
  {
    if n % 64 < 56 then 55 - n % 64 else 119 - n % 64
  }

  // The first bit of a byte is its high-order bit.
  const ONE_BIT: Byte := [false, false, false, false, false, false, false, true]

  // The byte 0x80 of the sources.
  lemma OneBitIs()
    ensures ToBits(8, 0x80) == ONE_BIT
  {
    assert Val(ONE_BIT) == 0x80;
    ToBitsOfVal(ONE_BIT);
  }

  function PadPrefix(m: seq<Byte>): (p: seq<Byte>)
    ensures (|p| + 8) % 64 == 0
  {
    m + [ONE_BIT] + Zeros(ZeroCount(|m|))
  }

  function Padded(m: seq<Byte>, length: seq<Byte>): (p: seq<Byte>)
    requires |length| == 8
    ensures |p| % 64 == 0
  {
    PadPrefix(m) + length
  }

  // The padding completes the block in progress, or it and one more.
  lemma PadPrefixBlocks(m: seq<Byte>)
    ensures |Left(m)| < 56 ==> PadPrefix(m) == Whole(m) + (Left(m) + [ONE_BIT] + Zeros(55 - |Left(m)|))
    ensures |Left(m)| >= 56 ==> PadPrefix(m) == Whole(m) + (Left(m) + [ONE_BIT] + Zeros(63 - |Left(m)|)) + Zeros(56)
  {
    LeftLength(m);
    assert m == Whole(m) + Left(m);
    if |Left(m)| >= 56 {
      assert Zeros(ZeroCount(|m|)) == Zeros(63 - |Left(m)|) + Zeros(56);
    }
  }

  // The two 32-bit halves of the length in bits, modulo 2^64.
  function BitsLow(n: nat): nat {
    8 * n % WORD
  }

  function BitsHigh(n: nat): nat {
    8 * n / WORD % WORD
  }

  // The byte position in the block in progress, from the low counter.
  lemma ByteCount(n: nat)
    ensures BitsLow(n) / 8 % 64 == n % 64
  {
    var q, r := n / 0x2000_0000, n % 0x2000_0000;
    Split(8 * n, q, 8 * r);
    Split64(n, 0x80_0000 * q + r / 64, r % 64);
  }

  lemma Split64(t: nat, q: nat, r: nat)
    requires t == 64 * q + r && r < 64
    ensures t % 64 == r
  {
  }

  lemma PositionOf(m: seq<Byte>)
    ensures BitsLow(|m|) / 8 % 64 == |Left(m)|
  {
    ByteCount(|m|);
    LeftLength(m);
  }

  // Counting the bits of n + len bytes with two 32-bit counters and a carry.
  lemma CountBits(n: nat, len: nat, low: nat, high: nat)
    requires len < WORD && low == (BitsLow(n) + 8 * len % WORD) % WORD
    requires high == ((if low < BitsLow(n) then (BitsHigh(n) + 1) % WORD else BitsHigh(n)) + len / 0x2000_0000) % WORD
    ensures BitsLow(n + len) == low && BitsHigh(n + len) == high
  {
    var nlow, nhigh := 8 * n % WORD, 8 * n / WORD;
    var dlow, dhigh := 8 * (len % 0x2000_0000), len / 0x2000_0000;
    Split(8 * len, dhigh, dlow);
    var carry := if nlow + dlow >= WORD then 1 else 0;
    Split(nlow + dlow, carry, nlow + dlow - carry * WORD);
    Split(8 * (n + len), nhigh + dhigh + carry, nlow + dlow - carry * WORD);
    AddMod(nhigh, carry);
    AddMod(nhigh + carry, dhigh);
  }

  // The counters after len more bytes, as both update functions compute them.
  method CountLength(len: nat, low: nat, high: nat, ghost n: nat) returns (low': nat, high': nat)
    requires len < WORD && low == BitsLow(n) && high == BitsHigh(n)
    ensures low' == BitsLow(n + len) && high' == BitsHigh(n + len)
  {
    low', high' := (low + 8 * len % WORD) % WORD, high;
    if low' < low {
      high' := (high' + 1) % WORD;
    }
    high' := (high' + len / 0x2000_0000) % WORD;
    CountBits(n, len, low', high');
  }
}
