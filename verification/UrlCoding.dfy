/** Percent-encoding (section 2.1 of RFC 3986) in webserver/src/mongoose.c:
    mg_url_encode and mg_url_decode. */
module UrlCoding {
  import opened Sequences

  type Byte = b: nat | b < 256

  function Code(c: char): Byte
    requires c < 256 as char
  {
    c as int
  }

  predicate IsDigit(b: Byte) {
    Code('0') <= b <= Code('9')
  }

  predicate IsAlnum(b: Byte) {
    IsDigit(b) || Code('a') <= b <= Code('z') || Code('A') <= b <= Code('Z')
  }

  // strchr(dont_escape, b) finds the NUL at the end of "._-$,;~()", too.
  predicate NotEscaped(b: Byte) {
    IsAlnum(b) || b == 0 || b as char in "._-$,;~()"
  }

  const PERCENT: Byte := Code('%')
  const PLUS: Byte := Code('+')
  const SPACE: Byte := Code(' ')

  function HexDigit(n: nat): Byte
    requires n < 16
  {
    Code("0123456789abcdef"[n])
  }

  function EncodeByte(b: Byte): seq<Byte> {
    if NotEscaped(b) then [b] else [PERCENT, HexDigit(b / 16), HexDigit(b % 16)]
  }

  function Encoded(s: seq<Byte>): seq<Byte> {
    FlatMap(EncodeByte, s)
  }

  predicate IsXDigit(b: Byte) {
    IsDigit(b) || Code('a') <= b <= Code('f') || Code('A') <= b <= Code('F')
  }

  // Digits, small letters and capital letters.
  function HexValue(b: Byte): (n: nat)
    requires IsXDigit(b)
    ensures n < 16
  {
    if IsDigit(b) then b - Code('0') else if b >= Code('a') then b - Code('a') + 10 else b - Code('A') + 10
  }

  predicate Triplet(s: seq<Byte>) {
    |s| >= 3 && s[0] == PERCENT && IsXDigit(s[1]) && IsXDigit(s[2])
  }

  // How many bytes one decoded byte takes, and its value.
  function Width(s: seq<Byte>): nat {
    if Triplet(s) then 3 else 1
  }

  function DecodeFirst(s: seq<Byte>, form: bool): Byte
    requires s != []
  {
    if Triplet(s) then 16 * HexValue(s[1]) + HexValue(s[2])
    else if form && s[0] == PLUS then SPACE
    else s[0]
  }

  function Decoded(s: seq<Byte>, form: bool): seq<Byte> {
    if s == [] then [] else [DecodeFirst(s, form)] + Decoded(s[Width(s)..], form)
  }

  lemma HexBack(n: nat)
    requires n < 16
    ensures IsXDigit(HexDigit(n)) && HexValue(HexDigit(n)) == n
  {
  }

  /** The characters that stand for themselves, by their ASCII codes: letters, digits, NUL
      and . _ - $ , ; ~ ( ). All others become a percent sign and two digits. */
  lemma EncodeRule(b: Byte)
    ensures var plain := 48 <= b <= 57 || 65 <= b <= 90 || 97 <= b <= 122 || b in {0, 46, 95, 45, 36, 44, 59, 126, 40, 41};
      && (plain ==> EncodeByte(b) == [b])
      && (!plain ==> EncodeByte(b) == [37,
        if b / 16 < 10 then 48 + b / 16 else 87 + b / 16, if b % 16 < 10 then 48 + b % 16 else 87 + b % 16])
  {
  }

  /** Outside of a percent sign with two digits only a plus is special, in form mode. */
  lemma PlainRule(s: seq<Byte>, form: bool)
    requires s != [] && (s[0] != 37 || |s| < 3 || !IsXDigit(s[1]) || !IsXDigit(s[2]))
    ensures Width(s) == 1 && DecodeFirst(s, form) == if form && s[0] == 43 then 32 else s[0]
  {
  }

  /** Two digits of either case after a percent sign, by the places in their rows. */
  lemma TripletRule(s: seq<Byte>, high: nat, low: nat, form: bool)
    requires |s| >= 3 && s[0] == 37 && high < 16 && low < 16
    requires if high < 10 then s[1] == 48 + high else s[1] == 65 + (high - 10) || s[1] == 97 + (high - 10)
    requires if low < 10 then s[2] == 48 + low else s[2] == 65 + (low - 10) || s[2] == 97 + (low - 10)
    ensures Width(s) == 3 && DecodeFirst(s, form) == 16 * high + low
  {
  }

  lemma ByteDecodes(b: Byte, t: seq<Byte>, form: bool)
    ensures Decoded(EncodeByte(b) + t, form) == [b] + Decoded(t, form)
  {
    if NotEscaped(b) {
      PlainIsItself(b);
      PlainDecodes(b, t, form);
    } else {
      HexBack(b / 16);
      HexBack(b % 16);
      TripletDecodes(HexDigit(b / 16), HexDigit(b % 16), t, form);
    }
  }

  lemma PlainIsItself(b: Byte)
    requires NotEscaped(b)
    ensures b != PERCENT && b != PLUS
  {
  }

  lemma PlainDecodes(b: Byte, t: seq<Byte>, form: bool)
    requires b != PERCENT && b != PLUS
    ensures Decoded([b] + t, form) == [b] + Decoded(t, form)
  {
    assert ([b] + t)[1..] == t;
  }

  lemma TripletDecodes(high: Byte, low: Byte, t: seq<Byte>, form: bool)
    requires IsXDigit(high) && IsXDigit(low)
    ensures Decoded([PERCENT, high, low] + t, form) == [16 * HexValue(high) + HexValue(low)] + Decoded(t, form)
  {
    assert ([PERCENT, high, low] + t)[3..] == t;
  }

  /** Decoding undoes encoding, in both form modes, on every byte string. */
  lemma RoundTrip(s: seq<Byte>, form: bool)
    ensures Decoded(Encoded(s), form) == s
  {
    var decode := (t: seq<Byte>) => Decoded(t, form);
    forall b: Byte, t: seq<Byte> ensures decode(EncodeByte(b) + t) == [b] + decode(t) {
      ByteDecodes(b, t, form);
    }
    FlatMapUndone(decode, EncodeByte, s, []);
    assert Encoded(s) + [] == Encoded(s) && decode([]) == [] && s + [] == s;
  }

  lemma {:induction false} EncodedLength(s: seq<Byte>)
    ensures |Encoded(s)| <= 3 * |s|
  {
    if s != [] {
      EncodedLength(s[..|s| - 1]);
    }
  }

  lemma {:induction false} EncodedGrows(s: seq<Byte>, i: nat)
    requires i <= |s|
    ensures |Encoded(s[..i])| + (|s| - i) <= |Encoded(s)|
    decreases |s|
  {
    if i == |s| {
      assert s[..i] == s;
    } else {
      EncodedGrows(s[..|s| - 1], i);
      assert s[..|s| - 1][..i] == s[..i];
    }
  }

  // What stands for b at position j of a buffer.
  function Piece(b: Byte, j: nat, buffer: seq<Byte>): (p: seq<Byte>)
    requires j + 1 < |buffer|
    ensures 0 < |p| && j + |p| < |buffer|
  {
    if NotEscaped(b) || j + 3 < |buffer| then EncodeByte(b) else [buffer[j]]
  }

  /** What is written over `buffer`, one byte of which is kept for the NUL. In place
      of a character whose three bytes do not fit, one byte stays as it was. */
  function Written(s: seq<Byte>, buffer: seq<Byte>): (w: seq<Byte>)
    requires buffer != []
    ensures |w| < |buffer|
  {
    if s == [] then []
    else
      var w := Written(s[..|s| - 1], buffer);
      if |w| + 1 >= |buffer| then w else w + Piece(s[|s| - 1], |w|, buffer)
  }

  lemma {:induction false} WrittenIff(s: seq<Byte>, buffer: seq<Byte>)
    requires buffer != []
    ensures Written(s, buffer) == Encoded(s) <==> |Encoded(s)| < |buffer|
  {
    if s != [] && |Encoded(s)| < |buffer| {
      EncodedGrows(s, |s| - 1);
      WrittenIff(s[..|s| - 1], buffer);
    }
  }

  lemma {:induction false} WrittenFull(s: seq<Byte>, i: nat, buffer: seq<Byte>)
    requires buffer != [] && i <= |s| && |Written(s[..i], buffer)| + 1 >= |buffer|
    ensures Written(s, buffer) == Written(s[..i], buffer)
    decreases |s|
  {
    if i == |s| {
      assert s[..i] == s;
    } else {
      assert s[..|s| - 1][..i] == s[..i];
      WrittenFull(s[..|s| - 1], i, buffer);
    }
  }

  // The first i characters have been written up to j; the rest of dst is untouched.
  ghost predicate WrittenSoFar(src: seq<Byte>, i: nat, j: nat, buffer: seq<Byte>, dst: seq<Byte>) {
    && i <= |src| && j < |dst| == |buffer|
    && dst[..j] == Written(src[..i], buffer) && dst[j..] == buffer[j..]
  }

  /** The whole encoded text is written exactly when it fits before the NUL; with a
      buffer of more than three times the length it does. */
  method UrlEncode(src: seq<Byte>, dst: array<Byte>) returns (j: nat)
    requires dst.Length > 0
    modifies dst
    ensures j < dst.Length && dst[..j] == Written(src, old(dst[..]))
    ensures dst[j] == 0 && dst[j + 1..] == old(dst[j + 1..])
    ensures dst[..j] == Encoded(src) <==> |Encoded(src)| < dst.Length
    ensures dst.Length > 3 * |src| ==> dst[..j] == Encoded(src)
  {
    ghost var buffer := dst[..];
    var i := 0;
    j := 0;
    while dst.Length > 0 && i < |src| && j < dst.Length - 1
      invariant WrittenSoFar(src, i, j, buffer, dst[..])
      decreases |src| - i
    {
      WrittenNext(src, i, j, buffer, dst[..]);
      j := EncodeOne(src[i], dst, j);
      i := i + 1;
    }
    if i == |src| {
      assert src[..i] == src;
    } else {
      WrittenFull(src, i, buffer);
    }
    WrittenIff(src, buffer);
    EncodedLength(src);
    dst[j] := 0;
  }

  function Placed(buffer: seq<Byte>, j: nat, p: seq<Byte>): seq<Byte>
    requires j + |p| <= |buffer|
  {
    buffer[..j] + p + buffer[j + |p|..]
  }

  lemma WrittenNext(src: seq<Byte>, i: nat, j: nat, buffer: seq<Byte>, dst: seq<Byte>)
    requires i < |src| && j + 1 < |dst| && WrittenSoFar(src, i, j, buffer, dst)
    ensures var p := Piece(src[i], j, dst); WrittenSoFar(src, i + 1, j + |p|, buffer, Placed(dst, j, p))
  {
    assert src[..i + 1][..i] == src[..i];
    var p := Piece(src[i], j, dst);
    assert dst[j] == dst[j..][0] == buffer[j..][0];
    assert Placed(dst, j, p)[..j + |p|] == dst[..j] + p;
    assert Placed(dst, j, p)[j + |p|..] == dst[j..][|p|..] == buffer[j..][|p|..] == buffer[j + |p|..];
  }

  // One character.
  method EncodeOne(b: Byte, dst: array<Byte>, j: nat) returns (next: nat)
    requires j + 1 < dst.Length
    modifies dst
    ensures var p := Piece(b, j, old(dst[..])); next == j + |p| && dst[..] == Placed(old(dst[..]), j, p)
  {
    next := j;
    if NotEscaped(b) {
      dst[j] := b;
    } else if j + 3 < dst.Length {
      dst[j] := PERCENT;
      dst[j + 1] := HexDigit(b / 16);
      dst[j + 2] := HexDigit(b % 16);
      next := next + 2;
    }
    next := next + 1;
  }

  lemma DecodedNext(done: seq<Byte>, rest: seq<Byte>, form: bool)
    requires rest != [] && Width(rest) <= |rest|
    ensures done + [DecodeFirst(rest, form)] + Decoded(rest[Width(rest)..], form) == done + Decoded(rest, form)
  {
  }

  /** The source may be the destination. The result is -1 exactly when the decoded
      bytes and the NUL after them do not fit. */
  method UrlDecode(src: array<Byte>, srcLen: nat, dst: array<Byte>, dstLen: nat, form: bool) returns (res: int)
    requires srcLen <= src.Length && 0 < dstLen <= dst.Length
    modifies dst
    ensures var d := Decoded(old(src[..srcLen]), form);
      && res == (if |d| < dstLen then |d| else -1)
      && (res >= 0 ==> dst[..res] == d && dst[res] == 0)
  {
    ghost var s, d := src[..srcLen], Decoded(src[..srcLen], form);
    var i, j := 0, 0;
    while i < srcLen && j < dstLen - 1
      invariant j <= i <= srcLen && j <= dstLen - 1
      invariant src[i..srcLen] == s[i..]
      invariant d == dst[..j] + Decoded(s[i..], form)
      decreases srcLen - i
    {
      ghost var done, rest := dst[..j], s[i..];
      i := DecodeOne(src, i, srcLen, dst, j, form);
      j := j + 1;
      assert dst[..j] == done + [DecodeFirst(rest, form)] && s[i..] == rest[Width(rest)..];
      DecodedNext(done, rest, form);
    }
    dst[j] := 0;
    res := if i >= srcLen then j else -1;
  }

  // tolower
  function ToLower(b: Byte): Byte {
    if Code('A') <= b <= Code('Z') then b + 32 else b
  }

  // HEXTOI(tolower(b)); 'W' is 'a' - 10
  lemma LowerValue(b: Byte)
    requires IsXDigit(b)
    ensures var x := ToLower(b); HexValue(b) == if IsDigit(x) then x - Code('0') else x - Code('W')
  {
  }

  method DecodeOne(src: array<Byte>, i: nat, srcLen: nat, dst: array<Byte>, j: nat, form: bool) returns (next: nat)
    requires i < srcLen <= src.Length && j < dst.Length && (src == dst ==> j <= i)
    modifies dst
    ensures var rest := old(src[i..srcLen]);
      && next == i + Width(rest) && next <= srcLen
      && dst[..] == old(dst[..])[j := DecodeFirst(rest, form)]
      && src[next..srcLen] == rest[Width(rest)..]
  {
    next := i;
    if src[i] == PERCENT && i + 2 < srcLen && IsXDigit(src[i + 1]) && IsXDigit(src[i + 2]) {
      LowerValue(src[i + 1]);
      LowerValue(src[i + 2]);
      var a, b := ToLower(src[i + 1]), ToLower(src[i + 2]);
      dst[j] := (if IsDigit(a) then a - Code('0') else a - Code('W')) * 16
        + (if IsDigit(b) then b - Code('0') else b - Code('W'));
      next := i + 2;
    } else if form && src[i] == PLUS {
      dst[j] := SPACE;
    } else {
      dst[j] := src[i];
    }
    next := next + 1;
  }
}
