/** The JSON text that webgui/scripts/thrift.js writes for a Thrift value, as a
    recursive function, and the JSON string syntax of RFC 8259. */
module ThriftText {
  import opened Wrappers

  datatype TType = BOOL | BYTE | I16 | I32 | I64 | DOUBLE | STRUCT | STRING | MAP | LIST | SET

  function TypeTag(t: TType): string {
    match t
    case BOOL => "tf"
    case BYTE => "i8"
    case I16 => "i16"
    case I32 => "i32"
    case I64 => "i64"
    case DOUBLE => "dbl"
    case STRUCT => "rec"
    case STRING => "str"
    case MAP => "map"
    case LIST => "lst"
    case SET => "set"
  }

  // Thrift.Protocol.Type
  function TypeName(t: TType): string {
    Quoted(TypeTag(t))
  }

  /** A number is given by its text in JavaScript; a 64-bit integer that is not a
      number, by its decimal digits. */
  datatype Value =
    | BoolValue(b: bool)
    | NumberValue(text: string)
    | BigI64Value(digits: string)
    | StringValue(s: Option<string>)
    | StructValue(fields: seq<Field>)
    | MapValue(keyType: TType, valType: TType, pairs: seq<Pair>)
    | ListValue(elemType: TType, items: seq<Value>)
    | SetValue(setType: TType, members: seq<Value>)

  datatype Field = Field(fieldType: TType, fieldId: int, value: Value)

  datatype Pair = Pair(key: Value, value: Value)

  /** What lies on the stack: a number, null, a string, an array, an object with
      its keys in insertion order, or the record of a field. */
  datatype Entry =
    | Number(text: string)
    | Null
    | Text(s: string)
    | Array(items: seq<Entry>)
    | Object(members: seq<Member>)
    | FieldInfo(fieldId: string, fieldType: string)

  datatype Member = Member(key: string, text: string)

  // ----- JavaScript's conversions to text -----

  function Digit(n: nat): char
    requires n < 10
  {
    "0123456789"[n]
  }

  function Decimal(n: nat): (s: string)
    ensures s != "" && s[0] != '-'
  {
    if n < 10 then [Digit(n)] else Decimal(n / 10) + [Digit(n % 10)]
  }

  function DecimalInt(n: int): string {
    if n < 0 then "-" + Decimal(-n) else Decimal(n)
  }

  function Quoted(s: string): string {
    "\"" + s + "\""
  }

  // A value in a concatenation of strings.
  function AsText(e: Entry): string
    decreases e, 0
  {
    match e
    case Number(t) => t
    case Null => "null"
    case Text(s) => s
    case Array(items) => Join(items)
    case _ => "[object Object]"
  }

  // Array.prototype.join(','): null becomes the empty string.
  function JoinText(e: Entry): string
    decreases e, 1
  {
    if e.Null? then "" else AsText(e)
  }

  function Join(items: seq<Entry>): string
    decreases items, 2
  {
    if items == [] then ""
    else if |items| == 1 then JoinText(items[0])
    else JoinText(items[0]) + "," + Join(items[1..])
  }

  predicate Numeral(s: string) {
    s != "" && (IsDigit(s[0]) || (s[0] == '-' && |s| > 1)) && forall i :: 1 <= i < |s| ==> IsDigit(s[i])
  }

  predicate IsDigit(c: char) {
    '0' <= c <= '9'
  }

  // isNaN on what can be a key: numbers, null, quoted strings, digits and the
  // texts of containers.
  predicate IsNaN(e: Entry) {
    match e
    case Number(t) => t == "NaN"
    case Null => false
    case Text(s) => !Numeral(s)
    case _ => true
  }

  // ----- the printer -----

  // The characters writeString escapes, and the letters it writes for them.
  const BACKSPACE := 8 as char
  const FORMFEED := 12 as char

  function EscapeLetter(c: char): Option<char> {
    if c == '\"' || c == '\\' then Some(c)
    else if c == BACKSPACE then Some('b')
    else if c == FORMFEED then Some('f')
    else if c == '\n' then Some('n')
    else if c == '\r' then Some('r')
    else if c == '\t' then Some('t')
    else None
  }

  function EscapeChar(c: char): string {
    if EscapeLetter(c).Some? then ['\\', EscapeLetter(c).value] else [c]
  }

  function Escape(s: string): string {
    if s == "" then "" else Escape(s[..|s| - 1]) + EscapeChar(s[|s| - 1])
  }

  function MemberText(m: Member): string {
    m.key + ":" + m.text
  }

  function MembersText(ms: seq<Member>): string {
    if ms == [] then ""
    else MembersText(ms[..|ms| - 1]) + (if |ms| > 1 then "," else "") + MemberText(ms[|ms| - 1])
  }

  function KeyText(k: Entry): string {
    if !IsNaN(k) then Quoted(AsText(k)) else AsText(k)
  }

  // Keys and values alternate.
  function PairsText(es: seq<Entry>): string {
    if |es| < 2 then ""
    else KeyText(es[0]) + ":" + AsText(es[1]) + (if |es| > 2 then "," else "") + PairsText(es[2..])
  }

  // The one entry that stands for a value.
  function Print(v: Value): Entry
    decreases v, 1
  {
    match v
    case BoolValue(b) => Number(if b then "1" else "0")
    case NumberValue(t) => Number(t)
    case BigI64Value(d) => Text(d)
    case StringValue(s) => if s.None? then Null else Text(Quoted(Escape(s.value)))
    case StructValue(fields) => Text("{" + MembersText(PrintFields(fields)) + "}")
    case MapValue(k, w, pairs) =>
      Text("[" + Join([Text(TypeName(k)), Text(TypeName(w)), Number(Decimal(|pairs|)),
                       Text("{" + PairsText(PrintPairs(pairs)) + "}")]) + "]")
    case ListValue(t, items) => Text("[" + Join([Text(TypeName(t)), Number(Decimal(|items|))] + PrintAll(items)) + "]")
    case SetValue(t, items) => Text("[" + Join([Text(TypeName(t)), Number(Decimal(|items|))] + PrintAll(items)) + "]")
  }

  function PrintField(f: Field): Member
    decreases f, 2
  {
    Member(Quoted(DecimalInt(f.fieldId)), "{" + TypeName(f.fieldType) + ":" + AsText(Print(f.value)) + "}")
  }

  function PrintFields(fs: seq<Field>): (ms: seq<Member>)
    ensures |ms| == |fs|
    decreases fs, 0
  {
    if fs == [] then [] else PrintFields(fs[..|fs| - 1]) + [PrintField(fs[|fs| - 1])]
  }

  function PrintPair(p: Pair): (es: seq<Entry>)
    ensures |es| == 2
    decreases p, 2
  {
    [Print(p.key), Print(p.value)]
  }

  function PrintPairs(ps: seq<Pair>): (es: seq<Entry>)
    ensures |es| == 2 * |ps|
    decreases ps, 0
  {
    if ps == [] then []
    else PrintPairs(ps[..|ps| - 1]) + PrintPair(ps[|ps| - 1])
  }

  function PrintAll(vs: seq<Value>): (es: seq<Entry>)
    ensures |es| == |vs|
    decreases vs, 0
  {
    if vs == [] then [] else PrintAll(vs[..|vs| - 1]) + [Print(vs[|vs| - 1])]
  }

  /** Structs with distinct field ids, at every level. */
  predicate WellFormed(v: Value)
    decreases v, 1
  {
    match v
    case StructValue(fields) => DistinctIds(fields) && WellFormedFields(fields)
    case MapValue(_, _, pairs) => WellFormedPairs(pairs)
    case ListValue(_, items) => WellFormedAll(items)
    case SetValue(_, items) => WellFormedAll(items)
    case _ => true
  }

  predicate WellFormedFields(fs: seq<Field>)
    decreases fs, 0
  {
    forall i :: 0 <= i < |fs| ==> WellFormedField(fs[i])
  }

  predicate WellFormedField(f: Field)
    decreases f, 2
  {
    WellFormed(f.value)
  }

  predicate WellFormedPair(p: Pair)
    decreases p, 2
  {
    WellFormed(p.key) && WellFormed(p.value)
  }

  predicate WellFormedPairs(ps: seq<Pair>)
    decreases ps, 0
  {
    forall i :: 0 <= i < |ps| ==> WellFormedPair(ps[i])
  }

  predicate WellFormedAll(vs: seq<Value>)
    decreases vs, 0
  {
    forall i :: 0 <= i < |vs| ==> WellFormed(vs[i])
  }

  predicate DistinctIds(fs: seq<Field>) {
    forall i, j :: 0 <= i < j < |fs| ==> fs[i].fieldId != fs[j].fieldId
  }

  // ----- decimal texts are distinct -----

  lemma {:induction false} DecimalInjective(m: nat, n: nat)
    requires Decimal(m) == Decimal(n)
    ensures m == n
  {
    var s, t := Decimal(m), Decimal(n);
    assert s[|s| - 1] == Digit(m % 10) && t[|t| - 1] == Digit(n % 10);
    if m >= 10 && n >= 10 {
      assert s[..|s| - 1] == Decimal(m / 10) && t[..|t| - 1] == Decimal(n / 10);
      DecimalInjective(m / 10, n / 10);
    }
  }

  lemma KeysDiffer(m: int, n: int)
    requires m != n
    ensures Quoted(DecimalInt(m)) != Quoted(DecimalInt(n))
  {
    var s, t := DecimalInt(m), DecimalInt(n);
    if Quoted(s) == Quoted(t) {
      assert s == Quoted(s)[1..|Quoted(s)| - 1] == t;
      if m < 0 && n < 0 {
        assert s[1..] == Decimal(-m) && t[1..] == Decimal(-n);
        DecimalInjective(-m, -n);
      } else if m >= 0 && n >= 0 {
        DecimalInjective(m, n);
      }
      assert false;
    }
  }

  // ----- strings, section 7 of RFC 8259 -----

  function Hex(c: char): Option<nat> {
    if '0' <= c <= '9' then Some(c as int - '0' as int)
    else if 'a' <= c <= 'f' then Some(c as int - 'a' as int + 10)
    else if 'A' <= c <= 'F' then Some(c as int - 'A' as int + 10)
    else None
  }

  // The letters after a reverse solidus, except u.
  function Unescaped(c: char): Option<char> {
    match c
    case '\"' => Some('\"')
    case '\\' => Some('\\')
    case '/' => Some('/')
    case 'b' => Some(BACKSPACE)
    case 'f' => Some(FORMFEED)
    case 'n' => Some('\n')
    case 'r' => Some('\r')
    case 't' => Some('\t')
    case _ => None
  }

  datatype Read = Bad | Good(content: string, rest: string)

  // What follows an opening quotation mark, up to the closing one.
  function ReadString(t: string): Read {
    if t == "" then Bad
    else if t[0] == '\"' then Good("", t[1..])
    else if t[0] == '\\' then
      if |t| >= 2 && Unescaped(t[1]).Some? then Prefixed(Unescaped(t[1]).value, ReadString(t[2..]))
      else if |t| >= 6 && t[1] == 'u' && CodeUnit(t[2..6]).Some? then Prefixed(CodeUnit(t[2..6]).value, ReadString(t[6..]))
      else Bad
    else if t[0] < ' ' then Bad
    else Prefixed(t[0], ReadString(t[1..]))
  }

  // Surrogate code units are no characters here.
  function CodeUnit(h: string): Option<char>
    requires |h| == 4
  {
    var (a, b, c, d) := (Hex(h[0]), Hex(h[1]), Hex(h[2]), Hex(h[3]));
    if a.None? || b.None? || c.None? || d.None? then None
    else
      var n := ((a.value * 16 + b.value) * 16 + c.value) * 16 + d.value;
      if n < 0xD800 || 0xE000 <= n < 0x1_0000 then Some(n as char) else None
  }

  function Prefixed(c: char, r: Read): Read {
    if r.Bad? then Bad else Good([c] + r.content, r.rest)
  }

  predicate Control(c: char) {
    c < ' ' && EscapeLetter(c).None?
  }

  predicate Clean(s: string) {
    forall c <- s :: !Control(c)
  }

  lemma EscapedRead(c: char, t: string)
    requires EscapeLetter(c).Some?
    ensures ReadString(EscapeChar(c) + t) == Prefixed(c, ReadString(t))
  {
    assert (EscapeChar(c) + t)[2..] == t;
    assert Unescaped(EscapeLetter(c).value) == Some(c);
  }

  lemma PlainRead(c: char, t: string)
    requires EscapeLetter(c).None?
    ensures ReadString(EscapeChar(c) + t) == if c < ' ' then Bad else Prefixed(c, ReadString(t))
  {
    assert (EscapeChar(c) + t)[1..] == t;
  }

  // What reading gives after the characters of s, escaped, when r is read next.
  function After(s: string, r: Read): Read {
    if r.Bad? || !Clean(s) then Bad else Good(s + r.content, r.rest)
  }

  lemma AfterOneMore(s: string, c: char, r: Read)
    ensures After(s + [c], r) == After(s, if Control(c) then Bad else Prefixed(c, r))
  {
    assert Clean(s + [c]) <==> Clean(s) && !Control(c) by {
      assert (s + [c])[|s|] == c;
      assert forall d :: d in s ==> d in s + [c];
    }
    if r.Good? {
      assert s + [c] + r.content == s + ([c] + r.content);
    }
  }

  lemma {:induction false} EscapeRead(s: string, t: string)
    ensures ReadString(Escape(s) + t) == After(s, ReadString(t))
    decreases |s|
  {
    if s == "" {
      assert Escape(s) + t == t;
      EmptyAfter(ReadString(t));
    } else {
      var first, c := s[..|s| - 1], s[|s| - 1];
      EscapeRead(first, EscapeChar(c) + t);
      CharRead(c, t);
      assert Escape(s) + t == Escape(first) + (EscapeChar(c) + t);
      AfterOneMore(first, c, ReadString(t));
      assert s == first + [c];
    }
  }

  lemma EmptyAfter(r: Read)
    ensures After("", r) == r
  {
    if r.Good? {
      assert "" + r.content == r.content;
    }
  }

  lemma CharRead(c: char, t: string)
    ensures ReadString(EscapeChar(c) + t) == if Control(c) then Bad else Prefixed(c, ReadString(t))
  {
    if EscapeLetter(c).Some? {
      EscapedRead(c, t);
    } else {
      PlainRead(c, t);
    }
  }

  lemma ClosingQuote(s: string, rest: string)
    ensures ReadString("\"" + rest) == Good("", rest)
    ensures (Quoted(Escape(s)) + rest)[1..] == Escape(s) + ("\"" + rest)
  {
    assert ("\"" + rest)[1..] == rest;
  }

  /** The text written for a string decodes to the string exactly when it has no
      control characters besides those with an escape of their own. */
  lemma StringRoundTrip(s: string, rest: string)
    ensures ReadString((Quoted(Escape(s)) + rest)[1..]) == Good(s, rest) <==> Clean(s)
  {
    ClosingQuote(s, rest);
    EscapeRead(s, "\"" + rest);
    AfterAll(s, rest);
  }

  lemma AfterAll(s: string, rest: string)
    ensures After(s, Good("", rest)) == Good(s, rest) <==> Clean(s)
  {
    assert s + "" == s;
  }
}
