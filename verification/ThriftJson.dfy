/** What the text of a Thrift value is as JSON (RFC 8259): reading it back gives
    the value, exactly when the value can be expressed. */
module ThriftJson {
  import opened ThriftText
  import opened Wrappers

  /** Arrays and objects both hold items; the items of an array have no key. */
  datatype Json =
    | JsonNull
    | JsonNumber(text: string)
    | JsonString(s: string)
    | JsonItems(isObject: bool, items: seq<Item>)

  datatype Item = Item(key: string, value: Json)

  datatype Out<T> = Fail | Done(value: T, rest: string)

  // ----- numbers, section 6 of RFC 8259 -----

  function Digits(s: string): (n: nat)
    ensures n <= |s| && forall i :: 0 <= i < n ==> IsDigit(s[i])
  {
    if s == "" || !IsDigit(s[0]) then 0 else 1 + Digits(s[1..])
  }

  predicate IsExponent(s: string) {
    s == "" ||
    (s[0] in "eE" &&
     var t := if |s| > 1 && s[1] in "+-" then s[2..] else s[1..];
     t != "" && Digits(t) == |t|)
  }

  predicate IsFraction(s: string) {
    if s != "" && s[0] == '.' then Digits(s[1..]) > 0 && IsExponent(s[1 + Digits(s[1..])..]) else IsExponent(s)
  }

  predicate IsNumber(s: string) {
    var t := if s != "" && s[0] == '-' then s[1..] else s;
    var n := Digits(t);
    n > 0 && (t[0] == '0' ==> n == 1) && IsFraction(t[n..])
  }

  predicate NumberChar(c: char) {
    IsDigit(c) || c in "+-.eE"
  }

  function NumberLength(t: string): (n: nat)
    ensures n <= |t|
  {
    if t == "" || !NumberChar(t[0]) then 0 else 1 + NumberLength(t[1..])
  }

  // ----- reading, without white space, true and false, which the writer has no use for -----

  function ReadValue(t: string): (r: Out<Json>)
    ensures r.Done? ==> |r.rest| < |t|
    decreases |t|, 0
  {
    if t == "" then Fail
    else if t[0] == '\"' then
      StringRest(t[1..]);
      var r := ReadString(t[1..]);
      if r.Bad? then Fail else Done(JsonString(r.content), r.rest)
    else if t[0] == '[' || t[0] == '{' then
      var isObject := t[0] == '{';
      var r := ReadItems(t[1..], isObject);
      if r.Fail? then Fail else Done(JsonItems(isObject, r.value), r.rest)
    else if "null" <= t then Done(JsonNull, t[4..])
    else
      var n := NumberLength(t);
      if n > 0 && IsNumber(t[..n]) then Done(JsonNumber(t[..n]), t[n..]) else Fail
  }

  function Close(isObject: bool): char {
    if isObject then '}' else ']'
  }

  function ReadItems(t: string, isObject: bool): (r: Out<seq<Item>>)
    ensures r.Done? ==> |r.rest| < |t|
    decreases |t|, 3
  {
    if t != "" && t[0] == Close(isObject) then Done([], t[1..]) else ReadSome(t, isObject)
  }

  // At least one item, up to the closing bracket.
  function ReadSome(t: string, isObject: bool): (r: Out<seq<Item>>)
    ensures r.Done? ==> |r.rest| < |t|
    decreases |t|, 2
  {
    var first := ReadItem(t, isObject);
    if first.Fail? || first.rest == "" then Fail
    else if first.rest[0] == Close(isObject) then Done([first.value], first.rest[1..])
    else if first.rest[0] == ',' then
      var more := ReadSome(first.rest[1..], isObject);
      if more.Fail? then Fail else Done([first.value] + more.value, more.rest)
    else Fail
  }

  function ReadItem(t: string, isObject: bool): (r: Out<Item>)
    ensures r.Done? ==> |r.rest| < |t|
    decreases |t|, 1
  {
    if !isObject then Keyed("", ReadValue(t))
    else if t == "" || t[0] != '\"' then Fail
    else
      StringRest(t[1..]);
      var r := ReadString(t[1..]);
      if r.Bad? || r.rest == "" || r.rest[0] != ':' then Fail else Keyed(r.content, ReadValue(r.rest[1..]))
  }

  function Keyed(key: string, r: Out<Json>): Out<Item> {
    if r.Fail? then Fail else Done(Item(key, r.value), r.rest)
  }

  lemma {:induction false} StringRest(t: string)
    ensures ReadString(t).Good? ==> |ReadString(t).rest| < |t|
    decreases |t|
  {
    if t != "" && t[0] != '\"' {
      if t[0] == '\\' {
        if |t| >= 2 && Unescaped(t[1]).Some? {
          StringRest(t[2..]);
        } else if |t| >= 6 {
          StringRest(t[6..]);
        }
      } else {
        StringRest(t[1..]);
      }
    }
  }

  // ----- what a value is as JSON; None when it cannot be expressed -----

  function NumberJson(t: string): Option<Json> {
    if IsNumber(t) then Some(JsonNumber(t)) else None
  }

  function StringJson(s: Option<string>): Option<Json> {
    if s.None? then Some(JsonNull) else if Clean(s.value) then Some(JsonString(s.value)) else None
  }

  function TypeJson(t: TType): Json {
    JsonString(TypeTag(t))
  }

  // Either all items can be expressed, or the whole cannot.
  function Wrap(isObject: bool, items: seq<Option<Item>>): Option<Json> {
    if forall i :: 0 <= i < |items| ==> items[i].Some? then Some(JsonItems(isObject, Values(items))) else None
  }

  function Values(items: seq<Option<Item>>): (r: seq<Item>)
    requires forall i :: 0 <= i < |items| ==> items[i].Some?
    ensures |r| == |items|
  {
    seq(|items|, i requires 0 <= i < |items| => items[i].value)
  }

  function WithKey(key: string, j: Option<Json>): Option<Item> {
    if j.None? then None else Some(Item(key, j.value))
  }

  function JsonOf(v: Value): Option<Json>
    decreases v, 1
  {
    match v
    case BoolValue(b) => NumberJson(if b then "1" else "0")
    case NumberValue(t) => NumberJson(t)
    case BigI64Value(d) => NumberJson(d)
    case StringValue(s) => StringJson(s)
    case StructValue(fields) => Wrap(true, FieldItems(fields))
    case MapValue(k, w, pairs) =>
      Wrap(false, [Some(Item("", TypeJson(k))), Some(Item("", TypeJson(w))), WithKey("", NumberJson(Decimal(|pairs|))),
                   WithKey("", Wrap(true, PairItems(pairs)))])
    case ListValue(t, items) => Wrap(false, ListHead(t, |items|) + ElementItems(items))
    case SetValue(t, items) => Wrap(false, ListHead(t, |items|) + ElementItems(items))
  }

  function ListHead(t: TType, n: nat): (h: seq<Option<Item>>)
    ensures |h| == 2
  {
    [Some(Item("", TypeJson(t))), WithKey("", NumberJson(Decimal(n)))]
  }

  function FieldItem(f: Field): Option<Item>
    decreases f, 2
  {
    WithKey(DecimalInt(f.fieldId), Wrap(true, [WithKey(TypeTag(f.fieldType), JsonOf(f.value))]))
  }

  function FieldItems(fs: seq<Field>): (r: seq<Option<Item>>)
    ensures |r| == |fs|
    decreases fs, 0
  {
    if fs == [] then [] else FieldItems(fs[..|fs| - 1]) + [FieldItem(fs[|fs| - 1])]
  }

  // The key of a map entry: numbers and null become strings, containers cannot.
  function KeyOf(k: Value): Option<string> {
    match k
    case BoolValue(b) => Some(if b then "1" else "0")
    case NumberValue(t) => if t == "NaN" then None else Some(t)
    case BigI64Value(d) => Some(d)
    case StringValue(s) => if s.None? then Some("null") else if Clean(s.value) then Some(s.value) else None
    case _ => None
  }

  // The member of a map with this key and a readable value.
  function KeyedItem(k: Value, j: Option<Json>): Option<Item> {
    if KeyOf(k).None? then None else WithKey(KeyOf(k).value, j)
  }

  function PairItem(p: Pair): Option<Item>
    decreases p, 2
  {
    KeyedItem(p.key, JsonOf(p.value))
  }

  function PairItems(ps: seq<Pair>): (r: seq<Option<Item>>)
    ensures |r| == |ps|
    decreases ps, 0
  {
    if ps == [] then [] else PairItems(ps[..|ps| - 1]) + [PairItem(ps[|ps| - 1])]
  }

  // A null among the elements of a list is printed as nothing.
  function ElementItem(v: Value): Option<Item>
    decreases v, 2
  {
    if v == StringValue(None) then None else WithKey("", JsonOf(v))
  }

  function ElementItems(vs: seq<Value>): (r: seq<Option<Item>>)
    ensures |r| == |vs|
    decreases vs, 0
  {
    if vs == [] then [] else ElementItems(vs[..|vs| - 1]) + [ElementItem(vs[|vs| - 1])]
  }

  // ----- the texts of numbers in JavaScript -----

  predicate JavaScriptNumber(t: string) {
    IsNumber(t) || t in ["NaN", "Infinity", "-Infinity"]
  }

  predicate JavaScriptNumbers(v: Value)
    decreases v, 1
  {
    match v
    case NumberValue(t) => JavaScriptNumber(t)
    case BigI64Value(d) => Numeral(d) && IsNumber(d)
    case StructValue(fields) => forall i :: 0 <= i < |fields| ==> FieldNumbers(fields[i])
    case MapValue(_, _, pairs) => forall i :: 0 <= i < |pairs| ==> PairNumbers(pairs[i])
    case ListValue(_, items) => forall i :: 0 <= i < |items| ==> JavaScriptNumbers(items[i])
    case SetValue(_, items) => forall i :: 0 <= i < |items| ==> JavaScriptNumbers(items[i])
    case _ => true
  }

  predicate FieldNumbers(f: Field)
    decreases f, 2
  {
    JavaScriptNumbers(f.value)
  }

  predicate PairNumbers(p: Pair)
    decreases p, 2
  {
    JavaScriptNumbers(p.key) && JavaScriptNumbers(p.value)
  }

  // ----- reading back -----

  // What can follow a value or a member.
  predicate Delimited(rest: string) {
    rest == "" || rest[0] in ",]}"
  }

  function Outcome<T>(j: Option<T>, rest: string): Out<T> {
    if j.None? then Fail else Done(j.value, rest)
  }

  ghost predicate ReadsAs(text: string, j: Option<Json>) {
    forall rest {:trigger text + rest} :: Delimited(rest) ==> ReadValue(text + rest) == Outcome(j, rest)
  }

  ghost predicate ItemReadsAs(text: string, isObject: bool, item: Option<Item>) {
    forall rest {:trigger text + rest} :: Delimited(rest) ==> ReadItem(text + rest, isObject) == Outcome(item, rest)
  }

  // ----- numbers -----

  predicate NumberChars(s: string) {
    forall i :: 0 <= i < |s| ==> NumberChar(s[i])
  }

  lemma {:induction false} NumberLengthOf(s: string, rest: string)
    requires NumberChars(s) && (rest == "" || !NumberChar(rest[0]))
    ensures NumberLength(s + rest) == |s|
  {
    if s == "" {
      assert s + rest == rest;
    } else {
      assert (s + rest)[1..] == s[1..] + rest;
      NumberLengthOf(s[1..], rest);
    }
  }

  lemma NumberCharsAppend(s: string, t: string)
    ensures NumberChars(s) && NumberChars(t) ==> NumberChars(s + t)
  {
  }

  lemma DigitsAreNumberChars(s: string)
    ensures NumberChars(s[..Digits(s)])
  {
  }

  lemma ExponentChars(s: string)
    requires IsExponent(s)
    ensures NumberChars(s)
  {
    if s != "" {
      var k := if |s| > 1 && s[1] in "+-" then 2 else 1;
      DigitsAreNumberChars(s[k..]);
      assert s[k..][..|s[k..]|] == s[k..];
      NumberCharsAppend(s[..k], s[k..]);
      assert s == s[..k] + s[k..];
    }
  }

  lemma FractionChars(s: string)
    requires IsFraction(s)
    ensures NumberChars(s)
  {
    if s != "" && s[0] == '.' {
      var t := s[1..];
      var n := Digits(t);
      ExponentChars(s[1 + n..]);
      assert t[n..] == s[1 + n..];
      ThreeParts(s, 1, n);
    } else {
      ExponentChars(s);
    }
  }

  // A start of number characters, digits, and more number characters.
  lemma ThreeParts(s: string, k: nat, n: nat)
    requires k <= |s| && NumberChars(s[..k]) && n == Digits(s[k..]) && NumberChars(s[k..][n..])
    ensures NumberChars(s)
  {
    var t := s[k..];
    DigitsAreNumberChars(t);
    NumberCharsAppend(t[..n], t[n..]);
    assert t == t[..n] + t[n..];
    NumberCharsAppend(s[..k], t);
    assert s == s[..k] + t;
  }

  lemma AllNumberChars(s: string)
    requires IsNumber(s)
    ensures NumberChars(s) && s != ""
  {
    var k := if s != "" && s[0] == '-' then 1 else 0;
    var t := s[k..];
    assert k == 0 ==> t == s;
    var n := Digits(t);
    FractionChars(t[n..]);
    ThreeParts(s, k, n);
  }

  lemma NumberRead(t: string, rest: string)
    requires IsNumber(t) && Delimited(rest)
    ensures ReadValue(t + rest) == Done(JsonNumber(t), rest)
  {
    AllNumberChars(t);
    NumberLengthOf(t, rest);
    assert NumberChar(t[0]);
    assert (t + rest)[..|t|] == t && (t + rest)[|t|..] == rest;
    NumberTaken(t + rest, |t|);
  }

  lemma NumberTaken(t: string, n: nat)
    requires 0 < n == NumberLength(t) && IsNumber(t[..n]) && NumberChar(t[0])
    ensures ReadValue(t) == Done(JsonNumber(t[..n]), t[n..])
  {
    assert !IsDigit('n') && !IsDigit('[') && !IsDigit('{') && !IsDigit('\"');
    assert "null"[0] == 'n' && !("null" <= t);
  }

  lemma NotNumberRead(t: string, rest: string)
    requires t in ["NaN", "Infinity", "-Infinity"] && Delimited(rest)
    ensures ReadValue(t + rest) == Fail && !IsNumber(t)
  {
    var all := t + rest;
    if t == "-Infinity" {
      assert all[0] == '-' && all[1..][0] == 'I';
      assert NumberLength(all[1..]) == 0;
      assert all[..1] == "-" && "-"[1..] == "";
      assert t[1..][0] == 'I';
    } else {
      assert NumberLength(all) == 0;
    }
  }

  lemma NumberReads(t: string)
    requires JavaScriptNumber(t)
    ensures ReadsAs(t, NumberJson(t))
  {
    forall rest {:trigger t + rest} | Delimited(rest) ensures ReadValue(t + rest) == Outcome(NumberJson(t), rest) {
      if IsNumber(t) {
        NumberRead(t, rest);
      } else {
        NotNumberRead(t, rest);
      }
    }
  }

  lemma {:induction false} DecimalDigits(n: nat)
    ensures Digits(Decimal(n)) == |Decimal(n)| && (n > 0 ==> Decimal(n)[0] != '0')
  {
    if n >= 10 {
      DecimalDigits(n / 10);
      MoreDigits(Decimal(n / 10), Digit(n % 10));
    }
  }

  lemma {:induction false} MoreDigits(s: string, c: char)
    requires Digits(s) == |s| && IsDigit(c)
    ensures Digits(s + [c]) == |s| + 1
  {
    if s != "" {
      MoreDigits(s[1..], c);
      assert (s + [c])[1..] == s[1..] + [c];
    }
  }

  lemma DecimalIsNumber(n: nat)
    ensures IsNumber(Decimal(n))
  {
    DecimalDigits(n);
    assert Decimal(n)[|Decimal(n)|..] == "";
  }

  // ----- strings -----

  lemma StringRead(s: string, rest: string)
    ensures ReadString((Quoted(Escape(s)) + rest)[1..]) == if Clean(s) then Good(s, rest) else Bad
  {
    ClosingQuote(s, rest);
    EscapeRead(s, "\"" + rest);
    assert s + "" == s;
  }

  lemma StringReads(s: string)
    ensures ReadsAs(Quoted(Escape(s)), StringJson(Some(s)))
  {
    var text := Quoted(Escape(s));
    forall rest {:trigger text + rest} | Delimited(rest) ensures ReadValue(text + rest) == Outcome(StringJson(Some(s)), rest) {
      StringRead(s, rest);
    }
  }

  lemma NullReads()
    ensures ReadsAs("null", Some(JsonNull))
  {
    forall rest {:trigger "null" + rest} | Delimited(rest) ensures ReadValue("null" + rest) == Done(JsonNull, rest) {
      assert ("null" + rest)[4..] == rest && "null" <= "null" + rest;
    }
  }

  // Text that needs no escape.
  predicate Plain(s: string) {
    forall i :: 0 <= i < |s| ==> EscapeLetter(s[i]).None? && s[i] >= ' '
  }

  lemma {:induction false} PlainText(s: string)
    requires Plain(s)
    ensures Escape(s) == s && Clean(s)
  {
    if s != "" {
      PlainText(s[..|s| - 1]);
    }
  }

  lemma TagIsPlain(t: TType)
    ensures Plain(TypeTag(t))
  {
  }

  lemma TypeReads(t: TType)
    ensures ReadsAs(TypeName(t), Some(TypeJson(t)))
  {
    TagIsPlain(t);
    PlainText(TypeTag(t));
    StringReads(TypeTag(t));
  }

  // ----- items -----

  function Commas(texts: seq<string>): string {
    if texts == [] then "" else if |texts| == 1 then texts[0] else texts[0] + "," + Commas(texts[1..])
  }

  ghost predicate AllReadAs(texts: seq<string>, isObject: bool, items: seq<Option<Item>>) {
    |texts| == |items| && forall i {:trigger texts[i]} :: 0 <= i < |texts| ==> ItemReadsAs(texts[i], isObject, items[i])
  }

  predicate AllSome(items: seq<Option<Item>>) {
    forall i :: 0 <= i < |items| ==> items[i].Some?
  }

  function SomeOutcome(items: seq<Option<Item>>, rest: string): Out<seq<Item>> {
    if AllSome(items) then Done(Values(items), rest) else Fail
  }

  lemma OneItem(text: string, isObject: bool, item: Option<Item>, rest: string)
    requires ItemReadsAs(text, isObject, item)
    ensures ReadSome(text + ([Close(isObject)] + rest), isObject) == SomeOutcome([item], rest)
  {
    var tail := [Close(isObject)] + rest;
    assert tail[1..] == rest;
    assert ReadItem(text + tail, isObject) == Outcome(item, tail);
    assert [item][0] == item;
    if item.Some? {
      assert Values([item]) == [item.value];
    }
  }

  lemma MoreItems(text: string, isObject: bool, item: Option<Item>, tail: string, more: seq<Option<Item>>, rest: string)
    requires ItemReadsAs(text, isObject, item) && ReadSome(tail, isObject) == SomeOutcome(more, rest)
    ensures ReadSome(text + ("," + tail), isObject) == SomeOutcome([item] + more, rest)
  {
    assert ("," + tail)[1..] == tail;
    assert ReadItem(text + ("," + tail), isObject) == Outcome(item, "," + tail);
    AllSomeMore(item, more);
    if item.Some? && AllSome(more) {
      assert Values([item] + more) == [item.value] + Values(more);
    }
  }

  lemma AllSomeMore(item: Option<Item>, more: seq<Option<Item>>)
    ensures AllSome([item] + more) <==> item.Some? && AllSome(more)
  {
    var items := [item] + more;
    assert items[0] == item && forall i :: 0 <= i < |more| ==> more[i] == items[i + 1];
    assert forall i :: 0 < i < |items| ==> items[i] == more[i - 1];
  }

  lemma Regroup(a: string, b: string, c: string, d: string)
    ensures a + b + c + d == a + (b + (c + d))
  {
  }

  lemma {:induction false} ItemsRead(texts: seq<string>, isObject: bool, items: seq<Option<Item>>, rest: string)
    requires AllReadAs(texts, isObject, items) && texts != []
    ensures ReadSome(Commas(texts) + ([Close(isObject)] + rest), isObject) == SomeOutcome(items, rest)
    decreases |texts|
  {
    assert ItemReadsAs(texts[0], isObject, items[0]);
    if |texts| == 1 {
      OneItem(texts[0], isObject, items[0], rest);
      assert items == [items[0]];
    } else {
      var tail := Commas(texts[1..]) + ([Close(isObject)] + rest);
      assert AllReadAs(texts[1..], isObject, items[1..]);
      ItemsRead(texts[1..], isObject, items[1..], rest);
      MoreItems(texts[0], isObject, items[0], tail, items[1..], rest);
      assert items == [items[0]] + items[1..];
      Regroup(texts[0], ",", Commas(texts[1..]), [Close(isObject)] + rest);
    }
  }

  function Open(isObject: bool): char {
    if isObject then '{' else '['
  }

  function Bracketed(isObject: bool, body: string): string {
    [Open(isObject)] + body + [Close(isObject)]
  }

  lemma BracketsRead(body: string, isObject: bool, rest: string)
    ensures var r := ReadItems(body + ([Close(isObject)] + rest), isObject);
      ReadValue(Bracketed(isObject, body) + rest) == if r.Fail? then Fail else Done(JsonItems(isObject, r.value), r.rest)
  {
    var t := Bracketed(isObject, body) + rest;
    assert t[1..] == body + ([Close(isObject)] + rest);
  }

  /** An array or an object from the texts of its items. */
  lemma WrapReads(texts: seq<string>, isObject: bool, items: seq<Option<Item>>)
    requires AllReadAs(texts, isObject, items)
    requires texts != [] ==> texts[0] != "" && texts[0][0] != Close(isObject)
    ensures ReadsAs(Bracketed(isObject, Commas(texts)), Wrap(isObject, items))
  {
    var text := Bracketed(isObject, Commas(texts));
    forall rest {:trigger text + rest} | Delimited(rest) ensures ReadValue(text + rest) == Outcome(Wrap(isObject, items), rest) {
      BracketsRead(Commas(texts), isObject, rest);
      var inside := Commas(texts) + ([Close(isObject)] + rest);
      if texts == [] {
        assert inside[0] == Close(isObject) && inside[1..] == rest;
      } else {
        assert inside[0] == texts[0][0];
        ItemsRead(texts, isObject, items, rest);
      }
    }
  }

  lemma ElementReads(text: string, j: Option<Json>)
    requires ReadsAs(text, j)
    ensures ItemReadsAs(text, false, WithKey("", j))
  {
  }

  lemma NothingReads()
    ensures ItemReadsAs("", false, None)
  {
    forall rest {:trigger "" + rest} | Delimited(rest) ensures ReadItem("" + rest, false) == Fail {
      assert "" + rest == rest;
      assert NumberLength(rest) == 0;
    }
  }

  lemma ItemOf(t: string, key: string, tail: string)
    requires t != "" && t[0] == '\"' && ReadString(t[1..]) == Good(key, ":" + tail)
    ensures ReadItem(t, true) == Keyed(key, ReadValue(tail))
  {
    assert (":" + tail)[1..] == tail;
  }

  lemma MemberRead(key: string, text: string, j: Option<Json>, rest: string)
    requires ReadsAs(text, j) && Clean(key) && Delimited(rest)
    ensures ReadItem(Quoted(Escape(key)) + (":" + (text + rest)), true) == Outcome(WithKey(key, j), rest)
  {
    StringRead(key, ":" + (text + rest));
    ItemOf(Quoted(Escape(key)) + (":" + (text + rest)), key, text + rest);
  }

  lemma MemberReads(key: string, text: string, j: Option<Json>)
    requires ReadsAs(text, j) && Clean(key)
    ensures ItemReadsAs(Quoted(Escape(key)) + ":" + text, true, WithKey(key, j))
  {
    var s := Quoted(Escape(key)) + ":" + text;
    forall rest {:trigger s + rest} | Delimited(rest) ensures ReadItem(s + rest, true) == Outcome(WithKey(key, j), rest) {
      MemberRead(key, text, j, rest);
      Regroup(Quoted(Escape(key)), ":", text, rest);
    }
  }

  lemma BadKeyReads(key: string, text: string)
    requires key != "" && key[0] != '\"'
    ensures ItemReadsAs(key + ":" + text, true, None)
  {
    var s := key + ":" + text;
    forall rest {:trigger s + rest} | Delimited(rest) ensures ReadItem(s + rest, true) == Fail {
      assert (s + rest)[0] == key[0];
    }
  }

  lemma UncleanKeyReads(key: string, text: string)
    requires !Clean(key)
    ensures ItemReadsAs(Quoted(Escape(key)) + ":" + text, true, None)
  {
    var s := Quoted(Escape(key)) + ":" + text;
    forall rest {:trigger s + rest} | Delimited(rest) ensures ReadItem(s + rest, true) == Fail {
      StringRead(key, ":" + (text + rest));
      assert s + rest == Quoted(Escape(key)) + (":" + (text + rest));
    }
  }

  // ----- the texts of the writer -----

  lemma {:induction false} CommasMore(texts: seq<string>, last: string)
    ensures Commas(texts + [last]) == if texts == [] then last else Commas(texts) + "," + last
    decreases |texts|
  {
    if texts == [] {
      assert [] + [last] == [last];
    } else {
      CommasMore(texts[1..], last);
      assert (texts + [last])[1..] == texts[1..] + [last];
      assert texts[0] + "," + (Commas(texts[1..]) + "," + last) == texts[0] + "," + Commas(texts[1..]) + "," + last;
    }
  }

  function JoinTexts(es: seq<Entry>): (texts: seq<string>)
    ensures |texts| == |es|
  {
    seq(|es|, i requires 0 <= i < |es| => JoinText(es[i]))
  }

  lemma {:induction false} JoinIsCommas(es: seq<Entry>)
    ensures Join(es) == Commas(JoinTexts(es))
    decreases |es|
  {
    if |es| > 1 {
      JoinIsCommas(es[1..]);
      assert JoinTexts(es)[1..] == JoinTexts(es[1..]);
    }
  }

  function MemberTexts(ms: seq<Member>): (texts: seq<string>)
    ensures |texts| == |ms|
  {
    seq(|ms|, i requires 0 <= i < |ms| => MemberText(ms[i]))
  }

  lemma {:induction false} MembersAreCommas(ms: seq<Member>)
    ensures MembersText(ms) == Commas(MemberTexts(ms))
    decreases |ms|
  {
    if ms != [] {
      var first, last := ms[..|ms| - 1], ms[|ms| - 1];
      MembersAreCommas(first);
      assert MemberTexts(ms) == MemberTexts(first) + [MemberText(last)];
      CommasMore(MemberTexts(first), MemberText(last));
    }
  }

  function PairText(k: Entry, v: Entry): string {
    KeyText(k) + ":" + AsText(v)
  }

  function PairTexts(ps: seq<Pair>): (texts: seq<string>)
    ensures |texts| == |ps|
  {
    seq(|ps|, i requires 0 <= i < |ps| => PairText(Print(ps[i].key), Print(ps[i].value)))
  }

  lemma {:induction false} PairsMore(es: seq<Entry>, k: Entry, v: Entry)
    requires |es| % 2 == 0
    ensures PairsText(es + [k, v]) == PairsText(es) + (if es == [] then "" else ",") + PairText(k, v)
    decreases |es|
  {
    var all := es + [k, v];
    if es == [] {
      assert all[2..] == [];
      assert "" + "" + PairText(k, v) == PairText(k, v) + "" + "";
    } else {
      PairsMore(es[2..], k, v);
      assert all[2..] == es[2..] + [k, v];
      var head, sep := KeyText(es[0]) + ":" + AsText(es[1]), if |es| > 2 then "," else "";
      assert PairsText(es) == head + sep + PairsText(es[2..]);
      assert PairsText(all) == head + "," + PairsText(all[2..]);
      PairsGlue(head, PairsText(es[2..]), |es| > 2, PairText(k, v));
    }
  }

  lemma PairsGlue(head: string, rest: string, more: bool, last: string)
    requires !more ==> rest == ""
    ensures head + "," + (rest + (if more then "," else "") + last)
      == head + (if more then "," else "") + rest + "," + last
  {
  }

  lemma PairsStep(es: seq<Entry>, texts: seq<string>, k: Entry, v: Entry)
    requires |es| == 2 * |texts| && PairsText(es) == Commas(texts)
    ensures PairsText(es + [k, v]) == Commas(texts + [PairText(k, v)])
  {
    PairsMore(es, k, v);
    CommasMore(texts, PairText(k, v));
    assert texts == [] ==> "" + "" + PairText(k, v) == PairText(k, v);
  }

  lemma PairTextsMore(ps: seq<Pair>)
    requires ps != []
    ensures var last := ps[|ps| - 1];
      PairTexts(ps) == PairTexts(ps[..|ps| - 1]) + [PairText(Print(last.key), Print(last.value))]
  {
  }

  lemma {:induction false} PairsAreCommas(ps: seq<Pair>)
    ensures PairsText(PrintPairs(ps)) == Commas(PairTexts(ps))
    decreases |ps|
  {
    if ps == [] {
      assert PairTexts(ps) == [];
    } else {
      var first := ps[..|ps| - 1];
      var k, v := Print(ps[|ps| - 1].key), Print(ps[|ps| - 1].value);
      PairsAreCommas(first);
      PairTextsMore(ps);
      PairsStep(PrintPairs(first), PairTexts(first), k, v);
    }
  }

  // ----- values -----

  lemma MembersMore(ms: seq<Member>, m: Member, isObject: bool, items: seq<Option<Item>>, item: Option<Item>)
    requires AllReadAs(MemberTexts(ms), isObject, items) && ItemReadsAs(MemberText(m), isObject, item)
    ensures AllReadAs(MemberTexts(ms + [m]), isObject, items + [item])
  {
    assert MemberTexts(ms + [m]) == MemberTexts(ms) + [MemberText(m)];
  }

  lemma NumberCharIsPlain(c: char)
    requires NumberChar(c)
    ensures EscapeLetter(c).None? && c >= ' '
  {
  }

  lemma NumberTextIsPlain(t: string)
    requires IsNumber(t)
    ensures Plain(t) && t != ""
  {
    AllNumberChars(t);
    forall i | 0 <= i < |t| ensures EscapeLetter(t[i]).None? && t[i] >= ' ' {
      NumberCharIsPlain(t[i]);
    }
  }

  lemma DecimalIntIsPlain(n: int)
    ensures Plain(DecimalInt(n))
  {
    var d := Decimal(if n < 0 then -n else n);
    DecimalIsNumber(if n < 0 then -n else n);
    NumberTextIsPlain(d);
    assert EscapeLetter('-').None?;
  }

  lemma PlainMemberReads(key: string, text: string, j: Option<Json>)
    requires ReadsAs(text, j) && Plain(key)
    ensures ItemReadsAs(Quoted(key) + ":" + text, true, WithKey(key, j))
  {
    PlainText(key);
    MemberReads(key, text, j);
  }

  lemma ReadsAppend(texts: seq<string>, isObject: bool, items: seq<Option<Item>>, texts': seq<string>, items': seq<Option<Item>>)
    requires AllReadAs(texts, isObject, items) && AllReadAs(texts', isObject, items')
    ensures AllReadAs(texts + texts', isObject, items + items')
  {
  }

  lemma OneReads(text: string, isObject: bool, item: Option<Item>)
    requires ItemReadsAs(text, isObject, item)
    ensures AllReadAs([text], isObject, [item])
  {
  }

  /** The text of a value reads as the value, and as nothing else; it is no JSON
      when the value cannot be expressed. */
  lemma {:induction false} ValueReads(v: Value)
    requires JavaScriptNumbers(v)
    ensures ReadsAs(AsText(Print(v)), JsonOf(v))
    decreases v, 1
  {
    match v
    case StructValue(fields) => StructReads(fields);
    case MapValue(k, w, pairs) => MapReads(k, w, pairs);
    case ListValue(t, items) => ListReads(t, items);
    case SetValue(t, items) => ListReads(t, items);
    case _ => ScalarReads(v);
  }

  lemma ScalarReads(v: Value)
    requires JavaScriptNumbers(v) && !IsContainer(v)
    ensures ReadsAs(AsText(Print(v)), JsonOf(v))
  {
    match v
    case BoolValue(b) => BoolReads(b);
    case NumberValue(t) => NumberReads(t);
    case BigI64Value(d) => NumberReads(d);
    case StringValue(s) =>
      if s.None? {
        NullReads();
      } else {
        StringReads(s.value);
      }
  }

  lemma BoolReads(b: bool)
    ensures ReadsAs(if b then "1" else "0", NumberJson(if b then "1" else "0"))
  {
    DecimalIsNumber(1);
    DecimalIsNumber(0);
    assert Decimal(1) == "1" && Decimal(0) == "0";
    NumberReads(if b then "1" else "0");
  }

  // ----- structs -----

  lemma {:induction false} StructReads(fields: seq<Field>)
    requires forall i :: 0 <= i < |fields| ==> FieldNumbers(fields[i])
    ensures ReadsAs("{" + MembersText(PrintFields(fields)) + "}", Wrap(true, FieldItems(fields)))
    decreases fields, 1
  {
    FieldsRead(fields);
    var ms := PrintFields(fields);
    MembersAreCommas(ms);
    if fields != [] {
      FirstMember(fields);
    }
    WrapReads(MemberTexts(ms), true, FieldItems(fields));
  }

  lemma {:induction false} FirstMember(fields: seq<Field>)
    requires fields != []
    ensures MemberText(PrintFields(fields)[0]) != "" && MemberText(PrintFields(fields)[0])[0] == '\"'
  {
    if |fields| > 1 {
      FirstMember(fields[..|fields| - 1]);
    }
  }

  lemma {:induction false} FieldsRead(fs: seq<Field>)
    requires forall i :: 0 <= i < |fs| ==> FieldNumbers(fs[i])
    ensures AllReadAs(MemberTexts(PrintFields(fs)), true, FieldItems(fs))
    decreases fs, 0
  {
    if fs != [] {
      var first, last := fs[..|fs| - 1], fs[|fs| - 1];
      FieldsRead(first);
      FieldReads(last);
      MembersMore(PrintFields(first), PrintField(last), true, FieldItems(first), FieldItem(last));
    }
  }

  lemma {:induction false} FieldReads(f: Field)
    requires FieldNumbers(f)
    ensures ItemReadsAs(MemberText(PrintField(f)), true, FieldItem(f))
    decreases f, 2
  {
    ValueReads(f.value);
    FieldTextReads(f.fieldType, f.fieldId, AsText(Print(f.value)), JsonOf(f.value));
  }

  lemma FieldTextReads(t: TType, id: int, text: string, j: Option<Json>)
    requires ReadsAs(text, j)
    ensures ItemReadsAs(Quoted(DecimalInt(id)) + ":" + ("{" + TypeName(t) + ":" + text + "}"), true,
                        WithKey(DecimalInt(id), Wrap(true, [WithKey(TypeTag(t), j)])))
  {
    var inner := TypeName(t) + ":" + text;
    TagIsPlain(t);
    PlainMemberReads(TypeTag(t), text, j);
    OneReads(inner, true, WithKey(TypeTag(t), j));
    WrapReads([inner], true, [WithKey(TypeTag(t), j)]);
    assert Bracketed(true, Commas([inner])) == "{" + TypeName(t) + ":" + text + "}";
    DecimalIntIsPlain(id);
    PlainMemberReads(DecimalInt(id), "{" + TypeName(t) + ":" + text + "}", Wrap(true, [WithKey(TypeTag(t), j)]));
  }

  // ----- lists -----

  lemma HeadReads(t: TType)
    ensures ItemReadsAs(TypeName(t), false, Some(Item("", TypeJson(t))))
  {
    TypeReads(t);
    ElementReads(TypeName(t), Some(TypeJson(t)));
  }

  lemma SizeReads(n: nat)
    ensures ItemReadsAs(Decimal(n), false, WithKey("", NumberJson(Decimal(n))))
  {
    DecimalIsNumber(n);
    NumberReads(Decimal(n));
    ElementReads(Decimal(n), NumberJson(Decimal(n)));
  }

  lemma {:induction false} ListReads(t: TType, items: seq<Value>)
    requires forall i :: 0 <= i < |items| ==> JavaScriptNumbers(items[i])
    ensures ReadsAs(AsText(Print(ListValue(t, items))), JsonOf(ListValue(t, items)))
    decreases items, 1
  {
    ElementsRead(items);
    ListTextReads(t, |items|, PrintAll(items), ElementItems(items));
  }

  lemma JoinOfText(s: string)
    ensures JoinText(Text(s)) == s && JoinText(Number(s)) == s
  {
  }

  lemma JoinTextsAppend(a: seq<Entry>, b: seq<Entry>)
    ensures JoinTexts(a + b) == JoinTexts(a) + JoinTexts(b)
  {
  }

  lemma ListTextReads(t: TType, n: nat, es: seq<Entry>, items: seq<Option<Item>>)
    requires AllReadAs(JoinTexts(es), false, items)
    ensures ReadsAs("[" + Join([Text(TypeName(t)), Number(Decimal(n))] + es) + "]", Wrap(false, ListHead(t, n) + items))
  {
    var head := [TypeName(t), Decimal(n)];
    HeadReads(t);
    SizeReads(n);
    assert AllReadAs(head, false, ListHead(t, n));
    ReadsAppend(head, false, ListHead(t, n), JoinTexts(es), items);
    JoinIsCommas([Text(TypeName(t)), Number(Decimal(n))] + es);
    JoinTextsAppend([Text(TypeName(t)), Number(Decimal(n))], es);
    assert JoinTexts([Text(TypeName(t)), Number(Decimal(n))]) == head by {
      JoinOfText(TypeName(t));
      JoinOfText(Decimal(n));
    }
    WrapReads(head + JoinTexts(es), false, ListHead(t, n) + items);
  }

  lemma {:induction false} ElementsRead(vs: seq<Value>)
    requires forall i :: 0 <= i < |vs| ==> JavaScriptNumbers(vs[i])
    ensures AllReadAs(JoinTexts(PrintAll(vs)), false, ElementItems(vs))
    decreases vs, 0
  {
    if vs != [] {
      var first, last := vs[..|vs| - 1], vs[|vs| - 1];
      ElementsRead(first);
      ElementIsRead(last);
      OneReads(JoinText(Print(last)), false, ElementItem(last));
      ReadsAppend(JoinTexts(PrintAll(first)), false, ElementItems(first), [JoinText(Print(last))], [ElementItem(last)]);
      assert JoinTexts(PrintAll(vs)) == JoinTexts(PrintAll(first)) + [JoinText(Print(last))];
    }
  }

  lemma {:induction false} ElementIsRead(v: Value)
    requires JavaScriptNumbers(v)
    ensures ItemReadsAs(JoinText(Print(v)), false, ElementItem(v))
    decreases v, 2
  {
    if v == StringValue(None) {
      NothingReads();
    } else {
      ValueReads(v);
      ElementReads(AsText(Print(v)), JsonOf(v));
    }
  }

  // ----- maps -----

  lemma KeyReads(k: Value, text: string, j: Option<Json>)
    requires JavaScriptNumbers(k) && ReadsAs(text, j)
    ensures ItemReadsAs(KeyText(Print(k)) + ":" + text, true, KeyedItem(k, j))
  {
    match k
    case BoolValue(b) => PlainMemberReads(if b then "1" else "0", text, j);
    case NumberValue(t) => NumberKeyReads(t, text, j);
    case BigI64Value(d) => DigitsKeyReads(d, text, j);
    case StringValue(s) => StringKeyReads(s, text, j);
    case _ => ContainerKeyReads(k, text, j);
  }

  lemma NumberKeyReads(t: string, text: string, j: Option<Json>)
    requires JavaScriptNumber(t) && ReadsAs(text, j)
    ensures ItemReadsAs(KeyText(Number(t)) + ":" + text, true, if t == "NaN" then None else WithKey(t, j))
  {
    if t == "NaN" {
      BadKeyReads(t, text);
    } else {
      JavaScriptNumberIsPlain(t);
      PlainMemberReads(t, text, j);
    }
  }

  predicate WordChar(c: char) {
    'a' <= c <= 'z' || 'A' <= c <= 'Z' || c == '-'
  }

  lemma WordCharIsPlain(c: char)
    requires WordChar(c) || IsDigit(c)
    ensures EscapeLetter(c).None? && c >= ' '
  {
  }

  lemma JavaScriptNumberIsPlain(t: string)
    requires JavaScriptNumber(t)
    ensures Plain(t)
  {
    if IsNumber(t) {
      NumberTextIsPlain(t);
    } else {
      assert forall i :: 0 <= i < |t| ==> WordChar(t[i]);
      forall i | 0 <= i < |t| ensures EscapeLetter(t[i]).None? && t[i] >= ' ' {
        WordCharIsPlain(t[i]);
      }
    }
  }

  lemma DigitsKeyReads(d: string, text: string, j: Option<Json>)
    requires IsNumber(d) && Numeral(d) && ReadsAs(text, j)
    ensures ItemReadsAs(KeyText(Text(d)) + ":" + text, true, WithKey(d, j))
  {
    NumberTextIsPlain(d);
    PlainMemberReads(d, text, j);
  }

  predicate IsContainer(v: Value) {
    v.StructValue? || v.MapValue? || v.ListValue? || v.SetValue?
  }

  lemma ContainerStart(v: Value)
    requires IsContainer(v)
    ensures var e := Print(v); e.Text? && e.s != "" && e.s[0] in "{[" && !Numeral(e.s)
  {
  }

  lemma ContainerKeyReads(k: Value, text: string, j: Option<Json>)
    requires IsContainer(k)
    ensures ItemReadsAs(KeyText(Print(k)) + ":" + text, true, None)
  {
    ContainerStart(k);
    BadKeyReads(AsText(Print(k)), text);
  }

  lemma StringKeyReads(s: Option<string>, text: string, j: Option<Json>)
    requires ReadsAs(text, j)
    ensures var k := StringValue(s);
      ItemReadsAs(KeyText(Print(k)) + ":" + text, true, KeyedItem(k, j))
  {
    if s.None? {
      PlainMemberReads("null", text, j);
    } else if Clean(s.value) {
      MemberReads(s.value, text, j);
    } else {
      UncleanKeyReads(s.value, text);
    }
  }

  lemma KeyStart(k: Value)
    requires JavaScriptNumbers(k)
    ensures KeyText(Print(k)) != "" && KeyText(Print(k))[0] != '}'
  {
  }

  lemma {:induction false} PairReads(p: Pair)
    requires PairNumbers(p)
    ensures ItemReadsAs(PairText(Print(p.key), Print(p.value)), true, PairItem(p))
    decreases p, 2
  {
    ValueReads(p.value);
    KeyReads(p.key, AsText(Print(p.value)), JsonOf(p.value));
  }

  lemma {:induction false} PairsRead(ps: seq<Pair>)
    requires forall i :: 0 <= i < |ps| ==> PairNumbers(ps[i])
    ensures AllReadAs(PairTexts(ps), true, PairItems(ps))
    decreases ps, 0
  {
    if ps != [] {
      var first, last := ps[..|ps| - 1], ps[|ps| - 1];
      PairsRead(first);
      PairReads(last);
      var text := PairText(Print(last.key), Print(last.value));
      OneReads(text, true, PairItem(last));
      PairTextsMore(ps);
      ReadsAppend(PairTexts(first), true, PairItems(first), [text], [PairItem(last)]);
    }
  }

  lemma {:induction false} MapReads(k: TType, w: TType, pairs: seq<Pair>)
    requires forall i :: 0 <= i < |pairs| ==> PairNumbers(pairs[i])
    ensures ReadsAs(AsText(Print(MapValue(k, w, pairs))), JsonOf(MapValue(k, w, pairs)))
    decreases pairs, 1
  {
    PairsRead(pairs);
    PairsAreCommas(pairs);
    if pairs != [] {
      KeyStart(pairs[0].key);
    }
    WrapReads(PairTexts(pairs), true, PairItems(pairs));
    MapTextReads(k, w, |pairs|, "{" + PairsText(PrintPairs(pairs)) + "}", Wrap(true, PairItems(pairs)));
  }

  lemma MapTextReads(k: TType, w: TType, n: nat, text: string, j: Option<Json>)
    requires ReadsAs(text, j)
    ensures ReadsAs("[" + Join([Text(TypeName(k)), Text(TypeName(w)), Number(Decimal(n)), Text(text)]) + "]",
      Wrap(false, [Some(Item("", TypeJson(k))), Some(Item("", TypeJson(w))),
        WithKey("", NumberJson(Decimal(n))), WithKey("", j)]))
  {
    var texts := [TypeName(k), TypeName(w), Decimal(n), text];
    var items := [Some(Item("", TypeJson(k))), Some(Item("", TypeJson(w))), WithKey("", NumberJson(Decimal(n))), WithKey("", j)];
    HeadReads(k);
    HeadReads(w);
    SizeReads(n);
    ElementReads(text, j);
    assert AllReadAs(texts, false, items);
    var es := [Text(TypeName(k)), Text(TypeName(w)), Number(Decimal(n)), Text(text)];
    JoinIsCommas(es);
    assert JoinTexts(es) == texts by {
      JoinOfText(TypeName(k));
      JoinOfText(TypeName(w));
      JoinOfText(Decimal(n));
      JoinOfText(text);
    }
    WrapReads(texts, false, items);
  }

  // ----- which values can be expressed -----

  predicate FiniteNumber(t: string) {
    t !in ["NaN", "Infinity", "-Infinity"]
  }

  predicate TextFits(s: Option<string>) {
    s.None? || Clean(s.value)
  }

  /** Finite numbers, text without stray control characters, no null among the
      elements of lists and sets, and map keys that are no containers and not NaN. */
  predicate Expressible(v: Value)
    decreases v, 1
  {
    match v
    case BoolValue(_) => true
    case NumberValue(t) => FiniteNumber(t)
    case BigI64Value(_) => true
    case StringValue(s) => TextFits(s)
    case StructValue(fields) => FieldsExpressible(fields)
    case MapValue(_, _, pairs) => PairsExpressible(pairs)
    case ListValue(_, items) => ElementsExpressible(items)
    case SetValue(_, items) => ElementsExpressible(items)
  }

  predicate FieldsExpressible(fs: seq<Field>)
    decreases fs, 0
  {
    fs == [] || (FieldsExpressible(fs[..|fs| - 1]) && FieldExpressible(fs[|fs| - 1]))
  }

  predicate FieldExpressible(f: Field)
    decreases f, 2
  {
    Expressible(f.value)
  }

  predicate PairsExpressible(ps: seq<Pair>)
    decreases ps, 0
  {
    ps == [] || (PairsExpressible(ps[..|ps| - 1]) && PairExpressible(ps[|ps| - 1]))
  }

  predicate PairExpressible(p: Pair)
    decreases p, 2
  {
    KeyFits(p.key) && Expressible(p.value)
  }

  predicate KeyFits(k: Value) {
    !IsContainer(k) && k != NumberValue("NaN") && (k.StringValue? ==> TextFits(k.s))
  }

  predicate ElementsExpressible(vs: seq<Value>)
    decreases vs, 0
  {
    vs == [] || (ElementsExpressible(vs[..|vs| - 1]) && ElementExpressible(vs[|vs| - 1]))
  }

  predicate ElementExpressible(v: Value)
    decreases v, 2
  {
    v != StringValue(None) && Expressible(v)
  }

  lemma NumberFinite(t: string)
    requires JavaScriptNumber(t)
    ensures IsNumber(t) <==> FiniteNumber(t)
  {
    if t in ["NaN", "Infinity", "-Infinity"] {
      NotNumberRead(t, "");
    }
  }

  lemma {:induction false} ExpressibleIff(v: Value)
    requires JavaScriptNumbers(v)
    ensures JsonOf(v).Some? <==> Expressible(v)
    decreases v, 1
  {
    match v
    case BoolValue(b) =>
      DecimalIsNumber(if b then 1 else 0);
      assert Decimal(if b then 1 else 0) == if b then "1" else "0";
    case NumberValue(t) => NumberFinite(t);
    case BigI64Value(_) =>
    case StringValue(_) =>
    case StructValue(fields) => FieldsExpressibleIff(fields);
    case MapValue(k, w, pairs) =>
      PairsExpressibleIff(pairs);
      MapExpressible(k, w, pairs);
    case ListValue(t, items) =>
      ElementsExpressibleIff(items);
      HeadExpressible(t, |items|, ElementItems(items));
    case SetValue(t, items) =>
      ElementsExpressibleIff(items);
      HeadExpressible(t, |items|, ElementItems(items));
  }

  lemma HeadExpressible(t: TType, n: nat, items: seq<Option<Item>>)
    ensures AllSome(ListHead(t, n) + items) <==> AllSome(items)
  {
    DecimalIsNumber(n);
    AllSomeAfter(ListHead(t, n), items);
  }

  lemma AllSomeAfter(head: seq<Option<Item>>, items: seq<Option<Item>>)
    requires AllSome(head)
    ensures AllSome(head + items) <==> AllSome(items)
  {
    var all := head + items;
    forall i | 0 <= i < |items| ensures items[i] == all[|head| + i] {
    }
    assert forall i :: |head| <= i < |all| ==> all[i] == items[i - |head|];
    if AllSome(all) {
      forall i | 0 <= i < |items| ensures items[i].Some? {
        assert all[|head| + i].Some?;
      }
    }
  }

  lemma MapExpressible(k: TType, w: TType, pairs: seq<Pair>)
    ensures JsonOf(MapValue(k, w, pairs)).Some? <==> AllSome(PairItems(pairs))
  {
    DecimalIsNumber(|pairs|);
    FourSome(Some(Item("", TypeJson(k))), Some(Item("", TypeJson(w))), WithKey("", NumberJson(Decimal(|pairs|))),
             WithKey("", Wrap(true, PairItems(pairs))));
  }

  lemma FourSome(a: Option<Item>, b: Option<Item>, c: Option<Item>, d: Option<Item>)
    requires a.Some? && b.Some? && c.Some?
    ensures Wrap(false, [a, b, c, d]).Some? <==> d.Some?
  {
    assert [a, b, c, d][3] == d;
  }

  lemma AllSomeAppend(items: seq<Option<Item>>, last: Option<Item>)
    ensures AllSome(items + [last]) <==> AllSome(items) && last.Some?
  {
    var all := items + [last];
    assert all[|items|] == last && forall i :: 0 <= i < |items| ==> items[i] == all[i];
  }

  lemma {:induction false} FieldsExpressibleIff(fs: seq<Field>)
    requires forall i :: 0 <= i < |fs| ==> FieldNumbers(fs[i])
    ensures AllSome(FieldItems(fs)) <==> FieldsExpressible(fs)
    decreases fs, 0
  {
    if fs != [] {
      var first, last := fs[..|fs| - 1], fs[|fs| - 1];
      FieldsExpressibleIff(first);
      FieldFits(last);
      AllSomeAppend(FieldItems(first), FieldItem(last));
    }
  }

  lemma {:induction false} FieldFits(f: Field)
    requires FieldNumbers(f)
    ensures FieldItem(f).Some? <==> FieldExpressible(f)
    decreases f, 2
  {
    ExpressibleIff(f.value);
    var inner := [WithKey(TypeTag(f.fieldType), JsonOf(f.value))];
    assert AllSome(inner) <==> inner[0].Some?;
  }

  lemma {:induction false} PairsExpressibleIff(ps: seq<Pair>)
    requires forall i :: 0 <= i < |ps| ==> PairNumbers(ps[i])
    ensures AllSome(PairItems(ps)) <==> PairsExpressible(ps)
    decreases ps, 0
  {
    if ps != [] {
      var first, last := ps[..|ps| - 1], ps[|ps| - 1];
      PairsExpressibleIff(first);
      PairFits(last);
      AllSomeAppend(PairItems(first), PairItem(last));
    }
  }

  lemma {:induction false} PairFits(p: Pair)
    requires PairNumbers(p)
    ensures PairItem(p).Some? <==> PairExpressible(p)
    decreases p, 2
  {
    ExpressibleIff(p.value);
  }

  lemma {:induction false} ElementsExpressibleIff(vs: seq<Value>)
    requires forall i :: 0 <= i < |vs| ==> JavaScriptNumbers(vs[i])
    ensures AllSome(ElementItems(vs)) <==> ElementsExpressible(vs)
    decreases vs, 0
  {
    if vs != [] {
      var first, last := vs[..|vs| - 1], vs[|vs| - 1];
      ElementsExpressibleIff(first);
      ExpressibleIff(last);
      AllSomeAppend(ElementItems(first), ElementItem(last));
    }
  }

  /** The text of a value is JSON if and only if the value can be expressed, and
      then it reads back as the value. */
  lemma JsonExactly(v: Value)
    requires JavaScriptNumbers(v)
    ensures var r := ReadValue(AsText(Print(v)));
      if Expressible(v) then JsonOf(v).Some? && r == Done(JsonOf(v).value, "") else r == Fail
  {
    ValueReads(v);
    ExpressibleIff(v);
    var text := AsText(Print(v));
    assert text + "" == text;
    assert ReadValue(text + "") == Outcome(JsonOf(v), "");
  }

  // ----- messages -----

  lemma DecimalIntReads(n: int)
    ensures ItemReadsAs(DecimalInt(n), false, Some(Item("", JsonNumber(DecimalInt(n)))))
  {
    DecimalIsNumber(if n < 0 then -n else n);
    if n < 0 {
      assert DecimalInt(n)[1..] == Decimal(-n);
    }
    NumberReads(DecimalInt(n));
    ElementReads(DecimalInt(n), NumberJson(DecimalInt(n)));
  }

  lemma NameReads(name: string)
    requires Plain(name)
    ensures ItemReadsAs(Quoted(name), false, Some(Item("", JsonString(name))))
  {
    PlainText(name);
    StringReads(name);
    ElementReads(Quoted(name), Some(JsonString(name)));
  }

  // What is read as a string is no longer than its text, and as long only without escapes.
  lemma {:induction false} ReadLength(t: string)
    ensures var r := ReadString(t);
      r.Good? ==>
        && |t| >= |r.content| + 1 + |r.rest|
        && (|t| == |r.content| + 1 + |r.rest| ==> r.content == t[..|r.content|] && Plain(r.content))
    decreases |t|
  {
    if t != "" && t[0] != '\"' {
      if t[0] == '\\' {
        if |t| >= 2 && Unescaped(t[1]).Some? {
          ReadLength(t[2..]);
        } else if |t| >= 6 {
          ReadLength(t[6..]);
        }
      } else {
        ReadLength(t[1..]);
      }
    }
  }

  /** The name of a message is not escaped: it reads back exactly when it needs no
      escape. */
  lemma NameReadsIff(name: string, rest: string)
    ensures ReadValue(Quoted(name) + rest) == Done(JsonString(name), rest) <==> Plain(name)
  {
    var t := name + ("\"" + rest);
    assert (Quoted(name) + rest)[1..] == t;
    if Plain(name) {
      PlainText(name);
      StringRead(name, rest);
    } else {
      ReadLength(t);
    }
  }

  // The four elements before the arguments.
  function MessageItems(name: string, messageType: nat, seqid: int): seq<Option<Item>> {
    [Some(Item("", JsonNumber("1"))), Some(Item("", JsonString(name))),
     Some(Item("", JsonNumber(DecimalInt(messageType)))), Some(Item("", JsonNumber(DecimalInt(seqid))))]
  }

  /** A whole message reads as an array of version, name, type, sequence number
      and arguments, exactly when the arguments can be expressed. */
  lemma MessageReads(name: string, messageType: nat, seqid: int, arguments: Value, rest: string)
    requires Plain(name) && arguments.StructValue? && JavaScriptNumbers(arguments) && Delimited(rest)
    ensures var es := [Number("1"), Text(Quoted(name)), Number(Decimal(messageType)), Number(DecimalInt(seqid)),
        Print(arguments)];
      ReadValue("[" + Join(es) + "]" + rest)
        == Outcome(Wrap(false, MessageItems(name, messageType, seqid) + [WithKey("", JsonOf(arguments))]), rest)
  {
    var es := [Number("1"), Text(Quoted(name)), Number(Decimal(messageType)), Number(DecimalInt(seqid)), Print(arguments)];
    MessageTextsRead(name, messageType, seqid, AsText(Print(arguments)), arguments);
    JoinIsCommas(es);
    var texts := MessageTexts(name, messageType, seqid, AsText(Print(arguments)));
    assert JoinTexts(es) == texts by {
      JoinOfText("1");
      JoinOfText(Quoted(name));
      JoinOfText(Decimal(messageType));
      JoinOfText(DecimalInt(seqid));
    }
    WrapReads(texts, false, MessageItems(name, messageType, seqid) + [WithKey("", JsonOf(arguments))]);
    assert Bracketed(false, Commas(texts)) == "[" + Join(es) + "]";
  }

  function MessageTexts(name: string, messageType: nat, seqid: int, text: string): seq<string> {
    ["1", Quoted(name), Decimal(messageType), DecimalInt(seqid), text]
  }

  lemma MessageTextsRead(name: string, messageType: nat, seqid: int, text: string, arguments: Value)
    requires Plain(name) && JavaScriptNumbers(arguments) && text == AsText(Print(arguments))
    ensures AllReadAs(MessageTexts(name, messageType, seqid, text), false,
                      MessageItems(name, messageType, seqid) + [WithKey("", JsonOf(arguments))])
  {
    ValueReads(arguments);
    ElementReads(text, JsonOf(arguments));
    NameReads(name);
    DecimalIntReads(messageType);
    DecimalIntReads(seqid);
    DecimalIntReads(1);
    assert DecimalInt(1) == "1";
    OneReads(text, false, WithKey("", JsonOf(arguments)));
    var head := ["1", Quoted(name), Decimal(messageType), DecimalInt(seqid)];
    assert AllReadAs(head, false, MessageItems(name, messageType, seqid));
    ReadsAppend(head, false, MessageItems(name, messageType, seqid), [text], [WithKey("", JsonOf(arguments))]);
    assert head + [text] == MessageTexts(name, messageType, seqid, text);
  }
}
