/** The JSON of a Thrift value read as a value again: numbers by their digits, types
    by the table with which webgui/scripts/thrift.js reads, everything else by its
    place. */
module ThriftMeaning {
  import opened ThriftText
  import opened ThriftJson
  import opened Wrappers

  // ----- numbers -----

  // The number a row of digits stands for.
  function NumberOf(s: string): int {
    if s == "" then 0 else 10 * NumberOf(s[..|s| - 1]) + (s[|s| - 1] as int - '0' as int)
  }

  function IntOf(s: string): int {
    if s != "" && s[0] == '-' then -NumberOf(s[1..]) else NumberOf(s)
  }

  lemma DigitIs(n: nat)
    requires n < 10
    ensures Digit(n) as int == '0' as int + n
  {
  }

  lemma {:induction false} DecimalIs(n: nat)
    ensures NumberOf(Decimal(n)) == n && IsDigits(Decimal(n))
  {
    DigitIs(n % 10);
    if n >= 10 {
      DecimalIs(n / 10);
      var s := Decimal(n);
      assert s[..|s| - 1] == Decimal(n / 10) && s[|s| - 1] == Digit(n % 10);
    } else {
      assert Decimal(n)[..0] == "";
    }
  }

  predicate IsDigits(s: string) {
    forall i :: 0 <= i < |s| ==> '0' <= s[i] <= '9'
  }

  lemma IntOfSigned(s: string, n: nat)
    requires NumberOf(s) == n
    ensures IntOf("-" + s) == 0 - n
  {
    assert ("-" + s)[1..] == s;
  }

  lemma IntOfUnsigned(s: string, n: nat)
    requires NumberOf(s) == n && s != "" && s[0] != '-'
    ensures IntOf(s) == n
  {
  }

  // A text with its sign.
  lemma WithSign(n: int, m: nat, s: string)
    requires m == (if n < 0 then -n else n) && NumberOf(s) == m && s != "" && s[0] != '-'
    ensures IntOf(if n < 0 then "-" + s else s) == n
  {
    IntOfSigned(s, m);
    IntOfUnsigned(s, m);
  }

  /** The text of a number, read by its digits, is the number. */
  lemma DecimalIntIs(n: int)
    ensures IntOf(DecimalInt(n)) == n
  {
    var m := if n < 0 then -n else n;
    DecimalIs(m);
    WithSign(n, m, Decimal(m));
  }

  // ----- types -----

  // Thrift.Protocol.RType
  function RType(tag: string): Option<TType> {
    match tag
    case "tf" => Some(BOOL)
    case "i8" => Some(BYTE)
    case "i16" => Some(I16)
    case "i32" => Some(I32)
    case "i64" => Some(I64)
    case "dbl" => Some(DOUBLE)
    case "rec" => Some(STRUCT)
    case "str" => Some(STRING)
    case "map" => Some(MAP)
    case "lst" => Some(LIST)
    case "set" => Some(SET)
    case _ => None
  }

  /** The table for writing and the one for reading are inverse to each other. */
  lemma TypeTables(t: TType, tag: string)
    ensures RType(tag) == Some(t) <==> TypeTag(t) == tag
  {
  }

  // ----- values -----

  ghost predicate IsType(j: Json, t: TType) {
    j.JsonString? && RType(j.s) == Some(t)
  }

  ghost predicate IsCount(j: Json, n: int) {
    j.JsonNumber? && IntOf(j.text) == n
  }

  ghost predicate IsArray(j: Json, n: nat) {
    j.JsonItems? && !j.isObject && |j.items| == n
  }

  ghost predicate IsObject(j: Json, n: nat) {
    j.JsonItems? && j.isObject && |j.items| == n
  }

  /** j is the value v: a struct is an object from field ids to objects with one member,
      from the type to the value; a list is an array of type, size and elements; a map
      an array of two types, size and an object. */
  ghost predicate Means(j: Json, v: Value)
    decreases v, 1
  {
    match v
    case BoolValue(b) => IsCount(j, if b then 1 else 0)
    case NumberValue(t) => j == JsonNumber(t)
    case BigI64Value(d) => j == JsonNumber(d)
    case StringValue(s) => j == if s.None? then JsonNull else JsonString(s.value)
    case StructValue(fields) =>
      IsObject(j, |fields|) && forall i :: 0 <= i < |fields| ==> MeansField(j.items[i], fields[i])
    case MapValue(k, w, pairs) =>
      && IsArray(j, 4) && IsType(j.items[0].value, k) && IsType(j.items[1].value, w) && IsCount(j.items[2].value, |pairs|)
      && var o := j.items[3].value;
      IsObject(o, |pairs|) && forall i :: 0 <= i < |pairs| ==> MeansPair(o.items[i], pairs[i])
    case ListValue(t, items) => MeansItems(j, t, items)
    case SetValue(t, items) => MeansItems(j, t, items)
  }

  ghost predicate MeansItems(j: Json, t: TType, items: seq<Value>)
    decreases items, 0
  {
    && IsArray(j, 2 + |items|) && IsType(j.items[0].value, t) && IsCount(j.items[1].value, |items|)
    && forall i :: 0 <= i < |items| ==> Means(j.items[2 + i].value, items[i])
  }

  ghost predicate MeansField(item: Item, f: Field)
    decreases f, 2
  {
    && IntOf(item.key) == f.fieldId && IsObject(item.value, 1)
    && RType(item.value.items[0].key) == Some(f.fieldType) && Means(item.value.items[0].value, f.value)
  }

  ghost predicate MeansPair(item: Item, p: Pair)
    decreases p, 2
  {
    MeansKey(item.key, p.key) && Means(item.value, p.value)
  }

  // Numbers and null as text.
  ghost predicate MeansKey(key: string, k: Value) {
    match k
    case BoolValue(b) => IntOf(key) == if b then 1 else 0
    case NumberValue(t) => key == t
    case BigI64Value(d) => key == d
    case StringValue(s) => key == if s.None? then "null" else s.value
    case _ => false
  }

  lemma {:induction false} FieldItemMeans(f: Field)
    ensures FieldItem(f).Some? ==> MeansField(FieldItem(f).value, f)
    decreases f, 2
  {
    if FieldItem(f).Some? {
      var items := [WithKey(TypeTag(f.fieldType), JsonOf(f.value))];
      assert items[0].Some?;
      JsonMeans(f.value);
      DecimalIntIs(f.fieldId);
      TypeTables(f.fieldType, TypeTag(f.fieldType));
    }
  }

  ghost predicate FieldsMean(items: seq<Option<Item>>, fs: seq<Field>) {
    |items| == |fs| && forall i :: 0 <= i < |fs| && items[i].Some? ==> MeansField(items[i].value, fs[i])
  }

  lemma OneMoreField(items: seq<Option<Item>>, fs: seq<Field>, item: Option<Item>, f: Field)
    requires FieldsMean(items, fs) && (item.Some? ==> MeansField(item.value, f))
    ensures FieldsMean(items + [item], fs + [f])
  {
  }

  lemma FieldsMeanAll(first: seq<Field>, f: Field)
    requires FieldsMean(FieldItems(first), first) && (FieldItem(f).Some? ==> MeansField(FieldItem(f).value, f))
    ensures FieldsMean(FieldItems(first + [f]), first + [f])
  {
    OneMoreField(FieldItems(first), first, FieldItem(f), f);
    assert (first + [f])[..|first|] == first;
  }

  lemma {:induction false} FieldItemsMean(fs: seq<Field>)
    ensures FieldsMean(FieldItems(fs), fs)
    decreases fs, 0
  {
    if fs != [] {
      FieldItemsMean(fs[..|fs| - 1]);
      FieldItemMeans(fs[|fs| - 1]);
      FieldsMeanAll(fs[..|fs| - 1], fs[|fs| - 1]);
      assert fs == fs[..|fs| - 1] + [fs[|fs| - 1]];
    }
  }

  lemma KeyMeans(k: Value)
    ensures KeyOf(k).Some? ==> MeansKey(KeyOf(k).value, k)
  {
    if k.BoolValue? {
      assert "1"[..0] == "" && "0"[..0] == "";
      assert NumberOf("1") == 1 && NumberOf("0") == 0;
    }
  }

  lemma {:induction false} PairItemsMean(ps: seq<Pair>)
    ensures forall i :: 0 <= i < |ps| && PairItems(ps)[i].Some? ==> MeansPair(PairItems(ps)[i].value, ps[i])
    decreases ps, 0
  {
    if ps != [] {
      var p := ps[|ps| - 1];
      PairItemsMean(ps[..|ps| - 1]);
      if PairItem(p).Some? {
        PairItemMeans(p);
      }
    }
  }

  lemma {:induction false} PairItemMeans(p: Pair)
    requires PairItem(p).Some?
    ensures MeansPair(PairItem(p).value, p)
    decreases p, 2
  {
    KeyMeans(p.key);
    JsonMeans(p.value);
  }

  ghost predicate ElementsMean(items: seq<Option<Item>>, vs: seq<Value>) {
    |items| == |vs| && forall i :: 0 <= i < |vs| && items[i].Some? ==> Means(items[i].value.value, vs[i])
  }

  lemma OneMoreMeans(items: seq<Option<Item>>, vs: seq<Value>, item: Option<Item>, v: Value)
    requires ElementsMean(items, vs) && (item.Some? ==> Means(item.value.value, v))
    ensures ElementsMean(items + [item], vs + [v])
  {
  }

  lemma ElementsMeanAll(first: seq<Value>, v: Value)
    requires ElementsMean(ElementItems(first), first) && (ElementItem(v).Some? ==> Means(ElementItem(v).value.value, v))
    ensures ElementsMean(ElementItems(first + [v]), first + [v])
  {
    OneMoreMeans(ElementItems(first), first, ElementItem(v), v);
    assert (first + [v])[..|first|] == first;
  }

  lemma {:induction false} ElementItemMeans(v: Value)
    ensures ElementItem(v).Some? ==> Means(ElementItem(v).value.value, v)
    decreases v, 2
  {
    if ElementItem(v).Some? {
      JsonMeans(v);
    }
  }

  lemma {:induction false} ElementItemsMean(vs: seq<Value>)
    ensures ElementsMean(ElementItems(vs), vs)
    decreases vs, 0
  {
    if vs != [] {
      ElementItemsMean(vs[..|vs| - 1]);
      ElementItemMeans(vs[|vs| - 1]);
      ElementsMeanAll(vs[..|vs| - 1], vs[|vs| - 1]);
      assert vs == vs[..|vs| - 1] + [vs[|vs| - 1]];
    }
  }

  lemma HeadMeans(t: TType, n: nat)
    ensures var h := ListHead(t, n);
      && h[0].Some? && IsType(h[0].value.value, t) && (h[1].Some? ==> IsCount(h[1].value.value, n))
  {
    TypeTables(t, TypeTag(t));
    DecimalCount(n);
  }

  lemma DecimalCount(n: nat)
    ensures IsCount(JsonNumber(Decimal(n)), n)
  {
    DecimalIntIs(n);
  }

  // A head and then the elements.
  lemma WrappedList(head: seq<Option<Item>>, items: seq<Option<Item>>)
    requires Wrap(false, head + items).Some?
    ensures var j := Wrap(false, head + items).value;
      && IsArray(j, |head| + |items|)
      && (forall i :: 0 <= i < |head| ==> head[i].Some? && j.items[i] == head[i].value)
      && (forall i :: 0 <= i < |items| ==> items[i].Some? && j.items[|head| + i] == items[i].value)
  {
    var all := head + items;
    forall i | 0 <= i < |head| ensures head[i] == all[i] {
    }
    forall i | 0 <= i < |items| ensures items[i] == all[|head| + i] {
    }
  }

  lemma ListMeans(t: TType, items: seq<Value>)
    requires Wrap(false, ListHead(t, |items|) + ElementItems(items)).Some?
    requires ElementsMean(ElementItems(items), items)
    ensures var j := Wrap(false, ListHead(t, |items|) + ElementItems(items)).value; MeansItems(j, t, items)
  {
    HeadMeans(t, |items|);
    WrappedMeans(ListHead(t, |items|), ElementItems(items), t, items);
  }

  lemma WrappedMeans(head: seq<Option<Item>>, elements: seq<Option<Item>>, t: TType, items: seq<Value>)
    requires Wrap(false, head + elements).Some? && |head| == 2 && ElementsMean(elements, items)
    requires head[0].Some? ==> IsType(head[0].value.value, t)
    requires head[1].Some? ==> IsCount(head[1].value.value, |items|)
    ensures MeansItems(Wrap(false, head + elements).value, t, items)
  {
    WrappedList(head, elements);
    PartsMean(Wrap(false, head + elements).value, head, elements, t, items);
  }

  lemma PartsMean(j: Json, head: seq<Option<Item>>, elements: seq<Option<Item>>, t: TType, items: seq<Value>)
    requires |head| == 2 && |elements| == |items| && IsArray(j, 2 + |items|)
    requires forall i :: 0 <= i < 2 ==> head[i].Some? && j.items[i] == head[i].value
    requires forall i :: 0 <= i < |items| ==> elements[i].Some? && j.items[2 + i] == elements[i].value
    requires IsType(head[0].value.value, t) && IsCount(head[1].value.value, |items|)
    requires forall i :: 0 <= i < |items| ==> Means(elements[i].value.value, items[i])
    ensures MeansItems(j, t, items)
  {
  }

  /** What a value is as JSON means the value. */
  lemma {:induction false} JsonMeans(v: Value)
    requires JsonOf(v).Some?
    ensures Means(JsonOf(v).value, v)
    decreases v, 1
  {
    match v
    case BoolValue(b) => KeyMeans(v);
    case NumberValue(_) =>
    case BigI64Value(_) =>
    case StringValue(_) =>
    case StructValue(fields) => FieldItemsMean(fields);
    case MapValue(k, w, pairs) =>
      PairItemsMean(pairs);
      MapMeans(k, w, pairs);
    case ListValue(t, items) =>
      ElementItemsMean(items);
      ListMeans(t, items);
    case SetValue(t, items) =>
      ElementItemsMean(items);
      ListMeans(t, items);
  }

  lemma MapMeans(k: TType, w: TType, pairs: seq<Pair>)
    requires JsonOf(MapValue(k, w, pairs)).Some?
    requires forall i :: 0 <= i < |pairs| && PairItems(pairs)[i].Some? ==> MeansPair(PairItems(pairs)[i].value, pairs[i])
    ensures Means(JsonOf(MapValue(k, w, pairs)).value, MapValue(k, w, pairs))
  {
    var j := JsonOf(MapValue(k, w, pairs)).value;
    TypeTables(k, TypeTag(k));
    TypeTables(w, TypeTag(w));
    DecimalCount(|pairs|);
    var items := [Some(Item("", TypeJson(k))), Some(Item("", TypeJson(w))), WithKey("", NumberJson(Decimal(|pairs|))),
                  WithKey("", Wrap(true, PairItems(pairs)))];
    assert items[3].Some? && items[2].Some?;
    assert j.items[3].value == Wrap(true, PairItems(pairs)).value;
  }

  /** The text of a value that can be expressed is JSON that means this value. */
  lemma TextMeans(v: Value)
    requires JavaScriptNumbers(v) && Expressible(v)
    ensures var r := ReadValue(AsText(Print(v))); r.Done? && r.rest == "" && Means(r.value, v)
  {
    JsonExactly(v);
    JsonMeans(v);
  }

  /** The text of a message is an array of the version, the name, the type, the sequence
      number and the arguments. */
  lemma MessageMeans(name: string, messageType: nat, seqid: int, arguments: Value)
    requires Plain(name) && arguments.StructValue? && JavaScriptNumbers(arguments) && Expressible(arguments)
    ensures var r := ReadValue("[" + Join([Number("1"), Text(Quoted(name)), Number(Decimal(messageType)),
        Number(DecimalInt(seqid)), Print(arguments)]) + "]");
      && r.Done? && r.rest == "" && IsArray(r.value, 5) && IsCount(r.value.items[0].value, 1)
      && r.value.items[1].value == JsonString(name) && IsCount(r.value.items[2].value, messageType)
      && IsCount(r.value.items[3].value, seqid) && Means(r.value.items[4].value, arguments)
  {
    MessageReads(name, messageType, seqid, arguments, "");
    ExpressibleIff(arguments);
    JsonMeans(arguments);
    MessageIs(name, messageType, seqid, JsonOf(arguments).value);
    var text := "[" + Join([Number("1"), Text(Quoted(name)), Number(Decimal(messageType)), Number(DecimalInt(seqid)),
      Print(arguments)]) + "]";
    assert text + "" == text;
  }

  lemma MessageIs(name: string, messageType: nat, seqid: int, j: Json)
    ensures var r := Wrap(false, MessageItems(name, messageType, seqid) + [WithKey("", Some(j))]);
      && r.Some? && IsArray(r.value, 5) && IsCount(r.value.items[0].value, 1)
      && r.value.items[1].value == JsonString(name) && IsCount(r.value.items[2].value, messageType)
      && IsCount(r.value.items[3].value, seqid) && r.value.items[4].value == j
  {
    MessageHeadMeans(name, messageType, seqid);
    var head, rest := MessageItems(name, messageType, seqid), [WithKey("", Some(j))];
    FivePresent(head, rest[0]);
    WrappedList(head, rest);
  }

  lemma FivePresent(head: seq<Option<Item>>, last: Option<Item>)
    requires |head| == 4 && head[0].Some? && head[1].Some? && head[2].Some? && head[3].Some? && last.Some?
    ensures Wrap(false, head + [last]).Some?
  {
  }

  lemma CountIs(n: int)
    ensures IsCount(JsonNumber(DecimalInt(n)), n)
  {
    DecimalIntIs(n);
  }

  lemma OneIs()
    ensures IsCount(JsonNumber("1"), 1)
  {
    assert "1"[..0] == "";
  }

  lemma MessageHeadMeans(name: string, messageType: nat, seqid: int)
    ensures var h := MessageItems(name, messageType, seqid);
      && |h| == 4 && h[0].Some? && h[1].Some? && h[2].Some? && h[3].Some?
      && IsCount(h[0].value.value, 1) && h[1].value.value == JsonString(name)
      && IsCount(h[2].value.value, messageType) && IsCount(h[3].value.value, seqid)
  {
    OneIs();
    CountIs(messageType);
    CountIs(seqid);
  }
}
