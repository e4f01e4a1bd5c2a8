/** The writers of Thrift.Protocol in webgui/scripts/thrift.js: begin and end
    calls that drive the two stacks tstack and tpos. */
module ThriftProtocol {
  import opened ThriftText
  import opened Wrappers

  // struct[key] = text: an existing key keeps its place.
  function SetMember(ms: seq<Member>, key: string, text: string): seq<Member> {
    if ms == [] then [Member(key, text)]
    else if ms[0].key == key then [Member(key, text)] + ms[1..]
    else [ms[0]] + SetMember(ms[1..], key, text)
  }

  lemma {:induction false} NewMember(ms: seq<Member>, key: string, text: string)
    requires forall i :: 0 <= i < |ms| ==> ms[i].key != key
    ensures SetMember(ms, key, text) == ms + [Member(key, text)]
  {
    if ms != [] {
      NewMember(ms[1..], key, text);
    }
  }

  // As for an object of JavaScript: the text of a key that is there is replaced.
  lemma {:induction false} KnownMember(ms: seq<Member>, i: nat, key: string, text: string)
    requires i < |ms| && ms[i].key == key && forall k :: 0 <= k < i ==> ms[k].key != key
    ensures SetMember(ms, key, text) == ms[i := Member(key, text)]
  {
    if i > 0 {
      KnownMember(ms[1..], i - 1, key, text);
    }
  }

  class Protocol {
    var tstack: seq<Entry>
    var tpos: seq<nat>
    // What the transport has been given.
    var written: seq<string>

    constructor ()
      ensures tstack == [] && tpos == [] && written == []
    {
      tstack, tpos, written := [], [], [];
    }

    method WriteMessageBegin(name: string, messageType: nat, seqid: int)
      modifies this`tstack, this`tpos
      ensures tpos == [] && tstack == [MessageHead(name, messageType, seqid)]
    {
      tstack, tpos := [], [];
      var head := [Number("1"), Text("\"" + name + "\""), Number(Decimal(messageType)), Number(DecimalInt(seqid))];
      tstack := tstack + [Array(head)];
    }

    method WriteMessageEnd()
      requires |tstack| >= 2 && tstack[|tstack| - 2].Array?
      modifies this`tstack, this`written
      ensures tstack == old(tstack)[..|old(tstack)| - 2]
      ensures var n := |old(tstack)|;
        written == old(written) + ["[" + Join(old(tstack)[n - 2].items + [old(tstack)[n - 1]]) + "]"]
    {
      var obj := tstack[|tstack| - 1];
      var wobj := tstack[|tstack| - 2].items + [obj];
      tstack := tstack[..|tstack| - 2];
      written := written + ["[" + Join(wobj) + "]"];
    }

    method WriteStructBegin()
      modifies this`tstack, this`tpos
      ensures tpos == old(tpos) + [|old(tstack)|] && tstack == old(tstack) + [Object([])]
    {
      tpos := tpos + [|tstack|];
      tstack := tstack + [Object([])];
    }

    method WriteStructEnd()
      requires tpos != [] && tpos[|tpos| - 1] < |tstack| && tstack[tpos[|tpos| - 1]].Object?
      modifies this`tstack, this`tpos
      ensures tpos == old(tpos)[..|old(tpos)| - 1]
      ensures var p := old(tpos)[|old(tpos)| - 1];
        tstack == old(tstack)[p := Text("{" + MembersText(old(tstack)[p].members) + "}")]
    {
      var p := tpos[|tpos| - 1];
      tpos := tpos[..|tpos| - 1];
      var struct := tstack[p].members;
      var str, first := "{", true;
      for i := 0 to |struct|
        invariant str == "{" + MembersText(struct[..i]) && first == (i == 0)
      {
        assert struct[..i + 1][..i] == struct[..i];
        if first {
          first := false;
        } else {
          str := str + ",";
        }
        str := str + MemberText(struct[i]);
      }
      assert struct[..|struct|] == struct;
      tstack := tstack[p := Text(str + "}")];
    }

    method WriteFieldBegin(fieldType: TType, fieldId: int)
      modifies this`tstack, this`tpos
      ensures tpos == old(tpos) + [|old(tstack)|]
      ensures tstack == old(tstack) + [FieldInfo(Quoted(DecimalInt(fieldId)), TypeName(fieldType))]
    {
      tpos := tpos + [|tstack|];
      tstack := tstack + [FieldInfo("\"" + DecimalInt(fieldId) + "\"", TypeName(fieldType))];
    }

    // The struct, the record of the field and its value are on top.
    method WriteFieldEnd()
      requires tpos != [] && |tstack| >= 3 && tstack[|tstack| - 2].FieldInfo? && tstack[|tstack| - 3].Object?
      modifies this`tstack, this`tpos
      ensures tpos == old(tpos)[..|old(tpos)| - 1]
      ensures var n := |old(tstack)| - 3;
        var info := old(tstack)[n + 1];
        tstack == old(tstack)[..n] + [Object(SetMember(old(tstack)[n].members, info.fieldId,
          "{" + info.fieldType + ":" + AsText(old(tstack)[n + 2]) + "}"))]
    {
      var value := tstack[|tstack| - 1];
      var info := tstack[|tstack| - 2];
      tstack := tstack[..|tstack| - 2];
      var n := |tstack| - 1;
      tstack := tstack[n := Object(SetMember(tstack[n].members, info.fieldId, "{" + info.fieldType + ":" + AsText(value) + "}"))];
      tpos := tpos[..|tpos| - 1];
    }

    // The size is filled in at the end.
    method WriteMapBegin(keyType: TType, valType: TType)
      modifies this`tstack, this`tpos
      ensures tpos == old(tpos) + [|old(tstack)|]
      ensures tstack == old(tstack) + [Array([Text(TypeName(keyType)), Text(TypeName(valType)), Number("0")])]
    {
      tpos := tpos + [|tstack|];
      tstack := tstack + [Array([Text(TypeName(keyType)), Text(TypeName(valType)), Number("0")])];
    }

    method WriteMapEnd()
      requires tpos != [] && tpos[|tpos| - 1] <= |tstack|
      requires tpos[|tpos| - 1] < |tstack| ==> tstack[tpos[|tpos| - 1]].Array? && tstack[tpos[|tpos| - 1]].items != []
      modifies this`tstack, this`tpos
      ensures tpos == old(tpos)[..|old(tpos)| - 1]
      ensures var p := old(tpos)[|old(tpos)| - 1];
        if p == |old(tstack)| then tstack == old(tstack)
        else tstack == old(tstack)[..p] + [MapEntry(old(tstack)[p].items, Padded(old(tstack)[p + 1..]))]
    {
      var p := tpos[|tpos| - 1];
      tpos := tpos[..|tpos| - 1];
      if p == |tstack| {
        return;
      }
      if (|tstack| - p - 1) % 2 != 0 {
        tstack := tstack + [Text("")];
      }
      assert tstack[..p] == old(tstack)[..p] && tstack[p + 1..] == Padded(old(tstack)[p + 1..]);
      FinishMap(p);
    }

    method FinishMap(p: nat)
      requires p < |tstack| && (|tstack| - p - 1) % 2 == 0 && tstack[p].Array? && tstack[p].items != []
      modifies this`tstack
      ensures tstack == old(tstack)[..p] + [MapEntry(old(tstack)[p].items, old(tstack)[p + 1..])]
    {
      ghost var es := tstack[p + 1..];
      var head := tstack[p].items;
      head := head[|head| - 1 := Number(Decimal((|tstack| - p - 1) / 2))];
      var map' := TakePairs(p);
      MapText(PairsText(es));
      tstack := tstack[p := Text("[" + Join(head + [Text("{" + map')]) + "]")];
    }

    // Values and keys are taken off the stack, the text grows to the left.
    method TakePairs(p: nat) returns (text: string)
      requires p < |tstack| && (|tstack| - p - 1) % 2 == 0
      modifies this`tstack
      ensures tstack == old(tstack)[..p + 1] && text == PairsText(old(tstack)[p + 1..]) + "}"
    {
      ghost var all, pairs := tstack, (|tstack| - p - 1) / 2;
      text := "}";
      var first := true;
      NothingTaken(all);
      while |tstack| > p + 1
        invariant 0 <= pairs && |tstack| == p + 1 + 2 * pairs && Taken(all, |tstack|, tstack, text)
        invariant first == (|tstack| == |all|)
        decreases pairs
      {
        text := TakePair(first, text, all);
        first, pairs := false, pairs - 1;
      }
    }

    method TakePair(first: bool, text: string, ghost all: seq<Entry>) returns (text': string)
      requires |tstack| >= 2 && Taken(all, |tstack|, tstack, text) && first == (|tstack| == |all|)
      modifies this`tstack
      ensures |tstack| == |old(tstack)| - 2 && Taken(all, |tstack|, tstack, text')
    {
      var v := tstack[|tstack| - 1];
      var k := tstack[|tstack| - 2];
      PairAdded(all, |tstack| - 2, text);
      tstack := tstack[..|tstack| - 2];
      text' := KeyText(k) + ":" + AsText(v) + (if first then text else "," + text);
    }

    method WriteListBegin(elemType: TType, size: nat)
      modifies this`tstack, this`tpos
      ensures tpos == old(tpos) + [|old(tstack)|]
      ensures tstack == old(tstack) + [Array([Text(TypeName(elemType)), Number(Decimal(size))])]
    {
      tpos := tpos + [|tstack|];
      tstack := tstack + [Array([Text(TypeName(elemType)), Number(Decimal(size))])];
    }

    // writeSetBegin and writeSetEnd do the same.
    method WriteListEnd()
      requires tpos != [] && tpos[|tpos| - 1] < |tstack| && tstack[tpos[|tpos| - 1]].Array?
      modifies this`tstack, this`tpos
      ensures tpos == old(tpos)[..|old(tpos)| - 1]
      ensures var p := old(tpos)[|old(tpos)| - 1];
        tstack == old(tstack)[..p] + [Text("[" + Join(old(tstack)[p].items + old(tstack)[p + 1..]) + "]")]
    {
      var p := tpos[|tpos| - 1];
      tpos := tpos[..|tpos| - 1];
      ghost var all, i := tstack, 0;
      MovedNoneOrAll(all, p);
      while |tstack| > p + 1
        invariant 0 <= i < |all| - p && tstack == Moved(all, p, i) && tpos == old(tpos)[..|old(tpos)| - 1]
        decreases |tstack|
      {
        MoveOne(all, p, i);
        var tmpVal := tstack[p + 1];
        tstack := tstack[..p + 1] + tstack[p + 2..];
        tstack := tstack[p := Array(tstack[p].items + [tmpVal])];
        i := i + 1;
      }
      assert i == |all| - p - 1;
      tstack := tstack[p := Text("[" + Join(tstack[p].items) + "]")];
    }

    method WriteBool(value: bool)
      modifies this`tstack
      ensures tstack == old(tstack) + [Number(if value then "1" else "0")]
    {
      tstack := tstack + [Number(if value then "1" else "0")];
    }

    // writeByte, writeI16, writeI32, writeDouble, and writeI64 for a number.
    method WriteNumber(text: string)
      modifies this`tstack
      ensures tstack == old(tstack) + [Number(text)]
    {
      tstack := tstack + [Number(text)];
    }

    method WriteBigI64(digits: string)
      modifies this`tstack
      ensures tstack == old(tstack) + [Text(digits)]
    {
      tstack := tstack + [Text(digits)];
    }

    method WriteString(str: Option<string>)
      modifies this`tstack
      ensures tstack == old(tstack) + [if str.None? then Null else Text(Quoted(Escape(str.value)))]
    {
      if str.None? {
        tstack := tstack + [Null];
      } else {
        var s := str.value;
        var escapedString := "";
        for i := 0 to |s|
          invariant escapedString == Escape(s[..i])
        {
          assert s[..i + 1][..i] == s[..i];
          var ch := s[i];
          escapedString := escapedString +
            (if ch == '\"' then "\\\""
             else if ch == '\\' then "\\\\"
             else if ch == BACKSPACE then "\\b"
             else if ch == FORMFEED then "\\f"
             else if ch == '\n' then "\\n"
             else if ch == '\r' then "\\r"
             else if ch == '\t' then "\\t"
             else [ch]);
        }
        assert s[..|s|] == s;
        tstack := tstack + [Text("\"" + escapedString + "\"")];
      }
    }

    /** The nested calls that generated code makes for a value: tpos is as before,
        and tstack has one more entry, the text of the recursive printer. */
    method WriteValue(v: Value)
      requires WellFormed(v)
      modifies this`tstack, this`tpos
      ensures tpos == old(tpos) && tstack == old(tstack) + [Print(v)]
      decreases v, 1
    {
      match v
      case BoolValue(b) => WriteBool(b);
      case NumberValue(t) => WriteNumber(t);
      case BigI64Value(d) => WriteBigI64(d);
      case StringValue(s) => WriteString(s);
      case StructValue(fields) => WriteStruct(fields);
      case MapValue(k, w, pairs) => WriteMap(k, w, pairs);
      case ListValue(t, items) => WriteList(t, items);
      case SetValue(t, items) => WriteList(t, items);
    }

    method WriteStruct(fields: seq<Field>)
      requires DistinctIds(fields) && WellFormedFields(fields)
      modifies this`tstack, this`tpos
      ensures tpos == old(tpos)
      ensures tstack == old(tstack) + [Text("{" + MembersText(PrintFields(fields)) + "}")]
      decreases fields, 0
    {
      WriteStructBegin();
      for i := 0 to |fields|
        invariant tpos == old(tpos) + [|old(tstack)|]
        invariant tstack == old(tstack) + [Object(PrintFields(fields[..i]))]
      {
        WriteField(fields[i], PrintFields(fields[..i]));
        FieldAdded(fields, i);
      }
      assert fields[..|fields|] == fields;
      WriteStructEnd();
    }

    method WriteField(f: Field, ghost members: seq<Member>)
      requires WellFormedField(f) && tstack != [] && tstack[|tstack| - 1] == Object(members)
      modifies this`tstack, this`tpos
      ensures tpos == old(tpos)
      ensures var m := PrintField(f);
        tstack == old(tstack)[..|old(tstack)| - 1] + [Object(SetMember(members, m.key, m.text))]
      decreases f, 2
    {
      WriteFieldBegin(f.fieldType, f.fieldId);
      WriteValue(f.value);
      WriteFieldEnd();
    }

    method WriteMap(keyType: TType, valType: TType, pairs: seq<Pair>)
      requires WellFormedPairs(pairs)
      modifies this`tstack, this`tpos
      ensures tpos == old(tpos) && tstack == old(tstack) + [Print(MapValue(keyType, valType, pairs))]
      decreases pairs, 1
    {
      WriteMapBegin(keyType, valType);
      WritePairs(pairs);
      MapPrinted(keyType, valType, pairs);
      WriteMapEnd();
    }

    method WritePairs(pairs: seq<Pair>)
      requires WellFormedPairs(pairs)
      modifies this`tstack, this`tpos
      ensures tpos == old(tpos) && tstack == old(tstack) + PrintPairs(pairs)
      decreases pairs, 0
    {
      for i := 0 to |pairs|
        invariant tpos == old(tpos) && tstack == old(tstack) + PrintPairs(pairs[..i])
      {
        WritePair(pairs[i]);
        assert pairs[..i + 1][..i] == pairs[..i];
      }
      assert pairs[..|pairs|] == pairs;
    }

    method WritePair(p: Pair)
      requires WellFormedPair(p)
      modifies this`tstack, this`tpos
      ensures tpos == old(tpos) && tstack == old(tstack) + PrintPair(p)
      decreases p, 2
    {
      WriteValue(p.key);
      WriteValue(p.value);
    }

    method WriteList(elemType: TType, items: seq<Value>)
      requires WellFormedAll(items)
      modifies this`tstack, this`tpos
      ensures tpos == old(tpos) && tstack == old(tstack) + [Print(ListValue(elemType, items))]
      decreases items, 0
    {
      WriteListBegin(elemType, |items|);
      ghost var base := tstack;
      for i := 0 to |items|
        invariant tpos == old(tpos) + [|old(tstack)|]
        invariant tstack == base + PrintAll(items[..i])
      {
        WriteValue(items[i]);
        assert items[..i + 1][..i] == items[..i];
      }
      assert items[..|items|] == items;
      WriteListEnd();
    }

    /** A whole message leaves the stacks empty and gives the transport one text. */
    method WriteMessage(name: string, messageType: nat, seqid: int, arguments: Value)
      requires WellFormed(arguments)
      modifies this
      ensures tstack == [] && tpos == []
      ensures written == old(written)
        + ["[" + Join([Number("1"), Text(Quoted(name)), Number(Decimal(messageType)), Number(DecimalInt(seqid)),
                       Print(arguments)]) + "]"]
    {
      WriteMessageBegin(name, messageType, seqid);
      WriteValue(arguments);
      assert tstack[|tstack| - 2] == MessageHead(name, messageType, seqid);
      assert MessageHead(name, messageType, seqid).items + [Print(arguments)]
        == [Number("1"), Text(Quoted(name)), Number(Decimal(messageType)), Number(DecimalInt(seqid)), Print(arguments)];
      WriteMessageEnd();
    }
  }

  lemma FieldAdded(fields: seq<Field>, i: nat)
    requires i < |fields| && DistinctIds(fields)
    ensures var ms, m := PrintFields(fields[..i]), PrintField(fields[i]);
      SetMember(ms, m.key, m.text) == PrintFields(fields[..i + 1])
  {
    var ms, m := PrintFields(fields[..i]), PrintField(fields[i]);
    forall k | 0 <= k < i ensures ms[k].key != m.key {
      KeyOf(fields[..i], k);
      KeysDiffer(fields[k].fieldId, fields[i].fieldId);
    }
    NewMember(ms, m.key, m.text);
    assert fields[..i + 1][..i] == fields[..i];
  }

  lemma {:induction false} KeyOf(fields: seq<Field>, k: nat)
    requires k < |fields|
    ensures PrintFields(fields)[k].key == Quoted(DecimalInt(fields[k].fieldId))
  {
    if k < |fields| - 1 {
      KeyOf(fields[..|fields| - 1], k);
    }
  }

  lemma MapPrinted(k: TType, w: TType, pairs: seq<Pair>)
    ensures MapEntry([Text(TypeName(k)), Text(TypeName(w)), Number("0")], PrintPairs(pairs)) == Print(MapValue(k, w, pairs))
    ensures Padded(PrintPairs(pairs)) == PrintPairs(pairs)
  {
    MapEntryIs(Text(TypeName(k)), Text(TypeName(w)), PrintPairs(pairs), |pairs|);
  }

  lemma MapEntryIs(a: Entry, b: Entry, es: seq<Entry>, n: nat)
    requires |es| == 2 * n
    ensures MapEntry([a, b, Number("0")], es)
      == Text("[" + Join([a, b, Number(Decimal(n)), Text("{" + PairsText(es) + "}")]) + "]")
    ensures Padded(es) == es
  {
    HeadFilled(a, b, Number("0"), Number(Decimal(n)), Text("{" + PairsText(es) + "}"));
  }

  lemma HeadFilled(a: Entry, b: Entry, c: Entry, d: Entry, e: Entry)
    ensures [a, b, c][2 := d] + [e] == [a, b, d, e]
  {
  }

  function MessageHead(name: string, messageType: nat, seqid: int): Entry {
    Array([Number("1"), Text(Quoted(name)), Number(Decimal(messageType)), Number(DecimalInt(seqid))])
  }

  function Padded(es: seq<Entry>): seq<Entry> {
    if |es| % 2 != 0 then es + [Text("")] else es
  }

  // The text of a map, from its head and its keys and values.
  function MapEntry(head: seq<Entry>, es: seq<Entry>): Entry
    requires head != []
  {
    Text("[" + Join(head[|head| - 1 := Number(Decimal(|es| / 2))] + [Text("{" + PairsText(es) + "}")]) + "]")
  }

  // The stack has been emptied down to n entries, and text has the rest.
  ghost predicate Taken(all: seq<Entry>, n: nat, stack: seq<Entry>, text: string) {
    n <= |all| && stack == all[..n] && text == PairsText(all[n..]) + "}"
  }

  lemma NothingTaken(all: seq<Entry>)
    ensures Taken(all, |all|, all, "}")
  {
    assert all[|all|..] == [] && "" + "}" == "}";
  }

  lemma MapText(body: string)
    ensures "{" + (body + "}") == "{" + body + "}"
  {
  }

  // One more pair in front of the text m of those after it.
  lemma PairAdded(es: seq<Entry>, n: nat, m: string)
    requires n + 2 <= |es| && m == PairsText(es[n + 2..]) + "}"
    ensures PairsText(es[n..]) + "}"
      == KeyText(es[n]) + ":" + AsText(es[n + 1]) + (if |es| == n + 2 then m else "," + m)
  {
    assert es[n..][2..] == es[n + 2..];
    Appended(KeyText(es[n]) + ":" + AsText(es[n + 1]), if |es| > n + 2 then "," else "", PairsText(es[n + 2..]));
  }

  lemma Appended(a: string, b: string, c: string)
    ensures a + b + c + "}" == a + (b + (c + "}")) && "" + (c + "}") == c + "}"
  {
  }

  // The stack after i elements of a list have been moved into its array.
  function Moved(all: seq<Entry>, p: nat, i: nat): (t: seq<Entry>)
    requires p + 1 + i <= |all| && all[p].Array?
    ensures |t| == |all| - i
  {
    all[..p] + [Array(all[p].items + all[p + 1..p + 1 + i])] + all[p + 1 + i..]
  }

  lemma MovedNoneOrAll(all: seq<Entry>, p: nat)
    requires p < |all| && all[p].Array?
    ensures Moved(all, p, 0) == all
    ensures Moved(all, p, |all| - p - 1) == all[..p] + [Array(all[p].items + all[p + 1..])]
  {
    assert all[p].items + all[p + 1..p + 1] == all[p].items;
    assert all[p + 1..p + 1 + (|all| - p - 1)] == all[p + 1..];
  }

  lemma MoveOne(all: seq<Entry>, p: nat, i: nat)
    requires p + 1 + i < |all| && all[p].Array?
    ensures var t := Moved(all, p, i);
      && t[p].Array? && var u := t[..p + 1] + t[p + 2..];
      u[p := Array(t[p].items + [t[p + 1]])] == Moved(all, p, i + 1)
  {
    assert all[p].items + all[p + 1..p + 1 + i] + [all[p + 1 + i]] == all[p].items + all[p + 1..p + 2 + i];
  }
}
