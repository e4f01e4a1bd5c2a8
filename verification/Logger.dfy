/** The log file of logger/src/ldlogger-logger.c: a JSON array to which each call
    of writeActions appends in place. */
module Logger {
  import opened Sequences
  import opened Wrappers

  // ----- the format -----

  function Line(key: string, value: string): string {
    "\t\t\"" + key + "\": \"" + value + "\""
  }

  // An object with three members, one on each line.
  function Entry(wd: string, command: string, file: string): (e: string)
    ensures |e| > 2
  {
    "\t{\n" + Line("directory", wd) + ",\n" + Line("command", command) + ",\n" + Line("file", file) + "\n" + "\t}\n"
  }

  lemma LineIs(key: string, value: string, rest: string, start: string, end: string)
    requires start == "\t\t\"" + key + "\": \"" && end == "\"" + rest
    ensures Line(key, value) + rest == start + value + end
  {
  }

  // An entry in parts, as the format string has them.
  lemma EntryIs(wd: string, command: string, file: string, first: string, second: string, third: string)
    requires first == "\t\t\"directory\": \"" + wd + "\",\n"
    requires second == "\t\t\"command\": \"" + command + "\",\n"
    requires third == "\t\t\"file\": \"" + file + "\"\n"
    ensures Entry(wd, command, file) == "\t{\n" + first + second + third + "\t}\n"
  {
    LineIs("directory", wd, ",\n", "\t\t\"directory\": \"", "\",\n");
    LineIs("command", command, ",\n", "\t\t\"command\": \"", "\",\n");
    LineIs("file", file, "\n", "\t\t\"file\": \"", "\"\n");
    EntryOf(Line("directory", wd), Line("command", command), Line("file", file));
  }

  lemma EntryOf(a: string, b: string, c: string)
    ensures "\t{\n" + a + ",\n" + b + ",\n" + c + "\n" + "\t}\n" == "\t{\n" + (a + ",\n") + (b + ",\n") + (c + "\n") + "\t}\n"
  {
  }

  // Entries joined by commas.
  function Body(es: seq<string>): string {
    if es == [] then ""
    else Body(es[..|es| - 1]) + (if |es| > 1 then "\t,\n" else "") + es[|es| - 1]
  }

  function LogText(es: seq<string>): string {
    "[\n" + Body(es) + "]"
  }

  ghost predicate AreEntries(es: seq<string>) {
    forall i :: 0 <= i < |es| ==> |es[i]| > 2
  }

  // A file that was never written to, or a complete array of the given entries.
  ghost predicate Holds(text: string, es: seq<string>) {
    AreEntries(es) && (text == LogText(es) || (text == "" && es == []))
  }

  /** The size test fsize > 5 holds exactly when an entry is present. */
  lemma SizeTest(text: string, es: seq<string>)
    requires Holds(text, es)
    ensures |text| > 5 <==> es != []
  {
    if es != [] && text != "" {
      assert |Body(es)| >= |es[|es| - 1]|;
    }
  }

  lemma BodyNext(es: seq<string>, e: string)
    ensures Body(es + [e]) == Body(es) + (if es != [] then "\t,\n" else "") + e
  {
    assert (es + [e])[..|es|] == es;
  }

  // ----- actions -----

  /** The command is missing when there is no memory for it. */
  datatype Action = Action(command: Option<string>, sources: seq<string>)

  function ActionEntries(wd: string, a: Action): (es: seq<string>)
    ensures AreEntries(es)
  {
    if a.command.None? then []
    else seq(|a.sources|, i requires 0 <= i < |a.sources| => Entry(wd, a.command.value, a.sources[i]))
  }

  function AllEntries(wd: string, actions: seq<Action>): (es: seq<string>)
    ensures AreEntries(es)
  {
    if actions == [] then []
    else AllEntries(wd, actions[..|actions| - 1]) + ActionEntries(wd, actions[|actions| - 1])
  }

  // ----- the file -----

  class Stream {
    var data: string
    var pos: nat

    ghost predicate Valid()
      reads this
    {
      pos <= |data|
    }

    constructor (content: string)
      ensures Valid() && data == content && pos == 0
    {
      data, pos := content, 0;
    }

    method SeekEnd(back: nat)
      requires back <= |data|
      modifies this`pos
      ensures Valid() && pos == |data| - back
    {
      pos := |data| - back;
    }

    // Overwrites what is there.
    method Print(s: string)
      requires Valid()
      modifies this
      ensures Valid() && pos == old(pos) + |s|
      ensures data == old(data[..pos]) + s + (if old(pos) + |s| <= |old(data)| then old(data)[old(pos) + |s|..] else "")
    {
      data := data[..pos] + s + (if pos + |s| <= |data| then data[pos + |s|..] else "");
      pos := pos + |s|;
    }

    // Everything before the position is written, a closing bracket may follow it.
    ghost predicate Written(es: seq<string>)
      reads this
    {
      Valid() && data[..pos] == "[\n" + Body(es) && |data| <= pos + 1
    }

    method Put(s: string, ghost text: string)
      requires Valid() && data[..pos] == text && |data| <= pos + 1
      modifies this
      ensures Valid() && data[..pos] == text + s && |data| <= pos + 1 && (s != "" ==> |data| == pos)
    {
      Print(s);
    }

    method WriteEntry(wd: string, command: string, file: string, entryCount: nat, ghost es: seq<string>) returns (count: nat)
      requires Written(es) && (entryCount > 0 <==> es != [])
      modifies this
      ensures Written(es + [Entry(wd, command, file)]) && count == entryCount + 1
    {
      ghost var text := data[..pos];
      count := entryCount + 1;
      if count > 1 {
        Put("\t,\n", text);
        text := text + "\t,\n";
      }
      var first := "\t\t\"directory\": \"" + wd + "\",\n";
      var second := "\t\t\"command\": \"" + command + "\",\n";
      var third := "\t\t\"file\": \"" + file + "\"\n";
      EntryIs(wd, command, file, first, second, third);
      Put("\t{\n" + first + second + third + "\t}\n", text);
      BodyNext(es, Entry(wd, command, file));
    }

    method WriteAction(wd: string, action: Action, entryCount: nat, ghost es: seq<string>) returns (count: nat)
      requires Written(es) && (entryCount > 0 <==> es != [])
      modifies this
      ensures Written(es + ActionEntries(wd, action)) && (count > 0 <==> es + ActionEntries(wd, action) != [])
    {
      count := entryCount;
      ghost var added := ActionEntries(wd, action);
      assert es + added[..0] == es;
      if action.command.None? {
        return;
      }
      for i := 0 to |action.sources|
        invariant Written(es + added[..i]) && (count > 0 <==> es + added[..i] != [])
      {
        count := WriteEntry(wd, action.command.value, action.sources[i], count, es + added[..i]);
        assert es + added[..i] + [added[i]] == es + added[..i + 1];
      }
      assert added[..|added|] == added;
    }

    /** After any call the file is still the empty file or a complete array, of all
        entries in order. */
    method WriteActions(wd: string, actions: seq<Action>, ghost es: seq<string>)
      requires Holds(data, es)
      modifies this
      ensures Holds(data, es + AllEntries(wd, actions))
      ensures actions != [] ==> data == LogText(es + AllEntries(wd, actions))
      ensures actions == [] ==> data == old(data)
    {
      if |actions| <= 0 {
        assert es + AllEntries(wd, actions) == es;
        return;
      }
      var entryCount := OpenArray(es);
      assert es + AllEntries(wd, actions[..0]) == es;
      for i := 0 to |actions|
        invariant Written(es + AllEntries(wd, actions[..i]))
        invariant entryCount > 0 <==> es + AllEntries(wd, actions[..i]) != []
      {
        ghost var done := es + AllEntries(wd, actions[..i]);
        entryCount := WriteAction(wd, actions[i], entryCount, done);
        NextAction(es, wd, actions, i);
      }
      assert actions[..|actions|] == actions;
      CloseArray(es + AllEntries(wd, actions));
    }

    // A new file gets an opening bracket; in an old one the closing bracket is to be overwritten.
    method OpenArray(ghost es: seq<string>) returns (entryCount: nat)
      requires Holds(data, es)
      modifies this
      ensures Written(es) && (entryCount > 0 <==> es != [])
    {
      entryCount := 0;
      SizeTest(data, es);
      SeekEnd(0);
      var fsize := pos;
      if fsize == 0 {
        Print("[\n");
      } else {
        SeekEnd(1);
        if fsize > 5 {
          entryCount := entryCount + 1;
        }
      }
    }

    method CloseArray(ghost es: seq<string>)
      requires Written(es)
      modifies this
      ensures data == LogText(es)
    {
      ghost var text := data[..pos];
      Put("]", text);
      assert data[..pos] == data;
    }
  }

  lemma NextAction(es: seq<string>, wd: string, actions: seq<Action>, i: nat)
    requires i < |actions|
    ensures es + AllEntries(wd, actions[..i]) + ActionEntries(wd, actions[i]) == es + AllEntries(wd, actions[..i + 1])
  {
    assert actions[..i + 1][..i] == actions[..i];
  }

  datatype Call = Call(wd: string, actions: seq<Action>)

  function CallEntries(c: Call): seq<string> {
    AllEntries(c.wd, c.actions)
  }

  predicate NothingToLog(calls: seq<Call>) {
    forall i :: 0 <= i < |calls| ==> calls[i].actions == []
  }

  /** Any number of calls, one after the other, on a file that did not exist. */
  method LogCalls(calls: seq<Call>) returns (text: string)
    ensures text == if NothingToLog(calls) then "" else LogText(FlatMap(CallEntries, calls))
  {
    text := "";
    for i := 0 to |calls|
      invariant Holds(text, FlatMap(CallEntries, calls[..i])) && (text == "" <==> NothingToLog(calls[..i]))
    {
      text := LogCall(text, calls[i], FlatMap(CallEntries, calls[..i]));
      FlatMapNext(CallEntries, calls, i);
      NothingNext(calls, i);
    }
    assert calls[..|calls|] == calls;
  }

  method LogCall(text: string, call: Call, ghost es: seq<string>) returns (text': string)
    requires Holds(text, es)
    ensures Holds(text', es + CallEntries(call)) && (text' == "" <==> text == "" && call.actions == [])
  {
    var stream := new Stream(text);
    stream.WriteActions(call.wd, call.actions, es);
    text' := stream.data;
  }

  lemma NothingNext(calls: seq<Call>, i: nat)
    requires i < |calls|
    ensures NothingToLog(calls[..i + 1]) <==> NothingToLog(calls[..i]) && calls[i].actions == []
  {
    assert calls[..i + 1] == calls[..i] + [calls[i]];
    assert NothingToLog(calls[..i + 1]) ==> calls[..i + 1][i].actions == [];
    assert forall k :: 0 <= k < i ==> calls[..i + 1][k] == calls[..i][k];
  }
}
