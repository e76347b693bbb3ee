/** The main theorems about whole command lines: writing a script and parsing it gives its
meaning; and whatever parses is a script, and only one. */
module CommandLine {
  import opened Wrappers
  import opened Flags
  import opened Grammar
  import opened RoundTrip

  // ----- writing, then parsing ------------------------------------------------------------------------

  /** Not mistaken for a subcommand, should it come first. */
  predicate NoChild(cmd: Command, items: seq<Item>) {
    items != [] && items[0].Positional? ==> FindChild(cmd.children, items[0].text).None?
  }

  ghost predicate ValidItems(cmd: Command, allow: bool, items: seq<Item>) {
    items == [] || (ValidItem(cmd.flags, allow, items[0]) && ValidItems(cmd, allow, items[1..]))
  }

  lemma LongItemIsRead(flags: seq<Flag>, t: Tail, next: Option<string>, allow: bool)
    requires WellNamed(flags) && ValidItem(flags, allow, Long(t)) && NextFits(t, next)
    ensures var a := Write(Long(t))[0]; LongForm(a) && ReadFlag(flags, a, next, allow) == Got(Long(t))
  {
    LongIsRead(flags, t, next, allow);
    assert Write(Long(t))[0][2..] == WriteLongTail(t);
  }

  lemma ShortItemIsRead(flags: seq<Flag>, c: seq<Flag>, t: Tail, next: Option<string>, allow: bool)
    requires WellNamed(flags) && ValidItem(flags, allow, Short(c, t)) && NextFits(t, next)
    ensures var a := Write(Short(c, t))[0]; ShortForm(a) && ReadFlag(flags, a, next, allow) == Got(Short(c, t))
  {
    ShortArgumentIsReadIff(flags, c, t, next, allow);
  }

  lemma FlagItemIsRead(flags: seq<Flag>, item: Item, next: Option<string>, allow: bool)
    requires WellNamed(flags) && ValidItem(flags, allow, item) && !item.Positional?
    requires |Write(item)| == 2 ==> next == Some(Write(item)[1])
    ensures FlagForm(Write(item)[0]) && ReadFlag(flags, Write(item)[0], next, allow) == Got(item)
  {
    match item {
      case PassThrough(s) => PassThroughIsRead(flags, s, next);
      case Long(t) => LongItemIsRead(flags, t, next, allow);
      case Short(c, t) => ShortItemIsRead(flags, c, t, next, allow);
    }
  }

  lemma PassThroughIsRead(flags: seq<Flag>, s: string, next: Option<string>)
    requires Unknown(flags, s)
    ensures FlagForm(s) && ReadFlag(flags, s, next, true) == Got(PassThrough(s))
  {
    if LongForm(s) {
      assert s == "--" + s[2..];
      PrefixShift("--", "help=", s);
    } else {
      assert s == "-" + s[1..];
      PrefixShift("-", "h=", s);
    }
  }

  lemma PrefixShift(p: string, q: string, s: string)
    requires |p| <= |s| && s[..|p|] == p
    ensures p + q <= s <==> q <= s[|p|..]
  {
    if q <= s[|p|..] {
      assert s == p + s[|p|..];
    }
    if p + q <= s {
      assert s[..|p + q|][|p|..] == q;
    }
  }

  lemma ItemIsRead(env: Env, cmd: Command, argv: seq<string>, i: nat, item: Item, input: bool, st: Store,
                   args: seq<string>)
    requires WellNamed(cmd.flags) && ValidItem(cmd.flags, env.allow, item)
    requires i + |Write(item)| <= |argv| && argv[i..i + |Write(item)|] == Write(item)
    requires item.Positional? && !input ==> FindChild(cmd.children, item.text).None?
    ensures Parse(env, cmd, argv, i, input, st, args) == ParseItem(env, cmd, argv, i, item, st, args)
  {
    var w := Write(item);
    assert argv[i] == argv[i..i + |w|][0];
    if |w| == 2 {
      assert argv[i + 1] == argv[i..i + |w|][1];
    }
    if !item.Positional? {
      FlagItemIsRead(cmd.flags, item, Next(argv, i), env.allow);
    }
  }

  /** Written items are read one by one, up to the first error or to what follows them. */
  lemma {:induction false} ItemsThenRest(env: Env, cmd: Command, argv: seq<string>, i: nat, items: seq<Item>,
                                         rest: seq<string>, input: bool, st: Store, args: seq<string>)
    requires WellNamed(cmd.flags) && ValidItems(cmd, env.allow, items) && (input || NoChild(cmd, items))
    requires i <= |argv| && argv[i..] == WriteAll(items) + rest
    ensures var m, j := Meaning(env, cmd, items, i, st, args), i + |WriteAll(items)|;
      && j <= |argv| && argv[j..] == rest
      && Parse(env, cmd, argv, i, input, st, args) ==
         if m.Done? then Parse(env, cmd, argv, j, input || items != [], m.store, m.args) else m
    decreases |items|
  {
    hide Parse, Apply, WellNamed, ValidItem, Write, WriteAll;
    if items == [] {
      NothingWritten(rest);
    } else {
      WrittenFirst(items, rest);
      HeadRoundTrip(env, cmd, argv, i, items[0], WriteAll(items[1..]) + rest, input, st, args);
      var p, j := Apply(env, items[0], i, st, args), i + |Write(items[0])|;
      SliceSplits(argv, i, WriteAll(items), rest);
      if p.Progress? {
        ItemsThenRest(env, cmd, argv, j, items[1..], rest, true, p.store, p.args);
      }
    }
  }

  lemma NothingWritten(rest: seq<string>)
    ensures WriteAll([]) == [] && WriteAll([]) + rest == rest
  {}

  lemma WrittenFirst(items: seq<Item>, rest: seq<string>)
    requires items != []
    ensures WriteAll(items) + rest == Write(items[0]) + (WriteAll(items[1..]) + rest)
    ensures |WriteAll(items)| == |Write(items[0])| + |WriteAll(items[1..])|
  {
    hide Write;
    Associates(Write(items[0]), WriteAll(items[1..]), rest);
  }

  lemma Associates(a: seq<string>, b: seq<string>, c: seq<string>)
    ensures a + b + c == a + (b + c)
  {}

  lemma ItemsRoundTrip(env: Env, cmd: Command, argv: seq<string>, i: nat, items: seq<Item>, input: bool,
                       st: Store, args: seq<string>)
    requires WellNamed(cmd.flags) && ValidItems(cmd, env.allow, items) && (input || NoChild(cmd, items))
    requires i <= |argv| && argv[i..] == WriteAll(items)
    ensures Parse(env, cmd, argv, i, input, st, args) == Meaning(env, cmd, items, i, st, args)
  {
    hide ReadFlag, FlagForm, Apply, WellNamed, ValidItem, Write;
    assert WriteAll(items) + [] == WriteAll(items);
    ItemsThenRest(env, cmd, argv, i, items, [], input, st, args);
    DoneKeepsCommand(env, cmd, items, i, st, args);
  }

  lemma {:induction false} DoneKeepsCommand(env: Env, cmd: Command, items: seq<Item>, i: nat, st: Store,
                                            args: seq<string>)
    ensures var m := Meaning(env, cmd, items, i, st, args); m.command == cmd && (m.Done? || m.Failed?)
    decreases |items|
  {
    if items != [] {
      var p := Apply(env, items[0], i, st, args);
      if p.Progress? {
        DoneKeepsCommand(env, cmd, items[1..], i + |Write(items[0])|, p.store, p.args);
      }
    }
  }

  lemma SliceSplits(argv: seq<string>, i: nat, head: seq<string>, tail: seq<string>)
    requires i <= |argv| && argv[i..] == head + tail
    ensures i + |head| <= |argv| && argv[i..i + |head|] == head && argv[i + |head|..] == tail
  {
    assert argv[i..i + |head|] == argv[i..][..|head|];
    assert argv[i + |head|..] == argv[i..][|head|..];
  }

  lemma HeadRoundTrip(env: Env, cmd: Command, argv: seq<string>, i: nat, item: Item, tail: seq<string>, input: bool,
                      st: Store, args: seq<string>)
    requires WellNamed(cmd.flags) && ValidItem(cmd.flags, env.allow, item) && (input || NoChild(cmd, [item]))
    requires i <= |argv| && argv[i..] == Write(item) + tail
    ensures i + |Write(item)| <= |argv| && argv[i + |Write(item)|..] == tail
    ensures var o, p := Parse(env, cmd, argv, i, input, st, args), Apply(env, item, i, st, args);
      o == if p.Progress? then Parse(env, cmd, argv, i + |Write(item)|, true, p.store, p.args)
           else Failed(p.code, cmd, p.store, args)
  {
    hide ReadFlag, WellNamed, ValidItem, Apply, FlagForm;
    SliceSplits(argv, i, Write(item), tail);
    assert item.Positional? && !input ==> FindChild(cmd.children, item.text).None?;
    ItemIsRead(env, cmd, argv, i, item, input, st, args);
  }

  /** The command a path of subcommand names leads to. */
  function Descend(cmd: Command, path: seq<string>): Option<Command>
    decreases |path|
  {
    if path == [] then Some(cmd)
    else if FlagForm(path[0]) then None
    else
      match FindChild(cmd.children, path[0])
      case None => None
      case Some(c) => Descend(c, path[1..])
  }

  lemma {:induction false} PathIsFollowed(env: Env, cmd: Command, before: seq<string>, path: seq<string>,
                                          rest: seq<string>, st: Store)
    requires Descend(cmd, path).Some?
    ensures Parse(env, cmd, before + path + rest, |before|, false, st, []) ==
            Parse(env, Descend(cmd, path).value, before + path + rest, |before| + |path|, false, st, [])
    decreases |path|
  {
    var argv := before + path + rest;
    if path != [] {
      assert argv[|before|] == path[0];
      assert argv == (before + [path[0]]) + path[1..] + rest;
      PathIsFollowed(env, FindChild(cmd.children, path[0]).value, before + [path[0]], path[1..], rest, st);
    }
  }

  /** Round trip: a subcommand path and a list of items, written in any mix of spellings and
  parsed, give exactly what the items mean, success or failure. */
  lemma CommandLineRoundTrip(env: Env, root: Command, path: seq<string>, cmd: Command, items: seq<Item>, st: Store)
    requires Descend(root, path) == Some(cmd)
    requires WellNamed(cmd.flags) && ValidItems(cmd, env.allow, items) && NoChild(cmd, items)
    ensures Parse(env, root, path + WriteAll(items), 0, false, st, []) == Meaning(env, cmd, items, |path|, st, [])
  {
    assert (path + WriteAll(items))[|path|..] == WriteAll(items);
    ItemsRoundTrip(env, cmd, path + WriteAll(items), |path|, items, false, st, []);
    PathFromStart(env, root, path, WriteAll(items), st);
  }

  lemma PathFromStart(env: Env, root: Command, path: seq<string>, rest: seq<string>, st: Store)
    requires Descend(root, path).Some?
    ensures Parse(env, root, path + rest, 0, false, st, []) ==
            Parse(env, Descend(root, path).value, path + rest, |path|, false, st, [])
  {
    PathIsFollowed(env, root, [], path, rest, st);
    assert [] + path + rest == path + rest;
  }

  // ----- parsing, then writing ---------------------------------------------------------------------------

  lemma LongReadingIsValid(flags: seq<Flag>, body: string, next: Option<string>, allow: bool)
    requires body != ""
    ensures var r := ReadLong(flags, body, next, allow);
      r.Got? ==> && ValidItem(flags, allow, r.item) && !r.item.Positional?
                 && Write(r.item)[0] == "--" + body && (|Write(r.item)| == 2 ==> next == Some(Write(r.item)[1]))
  {
    hide Unknown;
    var r := ReadLong(flags, body, next, allow);
    FoundLong(flags, body);
    if r.Got? {
      match r.item {
        case Long(HelpOff(v)) => assert body == "help=" + v;
        case Long(Equals(f, v)) => assert body == f.name + "=" + v;
        case PassThrough(s) => LongPassThrough(flags, body);
        case _ =>
      }
    }
  }

  lemma LongPassThrough(flags: seq<Flag>, body: string)
    requires body != "" && body != "help" && !("help=" <= body) && FindLong(flags, body).None?
    ensures Unknown(flags, "--" + body)
  {
    var s := "--" + body;
    assert s[2..] == body;
    PrefixShift("--", "help=", s);
  }

  lemma {:induction false} ShortReadingIsValid(flags: seq<Flag>, body: string, next: Option<string>, allow: bool,
                                               done: seq<Flag>)
    requires body != "" && (Letters(done) + body)[0] != '-'
    requires forall f <- done :: f in flags && Boolish(f) && f.short != NO_SHORT
    requires (forall k :: 1 <= k < |done| ==> done[k].short != '=') && (done != [] ==> body[0] != '=')
    ensures var r := ReadShort(flags, body, next, allow, done);
      r.Got? ==> && ValidItem(flags, allow, r.item) && !r.item.Positional?
                 && Write(r.item)[0] == "-" + Letters(done) + body
                 && (|Write(r.item)| == 2 ==> next == Some(Write(r.item)[1]))
    decreases |body|
  {
    hide Unknown;
    var r := ReadShort(flags, body, next, allow, done);
    if r.Got? {
      var found := FindShort(flags, body[0]);
      FoundShort(flags, body[0]);
      if body != "h" && !("h=" <= body) && found.Some? && |body| > 1 && body[1] != '=' && Boolish(found.value) {
        LettersSnoc(done, found.value);
        assert Letters(done + [found.value]) + body[1..] == Letters(done) + body;
        assert "-" + Letters(done + [found.value]) + body[1..] == "-" + Letters(done) + body;
        ShortReadingIsValid(flags, body[1..], next, allow, done + [found.value]);
      } else {
        ShortEndIsValid(flags, body, next, allow, done);
      }
    }
  }

  lemma {:induction false} LettersSnoc(c: seq<Flag>, f: Flag)
    ensures Letters(c + [f]) == Letters(c) + [f.short]
  {
    if c != [] {
      assert (c + [f])[1..] == c[1..] + [f];
      LettersSnoc(c[1..], f);
    }
  }

  lemma ShortEndIsValid(flags: seq<Flag>, body: string, next: Option<string>, allow: bool, done: seq<Flag>)
    requires body != "" && (Letters(done) + body)[0] != '-'
    requires forall f <- done :: f in flags && Boolish(f) && f.short != NO_SHORT
    requires (forall k :: 1 <= k < |done| ==> done[k].short != '=') && (done != [] ==> body[0] != '=')
    requires var found := FindShort(flags, body[0]);
      !(body != "h" && !("h=" <= body) && found.Some? && |body| > 1 && body[1] != '=' && Boolish(found.value))
    ensures var r := ReadShort(flags, body, next, allow, done);
      r.Got? ==> && ValidItem(flags, allow, r.item) && !r.item.Positional?
                 && Write(r.item)[0] == "-" + Letters(done) + body
                 && (|Write(r.item)| == 2 ==> next == Some(Write(r.item)[1]))
  {
    ShortTailText(flags, body, next, allow, done);
    ShortPassThrough(flags, body, next, allow, done);
  }

  lemma ShortPassThrough(flags: seq<Flag>, body: string, next: Option<string>, allow: bool, done: seq<Flag>)
    requires body != "" && (Letters(done) + body)[0] != '-'
    requires var found := FindShort(flags, body[0]);
      !(body != "h" && !("h=" <= body) && found.Some? && |body| > 1 && body[1] != '=' && Boolish(found.value))
    ensures var r := ReadShort(flags, body, next, allow, done);
      r.Got? && !r.item.Short? ==>
        r.item == PassThrough("-" + body) && done == [] && allow && Unknown(flags, "-" + body)
  {
    var s := "-" + body;
    assert s[1..] == body;
    PrefixShift("-", "h=", s);
  }

  lemma ShortTailText(flags: seq<Flag>, body: string, next: Option<string>, allow: bool, done: seq<Flag>)
    requires body != ""
    requires var found := FindShort(flags, body[0]);
      !(body != "h" && !("h=" <= body) && found.Some? && |body| > 1 && body[1] != '=' && Boolish(found.value))
    ensures var r := ReadShort(flags, body, next, allow, done);
      r.Got? && r.item.Short? ==> && r.item.cluster == done && WriteShortTail(r.item.tail) == body
                                  && ValidTail(flags, r.item.tail) && HasShort(r.item.tail)
                                  && (r.item.tail.Separate? ==> next == Some(r.item.tail.value))
  {
    var r := ReadShort(flags, body, next, allow, done);
    FoundShort(flags, body[0]);
    if r.Got? && r.item.Short? {
      match r.item.tail {
        case HelpOff(v) => assert body == "h=" + v;
        case Equals(f, v) => assert body == [f.short, '='] + v;
        case Inline(f, v) => assert body == [f.short] + v;
        case _ => assert body == [body[0]];
      }
    }
  }

  /** Whatever flag argument is read as an item is that item, written. */
  lemma FlagReadingIsValid(flags: seq<Flag>, a: string, next: Option<string>, allow: bool)
    requires FlagForm(a)
    ensures var r := ReadFlag(flags, a, next, allow);
      r.Got? ==> && ValidItem(flags, allow, r.item) && !r.item.Positional?
                 && Write(r.item)[0] == a && (|Write(r.item)| == 2 ==> next == Some(Write(r.item)[1]))
  {
    if LongForm(a) {
      LongReadingIsValid(flags, a[2..], next, allow);
      assert "--" + a[2..] == a;
    } else {
      assert Letters([]) + a[1..] == a[1..];
      ShortReadingIsValid(flags, a[1..], next, allow, []);
      assert "-" + Letters([]) + a[1..] == a;
    }
  }

  /** The arguments `rest` are this script: a path from `cmd` to `final`, and valid items. */
  ghost predicate IsScript(path: seq<string>, items: seq<Item>, allow: bool, cmd: Command, final: Command,
                           rest: seq<string>, input: bool)
  {
    && path + WriteAll(items) == rest
    && Descend(cmd, path) == Some(final) && (input ==> path == [])
    && ValidItems(final, allow, items) && (!input ==> NoChild(final, items))
  }

  /** The item at the head of the rest of a successful parse, and the progress it makes. */
  lemma HeadItem(env: Env, cmd: Command, argv: seq<string>, i: nat, input: bool, st: Store, args: seq<string>)
    returns (item: Item, p: Progress)
    requires i < |argv| && Parse(env, cmd, argv, i, input, st, args).Done?
    requires input || FlagForm(argv[i]) || FindChild(cmd.children, argv[i]).None?
    ensures IsHead(env, cmd, argv, i, item, input) && p == Apply(env, item, i, st, args) && p.Progress?
    ensures Parse(env, cmd, argv, i, input, st, args) == Parse(env, cmd, argv, i + |Write(item)|, true, p.store, p.args)
  {
    if FlagForm(argv[i]) {
      item := ReadFlag(cmd.flags, argv[i], Next(argv, i), env.allow).item;
      FlagFits(env, cmd, argv, i, input);
    } else {
      item := Positional(argv[i]);
    }
    assert Parse(env, cmd, argv, i, input, st, args) == ParseItem(env, cmd, argv, i, item, st, args);
    p := Apply(env, item, i, st, args);
  }

  lemma FlagFits(env: Env, cmd: Command, argv: seq<string>, i: nat, input: bool)
    requires i < |argv| && FlagForm(argv[i])
    ensures var r := ReadFlag(cmd.flags, argv[i], Next(argv, i), env.allow);
      r.Got? ==> IsHead(env, cmd, argv, i, r.item, input)
  {
    FlagReadingIsValid(cmd.flags, argv[i], Next(argv, i), env.allow);
  }

  /** Argument `i` starts this item. */
  ghost predicate IsHead(env: Env, cmd: Command, argv: seq<string>, i: nat, item: Item, input: bool) {
    && i + |Write(item)| <= |argv| && Write(item) == argv[i..i + |Write(item)|]
    && ValidItem(cmd.flags, env.allow, item) && (!input ==> NoChild(cmd, [item]))
  }

  lemma PrependItem(items: seq<Item>, allow: bool, cmd: Command, rest: seq<string>, item: Item, input: bool)
    requires ValidItem(cmd.flags, allow, item) && (!input ==> NoChild(cmd, [item]))
    requires IsScript([], items, allow, cmd, cmd, rest, true)
    ensures IsScript([], [item] + items, allow, cmd, cmd, Write(item) + rest, input)
  {
    var all := [item] + items;
    assert all[1..] == items;
  }

  lemma PrependName(path: seq<string>, items: seq<Item>, allow: bool, cmd: Command, final: Command, rest: seq<string>,
                    name: string, child: Command)
    requires !FlagForm(name) && FindChild(cmd.children, name) == Some(child)
    requires IsScript(path, items, allow, child, final, rest, false)
    ensures IsScript([name] + path, items, allow, cmd, final, [name] + rest, false)
  {
    ConsAppend(name, path, WriteAll(items), rest);
    DescendCons(cmd, name, child, path);
  }

  lemma ConsAppend(name: string, path: seq<string>, tail: seq<string>, rest: seq<string>)
    requires path + tail == rest
    ensures [name] + path + tail == [name] + rest
  {
    assert [name] + path + tail == [name] + (path + tail);
  }

  lemma DescendCons(cmd: Command, name: string, child: Command, path: seq<string>)
    requires !FlagForm(name) && FindChild(cmd.children, name) == Some(child)
    ensures Descend(cmd, [name] + path) == Descend(child, path)
  {
    assert ([name] + path)[1..] == path;
  }

  lemma ComposeItem(env: Env, cmd: Command, argv: seq<string>, i: nat, item: Item, rest: seq<Item>, input: bool,
                    st: Store, args: seq<string>, p: Progress, o: Outcome)
    requires IsHead(env, cmd, argv, i, item, input) && p == Apply(env, item, i, st, args) && p.Progress?
    requires IsScript([], rest, env.allow, cmd, cmd, argv[i + |Write(item)|..], true)
    requires o == Meaning(env, cmd, rest, i + |Write(item)|, p.store, p.args)
    ensures IsScript([], [item] + rest, env.allow, cmd, cmd, argv[i..], input)
    ensures o == Meaning(env, cmd, [item] + rest, i, st, args)
  {
    hide Apply, ValidItem, Write;
    PrependItem(rest, env.allow, cmd, argv[i + |Write(item)|..], item, input);
    assert Write(item) + argv[i + |Write(item)|..] == argv[i..];
    assert ([item] + rest)[1..] == rest;
  }

  lemma ComposeName(allow: bool, cmd: Command, child: Command, final: Command, argv: seq<string>, i: nat,
                    path: seq<string>, items: seq<Item>)
    requires i < |argv| && !FlagForm(argv[i]) && FindChild(cmd.children, argv[i]) == Some(child)
    requires IsScript(path, items, allow, child, final, argv[i + 1..], false)
    ensures IsScript([argv[i]] + path, items, allow, cmd, final, argv[i..], false)
  {
    PrependName(path, items, allow, cmd, final, argv[i + 1..], argv[i], child);
    assert [argv[i]] + argv[i + 1..] == argv[i..];
  }

  /** Every successful parse is the meaning of a valid script that, written out, is exactly
  the command line: each argument has one role, as subcommand, positional, flag or value. */
  lemma {:induction false} EveryParseIsAScript(env: Env, cmd: Command, argv: seq<string>, i: nat, input: bool,
                                               st: Store, args: seq<string>, o: Outcome)
    returns (path: seq<string>, items: seq<Item>)
    requires i <= |argv| && o == Parse(env, cmd, argv, i, input, st, args) && o.Done?
    ensures IsScript(path, items, env.allow, cmd, o.command, argv[i..], input)
    ensures input ==> path == [] && o.command == cmd
    ensures o == Meaning(env, o.command, items, i + |path|, st, args)
    decreases |argv| - i, 2
  {
    hide ReadFlag, FlagForm, FindChild, ValidItem, Write;
    if i == |argv| {
      path, items := [], [];
      assert argv[i..] == [] && i + |path| == i;
    } else if !input && !FlagForm(argv[i]) && FindChild(cmd.children, argv[i]).Some? {
      path, items := ScriptFromName(env, cmd, argv, i, FindChild(cmd.children, argv[i]).value, st, args, o);
    } else {
      items := ScriptFromHead(env, cmd, argv, i, input, st, args, o);
      path := [];
      assert i + |path| == i;
    }
  }

  lemma {:induction false} ScriptFromHead(env: Env, cmd: Command, argv: seq<string>, i: nat, input: bool,
                                          st: Store, args: seq<string>, o: Outcome)
    returns (items: seq<Item>)
    requires i < |argv| && o == Parse(env, cmd, argv, i, input, st, args) && o.Done?
    requires input || FlagForm(argv[i]) || FindChild(cmd.children, argv[i]).None?
    ensures o.command == cmd && IsScript([], items, env.allow, cmd, cmd, argv[i..], input)
    ensures o == Meaning(env, cmd, items, i, st, args)
    decreases |argv| - i, 1
  {
    var item, p := HeadItem(env, cmd, argv, i, input, st, args);
    items := ScriptFromItem(env, cmd, argv, i, item, input, st, args, p, o);
  }

  lemma {:induction false} ScriptFromName(env: Env, cmd: Command, argv: seq<string>, i: nat, child: Command,
                                          st: Store, args: seq<string>, o: Outcome)
    returns (path: seq<string>, items: seq<Item>)
    requires i < |argv| && !FlagForm(argv[i]) && FindChild(cmd.children, argv[i]) == Some(child)
    requires o == Parse(env, child, argv, i + 1, false, st, args) && o.Done?
    ensures IsScript(path, items, env.allow, cmd, o.command, argv[i..], false)
    ensures o == Meaning(env, o.command, items, i + |path|, st, args)
    decreases |argv| - i, 0
  {
    hide Parse, Meaning, IsScript, FlagForm, FindChild;
    path, items := EveryParseIsAScript(env, child, argv, i + 1, false, st, args, o);
    ComposeName(env.allow, cmd, child, o.command, argv, i, path, items);
    path := [argv[i]] + path;
  }

  lemma {:induction false} ScriptFromItem(env: Env, cmd: Command, argv: seq<string>, i: nat, item: Item, input: bool,
                                          st: Store, args: seq<string>, p: Progress, o: Outcome)
    returns (items: seq<Item>)
    requires IsHead(env, cmd, argv, i, item, input) && p == Apply(env, item, i, st, args) && p.Progress?
    requires o == Parse(env, cmd, argv, i + |Write(item)|, true, p.store, p.args) && o.Done?
    ensures o.command == cmd && IsScript([], items, env.allow, cmd, cmd, argv[i..], input)
    ensures o == Meaning(env, cmd, items, i, st, args)
    decreases |argv| - i, 0
  {
    hide Parse, Apply, Meaning, IsScript;
    var path, rest := EveryParseIsAScript(env, cmd, argv, i + |Write(item)|, true, p.store, p.args, o);
    ComposeItem(env, cmd, argv, i, item, rest, input, st, args, p, o);
    items := [item] + rest;
  }

  // ----- one script only -----------------------------------------------------------------------------------

  /** Two items at the head of the same arguments are the same item. */
  lemma HeadUnambiguous(flags: seq<Flag>, allow: bool, a: Item, b: Item, argv: seq<string>)
    requires WellNamed(flags) && ValidItem(flags, allow, a) && ValidItem(flags, allow, b)
    requires Write(a) <= argv && Write(b) <= argv
    ensures a == b
  {
    assert Write(a)[0] == argv[0] == Write(b)[0];
    if !a.Positional? {
      FlagItemIsRead(flags, a, Next(argv, 0), allow);
    }
    if !b.Positional? {
      FlagItemIsRead(flags, b, Next(argv, 0), allow);
    }
  }

  lemma {:induction false} ItemsUnambiguous(cmd: Command, allow: bool, a: seq<Item>, b: seq<Item>)
    requires WellNamed(cmd.flags) && ValidItems(cmd, allow, a) && ValidItems(cmd, allow, b)
    requires WriteAll(a) == WriteAll(b)
    ensures a == b
  {
    if a != [] && b != [] {
      HeadUnambiguous(cmd.flags, allow, a[0], b[0], WriteAll(a));
      assert WriteAll(a[1..]) == WriteAll(a)[|Write(a[0])|..] == WriteAll(b[1..]);
      ItemsUnambiguous(cmd, allow, a[1..], b[1..]);
      assert a == [a[0]] + a[1..] && b == [b[0]] + b[1..];
    }
  }

  /** A command line is written by one script only: every argument has exactly one role. */
  lemma {:induction false} ScriptUnambiguous(root: Command, allow: bool, rest: seq<string>,
                                             pathA: seq<string>, a: seq<Item>, cmdA: Command,
                                             pathB: seq<string>, b: seq<Item>, cmdB: Command)
    requires IsScript(pathA, a, allow, root, cmdA, rest, false) && WellNamed(cmdA.flags)
    requires IsScript(pathB, b, allow, root, cmdB, rest, false) && WellNamed(cmdB.flags)
    ensures pathA == pathB && a == b && cmdA == cmdB
    decreases |rest|
  {
    hide ValidItem, Write, WellNamed;
    if pathA == [] && pathB == [] {
      assert [] + WriteAll(a) == WriteAll(a) && [] + WriteAll(b) == WriteAll(b);
      ItemsUnambiguous(root, allow, a, b);
    } else if pathA == [] {
      NameIsNoItem(root, allow, a, rest, pathB);
    } else if pathB == [] {
      NameIsNoItem(root, allow, b, rest, pathA);
    } else {
      assert pathA[0] == rest[0] == pathB[0];
      assert pathA[1..] + WriteAll(a) == rest[1..] == pathB[1..] + WriteAll(b);
      var child := FindChild(root.children, pathA[0]).value;
      ScriptUnambiguous(child, allow, rest[1..], pathA[1..], a, cmdA, pathB[1..], b, cmdB);
      assert pathA == [pathA[0]] + pathA[1..] && pathB == [pathB[0]] + pathB[1..];
    }
  }

  /** What starts with a subcommand's name is not written by items alone. */
  lemma NameIsNoItem(root: Command, allow: bool, items: seq<Item>, rest: seq<string>, path: seq<string>)
    requires WellNamed(root.flags) && ValidItems(root, allow, items) && NoChild(root, items)
    requires path != [] && Descend(root, path).Some? && path <= rest
    ensures WriteAll(items) != rest
  {
    if items != [] && WriteAll(items) == rest {
      assert Write(items[0])[0] == rest[0] == path[0];
      if !items[0].Positional? {
        FlagItemIsRead(root.flags, items[0], Next(Write(items[0]), 0), allow);
      }
      assert false;
    }
  }
}
