/** The program of example.c: its four flags, and what every command line leaves for the
load balancer. */
module Example {
  import opened Widths
  import opened Wrappers
  import opened Flags
  import opened Grammar
  import opened RoundTrip
  import opened CommandLine
  import opened Links
  import opened Registered
  import opened Registry
  import Executor
  import Numbers
  import ParseInt

  const SYNC := 0
  const ADDR := 1
  const BALANCE := 2
  const WORKER := 3

  const LOAD_BALANCE_ROUND := 1
  const LOAD_BALANCE_RANDOM := 2

  const SYNC_FLAG := Flag(1, "sync", 's', Bool, false, SYNC, (_: Val, _: Atom) => true)

  const BALANCE_FLAG := Flag(3, "balance", 'b', Uint(8), false, BALANCE,
                             (_: Val, a: Atom) => a == Number(LOAD_BALANCE_ROUND) || a == Number(LOAD_BALANCE_RANDOM))

  const WORKER_FLAG := Flag(4, "worker", 'w', Uint(8), false, WORKER, (_: Val, a: Atom) => a.Number? && a.n >= 2)

  /** `addrOk` is parse_shared_address, which is not part of this model. */
  function AddrFlag(addrOk: string -> bool): Flag {
    Flag(2, "addr", 'a', Str, false, ADDR, (_: Val, a: Atom) => a.Word? && addrOk(a.s))
  }

  function Root(name: string, addrOk: string -> bool): Command {
    Command(name, [SYNC_FLAG, AddrFlag(addrOk), BALANCE_FLAG, WORKER_FLAG], [], true)
  }

  const DEFAULTS := Store(
    map[SYNC := Scalar(Truth(false)), ADDR := Scalar(Word(":9000")),
        BALANCE := Scalar(Number(1)), WORKER := Scalar(Number(8))],
    {})

  // ----- registering the flags ----------------------------------------------------------------------

  lemma {:induction false} NewNameDoesNotClash(fs: seq<FlagRecord>, owner: seq<nat>, name: string, short: char, x: nat)
    requires |fs| == |owner|
    requires forall y :: x <= y < |fs| && owner[y] == ROOT ==> fs[y].name != name && fs[y].short != short
    ensures Clash(fs, owner, ROOT, name, short, x) == 0
    decreases |fs| - x
  {
    if x < |fs| {
      NewNameDoesNotClash(fs, owner, name, short, x + 1);
    }
  }

  /** The root of a registry, as the parser walks it. */
  ghost function RootView(r: Registry): Command
    reads r
    requires Sound(r.commands, r.flags, r.owner)
  {
    View(r.commands, r.flags, ROOT)
  }

  lemma RecordsAreSeen(cs: seq<CommandRecord>, fs: seq<FlagRecord>, owner: seq<nat>, x: nat)
    requires Sound(cs, fs, owner) && 0 < x < |fs| && owner[x] == ROOT
    ensures FlagAt(fs, x) in View(cs, fs, ROOT).flags
  {
    FlagListIsRegistered(cs, fs, owner, ROOT);
    FlagsAreRegistered(fs, owner, ROOT, |fs|, FlagAt(fs, x));
  }

  /** A legal flag whose name and letter are not taken. */
  ghost predicate New(f: Flag, flags: seq<Flag>) {
    && FlagNameOk(f.name) && f.name != "help" && f.short != 'h'
    && forall g <- flags :: g.name != f.name && g.short != f.short
  }

  lemma FlagsAreNew(addrOk: string -> bool)
    ensures New(SYNC_FLAG, []) && New(AddrFlag(addrOk), [SYNC_FLAG])
    ensures New(BALANCE_FLAG, [SYNC_FLAG, AddrFlag(addrOk)])
    ensures New(WORKER_FLAG, [SYNC_FLAG, AddrFlag(addrOk), BALANCE_FLAG])
  {
    hide Quoted;
    LettersAreFine("sync");
    LettersAreFine("addr");
    LettersAreFine("balance");
    LettersAreFine("worker");
    assert "sync"[0] == 's' && "addr"[0] == 'a' && "balance"[0] == 'b' && "worker"[0] == 'w' && "help"[0] == 'h';
  }

  lemma LettersAreFine(s: string)
    requires forall k :: 0 <= k < |s| ==> 'a' <= s[k] <= 'z'
    ensures !Quoted(s)
  {}

  lemma OneByOne(name: string, addrOk: string -> bool)
    ensures var addr := AddrFlag(addrOk);
      && addr.id == 2 && [] + [SYNC_FLAG] == [SYNC_FLAG] && [SYNC_FLAG] + [addr] == [SYNC_FLAG, addr]
      && [SYNC_FLAG, addr] + [BALANCE_FLAG] == [SYNC_FLAG, addr, BALANCE_FLAG]
      && Root(name, addrOk) == Command(name, [SYNC_FLAG, addr, BALANCE_FLAG] + [WORKER_FLAG], [], true)
  {}

  lemma BareRoot(r: Registry, name: string)
    requires r.Valid() && r.commands[ROOT] == CommandRecord(0, 0, 0, 0, name, true)
    ensures Sound(r.commands, r.flags, r.owner) && RootView(r) == Command(name, [], [], true)
  {
    assert Linked(r.commands, r.flags, r.owner);
    BareView(r.commands, r.flags, name);
  }

  lemma BareView(cs: seq<CommandRecord>, fs: seq<FlagRecord>, name: string)
    requires Walkable(cs, fs) && cs[ROOT] == CommandRecord(0, 0, 0, 0, name, true)
    ensures View(cs, fs, ROOT) == Command(name, [], [], true)
  {}

  /** PPP_C_FLAGS_ADD_FLAG for the root command, with the verify hook that is put in later. */
  method Add(r: Registry, f: Flag, allocOk: bool) returns (err: int)
    requires Sound(r.commands, r.flags, r.owner) && f.id == |r.flags|
    requires New(f, RootView(r).flags) && RootView(r).children == []
    modifies r
    ensures Sound(r.commands, r.flags, r.owner) && (err == 0 <==> allocOk)
    ensures |r.flags| == f.id + if err == 0 then 1 else 0
    ensures RootView(r) == if err == 0 then old(RootView(r)).(flags := old(RootView(r)).flags + [f])
                           else old(RootView(r))
  {
    ghost var cs, fs, owner := r.commands, r.flags, r.owner;
    forall y | 1 <= y < |fs| && owner[y] == ROOT ensures fs[y].name != f.name && fs[y].short != f.short {
      RecordsAreSeen(cs, fs, owner, y);
    }
    NewNameDoesNotClash(fs, owner, f.name, f.short, 1);
    var x;
    x, err := r.AddFlag(ROOT, f.name, f.short, Some((f.kind, f.isArray)), f.target, f.accepts, allocOk);
    if err == 0 {
      assert Linked(r.commands, r.flags, r.owner) && cs[ROOT].child == 0;
      FlagOrder(cs, r.commands, fs, r.flags, owner, ROOT, ROOT);
    }
  }

  /** What main does before it calls execute: a registry whose root, as the parser walks it, is
  `Root`, or an error. */
  method Register(name: string, addrOk: string -> bool, allocOk: nat -> bool) returns (r: Registry?, err: int)
    ensures err == 0 <==> name != "" && name[0] != '-' && !Quoted(name) && forall k :: 0 <= k < 5 ==> allocOk(k)
    ensures err == 0 ==> r != null && fresh(r) && Sound(r.commands, r.flags, r.owner)
    ensures err == 0 ==> RootView(r) == Root(name, addrOk)
  {
    hide New, View, CommandNameOk, Sound, RootView, AddrFlag, Root;
    FlagsAreNew(addrOk);
    OneByOne(name, addrOk);
    r, err := Create(name, true, allocOk(0));
    if err != 0 {
      return;
    }
    BareRoot(r, name);
    err := Add(r, SYNC_FLAG, allocOk(1));
    if err != 0 {
      return;
    }
    err := Add(r, AddrFlag(addrOk), allocOk(2));
    if err != 0 {
      return;
    }
    err := Add(r, BALANCE_FLAG, allocOk(3));
    if err != 0 {
      return;
    }
    err := Add(r, WORKER_FLAG, allocOk(4));
  }

  /** What the load balancer relies on. */
  predicate Usable(st: Store) {
    && Current(st, BALANCE) in {Scalar(Number(1)), Scalar(Number(2))}
    && Current(st, WORKER).Scalar? && Current(st, WORKER).atom.Number?
    && 2 <= Current(st, WORKER).atom.n <= 255
  }

  lemma Uint8Range(text: string)
    ensures var a := ParseAtom(Uint(8), text); a.Some? ==> a.value.Number? && 0 <= a.value.n <= 255
  {
    ParseInt.ValueInRange(text, 0, 8);
    MaxValueIsExact(8);
  }

  lemma SetKeepsUsable(name: string, addrOk: string -> bool, f: Flag, text: string, room: bool, st: Store)
    requires Usable(st) && f in Root(name, addrOk).flags
    ensures var r := SetFlag(f, text, room, st); r.Some? ==> Usable(r.value)
  {
    Uint8Range(text);
  }

  lemma {:induction false} ClusterKeepsUsable(name: string, addrOk: string -> bool, env: Env, c: seq<Flag>, i: nat,
                                              st: Store)
    requires Usable(st) && forall f <- c :: f in Root(name, addrOk).flags
    ensures Usable(SetCluster(env, c, i, st))
  {
    if c != [] {
      var init, f := c[..|c| - 1], c[|c| - 1];
      assert f in c;
      ClusterKeepsUsable(name, addrOk, env, init, i, st);
      SetKeepsUsable(name, addrOk, f, "1", env.room(i, |c|), SetCluster(env, init, i, st));
    }
  }

  lemma TailKeepsUsable(name: string, addrOk: string -> bool, env: Env, t: Tail, i: nat, pos: nat, st: Store)
    requires Usable(st) && ValidTail(Root(name, addrOk).flags, t)
    ensures var r := SetTail(env, t, i, pos, st); r.Some? ==> Usable(r.value)
  {
    if !t.HelpOff? {
      SetKeepsUsable(name, addrOk, t.flag, if t.Bare? then "1" else t.value, env.room(i, pos), st);
    }
  }

  lemma ItemKeepsUsable(name: string, addrOk: string -> bool, env: Env, item: Item, i: nat, st: Store,
                        args: seq<string>)
    requires Usable(st) && ValidItem(Root(name, addrOk).flags, env.allow, item)
    ensures var p := Apply(env, item, i, st, args); Usable(p.store)
  {
    match item {
      case Long(t) => TailKeepsUsable(name, addrOk, env, t, i, 2, st);
      case Short(c, t) =>
        ClusterKeepsUsable(name, addrOk, env, c, i, st);
        TailKeepsUsable(name, addrOk, env, t, i, |c| + 1, SetCluster(env, c, i, st));
      case _ =>
    }
  }

  lemma {:induction false} MeaningKeepsUsable(name: string, addrOk: string -> bool, cmd: Command, env: Env,
                                              items: seq<Item>,
                                              i: nat, st: Store, args: seq<string>)
    requires cmd == Root(name, addrOk) && Usable(st)
    requires ValidItems(cmd, env.allow, items)
    ensures Usable(Meaning(env, cmd, items, i, st, args).store)
    decreases |items|
  {
    if items != [] {
      ItemKeepsUsable(name, addrOk, env, items[0], i, st, args);
      var p := Apply(env, items[0], i, st, args);
      if p.Progress? {
        MeaningKeepsUsable(name, addrOk, cmd, env, items[1..], i + |Write(items[0])|, p.store, p.args);
      }
    }
  }

  lemma NoSubcommands(cmd: Command, path: seq<string>)
    requires cmd.children == [] && Descend(cmd, path).Some?
    ensures path == [] && Descend(cmd, path) == Some(cmd)
  {}

  /** Whatever the command line, if the program's handler runs at all, it finds a known
  balancing algorithm and between 2 and 255 workers. */
  lemma HandlerFindsUsableSettings(name: string, addrOk: string -> bool, env: Env, argv: seq<string>)
    ensures var o := Parse(env, Root(name, addrOk), argv, 0, false, DEFAULTS, []);
      o.Done? ==> o.command == Root(name, addrOk) && Usable(o.store)
  {
    var o := Parse(env, Root(name, addrOk), argv, 0, false, DEFAULTS, []);
    if o.Done? {
      var path, items := EveryParseIsAScript(env, Root(name, addrOk), argv, 0, false, DEFAULTS, [], o);
      NoSubcommands(Root(name, addrOk), path);
      assert 0 + |path| == 0;
      MeaningKeepsUsable(name, addrOk, o.command, env, items, 0, DEFAULTS, []);
    }
  }

  lemma RootIsWellNamed(name: string, addrOk: string -> bool)
    ensures WellNamed(Root(name, addrOk).flags)
  {
    var flags := Root(name, addrOk).flags;
    forall f <- flags
      ensures f.name != "" && f.name[0] == f.short != 'h' && f.short != NO_SHORT
    {
      assert f == SYNC_FLAG || f == AddrFlag(addrOk) || f == BALANCE_FLAG || f == WORKER_FLAG;
    }
    forall f <- flags, g <- flags
      ensures (f.short == g.short ==> f == g) && !(f.name + "=" <= g.name)
    {
      NameDoesNotExtend(f.name, g.name);
    }
    assert "help"[0] == 'h' && "help="[0] == 'h';
  }

  lemma NameDoesNotExtend(a: string, b: string)
    requires a != "" && b != "" && (a[0] == b[0] ==> a == b)
    ensures !(a + "=" <= b)
  {
    assert (a + "=")[0] == a[0];
  }

  // ----- one option on the command line -------------------------------------------------------------

  /** The ways to write an option with a value. */
  predicate Spells(argv: seq<string>, letter: string, name: string, text: string) {
    || argv == ["-" + letter + text] || argv == ["-" + letter + "=" + text] || argv == ["-" + letter, text]
    || argv == ["--" + name + "=" + text] || argv == ["--" + name, text]
  }

  /** An option `f` with this value, one way or another. */
  ghost predicate HasValue(item: Item, f: Flag, text: string) {
    || item == Long(Equals(f, text)) || item == Long(Separate(f, text))
    || item == Short([], Inline(f, text)) || item == Short([], Equals(f, text)) || item == Short([], Separate(f, text))
  }

  lemma SpelledItem(argv: seq<string>, f: Flag, letter: string, name: string, text: string) returns (item: Item)
    requires Spells(argv, letter, name, text) && text != "" && text[0] != '=' && letter == [f.short] && name == f.name
    ensures HasValue(item, f, text) && WriteAll([item]) == argv
  {
    hide WriteAll;
    if argv == ["-" + letter + text] {
      item := Short([], Inline(f, text));
      assert "-" + Letters([]) + WriteShortTail(item.tail) == "-" + letter + text;
    } else if argv == ["-" + letter + "=" + text] {
      item := Short([], Equals(f, text));
      assert "-" + Letters([]) + WriteShortTail(item.tail) == "-" + letter + "=" + text;
    } else if argv == ["-" + letter, text] {
      item := Short([], Separate(f, text));
      assert "-" + Letters([]) + WriteShortTail(item.tail) == "-" + letter;
    } else if argv == ["--" + name + "=" + text] {
      item := Long(Equals(f, text));
      assert "--" + WriteLongTail(item.tail) == "--" + name + "=" + text;
    } else {
      item := Long(Separate(f, text));
      assert "--" + WriteLongTail(item.tail) == "--" + name;
    }
    OneItemIsWritten(item);
  }

  lemma OneItemIsWritten(item: Item)
    ensures WriteAll([item]) == Write(item)
  {
    assert [item][1..] == [] && Write(item) + [] == Write(item);
  }

  lemma ItemFromStart(name: string, addrOk: string -> bool, env: Env, argv: seq<string>, item: Item)
    requires item.Long? || item.Short?
    requires ValidItem(Root(name, addrOk).flags, env.allow, item) && WriteAll([item]) == argv
    ensures Parse(env, Root(name, addrOk), argv, 0, false, DEFAULTS, []) ==
            Meaning(env, Root(name, addrOk), [item], 0, DEFAULTS, [])
  {
    hide ValidItem, WellNamed, Write, Parse, Meaning;
    RootIsWellNamed(name, addrOk);
    assert [item][1..] == [] && [] + WriteAll([item]) == WriteAll([item]);
    CommandLineRoundTrip(env, Root(name, addrOk), [], Root(name, addrOk), [item], DEFAULTS);
  }

  ghost function AfterSet(root: Command, r: Option<Store>): Outcome {
    if r.Some? then Done(root, r.value, []) else Failed(13, root, DEFAULTS, [])
  }

  lemma ItemMeaning(env: Env, root: Command, item: Item, f: Flag, text: string)
    requires HasValue(item, f, text) && !f.isArray
    ensures Meaning(env, root, [item], 0, DEFAULTS, []) == AfterSet(root, SetFlag(f, text, true, DEFAULTS))
  {
    assert [item][1..] == [] && SetCluster(env, [], 0, DEFAULTS) == DEFAULTS;
    assert SetFlag(f, text, false, DEFAULTS) == SetFlag(f, text, true, DEFAULTS);
    assert Apply(env, item, 0, DEFAULTS, []) == Finish(SetFlag(f, text, true, DEFAULTS), DEFAULTS, []);
  }

  /** An option of the program, in any spelling: its variable is set, or the parse fails. */
  lemma OptionIsSet(name: string, addrOk: string -> bool, env: Env, argv: seq<string>, f: Flag, letter: string,
                    long: string, text: string)
    requires f in Root(name, addrOk).flags && !Boolish(f) && letter == [f.short] && long == f.name
    requires Spells(argv, letter, long, text) && text != "" && text[0] != '='
    ensures Parse(env, Root(name, addrOk), argv, 0, false, DEFAULTS, []) ==
            AfterSet(Root(name, addrOk), SetFlag(f, text, true, DEFAULTS))
  {
    hide Parse, Meaning, SetFlag, AfterSet, Spells;
    assert !f.isArray && f.short != NO_SHORT && f.short != '-';
    var item := SpelledItem(argv, f, letter, long, text);
    ItemFromStart(name, addrOk, env, argv, item);
    ItemMeaning(env, Root(name, addrOk), item, f, text);
  }

  /** N in any notation, as an unsigned byte. */
  lemma ByteValue(n: nat, notation: Numbers.Notation)
    requires Numbers.Legal(notation) && !notation.Plain?
    ensures var text := Numbers.Write(n, notation);
      text != "" && text[0] != '=' && ParseAtom(Uint(8), text) == if n <= 255 then Some(Number(n)) else None
  {
    Numbers.StartsWithDigit(n, notation);
    MaxValueIsExact(8);
    Numbers.WriteDenotes(n, notation);
    UintAtomIs(8, Numbers.Write(n, notation));
  }

  /** N workers: the handler gets N workers if N is from 2 to 255, and anything else is an error. */
  lemma WorkerOption(name: string, addrOk: string -> bool, env: Env, n: nat, notation: Numbers.Notation,
                     argv: seq<string>)
    requires Numbers.Legal(notation) && !notation.Plain? && Spells(argv, "w", "worker", Numbers.Write(n, notation))
    ensures Parse(env, Root(name, addrOk), argv, 0, false, DEFAULTS, []) ==
            if 2 <= n <= 255 then
              Done(Root(name, addrOk), DEFAULTS.(vars := DEFAULTS.vars[WORKER := Scalar(Number(n))]), [])
            else Failed(13, Root(name, addrOk), DEFAULTS, [])
  {
    ByteValue(n, notation);
    OptionIsSet(name, addrOk, env, argv, WORKER_FLAG, "w", "worker", Numbers.Write(n, notation));
  }

  /** The balancing algorithm: 1 or 2, and anything else is an error. */
  lemma BalanceOption(name: string, addrOk: string -> bool, env: Env, n: nat, notation: Numbers.Notation,
                      argv: seq<string>)
    requires Numbers.Legal(notation) && !notation.Plain? && Spells(argv, "b", "balance", Numbers.Write(n, notation))
    ensures Parse(env, Root(name, addrOk), argv, 0, false, DEFAULTS, []) ==
            if n == 1 || n == 2 then
              Done(Root(name, addrOk), DEFAULTS.(vars := DEFAULTS.vars[BALANCE := Scalar(Number(n))]), [])
            else Failed(13, Root(name, addrOk), DEFAULTS, [])
  {
    ByteValue(n, notation);
    OptionIsSet(name, addrOk, env, argv, BALANCE_FLAG, "b", "balance", Numbers.Write(n, notation));
  }

  /** The address: any text that parse_shared_address takes. */
  lemma AddrOption(name: string, addrOk: string -> bool, env: Env, text: string, argv: seq<string>)
    requires text != "" && text[0] != '=' && Spells(argv, "a", "addr", text)
    ensures Parse(env, Root(name, addrOk), argv, 0, false, DEFAULTS, []) ==
            if addrOk(text) then
              Done(Root(name, addrOk), DEFAULTS.(vars := DEFAULTS.vars[ADDR := Scalar(Word(text))]), [])
            else Failed(13, Root(name, addrOk), DEFAULTS, [])
  {
    OptionIsSet(name, addrOk, env, argv, AddrFlag(addrOk), "a", "addr", text);
  }

  /** The one bool flag, by its letter or its name. */
  lemma SyncOption(name: string, addrOk: string -> bool, env: Env, argv: seq<string>)
    requires argv == ["-s"] || argv == ["--sync"]
    ensures Parse(env, Root(name, addrOk), argv, 0, false, DEFAULTS, []) ==
            Done(Root(name, addrOk), DEFAULTS.(vars := DEFAULTS.vars[SYNC := Scalar(Truth(true))]), [])
  {
    hide Parse;
    var item := if argv == ["-s"] then Short([], Bare(SYNC_FLAG)) else Long(Bare(SYNC_FLAG));
    assert "-" + Letters([]) + [SYNC_FLAG.short] == "-s" && "--" + SYNC_FLAG.name == "--sync";
    OneItemIsWritten(item);
    ItemFromStart(name, addrOk, env, argv, item);
    assert [item][1..] == [] && SetCluster(env, [], 0, DEFAULTS) == DEFAULTS;
    var st := DEFAULTS.(vars := DEFAULTS.vars[SYNC := Scalar(Truth(true))]);
    assert SetBare(env, SYNC_FLAG, 0, 1, DEFAULTS) == st == SetBare(env, SYNC_FLAG, 0, 2, DEFAULTS);
    assert Apply(env, item, 0, DEFAULTS, []) == Progress(st, []);
  }

  /** And execute returns 0 and calls the handler, or returns 13 and does not. */
  method ExecuteWorkerOption(name: string, addrOk: string -> bool, env: Env, n: nat, notation: Numbers.Notation,
                             argv: seq<string>)
    returns (err: int, final: Store, calls: seq<Executor.Call>)
    requires Numbers.Legal(notation) && !notation.Plain? && Spells(argv, "w", "worker", Numbers.Write(n, notation))
    ensures 2 <= n <= 255 ==> err == 0 && |calls| == 1 && Current(final, WORKER) == Scalar(Number(n))
    ensures !(2 <= n <= 255) ==> err == 13 && calls == [] && final == DEFAULTS
  {
    WorkerOption(name, addrOk, env, n, notation, argv);
    var intact;
    err, final, calls, intact := Executor.Execute(Root(name, addrOk), argv, env, DEFAULTS);
  }
}
