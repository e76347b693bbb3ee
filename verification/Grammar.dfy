/** The command line as a language: items, how they are written, how one argument is read,
and the left-to-right parse function that the execute loop implements. */
module Grammar {
  import opened Text
  import opened Wrappers
  import opened Flags

  /** A command as the parser sees it: flags in registration order, subcommands likewise. */
  datatype Command = Command(name: string, flags: seq<Flag>, children: seq<Command>, handler: bool)

  const INVALID_ARGUMENT := 13
  const UNKNOWN_FLAG := 14
  const UNKNOWN_SHORT_FLAG := 15
  const MALLOC_ARGV := 12

  /** The values of flags.h. */
  lemma ParserCodes()
    ensures MALLOC_ARGV == 12 && INVALID_ARGUMENT == 13 && UNKNOWN_FLAG == 14 && UNKNOWN_SHORT_FLAG == 15
  {}

  /** How one flag occurrence ends. */
  datatype Tail =
    | Bare(flag: Flag)                        // --b        -b
    | Equals(flag: Flag, value: string)       // --n=v      -n=v
    | Separate(flag: Flag, value: string)     // --n v      -n v
    | Inline(flag: Flag, value: string)       //            -nv
    | HelpOff(value: string)                  // --help=0   -h=0

  datatype Item =
    | Positional(text: string)
    | PassThrough(text: string)               // an unknown flag, where those are allowed
    | Long(tail: Tail)
    | Short(cluster: seq<Flag>, tail: Tail)   // -abc: bool flags a and b, then the tail

  predicate Boolish(f: Flag) {
    f.kind.Bool?
  }

  // ----- forms of arguments ---------------------------------------------------------------------

  predicate LongForm(a: string) {
    |a| > 2 && a[0] == '-' && a[1] == '-'
  }

  predicate ShortForm(a: string) {
    |a| > 1 && a[0] == '-' && a[1] != '-'
  }

  predicate FlagForm(a: string) {
    LongForm(a) || ShortForm(a)
  }

  /** A flag starts with a dash, and is more than one or two of them. */
  lemma FlagFormIff(a: string)
    ensures FlagForm(a) <==> "-" <= a && a != "-" && a != "--"
    ensures LongForm(a) <==> "--" <= a && a != "--"
  {
    if "--" <= a {
      assert a[0] == "--"[0] && a[1] == "--"[1];
    }
  }

  // ----- looking flags up -------------------------------------------------------------------------

  predicate MatchesLong(f: Flag, body: string) {
    body == f.name || (|body| > |f.name| && body[|f.name|] == '=' && body[..|f.name|] == f.name)
  }

  predicate MatchesShort(f: Flag, c: char) {
    f.short != NO_SHORT && f.short == c
  }

  function FindLong(flags: seq<Flag>, body: string): (r: Option<Flag>)
    ensures r.Some? ==> MatchesLong(r.value, body)
  {
    if flags == [] then None
    else if MatchesLong(flags[0], body) then Some(flags[0])
    else FindLong(flags[1..], body)
  }

  function FindShort(flags: seq<Flag>, c: char): (r: Option<Flag>)
    ensures r.Some? ==> MatchesShort(r.value, c)
  {
    if flags == [] then None
    else if MatchesShort(flags[0], c) then Some(flags[0])
    else FindShort(flags[1..], c)
  }

  function FindChild(children: seq<Command>, name: string): (r: Option<Command>)
    ensures r.Some? ==> r.value.name == name
  {
    if children == [] then None
    else if children[0].name == name then Some(children[0])
    else FindChild(children[1..], name)
  }

  lemma {:induction false} FoundLong(flags: seq<Flag>, body: string)
    ensures var r := FindLong(flags, body);
      && (r.Some? ==> r.value in flags && MatchesLong(r.value, body))
      && (r.None? <==> forall f <- flags :: !MatchesLong(f, body))
  {
    if flags != [] {
      FoundLong(flags[1..], body);
    }
  }

  lemma {:induction false} FoundShort(flags: seq<Flag>, c: char)
    ensures var r := FindShort(flags, c);
      && (r.Some? ==> r.value in flags && MatchesShort(r.value, c))
      && (r.None? <==> forall f <- flags :: !MatchesShort(f, c))
  {
    if flags != [] {
      FoundShort(flags[1..], c);
    }
  }

  // ----- reading one argument ------------------------------------------------------------------------

  /** What an argument of flag form turns out to be. Before help or an error, the bool flags
  at the front of a cluster have already been set. */
  datatype Reading = Got(item: Item) | Help(before: seq<Flag>) | Bad(before: seq<Flag>, code: int)

  function ReadHelp(value: string, item: Item, before: seq<Flag>): Reading {
    if ParseBool(value) == 0 then Got(item)
    else if ParseBool(value) == 1 then Help(before)
    else Bad(before, INVALID_ARGUMENT)
  }

  function ReadLong(flags: seq<Flag>, body: string, next: Option<string>, allow: bool): Reading
    requires body != ""
  {
    if body == "help" then Help([])
    else if "help=" <= body then ReadHelp(body[5..], Long(HelpOff(body[5..])), [])
    else
      match FindLong(flags, body)
      case None => if allow then Got(PassThrough("--" + body)) else Bad([], UNKNOWN_FLAG)
      case Some(f) =>
        if body != f.name then Got(Long(Equals(f, body[|f.name| + 1..])))
        else if Boolish(f) then Got(Long(Bare(f)))
        else if next.None? then Bad([], INVALID_ARGUMENT)
        else Got(Long(Separate(f, next.value)))
  }

  function ReadShort(flags: seq<Flag>, body: string, next: Option<string>, allow: bool, cluster: seq<Flag>): Reading
    requires body != ""
    decreases |body|
  {
    if body == "h" then Help(cluster)
    else if "h=" <= body then ReadHelp(body[2..], Short(cluster, HelpOff(body[2..])), cluster)
    else
      match FindShort(flags, body[0])
      case None =>
        if cluster == [] && allow then Got(PassThrough("-" + body)) else Bad(cluster, UNKNOWN_SHORT_FLAG)
      case Some(f) =>
        if |body| == 1 then
          if Boolish(f) then Got(Short(cluster, Bare(f)))
          else if next.None? then Bad(cluster, INVALID_ARGUMENT)
          else Got(Short(cluster, Separate(f, next.value)))
        else if body[1] == '=' then Got(Short(cluster, Equals(f, body[2..])))
        else if Boolish(f) then ReadShort(flags, body[1..], next, allow, cluster + [f])
        else Got(Short(cluster, Inline(f, body[1..])))
  }

  function ReadFlag(flags: seq<Flag>, a: string, next: Option<string>, allow: bool): Reading
    requires FlagForm(a)
  {
    if LongForm(a) then ReadLong(flags, a[2..], next, allow) else ReadShort(flags, a[1..], next, allow, [])
  }

  // ----- writing items -----------------------------------------------------------------------------------

  function Letters(cluster: seq<Flag>): string {
    if cluster == [] then "" else [cluster[0].short] + Letters(cluster[1..])
  }

  function WriteLongTail(t: Tail): string {
    match t
    case Bare(f) => f.name
    case Equals(f, v) => f.name + "=" + v
    case Separate(f, _) => f.name
    case Inline(f, v) => f.name + v
    case HelpOff(v) => "help=" + v
  }

  function WriteShortTail(t: Tail): string {
    match t
    case Bare(f) => [f.short]
    case Equals(f, v) => [f.short, '='] + v
    case Separate(f, _) => [f.short]
    case Inline(f, v) => [f.short] + v
    case HelpOff(v) => "h=" + v
  }

  function Value(t: Tail): seq<string> {
    if t.Separate? then [t.value] else []
  }

  /** The arguments an item is written as: one, or two with a separate value. */
  function Write(item: Item): (args: seq<string>)
    ensures 1 <= |args| <= 2
  {
    match item
    case Positional(t) => [t]
    case PassThrough(t) => [t]
    case Long(t) => ["--" + WriteLongTail(t)] + Value(t)
    case Short(c, t) => ["-" + Letters(c) + WriteShortTail(t)] + Value(t)
  }

  function WriteAll(items: seq<Item>): seq<string> {
    if items == [] then [] else Write(items[0]) + WriteAll(items[1..])
  }

  // ----- what items mean ------------------------------------------------------------------------------------

  /** What the parser cannot decide itself: whether unknown flags pass, and which allocations
  succeed, named by the cursor at which they are attempted (argument, offset in it). */
  datatype Env = Env(allow: bool, room: (nat, nat) -> bool, argvRoom: nat -> bool)

  /** A bool flag without a value is set to "1"; the handler's refusal is ignored. */
  ghost function SetBare(env: Env, f: Flag, i: nat, pos: nat, st: Store): Store {
    var r := SetFlag(f, "1", env.room(i, pos), st);
    if r.Some? then r.value else st
  }

  ghost function SetCluster(env: Env, cluster: seq<Flag>, i: nat, st: Store): Store {
    if cluster == [] then st
    else SetBare(env, cluster[|cluster| - 1], i, |cluster|, SetCluster(env, cluster[..|cluster| - 1], i, st))
  }

  ghost function SetTail(env: Env, t: Tail, i: nat, pos: nat, st: Store): Option<Store> {
    match t
    case Bare(f) => Some(SetBare(env, f, i, pos, st))
    case HelpOff(_) => Some(st)
    case _ => SetFlag(t.flag, t.value, env.room(i, pos), st)
  }

  datatype Outcome =
    | Done(command: Command, store: Store, args: seq<string>)
    | Helped(command: Command, store: Store, args: seq<string>)
    | Failed(code: int, command: Command, store: Store, args: seq<string>)

  /** The state between two arguments. */
  datatype Progress = Progress(store: Store, args: seq<string>) | Stuck(code: int, store: Store)

  /** The first positional needs a buffer, and so does every one beyond the 32nd. */
  predicate NeedsRoom(count: nat) {
    count == 0 || count >= 32
  }

  ghost function Apply(env: Env, item: Item, i: nat, st: Store, args: seq<string>): Progress {
    match item
    case Positional(t) => Push(env, t, i, st, args)
    case PassThrough(t) => Push(env, t, i, st, args)
    case Long(t) => Finish(SetTail(env, t, i, 2, st), st, args)
    case Short(c, t) =>
      var st1 := SetCluster(env, c, i, st);
      Finish(SetTail(env, t, i, |c| + 1, st1), st1, args)
  }

  ghost function Push(env: Env, t: string, i: nat, st: Store, args: seq<string>): Progress {
    if NeedsRoom(|args|) && !env.argvRoom(i) then Stuck(MALLOC_ARGV, st) else Progress(st, args + [t])
  }

  ghost function Finish(r: Option<Store>, before: Store, args: seq<string>): Progress {
    if r.None? then Stuck(INVALID_ARGUMENT, before) else Progress(r.value, args)
  }

  /** The meaning of a list of items, written from argument `i` on. */
  ghost function Meaning(env: Env, cmd: Command, items: seq<Item>, i: nat, st: Store, args: seq<string>): Outcome {
    if items == [] then Done(cmd, st, args)
    else
      match Apply(env, items[0], i, st, args)
      case Stuck(code, st1) => Failed(code, cmd, st1, args)
      case Progress(st1, args1) => Meaning(env, cmd, items[1..], i + |Write(items[0])|, st1, args1)
  }

  // ----- the parse function ------------------------------------------------------------------------------------

  function Next(argv: seq<string>, i: nat): Option<string> {
    if i + 1 < |argv| then Some(argv[i + 1]) else None
  }

  ghost function Parse(env: Env, cmd: Command, argv: seq<string>, i: nat, input: bool, st: Store,
                       args: seq<string>): Outcome
    decreases |argv| - i
  {
    if i >= |argv| then Done(cmd, st, args)
    else if FlagForm(argv[i]) then
      ParseRead(env, cmd, argv, i, ReadFlag(cmd.flags, argv[i], Next(argv, i), env.allow), st, args)
    else
      var child := if input then None else FindChild(cmd.children, argv[i]);
      if child.Some? then Parse(env, child.value, argv, i + 1, false, st, args)
      else ParseItem(env, cmd, argv, i, Positional(argv[i]), st, args)
  }

  ghost function ParseRead(env: Env, cmd: Command, argv: seq<string>, i: nat, r: Reading, st: Store,
                           args: seq<string>): Outcome
    requires i < |argv|
    decreases |argv| - i, 0, 1
  {
    match r
    case Help(before) => Helped(cmd, SetCluster(env, before, i, st), args)
    case Bad(before, code) => Failed(code, cmd, SetCluster(env, before, i, st), args)
    case Got(item) => ParseItem(env, cmd, argv, i, item, st, args)
  }

  ghost function ParseItem(env: Env, cmd: Command, argv: seq<string>, i: nat, item: Item, st: Store,
                           args: seq<string>): Outcome
    requires i < |argv|
    decreases |argv| - i, 0, 0
  {
    match Apply(env, item, i, st, args)
    case Stuck(code, st1) => Failed(code, cmd, st1, args)
    case Progress(st1, args1) => Parse(env, cmd, argv, i + |Write(item)|, true, st1, args1)
  }
}
