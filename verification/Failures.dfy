/** Why a command line is not just a script: where the parser stops, for what reason, and with
which error code, in terms of the text alone. */
module Failures {
  import opened CommandLine
  import opened Flags
  import opened Grammar
  import opened RoundTrip
  import opened Text
  import opened Wrappers

  /** A place in a flag argument: what follows the two dashes, or what follows the letters of
  some bool flags. */
  datatype Spot = AtLong(body: string) | AtLetter(cluster: seq<Flag>, body: string)

  datatype Reason = HelpAsked | HelpValue | UnknownFlag | NoValue

  function Before(spot: Spot): seq<Flag> {
    if spot.AtLong? then [] else spot.cluster
  }

  function Argument(spot: Spot): string {
    if spot.AtLong? then "--" + spot.body else "-" + Letters(spot.cluster) + spot.body
  }

  function HelpWord(spot: Spot): string {
    if spot.AtLong? then "help" else "h"
  }

  ghost predicate Lettered(flags: seq<Flag>, c: seq<Flag>) {
    && (forall f <- c :: f in flags && Boolish(f) && f.short != NO_SHORT)
    && (forall k :: 1 <= k < |c| ==> c[k].short != '=')
  }

  ghost predicate ValidSpot(flags: seq<Flag>, spot: Spot) {
    && spot.body != ""
    && (spot.AtLetter? ==>
          && Lettered(flags, spot.cluster) && (spot.cluster != [] ==> spot.body[0] != '=')
          && (Letters(spot.cluster) + spot.body)[0] != '-')
  }

  /** No flag has this name, or this letter. */
  ghost predicate NoFlagHere(flags: seq<Flag>, spot: Spot)
    requires spot.body != ""
  {
    forall f <- flags ::
      if spot.AtLong? then spot.body != f.name && !(f.name + "=" <= spot.body)
      else f.short == NO_SHORT || f.short != spot.body[0]
  }

  /** A flag that is not a bool ends the argument. */
  ghost predicate ValueWanted(flags: seq<Flag>, spot: Spot) {
    exists f <- flags :: !Boolish(f)
                         && if spot.AtLong? then f.name == spot.body else f.short != NO_SHORT && [f.short] == spot.body
  }

  /** The reason to stop here; `last` says that no argument follows. */
  ghost predicate Stops(flags: seq<Flag>, allow: bool, last: bool, spot: Spot, reason: Reason)
    requires spot.body != ""
  {
    var word, body := HelpWord(spot), spot.body;
    match reason
    case HelpAsked => body == word || (word + "=" <= body && ParseBool(body[|word| + 1..]) == 1)
    case HelpValue => word + "=" <= body && ParseBool(body[|word| + 1..]) != 0 && ParseBool(body[|word| + 1..]) != 1
    case UnknownFlag =>
      && body != word && !(word + "=" <= body) && NoFlagHere(flags, spot)
      && (Before(spot) == [] ==> !allow)
    case NoValue => last && body != word && !(word + "=" <= body) && ValueWanted(flags, spot)
  }

  /** What the parser makes of it: help, or an error with this code. */
  function StopReading(spot: Spot, reason: Reason): Reading {
    match reason
    case HelpAsked => Help(Before(spot))
    case HelpValue => Bad(Before(spot), 13)
    case UnknownFlag => Bad(Before(spot), if spot.AtLong? then 14 else 15)
    case NoValue => Bad(Before(spot), 13)
  }

  /** The letters before the place have been set; nothing else has happened. */
  ghost function StopOutcome(env: Env, cmd: Command, spot: Spot, reason: Reason, i: nat, st: Store,
                             args: seq<string>): Outcome
  {
    var st1 := SetCluster(env, Before(spot), i, st);
    match StopReading(spot, reason)
    case Help(_) => Helped(cmd, st1, args)
    case Bad(_, code) => Failed(code, cmd, st1, args)
    case Got(_) => Done(cmd, st1, args)
  }

  // ----- a reason to stop makes the parser stop ----------------------------------------------------------

  lemma MatchIsPrefix(f: Flag, body: string)
    ensures MatchesLong(f, body) <==> body == f.name || f.name + "=" <= body
  {
    if MatchesLong(f, body) && body != f.name {
      assert f.name + "=" == body[..|f.name| + 1];
    }
    if f.name + "=" <= body {
      assert body[|f.name|] == (f.name + "=")[|f.name|];
      assert body[..|f.name|] == (f.name + "=")[..|f.name|];
    }
  }

  lemma LongStops(flags: seq<Flag>, body: string, next: Option<string>, allow: bool, reason: Reason)
    requires WellNamed(flags) && body != "" && Stops(flags, allow, next.None?, AtLong(body), reason)
    ensures ReadLong(flags, body, next, allow) == StopReading(AtLong(body), reason)
  {
    assert "help" + "=" == "help=";
    match reason {
      case UnknownFlag =>
        FoundLong(flags, body);
        if FindLong(flags, body).Some? {
          MatchIsPrefix(FindLong(flags, body).value, body);
        }
      case NoValue =>
        var f :| f in flags && !Boolish(f) && f.name == body;
        NameIsFound(flags, f, "");
      case _ =>
    }
  }

  lemma {:induction false} LettersAreRead(flags: seq<Flag>, done: seq<Flag>, c: seq<Flag>, body: string,
                                          next: Option<string>, allow: bool)
    requires Distinct(flags) && Lettered(flags, c) && body != "" && (c != [] ==> body[0] != '=')
    ensures |Letters(c)| == |c|
    ensures ReadShort(flags, Letters(c) + body, next, allow, done) == ReadShort(flags, body, next, allow, done + c)
    decreases |c|
  {
    hide ReadShort, Distinct;
    if c == [] {
      assert Letters(c) + body == body && done + c == done;
    } else {
      var rest := Letters(c[1..]) + body;
      assert c[0] in c && Letters(c) + body == [c[0].short] + rest;
      assert rest[0] == if |c| > 1 then c[1].short else body[0];
      LetterIsRead(flags, done, c[0], rest, next, allow);
      assert forall k :: 1 <= k < |c[1..]| ==> c[1..][k] == c[k + 1];
      LettersAreRead(flags, done + [c[0]], c[1..], body, next, allow);
      assert done + [c[0]] + c[1..] == done + c;
    }
  }

  lemma ShortStops(flags: seq<Flag>, c: seq<Flag>, body: string, next: Option<string>, allow: bool, reason: Reason)
    requires Distinct(flags) && body != "" && Stops(flags, allow, next.None?, AtLetter(c, body), reason)
    ensures ReadShort(flags, body, next, allow, c) == StopReading(AtLetter(c, body), reason)
  {
    assert "h" + "=" == "h=";
    FoundShort(flags, body[0]);
    if reason.NoValue? {
      var f :| f in flags && !Boolish(f) && f.short != NO_SHORT && [f.short] == body;
      ShortIsFound(flags, f);
    }
  }

  lemma SpotIsRead(flags: seq<Flag>, spot: Spot, next: Option<string>, allow: bool, reason: Reason)
    requires WellNamed(flags) && ValidSpot(flags, spot) && Stops(flags, allow, next.None?, spot, reason)
    ensures FlagForm(Argument(spot)) && ReadFlag(flags, Argument(spot), next, allow) == StopReading(spot, reason)
  {
    hide WellNamed, Stops, StopReading, ReadLong, ReadShort;
    var a := Argument(spot);
    if spot.AtLong? {
      assert a[2..] == spot.body;
      LongStops(flags, spot.body, next, allow, reason);
    } else {
      WellNamedIsDistinct(flags);
      LettersAreRead(flags, [], spot.cluster, spot.body, next, allow);
      ShortStops(flags, spot.cluster, spot.body, next, allow, reason);
      assert a[1..] == Letters(spot.cluster) + spot.body && [] + spot.cluster == spot.cluster;
    }
  }

  lemma WellNamedIsDistinct(flags: seq<Flag>)
    requires WellNamed(flags)
    ensures Distinct(flags)
  {}

  lemma SpotStopsParse(env: Env, cmd: Command, argv: seq<string>, i: nat, input: bool, st: Store, args: seq<string>,
                       spot: Spot, reason: Reason)
    requires WellNamed(cmd.flags) && i < |argv| && argv[i] == Argument(spot) && ValidSpot(cmd.flags, spot)
    requires Stops(cmd.flags, env.allow, i + 1 == |argv|, spot, reason)
    ensures Parse(env, cmd, argv, i, input, st, args) == StopOutcome(env, cmd, spot, reason, i, st, args)
  {
    hide WellNamed, Stops, ReadFlag, FlagForm, ValidSpot, Argument, Parse, StopOutcome, StopReading;
    SpotIsRead(cmd.flags, spot, Next(argv, i), env.allow, reason);
    StopReadingDecides(env, cmd, argv, i, input, st, args, spot, reason);
  }

  lemma StopReadingDecides(env: Env, cmd: Command, argv: seq<string>, i: nat, input: bool, st: Store,
                           args: seq<string>, spot: Spot, reason: Reason)
    requires i < |argv| && FlagForm(argv[i])
    requires ReadFlag(cmd.flags, argv[i], Next(argv, i), env.allow) == StopReading(spot, reason)
    ensures Parse(env, cmd, argv, i, input, st, args) == StopOutcome(env, cmd, spot, reason, i, st, args)
  {
    hide ReadFlag, FlagForm, ParseItem, SetCluster;
  }

  /** A script, followed by an argument with a reason to stop: whatever follows, the parser stops
  there, with this code. */
  lemma StopsAfterScript(env: Env, root: Command, path: seq<string>, cmd: Command, items: seq<Item>, rest: seq<string>,
                         spot: Spot, reason: Reason, st: Store)
    requires Descend(root, path) == Some(cmd)
    requires WellNamed(cmd.flags) && ValidItems(cmd, env.allow, items) && NoChild(cmd, items)
    requires Meaning(env, cmd, items, |path|, st, []).Done?
    requires rest != [] && rest[0] == Argument(spot) && ValidSpot(cmd.flags, spot)
    requires Stops(cmd.flags, env.allow, |rest| == 1, spot, reason)
    ensures var m := Meaning(env, cmd, items, |path|, st, []);
      Parse(env, root, path + (WriteAll(items) + rest), 0, false, st, []) ==
      StopOutcome(env, cmd, spot, reason, |path| + |WriteAll(items)|, m.store, m.args)
  {
    hide WellNamed, Stops, ValidSpot, Argument, Meaning, Parse, StopOutcome, ValidItems, WriteAll, NoChild, Descend;
    var argv, j := path + (WriteAll(items) + rest), |path| + |WriteAll(items)|;
    var m := Meaning(env, cmd, items, |path|, st, []);
    assert argv[|path|..] == WriteAll(items) + rest;
    PathFromStart(env, root, path, WriteAll(items) + rest, st);
    ItemsThenRest(env, cmd, argv, |path|, items, rest, false, st, []);
    assert argv[j] == rest[0];
    SpotStopsParse(env, cmd, argv, j, items != [], m.store, m.args, spot, reason);
  }

  // ----- the parser stops for no other reason ---------------------------------------------------------------

  lemma LongHasReason(flags: seq<Flag>, body: string, next: Option<string>, allow: bool) returns (reason: Reason)
    requires body != "" && !ReadLong(flags, body, next, allow).Got?
    ensures Stops(flags, allow, next.None?, AtLong(body), reason)
    ensures ReadLong(flags, body, next, allow) == StopReading(AtLong(body), reason)
  {
    assert "help" + "=" == "help=";
    FoundLong(flags, body);
    forall f <- flags ensures MatchesLong(f, body) <==> body == f.name || f.name + "=" <= body {
      MatchIsPrefix(f, body);
    }
    var unknown := FindLong(flags, body).None?;
    reason := ReasonFor(ReadLong(flags, body, next, allow), "help" == body || "help=" <= body, unknown);
  }

  function ReasonFor(r: Reading, help: bool, unknown: bool): Reason {
    if r.Help? then HelpAsked else if help then HelpValue else if unknown then UnknownFlag else NoValue
  }

  lemma {:induction false} ShortHasReason(flags: seq<Flag>, done: seq<Flag>, body: string, next: Option<string>,
                                          allow: bool)
    returns (c: seq<Flag>, rest: string, reason: Reason)
    requires body != "" && !ReadShort(flags, body, next, allow, done).Got?
    requires Lettered(flags, done) && (done != [] ==> body[0] != '=')
    ensures Lettered(flags, c) && rest != "" && (c != [] ==> rest[0] != '=')
    ensures Letters(c) + rest == Letters(done) + body
    ensures Stops(flags, allow, next.None?, AtLetter(c, rest), reason)
    ensures ReadShort(flags, body, next, allow, done) == StopReading(AtLetter(c, rest), reason)
    decreases |body|
  {
    hide Stops, StopReading, FindShort;
    var found := FindShort(flags, body[0]);
    FoundShort(flags, body[0]);
    if body != "h" && !("h=" <= body) && found.Some? && |body| > 1 && body[1] != '=' && Boolish(found.value) {
      LettersSnoc(done, found.value);
      assert Letters(done + [found.value]) + body[1..] == Letters(done) + body;
      c, rest, reason := ShortHasReason(flags, done + [found.value], body[1..], next, allow);
    } else {
      c, rest := done, body;
      reason := ShortEndHasReason(flags, done, body, next, allow);
    }
  }

  lemma ShortEndHasReason(flags: seq<Flag>, c: seq<Flag>, body: string, next: Option<string>, allow: bool)
    returns (reason: Reason)
    requires body != "" && !ReadShort(flags, body, next, allow, c).Got?
    requires var found := FindShort(flags, body[0]);
      !(body != "h" && !("h=" <= body) && found.Some? && |body| > 1 && body[1] != '=' && Boolish(found.value))
    ensures Stops(flags, allow, next.None?, AtLetter(c, body), reason)
    ensures ReadShort(flags, body, next, allow, c) == StopReading(AtLetter(c, body), reason)
  {
    assert "h" + "=" == "h=";
    FoundShort(flags, body[0]);
    var unknown := FindShort(flags, body[0]).None?;
    reason := ReasonFor(ReadShort(flags, body, next, allow, c), "h" == body || "h=" <= body, unknown);
  }

  lemma StopHasReason(flags: seq<Flag>, a: string, next: Option<string>, allow: bool) returns (spot: Spot,
                      reason: Reason)
    requires FlagForm(a) && !ReadFlag(flags, a, next, allow).Got?
    ensures a == Argument(spot) && ValidSpot(flags, spot) && Stops(flags, allow, next.None?, spot, reason)
    ensures ReadFlag(flags, a, next, allow) == StopReading(spot, reason)
  {
    if LongForm(a) {
      spot := AtLong(a[2..]);
      reason := LongHasReason(flags, a[2..], next, allow);
      assert "--" + a[2..] == a;
    } else {
      var c, rest;
      c, rest, reason := ShortHasReason(flags, [], a[1..], next, allow);
      spot := AtLetter(c, rest);
      assert Letters([]) + a[1..] == a[1..];
      assert "-" + Letters(c) + rest == "-" + (Letters(c) + rest) == a;
    }
  }

  /** The parser has stopped at argument `j` for one of the reasons. */
  ghost predicate StoppedAt(env: Env, cmd: Command, argv: seq<string>, j: nat, st: Store, args: seq<string>, o: Outcome)
    requires j < |argv|
  {
    exists spot, reason ::
      && argv[j] == Argument(spot) && ValidSpot(cmd.flags, spot)
      && Stops(cmd.flags, env.allow, j + 1 == |argv|, spot, reason)
      && o == StopOutcome(env, cmd, spot, reason, j, st, args)
  }

  /** The arguments `rest` start with this script: a path from `cmd` to `final`, and valid items. */
  ghost predicate ScriptPrefix(path: seq<string>, items: seq<Item>, allow: bool, cmd: Command, final: Command,
                               rest: seq<string>, input: bool)
  {
    && path + WriteAll(items) <= rest
    && Descend(cmd, path) == Some(final) && (input ==> path == [])
    && ValidItems(final, allow, items) && (!input ==> NoChild(final, items))
  }

  /** The outcome of items that are written from argument `i` on is their meaning; or they are done,
  and the parser has stopped at the argument that follows them. */
  ghost predicate EndsAs(env: Env, cmd: Command, argv: seq<string>, i: nat, items: seq<Item>, st: Store,
                         args: seq<string>, o: Outcome)
  {
    var m, j := Meaning(env, cmd, items, i, st, args), i + |WriteAll(items)|;
    if m.Done? && j < |argv| then StoppedAt(env, cmd, argv, j, m.store, m.args, o) else o == m
  }

  ghost predicate Explained(env: Env, cmd: Command, argv: seq<string>, i: nat, input: bool, st: Store,
                            args: seq<string>,
                            o: Outcome, path: seq<string>, items: seq<Item>)
    requires i <= |argv|
  {
    && ScriptPrefix(path, items, env.allow, cmd, o.command, argv[i..], input)
    && EndsAs(env, o.command, argv, i + |path|, items, st, args, o)
  }

  /** Every outcome, success, help or failure, has such an explanation. */
  lemma {:induction false} EveryOutcomeIsExplained(env: Env, cmd: Command, argv: seq<string>, i: nat, input: bool,
                                                   st: Store, args: seq<string>, o: Outcome)
    returns (path: seq<string>, items: seq<Item>)
    requires i <= |argv| && o == Parse(env, cmd, argv, i, input, st, args)
    ensures Explained(env, cmd, argv, i, input, st, args, o, path, items) && (input ==> o.command == cmd)
    decreases |argv| - i, 1
  {
    hide ReadFlag, FlagForm, FindChild, ValidItem, Write, Explained, Stops, ValidSpot, Apply;
    if i == |argv| {
      path, items := [], [];
      NothingIsExplained(env, cmd, argv, i, input, st, args, o);
    } else if !input && !FlagForm(argv[i]) && FindChild(cmd.children, argv[i]).Some? {
      var child := FindChild(cmd.children, argv[i]).value;
      path, items := EveryOutcomeIsExplained(env, child, argv, i + 1, false, st, args, o);
      ExplainName(env, cmd, argv, i, child, st, args, o, path, items);
      path := [argv[i]] + path;
    } else if FlagForm(argv[i]) && !ReadFlag(cmd.flags, argv[i], Next(argv, i), env.allow).Got? {
      path, items := [], [];
      ExplainStop(env, cmd, argv, i, input, st, args, o);
    } else {
      path := [];
      items := ExplainItem(env, cmd, argv, i, input, st, args, o);
    }
  }

  lemma NothingIsExplained(env: Env, cmd: Command, argv: seq<string>, i: nat, input: bool, st: Store,
                           args: seq<string>, o: Outcome)
    requires i == |argv| && o == Done(cmd, st, args)
    ensures Explained(env, cmd, argv, i, input, st, args, o, [], [])
  {}

  lemma ExplainStop(env: Env, cmd: Command, argv: seq<string>, i: nat, input: bool, st: Store, args: seq<string>,
                    o: Outcome)
    requires i < |argv| && o == Parse(env, cmd, argv, i, input, st, args)
    requires FlagForm(argv[i]) && !ReadFlag(cmd.flags, argv[i], Next(argv, i), env.allow).Got?
    ensures Explained(env, cmd, argv, i, input, st, args, o, [], []) && o.command == cmd
  {
    hide Stops, ValidSpot, Argument, ReadFlag, FlagForm, Parse, StopOutcome, StopReading;
    var spot, reason := StopHasReason(cmd.flags, argv[i], Next(argv, i), env.allow);
    StopReadingDecides(env, cmd, argv, i, input, st, args, spot, reason);
    assert StoppedAt(env, cmd, argv, i, st, args, o);
    StopKeepsCommand(env, cmd, spot, reason, i, st, args);
    ExplainNothing(env, cmd, argv, i, input, st, args, o);
  }

  lemma StopKeepsCommand(env: Env, cmd: Command, spot: Spot, reason: Reason, i: nat, st: Store, args: seq<string>)
    ensures StopOutcome(env, cmd, spot, reason, i, st, args).command == cmd
  {}

  lemma ExplainNothing(env: Env, cmd: Command, argv: seq<string>, i: nat, input: bool, st: Store, args: seq<string>,
                       o: Outcome)
    requires i < |argv| && StoppedAt(env, cmd, argv, i, st, args, o) && o.command == cmd
    ensures Explained(env, cmd, argv, i, input, st, args, o, [], [])
  {
    hide StoppedAt;
    EmptyPrefix(env.allow, cmd, argv[i..], input);
    assert WriteAll([]) == [];
  }

  lemma EmptyPrefix(allow: bool, cmd: Command, rest: seq<string>, input: bool)
    ensures ScriptPrefix([], [], allow, cmd, cmd, rest, input)
  {
    var path: seq<string> := [];
    assert path + WriteAll([]) == [];
  }

  lemma ExplainName(env: Env, cmd: Command, argv: seq<string>, i: nat, child: Command, st: Store, args: seq<string>,
                    o: Outcome, path: seq<string>, items: seq<Item>)
    requires i < |argv| && !FlagForm(argv[i]) && FindChild(cmd.children, argv[i]) == Some(child)
    requires Explained(env, child, argv, i + 1, false, st, args, o, path, items)
    ensures Explained(env, cmd, argv, i, false, st, args, o, [argv[i]] + path, items)
  {
    hide EndsAs, ScriptPrefix, FlagForm, FindChild;
    NamePrefix(env.allow, cmd, child, o.command, argv[i], argv[i + 1..], path, items);
    assert [argv[i]] + argv[i + 1..] == argv[i..];
    assert i + |[argv[i]] + path| == i + 1 + |path|;
  }

  lemma NamePrefix(allow: bool, cmd: Command, child: Command, final: Command, name: string, rest: seq<string>,
                   path: seq<string>, items: seq<Item>)
    requires !FlagForm(name) && FindChild(cmd.children, name) == Some(child)
    requires ScriptPrefix(path, items, allow, child, final, rest, false)
    ensures ScriptPrefix([name] + path, items, allow, cmd, final, [name] + rest, false)
  {
    hide FlagForm, FindChild, ValidItems, WriteAll;
    DescendCons(cmd, name, child, path);
    assert [name] + path + WriteAll(items) == [name] + (path + WriteAll(items));
  }

  lemma {:induction false} ExplainItem(env: Env, cmd: Command, argv: seq<string>, i: nat, input: bool,
                                       st: Store, args: seq<string>, o: Outcome)
    returns (items: seq<Item>)
    requires i < |argv| && o == Parse(env, cmd, argv, i, input, st, args)
    requires input || FlagForm(argv[i]) || FindChild(cmd.children, argv[i]).None?
    requires FlagForm(argv[i]) ==> ReadFlag(cmd.flags, argv[i], Next(argv, i), env.allow).Got?
    ensures Explained(env, cmd, argv, i, input, st, args, o, [], items) && o.command == cmd
    decreases |argv| - i, 0
  {
    hide ReadFlag, FlagForm, FindChild, ValidItem, Write, Explained, Apply;
    var item := ItemAt(env, cmd, argv, i, input, st, args);
    var p, j := Apply(env, item, i, st, args), i + |Write(item)|;
    if p.Progress? {
      var path, rest := EveryOutcomeIsExplained(env, cmd, argv, j, true, p.store, p.args, o);
      ExplainNext(env, cmd, argv, i, item, path, rest, input, st, args, p, o);
      items := [item] + rest;
    } else {
      items := [item];
      ExplainStuck(env, cmd, argv, i, item, input, st, args, p, o);
    }
  }

  lemma ItemAt(env: Env, cmd: Command, argv: seq<string>, i: nat, input: bool, st: Store,
               args: seq<string>) returns (item: Item)
    requires i < |argv|
    requires input || FlagForm(argv[i]) || FindChild(cmd.children, argv[i]).None?
    requires FlagForm(argv[i]) ==> ReadFlag(cmd.flags, argv[i], Next(argv, i), env.allow).Got?
    ensures IsHead(env, cmd, argv, i, item, input) && i + |Write(item)| <= |argv|
    ensures var p := Apply(env, item, i, st, args);
      Parse(env, cmd, argv, i, input, st, args) ==
      if p.Progress? then Parse(env, cmd, argv, i + |Write(item)|, true, p.store, p.args)
      else Failed(p.code, cmd, p.store, args)
  {
    if FlagForm(argv[i]) {
      item := ReadFlag(cmd.flags, argv[i], Next(argv, i), env.allow).item;
      FlagFits(env, cmd, argv, i, input);
    } else {
      item := Positional(argv[i]);
    }
    assert Parse(env, cmd, argv, i, input, st, args) == ParseItem(env, cmd, argv, i, item, st, args);
  }

  lemma ExplainNext(env: Env, cmd: Command, argv: seq<string>, i: nat, item: Item, path: seq<string>, rest: seq<Item>,
                    input: bool, st: Store, args: seq<string>, p: Progress, o: Outcome)
    requires i < |argv| && IsHead(env, cmd, argv, i, item, input) && i + |Write(item)| <= |argv|
    requires p == Apply(env, item, i, st, args) && p.Progress? && o.command == cmd
    requires Explained(env, cmd, argv, i + |Write(item)|, true, p.store, p.args, o, path, rest)
    ensures Explained(env, cmd, argv, i, input, st, args, o, [], [item] + rest)
  {
    hide EndsAs, ScriptPrefix, IsHead, Apply, Write;
    var j := i + |Write(item)|;
    ItemPrefix(env, cmd, argv, i, item, path, rest, input);
    assert path == [] && j + |path| == j;
    NextEnds(env, cmd, argv, i, item, rest, st, args, p, o);
  }

  lemma ItemPrefix(env: Env, cmd: Command, argv: seq<string>, i: nat, item: Item, path: seq<string>, rest: seq<Item>,
                   input: bool)
    requires IsHead(env, cmd, argv, i, item, input) && i + |Write(item)| <= |argv|
    requires ScriptPrefix(path, rest, env.allow, cmd, cmd, argv[i + |Write(item)|..], true)
    ensures path == [] && ScriptPrefix([], [item] + rest, env.allow, cmd, cmd, argv[i..], input)
  {
    hide ValidItem, Write;
    var items, none: seq<string> := [item] + rest, [];
    assert items[1..] == rest;
    assert path + WriteAll(rest) == WriteAll(rest) && none + WriteAll(items) == Write(item) + WriteAll(rest);
    PrefixAfter(argv, i, Write(item), WriteAll(rest));
  }

  lemma PrefixAfter(argv: seq<string>, i: nat, head: seq<string>, tail: seq<string>)
    requires i + |head| <= |argv| && head == argv[i..i + |head|] && tail <= argv[i + |head|..]
    ensures head + tail <= argv[i..]
  {
    assert argv[i..] == head + argv[i + |head|..];
  }

  lemma NextEnds(env: Env, cmd: Command, argv: seq<string>, i: nat, item: Item, rest: seq<Item>,
                 st: Store, args: seq<string>, p: Progress, o: Outcome)
    requires p == Apply(env, item, i, st, args) && p.Progress?
    requires EndsAs(env, cmd, argv, i + |Write(item)|, rest, p.store, p.args, o)
    ensures EndsAs(env, cmd, argv, i, [item] + rest, st, args, o)
  {
    hide Apply, Write, StoppedAt;
    assert ([item] + rest)[1..] == rest;
  }

  lemma ExplainStuck(env: Env, cmd: Command, argv: seq<string>, i: nat, item: Item, input: bool,
                     st: Store, args: seq<string>, p: Progress, o: Outcome)
    requires i < |argv| && IsHead(env, cmd, argv, i, item, input) && i + |Write(item)| <= |argv|
    requires p == Apply(env, item, i, st, args) && p.Stuck? && o == Failed(p.code, cmd, p.store, args)
    ensures Explained(env, cmd, argv, i, input, st, args, o, [], [item])
  {
    hide ScriptPrefix, IsHead, Apply, Write, StoppedAt;
    assert [item][1..] == [] && [item] == [item] + [];
    EmptyPrefix(env.allow, cmd, argv[i + |Write(item)|..], true);
    ItemPrefix(env, cmd, argv, i, item, [], [], input);
    assert Meaning(env, cmd, [item], i, st, args) == o;
  }

  // ----- error codes -------------------------------------------------------------------------------------------

  /** The only codes of a failed parse are those of flags.h for memory, values and unknown flags. */
  lemma {:induction false} FailureCodes(env: Env, cmd: Command, items: seq<Item>, i: nat, st: Store, args: seq<string>)
    ensures var m := Meaning(env, cmd, items, i, st, args); m.Failed? ==> m.code == 12 || m.code == 13
    decreases |items|
  {
    if items != [] {
      var p := Apply(env, items[0], i, st, args);
      if p.Progress? {
        FailureCodes(env, cmd, items[1..], i + |Write(items[0])|, p.store, p.args);
      }
    }
  }

  lemma ParseCodes(env: Env, cmd: Command, argv: seq<string>, i: nat, input: bool, st: Store, args: seq<string>)
    requires i <= |argv|
    ensures var o := Parse(env, cmd, argv, i, input, st, args);
      o.Failed? ==> o.code == 12 || o.code == 13 || o.code == 14 || o.code == 15
  {
    hide Parse, Meaning, Stops, ValidSpot;
    var o := Parse(env, cmd, argv, i, input, st, args);
    var path, items := EveryOutcomeIsExplained(env, cmd, argv, i, input, st, args, o);
    FailureCodes(env, o.command, items, i + |path|, st, args);
  }
}
