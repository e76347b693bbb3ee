/** The parse function once more, setting every flag as soon as its letter is met, as the
execute loop does; and the proof that it is the same function. */
module Letterwise {
  import opened Text
  import opened Wrappers
  import opened Flags
  import opened Grammar

  /** The outcome once a flag occurrence at offset `pos` of argument `i` ends as `t`. */
  ghost function After(env: Env, cmd: Command, argv: seq<string>, i: nat, pos: nat, t: Tail, st: Store,
                       args: seq<string>): Outcome
    requires i < |argv|
  {
    match SetTail(env, t, i, pos, st)
    case None => Failed(INVALID_ARGUMENT, cmd, st, args)
    case Some(st1) => Parse(env, cmd, argv, i + 1 + |Value(t)|, true, st1, args)
  }

  /** A flag without an inline value: a bool flag is set, any other needs the next argument. */
  ghost function WithoutValue(env: Env, cmd: Command, argv: seq<string>, i: nat, pos: nat, f: Flag, st: Store,
                              args: seq<string>): Outcome
    requires i < |argv|
  {
    if Boolish(f) then After(env, cmd, argv, i, pos, Bare(f), st, args)
    else if i + 1 >= |argv| then Failed(INVALID_ARGUMENT, cmd, st, args)
    else After(env, cmd, argv, i, pos, Separate(f, argv[i + 1]), st, args)
  }

  ghost function AfterHelp(env: Env, cmd: Command, argv: seq<string>, i: nat, value: string, st: Store,
                           args: seq<string>): Outcome
    requires i < |argv|
  {
    if ParseBool(value) == 0 then Parse(env, cmd, argv, i + 1, true, st, args)
    else if ParseBool(value) == 1 then Helped(cmd, st, args)
    else Failed(INVALID_ARGUMENT, cmd, st, args)
  }

  ghost function AfterPush(env: Env, cmd: Command, argv: seq<string>, i: nat, st: Store, args: seq<string>): Outcome
    requires i < |argv|
  {
    if NeedsRoom(|args|) && !env.argvRoom(i) then Failed(MALLOC_ARGV, cmd, st, args)
    else Parse(env, cmd, argv, i + 1, true, st, args + [argv[i]])
  }

  /** The rest of the parse from the long flag `body`, which argument `i` holds. */
  ghost function ParseLong(env: Env, cmd: Command, argv: seq<string>, i: nat, body: string, st: Store,
                           args: seq<string>): Outcome
    requires i < |argv|
  {
    if body == "help" then Helped(cmd, st, args)
    else if "help=" <= body then AfterHelp(env, cmd, argv, i, body[5..], st, args)
    else
      match FindLong(cmd.flags, body)
      case None => if env.allow then AfterPush(env, cmd, argv, i, st, args) else Failed(UNKNOWN_FLAG, cmd, st, args)
      case Some(f) =>
        if body == f.name then WithoutValue(env, cmd, argv, i, 2, f, st, args)
        else After(env, cmd, argv, i, 2, Equals(f, body[|f.name| + 1..]), st, args)
  }

  /** The rest of the parse from offset `pos` of the short argument `i`, the letters before
  it having been set already. */
  ghost function ParseShort(env: Env, cmd: Command, argv: seq<string>, i: nat, pos: nat, st: Store,
                            args: seq<string>): Outcome
    requires i < |argv| && 1 <= pos < |argv[i]|
    decreases |argv[i]| - pos
  {
    var body := argv[i][pos..];
    if body == "h" then Helped(cmd, st, args)
    else if "h=" <= body then AfterHelp(env, cmd, argv, i, body[2..], st, args)
    else
      match FindShort(cmd.flags, body[0])
      case None =>
        if pos == 1 && env.allow then AfterPush(env, cmd, argv, i, st, args)
        else Failed(UNKNOWN_SHORT_FLAG, cmd, st, args)
      case Some(f) =>
        if |body| == 1 then WithoutValue(env, cmd, argv, i, pos, f, st, args)
        else if body[1] == '=' then After(env, cmd, argv, i, pos, Equals(f, body[2..]), st, args)
        else if Boolish(f) then ParseShort(env, cmd, argv, i, pos + 1, SetBare(env, f, i, pos, st), args)
        else After(env, cmd, argv, i, pos, Inline(f, body[1..]), st, args)
  }

  lemma LongItem(env: Env, cmd: Command, argv: seq<string>, i: nat, t: Tail, st: Store, args: seq<string>)
    requires i < |argv|
    ensures ParseItem(env, cmd, argv, i, Long(t), st, args) == After(env, cmd, argv, i, 2, t, st, args)
  {}

  lemma ShortItem(env: Env, cmd: Command, argv: seq<string>, i: nat, cluster: seq<Flag>, t: Tail, st: Store,
                  args: seq<string>)
    requires i < |argv|
    ensures ParseItem(env, cmd, argv, i, Short(cluster, t), st, args) ==
            After(env, cmd, argv, i, |cluster| + 1, t, SetCluster(env, cluster, i, st), args)
  {
    hide Parse, SetCluster, SetTail;
  }

  lemma PushItem(env: Env, cmd: Command, argv: seq<string>, i: nat, st: Store, args: seq<string>)
    requires i < |argv|
    ensures ParseItem(env, cmd, argv, i, PassThrough(argv[i]), st, args) == AfterPush(env, cmd, argv, i, st, args)
    ensures ParseItem(env, cmd, argv, i, Positional(argv[i]), st, args) == AfterPush(env, cmd, argv, i, st, args)
  {}

  lemma ParseLongIsRead(env: Env, cmd: Command, argv: seq<string>, i: nat, st: Store, args: seq<string>)
    requires i < |argv| && LongForm(argv[i])
    ensures ParseLong(env, cmd, argv, i, argv[i][2..], st, args) ==
            ParseRead(env, cmd, argv, i, ReadLong(cmd.flags, argv[i][2..], Next(argv, i), env.allow), st, args)
  {
    var body := argv[i][2..];
    var r := ReadLong(cmd.flags, body, Next(argv, i), env.allow);
    match r {
      case Got(Long(t)) => LongItem(env, cmd, argv, i, t, st, args);
      case Got(PassThrough(s)) =>
        assert argv[i] == "--" + body;
        PushItem(env, cmd, argv, i, st, args);
      case _ =>
    }
  }

  /** Setting cluster letters as they are met comes to the same as reading the whole
  argument first and setting them then. */
  lemma {:induction false} ParseShortIsRead(env: Env, cmd: Command, argv: seq<string>, i: nat, cluster: seq<Flag>,
                                            before: Store, args: seq<string>)
    requires i < |argv| && 1 + |cluster| < |argv[i]| && argv[i][0] == '-'
    ensures var pos := 1 + |cluster|;
      ParseShort(env, cmd, argv, i, pos, SetCluster(env, cluster, i, before), args) ==
      ParseRead(env, cmd, argv, i, ReadShort(cmd.flags, argv[i][pos..], Next(argv, i), env.allow, cluster),
                before, args)
    decreases |argv[i]| - |cluster|
  {
    hide Parse, After, AfterHelp, AfterPush, WithoutValue, SetBare, SetCluster;
    var pos := 1 + |cluster|;
    var body := argv[i][pos..];
    var found := FindShort(cmd.flags, body[0]);
    if body != "h" && !("h=" <= body) && found.Some? && |body| > 1 && body[1] != '=' && Boolish(found.value) {
      var cluster1 := cluster + [found.value];
      ParseShortIsRead(env, cmd, argv, i, cluster1, before, args);
      assert body[1..] == argv[i][pos + 1..];
      SetClusterSnoc(env, cluster, found.value, i, before);
    } else {
      ParseShortEnds(env, cmd, argv, i, cluster, before, args);
    }
  }

  lemma SetClusterSnoc(env: Env, cluster: seq<Flag>, f: Flag, i: nat, st: Store)
    ensures SetCluster(env, cluster + [f], i, st) == SetBare(env, f, i, |cluster| + 1, SetCluster(env, cluster, i, st))
  {
    assert (cluster + [f])[..|cluster|] == cluster;
  }

  lemma ParseShortEnds(env: Env, cmd: Command, argv: seq<string>, i: nat, cluster: seq<Flag>, before: Store,
                       args: seq<string>)
    requires i < |argv| && 1 + |cluster| < |argv[i]| && argv[i][0] == '-'
    requires var body := argv[i][1 + |cluster|..]; var found := FindShort(cmd.flags, body[0]);
      !(body != "h" && !("h=" <= body) && found.Some? && |body| > 1 && body[1] != '=' && Boolish(found.value))
    ensures var pos := 1 + |cluster|;
      ParseShort(env, cmd, argv, i, pos, SetCluster(env, cluster, i, before), args) ==
      ParseRead(env, cmd, argv, i, ReadShort(cmd.flags, argv[i][pos..], Next(argv, i), env.allow, cluster),
                before, args)
  {
    var body := argv[i][1 + |cluster|..];
    var r := ReadShort(cmd.flags, body, Next(argv, i), env.allow, cluster);
    match r {
      case Got(Short(c, t)) => ShortItem(env, cmd, argv, i, cluster, t, before, args);
      case Got(PassThrough(s)) =>
        assert argv[i] == "-" + body;
        PushItem(env, cmd, argv, i, before, args);
      case _ =>
    }
  }

  lemma StartLong(env: Env, cmd: Command, argv: seq<string>, i: nat, input: bool, st: Store, args: seq<string>)
    requires i < |argv| && LongForm(argv[i])
    ensures Parse(env, cmd, argv, i, input, st, args) == ParseLong(env, cmd, argv, i, argv[i][2..], st, args)
  {
    ParseLongIsRead(env, cmd, argv, i, st, args);
  }

  lemma StartShort(env: Env, cmd: Command, argv: seq<string>, i: nat, input: bool, st: Store, args: seq<string>)
    requires i < |argv| && ShortForm(argv[i])
    ensures Parse(env, cmd, argv, i, input, st, args) == ParseShort(env, cmd, argv, i, 1, st, args)
  {
    ParseShortIsRead(env, cmd, argv, i, [], st, args);
    assert SetCluster(env, [], i, st) == st;
  }

  lemma StartPlain(env: Env, cmd: Command, argv: seq<string>, i: nat, input: bool, st: Store, args: seq<string>)
    requires i < |argv| && !FlagForm(argv[i])
    ensures Parse(env, cmd, argv, i, input, st, args) ==
            var child := if input then None else FindChild(cmd.children, argv[i]);
            if child.Some? then Parse(env, child.value, argv, i + 1, false, st, args)
            else AfterPush(env, cmd, argv, i, st, args)
  {
    PushItem(env, cmd, argv, i, st, args);
  }
}
