/** Where the parser's promises end: names with '=', and more than 32 positionals. */
module Limits {
  import opened Wrappers
  import opened Flags
  import opened Grammar
  import opened RoundTrip
  import opened CommandLine

  // ----- names with an equals sign ------------------------------------------------------------------

  predicate SomeEarlierMatch(flags: seq<Flag>, k: nat, body: string)
    requires k <= |flags|
  {
    exists j :: 0 <= j < k && MatchesLong(flags[j], body)
  }

  lemma {:induction false} FirstMatchWins(flags: seq<Flag>, k: nat, body: string)
    requires k < |flags| && MatchesLong(flags[k], body)
    requires forall j :: 0 <= j < k ==> flags[j] != flags[k]
    ensures FindLong(flags, body) == Some(flags[k]) <==> !SomeEarlierMatch(flags, k, body)
  {
    if k > 0 && !MatchesLong(flags[0], body) {
      FirstMatchWins(flags[1..], k - 1, body);
      assert SomeEarlierMatch(flags, k, body) <==> SomeEarlierMatch(flags[1..], k - 1, body) by {
        if j :| 0 <= j < k && MatchesLong(flags[j], body) {
          assert MatchesLong(flags[1..][j - 1], body);
        }
        if j :| 0 <= j < k - 1 && MatchesLong(flags[1..][j], body) {
          assert MatchesLong(flags[j + 1], body);
        }
      }
    }
  }

  /** For any names at all: a written long occurrence is read back if and only if it does not
  look like help and no flag registered earlier matches it. */
  lemma LongReadsBackIff(flags: seq<Flag>, k: nat, t: Tail, next: Option<string>, allow: bool)
    requires k < |flags| && ValidTail(flags, t) && !t.Inline? && !t.HelpOff? && t.flag == flags[k]
    requires t.flag.name != "" && NextFits(t, next)
    requires forall j :: 0 <= j < k ==> flags[j] != flags[k]
    ensures var body := WriteLongTail(t);
      ReadLong(flags, body, next, allow) == Got(Long(t)) <==>
        body != "help" && !("help=" <= body) && !SomeEarlierMatch(flags, k, body)
  {
    var body := WriteLongTail(t);
    if t.Equals? {
      assert body[|t.flag.name|] == '=' && body[..|t.flag.name|] == t.flag.name;
      assert body[|t.flag.name| + 1..] == t.value;
    }
    FirstMatchWins(flags, k, body);
  }

  ghost predicate ReadsBack(flags: seq<Flag>, t: Tail, next: Option<string>, allow: bool) {
    WriteLongTail(t) != "" && ReadLong(flags, WriteLongTail(t), next, allow) == Got(Long(t))
  }

  /** Every long occurrence of these flags is read back. */
  ghost predicate LongsReadBack(flags: seq<Flag>, allow: bool) {
    forall t, next :: ValidTail(flags, t) && !t.Inline? && NextFits(t, next) ==> ReadsBack(flags, t, next, allow)
  }

  /** The exact condition on names: none continues another one, or help, with an equals sign. */
  lemma LongsReadBackIff(flags: seq<Flag>, allow: bool)
    requires Distinct(flags)
    ensures LongsReadBack(flags, allow) <==> NoneExtends(flags)
  {
    hide ReadsBack;
    if NoneExtends(flags) {
      forall t, next | ValidTail(flags, t) && !t.Inline? && NextFits(t, next) ensures ReadsBack(flags, t, next, allow) {
        WellNamedReadsBack(flags, t, next, allow);
      }
    } else if f :| f in flags && "help=" <= f.name {
      HelpNameIsMisread(flags, f, allow);
    } else {
      var f, g :| f in flags && g in flags && f.name + "=" <= g.name;
      ExtensionIsMisread(flags, f, g, allow);
      assert ValidTail(flags, Equals(f, g.name[|f.name| + 1..])) && ValidTail(flags, Equals(g, ""));
    }
  }

  lemma WellNamedReadsBack(flags: seq<Flag>, t: Tail, next: Option<string>, allow: bool)
    requires WellNamed(flags) && ValidTail(flags, t) && !t.Inline? && NextFits(t, next)
    ensures ReadsBack(flags, t, next, allow)
  {
    LongIsRead(flags, t, next, allow);
  }

  lemma HelpNameIsMisread(flags: seq<Flag>, f: Flag, allow: bool)
    requires f in flags && "help=" <= f.name
    ensures ValidTail(flags, Equals(f, "")) && !ReadsBack(flags, Equals(f, ""), None, allow)
  {
    assert "help=" <= WriteLongTail(Equals(f, ""));
  }

  /** If `g` is named like an occurrence of `f` with a value, then that occurrence and `g` with an
  empty value are matched by both flags, and one of them is misread. */
  lemma ExtensionIsMisread(flags: seq<Flag>, f: Flag, g: Flag, allow: bool)
    requires f in flags && g in flags && f.name + "=" <= g.name
    ensures !ReadsBack(flags, Equals(f, g.name[|f.name| + 1..]), None, allow) ||
            !ReadsBack(flags, Equals(g, ""), None, allow)
  {
    var tf, tg := Equals(f, g.name[|f.name| + 1..]), Equals(g, "");
    if ReadsBack(flags, tf, None, allow) && ReadsBack(flags, tg, None, allow) {
      ReadBackIsFound(flags, tf, None, allow);
      ReadBackIsFound(flags, tg, None, allow);
      BothMatch(f, g, WriteLongTail(tf), WriteLongTail(tg));
      FirstOfTwo(flags, f, g, WriteLongTail(tf), WriteLongTail(tg));
      assert false;
    }
  }

  lemma BothMatch(f: Flag, g: Flag, a: string, b: string)
    requires f.name + "=" <= g.name && b == g.name + "="
    requires a == f.name + "=" + g.name[|f.name| + 1..]
    ensures MatchesLong(f, a) && MatchesLong(g, a) && MatchesLong(f, b) && MatchesLong(g, b)
  {
    ExtensionIsWritten(f.name, g.name);
    ExtensionMatches(f.name, g.name, b);
    assert b[..|g.name|] == g.name && b[|g.name|] == '=';
  }

  lemma ReadBackIsFound(flags: seq<Flag>, t: Tail, next: Option<string>, allow: bool)
    requires t.Equals? && ReadsBack(flags, t, next, allow)
    ensures FindLong(flags, WriteLongTail(t)) == Some(t.flag)
  {}

  lemma ExtensionIsWritten(name: string, longer: string)
    requires name + "=" <= longer
    ensures name + "=" + longer[|name| + 1..] == longer
  {}

  lemma ExtensionMatches(name: string, longer: string, body: string)
    requires name + "=" <= longer && longer <= body
    ensures longer[|name|] == '=' && longer[..|name|] == name && body[|name|] == '=' && body[..|name|] == name
  {
    assert name == (name + "=")[..|name|] == longer[..|name|] == body[..|name|];
  }

  lemma {:induction false} FirstOfTwo(flags: seq<Flag>, f: Flag, g: Flag, a: string, b: string)
    requires MatchesLong(f, a) && MatchesLong(g, a) && MatchesLong(f, b) && MatchesLong(g, b) && f != g
    requires FindLong(flags, a) == Some(f)
    ensures FindLong(flags, b) != Some(g)
  {
    if flags[0] != f && FindLong(flags, b) == Some(g) {
      FirstOfTwo(flags[1..], f, g, a, b);
    }
  }

  /** Registered as "a" and then "a=b", the bare flag --a=b is read as --a with value b. */
  lemma EqualsInNameCounterexample(a: Flag, ab: Flag, next: Option<string>, allow: bool)
    requires a.name == "a" && ab.name == "a=b" && Boolish(ab)
    ensures ValidTail([a, ab], Bare(ab))
    ensures ReadLong([a, ab], WriteLongTail(Bare(ab)), next, allow) == Got(Long(Equals(a, "b")))
  {
    var body := WriteLongTail(Bare(ab));
    assert body == "a=b" && body[..1] == "a" && body[2..] == "b";
    assert MatchesLong(a, body);
    assert !("help=" <= body) by { assert body[0] != "help="[0]; }
  }

  /** With the letters '-' and 'x', the cluster -- followed by x is read as the long flag x. */
  lemma DashLetterCounterexample(dash: Flag, x: Flag, next: Option<string>, allow: bool)
    requires dash.short == '-' && dash.name == "dash" && Boolish(dash)
    requires x.short == 'x' && x.name == "x" && Boolish(x)
    ensures Distinct([dash, x]) && ValidTail([dash, x], Bare(x)) && NoInnerEquals([dash], Bare(x))
    ensures var a := Write(Short([dash], Bare(x)))[0];
      FlagForm(a) && ReadFlag([dash, x], a, next, allow) == Got(Long(Bare(x)))
  {
    var a := Write(Short([dash], Bare(x)))[0];
    assert Letters([dash]) == "-" + Letters([dash][1..]) == "-";
    assert a == "-" + "-" + "x" && a[2..] == "x";
    assert FindLong([dash, x], "x") == FindLong([x], "x") == Some(x) by {
      assert [dash, x][1..] == [x] && !MatchesLong(dash, "x") && MatchesLong(x, "x");
    }
  }

  // ----- the thirty-third positional ------------------------------------------------------------------

  lemma {:induction false} PlainArguments(env: Env, cmd: Command, argv: seq<string>, i: nat, st: Store,
                                          args: seq<string>)
    requires i <= |argv| && (forall a <- argv :: !FlagForm(a)) && cmd.children == []
    requires forall k :: env.argvRoom(k)
    ensures Parse(env, cmd, argv, i, false, st, args) == Done(cmd, st, args + argv[i..])
    ensures Parse(env, cmd, argv, i, true, st, args) == Done(cmd, st, args + argv[i..])
    decreases |argv| - i
  {
    if i == |argv| {
      assert args + argv[i..] == args;
    } else {
      assert argv[i] in argv;
      assert !FlagForm(argv[i]);
      PlainArguments(env, cmd, argv, i + 1, st, args + [argv[i]]);
      assert args + [argv[i]] + argv[i + 1..] == args + argv[i..];
    }
  }

  /** A command line of 33 plain words parses without error into 33 positionals, one more
  than Executor.Execute can deliver intact. */
  lemma ThirtyThreeWords(env: Env, cmd: Command, st: Store)
    requires cmd.children == [] && forall k :: env.argvRoom(k)
    ensures var o := Parse(env, cmd, seq(33, _ => "x"), 0, false, st, []); o.Done? && |o.args| > 32
  {
    PlainArguments(env, cmd, seq(33, _ => "x"), 0, st, []);
  }

  // ----- bool flags without a value ---------------------------------------------------------------------

  /** A bool flag whose value may only be false. */
  const PICKY := Flag(1, "b", NO_SHORT, Bool, false, 0, (_: Val, a: Atom) => a == Truth(false))

  /** --b is accepted and without effect, --b=1 is an error. */
  lemma BareEqualsOneCounterexample(env: Env)
    ensures var cmd, st := Command("x", [PICKY], [], true), Store(map[], {});
      && Parse(env, cmd, ["--b"], 0, false, st, []) == Done(cmd, st, [])
      && Parse(env, cmd, ["--b=1"], 0, false, st, []) == Failed(INVALID_ARGUMENT, cmd, st, [])
  {
    var cmd, st := Command("x", [PICKY], [], true), Store(map[], {});
    var bare, one := Bare(PICKY), Equals(PICKY, "1");
    assert WriteLongTail(one) == "b=1" && "--" + "b" == "--b" && "--" + "b=1" == "--b=1";
    OneLongIsWritten(bare);
    OneLongIsWritten(one);
    BareEqualsOneIff(env, cmd, PICKY, 0, st, []);
    PickyIsWellNamed();
    ItemsRoundTrip(env, cmd, ["--b"], 0, [Long(bare)], false, st, []);
    ItemsRoundTrip(env, cmd, ["--b=1"], 0, [Long(one)], false, st, []);
  }

  lemma OneLongIsWritten(t: Tail)
    requires !t.Separate?
    ensures WriteAll([Long(t)]) == ["--" + WriteLongTail(t)] && [Long(t)][1..] == []
  {
    assert [Long(t)][1..] == [];
    assert Write(Long(t)) == ["--" + WriteLongTail(t)];
  }

  lemma PickyIsWellNamed()
    ensures WellNamed([PICKY])
  {
    assert "help="[0] != "b"[0];
  }

  /** The refusal of a bare bool flag is ignored, that of --b=1 is an error: the two spellings
  agree exactly when the verify hook accepts true and an array flag has room for it. */
  lemma BareEqualsOneIff(env: Env, cmd: Command, f: Flag, i: nat, st: Store, args: seq<string>)
    requires Boolish(f)
    ensures var bare := Meaning(env, cmd, [Long(Bare(f))], i, st, args);
      var one := Meaning(env, cmd, [Long(Equals(f, "1"))], i, st, args);
      var taken := f.accepts(Current(st, f.target), Truth(true)) && (f.isArray ==> env.room(i, 2));
      && (bare == one <==> taken)
      && (!taken ==> bare == Done(cmd, st, args) && one == Failed(INVALID_ARGUMENT, cmd, st, args))
  {
    assert [Long(Bare(f))][1..] == [] && [Long(Equals(f, "1"))][1..] == [];
    var r := SetFlag(f, "1", env.room(i, 2), st);
    assert Apply(env, Long(Bare(f)), i, st, args) == Progress(if r.Some? then r.value else st, args);
    assert Apply(env, Long(Equals(f, "1")), i, st, args) == Finish(r, st, args);
  }
}
