/** What a script means, without its spelling: events, played one after the other. An event is
the use of a flag or a positional, together with whether memory could be had for it. */
module Spelling {
  import opened Flags
  import opened Grammar
  import opened GrowArray

  // ----- the events of a script --------------------------------------------------------------------------

  datatype Event =
    | Use(flag: Flag, value: string, room: bool)
    | UseBare(flag: Flag, room: bool)
    | Text(text: string, room: bool)

  function TailEvents(env: Env, t: Tail, i: nat, pos: nat): seq<Event> {
    match t
    case HelpOff(_) => []
    case Bare(f) => [UseBare(f, env.room(i, pos))]
    case _ => [Use(t.flag, t.value, env.room(i, pos))]
  }

  /** The letters of a cluster, each at its own offset in argument `i`. */
  function ClusterEvents(env: Env, c: seq<Flag>, i: nat): seq<Event> {
    seq(|c|, k requires 0 <= k < |c| => UseBare(c[k], env.room(i, k + 1)))
  }

  function ItemEvents(env: Env, item: Item, i: nat): seq<Event> {
    match item
    case Long(t) => TailEvents(env, t, i, 2)
    case Short(c, t) => ClusterEvents(env, c, i) + TailEvents(env, t, i, |c| + 1)
    case _ => [Text(item.text, env.argvRoom(i))]
  }

  /** The events of items that are written from argument `i` on. */
  function Events(env: Env, items: seq<Item>, i: nat): seq<Event> {
    if items == [] then []
    else ItemEvents(env, items[0], i) + Events(env, items[1..], i + |Write(items[0])|)
  }

  // ----- playing events ------------------------------------------------------------------------------------

  function ValueOf(e: Event): string
    requires !e.Text?
  {
    if e.Use? then e.value else "1"
  }

  /** One event: only the refusal of a given value, or of memory for a positional, is an error. */
  ghost function PlayOne(e: Event, st: Store, args: seq<string>): Progress {
    match e
    case Use(f, v, room) => Finish(SetFlag(f, v, room, st), st, args)
    case UseBare(f, room) =>
      var r := SetFlag(f, "1", room, st);
      Progress(if r.Some? then r.value else st, args)
    case Text(t, room) =>
      if NeedsRoom(|args|) && !room then Stuck(MALLOC_ARGV, st) else Progress(st, args + [t])
  }

  /** How a list of events ends, with the flags and positionals so far. */
  datatype Played =
    | Finished(store: Store, args: seq<string>)
    | Stopped(code: int, store: Store, args: seq<string>)

  ghost function Play(es: seq<Event>, st: Store, args: seq<string>): Played {
    if es == [] then Finished(st, args)
    else
      match PlayOne(es[0], st, args)
      case Stuck(code, st1) => Stopped(code, st1, args)
      case Progress(st1, args1) => Play(es[1..], st1, args1)
  }

  lemma {:induction false} PlayConcat(a: seq<Event>, b: seq<Event>, st: Store, args: seq<string>)
    ensures Play(a + b, st, args) == var p := Play(a, st, args); if p.Finished? then Play(b, p.store, p.args) else p
  {
    if a == [] {
      assert a + b == b;
    } else {
      var p := PlayOne(a[0], st, args);
      assert (a + b)[1..] == a[1..] + b;
      if p.Progress? {
        PlayConcat(a[1..], b, p.store, p.args);
      }
    }
  }

  ghost function PlayedFrom(p: Progress, args: seq<string>): Played {
    match p
    case Progress(st1, args1) => Finished(st1, args1)
    case Stuck(code, st1) => Stopped(code, st1, args)
  }

  lemma PlaySingle(e: Event, st: Store, args: seq<string>)
    ensures Play([e], st, args) == PlayedFrom(PlayOne(e, st, args), args)
  {
    assert [e][1..] == [];
  }

  lemma ClusterSnoc(env: Env, c: seq<Flag>, i: nat)
    requires c != []
    ensures ClusterEvents(env, c, i) ==
            ClusterEvents(env, c[..|c| - 1], i) + [UseBare(c[|c| - 1], env.room(i, |c|))]
  {}

  lemma {:induction false} ClusterPlays(env: Env, c: seq<Flag>, i: nat, st: Store, args: seq<string>)
    ensures Play(ClusterEvents(env, c, i), st, args) == Finished(SetCluster(env, c, i, st), args)
  {
    hide ClusterEvents, SetFlag;
    if c != [] {
      var init, last := c[..|c| - 1], UseBare(c[|c| - 1], env.room(i, |c|));
      ClusterPlays(env, init, i, st, args);
      ClusterSnoc(env, c, i);
      PlayConcat(ClusterEvents(env, init, i), [last], st, args);
      PlaySingle(last, SetCluster(env, init, i, st), args);
    } else {
      NoLetters(env, i);
    }
  }

  lemma NoLetters(env: Env, i: nat)
    ensures ClusterEvents(env, [], i) == []
  {}

  lemma TailPlays(env: Env, t: Tail, i: nat, pos: nat, st: Store, args: seq<string>)
    ensures Play(TailEvents(env, t, i, pos), st, args) ==
            PlayedFrom(Finish(SetTail(env, t, i, pos, st), st, args), args)
  {
    match t {
      case HelpOff(_) =>
      case _ => PlaySingle(TailEvents(env, t, i, pos)[0], st, args);
    }
  }

  lemma ItemPlays(env: Env, item: Item, i: nat, st: Store, args: seq<string>)
    ensures Play(ItemEvents(env, item, i), st, args) == PlayedFrom(Apply(env, item, i, st, args), args)
  {
    match item {
      case Long(t) => TailPlays(env, t, i, 2, st, args);
      case Short(c, t) =>
        ClusterPlays(env, c, i, st, args);
        TailPlays(env, t, i, |c| + 1, SetCluster(env, c, i, st), args);
        PlayConcat(ClusterEvents(env, c, i), TailEvents(env, t, i, |c| + 1), st, args);
      case _ => PlaySingle(Text(item.text, env.argvRoom(i)), st, args);
    }
  }

  ghost function OutcomeOf(cmd: Command, p: Played): Outcome {
    match p
    case Finished(st, args) => Done(cmd, st, args)
    case Stopped(code, st, args) => Failed(code, cmd, st, args)
  }

  /** A script means its events, played in order, success or failure. */
  lemma {:induction false} MeaningIsEvents(env: Env, cmd: Command, items: seq<Item>, i: nat, st: Store,
                                           args: seq<string>)
    ensures Meaning(env, cmd, items, i, st, args) == OutcomeOf(cmd, Play(Events(env, items, i), st, args))
    decreases |items|
  {
    hide Apply, ItemEvents, PlayOne, Write;
    if items != [] {
      var j := i + |Write(items[0])|;
      ItemPlays(env, items[0], i, st, args);
      PlayConcat(ItemEvents(env, items[0], i), Events(env, items[1..], j), st, args);
      var p := Apply(env, items[0], i, st, args);
      if p.Progress? {
        MeaningIsEvents(env, cmd, items[1..], j, p.store, p.args);
      }
    }
  }

  // ----- flags and positionals go their own ways ---------------------------------------------------------------

  function FlagEvents(es: seq<Event>): seq<Event> {
    if es == [] then [] else (if es[0].Text? then [] else [es[0]]) + FlagEvents(es[1..])
  }

  function TextsOf(es: seq<Event>): seq<string> {
    if es == [] then [] else (if es[0].Text? then [es[0].text] else []) + TextsOf(es[1..])
  }

  function ItemText(item: Item): seq<string> {
    if item.Positional? || item.PassThrough? then [item.text] else []
  }

  function Texts(items: seq<Item>): seq<string> {
    if items == [] then [] else ItemText(items[0]) + Texts(items[1..])
  }

  /** Without the positionals, and as long as these find room, flags are set alike. */
  lemma {:induction false} PlaySeparates(es: seq<Event>, st: Store, args: seq<string>)
    ensures var p, q := Play(es, st, args), Play(FlagEvents(es), st, []);
      && (p.Finished? ==> q == Finished(p.store, []) && p.args == args + TextsOf(es))
      && (p.Stopped? && p.code != MALLOC_ARGV ==> q == Stopped(p.code, p.store, []) && p.code == INVALID_ARGUMENT)
  {
    hide PlayOne;
    if es != [] {
      var p := PlayOne(es[0], st, args);
      if es[0].Text? {
        TextIsPushed(es[0], st, args);
        assert FlagEvents(es) == FlagEvents(es[1..]);
      } else {
        FlagComesFirst(es[0], FlagEvents(es[1..]), st, args);
        assert TextsOf(es) == TextsOf(es[1..]);
      }
      if p.Progress? {
        PlaySeparates(es[1..], p.store, p.args);
      }
    }
  }

  lemma TextIsPushed(e: Event, st: Store, args: seq<string>)
    requires e.Text?
    ensures var p := PlayOne(e, st, args);
      p.store == st && if p.Stuck? then p.code == MALLOC_ARGV else p.args == args + [e.text]
  {}

  lemma FlagComesFirst(e: Event, rest: seq<Event>, st: Store, args: seq<string>)
    requires !e.Text?
    ensures var p := PlayOne(e, st, args);
      && (p.Stuck? ==> Play([e] + rest, st, []) == Stopped(p.code, p.store, []) && p.code == INVALID_ARGUMENT)
      && (p.Progress? ==> Play([e] + rest, st, []) == Play(rest, p.store, []) && p.args == args)
  {
    assert ([e] + rest)[1..] == rest;
  }

  lemma {:induction false} TextsConcat(a: seq<Event>, b: seq<Event>)
    ensures TextsOf(a + b) == TextsOf(a) + TextsOf(b)
  {
    if a == [] {
      assert a + b == b;
    } else {
      assert (a + b)[1..] == a[1..] + b;
      TextsConcat(a[1..], b);
    }
  }

  lemma {:induction false} NoTexts(es: seq<Event>)
    requires forall e <- es :: !e.Text?
    ensures TextsOf(es) == []
  {
    if es != [] {
      NoTexts(es[1..]);
    }
  }

  lemma ItemTexts(env: Env, item: Item, i: nat)
    ensures TextsOf(ItemEvents(env, item, i)) == ItemText(item)
  {
    var es := ItemEvents(env, item, i);
    if item.Long? || item.Short? {
      NoTexts(es);
    } else {
      assert TextsOf(es[1..]) == [];
    }
  }

  lemma {:induction false} TextsAreEvents(env: Env, items: seq<Item>, i: nat)
    ensures TextsOf(Events(env, items, i)) == Texts(items)
    decreases |items|
  {
    hide ItemEvents, ItemText, Write;
    if items != [] {
      var j := i + |Write(items[0])|;
      ItemTexts(env, items[0], i);
      TextsAreEvents(env, items[1..], j);
      TextsConcat(ItemEvents(env, items[0], i), Events(env, items[1..], j));
    } else {
      NoTexts(Events(env, items, i));
    }
  }

  /** No memory for the positionals. */
  ghost predicate RanOut(o: Outcome) {
    o.Failed? && o.code == MALLOC_ARGV
  }

  lemma {:induction false} EnoughRoom(es: seq<Event>, st: Store, args: seq<string>)
    requires forall e <- es :: e.Text? ==> e.room
    ensures var p := Play(es, st, args); p.Stopped? ==> p.code == INVALID_ARGUMENT
  {
    if es != [] && PlayOne(es[0], st, args).Progress? {
      var p := PlayOne(es[0], st, args);
      EnoughRoom(es[1..], p.store, p.args);
    }
  }

  /** Two outcomes with the same result, but for the positionals of a failed command line. */
  ghost predicate SameResult(o: Outcome, o1: Outcome) {
    && (o.Done? <==> o1.Done?) && (o.Failed? <==> o1.Failed?)
    && o.command == o1.command && o.store == o1.store
    && (o.Done? ==> o.args == o1.args) && (o.Failed? && o1.Failed? ==> o.code == o1.code)
  }

  /** Two scripts with the same uses of flags and the same positionals have the same result,
  success or failure, however they are spelled and interleaved, unless one of them finds no room
  for its positionals. */
  lemma SpellingIsIrrelevant(env: Env, cmd: Command, a: seq<Item>, b: seq<Item>, i: nat, j: nat, st: Store)
    requires FlagEvents(Events(env, a, i)) == FlagEvents(Events(env, b, j)) && Texts(a) == Texts(b)
    requires !RanOut(Meaning(env, cmd, a, i, st, [])) && !RanOut(Meaning(env, cmd, b, j, st, []))
    ensures SameResult(Meaning(env, cmd, a, i, st, []), Meaning(env, cmd, b, j, st, []))
  {
    MeaningIsEvents(env, cmd, a, i, st, []);
    MeaningIsEvents(env, cmd, b, j, st, []);
    PlaySeparates(Events(env, a, i), st, []);
    PlaySeparates(Events(env, b, j), st, []);
    TextsAreEvents(env, a, i);
    TextsAreEvents(env, b, j);
  }

  // ----- clusters ------------------------------------------------------------------------------------------------

  /** The flags of a cluster, one argument each. */
  function Separately(c: seq<Flag>, t: Tail): seq<Item> {
    if c == [] then [Short([], t)] else [Short([], Bare(c[0]))] + Separately(c[1..], t)
  }

  /** The letters, each in an argument of its own. */
  function SeparateLetters(env: Env, c: seq<Flag>, i: nat): seq<Event> {
    seq(|c|, k requires 0 <= k < |c| => UseBare(c[k], env.room(i + k, 1)))
  }

  lemma {:induction false} SeparateEvents(env: Env, c: seq<Flag>, t: Tail, i: nat)
    ensures Events(env, Separately(c, t), i) == SeparateLetters(env, c, i) + TailEvents(env, t, i + |c|, 1)
    decreases |c|
  {
    hide ItemEvents, TailEvents, SeparateLetters, Write;
    var items := Separately(c, t);
    FirstIsAlone(env, items[0], i);
    if c == [] {
      OneItem(env, items[0], i);
      assert items == [items[0]];
      LettersStep(env, c, i);
      assert [] + TailEvents(env, t, i, 1) == TailEvents(env, t, i, 1);
    } else {
      assert items[1..] == Separately(c[1..], t);
      assert |Write(items[0])| == 1 by {
        OneArgument(c[0]);
      }
      SeparateEvents(env, c[1..], t, i + 1);
      LettersStep(env, c, i);
      BareTail(env, c[0], i);
    }
  }

  lemma OneArgument(f: Flag)
    ensures |Write(Short([], Bare(f)))| == 1
  {}

  lemma BareTail(env: Env, f: Flag, i: nat)
    ensures TailEvents(env, Bare(f), i, 1) == [UseBare(f, env.room(i, 1))]
  {}

  lemma LettersStep(env: Env, c: seq<Flag>, i: nat)
    ensures SeparateLetters(env, c, i) ==
            if c == [] then [] else [UseBare(c[0], env.room(i, 1))] + SeparateLetters(env, c[1..], i + 1)
  {}

  lemma FirstIsAlone(env: Env, item: Item, i: nat)
    requires item.Short? && item.cluster == []
    ensures ItemEvents(env, item, i) == TailEvents(env, item.tail, i, 1)
  {
    NoLetters(env, i);
  }

  /** Memory can be had for letter `k` of argument `i` as it can for argument `i + k`. */
  predicate Alike(env: Env, i: nat, k: nat) {
    env.room(i, k + 1) == env.room(i + k, 1)
  }

  /** -abc is -a -b -c, wherever memory can be had alike. */
  lemma ClusterIsSeparateFlags(env: Env, cmd: Command, c: seq<Flag>, t: Tail, i: nat, st: Store, args: seq<string>)
    requires forall k :: 0 <= k <= |c| ==> Alike(env, i, k)
    ensures Meaning(env, cmd, [Short(c, t)], i, st, args) == Meaning(env, cmd, Separately(c, t), i, st, args)
  {
    hide Meaning, Play, Events, Write;
    MeaningIsEvents(env, cmd, [Short(c, t)], i, st, args);
    MeaningIsEvents(env, cmd, Separately(c, t), i, st, args);
    SeparateEvents(env, c, t, i);
    OneItem(env, Short(c, t), i);
    AlikeEvents(env, c, t, i);
  }

  lemma AlikeEvents(env: Env, c: seq<Flag>, t: Tail, i: nat)
    requires forall k :: 0 <= k <= |c| ==> Alike(env, i, k)
    ensures ClusterEvents(env, c, i) == SeparateLetters(env, c, i)
    ensures TailEvents(env, t, i, |c| + 1) == TailEvents(env, t, i + |c|, 1)
  {
    assert Alike(env, i, |c|);
    forall k | 0 <= k < |c| ensures ClusterEvents(env, c, i)[k] == SeparateLetters(env, c, i)[k] {
      assert Alike(env, i, k);
    }
  }

  lemma OneItem(env: Env, item: Item, i: nat)
    ensures Events(env, [item], i) == ItemEvents(env, item, i)
  {
    assert [item][1..] == [];
  }

  // ----- what array flags hold in the end --------------------------------------------------------------------

  /** No other flag among these events sets the variable of `f`. */
  ghost predicate Unshared(f: Flag, es: seq<Event>) {
    forall e <- es :: e.Text? || e.flag == f || (e.flag.target != f.target && e.flag.id != f.id)
  }

  /** The uses of the array flag `f`, each as it is parsed and verified when its turn comes. */
  ghost function Attempts(f: Flag, es: seq<Event>, st: Store, args: seq<string>): seq<Attempt<Atom>> {
    if es == [] then []
    else
      match PlayOne(es[0], st, args)
      case Stuck(_, _) => Here(f, es[0], st)
      case Progress(st1, args1) => Here(f, es[0], st) + Attempts(f, es[1..], st1, args1)
  }

  ghost function Here(f: Flag, e: Event, st: Store): seq<Attempt<Atom>> {
    if e.Text? || e.flag != f then [] else [ParsedAttempt(f, ValueOf(e), e.room, st)]
  }

  lemma OneEvent(f: Flag, e: Event, st: Store, args: seq<string>)
    requires f.isArray && Current(st, f.target).Array?
    requires e.Text? || e.flag == f || (e.flag.target != f.target && e.flag.id != f.id)
    ensures var st1 := PlayOne(e, st, args).store;
      && Current(st1, f.target).Array? && ArrayView(f, st1) == Run(ArrayView(f, st), Here(f, e, st))
  {
    if e.Text? {
    } else if e.flag == f {
      ArraySetIsUse(f, ValueOf(e), e.room, st);
      RunSingle(ArrayView(f, st), Here(f, e, st)[0]);
    } else if SetFlag(e.flag, ValueOf(e), e.room, st).Some? {
      SetFlagFrame(e.flag, ValueOf(e), e.room, st, f);
    }
  }

  /** Playing events makes of an array what its own uses make of it. */
  lemma {:induction false} PlayAccumulates(f: Flag, es: seq<Event>, st: Store, args: seq<string>)
    requires f.isArray && Current(st, f.target).Array? && Unshared(f, es)
    ensures ArrayView(f, Play(es, st, args).store) == Run(ArrayView(f, st), Attempts(f, es, st, args))
  {
    hide PlayOne, Here, Run, ArrayView;
    if es != [] {
      var p := PlayOne(es[0], st, args);
      OneEvent(f, es[0], st, args);
      if p.Progress? {
        PlayAccumulates(f, es[1..], p.store, p.args);
        RunConcat(ArrayView(f, st), Here(f, es[0], st), Attempts(f, es[1..], p.store, p.args));
      }
    } else {
      NoAttempts(ArrayView(f, st), Attempts(f, es, st, args));
    }
  }

  /** After any events, also up to an error, an array flag that no other flag shares has its
  untouched default, or exactly the accepted values of its own uses, in order. */
  lemma ArrayHoldsItsUses(f: Flag, es: seq<Event>, st: Store, args: seq<string>)
    requires f.isArray && Current(st, f.target).Array? && Unshared(f, es) && f.id !in st.touched
    ensures var accepted := Successes(Attempts(f, es, st, args));
      ArrayView(f, Play(es, st, args).store) ==
      if accepted == [] then ArrayView(f, st) else Accumulator(true, accepted)
  {
    PlayAccumulates(f, es, st, args);
    RunAccumulates(ItemsOf(Current(st, f.target)), Attempts(f, es, st, args));
  }

  /** The values given for `f`, as parsed. */
  ghost function ParsedValues(f: Flag, es: seq<Event>): seq<Atom> {
    if es == [] then [] else ParsedHere(f, es[0]) + ParsedValues(f, es[1..])
  }

  ghost function ParsedHere(f: Flag, e: Event): seq<Atom> {
    if e.Text? || e.flag != f || ParseAtom(f.kind, ValueOf(e)).None? then []
    else [ParseAtom(f.kind, ValueOf(e)).value]
  }

  /** Where the verify hook accepts everything, memory is there and nothing fails, these are all
  the values given. */
  lemma {:induction false} AllAreAccepted(f: Flag, es: seq<Event>, st: Store, args: seq<string>)
    requires Play(es, st, args).Finished? && (forall v, a :: f.accepts(v, a)) && forall e <- es :: e.room
    ensures Successes(Attempts(f, es, st, args)) == ParsedValues(f, es)
  {
    hide PlayOne, Here, ParsedHere, Successes;
    if es != [] {
      var p := PlayOne(es[0], st, args);
      assert es[0].room by {
        assert es[0] in es;
      }
      AcceptedHere(f, es[0], st, args);
      AllAreAccepted(f, es[1..], p.store, p.args);
      SuccessesConcat(Here(f, es[0], st), Attempts(f, es[1..], p.store, p.args));
    } else {
      NoSuccesses(Attempts(f, es, st, args));
    }
  }

  lemma AcceptedHere(f: Flag, e: Event, st: Store, args: seq<string>)
    requires PlayOne(e, st, args).Progress? && e.room && forall v, a :: f.accepts(v, a)
    ensures Successes(Here(f, e, st)) == ParsedHere(f, e)
  {
    if !e.Text? && e.flag == f {
      assert Here(f, e, st)[..0] == [];
    }
  }

  lemma NoSuccesses(attempts: seq<Attempt<Atom>>)
    requires attempts == []
    ensures Successes(attempts) == []
  {}
}
