/** Executing a script: the whole way from a written command line to the handler. */
module Scripts {
  import opened ArgList
  import opened CommandLine
  import opened Executor
  import opened Flags
  import opened Grammar
  import opened GrowArray
  import opened Links
  import opened RoundTrip
  import opened Spelling
  import opened Wrappers
  import Registered
  import Registry

  /** The four results of a run of execute that ended in the command `cmd`. */
  datatype Result = Result(err: int, store: Store, calls: seq<Call>, intact: bool)

  /** What a user who wrote these events and texts for `cmd` may expect: the flags set in order,
  one call of the handler with exactly these texts, intact up to 32 of them; or, if a value or
  memory for a positional is refused, an error and no call. */
  ghost predicate AsWritten(r: Result, cmd: Command, played: Played, texts: seq<string>) {
    && r.err == (if played.Finished? then 0 else played.code)
    && (r.err != 0 <==> played.Stopped?)
    && r.store == played.store
    && |r.calls| == (if played.Finished? && cmd.handler then 1 else 0)
    && (r.calls != [] ==>
          && r.calls[0].command == cmd && r.calls[0].argc == |texts|
          && (r.intact && Delivers(r.calls[0].argv, texts) <==> |texts| <= 32))
  }

  /** The round trip through execute: a subcommand path and items in any mix of spellings, in
  any environment. */
  method ExecuteScript(root: Command, path: seq<string>, cmd: Command, items: seq<Item>, env: Env, store: Store)
    returns (r: Result)
    requires Descend(root, path) == Some(cmd)
    requires WellNamed(cmd.flags) && ValidItems(cmd, env.allow, items) && NoChild(cmd, items)
    ensures AsWritten(r, cmd, Play(Events(env, items, |path|), store, []), Texts(items))
  {
    CommandLineRoundTrip(env, root, path, cmd, items, store);
    MeaningIsEvents(env, cmd, items, |path|, store, []);
    PlaySeparates(Events(env, items, |path|), store, []);
    TextsAreEvents(env, items, |path|);
    assert [] + Texts(items) == Texts(items);
    var err, final, calls, intact := Execute(root, path + WriteAll(items), env, store);
    r := Result(err, final, calls, intact);
  }

  /** The same for any command of any registry that create and add can build. */
  method ExecuteRegistered(g: Registry.Registry, c: nat, items: seq<Item>, env: Env, store: Store) returns (r: Result)
    requires Registered.Sound(g.commands, g.flags, g.owner) && ROOT <= c < |g.commands|
    requires NoneExtends(Registered.View(g.commands, g.flags, c).flags)
    requires var cmd := Registered.View(g.commands, g.flags, c);
      ValidItems(cmd, env.allow, items) && NoChild(cmd, items)
    ensures var i := |Registered.PathTo(g.commands, c)|;
      AsWritten(r, Registered.View(g.commands, g.flags, c), Play(Events(env, items, i), store, []), Texts(items))
  {
    Registered.EveryCommandIsReached(g.commands, g.flags, g.owner, c);
    Registered.RegisteredIsDistinct(g.commands, g.flags, g.owner, c);
    var root, path := Registered.View(g.commands, g.flags, ROOT), Registered.PathTo(g.commands, c);
    r := ExecuteScript(root, path, Registered.View(g.commands, g.flags, c), items, env, store);
  }

  /** Items that are valid for a command use its flags and no others. */
  lemma {:induction false} EventsUseFlags(env: Env, cmd: Command, items: seq<Item>, i: nat, e: Event)
    requires ValidItems(cmd, env.allow, items) && e in Events(env, items, i) && !e.Text?
    ensures e.flag in cmd.flags
    decreases |items|
  {
    hide ItemEvents, ValidItem, Write;
    if e in ItemEvents(env, items[0], i) {
      ItemUsesFlags(env, cmd.flags, items[0], i, e);
    } else {
      EventsUseFlags(env, cmd, items[1..], i + |Write(items[0])|, e);
    }
  }

  lemma ItemUsesFlags(env: Env, flags: seq<Flag>, item: Item, i: nat, e: Event)
    requires ValidItem(flags, env.allow, item) && e in ItemEvents(env, item, i) && !e.Text?
    ensures e.flag in flags
  {
    if item.Short? && e in ClusterEvents(env, item.cluster, i) {
      var k :| 0 <= k < |item.cluster| && ClusterEvents(env, item.cluster, i)[k] == e;
      assert item.cluster[k] in item.cluster;
    }
  }

  /** After a command line, an array flag that no other flag of its command shares has its untouched default, or
  exactly the accepted values of its own uses in order, also if the command line ends in error. */
  lemma CommandLineFillsArray(env: Env, root: Command, path: seq<string>, cmd: Command, items: seq<Item>,
                              st: Store, f: Flag)
    requires Descend(root, path) == Some(cmd)
    requires WellNamed(cmd.flags) && ValidItems(cmd, env.allow, items) && NoChild(cmd, items)
    requires f.isArray && Current(st, f.target).Array? && f.id !in st.touched
    requires forall g <- cmd.flags :: g == f || (g.target != f.target && g.id != f.id)
    ensures var accepted := Successes(Attempts(f, Events(env, items, |path|), st, []));
      ArrayView(f, Parse(env, root, path + WriteAll(items), 0, false, st, []).store) ==
      if accepted == [] then ArrayView(f, st) else Accumulator(true, accepted)
  {
    CommandLineRoundTrip(env, root, path, cmd, items, st);
    MeaningIsEvents(env, cmd, items, |path|, st, []);
    forall e <- Events(env, items, |path|)
      ensures e.Text? || e.flag == f || (e.flag.target != f.target && e.flag.id != f.id)
    {
      if !e.Text? {
        EventsUseFlags(env, cmd, items, |path|, e);
      }
    }
    ArrayHoldsItsUses(f, Events(env, items, |path|), st, []);
  }
}
