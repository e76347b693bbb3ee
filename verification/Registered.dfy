/** From the registry to the parser: the command tree that a walk along the pointers finds,
and what registration guarantees about it. */
module Registered {
  import opened Wrappers
  import opened Flags
  import opened Grammar
  import opened Links
  import opened Registry
  import opened RoundTrip
  import opened CommandLine
  import Limits
  import Teardown

  // ----- walking the lists -------------------------------------------------------------------------

  ghost predicate FlagsAscend(fs: seq<FlagRecord>) {
    forall x :: 0 < x < |fs| ==> fs[x].next == 0 || x < fs[x].next < |fs|
  }

  /** Every pointer is null or leads to a younger record, so that every walk ends. */
  ghost predicate Walkable(cs: seq<CommandRecord>, fs: seq<FlagRecord>) {
    && FlagsAscend(fs) && |cs| > ROOT
    && (forall x :: ROOT <= x < |cs| ==> cs[x].flag == 0 || cs[x].flag < |fs|)
    && (forall x :: ROOT <= x < |cs| ==> cs[x].next == 0 || x < cs[x].next < |cs|)
    && (forall x :: ROOT <= x < |cs| ==> cs[x].child == 0 || x < cs[x].child < |cs|)
  }

  ghost predicate Linked(cs: seq<CommandRecord>, fs: seq<FlagRecord>, owner: seq<nat>): (ok: bool)
    ensures ok ==> Walkable(cs, fs)
  {
    assert CommandsLinked(cs) && FlagsLinked(cs, fs, owner) ==> Walkable(cs, fs) by {
      if CommandsLinked(cs) && FlagsLinked(cs, fs, owner) {
        LinkedIsWalkable(cs, fs, owner);
      }
    }
    CommandsLinked(cs) && FlagsLinked(cs, fs, owner)
  }

  lemma LinkedIsWalkable(cs: seq<CommandRecord>, fs: seq<FlagRecord>, owner: seq<nat>)
    requires CommandsLinked(cs) && FlagsLinked(cs, fs, owner)
    ensures Walkable(cs, fs)
  {
    forall x | ROOT <= x < |cs|
      ensures cs[x].flag == 0 || cs[x].flag < |fs|
      ensures cs[x].next == 0 || x < cs[x].next < |cs|
      ensures cs[x].child == 0 || x < cs[x].child < |cs|
    {
      assert NextOk(cs, x) && ChildOk(cs, x) && FirstFlagOk(cs, fs, owner, x);
    }
    forall x | 0 < x < |fs| ensures fs[x].next == 0 || x < fs[x].next < |fs| {
      assert FlagNextOk(fs, owner, x);
    }
  }

  function FlagAt(fs: seq<FlagRecord>, x: nat): Flag
    requires x < |fs|
  {
    var r := fs[x];
    Flag(x, r.name, r.short, r.kind, r.isArray, r.target, r.accepts)
  }

  /** The flags that the walk along `_next` meets from address `x` on. */
  function FlagList(fs: seq<FlagRecord>, x: nat): seq<Flag>
    requires FlagsAscend(fs) && (x == 0 || x < |fs|)
    decreases if x == 0 then 0 else |fs| - x
  {
    if x == 0 then [] else [FlagAt(fs, x)] + FlagList(fs, fs[x].next)
  }

  /** The command at address `c`, with all that its pointers lead to. */
  function View(cs: seq<CommandRecord>, fs: seq<FlagRecord>, c: nat): Command
    requires Walkable(cs, fs) && ROOT <= c < |cs|
    decreases |cs| - c, 0
  {
    Command(cs[c].name, FlagList(fs, cs[c].flag), ChildList(cs, fs, cs[c].child), cs[c].handler)
  }

  function ChildList(cs: seq<CommandRecord>, fs: seq<FlagRecord>, x: nat): seq<Command>
    requires Walkable(cs, fs) && (x == 0 || ROOT <= x < |cs|)
    decreases if x == 0 then 0 else |cs| - x, 1
  {
    if x == 0 then [] else [View(cs, fs, x)] + ChildList(cs, fs, cs[x].next)
  }

  // ----- the walks meet what was registered, in order ------------------------------------------------

  /** The flags of `c` among the first `n` addresses, in registration order. */
  ghost function FlagsUpTo(fs: seq<FlagRecord>, owner: seq<nat>, c: nat, n: nat): seq<Flag>
    requires n <= |fs| == |owner|
  {
    if n <= 1 then []
    else FlagsUpTo(fs, owner, c, n - 1) + if owner[n - 1] == c then [FlagAt(fs, n - 1)] else []
  }

  lemma {:induction false} FlagsSkip(fs: seq<FlagRecord>, owner: seq<nat>, c: nat, m: nat, n: nat)
    requires 1 <= m <= n <= |fs| == |owner| && forall y :: m <= y < n ==> owner[y] != c
    ensures FlagsUpTo(fs, owner, c, n) == FlagsUpTo(fs, owner, c, m)
  {
    if m < n {
      FlagsSkip(fs, owner, c, m, n - 1);
    }
  }

  lemma {:induction false} FlagListIsRest(cs: seq<CommandRecord>, fs: seq<FlagRecord>, owner: seq<nat>, x: nat)
    requires FlagsLinked(cs, fs, owner) && FlagsAscend(fs) && 0 < x < |fs|
    ensures FlagsUpTo(fs, owner, owner[x], |fs|) == FlagsUpTo(fs, owner, owner[x], x) + FlagList(fs, x)
    decreases |fs| - x
  {
    var c, n := owner[x], fs[x].next;
    assert FlagNextOk(fs, owner, x);
    assert FlagsUpTo(fs, owner, c, x + 1) == FlagsUpTo(fs, owner, c, x) + [FlagAt(fs, x)];
    FlagsSkip(fs, owner, c, x + 1, if n == 0 then |fs| else n);
    if n != 0 {
      FlagListIsRest(cs, fs, owner, n);
    }
  }

  /** The walk over the flags of a command meets exactly its flags, oldest first. */
  lemma FlagListIsRegistered(cs: seq<CommandRecord>, fs: seq<FlagRecord>, owner: seq<nat>, c: nat)
    requires Linked(cs, fs, owner) && ROOT <= c < |cs|
    ensures FlagList(fs, cs[c].flag) == FlagsUpTo(fs, owner, c, |fs|)
  {
    var n := cs[c].flag;
    assert FirstFlagOk(cs, fs, owner, c);
    FlagsSkip(fs, owner, c, 1, if n == 0 then |fs| else n);
    if n != 0 {
      FlagListIsRest(cs, fs, owner, n);
    }
  }

  /** The subcommands of `p` among the first `n` addresses, in registration order. */
  ghost function ChildrenUpTo(cs: seq<CommandRecord>, fs: seq<FlagRecord>, p: nat, n: nat): seq<Command>
    requires Walkable(cs, fs) && n <= |cs|
  {
    if n <= ROOT + 1 then []
    else ChildrenUpTo(cs, fs, p, n - 1) + if cs[n - 1].parent == p then [View(cs, fs, n - 1)] else []
  }

  lemma {:induction false} ChildrenSkip(cs: seq<CommandRecord>, fs: seq<FlagRecord>, p: nat, m: nat, n: nat)
    requires Walkable(cs, fs) && ROOT < m <= n <= |cs| && forall y :: m <= y < n ==> cs[y].parent != p
    ensures ChildrenUpTo(cs, fs, p, n) == ChildrenUpTo(cs, fs, p, m)
  {
    if m < n {
      ChildrenSkip(cs, fs, p, m, n - 1);
    }
  }

  lemma {:induction false} ChildListIsRest(cs: seq<CommandRecord>, fs: seq<FlagRecord>, x: nat)
    requires Walkable(cs, fs) && CommandsLinked(cs) && ROOT < x < |cs|
    ensures ChildrenUpTo(cs, fs, cs[x].parent, |cs|) == ChildrenUpTo(cs, fs, cs[x].parent, x) + ChildList(cs, fs, x)
    decreases |cs| - x
  {
    var p, n := cs[x].parent, cs[x].next;
    assert NextOk(cs, x);
    assert ChildrenUpTo(cs, fs, p, x + 1) == ChildrenUpTo(cs, fs, p, x) + [View(cs, fs, x)];
    ChildrenSkip(cs, fs, p, x + 1, if n == 0 then |cs| else n);
    if n != 0 {
      ChildListIsRest(cs, fs, n);
    }
  }

  /** The walk over the subcommands of a command meets exactly its subcommands, oldest first. */
  lemma ChildListIsRegistered(cs: seq<CommandRecord>, fs: seq<FlagRecord>, p: nat)
    requires Walkable(cs, fs) && CommandsLinked(cs) && ROOT <= p < |cs|
    ensures ChildList(cs, fs, cs[p].child) == ChildrenUpTo(cs, fs, p, |cs|)
  {
    var n := cs[p].child;
    assert ChildOk(cs, p);
    forall y | ROOT < y < if n == 0 then |cs| else n ensures cs[y].parent != p {
      assert cs[y].parent < y;
    }
    NoChildrenUpTo(cs, fs, p, if n == 0 then |cs| else n);
    if n != 0 {
      ChildListIsRest(cs, fs, n);
      assert [] + ChildList(cs, fs, n) == ChildList(cs, fs, n);
    }
  }

  lemma {:induction false} NoChildrenUpTo(cs: seq<CommandRecord>, fs: seq<FlagRecord>, p: nat, n: nat)
    requires Walkable(cs, fs) && n <= |cs| && forall y :: ROOT < y < n ==> cs[y].parent != p
    ensures ChildrenUpTo(cs, fs, p, n) == []
  {
    if n > ROOT + 1 {
      NoChildrenUpTo(cs, fs, p, n - 1);
    }
  }

  // ----- what add_flag and add_command do to the tree ------------------------------------------------

  lemma {:induction false} FlagsUpToGrows(fs: seq<FlagRecord>, fs1: seq<FlagRecord>, owner: seq<nat>, owner1: seq<nat>,
                                          c: nat, n: nat)
    requires n <= |fs| == |owner| <= |fs1| == |owner1| && owner1[..|fs|] == owner
    requires forall x :: 0 <= x < |fs| ==> fs1[x] == fs[x].(next := fs1[x].next)
    ensures FlagsUpTo(fs1, owner1, c, n) == FlagsUpTo(fs, owner, c, n)
  {
    if n > 1 {
      FlagsUpToGrows(fs, fs1, owner, owner1, c, n - 1);
      assert owner1[..|fs|][n - 1] == owner1[n - 1];
    }
  }

  /** After add_flag, the new flag comes last on the list of its command, and every other list
  is as before. */
  lemma FlagOrder(cs: seq<CommandRecord>, cs1: seq<CommandRecord>, fs: seq<FlagRecord>, fs1: seq<FlagRecord>,
                  owner: seq<nat>, c: nat, d: nat)
    requires Linked(cs, fs, owner) && Linked(cs1, fs1, owner + [c]) && |cs1| == |cs| && |fs1| == |fs| + 1
    requires forall x :: 0 <= x < |fs| ==> fs1[x] == fs[x].(next := fs1[x].next)
    requires ROOT <= d < |cs|
    ensures View(cs1, fs1, d).flags == View(cs, fs, d).flags + if d == c then [FlagAt(fs1, |fs|)] else []
  {
    FlagListIsRegistered(cs, fs, owner, d);
    FlagListIsRegistered(cs1, fs1, owner + [c], d);
    FlagsUpToGrows(fs, fs1, owner, owner + [c], d, |fs|);
  }

  /** The records `cs1` are `cs` with one more command, as add_command leaves them. */
  ghost predicate CommandAdded(cs: seq<CommandRecord>, cs1: seq<CommandRecord>, parent: nat, name: string,
                               handler: bool)
  {
    && |cs1| == |cs| + 1 && ROOT <= parent < |cs| && cs1[|cs|] == CommandRecord(parent, 0, 0, 0, name, handler)
    && forall x :: 0 <= x < |cs| ==> cs1[x] == cs[x].(next := cs1[x].next, child := cs1[x].child)
  }

  /** What is not above the new command is as before. */
  lemma {:induction false} ViewBelow(cs: seq<CommandRecord>, cs1: seq<CommandRecord>, fs: seq<FlagRecord>,
                                     parent: nat, name: string, handler: bool, x: nat)
    requires Walkable(cs, fs) && CommandsLinked(cs) && Walkable(cs1, fs) && CommandsLinked(cs1)
    requires CommandAdded(cs, cs1, parent, name, handler) && parent < x < |cs|
    ensures View(cs1, fs, x) == View(cs, fs, x)
    decreases |cs| - x, |cs| + 1
  {
    assert ChildList(cs1, fs, cs1[x].child) == ChildList(cs, fs, cs[x].child) by {
      ChildListIsRegistered(cs, fs, x);
      ChildListIsRegistered(cs1, fs, x);
      ChildrenBelow(cs, cs1, fs, parent, name, handler, x, |cs|);
    }
  }

  lemma {:induction false} ChildrenBelow(cs: seq<CommandRecord>, cs1: seq<CommandRecord>, fs: seq<FlagRecord>,
                                         parent: nat, name: string, handler: bool, p: nat, n: nat)
    requires Walkable(cs, fs) && CommandsLinked(cs) && Walkable(cs1, fs) && CommandsLinked(cs1)
    requires CommandAdded(cs, cs1, parent, name, handler) && parent <= p < |cs| && n <= |cs|
    ensures ChildrenUpTo(cs1, fs, p, n) == ChildrenUpTo(cs, fs, p, n)
    decreases |cs| - p, n
  {
    if n > ROOT + 1 {
      ChildrenBelow(cs, cs1, fs, parent, name, handler, p, n - 1);
      if cs[n - 1].parent == p {
        ViewBelow(cs, cs1, fs, parent, name, handler, n - 1);
      }
    }
  }

  function Names(children: seq<Command>): seq<string> {
    seq(|children|, k requires 0 <= k < |children| => children[k].name)
  }

  lemma {:induction false} NamesUpTo(cs: seq<CommandRecord>, cs1: seq<CommandRecord>, fs: seq<FlagRecord>,
                                     parent: nat, name: string, handler: bool, p: nat, n: nat)
    requires Walkable(cs, fs) && Walkable(cs1, fs) && CommandAdded(cs, cs1, parent, name, handler) && n <= |cs|
    ensures Names(ChildrenUpTo(cs1, fs, p, n)) == Names(ChildrenUpTo(cs, fs, p, n))
  {
    if n > ROOT + 1 {
      var a, b := ChildrenUpTo(cs, fs, p, n - 1), ChildrenUpTo(cs1, fs, p, n - 1);
      NamesUpTo(cs, cs1, fs, parent, name, handler, p, n - 1);
      if cs[n - 1].parent == p {
        NamesSnoc(a, View(cs, fs, n - 1));
        NamesSnoc(b, View(cs1, fs, n - 1));
      } else {
        assert a + [] == a && b + [] == b;
      }
    }
  }

  lemma NamesSnoc(children: seq<Command>, c: Command)
    ensures Names(children + [c]) == Names(children) + [c.name]
  {}

  /** After add_command, the new command comes last among its siblings, with nothing below it;
  every other command has the same flags, and subcommands of the same names in the same order. */
  lemma CommandOrder(cs: seq<CommandRecord>, cs1: seq<CommandRecord>, fs: seq<FlagRecord>, owner: seq<nat>,
                     parent: nat, name: string, handler: bool, p: nat)
    requires Linked(cs, fs, owner) && Linked(cs1, fs, owner) && CommandAdded(cs, cs1, parent, name, handler)
    requires ROOT <= p < |cs|
    ensures View(cs1, fs, p).flags == View(cs, fs, p).flags
    ensures p == parent ==> View(cs1, fs, p).children == View(cs, fs, p).children + [Command(name, [], [], handler)]
    ensures p != parent ==> Names(View(cs1, fs, p).children) == Names(View(cs, fs, p).children)
  {
    ChildListIsRegistered(cs, fs, p);
    ChildListIsRegistered(cs1, fs, p);
    if p == parent {
      ChildrenBelow(cs, cs1, fs, parent, name, handler, p, |cs|);
      assert View(cs1, fs, |cs|) == Command(name, [], [], handler);
    } else {
      NamesUpTo(cs, cs1, fs, parent, name, handler, p, |cs|);
    }
  }

  // ----- flags ---------------------------------------------------------------------------------------

  lemma {:induction false} FlagsAreRegistered(fs: seq<FlagRecord>, owner: seq<nat>, c: nat, n: nat, f: Flag)
    requires n <= |fs| == |owner|
    ensures f in FlagsUpTo(fs, owner, c, n) <==> 0 < f.id < n && owner[f.id] == c && f == FlagAt(fs, f.id)
  {
    if n > 1 {
      FlagsAreRegistered(fs, owner, c, n - 1, f);
    }
  }

  /** What every registry guarantees; Registry.Valid says the same of its fields. */
  ghost predicate Sound(cs: seq<CommandRecord>, fs: seq<FlagRecord>, owner: seq<nat>) {
    Linked(cs, fs, owner) && CommandNames(cs) && FlagNames(fs, owner)
  }

  /** The parser can tell the flags of a registered command apart, but for names that continue
  one another with an equals sign. */
  lemma RegisteredIsDistinct(cs: seq<CommandRecord>, fs: seq<FlagRecord>, owner: seq<nat>, c: nat)
    requires Sound(cs, fs, owner) && ROOT <= c < |cs|
    ensures Distinct(View(cs, fs, c).flags)
  {
    var flags := View(cs, fs, c).flags;
    forall f <- flags ensures 0 < f.id < |fs| && owner[f.id] == c && f == FlagAt(fs, f.id) {
      FlagListIsRegistered(cs, fs, owner, c);
      FlagsAreRegistered(fs, owner, c, |fs|, f);
    }
  }

  /** Every long occurrence of every flag of a registered command is read back if and only if
  no name of the command continues another one, or help, with an equals sign. */
  lemma RegisteredReadsBackIff(cs: seq<CommandRecord>, fs: seq<FlagRecord>, owner: seq<nat>, c: nat, allow: bool)
    requires Sound(cs, fs, owner) && ROOT <= c < |cs|
    ensures var flags := View(cs, fs, c).flags; Limits.LongsReadBack(flags, allow) <==> NoneExtends(flags)
  {
    RegisteredIsDistinct(cs, fs, owner, c);
    Limits.LongsReadBackIff(View(cs, fs, c).flags, allow);
  }

  // ----- subcommands -------------------------------------------------------------------------------------

  /** A subcommand's name leads to that subcommand, whatever its siblings are. */
  lemma ChildIsFound(cs: seq<CommandRecord>, fs: seq<FlagRecord>, owner: seq<nat>, x: nat)
    requires Sound(cs, fs, owner) && ROOT < x < |cs|
    ensures FindChild(View(cs, fs, cs[x].parent).children, cs[x].name) == Some(View(cs, fs, x))
    ensures !FlagForm(cs[x].name)
  {
    ChildListIsRegistered(cs, fs, cs[x].parent);
    ChildIsFoundUpTo(cs, fs, x, |cs|);
  }

  lemma {:induction false} ChildIsFoundUpTo(cs: seq<CommandRecord>, fs: seq<FlagRecord>, x: nat, n: nat)
    requires Walkable(cs, fs) && CommandNames(cs) && ROOT < x < |cs| && n <= |cs|
    ensures FindChild(ChildrenUpTo(cs, fs, cs[x].parent, n), cs[x].name) ==
            if x < n then Some(View(cs, fs, x)) else None
  {
    if n > ROOT + 1 {
      ChildIsFoundUpTo(cs, fs, x, n - 1);
      FindChildSnoc(ChildrenUpTo(cs, fs, cs[x].parent, n - 1), View(cs, fs, n - 1), cs[x].name);
    }
  }

  lemma {:induction false} FindChildSnoc(children: seq<Command>, c: Command, name: string)
    ensures FindChild(children + [c], name) ==
            if FindChild(children, name).Some? then FindChild(children, name)
            else if c.name == name then Some(c) else None
    ensures children + [] == children
  {
    if children == [] {
      assert children + [c] == [c];
    } else {
      assert (children + [c])[1..] == children[1..] + [c];
      FindChildSnoc(children[1..], c, name);
    }
  }

  /** The names on the way from `c` down to `x`. */
  function PathTo(cs: seq<CommandRecord>, x: nat): seq<string>
    requires CommandsLinked(cs) && ROOT <= x < |cs|
    decreases x
  {
    if x == ROOT then [] else PathTo(cs, cs[x].parent) + [cs[x].name]
  }

  lemma {:induction false} DescendSnoc(cmd: Command, path: seq<string>, name: string)
    requires Descend(cmd, path).Some? && !FlagForm(name)
    ensures Descend(cmd, path + [name]) == FindChild(Descend(cmd, path).value.children, name)
    decreases |path|
  {
    if path == [] {
      assert [name][1..] == [] && path + [name] == [name];
    } else {
      assert (path + [name])[1..] == path[1..] + [name];
      DescendSnoc(FindChild(cmd.children, path[0]).value, path[1..], name);
    }
  }

  lemma {:induction false} EveryCommandIsReached(cs: seq<CommandRecord>, fs: seq<FlagRecord>, owner: seq<nat>, x: nat)
    requires Sound(cs, fs, owner) && ROOT <= x < |cs|
    ensures Descend(View(cs, fs, ROOT), PathTo(cs, x)) == Some(View(cs, fs, x))
    decreases x
  {
    if x > ROOT {
      var p := cs[x].parent;
      EveryCommandIsReached(cs, fs, owner, p);
      ChildIsFound(cs, fs, owner, x);
      DescendSnoc(View(cs, fs, ROOT), PathTo(cs, p), cs[x].name);
    }
  }

  /** The round trip for every registry that can be built: any of its commands, addressed by
  its path, with any valid items in any spelling. */
  lemma RegisteredRoundTrip(cs: seq<CommandRecord>, fs: seq<FlagRecord>, owner: seq<nat>, x: nat, env: Env,
                            items: seq<Item>, st: Store)
    requires Sound(cs, fs, owner) && ROOT <= x < |cs| && NoneExtends(View(cs, fs, x).flags)
    requires ValidItems(View(cs, fs, x), env.allow, items) && NoChild(View(cs, fs, x), items)
    ensures Parse(env, View(cs, fs, ROOT), PathTo(cs, x) + WriteAll(items), 0, false, st, []) ==
            Meaning(env, View(cs, fs, x), items, |PathTo(cs, x)|, st, [])
  {
    EveryCommandIsReached(cs, fs, owner, x);
    RegisteredIsDistinct(cs, fs, owner, x);
    CommandLineRoundTrip(env, View(cs, fs, ROOT), PathTo(cs, x), View(cs, fs, x), items, st);
  }

  /** Every registry that can be built can be destroyed: all its commands and flags are freed
  once, and of the arrays exactly the grown ones that its flags point to. */
  method DestroyRegistry(r: Registry, arrays: map<nat, Teardown.ArrayVariable>,
                         ghost buffers: set<nat>) returns (h: Teardown.Heap)
    requires r.Valid() && Teardown.ArraysOk(arrays, buffers)
    requires forall f :: 0 < f < |r.flags| && r.flags[f].isArray ==> r.flags[f].target in arrays
    ensures fresh(h) && h.liveCommands == {} && h.liveFlags == {} && h.arrays.Keys == arrays.Keys
    ensures forall t <- arrays ::
      h.arrays[t] == (if arrays[t].cap > 0 && Teardown.Flagged(r.flags, t) then Teardown.ArrayVariable(0, 0, 0)
                      else arrays[t])
    ensures h.buffers ==
            buffers - set t <- arrays | arrays[t].cap > 0 && Teardown.Flagged(r.flags, t) :: arrays[t].buffer
  {
    h := Teardown.DestroyRoot(r.commands, r.flags, r.owner, arrays, buffers);
  }
}
