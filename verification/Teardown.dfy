/** ppp_c_flags_command_destroy: which blocks it frees, and that it frees each of them once.

A block can be read or freed only while it is live, so that every read below is a proof of
no use after free, and every free a proof of no double free. */
module Teardown {
  import opened Links

  /** A user's array variable: its buffer, which is the flag library's to free if `cap > 0`. */
  datatype ArrayVariable = ArrayVariable(buffer: nat, cap: nat, len: nat)

  // ----- what destroy reaches -----------------------------------------------------------------------

  /** `x` is `c`, a younger sibling of `c`, or a descendant of one of these. */
  ghost predicate Below(cs: seq<CommandRecord>, c: nat, x: nat)
    requires CommandsLinked(cs) && ROOT <= c < |cs| && ROOT <= x < |cs|
  {
    x >= c && (cs[x].parent == cs[c].parent || (x > ROOT && Below(cs, c, cs[x].parent)))
  }

  ghost predicate BelowNext(cs: seq<CommandRecord>, c: nat, x: nat)
    requires CommandsLinked(cs) && ROOT <= c < |cs| && ROOT <= x < |cs|
  {
    assert NextOk(cs, c);
    cs[c].next != 0 && Below(cs, cs[c].next, x)
  }

  ghost predicate BelowChild(cs: seq<CommandRecord>, c: nat, x: nat)
    requires CommandsLinked(cs) && ROOT <= c < |cs| && ROOT <= x < |cs|
  {
    assert ChildOk(cs, c);
    cs[c].child != 0 && Below(cs, cs[c].child, x)
  }

  /** The three parts of destroy cover everything, and nothing twice. */
  lemma {:induction false} BelowSplits(cs: seq<CommandRecord>, c: nat, x: nat)
    requires CommandsLinked(cs) && ROOT <= c < |cs| && ROOT <= x < |cs|
    ensures Below(cs, c, x) <==> x == c || BelowNext(cs, c, x) || BelowChild(cs, c, x)
    ensures !(BelowNext(cs, c, x) && BelowChild(cs, c, x)) && !BelowNext(cs, c, c) && !BelowChild(cs, c, c)
    decreases x
  {
    assert NextOk(cs, c) && ChildOk(cs, c);
    if x > ROOT {
      BelowSplits(cs, c, cs[x].parent);
    }
  }

  lemma {:induction false} EverythingIsBelowRoot(cs: seq<CommandRecord>, x: nat)
    requires CommandsLinked(cs) && ROOT <= x < |cs|
    ensures Below(cs, ROOT, x)
    decreases x
  {
    if x > ROOT {
      EverythingIsBelowRoot(cs, cs[x].parent);
    }
  }

  ghost function CommandsBelow(cs: seq<CommandRecord>, c: nat): set<nat>
    requires CommandsLinked(cs) && ROOT <= c < |cs|
  {
    set x: nat | ROOT <= x < |cs| && Below(cs, c, x)
  }

  ghost function FlagsOf(owner: seq<nat>, owners: set<nat>): set<nat> {
    set f: nat | 0 < f < |owner| && owner[f] in owners
  }

  ghost function Addresses(low: nat, high: nat): (s: set<nat>)
    ensures forall x: nat :: x in s <==> low <= x < high
  {
    if low >= high then {} else Addresses(low, high - 1) + {high - 1}
  }

  // ----- array variables ----------------------------------------------------------------------------------

  /** The variables that array flags among `fs` point to. */
  ghost function Targets(flags: seq<FlagRecord>, fs: set<nat>): set<nat> {
    set f <- fs | f < |flags| && flags[f].isArray :: flags[f].target
  }

  ghost predicate ArraysOk(arrays: map<nat, ArrayVariable>, buffers: set<nat>) {
    && (forall t <- arrays :: arrays[t].cap > 0 ==> arrays[t].buffer in buffers)
    && (forall t, u :: t in arrays && u in arrays && t != u && arrays[t].cap > 0 && arrays[u].cap > 0 ==>
          arrays[t].buffer != arrays[u].buffer)
  }

  ghost function Sweep(arrays: map<nat, ArrayVariable>, targets: set<nat>): (swept: map<nat, ArrayVariable>)
    ensures swept.Keys == arrays.Keys
  {
    map t <- arrays :: if t in targets && arrays[t].cap > 0 then ArrayVariable(0, 0, 0) else arrays[t]
  }

  ghost function GrownBuffers(arrays: map<nat, ArrayVariable>, targets: set<nat>): set<nat> {
    set t <- arrays | t in targets && arrays[t].cap > 0 :: arrays[t].buffer
  }

  lemma SweepTwice(arrays: map<nat, ArrayVariable>, buffers: set<nat>, a: set<nat>, b: set<nat>)
    requires ArraysOk(arrays, buffers)
    ensures Sweep(Sweep(arrays, a), b) == Sweep(arrays, a + b)
    ensures GrownBuffers(arrays, a) + GrownBuffers(Sweep(arrays, a), b) == GrownBuffers(arrays, a + b)
    ensures ArraysOk(Sweep(arrays, a), buffers - GrownBuffers(arrays, a))
  {
    SweepKeepsOk(arrays, buffers, a);
    GrownTwice(arrays, a, b);
  }

  lemma SweepNothing(arrays: map<nat, ArrayVariable>)
    ensures Sweep(arrays, {}) == arrays && GrownBuffers(arrays, {}) == {}
  {}

  lemma GrownTwice(arrays: map<nat, ArrayVariable>, a: set<nat>, b: set<nat>)
    ensures GrownBuffers(arrays, a) + GrownBuffers(Sweep(arrays, a), b) == GrownBuffers(arrays, a + b)
  {
    var swept := Sweep(arrays, a);
    forall t | t in arrays && t in b && arrays[t].cap > 0
      ensures arrays[t].buffer in GrownBuffers(arrays, a) + GrownBuffers(swept, b)
    {
      if t !in a {
        assert swept[t] == arrays[t];
      }
    }
  }

  lemma SweepKeepsOk(arrays: map<nat, ArrayVariable>, buffers: set<nat>, a: set<nat>)
    requires ArraysOk(arrays, buffers)
    ensures ArraysOk(Sweep(arrays, a), buffers - GrownBuffers(arrays, a))
  {}

  // ----- destroy ---------------------------------------------------------------------------------------------

  class Heap {
    const commands: seq<CommandRecord>
    const flags: seq<FlagRecord>
    ghost const owner: seq<nat>
    ghost var liveCommands: set<nat>
    ghost var liveFlags: set<nat>
    ghost var buffers: set<nat>
    var arrays: map<nat, ArrayVariable>

    constructor (commands: seq<CommandRecord>, flags: seq<FlagRecord>, ghost owner: seq<nat>,
                 arrays: map<nat, ArrayVariable>, ghost buffers: set<nat>)
      ensures this.commands == commands && this.flags == flags && this.owner == owner
      ensures liveCommands == Addresses(ROOT, |commands|) && liveFlags == Addresses(1, |flags|)
      ensures this.arrays == arrays && this.buffers == buffers
    {
      this.commands, this.flags, this.owner := commands, flags, owner;
      this.liveCommands := Addresses(ROOT, |commands|);
      this.liveFlags := Addresses(1, |flags|);
      this.arrays, this.buffers := arrays, buffers;
    }

    ghost predicate Shape() {
      && CommandsLinked(commands) && FlagsLinked(commands, flags, owner)
    }

    ghost predicate Valid()
      reads this
    {
      && ArraysOk(arrays, buffers)
      && (forall f :: 0 < f < |flags| && flags[f].isArray ==> flags[f].target in arrays)
    }

    method LoadCommand(c: nat) returns (r: CommandRecord)
      requires c in liveCommands && c < |commands|
      ensures r == commands[c]
    {
      r := commands[c];
    }

    method LoadFlag(f: nat) returns (r: FlagRecord)
      requires f in liveFlags && f < |flags|
      ensures r == flags[f]
    {
      r := flags[f];
    }

    method FreeCommand(c: nat)
      requires c in liveCommands
      modifies `liveCommands
      ensures liveCommands == old(liveCommands) - {c}
    {
      liveCommands := liveCommands - {c};
    }

    method FreeFlag(f: nat)
      requires f in liveFlags
      modifies `liveFlags
      ensures liveFlags == old(liveFlags) - {f}
    {
      liveFlags := liveFlags - {f};
    }

    method FreeBuffer(b: nat)
      requires b in buffers
      modifies `buffers
      ensures buffers == old(buffers) - {b}
    {
      buffers := buffers - {b};
    }

    /** The array variable of one flag. */
    method ReleaseArray(t: nat)
      requires t in arrays && ArraysOk(arrays, buffers)
      modifies `arrays, `buffers
      ensures arrays == Sweep(old(arrays), {t}) && buffers == old(buffers) - GrownBuffers(old(arrays), {t})
    {
      if arrays[t].cap > 0 {
        FreeBuffer(arrays[t].buffer);
        arrays := arrays[t := ArrayVariable(0, 0, 0)];
      }
    }

    /** The array variable of one flag, if it is an array flag. */
    method ReleaseFlag(f: nat, r: FlagRecord)
      requires Valid() && 0 < f < |flags| && r == flags[f]
      modifies `arrays, `buffers
      ensures Valid()
      ensures arrays == Sweep(old(arrays), Targets(flags, {f}))
      ensures buffers == old(buffers) - GrownBuffers(old(arrays), Targets(flags, {f}))
    {
      hide Sweep, GrownBuffers, ArraysOk;
      SweepTwice(arrays, buffers, Targets(flags, {f}), {});
      if r.isArray {
        assert Targets(flags, {f}) == {r.target};
        ReleaseArray(r.target);
      } else {
        assert Targets(flags, {f}) == {};
        SweepNothing(arrays);
        assert buffers - {} == buffers;
      }
    }

    /** The flags of `c` still to go when the walk stands at `from`. */
    ghost function Rest(c: nat, from: nat): set<nat> {
      if from == 0 then {} else set f: nat | 0 < f < |owner| && owner[f] == c && f >= from
    }

    lemma NextFlag(c: nat, flag: nat)
      requires Shape() && 0 < flag < |flags| && owner[flag] == c
      ensures Rest(c, flag) == Rest(c, flags[flag].next) + {flag} && flag !in Rest(c, flags[flag].next)
      ensures flags[flag].next != 0 ==> flag < flags[flag].next < |flags| && owner[flags[flag].next] == c
    {
      assert FlagNextOk(flags, owner, flag);
    }

    lemma FirstFlag(c: nat)
      requires Shape() && ROOT <= c < |commands|
      ensures Rest(c, commands[c].flag) == FlagsOf(owner, {c})
    {
      assert FirstFlagOk(commands, flags, owner, c);
    }

    /** What the flags `done` leave of the array variables. */
    ghost predicate Released(arrays0: map<nat, ArrayVariable>, buffers0: set<nat>, done: set<nat>)
      reads this
    {
      var targets := Targets(flags, done);
      arrays == Sweep(arrays0, targets) && buffers == buffers0 - GrownBuffers(arrays0, targets)
    }

    lemma NothingReleased()
      ensures Released(arrays, buffers, {})
    {
      assert Targets(flags, {}) == {};
      SweepNothing(arrays);
    }

    /** Releases done one after the other add up. */
    lemma ReleasedAdds(arrays0: map<nat, ArrayVariable>, buffers0: set<nat>, a: set<nat>,
                       arrays1: map<nat, ArrayVariable>, buffers1: set<nat>, b: set<nat>)
      requires ArraysOk(arrays0, buffers0)
      requires var targets := Targets(flags, a);
        arrays1 == Sweep(arrays0, targets) && buffers1 == buffers0 - GrownBuffers(arrays0, targets)
      requires Released(arrays1, buffers1, b)
      ensures Released(arrays0, buffers0, a + b)
    {
      SweepTwice(arrays0, buffers0, Targets(flags, a), Targets(flags, b));
      assert Targets(flags, a + b) == Targets(flags, a) + Targets(flags, b);
    }

    /** One turn of the loop over the flags. */
    method DestroyFlag(flag: nat) returns (next: nat)
      requires Valid() && 0 < flag < |flags| && flag in liveFlags
      modifies `liveFlags, `arrays, `buffers
      ensures Valid() && next == flags[flag].next
      ensures liveFlags == old(liveFlags) - {flag} && Released(old(arrays), old(buffers), {flag})
    {
      var r := LoadFlag(flag);
      next := r.next;
      ReleaseFlag(flag, r);
      FreeFlag(flag);
    }

    method DestroyFlags(c: nat, head: nat)
      requires Shape() && Valid() && ROOT <= c < |commands| && head == commands[c].flag
      requires FlagsOf(owner, {c}) <= liveFlags
      modifies `liveFlags, `arrays, `buffers
      ensures Valid()
      ensures liveFlags == old(liveFlags) - FlagsOf(owner, {c})
      ensures Released(old(arrays), old(buffers), FlagsOf(owner, {c}))
    {
      hide Sweep, GrownBuffers, ArraysOk;
      var flag := head;
      ghost var done: set<nat> := {};
      FirstFlag(c);
      assert FirstFlagOk(commands, flags, owner, c);
      NothingReleased();
      while flag != 0
        invariant Valid() && (flag != 0 ==> 0 < flag < |flags| && owner[flag] == c)
        invariant done + Rest(c, flag) == FlagsOf(owner, {c}) && done !! Rest(c, flag)
        invariant liveFlags == old(liveFlags) - done
        invariant Released(old(arrays), old(buffers), done)
        decreases if flag == 0 then 0 else |flags| - flag
      {
        NextFlag(c, flag);
        ghost var arrays1, buffers1 := arrays, buffers;
        var next := DestroyFlag(flag);
        ReleasedAdds(old(arrays), old(buffers), done, arrays1, buffers1, {flag});
        done := done + {flag};
        flag := next;
      }
    }

    /** The blocks of the commands `gone`, of their flags and of their arrays have been freed,
    and no others. */
    ghost predicate Gone(gone: set<nat>, commands0: set<nat>, flags0: set<nat>, arrays0: map<nat, ArrayVariable>,
                         buffers0: set<nat>)
      reads this
    {
      && liveCommands == commands0 - gone && liveFlags == flags0 - FlagsOf(owner, gone)
      && Released(arrays0, buffers0, FlagsOf(owner, gone))
    }

    /** Two rounds of freeing, the first of which has led to the state 1. */
    lemma GoneAdds(a: set<nat>, b: set<nat>, commands0: set<nat>, flags0: set<nat>, arrays0: map<nat, ArrayVariable>,
                   buffers0: set<nat>,
                   commands1: set<nat>, flags1: set<nat>, arrays1: map<nat, ArrayVariable>, buffers1: set<nat>)
      requires ArraysOk(arrays0, buffers0)
      requires commands1 == commands0 - a && flags1 == flags0 - FlagsOf(owner, a)
      requires var targets := Targets(flags, FlagsOf(owner, a));
        arrays1 == Sweep(arrays0, targets) && buffers1 == buffers0 - GrownBuffers(arrays0, targets)
      requires Gone(b, commands1, flags1, arrays1, buffers1)
      ensures Gone(a + b, commands0, flags0, arrays0, buffers0)
    {
      ReleasedAdds(arrays0, buffers0, FlagsOf(owner, a), arrays1, buffers1, FlagsOf(owner, b));
      assert FlagsOf(owner, a + b) == FlagsOf(owner, a) + FlagsOf(owner, b);
    }

    ghost function BelowOrNone(c: nat): set<nat>
      requires Shape() && (c == 0 || ROOT <= c < |commands|)
    {
      if c == 0 then {} else CommandsBelow(commands, c)
    }

    /** The three parts of the work are disjoint and complete. */
    lemma Parts(c: nat)
      requires Shape() && ROOT <= c < |commands|
      ensures NextOk(commands, c) && ChildOk(commands, c)
      ensures var next, child := BelowOrNone(commands[c].next), BelowOrNone(commands[c].child);
        && CommandsBelow(commands, c) == next + child + {c}
        && next !! child && c !in next && c !in child
    {
      assert NextOk(commands, c) && ChildOk(commands, c);
      forall x: nat | ROOT <= x < |commands|
        ensures Below(commands, c, x) <==> x == c || BelowNext(commands, c, x) || BelowChild(commands, c, x)
        ensures !(BelowNext(commands, c, x) && BelowChild(commands, c, x))
      {
        BelowSplits(commands, c, x);
      }
      BelowSplits(commands, c, c);
    }

    method DestroyIfAny(c: nat)
      requires Shape() && Valid() && (c == 0 || ROOT <= c < |commands|)
      requires BelowOrNone(c) <= liveCommands && FlagsOf(owner, BelowOrNone(c)) <= liveFlags
      modifies this
      ensures Valid() && Gone(BelowOrNone(c), old(liveCommands), old(liveFlags), old(arrays), old(buffers))
      decreases if c == 0 then 0 else |commands| - c, 1
    {
      if c != 0 {
        Destroy(c);
      } else {
        SweepNothing(arrays);
      }
    }

    /** ppp_c_flags_command_destroy. */
    method Destroy(c: nat)
      requires Shape() && Valid() && ROOT <= c < |commands|
      requires CommandsBelow(commands, c) <= liveCommands && FlagsOf(owner, CommandsBelow(commands, c)) <= liveFlags
      modifies this
      ensures Valid() && Gone(CommandsBelow(commands, c), old(liveCommands), old(liveFlags), old(arrays), old(buffers))
      decreases |commands| - c, 0
    {
      Parts(c);
      assert CommandsBelow(commands, c) == BelowOrNone(commands[c].next) + BelowOrNone(commands[c].child) + {c};
      var r := LoadCommand(c);
      ghost var next, child := BelowOrNone(r.next), BelowOrNone(r.child);
      ghost var all := next + child + {c};
      DestroyIfAny(r.next);
      ghost var commands1, flags1, arrays1, buffers1 := liveCommands, liveFlags, arrays, buffers;
      r := LoadCommand(c);
      DestroyIfAny(r.child);
      GoneAdds(next, child, old(liveCommands), old(liveFlags), old(arrays), old(buffers),
               commands1, flags1, arrays1, buffers1);
      ghost var commands2, flags2, arrays2, buffers2 := liveCommands, liveFlags, arrays, buffers;
      r := LoadCommand(c);
      DestroyFlags(c, r.flag);
      FreeCommand(c);
      GoneAdds(next + child, {c}, old(liveCommands), old(liveFlags), old(arrays), old(buffers),
               commands2, flags2, arrays2, buffers2);
    }
  }

  lemma RootIsAll(commands: seq<CommandRecord>, flags: seq<FlagRecord>, owner: seq<nat>)
    requires CommandsLinked(commands) && FlagsLinked(commands, flags, owner)
    ensures |commands| > ROOT && CommandsBelow(commands, ROOT) == Addresses(ROOT, |commands|)
    ensures FlagsOf(owner, CommandsBelow(commands, ROOT)) == Addresses(1, |flags|)
  {
    forall x: nat | ROOT <= x < |commands| ensures Below(commands, ROOT, x) {
      EverythingIsBelowRoot(commands, x);
    }
  }

  /** Some array flag points to this variable. */
  ghost predicate Flagged(flags: seq<FlagRecord>, t: nat) {
    exists f :: 0 < f < |flags| && flags[f].isArray && flags[f].target == t
  }

  lemma AllTargets(flags: seq<FlagRecord>, t: nat)
    ensures t in Targets(flags, Addresses(1, |flags|)) <==> Flagged(flags, t)
  {
    if Flagged(flags, t) {
      var f :| 0 < f < |flags| && flags[f].isArray && flags[f].target == t;
      assert f in Addresses(1, |flags|);
    }
  }

  /** Destroying the root of any registry frees every command, every flag and every grown
  array exactly once, also when flags share an array; no array flag keeps a capacity, and
  buffers with capacity 0 are never touched. */
  method DestroyRoot(commands: seq<CommandRecord>, flags: seq<FlagRecord>, ghost owner: seq<nat>,
                     arrays: map<nat, ArrayVariable>, ghost buffers: set<nat>) returns (h: Heap)
    requires CommandsLinked(commands) && FlagsLinked(commands, flags, owner) && ArraysOk(arrays, buffers)
    requires forall f :: 0 < f < |flags| && flags[f].isArray ==> flags[f].target in arrays
    ensures fresh(h) && h.liveCommands == {} && h.liveFlags == {}
    ensures h.arrays.Keys == arrays.Keys
    ensures forall t <- arrays ::
      h.arrays[t] == (if arrays[t].cap > 0 && Flagged(flags, t) then ArrayVariable(0, 0, 0) else arrays[t])
    ensures h.buffers == buffers - set t <- arrays | arrays[t].cap > 0 && Flagged(flags, t) :: arrays[t].buffer
  {
    hide Sweep, GrownBuffers, ArraysOk, CommandsLinked, FlagsLinked, CommandsBelow, FlagsOf, Flagged, Targets;
    h := new Heap(commands, flags, owner, arrays, buffers);
    RootIsAll(commands, flags, owner);
    h.Destroy(ROOT);
    AfterSweep(arrays, flags);
    assert h.liveCommands == {} && h.liveFlags == {};
  }

  lemma AfterSweep(arrays: map<nat, ArrayVariable>, flags: seq<FlagRecord>)
    ensures var targets := Targets(flags, Addresses(1, |flags|));
      && Sweep(arrays, targets).Keys == arrays.Keys
      && (forall t <- arrays :: Sweep(arrays, targets)[t] ==
            (if arrays[t].cap > 0 && Flagged(flags, t) then ArrayVariable(0, 0, 0) else arrays[t]))
      && GrownBuffers(arrays, targets) == set t <- arrays | arrays[t].cap > 0 && Flagged(flags, t) :: arrays[t].buffer
  {
    forall t | t in arrays
      ensures t in Targets(flags, Addresses(1, |flags|)) <==> Flagged(flags, t)
    {
      AllTargets(flags, t);
    }
  }
}
