/** The registry's memory: records at numbered addresses, 0 being the null pointer, linked
by `_next`, `_child` and `_flag`. Blocks are never moved, and a new block gets the next
number, so registration order is the order of addresses. */
module Links {
  import opened Flags

  datatype CommandRecord = CommandRecord(parent: nat, next: nat, child: nat, flag: nat, name: string, handler: bool)

  datatype FlagRecord = FlagRecord(next: nat, name: string, short: char, kind: Kind, isArray: bool, target: nat,
                                   accepts: (Val, Atom) -> bool)

  const ROOT: nat := 1

  // ----- commands -----------------------------------------------------------------------------------

  /** `_next` leads to the next younger sibling. */
  ghost predicate NextOk(cs: seq<CommandRecord>, x: nat)
    requires x < |cs|
  {
    var n := cs[x].next;
    && (n != 0 ==> x < n < |cs| && cs[n].parent == cs[x].parent)
    && forall y :: x < y < |cs| && (n == 0 || y < n) ==> cs[y].parent != cs[x].parent
  }

  /** `_child` leads to the eldest subcommand. */
  ghost predicate ChildOk(cs: seq<CommandRecord>, p: nat)
    requires p < |cs|
  {
    var n := cs[p].child;
    && (n != 0 ==> p < n < |cs| && cs[n].parent == p)
    && forall y :: p < y < |cs| && (n == 0 || y < n) ==> cs[y].parent != p
  }

  ghost predicate CommandsLinked(cs: seq<CommandRecord>) {
    && |cs| > ROOT && cs[ROOT].parent == 0
    && (forall x :: ROOT < x < |cs| ==> ROOT <= cs[x].parent < x)
    && (forall x :: ROOT <= x < |cs| ==> NextOk(cs, x))
    && (forall x :: ROOT <= x < |cs| ==> ChildOk(cs, x))
  }

  /** A new record with nothing linked to it yet, and the pointer that is to lead to it. */
  function Link(cs: seq<CommandRecord>, parent: nat, back: nat, name: string, handler: bool): (r: seq<CommandRecord>)
    requires parent < |cs| && back < |cs|
    ensures |r| == |cs| + 1
  {
    var linked := if back != 0 then cs[back := cs[back].(next := |cs|)] else cs[parent := cs[parent].(child := |cs|)];
    linked + [CommandRecord(parent, 0, 0, 0, name, handler)]
  }

  /** The youngest subcommand of `parent`, or 0 when there is none. */
  ghost predicate IsLast(cs: seq<CommandRecord>, parent: nat, back: nat)
    requires parent < |cs|
  {
    if back == 0 then cs[parent].child == 0
    else ROOT < back < |cs| && cs[back].parent == parent && cs[back].next == 0
  }

  lemma LinkKeepsCommandsLinked(cs: seq<CommandRecord>, parent: nat, back: nat, name: string, handler: bool)
    requires CommandsLinked(cs) && ROOT <= parent < |cs| && IsLast(cs, parent, back)
    ensures CommandsLinked(Link(cs, parent, back, name, handler))
  {
    var r := Link(cs, parent, back, name, handler);
    forall x | ROOT <= x < |r| ensures NextOk(r, x) {
      LinkKeepsNext(cs, parent, back, name, handler, x);
    }
    forall x | ROOT <= x < |r| ensures ChildOk(r, x) {
      LinkKeepsChild(cs, parent, back, name, handler, x);
    }
  }

  lemma LinkKeepsNext(cs: seq<CommandRecord>, parent: nat, back: nat, name: string, handler: bool, x: nat)
    requires CommandsLinked(cs) && ROOT <= parent < |cs| && IsLast(cs, parent, back) && ROOT <= x <= |cs|
    ensures NextOk(Link(cs, parent, back, name, handler), x)
  {
    var r := Link(cs, parent, back, name, handler);
    assert forall y :: 0 <= y < |cs| ==> r[y].parent == cs[y].parent;
    if x < |cs| {
      assert NextOk(cs, x);
      if cs[x].parent == parent && cs[x].next == 0 {
        assert ChildOk(cs, parent);
        if back != 0 {
          assert NextOk(cs, back);
        }
      }
    }
  }

  lemma LinkKeepsChild(cs: seq<CommandRecord>, parent: nat, back: nat, name: string, handler: bool, x: nat)
    requires CommandsLinked(cs) && ROOT <= parent < |cs| && IsLast(cs, parent, back) && ROOT <= x <= |cs|
    ensures ChildOk(Link(cs, parent, back, name, handler), x)
  {
    var r := Link(cs, parent, back, name, handler);
    assert forall y :: 0 <= y < |cs| ==> r[y].parent == cs[y].parent;
    if x < |cs| {
      assert ChildOk(cs, x);
    }
  }

  // ----- flags, whose owner is not stored in the record ---------------------------------------------

  ghost predicate FlagNextOk(fs: seq<FlagRecord>, owner: seq<nat>, x: nat)
    requires x < |fs| == |owner|
  {
    var n := fs[x].next;
    && (n != 0 ==> x < n < |fs| && owner[n] == owner[x])
    && forall y :: x < y < |fs| && (n == 0 || y < n) ==> owner[y] != owner[x]
  }

  ghost predicate FirstFlagOk(cs: seq<CommandRecord>, fs: seq<FlagRecord>, owner: seq<nat>, c: nat)
    requires c < |cs| && |fs| == |owner|
  {
    var n := cs[c].flag;
    && (n != 0 ==> 0 < n < |fs| && owner[n] == c)
    && forall y :: 0 < y < |fs| && (n == 0 || y < n) ==> owner[y] != c
  }

  ghost predicate FlagsLinked(cs: seq<CommandRecord>, fs: seq<FlagRecord>, owner: seq<nat>) {
    && |fs| == |owner| > 0
    && (forall x :: 0 < x < |fs| ==> ROOT <= owner[x] < |cs|)
    && (forall x :: 0 < x < |fs| ==> FlagNextOk(fs, owner, x))
    && (forall c :: ROOT <= c < |cs| ==> FirstFlagOk(cs, fs, owner, c))
  }

  ghost predicate IsLastFlag(cs: seq<CommandRecord>, fs: seq<FlagRecord>, owner: seq<nat>, c: nat, back: nat)
    requires c < |cs| && |fs| == |owner|
  {
    if back == 0 then cs[c].flag == 0
    else back < |fs| && owner[back] == c && fs[back].next == 0
  }

  lemma LinkFlagKeepsFlagsLinked(cs: seq<CommandRecord>, fs: seq<FlagRecord>, owner: seq<nat>, c: nat, back: nat,
                                 f: FlagRecord, cs1: seq<CommandRecord>, fs1: seq<FlagRecord>)
    requires FlagsLinked(cs, fs, owner) && ROOT <= c < |cs| && IsLastFlag(cs, fs, owner, c, back) && f.next == 0
    requires cs1 == if back == 0 then cs[c := cs[c].(flag := |fs|)] else cs
    requires fs1 == (if back == 0 then fs else fs[back := fs[back].(next := |fs|)]) + [f]
    ensures FlagsLinked(cs1, fs1, owner + [c])
  {
    var owner1 := owner + [c];
    assert forall y :: 0 <= y < |fs| ==> owner1[y] == owner[y];
    forall x | 0 < x < |fs1| ensures FlagNextOk(fs1, owner1, x) {
      if x < |fs| {
        assert FlagNextOk(fs, owner, x);
        if owner[x] == c && fs[x].next == 0 {
          assert FirstFlagOk(cs, fs, owner, c);
          if back != 0 {
            assert FlagNextOk(fs, owner, back);
          }
        }
      }
    }
    forall d | ROOT <= d < |cs1| ensures FirstFlagOk(cs1, fs1, owner1, d) {
      assert FirstFlagOk(cs, fs, owner, d);
    }
  }

  lemma LinkKeepsFlagsLinked(cs: seq<CommandRecord>, fs: seq<FlagRecord>, owner: seq<nat>, cs1: seq<CommandRecord>)
    requires FlagsLinked(cs, fs, owner) && |cs1| == |cs| + 1 && cs1[|cs|].flag == 0
    requires forall c :: 0 <= c < |cs| ==> cs1[c].flag == cs[c].flag
    ensures FlagsLinked(cs1, fs, owner)
  {
    forall c | ROOT <= c < |cs1| ensures FirstFlagOk(cs1, fs, owner, c) {
      if c < |cs| {
        assert FirstFlagOk(cs, fs, owner, c);
      }
    }
  }
}
