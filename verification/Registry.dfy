/** Building the registry: create, add_command, add_flag. */
module Registry {
  import opened Wrappers
  import opened Flags
  import opened Links

  const DUPLICATE_FLAG := 1
  const DUPLICATE_FLAG_SHORT := 2
  const DUPLICATE_COMMAND := 3
  const INVALID_FLAG := 4
  const INVALID_FLAG_HELP := 6
  const INVALID_FLAG_SHORT_HELP := 7
  const INVALID_FLAG_TYPE := 8
  const INVALID_COMMAND := 9
  const MALLOC_FLAG := 10
  const MALLOC_COMMAND := 11

  // ----- names ---------------------------------------------------------------------------------------

  /** A quote or a line break, which would upset the help text. */
  predicate Quoted(s: string) {
    '"' in s || '\'' in s || '\r' in s || '\n' in s
  }

  predicate FlagNameOk(s: string) {
    s != "" && !Quoted(s)
  }

  predicate CommandNameOk(s: string) {
    s != "" && s[0] != '-' && !Quoted(s)
  }

  /** The loop over the characters, which check_flag and check_command share. */
  method CheckCharacters(s: string) returns (ok: bool)
    ensures ok <==> '"' !in s && '\'' !in s && '\r' !in s && '\n' !in s
  {
    var i := 0;
    while i < |s|
      invariant i <= |s| && forall k :: 0 <= k < i ==> s[k] != '"' && s[k] != '\'' && s[k] != '\r' && s[k] != '\n'
    {
      if s[i] == '"' || s[i] == '\'' || s[i] == '\r' || s[i] == '\n' {
        return false;
      }
      i := i + 1;
    }
    return true;
  }

  method CheckFlag(s: string) returns (ok: bool)
    ensures ok <==> s != "" && '"' !in s && '\'' !in s && '\r' !in s && '\n' !in s
  {
    if s == "" {
      return false;
    }
    ok := CheckCharacters(s);
  }

  method CheckCommand(s: string) returns (ok: bool)
    ensures ok <==> s != "" && s[0] != '-' && '"' !in s && '\'' !in s && '\r' !in s && '\n' !in s
  {
    if s == "" || s[0] == '-' {
      return false;
    }
    ok := CheckCharacters(s);
  }

  /** The values of flags.h. */
  lemma RegistryCodes()
    ensures DUPLICATE_FLAG == 1 && DUPLICATE_FLAG_SHORT == 2 && DUPLICATE_COMMAND == 3 && INVALID_FLAG == 4
    ensures INVALID_FLAG_HELP == 6 && INVALID_FLAG_SHORT_HELP == 7 && INVALID_FLAG_TYPE == 8
    ensures INVALID_COMMAND == 9 && MALLOC_FLAG == 10 && MALLOC_COMMAND == 11
  {}

  /** All names are legal, and siblings have different names. */
  ghost predicate CommandNames(cs: seq<CommandRecord>) {
    && (forall x :: ROOT <= x < |cs| ==> CommandNameOk(cs[x].name))
    && (forall x, y :: ROOT < x < y < |cs| && cs[x].parent == cs[y].parent ==> cs[x].name != cs[y].name)
  }

  /** Within a command, names and short names are different; help is never registered. */
  ghost predicate FlagNames(fs: seq<FlagRecord>, owner: seq<nat>)
    requires |fs| == |owner|
  {
    && (forall x :: 0 < x < |fs| ==> FlagNameOk(fs[x].name) && fs[x].name != "help" && fs[x].short != 'h')
    && (forall x, y :: 0 < x < y < |fs| && owner[x] == owner[y] ==> fs[x].name != fs[y].name)
    && (forall x, y :: 0 < x < y < |fs| && owner[x] == owner[y] && fs[x].short != NO_SHORT ==>
          fs[x].short != fs[y].short)
  }

  ghost predicate HasChildNamed(cs: seq<CommandRecord>, parent: nat, name: string) {
    exists x :: ROOT < x < |cs| && cs[x].parent == parent && cs[x].name == name
  }

  /** The error of the first flag of `c`, from address `x` on, that clashes; 0 if none does. */
  ghost function Clash(fs: seq<FlagRecord>, owner: seq<nat>, c: nat, name: string, short: char, x: nat): int
    requires |fs| == |owner|
    decreases |fs| - x
  {
    if x >= |fs| then 0
    else if owner[x] == c && fs[x].name == name then DUPLICATE_FLAG
    else if owner[x] == c && short != NO_SHORT && fs[x].short == short then DUPLICATE_FLAG_SHORT
    else Clash(fs, owner, c, name, short, x + 1)
  }

  lemma {:induction false} ClashSkips(fs: seq<FlagRecord>, owner: seq<nat>, c: nat, name: string, short: char,
                                      x: nat, y: nat)
    requires |fs| == |owner| && x <= y <= |fs| && forall z :: x <= z < y ==> owner[z] != c
    ensures Clash(fs, owner, c, name, short, x) == Clash(fs, owner, c, name, short, y)
    decreases y - x
  {
    if x < y {
      ClashSkips(fs, owner, c, name, short, x + 1, y);
    }
  }

  lemma {:induction false} NoClash(fs: seq<FlagRecord>, owner: seq<nat>, c: nat, name: string, short: char, x: nat,
                                   z: nat)
    requires |fs| == |owner| && Clash(fs, owner, c, name, short, x) == 0 && x <= z < |fs| && owner[z] == c
    ensures fs[z].name != name && (short != NO_SHORT ==> fs[z].short != short)
    decreases z - x
  {
    if x < z {
      NoClash(fs, owner, c, name, short, x + 1, z);
    }
  }

  /** Flag `x` of command `c` has this name, or this letter. */
  ghost predicate Taken(fs: seq<FlagRecord>, owner: seq<nat>, c: nat, name: string, short: char, x: nat)
    requires x < |fs| == |owner|
  {
    owner[x] == c && (fs[x].name == name || (short != '\0' && fs[x].short == short))
  }

  /** The error tells whether the first flag in the way has the name, or only the letter. */
  lemma {:induction false} ClashIff(fs: seq<FlagRecord>, owner: seq<nat>, c: nat, name: string, short: char, x: nat)
    requires |fs| == |owner|
    ensures Clash(fs, owner, c, name, short, x) == 0 <==>
            forall y :: x <= y < |fs| ==> !Taken(fs, owner, c, name, short, y)
    ensures forall y :: x <= y < |fs| && Taken(fs, owner, c, name, short, y)
                        && (forall z :: x <= z < y ==> !Taken(fs, owner, c, name, short, z)) ==>
      Clash(fs, owner, c, name, short, x) == if fs[y].name == name then 1 else 2
    decreases |fs| - x
  {
    if x < |fs| {
      ClashIff(fs, owner, c, name, short, x + 1);
      if Taken(fs, owner, c, name, short, x) {
        assert Clash(fs, owner, c, name, short, x) == if fs[x].name == name then 1 else 2;
      }
    }
  }

  // ----- the registry ------------------------------------------------------------------------------------

  class Registry {
    var commands: seq<CommandRecord>
    var flags: seq<FlagRecord>
    ghost var owner: seq<nat>

    ghost predicate Valid()
      reads this
    {
      && CommandsLinked(commands) && FlagsLinked(commands, flags, owner)
      && CommandNames(commands) && FlagNames(flags, owner)
    }

    constructor (name: string, handler: bool)
      requires CommandNameOk(name)
      ensures Valid() && |commands| == 2 && commands[ROOT] == CommandRecord(0, 0, 0, 0, name, handler) && |flags| == 1
    {
      commands := [CommandRecord(0, 0, 0, 0, "", false), CommandRecord(0, 0, 0, 0, name, handler)];
      flags := [FlagRecord(0, "", NO_SHORT, Bool, false, 0, (_, _) => true)];
      owner := [0];
    }

    /** The walk of add_command: an error, or the last subcommand. */
    method LastChild(parent: nat, name: string) returns (back: nat, err: int)
      requires Valid() && ROOT <= parent < |commands|
      ensures err == if HasChildNamed(commands, parent, name) then DUPLICATE_COMMAND else 0
      ensures err == 0 ==> IsLast(commands, parent, back)
    {
      back := commands[parent].child;
      assert ChildOk(commands, parent);
      if back != 0 {
        while commands[back].next != 0
          invariant ROOT < back < |commands| && commands[back].parent == parent
          invariant forall y :: ROOT < y < back && commands[y].parent == parent ==> commands[y].name != name
          decreases |commands| - back
        {
          if commands[back].name == name {
            return back, DUPLICATE_COMMAND;
          }
          assert NextOk(commands, back);
          back := commands[back].next;
        }
        assert NextOk(commands, back);
        if commands[back].name == name {
          return back, DUPLICATE_COMMAND;
        }
      }
      return back, 0;
    }

    /** ppp_c_flags_add_command_with_len: `c` is the new command, or 0 with the error. */
    method AddCommand(parent: nat, name: string, handler: bool, allocOk: bool) returns (c: nat, err: int)
      requires Valid() && ROOT <= parent < |commands|
      modifies `commands
      ensures Valid()
      ensures err == if name == "" || name[0] == '-' || Quoted(name) then INVALID_COMMAND
                     else if exists x :: ROOT < x < |old(commands)| && old(commands)[x].parent == parent
                                         && old(commands)[x].name == name then DUPLICATE_COMMAND
                     else if !allocOk then MALLOC_COMMAND
                     else 0
      ensures err != 0 ==> c == 0 && commands == old(commands)
      ensures err == 0 ==> c == |old(commands)| && |commands| == c + 1
      ensures err == 0 ==> commands[c] == CommandRecord(parent, 0, 0, 0, name, handler)
      ensures err == 0 ==> forall x :: 0 <= x < c ==>
        commands[x] == old(commands)[x].(next := commands[x].next, child := commands[x].child)
    {
      hide CommandsLinked, FlagsLinked, CommandNames, FlagNames;
      var named := CheckCommand(name);
      if !named {
        return 0, INVALID_COMMAND;
      }
      var back;
      back, err := LastChild(parent, name);
      if err != 0 {
        return 0, err;
      }
      if !allocOk {
        return 0, MALLOC_COMMAND;
      }
      c := |commands|;
      LinkKeepsCommandsLinked(commands, parent, back, name, handler);
      LinkKeepsFlagsLinked(commands, flags, owner, Link(commands, parent, back, name, handler));
      LinkKeepsNames(commands, parent, back, name, handler);
      commands := Link(commands, parent, back, name, handler);
    }

    /** The walk of add_flag: an error, or the last flag. */
    method LastFlag(c: nat, name: string, short: char) returns (back: nat, err: int)
      requires Valid() && ROOT <= c < |commands|
      ensures err == Clash(flags, owner, c, name, short, 1)
      ensures err == 0 ==> IsLastFlag(commands, flags, owner, c, back)
    {
      back := commands[c].flag;
      assert FirstFlagOk(commands, flags, owner, c);
      ClashSkips(flags, owner, c, name, short, 1, if back == 0 then |flags| else back);
      if back != 0 {
        while flags[back].next != 0
          invariant 0 < back < |flags| && owner[back] == c
          invariant Clash(flags, owner, c, name, short, 1) == Clash(flags, owner, c, name, short, back)
          decreases |flags| - back
        {
          if flags[back].name == name {
            return back, DUPLICATE_FLAG;
          } else if short != NO_SHORT && short == flags[back].short {
            return back, DUPLICATE_FLAG_SHORT;
          }
          assert FlagNextOk(flags, owner, back);
          ClashSkips(flags, owner, c, name, short, back + 1, flags[back].next);
          back := flags[back].next;
        }
        if flags[back].name == name {
          return back, DUPLICATE_FLAG;
        } else if short != NO_SHORT && short == flags[back].short {
          return back, DUPLICATE_FLAG_SHORT;
        }
        assert FlagNextOk(flags, owner, back);
        ClashSkips(flags, owner, c, name, short, back + 1, |flags|);
      }
      return back, 0;
    }

    /** ppp_c_flags_add_flag_with_len: `f` is the new flag, or 0 with the error. `ty` is none
    for a value type that does not exist. */
    method AddFlag(c: nat, name: string, short: char, ty: Option<(Kind, bool)>, target: nat,
                   accepts: (Val, Atom) -> bool, allocOk: bool) returns (f: nat, err: int)
      requires Valid() && ROOT <= c < |commands|
      modifies `commands, `flags, `owner
      ensures Valid()
      ensures err == if name == "" || Quoted(name) then INVALID_FLAG
                     else if name == "help" then INVALID_FLAG_HELP
                     else if short == 'h' then INVALID_FLAG_SHORT_HELP
                     else if ty.None? then INVALID_FLAG_TYPE
                     else if Clash(old(flags), old(owner), c, name, short, 1) != 0 then
                       Clash(old(flags), old(owner), c, name, short, 1)
                     else if !allocOk then MALLOC_FLAG
                     else 0
      ensures err != 0 ==> f == 0 && unchanged(this)
      ensures err == 0 ==> f == |old(flags)| && owner == old(owner) + [c] && |flags| == f + 1
      ensures err == 0 ==> flags[f] == FlagRecord(0, name, short, ty.value.0, ty.value.1, target, accepts)
      ensures err == 0 ==> forall x :: 0 <= x < f ==> flags[x] == old(flags)[x].(next := flags[x].next)
      ensures |commands| == |old(commands)|
      ensures forall x :: 0 <= x < |commands| ==> commands[x] == old(commands)[x].(flag := commands[x].flag)
    {
      var named := CheckFlag(name);
      if !named {
        return 0, INVALID_FLAG;
      } else if name == "help" {
        return 0, INVALID_FLAG_HELP;
      } else if short == 'h' {
        return 0, INVALID_FLAG_SHORT_HELP;
      }
      if ty.None? {
        return 0, INVALID_FLAG_TYPE;
      }
      var back;
      back, err := LastFlag(c, name, short);
      if err != 0 {
        return 0, err;
      }
      if !allocOk {
        return 0, MALLOC_FLAG;
      }
      f := |flags|;
      LinkFlag(c, back, FlagRecord(0, name, short, ty.value.0, ty.value.1, target, accepts));
    }

    method LinkFlag(c: nat, back: nat, r: FlagRecord)
      requires Valid() && ROOT <= c < |commands| && IsLastFlag(commands, flags, owner, c, back)
      requires r.next == 0 && FlagNameOk(r.name) && r.name != "help" && r.short != 'h'
      requires Clash(flags, owner, c, r.name, r.short, 1) == 0
      modifies `commands, `flags, `owner
      ensures Valid()
      ensures owner == old(owner) + [c] && |flags| == |old(flags)| + 1 && flags[|old(flags)|] == r
      ensures forall x :: 0 <= x < |old(flags)| ==> flags[x] == old(flags)[x].(next := flags[x].next)
      ensures |commands| == |old(commands)|
      ensures forall x :: 0 <= x < |commands| ==> commands[x] == old(commands)[x].(flag := commands[x].flag)
    {
      var f := |flags|;
      ghost var cs0, fs0 := commands, flags;
      if back != 0 {
        flags := flags[back := flags[back].(next := f)];
      } else {
        commands := commands[c := commands[c].(flag := f)];
      }
      flags := flags + [r];
      LinkFlagKeepsFlagsLinked(cs0, fs0, owner, c, back, r, commands, flags);
      SamePointersStayLinked(cs0, commands);
      LinkFlagKeepsNames(fs0, owner, c, r, flags);
      owner := owner + [c];
    }
  }

  /** ppp_c_flags_command_create_with_len: a registry with a root command, or an error. */
  method Create(name: string, handler: bool, allocOk: bool) returns (r: Registry?, err: int)
    ensures err == if name == "" || name[0] == '-' || Quoted(name) then INVALID_COMMAND
                   else if !allocOk then MALLOC_COMMAND
                   else 0
    ensures r != null <==> err == 0
    ensures r != null ==> fresh(r) && r.Valid() && |r.commands| == 2 && |r.flags| == 1
    ensures r != null ==> r.commands[ROOT] == CommandRecord(0, 0, 0, 0, name, handler)
  {
    var named := CheckCommand(name);
    if !named {
      return null, INVALID_COMMAND;
    }
    if !allocOk {
      return null, MALLOC_COMMAND;
    }
    r := new Registry(name, handler);
    err := 0;
  }

  lemma LinkKeepsNames(cs: seq<CommandRecord>, parent: nat, back: nat, name: string, handler: bool)
    requires CommandsLinked(cs) && CommandNames(cs) && ROOT <= parent < |cs| && IsLast(cs, parent, back)
    requires CommandNameOk(name) && !HasChildNamed(cs, parent, name)
    ensures CommandNames(Link(cs, parent, back, name, handler))
  {
    var r := Link(cs, parent, back, name, handler);
    assert forall y :: 0 <= y < |cs| ==> r[y].parent == cs[y].parent && r[y].name == cs[y].name;
  }

  lemma SamePointersStayLinked(cs: seq<CommandRecord>, cs1: seq<CommandRecord>)
    requires CommandsLinked(cs) && CommandNames(cs) && |cs1| == |cs|
    requires forall x :: 0 <= x < |cs| ==> cs1[x] == cs[x].(flag := cs1[x].flag)
    ensures CommandsLinked(cs1) && CommandNames(cs1)
  {
    forall x | ROOT <= x < |cs1| ensures NextOk(cs1, x) && ChildOk(cs1, x) {
      assert NextOk(cs, x) && ChildOk(cs, x);
    }
  }

  lemma LinkFlagKeepsNames(fs: seq<FlagRecord>, owner: seq<nat>, c: nat, r: FlagRecord, fs1: seq<FlagRecord>)
    requires |fs| == |owner| && FlagNames(fs, owner) && |fs1| == |fs| + 1 && fs1[|fs|] == r
    requires forall x :: 0 <= x < |fs| ==> fs1[x] == fs[x].(next := fs1[x].next)
    requires FlagNameOk(r.name) && r.name != "help" && r.short != 'h' && Clash(fs, owner, c, r.name, r.short, 1) == 0
    ensures FlagNames(fs1, owner + [c])
  {
    var owner1 := owner + [c];
    forall x | 0 < x < |fs1|
      ensures FlagNameOk(fs1[x].name) && fs1[x].name != "help" && fs1[x].short != 'h'
    {
      assert x < |fs| ==> fs1[x].name == fs[x].name && fs1[x].short == fs[x].short;
    }
    forall x, y | 0 < x < y < |fs1| && owner1[x] == owner1[y]
      ensures fs1[x].name != fs1[y].name && (fs1[x].short != NO_SHORT ==> fs1[x].short != fs1[y].short)
    {
      if y < |fs| {
        assert owner[x] == owner[y];
      } else {
        NoClash(fs, owner, c, r.name, r.short, 1, x);
      }
    }
  }
}
