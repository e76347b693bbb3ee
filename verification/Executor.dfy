/** ppp_c_flags_execute: three states over a mutable cursor. Every step keeps the outcome
that the parse function predicts for the rest of the command line. */
module Executor {
  import opened Text
  import opened Wrappers
  import opened Flags
  import opened Grammar
  import opened Letterwise
  import opened ArgList
  import opened Failures

  datatype State = StateNone | StateFlags | StateFlagsShort

  /** One call of a command's handler. */
  datatype Call = Call(command: Command, argc: nat, argv: Option<seq<Slot>>)

  lemma HelpPrefix(s: string)
    ensures "help=" <= s <==> |s| > 4 && s[..5] == "help="
  {}

  class Executor {
    const argv: seq<string>
    const env: Env
    const list: ArgList
    var command: Command
    var i: nat
    // `s` of the C struct: offset `pos` in the string `text`
    var text: string
    var pos: nat
    var sLen: nat
    var state: State
    var err: int
    var input: bool
    var shortInput: bool
    var store: Store
    var calls: seq<Call>

    constructor (root: Command, argv: seq<string>, env: Env, store: Store)
      ensures fresh(list) && Valid() && Rest() == Parse(env, root, argv, 0, false, store, [])
      ensures this.argv == argv && this.env == env
    {
      this.argv, this.env, this.command, this.store := argv, env, root, store;
      this.list := new ArgList();
      i, text, pos, sLen, state, err := 0, "", 0, 0, StateNone, 0;
      input, shortInput, calls := false, false, [];
    }

    // ----- invariants ---------------------------------------------------------------------------

    /** In a flag state, `s` is a non-empty suffix of the argument at a known offset, and
    short_input tells whether a cluster letter has been consumed. */
    ghost predicate CursorValid()
      reads this
    {
      && i <= |argv| && err == 0 && calls == []
      && (state != StateNone ==> input && i < |argv| && text == argv[i] && pos < |text| && sLen == |text| - pos)
      && (state == StateFlags ==> LongForm(text) && pos == 2)
      && (state == StateFlagsShort ==> ShortForm(text) && pos >= 1 && (shortInput <==> pos > 1))
    }

    ghost predicate Valid()
      reads this, list
    {
      CursorValid() && list.Valid(|argv| - i)
    }

    /** The outcome predicted for the rest of the command line. */
    ghost function Rest(): Outcome
      reads this, list
      requires Valid()
    {
      match state
      case StateNone => Parse(env, command, argv, i, input, store, list.args)
      case StateFlags => ParseLong(env, command, argv, i, argv[i][2..], store, list.args)
      case StateFlagsShort => ParseShort(env, command, argv, i, pos, store, list.args)
    }

    /** The loop has ended with the outcome `o`. */
    ghost predicate Stopped(o: Outcome)
      reads this, list
    {
      && command == o.command && store == o.store && list.args == o.args
      && err == (if o.Failed? then o.code else 0)
      && calls == (if o.Done? && o.command.handler then [Call(command, list.argc, list.argv)] else [])
      && (o.Done? ==> list.Valid(0))
    }

    // ----- setting one flag ------------------------------------------------------------------------

    /** A flag followed by its value in the same argument, `skip` characters from the cursor. */
    method AssignInline(f: Flag, skip: nat) returns (stop: bool)
      requires CursorValid() && state != StateNone && pos + skip <= |text|
      modifies `text, `pos, `sLen, `err, `i, `state, `store
      ensures var r := old(SetFlag(f, text[pos + skip..], env.room(i, pos), store));
        && stop == r.None?
        && (stop ==> err == INVALID_ARGUMENT && store == old(store))
        && (!stop ==> CursorValid() && state == StateNone && i == old(i) + 1 && store == r.value)
    {
      hide SetFlag, LongForm, ShortForm;
      var room := env.room(i, pos);
      pos := pos + skip;
      sLen := sLen - skip;
      var r := DoSetFlag(f, text[pos..], room, store);
      if r.None? {
        err := INVALID_ARGUMENT;
        return true;
      }
      store := r.value;
      i := i + 1;
      state := StateNone;
      return false;
    }

    /** A flag that ends its argument: a bool flag is set to "1", whatever its handler says;
    any other takes the next argument. */
    method AssignNext(f: Flag) returns (stop: bool)
      requires CursorValid() && state != StateNone
      modifies `text, `pos, `sLen, `err, `i, `state, `store
      ensures Boolish(f) ==> !stop && CursorValid() && state == StateNone && i == old(i) + 1
                             && store == old(SetBare(env, f, i, pos, store))
      ensures !Boolish(f) && old(i) + 1 >= |argv| ==> stop && err == INVALID_ARGUMENT && store == old(store)
      ensures !Boolish(f) && old(i) + 1 < |argv| ==>
        var r := old(SetFlag(f, argv[i + 1], env.room(i, pos), store));
        && stop == r.None?
        && (stop ==> err == INVALID_ARGUMENT && store == old(store))
        && (!stop ==> CursorValid() && state == StateNone && i == old(i) + 2 && store == r.value)
    {
      hide SetFlag, LongForm, ShortForm;
      var room := env.room(i, pos);
      if f.kind.Bool? {
        i := i + 1;
        state := StateNone;
        var r := DoSetFlag(f, "1", room, store);
        if r.Some? {
          store := r.value;
        }
        return false;
      }
      if i + 1 >= |argv| {
        err := INVALID_ARGUMENT;
        return true;
      }
      text, pos := argv[i + 1], 0;
      sLen := |text|;
      var r := DoSetFlag(f, text, room, store);
      if r.None? {
        err := INVALID_ARGUMENT;
        return true;
      }
      store := r.value;
      i := i + 2;
      state := StateNone;
      return false;
    }

    // ----- the three states --------------------------------------------------------------------------

    /** Pushes the whole argument, and goes back to the state between arguments. */
    method PushArgs(s: string) returns (stop: bool)
      requires Valid() && i < |argv| && s == argv[i]
      modifies `err, `i, `input, `state, list
      ensures stop ==> Stopped(old(AfterPush(env, command, argv, i, store, list.args)))
      ensures !stop ==> Valid() && i == old(i) + 1 && Rest() == old(AfterPush(env, command, argv, i, store, list.args))
    {
      var ok := list.Push(s, |argv| - i, env.argvRoom(i));
      if !ok {
        err := MALLOC_ARGV;
        return true;
      }
      i := i + 1;
      input := true;
      state := StateNone;
      return false;
    }

    method NextFlagsSet(f: Flag, skip: nat, ghost t: Tail) returns (stop: bool)
      requires Valid() && state != StateNone && pos + skip <= |text|
      requires (t.Equals? || t.Inline?) && t.flag == f && t.value == text[pos + skip..]
      modifies `text, `pos, `sLen, `err, `i, `state, `store
      ensures stop ==> Stopped(old(After(env, command, argv, i, pos, t, store, list.args)))
      ensures !stop ==> Valid() && i > old(i) && Rest() == old(After(env, command, argv, i, pos, t, store, list.args))
    {
      hide Parse, ParseLong, ParseShort;
      ghost var left := |argv| - i;
      stop := AssignInline(f, skip);
      if !stop {
        list.FewerLeft(left, |argv| - i);
      }
    }

    method NextFlagsSetValue(f: Flag) returns (stop: bool)
      requires Valid() && state != StateNone
      modifies `text, `pos, `sLen, `err, `i, `state, `store
      ensures stop ==> Stopped(old(WithoutValue(env, command, argv, i, pos, f, store, list.args)))
      ensures !stop ==> Valid() && i > old(i)
                        && Rest() == old(WithoutValue(env, command, argv, i, pos, f, store, list.args))
    {
      ghost var left := |argv| - i;
      stop := AssignNext(f);
      if !stop {
        list.FewerLeft(left, |argv| - i);
      }
    }

    /** The value of an explicit help flag, `skip` characters from the cursor. */
    method NextHelp(skip: nat) returns (stop: bool)
      requires Valid() && state != StateNone && pos + skip <= |text|
      modifies `pos, `sLen, `err, `i, `state
      ensures stop ==> Stopped(old(AfterHelp(env, command, argv, i, text[pos + skip..], store, list.args)))
      ensures !stop ==> Valid() && i > old(i)
                        && Rest() == old(AfterHelp(env, command, argv, i, text[pos + skip..], store, list.args))
    {
      hide Parse, ParseLong, ParseShort;
      pos := pos + skip;
      sLen := sLen - skip;
      var b := ParseBool(text[pos..]);
      if b == 0 {
        list.FewerLeft(|argv| - i, |argv| - i - 1);
        i := i + 1;
        state := StateNone;
        return false;
      }
      if b != 1 {
        err := INVALID_ARGUMENT;
      }
      return true;
    }

    method LookUpLong(s: string) returns (r: Option<Flag>)
      ensures r == FindLong(command.flags, s)
    {
      var flags := command.flags;
      var j := 0;
      while j < |flags|
        invariant j <= |flags| && FindLong(flags, s) == FindLong(flags[j..], s)
      {
        var f := flags[j];
        if s == f.name || (|s| > |f.name| && s[|f.name|] == '=' && s[..|f.name|] == f.name) {
          return Some(f);
        }
        assert flags[j..][1..] == flags[j + 1..];
        j := j + 1;
      }
      return None;
    }

    method LookUpShort(c: char) returns (r: Option<Flag>)
      ensures r == FindShort(command.flags, c)
    {
      var flags := command.flags;
      var j := 0;
      while j < |flags|
        invariant j <= |flags| && FindShort(flags, c) == FindShort(flags[j..], c)
      {
        if flags[j].short != NO_SHORT && flags[j].short == c {
          return Some(flags[j]);
        }
        assert flags[j..][1..] == flags[j + 1..];
        j := j + 1;
      }
      return None;
    }

    method LookUpChild(name: string) returns (r: Option<Command>)
      ensures r == FindChild(command.children, name)
    {
      var children := command.children;
      var j := 0;
      while j < |children|
        invariant j <= |children| && FindChild(children, name) == FindChild(children[j..], name)
      {
        if children[j].name == name {
          return Some(children[j]);
        }
        assert children[j..][1..] == children[j + 1..];
        j := j + 1;
      }
      return None;
    }

    method NextFlags() returns (stop: bool)
      requires Valid() && state == StateFlags
      modifies `text, `pos, `sLen, `err, `i, `state, `store, `input, list
      ensures stop ==> Stopped(old(Rest()))
      ensures !stop ==> Valid() && i > old(i) && Rest() == old(Rest())
    {
      hide Parse, ParseLong, ParseShort, FindLong, After, AfterHelp, AfterPush, WithoutValue;
      var s := text[pos..];
      LongHelp(s);
      if sLen == 4 && s == "help" {
        return true;
      }
      if sLen > 4 && s[..5] == "help=" {
        stop := NextHelp(5);
        return;
      }
      var found := LookUpLong(s);
      match found
      case Some(f) =>
        if s == f.name {
          stop := NextFlagsSetValue(f);
        } else {
          assert text[pos + (|f.name| + 1)..] == s[|f.name| + 1..];
          stop := NextFlagsSet(f, |f.name| + 1, Equals(f, s[|f.name| + 1..]));
        }
      case None =>
        if env.allow {
          stop := PushArgs(text[pos - 2..]);
        } else {
          err := UNKNOWN_FLAG;
          stop := true;
        }
    }

    /** The long argument is a call for help, or a matter of the flag it names. */
    lemma LongHelp(s: string)
      requires Valid() && state == StateFlags && s == text[pos..]
      ensures var found := FindLong(command.flags, s);
        if s == "help" then Rest() == Helped(command, store, list.args)
        else if |s| > 4 && s[..5] == "help=" then
          Rest() == AfterHelp(env, command, argv, i, text[pos + 5..], store, list.args)
        else Rest() == if found.Some? then RestOfLongFlag(found.value, s) else RestOfUnknownLong()
    {
      hide Parse, ParseShort, After, AfterHelp, AfterPush, WithoutValue;
      assert "help=" <= s <==> |s| > 4 && s[..5] == "help=" by {
        HelpPrefix(s);
      }
      assert |s| > 4 ==> text[pos + 5..] == s[5..];
    }

    ghost function RestOfUnknownLong(): Outcome
      reads this, list
      requires Valid() && state == StateFlags
    {
      if env.allow then AfterPush(env, command, argv, i, store, list.args)
      else Failed(UNKNOWN_FLAG, command, store, list.args)
    }

    ghost function RestOfLongFlag(f: Flag, s: string): Outcome
      reads this, list
      requires Valid() && state == StateFlags && MatchesLong(f, s)
    {
      if s == f.name then WithoutValue(env, command, argv, i, pos, f, store, list.args)
      else After(env, command, argv, i, pos, Equals(f, s[|f.name| + 1..]), store, list.args)
    }

    method NextShort() returns (stop: bool)
      requires Valid() && state == StateFlagsShort
      modifies `text, `pos, `sLen, `err, `i, `state, `store, `input, `shortInput, list
      ensures stop ==> Stopped(old(Rest()))
      ensures !stop ==> Valid() && Rest() == old(Rest())
      ensures !stop ==> i > old(i) || (i == old(i) && state == StateFlagsShort && sLen < old(sLen))
    {
      hide Parse, ParseLong, ParseShort, FindShort, After, AfterHelp, AfterPush, WithoutValue;
      ShortHelp();
      if sLen == 1 && text[pos] == 'h' {
        return true;
      }
      if sLen > 1 && text[pos] == 'h' && text[pos + 1] == '=' {
        stop := NextHelp(2);
        return;
      }
      var found := LookUpShort(text[pos]);
      match found
      case Some(f) =>
        stop := NextShortFlag(f);
      case None =>
        stop := UnknownShort();
    }

    ghost function RestOfUnknownShort(): Outcome
      reads this, list
      requires Valid() && state == StateFlagsShort
    {
      if pos == 1 && env.allow then AfterPush(env, command, argv, i, store, list.args)
      else Failed(UNKNOWN_SHORT_FLAG, command, store, list.args)
    }

    /** No flag has this letter: the whole argument passes, if it may, unless some of its
    letters have been consumed. */
    method UnknownShort() returns (stop: bool)
      requires Valid() && state == StateFlagsShort
      modifies `err, `i, `input, `state, list
      ensures stop ==> Stopped(old(RestOfUnknownShort()))
      ensures !stop ==> Valid() && i > old(i) && Rest() == old(RestOfUnknownShort())
    {
      if !shortInput && env.allow {
        stop := PushArgs(text[pos - 1..]);
      } else {
        err := UNKNOWN_SHORT_FLAG;
        stop := true;
      }
    }

    /** The short argument is a call for help, or a matter of the flag at the cursor. */
    lemma ShortHelp()
      requires Valid() && state == StateFlagsShort
      ensures var found := FindShort(command.flags, text[pos]);
        if sLen == 1 && text[pos] == 'h' then Rest() == Helped(command, store, list.args)
        else if sLen > 1 && text[pos] == 'h' && text[pos + 1] == '=' then
          Rest() == AfterHelp(env, command, argv, i, text[pos + 2..], store, list.args)
        else Rest() == if found.Some? then RestOfShortFlag(found.value) else RestOfUnknownShort()
    {
      hide Parse, ParseLong, After, AfterHelp, AfterPush, WithoutValue;
      var body := text[pos..];
      assert body[0] == text[pos] && (sLen > 1 ==> body[1] == text[pos + 1] && body[2..] == text[pos + 2..]);
      assert body == "h" <==> sLen == 1 && body[0] == 'h';
      assert "h=" <= body <==> sLen > 1 && body[0] == 'h' && body[1] == '=';
    }

    /** The outcome of the short flag `f` at the cursor. */
    ghost function RestOfShortFlag(f: Flag): Outcome
      reads this, list
      requires Valid() && state == StateFlagsShort
    {
      var s := text[pos..];
      if |s| == 1 then WithoutValue(env, command, argv, i, pos, f, store, list.args)
      else if s[1] == '=' then After(env, command, argv, i, pos, Equals(f, s[2..]), store, list.args)
      else if Boolish(f) then ParseShort(env, command, argv, i, pos + 1, SetBare(env, f, i, pos, store), list.args)
      else After(env, command, argv, i, pos, Inline(f, s[1..]), store, list.args)
    }

    /** The branches of next_short for the flag found. */
    method NextShortFlag(f: Flag) returns (stop: bool)
      requires Valid() && state == StateFlagsShort
      modifies `text, `pos, `sLen, `err, `i, `state, `store, `shortInput
      ensures stop ==> Stopped(old(RestOfShortFlag(f)))
      ensures !stop ==> Valid() && Rest() == old(RestOfShortFlag(f))
      ensures !stop ==> i > old(i) || (i == old(i) && state == StateFlagsShort && sLen < old(sLen))
    {
      var s := text[pos..];
      if sLen == 1 {
        stop := NextFlagsSetValue(f);
      } else if s[1] == '=' {
        assert text[pos + 2..] == s[2..];
        stop := NextFlagsSet(f, 2, Equals(f, s[2..]));
      } else if f.kind.Bool? {
        NextLetter(f);
        stop := false;
      } else {
        assert text[pos + 1..] == s[1..];
        stop := NextFlagsSet(f, 1, Inline(f, s[1..]));
      }
    }

    /** A bool flag inside a cluster. */
    method NextLetter(f: Flag)
      requires Valid() && state == StateFlagsShort && sLen > 1
      modifies `pos, `sLen, `store, `shortInput
      ensures Valid() && sLen < old(sLen)
      ensures pos == old(pos) + 1 && store == SetBare(env, f, i, old(pos), old(store))
    {
      var room := env.room(i, pos);
      pos := pos + 1;
      sLen := sLen - 1;
      var r := DoSetFlag(f, "1", room, store);
      if r.Some? {
        store := r.value;
      }
      shortInput := true;
    }

    method NextNone() returns (stop: bool)
      requires Valid() && state == StateNone
      modifies `text, `pos, `sLen, `err, `i, `state, `input, `shortInput, `command, `calls, list
      ensures stop ==> Stopped(old(Rest()))
      ensures !stop ==> Valid() && Rest() == old(Rest())
      ensures !stop ==> i > old(i) || (i == old(i) && state != StateNone)
    {
      hide Parse, ParseLong, ParseShort;
      if i >= |argv| {
        CallHandler();
        return true;
      }
      text, pos := argv[i], 0;
      sLen := |text|;
      if sLen > 1 && text[0] == '-' {
        if text[1] == '-' {
          if sLen > 2 {
            EnterLong();
            return false;
          }
        } else {
          EnterShort();
          return false;
        }
      }
      stop := NextPlain();
    }

    method EnterLong()
      requires Valid() && state == StateNone && i < |argv| && text == argv[i]
      requires pos == 0 && sLen == |text| && LongForm(text)
      modifies `pos, `sLen, `state, `input
      ensures Valid() && state == StateFlags && Rest() == old(Rest())
    {
      hide Parse, ParseLong, ParseShort;
      StartLong(env, command, argv, i, input, store, list.args);
      pos := pos + 2;
      sLen := sLen - 2;
      input := true;
      state := StateFlags;
    }

    method EnterShort()
      requires Valid() && state == StateNone && i < |argv| && text == argv[i]
      requires pos == 0 && sLen == |text| && ShortForm(text)
      modifies `pos, `sLen, `state, `input, `shortInput
      ensures Valid() && state == StateFlagsShort && Rest() == old(Rest())
    {
      hide Parse, ParseLong, ParseShort;
      StartShort(env, command, argv, i, input, store, list.args);
      pos := pos + 1;
      sLen := sLen - 1;
      input := true;
      shortInput := false;
      state := StateFlagsShort;
    }

    method CallHandler()
      requires Valid() && state == StateNone && i >= |argv|
      modifies `calls
      ensures Stopped(old(Rest()))
    {
      if command.handler {
        calls := calls + [Call(command, list.argc, list.argv)];
      }
    }

    /** An argument that is no flag: a subcommand, as long as nothing but subcommands has
    been seen, or a positional. */
    method NextPlain() returns (stop: bool)
      requires Valid() && state == StateNone && i < |argv| && text == argv[i] && !FlagForm(text)
      modifies `err, `i, `state, `input, `command, list
      ensures stop ==> Stopped(old(Rest()))
      ensures !stop ==> Valid() && Rest() == old(Rest()) && i > old(i)
    {
      hide Parse, ParseLong, ParseShort;
      StartPlain(env, command, argv, i, input, store, list.args);
      if !input && command.children != [] {
        var child := LookUpChild(text);
        if child.Some? {
          command := child.value;
          list.FewerLeft(|argv| - i, |argv| - i - 1);
          i := i + 1;
          return false;
        }
      }
      stop := PushArgs(text);
    }

    ghost function Rank(): nat
      reads this
    {
      if state == StateNone then 1 else 0
    }

    /** The whole run ends, and ends as the parse function says. */
    method Run()
      requires Valid()
      modifies this, list
      ensures Stopped(old(Rest()))
    {
      ghost var o := Rest();
      var stop := false;
      while !stop
        invariant !stop ==> Valid() && Rest() == o
        invariant stop ==> Stopped(o)
        decreases !stop, if stop then 0 else |argv| - i, if stop then 0 else Rank(), if stop then 0 else sLen
      {
        match state
        case StateNone => stop := NextNone();
        case StateFlags => stop := NextFlags();
        case StateFlagsShort => stop := NextShort();
      }
    }
  }

  /** ppp_c_flags_execute. For every command tree, command line and environment: the error
  code, the final flag values and the handler call are those of the parse function; the
  handler is called at most once, when everything has been consumed; and it receives the
  positional arguments intact exactly when there are at most 32 of them. */
  method Execute(root: Command, argv: seq<string>, env: Env, store: Store)
    returns (err: int, final: Store, calls: seq<Call>, intact: bool)
    ensures var o := Parse(env, root, argv, 0, false, store, []);
      && err == (if o.Failed? then o.code else 0)
      && (err != 0 <==> o.Failed?) && err in {0, 12, 13, 14, 15}
      && final == o.store
      && |calls| == (if o.Done? && o.command.handler then 1 else 0)
      && (calls != [] ==>
            && calls[0].command == o.command && calls[0].argc == |o.args|
            && (intact && Delivers(calls[0].argv, o.args) <==> |o.args| <= 32))
  {
    var e := new Executor(root, argv, env, store);
    e.Run();
    err, final, calls, intact := e.err, e.store, e.calls, !e.list.overrun;
    ghost var o := Parse(env, root, argv, 0, false, store, []);
    ParseCodes(env, root, argv, 0, false, store, []);
    if o.Done? {
      e.list.DeliveredIff(0);
      e.list.CountIsLength(0);
    }
  }
}
