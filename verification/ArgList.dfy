/** The positional arguments collected for the handler: ppp_c_flags_push_args as it is
written, with the block it manages. */
module ArgList {
  import opened Wrappers
  import opened Grammar

  /** A word of a malloc'ed pointer array: a pointer that was stored, or undefined content. */
  datatype Slot = Pointer(s: string) | Junk

  const POINTER_SIZE := 8

  /** The first `n` words of the block are exactly these arguments, in order. */
  predicate Delivers(block: Option<seq<Slot>>, args: seq<string>) {
    args != [] ==> block.Some? && |block.value| >= |args|
                   && forall k :: 0 <= k < |args| ==> block.value[k] == Pointer(args[k])
  }

  /** memcpy of `bytes` bytes into a fresh array of `cap` pointers: only whole pointers count. */
  function CopyBytes(from: seq<Slot>, bytes: nat, cap: nat): (to: seq<Slot>)
    ensures |to| == cap
  {
    seq(cap, k => if 0 <= k < bytes / POINTER_SIZE && k < |from| then from[k] else Junk)
  }

  /** So many bytes do not fit into one of these two blocks of pointers. */
  predicate TooFar(bytes: nat, from: nat, to: nat) {
    bytes > 8 * from || bytes > 8 * to
  }

  /** The fields handler_argc, handler_argv and handler_cap of the execute arguments. */
  class ArgList {
    var argc: nat
    var argv: Option<seq<Slot>>
    var cap: nat
    // a write or copy went past the end of a block: C promises nothing from here on
    var overrun: bool
    // the positionals pushed so far
    ghost var args: seq<string>

    /** With `left` arguments still to read: right up to 32 positionals, damaged for good beyond. */
    ghost predicate Valid(left: nat)
      reads this
    {
      && argc == |args|
      && (argv.None? <==> argc == 0) && (argc == 0 <==> cap == 0)
      && (cap == 0 || cap == 32 || argc + left <= cap < 32)
      && (argc <= 32 ==> !overrun && Delivers(argv, args) && (argc > 0 ==> cap == |argv.value|))
      && (argc > 32 ==> Damaged())
    }

    ghost predicate Damaged()
      reads this
    {
      overrun || (argv.Some? && |argv.value| > 4 && argv.value[4] == Junk)
    }

    constructor ()
      ensures forall left: nat :: Valid(left)
      ensures args == []
    {
      argc, argv, cap, overrun, args := 0, None, 0, false, [];
    }

    /** The handler can rely on its arguments exactly when there are at most 32. */
    lemma DeliveredIff(left: nat)
      requires Valid(left)
      ensures Delivers(argv, args) && !overrun <==> |args| <= 32
    {
      if argc > 32 {
        assert Damaged();
      }
    }

    lemma CountIsLength(left: nat)
      requires Valid(left)
      ensures argc == |args|
    {}

    lemma FewerLeft(left: nat, fewer: nat)
      requires Valid(left) && fewer <= left
      ensures Valid(fewer)
    {}

    /** The part of push_args that makes room. */
    method Reserve(left: nat, allocOk: bool) returns (ok: bool)
      requires Valid(left) && left > 0
      modifies `argv, `cap, `overrun
      ensures ok == (!NeedsRoom(argc) || allocOk)
      ensures ok ==> argv.Some? && (cap == 32 || argc + left <= cap < 32)
      ensures ok && argc < 32 ==> !overrun && Delivers(argv, args) && cap == |argv.value| > argc
      ensures ok && argc >= 32 ==> Damaged() || |argv.value| <= argc
      ensures ok ==>
        overrun == (old(overrun) || (argc >= 32 && TooFar(argc, |old(argv).value|, |argv.value|)))
      ensures ok && argc == 0 ==> |argv.value| == cap == if left < 32 then left else 32
      ensures ok && argc >= 32 ==> |argv.value| == if left < 2 * argc then left else 2 * argc
      ensures ok && argc >= 32 ==> forall k :: 0 <= k < |argv.value| ==>
        argv.value[k] == if 8 * (k + 1) <= argc && k < |old(argv).value| then old(argv).value[k] else Junk
    {
      if argc + 1 > cap {
        var newCap := if argc > 0 then argc * 2 else 32;
        if newCap < 32 {
          newCap := 32;
        }
        if newCap > left {
          newCap := left;
        }
        if !allocOk {
          return false;
        }
        if argv.Some? {
          // the copy is counted in bytes, and the new capacity is not stored
          if argc > newCap * POINTER_SIZE || argc > |argv.value| * POINTER_SIZE {
            overrun := true;
          }
          argv := Some(CopyBytes(argv.value, argc, newCap));
        } else {
          argv := Some(seq(newCap, _ => Junk));
          cap := newCap;
        }
      }
      return true;
    }

    /** Appends `s`, or fails for want of memory. */
    method Push(s: string, left: nat, allocOk: bool) returns (ok: bool)
      requires Valid(left) && left > 0
      modifies this
      ensures ok == (!NeedsRoom(old(|args|)) || allocOk)
      ensures ok ==> Valid(left - 1) && args == old(args) + [s]
      ensures !ok ==> args == old(args)
      ensures ok && old(argc) == 0 ==> argv.Some? && |argv.value| == cap == if left < 32 then left else 32
      ensures ok && old(argc) >= 32 ==>
        argv.Some? && |argv.value| == if left < 2 * old(argc) then left else 2 * old(argc)
      ensures ok && old(argc) >= 32 ==> forall k :: 0 <= k < |argv.value| ==>
        argv.value[k] == (if k == old(argc) then Pointer(s)
                          else if 8 * (k + 1) <= old(argc) && k < |old(argv).value| then old(argv).value[k]
                          else Junk)
      ensures ok ==> argv.Some?
      ensures ok && old(argc) < 32 ==> overrun == old(overrun)
      ensures ok && old(argc) >= 32 ==>
        overrun == (old(overrun) || TooFar(old(argc), |old(argv).value|, |argv.value|) || old(argc) >= |argv.value|)
    {
      ok := Reserve(left, allocOk);
      if ok {
        if argc < |argv.value| {
          argv := Some(argv.value[argc := Pointer(s)]);
        } else {
          overrun := true;
        }
        argc := argc + 1;
        args := args + [s];
      }
    }
  }
}
