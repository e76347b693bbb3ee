/** Array flags: ppp_c_flags_gropw and the array handlers, on real buffers.

The buffer of a flag's default belongs to the program as long as its capacity is 0: it is
read, never written and never freed. */
module GrowArray {
  import opened Wrappers

  // ----- the abstract array flag ---------------------------------------------------------

  /** Whether the flag has appeared, and what its array holds. */
  datatype Accumulator<T> = Accumulator(touched: bool, items: seq<T>)

  /** One use of the flag: the value that survived parsing and verification, if any, and
  whether room could be made for it. */
  datatype Attempt<T> = Attempt(value: Option<T>, room: bool)

  predicate Succeeds<T>(a: Attempt<T>) {
    a.value.Some? && a.room
  }

  function Accumulate<T>(acc: Accumulator<T>, a: Attempt<T>): Accumulator<T> {
    if Succeeds(a) then Accumulator(true, (if acc.touched then acc.items else []) + [a.value.value]) else acc
  }

  function Run<T>(acc: Accumulator<T>, attempts: seq<Attempt<T>>): Accumulator<T> {
    if attempts == [] then acc else Accumulate(Run(acc, attempts[..|attempts| - 1]), attempts[|attempts| - 1])
  }

  function Successes<T>(attempts: seq<Attempt<T>>): seq<T> {
    if attempts == [] then []
    else
      var last := attempts[|attempts| - 1];
      Successes(attempts[..|attempts| - 1]) + if Succeeds(last) then [last.value.value] else []
  }

  /** The default survives until the first success, which replaces it; from then on the
  array is the list of successful values in order, and failures leave no trace. */
  lemma {:induction false} RunAccumulates<T>(default: seq<T>, attempts: seq<Attempt<T>>)
    ensures Run(Accumulator(false, default), attempts) ==
            if Successes(attempts) == [] then Accumulator(false, default)
            else Accumulator(true, Successes(attempts))
  {
    if attempts != [] {
      RunAccumulates(default, attempts[..|attempts| - 1]);
    }
  }

  lemma NoAttempts<T>(acc: Accumulator<T>, attempts: seq<Attempt<T>>)
    requires attempts == []
    ensures Run(acc, attempts) == acc
  {}

  lemma {:induction false} RunConcat<T>(acc: Accumulator<T>, a: seq<Attempt<T>>, b: seq<Attempt<T>>)
    ensures Run(acc, a + b) == Run(Run(acc, a), b)
  {
    if b == [] {
      assert a + b == a;
    } else {
      assert (a + b)[..|a + b| - 1] == a + b[..|b| - 1];
      RunConcat(acc, a, b[..|b| - 1]);
    }
  }

  lemma RunSingle<T>(acc: Accumulator<T>, a: Attempt<T>)
    ensures Run(acc, [a]) == Accumulate(acc, a)
  {
    assert [a][..0] == [];
  }

  lemma {:induction false} SuccessesConcat<T>(a: seq<Attempt<T>>, b: seq<Attempt<T>>)
    ensures Successes(a + b) == Successes(a) + Successes(b)
  {
    if b == [] {
      assert a + b == a;
    } else {
      assert (a + b)[..|a + b| - 1] == a + b[..|b| - 1];
      SuccessesConcat(a, b[..|b| - 1]);
    }
  }

  // ----- requests ----------------------------------------------------------------------------

  /** One call of an array handler: what parsing gave, what the verify hook says of it, how many
  arguments are left, and whether memory can be had. */
  datatype Request<T> = Request(parsed: Option<T>, accepted: bool, argc: nat, allocOk: bool)

  function AttemptOf<T>(r: Request<T>, kept: nat, cap: nat): Attempt<T> {
    Attempt(if r.accepted then r.parsed else None, kept < cap || r.allocOk)
  }

  /** What a run of requests comes to, from `kept` elements that count in a buffer of `cap`:
  memory is needed exactly where the buffer is full. */
  function AttemptsOf<T>(requests: seq<Request<T>>, kept: nat, cap: nat): (attempts: seq<Attempt<T>>)
    ensures |attempts| == |requests|
  {
    if requests == [] then []
    else
      var a := AttemptOf(requests[0], kept, cap);
      [a] + if Succeeds(a) then AttemptsOf(requests[1..], kept + 1, NextCap(cap, kept, requests[0].argc))
            else AttemptsOf(requests[1..], kept, cap)
  }

  /** The first request of a run, and what is left to the others. */
  lemma FirstAttempt<T>(requests: seq<Request<T>>, acc: Accumulator<T>, kept: nat, cap: nat)
    requires requests != []
    ensures var a := AttemptOf(requests[0], kept, cap);
      Run(acc, AttemptsOf(requests, kept, cap)) ==
      Run(Accumulate(acc, a),
          if Succeeds(a) then AttemptsOf(requests[1..], kept + 1, NextCap(cap, kept, requests[0].argc))
          else AttemptsOf(requests[1..], kept, cap))
  {
    var a := AttemptOf(requests[0], kept, cap);
    RunConcat(acc, [a], AttemptsOf(requests, kept, cap)[1..]);
    RunSingle(acc, a);
  }

  function NextCap(cap: nat, kept: nat, argc: nat): nat {
    if kept < cap then cap else GrownCap(cap, kept, argc)
  }

  // ----- the growable array ------------------------------------------------------------------

  class ArrayValue<T(0)> {
    var p: array?<T>
    var cap: nat
    var len: nat
    ghost var freed: set<array<T>>

    ghost predicate Valid()
      reads this
    {
      && (p != null ==> p !in freed)
      && (cap > 0 ==> p != null && p.Length == cap && len <= cap)
      && (len > 0 ==> p != null && len <= p.Length)
    }

    ghost function Contents(): seq<T>
      reads this, p
      requires Valid()
    {
      if len == 0 then [] else p[..len]
    }

    /** The buffer that a store may write: an owned one, never the default's. */
    ghost function Owned(): set<array<T>>
      reads this
      requires Valid()
    {
      if cap > 0 then {p} else {}
    }

    constructor (p: array?<T>, cap: nat, len: nat)
      requires cap > 0 ==> p != null && p.Length == cap && len <= cap
      requires len > 0 ==> p != null && len <= p.Length
      ensures Valid() && this.p == p && this.cap == cap && this.len == len && freed == {}
    {
      this.p, this.cap, this.len, this.freed := p, cap, len, {};
    }
  }

  /** The capacity gropw asks for, when it has to grow. */
  function GrownCap(cap: nat, len: nat, argc: nat): (c: nat)
    ensures len + 1 <= c
    ensures c <= len + 1 + argc
    ensures c == len + 1 + argc || c >= 2 * cap
  {
    var n := if cap > 0 then 1 else 1 + len;
    var wanted :=
      if cap == 0 && n < 64 then 64
      else
        var doubled := 2 * (if cap > 0 then cap else 64);
        if len + n >= doubled then len + n else doubled;
    if wanted > argc + 1 + len then argc + 1 + len
    else if wanted < len + 1 then len + 1
    else wanted
  }

  function Min(a: nat, b: nat): nat {
    if a < b then a else b
  }

  /** The first buffer has 64 places, a later one twice as many as before; a long default asks for
  more; and none has more than all remaining arguments could fill. */
  lemma GrownCapIs(cap: nat, len: nat, argc: nat)
    requires cap > 0 ==> len == cap
    ensures GrownCap(cap, len, argc) == Min(len + 1 + argc, if cap > 0 then 2 * cap
                                                            else if len <= 62 then 64
                                                            else if len <= 63 then 128
                                                            else 2 * len + 1)
  {}

  /** The capacity, step by step, when `n` more elements are wanted than there is room for. */
  method AskedCap(cap: nat, len: nat, n: nat, argc: nat) returns (newCap: int)
    requires n == if cap > 0 then 1 else 1 + len
    ensures newCap == GrownCap(cap, len, argc)
  {
    newCap := if cap > 0 then cap else 64;
    if cap == 0 && n < 64 {
      newCap := 64;
    } else {
      var c := len + n;
      newCap := newCap * 2;
      if c >= newCap {
        newCap := c;
      }
    }
    if newCap > argc + 1 + len {
      newCap := argc + 1 + len;
    }
    if newCap < len + 1 {
      newCap := len + 1;
    }
  }

  class ArrayFlag<T(0)> {
    const value: ArrayValue<T>
    var setValue: bool

    constructor (value: ArrayValue<T>)
      ensures this.value == value && !setValue
    {
      this.value, this.setValue := value, false;
    }

    ghost function Abstract(): Accumulator<T>
      reads this, value, value.p
      requires value.Valid()
    {
      Accumulator(setValue, value.Contents())
    }

    /** How much of the array counts: nothing of the default, once the flag appears. */
    ghost function Kept(): nat
      reads this, value
    {
      if setValue then value.len else 0
    }

    ghost predicate HasRoom()
      reads this, value
    {
      Kept() < value.cap
    }

    /** ppp_c_flags_gropw: makes room for one more element, or changes nothing. */
    method Grow(argc: nat, allocOk: bool) returns (ok: bool)
      requires value.Valid()
      modifies this, value
      ensures value.Valid()
      ensures ok == (old(HasRoom()) || allocOk)
      ensures !ok ==> unchanged(this) && unchanged(value)
      ensures ok ==> setValue && value.len == old(Kept()) < value.cap
      ensures ok ==> value.Contents() == old(if setValue then value.Contents() else [])
      ensures ok && old(HasRoom()) ==>
        value.p == old(value.p) && value.cap == old(value.cap) && value.freed == old(value.freed)
      ensures ok && !old(HasRoom()) ==> fresh(value.p) && value.cap == GrownCap(old(value.cap), old(Kept()), argc)
      ensures ok && !old(HasRoom()) ==> value.freed == old(value.freed) + old(value.Owned())
    {
      var p, cap, len := value.p, value.cap, value.len;
      if !setValue {
        len := 0;
      }
      var n: nat := 1;
      var available: nat := 0;
      if cap > 0 {
        available := cap - len;
      } else {
        n := n + len;
      }
      if available < n {
        var newCap := AskedCap(cap, len, n - available, argc);
        if !allocOk {
          return false;
        }
        var ptr := new T[newCap];
        forall k | 0 <= k < len {
          ptr[k] := p[k];
        }
        assert ptr[..len] == if len == 0 then [] else old(p[..len]);
        if cap > 0 {
          value.freed := value.freed + {p};
        }
        p, cap := ptr, newCap;
      }
      value.p, value.cap, value.len := p, cap, len;
      setValue := true;
      return true;
    }

    /** An array handler: parse, verify, grow, store. */
    method Set(parsed: Option<T>, accepted: bool, argc: nat, allocOk: bool) returns (ok: bool)
      requires value.Valid()
      modifies this, value, value.Owned()
      ensures value.Valid()
      ensures ok == (parsed.Some? && accepted && (old(HasRoom()) || allocOk))
      ensures Abstract() ==
              Accumulate(old(Abstract()), Attempt(if accepted then parsed else None, old(HasRoom()) || allocOk))
      ensures !ok ==> unchanged(this) && unchanged(value) && value.Owned() == old(value.Owned())
      ensures !ok ==> forall b <- value.Owned() :: unchanged(b)
      ensures ok ==> setValue && value.len == old(Kept()) + 1 <= value.cap
      ensures ok ==> value.cap == NextCap(old(value.cap), old(Kept()), argc)
      ensures fresh(value.Owned() - old(value.Owned()))
      ensures value.freed == old(value.freed) + if ok && !old(HasRoom()) then old(value.Owned()) else {}
    {
      if parsed.None? || !accepted {
        return false;
      }
      ok := Grow(argc, allocOk);
      if ok {
        value.p[value.len] := parsed.value;
        value.len := value.len + 1;
        assert value.p[..value.len] == value.p[..value.len - 1] + [parsed.value];
      }
    }

    /** A run of sets, across all reallocations: the array has its untouched default, or exactly
    the successful values in order. Buffers are freed only after the run has owned them, and so
    the default's buffer, at capacity 0, is never freed. */
    method SetEach(requests: seq<Request<T>>)
      requires value.Valid()
      modifies this, value, value.Owned()
      ensures value.Valid()
      ensures var attempts := AttemptsOf(requests, old(Kept()), old(value.cap));
        && Abstract() == Run(old(Abstract()), attempts)
        && (!old(setValue) ==>
              Abstract() == if Successes(attempts) == [] then old(Abstract())
                            else Accumulator(true, Successes(attempts)))
      ensures setValue && !old(setValue) ==> 0 < value.len <= value.cap
      ensures fresh(value.Owned() - old(value.Owned()))
      ensures old(value.freed) <= value.freed && fresh(value.freed - old(value.freed) - old(value.Owned()))
      ensures old(value.cap == 0 && value.p != null) ==> old(value.p) !in value.freed
    {
      hide Accumulate, Run, AttemptsOf, NextCap, Successes;
      ghost var all := AttemptsOf(requests, Kept(), value.cap);
      assert requests[0..] == requests;
      var i := 0;
      while i < |requests|
        invariant i <= |requests| && value.Valid()
        invariant Run(Abstract(), AttemptsOf(requests[i..], Kept(), value.cap)) == Run(old(Abstract()), all)
        invariant setValue && !old(setValue) ==> 0 < value.len <= value.cap
        invariant fresh(value.Owned() - old(value.Owned()))
        invariant old(value.freed) <= value.freed && fresh(value.freed - old(value.freed) - old(value.Owned()))
      {
        var r := requests[i];
        FirstAttempt(requests[i..], Abstract(), Kept(), value.cap);
        assert requests[i..][1..] == requests[i + 1..];
        var ok := Set(r.parsed, r.accepted, r.argc, r.allocOk);
        i := i + 1;
      }
      NoAttempts(Abstract(), AttemptsOf(requests[i..], Kept(), value.cap));
      if !old(setValue) {
        RunAccumulates(old(value.Contents()), all);
      }
    }
  }
}
