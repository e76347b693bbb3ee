/** Flags, the variables they set, and the set_flag handlers. */
module Flags {
  import opened Text
  import opened Widths
  import opened ParseUint
  import opened ParseInt
  import opened GrowArray
  import opened Wrappers
  import opened Underscore
  import Numbers

  type Width = w: nat | w == 8 || w == 16 || w == 32 || w == 64 witness 8

  datatype Kind = Bool | Int(width: Width) | Uint(width: Width) | Str

  datatype Atom = Truth(b: bool) | Number(n: int) | Word(s: string)

  datatype Val = Scalar(atom: Atom) | Array(items: seq<Atom>)

  const NO_SHORT: char := '\0'

  /** A registered flag. `id` stands for its address, `target` for the variable it was
  registered with; flags may share a target. `accepts` is the verify hook. */
  datatype Flag = Flag(id: nat, name: string, short: char, kind: Kind, isArray: bool, target: nat,
                       accepts: (Val, Atom) -> bool)

  /** The user's variables, and which flags have been set (`_set_value`). */
  datatype Store = Store(vars: map<nat, Val>, touched: set<nat>)

  function Current(st: Store, target: nat): Val {
    if target in st.vars then st.vars[target] else Array([])
  }

  function ItemsOf(v: Val): seq<Atom> {
    if v.Array? then v.items else []
  }

  // ----- parsing one value --------------------------------------------------------------------

  ghost function ParseAtom(k: Kind, text: string): Option<Atom> {
    match k
    case Bool => if ParseBool(text) == -1 then None else Some(Truth(ParseBool(text) == 1))
    case Int(w) => (match ParseIntResult(text, 0, w) case Ok(v) => Some(Number(v)) case _ => None)
    case Uint(w) => (match ParseUintSpec(text, 0, w) case Ok(v) => Some(Number(v)) case _ => None)
    case Str => Some(Word(text))
  }

  /** An unsigned flag takes the well-formed numbers of its width, and refuses everything else. */
  lemma UintAtomIs(w: Width, t: string)
    ensures ParseAtom(Uint(w), t) ==
            if Numbers.WellFormed(t, 0) && Numbers.NumberOf(t, 0) <= Pow2(w) - 1
            then Some(Number(Numbers.NumberOf(t, 0)))
            else None
  {
    if Numbers.WellFormed(t, 0) {
      Numbers.ParseUintIsExact(t, 0, w);
    }
  }

  /** And so does a signed flag. */
  lemma IntAtomIs(w: Width, t: string)
    ensures ParseAtom(Int(w), t) ==
            if Numbers.WellFormed(Unsigned(t), 0) && 0 - Pow2(w - 1) <= Numbers.SignedNumberOf(t, 0) <= Pow2(w - 1) - 1
            then Some(Number(Numbers.SignedNumberOf(t, 0)))
            else None
  {
    if Numbers.WellFormed(Unsigned(t), 0) {
      Numbers.ParseIntIsExact(t, 0, w);
    }
  }

  lemma BoolAtomIs(t: string)
    ensures ParseAtom(Bool, t) ==
            if t in {"1", "t", "T", "true", "TRUE", "True"} then Some(Truth(true))
            else if t in {"0", "f", "F", "false", "FALSE", "False"} then Some(Truth(false))
            else None
  {
    if |t| == 1 {
      assert t == [t[0]];
    }
  }

  /** The assignment of a 64-bit result to a narrower signed variable. */
  function NarrowSigned(v: int, width: nat): int
    requires width >= 1
  {
    (v + Pow2(width - 1)) % Pow2(width) - Pow2(width - 1)
  }

  function NarrowUnsigned(v: int, width: nat): int {
    v % Pow2(width)
  }

  lemma ModIsIdentity(x: int, m: int)
    requires 0 <= x < m
    ensures x % m == x
  {}

  lemma NarrowIsIdentity(v: int, width: nat)
    requires 1 <= width <= 64 && Lowest(width) <= v <= Highest(width)
    ensures NarrowSigned(v, width) == v
  {
    assert Pow2(width) == 2 * Pow2(width - 1);
    ModIsIdentity(v + Pow2(width - 1), Pow2(width));
  }

  /** The bit size handed to the parser makes the narrowing casts lossless. */
  lemma SignedCastIsLossless(text: string, width: Width)
    ensures var r := ParseIntResult(text, 0, width); r.Ok? ==> NarrowSigned(r.value, width) == r.value
  {
    var r := ParseIntResult(text, 0, width);
    OkIsInRange(text, 0, width);
    if r.Ok? {
      NarrowIsIdentity(r.value, width);
    }
  }

  lemma UnsignedCastIsLossless(text: string, width: Width)
    ensures var r := ParseUintSpec(text, 0, width); r.Ok? ==> NarrowUnsigned(r.value, width) == r.value
  {
    ValueInRange(text, 0, width);
    var r := ParseUintSpec(text, 0, width);
    if r.Ok? {
      ModIsIdentity(r.value, Pow2(width));
    }
  }

  method ReadAtom(k: Kind, text: string) returns (a: Option<Atom>)
    ensures a == ParseAtom(k, text)
  {
    match k
    case Bool =>
      var b := ParseBool(text);
      a := if b == -1 then None else Some(Truth(b == 1));
    case Int(w) =>
      var r := ParseInt64(text, 0, w);
      SignedCastIsLossless(text, w);
      a := if r.Ok? then Some(Number(NarrowSigned(r.value, w))) else None;
    case Uint(w) =>
      var r := ParseUint64(text, 0, w);
      UnsignedCastIsLossless(text, w);
      a := if r.Ok? then Some(Number(NarrowUnsigned(r.value, w))) else None;
    case Str =>
      a := Some(Word(text));
  }

  // ----- setting a flag --------------------------------------------------------------------------

  ghost function ParsedAttempt(f: Flag, text: string, room: bool, st: Store): Attempt<Atom> {
    var a := ParseAtom(f.kind, text);
    Attempt(if a.Some? && f.accepts(Current(st, f.target), a.value) then a else None, room)
  }

  /** set_flag: the new store, or none when the value is refused; `room` says whether an
  array flag can make room for one more element. */
  ghost function SetFlag(f: Flag, text: string, room: bool, st: Store): Option<Store> {
    match ParseAtom(f.kind, text)
    case None => None
    case Some(a) =>
      if !f.accepts(Current(st, f.target), a) then None
      else if !f.isArray then Some(st.(vars := st.vars[f.target := Scalar(a)]))
      else if !room then None
      else
        var items := if f.id in st.touched then ItemsOf(Current(st, f.target)) else [];
        Some(Store(st.vars[f.target := Array(items + [a])], st.touched + {f.id}))
  }

  ghost function ArrayView(f: Flag, st: Store): Accumulator<Atom> {
    Accumulator(f.id in st.touched, ItemsOf(Current(st, f.target)))
  }

  /** On an array flag, set_flag is one use of the growable array. */
  lemma ArraySetIsUse(f: Flag, text: string, room: bool, st: Store)
    requires f.isArray && Current(st, f.target).Array?
    ensures var attempt := ParsedAttempt(f, text, room, st); var r := SetFlag(f, text, room, st);
      && (r.Some? <==> Succeeds(attempt))
      && ArrayView(f, if r.Some? then r.value else st) == Accumulate(ArrayView(f, st), attempt)
  {}

  /** Setting a flag touches its own variable and no other flag's. */
  lemma SetFlagFrame(f: Flag, text: string, room: bool, st: Store, g: Flag)
    requires g.target != f.target && g.id != f.id && SetFlag(f, text, room, st).Some?
    ensures var st1 := SetFlag(f, text, room, st).value;
      Current(st1, g.target) == Current(st, g.target) && (g.id in st1.touched <==> g.id in st.touched)
  {}

  method DoSetFlag(f: Flag, text: string, room: bool, st: Store) returns (r: Option<Store>)
    ensures r == SetFlag(f, text, room, st)
  {
    var a := ReadAtom(f.kind, text);
    if a.None? || !f.accepts(Current(st, f.target), a.value) {
      return None;
    }
    if !f.isArray {
      return Some(st.(vars := st.vars[f.target := Scalar(a.value)]));
    }
    if !room {
      return None;
    }
    var items := if f.id in st.touched then ItemsOf(Current(st, f.target)) else [];
    return Some(Store(st.vars[f.target := Array(items + [a.value])], st.touched + {f.id}));
  }

  // ----- values survive printing -------------------------------------------------------------------

  predicate Fits(a: Atom, k: Kind) {
    match k
    case Bool => a.Truth?
    case Int(w) => a.Number? && Lowest(w) <= a.n <= Highest(w)
    case Uint(w) => a.Number? && 0 <= a.n <= Pow2(w) - 1
    case Str => a.Word?
  }

  /** A value as a user would write it. */
  function Show(a: Atom, n: Numbers.Notation): string
    requires Numbers.Legal(n)
  {
    match a
    case Truth(b) => if b then "true" else "false"
    case Number(v) => Numbers.WriteSigned(v, false, n)
    case Word(s) => s
  }

  lemma ShownValuesAreReadBack(a: Atom, k: Kind, n: Numbers.Notation)
    requires Fits(a, k) && Numbers.Legal(n) && !n.Plain?
    ensures ParseAtom(k, Show(a, n)) == Some(a)
  {
    match k
    case Bool =>
    case Int(w) => Numbers.IntRoundTrip(a.n, false, n, w);
    case Uint(w) =>
      assert Numbers.WriteSigned(a.n, false, n) == Numbers.Write(a.n, n);
      Numbers.UintRoundTrip(a.n, n, w);
    case Str =>
  }
}
