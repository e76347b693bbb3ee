/** The buffers of several array variables: a run of sets keeps them live and apart, which is
what destroying the registry relies on. */
module Buffers {
  import opened GrowArray
  import Teardown

  /** No grown buffer belongs to two variables, or has been freed by any. */
  ghost predicate Apart<T(0)>(values: set<ArrayValue<T>>)
    reads values
  {
    && (forall v <- values :: v.Valid())
    && (forall v <- values, w <- values :: v != w ==> v.Owned() !! w.Owned() && v.Owned() !! w.freed)
  }

  /** So it is to begin with: the program's own buffers, at capacity 0, do not count. */
  lemma DefaultsAreApart<T(0)>(values: set<ArrayValue<T>>)
    requires forall v <- values :: v.Valid() && v.cap == 0
    ensures Apart(values)
  {}

  /** A run of sets on one of several variables. */
  method SetEachAmong<T(0)>(values: set<ArrayValue<T>>, flag: ArrayFlag<T>, requests: seq<Request<T>>)
    requires flag.value in values && Apart(values)
    modifies flag, flag.value, flag.value.Owned()
    ensures Apart(values)
    ensures flag.Abstract() == Run(old(flag.Abstract()), AttemptsOf(requests, old(flag.Kept()), old(flag.value.cap)))
    ensures forall w <- values :: w != flag.value ==> unchanged(w) && (w.cap > 0 ==> unchanged(w.p))
  {
    flag.SetEach(requests);
    forall v <- values, w <- values | v != w
      ensures v.Owned() !! w.Owned() && v.Owned() !! w.freed
    {
      assert old(v.Owned() !! w.Owned() && v.Owned() !! w.freed && w.Owned() !! v.freed);
    }
  }

  /** An array variable as destroy sees it, its buffer at address `at`. */
  ghost function Variable<T(0)>(v: ArrayValue<T>, at: map<array<T>, nat>): Teardown.ArrayVariable
    reads v
    requires v.Valid() && v.Owned() <= at.Keys
  {
    Teardown.ArrayVariable(if v.cap > 0 then at[v.p] else 0, v.cap, v.len)
  }

  ghost predicate Located<T(0)>(variables: map<nat, ArrayValue<T>>, at: map<array<T>, nat>)
    reads variables.Values
  {
    && (forall t <- variables :: variables[t].Valid() && variables[t].Owned() <= at.Keys)
    && (forall b, c :: b in at && c in at && b != c ==> at[b] != at[c])
    && (forall t, u :: t in variables && u in variables && t != u ==> variables[t] != variables[u])
  }

  /** Variables whose buffers are apart can be handed to destroy. */
  lemma ApartIsOk<T(0)>(variables: map<nat, ArrayValue<T>>, at: map<array<T>, nat>)
    requires Located(variables, at) && Apart(variables.Values)
    ensures Teardown.ArraysOk(map t <- variables :: Variable(variables[t], at),
                              set t <- variables | variables[t].cap > 0 :: Variable(variables[t], at).buffer)
  {
    forall t, u | t in variables && u in variables && t != u && variables[t].cap > 0 && variables[u].cap > 0
      ensures at[variables[t].p] != at[variables[u].p]
    {
      var v, w := variables[t], variables[u];
      assert v in variables.Values && w in variables.Values;
      assert v.p in v.Owned() && w.p in w.Owned();
    }
  }
}
