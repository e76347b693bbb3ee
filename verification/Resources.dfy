/** Acquiring and releasing what the balancer and its workers own. A resource can be acquired
only while it is not live and released only while it is, so that every call below is a
proof of no leak by overwriting and no double release. */
module Resources {

  datatype Resource =
    | WorkersBlock
    | BalancerMutex
    | Mutex(w: nat)
    | Base(w: nat)
    | Http(w: nat)
    | Event(w: nat)

  /** The calls that may fail. */
  datatype Call =
    | MallocWorkers
    | InitBalancerMutex
    | InitMutex(w: nat)
    | NewBase(w: nat)
    | NewHttp(w: nat)
    | NewEvent(w: nat)
    | AddEvent(w: nat)
    | CreateThread(w: nat)

  type Fate = Call -> bool

  /** The pointers of one worker_t: whether each is set. */
  datatype WorkerFields = WorkerFields(base: bool, http: bool, ev: bool, id: nat)

  const ZEROED := WorkerFields(false, false, false, 0)

  ghost function ResourcesOf(w: nat): set<Resource> {
    {Mutex(w), Base(w), Http(w), Event(w)}
  }

  /** The resources of the workers below `n`. */
  ghost function UpTo(n: nat): set<Resource> {
    if n == 0 then {} else UpTo(n - 1) + ResourcesOf(n - 1)
  }

  /** Nobody else's resource is among them. */
  lemma {:induction false} AboveUpTo(i: nat, n: nat)
    requires i <= n
    ensures ResourcesOf(n) !! UpTo(i) && WorkersBlock !in UpTo(i) && BalancerMutex !in UpTo(i)
  {
    if i > 0 {
      AboveUpTo(i - 1, n);
    }
  }

  lemma {:induction false} UpToGrows(i: nat, n: nat)
    requires i < n
    ensures ResourcesOf(i) <= UpTo(n)
  {
    if i < n - 1 {
      UpToGrows(i, n - 1);
    }
  }

  predicate WorkerCallsSucceed(fails: Fate, w: nat) {
    && !fails(InitMutex(w)) && !fails(NewBase(w)) && !fails(NewHttp(w))
    && !fails(NewEvent(w)) && !fails(AddEvent(w)) && !fails(CreateThread(w))
  }

  ghost predicate AllSucceed(fails: Fate, count: nat) {
    && !fails(MallocWorkers) && !fails(InitBalancerMutex)
    && forall w: nat :: w < count ==> WorkerCallsSucceed(fails, w)
  }

  /** A call that concerns the balancer, or a worker that it has. */
  predicate Concerns(call: Call, count: nat) {
    call.MallocWorkers? || call.InitBalancerMutex? || call.w < count
  }

  lemma AllCalls(fails: Fate, count: nat)
    ensures AllSucceed(fails, count) <==> forall call :: Concerns(call, count) ==> !fails(call)
  {
    if AllSucceed(fails, count) {
      forall call | Concerns(call, count) ensures !fails(call) {
        assert call.MallocWorkers? || call.InitBalancerMutex? || WorkerCallsSucceed(fails, call.w);
      }
    } else if forall call :: Concerns(call, count) ==> !fails(call) {
      assert Concerns(MallocWorkers, count) && Concerns(InitBalancerMutex, count);
      forall w: nat | w < count ensures WorkerCallsSucceed(fails, w) {
        assert Concerns(InitMutex(w), count) && Concerns(NewBase(w), count) && Concerns(NewHttp(w), count);
        assert Concerns(NewEvent(w), count) && Concerns(AddEvent(w), count) && Concerns(CreateThread(w), count);
      }
    }
  }

  /** What belongs to the workers below `n` is every resource with such a number. */
  lemma {:induction false} UpToIs(n: nat, r: Resource)
    ensures r in UpTo(n) <==> !r.WorkersBlock? && !r.BalancerMutex? && r.w < n
  {
    if n > 0 {
      UpToIs(n - 1, r);
    }
  }

  lemma EverythingIs(n: nat)
    ensures forall r :: r in {WorkersBlock, BalancerMutex} + UpTo(n) <==> r.WorkersBlock? || r.BalancerMutex? || r.w < n
  {
    forall r ensures r in UpTo(n) <==> !r.WorkersBlock? && !r.BalancerMutex? && r.w < n {
      UpToIs(n, r);
    }
  }

  class Balancer {
    const worker: nat
    var hasWorkers: bool              // `_workers` is not null
    var workers: seq<WorkerFields>
    ghost var live: set<Resource>

    constructor (worker: nat)
      ensures this.worker == worker && !hasWorkers && live == {}
    {
      this.worker, hasWorkers, workers, live := worker, false, [], {};
    }

    /** The state after a successful init. */
    ghost predicate Ready()
      reads this
    {
      && hasWorkers && |workers| == worker
      && (forall w :: 0 <= w < worker ==> workers[w] == WorkerFields(true, true, true, w))
      && live == {WorkersBlock, BalancerMutex} + UpTo(worker)
    }

    /** An http server and an event need the base they are made for. */
    ghost predicate Usable(r: Resource)
      reads this
    {
      r.Http? || r.Event? ==> Base(r.w) in live
    }

    /** Nothing that lives in this resource, or needs it, is live. */
    ghost predicate Unused(r: Resource)
      reads this
    {
      && (r.Base? ==> Http(r.w) !in live && Event(r.w) !in live)
      && (r.WorkersBlock? ==> live <= {WorkersBlock, BalancerMutex})
    }

    method Acquire(r: Resource)
      requires r !in live && Usable(r)
      modifies `live
      ensures live == old(live) + {r}
    {
      live := live + {r};
    }

    method Release(r: Resource)
      requires r in live && Unused(r)
      modifies `live
      ensures live == old(live) - {r}
    {
      live := live - {r};
    }

    /** The FAIL label of worker_init: whatever has been acquired is released. */
    method Rollback(w: nat)
      requires w < |workers| && Mutex(w) in live
      requires Event(w) in live <==> workers[w].ev
      requires Http(w) in live <==> workers[w].http
      requires Base(w) in live <==> workers[w].base
      modifies `workers, `live
      ensures live == old(live) - ResourcesOf(w)
      ensures workers == old(workers)[w := WorkerFields(false, false, false, old(workers[w].id))]
    {
      Release(Mutex(w));
      if workers[w].ev {
        Release(Event(w));
        workers := workers[w := workers[w].(ev := false)];
      }
      if workers[w].http {
        Release(Http(w));
        workers := workers[w := workers[w].(http := false)];
      }
      if workers[w].base {
        Release(Base(w));
        workers := workers[w := workers[w].(base := false)];
      }
    }

    /** libevent_http_serve_worker_init. */
    method WorkerInit(w: nat, fails: Fate) returns (ok: bool)
      requires w < |workers| && workers[w] == ZEROED && live !! ResourcesOf(w)
      modifies `workers, `live
      ensures ok == WorkerCallsSucceed(fails, w)
      ensures ok ==> live == old(live) + ResourcesOf(w)
      ensures ok ==> workers == old(workers)[w := WorkerFields(true, true, true, 0)]
      ensures !ok ==> live == old(live) && workers == old(workers)
    {
      if fails(InitMutex(w)) {
        return false;
      }
      Acquire(Mutex(w));
      ok := false;
      if !fails(NewBase(w)) {
        Acquire(Base(w));
        workers := workers[w := workers[w].(base := true)];
        if !fails(NewHttp(w)) {
          Acquire(Http(w));
          workers := workers[w := workers[w].(http := true)];
          if !fails(NewEvent(w)) {
            Acquire(Event(w));
            workers := workers[w := workers[w].(ev := true)];
            ok := !fails(AddEvent(w)) && !fails(CreateThread(w));
          }
        }
      }
      if ok {
        assert workers == old(workers)[w := WorkerFields(true, true, true, 0)];
      } else {
        Rollback(w);
      }
    }

    /** libevent_http_serve_worker_destroy. */
    method WorkerDestroy(w: nat)
      requires w < |workers| && (workers[w].base ==> ResourcesOf(w) <= live)
      modifies `workers, `live
      ensures old(workers[w].base) ==>
        && live == old(live) - ResourcesOf(w)
        && workers == old(workers)[w := WorkerFields(false, false, false, old(workers[w].id))]
      ensures !old(workers[w].base) ==> live == old(live) && workers == old(workers)
    {
      if workers[w].base {
        Release(Mutex(w));
        Release(Event(w));
        workers := workers[w := workers[w].(ev := false)];
        Release(Http(w));
        workers := workers[w := workers[w].(http := false)];
        Release(Base(w));
        workers := workers[w := workers[w].(base := false)];
      }
    }

    /** Destroys the first `n` workers, all of which are up. */
    method DestroyUpTo(n: nat)
      requires n <= |workers| && (forall w :: 0 <= w < n ==> workers[w].base) && UpTo(n) <= live
      modifies `workers, `live
      ensures live == old(live) - UpTo(n)
    {
      ghost var workers0, live0 := workers, live;
      var j := 0;
      while j < n
        invariant 0 <= j <= n && |workers| == |workers0| && workers[j..] == workers0[j..]
        invariant live == live0 - UpTo(j)
      {
        assert workers[j] == workers[j..][0] == workers0[j..][0] == workers0[j];
        UpToGrows(j, n);
        AboveUpTo(j, j);
        assert ResourcesOf(j) <= live;
        WorkerDestroy(j);
        assert UpTo(j + 1) == UpTo(j) + ResourcesOf(j);
        j := j + 1;
      }
    }

    method StartWorker(i: nat, fails: Fate) returns (up: bool)
      requires i < |workers| && workers[i] == ZEROED && live !! ResourcesOf(i)
      modifies `workers, `live
      ensures up == WorkerCallsSucceed(fails, i)
      ensures up ==> live == old(live) + ResourcesOf(i)
      ensures up ==> workers == old(workers)[i := WorkerFields(true, true, true, i)]
      ensures !up ==> live == old(live) && workers == old(workers)
    {
      up := WorkerInit(i, fails);
      if up {
        workers := workers[i := workers[i].(id := i)];
      }
    }

    /** The loop of init: the workers below `i` are up, and worker `i` failed if `i` is not the last. */
    method StartWorkers(fails: Fate) returns (i: nat)
      requires |workers| == worker && forall w :: 0 <= w < worker ==> workers[w] == ZEROED
      requires forall r <- live :: r == WorkersBlock || r == BalancerMutex
      modifies `workers, `live
      ensures i <= worker == |workers| && live == old(live) + UpTo(i)
      ensures forall w :: 0 <= w < i ==> workers[w] == WorkerFields(true, true, true, w)
      ensures forall w: nat :: w < i ==> WorkerCallsSucceed(fails, w)
      ensures i < worker ==> !WorkerCallsSucceed(fails, i)
    {
      ghost var live0 := live;
      i := 0;
      while i < worker
        invariant 0 <= i <= worker == |workers| && live == live0 + UpTo(i)
        invariant forall w :: 0 <= w < i ==> workers[w] == WorkerFields(true, true, true, w)
        invariant forall w :: i <= w < worker ==> workers[w] == ZEROED
        invariant forall w: nat :: w < i ==> WorkerCallsSucceed(fails, w)
      {
        AboveUpTo(i, i);
        var up := StartWorker(i, fails);
        if !up {
          return;
        }
        i := i + 1;
      }
    }

    /** load_balancer_init: everything is acquired, or nothing stays acquired. */
    method Init(fails: Fate) returns (ok: bool)
      requires !hasWorkers && live == {}
      modifies this
      ensures ok <==> forall call :: Concerns(call, worker) ==> !fails(call)
      ensures if ok then Ready() else !hasWorkers && live == {}
      ensures ok ==> forall r :: r in live <==> r.WorkersBlock? || r.BalancerMutex? || r.w < worker
    {
      hide UpTo, Concerns, WorkerCallsSucceed;
      AllCalls(fails, worker);
      if fails(MallocWorkers) {
        return false;
      }
      Acquire(WorkersBlock);
      hasWorkers := true;
      if fails(InitBalancerMutex) {
        Release(WorkersBlock);
        hasWorkers := false;
        return false;
      }
      Acquire(BalancerMutex);
      workers := seq(worker, _ => ZEROED);
      var i := StartWorkers(fails);
      AboveUpTo(i, i);
      if i < worker {
        DestroyUpTo(i);
        Release(WorkersBlock);
        hasWorkers := false;
        Release(BalancerMutex);
        return false;
      }
      EverythingIs(worker);
      return true;
    }

    /** load_balancer_destroy: after an init, everything but the balancer's own mutex is
    released; a second call, or a call after a failed init, does nothing. */
    method Destroy()
      requires hasWorkers ==> Ready()
      modifies this
      ensures !hasWorkers
      ensures live == if old(hasWorkers) then {BalancerMutex} else old(live)
    {
      if hasWorkers {
        AboveUpTo(worker, worker);
        DestroyUpTo(worker);
        Release(WorkersBlock);
        hasWorkers := false;
      }
    }
  }
}
