/** Connection dispatch as a system of small steps: one acceptor, W workers, a lock and a
wake-up flag per worker. A run is any interleaving of the steps below.

Assumed of libevent: event_active marks the worker's event pending, whatever the worker is
doing; an idle event loop runs the callback of a pending event after clearing the mark; the
yearly timer may run the callback at any idle moment. */
module Dispatch {
  import opened Division
  import opened Wrappers

  /** Connections are named by the order in which they were accepted. */
  type Conn = nat

  /** Where a worker is in worker_on_ev. */
  datatype WorkerPc =
    | Idle                    // in the event loop
    | Locking                 // at pthread_mutex_lock
    | Testing                 // holds the lock, has not looked at the list
    | UnlockEmpty             // found the list empty
    | UnlockGot(conn: Conn)   // has taken a connection off the list
    | Serving(conn: Conn)
    | Freeing(conn: Conn)

  /** Where the acceptor is in load_balancer_serve, with the worker it has picked. */
  datatype AcceptorPc =
    | Ready
    | Locking(w: nat, conn: Conn)
    | Appending(w: nat, conn: Conn)
    | Unlocking(w: nat)
    | Activating(w: nat)

  datatype Lock = Free | ByAcceptor | ByWorker

  datatype Worker = Worker(pc: WorkerPc, queue: seq<Conn>, lock: Lock, pending: bool,
                           served: seq<Conn>, freed: seq<Conn>)

  datatype Balance = Round | Random

  /** `hist` records, connection by connection, the worker it was published to. */
  datatype System = System(balance: Balance, workers: seq<Worker>, acceptor: AcceptorPc,
                           index: nat, picks: nat, hist: seq<nat>)

  datatype Step =
    | Pick(choice: nat)       // a connection arrives; `choice` is what rand() yields
    | Accept                  // the acceptor's next step for the connection in hand
    | Wake(w: nat)            // the event loop dispatches a pending event
    | Timer(w: nat)           // the event loop runs the callback for its timer
    | Work(w: nat)            // the worker's next step inside the callback

  function Start(balance: Balance, count: nat): System {
    System(balance, seq(count, _ => Worker(Idle, [], Free, false, [], [])), Ready, 0, 0, [])
  }

  /** `++_i == worker ? 0 : _i`, on a uint8_t. */
  function NextIndex(index: nat, count: nat): nat {
    var i := (index + 1) % 256;
    if i == count then 0 else i
  }

  function Update(s: System, w: nat, worker: Worker): System
    requires w < |s.workers|
  {
    s.(workers := s.workers[w := worker])
  }

  /** The acceptor. */
  function DoAccept(s: System): Option<System> {
    match s.acceptor
    case Ready => None
    case Locking(w, c) =>
      if w < |s.workers| && s.workers[w].lock == Free then
        Some(Update(s, w, s.workers[w].(lock := ByAcceptor)).(acceptor := Appending(w, c)))
      else None
    case Appending(w, c) =>
      if w < |s.workers| then
        var k := s.workers[w];
        Some(Update(s, w, k.(queue := k.queue + [c])).(acceptor := Unlocking(w), hist := s.hist + [w]))
      else None
    case Unlocking(w) =>
      if w < |s.workers| then Some(Update(s, w, s.workers[w].(lock := Free)).(acceptor := Activating(w))) else None
    case Activating(w) =>
      if w < |s.workers| then Some(Update(s, w, s.workers[w].(pending := true)).(acceptor := Ready)) else None
  }

  function DoPick(s: System, choice: nat): Option<System> {
    if s.acceptor != Ready || s.workers == [] then None
    else
      match s.balance
      case Round =>
        var next := NextIndex(s.index, |s.workers|);
        Some(s.(acceptor := AcceptorPc.Locking(s.index, s.picks), index := next, picks := s.picks + 1))
      case Random => Some(s.(acceptor := AcceptorPc.Locking(choice % |s.workers|, s.picks), picks := s.picks + 1))
  }

  /** One worker, inside its callback. */
  function DoWork(k: Worker): Option<Worker> {
    match k.pc
    case Idle => None
    case Locking => if k.lock == Free then Some(k.(pc := Testing, lock := ByWorker)) else None
    case Testing =>
      if k.queue == [] then Some(k.(pc := UnlockEmpty))
      else Some(k.(pc := UnlockGot(k.queue[0]), queue := k.queue[1..]))
    case UnlockEmpty => Some(k.(pc := Idle, lock := Free))
    case UnlockGot(c) => Some(k.(pc := Serving(c), lock := Free))
    case Serving(c) => Some(k.(pc := Freeing(c), served := k.served + [c]))
    case Freeing(c) => Some(k.(pc := WorkerPc.Locking, freed := k.freed + [c]))
  }

  function DoWorker(s: System, w: nat, k: Option<Worker>): Option<System>
    requires w < |s.workers|
  {
    if k.None? then None else Some(Update(s, w, k.value))
  }

  /** The state after a step, or none when the step is not enabled. */
  function Do(s: System, step: Step): Option<System> {
    match step
    case Pick(choice) => DoPick(s, choice)
    case Accept => DoAccept(s)
    case Wake(w) =>
      if w < |s.workers| && s.workers[w].pc == Idle && s.workers[w].pending
      then Some(Update(s, w, s.workers[w].(pc := WorkerPc.Locking, pending := false))) else None
    case Timer(w) =>
      if w < |s.workers| && s.workers[w].pc == Idle
      then Some(Update(s, w, s.workers[w].(pc := WorkerPc.Locking))) else None
    case Work(w) => if w < |s.workers| then DoWorker(s, w, DoWork(s.workers[w])) else None
  }

  /** The state after a whole schedule, or none when some step of it is not enabled. */
  function Run(s: System, steps: seq<Step>): Option<System> {
    if steps == [] then Some(s)
    else
      match Run(s, steps[..|steps| - 1])
      case None => None
      case Some(t) => Do(t, steps[|steps| - 1])
  }

  // ----- the invariant ------------------------------------------------------------------------------

  /** The connections published to worker `w`, in order. */
  function Assigned(hist: seq<nat>, w: nat): seq<Conn> {
    if hist == [] then []
    else
      var k := |hist| - 1;
      Assigned(hist[..k], w) + if hist[k] == w then [k] else []
  }

  function InFlight(pc: WorkerPc): seq<Conn> {
    match pc case UnlockGot(c) => [c] case Serving(c) => [c] case _ => []
  }

  function BeingFreed(pc: WorkerPc): seq<Conn> {
    match pc case Freeing(c) => [c] case _ => []
  }

  /** In the drain loop, with another look at the list to come. */
  predicate Draining(pc: WorkerPc) {
    pc.Locking? || pc.Testing? || pc.UnlockGot? || pc.Serving? || pc.Freeing?
  }

  /** No wake-up is lost: whoever leaves something in the list has woken, or will wake, the worker. */
  predicate Awake(k: Worker, acceptor: AcceptorPc, w: nat) {
    k.queue != [] ==> k.pending || Draining(k.pc) || acceptor == Unlocking(w) || acceptor == Activating(w)
  }

  /** Everything published to this worker, in order, is served, in flight or queued. */
  predicate Ordered(k: Worker, hist: seq<nat>, w: nat) {
    && k.served + InFlight(k.pc) + k.queue == Assigned(hist, w)
    && k.freed + BeingFreed(k.pc) == k.served
  }

  /** The list is touched only by the holder of the lock. */
  predicate Exclusive(k: Worker, acceptor: AcceptorPc, w: nat) {
    && (k.lock == ByAcceptor <==> (acceptor.Appending? || acceptor.Unlocking?) && acceptor.w == w)
    && (k.lock == ByWorker <==> k.pc.Testing? || k.pc.UnlockEmpty? || k.pc.UnlockGot?)
  }

  predicate WorkerInv(k: Worker, acceptor: AcceptorPc, hist: seq<nat>, w: nat) {
    && Exclusive(k, acceptor, w) && Ordered(k, hist, w) && Awake(k, acceptor, w)
    && (k.pc == UnlockEmpty ==> k.queue == [])
  }

  /** Connections are published one by one, in the order of their arrival. */
  predicate InOrder(s: System) {
    && (s.acceptor != Ready ==> s.acceptor.w < |s.workers|)
    && (forall k :: 0 <= k < |s.hist| ==> s.hist[k] < |s.workers|)
    && s.picks == |s.hist| + (if s.acceptor.Locking? || s.acceptor.Appending? then 1 else 0)
    && (s.acceptor.Locking? || s.acceptor.Appending? ==> s.acceptor.conn == |s.hist|)
  }

  /** Round robin sends connection `k` to worker `k mod W`. */
  predicate RoundRobin(s: System)
    requires |s.workers| > 0
  {
    s.balance == Round ==>
      && s.index == s.picks % |s.workers|
      && (forall k :: 0 <= k < |s.hist| ==> s.hist[k] == k % |s.workers|)
      && (s.acceptor.Locking? || s.acceptor.Appending? ==> s.acceptor.w == |s.hist| % |s.workers|)
  }

  predicate Inv(s: System) {
    && 1 <= |s.workers| <= 255
    && InOrder(s) && RoundRobin(s)
    && forall w :: 0 <= w < |s.workers| ==> WorkerInv(s.workers[w], s.acceptor, s.hist, w)
  }

  // ----- every step keeps it ----------------------------------------------------------------------------

  lemma AssignedSnoc(hist: seq<nat>, v: nat, w: nat)
    ensures Assigned(hist + [v], w) == Assigned(hist, w) + if v == w then [|hist|] else []
  {
    assert (hist + [v])[..|hist|] == hist;
  }

  lemma WorkKeepsWorkerInv(k: Worker, acceptor: AcceptorPc, hist: seq<nat>, w: nat)
    requires WorkerInv(k, acceptor, hist, w) && DoWork(k).Some?
    ensures WorkerInv(DoWork(k).value, acceptor, hist, w)
  {
    var k1 := DoWork(k).value;
    match k.pc {
      case Testing =>
        if k.queue != [] {
          assert k1.served + InFlight(k1.pc) + k1.queue == k.served + k.queue;
        }
      case Serving(c) =>
        assert k1.served + InFlight(k1.pc) + k1.queue == k.served + [c] + k.queue;
      case _ =>
    }
  }

  lemma AcceptKeepsWorkerInv(s: System, w: nat)
    requires Inv(s) && DoAccept(s).Some? && w < |s.workers|
    ensures var t := DoAccept(s).value; WorkerInv(t.workers[w], t.acceptor, t.hist, w)
  {
    var k := s.workers[w];
    assert WorkerInv(k, s.acceptor, s.hist, w);
    if s.acceptor.Appending? {
      AssignedSnoc(s.hist, s.acceptor.w, w);
      var c := s.acceptor.conn;
      assert k.served + InFlight(k.pc) + (k.queue + [c]) == k.served + InFlight(k.pc) + k.queue + [c];
    }
  }

  lemma NextIndexIsModulo(n: nat, count: nat)
    requires 1 <= count <= 255
    ensures NextIndex(n % count, count) == (n + 1) % count && NextIndex(n % count, count) < count
  {
    var q, r := n / count, n % count;
    assert n == q * count + r;
    if r + 1 < count {
      DivModUnique(n + 1, count, q, r + 1);
    } else {
      DivModUnique(n + 1, count, q + 1, 0);
    }
  }

  lemma PickKeepsInv(s: System, choice: nat)
    requires Inv(s) && DoPick(s, choice).Some?
    ensures Inv(DoPick(s, choice).value)
  {
    var t := DoPick(s, choice).value;
    NextIndexIsModulo(s.picks, |s.workers|);
    forall w | 0 <= w < |t.workers| ensures WorkerInv(t.workers[w], t.acceptor, t.hist, w) {
      assert WorkerInv(s.workers[w], s.acceptor, s.hist, w);
    }
  }

  lemma AcceptKeepsInv(s: System)
    requires Inv(s) && DoAccept(s).Some?
    ensures Inv(DoAccept(s).value)
  {
    var t := DoAccept(s).value;
    forall w | 0 <= w < |t.workers| ensures WorkerInv(t.workers[w], t.acceptor, t.hist, w) {
      AcceptKeepsWorkerInv(s, w);
    }
  }

  /** A step of one worker concerns no other worker. */
  lemma UpdateKeepsInv(s: System, w: nat, k: Worker)
    requires Inv(s) && w < |s.workers|
    requires WorkerInv(s.workers[w], s.acceptor, s.hist, w) ==> WorkerInv(k, s.acceptor, s.hist, w)
    ensures Inv(Update(s, w, k))
  {
    var t := Update(s, w, k);
    forall v | 0 <= v < |t.workers| ensures WorkerInv(t.workers[v], t.acceptor, t.hist, v) {
      assert WorkerInv(s.workers[v], s.acceptor, s.hist, v);
    }
  }

  lemma StepKeepsInv(s: System, step: Step)
    requires Inv(s) && Do(s, step).Some?
    ensures Inv(Do(s, step).value)
  {
    match step {
      case Pick(choice) => PickKeepsInv(s, choice);
      case Accept => AcceptKeepsInv(s);
      case Wake(w) => UpdateKeepsInv(s, w, s.workers[w].(pc := WorkerPc.Locking, pending := false));
      case Timer(w) => UpdateKeepsInv(s, w, s.workers[w].(pc := WorkerPc.Locking));
      case Work(w) =>
        WorkKeepsWorkerInv(s.workers[w], s.acceptor, s.hist, w);
        UpdateKeepsInv(s, w, DoWork(s.workers[w]).value);
    }
  }

  /** The invariant holds in every state that any schedule can reach. */
  lemma {:induction false} EveryRunKeepsInv(balance: Balance, count: nat, steps: seq<Step>)
    requires 1 <= count <= 255 && Run(Start(balance, count), steps).Some?
    ensures var s := Run(Start(balance, count), steps).value; Inv(s) && |s.workers| == count && s.balance == balance
  {
    hide Inv, Do;
    if steps != [] {
      EveryRunKeepsInv(balance, count, steps[..|steps| - 1]);
      StepKeepsInv(Run(Start(balance, count), steps[..|steps| - 1]).value, steps[|steps| - 1]);
      StepKeepsShape(Run(Start(balance, count), steps[..|steps| - 1]).value, steps[|steps| - 1]);
    } else {
      StartInv(balance, count);
    }
  }

  lemma StepKeepsShape(s: System, step: Step)
    requires Do(s, step).Some?
    ensures var t := Do(s, step).value; |t.workers| == |s.workers| && t.balance == s.balance
  {}

  lemma StartInv(balance: Balance, count: nat)
    requires 1 <= count <= 255
    ensures Inv(Start(balance, count))
  {}
}
