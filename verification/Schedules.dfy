/** What the dispatch invariant means for whole runs: nothing is lost or doubled, no wake-up
is lost, everything is served once the acceptor stops, and round robin is fair. */
module Schedules {
  import opened Dispatch
  import opened Division

  // ----- safety ---------------------------------------------------------------------------------------

  /** In every reachable state, what a worker has served, has in hand and has queued is, in
  order, exactly what was published to it; what it freed is what it served. */
  lemma ExactlyOnceInOrder(balance: Balance, count: nat, steps: seq<Step>, w: nat)
    requires w < count <= 255 && Run(Start(balance, count), steps).Some?
    ensures var s := Run(Start(balance, count), steps).value;
      && |s.workers| == count
      && var k := s.workers[w];
      && k.served + InFlight(k.pc) + k.queue == Assigned(s.hist, w)
      && k.freed + BeingFreed(k.pc) == k.served
  {
    EveryRunKeepsInv(balance, count, steps);
    var s := Run(Start(balance, count), steps).value;
    assert WorkerInv(s.workers[w], s.acceptor, s.hist, w);
  }

  /** Connection `c` is published to one worker only, and occurs there once. */
  lemma {:induction false} PublishedOnce(hist: seq<nat>, w: nat, c: Conn)
    ensures multiset(Assigned(hist, w))[c] == if c < |hist| && hist[c] == w then 1 else 0
  {
    if hist != [] {
      var k := |hist| - 1;
      PublishedOnce(hist[..k], w, c);
    }
  }

  /** A worker with something in its list has been woken, is still draining, or is about to
  be woken by the acceptor. */
  lemma NoLostWakeup(balance: Balance, count: nat, steps: seq<Step>, w: nat)
    requires w < count <= 255 && Run(Start(balance, count), steps).Some?
    ensures var s := Run(Start(balance, count), steps).value;
      && |s.workers| == count
      && (s.workers[w].queue != [] ==>
            s.workers[w].pending || Draining(s.workers[w].pc) ||
            s.acceptor == Unlocking(w) || s.acceptor == Activating(w))
  {
    EveryRunKeepsInv(balance, count, steps);
    var s := Run(Start(balance, count), steps).value;
    assert WorkerInv(s.workers[w], s.acceptor, s.hist, w);
  }

  // ----- progress ---------------------------------------------------------------------------------------

  /** Steps that need neither a new connection nor the timer. */
  predicate Quiet(step: Step) {
    step.Accept? || step.Wake? || step.Work?
  }

  function PcRank(pc: WorkerPc): nat {
    match pc
    case Idle => 0
    case UnlockEmpty => 1
    case Testing => 2
    case Locking => 3
    case Freeing(_) => 4
    case Serving(_) => 5
    case UnlockGot(_) => 6
  }

  function WorkerRank(k: Worker): nat {
    PcRank(k.pc) + 5 * |k.queue| + if k.pending then 4 else 0
  }

  function AcceptorRank(a: AcceptorPc): nat {
    match a
    case Ready => 0
    case Activating(_) => 5
    case Unlocking(_) => 6
    case Appending(_, _) => 12
    case Locking(_, _) => 13
  }

  function WorkersRank(workers: seq<Worker>): nat {
    if workers == [] then 0 else WorkersRank(workers[..|workers| - 1]) + WorkerRank(workers[|workers| - 1])
  }

  function Rank(s: System): nat {
    AcceptorRank(s.acceptor) + WorkersRank(s.workers)
  }

  lemma {:induction false} WorkersRankUpdate(workers: seq<Worker>, w: nat, k: Worker)
    requires w < |workers|
    ensures WorkersRank(workers[w := k]) + WorkerRank(workers[w]) == WorkersRank(workers) + WorkerRank(k)
  {
    var last := |workers| - 1;
    if w < last {
      assert workers[w := k][..last] == workers[..last][w := k];
      WorkersRankUpdate(workers[..last], w, k);
    } else {
      assert workers[w := k][..last] == workers[..last];
    }
  }

  lemma WorkDescends(k: Worker)
    requires DoWork(k).Some?
    ensures WorkerRank(DoWork(k).value) < WorkerRank(k)
  {}

  lemma QuietStepsDescend(s: System, step: Step)
    requires Quiet(step) && Do(s, step).Some?
    ensures Rank(Do(s, step).value) < Rank(s)
  {
    var w := if step.Accept? then s.acceptor.w else step.w;
    var t := Do(s, step).value;
    WorkersRankUpdate(s.workers, w, t.workers[w]);
    if step.Work? {
      WorkDescends(s.workers[w]);
    }
  }

  /** Once no connection arrives, at most Rank(s) more steps are taken, whatever the schedule. */
  lemma {:induction false} QuietRunsAreShort(s: System, steps: seq<Step>)
    requires (forall step <- steps :: Quiet(step)) && Run(s, steps).Some?
    ensures |steps| + Rank(Run(s, steps).value) <= Rank(s)
  {
    if steps != [] {
      var before := Run(s, steps[..|steps| - 1]).value;
      QuietRunsAreShort(s, steps[..|steps| - 1]);
      assert steps[|steps| - 1] in steps;
      QuietStepsDescend(before, steps[|steps| - 1]);
    }
  }

  /** No quiet step is enabled. */
  ghost predicate AtRest(s: System) {
    forall step: Step :: Quiet(step) ==> Do(s, step).None?
  }

  /** A worker that cannot move is asleep with nothing to do, unless the acceptor holds its lock. */
  lemma RestingWorker(s: System, w: nat)
    requires Inv(s) && AtRest(s) && w < |s.workers| && s.workers[w].lock != ByAcceptor
    ensures s.workers[w].pc == Idle && !s.workers[w].pending
  {
    assert WorkerInv(s.workers[w], s.acceptor, s.hist, w);
    assert Do(s, Work(w)).None? && Do(s, Wake(w)).None?;
  }

  lemma RestingAcceptor(s: System)
    requires Inv(s) && AtRest(s)
    ensures s.acceptor == Ready
  {
    assert Do(s, Accept).None?;
    if s.acceptor.Locking? {
      var w := s.acceptor.w;
      assert WorkerInv(s.workers[w], s.acceptor, s.hist, w);
      RestingWorker(s, w);
    }
  }

  /** Whenever no more steps can be taken, every worker is asleep with an empty list and
  every published connection has been served and freed: there is no deadlock. */
  lemma RestMeansAllServed(balance: Balance, count: nat, steps: seq<Step>, w: nat)
    requires w < count <= 255 && Run(Start(balance, count), steps).Some?
    requires AtRest(Run(Start(balance, count), steps).value)
    ensures var s := Run(Start(balance, count), steps).value;
      && |s.workers| == count && s.acceptor == Ready && s.picks == |s.hist|
      && var k := s.workers[w];
      && k.pc == Idle && k.queue == [] && k.served == Assigned(s.hist, w) && k.freed == k.served
  {
    EveryRunKeepsInv(balance, count, steps);
    var s := Run(Start(balance, count), steps).value;
    var k := s.workers[w];
    assert WorkerInv(k, s.acceptor, s.hist, w);
    RestingAcceptor(s);
    RestingWorker(s, w);
  }

  // ----- what can happen --------------------------------------------------------------------------------

  /** In every reachable state: a connection is taken whenever the acceptor is free, and after that
  only the lock of the picked worker can hold it up; an idle worker takes a timer, and a wake-up
  that is pending; a busy one is held up by nothing but its own lock. */
  lemma Enabled(balance: Balance, count: nat, steps: seq<Step>, step: Step)
    requires 1 <= count <= 255 && Run(Start(balance, count), steps).Some?
    ensures var s := Run(Start(balance, count), steps).value;
      && |s.workers| == count && (s.acceptor != Ready ==> s.acceptor.w < count)
      && (Do(s, step).Some? <==>
            match step
            case Pick(_) => s.acceptor == Ready
            case Accept => s.acceptor != Ready && (s.acceptor.Locking? ==> s.workers[s.acceptor.w].lock == Free)
            case Wake(w) => w < count && s.workers[w].pc == Idle && s.workers[w].pending
            case Timer(w) => w < count && s.workers[w].pc == Idle
            case Work(w) =>
              w < count && s.workers[w].pc != Idle && (s.workers[w].pc.Locking? ==> s.workers[w].lock == Free))
  {
    EveryRunKeepsInv(balance, count, steps);
  }

  /** A worker's mark is set by the activation that ends a publication to it, cleared by the event
  loop that wakes it, and touched by nothing else. */
  lemma MarkIsSetAndCleared(s: System, step: Step, w: nat)
    requires Do(s, step).Some? && w < |s.workers|
    ensures var t := Do(s, step).value;
      && w < |t.workers|
      && t.workers[w].pending == if step == Wake(w) then false
                                 else if step == Accept && s.acceptor == Activating(w) then true
                                 else s.workers[w].pending
  {}

  /** Before the first connection, nothing happens but timers. */
  lemma StartIsAtRest(balance: Balance, count: nat)
    ensures AtRest(Start(balance, count))
  {}

  /** What rand() yields, connection by connection. */
  function Choices(steps: seq<Step>): seq<nat> {
    if steps == [] then []
    else
      var last := steps[|steps| - 1];
      Choices(steps[..|steps| - 1]) + if last.Pick? then [last.choice] else []
  }

  /** With the random balance, connection `c` goes to the worker that its own rand() names. */
  lemma {:induction false} RandomFollowsChoices(count: nat, steps: seq<Step>)
    requires 1 <= count <= 255 && Run(Start(Random, count), steps).Some?
    ensures var s := Run(Start(Random, count), steps).value; var choices := Choices(steps);
      && s.picks == |choices| && |s.hist| <= |choices|
      && (forall c :: 0 <= c < |s.hist| ==> s.hist[c] == choices[c] % count)
      && (s.acceptor.Locking? || s.acceptor.Appending? ==>
            |s.hist| < |choices| && s.acceptor.w == choices[|s.hist|] % count)
  {
    if steps != [] {
      var before := steps[..|steps| - 1];
      RandomFollowsChoices(count, before);
      EveryRunKeepsInv(Random, count, before);
      EveryRunKeepsInv(Random, count, steps);
    }
  }

  // ----- fairness ---------------------------------------------------------------------------------------

  /** In every reachable state the round robin index stays below W, and connection `c` has
  gone to worker `c mod W`. */
  lemma RoundRobinTurns(count: nat, steps: seq<Step>, c: Conn)
    requires 1 <= count <= 255 && Run(Start(Round, count), steps).Some?
    ensures var s := Run(Start(Round, count), steps).value;
      s.index < count && (c < |s.hist| ==> s.hist[c] == c % count)
  {
    EveryRunKeepsInv(Round, count, steps);
  }

  /** Of `n` connections dealt in turn, `q` full rounds and `r` more, worker `w` gets q or q + 1. */
  lemma {:induction false} Share(hist: seq<nat>, count: nat, w: nat) returns (q: nat, r: nat)
    requires w < count && forall k :: 0 <= k < |hist| ==> hist[k] == k % count
    ensures |hist| == q * count + r && r < count
    ensures |Assigned(hist, w)| == q + if w < r then 1 else 0
  {
    if hist == [] {
      q, r := 0, 0;
    } else {
      var k := |hist| - 1;
      q, r := Share(hist[..k], count, w);
      assert hist[k] == r by {
        DivModUnique(k, count, q, r);
      }
      q, r := NextTurn(k, count, q, r);
    }
  }

  lemma NextTurn(k: nat, count: nat, q: nat, r: nat) returns (q1: nat, r1: nat)
    requires k == q * count + r && r < count
    ensures k + 1 == q1 * count + r1 && r1 < count
    ensures if r + 1 < count then q1 == q && r1 == r + 1 else q1 == q + 1 && r1 == 0
  {
    if r + 1 < count {
      q1, r1 := q, r + 1;
    } else {
      q1, r1 := q + 1, 0;
    }
  }

  /** After any number of connections, round robin has given every two workers numbers of
  connections that differ by at most one. */
  lemma RoundRobinIsFair(count: nat, steps: seq<Step>, v: nat, w: nat)
    requires v < count && w < count <= 255 && Run(Start(Round, count), steps).Some?
    ensures var hist := Run(Start(Round, count), steps).value.hist;
      |Assigned(hist, v)| <= |Assigned(hist, w)| + 1
  {
    EveryRunKeepsInv(Round, count, steps);
    var hist := Run(Start(Round, count), steps).value.hist;
    var q, r := Share(hist, count, v);
    var q1, r1 := Share(hist, count, w);
    DivModUnique(|hist|, count, q, r);
    DivModUnique(|hist|, count, q1, r1);
  }
}
