/** The parallel check queue: a master hands batches of checks to a pool of workers
    and joins them until all work is done. Every critical section of the source is
    one atomic step; a batch is executed check by check between two of them. */
module CheckQueue {
  import opened Finite
  import opened Powers

  /** A verification and the answer it gives when it is run. */
  datatype Check = Check(id: nat, passes: bool)

  datatype Thread =
    | Outside                                             // not inside Loop
    | Waiting                                             // blocked on its condition variable
    | Working(todo: seq<Check>, nNow: nat, fOk: bool)     // executing its own batch

  /** The shared fields, the position of every thread (the master is thread 0), and
      what has been added, run and asked to quit since Wait last returned. */
  datatype State = State(
    queue: seq<Check>, nIdle: int, nTotal: int, fAllOk: bool, nTodo: int, fQuit: bool, nBatchSize: nat,
    threads: seq<Thread>, added: multiset<Check>, executed: multiset<Check>, quitSeen: bool)

  datatype Event =
    | Add(checks: seq<Check>)
    | Quit(flag: bool)
    | Enter(i: nat)
    | Execute(i: nat)
    | Finish(i: nat)
    | Wake(i: nat)

  function Init(workers: nat, nBatchSize: nat): State {
    State([], 0, 0, true, 0, false, nBatchSize, seq(workers + 1, _ => Outside), multiset{}, multiset{}, false)
  }

  // ---- Critical sections ----

  /** How many checks a thread takes: its share of the queue, at least one. The
      divisor is positive in every reachable state (see Counts). */
  function BatchSize(nBatchSize: nat, queued: nat, nTotal: int, nIdle: int): (n: nat)
    ensures 1 <= n && (queued >= 1 ==> n <= queued)
  {
    var threads := nTotal + nIdle + 1;
    var share := if threads <= 0 then 0 else (ShareBound(queued, threads); queued / threads);
    var n := if nBatchSize < share then nBatchSize else share;
    if n < 1 then 1 else n
  }

  lemma ShareBound(queued: nat, threads: int)
    requires threads > 0
    ensures 0 <= queued / threads <= queued
  {
    var q := queued / threads;
    assert q >= 0 && threads * q <= queued;
    assert (threads - 1) * q >= 0;
  }

  function Reversed(s: seq<Check>): (r: seq<Check>)
    ensures |r| == |s|
  {
    if s == [] then [] else Reversed(s[1..]) + [s[0]]
  }

  /** From the top of the inner loop: take a batch, return from Wait, or wait. */
  function Dispatch(s: State, i: nat): State
    requires i < |s.threads|
  {
    if s.queue == [] then
      if i == 0 && s.nTodo == 0 then
        s.(nTotal := s.nTotal - 1, fAllOk := true, fQuit := false, threads := s.threads[i := Outside],
           added := multiset{}, executed := multiset{}, quitSeen := false)
      else
        s.(nIdle := s.nIdle + 1, threads := s.threads[i := Waiting])
    else
      var nNow := BatchSize(s.nBatchSize, |s.queue|, s.nTotal, s.nIdle);
      var k := |s.queue| - nNow;
      s.(queue := s.queue[..k], threads := s.threads[i := Working(Reversed(s.queue[k..]), nNow, s.fAllOk)])
  }

  /** The clean-up a thread does for the batch it has executed. */
  function CleanUp(s: State, i: nat): (r: State)
    requires i < |s.threads| && s.threads[i].Working?
    ensures r.threads == s.threads
  {
    var t := s.threads[i];
    var todo := if s.nTodo >= t.nNow then s.nTodo - t.nNow else s.nTodo;
    var s1 := s.(fAllOk := s.fAllOk && t.fOk, nTodo := todo);
    var s2 := if s1.nTodo == 0 && i != 0 then s1.(queue := []) else s1;
    if s2.fQuit && i != 0 then s2.(nTodo := s2.nTodo - |s2.queue|, queue := []) else s2
  }

  predicate Enabled(s: State, e: Event) {
    match e
    case Add(_) => |s.threads| > 0 && s.threads[0].Outside?
    case Quit(_) => true
    case Enter(i) => i < |s.threads| && s.threads[i].Outside?
    case Execute(i) => i < |s.threads| && s.threads[i].Working? && s.threads[i].todo != []
    case Finish(i) => i < |s.threads| && s.threads[i].Working? && s.threads[i].todo == []
    case Wake(i) => i < |s.threads| && s.threads[i].Waiting?
  }

  function Step(s: State, e: Event): State
    requires Enabled(s, e)
  {
    match e
    case Add(checks) =>
      s.(queue := s.queue + checks, nTodo := s.nTodo + |checks|, added := s.added + multiset(checks))
    case Quit(flag) => s.(fQuit := flag, quitSeen := s.quitSeen || flag)
    case Enter(i) => Dispatch(s.(nTotal := s.nTotal + 1), i)
    case Execute(i) =>
      var t := s.threads[i];
      // a check is only run while everything before it in the batch passed
      s.(threads := s.threads[i := Working(t.todo[1..], t.nNow, t.fOk && t.todo[0].passes)],
         executed := if t.fOk then s.executed + multiset{t.todo[0]} else s.executed)
    case Finish(i) => Dispatch(CleanUp(s, i), i)
    case Wake(i) => Dispatch(s.(nIdle := s.nIdle - 1), i)
  }

  /** Wait returns in a step that takes the master out of the loop, with the value the
      queue held for it. */
  predicate WaitReturns(s: State, e: Event)
    requires Enabled(s, e)
  {
    match e
    case Enter(i) => i == 0 && s.queue == [] && s.nTodo == 0
    case Finish(i) => i == 0 && CleanUp(s, i).queue == [] && CleanUp(s, i).nTodo == 0
    case Wake(i) => i == 0 && s.queue == [] && s.nTodo == 0
    case _ => false
  }

  function WaitResult(s: State, e: Event): bool
    requires Enabled(s, e)
  {
    if e.Finish? then CleanUp(s, e.i).fAllOk else s.fAllOk
  }

  predicate IsIdle(s: State) {
    s.nTotal == s.nIdle && s.nTodo == 0 && s.fAllOk
  }

  // ---- The invariant ----

  /** What a thread contributes to the counters, and to the checks still to be run. */
  ghost function Flight(t: Thread): int {
    if t.Working? then t.nNow else 0
  }

  ghost function Left(t: Thread): multiset<Check> {
    if t.Working? then multiset(t.todo) else multiset{}
  }

  ghost function InFlight(ts: seq<Thread>): int {
    if ts == [] then 0 else Flight(ts[0]) + InFlight(ts[1..])
  }

  ghost function WaitingCount(ts: seq<Thread>): int {
    if ts == [] then 0 else One(ts[0].Waiting?) + WaitingCount(ts[1..])
  }

  ghost function RunningCount(ts: seq<Thread>): int {
    if ts == [] then 0 else One(ts[0].Working?) + RunningCount(ts[1..])
  }

  /** Running batches that have seen a failure. */
  ghost function FailedCount(ts: seq<Thread>): int {
    if ts == [] then 0 else One(ts[0].Working? && !ts[0].fOk) + FailedCount(ts[1..])
  }

  /** The checks of running batches that have not been reached yet. */
  ghost function Pending(ts: seq<Thread>): multiset<Check> {
    if ts == [] then multiset{} else Left(ts[0]) + Pending(ts[1..])
  }

  ghost predicate AllPass(m: multiset<Check>) {
    forall c :: c in m ==> c.passes
  }

  ghost predicate BatchesWellFormed(ts: seq<Thread>) {
    forall i :: 0 <= i < |ts| && ts[i].Working? ==> 1 <= ts[i].nNow && |ts[i].todo| <= ts[i].nNow
  }

  /** nTodo counts queued plus in-flight checks, and the thread counters count. */
  ghost predicate Counts(s: State) {
    && s.nTodo == |s.queue| + InFlight(s.threads)
    && s.nIdle == WaitingCount(s.threads)
    && s.nTotal == WaitingCount(s.threads) + RunningCount(s.threads)
    && BatchesWellFormed(s.threads)
    && (s.fQuit ==> s.quitSeen)
  }

  /** The checks of this round that have been run, are queued, or are left of a batch. */
  ghost function Tracked(s: State): multiset<Check> {
    s.executed + multiset(s.queue) + Pending(s.threads)
  }

  /** While no failure has been seen anywhere every check that ran passed, and none was
      lost except by Quit; once one has been seen some check that was added fails. */
  ghost predicate Accounted(s: State) {
    if s.fAllOk && FailedCount(s.threads) == 0
    then AllPass(s.executed) && Tracked(s) <= s.added && (!s.quitSeen ==> Tracked(s) == s.added)
    else !AllPass(s.added)
  }

  ghost predicate Inv(s: State) {
    |s.threads| > 0 && Counts(s) && Accounted(s)
  }

  // ---- One thread changing place ----

  /** How the totals move when thread i changes place. */
  lemma {:induction false} Moved(ts: seq<Thread>, i: nat, t: Thread)
    requires i < |ts|
    ensures InFlight(ts[i := t]) == InFlight(ts) - Flight(ts[i]) + Flight(t)
    ensures WaitingCount(ts[i := t]) == WaitingCount(ts) - One(ts[i].Waiting?) + One(t.Waiting?)
    ensures RunningCount(ts[i := t]) == RunningCount(ts) - One(ts[i].Working?) + One(t.Working?)
    ensures FailedCount(ts[i := t])
         == FailedCount(ts) - One(ts[i].Working? && !ts[i].fOk) + One(t.Working? && !t.fOk)
  {
    hide Flight, One;
    if i == 0 {
      assert ts[0 := t][1..] == ts[1..];
    } else {
      Moved(ts[1..], i - 1, t);
      assert ts[i := t][1..] == ts[1..][i - 1 := t];
    }
  }

  lemma {:induction false} MovedPending(ts: seq<Thread>, i: nat, t: Thread)
    requires i < |ts|
    ensures Pending(ts[i := t]) + Left(ts[i]) == Pending(ts) + Left(t)
  {
    hide Left;
    if i == 0 {
      assert ts[0 := t][1..] == ts[1..];
    } else {
      MovedPending(ts[1..], i - 1, t);
      assert ts[i := t][1..] == ts[1..][i - 1 := t];
      BagShuffle(Pending(ts[1..][i - 1 := t]), Left(ts[i]), Pending(ts[1..]), Left(t), Left(ts[0]));
    }
  }

  /** A thread that holds no checks before or after moving. */
  lemma MovedEmpty(ts: seq<Thread>, i: nat, t: Thread)
    requires i < |ts| && Left(ts[i]) == multiset{} && Left(t) == multiset{}
    ensures Pending(ts[i := t]) == Pending(ts)
  {
    MovedPending(ts, i, t);
    hide Pending, Left;
    assert Pending(ts[i := t]) + multiset{} == Pending(ts[i := t]);
    assert Pending(ts) + multiset{} == Pending(ts);
  }

  /** A thread that starts a batch. */
  lemma MovedIn(ts: seq<Thread>, i: nat, t: Thread)
    requires i < |ts| && Left(ts[i]) == multiset{}
    ensures Pending(ts[i := t]) == Pending(ts) + Left(t)
  {
    MovedPending(ts, i, t);
    hide Pending, Left;
    assert Pending(ts[i := t]) + multiset{} == Pending(ts[i := t]);
  }

  lemma {:induction false} TotalsBound(ts: seq<Thread>)
    ensures 0 <= WaitingCount(ts) && 0 <= InFlight(ts) && 0 <= FailedCount(ts) <= RunningCount(ts)
  {
    if ts != [] {
      TotalsBound(ts[1..]);
    }
  }

  lemma {:induction false} FlightAtMost(ts: seq<Thread>, i: nat)
    requires i < |ts|
    ensures Flight(ts[i]) <= InFlight(ts)
  {
    TotalsBound(ts[1..]);
    if i > 0 {
      FlightAtMost(ts[1..], i - 1);
    }
  }

  /** With nothing in flight, no batch is running. */
  lemma {:induction false} NothingRuns(ts: seq<Thread>)
    requires BatchesWellFormed(ts) && InFlight(ts) == 0
    ensures RunningCount(ts) == 0 && FailedCount(ts) == 0 && Pending(ts) == multiset{}
  {
    if ts != [] {
      TotalsBound(ts[1..]);
      assert forall i :: 0 <= i < |ts[1..]| ==> ts[1..][i] == ts[i + 1];
      NothingRuns(ts[1..]);
    }
  }

  lemma {:induction false} ReversedBag(s: seq<Check>)
    ensures multiset(Reversed(s)) == multiset(s)
  {
    if s != [] {
      ReversedBag(s[1..]);
      assert s == [s[0]] + s[1..];
    }
  }

  // ---- Every step keeps the invariant ----

  /** The state as thread i sees it at the top of the inner loop: it counts as inside
      but neither waits nor works. */
  ghost predicate Ready(s: State, i: nat) {
    && i < |s.threads| && s.threads[i].Outside?
    && s.nTodo == |s.queue| + InFlight(s.threads)
    && s.nIdle == WaitingCount(s.threads)
    && s.nTotal == WaitingCount(s.threads) + RunningCount(s.threads) + 1
    && BatchesWellFormed(s.threads)
    && (s.fQuit ==> s.quitSeen)
    && Accounted(s)
  }

  /** Dispatch only replaces thread i, so its previous place does not matter. */
  lemma DispatchFrom(s: State, i: nat)
    requires i < |s.threads|
    ensures Dispatch(s.(threads := s.threads[i := Outside]), i) == Dispatch(s, i)
  {
    hide Reversed, BatchSize;
    Overwrite(s.threads, i, Outside);
    Overwrite(s.threads, i, Waiting);
    if s.queue != [] {
      Overwrite(s.threads, i, Batch(s));
    }
  }

  ghost function Batch(s: State): Thread
    requires s.queue != []
  {
    var nNow := BatchSize(s.nBatchSize, |s.queue|, s.nTotal, s.nIdle);
    Working(Reversed(s.queue[|s.queue| - nNow..]), nNow, s.fAllOk)
  }

  lemma Overwrite(ts: seq<Thread>, i: nat, t: Thread)
    requires i < |ts|
    ensures ts[i := Outside][i := t] == ts[i := t]
  {
  }

  lemma DispatchKeeps(s: State, i: nat)
    requires Ready(s, i)
    ensures Inv(Dispatch(s, i)) && |Dispatch(s, i).threads| == |s.threads|
  {
    hide InFlight, WaitingCount, RunningCount, FailedCount, Pending, Reversed, BatchSize;
    if s.queue == [] && i == 0 && s.nTodo == 0 {
      NothingRuns(s.threads);
      assert s.threads[i := Outside] == s.threads;
    } else if s.queue == [] {
      Moved(s.threads, i, Waiting);
      MovedEmpty(s.threads, i, Waiting);
    } else {
      TakeCounts(s, i);
      TakeAccounted(s, i);
    }
  }

  lemma TakeCounts(s: State, i: nat)
    requires Ready(s, i) && s.queue != []
    ensures Counts(Dispatch(s, i))
  {
    hide InFlight, WaitingCount, RunningCount, FailedCount, Pending, Reversed, BatchSize;
    Moved(s.threads, i, Batch(s));
  }

  /** Taking a batch loses no check. */
  lemma TakeTracked(s: State, i: nat)
    requires Ready(s, i) && s.queue != []
    ensures Tracked(Dispatch(s, i)) == Tracked(s)
  {
    hide InFlight, WaitingCount, RunningCount, FailedCount, Pending, Reversed, BatchSize, Accounted, BatchesWellFormed;
    var t := Batch(s);
    var k := |s.queue| - t.nNow;
    MovedIn(s.threads, i, t);
    ReversedBag(s.queue[k..]);
    QueueSplit(s.queue, k);
    BagMove(s.executed, multiset(s.queue[..k]), Left(t), Pending(s.threads));
  }

  lemma TakeAccounted(s: State, i: nat)
    requires Ready(s, i) && s.queue != []
    ensures Accounted(Dispatch(s, i))
  {
    hide InFlight, WaitingCount, RunningCount, FailedCount, Tracked, Reversed, BatchSize, BatchesWellFormed, AllPass;
    Moved(s.threads, i, Batch(s));
    TotalsBound(s.threads);
    TakeTracked(s, i);
  }

  lemma QueueSplit(q: seq<Check>, k: nat)
    requires k <= |q|
    ensures multiset(q) == multiset(q[..k]) + multiset(q[k..])
  {
    assert q == q[..k] + q[k..];
  }

  /** Checks moving from the queue to a batch stay accounted for. */
  lemma BagMove(e: multiset<Check>, q: multiset<Check>, b: multiset<Check>, p: multiset<Check>)
    ensures e + (q + b) + p == e + q + (p + b)
  {
  }

  lemma CleanUpReady(s: State, i: nat)
    requires Inv(s) && Enabled(s, Finish(i))
    ensures Ready(CleanUp(s, i).(threads := s.threads[i := Outside]), i)
  {
    hide InFlight, WaitingCount, RunningCount, FailedCount, Pending, Reversed, BatchSize;
    Moved(s.threads, i, Outside);
    MovedEmpty(s.threads, i, Outside);
    FlightAtMost(s.threads, i);
    TotalsBound(s.threads[i := Outside]);
    TotalsBound(s.threads);
    BagShrink(s.executed, multiset(s.queue), Pending(s.threads));
  }

  /** Clearing the queue only loses what was queued. */
  lemma BagShrink(e: multiset<Check>, q: multiset<Check>, p: multiset<Check>)
    ensures e + multiset{} + p <= e + q + p
  {
  }

  lemma WakeReady(s: State, i: nat)
    requires Inv(s) && Enabled(s, Wake(i))
    ensures Ready(s.(nIdle := s.nIdle - 1, threads := s.threads[i := Outside]), i)
  {
    hide InFlight, WaitingCount, RunningCount, FailedCount, Pending, Reversed, BatchSize;
    Moved(s.threads, i, Outside);
    MovedEmpty(s.threads, i, Outside);
  }

  lemma ExecuteKeeps(s: State, i: nat)
    requires Inv(s) && Enabled(s, Execute(i))
    ensures Inv(Step(s, Execute(i)))
  {
    hide InFlight, WaitingCount, RunningCount, FailedCount, Pending, Reversed, BatchSize;
    var t := s.threads[i];
    var t' := Working(t.todo[1..], t.nNow, t.fOk && t.todo[0].passes);
    Moved(s.threads, i, t');
    ExecuteAccounted(s, i, t');
  }

  lemma ExecuteAccounted(s: State, i: nat, t': Thread)
    requires Inv(s) && Enabled(s, Execute(i))
    requires var t := s.threads[i];
             t' == Working(t.todo[1..], t.nNow, t.fOk && t.todo[0].passes)
    ensures Accounted(Step(s, Execute(i)))
  {
    hide InFlight, WaitingCount, RunningCount, FailedCount, Pending, Reversed, BatchSize;
    var t := s.threads[i];
    var c := t.todo[0];
    Moved(s.threads, i, t');
    Moved(s.threads, i, Outside);
    TotalsBound(s.threads[i := Outside]);
    TotalsBound(s.threads);
    ExecutePending(s.threads, i, t');
    BagRun(s.executed, multiset(s.queue), Pending(s.threads[i := t']), c);
    assert c in Pending(s.threads);
  }

  lemma ExecutePending(ts: seq<Thread>, i: nat, t': Thread)
    requires i < |ts| && ts[i].Working? && ts[i].todo != [] && t'.Working? && t'.todo == ts[i].todo[1..]
    ensures Pending(ts) == Pending(ts[i := t']) + multiset{ts[i].todo[0]}
  {
    MovedPending(ts, i, t');
    var todo := ts[i].todo;
    assert todo == [todo[0]] + todo[1..];
    var p, p', c, r := Pending(ts), Pending(ts[i := t']), multiset{todo[0]}, multiset(todo[1..]);
    hide Pending;
    assert multiset(todo) == c + r;
    BagCancel(p', c, r, p);
  }

  lemma BagCancel(p': multiset<Check>, c: multiset<Check>, r: multiset<Check>, p: multiset<Check>)
    requires p' + (c + r) == p + r
    ensures p == p' + c
  {
    forall x: Check
      ensures p[x] == (p' + c)[x]
    {
      assert (p' + (c + r))[x] == p'[x] + (c[x] + r[x]);
      assert (p + r)[x] == p[x] + r[x];
    }
  }

  lemma BagRun(e: multiset<Check>, q: multiset<Check>, p: multiset<Check>, c: Check)
    ensures e + q + (p + multiset{c}) == (e + multiset{c}) + q + p
  {
  }

  /** Every step of every thread, and every Add and Quit, keeps the invariant. */
  lemma StepKeeps(s: State, e: Event)
    requires Inv(s) && Enabled(s, e)
    ensures Inv(Step(s, e)) && |Step(s, e).threads| == |s.threads|
  {
    hide InFlight, WaitingCount, RunningCount, FailedCount, Pending, Dispatch, CleanUp, BatchesWellFormed;
    match e
    case Add(checks) =>
      assert multiset(s.queue + checks) == multiset(s.queue) + multiset(checks);
    case Quit(flag) =>
    case Enter(i) =>
      DispatchKeeps(s.(nTotal := s.nTotal + 1), i);
    case Execute(i) =>
      ExecuteKeeps(s, i);
    case Finish(i) =>
      CleanUpReady(s, i);
      DispatchFrom(CleanUp(s, i), i);
      DispatchKeeps(CleanUp(s, i).(threads := s.threads[i := Outside]), i);
    case Wake(i) =>
      WakeReady(s, i);
      DispatchFrom(s.(nIdle := s.nIdle - 1), i);
      DispatchKeeps(s.(nIdle := s.nIdle - 1, threads := s.threads[i := Outside]), i);
  }

  // ---- Whole runs ----

  /** Every event of the run is possible when its turn comes. */
  predicate Possible(s: State, es: seq<Event>)
    decreases |es|
  {
    es == [] || (Enabled(s, es[0]) && Possible(Step(s, es[0]), es[1..]))
  }

  function Run(s: State, es: seq<Event>): State
    requires Possible(s, es)
    decreases |es|
  {
    if es == [] then s else Run(Step(s, es[0]), es[1..])
  }

  lemma {:induction false} AllOutside(ts: seq<Thread>)
    requires forall i :: 0 <= i < |ts| ==> ts[i].Outside?
    ensures InFlight(ts) == WaitingCount(ts) == RunningCount(ts) == FailedCount(ts) == 0
    ensures Pending(ts) == multiset{}
  {
    if ts != [] {
      AllOutside(ts[1..]);
    }
  }

  lemma InitKeeps(workers: nat, nBatchSize: nat)
    ensures Inv(Init(workers, nBatchSize))
  {
    AllOutside(Init(workers, nBatchSize).threads);
  }

  lemma {:induction false} RunKeeps(s: State, es: seq<Event>)
    requires Inv(s) && Possible(s, es)
    ensures Inv(Run(s, es))
    decreases |es|
  {
    hide Inv, Step, Enabled;
    if es != [] {
      StepKeeps(s, es[0]);
      RunKeeps(Step(s, es[0]), es[1..]);
    }
  }

  /** In every state any schedule of the threads can reach, nTodo is the number of
      queued checks plus the batches in flight, the thread counters count, and no
      check of a round without Quit is lost. */
  lemma EveryRunKeeps(workers: nat, nBatchSize: nat, es: seq<Event>)
    requires Possible(Init(workers, nBatchSize), es)
    ensures Inv(Run(Init(workers, nBatchSize), es))
  {
    InitKeeps(workers, nBatchSize);
    RunKeeps(Init(workers, nBatchSize), es);
  }

  /** No counter goes below zero. */
  lemma NoUnderflow(s: State)
    requires Inv(s)
    ensures 0 <= |s.queue| <= s.nTodo && 0 <= s.nIdle <= s.nTotal
    ensures s.nTotal - s.nIdle == RunningCount(s.threads)
    ensures forall i: nat :: Enabled(s, Finish(i)) ==> s.nTodo >= s.threads[i].nNow
  {
    hide InFlight, WaitingCount, RunningCount, FailedCount, Pending;
    TotalsBound(s.threads);
    forall i: nat | Enabled(s, Finish(i))
      ensures s.nTodo >= s.threads[i].nNow
    {
      FlightAtMost(s.threads, i);
    }
  }

  /** When a thread takes a batch its size is its share of the queue, within the limits,
      and the divisor is positive. */
  lemma TakesItsShare(s: State, i: nat)
    requires Ready(s, i) && s.queue != []
    ensures s.nTotal + s.nIdle + 1 > 0
    ensures var share := |s.queue| / (s.nTotal + s.nIdle + 1);
            Dispatch(s, i).threads[i].nNow == Max(1, if s.nBatchSize < share then s.nBatchSize else share)
    ensures var nNow := Dispatch(s, i).threads[i].nNow;
            nNow == 1 || (1 < nNow <= s.nBatchSize && nNow * (s.nTotal + s.nIdle + 1) <= |s.queue|)
    ensures Dispatch(s, i).threads[i].todo == Reversed(s.queue[|Dispatch(s, i).queue|..])
  {
    hide InFlight, WaitingCount, RunningCount, FailedCount, Pending, Reversed;
    TotalsBound(s.threads);
    var d := s.nTotal + s.nIdle + 1;
    var share := |s.queue| / d;
    assert share * d <= |s.queue|;
    var nNow := Dispatch(s, i).threads[i].nNow;
    if nNow > 1 {
      MulNonneg(share - nNow, d);
    }
  }

  /** What a result of Wait says about the checks of the round. */
  ghost predicate Verdict(s: State, result: bool) {
    && (result ==> AllPass(s.executed) && s.executed <= s.added)
    && (result && !s.quitSeen ==> s.executed == s.added)
    && (!result ==> !AllPass(s.added))
  }

  /** At the moment the master leaves the loop nothing is queued, nothing is in flight
      and no batch has seen a failure that is not yet in fAllOk. */
  lemma MasterLeaves(s: State)
    requires Ready(s, 0) && s.queue == [] && s.nTodo == 0
    ensures RunningCount(s.threads) == 0
    ensures Verdict(s, s.fAllOk)
  {
    NothingRuns(s.threads);
    hide InFlight, WaitingCount, RunningCount, FailedCount, Pending;
    assert s.executed + multiset(s.queue) + multiset{} == s.executed;
  }

  /** Wait returns only once every batch handed out has completed and the queue is
      idle again. False means that some check added fails, with or without Quit; in a
      round without Quit the result is the conjunction of every check added, and true
      means that each of them ran exactly once. */
  lemma WaitIsSound(s: State, e: Event)
    requires Inv(s) && Enabled(s, e) && WaitReturns(s, e)
    ensures IsIdle(Step(s, e)) && Step(s, e).queue == []
    ensures RunningCount(Step(s, e).threads) == 0
    ensures Verdict(s, WaitResult(s, e))
    ensures !s.quitSeen ==> WaitResult(s, e) == AllPass(s.added)
  {
    hide InFlight, WaitingCount, RunningCount, FailedCount, Pending, BatchesWellFormed, AllPass;
    var r := s.(nTotal := s.nTotal + 1);
    if e.Finish? {
      CleanUpReady(s, 0);
      DispatchFrom(CleanUp(s, 0), 0);
      r := CleanUp(s, 0).(threads := s.threads[0 := Outside]);
    } else if e.Wake? {
      WakeReady(s, 0);
      DispatchFrom(s.(nIdle := s.nIdle - 1), 0);
      r := s.(nIdle := s.nIdle - 1, threads := s.threads[0 := Outside]);
    }
    MasterLeaves(r);
    assert r.threads[0 := Outside] == r.threads;
    assert Step(s, e) == Dispatch(r, 0);
  }

  // ---- Between rounds ----

  /** The master is outside and there is nothing to do. */
  ghost predicate Resting(s: State) {
    Inv(s) && IsIdle(s) && s.queue == [] && s.threads[0].Outside?
  }

  /** What may happen between rounds: anything but new work and a new wait. */
  predicate Calm(e: Event) {
    !e.Add? && e != Enter(0)
  }

  /** Workers entering, waking and waiting again, and quit requests, leave a resting queue
      resting. */
  lemma RestingStep(s: State, e: Event)
    requires Resting(s) && Enabled(s, e) && Calm(e)
    ensures Resting(Step(s, e))
  {
    StepKeeps(s, e);
    hide InFlight, WaitingCount, RunningCount, FailedCount, Pending, Accounted, BatchesWellFormed, BatchSize, Reversed;
    NoUnderflow(s);
    if e.Finish? || e.Execute? {
      NothingWorks(s, e.i);
    }
  }

  lemma NothingWorks(s: State, i: nat)
    requires Resting(s) && i < |s.threads|
    ensures !s.threads[i].Working?
  {
    TotalsBound(s.threads);
    FlightAtMost(s.threads, i);
    hide InFlight, WaitingCount, RunningCount, FailedCount, Pending;
  }

  lemma {:induction false} RestingRun(s: State, es: seq<Event>)
    requires Resting(s) && Possible(s, es) && forall i :: 0 <= i < |es| ==> Calm(es[i])
    ensures Resting(Run(s, es))
    decreases |es|
  {
    hide Resting, Step, Enabled;
    if es != [] {
      RestingStep(s, es[0]);
      RestingRun(Step(s, es[0]), es[1..]);
    }
  }

  /** From the start, whatever the workers do before the first round, the queue is idle. */
  lemma IdleBeforeFirstRound(workers: nat, nBatchSize: nat, es: seq<Event>)
    requires Possible(Init(workers, nBatchSize), es) && forall i :: 0 <= i < |es| ==> Calm(es[i])
    ensures IsIdle(Run(Init(workers, nBatchSize), es)) && Run(Init(workers, nBatchSize), es).queue == []
  {
    InitKeeps(workers, nBatchSize);
    RestingRun(Init(workers, nBatchSize), es);
  }

  /** In every schedule, from each return of Wait until new work is added or a new wait
      begins, the queue is idle, whatever the workers do meanwhile: the assertion made when
      a controller takes the queue holds at any later moment. */
  lemma IdleBetweenRounds(workers: nat, nBatchSize: nat, es: seq<Event>, e: Event, later: seq<Event>)
    requires Possible(Init(workers, nBatchSize), es)
    requires Enabled(Run(Init(workers, nBatchSize), es), e) && WaitReturns(Run(Init(workers, nBatchSize), es), e)
    requires Possible(Step(Run(Init(workers, nBatchSize), es), e), later)
    requires forall i :: 0 <= i < |later| ==> Calm(later[i])
    ensures var s := Run(Step(Run(Init(workers, nBatchSize), es), e), later);
            IsIdle(s) && s.queue == []
  {
    var s := Run(Init(workers, nBatchSize), es);
    EveryRunKeeps(workers, nBatchSize, es);
    hide Init, Run, Possible;
    WaitIsSound(s, e);
    StepKeeps(s, e);
    MasterIsOut(s, e);
    RestingRun(Step(s, e), later);
  }

  lemma MasterIsOut(s: State, e: Event)
    requires Inv(s) && Enabled(s, e) && WaitReturns(s, e)
    ensures |Step(s, e).threads| > 0 && Step(s, e).threads[0].Outside?
  {
    hide InFlight, WaitingCount, RunningCount, FailedCount, Pending, Accounted, BatchesWellFormed, BatchSize, Reversed;
  }

  // ---- Giving up ----

  /** A worker that ends its batch after a quit request empties the queue and waits: what is
      left to do is what the other threads have in hand. */
  lemma QuitEmpties(s: State, i: nat)
    requires Inv(s) && Enabled(s, Finish(i)) && i != 0 && s.fQuit
    ensures Step(s, Finish(i)).queue == [] && Step(s, Finish(i)).threads == s.threads[i := Waiting]
    ensures Step(s, Finish(i)).nTodo == InFlight(s.threads) - s.threads[i].nNow
  {
    FlightAtMost(s.threads, i);
    hide InFlight, WaitingCount, RunningCount, FailedCount, Pending, Accounted;
  }

  /** No thread holds a batch that it did not hold before. */
  ghost predicate NoNewBatch(before: seq<Thread>, after: seq<Thread>) {
    && |after| == |before|
    && forall i :: 0 <= i < |after| && after[i].Working? ==>
         before[i].Working? && after[i].nNow == before[i].nNow && |after[i].todo| <= |before[i].todo|
  }

  lemma DrainedStep(s: State, e: Event)
    requires s.queue == [] && Enabled(s, e) && !e.Add?
    ensures Step(s, e).queue == [] && NoNewBatch(s.threads, Step(s, e).threads)
  {
    hide Dispatch;
    match e
    case Enter(i) => DrainedDispatch(s.(nTotal := s.nTotal + 1), i);
    case Finish(i) => DrainedDispatch(CleanUp(s, i), i);
    case Wake(i) => DrainedDispatch(s.(nIdle := s.nIdle - 1), i);
    case _ =>
  }

  lemma DrainedDispatch(s: State, i: nat)
    requires s.queue == [] && i < |s.threads|
    ensures Dispatch(s, i).queue == [] && NoNewBatch(s.threads, Dispatch(s, i).threads)
  {
    hide BatchSize, Reversed;
  }

  lemma SameBatches(a: seq<Thread>, b: seq<Thread>, c: seq<Thread>)
    ensures NoNewBatch(a, a)
    ensures NoNewBatch(a, b) && NoNewBatch(b, c) ==> NoNewBatch(a, c)
  {
  }

  /** While nothing is queued and nothing is added, no thread takes a batch. */
  lemma {:induction false} DrainedRun(s: State, es: seq<Event>)
    requires s.queue == [] && Possible(s, es) && forall k :: 0 <= k < |es| ==> !es[k].Add?
    ensures Run(s, es).queue == [] && NoNewBatch(s.threads, Run(s, es).threads)
    decreases |es|
  {
    hide Step, Enabled, NoNewBatch;
    if es == [] {
      SameBatches(s.threads, s.threads, s.threads);
    } else {
      DrainedStep(s, es[0]);
      DrainedRun(Step(s, es[0]), es[1..]);
      SameBatches(s.threads, Step(s, es[0]).threads, Run(s, es).threads);
    }
  }

  /** Quit gives up the round: in every schedule, from the moment a worker ends its batch after
      a quit request, only the batches already handed out are run until work is added again. */
  lemma QuitEndsRound(workers: nat, nBatchSize: nat, es: seq<Event>, i: nat, later: seq<Event>)
    requires Possible(Init(workers, nBatchSize), es)
    requires Enabled(Run(Init(workers, nBatchSize), es), Finish(i))
    requires i != 0 && Run(Init(workers, nBatchSize), es).fQuit
    requires Possible(Step(Run(Init(workers, nBatchSize), es), Finish(i)), later)
    requires forall k :: 0 <= k < |later| ==> !later[k].Add?
    ensures var s := Run(Init(workers, nBatchSize), es);
            var r := Run(Step(s, Finish(i)), later);
            r.queue == [] && NoNewBatch(s.threads[i := Waiting], r.threads)
  {
    EveryRunKeeps(workers, nBatchSize, es);
    hide Init, Run, Possible, Inv, NoNewBatch;
    var s := Run(Init(workers, nBatchSize), es);
    QuitEmpties(s, i);
    DrainedRun(Step(s, Finish(i)), later);
  }

  /** The failure of a check is known to the queue and to every batch in hand. */
  ghost predicate Failed(s: State) {
    !s.fAllOk && forall i :: 0 <= i < |s.threads| && s.threads[i].Working? ==> !s.threads[i].fOk
  }

  lemma FailedStep(s: State, e: Event)
    requires Failed(s) && Enabled(s, e) && !WaitReturns(s, e)
    ensures Failed(Step(s, e)) && Step(s, e).executed == s.executed
  {
    hide BatchSize, Reversed;
  }

  /** Wait does not return during the run. */
  predicate NoReturn(s: State, es: seq<Event>)
    requires Possible(s, es)
    decreases |es|
  {
    es == [] || (!WaitReturns(s, es[0]) && NoReturn(Step(s, es[0]), es[1..]))
  }

  /** Once a failure is known everywhere, no schedule runs another check in this round,
      whatever is queued or added. */
  lemma {:induction false} FailureStops(s: State, es: seq<Event>)
    requires Failed(s) && Possible(s, es) && NoReturn(s, es)
    ensures Failed(Run(s, es)) && Run(s, es).executed == s.executed
    decreases |es|
  {
    hide Failed, Step, Enabled, WaitReturns;
    if es != [] {
      FailedStep(s, es[0]);
      FailureStops(Step(s, es[0]), es[1..]);
    }
  }

  /** The queue is a stack: of the checks just added, the last one leads the next batch. */
  lemma LastComesFirst(s: State, checks: seq<Check>, i: nat)
    requires Enabled(s, Add(checks)) && checks != [] && Enabled(Step(s, Add(checks)), Enter(i))
    ensures var t := Step(Step(s, Add(checks)), Enter(i)).threads[i];
            t.Working? && t.todo != [] && t.todo[0] == checks[|checks| - 1]
  {
    hide BatchSize;
    var q := s.queue + checks;
    var k := |q| - BatchSize(s.nBatchSize, |q|, s.nTotal + 1, s.nIdle);
    ReversedFirst(q[k..]);
  }

  lemma {:induction false} ReversedFirst(s: seq<Check>)
    requires s != []
    ensures Reversed(s)[0] == s[|s| - 1]
  {
    if |s| > 1 {
      ReversedFirst(s[1..]);
    }
  }

  // ---- The two loops over a batch ----

  /** Taking checks one at a time from the back of the queue yields its tail reversed. */
  method TakeBatch(queue: seq<Check>, nNow: nat) returns (batch: seq<Check>, rest: seq<Check>)
    requires nNow <= |queue|
    ensures rest == queue[..|queue| - nNow]
    ensures batch == Reversed(queue[|queue| - nNow..])
  {
    batch, rest := [], queue;
    for i := 0 to nNow
      invariant rest == queue[..|queue| - i]
      invariant batch == Reversed(queue[|queue| - i..])
    {
      var back := rest[|rest| - 1];
      assert queue[|queue| - (i + 1)..] == [back] + queue[|queue| - i..];
      batch, rest := batch + [back], rest[..|rest| - 1];
    }
  }

  /** A batch is run up to its first failure and not at all once a failure is known. */
  method ExecuteBatch(batch: seq<Check>, fAllOk: bool) returns (fOk: bool, ran: nat)
    ensures ran <= |batch| && fOk == (fAllOk && AllPass(multiset(batch)))
    ensures fOk ==> ran == |batch|
    ensures fAllOk && !fOk ==> ran >= 1 && !batch[ran - 1].passes && AllPass(multiset(batch[..ran - 1]))
    ensures !fAllOk ==> ran == 0
  {
    fOk, ran := fAllOk, 0;
    for i := 0 to |batch|
      invariant ran <= i
      invariant fOk ==> fAllOk && ran == i
      invariant !fAllOk ==> ran == 0
      invariant fAllOk && !fOk ==> ran >= 1 && !batch[ran - 1].passes
      invariant forall k :: 0 <= k < ran - One(fAllOk && !fOk) ==> batch[k].passes
    {
      if fOk {
        fOk, ran := batch[i].passes, ran + 1;
      }
    }
    assert fAllOk && !fOk ==> batch[ran - 1] in multiset(batch);
  }
}
