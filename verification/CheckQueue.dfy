/** The parallel check queue: one master and any number of workers under one mutex.

    Every locked section of the loop is one atomic step; running a check is a step of its own.  `added`,
    `finished` and `executed` record the current round and never influence a step. */
module CheckQueue {
  import Arith
  import opened Basics

  const MAX_UINT32: nat := 0xffff_ffff

  datatype Check = Check(id: nat, passes: bool)

  /** Where one thread stands in the loop.  A working thread holds its batch; `ran` of its checks have been
      visited, and `did` were really executed. */
  datatype Thread =
    | Outside
    | Starting
    | Waiting
    | Working(batch: seq<Check>, ran: nat, ok: bool, did: multiset<Check>)

  /** Thread 0 is the master. */
  datatype State = State(
    queue: seq<Check>, nIdle: int, nTotal: int, fAllOk: bool, nTodo: nat,
    threads: seq<Thread>,
    added: multiset<Check>, finished: multiset<Check>, executed: multiset<Check>)

  datatype Event = Silent | Returned(result: bool)

  /** A fresh queue; `workers` threads besides the master have not entered the loop yet. */
  function Start(workers: nat): (s: State)
    ensures Inv(s)
  {
    var s := State([], 0, 0, true, 0, seq(workers + 1, i => Outside), multiset{}, multiset{}, multiset{});
    StartsGood(s);
    s
  }

  // ----- The locked section -----

  /** Clean-up after the previous batch, or registration on the first iteration. */
  function CleanUp(s: State, t: nat): (r: State)
    requires t < |s.threads|
  {
    match s.threads[t]
    case Working(batch, _, ok, did) =>
      var nTodo := if s.nTodo >= |batch| then s.nTodo - |batch| else s.nTodo;
      s.(fAllOk := s.fAllOk && ok,
         nTodo := nTodo,
         queue := if nTodo == 0 && t != 0 then [] else s.queue,
         finished := s.finished + multiset(batch),
         executed := s.executed + did)
    case _ => s.(nTotal := s.nTotal + 1)
  }

  /** Out of the timed wait. */
  function Awake(s: State): (r: State) {
    s.(nIdle := s.nIdle - 1)
  }


  /** How many checks a thread takes from a queue of `size`. */
  function BatchSize(size: nat, nTotal: int, nIdle: int, limit: nat): (n: nat)
    requires nTotal + nIdle + 1 > 0
  {
    Max(1, Min(limit, size / (nTotal + nIdle + 1)))
  }

  /** A batch is popped from the back of the queue, one check at a time. */
  function Popped(q: seq<Check>): (r: seq<Check>)
    ensures |r| == |q| && multiset(r) == multiset(q)
  {
    if q == [] then []
    else
      assert q == q[..|q| - 1] + [q[|q| - 1]];
      [q[|q| - 1]] + Popped(q[..|q| - 1])
  }

  /** The loop head: return, wait, or take a batch. */
  function Settle(s: State, t: nat, limit: nat): (r: (State, Event))
    requires t < |s.threads|
    requires s.nTotal >= 0 && s.nIdle >= 0
  {
    if s.queue == [] then
      if t == 0 && s.nTodo == 0 then
        (s.(nTotal := s.nTotal - 1, fAllOk := true, threads := s.threads[t := Outside],
            added := multiset{}, finished := multiset{}, executed := multiset{}),
         Returned(s.fAllOk))
      else
        (s.(nIdle := s.nIdle + 1, threads := s.threads[t := Waiting]), Silent)
    else
      var n := BatchSize(|s.queue|, s.nTotal, s.nIdle, limit);
      BatchFits(|s.queue|, s.nTotal, s.nIdle, limit);
      var rest := |s.queue| - n;
      (s.(queue := s.queue[..rest],
          threads := s.threads[t := Working(Popped(s.queue[rest..]), 0, s.fAllOk, multiset{})]),
       Silent)
  }

  lemma BatchFits(size: nat, nTotal: int, nIdle: int, limit: nat)
    requires size > 0 && nTotal >= 0 && nIdle >= 0
    ensures 1 <= BatchSize(size, nTotal, nIdle, limit) <= size
  {
    Arith.DivLe(size, nTotal + nIdle + 1);
  }

  // ----- Steps -----

  datatype Step =
    | Add(checks: seq<Check>)   // the master queues work
    | Call(t: nat)              // a thread enters the loop
    | Lock(t: nat)              // first iteration, or a finished batch
    | Wake(t: nat)              // out of the timed wait
    | Run(t: nat)               // one check of a batch

  ghost predicate Enabled(s: State, step: Step) {
    match step
    case Add(checks) => |s.threads| > 0 && s.threads[0].Outside? && s.nTodo + |checks| <= MAX_UINT32
    case Call(t) => t < |s.threads| && s.threads[t].Outside?
    case Lock(t) =>
      && t < |s.threads|
      && (s.threads[t].Starting? || (s.threads[t].Working? && s.threads[t].ran == |s.threads[t].batch|))
    case Wake(t) => t < |s.threads| && s.threads[t].Waiting?
    case Run(t) => t < |s.threads| && s.threads[t].Working? && s.threads[t].ran < |s.threads[t].batch|
  }

  function After(s: State, step: Step, limit: nat): (r: (State, Event))
    requires Enabled(s, step)
    requires Inv(s)
  {
    match step
    case Add(checks) =>
      (s.(queue := s.queue + checks, nTodo := s.nTodo + |checks|, added := s.added + multiset(checks)), Silent)
    case Call(t) =>
      (s.(threads := s.threads[t := Starting]), Silent)
    case Lock(t) =>
      Settle(CleanUp(s, t), t, limit)
    case Wake(t) =>
      AllUpdates(s.threads, t, Starting);
      Settle(Awake(s), t, limit)
    case Run(t) =>
      (s.(threads := s.threads[t := RunOne(s.threads[t])]), Silent)
  }

  // ----- The invariant -----

  /** The sum of a weight over all threads. */
  ghost function Sum(threads: seq<Thread>, w: Thread -> nat): (n: nat) {
    if threads == [] then 0 else w(threads[0]) + Sum(threads[1..], w)
  }

  ghost function Inside(th: Thread): nat { if th.Waiting? || th.Working? then 1 else 0 }
  ghost function Idle(th: Thread): nat { if th.Waiting? then 1 else 0 }
  ghost function Load(th: Thread): nat { if th.Working? then |th.batch| else 0 }
  ghost function Copies(c: Check, th: Thread): nat { if th.Working? then multiset(th.batch)[c] else 0 }
  ghost function CopiesOf(c: Check): Thread -> nat { th => Copies(c, th) }

  ghost predicate AllPass(m: multiset<Check>) {
    forall c :: c in m ==> c.passes
  }

  /** A thread's own verdict is backed by checks it ran, or by a failure already reported. */
  ghost predicate ThreadOk(th: Thread, failed: bool) {
    th.Working? ==>
      && 0 <= th.ran <= |th.batch| && |th.batch| > 0
      && th.did <= multiset(th.batch[..th.ran])
      && (th.ok ==> th.did == multiset(th.batch[..th.ran]) && AllPass(th.did))
      && (!th.ok ==> failed || !AllPass(th.did))
  }

  /** Every check of the round is queued, held by a thread, or finished; none is lost or doubled. */
  ghost predicate Conserved(s: State, threads: seq<Thread>) {
    forall c :: s.added[c] == multiset(s.queue)[c] + Sum(threads, CopiesOf(c)) + s.finished[c]
  }

  ghost predicate VerdictOk(s: State) {
    && s.executed <= s.finished
    && (s.fAllOk ==> s.executed == s.finished)
    && (s.fAllOk <==> AllPass(s.executed))
  }

  ghost predicate Inv(s: State) {
    && |s.threads| > 0
    && s.nTotal == Sum(s.threads, Inside) && s.nIdle == Sum(s.threads, Idle)
    && s.nTodo == |s.queue| + Sum(s.threads, Load)
    && Conserved(s, s.threads)
    && VerdictOk(s)
    && (forall t :: 0 <= t < |s.threads| ==> ThreadOk(s.threads[t], !s.fAllOk))
  }

  lemma {:induction false} SumUpdate(threads: seq<Thread>, t: nat, th: Thread, w: Thread -> nat)
    requires t < |threads|
    ensures Sum(threads[t := th], w) == Sum(threads, w) - w(threads[t]) + w(th)
    ensures w(threads[t]) <= Sum(threads, w)
  {
    var after := threads[t := th];
    if t == 0 {
      assert after[1..] == threads[1..];
    } else {
      SumUpdate(threads[1..], t - 1, th, w);
      assert after[1..] == threads[1..][t - 1 := th];
    }
  }

  lemma AllUpdates(threads: seq<Thread>, t: nat, th: Thread)
    requires t < |threads|
    ensures Sum(threads[t := th], Inside) == Sum(threads, Inside) - Inside(threads[t]) + Inside(th)
    ensures Sum(threads[t := th], Idle) == Sum(threads, Idle) - Idle(threads[t]) + Idle(th)
    ensures Sum(threads[t := th], Load) == Sum(threads, Load) - Load(threads[t]) + Load(th)
    ensures forall c :: Sum(threads[t := th], CopiesOf(c)) ==
                        Sum(threads, CopiesOf(c)) - Copies(c, threads[t]) + Copies(c, th)
    ensures Load(threads[t]) <= Sum(threads, Load) && Idle(threads[t]) <= Sum(threads, Idle)
  {
    SumUpdate(threads, t, th, Inside);
    SumUpdate(threads, t, th, Idle);
    SumUpdate(threads, t, th, Load);
    forall c ensures Sum(threads[t := th], CopiesOf(c)) ==
                     Sum(threads, CopiesOf(c)) - Copies(c, threads[t]) + Copies(c, th) {
      SumUpdate(threads, t, th, CopiesOf(c));
    }
  }

  lemma {:induction false} AllOutside(threads: seq<Thread>, w: Thread -> nat)
    requires forall t :: 0 <= t < |threads| ==> threads[t] == Outside
    requires w(Outside) == 0
    ensures Sum(threads, w) == 0
  {
    if threads != [] {
      AllOutside(threads[1..], w);
    }
  }

  lemma StartsGood(s: State)
    requires |s.threads| > 0 && forall t :: 0 <= t < |s.threads| ==> s.threads[t] == Outside
    requires s == State([], 0, 0, true, 0, s.threads, multiset{}, multiset{}, multiset{})
    ensures Inv(s)
  {
    AllOutside(s.threads, Inside);
    AllOutside(s.threads, Idle);
    AllOutside(s.threads, Load);
    forall c ensures Sum(s.threads, CopiesOf(c)) == 0 {
      AllOutside(s.threads, CopiesOf(c));
    }
  }

  /** What holds between clean-up and the loop head: the thread is in the loop, with nothing in hand. */
  ghost predicate Between(s: State, t: nat) {
    && t < |s.threads|
    && var free := s.threads[t := Starting];
    && s.nTotal == Sum(free, Inside) + 1 && s.nIdle == Sum(free, Idle)
    && s.nTodo == |s.queue| + Sum(free, Load)
    && Conserved(s, free)
    && VerdictOk(s)
    && (forall u :: 0 <= u < |s.threads| && u != t ==> ThreadOk(s.threads[u], !s.fAllOk))
  }

  lemma CleanUpKeeps(s: State, t: nat)
    requires Inv(s) && Enabled(s, Lock(t))
    ensures Between(CleanUp(s, t), t)
    ensures CleanUp(s, t).threads == s.threads && CleanUp(s, t).added == s.added
  {
    if s.threads[t].Working? {
      CleanUpHandsIn(s, t);
      FinishKeeps(s, t);
    } else {
      AllUpdates(s.threads, t, Starting);
      assert s.threads[t := Starting] == s.threads;
    }
  }

  /** A finished batch handed in: the guards of the clean-up never bite, and it leaves the queue alone. */
  ghost function HandedIn(s: State, w: Thread): (r: State)
    requires w.Working? && s.nTodo >= |w.batch|
  {
    s.(fAllOk := s.fAllOk && w.ok, nTodo := s.nTodo - |w.batch|,
       finished := s.finished + multiset(w.batch), executed := s.executed + w.did)
  }

  lemma CleanUpHandsIn(s: State, t: nat)
    requires Inv(s) && t < |s.threads| && s.threads[t].Working?
    ensures s.nTodo >= |s.threads[t].batch|
    ensures CleanUp(s, t) == HandedIn(s, s.threads[t])
  {
    AllUpdates(s.threads, t, Starting);
  }

  lemma FinishKeeps(s: State, t: nat)
    requires Inv(s) && t < |s.threads| && s.threads[t].Working? && s.threads[t].ran == |s.threads[t].batch|
    requires s.nTodo >= |s.threads[t].batch|
    ensures Between(HandedIn(s, s.threads[t]), t)
  {
    var w := s.threads[t];
    AllUpdates(s.threads, t, Starting);
    assert ThreadOk(w, !s.fAllOk);
    assert w.batch[..w.ran] == w.batch;
    VerdictAdds(s, w);
  }

  lemma VerdictAdds(s: State, w: Thread)
    requires VerdictOk(s) && w.Working? && ThreadOk(w, !s.fAllOk) && w.batch[..w.ran] == w.batch
    ensures VerdictOk(s.(fAllOk := s.fAllOk && w.ok, finished := s.finished + multiset(w.batch),
                         executed := s.executed + w.did))
  {
    if !(s.fAllOk && w.ok) {
      var c :| (c in s.executed || c in w.did) && !c.passes;
      assert c in s.executed + w.did;
    }
  }

  /** The thread in hand gets a new state `th` that holds exactly what left the queue. */
  lemma HandOver(s: State, t: nat, th: Thread, r: State)
    requires Between(s, t)
    requires r == s.(queue := r.queue, threads := s.threads[t := th], nIdle := s.nIdle + Idle(th))
    requires th.Waiting? || th.Working?
    requires |s.queue| == |r.queue| + Load(th)
    requires forall c :: multiset(s.queue)[c] == multiset(r.queue)[c] + Copies(c, th)
    requires ThreadOk(th, !s.fAllOk)
    ensures Inv(r)
  {
    var free := s.threads[t := Starting];
    AllUpdates(free, t, th);
    assert free[t := th] == r.threads;
  }

  lemma ReturnKeeps(s: State)
    requires Between(s, 0) && s.queue == [] && s.nTodo == 0
    ensures Inv(s.(nTotal := s.nTotal - 1, fAllOk := true, threads := s.threads[0 := Outside],
                   added := multiset{}, finished := multiset{}, executed := multiset{}))
    ensures Report(s, 0, s.fAllOk)
  {
    var free, gone := s.threads[0 := Starting], s.threads[0 := Outside];
    AllUpdates(free, 0, Outside);
    assert free[0 := Outside] == gone;
    forall u | 0 <= u < |free| ensures !free[u].Working? && !gone[u].Working? {
      if u != 0 {
        SumUpdate(free, u, Outside, Load);
        assert ThreadOk(s.threads[u], !s.fAllOk);
      }
    }
    AllFinished(s, free);
    var r := s.(nTotal := s.nTotal - 1, fAllOk := true, threads := gone,
                added := multiset{}, finished := multiset{}, executed := multiset{});
    AllFinished(r, gone);
  }

  lemma AllFinished(s: State, threads: seq<Thread>)
    requires s.queue == []
    requires forall u :: 0 <= u < |threads| ==> !threads[u].Working?
    ensures Conserved(s, threads) <==> s.added == s.finished
  {
    forall c ensures Sum(threads, CopiesOf(c)) == 0 {
      NobodyWorks(threads, c);
    }
    if Conserved(s, threads) {
      assert forall c :: s.added[c] == s.finished[c];
    }
  }

  lemma {:induction false} NobodyWorks(threads: seq<Thread>, c: Check)
    requires forall u :: 0 <= u < |threads| ==> !threads[u].Working?
    ensures Sum(threads, CopiesOf(c)) == 0
  {
    if threads != [] {
      NobodyWorks(threads[1..], c);
    }
  }

  lemma TakeKeeps(s: State, t: nat, rest: nat)
    requires Between(s, t) && rest < |s.queue|
    ensures Inv(s.(queue := s.queue[..rest],
                   threads := s.threads[t := Working(Popped(s.queue[rest..]), 0, s.fAllOk, multiset{})]))
  {
    var th := Working(Popped(s.queue[rest..]), 0, s.fAllOk, multiset{});
    assert s.queue == s.queue[..rest] + s.queue[rest..];
    assert ThreadOk(th, !s.fAllOk);
    HandOver(s, t, th, s.(queue := s.queue[..rest], threads := s.threads[t := th]));
  }

  lemma SettleTakes(s: State, t: nat, limit: nat)
    requires Between(s, t) && s.queue != []
    ensures Inv(Settle(s, t, limit).0)
  {
    BatchFits(|s.queue|, s.nTotal, s.nIdle, limit);
    TakeKeeps(s, t, |s.queue| - BatchSize(|s.queue|, s.nTotal, s.nIdle, limit));
  }

  lemma SettleWaits(s: State, t: nat, limit: nat)
    requires Between(s, t) && s.queue == [] && !(t == 0 && s.nTodo == 0)
    ensures Inv(Settle(s, t, limit).0)
  {
    HandOver(s, t, Waiting, s.(nIdle := s.nIdle + 1, threads := s.threads[t := Waiting]));
  }

  /** The loop head keeps the invariant, and a return reports exactly the round's conjunction. */
  lemma SettleKeeps(s: State, t: nat, limit: nat)
    requires Between(s, t)
    ensures Inv(Settle(s, t, limit).0)
    ensures Settle(s, t, limit).1.Returned? ==> Report(s, t, Settle(s, t, limit).1.result)
  {
    if s.queue != [] {
      SettleTakes(s, t, limit);
    } else if t == 0 && s.nTodo == 0 {
      ReturnKeeps(s);
    } else {
      SettleWaits(s, t, limit);
    }
  }

  /** A return happens only when all work of the round is done, and reports its conjunction; a positive report
      means every check of the round ran, a negative one that some check ran and failed. */
  ghost predicate Report(s: State, t: nat, result: bool) {
    && t == 0 && s.nTodo == 0 && s.queue == []
    && s.finished == s.added
    && (result <==> AllPass(s.added))
    && (result ==> s.executed == s.added)
    && (!result ==> exists c :: c in s.executed && !c.passes)
  }

  /** The state just before the loop head, for the steps that take the lock. */
  ghost function Locked(s: State, step: Step): (r: State)
    requires (step.Lock? || step.Wake?) && Enabled(s, step)
  {
    if step.Lock? then CleanUp(s, step.t) else Awake(s)
  }

  /** Only a step of the master that takes the lock returns, and it returns the round's conjunction. */
  lemma ReturnReports(s: State, step: Step, limit: nat)
    requires Inv(s) && Enabled(s, step)
    requires After(s, step, limit).1.Returned?
    ensures step == Lock(0) || step == Wake(0)
    ensures Locked(s, step).added == s.added
    ensures Report(Locked(s, step), 0, After(s, step, limit).1.result)
  {
    if step.Lock? {
      CleanUpKeeps(s, step.t);
      SettleKeeps(CleanUp(s, step.t), step.t, limit);
    } else {
      WakeKeeps(s, step.t);
      SettleKeeps(Awake(s), step.t, limit);
    }
  }

  /** Every step keeps the invariant. */
  lemma StepKeeps(s: State, step: Step, limit: nat)
    requires Inv(s) && Enabled(s, step)
    ensures Inv(After(s, step, limit).0)
  {
    match step
    case Add(checks) => AddKeeps(s, checks, limit);
    case Call(t) => CallKeeps(s, t, limit);
    case Lock(t) => LockKeeps(s, t, limit);
    case Wake(t) => WaitOverKeeps(s, t, limit);
    case Run(t) => RunKeeps(s, t, limit);
  }

  lemma LockKeeps(s: State, t: nat, limit: nat)
    requires Inv(s) && Enabled(s, Lock(t))
    ensures Inv(After(s, Lock(t), limit).0)
  {
    CleanUpKeeps(s, t);
    SettleKeeps(CleanUp(s, t), t, limit);
  }

  lemma WaitOverKeeps(s: State, t: nat, limit: nat)
    requires Inv(s) && Enabled(s, Wake(t))
    ensures Inv(After(s, Wake(t), limit).0)
  {
    WakeKeeps(s, t);
    SettleKeeps(Awake(s), t, limit);
  }

  lemma AddKeeps(s: State, checks: seq<Check>, limit: nat)
    requires Inv(s) && Enabled(s, Add(checks))
    ensures Inv(After(s, Add(checks), limit).0)
  {
  }

  lemma CallKeeps(s: State, t: nat, limit: nat)
    requires Inv(s) && Enabled(s, Call(t))
    ensures Inv(After(s, Call(t), limit).0)
  {
    AllUpdates(s.threads, t, Starting);
  }

  lemma WakeKeeps(s: State, t: nat)
    requires Inv(s) && t < |s.threads| && s.threads[t].Waiting?
    ensures Between(Awake(s), t)
  {
    AllUpdates(s.threads, t, Starting);
  }

  /** One check of a batch: executed if nothing has failed so far, skipped otherwise. */
  function RunOne(w: Thread): (th: Thread)
    requires w.Working? && w.ran < |w.batch|
  {
    var c := w.batch[w.ran];
    Working(w.batch, w.ran + 1, w.ok && c.passes, if w.ok then w.did + multiset{c} else w.did)
  }

  lemma RunOneKeeps(w: Thread, failed: bool)
    requires w.Working? && w.ran < |w.batch| && ThreadOk(w, failed)
    ensures ThreadOk(RunOne(w), failed)
  {
    var c, th := w.batch[w.ran], RunOne(w);
    assert w.batch[..w.ran + 1] == w.batch[..w.ran] + [c];
    assert multiset(w.batch[..w.ran + 1]) == multiset(w.batch[..w.ran]) + multiset{c};
    if w.ok {
      assert c in th.did;
    }
  }

  lemma RunKeeps(s: State, t: nat, limit: nat)
    requires Inv(s) && Enabled(s, Run(t))
    ensures Inv(After(s, Run(t), limit).0)
  {
    RunOneKeeps(s.threads[t], !s.fAllOk);
    ReplaceKeeps(s, t, RunOne(s.threads[t]));
  }

  lemma ReplaceKeeps(s: State, t: nat, th: Thread)
    requires Inv(s) && t < |s.threads| && s.threads[t].Working?
    requires th.Working? && th.batch == s.threads[t].batch && ThreadOk(th, !s.fAllOk)
    ensures Inv(s.(threads := s.threads[t := th]))
  {
    AllUpdates(s.threads, t, th);
  }

  // ----- Whole runs -----

  ghost predicate LegalRun(s: State, steps: seq<Step>, limit: nat)
    requires Inv(s)
    decreases |steps|
  {
    steps == [] || (Enabled(s, steps[0]) && (StepKeeps(s, steps[0], limit);
                                             LegalRun(After(s, steps[0], limit).0, steps[1..], limit)))
  }

  ghost function Final(s: State, steps: seq<Step>, limit: nat): (r: State)
    requires Inv(s) && LegalRun(s, steps, limit)
    decreases |steps|
    ensures Inv(r)
  {
    if steps == [] then s
    else
      StepKeeps(s, steps[0], limit);
      Final(After(s, steps[0], limit).0, steps[1..], limit)
  }

  /** In every run, with any number of workers and any batch limit: the outstanding count is exact, no check is
      lost or doubled, and a return of Wait is exactly the conjunction of the checks added in its round. */
  lemma WaitIsExact(workers: nat, steps: seq<Step>, step: Step, limit: nat)
    requires LegalRun(Start(workers), steps, limit)
    ensures var s := Final(Start(workers), steps, limit);
            && s.nTodo == |s.queue| + Sum(s.threads, Load)
            && Conserved(s, s.threads)
            && (Enabled(s, step) && After(s, step, limit).1.Returned? ==>
                  && (After(s, step, limit).1.result <==> AllPass(s.added))
                  && After(s, step, limit).0.nTodo == 0)
  {
    var s := Final(Start(workers), steps, limit);
    if Enabled(s, step) && After(s, step, limit).1.Returned? {
      ReturnReports(s, step, limit);
      StepKeeps(s, step, limit);
    }
  }

  // ----- Progress -----

  ghost function Effort(th: Thread): nat {
    match th
    case Starting => 1
    case Working(batch, ran, _, _) => if ran <= |batch| then 2 * (|batch| - ran) + 1 else 1
    case _ => 0
  }

  /** What is left to do; every step named below brings it down. */
  ghost function Rank(s: State): nat {
    4 * |s.queue| + Sum(s.threads, Effort)
  }

  /** A thread that has something to settle makes progress by settling. */
  lemma SettleProgress(s: State, t: nat, limit: nat)
    requires Between(s, t)
    requires s.threads[t].Starting? || s.threads[t].Working? || s.queue != [] || (t == 0 && s.nTodo == 0)
    ensures var (r, e) := Settle(s, t, limit); e.Returned? || Rank(r) < Rank(s)
  {
    var r := Settle(s, t, limit).0;
    SumUpdate(s.threads, t, r.threads[t], Effort);
    if s.queue != [] {
      BatchFits(|s.queue|, s.nTotal, s.nIdle, limit);
      var n := BatchSize(|s.queue|, s.nTotal, s.nIdle, limit);
      assert |r.threads[t].batch| == n && |r.queue| == |s.queue| - n;
      assert Effort(r.threads[t]) == 2 * n + 1;
    }
  }

  /** A working thread can always bring the rank down. */
  lemma WorkProgress(s: State, t: nat, limit: nat)
    requires Inv(s) && t < |s.threads| && s.threads[t].Working?
    ensures var step := if s.threads[t].ran < |s.threads[t].batch| then Run(t) else Lock(t);
            Enabled(s, step) && (After(s, step, limit).1.Returned? || Rank(After(s, step, limit).0) < Rank(s))
  {
    assert ThreadOk(s.threads[t], !s.fAllOk);
    if s.threads[t].ran < |s.threads[t].batch| {
      SumUpdate(s.threads, t, RunOne(s.threads[t]), Effort);
    } else {
      CleanUpKeeps(s, t);
      CleanUpHandsIn(s, t);
      SettleProgress(CleanUp(s, t), t, limit);
    }
  }

  /** While the master waits for a result, some step is possible that returns it or leaves strictly less to do:
      no reachable state is stuck. */
  lemma NeverStuck(s: State, limit: nat) returns (step: Step)
    requires Inv(s) && !s.threads[0].Outside?
    ensures Enabled(s, step)
    ensures After(s, step, limit).1.Returned? || Rank(After(s, step, limit).0) < Rank(s)
  {
    match s.threads[0]
    case Working(_, ran, _, _) =>
      step := if ran < |s.threads[0].batch| then Run(0) else Lock(0);
      WorkProgress(s, 0, limit);
    case Starting =>
      step := Lock(0);
      CleanUpKeeps(s, 0);
      SettleProgress(CleanUp(s, 0), 0, limit);
    case Waiting =>
      if s.queue != [] || s.nTodo == 0 {
        step := Wake(0);
        WakeKeeps(s, 0);
        SettleProgress(Awake(s), 0, limit);
      } else {
        var t := FindWorker(s.threads);
        step := if s.threads[t].ran < |s.threads[t].batch| then Run(t) else Lock(t);
        WorkProgress(s, t, limit);
      }
  }

  lemma {:induction false} FindWorker(threads: seq<Thread>) returns (t: nat)
    requires Sum(threads, Load) > 0
    ensures t < |threads| && threads[t].Working?
  {
    if threads[0].Working? {
      t := 0;
    } else {
      t := FindWorker(threads[1..]);
      t := t + 1;
    }
  }
}
