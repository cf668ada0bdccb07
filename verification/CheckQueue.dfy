/** The parallel verification queue of src/checkqueue.h as an interleaving transition system:
    one step per critical section, and one per check executed outside the lock. */
module CheckQueue {
  import Bits

  /** A verification and the answer its operator() gives. */
  datatype Check = Check(id: nat, passes: bool)

  /** Where a thread is.  Outside: not in Loop.  Asleep: in cond.wait, possibly already notified.
      Busy: holding a batch, `done` of its checks looked at, with the running result fOk. */
  datatype Thread =
    | Outside
    | Asleep(notified: bool)
    | Busy(batch: seq<Check>, done: nat, ok: bool)

  /** The shared fields, the threads (number 0 is the master), and the checks added since the
      master last returned from Wait. */
  datatype State = State(queue: seq<Check>, nIdle: int, nTotal: int, allOk: bool, nTodo: int,
                         batchSize: nat, threads: seq<Thread>, added: seq<Check>)

  const MASTER := 0

  // ---------- counting over threads ----------

  function Total(f: Thread -> int, ts: seq<Thread>): int {
    if ts == [] then 0 else f(ts[0]) + Total(f, ts[1..])
  }

  lemma {:induction false} TotalUpdate(f: Thread -> int, ts: seq<Thread>, i: nat, t: Thread)
    requires i < |ts|
    ensures Total(f, ts[i := t]) == Total(f, ts) - f(ts[i]) + f(t)
  {
    if i == 0 {
      assert ts[i := t][1..] == ts[1..];
    } else {
      assert ts[i := t][1..] == ts[1..][i - 1 := t];
      TotalUpdate(f, ts[1..], i - 1, t);
    }
  }

  /** A total of non-negative weights is positive exactly when one of them is. */
  lemma {:induction false} TotalPositive(f: Thread -> int, ts: seq<Thread>)
    requires forall t: Thread :: f(t) >= 0
    ensures Total(f, ts) >= 0
    ensures Total(f, ts) > 0 <==> exists i :: 0 <= i < |ts| && f(ts[i]) > 0
  {
    if ts == [] {
    } else {
      TotalPositive(f, ts[1..]);
      if i :| 0 <= i < |ts| && f(ts[i]) > 0 {
        if i > 0 { assert f(ts[1..][i - 1]) > 0; }
      }
      if i :| 0 <= i < |ts| - 1 && f(ts[1..][i]) > 0 { assert f(ts[i + 1]) > 0; }
    }
  }

  function Inside(t: Thread): int { if t.Outside? then 0 else 1 }
  function Sleeping(t: Thread): int { if t.Asleep? then 1 else 0 }
  function InHand(t: Thread): int { if t.Busy? then |t.batch| else 0 }

  predicate AllPass(cs: seq<Check>) {
    forall i :: 0 <= i < |cs| ==> cs[i].passes
  }

  /** A thread that has seen, or still holds, a failing check. */
  function Failing(t: Thread): int {
    if t.Busy? && t.done <= |t.batch| && !(t.ok && AllPass(t.batch[t.done..])) then 1 else 0
  }

  // ---------- the steps ----------

  /** How many checks a thread takes at once: at least one, otherwise no more than a batch and so few that
      as many are left for each other thread, the sleeping ones counted twice; and not fewer than that. */
  function BatchCount(s: State): (n: nat)
    requires s.queue != [] && s.nTotal + s.nIdle + 1 > 0
    ensures 1 <= n <= |s.queue|
    ensures n > 1 ==> n <= s.batchSize && n * (s.nTotal + s.nIdle + 1) <= |s.queue|
    ensures n < s.batchSize ==> (n + 1) * (s.nTotal + s.nIdle + 1) > |s.queue|
  {
    ShareFits(|s.queue|, s.nTotal + s.nIdle + 1, s.batchSize);
    AtLeastOne(s.batchSize, |s.queue| / (s.nTotal + s.nIdle + 1))
  }

  function AtLeastOne(batch: nat, share: int): (n: nat)
    ensures n >= 1
  {
    var n := if batch < share then batch else share;
    if n < 1 then 1 else n
  }

  lemma ShareFits(queue: nat, d: int, batch: nat)
    requires d > 0 && queue > 0
    ensures var n := AtLeastOne(batch, queue / d);
      n <= queue && (n > 1 ==> n <= batch && n * d <= queue) && (n < batch ==> (n + 1) * d > queue)
  {
    var n, q := AtLeastOne(batch, queue / d), queue / d;
    Bits.DivModEq(queue, d);
    Bits.MulMono(1, d, q);
    if n > 1 { Bits.MulMono(n, q, d); }
    if n < batch { Bits.MulMono(q + 1, n + 1, d); }
  }

  /** The checks popped off the back of the queue, last first. */
  function Popped(queue: seq<Check>, n: nat): (batch: seq<Check>)
    requires n <= |queue|
    ensures |batch| == n
  {
    seq(n, i requires 0 <= i < n => queue[|queue| - 1 - i])
  }

  /** The rest of the critical section, from the test `while (queue.empty())` on: the master may
      return, the thread goes to sleep, or it takes a batch. */
  function Proceed(s: State, t: nat): State
    requires t < |s.threads| && s.nTotal + s.nIdle + 1 > 0
  {
    if s.queue == [] then
      if t == MASTER && s.nTodo == 0 then
        s.(nTotal := s.nTotal - 1, allOk := true, threads := s.threads[t := Outside], added := [])
      else
        s.(nIdle := s.nIdle + 1, threads := s.threads[t := Asleep(false)])
    else
      var n := BatchCount(s);
      s.(queue := s.queue[..|s.queue| - n], threads := s.threads[t := Busy(Popped(s.queue, n), 0, s.allOk)])
  }

  /** condMaster.notify_one(). */
  function NotifyMaster(ts: seq<Thread>): (r: seq<Thread>)
    ensures |r| == |ts|
  {
    if ts != [] && ts[MASTER] == Asleep(false) then ts[MASTER := Asleep(true)] else ts
  }

  /** condWorker.notify_all(). */
  function NotifyWorkers(ts: seq<Thread>): (r: seq<Thread>)
    ensures |r| == |ts|
    ensures forall i :: 0 <= i < |ts| ==> r[i] == if i != MASTER && ts[i] == Asleep(false) then Asleep(true) else ts[i]
  {
    seq(|ts|, i requires 0 <= i < |ts| => if i != MASTER && ts[i] == Asleep(false) then Asleep(true) else ts[i])
  }

  /** condWorker.notify_one(): some sleeping worker, chosen by the scheduler, if there is one. */
  function NotifyOne(ts: seq<Thread>, pick: nat): (r: seq<Thread>)
    ensures |r| == |ts|
  {
    if 0 < pick < |ts| && ts[pick] == Asleep(false) then ts[pick := Asleep(true)] else ts
  }

  datatype Step =
    | Add(checks: seq<Check>, pick: nat)   // the master adds a batch
    | Enter(t: nat)                        // a thread enters Loop
    | Execute(t: nat)                      // a thread looks at its next check, outside the lock
    | Finish(t: nat)                       // a thread reports its batch and goes on
    | Wake(t: nat)                         // a sleeping thread wakes, notified or not

  ghost predicate Enabled(s: State, step: Step) {
    match step
    case Add(checks, pick) =>
      && |s.threads| > 0 && s.threads[MASTER].Outside?
      && (|checks| == 1 && (exists i :: 0 < i < |s.threads| && s.threads[i] == Asleep(false)) ==>
          0 < pick < |s.threads| && s.threads[pick] == Asleep(false))
    case Enter(t) => t < |s.threads| && s.threads[t].Outside?
    case Execute(t) => t < |s.threads| && s.threads[t].Busy? && s.threads[t].done < |s.threads[t].batch|
    case Finish(t) => t < |s.threads| && s.threads[t].Busy? && s.threads[t].done == |s.threads[t].batch|
    case Wake(t) => t < |s.threads| && s.threads[t].Asleep?
  }

  /** The clean-up of the previous loop run. */
  function Report(s: State, t: nat): State
    requires t < |s.threads| && s.threads[t].Busy?
  {
    var nTodo := s.nTodo - |s.threads[t].batch|;
    s.(allOk := s.allOk && s.threads[t].ok, nTodo := nTodo,
       threads := if nTodo == 0 && t != MASTER then NotifyMaster(s.threads) else s.threads)
  }

  function Next(s: State, step: Step): State
    requires Inv(s) && Enabled(s, step)
  {
    match step
    case Add(checks, pick) =>
      s.(queue := s.queue + checks, nTodo := s.nTodo + |checks|, added := s.added + checks,
         threads := if |checks| == 1 then NotifyOne(s.threads, pick)
                    else if |checks| > 1 then NotifyWorkers(s.threads) else s.threads)
    case Enter(t) => Proceed(s.(nTotal := s.nTotal + 1), t)
    case Execute(t) =>
      var Busy(batch, done, ok) := s.threads[t];
      s.(threads := s.threads[t := Busy(batch, done + 1, ok && batch[done].passes)])
    case Finish(t) => Proceed(Report(s, t), t)
    case Wake(t) =>
      TotalPositive(Sleeping, s.threads);
      Proceed(s.(nIdle := s.nIdle - 1), t)
  }

  // ---------- the invariant ----------

  ghost predicate Inv(s: State) {
    && |s.threads| > 0
    && s.nTotal == Total(Inside, s.threads) >= 0
    && s.nIdle == Total(Sleeping, s.threads) >= 0
    && s.nTodo == |s.queue| + Total(InHand, s.threads)
    && (forall i :: 0 <= i < |s.threads| ==> BatchOk(s.threads[i]))
    && (AllPass(s.added) <==> s.allOk && AllPass(s.queue) && Total(Failing, s.threads) == 0)
    && (s.threads[MASTER].Asleep? ==> s.queue == [])
    && (s.threads[MASTER] == Asleep(false) ==> s.nTodo > 0)
  }

  predicate BatchOk(t: Thread) {
    t.Busy? ==> 1 <= |t.batch| && t.done <= |t.batch|
  }

  lemma {:induction false} OutsideTotals(ts: seq<Thread>)
    requires forall i :: 0 <= i < |ts| ==> ts[i].Outside?
    ensures Total(Inside, ts) == 0 && Total(Sleeping, ts) == 0
    ensures Total(InHand, ts) == 0 && Total(Failing, ts) == 0
  {
    if ts == [] {
    } else {
      OutsideTotals(ts[1..]);
    }
  }

  /** A new queue, with every thread still outside Loop. */
  function Initial(batchSize: nat, threads: nat): (s: State)
    requires threads > 0
    ensures Inv(s)
  {
    OutsideTotals(seq(threads, _ => Outside));
    State([], 0, 0, true, 0, batchSize, seq(threads, _ => Outside), [])
  }

  // ---------- every step keeps it ----------

  /** The weights of the invariant after one thread changed. */
  lemma ThreadChange(ts: seq<Thread>, i: nat, t: Thread)
    requires i < |ts|
    ensures Total(Inside, ts[i := t]) == Total(Inside, ts) - Inside(ts[i]) + Inside(t)
    ensures Total(Sleeping, ts[i := t]) == Total(Sleeping, ts) - Sleeping(ts[i]) + Sleeping(t)
    ensures Total(InHand, ts[i := t]) == Total(InHand, ts) - InHand(ts[i]) + InHand(t)
    ensures Total(Failing, ts[i := t]) == Total(Failing, ts) - Failing(ts[i]) + Failing(t)
  {
    TotalUpdate(Inside, ts, i, t);
    TotalUpdate(Sleeping, ts, i, t);
    TotalUpdate(InHand, ts, i, t);
    TotalUpdate(Failing, ts, i, t);
  }

  lemma TotalsNonNegative(ts: seq<Thread>)
    ensures Total(Inside, ts) >= 0 && Total(Sleeping, ts) >= 0
    ensures Total(InHand, ts) >= 0 && Total(Failing, ts) >= 0
  {
    TotalPositive(Inside, ts);
    TotalPositive(Sleeping, ts);
    TotalPositive(InHand, ts);
    TotalPositive(Failing, ts);
  }

  /** Nothing fails outside a batch in hand. */
  lemma {:induction false} NothingInHand(ts: seq<Thread>)
    requires Total(InHand, ts) == 0 && forall i :: 0 <= i < |ts| ==> BatchOk(ts[i])
    ensures forall i :: 0 <= i < |ts| ==> !ts[i].Busy?
    ensures Total(Failing, ts) == 0
  {
    TotalPositive(InHand, ts);
    forall i | 0 <= i < |ts| ensures !ts[i].Busy? { assert InHand(ts[i]) <= 0; }
    TotalPositive(Failing, ts);
    assert forall i :: 0 <= i < |ts| ==> Failing(ts[i]) == 0;
    TotalsNonNegative(ts);
  }

  lemma PoppedPass(queue: seq<Check>, n: nat)
    requires n <= |queue|
    ensures AllPass(queue) <==> AllPass(queue[..|queue| - n]) && AllPass(Popped(queue, n))
  {
    var rest, batch := queue[..|queue| - n], Popped(queue, n);
    forall i | 0 <= i < |queue|
      ensures queue[i] == if i < |rest| then rest[i] else batch[|queue| - 1 - i]
    {
    }
    if AllPass(rest) && AllPass(batch) {
      forall i | 0 <= i < |queue| ensures queue[i].passes {}
    }
    if AllPass(queue) {
      forall i | 0 <= i < n ensures batch[i].passes { assert batch[i] == queue[|queue| - 1 - i]; }
    }
  }

  /** The state in the middle of a critical section, when thread t belongs to no count. */
  ghost predicate InvWithout(s: State, t: nat) {
    && t < |s.threads|
    && s.nTotal == Total(Inside, s.threads[t := Outside]) + 1
    && s.nIdle == Total(Sleeping, s.threads[t := Outside])
    && s.nTodo == |s.queue| + Total(InHand, s.threads[t := Outside])
    && (forall i :: 0 <= i < |s.threads| && i != t ==> BatchOk(s.threads[i]))
    && (AllPass(s.added) <==> s.allOk && AllPass(s.queue) && Total(Failing, s.threads[t := Outside]) == 0)
    && (t != MASTER && s.threads[MASTER].Asleep? ==> s.queue == [])
    && (t != MASTER && s.threads[MASTER] == Asleep(false) ==> s.nTodo > 0)
  }

  lemma ProceedInv(s: State, t: nat)
    requires InvWithout(s, t)
    ensures s.nTotal + s.nIdle + 1 > 0
    ensures Inv(Proceed(s, t))
  {
    var ts := s.threads[t := Outside];
    TotalsNonNegative(ts);
    if s.queue != [] {
      var n := BatchCount(s);
      PoppedPass(s.queue, n);
      var b := Busy(Popped(s.queue, n), 0, s.allOk);
      assert s.threads[t := b] == ts[t := b];
      ThreadChange(ts, t, b);
      assert b.batch[b.done..] == b.batch;
      TotalsNonNegative(ts[t := b]);
    } else if t == MASTER && s.nTodo == 0 {
      NothingInHand(ts);
    } else {
      assert s.threads[t := Asleep(false)] == ts[t := Asleep(false)];
      ThreadChange(ts, t, Asleep(false));
      TotalsNonNegative(ts[t := Asleep(false)]);
    }
  }

  lemma EnterInv(s: State, t: nat)
    requires Inv(s) && Enabled(s, Enter(t))
    ensures Inv(Next(s, Enter(t)))
  {
    assert s.threads[t := Outside] == s.threads;
    ProceedInv(s.(nTotal := s.nTotal + 1), t);
  }

  lemma WakeInv(s: State, t: nat)
    requires Inv(s) && Enabled(s, Wake(t))
    ensures Inv(Next(s, Wake(t)))
  {
    ThreadChange(s.threads, t, Outside);
    ProceedInv(s.(nIdle := s.nIdle - 1), t);
  }

  /** Notifying changes no count. */
  lemma NotifyTotals(ts: seq<Thread>, i: nat)
    requires i < |ts| && ts[i] == Asleep(false)
    ensures Total(Inside, ts[i := Asleep(true)]) == Total(Inside, ts)
    ensures Total(Sleeping, ts[i := Asleep(true)]) == Total(Sleeping, ts)
    ensures Total(InHand, ts[i := Asleep(true)]) == Total(InHand, ts)
    ensures Total(Failing, ts[i := Asleep(true)]) == Total(Failing, ts)
  {
    ThreadChange(ts, i, Asleep(true));
  }

  lemma ReportInv(s: State, t: nat)
    requires Inv(s) && Enabled(s, Finish(t))
    ensures InvWithout(Report(s, t), t)
  {
    var b := s.threads[t];
    assert b.batch[b.done..] == [];
    var ts := s.threads[t := Outside];
    ThreadChange(s.threads, t, Outside);
    TotalsNonNegative(s.threads);
    TotalsNonNegative(ts);
    var s' := Report(s, t);
    if s'.nTodo == 0 && t != MASTER && s.threads[MASTER] == Asleep(false) {
      NotifyTotals(ts, MASTER);
      assert s'.threads[t := Outside] == ts[MASTER := Asleep(true)];
    }
  }

  lemma FinishInv(s: State, t: nat)
    requires Inv(s) && Enabled(s, Finish(t))
    ensures InvWithout(Report(s, t), t)
    ensures Inv(Next(s, Finish(t)))
  {
    ReportInv(s, t);
    ProceedInv(Report(s, t), t);
  }

  lemma ExecuteInv(s: State, t: nat)
    requires Inv(s) && Enabled(s, Execute(t))
    ensures Inv(Next(s, Execute(t)))
  {
    var Busy(batch, done, ok) := s.threads[t];
    var b' := Busy(batch, done + 1, ok && batch[done].passes);
    ThreadChange(s.threads, t, b');
    ExecutedStillFailing(batch, done, ok);
  }

  lemma ExecutedStillFailing(batch: seq<Check>, done: nat, ok: bool)
    requires done < |batch|
    ensures Failing(Busy(batch, done + 1, ok && batch[done].passes)) == Failing(Busy(batch, done, ok))
  {
    PassConcat([batch[done]], batch[done + 1..]);
    assert batch[done..] == [batch[done]] + batch[done + 1..];
  }

  lemma {:induction false} NotifyWorkersTotals(ts: seq<Thread>, ts': seq<Thread>)
    requires |ts| == |ts'|
    requires forall i :: 0 <= i < |ts| ==> ts'[i] == ts[i] || (ts[i] == Asleep(false) && ts'[i] == Asleep(true))
    ensures Total(Inside, ts') == Total(Inside, ts)
    ensures Total(Sleeping, ts') == Total(Sleeping, ts)
    ensures Total(InHand, ts') == Total(InHand, ts)
    ensures Total(Failing, ts') == Total(Failing, ts)
  {
    if ts == [] {
    } else {
      NotifyWorkersTotals(ts[1..], ts'[1..]);
    }
  }

  lemma AddInv(s: State, checks: seq<Check>, pick: nat)
    requires Inv(s) && Enabled(s, Add(checks, pick))
    ensures Inv(Next(s, Add(checks, pick)))
  {
    var s' := Next(s, Add(checks, pick));
    NotifyWorkersTotals(s.threads, s'.threads);
    PassConcat(s.queue, checks);
    PassConcat(s.added, checks);
  }

  lemma PassConcat(a: seq<Check>, b: seq<Check>)
    ensures AllPass(a + b) <==> AllPass(a) && AllPass(b)
  {
    assert forall i :: 0 <= i < |a| ==> (a + b)[i] == a[i];
    assert forall i :: 0 <= i < |b| ==> (a + b)[|a| + i] == b[i];
  }

  lemma StepInv(s: State, step: Step)
    requires Inv(s) && Enabled(s, step)
    ensures Inv(Next(s, step))
  {
    match step
    case Add(checks, pick) => AddInv(s, checks, pick);
    case Enter(t) => EnterInv(s, t);
    case Execute(t) => ExecuteInv(s, t);
    case Finish(t) => FinishInv(s, t);
    case Wake(t) => WakeInv(s, t);
  }

  // ---------- whole runs ----------

  /** A run: every step is enabled where it is taken. */
  ghost predicate Legal(s: State, run: seq<Step>)
    requires Inv(s)
    decreases |run|
  {
    run == [] || (Enabled(s, run[0]) && (StepInv(s, run[0]); Legal(Next(s, run[0]), run[1..])))
  }

  ghost function After(s: State, run: seq<Step>): (r: State)
    requires Inv(s) && Legal(s, run)
    ensures Inv(r)
    decreases |run|
  {
    if run == [] then s else
      StepInv(s, run[0]);
      After(Next(s, run[0]), run[1..])
  }

  /** The step with which the master returns from Wait, and the value it returns: fAllOk as the
      critical section finds it. */
  ghost predicate Returns(s: State, step: Step, verdict: bool)
    requires Inv(s) && Enabled(s, step)
  {
    && !step.Add? && step.t == MASTER
    && s.queue == []
    && (match step
        case Enter(_) => s.nTodo == 0 && verdict == s.allOk
        case Wake(_) => s.nTodo == 0 && verdict == s.allOk
        case Finish(t) => s.nTodo - |s.threads[t].batch| == 0 && verdict == (s.allOk && s.threads[t].ok)
        case _ => false)
  }

  /** Wait returns true exactly when every check added since the previous Wait passes; and it
      returns with nothing queued, nothing in hand, and the result reset for the next round. */
  lemma WaitVerdict(s: State, step: Step, verdict: bool)
    requires Inv(s) && Enabled(s, step) && Returns(s, step, verdict)
    ensures verdict <==> AllPass(s.added)
    ensures var s' := Next(s, step);
      && s'.threads[MASTER].Outside? && s'.added == [] && s'.allOk
      && s'.queue == [] && s'.nTodo == 0
      && forall i :: 0 <= i < |s'.threads| ==> !s'.threads[i].Busy?
  {
    match step
    case Finish(t) =>
      ReportInv(s, t);
      ProceedInv(Report(s, t), t);
      NothingInHand(s.threads[t := Outside]);
    case Enter(t) =>
      NothingInHand(s.threads);
    case Wake(t) =>
      NothingInHand(s.threads);
    case _ =>
  }

  /** And nothing else takes the master out of Loop. */
  lemma OnlyReturnsLeave(s: State, step: Step)
    requires Inv(s) && Enabled(s, step) && !step.Add? && step.t == MASTER
    ensures Next(s, step).threads[MASTER].Outside? <==> exists verdict :: Returns(s, step, verdict)
  {
    var verdict := if step.Finish? then s.allOk && s.threads[MASTER].ok else s.allOk;
    assert Returns(s, step, verdict) <==> Next(s, step).threads[MASTER].Outside?;
  }

  /** The checks that a run has added since the master last returned from Wait, after those of `before`. */
  ghost function AddedSince(s: State, run: seq<Step>, before: seq<Check>): seq<Check>
    requires Inv(s) && Legal(s, run)
    decreases |run|
  {
    if run == [] then before else
      StepInv(s, run[0]);
      var now := if run[0].Add? then before + run[0].checks
                 else if exists verdict :: Returns(s, run[0], verdict) then [] else before;
      AddedSince(Next(s, run[0]), run[1..], now)
  }

  lemma {:induction false} AddedIs(s: State, run: seq<Step>)
    requires Inv(s) && Legal(s, run)
    ensures After(s, run).added == AddedSince(s, run, s.added)
    decreases |run|
  {
    if run == [] {
    } else {
      StepInv(s, run[0]);
      if !run[0].Add? { OnlyReturnReset(s, run[0]); }
      AddedIs(Next(s, run[0]), run[1..]);
    }
  }

  lemma OnlyReturnReset(s: State, step: Step)
    requires Inv(s) && Enabled(s, step) && !step.Add?
    ensures Next(s, step).added == if exists verdict :: Returns(s, step, verdict) then [] else s.added
  {
    if step.t == MASTER {
      OnlyReturnsLeave(s, step);
    }
  }

  /** The main theorem, over every interleaving from the start: Wait returns whether all checks pass that
      the run has added since it last returned. */
  lemma EveryWait(batchSize: nat, threads: nat, run: seq<Step>, step: Step, verdict: bool)
    requires threads > 0
    requires Legal(Initial(batchSize, threads), run)
    requires Enabled(After(Initial(batchSize, threads), run), step)
    requires Returns(After(Initial(batchSize, threads), run), step, verdict)
    ensures verdict <==> AllPass(AddedSince(Initial(batchSize, threads), run, []))
  {
    AddedIs(Initial(batchSize, threads), run);
    WaitVerdict(After(Initial(batchSize, threads), run), step, verdict);
  }

  /** Once a check has failed, what is taken from then on is not run: a batch is begun as failed, and stays so
      until it is reported. */
  lemma NoWorkAfterFailure(s: State, step: Step, t: nat)
    requires Inv(s) && Enabled(s, step) && t < |s.threads|
    ensures var was, now := s.threads[t], Next(s, step).threads[t];
      && (!s.allOk && now.Busy? && (!was.Busy? || step == Finish(t)) ==> !now.ok)
      && (was.Busy? && !was.ok && step != Finish(t) ==> now.Busy? && !now.ok)
  {
  }

  // ---------- queued checks are attended to ----------

  predicate Attends(t: Thread) {
    t.Busy? || t == Asleep(true)
  }

  /** While checks are queued, not all threads in Loop are asleep and un-notified. */
  ghost predicate Attended(s: State) {
    s.queue != [] ==>
      || (exists i :: 0 <= i < |s.threads| && Attends(s.threads[i]))
      || (forall i :: 0 <= i < |s.threads| ==> s.threads[i].Outside?)
  }

  lemma StepAttended(s: State, step: Step)
    requires Inv(s) && Enabled(s, step) && Attended(s)
    ensures Attended(Next(s, step))
  {
    var s' := Next(s, step);
    match step
    case Add(checks, pick) =>
      if i :| 0 <= i < |s.threads| && Attends(s.threads[i]) {
        assert Attends(s'.threads[i]);
      } else if i :| 0 < i < |s.threads| && s.threads[i] == Asleep(false) {
        if |checks| == 1 { assert Attends(s'.threads[pick]); }
        if |checks| > 1 { assert Attends(s'.threads[i]); }
      }
    case Enter(t) => assert s'.queue != [] ==> Attends(s'.threads[t]);
    case Execute(t) => assert Attends(s'.threads[t]);
    case Finish(t) => assert s'.queue != [] ==> Attends(s'.threads[t]);
    case Wake(t) => assert s'.queue != [] ==> Attends(s'.threads[t]);
  }

  /** No wake-up of a worker is lost either, in any interleaving. */
  lemma {:induction false} AlwaysAttended(s: State, run: seq<Step>)
    requires Inv(s) && Legal(s, run) && Attended(s)
    ensures Attended(After(s, run))
    decreases |run|
  {
    if run == [] {
    } else {
      StepInv(s, run[0]);
      StepAttended(s, run[0]);
      AlwaysAttended(Next(s, run[0]), run[1..]);
    }
  }

  // ---------- no lost wake-up, and termination of Wait ----------

  ghost predicate Waiting(s: State) {
    |s.threads| > 0 && !s.threads[MASTER].Outside?
  }

  /** While the master sleeps un-notified, some worker holds unfinished work. */
  lemma NoLostWakeup(s: State)
    requires Inv(s) && s.threads[MASTER] == Asleep(false)
    ensures s.queue == [] && exists w :: 0 < w < |s.threads| && s.threads[w].Busy?
  {
    TotalPositive(InHand, s.threads);
    var w :| 0 <= w < |s.threads| && InHand(s.threads[w]) > 0;
    assert s.threads[w].Busy?;
  }

  /** A step that is not a spurious wake-up. */
  ghost predicate Genuine(s: State, step: Step) {
    Enabled(s, step) && !step.Add? && (step.Wake? ==> s.threads[step.t].notified)
  }

  /** No deadlock: while the master is in Wait, some thread can go on without a spurious wake-up. */
  lemma Progress(s: State)
    requires Inv(s) && Waiting(s)
    ensures exists step :: Genuine(s, step)
  {
    var m := s.threads[MASTER];
    if m == Asleep(true) {
      assert Genuine(s, Wake(MASTER));
    } else if m.Busy? {
      BusyCanStep(s, MASTER);
    } else {
      NoLostWakeup(s);
      var w :| 0 < w < |s.threads| && s.threads[w].Busy?;
      BusyCanStep(s, w);
    }
  }

  lemma BusyCanStep(s: State, t: nat)
    requires Inv(s) && t < |s.threads| && s.threads[t].Busy?
    ensures exists step :: Genuine(s, step)
  {
    assert BatchOk(s.threads[t]);
    if s.threads[t].done < |s.threads[t].batch| {
      assert Genuine(s, Execute(t));
    } else {
      assert Genuine(s, Finish(t));
    }
  }

  /** What is left to do for a thread. */
  function Effort(t: Thread): int {
    match t
    case Outside => 1
    case Asleep(notified) => if notified then 1 else 0
    case Busy(batch, done, _) => 2 + if done <= |batch| then |batch| - done else 0
  }

  function Work(s: State): int {
    4 * |s.queue| + Total(Effort, s.threads)
  }

  lemma WorkNonNegative(s: State)
    ensures Work(s) >= 0
  {
    TotalPositive(Effort, s.threads);
  }

  lemma ProceedWork(s: State, t: nat)
    requires t < |s.threads| && s.nTotal + s.nIdle + 1 > 0
    ensures Work(Proceed(s, t)) <= Work(s.(threads := s.threads[t := Asleep(false)]))
      || (t == MASTER && Proceed(s, t).threads[t].Outside?)
  {
    if s.queue != [] {
      var n := BatchCount(s);
      var b := Busy(Popped(s.queue, n), 0, s.allOk);
      TotalUpdate(Effort, s.threads, t, b);
      TotalUpdate(Effort, s.threads, t, Asleep(false));
    }
  }

  /** Every genuine step of a Wait that does not return from it leaves strictly less work. */
  lemma WorkDecreases(s: State, step: Step)
    requires Inv(s) && Waiting(s) && Genuine(s, step) && Waiting(Next(s, step))
    ensures Work(Next(s, step)) < Work(s)
  {
    var t := step.t;
    match step
    case Enter(_) =>
      ProceedWork(s.(nTotal := s.nTotal + 1), t);
      TotalUpdate(Effort, s.threads, t, Asleep(false));
    case Execute(_) =>
      TotalUpdate(Effort, s.threads, t, Next(s, step).threads[t]);
    case Finish(_) =>
      ReportInv(s, t);
      var s1 := Report(s, t);
      TotalsNonNegative(s1.threads[t := Outside]);
      ProceedWork(s1, t);
      TotalUpdate(Effort, s.threads, MASTER, Asleep(true));
      TotalUpdate(Effort, s1.threads, t, Asleep(false));
    case Wake(_) =>
      TotalPositive(Sleeping, s.threads);
      ProceedWork(s.(nIdle := s.nIdle - 1), t);
      TotalUpdate(Effort, s.threads, t, Asleep(false));
  }

  /** A spurious wake-up never makes more work. */
  lemma SpuriousWork(s: State, t: nat)
    requires Inv(s) && Enabled(s, Wake(t)) && !s.threads[t].notified && Waiting(Next(s, Wake(t)))
    ensures Work(Next(s, Wake(t))) <= Work(s)
  {
    TotalPositive(Sleeping, s.threads);
    ProceedWork(s.(nIdle := s.nIdle - 1), t);
    assert s.threads[t := Asleep(false)] == s.threads;
  }

  /** A run, spurious wake-ups included, during which the master stays in Wait. */
  ghost predicate StaysWaiting(s: State, run: seq<Step>)
    requires Inv(s)
    decreases |run|
  {
    Waiting(s) && (run != [] ==>
      Enabled(s, run[0]) && (StepInv(s, run[0]); StaysWaiting(Next(s, run[0]), run[1..])))
  }

  ghost function GenuineSteps(s: State, run: seq<Step>): nat
    requires Inv(s) && StaysWaiting(s, run)
    decreases |run|
  {
    if run == [] then 0 else
      StepInv(s, run[0]);
      (if Genuine(s, run[0]) then 1 else 0) + GenuineSteps(Next(s, run[0]), run[1..])
  }

  /** Wait ends in every schedule, however many spurious wake-ups it has: no more than Work(s) other
      steps pass before it returns. */
  lemma {:induction false} WaitTerminates(s: State, run: seq<Step>)
    requires Inv(s) && StaysWaiting(s, run)
    ensures GenuineSteps(s, run) <= Work(s)
    decreases |run|
  {
    WorkNonNegative(s);
    if run == [] {
    } else {
      StepInv(s, run[0]);
      WaitTerminates(Next(s, run[0]), run[1..]);
      if Genuine(s, run[0]) {
        WorkDecreases(s, run[0]);
      } else {
        SpuriousWork(s, run[0].t);
      }
    }
  }
}
