/** The device lock of pvr/pvr_bridge_k.c: a lock word and a wait queue, used by any number of
    threads.  Each step below is one access to shared memory or one call into the scheduler that is
    atomic under the wait queue's own lock; steps of different threads interleave freely. */
module DevLock {

  /** Where a thread is in pvr_dev_lock or pvr_dev_unlock. */
  datatype Pc = Outside | Trying | Preparing | Checking | Scheduled | Finishing | Holding | Clearing | Waking

  datatype Step =
    | Call(t: nat)            // enters pvr_dev_lock
    | CmpXchg(t: nat)         // takes the lock word if it is 0
    | PrepareToWait(t: nat)   // joins the queue, task state UNINTERRUPTIBLE
    | Check(t: nat)           // looks at the lock word once more
    | Resume(t: nat)          // schedule() returns; only to a task that is RUNNING
    | FinishWait(t: nat)      // leaves the queue, task state RUNNING
    | BugOn(t: nat)           // enters pvr_dev_unlock
    | Clear(t: nat)           // stores 0 to the lock word
    | WakeUp(t: nat)          // wakes whoever is in the queue
    | Disturb(t: nat)         // something else sets the task state of t to RUNNING

  /** The lock word, the wait queue, the tasks whose state is UNINTERRUPTIBLE, and where each thread is. */
  datatype State = State(locked: bool, queue: set<nat>, asleep: set<nat>, pcs: map<nat, Pc>)
  {
    function At(t: nat): Pc { if t in pcs then pcs[t] else Outside }

    function Go(t: nat, pc: Pc): State { this.(pcs := pcs[t := pc]) }
  }

  const START := State(false, {}, {}, map[])

  /** Whether the thread is at the point where the step is taken.  Only a thread that holds the lock
      calls pvr_dev_unlock. */
  predicate Enabled(s: State, step: Step) {
    match step
    case Call(t) => s.At(t) == Outside
    case CmpXchg(t) => s.At(t) == Trying
    case PrepareToWait(t) => s.At(t) == Preparing
    case Check(t) => s.At(t) == Checking
    case Resume(t) => s.At(t) == Scheduled && t !in s.asleep
    case FinishWait(t) => s.At(t) == Finishing
    case BugOn(t) => s.At(t) == Holding
    case Clear(t) => s.At(t) == Clearing
    case WakeUp(t) => s.At(t) == Waking
    case Disturb(t) => true
  }

  function Do(s: State, step: Step): State {
    match step
    case Call(t) => s.Go(t, Trying)
    case CmpXchg(t) => if s.locked then s.Go(t, Preparing) else s.(locked := true).Go(t, Holding)
    case PrepareToWait(t) => s.(queue := s.queue + {t}, asleep := s.asleep + {t}).Go(t, Checking)
    case Check(t) => if s.locked then s.Go(t, Scheduled) else s.Go(t, Finishing)
    case Resume(t) => s.Go(t, Finishing)
    case FinishWait(t) => s.(queue := s.queue - {t}, asleep := s.asleep - {t}).Go(t, Trying)
    case BugOn(t) => s.Go(t, Clearing)
    case Clear(t) => s.(locked := false).Go(t, Waking)
    case WakeUp(t) => s.(asleep := s.asleep - s.queue, queue := s.queue - s.asleep).Go(t, Outside)
    case Disturb(t) => s.(asleep := s.asleep - {t})
  }

  // ---------------------------------------------------------------- runs

  predicate CanRun(s: State, steps: seq<Step>)
    decreases |steps|
  {
    steps == [] || (Enabled(s, steps[0]) && CanRun(Do(s, steps[0]), steps[1..]))
  }

  function After(s: State, steps: seq<Step>): State
    decreases |steps|
  {
    if steps == [] then s else After(Do(s, steps[0]), steps[1..])
  }

  // ---------------------------------------------------------------- what holds in every run

  predicate Holds(s: State, t: nat) {
    s.At(t) == Holding || s.At(t) == Clearing
  }

  /** schedule() does not return to the thread until somebody wakes it. */
  predicate Sleeps(s: State, t: nat) {
    s.At(t) == Scheduled && t in s.asleep
  }

  /** The lock word is set exactly while one thread, and only one, has the lock. */
  ghost predicate Exclusive(s: State) {
    && (forall t, u :: Holds(s, t) && Holds(s, u) ==> t == u)
    && (s.locked <==> exists t :: Holds(s, t))
  }

  /** Whoever sleeps is in the queue, and the lock is taken or somebody is yet to call wake_up. */
  ghost predicate NoLostWakeup(s: State) {
    forall t :: Sleeps(s, t) ==> t in s.queue && (s.locked || exists u :: s.At(u) == Waking)
  }

  ghost predicate Inv(s: State) {
    && Exclusive(s) && NoLostWakeup(s)
    && (forall t :: t in s.asleep ==> t in s.queue)
    && (forall t :: t in s.queue ==> s.At(t) == Checking || s.At(t) == Scheduled || s.At(t) == Finishing)
  }

  /** A step is seen by other threads only through what they share. */
  lemma OthersStay(s: State, step: Step, u: nat)
    requires Enabled(s, step) && (u != step.t || step.Disturb?)
    ensures Do(s, step).At(u) == s.At(u) && (Holds(Do(s, step), u) <==> Holds(s, u))
  {}

  lemma StepKeepsExclusive(s: State, step: Step)
    requires Exclusive(s) && Enabled(s, step)
    ensures Exclusive(Do(s, step))
    ensures step.BugOn? ==> s.locked
  {
    var s' := Do(s, step);
    forall u | u != step.t || step.Disturb?
      ensures Holds(s', u) <==> Holds(s, u)
    {
      OthersStay(s, step, u);
    }
    if step.Disturb? {
      assert s'.locked == s.locked;
    } else {
      assert Holds(s, step.t) <==> step.BugOn? || step.Clear?;
      assert Holds(s', step.t) <==> step.BugOn? || (step.CmpXchg? && !s.locked);
    }
  }

  lemma StepKeepsInv(s: State, step: Step)
    requires Inv(s) && Enabled(s, step)
    ensures Inv(Do(s, step))
  {
    var s' := Do(s, step);
    StepKeepsExclusive(s, step);
    forall u | u != step.t || step.Disturb?
      ensures s'.At(u) == s.At(u)
    {
      OthersStay(s, step, u);
    }
    forall u | Sleeps(s', u)
      ensures u in s'.queue && (s'.locked || exists w :: s'.At(w) == Waking)
    {
      if step.Clear? {
        assert s'.At(step.t) == Waking;
      } else if Sleeps(s, u) && !s.locked {
        var w :| s.At(w) == Waking;
        assert s'.At(w) == Waking;
      }
    }
  }

  lemma {:induction false} RunKeepsInv(s: State, steps: seq<Step>)
    requires Inv(s) && CanRun(s, steps)
    ensures Inv(After(s, steps))
    decreases |steps|
  {
    if steps != [] {
      StepKeepsInv(s, steps[0]);
      RunKeepsInv(Do(s, steps[0]), steps[1..]);
    }
  }

  /** In every run: at most one holder, the lock word tells whether there is one, the BUG_ON never
      strikes, as the lock word is set wherever it is looked at, and no sleeper is forgotten. */
  lemma EveryRunIsSafe(steps: seq<Step>)
    requires CanRun(START, steps)
    ensures var s := After(START, steps); Exclusive(s) && NoLostWakeup(s)
    ensures forall i: nat :: i < |steps| && steps[i].BugOn? ==> After(START, steps[..i]).locked
  {
    RunKeepsInv(START, steps);
    forall i: nat | i < |steps| && steps[i].BugOn?
      ensures After(START, steps[..i]).locked
    {
      StepAt(START, steps, i);
      RunKeepsInv(START, steps[..i]);
      assert Holds(After(START, steps[..i]), steps[i].t);
    }
  }

  /** Step i of a run is taken from where the steps before it lead. */
  lemma {:induction false} StepAt(s: State, steps: seq<Step>, i: nat)
    requires CanRun(s, steps) && i < |steps|
    ensures CanRun(s, steps[..i]) && Enabled(After(s, steps[..i]), steps[i])
    ensures After(s, steps[..i + 1]) == Do(After(s, steps[..i]), steps[i])
    decreases i
  {
    if i == 0 {
      assert steps[..1][1..] == [];
    } else {
      StepAt(Do(s, steps[0]), steps[1..], i - 1);
      assert steps[1..][..i - 1] == steps[..i][1..] && steps[1..][..i] == steps[..i + 1][1..];
    }
  }

  // ---------------------------------------------------------------- what a thread does

  /** What the code goes on with after a step, given what the lock word was at that step. */
  function NextInCode(step: Step, locked: bool): Step
    requires !step.Disturb?
  {
    match step
    case Call(t) => CmpXchg(t)
    case CmpXchg(t) => if locked then PrepareToWait(t) else BugOn(t)
    case PrepareToWait(t) => Check(t)
    case Check(t) => if locked then Resume(t) else FinishWait(t)
    case Resume(t) => FinishWait(t)
    case FinishWait(t) => CmpXchg(t)
    case BugOn(t) => Clear(t)
    case Clear(t) => WakeUp(t)
    case WakeUp(t) => Call(t)
  }

  /** A step of the thread itself. */
  predicate Own(step: Step, t: nat) { step.t == t && !step.Disturb? }

  /** Whatever other threads do in between, each thread goes through the code in order. */
  lemma EachFollowsTheCode(steps: seq<Step>, t: nat, i: nat, j: nat)
    requires CanRun(START, steps) && i < j < |steps| && Own(steps[i], t) && Own(steps[j], t)
    requires forall k :: i < k < j ==> !Own(steps[k], t)
    ensures steps[j] == NextInCode(steps[i], After(START, steps[..i]).locked)
  {
    StepAt(START, steps, i);
    StaysThere(steps, t, i + 1, j);
    StepAt(START, steps, j);
  }

  lemma {:induction false} StaysThere(steps: seq<Step>, t: nat, i: nat, j: nat)
    requires CanRun(START, steps) && i <= j <= |steps| && forall k :: i <= k < j ==> !Own(steps[k], t)
    ensures After(START, steps[..j]).At(t) == After(START, steps[..i]).At(t)
    decreases j
  {
    if i < j {
      StaysThere(steps, t, i, j - 1);
      StepAt(START, steps, j - 1);
      OthersStay(After(START, steps[..j - 1]), steps[j - 1], t);
    }
  }

  /** A thread that did not get the lock tries again only after the lock was free for a moment, or
      somebody was woken, or something else disturbed the thread: it does not spin. */
  lemma DoesNotSpin(steps: seq<Step>, t: nat, i: nat, j: nat)
    requires CanRun(START, steps) && i < j < |steps| && steps[i] == CmpXchg(t) && steps[j] == CmpXchg(t)
    requires After(START, steps[..i]).locked && forall k :: i < k < j ==> steps[k] != CmpXchg(t)
    ensures exists k: nat {:trigger Stirs(steps, t, k)} :: i < k < j && Stirs(steps, t, k)
  {
    if forall k: nat {:trigger Stirs(steps, t, k)} :: i < k < j ==> !Stirs(steps, t, k) {
      StepAt(START, steps, i);
      StaysWaiting(steps, t, i, j);
      StepAt(START, steps, j);
    }
  }

  /** The lock is free, or somebody is woken, or the thread is disturbed. */
  predicate Stirs(steps: seq<Step>, t: nat, k: nat)
    requires k < |steps|
  {
    !After(START, steps[..k]).locked || steps[k].WakeUp? || steps[k] == Disturb(t)
  }

  predicate Waits(s: State, t: nat) {
    s.At(t) == Preparing || ((s.At(t) == Checking || s.At(t) == Scheduled) && t in s.asleep)
  }

  lemma {:induction false} StaysWaiting(steps: seq<Step>, t: nat, i: nat, j: nat)
    requires CanRun(START, steps) && i < j <= |steps| && Waits(After(START, steps[..i + 1]), t)
    requires forall k: nat {:trigger Stirs(steps, t, k)} :: i < k < j ==> !Stirs(steps, t, k)
    ensures Waits(After(START, steps[..j]), t)
    decreases j
  {
    if i + 1 < j {
      StaysWaiting(steps, t, i, j - 1);
      StepAt(START, steps, j - 1);
      assert !Stirs(steps, t, j - 1);
    }
  }

  /** In every run a wakeup wakes all sleepers, and whoever it wakes leaves the queue; a thread that was
      disturbed before stays in it. */
  lemma AllAreWoken(steps: seq<Step>, i: nat)
    requires CanRun(START, steps) && i < |steps| && steps[i].WakeUp?
    ensures var s, s' := After(START, steps[..i]), After(START, steps[..i + 1]);
            && (forall t :: !Sleeps(s', t) && t !in s'.asleep)
            && (forall t :: t in s'.queue <==> t in s.queue && t !in s.asleep)
  {
    StepAt(START, steps, i);
    RunKeepsInv(START, steps[..i]);
  }

  /** There are sleepers: two threads after the lock are enough. */
  lemma SomebodySleeps() returns (past: seq<Step>)
    ensures CanRun(START, past) && Sleeps(After(START, past), 1) && 1 in After(START, past).queue
    ensures After(START, past).locked
  {
    var s := State(true, {}, {}, map[0 := Holding, 1 := Preparing]);
    past := OneTriesInVain(s);
    hide CanRun, After;
    var waits := State(true, {1}, {1}, map[0 := Holding, 1 := Checking]);
    past := Leads(past, PrepareToWait(1), s, waits);
    past := Leads(past, Check(1), waits, waits.Go(1, Scheduled));
  }

  /** A thread can also be woken for no reason, with the lock still held. */
  lemma WokenInVain() returns (past: seq<Step>)
    ensures CanRun(START, past) && After(START, past).locked && After(START, past).At(1) == Finishing
  {
    past := SomebodySleeps();
    var s := After(START, past);
    RunKeepsInv(START, past);
    hide CanRun, After;
    past := Leads(past, Disturb(1), s, Do(s, Disturb(1)));
    past := Leads(past, Resume(1), Do(s, Disturb(1)), Do(Do(s, Disturb(1)), Resume(1)));
  }

  // ---------------------------------------------------------------- every sleeper can get in

  lemma {:induction false} RunOn(s: State, steps: seq<Step>, step: Step)
    requires CanRun(s, steps) && Enabled(After(s, steps), step)
    ensures CanRun(s, steps + [step]) && After(s, steps + [step]) == Do(After(s, steps), step)
    decreases |steps|
  {
    if steps == [] {
      assert (steps + [step])[1..] == [];
      assert CanRun(Do(s, step), []);
    } else {
      RunOn(Do(s, steps[0]), steps[1..], step);
      assert (steps + [step])[1..] == steps[1..] + [step];
    }
  }

  /** One more step at the end of a run. */
  lemma Extended(s: State, steps: seq<Step>, step: Step) returns (r: seq<Step>)
    requires Inv(s) && CanRun(s, steps) && Enabled(After(s, steps), step)
    ensures CanRun(s, r) && After(s, r) == Do(After(s, steps), step) && Inv(After(s, r))
    ensures r == steps + [step]
  {
    r := steps + [step];
    RunOn(s, steps, step);
    RunKeepsInv(s, r);
  }

  /** Whatever threads are doing, the lock can be brought to be free, with no sleeper left: whoever
      has it gives it up, or whoever is to wake the others does. */
  lemma FreedAndWoken(s: State, t: nat) returns (steps: seq<Step>)
    requires Inv(s) && Sleeps(s, t)
    ensures CanRun(s, steps)
    ensures var s' := After(s, steps); Inv(s') && !s'.locked && s'.At(t) == Scheduled && t !in s'.asleep
  {
    steps := [];
    if s.locked {
      var h :| Holds(s, h);
      if s.At(h) == Holding {
        steps := Extended(s, steps, BugOn(h));
      }
      steps := Extended(s, steps, Clear(h));
      steps := Extended(s, steps, WakeUp(h));
    } else {
      var u :| s.At(u) == Waking;
      steps := Extended(s, steps, WakeUp(u));
    }
  }

  /** From any point of any run on which a thread sleeps, the run can be continued so that the very
      thread gets the lock: there is no deadlock among the threads. */
  lemma EverySleeperCanGetIn(past: seq<Step>, t: nat) returns (future: seq<Step>)
    requires CanRun(START, past) && Sleeps(After(START, past), t)
    ensures CanRun(After(START, past), future)
    ensures After(After(START, past), future).At(t) == Holding
  {
    RunKeepsInv(START, past);
    var s := After(START, past);
    future := FreedAndWoken(s, t);
    future := Extended(s, future, Resume(t));
    future := Extended(s, future, FinishWait(t));
    future := Extended(s, future, CmpXchg(t));
  }

  /** The second look at the lock word is what keeps wakeups from being lost: if a thread slept
      whatever it saw there, it could sleep with the lock free and nobody left to wake it. */
  lemma WithoutCheckWakeupsGetLost() returns (past: seq<Step>)
    ensures CanRun(START, past)
    ensures var s := After(START, past); s.At(1) == Checking && !NoLostWakeup(s.Go(1, Scheduled))
  {
    var s0 := State(true, {}, {}, map[0 := Holding, 1 := Preparing]);
    var s1 := State(false, {1}, {1}, map[0 := Outside, 1 := Checking]);
    past := OneTriesInVain(s0);
    past := OneComesTooLate(past, s0, s1);
    var s := s1.Go(1, Scheduled);
    assert Sleeps(s, 1) && !s.locked && forall u :: s.At(u) != Waking;
  }

  /** One more step of a run of the whole driver. */
  lemma Leads(before: seq<Step>, step: Step, from: State, to: State) returns (past: seq<Step>)
    requires CanRun(START, before) && After(START, before) == from
    requires Enabled(from, step) && Do(from, step) == to
    ensures CanRun(START, past) && After(START, past) == to
  {
    hide CanRun, After, Do, Enabled;
    past := before + [step];
    RunOn(START, before, step);
  }

  lemma OneTriesInVain(s: State) returns (past: seq<Step>)
    requires s == State(true, {}, {}, map[0 := Holding, 1 := Preparing])
    ensures CanRun(START, past) && After(START, past) == s
  {
    var held := State(true, {}, {}, map[0 := Holding]);
    past := OneGetsIn(held);
    hide CanRun, After;
    var tried := State(true, {}, {}, map[0 := Holding, 1 := Trying]);
    past := Leads(past, Call(1), held, tried);
    past := Leads(past, CmpXchg(1), tried, s);
  }

  lemma OneGetsIn(s: State) returns (past: seq<Step>)
    requires s == State(true, {}, {}, map[0 := Holding])
    ensures CanRun(START, past) && After(START, past) == s
  {
    assert CanRun(START, []) && After(START, []) == START;
    hide CanRun, After;
    var tried := State(false, {}, {}, map[0 := Trying]);
    past := Leads([], Call(0), START, tried);
    past := Leads(past, CmpXchg(0), tried, s);
  }

  lemma OneComesTooLate(before: seq<Step>, s0: State, s1: State) returns (past: seq<Step>)
    requires CanRun(START, before) && After(START, before) == s0
    requires s0 == State(true, {}, {}, map[0 := Holding, 1 := Preparing])
    requires s1 == State(false, {1}, {1}, map[0 := Outside, 1 := Checking])
    ensures CanRun(START, past) && After(START, past) == s1
  {
    hide CanRun, After;
    var free := State(false, {}, {}, map[0 := Waking, 1 := Preparing]);
    past := OneGivesUp(before, s0, free);
    var woken := State(false, {}, {}, map[0 := Outside, 1 := Preparing]);
    past := Leads(past, WakeUp(0), free, woken);
    past := Leads(past, PrepareToWait(1), woken, s1);
  }

  lemma OneGivesUp(before: seq<Step>, s0: State, s1: State) returns (past: seq<Step>)
    requires CanRun(START, before) && After(START, before) == s0
    requires s0 == State(true, {}, {}, map[0 := Holding, 1 := Preparing])
    requires s1 == State(false, {}, {}, map[0 := Waking, 1 := Preparing])
    ensures CanRun(START, past) && After(START, past) == s1
  {
    hide CanRun, After;
    var clearing := State(true, {}, {}, map[0 := Clearing, 1 := Preparing]);
    past := Leads(before, BugOn(0), s0, clearing);
    past := Leads(past, Clear(0), clearing, s1);
  }
}
