/** How long an environment runs, and what each kernel entry changes (kern/sched.c,
    kern/syscall_all.c): laws of runs of the scheduler, stated on states and entries. */
module TimeSlices {
  import opened Mmu
  import opened Queues
  import opened Scheduling

  // ----- what an entry changes

  /** The status of e afterwards. */
  function StatusAfter(s: Sched, op: Op, e: Env): Status
    requires InRange(s, e)
  {
    match op
    case Recv(_) => if IsReceive(s, op, e) then NotRunnable else s.status[e]
    case TrySend(_, _, _, _) => if IsDelivery(s, op, e) then Runnable else s.status[e]
    case SetStatus(d, st) => if d == e && s.status[e] != Free && st != Free then st else s.status[e]
    case Exofork(d, _) => if d == e then NotRunnable else s.status[e]
    case Destroy(d) => if d == e then Free else s.status[e]
    case _ => s.status[e]
  }

  lemma ScheduleKeepsBlocks(s: Sched, yielding: bool)
    requires Schedulable(s) && Scheduling.Schedule(s, yielding).Some?
    ensures var t := Scheduling.Schedule(s, yielding).value;
      t.status == s.status && t.pri == s.pri && t.id == s.id && t.ipc == s.ipc
  {}

  /** Along every run each entry changes the control blocks exactly as it should: a child
      made by sys_exofork has its parent's priority and its own id, and is not runnable. */
  lemma EntryOnBlocks(states: seq<Sched>, ops: seq<Op>, n: nat, e: Env)
    requires Run(states, ops) && n < |ops| && e < |states[n].status|
    ensures var s, op, t := states[n], ops[n], states[n + 1];
      && Running(s) && Running(t) && InRange(s, e) && InRange(t, e)
      && t.status[e] == StatusAfter(s, op, e)
      && t.pri[e] == (if op.Exofork? && op.env == e then s.pri[s.cur.value] else s.pri[e])
      && t.id[e] == (if op.Exofork? && op.env == e then op.id else s.id[e])
  {
    hide Scheduling.Schedule, Distinct;
    EveryStateIsRunning(states, ops, n);
    EveryStateIsRunning(states, ops, n + 1);
    var s, op, c := states[n], ops[n], states[n].cur.value;
    assert StepTo(s, op, states[n + 1]) && c in s.list;
    match op
    case Tick => ScheduleKeepsBlocks(s, false);
    case Yield => ScheduleKeepsBlocks(s, true);
    case Recv(dstva) =>
      if IsZeroOrLegal(dstva) {
        BlockIsSchedulable(s, dstva);
        ScheduleKeepsBlocks(Block(s, c, dstva), true);
      }
    case TrySend(_, _, _, _) =>
    case SetStatus(d, st) =>
      if MayRestatus(s, d, st) {
        RestatusIsSchedulable(s, d, st);
        if d == c { ScheduleKeepsBlocks(Restatus(s, d, st), true); }
      }
    case Exofork(_, _) =>
    case Destroy(d) =>
      if s.status[d] != Free { DestroyIsSchedulable(s, d); }
      if d == c {
        ScheduleKeepsBlocks(s.(status := s.status[d := Free], list := Without(s.list, d), cur := None), true);
      }
  }

  // ----- how long an environment runs

  /** e gives the CPU up, or loses it, other than by the timer. */
  predicate GivesUp(op: Op, e: Env) {
    || op.Yield?
    || (op.Recv? && IsZeroOrLegal(op.dstva))
    || (op.SetStatus? && op.env == e && op.status != Free)
    || (op.Destroy? && op.env == e)
  }

  /** Timer interrupts among the entries i, ..., n - 1. */
  function Ticks(ops: seq<Op>, i: nat, n: nat): nat
    requires i <= n <= |ops|
  { if i == n then 0 else Ticks(ops, i, n - 1) + (if ops[n - 1].Tick? then 1 else 0) }

  /** With entry i the CPU goes to e: from another, or because e yields and is alone. */
  predicate Picked(states: seq<Sched>, ops: seq<Op>, i: nat, e: Env)
    requires i < |ops| < |states|
  { (states[i].cur != Some(e) || ops[i].Yield?) && states[i + 1].cur == Some(e) }

  lemma PickSetsCount(s: Sched, op: Op, t: Sched, e: Env)
    requires Running(s) && Admissible(s, op) && Exec(s, op) == Some(t) && Running(t)
    requires (s.cur != Some(e) || op.Yield?) && t.cur == Some(e)
    ensures t.count + 1 == t.pri[e]
  {
    hide Distinct, Without;
    RunningHead(s);
    ExecKeepsRunning(s, op);
  }

  lemma RunningHead(s: Sched)
    requires Running(s)
    ensures InRange(s, s.cur.value) && s.status[s.cur.value] == Runnable && s.cur.value in s.list
  {
    assert s.list[0] in s.list;
  }

  /** One entry in the middle of its time. */
  lemma OnTheCpu(s: Sched, op: Op, t: Sched, e: Env)
    requires Running(s) && Admissible(s, op) && Exec(s, op) == Some(t) && Running(t)
    requires s.cur == Some(e) && !GivesUp(op, e)
    ensures !op.Tick? ==> t.cur == Some(e) && t.count == s.count
    ensures op.Tick? && s.count > 0 ==> t.cur == Some(e) && t.count == s.count - 1
    ensures op.Tick? && s.count <= 0 ==> t.cur == Some(if |s.list| > 1 then s.list[1] else e)
    ensures t.pri[e] == s.pri[e]
  {
    hide Distinct;
    RunningHead(s);
    if op.Tick? && s.count <= 0 { WithoutHead(s.list); }
    if op.Exofork? { assert op.env != e; }
  }

  lemma YieldGoesOn(s: Sched, t: Sched, e: Env)
    requires Running(s) && Exec(s, Yield) == Some(t) && s.cur == Some(e)
    ensures t.cur == Some(if |s.list| > 1 then s.list[1] else e)
  {
    hide Distinct;
    RunningHead(s);
    WithoutHead(s.list);
  }

  lemma {:induction false} CountsDown(states: seq<Sched>, ops: seq<Op>, i: nat, n: nat, e: Env)
    requires Run(states, ops) && i < n <= |ops| && Picked(states, ops, i, e)
    requires forall k | i < k < n :: !GivesUp(ops[k], e)
    requires e < |states[i + 1].pri| && Ticks(ops, i + 1, n) < Scheduling.Slices(states[i + 1].pri[e])
    ensures Running(states[n]) && states[n].cur == Some(e)
    ensures states[n].pri[e] == states[i + 1].pri[e] && states[n].count + 1 + Ticks(ops, i + 1, n) == states[n].pri[e]
  {
    hide Exec, Admissible, GivesUp, Running;
    EveryStateIsRunning(states, ops, n);
    EveryStateIsRunning(states, ops, n - 1);
    assert StepTo(states[n - 1], ops[n - 1], states[n]);
    if n == i + 1 {
      PickSetsCount(states[i], ops[i], states[n], e);
    } else {
      CountsDown(states, ops, i, n - 1, e);
      OnTheCpu(states[n - 1], ops[n - 1], states[n], e);
    }
  }

  /** The slices of an environment: picked by schedule, e keeps the CPU through every
      entry, until the timer has struck as often as its priority says (once for 0), as
      long as it does not give it up.  With that last tick the CPU goes to the next on
      the list, or to e again when e is alone. */
  lemma RunsItsSlices(states: seq<Sched>, ops: seq<Op>, i: nat, n: nat, e: Env)
    requires Run(states, ops) && i < n <= |ops| && Picked(states, ops, i, e)
    requires forall k | i < k < n :: !GivesUp(ops[k], e)
    requires e < |states[i + 1].pri|
    ensures var p := states[i + 1].pri[e]; var slices := if p == 0 then 1 else p;
      && (Ticks(ops, i + 1, n) < slices ==> states[n].cur == Some(e))
      && (Ticks(ops, i + 1, n) == slices && ops[n - 1].Tick? && n > i + 1 ==>
            && states[n - 1].cur == Some(e) && states[n - 1].list != []
            && states[n].cur == Some(if |states[n - 1].list| > 1 then states[n - 1].list[1] else e)
            && (|states[n - 1].list| > 1 ==> states[n].cur != Some(e)))
  {
    hide Exec, Admissible, GivesUp;
    var slices := Scheduling.Slices(states[i + 1].pri[e]);
    if Ticks(ops, i + 1, n) < slices {
      CountsDown(states, ops, i, n, e);
    } else if Ticks(ops, i + 1, n) == slices && ops[n - 1].Tick? && n > i + 1 {
      CountsDown(states, ops, i, n - 1, e);
      EveryStateIsRunning(states, ops, n);
      assert StepTo(states[n - 1], ops[n - 1], states[n]);
      OnTheCpu(states[n - 1], ops[n - 1], states[n], e);
      if |states[n - 1].list| > 1 { OthersDiffer(states[n - 1]); }
    }
  }

  lemma OthersDiffer(s: Sched)
    requires Running(s) && |s.list| > 1
    ensures s.list[1] != s.cur.value
  {}

  /** Whoever yields is not run again before the next on the list. */
  lemma YieldGivesUp(states: seq<Sched>, ops: seq<Op>, n: nat)
    requires Run(states, ops) && n < |ops| && ops[n].Yield?
    ensures states[n].cur.Some? && states[n].list != []
    ensures states[n + 1].cur == if |states[n].list| > 1 then Some(states[n].list[1]) else states[n].cur
    ensures |states[n].list| > 1 ==> states[n + 1].cur != states[n].cur
  {
    hide Exec, Admissible;
    EveryStateIsRunning(states, ops, n);
    assert StepTo(states[n], ops[n], states[n + 1]);
    YieldGoesOn(states[n], states[n + 1], states[n].cur.value);
    if |states[n].list| > 1 { OthersDiffer(states[n]); }
  }
}
