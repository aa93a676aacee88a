/** Whole runs of the scheduler together with the links of its list in memory
    (kern/sched.c, kern/syscall_all.c, kern/env.c). */
module ListRuns {
  import opened Mmu
  import opened Queues
  import opened Scheduling
  import opened Schedulers

  /** The state by its specification, the links, and whether the kernel still runs: it
      panics at a store through a null link. */
  datatype Sys = Sys(s: Sched, m: Links, alive: bool)

  /** The links spell the list, and the list is exact. */
  ghost predicate Exact(a: Sys) {
    && a.alive && Running(a.s)
    && IsTailq(a.m, SCHED_LIST, a.s.list) && HasLinks(a.m, |a.s.status|)
  }

  // ----- what each kernel entry does to the links

  function Appended(m: Links, x: Env): Outcome {
    if SCHED_LIST in m.last then Done(AfterInsertTail(m, SCHED_LIST, x)) else Fault(m)
  }

  /** schedule removes the current environment, wherever it is, and appends it again if
      it can run. */
  function Rescheduled(m: Links, s: Sched, yielding: bool): Outcome
    requires s.cur.Some? ==> InRange(s, s.cur.value) && Next(s.cur.value) in m.cells
  {
    if s.cur.Some? && (yielding || s.count <= 0 || s.status[s.cur.value] != Runnable) then
      var e := s.cur.value;
      var o := Remove(m, SCHED_LIST, e);
      if o.Done? && s.status[e] == Runnable then Appended(o.m, e) else o
    else
      Done(m)
  }

  function Delivers(s: Sched, op: Op): bool
    requires Targets(s, op)
  {
    op.TrySend? && IsZeroOrLegal(op.srcva) && s.status[op.to] != Free && s.ipc[op.to].recving
  }

  ghost function Effect(m: Links, s: Sched, op: Op): Outcome
    requires Running(s) && Targets(s, op) && HasLinks(m, |s.status|)
  {
    CurrentIsAwake(s, Free);
    var e := s.cur.value;
    match op
    case Tick => Rescheduled(m, s, false)
    case Yield => Rescheduled(m, s, true)
    case Recv(dstva) =>
      if !IsZeroOrLegal(dstva) then Done(m)
      else
        var o := Remove(m, SCHED_LIST, e);
        if o.Done? then Rescheduled(o.m, Block(s, e, dstva), true) else o
    case TrySend(to, _, _, _) => if Delivers(s, op) then Appended(m, to) else Done(m)
    case SetStatus(d, st) =>
      if !MayRestatus(s, d, st) then Done(m)
      else
        var o := Requeued(m, s, d, st);
        if o.Done? && d == e && Next(e) in o.m.cells then Rescheduled(o.m, Restatus(s, d, st), true) else o
    case Exofork(_, _) => Done(m)
    case Destroy(d) => if s.status[d] == Free then Done(m) else Remove(m, SCHED_LIST, d)
  }

  /** The two changes of the list in sys_set_env_status. */
  function Requeued(m: Links, s: Sched, d: Env, st: Status): Outcome
    requires MayRestatus(s, d, st) && Next(d) in m.cells
  {
    if st == NotRunnable && s.status[d] != NotRunnable then Remove(m, SCHED_LIST, d)
    else if st == Runnable && s.status[d] != Runnable then Appended(m, d)
    else Done(m)
  }

  /** A live environment that is not on the list is destroyed, and its links do not agree
      with the queue. */
  ghost predicate StaleDestroy(a: Sys, op: Op)
    requires Exact(a) && Targets(a.s, op)
  {
    && op.Destroy? && a.s.status[op.env] != Free && op.env !in a.s.list
    && !StaleAgrees(a.m, SCHED_LIST, a.s.list, op.env)
  }

  /** The two entries that break the list. */
  ghost predicate Breaks(a: Sys, op: Op)
    requires Exact(a) && Targets(a.s, op)
  {
    WakesReceiver(a.s, op) || StaleDestroy(a, op)
  }

  ghost function After(a: Sys, op: Op): Sys
    requires Exact(a) && Targets(a.s, op) && Exec(a.s, op).Some?
  {
    var o := Effect(a.m, a.s, op);
    Sys(Exec(a.s, op).value, o.m, o.Done?)
  }

  // ----- each entry keeps the links in step with the list

  lemma LinksStay(m: Links, n: Links, nenv: nat)
    requires HasLinks(m, nenv) && m.cells.Keys <= n.cells.Keys
    ensures HasLinks(n, nenv)
  {}

  lemma RescheduledIsListed(m: Links, s: Sched, yielding: bool)
    requires Schedulable(s) && IsTailq(m, SCHED_LIST, s.list) && HasLinks(m, |s.status|)
    requires s.cur.Some? ==> s.cur.value in s.list || Detached(m, SCHED_LIST, s.cur.value)
    ensures var o := Rescheduled(m, s, yielding);
      && o.Done? && HasLinks(o.m, |s.status|)
      && (Schedule(s, yielding).Some? ==> IsTailq(o.m, SCHED_LIST, Schedule(s, yielding).value.list))
  {
    hide IsTailq, Detached, Distinct, Frame;
    if s.cur.Some? && (yielding || s.count <= 0 || s.status[s.cur.value] != Runnable) {
      var e := s.cur.value;
      RemoveAny(m, SCHED_LIST, e, s.list);
      var o := Remove(m, SCHED_LIST, e);
      LinksStay(m, o.m, |s.status|);
      WithoutMembers(s.list, e);
      if s.status[e] == Runnable {
        TailqEnd(o.m, Without(s.list, e));
        AppendedLinks(o.m, SCHED_LIST, Without(s.list, e), e);
        LinksStay(o.m, AfterInsertTail(o.m, SCHED_LIST, e), |s.status|);
      }
    }
  }

  lemma TailqEnd(m: Links, q: seq<Env>)
    requires IsTailq(m, SCHED_LIST, q)
    ensures SCHED_LIST in m.last
  {}

  lemma RecvIsListed(a: Sys, dstva: nat)
    requires Exact(a) && IsZeroOrLegal(dstva) && Exec(a.s, Recv(dstva)).Some?
    ensures var o := Effect(a.m, a.s, Recv(dstva));
      o.Done? && HasLinks(o.m, |a.s.status|) && IsTailq(o.m, SCHED_LIST, Exec(a.s, Recv(dstva)).value.list)
  {
    hide IsTailq, Detached, Distinct, Frame, Schedule, Rescheduled, Without;
    CurrentIsAwake(a.s, Free);
    BlockIsSchedulable(a.s, dstva);
    RemoveAny(a.m, SCHED_LIST, a.s.cur.value, a.s.list);
    var o := Remove(a.m, SCHED_LIST, a.s.cur.value);
    LinksStay(a.m, o.m, |a.s.status|);
    RescheduledIsListed(o.m, Block(a.s, a.s.cur.value, dstva), true);
  }

  lemma RequeuedIsListed(m: Links, s: Sched, d: Env, st: Status)
    requires Running(s) && IsTailq(m, SCHED_LIST, s.list) && HasLinks(m, |s.status|) && MayRestatus(s, d, st)
    ensures Next(d) in m.cells
    ensures var o := Requeued(m, s, d, st);
      && o.Done? && HasLinks(o.m, |s.status|) && IsTailq(o.m, SCHED_LIST, Restatus(s, d, st).list)
      && (d in s.list ==> d in Restatus(s, d, st).list || Detached(o.m, SCHED_LIST, d))
  {
    hide IsTailq, Detached, Distinct, Frame, Without;
    RemoveAny(m, SCHED_LIST, d, s.list);
    TailqEnd(m, s.list);
    if d !in s.list { AppendedLinks(m, SCHED_LIST, s.list, d); }
    LinksStay(m, Requeued(m, s, d, st).m, |s.status|);
  }

  lemma SetStatusIsListed(a: Sys, d: Env, st: Status)
    requires Exact(a) && MayRestatus(a.s, d, st) && !WakesReceiver(a.s, SetStatus(d, st))
    requires Exec(a.s, SetStatus(d, st)).Some?
    ensures var o := Effect(a.m, a.s, SetStatus(d, st));
      o.Done? && HasLinks(o.m, |a.s.status|) && IsTailq(o.m, SCHED_LIST, Exec(a.s, SetStatus(d, st)).value.list)
  {
    hide IsTailq, Detached, Distinct, Frame, Schedule, Rescheduled, Requeued, Without;
    CurrentIsAwake(a.s, st);
    RequeuedIsListed(a.m, a.s, d, st);
    RestatusIsSchedulable(a.s, d, st);
    if d == a.s.cur.value {
      RescheduledIsListed(Requeued(a.m, a.s, d, st).m, Restatus(a.s, d, st), true);
    }
  }

  lemma DestroyIsListedIff(a: Sys, d: Env)
    requires Exact(a) && Targets(a.s, Destroy(d)) && Exec(a.s, Destroy(d)).Some?
    ensures Exact(After(a, Destroy(d))) <==> !StaleDestroy(a, Destroy(d))
  {
    hide IsTailq, Distinct, Schedule, StaleAgrees;
    ExecKeepsRunning(a.s, Destroy(d));
    if a.s.status[d] != Free {
      FreeLinks(a.m, SCHED_LIST, a.s.list, d);
      LinksStay(a.m, Remove(a.m, SCHED_LIST, d).m, |a.s.status|);
      DestroyedList(a.s, d);
    }
  }

  lemma DestroyedList(s: Sched, d: Env)
    requires Running(s) && InRange(s, d) && s.status[d] != Free && Exec(s, Destroy(d)).Some?
    ensures Exec(s, Destroy(d)).value.list == Without(s.list, d)
    ensures |Exec(s, Destroy(d)).value.status| == |s.status|
  {
    DestroyIsSchedulable(s, d);
  }

  lemma SizeStays(s: Sched, op: Op)
    requires Running(s) && Admissible(s, op) && Exec(s, op).Some?
    ensures |Exec(s, op).value.status| == |s.status|
  {
    hide Distinct;
    CurrentIsAwake(s, Free);
    if op.Recv? && IsZeroOrLegal(op.dstva) { BlockIsSchedulable(s, op.dstva); }
  }

  /** Every kernel entry keeps the list exact and its links in step, but for the two
      that break it. */
  lemma EntryKeepsExactIff(a: Sys, op: Op)
    requires Exact(a) && Targets(a.s, op) && Exec(a.s, op).Some?
    ensures Exact(After(a, op)) <==> !Breaks(a, op)
  {
    hide IsTailq, Distinct, Schedule, StaleAgrees, Rescheduled;
    ExecKeepsRunningIff(a.s, op);
    if WakesReceiver(a.s, op) { return; }
    SizeStays(a.s, op);
    CurrentIsAwake(a.s, Free);
    match op
    case Tick => RescheduledIsListed(a.m, a.s, false);
    case Yield => RescheduledIsListed(a.m, a.s, true);
    case Recv(dstva) => if IsZeroOrLegal(dstva) { RecvIsListed(a, dstva); }
    case TrySend(to, value, _, perm) =>
      if Delivers(a.s, op) {
        DeliverKeepsRunning(a.s, a.s.cur.value, to, value, perm);
        TailqEnd(a.m, a.s.list);
        AppendedLinks(a.m, SCHED_LIST, a.s.list, to);
        LinksStay(a.m, AfterInsertTail(a.m, SCHED_LIST, to), |a.s.status|);
      }
    case SetStatus(d, st) => if MayRestatus(a.s, d, st) { SetStatusIsListed(a, d, st); }
    case Exofork(_, _) =>
    case Destroy(d) => DestroyIsListedIff(a, d);
  }

  // ----- whole runs

  /** A run of any kernel entries, until the list breaks or the kernel panics. */
  ghost predicate StepTo(a: Sys, op: Op, b: Sys) {
    Exact(a) ==> Targets(a.s, op) && Exec(a.s, op).Some? && b == After(a, op)
  }

  ghost predicate Run(states: seq<Sys>, ops: seq<Op>) {
    && |states| == |ops| + 1 && Exact(states[0])
    && forall i | 0 <= i < |ops| :: StepTo(states[i], ops[i], states[i + 1])
  }

  /** Entry i does not break an exact list. */
  ghost predicate Sound(states: seq<Sys>, ops: seq<Op>, i: nat)
    requires i < |ops| && i < |states|
  {
    Exact(states[i]) && Targets(states[i].s, ops[i]) ==> !Breaks(states[i], ops[i])
  }

  /** The promise of env_sched_list over whole runs: in every state up to state n the
      links spell exactly the runnable environments, the current one first, exactly when
      no entry so far woke a receiver or destroyed an unlisted environment whose links
      disagree. */
  lemma {:induction false} ListInMemoryIff(states: seq<Sys>, ops: seq<Op>, n: nat)
    requires Run(states, ops) && n <= |ops|
    ensures (forall i | 0 <= i <= n :: Exact(states[i])) <==> (forall i | 0 <= i < n :: Sound(states, ops, i))
  {
    hide Exact, Breaks, Exec, Targets, After;
    if n > 0 {
      ListInMemoryIff(states, ops, n - 1);
      assert StepTo(states[n - 1], ops[n - 1], states[n]);
      if Exact(states[n - 1]) {
        EntryKeepsExactIff(states[n - 1], ops[n - 1]);
        assert Exact(states[n]) <==> Sound(states, ops, n - 1);
      }
    }
  }
}
