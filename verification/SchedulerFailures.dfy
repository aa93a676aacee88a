/** Runs of the scheduler in which its list breaks (kern/env.c, kern/syscall_all.c,
    user/lib/spawn.c).  Each starts from any exact state with the environments for it. */
module SchedulerFailures {
  import opened Mmu
  import opened Queues
  import opened Scheduling
  import opened Schedulers
  import opened ListRuns

  // ----- a child that was never queued

  /** What spawn does when the new program cannot be set up: sys_exofork, then the child
      is destroyed, before it has ever been on the list.  In a slot used for the first
      time, as every slot is after boot, its links are null; the end of the queue is lost and the kernel panics. */
  lemma NeverQueuedRun(a: Sys, e: Env, id: nat) returns (states: seq<Sys>, ops: seq<Op>)
    requires Exact(a) && e < |a.s.status| && a.s.status[e] == Free && NeverQueued(a.m, e)
    ensures |states| == 3 && ops == [Exofork(e, id), Destroy(e)] && states[0] == a
    ensures ListRuns.Run(states, ops) && !Sound(states, ops, 1)
    ensures !states[2].alive && SCHED_LIST !in states[2].m.last
  {
    ChildIsMade(a, e, id);
    var b := After(a, Exofork(e, id));
    ChildIsLost(b, e);
    var c := After(b, Destroy(e));
    states, ops := [a, b, c], [Exofork(e, id), Destroy(e)];
    hide Exact, Targets, Exec, After, Breaks;
  }

  lemma ChildIsMade(a: Sys, e: Env, id: nat)
    requires Exact(a) && e < |a.s.status| && a.s.status[e] == Free && NeverQueued(a.m, e)
    ensures Targets(a.s, Exofork(e, id)) && Exec(a.s, Exofork(e, id)).Some?
    ensures var b := After(a, Exofork(e, id));
      Exact(b) && InRange(b.s, e) && b.s.status[e] == NotRunnable && NeverQueued(b.m, e)
  {
    hide IsTailq, Distinct;
    EntryKeepsExactIff(a, Exofork(e, id));
  }

  lemma ChildIsLost(b: Sys, e: Env)
    requires Exact(b) && InRange(b.s, e) && b.s.status[e] == NotRunnable && NeverQueued(b.m, e)
    ensures Targets(b.s, Destroy(e)) && Exec(b.s, Destroy(e)).Some? && Breaks(b, Destroy(e))
    ensures var c := After(b, Destroy(e)); !c.alive && SCHED_LIST !in c.m.last
  {
    NeverQueuedFaults(b.m, SCHED_LIST, b.s.list, e);
    hide IsTailq, Distinct;
    CurrentIsAwake(b.s, Free);
  }

  // ----- a receiver that left the list a while ago

  /** Environment x receives, y yields, and then x, which is on no list, is destroyed.
      env_free removes it with the links it had: the queue is left with y alone, and z,
      which is runnable and running, is forgotten. */
  lemma DestroyedReceiverRun(a: Sys, x: Env, y: Env, z: Env) returns (states: seq<Sys>, ops: seq<Op>)
    requires Exact(a) && a.s.list == [x, y, z]
    ensures |states| == 4 && ops == [Recv(0), Yield, Destroy(x)] && states[0] == a
    ensures ListRuns.Run(states, ops) && !Sound(states, ops, 2)
    ensures Exact(states[2]) && states[2].s.list == [z, y] && states[2].s.cur == Some(z)
    ensures states[3].alive && states[3].s.list == [z, y] && IsTailq(states[3].m, SCHED_LIST, [y])
    ensures !Exact(states[3])
  {
    hide IsTailq, Distinct, Detached, StaleAgrees, AfterInsertTail, AfterRemove, Rescheduled, Schedule;
    Three(a.s.list, x, y, z);
    ReceiveStep(a, x, y, z);
    var b := After(a, Recv(0));
    YieldStep(b, x, y, z);
    var c := After(b, Yield);
    StaleLinks(a.m, SCHED_LIST, x, y, z);
    DestroyStep(c, x, y, z);
    EntryKeepsExactIff(c, Destroy(x));
    var d := After(c, Destroy(x));
    states, ops := [a, b, c, d], [Recv(0), Yield, Destroy(x)];
  }

  lemma ReceiveStep(a: Sys, x: Env, y: Env, z: Env)
    requires Exact(a) && a.s.list == [x, y, z]
    ensures Exec(a.s, Recv(0)).Some?
    ensures var b := After(a, Recv(0));
      && Exact(b) && b.s.list == [y, z] && b.s.cur == Some(y) && x < |b.s.status| && b.s.status[x] == NotRunnable
      && x in a.m.prev && Next(x) in a.m.cells && b.m == AfterRemove(a.m, SCHED_LIST, x)
  {
    hide IsTailq, Distinct, Detached, Frame, AfterRemove;
    var q := a.s.list;
    Three(q, x, y, z);
    CurrentIsAwake(a.s, Free);
    BlockIsSchedulable(a.s, 0);
    WithoutHead(q);
    var t := Block(a.s, x, 0);
    assert t.list == [y, z];
    ScheduleRuns(t, true);
    WithoutAbsent([y, z], x);
    EntryKeepsExactIff(a, Recv(0));
    RemoveAny(a.m, SCHED_LIST, x, q);
    var m := Remove(a.m, SCHED_LIST, x).m;
    RemoveAny(m, SCHED_LIST, x, t.list);
  }

  lemma YieldStep(b: Sys, x: Env, y: Env, z: Env)
    requires Exact(b) && b.s.list == [y, z] && y != z && x != y && x != z
    ensures Exec(b.s, Yield).Some?
    ensures var c := After(b, Yield);
      && Exact(c) && c.s.list == [z, y] && c.s.cur == Some(z) && c.s.status == b.s.status
      && y in b.m.prev && Next(y) in b.m.cells && SCHED_LIST in AfterRemove(b.m, SCHED_LIST, y).last
      && c.m == AfterInsertTail(AfterRemove(b.m, SCHED_LIST, y), SCHED_LIST, y)
  {
    hide IsTailq, Distinct, Detached, Frame, AfterRemove, AfterInsertTail;
    CurrentIsAwake(b.s, Free);
    ScheduleRuns(b.s, true);
    WithoutHead(b.s.list);
    assert Rotated(b.s) == [z, y];
    EntryKeepsExactIff(b, Yield);
    RemoveAny(b.m, SCHED_LIST, y, b.s.list);
    TailqEnd(Remove(b.m, SCHED_LIST, y).m, Without(b.s.list, y));
  }

  lemma DestroyStep(c: Sys, x: Env, y: Env, z: Env)
    requires Exact(c) && c.s.list == [z, y] && c.s.cur == Some(z) && x != y && x != z && x < |c.s.status|
    requires c.s.status[x] == NotRunnable && x in c.m.prev && Next(x) in c.m.cells
    requires IsTailq(AfterRemove(c.m, SCHED_LIST, x), SCHED_LIST, [y])
    requires !IsTailq(AfterRemove(c.m, SCHED_LIST, x), SCHED_LIST, [z, y])
    ensures Targets(c.s, Destroy(x)) && Exec(c.s, Destroy(x)).Some?
    ensures var d := After(c, Destroy(x));
      d.alive && d.s.list == [z, y] && IsTailq(d.m, SCHED_LIST, [y]) && !Exact(d)
  {
    hide IsTailq, Distinct, AfterRemove;
    WithoutAbsent([z, y], x);
    DestroyedList(c.s, x);
  }

  lemma Three(q: seq<Env>, x: Env, y: Env, z: Env)
    requires Distinct(q) && q == [x, y, z]
    ensures x != y && x != z && y != z
  {
    assert q[0] == x && q[1] == y && q[2] == z;
  }

  /** The links cell by cell. */
  lemma StaleLinks(m: Links, h: Head, a: Env, b: Env, c: Env)
    requires IsTailq(m, h, [a, b, c]) && a != b && a != c && b != c
    ensures a in m.prev && Next(a) in m.cells
    ensures b in AfterRemove(m, h, a).prev && Next(b) in AfterRemove(m, h, a).cells
    ensures h in AfterRemove(AfterRemove(m, h, a), h, b).last
    ensures var m3 := AfterInsertTail(AfterRemove(AfterRemove(m, h, a), h, b), h, b);
      && IsTailq(m3, h, [c, b]) && a in m3.prev && Next(a) in m3.cells
      && IsTailq(AfterRemove(m3, h, a), h, [b]) && !IsTailq(AfterRemove(m3, h, a), h, [c, b])
  {
    var q := [a, b, c];
    assert m.cells[CellOf(h, q, 0)] == Ref(a) && m.cells[CellOf(h, q, 1)] == Ref(b);
    assert m.cells[CellOf(h, q, 2)] == Ref(c) && m.cells[CellOf(h, q, 3)] == Null;
    assert m.prev[q[0]] == First(h) && m.prev[q[1]] == Next(a) && m.prev[q[2]] == Next(b);
    var m1 := AfterRemove(m, h, a);
    assert m1.cells[First(h)] == Ref(b) && m1.prev[b] == First(h) && m1.last[h] == Next(c);
    var m3 := AfterInsertTail(AfterRemove(m1, h, b), h, b);
    assert m3.cells[First(h)] == Ref(c) && m3.cells[Next(c)] == Ref(b) && m3.cells[Next(b)] == Null;
    assert m3.prev[c] == First(h) && m3.prev[b] == Next(c) && m3.last[h] == Next(b);
    assert m3.cells[Next(a)] == Ref(b) && m3.prev[a] == First(h);
    var m4 := AfterRemove(m3, h, a);
    assert m4.cells[First(h)] == Ref(b) && m4.cells[CellOf(h, [c, b], 0)] != PtrAt([c, b], 0);
  }

  // ----- a flag that outlives its environment

  /** x receives and is destroyed, which does no harm; fork then gives its slot, with the
      flag still set, to a child.  When the fork is done the child is made runnable, and
      is from then on taken for a receiver although it runs. */
  lemma FlagOutlivesRun(a: Sys, x: Env, y: Env, id: nat) returns (states: seq<Sys>, ops: seq<Op>)
    requires Exact(a) && a.s.list == [x, y]
    ensures |states| == 5 && ops == [Recv(0), Destroy(x), Exofork(x, id), SetStatus(x, Runnable)] && states[0] == a
    ensures ListRuns.Run(states, ops) && !Sound(states, ops, 3)
    ensures states[4].s.list == [y, x] && x < |states[4].s.ipc| && states[4].s.ipc[x].recving && !Exact(states[4])
  {
    hide IsTailq, Distinct, Detached, StaleAgrees, AfterInsertTail, AfterRemove, Rescheduled, Schedule;
    ReceiveOfTwo(a, x, y);
    var b := After(a, Recv(0));
    EntryKeepsExactIff(b, Destroy(x));
    DestroyedList(b.s, x);
    WithoutAbsent([y], x);
    var c := After(b, Destroy(x));
    EntryKeepsExactIff(c, Exofork(x, id));
    var d := After(c, Exofork(x, id));
    CurrentIsAwake(d.s, Runnable);
    EntryKeepsExactIff(d, SetStatus(x, Runnable));
    var e := After(d, SetStatus(x, Runnable));
    states, ops := [a, b, c, d, e], [Recv(0), Destroy(x), Exofork(x, id), SetStatus(x, Runnable)];
  }

  lemma ReceiveOfTwo(a: Sys, x: Env, y: Env)
    requires Exact(a) && a.s.list == [x, y]
    ensures x != y && Exec(a.s, Recv(0)).Some?
    ensures var b := After(a, Recv(0));
      && Exact(b) && b.s.list == [y] && b.s.cur == Some(y) && InRange(b.s, x)
      && b.s.status[x] == NotRunnable && b.s.ipc[x].recving
      && x in b.m.prev && Next(x) in b.m.cells && StaleAgrees(b.m, SCHED_LIST, [y], x)
  {
    hide IsTailq, Detached, Frame, AfterRemove, StaleAgrees;
    var q := a.s.list;
    assert q[0] == x && q[1] == y && x != y;
    hide Distinct;
    CurrentIsAwake(a.s, Free);
    BlockIsSchedulable(a.s, 0);
    WithoutHead(q);
    var t := Block(a.s, x, 0);
    assert t.list == [y];
    ScheduleRuns(t, true);
    WithoutAbsent([y], x);
    EntryKeepsExactIff(a, Recv(0));
    RemoveAny(a.m, SCHED_LIST, x, q);
    var m := Remove(a.m, SCHED_LIST, x).m;
    RemoveAny(m, SCHED_LIST, x, t.list);
    JustLeftAgrees(m, t.list, x);
  }

  /** Links that a removal has just left agree with the queue. */
  lemma JustLeftAgrees(m: Links, q: seq<Env>, x: Env)
    requires IsTailq(m, SCHED_LIST, q) && Detached(m, SCHED_LIST, x)
    ensures Next(x) in m.cells && StaleAgrees(m, SCHED_LIST, q, x)
  {}

  // ----- a receiver that is woken

  /** A receiver that its parent makes runnable by hand is still receiving; the next
      message to it puts it on the list a second time. */
  lemma ReceiverQueuedTwice(s: Sched, e: Env, value: nat, perm: Perm32)
    requires Running(s) && MayRestatus(s, e, Runnable) && s.ipc[e].recving && s.cur != Some(e)
    ensures WakesReceiver(s, SetStatus(e, Runnable))
    ensures var t := Restatus(s, e, Runnable);
      && t.list == s.list + [e] && t.ipc[e].recving && t.status[e] == Runnable && InRange(t, s.cur.value)
      && !Distinct(Deliver(t, s.cur.value, e, value, perm).list)
  {
    var u := Deliver(Restatus(s, e, Runnable), s.cur.value, e, value, perm).list;
    assert u == s.list + [e] + [e];
    assert u[|s.list|] == u[|s.list| + 1];
  }
}
