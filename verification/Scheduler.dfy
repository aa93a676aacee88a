/** The scheduler as the kernel runs it: control blocks updated in place and
    env_sched_list as an intrusive queue in memory (kern/sched.c,
    kern/syscall_all.c, kern/env.c). */
module Schedulers {
  import opened Mmu
  import opened Queues
  import opened Scheduling

  const SCHED_LIST: Head := 0

  const E_INVAL := 3
  const E_BAD_ENV := 2
  const E_IPC_NOT_RECV := 7

  class Scheduler {
    const links: LinkMemory
    var status: seq<Status>          // env_status
    var pri: seq<nat>                // env_pri
    var id: seq<nat>                 // env_id
    var ipc: seq<Ipc>                // env_ipc_*
    var count: int
    var curenv: Option<Env>
    ghost var list: seq<Env>

    /** env_init for the scheduler: `nenv` free environments, an empty list. */
    constructor (nenv: nat)
      ensures fresh(links) && Linked() && Schedulable(View()) && list == [] && curenv == None
      ensures |status| == nenv && forall e | 0 <= e < nenv :: status[e] == Free && !ipc[e].recving
      ensures forall e | 0 <= e < nenv :: NeverQueued(links.View(), e)
    {
      links := new LinkMemory(nenv);
      status := seq(nenv, _ => Free);
      pri := seq(nenv, _ => 0);
      id := seq(nenv, _ => 0);
      ipc := seq(nenv, _ => Ipc(false, 0, 0, 0, Perm32(0, 0)));
      count := 0;
      curenv := None;
      list := [];
      new;
      ghost var zeroed := links.View();
      links.TailqInit(SCHED_LIST);
      forall e | 0 <= e < nenv ensures NeverQueued(links.View(), e) { assert NeverQueued(zeroed, e); }
      assert HasLinks(links.View(), nenv) by {
        forall e | 0 <= e < nenv ensures Next(e) in links.View().cells { assert NeverQueued(links.View(), e); }
      }
    }

    ghost function View(): Sched
      reads this
    {
      Sched(list, status, pri, id, ipc, count, curenv)
    }

    /** The links in memory spell the list, and every control block has its links. */
    ghost predicate Linked()
      reads this, links
    {
      IsTailq(links.View(), SCHED_LIST, list) && HasLinks(links.View(), |status|)
    }

    /** User code is running. */
    ghost predicate Valid()
      reads this, links
    {
      Linked() && Running(View())
    }

    /** The current environment leaves the list, and joins it again at the end if it can
        still run. */
    method MoveToEnd(e: Env)
      requires Linked() && Schedulable(View()) && curenv == Some(e)
      requires e in list || Detached(links.View(), SCHED_LIST, e)
      modifies this`list, links
      ensures Linked() && list == Rotated(old(View()))
    {
      hide Spells, Detached, Frame, Without;
      WithoutMembers(list, e);
      var known := links.TailqRemove(SCHED_LIST, e, list);
      list := Without(list, e);
      if status[e] == Runnable {
        links.TailqInsertTail(SCHED_LIST, e, list);
        list := list + [e];
      }
    }

    /** schedule; false is a panic.  The current environment may have left the list
        already, as long as its links still say from where: the removal here then
        changes nothing. */
    method Schedule(yielding: bool) returns (ok: bool)
      requires Linked() && Schedulable(View())
      requires curenv.Some? ==> curenv.value in list || Detached(links.View(), SCHED_LIST, curenv.value)
      modifies this, links
      ensures ok <==> Scheduling.Schedule(old(View()), yielding).Some?
      ensures ok ==> Valid() && View() == Scheduling.Schedule(old(View()), yielding).value
    {
      hide Distinct, Spells, Detached, Frame, Without;
      ghost var s := View();
      ScheduleRuns(s, yielding);
      var e := curenv;
      if yielding || count <= 0 || e.None? || status[e.value] != Runnable {
        if e.Some? { MoveToEnd(e.value); }
        assert list == Rotated(s);
        RotatedMembers(s);
        FirstOfQueue(links.View(), SCHED_LIST, list);
        var first := links.cells[First(SCHED_LIST)];
        if first == Null {
          return false;
        }
        assert list[0] in s.list;
        e := Some(first.node);
        count := pri[first.node];
      }
      count := count - 1;
      curenv := e;
      ok := true;
    }

    /** env_create, before the first call of schedule */
    method EnvCreate(e: Env, priority: nat)
      requires Linked() && Schedulable(View()) && curenv == None && e < |status| && status[e] == Free
      modifies this, links
      ensures Linked() && curenv == None && (!old(ipc)[e].recving ==> Schedulable(View()))
      ensures list == [e] + old(list) && status == old(status)[e := Runnable] && pri == old(pri)[e := priority]
    {
      hide Spells, Frame;
      assert e !in list;
      links.TailqInsertHead(SCHED_LIST, e, list);
      pri := pri[e := priority];
      status := status[e := Runnable];
      list := [e] + list;
    }

    /** sys_yield */
    method SysYield() returns (ok: bool)
      requires Valid()
      modifies this, links
      ensures ok <==> Exec(old(View()), Yield).Some?
      ensures ok ==> Valid() && Exec(old(View()), Yield) == Some(View())
    {
      HeadIsListed(View());
      ok := Schedule(true);
    }

    /** The timer interrupt. */
    method Timer() returns (ok: bool)
      requires Valid()
      modifies this, links
      ensures ok <==> Exec(old(View()), Tick).Some?
      ensures ok ==> Valid() && Exec(old(View()), Tick) == Some(View())
    {
      HeadIsListed(View());
      ok := Schedule(false);
    }

    /** The caller waits for a message and leaves the list. */
    method WaitForMessage(e: Env, dstva: nat)
      requires Linked() && ListExact(View()) && e in list
      modifies this, links
      ensures Linked() && View() == Block(old(View()), e, dstva) && Detached(links.View(), SCHED_LIST, e)
    {
      hide Distinct, Spells, Detached, Frame;
      ghost var s := View();
      ipc := ipc[e := ipc[e].(recving := true)];
      ipc := ipc[e := ipc[e].(dstva := dstva)];
      status := status[e := NotRunnable];
      var known := links.TailqRemove(SCHED_LIST, e, list);
      list := Without(list, e);
      assert View() == Block(s, e, dstva);
    }

    /** sys_ipc_recv: the environment leaves the list here and is removed a second
        time inside schedule. */
    method SysIpcRecv(dstva: nat) returns (ok: bool, r: int)
      requires Valid()
      modifies this, links
      ensures ok <==> Exec(old(View()), Recv(dstva)).Some?
      ensures ok ==> Valid() && Exec(old(View()), Recv(dstva)) == Some(View())
      ensures ok ==> r == if IsZeroOrLegal(dstva) then 0 else -E_INVAL
    {
      hide Distinct, Spells, Detached, Frame, Scheduling.Schedule;
      if dstva != 0 && IsIllegalVa(dstva) {
        return true, -E_INVAL;
      }
      ghost var s := View();
      HeadIsListed(s);
      BlockIsSchedulable(s, dstva);
      WaitForMessage(curenv.value, dstva);
      ok := Schedule(true);
      r := 0;
    }

    /** sys_ipc_try_send up to the mapping of a page: 0 when the message was delivered. */
    method SendMessage(to: Env, value: nat, srcva: nat, perm: Perm32) returns (r: int)
      requires Valid() && to < |status|
      modifies this, links
      ensures Valid() && Exec(old(View()), TrySend(to, value, srcva, perm)) == Some(View())
      ensures r == 0 <==> IsDelivery(old(View()), TrySend(to, value, srcva, perm), to)
      ensures r != 0 ==> View() == old(View())
      ensures r != 0 ==>
        r == if !IsZeroOrLegal(srcva) then -E_INVAL else if status[to] == Free then -E_BAD_ENV else -E_IPC_NOT_RECV
    {
      hide Distinct, Spells, Frame;
      if srcva != 0 && IsIllegalVa(srcva) {
        return -E_INVAL;
      }
      if status[to] == Free {
        return -E_BAD_ENV;
      }
      if !ipc[to].recving {
        return -E_IPC_NOT_RECV;
      }
      DeliverKeepsRunning(View(), curenv.value, to, value, perm);
      PutMessage(to, value, perm);
      r := 0;
    }

    /** Steps 4 and 5: the message, and the receiver is runnable and last on the list. */
    method PutMessage(to: Env, value: nat, perm: Perm32)
      requires Linked() && InRange(View(), to) && to !in list && curenv.Some? && curenv.value < |id|
      modifies this, links
      ensures Linked() && View() == Deliver(old(View()), old(curenv.value), to, value, perm)
    {
      hide Distinct, Spells, Frame;
      ghost var s := View();
      ipc := ipc[to := ipc[to].(value := value)];
      ipc := ipc[to := ipc[to].(from := id[curenv.value])];
      ipc := ipc[to := ipc[to].(perm := AsReceived(perm))];
      ipc := ipc[to := ipc[to].(recving := false)];
      status := status[to := Runnable];
      links.TailqInsertTail(SCHED_LIST, to, list);
      list := list + [to];
      assert View() == Deliver(s, curenv.value, to, value, perm);
    }

    /** sys_set_env_status; a status other than the two valid ones is -E_INVAL, of
        which Free stands for all.  The list stays exact unless a receiver is woken. */
    method SysSetEnvStatus(e: Env, st: Status) returns (ok: bool, r: int)
      requires Valid() && e < |status|
      modifies this, links
      ensures ok <==> Exec(old(View()), SetStatus(e, st)).Some?
      ensures ok ==> Linked() && Exec(old(View()), SetStatus(e, st)) == Some(View())
      ensures ok ==> (Valid() <==> !WakesReceiver(old(View()), SetStatus(e, st)))
      ensures ok ==> r == if st == Free then -E_INVAL else if old(status)[e] == Free then -E_BAD_ENV else 0
      ensures r != 0 ==> ok && View() == old(View())
    {
      hide Distinct, Spells, Detached, Frame, Scheduling.Schedule, Without;
      ghost var s := View();
      CurrentIsAwake(s, st);
      ok, r := true, 0;
      if st == Free {
        return true, -E_INVAL;
      }
      if status[e] == Free {
        return true, -E_BAD_ENV;
      }
      if e != curenv.value { RestatusKeepsRunningIff(s, e, st); } else { RestatusIsSchedulable(s, e, st); }
      ChangeStatus(e, st);
      if curenv == Some(e) {
        ok := Schedule(true);
      }
    }

    /** The two changes of the list, and the status. */
    method ChangeStatus(e: Env, st: Status)
      requires Linked() && Running(View()) && MayRestatus(View(), e, st)
      modifies this`status, this`list, links
      ensures Linked() && View() == Restatus(old(View()), e, st)
      ensures old(status)[e] != NotRunnable && st == NotRunnable ==> Detached(links.View(), SCHED_LIST, e)
    {
      hide Spells, Detached, Frame, Without;
      ghost var s := View();
      if st == NotRunnable && status[e] != NotRunnable {
        var known := links.TailqRemove(SCHED_LIST, e, list);
        list := Without(list, e);
      }
      if st == Runnable && status[e] != Runnable {
        links.TailqInsertTail(SCHED_LIST, e, list);
        list := list + [e];
      }
      status := status[e := st];
      assert View() == Restatus(s, e, st);
    }

    /** The end of env_free: the control block is free, and taken off the list whether it
        is there or not; false is the panic at a null link. */
    method FreeSlot(e: Env) returns (ok: bool)
      requires Linked() && Distinct(list) && e < |status|
      modifies this`status, this`list, links
      ensures status == old(status)[e := Free] && list == Without(old(list), e)
      ensures ok <==> e in old(list) || e in old(links.prev)
      ensures ok ==> (Linked() <==> e in old(list) || StaleAgrees(old(links.View()), SCHED_LIST, old(list), e))
    {
      hide Spells, Detached, Frame, StaleAgrees, Distinct;
      FreeLinks(links.View(), SCHED_LIST, list, e);
      WithoutMembers(list, e);
      status := status[e := Free];
      ok := links.TailqRemove(SCHED_LIST, e, list);
      list := Without(list, e);
    }

    /** env_destroy of a live environment; false is a panic.  One that is not on the list
        does no harm exactly when its stale links agree with the queue. */
    method EnvDestroy(e: Env) returns (ok: bool)
      requires Valid() && e < |status| && status[e] != Free
      modifies this, links
      ensures ok <==> Exec(old(View()), Destroy(e)).Some? && (e in old(list) || e in old(links.prev))
      ensures ok ==> Exec(old(View()), Destroy(e)) == Some(View())
      ensures ok ==> (Valid() <==> e in old(list) || StaleAgrees(old(links.View()), SCHED_LIST, old(list), e))
    {
      hide Distinct, Spells, Detached, Frame, Scheduling.Schedule, StaleAgrees, Without;
      ghost var s := View();
      HeadIsListed(s);
      DestroyIsSchedulable(s, e);
      ok := FreeSlot(e);
      if !ok { return; }
      if curenv == Some(e) {
        curenv := None;
        ok := Schedule(true);
      }
    }
  }

  ghost predicate HasLinks(m: Links, nenv: nat) {
    forall e | 0 <= e < nenv :: Next(e) in m.cells
  }

  /** What a removal does to the queue, for an element in it and for one that is not. */
  lemma FreeLinks(m: Links, h: Head, q: seq<Node>, e: Node)
    requires IsTailq(m, h, q) && Next(e) in m.cells
    ensures Remove(m, h, e).Done? <==> e in q || e in m.prev
    ensures StaleAgrees(m, h, q, e) ==> e in m.prev
    ensures Remove(m, h, e).Done? ==>
      (IsTailq(Remove(m, h, e).m, h, Without(q, e)) <==> e in q || StaleAgrees(m, h, q, e))
  {
    RemoveAny(m, h, e, q);
    if e !in q {
      WithoutAbsent(q, e);
      StaleRemoveIff(m, h, q, e);
    }
  }

  lemma HeadIsListed(s: Sched)
    requires Running(s)
    ensures s.cur.value in s.list
  {}

  lemma FirstOfQueue(m: Links, h: Head, q: seq<Node>)
    requires IsTailq(m, h, q)
    ensures First(h) in m.cells && m.cells[First(h)] == if q == [] then Null else Ref(q[0])
  {
    assert m.cells[CellOf(h, q, 0)] == PtrAt(q, 0);
  }
}
