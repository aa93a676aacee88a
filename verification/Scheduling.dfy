/** The scheduler and inter-process messages (kern/sched.c, kern/syscall_all.c):
    what each kernel entry does to the run queue, and what follows for whole runs. */
module Scheduling {
  import opened Mmu
  import opened Queues

  type Env = nat

  datatype Option<T> = None | Some(value: T)

  datatype Status = Free | Runnable | NotRunnable

  /** The env_ipc_* fields. */
  datatype Ipc = Ipc(recving: bool, dstva: nat, value: nat, from: nat, perm: Perm32)

  /** list: env_sched_list; count: remaining slices of the current environment. */
  datatype Sched = Sched(
    list: seq<Env>, status: seq<Status>, pri: seq<nat>, id: seq<nat>, ipc: seq<Ipc>, count: int, cur: Option<Env>)

  /** Kernel entries.  Tick is the timer interrupt; the others are system calls of
      the current environment. */
  datatype Op =
    | Tick
    | Yield
    | Recv(dstva: nat)
    | TrySend(to: Env, value: nat, srcva: nat, perm: Perm32)
    | SetStatus(env: Env, status: Status)
    | Exofork(env: Env, id: nat)
    | Destroy(env: Env)

  predicate InRange(s: Sched, e: Env) {
    e < |s.status| == |s.pri| == |s.ipc| == |s.id|
  }

  // ----- the specification of each entry; None is a kernel panic

  /** schedule */
  function Schedule(s: Sched, yielding: bool): Option<Sched>
    requires s.cur.Some? ==> InRange(s, s.cur.value)
    requires forall e | e in s.list :: InRange(s, e)
  {
    if yielding || s.count <= 0 || s.cur.None? || s.status[s.cur.value] != Runnable then
      var list :=
        if s.cur.None? then s.list
        else if s.status[s.cur.value] == Runnable then Without(s.list, s.cur.value) + [s.cur.value]
        else Without(s.list, s.cur.value);
      if list == [] || !InRange(s, list[0]) then None
      else
        var slices: int := s.pri[list[0]];
        Some(s.(list := list, cur := Some(list[0]), count := slices - 1))
    else
      Some(s.(count := s.count - 1))
  }

  /** sys_ipc_recv up to its call of schedule */
  function Block(s: Sched, e: Env, dstva: nat): Sched
    requires InRange(s, e)
  {
    s.(ipc := s.ipc[e := s.ipc[e].(recving := true, dstva := dstva)],
       status := s.status[e := NotRunnable], list := Without(s.list, e))
  }

  /** PTE_V | perm */
  function AsReceived(perm: Perm32): Perm32 { Perm32(perm.high, PTE_V | perm.low) }

  /** sys_ipc_try_send to a waiting environment, up to the mapping of a page */
  function Deliver(s: Sched, from: Env, to: Env, value: nat, perm: Perm32): Sched
    requires InRange(s, to) && from < |s.id|
  {
    s.(ipc := s.ipc[to := Ipc(false, s.ipc[to].dstva, value, s.id[from], AsReceived(perm))],
       status := s.status[to := Runnable], list := s.list + [to])
  }

  /** The status argument of sys_set_env_status is valid, its target alive. */
  predicate MayRestatus(s: Sched, e: Env, st: Status) {
    InRange(s, e) && s.status[e] != Free && st != Free
  }

  /** sys_set_env_status up to its call of schedule */
  function Restatus(s: Sched, e: Env, st: Status): Sched
    requires InRange(s, e)
  {
    s.(status := s.status[e := st],
       list := if st == NotRunnable && s.status[e] != NotRunnable then Without(s.list, e)
               else if st == Runnable && s.status[e] != Runnable then s.list + [e]
               else s.list)
  }

  // ----- the invariant

  /** env_sched_list holds each runnable environment once and nothing else; one that
      waits for a message is not runnable.  A destroyed environment leaves its flag in
      its control block, where the next owner finds it. */
  ghost predicate ListExact(s: Sched) {
    && |s.status| == |s.pri| == |s.ipc| == |s.id|
    && Distinct(s.list)
    && (forall e | e in s.list :: e < |s.status|)
    && (forall e | 0 <= e < |s.status| :: e in s.list <==> s.status[e] == Runnable)
    && (forall e | 0 <= e < |s.status| && s.ipc[e].recving :: s.status[e] != Runnable)
    && (forall e | 0 <= e < |s.ipc| :: IsZeroOrLegal(s.ipc[e].dstva))
    && (s.cur.Some? ==> s.cur.value < |s.status|)
  }

  /** While user code runs, the current environment is at the head of the list. */
  ghost predicate Running(s: Sched) {
    ListExact(s) && s.cur.Some? && s.list != [] && s.list[0] == s.cur.value
  }

  /** What a kernel entry may name: control blocks that exist, and for a new environment
      a free one. */
  predicate Targets(s: Sched, op: Op) {
    match op
    case SetStatus(e, _) => InRange(s, e)
    case TrySend(to, _, _, _) => InRange(s, to)
    case Exofork(e, _) => InRange(s, e) && s.status[e] == Free
    case Destroy(e) => InRange(s, e)
    case _ => true
  }

  /** The one entry that breaks the list: an environment whose flag says that it waits
      for a message is made runnable by hand. */
  predicate WakesReceiver(s: Sched, op: Op) {
    op.SetStatus? && op.status == Runnable && MayRestatus(s, op.env, Runnable) && s.ipc[op.env].recving
  }

  predicate Admissible(s: Sched, op: Op) {
    Targets(s, op) && !WakesReceiver(s, op)
  }

  function Exec(s: Sched, op: Op): Option<Sched>
    requires Running(s) && Targets(s, op)
  {
    var e := s.cur.value;
    match op
    case Tick => Schedule(s, false)
    case Yield => Schedule(s, true)
    case Recv(dstva) => if IsZeroOrLegal(dstva) then ScheduleFrom(Block(s, e, dstva)) else Some(s)
    case TrySend(to, value, srcva, perm) =>
      if IsZeroOrLegal(srcva) && s.status[to] != Free && s.ipc[to].recving then Some(Deliver(s, e, to, value, perm)) else Some(s)
    case SetStatus(d, st) =>
      if !MayRestatus(s, d, st) then Some(s)
      else if d == e then ScheduleFrom(Restatus(s, d, st)) else Some(Restatus(s, d, st))
    case Exofork(d, id) => Some(s.(status := s.status[d := NotRunnable], pri := s.pri[d := s.pri[e]], id := s.id[d := id]))
    case Destroy(d) =>
      var t := s.(status := s.status[d := Free], list := Without(s.list, d));
      if s.status[d] == Free then Some(s) else if d == e then ScheduleFrom(t.(cur := None)) else Some(t)
  }

  /** schedule(1), called inside the kernel */
  function ScheduleFrom(s: Sched): Option<Sched> {
    if (s.cur.Some? ==> InRange(s, s.cur.value)) && (forall e | e in s.list :: InRange(s, e)) then Schedule(s, true) else None
  }

  /** Whether the entry calls schedule. */
  function Calls(s: Sched, op: Op): nat
    requires s.cur.Some?
  {
    match op
    case Tick => 1
    case Yield => 1
    case Recv(dstva) => if IsZeroOrLegal(dstva) then 1 else 0
    case SetStatus(e, st) => if e == s.cur.value && st != Free then 1 else 0
    case Destroy(e) => if e == s.cur.value then 1 else 0
    case _ => 0
  }

  // ----- removing from and adding to the list

  lemma {:induction false} WithoutMembers(q: seq<Env>, x: Env)
    requires Distinct(q)
    ensures Distinct(Without(q, x))
    ensures forall y :: y in Without(q, x) <==> y in q && y != x
  {
    if q != [] {
      var t := q[1..];
      assert forall i | 0 <= i < |t| :: t[i] == q[i + 1];
      WithoutMembers(t, x);
      if q[0] == x {
        assert x !in t;
      } else {
        assert q[0] !in t;
        var w := Without(t, x);
        forall i, j | 0 <= i < j < |w| + 1 ensures ([q[0]] + w)[i] != ([q[0]] + w)[j] {
          assert w[j - 1] in w;
        }
      }
    }
  }

  lemma AppendMembers(q: seq<Env>, x: Env)
    requires Distinct(q) && x !in q
    ensures Distinct(q + [x])
    ensures forall y :: y in q + [x] <==> y in q || y == x
  {}

  lemma {:induction false} WithoutHead(q: seq<Env>)
    requires q != []
    ensures Without(q, q[0]) == q[1..]
  {}

  // ----- the invariant is kept

  /** schedule may start with a current environment that has just left the list. */
  ghost predicate Schedulable(s: Sched) {
    ListExact(s) && (s.cur.Some? && s.status[s.cur.value] == Runnable ==> s.list != [] && s.list[0] == s.cur.value)
  }

  /** The list schedule picks from. */
  function Rotated(s: Sched): seq<Env>
    requires s.cur.Some? ==> s.cur.value < |s.status|
  {
    if s.cur.None? then s.list
    else if s.status[s.cur.value] == Runnable then Without(s.list, s.cur.value) + [s.cur.value]
    else Without(s.list, s.cur.value)
  }

  lemma RotatedMembers(s: Sched)
    requires ListExact(s)
    ensures Distinct(Rotated(s)) && forall e :: e in Rotated(s) <==> e in s.list
  {
    if s.cur.Some? {
      WithoutMembers(s.list, s.cur.value);
      if s.status[s.cur.value] == Runnable {
        AppendMembers(Without(s.list, s.cur.value), s.cur.value);
      }
    }
  }

  /** schedule runs a runnable environment, now at the head of the list; it panics
      exactly when it has to pick and nothing is runnable. */
  lemma ScheduleRuns(s: Sched, yielding: bool)
    requires Schedulable(s)
    ensures Schedule(s, yielding).None? <==> s.list == []
    ensures Schedule(s, yielding).Some? ==> Running(Schedule(s, yielding).value)
  {
    RotatedMembers(s);
    var q := Rotated(s);
    assert q != [] ==> q[0] in q;
    assert s.list != [] ==> s.list[0] in q;
  }

  lemma BlockIsSchedulable(s: Sched, dstva: nat)
    requires Running(s) && IsZeroOrLegal(dstva)
    ensures Schedulable(Block(s, s.cur.value, dstva))
  {
    WithoutMembers(s.list, s.cur.value);
    assert s.cur.value in s.list;
  }

  lemma DeliverKeepsRunning(s: Sched, from: Env, to: Env, value: nat, perm: Perm32)
    requires Running(s) && to < |s.status| && from < |s.status| && s.ipc[to].recving
    ensures to !in s.list && Running(Deliver(s, from, to, value, perm))
  {
    AppendMembers(s.list, to);
  }

  /** The list stays exact under sys_set_env_status exactly when no receiver is woken. */
  lemma RestatusKeepsRunningIff(s: Sched, e: Env, st: Status)
    requires Running(s) && MayRestatus(s, e, st) && e != s.cur.value
    ensures Running(Restatus(s, e, st)) <==> !WakesReceiver(s, SetStatus(e, st))
  {
    if !WakesReceiver(s, SetStatus(e, st)) { RestatusIsSchedulable(s, e, st); }
  }

  lemma CurrentIsAwake(s: Sched, st: Status)
    requires Running(s)
    ensures InRange(s, s.cur.value) && s.status[s.cur.value] == Runnable && s.cur.value in s.list
    ensures !WakesReceiver(s, SetStatus(s.cur.value, st))
  {
    assert s.list[0] in s.list;
  }

  lemma RestatusIsSchedulable(s: Sched, e: Env, st: Status)
    requires Running(s) && MayRestatus(s, e, st) && !WakesReceiver(s, SetStatus(e, st))
    ensures e == s.cur.value ==> Schedulable(Restatus(s, e, st))
    ensures e != s.cur.value ==> Running(Restatus(s, e, st))
  {
    WithoutMembers(s.list, e);
    assert s.cur.value in s.list;
    if e !in s.list { AppendMembers(s.list, e); }
    if e != s.cur.value { WithoutKeepsHead(s.list, e); }
  }

  lemma WithoutKeepsHead(q: seq<Env>, x: Env)
    requires q != [] && q[0] != x
    ensures Without(q, x) != [] && Without(q, x)[0] == q[0]
  {}

  lemma DestroyIsSchedulable(s: Sched, d: Env)
    requires Running(s) && InRange(s, d) && s.status[d] != Free
    ensures var t := s.(status := s.status[d := Free], list := Without(s.list, d));
      && (d == s.cur.value ==> Schedulable(t.(cur := None)))
      && (d != s.cur.value ==> Running(t))
  {
    WithoutMembers(s.list, d);
    if d != s.cur.value { WithoutKeepsHead(s.list, d); }
  }

  /** Every entry keeps the list exact and its head running, but the one that wakes a
      receiver. */
  lemma ExecKeepsRunningIff(s: Sched, op: Op)
    requires Running(s) && Targets(s, op) && Exec(s, op).Some?
    ensures Running(Exec(s, op).value) <==> !WakesReceiver(s, op)
  {
    if WakesReceiver(s, op) {
      CurrentIsAwake(s, Runnable);
      RestatusKeepsRunningIff(s, op.env, op.status);
    } else {
      ExecKeepsRunning(s, op);
    }
  }

  lemma ExecKeepsRunning(s: Sched, op: Op)
    requires Running(s) && Admissible(s, op)
    ensures Exec(s, op).Some? ==> Running(Exec(s, op).value)
  {
    hide Schedule, Distinct;
    var e := s.cur.value;
    assert e in s.list;
    match op
    case Tick => ScheduleRuns(s, false);
    case Yield => ScheduleRuns(s, true);
    case Recv(dstva) =>
      if IsZeroOrLegal(dstva) {
        BlockIsSchedulable(s, dstva);
        ScheduleRuns(Block(s, e, dstva), true);
      }
    case TrySend(to, value, srcva, perm) =>
      if s.ipc[to].recving { DeliverKeepsRunning(s, e, to, value, perm); }
    case SetStatus(d, st) =>
      if MayRestatus(s, d, st) {
        RestatusIsSchedulable(s, d, st);
        if d == e { ScheduleRuns(Restatus(s, d, st), true); }
      }
    case Exofork(d, _) =>
    case Destroy(d) =>
      if s.status[d] != Free {
        DestroyIsSchedulable(s, d);
        if d == e {
          ScheduleRuns(s.(status := s.status[d := Free], list := Without(s.list, d), cur := None), true);
        }
      }
  }

  // ----- fairness

  /** Calls of schedule that an environment of priority p runs for. */
  function Slices(p: nat): nat {
    if p == 0 then 1 else p
  }

  /** The slices of everything queued before x. */
  function Ahead(pri: seq<nat>, q: seq<Env>, x: Env): nat {
    if q == [] || q[0] == x then 0
    else (if q[0] < |pri| then Slices(pri[q[0]]) else 0) + Ahead(pri, q[1..], x)
  }

  /** How many calls of schedule x may still have to wait for. */
  function Wait(s: Sched, x: Env): nat
    requires s.cur.Some? && s.list != []
  {
    if s.cur.value == x then 0 else (if s.count > 0 then s.count else 0) + 1 + Ahead(s.pri, s.list[1..], x)
  }

  lemma {:induction false} AheadAppend(pri: seq<nat>, q: seq<Env>, y: Env, x: Env)
    requires x in q
    ensures Ahead(pri, q + [y], x) == Ahead(pri, q, x)
  {
    assert (q + [y])[0] == q[0] && (q + [y])[1..] == q[1..] + [y];
    if q[0] != x { AheadAppend(pri, q[1..], y, x); }
  }

  lemma {:induction false} AheadWithout(pri: seq<nat>, q: seq<Env>, y: Env, x: Env)
    requires x in q && x != y
    ensures Ahead(pri, Without(q, y), x) <= Ahead(pri, q, x)
  {
    if q[0] != x && q[0] != y {
      AheadWithout(pri, q[1..], y, x);
      assert Without(q, y)[1..] == Without(q[1..], y);
    } else if q[0] == x {
      assert Without(q, y)[0] == x;
    }
  }

  lemma {:induction false} AheadOtherPri(pri: seq<nat>, q: seq<Env>, d: Env, p: nat, x: Env)
    requires d < |pri| && d !in q
    ensures Ahead(pri[d := p], q, x) == Ahead(pri, q, x)
  {
    if q != [] && q[0] != x { AheadOtherPri(pri, q[1..], d, p, x); }
  }

  /** schedule brings x forward by one call. */
  lemma ScheduleBringsForward(s: Sched, yielding: bool, rest: seq<Env>, x: Env)
    requires Schedulable(s) && x in rest && Distinct(rest)
    requires
      || (s.cur.Some? && s.cur.value != x && s.status[s.cur.value] == Runnable && s.list == [s.cur.value] + rest)
      || (s.list == rest && (s.cur.Some? ==> s.cur.value !in rest && s.status[s.cur.value] != Runnable))
    requires yielding || s.count <= 0 || s.cur.None? || s.status[s.cur.value] != Runnable
    ensures Schedule(s, yielding).Some? && Running(Schedule(s, yielding).value)
    ensures Wait(Schedule(s, yielding).value, x) <= Ahead(s.pri, rest, x)
  {
    ScheduleRuns(s, yielding);
    var t := Schedule(s, yielding).value;
    if s.list == rest {
      if s.cur.Some? { WithoutAbsent(rest, s.cur.value); }
      assert t.list == rest;
    } else {
      assert Without(s.list, s.cur.value) == rest;
      assert t.list == rest + [s.cur.value];
      if rest[0] != x {
        assert t.list[1..] == rest[1..] + [s.cur.value];
        AheadAppend(s.pri, rest[1..], s.cur.value, x);
      }
    }
    assert t.list[0] == rest[0];
  }

  lemma TailIsDistinct(q: seq<Env>)
    requires Distinct(q) && q != []
    ensures Distinct(q[1..]) && q[0] !in q[1..] && q == [q[0]] + q[1..]
  {}

  /** One kernel entry never makes x wait longer, and each call of schedule counts. */
  lemma EntryBringsForward(s: Sched, op: Op, x: Env)
    requires Running(s) && Admissible(s, op) && Exec(s, op).Some? && Running(Exec(s, op).value)
    requires x in s.list && s.cur.value != x && x in Exec(s, op).value.list
    ensures Wait(Exec(s, op).value, x) + Calls(s, op) <= Wait(s, x)
  {
    hide Schedule, Distinct, Ahead;
    var e, rest, t := s.cur.value, s.list[1..], Exec(s, op).value;
    TailIsDistinct(s.list);
    assert x in rest;
    match op
    case Tick =>
      if s.count <= 0 { ScheduleBringsForward(s, false, rest, x); } else { TickInSlice(s); }
    case Yield => ScheduleBringsForward(s, true, rest, x);
    case Recv(dstva) =>
      if IsZeroOrLegal(dstva) {
        BlockIsSchedulable(s, dstva);
        WithoutHead(s.list);
        ScheduleBringsForward(Block(s, e, dstva), true, rest, x);
      }
    case TrySend(to, value, srcva, perm) =>
      if t != s {
        assert t.list[1..] == rest + [to];
        AheadAppend(s.pri, rest, to, x);
      }
    case SetStatus(d, st) => SetStatusBringsForward(s, d, st, x);
    case Exofork(d, _) =>
      assert d !in s.list && d !in rest;
      AheadOtherPri(s.pri, rest, d, s.pri[e], x);
    case Destroy(d) => DestroyBringsForward(s, d, x);
  }

  lemma TickInSlice(s: Sched)
    requires Running(s) && s.count > 0
    ensures Exec(s, Tick) == Some(s.(count := s.count - 1))
  {
    assert s.list[0] in s.list;
  }

  lemma SetStatusBringsForward(s: Sched, d: Env, st: Status, x: Env)
    requires Running(s) && Admissible(s, SetStatus(d, st)) && x in s.list && s.cur.value != x
    requires Exec(s, SetStatus(d, st)).Some? && x in Exec(s, SetStatus(d, st)).value.list
    requires Running(Exec(s, SetStatus(d, st)).value)
    ensures Wait(Exec(s, SetStatus(d, st)).value, x) + Calls(s, SetStatus(d, st)) <= Wait(s, x)
  {
    hide Schedule, Distinct, Ahead;
    var e, rest, t := s.cur.value, s.list[1..], Exec(s, SetStatus(d, st)).value;
    TailIsDistinct(s.list);
    assert e in s.list && x in rest;
    if !MayRestatus(s, d, st) { return; }
    RestatusIsSchedulable(s, d, st);
    if d == e {
      WithoutHead(s.list);
      ScheduleBringsForward(Restatus(s, d, st), true, rest, x);
    } else if st == NotRunnable && s.status[d] != NotRunnable {
      WithoutMembers(s.list, d);
      assert t.list[1..] == Without(rest, d);
      AheadWithout(s.pri, rest, d, x);
    } else if st == Runnable && s.status[d] != Runnable {
      assert t.list[1..] == rest + [d];
      AheadAppend(s.pri, rest, d, x);
    }
  }

  lemma DestroyBringsForward(s: Sched, d: Env, x: Env)
    requires Running(s) && InRange(s, d) && x in s.list && s.cur.value != x
    requires Exec(s, Destroy(d)).Some? && x in Exec(s, Destroy(d)).value.list
    requires Running(Exec(s, Destroy(d)).value)
    ensures Wait(Exec(s, Destroy(d)).value, x) + Calls(s, Destroy(d)) <= Wait(s, x)
  {
    hide Schedule, Distinct, Ahead;
    var e, rest, t := s.cur.value, s.list[1..], Exec(s, Destroy(d)).value;
    TailIsDistinct(s.list);
    assert s.cur.value in s.list && x in rest;
    if s.status[d] == Free { return; }
    DestroyIsSchedulable(s, d);
    if d == e {
      WithoutHead(s.list);
      ScheduleBringsForward(s.(status := s.status[d := Free], list := rest, cur := None), true, rest, x);
    } else {
      WithoutMembers(s.list, d);
      assert t.list[1..] == Without(rest, d);
      AheadWithout(s.pri, rest, d, x);
    }
  }

  // ----- whole runs

  ghost predicate StepTo(s: Sched, op: Op, t: Sched) {
    Running(s) ==> Admissible(s, op) && Exec(s, op) == Some(t)
  }

  /** A run from a running state: admissible kernel entries none of which panics. */
  ghost predicate Run(states: seq<Sched>, ops: seq<Op>) {
    && |states| == |ops| + 1
    && Running(states[0])
    && forall i | 0 <= i < |ops| :: StepTo(states[i], ops[i], states[i + 1])
  }

  /** In every state of every run the list is exact and its head is running. */
  lemma {:induction false} EveryStateIsRunning(states: seq<Sched>, ops: seq<Op>, n: nat)
    requires Run(states, ops) && n <= |ops|
    ensures Running(states[n])
  {
    hide Exec, Admissible, Running;
    if n > 0 {
      EveryStateIsRunning(states, ops, n - 1);
      assert StepTo(states[n - 1], ops[n - 1], states[n]);
      ExecKeepsRunning(states[n - 1], ops[n - 1]);
    }
  }

  /** Any run, until the list breaks or the kernel panics. */
  ghost predicate AnyRun(states: seq<Sched>, ops: seq<Op>) {
    && |states| == |ops| + 1
    && Running(states[0])
    && forall i | 0 <= i < |ops| :: AnyStepTo(states[i], ops[i], states[i + 1])
  }

  ghost predicate AnyStepTo(s: Sched, op: Op, t: Sched) {
    Running(s) ==> Targets(s, op) && Exec(s, op) == Some(t)
  }

  /** Along every run the list is exact and its head running up to state n exactly when
      no entry so far woke a receiver. */
  lemma {:induction false} ListIsExactIff(states: seq<Sched>, ops: seq<Op>, n: nat)
    requires AnyRun(states, ops) && n <= |ops|
    ensures (forall i | 0 <= i <= n :: Running(states[i])) <==> (forall i | 0 <= i < n :: !WakesReceiver(states[i], ops[i]))
  {
    hide Exec, Targets, Running, WakesReceiver;
    if n > 0 {
      ListIsExactIff(states, ops, n - 1);
      assert AnyStepTo(states[n - 1], ops[n - 1], states[n]);
      if Running(states[n - 1]) { ExecKeepsRunningIff(states[n - 1], ops[n - 1]); }
    }
  }

  /** The calls of schedule in the first n entries. */
  function TotalCalls(states: seq<Sched>, ops: seq<Op>, n: nat): nat
    requires n <= |ops| <= |states|
  {
    if n == 0 then 0
    else TotalCalls(states, ops, n - 1) + (if states[n - 1].cur.Some? then Calls(states[n - 1], ops[n - 1]) else 0)
  }

  lemma {:induction false} WaitBoundsCalls(states: seq<Sched>, ops: seq<Op>, x: Env, n: nat)
    requires Run(states, ops) && n <= |ops|
    requires forall i | 0 <= i <= n :: x in states[i].list
    requires forall i | 0 <= i < n :: states[i].cur != Some(x)
    ensures Running(states[n]) && TotalCalls(states, ops, n) + Wait(states[n], x) <= Wait(states[0], x)
  {
    hide Exec, Admissible, Wait, Calls;
    EveryStateIsRunning(states, ops, n);
    if n > 0 {
      WaitBoundsCalls(states, ops, x, n - 1);
      assert StepTo(states[n - 1], ops[n - 1], states[n]);
      EntryBringsForward(states[n - 1], ops[n - 1], x);
    }
  }

  /** Fairness: an environment that stays on the list is run within the slices of
      those queued before it, what is left of the current slice, and one. */
  lemma IsRunInTime(states: seq<Sched>, ops: seq<Op>, x: Env)
    requires Run(states, ops) && forall i | 0 <= i <= |ops| :: x in states[i].list
    requires TotalCalls(states, ops, |ops|) >= Wait(states[0], x)
    ensures exists i | 0 <= i <= |ops| :: states[i].cur == Some(x)
  {
    hide Exec, Admissible, Calls, StepTo;
    EveryStateIsRunning(states, ops, |ops|);
    if !exists i | 0 <= i <= |ops| :: states[i].cur == Some(x) {
      WaitBoundsCalls(states, ops, x, |ops|);
    }
  }

  // ----- newcomers do not overtake

  /** y is not queued before x. */
  predicate NotAhead(q: seq<Env>, x: Env, y: Env) {
    q == [] || q[0] == x || (q[0] != y && NotAhead(q[1..], x, y))
  }

  lemma {:induction false} AbsentIsNotAhead(q: seq<Env>, x: Env, y: Env)
    requires y !in q
    ensures NotAhead(q, x, y)
  {
    if q != [] { AbsentIsNotAhead(q[1..], x, y); }
  }

  lemma {:induction false} NotAheadAppend(q: seq<Env>, z: Env, x: Env, y: Env)
    requires x in q && NotAhead(q, x, y)
    ensures NotAhead(q + [z], x, y)
  {
    assert (q + [z])[0] == q[0] && (q + [z])[1..] == q[1..] + [z];
    if q[0] != x { NotAheadAppend(q[1..], z, x, y); }
  }

  lemma {:induction false} NotAheadWithout(q: seq<Env>, z: Env, x: Env, y: Env)
    requires x in q && x != z && NotAhead(q, x, y)
    ensures NotAhead(Without(q, z), x, y)
  {
    if q[0] == z {
    } else if q[0] == x {
      assert Without(q, z)[0] == x;
    } else {
      NotAheadWithout(q[1..], z, x, y);
      assert Without(q, z)[1..] == Without(q[1..], z);
    }
  }

  lemma ScheduleKeepsOrder(s: Sched, yielding: bool, x: Env, y: Env)
    requires Schedulable(s) && Schedule(s, yielding).Some? && x in s.list && NotAhead(s.list, x, y)
    requires s.cur.Some? ==> s.cur.value != x
    ensures NotAhead(Schedule(s, yielding).value.list, x, y)
  {
    if s.cur.Some? {
      WithoutMembers(s.list, s.cur.value);
      NotAheadWithout(s.list, s.cur.value, x, y);
      NotAheadAppend(Without(s.list, s.cur.value), s.cur.value, x, y);
    }
  }

  lemma EntryKeepsOrder(s: Sched, op: Op, x: Env, y: Env)
    requires Running(s) && Admissible(s, op) && Exec(s, op).Some?
    requires x in s.list && x in Exec(s, op).value.list && s.cur.value != x && NotAhead(s.list, x, y)
    ensures NotAhead(Exec(s, op).value.list, x, y)
  {
    hide Schedule, Distinct, NotAhead;
    var e := s.cur.value;
    match op
    case Tick => ScheduleKeepsOrder(s, false, x, y);
    case Yield => ScheduleKeepsOrder(s, true, x, y);
    case Recv(dstva) =>
      if IsZeroOrLegal(dstva) {
        WithoutMembers(s.list, e);
        NotAheadWithout(s.list, e, x, y);
        BlockIsSchedulable(s, dstva);
        ScheduleKeepsOrder(Block(s, e, dstva), true, x, y);
      }
    case TrySend(to, value, srcva, perm) => NotAheadAppend(s.list, to, x, y);
    case SetStatus(d, st) => SetStatusKeepsOrder(s, d, st, x, y);
    case Exofork(d, _) =>
    case Destroy(d) => DestroyKeepsOrder(s, d, x, y);
  }

  lemma SetStatusKeepsOrder(s: Sched, d: Env, st: Status, x: Env, y: Env)
    requires Running(s) && Admissible(s, SetStatus(d, st)) && Exec(s, SetStatus(d, st)).Some?
    requires x in s.list && x in Exec(s, SetStatus(d, st)).value.list && s.cur.value != x && NotAhead(s.list, x, y)
    ensures NotAhead(Exec(s, SetStatus(d, st)).value.list, x, y)
  {
    hide Schedule, Distinct, NotAhead;
    if !MayRestatus(s, d, st) { return; }
    var t := Restatus(s, d, st);
    RestatusIsSchedulable(s, d, st);
    WithoutMembers(s.list, d);
    if d != x { NotAheadWithout(s.list, d, x, y); }
    NotAheadAppend(s.list, d, x, y);
    if d == s.cur.value { ScheduleKeepsOrder(t, true, x, y); }
  }

  lemma DestroyKeepsOrder(s: Sched, d: Env, x: Env, y: Env)
    requires Running(s) && InRange(s, d) && Exec(s, Destroy(d)).Some?
    requires x in s.list && x in Exec(s, Destroy(d)).value.list && s.cur.value != x && NotAhead(s.list, x, y)
    ensures NotAhead(Exec(s, Destroy(d)).value.list, x, y)
  {
    hide Schedule, Distinct, NotAhead;
    if s.status[d] == Free { return; }
    DestroyIsSchedulable(s, d);
    WithoutMembers(s.list, d);
    if d != x { NotAheadWithout(s.list, d, x, y); }
    if d == s.cur.value {
      ScheduleKeepsOrder(s.(status := s.status[d := Free], list := Without(s.list, d), cur := None), true, x, y);
    }
  }

  lemma {:induction false} OrderIsKept(states: seq<Sched>, ops: seq<Op>, x: Env, y: Env, n: nat)
    requires Run(states, ops) && n <= |ops| && NotAhead(states[0].list, x, y)
    requires forall i | 0 <= i <= n :: x in states[i].list
    requires forall i | 0 <= i < n :: states[i].cur != Some(x)
    ensures NotAhead(states[n].list, x, y)
  {
    hide Exec, Admissible, NotAhead;
    if n > 0 {
      OrderIsKept(states, ops, x, y, n - 1);
      EveryStateIsRunning(states, ops, n - 1);
      assert StepTo(states[n - 1], ops[n - 1], states[n]);
      EntryKeepsOrder(states[n - 1], ops[n - 1], x, y);
    }
  }

  /** If y joins the list after x, y is not run before x. */
  lemma NewcomersDoNotOvertake(states: seq<Sched>, ops: seq<Op>, x: Env, y: Env, n: nat)
    requires Run(states, ops) && n <= |ops| && y != x && y !in states[0].list
    requires forall i | 0 <= i <= n :: x in states[i].list
    requires states[n].cur == Some(y)
    ensures exists i | 0 <= i < n :: states[i].cur == Some(x)
  {
    hide Exec, Admissible, StepTo;
    EveryStateIsRunning(states, ops, n);
    AbsentIsNotAhead(states[0].list, x, y);
    if !exists i | 0 <= i < n :: states[i].cur == Some(x) {
      OrderIsKept(states, ops, x, y, n);
    }
  }

  // ----- messages

  predicate IsReceive(s: Sched, op: Op, e: Env) {
    op.Recv? && IsZeroOrLegal(op.dstva) && s.cur == Some(e)
  }

  /** A sys_ipc_try_send to e that passed the test of env_ipc_recving. */
  predicate IsDelivery(s: Sched, op: Op, e: Env) {
    op.TrySend? && op.to == e && IsZeroOrLegal(op.srcva) && InRange(s, e) && s.status[e] != Free && s.ipc[e].recving
  }

  function Receives(states: seq<Sched>, ops: seq<Op>, e: Env, n: nat): nat
    requires n <= |ops| <= |states|
  {
    if n == 0 then 0 else Receives(states, ops, e, n - 1) + (if IsReceive(states[n - 1], ops[n - 1], e) then 1 else 0)
  }

  function Deliveries(states: seq<Sched>, ops: seq<Op>, e: Env, n: nat): nat
    requires n <= |ops| <= |states|
  {
    if n == 0 then 0 else Deliveries(states, ops, e, n - 1) + (if IsDelivery(states[n - 1], ops[n - 1], e) then 1 else 0)
  }

  lemma ScheduleKeepsIpc(s: Sched, yielding: bool)
    requires Schedulable(s) && Schedule(s, yielding).Some?
    ensures Schedule(s, yielding).value.ipc == s.ipc
  {}

  /** Only a receive of e sets its flag, only a delivery clears it, and only a
      delivery writes the message. */
  lemma EntryOnIpc(s: Sched, op: Op, e: Env)
    requires Running(s) && Admissible(s, op) && Exec(s, op).Some? && e < |s.status|
    ensures var t := Exec(s, op).value;
      && |t.ipc| == |s.ipc| == |s.status|
      && (IsReceive(s, op, e) ==> !s.ipc[e].recving && t.ipc[e] == s.ipc[e].(recving := true, dstva := op.dstva))
      && (IsDelivery(s, op, e) ==> t.ipc[e] == Ipc(false, s.ipc[e].dstva, op.value, s.id[s.cur.value], AsReceived(op.perm)))
      && (!IsReceive(s, op, e) && !IsDelivery(s, op, e) ==> t.ipc[e] == s.ipc[e])
  {
    hide Schedule, Distinct;
    var c := s.cur.value;
    assert c in s.list;
    match op
    case Tick => ScheduleKeepsIpc(s, false);
    case Yield => ScheduleKeepsIpc(s, true);
    case Recv(dstva) =>
      if IsZeroOrLegal(dstva) {
        BlockIsSchedulable(s, dstva);
        ScheduleKeepsIpc(Block(s, c, dstva), true);
      }
    case TrySend(to, value, srcva, perm) =>
    case SetStatus(d, st) =>
      if MayRestatus(s, d, st) {
        RestatusIsSchedulable(s, d, st);
        if d == c { ScheduleKeepsIpc(Restatus(s, d, st), true); }
      }
    case Exofork(d, _) =>
    case Destroy(d) =>
      if s.status[d] != Free { DestroyIsSchedulable(s, d); }
      if d == c {
        ScheduleKeepsIpc(s.(status := s.status[d := Free], list := Without(s.list, d), cur := None), true);
      }
  }

  lemma StepOnIpc(states: seq<Sched>, ops: seq<Op>, e: Env, n: nat)
    requires Run(states, ops) && n < |ops| && e < |states[n].status|
    ensures var s, op, t := states[n], ops[n], states[n + 1];
      && Running(s) && |t.ipc| == |s.ipc| == |s.status| && |t.status| == |s.status|
      && (IsReceive(s, op, e) ==> !s.ipc[e].recving && t.ipc[e] == s.ipc[e].(recving := true, dstva := op.dstva))
      && (IsDelivery(s, op, e) ==> t.ipc[e] == Ipc(false, s.ipc[e].dstva, op.value, s.id[s.cur.value], AsReceived(op.perm)))
      && (!IsReceive(s, op, e) && !IsDelivery(s, op, e) ==> t.ipc[e] == s.ipc[e])
  {
    hide Exec, Admissible, IsReceive, IsDelivery;
    EveryStateIsRunning(states, ops, n);
    EveryStateIsRunning(states, ops, n + 1);
    assert StepTo(states[n], ops[n], states[n + 1]);
    EntryOnIpc(states[n], ops[n], e);
  }

  /** Receives and deliveries of an environment alternate: it is waiting exactly
      when it has received once more than it was sent to. */
  lemma {:induction false} ReceivesMatchDeliveries(states: seq<Sched>, ops: seq<Op>, e: Env, n: nat)
    requires Run(states, ops) && n <= |ops|
    requires e < |states[0].ipc| && !states[0].ipc[e].recving
    ensures e < |states[n].ipc| == |states[n].status|
    ensures Receives(states, ops, e, n) ==
      Deliveries(states, ops, e, n) + (if states[n].ipc[e].recving then 1 else 0)
  {
    hide Exec, Admissible, IsReceive, StepTo;
    if n > 0 {
      ReceivesMatchDeliveries(states, ops, e, n - 1);
      StepOnIpc(states, ops, e, n - 1);
      assert IsReceive(states[n - 1], ops[n - 1], e) ==> ops[n - 1].Recv? by { ReceiveIsRecv(states[n - 1], ops[n - 1], e); }
    }
  }

  lemma ReceiveIsRecv(s: Sched, op: Op, e: Env)
    ensures IsReceive(s, op, e) ==> op.Recv?
  {}

  /** So whenever e runs, every receive it has made was answered by exactly one
      delivery. */
  lemma EveryReturnIsMatched(states: seq<Sched>, ops: seq<Op>, e: Env, n: nat)
    requires Run(states, ops) && n <= |ops|
    requires e < |states[0].ipc| && !states[0].ipc[e].recving
    requires states[n].cur == Some(e)
    ensures Receives(states, ops, e, n) == Deliveries(states, ops, e, n)
  {
    hide Exec, Admissible, IsReceive, IsDelivery, StepTo, Receives, Deliveries;
    ReceivesMatchDeliveries(states, ops, e, n);
    EveryStateIsRunning(states, ops, n);
    assert e in states[n].list;
  }

  lemma {:induction false} MessageStays(states: seq<Sched>, ops: seq<Op>, e: Env, i: nat, n: nat)
    requires Run(states, ops) && i <= n <= |ops| && e < |states[i].status| == |states[i].ipc|
    requires !states[i].ipc[e].recving
    requires forall j | i <= j < n :: !IsReceive(states[j], ops[j], e)
    ensures e < |states[n].status| == |states[n].ipc| && states[n].ipc[e] == states[i].ipc[e]
  {
    hide Exec, Admissible, IsReceive, StepTo;
    if n > i {
      MessageStays(states, ops, e, i, n - 1);
      StepOnIpc(states, ops, e, n - 1);
    }
  }

  /** The message of a delivery is what the receiver finds, until it receives again. */
  lemma MessageArrives(states: seq<Sched>, ops: seq<Op>, e: Env, i: nat, n: nat, mask: Perm)
    requires Run(states, ops) && i < n <= |ops| && e < |states[i].status|
    requires IsDelivery(states[i], ops[i], e)
    requires forall j | i < j < n :: !IsReceive(states[j], ops[j], e)
    ensures e < |states[n].ipc|
    ensures var m := states[n].ipc[e];
      && states[i].cur.Some? && states[i].cur.value < |states[i].id|
      && m.value == ops[i].value && m.from == states[i].id[states[i].cur.value]
      && m.perm.high == ops[i].perm.high && m.perm.low & PTE_V != 0
      && (mask & PTE_V == 0 ==> m.perm.low & mask == ops[i].perm.low & mask)
      && m.dstva == states[i].ipc[e].dstva && !m.recving
  {
    hide Exec, Admissible, IsReceive, StepTo;
    StepOnIpc(states, ops, e, i);
    ReceiveIsRecv(states[i], ops[i], e);
    MessageStays(states, ops, e, i + 1, n);
    hide IsDelivery;
    ReceivedFlags(ops[i].perm, mask);
  }

  /** The valid bit is set, and every other bit is as sent. */
  lemma ReceivedFlags(perm: Perm32, mask: Perm)
    ensures AsReceived(perm).high == perm.high && AsReceived(perm).low & PTE_V != 0
    ensures mask & PTE_V == 0 ==> AsReceived(perm).low & mask == perm.low & mask
  {
    var low := perm.low;
    assert (0x080 | low) & 0x080 != 0;
    assert mask & 0x080 == 0 ==> (0x080 | low) & mask == low & mask;
  }
}
