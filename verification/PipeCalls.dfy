/** What pipe, close, dup and fork do to the descriptors of a process, from the first
    system call of each to the last, while other processes go on (user/lib/fd.c,
    user/lib/pipe.c, user/lib/fork.c). */
module PipeCalls {
  import opened PipeEnds

  /** All that process q has mapped, but for descriptor fd, is in t as in s. */
  ghost predicate KeepsBut(s: State, t: State, q: Proc, fd: nat) {
    && (forall i: nat | i != fd :: ((q, i) in t.fds <==> (q, i) in s.fds) && ((q, i) in s.fds ==> t.fds[(q, i)] == s.fds[(q, i)]))
    && (forall i: nat | i != fd :: ((q, i) in t.data <==> (q, i) in s.data) && ((q, i) in s.data ==> t.data[(q, i)] == s.data[(q, i)]))
  }

  ghost predicate SameAt(s: State, t: State, k: Slot) {
    && (k in t.fds <==> k in s.fds) && (k in s.fds ==> t.fds[k] == s.fds[k])
    && (k in t.data <==> k in s.data) && (k in s.data ==> t.data[k] == s.data[k])
  }

  /** Slot dst has in t the data that src has in s, or none when src has none and there
      was none to stay. */
  ghost predicate DataOf(s: State, src: Slot, t: State, dst: Slot) {
    && (src in s.data ==> dst in t.data && t.data[dst] == s.data[src])
    && (src !in s.data && (dst in s.fds || dst !in s.data) ==> dst !in t.data)
  }

  ghost predicate HasFdOf(s: State, src: Slot, t: State, dst: Slot) {
    src in s.fds && dst in t.fds && t.fds[dst] == s.fds[src]
  }

  // ----- steps of others

  /** A step that is not q's own, or only gives the CPU away, leaves q's pages and place. */
  lemma OthersLeaveMe(s: State, op: Op, t: State, q: Proc)
    requires Inv(s) && Step(s, op, t) && q in s.pc && !s.pc[q].Unstarted? && q in t.pc
    requires s.cur != q || op.Switch?
    ensures t.pc[q] == s.pc[q] && forall i: nat :: SameAt(s, t, (q, i))
  {
    hide FdHasData, DataHasFd, TestOk, OneParent, NextFrom, NoneFrom, NewPipe, CopiedBelow, CopiedAll, FdRefAt, DataRefAt;
    if IsOwnOp(op) {
      OthersKeepMine(s, op, t, q);
    } else if IsForkOp(op) {
      assert PcOk(s, s.cur);
      ForkPlaces(s, op, t);
      if op.BeginFork? { assert Absent(s, op.child); }
      assert q !in Touched(s, op);
      forall i: nat ensures SameAt(s, t, (q, i)) { ForkSlot(s, op, t, (q, i)); }
    } else {
      assert PcOk(s, s.cur);
    }
  }

  lemma OthersKeepMine(s: State, op: Op, t: State, q: Proc)
    requires Step(s, op, t) && IsOwnOp(op) && s.cur != q && q in s.pc
    ensures q in t.pc && t.pc[q] == s.pc[q] && forall i: nat :: SameAt(s, t, (q, i))
  {
    hide NewPipe, FdRefAt, DataRefAt;
    forall i: nat ensures SameAt(s, t, (q, i)) { OwnSlot(s, op, t, (q, i)); }
  }

  // ----- the next call is always possible

  lemma CanContinue(s: State)
    requires s.cur in s.pc && s.cur in s.runs
    ensures exists t :: Step(s, Continue, t)
  {
    assert Step(s, Continue, Advance(s, s.cur));
  }

  /** A process that is in no call may begin any: close and dup of what it has, a pipe at
      two free descriptors, and a fork. */
  lemma CanBegin(s: State, fd: nat, other: nat, p: nat, child: Proc)
    requires s.cur in s.pc && s.cur in s.runs && s.pc[s.cur].Idle?
    ensures (s.cur, fd) in s.fds ==>
      (exists t :: Step(s, BeginClose(fd), t)) && (exists t :: Step(s, BeginDup(fd, other), t))
    ensures fd != other && (s.cur, fd) !in s.fds && (s.cur, other) !in s.fds && NewPipe(s, p) ==>
      exists t :: Step(s, Pipe(fd, other, p), t)
    ensures Absent(s, child) ==> exists t :: Step(s, BeginFork(child), t)
  {
    var q := s.cur;
    if (q, fd) in s.fds {
      assert Step(s, BeginClose(fd), s.(fds := Unmap(s.fds, (q, fd)), pc := s.pc[q := Closing(fd, NoDup)]));
      if (q, other) in s.fds {
        assert Step(s, BeginDup(fd, other),
                    s.(fds := Unmap(s.fds, (q, other)), pc := s.pc[q := Closing(other, DupFrom(fd))]));
      } else {
        assert Step(s, BeginDup(fd, other), s.(pc := s.pc[q := DupMapData(fd, other)]));
      }
    }
    if fd != other && (q, fd) !in s.fds && (q, other) !in s.fds && NewPipe(s, p) {
      assert Step(s, Pipe(fd, other, p),
                  s.(fds := s.fds[(q, fd) := PipeFd(p, Reader)][(q, other) := PipeFd(p, Writer)],
                     data := s.data[(q, fd) := PipePage(p)][(q, other) := PipePage(p)]));
    }
    if Absent(s, child) {
      assert Step(s, BeginFork(child), s.(runs := s.runs[child := 0], pc := s.pc[q := ForkFds(child, 0)][child := Unstarted]));
    }
  }

  function WithoutPages(s: State, v: Proc): State {
    s.(fds := map k | k in s.fds && k.0 != v :: s.fds[k], data := map k | k in s.data && k.0 != v :: s.data[k])
  }

  /** The CPU may go to any process that may run, and whoever may be ended can be. */
  lemma CanEnd(s: State, to: Proc, v: Proc)
    requires s.cur in s.pc && s.cur in s.runs && !s.pc[s.cur].Unstarted?
    requires to in s.pc && to in s.runs && !s.pc[to].Unstarted?
    ensures exists t :: Step(s, Switch(to), t)
    ensures to != s.cur ==> exists t :: Step(s, Exit(to), t)
    ensures s.pc[s.cur].Idle? && v != s.cur && v in s.pc && !s.pc[v].Unstarted? ==> exists t :: Step(s, Kill(v), t)
    ensures IsForking(s.pc[s.cur]) ==> exists t :: Step(s, Abandon, t)
  {
    var q := s.cur;
    assert Step(s, Switch(to), s.(cur := to, runs := s.runs[to := s.runs[to] + 1]));
    if to != q {
      var t := WithoutPages(s, q).(pc := s.pc - {q}, cur := to, runs := s.runs[to := s.runs[to] + 1]);
      assert Step(s, Exit(to), t);
    }
    if s.pc[q].Idle? && v != q && v in s.pc && !s.pc[v].Unstarted? {
      assert Step(s, Kill(v), WithoutPages(s, v).(pc := s.pc - {v}));
    }
    if IsForking(s.pc[q]) {
      var c := s.pc[q].child;
      assert Step(s, Abandon, WithoutPages(s, c).(pc := (s.pc - {c})[q := Idle]));
    }
  }

  /** Inside dup, a call undoes what was mapped exactly when the old descriptor is not
      mapped, and returns otherwise. */
  lemma UndoneIff(s: State, t: State)
    requires Step(s, Continue, t) && s.pc[s.cur].DupMapFd?
    ensures var q, src, dst := s.cur, s.pc[s.cur].src, s.pc[s.cur].dst;
      && q in t.pc
      && ((q, src) !in s.fds <==> t.pc[q] == Closing(dst, NoDup) && (q, dst) !in t.fds)
      && ((q, src) in s.fds <==> t.pc[q].Idle?)
      && ((q, src) in s.fds ==> (q, dst) in t.fds && t.fds[(q, dst)] == s.fds[(q, src)])
  {}

  // ----- calls from beginning to end

  /** q is inside one call from state i + 1 on, and out of it in state n. */
  ghost predicate CallRun(states: seq<State>, ops: seq<Op>, q: Proc, i: nat, n: nat) {
    && Run(states, ops) && Inv(states[0]) && i + 1 < n <= |ops|
    && states[i].cur == q
    && (forall j | i < j <= n :: q in states[j].pc && !states[j].pc[q].Unstarted?)
    && (forall j | i < j < n :: !states[j].pc[q].Idle?) && states[n].pc[q].Idle?
  }

  /** System calls that q makes among the entries i, ..., n - 1. */
  function Calls(states: seq<State>, ops: seq<Op>, q: Proc, i: nat, n: nat): nat
    requires i <= n <= |ops| <= |states|
  {
    if i == n then 0
    else Calls(states, ops, q, i, n - 1) + (if states[n - 1].cur == q && !ops[n - 1].Switch? then 1 else 0)
  }

  /** Calls left, and what is mapped, at each place inside dup; a is the state before. */
  ghost predicate InDup(a: State, s: State, q: Proc, src: nat, dst: nat, left: int) {
    && q in s.pc && KeepsBut(a, s, q, dst)
    && (s.pc[q] == Closing(dst, DupFrom(src)) ==> left == 3 && (q, dst) in a.fds)
    && (s.pc[q] == DupMapData(src, dst) ==> left == 2 && ((q, dst) in a.fds || (q, dst) !in a.data ==> (q, dst) !in s.data))
    && (s.pc[q] == DupMapFd(src, dst) ==> left == 1 && DataOf(a, (q, src), s, (q, dst)))
    && (s.pc[q].Idle? ==> left == 0 && DataOf(a, (q, src), s, (q, dst)) && HasFdOf(a, (q, src), s, (q, dst)))
    && (s.pc[q] == Closing(dst, DupFrom(src)) || s.pc[q] == DupMapData(src, dst) || s.pc[q] == DupMapFd(src, dst) || s.pc[q].Idle?)
  }

  lemma DupBegins(a: State, s: State, src: nat, dst: nat)
    requires Step(a, BeginDup(src, dst), s) && src != dst
    ensures InDup(a, s, a.cur, src, dst, if (a.cur, dst) in a.fds then 3 else 2)
  {}

  lemma DupGoesOn(a: State, s: State, op: Op, t: State, q: Proc, src: nat, dst: nat, left: int)
    requires Inv(s) && Step(s, op, t) && InDup(a, s, q, src, dst, left) && !s.pc[q].Idle? && q in t.pc
    requires (q, src) in a.fds && src != dst
    ensures InDup(a, t, q, src, dst, left - if s.cur == q && !op.Switch? then 1 else 0)
  {
    if s.cur != q || op.Switch? {
      OthersLeaveMe(s, op, t, q);
      assert SameAt(s, t, (q, dst)) && SameAt(s, t, (q, src));
      SameKeeps(a, s, t, q, dst);
    } else {
      assert op.Continue?;
      hide Inv;
    }
  }

  lemma SameKeeps(a: State, s: State, t: State, q: Proc, fd: nat)
    requires KeepsBut(a, s, q, fd) && forall i: nat :: SameAt(s, t, (q, i))
    ensures KeepsBut(a, t, q, fd)
  {
    forall i: nat | i != fd
      ensures ((q, i) in t.fds <==> (q, i) in a.fds) && ((q, i) in a.fds ==> t.fds[(q, i)] == a.fds[(q, i)])
      ensures ((q, i) in t.data <==> (q, i) in a.data) && ((q, i) in a.data ==> t.data[(q, i)] == a.data[(q, i)])
    { assert SameAt(s, t, (q, i)); }
  }

  lemma {:induction false} DupStands(states: seq<State>, ops: seq<Op>, q: Proc, src: nat, dst: nat, i: nat, n: nat, j: nat)
    requires CallRun(states, ops, q, i, n) && ops[i] == BeginDup(src, dst) && src != dst && i < j <= n
    ensures (q, src) in states[i].fds
    ensures InDup(states[i], states[j], q, src, dst,
                  (if (q, dst) in states[i].fds then 3 else 2) - Calls(states, ops, q, i + 1, j))
  {
    hide Step, Inv, InDup;
    assert Step(states[i], ops[i], states[i + 1]);
    DupHasSource(states[i], src, dst, states[i + 1]);
    if j == i + 1 {
      DupBegins(states[i], states[j], src, dst);
    } else {
      DupStands(states, ops, q, src, dst, i, n, j - 1);
      EveryStateInv(states, ops, j - 1);
      assert Step(states[j - 1], ops[j - 1], states[j]);
      DupGoesOn(states[i], states[j - 1], ops[j - 1], states[j], q, src, dst,
                (if (q, dst) in states[i].fds then 3 else 2) - Calls(states, ops, q, i + 1, j - 1));
    }
  }

  lemma DupHasSource(s: State, src: nat, dst: nat, t: State)
    requires Step(s, BeginDup(src, dst), t)
    ensures (s.cur, src) in s.fds
  {}

  /** dup, from its first call to its last with anybody's steps in between: the new
      descriptor is what the old one is, both pages of it; the old one and all others are
      as before; and it takes two system calls, with the close of an open target one more. */
  lemma DupDuplicates(states: seq<State>, ops: seq<Op>, q: Proc, src: nat, dst: nat, i: nat, n: nat)
    requires CallRun(states, ops, q, i, n) && ops[i] == BeginDup(src, dst) && src != dst
    ensures var a, b := states[i], states[n];
      && (q, src) in a.fds && (q, dst) in b.fds && b.fds[(q, dst)] == a.fds[(q, src)]
      && ((q, src) in a.data ==> (q, dst) in b.data && b.data[(q, dst)] == a.data[(q, src)])
      && ((q, src) !in a.data && ((q, dst) in a.fds || (q, dst) !in a.data) ==> (q, dst) !in b.data)
      && SameAt(a, b, (q, src)) && KeepsBut(a, b, q, dst)
      && Calls(states, ops, q, i + 1, n) == if (q, dst) in a.fds then 3 else 2
  {
    hide Step, Inv, Calls;
    DupStands(states, ops, q, src, dst, i, n, n);
  }

  // ----- close, and dup of a descriptor to itself

  /** Calls left at each place inside a close of fd, alone or in a dup of fd to itself. */
  ghost predicate InClose(a: State, s: State, q: Proc, fd: nat, left: int) {
    && q in s.pc && KeepsBut(a, s, q, fd) && (q, fd) !in s.fds
    && (s.pc[q] == Closing(fd, DupFrom(fd)) ==> left == 4)
    && (s.pc[q] == DupMapData(fd, fd) ==> left == 3 && (q, fd) !in s.data)
    && (s.pc[q] == DupMapFd(fd, fd) ==> left == 2 && (q, fd) !in s.data)
    && (s.pc[q] == Closing(fd, NoDup) ==> left == 1)
    && (s.pc[q].Idle? ==> left == 0 && (q, fd) !in s.data)
    && (s.pc[q] == Closing(fd, DupFrom(fd)) || s.pc[q] == DupMapData(fd, fd) || s.pc[q] == DupMapFd(fd, fd)
        || s.pc[q] == Closing(fd, NoDup) || s.pc[q].Idle?)
  }

  lemma CloseBegins(a: State, s: State, op: Op, fd: nat)
    requires Step(a, op, s) && (op == BeginClose(fd) || op == BeginDup(fd, fd))
    ensures InClose(a, s, a.cur, fd, if op.BeginDup? then 4 else 1)
  {}

  lemma CloseGoesOn(a: State, s: State, op: Op, t: State, q: Proc, fd: nat, left: int)
    requires Inv(s) && Step(s, op, t) && InClose(a, s, q, fd, left) && !s.pc[q].Idle? && q in t.pc
    ensures InClose(a, t, q, fd, left - if s.cur == q && !op.Switch? then 1 else 0)
  {
    if s.cur != q || op.Switch? {
      OthersLeaveMe(s, op, t, q);
      assert SameAt(s, t, (q, fd));
      SameKeeps(a, s, t, q, fd);
    } else {
      assert op.Continue?;
      hide Inv;
    }
  }

  lemma {:induction false} CloseStands(states: seq<State>, ops: seq<Op>, q: Proc, fd: nat, i: nat, n: nat, j: nat)
    requires CallRun(states, ops, q, i, n) && (ops[i] == BeginClose(fd) || ops[i] == BeginDup(fd, fd)) && i < j <= n
    ensures InClose(states[i], states[j], q, fd, (if ops[i].BeginDup? then 4 else 1) - Calls(states, ops, q, i + 1, j))
  {
    hide Step, Inv, InClose;
    assert Step(states[i], ops[i], states[i + 1]);
    if j == i + 1 {
      CloseBegins(states[i], states[j], ops[i], fd);
    } else {
      CloseStands(states, ops, q, fd, i, n, j - 1);
      EveryStateInv(states, ops, j - 1);
      assert Step(states[j - 1], ops[j - 1], states[j]);
      CloseGoesOn(states[i], states[j - 1], ops[j - 1], states[j], q, fd,
                  (if ops[i].BeginDup? then 4 else 1) - Calls(states, ops, q, i + 1, j - 1));
    }
  }

  /** close: both pages of the descriptor are gone and all others as before, after one
      more call.  So it is after a dup of a descriptor to itself, which closes it first
      and then finds nothing to map. */
  lemma CloseCloses(states: seq<State>, ops: seq<Op>, q: Proc, fd: nat, i: nat, n: nat)
    requires CallRun(states, ops, q, i, n) && (ops[i] == BeginClose(fd) || ops[i] == BeginDup(fd, fd))
    ensures (q, fd) !in states[n].fds && (q, fd) !in states[n].data && KeepsBut(states[i], states[n], q, fd)
    ensures Calls(states, ops, q, i + 1, n) == if ops[i].BeginDup? then 4 else 1
  {
    hide Step, Inv, Calls;
    CloseStands(states, ops, q, fd, i, n, n);
  }

  // ----- pipe

  /** pipe: the first descriptor reads and the second writes; each end is held once, the
      pipe's page twice, and all other descriptors are as before. */
  lemma PipeIsMade(s: State, fd0: nat, fd1: nat, p: nat, t: State)
    requires Step(s, Pipe(fd0, fd1, p), t)
    ensures var q := s.cur;
      && (q, fd0) in t.fds && t.fds[(q, fd0)] == PipeFd(p, Reader) && (q, fd1) in t.fds && t.fds[(q, fd1)] == PipeFd(p, Writer)
      && FdRef(t, p, Reader) == FdRef(t, p, Writer) == 1 && PipeRef(t, p) == 2
      && (forall k | k != (q, fd0) && k != (q, fd1) :: SameAt(s, t, k))
      && t.pc == s.pc
  {
    var q := s.cur;
    assert SlotsOf(t.fds, PipeFd(p, Reader)) == {(q, fd0)};
    assert SlotsOf(t.fds, PipeFd(p, Writer)) == {(q, fd1)};
    assert SlotsOf(t.data, PipePage(p)) == {(q, fd0), (q, fd1)};
  }

  // ----- fork

  /** q makes child by fork from state i to state n. */
  ghost predicate ForkRun(states: seq<State>, ops: seq<Op>, q: Proc, child: Proc, i: nat, n: nat) {
    && Run(states, ops) && Inv(states[0]) && i + 1 < n <= |ops|
    && states[i].cur == q && ops[i] == BeginFork(child)
    && states[n - 1].cur == q && ops[n - 1].FinishFork?
    && (forall j | i < j < n :: q in states[j].pc && IsForking(states[j].pc[q]) && states[j].pc[q].child == child)
    && q in states[n].pc
  }

  lemma ForkKeepsParent(s: State, op: Op, t: State, q: Proc)
    requires Inv(s) && Step(s, op, t) && q in s.pc && q in t.pc && IsForking(t.pc[q])
    requires IsForking(s.pc[q]) || (s.cur == q && op.BeginFork?)
    ensures forall k: nat :: SameAt(s, t, (q, k))
  {
    if s.cur != q || op.Switch? {
      OthersLeaveMe(s, op, t, q);
    } else {
      assert PcOk(s, q);
      hide FdHasData, DataHasFd, TestOk, OneParent;
      if op.BeginFork? { assert Absent(s, op.child); }
    }
  }

  lemma {:induction false} ParentStands(states: seq<State>, ops: seq<Op>, q: Proc, child: Proc, i: nat, n: nat, j: nat)
    requires ForkRun(states, ops, q, child, i, n) && i <= j < n
    ensures forall k: nat :: SameAt(states[i], states[j], (q, k))
  {
    hide Step, Inv, SameAt;
    if j == i {
      SameIsSame(states[i], q);
    } else {
      ParentStands(states, ops, q, child, i, n, j - 1);
      EveryStateInv(states, ops, j - 1);
      assert Step(states[j - 1], ops[j - 1], states[j]);
      if j - 1 == i { BeginnerIsThere(states[i], child, states[j]); }
      ForkKeepsParent(states[j - 1], ops[j - 1], states[j], q);
      SameTwice(states[i], states[j - 1], states[j], q);
    }
  }

  lemma BeginnerIsThere(s: State, child: Proc, t: State)
    requires Step(s, BeginFork(child), t)
    ensures s.cur in s.pc
  {}

  lemma SameIsSame(s: State, q: Proc)
    ensures forall k: nat :: SameAt(s, s, (q, k))
  {}

  lemma SameTwice(a: State, s: State, t: State, q: Proc)
    requires (forall k: nat :: SameAt(a, s, (q, k))) && (forall k: nat :: SameAt(s, t, (q, k)))
    ensures forall k: nat :: SameAt(a, t, (q, k))
  {
    forall k: nat ensures SameAt(a, t, (q, k)) { assert SameAt(a, s, (q, k)) && SameAt(s, t, (q, k)); }
  }

  /** fork, from exofork until the child may run, with anybody's steps in between: the
      child has every page that the parent had at each descriptor, and no other; the
      parent has what it had. */
  lemma ForkCopiesAll(states: seq<State>, ops: seq<Op>, q: Proc, child: Proc, i: nat, n: nat, fd: nat)
    requires ForkRun(states, ops, q, child, i, n)
    ensures var a, b := states[i], states[n];
      && child != q && child in b.pc && b.pc[child].Idle? && b.pc[q].Idle?
      && SameAt(a, b, (q, fd))
      && ((child, fd) in b.fds <==> (q, fd) in a.fds) && ((q, fd) in a.fds ==> b.fds[(child, fd)] == a.fds[(q, fd)])
      && ((child, fd) in b.data <==> (q, fd) in a.data) && ((q, fd) in a.data ==> b.data[(child, fd)] == a.data[(q, fd)])
  {
    hide Step, Inv;
    ParentStands(states, ops, q, child, i, n, n - 1);
    EveryStateInv(states, ops, n - 1);
    assert Step(states[n - 1], ops[n - 1], states[n]);
    assert SameAt(states[i], states[n - 1], (q, fd));
    ForkIsThrough(states[n - 1], states[n], fd);
  }

  lemma ForkIsThrough(s: State, t: State, fd: nat)
    requires Inv(s) && Step(s, FinishFork, t)
    ensures var q := s.cur;
      && q in s.pc && s.pc[q].ForkData?
      && var child := s.pc[q].child;
        && child != q && child in t.pc && t.pc[child].Idle? && q in t.pc && t.pc[q].Idle? && SameAt(s, t, (q, fd))
        && ((child, fd) in t.fds <==> (q, fd) in s.fds) && ((q, fd) in s.fds ==> t.fds[(child, fd)] == s.fds[(q, fd)])
        && ((child, fd) in t.data <==> (q, fd) in s.data) && ((q, fd) in s.data ==> t.data[(child, fd)] == s.data[(q, fd)])
  {
    assert PcOk(s, s.cur);
  }

  /** The loop of fork is never stuck: there is a next page to copy, or the loop is over. */
  lemma ForkGoesOn(s: State)
    requires s.cur in s.pc && s.cur in s.runs && IsForking(s.pc[s.cur])
    ensures s.pc[s.cur].ForkFds? ==> exists op, t :: Step(s, op, t) && (op.CopyFd? || op.FdsDone?)
    ensures s.pc[s.cur].ForkData? ==> exists op, t :: Step(s, op, t) && (op.CopyData? || op.FinishFork?)
  {
    var q, c, n := s.cur, s.pc[s.cur].child, s.pc[s.cur].next;
    if s.pc[q].ForkFds? {
      var fd := FirstFrom(s.fds, q, n);
      if NoneFrom(s.fds, q, n) {
        assert Step(s, FdsDone, s.(pc := s.pc[q := ForkData(c, 0)]));
      } else {
        assert Step(s, CopyFd(fd), s.(fds := s.fds[(c, fd) := s.fds[(q, fd)]], pc := s.pc[q := ForkFds(c, fd + 1)]));
      }
    } else {
      var fd := FirstFrom(s.data, q, n);
      if NoneFrom(s.data, q, n) {
        assert Step(s, FinishFork, s.(pc := s.pc[q := Idle][c := Idle]));
      } else {
        assert Step(s, CopyData(fd), s.(data := s.data[(c, fd) := s.data[(q, fd)]], pc := s.pc[q := ForkData(c, fd + 1)]));
      }
    }
  }

  lemma FirstFrom<V>(m: map<Slot, V>, q: Proc, n: nat) returns (fd: nat)
    ensures NoneFrom(m, q, n) || NextFrom(m, q, n, fd)
  {
    fd := n;
    if !NoneFrom(m, q, n) {
      var last: nat :| n <= last && (q, last) in m;
      while (q, fd) !in m
        invariant n <= fd <= last && forall j: nat | n <= j < fd :: (q, j) !in m
        decreases last - fd
      { fd := fd + 1; }
    }
  }

  // ----- the end of a process, and tests

  /** Whoever is destroyed, ends, or is given up half-made is gone with all its pages, and
      everybody else has what they had. */
  lemma EndedIsGone(s: State, op: Op, t: State, p: Proc, fd: nat)
    requires Inv(s) && Step(s, op, t) && (op.Kill? || op.Abandon? || op.Exit?)
    ensures s.cur in s.pc && (op.Abandon? ==> IsForking(s.pc[s.cur]))
    ensures var v := if op.Kill? then op.victim else if op.Abandon? then s.pc[s.cur].child else s.cur;
      && v in s.pc && v !in t.pc && (v, fd) !in t.fds && (v, fd) !in t.data
      && (p != v ==> SameAt(s, t, (p, fd)) && (p in t.pc <==> p in s.pc))
      && (op.Exit? ==> t.cur == op.to && t.cur in t.pc)
  {
    assert PcOk(s, s.cur);
    hide FdHasData, DataHasFd, TestOk, OneParent;
  }

  /** A test that nobody interrupts answers after two reads: closed exactly when the two
      counts are the same. */
  lemma TestIsAnswered(s: State, fd: nat) returns (states: seq<State>)
    requires s.cur in s.pc && s.cur in s.runs && s.pc[s.cur].Idle?
    requires (s.cur, fd) in s.fds && s.fds[(s.cur, fd)].PipeFd?
    ensures Run(states, [BeginTest(fd), ReadNext, ReadNext, Decide]) && states[0] == s
    ensures s.cur in states[4].pc && states[4].pc[s.cur].Idle? && states[4].fds == s.fds && states[4].data == s.data
    ensures SaysClosed(states[3], Decide) <==> FdRefAt(s, (s.cur, fd)) == DataRefAt(s, (s.cur, fd))
  {
    hide FdRefAt, DataRefAt;
    var q, r := s.cur, s.runs[s.cur];
    var a := s.(pc := s.pc[q := Testing(Begun(fd, r))]);
    var b := s.(pc := s.pc[q := Testing(FdRead(fd, r, FdRefAt(s, (q, fd))))]);
    var c := s.(pc := s.pc[q := Testing(PipeRead(fd, r, FdRefAt(s, (q, fd)), DataRefAt(s, (q, fd))))]);
    SameRefs(s, a, (q, fd));
    SameRefs(s, b, (q, fd));
    states := [s, a, b, c, s.(pc := s.pc[q := Idle])];
    assert Step(s, BeginTest(fd), a) && Step(a, ReadNext, b) && Step(b, ReadNext, c) && Step(c, Decide, states[4]);
  }

  lemma SameRefs(s: State, t: State, k: Slot)
    requires t.fds == s.fds && t.data == s.data
    ensures FdRefAt(t, k) == FdRefAt(s, k) && DataRefAt(t, k) == DataRefAt(s, k)
  {}
}
