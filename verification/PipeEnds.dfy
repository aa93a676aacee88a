/** Who holds a pipe (user/lib/pipe.c, user/lib/fd.c).  A reader or writer decides
    that the other end is closed by comparing two reference counts, while other
    processes duplicate and close descriptors, and fork, one system call at a time. */
module PipeEnds {

  type Proc = nat
  type Slot = (nat, nat)         // process and descriptor number

  datatype End = Reader | Writer

  /** The page mapped at a descriptor: the Fd of one end of a pipe, or of a file. */
  datatype FdPage = PipeFd(pipe: nat, end: End) | OtherFd

  /** The page mapped at a descriptor's data address. */
  datatype DataPage = PipePage(pipe: nat) | OtherData

  /** Where a process stands inside close, dup, fork or a closed test.  `after` is the
      dup that a close of its target descriptor belongs to.  fork and spawn copy the
      mapped pages in ascending order, and every Fd page lies below every data page;
      `next` is the descriptor number that the loop has come to. */
  datatype Pc =
    | Unstarted                                  // not runnable until its fork is through
    | Idle
    | Closing(fd: nat, after: Target)             // Fd page unmapped
    | DupMapData(src: nat, dst: nat)             // target closed
    | DupMapFd(src: nat, dst: nat)               // data page mapped
    | ForkFds(child: Proc, next: nat)            // copying Fd pages
    | ForkData(child: Proc, next: nat)           // copying data pages
    | Testing(test: Test)

  datatype Target = NoDup | DupFrom(src: nat)

  /** The loop of _pipe_is_closed on descriptor fd: what it has read so far. */
  datatype Test =
    | Begun(fd: nat, runs: nat)
    | FdRead(fd: nat, runs: nat, fdRef: nat)
    | PipeRead(fd: nat, runs: nat, fdRef: nat, pipeRef: nat)

  /** fds, data: the mappings; cur: the process on the CPU; runs: env_runs. */
  datatype State = State(
    fds: map<Slot, FdPage>, data: map<Slot, DataPage>, pc: map<Proc, Pc>, cur: Proc, runs: map<Proc, nat>)

  ghost function SlotsOf<V>(m: map<Slot, V>, v: V): set<Slot> {
    set s | s in m && m[s] == v
  }

  /** pageref of the Fd page of one end, and of the pipe's page. */
  ghost function FdRef(s: State, pipe: nat, end: End): nat {
    |SlotsOf(s.fds, PipeFd(pipe, end))|
  }

  ghost function PipeRef(s: State, pipe: nat): nat {
    |SlotsOf(s.data, PipePage(pipe))|
  }

  /** The page that pageref is asked about. */
  ghost function FdRefAt(s: State, k: Slot): nat {
    if k in s.fds then |SlotsOf(s.fds, s.fds[k])| else 0
  }

  ghost function DataRefAt(s: State, k: Slot): nat {
    if k in s.data then |SlotsOf(s.data, s.data[k])| else 0
  }

  // ----- the invariant

  predicate IsForking(pc: Pc) {
    pc.ForkFds? || pc.ForkData?
  }

  /** The child has what the parent has, below one descriptor number. */
  ghost predicate CopiedBelow<V>(m: map<Slot, V>, q: Proc, child: Proc, n: nat) {
    forall fd: nat ::
      ((child, fd) in m <==> (q, fd) in m && fd < n) && ((child, fd) in m ==> m[(child, fd)] == m[(q, fd)])
  }

  ghost predicate CopiedAll<V>(m: map<Slot, V>, q: Proc, child: Proc) {
    forall fd: nat ::
      ((child, fd) in m <==> (q, fd) in m) && ((child, fd) in m ==> m[(child, fd)] == m[(q, fd)])
  }

  ghost predicate PcOk(s: State, q: Proc)
    requires q in s.pc
  {
    match s.pc[q]
    case Closing(fd, _) => (q, fd) !in s.fds
    case DupMapData(src, dst) => (q, dst) !in s.fds && ((q, dst) in s.data ==> s.data[(q, dst)] == OtherData)
    case DupMapFd(src, dst) =>
      && (q, dst) !in s.fds
      && ((q, src) in s.fds && s.fds[(q, src)].PipeFd? ==>
            (q, dst) in s.data && s.data[(q, dst)] == PipePage(s.fds[(q, src)].pipe))
      && ((q, src) in s.fds && s.fds[(q, src)].OtherFd? && (q, dst) in s.data ==> s.data[(q, dst)] == OtherData)
    case ForkFds(child, n) =>
      && child != q && child in s.pc && s.pc[child].Unstarted?
      && CopiedBelow(s.fds, q, child, n) && CopiedBelow(s.data, q, child, 0)
    case ForkData(child, n) =>
      && child != q && child in s.pc && s.pc[child].Unstarted?
      && CopiedAll(s.fds, q, child) && CopiedBelow(s.data, q, child, n)
    case _ => true
  }

  /** No process is being made by two forks. */
  ghost predicate OneParent(s: State) {
    forall p, q | p in s.pc && q in s.pc && IsForking(s.pc[p]) && IsForking(s.pc[q]) && p != q ::
      s.pc[p].child != s.pc[q].child
  }

  /** An Fd page that was copied, with its data page still to come. */
  predicate HalfCopied(s: State, k: Slot) {
    k.0 in s.pc && s.pc[k.0].Unstarted? && k !in s.data
  }

  /** The pipe page is mapped wherever one of its Fd pages is, but for forks in progress. */
  ghost predicate FdHasData(s: State) {
    forall k | k in s.fds && s.fds[k].PipeFd? ::
      (k in s.data && s.data[k] == PipePage(s.fds[k].pipe)) || HalfCopied(s, k)
  }

  /** A pipe page without its Fd page is a close or a dup in progress. */
  predicate InProgress(s: State, k: Slot) {
    && k.0 in s.pc
    && ((s.pc[k.0].Closing? && s.pc[k.0].fd == k.1) || (s.pc[k.0].DupMapFd? && s.pc[k.0].dst == k.1))
  }

  ghost predicate DataHasFd(s: State) {
    forall k | k in s.data && s.data[k].PipePage? ::
      (k in s.fds && s.fds[k].PipeFd? && s.fds[k].pipe == s.data[k].pipe) || InProgress(s, k)
  }

  /** As long as its process has not been run again, a test has read one snapshot. */
  ghost predicate TestOk(s: State, q: Proc)
    requires q in s.pc && s.pc[q].Testing?
  {
    var t := s.pc[q].test;
    && q in s.runs && t.runs <= s.runs[q]
    && (q, t.fd) in s.fds && s.fds[(q, t.fd)].PipeFd?
    && (t.runs == s.runs[q] && s.cur == q ==>
      && (!t.Begun? ==> t.fdRef == FdRefAt(s, (q, t.fd)))
      && (t.PipeRead? ==> t.pipeRef == DataRefAt(s, (q, t.fd))))
  }

  ghost predicate Inv(s: State) {
    && FdHasData(s) && DataHasFd(s) && OneParent(s)
    && (forall q | q in s.pc :: PcOk(s, q))
    && (forall q | q in s.pc && s.pc[q].Testing? :: TestOk(s, q))
  }

  // ----- steps of the process on the CPU, and of the scheduler

  datatype Op =
    | Switch(to: Proc)                     // env_run
    | Pipe(fd0: nat, fd1: nat, pipe: nat)
    | BeginFork(child: Proc)               // exofork, of fork and of spawn
    | CopyFd(fd: nat)                      // the next duppage, of an Fd page
    | FdsDone                              // the loop leaves the Fd pages
    | CopyData(fd: nat)                    // the next duppage, of a data page
    | FinishFork                           // the child becomes runnable
    | Kill(victim: Proc)
    | Abandon                              // spawn destroys the child that it is making
    | Exit(to: Proc)                       // the process ends, and another is run
    | BeginClose(fd: nat)
    | BeginDup(src: nat, dst: nat)
    | Continue                             // the next system call of a close or dup
    | BeginTest(fd: nat)
    | ReadNext                             // the next read of a test
    | Decide                               // compare env_runs again

  ghost predicate NewPipe(s: State, p: nat) {
    && (forall k | k in s.fds :: s.fds[k] != PipeFd(p, Reader) && s.fds[k] != PipeFd(p, Writer))
    && (forall k | k in s.data :: s.data[k] != PipePage(p))
  }

  ghost predicate Absent(s: State, q: Proc) {
    q !in s.pc && forall fd :: (q, fd) !in s.fds && (q, fd) !in s.data
  }

  /** The loop over pages comes to fd next, or has come past all of them. */
  ghost predicate NextFrom<V>(m: map<Slot, V>, q: Proc, n: nat, fd: nat) {
    n <= fd && (q, fd) in m && forall j: nat | n <= j < fd :: (q, j) !in m
  }

  ghost predicate NoneFrom<V>(m: map<Slot, V>, q: Proc, n: nat) {
    forall j: nat | n <= j :: (q, j) !in m
  }

  /** env_free of v: all its pages are unmapped. */
  ghost predicate PagesGone(s: State, v: Proc, t: State) {
    && t.fds == (map k | k in s.fds && k.0 != v :: s.fds[k])
    && t.data == (map k | k in s.data && k.0 != v :: s.data[k])
  }

  function Unmap<V>(m: map<Slot, V>, k: Slot): map<Slot, V> { m - {k} }

  /** The next system call of the process q inside close or dup. */
  function Advance(s: State, q: Proc): State
    requires q in s.pc
  {
    match s.pc[q]
    case Closing(fd, after) =>
      s.(data := Unmap(s.data, (q, fd)),
         pc := s.pc[q := if after.DupFrom? then DupMapData(after.src, fd) else Idle])
    case DupMapData(src, dst) =>
      s.(data := if (q, src) in s.data then s.data[(q, dst) := s.data[(q, src)]] else s.data,
         pc := s.pc[q := DupMapFd(src, dst)])
    case DupMapFd(src, dst) =>
      if (q, src) in s.fds then
        s.(fds := s.fds[(q, dst) := s.fds[(q, src)]], pc := s.pc[q := Idle])
      else
        s.(fds := Unmap(s.fds, (q, dst)), pc := s.pc[q := Closing(dst, NoDup)])   // undo
    case _ => s
  }

  ghost predicate Step(s: State, op: Op, t: State) {
    var q := s.cur;
    && q in s.pc && q in s.runs
    && match op
      case Switch(to) =>
        && to in s.runs && to in s.pc && !s.pc[to].Unstarted?
        && t == s.(cur := to, runs := s.runs[to := s.runs[to] + 1])
      case Pipe(fd0, fd1, p) =>
        && s.pc[q].Idle? && fd0 != fd1 && NewPipe(s, p)
        && (q, fd0) !in s.fds && (q, fd1) !in s.fds
        && t == s.(fds := s.fds[(q, fd0) := PipeFd(p, Reader)][(q, fd1) := PipeFd(p, Writer)],
                   data := s.data[(q, fd0) := PipePage(p)][(q, fd1) := PipePage(p)])
      case BeginFork(child) =>
        && s.pc[q].Idle? && Absent(s, child)
        && t == s.(runs := s.runs[child := 0], pc := s.pc[q := ForkFds(child, 0)][child := Unstarted])
      case CopyFd(fd) =>
        && s.pc[q].ForkFds? && NextFrom(s.fds, q, s.pc[q].next, fd)
        && var c := s.pc[q].child;
          t == s.(fds := s.fds[(c, fd) := s.fds[(q, fd)]], pc := s.pc[q := ForkFds(c, fd + 1)])
      case FdsDone =>
        && s.pc[q].ForkFds? && NoneFrom(s.fds, q, s.pc[q].next)
        && t == s.(pc := s.pc[q := ForkData(s.pc[q].child, 0)])
      case CopyData(fd) =>
        && s.pc[q].ForkData? && NextFrom(s.data, q, s.pc[q].next, fd)
        && var c := s.pc[q].child;
          t == s.(data := s.data[(c, fd) := s.data[(q, fd)]], pc := s.pc[q := ForkData(c, fd + 1)])
      case FinishFork =>
        && s.pc[q].ForkData? && NoneFrom(s.data, q, s.pc[q].next)
        && t == s.(pc := s.pc[q := Idle][s.pc[q].child := Idle])
      case Kill(v) =>
        && s.pc[q].Idle? && v != q && v in s.pc && !s.pc[v].Unstarted?   // only a parent may
        && t.cur == s.cur && t.runs == s.runs && t.pc == s.pc - {v} && PagesGone(s, v, t)
      case Abandon =>
        && IsForking(s.pc[q])
        && t.cur == s.cur && t.runs == s.runs && t.pc == (s.pc - {s.pc[q].child})[q := Idle]
        && PagesGone(s, s.pc[q].child, t)
      case Exit(to) =>
        && !s.pc[q].Unstarted? && to != q && to in s.runs && to in s.pc && !s.pc[to].Unstarted?
        && t.cur == to && t.runs == s.runs[to := s.runs[to] + 1] && t.pc == s.pc - {q} && PagesGone(s, q, t)
      case BeginClose(fd) =>
        && s.pc[q].Idle? && (q, fd) in s.fds
        && t == s.(fds := Unmap(s.fds, (q, fd)), pc := s.pc[q := Closing(fd, NoDup)])
      case BeginDup(src, dst) =>
        && s.pc[q].Idle? && (q, src) in s.fds
        && t == if (q, dst) in s.fds then s.(fds := Unmap(s.fds, (q, dst)), pc := s.pc[q := Closing(dst, DupFrom(src))])
                else s.(pc := s.pc[q := DupMapData(src, dst)])
      case Continue => t == Advance(s, q)
      case BeginTest(fd) =>
        && s.pc[q].Idle? && (q, fd) in s.fds && s.fds[(q, fd)].PipeFd?
        && t == s.(pc := s.pc[q := Testing(Begun(fd, s.runs[q]))])
      case ReadNext =>
        && s.pc[q].Testing?
        && var r := s.pc[q].test;
          !r.PipeRead? &&
          t == s.(pc := s.pc[q := Testing(
            if r.Begun? then FdRead(r.fd, r.runs, FdRefAt(s, (q, r.fd)))
            else PipeRead(r.fd, r.runs, r.fdRef, DataRefAt(s, (q, r.fd))))])
      case Decide =>
        && s.pc[q].Testing? && s.pc[q].test.PipeRead?
        && var r := s.pc[q].test;
          t == s.(pc := s.pc[q := if r.runs == s.runs[q] then Idle else Testing(Begun(r.fd, s.runs[q]))])
  }

  /** The answer a test gives when it leaves its loop. */
  ghost predicate SaysClosed(s: State, op: Op) {
    && op.Decide? && s.cur in s.pc && s.pc[s.cur].Testing? && s.pc[s.cur].test.PipeRead? && s.cur in s.runs
    && var r := s.pc[s.cur].test;
      r.runs == s.runs[s.cur] && r.fdRef == r.pipeRef
  }

  // ----- what the invariant says about the counts

  /** Descriptors of a pipe with one page of the two: an Fd page without the pipe's
      page, and the pipe's page without one of its Fd pages. */
  ghost function HalfOpen(s: State, p: nat): set<Slot> {
    set k | k in s.fds && s.fds[k].PipeFd? && s.fds[k].pipe == p && !(k in s.data && s.data[k] == PipePage(p))
  }

  ghost function HalfClosed(s: State, p: nat): set<Slot> {
    set k | k in s.data && s.data[k] == PipePage(p) && !(k in s.fds && s.fds[k].PipeFd? && s.fds[k].pipe == p)
  }

  /** The pipe's page is mapped as often as its two Fd pages together, but for the
      descriptors that have only one of the two pages. */
  lemma PipeCountsBothEnds(s: State, p: nat)
    ensures PipeRef(s, p) + |HalfOpen(s, p)| == FdRef(s, p, Reader) + FdRef(s, p, Writer) + |HalfClosed(s, p)|
  {
    var ends, d := FdSlots(s, p), SlotsOf(s.data, PipePage(p));
    var open, closed := HalfOpen(s, p), HalfClosed(s, p);
    BothEnds(s, p);
    SameUnion(d, open, ends, closed);
  }

  /** Two sets, each together with what only the other one has, are as large. */
  lemma SameUnion<T>(a: set<T>, restA: set<T>, b: set<T>, restB: set<T>)
    requires restA == b - a && restB == a - b
    ensures |a| + |restA| == |b| + |restB|
  {
    assert a + restA == b + restB;
    assert |a + restA| == |a| + |restA| && |b + restB| == |b| + |restB|;
  }

  ghost function FdSlots(s: State, p: nat): set<Slot> {
    set k | k in s.fds && s.fds[k].PipeFd? && s.fds[k].pipe == p
  }

  lemma BothEnds(s: State, p: nat)
    ensures |FdSlots(s, p)| == FdRef(s, p, Reader) + FdRef(s, p, Writer)
  {
    var r, w := SlotsOf(s.fds, PipeFd(p, Reader)), SlotsOf(s.fds, PipeFd(p, Writer));
    forall k | k in FdSlots(s, p) ensures k in r + w {
      assert s.fds[k] == PipeFd(p, s.fds[k].end) && (s.fds[k].end == Reader || s.fds[k].end == Writer);
    }
    assert r !! w && FdSlots(s, p) == r + w;
  }

  /** No process is being made by fork or spawn. */
  ghost predicate NoFork(s: State) {
    forall q | q in s.pc :: !s.pc[q].Unstarted?
  }

  /** Only a fork in progress leaves an Fd page without the pipe's page, and only a
      close or a dup in progress the pipe's page without an Fd page. */
  lemma HalvesAreInProgress(s: State, p: nat)
    requires Inv(s)
    ensures forall k | k in HalfOpen(s, p) :: k.0 in s.pc && s.pc[k.0].Unstarted?
    ensures forall k | k in HalfClosed(s, p) :: InProgress(s, k)
    ensures NoFork(s) ==> HalfOpen(s, p) == {}
    ensures Quiet(s) ==> HalfClosed(s, p) == {}
  {
    hide PcOk, TestOk, OneParent;
    forall k | k in HalfOpen(s, p) ensures !NoFork(s) {}
    forall k | k in HalfClosed(s, p) ensures !Quiet(s) {}
  }

  function Other(end: End): End {
    if end == Reader then Writer else Reader
  }

  /** The Fd page that the test on the CPU asks about. */
  ghost function Tested(s: State): (f: FdPage)
    requires Inv(s) && s.cur in s.pc && s.pc[s.cur].Testing?
    ensures f.PipeFd?
  {
    assert TestOk(s, s.cur);
    s.fds[(s.cur, s.pc[s.cur].test.fd)]
  }

  /** When a test answers that the pipe is closed, nobody holds the other end exactly
      when half-copied descriptors are not more than half-closed ones; so the answer
      can be trusted whenever no fork is under way. */
  lemma ClosedMeansNobodyIff(s: State, op: Op)
    requires Inv(s) && SaysClosed(s, op)
    ensures var f := Tested(s);
      && (FdRef(s, f.pipe, Other(f.end)) == 0 <==> |HalfOpen(s, f.pipe)| <= |HalfClosed(s, f.pipe)|)
      && (NoFork(s) ==> FdRef(s, f.pipe, Other(f.end)) == 0)
  {
    var f := Tested(s);
    AnswerIsSnapshot(s, op);
    PipeCountsBothEnds(s, f.pipe);
    HalvesAreInProgress(s, f.pipe);
  }

  /** The retry makes the two reads of a test one snapshot. */
  lemma AnswerIsSnapshot(s: State, op: Op)
    requires Inv(s) && SaysClosed(s, op)
    ensures FdRef(s, Tested(s).pipe, Tested(s).end) == PipeRef(s, Tested(s).pipe)
  {
    hide OneParent, DataHasFd;
    var k := (s.cur, s.pc[s.cur].test.fd);
    assert TestOk(s, s.cur) && !HalfCopied(s, k);
    assert Tested(s) == s.fds[k] == PipeFd(Tested(s).pipe, Tested(s).end);
  }

  /** No process is in the middle of a close, a dup or a fork. */
  ghost predicate Quiet(s: State) {
    forall q | q in s.pc :: s.pc[q].Idle? || s.pc[q].Testing?
  }

  /** In a quiet state comparing the counts is exact. */
  lemma ExactWhenQuiet(s: State, p: nat, end: End)
    requires Inv(s) && Quiet(s)
    ensures FdRef(s, p, end) == PipeRef(s, p) <==> FdRef(s, p, Other(end)) == 0
  {
    PipeCountsBothEnds(s, p);
    HalvesAreInProgress(s, p);
  }

  // ----- every step keeps the invariant

  /** What the invariant says about the descriptors and the place of process q. */
  ghost predicate Mine(s: State, q: Proc)
    requires q in s.pc
  {
    && (forall k | k in s.fds && k.0 == q && s.fds[k].PipeFd? ::
      (k in s.data && s.data[k] == PipePage(s.fds[k].pipe)) || HalfCopied(s, k))
    && (forall k | k in s.data && k.0 == q && s.data[k].PipePage? ::
      (k in s.fds && s.fds[k].PipeFd? && s.fds[k].pipe == s.data[k].pipe) || InProgress(s, k))
    && PcOk(s, q) && (s.pc[q].Testing? ==> TestOk(s, q))
  }

  /** The step of the process on the CPU changed only mappings and places of qs. */
  ghost predicate Only(s: State, t: State, qs: set<Proc>) {
    && s.cur == t.cur && s.cur in qs
    && (forall p | p !in qs :: (p in t.pc <==> p in s.pc) && (p in s.pc ==> t.pc[p] == s.pc[p]))
    && (forall p | p in s.pc && p in s.runs :: p in t.runs && t.runs[p] == s.runs[p])
    && (forall k: Slot | k.0 !in qs :: (k in t.fds <==> k in s.fds) && (k in s.fds ==> t.fds[k] == s.fds[k]))
    && (forall k: Slot | k.0 !in qs :: (k in t.data <==> k in s.data) && (k in s.data ==> t.data[k] == s.data[k]))
  }

  /** A fork that goes on has its child as before, and a fork that begins a new one. */
  ghost predicate ChildKept(s: State, t: State, qs: set<Proc>) {
    && (forall p | p in qs && p in t.pc && IsForking(t.pc[p]) ::
      p == s.cur && (t.pc[p].child !in s.pc || (p in s.pc && IsForking(s.pc[p]) && s.pc[p].child == t.pc[p].child)))
    && (forall p | p in qs && p != s.cur && p in s.pc ::
      s.cur in s.pc && IsForking(s.pc[s.cur]) && s.pc[s.cur].child == p)
    && s.cur in s.pc && !s.pc[s.cur].Unstarted?
  }

  lemma OthersStayOk(s: State, t: State, qs: set<Proc>, p: Proc)
    requires Inv(s) && Only(s, t, qs) && ChildKept(s, t, qs) && p in t.pc && p !in qs
    ensures PcOk(t, p) && (t.pc[p].Testing? ==> TestOk(t, p))
  {
    hide FdHasData, DataHasFd, FdRefAt, DataRefAt;
    assert PcOk(s, p) && (s.pc[p].Testing? ==> TestOk(s, p));
    if IsForking(s.pc[p]) {
      assert s.pc[p].child !in qs;
    }
  }

  lemma ParentsStay(s: State, t: State, qs: set<Proc>)
    requires Inv(s) && Only(s, t, qs) && ChildKept(s, t, qs)
    ensures OneParent(t)
  {
    hide FdHasData, DataHasFd, TestOk;
    forall p, q | p in t.pc && q in t.pc && IsForking(t.pc[p]) && IsForking(t.pc[q]) && p != q
      ensures t.pc[p].child != t.pc[q].child
    {
      assert p in s.pc ==> PcOk(s, p);
      assert q in s.pc ==> PcOk(s, q);
    }
  }

  lemma OnlyMineMatters(s: State, t: State, qs: set<Proc>)
    requires Inv(s) && Only(s, t, qs) && ChildKept(s, t, qs)
    requires forall q | q in qs :: q in t.pc && Mine(t, q)
    ensures Inv(t)
  {
    hide PcOk, TestOk, OneParent, ChildKept;
    forall k | k in t.fds && t.fds[k].PipeFd?
      ensures (k in t.data && t.data[k] == PipePage(t.fds[k].pipe)) || HalfCopied(t, k)
    {
      if k.0 in qs { assert Mine(t, k.0); } else { assert k in s.fds && s.fds[k] == t.fds[k]; }
    }
    forall k | k in t.data && t.data[k].PipePage? && !InProgress(t, k)
      ensures k in t.fds && t.fds[k].PipeFd? && t.fds[k].pipe == t.data[k].pipe
    {
      if k.0 in qs {
        assert Mine(t, k.0);
      } else {
        assert k in s.data && s.data[k] == t.data[k];
        assert !InProgress(s, k);
      }
    }
    forall p | p in t.pc ensures PcOk(t, p) && (t.pc[p].Testing? ==> TestOk(t, p)) {
      if p in qs { assert Mine(t, p); } else { OthersStayOk(s, t, qs, p); }
    }
    ParentsStay(s, t, qs);
  }

  /** What the invariant gives for the process on the CPU. */
  lemma MineBefore(s: State, q: Proc)
    requires Inv(s) && q in s.pc
    ensures Mine(s, q)
  {
    hide PcOk, TestOk;
  }

  lemma SwitchKeepsInv(s: State, to: Proc, t: State)
    requires Inv(s) && Step(s, Switch(to), t)
    ensures Inv(t)
  {
    hide FdRefAt, DataRefAt;
    assert FdHasData(t) && DataHasFd(t) by {
      assert forall k :: InProgress(t, k) == InProgress(s, k);
    }
    forall p | p in t.pc ensures PcOk(t, p) { assert PcOk(s, p); }
    forall p | p in t.pc && t.pc[p].Testing? ensures TestOk(t, p) { assert TestOk(s, p); }
  }

  /** Steps of a process on its own descriptors. */
  predicate IsOwnOp(op: Op) {
    op.Pipe? || op.BeginClose? || op.BeginDup? || op.Continue? || op.BeginTest? || op.ReadNext? || op.Decide?
  }

  lemma OwnStep(s: State, op: Op, t: State)
    requires Step(s, op, t) && IsOwnOp(op) && !s.pc[s.cur].Unstarted?
    ensures Only(s, t, {s.cur}) && ChildKept(s, t, {s.cur}) && s.cur in t.pc
  {
    OwnPlace(s, op, t);
    forall k: Slot | k.0 != s.cur
      ensures (k in t.fds <==> k in s.fds) && (k in s.fds ==> t.fds[k] == s.fds[k])
      ensures (k in t.data <==> k in s.data) && (k in s.data ==> t.data[k] == s.data[k])
    {
      OwnSlot(s, op, t, k);
    }
    hide Step;
  }

  lemma OwnPlace(s: State, op: Op, t: State)
    requires Step(s, op, t) && IsOwnOp(op) && !s.pc[s.cur].Unstarted?
    ensures s.cur in t.pc && t.pc == s.pc[s.cur := t.pc[s.cur]] && t.cur == s.cur && t.runs == s.runs
    ensures IsForking(t.pc[s.cur]) ==> t.pc[s.cur] == s.pc[s.cur]
  {
    hide NewPipe, FdRefAt, DataRefAt, Unmap;
  }

  lemma OwnSlot(s: State, op: Op, t: State, k: Slot)
    requires Step(s, op, t) && IsOwnOp(op) && k.0 != s.cur
    ensures (k in t.fds <==> k in s.fds) && (k in s.fds ==> t.fds[k] == s.fds[k])
    ensures (k in t.data <==> k in s.data) && (k in s.data ==> t.data[k] == s.data[k])
  {
    hide NewPipe, FdRefAt, DataRefAt;
  }

  lemma PipeKeepsInv(s: State, fd0: nat, fd1: nat, p: nat, t: State)
    requires Inv(s) && Step(s, Pipe(fd0, fd1, p), t)
    ensures Inv(t)
  {
    hide NewPipe, Mine, Inv, Only, ChildKept;
    MineBefore(s, s.cur);
    OwnStep(s, Pipe(fd0, fd1, p), t);
    MinePipe(s, s.cur, fd0, fd1, p, t);
    OnlyMineMatters(s, t, {s.cur});
  }

  lemma MinePipe(s: State, q: Proc, fd0: nat, fd1: nat, p: nat, t: State)
    requires q in s.pc && s.pc[q].Idle? && Mine(s, q) && fd0 != fd1
    requires t.fds == s.fds[(q, fd0) := PipeFd(p, Reader)][(q, fd1) := PipeFd(p, Writer)]
    requires t.data == s.data[(q, fd0) := PipePage(p)][(q, fd1) := PipePage(p)] && t.pc == s.pc
    ensures Mine(t, q)
  {}

  lemma BeginKeepsInv(s: State, op: Op, t: State)
    requires Inv(s) && Step(s, op, t) && (op.BeginClose? || op.BeginDup? || op.BeginTest?)
    ensures Inv(t)
  {
    hide Mine, Inv, Only, ChildKept;
    var q := s.cur;
    MineBefore(s, q);
    OwnStep(s, op, t);
    MineBegun(s, q, t);
    OnlyMineMatters(s, t, {q});
  }

  /** A close unmaps one Fd page, a dup the target's if there is one, a test nothing. */
  lemma MineBegun(s: State, q: Proc, t: State)
    requires q in s.pc && s.pc[q].Idle? && Mine(s, q) && q in t.pc && q in s.runs && t.data == s.data
    requires t.runs == s.runs
    requires match t.pc[q]
      case Closing(fd, _) => t.fds == Unmap(s.fds, (q, fd))
      case DupMapData(_, dst) => t.fds == s.fds && (q, dst) !in s.fds
      case Testing(Begun(fd, runs)) => t.fds == s.fds && (q, fd) in s.fds && s.fds[(q, fd)].PipeFd? && runs == s.runs[q]
      case _ => false
    ensures Mine(t, q)
  {
    hide FdRefAt, DataRefAt;
    forall k | k in s.data && k.0 == q && s.data[k].PipePage? ensures !InProgress(s, k) {}
  }

  lemma MineClosing(s: State, q: Proc, t: State)
    requires q in s.pc && s.pc[q].Closing? && Mine(s, q) && t == Advance(s, q)
    ensures Mine(t, q)
  {}

  lemma MineDupMapData(s: State, q: Proc, t: State)
    requires q in s.pc && s.pc[q].DupMapData? && Mine(s, q) && t == Advance(s, q)
    ensures Mine(t, q)
  {
    hide TestOk;
    var src, dst := s.pc[q].src, s.pc[q].dst;
    assert !InProgress(s, (q, src)) && !InProgress(s, (q, dst));
    forall k | k in t.data && k.0 == q && t.data[k].PipePage? && !InProgress(t, k)
      ensures k in t.fds && t.fds[k].PipeFd? && t.fds[k].pipe == t.data[k].pipe
    {
      assert k != (q, dst) && !InProgress(s, k);
    }
  }

  lemma MineDupMapFd(s: State, q: Proc, t: State)
    requires q in s.pc && s.pc[q].DupMapFd? && Mine(s, q) && t == Advance(s, q)
    ensures Mine(t, q)
  {
    hide TestOk;
    var src, dst := s.pc[q].src, s.pc[q].dst;
    forall k | k in t.data && k.0 == q && t.data[k].PipePage? && !InProgress(t, k)
      ensures k in t.fds && t.fds[k].PipeFd? && t.fds[k].pipe == t.data[k].pipe
    {
      assert k != (q, dst) ==> !InProgress(s, k);
    }
  }

  lemma ContinueKeepsInv(s: State, t: State)
    requires Inv(s) && Step(s, Continue, t)
    ensures Inv(t)
  {
    hide Mine, Inv, Only, ChildKept;
    var q := s.cur;
    MineBefore(s, q);
    if !s.pc[q].Unstarted? {
      OwnStep(s, Continue, t);
      match s.pc[q]
      case Closing(_, _) => MineClosing(s, q, t); OnlyMineMatters(s, t, {q});
      case DupMapData(_, _) => MineDupMapData(s, q, t); OnlyMineMatters(s, t, {q});
      case DupMapFd(_, _) => MineDupMapFd(s, q, t); OnlyMineMatters(s, t, {q});
      case _ =>
    }
  }

  lemma TestKeepsInv(s: State, op: Op, t: State)
    requires Inv(s) && Step(s, op, t) && (op.ReadNext? || op.Decide?)
    ensures Inv(t)
  {
    hide Inv, Only, ChildKept, Mine;
    MineBefore(s, s.cur);
    OwnStep(s, op, t);
    MineTest(s, op, t);
    OnlyMineMatters(s, t, {s.cur});
  }

  lemma MineTest(s: State, op: Op, t: State)
    requires s.cur in s.pc && Mine(s, s.cur) && Step(s, op, t) && (op.ReadNext? || op.Decide?)
    ensures Mine(t, s.cur)
  {
    assert forall k: Slot :: k.0 == s.cur ==> InProgress(t, k) == InProgress(s, k) == false;
  }

  // fork and spawn

  lemma MineBeginFork(s: State, child: Proc, t: State)
    requires s.cur in s.pc && Mine(s, s.cur) && Step(s, BeginFork(child), t)
    ensures Mine(t, s.cur) && Mine(t, child)
  {
    hide TestOk;
    assert forall k: Slot :: k.0 == s.cur ==> InProgress(t, k) == InProgress(s, k) == false;
  }

  lemma MineCopyFd(s: State, fd: nat, t: State)
    requires s.cur in s.pc && Mine(s, s.cur) && s.pc[s.cur].ForkFds? && s.pc[s.cur].child in s.pc
    requires Mine(s, s.pc[s.cur].child) && Step(s, CopyFd(fd), t)
    ensures Mine(t, s.cur) && Mine(t, s.pc[s.cur].child)
  {
    hide TestOk;
    assert forall k: Slot :: k.0 == s.cur ==> InProgress(t, k) == InProgress(s, k) == false;
  }

  lemma MineFdsDone(s: State, t: State)
    requires s.cur in s.pc && Mine(s, s.cur) && Step(s, FdsDone, t)
    ensures Mine(t, s.cur)
  {
    hide TestOk;
    assert forall k: Slot :: k.0 == s.cur ==> InProgress(t, k) == InProgress(s, k) == false;
  }

  lemma MineCopyData(s: State, fd: nat, t: State)
    requires s.cur in s.pc && Mine(s, s.cur) && s.pc[s.cur].ForkData? && s.pc[s.cur].child in s.pc
    requires Mine(s, s.pc[s.cur].child) && Step(s, CopyData(fd), t)
    ensures Mine(t, s.cur) && Mine(t, s.pc[s.cur].child)
  {
    hide TestOk;
    assert forall k: Slot :: k.0 == s.cur ==> InProgress(t, k) == InProgress(s, k) == false;
  }

  lemma MineFinishFork(s: State, t: State)
    requires s.cur in s.pc && Mine(s, s.cur) && s.pc[s.cur].ForkData? && s.pc[s.cur].child in s.pc
    requires Mine(s, s.pc[s.cur].child) && Step(s, FinishFork, t)
    ensures Mine(t, s.cur) && Mine(t, s.pc[s.cur].child)
  {
    hide TestOk;
    assert forall k: Slot :: k.0 == s.cur ==> InProgress(t, k) == InProgress(s, k) == false;
  }

  predicate IsForkOp(op: Op) {
    op.BeginFork? || op.CopyFd? || op.FdsDone? || op.CopyData? || op.FinishFork?
  }

  ghost function Touched(s: State, op: Op): set<Proc>
    requires s.cur in s.pc && IsForkOp(op) && (op.BeginFork? || IsForking(s.pc[s.cur]))
  {
    if op.FdsDone? then {s.cur} else {s.cur, if op.BeginFork? then op.child else s.pc[s.cur].child}
  }

  lemma ForkTouches(s: State, op: Op, t: State)
    requires Inv(s) && Step(s, op, t) && IsForkOp(op)
    ensures Only(s, t, Touched(s, op)) && ChildKept(s, t, Touched(s, op))
  {
    hide NextFrom, NoneFrom, FdHasData, DataHasFd, OneParent, TestOk, CopiedBelow, CopiedAll;
    assert PcOk(s, s.cur);
    forall k: Slot | k.0 !in Touched(s, op)
      ensures (k in t.fds <==> k in s.fds) && (k in s.fds ==> t.fds[k] == s.fds[k])
      ensures (k in t.data <==> k in s.data) && (k in s.data ==> t.data[k] == s.data[k])
    {
      ForkSlot(s, op, t, k);
    }
    ForkPlaces(s, op, t);
    hide Step, PcOk;
  }

  lemma ForkSlot(s: State, op: Op, t: State, k: Slot)
    requires Step(s, op, t) && IsForkOp(op) && k.0 !in Touched(s, op)
    ensures (k in t.fds <==> k in s.fds) && (k in s.fds ==> t.fds[k] == s.fds[k])
    ensures (k in t.data <==> k in s.data) && (k in s.data ==> t.data[k] == s.data[k])
  {
    hide NextFrom, NoneFrom, Absent;
  }

  lemma ForkPlaces(s: State, op: Op, t: State)
    requires Step(s, op, t) && IsForkOp(op) && PcOk(s, s.cur)
    ensures t.cur == s.cur && !s.pc[s.cur].Unstarted? && ChildKept(s, t, Touched(s, op))
    ensures forall p | p !in Touched(s, op) :: (p in t.pc <==> p in s.pc) && (p in s.pc ==> t.pc[p] == s.pc[p])
    ensures forall p | p in s.pc && p in s.runs :: p in t.runs && t.runs[p] == s.runs[p]
  {
    hide NextFrom, NoneFrom, CopiedBelow, CopiedAll;
  }

  lemma MineAfterFork(s: State, op: Op, t: State, q: Proc)
    requires Inv(s) && Step(s, op, t) && IsForkOp(op) && q in Touched(s, op)
    ensures q in t.pc && Mine(t, q)
  {
    hide FdHasData, DataHasFd, OneParent, FdRefAt, DataRefAt, Mine, TestOk;
    MineBefore(s, s.cur);
    assert PcOk(s, s.cur);
    if !op.BeginFork? { MineBefore(s, s.pc[s.cur].child); }
    hide Inv, Step;
    match op
    case BeginFork(child) => MineBeginFork(s, child, t);
    case CopyFd(fd) => MineCopyFd(s, fd, t);
    case FdsDone => MineFdsDone(s, t);
    case CopyData(fd) => MineCopyData(s, fd, t);
    case FinishFork => MineFinishFork(s, t);
    case _ =>
  }

  lemma ForkKeepsInv(s: State, op: Op, t: State)
    requires Inv(s) && Step(s, op, t) && IsForkOp(op)
    ensures Inv(t)
  {
    hide Mine, Only, ChildKept, Inv;
    ForkTouches(s, op, t);
    forall q | q in Touched(s, op) ensures q in t.pc && Mine(t, q) { MineAfterFork(s, op, t, q); }
    OnlyMineMatters(s, t, Touched(s, op));
  }

  /** What the end of process v needs: its pages and its place are gone, nobody goes on
      making it, and no test of the process on the CPU goes on over it. */
  ghost predicate Ended(s: State, v: Proc, t: State) {
    && PagesGone(s, v, t) && t.pc.Keys == s.pc.Keys - {v}
    && (forall p | p in t.pc :: t.pc[p] == s.pc[p] || (IsForking(s.pc[p]) && t.pc[p].Idle?))
    && (forall p | p in t.pc && IsForking(t.pc[p]) :: t.pc[p].child != v)
    && (forall p | p in t.pc && t.pc[p].Testing? ::
          p in s.runs ==> p in t.runs && s.runs[p] <= t.runs[p] && !(t.pc[p].test.runs == t.runs[p] && t.cur == p))
  }

  lemma EndKeepsInv(s: State, v: Proc, t: State)
    requires Inv(s) && Ended(s, v, t)
    ensures Inv(t)
  {
    hide FdRefAt, DataRefAt;
    forall k | k in t.data && t.data[k].PipePage? && !InProgress(t, k)
      ensures k in t.fds && t.fds[k].PipeFd? && t.fds[k].pipe == t.data[k].pipe
    {
      assert k in s.data && !InProgress(s, k);
    }
    forall k | k in t.fds && t.fds[k].PipeFd?
      ensures (k in t.data && t.data[k] == PipePage(t.fds[k].pipe)) || HalfCopied(t, k)
    {
      assert k in s.fds && k.0 != v;
    }
    forall p | p in t.pc ensures PcOk(t, p) && (t.pc[p].Testing? ==> TestOk(t, p)) {
      EndKeepsOthers(s, v, t, p);
    }
  }

  lemma EndKeepsOthers(s: State, v: Proc, t: State, p: Proc)
    requires Inv(s) && Ended(s, v, t) && p in t.pc
    ensures PcOk(t, p) && (t.pc[p].Testing? ==> TestOk(t, p))
  {
    hide FdHasData, DataHasFd, FdRefAt, DataRefAt;
    assert PcOk(s, p) && (s.pc[p].Testing? ==> TestOk(s, p));
  }

  lemma KillKeepsInv(s: State, v: Proc, t: State)
    requires Inv(s) && Step(s, Kill(v), t)
    ensures Inv(t)
  {
    hide FdHasData, DataHasFd, FdRefAt, DataRefAt, PagesGone;
    assert PcOk(s, s.cur);
    forall p | p in s.pc ensures PcOk(s, p) && (s.pc[p].Testing? ==> TestOk(s, p)) {}
    EndKeepsInv(s, v, t);
  }

  lemma AbandonKeepsInv(s: State, t: State)
    requires Inv(s) && Step(s, Abandon, t)
    ensures Inv(t)
  {
    hide FdHasData, DataHasFd, FdRefAt, DataRefAt, PagesGone;
    assert PcOk(s, s.cur);
    forall p | p in s.pc ensures PcOk(s, p) && (s.pc[p].Testing? ==> TestOk(s, p)) {}
    EndKeepsInv(s, s.pc[s.cur].child, t);
  }

  lemma ExitKeepsInv(s: State, to: Proc, t: State)
    requires Inv(s) && Step(s, Exit(to), t)
    ensures Inv(t)
  {
    hide FdHasData, DataHasFd, FdRefAt, DataRefAt, PagesGone;
    assert PcOk(s, s.cur);
    forall p | p in s.pc ensures PcOk(s, p) && (s.pc[p].Testing? ==> TestOk(s, p)) {}
    EndKeepsInv(s, s.cur, t);
  }

  lemma StepKeepsInv(s: State, op: Op, t: State)
    requires Inv(s) && Step(s, op, t)
    ensures Inv(t)
  {
    hide Inv, Step;
    match op
    case Switch(to) => SwitchKeepsInv(s, to, t);
    case Pipe(fd0, fd1, p) => PipeKeepsInv(s, fd0, fd1, p, t);
    case BeginFork(_) => ForkKeepsInv(s, op, t);
    case CopyFd(_) => ForkKeepsInv(s, op, t);
    case FdsDone => ForkKeepsInv(s, op, t);
    case CopyData(_) => ForkKeepsInv(s, op, t);
    case FinishFork => ForkKeepsInv(s, op, t);
    case Kill(v) => KillKeepsInv(s, v, t);
    case Abandon => AbandonKeepsInv(s, t);
    case Exit(to) => ExitKeepsInv(s, to, t);
    case BeginClose(_) => BeginKeepsInv(s, op, t);
    case BeginDup(_, _) => BeginKeepsInv(s, op, t);
    case BeginTest(_) => BeginKeepsInv(s, op, t);
    case Continue => ContinueKeepsInv(s, t);
    case ReadNext => TestKeepsInv(s, op, t);
    case Decide => TestKeepsInv(s, op, t);
  }

  // ----- a closed end stays closed

  ghost predicate Nobody(s: State, p: nat, end: End) {
    forall k | k in s.fds :: s.fds[k] != PipeFd(p, end)
  }

  lemma NobodyIsZero(s: State, p: nat, end: End)
    ensures Nobody(s, p, end) <==> FdRef(s, p, end) == 0
  {
    var ks := SlotsOf(s.fds, PipeFd(p, end));
    assert |ks| == 0 <==> ks == {};
    if ks == {} {
      forall k | k in s.fds ensures s.fds[k] != PipeFd(p, end) { assert k !in ks; }
    }
  }

  /** An Fd page can only be mapped from where it is mapped: no step brings back
      an end that everybody has closed. */
  lemma NobodyStays(s: State, op: Op, t: State, p: nat, end: End)
    requires Step(s, op, t) && Nobody(s, p, end) && !(op.Pipe? && op.pipe == p)
    ensures Nobody(t, p, end)
  {}

  ghost predicate Run(states: seq<State>, ops: seq<Op>) {
    && |states| == |ops| + 1
    && forall i | 0 <= i < |ops| :: Step(states[i], ops[i], states[i + 1])
  }

  lemma {:induction false} EveryStateInv(states: seq<State>, ops: seq<Op>, n: nat)
    requires Run(states, ops) && Inv(states[0]) && n <= |ops|
    ensures Inv(states[n])
  {
    hide Inv, Step;
    if n > 0 {
      EveryStateInv(states, ops, n - 1);
      StepKeepsInv(states[n - 1], ops[n - 1], states[n]);
    }
  }

  lemma {:induction false} StaysClosed(states: seq<State>, ops: seq<Op>, p: nat, end: End, i: nat, n: nat)
    requires Run(states, ops) && i <= n <= |ops| && Nobody(states[i], p, end)
    requires forall j | i <= j < n :: !(ops[j].Pipe? && ops[j].pipe == p)
    ensures Nobody(states[n], p, end)
  {
    hide Step, Nobody;
    if n > i {
      StaysClosed(states, ops, p, end, i, n - 1);
      NobodyStays(states[n - 1], ops[n - 1], states[n], p, end);
    }
  }

  /** No step is a pipe() that gets this page. */
  predicate NotMadeAgain(ops: seq<Op>, p: nat) {
    forall j | 0 <= j < |ops| :: !(ops[j].Pipe? && ops[j].pipe == p)
  }

  /** The promise of _pipe_is_closed over whole runs.  When a test says closed, nobody
      holds the other end, then or ever after, exactly when no more descriptors are
      half copied than half closed, and so always while no fork is under way. */
  lemma ClosedForGood(states: seq<State>, ops: seq<Op>, i: nat, n: nat)
    requires Run(states, ops) && Inv(states[0]) && i < |ops| && i <= n <= |ops|
    requires SaysClosed(states[i], ops[i])
    ensures Inv(states[i])
    ensures var f := Tested(states[i]);
      && (Nobody(states[i], f.pipe, Other(f.end)) <==> |HalfOpen(states[i], f.pipe)| <= |HalfClosed(states[i], f.pipe)|)
      && (NoFork(states[i]) ==> Nobody(states[i], f.pipe, Other(f.end)))
      && (NotMadeAgain(ops[i..n], f.pipe) && Nobody(states[i], f.pipe, Other(f.end)) ==>
            Nobody(states[n], f.pipe, Other(f.end)))
  {
    hide Step, Nobody, Inv, NoFork, HalfOpen, HalfClosed;
    EveryStateInv(states, ops, i);
    ClosedMeansNobodyIff(states[i], ops[i]);
    var f := Tested(states[i]);
    NobodyIsZero(states[i], f.pipe, Other(f.end));
    if NotMadeAgain(ops[i..n], f.pipe) && Nobody(states[i], f.pipe, Other(f.end)) {
      forall j | i <= j < n ensures !(ops[j].Pipe? && ops[j].pipe == f.pipe) { assert ops[j] == ops[i..n][j - i]; }
      StaysClosed(states, ops, f.pipe, Other(f.end), i, n);
    }
  }

  // ----- a test during a fork

  /** Process 1 holds both ends of pipe 0, process 2 its reader. */
  ghost function Sharing(): State {
    State(map[(1, 0) := PipeFd(0, Reader), (1, 1) := PipeFd(0, Writer), (2, 0) := PipeFd(0, Reader)],
          map[(1, 0) := PipePage(0), (1, 1) := PipePage(0), (2, 0) := PipePage(0)],
          map[1 := Idle, 2 := Idle], 1, map[1 := 0, 2 := 0])
  }

  lemma SharingIsFine()
    ensures Inv(Sharing()) && Quiet(Sharing())
  {}

  /** The state before 2 tests. */
  ghost function HalfForked(): State {
    var s := Sharing();
    State(s.fds[(3, 0) := PipeFd(0, Reader)], s.data, map[1 := ForkFds(3, 1), 2 := Idle, 3 := Unstarted], 2,
          map[1 := 0, 2 := 1, 3 := 0])
  }

  lemma CountsDuringFork()
    ensures FdRef(HalfForked(), 0, Reader) == PipeRef(HalfForked(), 0) == 3
    ensures !Nobody(HalfForked(), 0, Writer)
  {
    var s := HalfForked();
    assert SlotsOf(s.fds, PipeFd(0, Reader)) == {(1, 0), (2, 0), (3, 0)};
    assert SlotsOf(s.data, PipePage(0)) == {(1, 0), (1, 1), (2, 0)};
    assert s.fds[(1, 1)] == PipeFd(0, Writer);
  }

  /** The states while 1 has the CPU. */
  ghost function ForkBegun(): State {
    var s := Sharing();
    s.(runs := s.runs[3 := 0], pc := s.pc[1 := ForkFds(3, 0)][3 := Unstarted])
  }

  ghost function FdCopied(): State {
    var s := ForkBegun();
    s.(fds := s.fds[(3, 0) := PipeFd(0, Reader)], pc := s.pc[1 := ForkFds(3, 1)])
  }

  lemma ForkBegins()
    ensures Step(Sharing(), BeginFork(3), ForkBegun())
  {
    assert Absent(Sharing(), 3);
  }

  lemma FdIsCopied()
    ensures Step(ForkBegun(), CopyFd(0), FdCopied())
  {
    assert NextFrom(ForkBegun().fds, 1, 0, 0);
  }

  lemma OtherRuns()
    ensures Step(FdCopied(), Switch(2), HalfForked())
  {
    hide Inv;
    var s := FdCopied();
    assert HalfForked().pc == s.pc && HalfForked().fds == s.fds;
    assert HalfForked() == s.(cur := 2, runs := s.runs[2 := s.runs[2] + 1]);
  }

  /** The state that a test has come to. */
  ghost function At(t: Test): State {
    HalfForked().(pc := HalfForked().pc[2 := Testing(t)])
  }

  lemma TestBegins()
    ensures Step(HalfForked(), BeginTest(0), At(Begun(0, 1)))
  {
    hide Inv;
    assert HalfForked().fds[(2, 0)] == PipeFd(0, Reader);
  }

  lemma FdIsRead()
    ensures Step(At(Begun(0, 1)), ReadNext, At(FdRead(0, 1, 3)))
  {
    hide SlotsOf, Inv;
    CountsDuringFork();
    assert HalfForked().fds[(2, 0)] == PipeFd(0, Reader);
    assert At(FdRead(0, 1, 3)).pc == At(Begun(0, 1)).pc[2 := Testing(FdRead(0, 1, 3))];
  }

  lemma PipeIsRead()
    ensures Step(At(FdRead(0, 1, 3)), ReadNext, At(PipeRead(0, 1, 3, 3)))
  {
    hide SlotsOf, Inv;
    CountsDuringFork();
    assert HalfForked().data[(2, 0)] == PipePage(0);
    assert At(PipeRead(0, 1, 3, 3)).pc == At(FdRead(0, 1, 3)).pc[2 := Testing(PipeRead(0, 1, 3, 3))];
  }

  lemma TestEnds()
    ensures Step(At(PipeRead(0, 1, 3, 3)), Decide, HalfForked()) && SaysClosed(At(PipeRead(0, 1, 3, 3)), Decide)
  {
    hide Inv;
    assert HalfForked().pc == At(PipeRead(0, 1, 3, 3)).pc[2 := Idle];
  }

  /** The test can be wrong while a fork is under way: from a quiet state with one
      writer, a test by a reader answers closed, and the writer is still there. */
  lemma ForkMisleadsTest() returns (states: seq<State>, ops: seq<Op>)
    ensures Run(states, ops) && Inv(states[0]) && Quiet(states[0])
    ensures ops == [BeginFork(3), CopyFd(0), Switch(2), BeginTest(0), ReadNext, ReadNext, Decide]
    ensures SaysClosed(states[6], ops[6]) && Inv(states[6])
    ensures Tested(states[6]) == PipeFd(0, Reader) && !Nobody(states[6], 0, Writer) && !Nobody(states[7], 0, Writer)
  {
    hide Step, SaysClosed, Inv, Nobody;
    ops := [BeginFork(3), CopyFd(0), Switch(2), BeginTest(0), ReadNext, ReadNext, Decide];
    states := [Sharing(), ForkBegun(), FdCopied(), HalfForked(),
               At(Begun(0, 1)), At(FdRead(0, 1, 3)), At(PipeRead(0, 1, 3, 3)), HalfForked()];
    SharingIsFine();
    ForkBegins();
    FdIsCopied();
    OtherRuns();
    TestBegins();
    FdIsRead();
    PipeIsRead();
    TestEnds();
    CountsDuringFork();
    EveryStateInv(states, ops, 6);
    NobodySame(HalfForked(), states[6]);
  }

  lemma NobodySame(s: State, t: State)
    requires s.fds == t.fds
    ensures forall p, end :: Nobody(s, p, end) == Nobody(t, p, end)
  {}
}
