/** sys_ipc_try_send as a whole (kern/syscall_all.c): the message and the run queue on
    one side, the page that comes with it on the other. */
module Messages {
  import opened Mmu
  import opened AddressSpaces
  import opened Translation
  import opened Kernels
  import opened Schedulers
  import opened Scheduling
  import KernelRuns
  import PageTables

  function PageOf(va: nat): (p: nat)
    ensures p * PAGE_SIZE <= va < (p + 1) * PAGE_SIZE
  { va / PAGE_SIZE }

  /** What becomes of the page at srcva of `from` that goes with a message to an
      environment that wants it at dstva. */
  function Mapping(s: Spaces, from: nat, srcva: nat, to: nat, dstva: nat, perm: Perm32): (int, Spaces)
    requires |s.use| == |s.ref|
  {
    var j, k := (from, PageOf(srcva)), (to, PageOf(dstva));
    if srcva == 0 then (0, s)
    else if j !in s.maps then (-Kernels.E_INVAL, s)
    else if InsertDefined(s, k) && s.maps[j].ppn < |s.ref| then InsertWide(s, k, s.maps[j].ppn, perm)
    else (0, s)
  }

  /** The page table for dstva is there or can be made. */
  predicate HasTable(s: Spaces, to: nat, dstva: nat) {
    (to, Pdx(PageOf(dstva))) in s.tables || s.free != []
  }

  /** The page arrives exactly when none was offered or it was mapped at srcva and a
      page table was there or to be had; then the receiver has it at dstva, with the
      number that the permission leaves it, and otherwise nothing has changed. */
  lemma MappingWorksIff(s: Spaces, from: nat, srcva: nat, to: nat, dstva: nat, perm: Perm32)
    requires Inv(s) && to in s.dirs && to != BASE && IsZeroOrLegal(srcva) && IsZeroOrLegal(dstva)
    ensures var (r, t) := Mapping(s, from, srcva, to, dstva, perm);
      && (r == 0 <==> srcva == 0 || ((from, PageOf(srcva)) in s.maps && HasTable(s, to, dstva)))
      && (r == 0 && srcva != 0 && (from, PageOf(srcva)) in s.maps ==>
           t.maps == s.maps[(to, PageOf(dstva)) := StoredWord(s.maps[(from, PageOf(srcva))].ppn, perm)])
      && (r != 0 ==> t == s)
  {
    hide Typed, CountsExact, FreeListExact, InsertWide, StoredWord;
    var j, k := (from, PageOf(srcva)), (to, PageOf(dstva));
    if srcva != 0 && j in s.maps {
      MappedIsCounted(s, j);
      if k in s.maps { MappedIsCounted(s, k); }
      if s.free != [] { HeadIsFree(s); }
      InsertWideMaps(s, k, s.maps[j].ppn, perm);
    }
  }

  /** The page at srcva is inserted at dstva of the receiver. */
  ghost predicate Offered(s: Spaces, from: nat, srcva: nat) {
    srcva != 0 && (from, PageOf(srcva)) in s.maps
  }

  /** sys_ipc_try_send.  A delivery is not undone: when the page cannot be mapped the
      receiver runs with the message and without the page, and the sender gets the
      error.  To the memory system it is one sys_mem_map, or nothing. */
  method SysIpcTrySend(kernel: Kernel, sched: Scheduler, to: nat, value: nat, srcva: nat, perm: Perm32)
    returns (r: int)
    requires sched.Valid() && to < |sched.status|
    requires kernel.Running(sched.curenv.value) && RefsFit(kernel.spec)
    requires sched.status[to] != Status.Free ==> to in kernel.envAsid && kernel.Running(to)
    modifies sched, sched.links, kernel
    ensures sched.Valid() && Exec(old(sched.View()), TrySend(to, value, srcva, perm)) == Some(sched.View())
    ensures |old(kernel.spec).use| == |old(kernel.spec).ref|
    ensures var delivered := IsDelivery(old(sched.View()), TrySend(to, value, srcva, perm), to);
      if delivered then
        to < |old(sched.ipc)| &&
        (r, kernel.spec) == Mapping(old(kernel.spec), old(sched.curenv.value), srcva, to, old(sched.ipc)[to].dstva, perm)
      else r != 0
    ensures var delivered := IsDelivery(old(sched.View()), TrySend(to, value, srcva, perm), to);
      if delivered && Offered(old(kernel.spec), old(sched.curenv.value), srcva) then
        && to in old(kernel.envAsid) && to < |old(sched.ipc)|
        && Shared(old(kernel.State()), kernel.State(), old(sched.curenv.value), srcva, old(kernel.envAsid)[to],
                  old(sched.ipc)[to].dstva, perm, kernel.Running(old(sched.curenv.value)))
      else
        unchanged(kernel) && kernel.Running(old(sched.curenv.value))
    ensures kernel.Running(old(sched.curenv.value)) && old(kernel.TlbCoherent()) ==> kernel.TlbCoherent()
  {
    hide Inv, Stored, InsertWide, KernelRuns.Step, KernelRuns.Miscounts, PageTables.DataKept, OrPage, Schedule, AsidTable, RefsFit;
    ghost var s := sched.View();
    var from := sched.curenv.value;
    r := sched.SendMessage(to, value, srcva, perm);
    if r != 0 || srcva == 0 { return; }
    var dstva := sched.ipc[to].dstva;
    r := kernel.ShareMapping(from, PageOf(srcva), to, PageOf(dstva), perm);
  }

  /** One step of the memory system that maps the page at srcva; `runs` says that the
      kernel's state is in order afterwards, which it is unless the page misfits. */
  ghost predicate Shared(a: KernelRuns.Sys, b: KernelRuns.Sys, from: nat, srcva: nat, asid: nat, dstva: nat,
                         perm: Perm32, runs: bool) {
    && (from, PageOf(srcva)) in a.s.maps
    && var op := KernelRuns.MemMap(asid, PageOf(dstva), a.s.maps[(from, PageOf(srcva))].ppn, perm);
      KernelRuns.Step(a, op, b) && (runs <==> !KernelRuns.Miscounts(a, op))
  }
}
