/** Whole runs of the memory system: any sequence of system calls, TLB refills,
    environment creations and destructions. */
module KernelRuns {
  import opened Mmu
  import opened AddressSpaces
  import opened EnvRelease
  import opened Translation
  import PageTables

  datatype Sys = Sys(s: Spaces, tlb: Tlb, owner: map<nat, nat>)

  datatype Op =
    | MemAlloc(asid: nat, vpn: nat, perm: Perm32)
    | MemMap(asid: nat, vpn: nat, page: nat, perm: Perm32)
    | MemUnmap(asid: nat, vpn: nat)
    | Refill(asid: nat, vpn: nat, victims: set<(nat, nat)>)
    | EnvAlloc(env: nat, asid: nat)
    | EnvAllocFails(env: nat)              // every ASID is taken
    | EnvFree(asid: nat)

  ghost predicate Owners(a: Sys) {
    && OwnersLive(a.s, a.owner)
    && (forall x, y | x in a.owner && y in a.owner && a.owner[x] == a.owner[y] :: x == y)
  }

  /** The windows are set up, the counts are exact and fit their sixteen bits. */
  ghost predicate Good(a: Sys) {
    && Inv(a.s) && RefsFit(a.s) && |a.s.ref| <= MAX_PAGES && Owners(a)
    && (BASE, PDX_UTOP) in a.s.tables && (BASE, PDX_UTOP + 1) in a.s.tables
  }

  ghost predicate TlbOk(a: Sys) { Coherent(a.tlb, a.s, a.owner) }

  ghost predicate Flushed(a: Sys, b: Sys, asid: nat, vpn: nat) {
    b.tlb == a.tlb - {(Vpn2(vpn), asid)} && b.owner == a.owner
  }

  /** page_insert at vpn of a page that s offers, with its flush. */
  ghost predicate Inserted(a: Sys, s: Spaces, asid: nat, vpn: nat, page: nat, perm: Perm32, b: Sys) {
    && asid in a.owner && vpn < UTOP && InsertDefined(s, (a.owner[asid], vpn))
    && MayInsert(s, (a.owner[asid], vpn), page)
    && b.s == InsertWide(s, (a.owner[asid], vpn), page, perm).1
    && Flushed(a, b, asid, vpn)
  }

  /** The spaces after the refill handler has backed page vpn. */
  ghost predicate Backed(s: Spaces, e: nat, vpn: nat, t: Spaces) {
    if IsValid(Entry(s, e, vpn)) then t == s
    else
      && s.free != [] && s.free[0] < |s.use| == |s.ref|
      && var s' := TakeFree(s);
        if vpn < UTOP then
          && InsertDefined(s', (e, vpn)) && s.free[0] < |s.ref|
          && Insert(s', (e, vpn), s.free[0], PTE_D) == (0, t)
        else
          && UVPT <= vpn < ULIM && t == UseAsTable(s', (e, Ptx(vpn)), s.free[0])
  }

  lemma BackedAlready(s: Spaces, e: nat, vpn: nat)
    ensures IsValid(Entry(s, e, vpn)) ==> Backed(s, e, vpn, s)
  {}

  ghost predicate Step(a: Sys, op: Op, b: Sys) {
    match op
    case MemAlloc(asid, vpn, perm) =>
      && a.s.free != [] && a.s.free[0] < |a.s.use|
      && Inserted(a, TakeFree(a.s), asid, vpn, a.s.free[0], perm, b)
    case MemMap(asid, vpn, page, perm) =>
      Inserted(a, a.s, asid, vpn, page, perm, b)
    case MemUnmap(asid, vpn) =>
      && asid in a.owner && vpn < UTOP
      && var k := (a.owner[asid], vpn);
        && k in a.s.maps && a.s.maps[k].ppn < |a.s.ref| == |a.s.use| && a.s.ref[a.s.maps[k].ppn] > 0
        && b.s == Unmap(a.s, k) && Flushed(a, b, asid, vpn)
    case Refill(asid, vpn, victims) =>
      && asid in a.owner && vpn < MAX_PAGES
      && Backed(a.s, a.owner[asid], vpn, b.s)
      && b.tlb == (a.tlb - {(Vpn2(vpn), asid)} - victims)[(Vpn2(vpn), asid) := LoadedPair(b.s, a.owner[asid], vpn)]
      && b.owner == a.owner
    case EnvAlloc(e, asid) =>
      && a.s.free != [] && a.s.free[0] < |a.s.use| == |a.s.ref|
      && e !in a.s.dirs && e < NENV && asid !in a.owner && asid < NASID
      && b.s == AddDirectory(TakeFree(a.s), e, a.s.free[0])
      && b.tlb == a.tlb && b.owner == a.owner[asid := e]
    case EnvAllocFails(e) =>
      && a.s.free != [] && a.s.free[0] < |a.s.use| == |a.s.ref|
      && e !in a.s.dirs && e < NENV && (forall asid: nat | asid < NASID :: asid in a.owner)
      && b == a.(s := LoseDirectory(AddDirectory(TakeFree(a.s), e, a.s.free[0]), e))
    case EnvFree(asid) =>
      && asid in a.owner && EnvFreed(a.s, a.owner[asid], b.s)
      && UserPartFlushed(a.tlb, b.tlb, a.s, a.owner[asid], asid)
      && b.owner == a.owner - {asid}
  }

  /** The one step after which the TLB may be wrong: destroying an environment that has
      a valid half for a page table of the kernel half. */
  ghost predicate Leaves(a: Sys, op: Op, b: Sys) {
    op.EnvFree? && op.asid in a.owner && LeavesTable(b.tlb, a.s, a.owner[op.asid], op.asid)
  }

  /** page_insert goes through, with a permission that changes the number of the page or
      a count that has no room. */
  ghost predicate Misfits(s: Spaces, k: (nat, nat), page: nat, perm: Perm32) {
    && page < |s.ref| && ((k.0, Pdx(k.1)) in s.tables || s.free != [])
    && !Fits(s, k, page, perm)
  }

  /** The two steps after which the counts are wrong. */
  ghost predicate Miscounts(a: Sys, op: Op) {
    match op
    case MemAlloc(asid, vpn, perm) =>
      && asid in a.owner && a.s.free != [] && a.s.free[0] < |a.s.use|
      && Misfits(TakeFree(a.s), (a.owner[asid], vpn), a.s.free[0], perm)
    case MemMap(asid, vpn, page, perm) => asid in a.owner && Misfits(a.s, (a.owner[asid], vpn), page, perm)
    case _ => false
  }

  // ----- what every step does to the counts

  lemma InsertedIsGoodIff(a: Sys, s: Spaces, asid: nat, vpn: nat, page: nat, perm: Perm32, b: Sys)
    requires Good(a) && Inv(s) && s.dirs == a.s.dirs && s.tables == a.s.tables && s.maps == a.s.maps
    requires Inserted(a, s, asid, vpn, page, perm, b) && s.ref == a.s.ref
    ensures Good(b) <==> !Misfits(s, (a.owner[asid], vpn), page, perm)
    ensures Good(b) ==> b.s == Insert(s, (a.owner[asid], vpn), page, perm.low).1
    ensures Good(b) && TlbOk(a) ==> TlbOk(b)
  {
    hide Inv, Coherent, Insert, InsertWide, OrPage;
    var k := (a.owner[asid], vpn);
    WidePermIff(s, k, page, perm);
    InsertIsFlat(s, k, page, perm.low);
    if Misfits(s, k, page, perm) {
      InexactIsBad(b.s);
    } else {
      InsertKeepsInv(s, k, page, perm.low);
      if Fits(s, k, page, perm) { FittingKeepsRefsFit(s, k, page, perm); }
      if TlbOk(a) { InsertKeepsCoherent(a.tlb, a.s, s, a.owner, asid, k, page, perm.low); }
    }
  }

  lemma InexactIsBad(s: Spaces)
    requires |s.use| == |s.ref| && !CountsExact(s)
    ensures !Inv(s)
  {}

  lemma FittingKeepsRefsFit(s: Spaces, k: (nat, nat), page: nat, perm: Perm32)
    requires Inv(s) && MayInsert(s, k, page) && RefsFit(s) && Fits(s, k, page, perm)
    ensures InsertDefined(s, k) && RefsFit(Insert(s, k, page, perm.low).1)
  {
    hide Inv, Insert, OrPage;
    InsertIsFlat(s, k, page, perm.low);
    if s.ref[page] < MAX_REF { InsertKeepsRefsFit(s, k, page, perm.low); }
  }

  lemma RefillIsGood(a: Sys, asid: nat, vpn: nat, victims: set<(nat, nat)>, b: Sys)
    requires Good(a) && Step(a, Refill(asid, vpn, victims), b)
    ensures Good(b)
    ensures TlbOk(a) ==> TlbOk(b)
  {
    hide Inv, Coherent, KeepsEntries, Backed, RefsFit;
    var e := a.owner[asid];
    BackedIsGood(a.s, e, vpn, b.s);
    BackedKeepsRefsFit(a.s, e, vpn, b.s);
    if TlbOk(a) {
      FlushKeepsCoherent(a.tlb, a.s, b.s, a.owner, asid, vpn);
      LoadKeepsCoherent(a.tlb - {(Vpn2(vpn), asid)}, b.s, a.owner, asid, vpn, victims);
    }
  }

  lemma BackedIsGood(s: Spaces, e: nat, vpn: nat, t: Spaces)
    requires Inv(s) && e in s.dirs && e != BASE && Backed(s, e, vpn, t)
    requires (BASE, PDX_UTOP) in s.tables && (BASE, PDX_UTOP + 1) in s.tables
    ensures Inv(t) && t.dirs == s.dirs && KeepsEntries(s, t, e, vpn)
    ensures forall k | k in s.tables :: k in t.tables
  {
    hide Typed, CountsExact, FreeListExact, Insert, KeepsEntries;
    if IsValid(Entry(s, e, vpn)) {
      SameSpacesKeepEntries(s, t, e, vpn);
    } else {
      HeadIsFree(s);
      TakeFreeKeepsInv(s);
      var s' := TakeFree(s);
      SameEntries(s, s', t, e, vpn);
      if vpn < UTOP {
        BackedByPage(s', e, vpn, s.free[0], t);
      } else {
        BackedByTable(s', e, vpn, s.free[0], t);
      }
    }
  }

  lemma BackedKeepsRefsFit(s: Spaces, e: nat, vpn: nat, t: Spaces)
    requires Inv(s) && RefsFit(s) && e in s.dirs && e != BASE && Backed(s, e, vpn, t)
    ensures RefsFit(t) && |t.ref| == |s.ref|
  {
    hide Typed, CountsExact, FreeListExact, Insert, Entry;
    if !IsValid(Entry(s, e, vpn)) {
      HeadIsFree(s);
      TakeFreeKeepsInv(s);
      if vpn < UTOP {
        InsertKeepsRefsFit(TakeFree(s), (e, vpn), s.free[0], PTE_D);
        InsertIsFlat(TakeFree(s), (e, vpn), s.free[0], PTE_D);
      }
    }
  }

  /** What the refill handler backs an address with: the first free page, writable at
      user addresses and not in the window of the page tables, and never global. */
  lemma BackedWithFirstPage(s: Spaces, e: nat, vpn: nat, t: Spaces)
    requires Inv(s) && e in s.dirs && e != BASE && Backed(s, e, vpn, t) && !IsValid(Entry(s, e, vpn))
    requires vpn < UTOP || (Pdx(vpn) == PDX_UVPT && (e, Ptx(vpn)) !in s.tables && TableSlot(e, Ptx(vpn)))
    ensures s.free != [] && IsValid(Entry(t, e, vpn)) && Entry(t, e, vpn).ppn == s.free[0]
    ensures !IsGlobal(Entry(t, e, vpn)) && (IsWritable(Entry(t, e, vpn)) <==> vpn < 0x7f400)
  {
    hide Typed, FreeListExact, CountsExact, Entry, Insert;
    HeadIsFree(s);
    TakeFreeKeepsInv(s);
    PageTables.PassiveInsertKeepsEntries(TakeFree(s), e, s.free[0], vpn);
    EntryFlagsAreValid(s.free[0], if vpn < UTOP then PTE_D else 0);
    assert PTE_D & PTE_G == 0 && PTE_D & PTE_D != 0;
  }

  lemma SameEntries(s: Spaces, s': Spaces, t: Spaces, e: nat, vpn: nat)
    requires s'.dirs == s.dirs && s'.tables == s.tables && s'.maps == s.maps
    ensures Entry(s', e, vpn) == Entry(s, e, vpn)
    ensures KeepsEntries(s', t, e, vpn) ==> KeepsEntries(s, t, e, vpn)
  {
    hide Entry;
    SameSpacesKeepEntries(s, s', e, vpn);
  }

  lemma BackedByPage(s: Spaces, e: nat, vpn: nat, p: nat, t: Spaces)
    requires Inv(s) && e in s.dirs && e != BASE && vpn < UTOP && HeldPage(s, p)
    requires InsertDefined(s, (e, vpn)) && Insert(s, (e, vpn), p, PTE_D) == (0, t)
    ensures Inv(t) && t.dirs == s.dirs && KeepsEntries(s, t, e, vpn)
    ensures forall k | k in s.tables :: k in t.tables
  {
    hide Typed, CountsExact, FreeListExact, Insert, KeepsEntries;
    InsertKeepsInv(s, (e, vpn), p, PTE_D);
    InsertIsFlat(s, (e, vpn), p, PTE_D);
    InsertKeepsEntries(s, (e, vpn), p, PTE_D);
  }

  lemma BackedByTable(s: Spaces, e: nat, vpn: nat, p: nat, t: Spaces)
    requires Inv(s) && e in s.dirs && e != BASE && UVPT <= vpn < ULIM && HeldPage(s, p)
    requires (BASE, PDX_UTOP) in s.tables && (BASE, PDX_UTOP + 1) in s.tables
    requires !IsValid(Entry(s, e, vpn)) && t == UseAsTable(s, (e, Ptx(vpn)), p)
    ensures Inv(t) && t.dirs == s.dirs && KeepsEntries(s, t, e, vpn)
    ensures forall k | k in s.tables :: k in t.tables
  {
    hide Typed, CountsExact, FreeListExact, KeepsEntries, Entry;
    UnmappedSlot(s, e, vpn);
    UseAsTableKeepsInv(s, (e, Ptx(vpn)), p);
    NewTableKeepsEntries(s, (e, Ptx(vpn)), p, e, vpn);
  }

  lemma UnmapIsGood(a: Sys, asid: nat, vpn: nat, b: Sys)
    requires Good(a) && Step(a, MemUnmap(asid, vpn), b)
    ensures Good(b)
    ensures TlbOk(a) ==> TlbOk(b)
  {
    hide Inv, Coherent;
    UnmapKeepsInv(a.s, (a.owner[asid], vpn));
    if TlbOk(a) { UnmapKeepsCoherent(a.tlb, a.s, a.owner, asid, (a.owner[asid], vpn)); }
  }

  lemma EnvAllocIsGood(a: Sys, e: nat, asid: nat, b: Sys)
    requires Good(a) && Step(a, EnvAlloc(e, asid), b)
    ensures Good(b)
    ensures TlbOk(a) ==> TlbOk(b)
  {
    hide Typed, CountsExact, FreeListExact, Coherent, OthersKept;
    HeadIsFree(a.s);
    TakeFreeKeepsInv(a.s);
    AddDirectoryKeepsInv(TakeFree(a.s), e, a.s.free[0]);
    DirectoryChangeKeepsOthers(a.s, b.s, e);
    if TlbOk(a) { NewOwnerCoherent(a.tlb, a.s, b.s, a.owner, asid, e); }
  }

  lemma EnvAllocFailsIsGood(a: Sys, e: nat, b: Sys)
    requires Good(a) && Step(a, EnvAllocFails(e), b)
    ensures Good(b)
    ensures TlbOk(a) ==> TlbOk(b)
  {
    hide Typed, CountsExact, FreeListExact, Coherent, OthersKept;
    HeadIsFree(a.s);
    TakeFreeKeepsInv(a.s);
    FreshDirectoryHasNoTables(a.s, e);
    var t := AddDirectory(TakeFree(a.s), e, a.s.free[0]);
    AddDirectoryKeepsInv(TakeFree(a.s), e, a.s.free[0]);
    assert TablesOf(t, e) == TablesOf(a.s, e);
    LoseDirectoryKeepsInv(t, e);
    DirectoryChangeKeepsOthers(a.s, b.s, e);
    if TlbOk(a) { SameEntriesCoherent(a.tlb, a.s, b.s, a.owner, e); }
  }

  lemma EnvFreeIsGood(a: Sys, asid: nat, b: Sys)
    requires Good(a) && Step(a, EnvFree(asid), b)
    ensures Good(b)
    ensures TlbOk(a) ==> (TlbOk(b) <==> !Leaves(a, EnvFree(asid), b))
  {
    hide Inv, Coherent, OthersKept, RefsFrom, LeavesTable, UserPartFlushed;
    EnvFreedKeepsInv(a.s, a.owner[asid], b.s);
    EnvFreedKeepsOthers(a.s, b.s, a.owner[asid]);
    if TlbOk(a) { EnvFreeCoherentIff(a.tlb, b.tlb, a.s, b.s, a.owner, asid, a.owner[asid]); }
  }

  /** A step keeps the counts exact exactly unless it inserts a page that misfits; then
      the TLB stays coherent exactly unless the step leaves a valid half for a
      kernel-half table behind. */
  lemma StepIsGoodIff(a: Sys, op: Op, b: Sys)
    requires Good(a) && Step(a, op, b)
    ensures Good(b) <==> !Miscounts(a, op)
    ensures Good(b) && TlbOk(a) ==> (TlbOk(b) <==> !Leaves(a, op, b))
  {
    hide Inv, TlbOk, Insert, InsertWide, Misfits, EnvFreed, LeavesTable, UserPartFlushed;
    match op
    case MemAlloc(asid, vpn, perm) =>
      TakeFreeKeepsInv(a.s);
      InsertedIsGoodIff(a, TakeFree(a.s), asid, vpn, a.s.free[0], perm, b);
    case MemMap(asid, vpn, page, perm) =>
      InsertedIsGoodIff(a, a.s, asid, vpn, page, perm, b);
    case MemUnmap(asid, vpn) => UnmapIsGood(a, asid, vpn, b);
    case Refill(asid, vpn, victims) => RefillIsGood(a, asid, vpn, victims, b);
    case EnvAlloc(e, asid) => EnvAllocIsGood(a, e, asid, b);
    case EnvAllocFails(e) => EnvAllocFailsIsGood(a, e, b);
    case EnvFree(asid) => EnvFreeIsGood(a, asid, b);
  }

  // ----- whole runs

  ghost predicate Run(states: seq<Sys>, ops: seq<Op>) {
    && |states| == |ops| + 1
    && forall i | 0 <= i < |ops| :: Step(states[i], ops[i], states[i + 1])
  }

  /** No insertion so far misfitted. */
  ghost predicate CountedSoFar(states: seq<Sys>, ops: seq<Op>, n: nat)
    requires n <= |ops| < |states|
  {
    forall i | 0 <= i < n :: !Miscounts(states[i], ops[i])
  }

  lemma {:induction false} RunIsGood(states: seq<Sys>, ops: seq<Op>, n: nat)
    requires Run(states, ops) && Good(states[0]) && n < |states| && CountedSoFar(states, ops, n)
    ensures Good(states[n])
  {
    hide Good, Step, Miscounts;
    if n > 0 {
      RunIsGood(states, ops, n - 1);
      StepIsGoodIff(states[n - 1], ops[n - 1], states[n]);
    }
  }

  /** Along every run the counts are exact up to state n exactly when no insertion so far
      misfitted. */
  lemma {:induction false} CountedIff(states: seq<Sys>, ops: seq<Op>, n: nat)
    requires Run(states, ops) && Good(states[0]) && n <= |ops|
    ensures (forall i | 0 <= i <= n :: Good(states[i])) <==> CountedSoFar(states, ops, n)
  {
    hide Good, Step, Miscounts;
    if n > 0 {
      CountedIff(states, ops, n - 1);
      if Good(states[n - 1]) { StepIsGoodIff(states[n - 1], ops[n - 1], states[n]); }
    }
  }

  /** What that means: in every state a page's count is the number of entries that refer
      to it and fits sixteen bits, and a page on the free list has none. */
  lemma EveryRun(states: seq<Sys>, ops: seq<Op>, n: nat, p: nat)
    requires Run(states, ops) && Good(states[0]) && n < |states| && CountedSoFar(states, ops, n)
    ensures var c := states[n];
      && (p < |c.s.ref| && p !in c.s.pinned ==> c.s.ref[p] == RefCount(c.s, p) <= MAX_REF)
      && (p in c.s.free ==> RefCount(c.s, p) == 0)
  {
    hide Coherent, Typed, Step, Run, RefCount, CountedSoFar;
    RunIsGood(states, ops, n);
  }

  /** No step so far left a valid half for a kernel-half table. */
  ghost predicate NothingLeftSoFar(states: seq<Sys>, ops: seq<Op>, n: nat)
    requires n <= |ops| < |states|
  {
    forall i | 0 <= i < n :: !Leaves(states[i], ops[i], states[i + 1])
  }

  /** Along every run the counts are exact and the TLB is coherent up to state n exactly
      when no insertion so far misfitted and no destruction left such a half. */
  lemma {:induction false} CoherentIff(states: seq<Sys>, ops: seq<Op>, n: nat)
    requires Run(states, ops) && Good(states[0]) && TlbOk(states[0]) && n <= |ops|
    ensures (forall i | 0 <= i <= n :: Good(states[i]) && TlbOk(states[i])) <==>
      CountedSoFar(states, ops, n) && NothingLeftSoFar(states, ops, n)
  {
    hide Good, Step, TlbOk, Leaves, Miscounts;
    if n > 0 {
      CoherentIff(states, ops, n - 1);
      if Good(states[n - 1]) { StepIsGoodIff(states[n - 1], ops[n - 1], states[n]); }
    }
  }

  /** The promise of the TLB code over whole runs: so long, and while global pairs agree,
      a live environment hits nothing but its current entries. */
  lemma EveryHit(states: seq<Sys>, ops: seq<Op>, n: nat, x: (nat, nat), asid: nat, vpn: nat)
    requires Run(states, ops) && Good(states[0]) && TlbOk(states[0]) && n <= |ops|
    requires CountedSoFar(states, ops, n) && NothingLeftSoFar(states, ops, n)
    requires GlobalsAgree(states[n].s, states[n].owner)
    ensures var c := states[n];
      asid in c.owner && x in c.tlb && Matches(x, c.tlb[x], asid, vpn) && LoValid(Half(c.tlb[x], vpn)) ==>
        Half(c.tlb[x], vpn) == ToLo(Entry(c.s, c.owner[asid], vpn))
  {
    hide Coherent, GlobalsAgree, Step, Entry, Matches, NothingLeftSoFar, CountedSoFar, Good;
    CoherentIff(states, ops, n);
    var c := states[n];
    assert TlbOk(c);
    if asid in c.owner && x in c.tlb && Matches(x, c.tlb[x], asid, vpn) && LoValid(Half(c.tlb[x], vpn)) {
      HitIsCurrent(c.tlb, c.s, c.owner, x, asid, vpn);
    }
  }

  predicate AsksGlobal(op: Op) {
    (op.MemAlloc? || op.MemMap?) && op.perm.low & PTE_G != 0
  }

  /** Global pairs agree in every run in which nobody asks for PTE_G. */
  lemma {:induction false} NobodyGlobal(states: seq<Sys>, ops: seq<Op>, n: nat)
    requires Run(states, ops) && Good(states[0]) && NoUserGlobals(states[0].s) && n <= |ops|
    requires CountedSoFar(states, ops, n) && forall i | 0 <= i < n :: !AsksGlobal(ops[i])
    ensures NoUserGlobals(states[n].s) && GlobalsAgree(states[n].s, states[n].owner)
  {
    hide Step, NoUserGlobals, AsksGlobal, GlobalsAgree, Inv, Miscounts;
    RunIsGood(states, ops, n);
    if n > 0 {
      NobodyGlobal(states, ops, n - 1);
      RunIsGood(states, ops, n - 1);
      StepKeepsNoGlobals(states[n - 1], ops[n - 1], states[n]);
    }
    NoGlobalsAgree(states[n].s, states[n].owner);
  }

  lemma StepKeepsNoGlobals(a: Sys, op: Op, b: Sys)
    requires Good(a) && Good(b) && Step(a, op, b) && NoUserGlobals(a.s) && !AsksGlobal(op)
    ensures NoUserGlobals(b.s)
  {
    hide Inv, Insert, InsertWide, Entry, UserPartFlushed, FreedAtZero, RefsFrom, KernelHalf;
    match op
    case MemAlloc(asid, vpn, perm) =>
      TakeFreeKeepsInv(a.s);
      InsertedIsGoodIff(a, TakeFree(a.s), asid, vpn, a.s.free[0], perm, b);
      InsertKeepsNoGlobals(TakeFree(a.s), (a.owner[asid], vpn), a.s.free[0], perm.low);
    case MemMap(asid, vpn, page, perm) =>
      InsertedIsGoodIff(a, a.s, asid, vpn, page, perm, b);
      InsertKeepsNoGlobals(a.s, (a.owner[asid], vpn), page, perm.low);
    case Refill(asid, vpn, _) => BackedKeepsNoGlobals(a.s, a.owner[asid], vpn, b.s);
    case _ =>
  }

  lemma InsertKeepsNoGlobals(s: Spaces, k: (nat, nat), p: nat, perm: Perm)
    requires Inv(s) && MayInsert(s, k, p) && NoUserGlobals(s) && perm & PTE_G == 0
    ensures InsertDefined(s, k) && NoUserGlobals(Insert(s, k, p, perm).1)
  {
    hide Inv, Insert;
    InsertKeepsInv(s, k, p, perm);
    InsertIsFlat(s, k, p, perm);
    EntryFlagsAreValid(p, perm);
  }

  lemma BackedKeepsNoGlobals(s: Spaces, e: nat, vpn: nat, t: Spaces)
    requires Inv(s) && e in s.dirs && e != BASE && Backed(s, e, vpn, t) && NoUserGlobals(s)
    ensures NoUserGlobals(t)
  {
    hide Typed, CountsExact, FreeListExact, Insert, Entry;
    if !IsValid(Entry(s, e, vpn)) && vpn < UTOP {
      HeadIsFree(s);
      TakeFreeKeepsInv(s);
      assert (PTE_D as bv12) & PTE_G == 0;
      InsertKeepsNoGlobals(TakeFree(s), (e, vpn), s.free[0], PTE_D);
    }
  }
}
