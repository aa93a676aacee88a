/** Runs of the memory system in which it does less than it should.  Each is built from
    any good state that has the pages for it. */
module KernelFailures {
  import opened Mmu
  import opened AddressSpaces
  import opened EnvRelease
  import opened Translation
  import opened KernelRuns

  /** A live environment hits a valid half that is not its current entry. */
  ghost predicate WrongHit(c: Sys, x: (nat, nat), asid: nat, vpn: nat) {
    && asid in c.owner && x in c.tlb && Matches(x, c.tlb[x], asid, vpn)
    && LoValid(Half(c.tlb[x], vpn)) && Half(c.tlb[x], vpn) != ToLo(Entry(c.s, c.owner[asid], vpn))
  }

  // ----- global pages of one environment are hit by all

  function Pages(s: Spaces, k: (nat, nat)): nat { if (k.0, Pdx(k.1)) in s.tables then 1 else 2 }

  /** sys_mem_alloc at an unmapped page goes through when there are pages for it. */
  lemma AllocStep(a: Sys, asid: nat, vpn: nat, perm: Perm) returns (b: Sys)
    requires Good(a) && asid in a.owner && vpn < UTOP && (a.owner[asid], vpn) !in a.s.maps
    requires |a.s.free| >= Pages(a.s, (a.owner[asid], vpn))
    ensures Step(a, MemAlloc(asid, vpn, Perm32(0, perm)), b) && Good(b) && (TlbOk(a) ==> TlbOk(b))
    ensures var k := (a.owner[asid], vpn);
      && b.s.maps == a.s.maps[k := Word(a.s.free[0], EntryFlags(perm))] && (k.0, Pdx(k.1)) in b.s.tables
      && b.owner == a.owner && |b.s.free| >= |a.s.free| - Pages(a.s, k)
  {
    hide Typed, CountsExact, FreeListExact, Coherent, OrPage, InsertWide;
    var k, p := (a.owner[asid], vpn), a.s.free[0];
    HeadIsFree(a.s);
    TakeFreeKeepsInv(a.s);
    ClearBitsKeepPages(0);
    WidePermIff(TakeFree(a.s), k, p, Perm32(0, perm));
    InsertTakesPages(TakeFree(a.s), k, p, perm);
    b := Sys(InsertWide(TakeFree(a.s), k, p, Perm32(0, perm)).1, a.tlb - {(Vpn2(vpn), asid)}, a.owner);
    StepIsGoodIff(a, MemAlloc(asid, vpn, Perm32(0, perm)), b);
  }

  lemma InsertTakesPages(s: Spaces, k: (nat, nat), p: nat, perm: Perm)
    requires Inv(s) && MayInsert(s, k, p) && k !in s.maps && ((k.0, Pdx(k.1)) in s.tables || s.free != [])
    ensures InsertDefined(s, k)
    ensures var (r, t) := Insert(s, k, p, perm);
      && r == 0 && t.maps == s.maps[k := Word(p, EntryFlags(perm))] && (k.0, Pdx(k.1)) in t.tables
      && |t.free| >= |s.free| - (if (k.0, Pdx(k.1)) in s.tables then 0 else 1)
  {
    hide Typed, CountsExact;
    if s.free != [] { HeadIsFree(s); }
  }

  /** A refill of a mapped page only loads its pair. */
  lemma RefillStep(a: Sys, asid: nat, vpn: nat) returns (b: Sys)
    requires Good(a) && asid in a.owner && vpn < UTOP && (a.owner[asid], vpn) in a.s.maps
    ensures Step(a, Refill(asid, vpn, {}), b) && Good(b)
    ensures b.s == a.s && b.owner == a.owner
    ensures b.tlb == (a.tlb - {(Vpn2(vpn), asid)} - {})[(Vpn2(vpn), asid) := LoadedPair(a.s, a.owner[asid], vpn)]
  {
    hide Typed, CountsExact, FreeListExact, Coherent;
    var x := (Vpn2(vpn), asid);
    b := a.(tlb := (a.tlb - {x} - {})[x := LoadedPair(a.s, a.owner[asid], vpn)]);
    MappedIsUser(a.s, (a.owner[asid], vpn));
    StepIsGoodIff(a, Refill(asid, vpn, {}), b);
  }

  lemma MappedIsUser(s: Spaces, k: (nat, nat))
    requires Inv(s) && k in s.maps && k.1 < UTOP
    ensures IsValid(Entry(s, k.0, k.1)) && Entry(s, k.0, k.1) == s.maps[k]
  {}

  lemma OwnersAreLive(a: Sys, asid: nat, other: nat)
    requires Good(a) && asid in a.owner && other in a.owner && asid != other
    ensures a.owner[asid] != BASE && a.owner[other] != BASE && a.owner[asid] != a.owner[other]
  {}

  lemma UserEntry(s: Spaces, e: nat, v: nat)
    requires v < UTOP
    ensures Entry(s, e, v) == PteWord(s, (e, v))
  {}

  lemma GlobalEntry(s: Spaces, e: nat, v: nat, p: nat)
    requires v < UTOP && (e, v) in s.maps && s.maps[(e, v)] == Word(p, EntryFlags(PTE_G))
    ensures LoGlobal(ToLo(Entry(s, e, v))) && LoValid(ToLo(Entry(s, e, v)))
  {
    UserEntry(s, e, v);
    assert (PTE_G as bv12) & PTE_G != 0;
    EntryFlagsAreValid(p, PTE_G);
    LoKeepsFlags(s.maps[(e, v)]);
  }

  lemma NoEntry(s: Spaces, e: nat, v: nat)
    requires v < UTOP && (e, v) !in s.maps
    ensures !LoValid(ToLo(Entry(s, e, v)))
  {
    UserEntry(s, e, v);
    ZeroIsInvalid();
    LoKeepsFlags(ZERO);
  }

  /** Once loaded, a global pair of one environment is hit by one that has no entry. */
  lemma GlobalPairIsHit(s: Spaces, e: nat, d: nat, vpn: nat, asid: nat, other: nat, p0: nat, p1: nat)
    requires vpn < UTOP && (d, vpn) !in s.maps
    requires (e, Even(vpn)) in s.maps && s.maps[(e, Even(vpn))] == Word(p0, EntryFlags(PTE_G))
    requires (e, Even(vpn) + 1) in s.maps && s.maps[(e, Even(vpn) + 1)] == Word(p1, EntryFlags(PTE_G))
    ensures var pair := LoadedPair(s, e, vpn);
      && Matches((Vpn2(vpn), asid), pair, other, vpn)
      && LoValid(Half(pair, vpn)) && Half(pair, vpn) != ToLo(Entry(s, d, vpn))
  {
    hide Entry, ToLo, EntryFlags, LoValid, LoGlobal;
    GlobalEntry(s, e, Even(vpn), p0);
    GlobalEntry(s, e, Even(vpn) + 1, p1);
    NoEntry(s, d, vpn);
  }

  /** An environment maps the two pages of a pair with PTE_G and touches one: another
      one that has nothing there now hits the first one's page. */
  lemma GlobalPairRun(a: Sys, asid: nat, other: nat, vpn: nat) returns (states: seq<Sys>, ops: seq<Op>)
    requires Good(a) && asid in a.owner && other in a.owner && other != asid && vpn < UTOP && |a.s.free| >= 3
    requires (a.owner[asid], Even(vpn)) !in a.s.maps && (a.owner[asid], Even(vpn) + 1) !in a.s.maps
    requires (a.owner[other], vpn) !in a.s.maps
    ensures Run(states, ops) && |ops| == 3 && states[0] == a
    ensures WrongHit(states[3], (Vpn2(vpn), asid), other, vpn)
  {
    hide Good, Step, EntryFlags, Matches, Miscounts, LoValid, LoadedPair, TlbOk;
    var v0, v1 := Even(vpn), Even(vpn) + 1;
    PairIsUser(vpn);
    OwnersAreLive(a, asid, other);
    var b := AllocStep(a, asid, v0, PTE_G);
    var c := AllocStep(b, asid, v1, PTE_G);
    var d := RefillStep(c, asid, vpn);
    states, ops := [a, b, c, d],
      [MemAlloc(asid, v0, Perm32(0, PTE_G)), MemAlloc(asid, v1, Perm32(0, PTE_G)), Refill(asid, vpn, {})];
    GlobalPairIsHit(c.s, a.owner[asid], a.owner[other], vpn, asid, other, a.s.free[0], b.s.free[0]);
  }

  lemma PairIsUser(vpn: nat)
    requires vpn < UTOP
    ensures var v0 := Even(vpn); Pdx(v0 + 1) == Pdx(v0) == Pdx(vpn) && v0 + 1 < UTOP && (vpn == v0 || vpn == v0 + 1)
  {
    SamePdx(vpn / 2);
    assert vpn == Even(vpn) + vpn % 2;
  }

  lemma SamePdx(h: nat)
    ensures Pdx(2 * h + 1) == Pdx(2 * h)
  {
    var q := 2 * h / 1024;
    assert 0 <= 2 * (h - 512 * q) < 1024;
    assert 2 * h + 1 == 1024 * q + (2 * (h - 512 * q) + 1);
  }

  // ----- page tables of the kernel half are neither freed nor flushed

  /** The first page of the UVPT window that shows the kernel half of the directory. */
  const KERNEL_VPT := UVPT + PDX_ULIM

  /** env_alloc goes through for a free slot and ASID while there is a page. */
  lemma EnvAllocStep(a: Sys, e: nat, asid: nat) returns (b: Sys)
    requires Good(a) && e !in a.s.dirs && e < NENV && asid !in a.owner && asid < NASID && a.s.free != []
    ensures Step(a, EnvAlloc(e, asid), b) && Good(b) && (TlbOk(a) ==> TlbOk(b))
    ensures b.s.maps == a.s.maps && b.s.tables == a.s.tables && b.s.free == a.s.free[1..] && e in b.s.dirs
    ensures b.tlb == a.tlb && b.owner == a.owner[asid := e]
    ensures forall k | k in b.s.maps || k in b.s.tables :: k.0 != e
  {
    hide CountsExact, FreeListExact, Coherent;
    HeadIsFree(a.s);
    b := Sys(AddDirectory(TakeFree(a.s), e, a.s.free[0]), a.tlb, a.owner[asid := e]);
    StepIsGoodIff(a, EnvAlloc(e, asid), b);
  }

  /** A program that reads vpt beyond ULIM is given a page table for the kernel half. */
  lemma KernelHalfStep(a: Sys, asid: nat) returns (b: Sys)
    requires Good(a) && asid in a.owner && (a.owner[asid], PDX_ULIM) !in a.s.tables && a.s.free != []
    ensures Step(a, Refill(asid, KERNEL_VPT, {}), b) && Good(b) && (TlbOk(a) ==> TlbOk(b))
    ensures b.owner == a.owner && b.s.maps == a.s.maps && b.s.dirs == a.s.dirs
    ensures b.s.tables == a.s.tables[(a.owner[asid], PDX_ULIM) := a.s.free[0]]
    ensures (a.owner[asid], PDX_ULIM) in KernelHalf(b.s, a.owner[asid])
    ensures ValidAt(b.tlb, KERNEL_VPT, asid)
  {
    hide CountsExact, FreeListExact, Coherent, Typed, LoadedPair;
    var e := a.owner[asid];
    HeadIsFree(a.s);
    var t := UseAsTable(TakeFree(a.s), (e, PDX_ULIM), a.s.free[0]);
    var x := (Vpn2(KERNEL_VPT), asid);
    b := Sys(t, (a.tlb - {x} - {})[x := LoadedPair(t, e, KERNEL_VPT)], a.owner);
    KernelHalfBacked(a.s, e);
    StepIsGoodIff(a, Refill(asid, KERNEL_VPT, {}), b);
  }

  /** The refill handler's table appears in the window, valid. */
  lemma KernelHalfBacked(s: Spaces, e: nat)
    requires Inv(s) && (e, PDX_ULIM) !in s.tables && s.free != [] && e != BASE
    ensures s.free[0] < |s.use| == |s.ref|
    ensures var t := UseAsTable(TakeFree(s), (e, PDX_ULIM), s.free[0]);
      Backed(s, e, KERNEL_VPT, t) && LoValid(Half(LoadedPair(t, e, KERNEL_VPT), KERNEL_VPT))
  {
    hide CountsExact, FreeListExact, Typed;
    HeadIsFree(s);
    ZeroIsInvalid();
    assert Pdx(KERNEL_VPT) == PDX_UVPT && Ptx(KERNEL_VPT) == PDX_ULIM && Even(KERNEL_VPT) == KERNEL_VPT;
    var t := UseAsTable(TakeFree(s), (e, PDX_ULIM), s.free[0]);
    EntryFlagsAreValid(s.free[0], 0);
    LoKeepsFlags(Entry(t, e, KERNEL_VPT));
  }

  /** env_free of an environment that has nothing but that table. */
  lemma EnvFreeStep(a: Sys, asid: nat) returns (b: Sys)
    requires Good(a) && asid in a.owner && (forall k | k in a.s.maps :: k.0 != a.owner[asid])
    requires forall k | k in a.s.tables && k.0 == a.owner[asid] :: k.1 == PDX_ULIM
    ensures Step(a, EnvFree(asid), b) && Good(b)
    ensures b.owner == a.owner - {asid} && b.s.free != [] && b.s.dirs == a.s.dirs - {a.owner[asid]}
    ensures b.tlb == a.tlb - {(Vpn2(UVPT + PDX_UVPT), asid)}
  {
    hide CountsExact, FreeListExact, Coherent, EnvFreed, Strand, DropDirectory, Typed;
    var e := a.owner[asid];
    NothingToFree(a.s, e);
    FreedAll(a.s, a.s, e);
    b := Sys(DropDirectory(Strand(a.s, e), e), a.tlb - {(Vpn2(UVPT + PDX_UVPT), asid)}, a.owner - {asid});
    StepIsGoodIff(a, EnvFree(asid), b);
  }

  lemma NothingToFree(s: Spaces, e: nat)
    requires |s.use| == |s.ref| && (forall k | k in s.maps :: k.0 != e)
    requires forall k | k in s.tables && k.0 == e :: k.1 == PDX_ULIM
    ensures FreedUpTo(s, s, e, PageNo(PDX_UTOP, 0), PDX_UTOP)
  {
    assert MapsBelow(s, e, PageNo(PDX_UTOP, 0)) == {} && TablesBelow(s, e, PDX_UTOP) == {};
    assert s.maps - {} == s.maps && s.tables - {} == s.tables;
  }

  /** An environment reads vpt beyond ULIM and is destroyed: the next one with its ASID
      hits a page table that it does not have; and the table's page is lost. */
  lemma StaleTableRun(a: Sys, e: nat, asid: nat) returns (states: seq<Sys>, ops: seq<Op>)
    requires Good(a) && e !in a.s.dirs && e < NENV && asid !in a.owner && asid < NASID && |a.s.free| >= 2
    ensures Run(states, ops) && |ops| == 4 && states[0] == a
    ensures ops == [EnvAlloc(e, asid), Refill(asid, KERNEL_VPT, {}), EnvFree(asid), EnvAlloc(e, asid)]
    ensures Leaves(states[2], ops[2], states[3])
    ensures WrongHit(states[4], (Vpn2(KERNEL_VPT), asid), asid, KERNEL_VPT)
    ensures !(forall p | 0 <= p < |states[2].s.ref| && HeldOnlyBy(states[2].s, e, p) :: p in states[3].s.free)
  {
    hide Good, Step, HeldOnlyBy, EnvFreed, Inv, Run, WrongHit, Leaves, TlbOk, KernelHalf;
    var b := EnvAllocStep(a, e, asid);
    var c := KernelHalfStep(b, asid);
    var d := EnvFreeStep(c, asid);
    var f := EnvAllocStep(d, e, asid);
    states, ops := [a, b, c, d, f], [EnvAlloc(e, asid), Refill(asid, KERNEL_VPT, {}), EnvFree(asid), EnvAlloc(e, asid)];
    FourSteps(states, ops);
    FreedStep(c, asid, d);
    TableIsLost(c.s, e, d.s);
    TableLeft(c, asid, d);
    LeftIsWrong(f, asid);
  }

  lemma TableIsLost(s: Spaces, e: nat, t: Spaces)
    requires Inv(s) && Inv(t) && EnvFreed(s, e, t) && KernelHalf(s, e) != {}
    ensures !(forall p | 0 <= p < |s.ref| && HeldOnlyBy(s, e, p) :: p in t.free)
  {
    hide Inv, EnvFreed, HeldOnlyBy, KernelHalf;
    LosesNothingIff(s, e, t);
  }

  lemma FreedStep(c: Sys, asid: nat, d: Sys)
    requires Step(c, EnvFree(asid), d) && Good(c) && Good(d)
    ensures asid in c.owner && EnvFreed(c.s, c.owner[asid], d.s) && Inv(c.s) && Inv(d.s)
  {
    hide EnvFreed, UserPartFlushed, Inv, Owners, RefsFit;
  }

  /** A half left under an ASID is a wrong hit of an owner without that table. */
  lemma LeftIsWrong(c: Sys, asid: nat)
    requires asid in c.owner && ValidAt(c.tlb, KERNEL_VPT, asid) && c.owner[asid] != BASE
    requires forall k | k in c.s.tables :: k.0 != c.owner[asid]
    ensures WrongHit(c, (Vpn2(KERNEL_VPT), asid), asid, KERNEL_VPT)
  {
    NoTableThere(c.s, c.owner[asid]);
  }

  lemma TableLeft(c: Sys, asid: nat, d: Sys)
    requires asid in c.owner && (c.owner[asid], PDX_ULIM) in c.s.tables && ValidAt(d.tlb, KERNEL_VPT, asid)
    ensures Leaves(c, EnvFree(asid), d)
  {
    assert (c.owner[asid], PDX_ULIM) in c.s.tables;
  }

  lemma FourSteps(states: seq<Sys>, ops: seq<Op>)
    requires |states| == 5 && |ops| == 4 && Step(states[0], ops[0], states[1]) && Step(states[1], ops[1], states[2])
    requires Step(states[2], ops[2], states[3]) && Step(states[3], ops[3], states[4])
    ensures Run(states, ops)
  {
    hide Step;
  }

  lemma NoTableThere(s: Spaces, e: nat)
    requires forall k | k in s.tables :: k.0 != e
    requires e != BASE
    ensures Entry(s, e, KERNEL_VPT) == ZERO && !LoValid(ToLo(ZERO))
  {
    assert Pdx(KERNEL_VPT) == PDX_UVPT && Ptx(KERNEL_VPT) == PDX_ULIM;
    LoKeepsFlags(ZERO);
    ZeroIsInvalid();
  }

  // ----- permissions are wide, and counts are not

  /** sys_mem_alloc with permission 0x1100 while an even page heads the free list: the
      entry names the page after it, and the counts are wrong. */
  lemma WidePermStep(a: Sys, asid: nat, vpn: nat) returns (b: Sys)
    requires Good(a) && asid in a.owner && vpn < UTOP && (a.owner[asid], vpn) !in a.s.maps
    requires |a.s.free| >= Pages(a.s, (a.owner[asid], vpn)) && a.s.free[0] % 2 == 0
    ensures Step(a, MemAlloc(asid, vpn, Perm32(1, PTE_D)), b)
    ensures (a.owner[asid], vpn) in b.s.maps && b.s.maps[(a.owner[asid], vpn)].ppn == a.s.free[0] + 1
    ensures |b.s.use| == |b.s.ref| && !CountsExact(b.s) && !Good(b)
  {
    hide Typed, CountsExact, FreeListExact, RefCount, OrPage, Insert;
    var k, p := (a.owner[asid], vpn), a.s.free[0];
    HeadIsFree(a.s);
    TakeFreeKeepsInv(a.s);
    EvenPageChanges(p);
    WidePermIff(TakeFree(a.s), k, p, Perm32(1, PTE_D));
    InsertIsFlat(TakeFree(a.s), k, p, PTE_D);
    b := Sys(InsertWide(TakeFree(a.s), k, p, Perm32(1, PTE_D)).1, a.tlb - {(Vpn2(vpn), asid)}, a.owner);
    InexactIsBad(b.s);
  }

  /** sys_mem_map of a page that has 65535 references, where a page table is and nothing is
      mapped: the count is 0 afterwards, with 65536 entries that refer to the page. */
  lemma CountWrapsStep(a: Sys, asid: nat, vpn: nat, page: nat, perm: Perm) returns (b: Sys)
    requires Good(a) && asid in a.owner && vpn < UTOP && (a.owner[asid], Pdx(vpn)) in a.s.tables
    requires (a.owner[asid], vpn) !in a.s.maps && page < |a.s.ref| && a.s.use[page].Data?
    requires a.s.ref[page] == MAX_REF && page !in a.s.pinned
    ensures Step(a, MemMap(asid, vpn, page, Perm32(0, perm)), b)
    ensures page < |b.s.ref| && b.s.ref[page] == 0 && RefCount(b.s, page) == 0x1_0000 && !Good(b)
  {
    hide Inv, OrPage, PutWide, Coherent, CountsExact, RefCount;
    var k := (a.owner[asid], vpn);
    ClearBitsKeepPages(0);
    MayMapData(a, k, page);
    b := Sys(PutWide(a.s, k, page, Perm32(0, perm)), a.tlb - {(Vpn2(vpn), asid)}, a.owner);
    CountAfterWrap(a.s, k, page, perm);
    InexactIsBad(b.s);
  }

  lemma CountAfterWrap(s: Spaces, k: (nat, nat), page: nat, perm: Perm)
    requires Inv(s) && k !in s.maps && page < |s.ref| && s.ref[page] == MAX_REF && page !in s.pinned
    ensures var t := PutWide(s, k, page, Perm32(0, perm));
      && |t.use| == |t.ref| == |s.ref| && t.ref[page] == 0 && RefCount(t, page) == 0x1_0000
      && t.pinned == s.pinned && !CountsExact(t)
  {
    hide Typed, FreeListExact;
    assert OrPage(page, 0) == page;
    MapsToPut(s.maps, k, StoredWord(page, Perm32(0, perm)), page);
    assert s.ref[page] == RefCount(s, page);
    PutWideIff(s, k, page, Perm32(0, perm));
  }

  lemma MayMapData(a: Sys, k: (nat, nat), page: nat)
    requires Good(a) && (k.0, Pdx(k.1)) in a.s.tables && k.1 < UTOP && page < |a.s.ref| && a.s.use[page].Data?
    requires k !in a.s.maps
    ensures MayInsert(a.s, k, page) && InsertDefined(a.s, k)
  {
    hide CountsExact;
    if a.s.free != [] { HeadIsFree(a.s); }
  }
}
