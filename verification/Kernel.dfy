/** Physical pages, page tables and the TLB as the kernel keeps them: words in
    memory, changed in place (kern/pmap.c, kern/tlbex.c, kern/env.c).  Every
    method is proved against the flat address spaces of module AddressSpaces,
    which the ghost field `spec` carries along. */
module Kernels {
  import opened Mmu
  import opened AddressSpaces
  import opened EnvRelease
  import opened Translation
  import opened PageTables
  import opened KernelRuns

  const E_INVAL := 3
  const E_NO_FREE_ENV := 6
  const NO_PERM := Perm32(0, 0)

  /** The address of a page-table entry: a word in a physical page. */
  datatype PteRef = Null | At(page: nat, index: nat)

  /** Live environments have distinct ASIDs, the bitmap marks those, and the other
      environments are on the free list. */
  ghost predicate AsidTable(live: set<nat>, envAsid: map<nat, nat>, bitmap: seq<bool>, envFree: seq<nat>, owner: map<nat, nat>) {
    && envAsid.Keys == live
    && |bitmap| == NASID
    && (forall e | e in envAsid :: envAsid[e] in owner && owner[envAsid[e]] == e)
    && (forall a | a in owner :: owner[a] in envAsid && envAsid[owner[a]] == a)
    && (forall a | 0 <= a < NASID :: bitmap[a] <==> a in owner)
    && (forall a | a in owner :: a < NASID)
    && NoDup(envFree)
    && (forall e | e in envFree :: e < NENV && e !in envAsid)
    && (forall e | 0 <= e < NENV :: e in envFree || e in envAsid)
  }

  lemma AsidTaken(live: set<nat>, envAsid: map<nat, nat>, bitmap: seq<bool>, envFree: seq<nat>, owner: map<nat, nat>, a: nat)
    requires AsidTable(live, envAsid, bitmap, envFree, owner) && envFree != []
    requires a < NASID && !bitmap[a]
    ensures var e := envFree[0];
      && a !in owner && e !in live && (forall b | b in owner :: owner[b] != e)
      && AsidTable(live + {e}, envAsid[e := a], bitmap[a := true], envFree[1..], owner[a := e])
  {
    NoDupTail(envFree);
    assert envFree[0] in envFree;
  }

  lemma AsidReturned(live: set<nat>, envAsid: map<nat, nat>, bitmap: seq<bool>, envFree: seq<nat>, owner: map<nat, nat>, e: nat)
    requires AsidTable(live, envAsid, bitmap, envFree, owner) && e in live && e < NENV
    ensures e in envAsid && envAsid[e] < NASID
    ensures AsidTable(live - {e}, envAsid - {e}, bitmap[envAsid[e] := false], [e] + envFree, owner - {envAsid[e]})
  {
    var q := [e] + envFree;
    forall i, j | 0 <= i < j < |q| ensures q[i] != q[j] {
      assert q[j] == envFree[j - 1] && envFree[j - 1] in envFree;
      assert i > 0 ==> q[i] == envFree[i - 1];
    }
    assert forall x :: x in q <==> x == e || x in envFree;
  }

  lemma AsidsAreOwned(live: set<nat>, envAsid: map<nat, nat>, bitmap: seq<bool>, envFree: seq<nat>, owner: map<nat, nat>, e: nat)
    requires AsidTable(live, envAsid, bitmap, envFree, owner)
    ensures e in live <==> e in envAsid
    ensures e in live ==> envAsid[e] in owner && owner[envAsid[e]] == e && (forall a | a in owner && owner[a] == e :: a == envAsid[e])
    ensures e in live ==> envAsid[e] < NASID
    ensures |bitmap| == NASID && forall a | 0 <= a < NASID :: bitmap[a] <==> a in owner
    ensures envFree != [] ==> envFree[0] < NENV && envFree[0] !in live
    ensures e !in live ==> forall a | a in owner :: owner[a] != e
  {
    if envFree != [] { assert envFree[0] in envFree; }
  }

  /** sys_mem_alloc went as far as page_insert. */
  ghost predicate AllocDone(a: Sys, b: Sys, asid: nat, e: nat, vpn: nat, perm: Perm32, r: int) {
    && a.s.free != [] && a.s.free[0] < |a.s.use| == |a.s.ref|
    && InsertDefined(TakeFree(a.s), (e, vpn))
    && (r, b.s) == InsertWide(TakeFree(a.s), (e, vpn), a.s.free[0], perm)
    && Step(a, MemAlloc(asid, vpn, perm), b)
  }

  /** So did sys_mem_map, for the page at k. */
  ghost predicate MapDone(a: Sys, b: Sys, k: (nat, nat), asid: nat, e: nat, vpn: nat, perm: Perm32, r: int) {
    && k in a.s.maps && a.s.maps[k].ppn < |a.s.ref|
    && InsertDefined(a.s, (e, vpn))
    && (r, b.s) == InsertWide(a.s, (e, vpn), a.s.maps[k].ppn, perm)
    && Step(a, MemMap(asid, vpn, a.s.maps[k].ppn, perm), b)
  }

  lemma NoFlags()
    ensures PTE_D & PTE_G == 0 && PTE_D & PTE_D != 0 && PTE_G & PTE_D == 0 && PTE_G & PTE_G != 0
    ensures NO_PERM.low & PTE_D == 0 && NO_PERM.low & PTE_G == 0
  {}

  /** The window of count pages at vpn shows pages from pa on, to everybody and read-only. */
  ghost predicate IsWindow(s: Spaces, vpn: nat, pa: nat, count: nat) {
    forall v | vpn <= v < vpn + count ::
      && (BASE, v) in s.maps && s.maps[(BASE, v)].ppn == pa + v - vpn
      && IsGlobal(s.maps[(BASE, v)]) && !IsWritable(s.maps[(BASE, v)])
  }

  lemma WindowIsSet(s: Spaces, vpn: nat, pa: nat, count: nat)
    requires forall v | vpn <= v < vpn + count ::
      (BASE, v) in s.maps && s.maps[(BASE, v)] == Word(pa + v - vpn, EntryFlags(PTE_G))
    ensures IsWindow(s, vpn, pa, count)
  {
    hide EntryFlags, IsGlobal, IsWritable;
    forall v | vpn <= v < vpn + count
      ensures IsGlobal(s.maps[(BASE, v)]) && !IsWritable(s.maps[(BASE, v)])
    {
      EntryFlagsAreValid(pa + v - vpn, PTE_G);
      NoFlags();
    }
  }

  lemma WindowStays(s: Spaces, t: Spaces, vpn: nat, pa: nat, count: nat)
    requires IsWindow(s, vpn, pa, count) && forall j | j in s.maps :: j in t.maps && t.maps[j] == s.maps[j]
    ensures IsWindow(t, vpn, pa, count)
  {
    hide IsGlobal, IsWritable;
  }

  lemma HeldPageKept(mem: Memory, mem': Memory, s: Spaces, p: nat)
    requires DataKept(mem, mem', s) && |s.use| == |s.ref| && HeldPage(s, p)
    ensures p < |mem| == |mem'| && mem'[p] == mem[p]
  {}

  /** The kernel's own permissions fit. */
  lemma NoBitsFit(s: Spaces, k: (nat, nat), p: nat, perm: Perm)
    ensures p < |s.ref| && s.ref[p] < MAX_REF ==> Fits(s, k, p, Perm32(0, perm))
  {}

  /** What an insertion leaves of the invariant. */
  lemma FitsIff(s: Spaces, k: (nat, nat), p: nat, perm: Perm32)
    requires Inv(s) && MayInsert(s, k, p) && s.ref[p] <= MAX_REF
    ensures InsertDefined(s, k)
    ensures var (r, t) := InsertWide(s, k, p, perm);
      && r == Insert(s, k, p, perm.low).0 && |t.use| == |t.ref| && (r == 0 || r == -E_NO_MEM)
      && (Fits(s, k, p, perm) ==> (r, t) == Insert(s, k, p, perm.low))
      && (r != 0 ==> t == Insert(s, k, p, perm.low).1)
      && (Inv(t) <==> r != 0 || Fits(s, k, p, perm))
  {
    hide Typed, CountsExact, FreeListExact, RefCount, Fits, Insert, InsertWide;
    WidePermIff(s, k, p, perm);
    InsertIsFlat(s, k, p, perm.low);
    InsertKeepsInv(s, k, p, perm.low);
  }

  /** The two loops of page_init. */
  method PageInit(used: nat, npage: nat) returns (pp_ref: seq<nat>, list: seq<nat>)
    requires used < npage
    ensures |pp_ref| == npage && (forall p | 0 <= p < npage :: pp_ref[p] == if p < used then 1 else 0)
    ensures list == FreeRange(used, npage)
  {
    pp_ref, list := [], [];
    for i := 0 to used
      invariant |pp_ref| == i && forall p | 0 <= p < i :: pp_ref[p] == 1
    {
      pp_ref := pp_ref + [1];
    }
    for i := used to npage
      invariant |pp_ref| == i && list == FreeRange(used, i)
      invariant forall p | 0 <= p < i :: pp_ref[p] == if p < used then 1 else 0
    {
      pp_ref := pp_ref + [0];
      list := [i] + list;
    }
  }

  class Kernel {
    var mem: Memory                 // physical memory, page by page
    var ref: seq<nat>               // pages[i].pp_ref
    var free: seq<nat>              // page_free_list
    var pgdir: map<nat, nat>        // envs[i].env_pgdir of live environments, and base_pgdir
    var envAsid: map<nat, nat>      // envs[i].env_asid of live environments
    var asidBitmap: seq<bool>
    var envFree: seq<nat>           // env_free_list
    var tlb: Tlb
    ghost var spec: Spaces
    ghost var owner: map<nat, nat>  // the live environment of an ASID

    /** The fields and the words in memory are those of the flat map. */
    ghost predicate Mirrors()
      reads this
    {
      && pgdir == spec.dirs && ref == spec.ref && free == spec.free
      && |mem| == |ref| == |spec.use| <= MAX_PAGES && Stored(mem, spec)
    }

    ghost predicate SpacesValid()
      reads this
    {
      Mirrors() && Inv(spec)
    }

    ghost predicate AsidsValid()
      reads this
    {
      BASE in pgdir && AsidTable(pgdir.Keys - {BASE}, envAsid, asidBitmap, envFree, owner)
    }

    ghost predicate Valid()
      reads this
    {
      SpacesValid() && AsidsValid()
    }

    /** What whole runs are about. */
    ghost function State(): Sys
      reads this
    { Sys(spec, tlb, owner) }

    /** page_init and the template directory of env_init.  Pages below `used` hold
        the kernel; the others go on the free list, the last one first. */
    constructor (memory: Memory, used: nat)
      requires used < |memory| <= MAX_PAGES
      ensures SpacesValid() && pgdir.Keys == {BASE} && envAsid == map[] && owner == map[]
      ensures |ref| == |memory| && |free| == |memory| - used - 1
      ensures forall p | 0 <= p < used :: spec.use[p] == Boot && ref[p] == 1
      ensures spec.maps == map[] && RefsFit(spec)
      ensures tlb == map[] && |asidBitmap| == NASID && (forall a | 0 <= a < NASID :: !asidBitmap[a])
      ensures envFree == seq(NENV, i => i)
    {
      var pp_ref, list := PageInit(used, |memory|);
      var p := list[0];
      ref := pp_ref[p := 1];
      free := list[1..];
      mem := memory[p := ZERO_PAGE];
      pgdir := map[BASE := p];
      envAsid, tlb := map[], map[];
      asidBitmap := seq(NASID, _ => false);
      envFree := seq(NENV, i => i);
      spec := BootSpaces(used, |memory|);
      owner := map[];
      new;
      BootIsValid(used, |memory|);
      BootIsStored(mem, used, |memory|);
    }

    /** page_alloc */
    method PageAlloc() returns (r: int, p: nat)
      requires SpacesValid()
      modifies this`mem, this`free, this`spec
      ensures SpacesValid()
      ensures old(free) == [] ==> r == -E_NO_MEM && unchanged(this)
      ensures old(free) != [] ==> old(free)[0] < |old(spec).use|
      ensures old(free) != [] ==>
        && r == 0 && p == old(free)[0]
        && spec == TakeFree(old(spec)) && mem == old(mem)[p := ZERO_PAGE]
      ensures old(free) != [] ==> HeldPage(spec, p)
      ensures DataKept(old(mem), mem, old(spec))
    {
      hide Typed, CountsExact, FreeListExact, Stored;
      if free == [] {
        return -E_NO_MEM, 0;
      }
      HeadIsFree(spec);
      TakeFreeKeepsInv(spec);
      p := free[0];
      OtherPagesDoNotMatter(mem, spec, p, ZERO_PAGE);
      StoredIgnoresCounts(mem[p := ZERO_PAGE], spec, TakeFree(spec));
      free := free[1..];
      mem := mem[p := ZERO_PAGE];
      spec := TakeFree(spec);
      r := 0;
    }

    /** page_decref: drop a reference; the page goes back to the head of the
        free list when it was the last one. */
    method PageDecref(p: nat)
      requires p < |ref| && ref[p] > 0
      modifies this`ref, this`free
      ensures ref == old(ref)[p := old(ref)[p] - 1]
      ensures free == if old(ref)[p] == 1 then [p] + old(free) else old(free)
    {
      ref := ref[p := ref[p] - 1];
      if ref[p] == 0 {
        free := [p] + free;
      }
    }

    /** The slot that stands behind directory entry pdx of e. */
    function Slot(e: nat, pdx: nat): (nat, nat) {
      if PDX_UTOP <= pdx < PDX_UVPT then (BASE, pdx) else (e, pdx)
    }

    /** Where the entry of page vpn lives in memory. */
    ghost predicate PteOf(pte: PteRef, e: nat, vpn: nat)
      reads this
    {
      && pte.At? && pte.index == Ptx(vpn) && pte.page < |mem| && |mem[pte.page]| == ENTRIES
      && mem[pte.page][pte.index] == Entry(spec, e, vpn)
      && TablePage(spec, e, Pdx(vpn), pte.page)
    }

    /** pgdir_walk: find the entry of page vpn, making a page table for it when
        `create` is set. */
    method PgdirWalk(e: nat, vpn: nat, create: bool) returns (r: int, pte: PteRef)
      requires SpacesValid() && e in pgdir && vpn < 0x10_0000
      requires e == BASE ==> Pdx(vpn) != PDX_UVPT && pgdir.Keys == {BASE}
      requires create && Pdx(vpn) != PDX_UVPT ==> TableSlot(e, Pdx(vpn))
      modifies this`mem, this`ref, this`free, this`spec
      ensures SpacesValid()
      ensures r == 0 || r == -E_NO_MEM
      ensures !create ==> r == 0
      ensures !create || r != 0 ==> unchanged(this)
      ensures r != 0 ==> Pdx(vpn) != PDX_UVPT
      ensures r != 0 ==> free == [] && Slot(e, Pdx(vpn)) !in spec.tables && Entry(spec, e, vpn) == ZERO
      ensures r == 0 && pte.Null? ==>
        !create && Entry(spec, e, vpn) == ZERO && Pdx(vpn) != PDX_UVPT && Slot(e, Pdx(vpn)) !in spec.tables
      ensures r == 0 && pte.At? ==> PteOf(pte, e, vpn)
      ensures r == 0 && create && !(Pdx(vpn) == PDX_UVPT || Slot(e, Pdx(vpn)) in old(spec).tables) ==>
        old(free) != [] && old(free)[0] < |old(spec).use| && spec == AddTable(old(spec), (e, Pdx(vpn)))
      ensures Pdx(vpn) == PDX_UVPT || Slot(e, Pdx(vpn)) in old(spec).tables ==> unchanged(this)
      ensures DataKept(old(mem), mem, old(spec))
    {
      hide Inv, Stored, PteWord, EntryFlags;
      WalkFindsEntry(mem, spec, e, vpn);
      DirectoryIsWhole(mem, spec, e);
      pte := Null;
      var pde := mem[pgdir[e]][Pdx(vpn)];
      EntryFlagsAreValid(pde.ppn, 0);
      if !IsValid(pde) {
        if !create {
          return 0, Null;
        }
        var p;
        r, p := PageAlloc();
        if r != 0 {
          return -E_NO_MEM, Null;
        }
        CreateTable(e, Pdx(vpn), p);
        EntryFlagsAreValid(p, 0);
        WalkFindsEntry(mem, spec, e, vpn);
        DirectoryIsWhole(mem, spec, e);
        return 0, At(p, Ptx(vpn));
      }
      TableIsWhole(mem, spec, e, Pdx(vpn));
      return 0, At(pde.ppn, Ptx(vpn));
    }

    /** The two assignments that make the zeroed page p a page table. */
    method CreateTable(e: nat, pdx: nat, p: nat)
      requires SpacesValid() && e in pgdir && TableSlot(e, pdx) && (e, pdx) !in spec.tables
      requires e == BASE ==> pgdir.Keys == {BASE}
      requires HeldPage(spec, p) && mem[p] == ZERO_PAGE
      modifies this`mem, this`ref, this`spec
      ensures SpacesValid() && spec == UseAsTable(old(spec), (e, pdx), p)
      ensures DataKept(old(mem), mem, old(spec))
    {
      hide Typed, CountsExact, FreeListExact, Stored;
      PokeNewTable(mem, spec, UseAsTable(spec, (e, pdx), p), (e, pdx), p);
      UseAsTableKeepsInv(spec, (e, pdx), p);
      DirectoryIsWhole(mem, spec, e);
      ref := ref[p := ref[p] + 1];
      mem := Poke(mem, pgdir[e], pdx, Word(p, EntryFlags(0)));
      spec := UseAsTable(spec, (e, pdx), p);
    }

    /** page_lookup: the page mapped at vpn and the place of its entry. */
    method PageLookup(e: nat, vpn: nat) returns (found: bool, pp: nat, pte: PteRef)
      requires SpacesValid() && e in pgdir && vpn < 0x10_0000
      requires e == BASE ==> Pdx(vpn) != PDX_UVPT && pgdir.Keys == {BASE}
      modifies this`mem, this`ref, this`free, this`spec
      ensures unchanged(this)
      ensures found <==> IsValid(Entry(spec, e, vpn))
      ensures found ==> PteOf(pte, e, vpn) && pp == Entry(spec, e, vpn).ppn
    {
      hide Inv, Stored, Entry, PteWord;
      var r;
      r, pte := PgdirWalk(e, vpn, false);
      ZeroIsInvalid();
      if pte.Null? || !IsValid(mem[pte.page][pte.index]) {
        return false, 0, Null;
      }
      return true, mem[pte.page][pte.index].ppn, pte;
    }

    /** tlb_invalidate: drop the entry for the page pair of vpn. */
    method TlbInvalidate(asid: nat, vpn: nat)
      modifies this`tlb
      ensures tlb == old(tlb) - {(Vpn2(vpn), asid)}
    {
      tlb := tlb - {(Vpn2(vpn), asid)};
    }

    /** page_remove */
    method PageRemove(e: nat, asid: nat, vpn: nat)
      requires SpacesValid() && e in pgdir && e != BASE && TableSlot(e, Pdx(vpn)) && vpn < UVPT
      modifies this`mem, this`ref, this`free, this`spec, this`tlb
      ensures SpacesValid() && OnlyTablesChange(old(mem), mem, old(spec))
      ensures (e, vpn) !in old(spec).maps ==> unchanged(this)
      ensures (e, vpn) in old(spec).maps ==>
        var k := (e, vpn);
        && old(spec).maps[k].ppn < |old(spec).ref| && old(spec).ref[old(spec).maps[k].ppn] > 0
        && spec == Unmap(old(spec), k) && tlb == old(tlb) - {(Vpn2(vpn), asid)}
    {
      hide Typed, CountsExact, FreeListExact, Stored;
      var found, pp, pte := PageLookup(e, vpn);
      ZeroIsInvalid();
      var k := (e, vpn);
      if !found {
        MappedIsValid(spec, k);
        return;
      }
      MappedIsCounted(spec, k);
      UnmapKeepsInv(spec, k);
      PokeTable(mem, spec, Unmap(spec, k), k);
      TablePageIsTyped(spec, k);
      PageDecref(pp);
      mem := Poke(mem, pte.page, pte.index, ZERO);
      spec := Unmap(spec, k);
      TlbInvalidate(asid, vpn);
    }

    /** What page_insert asks of its caller.  At a user address (or, at boot, in a
        window of the template) the page is mapped there; the refill handler also
        calls it inside the UVPT window, where a zeroed page becomes a page table. */
    ghost predicate MayPageInsert(e: nat, pp: nat, vpn: nat, perm: Perm32)
      reads this
      requires |spec.use| == |spec.ref|
    {
      if Pdx(vpn) == PDX_UVPT then
        && e in pgdir && e != BASE && TableSlot(e, Ptx(vpn)) && (e, Ptx(vpn)) !in spec.tables
        && HeldPage(spec, pp) && pp < |mem| && mem[pp] == ZERO_PAGE && perm == NO_PERM
      else
        && MayInsert(spec, (e, vpn), pp) && spec.ref[pp] <= MAX_REF
        && (e == BASE ==> pgdir.Keys == {BASE} && (e, vpn) !in spec.maps)
    }

    /** page_insert, whatever the permission and the count; the counts are exact
        afterwards exactly when both fit. */
    method PageInsert(e: nat, asid: nat, pp: nat, vpn: nat, perm: Perm32) returns (r: int)
      requires SpacesValid() && vpn < 0x10_0000 && MayPageInsert(e, pp, vpn, perm)
      modifies this`mem, this`ref, this`free, this`spec, this`tlb
      ensures Mirrors() && DataKept(old(mem), mem, old(spec))
      ensures Pdx(vpn) != PDX_UVPT ==>
        && InsertDefined(old(spec), (e, vpn)) && pp < |old(spec).ref|
        && (r, spec) == InsertWide(old(spec), (e, vpn), pp, perm)
        && (Fits(old(spec), (e, vpn), pp, perm) ==> (r, spec) == Insert(old(spec), (e, vpn), pp, perm.low))
        && (SpacesValid() <==> r != 0 || Fits(old(spec), (e, vpn), pp, perm))
      ensures Pdx(vpn) == PDX_UVPT ==> SpacesValid() && r == 0 && spec == UseAsTable(old(spec), (e, Ptx(vpn)), pp)
      ensures tlb == old(tlb) - {(Vpn2(vpn), asid)}
    {
      hide Typed, CountsExact, FreeListExact, Stored, DataKept, OnlyTablesChange, StoredWord, Fits, Insert, PutWide;
      var k := (e, vpn);
      ZeroIsInvalid();
      if Pdx(vpn) != PDX_UVPT { FitsIff(spec, k, pp, perm); }
      MappedIsValid(spec, k);
      var pte;
      r, pte := PgdirWalk(e, vpn, false);
      if pte.At? && IsValid(mem[pte.page][pte.index]) {
        MappedIsCounted(spec, k);
        if mem[pte.page][pte.index].ppn != pp {
          PageRemove(e, asid, vpn);
          OnlyTablesKeepsData(old(mem), mem, old(spec));
        } else {
          TlbInvalidate(asid, vpn);
          ReplaceEntry(k, pte, pp, perm);
          OnlyTablesKeepsData(old(mem), mem, old(spec));
          return 0;
        }
      }
      TlbInvalidate(asid, vpn);
      r, pte := PgdirWalk(e, vpn, true);
      if r != 0 {
        return -E_NO_MEM;
      }
      if Pdx(vpn) == PDX_UVPT {
        CreateTable(e, Ptx(vpn), pp);   // the same count and word, seen as a page table
      } else {
        PutReady(k, pte, pp, perm, old(mem), old(spec));
      }
      return 0;
    }

    /** The page is mapped at k already: rewrite its permission. */
    method ReplaceEntry(k: (nat, nat), pte: PteRef, pp: nat, perm: Perm32)
      requires SpacesValid() && k in spec.maps && PteOf(pte, k.0, k.1) && Slot(k.0, Pdx(k.1)) == (k.0, Pdx(k.1))
      requires k.0 != BASE && Pdx(k.1) != PDX_UVPT
      requires pp == spec.maps[k].ppn
      modifies this`mem, this`spec
      ensures Mirrors() && OnlyTablesChange(old(mem), mem, old(spec))
      ensures spec == old(spec).(maps := old(spec).maps[k := StoredWord(pp, perm)])
    {
      hide Typed, CountsExact, FreeListExact, Stored, StoredWord;
      ghost var t := spec.(maps := spec.maps[k := StoredWord(pp, perm)]);
      TablePageIsTyped(spec, k);
      PokeTable(mem, spec, t, k);
      mem := Poke(mem, pte.page, pte.index, StoredWord(pp, perm));
      spec := t;
    }

    /** The end of page_insert: count the page and write the entry. */
    method PutEntry(k: (nat, nat), pte: PteRef, pp: nat, perm: Perm32)
      requires SpacesValid() && k !in spec.maps && PteOf(pte, k.0, k.1) && Slot(k.0, Pdx(k.1)) == (k.0, Pdx(k.1))
      requires MayInsert(spec, k, pp) && Pdx(k.1) != PDX_UVPT
      modifies this`mem, this`ref, this`spec
      ensures Mirrors() && OnlyTablesChange(old(mem), mem, old(spec))
      ensures spec == PutWide(old(spec), k, pp, perm)
    {
      hide Typed, CountsExact, FreeListExact, Stored, StoredWord;
      TablePageIsTyped(spec, k);
      PokeTable(mem, spec, PutWide(spec, k, pp, perm), k);
      ref := ref[pp := (ref[pp] + 1) % 0x1_0000];
      mem := Poke(mem, pte.page, pte.index, StoredWord(pp, perm));
      spec := PutWide(spec, k, pp, perm);
    }

    /** PutEntry after the removal or the walk that made room, from s0 and mem0. */
    method PutReady(k: (nat, nat), pte: PteRef, pp: nat, perm: Perm32, ghost mem0: Memory, ghost s0: Spaces)
      requires SpacesValid() && PteOf(pte, k.0, k.1) && Slot(k.0, Pdx(k.1)) == (k.0, Pdx(k.1)) && Pdx(k.1) != PDX_UVPT
      requires Inv(s0) && MayInsert(s0, k, pp) && InsertDefined(s0, k) && ReadyToPut(s0, spec, k, pp)
      requires k !in spec.maps && |spec.use| == |s0.use| && DataKept(mem0, mem, s0)
      modifies this`mem, this`ref, this`spec
      ensures Mirrors() && DataKept(mem0, mem, s0) && spec == PutWide(old(spec), k, pp, perm)
    {
      hide Inv, Stored, DataKept, OnlyTablesChange, ReadyToPut, InsertDefined;
      MayInsertStays(s0, spec, k, pp);
      PutEntry(k, pte, pp, perm);
      DataStaysNoTable(s0, old(spec), k, pp);
      DataKeptThrough(mem0, old(mem), mem, s0, old(spec));
    }

    /** Live environments and the windows set up at boot. */
    ghost predicate Running(e: nat)
      reads this
    {
      Valid() && e in envAsid && (BASE, PDX_UTOP) in spec.tables && (BASE, PDX_UTOP + 1) in spec.tables
    }

    /** The addresses at which passive_alloc panics: all but the user's, without the page
        above the stack, and those of the page tables. */
    predicate Forbidden(vpn: nat): (r: bool)
      ensures r <==> !(0x3fe <= vpn < 0x7f3fe || 0x7f3ff <= vpn < 0x7f400 || 0x7fc00 <= vpn < 0x8_0000)
    {
      vpn < UTEMP || vpn == USTACKTOP || UTOP <= vpn < UVPT || ULIM <= vpn
    }

    /** passive_alloc: back an unmapped page on first touch; false is a panic. */
    method PassiveAlloc(vpn: nat, e: nat, asid: nat) returns (ok: bool)
      requires Running(e) && asid == envAsid[e] && vpn < 0x10_0000 && !IsValid(Entry(spec, e, vpn))
      modifies this`mem, this`ref, this`free, this`spec, this`tlb
      ensures ok ==> 0x3fe <= vpn < 0x7f3fe || vpn == 0x7f3ff || 0x7fc00 <= vpn < 0x80000
      ensures ok ==> Running(e) && DataKept(old(mem), mem, old(spec))
      ensures ok ==> IsValid(Entry(spec, e, vpn)) && KeepsEntries(old(spec), spec, e, vpn)
      ensures ok ==> tlb == old(tlb) - {(Vpn2(vpn), asid)} && Backed(old(spec), e, vpn, spec)
      ensures ok ==>
        && old(free) != [] && Entry(spec, e, vpn).ppn == old(free)[0] && !IsGlobal(Entry(spec, e, vpn))
        && (IsWritable(Entry(spec, e, vpn)) <==> vpn < 0x7f400)
        && (vpn < 0x7f400 ==> old(free)[0] < |mem| && mem[old(free)[0]] == ZERO_PAGE)
      ensures !ok && (0x3fe <= vpn < 0x7f3fe || vpn == 0x7f3ff || 0x7fc00 <= vpn < 0x80000) ==> |old(free)| < 2
    {
      hide Typed, CountsExact, FreeListExact, Stored, DataKept, OrPage;
      if Forbidden(vpn) {
        return false;
      }
      UnmappedSlot(spec, e, vpn);
      ghost var s := spec;
      var r, p := PageAlloc();
      if r != 0 {
        return false;
      }
      SameSpacesKeepEntries(s, spec, e, vpn);
      var perm := if UVPT <= vpn < ULIM then NO_PERM else Perm32(0, PTE_D);
      NoBitsFit(spec, (e, vpn), p, perm.low);
      PassiveInsertKeepsEntries(spec, e, p, vpn);
      ghost var s', mem' := spec, mem;
      r := PageInsert(e, asid, p, vpn, perm);
      DataKeptAfterAlloc(old(mem), mem', mem, s, s');
      HeldPageKept(mem', mem, s', p);
      ok := r == 0;
      EntryFlagsAreValid(p, perm.low);
      NoFlags();
    }

    ghost predicate TlbCoherent()
      reads this
    {
      Coherent(tlb, spec, owner)
    }

    /** The loop of _do_tlb_refill: look the page up, and back it with a new page
        as long as it is missing; false is a panic. */
    method LookupOrAlloc(vpn: nat, e: nat, asid: nat) returns (ok: bool, pte: PteRef)
      requires Running(e) && asid == envAsid[e] && vpn < 0x10_0000 && (Vpn2(vpn), asid) !in tlb
      modifies this`mem, this`ref, this`free, this`spec, this`tlb
      ensures ok ==> Running(e) && DataKept(old(mem), mem, old(spec)) && tlb == old(tlb)
      ensures ok ==> IsValid(Entry(spec, e, vpn)) && KeepsEntries(old(spec), spec, e, vpn)
      ensures ok ==> pte.At? && pte.index == Ptx(vpn) && TablePage(spec, e, Pdx(vpn), pte.page)
      ensures ok ==> Backed(old(spec), e, vpn, spec)
      ensures IsValid(Entry(old(spec), e, vpn)) ==> ok && spec == old(spec)
      ensures !ok && !Forbidden(vpn) ==> |old(free)| < 2
    {
      hide Inv, Stored, DataKept, KeepsEntries, Entry, TablePage, Backed;
      SameSpacesKeepEntries(spec, spec, e, vpn);
      BackedAlready(spec, e, vpn);
      DataKeptRefl(mem, spec);
      var found, pp;
      found, pp, pte := PageLookup(e, vpn);
      while !found
        invariant Running(e) && DataKept(old(mem), mem, old(spec)) && tlb == old(tlb)
        invariant found ==> IsValid(Entry(spec, e, vpn)) && KeepsEntries(old(spec), spec, e, vpn)
        invariant found ==> Backed(old(spec), e, vpn, spec)
        invariant !found ==> !IsValid(Entry(spec, e, vpn)) && spec == old(spec) && mem == old(mem)
        invariant found ==> PteOf(pte, e, vpn)
        invariant IsValid(Entry(old(spec), e, vpn)) ==> spec == old(spec)
        invariant free == old(free) || found
        decreases !found
      {
        ok := PassiveAlloc(vpn, e, asid);
        if !ok {
          return;
        }
        found, pp, pte := PageLookup(e, vpn);
      }
      ok := true;
    }

    /** _do_tlb_refill followed by tlbwr, which puts the pair in place of an
        entry the hardware picks (`victims`); false is a panic. */
    method DoTlbRefill(vpn: nat, e: nat, asid: nat, victims: set<(nat, nat)>)
      returns (ok: bool, lo0: EntryLo, lo1: EntryLo)
      requires Running(e) && asid == envAsid[e] && vpn < 0x10_0000
      modifies this`mem, this`ref, this`free, this`spec, this`tlb
      ensures ok ==> Running(e) && DataKept(old(mem), mem, old(spec))
      ensures ok ==> IsValid(Entry(spec, e, vpn)) && KeepsEntries(old(spec), spec, e, vpn)
      ensures ok ==> (lo0, lo1) == LoadedPair(spec, e, vpn)
      ensures ok ==> tlb == (old(tlb) - {(Vpn2(vpn), asid)} - victims)[(Vpn2(vpn), asid) := (lo0, lo1)]
      ensures ok && old(TlbCoherent()) ==> TlbCoherent()
      ensures ok ==> Step(old(State()), Refill(asid, vpn, victims), State())
      ensures IsValid(Entry(old(spec), e, vpn)) ==> ok && spec == old(spec)
      ensures !ok && !Forbidden(vpn) ==> |old(free)| < 2
    {
      hide Inv, Stored, DataKept, Coherent, KeepsEntries, Entry, TablePage, Backed, AsidTable;
      AsidsAreOwned(pgdir.Keys - {BASE}, envAsid, asidBitmap, envFree, owner, e);
      lo0, lo1 := EntryLo(0, 0), EntryLo(0, 0);
      var pte;
      TlbInvalidate(asid, vpn);
      ok, pte := LookupOrAlloc(vpn, e, asid);
      if !ok {
        return;
      }
      var even := Even(pte.index);
      PairOf(mem, spec, e, vpn, pte.page);
      lo0, lo1 := ToLo(mem[pte.page][even]), ToLo(mem[pte.page][even + 1]);
      if old(TlbCoherent()) {
        RefillKeepsCoherent(old(tlb), old(spec), spec, owner, asid, vpn, victims);
      }
      tlb := (tlb - victims)[(Vpn2(vpn), asid) := (lo0, lo1)];
    }

    // ----- system calls on memory

    /** is_illegal_va */
    predicate IsIllegal(vpn: nat): (r: bool)
      ensures r <==> !(0x3fe <= vpn < 0x7f400)
    {
      vpn < UTEMP || vpn >= UTOP
    }

    /** sys_mem_alloc.  All is as before, but for the page, unless the permission changes
        its number. */
    method SysMemAlloc(e: nat, vpn: nat, perm: Perm32) returns (r: int)
      requires e in envAsid && Running(e)
      modifies this`mem, this`ref, this`free, this`spec, this`tlb
      ensures Mirrors() && DataKept(old(mem), mem, old(spec))
      ensures Running(e) <==> IsIllegal(vpn) || !Miscounts(old(State()), MemAlloc(old(envAsid)[e], vpn, perm))
      ensures IsIllegal(vpn) ==> r == -E_INVAL
      ensures !IsIllegal(vpn) && old(free) == [] ==> r == -E_NO_MEM
      ensures IsIllegal(vpn) || old(free) == [] ==> unchanged(this)
      ensures !IsIllegal(vpn) && old(free) != [] ==>
        && AllocDone(old(State()), State(), old(envAsid)[e], e, vpn, perm, r)
        && (r == 0 ==> old(free)[0] < |mem| && mem[old(free)[0]] == ZERO_PAGE)
      ensures Running(e) && old(TlbCoherent()) ==> TlbCoherent()
    {
      hide Typed, CountsExact, FreeListExact, Stored, Insert, InsertWide, Fits, Entry, Coherent, KeepsEntries, OrPage;
      if IsIllegal(vpn) {
        return -E_INVAL;
      }
      ghost var s := spec;
      var p;
      r, p := PageAlloc();
      if r != 0 {
        return;
      }
      ghost var s', mem' := spec, mem;
      InsertKeepsTables(spec, (e, vpn), p, perm.low);
      FitsIff(spec, (e, vpn), p, perm);
      InsertIsFlat(spec, (e, vpn), p, perm.low);
      r := PageInsert(e, envAsid[e], p, vpn, perm);
      DataKeptAfterAlloc(old(mem), mem', mem, s, s');
      if SpacesValid() && old(TlbCoherent()) {
        InsertKeepsCoherent(old(tlb), s, s', owner, envAsid[e], (e, vpn), p, perm.low);
      }
    }

    /** page_lookup in one address space, page_insert in another: the page at srcVpn of
        src appears at dstVpn of dst.  Both run on, unless the permission changes the
        number of the page or its count has no room. */
    method ShareMapping(src: nat, srcVpn: nat, dst: nat, dstVpn: nat, perm: Perm32) returns (r: int)
      requires dst in envAsid && Running(src) && Running(dst) && srcVpn < UTOP && dstVpn < UTOP && RefsFit(spec)
      modifies this`mem, this`ref, this`free, this`spec, this`tlb
      ensures Mirrors() && DataKept(old(mem), mem, old(spec))
      ensures (src, srcVpn) !in old(spec).maps ==> r == -E_INVAL && unchanged(this)
      ensures (src, srcVpn) in old(spec).maps ==>
        var p := old(spec).maps[(src, srcVpn)].ppn;
        && MapDone(old(State()), State(), (src, srcVpn), old(envAsid)[dst], dst, dstVpn, perm, r)
        && (Running(src) && Running(dst) <==> !Miscounts(old(State()), MemMap(old(envAsid)[dst], dstVpn, p, perm)))
      ensures Running(src) && old(TlbCoherent()) ==> TlbCoherent()
    {
      hide Typed, CountsExact, FreeListExact, Stored, Insert, InsertWide, Fits, Coherent, OrPage;
      MappedIsValid(spec, (src, srcVpn));
      ZeroIsInvalid();
      var found, p, pte := PageLookup(src, srcVpn);
      if !found {
        return -E_INVAL;
      }
      MappedIsCounted(spec, (src, srcVpn));
      InsertKeepsTables(spec, (dst, dstVpn), p, perm.low);
      FitsIff(spec, (dst, dstVpn), p, perm);
      InsertIsFlat(spec, (dst, dstVpn), p, perm.low);
      if TlbCoherent() {
        InsertKeepsCoherent(tlb, spec, spec, owner, envAsid[dst], (dst, dstVpn), p, perm.low);
      }
      r := PageInsert(dst, envAsid[dst], p, dstVpn, perm);
    }

    /** sys_mem_map */
    method SysMemMap(src: nat, srcVpn: nat, dst: nat, dstVpn: nat, perm: Perm32) returns (r: int)
      requires dst in envAsid && Running(src) && Running(dst) && RefsFit(spec)
      modifies this`mem, this`ref, this`free, this`spec, this`tlb
      ensures Mirrors() && DataKept(old(mem), mem, old(spec))
      ensures IsIllegal(srcVpn) || IsIllegal(dstVpn) || (src, srcVpn) !in old(spec).maps ==>
        r == -E_INVAL && unchanged(this)
      ensures !IsIllegal(srcVpn) && !IsIllegal(dstVpn) && (src, srcVpn) in old(spec).maps ==>
        var p := old(spec).maps[(src, srcVpn)].ppn;
        && MapDone(old(State()), State(), (src, srcVpn), old(envAsid)[dst], dst, dstVpn, perm, r)
        && (Running(src) && Running(dst) <==> !Miscounts(old(State()), MemMap(old(envAsid)[dst], dstVpn, p, perm)))
      ensures Running(src) && old(TlbCoherent()) ==> TlbCoherent()
    {
      hide Inv, Stored, InsertWide, Coherent, OrPage, Step, DataKept, Miscounts, RefsFit;
      if IsIllegal(srcVpn) || IsIllegal(dstVpn) {
        DataKeptRefl(mem, spec);
        return -E_INVAL;
      }
      r := ShareMapping(src, srcVpn, dst, dstVpn, perm);
    }

    /** sys_mem_unmap */
    method SysMemUnmap(e: nat, vpn: nat) returns (r: int)
      requires Running(e)
      modifies this`mem, this`ref, this`free, this`spec, this`tlb
      ensures Running(e) && DataKept(old(mem), mem, old(spec))
      ensures r == if IsIllegal(vpn) then -E_INVAL else 0
      ensures IsIllegal(vpn) || (e, vpn) !in old(spec).maps ==> unchanged(this)
      ensures !IsIllegal(vpn) && (e, vpn) in old(spec).maps ==>
        var p := old(spec).maps[(e, vpn)].ppn;
        && p < |old(spec).ref| && old(spec).ref[p] > 0 && spec == Unmap(old(spec), (e, vpn))
        && Step(old(State()), MemUnmap(envAsid[e], vpn), State())
      ensures old(TlbCoherent()) ==> TlbCoherent()
    {
      hide Typed, CountsExact, FreeListExact, Stored, Coherent;
      if IsIllegal(vpn) {
        return -E_INVAL;
      }
      if TlbCoherent() && (e, vpn) in spec.maps {
        UnmapKeepsCoherent(tlb, spec, owner, envAsid[e], (e, vpn));
      }
      PageRemove(e, envAsid[e], vpn);
      OnlyTablesKeepsData(old(mem), mem, old(spec));
      return 0;
    }

    // ----- environments

    /** asid_alloc: the least ASID not in use. */
    method AsidAlloc() returns (r: int, asid: nat)
      requires |asidBitmap| == NASID
      modifies this`asidBitmap
      ensures r == 0 || r == -E_NO_FREE_ENV
      ensures r == 0 <==> exists a | 0 <= a < NASID :: !old(asidBitmap)[a]
      ensures r == 0 ==>
        && asid < NASID && !old(asidBitmap)[asid]
        && (forall a | 0 <= a < asid :: old(asidBitmap)[a]) && asidBitmap == old(asidBitmap)[asid := true]
      ensures r != 0 ==> asidBitmap == old(asidBitmap)
    {
      for i := 0 to NASID
        invariant asidBitmap == old(asidBitmap)
        invariant forall a | 0 <= a < i :: asidBitmap[a]
      {
        if !asidBitmap[i] {
          asidBitmap := asidBitmap[i := true];
          return 0, i;
        }
      }
      return -E_NO_FREE_ENV, 0;
    }

    /** env_setup_vm: a page directory for e that sees the windows and itself. */
    method EnvSetupVm(e: nat) returns (r: int)
      requires SpacesValid() && e !in pgdir && e != BASE
      modifies this`mem, this`ref, this`free, this`pgdir, this`spec
      ensures SpacesValid() && DataKept(old(mem), mem, old(spec))
      ensures r == if old(free) == [] then -E_NO_MEM else 0
      ensures r != 0 ==> unchanged(this)
      ensures r == 0 ==>
        && old(free)[0] < |old(spec).use| == |old(spec).ref|
        && spec == AddDirectory(TakeFree(old(spec)), e, old(free)[0])
    {
      hide Typed, CountsExact, FreeListExact, Stored;
      ghost var s := spec;
      var p;
      r, p := PageAlloc();
      if r != 0 {
        return;
      }
      HeadIsFree(s);
      StoredNewDirectory(mem, spec, e, p);
      AddDirectoryKeepsInv(spec, e, p);
      ref := ref[p := ref[p] + 1];
      pgdir := pgdir[e := p];
      mem := mem[p := NewDirectory(mem, pgdir[BASE], p)];
      spec := AddDirectory(spec, e, p);
    }

    /** env_setup_vm and asid_alloc for the first free environment e. */
    method SetUpEnv(e: nat) returns (r: int)
      requires Valid() && envFree != [] && e == envFree[0] && free != []
      modifies this`mem, this`ref, this`free, this`pgdir, this`envAsid, this`asidBitmap, this`envFree, this`spec, this`owner
      ensures Valid() && DataKept(old(mem), mem, old(spec))
      ensures old(free)[0] < |old(spec).use| == |old(spec).ref| && e !in old(pgdir)
      ensures r == 0 <==> exists a | 0 <= a < NASID :: !old(asidBitmap)[a]
      ensures r == 0 ==>
        && spec == AddDirectory(TakeFree(old(spec)), e, old(free)[0])
        && e in envAsid && envAsid == old(envAsid)[e := envAsid[e]]
        && envAsid[e] !in old(owner) && owner == old(owner)[envAsid[e] := e]
        && envFree == old(envFree)[1..]
      ensures r != 0 ==>
        && r == -E_NO_FREE_ENV && owner == old(owner)
        && spec == LoseDirectory(AddDirectory(TakeFree(old(spec)), e, old(free)[0]), e)
        && envAsid == old(envAsid) && envFree == old(envFree)
    {
      hide Typed, CountsExact, FreeListExact, Stored, DataKept, AsidTable, OthersKept;
      AsidsAreOwned(pgdir.Keys - {BASE}, envAsid, asidBitmap, envFree, owner, e);
      FreshDirectoryHasNoTables(spec, e);
      ghost var s := spec;
      r := EnvSetupVm(e);
      assert TablesOf(spec, e) == TablesOf(s, e);
      var asid;
      r, asid := AsidAlloc();
      if r != 0 {
        LoseDirectoryKeepsInv(spec, e);
        StoredWithout(mem, spec, LoseDirectory(spec, e), e);
        spec := LoseDirectory(spec, e);
        pgdir := pgdir - {e};
        assert pgdir == old(pgdir);
      } else {
        AsidTaken(old(pgdir).Keys - {BASE}, envAsid, old(asidBitmap), envFree, owner, asid);
        assert pgdir.Keys - {BASE} == old(pgdir).Keys - {BASE} + {e};
        envAsid := envAsid[e := asid];
        owner := owner[asid := e];
        envFree := envFree[1..];
      }
    }

    /** env_alloc.  When every ASID is taken the new page directory is lost: it is
        neither freed nor used. */
    method EnvAlloc() returns (r: int, e: nat)
      requires Valid()
      modifies this
      ensures Valid() && DataKept(old(mem), mem, old(spec))
      ensures old(envFree) == [] ==> r == -E_NO_FREE_ENV && unchanged(this)
      ensures old(envFree) != [] && old(free) == [] ==> r == -E_NO_MEM && unchanged(this)
      ensures old(envFree) != [] && old(free) != [] ==>
        && e == old(envFree)[0] && e !in old(pgdir) && old(free)[0] < |old(spec).use| == |old(spec).ref|
        && (r == 0 <==> exists a | 0 <= a < NASID :: !old(asidBitmap)[a])
        && var t := AddDirectory(TakeFree(old(spec)), e, old(free)[0]);
          if r == 0 then
            && spec == t && e in envAsid && envAsid == old(envAsid)[e := envAsid[e]]
            && envAsid[e] !in old(owner) && envFree == old(envFree)[1..]
          else
            && r == -E_NO_FREE_ENV && spec == LoseDirectory(t, e) && envAsid == old(envAsid)
      ensures old(envFree) != [] && old(free) != [] ==>
        if r == 0 then e in envAsid && Step(old(State()), Op.EnvAlloc(e, envAsid[e]), State())
        else Step(old(State()), EnvAllocFails(e), State())
      ensures tlb == old(tlb)
      ensures old(TlbCoherent()) ==> TlbCoherent()
    {
      hide Inv, Stored, Coherent, DataKept, AsidTable, OthersKept;
      DataKeptRefl(mem, spec);
      if envFree == [] {
        return -E_NO_FREE_ENV, 0;
      }
      e := envFree[0];
      if free == [] {
        return -E_NO_MEM, e;
      }
      AsidsAreOwned(pgdir.Keys - {BASE}, envAsid, asidBitmap, envFree, owner, e);
      ghost var s := spec;
      r := SetUpEnv(e);
      if r == 0 { AsidsAreOwned(pgdir.Keys - {BASE}, envAsid, asidBitmap, envFree, owner, e); }
      DirectoryChangeKeepsOthers(s, spec, e);
      if old(TlbCoherent()) {
        if r == 0 {
          NewOwnerCoherent(tlb, s, spec, old(owner), envAsid[e], e);
        } else {
          SameEntriesCoherent(tlb, s, spec, owner, e);
        }
      }
    }

    /** Nothing but the address space of e has changed so far. */
    ghost predicate Freeing(s: Spaces, tlb0: Tlb, e: nat, asid: nat, vpn: nat, pdx: nat)
      reads this
    {
      SpacesValid() && FreedUpTo(s, spec, e, vpn, pdx) && FlushedFor(tlb0, tlb, asid, s, spec)
    }

    /** One turn of env_free's inner loop, at an entry of the table in page pa. */
    method FreeEntry(e: nat, asid: nat, pdeno: nat, pteno: nat, pa: nat, ghost s: Spaces, ghost tlb0: Tlb)
      requires Freeing(s, tlb0, e, asid, PageNo(pdeno, pteno), pdeno)
      requires e in pgdir && e != BASE && pdeno < PDX_UTOP && pteno < ENTRIES
      requires (e, pdeno) in spec.tables && spec.tables[(e, pdeno)] == pa
      modifies this`mem, this`ref, this`free, this`spec, this`tlb
      ensures Freeing(s, tlb0, e, asid, PageNo(pdeno, pteno) + 1, pdeno)
      ensures spec.tables == old(spec).tables
    {
      hide Inv, Stored, FreedUpTo, FlushedFor;
      var vpn := PageNo(pdeno, pteno);
      assert Pdx(vpn) == pdeno && Ptx(vpn) == pteno;
      EntryInPage(mem, spec, e, vpn, pa);
      MappedIsValid(spec, (e, vpn));
      ZeroIsInvalid();
      FreedOneEntry(s, spec, e, vpn, pdeno);
      if IsValid(mem[pa][pteno]) {
        FlushedOneMore(tlb0, tlb, asid, s, spec, (e, vpn));
        PageRemove(e, asid, vpn);
      }
    }

    /** The directory entry and the page of a table that is empty now. */
    method FreeEmptyTable(e: nat, asid: nat, pdeno: nat, pa: nat, ghost s: Spaces, ghost tlb0: Tlb)
      requires Freeing(s, tlb0, e, asid, PageNo(pdeno + 1, 0), pdeno)
      requires e in pgdir && e != BASE && pdeno < PDX_UTOP
      requires (e, pdeno) in spec.tables && spec.tables[(e, pdeno)] == pa
      modifies this`mem, this`ref, this`free, this`spec, this`tlb
      ensures Freeing(s, tlb0, e, asid, PageNo(pdeno + 1, 0), pdeno + 1)
    {
      hide Inv, Stored, FreedUpTo, FlushedFor;
      var k := (e, pdeno);
      FreedOneTable(s, spec, e, pdeno);
      ghost var t := DropTable(spec, k);
      PokeDropTable(mem, spec, t, k);
      FlushedOneTable(tlb0, tlb, asid, s, spec, t, k);
      mem := Poke(mem, pgdir[e], pdeno, ZERO);
      PageDecref(pa);
      spec := t;
      TlbInvalidate(asid, UVPT + pdeno);
    }

    /** The body of env_free's outer loop for a slot with a page table. */
    method FreeTable(e: nat, asid: nat, pdeno: nat, ghost s: Spaces, ghost tlb0: Tlb)
      requires Freeing(s, tlb0, e, asid, PageNo(pdeno, 0), pdeno)
      requires e in pgdir && e != BASE && pdeno < PDX_UTOP && (e, pdeno) in spec.tables
      modifies this`mem, this`ref, this`free, this`spec, this`tlb
      ensures Freeing(s, tlb0, e, asid, PageNo(pdeno + 1, 0), pdeno + 1)
    {
      hide Inv, Stored, FreedUpTo, FlushedFor, EntryFlags;
      DirectoryIsWhole(mem, spec, e);
      var pa := mem[pgdir[e]][pdeno].ppn;
      for pteno := 0 to ENTRIES
        invariant Freeing(s, tlb0, e, asid, PageNo(pdeno, pteno), pdeno)
        invariant (e, pdeno) in spec.tables && spec.tables[(e, pdeno)] == pa
      {
        FreeEntry(e, asid, pdeno, pteno, pa, s, tlb0);
      }
      FreeEmptyTable(e, asid, pdeno, pa, s, tlb0);
    }

    /** env_free's loops over the user part of the address space. */
    method FreeUserPart(e: nat, asid: nat)
      requires SpacesValid() && e in pgdir && e != BASE
      modifies this`mem, this`ref, this`free, this`spec, this`tlb
      ensures Freeing(old(spec), old(tlb), e, asid, PageNo(PDX_UTOP, 0), PDX_UTOP)
    {
      hide Inv, Stored, FreedUpTo, FlushedFor, EntryFlags;
      ghost var s, tlb0 := spec, tlb;
      FreedNothing(s, e);
      NothingFlushed(tlb0, asid, s);
      for pdeno := 0 to PDX_UTOP
        invariant Freeing(s, tlb0, e, asid, PageNo(pdeno, 0), pdeno)
      {
        DirectoryIsWhole(mem, spec, e);
        SlotIsValid(spec, e, pdeno);
        if IsValid(mem[pgdir[e]][pdeno]) {
          FreeTable(e, asid, pdeno, s, tlb0);
        } else {
          FreedNoTable(s, spec, e, pdeno);
        }
      }
    }

    /** env_free's last lines on pages: the directory itself. */
    method ReleaseDirectory(e: nat, ghost s: Spaces)
      requires SpacesValid() && Inv(s) && e in pgdir && e != BASE
      requires FreedUpTo(s, spec, e, PageNo(PDX_UTOP, 0), PDX_UTOP) && s.dirs == pgdir
      modifies this`ref, this`free, this`pgdir, this`spec
      ensures SpacesValid() && EnvFreed(s, e, spec) && pgdir == old(pgdir) - {e}
    {
      hide Inv, Stored, FreedUpTo, EnvFreed, DropDirectory, Strand;
      FreedAll(s, spec, e);
      ghost var t := DropDirectory(Strand(spec, e), e);
      StoredWithout(mem, spec, t, e);
      PageDecref(pgdir[e]);
      pgdir, spec := pgdir - {e}, t;
    }

    /** The end of env_free: the directory, the ASID and the control block. */
    method ReturnEnv(e: nat, asid: nat, ghost s: Spaces)
      requires Valid() && Inv(s) && e in envAsid && envAsid[e] == asid && e < NENV
      requires FreedUpTo(s, spec, e, PageNo(PDX_UTOP, 0), PDX_UTOP) && s.dirs == pgdir
      modifies this
      ensures Valid() && EnvFreed(s, e, spec)
      ensures envAsid == old(envAsid) - {e} && envFree == [e] + old(envFree) && owner == old(owner) - {asid}
      ensures tlb == old(tlb) - {(Vpn2(UVPT + PDX_UVPT), asid)}
    {
      hide Inv, Stored, AsidTable, EnvFreed, FreedUpTo;
      AsidsAreOwned(pgdir.Keys - {BASE}, envAsid, asidBitmap, envFree, owner, e);
      AsidReturned(pgdir.Keys - {BASE}, envAsid, asidBitmap, envFree, owner, e);
      ReleaseDirectory(e, s);
      assert pgdir.Keys - {BASE} == old(pgdir).Keys - {BASE} - {e};
      TlbInvalidate(asid, UVPT + PDX_UVPT);
      asidBitmap, owner, envAsid, envFree :=
        asidBitmap[asid := false], owner - {asid}, envAsid - {e}, [e] + envFree;
    }

    /** env_free.  Exactly the pages that only e held come back (see
        EnvRelease.GivesBackExactly) and no other address space changes. */
    method EnvFree(e: nat)
      requires Valid() && e in envAsid && e < NENV
      modifies this
      ensures Valid() && EnvFreed(old(spec), e, spec) && OthersKept(old(spec), spec, e)
      ensures envAsid == old(envAsid) - {e} && envFree == [e] + old(envFree)
      ensures owner == old(owner) - {old(envAsid)[e]}
      ensures Step(old(State()), Op.EnvFree(old(envAsid)[e]), State())
      ensures old(TlbCoherent()) ==> (TlbCoherent() <==> !LeavesTable(tlb, old(spec), e, old(envAsid)[e]))
    {
      hide Inv, Stored, FreedUpTo, FlushedFor, AsidTable, Coherent, OthersKept, FreedAtZero;
      var asid := envAsid[e];
      ghost var s := spec;
      AsidsAreOwned(pgdir.Keys - {BASE}, envAsid, asidBitmap, envFree, owner, e);
      FreeUserPart(e, asid);
      ghost var tlb1, t := tlb, spec;
      NothingLeft(s, t, e);
      ReturnEnv(e, asid, s);
      EnvFreedKeepsOthers(s, spec, e);
      EverythingFlushed(old(tlb), tlb1, asid, s, t, e);
      if old(TlbCoherent()) {
        EnvFreeCoherentIff(old(tlb), tlb, s, spec, old(owner), asid, e);
      }
    }

    /** map_segment into the template: `count` boot pages from page pa on appear
        in the window that starts at vpn. */
    method MapSegment(pa: nat, vpn: nat, count: nat, perm: Perm)
      requires SpacesValid() && pgdir.Keys == {BASE} && free != []
      requires vpn == UTOP || vpn == UPAGES
      requires 0 < count <= ENTRIES && pa + count <= |ref|
      requires forall p | pa <= p < pa + count :: spec.use[p] == Boot && ref[p] < MAX_REF
      requires forall v | vpn <= v < vpn + count :: (BASE, v) !in spec.maps
      modifies this`mem, this`ref, this`free, this`spec, this`tlb
      ensures SpacesValid() && |free| >= |old(free)| - 1 && |ref| == |old(ref)| && pgdir == old(pgdir)
      ensures (BASE, Pdx(vpn)) in spec.tables
      ensures forall j | j in old(spec).tables :: j in spec.tables
      ensures forall v | vpn <= v < vpn + count ::
        (BASE, v) in spec.maps && spec.maps[(BASE, v)] == Word(pa + v - vpn, EntryFlags(perm))
      ensures forall j | j in old(spec).maps :: j in spec.maps && spec.maps[j] == old(spec).maps[j]
      ensures forall j | j in spec.maps :: j in old(spec).maps || (j.0 == BASE && vpn <= j.1 < vpn + count)
      ensures forall p | 0 <= p < |ref| && old(spec).use[p] == Boot :: spec.use[p] == Boot && ref[p] <= old(ref)[p] + 1
      ensures RefsFit(old(spec)) ==> RefsFit(spec)
      ensures forall x | x in tlb :: x in old(tlb) && tlb[x] == old(tlb)[x]
    {
      hide Inv, Stored, EntryFlags, RefsFit, DirsTyped, TablesTyped, MapsTyped;
      for i := 0 to count
        invariant SpacesValid() && |ref| == |old(ref)| && pgdir == old(pgdir)
        invariant if i == 0 then spec == old(spec) else (BASE, Pdx(vpn)) in spec.tables && |free| >= |old(free)| - 1
        invariant forall j | j in old(spec).tables :: j in spec.tables
        invariant forall p | 0 <= p < |ref| && old(spec).use[p] == Boot ::
          spec.use[p] == Boot && ref[p] == old(ref)[p] + (if pa <= p < pa + i then 1 else 0)
        invariant forall v | vpn <= v < vpn + i ::
          (BASE, v) in spec.maps && spec.maps[(BASE, v)] == Word(pa + v - vpn, EntryFlags(perm))
        invariant forall j | j in old(spec).maps :: j in spec.maps && spec.maps[j] == old(spec).maps[j]
        invariant forall j | j in spec.maps :: j in old(spec).maps || (j.0 == BASE && vpn <= j.1 < vpn + i)
        invariant RefsFit(old(spec)) ==> RefsFit(spec)
        invariant forall x | x in tlb :: x in old(tlb) && tlb[x] == old(tlb)[x]
      {
        MapOne(pa + i, vpn + i, perm);
      }
    }

    /** One round of map_segment. */
    method MapOne(p: nat, vpn: nat, perm: Perm)
      requires SpacesValid() && pgdir.Keys == {BASE} && (BASE, vpn) !in spec.maps
      requires UTOP <= vpn < UVPT && ((BASE, Pdx(vpn)) in spec.tables || free != [])
      requires p < |ref| && spec.use[p] == Boot && ref[p] < MAX_REF
      modifies this`mem, this`ref, this`free, this`spec, this`tlb
      ensures SpacesValid() && |ref| == |old(ref)|
      ensures spec.maps == old(spec).maps[(BASE, vpn) := Word(p, EntryFlags(perm))]
      ensures (BASE, Pdx(vpn)) in spec.tables && forall j | j in old(spec).tables :: j in spec.tables
      ensures |free| >= |old(free)| - (if (BASE, Pdx(vpn)) in old(spec).tables then 0 else 1)
      ensures forall q | 0 <= q < |ref| && old(spec).use[q] == Boot ::
        spec.use[q] == Boot && ref[q] == old(ref)[q] + (if q == p then 1 else 0)
      ensures RefsFit(old(spec)) ==> RefsFit(spec)
      ensures forall x | x in tlb :: x in old(tlb) && tlb[x] == old(tlb)[x]
    {
      hide Inv, Stored, Insert, EntryFlags, DataKept, RefsFit, OrPage;
      NoBitsFit(spec, (BASE, vpn), p, perm);
      BootInsert(spec, (BASE, vpn), p, perm);
      if RefsFit(spec) { InsertKeepsRefsFit(spec, (BASE, vpn), p, perm); }
      var r := PageInsert(BASE, 0, p, vpn, Perm32(0, perm));
    }

    /** The two calls of map_segment. */
    method MapWindows(pagesAt: nat, pagesCount: nat, envsAt: nat, envsCount: nat)
      requires SpacesValid() && pgdir.Keys == {BASE} && |free| >= 2 && spec.maps == map[] && tlb == map[] && RefsFit(spec)
      requires 0 < pagesCount <= ENTRIES && pagesAt + pagesCount <= |ref|
      requires 0 < envsCount <= ENTRIES && envsAt + envsCount <= |ref|
      requires forall p | pagesAt <= p < pagesAt + pagesCount || envsAt <= p < envsAt + envsCount ::
        spec.use[p] == Boot && ref[p] == 1
      modifies this`mem, this`ref, this`free, this`spec, this`tlb
      ensures SpacesValid() && |ref| == |old(ref)| && pgdir == old(pgdir) && tlb == map[] && RefsFit(spec)
      ensures (BASE, PDX_UTOP) in spec.tables && (BASE, PDX_UTOP + 1) in spec.tables
      ensures IsWindow(spec, UPAGES, pagesAt, pagesCount) && IsWindow(spec, UTOP, envsAt, envsCount)
      ensures forall j | j in spec.maps ::
        j.0 == BASE && (UPAGES <= j.1 < UPAGES + pagesCount || UTOP <= j.1 < UTOP + envsCount)
    {
      hide Inv, Stored, Insert, EntryFlags, DataKept, IsWindow, RefsFit;
      MapSegment(pagesAt, UPAGES, pagesCount, PTE_G);
      WindowIsSet(spec, UPAGES, pagesAt, pagesCount);
      assert Pdx(UPAGES) == PDX_UTOP + 1 && Pdx(UTOP) == PDX_UTOP;
      ghost var s := spec;
      MapSegment(envsAt, UTOP, envsCount, PTE_G);
      WindowIsSet(spec, UTOP, envsAt, envsCount);
      WindowStays(s, spec, UPAGES, pagesAt, pagesCount);
    }

    /** The end of env_init: `pages` and `envs`, which boot has placed in its own pages,
        become the two windows that every environment sees. */
    method EnvInit(pagesAt: nat, pagesCount: nat, envsAt: nat, envsCount: nat)
      requires SpacesValid() && pgdir.Keys == {BASE} && |free| >= 2 && spec.maps == map[]
      requires envAsid == map[] && owner == map[] && tlb == map[] && RefsFit(spec)
      requires |asidBitmap| == NASID && (forall a | 0 <= a < NASID :: !asidBitmap[a]) && envFree == seq(NENV, i => i)
      requires 0 < pagesCount <= ENTRIES && pagesAt + pagesCount <= |ref|
      requires 0 < envsCount <= ENTRIES && envsAt + envsCount <= |ref|
      requires forall p | pagesAt <= p < pagesAt + pagesCount || envsAt <= p < envsAt + envsCount ::
        spec.use[p] == Boot && ref[p] == 1
      modifies this
      ensures Valid() && Good(State()) && TlbOk(State()) && NoUserGlobals(spec)
      ensures IsWindow(spec, 0x7f800, pagesAt, pagesCount) && IsWindow(spec, 0x7f400, envsAt, envsCount)
      ensures forall j | j in spec.maps ::
        j.0 == BASE && (0x7f800 <= j.1 < 0x7f800 + pagesCount || 0x7f400 <= j.1 < 0x7f400 + envsCount)
    {
      hide Inv, Stored, Insert, EntryFlags, DataKept, IsWindow;
      MapWindows(pagesAt, pagesCount, envsAt, envsCount);
      NobodyLives(envFree, asidBitmap);
      assert pgdir.Keys - {BASE} == {};
    }
  }

  /** Before the first env_alloc all ASIDs and control blocks are free. */
  lemma NobodyLives(envFree: seq<nat>, bitmap: seq<bool>)
    requires envFree == seq(NENV, i => i) && |bitmap| == NASID && forall a | 0 <= a < NASID :: !bitmap[a]
    ensures AsidTable({}, map[], bitmap, envFree, map[])
  {
    forall e | 0 <= e < NENV ensures e in envFree { assert envFree[e] == e; }
  }

  /** Boot: page_init and env_init leave a state from which every run is as KernelRuns
      says. */
  method Boot(memory: Memory, used: nat, pagesAt: nat, pagesCount: nat, envsAt: nat, envsCount: nat)
    returns (kernel: Kernel)
    requires used + 3 <= |memory| <= MAX_PAGES
    requires 0 < pagesCount <= ENTRIES && pagesAt + pagesCount <= used
    requires 0 < envsCount <= ENTRIES && envsAt + envsCount <= used
    ensures kernel.Valid() && Good(kernel.State()) && TlbOk(kernel.State()) && NoUserGlobals(kernel.spec)
    ensures IsWindow(kernel.spec, 0x7f800, pagesAt, pagesCount) && IsWindow(kernel.spec, 0x7f400, envsAt, envsCount)
  {
    kernel := new Kernel(memory, used);
    kernel.EnvInit(pagesAt, pagesCount, envsAt, envsCount);
  }
}
