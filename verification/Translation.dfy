/** What an address translates to: the two-level walk with the self-map at
    UVPT, and the TLB in front of it (include/pmap.h, kern/tlbex.c). */
module Translation {
  import opened Mmu
  import opened AddressSpaces

  /** The word in slot pdx of e's page directory. */
  function PdeWord(s: Spaces, e: nat, pdx: nat): Word {
    if e != BASE && pdx == PDX_UVPT then
      if e in s.dirs then Word(s.dirs[e], PTE_V) else ZERO
    else
      var k := if PDX_UTOP <= pdx < PDX_UVPT then (BASE, pdx) else (e, pdx);
      if k in s.tables then Word(s.tables[k], EntryFlags(0)) else ZERO
  }

  function PteWord(s: Spaces, k: (nat, nat)): Word {
    if k in s.maps then s.maps[k] else ZERO
  }

  /** The entry for page vpn in the address space of e: its own mappings, the
      windows all environments share, and at UVPT its own page tables. */
  function Entry(s: Spaces, e: nat, vpn: nat): Word {
    if Pdx(vpn) == PDX_UVPT then PdeWord(s, e, Ptx(vpn))
    else if PDX_UTOP <= Pdx(vpn) < PDX_UVPT then PteWord(s, (BASE, vpn))
    else PteWord(s, (e, vpn))
  }

  // ----- refinement of the flat map by words in memory

  type Memory = seq<seq<Word>>

  ghost predicate DirStored(mem: Memory, s: Spaces, e: nat)
    requires e in s.dirs && s.dirs[e] < |mem|
  {
    && |mem[s.dirs[e]]| == ENTRIES
    && forall i | 0 <= i < ENTRIES :: mem[s.dirs[e]][i] == PdeWord(s, e, i)
  }

  ghost predicate TableStored(mem: Memory, s: Spaces, k: (nat, nat))
    requires k in s.tables && s.tables[k] < |mem|
  {
    && |mem[s.tables[k]]| == ENTRIES
    && forall i | 0 <= i < ENTRIES :: mem[s.tables[k]][i] == PteWord(s, (k.0, PageNo(k.1, i)))
  }

  /** Memory holds the page directories and page tables that s describes. */
  ghost predicate Stored(mem: Memory, s: Spaces) {
    && |mem| == |s.ref|
    && (forall e | e in s.dirs :: s.dirs[e] < |mem| && DirStored(mem, s, e))
    && (forall k | k in s.tables :: s.tables[k] < |mem| && TableStored(mem, s, k))
  }

  /** The two loads of pgdir_walk: the directory word, and if it is valid the
      table word. */
  function Walk(mem: Memory, dir: nat, vpn: nat): Word
    requires dir < |mem| && Pdx(vpn) < |mem[dir]|
  {
    var pde := mem[dir][Pdx(vpn)];
    if IsValid(pde) && pde.ppn < |mem| && Ptx(vpn) < |mem[pde.ppn]| then mem[pde.ppn][Ptx(vpn)] else ZERO
  }

  lemma ZeroIsInvalid()
    ensures !IsValid(ZERO) && !IsGlobal(ZERO)
  {}

  /** A walk through memory finds the flat map's entry. */
  lemma WalkFindsEntry(mem: Memory, s: Spaces, e: nat, vpn: nat)
    requires Inv(s) && Stored(mem, s) && e in s.dirs && vpn < 0x10_0000 && (e == BASE ==> Pdx(vpn) != PDX_UVPT)
    ensures Walk(mem, s.dirs[e], vpn) == Entry(s, e, vpn)
    ensures IsValid(mem[s.dirs[e]][Pdx(vpn)]) ==> mem[s.dirs[e]][Pdx(vpn)].ppn < |mem|
  {
    hide CountsExact, FreeListExact, DirsTyped;
    EntryFlagsAreValid(0, 0);
    assert DirStored(mem, s, e);
    var pdx, pde := Pdx(vpn), PdeWord(s, e, Pdx(vpn));
    if pdx != PDX_UVPT {
      var k := if PDX_UTOP <= pdx < PDX_UVPT then (BASE, pdx) else (e, pdx);
      if k in s.tables {
        assert IsValid(pde);
        assert TableStored(mem, s, k);
        assert PageNo(k.1, Ptx(vpn)) == vpn;
      } else {
        assert (k.0, vpn) !in s.maps;
      }
    }
  }

  // ----- the TLB

  /** Entries by (vpn / 2, ASID); each has an even and an odd half.  `owner`
      gives the live environment of an ASID in use. */
  type Tlb = map<(nat, nat), (EntryLo, EntryLo)>

  function Half(pair: (EntryLo, EntryLo), vpn: nat): EntryLo {
    if vpn % 2 == 0 then pair.0 else pair.1
  }

  /** Pages that translate alike in every environment: the two windows and
      their page tables as seen at UVPT. */
  predicate SharedPage(vpn: nat) {
    || PDX_UTOP <= Pdx(vpn) < PDX_UVPT
    || (Pdx(vpn) == PDX_UVPT && PDX_UTOP <= Ptx(vpn) < PDX_UVPT)
  }

  lemma SharedPagesAgree(s: Spaces, e: nat, vpn: nat)
    requires SharedPage(vpn)
    ensures Entry(s, e, vpn) == Entry(s, BASE, vpn)
  {}

  /** A half may be stale only if it is invalid.  Under an ASID that nobody uses
      only shared translations survive. */
  ghost predicate HalfCoherent(s: Spaces, owner: map<nat, nat>, asid: nat, vpn: nat, l: EntryLo) {
    && (LoGlobal(l) ==> LoValid(l))
    && (LoValid(l) ==>
          if asid in owner then l == ToLo(Entry(s, owner[asid], vpn))
          else SharedPage(vpn) && l == ToLo(Entry(s, BASE, vpn)))
  }

  ghost predicate Coherent(tlb: Tlb, s: Spaces, owner: map<nat, nat>) {
    forall x, vpn | x in tlb && Vpn2(vpn) == x.0 :: HalfCoherent(s, owner, x.1, vpn, Half(tlb[x], vpn))
  }

  /** The hardware uses an entry for its own ASID, or for every ASID when both
      halves are global. */
  predicate Matches(x: (nat, nat), pair: (EntryLo, EntryLo), asid: nat, vpn: nat) {
    x.0 == Vpn2(vpn) && (x.1 == asid || (LoGlobal(pair.0) && LoGlobal(pair.1)))
  }

  /** Both entries of the pair of vpn are global in the address space of e. */
  predicate GlobalPair(s: Spaces, e: nat, vpn: nat) {
    IsGlobal(Entry(s, e, Even(vpn))) && IsGlobal(Entry(s, e, Even(vpn) + 1))
  }

  /** What one live environment maps as a global pair, every other one maps alike. */
  ghost predicate GlobalsAgree(s: Spaces, owner: map<nat, nat>) {
    forall a, b, vpn: nat | a in owner && b in owner && GlobalPair(s, owner[a], vpn) ::
      ToLo(Entry(s, owner[a], vpn)) == ToLo(Entry(s, owner[b], vpn))
  }

  ghost predicate OwnersLive(s: Spaces, owner: map<nat, nat>) {
    forall a | a in owner :: owner[a] in s.dirs && owner[a] != BASE
  }

  /** The promise of the TLB code: whatever valid half the hardware hits for a
      live environment is that environment's current page-table entry. */
  lemma HitIsCurrent(tlb: Tlb, s: Spaces, owner: map<nat, nat>, x: (nat, nat), asid: nat, vpn: nat)
    requires Coherent(tlb, s, owner) && GlobalsAgree(s, owner)
    requires asid in owner && x in tlb && Matches(x, tlb[x], asid, vpn)
    requires LoValid(Half(tlb[x], vpn))
    ensures Half(tlb[x], vpn) == ToLo(Entry(s, owner[asid], vpn))
  {
    hide Entry;
    assert HalfCoherent(s, owner, x.1, vpn, Half(tlb[x], vpn));
    if x.1 != asid {
      if x.1 in owner {
        GlobalHalves(tlb, s, owner, x, vpn);
      } else {
        SharedPagesAgree(s, owner[asid], vpn);
      }
    }
  }

  /** Two global halves are current, since they are valid. */
  lemma GlobalHalves(tlb: Tlb, s: Spaces, owner: map<nat, nat>, x: (nat, nat), vpn: nat)
    requires Coherent(tlb, s, owner) && x in tlb && x.1 in owner && x.0 == Vpn2(vpn)
    requires LoGlobal(tlb[x].0) && LoGlobal(tlb[x].1)
    ensures GlobalPair(s, owner[x.1], vpn)
  {
    hide Entry;
    var even := Even(vpn);
    assert even % 2 == 0 && Vpn2(even) == x.0 && Vpn2(even + 1) == x.0;
    assert HalfCoherent(s, owner, x.1, even, Half(tlb[x], even));
    assert HalfCoherent(s, owner, x.1, even + 1, Half(tlb[x], even + 1));
    LoKeepsFlags(Entry(s, owner[x.1], even));
    LoKeepsFlags(Entry(s, owner[x.1], even + 1));
  }

  /** Every hit on every coherent TLB is current. */
  ghost predicate AllHitsCurrent(s: Spaces, owner: map<nat, nat>) {
    forall tlb, x, asid, vpn | Coherent(tlb, s, owner) && asid in owner && x in tlb && Matches(x, tlb[x], asid, vpn)
      && LoValid(Half(tlb[x], vpn)) :: Half(tlb[x], vpn) == ToLo(Entry(s, owner[asid], vpn))
  }

  /** Hits are current exactly when no environment maps a global pair that another one
      does not have. */
  lemma HitsAreCurrentIff(s: Spaces, owner: map<nat, nat>)
    requires Inv(s) && OwnersLive(s, owner)
    ensures AllHitsCurrent(s, owner) <==> GlobalsAgree(s, owner)
  {
    hide Inv, Entry, GlobalPair, Coherent, Matches, AllHitsCurrent, GlobalsAgree;
    if GlobalsAgree(s, owner) { AgreeMeansCurrent(s, owner); }
    if AllHitsCurrent(s, owner) { CurrentMeansAgree(s, owner); }
  }

  lemma AgreeMeansCurrent(s: Spaces, owner: map<nat, nat>)
    requires GlobalsAgree(s, owner)
    ensures AllHitsCurrent(s, owner)
  {
    hide Entry, GlobalPair, Coherent, Matches;
    forall tlb, x, asid, vpn | Coherent(tlb, s, owner) && asid in owner && x in tlb && Matches(x, tlb[x], asid, vpn)
      && LoValid(Half(tlb[x], vpn)) ensures Half(tlb[x], vpn) == ToLo(Entry(s, owner[asid], vpn))
    {
      HitIsCurrent(tlb, s, owner, x, asid, vpn);
    }
  }

  lemma CurrentMeansAgree(s: Spaces, owner: map<nat, nat>)
    requires Inv(s) && OwnersLive(s, owner) && AllHitsCurrent(s, owner)
    ensures GlobalsAgree(s, owner)
  {
    hide Inv, Entry, Coherent;
    forall a, b, vpn: nat | a in owner && b in owner && GlobalPair(s, owner[a], vpn)
      ensures ToLo(Entry(s, owner[a], vpn)) == ToLo(Entry(s, owner[b], vpn))
    {
      var x := (Vpn2(vpn), a);
      var tlb: Tlb := map[x := LoadedPair(s, owner[a], vpn)];
      GlobalPairHits(s, owner, a, vpn, tlb);
      assert Coherent(tlb, s, owner) && Matches(x, tlb[x], b, vpn);
    }
  }

  /** A refill of a global pair makes an entry that every environment hits. */
  lemma GlobalPairHits(s: Spaces, owner: map<nat, nat>, a: nat, vpn: nat, tlb: Tlb)
    requires Inv(s) && OwnersLive(s, owner) && a in owner && GlobalPair(s, owner[a], vpn)
    requires tlb == map[(Vpn2(vpn), a) := LoadedPair(s, owner[a], vpn)]
    ensures Coherent(tlb, s, owner)
    ensures var x := (Vpn2(vpn), a);
      && (forall b :: Matches(x, tlb[x], b, vpn))
      && Half(tlb[x], vpn) == ToLo(Entry(s, owner[a], vpn)) && LoValid(Half(tlb[x], vpn))
  {
    hide Inv, Entry, Coherent;
    var e, even := owner[a], Even(vpn);
    NothingIsCoherent(s, owner);
    LoadKeepsCoherent(map[], s, owner, a, vpn, {});
    assert tlb == (map[] - {})[(Vpn2(vpn), a) := LoadedPair(s, e, vpn)];
    LoKeepsFlags(Entry(s, e, even));
    LoKeepsFlags(Entry(s, e, even + 1));
    EntryIsValidOrZero(s, e, even);
    EntryIsValidOrZero(s, e, even + 1);
    ZeroIsInvalid();
    assert vpn == even || vpn == even + 1;
  }

  lemma NothingIsCoherent(s: Spaces, owner: map<nat, nat>)
    ensures Coherent(map[], s, owner)
  {}

  /** Nobody but the template maps global pages. */
  ghost predicate NoUserGlobals(s: Spaces) {
    forall k | k in s.maps && k.0 != BASE :: !IsGlobal(s.maps[k])
  }

  /** Then global pairs are shared ones, and agree. */
  lemma NoGlobalsAgree(s: Spaces, owner: map<nat, nat>)
    requires OwnersLive(s, owner) && NoUserGlobals(s)
    ensures GlobalsAgree(s, owner)
  {
    hide Entry, GlobalPair, SharedPage, ToLo;
    forall a, b, vpn: nat | a in owner && b in owner && GlobalPair(s, owner[a], vpn)
      ensures ToLo(Entry(s, owner[a], vpn)) == ToLo(Entry(s, owner[b], vpn))
    {
      GlobalPairIsShared(s, owner[a], vpn);
      SharedPagesAgree(s, owner[a], vpn);
      SharedPagesAgree(s, owner[b], vpn);
    }
  }

  lemma GlobalPairIsShared(s: Spaces, e: nat, vpn: nat)
    requires NoUserGlobals(s) && e != BASE && GlobalPair(s, e, vpn)
    ensures SharedPage(vpn)
  {
    hide Entry;
    GlobalIsShared(s, e, Even(vpn));
    GlobalIsShared(s, e, Even(vpn) + 1);
    assert vpn == Even(vpn) || vpn == Even(vpn) + 1;
  }

  lemma GlobalIsShared(s: Spaces, e: nat, vpn: nat)
    requires NoUserGlobals(s) && e != BASE && IsGlobal(Entry(s, e, vpn))
    ensures SharedPage(vpn)
  {
    EntryFlagsAreValid(0, 0);
    ZeroIsInvalid();
    assert (PTE_V as bv12) & PTE_G == 0;
  }

  /** From s to t every valid entry stays as it is, except that of page vpn0 in
      the address space of e0. */
  ghost predicate KeepsEntries(s: Spaces, t: Spaces, e0: nat, vpn0: nat) {
    forall e, vpn: nat | IsValid(Entry(s, e, vpn)) && !(e == e0 && vpn == vpn0) :: Entry(t, e, vpn) == Entry(s, e, vpn)
  }

  /** Flushing the changed page is enough: entries that only became valid leave
      invalid halves behind, which the refill handler replaces. */
  lemma FlushKeepsCoherent(tlb: Tlb, s: Spaces, t: Spaces, owner: map<nat, nat>, asid: nat, vpn0: nat)
    requires Coherent(tlb, s, owner)
    requires asid in owner && owner[asid] != BASE && (forall a | a in owner && owner[a] == owner[asid] :: a == asid)
    requires KeepsEntries(s, t, owner[asid], vpn0)
    ensures Coherent(tlb - {(Vpn2(vpn0), asid)}, t, owner)
  {
    var tlb' := tlb - {(Vpn2(vpn0), asid)};
    forall x, vpn | x in tlb' && Vpn2(vpn) == x.0
      ensures HalfCoherent(t, owner, x.1, vpn, Half(tlb'[x], vpn))
    {
      var l := Half(tlb[x], vpn);
      assert HalfCoherent(s, owner, x.1, vpn, l);
      if LoValid(l) {
        if x.1 in owner {
          LoKeepsFlags(Entry(s, owner[x.1], vpn));
        } else {
          LoKeepsFlags(Entry(s, BASE, vpn));
        }
      }
    }
  }

  /** The pair of entries that a refill for page vpn loads. */
  function LoadedPair(s: Spaces, e: nat, vpn: nat): (EntryLo, EntryLo) {
    (ToLo(Entry(s, e, Even(vpn))), ToLo(Entry(s, e, Even(vpn) + 1)))
  }

  /** Loading a pair of current entries keeps the TLB coherent; the entry that
      tlbwr evicts does not matter. */
  lemma LoadKeepsCoherent(tlb: Tlb, s: Spaces, owner: map<nat, nat>, asid: nat, vpn0: nat, victims: set<(nat, nat)>)
    requires Inv(s) && Coherent(tlb, s, owner) && asid in owner && owner[asid] in s.dirs && owner[asid] != BASE
    ensures Coherent((tlb - victims)[(Vpn2(vpn0), asid) := LoadedPair(s, owner[asid], vpn0)], s, owner)
  {
    hide CountsExact, FreeListExact, Typed;
    var e := owner[asid];
    var tlb' := (tlb - victims)[(Vpn2(vpn0), asid) := LoadedPair(s, e, vpn0)];
    forall x, vpn | x in tlb' && Vpn2(vpn) == x.0
      ensures HalfCoherent(s, owner, x.1, vpn, Half(tlb'[x], vpn))
    {
      if x == (Vpn2(vpn0), asid) {
        assert vpn == Even(vpn0) || vpn == Even(vpn0) + 1;
        LoKeepsFlags(Entry(s, e, vpn));
        EntryIsValidOrZero(s, e, vpn);
      }
    }
  }

  lemma EntryIsValidOrZero(s: Spaces, e: nat, vpn: nat)
    requires Inv(s)
    ensures IsValid(Entry(s, e, vpn)) || Entry(s, e, vpn) == ZERO
  {
    hide CountsExact, FreeListExact, DirsTyped, TablesTyped;
    EntryFlagsAreValid(0, 0);
  }

  // ----- what each operation does to entries

  lemma InsertKeepsEntries(s: Spaces, k: (nat, nat), p: nat, perm: Perm)
    requires Inv(s) && MayInsert(s, k, p) && k.0 != BASE
    ensures InsertDefined(s, k)
    ensures KeepsEntries(s, Insert(s, k, p, perm).1, k.0, k.1)
    ensures Insert(s, k, p, perm).0 == 0 ==>
      Entry(Insert(s, k, p, perm).1, k.0, k.1) == Word(p, EntryFlags(perm))
  {
    hide Typed, CountsExact, FreeListExact, Insert;
    InsertIsFlat(s, k, p, perm);
    MayInsertFits(s, k, p, perm);
    FlatUpdateKeepsEntries(s, Insert(s, k, p, perm).1, k);
  }

  lemma MayInsertFits(s: Spaces, k: (nat, nat), p: nat, perm: Perm)
    requires Inv(s) && MayInsert(s, k, p) && k.0 != BASE
    ensures Pdx(k.1) < PDX_UTOP
  {}

  /** An update of entry k that may add a page table for it. */
  lemma FlatUpdateKeepsEntries(s: Spaces, t: Spaces, k: (nat, nat))
    requires k.0 != BASE && Pdx(k.1) < PDX_UTOP
    requires t.dirs == s.dirs
    requires forall j | j in s.maps && j != k :: j in t.maps && t.maps[j] == s.maps[j]
    requires forall j | j in s.tables :: j in t.tables && t.tables[j] == s.tables[j]
    ensures KeepsEntries(s, t, k.0, k.1)
  {
    hide EntryFlags;
    ZeroIsInvalid();
  }

  lemma UnmapKeepsEntries(s: Spaces, k: (nat, nat))
    requires Inv(s) && k in s.maps && k.0 != BASE && Pdx(k.1) < PDX_UTOP
    ensures s.maps[k].ppn < |s.ref| && s.ref[s.maps[k].ppn] > 0
    ensures KeepsEntries(s, Unmap(s, k), k.0, k.1)
  {
    hide Typed, CountsExact, FreeListExact;
    MappedIsCounted(s, k);
    FlatUpdateKeepsEntries(s, Unmap(s, k), k);
  }

  lemma NewTableKeepsEntries(s: Spaces, k: (nat, nat), p: nat, e: nat, vpn: nat)
    requires k !in s.tables && p < |s.use| == |s.ref|
    ensures KeepsEntries(s, UseAsTable(s, k, p), e, vpn)
  {
    hide EntryFlags;
    ZeroIsInvalid();
  }

  lemma SameSpacesKeepEntries(s: Spaces, t: Spaces, e: nat, vpn: nat)
    requires t.dirs == s.dirs && t.tables == s.tables && t.maps == s.maps
    ensures KeepsEntries(s, t, e, vpn)
    ensures forall e', v: nat :: Entry(t, e', v) == Entry(s, e', v)
  {
    hide EntryFlags;
  }

  lemma CoherentIgnoresCounts(tlb: Tlb, s: Spaces, t: Spaces, owner: map<nat, nat>)
    requires Coherent(tlb, s, owner) && t.dirs == s.dirs && t.tables == s.tables && t.maps == s.maps
    ensures Coherent(tlb, t, owner)
  {
    hide Entry;
    SameSpacesKeepEntries(s, t, 0, 0);
    forall x, vpn | x in tlb && Vpn2(vpn) == x.0 ensures HalfCoherent(t, owner, x.1, vpn, Half(tlb[x], vpn)) {
      assert HalfCoherent(s, owner, x.1, vpn, Half(tlb[x], vpn));
    }
  }

  /** page_insert flushes the one entry whose change could leave a stale half. */
  lemma InsertKeepsCoherent(tlb: Tlb, s: Spaces, s': Spaces, owner: map<nat, nat>, asid: nat, k: (nat, nat), p: nat, perm: Perm)
    requires Coherent(tlb, s, owner) && s'.dirs == s.dirs && s'.tables == s.tables && s'.maps == s.maps
    requires Inv(s') && MayInsert(s', k, p) && k.0 != BASE
    requires asid in owner && owner[asid] == k.0 && (forall a | a in owner && owner[a] == k.0 :: a == asid)
    ensures InsertDefined(s', k)
    ensures Coherent(tlb - {(Vpn2(k.1), asid)}, Insert(s', k, p, perm).1, owner)
  {
    hide Typed, CountsExact, FreeListExact, Insert, Entry, Coherent, KeepsEntries;
    CoherentIgnoresCounts(tlb, s, s', owner);
    InsertKeepsEntries(s', k, p, perm);
    FlushKeepsCoherent(tlb, s', Insert(s', k, p, perm).1, owner, asid, k.1);
  }

  lemma UnmapKeepsCoherent(tlb: Tlb, s: Spaces, owner: map<nat, nat>, asid: nat, k: (nat, nat))
    requires Coherent(tlb, s, owner) && Inv(s) && k in s.maps && k.0 != BASE && Pdx(k.1) < PDX_UTOP
    requires asid in owner && owner[asid] == k.0 && (forall a | a in owner && owner[a] == k.0 :: a == asid)
    ensures s.maps[k].ppn < |s.ref| && s.ref[s.maps[k].ppn] > 0
    ensures Coherent(tlb - {(Vpn2(k.1), asid)}, Unmap(s, k), owner)
  {
    hide Typed, CountsExact, FreeListExact, Entry, Coherent, KeepsEntries;
    MappedIsCounted(s, k);
    UnmapKeepsEntries(s, k);
    FlushKeepsCoherent(tlb, s, Unmap(s, k), owner, asid, k.1);
  }

  lemma InsertKeepsTables(s: Spaces, k: (nat, nat), p: nat, perm: Perm)
    requires Inv(s) && MayInsert(s, k, p)
    ensures InsertDefined(s, k)
    ensures forall j | j in s.tables :: j in Insert(s, k, p, perm).1.tables
  {
    hide Inv, Insert;
    InsertIsFlat(s, k, p, perm);
  }

  // ----- environments come and go

  /** From s to t only the address space of e is different. */
  ghost predicate OthersKept(s: Spaces, t: Spaces, e: nat) {
    forall d, vpn: nat | d != e :: Entry(t, d, vpn) == Entry(s, d, vpn)
  }

  lemma DirectoryChangeKeepsOthers(s: Spaces, t: Spaces, e: nat)
    requires e != BASE && t.tables == s.tables && t.maps == s.maps
    requires forall d | d != e :: (d in t.dirs <==> d in s.dirs) && (d in s.dirs ==> t.dirs[d] == s.dirs[d])
    ensures OthersKept(s, t, e)
  {
    hide EntryFlags;
  }

  /** A change in the address space of an environment that owns no ASID. */
  lemma SameEntriesCoherent(tlb: Tlb, s: Spaces, t: Spaces, owner: map<nat, nat>, e: nat)
    requires Coherent(tlb, s, owner) && OthersKept(s, t, e) && e != BASE
    requires forall a | a in owner :: owner[a] != e
    ensures Coherent(tlb, t, owner)
  {
    hide Entry;
    forall x, vpn | x in tlb && Vpn2(vpn) == x.0 ensures HalfCoherent(t, owner, x.1, vpn, Half(tlb[x], vpn)) {
      assert HalfCoherent(s, owner, x.1, vpn, Half(tlb[x], vpn));
    }
  }

  /** An ASID may be used again at once: what its last user left in the TLB is
      shared by all environments. */
  lemma NewOwnerCoherent(tlb: Tlb, s: Spaces, t: Spaces, owner: map<nat, nat>, asid: nat, e: nat)
    requires Coherent(tlb, s, owner) && OthersKept(s, t, e) && e != BASE
    requires asid !in owner && forall a | a in owner :: owner[a] != e
    ensures Coherent(tlb, t, owner[asid := e])
  {
    hide Entry;
    SameEntriesCoherent(tlb, s, t, owner, e);
    forall x, vpn | x in tlb && Vpn2(vpn) == x.0
      ensures HalfCoherent(t, owner[asid := e], x.1, vpn, Half(tlb[x], vpn))
    {
      assert HalfCoherent(t, owner, x.1, vpn, Half(tlb[x], vpn));
      if x.1 == asid && SharedPage(vpn) { SharedPagesAgree(t, e, vpn); }
    }
  }

  /** The TLB after some flushes for one ASID: nothing new, and no entry left for
      a page or a page table of e that has gone. */
  ghost predicate FlushedFor(tlb0: Tlb, tlb: Tlb, asid: nat, s: Spaces, t: Spaces) {
    && (forall x | x in tlb :: x in tlb0 && tlb[x] == tlb0[x])
    && (forall k | k in s.maps && k !in t.maps :: (Vpn2(k.1), asid) !in tlb)
    && (forall k | k in s.tables && k !in t.tables :: (Vpn2(UVPT + k.1), asid) !in tlb)
  }

  lemma FlushedOneMore(tlb0: Tlb, tlb: Tlb, asid: nat, s: Spaces, t: Spaces, k: (nat, nat))
    requires FlushedFor(tlb0, tlb, asid, s, t) && k in t.maps
    requires t.maps[k].ppn < |t.ref| == |t.use| && t.ref[t.maps[k].ppn] > 0
    ensures FlushedFor(tlb0, tlb - {(Vpn2(k.1), asid)}, asid, s, Unmap(t, k))
  {}

  lemma FlushedOneTable(tlb0: Tlb, tlb: Tlb, asid: nat, s: Spaces, t: Spaces, u: Spaces, k: (nat, nat))
    requires FlushedFor(tlb0, tlb, asid, s, t) && k in t.tables
    requires u.maps == t.maps && u.tables == t.tables - {k}
    ensures FlushedFor(tlb0, tlb - {(Vpn2(UVPT + k.1), asid)}, asid, s, u)
  {}

  /** A valid half for a page table of the kernel half of e is left in the TLB. */
  ghost predicate LeavesTable(tlb: Tlb, s: Spaces, e: nat, asid: nat) {
    exists k: (nat, nat) :: k in s.tables && k.0 == e && k.1 >= PDX_ULIM && ValidAt(tlb, UVPT + k.1, asid)
  }

  predicate ValidAt(tlb: Tlb, vpn: nat, asid: nat) {
    (Vpn2(vpn), asid) in tlb && LoValid(Half(tlb[(Vpn2(vpn), asid)], vpn))
  }

  /** What the loops of env_free have flushed when e is gone. */
  ghost predicate UserPartFlushed(tlb0: Tlb, tlb: Tlb, s: Spaces, e: nat, asid: nat) {
    && (forall x | x in tlb :: x in tlb0 && tlb[x] == tlb0[x])
    && (forall k | k in s.maps && k.0 == e :: (Vpn2(k.1), asid) !in tlb)
    && (forall k | k in s.tables && k.0 == e && k.1 < PDX_UTOP :: (Vpn2(UVPT + k.1), asid) !in tlb)
    && (Vpn2(UVPT + PDX_UVPT), asid) !in tlb
  }

  /** env_free leaves nothing of e under its ASID exactly when no valid half for a page
      table of the kernel half is left: those it does not flush. */
  lemma EnvFreeCoherentIff(tlb0: Tlb, tlb: Tlb, s: Spaces, t: Spaces, owner: map<nat, nat>, asid: nat, e: nat)
    requires Inv(s) && Coherent(tlb0, s, owner) && asid in owner && owner[asid] == e && e != BASE
    requires forall a | a in owner && owner[a] == e :: a == asid
    requires UserPartFlushed(tlb0, tlb, s, e, asid) && OthersKept(s, t, e)
    ensures Coherent(tlb, t, owner - {asid}) <==> !LeavesTable(tlb, s, e, asid)
  {
    hide *;
    if LeavesTable(tlb, s, e, asid) { LeftTableIsStale(tlb, s, t, owner, asid, e); }
    if !LeavesTable(tlb, s, e, asid) { AllFlushedIsCoherent(tlb0, tlb, s, t, owner, asid, e); }
  }

  lemma LeftTableIsStale(tlb: Tlb, s: Spaces, t: Spaces, owner: map<nat, nat>, asid: nat, e: nat)
    requires Inv(s) && LeavesTable(tlb, s, e, asid)
    ensures !Coherent(tlb, t, owner - {asid})
  {
    hide Inv, Entry;
    var k: (nat, nat) :| k in s.tables && k.0 == e && k.1 >= PDX_ULIM && ValidAt(tlb, UVPT + k.1, asid);
    var vpn := UVPT + k.1;
    TableSlotsFit(s, k);
    assert Pdx(vpn) == PDX_UVPT && Ptx(vpn) == k.1;
    assert !HalfCoherent(t, owner - {asid}, asid, vpn, Half(tlb[(Vpn2(vpn), asid)], vpn));
  }

  lemma AllFlushedIsCoherent(tlb0: Tlb, tlb: Tlb, s: Spaces, t: Spaces, owner: map<nat, nat>, asid: nat, e: nat)
    requires Inv(s) && Coherent(tlb0, s, owner) && asid in owner && owner[asid] == e && e != BASE
    requires forall a | a in owner && owner[a] == e :: a == asid
    requires UserPartFlushed(tlb0, tlb, s, e, asid) && OthersKept(s, t, e) && !LeavesTable(tlb, s, e, asid)
    ensures Coherent(tlb, t, owner - {asid})
  {
    hide Inv, Entry, LeavesTable, SharedPage;
    forall x, vpn | x in tlb && Vpn2(vpn) == x.0
      ensures HalfCoherent(t, owner - {asid}, x.1, vpn, Half(tlb[x], vpn))
    {
      var l := Half(tlb[x], vpn);
      assert HalfCoherent(s, owner, x.1, vpn, l);
      if x.1 == asid && LoValid(l) {
        ValidAndUnflushedIsShared(tlb0, tlb, s, asid, e, vpn);
      }
    }
  }

  lemma TableSlotsFit(s: Spaces, k: (nat, nat))
    requires Inv(s) && k in s.tables
    ensures k.1 < ENTRIES && k.0 in s.dirs && TableSlot(k.0, k.1)
  {}

  lemma ValidAndUnflushedIsShared(tlb0: Tlb, tlb: Tlb, s: Spaces, asid: nat, e: nat, vpn: nat)
    requires Inv(s) && e != BASE && UserPartFlushed(tlb0, tlb, s, e, asid) && !LeavesTable(tlb, s, e, asid)
    requires ValidAt(tlb, vpn, asid) && LoValid(ToLo(Entry(s, e, vpn)))
    ensures SharedPage(vpn) && Entry(s, e, vpn) == Entry(s, BASE, vpn)
  {
    hide EntryFlags, CountsExact, FreeListExact, DirsTyped, MapsTyped;
    LoKeepsFlags(Entry(s, e, vpn));
    ZeroIsInvalid();
    if Pdx(vpn) == PDX_UVPT {
      assert vpn == UVPT + Ptx(vpn);
      var k := (e, Ptx(vpn));
      assert k in s.tables ==> TableSlot(k.0, k.1);
    }
  }

  lemma EnvFreedKeepsOthers(s: Spaces, t: Spaces, e: nat)
    requires e != BASE && t.dirs == s.dirs - {e}
    requires t.maps == (map k | k in s.maps && k.0 != e :: s.maps[k])
    requires t.tables == (map k | k in s.tables && k.0 != e :: s.tables[k])
    ensures OthersKept(s, t, e)
  {
    hide EntryFlags;
  }

  lemma NothingFlushed(tlb: Tlb, asid: nat, s: Spaces)
    ensures FlushedFor(tlb, tlb, asid, s, s)
  {}

  lemma SlotIsValid(s: Spaces, e: nat, pdx: nat)
    requires e != BASE && pdx < PDX_UTOP
    ensures IsValid(PdeWord(s, e, pdx)) <==> (e, pdx) in s.tables
    ensures (e, pdx) in s.tables ==> PdeWord(s, e, pdx).ppn == s.tables[(e, pdx)]
  {
    ZeroIsInvalid();
    EntryFlagsAreValid(PdeWord(s, e, pdx).ppn, 0);
  }

  /** An address that passive_alloc accepts and that is not mapped: either a user
      page or a page table of the environment that is not there yet. */
  lemma UnmappedSlot(s: Spaces, e: nat, vpn: nat)
    requires Inv(s) && e in s.dirs && e != BASE && vpn < ULIM && !(UTOP <= vpn < UVPT)
    requires (BASE, PDX_UTOP) in s.tables && (BASE, PDX_UTOP + 1) in s.tables
    requires !IsValid(Entry(s, e, vpn))
    ensures vpn < UTOP ==> (e, vpn) !in s.maps && TableSlot(e, Pdx(vpn)) && Pdx(vpn) != PDX_UVPT
    ensures vpn >= UVPT ==> Pdx(vpn) == PDX_UVPT && TableSlot(e, Ptx(vpn)) && (e, Ptx(vpn)) !in s.tables
  {
    hide DirsTyped, TablesTyped, CountsExact, FreeListExact;
    EntryFlagsAreValid(0, 0);
    if vpn >= UVPT {
      assert PdeWord(s, e, PDX_UVPT) == Word(s.dirs[e], PTE_V);
      assert Ptx(vpn) == PDX_UTOP + 1 || Ptx(vpn) == PDX_UTOP ==> IsValid(PdeWord(s, e, Ptx(vpn)));
    }
  }
}
