/** One-word updates of page tables and directories, and what they do to the
    flat map that memory stores. */
module PageTables {
  import opened Mmu
  import opened AddressSpaces
  import opened EnvRelease
  import opened Translation

  function Poke(mem: Memory, page: nat, i: nat, w: Word): Memory
    requires page < |mem| && i < |mem[page]|
  {
    mem[page := mem[page][i := w]]
  }

  /** Only directories and tables matter for the flat map. */
  lemma OtherPagesDoNotMatter(mem: Memory, s: Spaces, p: nat, content: seq<Word>)
    requires Inv(s) && Stored(mem, s) && p < |s.ref|
    requires !s.use[p].Table? && !s.use[p].Directory?
    ensures Stored(mem[p := content], s)
  {
    hide CountsExact, FreeListExact, MapsTyped, PdeWord, PteWord;
    var mem' := mem[p := content];
    forall e | e in s.dirs ensures DirStored(mem', s, e) {
      assert DirStored(mem, s, e);
    }
    forall k | k in s.tables ensures TableStored(mem', s, k) {
      assert TableStored(mem, s, k);
    }
  }

  /** Memory says nothing about counts, uses or the free list. */
  lemma StoredIgnoresCounts(mem: Memory, s: Spaces, t: Spaces)
    requires Stored(mem, s) && t.dirs == s.dirs && t.tables == s.tables && t.maps == s.maps && |t.ref| == |s.ref|
    ensures Stored(mem, t)
  {
    forall e | e in t.dirs ensures DirStored(mem, t, e) {
      assert DirStored(mem, s, e);
      forall i: nat ensures PdeWord(t, e, i) == PdeWord(s, e, i) {}
    }
    forall k | k in t.tables ensures TableStored(mem, t, k) {
      assert TableStored(mem, s, k);
    }
  }

  ghost predicate SameExcept(s: Spaces, t: Spaces, k: (nat, nat)) {
    && t.dirs == s.dirs && t.tables == s.tables && |t.ref| == |s.ref|
    && forall j: (nat, nat) | j != k :: PteWord(t, j) == PteWord(s, j)
  }

  /** Writing the table word of (e, vpn) changes that entry and no other. */
  lemma PokeTable(mem: Memory, s: Spaces, t: Spaces, k: (nat, nat))
    requires Inv(s) && Stored(mem, s) && (k.0, Pdx(k.1)) in s.tables
    requires SameExcept(s, t, k)
    ensures var page := s.tables[(k.0, Pdx(k.1))];
      && page < |mem| && Ptx(k.1) < |mem[page]|
      && Stored(Poke(mem, page, Ptx(k.1), PteWord(t, k)), t)
  {
    hide CountsExact, FreeListExact, MapsTyped, PteWord;
    var slot := (k.0, Pdx(k.1));
    var page := s.tables[slot];
    assert TableStored(mem, s, slot);
    var mem' := Poke(mem, page, Ptx(k.1), PteWord(t, k));
    forall e | e in t.dirs ensures DirStored(mem', t, e) {
      assert DirStored(mem, s, e);
      forall i: nat ensures PdeWord(t, e, i) == PdeWord(s, e, i) {}
    }
    forall j: (nat, nat) | j in t.tables ensures TableStored(mem', t, j) {
      assert TableStored(mem, s, j);
      forall i | 0 <= i < ENTRIES
        ensures mem'[t.tables[j]][i] == PteWord(t, (j.0, PageNo(j.1, i)))
      {
        var v := PageNo(j.1, i);
        assert Pdx(v) == j.1 && Ptx(v) == i;
      }
    }
  }

  /** A zeroed page becomes the table of slot k once the directory word points to it. */
  lemma PokeNewTable(mem: Memory, s: Spaces, t: Spaces, k: (nat, nat), p: nat)
    requires Inv(s) && Stored(mem, s) && k !in s.tables && k.0 in s.dirs && TableSlot(k.0, k.1)
    requires p < |s.ref| && mem[p] == ZERO_PAGE && (s.use[p].Held? || s.use[p].Free?)
    requires k.0 == BASE ==> s.dirs.Keys == {BASE}
    requires t.dirs == s.dirs && t.tables == s.tables[k := p] && t.maps == s.maps && |t.ref| == |s.ref|
    ensures var dir := s.dirs[k.0];
      && dir < |mem| && |mem[dir]| == ENTRIES
      && Stored(Poke(mem, dir, k.1, Word(p, EntryFlags(0))), t)
  {
    hide CountsExact, FreeListExact;
    var dir := s.dirs[k.0];
    assert DirStored(mem, s, k.0);
    var mem' := Poke(mem, dir, k.1, Word(p, EntryFlags(0)));
    forall e | e in t.dirs ensures DirStored(mem', t, e) {
      assert DirStored(mem, s, e);
      forall i: nat | !(e == k.0 && i == k.1) ensures PdeWord(t, e, i) == PdeWord(s, e, i) {}
    }
    forall j: (nat, nat) | j in t.tables ensures TableStored(mem', t, j) {
      NewTableStored(mem, s, t, k, p, j);
    }
  }

  lemma NewTableStored(mem: Memory, s: Spaces, t: Spaces, k: (nat, nat), p: nat, j: (nat, nat))
    requires Typed(s) && |s.use| == |s.ref| && Stored(mem, s) && k !in s.tables && k.0 in s.dirs && TableSlot(k.0, k.1)
    requires p < |s.ref| && mem[p] == ZERO_PAGE && (s.use[p].Held? || s.use[p].Free?)
    requires t.dirs == s.dirs && t.tables == s.tables[k := p] && t.maps == s.maps && |t.ref| == |s.ref|
    requires s.dirs[k.0] < |mem| && |mem[s.dirs[k.0]]| == ENTRIES && j in t.tables
    ensures t.tables[j] < |mem|
    ensures TableStored(Poke(mem, s.dirs[k.0], k.1, Word(p, EntryFlags(0))), t, j)
  {
    hide PdeWord, EntryFlags;
    if j == k {
      forall i | 0 <= i < ENTRIES ensures PteWord(t, (k.0, PageNo(k.1, i))) == ZERO {
        assert Pdx(PageNo(k.1, i)) == k.1;
      }
    } else {
      assert TableStored(mem, s, j);
    }
  }

  /** Clearing a directory word takes the table out of the flat map. */
  lemma PokeDropTable(mem: Memory, s: Spaces, t: Spaces, k: (nat, nat))
    requires Inv(s) && Stored(mem, s) && k in s.tables && k.0 != BASE && k.1 < PDX_UTOP
    requires forall j | j in s.maps :: (j.0, Pdx(j.1)) != k
    requires t.dirs == s.dirs && t.tables == s.tables - {k} && t.maps == s.maps && |t.ref| == |s.ref|
    ensures k.0 in s.dirs
    ensures var dir := s.dirs[k.0];
      dir < |mem| && |mem[dir]| == ENTRIES && Stored(Poke(mem, dir, k.1, ZERO), t)
  {
    hide CountsExact, FreeListExact, MapsTyped;
    var dir := s.dirs[k.0];
    assert DirStored(mem, s, k.0);
    var mem' := Poke(mem, dir, k.1, ZERO);
    forall e | e in t.dirs ensures DirStored(mem', t, e) { DirAfterDrop(mem, s, t, k, e); }
    hide DirStored;
    forall j: (nat, nat) | j in t.tables ensures TableStored(mem', t, j) {
      assert TableStored(mem, s, j);
    }
  }

  lemma DirAfterDrop(mem: Memory, s: Spaces, t: Spaces, k: (nat, nat), e: nat)
    requires Inv(s) && Stored(mem, s) && k in s.tables && k.0 != BASE && k.1 < PDX_UTOP && k.0 in s.dirs
    requires t.dirs == s.dirs && t.tables == s.tables - {k} && t.maps == s.maps && e in t.dirs
    requires s.dirs[k.0] < |mem| && |mem[s.dirs[k.0]]| == ENTRIES
    ensures DirStored(Poke(mem, s.dirs[k.0], k.1, ZERO), t, e)
  {
    hide CountsExact, FreeListExact, MapsTyped, TablesTyped, TableStored;
    assert DirStored(mem, s, e);
    forall i: nat | !(e == k.0 && i == k.1) ensures PdeWord(t, e, i) == PdeWord(s, e, i) {}
  }

  /** Pages in use as data keep their content. */
  ghost predicate DataKept(mem: Memory, mem': Memory, s: Spaces) {
    && |mem'| == |mem| == |s.use|
    && forall p | 0 <= p < |mem| && (Mappable(s.use[p]) || s.use[p].Held?) :: mem'[p] == mem[p]
  }

  /** A valid directory word points to a page of ENTRIES words. */
  lemma TableIsWhole(mem: Memory, s: Spaces, e: nat, pdx: nat)
    requires Inv(s) && Stored(mem, s) && e in s.dirs && pdx < ENTRIES
    requires IsValid(PdeWord(s, e, pdx))
    ensures var page := PdeWord(s, e, pdx).ppn; page < |mem| && |mem[page]| == ENTRIES
  {
    hide CountsExact, FreeListExact, DirsTyped, TablesTyped, MapsTyped;
    ZeroIsInvalid();
    if pdx == PDX_UVPT && e != BASE {
      assert DirStored(mem, s, e);
    } else {
      var k := if PDX_UTOP <= pdx < PDX_UVPT then (BASE, pdx) else (e, pdx);
      assert TableStored(mem, s, k);
    }
  }

  /** A stronger form: only words of page tables change. */
  ghost predicate OnlyTablesChange(mem: Memory, mem': Memory, s: Spaces) {
    && |mem'| == |mem| == |s.use|
    && forall p | 0 <= p < |mem| && !s.use[p].Table? :: mem'[p] == mem[p]
  }

  lemma OnlyTablesKeepsData(mem: Memory, mem': Memory, s: Spaces)
    requires OnlyTablesChange(mem, mem', s)
    ensures DataKept(mem, mem', s)
  {}

  lemma DataKeptThrough(mem: Memory, mem': Memory, mem'': Memory, s: Spaces, s': Spaces)
    requires DataKept(mem, mem', s) && OnlyTablesChange(mem', mem'', s')
    requires forall p | 0 <= p < |s.use| && (Mappable(s.use[p]) || s.use[p].Held?) :: p < |s'.use| && !s'.use[p].Table?
    ensures DataKept(mem, mem'', s)
  {}

  lemma DirectoryIsWhole(mem: Memory, s: Spaces, e: nat)
    requires Inv(s) && Stored(mem, s) && e in s.dirs
    ensures s.dirs[e] < |mem| && |mem[s.dirs[e]]| == ENTRIES && s.use[s.dirs[e]] == Directory(e)
    ensures forall i | 0 <= i < ENTRIES :: mem[s.dirs[e]][i] == PdeWord(s, e, i)
  {
    assert DirStored(mem, s, e);
  }

  lemma MappedIsValid(s: Spaces, k: (nat, nat))
    requires Inv(s)
    ensures k in s.maps ==> IsValid(s.maps[k])
  {}

  lemma TablePageIsTyped(s: Spaces, k: (nat, nat))
    requires Inv(s) && (k.0, Pdx(k.1)) in s.tables
    ensures var page := s.tables[(k.0, Pdx(k.1))]; page < |s.use| && s.use[page].Table?
  {}

  lemma DataKeptAfterAlloc(mem: Memory, mem': Memory, mem'': Memory, s: Spaces, s': Spaces)
    requires DataKept(mem, mem', s) && DataKept(mem', mem'', s')
    requires s.free != [] && s.free[0] < |s.use| && s' == TakeFree(s)
    ensures DataKept(mem, mem'', s)
  {}

  lemma PassiveInsertKeepsEntries(s: Spaces, e: nat, p: nat, vpn: nat)
    requires Inv(s) && HeldPage(s, p) && e in s.dirs && e != BASE
    requires vpn < UTOP || (Pdx(vpn) == PDX_UVPT && (e, Ptx(vpn)) !in s.tables && TableSlot(e, Ptx(vpn)))
    ensures vpn < UTOP ==>
      && InsertDefined(s, (e, vpn))
      && KeepsEntries(s, Insert(s, (e, vpn), p, PTE_D).1, e, vpn)
      && (Insert(s, (e, vpn), p, PTE_D).0 == 0 ==>
            Entry(Insert(s, (e, vpn), p, PTE_D).1, e, vpn) == Word(p, EntryFlags(PTE_D)))
    ensures vpn >= UTOP ==>
      && KeepsEntries(s, UseAsTable(s, (e, Ptx(vpn)), p), e, vpn)
      && Entry(UseAsTable(s, (e, Ptx(vpn)), p), e, vpn) == Word(p, EntryFlags(0))
  {
    hide Typed, CountsExact, FreeListExact, Insert;
    if vpn < UTOP {
      InsertKeepsEntries(s, (e, vpn), p, PTE_D);
    } else {
      NewTableKeepsEntries(s, (e, Ptx(vpn)), p, e, vpn);
    }
  }

  lemma DataKeptRefl(mem: Memory, s: Spaces)
    requires |mem| == |s.use|
    ensures DataKept(mem, mem, s)
  {}

  lemma PairArithmetic(vpn: nat)
    ensures var even := Even(vpn);
      && Pdx(even) == Pdx(vpn) && Pdx(even + 1) == Pdx(vpn)
      && Ptx(even) == Even(Ptx(vpn)) && Ptx(even + 1) == Ptx(even) + 1 && Ptx(even) + 1 < ENTRIES
  {}

  /** The page that directory entry pdx of e points to. */
  predicate TablePage(s: Spaces, e: nat, pdx: nat, page: nat) {
    var k := if PDX_UTOP <= pdx < PDX_UVPT then (BASE, pdx) else (e, pdx);
    if e != BASE && pdx == PDX_UVPT then e in s.dirs && page == s.dirs[e]
    else k in s.tables && page == s.tables[k]
  }

  lemma EntryInPage(mem: Memory, s: Spaces, e: nat, vpn: nat, page: nat)
    requires Inv(s) && Stored(mem, s) && e in s.dirs && vpn < 0x10_0000
    requires e == BASE ==> Pdx(vpn) != PDX_UVPT
    requires TablePage(s, e, Pdx(vpn), page)
    ensures page < |mem| && |mem[page]| == ENTRIES && mem[page][Ptx(vpn)] == Entry(s, e, vpn)
  {
    hide Typed, CountsExact, FreeListExact, Stored;
    DirectoryIsWhole(mem, s, e);
    WalkFindsEntry(mem, s, e, vpn);
    EntryFlagsAreValid(page, 0);
    assert IsValid(PdeWord(s, e, Pdx(vpn)));
    TableIsWhole(mem, s, e, Pdx(vpn));
  }

  /** The two entries of a page pair lie side by side in one table. */
  lemma PairOf(mem: Memory, s: Spaces, e: nat, vpn: nat, page: nat)
    requires Inv(s) && Stored(mem, s) && e in s.dirs && e != BASE && vpn < 0x10_0000
    requires TablePage(s, e, Pdx(vpn), page)
    ensures var even := Even(Ptx(vpn));
      && page < |mem| && |mem[page]| == ENTRIES && even + 1 < ENTRIES
      && mem[page][even] == Entry(s, e, Even(vpn))
      && mem[page][even + 1] == Entry(s, e, Even(vpn) + 1)
  {
    hide Typed, CountsExact, FreeListExact, Stored, PdeWord, Entry, TablePage;
    PairArithmetic(vpn);
    EntryInPage(mem, s, e, Even(vpn), page);
    EntryInPage(mem, s, e, Even(vpn) + 1, page);
  }

  /** The refill as a whole: flush, back the page if it was missing, load the pair. */
  lemma RefillKeepsCoherent(tlb: Tlb, s: Spaces, t: Spaces, owner: map<nat, nat>, asid: nat, vpn: nat, victims: set<(nat, nat)>)
    requires Coherent(tlb, s, owner) && Inv(t)
    requires asid in owner && owner[asid] in t.dirs && owner[asid] != BASE
    requires forall a | a in owner && owner[a] == owner[asid] :: a == asid
    requires KeepsEntries(s, t, owner[asid], vpn)
    ensures Coherent((tlb - {(Vpn2(vpn), asid)} - victims)[(Vpn2(vpn), asid) := LoadedPair(t, owner[asid], vpn)], t, owner)
  {
    hide Inv, Coherent, KeepsEntries;
    FlushKeepsCoherent(tlb, s, t, owner, asid, vpn);
    LoadKeepsCoherent(tlb - {(Vpn2(vpn), asid)}, t, owner, asid, vpn, victims);
  }

  // ----- page directories of environments

  /** The content env_setup_vm gives a new directory: empty, with the windows of
      the template and the self-map. */
  function NewDirectory(mem: Memory, base: nat, p: nat): seq<Word>
    requires base < |mem| && |mem[base]| == ENTRIES && p < |mem| && |mem[p]| == ENTRIES
  {
    mem[p][..PDX_UTOP] + mem[base][PDX_UTOP..PDX_UVPT] + [Word(p, PTE_V)] + mem[p][PDX_ULIM..]
  }

  lemma NewDirectoryAt(mem: Memory, base: nat, p: nat, i: nat)
    requires base < |mem| && |mem[base]| == ENTRIES && p < |mem| && mem[p] == ZERO_PAGE && i < ENTRIES
    ensures |NewDirectory(mem, base, p)| == ENTRIES
    ensures NewDirectory(mem, base, p)[i] ==
      if PDX_UTOP <= i < PDX_UVPT then mem[base][i] else if i == PDX_UVPT then Word(p, PTE_V) else ZERO
  {}

  lemma NoTablesYet(s: Spaces, e: nat)
    requires Inv(s) && e !in s.dirs
    ensures forall i: nat :: (e, i) !in s.tables
  {}

  lemma StoredNewDirectory(mem: Memory, s: Spaces, e: nat, p: nat)
    requires Inv(s) && Stored(mem, s) && HeldPage(s, p) && mem[p] == ZERO_PAGE && e !in s.dirs && e != BASE
    ensures BASE in s.dirs && s.dirs[BASE] < |mem| && |mem[s.dirs[BASE]]| == ENTRIES
    ensures Stored(mem[p := NewDirectory(mem, s.dirs[BASE], p)], AddDirectory(s, e, p))
  {
    hide CountsExact, FreeListExact, MapsTyped, EntryFlags;
    NoTablesYet(s, e);
    DirectoryIsWhole(mem, s, BASE);
    var t := AddDirectory(s, e, p);
    var mem' := mem[p := NewDirectory(mem, s.dirs[BASE], p)];
    forall d | d in t.dirs ensures DirStored(mem', t, d) {
      if d == e {
        assert DirStored(mem, s, BASE);
        NewDirectoryAt(mem, s.dirs[BASE], p, 0);
        hide NewDirectory;
        forall i | 0 <= i < ENTRIES ensures mem'[p][i] == PdeWord(t, e, i) { NewDirectoryAt(mem, s.dirs[BASE], p, i); }
      } else {
        assert DirStored(mem, s, d);
        forall i: nat ensures PdeWord(t, d, i) == PdeWord(s, d, i) {}
      }
    }
    forall k | k in t.tables ensures TableStored(mem', t, k) {
      assert TableStored(mem, s, k);
    }
  }

  /** Taking one environment out leaves the others as they are stored. */
  lemma StoredWithout(mem: Memory, s: Spaces, t: Spaces, e: nat)
    requires Stored(mem, s) && |t.ref| == |s.ref| && e != BASE
    requires t.dirs == s.dirs - {e} && t.maps == s.maps
    requires t.tables == s.tables - TablesOf(s, e)
    ensures Stored(mem, t)
  {
    hide EntryFlags, PteWord;
    forall d | d in t.dirs ensures DirStored(mem, t, d) {
      assert DirStored(mem, s, d);
      forall i: nat ensures PdeWord(t, d, i) == PdeWord(s, d, i) {}
    }
    forall k | k in t.tables ensures TableStored(mem, t, k) {
      assert TableStored(mem, s, k);
      forall j: (nat, nat) ensures PteWord(t, j) == PteWord(s, j) { PteWordSame(s, t, j); }
    }
  }

  lemma PteWordSame(s: Spaces, t: Spaces, j: (nat, nat))
    requires t.maps == s.maps
    ensures PteWord(t, j) == PteWord(s, j)
  {}

  lemma EverythingFlushed(tlb0: Tlb, tlb: Tlb, asid: nat, s: Spaces, t: Spaces, e: nat)
    requires FlushedFor(tlb0, tlb, asid, s, t) && FreedUpTo(s, t, e, PageNo(PDX_UTOP, 0), PDX_UTOP)
    requires forall k | k in t.maps :: k.0 != e
    ensures UserPartFlushed(tlb0, tlb - {(Vpn2(UVPT + PDX_UVPT), asid)}, s, e, asid)
  {
    hide FreedAtZero;
    forall k | k in s.tables && k.0 == e && k.1 < PDX_UTOP ensures k !in t.tables {
      assert k in TablesBelow(s, e, PDX_UTOP);
    }
  }

  // ----- the state after page_init and env_init's first page_alloc

  /** LIST_INSERT_HEAD of pages lo, lo + 1, ... hi - 1 in turn. */
  function FreeRange(lo: nat, hi: nat): (q: seq<nat>)
    requires lo <= hi
    ensures |q| == hi - lo && forall i | 0 <= i < |q| :: q[i] == hi - 1 - i
  {
    if lo == hi then [] else [hi - 1] + FreeRange(lo, hi - 1)
  }

  function BootUse(used: nat, npage: nat, p: nat): Use {
    if p < used then Boot else if p == npage - 1 then Directory(BASE) else Free
  }

  function BootSpaces(used: nat, npage: nat): Spaces
    requires used < npage
  {
    Spaces(map[BASE := npage - 1], map[], map[],
      seq(npage, p => if used <= p < npage - 1 then 0 else 1), FreeRange(used, npage)[1..],
      seq(npage, (p: nat) => BootUse(used, npage, p)), set p: nat | p < used && BootUse(used, npage, p) == Boot)
  }

  lemma BootIsValid(used: nat, npage: nat)
    requires used < npage
    ensures Inv(BootSpaces(used, npage))
  {
    var s := BootSpaces(used, npage);
    forall p | 0 <= p < npage ensures s.use[p] == Free <==> p in s.free {
      if used <= p < npage - 1 { assert s.free[npage - 2 - p] == p; }
    }
    forall p | 0 <= p < npage
      ensures s.ref[p] == RefCount(s, p) + (if p in s.pinned then 1 else 0)
    {
      assert MapsTo(s.maps, p) == {} && KeysTo(s.tables, p) == {};
      assert KeysTo(s.dirs, p) == if p == npage - 1 then {BASE} else {};
    }
  }

  lemma BootIsStored(mem: Memory, used: nat, npage: nat)
    requires used < npage && |mem| == npage && mem[npage - 1] == ZERO_PAGE
    ensures Stored(mem, BootSpaces(used, npage))
  {
    var s := BootSpaces(used, npage);
    forall i | 0 <= i < ENTRIES ensures mem[npage - 1][i] == PdeWord(s, BASE, i) {}
  }
}
