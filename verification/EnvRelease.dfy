/** The specification of env_free (kern/env.c): giving back an address space. */
module EnvRelease {
  import opened Mmu
  import opened AddressSpaces

  /** env_free's treatment of a page table: clear the directory entry, then
      page_decref the table. */
  function DropTable(s: Spaces, k: (nat, nat)): Spaces
    requires k in s.tables && s.tables[k] < |s.ref| == |s.use| && s.ref[s.tables[k]] > 0
  {
    Release(s.(tables := s.tables - {k}), s.tables[k])
  }

  /** A page table is referenced by its directory entry and nothing else. */
  lemma TableIsCountedOnce(s: Spaces, k: (nat, nat))
    requires Inv(s) && k in s.tables
    ensures var p := s.tables[k];
      p < |s.ref| && s.ref[p] == 1 && p !in s.pinned && s.use[p] == Table(k.0, k.1)
    ensures MapsTo(s.maps, s.tables[k]) == {} && KeysTo(s.tables, s.tables[k]) == {k}
    ensures KeysTo(s.dirs, s.tables[k]) == {}
    ensures k.0 in s.dirs && TableSlot(k.0, k.1)
  {
    hide FreeListExact;
    var p := s.tables[k];
    assert MapsTo(s.maps, p) == {};
    assert KeysTo(s.dirs, p) == {};
    assert KeysTo(s.tables, p) == {k} by {
      forall j | j in s.tables && s.tables[j] == p ensures j == k {}
    }
  }

  lemma DropTableCounts(s: Spaces, k: (nat, nat))
    requires CountsExact(s) && |s.use| == |s.ref| && k in s.tables
    requires s.tables[k] < |s.ref| && s.ref[s.tables[k]] > 0
    ensures CountsExact(DropTable(s, k))
  {
    var t := DropTable(s, k);
    forall q | 0 <= q < |t.ref|
      ensures t.ref[q] == RefCount(t, q) + (if q in t.pinned then 1 else 0)
    {
      KeysToDrop(s.tables, k, q);
      assert s.ref[q] == RefCount(s, q) + (if q in s.pinned then 1 else 0);
    }
  }

  lemma DropTableEntryKeepsTyped(s: Spaces, k: (nat, nat))
    requires Typed(s) && |s.use| == |s.ref| && k in s.tables
    requires forall j | j in s.maps :: (j.0, Pdx(j.1)) != k
    requires MapsTo(s.maps, s.tables[k]) == {} && KeysTo(s.tables, s.tables[k]) == {k}
    requires s.tables[k] !in s.pinned
    ensures Typed(s.(tables := s.tables - {k}, use := s.use[s.tables[k] := Free]))
  {
    var p := s.tables[k];
    var t := s.(tables := s.tables - {k}, use := s.use[p := Free]);
    assert MapsTyped(t) by {
      forall j | j in t.maps ensures t.maps[j].ppn != p {
        assert j in MapsTo(s.maps, t.maps[j].ppn);
      }
    }
    assert TablesTyped(t) by {
      forall j | j in t.tables ensures t.tables[j] != p {
        assert j in KeysTo(s.tables, t.tables[j]);
      }
    }
  }

  lemma DropTableKeepsInv(s: Spaces, k: (nat, nat))
    requires Inv(s) && k in s.tables
    requires forall j | j in s.maps :: (j.0, Pdx(j.1)) != k
    ensures s.tables[k] < |s.ref| && s.ref[s.tables[k]] > 0
    ensures Inv(DropTable(s, k))
  {
    hide DirsTyped, TablesTyped, MapsTyped, CountsExact;
    TableIsCountedOnce(s, k);
    var t := DropTable(s, k);
    ReleaseFreeList(s.(tables := s.tables - {k}), s.tables[k]);
    DropTableCounts(s, k);
    DropTableEntryKeepsTyped(s, k);
    TypedIgnoresCounts(s.(tables := t.tables, use := t.use), t.ref, t.free);
  }

  /** What a loop that only unmaps has done between states s and t: it removed
      the map keys mk and the table keys tk, and freed exactly the pages whose
      count fell to zero. */
  ghost predicate Released(s: Spaces, t: Spaces, mk: set<(nat, nat)>, tk: set<(nat, nat)>)
    requires |s.use| == |s.ref| && |t.use| == |t.ref|
  {
    && t.maps == s.maps - mk && t.tables == s.tables - tk
    && t.dirs == s.dirs && t.pinned == s.pinned
    && FreedAtZero(s, t) && UsesFollow(s, t)
  }

  /** A page that was freed is typed as free; the others keep their use. */
  ghost predicate UsesFollow(s: Spaces, t: Spaces)
    requires |s.use| == |s.ref| && |t.use| == |t.ref|
  {
    && |t.use| == |s.use|
    && forall p | 0 <= p < |s.use| :: t.use[p] == if s.ref[p] > 0 && t.ref[p] == 0 then Free else s.use[p]
  }

  ghost predicate FreedAtZero(s: Spaces, t: Spaces) {
    && |t.ref| == |s.ref|
    && (forall p | 0 <= p < |s.ref| :: t.ref[p] <= s.ref[p])
    && (forall p | 0 <= p < |s.ref| :: p in t.free <==> p in s.free || (s.ref[p] > 0 && t.ref[p] == 0))
  }

  lemma FreedAtZeroTrans(s: Spaces, t: Spaces, u: Spaces)
    requires FreedAtZero(s, t) && FreedAtZero(t, u)
    ensures FreedAtZero(s, u)
    ensures |s.use| == |s.ref| && |t.use| == |t.ref| && |u.use| == |u.ref| && UsesFollow(s, t) && UsesFollow(t, u) ==>
      UsesFollow(s, u)
  {}

  lemma ReleasedTrans(s: Spaces, t: Spaces, u: Spaces,
      mk: set<(nat, nat)>, tk: set<(nat, nat)>, mk': set<(nat, nat)>, tk': set<(nat, nat)>)
    requires |s.use| == |s.ref| && |t.use| == |t.ref| && |u.use| == |u.ref|
    requires Released(s, t, mk, tk) && Released(t, u, mk', tk')
    ensures Released(s, u, mk + mk', tk + tk')
  {
    FreedAtZeroTrans(s, t, u);
    assert s.maps - mk - mk' == s.maps - (mk + mk');
    assert s.tables - tk - tk' == s.tables - (tk + tk');
  }

  lemma ReleaseFreesAtZero(s: Spaces, p: nat)
    requires |s.use| == |s.ref| && p < |s.ref| && s.ref[p] > 0
    ensures FreedAtZero(s, Release(s, p)) && UsesFollow(s, Release(s, p))
  {
    var t := Release(s, p);
    assert forall q :: q in t.free <==> q in s.free || (s.ref[p] == 1 && q == p);
  }

  lemma UnmapReleases(s: Spaces, k: (nat, nat))
    requires Inv(s) && k in s.maps
    ensures s.maps[k].ppn < |s.ref| && s.ref[s.maps[k].ppn] > 0
    ensures Released(s, Unmap(s, k), {k}, {})
  {
    hide Typed, CountsExact, FreeListExact;
    MappedIsCounted(s, k);
    ReleaseFreesAtZero(s.(maps := s.maps - {k}), s.maps[k].ppn);
    assert s.tables - {} == s.tables;
  }

  lemma DropTableReleases(s: Spaces, k: (nat, nat))
    requires Inv(s) && k in s.tables
    ensures s.tables[k] < |s.ref| && s.ref[s.tables[k]] > 0
    ensures Released(s, DropTable(s, k), {}, {k})
  {
    hide Typed, CountsExact, FreeListExact;
    TableIsCountedOnce(s, k);
    ReleaseFreesAtZero(s.(tables := s.tables - {k}), s.tables[k]);
    assert s.maps - {} == s.maps;
  }

  // ----- the page directory

  /** Tables an environment still has once its user part is unmapped: those of
      the kernel half, which env_free never visits. */
  ghost function TablesOf(s: Spaces, e: nat): set<(nat, nat)> {
    set k | k in s.tables && k.0 == e
  }

  ghost function PagesAt(tables: map<(nat, nat), nat>, ks: set<(nat, nat)>): set<nat> {
    set k | k in ks && k in tables :: tables[k]
  }

  /** Forget the tables that are about to become unreachable; their pages stay
      allocated with their one reference. */
  ghost function Strand(s: Spaces, e: nat): Spaces {
    var lost := PagesAt(s.tables, TablesOf(s, e));
    s.(tables := s.tables - TablesOf(s, e), pinned := s.pinned + lost,
       use := HoldAll(s.use, lost))
  }

  ghost function HoldAll(use: seq<Use>, lost: set<nat>): (r: seq<Use>)
    ensures |r| == |use|
    ensures forall p | 0 <= p < |use| :: r[p] == if p in lost then Held else use[p]
  {
    seq(|use|, p requires 0 <= p < |use| => if p in lost then Held else use[p])
  }

  lemma StrandCounts(s: Spaces, e: nat, p: nat)
    requires Inv(s) && p < |s.ref|
    ensures var t := Strand(s, e);
      s.ref[p] == RefCount(t, p) + (if p in t.pinned then 1 else 0)
    ensures p in PagesAt(s.tables, TablesOf(s, e)) ==> s.use[p].Table? && s.use[p].env == e && p !in s.pinned
  {
    hide FreeListExact;
    var ks := TablesOf(s, e);
    var lost := PagesAt(s.tables, ks);
    if p in lost {
      var k :| k in ks && s.tables[k] == p;
      TableIsCountedOnce(s, k);
      assert KeysTo(s.tables - ks, p) == {} by {
        forall j | j in s.tables && s.tables[j] == p ensures j == k { assert j in KeysTo(s.tables, p); }
      }
      assert KeysTo(s.dirs, p) == {};
    } else {
      assert KeysTo(s.tables - ks, p) == KeysTo(s.tables, p);
    }
  }

  lemma StrandTyped(s: Spaces, e: nat)
    requires Inv(s) && forall j | j in s.maps :: j.0 != e
    ensures Typed(Strand(s, e))
  {
    hide CountsExact, FreeListExact, RefCount;
    var t, lost := Strand(s, e), PagesAt(s.tables, TablesOf(s, e));
    forall p | p in lost ensures p < |s.ref| && s.use[p].Table? && s.use[p].env == e {
      var k :| k in TablesOf(s, e) && s.tables[k] == p;
    }
  }

  lemma StrandKeepsInv(s: Spaces, e: nat)
    requires Inv(s) && forall j | j in s.maps :: j.0 != e
    ensures Inv(Strand(s, e))
  {
    hide Typed;
    var t := Strand(s, e);
    StrandTyped(s, e);
    forall p | 0 <= p < |s.ref|
      ensures t.ref[p] == RefCount(t, p) + (if p in t.pinned then 1 else 0)
      ensures t.use[p] == Free <==> p in t.free
    {
      StrandCounts(s, e, p);
    }
  }

  /** Release the page directory itself. */
  function DropDirectory(s: Spaces, e: nat): Spaces
    requires e in s.dirs && s.dirs[e] < |s.ref| == |s.use| && s.ref[s.dirs[e]] > 0
  {
    Release(s.(dirs := s.dirs - {e}), s.dirs[e])
  }

  lemma DirectoryIsCountedOnce(s: Spaces, e: nat)
    requires Inv(s) && e in s.dirs
    ensures var p := s.dirs[e];
      p < |s.ref| && s.ref[p] == 1 && p !in s.pinned && s.use[p] == Directory(e)
    ensures KeysTo(s.dirs, s.dirs[e]) == {e}
  {
    hide FreeListExact;
    var p := s.dirs[e];
    assert MapsTo(s.maps, p) == {};
    assert KeysTo(s.tables, p) == {};
    assert KeysTo(s.dirs, p) == {e} by {
      forall j | j in s.dirs && s.dirs[j] == p ensures j == e {}
    }
  }

  lemma DropDirectoryCounts(s: Spaces, e: nat)
    requires CountsExact(s) && |s.use| == |s.ref| && e in s.dirs
    requires s.dirs[e] < |s.ref| && s.ref[s.dirs[e]] > 0
    ensures CountsExact(DropDirectory(s, e))
  {
    var t := DropDirectory(s, e);
    forall q | 0 <= q < |t.ref|
      ensures t.ref[q] == RefCount(t, q) + (if q in t.pinned then 1 else 0)
    {
      KeysToDrop(s.dirs, e, q);
      assert s.ref[q] == RefCount(s, q) + (if q in s.pinned then 1 else 0);
    }
  }

  lemma DropDirectoryTyped(s: Spaces, e: nat)
    requires |s.use| == |s.ref| && Typed(s) && e in s.dirs && e != BASE
    requires TablesOf(s, e) == {} && s.dirs[e] !in s.pinned
    ensures s.dirs[e] < |s.ref|
    ensures Typed(s.(dirs := s.dirs - {e}, use := s.use[s.dirs[e] := Free]))
  {
    forall k | k in s.tables ensures k.0 != e { assert k !in TablesOf(s, e); }
  }

  lemma DropDirectoryKeepsInv(s: Spaces, e: nat)
    requires Inv(s) && e in s.dirs && e != BASE
    requires TablesOf(s, e) == {}
    ensures s.dirs[e] < |s.ref| && s.ref[s.dirs[e]] == 1
    ensures Inv(DropDirectory(s, e))
    ensures FreedAtZero(s, DropDirectory(s, e))
  {
    hide DirsTyped, TablesTyped, MapsTyped, CountsExact;
    DirectoryIsCountedOnce(s, e);
    var t := DropDirectory(s, e);
    ReleaseFreeList(s.(dirs := t.dirs), s.dirs[e]);
    ReleaseFreesAtZero(s.(dirs := t.dirs), s.dirs[e]);
    DropDirectoryCounts(s, e);
    DropDirectoryTyped(s, e);
    TypedIgnoresCounts(s.(dirs := t.dirs, use := t.use), t.ref, t.free);
  }

  // ----- env_free as a whole

  ghost function KernelHalf(s: Spaces, e: nat): set<(nat, nat)> {
    set k | k in s.tables && k.0 == e && k.1 >= PDX_ULIM
  }

  /** The effect of env_free(e). */
  ghost predicate EnvFreed(s: Spaces, e: nat, t: Spaces) {
    && t.dirs == s.dirs - {e}
    && t.maps == (map k | k in s.maps && k.0 != e :: s.maps[k])
    && t.tables == (map k | k in s.tables && k.0 != e :: s.tables[k])
    && t.pinned == s.pinned + PagesAt(s.tables, KernelHalf(s, e))
    && FreedAtZero(s, t) && NoDup(t.free) && (forall p | p in t.free :: p < |s.ref|)
    && |t.use| == |s.use| == |s.ref|
    && (forall p | 0 <= p < |s.ref| :: t.ref[p] == s.ref[p] - RefsFrom(s, e, p))
    && (forall p | 0 <= p < |s.ref| :: t.use[p] ==
          if s.ref[p] > 0 && t.ref[p] == 0 then Free
          else if p in PagesAt(s.tables, KernelHalf(s, e)) then Held else s.use[p])
  }

  /** The references to page p that env_free(e) drops. */
  ghost function RefsFrom(s: Spaces, e: nat, p: nat): nat {
    |set k | k in MapsTo(s.maps, p) && k.0 == e|
    + |set k | k in KeysTo(s.tables, p) && k.0 == e && k.1 < PDX_ULIM|
    + (if e in s.dirs && s.dirs[e] == p then 1 else 0)
  }

  lemma SplitMaps(s: Spaces, e: nat, p: nat)
    ensures |MapsTo(s.maps, p)| ==
      |set k | k in MapsTo(s.maps, p) && k.0 == e| + |MapsTo(map k | k in s.maps && k.0 != e :: s.maps[k], p)|
  {
    var mine := set k | k in MapsTo(s.maps, p) && k.0 == e;
    var others := MapsTo(map k | k in s.maps && k.0 != e :: s.maps[k], p);
    assert MapsTo(s.maps, p) == mine + others && mine !! others;
  }

  ghost function LostKeys(s: Spaces, e: nat, p: nat): set<(nat, nat)> {
    set k | k in KeysTo(s.tables, p) && k.0 == e && k.1 >= PDX_ULIM
  }

  lemma SplitTables(s: Spaces, e: nat, p: nat)
    ensures |KeysTo(s.tables, p)| ==
      |set k | k in KeysTo(s.tables, p) && k.0 == e && k.1 < PDX_ULIM|
      + |KeysTo(map k | k in s.tables && k.0 != e :: s.tables[k], p)|
      + |LostKeys(s, e, p)|
  {
    var mine := set k | k in KeysTo(s.tables, p) && k.0 == e && k.1 < PDX_ULIM;
    var others := KeysTo(map k | k in s.tables && k.0 != e :: s.tables[k], p);
    var lost := LostKeys(s, e, p);
    OthersKeys(s, e, p);
    assert KeysTo(s.tables, p) == mine + lost + others;
    ThreeParts(mine, lost, others);
  }

  lemma OthersKeys(s: Spaces, e: nat, p: nat)
    ensures KeysTo(map k | k in s.tables && k.0 != e :: s.tables[k], p) == set k | k in KeysTo(s.tables, p) && k.0 != e
  {}

  lemma ThreeParts<T>(a: set<T>, b: set<T>, c: set<T>)
    requires a !! b && a !! c && b !! c
    ensures |a + b + c| == |a| + |b| + |c|
  {
    assert (a + b) !! c;
  }

  lemma LostOnce(s: Spaces, e: nat, p: nat)
    requires Inv(s)
    ensures |LostKeys(s, e, p)| == if p in PagesAt(s.tables, KernelHalf(s, e)) then 1 else 0
  {
    hide CountsExact, FreeListExact, Typed;
    if p in PagesAt(s.tables, KernelHalf(s, e)) {
      var k :| k in KernelHalf(s, e) && s.tables[k] == p;
      TableIsCountedOnce(s, k);
      assert LostKeys(s, e, p) == {k};
    } else {
      forall k | k in s.tables ensures k !in LostKeys(s, e, p) {
        assert k in KernelHalf(s, e) ==> s.tables[k] in PagesAt(s.tables, KernelHalf(s, e));
      }
    }
  }

  lemma SplitDirs(s: Spaces, e: nat, p: nat)
    ensures |KeysTo(s.dirs, p)| == (if e in s.dirs && s.dirs[e] == p then 1 else 0) + |KeysTo(s.dirs - {e}, p)|
  {
    if e in s.dirs {
      KeysToDrop(s.dirs, e, p);
    } else {
      assert s.dirs - {e} == s.dirs;
    }
  }

  /** What env_free drops is what is missing afterwards. */
  lemma RefsFromAreGone(s: Spaces, e: nat, t: Spaces, p: nat)
    requires Inv(s) && t.dirs == s.dirs - {e}
    requires t.maps == (map k | k in s.maps && k.0 != e :: s.maps[k])
    requires t.tables == (map k | k in s.tables && k.0 != e :: s.tables[k])
    ensures RefCount(s, p) == RefsFrom(s, e, p) + RefCount(t, p)
      + (if p in PagesAt(s.tables, KernelHalf(s, e)) then 1 else 0)
  {
    hide Inv;
    SplitMaps(s, e, p);
    SplitTables(s, e, p);
    LostOnce(s, e, p);
    SplitDirs(s, e, p);
  }

  lemma LostIsUnpinned(s: Spaces, e: nat, p: nat)
    requires Inv(s) && p in PagesAt(s.tables, KernelHalf(s, e))
    ensures p !in s.pinned && p < |s.ref| && s.ref[p] == 1 && s.use[p].Table?
    ensures RefsFrom(s, e, p) == 0
  {
    hide Inv;
    var k :| k in KernelHalf(s, e) && s.tables[k] == p;
    TableIsCountedOnce(s, k);
    forall j | j in KeysTo(s.tables, p) ensures j.1 >= PDX_ULIM {}
    assert (set j | j in KeysTo(s.tables, p) && j.0 == e && j.1 < PDX_ULIM) == {};
    assert (set j | j in MapsTo(s.maps, p) && j.0 == e) == {};
    assert e in s.dirs && s.dirs[e] == p ==> e in KeysTo(s.dirs, p);
  }

  /** The effect of env_free preserves the invariant. */
  lemma EnvFreedKeepsInv(s: Spaces, e: nat, t: Spaces)
    requires Inv(s) && e in s.dirs && e != BASE && EnvFreed(s, e, t)
    ensures Inv(t)
  {
    hide Typed, FreeListExact, RefsFrom, RefCount, KernelHalf, FreedAtZero;
    EnvFreedTyped(s, e, t);
    EnvFreedList(s, e, t);
    assert |t.ref| == |s.ref|;
    forall p | 0 <= p < |t.ref| ensures t.ref[p] == RefCount(t, p) + (if p in t.pinned then 1 else 0) {
      RefsFromAreGone(s, e, t, p);
      if p in PagesAt(s.tables, KernelHalf(s, e)) { LostIsUnpinned(s, e, p); }
    }
  }

  lemma EnvFreedList(s: Spaces, e: nat, t: Spaces)
    requires Inv(s) && EnvFreed(s, e, t)
    ensures FreeListExact(t) && |t.ref| == |s.ref|
  {
    hide Typed, CountsExact, RefsFrom, KernelHalf;
    forall p | p in PagesAt(s.tables, KernelHalf(s, e)) ensures p < |s.ref| && s.use[p].Table? {
      LostIsUnpinned(s, e, p);
    }
  }

  /** A page that is still in use in t keeps its type: it was not freed, because
      something refers to it, and it is not a lost table. */
  lemma StillReferenced(s: Spaces, e: nat, t: Spaces, p: nat)
    requires Inv(s) && EnvFreed(s, e, t) && p < |s.ref| && p !in PagesAt(s.tables, KernelHalf(s, e))
    requires RefCount(t, p) > 0
    ensures t.use[p] == s.use[p]
  {
    hide Typed, FreeListExact, RefsFrom, RefCount, KernelHalf;
    RefsFromAreGone(s, e, t, p);
  }

  lemma EnvFreedTyped(s: Spaces, e: nat, t: Spaces)
    requires Inv(s) && e in s.dirs && e != BASE && EnvFreed(s, e, t)
    ensures |t.use| == |t.ref| && Typed(t)
  {
    hide Typed, CountsExact, FreeListExact, RefsFrom, KernelHalf;
    DirsStayTyped(s, e, t);
    TablesStayTyped(s, e, t);
    MapsStayTyped(s, e, t);
    forall p | p in t.pinned ensures p < |t.use| && (t.use[p].Boot? || t.use[p].Held?) {
      PinnedStays(s, e, t, p);
    }
    assert Typed(t) by { TypedParts(t); }
  }

  lemma TypedParts(t: Spaces)
    requires |t.use| == |t.ref| && DirsTyped(t) && TablesTyped(t) && MapsTyped(t)
    requires forall p | p in t.pinned :: p < |t.use| && (t.use[p].Boot? || t.use[p].Held?)
    ensures Typed(t)
  {}

  lemma LostBelongToE(s: Spaces, e: nat, p: nat)
    requires Inv(s) && p in PagesAt(s.tables, KernelHalf(s, e))
    ensures p < |s.ref| && s.use[p].Table? && s.use[p].env == e
  {
    hide CountsExact, FreeListExact;
    var k :| k in KernelHalf(s, e) && s.tables[k] == p;
  }

  lemma DirsStayTyped(s: Spaces, e: nat, t: Spaces)
    requires Inv(s) && e in s.dirs && e != BASE && EnvFreed(s, e, t)
    ensures |t.use| == |t.ref| && DirsTyped(t)
  {
    hide TablesTyped, MapsTyped, CountsExact, FreeListExact, RefsFrom, KernelHalf;
    forall d | d in t.dirs ensures t.dirs[d] < |t.use| && t.use[t.dirs[d]] == Directory(d) {
      var p := s.dirs[d];
      if p in PagesAt(s.tables, KernelHalf(s, e)) { LostBelongToE(s, e, p); }
      assert d in KeysTo(t.dirs, p);
      StillReferenced(s, e, t, p);
    }
  }

  lemma TablesStayTyped(s: Spaces, e: nat, t: Spaces)
    requires Inv(s) && e in s.dirs && e != BASE && EnvFreed(s, e, t)
    ensures |t.use| == |t.ref| && TablesTyped(t)
  {
    hide DirsTyped, MapsTyped, CountsExact, FreeListExact, RefsFrom, KernelHalf;
    forall k | k in t.tables ensures t.tables[k] < |t.use| && t.use[t.tables[k]] == Table(k.0, k.1) {
      var p := s.tables[k];
      if p in PagesAt(s.tables, KernelHalf(s, e)) { LostBelongToE(s, e, p); }
      assert k in KeysTo(t.tables, p);
      StillReferenced(s, e, t, p);
    }
  }

  lemma MapsStayTyped(s: Spaces, e: nat, t: Spaces)
    requires Inv(s) && e in s.dirs && e != BASE && EnvFreed(s, e, t)
    ensures |t.use| == |t.ref| && MapsTyped(t)
  {
    hide DirsTyped, TablesTyped, CountsExact, FreeListExact, RefsFrom, KernelHalf;
    forall k | k in t.maps ensures t.maps[k].ppn < |t.use| && Mappable(t.use[t.maps[k].ppn]) {
      var p := s.maps[k].ppn;
      if p in PagesAt(s.tables, KernelHalf(s, e)) { LostBelongToE(s, e, p); }
      assert k in MapsTo(t.maps, p);
      StillReferenced(s, e, t, p);
    }
  }

  lemma PinnedStays(s: Spaces, e: nat, t: Spaces, p: nat)
    requires Inv(s) && EnvFreed(s, e, t) && p in t.pinned
    ensures p < |t.use| && (t.use[p].Boot? || t.use[p].Held?)
  {
    hide FreeListExact, RefsFrom, RefCount, KernelHalf;
    if p in PagesAt(s.tables, KernelHalf(s, e)) {
      LostIsUnpinned(s, e, p);
    } else {
      RefsFromAreGone(s, e, t, p);
    }
  }

  /** Page p is referenced, and only from the address space of e. */
  ghost predicate HeldOnlyBy(s: Spaces, e: nat, p: nat) {
    && RefCount(s, p) > 0 && p !in s.pinned
    && (forall k | k in MapsTo(s.maps, p) :: k.0 == e)
    && (forall k | k in KeysTo(s.tables, p) :: k.0 == e)
    && (forall k | k in KeysTo(s.dirs, p) :: k == e)
  }

  lemma NoneLeft<K>(a: set<K>)
    ensures |a| == 0 <==> a == {}
  {}

  lemma LeftoverReferences(s: Spaces, e: nat, t: Spaces, p: nat)
    requires EnvFreed(s, e, t)
    ensures RefCount(t, p) == 0 <==>
      && (forall k | k in MapsTo(s.maps, p) :: k.0 == e)
      && (forall k | k in KeysTo(s.tables, p) :: k.0 == e)
      && (forall k | k in KeysTo(s.dirs, p) :: k == e)
  {
    hide FreedAtZero;
    assert MapsTo(t.maps, p) == set k | k in MapsTo(s.maps, p) && k.0 != e;
    assert KeysTo(t.tables, p) == set k | k in KeysTo(s.tables, p) && k.0 != e;
    assert KeysTo(t.dirs, p) == set k | k in KeysTo(s.dirs, p) && k != e;
    NoneLeft(MapsTo(t.maps, p));
    NoneLeft(KeysTo(t.tables, p));
    NoneLeft(KeysTo(t.dirs, p));
    if RefCount(t, p) == 0 {
      forall k | k in MapsTo(s.maps, p) ensures k.0 == e { assert k !in MapsTo(t.maps, p); }
      forall k | k in KeysTo(s.tables, p) ensures k.0 == e { assert k !in KeysTo(t.tables, p); }
      forall k | k in KeysTo(s.dirs, p) ensures k == e { assert k !in KeysTo(t.dirs, p); }
    }
  }

  /** env_free puts on the free list exactly the pages that only e held, except
      the page tables of the kernel half, and no page leaves the list. */
  lemma GivesBackExactly(s: Spaces, e: nat, t: Spaces, p: nat)
    requires Inv(s) && Inv(t) && EnvFreed(s, e, t) && p < |s.ref|
    ensures p in s.free ==> p in t.free
    ensures p in t.free && p !in s.free <==>
      HeldOnlyBy(s, e, p) && p !in PagesAt(s.tables, KernelHalf(s, e))
  {
    hide Typed, KernelHalf;
    LeftoverReferences(s, e, t, p);
    NoneLeft(MapsTo(s.maps, p));
    NoneLeft(KeysTo(s.tables, p));
    NoneLeft(KeysTo(s.dirs, p));
  }

  /** Nothing is lost exactly when the environment never got a page table for
      the kernel half of its directory. */
  lemma LosesNothingIff(s: Spaces, e: nat, t: Spaces)
    requires Inv(s) && Inv(t) && EnvFreed(s, e, t)
    ensures (forall p | 0 <= p < |s.ref| && HeldOnlyBy(s, e, p) :: p in t.free) <==> KernelHalf(s, e) == {}
  {
    hide Typed;
    forall p | 0 <= p < |s.ref| && HeldOnlyBy(s, e, p) ensures p in t.free <==> p !in PagesAt(s.tables, KernelHalf(s, e)) {
      GivesBackExactly(s, e, t, p);
      assert p !in s.free;
    }
    if k :| k in KernelHalf(s, e) {
      var p := s.tables[k];
      TableIsCountedOnce(s, k);
      assert p in PagesAt(s.tables, KernelHalf(s, e));
      NothingElseHolds(s, k);
      assert HeldOnlyBy(s, e, p);
    }
  }

  lemma NothingElseHolds(s: Spaces, k: (nat, nat))
    requires Inv(s) && k in s.tables
    ensures HeldOnlyBy(s, k.0, s.tables[k])
  {
    hide FreeListExact;
    TableIsCountedOnce(s, k);
    assert KeysTo(s.dirs, s.tables[k]) == {};
  }

  // ----- progress of the loops of env_free

  ghost function MapsBelow(s: Spaces, e: nat, vpn: nat): set<(nat, nat)> {
    set k | k in s.maps && k.0 == e && k.1 < vpn
  }

  ghost function TablesBelow(s: Spaces, e: nat, pdx: nat): set<(nat, nat)> {
    set k | k in s.tables && k.0 == e && k.1 < pdx
  }

  /** Every entry of e below page vpn and every table below slot pdx is gone. */
  ghost predicate FreedUpTo(s: Spaces, t: Spaces, e: nat, vpn: nat, pdx: nat) {
    && |s.use| == |s.ref| && |t.use| == |t.ref|
    && Released(s, t, MapsBelow(s, e, vpn), TablesBelow(s, e, pdx))
  }

  lemma FreedNothing(s: Spaces, e: nat)
    requires |s.use| == |s.ref|
    ensures FreedUpTo(s, s, e, 0, 0)
  {
    assert MapsBelow(s, e, 0) == {} && TablesBelow(s, e, 0) == {};
    assert s.maps - {} == s.maps && s.tables - {} == s.tables;
  }

  /** One turn of the inner loop. */
  lemma FreedOneEntry(s: Spaces, t: Spaces, e: nat, vpn: nat, pdx: nat)
    requires Inv(t) && FreedUpTo(s, t, e, vpn, pdx)
    ensures (e, vpn) !in t.maps ==> FreedUpTo(s, t, e, vpn + 1, pdx)
    ensures (e, vpn) in t.maps ==>
      && t.maps[(e, vpn)].ppn < |t.ref| && t.ref[t.maps[(e, vpn)].ppn] > 0
      && Inv(Unmap(t, (e, vpn)))
      && FreedUpTo(s, Unmap(t, (e, vpn)), e, vpn + 1, pdx)
  {
    hide Typed, CountsExact, FreeListExact, FreedAtZero;
    var k := (e, vpn);
    if k in t.maps {
      UnmapKeepsInv(t, k);
      UnmapReleases(t, k);
      ReleasedTrans(s, t, Unmap(t, k), MapsBelow(s, e, vpn), TablesBelow(s, e, pdx), {k}, {});
      assert MapsBelow(s, e, vpn) + {k} == MapsBelow(s, e, vpn + 1);
      assert TablesBelow(s, e, pdx) + {} == TablesBelow(s, e, pdx);
    } else {
      assert MapsBelow(s, e, vpn + 1) == MapsBelow(s, e, vpn);
    }
  }

  /** The end of the inner loop: the emptied table itself. */
  lemma FreedOneTable(s: Spaces, t: Spaces, e: nat, pdx: nat)
    requires Inv(t) && FreedUpTo(s, t, e, PageNo(pdx + 1, 0), pdx) && (e, pdx) in t.tables
    ensures t.tables[(e, pdx)] < |t.ref| && t.ref[t.tables[(e, pdx)]] > 0
    ensures forall j | j in t.maps :: (j.0, Pdx(j.1)) != (e, pdx)
    ensures Inv(DropTable(t, (e, pdx)))
    ensures FreedUpTo(s, DropTable(t, (e, pdx)), e, PageNo(pdx + 1, 0), pdx + 1)
  {
    hide Typed, CountsExact, FreeListExact, FreedAtZero;
    var k := (e, pdx);
    var vpn := PageNo(pdx + 1, 0);
    forall j | j in t.maps ensures (j.0, Pdx(j.1)) != k {
      assert j !in MapsBelow(s, e, vpn);
    }
    DropTableKeepsInv(t, k);
    DropTableReleases(t, k);
    ReleasedTrans(s, t, DropTable(t, k), MapsBelow(s, e, vpn), TablesBelow(s, e, pdx), {}, {k});
    assert MapsBelow(s, e, vpn) + {} == MapsBelow(s, e, vpn);
    assert TablesBelow(s, e, pdx) + {k} == TablesBelow(s, e, pdx + 1);
  }

  /** A directory slot without a table has no entries either. */
  lemma FreedNoTable(s: Spaces, t: Spaces, e: nat, pdx: nat)
    requires Inv(s) && Inv(t) && FreedUpTo(s, t, e, PageNo(pdx, 0), pdx) && (e, pdx) !in t.tables
    ensures FreedUpTo(s, t, e, PageNo(pdx + 1, 0), pdx + 1)
  {
    hide CountsExact, FreeListExact, FreedAtZero, DirsTyped, TablesTyped;
    assert (e, pdx) !in s.tables by { assert (e, pdx) !in TablesBelow(s, e, pdx); }
    assert TablesBelow(s, e, pdx + 1) == TablesBelow(s, e, pdx);
    forall k | k in MapsBelow(s, e, PageNo(pdx + 1, 0)) ensures k in MapsBelow(s, e, PageNo(pdx, 0)) {
      assert Pdx(k.1) != pdx;
    }
    assert MapsBelow(s, e, PageNo(pdx + 1, 0)) == MapsBelow(s, e, PageNo(pdx, 0));
  }

  lemma NothingLeft(s: Spaces, t: Spaces, e: nat)
    requires Inv(s) && FreedUpTo(s, t, e, PageNo(PDX_UTOP, 0), PDX_UTOP) && e != BASE
    ensures forall k | k in t.maps :: k.0 != e
    ensures t.maps == (map k | k in s.maps && k.0 != e :: s.maps[k])
    ensures t.tables - TablesOf(t, e) == (map k | k in s.tables && k.0 != e :: s.tables[k])
  {
    hide CountsExact, FreeListExact, DirsTyped, FreedAtZero, UsesFollow;
    forall k | k in t.maps ensures k.0 != e {
      assert k !in MapsBelow(s, e, PageNo(PDX_UTOP, 0));
      assert k in s.maps && s.tables[(k.0, Pdx(k.1))] == s.tables[(k.0, Pdx(k.1))];
    }
  }

  /** The end of env_free: what is left of e is its directory and the tables of
      the kernel half. */
  lemma FreedAll(s: Spaces, t: Spaces, e: nat)
    requires Inv(s) && Inv(t) && e in s.dirs && e != BASE
    requires FreedUpTo(s, t, e, PageNo(PDX_UTOP, 0), PDX_UTOP)
    ensures var u := Strand(t, e);
      && u.dirs == s.dirs && e in u.dirs && u.dirs[e] < |u.ref| && u.ref[u.dirs[e]] == 1
      && |u.use| == |u.ref|
      && Inv(DropDirectory(u, e)) && EnvFreed(s, e, DropDirectory(u, e))
    ensures var v, p := DropDirectory(Strand(t, e), e), s.dirs[e];
      && p < |t.ref| && t.ref[p] == 1 && v.ref == t.ref[p := 0] && v.free == [p] + t.free
      && v.dirs == t.dirs - {e} && v.maps == t.maps && v.tables == t.tables - TablesOf(t, e) && |v.use| == |t.use|
  {
    hide Typed, CountsExact, FreedAtZero, UsesFollow, RefsFrom;
    var u := Strand(t, e);
    NothingLeft(s, t, e);
    StrandKeepsInv(t, e);
    assert TablesOf(u, e) == {};
    DropDirectoryKeepsInv(u, e);
    var v := DropDirectory(u, e);
    StrandFreesNothing(t, e);
    FreedAtZeroTrans(s, t, u);
    FreedAtZeroTrans(s, u, v);
    StrandedAreKernelHalf(s, t, e);
    forall p | 0 <= p < |s.ref| ensures v.ref[p] == s.ref[p] - RefsFrom(s, e, p) {
      CountsFallByRefs(s, e, v, p);
    }
    UsesAtTheEnd(s, t, e);
  }

  lemma CountsFallByRefs(s: Spaces, e: nat, v: Spaces, p: nat)
    requires Inv(s) && Inv(v) && p < |s.ref| == |v.ref| && v.dirs == s.dirs - {e}
    requires v.maps == (map k | k in s.maps && k.0 != e :: s.maps[k])
    requires v.tables == (map k | k in s.tables && k.0 != e :: s.tables[k])
    requires v.pinned == s.pinned + PagesAt(s.tables, KernelHalf(s, e))
    ensures v.ref[p] == s.ref[p] - RefsFrom(s, e, p)
  {
    hide Typed, FreeListExact, RefsFrom, KernelHalf, RefCount;
    RefsFromAreGone(s, e, v, p);
    if p in PagesAt(s.tables, KernelHalf(s, e)) { LostIsUnpinned(s, e, p); }
  }

  lemma UsesAtTheEnd(s: Spaces, t: Spaces, e: nat)
    requires Inv(s) && Inv(t) && e in s.dirs && e != BASE
    requires FreedUpTo(s, t, e, PageNo(PDX_UTOP, 0), PDX_UTOP)
    requires TablesOf(t, e) == KernelHalf(s, e)
    requires PagesAt(t.tables, TablesOf(t, e)) == PagesAt(s.tables, KernelHalf(s, e))
    requires var u := Strand(t, e); e in u.dirs && u.dirs[e] < |u.ref| == |u.use| && u.ref[u.dirs[e]] == 1
    ensures var v := DropDirectory(Strand(t, e), e);
      forall p | 0 <= p < |s.ref| :: v.use[p] ==
        if s.ref[p] > 0 && v.ref[p] == 0 then Free
        else if p in PagesAt(s.tables, KernelHalf(s, e)) then Held else s.use[p]
  {
    hide Typed, CountsExact, FreeListExact, KernelHalf;
    DirectoryIsCountedOnce(s, e);
    forall p | p in PagesAt(s.tables, KernelHalf(s, e)) ensures p < |t.ref| && t.ref[p] == 1 && t.use[p].Table? {
      var k :| k in TablesOf(t, e) && t.tables[k] == p;
      TableIsCountedOnce(t, k);
    }
  }

  lemma StrandFreesNothing(t: Spaces, e: nat)
    requires Inv(t)
    ensures FreedAtZero(t, Strand(t, e))
  {
    hide Typed, CountsExact;
  }

  lemma StrandedAreKernelHalf(s: Spaces, t: Spaces, e: nat)
    requires Inv(s) && e != BASE && FreedUpTo(s, t, e, PageNo(PDX_UTOP, 0), PDX_UTOP)
    ensures TablesOf(t, e) == KernelHalf(s, e)
    ensures PagesAt(t.tables, TablesOf(t, e)) == PagesAt(s.tables, KernelHalf(s, e))
  {
    hide CountsExact, FreeListExact, DirsTyped, MapsTyped, FreedAtZero;
    assert TablesOf(t, e) == KernelHalf(s, e);
  }

  // ----- env_setup_vm

  /** Page p, held by the caller, becomes the page directory of e. */
  function AddDirectory(s: Spaces, e: nat, p: nat): Spaces
    requires p < |s.use| == |s.ref|
  {
    s.(dirs := s.dirs[e := p], ref := s.ref[p := s.ref[p] + 1], use := s.use[p := Directory(e)])
  }

  lemma AddDirectoryKeepsInv(s: Spaces, e: nat, p: nat)
    requires Inv(s) && HeldPage(s, p) && e !in s.dirs
    ensures Inv(AddDirectory(s, e, p))
  {
    hide DirsTyped, TablesTyped, MapsTyped, CountsExact;
    AddDirectoryCounts(s, e, p);
    RetypeKeepsTyped(s, p, Directory(e));
    AddDirectoryTyped(s.(use := s.use[p := Directory(e)]), e, p);
    TypedIgnoresCounts(s.(dirs := s.dirs[e := p], use := s.use[p := Directory(e)]), s.ref[p := s.ref[p] + 1], s.free);
    HeldListStays(s, p, Directory(e));
  }

  lemma AddDirectoryTyped(s: Spaces, e: nat, p: nat)
    requires |s.use| == |s.ref| && Typed(s) && p < |s.ref| && s.use[p] == Directory(e) && e !in s.dirs
    ensures Typed(s.(dirs := s.dirs[e := p]))
  {}

  lemma AddDirectoryCounts(s: Spaces, e: nat, p: nat)
    requires CountsExact(s) && |s.use| == |s.ref| && p < |s.ref| && e !in s.dirs
    ensures CountsExact(AddDirectory(s, e, p))
  {
    var t := AddDirectory(s, e, p);
    forall q | 0 <= q < |t.ref|
      ensures t.ref[q] == RefCount(t, q) + (if q in t.pinned then 1 else 0)
    {
      KeysToPut(s.dirs, e, p, q);
      assert s.ref[q] == RefCount(s, q) + (if q in s.pinned then 1 else 0);
    }
  }

  /** env_alloc has set up a directory but found no ASID: the page stays
      allocated with one reference that nothing holds. */
  function LoseDirectory(s: Spaces, e: nat): Spaces
    requires e in s.dirs && s.dirs[e] < |s.use|
  {
    s.(dirs := s.dirs - {e}, pinned := s.pinned + {s.dirs[e]}, use := s.use[s.dirs[e] := Held])
  }

  lemma FreshDirectoryHasNoTables(s: Spaces, e: nat)
    requires Inv(s) && e !in s.dirs
    ensures TablesOf(s, e) == {}
  {}

  lemma LoseDirectoryKeepsInv(s: Spaces, e: nat)
    requires Inv(s) && e in s.dirs && e != BASE && TablesOf(s, e) == {}
    ensures s.dirs[e] < |s.use| && Inv(LoseDirectory(s, e))
  {
    hide MapsTyped, TablesTyped, DirsTyped;
    DirectoryIsCountedOnce(s, e);
    var p, t := s.dirs[e], LoseDirectory(s, e);
    LoseDirectoryTyped(s, e);
    forall q | 0 <= q < |t.ref|
      ensures t.ref[q] == RefCount(t, q) + (if q in t.pinned then 1 else 0)
    {
      KeysToDrop(s.dirs, e, q);
    }
  }

  lemma LoseDirectoryTyped(s: Spaces, e: nat)
    requires |s.use| == |s.ref| && Typed(s) && e in s.dirs && e != BASE && TablesOf(s, e) == {}
    ensures s.dirs[e] < |s.use| && Typed(LoseDirectory(s, e))
  {
    LostTables(s, e);
    LostMaps(s, e);
    hide TablesTyped, MapsTyped;
  }

  lemma LostTables(s: Spaces, e: nat)
    requires |s.use| == |s.ref| && Typed(s) && e in s.dirs && TablesOf(s, e) == {}
    ensures s.dirs[e] < |s.use| && TablesTyped(LoseDirectory(s, e))
  {
    hide MapsTyped;
    forall k | k in s.tables ensures k.0 != e { assert k !in TablesOf(s, e); }
  }

  lemma LostMaps(s: Spaces, e: nat)
    requires |s.use| == |s.ref| && Typed(s) && e in s.dirs
    ensures s.dirs[e] < |s.use| && MapsTyped(LoseDirectory(s, e))
  {
    hide TablesTyped;
  }
}
