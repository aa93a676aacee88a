/** The specification of kern/pmap.c: address spaces as flat maps from page
    numbers to entries, with reference counts and the free list.

    Environments are indices into `envs`; index BASE stands for the template
    page directory `base_pgdir`. */
module AddressSpaces {
  import opened Mmu

  const BASE := NENV
  const MAX_REF := 0xFFFF      // pp_ref is 16 bits wide
  const E_NO_MEM := 4

  /** What a physical page is used for.  `Held` pages are off the free list but
      reachable from nowhere: a page between page_alloc and page_insert, or one
      that a failed system call has lost. */
  datatype Use =
    | Free
    | Held
    | Boot
    | Data
    | Table(env: nat, pdx: nat)
    | Directory(env: nat)

  predicate Mappable(u: Use) { u.Data? || u.Boot? }

  datatype Spaces = Spaces(
    dirs: map<nat, nat>,            // environment -> its page directory
    tables: map<(nat, nat), nat>,   // (environment, pdx) -> page table
    maps: map<(nat, nat), Word>,    // (environment, vpn) -> entry
    ref: seq<nat>,                  // pp_ref of every page
    free: seq<nat>,                 // page_free_list
    use: seq<Use>,
    pinned: set<nat>)               // boot pages and lost directories and tables

  /** Directory slots that may hold a table: the template holds the two windows
      below UVPT; an environment holds the user part and, when a program reads
      `vpt` beyond ULIM, slots of the kernel half. */
  predicate TableSlot(e: nat, pdx: nat) {
    if e == BASE then PDX_UTOP <= pdx < PDX_UVPT
    else pdx < PDX_UTOP || PDX_ULIM <= pdx < ENTRIES
  }

  ghost predicate DirsTyped(s: Spaces)
    requires |s.use| == |s.ref|
  {
    && BASE in s.dirs
    && forall e | e in s.dirs :: s.dirs[e] < |s.ref| && s.use[s.dirs[e]] == Directory(e)
  }

  ghost predicate TablesTyped(s: Spaces)
    requires |s.use| == |s.ref|
  {
    forall k | k in s.tables ::
      && k.0 in s.dirs && TableSlot(k.0, k.1)
      && s.tables[k] < |s.ref| && s.use[s.tables[k]] == Table(k.0, k.1)
  }

  ghost predicate MapsTyped(s: Spaces)
    requires |s.use| == |s.ref|
  {
    forall k | k in s.maps ::
      && (k.0, Pdx(k.1)) in s.tables && k.1 < UVPT
      && s.maps[k].ppn < |s.ref| && Mappable(s.use[s.maps[k].ppn])
      && IsValid(s.maps[k])
  }

  /** Directories, tables and mapped pages are pairwise different pages. */
  ghost predicate Typed(s: Spaces) {
    && |s.use| == |s.ref|
    && DirsTyped(s) && TablesTyped(s) && MapsTyped(s)
    && (forall p | p in s.pinned :: p < |s.ref| && (s.use[p].Boot? || s.use[p].Held?))
  }

  predicate NoDup(q: seq<nat>) {
    forall i, j | 0 <= i < j < |q| :: q[i] != q[j]
  }

  lemma NoDupTail(q: seq<nat>)
    requires NoDup(q) && q != []
    ensures NoDup(q[1..]) && q[0] !in q[1..] && forall x :: x in q <==> x == q[0] || x in q[1..]
  {
    assert q == [q[0]] + q[1..];
    forall x | x in q[1..] ensures x != q[0] {
      var i :| 0 <= i < |q| - 1 && q[1..][i] == x;
      assert q[i + 1] == x;
    }
  }

  ghost predicate FreeListExact(s: Spaces)
    requires |s.use| == |s.ref|
  {
    && NoDup(s.free)
    && (forall p | p in s.free :: p < |s.ref| && s.ref[p] == 0)
    && (forall p | 0 <= p < |s.ref| :: s.use[p] == Free <==> p in s.free)
  }

  ghost function MapsTo(maps: map<(nat, nat), Word>, p: nat): set<(nat, nat)> {
    set k | k in maps && maps[k].ppn == p
  }

  ghost function KeysTo<K>(m: map<K, nat>, p: nat): set<K> {
    set k | k in m && m[k] == p
  }

  /** The number of entries of every kind that point to page p. */
  ghost function RefCount(s: Spaces, p: nat): nat {
    |MapsTo(s.maps, p)| + |KeysTo(s.tables, p)| + |KeysTo(s.dirs, p)|
  }

  ghost predicate CountsExact(s: Spaces) {
    forall p | 0 <= p < |s.ref| :: s.ref[p] == RefCount(s, p) + (if p in s.pinned then 1 else 0)
  }

  ghost predicate Inv(s: Spaces) {
    |s.use| == |s.ref| && Typed(s) && FreeListExact(s) && CountsExact(s)
  }

  // ----- counting lemmas

  lemma MapsToPut(maps: map<(nat, nat), Word>, k: (nat, nat), w: Word, p: nat)
    requires k !in maps
    ensures |MapsTo(maps[k := w], p)| == |MapsTo(maps, p)| + (if w.ppn == p then 1 else 0)
  {
    if w.ppn == p {
      assert MapsTo(maps[k := w], p) == MapsTo(maps, p) + {k};
    } else {
      assert MapsTo(maps[k := w], p) == MapsTo(maps, p);
    }
  }

  lemma MapsToDrop(maps: map<(nat, nat), Word>, k: (nat, nat), p: nat)
    requires k in maps
    ensures |MapsTo(maps - {k}, p)| == |MapsTo(maps, p)| - (if maps[k].ppn == p then 1 else 0)
  {
    var rest := maps - {k};
    assert maps == rest[k := maps[k]];
    MapsToPut(rest, k, maps[k], p);
  }

  lemma KeysToPut<K>(m: map<K, nat>, k: K, v: nat, p: nat)
    requires k !in m
    ensures |KeysTo(m[k := v], p)| == |KeysTo(m, p)| + (if v == p then 1 else 0)
  {
    if v == p {
      assert KeysTo(m[k := v], p) == KeysTo(m, p) + {k};
    } else {
      assert KeysTo(m[k := v], p) == KeysTo(m, p);
    }
  }

  lemma KeysToDrop<K>(m: map<K, nat>, k: K, p: nat)
    requires k in m
    ensures |KeysTo(m - {k}, p)| == |KeysTo(m, p)| - (if m[k] == p then 1 else 0)
  {
    var rest := m - {k};
    assert m == rest[k := m[k]];
    KeysToPut(rest, k, m[k], p);
  }

  // ----- page_alloc and page_free

  /** page_alloc: take the first page off the free list. */
  function TakeFree(s: Spaces): Spaces
    requires s.free != [] && s.free[0] < |s.use|
  {
    s.(free := s.free[1..], use := s.use[s.free[0] := Held])
  }

  lemma HeadIsFree(s: Spaces)
    requires Inv(s) && s.free != []
    ensures var p := s.free[0];
      p < |s.ref| && s.use[p] == Free && s.ref[p] == 0 && p !in s.pinned && RefCount(s, p) == 0
  {
    assert s.free[0] in s.free;
  }

  lemma TakeFreeList(s: Spaces)
    requires |s.use| == |s.ref| && FreeListExact(s) && s.free != [] && s.free[0] < |s.use|
    ensures FreeListExact(TakeFree(s))
  {
    var t := TakeFree(s);
    assert s.free == [s.free[0]] + t.free;
    assert forall q | q in t.free :: q in s.free;
    forall q | 0 <= q < |t.ref| ensures t.use[q] == Free <==> q in t.free {
      assert q in s.free <==> q == s.free[0] || q in t.free;
    }
  }

  /** Changing the use of a page that nothing refers to keeps everything typed. */
  lemma RetypeKeepsTyped(s: Spaces, p: nat, u: Use)
    requires Typed(s) && p < |s.ref|
    requires s.use[p].Free? || s.use[p].Held? || (Mappable(s.use[p]) && MapsTo(s.maps, p) == {})
    requires p !in s.pinned
    ensures Typed(s.(use := s.use[p := u]))
  {
    var t := s.(use := s.use[p := u]);
    assert MapsTyped(t) by {
      forall k | k in t.maps ensures t.maps[k].ppn != p {
        assert k in MapsTo(s.maps, t.maps[k].ppn);
      }
    }
  }

  lemma TakeFreeKeepsInv(s: Spaces)
    requires Inv(s) && s.free != []
    ensures s.free[0] < |s.use| && Inv(TakeFree(s))
  {
    HeadIsFree(s);
    TakeFreeList(s);
    RetypeKeepsTyped(s, s.free[0], Held);
    TakeFreeCounts(s);
  }

  lemma TakeFreeCounts(s: Spaces)
    requires CountsExact(s) && s.free != [] && s.free[0] < |s.use|
    ensures CountsExact(TakeFree(s))
  {
    forall q | 0 <= q < |s.ref| ensures RefCount(TakeFree(s), q) == RefCount(s, q) {}
  }

  /** page_decref: drop one reference and free the page at zero. */
  function Release(s: Spaces, p: nat): Spaces
    requires p < |s.ref| == |s.use| && s.ref[p] > 0
  {
    var s1 := s.(ref := s.ref[p := s.ref[p] - 1]);
    if s.ref[p] == 1 then s1.(free := [p] + s.free, use := s.use[p := Free]) else s1
  }

  lemma ReleaseFreeList(s: Spaces, p: nat)
    requires |s.use| == |s.ref| && FreeListExact(s) && p < |s.ref| && s.ref[p] > 0
    ensures FreeListExact(Release(s, p))
  {
    var t := Release(s, p);
    assert p !in s.free;
    if s.ref[p] == 1 {
      assert forall q :: q in t.free <==> q == p || q in s.free;
      forall i, j | 0 <= i < j < |t.free| ensures t.free[i] != t.free[j] {
        assert t.free[j] == s.free[j - 1] && s.free[j - 1] in s.free;
        assert i > 0 ==> t.free[i] == s.free[i - 1];
      }
    }
  }

  // ----- page_remove

  function Unmap(s: Spaces, k: (nat, nat)): Spaces
    requires k in s.maps && s.maps[k].ppn < |s.ref| == |s.use| && s.ref[s.maps[k].ppn] > 0
  {
    Release(s.(maps := s.maps - {k}), s.maps[k].ppn)
  }

  /** A mapped page is counted, so it can be dereferenced. */
  lemma MappedIsCounted(s: Spaces, k: (nat, nat))
    requires Inv(s) && k in s.maps
    ensures var p := s.maps[k].ppn;
      p < |s.ref| && s.ref[p] > 0 && Mappable(s.use[p]) && (p in s.pinned ==> s.ref[p] > 1)
    ensures (k.0, Pdx(k.1)) in s.tables
  {
    hide DirsTyped, TablesTyped, FreeListExact;
    assert k in MapsTo(s.maps, s.maps[k].ppn);
  }

  lemma UnmapCounts(s: Spaces, k: (nat, nat))
    requires CountsExact(s) && |s.use| == |s.ref| && k in s.maps
    requires s.maps[k].ppn < |s.ref| && s.ref[s.maps[k].ppn] > 0
    ensures CountsExact(Unmap(s, k))
  {
    var t := Unmap(s, k);
    forall q | 0 <= q < |t.ref|
      ensures t.ref[q] == RefCount(t, q) + (if q in t.pinned then 1 else 0)
    {
      MapsToDrop(s.maps, k, q);
      assert s.ref[q] == RefCount(s, q) + (if q in s.pinned then 1 else 0);
    }
  }

  lemma DropMapKeepsTyped(s: Spaces, k: (nat, nat))
    requires Typed(s)
    ensures Typed(s.(maps := s.maps - {k}))
  {}

  lemma TypedIgnoresCounts(s: Spaces, ref: seq<nat>, free: seq<nat>)
    requires Typed(s) && |ref| == |s.ref|
    ensures Typed(s.(ref := ref, free := free))
  {}

  /** A page whose last reference goes is in no map any more. */
  lemma UnmapTyped(s: Spaces, k: (nat, nat))
    requires Inv(s) && k in s.maps
    requires s.maps[k].ppn < |s.ref| && s.ref[s.maps[k].ppn] > 0
    requires CountsExact(Unmap(s, k))
    ensures Typed(Unmap(s, k))
  {
    hide DirsTyped, TablesTyped, MapsTyped, FreeListExact;
    MappedIsCounted(s, k);
    var p, t := s.maps[k].ppn, Unmap(s, k);
    var d := s.(maps := s.maps - {k});
    DropMapKeepsTyped(s, k);
    TypedIgnoresCounts(d, t.ref, t.free);
    if s.ref[p] == 1 {
      assert t.ref[p] == 0 && RefCount(t, p) == 0;
      RetypeKeepsTyped(d.(ref := t.ref, free := t.free), p, Free);
    }
  }

  lemma UnmapKeepsInv(s: Spaces, k: (nat, nat))
    requires Inv(s) && k in s.maps
    ensures s.maps[k].ppn < |s.ref| && s.ref[s.maps[k].ppn] > 0
    ensures Inv(Unmap(s, k))
  {
    MappedIsCounted(s, k);
    ReleaseFreeList(s.(maps := s.maps - {k}), s.maps[k].ppn);
    UnmapCounts(s, k);
    UnmapTyped(s, k);
  }

  // ----- page_insert

  /** The creating branch of pgdir_walk: a fresh page becomes a page table. */
  function AddTable(s: Spaces, k: (nat, nat)): Spaces
    requires s.free != [] && s.free[0] < |s.use| == |s.ref|
  {
    UseAsTable(TakeFree(s), k, s.free[0])
  }

  /** Page p, held by the caller, becomes the page table of slot k. */
  function UseAsTable(s: Spaces, k: (nat, nat), p: nat): Spaces
    requires p < |s.use| == |s.ref|
  {
    s.(tables := s.tables[k := p], ref := s.ref[p := s.ref[p] + 1], use := s.use[p := Table(k.0, k.1)])
  }

  ghost predicate HeldPage(s: Spaces, p: nat)
    requires |s.use| == |s.ref|
  {
    p < |s.ref| && s.use[p] == Held && p !in s.pinned && s.ref[p] == 0
  }

  lemma UseAsTableCounts(s: Spaces, k: (nat, nat), p: nat)
    requires |s.use| == |s.ref| && CountsExact(s) && p < |s.ref| && k !in s.tables
    ensures CountsExact(UseAsTable(s, k, p))
  {
    var t := UseAsTable(s, k, p);
    forall q | 0 <= q < |t.ref|
      ensures t.ref[q] == RefCount(t, q) + (if q in t.pinned then 1 else 0)
    {
      KeysToPut(s.tables, k, p, q);
      assert s.ref[q] == RefCount(s, q) + (if q in s.pinned then 1 else 0);
    }
  }

  lemma UseAsTableTyped(s: Spaces, k: (nat, nat), p: nat)
    requires Typed(s) && p < |s.ref| && s.use[p] == Held && p !in s.pinned
    requires k !in s.tables && k.0 in s.dirs && TableSlot(k.0, k.1)
    ensures Typed(UseAsTable(s, k, p))
  {
    var u := s.(use := s.use[p := Table(k.0, k.1)]);
    RetypeKeepsTyped(s, p, Table(k.0, k.1));
    TypedIgnoresCounts(u, s.ref[p := s.ref[p] + 1], s.free);
  }

  lemma UseAsTableKeepsInv(s: Spaces, k: (nat, nat), p: nat)
    requires Inv(s) && HeldPage(s, p)
    requires k !in s.tables && k.0 in s.dirs && TableSlot(k.0, k.1)
    ensures Inv(UseAsTable(s, k, p))
  {
    UseAsTableCounts(s, k, p);
    UseAsTableTyped(s, k, p);
    HeldListStays(s, p, Table(k.0, k.1));
  }

  /** Giving a held page a use and a reference leaves the free list exact. */
  lemma HeldListStays(s: Spaces, p: nat, u: Use)
    requires |s.use| == |s.ref| && FreeListExact(s) && p < |s.ref|
    requires s.use[p] != Free && u != Free
    ensures FreeListExact(s.(ref := s.ref[p := s.ref[p] + 1], use := s.use[p := u]))
  {}

  lemma AddTableKeepsInv(s: Spaces, k: (nat, nat))
    requires Inv(s) && s.free != []
    requires k !in s.tables && k.0 in s.dirs && TableSlot(k.0, k.1)
    ensures s.free[0] < |s.use| && Inv(AddTable(s, k))
  {
    HeadIsFree(s);
    TakeFreeKeepsInv(s);
    UseAsTableKeepsInv(TakeFree(s), k, s.free[0]);
  }

  /** The last lines of page_insert: count page p and write the entry. */
  function Put(s: Spaces, k: (nat, nat), p: nat, perm: Perm): Spaces
    requires p < |s.use| == |s.ref|
  {
    s.(maps := s.maps[k := Word(p, EntryFlags(perm))], ref := s.ref[p := s.ref[p] + 1],
       use := if s.use[p] == Held then s.use[p := Data] else s.use)
  }

  /** What a caller may hand to page_insert: a page that is in use as data, or
      one it has just allocated.  Any flags are fine. */
  ghost predicate MayInsert(s: Spaces, k: (nat, nat), p: nat)
    requires |s.use| == |s.ref|
  {
    && k.0 in s.dirs && TableSlot(k.0, Pdx(k.1)) && k.1 < UVPT
    && p < |s.ref| && (Mappable(s.use[p]) || HeldPage(s, p))
  }

  lemma PutCounts(s: Spaces, k: (nat, nat), p: nat, perm: Perm)
    requires |s.use| == |s.ref| && CountsExact(s) && p < |s.ref| && k !in s.maps
    ensures CountsExact(Put(s, k, p, perm))
  {
    var t := Put(s, k, p, perm);
    forall q | 0 <= q < |t.ref|
      ensures t.ref[q] == RefCount(t, q) + (if q in t.pinned then 1 else 0)
    {
      MapsToPut(s.maps, k, Word(p, EntryFlags(perm)), q);
      assert s.ref[q] == RefCount(s, q) + (if q in s.pinned then 1 else 0);
    }
  }

  lemma PutMapKeepsTyped(s: Spaces, k: (nat, nat), w: Word)
    requires Typed(s) && (k.0, Pdx(k.1)) in s.tables && k.1 < UVPT
    requires w.ppn < |s.ref| && Mappable(s.use[w.ppn]) && IsValid(w)
    ensures Typed(s.(maps := s.maps[k := w]))
  {}

  lemma PutTyped(s: Spaces, k: (nat, nat), p: nat, perm: Perm)
    requires Typed(s) && MayInsert(s, k, p) && (k.0, Pdx(k.1)) in s.tables
    ensures Typed(Put(s, k, p, perm))
  {
    var w, t := Word(p, EntryFlags(perm)), Put(s, k, p, perm);
    EntryFlagsAreValid(p, perm);
    if s.use[p] == Held { RetypeKeepsTyped(s, p, Data); }
    var u := s.(use := t.use);
    PutMapKeepsTyped(u, k, w);
    TypedIgnoresCounts(u.(maps := t.maps), t.ref, t.free);
  }

  lemma PutKeepsInv(s: Spaces, k: (nat, nat), p: nat, perm: Perm)
    requires Inv(s) && MayInsert(s, k, p) && k !in s.maps && (k.0, Pdx(k.1)) in s.tables
    ensures Inv(Put(s, k, p, perm))
  {
    hide DirsTyped, TablesTyped, MapsTyped, CountsExact;
    PutCounts(s, k, p, perm);
    PutTyped(s, k, p, perm);
    HeldListStays(s, p, if s.use[p] == Held then Data else s.use[p]);
  }

  predicate InsertDefined(s: Spaces, k: (nat, nat)) {
    && |s.use| == |s.ref|
    && (k in s.maps ==> s.maps[k].ppn < |s.ref| && s.ref[s.maps[k].ppn] > 0)
    && (s.free != [] ==> s.free[0] < |s.ref|)
  }

  /** page_insert on the flat map: afterwards k holds page p with the requested
      permission and no other entry has changed; out of memory changes nothing. */
  function Insert(s: Spaces, k: (nat, nat), p: nat, perm: Perm): (int, Spaces)
    requires InsertDefined(s, k) && p < |s.ref|
  {
    if k in s.maps && s.maps[k].ppn == p then
      (0, s.(maps := s.maps[k := Word(p, EntryFlags(perm))]))
    else if k in s.maps then
      (0, Put(Unmap(s, k), k, p, perm))
    else if (k.0, Pdx(k.1)) in s.tables then
      (0, Put(s, k, p, perm))
    else if s.free == [] then
      (-E_NO_MEM, s)
    else
      (0, Put(AddTable(s, (k.0, Pdx(k.1))), k, p, perm))
  }

  lemma InsertKeepsInv(s: Spaces, k: (nat, nat), p: nat, perm: Perm)
    requires Inv(s) && MayInsert(s, k, p)
    ensures InsertDefined(s, k)
    ensures Inv(Insert(s, k, p, perm).1)
  {
    hide Typed, FreeListExact, CountsExact, RefCount;
    if s.free != [] { HeadIsFree(s); }
    if k in s.maps {
      MappedIsCounted(s, k);
      if s.maps[k].ppn == p {
        ReinsertKeepsInv(s, k, perm);
      } else {
        UnmapKeepsInv(s, k);
        PutKeepsInv(Unmap(s, k), k, p, perm);
      }
    } else if (k.0, Pdx(k.1)) in s.tables {
      PutKeepsInv(s, k, p, perm);
    } else if s.free != [] {
      AddTableKeepsInv(s, (k.0, Pdx(k.1)));
      PutKeepsInv(AddTable(s, (k.0, Pdx(k.1))), k, p, perm);
    }
  }

  lemma ReinsertKeepsInv(s: Spaces, k: (nat, nat), perm: Perm)
    requires Inv(s) && k in s.maps
    ensures Inv(s.(maps := s.maps[k := Word(s.maps[k].ppn, EntryFlags(perm))]))
  {
    ReinsertTyped(s, k, perm);
    ReinsertCounts(s, k, Word(s.maps[k].ppn, EntryFlags(perm)));
  }

  lemma ReinsertTyped(s: Spaces, k: (nat, nat), perm: Perm)
    requires Inv(s) && k in s.maps
    ensures Typed(s.(maps := s.maps[k := Word(s.maps[k].ppn, EntryFlags(perm))]))
  {
    hide CountsExact, FreeListExact;
    EntryFlagsAreValid(s.maps[k].ppn, perm);
    PutMapKeepsTyped(s, k, Word(s.maps[k].ppn, EntryFlags(perm)));
  }

  lemma ReinsertCounts(s: Spaces, k: (nat, nat), w: Word)
    requires |s.use| == |s.ref| && CountsExact(s) && FreeListExact(s) && k in s.maps && w.ppn == s.maps[k].ppn
    ensures CountsExact(s.(maps := s.maps[k := w])) && FreeListExact(s.(maps := s.maps[k := w]))
  {
    forall q | 0 <= q < |s.ref| ensures RefCount(s.(maps := s.maps[k := w]), q) == RefCount(s, q) {
      assert MapsTo(s.maps[k := w], q) == MapsTo(s.maps, q);
    }
  }

  /** The state page_insert is in when it has removed the old page and found or
      made the page table. */
  ghost predicate ReadyToPut(s: Spaces, t: Spaces, k: (nat, nat), p: nat)
    requires InsertDefined(s, k)
  {
    || t == s
    || (k in s.maps && s.maps[k].ppn != p && t == Unmap(s, k))
    || (s.free != [] && t == AddTable(s, (k.0, Pdx(k.1))))
  }

  /** Until then the insertion stays possible. */
  lemma MayInsertStays(s: Spaces, t: Spaces, k: (nat, nat), p: nat)
    requires Inv(s) && Inv(t) && MayInsert(s, k, p) && InsertDefined(s, k) && ReadyToPut(s, t, k, p)
    ensures MayInsert(t, k, p)
  {
    hide Typed, CountsExact, FreeListExact, RefCount;
    if s.free != [] { HeadIsFree(s); }
  }

  lemma DataStaysNoTable(s: Spaces, t: Spaces, k: (nat, nat), p: nat)
    requires Inv(s) && InsertDefined(s, k) && ReadyToPut(s, t, k, p) && |t.use| == |s.use|
    ensures forall q | 0 <= q < |s.use| && (Mappable(s.use[q]) || s.use[q].Held?) :: !t.use[q].Table?
  {
    hide Typed, CountsExact, FreeListExact, RefCount;
    if s.free != [] { HeadIsFree(s); }
  }

  /** page_insert read as an update of the flat map.  It fails only when it needs
      a page table and has no page for it, and then nothing has changed.  On
      success exactly the entry of k changed; the new page gained a reference
      unless it was mapped there already; the page that was there lost one and is
      free now if that was its last. */
  lemma InsertIsFlat(s: Spaces, k: (nat, nat), p: nat, perm: Perm)
    requires Inv(s) && MayInsert(s, k, p)
    ensures InsertDefined(s, k)
    ensures var (r, t) := Insert(s, k, p, perm);
      && (r == 0 || (r == -E_NO_MEM && t == s))
      && (r != 0 <==> (k.0, Pdx(k.1)) !in s.tables && s.free == [])
      && (r == 0 ==>
        && t.maps == s.maps[k := Word(p, EntryFlags(perm))]
        && t.dirs == s.dirs && t.pinned == s.pinned
        && (k.0, Pdx(k.1)) in t.tables
        && (forall j | j in s.tables :: j in t.tables && t.tables[j] == s.tables[j])
        && (forall j | j in t.tables :: j in s.tables || j == (k.0, Pdx(k.1)))
        && |t.ref| == |s.ref|
        && (k in s.maps && s.maps[k].ppn == p ==> t.ref == s.ref && t.free == s.free)
        && (!(k in s.maps && s.maps[k].ppn == p) ==> t.ref[p] == s.ref[p] + 1)
        && (k in s.maps && s.maps[k].ppn != p ==>
              var q := s.maps[k].ppn;
              t.ref[q] == s.ref[q] - 1 && (t.ref[q] == 0 <==> q in t.free)))
  {
    hide Typed, CountsExact, RefCount;
    InsertKeepsInv(s, k, p, perm);
    if k in s.maps { MappedIsCounted(s, k); }
    if k in s.maps && s.maps[k].ppn != p {
      assert s.maps[k].ppn !in s.free;
    } else if k !in s.maps && (k.0, Pdx(k.1)) !in s.tables && s.free != [] {
      HeadIsFree(s);
    }
  }

  /** pp_ref is sixteen bits: counting one more reference is right exactly when
      the page has fewer than MAX_REF of them. */
  lemma CountFitsIff(s: Spaces, k: (nat, nat), p: nat, perm: Perm)
    requires Inv(s) && MayInsert(s, k, p) && k !in s.maps && p !in s.pinned && s.ref[p] <= MAX_REF
    ensures (s.ref[p] + 1) % 0x1_0000 == RefCount(Put(s, k, p, perm), p) <==> s.ref[p] < MAX_REF
  {
    hide Typed, FreeListExact;
    MapsToPut(s.maps, k, Word(p, EntryFlags(perm)), p);
  }

  // ----- page_insert as it is: 32-bit permissions and 16-bit counts

  /** The last lines of page_insert for a 32-bit permission and a 16-bit count. */
  function PutWide(s: Spaces, k: (nat, nat), p: nat, perm: Perm32): Spaces
    requires p < |s.use| == |s.ref|
  {
    s.(maps := s.maps[k := StoredWord(p, perm)], ref := s.ref[p := (s.ref[p] + 1) % 0x1_0000],
       use := if s.use[p] == Held then s.use[p := Data] else s.use)
  }

  /** page_insert on the flat map, whatever the permission and the count. */
  function InsertWide(s: Spaces, k: (nat, nat), p: nat, perm: Perm32): (int, Spaces)
    requires InsertDefined(s, k) && p < |s.ref|
  {
    if k in s.maps && s.maps[k].ppn == p then
      (0, s.(maps := s.maps[k := StoredWord(p, perm)]))
    else if k in s.maps then
      (0, PutWide(Unmap(s, k), k, p, perm))
    else if (k.0, Pdx(k.1)) in s.tables then
      (0, PutWide(s, k, p, perm))
    else if s.free == [] then
      (-E_NO_MEM, s)
    else
      (0, PutWide(AddTable(s, (k.0, Pdx(k.1))), k, p, perm))
  }

  /** The permission leaves the number of page p alone, and the count has room unless
      the page is at k already. */
  predicate Fits(s: Spaces, k: (nat, nat), p: nat, perm: Perm32)
    requires p < |s.ref|
  {
    OrPage(p, perm.high) == p && ((k in s.maps && s.maps[k].ppn == p) || s.ref[p] < MAX_REF)
  }

  lemma PutWideIff(s: Spaces, k: (nat, nat), p: nat, perm: Perm32)
    requires |s.use| == |s.ref| && CountsExact(s) && p < |s.ref| && k !in s.maps && s.ref[p] <= MAX_REF
    ensures CountsExact(PutWide(s, k, p, perm)) <==> OrPage(p, perm.high) == p && s.ref[p] < MAX_REF
    ensures OrPage(p, perm.high) == p && s.ref[p] < MAX_REF ==> PutWide(s, k, p, perm) == Put(s, k, p, perm.low)
  {
    hide OrPage;
    var t := PutWide(s, k, p, perm);
    MapsToPut(s.maps, k, StoredWord(p, perm), p);
    assert s.ref[p] == RefCount(s, p) + (if p in s.pinned then 1 else 0);
    if OrPage(p, perm.high) == p && s.ref[p] < MAX_REF {
      PutCounts(s, k, p, perm.low);
    } else {
      assert t.ref[p] != RefCount(t, p) + (if p in t.pinned then 1 else 0);
    }
  }

  lemma ReinsertWideIff(s: Spaces, k: (nat, nat), perm: Perm32)
    requires Inv(s) && k in s.maps && s.maps[k].ppn < |s.ref|
    ensures CountsExact(s.(maps := s.maps[k := StoredWord(s.maps[k].ppn, perm)])) <==>
      OrPage(s.maps[k].ppn, perm.high) == s.maps[k].ppn
  {
    hide Typed, OrPage;
    var p, w := s.maps[k].ppn, StoredWord(s.maps[k].ppn, perm);
    if w.ppn == p {
      ReinsertCounts(s, k, w);
    } else {
      var t := s.(maps := s.maps[k := w]);
      MapsToDrop(s.maps, k, p);
      MapsToPut(s.maps - {k}, k, w, p);
      assert (s.maps - {k})[k := w] == t.maps;
      assert s.ref[p] == RefCount(s, p) + (if p in s.pinned then 1 else 0);
      assert t.ref[p] != RefCount(t, p) + (if p in t.pinned then 1 else 0);
    }
  }

  /** page_insert keeps the counts exact exactly when the permission and the count fit;
      then it is the insertion with the low twelve bits. */
  lemma WidePermIff(s: Spaces, k: (nat, nat), p: nat, perm: Perm32)
    requires Inv(s) && MayInsert(s, k, p) && s.ref[p] <= MAX_REF
    ensures InsertDefined(s, k)
    ensures var (r, t) := InsertWide(s, k, p, perm);
      && r == Insert(s, k, p, perm.low).0 && |t.use| == |t.ref| == |s.ref|
      && (r != 0 ==> t == s)
      && (r == 0 ==> (CountsExact(t) <==> Fits(s, k, p, perm)))
      && (Fits(s, k, p, perm) ==> (r, t) == Insert(s, k, p, perm.low))
  {
    hide Typed, FreeListExact, CountsExact, RefCount, OrPage, PutWide, Put;
    if s.free != [] { HeadIsFree(s); }
    if k in s.maps {
      MappedIsCounted(s, k);
      if s.maps[k].ppn == p {
        ReinsertWideIff(s, k, perm);
      } else {
        UnmapKeepsInv(s, k);
        PutWideIff(Unmap(s, k), k, p, perm);
      }
    } else if (k.0, Pdx(k.1)) in s.tables {
      PutWideIff(s, k, p, perm);
    } else if s.free != [] {
      AddTableKeepsInv(s, (k.0, Pdx(k.1)));
      TableIsNotInserted(s, k, p);
      PutWideIff(AddTable(s, (k.0, Pdx(k.1))), k, p, perm);
    }
    hide InsertDefined;
    WideSizes(s, k, p, perm);
  }

  /** On success the entry at k is the word with the OR in it, and no other entry has
      changed. */
  lemma InsertWideMaps(s: Spaces, k: (nat, nat), p: nat, perm: Perm32)
    requires InsertDefined(s, k) && p < |s.ref|
    ensures var (r, t) := InsertWide(s, k, p, perm);
      && (r == 0 ==> t.maps == s.maps[k := StoredWord(p, perm)])
      && (r != 0 ==> t == s) && (r != 0 <==> k !in s.maps && (k.0, Pdx(k.1)) !in s.tables && s.free == [])
  {
    hide StoredWord;
    if k in s.maps && s.maps[k].ppn != p {
      assert (s.maps - {k})[k := StoredWord(p, perm)] == s.maps[k := StoredWord(p, perm)];
    }
  }

  /** What page_insert leaves at k when it succeeds: the page, and every flag that was
      asked for, with the valid bit and the cache bits set on top. */
  lemma InsertedAsAsked(s: Spaces, k: (nat, nat), p: nat, perm: Perm32, mask: Perm)
    requires InsertDefined(s, k) && p < |s.ref| && InsertWide(s, k, p, perm).0 == 0
    ensures var t := InsertWide(s, k, p, perm).1;
      && k in t.maps
      && t.maps[k].flags & 0x680 == 0x680
      && (mask & 0x680 == 0 ==> t.maps[k].flags & mask == perm.low & mask)
      && (forall i: nat :: BitOf(t.maps[k].ppn, i) <==> BitOf(p, i) || BitOf(perm.high, i))
  {
    InsertWideMaps(s, k, p, perm);
    hide InsertWide;
    FlagsAreAsAsked(perm.low, mask);
    forall i: nat ensures BitOf(OrPage(p, perm.high), i) <==> BitOf(p, i) || BitOf(perm.high, i) {
      OrHasBitsOfBoth(p, perm.high, i);
    }
  }

  lemma TableIsNotInserted(s: Spaces, k: (nat, nat), p: nat)
    requires Inv(s) && MayInsert(s, k, p) && s.free != []
    ensures s.free[0] < |s.use| && p != s.free[0] && AddTable(s, (k.0, Pdx(k.1))).ref[p] == s.ref[p]
  {
    HeadIsFree(s);
  }

  lemma WideSizes(s: Spaces, k: (nat, nat), p: nat, perm: Perm32)
    requires InsertDefined(s, k) && p < |s.ref|
    ensures |InsertWide(s, k, p, perm).1.use| == |InsertWide(s, k, p, perm).1.ref| == |s.ref|
  {}

  // ----- the width of the counts

  /** Every count fits its sixteen bits. */
  ghost predicate RefsFit(s: Spaces) {
    forall p | 0 <= p < |s.ref| :: s.ref[p] <= MAX_REF
  }

  /** An insertion adds at most one reference, to page p, and a first one to a table. */
  lemma InsertKeepsRefsFit(s: Spaces, k: (nat, nat), p: nat, perm: Perm)
    requires Inv(s) && MayInsert(s, k, p) && RefsFit(s) && s.ref[p] < MAX_REF
    ensures InsertDefined(s, k) && RefsFit(Insert(s, k, p, perm).1)
  {
    hide Typed, CountsExact, RefCount;
    if s.free != [] { HeadIsFree(s); }
    if k in s.maps { MappedIsCounted(s, k); }
  }

  /** Mapping a boot page where nothing is mapped and a page table is to be had. */
  lemma BootInsert(s: Spaces, k: (nat, nat), p: nat, perm: Perm)
    requires Inv(s) && MayInsert(s, k, p) && k !in s.maps && s.use[p] == Boot
    requires (k.0, Pdx(k.1)) in s.tables || s.free != []
    ensures InsertDefined(s, k)
    ensures var (r, t) := Insert(s, k, p, perm);
      && r == 0 && t.maps == s.maps[k := Word(p, EntryFlags(perm))] && t.dirs == s.dirs
      && (k.0, Pdx(k.1)) in t.tables && (forall j | j in s.tables :: j in t.tables)
      && |t.ref| == |s.ref| == |t.use|
      && (forall q | 0 <= q < |s.ref| && s.use[q] == Boot :: t.use[q] == Boot && t.ref[q] == s.ref[q] + (if q == p then 1 else 0))
      && |t.free| >= |s.free| - (if (k.0, Pdx(k.1)) in s.tables then 0 else 1)
  {
    hide Typed, CountsExact;
    if s.free != [] { HeadIsFree(s); }
  }
}
