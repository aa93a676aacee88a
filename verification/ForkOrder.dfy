/** Why duppage maps the page into the child before it remaps its own (the hint in
    user/lib/fork.c): the same two system calls the other way round, with a fault
    of the parent on that page in between. */
module ForkOrders {
  import opened Mmu
  import opened AddressSpaces
  import opened Forks

  /** The parent's page made copy-on-write before the child has it. */
  ghost predicate ParentFirst(f: State, k: Key, g: State) {
    && k in f.s.maps && NeedsCow(f.s.maps[k])
    && Maps(f.s, k, f.Page(k), CowPerm(f.s.maps[k].flags), g.s) && g == f.(s := g.s)
  }

  /** The page that is then at k, mapped into the child with the permission computed before. */
  ghost predicate ChildSecond(f: State, k: Key, j: Key, perm: Perm, g: State) {
    && k in f.s.maps && j !in f.s.maps
    && Maps(f.s, j, f.Page(k), perm, g.s) && g == f.(s := g.s)
  }

  /** The parent remaps its page, stores to it (say, for the next call's arguments) and
      so takes a fault; the child gets the page; the parent stores v. */
  ghost predicate SwappedRun(fs: seq<State>, e: nat, child: nat, vpn: nat, i: nat, v: int) {
    var k, j := (e, vpn), (child, vpn);
    && |fs| == 8 && ParentFirst(fs[0], k, fs[1])
    && Step(fs[1], Fault(e, vpn), fs[2]) && Step(fs[2], Copy(e), fs[3])
    && Step(fs[3], Remap(e), fs[4]) && Step(fs[4], Finish(e), fs[5])
    && ChildSecond(fs[5], k, j, CowPerm(fs[0].s.maps[k].flags), fs[6])
    && Step(fs[6], Write(k, i, v), fs[7])
  }

  /** A parent about to fork: not in a fault or a fork, and not itself being made. */
  ghost predicate MayDup(f: State, e: nat, child: nat, vpn: nat) {
    && child != e && e !in f.cow && e !in f.dup && !Embryo(f, e)
    && (e, vpn) in f.s.maps && (child, vpn) !in f.s.maps && vpn != UCOW
  }

  lemma ParentFirstFacts(f: State, k: Key, g: State)
    requires Valid(f) && ParentFirst(f, k, g)
    ensures Inv(g.s) && |g.s.ref| == |f.s.ref| && k in g.s.maps && g.s.maps == f.s.maps[k := g.s.maps[k]]
    ensures g.Page(k) == f.Page(k) && IsCow(g.s.maps[k]) && !IsWritable(g.s.maps[k]) && !IsLibrary(g.s.maps[k])
  {
    hide Inv, Exclusive, HandlersOk, DupsOk, CowIsReadOnly, Insert, MayInsert;
    var w := f.s.maps[k];
    MapsIsFlat(f.s, k, w.ppn, CowPerm(w.flags), g.s);
    CowPermFlags(w.ppn, w);
  }

  lemma ParentFirstIsExclusive(f: State, e: nat, child: nat, vpn: nat, g: State)
    requires Valid(f) && ParentFirst(f, (e, vpn), g) && MayDup(f, e, child, vpn)
    ensures Exclusive(g) && CowIsReadOnly(g)
  {
    hide Inv, Maps, DupsOk, HandlersOk, Embryo;
    ParentFirstFacts(f, (e, vpn), g);
    forall x | x in f.s.maps && x != (e, vpn) && f.Page(x) == f.Page((e, vpn)) ensures !IsWritable(f.s.maps[x]) {
      ParentIsAlone(f, e, vpn, x);
    }
  }

  lemma ParentFirstKeepsHandler(f: State, e: nat, child: nat, vpn: nat, g: State, d: nat)
    requires Valid(f) && ParentFirst(f, (e, vpn), g) && MayDup(f, e, child, vpn) && d in f.cow
    ensures HandlerOk(g, d)
  {
    hide Inv, Maps, DupsOk, Exclusive, CowIsReadOnly, Embryo;
    ParentFirstFacts(f, (e, vpn), g);
    assert HandlerOk(f, d);
  }

  lemma ParentFirstKeepsDup(f: State, e: nat, child: nat, vpn: nat, g: State, d: nat)
    requires Valid(f) && ParentFirst(f, (e, vpn), g) && MayDup(f, e, child, vpn) && d in f.dup
    ensures DupOk(g, d)
  {
    hide Inv, Maps, HandlersOk, Exclusive, CowIsReadOnly;
    ParentFirstFacts(f, (e, vpn), g);
    assert DupOk(f, d) && !Embryo(f, e);
  }

  lemma ParentFirstIsValid(f: State, e: nat, child: nat, vpn: nat, g: State)
    requires Valid(f) && ParentFirst(f, (e, vpn), g) && MayDup(f, e, child, vpn)
    ensures Valid(g)
  {
    hide Inv, Maps, HandlerOk, DupOk, Exclusive, CowIsReadOnly, Embryo;
    ParentFirstFacts(f, (e, vpn), g);
    ParentFirstIsExclusive(f, e, child, vpn, g);
    SameEmbryos(f, g);
    forall d | d in g.cow ensures HandlerOk(g, d) { ParentFirstKeepsHandler(f, e, child, vpn, g, d); }
    forall d | d in g.dup ensures DupOk(g, d) { ParentFirstKeepsDup(f, e, child, vpn, g, d); }
  }

  /** After the fault the parent can write the page it has at k. */
  lemma FaultGivesWritable(f: State, e: nat, vpn: nat, a: State, b: State, c: State, g: State)
    requires Valid(f) && Step(f, Fault(e, vpn), a) && Step(a, Copy(e), b) && Step(b, Remap(e), c) && Step(c, Finish(e), g)
    ensures Valid(g) && (e, vpn) in g.s.maps && IsWritable(g.s.maps[(e, vpn)]) && !IsLibrary(g.s.maps[(e, vpn)])
    ensures g.dup == f.dup && e !in g.cow && forall x | x != (e, UCOW) :: x in g.s.maps <==> x in f.s.maps
  {
    hide Valid, View, EagerStep, Maps, Inv, Unmap;
    FaultFacts(f, e, vpn, a);
    StepRefines(f, Fault(e, vpn), a);
    StepRefines(a, Copy(e), b);
    StepRefines(b, Remap(e), c);
    RemapFacts(b, e, c);
    StepRefines(c, Finish(e), g);
    FinishFacts(c, e, g);
  }

  /** In the swapped order the child gets a page that the parent can still write, and
      reads what the parent stores after the fork. */
  lemma SwappedOrderLeaks(fs: seq<State>, e: nat, child: nat, vpn: nat, i: nat, v: int)
    requires |fs| == 8 && Valid(fs[0]) && MayDup(fs[0], e, child, vpn) && SwappedRun(fs, e, child, vpn, i, v)
    ensures var k, j := (e, vpn), (child, vpn);
      && k in fs[6].s.maps && j in fs[6].s.maps && fs[6].Page(k) == fs[6].Page(j)
      && IsWritable(fs[6].s.maps[k]) && !IsLibrary(fs[6].s.maps[k]) && !Valid(fs[6])
      && j in fs[7].s.maps && fs[7].Page(j) < |fs[7].data| && i < |fs[7].data[fs[7].Page(j)]|
      && fs[7].data[fs[7].Page(j)][i] == v
  {
    hide Inv, HandlersOk, DupsOk, CowIsReadOnly, Maps;
    var k, j := (e, vpn), (child, vpn);
    ParentFirstIsValid(fs[0], e, child, vpn, fs[1]);
    FaultGivesWritable(fs[1], e, vpn, fs[2], fs[3], fs[4], fs[5]);
    MapsIsFlat(fs[5].s, j, fs[5].Page(k), CowPerm(fs[0].s.maps[k].flags), fs[6].s);
    assert !MayAlias(fs[6], k, j);
  }

  // ----- such a run exists

  /** page_insert where the table is there. */
  lemma InsertWithTable(s: Spaces, k: Key, p: nat, perm: Perm) returns (t: Spaces)
    requires Inv(s) && MayInsert(s, k, p) && (k.0, Pdx(k.1)) in s.tables
    ensures Maps(s, k, p, perm, t) && Inv(t) && t.maps == s.maps[k := Word(p, EntryFlags(perm))]
    ensures t.tables == s.tables && t.dirs == s.dirs && |t.ref| == |s.ref|
    ensures k in s.maps && s.maps[k].ppn == p ==> t.free == s.free
  {
    hide Inv;
    InsertKeepsInv(s, k, p, perm);
    InsertIsFlat(s, k, p, perm);
    t := Insert(s, k, p, perm).1;
    if k in s.maps { MappedIsCounted(s, k); }
  }

  /** page_insert where the table is there or can be made. */
  lemma InsertHappens(s: Spaces, k: Key, p: nat, perm: Perm) returns (t: Spaces)
    requires Inv(s) && MayInsert(s, k, p) && ((k.0, Pdx(k.1)) in s.tables || s.free != [])
    ensures Maps(s, k, p, perm, t) && Inv(t) && t.maps == s.maps[k := Word(p, EntryFlags(perm))]
  {
    hide Inv;
    InsertKeepsInv(s, k, p, perm);
    InsertIsFlat(s, k, p, perm);
    t := Insert(s, k, p, perm).1;
  }

  /** What lies at user addresses of a living environment may be mapped. */
  predicate UserPage(s: Spaces, k: Key) { k.0 in s.dirs && TableSlot(k.0, Pdx(k.1)) && k.1 < UVPT }

  lemma SharedMayBeInserted(s: Spaces, k: Key, j: Key)
    requires Inv(s) && k in s.maps && UserPage(s, j)
    ensures MayInsert(s, j, s.maps[k].ppn)
  {
    hide CountsExact, FreeListExact;
  }

  /** duppage can be carried out, both calls of it where the page needs both: for every
      page of a parent, into a living child that has nothing there, as long as the child
      has a table for it or there is a page for one. */
  lemma DuppageHappens(f: State, e: nat, child: nat, vpn: nat) returns (g: State, h: State)
    requires Valid(f) && MayDup(f, e, child, vpn) && Quiet(f, child) && UserPage(f.s, (child, vpn))
    requires (child, Pdx(vpn)) in f.s.tables || f.s.free != []
    ensures Step(f, DupChild(e, child, vpn), g)
    ensures if NeedsCow(f.s.maps[(e, vpn)]) then Step(g, DupParent(e), h) else h == g
  {
    hide Exclusive, CowIsReadOnly, HandlersOk, DupsOk, Inv, Maps, Embryo, MayInsert;
    var k, w := (e, vpn), f.s.maps[(e, vpn)];
    SharedMayBeInserted(f.s, k, (child, vpn));
    var t := InsertHappens(f.s, (child, vpn), w.ppn, DupPerm(w));
    g := f.(s := t, dup := if NeedsCow(w) then f.dup[e := (child, vpn)] else f.dup);
    h := g;
    if NeedsCow(w) {
      TypedKey(g.s, k);
      MappedMayBeInserted(g.s, k, k);
      var u := InsertWithTable(g.s, k, g.Page(k), CowPerm(g.s.maps[k].flags));
      h := g.(s := u, dup := g.dup - {e});
    }
  }

  /** So can an allocation and an unmapping of a program's own. */
  lemma AllocHappens(f: State, k: Key, perm: Perm) returns (g: State)
    requires Valid(f) && !Embryo(f, k.0) && (k in f.s.maps ==> Quiet(f, k.0)) && k.1 != UCOW && perm & PTE_COW == 0
    requires UserPage(f.s, k) && f.s.free != [] && ((k.0, Pdx(k.1)) in f.s.tables || |f.s.free| > 1)
    ensures Step(f, Alloc(k, perm), g)
  {
    hide Exclusive, CowIsReadOnly, HandlersOk, DupsOk, Typed, FreeListExact, CountsExact, Maps, Embryo, Quiet;
    var p := f.s.free[0];
    FreshPage(f.s);
    HeadIsFree(f.s);
    var t := InsertHappens(TakeFree(f.s), k, p, perm);
    g := f.(s := t, data := f.data[p := Zeros()]);
  }

  lemma DropHappens(f: State, k: Key) returns (g: State)
    requires Valid(f) && Quiet(f, k.0) && k.1 != UCOW && k in f.s.maps
    ensures Step(f, Drop(k), g)
  {
    hide Exclusive, CowIsReadOnly, HandlersOk, DupsOk, Inv, Embryo, Quiet;
    MappedIsInsertable(f.s, k);
    g := f.(s := Unmap(f.s, k));
  }

  lemma MappedMayBeInserted(s: Spaces, k: Key, j: Key)
    requires Inv(s) && k in s.maps && (j.0, Pdx(j.1)) in s.tables && j.1 < UVPT
    ensures (k.0, Pdx(k.1)) in s.tables && MayInsert(s, j, s.maps[k].ppn)
  {
    hide CountsExact, FreeListExact;
  }

  lemma FaultHappens(f: State, e: nat, vpn: nat) returns (g: State)
    requires Valid(f) && (e, vpn) in f.s.maps && IsCow(f.s.maps[(e, vpn)]) && vpn != UCOW && e !in f.cow && !Embryo(f, e)
    requires f.s.free != [] && (e, Pdx(UCOW)) in f.s.tables
    ensures Step(f, Fault(e, vpn), g) && g.s.tables == f.s.tables
  {
    hide Exclusive, CowIsReadOnly, HandlersOk, DupsOk, Typed, FreeListExact, CountsExact, Maps;
    var p, u := f.s.free[0], (e, UCOW);
    FreshPage(f.s);
    HeadIsFree(f.s);
    HeldMayBeInserted(f.s, u);
    var t := InsertWithTable(TakeFree(f.s), u, p, OwnPerm(f.s.maps[(e, vpn)].flags));
    g := f.(s := t, data := f.data[p := Zeros()], cow := f.cow[e := Got(vpn)]);
  }

  lemma HeldMayBeInserted(s: Spaces, u: Key)
    requires Inv(s) && s.free != [] && (u.0, Pdx(u.1)) in s.tables && u.1 < UVPT
    ensures s.free[0] < |s.use| && MayInsert(TakeFree(s), u, s.free[0])
  {
    HeadIsFree(s);
  }

  /** The handler runs to its end: copy, remap, and the page at UCOW goes. */
  lemma HandlerEnds(f: State, e: nat, vpn: nat) returns (a: State, b: State, g: State)
    requires Valid(f) && e in f.cow && f.cow[e] == Got(vpn)
    ensures Step(f, Copy(e), a) && Step(a, Remap(e), b) && Step(b, Finish(e), g)
    ensures g.s.tables == f.s.tables && (e, vpn) in f.s.maps && (e, vpn) in g.s.maps && g.Page((e, vpn)) < |g.data|
    ensures f.Page((e, vpn)) < |f.data| && g.data[g.Page((e, vpn))] == f.data[f.Page((e, vpn))]
  {
    a, b := HandlerRemaps(f, e, vpn);
    g := HandlerFinishes(b, e, vpn);
  }

  /** The page at UCOW goes. */
  lemma HandlerFinishes(b: State, e: nat, vpn: nat) returns (g: State)
    requires Inv(b.s) && e in b.cow && b.cow[e] == Remapped(vpn) && (e, UCOW) in b.s.maps
    requires vpn != UCOW && (e, vpn) in b.s.maps
    ensures Step(b, Finish(e), g) && g.s.tables == b.s.tables && g.data == b.data
    ensures (e, vpn) in g.s.maps && g.Page((e, vpn)) == b.Page((e, vpn))
  {
    hide Inv, Unmap;
    var u := (e, UCOW);
    UnmapKeepsInv(b.s, u);
    MappedIsInsertable(b.s, u);
    g := b.(s := Unmap(b.s, u), cow := b.cow - {e});
    UnmapKeepsTables(b.s, u);
  }

  lemma HandlerRemaps(f: State, e: nat, vpn: nat) returns (a: State, b: State)
    requires Valid(f) && e in f.cow && f.cow[e] == Got(vpn)
    ensures Step(f, Copy(e), a) && Step(a, Remap(e), b)
    ensures Inv(b.s) && e in b.cow && b.cow[e] == Remapped(vpn) && (e, UCOW) in b.s.maps && vpn != UCOW
    ensures b.s.tables == f.s.tables && (e, vpn) in f.s.maps && (e, vpn) in b.s.maps && b.Page((e, vpn)) < |b.data|
    ensures f.Page((e, vpn)) < |f.data| && b.data[b.Page((e, vpn))] == f.data[f.Page((e, vpn))]
  {
    a := HandlerCopies(f, e, vpn);
    b := RemapHappens(a, e, vpn);
  }

  lemma HandlerCopies(f: State, e: nat, vpn: nat) returns (a: State)
    requires Valid(f) && e in f.cow && f.cow[e] == Got(vpn)
    ensures Step(f, Copy(e), a) && a.s == f.s && e in a.cow && a.cow[e] == Copied(vpn) && Inv(a.s)
    ensures vpn != UCOW && (e, vpn) in a.s.maps && (e, UCOW) in a.s.maps
    ensures f.Page((e, vpn)) < |f.data| && f.Page((e, UCOW)) < |a.data|
    ensures a.data[f.Page((e, UCOW))] == f.data[f.Page((e, vpn))]
  {
    hide Inv, Exclusive, CowIsReadOnly, DupsOk;
    assert HandlerOk(f, e);
    PageInRange(f.s, (e, vpn));
    PageInRange(f.s, (e, UCOW));
    a := f.(data := f.data[f.Page((e, UCOW)) := f.data[f.Page((e, vpn))]], cow := f.cow[e := Copied(vpn)]);
  }

  lemma RemapHappens(a: State, e: nat, vpn: nat) returns (b: State)
    requires Inv(a.s) && e in a.cow && a.cow[e] == Copied(vpn) && vpn != UCOW
    requires (e, vpn) in a.s.maps && (e, UCOW) in a.s.maps
    ensures Step(a, Remap(e), b) && Inv(b.s) && e in b.cow && b.cow[e] == Remapped(vpn)
    ensures b.s.tables == a.s.tables && b.data == a.data && (e, vpn) in b.s.maps && (e, UCOW) in b.s.maps
    ensures b.Page((e, vpn)) == a.Page((e, UCOW))
  {
    hide Inv, Maps, MayInsert;
    var k := (e, vpn);
    TypedKey(a.s, k);
    MappedMayBeInserted(a.s, (e, UCOW), k);
    var t := InsertWithTable(a.s, k, a.Page((e, UCOW)), OwnPerm(a.s.maps[k].flags));
    b := a.(s := t, cow := a.cow[e := Remapped(vpn)]);
  }

  lemma TypedKey(s: Spaces, k: Key)
    requires Inv(s) && k in s.maps
    ensures k.1 < UVPT && (k.0, Pdx(k.1)) in s.tables
  {
    hide CountsExact, FreeListExact;
  }

  lemma MappedIsInsertable(s: Spaces, k: Key)
    requires Inv(s) && k in s.maps
    ensures InsertDefined(s, k)
  {
    hide Typed, CountsExact;
    MappedIsCounted(s, k);
    if s.free != [] { HeadIsFree(s); }
  }

  lemma UnmapKeepsTables(s: Spaces, k: Key)
    requires k in s.maps && s.maps[k].ppn < |s.ref| == |s.use| && s.ref[s.maps[k].ppn] > 0
    ensures Unmap(s, k).tables == s.tables && Unmap(s, k).maps == s.maps - {k}
  {}

  lemma ParentGoesFirst(f: State, e: nat, child: nat, vpn: nat) returns (g: State)
    requires Valid(f) && MayDup(f, e, child, vpn) && NeedsCow(f.s.maps[(e, vpn)])
    ensures ParentFirst(f, (e, vpn), g) && Valid(g) && g.s.tables == f.s.tables && g.s.free == f.s.free
    ensures g.dup == f.dup && g.cow == f.cow && g.data == f.data
  {
    hide Exclusive, CowIsReadOnly, HandlersOk, DupsOk, Inv, Maps, Embryo, MayInsert;
    var k := (e, vpn);
    TypedKey(f.s, k);
    MappedMayBeInserted(f.s, k, k);
    var t := InsertWithTable(f.s, k, f.Page(k), CowPerm(f.s.maps[k].flags));
    g := f.(s := t);
    ParentFirstIsValid(f, e, child, vpn, g);
  }

  lemma ChildGoesSecond(f: State, k: Key, j: Key, perm: Perm, i: nat, v: int) returns (a: State, b: State)
    requires Valid(f) && k in f.s.maps && j !in f.s.maps && j.1 == k.1 && (j.0, Pdx(j.1)) in f.s.tables
    requires IsWritable(f.s.maps[k]) && k.1 != UCOW && !Embryo(f, k.0) && k.0 !in f.cow
    requires f.Page(k) < |f.data| && i < |f.data[f.Page(k)]|
    ensures ChildSecond(f, k, j, perm, a) && Step(a, Write(k, i, v), b)
  {
    hide Exclusive, CowIsReadOnly, HandlersOk, DupsOk, Inv, Maps, Embryo, MayInsert;
    TypedKey(f.s, k);
    MappedMayBeInserted(f.s, k, j);
    var t := InsertWithTable(f.s, j, f.Page(k), perm);
    a := f.(s := t);
    SameEmbryos(f, a);
    b := a.(data := Stored(a.data, a.Page(k), i, v));
  }

  lemma FaultStarts(f: State, e: nat, vpn: nat, g: State)
    requires Valid(f) && Step(f, Fault(e, vpn), g)
    ensures e in g.cow && g.cow[e] == Got(vpn) && (e, vpn) in f.s.maps && (e, vpn) in g.s.maps
    ensures g.Page((e, vpn)) == f.Page((e, vpn)) && f.Page((e, vpn)) < |f.data| == |g.data|
    ensures g.data[g.Page((e, vpn))] == f.data[f.Page((e, vpn))]
  {
    hide Inv, Exclusive, CowIsReadOnly, HandlersOk, DupsOk, Maps;
    FaultFacts(f, e, vpn, g);
    PageInRange(f.s, (e, vpn));
  }

  /** The parent's fault from its beginning to its end. */
  lemma ParentFaults(f: State, e: nat, vpn: nat) returns (a: State, b: State, c: State, g: State)
    requires Valid(f) && (e, vpn) in f.s.maps && IsCow(f.s.maps[(e, vpn)]) && vpn != UCOW && e !in f.cow && !Embryo(f, e)
    requires f.s.free != [] && (e, Pdx(UCOW)) in f.s.tables
    ensures Step(f, Fault(e, vpn), a) && Step(a, Copy(e), b) && Step(b, Remap(e), c) && Step(c, Finish(e), g)
    ensures Valid(g) && g.s.tables == f.s.tables && g.dup == f.dup && e !in g.cow
    ensures (e, vpn) in g.s.maps && IsWritable(g.s.maps[(e, vpn)]) && g.Page((e, vpn)) < |g.data|
    ensures f.Page((e, vpn)) < |f.data| && g.data[g.Page((e, vpn))] == f.data[f.Page((e, vpn))]
    ensures forall x | x != (e, UCOW) :: x in g.s.maps <==> x in f.s.maps
  {
    hide Valid, Step, Embryo, View, EagerStep;
    a := FaultHappens(f, e, vpn);
    StepRefines(f, Fault(e, vpn), a);
    FaultStarts(f, e, vpn, a);
    b, c, g := HandlerEnds(a, e, vpn);
    FaultGivesWritable(f, e, vpn, a, b, c, g);
  }

  lemma MayDupMeans(f: State, e: nat, child: nat, vpn: nat)
    requires MayDup(f, e, child, vpn)
    ensures (e, vpn) in f.s.maps && e !in f.cow && !Embryo(f, e) && (child, vpn) !in f.s.maps && (child, vpn) != (e, vpn) && vpn != UCOW
    ensures (child, vpn) != (e, UCOW)
  {}

  lemma SwappedRunIs(fs: seq<State>, e: nat, child: nat, vpn: nat, i: nat, v: int)
    requires |fs| == 8 && ParentFirst(fs[0], (e, vpn), fs[1])
    requires Step(fs[1], Fault(e, vpn), fs[2]) && Step(fs[2], Copy(e), fs[3])
    requires Step(fs[3], Remap(e), fs[4]) && Step(fs[4], Finish(e), fs[5])
    requires (e, vpn) in fs[0].s.maps
    requires ChildSecond(fs[5], (e, vpn), (child, vpn), CowPerm(fs[0].s.maps[(e, vpn)].flags), fs[6])
    requires Step(fs[6], Write((e, vpn), i, v), fs[7])
    ensures SwappedRun(fs, e, child, vpn, i, v)
  {
    hide ParentFirst, ChildSecond, Step;
  }

  /** From every state in which a parent may fork, with a free page and the tables
      there, the swapped order has such a run. */
  lemma SwappedRunExists(f: State, e: nat, child: nat, vpn: nat, i: nat, v: int) returns (fs: seq<State>)
    requires Valid(f) && MayDup(f, e, child, vpn) && NeedsCow(f.s.maps[(e, vpn)])
    requires f.s.free != [] && (e, Pdx(UCOW)) in f.s.tables && (child, Pdx(vpn)) in f.s.tables
    requires f.Page((e, vpn)) < |f.data| && i < |f.data[f.Page((e, vpn))]|
    ensures |fs| == 8 && fs[0] == f && SwappedRun(fs, e, child, vpn, i, v)
  {
    hide *;
    MayDupMeans(f, e, child, vpn);
    var k := (e, vpn);
    var perm := CowPerm(f.s.maps[k].flags);
    var f1 := ParentGoesFirst(f, e, child, vpn);
    ParentFirstFacts(f, k, f1);
    SameEmbryos(f, f1);
    var f2, f3, f4, f5 := ParentFaults(f1, e, vpn);
    SameEmbryos(f1, f5);
    var f6, f7 := ChildGoesSecond(f5, k, (child, vpn), perm, i, v);
    fs := [f, f1, f2, f3, f4, f5, f6, f7];
    SwappedRunIs(fs, e, child, vpn, i, v);
  }
}
