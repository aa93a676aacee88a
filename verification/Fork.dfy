/** Copy-on-write fork (user/lib/fork.c) as a protocol of system calls, page
    faults and memory writes by many environments, one step at a time. */
module Forks {
  import opened Mmu
  import opened AddressSpaces
  import opened EnvRelease

  type Key = (nat, nat)          // environment and virtual page
  type Content = seq<int>        // the words of a page

  predicate IsLibrary(w: Word) { w.flags & PTE_LIBRARY != 0 }
  predicate IsCow(w: Word) { w.flags & PTE_COW != 0 }

  /** The permission duppage gives a private writable page. */
  function CowPerm(perm: Perm): Perm { (perm | PTE_COW) & !PTE_D }

  /** The permission cow_entry gives the private copy. */
  function OwnPerm(perm: Perm): Perm { (perm & !PTE_COW) | PTE_D }

  lemma CowPermFlags(p: nat, w: Word)
    ensures var c := Word(p, EntryFlags(CowPerm(w.flags)));
      IsCow(c) && !IsWritable(c) && (IsLibrary(c) <==> IsLibrary(w)) && (IsGlobal(c) <==> IsGlobal(w))
  {
    var f := w.flags;
    assert (((f | 0x001) & !(0x100 as bv12)) | 0x600 | 0x080) & 0x001 != 0;
    assert (((f | 0x001) & !(0x100 as bv12)) | 0x600 | 0x080) & 0x100 == 0;
    assert (((f | 0x001) & !(0x100 as bv12)) | 0x600 | 0x080) & 0x002 == f & 0x002;
    assert (((f | 0x001) & !(0x100 as bv12)) | 0x600 | 0x080) & 0x040 == f & 0x040;
  }

  lemma OwnPermFlags(p: nat, w: Word)
    ensures var c := Word(p, EntryFlags(OwnPerm(w.flags)));
      !IsCow(c) && IsWritable(c) && (IsLibrary(c) <==> IsLibrary(w)) && (IsGlobal(c) <==> IsGlobal(w))
  {
    var f := w.flags;
    assert (((f & !(0x001 as bv12)) | 0x100) | 0x600 | 0x080) & 0x001 == 0;
    assert (((f & !(0x001 as bv12)) | 0x100) | 0x600 | 0x080) & 0x100 != 0;
    assert (((f & !(0x001 as bv12)) | 0x100) | 0x600 | 0x080) & 0x002 == f & 0x002;
    assert (((f & !(0x001 as bv12)) | 0x100) | 0x600 | 0x080) & 0x040 == f & 0x040;
  }

  /** All flags that copy-on-write is not about are kept, but for those that every entry has. */
  lemma OtherFlagsStay(perm: Perm, mask: Perm)
    requires mask & (PTE_COW | PTE_D | 0x680) == 0
    ensures EntryFlags(CowPerm(perm)) & mask == perm & mask
    ensures EntryFlags(OwnPerm(perm)) & mask == perm & mask
  {
    assert PTE_COW | PTE_D | 0x680 == 0x781;
    assert mask & 0x781 == 0 ==> (((perm | 0x001) & !(0x100 as bv12)) | 0x600 | 0x080) & mask == perm & mask;
    assert mask & 0x781 == 0 ==> (((perm & !(0x001 as bv12)) | 0x100) | 0x600 | 0x080) & mask == perm & mask;
  }

  lemma SamePermFlags(p: nat, w: Word)
    ensures var c := Word(p, EntryFlags(w.flags));
      && (IsCow(c) <==> IsCow(w)) && (IsWritable(c) <==> IsWritable(w))
      && (IsLibrary(c) <==> IsLibrary(w)) && (IsGlobal(c) <==> IsGlobal(w))
  {
    var f := w.flags;
    assert (f | 0x600 | 0x080) & 0x001 == f & 0x001;
    assert (f | 0x600 | 0x080) & 0x100 == f & 0x100;
    assert (f | 0x600 | 0x080) & 0x002 == f & 0x002;
    assert (f | 0x600 | 0x080) & 0x040 == f & 0x040;
  }

  // ----- states

  /** Progress of cow_entry in one environment: it has a page at UCOW, has copied
      the faulting page into it, or has mapped it at the faulting address too. */
  datatype Handler = Got(va: nat) | Copied(va: nat) | Remapped(va: nat)

  /** `data` is the content of every physical page; `dup[e]` is the entry of the
      child that e has mapped copy-on-write while its own entry is still
      writable, between the two system calls of duppage. */
  datatype State = State(s: Spaces, data: seq<Content>, cow: map<nat, Handler>, dup: map<nat, Key>) {
    function Page(k: Key): nat
      requires k in s.maps
    {
      s.maps[k].ppn
    }
  }

  ghost predicate Embryo(f: State, e: nat) {
    exists parent :: parent in f.dup && f.dup[parent].0 == e
  }

  /** The two moments at which a private writable page is mapped twice. */
  predicate MayAlias(f: State, k: Key, j: Key) {
    || (k.0 == j.0 && k.0 in f.cow && f.cow[k.0].Remapped?
        && ((k.1 == f.cow[k.0].va && j.1 == UCOW) || (k.1 == UCOW && j.1 == f.cow[k.0].va)))
    || (k.0 in f.dup && f.dup[k.0] == j && j.1 == k.1)
  }

  /** A private page that one entry can write is mapped by no other entry. */
  ghost predicate Exclusive(f: State) {
    forall k, j | k in f.s.maps && j in f.s.maps && k != j && f.Page(k) == f.Page(j) ::
      && (IsWritable(f.s.maps[k]) && !IsLibrary(f.s.maps[k]) ==> MayAlias(f, k, j))
      && (IsLibrary(f.s.maps[k]) <==> IsLibrary(f.s.maps[j]))
  }

  ghost predicate CowIsReadOnly(f: State) {
    forall k | k in f.s.maps && IsCow(f.s.maps[k]) :: !IsWritable(f.s.maps[k]) && !IsLibrary(f.s.maps[k])
  }

  /** The page at UCOW belongs to the running handler. */
  ghost predicate HandlerOk(f: State, e: nat)
    requires e in f.cow
  {
    var va, u := f.cow[e].va, (e, UCOW);
    && va != UCOW && (e, va) in f.s.maps && u in f.s.maps
    && IsWritable(f.s.maps[u]) && !IsLibrary(f.s.maps[u])
    && (forall j | j in f.s.maps && j != u && !(f.cow[e].Remapped? && j == (e, va)) :: f.Page(j) != f.Page(u))
    && (if f.cow[e].Remapped? then f.Page((e, va)) == f.Page(u) else IsCow(f.s.maps[(e, va)]))
    && (f.cow[e].Copied? ==> f.Page((e, va)) < |f.data| && f.Page(u) < |f.data| && f.data[f.Page(u)] == f.data[f.Page((e, va))])
  }

  ghost predicate HandlersOk(f: State) {
    && (forall e | e in f.cow :: HandlerOk(f, e) && !Embryo(f, e))
    && (forall e | (e, UCOW) in f.s.maps :: e in f.cow)
  }

  /** Between the calls of duppage parent and child map the same page, and the
      child is not yet running. */
  ghost predicate DupOk(f: State, e: nat)
    requires e in f.dup
  {
    var j := f.dup[e];
    var k := (e, j.1);
    && j.0 != e && j.1 != UCOW && k in f.s.maps && j in f.s.maps && f.Page(k) == f.Page(j)
    && IsWritable(f.s.maps[k]) && !IsLibrary(f.s.maps[k])
    && !IsWritable(f.s.maps[j])
  }

  ghost predicate DupsOk(f: State) {
    && (forall e | e in f.dup :: DupOk(f, e) && !Embryo(f, e))
    && (forall d, e | d in f.dup && e in f.dup && f.dup[d].0 == f.dup[e].0 :: d == e)
  }

  ghost predicate Valid(f: State) {
    && Inv(f.s) && |f.data| == |f.s.ref|
    && Exclusive(f) && CowIsReadOnly(f) && HandlersOk(f) && DupsOk(f)
  }

  // ----- steps

  datatype Op =
    | Write(k: Key, i: nat, v: int)                 // a store that hits a writable entry
    | Fault(e: nat, va: nat)                        // cow_entry: page_alloc at UCOW
    | Copy(e: nat)                                  //   memcpy to UCOW
    | Remap(e: nat)                                 //   map UCOW's page at va
    | Finish(e: nat)                                //   unmap UCOW
    | DupChild(e: nat, child: nat, vpn: nat)        // duppage: first system call
    | DupParent(e: nat)                             //   second one, for writable pages
    | Alloc(k: Key, perm: Perm)                     // sys_mem_alloc, or the refill handler
    | Drop(k: Key)                                  // sys_mem_unmap
    | Create(e: nat)                                // sys_exofork
    | Exit(e: nat)                                  // env_free

  function Zeros(): Content { seq(ENTRIES, _ => 0) }

  /** A system call that maps page p at k, starting from spaces s. */
  ghost predicate Maps(s: Spaces, k: Key, p: nat, perm: Perm, t: Spaces) {
    && InsertDefined(s, k) && MayInsert(s, k, p) && Insert(s, k, p, perm) == (0, t)
  }

  /** duppage's test for a page that must become copy-on-write. */
  predicate NeedsCow(w: Word) {
    IsWritable(w) && !IsLibrary(w) && !IsCow(w)
  }

  function Stored(data: seq<Content>, p: nat, i: nat, v: int): seq<Content>
    requires p < |data| && i < |data[p]|
  {
    data[p := data[p][i := v]]
  }

  /** e handles no fault, and no duppage from it or into it is under way. */
  ghost predicate Quiet(f: State, e: nat) { e !in f.cow && e !in f.dup && !Embryo(f, e) }

  ghost predicate Step(f: State, op: Op, g: State) {
    match op
    case Write(k, i, v) =>
      && k in f.s.maps && IsWritable(f.s.maps[k]) && k.1 != UCOW && !Embryo(f, k.0)
      && !(k.0 in f.cow && f.cow[k.0].va == k.1)
      && f.Page(k) < |f.data| && i < |f.data[f.Page(k)]|
      && g == f.(data := Stored(f.data, f.Page(k), i, v))
    case Fault(e, va) =>
      && (e, va) in f.s.maps && IsCow(f.s.maps[(e, va)]) && va != UCOW && e !in f.cow && !Embryo(f, e)
      && f.s.free != [] && f.s.free[0] < |f.s.use| && f.s.free[0] < |f.data|
      && Maps(TakeFree(f.s), (e, UCOW), f.s.free[0], OwnPerm(f.s.maps[(e, va)].flags), g.s)
      && g.data == f.data[f.s.free[0] := Zeros()]
      && g.cow == f.cow[e := Got(va)] && g.dup == f.dup
    case Copy(e) =>
      && e in f.cow && f.cow[e].Got? && (e, UCOW) in f.s.maps && (e, f.cow[e].va) in f.s.maps
      && f.Page((e, UCOW)) < |f.data| && f.Page((e, f.cow[e].va)) < |f.data|
      && g == f.(data := f.data[f.Page((e, UCOW)) := f.data[f.Page((e, f.cow[e].va))]],
                 cow := f.cow[e := Copied(f.cow[e].va)])
    case Remap(e) =>
      && e in f.cow && f.cow[e].Copied? && (e, UCOW) in f.s.maps
      && var k := (e, f.cow[e].va);
        && k in f.s.maps
        && Maps(f.s, k, f.Page((e, UCOW)), OwnPerm(f.s.maps[k].flags), g.s)
        && g == f.(s := g.s, cow := f.cow[e := Remapped(k.1)])
    case Finish(e) =>
      && e in f.cow && f.cow[e].Remapped? && (e, UCOW) in f.s.maps
      && InsertDefined(f.s, (e, UCOW))
      && g == f.(s := Unmap(f.s, (e, UCOW)), cow := f.cow - {e})
    case DupChild(e, child, vpn) =>
      && e !in f.cow && e !in f.dup && !Embryo(f, e)
      && child != e && child !in f.cow && child !in f.dup && !Embryo(f, child)
      && (e, vpn) in f.s.maps && (child, vpn) !in f.s.maps && vpn != UCOW
      && var w := f.s.maps[(e, vpn)];
        && Maps(f.s, (child, vpn), w.ppn, DupPerm(w), g.s)
        && g == f.(s := g.s, dup := if NeedsCow(w) then f.dup[e := (child, vpn)] else f.dup)
    case DupParent(e) =>
      && e in f.dup && e !in f.cow && (e, f.dup[e].1) in f.s.maps
      && var k := (e, f.dup[e].1);
        && Maps(f.s, k, f.Page(k), CowPerm(f.s.maps[k].flags), g.s)
        && g == f.(s := g.s, dup := f.dup - {e})
    case Alloc(k, perm) =>
      && !Embryo(f, k.0) && (k in f.s.maps ==> Quiet(f, k.0)) && k.1 != UCOW && perm & PTE_COW == 0
      && f.s.free != [] && f.s.free[0] < |f.s.use| && f.s.free[0] < |f.data|
      && Maps(TakeFree(f.s), k, f.s.free[0], perm, g.s)
      && g == f.(s := g.s, data := f.data[f.s.free[0] := Zeros()])
    case Drop(k) =>
      && Quiet(f, k.0) && k.1 != UCOW && k in f.s.maps && InsertDefined(f.s, k)
      && g == f.(s := Unmap(f.s, k))
    case Create(e) =>
      && e !in f.s.dirs && f.s.free != [] && f.s.free[0] < |f.s.use| == |f.s.ref| && f.s.free[0] < |f.data|
      && g == f.(s := AddDirectory(TakeFree(f.s), e, f.s.free[0]), data := f.data[f.s.free[0] := Zeros()])
    case Exit(e) =>
      && e in f.s.dirs && e != BASE && e !in f.dup && !Embryo(f, e)
      && EnvFreed(f.s, e, g.s) && g == f.(s := g.s, cow := f.cow - {e})
  }

  // ----- the eager fork that copy-on-write stands for

  /** Every environment owns a copy of each private page; library pages are
      shared objects. */
  datatype Eager = Eager(own: map<Key, Content>, library: map<Key, nat>, objects: map<nat, Content>)

  /** The entry is part of the memory a program sees: not the handler's scratch
      page, and not an entry of a child whose duppage is still under way. */
  ghost predicate Visible(f: State, k: Key) {
    k.1 != UCOW && !exists e :: e in f.dup && f.dup[e] == k
  }

  ghost function Own(f: State): map<Key, Content> {
    map k | k in f.s.maps && Visible(f, k) && !IsLibrary(f.s.maps[k]) && f.Page(k) < |f.data| :: f.data[f.Page(k)]
  }

  ghost function Library(f: State): map<Key, nat> {
    map k | k in f.s.maps && Visible(f, k) && IsLibrary(f.s.maps[k]) :: f.Page(k)
  }

  ghost function View(f: State): Eager {
    Eager(Own(f), Library(f), map p | p in Library(f).Values && p < |f.data| :: f.data[p])
  }

  /** The entries ks are gone, and with them the objects that nobody has any more. */
  ghost function Without(a: Eager, ks: set<Key>): Eager {
    var library := a.library - ks;
    Eager(a.own - ks, library, map p | p in library.Values && p in a.objects :: a.objects[p])
  }

  /** A page of zeros at k, of its own or as the new object p. */
  ghost predicate Zeroed(a: Eager, k: Key, shared: bool, p: nat, b: Eager) {
    if shared then p !in a.objects && b == a.(library := a.library[k := p], objects := a.objects[p := Zeros()])
    else b == a.(own := a.own[k := Zeros()])
  }

  ghost function KeysOf(a: Eager, e: nat): set<Key> { set k | k in a.own.Keys + a.library.Keys && k.0 == e }

  /** One step of the eager machine: a write changes one copy or one object, a
      duplicated page is copied at once, allocation gives zeros, what is unmapped is
      gone, and faults do nothing. */
  ghost predicate EagerStep(a: Eager, f: State, op: Op, b: Eager) {
    match op
    case Write(k, i, v) =>
      if k in a.own then
        i < |a.own[k]| && b == a.(own := a.own[k := a.own[k][i := v]])
      else
        && k in a.library && a.library[k] in a.objects && i < |a.objects[a.library[k]]|
        && b == a.(objects := a.objects[a.library[k] := a.objects[a.library[k]][i := v]])
    case DupChild(e, child, vpn) =>
      (e, vpn) in f.s.maps && if NeedsCow(f.s.maps[(e, vpn)]) then b == a else Copies(a, (e, vpn), (child, vpn), b)
    case DupParent(e) => e in f.dup && Copies(a, (e, f.dup[e].1), f.dup[e], b)
    case Alloc(k, perm) => f.s.free != [] && Zeroed(Without(a, {k}), k, perm & PTE_LIBRARY != 0, f.s.free[0], b)
    case Drop(k) => b == Without(a, {k})
    case Exit(e) => b == Without(a, KeysOf(a, e))
    case _ => b == a
  }

  ghost predicate Copies(a: Eager, k: Key, j: Key, b: Eager) {
    if k in a.own then b == a.(own := a.own[j := a.own[k]])
    else k in a.library && b == a.(library := a.library[j := a.library[k]])
  }

  // ----- every step keeps the invariant and follows the eager machine

  lemma MapsIsFlat(s: Spaces, k: Key, p: nat, perm: Perm, t: Spaces)
    requires Inv(s) && Maps(s, k, p, perm, t)
    ensures Inv(t) && t.maps == s.maps[k := Word(p, EntryFlags(perm))] && |t.ref| == |s.ref|
  {
    hide Inv, Insert;
    InsertKeepsInv(s, k, p, perm);
    InsertIsFlat(s, k, p, perm);
  }

  lemma FreshPage(s: Spaces)
    requires Inv(s) && s.free != []
    ensures s.free[0] < |s.use| && Inv(TakeFree(s)) && TakeFree(s).maps == s.maps
    ensures forall k | k in s.maps :: s.maps[k].ppn != s.free[0]
  {
    hide Typed, FreeListExact;
    HeadIsFree(s);
    TakeFreeKeepsInv(s);
    assert MapsTo(s.maps, s.free[0]) == {};
    forall k | k in s.maps ensures s.maps[k].ppn != s.free[0] {
      assert k !in MapsTo(s.maps, s.free[0]);
    }
  }

  /** No entry but k itself can write the private page that k maps, unless k is
      the child's half of an unfinished duppage. */
  lemma OnlyWriter(f: State, k: Key, j: Key)
    requires Exclusive(f) && k in f.s.maps && j in f.s.maps && k != j && f.Page(k) == f.Page(j)
    requires IsWritable(f.s.maps[j]) && !IsLibrary(f.s.maps[k])
    ensures MayAlias(f, j, k)
  {}

  lemma WriteKeepsValid(f: State, k: Key, i: nat, v: int, g: State)
    requires Valid(f) && Step(f, Write(k, i, v), g)
    ensures Valid(g)
  {
    hide Inv, DupOk, HandlerOk, Embryo;
    SameEmbryos(f, g);
    forall e | e in g.cow ensures HandlerOk(g, e) { WriteKeepsHandler(f, k, i, v, g, e); }
    forall e | e in g.dup ensures DupOk(g, e) { SameDup(f, g, e); }
  }

  lemma WriteKeepsHandler(f: State, k: Key, i: nat, v: int, g: State, e: nat)
    requires Valid(f) && Step(f, Write(k, i, v), g) && e in f.cow
    ensures HandlerOk(g, e)
  {
    hide Inv, DupOk, Exclusive, CowIsReadOnly, Embryo;
    assert HandlerOk(f, e);
    if f.cow[e].Copied? { WriteMissesHandler(f, k, i, v, e); }
  }

  lemma SameDup(f: State, g: State, e: nat)
    requires e in f.dup && DupOk(f, e) && g.s.maps == f.s.maps && g.dup == f.dup
    ensures DupOk(g, e)
  {}

  /** A visible entry that shares the written private page does not exist. */
  lemma WriteIsAlone(f: State, k: Key, j: Key)
    requires Exclusive(f) && k in f.s.maps && j in f.s.maps && j != k && Visible(f, j)
    requires IsWritable(f.s.maps[k]) && !IsLibrary(f.s.maps[k]) && k.1 != UCOW
    requires !(k.0 in f.cow && f.cow[k.0].va == k.1)
    ensures f.Page(j) != f.Page(k)
  {}

  lemma WriteIsEager(f: State, k: Key, i: nat, v: int, g: State)
    requires Valid(f) && Step(f, Write(k, i, v), g)
    ensures EagerStep(View(f), f, Write(k, i, v), View(g))
  {
    hide Inv, HandlersOk, DupsOk, CowIsReadOnly, Exclusive, MayAlias, Own, Library;
    assert Visible(f, k);
    forall j | j in f.s.maps && j != k && Visible(f, j)
      ensures !IsLibrary(f.s.maps[k]) ==> f.Page(j) != f.Page(k)
      ensures IsLibrary(f.s.maps[k]) && !IsLibrary(f.s.maps[j]) ==> f.Page(j) != f.Page(k)
    {
      if !IsLibrary(f.s.maps[k]) { WriteIsAlone(f, k, j); } else if !IsLibrary(f.s.maps[j]) { LibraryApart(f, k, j); }
    }
    if IsLibrary(f.s.maps[k]) {
      SharedWrite(f, k, i, v, g);
    } else {
      OwnWrite(f, k, i, v, g);
    }
  }

  lemma OwnWrite(f: State, k: Key, i: nat, v: int, g: State)
    requires k in f.s.maps && Visible(f, k) && !IsLibrary(f.s.maps[k])
    requires f.Page(k) < |f.data| && i < |f.data[f.Page(k)]|
    requires g == f.(data := Stored(f.data, f.Page(k), i, v))
    requires forall j | j in f.s.maps && j != k && Visible(f, j) :: f.Page(j) != f.Page(k)
    ensures k in Own(f) && i < |Own(f)[k]| && View(g) == View(f).(own := Own(f)[k := Own(f)[k][i := v]])
  {
    assert forall j: Key :: Visible(g, j) == Visible(f, j);
    assert Own(g) == Own(f)[k := Own(f)[k][i := v]];
    assert Library(g) == Library(f);
    forall p | p in Library(f).Values ensures p != f.Page(k) {
      var j :| j in Library(f) && Library(f)[j] == p;
      assert j != k && Visible(f, j);
    }
  }

  lemma SharedWrite(f: State, k: Key, i: nat, v: int, g: State)
    requires k in f.s.maps && Visible(f, k) && IsLibrary(f.s.maps[k])
    requires f.Page(k) < |f.data| && i < |f.data[f.Page(k)]|
    requires g == f.(data := Stored(f.data, f.Page(k), i, v))
    requires forall j | j in f.s.maps && j != k && Visible(f, j) && !IsLibrary(f.s.maps[j]) :: f.Page(j) != f.Page(k)
    ensures var a := View(f);
      && k !in a.own && k in a.library && a.library[k] in a.objects && i < |a.objects[a.library[k]]|
      && View(g) == a.(objects := a.objects[a.library[k] := a.objects[a.library[k]][i := v]])
  {
    assert forall j: Key :: Visible(g, j) == Visible(f, j);
    assert Own(g) == Own(f);
    assert Library(g) == Library(f);
    assert k in Library(f) && Library(f)[k] == f.Page(k);
  }

  lemma LibraryApart(f: State, k: Key, j: Key)
    requires Exclusive(f) && k in f.s.maps && j in f.s.maps
    requires IsLibrary(f.s.maps[k]) != IsLibrary(f.s.maps[j])
    ensures f.Page(j) != f.Page(k)
  {}

  lemma WriteMissesHandler(f: State, k: Key, i: nat, v: int, e: nat)
    requires Valid(f) && k in f.s.maps && IsWritable(f.s.maps[k]) && k.1 != UCOW
    requires e in f.cow && f.cow[e].Copied? && !(k.0 in f.cow && f.cow[k.0].va == k.1)
    ensures HandlerOk(f, e) && f.Page(k) != f.Page((e, UCOW)) && f.Page(k) != f.Page((e, f.cow[e].va))
  {
    hide Inv, DupOk;
    assert HandlerOk(f, e);
    var j := (e, f.cow[e].va);
    if f.Page(k) == f.Page(j) {
      if k == j { assert false; }
      OnlyWriter(f, j, k);
    }
  }

  // ----- cow_entry

  lemma FaultFacts(f: State, e: nat, va: nat, g: State)
    requires Valid(f) && Step(f, Fault(e, va), g)
    ensures var u, p := (e, UCOW), f.s.free[0];
      && u !in f.s.maps && (forall k | k in f.s.maps :: f.Page(k) != p)
      && Inv(g.s) && |g.data| == |g.s.ref| && u in g.s.maps && g.s.maps == f.s.maps[u := g.s.maps[u]] && g.Page(u) == p
      && IsWritable(g.s.maps[u]) && !IsLibrary(g.s.maps[u]) && !IsCow(g.s.maps[u])
  {
    hide Inv, Exclusive, DupsOk, HandlerOk, Insert, MayInsert;
    FreshPage(f.s);
    var w := f.s.maps[(e, va)];
    MapsIsFlat(TakeFree(f.s), (e, UCOW), f.s.free[0], OwnPerm(w.flags), g.s);
    OwnPermFlags(f.s.free[0], w);
  }

  lemma FaultKeepsHandler(f: State, e: nat, va: nat, g: State, d: nat)
    requires Valid(f) && Step(f, Fault(e, va), g) && d in g.cow
    ensures HandlerOk(g, d)
  {
    hide Inv, Exclusive, DupsOk, CowIsReadOnly, Maps, MayInsert;
    FaultFacts(f, e, va, g);
    if d != e { assert HandlerOk(f, d); }
  }

  lemma FaultKeepsHandlers(f: State, e: nat, va: nat, g: State)
    requires Valid(f) && Step(f, Fault(e, va), g)
    ensures HandlersOk(g)
  {
    hide Inv, Exclusive, DupsOk, CowIsReadOnly, Maps, HandlerOk;
    FaultFacts(f, e, va, g);
    forall d | d in g.cow ensures HandlerOk(g, d) && !Embryo(g, d) {
      FaultKeepsHandler(f, e, va, g, d);
    }
  }

  lemma FaultKeepsDups(f: State, e: nat, va: nat, g: State)
    requires Valid(f) && Step(f, Fault(e, va), g)
    ensures DupsOk(g)
  {
    hide Inv, Exclusive, HandlersOk, CowIsReadOnly, Maps;
    FaultFacts(f, e, va, g);
    forall d | d in g.dup ensures DupOk(g, d) && !Embryo(g, d) {
      assert DupOk(f, d) && !Embryo(f, d);
    }
  }

  /** A new entry for a page nobody maps. */
  lemma FreshEntryIsExclusive(f: State, g: State, u: Key)
    requires Exclusive(f) && CowIsReadOnly(f) && g.dup == f.dup
    requires u !in f.s.maps && u in g.s.maps && g.s.maps == f.s.maps[u := g.s.maps[u]] && !IsCow(g.s.maps[u])
    requires forall k | k in f.s.maps :: f.Page(k) != g.Page(u)
    requires forall e | e in f.cow && f.cow[e].Remapped? :: e in g.cow && g.cow[e] == f.cow[e]
    ensures Exclusive(g) && CowIsReadOnly(g)
  {}

  lemma FaultStep(f: State, e: nat, va: nat, g: State)
    requires Valid(f) && Step(f, Fault(e, va), g)
    ensures Valid(g) && View(g) == View(f)
  {
    hide Inv, Maps, HandlerOk, DupOk, Exclusive, CowIsReadOnly, Embryo;
    FaultFacts(f, e, va, g);
    FaultKeepsHandlers(f, e, va, g);
    FaultKeepsDups(f, e, va, g);
    FreshEntryIsExclusive(f, g, (e, UCOW));
    UnseenChange(f, g, (e, UCOW));
  }

  /** A change of an entry and of data that no program sees. */
  lemma UnseenChange(f: State, g: State, u: Key)
    requires g.dup == f.dup && |g.data| == |f.data| && !Visible(f, u)
    requires forall k | k != u :: k in g.s.maps <==> k in f.s.maps
    requires forall k | k in f.s.maps && k != u ::
      g.s.maps[k] == f.s.maps[k] && (f.Page(k) < |f.data| ==> g.data[f.Page(k)] == f.data[f.Page(k)])
    ensures View(g) == View(f)
  {
    SameVisible(f, g);
    hide Visible;
    assert Own(g) == Own(f) by { hide Library; }
    assert Library(g) == Library(f) by { hide Own; }
    forall p | p in Library(f).Values && p < |f.data| ensures g.data[p] == f.data[p] {
      var k :| k in Library(f) && Library(f)[k] == p;
    }
  }

  lemma CopyKeepsHandler(f: State, e: nat, g: State, d: nat)
    requires Valid(f) && Step(f, Copy(e), g) && d in g.cow
    ensures HandlerOk(g, d)
  {
    hide Inv, DupsOk, Exclusive, CowIsReadOnly;
    assert HandlerOk(f, e) && HandlerOk(f, d);
    if d != e { HandlerUnaffected(f, e, d); }
  }

  lemma CopyStep(f: State, e: nat, g: State)
    requires Valid(f) && Step(f, Copy(e), g)
    ensures Valid(g) && View(g) == View(f)
  {
    hide Inv, DupOk, HandlerOk, View;
    HandlerHasPage(f, e);
    forall d | d in g.cow ensures HandlerOk(g, d) && !Embryo(g, d) {
      CopyKeepsHandler(f, e, g, d);
    }
    forall d | d in g.dup ensures DupOk(g, d) && !Embryo(g, d) {
      SameDup(f, g, d);
    }
    UnseenChange(f, g, (e, UCOW));
  }

  lemma HandlerHasPage(f: State, e: nat)
    requires HandlersOk(f) && e in f.cow
    ensures (e, UCOW) in f.s.maps && !Visible(f, (e, UCOW)) && (e, f.cow[e].va) in f.s.maps
    ensures forall j | j in f.s.maps && j != (e, UCOW) && !(f.cow[e].Remapped? && j == (e, f.cow[e].va)) ::
      f.Page(j) != f.Page((e, UCOW))
    ensures Visible(f, (e, f.cow[e].va))
  {
    assert HandlerOk(f, e) && !Embryo(f, e);
  }

  /** Another environment's handler does not touch the page at e's UCOW. */
  lemma HandlerUnaffected(f: State, e: nat, d: nat)
    requires HandlersOk(f) && e in f.cow && d in f.cow && d != e && f.cow[e].Got?
    ensures HandlerOk(f, e) && HandlerOk(f, d)
    ensures f.Page((d, UCOW)) != f.Page((e, UCOW)) && f.Page((d, f.cow[d].va)) != f.Page((e, UCOW))
  {}

  lemma RemapFacts(f: State, e: nat, g: State)
    requires Valid(f) && Step(f, Remap(e), g)
    ensures var u, k := (e, UCOW), (e, f.cow[e].va);
      && u != k && u in f.s.maps && k in f.s.maps && IsCow(f.s.maps[k]) && !IsWritable(f.s.maps[k]) && !IsLibrary(f.s.maps[k])
      && IsWritable(f.s.maps[u]) && !IsLibrary(f.s.maps[u])
      && f.Page(k) < |f.data| && f.Page(u) < |f.data| && f.data[f.Page(u)] == f.data[f.Page(k)]
      && Inv(g.s) && |g.data| == |g.s.ref| && k in g.s.maps && g.s.maps == f.s.maps[k := g.s.maps[k]] && g.Page(k) == f.Page(u)
      && IsWritable(g.s.maps[k]) && !IsLibrary(g.s.maps[k]) && !IsCow(g.s.maps[k])
  {
    hide Inv, Exclusive, DupsOk, Insert, MayInsert;
    assert HandlerOk(f, e);
    var w := f.s.maps[(e, f.cow[e].va)];
    MapsIsFlat(f.s, (e, f.cow[e].va), f.Page((e, UCOW)), OwnPerm(w.flags), g.s);
    OwnPermFlags(f.Page((e, UCOW)), w);
  }

  lemma RemapIsExclusive(f: State, e: nat, g: State)
    requires Valid(f) && Step(f, Remap(e), g)
    ensures Exclusive(g) && CowIsReadOnly(g)
  {
    hide Inv, DupsOk, Maps, HandlerOk;
    RemapFacts(f, e, g);
    HandlerHasPage(f, e);
  }

  lemma RemapKeepsHandler(f: State, e: nat, g: State, d: nat)
    requires Valid(f) && Step(f, Remap(e), g) && d in g.cow
    ensures HandlerOk(g, d)
  {
    hide Inv, DupsOk, Exclusive, CowIsReadOnly, Maps;
    RemapFacts(f, e, g);
    HandlerHasPage(f, e);
    assert HandlerOk(f, d);
  }

  lemma RemapKeepsDup(f: State, e: nat, g: State, d: nat)
    requires Valid(f) && Step(f, Remap(e), g) && d in g.dup
    ensures DupOk(g, d)
  {
    hide Inv, HandlerOk, Exclusive, CowIsReadOnly, Maps;
    RemapFacts(f, e, g);
    assert DupOk(f, d) && !Embryo(f, e);
  }

  lemma RemapStep(f: State, e: nat, g: State)
    requires Valid(f) && Step(f, Remap(e), g)
    ensures Valid(g) && View(g) == View(f)
  {
    hide Inv, Maps, HandlerOk, DupOk, Exclusive, CowIsReadOnly, Embryo, View;
    RemapFacts(f, e, g);
    RemapIsExclusive(f, e, g);
    assert forall d :: Embryo(g, d) == Embryo(f, d) by { SameEmbryos(f, g); }
    forall d | d in g.cow ensures HandlerOk(g, d) { RemapKeepsHandler(f, e, g, d); }
    forall d | d in g.dup ensures DupOk(g, d) { RemapKeepsDup(f, e, g, d); }
    RemapKeepsView(f, e, g);
  }

  lemma RemapKeepsView(f: State, e: nat, g: State)
    requires Valid(f) && Step(f, Remap(e), g)
    ensures View(g) == View(f)
  {
    hide Inv, Maps, HandlerOk, DupOk, Exclusive, CowIsReadOnly, Embryo;
    RemapFacts(f, e, g);
    SameVisible(f, g);
    hide Valid, Step, Visible;
    assert Own(g) == Own(f) by { hide Library; }
    assert Library(g) == Library(f) by { hide Own; }
  }

  lemma SameEmbryos(f: State, g: State)
    requires g.dup == f.dup
    ensures forall d :: Embryo(g, d) == Embryo(f, d)
  {}

  lemma FinishFacts(f: State, e: nat, g: State)
    requires Valid(f) && Step(f, Finish(e), g)
    ensures Inv(g.s) && |g.data| == |g.s.ref| && g.s.maps == f.s.maps - {(e, UCOW)}
    ensures HandlerOk(f, e)
  {
    hide Inv, Exclusive, DupsOk, HandlerOk;
    UnmapKeepsInv(f.s, (e, UCOW));
  }

  lemma FinishStep(f: State, e: nat, g: State)
    requires Valid(f) && Step(f, Finish(e), g)
    ensures Valid(g) && View(g) == View(f)
  {
    hide Inv, Unmap, HandlerOk, DupOk, Exclusive, CowIsReadOnly, Embryo, View;
    FinishFacts(f, e, g);
    FinishIsExclusive(f, e, g);
    SameEmbryos(f, g);
    forall d | d in g.cow ensures HandlerOk(g, d) { FinishKeepsHandler(f, e, g, d); }
    forall d | d in g.dup ensures DupOk(g, d) { FinishKeepsDup(f, e, g, d); }
    UnseenChange(f, g, (e, UCOW));
  }

  lemma FinishIsExclusive(f: State, e: nat, g: State)
    requires Exclusive(f) && CowIsReadOnly(f) && e in f.cow && g.dup == f.dup && g.cow == f.cow - {e}
    requires g.s.maps == f.s.maps - {(e, UCOW)}
    ensures Exclusive(g) && CowIsReadOnly(g)
  {}

  lemma FinishKeepsHandler(f: State, e: nat, g: State, d: nat)
    requires d in f.cow && HandlerOk(f, d) && d != e && g.data == f.data
    requires d in g.cow && g.cow[d] == f.cow[d] && g.s.maps == f.s.maps - {(e, UCOW)}
    ensures HandlerOk(g, d)
  {}

  lemma FinishKeepsDup(f: State, e: nat, g: State, d: nat)
    requires DupsOk(f) && g.dup == f.dup && g.s.maps == f.s.maps - {(e, UCOW)} && d in g.dup
    ensures DupOk(g, d)
  {
    assert DupOk(f, d);
  }

  // ----- duppage

  /** The permission duppage gives the child. */
  function DupPerm(w: Word): Perm {
    if NeedsCow(w) then CowPerm(w.flags) else w.flags
  }

  /** duppage gives the child every flag but those that copy-on-write is about. */
  lemma DupKeepsFlags(w: Word, mask: Perm)
    requires mask & (PTE_COW | PTE_D | 0x680) == 0
    ensures EntryFlags(DupPerm(w)) & mask == w.flags & mask
  {
    OtherFlagsStay(w.flags, mask);
    FlagsAreAsAsked(w.flags, mask);
    assert PTE_COW | PTE_D | 0x680 == 0x781;
    assert mask & 0x781 == 0 ==> mask & 0x680 == 0;
  }

  lemma DupPermFlags(f: State, k: Key)
    requires CowIsReadOnly(f) && k in f.s.maps
    ensures var w := f.s.maps[k];
      var c := Word(w.ppn, EntryFlags(DupPerm(w)));
      && (IsLibrary(c) <==> IsLibrary(w))
      && (NeedsCow(w) ==> !IsWritable(c))
      && (!NeedsCow(w) ==> (IsWritable(c) <==> IsWritable(w)) && (IsCow(c) <==> IsCow(w)))
      && (!IsLibrary(w) ==> !IsWritable(c))
      && (IsCow(c) ==> !IsWritable(c) && !IsLibrary(c))
  {
    hide EntryFlags, CowPerm;
    var w := f.s.maps[k];
    CowPermFlags(w.ppn, w);
    SamePermFlags(w.ppn, w);
  }

  /** The child's entry j has the page of the parent's entry k; data is as before. */
  ghost predicate ChildMapped(f: State, k: Key, j: Key, g: State) {
    && k in f.s.maps && f.s.maps[k].ppn < |f.data|
    && Inv(g.s) && |g.data| == |g.s.ref|
    && g.s.maps == f.s.maps[j := Word(f.s.maps[k].ppn, EntryFlags(DupPerm(f.s.maps[k])))]
  }

  lemma DupChildFacts(f: State, e: nat, child: nat, vpn: nat, g: State)
    requires Valid(f) && Step(f, DupChild(e, child, vpn), g)
    ensures ChildMapped(f, (e, vpn), (child, vpn), g)
  {
    hide Inv, Exclusive, DupsOk, HandlersOk, Maps, EntryFlags, CowPerm;
    var w := f.s.maps[(e, vpn)];
    PageInRange(f.s, (e, vpn));
    MapsIsFlat(f.s, (child, vpn), w.ppn, DupPerm(w), g.s);
  }

  lemma PageInRange(s: Spaces, k: Key)
    requires Inv(s) && k in s.maps
    ensures s.maps[k].ppn < |s.ref|
  {
    hide CountsExact, FreeListExact;
  }

  /** Nobody else writes the private page that e is about to share. */
  lemma ParentIsAlone(f: State, e: nat, vpn: nat, x: Key)
    requires Exclusive(f) && e !in f.cow && !Embryo(f, e)
    requires (e, vpn) in f.s.maps && x in f.s.maps && x != (e, vpn) && f.Page(x) == f.Page((e, vpn))
    requires !IsLibrary(f.s.maps[(e, vpn)])
    ensures !IsWritable(f.s.maps[x])
  {
    if IsWritable(f.s.maps[x]) { OnlyWriter(f, (e, vpn), x); }
  }

  lemma DupChildIsExclusive(f: State, e: nat, child: nat, vpn: nat, g: State)
    requires Valid(f) && Step(f, DupChild(e, child, vpn), g)
    ensures Exclusive(g)
  {
    hide DupPerm, EntryFlags, Inv, DupsOk, HandlersOk, Maps, Embryo;
    DupChildFacts(f, e, child, vpn, g);
    DupPermFlags(f, (e, vpn));
    var k, j := (e, vpn), (child, vpn);
    forall x | x in f.s.maps && x != k && f.Page(x) == f.Page(k)
      ensures (IsLibrary(f.s.maps[x]) <==> IsLibrary(f.s.maps[k])) && (!IsLibrary(f.s.maps[x]) ==> !IsWritable(f.s.maps[x]))
    {
      if !IsLibrary(f.s.maps[k]) { ParentIsAlone(f, e, vpn, x); }
    }
  }

  lemma DupChildIsCowReadOnly(f: State, e: nat, child: nat, vpn: nat, g: State)
    requires Valid(f) && Step(f, DupChild(e, child, vpn), g)
    ensures CowIsReadOnly(g)
  {
    hide DupPerm, EntryFlags, Inv, DupsOk, HandlersOk, Maps, Embryo, Exclusive;
    DupChildFacts(f, e, child, vpn, g);
    DupPermFlags(f, (e, vpn));
  }

  lemma DupChildKeepsHandler(f: State, e: nat, child: nat, vpn: nat, g: State, d: nat)
    requires Valid(f) && Step(f, DupChild(e, child, vpn), g) && d in g.cow
    ensures HandlerOk(g, d)
  {
    hide DupPerm, EntryFlags, Inv, DupsOk, Exclusive, CowIsReadOnly, Maps;
    DupChildFacts(f, e, child, vpn, g);
    DupPermFlags(f, (e, vpn));
    HandlerHasPage(f, d);
    assert HandlerOk(f, d);
  }

  lemma DupChildKeepsDup(f: State, e: nat, child: nat, vpn: nat, g: State, d: nat)
    requires Valid(f) && Step(f, DupChild(e, child, vpn), g) && d in g.dup
    ensures DupOk(g, d)
  {
    hide DupPerm, EntryFlags, Inv, HandlersOk, Exclusive, CowIsReadOnly, Maps;
    DupChildFacts(f, e, child, vpn, g);
    DupPermFlags(f, (e, vpn));
    if d != e { assert DupOk(f, d); }
  }

  lemma DupChildEmbryos(f: State, e: nat, child: nat, vpn: nat, g: State)
    requires Valid(f) && Step(f, DupChild(e, child, vpn), g)
    ensures forall d :: Embryo(g, d) ==> Embryo(f, d) || d == child
    ensures forall d, b | d in g.dup && b in g.dup && g.dup[d].0 == g.dup[b].0 :: d == b
  {
    hide Inv, HandlersOk, Exclusive, CowIsReadOnly, Maps, DupOk;
  }

  lemma DupChildKeepsValid(f: State, e: nat, child: nat, vpn: nat, g: State)
    requires Valid(f) && Step(f, DupChild(e, child, vpn), g)
    ensures Valid(g)
  {
    hide Inv, Maps, HandlerOk, DupOk, Exclusive, CowIsReadOnly, Embryo;
    DupChildFacts(f, e, child, vpn, g);
    DupChildIsExclusive(f, e, child, vpn, g);
    DupChildIsCowReadOnly(f, e, child, vpn, g);
    DupChildEmbryos(f, e, child, vpn, g);
    forall d | d in g.cow ensures HandlerOk(g, d) { DupChildKeepsHandler(f, e, child, vpn, g, d); }
    forall d | d in g.dup ensures DupOk(g, d) { DupChildKeepsDup(f, e, child, vpn, g, d); }
  }

  lemma DupChildIsEager(f: State, e: nat, child: nat, vpn: nat, g: State)
    requires Valid(f) && Step(f, DupChild(e, child, vpn), g)
    ensures EagerStep(View(f), f, DupChild(e, child, vpn), View(g))
  {
    hide DupPerm, EntryFlags, Inv, Maps, HandlersOk, DupsOk, Exclusive, CowIsReadOnly, Copies;
    DupChildFacts(f, e, child, vpn, g);
    DupPermFlags(f, (e, vpn));
    var k, j, w := (e, vpn), (child, vpn), f.s.maps[(e, vpn)];
    assert Visible(f, k) && Visible(f, j);
    if NeedsCow(w) {
      VisibleAfterFirstCall(f, g, e, j);
      HiddenEntry(f, g, j);
    } else {
      assert forall x: Key :: Visible(g, x) == Visible(f, x) by { SameVisible(f, g); }
      CopiedEntry(f, g, k, j);
    }
  }

  lemma SameVisible(f: State, g: State)
    requires g.dup == f.dup
    ensures forall x: Key :: Visible(g, x) == Visible(f, x)
  {}

  lemma HiddenEntry(f: State, g: State, j: Key)
    requires j !in f.s.maps && j in g.s.maps && g.s.maps == f.s.maps[j := g.s.maps[j]] && g.data == f.data
    requires !Visible(g, j) && forall x: Key | x != j :: Visible(g, x) == Visible(f, x)
    ensures View(g) == View(f)
  {
    hide Visible, IsLibrary;
    assert Own(g) == Own(f) by { hide Library; }
    assert Library(g) == Library(f) by { hide Own; }
  }

  lemma VisibleAfterFirstCall(f: State, g: State, e: nat, j: Key)
    requires e !in f.dup && g.dup == f.dup[e := j]
    ensures !Visible(g, j)
    ensures forall x: Key | x != j :: Visible(g, x) == Visible(f, x)
  {
    assert e in g.dup && g.dup[e] == j;
    forall x: Key | x != j && !Visible(f, x) ensures !Visible(g, x) {
      if x.1 != UCOW {
        var d :| d in f.dup && f.dup[d] == x;
        assert d in g.dup && g.dup[d] == x;
      }
    }
  }

  lemma VisibleAfterSecondCall(f: State, g: State, e: nat)
    requires e in f.dup && g.dup == f.dup - {e} && f.dup[e].1 != UCOW
    requires forall d | d in f.dup && f.dup[d].0 == f.dup[e].0 :: d == e
    ensures Visible(g, f.dup[e])
    ensures forall x: Key | x != f.dup[e] :: Visible(g, x) == Visible(f, x)
  {
    forall x: Key | x != f.dup[e] && !Visible(f, x) ensures !Visible(g, x) {
      if x.1 != UCOW {
        var d :| d in f.dup && f.dup[d] == x;
        assert d in g.dup && g.dup[d] == x;
      }
    }
  }

  /** Entry j appears with the page of the visible entry k; nothing else changes. */
  ghost predicate Appears(f: State, g: State, k: Key, j: Key) {
    && k in f.s.maps && k in g.s.maps && j in g.s.maps && j != k && g.data == f.data && f.Page(k) < |f.data|
    && Visible(f, k) && Visible(g, k) && Visible(g, j)
    && g.Page(k) == f.Page(k) && g.Page(j) == f.Page(k)
    && (IsLibrary(g.s.maps[j]) <==> IsLibrary(f.s.maps[k])) && (IsLibrary(g.s.maps[k]) <==> IsLibrary(f.s.maps[k]))
    && (j !in f.s.maps || !Visible(f, j))
    && (forall x: Key | x != j :: Visible(g, x) == Visible(f, x))
    && (forall x | x != j && x != k :: x in g.s.maps <==> x in f.s.maps)
    && (forall x | x in f.s.maps && x != j && x != k :: g.s.maps[x] == f.s.maps[x])
  }

  lemma CopiedOwn(f: State, g: State, k: Key, j: Key)
    requires Appears(f, g, k, j) && !IsLibrary(f.s.maps[k])
    ensures Copies(View(f), k, j, View(g))
  {
    hide Visible, IsLibrary;
    OwnAppears(f, g, k, j);
    assert Library(g) == Library(f) by { hide Own; }
    hide Own, Library, Appears;
  }

  lemma OwnAppears(f: State, g: State, k: Key, j: Key)
    requires Appears(f, g, k, j) && !IsLibrary(f.s.maps[k])
    ensures k in Own(f) && Own(g) == Own(f)[j := Own(f)[k]]
  {
    hide Visible, IsLibrary;
    var own := Own(f)[j := Own(f)[k]];
    forall x ensures x in Own(g) <==> x in own {}
    forall x | x in own ensures Own(g)[x] == own[x] {}
  }

  lemma CopiedLibrary(f: State, g: State, k: Key, j: Key)
    requires Appears(f, g, k, j) && IsLibrary(f.s.maps[k])
    ensures Copies(View(f), k, j, View(g))
  {
    hide Visible, IsLibrary;
    assert Library(g) == Library(f)[j := Library(f)[k]] by { hide Own; }
    assert Own(g) == Own(f) by { hide Library; }
    LibraryGrows(Library(f), k, j);
  }

  lemma LibraryGrows(m: map<Key, nat>, k: Key, j: Key)
    requires k in m && j !in m
    ensures m[j := m[k]].Values == m.Values
  {
    var n := m[j := m[k]];
    forall p | p in m.Values ensures p in n.Values {
      var x :| x in m && m[x] == p;
      assert x in n && n[x] == p;
    }
  }

  lemma CopiedEntry(f: State, g: State, k: Key, j: Key)
    requires Appears(f, g, k, j)
    ensures Copies(View(f), k, j, View(g))
  {
    if IsLibrary(f.s.maps[k]) { CopiedLibrary(f, g, k, j); } else { CopiedOwn(f, g, k, j); }
  }

  /** The parent's entry k, whose page the child's entry j has, is made copy-on-write. */
  ghost predicate ParentRemapped(f: State, k: Key, j: Key, g: State) {
    && j.0 != k.0 && j.1 != UCOW && k in f.s.maps && j in f.s.maps && f.Page(k) == f.Page(j) && f.Page(k) < |f.data|
    && !IsLibrary(f.s.maps[k]) && IsWritable(f.s.maps[k])
    && Inv(g.s) && |g.data| == |g.s.ref| && k in g.s.maps && g.s.maps == f.s.maps[k := g.s.maps[k]]
    && g.Page(k) == f.Page(k) && IsCow(g.s.maps[k]) && !IsWritable(g.s.maps[k]) && !IsLibrary(g.s.maps[k])
  }

  lemma DupParentFacts(f: State, e: nat, g: State)
    requires Valid(f) && Step(f, DupParent(e), g)
    ensures e in f.dup && ParentRemapped(f, (e, f.dup[e].1), f.dup[e], g)
  {
    hide Inv, Exclusive, HandlersOk, Insert, MayInsert, CowIsReadOnly;
    assert DupOk(f, e);
    var k := (e, f.dup[e].1);
    MapsIsFlat(f.s, k, f.Page(k), CowPerm(f.s.maps[k].flags), g.s);
    CowPermFlags(f.Page(k), f.s.maps[k]);
    PageInRange(f.s, k);
  }

  lemma DupParentIsExclusive(f: State, e: nat, g: State)
    requires Valid(f) && Step(f, DupParent(e), g)
    ensures Exclusive(g) && CowIsReadOnly(g)
  {
    hide Inv, DupsOk, HandlersOk, Maps;
    DupParentFacts(f, e, g);
  }

  lemma DupParentKeepsHandler(f: State, e: nat, g: State, d: nat)
    requires Valid(f) && Step(f, DupParent(e), g) && d in g.cow
    ensures HandlerOk(g, d)
  {
    hide Inv, DupsOk, Exclusive, CowIsReadOnly, Maps;
    DupParentFacts(f, e, g);
    assert HandlerOk(f, d);
  }

  lemma DupParentKeepsDup(f: State, e: nat, g: State, d: nat)
    requires Valid(f) && Step(f, DupParent(e), g) && d in g.dup
    ensures DupOk(g, d)
  {
    hide Inv, HandlersOk, Exclusive, CowIsReadOnly, Maps;
    DupParentFacts(f, e, g);
    assert DupOk(f, d) && !Embryo(f, e);
  }

  lemma DupParentKeepsValid(f: State, e: nat, g: State)
    requires Valid(f) && Step(f, DupParent(e), g)
    ensures Valid(g)
  {
    hide Inv, Maps, HandlerOk, DupOk, Exclusive, CowIsReadOnly;
    DupParentFacts(f, e, g);
    DupParentIsExclusive(f, e, g);
    assert forall d :: Embryo(g, d) ==> Embryo(f, d);
    forall d | d in g.cow ensures HandlerOk(g, d) { DupParentKeepsHandler(f, e, g, d); }
    forall d | d in g.dup ensures DupOk(g, d) { DupParentKeepsDup(f, e, g, d); }
  }

  lemma DupParentIsEager(f: State, e: nat, g: State)
    requires Valid(f) && Step(f, DupParent(e), g)
    ensures EagerStep(View(f), f, DupParent(e), View(g))
  {
    hide Inv, Maps, HandlersOk, DupOk, Exclusive, CowIsReadOnly, Copies;
    DupParentFacts(f, e, g);
    var j := f.dup[e];
    var k := (e, j.1);
    DupLibrary(f, e);
    assert Visible(f, k);
    VisibleAfterSecondCall(f, g, e);
    assert !Visible(f, j);
    CopiedEntry(f, g, k, j);
  }

  lemma DupLibrary(f: State, e: nat)
    requires Exclusive(f) && DupsOk(f) && e in f.dup
    ensures f.dup[e] in f.s.maps && !IsLibrary(f.s.maps[f.dup[e]])
  {
    assert DupOk(f, e);
  }

  // ----- allocation, unmapping, and the beginning and end of environments

  /** The entries ks, which no duppage or remaining handler is about, are unmapped. */
  ghost predicate Removed(f: State, ks: set<Key>, g: State) {
    && g.s.maps == f.s.maps - ks && g.data == f.data && g.dup == f.dup
    && (forall k | k in ks && k in f.s.maps :: k.0 !in f.dup && !Embryo(f, k.0) && k.0 !in g.cow)
    && (forall e | e in g.cow :: e in f.cow && g.cow[e] == f.cow[e])
    && (forall e | e in f.cow && e !in g.cow :: (e, UCOW) in ks)
  }

  lemma RemovedIsExclusive(f: State, ks: set<Key>, g: State)
    requires Exclusive(f) && CowIsReadOnly(f) && Removed(f, ks, g)
    ensures Exclusive(g) && CowIsReadOnly(g)
  {
    hide Embryo;
  }

  lemma RemovedKeepsHandlers(f: State, ks: set<Key>, g: State)
    requires HandlersOk(f) && Removed(f, ks, g)
    ensures HandlersOk(g)
  {
    hide Embryo;
    SameEmbryos(f, g);
    forall d | d in g.cow ensures HandlerOk(g, d) { assert HandlerOk(f, d); }
  }

  lemma RemovedKeepsDups(f: State, ks: set<Key>, g: State)
    requires DupsOk(f) && Removed(f, ks, g)
    ensures DupsOk(g)
  {
    forall d | d in g.dup ensures DupOk(g, d) && !Embryo(g, d) {
      assert DupOk(f, d) && !Embryo(f, d) && Embryo(f, f.dup[d].0);
    }
  }

  lemma RemovedView(f: State, ks: set<Key>, g: State)
    requires Removed(f, ks, g)
    ensures View(g) == Without(View(f), ks)
  {
    SameVisible(f, g);
    RemovedOwn(f, ks, g);
    RemovedLibrary(f, ks, g);
    hide Own, Library, Removed, Visible;
  }

  lemma RemovedOwn(f: State, ks: set<Key>, g: State)
    requires g.s.maps == f.s.maps - ks && g.data == f.data && forall x: Key :: Visible(g, x) == Visible(f, x)
    ensures Own(g) == Own(f) - ks
  {
    hide Visible, IsLibrary, Library;
  }

  lemma RemovedLibrary(f: State, ks: set<Key>, g: State)
    requires g.s.maps == f.s.maps - ks && forall x: Key :: Visible(g, x) == Visible(f, x)
    ensures Library(g) == Library(f) - ks && Library(g).Values <= Library(f).Values
  {
    hide Visible, IsLibrary, Own;
    assert Library(g) == Library(f) - ks;
    forall p | p in Library(g).Values ensures p in Library(f).Values {
      var k :| k in Library(g) && Library(g)[k] == p;
      assert k in Library(f) && Library(f)[k] == p;
    }
  }

  /** Entry u, which there was not, becomes w, whose page nobody maps and is full of zeros. */
  ghost predicate Added(f: State, u: Key, w: Word, g: State) {
    && u !in f.s.maps && u.1 != UCOW && !Embryo(f, u.0)
    && g.s.maps == f.s.maps[u := w] && w.ppn < |f.data| && !IsCow(w)
    && (forall k | k in f.s.maps :: f.Page(k) != w.ppn)
    && g.data == f.data[w.ppn := Zeros()] && g.cow == f.cow && g.dup == f.dup
  }

  lemma AddedKeepsHandlers(f: State, u: Key, w: Word, g: State)
    requires HandlersOk(f) && Added(f, u, w, g)
    ensures HandlersOk(g)
  {
    hide Embryo, IsCow;
    SameEmbryos(f, g);
    forall d | d in g.cow ensures HandlerOk(g, d) { assert HandlerOk(f, d); }
  }

  lemma AddedKeepsDups(f: State, u: Key, w: Word, g: State)
    requires DupsOk(f) && Added(f, u, w, g)
    ensures DupsOk(g)
  {
    forall d | d in g.dup ensures DupOk(g, d) && !Embryo(g, d) {
      assert DupOk(f, d) && !Embryo(f, d);
    }
  }

  lemma AddedView(f: State, u: Key, w: Word, g: State)
    requires Added(f, u, w, g)
    ensures Zeroed(View(f), u, IsLibrary(w), w.ppn, View(g))
  {
    SameVisible(f, g);
    assert Visible(g, u);
    hide Visible, Embryo, IsCow;
    if IsLibrary(w) { AddedLibrary(f, u, w, g); } else { AddedOwn(f, u, w, g); }
  }

  lemma NobodysObject(f: State, p: nat)
    requires forall k | k in f.s.maps :: f.Page(k) != p
    ensures p !in Library(f).Values
  {
    forall x | x in Library(f).Values ensures x != p {
      var k :| k in Library(f) && Library(f)[k] == x;
    }
  }

  lemma AddedOwn(f: State, u: Key, w: Word, g: State)
    requires Added(f, u, w, g) && !IsLibrary(w) && Visible(g, u) && forall x: Key :: Visible(g, x) == Visible(f, x)
    ensures View(g) == View(f).(own := View(f).own[u := Zeros()])
  {
    hide Visible, Embryo, IsCow, IsLibrary;
    NobodysObject(f, w.ppn);
    assert Own(g) == Own(f)[u := Zeros()] by { hide Library, View; }
    assert Library(g) == Library(f) by { hide Own, View; }
    hide Own, Library;
  }

  lemma AddedLibrary(f: State, u: Key, w: Word, g: State)
    requires Added(f, u, w, g) && IsLibrary(w) && Visible(g, u) && forall x: Key :: Visible(g, x) == Visible(f, x)
    ensures Zeroed(View(f), u, true, w.ppn, View(g))
  {
    hide Visible, IsCow, IsLibrary;
    NobodysObject(f, w.ppn);
    assert Own(g) == Own(f) by { hide Library; }
    assert Library(g) == Library(f)[u := w.ppn] by { hide Own; }
    LibraryGains(Library(f), u, w.ppn);
    SameObjects(f, u, w, g);
  }

  lemma SameObjects(f: State, u: Key, w: Word, g: State)
    requires w.ppn < |f.data| && g.data == f.data[w.ppn := Zeros()]
    requires w.ppn !in Library(f).Values && Library(g).Values == Library(f).Values + {w.ppn}
    ensures View(g).objects == View(f).objects[w.ppn := Zeros()]
  {
    hide Own, Library;
  }

  lemma LibraryGains(m: map<Key, nat>, u: Key, p: nat)
    requires u !in m
    ensures m[u := p].Values == m.Values + {p}
  {
    var n := m[u := p];
    assert n[u] == p;
    forall x | x in m.Values ensures x in n.Values {
      var k :| k in m && m[k] == x;
      assert k in n && n[k] == x;
    }
  }

  lemma AddedIsExclusive(f: State, u: Key, w: Word, g: State)
    requires Exclusive(f) && CowIsReadOnly(f) && Added(f, u, w, g)
    ensures Exclusive(g) && CowIsReadOnly(g)
  {
    hide Exclusive, CowIsReadOnly, IsCow;
    FreshEntryIsExclusive(f, g, u);
  }

  /** The entry that sys_mem_alloc makes. */
  function NewWord(f: State, perm: Perm): Word {
    Word(if f.s.free != [] then f.s.free[0] else 0, EntryFlags(perm))
  }

  /** f without its entry k. */
  function Unmapped(f: State, k: Key): State { f.(s := f.s.(maps := f.s.maps - {k})) }

  lemma AllocFacts(f: State, k: Key, perm: Perm, g: State)
    requires Valid(f) && Step(f, Alloc(k, perm), g)
    ensures f.s.free != [] && Inv(g.s) && |g.data| == |g.s.ref| && g.s.maps == f.s.maps[k := NewWord(f, perm)]
    ensures Removed(f, {k}, Unmapped(f, k)) && Added(Unmapped(f, k), k, NewWord(f, perm), g)
    ensures IsLibrary(NewWord(f, perm)) <==> perm & PTE_LIBRARY != 0
  {
    hide Inv, Exclusive, CowIsReadOnly, HandlersOk, DupsOk, Insert, MayInsert, Embryo;
    var p := f.s.free[0];
    FreshPage(f.s);
    MapsIsFlat(TakeFree(f.s), k, p, perm, g.s);
    SamePermFlags(p, Word(p, perm));
    SameEmbryos(f, Unmapped(f, k));
  }

  lemma AllocKeepsValid(f: State, k: Key, perm: Perm, g: State)
    requires Valid(f) && Step(f, Alloc(k, perm), g)
    ensures Valid(g)
  {
    hide Step, Inv, Exclusive, CowIsReadOnly, DupsOk, HandlersOk, Removed, Added, NewWord, Unmapped;
    AllocFacts(f, k, perm, g);
    var h, w := Unmapped(f, k), NewWord(f, perm);
    RemovedIsExclusive(f, {k}, h);
    RemovedKeepsHandlers(f, {k}, h);
    RemovedKeepsDups(f, {k}, h);
    AddedIsExclusive(h, k, w, g);
    AddedKeepsHandlers(h, k, w, g);
    AddedKeepsDups(h, k, w, g);
  }

  lemma AllocIsEager(f: State, k: Key, perm: Perm, g: State)
    requires Valid(f) && Step(f, Alloc(k, perm), g)
    ensures EagerStep(View(f), f, Alloc(k, perm), View(g))
  {
    hide Valid, Step, View, Zeroed, Without, Copies;
    AllocZeroes(f, k, perm, g);
  }

  lemma AllocZeroes(f: State, k: Key, perm: Perm, g: State)
    requires Valid(f) && Step(f, Alloc(k, perm), g)
    ensures f.s.free != [] && Zeroed(Without(View(f), {k}), k, perm & PTE_LIBRARY != 0, f.s.free[0], View(g))
  {
    hide Valid, Step, View, Zeroed, Without, Removed, Added, EntryFlags, Unmapped, IsLibrary;
    AllocFacts(f, k, perm, g);
    RemovedView(f, {k}, Unmapped(f, k));
    AddedView(Unmapped(f, k), k, NewWord(f, perm), g);
  }

  lemma DropFacts(f: State, k: Key, g: State)
    requires Valid(f) && Step(f, Drop(k), g)
    ensures Inv(g.s) && |g.data| == |g.s.ref| && Removed(f, {k}, g)
  {
    hide Inv, Exclusive, CowIsReadOnly, DupsOk, HandlersOk, Embryo;
    UnmapKeepsInv(f.s, k);
  }

  lemma DropStep(f: State, k: Key, g: State)
    requires Valid(f) && Step(f, Drop(k), g)
    ensures Valid(g) && View(g) == Without(View(f), {k})
  {
    hide Step, Inv, Exclusive, CowIsReadOnly, DupsOk, HandlersOk, View, Without, Removed;
    DropFacts(f, k, g);
    RemovedIsExclusive(f, {k}, g);
    RemovedKeepsHandlers(f, {k}, g);
    RemovedKeepsDups(f, {k}, g);
    RemovedView(f, {k}, g);
  }

  ghost function EntriesOf(s: Spaces, e: nat): set<Key> { set k | k in s.maps && k.0 == e }

  lemma FreedEntries(s: Spaces, e: nat, t: Spaces)
    requires Inv(s) && e in s.dirs && e != BASE && EnvFreed(s, e, t)
    ensures Inv(t) && |t.ref| == |s.ref| && t.maps == s.maps - EntriesOf(s, e)
  {
    hide Inv, RefsFrom, KernelHalf;
    EnvFreedKeepsInv(s, e, t);
    assert t.maps == s.maps - EntriesOf(s, e);
  }

  lemma ExitFacts(f: State, e: nat, g: State)
    requires Valid(f) && Step(f, Exit(e), g)
    ensures Inv(g.s) && |g.data| == |g.s.ref| && Removed(f, EntriesOf(f.s, e), g)
  {
    hide Inv, Exclusive, CowIsReadOnly, DupsOk, Embryo, EnvFreed, HandlerOk;
    FreedEntries(f.s, e, g.s);
    if e in f.cow { HandlerHasPage(f, e); }
  }

  lemma ExitStep(f: State, e: nat, g: State)
    requires Valid(f) && Step(f, Exit(e), g)
    ensures Valid(g) && View(g) == Without(View(f), KeysOf(View(f), e))
  {
    hide Step, Inv, Exclusive, CowIsReadOnly, DupsOk, HandlersOk, View, Without, Removed, KeysOf, EntriesOf;
    ExitFacts(f, e, g);
    var ks := EntriesOf(f.s, e);
    RemovedIsExclusive(f, ks, g);
    RemovedKeepsHandlers(f, ks, g);
    RemovedKeepsDups(f, ks, g);
    RemovedView(f, ks, g);
    SameWithout(f, e);
  }

  lemma SameWithout(f: State, e: nat)
    ensures Without(View(f), EntriesOf(f.s, e)) == Without(View(f), KeysOf(View(f), e))
  {
    hide Visible, IsLibrary;
    var a := View(f);
    assert a.own - EntriesOf(f.s, e) == a.own - KeysOf(a, e);
    assert a.library - EntriesOf(f.s, e) == a.library - KeysOf(a, e);
  }

  lemma CreateFacts(f: State, e: nat, g: State)
    requires Valid(f) && Step(f, Create(e), g)
    ensures Inv(g.s) && |g.data| == |g.s.ref| == |f.data| && g.s.maps == f.s.maps && g.cow == f.cow && g.dup == f.dup
    ensures forall k | k in f.s.maps && f.Page(k) < |f.data| :: g.data[f.Page(k)] == f.data[f.Page(k)]
  {
    hide Typed, CountsExact, FreeListExact, Exclusive, CowIsReadOnly, DupsOk, HandlersOk, RefCount;
    FreshPage(f.s);
    HeadIsFree(f.s);
    AddDirectoryKeepsInv(TakeFree(f.s), e, f.s.free[0]);
  }

  lemma CreateStep(f: State, e: nat, g: State)
    requires Valid(f) && Step(f, Create(e), g)
    ensures Valid(g) && View(g) == View(f)
  {
    hide Step, Inv, Embryo, View, DupOk, HandlerOk;
    CreateFacts(f, e, g);
    SameEmbryos(f, g);
    forall d | d in g.cow ensures HandlerOk(g, d) { CreateKeepsHandler(f, g, d); }
    forall d | d in g.dup ensures DupOk(g, d) { SameDup(f, g, d); }
    UnseenChange(f, g, (e, UCOW));
  }

  lemma CreateKeepsHandler(f: State, g: State, d: nat)
    requires d in f.cow && HandlerOk(f, d) && g.s.maps == f.s.maps && g.cow == f.cow && |g.data| == |f.data|
    requires forall k | k in f.s.maps && f.Page(k) < |f.data| :: g.data[f.Page(k)] == f.data[f.Page(k)]
    ensures HandlerOk(g, d)
  {}

  // ----- the refinement

  lemma StepRefines(f: State, op: Op, g: State)
    requires Valid(f) && Step(f, op, g)
    ensures Valid(g) && EagerStep(View(f), f, op, View(g))
  {
    hide Valid, View;
    match op
    case Write(k, i, v) =>
      WriteKeepsValid(f, k, i, v, g);
      WriteIsEager(f, k, i, v, g);
    case Fault(e, va) => FaultStep(f, e, va, g);
    case Copy(e) => CopyStep(f, e, g);
    case Remap(e) => RemapStep(f, e, g);
    case Finish(e) => FinishStep(f, e, g);
    case DupChild(e, child, vpn) =>
      DupChildKeepsValid(f, e, child, vpn, g);
      DupChildIsEager(f, e, child, vpn, g);
    case DupParent(e) =>
      DupParentKeepsValid(f, e, g);
      DupParentIsEager(f, e, g);
    case Alloc(k, perm) =>
      AllocKeepsValid(f, k, perm, g);
      AllocIsEager(f, k, perm, g);
    case Drop(k) => DropStep(f, k, g);
    case Create(e) => CreateStep(f, e, g);
    case Exit(e) => ExitStep(f, e, g);
  }

  ghost predicate Run(states: seq<State>, ops: seq<Op>) {
    && |states| == |ops| + 1
    && forall i | 0 <= i < |ops| :: Step(states[i], ops[i], states[i + 1])
  }

  /** Copy-on-write fork refines eager-copy fork: what programs see along any run of
      forks, faults, writes, allocation, unmapping, and environments that begin and end
      is a run of the machine that copies at once. */
  lemma {:induction false} ForkRefinesEagerCopy(states: seq<State>, ops: seq<Op>, n: nat)
    requires Run(states, ops) && Valid(states[0]) && n <= |ops|
    ensures Valid(states[n])
    ensures forall i | 0 <= i < n :: EagerStep(View(states[i]), states[i], ops[i], View(states[i + 1]))
  {
    hide Valid, Step, View, EagerStep;
    if n > 0 {
      ForkRefinesEagerCopy(states, ops, n - 1);
      StepRefines(states[n - 1], ops[n - 1], states[n]);
    }
  }

  /** A private page after the write of another entry reads as before. */
  lemma OthersDoNotSeeWrites(f: State, k: Key, i: nat, v: int, g: State, j: Key)
    requires Valid(f) && Step(f, Write(k, i, v), g) && j in Own(f) && j != k
    ensures j in Own(g) && Own(g)[j] == Own(f)[j]
  {
    hide Valid, Step;
    StepRefines(f, Write(k, i, v), g);
    assert View(g).own == Own(g) && View(f).own == Own(f);
  }

  // ----- what fork promises about one page, over whole runs

  /** The step completes duppage of the parent's entry k into the child's entry j. */
  predicate Finishes(f: State, op: Op, k: Key, j: Key) {
    match op
    case DupChild(e, child, vpn) => k == (e, vpn) && j == (child, vpn) && k in f.s.maps && !NeedsCow(f.s.maps[k])
    case DupParent(e) => e in f.dup && j == f.dup[e] && k == (e, j.1)
    case _ => false
  }

  lemma CopyIsMade(f: State, op: Op, g: State, k: Key, j: Key)
    requires Valid(f) && Step(f, op, g) && Finishes(f, op, k, j)
    ensures k in Own(f) ==> j in Own(g) && k in Own(g) && Own(g)[j] == Own(f)[k] == Own(g)[k]
    ensures k !in Own(f) ==> j in Library(g) && k in Library(g) && Library(g)[j] == Library(f)[k] == Library(g)[k]
  {
    hide Valid, Step, Own, Library;
    StepRefines(f, op, g);
    FinishesOthers(f, op, g, k, j);
    assert Copies(View(f), k, j, View(g));
  }

  lemma FinishesOthers(f: State, op: Op, g: State, k: Key, j: Key)
    requires Step(f, op, g) && Finishes(f, op, k, j) && Valid(f)
    ensures j != k
  {
    hide Inv, Maps, Exclusive, HandlersOk, CowIsReadOnly;
  }

  /** The call puts a new page at entry j, or unmaps it, or ends its environment. */
  predicate Replaces(op: Op, j: Key) {
    (op.Alloc? && op.k == j) || (op.Drop? && op.k == j) || (op.Exit? && op.e == j.0)
  }

  predicate Writes(op: Op, j: Key) { op.Write? && op.k == j }

  /** Only a store through an entry itself, or its replacement, changes what a private
      page reads. */
  lemma OwnStays(f: State, op: Op, g: State, j: Key)
    requires Valid(f) && Step(f, op, g) && j in Own(f) && !Writes(op, j) && !Replaces(op, j)
    ensures j in Own(g) && Own(g)[j] == Own(f)[j]
  {
    hide Valid, Step, Own, Library;
    StepRefines(f, op, g);
    NewEntryIsNew(f, op, g, j);
  }

  /** No other step turns a shared page private or puts another page in its place. */
  lemma LibraryStays(f: State, op: Op, g: State, j: Key)
    requires Valid(f) && Step(f, op, g) && j in Library(f) && !Replaces(op, j)
    ensures j in Library(g) && Library(g)[j] == Library(f)[j]
  {
    hide Valid, Step, Own, Library;
    StepRefines(f, op, g);
    NewEntryIsNew(f, op, g, j);
  }

  /** An entry that duppage makes visible was not part of anybody's memory. */
  lemma NewEntryIsNew(f: State, op: Op, g: State, j: Key)
    requires Step(f, op, g) && (j in Own(f) || j in Library(f))
    ensures op.DupChild? ==> (op.child, op.vpn) != j
    ensures op.DupParent? ==> op.e in f.dup && f.dup[op.e] != j
  {
    hide Maps;
  }

  /** The child reads a private page as the parent's page was when duppage of it was
      finished, whatever anybody but the child has written since; and the parent reads
      it so until it writes itself.  Each may also unmap or replace it. */
  lemma {:induction false} ReadsAsAtDup(states: seq<State>, ops: seq<Op>, t: nat, n: nat, k: Key, j: Key, x: Key)
    requires Run(states, ops) && Valid(states[0]) && t < n <= |ops|
    requires Finishes(states[t], ops[t], k, j) && k in Own(states[t]) && (x == j || x == k)
    requires forall i | t < i < n :: !Writes(ops[i], x) && !Replaces(ops[i], x)
    ensures x in Own(states[n]) && Own(states[n])[x] == Own(states[t])[k]
  {
    hide Valid, Step, Own, Library, Finishes, EagerStep;
    ForkRefinesEagerCopy(states, ops, n - 1);
    if n == t + 1 {
      CopyIsMade(states[t], ops[t], states[n], k, j);
    } else {
      ReadsAsAtDup(states, ops, t, n - 1, k, j, x);
      OwnStays(states[n - 1], ops[n - 1], states[n], x);
    }
  }

  /** A library page stays one page of both until one of them unmaps or replaces it. */
  lemma {:induction false} LibraryStaysShared(states: seq<State>, ops: seq<Op>, t: nat, n: nat, k: Key, j: Key)
    requires Run(states, ops) && Valid(states[0]) && t < n <= |ops|
    requires Finishes(states[t], ops[t], k, j) && k !in Own(states[t])
    requires forall i | t < i < n :: !Replaces(ops[i], k) && !Replaces(ops[i], j)
    ensures j in Library(states[n]) && k in Library(states[n]) && Library(states[n])[j] == Library(states[n])[k]
  {
    hide Valid, Step, Own, Library, Finishes, EagerStep;
    ForkRefinesEagerCopy(states, ops, n - 1);
    if n == t + 1 {
      CopyIsMade(states[t], ops[t], states[n], k, j);
    } else {
      LibraryStaysShared(states, ops, t, n - 1, k, j);
      LibraryStays(states[n - 1], ops[n - 1], states[n], j);
      LibraryStays(states[n - 1], ops[n - 1], states[n], k);
    }
  }

  /** A page that is part of a program's memory stays part of it. */
  lemma OwnKeyStays(f: State, op: Op, g: State, j: Key)
    requires Valid(f) && Step(f, op, g) && j in Own(f) && !Replaces(op, j)
    ensures j in Own(g)
  {
    hide Valid, Step, Own, Library;
    StepRefines(f, op, g);
    if !Writes(op, j) { OwnStays(f, op, g, j); }
  }

  lemma {:induction false} OwnKeysStay(states: seq<State>, ops: seq<Op>, t: nat, n: nat, j: Key)
    requires Run(states, ops) && Valid(states[0]) && t <= n <= |ops| && j in Own(states[t])
    requires forall i | t <= i < n :: !Replaces(ops[i], j)
    ensures j in Own(states[n])
  {
    hide Valid, Step, Own, EagerStep;
    if t < n {
      OwnKeysStay(states, ops, t, n - 1, j);
      ForkRefinesEagerCopy(states, ops, n - 1);
      OwnKeyStays(states[n - 1], ops[n - 1], states[n], j);
    }
  }

  /** Visible entries of two environments that map one private page cannot write it. */
  lemma SharedIsReadOnly(f: State, k: Key, j: Key)
    requires Exclusive(f) && k in Own(f) && j in Own(f) && k.0 != j.0 && f.Page(k) == f.Page(j)
    ensures !IsWritable(f.s.maps[k]) && !IsWritable(f.s.maps[j])
  {
    assert Visible(f, k) && Visible(f, j);
  }

  /** In the order of duppage, child first and then parent: over every run, as long as
      the two share the page, neither of them can write it. */
  lemma ChildFirstIsSafe(states: seq<State>, ops: seq<Op>, t: nat, n: nat, k: Key, j: Key)
    requires Run(states, ops) && Valid(states[0]) && t < n <= |ops|
    requires Finishes(states[t], ops[t], k, j) && k in Own(states[t])
    requires forall i | t < i < n :: !Replaces(ops[i], k) && !Replaces(ops[i], j)
    ensures k in states[n].s.maps && j in states[n].s.maps
    ensures states[n].Page(k) == states[n].Page(j) ==>
      !IsWritable(states[n].s.maps[k]) && !IsWritable(states[n].s.maps[j])
  {
    hide Step, Own, Library, EagerStep, Inv, CowIsReadOnly, HandlersOk, DupsOk, Exclusive;
    ForkRefinesEagerCopy(states, ops, t);
    CopyIsMade(states[t], ops[t], states[t + 1], k, j);
    FinishesOthers(states[t], ops[t], states[t + 1], k, j);
    OwnKeysStay(states, ops, t + 1, n, k);
    OwnKeysStay(states, ops, t + 1, n, j);
    ForkRefinesEagerCopy(states, ops, n);
    OwnIsMapped(states[n], k);
    OwnIsMapped(states[n], j);
    FinishesChild(states[t], ops[t], states[t + 1], k, j);
    if states[n].Page(k) == states[n].Page(j) { SharedIsReadOnly(states[n], k, j); }
  }

  lemma OwnIsMapped(f: State, k: Key)
    requires k in Own(f)
    ensures k in f.s.maps
  {}

  lemma FinishesChild(f: State, op: Op, g: State, k: Key, j: Key)
    requires Valid(f) && Step(f, op, g) && Finishes(f, op, k, j)
    ensures k.0 != j.0
  {
    hide Inv, Maps, Exclusive, HandlersOk, CowIsReadOnly;
    if op.DupParent? { assert DupOk(f, op.e); }
  }
}
