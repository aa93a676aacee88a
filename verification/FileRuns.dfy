/** Whole runs of the file server, with the nodes of files in the pages of directory
    blocks (fs/fs.c, fs/serv.c).  The fields of a node in use are in `files`, and go
    back to its page when it is given up. */
module FileRuns {
  import opened FsLayout
  import opened FileBlocks

  // ----- nodes and pages

  /** Nodes in use lie in blocks that are in use and nobody's tables. */
  ghost predicate Homed(s: Server)
    requires Typed(s)
  {
    forall f | f in s.vol.files && f.InDir? :: f.index < FILE2BLK && IsHome(s, f.block)
  }

  ghost predicate IsHome(s: Server, b: nat)
    requires Typed(s)
  {
    && Reserved(s.nblocks) <= b < s.nblocks && !IsFree(s, b)
    && forall g :: Link(s.vol, Table(g)) != b
  }

  ghost predicate Whole(s: Server) { Inv(s) && Homed(s) }

  ghost function NodesOn(s: Server, b: nat): set<FileId> { set f | f in s.vol.files && f.InDir? && f.block == b }

  /** The page of block b with the nodes ns on it. */
  function PageWith(v: Volume, b: nat, ns: set<FileId>): Words
    requires b < |v.words|
  {
    seq(NINDIRECT, k requires 0 <= k < NINDIRECT =>
      var f := InDir(b, k / NODE_WORDS);
      if f in ns && f in v.files then NodeWord(v.files[f], k % NODE_WORDS, v.words[b][k]) else v.words[b][k])
  }

  function Unnamed(s: Server, ns: set<FileId>): Server { s.(vol := s.vol.(files := s.vol.files - ns)) }

  /** The nodes ns are given up; cached pages keep what was in them. */
  function Drop(s: Server, ns: set<FileId>): Server {
    s.(vol := Volume(s.vol.files - ns, seq(|s.vol.words|, b requires 0 <= b < |s.vol.words| =>
      if b in s.cached then PageWith(s.vol, b, ns) else s.vol.words[b])))
  }

  /** The nodes in blocks that have been freed. */
  ghost function Evicted(s: Server): set<FileId>
    requires Typed(s)
  { set f | f in s.vol.files && f.InDir? && f.block < s.nblocks && IsFree(s, f.block) }

  /** The nodes ns of block b are taken into use as its page has them. */
  function WithNodes(s: Server, b: nat, ns: set<FileId>): Server
    requires b < |s.vol.words|
  {
    s.(vol := s.vol.(files := s.vol.files +
      map f | f in ns && f.InDir? && f.index < FILE2BLK :: NodeAt(s.vol.words[b], f.index)))
  }

  /** Any words are stored to the page of block b. */
  function Stored(s: Server, b: nat, w: Words): Server
    requires Typed(s) && b < s.nblocks
  { s.(vol := s.vol.(words := s.vol.words[b := w]), dirty := s.dirty + {b}) }

  function WithFile(s: Server, f: FileId, file: File): Server {
    s.(vol := s.vol.(files := s.vol.files[f := file]))
  }

  function Unhung(s: Server, g: FileId): Server
    requires g in s.vol.files
  { s.(vol := SetTable(s.vol, g, 0)) }

  /** A node that is given up and taken into use again is what it was. */
  lemma DroppedNodeComesBack(s: Server, ns: set<FileId>, f: FileId)
    requires Typed(s) && f in ns && f in s.vol.files && f.InDir? && f.index < FILE2BLK
    requires f.block < s.nblocks && f.block in s.cached
    ensures NodeAt(Drop(s, ns).vol.words[f.block], f.index) == s.vol.files[f]
  {
    var w := PageWith(s.vol, f.block, ns);
    var k := f.index * NODE_WORDS;
    forall i: nat | i < NDIRECT ensures w[k + 34..k + 44][i] == s.vol.files[f].direct[i] {
      WordOnPage(s.vol, f, ns, 34 + i);
    }
    WordOnPage(s.vol, f, ns, 32);
    WordOnPage(s.vol, f, ns, 44);
  }

  lemma WordOnPage(v: Volume, f: FileId, ns: set<FileId>, i: nat)
    requires f in ns && f in v.files && f.InDir? && f.index < FILE2BLK && f.block < |v.words| && i < NODE_WORDS
    ensures var k := f.index * NODE_WORDS + i;
      PageWith(v, f.block, ns)[k] == NodeWord(v.files[f], i, v.words[f.block][k])
  {
    var k := f.index * NODE_WORDS + i;
    assert k / NODE_WORDS == f.index && k % NODE_WORDS == i;
  }

  // ----- what a page must hold for its nodes

  predicate IsNodeOf(b: nat, ns: set<FileId>, f: FileId) {
    f in ns && f.InDir? && f.block == b && f.index < FILE2BLK
  }

  /** The block that place p of a node on the page of b names. */
  function NodeLink(s: Server, b: nat, p: Place): nat
    requires b < |s.vol.words| && p.f.InDir? && p.f.index < FILE2BLK
  { Link(Volume(map[p.f := NodeAt(s.vol.words[b], p.f.index)], s.vol.words), p) }

  /** The nodes ns on the page of b name only blocks that are in use but in nobody's
      hands, each once, through their tables too; and no table is a home of nodes. */
  ghost predicate NodesHarmless(s: Server, b: nat, ns: set<FileId>)
    requires Typed(s) && b < s.nblocks
  {
    && (forall p: Place | IsNodeOf(b, ns, p.f) && NodeLink(s, b, p) != 0 :: Loose(s, NodeLink(s, b, p)))
    && (forall p: Place, q: Place | IsNodeOf(b, ns, p.f) && IsNodeOf(b, ns, q.f) &&
          NodeLink(s, b, p) != 0 && NodeLink(s, b, p) == NodeLink(s, b, q) :: p == q)
    && (forall f | IsNodeOf(b, ns, f) && NodeLink(s, b, Table(f)) != 0 ::
          NodeLink(s, b, Table(f)) != b && NodesOn(s, NodeLink(s, b, Table(f))) == {})
  }

  ghost predicate NewNodes(s: Server, b: nat, ns: set<FileId>)
    requires Typed(s)
  {
    && (ns != {} ==> IsHome(s, b)) && b < s.nblocks
    && forall f | f in ns :: IsNodeOf(b, ns, f) && f !in s.vol.files
  }

  lemma WithNodesLinks(s: Server, b: nat, ns: set<FileId>, p: Place)
    requires Typed(s) && NewNodes(s, b, ns)
    ensures Link(WithNodes(s, b, ns).vol, p) == if IsNodeOf(b, ns, p.f) then NodeLink(s, b, p) else Link(s.vol, p)
    ensures IsNodeOf(b, ns, p.f) ==> Link(s.vol, p) == 0
  {}

  /** Taking nodes into use keeps ownership exclusive exactly when they are harmless. */
  lemma NodesKeepIff(s: Server, b: nat, ns: set<FileId>)
    requires Whole(s) && NewNodes(s, b, ns)
    ensures Whole(WithNodes(s, b, ns)) <==> NodesHarmless(s, b, ns)
  {
    hide Link, NodeLink, IsHome;
    var t := WithNodes(s, b, ns);
    assert Typed(t) && ReservedAreUsed(t) && DiskIsSafe(t) && CacheOk(t) by {
      assert forall c: nat | c < s.nblocks :: IsFree(t, c) == IsFree(s, c) && IsFreeOnDisk(t, c) == IsFreeOnDisk(s, c);
    }
    forall p ensures Link(t.vol, p) == (if IsNodeOf(b, ns, p.f) then NodeLink(s, b, p) else Link(s.vol, p))
                     && (IsNodeOf(b, ns, p.f) ==> Link(s.vol, p) == 0)
    { WithNodesLinks(s, b, ns, p); }
    if NodesHarmless(s, b, ns) { HarmlessNodesKeep(s, b, ns, t); }
    if Whole(t) { KeptNodesAreHarmless(s, b, ns, t); }
  }

  /** The links of t are those of s and of the new nodes. */
  ghost predicate HasNodes(s: Server, b: nat, ns: set<FileId>, t: Server)
    requires Typed(s) && NewNodes(s, b, ns)
  {
    && Typed(t) && t.nblocks == s.nblocks && t.bits == s.bits && t.vol.files.Keys == s.vol.files.Keys + ns
    && (forall p: Place :: Link(t.vol, p) == if IsNodeOf(b, ns, p.f) then NodeLink(s, b, p) else Link(s.vol, p))
    && (forall p: Place | IsNodeOf(b, ns, p.f) :: Link(s.vol, p) == 0)
  }

  lemma HarmlessNodesKeep(s: Server, b: nat, ns: set<FileId>, t: Server)
    requires Whole(s) && NewNodes(s, b, ns) && HasNodes(s, b, ns, t) && NodesHarmless(s, b, ns)
    ensures Exclusive(t.vol) && OwnedAreUsed(t) && Homed(t)
  {
    hide Link, NodeLink;
    forall p | Link(t.vol, p) != 0
      ensures Reserved(t.nblocks) <= Link(t.vol, p) < t.nblocks && !IsFree(t, Link(t.vol, p))
    {}
    forall p, q | Link(t.vol, p) != 0 && Link(t.vol, p) == Link(t.vol, q) ensures p == q {}
    forall f, g | f in t.vol.files && f.InDir? ensures Link(t.vol, Table(g)) != f.block {
      if IsNodeOf(b, ns, g) && f in s.vol.files { assert f in NodesOn(s, f.block); }
      assert Table(g).f == g;
    }
  }

  lemma KeptNodesAreHarmless(s: Server, b: nat, ns: set<FileId>, t: Server)
    requires Whole(s) && NewNodes(s, b, ns) && HasNodes(s, b, ns, t) && Whole(t)
    ensures NodesHarmless(s, b, ns)
  {
    hide Link, NodeLink;
    forall p: Place | IsNodeOf(b, ns, p.f) && NodeLink(s, b, p) != 0 ensures Loose(s, NodeLink(s, b, p)) {
      forall q ensures Link(s.vol, q) != NodeLink(s, b, p) {
        assert Link(t.vol, q) == if IsNodeOf(b, ns, q.f) then NodeLink(s, b, q) else Link(s.vol, q);
        assert Link(t.vol, p) == NodeLink(s, b, p);
      }
    }
    forall f | IsNodeOf(b, ns, f) && NodeLink(s, b, Table(f)) != 0
      ensures NodeLink(s, b, Table(f)) != b && NodesOn(s, NodeLink(s, b, Table(f))) == {}
    {
      assert Link(t.vol, Table(f)) == NodeLink(s, b, Table(f));
    }
  }

  // ----- giving nodes up

  /** Nodes are given up without a change to anybody else's links. */
  lemma DropKeeps(s: Server, ns: set<FileId>)
    requires Inv(s)
    requires forall f, g | f in ns && f in s.vol.files && f.InDir? :: Link(s.vol, Table(g)) != f.block || f.block == 0
    ensures var t := Drop(s, ns);
      && Inv(t) && t.nblocks == s.nblocks && t.bits == s.bits && t.vol.files == s.vol.files - ns
      && forall p :: Link(t.vol, p) == if p.f in ns then 0 else Link(s.vol, p)
  {
    var t := Drop(s, ns);
    hide Exclusive, OwnedAreUsed, ReservedAreUsed, DiskIsSafe, PageWith;
    forall p ensures Link(t.vol, p) == if p.f in ns then 0 else Link(s.vol, p) {
      if p.f in s.vol.files && p.f !in ns {
        var b := s.vol.files[p.f].indirect;
        assert b == Link(s.vol, Table(p.f));
        if 0 < b < s.nblocks { SamePage(s.vol, b, ns); }
      }
    }
    FewerLinks(s, t);
    assert forall c: nat | c < s.nblocks :: IsFree(t, c) == IsFree(s, c) && IsFreeOnDisk(t, c) == IsFreeOnDisk(s, c);
    assert ReservedAreUsed(t) && DiskIsSafe(t) by { SameBits(s, t); }
  }

  lemma SameBits(s: Server, t: Server)
    requires Typed(s) && Typed(t) && t.nblocks == s.nblocks && t.bits == s.bits && t.diskBits == s.diskBits
    requires ReservedAreUsed(s) && DiskIsSafe(s)
    ensures ReservedAreUsed(t) && DiskIsSafe(t)
  {
    assert forall c: nat | c < s.nblocks :: IsFree(t, c) == IsFree(s, c) && IsFreeOnDisk(t, c) == IsFreeOnDisk(s, c);
  }

  lemma SamePage(v: Volume, b: nat, ns: set<FileId>)
    requires b < |v.words| && forall f | f in ns && f in v.files && f.InDir? :: f.block != b
    ensures PageWith(v, b, ns) == v.words[b]
  {}

  // ----- every run of the server

  /** Create takes a node of a directory's block into use, by file_create or because a
      lookup finds a name on its page.  Store is any write to a cached page by the server
      or by clients, who keep the pages they were given, whatever the block has become.
      WriteBack is the writing of one cached block to disk. */
  datatype Op =
    | Grow(f: FileId, i: nat, alloc: bool)
    | Shrink(f: FileId, newsize: nat)
    | Remove(f: FileId)
    | Extend(f: FileId, newsize: nat)
    | Create(f: FileId)
    | Load(b: nat)
    | Store(b: nat, w: Words)
    | WriteBack(b: nat)

  /** The server has f at hand: its node is in use and in the cache. */
  predicate Reached(s: Server, f: FileId) { f in s.vol.files && (f.InDir? ==> f.block in s.cached) }

  /** The block is in a slot of some file, the directory. */
  ghost predicate InSlot(s: Server, b: nat) { exists p: Place :: p.Data? && Link(s.vol, p) == b }

  /** Blocks are on the disk and used, as read_block insists. */
  ghost predicate MayDo(s: Server, op: Op)
    requires Whole(s)
  {
    match op
    case Grow(f, _, _) => Reached(s, f)
    case Shrink(f, _) => Reached(s, f)
    case Remove(f) => Reached(s, f) && f.InDir?
    case Extend(f, _) => Reached(s, f)
    case Create(f) =>
      f.InDir? && f.index < FILE2BLK && f.block != 0 && f !in s.vol.files && f.block in s.cached && InSlot(s, f.block)
    case Load(b) => b < s.nblocks && !IsFree(s, b)
    case Store(b, _) => Reserved(s.nblocks) <= b < s.nblocks && b in s.cached
    case WriteBack(b) => b < s.nblocks && b in s.cached
  }

  /** file_truncate; nodes in blocks that it frees are given up. */
  ghost function Shrunk(s: Server, f: FileId, newsize: nat): Server
    requires Inv(s) && f in s.vol.files
  {
    TruncateConserves(s, f, newsize);
    var t := Truncate(s, f, newsize).1;
    Drop(t, Evicted(t))
  }

  ghost function Do(s: Server, op: Op): Server
    requires Whole(s) && MayDo(s, op)
  {
    match op
    case Grow(f, i, alloc) => FileMap(s, f, i, alloc).2
    case Shrink(f, newsize) => Shrunk(s, f, newsize)
    case Remove(f) => Drop(Shrunk(s, f, 0), {f})
    case Extend(f, newsize) => WithFile(s, f, s.vol.files[f].(size := newsize))
    case Create(f) => SlotIsHome(s, f.block); WithNodes(s, f.block, {f})
    case Load(b) => ReadBlock(s, b).1
    case Store(b, w) => WithNodes(Stored(s, b, w), b, NodesOn(s, b))
    case WriteBack(b) => WriteBlock(s, b)
  }

  lemma SlotIsHome(s: Server, b: nat)
    requires Inv(s) && b != 0 && InSlot(s, b)
    ensures IsHome(s, b)
  {
    var p: Place :| p.Data? && Link(s.vol, p) == b;
    assert forall g :: Table(g) != p;
  }

  /** What breaks ownership: a new table whose page is not harmless, a node taken into
      use whose links are not, and a store that puts such words into a table or over
      nodes in use. */
  ghost predicate Spoils(s: Server, op: Op) {
    && Whole(s)
    && match op
       case Grow(f, i, alloc) => f in s.vol.files && NeedsTable(s, f, i, alloc) && !NextIsHarmless(s)
       case Create(f) => f.InDir? && f.block < s.nblocks && !NodesHarmless(s, f.block, {f})
       case Store(b, w) => b < s.nblocks && (SpoilsTable(s, b, w) || SpoilsNodes(s, b, w))
       case _ => false
  }

  /** Block b is somebody's table, and w is not harmless as its entries. */
  ghost predicate SpoilsTable(s: Server, b: nat, w: Words)
    requires Typed(s) && b < s.nblocks
  {
    exists g :: g in s.vol.files && Link(s.vol, Table(g)) == b && !Harmless(Stored(Unhung(s, g), b, w), b)
  }

  /** The nodes in use on the page of b would not be harmless as w has them. */
  ghost predicate SpoilsNodes(s: Server, b: nat, w: Words)
    requires Typed(s) && b < s.nblocks
  { !NodesHarmless(Stored(Unnamed(s, NodesOn(s, b)), b, w), b, NodesOn(s, b)) }

  // ----- operation by operation

  lemma {:induction false} ClearFromOnlyClears(s: Server, f: FileId, lo: nat, hi: nat)
    requires Inv(s) && f in s.vol.files
    ensures var t := ClearFrom(s, f, lo, hi).1;
      && Inv(t) && t.nblocks == s.nblocks && t.vol.files.Keys == s.vol.files.Keys
      && forall p :: Link(t.vol, p) == 0 || Link(t.vol, p) == Link(s.vol, p)
    decreases hi - lo
  {
    hide Link, Clear, Inv;
    if lo < hi {
      ClearKeepsInv(s, f, lo);
      ClearKeepsKeys(s, f, lo);
      var c := Clear(s, f, lo);
      if c.0 >= 0 {
        ClearFromOnlyClears(c.1, f, lo + 1, hi);
      }
    }
  }

  lemma ClearKeepsKeys(s: Server, f: FileId, i: nat)
    requires Inv(s) && f in s.vol.files
    ensures Clear(s, f, i).1.vol.files.Keys == s.vol.files.Keys
  {
    hide Exclusive, OwnedAreUsed, ReservedAreUsed, DiskIsSafe, CacheOk, Link, Walk;
    WalkReads(s, f, i);
  }

  lemma TruncateOnlyClears(s: Server, f: FileId, newsize: nat)
    requires Inv(s) && f in s.vol.files
    ensures var t := Truncate(s, f, newsize).1;
      && Inv(t) && t.nblocks == s.nblocks && t.vol.files.Keys == s.vol.files.Keys
      && forall p :: Link(t.vol, p) == 0 || Link(t.vol, p) == Link(s.vol, p)
  {
    hide Link, ClearFrom, Inv;
    TruncateConserves(s, f, newsize);
    ClearFromOnlyClears(s, f, FirstCut(newsize), EndCut(s, f));
  }

  /** A state with no new tables and no new nodes, after the nodes in freed blocks are
      given up. */
  lemma EvictedKeeps(s: Server, t: Server)
    requires Whole(s) && Inv(t) && t.nblocks == s.nblocks && t.vol.files.Keys <= s.vol.files.Keys
    requires forall p :: Link(t.vol, p) == 0 || Link(t.vol, p) == Link(s.vol, p)
    ensures Whole(Drop(t, Evicted(t)))
  {
    hide Link, Exclusive, ReservedAreUsed, DiskIsSafe, CacheOk, PageWith, Drop;
    forall f, g | f in Evicted(t) ensures Link(t.vol, Table(g)) != f.block || f.block == 0 {
      assert Link(t.vol, Table(g)) != 0 ==> !IsFree(t, Link(t.vol, Table(g)));
    }
    DropKeeps(t, Evicted(t));
    var u := Drop(t, Evicted(t));
    forall f | f in u.vol.files && f.InDir? ensures f.index < FILE2BLK && IsHome(u, f.block) {
      assert f in s.vol.files && IsHome(s, f.block);
      assert f !in Evicted(t);
      forall g ensures Link(u.vol, Table(g)) != f.block {
        assert Link(t.vol, Table(g)) == 0 || Link(t.vol, Table(g)) == Link(s.vol, Table(g));
      }
    }
  }

  lemma ShrinkKeepsWhole(s: Server, f: FileId, newsize: nat)
    requires Whole(s) && f in s.vol.files
    ensures Whole(Shrunk(s, f, newsize))
  {
    hide Exclusive, OwnedAreUsed, ReservedAreUsed, DiskIsSafe, CacheOk, Homed, Truncate, Drop, Link;
    TruncateOnlyClears(s, f, newsize);
    EvictedKeeps(s, Truncate(s, f, newsize).1);
  }

  lemma RemoveKeepsWhole(s: Server, f: FileId)
    requires Whole(s) && f in s.vol.files
    ensures Whole(Drop(Shrunk(s, f, 0), {f}))
  {
    hide Exclusive, OwnedAreUsed, ReservedAreUsed, DiskIsSafe, CacheOk, Shrunk, Drop, Link;
    ShrinkKeepsWhole(s, f, 0);
    var t := Shrunk(s, f, 0);
    DropKeeps(t, {f});
    var u := Drop(t, {f});
    forall h | h in u.vol.files && h.InDir? ensures h.index < FILE2BLK && IsHome(u, h.block) {
      SameHome(t, u, h.block);
    }
  }

  /** Homes stay homes when only links go and bits are as before. */
  lemma SameHome(s: Server, t: Server, b: nat)
    requires Typed(s) && Typed(t) && IsHome(s, b) && t.nblocks == s.nblocks && t.bits == s.bits
    requires forall p :: Link(t.vol, p) == 0 || Link(t.vol, p) == Link(s.vol, p)
    ensures IsHome(t, b)
  {
    hide Link;
    forall g ensures Link(t.vol, Table(g)) != b {
      assert Link(t.vol, Table(g)) == 0 || Link(t.vol, Table(g)) == Link(s.vol, Table(g));
    }
  }

  lemma GrowKeepsKeys(s: Server, f: FileId, i: nat, alloc: bool)
    requires Inv(s) && f in s.vol.files
    ensures FileMap(s, f, i, alloc).2.vol.files.Keys == s.vol.files.Keys
  {
    hide Exclusive, OwnedAreUsed, ReservedAreUsed, DiskIsSafe, CacheOk, Link, AllocBlock;
    AllocShape(s);
    WalkIsTyped(s, f, i, alloc);
    var w := Walk(s, f, i, alloc).1;
    AllocShape(w);
  }

  lemma GrowKeepsHomes(s: Server, f: FileId, i: nat, alloc: bool, t: Server)
    requires Whole(s) && f in s.vol.files && (NeedsTable(s, f, i, alloc) ==> NextIsHarmless(s))
    requires Inv(t) && t == FileMap(s, f, i, alloc).2
    ensures Homed(t)
  {
    hide Exclusive, OwnedAreUsed, ReservedAreUsed, DiskIsSafe, CacheOk, Link, FileMap, NextIsHarmless, NextWord, NewDataOf, IsLeast;
    GrowthKeepsOwnership(s, f, i, alloc);
    GrowKeepsKeys(s, f, i, alloc);
    forall h | h in t.vol.files && h.InDir? ensures h.index < FILE2BLK && IsHome(t, h.block) {
      assert IsHome(s, h.block) && h.block !in FreeSet(s);
      assert h.block !in FreeSet(t);
      forall g ensures Link(t.vol, Table(g)) != h.block {
        if g == f {
          assert h.block !in NewTableOf(s, t, f);
        } else {
          assert Link(t.vol, Table(g)) == LinkAfterWalk(s, t, f, Table(g));
        }
      }
    }
  }

  lemma GrowKeepsIff(s: Server, f: FileId, i: nat, alloc: bool)
    requires Whole(s) && f in s.vol.files
    ensures Whole(FileMap(s, f, i, alloc).2) <==> (NeedsTable(s, f, i, alloc) ==> NextIsHarmless(s))
  {
    hide Exclusive, OwnedAreUsed, ReservedAreUsed, DiskIsSafe, CacheOk, Homed, FileMap, NextIsHarmless, NeedsTable;
    GrowthKeepsInvIff(s, f, i, alloc);
    if NeedsTable(s, f, i, alloc) ==> NextIsHarmless(s) { GrowKeepsHomes(s, f, i, alloc, FileMap(s, f, i, alloc).2); }
  }

  lemma CreateKeepsIff(s: Server, f: FileId)
    requires Whole(s) && MayDo(s, Create(f))
    ensures f.block < s.nblocks && (Whole(WithNodes(s, f.block, {f})) <==> NodesHarmless(s, f.block, {f}))
  {
    hide Exclusive, OwnedAreUsed, ReservedAreUsed, DiskIsSafe, CacheOk, Homed, NodesHarmless, IsHome, WithNodes;
    SlotIsHome(s, f.block);
    HomeIsBlock(s, f.block);
    NodesKeepIff(s, f.block, {f});
  }

  lemma HomeIsBlock(s: Server, b: nat)
    requires Typed(s) && IsHome(s, b)
    ensures Reserved(s.nblocks) <= b < s.nblocks
  {}

  /** A store to a page that is not a table. */
  lemma StoreElsewhere(s: Server, b: nat, w: Words)
    requires Whole(s) && Reserved(s.nblocks) <= b < s.nblocks && b in s.cached
    requires forall g :: Link(s.vol, Table(g)) != b
    ensures Whole(Stored(s, b, w)) && forall p :: Link(Stored(s, b, w).vol, p) == Link(s.vol, p)
  {
    hide Exclusive, OwnedAreUsed, ReservedAreUsed, DiskIsSafe, Link;
    var t := Stored(s, b, w);
    SameLinks(s.vol, t.vol, b);
    SameOwners(s, t);
    SameBits(s, t);
    forall h | h in t.vol.files && h.InDir? ensures h.index < FILE2BLK && IsHome(t, h.block) { SameHome(s, t, h.block); }
  }

  lemma StoreNodesIff(s: Server, b: nat, w: Words)
    requires Whole(s) && Reserved(s.nblocks) <= b < s.nblocks && b in s.cached
    requires forall g :: Link(s.vol, Table(g)) != b
    ensures Whole(WithNodes(Stored(s, b, w), b, NodesOn(s, b))) <==> !SpoilsNodes(s, b, w)
  {
    hide Exclusive, OwnedAreUsed, ReservedAreUsed, DiskIsSafe, CacheOk, Homed, Link, NodesHarmless, IsHome;
    var ns := NodesOn(s, b);
    UnnamedKeeps(s, ns);
    var u := Unnamed(s, ns);
    StoreElsewhere(u, b, w);
    StoredNodesAreNew(s, b, w);
    NodesKeepIff(Stored(u, b, w), b, ns);
    assert WithNodes(Stored(u, b, w), b, ns) == WithNodes(Stored(s, b, w), b, ns);
  }

  lemma UnnamedKeeps(s: Server, ns: set<FileId>)
    requires Whole(s)
    ensures Whole(Unnamed(s, ns)) && forall p :: Link(Unnamed(s, ns).vol, p) == if p.f in ns then 0 else Link(s.vol, p)
  {
    hide Exclusive, OwnedAreUsed, ReservedAreUsed, DiskIsSafe;
    var t := Unnamed(s, ns);
    FewerLinks(s, t);
    SameBits(s, t);
    hide Link;
    forall h | h in t.vol.files && h.InDir? ensures h.index < FILE2BLK && IsHome(t, h.block) { SameHome(s, t, h.block); }
  }

  lemma StoredNodesAreNew(s: Server, b: nat, w: Words)
    requires Whole(s) && Reserved(s.nblocks) <= b < s.nblocks && Typed(Stored(Unnamed(s, NodesOn(s, b)), b, w))
    requires forall g :: Link(s.vol, Table(g)) != b
    requires forall p :: Link(Stored(Unnamed(s, NodesOn(s, b)), b, w).vol, p) == if p.f in NodesOn(s, b) then 0 else Link(s.vol, p)
    ensures NewNodes(Stored(Unnamed(s, NodesOn(s, b)), b, w), b, NodesOn(s, b))
  {
    hide Exclusive, OwnedAreUsed, ReservedAreUsed, DiskIsSafe, CacheOk, Link;
    var ns, t := NodesOn(s, b), Stored(Unnamed(s, NodesOn(s, b)), b, w);
    if ns != {} {
      var f :| f in ns;
      assert IsHome(s, b);
      SameHome(s, t, b);
    }
  }

  /** Stores to a table: what is written is judged as a new table's page is. */
  lemma StoreTableIff(s: Server, b: nat, w: Words, g: FileId)
    requires Whole(s) && Reserved(s.nblocks) <= b < s.nblocks && b in s.cached
    requires g in s.vol.files && Link(s.vol, Table(g)) == b
    ensures Whole(Stored(s, b, w)) <==> Harmless(Stored(Unhung(s, g), b, w), b)
  {
    hide Exclusive, OwnedAreUsed, ReservedAreUsed, DiskIsSafe, CacheOk, Homed, Link, Harmless, IsHome;
    UnhungKeeps(s, g);
    var u := Unhung(s, g);
    StoreElsewhere(u, b, w);
    var x := Stored(u, b, w);
    StillLoose(u, x, b);
    TableHangs(s, b, w, g);
    TableKeepsInvIff(x, g, b);
    if Inv(Stored(s, b, w)) { TableStoreKeepsHomes(s, b, w); }
  }

  lemma TableHangs(s: Server, b: nat, w: Words, g: FileId)
    requires Typed(s) && b < s.nblocks && g in s.vol.files && Link(s.vol, Table(g)) == b
    ensures var x := Stored(Unhung(s, g), b, w);
      x.vol.files[g].indirect == 0 && x.(vol := SetTable(x.vol, g, b)) == Stored(s, b, w)
  {
    var x := Stored(Unhung(s, g), b, w);
    assert SetTable(x.vol, g, b).files == s.vol.files;
  }

  lemma UnhungKeeps(s: Server, g: FileId)
    requires Whole(s) && g in s.vol.files && Link(s.vol, Table(g)) != 0
    ensures Whole(Unhung(s, g)) && Loose(Unhung(s, g), Link(s.vol, Table(g)))
    ensures forall h :: Link(Unhung(s, g).vol, Table(h)) != Link(s.vol, Table(g))
  {
    hide Exclusive, OwnedAreUsed, ReservedAreUsed, DiskIsSafe, Link;
    var t := Unhung(s, g);
    forall p ensures Link(t.vol, p) == 0 || (Link(t.vol, p) == Link(s.vol, p) && p != Table(g)) { SetTableLinks(s.vol, g, 0, p); }
    FewerLinks(s, t);
    SameBits(s, t);
    forall h | h in t.vol.files && h.InDir? ensures h.index < FILE2BLK && IsHome(t, h.block) { SameHome(s, t, h.block); }
    NobodyElse(s, t, Table(g));
  }

  /** Once place p is empty nobody names its block. */
  lemma NobodyElse(s: Server, t: Server, p: Place)
    requires Inv(s) && Typed(t) && t.nblocks == s.nblocks && t.bits == s.bits && Link(s.vol, p) != 0
    requires forall q :: Link(t.vol, q) == 0 || (Link(t.vol, q) == Link(s.vol, q) && q != p)
    ensures Loose(t, Link(s.vol, p))
  {
    hide Link;
    forall q ensures Link(t.vol, q) != Link(s.vol, p) {}
  }

  lemma StillLoose(s: Server, t: Server, b: nat)
    requires Typed(s) && Typed(t) && t.nblocks == s.nblocks && t.bits == s.bits && Loose(s, b)
    requires forall p :: Link(t.vol, p) == Link(s.vol, p)
    ensures Loose(t, b)
  {
    hide Link;
  }

  lemma TableStoreKeepsHomes(s: Server, b: nat, w: Words)
    requires Whole(s) && b < s.nblocks && Typed(Stored(s, b, w))
    ensures Homed(Stored(s, b, w))
  {
    hide Exclusive, OwnedAreUsed, ReservedAreUsed, DiskIsSafe, CacheOk;
    var t := Stored(s, b, w);
    forall g ensures Link(t.vol, Table(g)) == Link(s.vol, Table(g)) {}
    hide Link;
    forall h | h in t.vol.files && h.InDir? ensures h.index < FILE2BLK && IsHome(t, h.block) {
      assert IsHome(s, h.block);
    }
  }

  lemma NoNodesOnTables(s: Server, b: nat, g: FileId)
    requires Whole(s) && Link(s.vol, Table(g)) == b != 0
    ensures NodesOn(s, b) == {}
  {
    hide Exclusive, OwnedAreUsed, ReservedAreUsed, DiskIsSafe, CacheOk, Link;
    forall f | f in s.vol.files && f.InDir? ensures f.block != b { assert IsHome(s, f.block); }
  }

  lemma OnlyTable(s: Server, b: nat, g: FileId)
    requires Inv(s) && Link(s.vol, Table(g)) == b != 0
    ensures forall h | Link(s.vol, Table(h)) == b :: h == g
  {
    hide Link;
    forall h | Link(s.vol, Table(h)) == b ensures h == g { assert Table(h) == Table(g); }
  }

  lemma TablesAreNamed(s: Server, b: nat)
    requires b != 0 && forall g | g in s.vol.files :: Link(s.vol, Table(g)) != b
    ensures forall g :: Link(s.vol, Table(g)) != b
  {}

  lemma NothingIsHarmless(s: Server, b: nat)
    requires Typed(s) && b < s.nblocks
    ensures NodesHarmless(s, b, {})
  {}

  lemma StoreKeepsIff(s: Server, b: nat, w: Words)
    requires Whole(s) && MayDo(s, Store(b, w))
    ensures Whole(Do(s, Store(b, w))) <==> !SpoilsTable(s, b, w) && !SpoilsNodes(s, b, w)
  {
    hide Exclusive, OwnedAreUsed, ReservedAreUsed, DiskIsSafe, CacheOk, Homed, Link, Harmless, NodesHarmless, IsHome;
    if g :| g in s.vol.files && Link(s.vol, Table(g)) == b {
      StoreTableIff(s, b, w, g);
      NoNodesOnTables(s, b, g);
      OnlyTable(s, b, g);
      assert WithNodes(Stored(s, b, w), b, {}) == Stored(s, b, w);
      NothingIsHarmless(Stored(Unnamed(s, {}), b, w), b);
    } else {
      TablesAreNamed(s, b);
      StoreNodesIff(s, b, w);
    }
  }

  lemma DoKeepsIff(s: Server, op: Op)
    requires Whole(s) && MayDo(s, op)
    ensures Whole(Do(s, op)) <==> !Spoils(s, op)
  {
    hide Exclusive, OwnedAreUsed, ReservedAreUsed, DiskIsSafe, CacheOk, Homed, Link, FileMap, Shrunk, Drop, NextIsHarmless, NeedsTable, WriteBlock, ReadBlock, NodesHarmless, SpoilsTable, SpoilsNodes;
    match op
    case Grow(f, i, alloc) => GrowKeepsIff(s, f, i, alloc);
    case Shrink(f, newsize) => ShrinkKeepsWhole(s, f, newsize);
    case Remove(f) => RemoveKeepsWhole(s, f);
    case Extend(f, newsize) => ExtendKeepsWhole(s, f, newsize);
    case Create(f) => CreateKeepsIff(s, f);
    case Load(b) => LoadKeepsWhole(s, b);
    case Store(b, w) => StoreKeepsIff(s, b, w);
    case WriteBack(b) => WriteBackKeepsWhole(s, b);
  }

  lemma ExtendKeepsWhole(s: Server, f: FileId, n: nat)
    requires Whole(s) && f in s.vol.files
    ensures Whole(WithFile(s, f, s.vol.files[f].(size := n)))
  {
    hide Exclusive, OwnedAreUsed, ReservedAreUsed, DiskIsSafe, CacheOk, Link;
    ResizeKeepsInv(s, f, n);
    var t := WithFile(s, f, s.vol.files[f].(size := n));
    forall h | h in t.vol.files && h.InDir? ensures h.index < FILE2BLK && IsHome(t, h.block) { SameHome(s, t, h.block); }
  }

  lemma LoadKeepsWhole(s: Server, b: nat)
    requires Whole(s) && b < s.nblocks && !IsFree(s, b)
    ensures Whole(ReadBlock(s, b).1)
  {
    hide Exclusive, OwnedAreUsed, ReservedAreUsed, DiskIsSafe, CacheOk, Link;
    ReadKeepsInv(s, b);
    var t := ReadBlock(s, b).1;
    forall h | h in t.vol.files && h.InDir? ensures h.index < FILE2BLK && IsHome(t, h.block) { SameHome(s, t, h.block); }
  }

  lemma WriteBackKeepsWhole(s: Server, b: nat)
    requires Whole(s) && b < s.nblocks && b in s.cached
    ensures Whole(WriteBlock(s, b))
  {
    hide Exclusive, OwnedAreUsed, ReservedAreUsed, DiskIsSafe, CacheOk, Link, WriteBlock;
    WriteKeepsInv(s, b);
    var t := WriteBlock(s, b);
    forall h | h in t.vol.files && h.InDir? ensures h.index < FILE2BLK && IsHome(t, h.block) { SameHome(s, t, h.block); }
  }

  // ----- what each operation does

  /** Truncation frees exactly the blocks past the new size and the table that is not
      needed any more; other links stay, but for files whose nodes were in such a block. */
  lemma ShrinkGivesBack(s: Server, f: FileId, newsize: nat)
    requires Whole(s) && MayDo(s, Shrink(f, newsize)) && Truncate(s, f, newsize).0
    ensures var t := Do(s, Shrink(f, newsize));
      var lo, hi := FirstCut(newsize), EndCut(s, f);
      && Typed(t) && t.nblocks == s.nblocks
      && FreeSet(t) == FreeSet(s) + Owned(s.vol, f, lo, hi) + (if lo <= NDIRECT then OwnedTable(s.vol, f) else {})
      && (forall g | g in s.vol.files :: g in t.vol.files <==> !(g.InDir? && g.block in FreeSet(t)))
      && (f in t.vol.files ==> t.vol.files[f].size == newsize)
      && (forall p: Place | p.f in t.vol.files && !Cut(s, f, newsize, p) :: Link(t.vol, p) == Link(s.vol, p))
  {
    hide Exclusive, OwnedAreUsed, ReservedAreUsed, DiskIsSafe, CacheOk, Truncate, Link, PageWith, Owned, Cut;
    TruncateConserves(s, f, newsize);
    TruncateOnlyClears(s, f, newsize);
    var t := Truncate(s, f, newsize).1;
    EvictedHaveNoTables(t);
    DropKeeps(t, Evicted(t));
    assert FreeSet(Drop(t, Evicted(t))) == FreeSet(t);
    forall g | g in s.vol.files ensures g in Evicted(t) <==> g.InDir? && g.block in FreeSet(t) {}
  }

  lemma EvictedHaveNoTables(t: Server)
    requires Inv(t)
    ensures forall f, g | f in Evicted(t) :: Link(t.vol, Table(g)) != f.block || f.block == 0
  {
    hide Link;
    forall f, g | f in Evicted(t) ensures Link(t.vol, Table(g)) != f.block || f.block == 0 {
      assert Link(t.vol, Table(g)) != 0 ==> !IsFree(t, Link(t.vol, Table(g)));
    }
  }

  /** A removed file is gone, and all blocks up to its size and its table are free. */
  lemma RemoveGivesBack(s: Server, f: FileId)
    requires Whole(s) && MayDo(s, Remove(f)) && Truncate(s, f, 0).0
    ensures var t := Do(s, Remove(f));
      && f !in t.vol.files && Typed(t) && t.nblocks == s.nblocks
      && FreeSet(t) == FreeSet(s) + Owned(s.vol, f, 0, BlocksOf(s.vol.files[f].size)) + OwnedTable(s.vol, f)
      && (forall p: Place | p.f in t.vol.files :: Link(t.vol, p) == Link(s.vol, p))
  {
    hide Exclusive, OwnedAreUsed, ReservedAreUsed, DiskIsSafe, CacheOk, Truncate, Link, PageWith, Owned, Shrunk, Drop;
    ShrinkGivesBack(s, f, 0);
    ShrinkKeepsWhole(s, f, 0);
    var t := Shrunk(s, f, 0);
    DropKeeps(t, {f});
    assert FreeSet(Drop(t, {f})) == FreeSet(t);
    forall p: Place | p.f in t.vol.files && p.f != f ensures !Cut(s, f, 0, p) {}
  }

  /** A size is set; a node is taken as its page has it. */
  lemma NodesAreSet(s: Server, f: FileId, n: nat)
    requires Whole(s)
    ensures MayDo(s, Extend(f, n)) ==>
      var t := Do(s, Extend(f, n)); f in t.vol.files && t.vol.files[f].size == n && forall p :: Link(t.vol, p) == Link(s.vol, p)
    ensures MayDo(s, Create(f)) ==>
      && f.InDir? && f.block < s.nblocks && f.index < FILE2BLK
      && f in Do(s, Create(f)).vol.files && Do(s, Create(f)).vol.files[f] == NodeAt(s.vol.words[f.block], f.index)
  {
    hide Exclusive, OwnedAreUsed, ReservedAreUsed, DiskIsSafe, CacheOk, Link;
    if MayDo(s, Extend(f, n)) { ResizeKeepsInv(s, f, n); }
    if MayDo(s, Create(f)) { SlotIsHome(s, f.block); }
  }

  /** A page gets the words, or is read, and the disk gets the page. */
  lemma PagesAreMoved(s: Server, b: nat, w: Words)
    requires Whole(s)
    ensures MayDo(s, Store(b, w)) ==>
      var t := Do(s, Store(b, w)); b < |t.vol.words| && t.vol.words[b] == w && b in t.dirty && t.vol.files.Keys == s.vol.files.Keys
    ensures MayDo(s, Load(b)) && (b in s.cached || (s.mem != [] && s.mem[0])) ==>
      var t := Do(s, Load(b)); b in t.cached && t.vol == s.vol
    ensures MayDo(s, WriteBack(b)) && !(2 <= b < Reserved(s.nblocks)) ==>
      var t := Do(s, WriteBack(b)); b < |t.disk| && b < |s.vol.words| && t.disk[b] == s.vol.words[b] && t.vol == s.vol
  {
    hide Exclusive, OwnedAreUsed, ReservedAreUsed, DiskIsSafe, CacheOk, Link;
    if MayDo(s, Load(b)) { ReadKeepsInv(s, b); }
  }

  // ----- runs

  /** Nothing is said about what follows a state in which ownership is lost. */
  ghost predicate Run(states: seq<Server>, ops: seq<Op>) {
    && |states| == |ops| + 1
    && forall k | 0 <= k < |ops| :: Whole(states[k]) ==> MayDo(states[k], ops[k]) && states[k + 1] == Do(states[k], ops[k])
  }

  ghost predicate HarmlessSoFar(states: seq<Server>, ops: seq<Op>, n: nat)
    requires n <= |ops| < |states|
  {
    forall k | 0 <= k < n :: !Spoils(states[k], ops[k])
  }

  /** Along every run the invariant holds exactly as long as what becomes links, in new
      tables, in nodes taken into use, and by stores, is harmless. */
  lemma {:induction false} OwnedIff(states: seq<Server>, ops: seq<Op>, n: nat)
    requires Run(states, ops) && Whole(states[0]) && n <= |ops|
    ensures (forall k | 0 <= k <= n :: Whole(states[k])) <==> HarmlessSoFar(states, ops, n)
  {
    hide Whole, MayDo, Do, Spoils;
    if n > 0 {
      OwnedIff(states, ops, n - 1);
      var s, op := states[n - 1], ops[n - 1];
      if Whole(s) {
        DoKeepsIff(s, op);
        assert states[n - 1 + 1] == Do(s, op);
      }
    }
  }

  /** So long no block is in two places, what is owned is used, in memory and on disk,
      and no table is in a block with nodes in use. */
  lemma EveryRunOwns(states: seq<Server>, ops: seq<Op>, n: nat, p: Place, q: Place)
    requires Run(states, ops) && Whole(states[0]) && n <= |ops| && HarmlessSoFar(states, ops, n)
    ensures var t := states[n]; var b := Link(t.vol, p);
      b != 0 ==>
        && (Link(t.vol, q) == b ==> p == q)
        && Typed(t) && Reserved(t.nblocks) <= b < t.nblocks && !IsFree(t, b) && !IsFreeOnDisk(t, b)
        && (p.Table? ==> NodesOn(t, b) == {})
  {
    hide Link, HarmlessSoFar, MayDo, Do;
    OwnedIff(states, ops, n);
    var t := states[n];
    if Link(t.vol, p) != 0 {
      assert !IsFree(t, Link(t.vol, p));
      if p.Table? { NoNodesOnTables(t, Link(t.vol, p), p.f); }
    }
  }

  // ----- a run in which a node is not harmless

  lemma DropNothing(s: Server)
    ensures Drop(s, {}) == s
  {
    assert s.vol.files - {} == s.vol.files;
    forall b: nat | b < |s.vol.words| ensures PageWith(s.vol, b, {}) == s.vol.words[b] { SamePage(s.vol, b, {}); }
    assert Drop(s, {}).vol.words == s.vol.words;
  }

  /** File a has one block, which is in the cache and the least one that could be free;
      directory d has none. */
  ghost predicate StaleNodeStart(s: Server, a: FileId, d: FileId) {
    && Whole(s) && Reached(s, a) && Reached(s, d) && a != d
    && 0 < s.vol.files[a].size <= BLOCK_SIZE && s.vol.files[a].indirect == 0
    && s.vol.files[d].size == 0 && s.vol.files[d].direct[0] == 0
    && var b := s.vol.files[a].direct[0];
      && b != 0 && b in s.cached && IsLeast(s, b) && NodesOn(s, b) == {}
  }

  lemma TruncatedFile(s: Server, a: FileId, d: FileId)
    requires StaleNodeStart(s, a, d)
    ensures var t, b := Shrunk(s, a, 0), s.vol.files[a].direct[0];
      && Typed(t) && t.nblocks == s.nblocks && t.vol.words == s.vol.words && t.cached == s.cached
      && t.vol.files.Keys == s.vol.files.Keys && t.vol.files[d] == s.vol.files[d]
      && 3 <= b < s.nblocks && Candidate(t) == b
  {
    hide Exclusive, OwnedAreUsed, ReservedAreUsed, DiskIsSafe, CacheOk, Truncate, FreeSet, Drop;
    var b := s.vol.files[a].direct[0];
    TruncateOneBlock(s, a);
    var t := Truncate(s, a, 0).1;
    assert Link(s.vol, Data(a, 0)) == b;
    OwnedIsPast(s, a, b);
    FreedIsCandidate(s, t, b);
    NobodyEvicted(s, t, b);
    DropNothing(t);
  }

  lemma NobodyEvicted(s: Server, t: Server, b: nat)
    requires Whole(s) && Typed(t) && t.nblocks == s.nblocks && t.vol.files.Keys == s.vol.files.Keys
    requires FreeSet(t) == FreeSet(s) + {b} && NodesOn(s, b) == {}
    ensures Evicted(t) == {}
  {
    forall f | f in t.vol.files && f.InDir? && f.block < t.nblocks ensures !IsFree(t, f.block) {
      assert IsHome(s, f.block) && f.block !in FreeSet(s);
      assert f !in NodesOn(s, b);
      assert f.block !in FreeSet(t);
    }
  }

  /** The first block of a directory is the next one, as its page is in the cache. */
  lemma FirstBlock(s: Server, d: FileId, b: nat)
    requires Inv(s) && d in s.vol.files && s.vol.files[d].direct[0] == 0
    requires Candidate(s) == b < s.nblocks && b in s.cached
    ensures var t := FileMap(s, d, 0, true).2;
      && t.nblocks == s.nblocks && t.cached == s.cached && t.vol.words == s.vol.words
      && t.vol.files.Keys == s.vol.files.Keys && Link(t.vol, Data(d, 0)) == b
  {
    hide Exclusive, OwnedAreUsed, ReservedAreUsed, DiskIsSafe, CacheOk, Candidate;
    AllocShape(s);
    assert AllocBlock(s) == (b, TakeBlock(s, b));
  }

  /** File data turned into links, with no table made.  The one block of file a is in
      the cache and the least one past the super block that could be free; a word of its
      text is no block number.  a is truncated, then a file is created in the empty
      directory d, which gets that block for its nodes: the first link of the new file is
      that word. */
  lemma StaleNodeRun(s: Server, a: FileId, d: FileId) returns (states: seq<Server>, ops: seq<Op>)
    requires StaleNodeStart(s, a, d) && s.vol.files[a].direct[0] < s.nblocks
    requires s.vol.words[s.vol.files[a].direct[0]][34] >= s.nblocks
    ensures var b := s.vol.files[a].direct[0];
      && ops == [Shrink(a, 0), Extend(d, BLOCK_SIZE), Grow(d, 0, true), Create(InDir(b, 0))]
      && Run(states, ops) && states[0] == s && HarmlessSoFar(states, ops, 3) && Spoils(states[3], ops[3])
      && Link(states[4].vol, Data(InDir(b, 0), 0)) >= states[4].nblocks && !Whole(states[4])
  {
    hide Exclusive, OwnedAreUsed, ReservedAreUsed, DiskIsSafe, CacheOk, Homed, Shrunk, FileMap, Candidate, NodesHarmless, WithNodes, Link;
    var b := s.vol.files[a].direct[0];
    var f := InDir(b, 0);
    TruncatedFile(s, a, d);
    DoKeepsIff(s, Shrink(a, 0));
    var t := Shrunk(s, a, 0);
    DoKeepsIff(t, Extend(d, BLOCK_SIZE));
    var u := Do(t, Extend(d, BLOCK_SIZE));
    SameCandidate(t, u);
    DoKeepsIff(u, Grow(d, 0, true));
    FirstBlock(u, d, b);
    var v := Do(u, Grow(d, 0, true));
    assert f !in NodesOn(s, b);
    FirstWord(v, f);
    DoKeepsIff(v, Create(f));
    states, ops := [s, t, u, v, Do(v, Create(f))], [Shrink(a, 0), Extend(d, BLOCK_SIZE), Grow(d, 0, true), Create(f)];
    BeyondTheDisk(states[4], Data(f, 0));
  }

  lemma SameCandidate(s: Server, t: Server)
    requires Typed(s) && Typed(t) && t.nblocks == s.nblocks && t.bits == s.bits
    ensures Candidate(t) == Candidate(s)
  {
    if s.nblocks > 3 { SameFirstFree(s, t, 3); }
  }

  lemma {:induction false} SameFirstFree(s: Server, t: Server, b: nat)
    requires Typed(s) && Typed(t) && t.nblocks == s.nblocks && t.bits == s.bits && b <= s.nblocks
    ensures FirstFree(t, b) == FirstFree(s, b)
    decreases s.nblocks - b
  {
    if b < s.nblocks { SameFirstFree(s, t, b + 1); }
  }

  /** The first link of a node that is taken into use is word 34 of the node. */
  lemma FirstWord(s: Server, f: FileId)
    requires f.InDir? && f.index == 0 && f.block < |s.vol.words|
    ensures Link(WithNodes(s, f.block, {f}).vol, Data(f, 0)) == s.vol.words[f.block][34]
    ensures WithNodes(s, f.block, {f}).nblocks == s.nblocks
  {
    var t := WithNodes(s, f.block, {f});
    assert f in t.vol.files && t.vol.files[f] == NodeAt(s.vol.words[f.block], 0);
  }

  lemma BeyondTheDisk(s: Server, p: Place)
    requires Link(s.vol, p) >= s.nblocks && Link(s.vol, p) != 0
    ensures !Whole(s)
  {}

  /** A client that was given a page when its block held data stores to it when the block
      is a table. */
  lemma StoreToTableStep(s: Server, g: FileId, w: Words)
    requires Whole(s) && g in s.vol.files && s.vol.files[g].indirect != 0 && s.vol.files[g].indirect in s.cached
    requires w[NDIRECT] >= s.nblocks
    ensures var op := Store(s.vol.files[g].indirect, w);
      && MayDo(s, op) && Spoils(s, op) && Link(Do(s, op).vol, Data(g, NDIRECT)) == w[NDIRECT] && !Whole(Do(s, op))
  {
    hide Exclusive, OwnedAreUsed, ReservedAreUsed, DiskIsSafe, CacheOk, Homed;
    var b := s.vol.files[g].indirect;
    TableIsBlock(s, g);
    assert Link(s.vol, Table(g)) == b;
    NoNodesOnTables(s, b, g);
    assert WithNodes(Stored(s, b, w), b, {}) == Stored(s, b, w);
    DoKeepsIff(s, Store(b, w));
    BeyondTheDisk(Do(s, Store(b, w)), Data(g, NDIRECT));
  }
}
