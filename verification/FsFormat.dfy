/** The image builder (tools/fsformat.c): an image it finishes is one on which the
    file server's invariant holds, and every file is in it block by block. */
module FsFormat {
  import opened FsLayout
  import FileBlocks
  import FileRuns

  const NBLOCK := 1024

  /** next: the next unused block; dirs: the files that are directories; src: the
      blocks of data that were read for each other file. */
  datatype Image = Image(next: nat, vol: Volume, dirs: set<FileId>, src: map<FileId, seq<Words>>)

  predicate Shape(m: Image) {
    && |m.vol.words| == NBLOCK && 3 <= m.next <= NBLOCK
    && Root in m.dirs && m.dirs <= m.vol.files.Keys && m.src.Keys == m.vol.files.Keys - m.dirs
  }

  /** Links name distinct blocks below the next unused one. */
  ghost predicate Linked(m: Image) {
    && Exclusive(m.vol)
    && forall p | Link(m.vol, p) != 0 :: 3 <= Link(m.vol, p) < m.next
  }

  predicate Zero(w: Words) { forall i | 0 <= i < NINDIRECT :: w[i] == 0 }

  ghost predicate Blank(m: Image)
    requires Shape(m)
  { forall b | m.next <= b < NBLOCK :: Zero(m.vol.words[b]) }

  /** File nodes lie in blocks that have been handed out, and not as tables. */
  ghost predicate Placed(m: Image) {
    forall f | f in m.vol.files && f.InDir? ::
      3 <= f.block < m.next && f.index < FILE2BLK && forall g :: Link(m.vol, Table(g)) != f.block
  }

  /** f has the slots below n and no others, and a table when it needs one. */
  ghost predicate Dense(v: Volume, f: FileId, n: nat) {
    && n <= NINDIRECT
    && (forall i: nat | i < NINDIRECT :: Link(v, Data(f, i)) != 0 <==> i < n)
    && (Link(v, Table(f)) != 0 <==> n > NDIRECT)
  }

  /** The blocks of f hold the data that was read. */
  ghost predicate Holds(v: Volume, f: FileId, chunks: seq<Words>) {
    forall i: nat | i < |chunks| ::
      Link(v, Data(f, i)) < |v.words| && v.words[Link(v, Data(f, i))] == chunks[i]
  }

  function Chunks(size: nat): nat { (size + BLOCK_SIZE - 1) / BLOCK_SIZE }

  /** As many blocks as hold a size, and no more. */
  lemma ChunksHold(size: nat, n: nat)
    ensures Chunks(size) <= n <==> size <= n * BLOCK_SIZE
  {
    var m := size + BLOCK_SIZE - 1;
    assert m == m / BLOCK_SIZE * BLOCK_SIZE + m % BLOCK_SIZE;
  }

  ghost predicate FileOk(m: Image, f: FileId)
    requires Shape(m) && f in m.vol.files
  {
    var size := m.vol.files[f].size;
    if f in m.dirs then size % BLOCK_SIZE == 0 && Dense(m.vol, f, size / BLOCK_SIZE)
    else |m.src[f]| == Chunks(size) && Dense(m.vol, f, |m.src[f]|) && Holds(m.vol, f, m.src[f])
  }

  /** The invariant, except that g may be under construction. */
  ghost predicate GoodBut(m: Image, g: FileId) {
    && Shape(m) && Linked(m) && Blank(m) && Placed(m)
    && forall f | f in m.vol.files && f != g :: FileOk(m, f)
  }

  ghost predicate Good(m: Image) { GoodBut(m, Root) && FileOk(m, Root) }

  // ----- one more block for a file

  /** next_block for data, then save_block_link at slot n of f, which takes another
      block for the table when slot 10 is the first to need it. */
  function AddBlock(m: Image, f: FileId, n: nat, data: Words): Image
    requires Shape(m) && f in m.vol.files && n < NINDIRECT && Room(m, f, n)
    requires m.vol.files[f].indirect < NBLOCK
  {
    var b := m.next;
    var v := m.vol.(words := m.vol.words[b := data]);
    if n >= NDIRECT && m.vol.files[f].indirect == 0 then
      m.(next := b + 2, vol := SetSlot(SetTable(v, f, b + 1), f, n, b))
    else
      m.(next := b + 1, vol := SetSlot(v, f, n, b))
  }

  /** Enough blocks are left on the disk. */
  predicate Room(m: Image, f: FileId, n: nat)
    requires f in m.vol.files
  { m.next + (if n >= NDIRECT && m.vol.files[f].indirect == 0 then 2 else 1) <= NBLOCK }

  lemma AddBlockLinks(m: Image, f: FileId, n: nat, data: Words, p: Place)
    requires Shape(m) && Linked(m) && Blank(m) && f in m.vol.files && n < NINDIRECT && Room(m, f, n)
    requires m.vol.files[f].indirect < NBLOCK && Dense(m.vol, f, n)
    ensures var t := AddBlock(m, f, n, data);
      Link(t.vol, p) == if p == Data(f, n) then m.next
                        else if p == Table(f) && n == NDIRECT then m.next + 1
                        else Link(m.vol, p)
  {
    var b := m.next;
    var v := m.vol.(words := m.vol.words[b := data]);
    assert Link(m.vol, Table(f)) == m.vol.files[f].indirect;
    if p.f in m.vol.files { assert Link(m.vol, Table(p.f)) == m.vol.files[p.f].indirect; }
    assert forall q :: Link(v, q) == Link(m.vol, q) by {
      forall q ensures Link(v, q) == Link(m.vol, q) {
        if q.f in m.vol.files { assert Link(m.vol, Table(q.f)) == m.vol.files[q.f].indirect; }
      }
    }
    if n == NDIRECT {
      AddTableLinks(m, v, f, b, p);
    } else {
      ExclusiveIsUnshared(v, f);
      SetSlotLinks(v, f, n, b, p);
    }
  }

  lemma AddTableLinks(m: Image, v: Volume, f: FileId, b: nat, p: Place)
    requires f in v.files && v.files[f].indirect == 0 && 0 < b && b + 1 < |v.words| && Zero(v.words[b + 1])
    requires Exclusive(v) && forall q :: Link(v, q) < b
    ensures var t := SetSlot(SetTable(v, f, b + 1), f, NDIRECT, b);
      Link(t, p) == if p == Data(f, NDIRECT) then b else if p == Table(f) then b + 1 else Link(v, p)
  {
    var u := SetTable(v, f, b + 1);
    forall q ensures Link(u, q) == if q == Table(f) then b + 1 else Link(v, q) {
      SetTableLinks(v, f, b + 1, q);
      NoTable(v, f, q);
    }
    forall q, r | Link(u, q) != 0 && Link(u, q) == Link(u, r) ensures q == r {
      assert Link(v, q) < b && Link(v, r) < b;
    }
    ExclusiveIsUnshared(u, f);
    SetSlotLinks(u, f, NDIRECT, b, p);
  }

  lemma NoTable(v: Volume, f: FileId, q: Place)
    requires f in v.files && v.files[f].indirect == 0
    ensures q.f == f && q.Data? && q.i >= NDIRECT ==> Link(v, q) == 0
  {}

  /** Only the new block, and a table of f, change their contents. */
  lemma AddBlockWords(m: Image, f: FileId, n: nat, data: Words, c: nat)
    requires Shape(m) && f in m.vol.files && n < NINDIRECT && Room(m, f, n)
    requires m.vol.files[f].indirect < m.next && c < NBLOCK
    ensures var t := AddBlock(m, f, n, data);
      && Shape(t) && t.dirs == m.dirs && t.src == m.src
      && t.next == m.next + (if n >= NDIRECT && m.vol.files[f].indirect == 0 then 2 else 1)
      && t.vol.files.Keys == m.vol.files.Keys
      && (forall g | g in m.vol.files :: t.vol.files[g].size == m.vol.files[g].size)
      && t.vol.words[m.next] == data
      && (c < m.next && (c != m.vol.files[f].indirect || c == 0) ==> t.vol.words[c] == m.vol.words[c])
      && (c >= t.next ==> t.vol.words[c] == m.vol.words[c])
  {}

  lemma AddBlockKeeps(m: Image, f: FileId, n: nat, data: Words)
    requires GoodBut(m, f) && f in m.vol.files && Dense(m.vol, f, n) && n < NINDIRECT && Room(m, f, n)
    ensures m.vol.files[f].indirect < m.next
    ensures var t := AddBlock(m, f, n, data);
      && GoodBut(t, f) && Dense(t.vol, f, n + 1) && m.next < t.next
      && t.dirs == m.dirs && t.src == m.src && t.vol.files.Keys == m.vol.files.Keys
      && t.vol.files[f].size == m.vol.files[f].size
      && Link(t.vol, Data(f, n)) < |t.vol.words| && t.vol.words[Link(t.vol, Data(f, n))] == data
      && (forall chunks :: |chunks| <= n && Holds(m.vol, f, chunks) ==> Holds(t.vol, f, chunks))
  {
    hide Link, AddBlock, Exclusive, FileOk, Holds, Dense;
    TableBelow(m, f);
    var t := AddBlock(m, f, n, data);
    AddBlockWords(m, f, n, data, 0);
    forall p ensures Link(t.vol, p) == AddedLink(m, f, n, p) { AddBlockLinks(m, f, n, data, p); }
    AddedExclusive(m, f, n, t);
    AddedDense(m, f, n, t);
    forall b | t.next <= b < NBLOCK ensures Zero(t.vol.words[b]) { AddBlockWords(m, f, n, data, b); }
    forall g | g in m.vol.files && g != f ensures FileOk(t, g) { AddedOthers(m, f, n, data, g); }
    forall chunks | |chunks| <= n && Holds(m.vol, f, chunks) ensures Holds(t.vol, f, chunks) {
      DenseSlots(m.vol, f, n);
      AddedHolds(m, f, n, data, f, chunks);
    }
  }

  lemma DenseSlots(v: Volume, f: FileId, n: nat)
    requires Dense(v, f, n)
    ensures forall i: nat | i < n :: Link(v, Data(f, i)) != 0
  {}

  function AddedLink(m: Image, f: FileId, n: nat, p: Place): nat {
    if p == Data(f, n) then m.next else if p == Table(f) && n == NDIRECT then m.next + 1 else Link(m.vol, p)
  }

  lemma TableBelow(m: Image, f: FileId)
    requires Linked(m) && f in m.vol.files
    ensures m.vol.files[f].indirect == Link(m.vol, Table(f))
    ensures m.vol.files[f].indirect != 0 ==> 3 <= m.vol.files[f].indirect < m.next
  {
    assert m.vol.files[f].indirect == Link(m.vol, Table(f));
  }

  lemma AddedExclusive(m: Image, f: FileId, n: nat, t: Image)
    requires Shape(m) && Linked(m) && Dense(m.vol, f, n) && n < NINDIRECT && f in m.vol.files && Room(m, f, n)
    requires m.vol.files[f].indirect == Link(m.vol, Table(f))
    requires t.next == m.next + (if n >= NDIRECT && m.vol.files[f].indirect == 0 then 2 else 1)
    requires forall p :: Link(t.vol, p) == AddedLink(m, f, n, p)
    ensures Linked(t)
  {
    hide Link;
    forall p | Link(t.vol, p) != 0 ensures 3 <= Link(t.vol, p) < t.next {
      assert Link(t.vol, p) == AddedLink(m, f, n, p);
    }
    forall p, q | Link(t.vol, p) != 0 && Link(t.vol, p) == Link(t.vol, q) ensures p == q {
      assert Link(t.vol, p) == AddedLink(m, f, n, p) && Link(t.vol, q) == AddedLink(m, f, n, q);
    }
  }

  lemma AddedDense(m: Image, f: FileId, n: nat, t: Image)
    requires Dense(m.vol, f, n) && n < NINDIRECT && 0 < m.next
    requires forall p :: Link(t.vol, p) == AddedLink(m, f, n, p)
    ensures Dense(t.vol, f, n + 1)
  {
    hide Link;
  }

  lemma AddedHolds(m: Image, f: FileId, n: nat, data: Words, g: FileId, chunks: seq<Words>)
    requires Shape(m) && Linked(m) && f in m.vol.files && n < NINDIRECT && Room(m, f, n)
    requires m.vol.files[f].indirect < m.next && m.vol.files[f].indirect == Link(m.vol, Table(f))
    requires Holds(m.vol, g, chunks) && (g == f ==> |chunks| <= n)
    requires forall i: nat | i < |chunks| :: Link(m.vol, Data(g, i)) != 0
    requires forall p :: Link(AddBlock(m, f, n, data).vol, p) == AddedLink(m, f, n, p)
    ensures Holds(AddBlock(m, f, n, data).vol, g, chunks)
  {
    hide Link, AddBlock;
    var t := AddBlock(m, f, n, data);
    forall i: nat | i < |chunks|
      ensures Link(t.vol, Data(g, i)) < |t.vol.words| && t.vol.words[Link(t.vol, Data(g, i))] == chunks[i]
    {
      var c := Link(m.vol, Data(g, i));
      assert Link(t.vol, Data(g, i)) == AddedLink(m, f, n, Data(g, i));
      assert Data(g, i) != Table(f) && c < m.next;
      AddBlockWords(m, f, n, data, c);
    }
  }

  lemma AddedOthers(m: Image, f: FileId, n: nat, data: Words, g: FileId)
    requires GoodBut(m, f) && f in m.vol.files && n < NINDIRECT && Room(m, f, n) && g in m.vol.files && g != f
    requires m.vol.files[f].indirect < m.next && m.vol.files[f].indirect == Link(m.vol, Table(f))
    requires forall p :: Link(AddBlock(m, f, n, data).vol, p) == AddedLink(m, f, n, p)
    ensures Shape(AddBlock(m, f, n, data)) && g in AddBlock(m, f, n, data).vol.files
    ensures FileOk(AddBlock(m, f, n, data), g)
  {
    hide Link, AddBlock, Holds;
    AddBlockWords(m, f, n, data, 0);
    assert FileOk(m, g);
    if g !in m.dirs { AddedHolds(m, f, n, data, g, m.src[g]); }
  }

  // ----- one more file

  predicate Empty(d: File) { (forall i | 0 <= i < NDIRECT :: d.direct[i] == 0) && d.indirect == 0 }

  lemma NewFileLinks(v: Volume, f: FileId, d: File)
    requires f !in v.files && Empty(d)
    ensures forall p :: Link(v.(files := v.files[f := d]), p) == Link(v, p)
  {}

  lemma NoLinksDense(v: Volume, f: FileId)
    requires forall p: Place | p.f == f :: Link(v, p) == 0
    ensures Dense(v, f, 0)
  {
    hide Link;
  }

  lemma SameDense(v: Volume, u: Volume, f: FileId, n: nat)
    requires Dense(v, f, n) && forall p :: Link(u, p) == Link(v, p)
    ensures Dense(u, f, n)
  {
    hide Link;
  }

  /** With the same links and contents, a file is as complete as before. */
  lemma SameFileOk(m: Image, t: Image, g: FileId)
    requires Shape(m) && Shape(t) && g in m.vol.files && g in t.vol.files && FileOk(m, g)
    requires (forall p :: Link(t.vol, p) == Link(m.vol, p)) && t.vol.words == m.vol.words
    requires t.vol.files[g].size == m.vol.files[g].size && (g in m.dirs <==> g in t.dirs)
    requires g !in m.dirs ==> t.src[g] == m.src[g]
    ensures FileOk(t, g)
  {
    hide Link;
  }

  /** Naming an unused node: a directory (chunks absent) or a file under construction. */
  lemma NewFileKeeps(m: Image, dir: FileId, f: FileId, d: File, t: Image)
    requires Good(m) && f !in m.vol.files && Empty(d) && InBlockOf(m, dir, f) && 3 <= f.block < m.next && f.index < FILE2BLK
    requires t.next == m.next && t.vol == m.vol.(files := m.vol.files[f := d])
    requires (t.dirs == m.dirs && f in t.src && t.src == m.src[f := t.src[f]]) || (t.dirs == m.dirs + {f} && t.src == m.src)
    ensures GoodBut(t, f) && Dense(t.vol, f, 0)
    ensures forall p :: Link(t.vol, p) == Link(m.vol, p)
  {
    hide Link, FileOk, Dense;
    NewFileLinks(m.vol, f, d);
    NoFileNoLinks(m.vol, f);
    NoLinksDense(t.vol, f);
    forall g | g in t.vol.files && g != f ensures FileOk(t, g) {
      assert FileOk(m, g);
      SameFileOk(m, t, g);
    }
    forall p, q | Link(t.vol, p) != 0 && Link(t.vol, p) == Link(t.vol, q) ensures p == q {
      assert Link(m.vol, p) == Link(m.vol, q);
    }
    forall p | Link(t.vol, p) != 0 ensures 3 <= Link(t.vol, p) < t.next { assert Link(m.vol, p) != 0; }
    var i: nat :| Link(m.vol, Data(dir, i)) == f.block;
    forall g ensures Link(t.vol, Table(g)) != f.block { assert Data(dir, i) != Table(g); }
  }

  lemma NoFileNoLinks(v: Volume, f: FileId)
    requires f !in v.files
    ensures forall p: Place | p.f == f :: Link(v, p) == 0
  {}

  /** A directory with one more block of nodes and its size. */
  function Resized(m: Image, f: FileId, size: nat): Image
    requires f in m.vol.files
  { m.(vol := m.vol.(files := m.vol.files[f := m.vol.files[f].(size := size)])) }

  lemma ResizedLinks(m: Image, f: FileId, size: nat)
    requires f in m.vol.files
    ensures forall p :: Link(Resized(m, f, size).vol, p) == Link(m.vol, p)
  {}

  /** GoodBut does not look at the size of the file under construction. */
  lemma ResizeKeeps(m: Image, f: FileId, size: nat)
    requires GoodBut(m, f) && f in m.vol.files
    ensures GoodBut(Resized(m, f, size), f)
    ensures forall n :: Dense(m.vol, f, n) ==> Dense(Resized(m, f, size).vol, f, n)
  {
    hide Link, FileOk, Dense;
    var t := Resized(m, f, size);
    ResizedLinks(m, f, size);
    forall g | g in t.vol.files && g != f ensures FileOk(t, g) {
      assert FileOk(m, g);
      SameFileOk(m, t, g);
    }
    forall n | Dense(m.vol, f, n) ensures Dense(t.vol, f, n) { SameDense(m.vol, t.vol, f, n); }
    forall p, q | Link(t.vol, p) != 0 && Link(t.vol, p) == Link(t.vol, q) ensures p == q {
      assert Link(m.vol, p) == Link(m.vol, q);
    }
    forall p | Link(t.vol, p) != 0 ensures 3 <= Link(t.vol, p) < t.next { assert Link(m.vol, p) != 0; }
  }

  lemma DoneIsGood(m: Image, f: FileId)
    requires GoodBut(m, f) && f in m.vol.files && FileOk(m, f)
    ensures Good(m)
  {
    hide FileOk;
  }

  // ----- what building keeps

  /** Later steps leave every link, every finished file and every directory in place. */
  ghost predicate Grows(m: Image, t: Image) {
    && m.vol.files.Keys <= t.vol.files.Keys && m.dirs <= t.dirs
    && (forall p | Link(m.vol, p) != 0 :: Link(t.vol, p) == Link(m.vol, p))
    && (forall f | f in m.src :: f in t.src && t.src[f] == m.src[f])
    && (forall f | f in m.src && f in m.vol.files :: f in t.vol.files && t.vol.files[f].size == m.vol.files[f].size)
  }

  lemma GrowsKeeps(m: Image, t: Image, f: FileId)
    requires Grows(m, t)
    ensures f in m.vol.files ==> f in t.vol.files
    ensures f in m.dirs ==> f in t.dirs
  {}

  lemma GrowsThrough(m: Image, t: Image, u: Image)
    requires Grows(m, t) && Grows(t, u)
    ensures Grows(m, u)
  {
    hide Link;
    forall p | Link(m.vol, p) != 0 ensures Link(u.vol, p) == Link(m.vol, p) { assert Link(t.vol, p) == Link(m.vol, p); }
  }

  /** The files and directories given to fsformat. */
  datatype Tree = Reg(size: nat, chunks: seq<Words>) | Dir(entries: seq<Tree>)

  predicate Readable(t: Tree) {
    match t
    case Reg(size, chunks) => |chunks| == Chunks(size)
    case Dir(entries) => forall i | 0 <= i < |entries| :: Readable(entries[i])
  }

  /** The nodes of d before node k of its block i are in use. */
  ghost predicate UsedBelow(m: Image, d: FileId, i: nat, k: nat) {
    forall j: nat, l: nat | j <= i && l < FILE2BLK && (j < i || l < k) :: NodeUsed(m, d, j, l)
  }

  predicate NodeUsed(m: Image, d: FileId, j: nat, l: nat) {
    InDir(Link(m.vol, Data(d, j)), l) in m.vol.files
  }

  /** f is the first node of d that is not in use. */
  ghost predicate FirstUnused(m: Image, d: FileId, f: FileId)
    requires d in m.vol.files
  {
    f.InDir? && f !in m.vol.files && exists i: nat ::
      i < m.vol.files[d].size / BLOCK_SIZE && Link(m.vol, Data(d, i)) == f.block && UsedBelow(m, d, i, f.index)
  }

  /** f is a node in a block of directory d. */
  ghost predicate InBlockOf(m: Image, d: FileId, f: FileId) {
    f.InDir? && exists i: nat :: Link(m.vol, Data(d, i)) == f.block && f.block != 0
  }

  /** Directory d has an entry that is t. */
  ghost predicate Stored(m: Image, d: FileId, t: Tree)
    decreases t
  {
    exists f | f in m.vol.files :: InBlockOf(m, d, f) && IsAt(m, f, t)
  }

  ghost predicate IsAt(m: Image, f: FileId, t: Tree)
    decreases t, 0
  {
    && f in m.vol.files
    && match t
       case Reg(size, chunks) => f in m.src && m.src[f] == chunks && m.vol.files[f].size == size
       case Dir(entries) => f in m.dirs && forall i | 0 <= i < |entries| :: Stored(m, f, entries[i])
  }

  lemma StoredReg(m: Image, d: FileId, f: FileId, size: nat, chunks: seq<Words>)
    requires InBlockOf(m, d, f) && f in m.vol.files && f in m.src && m.src[f] == chunks && m.vol.files[f].size == size
    ensures Stored(m, d, Reg(size, chunks))
  {
    assert IsAt(m, f, Reg(size, chunks));
  }

  lemma StoredDir(m: Image, d: FileId, f: FileId, entries: seq<Tree>)
    requires InBlockOf(m, d, f) && f in m.vol.files && f in m.dirs
    requires forall i | 0 <= i < |entries| :: Stored(m, f, entries[i])
    ensures Stored(m, d, Dir(entries))
  {
    assert IsAt(m, f, Dir(entries));
  }

  lemma GrowsInBlock(m: Image, t: Image, d: FileId, f: FileId)
    requires Grows(m, t) && InBlockOf(m, d, f)
    ensures InBlockOf(t, d, f)
  {
    hide Link;
    var i: nat :| Link(m.vol, Data(d, i)) == f.block && f.block != 0;
    assert Link(t.vol, Data(d, i)) == f.block;
  }

  lemma {:induction false} StoredStays(m: Image, t: Image, d: FileId, e: Tree)
    requires Grows(m, t) && Stored(m, d, e)
    ensures Stored(t, d, e)
    decreases e
  {
    hide InBlockOf, Link;
    var f :| f in m.vol.files && InBlockOf(m, d, f) && IsAt(m, f, e);
    GrowsInBlock(m, t, d, f);
    IsAtStays(m, t, f, e);
  }

  lemma {:induction false} IsAtStays(m: Image, t: Image, f: FileId, e: Tree)
    requires Grows(m, t) && IsAt(m, f, e)
    ensures IsAt(t, f, e)
    decreases e, 0
  {
    hide InBlockOf, Link;
    match e
    case Reg(size, chunks) =>
    case Dir(entries) =>
      forall i | 0 <= i < |entries| ensures Stored(t, f, entries[i]) { StoredStays(m, t, f, entries[i]); }
  }

  // ----- the file server can start on the image

  /** The server that starts on the image. */
  function Boot(m: Image, bits: seq<Word>, mem: seq<bool>): FileBlocks.Server
    requires Shape(m)
  { FileBlocks.Started(bits, m.vol, mem) }

  /** What flush_bitmap writes: free is exactly what was never handed out. */
  predicate Flushed(m: Image, bits: seq<Word>) {
    && |bits| == BLOCK_WORDS
    && forall b | 0 <= b < NBLOCK :: Bit(bits, b) <==> m.next <= b
  }

  /** Block 0 is nobody's table of links. */
  lemma BootBlockLinks(v: Volume)
    requires |v.words| >= 2
    ensures forall p :: Link(v.(words := v.words[0 := v.words[1]]), p) == Link(v, p)
  {}

  /** Every finished image meets the invariant on which the file server relies, so
      all that is proved about runs of the server holds from there on. */
  lemma ImageStartsServer(m: Image, bits: seq<Word>, mem: seq<bool>)
    requires Good(m) && Flushed(m, bits)
    ensures FileRuns.Whole(Boot(m, bits, mem))
    ensures forall b: nat :: b in FileBlocks.FreeSet(Boot(m, bits, mem)) <==> m.next <= b < NBLOCK
    ensures forall j: nat | j < NINDIRECT :: FileBlocks.NextWord(Boot(m, bits, mem), j) == 0
  {
    hide FileOk, Link;
    var s := Boot(m, bits, mem);
    assert FileBlocks.BitmapBlocks(NBLOCK) == 1;
    assert FileBlocks.Typed(s);
    BootBlockLinks(m.vol);
    forall p | Link(s.vol, p) != 0
      ensures FileBlocks.Reserved(s.nblocks) <= Link(s.vol, p) < s.nblocks && !FileBlocks.IsFree(s, Link(s.vol, p))
    {
      assert Link(s.vol, p) == Link(m.vol, p);
      assert Bit(bits, Link(m.vol, p)) <==> m.next <= Link(m.vol, p);
    }
    forall p, q | Link(s.vol, p) != 0 && Link(s.vol, p) == Link(s.vol, q) ensures p == q {
      assert Link(m.vol, p) == Link(m.vol, q);
    }
    assert FileBlocks.Candidate(s) >= 3;
  }

  /** So from a finished image on no block is in two places along any run of the server,
      as long as what becomes links is harmless (FileRuns.OwnedIff). */
  lemma ServedImageStaysExclusive(m: Image, bits: seq<Word>, mem: seq<bool>, states: seq<FileBlocks.Server>,
                                  ops: seq<FileRuns.Op>, n: nat, p: Place, q: Place)
    requires Good(m) && Flushed(m, bits) && FileRuns.Run(states, ops) && states[0] == Boot(m, bits, mem)
    requires n <= |ops| && FileRuns.HarmlessSoFar(states, ops, n)
    ensures Link(states[n].vol, p) != 0 && Link(states[n].vol, p) == Link(states[n].vol, q) ==> p == q
  {
    ImageStartsServer(m, bits, mem);
    FileRuns.EveryRunOwns(states, ops, n, p, q);
  }

  /** What the server then reads in a file is what was put there: slot i of a regular
      file names a block that is not free and holds chunk i, and no slot follows. */
  lemma ImageHoldsFiles(m: Image, bits: seq<Word>, f: FileId, i: nat)
    requires Good(m) && Flushed(m, bits) && f in m.src && i < NINDIRECT
    ensures f in m.vol.files && |m.src[f]| == Chunks(m.vol.files[f].size)
    ensures var b := Link(m.vol, Data(f, i));
      if i < |m.src[f]| then 3 <= b < NBLOCK && !Bit(bits, b) && m.vol.words[b] == m.src[f][i] else b == 0
  {
    hide Link;
    assert FileOk(m, f);
    assert Link(m.vol, Data(f, i)) != 0 ==> 3 <= Link(m.vol, Data(f, i)) < m.next;
  }

  // ----- how many blocks a tree takes

  /** The entries a directory can have. */
  const MAX_ENTRIES := FILE2BLK * NINDIRECT

  /** The blocks that entry number c of a directory takes from the disk: one of nodes
      when the ones before it fill theirs, and with the eleventh of those a table. */
  function EntryCost(c: nat): nat {
    if c % FILE2BLK != 0 then 0 else if c / FILE2BLK == NDIRECT then 2 else 1
  }

  function DataCost(n: nat): nat { if n > NDIRECT then n + 1 else n }

  function Cost(t: Tree): nat
    decreases t
  {
    match t
    case Reg(_, chunks) => DataCost(|chunks|)
    case Dir(entries) => EntriesCost(entries, |entries|)
  }

  function EntriesCost(entries: seq<Tree>, n: nat): nat
    requires n <= |entries|
    decreases entries, n
  {
    if n == 0 then 0 else EntriesCost(entries, n - 1) + EntryCost(n - 1) + Cost(entries[n - 1])
  }

  /** No file and no directory has more blocks than there are slots. */
  predicate SlotsSuffice(t: Tree)
    decreases t
  {
    match t
    case Reg(_, chunks) => |chunks| <= NINDIRECT
    case Dir(entries) => |entries| <= MAX_ENTRIES && forall i | 0 <= i < |entries| :: SlotsSuffice(entries[i])
  }

  lemma {:induction false} CostGrows(entries: seq<Tree>, i: nat, n: nat)
    requires i <= n <= |entries|
    ensures EntriesCost(entries, i) <= EntriesCost(entries, n)
  {
    if i < n { CostGrows(entries, i, n - 1); }
  }

  /** Directory d has nb blocks of nodes, of which the first c nodes are in use. */
  ghost predicate EntriesIn(m: Image, d: FileId, c: nat, nb: nat) {
    && d in m.vol.files && m.vol.files[d].size / BLOCK_SIZE == nb
    && forall j: nat, l: nat | j < nb && l < FILE2BLK :: NodeUsed(m, d, j, l) <==> FILE2BLK * j + l < c
  }

  /** Directory d has c entries. */
  ghost predicate Entries(m: Image, d: FileId, c: nat) {
    d in m.dirs && EntriesIn(m, d, c, (c + FILE2BLK - 1) / FILE2BLK)
  }

  /** Every directory but d keeps its entries. */
  ghost predicate OthersKeep(m: Image, t: Image, d: FileId) {
    forall g: FileId, c: nat | g != d && Entries(m, g, c) :: Entries(t, g, c)
  }

  lemma OthersThrough(m: Image, t: Image, u: Image, d: FileId)
    requires OthersKeep(m, t, d) && OthersKeep(t, u, d)
    ensures OthersKeep(m, u, d)
  {
    hide Entries;
  }

  /** With the same nodes, size and links, a directory has the same entries. */
  lemma SameEntries(m: Image, t: Image, g: FileId, c: nat, nb: nat)
    requires EntriesIn(m, g, c, nb) && g in t.vol.files && t.vol.files[g].size == m.vol.files[g].size
    requires forall j: nat | j < nb :: Link(t.vol, Data(g, j)) == Link(m.vol, Data(g, j))
    requires t.vol.files.Keys == m.vol.files.Keys
    ensures EntriesIn(t, g, c, nb)
  {
    hide Link;
    forall j: nat, l: nat | j < nb && l < FILE2BLK ensures NodeUsed(t, g, j, l) == NodeUsed(m, g, j, l) {
      assert Link(t.vol, Data(g, j)) == Link(m.vol, Data(g, j));
    }
  }

  /** A block for f changes no other directory's entries. */
  lemma AddBlockKeepsEntries(m: Image, f: FileId, n: nat, data: Words)
    requires GoodBut(m, f) && f in m.vol.files && Dense(m.vol, f, n) && n < NINDIRECT && Room(m, f, n)
    ensures m.vol.files[f].indirect < m.next && OthersKeep(m, AddBlock(m, f, n, data), f)
  {
    hide Link, AddBlock, FileOk, EntriesIn;
    TableBelow(m, f);
    AddBlockWords(m, f, n, data, 0);
    var t := AddBlock(m, f, n, data);
    forall g: FileId, c: nat | g != f && Entries(m, g, c) ensures Entries(t, g, c) {
      forall j: nat ensures Link(t.vol, Data(g, j)) == Link(m.vol, Data(g, j)) {
        AddBlockLinks(m, f, n, data, Data(g, j));
      }
      EntriesHasFile(m, g, c, (c + FILE2BLK - 1) / FILE2BLK);
      SameEntries(m, t, g, c, (c + FILE2BLK - 1) / FILE2BLK);
    }
  }

  lemma EntriesHasFile(m: Image, g: FileId, c: nat, nb: nat)
    requires EntriesIn(m, g, c, nb)
    ensures g in m.vol.files
  {}

  lemma ResizedKeepsEntries(m: Image, d: FileId, size: nat)
    requires d in m.vol.files
    ensures OthersKeep(m, Resized(m, d, size), d)
  {
    hide Link, EntriesIn;
    var t := Resized(m, d, size);
    ResizedLinks(m, d, size);
    forall g: FileId, c: nat | g != d && Entries(m, g, c) ensures Entries(t, g, c) {
      EntriesHasFile(m, g, c, (c + FILE2BLK - 1) / FILE2BLK);
      SameEntries(m, t, g, c, (c + FILE2BLK - 1) / FILE2BLK);
    }
  }

  /** A new block of nodes for d: its nodes are unused, the others are as before. */
  lemma GrownEntries(m: Image, t: Image, d: FileId, c: nat)
    requires Good(m) && Entries(m, d, c) && c % FILE2BLK == 0
    requires d in t.vol.files && t.vol.files[d].size == m.vol.files[d].size + BLOCK_SIZE
    requires t.vol.files.Keys == m.vol.files.Keys
    requires forall j: nat | j < c / FILE2BLK :: Link(t.vol, Data(d, j)) == Link(m.vol, Data(d, j))
    requires Link(t.vol, Data(d, c / FILE2BLK)) == m.next
    ensures EntriesIn(t, d, c, c / FILE2BLK + 1)
  {
    hide Link, FileOk;
    assert (c + FILE2BLK - 1) / FILE2BLK == c / FILE2BLK && c == FILE2BLK * (c / FILE2BLK);
    forall j: nat, l: nat | j < c / FILE2BLK + 1 && l < FILE2BLK
      ensures NodeUsed(t, d, j, l) <==> FILE2BLK * j + l < c
    {
      if j < c / FILE2BLK {
        assert Link(t.vol, Data(d, j)) == Link(m.vol, Data(d, j));
        assert NodeUsed(m, d, j, l) <==> FILE2BLK * j + l < c;
      } else {
        NothingBeyond(m, InDir(m.next, l));
      }
    }
  }

  /** The place of entry number c. */
  function NodeAt(m: Image, d: FileId, c: nat): FileId { InDir(Link(m.vol, Data(d, c / FILE2BLK)), c % FILE2BLK) }

  /** Naming the next node makes it an entry of its directory and of no other. */
  lemma NamedEntry(m: Image, t: Image, d: FileId, c: nat)
    requires Good(m) && d in m.dirs && EntriesIn(m, d, c, c / FILE2BLK + 1)
    requires t.vol.files.Keys == m.vol.files.Keys + {NodeAt(m, d, c)} && m.dirs <= t.dirs
    requires forall g | g in m.vol.files :: t.vol.files[g] == m.vol.files[g]
    requires forall p :: Link(t.vol, p) == Link(m.vol, p)
    ensures Entries(t, d, c + 1) && OthersKeep(m, t, d)
  {
    hide Link, FileOk;
    var f := NodeAt(m, d, c);
    assert (c + 1 + FILE2BLK - 1) / FILE2BLK == c / FILE2BLK + 1;
    forall j: nat, l: nat | j < c / FILE2BLK + 1 && l < FILE2BLK
      ensures NodeUsed(t, d, j, l) <==> FILE2BLK * j + l < c + 1
    {
      assert NodeUsed(m, d, j, l) <==> FILE2BLK * j + l < c;
      OneNode(m, d, j, d, c / FILE2BLK);
      assert c == FILE2BLK * (c / FILE2BLK) + c % FILE2BLK;
    }
    forall g: FileId, n: nat | g != d && Entries(m, g, n) ensures Entries(t, g, n) { NamedElsewhere(m, t, d, c, g, n); }
  }

  lemma NamedElsewhere(m: Image, t: Image, d: FileId, c: nat, g: FileId, n: nat)
    requires Good(m) && d in m.dirs && EntriesIn(m, d, c, c / FILE2BLK + 1)
    requires t.vol.files.Keys == m.vol.files.Keys + {NodeAt(m, d, c)} && m.dirs <= t.dirs
    requires forall g | g in m.vol.files :: t.vol.files[g] == m.vol.files[g]
    requires forall p :: Link(t.vol, p) == Link(m.vol, p)
    requires g != d && Entries(m, g, n)
    ensures Entries(t, g, n)
  {
    hide Link, FileOk;
    var nb := (n + FILE2BLK - 1) / FILE2BLK;
    forall j: nat, l: nat | j < nb && l < FILE2BLK ensures NodeUsed(t, g, j, l) <==> FILE2BLK * j + l < n {
      assert NodeUsed(m, g, j, l) <==> FILE2BLK * j + l < n;
      OneNode(m, g, j, d, c / FILE2BLK);
    }
  }

  /** Two blocks of nodes are one only if they are the same block of one directory. */
  lemma OneNode(m: Image, g: FileId, j: nat, d: FileId, i: nat)
    requires Good(m) && g in m.dirs && g in m.vol.files && j < m.vol.files[g].size / BLOCK_SIZE
    requires d in m.dirs && d in m.vol.files && i < m.vol.files[d].size / BLOCK_SIZE
    ensures Link(m.vol, Data(g, j)) == Link(m.vol, Data(d, i)) ==> g == d && j == i
  {
    DirBlock(m, g, j);
    DirBlock(m, d, i);
    if Link(m.vol, Data(g, j)) == Link(m.vol, Data(d, i)) { assert Data(g, j) == Data(d, i); }
  }

  /** make_link_block as a step of the image. */
  lemma LinkBlockMade(m: Image, d: FileId, n: nat)
    requires Good(m) && d in m.dirs && d in m.vol.files && n == m.vol.files[d].size / BLOCK_SIZE
    requires n < NINDIRECT && Room(m, d, n)
    ensures m.vol.files[d].indirect < NBLOCK
    ensures var t := AddBlock(m, d, n, NoWords());
      d in t.vol.files && t.vol.files[d].size == m.vol.files[d].size &&
      var u := Resized(t, d, m.vol.files[d].size + BLOCK_SIZE);
      && Good(u) && Grows(m, u) && u.vol.files.Keys == m.vol.files.Keys && OthersKeep(m, u, d)
      && u.next == m.next + (if n == NDIRECT then 2 else 1) && Link(u.vol, Data(d, n)) == m.next
      && (forall j: nat | j < n :: Link(u.vol, Data(d, j)) == Link(m.vol, Data(d, j)))
  {
    hide FileOk, Link, AddBlock, Dense, Linked, Blank, Placed, OthersKeep, Grows;
    DirIs(m, d);
    RoomFor(m, d, n);
    AddBlockKeeps(m, d, n, NoWords());
    AddBlockWords(m, d, n, NoWords(), 0);
    AddBlockGrows(m, d, n, NoWords());
    AddBlockKeepsEntries(m, d, n, NoWords());
    var t := AddBlock(m, d, n, NoWords());
    var size := m.vol.files[d].size + BLOCK_SIZE;
    GrownDir(m, d, t);
    ResizedKeepsEntries(t, d, size);
    GrowsThrough(m, t, Resized(t, d, size));
    OthersThrough(m, t, Resized(t, d, size), d);
    GoodIsLinked(m, d, n);
    forall j: nat | j <= n ensures Link(t.vol, Data(d, j)) == AddedLink(m, d, n, Data(d, j)) {
      AddBlockLinks(m, d, n, NoWords(), Data(d, j));
    }
  }

  lemma GoodIsLinked(m: Image, d: FileId, n: nat)
    requires Good(m)
    ensures Shape(m) && Linked(m) && Blank(m)
  {}

  /** f is node c, the next one of d, and there is a block for it. */
  ghost predicate NextNode(m: Image, t: Image, d: FileId, c: nat, f: FileId) {
    && t.next == m.next + EntryCost(c) && f == NodeAt(t, d, c)
    && EntriesIn(t, d, c, c / FILE2BLK + 1) && OthersKeep(m, t, d)
  }

  /** Slots and blocks suffice for t as entry number c of a directory. */
  predicate HasRoom(next: nat, c: nat, t: Tree) {
    c < MAX_ENTRIES && SlotsSuffice(t) && next + EntryCost(c) + Cost(t) <= NBLOCK
  }

  /** t has been written as entry number c of d: it took exactly its blocks. */
  ghost predicate OneEntryMore(m: Image, t: Image, d: FileId, c: nat, tree: Tree) {
    && t.next == m.next + EntryCost(c) + Cost(tree)
    && Entries(t, d, c + 1) && OthersKeep(m, t, d)
  }

  /** The node that create_file gives is named. */
  lemma NameOne(m0: Image, m: Image, t: Image, d: FileId, c: nat, f: FileId)
    requires Good(m) && d in m.dirs && NextNode(m0, m, d, c, f) && t.next == m.next && m.dirs <= t.dirs
    requires t.vol.files.Keys == m.vol.files.Keys + {f}
    requires forall g | g in m.vol.files :: t.vol.files[g] == m.vol.files[g]
    requires forall p :: Link(t.vol, p) == Link(m.vol, p)
    ensures Entries(t, d, c + 1) && OthersKeep(m0, t, d) && t.next == m0.next + EntryCost(c)
  {
    hide Link, FileOk, Entries, EntriesIn, OthersKeep, GoodBut;
    NamedEntry(m, t, d, c);
    OthersThrough(m0, m, t, d);
  }

  /** One more block of data for the file under construction. */
  lemma ChunkSaved(m: Image, f: FileId, n: nat, data: Words)
    requires GoodBut(m, f) && f in m.vol.files && Dense(m.vol, f, n) && n < NINDIRECT && Room(m, f, n)
    ensures m.vol.files[f].indirect < m.next
    ensures var t := AddBlock(m, f, n, data);
      && GoodBut(t, f) && Dense(t.vol, f, n + 1) && t.next == m.next + (if n == NDIRECT then 2 else 1)
      && t.dirs == m.dirs && t.src == m.src && t.vol.files.Keys == m.vol.files.Keys
      && t.vol.files[f].size == m.vol.files[f].size
      && Link(t.vol, Data(f, n)) < |t.vol.words| && t.vol.words[Link(t.vol, Data(f, n))] == data
      && (forall chunks :: |chunks| <= n && Holds(m.vol, f, chunks) ==> Holds(t.vol, f, chunks))
      && Grows(m, t) && OthersKeep(m, t, f)
  {
    hide Link, AddBlock, Dense, Grows, OthersKeep, Holds;
    RoomFor(m, f, n);
    AddBlockKeeps(m, f, n, data);
    AddBlockWords(m, f, n, data, 0);
    AddBlockGrows(m, f, n, data);
    AddBlockKeepsEntries(m, f, n, data);
  }

  /** A step that changes the entries of f at most leaves those of d and the rest. */
  lemma OthersAndOne(m0: Image, t: Image, u: Image, d: FileId, f: FileId, c: nat)
    requires OthersKeep(t, u, f) && OthersKeep(m0, t, d) && Entries(t, d, c) && d != f
    requires forall n: nat :: !Entries(m0, f, n)
    ensures Entries(u, d, c) && OthersKeep(m0, u, d)
  {
    hide EntriesIn;
  }

  /** File f of directory d has its first n blocks; everything of m is in place. */
  ghost predicate UnderConstruction(m: Image, t: Image, d: FileId, f: FileId, size: nat, chunks: seq<Words>, n: nat)
    requires n <= |chunks|
  {
    && GoodBut(t, f) && f in t.vol.files && Dense(t.vol, f, n) && Holds(t.vol, f, chunks[..n]) && Grows(m, t)
    && f in t.src && t.src[f] == chunks && t.vol.files[f].size == size && f !in t.dirs && InBlockOf(t, d, f)
    && d in t.dirs && forall i: nat :: !Entries(m, f, i)
  }

  lemma OneMoreBlock(m: Image, t: Image, d: FileId, f: FileId, size: nat, chunks: seq<Words>, n: nat)
    requires n < |chunks| && UnderConstruction(m, t, d, f, size, chunks, n) && n < NINDIRECT && Room(t, f, n)
    ensures t.vol.files[f].indirect < NBLOCK
    ensures var u := AddBlock(t, f, n, chunks[n]);
      && UnderConstruction(m, u, d, f, size, chunks, n + 1) && OthersKeep(t, u, f)
      && u.next == t.next + (if n == NDIRECT then 2 else 1)
  {
    hide Link, AddBlock, Dense, Holds, Grows, InBlockOf, Entries, OthersKeep, FileOk;
    ChunkSaved(t, f, n, chunks[n]);
    var u := AddBlock(t, f, n, chunks[n]);
    GrowsInBlock(t, u, d, f);
    GrowsThrough(m, t, u);
    OneMoreChunk(u.vol, f, chunks, n);
  }

  lemma OthersRefl(m: Image, d: FileId)
    ensures OthersKeep(m, m, d)
  {}

  lemma NoEntries(m: Image, d: FileId)
    requires d in m.dirs && d in m.vol.files && m.vol.files[d].size == 0
    ensures Entries(m, d, 0)
  {}

  lemma NewHasNoEntries(m: Image, f: FileId)
    requires f !in m.vol.files
    ensures forall n: nat :: !Entries(m, f, n)
  {}

  lemma DirCost(entries: seq<Tree>)
    ensures Cost(Dir(entries)) == EntriesCost(entries, |entries|)
    ensures SlotsSuffice(Dir(entries)) ==> |entries| <= MAX_ENTRIES && forall i | 0 <= i < |entries| :: SlotsSuffice(entries[i])
  {}

  lemma NoCost(entries: seq<Tree>)
    ensures EntriesCost(entries, 0) == 0
  {}

  lemma NextCost(entries: seq<Tree>, i: nat)
    requires i < |entries|
    ensures EntriesCost(entries, i + 1) == EntriesCost(entries, i) + EntryCost(i) + Cost(entries[i])
  {}

  lemma NoRoomForNode(next: nat, c: nat, t: Tree)
    requires !(c < MAX_ENTRIES && next + EntryCost(c) <= NBLOCK)
    ensures !HasRoom(next, c, t)
  {}

  lemma EntryFails(next: nat, next1: nat, c: nat, entries: seq<Tree>, i: nat)
    requires next1 == next + EntryCost(c) && i < |entries|
    requires !HasRoom(next1 + EntriesCost(entries, i), i, entries[i])
    ensures !HasRoom(next, c, Dir(entries))
  {
    hide Cost, EntriesCost, EntryCost, SlotsSuffice;
    DirCost(entries);
    NextCost(entries, i);
    CostGrows(entries, i + 1, |entries|);
  }

  lemma EntryFits(next1: nat, entries: seq<Tree>, i: nat)
    requires i < |entries| && HasRoom(next1 + EntriesCost(entries, i), i, entries[i])
    ensures i + 1 <= MAX_ENTRIES && SlotsSuffice(entries[i]) && next1 + EntriesCost(entries, i + 1) <= NBLOCK
    ensures EntriesCost(entries, i + 1) == EntriesCost(entries, i) + EntryCost(i) + Cost(entries[i])
  {}

  lemma AllFit(next: nat, c: nat, entries: seq<Tree>)
    requires c < MAX_ENTRIES && |entries| <= MAX_ENTRIES && forall i | 0 <= i < |entries| :: SlotsSuffice(entries[i])
    requires next + EntryCost(c) + EntriesCost(entries, |entries|) <= NBLOCK
    ensures HasRoom(next, c, Dir(entries)) && Cost(Dir(entries)) == EntriesCost(entries, |entries|)
  {}

  lemma NothingBelow(m: Image, d: FileId)
    ensures UsedBelow(m, d, 0, 0)
  {}

  lemma UsedOne(m: Image, d: FileId, i: nat, k: nat)
    requires UsedBelow(m, d, i, k) && NodeUsed(m, d, i, k)
    ensures UsedBelow(m, d, i, k + 1)
  {}

  lemma UsedBlock(m: Image, d: FileId, i: nat)
    requires UsedBelow(m, d, i, FILE2BLK)
    ensures UsedBelow(m, d, i + 1, 0)
  {}

  /** Node c is unused, so no search passes it. */
  lemma SearchStops(m: Image, d: FileId, i: nat, k: nat, c: nat)
    requires Entries(m, d, c) && UsedBelow(m, d, i, k) && k <= FILE2BLK
    requires i < m.vol.files[d].size / BLOCK_SIZE || (i == m.vol.files[d].size / BLOCK_SIZE && k == 0)
    ensures FILE2BLK * i + k <= c
  {
    var j: nat, l: nat := c / FILE2BLK, c % FILE2BLK;
    assert c == FILE2BLK * j + l;
    assert j < m.vol.files[d].size / BLOCK_SIZE ==> !NodeUsed(m, d, j, l);
    assert FILE2BLK * i + k > c ==> NodeUsed(m, d, j, l);
  }

  /** The search for an unused node ends at node c. */
  lemma NodeFound(m: Image, d: FileId, i: nat, k: nat, c: nat)
    requires Good(m) && d in m.dirs && d in m.vol.files && i < m.vol.files[d].size / BLOCK_SIZE && k < FILE2BLK
    requires UsedBelow(m, d, i, k) && !NodeUsed(m, d, i, k)
    ensures var f := InDir(Link(m.vol, Data(d, i)), k);
      && 3 <= f.block < m.next && InBlockOf(m, d, f) && FirstUnused(m, d, f) && Grows(m, m)
      && (Entries(m, d, c) ==> NextNode(m, m, d, c, f) && c % FILE2BLK != 0 && c < MAX_ENTRIES && m.next <= NBLOCK)
  {
    hide Link, Dense, UsedBelow;
    DirIs(m, d);
    DirBlock(m, d, i);
    DenseIsShort(m.vol, d, m.vol.files[d].size / BLOCK_SIZE);
    InTheBlock(m, d, i, InDir(Link(m.vol, Data(d, i)), k));
    if Entries(m, d, c) {
      SearchStops(m, d, i, k, c);
      assert NodeUsed(m, d, i, k) <==> FILE2BLK * i + k < c;
      assert c / FILE2BLK == i && c % FILE2BLK == k;
    }
  }

  lemma DenseIsShort(v: Volume, f: FileId, n: nat)
    requires Dense(v, f, n)
    ensures n <= NINDIRECT
  {}

  /** Without an unused node all blocks are full. */
  lemma AllUsed(m: Image, d: FileId, c: nat, nblk: nat)
    requires d in m.vol.files && nblk == m.vol.files[d].size / BLOCK_SIZE && UsedBelow(m, d, nblk, 0)
    ensures Entries(m, d, c) ==>
      && c == FILE2BLK * nblk && c % FILE2BLK == 0 && c / FILE2BLK == nblk
      && (c < MAX_ENTRIES <==> nblk < NINDIRECT)
  {
    if Entries(m, d, c) { SearchStops(m, d, nblk, 0, c); }
  }

  lemma InTheBlock(m: Image, d: FileId, i: nat, f: FileId)
    requires f.InDir? && Link(m.vol, Data(d, i)) == f.block && f.block != 0
    ensures InBlockOf(m, d, f)
  {
    hide Link;
  }

  /** What Room is for a file with n blocks. */
  lemma RoomFor(m: Image, f: FileId, n: nat)
    requires f in m.vol.files && Dense(m.vol, f, n)
    ensures n >= NDIRECT && m.vol.files[f].indirect == 0 <==> n == NDIRECT
    ensures Room(m, f, n) <==> m.next + (if n == NDIRECT then 2 else 1) <= NBLOCK
  {
    assert Link(m.vol, Table(f)) == m.vol.files[f].indirect;
  }

  // ----- the program

  /** AddBlock leaves links, finished files and directories in place. */
  lemma AddBlockGrows(m: Image, f: FileId, n: nat, data: Words)
    requires GoodBut(m, f) && f in m.vol.files && Dense(m.vol, f, n) && n < NINDIRECT && Room(m, f, n)
    ensures m.vol.files[f].indirect < m.next && Grows(m, AddBlock(m, f, n, data))
  {
    hide Link, AddBlock, FileOk;
    TableBelow(m, f);
    AddBlockWords(m, f, n, data, 0);
    var t := AddBlock(m, f, n, data);
    forall p | Link(m.vol, p) != 0 ensures Link(t.vol, p) == Link(m.vol, p) {
      AddBlockLinks(m, f, n, data, p);
    }
  }

  /** The words of a page that has nothing in it. */
  function NoWords(): (w: Words)
    ensures Zero(w)
  { seq(NINDIRECT, i => 0) }

  const NO_FILE := File(0, [0, 0, 0, 0, 0, 0, 0, 0, 0, 0], 0)

  class Formatter {
    var nextbno: nat
    var vol: Volume
    var dirs: set<FileId>
    ghost var src: map<FileId, seq<Words>>
    const bitmap: array<Word>

    ghost function Model(): Image
      reads this
    { Image(nextbno, vol, dirs, src) }

    /** init_disk */
    constructor ()
      ensures Good(Model()) && nextbno == 3
      ensures vol.files.Keys == {Root} && dirs == {Root} && src == map[] && vol.files[Root].size == 0
      ensures fresh(bitmap) && bitmap.Length == BLOCK_WORDS
      ensures forall b: nat | b < BLOCK_SIZE_BIT :: Bit(bitmap[..], b) <==> b < NBLOCK
    {
      nextbno := 2 + (NBLOCK + BLOCK_SIZE_BIT - 1) / BLOCK_SIZE_BIT;
      bitmap := new Word[BLOCK_WORDS](i => AllBits(i < NBLOCK / WORD_BITS));
      vol := Volume(map[Root := NO_FILE], Pages());
      dirs, src := {Root}, map[];
      new;
      NoLinksDense(vol, Root);
      forall b: nat | b < BLOCK_SIZE_BIT ensures Bit(bitmap[..], b) <==> b < NBLOCK {
        assert bitmap[..][b / WORD_BITS] == AllBits(b / WORD_BITS < NBLOCK / WORD_BITS);
      }
    }

    /** next_block, then save_block_link at slot n; false when the program would write
        past its array of blocks or trips over its assertion. */
    method SaveBlock(f: FileId, n: nat, data: Words) returns (ok: bool)
      requires GoodBut(Model(), f) && f in vol.files && Dense(vol, f, n)
      modifies `nextbno, `vol
      ensures ok <==> n < NINDIRECT && Room(old(Model()), f, n)
      ensures ok ==>
        old(vol).files[f].indirect < NBLOCK && Model() == AddBlock(old(Model()), f, n, data)
    {
      ok := false;
      TableBelow(Model(), f);
      if n >= NINDIRECT || nextbno >= NBLOCK { return; }
      var bno := nextbno;                                // next_block(BLOCK_DATA)
      vol := vol.(words := vol.words[bno := data]);
      nextbno := nextbno + 1;
      if n >= NDIRECT && vol.files[f].indirect == 0 {
        if nextbno >= NBLOCK { return; }
        vol := SetTable(vol, f, nextbno);                // next_block(BLOCK_INDEX)
        nextbno := nextbno + 1;
      }
      vol := SetSlot(vol, f, n, bno);
      ok := true;
    }

    /** make_link_block: one more block of nodes for a directory. */
    method MakeLinkBlock(d: FileId) returns (ok: bool, bno: nat)
      requires Good(Model()) && d in dirs && d in vol.files
      modifies `nextbno, `vol
      ensures ok <==>
        && old(vol).files[d].size / BLOCK_SIZE < NINDIRECT
        && old(nextbno) + (if old(vol).files[d].size / BLOCK_SIZE == NDIRECT then 2 else 1) <= NBLOCK
      ensures ok ==>
        && Good(Model()) && Grows(old(Model()), Model()) && vol.files.Keys == old(vol).files.Keys
        && bno == old(nextbno) && OthersKeep(old(Model()), Model(), d)
        && nextbno == old(nextbno) + (if old(vol).files[d].size / BLOCK_SIZE == NDIRECT then 2 else 1)
        && Link(vol, Data(d, old(vol).files[d].size / BLOCK_SIZE)) == bno
        && (forall j: nat | j < old(vol).files[d].size / BLOCK_SIZE :: Link(vol, Data(d, j)) == Link(old(vol), Data(d, j)))
        && vol.files[d].size == old(vol).files[d].size + BLOCK_SIZE
    {
      hide FileOk, Link, AddBlock, Dense, Linked, Blank, Placed, OthersKeep, Grows;
      ghost var m := Model();
      var n := vol.files[d].size / BLOCK_SIZE;
      DirIs(m, d);
      RoomFor(m, d, n);
      bno := nextbno;
      ok := SaveBlock(d, n, NoWords());
      if ok {
        LinkBlockMade(m, d, n);
        vol := vol.(files := vol.files[d := vol.files[d].(size := vol.files[d].size + BLOCK_SIZE)]);
      }
    }

    /** create_file: the first unused node in the directory's blocks, or the first of a
        new block when all are used.  With c entries in the directory it is node c. */
    method CreateFile(d: FileId, ghost c: nat) returns (ok: bool, f: FileId)
      requires Good(Model()) && d in dirs && d in vol.files
      modifies `nextbno, `vol
      ensures ok ==>
        && Good(Model()) && Grows(old(Model()), Model()) && vol.files.Keys == old(vol).files.Keys
        && f.InDir? && f !in vol.files && 3 <= f.block < nextbno && f.index < FILE2BLK && InBlockOf(Model(), d, f)
      ensures ok && nextbno == old(nextbno) ==> Model() == old(Model()) && FirstUnused(Model(), d, f)
      ensures ok && nextbno != old(nextbno) ==>
        f.index == 0 && UsedBelow(old(Model()), d, old(vol).files[d].size / BLOCK_SIZE, 0)
      ensures old(Entries(Model(), d, c)) ==> (ok <==> c < MAX_ENTRIES && old(nextbno) + EntryCost(c) <= NBLOCK)
      ensures old(Entries(Model(), d, c)) && ok ==> NextNode(old(Model()), Model(), d, c, f)
    {
      hide Link, Dense, Grows, OthersKeep, InBlockOf, Entries, UsedBelow;
      ghost var m := Model();
      var nblk := vol.files[d].size / BLOCK_SIZE;
      var i := 0;
      DirIs(m, d);
      NothingBelow(m, d);
      while i < nblk
        invariant 0 <= i <= nblk && Model() == m
        invariant UsedBelow(m, d, i, 0)
      {
        var bno := Link(vol, Data(d, i));
        DirBlock(m, d, i);
        var k := 0;
        while k < FILE2BLK
          invariant 0 <= k <= FILE2BLK && Model() == m
          invariant UsedBelow(m, d, i, k)
        {
          if InDir(bno, k) !in vol.files {
            NodeFound(m, d, i, k, c);
            return true, InDir(bno, k);
          }
          UsedOne(m, d, i, k);
          k := k + 1;
        }
        UsedBlock(m, d, i);
        i := i + 1;
      }
      AllUsed(m, d, c, nblk);
      var bno;
      ok, bno := MakeLinkBlock(d);
      f := InDir(bno, 0);
      if ok {
        NothingBeyond(m, f);
        if Entries(m, d, c) { GrownEntries(m, Model(), d, c); }
        InTheBlock(Model(), d, nblk, f);
      }
    }

    /** write_file.  It goes through exactly when slots and blocks suffice. */
    method WriteFile(d: FileId, size: nat, chunks: seq<Words>, ghost c: nat) returns (ok: bool)
      requires Good(Model()) && d in dirs && d in vol.files && |chunks| == Chunks(size)
      modifies `nextbno, `vol, `src
      ensures ok ==> Good(Model()) && Grows(old(Model()), Model()) && Stored(Model(), d, Reg(size, chunks))
      ensures old(Entries(Model(), d, c)) ==> (ok <==> HasRoom(old(nextbno), c, Reg(size, chunks)))
      ensures old(Entries(Model(), d, c)) && ok ==> OneEntryMore(old(Model()), Model(), d, c, Reg(size, chunks))
    {
      hide FileOk, Link, AddBlock, Dense, Holds, InBlockOf, Grows, Stored, IsAt, GoodBut, Entries, EntriesIn, OthersKeep,
        EntryCost;
      ghost var m, exact := Model(), Entries(Model(), d, c);
      var target;
      ok, target := NameFile(d, size, chunks, c);
      if !ok { return; }
      var iblk := 0;
      while iblk < |chunks|
        invariant 0 <= iblk <= |chunks| && UnderConstruction(m, Model(), d, target, size, chunks, iblk)
        invariant exact ==> c < MAX_ENTRIES && Entries(Model(), d, c + 1) && OthersKeep(m, Model(), d)
        invariant exact ==> nextbno == m.next + EntryCost(c) + DataCost(iblk) <= NBLOCK
        invariant iblk <= NINDIRECT
      {
        ghost var t := Model();
        RoomFor(t, target, iblk);
        ok := SaveBlock(target, iblk, chunks[iblk]);
        if !ok { return; }
        OneMoreBlock(m, t, d, target, size, chunks, iblk);
        if exact { OthersAndOne(m, t, Model(), d, target, c + 1); }
        iblk := iblk + 1;
      }
      assert chunks[..iblk] == chunks;
      FileDone(Model(), target);
      StoredReg(Model(), d, target, size, chunks);
    }

    /** The beginning of write_file: a node with name and size, and no data yet. */
    method NameFile(d: FileId, size: nat, chunks: seq<Words>, ghost c: nat) returns (ok: bool, target: FileId)
      requires Good(Model()) && d in dirs && d in vol.files
      modifies `nextbno, `vol, `src
      ensures ok ==> UnderConstruction(old(Model()), Model(), d, target, size, chunks, 0)
      ensures old(Entries(Model(), d, c)) ==> (ok <==> c < MAX_ENTRIES && old(nextbno) + EntryCost(c) <= NBLOCK)
      ensures old(Entries(Model(), d, c)) && ok ==>
        Entries(Model(), d, c + 1) && OthersKeep(old(Model()), Model(), d) && nextbno == old(nextbno) + EntryCost(c)
    {
      hide FileOk, Link, Dense, Holds, InBlockOf, Grows, Linked, Blank, Placed, Entries, EntriesIn, OthersKeep, EntryCost,
        FirstUnused, UsedBelow;
      ghost var m0, exact := Model(), Entries(Model(), d, c);
      ok, target := CreateFile(d, c);
      if !ok { return; }
      ghost var m := Model();
      vol := vol.(files := vol.files[target := NO_FILE.(size := size)]);
      src := src[target := chunks];
      NewFileKeeps(m, d, target, NO_FILE.(size := size), Model());
      NewFileGrows(m, target, Model());
      GrowsInBlock(m, Model(), d, target);
      NoChunks(vol, target);
      GrowsThrough(m0, m, Model());
      if exact { NameOne(m0, m, Model(), d, c, target); }
      NewHasNoEntries(m0, target);
    }

    /** write_file and, through it, write_directory. */
    method WriteTree(d: FileId, t: Tree, ghost c: nat) returns (ok: bool)
      requires Good(Model()) && d in dirs && d in vol.files && Readable(t)
      modifies `nextbno, `vol, `src, `dirs
      ensures ok ==> Good(Model()) && Grows(old(Model()), Model()) && Stored(Model(), d, t)
      ensures old(Entries(Model(), d, c)) ==> (ok <==> HasRoom(old(nextbno), c, t))
      ensures old(Entries(Model(), d, c)) && ok ==> OneEntryMore(old(Model()), Model(), d, c, t)
      decreases t
    {
      match t
      case Reg(size, chunks) => ok := WriteFile(d, size, chunks, c);
      case Dir(entries) => ok := WriteDirectory(d, entries, c);
    }

    /** write_directory */
    method WriteDirectory(d: FileId, entries: seq<Tree>, ghost c: nat) returns (ok: bool)
      requires Good(Model()) && d in dirs && d in vol.files
      requires forall i | 0 <= i < |entries| :: Readable(entries[i])
      modifies `nextbno, `vol, `src, `dirs
      ensures ok ==> Good(Model()) && Grows(old(Model()), Model()) && Stored(Model(), d, Dir(entries))
      ensures old(Entries(Model(), d, c)) ==> (ok <==> HasRoom(old(nextbno), c, Dir(entries)))
      ensures old(Entries(Model(), d, c)) && ok ==> OneEntryMore(old(Model()), Model(), d, c, Dir(entries))
      decreases entries, 0
    {
      hide FileOk, Link, AddBlock, Dense, Holds, InBlockOf, Grows, Stored, IsAt, Linked, Blank, Placed, Entries, EntriesIn, OthersKeep, HasRoom,
        EntryCost, EntriesCost, Cost, SlotsSuffice, FirstUnused, UsedBelow;
      ghost var m0, exact := Model(), Entries(Model(), d, c);
      var pdir;
      ok, pdir := NameDirectory(d, c);
      if !ok {
        if exact { NoRoomForNode(old(nextbno), c, Dir(entries)); }
        return;
      }
      NoCost(entries);
      OthersRefl(Model(), pdir);
      ghost var m1 := Model();
      var i := 0;
      while i < |entries|
        invariant 0 <= i <= |entries| && Good(Model()) && Grows(old(Model()), Model())
        invariant pdir in dirs && pdir in vol.files && InBlockOf(Model(), d, pdir)
        invariant forall j | 0 <= j < i :: Stored(Model(), pdir, entries[j])
        invariant Entries(Model(), pdir, i) && OthersKeep(m1, Model(), pdir) && nextbno == m1.next + EntriesCost(entries, i)
        invariant i <= MAX_ENTRIES && nextbno <= NBLOCK && forall j | 0 <= j < i :: SlotsSuffice(entries[j])
      {
        ghost var u := Model();
        ok := WriteTree(pdir, entries[i], i);
        if !ok {
          if exact { EntryFails(m0.next, m1.next, c, entries, i); }
          return;
        }
        EntryFits(m1.next, entries, i);
        GrowsInBlock(u, Model(), d, pdir);
        GrowsThrough(old(Model()), u, Model());
        GrowsKeeps(u, Model(), pdir);
        OthersThrough(m1, u, Model(), pdir);
        forall j | 0 <= j < i ensures Stored(Model(), pdir, entries[j]) { StoredStays(u, Model(), pdir, entries[j]); }
        i := i + 1;
      }
      StoredDir(Model(), d, pdir, entries);
      if exact {
        AllFit(m0.next, c, entries);
        OthersAndOne(m0, m1, Model(), d, pdir, c + 1);
      }
    }

    /** The beginning of write_directory: a node for the directory, which is empty. */
    method NameDirectory(d: FileId, ghost c: nat) returns (ok: bool, pdir: FileId)
      requires Good(Model()) && d in dirs && d in vol.files
      modifies `nextbno, `vol, `dirs
      ensures ok ==>
        && Good(Model()) && Grows(old(Model()), Model()) && pdir in dirs && pdir in vol.files
        && InBlockOf(Model(), d, pdir) && d in dirs && d != pdir && Entries(Model(), pdir, 0)
        && (forall n: nat :: !Entries(old(Model()), pdir, n)) && nextbno <= NBLOCK
      ensures old(Entries(Model(), d, c)) ==> (ok <==> c < MAX_ENTRIES && old(nextbno) + EntryCost(c) <= NBLOCK)
      ensures old(Entries(Model(), d, c)) && ok ==>
        Entries(Model(), d, c + 1) && OthersKeep(old(Model()), Model(), d) && nextbno == old(nextbno) + EntryCost(c)
    {
      hide FileOk, Link, Dense, Holds, InBlockOf, Grows, Linked, Blank, Placed, Entries, EntriesIn, OthersKeep, EntryCost,
        FirstUnused, UsedBelow;
      ghost var m0, exact := Model(), Entries(Model(), d, c);
      ok, pdir := CreateFile(d, c);
      if !ok { return; }
      ghost var m := Model();
      vol := vol.(files := vol.files[pdir := NO_FILE]);
      dirs := dirs + {pdir};
      NewFileKeeps(m, d, pdir, NO_FILE, Model());
      NewFileGrows(m, pdir, Model());
      GrowsInBlock(m, Model(), d, pdir);
      EmptyDir(Model(), pdir);
      GrowsThrough(m0, m, Model());
      if exact { NameOne(m0, m, Model(), d, c, pdir); }
      NewHasNoEntries(m0, pdir);
      NoEntries(Model(), pdir);
    }

    /** flush_bitmap */
    method FlushBitmap()
      requires Good(Model()) && bitmap.Length == BLOCK_WORDS
      requires forall b: nat | b < NBLOCK :: Bit(bitmap[..], b)
      modifies bitmap
      ensures Flushed(Model(), bitmap[..])
    {
      var i := 0;
      while i < nextbno
        invariant 0 <= i <= nextbno
        invariant forall b: nat | b < NBLOCK :: Bit(bitmap[..], b) <==> i <= b
      {
        ghost var bits := bitmap[..];
        bitmap[i / WORD_BITS] := bitmap[i / WORD_BITS][i % WORD_BITS := false];
        assert bitmap[..] == SetBit(bits, i, false);
        forall b: nat | b < NBLOCK ensures Bit(bitmap[..], b) <==> i + 1 <= b { SetBitAt(bits, i, false, b); }
        i := i + 1;
      }
    }
  }

  /** main: write every argument below the root, then flush the bitmap.  An image comes
      out exactly when the blocks that the trees take fit on the disk. */
  method Format(trees: seq<Tree>) returns (ok: bool, image: Formatter)
    requires forall i | 0 <= i < |trees| :: Readable(trees[i])
    ensures ok <==> SlotsSuffice(Dir(trees)) && 3 + Cost(Dir(trees)) <= NBLOCK
    ensures ok ==> Good(image.Model()) && Flushed(image.Model(), image.bitmap[..])
    ensures ok ==> image.Model().next == 3 + Cost(Dir(trees))
    ensures ok ==> forall i | 0 <= i < |trees| :: Stored(image.Model(), Root, trees[i])
  {
    hide Entries, Stored, GoodBut, FileOk, OthersKeep, HasRoom;
    image := new Formatter();
    NoEntries(image.Model(), Root);
    ok := true;
    ghost var unflushed := image.bitmap[..];
    var i := 0;
    while i < |trees|
      invariant 0 <= i <= |trees| && Good(image.Model()) && image.bitmap[..] == unflushed
      invariant Root in image.dirs && Root in image.vol.files
      invariant forall j | 0 <= j < i :: Stored(image.Model(), Root, trees[j])
      invariant Entries(image.Model(), Root, i) && image.nextbno == 3 + EntriesCost(trees, i) <= NBLOCK
      invariant i <= MAX_ENTRIES && forall j | 0 <= j < i :: SlotsSuffice(trees[j])
    {
      ghost var u := image.Model();
      ok := image.WriteTree(Root, trees[i], i);
      if !ok {
        TreeFails(trees, i);
        return;
      }
      EntryFits(3, trees, i);
      GrowsKeeps(u, image.Model(), Root);
      forall j | 0 <= j < i ensures Stored(image.Model(), Root, trees[j])
      { StoredStays(u, image.Model(), Root, trees[j]); }
      i := i + 1;
    }
    image.FlushBitmap();
  }

  lemma TreeFails(trees: seq<Tree>, i: nat)
    requires i < |trees| && !HasRoom(3 + EntriesCost(trees, i), i, trees[i])
    ensures !(SlotsSuffice(Dir(trees)) && 3 + Cost(Dir(trees)) <= NBLOCK)
  {
    hide Cost, EntriesCost, EntryCost, SlotsSuffice;
    DirCost(trees);
    NextCost(trees, i);
    CostGrows(trees, i + 1, |trees|);
  }

  function AllBits(x: bool): (w: Word)
    ensures forall i | 0 <= i < WORD_BITS :: w[i] == x
  { seq(32, i => x) }

  function Pages(): (p: seq<Words>)
    ensures |p| == NBLOCK && forall b | 0 <= b < NBLOCK :: Zero(p[b])
  { seq(NBLOCK, b => NoWords()) }

  lemma DirIs(m: Image, d: FileId)
    requires Good(m) && d in m.dirs && d in m.vol.files
    ensures GoodBut(m, d) && m.vol.files[d].size % BLOCK_SIZE == 0
    ensures Dense(m.vol, d, m.vol.files[d].size / BLOCK_SIZE)
  {
    hide Dense, Link;
    assert FileOk(m, d);
  }

  lemma GrownDir(m: Image, d: FileId, t: Image)
    requires d in m.dirs && Shape(m) && m.vol.files[d].size % BLOCK_SIZE == 0
    requires GoodBut(t, d) && t.dirs == m.dirs && d in t.vol.files && t.vol.files[d].size == m.vol.files[d].size
    requires Dense(t.vol, d, m.vol.files[d].size / BLOCK_SIZE + 1)
    ensures var u := Resized(t, d, m.vol.files[d].size + BLOCK_SIZE);
      Good(u) && Grows(t, u) && forall p :: Link(u.vol, p) == Link(t.vol, p)
  {
    hide Dense, Link;
    var size := m.vol.files[d].size + BLOCK_SIZE;
    var u := Resized(t, d, size);
    ResizeKeeps(t, d, size);
    ResizedLinks(t, d, size);
    assert size % BLOCK_SIZE == 0 && size / BLOCK_SIZE == m.vol.files[d].size / BLOCK_SIZE + 1;
    DoneIsGood(u, d);
  }

  lemma DirBlock(m: Image, d: FileId, i: nat)
    requires Good(m) && d in m.dirs && d in m.vol.files && i < m.vol.files[d].size / BLOCK_SIZE
    ensures 3 <= Link(m.vol, Data(d, i)) < m.next
  {
    DirIs(m, d);
    assert Link(m.vol, Data(d, i)) != 0;
  }

  lemma NothingBeyond(m: Image, f: FileId)
    requires Good(m) && f.InDir? && f.block >= m.next
    ensures f !in m.vol.files
  {
    hide FileOk;
  }

  lemma NewFileGrows(m: Image, f: FileId, t: Image)
    requires f !in m.vol.files && m.src.Keys <= m.vol.files.Keys && m.dirs <= t.dirs
    requires t.vol.files.Keys == m.vol.files.Keys + {f}
    requires forall g | g in m.vol.files :: t.vol.files[g] == m.vol.files[g]
    requires forall g | g in m.src :: g in t.src && t.src[g] == m.src[g]
    requires forall p :: Link(t.vol, p) == Link(m.vol, p)
    ensures Grows(m, t)
  {}

  lemma NoChunks(v: Volume, f: FileId)
    ensures Holds(v, f, [])
  {}

  lemma OneMoreChunk(v: Volume, f: FileId, chunks: seq<Words>, i: nat)
    requires i < |chunks| && Holds(v, f, chunks[..i])
    requires Link(v, Data(f, i)) < |v.words| && v.words[Link(v, Data(f, i))] == chunks[i]
    ensures Holds(v, f, chunks[..i + 1])
  {
    hide Link;
    forall j: nat | j < i + 1
      ensures Link(v, Data(f, j)) < |v.words| && v.words[Link(v, Data(f, j))] == chunks[..i + 1][j]
    {
      assert j < i ==> chunks[..i][j] == chunks[j];
    }
  }

  lemma FileDone(m: Image, f: FileId)
    requires GoodBut(m, f) && f in m.vol.files && f !in m.dirs && |m.src[f]| == Chunks(m.vol.files[f].size)
    requires Dense(m.vol, f, |m.src[f]|) && Holds(m.vol, f, m.src[f])
    ensures Good(m)
  {
    DoneIsGood(m, f);
  }

  lemma EmptyDir(m: Image, f: FileId)
    requires GoodBut(m, f) && f in m.dirs && f in m.vol.files && m.vol.files[f].size == 0 && Dense(m.vol, f, 0)
    ensures Good(m)
  {
    hide Dense, Holds, Link;
    assert FileOk(m, f);
    DoneIsGood(m, f);
  }
}
