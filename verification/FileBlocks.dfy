/** The blocks of the file server (fs/fs.c): the bitmap in memory and on disk, the
    block cache, and growing and truncating files. */
module FileBlocks {
  import opened FsLayout

  const E_NO_MEM := -4
  const E_INVAL := -3
  const E_NO_DISK := -8
  const E_NOT_FOUND := -10

  /** bits, diskBits: the bitmap in memory and on disk; vol: files, and each block as
      its cache page shows it, or as it is on disk when it has none; mem: the answers
      that syscall_mem_alloc will give, in order. */
  datatype Server = Server(nblocks: nat, bits: seq<Word>, diskBits: seq<Word>, vol: Volume,
                           cached: set<nat>, dirty: set<nat>, disk: seq<Words>, mem: seq<bool>)

  function BitmapBlocks(nblocks: nat): nat { nblocks / BLOCK_SIZE_BIT + 1 }

  /** Boot block, super block and bitmap come first. */
  function Reserved(nblocks: nat): nat { 2 + BitmapBlocks(nblocks) }

  predicate Typed(s: Server) {
    && |s.bits| == |s.diskBits| == BitmapBlocks(s.nblocks) * BLOCK_WORDS
    && |s.vol.words| == |s.disk| == s.nblocks
  }

  predicate IsFree(s: Server, b: nat)
    requires Typed(s) && b < s.nblocks
  { Bit(s.bits, b) }

  predicate IsFreeOnDisk(s: Server, b: nat)
    requires Typed(s) && b < s.nblocks
  { Bit(s.diskBits, b) }

  ghost function FreeSet(s: Server): set<nat>
    requires Typed(s)
  { set b | 0 <= b < s.nblocks && IsFree(s, b) }

  /** Every block a file owns is past the reserved ones and marked used. */
  ghost predicate OwnedAreUsed(s: Server)
    requires Typed(s)
  {
    forall p | Link(s.vol, p) != 0 ::
      Reserved(s.nblocks) <= Link(s.vol, p) < s.nblocks && !IsFree(s, Link(s.vol, p))
  }

  ghost predicate ReservedAreUsed(s: Server)
    requires Typed(s)
  { forall b: nat | b < s.nblocks && b < Reserved(s.nblocks) :: !IsFree(s, b) }

  /** The bitmap on disk never marks free what memory marks used. */
  ghost predicate DiskIsSafe(s: Server)
    requires Typed(s)
  { forall b: nat | b < s.nblocks && IsFreeOnDisk(s, b) :: IsFree(s, b) }

  ghost predicate CacheOk(s: Server)
    requires Typed(s)
  {
    && (forall b: nat | b < s.nblocks && b !in s.cached :: s.vol.words[b] == s.disk[b])
    && s.dirty <= s.cached
    && (forall b: nat | 2 <= b < Reserved(s.nblocks) :: b in s.cached)
  }

  ghost predicate Inv(s: Server) {
    Typed(s) && Exclusive(s.vol) && OwnedAreUsed(s) && ReservedAreUsed(s) && DiskIsSafe(s) && CacheOk(s)
  }

  predicate HoldsBitmap(nblocks: nat, b: nat) { 2 <= b < Reserved(nblocks) }

  function BitmapPages(nblocks: nat): set<nat> {
    set b: nat | b < Reserved(nblocks) && HoldsBitmap(nblocks, b)
  }

  /** The server after fs_init on a disk with these words, bitmap and files: it has
      cached the boot block, as a copy of the super block, and the bitmap. */
  function Started(bits: seq<Word>, vol: Volume, mem: seq<bool>): Server
    requires |vol.words| >= 2
  {
    Server(|vol.words|, bits, bits, vol.(words := vol.words[0 := vol.words[1]]),
           {0, 1} + BitmapPages(|vol.words|), {}, vol.words, mem)
  }

  // ----- the operations

  function FreeBlock(s: Server, b: nat): Server
    requires Typed(s)
  { if b == 0 || b >= s.nblocks then s else s.(bits := SetBit(s.bits, b, true)) }

  /** Write bitmap block k of memory to disk. */
  function SaveBitmap(s: Server, k: nat): Server
    requires Typed(s) && k < BitmapBlocks(s.nblocks)
  {
    s.(diskBits := s.diskBits[..k * BLOCK_WORDS] + s.bits[k * BLOCK_WORDS..(k + 1) * BLOCK_WORDS]
                   + s.diskBits[(k + 1) * BLOCK_WORDS..])
  }

  function TakeBlock(s: Server, b: nat): (t: Server)
    requires Typed(s) && b < s.nblocks
  { SaveBitmap(s.(bits := SetBit(s.bits, b, false)), b / BLOCK_SIZE_BIT) }

  /** The first free block from b on, or nblocks. */
  function FirstFree(s: Server, b: nat): (r: nat)
    requires Typed(s) && b <= s.nblocks
    ensures b <= r <= s.nblocks && (r < s.nblocks ==> IsFree(s, r))
    ensures forall c | b <= c < r :: !IsFree(s, c)
    decreases s.nblocks - b
  { if b == s.nblocks || IsFree(s, b) then b else FirstFree(s, b + 1) }

  /** The block alloc_block_num looks for. */
  function Candidate(s: Server): nat
    requires Typed(s)
  { if s.nblocks <= 3 then s.nblocks else FirstFree(s, 3) }

  /** The answer of the next syscall_mem_alloc. */
  predicate HasMem(s: Server) { s.mem != [] && s.mem[0] }

  function Asked(s: Server): Server { s.(mem := if s.mem == [] then [] else s.mem[1..]) }

  function ZeroWords(): (t: Words)
    ensures forall i | 0 <= i < NINDIRECT :: t[i] == 0
  { seq(NINDIRECT, i => 0) }

  function MapBlock(s: Server, b: nat): (int, Server)
    requires Typed(s) && b < s.nblocks
  {
    if b in s.cached then (0, s)
    else if !HasMem(s) then (E_NO_MEM, Asked(s))
    else (0, Asked(s).(cached := s.cached + {b}, vol := s.vol.(words := s.vol.words[b := ZeroWords()])))
  }

  /** A page of the cache is filled from disk. */
  function ReadBlock(s: Server, b: nat): (int, Server)
    requires Typed(s) && b < s.nblocks
  {
    if b in s.cached then (0, s)
    else if !HasMem(s) then (E_NO_MEM, Asked(s))
    else (0, Asked(s).(cached := s.cached + {b}, vol := s.vol.(words := s.vol.words[b := s.disk[b]])))
  }

  function AllocBlock(s: Server): (r: (int, Server))
    requires Typed(s)
  {
    var b := Candidate(s);
    if b == s.nblocks then (E_NO_DISK, s)
    else
      var m := MapBlock(TakeBlock(s, b), b);
      if m.0 < 0 then (m.0, FreeBlock(m.1, b)) else (b, m.1)
  }

  /** file_block_walk: 0 when slot i of f exists and can be written. */
  ghost function Walk(s: Server, f: FileId, i: nat, alloc: bool): (int, Server)
    requires Inv(s) && f in s.vol.files
  {
    if i < NDIRECT then (0, s)
    else if i >= NINDIRECT then (E_INVAL, s)
    else if s.vol.files[f].indirect != 0 then
      assert Link(s.vol, Table(f)) != 0;
      ReadBlock(s, s.vol.files[f].indirect)
    else if !alloc then (E_NOT_FOUND, s)
    else
      var a := AllocBlock(s);
      if a.0 < 0 then a else (0, a.1.(vol := SetTable(a.1.vol, f, a.0)))
  }

  /** file_map_block: the block in slot i of f, or an error. */
  ghost function FileMap(s: Server, f: FileId, i: nat, alloc: bool): (int, nat, Server)
    requires Inv(s) && f in s.vol.files
  {
    var w := Walk(s, f, i, alloc);
    if w.0 < 0 then (w.0, 0, w.1)
    else
      var b := Link(w.1.vol, Data(f, i));
      if b != 0 then (0, b, w.1)
      else if !alloc then (E_NOT_FOUND, 0, w.1)
      else
        WalkIsTyped(s, f, i, alloc);
        var a := AllocBlock(w.1);
        if a.0 < 0 then (a.0, 0, a.1)
        else (0, a.0, a.1.(vol := SetSlot(a.1.vol, f, i, a.0)))
  }

  /** file_clear_block */
  ghost function Clear(s: Server, f: FileId, i: nat): (int, Server)
    requires Inv(s) && f in s.vol.files
  {
    var w := Walk(s, f, i, false);
    if w.0 < 0 then w
    else
      WalkIsTyped(s, f, i, false);
      var b := Link(w.1.vol, Data(f, i));
      (0, if b == 0 then w.1 else FreeBlock(w.1, b).(vol := SetSlot(w.1.vol, f, i, 0)))
  }

  // ----- bits

  lemma SetBits(s: Server, b: nat, x: bool, c: nat)
    requires Typed(s) && b < s.nblocks && c < s.nblocks
    ensures Bit(SetBit(s.bits, b, x), c) == if c == b then x else Bit(s.bits, c)
  {
    SetBitAt(s.bits, b, x, c);
  }

  lemma WordOfBlock(nblocks: nat, b: nat)
    requires b < nblocks
    ensures b / BLOCK_SIZE_BIT < BitmapBlocks(nblocks)
    ensures b / BLOCK_SIZE_BIT * BLOCK_WORDS <= b / WORD_BITS < (b / BLOCK_SIZE_BIT + 1) * BLOCK_WORDS
  {
    var k := b / BLOCK_SIZE_BIT;
    assert b == k * BLOCK_SIZE_BIT + b % BLOCK_SIZE_BIT;
    assert b == b / WORD_BITS * WORD_BITS + b % WORD_BITS;
  }

  /** Saving bitmap block k brings over the bits of its 32768 blocks. */
  lemma SavedBit(s: Server, k: nat, c: nat)
    requires Typed(s) && k < BitmapBlocks(s.nblocks) && c < s.nblocks
    ensures Typed(SaveBitmap(s, k))
    ensures IsFreeOnDisk(SaveBitmap(s, k), c) == if c / BLOCK_SIZE_BIT == k then IsFree(s, c) else IsFreeOnDisk(s, c)
  {
    WordOfBlock(s.nblocks, c);
  }

  // ----- allocating a block

  lemma WalkIsTyped(s: Server, f: FileId, i: nat, alloc: bool)
    requires Inv(s) && f in s.vol.files
    ensures var w := Walk(s, f, i, alloc); Typed(w.1) && w.1.nblocks == s.nblocks && f in w.1.vol.files
    ensures Walk(s, f, i, alloc).0 == 0 ==> HasSlot(Walk(s, f, i, alloc).1.vol, f, i)
  {
    assert s.vol.files[f].indirect == Link(s.vol, Table(f));
    AllocShape(s);
  }

  /** What an allocation leaves alone, whatever its answer. */
  lemma AllocShape(s: Server)
    requires Typed(s)
    ensures var a := AllocBlock(s);
      && Typed(a.1) && a.1.nblocks == s.nblocks && a.1.vol.files == s.vol.files
      && (a.0 >= 0 ==> a.0 == Candidate(s) && 3 <= a.0 < s.nblocks && a.0 in a.1.cached)
  {
    var b := Candidate(s);
    if b < s.nblocks { WordOfBlock(s.nblocks, b); }
  }

  /** Taking a block that was free takes that block only, in memory and, at once, on disk. */
  lemma TakeTakesOne(s: Server, b: nat)
    requires Typed(s) && DiskIsSafe(s) && b < s.nblocks && IsFree(s, b)
    ensures var t := TakeBlock(s, b);
      && Typed(t) && t == s.(bits := t.bits, diskBits := t.diskBits)
      && (forall c: nat | c < s.nblocks :: IsFree(t, c) == (c != b && IsFree(s, c)))
      && !IsFreeOnDisk(t, b) && DiskIsSafe(t)
  {
    WordOfBlock(s.nblocks, b);
    var u := s.(bits := SetBit(s.bits, b, false));
    var t := TakeBlock(s, b);
    forall c: nat | c < s.nblocks
      ensures IsFree(t, c) == (c != b && IsFree(s, c))
      ensures IsFreeOnDisk(t, c) ==> IsFree(t, c)
    {
      SetBits(s, b, false, c);
      SavedBit(u, b / BLOCK_SIZE_BIT, c);
      assert IsFree(t, c) == Bit(u.bits, c);
    }
    SavedBit(u, b / BLOCK_SIZE_BIT, b);
  }

  /** What a successful allocation does: b was free, is now taken, in nobody's hands,
      and in the cache; the links and all other blocks are as before. */
  ghost predicate Allocated(s: Server, b: nat, t: Server)
    requires Typed(s)
  {
    && Typed(t) && t.nblocks == s.nblocks && t.vol.files == s.vol.files && t.disk == s.disk
    && b < s.nblocks && IsFree(s, b) && b in t.cached
    && (forall c: nat | c < s.nblocks :: IsFree(t, c) == (c != b && IsFree(s, c)))
    && t.vol.words == s.vol.words[b := t.vol.words[b]]
    && (if b in s.cached then t.vol.words[b] == s.vol.words[b] else t.vol.words[b] == ZeroWords())
  }

  lemma MapKeepsInv(s: Server, b: nat)
    requires Inv(s) && b < s.nblocks && (forall p :: Link(s.vol, p) != b || b == 0)
    ensures Inv(MapBlock(s, b).1)
  {
    hide Exclusive, OwnedAreUsed;
    var t := MapBlock(s, b).1;
    SameLinks(s.vol, t.vol, b);
    assert ReservedAreUsed(t) && DiskIsSafe(t) && CacheOk(t) by {
      assert forall c: nat | c < s.nblocks :: IsFree(t, c) == IsFree(s, c) && IsFreeOnDisk(t, c) == IsFreeOnDisk(s, c);
    }
    SameOwners(s, t);
  }

  /** Contents of a block that is nobody's table do not matter. */
  lemma SameLinks(v: Volume, u: Volume, b: nat)
    requires b < |v.words| == |u.words| && u == v.(words := v.words[b := u.words[b]])
    requires forall f :: Link(v, Table(f)) != b || b == 0
    ensures forall p :: Link(u, p) == Link(v, p)
  {
    forall p ensures Link(u, p) == Link(v, p) {
      if p.f in v.files { assert v.files[p.f].indirect == Link(v, Table(p.f)); }
    }
  }

  lemma SameOwners(s: Server, t: Server)
    requires Typed(s) && Exclusive(s.vol) && OwnedAreUsed(s) && Typed(t) && t.nblocks == s.nblocks && t.bits == s.bits
    requires forall p :: Link(t.vol, p) == Link(s.vol, p)
    ensures Exclusive(t.vol) && OwnedAreUsed(t)
  {
    forall p | Link(t.vol, p) != 0
      ensures Reserved(t.nblocks) <= Link(t.vol, p) < t.nblocks && !IsFree(t, Link(t.vol, p))
    { assert Link(t.vol, p) == Link(s.vol, p); }
    forall p, q | Link(t.vol, p) != 0 && Link(t.vol, p) == Link(t.vol, q) ensures p == q {
      assert Link(t.vol, p) == Link(s.vol, p) && Link(t.vol, q) == Link(s.vol, q);
    }
  }

  lemma TakeKeepsInv(s: Server, b: nat)
    requires Inv(s) && b < s.nblocks && IsFree(s, b)
    ensures Inv(TakeBlock(s, b)) && forall p :: Link(s.vol, p) != b || b == 0
  {
    TakeTakesOne(s, b);
    var t := TakeBlock(s, b);
    forall p | Link(t.vol, p) != 0
      ensures Reserved(t.nblocks) <= Link(t.vol, p) < t.nblocks && !IsFree(t, Link(t.vol, p))
    { assert !IsFree(s, Link(s.vol, p)); }
  }

  /** Freeing a block that no place names. */
  lemma FreeKeepsInv(s: Server, b: nat)
    requires Inv(s) && Reserved(s.nblocks) <= b < s.nblocks && (forall p :: Link(s.vol, p) != b)
    ensures Inv(FreeBlock(s, b))
    ensures forall c: nat | c < s.nblocks :: IsFree(FreeBlock(s, b), c) == (c == b || IsFree(s, c))
  {
    var t := FreeBlock(s, b);
    forall c: nat | c < s.nblocks
      ensures IsFree(t, c) == (c == b || IsFree(s, c)) && IsFreeOnDisk(t, c) == IsFreeOnDisk(s, c)
    { SetBits(s, b, true, c); }
    forall p | Link(t.vol, p) != 0
      ensures Reserved(t.nblocks) <= Link(t.vol, p) < t.nblocks && !IsFree(t, Link(t.vol, p))
    { assert Link(t.vol, p) == Link(s.vol, p); }
  }

  /** What alloc_block takes: the least free block past the super block; nothing when it
      fails. */
  lemma AllocTakes(s: Server)
    requires Typed(s) && DiskIsSafe(s)
    ensures var a := AllocBlock(s);
      && Typed(a.1)
      && (a.0 >= 0 ==> Allocated(s, a.0, a.1) && (forall c: nat | 3 <= c < a.0 :: !IsFree(s, c)))
      && (a.0 < 0 ==> FreeSet(a.1) == FreeSet(s) && a.1.vol == s.vol)
      && (a.0 == E_NO_DISK ==> forall c: nat | 3 <= c < s.nblocks :: !IsFree(s, c))
  {
    hide DiskIsSafe;
    var b := Candidate(s);
    if b < s.nblocks {
      TakeTakesOne(s, b);
      var m := MapBlock(TakeBlock(s, b), b);
      if m.0 < 0 {
        forall c: nat | c < s.nblocks ensures IsFree(FreeBlock(m.1, b), c) == IsFree(s, c) { SetBits(m.1, b, true, c); }
      }
    }
  }

  /** alloc_block keeps the invariant.  It answers with the least free block past the
      super block, or, when it fails, leaves the set of free blocks as it was. */
  lemma AllocKeepsInv(s: Server)
    requires Inv(s)
    ensures var a := AllocBlock(s);
      && Inv(a.1)
      && (a.0 >= 0 ==> Allocated(s, a.0, a.1) && (forall c: nat | 3 <= c < a.0 :: !IsFree(s, c)))
      && (a.0 < 0 ==> FreeSet(a.1) == FreeSet(s) && a.1.vol == s.vol)
      && (a.0 == E_NO_DISK ==> forall c: nat | 3 <= c < s.nblocks :: !IsFree(s, c))
  {
    hide Exclusive, OwnedAreUsed, ReservedAreUsed, DiskIsSafe, CacheOk, FreeSet, Allocated;
    AllocTakes(s);
    var b := Candidate(s);
    if b < s.nblocks {
      TakeTakesOne(s, b);
      TakeKeepsInv(s, b);
      var t := TakeBlock(s, b);
      MapKeepsInv(t, b);
      var m := MapBlock(t, b);
      if m.0 < 0 {
        CandidateIsPast(s);
        FreeKeepsInv(m.1, b);
      }
    }
  }

  lemma CandidateIsPast(s: Server)
    requires Inv(s) && Candidate(s) < s.nblocks
    ensures Reserved(s.nblocks) <= Candidate(s)
  {
    assert IsFree(s, Candidate(s));
  }

  // ----- growing a file

  /** A used block past the reserved ones that no place names. */
  ghost predicate Loose(s: Server, b: nat)
    requires Typed(s)
  { Reserved(s.nblocks) <= b < s.nblocks && !IsFree(s, b) && forall p :: Link(s.vol, p) != b }

  lemma AllocatedIsLoose(s: Server, b: nat, t: Server)
    requires Inv(s) && Allocated(s, b, t)
    ensures Loose(t, b) && forall p :: Link(t.vol, p) == Link(s.vol, p)
  {
    forall p ensures Link(s.vol, p) != b { assert Link(s.vol, p) != 0 ==> !IsFree(s, Link(s.vol, p)); }
    SameLinks(s.vol, t.vol, b);
  }

  /** The entries of a page are what a table of links for block b may hold: blocks
      that are in use but in nobody's hands, each once. */
  ghost predicate Harmless(s: Server, b: nat)
    requires Typed(s) && b < s.nblocks
  {
    var w := s.vol.words[b];
    && (forall i | NDIRECT <= i < NINDIRECT && w[i] != 0 :: w[i] != b && Loose(s, w[i]))
    && (forall i, j | NDIRECT <= i < NINDIRECT && NDIRECT <= j < NINDIRECT && w[i] != 0 && w[i] == w[j] :: i == j)
  }

  /** Hanging a table into a file keeps ownership exclusive exactly when what its
      cache page happens to hold is harmless. */
  lemma TableKeepsInvIff(s: Server, f: FileId, b: nat)
    requires Inv(s) && f in s.vol.files && s.vol.files[f].indirect == 0 && Loose(s, b) && b in s.cached
    ensures Inv(s.(vol := SetTable(s.vol, f, b))) <==> Harmless(s, b)
  {
    hide Link, Exclusive, OwnedAreUsed;
    var t := s.(vol := SetTable(s.vol, f, b));
    WithTable(s, f, b);
    if Harmless(s, b) { HarmlessKeeps(s, f, b, t); }
    if Inv(t) { KeptIsHarmless(s, f, b, t, NDIRECT, 0); }
  }

  /** Whatever its page holds, the rest of the invariant does not depend on it. */
  lemma WithTable(s: Server, f: FileId, b: nat)
    requires Inv(s) && f in s.vol.files && s.vol.files[f].indirect == 0 && Loose(s, b)
    ensures var t := s.(vol := SetTable(s.vol, f, b));
      && Typed(t) && ReservedAreUsed(t) && DiskIsSafe(t) && CacheOk(t)
      && forall p :: Link(t.vol, p) == LinkWithTable(s.vol, f, b, p)
    ensures Link(s.vol, Table(f)) == 0 && forall i | i >= NDIRECT :: Link(s.vol, Data(f, i)) == 0
  {
    hide Link, Exclusive, OwnedAreUsed;
    var t := s.(vol := SetTable(s.vol, f, b));
    assert forall c: nat | c < s.nblocks :: IsFree(t, c) == IsFree(s, c) && IsFreeOnDisk(t, c) == IsFreeOnDisk(s, c);
    NoTableNoEntries(s.vol, f);
    forall p ensures Link(t.vol, p) == LinkWithTable(s.vol, f, b, p) { SetTableLinks(s.vol, f, b, p); }
  }

  function LinkWithTable(v: Volume, f: FileId, b: nat, p: Place): nat
    requires b < |v.words|
  {
    if p == Table(f) then b
    else if p.Data? && p.f == f && NDIRECT <= p.i < NINDIRECT then v.words[b][p.i]
    else Link(v, p)
  }

  lemma NoTableNoEntries(v: Volume, f: FileId)
    requires f in v.files && v.files[f].indirect == 0
    ensures Link(v, Table(f)) == 0 && forall i | i >= NDIRECT :: Link(v, Data(f, i)) == 0
  {}

  lemma HarmlessKeeps(s: Server, f: FileId, b: nat, t: Server)
    requires Typed(s) && Exclusive(s.vol) && OwnedAreUsed(s) && Loose(s, b) && Harmless(s, b)
    requires Typed(t) && t.nblocks == s.nblocks && t.bits == s.bits
    requires forall p :: Link(t.vol, p) == LinkWithTable(s.vol, f, b, p)
    ensures Exclusive(t.vol) && OwnedAreUsed(t)
  {
    hide Link;
    forall p | Link(t.vol, p) != 0
      ensures Reserved(t.nblocks) <= Link(t.vol, p) < t.nblocks && !IsFree(t, Link(t.vol, p))
    { assert Link(t.vol, p) == LinkWithTable(s.vol, f, b, p); }
    forall p, q | Link(t.vol, p) != 0 && Link(t.vol, p) == Link(t.vol, q) ensures p == q {
      assert Link(t.vol, p) == LinkWithTable(s.vol, f, b, p) && Link(t.vol, q) == LinkWithTable(s.vol, f, b, q);
    }
  }

  /** The other direction, also when block c is then taken for empty slot i. */
  lemma KeptIsHarmless(s: Server, f: FileId, b: nat, t: Server, i: nat, c: nat)
    requires Typed(s) && Typed(t) && t.nblocks == s.nblocks && Loose(s, b) && NDIRECT <= i < NINDIRECT
    requires forall d: nat | d < s.nblocks && d != c :: IsFree(t, d) == IsFree(s, d)
    requires Exclusive(t.vol) && OwnedAreUsed(t) && (c != 0 ==> s.vol.words[b][i] == 0)
    requires forall p :: Link(t.vol, p) == if c != 0 && p == Data(f, i) then c else LinkWithTable(s.vol, f, b, p)
    requires Link(s.vol, Table(f)) == 0 && forall i | i >= NDIRECT :: Link(s.vol, Data(f, i)) == 0
    ensures Harmless(s, b)
  {
    hide Link;
    var w := s.vol.words[b];
    forall j | NDIRECT <= j < NINDIRECT && w[j] != 0 ensures w[j] != b && Loose(s, w[j]) {
      assert Link(t.vol, Data(f, j)) == w[j] && Link(t.vol, Table(f)) == b;
      assert c != 0 ==> Link(t.vol, Data(f, i)) == c;
      forall p ensures Link(s.vol, p) != w[j] {
        assert Link(t.vol, p) == if c != 0 && p == Data(f, i) then c else LinkWithTable(s.vol, f, b, p);
        assert Link(t.vol, p) == w[j] ==> p == Data(f, j);
      }
    }
    forall j, k | NDIRECT <= j < NINDIRECT && NDIRECT <= k < NINDIRECT && w[j] != 0 && w[j] == w[k] ensures j == k {
      assert Link(t.vol, Data(f, j)) == w[j] && Link(t.vol, Data(f, k)) == w[k];
    }
  }

  /** Putting a loose block into an empty slot. */
  lemma SlotKeepsInv(s: Server, f: FileId, i: nat, b: nat)
    requires Inv(s) && HasSlot(s.vol, f, i) && Link(s.vol, Data(f, i)) == 0 && Loose(s, b)
    requires i >= NDIRECT ==> s.vol.files[f].indirect in s.cached
    ensures Inv(s.(vol := SetSlot(s.vol, f, i, b)))
    ensures forall p :: Link(SetSlot(s.vol, f, i, b), p) == if p == Data(f, i) then b else Link(s.vol, p)
  {
    hide Link;
    var t := s.(vol := SetSlot(s.vol, f, i, b));
    forall p ensures Link(t.vol, p) == if p == Data(f, i) then b else Link(s.vol, p)
    { ExclusiveIsUnshared(s.vol, f); SetSlotLinks(s.vol, f, i, b, p); }
    SlotKeepsCache(s, f, i, b);
    forall p | Link(t.vol, p) != 0
      ensures Reserved(t.nblocks) <= Link(t.vol, p) < t.nblocks && !IsFree(t, Link(t.vol, p))
    { assert Link(t.vol, p) == if p == Data(f, i) then b else Link(s.vol, p); }
    forall p, q | Link(t.vol, p) != 0 && Link(t.vol, p) == Link(t.vol, q) ensures p == q {
      assert Link(t.vol, p) == if p == Data(f, i) then b else Link(s.vol, p);
      assert Link(t.vol, q) == if q == Data(f, i) then b else Link(s.vol, q);
    }
  }

  lemma SlotKeepsCache(s: Server, f: FileId, i: nat, b: nat)
    requires Typed(s) && ReservedAreUsed(s) && DiskIsSafe(s) && CacheOk(s)
    requires HasSlot(s.vol, f, i) && (i >= NDIRECT ==> s.vol.files[f].indirect in s.cached)
    ensures var t := s.(vol := SetSlot(s.vol, f, i, b));
      Typed(t) && ReservedAreUsed(t) && DiskIsSafe(t) && CacheOk(t)
  {
    var t := s.(vol := SetSlot(s.vol, f, i, b));
    assert forall c: nat | c < s.nblocks :: IsFree(t, c) == IsFree(s, c) && IsFreeOnDisk(t, c) == IsFreeOnDisk(s, c);
  }

  /** Word j of the page that the next block will have: as it is in the cache, or zero. */
  function NextWord(s: Server, j: nat): nat
    requires Typed(s) && j < NINDIRECT
  {
    var b := Candidate(s);
    if b < s.nblocks && b in s.cached then s.vol.words[b][j] else 0
  }

  lemma ReadKeepsInv(s: Server, b: nat)
    requires Inv(s) && b < s.nblocks
    ensures var r := ReadBlock(s, b);
      Inv(r.1) && r.1.vol == s.vol && FreeSet(r.1) == FreeSet(s) && (r.0 == 0 ==> b in r.1.cached) && (r.0 == 0 || r.0 == E_NO_MEM)
  {
    var t := ReadBlock(s, b).1;
    assert t.vol.words == s.vol.words;
    assert forall c: nat | c < s.nblocks :: IsFree(t, c) == IsFree(s, c) && IsFreeOnDisk(t, c) == IsFreeOnDisk(s, c);
    forall p | Link(t.vol, p) != 0
      ensures Reserved(t.nblocks) <= Link(t.vol, p) < t.nblocks && !IsFree(t, Link(t.vol, p))
    { assert Link(t.vol, p) == Link(s.vol, p); }
  }

  /** The table that f has now and had not before. */
  ghost function NewTableOf(s: Server, t: Server, f: FileId): set<nat> {
    OwnedTable(t.vol, f) - OwnedTable(s.vol, f)
  }

  /** Link p once a walk has been through: the slots of a table that f has got hold what
      its page held, all others are as before. */
  ghost function LinkAfterWalk(s: Server, t: Server, f: FileId, p: Place): nat
    requires Typed(s)
  {
    if NewTableOf(s, t, f) != {} && p.Data? && p.f == f && NDIRECT <= p.i < NINDIRECT then NextWord(s, p.i)
    else Link(s.vol, p)
  }

  /** A walk to slot i of f has to make a table. */
  predicate NeedsTable(s: Server, f: FileId, i: nat, alloc: bool)
    requires f in s.vol.files
  { alloc && NDIRECT <= i < NINDIRECT && s.vol.files[f].indirect == 0 }

  /** No block past the super block and below b is free. */
  predicate IsLeast(s: Server, b: nat)
    requires Typed(s)
  { forall c: nat | 3 <= c < b && c < s.nblocks :: !IsFree(s, c) }

  /** What a walk does to the links: nothing, unless it hangs a new table into f. */
  lemma WalkKeepsInv(s: Server, f: FileId, i: nat, alloc: bool)
    requires Inv(s) && f in s.vol.files && (NeedsTable(s, f, i, alloc) ==> NextIsHarmless(s))
    ensures var w := Walk(s, f, i, alloc);
      && Inv(w.1) && w.1.nblocks == s.nblocks && f in w.1.vol.files
      && FreeSet(w.1) == FreeSet(s) - NewTableOf(s, w.1, f) && NewTableOf(s, w.1, f) <= FreeSet(s)
      && (forall c | c in NewTableOf(s, w.1, f) :: IsLeast(s, c))
      && (w.0 == 0 ==> HasSlot(w.1.vol, f, i) && (i >= NDIRECT ==> w.1.vol.files[f].indirect in w.1.cached))
      && (forall p | p != Table(f) :: Link(w.1.vol, p) == LinkAfterWalk(s, w.1, f, p))
  {
    hide Exclusive, OwnedAreUsed, ReservedAreUsed, DiskIsSafe, CacheOk, NextIsHarmless;
    WalkIsTyped(s, f, i, alloc);
    if NDIRECT <= i < NINDIRECT {
      if s.vol.files[f].indirect != 0 {
        TableIsBlock(s, f);
        ReadKeepsInv(s, s.vol.files[f].indirect);
      } else if alloc {
        NewTable(s, f);
      }
    }
  }

  lemma TableIsBlock(s: Server, f: FileId)
    requires Inv(s) && f in s.vol.files && s.vol.files[f].indirect != 0
    ensures Reserved(s.nblocks) <= s.vol.files[f].indirect < s.nblocks
  {
    assert Link(s.vol, Table(f)) == s.vol.files[f].indirect;
  }

  lemma NewTable(s: Server, f: FileId)
    requires Inv(s) && f in s.vol.files && s.vol.files[f].indirect == 0 && NextIsHarmless(s)
    ensures var a := AllocBlock(s);
      && Typed(a.1) && f in a.1.vol.files
      && var t := if a.0 < 0 then a.1 else a.1.(vol := SetTable(a.1.vol, f, a.0));
        && Inv(t) && t.nblocks == s.nblocks && (a.0 >= 0 ==> a.0 in t.cached)
        && FreeSet(t) == FreeSet(s) - NewTableOf(s, t, f) && NewTableOf(s, t, f) <= FreeSet(s)
        && (forall c | c in NewTableOf(s, t, f) :: IsLeast(s, c))
        && forall p | p != Table(f) :: Link(t.vol, p) == LinkAfterWalk(s, t, f, p)
  {
    hide Exclusive, OwnedAreUsed, ReservedAreUsed, DiskIsSafe, CacheOk, Link, Harmless;
    AllocShape(s);
    AllocKeepsInv(s);
    var a := AllocBlock(s);
    if a.0 >= 0 {
      var b, u := a.0, a.1;
      AllocatedIsLoose(s, b, u);
      TableKeepsInvIff(u, f, b);
      WithTable(u, f, b);
      AllocatedFree(s, b, u);
      var t := u.(vol := SetTable(u.vol, f, b));
      assert Link(s.vol, Table(f)) == 0 && Link(t.vol, Table(f)) == b;
      assert NewTableOf(s, t, f) == {b};
      assert FreeSet(t) == FreeSet(u);
    }
  }

  /** The next block, once it is mapped, may be a table of links. */
  ghost predicate NextIsHarmless(s: Server)
    requires Inv(s)
  {
    AllocKeepsInv(s);
    var a := AllocBlock(s);
    a.0 >= 0 ==> a.0 < a.1.nblocks && Harmless(a.1, a.0)
  }

  /** A walk that has to make a table keeps the invariant exactly when the page of the
      next block is harmless. */
  lemma WalkKeepsInvIff(s: Server, f: FileId, i: nat)
    requires Inv(s) && f in s.vol.files && NDIRECT <= i < NINDIRECT && s.vol.files[f].indirect == 0
    ensures Inv(Walk(s, f, i, true).1) <==> NextIsHarmless(s)
  {
    hide Exclusive, OwnedAreUsed, ReservedAreUsed, DiskIsSafe, CacheOk, Harmless, Link;
    AllocShape(s);
    AllocKeepsInv(s);
    var a := AllocBlock(s);
    if a.0 >= 0 {
      AllocatedIsLoose(s, a.0, a.1);
      TableKeepsInvIff(a.1, f, a.0);
    }
  }

  /** The block that slot i of f names now and, once the walk was through, did not. */
  ghost function NewDataOf(s: Server, t: Server, f: FileId, i: nat): set<nat>
    requires Typed(s)
  {
    if LinkAfterWalk(s, t, f, Data(f, i)) == 0 && Link(t.vol, Data(f, i)) != 0 then {Link(t.vol, Data(f, i))} else {}
  }

  lemma OwnedOne(v: Volume, f: FileId, i: nat)
    ensures Owned(v, f, i, i + 1) == if Link(v, Data(f, i)) != 0 then {Link(v, Data(f, i))} else {}
  {}

  lemma AllocatedFree(s: Server, b: nat, t: Server)
    requires Typed(s) && Allocated(s, b, t)
    ensures FreeSet(t) == FreeSet(s) - {b} && b in FreeSet(s)
  {}

  /** The second half of file_map_block: fill an empty slot. */
  lemma FillSlot(s: Server, f: FileId, i: nat)
    requires Inv(s) && HasSlot(s.vol, f, i) && Link(s.vol, Data(f, i)) == 0
    requires i >= NDIRECT ==> s.vol.files[f].indirect in s.cached
    ensures var a := AllocBlock(s);
      && Typed(a.1) && (a.0 >= 0 ==> HasSlot(a.1.vol, f, i))
      && var t := if a.0 < 0 then a.1 else a.1.(vol := SetSlot(a.1.vol, f, i, a.0));
        && Inv(t) && t.nblocks == s.nblocks
        && (forall p | p != Data(f, i) :: Link(t.vol, p) == Link(s.vol, p))
        && (a.0 >= 0 ==> a.0 != 0 && Link(t.vol, Data(f, i)) == a.0)
        && FreeSet(t) == FreeSet(s) - NewDataOf(s, t, f, i) && NewDataOf(s, t, f, i) <= FreeSet(s)
        && (forall c | c in NewDataOf(s, t, f, i) :: IsLeast(s, c))
  {
    hide Exclusive, OwnedAreUsed, ReservedAreUsed, DiskIsSafe, CacheOk, Link;
    AllocShape(s);
    AllocKeepsInv(s);
    var a := AllocBlock(s);
    if a.0 >= 0 {
      AllocatedIsLoose(s, a.0, a.1);
      AllocatedFree(s, a.0, a.1);
      AllocKeepsCached(s, a.0, a.1, f, i);
      SlotKeepsInv(a.1, f, i, a.0);
      var t := a.1.(vol := SetSlot(a.1.vol, f, i, a.0));
      assert FreeSet(t) == FreeSet(a.1);
    }
  }

  /** What growth promises: file_map_block never puts a block into two places.  The
      blocks that f gains as its table and in slot i are exactly those that stop being
      free, the least ones past the super block; all other slots are as before, except
      that those of a new table are what the page of its block held. */
  lemma GrowthKeepsOwnership(s: Server, f: FileId, i: nat, alloc: bool)
    requires Inv(s) && f in s.vol.files && (NeedsTable(s, f, i, alloc) ==> NextIsHarmless(s))
    ensures var m := FileMap(s, f, i, alloc);
      && Inv(m.2) && m.2.nblocks == s.nblocks
      && (m.0 == 0 ==> m.1 != 0 && Link(m.2.vol, Data(f, i)) == m.1)
      && (forall p | p != Table(f) && p != Data(f, i) :: Link(m.2.vol, p) == LinkAfterWalk(s, m.2, f, p))
      && (var b := LinkAfterWalk(s, m.2, f, Data(f, i)); b != 0 ==> Link(m.2.vol, Data(f, i)) == b)
      && FreeSet(m.2) == FreeSet(s) - NewTableOf(s, m.2, f) - NewDataOf(s, m.2, f, i)
      && NewTableOf(s, m.2, f) + NewDataOf(s, m.2, f, i) <= FreeSet(s) && NewTableOf(s, m.2, f) !! NewDataOf(s, m.2, f, i)
      && (forall c, d: nat | c in NewDataOf(s, m.2, f, i) && 3 <= d < c && d in FreeSet(s) :: d in NewTableOf(s, m.2, f))
      && (forall c | c in NewTableOf(s, m.2, f) :: IsLeast(s, c))
  {
    hide Exclusive, OwnedAreUsed, ReservedAreUsed, DiskIsSafe, CacheOk, Link, Walk, AllocBlock, NextIsHarmless, NextWord;
    WalkKeepsInv(s, f, i, alloc);
    WalkIsTyped(s, f, i, alloc);
    WalkNotPositive(s, f, i, alloc);
    var w := Walk(s, f, i, alloc);
    if w.0 == 0 && alloc && Link(w.1.vol, Data(f, i)) == 0 {
      FillSlot(w.1, f, i);
      var m := FileMap(s, f, i, alloc);
      assert NewTableOf(s, m.2, f) == NewTableOf(s, w.1, f);
      assert forall p :: LinkAfterWalk(s, m.2, f, p) == LinkAfterWalk(s, w.1, f, p);
      forall c, d: nat | c in NewDataOf(s, m.2, f, i) && 3 <= d < c && d in FreeSet(s)
        ensures d in NewTableOf(s, m.2, f)
      {
        assert c in NewDataOf(w.1, m.2, f, i) && IsLeast(w.1, c);
        assert d !in FreeSet(w.1);
      }
    }
  }

  /** file_map_block keeps the invariant exactly when a table that it has to make meets
      a harmless page: what follows the walk repairs nothing. */
  lemma GrowthKeepsInvIff(s: Server, f: FileId, i: nat, alloc: bool)
    requires Inv(s) && f in s.vol.files
    ensures Inv(FileMap(s, f, i, alloc).2) <==> (NeedsTable(s, f, i, alloc) ==> NextIsHarmless(s))
  {
    hide Exclusive, OwnedAreUsed, ReservedAreUsed, DiskIsSafe, CacheOk, Link, Walk, FileMap, AllocBlock, NextIsHarmless;
    if NeedsTable(s, f, i, alloc) ==> NextIsHarmless(s) {
      GrowthKeepsOwnership(s, f, i, alloc);
    } else if Inv(FileMap(s, f, i, alloc).2) {
      GrownIsHarmless(s, f, i);
    }
  }

  // ----- when file_map_block answers what

  /** The answers of syscall_mem_alloc that are left after one more, if it was asked. */
  function After(mem: seq<bool>, asked: bool): seq<bool> { if asked && mem != [] then mem[1..] else mem }

  predicate Granted(mem: seq<bool>) { mem != [] && mem[0] }

  /** Block b is on the disk, and has a page or gets one. */
  predicate Obtainable(s: Server, b: nat, mem: seq<bool>) { b < s.nblocks && (b in s.cached || Granted(mem)) }

  /** alloc_block gives block b exactly when b is the least free one and its page is to be
      had; it finds no block exactly when none is free. */
  lemma AllocAnswers(s: Server, b: nat)
    requires Typed(s) && 3 <= b < s.nblocks && IsFree(s, b) && IsLeast(s, b)
    ensures var a := AllocBlock(s);
      && a.0 == (if b in s.cached || (s.mem != [] && s.mem[0]) then b else E_NO_MEM)
      && a.1.mem == (if b !in s.cached && s.mem != [] then s.mem[1..] else s.mem)
      && (a.0 == b ==> a.1.cached == s.cached + {b})
  {
    LeastIsCandidate(s, b);
    TakeLeaves(s, b);
  }

  lemma TakeLeaves(s: Server, b: nat)
    requires Typed(s) && b < s.nblocks
    ensures var t := TakeBlock(s, b); t.mem == s.mem && t.cached == s.cached && Typed(t) && t.nblocks == s.nblocks
  {
    WordOfBlock(s.nblocks, b);
  }

  lemma LeastIsCandidate(s: Server, b: nat)
    requires Typed(s) && 3 <= b < s.nblocks && IsFree(s, b) && IsLeast(s, b)
    ensures Candidate(s) == b
  {}

  /** The least free block past the super block but for block b, or nblocks. */
  ghost predicate IsNextBut(s: Server, b: nat, c: nat)
    requires Typed(s)
  {
    && (c == s.nblocks || (3 <= c < s.nblocks && IsFree(s, c) && c != b))
    && forall d: nat | 3 <= d < c && d < s.nblocks && d != b :: !IsFree(s, d)
  }

  /** The table of f, where slot i needs one, is at hand or can be read. */
  predicate TableAtHand(s: Server, f: FileId, i: nat)
    requires f in s.vol.files
  { i < NDIRECT || s.vol.files[f].indirect in s.cached || Granted(s.mem) }

  /** Reading it asks for a page. */
  predicate ReadsTable(s: Server, f: FileId, i: nat)
    requires f in s.vol.files
  { i >= NDIRECT && s.vol.files[f].indirect !in s.cached }

  /** What file_map_block should answer; b1 and b2 are the two least free blocks. */
  function MapAnswer(s: Server, f: FileId, i: nat, alloc: bool, b1: nat, b2: nat): int
    requires Typed(s) && f in s.vol.files
  {
    if i >= NINDIRECT then E_INVAL
    else if i < NDIRECT || s.vol.files[f].indirect != 0 then
      if !TableAtHand(s, f, i) then E_NO_MEM
      else if Link(s.vol, Data(f, i)) != 0 then 0
      else if !alloc then E_NOT_FOUND
      else if b1 == s.nblocks then E_NO_DISK
      else if Obtainable(s, b1, After(s.mem, ReadsTable(s, f, i))) then 0 else E_NO_MEM
    else if !alloc then E_NOT_FOUND
    else if b1 == s.nblocks then E_NO_DISK
    else if !Obtainable(s, b1, s.mem) then E_NO_MEM
    else if b1 in s.cached && s.vol.words[b1][i] != 0 then 0       // left over on the page
    else if b2 == s.nblocks then E_NO_DISK
    else if Obtainable(s, b2, After(s.mem, b1 !in s.cached)) then 0 else E_NO_MEM
  }

  lemma NoneIsLeft(s: Server)
    requires Typed(s) && forall d: nat | 3 <= d < s.nblocks :: !IsFree(s, d)
    ensures AllocBlock(s) == (E_NO_DISK, s)
  {
    assert Candidate(s) == s.nblocks;
  }

  /** The answer of an allocation, given the least free block or nblocks. */
  lemma AllocGives(s: Server, b: nat)
    requires Typed(s) && (b == s.nblocks || (3 <= b < s.nblocks && IsFree(s, b))) && IsLeast(s, b)
    ensures AllocBlock(s).0 == if b == s.nblocks then E_NO_DISK else if Obtainable(s, b, s.mem) then b else E_NO_MEM
  {
    if b == s.nblocks { NoneIsLeft(s); } else { AllocAnswers(s, b); }
  }

  /** file_map_block answers 0 exactly when the slot names a block that can be reached, or
      one may be allocated and blocks and pages suffice, for a table where it is missing
      too; and with the right error in every other case. */
  lemma MapAnswers(s: Server, f: FileId, i: nat, alloc: bool, b1: nat, b2: nat)
    requires Inv(s) && f in s.vol.files
    requires IsNextBut(s, s.nblocks, b1) && IsNextBut(s, b1, b2)
    ensures FileMap(s, f, i, alloc).0 == MapAnswer(s, f, i, alloc, b1, b2)
  {
    hide Exclusive, OwnedAreUsed, ReservedAreUsed, DiskIsSafe, CacheOk, Link, AllocBlock, IsNextBut;
    NextIsLeast(s, b1);
    if i >= NINDIRECT {
    } else if i < NDIRECT || s.vol.files[f].indirect != 0 {
      MapsWithTable(s, f, i, alloc, b1);
    } else if alloc {
      MapsWithoutTable(s, f, i, b1, b2);
    }
  }

  lemma NextIsLeast(s: Server, b1: nat)
    requires Typed(s) && IsNextBut(s, s.nblocks, b1)
    ensures b1 <= s.nblocks && (b1 < s.nblocks ==> 3 <= b1 && IsFree(s, b1)) && IsLeast(s, b1)
  {}

  lemma MapsWithTable(s: Server, f: FileId, i: nat, alloc: bool, b1: nat)
    requires Inv(s) && f in s.vol.files && i < NINDIRECT && (i < NDIRECT || s.vol.files[f].indirect != 0)
    requires b1 <= s.nblocks && (b1 < s.nblocks ==> 3 <= b1 && IsFree(s, b1)) && IsLeast(s, b1)
    ensures FileMap(s, f, i, alloc).0 == MapAnswer(s, f, i, alloc, b1, b1)
  {
    hide Exclusive, OwnedAreUsed, ReservedAreUsed, DiskIsSafe, CacheOk, Link, AllocBlock;
    WalkIsTyped(s, f, i, alloc);
    if i >= NDIRECT {
      TableIsBlock(s, f);
      TableIsUsed(s, f);
      ReadKeepsInv(s, s.vol.files[f].indirect);
    }
    var w := Walk(s, f, i, alloc);
    if w.0 == 0 {
      SameBlocks(s, w.1, b1);
      AllocGives(w.1, b1);
    }
  }

  lemma TableIsUsed(s: Server, f: FileId)
    requires Inv(s) && f in s.vol.files && 0 < s.vol.files[f].indirect < s.nblocks
    ensures !IsFree(s, s.vol.files[f].indirect)
  {
    assert Link(s.vol, Table(f)) == s.vol.files[f].indirect;
  }

  /** A page more for a used block changes nothing for free ones. */
  lemma SameBlocks(s: Server, t: Server, b: nat)
    requires Typed(s) && Typed(t) && t.nblocks == s.nblocks && t.bits == s.bits && b <= s.nblocks && IsLeast(s, b)
    ensures IsLeast(t, b) && (b < s.nblocks ==> IsFree(t, b) == IsFree(s, b))
  {
    assert forall c: nat | c < s.nblocks :: IsFree(t, c) == IsFree(s, c);
  }

  lemma MapsWithoutTable(s: Server, f: FileId, i: nat, b1: nat, b2: nat)
    requires Inv(s) && f in s.vol.files && NDIRECT <= i < NINDIRECT && s.vol.files[f].indirect == 0
    requires b1 <= s.nblocks && (b1 < s.nblocks ==> 3 <= b1 && IsFree(s, b1)) && IsLeast(s, b1) && IsNextBut(s, b1, b2)
    ensures FileMap(s, f, i, true).0 == MapAnswer(s, f, i, true, b1, b2)
  {
    hide Exclusive, OwnedAreUsed, ReservedAreUsed, DiskIsSafe, CacheOk, AllocBlock;
    AllocGives(s, b1);
    if b1 < s.nblocks && Obtainable(s, b1, s.mem) {
      AllocAnswers(s, b1);
      AllocShape(s);
      AllocKeepsInv(s);
      WalkIsTyped(s, f, i, true);
      var u := AllocBlock(s).1;
      var w := u.(vol := SetTable(u.vol, f, b1));
      assert Walk(s, f, i, true) == (0, w);
      assert Link(w.vol, Data(f, i)) == if b1 in s.cached then s.vol.words[b1][i] else 0;
      SecondIsLeast(s, u, w, b1, b2);
      AllocGives(w, b2);
    }
  }

  lemma SecondIsLeast(s: Server, u: Server, w: Server, b1: nat, b2: nat)
    requires Typed(s) && b1 < s.nblocks && Allocated(s, b1, u) && IsNextBut(s, b1, b2)
    requires Typed(w) && w.nblocks == s.nblocks && w.bits == u.bits
    ensures b2 <= s.nblocks && (b2 < s.nblocks ==> 3 <= b2 && IsFree(w, b2) && b2 != b1) && IsLeast(w, b2)
  {
    assert forall c: nat | c < s.nblocks :: IsFree(w, c) == IsFree(u, c);
  }

  lemma GrownIsHarmless(s: Server, f: FileId, i: nat)
    requires Inv(s) && f in s.vol.files && NeedsTable(s, f, i, true) && Inv(FileMap(s, f, i, true).2)
    ensures NextIsHarmless(s)
  {
    hide Exclusive, OwnedAreUsed, ReservedAreUsed, CacheOk, Link, Harmless, AllocBlock;
    AllocShape(s);
    AllocKeepsInv(s);
    var a := AllocBlock(s);
    if a.0 >= 0 {
      var b, u := a.0, a.1;
      AllocatedIsLoose(s, b, u);
      WithTable(u, f, b);
      TableKeepsInvIff(u, f, b);
      var w := u.(vol := SetTable(u.vol, f, b));
      assert Walk(s, f, i, true) == (0, w);
      AllocShape(w);
      if Link(w.vol, Data(f, i)) == 0 { FilledIsHarmless(u, f, b, i); }
    }
  }

  /** Filling slot i of the new table b of f makes nothing harmless. */
  lemma FilledIsHarmless(s: Server, f: FileId, b: nat, i: nat)
    requires Inv(s) && f in s.vol.files && s.vol.files[f].indirect == 0 && Loose(s, b) && b in s.cached
    requires NDIRECT <= i < NINDIRECT && s.vol.words[b][i] == 0
    requires var w := s.(vol := SetTable(s.vol, f, b));
      && Typed(w)
      && var a := AllocBlock(w);
        && Typed(a.1) && (a.0 >= 0 ==> HasSlot(a.1.vol, f, i))
        && Inv(if a.0 < 0 then a.1 else a.1.(vol := SetSlot(a.1.vol, f, i, a.0)))
    ensures Harmless(s, b)
  {
    hide Exclusive, OwnedAreUsed, ReservedAreUsed, CacheOk, Link, Harmless, AllocBlock;
    var w := s.(vol := SetTable(s.vol, f, b));
    WithTable(s, f, b);
    AllocTakes(w);
    var a := AllocBlock(w);
    if a.0 < 0 {
      assert forall d: nat | d < s.nblocks :: IsFree(a.1, d) == IsFree(s, d) by {
        assert forall d: nat | d < s.nblocks :: IsFree(a.1, d) <==> d in FreeSet(w);
      }
      KeptIsHarmless(s, f, b, a.1, i, 0);
    } else {
      TablesStay(s, f, b, a.0, a.1);
      var t := a.1.(vol := SetSlot(a.1.vol, f, i, a.0));
      forall p ensures Link(t.vol, p) == if p == Data(f, i) then a.0 else LinkWithTable(s.vol, f, b, p) {
        SetSlotLinks(a.1.vol, f, i, a.0, p);
      }
      assert forall d: nat | d < s.nblocks && d != a.0 :: IsFree(t, d) == IsFree(w, d) && IsFree(w, d) == IsFree(s, d);
      KeptIsHarmless(s, f, b, t, i, a.0);
    }
  }

  /** The next allocation, of c, leaves all links alone, and the new table unshared. */
  lemma TablesStay(s: Server, f: FileId, b: nat, c: nat, t: Server)
    requires Inv(s) && f in s.vol.files && s.vol.files[f].indirect == 0 && Loose(s, b)
    requires Typed(s.(vol := SetTable(s.vol, f, b))) && Allocated(s.(vol := SetTable(s.vol, f, b)), c, t)
    ensures Unshared(t.vol, f) && forall p :: Link(t.vol, p) == LinkWithTable(s.vol, f, b, p)
  {
    hide Exclusive, ReservedAreUsed, DiskIsSafe, CacheOk, Link;
    var w := s.(vol := SetTable(s.vol, f, b));
    WithTable(s, f, b);
    forall g ensures Link(w.vol, Table(g)) != c || c == 0 {
      assert Link(w.vol, Table(g)) == LinkWithTable(s.vol, f, b, Table(g));
      assert IsFree(s, c);
    }
    SameLinks(w.vol, t.vol, c);
    forall g | g != f ensures Link(t.vol, Table(g)) != Link(t.vol, Table(f)) {
      assert Link(t.vol, Table(g)) == LinkWithTable(s.vol, f, b, Table(g)) && Link(t.vol, Table(f)) == b;
    }
  }

  /** Whatever a new table holds, blocks can still be allocated after the walk. */
  lemma WalkKeepsCache(s: Server, f: FileId, i: nat, alloc: bool)
    requires Inv(s) && f in s.vol.files
    ensures var w := Walk(s, f, i, alloc); Typed(w.1) && CacheOk(w.1)
  {
    hide Exclusive, OwnedAreUsed, ReservedAreUsed, DiskIsSafe, CacheOk, NextIsHarmless, Link, AllocBlock;
    if NeedsTable(s, f, i, alloc) {
      AllocShape(s);
      AllocKeepsInv(s);
      var a := AllocBlock(s);
      if a.0 >= 0 {
        AllocatedIsLoose(s, a.0, a.1);
        WithTable(a.1, f, a.0);
      }
    } else {
      WalkKeepsInv(s, f, i, alloc);
    }
  }

  lemma WalkNotPositive(s: Server, f: FileId, i: nat, alloc: bool)
    requires Inv(s) && f in s.vol.files
    ensures Walk(s, f, i, alloc).0 <= 0
  {}

  lemma AllocKeepsCached(s: Server, b: nat, t: Server, f: FileId, i: nat)
    requires Inv(s) && AllocBlock(s) == (b, t) && Allocated(s, b, t) && HasSlot(s.vol, f, i)
    requires i >= NDIRECT ==> s.vol.files[f].indirect in s.cached
    ensures HasSlot(t.vol, f, i) && (i >= NDIRECT ==> t.vol.files[f].indirect in t.cached)
  {}

  // ----- truncating a file

  /** ROUND(size, BLOCK_SIZE) / BLOCK_SIZE on a 32-bit u_long. */
  function BlocksOf(size: nat): nat { (size + BLOCK_SIZE - 1) % 0x1_0000_0000 / BLOCK_SIZE }

  /** Only a missing table or a number past the table stops file_clear_block, or a
      table that is not in the cache and gets no page. */
  predicate CanClear(s: Server, f: FileId, i: nat)
    requires f in s.vol.files
  {
    i < NDIRECT ||
    (i < NINDIRECT && s.vol.files[f].indirect != 0 && (s.vol.files[f].indirect in s.cached || HasMem(s)))
  }

  lemma ClearKeepsInv(s: Server, f: FileId, i: nat)
    requires Inv(s) && f in s.vol.files
    ensures var c := Clear(s, f, i);
      && Inv(c.1) && c.1.nblocks == s.nblocks && f in c.1.vol.files
      && c.1.vol.files[f].size == s.vol.files[f].size && c.1.vol.files[f].indirect == s.vol.files[f].indirect
      && (c.0 >= 0 <==> CanClear(s, f, i))
      && (c.0 >= 0 ==>
        && FreeSet(c.1) == FreeSet(s) + Owned(s.vol, f, i, i + 1)
        && (forall p :: Link(c.1.vol, p) == if p == Data(f, i) then 0 else Link(s.vol, p)))
      && (c.0 < 0 ==> c.1.vol == s.vol && FreeSet(c.1) == FreeSet(s))
  {
    hide Exclusive, OwnedAreUsed, ReservedAreUsed, DiskIsSafe, CacheOk;
    WalkKeepsInv(s, f, i, false);
    WalkIsTyped(s, f, i, false);
    WalkReads(s, f, i);
    var w := Walk(s, f, i, false);
    OwnedOne(s.vol, f, i);
    if w.0 >= 0 && Link(w.1.vol, Data(f, i)) != 0 {
      EmptySlot(w.1, f, i);
    }
  }

  lemma WalkReads(s: Server, f: FileId, i: nat)
    requires Inv(s) && f in s.vol.files
    ensures var w := Walk(s, f, i, false);
      && w.1.vol == s.vol && FreeSet(w.1) == FreeSet(s) && (w.0 == 0 <==> CanClear(s, f, i)) && w.0 <= 0
      && (w.0 == 0 && i >= NDIRECT ==> s.vol.files[f].indirect in w.1.cached)
      && s.cached <= w.1.cached && (i < NDIRECT ==> w.1 == s)
  {
    if NDIRECT <= i < NINDIRECT && s.vol.files[f].indirect != 0 {
      TableIsBlock(s, f);
      ReadKeepsInv(s, s.vol.files[f].indirect);
    }
  }

  /** Freeing the block of a slot and emptying the slot. */
  lemma EmptySlot(s: Server, f: FileId, i: nat)
    requires Inv(s) && HasSlot(s.vol, f, i) && Link(s.vol, Data(f, i)) != 0
    requires i >= NDIRECT ==> s.vol.files[f].indirect in s.cached
    ensures var b := Link(s.vol, Data(f, i));
      var t := FreeBlock(s, b).(vol := SetSlot(s.vol, f, i, 0));
      && Inv(t) && FreeSet(t) == FreeSet(s) + {b}
      && (forall p :: Link(t.vol, p) == if p == Data(f, i) then 0 else Link(s.vol, p))
  {
    hide Link;
    var b := Link(s.vol, Data(f, i));
    var u := s.(vol := SetSlot(s.vol, f, i, 0));
    forall p ensures Link(u.vol, p) == if p == Data(f, i) then 0 else Link(s.vol, p)
    { ExclusiveIsUnshared(s.vol, f); SetSlotLinks(s.vol, f, i, 0, p); }
    SlotKeepsCache(s, f, i, 0);
    FewerLinks(s, u);
    FreeKeepsInv(u, b);
    FreedOne(u, b);
  }

  lemma FreedOne(s: Server, b: nat)
    requires Typed(s) && b < s.nblocks && Typed(FreeBlock(s, b))
    requires forall c: nat | c < s.nblocks :: IsFree(FreeBlock(s, b), c) == (c == b || IsFree(s, c))
    ensures FreeSet(FreeBlock(s, b)) == FreeSet(s) + {b}
  {}

  /** Taking links away keeps the rest exclusive and used. */
  lemma FewerLinks(s: Server, t: Server)
    requires Typed(s) && Exclusive(s.vol) && OwnedAreUsed(s) && Typed(t) && t.nblocks == s.nblocks && t.bits == s.bits
    requires forall p :: Link(t.vol, p) == 0 || Link(t.vol, p) == Link(s.vol, p)
    ensures Exclusive(t.vol) && OwnedAreUsed(t)
  {
    forall p | Link(t.vol, p) != 0
      ensures Reserved(t.nblocks) <= Link(t.vol, p) < t.nblocks && !IsFree(t, Link(t.vol, p))
    { assert Link(t.vol, p) == Link(s.vol, p); }
    forall p, q | Link(t.vol, p) != 0 && Link(t.vol, p) == Link(t.vol, q) ensures p == q {
      assert Link(t.vol, p) == Link(s.vol, p) && Link(t.vol, q) == Link(s.vol, q);
    }
  }

  /** The loop of file_truncate; it stops at the first slot it cannot clear. */
  ghost function ClearFrom(s: Server, f: FileId, lo: nat, hi: nat): (bool, Server)
    requires Inv(s) && f in s.vol.files
    decreases hi - lo
  {
    if lo >= hi then (true, s)
    else
      ClearKeepsInv(s, f, lo);
      var c := Clear(s, f, lo);
      if c.0 < 0 then (false, c.1) else ClearFrom(c.1, f, lo + 1, hi)
  }

  /** The loop gets through exactly when its last slot could be cleared at once. */
  lemma {:induction false} ClearFromFrees(s: Server, f: FileId, lo: nat, hi: nat)
    requires Inv(s) && f in s.vol.files
    ensures var c := ClearFrom(s, f, lo, hi);
      && Inv(c.1) && c.1.nblocks == s.nblocks && f in c.1.vol.files
      && c.1.vol.files[f].indirect == s.vol.files[f].indirect
      && (c.0 <==> lo >= hi || CanClear(s, f, hi - 1))
      && (c.0 ==>
        && FreeSet(c.1) == FreeSet(s) + Owned(s.vol, f, lo, hi)
        && (forall p :: Link(c.1.vol, p) == if p.Data? && p.f == f && lo <= p.i < hi then 0 else Link(s.vol, p)))
    decreases hi - lo
  {
    hide Inv, Link, FreeSet, Owned;
    if lo >= hi {
      OwnedNone(s.vol, f, lo, hi);
    } else {
      ClearKeepsInv(s, f, lo);
      var c := Clear(s, f, lo);
      if c.0 >= 0 {
        ClearFromFrees(c.1, f, lo + 1, hi);
        OwnedSplit(s.vol, c.1.vol, f, lo, hi);
        CanClearLater(s, f, lo, hi);
      } else {
        assert !CanClear(s, f, hi - 1);
      }
    }
  }

  lemma OwnedNone(v: Volume, f: FileId, lo: nat, hi: nat)
    requires lo >= hi
    ensures Owned(v, f, lo, hi) == {}
  {}

  lemma OwnedSplit(v: Volume, u: Volume, f: FileId, lo: nat, hi: nat)
    requires lo < hi && forall i | lo < i < hi :: Link(u, Data(f, i)) == Link(v, Data(f, i))
    ensures Owned(v, f, lo, hi) == Owned(v, f, lo, lo + 1) + Owned(u, f, lo + 1, hi)
  {
    hide Link;
    forall b | b in Owned(v, f, lo, hi) ensures b in Owned(v, f, lo, lo + 1) + Owned(u, f, lo + 1, hi) {
      var i :| lo <= i < hi && Link(v, Data(f, i)) != 0 && b == Link(v, Data(f, i));
      if i > lo { assert Link(u, Data(f, i)) == b; }
    }
    forall b | b in Owned(u, f, lo + 1, hi) ensures b in Owned(v, f, lo, hi) {
      var i :| lo + 1 <= i < hi && Link(u, Data(f, i)) != 0 && b == Link(u, Data(f, i));
      assert Link(v, Data(f, i)) == b;
    }
  }

  lemma CanClearLater(s: Server, f: FileId, lo: nat, hi: nat)
    requires Inv(s) && f in s.vol.files && lo < hi && CanClear(s, f, lo)
    ensures var c := Clear(s, f, lo);
      f in c.1.vol.files && (lo + 1 < hi ==> (CanClear(c.1, f, hi - 1) <==> CanClear(s, f, hi - 1)))
  {
    WalkIsTyped(s, f, lo, false);
    WalkReads(s, f, lo);
    var w := Walk(s, f, lo, false);
    var c := Clear(s, f, lo);
    assert c.1.cached == w.1.cached && c.1.mem == w.1.mem;
    assert c.1.vol.files[f].indirect == s.vol.files[f].indirect;
  }

  /** Free the table of f and forget it. */
  function DropTable(s: Server, f: FileId): Server
    requires Typed(s) && f in s.vol.files
  {
    var b := s.vol.files[f].indirect;
    if b == 0 then s else FreeBlock(s, b).(vol := SetTable(s.vol, f, 0))
  }

  lemma DropKeepsInv(s: Server, f: FileId)
    requires Inv(s) && f in s.vol.files
    ensures var t := DropTable(s, f);
      && Inv(t) && t.nblocks == s.nblocks && f in t.vol.files && FreeSet(t) == FreeSet(s) + OwnedTable(s.vol, f)
      && forall p :: Link(t.vol, p) == if p == Table(f) || (p.Data? && p.f == f && p.i >= NDIRECT) then 0 else Link(s.vol, p)
  {
    hide Exclusive, OwnedAreUsed;
    var b := s.vol.files[f].indirect;
    assert Link(s.vol, Table(f)) == b;
    if b != 0 {
      TableIsBlock(s, f);
      var u := s.(vol := SetTable(s.vol, f, 0));
      forall p ensures Link(u.vol, p) == if p == Table(f) || (p.Data? && p.f == f && p.i >= NDIRECT) then 0 else Link(s.vol, p)
      { SetTableLinks(s.vol, f, 0, p); }
      assert ReservedAreUsed(u) && DiskIsSafe(u) && CacheOk(u) by {
        assert forall c: nat | c < s.nblocks :: IsFree(u, c) == IsFree(s, c) && IsFreeOnDisk(u, c) == IsFreeOnDisk(s, c);
      }
      FewerLinks(s, u);
      TableIsAlone(s, u, f, b);
      FreeKeepsInv(u, b);
      FreedOne(u, b);
    } else {
      NoTableNoEntries(s.vol, f);
    }
  }

  lemma TableIsAlone(s: Server, u: Server, f: FileId, b: nat)
    requires Exclusive(s.vol) && b != 0 && Link(s.vol, Table(f)) == b && Link(u.vol, Table(f)) == 0
    requires forall p :: Link(u.vol, p) == 0 || Link(u.vol, p) == Link(s.vol, p)
    ensures forall p :: Link(u.vol, p) != b
  {}

  /** The slots that a truncation to newsize clears. */
  function FirstCut(newsize: nat): nat { if newsize == 0 then 0 else BlocksOf(newsize) }

  function EndCut(s: Server, f: FileId): nat
    requires f in s.vol.files
  { BlocksOf(s.vol.files[f].size) }

  /** file_truncate: false when it panics. */
  ghost function Truncate(s: Server, f: FileId, newsize: nat): (bool, Server)
    requires Inv(s) && f in s.vol.files
  {
    var c := ClearFrom(s, f, FirstCut(newsize), EndCut(s, f));
    ClearFromFrees(s, f, FirstCut(newsize), EndCut(s, f));
    if !c.0 then c
    else
      var t := if FirstCut(newsize) <= NDIRECT then DropTable(c.1, f) else c.1;
      (true, t.(vol := t.vol.(files := t.vol.files[f := t.vol.files[f].(size := newsize)])))
  }

  /** Which places a truncation empties. */
  predicate Cut(s: Server, f: FileId, newsize: nat, p: Place)
    requires f in s.vol.files
  {
    && p.f == f
    && (if p.Table? then FirstCut(newsize) <= NDIRECT
        else FirstCut(newsize) <= p.i < EndCut(s, f) || (FirstCut(newsize) <= NDIRECT <= p.i))
  }

  /** What file_truncate cuts off, in bytes: the slots that begin at or past the new size,
      and of them those that the old size reaches, or all of the table when the first ten
      are enough.  No byte below the new size is cut off. */
  lemma CutIsPastTheEnd(s: Server, f: FileId, newsize: nat, i: nat)
    requires f in s.vol.files && s.vol.files[f].size <= NINDIRECT * BLOCK_SIZE && newsize <= NINDIRECT * BLOCK_SIZE
    ensures Cut(s, f, newsize, Data(f, i)) <==>
      && i * BLOCK_SIZE >= newsize
      && (i * BLOCK_SIZE < s.vol.files[f].size || (newsize <= NDIRECT * BLOCK_SIZE && i >= NDIRECT))
    ensures Cut(s, f, newsize, Table(f)) <==> newsize <= NDIRECT * BLOCK_SIZE
  {
    RoundsUp(newsize, i);
    RoundsUp(newsize, NDIRECT);
    RoundsUp(s.vol.files[f].size, i);
  }

  /** The number of blocks for a size is the least that holds it. */
  lemma RoundsUp(size: nat, i: nat)
    requires size <= NINDIRECT * BLOCK_SIZE
    ensures BlocksOf(size) <= i <==> size <= i * BLOCK_SIZE
  {
    var n := size + BLOCK_SIZE - 1;
    assert n % 0x1_0000_0000 == n;
    assert n == n / BLOCK_SIZE * BLOCK_SIZE + n % BLOCK_SIZE;
  }

  lemma SizeIsNoLink(v: Volume, f: FileId, n: nat, p: Place)
    requires f in v.files
    ensures Link(v.(files := v.files[f := v.files[f].(size := n)]), p) == Link(v, p)
  {}

  /** What truncation promises.  It panics unless the last slot it has to clear can be
      reached; else the blocks that become free are exactly those of the cleared slots
      and, when ten slots are enough, the table; all other places are as before. */
  lemma TruncateConserves(s: Server, f: FileId, newsize: nat)
    requires Inv(s) && f in s.vol.files
    ensures var t := Truncate(s, f, newsize);
      var lo, hi := FirstCut(newsize), EndCut(s, f);
      && (t.0 <==> lo >= hi || CanClear(s, f, hi - 1))
      && Inv(t.1) && t.1.nblocks == s.nblocks
      && (t.0 ==>
        && f in t.1.vol.files && t.1.vol.files[f].size == newsize
        && FreeSet(t.1) == FreeSet(s) + Owned(s.vol, f, lo, hi) + (if lo <= NDIRECT then OwnedTable(s.vol, f) else {})
        && (forall p :: Link(t.1.vol, p) == if Cut(s, f, newsize, p) then 0 else Link(s.vol, p)))
  {
    hide Exclusive, OwnedAreUsed, ReservedAreUsed, DiskIsSafe, CacheOk, Link, FreeSet, ClearFrom, DropTable, Owned;
    var lo, hi := FirstCut(newsize), EndCut(s, f);
    ClearFromFrees(s, f, lo, hi);
    var c := ClearFrom(s, f, lo, hi);
    if c.0 {
      if lo <= NDIRECT { DropKeepsInv(c.1, f); }
      var d := if lo <= NDIRECT then DropTable(c.1, f) else c.1;
      ResizeKeepsInv(d, f, newsize);
    }
  }

  lemma ResizeKeepsInv(s: Server, f: FileId, n: nat)
    requires Inv(s) && f in s.vol.files
    ensures var t := s.(vol := s.vol.(files := s.vol.files[f := s.vol.files[f].(size := n)]));
      && Inv(t) && FreeSet(t) == FreeSet(s) && forall p :: Link(t.vol, p) == Link(s.vol, p)
  {
    hide Exclusive, OwnedAreUsed, Link;
    var t := s.(vol := s.vol.(files := s.vol.files[f := s.vol.files[f].(size := n)]));
    forall p ensures Link(t.vol, p) == Link(s.vol, p) { SizeIsNoLink(s.vol, f, n, p); }
    SameOwners(s, t);
    assert forall c: nat | c < s.nblocks :: IsFree(t, c) == IsFree(s, c) && IsFreeOnDisk(t, c) == IsFreeOnDisk(s, c);
  }

  /** Blocks in slots that truncation forgets with the table without freeing them. */
  ghost function Forgotten(s: Server, f: FileId, newsize: nat): set<nat>
    requires f in s.vol.files
  {
    if FirstCut(newsize) > NDIRECT then {}
    else Owned(s.vol, f, if EndCut(s, f) < NDIRECT then NDIRECT else EndCut(s, f), NINDIRECT)
  }

  /** No block is lost by a truncation exactly when no entry of the table past the old
      size is in use: those blocks, and no others, end up used but in no place. */
  lemma LosesExactly(s: Server, f: FileId, newsize: nat, b: nat)
    requires Inv(s) && f in s.vol.files && Truncate(s, f, newsize).0
    ensures Inv(Truncate(s, f, newsize).1)
    ensures Loose(Truncate(s, f, newsize).1, b) <==> Loose(s, b) || b in Forgotten(s, f, newsize)
  {
    hide Exclusive, ReservedAreUsed, DiskIsSafe, CacheOk, Link, Truncate;
    TruncateConserves(s, f, newsize);
    var t := Truncate(s, f, newsize).1;
    if Loose(t, b) && !Loose(s, b) { NotLooseIsForgotten(s, f, newsize, t, b); }
    if b in Forgotten(s, f, newsize) { ForgottenIsLoose(s, f, newsize, t, b); }
    if Loose(s, b) { StaysLoose(s, f, newsize, t, b); }
  }

  /** What TruncateConserves says of the state t after a truncation. */
  ghost predicate TruncatedTo(s: Server, f: FileId, newsize: nat, t: Server)
    requires Typed(s) && f in s.vol.files
  {
    && Typed(t) && t.nblocks == s.nblocks
    && FreeSet(t) == FreeSet(s) + Owned(s.vol, f, FirstCut(newsize), EndCut(s, f))
                     + (if FirstCut(newsize) <= NDIRECT then OwnedTable(s.vol, f) else {})
    && (forall p :: Link(t.vol, p) == if Cut(s, f, newsize, p) then 0 else Link(s.vol, p))
  }

  lemma OwnedHas(v: Volume, f: FileId, lo: nat, hi: nat, p: Place)
    ensures p.Data? && p.f == f && lo <= p.i < hi && Link(v, p) != 0 ==> Link(v, p) in Owned(v, f, lo, hi)
  {}

  lemma NotLooseIsForgotten(s: Server, f: FileId, newsize: nat, t: Server, b: nat)
    requires Typed(s) && f in s.vol.files && TruncatedTo(s, f, newsize, t) && Loose(t, b) && !Loose(s, b)
    ensures b in Forgotten(s, f, newsize)
  {
    hide Link;
    var lo, hi := FirstCut(newsize), EndCut(s, f);
    assert b !in FreeSet(t);
    assert b !in FreeSet(s);
    var p :| Link(s.vol, p) == b;
    assert Cut(s, f, newsize, p);
    assert p.Table? ==> b in OwnedTable(s.vol, f);
    OwnedHas(s.vol, f, lo, hi, p);
    PastTheTable(s.vol, f, p);
  }

  lemma PastTheTable(v: Volume, f: FileId, p: Place)
    ensures p.Data? && p.i >= NINDIRECT ==> Link(v, p) == 0
  {}

  lemma ForgottenIsLoose(s: Server, f: FileId, newsize: nat, t: Server, b: nat)
    requires Typed(s) && Exclusive(s.vol) && OwnedAreUsed(s)
    requires f in s.vol.files && TruncatedTo(s, f, newsize, t) && b in Forgotten(s, f, newsize)
    ensures Loose(t, b)
  {
    hide Link;
    var i :| (if EndCut(s, f) < NDIRECT then NDIRECT else EndCut(s, f)) <= i < NINDIRECT
      && Link(s.vol, Data(f, i)) != 0 && b == Link(s.vol, Data(f, i));
    assert !IsFree(s, b);
    forall j | FirstCut(newsize) <= j < EndCut(s, f) ensures Link(s.vol, Data(f, j)) != b {
      assert Data(f, j) != Data(f, i);
    }
    assert Link(s.vol, Table(f)) != b by { assert Table(f) != Data(f, i); }
    assert b !in FreeSet(t);
    forall p ensures Link(t.vol, p) != b {
      assert Link(s.vol, p) == b ==> p == Data(f, i);
    }
  }

  lemma StaysLoose(s: Server, f: FileId, newsize: nat, t: Server, b: nat)
    requires Typed(s) && f in s.vol.files && TruncatedTo(s, f, newsize, t) && Loose(s, b)
    ensures Loose(t, b)
  {
    hide Link;
    forall i ensures Link(s.vol, Data(f, i)) != b { assert Link(s.vol, Data(f, i)) != b; }
    assert Link(s.vol, Table(f)) != b;
    assert b !in FreeSet(s);
    assert b !in FreeSet(t);
    forall p ensures Link(t.vol, p) != b { assert Link(s.vol, p) != b; }
  }

  // ----- the bitmap on disk

  /** write_block: bitmap blocks come from the bitmap, others from their cache page. */
  function WriteBlock(s: Server, b: nat): Server
    requires Typed(s) && b < s.nblocks
  {
    if 2 <= b < Reserved(s.nblocks) then SaveBitmap(s, b - 2) else s.(disk := s.disk[b := s.vol.words[b]])
  }

  /** Everything that ever writes a bitmap, in memory or on disk. */
  datatype BitmapOp = Take(b: nat) | Free(b: nat) | Write(b: nat)

  function BitmapStep(s: Server, op: BitmapOp): Server
    requires Typed(s)
  {
    match op
    case Take(b) => if b < s.nblocks && IsFree(s, b) then TakeBlock(s, b) else s
    case Free(b) => FreeBlock(s, b)
    case Write(b) => if b < s.nblocks then WriteBlock(s, b) else s
  }

  lemma FreeIsSafe(s: Server, b: nat)
    requires Typed(s) && DiskIsSafe(s)
    ensures Typed(FreeBlock(s, b)) && DiskIsSafe(FreeBlock(s, b))
  {
    var t := FreeBlock(s, b);
    forall c: nat | c < s.nblocks && IsFreeOnDisk(t, c) ensures IsFree(t, c) {
      assert IsFreeOnDisk(s, c);
      if b != 0 && b < s.nblocks { SetBits(s, b, true, c); }
    }
  }

  lemma BitmapStepIsSafe(s: Server, op: BitmapOp)
    requires Typed(s) && DiskIsSafe(s)
    ensures Typed(BitmapStep(s, op)) && DiskIsSafe(BitmapStep(s, op))
  {
    var t := BitmapStep(s, op);
    match op
    case Take(b) => if b < s.nblocks && IsFree(s, b) { TakeTakesOne(s, b); }
    case Free(b) => FreeIsSafe(s, b);
    case Write(b) =>
      if 2 <= b < Reserved(s.nblocks) && b < s.nblocks {
        forall c: nat | c < s.nblocks && IsFreeOnDisk(t, c) ensures IsFree(t, c) { SavedBit(s, b - 2, c); }
      } else {
        assert forall c: nat | c < s.nblocks :: IsFreeOnDisk(t, c) == IsFreeOnDisk(s, c) && IsFree(t, c) == IsFree(s, c);
      }
  }

  function BitmapRun(s: Server, ops: seq<BitmapOp>): (t: Server)
    requires Typed(s) && DiskIsSafe(s)
    ensures Typed(t) && DiskIsSafe(t)
    decreases |ops|
  {
    if ops == [] then s
    else
      BitmapStepIsSafe(s, ops[0]);
      BitmapRun(BitmapStep(s, ops[0]), ops[1..])
  }

  /** Whatever files do, across all takes, frees and syncs, in any order: a block that
      memory marks used is never free on disk, and one just taken is used on disk too. */
  lemma DiskNeverFreesUsed(s: Server, ops: seq<BitmapOp>, b: nat)
    requires Typed(s) && DiskIsSafe(s) && b < s.nblocks
    ensures var t := BitmapRun(s, ops);
      && t.nblocks == s.nblocks
      && (!IsFree(t, b) ==> !IsFreeOnDisk(t, b))
      && (IsFree(t, b) ==> !IsFree(TakeBlock(t, b), b) && Typed(TakeBlock(t, b)) && !IsFreeOnDisk(TakeBlock(t, b), b))
  {
    SizeStays(s, ops);
    var t := BitmapRun(s, ops);
    if IsFree(t, b) { TakeTakesOne(t, b); }
  }

  lemma {:induction false} SizeStays(s: Server, ops: seq<BitmapOp>)
    requires Typed(s) && DiskIsSafe(s)
    ensures BitmapRun(s, ops).nblocks == s.nblocks
    decreases |ops|
  {
    if ops != [] {
      BitmapStepIsSafe(s, ops[0]);
      SizeStays(BitmapStep(s, ops[0]), ops[1..]);
    }
  }

  // ----- writing back

  /** Writing back one cached block. */
  lemma WriteKeepsInv(s: Server, b: nat)
    requires Inv(s) && b < s.nblocks && b in s.cached
    ensures var t := WriteBlock(s, b);
      && Inv(t) && t == s.(diskBits := t.diskBits, disk := t.disk)
      && (forall c: nat | c < s.nblocks ::
            IsFreeOnDisk(t, c) == if c / BLOCK_SIZE_BIT + 2 == b then IsFree(s, c) else IsFreeOnDisk(s, c))
      && (forall c: nat | c < s.nblocks ::
            t.disk[c] == if c == b && !(2 <= b < Reserved(s.nblocks)) then s.vol.words[c] else s.disk[c])
  {
    hide Exclusive, OwnedAreUsed;
    var t := WriteBlock(s, b);
    forall c: nat | c < s.nblocks
      ensures Typed(t) && IsFree(t, c) == IsFree(s, c)
      ensures IsFreeOnDisk(t, c) == if c / BLOCK_SIZE_BIT + 2 == b then IsFree(s, c) else IsFreeOnDisk(s, c)
    {
      if 2 <= b < Reserved(s.nblocks) { SavedBit(s, b - 2, c); } else { WordOfBlock(s.nblocks, c); }
    }
    SameOwners(s, t);
  }

  // ----- a run that meets a page that is not harmless

  /** Truncating a file of one direct block to nothing, step for step. */
  lemma TruncateOneBlock(s: Server, f: FileId)
    requires Inv(s) && f in s.vol.files && 0 < s.vol.files[f].size <= BLOCK_SIZE && s.vol.files[f].indirect == 0
    requires s.vol.files[f].direct[0] != 0
    ensures var t := Truncate(s, f, 0);
      && t.0 && Inv(t.1) && t.1.nblocks == s.nblocks && t.1.vol.words == s.vol.words && t.1.cached == s.cached
      && t.1.vol.files.Keys == s.vol.files.Keys
      && (forall g | g in s.vol.files && g != f :: t.1.vol.files[g] == s.vol.files[g])
      && FreeSet(t.1) == FreeSet(s) + {s.vol.files[f].direct[0]}
  {
    hide Exclusive, OwnedAreUsed, ReservedAreUsed, DiskIsSafe, CacheOk, FreeSet;
    assert FirstCut(0) == 0 && EndCut(s, f) == 1;
    TruncateConserves(s, f, 0);
    ClearKeepsInv(s, f, 0);
    var c := Clear(s, f, 0).1;
    assert ClearFrom(s, f, 0, 1) == ClearFrom(c, f, 1, 1) == (true, c);
    OwnedOne(s.vol, f, 0);
    assert DropTable(c, f) == c;
  }

  /** File data turned into links.  The one block of file f is in the cache and is the
      least one past the super block that could be free; its word 10 is no block number.
      f is truncated, then g needs a table of links: it gets that block, with the data
      still on its page, and slot 10 of g names a block that the disk does not have. */
  lemma StaleDataRun(s: Server, f: FileId, g: FileId)
    requires Inv(s) && f in s.vol.files && g in s.vol.files && f != g
    requires 0 < s.vol.files[f].size <= BLOCK_SIZE && s.vol.files[f].indirect == 0 && s.vol.files[g].indirect == 0
    requires var b := s.vol.files[f].direct[0];
      && b != 0 && b in s.cached && IsLeast(s, b) && b < |s.vol.words| && s.vol.words[b][NDIRECT] >= s.nblocks
    ensures var t := Truncate(s, f, 0);
      && t.0 && Inv(t.1) && g in t.1.vol.files
      && var w := Walk(t.1, g, NDIRECT, true);
        && w.0 == 0 && Link(w.1.vol, Data(g, NDIRECT)) >= s.nblocks && !Inv(w.1)
  {
    hide Exclusive, OwnedAreUsed, ReservedAreUsed, DiskIsSafe, CacheOk, Truncate, FreeSet;
    var b := s.vol.files[f].direct[0];
    assert Link(s.vol, Data(f, 0)) == b;
    TruncateOneBlock(s, f);
    var t := Truncate(s, f, 0).1;
    OwnedIsPast(s, f, b);
    FreedIsCandidate(s, t, b);
    AllocKeepsInv(t);
    var a := AllocBlock(t);
    assert a.0 == b;
    AllocatedIsLoose(t, b, a.1);
    TableKeepsInvIff(a.1, g, b);
    assert !Harmless(a.1, b);
  }

  lemma OwnedIsPast(s: Server, f: FileId, b: nat)
    requires Inv(s) && Link(s.vol, Data(f, 0)) == b != 0
    ensures 3 <= Reserved(s.nblocks) <= b < s.nblocks
  {}

  lemma FreedIsCandidate(s: Server, t: Server, b: nat)
    requires Typed(s) && Typed(t) && t.nblocks == s.nblocks && 3 <= b < s.nblocks && IsLeast(s, b)
    requires FreeSet(t) == FreeSet(s) + {b}
    ensures Candidate(t) == b
  {
    assert b in FreeSet(t);
    forall c: nat | 3 <= c < b ensures !IsFree(t, c) {
      assert !IsFree(s, c);
      assert c !in FreeSet(t);
    }
  }
}
