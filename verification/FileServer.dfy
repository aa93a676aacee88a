/** The file server's operations on its bitmap, cache and files (fs/fs.c), step by
    step, tied to what FileBlocks says of them. */
module FileServers {
  import opened FsLayout
  import opened FileBlocks

  class FileServer {
    const nblocks: nat
    const bitmap: array<Word>       // the cached bitmap blocks
    var diskBits: seq<Word>
    var vol: Volume
    var cached: set<nat>
    var dirty: set<nat>
    var disk: seq<Words>
    var mem: seq<bool>

    ghost function Model(): Server
      reads this, bitmap
    { Server(nblocks, bitmap[..], diskBits, vol, cached, dirty, disk, mem) }

    /** fs_init, on a disk whose reserved blocks are marked used. */
    constructor FsInit(bits: seq<Word>, files: Volume, answers: seq<bool>)
      requires |files.words| >= 2 && |bits| == BitmapBlocks(|files.words|) * BLOCK_WORDS
      ensures Model() == Started(bits, files, answers) && fresh(bitmap)
    {
      nblocks := |files.words|;
      bitmap := new Word[|bits|](i requires 0 <= i < |bits| => bits[i]);
      diskBits := bits;
      vol := files.(words := files.words[0 := files.words[1]]);
      cached := {0, 1} + BitmapPages(|files.words|);
      dirty := {};
      disk := files.words;
      mem := answers;
      new;
      assert bitmap[..] == bits;
    }

    method BlockIsFree(b: nat) returns (r: bool)
      requires Typed(Model())
      ensures r <==> b < nblocks && IsFree(Model(), b)
    {
      r := b < nblocks && bitmap[b / WORD_BITS][b % WORD_BITS];
    }

    method FreeBlock(b: nat)
      requires Typed(Model())
      modifies bitmap
      ensures Model() == FileBlocks.FreeBlock(old(Model()), b)
    {
      if b == 0 || b >= nblocks { return; }
      bitmap[b / WORD_BITS] := bitmap[b / WORD_BITS][b % WORD_BITS := true];
    }

    /** write_block of a bitmap block or of any other cached block. */
    method WriteBlock(b: nat)
      requires Typed(Model()) && b in cached && b < nblocks
      modifies `diskBits, `disk
      ensures Model() == FileBlocks.WriteBlock(old(Model()), b)
    {
      if 2 <= b < Reserved(nblocks) {
        var k := b - 2;
        diskBits := diskBits[..k * BLOCK_WORDS] + bitmap[k * BLOCK_WORDS..(k + 1) * BLOCK_WORDS]
                    + diskBits[(k + 1) * BLOCK_WORDS..];
      } else {
        disk := disk[b := vol.words[b]];
      }
    }

    /** alloc_block_num: the least free block past the super block, taken in memory and
        on disk; or E_NO_DISK when there is none. */
    method AllocBlockNum() returns (r: int)
      requires Typed(Model()) && CacheOk(Model())
      modifies bitmap, `diskBits, `disk
      ensures r >= 0 ==> r < nblocks && r == Candidate(old(Model())) && Model() == TakeBlock(old(Model()), r)
      ensures r < 0 ==> r == E_NO_DISK && Candidate(old(Model())) == nblocks && Model() == old(Model())
      ensures old(Inv(Model())) ==> Inv(Model())
    {
      var b := 3;
      while b < nblocks
        invariant 3 <= b && (nblocks >= 3 ==> b <= nblocks)
        invariant nblocks >= 3 ==> FirstFree(Model(), 3) == FirstFree(Model(), b)
        invariant Model() == old(Model())
      {
        if bitmap[b / WORD_BITS][b % WORD_BITS] {
          if Inv(Model()) { TakeKeepsInv(Model(), b); }
          WordOfBlock(nblocks, b);
          BitmapIsCached(Model(), b);
          bitmap[b / WORD_BITS] := bitmap[b / WORD_BITS][b % WORD_BITS := false];
          SaveOf(b);
          return b;
        }
        b := b + 1;
      }
      return E_NO_DISK;
    }

    /** write_block(blockno / BLOCK_SIZE_BIT + 2) */
    method SaveOf(b: nat)
      requires Typed(Model()) && b < nblocks && b / BLOCK_SIZE_BIT < BitmapBlocks(nblocks)
      requires b / BLOCK_SIZE_BIT + 2 in cached
      modifies `diskBits
      ensures Model() == SaveBitmap(old(Model()), b / BLOCK_SIZE_BIT)
    {
      var k := b / BLOCK_SIZE_BIT;
      diskBits := diskBits[..k * BLOCK_WORDS] + bitmap[k * BLOCK_WORDS..(k + 1) * BLOCK_WORDS]
                  + diskBits[(k + 1) * BLOCK_WORDS..];
    }

    method MemAlloc() returns (ok: bool)
      modifies `mem
      ensures ok == HasMem(old(Model())) && Model() == Asked(old(Model()))
    {
      ok := mem != [] && mem[0];
      mem := if mem == [] then [] else mem[1..];
    }

    method MapBlock(b: nat) returns (r: int)
      requires Typed(Model()) && b < nblocks
      modifies `mem, `vol, `cached
      ensures (r, Model()) == FileBlocks.MapBlock(old(Model()), b)
    {
      if b in cached { return 0; }
      var ok := MemAlloc();
      if !ok { return E_NO_MEM; }
      vol := vol.(words := vol.words[b := ZeroWords()]);
      cached := cached + {b};
      return 0;
    }

    /** read_block of a block that is on the disk and in use; it panics on others. */
    method ReadBlock(b: nat) returns (r: int)
      requires Typed(Model()) && b < nblocks && !IsFree(Model(), b)
      modifies `mem, `vol, `cached
      ensures (r, Model()) == FileBlocks.ReadBlock(old(Model()), b)
    {
      if b in cached { return 0; }
      var ok := MemAlloc();
      if !ok { return E_NO_MEM; }
      vol := vol.(words := vol.words[b := disk[b]]);
      cached := cached + {b};
      return 0;
    }

    method AllocBlock() returns (r: int)
      requires Typed(Model()) && CacheOk(Model())
      modifies bitmap, this
      ensures (r, Model()) == FileBlocks.AllocBlock(old(Model()))
      ensures old(Inv(Model())) ==> Inv(Model())
    {
      ghost var s := Model();
      if Inv(s) { AllocKeepsInv(s); }
      r := AllocBlockNum();
      if r < 0 { return r; }
      var b := r;
      r := MapBlock(b);
      if r < 0 {
        FreeBlock(b);
        return r;
      }
      return b;
    }

    /** file_block_walk */
    method FileBlockWalk(f: FileId, i: nat, alloc: bool) returns (r: int)
      requires Inv(Model()) && f in vol.files
      modifies bitmap, this
      ensures (r, Model()) == Walk(old(Model()), f, i, alloc)
    {
      if i < NDIRECT { return 0; }
      if i >= NINDIRECT { return E_INVAL; }
      if vol.files[f].indirect == 0 {
        if !alloc { return E_NOT_FOUND; }
        ghost var s := Model();
        AllocShape(s);
        r := AllocBlock();
        if r < 0 { return r; }
        vol := SetTable(vol, f, r);
        return 0;
      }
      TableIsBlock(Model(), f);
      TableIsUsed(Model(), f);
      r := ReadBlock(vol.files[f].indirect);
    }

    /** file_map_block */
    method FileMapBlock(f: FileId, i: nat, alloc: bool) returns (r: int, diskbno: nat)
      requires Inv(Model()) && f in vol.files
      modifies bitmap, this
      ensures (r, diskbno, Model()) == FileMap(old(Model()), f, i, alloc)
      ensures Inv(Model()) <==> (NeedsTable(old(Model()), f, i, alloc) ==> NextIsHarmless(old(Model())))
    {
      hide FileBlocks.Inv, NextIsHarmless, FreeSet, Walk, FileBlocks.AllocBlock, Link;
      ghost var s := Model();
      GrowthKeepsInvIff(s, f, i, alloc);
      WalkNotPositive(s, f, i, alloc);
      WalkKeepsCache(s, f, i, alloc);
      WalkIsTyped(s, f, i, alloc);
      diskbno := 0;
      r := FileBlockWalk(f, i, alloc);
      if r < 0 { return; }
      diskbno := Link(vol, Data(f, i));
      if diskbno == 0 {
        if !alloc { return E_NOT_FOUND, 0; }
        AllocShape(Model());
        r := AllocBlock();
        if r < 0 { return; }
        vol := SetSlot(vol, f, i, r);
        diskbno := r;
      }
      r := 0;
    }

    /** file_clear_block */
    method FileClearBlock(f: FileId, i: nat) returns (r: int)
      requires Inv(Model()) && f in vol.files
      modifies bitmap, this
      ensures (r, Model()) == Clear(old(Model()), f, i)
      ensures Inv(Model()) && f in vol.files
    {
      ghost var s := Model();
      ClearKeepsInv(s, f, i);
      WalkIsTyped(s, f, i, false);
      WalkNotPositive(s, f, i, false);
      r := FileBlockWalk(f, i, false);
      if r < 0 { return; }
      var b := Link(vol, Data(f, i));
      if b != 0 {
        FreeBlock(b);
        vol := SetSlot(vol, f, i, 0);
      }
      r := 0;
    }

    /** The table of links of f, if it has one, is freed and forgotten. */
    method FreeTable(f: FileId)
      requires Inv(Model()) && f in vol.files
      modifies bitmap, `vol
      ensures Model() == DropTable(old(Model()), f)
      ensures Inv(Model()) && f in vol.files
    {
      DropKeepsInv(Model(), f);
      var b := vol.files[f].indirect;
      if b != 0 {
        FreeBlock(b);
        vol := SetTable(vol, f, 0);
      }
    }

    /** file_truncate; false when it panics. */
    method FileTruncate(f: FileId, newsize: nat) returns (ok: bool)
      requires Inv(Model()) && f in vol.files
      modifies bitmap, this
      ensures (ok, Model()) == Truncate(old(Model()), f, newsize)
      ensures Inv(Model())
    {
      hide FileBlocks.Inv, ClearFrom, Clear, DropTable, CanClear, FreeSet, Owned, OwnedTable;
      ghost var s := Model();
      TruncateConserves(s, f, newsize);
      var hi := BlocksOf(vol.files[f].size);
      var lo := BlocksOf(newsize);
      if newsize == 0 { lo := 0; }
      ClearFromFrees(s, f, lo, hi);
      var bno := lo;
      while bno < hi
        invariant Inv(Model()) && f in vol.files
        invariant ClearFrom(Model(), f, bno, hi) == ClearFrom(s, f, lo, hi)
      {
        ClearOne(Model(), f, bno, hi);
        var r := FileClearBlock(f, bno);
        if r < 0 { return false; }
        bno := bno + 1;
      }
      ClearNone(Model(), f, bno, hi);
      if lo <= NDIRECT { FreeTable(f); }
      vol := vol.(files := vol.files[f := vol.files[f].(size := newsize)]);
      return true;
    }

    /** fs_sync writes every dirty block, and nothing else. */
    method FsSync()
      requires Inv(Model())
      modifies `diskBits, `disk
      ensures forall b: nat | b < nblocks && !(2 <= b < Reserved(nblocks)) ::
        |disk| == nblocks && disk[b] == if b in dirty then vol.words[b] else old(disk)[b]
      ensures Typed(Model()) && forall c: nat | c < nblocks ::
        IsFreeOnDisk(Model(), c) == if c / BLOCK_SIZE_BIT + 2 in dirty && c / BLOCK_SIZE_BIT + 2 < nblocks then IsFree(Model(), c)
                                    else IsFreeOnDisk(old(Model()), c)
      ensures Inv(Model())
    {
      hide Exclusive, OwnedAreUsed, ReservedAreUsed, DiskIsSafe, CacheOk, FileBlocks.WriteBlock, Bit;
      ghost var s := Model();
      var i := 0;
      while i < nblocks
        invariant 0 <= i <= nblocks && Inv(Model()) && SyncedBelow(s, Model(), i)
      {
        SyncOne(s, Model(), i);
        if i in dirty { WriteBlock(i); }
        i := i + 1;
      }
    }
  }

  /** The loop of fs_sync has come to block i. */
  ghost predicate SyncedBelow(s: Server, t: Server, i: nat) {
    && Typed(s) && Typed(t) && t == s.(diskBits := t.diskBits, disk := t.disk)
    && (forall b: nat | b < s.nblocks && !(2 <= b < Reserved(s.nblocks)) ::
      t.disk[b] == if b in s.dirty && b < i then s.vol.words[b] else s.disk[b])
    && (forall c: nat | c < s.nblocks ::
      IsFreeOnDisk(t, c) == if c / BLOCK_SIZE_BIT + 2 in s.dirty && c / BLOCK_SIZE_BIT + 2 < i then IsFree(s, c)
                            else IsFreeOnDisk(s, c))
  }

  /** One round of it. */
  lemma SyncOne(s: Server, t: Server, i: nat)
    requires Inv(t) && SyncedBelow(s, t, i) && i < s.nblocks
    ensures i in s.dirty ==>
      i in t.cached && Inv(FileBlocks.WriteBlock(t, i)) && SyncedBelow(s, FileBlocks.WriteBlock(t, i), i + 1)
    ensures i !in s.dirty ==> SyncedBelow(s, t, i + 1)
  {
    hide Exclusive, OwnedAreUsed, FileBlocks.WriteBlock;
    if i in s.dirty { WriteKeepsInv(t, i); }
  }

  /** One round of the loop of file_truncate. */
  lemma ClearOne(s: Server, f: FileId, lo: nat, hi: nat)
    requires Inv(s) && f in s.vol.files && lo < hi
    ensures var c := Clear(s, f, lo);
      && Inv(c.1) && f in c.1.vol.files
      && ClearFrom(s, f, lo, hi) == if c.0 < 0 then (false, c.1) else ClearFrom(c.1, f, lo + 1, hi)
  {
    ClearKeepsInv(s, f, lo);
  }

  lemma ClearNone(s: Server, f: FileId, lo: nat, hi: nat)
    requires Inv(s) && f in s.vol.files && lo >= hi
    ensures ClearFrom(s, f, lo, hi) == (true, s)
  {}

  lemma BitmapIsCached(s: Server, b: nat)
    requires Typed(s) && CacheOk(s) && b < s.nblocks
    ensures b / BLOCK_SIZE_BIT + 2 in s.cached
  {
    WordOfBlock(s.nblocks, b);
  }
}
