/** The file system on disk (user/include/fs.h): bitmap words, file nodes with ten
    direct links and a table of links, and who owns which block. */
module FsLayout {

  const BLOCK_SIZE := 4096
  const BLOCK_SIZE_BIT := 32768
  const BLOCK_WORDS := 1024
  const NDIRECT := 10
  const NINDIRECT := 1024
  const WORD_BITS := 32
  const FILE2BLK := 16
  const NODE_WORDS := 64

  // ----- the bitmap

  /** One uint32_t of the bitmap, as its 32 bits; a set bit is a free block. */
  type Word = w: seq<bool> | |w| == 32 witness seq(32, i => false)

  predicate Bit(bits: seq<Word>, b: nat)
    requires b / WORD_BITS < |bits|
  { bits[b / WORD_BITS][b % WORD_BITS] }

  function SetBit(bits: seq<Word>, b: nat, x: bool): seq<Word>
    requires b / WORD_BITS < |bits|
  { bits[b / WORD_BITS := bits[b / WORD_BITS][b % WORD_BITS := x]] }

  /** Changing one block's bit changes no other block's. */
  lemma SetBitAt(bits: seq<Word>, b: nat, x: bool, c: nat)
    requires b / WORD_BITS < |bits| && c / WORD_BITS < |bits|
    ensures Bit(SetBit(bits, b, x), c) == if c == b then x else Bit(bits, c)
  {
    if c / WORD_BITS == b / WORD_BITS && c % WORD_BITS == b % WORD_BITS {
      assert c == c / WORD_BITS * WORD_BITS + c % WORD_BITS && b == b / WORD_BITS * WORD_BITS + b % WORD_BITS;
    }
  }

  // ----- file nodes

  type Direct = d: seq<nat> | |d| == 10 witness seq(10, i => 0)

  /** A block seen as words: a table of links. */
  type Words = t: seq<nat> | |t| == 1024 witness seq(1024, i => 0)

  datatype File = File(size: nat, direct: Direct, indirect: nat)

  /** struct File number j of a directory's block: behind 128 bytes of name come size,
      type, ten links and the table. */
  function NodeAt(w: Words, j: nat): File
    requires j < FILE2BLK
  {
    var k := j * NODE_WORDS;
    File(w[k + 32], w[k + 34..k + 44], w[k + 44])
  }

  /** Word k of a node that holds file; name, type and padding are as before. */
  function NodeWord(file: File, k: nat, before: nat): nat {
    if k == 32 then file.size
    else if 34 <= k < 44 then file.direct[k - 34]
    else if k == 44 then file.indirect
    else before
  }

  /** The root is in the super block, every other file in a block of its directory. */
  datatype FileId = Root | InDir(block: nat, index: nat)

  datatype Volume = Volume(files: map<FileId, File>, words: seq<Words>)

  /** The places that name a block. */
  datatype Place = Data(f: FileId, i: nat) | Table(f: FileId)

  function Link(v: Volume, p: Place): nat {
    if p.f !in v.files then 0
    else match p
      case Table(f) => v.files[f].indirect
      case Data(f, i) =>
        if i < NDIRECT then v.files[f].direct[i]
        else if i < NINDIRECT && 0 < v.files[f].indirect < |v.words| then v.words[v.files[f].indirect][i]
        else 0
  }

  /** No block sits in two places. */
  ghost predicate Exclusive(v: Volume) {
    forall p, q | Link(v, p) != 0 && Link(v, p) == Link(v, q) :: p == q
  }

  /** A slot of f that code can write: direct, or in a table that exists. */
  predicate HasSlot(v: Volume, f: FileId, i: nat) {
    && f in v.files && i < NINDIRECT
    && (i < NDIRECT || 0 < v.files[f].indirect < |v.words|)
  }

  function SetSlot(v: Volume, f: FileId, i: nat, b: nat): Volume
    requires HasSlot(v, f, i)
  {
    var file := v.files[f];
    if i < NDIRECT then v.(files := v.files[f := file.(direct := file.direct[i := b])])
    else v.(words := v.words[file.indirect := v.words[file.indirect][i := b]])
  }

  function SetTable(v: Volume, f: FileId, b: nat): Volume
    requires f in v.files
  { v.(files := v.files[f := v.files[f].(indirect := b)]) }

  /** No other file has the table of f. */
  ghost predicate Unshared(v: Volume, f: FileId) {
    forall g | g != f && Link(v, Table(f)) != 0 :: Link(v, Table(g)) != Link(v, Table(f))
  }

  /** Writing one slot changes that link alone, as long as nobody shares the table. */
  lemma SetSlotLinks(v: Volume, f: FileId, i: nat, b: nat, p: Place)
    requires HasSlot(v, f, i) && Unshared(v, f)
    ensures Link(SetSlot(v, f, i, b), p) == if p == Data(f, i) then b else Link(v, p)
  {
    if i >= NDIRECT && p.f in v.files && p.f != f {
      assert Link(v, Table(f)) == v.files[f].indirect && Link(v, Table(p.f)) == v.files[p.f].indirect;
    }
  }

  lemma ExclusiveIsUnshared(v: Volume, f: FileId)
    requires Exclusive(v)
    ensures Unshared(v, f)
  {
    forall g | g != f && Link(v, Table(f)) != 0 ensures Link(v, Table(g)) != Link(v, Table(f)) {
      assert Table(g) != Table(f);
    }
  }

  /** Putting in another table changes the links in the table with it. */
  lemma SetTableLinks(v: Volume, f: FileId, b: nat, p: Place)
    requires f in v.files
    ensures Link(SetTable(v, f, b), p) ==
      if p == Table(f) then b
      else if p.Data? && p.f == f && p.i >= NDIRECT then
        (if p.i < NINDIRECT && 0 < b < |v.words| then v.words[b][p.i] else 0)
      else Link(v, p)
  {}

  /** The blocks named by the slots lo, ..., hi - 1 of f. */
  ghost function Owned(v: Volume, f: FileId, lo: nat, hi: nat): set<nat> {
    set i | lo <= i < hi && Link(v, Data(f, i)) != 0 :: Link(v, Data(f, i))
  }

  /** The block of the table of f, if there is one. */
  ghost function OwnedTable(v: Volume, f: FileId): set<nat> {
    if Link(v, Table(f)) != 0 then {Link(v, Table(f))} else {}
  }
}
