/** The first stack page of a spawned program (user/lib/spawn.c): argument strings,
    the array of pointers to them, and the two words that _start loads
    (user/lib/entry.S).  The parent writes it; the child reads it at other addresses. */
module InitStack {

  const PAGE_SIZE := 4096
  const USTACKTOP := 0x7f3f_e000
  const E_NO_MEM := -4

  type Byte = b: nat | b < 256

  /** A C string: its characters, without the terminator. */
  type Text = t: seq<Byte> | 0 !in t witness []

  /** Little-endian words. */
  function WordBytes(w: nat): (b: seq<Byte>)
    requires w < 0x1_0000_0000
    ensures |b| == 4
  { [w % 256, w / 256 % 256, w / 65536 % 256, w / 16777216] }

  function Word(a: nat, b: nat, c: nat, d: nat): nat { a + b * 256 + c * 65536 + d * 16777216 }

  function LoadWord(page: seq<Byte>, off: nat): nat
    requires off + 4 <= |page|
  { Word(page[off], page[off + 1], page[off + 2], page[off + 3]) }

  function StoreWord(page: seq<Byte>, off: nat, w: nat): (p: seq<Byte>)
    requires off + 4 <= |page| && w < 0x1_0000_0000
    ensures |p| == |page|
  { page[..off] + WordBytes(w) + page[off + 4..] }

  lemma LoadStored(page: seq<Byte>, off: nat, w: nat, at: nat)
    requires off + 4 <= |page| && w < 0x1_0000_0000 && at + 4 <= |page|
    ensures at == off ==> LoadWord(StoreWord(page, off, w), at) == w
    ensures at + 4 <= off || off + 4 <= at ==> LoadWord(StoreWord(page, off, w), at) == LoadWord(page, at)
  {
    var p := StoreWord(page, off, w);
    if at == off {
      assert p[off..off + 4] == WordBytes(w);
      assert p[off] == WordBytes(w)[0] && p[off + 1] == WordBytes(w)[1] && p[off + 2] == WordBytes(w)[2]
          && p[off + 3] == WordBytes(w)[3];
      WordRoundTrip(w);
    } else if at + 4 <= off || off + 4 <= at {
      assert p[at] == page[at] && p[at + 1] == page[at + 1] && p[at + 2] == page[at + 2] && p[at + 3] == page[at + 3];
    }
  }

  lemma WordRoundTrip(w: nat)
    requires w < 0x1_0000_0000
    ensures var b := WordBytes(w); Word(b[0], b[1], b[2], b[3]) == w
  {
    assert w == w / 256 * 256 + w % 256;
    assert w / 256 == w / 65536 * 256 + w / 256 % 256;
    assert w / 65536 == w / 16777216 * 256 + w / 65536 % 256;
  }

  /** The string that starts at off: up to the first zero byte. */
  function ReadText(page: seq<Byte>, off: nat): Text
    requires off <= |page|
    decreases |page| - off
  {
    if off == |page| || page[off] == 0 then [] else [page[off]] + ReadText(page, off + 1)
  }

  // ----- layout, as offsets in the page

  /** The bytes of the first n strings with their terminators. */
  function Flat(argv: seq<Text>, n: nat): (s: seq<Byte>)
    requires n <= |argv|
    ensures n == 0 ==> s == []
  {
    if n == 0 then [] else Flat(argv, n - 1) + argv[n - 1] + [0]
  }

  function Total(argv: seq<Text>): nat { |Flat(argv, |argv|)| }

  function Round4(n: nat): nat { (n + 3) / 4 * 4 }

  /** Strings, argument array, the two words, and one word spare fit in the page. */
  predicate Fits(argv: seq<Text>) {
    Round4(Total(argv)) + 4 * (|argv| + 3) <= PAGE_SIZE
  }

  function Strings(argv: seq<Text>): nat
    requires Fits(argv)
  { PAGE_SIZE - Total(argv) }

  function Args(argv: seq<Text>): nat
    requires Fits(argv)
  { PAGE_SIZE - Round4(Total(argv)) - 4 * (|argv| + 1) }

  /** Where the child sees offset 0 of the page. */
  const BASE := USTACKTOP - PAGE_SIZE

  // ----- what the child reads

  /** lw a0, 0(sp) */
  function Argc(page: seq<Byte>, sp: nat): nat
    requires |page| == PAGE_SIZE && BASE <= sp && sp + 8 <= USTACKTOP
  { LoadWord(page, sp - BASE) }

  /** lw a1, 4(sp) */
  function Argv(page: seq<Byte>, sp: nat): nat
    requires |page| == PAGE_SIZE && BASE <= sp && sp + 8 <= USTACKTOP
  { LoadWord(page, sp + 4 - BASE) }

  predicate InPage(a: nat, n: nat) { BASE <= a && a + n <= USTACKTOP }

  /** argv[i] as the child finds it. */
  function Argument(page: seq<Byte>, argv: nat, i: nat): Text
    requires |page| == PAGE_SIZE && InPage(argv + 4 * i, 4) && InPage(LoadWord(page, argv + 4 * i - BASE), 0)
  { ReadText(page, LoadWord(page, argv + 4 * i - BASE) - BASE) }

  /** The page says argv to a child that starts with stack pointer sp. */
  predicate Decodes(page: seq<Byte>, sp: nat, argv: seq<Text>) {
    && |page| == PAGE_SIZE && InPage(sp, 8) && sp % 4 == 0
    && Argc(page, sp) == |argv|
    && InPage(Argv(page, sp), 4 * |argv|)
    && forall i | 0 <= i < |argv| ::
         InPage(LoadWord(page, Argv(page, sp) + 4 * i - BASE), |argv[i]| + 1) && Argument(page, Argv(page, sp), i) == argv[i]
  }

  // ----- reading back

  lemma {:induction false} FlatGrows(argv: seq<Text>, i: nat, n: nat)
    requires i <= n <= |argv|
    ensures |Flat(argv, i)| <= |Flat(argv, n)| && Flat(argv, n)[..|Flat(argv, i)|] == Flat(argv, i)
    decreases n
  {
    if i < n { FlatGrows(argv, i, n - 1); }
  }

  /** String i of the flat text starts after the first i strings and ends with a zero. */
  lemma FlatAt(argv: seq<Text>, i: nat)
    requires i < |argv|
    ensures |Flat(argv, i)| + |argv[i]| + 1 == |Flat(argv, i + 1)| <= Total(argv)
    ensures forall k: nat | k < |argv[i]| :: Flat(argv, |argv|)[|Flat(argv, i)| + k] == argv[i][k]
    ensures Flat(argv, |argv|)[|Flat(argv, i)| + |argv[i]|] == 0
  {
    FlatGrows(argv, i + 1, |argv|);
    var all, a, b := Flat(argv, |argv|), |Flat(argv, i)|, |Flat(argv, i + 1)|;
    assert forall x | 0 <= x < b :: all[x] == all[..b][x];
  }

  lemma {:induction false} ReadsText(page: seq<Byte>, off: nat, t: Text)
    requires off + |t| < |page| && page[off + |t|] == 0
    requires forall k: nat | k < |t| :: page[off + k] == t[k]
    ensures ReadText(page, off) == t
    decreases |t|
  {
    if t != [] {
      assert page[off + 0] == t[0];
      forall k: nat | k < |t[1..]| ensures page[off + 1 + k] == t[1..][k] { assert page[off + (1 + k)] == t[1 + k]; }
      ReadsText(page, off + 1, t[1..]);
    }
  }

  lemma ReadsSlice(page: seq<Byte>, s: nat, all: seq<Byte>, a: nat, t: Text)
    requires s <= |page| && page[s..] == all && a + |t| < |all| && all[a + |t|] == 0
    requires forall k: nat | k < |t| :: all[a + k] == t[k]
    ensures ReadText(page, s + a) == t
  {
    hide ReadText;
    forall x | 0 <= x < |all| ensures page[s + x] == all[x] { assert page[s..][x] == page[s + x]; }
    forall k: nat | k < |t| ensures page[s + a + k] == t[k] { assert page[s + (a + k)] == all[a + k]; }
    assert page[s + (a + |t|)] == 0;
    ReadsText(page, s + a, t);
  }

  lemma StringsEnd(argv: seq<Text>)
    requires Fits(argv)
    ensures Strings(argv) + |Flat(argv, |argv|)| == PAGE_SIZE
  {}

  /** Strings at the end of the page are read back one by one. */
  lemma ReadsStrings(page: seq<Byte>, argv: seq<Text>, i: nat)
    requires |page| == PAGE_SIZE && Fits(argv) && page[Strings(argv)..] == Flat(argv, |argv|) && i < |argv|
    ensures Strings(argv) + |Flat(argv, i)| + |argv[i]| + 1 <= PAGE_SIZE
    ensures ReadText(page, Strings(argv) + |Flat(argv, i)|) == argv[i]
  {
    hide Flat, Strings, ReadText, Fits;
    FlatAt(argv, i);
    StringsEnd(argv);
    ReadsSlice(page, Strings(argv), Flat(argv, |argv|), |Flat(argv, i)|, argv[i]);
  }

  /** The areas lie in the page, in this order and apart: the words argc and argv, the
      argument array with its last entry, padding, the strings. */
  lemma NothingOverlaps(argv: seq<Text>)
    requires Fits(argv)
    ensures 0 <= Args(argv) - 8 && Args(argv) % 4 == 0
    ensures Args(argv) + 4 * (|argv| + 1) <= Strings(argv) < Args(argv) + 4 * (|argv| + 1) + 4
    ensures Strings(argv) + Total(argv) == PAGE_SIZE
  {
    assert Round4(Total(argv)) % 4 == 0;
  }

  /** The array that points at the strings. */
  predicate Points(page: seq<Byte>, argv: seq<Text>, n: nat)
    requires Fits(argv) && n <= |argv| && |page| == PAGE_SIZE
  {
    forall k: nat | k < n :: Args(argv) + 4 * k + 4 <= PAGE_SIZE &&
      LoadWord(page, Args(argv) + 4 * k) == BASE + Strings(argv) + |Flat(argv, k)|
  }

  lemma LaidOutDecodes(page: seq<Byte>, argv: seq<Text>, sp: nat)
    requires Fits(argv) && |page| == PAGE_SIZE && page[Strings(argv)..] == Flat(argv, |argv|)
    requires Points(page, argv, |argv|)
    requires Args(argv) >= 8 && LoadWord(page, Args(argv) - 8) == |argv|
    requires LoadWord(page, Args(argv) - 4) == BASE + Args(argv) && sp == BASE + Args(argv) - 8
    ensures Decodes(page, sp, argv)
  {
    hide LoadWord, Flat, ReadText, Args, Strings, Fits;
    NothingOverlaps(argv);
    assert Argc(page, sp) == |argv| && Argv(page, sp) == BASE + Args(argv);
    forall i: nat | i < |argv|
      ensures InPage(LoadWord(page, Argv(page, sp) + 4 * i - BASE), |argv[i]| + 1)
      ensures Argument(page, Argv(page, sp), i) == argv[i]
    {
      ReadsStrings(page, argv, i);
      assert LoadWord(page, Args(argv) + 4 * i) == BASE + Strings(argv) + |Flat(argv, i)|;
    }
  }

  /** Two argument lists never share a page. */
  lemma DecodesOne(page: seq<Byte>, sp: nat, a: seq<Text>, b: seq<Text>)
    requires Decodes(page, sp, a) && Decodes(page, sp, b)
    ensures a == b
  {
    hide LoadWord, ReadText;
    forall i | 0 <= i < |a| ensures a[i] == b[i] {
      assert InPage(LoadWord(page, Argv(page, sp) + 4 * i - BASE), |a[i]| + 1);
      assert Argument(page, Argv(page, sp), i) == a[i];
      assert Argument(page, Argv(page, sp), i) == b[i];
    }
  }

  // ----- init_stack

  /** args[...] = w on the page. */
  method PutWord(page: array<Byte>, off: nat, w: nat)
    requires off + 4 <= page.Length && w < 0x1_0000_0000
    modifies page
    ensures page[..] == StoreWord(old(page[..]), off, w)
  {
    page[off] := w % 256;
    page[off + 1] := w / 256 % 256;
    page[off + 2] := w / 65536 % 256;
    page[off + 3] := w / 16777216;
  }

  /** Copy the strings to the end of the page. */
  method CopyStrings(page: array<Byte>, argv: seq<Text>)
    requires page.Length == PAGE_SIZE && Fits(argv)
    modifies page
    ensures page[..] == old(page[..Strings(argv)]) + Flat(argv, |argv|)
  {
    var strings := Strings(argv);
    var ctemp := strings;
    ghost var low := page[..strings];
    for i := 0 to |argv|
      invariant ctemp == strings + |Flat(argv, i)| && ctemp <= PAGE_SIZE
      invariant page[..ctemp] == low + Flat(argv, i)
    {
      FlatAt(argv, i);
      ghost var before := page[..ctemp];
      ctemp := CopyString(page, ctemp, argv[i]);
      assert low + Flat(argv, i + 1) == before + (argv[i] + [0]);
    }
    assert page[..] == page[..PAGE_SIZE];
  }

  /** The inner loop, and the terminator. */
  method CopyString(page: array<Byte>, from: nat, text: Text) returns (ctemp: nat)
    requires from + |text| < page.Length
    modifies page
    ensures ctemp == from + |text| + 1 && page[..ctemp] == old(page[..from]) + (text + [0])
  {
    ctemp := from;
    ghost var low := page[..from];
    for j := 0 to |text|
      invariant ctemp == from + j && page[..ctemp] == low + text[..j]
    {
      page[ctemp] := text[j];
      ctemp := ctemp + 1;
      assert page[..ctemp] == page[..ctemp - 1] + [text[j]];
      assert text[..j + 1] == text[..j] + [text[j]];
    }
    page[ctemp] := 0;
    ctemp := ctemp + 1;
    assert page[..ctemp] == page[..ctemp - 1] + [0];
    assert text[..|text|] == text;
  }

  /** Point args[0], ..., args[argc - 1] at the strings, and the last entry at the
      last terminator. */
  method PointArgs(page: array<Byte>, argv: seq<Text>)
    requires page.Length == PAGE_SIZE && Fits(argv) && page[..][Strings(argv)..] == Flat(argv, |argv|)
    modifies page
    ensures page[..][Strings(argv)..] == Flat(argv, |argv|) && Points(page[..], argv, |argv|)
  {
    hide LoadWord, StoreWord, Flat, Args, Strings, Fits, Points;
    NothingOverlaps(argv);
    NoPoints(page[..], argv);
    var ctemp := BASE + Strings(argv);
    for i := 0 to |argv|
      invariant ctemp == BASE + Strings(argv) + |Flat(argv, i)| && ctemp <= USTACKTOP
      invariant page[..][Strings(argv)..] == Flat(argv, |argv|) && Points(page[..], argv, i)
    {
      FlatAt(argv, i);
      ghost var before := page[..];
      PutWord(page, Args(argv) + 4 * i, ctemp);
      KeepsStrings(before, argv, i, ctemp);
      ctemp := ctemp + |argv[i]| + 1;
    }
    ghost var before := page[..];
    PutWord(page, Args(argv) + 4 * |argv|, ctemp - 1);
    KeepsStrings(before, argv, |argv|, ctemp - 1);
  }

  lemma NoPoints(page: seq<Byte>, argv: seq<Text>)
    requires |page| == PAGE_SIZE && Fits(argv)
    ensures Points(page, argv, 0)
  {}

  /** A store below the strings leaves them alone. */
  lemma StoreKeepsTail(page: seq<Byte>, off: nat, w: nat, s: nat)
    requires off + 4 <= s <= |page| && w < 0x1_0000_0000
    ensures StoreWord(page, off, w)[s..] == page[s..]
  {}

  /** A store to entry n of the array leaves the strings and the entries below alone. */
  lemma KeepsStrings(page: seq<Byte>, argv: seq<Text>, n: nat, w: nat)
    requires |page| == PAGE_SIZE && Fits(argv) && n <= |argv| && w < 0x1_0000_0000 && Points(page, argv, n)
    ensures Args(argv) + 4 * n + 4 <= Strings(argv)
    ensures var p := StoreWord(page, Args(argv) + 4 * n, w);
      && p[Strings(argv)..] == page[Strings(argv)..] && Points(p, argv, n)
      && (n < |argv| && w == BASE + Strings(argv) + |Flat(argv, n)| ==> Points(p, argv, n + 1))
  {
    hide LoadWord, StoreWord, Flat, Args, Strings, Fits;
    NothingOverlaps(argv);
    var at := Args(argv) + 4 * n;
    LoadStored(page, at, w, at);
    StoreKeepsTail(page, at, w, Strings(argv));
    forall k: nat | k < n ensures LoadWord(StoreWord(page, at, w), Args(argv) + 4 * k) == LoadWord(page, Args(argv) + 4 * k) {
      LoadStored(page, at, w, Args(argv) + 4 * k);
    }
  }

  /** init_stack: refused exactly when the arguments do not fit or a system call fails;
      else the child, started with sp, reads back the same argument list. */
  method InitStack(argv: seq<Text>, alloc: int, give: int) returns (r: int, sp: nat, page: array<Byte>)
    ensures r == if !Fits(argv) then E_NO_MEM else if alloc < 0 then alloc else if give < 0 then give else 0
    ensures r == 0 ==> Decodes(page[..], sp, argv) && sp == BASE + Args(argv) - 8
  {
    sp := 0;
    page := new Byte[PAGE_SIZE](_ => 0);
    if Round4(Total(argv)) + 4 * (|argv| + 3) > PAGE_SIZE { return E_NO_MEM, 0, page; }
    if alloc < 0 { return alloc, 0, page; }
    NothingOverlaps(argv);
    CopyStrings(page, argv);
    PointArgs(page, argv);
    var args := Args(argv);
    ghost var p0 := page[..];
    PutWord(page, args - 4, BASE + args);
    ghost var p1 := page[..];
    PutWord(page, args - 8, |argv|);
    sp := BASE + args - 8;
    TwoWords(p0, argv, p1, page[..]);
    LaidOutDecodes(page[..], argv, sp);
    r := if give < 0 then give else 0;
  }

  /** A store below the array leaves the array and the strings alone. */
  lemma BelowArgs(page: seq<Byte>, argv: seq<Text>, off: nat, w: nat)
    requires |page| == PAGE_SIZE && Fits(argv) && off + 4 <= Args(argv) && w < 0x1_0000_0000
    requires Points(page, argv, |argv|)
    ensures var p := StoreWord(page, off, w);
      p[Strings(argv)..] == page[Strings(argv)..] && Points(p, argv, |argv|)
  {
    hide LoadWord, StoreWord, Flat, Args, Strings, Fits;
    NothingOverlaps(argv);
    StoreKeepsTail(page, off, w, Strings(argv));
    forall k: nat | k < |argv| ensures LoadWord(StoreWord(page, off, w), Args(argv) + 4 * k) == LoadWord(page, Args(argv) + 4 * k) {
      LoadStored(page, off, w, Args(argv) + 4 * k);
    }
  }

  lemma TwoWords(p0: seq<Byte>, argv: seq<Text>, p1: seq<Byte>, p2: seq<Byte>)
    requires Fits(argv) && |p0| == PAGE_SIZE && p0[Strings(argv)..] == Flat(argv, |argv|) && Points(p0, argv, |argv|)
    requires Args(argv) >= 8 && p1 == StoreWord(p0, Args(argv) - 4, BASE + Args(argv))
    requires p2 == StoreWord(p1, Args(argv) - 8, |argv|)
    ensures |p2| == PAGE_SIZE && p2[Strings(argv)..] == Flat(argv, |argv|) && Points(p2, argv, |argv|)
    ensures LoadWord(p2, Args(argv) - 8) == |argv| && LoadWord(p2, Args(argv) - 4) == BASE + Args(argv)
  {
    hide LoadWord, StoreWord, Flat, Args, Strings, Points, Fits;
    var a := Args(argv);
    NothingOverlaps(argv);
    BelowArgs(p0, argv, a - 4, BASE + a);
    BelowArgs(p1, argv, a - 8, |argv|);
    LoadStored(p1, a - 8, |argv|, a - 8);
    LoadStored(p0, a - 4, BASE + a, a - 4);
    LoadStored(p1, a - 8, |argv|, a - 4);
  }
}
