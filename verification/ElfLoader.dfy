/** Loading a program segment page by page (lib/elfloader.c).  A mapper installs a
    fresh zeroed page at an address and copies some bytes into it. */
module ElfLoader {

  const PAGE_SIZE := 4096
  const ADDRESSES := 0x1_0000_0000

  type Byte = b: nat | b < 256

  function Zeros(n: nat): (s: seq<Byte>)
    ensures |s| == n && forall i | 0 <= i < n :: s[i] == 0
  { seq(n, i => 0) }

  /** One call of the mapper: page number, and what the page holds afterwards. */
  datatype Call = Call(page: nat, content: seq<Byte>)

  /** A fresh page with data copied to an offset; no data is a NULL source. */
  function PageWith(offset: nat, data: seq<Byte>): (p: seq<Byte>)
    requires offset + |data| <= PAGE_SIZE
    ensures |p| == PAGE_SIZE
  { Zeros(offset) + data + Zeros(PAGE_SIZE - offset - |data|) }

  function Min(a: nat, b: nat): nat { if a < b then a else b }

  function Max(a: nat, b: nat): nat { if a < b then b else a }

  // ----- the calls elf_load_seg makes

  /** Step 1, from i on. */
  function FileCalls(va: nat, bin: seq<Byte>, i: nat): seq<Call>
    decreases |bin| - i
  {
    if i >= |bin| then []
    else [Call((va + i) / PAGE_SIZE, PageWith(0, bin[i..i + Min(|bin| - i, PAGE_SIZE)]))]
         + FileCalls(va, bin, i + PAGE_SIZE)
  }

  /** Where step 1 leaves i. */
  function FileEnd(bin: seq<Byte>, i: nat): (e: nat)
    ensures e == i || e < |bin| + PAGE_SIZE
    decreases |bin| - i
  { if i >= |bin| then i else FileEnd(bin, i + PAGE_SIZE) }

  /** Step 2, from i on. */
  function ZeroCalls(va: nat, memsz: nat, i: nat): seq<Call>
    decreases memsz - i
  {
    if i >= memsz then []
    else [Call((va + i) / PAGE_SIZE, Zeros(PAGE_SIZE))] + ZeroCalls(va, memsz, i + PAGE_SIZE)
  }

  function HeadSize(va: nat, bin: seq<Byte>): nat {
    if va % PAGE_SIZE == 0 then 0 else Min(|bin|, PAGE_SIZE - va % PAGE_SIZE)
  }

  /** The call for the part of the segment before the first page boundary. */
  function HeadCalls(va: nat, bin: seq<Byte>): seq<Call> {
    if va % PAGE_SIZE == 0 then []
    else [Call(va / PAGE_SIZE, PageWith(va % PAGE_SIZE, bin[..HeadSize(va, bin)]))]
  }

  function SegmentCalls(va: nat, bin: seq<Byte>, memsz: nat): seq<Call> {
    var i := HeadSize(va, bin);
    HeadCalls(va, bin) + FileCalls(va, bin, i) + ZeroCalls(va, memsz, FileEnd(bin, i))
  }

  // ----- what they should be

  /** Page p of the segment's image: file bytes where the file reaches, else zero. */
  function ImagePage(va: nat, bin: seq<Byte>, p: nat): (s: seq<Byte>)
    ensures |s| == PAGE_SIZE
    ensures forall x | 0 <= x < PAGE_SIZE :: s[x] == ImageByte(va, bin, p * PAGE_SIZE + x)
  { seq<Byte>(PAGE_SIZE, x requires 0 <= x => ImageByte(va, bin, p * PAGE_SIZE + x)) }

  function ImageByte(va: nat, bin: seq<Byte>, a: nat): Byte {
    if va <= a < va + |bin| then bin[a - va] else 0
  }

  /** Pages p, ..., q - 1 of the image, each once and in order. */
  function ImageCalls(va: nat, bin: seq<Byte>, p: nat, q: nat): (s: seq<Call>)
    ensures |s| == if p < q then q - p else 0
    ensures forall j | 0 <= j < |s| :: s[j] == Call(p + j, ImagePage(va, bin, p + j))
    decreases q - p
  {
    if p >= q then [] else [Call(p, ImagePage(va, bin, p))] + ImageCalls(va, bin, p + 1, q)
  }

  function PagesUpTo(a: nat): nat { (a + PAGE_SIZE - 1) / PAGE_SIZE }

  /** The pages a segment touches: an unaligned one has a first page even if empty. */
  function SegmentImage(va: nat, bin: seq<Byte>, memsz: nat): seq<Call> {
    ImageCalls(va, bin, va / PAGE_SIZE, PagesUpTo(va + Max(|bin|, memsz)))
  }

  /** The segment starts on a page boundary, or its file data reaches the first one,
      or nothing follows its file data. */
  predicate WellLaid(va: nat, filesz: nat, memsz: nat) {
    va % PAGE_SIZE == 0 || filesz >= PAGE_SIZE - va % PAGE_SIZE || memsz <= filesz
  }

  // ----- page by page

  lemma PageOf(va: nat, i: nat)
    requires (va + i) % PAGE_SIZE == 0
    ensures (va + i) / PAGE_SIZE * PAGE_SIZE == va + i
    ensures (va + i + PAGE_SIZE) % PAGE_SIZE == 0 && (va + i + PAGE_SIZE) / PAGE_SIZE == (va + i) / PAGE_SIZE + 1
  {}

  /** A full or last page of step 1 is its page of the image. */
  lemma FilePage(va: nat, bin: seq<Byte>, i: nat)
    requires (va + i) % PAGE_SIZE == 0 && i < |bin|
    ensures PageWith(0, bin[i..i + Min(|bin| - i, PAGE_SIZE)]) == ImagePage(va, bin, (va + i) / PAGE_SIZE)
  {
    PageOf(va, i);
    var n := Min(|bin| - i, PAGE_SIZE);
    var s, t := PageWith(0, bin[i..i + n]), ImagePage(va, bin, (va + i) / PAGE_SIZE);
    forall x | 0 <= x < PAGE_SIZE ensures s[x] == t[x] {
      assert t[x] == ImageByte(va, bin, va + i + x);
    }
  }

  lemma {:induction false} FileCallsAreImage(va: nat, bin: seq<Byte>, i: nat)
    requires (va + i) % PAGE_SIZE == 0
    ensures (va + FileEnd(bin, i)) % PAGE_SIZE == 0 && FileEnd(bin, i) >= |bin|
    ensures FileCalls(va, bin, i) == ImageCalls(va, bin, (va + i) / PAGE_SIZE, (va + FileEnd(bin, i)) / PAGE_SIZE)
    ensures i < |bin| ==> (va + FileEnd(bin, i)) / PAGE_SIZE == PagesUpTo(va + |bin|)
    decreases |bin| - i
  {
    PageOf(va, i);
    if i < |bin| {
      FilePage(va, bin, i);
      FileCallsAreImage(va, bin, i + PAGE_SIZE);
    }
  }

  lemma {:induction false} ZeroCallsAreImage(va: nat, bin: seq<Byte>, memsz: nat, i: nat)
    requires (va + i) % PAGE_SIZE == 0 && i >= |bin|
    ensures ZeroCalls(va, memsz, i) == ImageCalls(va, bin, (va + i) / PAGE_SIZE, PagesUpTo(va + Max(i, memsz)))
    decreases memsz - i
  {
    PageOf(va, i);
    if i < memsz {
      assert Zeros(PAGE_SIZE) == ImagePage(va, bin, (va + i) / PAGE_SIZE);
      ZeroCallsAreImage(va, bin, memsz, i + PAGE_SIZE);
    }
  }

  lemma {:induction false} ImageCallsSplit(va: nat, bin: seq<Byte>, p: nat, q: nat, r: nat)
    requires p <= q <= r
    ensures ImageCalls(va, bin, p, r) == ImageCalls(va, bin, p, q) + ImageCalls(va, bin, q, r)
    decreases q - p
  {
    if p < q { ImageCallsSplit(va, bin, p + 1, q, r); }
  }

  /** Where the loops start, an aligned run of file pages then zero pages follows. */
  lemma RestIsImage(va: nat, bin: seq<Byte>, memsz: nat, i: nat)
    requires (va + i) % PAGE_SIZE == 0 && i <= |bin|
    ensures FileCalls(va, bin, i) + ZeroCalls(va, memsz, FileEnd(bin, i)) ==
            ImageCalls(va, bin, (va + i) / PAGE_SIZE, PagesUpTo(va + Max(|bin|, memsz)))
  {
    var e := FileEnd(bin, i);
    FileCallsAreImage(va, bin, i);
    ZeroCallsAreImage(va, bin, memsz, e);
    SameLastPage(va, |bin|, memsz, e);
    PageOf(va, i);
    PageOf(va, e);
    ImageCallsSplit(va, bin, (va + i) / PAGE_SIZE, (va + e) / PAGE_SIZE, PagesUpTo(va + Max(e, memsz)));
  }

  lemma SameLastPage(va: nat, n: nat, memsz: nat, e: nat)
    requires (va + e) % PAGE_SIZE == 0 && n <= e < n + PAGE_SIZE
    ensures PagesUpTo(va + Max(e, memsz)) == PagesUpTo(va + Max(n, memsz))
  {}

  lemma HeadIsImage(va: nat, bin: seq<Byte>, memsz: nat)
    requires va % PAGE_SIZE != 0 && (|bin| >= PAGE_SIZE - va % PAGE_SIZE || memsz <= |bin|)
    ensures HeadCalls(va, bin) == [Call(va / PAGE_SIZE, ImagePage(va, bin, va / PAGE_SIZE))]
  {
    var offset, p := va % PAGE_SIZE, va / PAGE_SIZE;
    assert va == p * PAGE_SIZE + offset;
    var s, t := PageWith(offset, bin[..HeadSize(va, bin)]), ImagePage(va, bin, p);
    forall x | 0 <= x < PAGE_SIZE ensures s[x] == t[x] {
      assert t[x] == ImageByte(va, bin, p * PAGE_SIZE + x);
    }
    assert s == t;
  }

  lemma AcrossFirstPage(va: nat, bin: seq<Byte>, memsz: nat)
    requires va % PAGE_SIZE != 0 && |bin| >= PAGE_SIZE - va % PAGE_SIZE
    ensures SegmentCalls(va, bin, memsz) == SegmentImage(va, bin, memsz)
  {
    hide FileCalls, ZeroCalls, FileEnd, ImageCalls;
    var i, p, q := HeadSize(va, bin), va / PAGE_SIZE, PagesUpTo(va + Max(|bin|, memsz));
    HeadIsImage(va, bin, memsz);
    assert va == p * PAGE_SIZE + va % PAGE_SIZE && va + i == (p + 1) * PAGE_SIZE;
    RestIsImage(va, bin, memsz, i);
    ImageCallsSplit(va, bin, p, p + 1, q);
    assert ImageCalls(va, bin, p, p + 1) == HeadCalls(va, bin);
    var head, file, zero := HeadCalls(va, bin), FileCalls(va, bin, i), ZeroCalls(va, memsz, FileEnd(bin, i));
    assert head + file + zero == head + (file + zero);
  }

  lemma WithinFirstPage(va: nat, bin: seq<Byte>, memsz: nat)
    requires va % PAGE_SIZE != 0 && |bin| < PAGE_SIZE - va % PAGE_SIZE && memsz <= |bin|
    ensures SegmentCalls(va, bin, memsz) == SegmentImage(va, bin, memsz)
  {
    HeadIsImage(va, bin, memsz);
    assert va == va / PAGE_SIZE * PAGE_SIZE + va % PAGE_SIZE;
    assert PagesUpTo(va + |bin|) == va / PAGE_SIZE + 1;
  }

  /** On any other segment the first page is mapped again, empty: file data is lost. */
  lemma LosesFirstPage(va: nat, bin: seq<Byte>, memsz: nat)
    requires !WellLaid(va, |bin|, memsz)
    ensures var c := SegmentCalls(va, bin, memsz);
      |c| >= 2 && c[0].page == c[1].page == va / PAGE_SIZE && c[1].content == Zeros(PAGE_SIZE)
  {
    assert va == va / PAGE_SIZE * PAGE_SIZE + va % PAGE_SIZE;
  }

  /** The promise of the loader: it maps the pages of the segment's image, each once
      and with the right contents, exactly when the segment is well laid. */
  lemma LoadsImageIff(va: nat, bin: seq<Byte>, memsz: nat)
    ensures SegmentCalls(va, bin, memsz) == SegmentImage(va, bin, memsz) <==> WellLaid(va, |bin|, memsz)
  {
    if va % PAGE_SIZE == 0 {
      RestIsImage(va, bin, memsz, 0);
    } else if |bin| >= PAGE_SIZE - va % PAGE_SIZE {
      AcrossFirstPage(va, bin, memsz);
    } else if memsz <= |bin| {
      WithinFirstPage(va, bin, memsz);
    } else {
      hide SegmentCalls;
      LosesFirstPage(va, bin, memsz);
    }
  }

  /** What memory reads after the calls: the last page installed at a number counts. */
  function Install(pages: map<nat, seq<Byte>>, calls: seq<Call>): map<nat, seq<Byte>> {
    if calls == [] then pages
    else Install(pages, calls[..|calls| - 1])[calls[|calls| - 1].page := calls[|calls| - 1].content]
  }

  lemma {:induction false} InstallImage(pages: map<nat, seq<Byte>>, va: nat, bin: seq<Byte>, p: nat, q: nat, n: nat)
    requires p <= q
    ensures var m := Install(pages, ImageCalls(va, bin, p, q));
      if p <= n < q then n in m && m[n] == ImagePage(va, bin, n)
      else (n in m <==> n in pages) && (n in pages ==> m[n] == pages[n])
    decreases q - p
  {
    hide ImagePage;
    if p < q {
      InstallImage(pages, va, bin, p, q - 1, n);
      var calls := ImageCalls(va, bin, p, q);
      assert calls[..|calls| - 1] == ImageCalls(va, bin, p, q - 1);
    }
  }

  /** After a well-laid segment is loaded every address of it reads its file byte or
      zero, and pages it does not touch are as before. */
  lemma MemoryIsImage(pages: map<nat, seq<Byte>>, va: nat, bin: seq<Byte>, memsz: nat, a: nat)
    requires WellLaid(va, |bin|, memsz)
    ensures var m := Install(pages, SegmentCalls(va, bin, memsz)); var n := a / PAGE_SIZE;
      && (va <= a < va + Max(|bin|, memsz) ==>
            n in m && |m[n]| == PAGE_SIZE && m[n][a % PAGE_SIZE] == if a < va + |bin| then bin[a - va] else 0)
      && (a / PAGE_SIZE < va / PAGE_SIZE || a / PAGE_SIZE >= PagesUpTo(va + Max(|bin|, memsz)) ==>
            (n in m <==> n in pages) && (n in pages ==> m[n] == pages[n]))
  {
    hide SegmentCalls, ImageCalls, Install, ImagePage;
    LoadsImageIff(va, bin, memsz);
    var n, q := a / PAGE_SIZE, PagesUpTo(va + Max(|bin|, memsz));
    assert a == n * PAGE_SIZE + a % PAGE_SIZE;
    assert va / PAGE_SIZE <= q;
    InstallImage(pages, va, bin, va / PAGE_SIZE, q, n);
    assert ImagePage(va, bin, n)[a % PAGE_SIZE] == ImageByte(va, bin, n * PAGE_SIZE + a % PAGE_SIZE);
  }

  // ----- the loader

  class AddressSpace {
    var pages: map<nat, seq<Byte>>
    var answers: seq<int>              // what the mapper will return, in order
    ghost var calls: seq<Call>

    /** The mapper (load_icode_mapper, spawn_mapper).  It is only ever asked to fill
        part of one page. */
    method MapPage(va: nat, offset: nat, data: seq<Byte>) returns (r: int)
      requires offset + |data| <= PAGE_SIZE && va < ADDRESSES
      modifies this
      ensures Maps(old(answers), old(calls), [Call(va / PAGE_SIZE, PageWith(offset, data))], r, answers, calls)
      ensures pages == if r == 0 then old(pages)[va / PAGE_SIZE := PageWith(offset, data)] else old(pages)
      ensures r == if old(answers) == [] then -4 else old(answers)[0]
    {
      r := if answers == [] then -4 else answers[0];
      answers := if answers == [] then [] else answers[1..];
      if r == 0 {
        pages := pages[va / PAGE_SIZE := PageWith(offset, data)];
        calls := calls + [Call(va / PAGE_SIZE, PageWith(offset, data))];
      }
    }

    /** Step 1 of elf_load_seg: the rest of the file data. */
    method LoadFile(va: nat, bin: seq<Byte>, start: nat) returns (r: int, i: nat)
      requires va + |bin| <= ADDRESSES && |bin| + PAGE_SIZE <= ADDRESSES && start <= |bin|
      requires pages == Install(map[], calls)
      modifies this
      ensures pages == Install(map[], calls)
      ensures Maps(old(answers), old(calls), FileCalls(va, bin, start), r, answers, calls)
      ensures r == 0 ==> i == FileEnd(bin, start) && i < ADDRESSES
    {
      hide Install, PageWith, FileCalls, FileEnd, Maps;
      r, i := 0, start;
      ghost var done := [];
      MapsNothing(answers, calls);
      while i < |bin|
        invariant pages == Install(map[], calls)
        invariant Maps(old(answers), old(calls), done, 0, answers, calls)
        invariant done + FileCalls(va, bin, i) == FileCalls(va, bin, start)
        invariant FileEnd(bin, i) == FileEnd(bin, start) && i < ADDRESSES
        decreases |bin| - i
      {
        ghost var a, before, call := answers, calls, FileCall(va, bin, i);
        FileCallsStep(va, bin, i, done);
        r := MapPage(va + i, 0, bin[i..i + Min(|bin| - i, PAGE_SIZE)]);
        InstallOne(a, before, call, r, answers, calls);
        MapsThen(old(answers), old(calls), done, a, before, [call], r, answers, calls);
        if r != 0 {
          MapsPart(old(answers), old(calls), done + [call], FileCalls(va, bin, i + PAGE_SIZE), r, answers, calls);
          return;
        }
        done := done + [call];
        i := i + PAGE_SIZE;
      }
      FileCallsStep(va, bin, i, done);
    }

    /** Step 2 of elf_load_seg: pages beyond the file data. */
    method LoadZeros(va: nat, memsz: nat, start: nat) returns (r: int)
      requires va + memsz <= ADDRESSES && memsz + PAGE_SIZE <= ADDRESSES && start < ADDRESSES
      requires pages == Install(map[], calls)
      modifies this
      ensures pages == Install(map[], calls)
      ensures Maps(old(answers), old(calls), ZeroCalls(va, memsz, start), r, answers, calls)
    {
      hide Install, PageWith, ZeroCalls, Maps;
      r := 0;
      var i := start;
      ghost var done := [];
      MapsNothing(answers, calls);
      ZerosFill();
      while i < memsz
        invariant pages == Install(map[], calls)
        invariant Maps(old(answers), old(calls), done, 0, answers, calls)
        invariant done + ZeroCalls(va, memsz, i) == ZeroCalls(va, memsz, start) && i < ADDRESSES
        decreases memsz - i
      {
        ghost var a, before, call := answers, calls, Call((va + i) / PAGE_SIZE, Zeros(PAGE_SIZE));
        ZeroCallsStep(va, memsz, i, done);
        r := MapPage(va + i, 0, []);
        InstallOne(a, before, call, r, answers, calls);
        MapsThen(old(answers), old(calls), done, a, before, [call], r, answers, calls);
        if r != 0 {
          MapsPart(old(answers), old(calls), done + [call], ZeroCalls(va, memsz, i + PAGE_SIZE), r, answers, calls);
          return;
        }
        done := done + [call];
        i := i + PAGE_SIZE;
      }
      ZeroCallsStep(va, memsz, i, done);
    }

    /** elf_load_seg for a segment that lies in the address space: the calls are made in
        order up to the first that the mapper refuses, and the answer is 0 exactly when it
        refuses none.  That every call meets the mapper's precondition, and that the
        counter and every address fit in 32 bits, is part of the proof. */
    method ElfLoadSeg(va: nat, bin: seq<Byte>, memsz: nat) returns (r: int)
      requires va < ADDRESSES && va + Max(|bin|, memsz) <= ADDRESSES && Max(|bin|, memsz) + PAGE_SIZE <= ADDRESSES
      requires pages == Install(map[], calls)
      modifies this
      ensures pages == Install(map[], calls)
      ensures var n := Granted(old(answers), |SegmentCalls(va, bin, memsz)|);
        && calls == old(calls) + SegmentCalls(va, bin, memsz)[..n]
        && (r == 0 <==> n == |SegmentCalls(va, bin, memsz)|)
    {
      hide Install, PageWith, FileCalls, ZeroCalls, HeadCalls, Maps, FileEnd;
      ghost var i0 := HeadSize(va, bin);
      ghost var head, file, zeros := HeadCalls(va, bin), FileCalls(va, bin, i0), ZeroCalls(va, memsz, FileEnd(bin, i0));
      r := LoadHead(va, bin);
      if r != 0 {
        MapsPart(old(answers), old(calls), head, file, r, answers, calls);
      } else {
        ghost var a1, c1 := answers, calls;
        var offset := va - va / PAGE_SIZE * PAGE_SIZE;
        var i := if offset != 0 then Min(|bin|, PAGE_SIZE - offset) else 0;
        r, i := LoadFile(va, bin, i);
        MapsThen(old(answers), old(calls), head, a1, c1, file, r, answers, calls);
        if r == 0 {
          ghost var a2, c2 := answers, calls;
          r := LoadZeros(va, memsz, i);
          MapsThen(old(answers), old(calls), head + file, a2, c2, zeros, r, answers, calls);
          MapsMeans(old(answers), old(calls), head + file + zeros, r, answers, calls);
          return;
        }
      }
      MapsPart(old(answers), old(calls), head + file, zeros, r, answers, calls);
      MapsMeans(old(answers), old(calls), head + file + zeros, r, answers, calls);
    }

    /** The beginning of elf_load_seg: the part before the first page boundary. */
    method LoadHead(va: nat, bin: seq<Byte>) returns (r: int)
      requires va < ADDRESSES && pages == Install(map[], calls)
      modifies this
      ensures pages == Install(map[], calls)
      ensures Maps(old(answers), old(calls), HeadCalls(va, bin), r, answers, calls)
    {
      hide Install, PageWith, Maps;
      var offset := va - va / PAGE_SIZE * PAGE_SIZE;
      r := 0;
      MapsNothing(answers, calls);
      if offset != 0 {
        r := MapPage(va, offset, bin[..Min(|bin|, PAGE_SIZE - offset)]);
        InstallOne(old(answers), old(calls), HeadCalls(va, bin)[0], r, answers, calls);
      }
    }
  }

  // ----- what the mapper grants

  /** How many of n calls the mapper grants before it refuses one. */
  function Granted(answers: seq<int>, n: nat): (k: nat)
    ensures k <= n && k <= |answers|
  { if n == 0 || answers == [] || answers[0] != 0 then 0 else 1 + Granted(answers[1..], n - 1) }

  /** The calls want, made in order up to the first that is refused, lead from answers a
      and calls c to b and d, with result r. */
  ghost predicate Maps(a: seq<int>, c: seq<Call>, want: seq<Call>, r: int, b: seq<int>, d: seq<Call>) {
    var k := Granted(a, |want|);
    d == c + want[..k] && (r == 0 <==> k == |want|) && (r == 0 ==> b == a[k..])
  }

  lemma MapsNothing(a: seq<int>, c: seq<Call>)
    ensures Maps(a, c, [], 0, a, c)
  {}

  lemma MapsMeans(a: seq<int>, c: seq<Call>, want: seq<Call>, r: int, b: seq<int>, d: seq<Call>)
    requires Maps(a, c, want, r, b, d)
    ensures d == c + want[..Granted(a, |want|)] && (r == 0 <==> Granted(a, |want|) == |want|)
  {}

  lemma {:induction false} GrantedSum(a: seq<int>, n: nat, m: nat)
    ensures Granted(a, n + m) == if Granted(a, n) == n then n + Granted(a[n..], m) else Granted(a, n)
  {
    if n > 0 && a != [] && a[0] == 0 {
      GrantedSum(a[1..], n - 1, m);
      if Granted(a, n) == n { assert a[1..][n - 1..] == a[n..]; }
    } else if n == 0 {
      assert a[0..] == a;
    }
  }

  /** More calls after all the first have been granted. */
  lemma MapsThen(a: seq<int>, c: seq<Call>, first: seq<Call>, a1: seq<int>, c1: seq<Call>, next: seq<Call>, r: int,
                 b: seq<int>, d: seq<Call>)
    requires Maps(a, c, first, 0, a1, c1) && Maps(a1, c1, next, r, b, d)
    ensures Maps(a, c, first + next, r, b, d)
  {
    var n, k := |first|, Granted(a1, |next|);
    GrantedSum(a, n, |next|);
    assert (first + next)[..n + k] == first + next[..k];
    if r == 0 { assert a[n..][k..] == a[n + k..]; }
  }

  /** After a refusal no more calls are made. */
  lemma MapsPart(a: seq<int>, c: seq<Call>, first: seq<Call>, rest: seq<Call>, r: int, b: seq<int>, d: seq<Call>)
    requires r != 0 && Maps(a, c, first, r, b, d)
    ensures Maps(a, c, first + rest, r, b, d)
  {
    GrantedSum(a, |first|, |rest|);
    var k := Granted(a, |first|);
    assert (first + rest)[..k] == first[..k];
  }

  function FileCall(va: nat, bin: seq<Byte>, i: nat): Call
    requires i < |bin|
  { Call((va + i) / PAGE_SIZE, PageWith(0, bin[i..i + Min(|bin| - i, PAGE_SIZE)])) }

  /** One round of step 1, or none. */
  lemma FileCallsStep(va: nat, bin: seq<Byte>, i: nat, done: seq<Call>)
    ensures i >= |bin| ==> done + FileCalls(va, bin, i) == done && FileEnd(bin, i) == i
    ensures i < |bin| ==>
      && FileEnd(bin, i) == FileEnd(bin, i + PAGE_SIZE)
      && done + FileCalls(va, bin, i) == done + [FileCall(va, bin, i)] + FileCalls(va, bin, i + PAGE_SIZE)
  {}

  /** One round of step 2, or none. */
  lemma ZeroCallsStep(va: nat, memsz: nat, i: nat, done: seq<Call>)
    ensures i >= memsz ==> done + ZeroCalls(va, memsz, i) == done
    ensures i < memsz ==>
      done + ZeroCalls(va, memsz, i) ==
        done + [Call((va + i) / PAGE_SIZE, Zeros(PAGE_SIZE))] + ZeroCalls(va, memsz, i + PAGE_SIZE)
  {}

  lemma ZerosFill()
    ensures PageWith(0, []) == Zeros(PAGE_SIZE)
  {}

  lemma InstallOne(a: seq<int>, before: seq<Call>, call: Call, r: int, b: seq<int>, after: seq<Call>)
    requires Maps(a, before, [call], r, b, after)
    ensures Install(map[], after) ==
      if r == 0 then Install(map[], before)[call.page := call.content] else Install(map[], before)
  {
    if r == 0 { assert after == before + [call]; } else { assert after == before; }
  }
}
