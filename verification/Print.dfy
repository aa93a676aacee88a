/** Printing numbers (lib/print.c): digits are written backwards into a buffer of
    length + 70 characters, padded, and turned round in place. */
module Print {

  const ULONG := 0x1_0000_0000

  function Digit(d: nat, upcase: bool): (c: char)
    requires d < 16
    ensures c != ' ' && c != '-'
  {
    if d <= 9 then '0' + d as char else if upcase then 'A' + (d - 10) as char else 'a' + (d - 10) as char
  }

  function Reversed(s: string): (r: string)
    ensures |r| == |s| && forall i | 0 <= i < |s| :: r[i] == s[|s| - 1 - i]
  { seq(|s|, i requires 0 <= i < |s| => s[|s| - 1 - i]) }

  /** The number as people write it. */
  function Digits(u: nat, base: nat, upcase: bool): (s: string)
    requires 2 <= base <= 16
    ensures s != [] && forall i | 0 <= i < |s| :: s[i] != ' ' && s[i] != '-'
  {
    if u < base then [Digit(u, upcase)] else Digits(u / base, base, upcase) + [Digit(u % base, upcase)]
  }

  function Repeat(c: char, n: int): (s: string)
    ensures |s| == if n < 0 then 0 else n
    ensures forall i | 0 <= i < |s| :: s[i] == c
  { seq(if n < 0 then 0 else n, i => c) }

  function Number(u: nat, base: nat, neg: bool, upcase: bool): string
    requires 2 <= base <= 16
  { (if neg then "-" else "") + Digits(u, base, upcase) }

  /** What print_num promises to print: padding goes behind when left-adjusted, between
      sign and digits when zeros pad a negative number, and in front otherwise. */
  function Layout(u: nat, base: nat, neg: bool, length: nat, ladjust: bool, padc: char, upcase: bool): string
    requires 2 <= base <= 16
  {
    var n := Number(u, base, neg, upcase);
    if ladjust then n + Repeat(' ', length - |n|)
    else if neg && padc == '0' then "-" + Repeat('0', length - |n|) + Digits(u, base, upcase)
    else Repeat(padc, length - |n|) + n
  }

  // ----- reading a number back

  function DigitValue(c: char): nat {
    if '0' <= c <= '9' then (c - '0') as nat
    else if 'A' <= c <= 'F' then (c - 'A') as nat + 10
    else if 'a' <= c <= 'f' then (c - 'a') as nat + 10
    else 0
  }

  function Value(s: string, base: nat): nat {
    if s == [] then 0 else Value(s[..|s| - 1], base) * base + DigitValue(s[|s| - 1])
  }

  /** Skip blanks in front, take a sign, read up to a blank or the end. */
  function Parse(s: string, base: nat): (bool, nat) {
    if s == [] then (false, 0)
    else if s[0] == ' ' then Parse(s[1..], base)
    else if s[0] == '-' then (true, Value(UpToBlank(s[1..]), base))
    else (false, Value(UpToBlank(s), base))
  }

  function UpToBlank(s: string): string {
    if s == [] || s[0] == ' ' then [] else [s[0]] + UpToBlank(s[1..])
  }

  lemma DigitReads(d: nat, upcase: bool)
    requires d < 16
    ensures DigitValue(Digit(d, upcase)) == d
  {}

  lemma AppendReads(s: string, c: char, base: nat)
    ensures Value(s + [c], base) == Value(s, base) * base + DigitValue(c)
  {
    hide DigitValue;
    assert (s + [c])[..|s|] == s;
  }

  lemma {:induction false} DigitsRead(u: nat, base: nat, upcase: bool)
    requires 2 <= base <= 16
    ensures Value(Digits(u, base, upcase), base) == u
  {
    if u < base {
      DigitReads(u, upcase);
      AppendReads([], Digit(u, upcase), base);
      assert [] + [Digit(u, upcase)] == Digits(u, base, upcase);
    } else {
      var q, r := u / base, u % base;
      Quotient(u, base);
      DigitsRead(q, base, upcase);
      LastDigitReads(q, r, base, upcase);
    }
  }

  lemma Quotient(u: nat, base: nat)
    requires base >= 2
    ensures u / base * base + u % base == u && (u > 0 ==> u / base < u)
  {}

  lemma LastDigitReads(q: nat, r: nat, base: nat, upcase: bool)
    requires 2 <= base <= 16 && r < base && Value(Digits(q, base, upcase), base) == q
    ensures Value(Digits(q, base, upcase) + [Digit(r, upcase)], base) == q * base + r
  {
    hide Digits, Digit, DigitValue, Value;
    DigitReads(r, upcase);
    AppendReads(Digits(q, base, upcase), Digit(r, upcase), base);
  }

  lemma {:induction false} ZerosRead(n: nat, s: string, base: nat)
    ensures Value(Repeat('0', n) + s, base) == Value(s, base)
    decreases |s|, n
  {
    var z := Repeat('0', n);
    if s == [] {
      assert z + s == z;
      if n > 0 {
        assert z[..n - 1] == Repeat('0', n - 1) == Repeat('0', n - 1) + [];
        ZerosRead(n - 1, [], base);
      }
    } else {
      assert (z + s)[..|z + s| - 1] == z + s[..|s| - 1];
      ZerosRead(n, s[..|s| - 1], base);
    }
  }

  lemma {:induction false} StopsAtBlank(s: string, n: nat)
    requires forall i | 0 <= i < |s| :: s[i] != ' '
    ensures UpToBlank(s + Repeat(' ', n)) == s
    decreases |s|
  {
    if s != [] {
      assert (s + Repeat(' ', n))[1..] == s[1..] + Repeat(' ', n);
      StopsAtBlank(s[1..], n);
    }
  }

  lemma {:induction false} SkipsBlanks(n: nat, s: string, base: nat)
    ensures Parse(Repeat(' ', n) + s, base) == Parse(s, base)
    decreases n
  {
    if n == 0 {
      assert Repeat(' ', n) + s == s;
    } else {
      assert (Repeat(' ', n) + s)[1..] == Repeat(' ', n - 1) + s;
      SkipsBlanks(n - 1, s, base);
    }
  }

  lemma ParsesNumber(u: nat, base: nat, neg: bool, upcase: bool, zeros: nat, blanks: nat)
    requires 2 <= base <= 16
    ensures var d := Repeat('0', zeros) + Digits(u, base, upcase);
      Parse((if neg then "-" else "") + d + Repeat(' ', blanks), base) == (neg, u)
  {
    hide Digits, Value, Repeat;
    var d := Repeat('0', zeros) + Digits(u, base, upcase);
    var b := Repeat(' ', blanks);
    DigitsRead(u, base, upcase);
    ZerosRead(zeros, Digits(u, base, upcase), base);
    StopsAtBlank(d, blanks);
    if neg {
      assert ("-" + d + b)[1..] == d + b;
    } else {
      assert "" + d + b == d + b;
    }
  }

  /** However it is padded, what is printed reads back as the number, and it is as long
      as asked or as long as the number needs. */
  lemma PrintedReadsBack(u: nat, base: nat, neg: bool, length: nat, ladjust: bool, padc: char, upcase: bool)
    requires 2 <= base <= 16 && (padc == ' ' || padc == '0')
    ensures var s := Layout(u, base, neg, length, ladjust, padc, upcase);
      var n := |Number(u, base, neg, upcase)|;
      Parse(s, base) == (neg, u) && |s| == if length < n then n else length
  {
    hide Parse, Digits, Value;
    if ladjust { PadsBehind(u, base, neg, length, padc, upcase); }
    else if padc == '0' { PadsWithZeros(u, base, neg, length, upcase); }
    else { PadsInFront(u, base, neg, length, upcase); }
  }

  lemma PadsBehind(u: nat, base: nat, neg: bool, length: nat, padc: char, upcase: bool)
    requires 2 <= base <= 16
    ensures Parse(Layout(u, base, neg, length, true, padc, upcase), base) == (neg, u)
  {
    hide Parse, Digits, Value;
    var d, sign := Digits(u, base, upcase), if neg then "-" else "";
    var pad: nat := if length < |sign + d| then 0 else length - |sign + d|;
    ParsesNumber(u, base, neg, upcase, 0, pad);
    assert Layout(u, base, neg, length, true, padc, upcase) == sign + (Repeat('0', 0) + d) + Repeat(' ', pad);
  }

  lemma PadsWithZeros(u: nat, base: nat, neg: bool, length: nat, upcase: bool)
    requires 2 <= base <= 16
    ensures Parse(Layout(u, base, neg, length, false, '0', upcase), base) == (neg, u)
  {
    hide Parse, Digits, Value;
    var d, sign := Digits(u, base, upcase), if neg then "-" else "";
    var pad: nat := if length < |sign + d| then 0 else length - |sign + d|;
    ParsesNumber(u, base, neg, upcase, pad, 0);
    assert Layout(u, base, neg, length, false, '0', upcase) == sign + (Repeat('0', pad) + d) + Repeat(' ', 0);
  }

  lemma PadsInFront(u: nat, base: nat, neg: bool, length: nat, upcase: bool)
    requires 2 <= base <= 16
    ensures Parse(Layout(u, base, neg, length, false, ' ', upcase), base) == (neg, u)
  {
    hide Parse, Digits, Value;
    var d, sign := Digits(u, base, upcase), if neg then "-" else "";
    var pad: nat := if length < |sign + d| then 0 else length - |sign + d|;
    ParsesNumber(u, base, neg, upcase, 0, 0);
    assert sign + d == sign + (Repeat('0', 0) + d) + Repeat(' ', 0);
    SkipsBlanks(pad, sign + d, base);
    assert Layout(u, base, neg, length, false, ' ', upcase) == Repeat(' ', pad) + (sign + d);
  }

  predicate HasCase(c: char, upcase: bool) { if upcase then !('a' <= c <= 'z') else !('A' <= c <= 'Z') }

  /** Letters are in the case that was asked for, and no zero stands in front. */
  lemma {:induction false} DigitsAreNeat(u: nat, base: nat, upcase: bool)
    requires 2 <= base <= 16
    ensures var d := Digits(u, base, upcase);
      && (forall i | 0 <= i < |d| :: HasCase(d[i], upcase))
      && (d[0] == '0' <==> u == 0) && (u < base <==> |d| == 1)
  {
    DigitsEnd(u, base, upcase);
    hide Digit, Digits, HasCase;
    var q, r := u / base, u % base;
    DigitIsNeat(r, upcase);
    if u >= base {
      DigitsAreNeat(q, base, upcase);
      OneMoreInCase(Digits(q, base, upcase), Digit(r, upcase), upcase);
    }
  }

  lemma DigitsEnd(u: nat, base: nat, upcase: bool)
    requires 2 <= base <= 16
    ensures u < base ==> Digits(u, base, upcase) == [Digit(u % base, upcase)] && u % base == u
    ensures u >= base ==>
      0 < u / base < u && Digits(u, base, upcase) == Digits(u / base, base, upcase) + [Digit(u % base, upcase)]
  {
    hide Digit;
    SmallQuotient(u, base);
    Quotient(u, base);
  }

  lemma OneMoreInCase(s: string, c: char, upcase: bool)
    requires (forall i | 0 <= i < |s| :: HasCase(s[i], upcase)) && HasCase(c, upcase) && s != []
    ensures (forall i | 0 <= i < |s| + 1 :: HasCase((s + [c])[i], upcase)) && (s + [c])[0] == s[0]
  {
    hide HasCase;
  }

  lemma DigitIsNeat(d: nat, upcase: bool)
    requires d < 16
    ensures HasCase(Digit(d, upcase), upcase) && (Digit(d, upcase) == '0' <==> d == 0)
  {}

  /** Where everything is: blanks behind when left-adjusted, in front when padded with
      blanks, and nowhere else; the sign first of all but those; letters in one case. */
  lemma EverythingInPlace(u: nat, base: nat, neg: bool, length: nat, ladjust: bool, padc: char, upcase: bool, i: nat)
    requires 2 <= base <= 16 && (padc == ' ' || padc == '0')
    requires i < |Layout(u, base, neg, length, ladjust, padc, upcase)|
    ensures var s := Layout(u, base, neg, length, ladjust, padc, upcase);
      var n := (if neg then 1 else 0) + |Digits(u, base, upcase)|;
      && |s| == (if length < n then n else length)
      && (s[i] == ' ' <==> if ladjust then i >= n else padc == ' ' && i < |s| - n)
      && (s[i] == '-' <==> neg && i == if ladjust || padc == '0' then 0 else |s| - n)
      && HasCase(s[i], upcase)
  {
    hide Digits;
    DigitsAreNeat(u, base, upcase);
  }

  /** A number of k bits has at most k digits in any base. */
  lemma {:induction false} DigitsFit(u: nat, base: nat, upcase: bool, k: nat)
    requires 2 <= base <= 16 && k >= 1 && u < Power2(k)
    ensures |Digits(u, base, upcase)| <= k
    decreases k
  {
    if u >= base {
      assert k > 1;
      Halves(u, base);
      DigitsFit(u / base, base, upcase, k - 1);
    }
  }

  function Power2(k: nat): nat { if k == 0 then 1 else 2 * Power2(k - 1) }

  lemma Halves(u: nat, base: nat)
    requires base >= 2
    ensures u / base <= u / 2
  {
    assert u / base * 2 <= u / base * base <= u;
  }

  lemma Power32()
    ensures Power2(32) == ULONG
  {
    assert Power2(8) == 256;
    assert Power2(16) == 65536;
    assert Power2(24) == 16777216;
  }

  // ----- print_num

  /** Turn round the first n characters in place. */
  method TurnRound(buf: array<char>, n: nat)
    requires n <= buf.Length
    modifies buf
    ensures buf[..n] == Reversed(old(buf[..n])) && buf[n..] == old(buf[n..])
  {
    var begin, end := 0, n - 1;
    while end > begin
      invariant 0 <= begin && begin + end == n - 1 && end >= begin - 2 && end < n
      invariant forall k | 0 <= k < begin || end < k < n :: buf[k] == old(buf[n - 1 - k])
      invariant forall k | begin <= k <= end :: buf[k] == old(buf[k])
      invariant forall k | n <= k < buf.Length :: buf[k] == old(buf[k])
    {
      buf[begin], buf[end] := buf[end], buf[begin];
      begin := begin + 1;
      end := end - 1;
    }
  }

  /** The digits still to come when v is left. */
  function Rest(v: nat, base: nat, upcase: bool): string
    requires 2 <= base <= 16
  { if v == 0 then "" else Digits(v, base, upcase) }

  lemma SmallQuotient(v: nat, base: nat)
    requires base >= 2
    ensures v < base ==> v / base == 0 && v % base == v
    ensures v >= base ==> v / base > 0
  {
    assert v == v / base * base + v % base;
  }

  /** Zero has one digit too. */
  lemma DigitsStep(v: nat, base: nat, upcase: bool)
    requires 2 <= base <= 16
    ensures v / base >= 0
    ensures Digits(v, base, upcase) == Rest(v / base, base, upcase) + [Digit(v % base, upcase)]
  {
    hide Digit;
    SmallQuotient(v, base);
  }

  /** The last digit comes first. */
  lemma LastFirst(v: nat, base: nat, upcase: bool)
    requires 2 <= base <= 16
    ensures v / base >= 0
    ensures Reversed(Digits(v, base, upcase)) == [Digit(v % base, upcase)] + Reversed(Rest(v / base, base, upcase))
    ensures |Digits(v, base, upcase)| == 1 + |Rest(v / base, base, upcase)|
  {
    hide Digit, Digits, Rest;
    DigitsStep(v, base, upcase);
    ReversedConcat(Rest(v / base, base, upcase), [Digit(v % base, upcase)]);
  }

  /** The digits of u, last one first. */
  method PutDigits(buf: array<char>, u: nat, base: nat, upcase: bool) returns (n: nat)
    requires 2 <= base <= 16 && u < ULONG && buf.Length >= 70
    modifies buf
    ensures n <= 32 && buf[..n] == Reversed(Digits(u, base, upcase))
  {
    hide Digits, Digit, Power2, Reversed;
    Power32();
    DigitsFit(u, base, upcase, 32);
    ghost var all := Digits(u, base, upcase);
    LastFirst(u, base, upcase);
    buf[0] := Digit(u % base, upcase);
    n := 1;
    var v: nat := u / base;
    while v != 0
      invariant 1 <= n && n + |Rest(v, base, upcase)| == |all|
      invariant buf[..n] + Reversed(Rest(v, base, upcase)) == Reversed(all)
      decreases v
    {
      Quotient(v, base);
      LastFirst(v, base, upcase);
      ghost var before := buf[..n];
      buf[n] := Digit(v % base, upcase);
      n := n + 1;
      assert buf[..n] == before + [Digit(v % base, upcase)];
      v := v / base;
      assert buf[..n] + Reversed(Rest(v, base, upcase)) == before + ([buf[n - 1]] + Reversed(Rest(v, base, upcase)));
    }
  }

  /** buf[i] = padc from one index up to another. */
  method Pad(buf: array<char>, from: nat, to: nat, c: char)
    requires from <= to <= buf.Length
    modifies buf
    ensures buf[..to] == old(buf[..from]) + Repeat(c, to - from)
  {
    for i := from to to
      invariant buf[..i] == old(buf[..from]) + Repeat(c, i - from)
    { buf[i] := c; }
  }

  lemma ReversedConcat(a: string, b: string)
    ensures Reversed(a + b) == Reversed(b) + Reversed(a)
    ensures Reversed(Reversed(a)) == a
  {}

  lemma ReversedOne(c: char)
    ensures Reversed([c]) == [c]
  {}

  lemma ReversedRepeat(c: char, n: int)
    ensures Reversed(Repeat(c, n)) == Repeat(c, n)
  {}

  /** What stands in the buffer before it is turned round, unless left-adjusted. */
  lemma BackwardsLayout(u: nat, base: nat, neg: bool, width: nat, padc: char, upcase: bool)
    requires 2 <= base <= 16
    ensures var d := Digits(u, base, upcase); var n := Number(u, base, neg, upcase);
      Reversed(Layout(u, base, neg, width, false, padc, upcase)) ==
        if neg && padc == '0' then Reversed(d) + Repeat('0', width - |n|) + "-"
        else Reversed(n) + Repeat(padc, width - |n|)
  {
    hide Digits;
    var d, n := Digits(u, base, upcase), Number(u, base, neg, upcase);
    if neg && padc == '0' {
      ReversedConcat("-" + Repeat('0', width - |n|), d);
      ReversedConcat("-", Repeat('0', width - |n|));
      ReversedRepeat('0', width - |n|);
      assert Reversed("-") == "-";
      assert Reversed(d) + (Repeat('0', width - |n|) + "-") == Reversed(d) + Repeat('0', width - |n|) + "-";
    } else {
      ReversedConcat(Repeat(padc, width - |n|), n);
      ReversedRepeat(padc, width - |n|);
    }
  }

  /** print_num: what it passes to out. */
  method PrintNum(u: nat, base: nat, neg: bool, width: nat, ladjust: bool, pad: char, upcase: bool) returns (s: string)
    requires 2 <= base <= 16 && u < ULONG
    ensures s == Layout(u, base, neg, width, ladjust, pad, upcase)
  {
    hide Digits, Reversed, Repeat;
    ghost var n, d := Number(u, base, neg, upcase), Digits(u, base, upcase);
    var buf := new char[width + 70](_ => ' ');
    var actual := PutDigits(buf, u, base, upcase);
    if neg {
      buf[actual] := '-';
      actual := actual + 1;
      ReversedConcat("-", d);
      ReversedOne('-');
      assert buf[..actual] == Reversed(d) + "-" == Reversed(n);
    } else {
      assert "" + d == d;
    }
    assert buf[..actual] == Reversed(n);
    var length := if width < actual then actual else width;
    var padc := if ladjust then ' ' else pad;
    if neg && !ladjust && padc == '0' {
      PadNegative(buf, actual, length, d);
    } else {
      Pad(buf, actual, length, padc);
    }
    if ladjust {
      LeftAdjust(buf, actual, length, n);
    } else {
      BackwardsLayout(u, base, neg, width, padc, upcase);
      assert Repeat(padc, width - |n|) == Repeat(padc, length - actual);
      assert buf[..length] == Reversed(Layout(u, base, neg, width, false, padc, upcase));
      TurnRound(buf, length);
      ReversedConcat(Layout(u, base, neg, width, false, padc, upcase), "");
    }
    s := buf[..length];
  }

  /** Zeros go where the sign stood, and the sign goes last. */
  method PadNegative(buf: array<char>, actual: nat, length: nat, ghost d: string)
    requires actual == |d| + 1 && actual <= length <= buf.Length && buf[..actual] == Reversed(d) + "-"
    modifies buf
    ensures buf[..length] == Reversed(d) + Repeat('0', length - actual) + "-"
  {
    hide Reversed, Repeat;
    assert buf[..actual - 1] == buf[..actual][..actual - 1] == Reversed(d);
    Pad(buf, actual - 1, length - 1, '0');
    buf[length - 1] := '-';
    assert buf[..length] == buf[..length - 1] + "-";
  }

  /** Only the number itself is turned round. */
  method LeftAdjust(buf: array<char>, actual: nat, length: nat, ghost n: string)
    requires actual == |n| <= length <= buf.Length && buf[..length] == Reversed(n) + Repeat(' ', length - actual)
    modifies buf
    ensures buf[..length] == n + Repeat(' ', length - actual)
  {
    assert buf[..actual] == buf[..length][..actual] == Reversed(n);
    assert buf[actual..length] == buf[..length][actual..];
    TurnRound(buf, actual);
    ReversedConcat(n, "");
    assert buf[actual..length] == buf[actual..][..length - actual];
    assert buf[..length] == buf[..actual] + buf[actual..length];
  }
}
