/**
 Numbers as text: `ulitoa` and `ullitoa` with their in-place reversal, `litoa`, and `atou`.
 */
module Numerals {
  import opened Basics

  // ----- Numerals and their value -----

  function Digit(r: nat): (c: char)
    requires r < 32
  {
    if r <= 9 then '0' + r as char else 'A' + (r - 10) as char
  }

  function DigitValue(c: char): nat {
    if '0' <= c <= '9' then (c - '0') as nat
    else if 'A' <= c <= 'V' then (c - 'A') as nat + 10
    else 0
  }

  /** The numeral of `n`, most significant digit first. */
  function Numeral(n: nat, base: nat): (s: string)
    requires 2 <= base <= 32
    ensures s != ""
  {
    if n < base then [Digit(n)] else Numeral(n / base, base) + [Digit(n % base)]
  }

  /** The number that a digit string stands for. */
  function Value(s: string, base: nat): nat {
    if s == "" then 0 else Value(s[..|s| - 1], base) * base + DigitValue(s[|s| - 1])
  }

  lemma DigitRoundTrip(d: nat)
    requires d < 32
    ensures DigitValue(Digit(d)) == d
  {}

  lemma ValueAppend(t: string, d: nat, base: nat)
    requires d < 32
    ensures Value(t + [Digit(d)], base) == Value(t, base) * base + d
  {
    var s := t + [Digit(d)];
    assert s[..|s| - 1] == t;
    DigitRoundTrip(d);
  }

  /** A character that is the digit of some number below the base. */
  predicate IsDigitOf(c: char, base: nat)
    requires base <= 32
  {
    DigitValue(c) < base && c == Digit(DigitValue(c))
  }

  /** The numeral of a number stands for it, has no leading zero, and consists of digits of the base. */
  lemma {:induction false} NumeralValue(n: nat, base: nat)
    requires 2 <= base <= 32
    ensures Value(Numeral(n, base), base) == n
    ensures Numeral(n, base)[0] == '0' <==> n == 0
    ensures forall k :: 0 <= k < |Numeral(n, base)| ==> IsDigitOf(Numeral(n, base)[k], base)
    decreases n
  {
    if n < base {
      DigitRoundTrip(n);
      ValueAppend("", n, base);
      assert "" + [Digit(n)] == [Digit(n)];
    } else {
      QuotientPositive(n, base);
      NumeralValue(n / base, base);
      ValueAppend(Numeral(n / base, base), n % base, base);
      DigitRoundTrip(n % base);
      DivMod(n, base);
    }
  }

  lemma DivMod(n: nat, base: nat)
    requires base > 0
    ensures n / base * base + n % base == n && n % base < base
  {}

  lemma QuotientPositive(n: nat, base: nat)
    requires 2 <= base && n >= base
    ensures 0 < n / base < n
  {}

  // ----- The divide loop and the reversal -----

  /** Digits in the order the divide loop produces them, least significant first. */
  function LowFirst(n: nat, base: nat): string
    requires 2 <= base <= 32
    decreases n
  {
    if n < base then [Digit(n)]
    else
      assert n / base < n by { QuotientPositive(n, base); }
      [Digit(n % base)] + LowFirst(n / base, base)
  }

  function Reversed(s: string): (r: string)
    ensures |r| == |s|
  {
    if s == "" then "" else Reversed(s[1..]) + [s[0]]
  }

  lemma {:induction false} ReversedAt(s: string, k: nat)
    requires k < |s|
    ensures Reversed(s)[k] == s[|s| - 1 - k]
  {
    if k < |s| - 1 {
      ReversedAt(s[1..], k);
    }
  }

  lemma {:induction false} NumeralIsReversed(n: nat, base: nat)
    requires 2 <= base <= 32
    ensures Numeral(n, base) == Reversed(LowFirst(n, base))
    decreases n
  {
    if n < base {
      assert LowFirst(n, base)[1..] == "";
    } else {
      QuotientPositive(n, base);
      NumeralIsReversed(n / base, base);
      assert LowFirst(n, base)[1..] == LowFirst(n / base, base);
    }
  }

  /** `reverse_buffer` on the `len` characters from `off`. */
  method ReverseBuffer(buf: array<char>, off: nat, len: nat)
    requires off + len <= buf.Length
    modifies buf
    ensures buf[off..off + len] == Reversed(old(buf[off..off + len]))
    ensures forall k :: 0 <= k < off || off + len <= k < buf.Length ==> buf[k] == old(buf[k])
  {
    ghost var was := buf[off..off + len];
    var i := 0;
    while i < len / 2
      invariant 0 <= i <= len / 2
      invariant forall j :: off <= j < off + len ==>
                  buf[j] == var k := j - off; if k < i || len - i <= k then was[len - 1 - k] else was[k]
      invariant forall k :: 0 <= k < off || off + len <= k < buf.Length ==> buf[k] == old(buf[k])
    {
      var temp := buf[off + i];
      buf[off + i] := buf[off + len - i - 1];
      buf[off + len - i - 1] := temp;
      i := i + 1;
    }
    forall k | 0 <= k < len ensures buf[off..off + len][k] == Reversed(was)[k] {
      ReversedAt(was, k);
    }
  }

  /** `ulitoa` and `ullitoa`: the numeral of `input` from `off` on, nothing else touched. */
  method Ulitoa(input: nat, buf: array<char>, off: nat, base: nat)
    requires 2 <= base <= 32 && off + |Numeral(input, base)| <= buf.Length
    modifies buf
    ensures buf[off..off + |Numeral(input, base)|] == Numeral(input, base)
    ensures forall k :: 0 <= k < off || off + |Numeral(input, base)| <= k < buf.Length ==> buf[k] == old(buf[k])
  {
    NumeralIsReversed(input, base);
    ghost var all := LowFirst(input, base);
    var count, n := FillDigits(input, buf, off, base);
    ReverseBuffer(buf, off, count);
  }

  /** The do-while loop of `ulitoa`. */
  method FillDigits(input: nat, buf: array<char>, off: nat, base: nat) returns (count: nat, n: nat)
    requires 2 <= base <= 32 && off + |LowFirst(input, base)| <= buf.Length
    modifies buf
    ensures n == 0 && count == |LowFirst(input, base)| && buf[off..off + count] == LowFirst(input, base)
    ensures forall k :: 0 <= k < off || off + count <= k < buf.Length ==> buf[k] == old(buf[k])
  {
    ghost var all := LowFirst(input, base);
    count, n := 0, input;
    var more := true;
    assert all[0..] == all;
    while more
      invariant count <= |all| && buf[off..off + count] == all[..count]
      invariant more ==> all[count..] == LowFirst(n, base)
      invariant !more ==> n == 0 && count == |all|
      invariant forall k :: 0 <= k < off || off + count <= k < buf.Length ==> buf[k] == old(buf[k])
      decreases more, n
    {
      LowFirstStep(n, base);
      var rem := n % base;
      assert all[count] == all[count..][0];
      buf[off + count] := Digit(rem);
      assert all[count + 1..] == all[count..][1..];
      assert buf[off..off + count + 1] == buf[off..off + count] + [Digit(rem)];
      count := count + 1;
      n := n / base;
      more := n != 0;
    }
  }

  /** One round of the loop takes the first digit off. */
  lemma LowFirstStep(n: nat, base: nat)
    requires 2 <= base <= 32
    ensures LowFirst(n, base) != "" && LowFirst(n, base)[0] == Digit(n % base)
    ensures n / base == 0 ==> LowFirst(n, base)[1..] == ""
    ensures n / base != 0 ==> LowFirst(n, base)[1..] == LowFirst(n / base, base) && n / base < n
  {
    if n >= base {
      QuotientPositive(n, base);
    } else {
      SmallQuotient(n, base);
    }
  }

  lemma SmallQuotient(n: nat, base: nat)
    requires n < base
    ensures n / base == 0 && n % base == n
  {}

  // ----- litoa -----

  /** The signed decimal numeral. */
  function Signed(v: int): string {
    if v < 0 then "-" + Numeral(-v, 10) else Numeral(v, 10)
  }

  /** `litoa(input, buf, 10)`; the most negative long negates to itself and prints as its magnitude. */
  method Litoa(input: int, buf: array<char>)
    requires -0x8000_0000 <= input < 0x8000_0000 && |Signed(input)| <= buf.Length
    modifies buf
    ensures buf[..|Signed(input)|] == Signed(input)
    ensures forall k :: |Signed(input)| <= k < buf.Length ==> buf[k] == old(buf[k])
  {
    if input < 0 {
      NegateLong(input);
      var n := S32(-input);
      buf[0] := '-';
      Ulitoa(U32(n), buf, 1, 10);
      assert buf[..|Signed(input)|] == [buf[0]] + buf[1..1 + |Numeral(-input, 10)|];
    } else {
      assert U32(input) == input;
      Ulitoa(U32(input), buf, 0, 10);
    }
  }

  lemma NegateLong(v: int)
    requires -0x8000_0000 <= v < 0
    ensures U32(S32(-v)) == -v
  {}

  // ----- atou -----

  const DEC_POW: seq<nat> := [1, 10, 100, 1000, 10000, 100000, 1000000, 10000000, 100000000, 1000000000]

  function Pow10(k: nat): nat { if k == 0 then 1 else 10 * Pow10(k - 1) }

  /** The table of `atoi.c` holds the powers of ten. */
  lemma TableOfPowers(k: nat)
    requires k < 10
    ensures |DEC_POW| == 10 && DEC_POW[k] == Pow10(k)
  {
    if k > 0 {
      TableOfPowers(k - 1);
    }
  }

  predicate IsDigit(c: char) { '0' <= c <= '9' }

  /** How many digits follow from position `i`. */
  function DigitRun(s: string, i: nat): (k: nat)
    requires i <= |s|
    ensures i + k <= |s| && (forall j :: i <= j < i + k ==> IsDigit(s[j]))
    ensures i + k < |s| ==> !IsDigit(s[i + k])
    decreases |s| - i
  {
    if i < |s| && IsDigit(s[i]) then 1 + DigitRun(s, i + 1) else 0
  }

  lemma {:induction false} ValuePrepend(c: char, s: string)
    ensures Value([c] + s, 10) == DigitValue(c) * Pow10(|s|) + Value(s, 10)
  {
    if s == "" {
      assert ([c] + s)[..0] == "";
    } else {
      var t := s[..|s| - 1];
      assert ([c] + s)[..|s|] == [c] + t;
      ValuePrepend(c, t);
      Scale(DigitValue(c), Pow10(|t|), Value(t, 10));
    }
  }

  lemma Scale(d: nat, p: nat, v: nat)
    ensures (d * p + v) * 10 == d * (10 * p) + v * 10
  {}

  /**
   `atou` at position `i` of a string: the value of the digits there, in 32-bit
   arithmetic. The power table has ten entries, so a run of eleven or more digits would
   read past it.
   */
  method Atou(s: string, i: nat) returns (r: nat)
    requires i <= |s| && DigitRun(s, i) <= 10
    ensures r == U32(Value(s[i..i + DigitRun(s, i)], 10))
  {
    var digits := 0;
    ghost var run := DigitRun(s, i);
    while i + digits < |s| && digits < 11 && IsDigit(s[i + digits])
      invariant digits <= run
    {
      digits := digits + 1;
    }
    r := SumDigits(s, i, digits);
  }

  /** The second loop of `atou`: digits times powers, from the last digit on. */
  method SumDigits(s: string, i: nat, digits: nat) returns (r: nat)
    requires i + digits <= |s| && digits <= 10
    ensures r == U32(Value(s[i..i + digits], 10))
  {
    var end := i + digits;
    r := 0;
    var k := 0;
    assert s[end..end] == "";
    while k < digits
      invariant 0 <= k <= digits && r == U32(Value(s[end - k..end], 10))
    {
      var c := s[end - k - 1];
      TableOfPowers(k);
      PrependDigit(s, end, k, r);
      r := U32(r + DigitValue(c) * DEC_POW[k]);
      k := k + 1;
    }
  }

  lemma PrependDigit(s: string, end: nat, k: nat, r: nat)
    requires k < end <= |s| && r == U32(Value(s[end - k..end], 10))
    ensures U32(r + DigitValue(s[end - k - 1]) * Pow10(k)) == U32(Value(s[end - k - 1..end], 10))
  {
    var rest := s[end - k..end];
    var c := s[end - k - 1];
    var whole := s[end - k - 1..end];
    assert whole == [c] + rest && |rest| == k;
    ValuePrepend(c, rest);
    SumWrap(Value(rest, 10), DigitValue(c) * Pow10(k), Value([c] + rest, 10), r);
  }

  lemma SumWrap(x: nat, y: nat, v: nat, r: nat)
    requires v == y + x && r == U32(x)
    ensures U32(r + y) == U32(v)
  {
    WrapAdd(x, y);
  }

  function Pow(b: nat, k: nat): nat { if k == 0 then 1 else b * Pow(b, k - 1) }

  /** A number below the `k`-th power of the base has at most `k` digits. */
  lemma {:induction false} NumeralLength(n: nat, base: nat, k: nat)
    requires 2 <= base <= 32 && k >= 1 && n < Pow(base, k)
    ensures |Numeral(n, base)| <= k
    decreases k
  {
    if n >= base {
      assert n / base < Pow(base, k - 1) by { QuotientBelow(n, base, Pow(base, k - 1)); }
      NumeralLength(n / base, base, k - 1);
    }
  }

  lemma QuotientBelow(n: nat, base: nat, p: nat)
    requires base > 0 && n < base * p
    ensures n / base < p
  {}

  /** Every 32-bit number has a decimal numeral of at most ten digits, none of them a letter. */
  lemma DecimalDigits(n: nat)
    requires n < U32_LIMIT
    ensures |Numeral(n, 10)| <= 10 && forall k :: 0 <= k < |Numeral(n, 10)| ==> IsDigit(Numeral(n, 10)[k])
  {
    assert Pow(10, 10) == 10000000000;
    NumeralLength(n, 10, 10);
    NumeralValue(n, 10);
    forall k | 0 <= k < |Numeral(n, 10)| ensures IsDigit(Numeral(n, 10)[k]) {
      assert IsDigitOf(Numeral(n, 10)[k], 10);
    }
  }

  /** `atou` reads back what `ulitoa` writes in base 10, for every 32-bit number and whatever follows it. */
  method AtouOfUlitoa(n: nat, tail: string) returns (r: nat)
    requires n < U32_LIMIT && (tail != "" ==> !IsDigit(tail[0]))
    ensures r == n
  {
    DecimalDigits(n);
    var buf := new char[11];
    Ulitoa(n, buf, 0, 10);
    NumeralInFront(n, tail);
    r := Atou(buf[..|Numeral(n, 10)|] + tail, 0);
  }

  /** The digits in front of `tail` are the numeral, and stand for the number. */
  lemma NumeralInFront(n: nat, tail: string)
    requires n < U32_LIMIT && (tail != "" ==> !IsDigit(tail[0]))
    ensures var s := Numeral(n, 10); var text := s + tail;
            DigitRun(text, 0) == |s| <= 10 && U32(Value(text[0..|s|], 10)) == n
  {
    var s := Numeral(n, 10);
    DecimalDigits(n);
    NumeralValue(n, 10);
    RunOfNumeral(s + tail, 0, |s|);
    assert (s + tail)[0..|s|] == s;
  }

  lemma RunOfNumeral(s: string, i: nat, k: nat)
    requires i + k <= |s| && (forall j :: i <= j < i + k ==> IsDigit(s[j])) && (i + k < |s| ==> !IsDigit(s[i + k]))
    ensures DigitRun(s, i) == k
  {}
}
