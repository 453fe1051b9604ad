/**
 Formatted printing: the directive interpreter `gen_printf` with `print_number`, writing
 into a buffer of `n` characters. The reference is the unbounded output `Render`; the
 bounded run writes a prefix of it.
 */
module Printf {
  import opened Basics
  import opened Numerals

  /** A variadic argument; integers are reduced to the width that the conversion reads. */
  datatype Arg = Chr(c: char) | Str(s: string) | Num(v: int)

  function Repeat(c: char, k: nat): (s: string)
    ensures |s| == k && forall i :: 0 <= i < k ==> s[i] == c
  {
    if k == 0 then "" else Repeat(c, k - 1) + [c]
  }

  // ----- What a directive prints -----

  /** A `size_t` read as `ssize_t`, with negative values taken as 0. */
  function Positive(x: nat): nat { if x < 0x8000_0000 then x else 0 }

  predicate Negative(text: string) { text != "" && text[0] == '-' }

  /** The leading zeros of `print_number`: none when the number fills the width by itself. */
  function ZeroPad(text: string, width: nat, zeroPad: nat): nat {
    if |text| >= Positive(width) then 0 else zeroPad
  }

  /** The spaces between the leading zeros and the number. */
  function Spaces(text: string, precision: nat, width: nat, zeroPad: nat): nat {
    var left := Positive(width) - ZeroPad(text, width, zeroPad);
    var prec := Positive(precision);
    Max0(left - (if prec > 0 then prec + (if Negative(text) then 1 else 0) else |text|))
  }

  /** The number itself, with zeros behind the sign up to the precision. */
  function Body(text: string, precision: nat): string {
    var prec := Positive(precision);
    if Negative(text) && prec + 1 > |text| then "-" + Repeat('0', prec + 1 - |text|) + text[1..]
    else if prec > |text| then Repeat('0', prec - |text|) + text
    else text
  }

  /** Everything `print_number` prints. */
  function Padded(text: string, precision: nat, width: nat, zeroPad: nat): string {
    Repeat('0', ZeroPad(text, width, zeroPad)) + Repeat(' ', Spaces(text, precision, width, zeroPad)) + Body(text, precision)
  }

  /** `%s`: the padding is reduced by the length of the string only when the string is shorter. */
  function PaddedString(s: string, width: nat): string {
    Repeat(' ', if |s| < width then width - |s| else width) + s
  }

  const U64_LIMIT := 0x1_0000_0000_0000_0000

  /** The digits for a conversion character; signed conversions always go through 32 bits. */
  function NumberText(conv: char, v: int, wide: bool): string {
    if conv == 'd' || conv == 'i' then Signed(S32(v))
    else if conv == 'u' then Numeral(if wide then v % U64_LIMIT else U32(v), 10)
    else Numeral(if wide then v % U64_LIMIT else U32(v), 16)
  }

  predicate IsNumeric(conv: char) {
    conv == 'd' || conv == 'i' || conv == 'u' || conv == 'x' || conv == 'X'
  }

  // ----- Reading a directive -----

  /** How many zeros follow from position `i`. */
  function ZeroRun(f: string, i: nat): (k: nat)
    requires i <= |f|
    ensures i + k <= |f| && (forall j :: i <= j < i + k ==> f[j] == '0') && At(f, i + k) != '0'
    decreases |f| - i
  {
    if i < |f| && f[i] == '0' then 1 + ZeroRun(f, i + 1) else 0
  }

  /** Flags of a directive and the position of its conversion character. */
  datatype Flags = Flags(zeroPad: nat, width: nat, precision: nat, pos: nat)

  /** A number field: at most ten digits, which is what the power table of `atou` covers. */
  function Field(f: string, i: nat): Option<(nat, nat)>
    requires i <= |f|
  {
    var k := DigitRun(f, i);
    if k > 10 then None else Some((U32(Value(f[i..i + k], 10)), i + k))
  }

  /** The flags behind a percent sign at `i - 1`; None when a field is too long to read. */
  function ReadFlags(f: string, i: nat): (r: Option<Flags>)
    requires i <= |f|
    ensures r.Some? ==> i <= r.value.pos <= |f|
  {
    var z := ZeroRun(f, i);
    match Field(f, i + z)
    case None => None
    case Some((width, j)) => ReadPrecision(f, z, width, j)
  }

  function ReadPrecision(f: string, z: nat, width: nat, j: nat): (r: Option<Flags>)
    requires j <= |f|
    ensures r.Some? ==> j <= r.value.pos <= |f|
  {
    if At(f, j) != '.' then Some(Flags(z, width, 0, j))
    else
      match Field(f, j + 1)
      case None => None
      case Some((precision, k)) => Some(Flags(z, width, precision, k))
  }

  // ----- The unbounded output -----

  /** What one round of the loop prints, where it stops reading, and how many arguments it takes. */
  datatype Piece = Piece(text: string, next: nat, used: nat)

  /** End of a literal run that starts in front of `i`. */
  function LiteralEnd(f: string, i: nat): (j: nat)
    requires i <= |f|
    ensures i <= j <= |f| && (forall k :: i <= k < j ==> f[k] != '%') && (j < |f| ==> f[j] == '%')
    decreases |f| - i
  {
    if i < |f| && f[i] != '%' then LiteralEnd(f, i + 1) else i
  }

  predicate IsLiteral(f: string, i: nat)
    requires i < |f|
  {
    f[i] != '%' || At(f, i + 1) == '%'
  }

  function NumberPiece(fl: Flags, conv: char, wide: bool, next: nat, args: seq<Arg>): (r: Option<Piece>)
    ensures r.Some? ==> r.value.next == next && r.value.used <= |args|
  {
    if !IsNumeric(conv) then Some(Piece(Padded("", fl.precision, fl.width, fl.zeroPad), next, 0))
    else if args != [] && args[0].Num? then
      Some(Piece(Padded(NumberText(conv, args[0].v, wide), fl.precision, fl.width, fl.zeroPad), next, 1))
    else None
  }

  /**
   One round of the loop of `gen_printf` at position `i`. None stands for what the C code
   leaves undefined: a missing or mistyped argument, an unreadable field, the precision
   `INT_MAX`, or a format that ends inside `%l`.
   */
  function NextPiece(f: string, i: nat, args: seq<Arg>): (r: Option<Piece>)
    requires i < |f|
    ensures r.Some? ==> i < r.value.next <= |f| && r.value.used <= |args|
  {
    if IsLiteral(f, i) then
      var start := if f[i] == '%' then i + 1 else i;
      Some(Piece(f[start..LiteralEnd(f, start + 1)], LiteralEnd(f, start + 1), 0))
    else
      match ReadFlags(f, i + 1)
      case None => None
      case Some(fl) => DirectivePiece(f, i, fl, args)
  }

  function DirectivePiece(f: string, i: nat, fl: Flags, args: seq<Arg>): (r: Option<Piece>)
    requires i < |f| && i < fl.pos <= |f|
    ensures r.Some? ==> i < r.value.next <= |f| && r.value.used <= |args|
  {
    var j := fl.pos;
    var conv := At(f, j);
    if fl.precision == 0x7FFF_FFFF then None
    else if conv == 'c' then
      if args != [] && args[0].Chr? then Some(Piece([args[0].c], j + 1, 1)) else None
    else if conv == 's' then
      if args != [] && args[0].Str? then Some(Piece(PaddedString(args[0].s, fl.width), j + 1, 1)) else None
    else if conv == 'l' && At(f, j + 1) != 'l' then
      if j + 1 < |f| then NumberPiece(fl, f[j + 1], false, j + 2, args) else None
    else if conv == 'l' then
      if j + 2 < |f| then NumberPiece(fl, f[j + 2], true, j + 3, args) else None
    else if IsNumeric(conv) then NumberPiece(fl, conv, false, j + 1, args)
    else Some(Piece(f[i..], |f|, 0))
  }

  /** The whole output of a format from position `i` on; None when the C code is undefined. */
  function Render(f: string, i: nat, args: seq<Arg>): Option<string>
    requires i <= |f|
    decreases |f| - i
  {
    if i == |f| then Some("")
    else
      match NextPiece(f, i, args)
      case None => None
      case Some(p) =>
        match Render(f, p.next, args[p.used..])
        case None => None
        case Some(rest) => Some(p.text + rest)
  }

  // ----- Writing with a bound -----

  function Min(a: int, b: int): int { if a < b then a else b }

  /** The buffer holds as much of `out` as fits in front of index `n - 1`. */
  ghost predicate Filled(buf: array<char>, n: nat, written: nat, out: string)
    reads buf
  {
    && Room(buf, n, |out|)
    && written == Min(|out|, n - 1)
    && buf[..written] == out[..written]
  }

  /**
   An output of `length` characters, cut to the bound `n`, fits the buffer with its NUL.
   The bound may well be larger than the buffer, as it is in every call of `sprintf`.
   */
  ghost predicate Room(buf: array<char>, n: nat, length: nat) {
    n >= 1 && Min(length, n - 1) < buf.Length
  }

  /** A full buffer holds its part of any longer output as well. */
  lemma FilledMore(buf: array<char>, n: nat, written: nat, out: string, more: string)
    requires Filled(buf, n, written, out) && |out| >= n - 1
    ensures Filled(buf, n, written, out + more)
  {
    assert (out + more)[..written] == out[..written];
  }

  /** A block copied to the write position by `memcpy`, cut to what still fits. */
  method PutBlock(buf: array<char>, n: nat, written: nat, block: string, ghost out: string) returns (written': nat, exit: bool)
    requires Filled(buf, n, written, out) && Room(buf, n, |out| + |block|)
    modifies buf
    ensures Filled(buf, n, written', out + block) && written <= written'
    ensures exit ==> written' == n - 1
    ensures forall k :: written' <= k < buf.Length ==> buf[k] == old(buf[k])
  {
    var amount := |block|;
    exit := false;
    if written + amount + 1 > n {
      amount := n - written - 1;
      exit := true;
    }
    Memcpy(buf, written, block[..amount]);
    written' := written + amount;
    if |out| > written {
      assert (out + block)[..written'] == out[..written'];
      assert block[..amount] == "";
    } else {
      assert (out + block)[..written'] == out + block[..amount];
    }
  }

  method Memcpy(buf: array<char>, at: nat, src: string)
    requires at + |src| <= buf.Length
    modifies buf
    ensures buf[..at + |src|] == old(buf[..at]) + src
    ensures forall k :: at + |src| <= k < buf.Length ==> buf[k] == old(buf[k])
  {
    var i := 0;
    while i < |src|
      invariant 0 <= i <= |src| && buf[..at + i] == old(buf[..at]) + src[..i]
      invariant forall k :: at + i <= k < buf.Length ==> buf[k] == old(buf[k])
    {
      buf[at + i] := src[i];
      i := i + 1;
    }
    assert src[..i] == src;
  }

  /**
   One of the padding loops: `count` copies of `c`, one at a time, each preceded by the
   check that a character and the NUL still fit.
   */
  method PutRepeated(buf: array<char>, n: nat, written: nat, c: char, count: nat, ghost out: string) returns (written': nat, exit: bool)
    requires Filled(buf, n, written, out) && Room(buf, n, |out| + count)
    modifies buf
    ensures Filled(buf, n, written', out + Repeat(c, count)) && written <= written'
    ensures exit ==> written' == n - 1
    ensures forall k :: written' <= k < buf.Length ==> buf[k] == old(buf[k])
  {
    written' := written;
    var done := 0;
    assert out + Repeat(c, 0) == out;
    while done < count
      invariant 0 <= done <= count && Filled(buf, n, written', out + Repeat(c, done))
      invariant written <= written'
      invariant forall k :: written' <= k < buf.Length ==> buf[k] == old(buf[k])
    {
      if written' + 2 > n {
        RepeatSplit(c, done, count);
        assert out + Repeat(c, count) == (out + Repeat(c, done)) + Repeat(c, count - done);
        FilledMore(buf, n, written', out + Repeat(c, done), Repeat(c, count - done));
        return written', true;
      }
      buf[written'] := c;
      written' := written' + 1;
      done := done + 1;
      assert out + Repeat(c, done) == (out + Repeat(c, done - 1)) + [c];
      assert buf[..written'] == buf[..written' - 1] + [c];
    }
    exit := false;
  }

  lemma RepeatSplit(c: char, a: nat, b: nat)
    requires a <= b
    ensures Repeat(c, b) == Repeat(c, a) + Repeat(c, b - a)
  {}

  // ----- print_number -----

  /** `print_number`: leading zeros, spaces, then sign, precision zeros and digits. */
  method PrintNumber(buf: array<char>, n: nat, written: nat, text: string, precision: nat, width: nat, zeroPad: nat, ghost out: string)
    returns (written': nat, exit: bool)
    requires Filled(buf, n, written, out) && Room(buf, n, |out| + |Padded(text, precision, width, zeroPad)|)
    modifies buf
    ensures Filled(buf, n, written', out + Padded(text, precision, width, zeroPad)) && written <= written'
    ensures exit ==> written' == n - 1
    ensures forall k :: written' <= k < buf.Length ==> buf[k] == old(buf[k])
  {
    var zeros := if |text| >= Positive(width) then 0 else zeroPad;
    var spaces := CountSpaces(text, precision, width, zeroPad);
    written', exit := PrintPadded(buf, n, written, text, Positive(precision), zeros, spaces, out);
  }

  /** Padding and then the number; a full buffer ends the call. */
  method PrintPadded(buf: array<char>, n: nat, written: nat, text: string, prec: nat, zeros: nat, spaces: nat, ghost out: string)
    returns (written': nat, exit: bool)
    requires Filled(buf, n, written, out) && prec < 0x8000_0000 && Room(buf, n, |out| + zeros + spaces + |Body(text, prec)|)
    modifies buf
    ensures Filled(buf, n, written', out + (Repeat('0', zeros) + Repeat(' ', spaces) + Body(text, prec))) && written <= written'
    ensures exit ==> written' == n - 1
    ensures forall k :: written' <= k < buf.Length ==> buf[k] == old(buf[k])
  {
    ghost var pad, c := Repeat('0', zeros) + Repeat(' ', spaces), Body(text, prec);
    assert out + (pad + c) == (out + pad) + c;
    written', exit := PutPadding(buf, n, written, zeros, spaces, out);
    if exit {
      FilledMore(buf, n, written', out + pad, c);
      return;
    }
    written', exit := PrintDigits(buf, n, written', text, prec, out + pad);
  }

  /** The two padding loops, zeros first; a full buffer ends the call. */
  method PutPadding(buf: array<char>, n: nat, written: nat, zeros: nat, spaces: nat, ghost out: string) returns (written': nat, exit: bool)
    requires Filled(buf, n, written, out) && Room(buf, n, |out| + zeros + spaces)
    modifies buf
    ensures Filled(buf, n, written', out + (Repeat('0', zeros) + Repeat(' ', spaces))) && written <= written'
    ensures exit ==> written' == n - 1
    ensures forall k :: written' <= k < buf.Length ==> buf[k] == old(buf[k])
  {
    ghost var a, b := Repeat('0', zeros), Repeat(' ', spaces);
    assert out + (a + b) == (out + a) + b;
    written', exit := PutRepeated(buf, n, written, '0', zeros, out);
    if exit {
      FilledMore(buf, n, written', out + a, b);
      return;
    }
    written', exit := PutRepeated(buf, n, written', ' ', spaces, out + a);
  }

  /** How `print_number` works the spaces out. */
  method CountSpaces(text: string, precision: nat, width: nat, zeroPad: nat) returns (intWidth: int)
    ensures intWidth == Spaces(text, precision, width, zeroPad)
  {
    intWidth := Positive(width) - if |text| >= Positive(width) then 0 else zeroPad;
    if Positive(precision) > 0 {
      intWidth := intWidth - Positive(precision);
      if Negative(text) {
        intWidth := intWidth - 1;
      }
    } else {
      intWidth := intWidth - |text|;
    }
    if intWidth < 0 {
      intWidth := 0;
    }
  }

  /** The tail of `print_number`: when the zeros do not fit the code falls through to the final copy. */
  method PrintDigits(buf: array<char>, n: nat, written: nat, text: string, prec: nat, ghost out: string)
    returns (written': nat, exit: bool)
    requires Filled(buf, n, written, out) && Room(buf, n, |out| + |Body(text, prec)|) && prec < 0x8000_0000
    modifies buf
    ensures Filled(buf, n, written', out + Body(text, prec)) && written <= written'
    ensures exit ==> written' == n - 1
    ensures forall k :: written' <= k < buf.Length ==> buf[k] == old(buf[k])
  {
    BodyCases(text, prec);
    if Negative(text) && prec + 1 > |text| {
      written', exit := PrintSigned(buf, n, written, text[1..], prec + 1 - |text|, out);
    } else if prec > |text| {
      written', exit := PutZerosAndDigits(buf, n, written, text, prec - |text|, out);
      assert out + (Repeat('0', prec - |text|) + text) == out + Repeat('0', prec - |text|) + text;
    } else {
      written', exit := PutBlock(buf, n, written, text, out);
    }
  }

  lemma BodyCases(text: string, prec: nat)
    requires prec < 0x8000_0000
    ensures Body(text, prec) ==
            if Negative(text) && prec + 1 > |text| then "-" + Repeat('0', prec + 1 - |text|) + text[1..]
            else if prec > |text| then Repeat('0', prec - |text|) + text
            else text
  {}

  /** The sign, the zeros up to the precision, and the digits behind the sign. */
  method PrintSigned(buf: array<char>, n: nat, written: nat, digits: string, zeros: nat, ghost out: string)
    returns (written': nat, exit: bool)
    requires Filled(buf, n, written, out) && Room(buf, n, |out| + 1 + zeros + |digits|)
    modifies buf
    ensures Filled(buf, n, written', out + ("-" + Repeat('0', zeros) + digits)) && written <= written'
    ensures exit ==> written' == n - 1
    ensures forall k :: written' <= k < buf.Length ==> buf[k] == old(buf[k])
  {
    if written + 2 > n {
      FilledMore(buf, n, written, out, "-" + Repeat('0', zeros) + digits);
      return written, true;
    }
    written', exit := PutBlock(buf, n, written, "-", out);
    written', exit := PutZerosAndDigits(buf, n, written', digits, zeros, out + "-");
    assert out + ("-" + Repeat('0', zeros) + digits) == out + "-" + Repeat('0', zeros) + digits;
  }

  method PutZerosAndDigits(buf: array<char>, n: nat, written: nat, digits: string, zeros: nat, ghost out: string)
    returns (written': nat, exit: bool)
    requires Filled(buf, n, written, out) && Room(buf, n, |out| + zeros + |digits|)
    modifies buf
    ensures Filled(buf, n, written', out + Repeat('0', zeros) + digits) && written <= written'
    ensures exit ==> written' == n - 1
    ensures forall k :: written' <= k < buf.Length ==> buf[k] == old(buf[k])
  {
    written', exit := PutRepeated(buf, n, written, '0', zeros, out);
    written', exit := PutBlock(buf, n, written', digits, out + Repeat('0', zeros));
  }

  // ----- The number buffers -----

  lemma TextLength(conv: char, v: int, wide: bool)
    requires IsNumeric(conv)
    ensures 0 < |NumberText(conv, v, wide)| <= if wide then 20 else 11
    ensures forall k :: 0 <= k < |NumberText(conv, v, wide)| ==> NumberText(conv, v, wide)[k] != NUL
  {
    if conv == 'd' || conv == 'i' {
      var w := S32(v);
      SignedLength(w);
    } else {
      UnsignedLength(v, wide, if conv == 'u' then 10 else 16);
    }
  }

  lemma SignedLength(w: int)
    requires -0x8000_0000 <= w < 0x8000_0000
    ensures 0 < |Signed(w)| <= 11 && forall k :: 0 <= k < |Signed(w)| ==> Signed(w)[k] != NUL
  {
    var m := if w < 0 then -w else w;
    DecimalDigits(m);
    var s := Numeral(m, 10);
    assert forall k :: 0 <= k < |s| ==> IsDigit(s[k]) && s[k] != NUL;
  }

  lemma UnsignedLength(v: int, wide: bool, base: nat)
    requires base == 10 || base == 16
    ensures var s := Numeral(if wide then v % U64_LIMIT else U32(v), base);
            0 < |s| <= (if wide then 20 else 10) && forall k :: 0 <= k < |s| ==> s[k] != NUL
  {
    var x := if wide then v % U64_LIMIT else U32(v);
    assert Pow(10, 10) == 10000000000 && Pow(10, 20) == 100000000000000000000;
    assert Pow(16, 8) == U32_LIMIT && Pow(16, 16) == U64_LIMIT;
    NumeralLength(x, base, if base == 10 then (if wide then 20 else 10) else (if wide then 16 else 8));
    NumeralValue(x, base);
    var s := Numeral(x, base);
    forall k | 0 <= k < |s| ensures s[k] != NUL {
      assert IsDigitOf(s[k], base);
    }
  }

  /** A zeroed buffer of `size` characters, filled by `litoa`, `ulitoa` or `ullitoa`, and read up to its NUL. */
  method NumberString(conv: char, v: int, wide: bool, size: nat) returns (text: string)
    requires IsNumeric(conv) && size >= (if wide then 41 else 12)
    ensures text == NumberText(conv, v, wide)
  {
    TextLength(conv, v, wide);
    var strNum := new char[size](_ => NUL);
    if conv == 'd' || conv == 'i' {
      Litoa(S32(v), strNum);
    } else if conv == 'u' {
      Ulitoa(if wide then v % U64_LIMIT else U32(v), strNum, 0, 10);
    } else {
      Ulitoa(if wide then v % U64_LIMIT else U32(v), strNum, 0, 16);
    }
    ghost var want := NumberText(conv, v, wide);
    assert strNum[..|want|] == want;
    var len := 0;
    while strNum[len] != NUL
      invariant 0 <= len <= |want| && strNum[|want|] == NUL && strNum[..|want|] == want
      decreases |want| - len
    {
      len := len + 1;
    }
    text := strNum[..len];
  }

  // ----- gen_printf -----

  method SkipDigits(f: string, i: nat) returns (j: nat)
    requires i <= |f|
    ensures j == i + DigitRun(f, i)
  {
    j := i;
    while j < |f| && IsDigit(f[j])
      invariant i <= j <= i + DigitRun(f, i)
    {
      j := j + 1;
    }
  }

  method ScanZeros(f: string, i: nat) returns (zeroPad: nat)
    requires i <= |f|
    ensures zeroPad == ZeroRun(f, i)
  {
    zeroPad := 0;
    while i + zeroPad < |f| && f[i + zeroPad] == '0'
      invariant 0 <= zeroPad <= ZeroRun(f, i)
    {
      zeroPad := zeroPad + 1;
    }
  }

  method ScanField(f: string, i: nat) returns (value: nat, next: nat)
    requires i <= |f| && Field(f, i).Some?
    ensures Field(f, i) == Some((value, next)) && i <= next <= |f|
  {
    value := Atou(f, i);
    next := SkipDigits(f, i);
  }

  /** Zero flags, width and precision behind a percent sign. */
  method ScanFlags(f: string, i: nat) returns (fl: Flags)
    requires i <= |f| && ReadFlags(f, i).Some?
    ensures fl == ReadFlags(f, i).value
  {
    var zeroPad := ScanZeros(f, i);
    var width, j := ScanField(f, i + zeroPad);
    var precision := 0;
    if At(f, j) == '.' {
      precision, j := ScanField(f, j + 1);
    }
    fl := Flags(zeroPad, width, precision, j);
  }

  /** The numeric conversions: fetch the argument if there is one to fetch, and print it padded. */
  method PutNumber(buf: array<char>, n: nat, written: nat, fl: Flags, conv: char, wide: bool, size: nat, next: nat, args: seq<Arg>, ghost out: string)
    returns (written': nat, exit: bool, used: nat)
    requires Filled(buf, n, written, out) && NumberPiece(fl, conv, wide, next, args).Some? && size >= (if wide then 41 else 12)
    requires Room(buf, n, |out| + |NumberPiece(fl, conv, wide, next, args).value.text|)
    modifies buf
    ensures Filled(buf, n, written', out + NumberPiece(fl, conv, wide, next, args).value.text) && written <= written'
    ensures used == NumberPiece(fl, conv, wide, next, args).value.used
    ensures exit ==> written' == n - 1
    ensures forall k :: written' <= k < buf.Length ==> buf[k] == old(buf[k])
  {
    var text := "";
    used := 0;
    if IsNumeric(conv) {
      text := NumberString(conv, args[0].v, wide, size);
      used := 1;
    }
    written', exit := PrintNumber(buf, n, written, text, fl.precision, fl.width, fl.zeroPad, out);
  }

  method PutString(buf: array<char>, n: nat, written: nat, str: string, width: nat, ghost out: string) returns (written': nat, exit: bool)
    requires Filled(buf, n, written, out) && Room(buf, n, |out| + |PaddedString(str, width)|)
    modifies buf
    ensures Filled(buf, n, written', out + PaddedString(str, width)) && written <= written'
    ensures exit ==> written' == n - 1
    ensures forall k :: written' <= k < buf.Length ==> buf[k] == old(buf[k])
  {
    var spaces := width;
    if |str| < width {
      spaces := width - |str|;
    }
    var full, cut;
    written', full := PutRepeated(buf, n, written, ' ', spaces, out);
    assert out + PaddedString(str, width) == out + Repeat(' ', spaces) + str;
    written', cut := PutBlock(buf, n, written', str, out + Repeat(' ', spaces));
    exit := full || cut;
  }

  method PutDirective(buf: array<char>, n: nat, written: nat, f: string, i: nat, fl: Flags, args: seq<Arg>, ghost out: string)
    returns (written': nat, exit: bool, next: nat, used: nat)
    requires i < |f| && i < fl.pos <= |f| && Filled(buf, n, written, out) && DirectivePiece(f, i, fl, args).Some?
    requires Room(buf, n, |out| + |DirectivePiece(f, i, fl, args).value.text|)
    modifies buf
    ensures Filled(buf, n, written', out + DirectivePiece(f, i, fl, args).value.text) && written <= written'
    ensures next == DirectivePiece(f, i, fl, args).value.next && used == DirectivePiece(f, i, fl, args).value.used
    ensures exit ==> written' == n - 1
    ensures forall k :: written' <= k < buf.Length ==> buf[k] == old(buf[k])
  {
    var j := fl.pos;
    var conv := At(f, j);
    if conv == 'c' {
      next, used := j + 1, 1;
      if written + 2 > n {
        FilledMore(buf, n, written, out, [args[0].c]);
        written', exit := written, true;
      } else {
        written', exit := PutBlock(buf, n, written, [args[0].c], out);
      }
    } else if conv == 's' {
      next, used := j + 1, 1;
      written', exit := PutString(buf, n, written, args[0].s, fl.width, out);
    } else if conv == 'l' && At(f, j + 1) != 'l' {
      next := j + 2;
      written', exit, used := PutNumber(buf, n, written, fl, f[j + 1], false, 23, next, args, out);
    } else if conv == 'l' {
      next := j + 3;
      written', exit, used := PutNumber(buf, n, written, fl, f[j + 2], true, 41, next, args, out);
    } else if IsNumeric(conv) {
      next := j + 1;
      written', exit, used := PutNumber(buf, n, written, fl, conv, false, 12, next, args, out);
    } else {
      next, used := |f|, 0;
      written', exit := PutBlock(buf, n, written, f[i..], out);
    }
  }

  /** One round of the loop: a literal run or a directive. */
  method PutPiece(buf: array<char>, n: nat, written: nat, f: string, i: nat, args: seq<Arg>, ghost out: string)
    returns (written': nat, exit: bool, next: nat, used: nat)
    requires i < |f| && Filled(buf, n, written, out) && NextPiece(f, i, args).Some?
    requires Room(buf, n, |out| + |NextPiece(f, i, args).value.text|)
    modifies buf
    ensures Filled(buf, n, written', out + NextPiece(f, i, args).value.text) && written <= written'
    ensures next == NextPiece(f, i, args).value.next && used == NextPiece(f, i, args).value.used
    ensures exit ==> written' == n - 1
    ensures forall k :: written' <= k < buf.Length ==> buf[k] == old(buf[k])
  {
    if f[i] != '%' || At(f, i + 1) == '%' {
      written', exit, next := PutLiteral(buf, n, written, f, if f[i] == '%' then i + 1 else i, out);
      used := 0;
    } else {
      var fl := ScanFlags(f, i + 1);
      written', exit, next, used := PutDirective(buf, n, written, f, i, fl, args, out);
    }
  }

  /** A literal run, up to the next percent sign. */
  method PutLiteral(buf: array<char>, n: nat, written: nat, f: string, start: nat, ghost out: string)
    returns (written': nat, exit: bool, next: nat)
    requires start < |f| && Filled(buf, n, written, out) && Room(buf, n, |out| + |f[start..LiteralEnd(f, start + 1)]|)
    modifies buf
    ensures next == LiteralEnd(f, start + 1)
    ensures Filled(buf, n, written', out + f[start..next]) && written <= written'
    ensures exit ==> written' == n - 1
    ensures forall k :: written' <= k < buf.Length ==> buf[k] == old(buf[k])
  {
    var amount := 1;
    while start + amount < |f| && f[start + amount] != '%'
      invariant 1 <= amount && start + amount <= LiteralEnd(f, start + 1)
    {
      amount := amount + 1;
    }
    next := start + amount;
    written', exit := PutBlock(buf, n, written, f[start..next], out);
  }

  /**
   `gen_printf` into a buffer that has room for what it writes, whether by its size or
   because the output is short. It writes exactly the first min(L, n - 1) characters of
   the unbounded output of length L and then a NUL, touches nothing behind that, and
   returns the number of characters written, NUL included.
   */
  method GenPrintf(buf: array<char>, n: nat, f: string, args: seq<Arg>) returns (ret: nat)
    requires CStrings(f, args) && Render(f, 0, args).Some? && Room(buf, n, |Render(f, 0, args).value|)
    modifies buf
    ensures var all := Render(f, 0, args).value;
            && ret == Min(|all|, n - 1) + 1
            && buf[..ret - 1] == all[..ret - 1] && buf[ret - 1] == NUL
    ensures forall k :: ret <= k < buf.Length ==> buf[k] == old(buf[k])
  {
    var written := PrintLoop(buf, n, f, args);
    ghost var done := buf[..written];
    buf[written] := NUL;
    assert buf[..written] == done;
    ret := written + 1;
  }

  /** The format and the string arguments are C strings. */
  predicate CStrings(f: string, args: seq<Arg>) {
    CString(f) && forall a <- args :: a.Str? ==> CString(a.s)
  }

  /** `snprintf`: the size of the buffer is the bound, and no output is too long. */
  method Snprintf(buf: array<char>, f: string, args: seq<Arg>) returns (ret: nat)
    requires CStrings(f, args) && Render(f, 0, args).Some? && buf.Length >= 1
    modifies buf
    ensures var all := Render(f, 0, args).value;
            && ret == Min(|all|, buf.Length - 1) + 1
            && buf[..ret - 1] == all[..ret - 1] && buf[ret - 1] == NUL
    ensures forall k :: ret <= k < buf.Length ==> buf[k] == old(buf[k])
  {
    ret := GenPrintf(buf, buf.Length, f, args);
  }

  const INT_MAX := 0x7FFF_FFFF

  /** `sprintf`: the bound is `INT_MAX` whatever the buffer, so the caller must know that the output fits. */
  method Sprintf(buf: array<char>, f: string, args: seq<Arg>) returns (ret: nat)
    requires CStrings(f, args) && Render(f, 0, args).Some? && |Render(f, 0, args).value| < Min(buf.Length, INT_MAX)
    modifies buf
    ensures var all := Render(f, 0, args).value;
            ret == |all| + 1 && buf[..|all|] == all && buf[|all|] == NUL
    ensures forall k :: ret <= k < buf.Length ==> buf[k] == old(buf[k])
  {
    ret := GenPrintf(buf, INT_MAX, f, args);
  }

  /** What is left to print splits into the next piece and the rest. */
  lemma RenderStep(f: string, i: nat, args: seq<Arg>, out: string, all: string)
    requires i < |f| && Render(f, i, args).Some? && all == out + Render(f, i, args).value
    ensures NextPiece(f, i, args).Some?
    ensures var p := NextPiece(f, i, args).value;
            Render(f, p.next, args[p.used..]).Some? && all == (out + p.text) + Render(f, p.next, args[p.used..]).value
  {
    var p := NextPiece(f, i, args).value;
    var rest := Render(f, p.next, args[p.used..]).value;
    assert out + (p.text + rest) == (out + p.text) + rest;
  }

  /** The loop of `gen_printf`. */
  method PrintLoop(buf: array<char>, n: nat, f: string, args: seq<Arg>) returns (written: nat)
    requires Render(f, 0, args).Some? && Room(buf, n, |Render(f, 0, args).value|)
    modifies buf
    ensures Filled(buf, n, written, Render(f, 0, args).value)
    ensures forall k :: written <= k < buf.Length ==> buf[k] == old(buf[k])
  {
    ghost var all := Render(f, 0, args).value;
    ghost var out := "";
    var i, exit, left := 0, false, args;
    written := 0;
    while i < |f| && !exit
      invariant 0 <= i <= |f| && Filled(buf, n, written, out)
      invariant Render(f, i, left).Some? && all == out + Render(f, i, left).value
      invariant exit ==> written == n - 1
      invariant forall k :: written <= k < buf.Length ==> buf[k] == old(buf[k])
      decreases |f| - i
    {
      RenderStep(f, i, left, out, all);
      assert |all| >= |out| + |NextPiece(f, i, left).value.text|;
      ghost var text := NextPiece(f, i, left).value.text;
      var next, used;
      written, exit, next, used := PutPiece(buf, n, written, f, i, left, out);
      out := out + text;
      i, left := next, left[used..];
    }
    if exit {
      FilledMore(buf, n, written, out, Render(f, i, left).value);
    } else {
      assert out + "" == out;
    }
  }
}
