/**
 What the unbounded output of a format says: numbers come out as numerals that read back
 as the argument, at least as wide and as precise as asked for; flags are read as they are
 written; text and strings come out as they are.
 */
module PrintfMeaning {
  import opened Basics
  import opened Numerals
  import opened Printf

  // ----- One piece and the rest -----

  /** One piece of a format and the rest. */
  lemma RenderPiece(f: string, i: nat, args: seq<Arg>, text: string, next: nat, used: nat, rest: string)
    requires i < |f| && NextPiece(f, i, args) == Some(Piece(text, next, used))
    requires Render(f, next, args[used..]) == Some(rest)
    ensures Render(f, i, args) == Some(text + rest)
  {}

  /** A literal run from `i` up to a directive at `j`. */
  predicate IsText(f: string, i: nat, j: nat) {
    && i < j < |f| && f[j] == '%' && forall k :: i <= k < j ==> f[k] != '%'
  }

  lemma RenderText(f: string, i: nat, j: nat, args: seq<Arg>, rest: string)
    requires IsText(f, i, j) && Render(f, j, args) == Some(rest)
    ensures Render(f, i, args) == Some(f[i..j] + rest)
  {
    assert LiteralEnd(f, i + 1) == j;
    assert args[0..] == args;
    RenderPiece(f, i, args, f[i..j], j, 0, rest);
  }

  /** Text without a percent sign prints as it is. */
  lemma PlainText(f: string)
    requires forall k :: 0 <= k < |f| ==> f[k] != '%'
    ensures Render(f, 0, []) == Some(f)
  {
    if f != "" {
      LastText(f, 0, 0);
    }
  }

  /** A doubled percent sign prints one, and the text behind it. */
  lemma PercentSign(f: string)
    requires |f| >= 2 && f[0] == '%' && f[1] == '%' && forall k :: 2 <= k < |f| ==> f[k] != '%'
    ensures Render(f, 0, []) == Some(f[1..])
  {
    LastText(f, 0, 1);
  }

  /** A literal run that goes on to the end of the format. */
  lemma LastText(f: string, i: nat, start: nat)
    requires i <= start < |f| && IsLiteral(f, i) && start == (if f[i] == '%' then i + 1 else i)
    requires forall k :: start < k < |f| ==> f[k] != '%'
    ensures Render(f, i, []) == Some(f[start..])
  {
    assert LiteralEnd(f, start + 1) == |f|;
    assert f[start..|f|] == f[start..];
    var args: seq<Arg> := [];
    assert args[0..] == args;
    RenderPiece(f, i, args, f[start..], |f|, 0, "");
    assert f[start..] + "" == f[start..];
  }

  // ----- Numerals -----

  /** An optional sign and digits of the base that stand for the number. */
  ghost predicate IsNumeralOf(body: string, base: nat, value: int)
    requires base <= 32
  {
    var ds := if value < 0 then body[Min(1, |body|)..] else body;
    && ds != "" && (value < 0 ==> body[0] == '-')
    && (forall k :: 0 <= k < |ds| ==> IsDigitOf(ds[k], base))
    && Value(ds, base) == if value < 0 then -value else value
  }

  function Digits(body: string): nat { if body != "" && body[0] == '-' then |body| - 1 else |body| }

  /** The number a conversion prints: signed ones read 32 bits whatever the length, the others 32 or 64. */
  function Printed(conv: char, v: int, wide: bool): int {
    if conv == 'd' || conv == 'i' then
      var u := v % 0x1_0000_0000;
      if u < 0x8000_0000 then u else u - 0x1_0000_0000
    else if wide then v % 0x1_0000_0000_0000_0000
    else v % 0x1_0000_0000
  }

  function BaseOf(conv: char): nat { if conv == 'x' || conv == 'X' then 16 else 10 }

  lemma SignedNumeral(w: int)
    ensures IsNumeralOf(Signed(w), 10, w) && (w < 0 <==> Signed(w)[0] == '-') && NoLeadingZero(Signed(w), w)
  {
    var m := if w < 0 then -w else w;
    NumeralValue(m, 10);
    var s := Numeral(m, 10);
    assert IsDigitOf(s[0], 10);
    if w < 0 {
      assert Signed(w)[1..] == s;
    }
  }

  /** The text of a number reads back as the number, in the base of its conversion. */
  lemma NumberTextMeans(conv: char, v: int, wide: bool)
    requires IsNumeric(conv)
    ensures IsNumeralOf(NumberText(conv, v, wide), BaseOf(conv), Printed(conv, v, wide))
    ensures Negative(NumberText(conv, v, wide)) <==> Printed(conv, v, wide) < 0
    ensures NoLeadingZero(NumberText(conv, v, wide), Printed(conv, v, wide))
  {
    if conv == 'd' || conv == 'i' {
      SignedNumeral(S32(v));
    } else {
      var x, base := Printed(conv, v, wide), BaseOf(conv);
      NumeralValue(x, base);
      assert NumberText(conv, v, wide) == Numeral(x, base);
      assert IsDigitOf(Numeral(x, base)[0], base);
    }
  }

  // ----- Precision and width -----

  lemma {:induction false} LeadingZeros(ds: string, n: nat, base: nat)
    requires 2 <= base <= 32
    ensures Value(Repeat('0', n) + ds, base) == Value(ds, base)
    decreases n, |ds|
  {
    var s := Repeat('0', n) + ds;
    if ds != "" {
      assert s[..|s| - 1] == Repeat('0', n) + ds[..|ds| - 1];
      LeadingZeros(ds[..|ds| - 1], n, base);
    } else if n > 0 {
      assert s == Repeat('0', n) && s[..n - 1] == Repeat('0', n - 1) + "";
      LeadingZeros("", n - 1, base);
    }
  }

  lemma ZerosAndDigits(ds: string, n: nat, base: nat)
    requires 2 <= base <= 32 && ds != "" && forall k :: 0 <= k < |ds| ==> IsDigitOf(ds[k], base)
    ensures var s := Repeat('0', n) + ds;
            Value(s, base) == Value(ds, base) && forall k :: 0 <= k < |s| ==> IsDigitOf(s[k], base)
  {
    LeadingZeros(ds, n, base);
    var s := Repeat('0', n) + ds;
    forall k | 0 <= k < |s| ensures IsDigitOf(s[k], base) {
      if k < n {
        assert s[k] == '0';
      } else {
        assert s[k] == ds[k - n];
      }
    }
  }

  /** Filling up to the precision keeps sign and value, and gives the digits asked for. */
  lemma BodyMeans(text: string, precision: nat, base: nat, value: int)
    requires 2 <= base <= 32 && IsNumeralOf(text, base, value) && (Negative(text) <==> value < 0)
    ensures var body := Body(text, precision);
            && IsNumeralOf(body, base, value)
            && Digits(body) == if Digits(text) < Positive(precision) then Positive(precision) else Digits(text)
  {
    BodyOf(text, precision);
    if Negative(text) {
      NegativeBodyMeans(text, Positive(precision), base, value);
    } else {
      PositiveBodyMeans(text, Positive(precision), base, value);
    }
  }

  function NegativeBody(text: string, prec: nat): string
    requires text != ""
  {
    if prec + 1 > |text| then "-" + Repeat('0', prec + 1 - |text|) + text[1..] else text
  }

  function PositiveBody(text: string, prec: nat): string {
    if prec > |text| then Repeat('0', prec - |text|) + text else text
  }

  lemma BodyOf(text: string, precision: nat)
    ensures Body(text, precision) == if Negative(text) then NegativeBody(text, Positive(precision)) else PositiveBody(text, Positive(precision))
  {}

  lemma NegativeBodyMeans(text: string, prec: nat, base: nat, value: int)
    requires 2 <= base <= 32 && IsNumeralOf(text, base, value) && Negative(text) && value < 0
    ensures var body := NegativeBody(text, prec);
            IsNumeralOf(body, base, value) && Digits(body) == if Digits(text) < prec then prec else Digits(text)
  {
    if prec + 1 > |text| {
      FilledBehindSign(text, prec + 1 - |text|, base, value);
    }
  }

  lemma PositiveBodyMeans(text: string, prec: nat, base: nat, value: int)
    requires 2 <= base <= 32 && IsNumeralOf(text, base, value) && !Negative(text) && value >= 0
    ensures var body := PositiveBody(text, prec);
            IsNumeralOf(body, base, value) && Digits(body) == if Digits(text) < prec then prec else Digits(text)
  {
    if prec > |text| {
      FilledInFront(text, prec - |text|, base, value);
    }
  }

  lemma FilledBehindSign(text: string, zeros: nat, base: nat, value: int)
    requires 2 <= base <= 32 && IsNumeralOf(text, base, value) && value < 0
    ensures IsNumeralOf("-" + Repeat('0', zeros) + text[1..], base, value)
  {
    var ds := Repeat('0', zeros) + text[1..];
    ZerosAndDigits(text[1..], zeros, base);
    BehindSign("-" + Repeat('0', zeros) + text[1..], ds, base, value) by {
      assert "-" + Repeat('0', zeros) + text[1..] == "-" + ds;
    }
  }

  lemma BehindSign(body: string, ds: string, base: nat, value: int)
    requires 2 <= base <= 32 && value < 0 && body == "-" + ds && ds != ""
    requires Value(ds, base) == -value && forall k :: 0 <= k < |ds| ==> IsDigitOf(ds[k], base)
    ensures IsNumeralOf(body, base, value)
  {
    assert body[1..] == ds;
  }

  lemma FilledInFront(text: string, zeros: nat, base: nat, value: int)
    requires 2 <= base <= 32 && IsNumeralOf(text, base, value) && value >= 0 && zeros > 0
    ensures var body := Repeat('0', zeros) + text; IsNumeralOf(body, base, value) && body[0] == '0'
  {
    ZerosAndDigits(text, zeros, base);
  }

  /**
   A field: zeros, spaces, and a numeral of the value with the digits asked for, together
   at least as long as asked for. A width or precision of 2^31 or more counts as none.
   Without a precision the numeral has no leading zero, and the field is as wide as asked
   for and no wider, unless zeros and numeral are.
   */
  ghost predicate IsField(t: string, zeros: nat, spaces: nat, body: string, base: nat, value: int, fl: Flags)
    requires base <= 32
  {
    && t == Repeat('0', zeros) + Repeat(' ', spaces) + body
    && IsNumeralOf(body, base, value)
    && (fl.precision < 0x8000_0000 ==> Digits(body) >= fl.precision)
    && (fl.width < 0x8000_0000 ==> |t| >= fl.width)
    && (zeros == 0 || zeros == fl.zeroPad)
    && (fl.width == 0 || fl.width >= 0x8000_0000 ==> zeros == 0 && spaces == 0)
    && (fl.precision == 0 && fl.width < 0x8000_0000 ==>
          && (zeros == if |body| < fl.width then fl.zeroPad else 0)
          && (|t| == if zeros + |body| < fl.width then fl.width else zeros + |body|)
          && NoLeadingZero(body, value))
  }

  predicate NoLeadingZero(body: string, value: int) {
    var i := if value < 0 then 1 else 0;
    i < |body| && (body[i] == '0' <==> value == 0)
  }

  lemma PaddedMeans(text: string, fl: Flags, base: nat, value: int) returns (zeros: nat, spaces: nat, body: string)
    requires 2 <= base <= 32 && IsNumeralOf(text, base, value) && (Negative(text) <==> value < 0) && NoLeadingZero(text, value)
    ensures IsField(Padded(text, fl.precision, fl.width, fl.zeroPad), zeros, spaces, body, base, value, fl)
    ensures fl.precision == 0 ==> body == text
  {
    zeros := ZeroPad(text, fl.width, fl.zeroPad);
    spaces := Spaces(text, fl.precision, fl.width, fl.zeroPad);
    body := Body(text, fl.precision);
    BodyMeans(text, fl.precision, base, value);
  }

  /** What precision and sign take up of the width, by the reckoning of the code. */
  function Reckoned(text: string, precision: nat): nat {
    if Positive(precision) > 0 then Positive(precision) + (if Negative(text) then 1 else 0) else |text|
  }

  /**
   The field is exactly as wide as asked for, or as its number if that is wider, if and
   only if the zeros fit beside it and the number is no longer than its precision. (The
   code subtracts the precision from the width even when the number has more digits.)
   */
  lemma FieldWidthIff(text: string, precision: nat, width: nat, zeroPad: nat)
    ensures var zeros, x := ZeroPad(text, width, zeroPad), Reckoned(text, precision);
            var body, w := |Body(text, precision)|, Positive(width);
            |Padded(text, precision, width, zeroPad)| == (if w < body then body else w)
            <==> (zeros == 0 && w <= x) || (zeros + x <= w && body == x)
  {}

  // ----- Reading flags back -----

  /** A number field as the code can read it. */
  predicate IsDigits(s: string) { |s| <= 10 && forall k :: 0 <= k < |s| ==> IsDigit(s[k]) }

  /**
   How a directive is written between the percent sign and the conversion: zeros, the
   digits of the width, and with a dot the digits of the precision.
   */
  datatype Spec = Spec(zeros: nat, width: string, dot: bool, precision: string)

  predicate SpecOk(p: Spec) {
    && IsDigits(p.width) && (p.width != "" ==> p.width[0] != '0')
    && IsDigits(p.precision) && (p.precision != "" ==> p.dot)
  }

  function SpecText(p: Spec): string {
    Repeat('0', p.zeros) + p.width + (if p.dot then "." + p.precision else "")
  }

  /** The numbers it stands for, in 32 bits. */
  function FlagsOf(p: Spec, pos: nat): Flags {
    Flags(p.zeros, U32(Value(p.width, 10)), U32(Value(p.precision, 10)), pos)
  }

  lemma {:induction false} ZeroRunIs(f: string, i: nat, k: nat)
    requires i + k <= |f| && (forall j :: i <= j < i + k ==> f[j] == '0') && At(f, i + k) != '0'
    ensures ZeroRun(f, i) == k
    decreases k
  {
    if k > 0 {
      ZeroRunIs(f, i + 1, k - 1);
    }
  }

  lemma DigitsRun(f: string, i: nat, s: string)
    requires IsDigits(s) && i + |s| < |f| && f[i..i + |s|] == s && !IsDigit(f[i + |s|])
    ensures DigitRun(f, i) == |s|
  {
    forall j | i <= j < i + |s| ensures IsDigit(f[j]) {
      assert f[j] == f[i..i + |s|][j - i];
    }
    RunOfNumeral(f, i, |s|);
  }

  lemma FieldReads(f: string, i: nat, s: string)
    requires IsDigits(s) && i + |s| < |f| && f[i..i + |s|] == s && !IsDigit(f[i + |s|])
    ensures Field(f, i) == Some((U32(Value(s, 10)), i + |s|))
  {
    DigitsRun(f, i, s);
  }

  /** Where the parts are in a format whose directive begins at 0 and has its conversion at `pos`. */
  ghost predicate SpecAt(f: string, p: Spec, pos: nat) {
    var dot := 1 + p.zeros + |p.width|;
    && pos == (if p.dot then dot + 1 + |p.precision| else dot) && pos < |f|
    && (forall j :: 1 <= j < 1 + p.zeros ==> f[j] == '0')
    && f[1 + p.zeros..dot] == p.width
    && (p.dot ==> f[dot] == '.' && f[dot + 1..pos] == p.precision)
    && !IsDigit(f[pos]) && f[pos] != '.'
  }

  /** Zeros, width and precision are read as they were written. */
  lemma FlagsReadBack(f: string, p: Spec, pos: nat)
    requires SpecOk(p) && SpecAt(f, p, pos)
    ensures ReadFlags(f, 1) == Some(FlagsOf(p, pos))
  {
    WidthReadBack(f, p, pos);
    PrecisionReadBack(f, p, pos);
  }

  /** After zeros and width the precision is read. */
  lemma WidthReadBack(f: string, p: Spec, pos: nat)
    requires SpecOk(p) && SpecAt(f, p, pos)
    ensures ReadFlags(f, 1) == ReadPrecision(f, p.zeros, U32(Value(p.width, 10)), 1 + p.zeros + |p.width|)
  {
    ZerosReadBack(f, p, pos);
    FlagsFrom(f, p.zeros, p.width);
  }

  lemma FlagsFrom(f: string, z: nat, ws: string)
    requires IsDigits(ws) && 1 + z + |ws| < |f| && f[1 + z..1 + z + |ws|] == ws && !IsDigit(f[1 + z + |ws|]) && ZeroRun(f, 1) == z
    ensures ReadFlags(f, 1) == ReadPrecision(f, z, U32(Value(ws, 10)), 1 + z + |ws|)
  {
    FieldReads(f, 1 + z, ws);
    FlagsAfterWidth(f, z, (U32(Value(ws, 10)), 1 + z + |ws|));
  }

  lemma FlagsAfterWidth(f: string, z: nat, width: (nat, nat))
    requires f != "" && ZeroRun(f, 1) == z && Field(f, 1 + z) == Some(width) && width.1 <= |f|
    ensures ReadFlags(f, 1) == ReadPrecision(f, z, width.0, width.1)
  {}

  lemma PrecisionReadBack(f: string, p: Spec, pos: nat)
    requires SpecOk(p) && SpecAt(f, p, pos)
    ensures ReadPrecision(f, p.zeros, U32(Value(p.width, 10)), 1 + p.zeros + |p.width|) == Some(FlagsOf(p, pos))
  {
    if p.dot {
      FieldReads(f, 2 + p.zeros + |p.width|, p.precision);
    } else {
      assert Value("", 10) == 0 && p.precision == "";
    }
  }

  lemma ZerosReadBack(f: string, p: Spec, pos: nat)
    requires SpecOk(p) && SpecAt(f, p, pos)
    ensures ZeroRun(f, 1) == p.zeros
  {
    if p.width != "" {
      assert f[1 + p.zeros] == f[1 + p.zeros..1 + p.zeros + |p.width|][0];
    }
    ZeroRunIs(f, 1, p.zeros);
  }

  /** A directive that is written out has this layout. */
  lemma SpecWritten(f: string, p: Spec, tail: string)
    requires f == "%" + SpecText(p) + tail && tail != "" && !IsDigit(tail[0]) && tail[0] != '.' && (p.precision != "" ==> p.dot)
    ensures var pos := 1 + |SpecText(p)|; SpecAt(f, p, pos) && f[0] == '%' && f[pos..] == tail
  {
    var zs, ps := Repeat('0', p.zeros), if p.dot then "." + p.precision else "";
    Layout(f, zs, p.width, ps, tail);
    var dot, pos := 1 + p.zeros + |p.width|, 1 + |SpecText(p)|;
    assert f[pos] == tail[0];
    forall j | 1 <= j < 1 + p.zeros ensures f[j] == '0' {
      assert f[j] == f[1..1 + p.zeros][j - 1];
    }
    if p.dot {
      assert f[dot] == f[dot..pos][0] && f[dot + 1..pos] == f[dot..pos][1..] && ps[1..] == p.precision;
    }
  }

  lemma Layout(f: string, a: string, b: string, c: string, d: string)
    requires f == "%" + (a + b + c) + d
    ensures f[0] == '%' && f[1..1 + |a|] == a && f[1 + |a|..1 + |a| + |b|] == b
    ensures f[1 + |a| + |b|..1 + |a| + |b| + |c|] == c && f[1 + |a| + |b| + |c|..] == d
  {}

  // ----- Whole directives -----

  /** The modifiers `l` and `ll`. */
  function Length(l: nat): string { if l == 0 then "" else if l == 1 then "l" else "ll" }

  function NumberFormat(p: Spec, l: nat, conv: char): string {
    "%" + SpecText(p) + (Length(l) + [conv])
  }

  /** A numeric directive prints its number padded. */
  lemma NumberRendered(f: string, p: Spec, l: nat, conv: char, v: int)
    requires f == NumberFormat(p, l, conv) && SpecOk(p) && IsNumeric(conv) && l <= 2 && FlagsOf(p, 0).precision != 0x7FFF_FFFF
    ensures var fl := FlagsOf(p, 0);
            Render(f, 0, [Num(v)]) == Some(Padded(NumberText(conv, v, l == 2), fl.precision, fl.width, fl.zeroPad))
  {
    var pos, fl := 1 + |SpecText(p)|, FlagsOf(p, 0);
    SpecWritten(f, p, Length(l) + [conv]);
    FlagsReadBack(f, p, pos);
    NotLiteral(f, p, pos);
    TailAt(f, pos, l, conv);
    NumberDirective(f, FlagsOf(p, pos), l, conv, v);
    OnlyPiece(f, Num(v), Padded(NumberText(conv, v, l == 2), fl.precision, fl.width, fl.zeroPad));
  }

  /** A format of one directive that takes one argument. */
  lemma OnlyPiece(f: string, a: Arg, t: string)
    requires f != "" && NextPiece(f, 0, [a]) == Some(Piece(t, |f|, 1))
    ensures Render(f, 0, [a]) == Some(t)
  {
    assert [a][1..] == [];
    RenderPiece(f, 0, [a], t, |f|, 1, "");
    assert t + "" == t;
  }

  lemma TailAt(f: string, pos: nat, l: nat, conv: char)
    requires l <= 2 && pos <= |f| && f[pos..] == Length(l) + [conv]
    ensures |f| == pos + l + 1 && f[pos + l] == conv && (l >= 1 ==> f[pos] == 'l') && (l >= 2 ==> f[pos + 1] == 'l')
  {
    var tail := f[pos..];
    assert f[pos + l] == tail[l] && (l >= 1 ==> f[pos] == tail[0]) && (l >= 2 ==> f[pos + 1] == tail[1]);
  }

  lemma NotLiteral(f: string, p: Spec, pos: nat)
    requires SpecOk(p) && SpecAt(f, p, pos) && f[0] == '%' && f[pos] != '%'
    ensures !IsLiteral(f, 0)
  {
    if p.zeros == 0 && p.width != "" {
      assert f[1] == f[1..1 + |p.width|][0];
    }
  }

  lemma NumberDirective(f: string, fl: Flags, l: nat, conv: char, v: int)
    requires IsNumeric(conv) && l <= 2 && 0 < fl.pos && |f| == fl.pos + l + 1 && fl.precision != 0x7FFF_FFFF
    requires f[fl.pos + l] == conv && (l >= 1 ==> f[fl.pos] == 'l') && (l >= 2 ==> f[fl.pos + 1] == 'l')
    ensures DirectivePiece(f, 0, fl, [Num(v)])
            == Some(Piece(Padded(NumberText(conv, v, l == 2), fl.precision, fl.width, fl.zeroPad), |f|, 1))
  {
    assert conv != 'c' && conv != 's' && conv != 'l';
  }

  /**
   Every numeric directive, with any zero flags, width, precision and length modifier,
   prints a field whose numeral reads back as the argument: in base 16 for `x` and `X` and
   in base 10 otherwise, as a signed 32-bit number for `d` and `i`, as an unsigned 32-bit
   number otherwise, and as a 64-bit one with `ll`.
   */
  lemma NumberPrinted(f: string, p: Spec, l: nat, conv: char, v: int)
    returns (t: string, zeros: nat, spaces: nat, body: string)
    requires f == NumberFormat(p, l, conv) && SpecOk(p) && IsNumeric(conv) && l <= 2 && FlagsOf(p, 0).precision != 0x7FFF_FFFF
    ensures Render(f, 0, [Num(v)]) == Some(t)
    ensures IsField(t, zeros, spaces, body, BaseOf(conv), Printed(conv, v, l == 2), FlagsOf(p, 0))
  {
    var fl := FlagsOf(p, 0);
    NumberRendered(f, p, l, conv, v);
    t := Padded(NumberText(conv, v, l == 2), fl.precision, fl.width, fl.zeroPad);
    NumberTextMeans(conv, v, l == 2);
    zeros, spaces, body := PaddedMeans(NumberText(conv, v, l == 2), fl, BaseOf(conv), Printed(conv, v, l == 2));
  }

  /** The same for a bare directive such as `%x` or `%lu`: the output is the numeral itself. */
  lemma BareNumberPrinted(f: string, l: nat, conv: char, v: int) returns (t: string)
    requires l <= 2 && f == NumberFormat(Spec(0, "", false, ""), l, conv) && IsNumeric(conv)
    ensures Render(f, 0, [Num(v)]) == Some(t) && IsNumeralOf(t, BaseOf(conv), Printed(conv, v, l == 2))
  {
    var p := Spec(0, "", false, "");
    assert FlagsOf(p, 0) == Flags(0, 0, 0, 0) by { assert Value("", 10) == 0; }
    var zeros, spaces, body;
    t, zeros, spaces, body := NumberPrinted(f, p, l, conv, v);
    BareField(t, zeros, spaces, body, BaseOf(conv), Printed(conv, v, l == 2));
  }

  lemma BareField(t: string, zeros: nat, spaces: nat, body: string, base: nat, value: int)
    requires base <= 32 && IsField(t, zeros, spaces, body, base, value, Flags(0, 0, 0, 0))
    ensures t == body
  {
    assert Repeat('0', 0) + Repeat(' ', 0) + body == body;
  }

  /** `%c` prints its character. */
  lemma CharPrinted(f: string, c: char)
    requires f == ['%', 'c']
    ensures Render(f, 0, [Chr(c)]) == Some([c])
  {
    var p := Spec(0, "", false, "");
    assert SpecAt(f, p, 1);
    FlagsReadBack(f, p, 1);
    OnlyPiece(f, Chr(c), [c]);
  }

  /** `%s` with any flags prints spaces and then its string, at least as wide as asked for, and exactly so when the string is shorter. */
  lemma StringPrinted(f: string, p: Spec, s: string) returns (spaces: nat)
    requires f == "%" + SpecText(p) + "s" && SpecOk(p) && FlagsOf(p, 0).precision != 0x7FFF_FFFF
    ensures Render(f, 0, [Str(s)]) == Some(Repeat(' ', spaces) + s)
    ensures var w := FlagsOf(p, 0).width;
            && spaces + |s| >= w
            && (spaces + |s| == (if |s| < w then w else |s|) <==> |s| < w || w == 0)
  {
    var w := FlagsOf(p, 0).width;
    StringRendered(f, p, s);
    spaces := if |s| < w then w - |s| else w;
  }

  lemma StringRendered(f: string, p: Spec, s: string)
    requires f == "%" + SpecText(p) + "s" && SpecOk(p) && FlagsOf(p, 0).precision != 0x7FFF_FFFF
    ensures Render(f, 0, [Str(s)]) == Some(PaddedString(s, FlagsOf(p, 0).width))
  {
    var pos := 1 + |SpecText(p)|;
    SpecWritten(f, p, "s");
    FlagsReadBack(f, p, pos);
    StringDirective(f, FlagsOf(p, pos), s);
    NotLiteral(f, p, pos);
    OnlyPiece(f, Str(s), PaddedString(s, FlagsOf(p, 0).width));
  }

  lemma StringDirective(f: string, fl: Flags, s: string)
    requires 0 < fl.pos && |f| == fl.pos + 1 && f[fl.pos] == 's' && fl.precision != 0x7FFF_FFFF
    ensures DirectivePiece(f, 0, fl, [Str(s)]) == Some(Piece(PaddedString(s, fl.width), |f|, 1))
  {}

  /** A directive that the code does not know prints as it is written, with all that follows it. */
  lemma UnknownPrinted(f: string, p: Spec, tail: string, args: seq<Arg>)
    requires f == "%" + SpecText(p) + tail && SpecOk(p) && FlagsOf(p, 0).precision != 0x7FFF_FFFF
    requires tail != "" && !IsDigit(tail[0]) && !IsNumeric(tail[0]) && tail[0] !in {'.', '%', 'c', 's', 'l'}
    ensures Render(f, 0, args) == Some(f)
  {
    var pos := 1 + |SpecText(p)|;
    SpecWritten(f, p, tail);
    FlagsReadBack(f, p, pos);
    NotLiteral(f, p, pos);
    UnknownDirective(f, FlagsOf(p, pos), args);
    assert args[0..] == args && f + "" == f;
    RenderPiece(f, 0, args, f, |f|, 0, "");
  }

  lemma UnknownDirective(f: string, fl: Flags, args: seq<Arg>)
    requires 0 < fl.pos < |f| && fl.precision != 0x7FFF_FFFF && !IsNumeric(f[fl.pos]) && f[fl.pos] !in {'c', 's', 'l'}
    ensures DirectivePiece(f, 0, fl, args) == Some(Piece(f, |f|, 0))
  {
    assert f[0..] == f;
  }
}
