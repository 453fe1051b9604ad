/**
 The directory names of PCI functions: what `sprintf` prints for them, when that fits the
 buffers it is printed to, and that different functions never share a name, which is why a
 function is refused exactly when it has been recorded before.
 */
module PciNames {
  import opened Basics
  import opened Numerals
  import opened Printf
  import opened PrintfMeaning

  /** A function of a device on a bus. */
  datatype Fn = Fn(bus: nat, dev: nat, func: nat)

  const PCI_FS_PATH := "/sys/device/pci"
  const PCI_DEV_DIR_NAME_LEN := 14                          // sizeof("0000:00:00.00")
  const PCI_DEV_PATH_LEN := 16 + PCI_DEV_DIR_NAME_LEN       // sizeof(PCI_FS_PATH) in front

  const NAME_FORMAT := "0000:%02u:%02u.%02u"

  /** A number under `%02u`. */
  function Two(v: nat): string {
    if v < 10 then "0" + Numeral(v, 10) else Numeral(v, 10)
  }

  function Name(f: Fn): string {
    "0000:" + Two(f.bus) + ":" + Two(f.dev) + "." + Two(f.func)
  }

  lemma TwoPadded(v: nat)
    requires v < U32_LIMIT
    ensures Padded(NumberText('u', v, false), 0, 2, 1) == Two(v)
  {
    assert U32(v) == v;
    if v < 10 {
      assert |Numeral(v, 10)| == 1;
      assert Repeat('0', 1) == "0";
    } else {
      assert |Numeral(v, 10)| >= 2;
    }
  }

  /** A `%02u` directive at position `i`: one zero flag, width 2. */
  predicate IsTwo(f: string, i: nat) {
    && i + 3 < |f| && f[i] == '%' && !IsLiteral(f, i) && f[i + 3] == 'u'
    && ReadFlags(f, i + 1) == Some(Flags(1, 2, 0, i + 3))
  }

  /** A `%u` directive with given flags. */
  lemma UnsignedPiece(f: string, i: nat, fl: Flags, v: nat, rest: seq<Arg>)
    requires i < |f| && i < fl.pos < |f| && f[fl.pos] == 'u' && fl.precision == 0
    ensures DirectivePiece(f, i, fl, [Num(v)] + rest)
            == Some(Piece(Padded(NumberText('u', v, false), 0, fl.width, fl.zeroPad), fl.pos + 1, 1))
  {}

  lemma RenderTwo(f: string, i: nat, v: nat, args: seq<Arg>, rest: string)
    requires IsTwo(f, i) && v < U32_LIMIT && Render(f, i + 4, args) == Some(rest)
    ensures Render(f, i, [Num(v)] + args) == Some(Two(v) + rest)
  {
    TwoPadded(v);
    UnsignedPiece(f, i, Flags(1, 2, 0, i + 3), v, args);
    assert ([Num(v)] + args)[1..] == args;
    RenderPiece(f, i, [Num(v)] + args, Two(v), i + 4, 1, rest);
  }

  /** Text, number, text, number, text, number. */
  lemma RenderName(f: string, x: nat, y: nat, z: nat)
    requires |f| == 19 && IsTwo(f, 5) && IsTwo(f, 10) && IsTwo(f, 15)
    requires IsText(f, 0, 5) && IsText(f, 9, 10) && IsText(f, 14, 15)
    requires x < U32_LIMIT && y < U32_LIMIT && z < U32_LIMIT
    ensures Render(f, 0, [Num(x)] + ([Num(y)] + ([Num(z)] + [])))
            == Some(f[0..5] + (Two(x) + (f[9..10] + (Two(y) + (f[14..15] + (Two(z) + ""))))))
  {
    RenderTwo(f, 15, z, [], "");
    RenderText(f, 14, 15, [Num(z)] + [], Two(z) + "");
    RenderTwo(f, 10, y, [Num(z)] + [], f[14..15] + (Two(z) + ""));
    RenderText(f, 9, 10, [Num(y)] + ([Num(z)] + []), Two(y) + (f[14..15] + (Two(z) + "")));
    RenderTwo(f, 5, x, [Num(y)] + ([Num(z)] + []), f[9..10] + (Two(y) + (f[14..15] + (Two(z) + ""))));
    RenderText(f, 0, 5, [Num(x)] + ([Num(y)] + ([Num(z)] + [])), Two(x) + (f[9..10] + (Two(y) + (f[14..15] + (Two(z) + "")))));
  }

  lemma TwoDirective(f: string, i: nat)
    requires i + 3 < |f| && f[i] == '%' && f[i + 1] == '0' && f[i + 2] == '2' && f[i + 3] == 'u'
    ensures IsTwo(f, i)
  {
    assert ZeroRun(f, i + 2) == 0 && ZeroRun(f, i + 1) == 1;
    assert DigitRun(f, i + 3) == 0 && DigitRun(f, i + 2) == 1;
    assert f[i + 2..i + 3] == ['2'];
    OneDigit('2');
  }

  lemma OneDigit(c: char)
    requires IsDigit(c)
    ensures Value([c], 10) == DigitValue(c)
  {
    assert [c][..0] == "";
    assert Value("", 10) == 0;
  }

  /** The layout of the name format: three numbers behind "0000:", ":" and ".". */
  ghost predicate NameLayout(fmt: string) {
    && |fmt| == 19 && CString(fmt) && (forall i :: i in {5, 10, 15} ==> IsTwo(fmt, i))
    && IsText(fmt, 0, 5) && IsText(fmt, 9, 10) && IsText(fmt, 14, 15)
    && fmt[0..5] == "0000:" && fmt[9..10] == ":" && fmt[14..15] == "."
  }

  /** The format string of `pci_ramfs_addnode` has it. */
  lemma FormatHasLayout()
    ensures NameLayout(NAME_FORMAT)
  {
    forall i | i in {5, 10, 15} ensures IsTwo(NAME_FORMAT, i) {
      TwoDirective(NAME_FORMAT, i);
    }
  }

  /** What `sprintf` prints for a function with such a format is its name. */
  lemma NamePrinted(fmt: string, f: Fn)
    requires NameLayout(fmt) && f.bus < U32_LIMIT && f.dev < U32_LIMIT && f.func < U32_LIMIT
    ensures Render(fmt, 0, [Num(f.bus), Num(f.dev), Num(f.func)]) == Some(Name(f))
  {
    assert IsTwo(fmt, 5) && IsTwo(fmt, 10) && IsTwo(fmt, 15);
    RenderName(fmt, f.bus, f.dev, f.func);
    assert [Num(f.bus)] + ([Num(f.dev)] + ([Num(f.func)] + [])) == [Num(f.bus), Num(f.dev), Num(f.func)];
    Flatten(Two(f.bus), Two(f.dev), Two(f.func));
  }

  lemma Flatten(a: string, b: string, c: string)
    ensures "0000:" + (a + (":" + (b + ("." + (c + ""))))) == "0000:" + a + ":" + b + "." + c
  {}

  // ----- The buffers -----

  /** The directory of a function. */
  function Path(f: Fn): string { PCI_FS_PATH + "/" + Name(f) }

  /** A string and its NUL fit a buffer of `size` characters. */
  predicate FitsIn(s: string, size: nat) { |s| + 1 <= size }

  lemma TwoLength(v: nat)
    ensures |Two(v)| >= 2 && (|Two(v)| == 2 <==> v < 100)
  {
    if v >= 10 {
      assert |Numeral(v / 10, 10)| == 1 <==> v / 10 < 10;
    }
  }

  /** The name and the path stay inside their buffers exactly on buses 0 to 99. */
  lemma NameFitsIff(f: Fn)
    requires f.dev < 32 && f.func < 8
    ensures FitsIn(Name(f), PCI_DEV_DIR_NAME_LEN) <==> f.bus < 100
    ensures FitsIn(Path(f), PCI_DEV_PATH_LEN) <==> f.bus < 100
  {
    TwoLength(f.bus);
    TwoLength(f.dev);
    TwoLength(f.func);
  }

  /** The name in its 14-byte buffer, which `sprintf` fills without a bound. */
  method DeviceName(f: Fn) returns (name: string)
    requires f.bus < 100 && f.dev < 32 && f.func < 8
    ensures name == Name(f)
  {
    FormatHasLayout();
    name := PrintName(NAME_FORMAT, f);
  }

  method PrintName(fmt: string, f: Fn) returns (name: string)
    requires NameLayout(fmt) && f.bus < 100 && f.dev < 32 && f.func < 8
    ensures name == Name(f)
  {
    NamePrinted(fmt, f);
    NameFitsIff(f);
    var pciDevName := new char[PCI_DEV_DIR_NAME_LEN];
    var ret := Sprintf(pciDevName, fmt, [Num(f.bus), Num(f.dev), Num(f.func)]);
    name := pciDevName[..ret - 1];
  }

  const PATH_FORMAT := "%s/%s"

  /** A `%s` directive without flags at position `i`. */
  predicate IsStr(f: string, i: nat) {
    && i + 1 < |f| && f[i] == '%' && !IsLiteral(f, i) && f[i + 1] == 's'
    && ReadFlags(f, i + 1) == Some(Flags(0, 0, 0, i + 1))
  }

  /** The layout of the path format: two strings with a slash between. */
  ghost predicate PathLayout(fmt: string) {
    |fmt| == 5 && CString(fmt) && IsStr(fmt, 0) && IsText(fmt, 2, 3) && IsStr(fmt, 3) && fmt[2..3] == "/"
  }

  lemma StrDirective(f: string, i: nat)
    requires i + 1 < |f| && f[i] == '%' && f[i + 1] == 's'
    ensures IsStr(f, i)
  {
    assert f[i + 1..i + 1] == "";
    assert ZeroRun(f, i + 1) == 0 && DigitRun(f, i + 1) == 0;
  }

  /** Any five characters `%s/%s` have it. */
  lemma HasPathLayout(fmt: string)
    requires |fmt| == 5 && fmt[0] == '%' && fmt[1] == 's' && fmt[2] == '/' && fmt[3] == '%' && fmt[4] == 's'
    ensures PathLayout(fmt)
  {
    StrDirective(fmt, 0);
    StrDirective(fmt, 3);
    assert fmt == [fmt[0], fmt[1], fmt[2], fmt[3], fmt[4]];
  }

  /** The format string of the path has it. */
  lemma PathFormatHasLayout()
    ensures PathLayout(PATH_FORMAT)
  {
    HasPathLayout(PATH_FORMAT);
  }

  lemma RenderStr(f: string, i: nat, s: string, args: seq<Arg>, rest: string)
    requires IsStr(f, i) && Render(f, i + 2, args) == Some(rest)
    ensures Render(f, i, [Str(s)] + args) == Some(s + rest)
  {
    assert PaddedString(s, 0) == s;
    assert ([Str(s)] + args)[1..] == args;
    RenderPiece(f, i, [Str(s)] + args, s, i + 2, 1, rest);
  }

  lemma PathPrinted(fmt: string, a: string, b: string)
    requires PathLayout(fmt)
    ensures Render(fmt, 0, [Str(a), Str(b)]) == Some(a + "/" + b)
  {
    RenderStr(fmt, 3, b, [], "");
    RenderText(fmt, 2, 3, [Str(b)] + [], b + "");
    RenderStr(fmt, 0, a, [Str(b)] + [], fmt[2..3] + (b + ""));
    assert [Str(a)] + ([Str(b)] + []) == [Str(a), Str(b)];
    assert a + (fmt[2..3] + (b + "")) == a + "/" + b;
  }

  /** The path in its 30-byte buffer. */
  method DevicePath(f: Fn, name: string) returns (path: string)
    requires name == Name(f) && f.bus < 100 && f.dev < 32 && f.func < 8
    ensures path == Path(f)
  {
    PathFormatHasLayout();
    path := PrintPath(PATH_FORMAT, f, name);
  }

  method PrintPath(fmt: string, f: Fn, name: string) returns (path: string)
    requires PathLayout(fmt) && name == Name(f) && f.bus < 100 && f.dev < 32 && f.func < 8
    ensures path == Path(f)
  {
    PathPrinted(fmt, PCI_FS_PATH, name);
    NameFitsIff(f);
    NameIsCString(f);
    var pciDevPath := new char[PCI_DEV_PATH_LEN];
    var ret := Sprintf(pciDevPath, fmt, [Str(PCI_FS_PATH), Str(name)]);
    path := pciDevPath[..ret - 1];
  }

  lemma NameIsCString(f: Fn)
    ensures CString(Name(f))
  {
    TwoReads(f.bus);
    TwoReads(f.dev);
    TwoReads(f.func);
  }

  // ----- Names tell functions apart -----

  predicate AllDigits(s: string) { forall k :: 0 <= k < |s| ==> IsDigit(s[k]) }

  lemma TwoReads(v: nat)
    ensures AllDigits(Two(v)) && Value(Two(v), 10) == v
  {
    NumeralValue(v, 10);
    var s := Numeral(v, 10);
    forall k | 0 <= k < |s| ensures IsDigit(s[k]) {
      assert IsDigitOf(s[k], 10);
    }
    if v < 10 {
      assert s == [Digit(v)];
      ValueAppend("0", v, 10);
      assert "0"[..0] == "";
    }
  }

  /** Digits up to the first non-digit are determined by the whole string. */
  lemma SplitDigits(a: string, x: string, b: string, y: string)
    requires AllDigits(a) && AllDigits(b) && a + x == b + y
    requires (x != "" ==> !IsDigit(x[0])) && (y != "" ==> !IsDigit(y[0]))
    ensures a == b && x == y
  {
    var s := a + x;
    RunOfNumeral(s, 0, |a|);
    assert s == b + y;
    RunOfNumeral(b + y, 0, |b|);
    assert a == s[..|a|] && b == (b + y)[..|b|];
    assert x == s[|a|..] && y == (b + y)[|b|..];
  }

  /** Different functions have different directory names. */
  lemma NameInjective(f: Fn, g: Fn)
    requires Name(f) == Name(g)
    ensures f == g
  {
    TwoReads(f.bus);
    TwoReads(g.bus);
    NameParts(f);
    NameParts(g);
    SplitDigits(Two(f.bus), ":" + Two(f.dev) + "." + Two(f.func), Two(g.bus), ":" + Two(g.dev) + "." + Two(g.func));
    DropFirst(":", Two(f.dev) + "." + Two(f.func), Two(g.dev) + "." + Two(g.func));
    DevAndFunc(f, g);
  }

  lemma DevAndFunc(f: Fn, g: Fn)
    requires Two(f.dev) + "." + Two(f.func) == Two(g.dev) + "." + Two(g.func)
    ensures f.dev == g.dev && f.func == g.func
  {
    TwoReads(f.dev); TwoReads(f.func);
    TwoReads(g.dev); TwoReads(g.func);
    assert Two(f.dev) + "." + Two(f.func) == Two(f.dev) + ("." + Two(f.func));
    assert Two(g.dev) + "." + Two(g.func) == Two(g.dev) + ("." + Two(g.func));
    SplitDigits(Two(f.dev), "." + Two(f.func), Two(g.dev), "." + Two(g.func));
    DropFirst(".", Two(f.func), Two(g.func));
  }

  lemma NameParts(f: Fn)
    ensures Name(f)[5..] == Two(f.bus) + (":" + Two(f.dev) + "." + Two(f.func))
    ensures ":" + Two(f.dev) + "." + Two(f.func) == ":" + (Two(f.dev) + "." + Two(f.func))
  {}

  lemma DropFirst(c: string, a: string, b: string)
    requires c + a == c + b
    ensures a == b
  {
    assert a == (c + a)[|c|..] && b == (c + b)[|c|..];
  }
}
