/**
 PCI enumeration: the mutually recursive scan of buses, devices and functions over an
 abstract configuration space, and the functions it records.
 */
module Pci {
  import opened Basics
  import opened PciNames

  const DEV_PER_BUS := 32
  const FUNC_PER_DEV := 8
  const SLOTS := 256   // function slots of a bus, numbered eight to a device
  const NOT_VALID_VENDOR_ID := 0xFFFF
  const IS_MULTIFUNCTION := 0x80
  const BRIDGE_BASECLASS := 6
  const PCI_TO_PCI_SUBCLASS := 4

  /** What configuration reads return. */
  datatype Config = Config(vendor: Fn -> nat, header: Fn -> nat, baseClass: Fn -> nat, subClass: Fn -> nat, secondary: Fn -> nat)

  predicate Present(cfg: Config, f: Fn) { cfg.vendor(f) != NOT_VALID_VENDOR_ID }

  /** The multifunction bit of the header type of function 0. */
  predicate Multi(cfg: Config, bus: nat, dev: nat) { cfg.header(Fn(bus, dev, 0)) / IS_MULTIFUNCTION % 2 == 1 }

  /** A function that is there: function 0 decides for its device, the multifunction bit for the others. */
  predicate Visible(cfg: Config, f: Fn) {
    && f.dev < DEV_PER_BUS && f.func < FUNC_PER_DEV
    && Present(cfg, Fn(f.bus, f.dev, 0)) && Present(cfg, f)
    && (f.func == 0 || Multi(cfg, f.bus, f.dev))
  }

  predicate IsBridge(cfg: Config, f: Fn) {
    cfg.baseClass(f) == BRIDGE_BASECLASS && cfg.subClass(f) == PCI_TO_PCI_SUBCLASS
  }

  /** A bridge that the scan follows. */
  predicate Link(cfg: Config, f: Fn) { Visible(cfg, f) && IsBridge(cfg, f) }

  /** How many root buses `pci_scan` visits: one, or one per present function of device 0. */
  function RootCount(cfg: Config): nat {
    if Multi(cfg, 0, 0) then PresentRun(cfg, 0) else 1
  }

  function PresentRun(cfg: Config, func: nat): (k: nat)
    requires func <= FUNC_PER_DEV
    ensures func <= k <= FUNC_PER_DEV
    decreases FUNC_PER_DEV - func
  {
    if func < FUNC_PER_DEV && Present(cfg, Fn(0, 0, func)) then PresentRun(cfg, func + 1) else func
  }

  // ----- Topology -----

  /** Links lead to buses of smaller rank, so there is no way around in a circle. */
  ghost predicate Acyclic(cfg: Config, rank: nat -> nat) {
    forall f {:trigger Link(cfg, f)} :: Link(cfg, f) ==> rank(cfg.secondary(f)) < rank(f.bus)
  }

  /** The links form a forest over the root buses. */
  ghost predicate Forest(cfg: Config, rank: nat -> nat) {
    && Acyclic(cfg, rank)
    && (forall f, g {:trigger Link(cfg, f), Link(cfg, g)} :: Link(cfg, f) && Link(cfg, g) && cfg.secondary(f) == cfg.secondary(g) ==> f == g)
    && (forall f {:trigger Link(cfg, f)} :: Link(cfg, f) ==> cfg.secondary(f) >= RootCount(cfg))
  }

  /** A chain of links from bus `b` to bus `c`. */
  ghost predicate Route(cfg: Config, b: nat, p: seq<Fn>, c: nat)
    decreases |p|
  {
    if p == [] then b == c
    else
      var f := p[|p| - 1];
      Link(cfg, f) && cfg.secondary(f) == c && Route(cfg, b, p[..|p| - 1], f.bus)
  }

  /** A visible function on a bus that can be reached from a root bus. */
  ghost predicate Reachable(cfg: Config, f: Fn) {
    Visible(cfg, f) && exists r, p :: 0 <= r < RootCount(cfg) && Route(cfg, r, p, f.bus)
  }

  // ----- The order of the scan -----

  /** Function `f` and everything behind it. */
  ghost function FnSeq(cfg: Config, rank: nat -> nat, f: Fn): seq<Fn>
    requires Acyclic(cfg, rank) && Visible(cfg, f)
    decreases rank(f.bus), 0
  {
    [f] + (if IsBridge(cfg, f) then (assert Link(cfg, f); BusSeq(cfg, rank, cfg.secondary(f))) else [])
  }

  /** The first `i` function slots of a bus. */
  ghost function Upto(cfg: Config, rank: nat -> nat, bus: nat, i: nat): seq<Fn>
    requires Acyclic(cfg, rank)
    decreases rank(bus), 1, i
  {
    if i == 0 then []
    else
      var f := Fn(bus, (i - 1) / 8, (i - 1) % 8);
      Upto(cfg, rank, bus, i - 1) + (if Visible(cfg, f) then FnSeq(cfg, rank, f) else [])
  }

  ghost function BusSeq(cfg: Config, rank: nat -> nat, bus: nat): seq<Fn>
    requires Acyclic(cfg, rank)
    decreases rank(bus), 2
  {
    Upto(cfg, rank, bus, SLOTS)
  }

  ghost function ScanSeq(cfg: Config, rank: nat -> nat, k: nat): seq<Fn>
    requires Acyclic(cfg, rank)
  {
    if k == 0 then [] else ScanSeq(cfg, rank, k - 1) + BusSeq(cfg, rank, k - 1)
  }

  // ----- Every reachable function is visited -----

  lemma {:induction false} RouteConcat(cfg: Config, b: nat, p: seq<Fn>, c: nat, q: seq<Fn>, d: nat)
    requires Route(cfg, b, p, c) && Route(cfg, c, q, d)
    ensures Route(cfg, b, p + q, d)
    decreases |q|
  {
    if q == [] {
      assert p + q == p;
    } else {
      assert (p + q)[..|p + q| - 1] == p + q[..|q| - 1];
      RouteConcat(cfg, b, p, c, q[..|q| - 1], q[|q| - 1].bus);
    }
  }

  /** What the first `i` slots visit lies on the bus itself or behind one of its links. */
  lemma {:induction false} UptoSound(cfg: Config, rank: nat -> nat, bus: nat, i: nat, g: Fn) returns (p: seq<Fn>)
    requires Acyclic(cfg, rank) && g in Upto(cfg, rank, bus, i)
    ensures Visible(cfg, g) && Route(cfg, bus, p, g.bus)
    decreases rank(bus), i
  {
    var f := Fn(bus, (i - 1) / 8, (i - 1) % 8);
    if g in Upto(cfg, rank, bus, i - 1) {
      p := UptoSound(cfg, rank, bus, i - 1, g);
    } else if g == f {
      p := [];
    } else {
      assert Link(cfg, f) && g in BusSeq(cfg, rank, cfg.secondary(f));
      var q := UptoSound(cfg, rank, cfg.secondary(f), SLOTS, g);
      assert [f][..0] == [];
      assert Route(cfg, bus, [f], cfg.secondary(f));
      RouteConcat(cfg, bus, [f], cfg.secondary(f), q, g.bus);
      p := [f] + q;
    }
  }

  lemma BusSound(cfg: Config, rank: nat -> nat, bus: nat, g: Fn) returns (p: seq<Fn>)
    requires Acyclic(cfg, rank) && g in BusSeq(cfg, rank, bus)
    ensures Visible(cfg, g) && Route(cfg, bus, p, g.bus)
  {
    p := UptoSound(cfg, rank, bus, SLOTS, g);
  }

  /** The slot of a visible function is scanned. */
  lemma {:induction false} UptoHas(cfg: Config, rank: nat -> nat, f: Fn, g: Fn, i: nat)
    requires Acyclic(cfg, rank) && Visible(cfg, f) && g in FnSeq(cfg, rank, f)
    requires f.dev * 8 + f.func < i
    ensures g in Upto(cfg, rank, f.bus, i)
    decreases i
  {
    if f.dev * 8 + f.func < i - 1 {
      UptoHas(cfg, rank, f, g, i - 1);
    } else {
      assert f == Fn(f.bus, (i - 1) / 8, (i - 1) % 8);
    }
  }

  lemma {:induction false} BusComplete(cfg: Config, rank: nat -> nat, bus: nat, p: seq<Fn>, g: Fn)
    requires Acyclic(cfg, rank) && Visible(cfg, g) && Route(cfg, bus, p, g.bus)
    ensures g in BusSeq(cfg, rank, bus)
    decreases |p|
  {
    if p == [] {
      UptoHas(cfg, rank, g, g, SLOTS);
    } else {
      var c, rest := RouteFirst(cfg, bus, p, g.bus);
      BusComplete(cfg, rank, c, rest, g);
      UptoHas(cfg, rank, p[0], g, SLOTS);
    }
  }

  lemma {:induction false} RouteFirst(cfg: Config, b: nat, p: seq<Fn>, c: nat) returns (d: nat, rest: seq<Fn>)
    requires Route(cfg, b, p, c) && p != []
    ensures Link(cfg, p[0]) && p[0].bus == b && cfg.secondary(p[0]) == d
    ensures rest == p[1..] && Route(cfg, d, rest, c)
    decreases |p|
  {
    rest := p[1..];
    var f := p[|p| - 1];
    if |p| == 1 {
      d := c;
      assert p[..0] == [];
    } else {
      var init;
      d, init := RouteFirst(cfg, b, p[..|p| - 1], f.bus);
      assert rest[..|rest| - 1] == init;
    }
  }

  // ----- Nothing is visited twice -----

  lemma DistinctConcat(a: seq<Fn>, b: seq<Fn>)
    requires Distinct(a) && Distinct(b) && forall x <- a :: x !in b
    ensures Distinct(a + b)
  {
    var s := a + b;
    forall i, j | 0 <= i < j < |s| ensures s[i] != s[j] {
      if i < |a| {
        assert s[i] == a[i] && s[i] in a;
        if j >= |a| {
          assert s[j] == b[j - |a|] && s[j] in b;
        }
      }
    }
  }

  lemma {:induction false} RouteRank(cfg: Config, rank: nat -> nat, b: nat, p: seq<Fn>, c: nat)
    requires Acyclic(cfg, rank) && Route(cfg, b, p, c)
    ensures rank(c) <= rank(b) && (p != [] ==> rank(c) < rank(b))
    decreases |p|
  {
    if p != [] {
      var f := p[|p| - 1];
      RouteRank(cfg, rank, b, p[..|p| - 1], f.bus);
    }
  }

  /** Two routes to the same bus: the shorter one is the end of the longer one. */
  lemma {:induction false} RoutesNest(cfg: Config, rank: nat -> nat, b: nat, p: seq<Fn>, d: nat, q: seq<Fn>, c: nat) returns (rest: seq<Fn>)
    requires Forest(cfg, rank) && Route(cfg, b, p, c) && Route(cfg, d, q, c) && |p| <= |q|
    ensures Route(cfg, d, rest, b) && |rest| == |q| - |p|
    decreases |p|
  {
    if p == [] {
      rest := q;
    } else {
      var f, g := p[|p| - 1], q[|q| - 1];
      assert f == g;
      rest := RoutesNest(cfg, rank, b, p[..|p| - 1], d, q[..|q| - 1], f.bus);
    }
  }

  /** Behind two different links of one bus there is no common bus. */
  lemma BehindApart(cfg: Config, rank: nat -> nat, f: Fn, p: seq<Fn>, g: Fn, q: seq<Fn>, c: nat)
    requires Forest(cfg, rank) && Link(cfg, f) && Link(cfg, g) && f.bus == g.bus && |p| <= |q|
    requires Route(cfg, cfg.secondary(f), p, c) && Route(cfg, cfg.secondary(g), q, c)
    ensures f == g
  {
    var rest := RoutesNest(cfg, rank, cfg.secondary(f), p, cfg.secondary(g), q, c);
    if rest != [] {
      var h := rest[|rest| - 1];
      assert h == f;
      RouteRank(cfg, rank, cfg.secondary(g), rest[..|rest| - 1], f.bus);
    }
  }

  /** What lies in the subtree of `f`: `f` itself, or something behind its link. */
  lemma FnSeqSound(cfg: Config, rank: nat -> nat, f: Fn, x: Fn) returns (p: seq<Fn>)
    requires Forest(cfg, rank) && Visible(cfg, f) && x in FnSeq(cfg, rank, f)
    ensures x == f || (Link(cfg, f) && Route(cfg, cfg.secondary(f), p, x.bus) && rank(x.bus) < rank(f.bus))
  {
    p := [];
    if x != f {
      assert Link(cfg, f);
      p := BusSound(cfg, rank, cfg.secondary(f), x);
      RouteRank(cfg, rank, cfg.secondary(f), p, x.bus);
    }
  }

  lemma FnSeqApart(cfg: Config, rank: nat -> nat, f: Fn, g: Fn, x: Fn)
    requires Forest(cfg, rank) && Visible(cfg, f) && Visible(cfg, g) && f.bus == g.bus
    requires x in FnSeq(cfg, rank, f) && x in FnSeq(cfg, rank, g)
    ensures f == g
  {
    var p := FnSeqSound(cfg, rank, f, x);
    var q := FnSeqSound(cfg, rank, g, x);
    if x != f && x != g {
      if |p| <= |q| {
        BehindApart(cfg, rank, f, p, g, q, x.bus);
      } else {
        BehindApart(cfg, rank, g, q, f, p, x.bus);
      }
    }
  }

  /** Where in the first `i` slots `x` comes from. */
  lemma {:induction false} UptoFrom(cfg: Config, rank: nat -> nat, bus: nat, i: nat, x: Fn) returns (f: Fn)
    requires Acyclic(cfg, rank) && x in Upto(cfg, rank, bus, i)
    ensures f.bus == bus && Visible(cfg, f) && x in FnSeq(cfg, rank, f) && f.dev * 8 + f.func < i
    decreases i
  {
    if x in Upto(cfg, rank, bus, i - 1) {
      f := UptoFrom(cfg, rank, bus, i - 1, x);
    } else {
      f := Fn(bus, (i - 1) / 8, (i - 1) % 8);
    }
  }

  lemma {:induction false} UptoDistinct(cfg: Config, rank: nat -> nat, bus: nat, i: nat)
    requires Forest(cfg, rank)
    ensures Distinct(Upto(cfg, rank, bus, i))
    decreases rank(bus), i
  {
    if i > 0 {
      UptoDistinct(cfg, rank, bus, i - 1);
      var f := Fn(bus, (i - 1) / 8, (i - 1) % 8);
      if Visible(cfg, f) {
        FnSeqDistinct(cfg, rank, f);
        forall x | x in Upto(cfg, rank, bus, i - 1) ensures x !in FnSeq(cfg, rank, f) {
          if x in FnSeq(cfg, rank, f) {
            var g := UptoFrom(cfg, rank, bus, i - 1, x);
            FnSeqApart(cfg, rank, f, g, x);
          }
        }
        DistinctConcat(Upto(cfg, rank, bus, i - 1), FnSeq(cfg, rank, f));
      }
    }
  }

  lemma {:induction false} FnSeqDistinct(cfg: Config, rank: nat -> nat, f: Fn)
    requires Forest(cfg, rank) && Visible(cfg, f)
    ensures Distinct(FnSeq(cfg, rank, f))
    decreases rank(f.bus), 0
  {
    if IsBridge(cfg, f) {
      var c := cfg.secondary(f);
      assert Link(cfg, f);
      UptoDistinct(cfg, rank, c, SLOTS);
      forall x | x in [f] ensures x !in BusSeq(cfg, rank, c) {
        if x in BusSeq(cfg, rank, c) {
          var p := BusSound(cfg, rank, c, x);
          RouteRank(cfg, rank, c, p, x.bus);
        }
      }
      DistinctConcat([f], BusSeq(cfg, rank, c));
    }
  }

  // ----- The scan as a whole -----

  lemma BusDistinct(cfg: Config, rank: nat -> nat, bus: nat)
    requires Forest(cfg, rank)
    ensures Distinct(BusSeq(cfg, rank, bus))
  {
    UptoDistinct(cfg, rank, bus, SLOTS);
  }

  lemma {:induction false} ScanSeqFrom(cfg: Config, rank: nat -> nat, k: nat, x: Fn) returns (r: nat, p: seq<Fn>)
    requires Acyclic(cfg, rank) && x in ScanSeq(cfg, rank, k)
    ensures r < k && Visible(cfg, x) && Route(cfg, r, p, x.bus)
  {
    if x in ScanSeq(cfg, rank, k - 1) {
      r, p := ScanSeqFrom(cfg, rank, k - 1, x);
    } else {
      r := k - 1;
      p := BusSound(cfg, rank, k - 1, x);
    }
  }

  lemma {:induction false} ScanSeqHas(cfg: Config, rank: nat -> nat, k: nat, r: nat, p: seq<Fn>, x: Fn)
    requires Acyclic(cfg, rank) && r < k && Visible(cfg, x) && Route(cfg, r, p, x.bus)
    ensures x in ScanSeq(cfg, rank, k)
    decreases k
  {
    if r < k - 1 {
      ScanSeqHas(cfg, rank, k - 1, r, p, x);
    } else {
      BusComplete(cfg, rank, r, p, x);
    }
  }

  lemma {:induction false} ScanSeqDistinct(cfg: Config, rank: nat -> nat, k: nat)
    requires Forest(cfg, rank) && k <= RootCount(cfg)
    ensures Distinct(ScanSeq(cfg, rank, k))
  {
    if k > 0 {
      ScanSeqDistinct(cfg, rank, k - 1);
      BusDistinct(cfg, rank, k - 1);
      var before, last := ScanSeq(cfg, rank, k - 1), BusSeq(cfg, rank, k - 1);
      forall x | x in before ensures x !in last {
        if x in last {
          var r, p := ScanSeqFrom(cfg, rank, k - 1, x);
          var q := BusSound(cfg, rank, k - 1, x);
          RootsApart(cfg, rank, r, p, k - 1, q, x.bus);
        }
      }
      DistinctConcat(before, last);
    }
  }

  /** No bus is behind two roots. */
  lemma RootsApart(cfg: Config, rank: nat -> nat, r: nat, p: seq<Fn>, t: nat, q: seq<Fn>, c: nat)
    requires Forest(cfg, rank) && r < RootCount(cfg) && t < RootCount(cfg)
    requires Route(cfg, r, p, c) && Route(cfg, t, q, c)
    ensures r == t
  {
    var rest;
    if |p| <= |q| {
      rest := RoutesNest(cfg, rank, r, p, t, q, c);
    } else {
      rest := RoutesNest(cfg, rank, t, q, r, p, c);
    }
    assert rest == [];
  }

  /** The scan order lists every reachable function exactly once and nothing else. */
  lemma ScanSeqExact(cfg: Config, rank: nat -> nat)
    requires Forest(cfg, rank)
    ensures var s := ScanSeq(cfg, rank, RootCount(cfg)); Distinct(s) && forall f :: f in s <==> Reachable(cfg, f)
  {
    var k := RootCount(cfg);
    var s := ScanSeq(cfg, rank, k);
    ScanSeqDistinct(cfg, rank, k);
    forall f ensures f in s <==> Reachable(cfg, f) {
      if f in s {
        var r, p := ScanSeqFrom(cfg, rank, k, f);
      }
      if Reachable(cfg, f) {
        var r, p :| 0 <= r < k && Route(cfg, r, p, f.bus);
        ScanSeqHas(cfg, rank, k, r, p, f);
      }
    }
  }

  // ----- What is reachable, in register values -----

  /** Header types are bytes. */
  ghost predicate ByteHeaders(cfg: Config) { forall f :: cfg.header(f) < 0x100 }

  /**
   Bus `b` is scanned first: bus 0 when the host controller has one function, else one bus
   per function of the host controller up to the first that is missing.
   */
  ghost predicate RootBus(cfg: Config, b: nat) {
    if cfg.header(Fn(0, 0, 0)) < 0x80 then b == 0
    else b < 8 && forall i :: 0 <= i <= b ==> cfg.vendor(Fn(0, 0, i)) != 0xFFFF
  }

  lemma {:induction false} PresentRunIs(cfg: Config, func: nat, b: nat)
    requires func <= b && func <= FUNC_PER_DEV
    ensures b < PresentRun(cfg, func) <==> b < 8 && forall i :: func <= i <= b ==> cfg.vendor(Fn(0, 0, i)) != 0xFFFF
    decreases FUNC_PER_DEV - func
  {
    if func < b && func < FUNC_PER_DEV && Present(cfg, Fn(0, 0, func)) {
      PresentRunIs(cfg, func + 1, b);
    }
  }

  lemma RootBusIs(cfg: Config, b: nat)
    requires ByteHeaders(cfg)
    ensures RootBus(cfg, b) <==> b < RootCount(cfg)
  {
    PresentRunIs(cfg, 0, b);
  }

  /** Function 0 decides for its device: the others are there exactly with bit 7 of its header type and a vendor of their own. */
  lemma HeaderDecides(cfg: Config, b: nat, d: nat, k: nat)
    requires ByteHeaders(cfg) && d < 32 && 1 <= k < 8
    ensures Reachable(cfg, Fn(b, d, k)) <==>
            Reachable(cfg, Fn(b, d, 0)) && cfg.header(Fn(b, d, 0)) >= 0x80 && cfg.vendor(Fn(b, d, k)) != 0xFFFF
  {}

  /** On a root bus every device with a vendor is there. */
  lemma RootOpens(cfg: Config, b: nat, d: nat)
    requires ByteHeaders(cfg) && RootBus(cfg, b) && d < 32
    ensures Reachable(cfg, Fn(b, d, 0)) <==> cfg.vendor(Fn(b, d, 0)) != 0xFFFF
  {
    RootBusIs(cfg, b);
    assert Route(cfg, b, [], b);
  }

  /** Behind a bridge, of class 6 and subclass 4, every device with a vendor is there. */
  lemma BridgeOpens(cfg: Config, f: Fn, d: nat)
    requires Reachable(cfg, f) && cfg.baseClass(f) == 6 && cfg.subClass(f) == 4 && d < 32
    ensures Reachable(cfg, Fn(cfg.secondary(f), d, 0)) <==> cfg.vendor(Fn(cfg.secondary(f), d, 0)) != 0xFFFF
  {
    var r, p :| 0 <= r < RootCount(cfg) && Route(cfg, r, p, f.bus);
    assert Link(cfg, f);
    assert (p + [f])[..|p|] == p;
    assert Route(cfg, r, p + [f], cfg.secondary(f));
  }

  /** Everything else is behind a bridge that is there itself. */
  lemma OnlyBehindBridges(cfg: Config, f: Fn) returns (g: Fn)
    requires ByteHeaders(cfg) && Reachable(cfg, f) && !RootBus(cfg, f.bus)
    ensures Reachable(cfg, g) && cfg.baseClass(g) == 6 && cfg.subClass(g) == 4 && cfg.secondary(g) == f.bus
  {
    var r, p :| 0 <= r < RootCount(cfg) && Route(cfg, r, p, f.bus);
    RootBusIs(cfg, r);
    assert p != [];
    g := p[|p| - 1];
    assert Route(cfg, r, p[..|p| - 1], g.bus);
  }

  // ----- The directory in register values -----

  ghost predicate FunctionsListed(cfg: Config, names: seq<string>, b: nat, d: nat, k: nat) {
    Name(Fn(b, d, k)) in names <==>
    Name(Fn(b, d, 0)) in names && cfg.header(Fn(b, d, 0)) >= 0x80 && cfg.vendor(Fn(b, d, k)) != 0xFFFF
  }

  ghost predicate BusListed(cfg: Config, names: seq<string>, b: nat, d: nat) {
    Name(Fn(b, d, 0)) in names <==> cfg.vendor(Fn(b, d, 0)) != 0xFFFF
  }

  ghost predicate OpenBridge(cfg: Config, names: seq<string>, g: Fn) {
    Name(g) in names && cfg.baseClass(g) == 6 && cfg.subClass(g) == 4
  }

  /**
   A list of directories that answers the configuration space: all devices of root buses
   and of buses behind a listed bridge, of each device what function 0 allows, and nothing
   on any other bus.
   */
  ghost predicate Enumerated(cfg: Config, names: seq<string>) {
    && (forall b, d, k {:trigger FunctionsListed(cfg, names, b, d, k)} :: 0 <= d < 32 && 1 <= k < 8 ==> FunctionsListed(cfg, names, b, d, k))
    && (forall b, d {:trigger BusListed(cfg, names, b, d)} :: RootBus(cfg, b) && 0 <= d < 32 ==> BusListed(cfg, names, b, d))
    && (forall g, d {:trigger OpenBridge(cfg, names, g), BusListed(cfg, names, cfg.secondary(g), d)} ::
          OpenBridge(cfg, names, g) && 0 <= d < 32 ==> BusListed(cfg, names, cfg.secondary(g), d))
    && (forall f {:trigger Name(f)} :: Name(f) in names ==>
          f.dev < 32 && f.func < 8 && (RootBus(cfg, f.bus) || exists g :: OpenBridge(cfg, names, g) && cfg.secondary(g) == f.bus))
  }

  lemma ReachableEnumerated(cfg: Config, names: seq<string>)
    requires ByteHeaders(cfg) && forall f :: Name(f) in names <==> Reachable(cfg, f)
    ensures Enumerated(cfg, names)
  {
    forall b, d, k | 0 <= d < 32 && 1 <= k < 8 ensures FunctionsListed(cfg, names, b, d, k) {
      HeaderDecides(cfg, b, d, k);
    }
    forall b, d | RootBus(cfg, b) && 0 <= d < 32 ensures BusListed(cfg, names, b, d) {
      RootOpens(cfg, b, d);
    }
    forall g, d | OpenBridge(cfg, names, g) && 0 <= d < 32 ensures BusListed(cfg, names, cfg.secondary(g), d) {
      BridgeOpens(cfg, g, d);
    }
    forall f | Name(f) in names
      ensures f.dev < 32 && f.func < 8 && (RootBus(cfg, f.bus) || exists g :: OpenBridge(cfg, names, g) && cfg.secondary(g) == f.bus)
    {
      if !RootBus(cfg, f.bus) {
        var g := OnlyBehindBridges(cfg, f);
        assert OpenBridge(cfg, names, g);
      }
    }
  }

  // ----- Names and buffers -----

  /** Functions that can be recorded one after the other: no repetition, and every name fits its buffer. */
  ghost predicate Recordable(s: seq<Fn>) {
    Distinct(s) && forall f <- s :: f.bus < 100
  }

  ghost predicate BusesBelow100(cfg: Config) {
    forall f {:trigger Reachable(cfg, f)} :: Reachable(cfg, f) ==> f.bus < 100
  }

  /** The scan stays inside its name buffer and inside its path buffer if and only if no function is reached on bus 100 or above. */
  lemma ScanFitsIff(cfg: Config, rank: nat -> nat)
    requires Forest(cfg, rank)
    ensures var s := ScanSeq(cfg, rank, RootCount(cfg));
            && ((forall f <- s :: FitsIn(Name(f), PCI_DEV_DIR_NAME_LEN)) <==> BusesBelow100(cfg))
            && ((forall f <- s :: FitsIn(Path(f), PCI_DEV_PATH_LEN)) <==> BusesBelow100(cfg))
  {
    var s := ScanSeq(cfg, rank, RootCount(cfg));
    ScanSeqExact(cfg, rank);
    forall f | f in s
      ensures FitsIn(Name(f), PCI_DEV_DIR_NAME_LEN) <==> f.bus < 100
      ensures FitsIn(Path(f), PCI_DEV_PATH_LEN) <==> f.bus < 100
    {
      NameFitsIff(f);
    }
  }

  /** A machine where it does not: one bridge, and behind it a device on bus 100. */
  lemma DeepBus() returns (cfg: Config, rank: nat -> nat, f: Fn)
    ensures Forest(cfg, rank) && Reachable(cfg, f) && !FitsIn(Name(f), PCI_DEV_DIR_NAME_LEN)
  {
    var bridge := Fn(0, 0, 0);
    f := Fn(100, 0, 0);
    cfg := Config(g => if g == Fn(0, 0, 0) || g == Fn(100, 0, 0) then 0 else NOT_VALID_VENDOR_ID, _ => 0,
                  g => if g == Fn(0, 0, 0) then BRIDGE_BASECLASS else 0, _ => PCI_TO_PCI_SUBCLASS, _ => 100);
    rank := b => if b == 0 then 1 else 0;
    assert Link(cfg, bridge) && [bridge][..0] == [];
    assert Route(cfg, 0, [bridge], 100);
    NameFitsIff(f);
  }

  /** A name is taken exactly when its function has been recorded. */
  lemma NameTaken(names: seq<string>, nodes: seq<Fn>, f: Fn)
    requires |names| == |nodes| && forall i :: 0 <= i < |nodes| ==> names[i] == Name(nodes[i])
    ensures Name(f) in names <==> f in nodes
  {
    if Name(f) in names {
      var i :| 0 <= i < |names| && names[i] == Name(f);
      NameInjective(nodes[i], f);
    }
    if f in nodes {
      var i :| 0 <= i < |nodes| && nodes[i] == f;
      assert names[i] == Name(f);
    }
  }

  lemma NamesExact(names: seq<string>, nodes: seq<Fn>)
    requires |names| == |nodes| && forall i :: 0 <= i < |nodes| ==> names[i] == Name(nodes[i])
    requires Distinct(nodes)
    ensures Distinct(names) && forall f :: Name(f) in names <==> f in nodes
  {
    forall i, j | 0 <= i < j < |names| ensures names[i] != names[j] {
      if names[i] == names[j] {
        NameInjective(nodes[i], nodes[j]);
      }
    }
    forall f ensures Name(f) in names <==> f in nodes {
      NameTaken(names, nodes, f);
    }
  }

  // ----- The scan as it runs -----

  class Scanner {
    var names: seq<string>    // the directories under /sys/device/pci, in order of creation
    ghost var nodes: seq<Fn>  // the functions they stand for

    ghost predicate Valid()
      reads this
    {
      |names| == |nodes| && forall i :: 0 <= i < |nodes| ==> names[i] == Name(nodes[i])
    }

    constructor ()
      ensures Valid() && nodes == []
    {
      names, nodes := [], [];
    }

    /**
     `pci_ramfs_addnode`: the name is printed to a local buffer, and a second directory of
     the same name is refused. Names tell functions apart, so this refuses exactly a
     function recorded before.
     */
    method AddNode(f: Fn) returns (ok: bool)
      requires Valid() && f.bus < 100 && f.dev < DEV_PER_BUS && f.func < FUNC_PER_DEV
      modifies this
      ensures Valid() && ok == (f !in old(nodes))
      ensures nodes == if ok then old(nodes) + [f] else old(nodes)
    {
      var pciDevName := DeviceName(f);
      NameTaken(names, nodes, f);
      ok := pciDevName !in names;
      if ok {
        names, nodes := names + [pciDevName], nodes + [f];
        var pciDevPath := DevicePath(f, pciDevName);
      }
    }

    /** `pci_scanFunction`; what the scan of a secondary bus returns is ignored. */
    method ScanFunction(cfg: Config, f: Fn, ghost rank: nat -> nat) returns (ok: bool)
      requires Valid() && Acyclic(cfg, rank) && (Present(cfg, f) ==> Visible(cfg, f))
      requires Present(cfg, f) ==> Recordable(nodes + FnSeq(cfg, rank, f))
      modifies this
      ensures Valid() && ok && nodes == old(nodes) + if Present(cfg, f) then FnSeq(cfg, rank, f) else []
      decreases rank(f.bus), 0
    {
      ok := true;
      if cfg.vendor(f) != NOT_VALID_VENDOR_ID {
        FnFirst(cfg, rank, nodes, f);
        ok := AddNode(f);
        if ok && cfg.baseClass(f) == BRIDGE_BASECLASS && cfg.subClass(f) == PCI_TO_PCI_SUBCLASS {
          assert Link(cfg, f);
          var ignored := ScanBus(cfg, cfg.secondary(f), rank);
        }
      }
    }

    /** `pci_scanDevice`. */
    method ScanDevice(cfg: Config, bus: nat, dev: nat, ghost rank: nat -> nat) returns (ok: bool)
      requires Valid() && Acyclic(cfg, rank) && dev < DEV_PER_BUS && Recordable(nodes + DeviceSeq(cfg, rank, bus, dev, FUNC_PER_DEV))
      modifies this
      ensures Valid() && ok && nodes == old(nodes) + DeviceSeq(cfg, rank, bus, dev, FUNC_PER_DEV)
      decreases rank(bus), 2
    {
      ok := true;
      if cfg.vendor(Fn(bus, dev, 0)) == NOT_VALID_VENDOR_ID {
        DeviceRest(cfg, rank, bus, dev, 0);
      } else {
        ghost var before := nodes;
        RecordablePart(cfg, rank, before, bus, dev, 0);
        assert before + DeviceSeq(cfg, rank, bus, dev, 0) == before;
        ok := ScanFunction(cfg, Fn(bus, dev, 0), rank);
        DeviceNext(cfg, rank, before, bus, dev, 0);
        if ok && Multi(cfg, bus, dev) {
          ok := ScanMore(cfg, bus, dev, before, rank);
        } else {
          DeviceRest(cfg, rank, bus, dev, 1);
        }
      }
    }

    /** The loop over functions 1 to 7 of a multifunction device. */
    method ScanMore(cfg: Config, bus: nat, dev: nat, ghost before: seq<Fn>, ghost rank: nat -> nat) returns (ok: bool)
      requires Valid() && Acyclic(cfg, rank) && dev < DEV_PER_BUS && Present(cfg, Fn(bus, dev, 0)) && Multi(cfg, bus, dev)
      requires Recordable(before + DeviceSeq(cfg, rank, bus, dev, FUNC_PER_DEV))
      requires nodes == before + DeviceSeq(cfg, rank, bus, dev, 1)
      modifies this
      ensures Valid() && ok && nodes == before + DeviceSeq(cfg, rank, bus, dev, FUNC_PER_DEV)
      decreases rank(bus), 1
    {
      ok := true;
      var func := 1;
      while func < FUNC_PER_DEV && ok
        invariant 1 <= func <= FUNC_PER_DEV && Valid() && ok && nodes == before + DeviceSeq(cfg, rank, bus, dev, func)
      {
        RecordablePart(cfg, rank, before, bus, dev, func);
        DeviceNext(cfg, rank, before, bus, dev, func);
        ok := ScanFunction(cfg, Fn(bus, dev, func), rank);
        func := func + 1;
      }
    }

    /** `pci_scanBus`. */
    method ScanBus(cfg: Config, bus: nat, ghost rank: nat -> nat) returns (ok: bool)
      requires Valid() && Acyclic(cfg, rank) && Recordable(nodes + BusSeq(cfg, rank, bus))
      modifies this
      ensures Valid() && ok && nodes == old(nodes) + BusSeq(cfg, rank, bus)
      decreases rank(bus), 3
    {
      ok := true;
      ghost var before := nodes;
      var dev := 0;
      while dev < DEV_PER_BUS && ok
        invariant 0 <= dev <= DEV_PER_BUS && Valid() && ok && nodes == before + Upto(cfg, rank, bus, dev * 8)
      {
        NextDevice(cfg, rank, before, bus, dev);
        ok := ScanDevice(cfg, bus, dev, rank);
        dev := dev + 1;
      }
    }

    /**
     `pci_scan` over a forest of buses below 100, into an empty directory: it succeeds, and
     the directories it makes are named after the reachable functions, each exactly once.
     On other buses `AddNode` writes outside its buffers; `ScanFitsIff` has both directions.
     */
    method Scan(cfg: Config, ghost rank: nat -> nat) returns (ok: bool)
      requires Valid() && Forest(cfg, rank) && BusesBelow100(cfg) && nodes == []
      modifies this
      ensures Valid() && ok && Distinct(nodes) && forall f :: f in nodes <==> Reachable(cfg, f)
      ensures Distinct(names) && forall f :: Name(f) in names <==> Reachable(cfg, f)
      ensures ByteHeaders(cfg) ==> Enumerated(cfg, names)
    {
      ScanSeqExact(cfg, rank);
      if !Multi(cfg, 0, 0) {
        RootPrefix(cfg, rank, 1);
        assert [] + BusSeq(cfg, rank, 0) == ScanSeq(cfg, rank, 1) by { assert ScanSeq(cfg, rank, 0) == []; }
        ok := ScanBus(cfg, 0, rank);
      } else {
        ok := ScanRoots(cfg, rank);
      }
      NamesExact(names, nodes);
      if ByteHeaders(cfg) {
        ReachableEnumerated(cfg, names);
      }
    }

    /** The loop over several host controllers. */
    method ScanRoots(cfg: Config, ghost rank: nat -> nat) returns (ok: bool)
      requires Valid() && Forest(cfg, rank) && BusesBelow100(cfg) && nodes == [] && Multi(cfg, 0, 0)
      modifies this
      ensures Valid() && ok && nodes == ScanSeq(cfg, rank, RootCount(cfg))
    {
      ok := true;
      var func := 0;
      while func < FUNC_PER_DEV
        invariant 0 <= func <= FUNC_PER_DEV && Valid() && ok && nodes == ScanSeq(cfg, rank, func)
        invariant PresentRun(cfg, func) == RootCount(cfg)
      {
        if cfg.vendor(Fn(0, 0, func)) == NOT_VALID_VENDOR_ID {
          break;
        }
        RootPrefix(cfg, rank, func + 1);
        ok := ScanBus(cfg, func, rank);
        func := func + 1;
      }
    }
  }

  /** The first `func` functions of a device. */
  ghost function DeviceSeq(cfg: Config, rank: nat -> nat, bus: nat, dev: nat, func: nat): seq<Fn>
    requires Acyclic(cfg, rank)
  {
    if func == 0 then []
    else
      var f := Fn(bus, dev, func - 1);
      DeviceSeq(cfg, rank, bus, dev, func - 1) + (if Visible(cfg, f) then FnSeq(cfg, rank, f) else [])
  }

  /** A function that comes next can be recorded, and what lies behind it comes after it. */
  lemma FnFirst(cfg: Config, rank: nat -> nat, before: seq<Fn>, f: Fn)
    requires Acyclic(cfg, rank) && Visible(cfg, f) && Recordable(before + FnSeq(cfg, rank, f))
    ensures f !in before && f.bus < 100
    ensures IsBridge(cfg, f) ==> Link(cfg, f) && before + FnSeq(cfg, rank, f) == before + [f] + BusSeq(cfg, rank, cfg.secondary(f))
    ensures !IsBridge(cfg, f) ==> FnSeq(cfg, rank, f) == [f]
  {
    var all := before + FnSeq(cfg, rank, f);
    assert all[|before|] == f && f in all && forall i :: 0 <= i < |before| ==> all[i] == before[i];
    assert IsBridge(cfg, f) ==> Link(cfg, f);
  }

  lemma DeviceNext(cfg: Config, rank: nat -> nat, before: seq<Fn>, bus: nat, dev: nat, func: nat)
    requires Acyclic(cfg, rank)
    ensures var f := Fn(bus, dev, func);
            before + DeviceSeq(cfg, rank, bus, dev, func + 1)
            == before + DeviceSeq(cfg, rank, bus, dev, func) + (if Visible(cfg, f) then FnSeq(cfg, rank, f) else [])
  {}

  lemma {:induction false} DeviceUpto(cfg: Config, rank: nat -> nat, bus: nat, dev: nat, base: nat, func: nat)
    requires Acyclic(cfg, rank) && func <= FUNC_PER_DEV && base == dev * 8
    ensures Upto(cfg, rank, bus, base + func) == Upto(cfg, rank, bus, base) + DeviceSeq(cfg, rank, bus, dev, func)
    decreases func
  {
    if func > 0 {
      DeviceUpto(cfg, rank, bus, dev, base, func - 1);
      SlotNumber(dev, func - 1);
    }
  }

  lemma SlotNumber(dev: nat, func: nat)
    requires func < FUNC_PER_DEV
    ensures (dev * 8 + func) / 8 == dev && (dev * 8 + func) % 8 == func
  {}

  /** Scanning device `dev` extends the list by the next eight slots, still without repetition. */
  lemma NextDevice(cfg: Config, rank: nat -> nat, before: seq<Fn>, bus: nat, dev: nat)
    requires Acyclic(cfg, rank) && dev < DEV_PER_BUS && Recordable(before + BusSeq(cfg, rank, bus))
    ensures var done := before + Upto(cfg, rank, bus, dev * 8);
            && Recordable(done + DeviceSeq(cfg, rank, bus, dev, FUNC_PER_DEV))
            && done + DeviceSeq(cfg, rank, bus, dev, FUNC_PER_DEV) == before + Upto(cfg, rank, bus, (dev + 1) * 8)
  {
    var base, next := dev * 8, (dev + 1) * 8;
    DeviceUpto(cfg, rank, bus, dev, base, FUNC_PER_DEV);
    assert next == base + FUNC_PER_DEV;
    UptoPrefix(cfg, rank, bus, next, SLOTS);
    AppendPart(before, Upto(cfg, rank, bus, base), DeviceSeq(cfg, rank, bus, dev, FUNC_PER_DEV), BusSeq(cfg, rank, bus));
  }

  lemma AppendPart(before: seq<Fn>, u: seq<Fn>, d: seq<Fn>, whole: seq<Fn>)
    requires u + d <= whole && Recordable(before + whole)
    ensures before + u + d == before + (u + d) && Recordable(before + u + d)
  {
    assert before + (u + d) <= before + whole;
    RecordablePrefix(before + (u + d), before + whole);
  }

  /** From a function on, a device shows nothing more when function 0 or the multifunction bit rules it out. */
  lemma {:induction false} DeviceRest(cfg: Config, rank: nat -> nat, bus: nat, dev: nat, func: nat)
    requires Acyclic(cfg, rank) && func <= FUNC_PER_DEV
    requires !Present(cfg, Fn(bus, dev, 0)) || (func >= 1 && !Multi(cfg, bus, dev))
    ensures DeviceSeq(cfg, rank, bus, dev, FUNC_PER_DEV) == DeviceSeq(cfg, rank, bus, dev, func)
    decreases FUNC_PER_DEV - func
  {
    if func < FUNC_PER_DEV {
      DeviceRest(cfg, rank, bus, dev, func + 1);
    }
  }

  lemma {:induction false} UptoPrefix(cfg: Config, rank: nat -> nat, bus: nat, i: nat, j: nat)
    requires Acyclic(cfg, rank) && i <= j
    ensures Upto(cfg, rank, bus, i) <= Upto(cfg, rank, bus, j)
    decreases j
  {
    if i < j {
      UptoPrefix(cfg, rank, bus, i, j - 1);
    }
  }

  lemma {:induction false} DevicePrefix(cfg: Config, rank: nat -> nat, bus: nat, dev: nat, i: nat, j: nat)
    requires Acyclic(cfg, rank) && i <= j
    ensures DeviceSeq(cfg, rank, bus, dev, i) <= DeviceSeq(cfg, rank, bus, dev, j)
    decreases j
  {
    if i < j {
      DevicePrefix(cfg, rank, bus, dev, i, j - 1);
    }
  }

  lemma RecordablePrefix(s: seq<Fn>, t: seq<Fn>)
    requires s <= t && Recordable(t)
    ensures Recordable(s)
  {}

  /** Scanning the next function of a device cannot meet a function twice. */
  lemma RecordablePart(cfg: Config, rank: nat -> nat, before: seq<Fn>, bus: nat, dev: nat, func: nat)
    requires Acyclic(cfg, rank) && func < FUNC_PER_DEV
    requires Recordable(before + DeviceSeq(cfg, rank, bus, dev, FUNC_PER_DEV))
    ensures var f := Fn(bus, dev, func);
            Visible(cfg, f) ==> Recordable(before + DeviceSeq(cfg, rank, bus, dev, func) + FnSeq(cfg, rank, f))
  {
    DevicePrefix(cfg, rank, bus, dev, func + 1, FUNC_PER_DEV);
    RecordablePrefix(before + DeviceSeq(cfg, rank, bus, dev, func + 1), before + DeviceSeq(cfg, rank, bus, dev, FUNC_PER_DEV));
    var f := Fn(bus, dev, func);
    if Visible(cfg, f) {
      assert before + DeviceSeq(cfg, rank, bus, dev, func + 1) == before + DeviceSeq(cfg, rank, bus, dev, func) + FnSeq(cfg, rank, f);
    }
  }

  lemma RootPrefix(cfg: Config, rank: nat -> nat, k: nat)
    requires Forest(cfg, rank) && BusesBelow100(cfg) && 1 <= k <= RootCount(cfg)
    ensures Recordable(ScanSeq(cfg, rank, k - 1) + BusSeq(cfg, rank, k - 1))
  {
    ScanSeqDistinct(cfg, rank, k);
    forall f | f in ScanSeq(cfg, rank, k) ensures f.bus < 100 {
      var r, p := ScanSeqFrom(cfg, rank, k, f);
      assert Reachable(cfg, f);
    }
  }
}
