/**
 Two-level paging: a directory of 1024 entries over page tables of 1024 entries in
 memory, kept by `mem_map`, `mem_unmap` and `InitPaging`, against one flat map from page
 numbers to frames and flags. 32-bit words are naturals below 2^32; the flags sit in the
 low 12 bits, so setting them in a page-aligned address is addition.
 */
module Paging {
  import Arith
  import opened Basics

  const PAGE_SIZE := 0x1000
  const PAGE_TAB_ENTRIES := 0x400
  const PAGES := 0x10_0000

  const IS_PRESENT := 1
  const IS_RW := 2
  const CACHE_DISABLE := 0x10

  /** A translation: the physical page frame and the flag bits. */
  datatype Entry = Entry(frame: nat, flags: nat)

  /** PAGE_ADDRESS: the address part of an entry. */
  function PageAddress(e: nat): nat { e - e % PAGE_SIZE }

  predicate Present(e: nat) { e % 2 == IS_PRESENT }

  /** The address of the table word for page `p`, given its directory entry. */
  function Slot(e: nat, p: nat): nat { PageAddress(e) + 4 * (p % PAGE_TAB_ENTRIES) }

  // ----- The two-level structure -----

  /** Every directory slot is empty or leads to a table of its own, away from address 0. */
  ghost predicate SlotOk(dir: seq<nat>, words: map<nat, nat>, i: nat)
    requires i < |dir|
  {
    dir[i] == 0 || (Present(dir[i]) && PageAddress(dir[i]) != 0 &&
                    forall j :: 0 <= j < PAGE_TAB_ENTRIES ==> PageAddress(dir[i]) + 4 * j in words)
  }

  ghost predicate Apart(dir: seq<nat>, i: nat, j: nat)
    requires i < |dir| && j < |dir|
  {
    dir[i] != 0 && dir[j] != 0 && i != j ==> PageAddress(dir[i]) != PageAddress(dir[j])
  }

  ghost predicate Valid(dir: seq<nat>, words: map<nat, nat>) {
    && |dir| == PAGE_TAB_ENTRIES
    && (forall i {:trigger SlotOk(dir, words, i)} :: 0 <= i < |dir| ==> SlotOk(dir, words, i))
    && (forall i, j {:trigger Apart(dir, i, j)} :: 0 <= i < |dir| && 0 <= j < |dir| ==> Apart(dir, i, j))
  }

  function DirIndex(p: nat): nat { p / PAGE_TAB_ENTRIES }

  /** The hardware walk for page `p`: directory, table, present bits. */
  ghost function Walk(dir: seq<nat>, words: map<nat, nat>, p: nat): Option<Entry>
    requires Valid(dir, words) && p < PAGES
  {
    var e := dir[DirIndex(p)];
    assert SlotOk(dir, words, DirIndex(p));
    if e == 0 then None
    else
      var w := words[Slot(e, p)];
      if Present(w) then Some(Entry(w / PAGE_SIZE, w % PAGE_SIZE)) else None
  }

  /** Different pages with tables have different table words. */
  lemma SlotsApart(dir: seq<nat>, words: map<nat, nat>, p: nat, q: nat)
    requires Valid(dir, words) && p < PAGES && q < PAGES && p != q
    requires dir[DirIndex(p)] != 0 && dir[DirIndex(q)] != 0
    ensures Slot(dir[DirIndex(p)], p) != Slot(dir[DirIndex(q)], q)
  {
    var i, j := DirIndex(p), DirIndex(q);
    assert Apart(dir, i, j);
    if i == j {
      assert p % PAGE_TAB_ENTRIES != q % PAGE_TAB_ENTRIES;
    } else {
      TablesApart(dir[i], dir[j], p % PAGE_TAB_ENTRIES, q % PAGE_TAB_ENTRIES);
    }
  }

  lemma TablesApart(d: nat, e: nat, j: nat, k: nat)
    requires PageAddress(d) != PageAddress(e) && j < PAGE_TAB_ENTRIES && k < PAGE_TAB_ENTRIES
    ensures PageAddress(d) + 4 * j != PageAddress(e) + 4 * k
  {
    var x, y := d / PAGE_SIZE, e / PAGE_SIZE;
    assert PageAddress(d) == PAGE_SIZE * x && PageAddress(e) == PAGE_SIZE * y;
  }

  lemma ValidStore(dir: seq<nat>, words: map<nat, nat>, a: nat, w: nat)
    requires Valid(dir, words)
    ensures Valid(dir, words[a := w])
  {
    var words' := words[a := w];
    forall i | 0 <= i < |dir| ensures SlotOk(dir, words', i) {
      assert SlotOk(dir, words, i);
    }
  }

  function Decoded(w: nat): Option<Entry> {
    if Present(w) then Some(Entry(w / PAGE_SIZE, w % PAGE_SIZE)) else None
  }

  /** Writing the table word of one page changes the translation of that page and of no other. */
  lemma WalkStore(dir: seq<nat>, words: map<nat, nat>, p: nat, w: nat, q: nat)
    requires Valid(dir, words) && p < PAGES && q < PAGES && dir[DirIndex(p)] != 0
    ensures Valid(dir, words[Slot(dir[DirIndex(p)], p) := w])
    ensures Walk(dir, words[Slot(dir[DirIndex(p)], p) := w], q) == if q == p then Decoded(w) else Walk(dir, words, q)
  {
    ValidStore(dir, words, Slot(dir[DirIndex(p)], p), w);
    assert SlotOk(dir, words, DirIndex(q));
    if q != p && dir[DirIndex(q)] != 0 {
      SlotsApart(dir, words, p, q);
    }
  }

  // ----- Ranges of pages -----

  /** Distance from page `p` up to page `q`, around the end of the 32-bit address space. */
  function Offset(p: nat, q: nat): nat { (q - p) % PAGES }

  lemma OffsetStep(p: nat, k: nat, q: nat)
    requires p < PAGES && q < PAGES && k < PAGES
    ensures Offset(p, q) == k <==> q == (p + k) % PAGES
  {}

  /** The page number of a 32-bit address. */
  function PageOf(addr: nat): nat { addr / PAGE_SIZE }

  /** PAGE_ALIGN_CEIL(size) / PAGE_SIZE, with the wrap-around of the addition. */
  function PageCount(size: nat): (n: nat)
    ensures size < U32_LIMIT ==> n < PAGES
  {
    U32(size + (PAGE_SIZE - 1)) / PAGE_SIZE
  }

  /** GET_PAG_DIR_INDEX and GET_PAG_TAB_INDEX of the `k`-th page from address `start`. */
  lemma PageStep(start: nat, k: nat)
    requires start < U32_LIMIT && start % PAGE_SIZE == 0 && k < PAGES
    ensures PageOf(U32(start + k * PAGE_SIZE)) == (PageOf(start) + k) % PAGES
  {
    var s := PageOf(start);
    assert start == PAGE_SIZE * s;
    var t := s + k;
    assert start + k * PAGE_SIZE == PAGE_SIZE * t;
    if t < PAGES {
      assert U32(PAGE_SIZE * t) == PAGE_SIZE * t;
    } else {
      assert U32(PAGE_SIZE * t) == PAGE_SIZE * (t - PAGES);
    }
  }

  function FlagsOf(writable: bool, cacheable: bool): nat {
    IS_PRESENT + (if writable then IS_RW else 0) + (if cacheable then 0 else CACHE_DISABLE)
  }

  lemma EntryWord(frame: nat, flags: nat)
    requires frame < PAGES && flags < PAGE_SIZE && flags % 2 == 1
    ensures Decoded(frame * PAGE_SIZE + flags) == Some(Entry(frame, flags))
  {
    var w := frame * PAGE_SIZE + flags;
    Arith.DivUnique(w, PAGE_SIZE, frame, flags);
    Arith.DivUnique(w, 2, frame * 0x800 + flags / 2, 1);
  }

  // ----- The flat map -----

  /** All translations as one map. */
  ghost function View(dir: seq<nat>, words: map<nat, nat>): map<nat, Entry>
    requires Valid(dir, words)
  {
    map p | 0 <= p < PAGES && Walk(dir, words, p).Some? :: Walk(dir, words, p).value
  }

  /** Range override: `n` pages from `p` on map to consecutive frames from `frame` on. */
  ghost function MapRange(v: map<nat, Entry>, p: nat, n: nat, frame: nat, flags: nat): map<nat, Entry> {
    map q | 0 <= q < PAGES && (q in v || Offset(p, q) < n) ::
      if Offset(p, q) < n then Entry((frame + Offset(p, q)) % PAGES, flags) else v[q]
  }

  /** Range removal. */
  ghost function UnmapRange(v: map<nat, Entry>, p: nat, n: nat): map<nat, Entry> {
    map q | q in v && Offset(p, q) >= n :: v[q]
  }

  /** The presence check of `mem_map` lets the call through unless a table before the last one is absent. */
  ghost predicate Refused(dir: seq<nat>, index: nat, tabs: nat)
    requires index + tabs <= |dir|
  {
    exists j :: index <= j < index + tabs - 1 && !Present(dir[j])
  }

  /** All `n` pages from `p` on have their table. */
  ghost predicate TablesPresent(dir: seq<nat>, p: nat, n: nat)
    requires |dir| == PAGE_TAB_ENTRIES
  {
    forall q :: 0 <= q < PAGES && Offset(p, q) < n ==> dir[DirIndex(q)] != 0
  }

  datatype Call =
    | Map(phys: nat, addr: nat, size: nat, writable: bool, cacheable: bool)
    | Unmap(addr: nat, size: nat)

  /** A call on 32-bit arguments; a mapping stays inside the address space and has its tables. */
  ghost predicate CallOk(dir: seq<nat>, c: Call)
    requires |dir| == PAGE_TAB_ENTRIES
  {
    && c.addr < U32_LIMIT && c.size < U32_LIMIT
    && (c.Map? ==>
          && c.phys < U32_LIMIT && PageOf(c.addr) + PageCount(c.size) <= PAGES
          && TablesPresent(dir, PageOf(c.addr), PageCount(c.size)))
  }

  /** What a sequence of calls does to the flat map. */
  ghost function FlatRun(v: map<nat, Entry>, calls: seq<Call>): map<nat, Entry> {
    if calls == [] then v
    else
      var before := FlatRun(v, calls[..|calls| - 1]);
      match calls[|calls| - 1]
      case Map(phys, addr, size, writable, cacheable) =>
        MapRange(before, PageOf(addr), PageCount(size), PageOf(phys), FlagsOf(writable, cacheable))
      case Unmap(addr, size) => UnmapRange(before, PageOf(addr), PageCount(size))
  }

  /** A range whose tables are all present passes the check of `mem_map`. */
  lemma AllPresentNotRefused(dir: seq<nat>, words: map<nat, nat>, p: nat, n: nat)
    requires Valid(dir, words) && p + n <= PAGES && p < PAGES && TablesPresent(dir, p, n)
    ensures DirIndex(p) + n / PAGE_TAB_ENTRIES <= PAGE_TAB_ENTRIES
    ensures !Refused(dir, DirIndex(p), n / PAGE_TAB_ENTRIES)
  {
    var index, tabs := DirIndex(p), n / PAGE_TAB_ENTRIES;
    forall j | index <= j < index + tabs - 1 ensures Present(dir[j]) {
      var q := if j == index then p else j * PAGE_TAB_ENTRIES;
      assert DirIndex(q) == j && p <= q < p + n;
      assert Offset(p, q) == q - p;
      assert SlotOk(dir, words, j);
    }
  }

  /**
   A range that the check of `mem_map` lets through has all its tables if and only if the
   tables the check overlooks are there: the single or last one it looks at, and the one
   behind them.
   */
  lemma CheckedRangeIff(dir: seq<nat>, words: map<nat, nat>, p: nat, n: nat)
    requires Valid(dir, words) && n >= 1 && p + n <= PAGES
    requires DirIndex(p) + n / PAGE_TAB_ENTRIES <= PAGE_TAB_ENTRIES
    requires !Refused(dir, DirIndex(p), n / PAGE_TAB_ENTRIES)
    ensures var index, tabs, last := DirIndex(p), n / PAGE_TAB_ENTRIES, DirIndex(p + n - 1);
            TablesPresent(dir, p, n) <==>
            forall j :: index <= j <= last && index + tabs - 1 <= j ==> dir[j] != 0
  {
    var index, tabs, last := DirIndex(p), n / PAGE_TAB_ENTRIES, DirIndex(p + n - 1);
    if TablesPresent(dir, p, n) {
      forall j | index <= j <= last ensures dir[j] != 0 {
        var q := PageUnder(p, n, j);
      }
    }
    if forall j :: index <= j <= last && index + tabs - 1 <= j ==> dir[j] != 0 {
      forall q | 0 <= q < PAGES && Offset(p, q) < n ensures dir[DirIndex(q)] != 0 {
        InRange(p, n, q);
        if DirIndex(q) < index + tabs - 1 {
          assert Present(dir[DirIndex(q)]);
        }
      }
    }
  }

  /** A page of the range under directory slot `j`. */
  lemma PageUnder(p: nat, n: nat, j: nat) returns (q: nat)
    requires n >= 1 && p + n <= PAGES && DirIndex(p) <= j <= DirIndex(p + n - 1)
    ensures q < PAGES && DirIndex(q) == j && Offset(p, q) < n
  {
    q := if j == DirIndex(p) then p else j * PAGE_TAB_ENTRIES;
    assert p <= q < p + n;
    assert Offset(p, q) == q - p;
  }

  lemma InRange(p: nat, n: nat, q: nat)
    requires p + n <= PAGES && q < PAGES && Offset(p, q) < n
    ensures p <= q < p + n && DirIndex(p) <= DirIndex(q) <= DirIndex(p + n - 1)
  {}

  /** The check passes a one-page range in an empty directory. */
  lemma CheckMissesSingleTable()
    ensures var dir := seq(PAGE_TAB_ENTRIES, _ => 0);
            Valid(dir, map[]) && !Refused(dir, 0, 1 / PAGE_TAB_ENTRIES) && !TablesPresent(dir, 0, 1)
  {
    var dir := seq(PAGE_TAB_ENTRIES, _ => 0);
    assert Offset(0, 0) == 0 && dir[DirIndex(0)] == 0;
  }

  /** The first `k` pages of a range are mapped, the others translate as before. */
  ghost predicate MappedUpto(dir: seq<nat>, before: map<nat, nat>, words: map<nat, nat>, p0: nat, k: nat, f0: nat, flags: nat) {
    && Valid(dir, before) && Valid(dir, words)
    && forall q {:trigger Walk(dir, words, q)} :: 0 <= q < PAGES ==>
         Walk(dir, words, q) ==
         if Offset(p0, q) < k then Some(Entry((f0 + Offset(p0, q)) % PAGES, flags)) else Walk(dir, before, q)
  }

  lemma MapStep(dir: seq<nat>, before: map<nat, nat>, words: map<nat, nat>, p0: nat, k: nat, f0: nat, flags: nat, p: nat, w: nat)
    requires MappedUpto(dir, before, words, p0, k, f0, flags) && p < PAGES && p0 < PAGES && k < PAGES
    requires Offset(p0, p) == k && dir[DirIndex(p)] != 0 && Decoded(w) == Some(Entry((f0 + k) % PAGES, flags))
    ensures MappedUpto(dir, before, words[Slot(dir[DirIndex(p)], p) := w], p0, k + 1, f0, flags)
  {
    var words' := words[Slot(dir[DirIndex(p)], p) := w];
    ValidStore(dir, words, Slot(dir[DirIndex(p)], p), w);
    forall q | 0 <= q < PAGES
      ensures Walk(dir, words', q) ==
              if Offset(p0, q) < k + 1 then Some(Entry((f0 + Offset(p0, q)) % PAGES, flags)) else Walk(dir, before, q)
    {
      WalkStore(dir, words, p, w, q);
      OffsetInjective(p0, p, q);
    }
  }

  lemma OffsetInjective(p0: nat, p: nat, q: nat)
    requires p0 < PAGES && p < PAGES && q < PAGES
    ensures Offset(p0, p) == Offset(p0, q) <==> p == q
  {}

  lemma MappedView(dir: seq<nat>, before: map<nat, nat>, words: map<nat, nat>, p0: nat, n: nat, f0: nat, flags: nat)
    requires MappedUpto(dir, before, words, p0, n, f0, flags)
    ensures View(dir, words) == MapRange(View(dir, before), p0, n, f0, flags)
  {}

  // ----- Ranges in bytes -----

  /** A size that the rounding of the code does not wrap. */
  predicate Rounds(size: nat) { size <= 0x1_0000_0000 - 0x1000 }

  /**
   The page count is the size rounded up for every such size. Any larger size wraps: no
   page at all is mapped, and the call still succeeds.
   */
  lemma PageCountRounds(size: nat)
    requires size < U32_LIMIT
    ensures Rounds(size) ==> size <= PageCount(size) * PAGE_SIZE < size + PAGE_SIZE
    ensures !Rounds(size) ==> PageCount(size) == 0
  {}

  /** The page of byte `i` behind page `p`, around the end of the address space. */
  lemma PageOfByte(p: nat, i: nat)
    requires p < PAGES && i < U32_LIMIT
    ensures PageOf(U32(p * PAGE_SIZE + i)) == (p + i / PAGE_SIZE) % PAGES
  {
    var k := i / 0x1000;
    if p + k < PAGES {
      assert U32(p * 0x1000 + i) == p * 0x1000 + i;
    } else {
      assert U32(p * 0x1000 + i) == p * 0x1000 + i - 0x1_0000_0000;
    }
  }

  /** Some of the `size` bytes from the beginning of the page of `addr` on lies on page `q`. */
  ghost predicate Reaches(addr: nat, size: nat, q: nat) {
    exists a :: PageAddress(addr) <= a < PageAddress(addr) + size && PageOf(U32(a)) == q
  }

  lemma ByteInRange(addr: nat, size: nat, a: nat)
    requires addr < U32_LIMIT && Rounds(size) && PageAddress(addr) <= a < PageAddress(addr) + size
    ensures var k := (a - PageAddress(addr)) / PAGE_SIZE;
            k < PageCount(size) && PageOf(U32(a)) == (PageOf(addr) + k) % PAGES && Offset(PageOf(addr), PageOf(U32(a))) == k
  {
    var i := a - PageAddress(addr);
    PageCountRounds(size);
    assert PageAddress(addr) == PageOf(addr) * PAGE_SIZE;
    PageOfByte(PageOf(addr), i);
    OffsetStep(PageOf(addr), i / PAGE_SIZE, PageOf(U32(a)));
  }

  /** The pages of the range are those that its bytes reach. */
  lemma ReachesIff(addr: nat, size: nat, q: nat)
    requires addr < U32_LIMIT && Rounds(size) && q < PAGES
    ensures Reaches(addr, size, q) <==> Offset(PageOf(addr), q) < PageCount(size)
  {
    if Reaches(addr, size, q) {
      var a :| PageAddress(addr) <= a < PageAddress(addr) + size && PageOf(U32(a)) == q;
      ByteInRange(addr, size, a);
    }
    var k := Offset(PageOf(addr), q);
    if k < PageCount(size) {
      var a := PageAddress(addr) + k * PAGE_SIZE;
      PageCountRounds(size);
      Arith.MulLess(k, PageCount(size) - 1, PAGE_SIZE);
      PageStep(PageAddress(addr), k);
      OffsetStep(PageOf(addr), k, q);
      assert PageOf(U32(a)) == q;
    }
  }

  /** A byte behind the page of `addr` is on a page of the range exactly when it lies below the rounded size. */
  lemma ByteReachedIff(addr: nat, size: nat, a: nat)
    requires addr < U32_LIMIT && Rounds(size) && PageAddress(addr) <= a < PageAddress(addr) + U32_LIMIT
    ensures Reaches(addr, size, PageOf(U32(a))) <==> a - PageAddress(addr) < (size + 0xFFF) / 0x1000 * 0x1000
  {
    var i := a - PageAddress(addr);
    assert PageAddress(addr) == PageOf(addr) * PAGE_SIZE;
    PageOfByte(PageOf(addr), i);
    OffsetStep(PageOf(addr), i / PAGE_SIZE, PageOf(U32(a)));
    ReachesIff(addr, size, PageOf(U32(a)));
    assert PageCount(size) == (size + 0xFFF) / 0x1000;
  }

  /**
   The range starts at the page of `addr` and not at `addr`. So the bytes that the caller
   names, `size` of them from `addr` on, are all reached if and only if what `addr` lies
   behind its page still fits the rounded size.
   */
  lemma RequestReachedIff(addr: nat, size: nat)
    requires addr < U32_LIMIT && 0 < size && Rounds(size)
    ensures (forall a {:trigger U32(a)} :: addr <= a < addr + size ==> Reaches(addr, size, PageOf(U32(a))))
            <==> addr % 0x1000 + size <= (size + 0xFFF) / 0x1000 * 0x1000
  {
    var last := addr + size - 1;
    ByteReachedIff(addr, size, last);
    if addr % 0x1000 + size <= (size + 0xFFF) / 0x1000 * 0x1000 {
      forall a {:trigger U32(a)} | addr <= a < addr + size ensures Reaches(addr, size, PageOf(U32(a))) {
        ByteReachedIff(addr, size, a);
      }
    } else {
      assert PageOf(U32(last)) == PageOf(U32(last));
    }
  }

  ghost predicate SameAt(v: map<nat, Entry>, v': map<nat, Entry>, q: nat) {
    (q in v <==> q in v') && (q in v ==> v'[q] == v[q])
  }

  /** Bit 0 present, bit 1 writable, bit 4 cache disabled, and no other. */
  predicate FlagBits(flags: nat, writable: bool, cacheable: bool) {
    && flags % 2 == 1 && (flags / 2 % 2 == 1 <==> writable) && flags / 4 % 4 == 0
    && (flags / 16 % 2 == 1 <==> !cacheable) && flags / 32 == 0
  }

  /** From `v` to `v'` the range has been mapped byte for byte, and no page has changed that it does not reach. */
  ghost predicate MappedBytes(v: map<nat, Entry>, v': map<nat, Entry>, phys: nat, addr: nat, size: nat, writable: bool, cacheable: bool) {
    && (forall a {:trigger U32(a)} :: PageAddress(addr) <= a < PageAddress(addr) + size ==>
          var q := PageOf(U32(a));
          && q in v' && v'[q].frame == PageOf(U32(PageAddress(phys) + (a - PageAddress(addr))))
          && FlagBits(v'[q].flags, writable, cacheable))
    && (forall q {:trigger SameAt(v, v', q)} :: 0 <= q < PAGES && !Reaches(addr, size, q) ==> SameAt(v, v', q))
  }

  /** From `v` to `v'` the range has been unmapped, and no page has changed that it does not reach. */
  ghost predicate UnmappedBytes(v: map<nat, Entry>, v': map<nat, Entry>, addr: nat, size: nat) {
    && (forall a {:trigger U32(a)} :: PageAddress(addr) <= a < PageAddress(addr) + size ==> PageOf(U32(a)) !in v')
    && (forall q {:trigger SameAt(v, v', q)} :: 0 <= q < PAGES && !Reaches(addr, size, q) ==> SameAt(v, v', q))
  }

  /** Overriding the range of pages is mapping its bytes. */
  lemma MapRangeBytes(v: map<nat, Entry>, v': map<nat, Entry>, phys: nat, addr: nat, size: nat, writable: bool, cacheable: bool)
    requires phys < U32_LIMIT && addr < U32_LIMIT && Rounds(size) && forall q <- v :: q < PAGES
    requires v' == MapRange(v, PageOf(addr), PageCount(size), PageOf(phys), FlagsOf(writable, cacheable))
    ensures MappedBytes(v, v', phys, addr, size, writable, cacheable)
  {
    var flags := FlagsOf(writable, cacheable);
    FlagsOfBits(writable, cacheable);
    forall a {:trigger U32(a)} | PageAddress(addr) <= a < PageAddress(addr) + size
      ensures PageOf(U32(a)) in v' && v'[PageOf(U32(a))] == Entry(PageOf(U32(PageAddress(phys) + (a - PageAddress(addr)))), flags)
    {
      MapRangeByte(v, phys, addr, size, flags, a);
    }
    forall q | 0 <= q < PAGES && !Reaches(addr, size, q) ensures SameAt(v, v', q) {
      MapRangeElsewhere(v, phys, addr, size, flags, q);
    }
  }

  lemma MapRangeElsewhere(v: map<nat, Entry>, phys: nat, addr: nat, size: nat, flags: nat, q: nat)
    requires addr < U32_LIMIT && Rounds(size) && q < PAGES && !Reaches(addr, size, q)
    ensures SameAt(v, MapRange(v, PageOf(addr), PageCount(size), PageOf(phys), flags), q)
  {
    ReachesIff(addr, size, q);
  }

  lemma FlagsOfBits(writable: bool, cacheable: bool)
    ensures FlagBits(FlagsOf(writable, cacheable), writable, cacheable)
  {}

  lemma MapRangeByte(v: map<nat, Entry>, phys: nat, addr: nat, size: nat, flags: nat, a: nat)
    requires phys < U32_LIMIT && addr < U32_LIMIT && Rounds(size) && PageAddress(addr) <= a < PageAddress(addr) + size
    ensures var v', q := MapRange(v, PageOf(addr), PageCount(size), PageOf(phys), flags), PageOf(U32(a));
            q in v' && v'[q] == Entry(PageOf(U32(PageAddress(phys) + (a - PageAddress(addr)))), flags)
  {
    ByteInRange(addr, size, a);
    assert PageAddress(phys) == PageOf(phys) * PAGE_SIZE;
    PageOfByte(PageOf(phys), a - PageAddress(addr));
  }

  /** Removing the range of pages is unmapping its bytes. */
  lemma UnmapRangeBytes(v: map<nat, Entry>, addr: nat, size: nat)
    requires addr < U32_LIMIT && Rounds(size)
    ensures UnmappedBytes(v, UnmapRange(v, PageOf(addr), PageCount(size)), addr, size)
  {
    var v' := UnmapRange(v, PageOf(addr), PageCount(size));
    forall a | PageAddress(addr) <= a < PageAddress(addr) + size ensures PageOf(U32(a)) !in v' {
      ByteInRange(addr, size, a);
    }
    forall q | 0 <= q < PAGES && !Reaches(addr, size, q) ensures SameAt(v, v', q) {
      ReachesIff(addr, size, q);
    }
  }

  /** One call, in bytes. */
  ghost predicate CallBytes(v: map<nat, Entry>, c: Call, v': map<nat, Entry>) {
    match c
    case Map(phys, addr, size, writable, cacheable) => MappedBytes(v, v', phys, addr, size, writable, cacheable)
    case Unmap(addr, size) => UnmappedBytes(v, v', addr, size)
  }

  lemma {:induction false} FlatRunPages(v: map<nat, Entry>, calls: seq<Call>)
    requires forall q <- v :: q < PAGES
    ensures forall q <- FlatRun(v, calls) :: q < PAGES
    decreases |calls|
  {
    if calls != [] {
      FlatRunPages(v, calls[..|calls| - 1]);
    }
  }

  /** In a sequence of calls every one does to the flat map what its bytes say. */
  lemma FlatRunBytes(dir: seq<nat>, v: map<nat, Entry>, calls: seq<Call>, i: nat)
    requires i < |calls| && |dir| == PAGE_TAB_ENTRIES && CallOk(dir, calls[i]) && Rounds(calls[i].size)
    requires forall q <- v :: q < PAGES
    ensures CallBytes(FlatRun(v, calls[..i]), calls[i], FlatRun(v, calls[..i + 1]))
  {
    var upto := calls[..i + 1];
    assert upto[..|upto| - 1] == calls[..i] && upto[|upto| - 1] == calls[i];
    var before := FlatRun(v, calls[..i]);
    FlatRunPages(v, calls[..i]);
    match calls[i] {
      case Map(phys, addr, size, writable, cacheable) => MapRangeBytes(before, FlatRun(v, upto), phys, addr, size, writable, cacheable);
      case Unmap(addr, size) => UnmapRangeBytes(before, addr, size);
    }
  }

  /**
   The processor's translation of a linear address (section 4.3 of volume 3A of the Intel
   Software Developer's Manual): bits 31 to 22 pick the directory entry, bits 21 to 12 the
   table entry, bits 11 to 0 go into the physical address.
   */
  ghost function Translate(dir: seq<nat>, words: map<nat, nat>, a: nat): Option<nat>
    requires Valid(dir, words) && a < 0x1_0000_0000
  {
    var pde := dir[a / 0x40_0000];
    if pde % 2 == 0 then None
    else
      var slot := pde / 0x1000 * 0x1000 + a / 0x1000 % 0x400 * 4;
      if slot !in words || words[slot] % 2 == 0 then None else Some(words[slot] / 0x1000 * 0x1000 + a % 0x1000)
  }

  /** The flat map holds what the processor finds. */
  lemma TranslateIsFlat(dir: seq<nat>, words: map<nat, nat>, a: nat)
    requires Valid(dir, words) && a < U32_LIMIT
    ensures var v, p := View(dir, words), a / 0x1000;
            Translate(dir, words, a) == if p in v then Some(v[p].frame * 0x1000 + a % 0x1000) else None
  {
    var p := PageOf(a);
    assert DirIndex(p) == a / 0x40_0000;
    assert SlotOk(dir, words, DirIndex(p));
    var e := dir[DirIndex(p)];
    assert PageAddress(e) == e / 0x1000 * 0x1000;
    assert Slot(e, p) == e / 0x1000 * 0x1000 + a / 0x1000 % 0x400 * 4;
  }

  /** After a mapping the processor finds every byte of the range at its place behind `phys`. */
  lemma MappedTranslates(dir: seq<nat>, words: map<nat, nat>, v: map<nat, Entry>, phys: nat, addr: nat, size: nat, w: bool, c: bool, a: nat)
    requires Valid(dir, words) && MappedBytes(v, View(dir, words), phys, addr, size, w, c)
    requires PageAddress(addr) <= a < PageAddress(addr) + size
    ensures Translate(dir, words, U32(a)) == Some(U32(PageAddress(phys) + (a - PageAddress(addr))))
  {
    var x := PageAddress(phys) + (a - PageAddress(addr));
    assert View(dir, words)[PageOf(U32(a))].frame == PageOf(U32(x));
    SameRemainder(phys, addr, a);
    FoundAt(dir, words, U32(a), U32(x)) by { SameOffset(x, a); }
  }

  lemma FoundAt(dir: seq<nat>, words: map<nat, nat>, a: nat, x: nat)
    requires Valid(dir, words) && a < U32_LIMIT && a / 0x1000 in View(dir, words)
    requires View(dir, words)[a / 0x1000].frame == x / 0x1000 && a % 0x1000 == x % 0x1000
    ensures Translate(dir, words, a) == Some(x)
  {
    TranslateIsFlat(dir, words, a);
  }

  lemma SameRemainder(phys: nat, addr: nat, a: nat)
    requires PageAddress(addr) <= a
    ensures (PageAddress(phys) + (a - PageAddress(addr))) % 0x1000 == a % 0x1000
  {}

  lemma SameOffset(x: nat, a: nat)
    requires x % 0x1000 == a % 0x1000
    ensures U32(a) % 0x1000 == U32(x) % 0x1000
  {}

  /** All pages of a range have a property exactly when the pages of all its bytes have it. */
  lemma RangeInBytes(v: map<nat, Entry>, addr: nat, size: nat)
    requires addr < U32_LIMIT && Rounds(size)
    ensures (forall q :: 0 <= q < PAGES && Offset(PageOf(addr), q) < PageCount(size) ==> q in v)
            <==> forall a {:trigger U32(a)} :: PageAddress(addr) <= a < PageAddress(addr) + size ==> PageOf(U32(a)) in v
  {
    if forall q :: 0 <= q < PAGES && Offset(PageOf(addr), q) < PageCount(size) ==> q in v {
      forall a {:trigger U32(a)} | PageAddress(addr) <= a < PageAddress(addr) + size ensures PageOf(U32(a)) in v {
        ByteInRange(addr, size, a);
      }
    }
    if forall a {:trigger U32(a)} :: PageAddress(addr) <= a < PageAddress(addr) + size ==> PageOf(U32(a)) in v {
      forall q | 0 <= q < PAGES && Offset(PageOf(addr), q) < PageCount(size) ensures q in v {
        ReachesIff(addr, size, q);
      }
    }
  }

  class Mapper {
    const dir: array<nat>          // page_directory
    var words: map<nat, nat>       // the words of the page tables, by address

    ghost predicate Ok()
      reads this, dir
    {
      Valid(dir[..], words)
    }

    ghost function Flat(): map<nat, Entry>
      requires Ok()
      reads this, dir
    {
      View(dir[..], words)
    }

    /** Static storage: an empty directory. */
    constructor ()
      ensures fresh(dir) && dir[..] == seq(PAGE_TAB_ENTRIES, _ => 0) && words == map[]
    {
      dir := new nat[PAGE_TAB_ENTRIES](_ => 0);
      words := map[];
    }

    /** `is_mapped`: true exactly when every byte of the range has a translation. */
    method IsMapped(addr: nat, size: nat) returns (r: bool)
      requires Ok() && addr < U32_LIMIT && size < U32_LIMIT
      ensures r <==> forall q :: 0 <= q < PAGES && Offset(PageOf(addr), q) < PageCount(size) ==> q in Flat()
      ensures Rounds(size) ==>
                (r <==> forall a {:trigger U32(a)} :: PageAddress(addr) <= a < PageAddress(addr) + size ==> PageOf(U32(a)) in Flat())
    {
      assert PageOf(PageAddress(addr)) == PageOf(addr);
      r := PagesMapped(PageAddress(addr), PageCount(size));
      if Rounds(size) {
        RangeInBytes(Flat(), addr, size);
      }
    }

    /** The loop of `is_mapped`. */
    method PagesMapped(start: nat, n: nat) returns (r: bool)
      requires Ok() && start < U32_LIMIT && start % PAGE_SIZE == 0 && n < PAGES
      ensures r <==> forall q :: 0 <= q < PAGES && Offset(PageOf(start), q) < n ==> q in Flat()
    {
      ghost var p0 := PageOf(start);
      var k := 0;
      while k < n
        invariant 0 <= k <= n
        invariant forall q :: 0 <= q < PAGES && Offset(p0, q) < k ==> q in Flat()
      {
        PageStep(start, k);
        var p := PageOf(U32(start + k * PAGE_SIZE));
        assert SlotOk(dir[..], words, DirIndex(p));
        assert Offset(p0, p) == k by { OffsetStep(p0, k, p); }
        if !Present(dir[DirIndex(p)]) || !Present(words[Slot(dir[DirIndex(p)], p)]) {
          assert p !in Flat();
          return false;
        }
        forall q | 0 <= q < PAGES && Offset(p0, q) < k + 1 ensures q in Flat() {
          OffsetStep(p0, k, q);
        }
        k := k + 1;
      }
      r := true;
    }

    /** The do-while loop in front of `mem_map`. */
    method CheckTables(index: nat, tabs: nat) returns (ok: bool)
      requires Ok() && index < PAGE_TAB_ENTRIES && index + tabs <= PAGE_TAB_ENTRIES
      ensures ok <==> !Refused(dir[..], index, tabs)
    {
      var k := index;
      var more := true;
      while more
        invariant index <= k <= PAGE_TAB_ENTRIES
        invariant more ==> (k == index || k < index + tabs) && forall j :: index <= j < k ==> Present(dir[j])
        invariant !more ==>
                    || (k >= index + tabs && forall j :: index <= j < k - 1 ==> Present(dir[j]))
                    || (index < k < index + tabs && !Present(dir[k - 1]))
        invariant !more ==> k > index
        decreases more, PAGE_TAB_ENTRIES - k
      {
        var here := dir[k];
        k := k + 1;
        more := Present(here) && k < index + tabs;
      }
      ok := k >= index + tabs;
      assert !ok ==> !Present(dir[..][k - 1]);
    }

    /**
     `mem_map`. When it is not refused, the translations become the old ones overridden on
     the range; `mapped` is the size it reports.
     */
    method MemMap(phys: nat, addr: nat, size: nat, writable: bool, cacheable: bool) returns (r: Option<nat>, mapped: nat)
      requires Ok() && phys < U32_LIMIT && addr < U32_LIMIT && size < U32_LIMIT
      requires DirIndex(PageOf(addr)) + PageCount(size) / PAGE_TAB_ENTRIES <= PAGE_TAB_ENTRIES
      requires TablesPresent(dir[..], PageOf(addr), PageCount(size))
               || Refused(dir[..], DirIndex(PageOf(addr)), PageCount(size) / PAGE_TAB_ENTRIES)
      modifies this`words
      ensures Ok()
      ensures Refused(dir[..], DirIndex(PageOf(addr)), PageCount(size) / PAGE_TAB_ENTRIES) ==>
                r.None? && mapped == 0 && words == old(words)
      ensures !Refused(dir[..], DirIndex(PageOf(addr)), PageCount(size) / PAGE_TAB_ENTRIES) ==>
                && r == Some(PageAddress(addr)) && mapped == PageCount(size) * PAGE_SIZE
                && Flat() == MapRange(old(Flat()), PageOf(addr), PageCount(size), PageOf(phys), FlagsOf(writable, cacheable))
      ensures r.Some? && Rounds(size) ==>
                && size <= mapped < size + PAGE_SIZE
                && MappedBytes(old(Flat()), Flat(), phys, addr, size, writable, cacheable)
    {
      var flags := IS_PRESENT;
      if writable {
        flags := flags + IS_RW;
      }
      if !cacheable {
        flags := flags + CACHE_DISABLE;
      }
      var start := PageAddress(addr);
      assert PageOf(start) == PageOf(addr);
      var ok := CheckTables(DirIndex(PageOf(start)), PageCount(size) / PAGE_TAB_ENTRIES);
      if !ok {
        return None, 0;
      }
      MapPages(PageAddress(phys), start, PageCount(size), flags);
      r, mapped := Some(start), PageCount(size) * PAGE_SIZE;
      if Rounds(size) {
        PageCountRounds(size);
        MapRangeBytes(old(Flat()), Flat(), phys, addr, size, writable, cacheable);
      }
    }

    /** The mapping loop of `mem_map`. */
    method MapPages(phys: nat, start: nat, n: nat, flags: nat)
      requires Ok() && phys < U32_LIMIT && start < U32_LIMIT && n < PAGES
      requires phys % PAGE_SIZE == 0 && start % PAGE_SIZE == 0 && flags < PAGE_SIZE && flags % 2 == 1
      requires TablesPresent(dir[..], PageOf(start), n)
      modifies this`words
      ensures Ok() && Flat() == MapRange(old(Flat()), PageOf(start), n, PageOf(phys), flags)
    {
      ghost var p0, f0 := PageOf(start), PageOf(phys);
      ghost var before := words;
      var k := 0;
      while k < n
        invariant 0 <= k <= n && MappedUpto(dir[..], before, words, p0, k, f0, flags)
      {
        PageStep(start, k);
        var p := PageOf(U32(start + k * PAGE_SIZE));
        assert Offset(p0, p) == k by { OffsetStep(p0, k, p); }
        var w := U32(phys + k * PAGE_SIZE) + flags;
        StoredEntry(phys, k, flags);
        MapStep(dir[..], before, words, p0, k, f0, flags, p, w);
        words := words[Slot(dir[DirIndex(p)], p) := w];
        k := k + 1;
      }
      MappedView(dir[..], before, words, p0, n, f0, flags);
    }

    /** `mem_unmap`: pages without a table are skipped, the others lose their translation. */
    method MemUnmap(addr: nat, size: nat)
      requires Ok() && addr < U32_LIMIT && size < U32_LIMIT
      modifies this`words
      ensures Ok() && Flat() == UnmapRange(old(Flat()), PageOf(addr), PageCount(size))
      ensures Rounds(size) ==> UnmappedBytes(old(Flat()), Flat(), addr, size)
    {
      assert PageOf(PageAddress(addr)) == PageOf(addr);
      UnmapPages(PageAddress(addr), PageCount(size));
      if Rounds(size) {
        UnmapRangeBytes(old(Flat()), addr, size);
      }
    }

    /** The loop of `mem_unmap`. */
    method UnmapPages(start: nat, n: nat)
      requires Ok() && start < U32_LIMIT && start % PAGE_SIZE == 0 && n < PAGES
      modifies this`words
      ensures Ok() && Flat() == UnmapRange(old(Flat()), PageOf(start), n)
    {
      ghost var p0 := PageOf(start);
      ghost var before := words;
      var k := 0;
      while k < n
        invariant 0 <= k <= n && Ok()
        invariant forall q :: 0 <= q < PAGES ==>
                    Walk(dir[..], words, q) == if Offset(p0, q) < k then None else Walk(dir[..], before, q)
      {
        PageStep(start, k);
        var p := PageOf(U32(start + k * PAGE_SIZE));
        OffsetStep(p0, k, p);
        assert SlotOk(dir[..], words, DirIndex(p));
        ghost var mid := words;
        if PageAddress(dir[DirIndex(p)]) != 0 {
          words := words[Slot(dir[DirIndex(p)], p) := 0];
          ValidStore(dir[..], mid, Slot(dir[DirIndex(p)], p), 0);
        }
        forall q | 0 <= q < PAGES
          ensures Walk(dir[..], words, q) == if Offset(p0, q) < k + 1 then None else Walk(dir[..], before, q)
        {
          OffsetStep(p0, k, q);
          if PageAddress(dir[DirIndex(p)]) != 0 {
            WalkStore(dir[..], mid, p, 0, q);
          }
        }
        k := k + 1;
      }
    }

    /** Any sequence of calls over ranges with tables: the flat map follows call by call. */
    method Run(calls: seq<Call>)
      requires Ok() && forall c <- calls :: CallOk(dir[..], c)
      modifies this`words
      ensures Ok() && Flat() == FlatRun(old(Flat()), calls)
    {
      var i := 0;
      while i < |calls|
        invariant 0 <= i <= |calls| && Ok() && Flat() == FlatRun(old(Flat()), calls[..i])
      {
        var c := calls[i];
        assert c in calls && CallOk(dir[..], c);
        assert calls[..i + 1][..i] == calls[..i];
        match c {
          case Map(phys, addr, size, writable, cacheable) =>
            AllPresentNotRefused(dir[..], words, PageOf(addr), PageCount(size));
            var r, mapped := MemMap(phys, addr, size, writable, cacheable);
          case Unmap(addr, size) =>
            MemUnmap(addr, size);
        }
        i := i + 1;
      }
      assert calls[..i] == calls;
    }

    // ----- InitPaging -----

    /**
     `page_mapping` on entries `s` and up of the kernel page tables: identity-style
     entries for `areaSize` bytes, which must be whole pages for the loop to stop.
     */
    method PageMapping(base: nat, s: nat, phys: nat, areaSize: nat, flags: nat)
      requires areaSize % PAGE_SIZE == 0 && s + areaSize / PAGE_SIZE <= KER_PAGES
      requires phys + areaSize <= U32_LIMIT && phys % PAGE_SIZE == 0
      requires TableWords(words, base, KER_PAGES)
      modifies this`words
      ensures words.Keys == old(words).Keys
      ensures forall a <- words :: !(base + 4 * s <= a < base + 4 * (s + areaSize / PAGE_SIZE)) ==> words[a] == old(words)[a]
      ensures forall j :: 0 <= j < KER_PAGES ==>
                words[Cell(base, j)] == if s <= j < s + areaSize / PAGE_SIZE then phys + (j - s) * PAGE_SIZE + flags else old(words)[Cell(base, j)]
    {
      ghost var n := areaSize / PAGE_SIZE;
      var addr, left, ptr := PageAddress(phys), areaSize, s;
      while left > 0
        invariant s <= ptr <= s + n && left == (s + n - ptr) * PAGE_SIZE && addr == phys + (ptr - s) * PAGE_SIZE
        invariant words.Keys == old(words).Keys
        invariant forall a <- words :: !(base + 4 * s <= a < base + 4 * ptr) ==> words[a] == old(words)[a]
        invariant forall j :: 0 <= j < KER_PAGES ==>
                    words[Cell(base, j)] == if s <= j < ptr then phys + (j - s) * PAGE_SIZE + flags else old(words)[Cell(base, j)]
        decreases left
      {
        assert Cell(base, ptr) in words;
        words := words[Cell(base, ptr) := addr + flags];
        addr, left, ptr := addr + PAGE_SIZE, left - PAGE_SIZE, ptr + 1;
      }
    }

    /** The clearing loops, over storage that is zero at boot already. */
    method ZeroWords(base: nat, count: nat)
      requires forall j :: 0 <= j < count ==> Cell(base, j) in words && words[Cell(base, j)] == 0
      modifies this`words
      ensures words == old(words)
    {
      var i := 0;
      while i < count
        invariant 0 <= i <= count && words == old(words)
      {
        words := words[Cell(base, i) := 0];
        i := i + 1;
      }
    }

    /** Enter `count` consecutive tables into the directory, present and writable. */
    method FillDirectory(base: nat, first: nat, count: nat)
      requires dir.Length == PAGE_TAB_ENTRIES && first + count <= PAGE_TAB_ENTRIES
      modifies dir
      ensures forall i :: 0 <= i < PAGE_TAB_ENTRIES ==>
                dir[i] == if first <= i < first + count then base + (i - first) * PAGE_SIZE + IS_PRESENT + IS_RW else old(dir[i])
    {
      var i := 0;
      while i < count
        invariant 0 <= i <= count
        invariant forall k :: 0 <= k < PAGE_TAB_ENTRIES ==>
                    dir[k] == if first <= k < first + i then base + (k - first) * PAGE_SIZE + IS_PRESENT + IS_RW else old(dir[k])
      {
        dir[first + i] := base + 4 * (i * PAGE_TAB_ENTRIES) + IS_PRESENT + IS_RW;
        i := i + 1;
      }
    }

    /**
     `InitPaging`: `kpt` and `iopt` are where the kernel and I/O table areas lie, the other
     parameters are the linker's. The kernel is mapped page for page onto itself, read-only
     in its read-only area.
     */
    method InitPaging(kpt: nat, iopt: nat, roStart: nat, roSize: nat, roEnd: nat, dataSize: nat)
      requires dir.Length == PAGE_TAB_ENTRIES && dir[..] == seq(PAGE_TAB_ENTRIES, _ => 0)
      requires Areas(kpt, iopt) && Boot(words, kpt, iopt)
      requires roStart % PAGE_SIZE == 0 && roEnd % PAGE_SIZE == 0
      requires PageOf(roStart) + PageOf(roSize) <= KER_PAGES && PageOf(roEnd) + PageOf(dataSize) <= KER_PAGES
      modifies this`words, dir
      ensures Ok()
      ensures Flat() == KernelMap(PageOf(roStart), PageOf(roSize), PageOf(roEnd), PageOf(dataSize))
      ensures forall q :: 0 <= q < PAGES ==> (dir[DirIndex(q)] != 0 <==> q < KER_PAGES || IO_INDEX <= DirIndex(q) < IO_INDEX + IO_TABS)
    {
      var i := 0;
      while i < PAGE_TAB_ENTRIES / 4
        invariant 0 <= i <= PAGE_TAB_ENTRIES / 4 && dir[..] == seq(PAGE_TAB_ENTRIES, _ => 0) && words == old(words)
      {
        dir[i] := 0;
        i := i + 1;
      }
      InitTables(kpt, iopt, roStart, roSize, roEnd, dataSize);
      FillDirectory(kpt, 0, KER_TABS);
      FillDirectory(iopt, IO_INDEX, IO_TABS);
      assert InitDirectory(dir[..], kpt, iopt);
      InitValid(dir[..], words, kpt, iopt);
      forall q | 0 <= q < PAGES
        ensures Walk(dir[..], words, q) == if q < KER_PAGES then Decoded(words[Cell(kpt, q)]) else None
      {
        InitWalk(dir[..], words, kpt, iopt, q);
      }
      InitFlat(dir[..], words, kpt, PageOf(roStart), PageOf(roSize), PageOf(roEnd), PageOf(dataSize));
    }

    /** Clear the table areas and enter the three parts of the kernel. */
    method InitTables(kpt: nat, iopt: nat, roStart: nat, roSize: nat, roEnd: nat, dataSize: nat)
      requires Areas(kpt, iopt) && Boot(words, kpt, iopt)
      requires roStart % PAGE_SIZE == 0 && roEnd % PAGE_SIZE == 0
      requires PageOf(roStart) + PageOf(roSize) <= KER_PAGES && PageOf(roEnd) + PageOf(dataSize) <= KER_PAGES
      modifies this`words
      ensures TableWords(words, kpt, KER_PAGES) && TableWords(words, iopt, IO_WORDS)
      ensures forall j :: 0 <= j < IO_WORDS ==> words[Cell(iopt, j)] == 0
      ensures forall j :: 0 <= j < KER_PAGES ==>
                words[Cell(kpt, j)] == KernelWord(PageOf(roStart), PageOf(roSize), PageOf(roEnd), PageOf(dataSize), j)
    {
      ZeroWords(kpt, KER_PAGES / 4);
      ZeroWords(iopt, IO_WORDS / 4);
      PageMapping(kpt, 0, 0, roStart, IS_PRESENT + IS_RW);
      PageMapping(kpt, PageOf(roStart), roStart, PageAddress(roSize), IS_PRESENT);
      PageMapping(kpt, PageOf(roEnd), roEnd, PageAddress(dataSize), IS_PRESENT + IS_RW);
    }
  }

  /** The flat map at boot: the kernel on itself, its read-only area without the write flag. */
  ghost function KernelMap(ro: nat, roPages: nat, data: nat, dataPages: nat): map<nat, Entry> {
    MapRange(MapRange(MapRange(map[],
      0, ro, 0, IS_PRESENT + IS_RW),
      ro, roPages, ro, IS_PRESENT),
      data, dataPages, data, IS_PRESENT + IS_RW)
  }

  function KernelWord(ro: nat, roPages: nat, data: nat, dataPages: nat, j: nat): nat {
    if data <= j < data + dataPages then j * PAGE_SIZE + 3
    else if ro <= j < ro + roPages then j * PAGE_SIZE + 1
    else if j < ro then j * PAGE_SIZE + 3
    else 0
  }

  lemma OffsetFlat(p: nat, n: nat, q: nat)
    requires p + n <= KER_PAGES && q < PAGES
    ensures Offset(p, q) < n <==> p <= q < p + n
    ensures Offset(p, q) < n ==> (p + Offset(p, q)) % PAGES == q
  {}

  /** The kernel words decode to the boot map. */
  lemma KernelMapAt(ro: nat, roPages: nat, data: nat, dataPages: nat, q: nat)
    requires ro + roPages <= KER_PAGES && data + dataPages <= KER_PAGES && q < PAGES
    ensures var flat := KernelMap(ro, roPages, data, dataPages);
            (if q in flat then Some(flat[q]) else None)
            == if q < KER_PAGES then Decoded(KernelWord(ro, roPages, data, dataPages, q)) else None
  {
    OffsetFlat(0, ro, q);
    OffsetFlat(ro, roPages, q);
    OffsetFlat(data, dataPages, q);
    EntryWord(q, 1);
    EntryWord(q, 3);
  }

  /**
   The boot map in bytes: addresses below the read-only area, in its whole pages, and in
   the whole pages of the data area, each at itself, and writable unless read-only.
   */
  lemma KernelMapBytes(roStart: nat, roSize: nat, roEnd: nat, dataSize: nat, a: nat)
    requires roStart % PAGE_SIZE == 0 && roEnd % PAGE_SIZE == 0 && a < U32_LIMIT
    requires PageOf(roStart) + PageOf(roSize) <= KER_PAGES && PageOf(roEnd) + PageOf(dataSize) <= KER_PAGES
    ensures var v, q := KernelMap(PageOf(roStart), PageOf(roSize), PageOf(roEnd), PageOf(dataSize)), a / 0x1000;
            var inRo, inData := roStart <= a < roStart + PageAddress(roSize), roEnd <= a < roEnd + PageAddress(dataSize);
            && (q in v <==> a < roStart || inRo || inData)
            && (q in v ==> v[q].frame == q && FlagBits(v[q].flags, inData || !inRo, true))
  {
    var q := PageOf(a);
    OffsetFlat(0, PageOf(roStart), q);
    OffsetFlat(PageOf(roStart), PageOf(roSize), q);
    OffsetFlat(PageOf(roEnd), PageOf(dataSize), q);
    WholePages(roStart, roSize, a);
    WholePages(roEnd, dataSize, a);
    WholePages(0, roStart, a);
  }

  lemma WholePages(start: nat, size: nat, a: nat)
    requires start % PAGE_SIZE == 0
    ensures start <= a < start + PageAddress(size) <==> PageOf(start) <= PageOf(a) < PageOf(start) + PageOf(size)
  {}

  lemma InitFlat(dir: seq<nat>, words: map<nat, nat>, kpt: nat, ro: nat, roPages: nat, data: nat, dataPages: nat)
    requires Valid(dir, words) && ro + roPages <= KER_PAGES && data + dataPages <= KER_PAGES
    requires forall j :: 0 <= j < KER_PAGES ==> Cell(kpt, j) in words && words[Cell(kpt, j)] == KernelWord(ro, roPages, data, dataPages, j)
    requires forall q :: 0 <= q < PAGES ==> Walk(dir, words, q) == if q < KER_PAGES then Decoded(words[Cell(kpt, q)]) else None
    ensures View(dir, words) == KernelMap(ro, roPages, data, dataPages)
  {
    var flat := KernelMap(ro, roPages, data, dataPages);
    forall q | 0 <= q < PAGES ensures Walk(dir, words, q) == if q in flat then Some(flat[q]) else None {
      KernelMapAt(ro, roPages, data, dataPages, q);
    }
  }

  const KER_PAGES := 0x4_0000
  const KER_TABS := KER_PAGES / PAGE_TAB_ENTRIES
  const IO_INDEX := 1016
  const IO_TABS := 7
  const IO_WORDS := 8191

  /** Both table areas are page-aligned, away from address 0, and do not overlap. */
  predicate Areas(kpt: nat, iopt: nat) {
    && kpt % PAGE_SIZE == 0 && iopt % PAGE_SIZE == 0 && kpt > 0 && iopt > 0
    && (kpt + 4 * KER_PAGES <= iopt || iopt + 4 * IO_WORDS <= kpt)
  }

  /** Static storage at boot: all table words are zero. */
  ghost predicate Boot(words: map<nat, nat>, kpt: nat, iopt: nat) {
    && (forall j :: 0 <= j < KER_PAGES ==> Cell(kpt, j) in words && words[Cell(kpt, j)] == 0)
    && (forall j :: 0 <= j < IO_WORDS ==> Cell(iopt, j) in words && words[Cell(iopt, j)] == 0)
  }

  /** The directory that `InitPaging` leaves. */
  ghost predicate InitDirectory(dir: seq<nat>, kpt: nat, iopt: nat) {
    && |dir| == PAGE_TAB_ENTRIES
    && forall i :: 0 <= i < |dir| ==>
         dir[i] == if i < KER_TABS then kpt + i * PAGE_SIZE + 3
                   else if IO_INDEX <= i < IO_INDEX + IO_TABS then iopt + (i - IO_INDEX) * PAGE_SIZE + 3
                   else 0
  }

  lemma TableEntry(base: nat, i: nat)
    requires base % PAGE_SIZE == 0
    ensures PageAddress(base + i * PAGE_SIZE + 3) == base + i * PAGE_SIZE && Present(base + i * PAGE_SIZE + 3)
  {
    var x := base / PAGE_SIZE + i;
    var w := base + i * PAGE_SIZE + 3;
    assert w == x * PAGE_SIZE + 3;
    Arith.DivUnique(w, PAGE_SIZE, x, 3);
    Arith.DivUnique(w, 2, x * 0x800 + 1, 1);
  }

  lemma InitValid(dir: seq<nat>, words: map<nat, nat>, kpt: nat, iopt: nat)
    requires InitDirectory(dir, kpt, iopt) && Areas(kpt, iopt)
    requires TableWords(words, kpt, KER_PAGES) && TableWords(words, iopt, IO_WORDS)
    ensures Valid(dir, words)
  {
    forall i | 0 <= i < |dir| ensures SlotOk(dir, words, i) {
      if i < KER_TABS {
        TableEntry(kpt, i);
        AreaWords(words, kpt, KER_PAGES, i);
      } else if IO_INDEX <= i < IO_INDEX + IO_TABS {
        TableEntry(iopt, i - IO_INDEX);
        AreaWords(words, iopt, IO_WORDS, i - IO_INDEX);
      }
    }
    forall i, j | 0 <= i < |dir| && 0 <= j < |dir| ensures Apart(dir, i, j) {
      if dir[i] != 0 && dir[j] != 0 {
        if i < KER_TABS { TableEntry(kpt, i); } else { TableEntry(iopt, i - IO_INDEX); }
        if j < KER_TABS { TableEntry(kpt, j); } else { TableEntry(iopt, j - IO_INDEX); }
      }
    }
  }

  lemma AreaWords(words: map<nat, nat>, base: nat, n: nat, i: nat)
    requires TableWords(words, base, n) && (i + 1) * PAGE_TAB_ENTRIES <= n
    ensures forall j :: 0 <= j < PAGE_TAB_ENTRIES ==> base + i * PAGE_SIZE + 4 * j in words
  {
    forall j | 0 <= j < PAGE_TAB_ENTRIES ensures base + i * PAGE_SIZE + 4 * j in words {
      assert Cell(base, i * PAGE_TAB_ENTRIES + j) in words;
    }
  }

  /** After `InitPaging` the walk reads the kernel area by page number, and nothing elsewhere. */
  lemma InitWalk(dir: seq<nat>, words: map<nat, nat>, kpt: nat, iopt: nat, q: nat)
    requires InitDirectory(dir, kpt, iopt) && Areas(kpt, iopt) && Valid(dir, words) && q < PAGES
    requires TableWords(words, kpt, KER_PAGES) && TableWords(words, iopt, IO_WORDS)
    requires forall j :: 0 <= j < IO_WORDS ==> words[Cell(iopt, j)] == 0
    ensures Walk(dir, words, q) == if q < KER_PAGES then Decoded(words[Cell(kpt, q)]) else None
  {
    var i := DirIndex(q);
    assert q == i * PAGE_TAB_ENTRIES + q % PAGE_TAB_ENTRIES;
    if i < KER_TABS {
      TableEntry(kpt, i);
    } else if IO_INDEX <= i < IO_INDEX + IO_TABS {
      TableEntry(iopt, i - IO_INDEX);
      var j := (i - IO_INDEX) * PAGE_TAB_ENTRIES + q % PAGE_TAB_ENTRIES;
      assert words[Cell(iopt, j)] == 0;
    }
  }

  /** The address of entry `j` of a table area. */
  function Cell(base: nat, j: nat): nat { base + 4 * j }

  ghost predicate TableWords(words: map<nat, nat>, base: nat, n: nat) {
    forall j :: 0 <= j < n ==> Cell(base, j) in words
  }

  lemma StoredEntry(phys: nat, k: nat, flags: nat)
    requires phys < U32_LIMIT && phys % PAGE_SIZE == 0 && k < PAGES && flags < PAGE_SIZE && flags % 2 == 1
    ensures Decoded(U32(phys + k * PAGE_SIZE) + flags) == Some(Entry((PageOf(phys) + k) % PAGES, flags))
  {
    PageStep(phys, k);
    var a := U32(phys + k * PAGE_SIZE);
    AlignedSum(phys, k);
    assert a == PAGE_SIZE * PageOf(a);
    EntryWord(PageOf(a), flags);
  }

  lemma AlignedSum(a: nat, k: nat)
    requires a % PAGE_SIZE == 0
    ensures U32(a + k * PAGE_SIZE) % PAGE_SIZE == 0
  {
    var t := a / PAGE_SIZE + k;
    assert a + k * PAGE_SIZE == PAGE_SIZE * t;
    var q := PAGE_SIZE * t / U32_LIMIT;
    assert U32(PAGE_SIZE * t) == PAGE_SIZE * (t - PAGES * q);
  }
}
