/**
 The RAM file system as values: the node memory, the tree it has to represent, path
 resolution, and the state changes of creation and deletion.

 Memory is a map from addresses to nodes, the blocks that `kmalloc` has handed out and
 `kfree` has not taken back; address 0 is NULL. A `Shape` records the tree the pointers
 are meant to form; `Wf` says that they do form it.
 */
module FsModel {
  import opened Basics
  import opened Paths

  type Ptr = nat
  const NULL: Ptr := 0

  datatype FileType = NoType | Regular | Directory | Symlink

  datatype Node = Node(name: string, ino: nat, ftype: FileType, nodePtr: Ptr, next: Ptr, children: Ptr)

  type Memory = map<Ptr, Node>

  /** The children of every directory in order, the parent of every entry, and its depth. */
  datatype Shape = Shape(kids: map<Ptr, seq<Ptr>>, up: map<Ptr, Ptr>, depth: map<Ptr, nat>)

  datatype Fs = Fs(mem: Memory, root: Ptr, shape: Shape)

  // ----- Well-formedness -----

  /** The entry behind index `i`, NULL at the end. */
  function After(s: seq<Ptr>, i: nat): Ptr {
    if i + 1 < |s| then s[i + 1] else NULL
  }

  /** The `next` chain from `head` visits exactly `s` and then ends. */
  predicate Chain(mem: Memory, head: Ptr, s: seq<Ptr>) {
    && head == (if s == [] then NULL else s[0])
    && (forall i :: 0 <= i < |s| ==> s[i] in mem)
    && (forall i :: 0 <= i < |s| ==> mem[s[i]].next == After(s, i))
  }

  /** Entries 0 and 1 of directory `d` are `.` to itself and `..` to its parent `p`. */
  predicate Header(mem: Memory, s: seq<Ptr>, d: Ptr, p: Ptr) {
    && |s| >= 2 && s[0] in mem && s[1] in mem
    && mem[s[0]].name == "." && mem[s[0]].ftype == Symlink && mem[s[0]].nodePtr == d && mem[s[0]].children == NULL
    && mem[s[1]].name == ".." && mem[s[1]].ftype == Symlink && mem[s[1]].nodePtr == p && mem[s[1]].children == NULL
  }

  /** An entry below the header: a regular file without children, or a directory of the tree. */
  ghost predicate Ordinary(mem: Memory, sh: Shape, p: Ptr) {
    && p in mem && NameOk(mem[p].name)
    && (|| (mem[p].ftype == Regular && mem[p].children == NULL && p !in sh.kids)
        || (mem[p].ftype == Directory && p in sh.kids))
  }

  predicate UniqueNames(mem: Memory, s: seq<Ptr>) {
    && (forall i :: 0 <= i < |s| ==> s[i] in mem)
    && (forall i, j :: 0 <= i < j < |s| ==> mem[s[i]].name != mem[s[j]].name)
  }

  /** Names that a node's `name` buffer holds with its NUL. */
  predicate Fits(name: string) { CString(name) && |name| < MAX_FNAME }

  ghost function ParentOf(fs: Fs, d: Ptr): Ptr {
    if d == fs.root || d !in fs.shape.up then fs.root else fs.shape.up[d]
  }

  /** Directory `d` of the tree is laid out in memory as the shape says. */
  ghost predicate DirOk(fs: Fs, d: Ptr)
    requires d in fs.shape.kids
  {
    var s := fs.shape.kids[d];
    && d in fs.mem && fs.mem[d].ftype == Directory
    && Chain(fs.mem, fs.mem[d].children, s)
    && Distinct(s) && UniqueNames(fs.mem, s)
    && Header(fs.mem, s, d, ParentOf(fs, d))
    && (forall i {:trigger Ordinary(fs.mem, fs.shape, s[i])} :: 2 <= i < |s| ==> Ordinary(fs.mem, fs.shape, s[i]))
    && (forall i :: 0 <= i < |s| ==> s[i] in fs.shape.up && fs.shape.up[s[i]] == d)
    && (forall i :: 0 <= i < |s| ==> Fits(fs.mem[s[i]].name))
  }

  /** Entry `p` sits in its parent's list, one level below it. */
  ghost predicate UpOk(sh: Shape, p: Ptr)
    requires p in sh.up
  {
    && sh.up[p] in sh.kids && p in sh.kids[sh.up[p]]
    && p in sh.depth && sh.up[p] in sh.depth && sh.depth[p] == sh.depth[sh.up[p]] + 1
  }

  /** The pointers in memory form the tree of the shape, rooted at `fs.root`. */
  ghost predicate Wf(fs: Fs) {
    && NULL !in fs.mem
    && fs.root in fs.shape.kids && fs.root !in fs.shape.up && fs.root in fs.shape.depth
    && (forall d {:trigger DirOk(fs, d)} :: d in fs.shape.kids ==> DirOk(fs, d))
    && (forall d <- fs.shape.kids :: d == fs.root || d in fs.shape.up)
    && (forall p {:trigger UpOk(fs.shape, p)} :: p in fs.shape.up ==> UpOk(fs.shape, p))
  }

  /** The nodes of the tree. */
  ghost function TreeNodes(fs: Fs): set<Ptr> {
    fs.shape.up.Keys + {fs.root}
  }

  lemma TreeNodesAllocated(fs: Fs)
    requires Wf(fs)
    ensures TreeNodes(fs) <= fs.mem.Keys
  {
    forall p | p in TreeNodes(fs) ensures p in fs.mem {
      if p == fs.root {
        assert DirOk(fs, p);
      } else {
        assert UpOk(fs.shape, p) && DirOk(fs, fs.shape.up[p]);
      }
    }
  }

  // ----- Path resolution -----

  /** One step along a symbolic link; `SymlinkTarget` shows that one step is all there is. */
  function Deref(mem: Memory, p: Ptr): Ptr {
    if p in mem && mem[p].ftype == Symlink then mem[p].nodePtr else p
  }

  /** The first entry of `s` called `name`, or NULL. */
  function Find(mem: Memory, s: seq<Ptr>, name: string): Ptr
    requires forall i :: 0 <= i < |s| ==> s[i] in mem
  {
    if s == [] then NULL
    else if mem[s[0]].name == name then s[0]
    else Find(mem, s[1..], name)
  }

  ghost function Lookup(fs: Fs, p: Ptr, name: string): Ptr
    requires Wf(fs)
  {
    var d := Deref(fs.mem, p);
    if d in fs.shape.kids then assert DirOk(fs, d); Find(fs.mem, fs.shape.kids[d], name) else NULL
  }

  /** Repeated lookup, the meaning of a path from `p`; NULL when a component is missing. */
  ghost function Walk(fs: Fs, p: Ptr, toks: seq<string>): Ptr
    requires Wf(fs)
    decreases |toks|
  {
    if p == NULL || toks == [] then p else Walk(fs, Lookup(fs, p, toks[0]), toks[1..])
  }

  /** Absolute paths start at the root; a relative path without a current node has no meaning. */
  ghost function Resolve(fs: Fs, path: string): Ptr
    requires Wf(fs)
  {
    if path != "" && path[0] == '/' then Walk(fs, fs.root, Tokens(path)) else NULL
  }

  /** `Find` returns the entry of that name, if there is one, and a member of the list. */
  lemma {:induction false} FindSpec(mem: Memory, s: seq<Ptr>, name: string)
    requires forall i :: 0 <= i < |s| ==> s[i] in mem
    requires NULL !in mem
    ensures var r := Find(mem, s, name);
            && (r == NULL <==> forall i :: 0 <= i < |s| ==> mem[s[i]].name != name)
            && (r != NULL ==> r in s && mem[r].name == name)
  {
    if s != [] && mem[s[0]].name != name {
      FindSpec(mem, s[1..], name);
      assert forall i :: 1 <= i < |s| ==> s[i] == s[1..][i - 1];
    }
  }

  lemma FindAt(mem: Memory, s: seq<Ptr>, i: nat)
    requires NULL !in mem && UniqueNames(mem, s) && i < |s|
    ensures Find(mem, s, mem[s[i]].name) == s[i]
  {
    FindSpec(mem, s, mem[s[i]].name);
    var r := Find(mem, s, mem[s[i]].name);
    var j :| 0 <= j < |s| && s[j] == r;
    assert i == j;
  }

  lemma {:induction false} FindAppend(mem: Memory, s: seq<Ptr>, t: seq<Ptr>, name: string)
    requires forall i :: 0 <= i < |s + t| ==> (s + t)[i] in mem
    requires forall i :: 0 <= i < |s| ==> s[i] in mem
    requires forall i :: 0 <= i < |t| ==> t[i] in mem
    requires NULL !in mem
    ensures Find(mem, s + t, name) == if Find(mem, s, name) != NULL then Find(mem, s, name) else Find(mem, t, name)
  {
    if s == [] {
      assert s + t == t;
    } else {
      assert (s + t)[1..] == s[1..] + t;
      if mem[s[0]].name != name {
        FindAppend(mem, s[1..], t, name);
      }
    }
  }

  lemma {:induction false} FindFrame(mem: Memory, mem': Memory, s: seq<Ptr>, name: string)
    requires forall i :: 0 <= i < |s| ==> s[i] in mem && s[i] in mem' && mem[s[i]].name == mem'[s[i]].name
    ensures Find(mem, s, name) == Find(mem', s, name)
  {
    if s != [] {
      FindFrame(mem, mem', s[1..], name);
    }
  }

  /** A lookup stays in the tree. */
  lemma LookupInTree(fs: Fs, p: Ptr, name: string)
    requires Wf(fs)
    ensures var r := Lookup(fs, p, name);
            r != NULL ==> Deref(fs.mem, p) in fs.shape.kids && r in fs.shape.kids[Deref(fs.mem, p)] && r in fs.shape.up
  {
    var d := Deref(fs.mem, p);
    if d in fs.shape.kids {
      assert DirOk(fs, d);
      FindSpec(fs.mem, fs.shape.kids[d], name);
    }
  }

  lemma {:induction false} WalkInTree(fs: Fs, p: Ptr, toks: seq<string>)
    requires Wf(fs) && (p == NULL || p in TreeNodes(fs))
    ensures Walk(fs, p, toks) == NULL || Walk(fs, p, toks) in TreeNodes(fs)
    decreases |toks|
  {
    if p != NULL && toks != [] {
      LookupInTree(fs, p, toks[0]);
      WalkInTree(fs, Lookup(fs, p, toks[0]), toks[1..]);
    }
  }

  lemma {:induction false} WalkConcat(fs: Fs, p: Ptr, a: seq<string>, b: seq<string>)
    requires Wf(fs)
    ensures Walk(fs, p, a + b) == Walk(fs, Walk(fs, p, a), b)
    decreases |a|
  {
    if a == [] {
      assert a + b == b;
    } else if p != NULL {
      assert (a + b)[1..] == a[1..] + b;
      WalkConcat(fs, Lookup(fs, p, a[0]), a[1..], b);
    }
  }

  /** Where the entry `p` sits in its directory. */
  lemma EntryIndex(fs: Fs, p: Ptr) returns (i: nat)
    requires Wf(fs) && p in fs.shape.up
    ensures fs.shape.up[p] in fs.shape.kids && i < |fs.shape.kids[fs.shape.up[p]]|
    ensures fs.shape.kids[fs.shape.up[p]][i] == p
  {
    assert UpOk(fs.shape, p);
    i :| 0 <= i < |fs.shape.kids[fs.shape.up[p]]| && fs.shape.kids[fs.shape.up[p]][i] == p;
  }

  /** A symbolic link of the tree leads to a directory in one step, so following links ends. */
  lemma SymlinkTarget(fs: Fs, p: Ptr)
    requires Wf(fs) && p in TreeNodes(fs)
    ensures p in fs.mem
    ensures fs.mem[p].ftype == Symlink ==>
              fs.mem[p].nodePtr in fs.shape.kids && fs.mem[p].nodePtr in fs.mem && fs.mem[fs.mem[p].nodePtr].ftype == Directory
    ensures fs.mem[p].ftype == Directory <==> p in fs.shape.kids
    ensures Deref(fs.mem, p) in TreeNodes(fs)
  {
    if p == fs.root {
      assert DirOk(fs, p);
    } else {
      var i := EntryIndex(fs, p);
      var d := fs.shape.up[p];
      assert DirOk(fs, d);
      if i >= 2 {
        assert Ordinary(fs.mem, fs.shape, p);
        assert p in fs.shape.kids ==> DirOk(fs, p);
      } else {
        assert Header(fs.mem, fs.shape.kids[d], d, ParentOf(fs, d));
        var t := fs.mem[p].nodePtr;
        assert t in fs.shape.kids by {
          if d != fs.root {
            assert UpOk(fs.shape, d);
          }
        }
        assert DirOk(fs, t);
        assert p in fs.shape.kids ==> DirOk(fs, p);
      }
    }
  }

  // ----- Path equivalences -----

  /** `.` names the directory itself. */
  lemma LookupDot(fs: Fs, d: Ptr)
    requires Wf(fs) && d in fs.shape.kids
    ensures Lookup(fs, d, ".") != NULL && Deref(fs.mem, Lookup(fs, d, ".")) == d
  {
    assert DirOk(fs, d);
    FindAt(fs.mem, fs.shape.kids[d], 0);
  }

  lemma LookupDotDot(fs: Fs, d: Ptr)
    requires Wf(fs) && d in fs.shape.kids
    ensures Lookup(fs, d, "..") != NULL && Deref(fs.mem, Lookup(fs, d, "..")) == ParentOf(fs, d)
  {
    assert DirOk(fs, d);
    FindAt(fs.mem, fs.shape.kids[d], 1);
  }

  /** Only what a pointer leads to matters for the rest of a path. */
  lemma WalkDeref(fs: Fs, p: Ptr, q: Ptr, toks: seq<string>)
    requires Wf(fs) && p in TreeNodes(fs) && q in TreeNodes(fs)
    requires Deref(fs.mem, p) == Deref(fs.mem, q)
    ensures Deref(fs.mem, Walk(fs, p, toks)) == Deref(fs.mem, Walk(fs, q, toks))
  {
    TreeNodesAllocated(fs);
  }

  lemma NullWalk(fs: Fs, toks: seq<string>)
    requires Wf(fs)
    ensures Walk(fs, NULL, toks) == NULL
  {}

  lemma WalkOne(fs: Fs, p: Ptr, name: string)
    requires Wf(fs) && p != NULL
    ensures Walk(fs, p, [name]) == Lookup(fs, p, name)
  {}

  lemma DerefIdempotent(fs: Fs, p: Ptr)
    requires Wf(fs) && p in TreeNodes(fs)
    ensures Deref(fs.mem, Deref(fs.mem, p)) == Deref(fs.mem, p)
    ensures forall name :: Lookup(fs, Deref(fs.mem, p), name) == Lookup(fs, p, name)
  {
    SymlinkTarget(fs, p);
  }

  lemma WalkNonNull(fs: Fs, p: Ptr, q: Ptr, toks: seq<string>)
    requires Wf(fs) && p in TreeNodes(fs) && q in TreeNodes(fs)
    requires Deref(fs.mem, p) == Deref(fs.mem, q) && Walk(fs, q, toks) != NULL
    ensures Walk(fs, p, toks) != NULL
  {
    TreeNodesAllocated(fs);
  }

  lemma ChildDotDot(fs: Fs, p: Ptr, x: string)
    requires Wf(fs) && p in TreeNodes(fs) && x != "." && x != ".."
    requires Lookup(fs, p, x) != NULL && Lookup(fs, Lookup(fs, p, x), "..") != NULL
    ensures var q := Lookup(fs, Lookup(fs, p, x), "..");
            q in TreeNodes(fs) && Deref(fs.mem, q) == Deref(fs.mem, p)
  {
    var d := Deref(fs.mem, p);
    var n := Lookup(fs, p, x);
    LookupInTree(fs, p, x);
    assert DirOk(fs, d);
    FindSpec(fs.mem, fs.shape.kids[d], x);
    var i :| 0 <= i < |fs.shape.kids[d]| && fs.shape.kids[d][i] == n;
    assert i >= 2;
    assert Ordinary(fs.mem, fs.shape, n);
    LookupInTree(fs, n, "..");
    LookupDotDot(fs, n);
  }

  /** Components `mid` that lead back to where they started can be dropped from a path. */
  lemma Splice(fs: Fs, a: seq<string>, mid: seq<string>, b: seq<string>)
    requires Wf(fs) && Walk(fs, fs.root, a + mid + b) != NULL
    requires Walk(fs, fs.root, a) != NULL && Walk(fs, fs.root, a + mid) != NULL
    requires Deref(fs.mem, Walk(fs, fs.root, a + mid)) == Deref(fs.mem, Walk(fs, fs.root, a))
    ensures Walk(fs, fs.root, a + b) != NULL
    ensures Deref(fs.mem, Walk(fs, fs.root, a + b)) == Deref(fs.mem, Walk(fs, fs.root, a + mid + b))
  {
    WalkConcat(fs, fs.root, a, b);
    WalkConcat(fs, fs.root, a + mid, b);
    WalkInTree(fs, fs.root, a);
    WalkInTree(fs, fs.root, a + mid);
    WalkDeref(fs, Walk(fs, fs.root, a), Walk(fs, fs.root, a + mid), b);
    WalkNonNull(fs, Walk(fs, fs.root, a), Walk(fs, fs.root, a + mid), b);
  }

  /** Every prefix of a path that resolves resolves. */
  lemma PrefixResolves(fs: Fs, a: seq<string>, b: seq<string>)
    requires Wf(fs) && Walk(fs, fs.root, a + b) != NULL
    ensures Walk(fs, fs.root, a) != NULL && Walk(fs, fs.root, a) in TreeNodes(fs)
  {
    WalkConcat(fs, fs.root, a, b);
    NullWalk(fs, b);
    WalkInTree(fs, fs.root, a);
  }

  /**
   Dropping a `.` component from a path that resolves: the shorter path resolves too, and
   to the same node once symbolic links are followed.
   */
  lemma DropDot(fs: Fs, a: seq<string>, b: seq<string>)
    requires Wf(fs) && Walk(fs, fs.root, a + ["."] + b) != NULL
    ensures Walk(fs, fs.root, a + b) != NULL
    ensures Deref(fs.mem, Walk(fs, fs.root, a + b)) == Deref(fs.mem, Walk(fs, fs.root, a + ["."] + b))
  {
    PrefixResolves(fs, a + ["."], b);
    PrefixResolves(fs, a, ["."]);
    var p := Walk(fs, fs.root, a);
    WalkConcat(fs, fs.root, a, ["."]);
    WalkOne(fs, p, ".");
    LookupInTree(fs, p, ".");
    LookupDot(fs, Deref(fs.mem, p));
    DerefIdempotent(fs, p);
    Splice(fs, a, ["."], b);
  }

  /**
   Dropping an adjacent pair `x/..` with `x` an ordinary name from a path that resolves:
   the shorter path resolves to the same node once symbolic links are followed.
   */
  lemma DropDotDot(fs: Fs, a: seq<string>, x: string, b: seq<string>)
    requires Wf(fs) && x != "." && x != ".."
    requires Walk(fs, fs.root, a + [x] + [".."] + b) != NULL
    ensures Walk(fs, fs.root, a + b) != NULL
    ensures Deref(fs.mem, Walk(fs, fs.root, a + b)) == Deref(fs.mem, Walk(fs, fs.root, a + [x] + [".."] + b))
  {
    PrefixResolves(fs, a + [x] + [".."], b);
    PrefixResolves(fs, a + [x], [".."]);
    PrefixResolves(fs, a, [x]);
    var p := Walk(fs, fs.root, a);
    WalkConcat(fs, fs.root, a, [x]);
    WalkConcat(fs, fs.root, a + [x], [".."]);
    WalkOne(fs, p, x);
    WalkOne(fs, Lookup(fs, p, x), "..");
    ChildDotDot(fs, p, x);
    assert a + ([x] + [".."]) == a + [x] + [".."];
    Splice(fs, a, [x] + [".."], b);
  }

  /** `DropDot` for path strings: "p/./q" and "p/q". */
  lemma DropDotInPath(fs: Fs, p: string, q: string)
    requires Wf(fs) && (p == "" || p[0] == '/') && Resolve(fs, p + "/./" + q) != NULL
    ensures Resolve(fs, p + "/" + q) != NULL
    ensures Deref(fs.mem, Resolve(fs, p + "/" + q)) == Deref(fs.mem, Resolve(fs, p + "/./" + q))
  {
    TokensJoin(p, q);
    TokensOfDotPath(p, q);
    DropDot(fs, Tokens(p), Tokens(q));
  }

  lemma TokensOfDotPath(p: string, q: string)
    ensures Tokens(p + "/./" + q) == Tokens(p) + ["."] + Tokens(q)
  {
    TokensJoin(p + "/" + ".", q);
    TokensJoin(p, ".");
    TokensOfName(".");
    assert p + "/" + "." + "/" + q == p + "/./" + q;
  }

  lemma TokensOfDotDotPath(p: string, x: string, q: string)
    requires SlashFree(x) && x != ""
    ensures Tokens(p + "/" + x + "/../" + q) == Tokens(p) + [x] + [".."] + Tokens(q)
  {
    var px := p + "/" + x;
    TokensJoin(px + "/" + "..", q);
    TokensJoin(px, "..");
    TokensJoin(p, x);
    TokensOfName(x);
    TokensOfName("..");
    assert px + "/" + ".." + "/" + q == px + "/../" + q;
  }

  /** `DropDotDot` for path strings: "p/x/../q" and "p/q". */
  lemma DropDotDotInPath(fs: Fs, p: string, x: string, q: string)
    requires Wf(fs) && (p == "" || p[0] == '/') && NameOk(x) && x != ""
    requires Resolve(fs, p + "/" + x + "/../" + q) != NULL
    ensures Resolve(fs, p + "/" + q) != NULL
    ensures Deref(fs.mem, Resolve(fs, p + "/" + q)) == Deref(fs.mem, Resolve(fs, p + "/" + x + "/../" + q))
  {
    TokensJoin(p, q);
    TokensOfDotDotPath(p, x, q);
    DropDotDot(fs, Tokens(p), x, Tokens(q));
  }

  /**
   Resolving what `fs_getParentPath` returns and then looking up what `fs_getFileName`
   returns is resolving the path, for every path that does not end in a doubled slash.
   */
  lemma ParentThenName(fs: Fs, path: string)
    requires Wf(fs) && path != "" && path[0] == '/' && Tokens(path) != [] && !EndsInDoubleSlash(path)
    ensures |LastName(path)| < |RemoveLastSlash(path)|
    ensures var d := Resolve(fs, ParentPath(path, |LastName(path)|));
            Resolve(fs, path) == if d == NULL then NULL else Lookup(fs, d, LastName(path))
  {
    AbsoluteHasParent(path);
    ParentPathTokens(path);
    WalkLast(fs, Tokens(path));
  }

  lemma WalkLast(fs: Fs, ts: seq<string>)
    requires Wf(fs) && ts != []
    ensures var d := Walk(fs, fs.root, ts[..|ts| - 1]);
            Walk(fs, fs.root, ts) == if d == NULL then NULL else Lookup(fs, d, ts[|ts| - 1])
  {
    var init, name := ts[..|ts| - 1], ts[|ts| - 1];
    assert ts == init + [name];
    WalkConcat(fs, fs.root, init, [name]);
    var d := Walk(fs, fs.root, init);
    if d == NULL {
      NullWalk(fs, [name]);
    } else {
      WalkOne(fs, d, name);
    }
  }
}
