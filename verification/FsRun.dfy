/**
 The file-system calls as steps of a state machine, the invariant over every run, and
 what each call does to the meaning of paths.
 */
module FsRun {
  import opened Basics
  import opened Paths
  import opened FsModel
  import opened FsOps
  import opened FsDelete

  const INO_LIMIT := 0x1_0000_0000

  /** The address of the static root node, which is allocated from the first `ramfs_init` on. */
  const ROOT: Ptr := 1

  /** A node as `ramfs_allocNode` zeroes it. */
  const ZEROED: Node := Node("", 0, NoType, NULL, NULL, NULL)

  /** `root` is NULL until `ramfs_init` has succeeded; `created` counts the inode numbers given out. */
  datatype State = State(fs: Fs, lastIno: nat, created: nat)

  datatype Outcome =
    | Done(node: Ptr)   // the new node, or the deleted one
    | Refused           // VFS_T_NOK
    | Exists            // RFS_FILE_ALREADY_EXISTS
    | Fault             // a NULL pointer is dereferenced

  /** Inode numbers come from a 32-bit counter and are distinct until it wraps. */
  ghost predicate InoOk(s: State) {
    && s.lastIno == s.created % 0x1_0000_0000
    && (s.created <= INO_LIMIT ==>
          && (forall p <- s.fs.mem :: s.fs.mem[p].ino < s.created)
          && (forall p, q :: p in s.fs.mem && q in s.fs.mem && p != q ==> s.fs.mem[p].ino != s.fs.mem[q].ino))
  }

  /** Nothing but the root node, without children, until a call of `ramfs_init` succeeds; then a tree. */
  ghost predicate Inv(s: State) {
    && NULL !in s.fs.mem
    && (s.fs.root == NULL ==> s.fs.mem.Keys <= {ROOT} && (ROOT in s.fs.mem ==> s.fs.mem[ROOT].children == s.fs.mem[ROOT].next == NULL))
    && (s.fs.root != NULL ==> s.fs.root == ROOT && Wf(s.fs))
    && InoOk(s)
  }

  /** Boot: nothing is allocated and nothing is mounted. */
  ghost function BootState(): State {
    State(Fs(map[], NULL, Shape(map[], map[], map[])), 0, 0)
  }

  /** What `fs_get_node(current, path)` returns: relative paths start at the current node. */
  ghost function ResolveFrom(fs: Fs, current: Ptr, path: string): Ptr
    requires fs.root != NULL ==> Wf(fs)
  {
    if fs.root == NULL then NULL
    else if path != "" && path[0] == '/' then Resolve(fs, path)
    else Walk(fs, current, Tokens(path))
  }

  /** What `fs_get_node(NULL, path)` returns. */
  ghost function ResolveAt(fs: Fs, path: string): Ptr
    requires fs.root != NULL ==> Wf(fs)
  {
    if fs.root == NULL then NULL else Resolve(fs, path)
  }

  /** `fs_new_ino_id` counts up and wraps at 32 bits. */
  function NextIno(n: nat): nat { (n + 1) % 0x1_0000_0000 }

  /** The `k`-th inode number to be given out next. */
  ghost function Ino(s: State, k: nat): nat {
    if k == 0 then s.lastIno else NextIno(Ino(s, k - 1))
  }

  /** `k` inode numbers taken. */
  ghost function Bump(s: State, k: nat): State {
    s.(lastIno := Ino(s, k), created := s.created + k)
  }

  ghost predicate Fresh3(mem: Memory, p: Ptr, q: Ptr, t: Ptr) {
    {p, q, t} !! mem.Keys && NULL !in {p, q, t} && p != q && p != t && q != t
  }

  /** The root node as `ramfs_init` writes it: its list pointers are left alone. */
  ghost function RootNode(s: State): Node {
    (if ROOT in s.fs.mem then s.fs.mem[ROOT] else ZEROED).(name := "", ino := Ino(s, 0), ftype := Directory, nodePtr := NULL)
  }

  /** The tree that the first successful `ramfs_init` builds. */
  ghost function NewTree(ino: nat, q: Ptr, qIno: nat, t: Ptr, tIno: nat): Fs {
    Fs(map[ROOT := DirNode("", ino, q), q := LinkNode(".", qIno, ROOT, t), t := LinkNode("..", tIno, ROOT, NULL)],
       ROOT,
       Shape(map[ROOT := [q, t]], map[q := ROOT, t := ROOT], map[ROOT := 0, q := 1, t := 1]))
  }

  /**
   `ramfs_init`, when `kmalloc` grants `avail` blocks and hands out `q` and `t`. On a
   mounted system the root gets a new inode number, and the two new links are leaked,
   because the root has children already.
   */
  ghost predicate InitPost(s: State, avail: nat, s': State, r: Outcome, q: Ptr, t: Ptr) {
    var mem := s.fs.mem[ROOT := RootNode(s)];
    if avail <= 1 then r == Refused && s' == Bump(s, avail + 1).(fs := s.fs.(mem := mem))
    else
      && r == Done(ROOT) && {q, t} !! mem.Keys && NULL !in {q, t} && q != t
      && s' == Bump(s, 3).(fs :=
           if s.fs.root == NULL then NewTree(Ino(s, 0), q, Ino(s, 1), t, Ino(s, 2))
           else s.fs.(mem := mem[q := LinkNode(".", Ino(s, 1), ROOT, NULL)][t := LinkNode("..", Ino(s, 2), ROOT, NULL)]))
  }

  /**
   `ramfs_mkDir`, when `kmalloc` grants `avail` blocks during the call and hands out
   `p`, `q` and `t`. With exactly two blocks the new directory's own block is leaked.
   */
  ghost predicate MkDirPost(s: State, name: string, path: string, avail: nat, s': State, r: Outcome, p: Ptr, q: Ptr, t: Ptr)
    requires Inv(s)
  {
    var d := ResolveAt(s.fs, path);
    if !NameOk(name) || d == NULL then r == Refused && s' == s
    else if Lookup(s.fs, d, name) != NULL then r == Exists && s' == s
    else if avail == 0 then r == Refused && s' == s
    else if avail == 1 then r == Refused && s' == Bump(s, 1)
    else if avail == 2 then
      && r == Refused && p != NULL && p !in s.fs.mem
      && s' == Bump(s, 2).(fs := s.fs.(mem := s.fs.mem[p := DirNode(name, Ino(s, 0), NULL)]))
    else if d !in s.fs.shape.kids then r == Fault
    else
      && r == Done(p) && Fresh3(s.fs.mem, p, q, t) && d in s.fs.shape.depth
      && s' == Bump(s, 3).(fs := AddDir(s.fs, d, name, Ino(s, 0), p, q, Ino(s, 1), t, Ino(s, 2)))
  }

  /** `ramfs_newRegFile`, when `kmalloc` grants `avail` blocks and hands out `p`. */
  ghost predicate NewRegFilePost(s: State, name: string, path: string, avail: nat, s': State, r: Outcome, p: Ptr)
    requires Inv(s)
  {
    var d := ResolveAt(s.fs, path);
    if !NameOk(name) || d == NULL then r == Refused && s' == s
    else if Lookup(s.fs, d, name) != NULL then r == Exists && s' == s
    else if avail == 0 then r == Refused && s' == s
    else if d !in s.fs.shape.kids then r == Fault
    else
      && r == Done(p) && p != NULL && p !in s.fs.mem && d in s.fs.shape.depth
      && s' == Bump(s, 1).(fs := AddFile(s.fs, d, name, Ino(s, 0), p))
  }

  /** Entry `i` of `d` is an ordinary one without a later sibling. */
  ghost predicate LastOrdinary(fs: Fs, d: Ptr, i: nat) {
    d in fs.shape.kids && i >= 2 && i == |fs.shape.kids[d]| - 1
  }

  /**
   `ramfs_deleteNode`: `parent` is what `fs_getParentPath` made of the path, and the node
   was found as entry `i` of the parent.
   */
  ghost predicate DeletePost(s: State, path: string, parent: string, s': State, r: Outcome, i: nat)
    requires Inv(s)
  {
    var d := ResolveAt(s.fs, parent);
    var x := ResolveAt(s.fs, path);
    if Tokens(path) == [] || d == NULL || x == NULL then r == Refused && s' == s
    else if d !in s.fs.shape.kids then r == Fault
    else if x !in s.fs.shape.kids[d] then r == Refused && s' == s
    else
      && r == Done(x) && i < |s.fs.shape.kids[d]| && s.fs.shape.kids[d][i] == x
      && s'.fs.mem == Unlinked(s.fs, d, i) && s'.fs.root == s.fs.root
      && s'.lastIno == s.lastIno && s'.created == s.created
      && (LastOrdinary(s.fs, d, i) ==> s'.fs == Removed(s.fs, d))
  }

  // ----- Calls and runs -----

  datatype Call =
    | Init(avail: nat, q: Ptr, t: Ptr)
    | MkDir(name: string, path: string, avail: nat, p: Ptr, q: Ptr, t: Ptr)
    | NewRegFile(name: string, path: string, avail: nat, p: Ptr)
    | Delete(path: string, parent: string, i: nat)

  ghost predicate Step(s: State, c: Call, r: Outcome, s': State)
    requires Inv(s)
  {
    match c
    case Init(avail, q, t) => InitPost(s, avail, s', r, q, t)
    case MkDir(name, path, avail, p, q, t) => Fits(name) && MkDirPost(s, name, path, avail, s', r, p, q, t)
    case NewRegFile(name, path, avail, p) => Fits(name) && NewRegFilePost(s, name, path, avail, s', r, p)
    case Delete(path, parent, i) => DeletePost(s, path, parent, s', r, i)
  }

  /** The call does not dereference NULL, and a deletion takes an ordinary entry without a later sibling. */
  ghost predicate Disciplined(s: State, c: Call, r: Outcome)
    requires Inv(s)
  {
    r != Fault && (c.Delete? && r.Done? ==> LastOrdinary(s.fs, ResolveAt(s.fs, c.parent), c.i))
  }

  // ----- The invariant is kept -----

  /** A block that no tree node points to changes nothing. */
  lemma LeakWf(fs: Fs, p: Ptr, node: Node)
    requires Wf(fs) && p != NULL && p !in fs.mem
    ensures Wf(fs.(mem := fs.mem[p := node]))
  {
    var fs' := fs.(mem := fs.mem[p := node]);
    TreeNodesAllocated(fs);
    forall e | e in fs'.shape.kids ensures DirOk(fs', e) {
      assert DirOk(fs, e);
      DirOkFrame(fs, fs', e);
    }
    forall x | x in fs'.shape.up ensures UpOk(fs'.shape, x) {
      assert UpOk(fs.shape, x);
    }
  }

  /** Two memories that show the same names, types and link targets in one tree. */
  ghost predicate SameView(fs: Fs, fs': Fs) {
    && Wf(fs) && Wf(fs') && fs'.shape == fs.shape && fs'.root == fs.root
    && forall x {:trigger SameNode(fs, fs', x)} :: x in fs.shape.up ==> SameNode(fs, fs', x)
  }

  lemma {:induction false} ViewWalk(fs: Fs, fs': Fs, q: Ptr, toks: seq<string>)
    requires SameView(fs, fs') && (q in TreeNodes(fs) || q == NULL)
    ensures Walk(fs', q, toks) == Walk(fs, q, toks)
    decreases |toks|
  {
    if q != NULL && toks != [] {
      ViewLookup(fs, fs', q, toks[0]);
      LookupInTree(fs, q, toks[0]);
      ViewWalk(fs, fs', Lookup(fs, q, toks[0]), toks[1..]);
    }
  }

  lemma ViewLookup(fs: Fs, fs': Fs, q: Ptr, name: string)
    requires SameView(fs, fs') && q in TreeNodes(fs)
    ensures Lookup(fs', q, name) == Lookup(fs, q, name)
  {
    if q == fs.root {
      DerefDir(fs, q);
      DerefDir(fs', q);
    } else {
      assert SameNode(fs, fs', q);
    }
    var d := Deref(fs.mem, q);
    if d in fs.shape.kids {
      assert DirOk(fs, d) && DirOk(fs', d);
      var s := fs.shape.kids[d];
      forall i | 0 <= i < |s| ensures fs.mem[s[i]].name == fs'.mem[s[i]].name {
        assert SameNode(fs, fs', s[i]);
      }
      FindFrame(fs.mem, fs'.mem, s, name);
    }
  }

  lemma LeakView(fs: Fs, p: Ptr, node: Node)
    requires Wf(fs) && p != NULL && p !in fs.mem
    ensures SameView(fs, fs.(mem := fs.mem[p := node]))
  {
    LeakWf(fs, p, node);
    TreeNodesAllocated(fs);
    forall x | x in fs.shape.up ensures SameNode(fs, fs.(mem := fs.mem[p := node]), x) {}
  }

  lemma {:induction false} InoCounts(s: State, k: nat)
    requires InoOk(s)
    ensures Ino(s, k) == (s.created + k) % 0x1_0000_0000
  {
    if k > 0 {
      InoCounts(s, k - 1);
    }
  }

  lemma FreshIno(s: State, k: nat, n: nat)
    requires InoOk(s) && s.created + n <= INO_LIMIT && k < n
    ensures Ino(s, k) == s.created + k
  {
    InoCounts(s, k);
  }

  lemma AddInos(s: State, s': State, k: nat, p: Ptr, q: Ptr, t: Ptr)
    requires InoOk(s) && k <= 3 && s'.lastIno == Bump(s, k).lastIno && s'.created == s.created + k
    requires forall x <- s'.fs.mem :: (x in s.fs.mem && s'.fs.mem[x].ino == s.fs.mem[x].ino) || x in {p, q, t}
    requires p in s'.fs.mem && p !in s.fs.mem ==> k >= 1 && s'.fs.mem[p].ino == Ino(s, 0)
    requires q in s'.fs.mem && q !in s.fs.mem ==> k >= 2 && q != p && s'.fs.mem[q].ino == Ino(s, 1)
    requires t in s'.fs.mem && t !in s.fs.mem ==> k >= 3 && t != p && t != q && s'.fs.mem[t].ino == Ino(s, 2)
    requires forall x <- {p, q, t} :: x in s'.fs.mem && x in s.fs.mem ==> s'.fs.mem[x].ino == s.fs.mem[x].ino
    ensures InoOk(s')
  {
    assert s'.lastIno == s'.created % 0x1_0000_0000 by { InoCounts(s, k); }
    if s'.created <= INO_LIMIT {
      if k >= 1 { FreshIno(s, 0, k); }
      if k >= 2 { FreshIno(s, 1, k); }
      if k >= 3 { FreshIno(s, 2, k); }
      NewInosDistinct(s.fs.mem, s'.fs.mem, s.created, k, p, q, t);
    }
  }

  /** Nodes numbered `c`, `c + 1`, `c + 2` are told apart from each other and from all numbered below `c`. */
  lemma NewInosDistinct(mem: Memory, mem': Memory, c: nat, k: nat, p: Ptr, q: Ptr, t: Ptr)
    requires forall x <- mem :: mem[x].ino < c
    requires forall x, y :: x in mem && y in mem && x != y ==> mem[x].ino != mem[y].ino
    requires forall x <- mem' :: (x in mem && mem'[x].ino == mem[x].ino) || (x !in mem && x in {p, q, t})
    requires p in mem' && p !in mem ==> k >= 1 && mem'[p].ino == c
    requires q in mem' && q !in mem ==> k >= 2 && mem'[q].ino == c + 1
    requires t in mem' && t !in mem ==> k >= 3 && mem'[t].ino == c + 2
    ensures forall x <- mem' :: mem'[x].ino < c + k
    ensures forall x, y :: x in mem' && y in mem' && x != y ==> mem'[x].ino != mem'[y].ino
  {}

  // ----- ramfs_init -----

  lemma NewTreeWf(ino: nat, q: Ptr, qIno: nat, t: Ptr, tIno: nat)
    requires q != NULL && t != NULL && q != ROOT && t != ROOT && q != t
    ensures Wf(NewTree(ino, q, qIno, t, tIno))
    ensures TreeNodes(NewTree(ino, q, qIno, t, tIno)) == {ROOT, q, t}
  {
    var fs := NewTree(ino, q, qIno, t, tIno);
    assert [q, t][0] == q && [q, t][1] == t;
    assert UpOk(fs.shape, q) && UpOk(fs.shape, t);
    assert UniqueNames(fs.mem, [q, t]) by { assert |"."| != |".."|; }
    assert Chain(fs.mem, q, [q, t]);
    assert DirOk(fs, ROOT);
  }

  /** What the root node is called and numbered does not matter to the tree. */
  lemma RootRewritten(fs: Fs, node: Node)
    requires Wf(fs) && fs.root in fs.mem && node.ftype == Directory && node.children == fs.mem[fs.root].children
    ensures SameView(fs, fs.(mem := fs.mem[fs.root := node]))
  {
    RootRewrittenWf(fs, fs.(mem := fs.mem[fs.root := node]), node);
    forall x | x in fs.shape.up ensures SameNode(fs, fs.(mem := fs.mem[fs.root := node]), x) {
      RootRewrittenNode(fs, node, x);
    }
  }

  lemma RootRewrittenNode(fs: Fs, node: Node, x: Ptr)
    requires Wf(fs) && x in fs.shape.up
    ensures SameNode(fs, fs.(mem := fs.mem[fs.root := node]), x)
  {
    TreeNodesAllocated(fs);
  }

  lemma RootRewrittenWf(fs: Fs, fs': Fs, node: Node)
    requires Wf(fs) && fs.root in fs.mem && node.ftype == Directory && node.children == fs.mem[fs.root].children
    requires fs' == fs.(mem := fs.mem[fs.root := node])
    ensures Wf(fs')
  {
    forall e | e in fs'.shape.kids ensures DirOk(fs', e) {
      RootRewrittenDir(fs, node, e);
    }
    forall x | x in fs'.shape.up ensures UpOk(fs'.shape, x) {
      assert UpOk(fs.shape, x);
    }
  }

  lemma RootRewrittenDir(fs: Fs, node: Node, e: Ptr)
    requires Wf(fs) && fs.root in fs.mem && node.ftype == Directory && node.children == fs.mem[fs.root].children
    requires e in fs.shape.kids
    ensures DirOk(fs.(mem := fs.mem[fs.root := node]), e)
  {
    assert DirOk(fs, e);
    assert e == fs.root ==> fs.mem[e].ftype == Directory;
    assert forall x <- fs.shape.kids[e] :: x in fs.shape.up;
    DirOkFrame(fs, fs.(mem := fs.mem[fs.root := node]), e);
  }

  /** The inode numbers after `ramfs_init`: the root takes the first one, whether or not it had one before. */
  lemma InitInos(s: State, s': State, k: nat, q: Ptr, t: Ptr)
    requires InoOk(s) && 1 <= k <= 3 && s'.lastIno == Bump(s, k).lastIno && s'.created == s.created + k
    requires forall x <- s'.fs.mem :: (x in s.fs.mem && s'.fs.mem[x].ino == s.fs.mem[x].ino) || x in {ROOT, q, t}
    requires ROOT in s'.fs.mem && s'.fs.mem[ROOT].ino == Ino(s, 0)
    requires q in s'.fs.mem ==> k == 3 && q != ROOT && q !in s.fs.mem && s'.fs.mem[q].ino == Ino(s, 1)
    requires t in s'.fs.mem ==> k == 3 && t != ROOT && t != q && t !in s.fs.mem && s'.fs.mem[t].ino == Ino(s, 2)
    ensures InoOk(s')
  {
    var s0 := s.(fs := s.fs.(mem := s.fs.mem - {ROOT}));
    forall i: nat ensures Ino(s0, i) == Ino(s, i) {
      InoCounts(s, i);
      InoCounts(s0, i);
    }
    AddInos(s0, s', k, ROOT, q, t);
  }

  lemma InitInv(s: State, avail: nat, s': State, r: Outcome, q: Ptr, t: Ptr)
    requires Inv(s) && InitPost(s, avail, s', r, q, t)
    ensures Inv(s')
  {
    InitInoOk(s, avail, s', r, q, t);
    if s.fs.root != NULL {
      InitView(s, avail, s', r, q, t);
    } else if avail >= 2 {
      NewTreeWf(Ino(s, 0), q, Ino(s, 1), t, Ino(s, 2));
    }
  }

  lemma InitInoOk(s: State, avail: nat, s': State, r: Outcome, q: Ptr, t: Ptr)
    requires Inv(s) && InitPost(s, avail, s', r, q, t)
    ensures InoOk(s')
  {
    if avail <= 1 {
      InitInos(s, s', avail + 1, NULL, NULL);
    } else {
      InitInos(s, s', 3, q, t);
    }
  }

  /** On a mounted system `ramfs_init` changes nothing that a path could show. */
  lemma InitView(s: State, avail: nat, s': State, r: Outcome, q: Ptr, t: Ptr)
    requires Inv(s) && s.fs.root != NULL && InitPost(s, avail, s', r, q, t)
    ensures SameView(s.fs, s'.fs)
  {
    assert DirOk(s.fs, ROOT);
    RootRewritten(s.fs, RootNode(s));
    if avail >= 2 {
      var fs1 := s.fs.(mem := s.fs.mem[ROOT := RootNode(s)]);
      LeakView(fs1, q, LinkNode(".", Ino(s, 1), ROOT, NULL));
      var fs2 := fs1.(mem := fs1.mem[q := LinkNode(".", Ino(s, 1), ROOT, NULL)]);
      LeakView(fs2, t, LinkNode("..", Ino(s, 2), ROOT, NULL));
      ViewTrans(s.fs, fs1, fs2, s'.fs);
    }
  }

  lemma ViewTrans(a: Fs, b: Fs, c: Fs, d: Fs)
    requires SameView(a, b) && SameView(b, c) && SameView(c, d)
    ensures SameView(a, d)
  {
    forall x | x in a.shape.up ensures SameNode(a, d, x) {
      assert SameNode(a, b, x) && SameNode(b, c, x) && SameNode(c, d, x);
    }
  }

  // ----- The other calls -----

  lemma MkDirInv(s: State, name: string, path: string, avail: nat, s': State, r: Outcome, p: Ptr, q: Ptr, t: Ptr)
    requires Inv(s) && Fits(name) && MkDirPost(s, name, path, avail, s', r, p, q, t) && r != Fault
    ensures Inv(s')
  {
    var d := ResolveAt(s.fs, path);
    if r.Done? {
      DerefDir(s.fs, d);
      AddDirWf(s.fs, d, name, Ino(s, 0), p, q, Ino(s, 1), t, Ino(s, 2));
      assert DirOk(s.fs, d);
      AddInos(s, s', 3, p, q, t);
    } else if s' == Bump(s, 1) {
      AddInos(s, s', 1, NULL, NULL, NULL);
    } else if s' != s {
      LeakWf(s.fs, p, DirNode(name, Ino(s, 0), NULL));
      AddInos(s, s', 2, p, NULL, NULL);
    }
  }

  lemma DerefDir(fs: Fs, d: Ptr)
    requires Wf(fs) && d in fs.shape.kids
    ensures d in fs.mem && Deref(fs.mem, d) == d
  {
    assert DirOk(fs, d);
  }

  lemma NewRegFileInv(s: State, name: string, path: string, avail: nat, s': State, r: Outcome, p: Ptr)
    requires Inv(s) && Fits(name) && NewRegFilePost(s, name, path, avail, s', r, p) && r != Fault
    ensures Inv(s')
  {
    var d := ResolveAt(s.fs, path);
    if r.Done? {
      DerefDir(s.fs, d);
      AddFileWf(s.fs, d, name, Ino(s, 0), p);
      assert DirOk(s.fs, d);
      AddInos(s, s', 1, p, NULL, NULL);
    }
  }

  lemma DeleteInv(s: State, path: string, parent: string, s': State, r: Outcome, i: nat)
    requires Inv(s) && DeletePost(s, path, parent, s', r, i)
    requires r.Done? ==> LastOrdinary(s.fs, ResolveAt(s.fs, parent), i)
    requires r != Fault
    ensures Inv(s')
  {
    if r.Done? {
      RemovedWf(s.fs, ResolveAt(s.fs, parent));
      assert DirOk(s.fs, ResolveAt(s.fs, parent));
      AddInos(s, s', 0, NULL, NULL, NULL);
    }
  }

  lemma StepInv(s: State, c: Call, r: Outcome, s': State)
    requires Inv(s) && Step(s, c, r, s') && Disciplined(s, c, r)
    ensures Inv(s')
  {
    match c
    case Init(avail, q, t) => InitInv(s, avail, s', r, q, t);
    case MkDir(name, path, avail, p, q, t) => MkDirInv(s, name, path, avail, s', r, p, q, t);
    case NewRegFile(name, path, avail, p) => NewRegFileInv(s, name, path, avail, s', r, p);
    case Delete(path, parent, i) => DeleteInv(s, path, parent, s', r, i);
  }

  /** `states` is a run of disciplined calls from boot on. */
  ghost predicate Run(states: seq<State>, calls: seq<Call>, outcomes: seq<Outcome>) {
    && |calls| == |outcomes| == |states| - 1
    && states[0] == BootState()
    && forall k :: 0 <= k < |calls| ==>
         Inv(states[k]) ==> Step(states[k], calls[k], outcomes[k], states[k + 1]) && Disciplined(states[k], calls[k], outcomes[k])
  }

  /** Every state of every run is a well-formed tree with distinct inode numbers. */
  lemma {:induction false} RunInv(states: seq<State>, calls: seq<Call>, outcomes: seq<Outcome>, k: nat)
    requires Run(states, calls, outcomes) && k < |states|
    ensures Inv(states[k])
  {
    if k == 0 {
      assert Inv(BootState());
    } else {
      RunInv(states, calls, outcomes, k - 1);
      assert Step(states[k - 1], calls[k - 1], outcomes[k - 1], states[k - 1 + 1]);
      StepInv(states[k - 1], calls[k - 1], outcomes[k - 1], states[k]);
    }
  }

  // ----- When the calls succeed -----

  /** A name is taken in the directory of a path exactly when the longer path resolves. */
  lemma NameTaken(fs: Fs, path: string, name: string)
    requires Wf(fs) && name != "" && SlashFree(name) && Resolve(fs, path) != NULL
    ensures Lookup(fs, Resolve(fs, path), name) == Resolve(fs, path + "/" + name)
  {
    TokensJoin(path, name);
    TokensOfName(name);
    WalkLast(fs, Tokens(path) + [name]);
    assert (Tokens(path) + [name])[..|Tokens(path)|] == Tokens(path);
  }

  /** The node a path leads to, as its type shows in memory. */
  ghost function TypeAt(fs: Fs, path: string): FileType
    requires fs.root != NULL ==> Wf(fs)
  {
    var d := ResolveAt(fs, path);
    if d in fs.mem then fs.mem[d].ftype else NoType
  }

  lemma TypeOfDirectory(fs: Fs, path: string)
    requires (fs.root != NULL ==> Wf(fs)) && ResolveAt(fs, path) != NULL
    ensures TypeAt(fs, path) == Directory <==> ResolveAt(fs, path) in fs.shape.kids
  {
    WalkInTree(fs, fs.root, Tokens(path));
    SymlinkTarget(fs, ResolveAt(fs, path));
  }

  /**
   `ramfs_newRegFile`, by what the paths say before the call. With a block to be had, a
   permitted name and a path that leads to a directory it succeeds if and only if the new
   path led nowhere; and then the new path leads to a new regular file.
   */
  lemma NewRegFileOutcome(s: State, name: string, path: string, avail: nat, s': State, r: Outcome, p: Ptr)
    requires Inv(s) && Fits(name) && name != "" && NewRegFilePost(s, name, path, avail, s', r, p)
    ensures var d, x := ResolveAt(s.fs, path), ResolveAt(s.fs, path + "/" + name);
            && (r == Refused <==> !NameOk(name) || d == NULL || (x == NULL && avail == 0))
            && (r == Exists <==> NameOk(name) && d != NULL && x != NULL)
            && (r == Fault <==> NameOk(name) && d != NULL && x == NULL && avail >= 1 && TypeAt(s.fs, path) != Directory)
            && (r == Done(p) <==> NameOk(name) && d != NULL && x == NULL && avail >= 1 && TypeAt(s.fs, path) == Directory)
    ensures r.Done? ==> s'.fs.root != NULL && Inv(s') && ResolveAt(s'.fs, path + "/" + name) == p
    ensures r.Done? ==> p in s'.fs.mem && s'.fs.mem[p] == Node(name, s.lastIno, Regular, NULL, NULL, NULL)
  {
    var d := ResolveAt(s.fs, path);
    if NameOk(name) && d != NULL {
      NameTaken(s.fs, path, name);
      TypeOfDirectory(s.fs, path);
    }
    if r.Done? {
      NewRegFileInv(s, name, path, avail, s', r, p);
      NewRegFilePaths(s, name, path, avail, s', r, p);
      HookedNode(s.fs, d, p, FileNode(name, Ino(s, 0)));
    }
  }

  /** The node that is hooked in is in memory as it was made. */
  lemma HookedNode(fs: Fs, d: Ptr, p: Ptr, node: Node)
    requires Wf(fs) && d in fs.shape.kids && p !in fs.mem
    ensures p in Hook(fs, d, p, node) && Hook(fs, d, p, node)[p] == node
  {
    assert DirOk(fs, d);
  }

  /** `ramfs_mkDir` in the same way: it needs three blocks, and the new directory holds its two links. */
  lemma MkDirOutcome(s: State, name: string, path: string, avail: nat, s': State, r: Outcome, p: Ptr, q: Ptr, t: Ptr)
    requires Inv(s) && Fits(name) && name != "" && MkDirPost(s, name, path, avail, s', r, p, q, t)
    ensures var d, x := ResolveAt(s.fs, path), ResolveAt(s.fs, path + "/" + name);
            && (r == Refused <==> !NameOk(name) || d == NULL || (x == NULL && avail <= 2))
            && (r == Exists <==> NameOk(name) && d != NULL && x != NULL)
            && (r == Fault <==> NameOk(name) && d != NULL && x == NULL && avail >= 3 && TypeAt(s.fs, path) != Directory)
            && (r == Done(p) <==> NameOk(name) && d != NULL && x == NULL && avail >= 3 && TypeAt(s.fs, path) == Directory)
    ensures r.Done? ==> s'.fs.root != NULL && Inv(s') && ResolveAt(s'.fs, path + "/" + name) == p
    ensures r.Done? ==> TypeAt(s'.fs, path + "/" + name) == Directory && p in s'.fs.shape.kids && s'.fs.shape.kids[p] == [q, t]
  {
    var d := ResolveAt(s.fs, path);
    if NameOk(name) && d != NULL {
      NameTaken(s.fs, path, name);
      TypeOfDirectory(s.fs, path);
    }
    if r.Done? {
      MkDirInv(s, name, path, avail, s', r, p, q, t);
      MkDirPaths(s, name, path, avail, s', r, p, q, t);
      TypeOfDirectory(s'.fs, path + "/" + name);
    }
  }

  /**
   `ramfs_deleteNode` in the same way, for a path that does not end in a doubled slash: it
   fails when the path leads nowhere, goes through when the parent path leads to a
   directory itself, and dereferences NULL when it leads there through a link.
   */
  lemma DeleteOutcome(s: State, path: string, parent: string, s': State, r: Outcome, i: nat)
    requires Inv(s) && path != "" && path[0] == '/' && Tokens(path) != [] && DeletePost(s, path, parent, s', r, i)
    requires parent != "" && parent[0] == '/' && Tokens(parent) == Tokens(path)[..|Tokens(path)| - 1]
    ensures var x := ResolveAt(s.fs, path);
            && (r == Refused <==> x == NULL)
            && (r == Done(x) <==> x != NULL && TypeAt(s.fs, parent) == Directory)
            && (r == Fault <==> x != NULL && TypeAt(s.fs, parent) == Symlink)
    ensures r == Refused ==> s' == s
  {
    var d := ResolveAt(s.fs, parent);
    if s.fs.root != NULL {
      WalkLast(s.fs, Tokens(path));
      if d != NULL {
        TypeOfDirectory(s.fs, parent);
        WalkInTree(s.fs, s.fs.root, Tokens(parent));
        FoundInDirectory(s.fs, d, LastName(path));
      }
    }
  }

  /** What a lookup finds is among the entries of a directory; it starts at a directory or at a link. */
  lemma FoundInDirectory(fs: Fs, d: Ptr, name: string)
    requires Wf(fs) && d in TreeNodes(fs)
    ensures d in fs.mem && (Lookup(fs, d, name) != NULL ==> fs.mem[d].ftype == Directory || fs.mem[d].ftype == Symlink)
    ensures d in fs.shape.kids && Lookup(fs, d, name) != NULL ==> Lookup(fs, d, name) in fs.shape.kids[d]
  {
    SymlinkTarget(fs, d);
    LookupInTree(fs, d, name);
  }

  // ----- What the calls do to paths -----

  ghost predicate PathsKept(s: State, s': State)
    requires Inv(s) && Inv(s')
  {
    forall path: string :: ResolveAt(s.fs, path) != NULL ==> ResolveAt(s'.fs, path) == ResolveAt(s.fs, path)
  }

  ghost predicate PathsSame(s: State, s': State)
    requires Inv(s) && Inv(s')
  {
    forall path: string :: ResolveAt(s'.fs, path) == ResolveAt(s.fs, path)
  }

  /** Consequences of `Extends` for all path strings. */
  lemma ExtendsPaths(lo: Fs, hi: Fs, d: Ptr, p: Ptr)
    requires Extends(lo, hi, d, p)
    ensures forall path: string :: Resolve(lo, path) != NULL ==> Resolve(hi, path) == Resolve(lo, path)
    ensures forall path: string :: Resolve(lo, path) == NULL && Resolve(hi, path) != NULL ==>
              PassesThrough(hi, hi.root, Tokens(path), p)
  {
    forall path: string
      ensures Resolve(lo, path) != NULL ==> Resolve(hi, path) == Resolve(lo, path)
      ensures Resolve(lo, path) == NULL && Resolve(hi, path) != NULL ==> PassesThrough(hi, hi.root, Tokens(path), p)
    {
      WalkExtends(lo, hi, d, p, lo.root, Tokens(path));
    }
  }

  lemma NewName(lo: Fs, hi: Fs, d: Ptr, p: Ptr, path: string)
    requires Extends(lo, hi, d, p) && Resolve(lo, path) == d && d != NULL
    requires hi.mem[p].name != "" && NameOk(hi.mem[p].name)
    ensures Resolve(hi, path + "/" + hi.mem[p].name) == p
    ensures Resolve(lo, path + "/" + hi.mem[p].name) == NULL
  {
    var name := hi.mem[p].name;
    TokensJoin(path, name);
    TokensOfName(name);
    DerefDir(lo, d);
    NewPathResolves(lo, hi, d, p, Tokens(path));
  }

  /**
   The first successful `ramfs_init` makes a tree of the root and its two links, and
   nothing else is allocated; every other call of it keeps the meaning of all paths, and on
   a mounted system a successful one leaks exactly two blocks.
   */
  lemma InitPaths(s: State, avail: nat, s': State, r: Outcome, q: Ptr, t: Ptr)
    requires Inv(s) && Inv(s') && InitPost(s, avail, s', r, q, t)
    ensures r.Done? <==> avail >= 2
    ensures s.fs.root == NULL && r.Done? ==>
              && s'.fs.shape.kids == map[ROOT := [q, t]] && s'.fs.mem.Keys == TreeNodes(s'.fs) == {ROOT, q, t}
              && ResolveAt(s'.fs, "/") == ROOT
    ensures s.fs.root != NULL || !r.Done? ==> s'.fs.root == s.fs.root && PathsSame(s, s')
    ensures s.fs.root != NULL ==> s'.fs.mem.Keys == s.fs.mem.Keys + if r.Done? then {q, t} else {}
  {
    if s.fs.root != NULL {
      InitView(s, avail, s', r, q, t);
      assert DirOk(s.fs, ROOT);
      forall path: string ensures ResolveAt(s'.fs, path) == ResolveAt(s.fs, path) {
        ViewWalk(s.fs, s'.fs, s.fs.root, Tokens(path));
      }
    } else if avail >= 2 {
      NewTreeWf(Ino(s, 0), q, Ino(s, 1), t, Ino(s, 2));
      assert Tokens("/") == [] by { assert "/"[1..] == ""; }
    }
  }

  /**
   A successful `ramfs_mkDir` makes the new path resolve to the new directory and keeps
   every path that resolved; a call that fails changes the meaning of no path.
   */
  lemma MkDirPaths(s: State, name: string, path: string, avail: nat, s': State, r: Outcome, p: Ptr, q: Ptr, t: Ptr)
    requires Inv(s) && Inv(s') && Fits(name) && MkDirPost(s, name, path, avail, s', r, p, q, t)
    ensures r.Done? ==> PathsKept(s, s') && Extends(s.fs, s'.fs, ResolveAt(s.fs, path), p)
    ensures r.Done? && name != "" ==> ResolveAt(s'.fs, path + "/" + name) == p && ResolveAt(s.fs, path + "/" + name) == NULL
    ensures !r.Done? && r != Fault ==> PathsSame(s, s')
  {
    var d := ResolveAt(s.fs, path);
    if r.Done? {
      DerefDir(s.fs, d);
      AddDirExtends(s.fs, d, name, Ino(s, 0), p, q, Ino(s, 1), t, Ino(s, 2));
      ExtendsPaths(s.fs, s'.fs, d, p);
      DirNewName(s.fs, d, name, Ino(s, 0), p, q, Ino(s, 1), t, Ino(s, 2));
      if name != "" {
        NewName(s.fs, s'.fs, d, p, path);
      }
    } else if r != Fault && s'.fs != s.fs {
      forall path2: string ensures ResolveAt(s'.fs, path2) == ResolveAt(s.fs, path2) {
        LeakView(s.fs, p, DirNode(name, Ino(s, 0), NULL));
        ViewWalk(s.fs, s'.fs, s.fs.root, Tokens(path2));
      }
    }
  }

  lemma DirNewName(fs: Fs, d: Ptr, name: string, ino: nat, p: Ptr, q: Ptr, qIno: nat, t: Ptr, tIno: nat)
    requires Wf(fs) && d in fs.shape.kids && d in fs.shape.depth && Fresh3(fs.mem, p, q, t)
    ensures var fs' := AddDir(fs, d, name, ino, p, q, qIno, t, tIno); p in fs'.mem && fs'.mem[p].name == name
  {
    assert DirOk(fs, d);
  }

  lemma NewRegFilePaths(s: State, name: string, path: string, avail: nat, s': State, r: Outcome, p: Ptr)
    requires Inv(s) && Inv(s') && Fits(name) && NewRegFilePost(s, name, path, avail, s', r, p)
    ensures r.Done? ==> PathsKept(s, s') && Extends(s.fs, s'.fs, ResolveAt(s.fs, path), p)
    ensures r.Done? && name != "" ==> ResolveAt(s'.fs, path + "/" + name) == p && ResolveAt(s.fs, path + "/" + name) == NULL
    ensures !r.Done? && r != Fault ==> s' == s
  {
    var d := ResolveAt(s.fs, path);
    if r.Done? {
      DerefDir(s.fs, d);
      AddFileExtends(s.fs, d, name, Ino(s, 0), p);
      ExtendsPaths(s.fs, s'.fs, d, p);
      assert s'.fs.mem[p].name == name by { assert DirOk(s.fs, d); }
      if name != "" {
        NewName(s.fs, s'.fs, d, p, path);
      }
    }
  }

  /**
   A disciplined deletion frees exactly the subtree of the named node and takes it out of
   its parent's list; paths that do not pass through it keep their meaning, and no path
   gains one.
   */
  lemma DeletePaths(s: State, path: string, parent: string, s': State, r: Outcome, i: nat)
    requires Inv(s) && Inv(s') && DeletePost(s, path, parent, s', r, i) && r.Done?
    requires LastOrdinary(s.fs, ResolveAt(s.fs, parent), i)
    ensures var d := ResolveAt(s.fs, parent);
            && s'.fs.shape.kids[d] == s.fs.shape.kids[d][..i]
            && s'.fs.mem.Keys == s.fs.mem.Keys - Forest(s.fs, [r.node])
            && Extends(s'.fs, s.fs, d, r.node)
    ensures forall p2: string :: Resolve(s'.fs, p2) != NULL ==> Resolve(s.fs, p2) == Resolve(s'.fs, p2)
    ensures forall p2: string :: Resolve(s.fs, p2) != NULL && !PassesThrough(s.fs, s.fs.root, Tokens(p2), r.node) ==>
              Resolve(s'.fs, p2) == Resolve(s.fs, p2)
  {
    var d := ResolveAt(s.fs, parent);
    RemovedExtends(s.fs, d);
    ExtendsPaths(s'.fs, s.fs, d, r.node);
  }

  /** After the deletion the path itself resolves no more. */
  lemma DeletedPathGone(s: State, path: string, parent: string, s': State, r: Outcome, i: nat)
    requires Inv(s) && Inv(s') && DeletePost(s, path, parent, s', r, i) && r.Done?
    requires LastOrdinary(s.fs, ResolveAt(s.fs, parent), i)
    ensures ResolveAt(s'.fs, path) == NULL
  {
    var d := ResolveAt(s.fs, parent);
    DeletePaths(s, path, parent, s', r, i);
    WalkInTree(s'.fs, s'.fs.root, Tokens(path));
    assert r.node !in TreeNodes(s'.fs);
  }

  /**
   Deleting a directory and making it again, as `pci_scan` begins: the second call finds
   the name free, and the new directory holds its two links and nothing of the old one.
   */
  lemma Recreated(s: State, path: string, name: string, parent: string, s1: State, x: Ptr, i: nat,
                  avail: nat, s2: State, r: Outcome, p: Ptr, q: Ptr, t: Ptr)
    requires Inv(s) && Inv(s1) && Inv(s2) && Fits(name) && NameOk(name) && name != "" && avail >= 3
    requires path != "" && path[0] == '/' && parent != "" && parent[0] == '/' && Tokens(parent) == Tokens(path)
    requires DeletePost(s, path + "/" + name, parent, s1, Done(x), i) && LastOrdinary(s.fs, ResolveAt(s.fs, parent), i)
    requires s.fs.root != NULL ==> !PassesThrough(s.fs, s.fs.root, Tokens(path), x)
    requires MkDirPost(s1, name, path, avail, s2, r, p, q, t)
    ensures r == Done(p) && ResolveAt(s2.fs, path + "/" + name) == p
    ensures p in s2.fs.shape.kids && s2.fs.shape.kids[p] == [q, t]
  {
    DeletePaths(s, path + "/" + name, parent, s1, Done(x), i);
    DeletedPathGone(s, path + "/" + name, parent, s1, Done(x), i);
    assert ResolveAt(s1.fs, path) == ResolveAt(s.fs, path) == ResolveAt(s.fs, parent);
    NameTaken(s1.fs, path, name);
    MkDirPaths(s1, name, path, avail, s2, r, p, q, t);
  }

  /**
   Which deletions go through: with an ordinary last name, no doubled slash at the end and
   a parent path that names a real directory, the node is found among the parent's
   ordinary entries.
   */
  lemma DeleteFinds(s: State, path: string, parent: string) returns (i: nat)
    requires Inv(s) && s.fs.root != NULL && path != "" && path[0] == '/' && Tokens(path) != []
    requires parent != "" && parent[0] == '/' && Tokens(parent) == Tokens(path)[..|Tokens(path)| - 1]
    requires LastName(path) != "." && LastName(path) != ".."
    requires ResolveAt(s.fs, parent) in s.fs.shape.kids && ResolveAt(s.fs, path) != NULL
    ensures var d := ResolveAt(s.fs, parent);
            2 <= i < |s.fs.shape.kids[d]| && s.fs.shape.kids[d][i] == ResolveAt(s.fs, path)
  {
    WalkLast(s.fs, Tokens(path));
    i := FoundOrdinary(s.fs, ResolveAt(s.fs, parent), LastName(path));
  }

  /** A name other than `.` and `..` that is found belongs to an ordinary entry. */
  lemma FoundOrdinary(fs: Fs, d: Ptr, name: string) returns (i: nat)
    requires Wf(fs) && d in fs.shape.kids && name != "." && name != ".." && Lookup(fs, d, name) != NULL
    ensures 2 <= i < |fs.shape.kids[d]| && fs.shape.kids[d][i] == Lookup(fs, d, name)
  {
    DerefDir(fs, d);
    assert DirOk(fs, d);
    var kids := fs.shape.kids[d];
    FindSpec(fs.mem, kids, name);
    i :| 0 <= i < |kids| && kids[i] == Lookup(fs, d, name);
  }
}
