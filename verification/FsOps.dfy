/**
 Creation and deletion as changes of the file-system value: they keep `Wf`, and what they
 do to every path is derived from one relation, `Extends`.
 */
module FsOps {
  import opened Basics
  import opened Paths
  import opened FsModel

  // ----- Creation -----

  ghost function LastEntry(fs: Fs, d: Ptr): Ptr
    requires Wf(fs) && d in fs.shape.kids
  {
    assert DirOk(fs, d);
    fs.shape.kids[d][|fs.shape.kids[d]| - 1]
  }

  /** The new node `p` is hooked behind the last entry of directory `d`. */
  ghost function Hook(fs: Fs, d: Ptr, p: Ptr, node: Node): Memory
    requires Wf(fs) && d in fs.shape.kids
  {
    var last := LastEntry(fs, d);
    assert DirOk(fs, d);
    fs.mem[p := node][last := fs.mem[last].(next := p)]
  }

  ghost function FileNode(name: string, ino: nat): Node {
    Node(name, ino, Regular, NULL, NULL, NULL)
  }

  ghost function AddFile(fs: Fs, d: Ptr, name: string, ino: nat, p: Ptr): Fs
    requires Wf(fs) && d in fs.shape.kids && d in fs.shape.depth
  {
    var sh := fs.shape;
    Fs(Hook(fs, d, p, FileNode(name, ino)), fs.root,
       Shape(sh.kids[d := sh.kids[d] + [p]], sh.up[p := d], sh.depth[p := sh.depth[d] + 1]))
  }

  ghost function LinkNode(name: string, ino: nat, target: Ptr, next: Ptr): Node {
    Node(name, ino, Symlink, target, next, NULL)
  }

  ghost function DirNode(name: string, ino: nat, children: Ptr): Node {
    Node(name, ino, Directory, NULL, NULL, children)
  }

  /** A directory `p` with its `.` entry at `q` and its `..` entry at `t`, in directory `d`. */
  ghost function AddDir(fs: Fs, d: Ptr, name: string, ino: nat, p: Ptr, q: Ptr, qIno: nat, t: Ptr, tIno: nat): Fs
    requires Wf(fs) && d in fs.shape.kids && d in fs.shape.depth
  {
    var sh := fs.shape;
    Fs(Hook(fs, d, p, DirNode(name, ino, q))[q := LinkNode(".", qIno, p, t)][t := LinkNode("..", tIno, d, NULL)], fs.root,
       Shape(sh.kids[d := sh.kids[d] + [p]][p := [q, t]],
             sh.up[p := d][q := p][t := p],
             sh.depth[p := sh.depth[d] + 1][q := sh.depth[d] + 2][t := sh.depth[d] + 2]))
  }

  lemma DirDepth(fs: Fs, d: Ptr)
    requires Wf(fs) && d in fs.shape.kids
    ensures d in fs.shape.depth
  {
    if d != fs.root {
      assert UpOk(fs.shape, d);
    }
  }

  /** A directory whose entries, parent and own type stay as they were stays well formed. */
  lemma DirOkFrame(fs: Fs, fs': Fs, e: Ptr)
    requires e in fs.shape.kids && DirOk(fs, e)
    requires e in fs'.shape.kids && fs'.shape.kids[e] == fs.shape.kids[e]
    requires e in fs'.mem && fs'.mem[e].ftype == fs.mem[e].ftype && fs'.mem[e].children == fs.mem[e].children
    requires ParentOf(fs', e) == ParentOf(fs, e)
    requires forall x <- fs.shape.kids[e] :: x in fs'.mem && fs'.mem[x] == fs.mem[x]
    requires forall x <- fs.shape.kids[e] :: x in fs'.shape.up && fs'.shape.up[x] == e
    requires forall x <- fs.shape.kids[e] :: x in fs'.shape.kids <==> x in fs.shape.kids
    ensures DirOk(fs', e)
  {
    var s := fs.shape.kids[e];
    forall i | 2 <= i < |s| ensures Ordinary(fs'.mem, fs'.shape, s[i]) {
      assert Ordinary(fs.mem, fs.shape, s[i]);
    }
  }

  /** Hooking `p` behind the last element extends a chain by `p`. */
  lemma ChainAppend(mem: Memory, mem': Memory, head: Ptr, s: seq<Ptr>, p: Ptr)
    requires Chain(mem, head, s) && Distinct(s) && s != [] && p in mem' && mem'[p].next == NULL
    requires forall x <- s :: x in mem' && mem'[x] == mem[x].(next := if x == s[|s| - 1] then p else mem[x].next)
    ensures Chain(mem', head, s + [p])
  {
    var s' := s + [p];
    forall i | 0 <= i < |s'| ensures s'[i] in mem' && mem'[s'[i]].next == After(s', i) {
      if i < |s| {
        assert s'[i] == s[i];
        assert mem[s[i]].next == After(s, i);
      }
    }
  }

  lemma NamesAppend(mem: Memory, mem': Memory, s: seq<Ptr>, p: Ptr)
    requires NULL !in mem && UniqueNames(mem, s) && p in mem'
    requires forall x <- s :: x in mem' && mem'[x].name == mem[x].name
    requires Find(mem, s, mem'[p].name) == NULL
    ensures UniqueNames(mem', s + [p])
  {
    FindSpec(mem, s, mem'[p].name);
    var s' := s + [p];
    forall i, j | 0 <= i < j < |s'| ensures s'[i] in mem' && s'[j] in mem' && mem'[s'[i]].name != mem'[s'[j]].name {
      assert s'[i] == s[i];
    }
  }

  /** The directory that receives a new last entry stays well formed. */
  lemma DirOkAppend(fs: Fs, fs': Fs, d: Ptr, p: Ptr)
    requires Wf(fs) && d in fs.shape.kids && DirOk(fs, d)
    requires d in fs'.shape.kids && fs'.shape.kids[d] == fs.shape.kids[d] + [p]
    requires d in fs'.mem && fs'.mem[d].ftype == Directory && fs'.mem[d].children == fs.mem[d].children
    requires ParentOf(fs', d) == ParentOf(fs, d)
    requires forall x <- fs.shape.kids[d] :: x in fs'.mem && fs'.mem[x] == fs.mem[x].(next := if x == LastEntry(fs, d) then p else fs.mem[x].next)
    requires forall x <- fs.shape.kids[d] :: x in fs'.shape.up && fs'.shape.up[x] == d
    requires forall x <- fs.shape.kids[d] :: x in fs'.shape.kids <==> x in fs.shape.kids
    requires p !in fs.shape.kids[d] && p in fs'.shape.up && fs'.shape.up[p] == d
    requires Ordinary(fs'.mem, fs'.shape, p) && fs'.mem[p].next == NULL && Fits(fs'.mem[p].name)
    requires Find(fs.mem, fs.shape.kids[d], fs'.mem[p].name) == NULL
    ensures DirOk(fs', d)
  {
    var s := fs.shape.kids[d];
    var s' := fs'.shape.kids[d];
    ChainAppend(fs.mem, fs'.mem, fs.mem[d].children, s, p);
    NamesAppend(fs.mem, fs'.mem, s, p);
    forall i | 2 <= i < |s'| ensures Ordinary(fs'.mem, fs'.shape, s'[i]) {
      if i < |s| {
        assert s'[i] == s[i];
        assert Ordinary(fs.mem, fs.shape, s[i]);
      }
    }
    assert s'[0] == s[0] && s'[1] == s[1];
  }

  /** The entries of distinct directories are distinct. */
  lemma EntriesApart(fs: Fs, d: Ptr, e: Ptr, x: Ptr)
    requires Wf(fs) && d in fs.shape.kids && e in fs.shape.kids && x in fs.shape.kids[d] && x in fs.shape.kids[e]
    ensures d == e
  {
    assert DirOk(fs, d) && DirOk(fs, e);
  }

  lemma AddFileWf(fs: Fs, d: Ptr, name: string, ino: nat, p: Ptr)
    requires Wf(fs) && d in fs.shape.kids && d in fs.shape.depth
    requires NameOk(name) && Fits(name) && Lookup(fs, d, name) == NULL
    requires p != NULL && p !in fs.mem
    ensures Wf(AddFile(fs, d, name, ino, p))
  {
    var fs' := AddFile(fs, d, name, ino, p);
    TreeNodesAllocated(fs);
    assert DirOk(fs, d);
    forall e | e in fs'.shape.kids ensures DirOk(fs', e) {
      AddFileDir(fs, d, name, ino, p, e);
    }
    AddFileUps(fs, fs', d, p);
  }

  lemma AddFileUps(fs: Fs, fs': Fs, d: Ptr, p: Ptr)
    requires Wf(fs) && d in fs.shape.kids && d in fs.shape.depth && p !in TreeNodes(fs)
    requires fs'.shape.kids == fs.shape.kids[d := fs.shape.kids[d] + [p]]
    requires fs'.shape.up == fs.shape.up[p := d]
    requires fs'.shape.depth == fs.shape.depth[p := fs.shape.depth[d] + 1]
    ensures forall x {:trigger UpOk(fs'.shape, x)} :: x in fs'.shape.up ==> UpOk(fs'.shape, x)
  {
    forall x | x in fs'.shape.up ensures UpOk(fs'.shape, x) {
      if x != p {
        assert UpOk(fs.shape, x);
      } else {
        assert (fs.shape.kids[d] + [p])[|fs.shape.kids[d]|] == p;
      }
    }
  }

  lemma AddFileDir(fs: Fs, d: Ptr, name: string, ino: nat, p: Ptr, e: Ptr)
    requires Wf(fs) && d in fs.shape.kids && d in fs.shape.depth
    requires NameOk(name) && Fits(name) && Lookup(fs, d, name) == NULL
    requires p != NULL && p !in fs.mem && e in fs.shape.kids
    ensures DirOk(AddFile(fs, d, name, ino, p), e)
  {
    var fs' := AddFile(fs, d, name, ino, p);
    TreeNodesAllocated(fs);
    assert DirOk(fs, e);
    if e == d {
      DirOkAppend(fs, fs', d, p);
    } else {
      NotLast(fs, d, e);
      DirOkFrame(fs, fs', e);
    }
  }

  /** The last entry of `d` is an entry of no other directory. */
  lemma NotLast(fs: Fs, d: Ptr, e: Ptr)
    requires Wf(fs) && d in fs.shape.kids && e in fs.shape.kids && d != e
    ensures forall x <- fs.shape.kids[e] :: x != LastEntry(fs, d)
    ensures LastEntry(fs, d) in fs.mem
  {
    assert DirOk(fs, d);
    forall x | x in fs.shape.kids[e] ensures x != LastEntry(fs, d) {
      if x == LastEntry(fs, d) { EntriesApart(fs, d, e, x); }
    }
  }

  lemma AddDirUps(fs: Fs, fs': Fs, d: Ptr, p: Ptr, q: Ptr, t: Ptr)
    requires Wf(fs) && d in fs.shape.kids && d in fs.shape.depth && {p, q, t} !! TreeNodes(fs) && p != q && p != t && q != t
    requires fs'.shape.kids == fs.shape.kids[d := fs.shape.kids[d] + [p]][p := [q, t]]
    requires fs'.shape.up == fs.shape.up[p := d][q := p][t := p]
    requires fs'.shape.depth == fs.shape.depth[p := fs.shape.depth[d] + 1][q := fs.shape.depth[d] + 2][t := fs.shape.depth[d] + 2]
    ensures forall x {:trigger UpOk(fs'.shape, x)} :: x in fs'.shape.up ==> UpOk(fs'.shape, x)
  {
    forall x | x in fs'.shape.up ensures UpOk(fs'.shape, x) {
      if x == p {
        assert (fs.shape.kids[d] + [p])[|fs.shape.kids[d]|] == p;
      } else if x != q && x != t {
        assert UpOk(fs.shape, x);
      } else {
        assert [q, t][0] == q && [q, t][1] == t;
      }
    }
  }

  lemma NewDirOk(fs': Fs, d: Ptr, p: Ptr, q: Ptr, t: Ptr)
    requires p in fs'.shape.kids && fs'.shape.kids[p] == [q, t]
    requires {p, q, t} <= fs'.mem.Keys && q != t && p != fs'.root
    requires fs'.mem[p].ftype == Directory && fs'.mem[p].children == q
    requires fs'.mem[q] == LinkNode(".", fs'.mem[q].ino, p, t)
    requires fs'.mem[t] == LinkNode("..", fs'.mem[t].ino, d, NULL)
    requires {p, q, t} <= fs'.shape.up.Keys
    requires fs'.shape.up[p] == d && fs'.shape.up[q] == p && fs'.shape.up[t] == p
    ensures DirOk(fs', p)
  {
    var s := fs'.shape.kids[p];
    assert Chain(fs'.mem, q, s);
    assert Header(fs'.mem, s, p, d);
    assert UniqueNames(fs'.mem, s) by {
      assert "."[..] != ".."[..] by { assert |"."| != |".."|; }
    }
  }

  lemma AddDirWf(fs: Fs, d: Ptr, name: string, ino: nat, p: Ptr, q: Ptr, qIno: nat, t: Ptr, tIno: nat)
    requires Wf(fs) && d in fs.shape.kids && d in fs.shape.depth
    requires NameOk(name) && Fits(name) && Lookup(fs, d, name) == NULL
    requires {p, q, t} !! fs.mem.Keys && NULL !in {p, q, t} && p != q && p != t && q != t
    ensures Wf(AddDir(fs, d, name, ino, p, q, qIno, t, tIno))
  {
    var fs' := AddDir(fs, d, name, ino, p, q, qIno, t, tIno);
    TreeNodesAllocated(fs);
    assert DirOk(fs, d);
    AddDirUps(fs, fs', d, p, q, t);
    forall e | e in fs'.shape.kids ensures DirOk(fs', e) {
      if e == p {
        NewDirOk(fs', d, p, q, t);
      } else {
        AddDirOther(fs, d, name, ino, p, q, qIno, t, tIno, e);
      }
    }
  }

  lemma AddDirOther(fs: Fs, d: Ptr, name: string, ino: nat, p: Ptr, q: Ptr, qIno: nat, t: Ptr, tIno: nat, e: Ptr)
    requires Wf(fs) && d in fs.shape.kids && d in fs.shape.depth
    requires NameOk(name) && Fits(name) && Lookup(fs, d, name) == NULL
    requires {p, q, t} !! fs.mem.Keys && NULL !in {p, q, t} && p != q && p != t && q != t
    requires e in fs.shape.kids && e != p
    ensures DirOk(AddDir(fs, d, name, ino, p, q, qIno, t, tIno), e)
  {
    var fs' := AddDir(fs, d, name, ino, p, q, qIno, t, tIno);
    TreeNodesAllocated(fs);
    assert DirOk(fs, e);
    if e == d {
      DirOkAppend(fs, fs', d, p);
    } else {
      NotLast(fs, d, e);
      DirOkFrame(fs, fs', e);
    }
  }

  // ----- What an added or removed last entry means for paths -----

  /**
   `hi` is `lo` with one more entry `p`, and whatever hangs below it, at the end of
   directory `d`. Creation goes from `lo` to `hi` and deletion from `hi` to `lo`.
   */
  ghost predicate Extends(lo: Fs, hi: Fs, d: Ptr, p: Ptr) {
    && Wf(lo) && Wf(hi) && lo.root == hi.root
    && lo.shape.kids.Keys <= hi.shape.kids.Keys
    && d in lo.shape.kids && hi.shape.kids[d] == lo.shape.kids[d] + [p]
    && (forall e {:trigger hi.shape.kids[e]} :: e in lo.shape.kids && e != d ==> hi.shape.kids[e] == lo.shape.kids[e])
    && TreeNodes(lo) <= TreeNodes(hi) && p in TreeNodes(hi) && p in hi.mem && p !in TreeNodes(lo)
    && (forall q {:trigger SameNode(lo, hi, q)} :: q in TreeNodes(lo) ==> SameNode(lo, hi, q))
  }

  /** A node of both trees has the same name, type and link target in both. */
  ghost predicate SameNode(lo: Fs, hi: Fs, q: Ptr) {
    && q in lo.mem && q in hi.mem
    && lo.mem[q].name == hi.mem[q].name && lo.mem[q].ftype == hi.mem[q].ftype && lo.mem[q].nodePtr == hi.mem[q].nodePtr
    && (q in lo.shape.kids <==> q in hi.shape.kids)
  }

  /** The entries of a directory of `lo` are tree nodes that both states agree on. */
  lemma KidsAgree(lo: Fs, hi: Fs, d: Ptr, p: Ptr, e: Ptr)
    requires Extends(lo, hi, d, p) && e in lo.shape.kids
    ensures forall x <- lo.shape.kids[e] :: x in lo.mem && x in hi.mem && lo.mem[x].name == hi.mem[x].name
  {
    assert DirOk(lo, e);
    forall x | x in lo.shape.kids[e] ensures x in lo.mem && x in hi.mem && lo.mem[x].name == hi.mem[x].name {
      assert SameNode(lo, hi, x);
    }
  }

  lemma FindExtends(lo: Fs, hi: Fs, d: Ptr, p: Ptr, e: Ptr, name: string)
    requires Extends(lo, hi, d, p) && e in lo.shape.kids
    requires forall x <- lo.shape.kids[e] :: x in lo.mem
    requires forall x <- hi.shape.kids[e] :: x in hi.mem
    ensures Find(hi.mem, hi.shape.kids[e], name) ==
            if Find(lo.mem, lo.shape.kids[e], name) != NULL then Find(lo.mem, lo.shape.kids[e], name)
            else if e == d && hi.mem[p].name == name then p
            else NULL
  {
    KidsAgree(lo, hi, d, p, e);
    var s := lo.shape.kids[e];
    FindFrame(lo.mem, hi.mem, s, name);
    if e == d {
      FindAppend(hi.mem, s, [p], name);
    }
  }

  lemma LookupExtends(lo: Fs, hi: Fs, d: Ptr, p: Ptr, q: Ptr, name: string)
    requires Extends(lo, hi, d, p) && q in TreeNodes(lo)
    ensures Deref(lo.mem, q) == Deref(hi.mem, q)
    ensures Lookup(hi, q, name) ==
            if Lookup(lo, q, name) != NULL then Lookup(lo, q, name)
            else if Deref(lo.mem, q) == d && hi.mem[p].name == name then p
            else NULL
  {
    assert SameNode(lo, hi, q);
    SymlinkTarget(lo, q);
    var e := Deref(lo.mem, q);
    assert SameNode(lo, hi, e);
    if e in lo.shape.kids {
      assert DirOk(lo, e) && DirOk(hi, e);
      FindExtends(lo, hi, d, p, e, name);
    }
  }

  /**
   Every path that resolves in `lo` resolves in `hi`, to the same node; and a path that
   resolves only in `hi` passes through the added entry.
   */
  lemma {:induction false} WalkExtends(lo: Fs, hi: Fs, d: Ptr, p: Ptr, q: Ptr, toks: seq<string>)
    requires Extends(lo, hi, d, p) && q in TreeNodes(lo)
    ensures Walk(lo, q, toks) != NULL ==> Walk(hi, q, toks) == Walk(lo, q, toks)
    ensures Walk(lo, q, toks) == NULL && Walk(hi, q, toks) != NULL ==> PassesThrough(hi, q, toks, p)
    decreases |toks|
  {
    if toks != [] && q != NULL {
      LookupExtends(lo, hi, d, p, q, toks[0]);
      LookupInTree(lo, q, toks[0]);
      var n := Lookup(lo, q, toks[0]);
      var n' := Lookup(hi, q, toks[0]);
      if n != NULL {
        WalkExtends(lo, hi, d, p, n, toks[1..]);
        if Walk(lo, q, toks) == NULL && Walk(hi, q, toks) != NULL {
          var k :| 0 <= k <= |toks[1..]| && Walk(hi, n, toks[1..][..k]) == p;
          assert toks[..k + 1][1..] == toks[1..][..k];
          assert Walk(hi, q, toks[..k + 1]) == p;
        }
      } else if n' == p {
        assert toks[..1][1..] == [];
        assert Walk(hi, q, toks[..1]) == p;
      } else {
        NullWalk(hi, toks[1..]);
      }
    }
  }

  /** Some prefix of the path names `p`. */
  ghost predicate PassesThrough(fs: Fs, q: Ptr, toks: seq<string>, p: Ptr)
    requires Wf(fs)
  {
    exists k :: 0 <= k <= |toks| && Walk(fs, q, toks[..k]) == p
  }

  /** The added entry is found under its directory's path plus its name. */
  lemma NewPathResolves(lo: Fs, hi: Fs, d: Ptr, p: Ptr, toks: seq<string>)
    requires Extends(lo, hi, d, p) && Deref(lo.mem, Walk(lo, lo.root, toks)) == d && Walk(lo, lo.root, toks) != NULL
    ensures p in hi.mem && Walk(hi, hi.root, toks + [hi.mem[p].name]) == p
    ensures Walk(lo, lo.root, toks + [hi.mem[p].name]) == NULL
  {
    TreeNodesAllocated(hi);
    var q := Walk(lo, lo.root, toks);
    var name := hi.mem[p].name;
    WalkInTree(lo, lo.root, toks);
    WalkExtends(lo, hi, d, p, lo.root, toks);
    WalkConcat(hi, hi.root, toks, [name]);
    WalkConcat(lo, lo.root, toks, [name]);
    WalkOne(hi, q, name);
    WalkOne(lo, q, name);
    LookupExtends(lo, hi, d, p, q, name);
    assert DirOk(hi, d);
    var s := hi.shape.kids[d];
    FindAt(hi.mem, s, |s| - 1);
    LookupInTree(lo, q, name);
  }

  lemma AddFileExtends(fs: Fs, d: Ptr, name: string, ino: nat, p: Ptr)
    requires Wf(fs) && d in fs.shape.kids && d in fs.shape.depth
    requires NameOk(name) && Fits(name) && Lookup(fs, d, name) == NULL
    requires p != NULL && p !in fs.mem
    ensures Extends(fs, AddFile(fs, d, name, ino, p), d, p)
  {
    AddFileWf(fs, d, name, ino, p);
    TreeNodesAllocated(fs);
    assert DirOk(fs, d);
    var hi := AddFile(fs, d, name, ino, p);
    assert TreeNodes(hi) == TreeNodes(fs) + {p};
    forall q | q in TreeNodes(fs) ensures SameNode(fs, hi, q) {}
  }

  lemma AddDirExtends(fs: Fs, d: Ptr, name: string, ino: nat, p: Ptr, q: Ptr, qIno: nat, t: Ptr, tIno: nat)
    requires Wf(fs) && d in fs.shape.kids && d in fs.shape.depth
    requires NameOk(name) && Fits(name) && Lookup(fs, d, name) == NULL
    requires {p, q, t} !! fs.mem.Keys && NULL !in {p, q, t} && p != q && p != t && q != t
    ensures Extends(fs, AddDir(fs, d, name, ino, p, q, qIno, t, tIno), d, p)
  {
    AddDirWf(fs, d, name, ino, p, q, qIno, t, tIno);
    TreeNodesAllocated(fs);
    assert DirOk(fs, d);
    var hi := AddDir(fs, d, name, ino, p, q, qIno, t, tIno);
    assert TreeNodes(hi) == TreeNodes(fs) + {p, q, t};
    forall x | x in TreeNodes(fs) ensures SameNode(fs, hi, x) {}
  }
}
