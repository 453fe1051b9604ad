/**
 The RAM file system as it runs: nodes relinked in place through `next` and `children`
 pointers, loops along sibling lists, and recursive freeing. Every method is tied to the
 state machine of `FsRun`.
 */
module RamFs {
  import opened Basics
  import opened Paths
  import opened FsModel
  import opened FsOps
  import opened FsDelete
  import opened FsRun

  class FileSystem {
    var mem: Memory
    var root: Ptr        // the root that the path code sees, NULL before ramfs_init
    var lastIno: nat
    ghost var shape: Shape
    ghost var created: nat

    ghost function St(): State
      reads this
    {
      State(Fs(mem, root, shape), lastIno, created)
    }

    ghost predicate Valid()
      reads this
    {
      Inv(St())
    }

    /** Boot: nothing is allocated and nothing is mounted. */
    constructor ()
      ensures Valid() && St() == BootState()
    {
      mem, root, lastIno := map[], NULL, 0;
      shape := Shape(map[], map[], map[]);
      created := 0;
    }

    // ----- Allocator and inode numbers -----

    /** `kmalloc` plus `memset`: a zeroed fresh block, or NULL when the request is not granted. */
    method AllocNode(grant: bool) returns (p: Ptr)
      modifies this`mem
      ensures !grant ==> p == NULL && mem == old(mem)
      ensures grant ==> p != NULL && p != ROOT && p !in old(mem) && mem == old(mem)[p := ZEROED]
    {
      p := NULL;
      if grant {
        FreshAddress(mem);
        p :| p != NULL && p != ROOT && p !in mem;
        mem := mem[p := ZEROED];
      }
    }

    /** `kfree`: only a block that is allocated may be given back. */
    method DeallocNode(p: Ptr)
      requires p in mem
      modifies this`mem
      ensures mem == old(mem) - {p}
    {
      mem := mem - {p};
    }

    method NewIno() returns (ino: nat)
      modifies this`lastIno, this`created
      ensures ino == old(lastIno) && lastIno == NextIno(old(lastIno)) && created == old(created) + 1
    {
      ino := lastIno;
      lastIno := NextIno(lastIno);
      created := created + 1;
    }

    // ----- Symbolic links and lookups -----

    /** `fs_get_simlink`: fill in a symbolic link to `target`. */
    method GetSimlink(name: string, target: Ptr, link: Ptr)
      requires link in mem
      modifies this`mem, this`lastIno, this`created
      ensures mem == old(mem)[link := Node(name, old(lastIno), Symlink, target, old(mem)[link].next, old(mem)[link].children)]
      ensures lastIno == NextIno(old(lastIno)) && created == old(created) + 1
    {
      var ino := NewIno();
      mem := mem[link := mem[link].(name := name, ino := ino, ftype := Symlink, nodePtr := target)];
    }

    /** `vfs_nodeFromSimlink`: follow symbolic links until something else is reached. */
    method NodeFromSimlink(node: Ptr) returns (p: Ptr)
      requires Valid() && root != NULL && node in TreeNodes(St().fs)
      ensures p == Deref(mem, node) && p in TreeNodes(St().fs) && p in mem && mem[p].ftype != Symlink
    {
      p := node;
      SymlinkTarget(St().fs, node);
      while mem[p].ftype == Symlink
        invariant p in TreeNodes(St().fs) && p in mem
        invariant p == node || (p == Deref(mem, node) && mem[p].ftype == Directory)
        decreases mem[p].ftype == Symlink
      {
        p := mem[p].nodePtr;
      }
    }

    /** `ramfs_find`: walk the sibling list of directory `d`. */
    method FindChild(d: Ptr, name: string) returns (r: Ptr)
      requires Valid() && root != NULL && d in TreeNodes(St().fs) && d in mem && CString(name)
      ensures r == if d in shape.kids then Lookup(St().fs, d, name) else NULL
    {
      SymlinkTarget(St().fs, d);
      if mem[d].ftype != Directory {
        return NULL;
      }
      assert DirOk(St().fs, d);
      ghost var s := shape.kids[d];
      var p := mem[d].children;
      ghost var i := 0;
      assert s[0..] == s;
      while p != NULL
        invariant 0 <= i <= |s| && p == if i < |s| then s[i] else NULL
        invariant Find(mem, s[i..], name) == Find(mem, s, name)
        decreases |s| - i
      {
        var c := Strncmp(mem[p].name, name, MAX_FNAME);
        if c == 0 {
          return p;
        }
        assert mem[p].next == After(s, i);
        assert s[i..][1..] == s[i + 1..];
        p := mem[p].next;
        i := i + 1;
      }
      r := NULL;
    }

    /** `fs_find`. */
    method FsFind(node: Ptr, name: string) returns (r: Ptr)
      requires Valid() && root != NULL && node in TreeNodes(St().fs) && CString(name)
      ensures r == Lookup(St().fs, node, name)
      ensures r == NULL || r in TreeNodes(St().fs)
    {
      var d := NodeFromSimlink(node);
      SymlinkTarget(St().fs, d);
      DerefIdempotent(St().fs, node);
      LookupInTree(St().fs, node, name);
      if mem[d].ftype == Directory {
        r := FindChild(d, name);
      } else {
        r := NULL;
      }
    }

    /** `fs_get_node`: cut the path into tokens in a local buffer and look each one up. */
    method GetNode(current: Ptr, path: string) returns (r: Ptr)
      requires Valid() && CString(path) && |path| < MAX_PATH
      requires current == NULL || (root != NULL && current in TreeNodes(St().fs))
      ensures r == ResolveFrom(St().fs, current, path)
      ensures current == NULL ==> r == ResolveAt(St().fs, path)
      ensures r == NULL || (root != NULL && r in TreeNodes(St().fs))
    {
      var intPath := new char[MAX_PATH];
      Strncpy(intPath, path);
      ghost var z := |path|;
      assert intPath[0..z] == path;
      assert path != "" ==> path[0] == intPath[0];
      if intPath[0] == '/' {
        r := root;
      } else {
        if current == NULL {
          return NULL;
        }
        r := current;
      }
      if r != NULL {
        r := WalkTokens(r, intPath, z);
      }
    }

    /** The loop of `fs_get_node`: look up one token after the other. */
    method WalkTokens(start: Ptr, intPath: array<char>, ghost z: int) returns (r: Ptr)
      requires Valid() && root != NULL && start != NULL && start in TreeNodes(St().fs) && Terminated(intPath, 0, z)
      modifies intPath
      ensures r == Walk(St().fs, start, Tokens(old(intPath[0..z])))
      ensures r == NULL || r in TreeNodes(St().fs)
    {
      r := start;
      ghost var fs, all := St().fs, Tokens(intPath[0..z]);
      TokensShape(intPath[0..z]);
      var token, save, end := FirstToken(intPath, z);
      ghost var done := 0;
      assert all[0..] == all;
      while token != -1
        invariant St().fs == fs && Valid() && r != NULL && r in TreeNodes(fs)
        invariant AtToken(intPath, token, save, end, z, all, done)
        invariant Walk(fs, start, all) == Walk(fs, r, all[done..])
        decreases |all| - done
      {
        var name := ReadString(intPath, token, end);
        assert name in all && all[done..][1..] == all[done + 1..];
        r := FsFind(r, name);
        if r == NULL {
          NullWalk(fs, all[done + 1..]);
          return NULL;
        }
        token, save, end := NextToken(intPath, save, token, end, z, all, done);
        done := done + 1;
      }
    }

    /** `ramfs_getLastChild` of a node whose child list is `s`; the source dereferences NULL when it is empty. */
    method GetLastChild(d: Ptr, ghost s: seq<Ptr>) returns (last: Ptr)
      requires NULL !in mem && d in mem && s != [] && Chain(mem, mem[d].children, s)
      ensures last == s[|s| - 1] && last in mem
    {
      last := mem[d].children;
      ghost var i := 0;
      while mem[last].next != NULL
        invariant 0 <= i < |s| && last == s[i] && last in mem
        decreases |s| - i
      {
        assert mem[last].next == After(s, i);
        last := mem[last].next;
        i := i + 1;
      }
      assert mem[last].next == After(s, i);
    }

    /** Both symbolic links are hung below the directory `d`, unless it has children already. */
    method LinkHeader(d: Ptr, dot: Ptr, dotdot: Ptr)
      requires d in mem && dot in mem && dotdot in mem && d != dot && d != dotdot && dot != dotdot
      modifies this`mem
      ensures mem == if old(mem)[d].children != NULL then old(mem)
                     else old(mem)[d := old(mem)[d].(children := dot)]
                                  [dot := old(mem)[dot].(next := dotdot)]
                                  [dotdot := old(mem)[dotdot].(next := NULL)]
    {
      if mem[d].children == NULL {
        mem := mem[d := mem[d].(children := dot)];
        mem := mem[dot := mem[dot].(next := dotdot)];
        mem := mem[dotdot := mem[dotdot].(next := NULL)];
      }
    }

    // ----- ramfs_init -----

    /** `ramfs_init`; `avail` is how many blocks `kmalloc` grants during the call. */
    method Init(avail: nat) returns (r: Outcome, ghost q: Ptr, ghost t: Ptr)
      requires Valid()
      modifies this
      ensures Valid() && InitPost(old(St()), avail, St(), r, q, t)
    {
      ghost var s0 := St();
      var ino := NewIno();
      var was := if ROOT in mem then mem[ROOT] else ZEROED;
      mem := mem[ROOT := was.(name := "", ino := ino, ftype := Directory, nodePtr := NULL)];
      assert mem == s0.fs.mem[ROOT := RootNode(s0)] && Ino(s0, 1) == NextIno(Ino(s0, 0));
      r, q, t := BuildRoot(avail, s0);
      InitInv(s0, avail, St(), r, q, t);
    }

    /** The two links of the root. */
    method BuildRoot(avail: nat, ghost s0: State) returns (r: Outcome, ghost q: Ptr, ghost t: Ptr)
      requires Inv(s0) && St() == Bump(s0, 1).(fs := s0.fs.(mem := s0.fs.mem[ROOT := RootNode(s0)]))
      modifies this
      ensures InitPost(s0, avail, St(), r, q, t)
    {
      q, t := NULL, NULL;
      ghost var mem0 := mem;
      assert Ino(s0, 2) == NextIno(Ino(s0, 1)) && Ino(s0, 3) == NextIno(Ino(s0, 2));
      var dot := AllocNode(avail > 0);
      if dot == NULL {
        return Refused, q, t;
      }
      GetSimlink(".", ROOT, dot);
      var dotdot := AllocNode(avail > 1);
      if dotdot == NULL {
        DeallocNode(dot);
        assert mem == mem0;
        return Refused, q, t;
      }
      GetSimlink("..", ROOT, dotdot);
      q, t := dot, dotdot;
      Mount(dot, dotdot, s0);
      r := Done(ROOT);
    }

    /** The last steps of `ramfs_init`: link the header in and set the root of the path code. */
    method Mount(dot: Ptr, dotdot: Ptr, ghost s0: State)
      requires Inv(s0) && dot != NULL && dotdot != NULL && dot != dotdot
      requires var mem1 := s0.fs.mem[ROOT := RootNode(s0)];
               && dot !in mem1 && dotdot !in mem1
               && mem == mem1[dot := LinkNode(".", Ino(s0, 1), ROOT, NULL)][dotdot := LinkNode("..", Ino(s0, 2), ROOT, NULL)]
      requires root == s0.fs.root && shape == s0.fs.shape && lastIno == Ino(s0, 3) && created == s0.created + 3
      modifies this
      ensures InitPost(s0, 2, St(), Done(ROOT), dot, dotdot)
    {
      RootHasChildren(s0);
      LinkHeader(ROOT, dot, dotdot);
      if root == NULL {
        shape := NewTree(Ino(s0, 0), dot, Ino(s0, 1), dotdot, Ino(s0, 2)).shape;
        NewTreeLinked(s0, dot, dotdot);
      }
      root := ROOT;
    }

    // ----- ramfs_mkDir -----

    /** `ramfs_mkDir`; `avail` is how many blocks `kmalloc` grants during the call. */
    method MkDir(name: string, path: string, avail: nat) returns (r: Outcome, ghost p: Ptr, ghost q: Ptr, ghost t: Ptr)
      requires Valid() && Fits(name) && CString(path) && |path| < MAX_PATH
      modifies this
      ensures MkDirPost(old(St()), name, path, avail, St(), r, p, q, t)
      ensures r != Fault ==> Valid()
    {
      p, q, t := NULL, NULL, NULL;
      ghost var s0 := St();
      var ok := CheckFileName(name);
      if !ok {
        return Refused, p, q, t;
      }
      var parent := GetNode(NULL, path);
      if parent == NULL {
        return Refused, p, q, t;
      }
      var found := FsFind(parent, name);
      if found != NULL {
        return Exists, p, q, t;
      }
      r, p, q, t := BuildDir(parent, name, avail);
      if r != Fault {
        MkDirInv(s0, name, path, avail, St(), r, p, q, t);
      }
    }

    /** The part of `ramfs_mkDir` behind its checks: three allocations and the linking. */
    method BuildDir(parent: Ptr, name: string, avail: nat) returns (r: Outcome, ghost p: Ptr, ghost q: Ptr, ghost t: Ptr)
      requires Valid() && root != NULL && parent in TreeNodes(St().fs)
      modifies this
      ensures avail == 0 ==> r == Refused && St() == old(St())
      ensures avail == 1 ==> r == Refused && St() == Bump(old(St()), 1)
      ensures avail == 2 ==>
                && r == Refused && p != NULL && p !in old(mem)
                && St() == Bump(old(St()), 2).(fs := old(St()).fs.(mem := old(mem)[p := DirNode(name, old(lastIno), NULL)]))
      ensures avail >= 3 && parent !in old(shape).kids ==> r == Fault
      ensures avail >= 3 && parent in old(shape).kids ==>
                var s := old(St());
                && r == Done(p) && Fresh3(s.fs.mem, p, q, t) && parent in s.fs.shape.depth
                && St() == Bump(s, 3).(fs := AddDir(s.fs, parent, name, Ino(s, 0), p, q, Ino(s, 1), t, Ino(s, 2)))
    {
      ghost var s0 := St();
      p, q, t := NULL, NULL, NULL;
      var newDir := AllocNode(avail > 0);
      if newDir == NULL {
        return Refused, p, q, t;
      }
      var ino := NewIno();
      mem := mem[newDir := mem[newDir].(name := name, ino := ino, ftype := Directory, nodePtr := NULL)];
      assert Ino(s0, 1) == NextIno(Ino(s0, 0));
      r, p, q, t := BuildHeader(parent, name, newDir, avail, s0);
    }

    /** The two symbolic links of a new directory; a failure frees only what was allocated last. */
    method BuildHeader(parent: Ptr, name: string, newDir: Ptr, avail: nat, ghost s0: State)
      returns (r: Outcome, ghost p: Ptr, ghost q: Ptr, ghost t: Ptr)
      requires Inv(s0) && s0.fs.root != NULL && parent in TreeNodes(s0.fs) && newDir != NULL && newDir !in s0.fs.mem && avail >= 1
      requires St() == Bump(s0, 1).(fs := s0.fs.(mem := s0.fs.mem[newDir := DirNode(name, Ino(s0, 0), NULL)]))
      modifies this
      ensures avail == 1 ==> r == Refused && St() == Bump(s0, 1)
      ensures avail == 2 ==>
                && r == Refused && p == newDir
                && St() == Bump(s0, 2).(fs := s0.fs.(mem := s0.fs.mem[p := DirNode(name, Ino(s0, 0), NULL)]))
      ensures avail >= 3 && parent !in s0.fs.shape.kids ==> r == Fault
      ensures avail >= 3 && parent in s0.fs.shape.kids ==>
                && r == Done(p) && Fresh3(s0.fs.mem, p, q, t) && parent in s0.fs.shape.depth
                && St() == Bump(s0, 3).(fs := AddDir(s0.fs, parent, name, Ino(s0, 0), p, q, Ino(s0, 1), t, Ino(s0, 2)))
    {
      p, q, t := newDir, NULL, NULL;
      assert Ino(s0, 2) == NextIno(Ino(s0, 1)) && Ino(s0, 3) == NextIno(Ino(s0, 2));
      var dot := AllocNode(avail > 1);
      if dot == NULL {
        DeallocNode(newDir);
        assert mem == s0.fs.mem;
        return Refused, p, q, t;
      }
      GetSimlink(".", newDir, dot);
      var dotdot := AllocNode(avail > 2);
      if dotdot == NULL {
        DeallocNode(dot);
        assert mem == s0.fs.mem[newDir := DirNode(name, Ino(s0, 0), NULL)];
        return Refused, p, q, t;
      }
      GetSimlink("..", parent, dotdot);
      LinkHeader(newDir, dot, dotdot);
      q, t := dot, dotdot;
      r := AppendDir(parent, name, newDir, dot, dotdot, s0);
    }

    /** Hook the finished directory behind the last entry of its parent. */
    method AppendDir(parent: Ptr, name: string, p: Ptr, q: Ptr, t: Ptr, ghost s: State) returns (r: Outcome)
      requires Inv(s) && s.fs.root != NULL && parent in TreeNodes(s.fs) && Fresh3(s.fs.mem, p, q, t)
      requires mem == s.fs.mem[p := DirNode(name, Ino(s, 0), q)][q := LinkNode(".", Ino(s, 1), p, t)][t := LinkNode("..", Ino(s, 2), parent, NULL)]
      requires root == s.fs.root && shape == s.fs.shape && lastIno == Ino(s, 3) && created == s.created + 3
      modifies this
      ensures parent !in s.fs.shape.kids ==> r == Fault
      ensures parent in s.fs.shape.kids ==>
                && r == Done(p) && parent in s.fs.shape.depth
                && St() == Bump(s, 3).(fs := AddDir(s.fs, parent, name, Ino(s, 0), p, q, Ino(s, 1), t, Ino(s, 2)))
    {
      ParentChildren(s.fs, parent);
      if mem[parent].children == NULL {
        return Fault;
      }
      ChainFrame(s.fs.mem, mem, s.fs.mem[parent].children, s.fs.shape.kids[parent]);
      var last := GetLastChild(parent, s.fs.shape.kids[parent]);
      mem := mem[last := mem[last].(next := p)];
      DirDepth(s.fs, parent);
      HookedDir(s.fs, parent, p, q, t, DirNode(name, Ino(s, 0), q), LinkNode(".", Ino(s, 1), p, t), LinkNode("..", Ino(s, 2), parent, NULL));
      shape := AddDir(s.fs, parent, name, Ino(s, 0), p, q, Ino(s, 1), t, Ino(s, 2)).shape;
      return Done(p);
    }

    // ----- ramfs_newRegFile -----

    method NewRegFile(name: string, path: string, avail: nat) returns (r: Outcome, ghost p: Ptr)
      requires Valid() && Fits(name) && CString(path) && |path| < MAX_PATH
      modifies this
      ensures NewRegFilePost(old(St()), name, path, avail, St(), r, p)
      ensures r != Fault ==> Valid()
    {
      p := NULL;
      ghost var s0 := St();
      var ok := CheckFileName(name);
      if !ok {
        return Refused, p;
      }
      var parent := GetNode(NULL, path);
      if parent == NULL {
        return Refused, p;
      }
      var found := FsFind(parent, name);
      if found != NULL {
        return Exists, p;
      }
      var newFile := AllocNode(avail > 0);
      if newFile == NULL {
        return Refused, p;
      }
      var ino := NewIno();
      mem := mem[newFile := mem[newFile].(name := name, ino := ino, ftype := Regular, nodePtr := NULL)];
      p := newFile;
      r := AppendFile(parent, name, newFile, s0);
      if r != Fault {
        NewRegFileInv(s0, name, path, avail, St(), r, p);
      }
    }

    method AppendFile(parent: Ptr, name: string, p: Ptr, ghost s: State) returns (r: Outcome)
      requires Inv(s) && s.fs.root != NULL && parent in TreeNodes(s.fs) && p != NULL && p !in s.fs.mem
      requires mem == s.fs.mem[p := FileNode(name, Ino(s, 0))]
      requires root == s.fs.root && shape == s.fs.shape && lastIno == Ino(s, 1) && created == s.created + 1
      modifies this
      ensures parent !in s.fs.shape.kids ==> r == Fault
      ensures parent in s.fs.shape.kids ==>
                && r == Done(p) && parent in s.fs.shape.depth
                && St() == Bump(s, 1).(fs := AddFile(s.fs, parent, name, Ino(s, 0), p))
    {
      ParentChildren(s.fs, parent);
      if mem[parent].children == NULL {
        return Fault;
      }
      ghost var kids := s.fs.shape.kids[parent];
      ChainFrame(s.fs.mem, mem, s.fs.mem[parent].children, kids);
      var last := GetLastChild(parent, kids);
      mem := mem[last := mem[last].(next := p)];
      DirDepth(s.fs, parent);
      ghost var fs' := AddFile(s.fs, parent, name, Ino(s, 0), p);
      assert last == LastEntry(s.fs, parent);
      assert mem == fs'.mem;
      shape := fs'.shape;
      return Done(p);
    }

    // ----- ramfs_deleteNode -----

    /**
     `ramfs_inter_deleteNode` on entry `i` of directory `d`: frees the children, then the
     later siblings, then the node; each block of the forest exactly once.
     */
    method InterDelete(node: Ptr, ghost fs: Fs, ghost d: Ptr, ghost i: nat)
      requires Wf(fs) && d in fs.shape.kids && i < |fs.shape.kids[d]| && node == fs.shape.kids[d][i]
      requires forall x <- Forest(fs, fs.shape.kids[d][i..]) :: x in fs.mem && x in mem && mem[x] == fs.mem[x]
      modifies this`mem
      ensures mem == old(mem) - Forest(fs, fs.shape.kids[d][i..])
      decreases Forest(fs, fs.shape.kids[d][i..])
    {
      ForestSplit(fs, d, i);
      NodeLinks(fs, d, i);
      ghost var s := fs.shape.kids[d];
      if mem[node].children != NULL {
        assert fs.shape.kids[node][0..] == Kids(fs, node);
        InterDelete(mem[node].children, fs, node, 0);
      }
      assert mem == old(mem) - Forest(fs, Kids(fs, node));
      if mem[node].next != NULL {
        InterDelete(mem[node].next, fs, d, i + 1);
      }
      assert mem == old(mem) - Forest(fs, Kids(fs, node)) - Forest(fs, s[i + 1..]);
      DeallocNode(node);
    }

    /** `ramfs_deleteNode`. */
    method DeleteNode(path: string) returns (r: Outcome, ghost parent: string, ghost i: nat)
      requires Valid() && CString(path) && 0 < |path| < MAX_FNAME && (Tokens(path) != [] ==> HasParent(path))
      modifies this
      ensures DeletePost(old(St()), path, parent, St(), r, i)
      ensures Tokens(path) != [] ==>
                && parent != "" && (parent[0] == '/' <==> path[0] == '/')
                && (Tokens(parent) == Tokens(path)[..|Tokens(path)| - 1] <==> !EndsInDoubleSlash(path))
      ensures r == Refused ==> Valid()
      ensures r.Done? && LastOrdinary(old(St()).fs, ResolveAt(old(St()).fs, parent), i) ==> Valid()
    {
      i, parent := 0, "";
      ghost var s0 := St();
      var parentPath := GetParentPath(path);
      if parentPath.None? {
        return Refused, parent, i;
      }
      parent := parentPath.value;
      var parentDir := GetNode(NULL, parentPath.value);
      if parentDir == NULL {
        return Refused, parent, i;
      }
      var node := GetNode(NULL, path);
      if node == NULL {
        return Refused, parent, i;
      }
      r, i := Unlink(parentDir, node);
      if r.Done? && LastOrdinary(s0.fs, parentDir, i) {
        shape := Removed(s0.fs, parentDir).shape;
        DeleteInv(s0, path, parent, St(), r, i);
      }
    }

    /** The loop of `ramfs_deleteNode` that takes the node out of its parent's list, and the freeing. */
    method Unlink(parentDir: Ptr, node: Ptr) returns (r: Outcome, ghost i: nat)
      requires Valid() && root != NULL && parentDir in TreeNodes(St().fs) && node in TreeNodes(St().fs)
      modifies this`mem
      ensures parentDir !in shape.kids ==> r == Fault
      ensures parentDir in shape.kids && node !in shape.kids[parentDir] ==> r == Refused && mem == old(mem)
      ensures parentDir in shape.kids && node in shape.kids[parentDir] ==>
                && r == Done(node) && i < |shape.kids[parentDir]| && shape.kids[parentDir][i] == node
                && mem == Unlinked(old(St()).fs, parentDir, i)
    {
      i := 0;
      ghost var fs := St().fs;
      ParentChildren(fs, parentDir);
      if mem[parentDir].children == NULL {
        return Fault, i;
      }
      var found;
      found, i := Detach(parentDir, node);
      if !found {
        return Refused, i;
      }
      ForestUntouched(fs, parentDir, i);
      InterDelete(node, fs, parentDir, i);
      r := Done(node);
    }

    /** Take `node` out of the list of `parentDir`, if it is there. */
    method Detach(parentDir: Ptr, node: Ptr) returns (found: bool, ghost i: nat)
      requires Valid() && root != NULL && parentDir in shape.kids && node in TreeNodes(St().fs)
      modifies this`mem
      ensures found <==> node in shape.kids[parentDir]
      ensures !found ==> mem == old(mem)
      ensures found ==>
                && i < |shape.kids[parentDir]| && shape.kids[parentDir][i] == node
                && mem == Relinked(old(St()).fs, parentDir, i)
    {
      ghost var fs, s := St().fs, shape.kids[parentDir];
      TreeNodesAllocated(fs);
      assert DirOk(fs, parentDir);
      if mem[parentDir].children == node {
        found, i := true, 0;
        assert mem[node].next == After(s, 0);
        mem := mem[parentDir := mem[parentDir].(children := mem[node].next)];
      } else {
        var prev;
        prev, found, i := FindPrevious(mem[parentDir].children, node, s);
        if found {
          assert mem[node].next == After(s, i);
          mem := mem[prev := mem[prev].(next := mem[node].next)];
        }
      }
    }

    /** The search for the entry in front of `node` in the list `s`. */
    method FindPrevious(head: Ptr, node: Ptr, ghost s: seq<Ptr>) returns (prev: Ptr, found: bool, ghost i: nat)
      requires NULL !in mem && s != [] && Chain(mem, head, s) && node != head && node != NULL
      ensures found <==> node in s
      ensures found ==> 1 <= i < |s| && s[i] == node && prev == s[i - 1]
    {
      prev := head;
      assert mem[prev].next == After(s, 0);
      var curr := mem[prev].next;
      i := 1;
      while curr != NULL && curr != node
        invariant 1 <= i <= |s| && prev == s[i - 1] && curr == (if i < |s| then s[i] else NULL)
        invariant node !in s[..i]
        decreases |s| - i
      {
        assert mem[curr].next == After(s, i);
        prev := curr;
        curr := mem[curr].next;
        i := i + 1;
      }
      found := curr != NULL;
      assert !found ==> s[..i] == s;
    }
  }

  lemma FreshAddress(mem: Memory)
    ensures exists p: Ptr :: p != NULL && p != ROOT && p !in mem
  {
    var p := Above(mem.Keys + {ROOT});
    assert p != NULL && p != ROOT && p !in mem;
  }

  lemma {:induction false} Above(s: set<Ptr>) returns (p: Ptr)
    ensures p > 0 && forall x <- s :: x < p
    decreases |s|
  {
    p := 1;
    if s != {} {
      var x :| x in s;
      var q := Above(s - {x});
      p := if x < q then q else x + 1;
      assert s == (s - {x}) + {x};
    }
  }

  /** The root node has children exactly when the file system is mounted. */
  lemma RootHasChildren(s: State)
    requires Inv(s)
    ensures RootNode(s).children != NULL <==> s.fs.root != NULL
    ensures s.fs.root == NULL ==> s.fs.mem[ROOT := RootNode(s)] == map[ROOT := DirNode("", Ino(s, 0), NULL)]
  {
    if s.fs.root != NULL {
      assert DirOk(s.fs, ROOT);
    }
  }

  /** Linking the header into a root without children makes the new tree. */
  lemma NewTreeLinked(s: State, q: Ptr, t: Ptr)
    requires q != ROOT && t != ROOT && q != t
    ensures var root := DirNode("", Ino(s, 0), NULL);
            var dot, dotdot := LinkNode(".", Ino(s, 1), ROOT, NULL), LinkNode("..", Ino(s, 2), ROOT, NULL);
            map[ROOT := root][q := dot][t := dotdot][ROOT := root.(children := q)][q := dot.(next := t)][t := dotdot.(next := NULL)]
            == NewTree(Ino(s, 0), q, Ino(s, 1), t, Ino(s, 2)).mem
  {}

  /** A tree node has children exactly when it is a directory. */
  lemma ParentChildren(fs: Fs, p: Ptr)
    requires Wf(fs) && p in TreeNodes(fs)
    ensures p in fs.mem && (fs.mem[p].children != NULL <==> p in fs.shape.kids)
    ensures p in fs.shape.kids ==> fs.shape.kids[p] != [] && Chain(fs.mem, fs.mem[p].children, fs.shape.kids[p])
  {
    if p in fs.shape.kids {
      assert DirOk(fs, p);
    } else {
      var i := EntryIndex(fs, p);
      var d := fs.shape.up[p];
      assert DirOk(fs, d);
      if i >= 2 {
        assert Ordinary(fs.mem, fs.shape, fs.shape.kids[d][i]);
      }
    }
  }

  /** The order of the writes that hook in a new directory does not matter. */
  lemma HookedDir(fs: Fs, d: Ptr, p: Ptr, q: Ptr, t: Ptr, np: Node, nq: Node, nt: Node)
    requires Wf(fs) && d in fs.shape.kids && Fresh3(fs.mem, p, q, t)
    ensures var mem := fs.mem[p := np][q := nq][t := nt]; var last := LastEntry(fs, d);
            last in mem && mem[last := mem[last].(next := p)] == Hook(fs, d, p, np)[q := nq][t := nt]
  {
    assert DirOk(fs, d);
  }

  lemma ChainFrame(mem: Memory, mem': Memory, head: Ptr, s: seq<Ptr>)
    requires Chain(mem, head, s) && forall x <- s :: x in mem' && mem'[x].next == mem[x].next
    ensures Chain(mem', head, s)
  {}

  /** The pointers that `ramfs_inter_deleteNode` follows from entry `i` of `d`. */
  lemma NodeLinks(fs: Fs, d: Ptr, i: nat)
    requires Wf(fs) && d in fs.shape.kids && i < |fs.shape.kids[d]|
    ensures var x := fs.shape.kids[d][i];
            && x in fs.mem && fs.mem[x].next == After(fs.shape.kids[d], i)
            && (fs.mem[x].next == NULL <==> i + 1 == |fs.shape.kids[d]|)
            && (fs.mem[x].children != NULL <==> x in fs.shape.kids)
            && (x in fs.shape.kids ==> |fs.shape.kids[x]| > 0 && fs.mem[x].children == fs.shape.kids[x][0])
    ensures Forest(fs, []) == {}
  {
    assert DirOk(fs, d);
    ParentChildren(fs, fs.shape.kids[d][i]);
  }

  /** Unlinking entry `i` of `d` changes no node of the forest that is freed next. */
  lemma ForestUntouched(fs: Fs, d: Ptr, i: nat)
    requires Wf(fs) && d in fs.shape.kids && i < |fs.shape.kids[d]|
    ensures d !in Forest(fs, fs.shape.kids[d][i..])
    ensures i > 0 ==> fs.shape.kids[d][i - 1] !in Forest(fs, fs.shape.kids[d][i..])
    ensures Forest(fs, fs.shape.kids[d][i..]) <= fs.mem.Keys
  {
    var s := fs.shape.kids[d];
    TreeNodesAllocated(fs);
    if d in Forest(fs, s[i..]) {
      var j :| 0 <= j < |s[i..]| && Under(fs, d, s[i..][j]);
      SiblingDepth(fs, d, i + j, i + j);
      assert UpOk(fs.shape, s[i + j]);
      UnderDepth(fs, d, s[i + j]);
    }
    if i > 0 {
      SiblingDepth(fs, d, i - 1, i);
      assert Under(fs, s[i - 1], s[i - 1]);
      ForestApart(fs, d, i - 1, s[i - 1]);
    }
  }
}
