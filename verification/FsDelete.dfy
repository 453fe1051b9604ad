/**
 Deletion: the subtree below an entry, the set of blocks that the recursive
 `ramfs_inter_deleteNode` gives back, and what is left of the tree.
 */
module FsDelete {
  import opened Basics
  import opened Paths
  import opened FsModel
  import opened FsOps

  // ----- Subtrees -----

  ghost function Depth(fs: Fs, q: Ptr): nat {
    if q in fs.shape.depth then fs.shape.depth[q] else 0
  }

  /** `q` is `p` or lies below it. */
  ghost predicate Under(fs: Fs, q: Ptr, p: Ptr)
    requires Wf(fs)
    decreases Depth(fs, q)
  {
    q == p || (q in fs.shape.up && (assert UpOk(fs.shape, q); Under(fs, fs.shape.up[q], p)))
  }

  /** Everything at or below one of the entries `s`. */
  ghost function Forest(fs: Fs, s: seq<Ptr>): set<Ptr>
    requires Wf(fs)
  {
    set q | q in fs.shape.up.Keys && exists i :: 0 <= i < |s| && Under(fs, q, s[i])
  }

  lemma {:induction false} UnderDepth(fs: Fs, q: Ptr, p: Ptr)
    requires Wf(fs) && Under(fs, q, p)
    ensures q == p || Depth(fs, q) > Depth(fs, p)
    decreases Depth(fs, q)
  {
    if q != p {
      assert UpOk(fs.shape, q);
      UnderDepth(fs, fs.shape.up[q], p);
    }
  }

  /** Two nodes of equal depth that are both above `q` are the same node. */
  lemma {:induction false} UnderUnique(fs: Fs, q: Ptr, a: Ptr, b: Ptr)
    requires Wf(fs) && Under(fs, q, a) && Under(fs, q, b) && Depth(fs, a) == Depth(fs, b)
    ensures a == b
    decreases Depth(fs, q)
  {
    if q == a {
      UnderDepth(fs, q, b);
    } else if q == b {
      UnderDepth(fs, q, a);
    } else {
      assert UpOk(fs.shape, q);
      UnderUnique(fs, fs.shape.up[q], a, b);
    }
  }

  lemma {:induction false} UnderTrans(fs: Fs, q: Ptr, c: Ptr, x: Ptr)
    requires Wf(fs) && Under(fs, q, c) && c in fs.shape.up && fs.shape.up[c] == x
    ensures Under(fs, q, x)
    decreases Depth(fs, q)
  {
    assert UpOk(fs.shape, c);
    if q != c {
      assert UpOk(fs.shape, q);
      UnderTrans(fs, fs.shape.up[q], c, x);
    }
  }

  /** What is strictly below `x` is below one of its children. */
  lemma {:induction false} UnderChild(fs: Fs, q: Ptr, x: Ptr) returns (c: Ptr)
    requires Wf(fs) && Under(fs, q, x) && q != x
    ensures c in fs.shape.up && fs.shape.up[c] == x && Under(fs, q, c)
    ensures x in fs.shape.kids && c in fs.shape.kids[x]
    decreases Depth(fs, q)
  {
    assert UpOk(fs.shape, q);
    if fs.shape.up[q] == x {
      c := q;
    } else {
      c := UnderChild(fs, fs.shape.up[q], x);
    }
  }

  ghost function Kids(fs: Fs, x: Ptr): seq<Ptr> {
    if x in fs.shape.kids then fs.shape.kids[x] else []
  }

  lemma SiblingDepth(fs: Fs, d: Ptr, i: nat, j: nat)
    requires Wf(fs) && d in fs.shape.kids && i < |fs.shape.kids[d]| && j < |fs.shape.kids[d]|
    ensures Depth(fs, fs.shape.kids[d][i]) == Depth(fs, fs.shape.kids[d][j])
    ensures i != j ==> fs.shape.kids[d][i] != fs.shape.kids[d][j]
    ensures fs.shape.kids[d][i] in fs.shape.up && fs.shape.up[fs.shape.kids[d][i]] == d
  {
    assert DirOk(fs, d);
    assert UpOk(fs.shape, fs.shape.kids[d][i]) && UpOk(fs.shape, fs.shape.kids[d][j]);
  }

  /** A node in the subtrees of `x` and of a later sibling of `x` cannot exist. */
  lemma ForestApart(fs: Fs, d: Ptr, i: nat, q: Ptr)
    requires Wf(fs) && d in fs.shape.kids && i < |fs.shape.kids[d]| && Under(fs, q, fs.shape.kids[d][i])
    ensures q !in Forest(fs, fs.shape.kids[d][i + 1..])
  {
    var s := fs.shape.kids[d];
    if q in Forest(fs, s[i + 1..]) {
      var j :| 0 <= j < |s[i + 1..]| && Under(fs, q, s[i + 1..][j]);
      SiblingDepth(fs, d, i, i + 1 + j);
      UnderUnique(fs, q, s[i], s[i + 1 + j]);
    }
  }

  /** The subtree of `x` is `x` and the forest of its children. */
  lemma SubtreeIsForest(fs: Fs, x: Ptr, q: Ptr)
    requires Wf(fs) && x in fs.shape.up
    ensures Under(fs, q, x) <==> q == x || q in Forest(fs, Kids(fs, x))
    ensures x !in Forest(fs, Kids(fs, x))
  {
    var s := Kids(fs, x);
    if Under(fs, q, x) && q != x {
      var c := UnderChild(fs, q, x);
      var i :| 0 <= i < |s| && s[i] == c;
      assert Under(fs, q, s[i]);
    }
    if q in Forest(fs, s) {
      var i :| 0 <= i < |s| && Under(fs, q, s[i]);
      SiblingDepth(fs, x, i, i);
      UnderTrans(fs, q, s[i], x);
    }
    if x in Forest(fs, s) {
      var i :| 0 <= i < |s| && Under(fs, x, s[i]);
      SiblingDepth(fs, x, i, i);
      assert UpOk(fs.shape, s[i]);
      UnderDepth(fs, x, s[i]);
    }
  }

  /**
   What `ramfs_inter_deleteNode` visits from entry `i` of `d`: the entry itself, the
   forest of its children and the forest of its later siblings, three disjoint sets.
   */
  lemma ForestSplit(fs: Fs, d: Ptr, i: nat)
    requires Wf(fs) && d in fs.shape.kids && i < |fs.shape.kids[d]|
    ensures var s := fs.shape.kids[d]; var x := s[i];
            && Forest(fs, s[i..]) == {x} + Forest(fs, Kids(fs, x)) + Forest(fs, s[i + 1..])
            && x !in Forest(fs, Kids(fs, x)) && x !in Forest(fs, s[i + 1..])
            && Forest(fs, Kids(fs, x)) !! Forest(fs, s[i + 1..])
  {
    var s := fs.shape.kids[d];
    var x := s[i];
    SiblingDepth(fs, d, i, i);
    forall q
      ensures Under(fs, q, x) <==> q == x || q in Forest(fs, Kids(fs, x))
      ensures x !in Forest(fs, Kids(fs, x))
    {
      SubtreeIsForest(fs, x, q);
    }
    forall q | Under(fs, q, x) ensures q !in Forest(fs, s[i + 1..]) {
      ForestApart(fs, d, i, q);
    }
    ForestHead(fs, s, i);
  }

  lemma ForestHead(fs: Fs, s: seq<Ptr>, i: nat)
    requires Wf(fs) && i < |s|
    ensures forall q <- fs.shape.up.Keys :: q in Forest(fs, s[i..]) <==> Under(fs, q, s[i]) || q in Forest(fs, s[i + 1..])
  {
    forall q | q in fs.shape.up.Keys
      ensures q in Forest(fs, s[i..]) <==> Under(fs, q, s[i]) || q in Forest(fs, s[i + 1..])
    {
      if q in Forest(fs, s[i..]) {
        var j :| 0 <= j < |s[i..]| && Under(fs, q, s[i..][j]);
        assert j > 0 ==> s[i..][j] == s[i + 1..][j - 1];
      }
      if q in Forest(fs, s[i + 1..]) {
        var j :| 0 <= j < |s[i + 1..]| && Under(fs, q, s[i + 1..][j]);
        assert s[i..][j + 1] == s[i + 1..][j];
      }
      if Under(fs, q, s[i]) {
        assert s[i..][0] == s[i];
      }
    }
  }

  // ----- What deletion leaves -----

  /** Memory with entry `i` of directory `d` taken out of the list. */
  ghost function Relinked(fs: Fs, d: Ptr, i: nat): Memory
    requires Wf(fs) && d in fs.shape.kids && i < |fs.shape.kids[d]|
  {
    var s := fs.shape.kids[d];
    assert DirOk(fs, d);
    if i > 0 then fs.mem[s[i - 1] := fs.mem[s[i - 1]].(next := After(s, i))]
    else fs.mem[d := fs.mem[d].(children := After(s, i))]
  }

  /** Memory after `ramfs_deleteNode` of entry `i` of directory `d`. */
  ghost function Unlinked(fs: Fs, d: Ptr, i: nat): Memory
    requires Wf(fs) && d in fs.shape.kids && i < |fs.shape.kids[d]|
  {
    Relinked(fs, d, i) - Forest(fs, fs.shape.kids[d][i..])
  }

  /** The tree without the last entry `x` of directory `d`. */
  ghost function Removed(fs: Fs, d: Ptr): Fs
    requires Wf(fs) && d in fs.shape.kids && |fs.shape.kids[d]| >= 3
  {
    var s := fs.shape.kids[d];
    var n := |s| - 1;
    var gone := Forest(fs, s[n..]);
    Fs(Unlinked(fs, d, n), fs.root,
       Shape((fs.shape.kids - gone)[d := s[..n]], fs.shape.up - gone, fs.shape.depth - gone))
  }

  lemma ForestOfOne(fs: Fs, s: seq<Ptr>, q: Ptr)
    requires Wf(fs) && s != []
    ensures q in Forest(fs, s[|s| - 1..]) <==> q in fs.shape.up && Under(fs, q, s[|s| - 1])
  {
    assert s[|s| - 1..] == [s[|s| - 1]];
    assert s[|s| - 1..][0] == s[|s| - 1];
  }

  /** An entry of a kept directory is kept, except the deleted entry itself. */
  lemma KeptEntries(fs: Fs, d: Ptr, e: Ptr, y: Ptr)
    requires Wf(fs) && d in fs.shape.kids && |fs.shape.kids[d]| >= 3
    requires e in fs.shape.kids && y in fs.shape.kids[e] && y != LastEntry(fs, d)
    requires e !in Forest(fs, fs.shape.kids[d][|fs.shape.kids[d]| - 1..])
    ensures y !in Forest(fs, fs.shape.kids[d][|fs.shape.kids[d]| - 1..])
  {
    var s := fs.shape.kids[d];
    assert DirOk(fs, e);
    assert UpOk(fs.shape, y);
    ForestOfOne(fs, s, y);
    ForestOfOne(fs, s, e);
    SiblingDepth(fs, d, |s| - 1, |s| - 1);
  }

  lemma DirectoryKept(fs: Fs, d: Ptr)
    requires Wf(fs) && d in fs.shape.kids && |fs.shape.kids[d]| >= 3
    ensures d !in Forest(fs, fs.shape.kids[d][|fs.shape.kids[d]| - 1..])
  {
    var s := fs.shape.kids[d];
    ForestOfOne(fs, s, d);
    SiblingDepth(fs, d, |s| - 1, |s| - 1);
    assert UpOk(fs.shape, s[|s| - 1]);
    if Under(fs, d, s[|s| - 1]) {
      UnderDepth(fs, d, s[|s| - 1]);
    }
  }

  lemma ChainDropLast(mem: Memory, mem': Memory, head: Ptr, s: seq<Ptr>)
    requires Chain(mem, head, s) && Distinct(s) && |s| >= 2
    requires forall x <- s[..|s| - 1] :: x in mem' && mem'[x] == mem[x].(next := if x == s[|s| - 2] then NULL else mem[x].next)
    ensures Chain(mem', head, s[..|s| - 1])
  {
    var s' := s[..|s| - 1];
    forall i | 0 <= i < |s'| ensures s'[i] in mem' && mem'[s'[i]].next == After(s', i) {
      assert s'[i] == s[i] && s'[i] in s';
      assert mem[s[i]].next == After(s, i);
    }
  }

  lemma NamesDropLast(mem: Memory, mem': Memory, s: seq<Ptr>)
    requires UniqueNames(mem, s) && s != []
    requires forall x <- s[..|s| - 1] :: x in mem' && mem'[x].name == mem[x].name
    ensures UniqueNames(mem', s[..|s| - 1])
  {
    var s' := s[..|s| - 1];
    assert forall i :: 0 <= i < |s'| ==> s'[i] == s[i] && s'[i] in s';
  }

  lemma DirOkDropLast(fs: Fs, fs': Fs, d: Ptr)
    requires d in fs.shape.kids && DirOk(fs, d) && |fs.shape.kids[d]| >= 3
    requires var s := fs.shape.kids[d]; d in fs'.shape.kids && fs'.shape.kids[d] == s[..|s| - 1]
    requires d in fs'.mem && fs'.mem[d].ftype == Directory && fs'.mem[d].children == fs.mem[d].children
    requires ParentOf(fs', d) == ParentOf(fs, d)
    requires var s := fs.shape.kids[d];
             forall x <- s[..|s| - 1] :: x in fs'.mem && fs'.mem[x] == fs.mem[x].(next := if x == s[|s| - 2] then NULL else fs.mem[x].next)
    requires forall x <- fs'.shape.kids[d] :: x in fs'.shape.up && fs'.shape.up[x] == d
    requires forall x <- fs'.shape.kids[d] :: x in fs'.shape.kids <==> x in fs.shape.kids
    ensures DirOk(fs', d)
  {
    var s := fs.shape.kids[d];
    var s' := fs'.shape.kids[d];
    ChainDropLast(fs.mem, fs'.mem, fs.mem[d].children, s);
    NamesDropLast(fs.mem, fs'.mem, s);
    forall i | 2 <= i < |s'| ensures Ordinary(fs'.mem, fs'.shape, s'[i]) {
      assert s'[i] == s[i] && s'[i] in s';
      assert Ordinary(fs.mem, fs.shape, s[i]);
    }
    assert s'[0] == s[0] && s'[1] == s[1] && s'[0] in s' && s'[1] in s';
    forall i | 0 <= i < |s'| ensures Fits(fs'.mem[s'[i]].name) {
      assert s'[i] == s[i] && s'[i] in s';
    }
  }

  lemma RemovedDir(fs: Fs, d: Ptr, e: Ptr)
    requires Wf(fs) && d in fs.shape.kids && |fs.shape.kids[d]| >= 3
    requires e in Removed(fs, d).shape.kids
    ensures DirOk(Removed(fs, d), e)
  {
    DirectoryKept(fs, d);
    if e == d {
      RemovedFrom(fs, d);
    } else {
      RemovedElsewhere(fs, d, e);
    }
  }

  lemma RemovedFrom(fs: Fs, d: Ptr)
    requires Wf(fs) && d in fs.shape.kids && |fs.shape.kids[d]| >= 3
    ensures DirOk(Removed(fs, d), d)
  {
    var s := fs.shape.kids[d];
    var n := |s| - 1;
    DirectoryKept(fs, d);
    assert DirOk(fs, d);
    forall y | y in s[..n] ensures y in s && y != s[n] && y !in Forest(fs, s[n..]) {
      KeptEntries(fs, d, d, y);
    }
    DirOkDropLast(fs, Removed(fs, d), d);
  }

  lemma RemovedElsewhere(fs: Fs, d: Ptr, e: Ptr)
    requires Wf(fs) && d in fs.shape.kids && |fs.shape.kids[d]| >= 3
    requires e in Removed(fs, d).shape.kids && e != d
    ensures DirOk(Removed(fs, d), e)
  {
    var s := fs.shape.kids[d];
    var n := |s| - 1;
    assert DirOk(fs, e) && DirOk(fs, d);
    forall y | y in fs.shape.kids[e] ensures y != s[n] && y != s[n - 1] && y !in Forest(fs, s[n..]) {
      if y in s { EntriesApart(fs, d, e, y); }
      KeptEntries(fs, d, e, y);
    }
    DirOkFrame(fs, Removed(fs, d), e);
  }

  lemma RemovedUp(fs: Fs, d: Ptr, y: Ptr)
    requires Wf(fs) && d in fs.shape.kids && |fs.shape.kids[d]| >= 3
    requires y in Removed(fs, d).shape.up
    ensures UpOk(Removed(fs, d).shape, y)
  {
    var s := fs.shape.kids[d];
    var n := |s| - 1;
    assert UpOk(fs.shape, y);
    var e := fs.shape.up[y];
    ForestOfOne(fs, s, y);
    ForestOfOne(fs, s, e);
    DirectoryKept(fs, d);
    if e == d {
      var i := EntryIndex(fs, y);
      SiblingDepth(fs, d, n, n);
      assert i != n;
      assert s[..n][i] == y;
    }
  }

  lemma RootKept(fs: Fs, s: seq<Ptr>)
    requires Wf(fs)
    ensures fs.root !in Forest(fs, s)
  {}

  /** Taking the last entry and everything below it away keeps the tree well formed. */
  lemma RemovedWf(fs: Fs, d: Ptr)
    requires Wf(fs) && d in fs.shape.kids && |fs.shape.kids[d]| >= 3
    ensures Wf(Removed(fs, d))
  {
    var fs' := Removed(fs, d);
    RootKept(fs, fs.shape.kids[d][|fs.shape.kids[d]| - 1..]);
    DirectoryKept(fs, d);
    RemovedNull(fs, d);
    RemovedAll(fs, d);
  }

  lemma RemovedNull(fs: Fs, d: Ptr)
    requires Wf(fs) && d in fs.shape.kids && |fs.shape.kids[d]| >= 3
    ensures NULL !in Removed(fs, d).mem
  {
    assert DirOk(fs, d);
  }

  lemma RemovedAll(fs: Fs, d: Ptr)
    requires Wf(fs) && d in fs.shape.kids && |fs.shape.kids[d]| >= 3
    ensures var fs' := Removed(fs, d); forall e {:trigger DirOk(fs', e)} :: e in fs'.shape.kids ==> DirOk(fs', e)
    ensures var sh' := Removed(fs, d).shape; forall y {:trigger UpOk(sh', y)} :: y in sh'.up ==> UpOk(sh', y)
  {
    var fs' := Removed(fs, d);
    forall e | e in fs'.shape.kids ensures DirOk(fs', e) {
      RemovedDir(fs, d, e);
    }
    forall y | y in fs'.shape.up ensures UpOk(fs'.shape, y) {
      RemovedUp(fs, d, y);
    }
  }

  /** The tree before a deletion is the tree after it plus one entry. */
  lemma RemovedExtends(fs: Fs, d: Ptr)
    requires Wf(fs) && d in fs.shape.kids && |fs.shape.kids[d]| >= 3
    ensures Extends(Removed(fs, d), fs, d, LastEntry(fs, d))
    ensures Removed(fs, d).mem.Keys == fs.mem.Keys - Forest(fs, [LastEntry(fs, d)])
  {
    RemovedWf(fs, d);
    var lo := Removed(fs, d);
    var s := fs.shape.kids[d];
    var n := |s| - 1;
    assert s[n..] == [s[n]];
    assert s == s[..n] + [s[n]];
    SiblingDepth(fs, d, n, n);
    ForestOfOne(fs, s, s[n]);
    RootKept(fs, s[n..]);
    TreeNodesAllocated(fs);
    assert TreeNodes(lo) == TreeNodes(fs) - Forest(fs, s[n..]);
    assert s[n - 1] in fs.mem by { assert DirOk(fs, d); }
    DirectoryKept(fs, d);
    forall q | q in TreeNodes(lo) ensures SameNode(lo, fs, q) {}
  }

  /** In a well-formed tree the `next` pointer of an entry is NULL or allocated. */
  lemma NextAllocated(fs: Fs, x: Ptr)
    requires Wf(fs) && x in fs.shape.up
    ensures x in fs.mem && (fs.mem[x].next == NULL || fs.mem[x].next in fs.mem)
  {
    var i := EntryIndex(fs, x);
    assert DirOk(fs, fs.shape.up[x]);
    assert fs.mem[x].next == After(fs.shape.kids[fs.shape.up[x]], i);
  }

  // ----- Deleting an entry that has later siblings -----

  /** Memory determines a sibling list: as far as the pointers are the same, so are the lists. */
  lemma {:induction false} ChainDetermined(mem: Memory, mem': Memory, head: Ptr, s: seq<Ptr>, s': seq<Ptr>, k: nat)
    requires NULL !in mem && Chain(mem, head, s) && Chain(mem', head, s') && k <= |s|
    requires forall j :: 0 <= j < k - 1 ==> s[j] in mem' && mem'[s[j]].next == mem[s[j]].next
    ensures k <= |s'| && s'[..k] == s[..k]
    decreases k
  {
    if k >= 2 {
      ChainDetermined(mem, mem', head, s, s', k - 1);
      assert s'[k - 2] == s'[..k - 1][k - 2] == s[k - 2];
      assert mem'[s'[k - 2]].next == After(s', k - 2) && mem[s[k - 2]].next == After(s, k - 2);
      assert s[k - 1] in mem;
    } else if k == 1 {
      assert s[0] in mem;
    }
  }

  /** Deletion below `d` leaves everything that is no deeper than `d` as it was. */
  lemma ShallowKept(fs: Fs, d: Ptr, i: nat, y: Ptr)
    requires Wf(fs) && d in fs.shape.kids && 0 < i < |fs.shape.kids[d]|
    requires y in TreeNodes(fs) && Depth(fs, y) <= Depth(fs, d)
    ensures y in Unlinked(fs, d, i) && y in fs.mem && Unlinked(fs, d, i)[y] == fs.mem[y]
  {
    var s := fs.shape.kids[d];
    TreeNodesAllocated(fs);
    SiblingDepth(fs, d, i - 1, i);
    SiblingDepth(fs, d, i, i);
    assert UpOk(fs.shape, s[i]);
    if y in Forest(fs, s[i..]) {
      var j :| 0 <= j < |s[i..]| && Under(fs, y, s[i..][j]);
      SiblingDepth(fs, d, i + j, i);
      UnderDepth(fs, y, s[i + j]);
    }
  }

  /** The entries in front of the deleted one stay, and the last of them points past it. */
  lemma EarlierKept(fs: Fs, d: Ptr, i: nat, j: nat)
    requires Wf(fs) && d in fs.shape.kids && j < i < |fs.shape.kids[d]|
    ensures var s := fs.shape.kids[d]; var mem' := Unlinked(fs, d, i);
            && s[j] in fs.mem && s[j] in mem'
            && mem'[s[j]].next == if j == i - 1 then After(s, i) else fs.mem[s[j]].next
  {
    var s := fs.shape.kids[d];
    assert DirOk(fs, d);
    SiblingDepth(fs, d, j, i - 1);
    if s[j] in Forest(fs, s[i..]) {
      var m :| 0 <= m < |s[i..]| && Under(fs, s[j], s[i..][m]);
      SiblingDepth(fs, d, j, i + m);
      UnderDepth(fs, s[j], s[i + m]);
    }
  }

  /** Whatever tree the memory forms after the deletion, it has the directories from the root down to `d`. */
  lemma {:induction false} PathKept(fs: Fs, d: Ptr, i: nat, sh: Shape, e: Ptr)
    requires Wf(fs) && d in fs.shape.kids && 0 < i < |fs.shape.kids[d]| && Wf(Fs(Unlinked(fs, d, i), fs.root, sh))
    requires e in fs.shape.kids && Under(fs, d, e)
    ensures e in sh.kids
    decreases Depth(fs, e)
  {
    if e != fs.root {
      var p := fs.shape.up[e];
      assert UpOk(fs.shape, e);
      UnderTrans(fs, d, e, p);
      PathKept(fs, d, i, sh, p);
      UnderDepth(fs, d, e);
      EntriesKept(fs, d, i, sh, p, e);
    }
  }

  /** A directory above `d` keeps its whole list. */
  lemma EntriesKept(fs: Fs, d: Ptr, i: nat, sh: Shape, p: Ptr, e: Ptr)
    requires Wf(fs) && d in fs.shape.kids && 0 < i < |fs.shape.kids[d]| && Wf(Fs(Unlinked(fs, d, i), fs.root, sh))
    requires p in fs.shape.kids && p in sh.kids && Depth(fs, p) < Depth(fs, d)
    requires e in fs.shape.kids && e in fs.shape.up && fs.shape.up[e] == p
    ensures e in sh.kids
  {
    var mem' := Unlinked(fs, d, i);
    var s, s' := fs.shape.kids[p], sh.kids[p];
    assert DirOk(fs, p) && DirOk(Fs(mem', fs.root, sh), p) && DirOk(fs, e);
    ShallowKept(fs, d, i, p);
    forall j | 0 <= j < |s| ensures s[j] in mem' && s[j] in fs.mem && mem'[s[j]] == fs.mem[s[j]] {
      SiblingDepth(fs, p, j, j);
      assert UpOk(fs.shape, s[j]);
      ShallowKept(fs, d, i, s[j]);
    }
    ChainDetermined(fs.mem, mem', fs.mem[p].children, s, s', |s|);
    var k := EntryIndex(fs, e);
    assert s'[..|s|][k] == s'[k] == e;
    EntryIsDirectory(fs, p, k);
    assert Ordinary(mem', sh, s'[k]);
  }

  /** Among the entries of a directory only ordinary ones are directories. */
  lemma EntryIsDirectory(fs: Fs, p: Ptr, k: nat)
    requires Wf(fs) && p in fs.shape.kids && k < |fs.shape.kids[p]| && fs.shape.kids[p][k] in fs.shape.kids
    ensures k >= 2
  {
    assert DirOk(fs, p) && DirOk(fs, fs.shape.kids[p][k]);
  }

  /** The entry in front of the deleted one is in every tree the memory may form. */
  lemma PreviousKept(fs: Fs, d: Ptr, i: nat, sh: Shape)
    requires Wf(fs) && d in fs.shape.kids && 0 < i < |fs.shape.kids[d]| && Wf(Fs(Unlinked(fs, d, i), fs.root, sh))
    ensures fs.shape.kids[d][i - 1] in sh.up
  {
    var mem' := Unlinked(fs, d, i);
    var s := fs.shape.kids[d];
    PathKept(fs, d, i, sh, d);
    assert DirOk(fs, d) && DirOk(Fs(mem', fs.root, sh), d);
    ShallowKept(fs, d, i, d);
    forall j | 0 <= j < i - 1 ensures s[j] in mem' && mem'[s[j]].next == fs.mem[s[j]].next {
      EarlierKept(fs, d, i, j);
    }
    ChainDetermined(fs.mem, mem', fs.mem[d].children, s, sh.kids[d], i);
    assert sh.kids[d][..i][i - 1] == s[i - 1];
  }

  /**
   Deleting an ordinary entry leaves a tree, of whatever shape, if and only if the entry
   has no later sibling: otherwise the siblings are freed too, and the entry in front
   keeps a pointer to the first of them.
   */
  lemma DeleteKeepsTreeIff(fs: Fs, d: Ptr, i: nat)
    requires Wf(fs) && d in fs.shape.kids && 2 <= i < |fs.shape.kids[d]|
    ensures (exists sh: Shape :: Wf(Fs(Unlinked(fs, d, i), fs.root, sh))) <==> i == |fs.shape.kids[d]| - 1
  {
    var s := fs.shape.kids[d];
    if i == |s| - 1 {
      RemovedWf(fs, d);
      assert Removed(fs, d) == Fs(Unlinked(fs, d, i), fs.root, Removed(fs, d).shape);
    } else {
      forall sh: Shape | Wf(Fs(Unlinked(fs, d, i), fs.root, sh)) ensures false {
        DanglingPointer(fs, d, i, sh);
      }
    }
  }

  /** The entry behind the deleted one is freed with it. */
  lemma NextFreed(fs: Fs, d: Ptr, i: nat)
    requires Wf(fs) && d in fs.shape.kids && 0 < i < |fs.shape.kids[d]| - 1
    ensures var x := fs.shape.kids[d][i + 1]; x != NULL && x !in Unlinked(fs, d, i)
  {
    var s := fs.shape.kids[d];
    assert DirOk(fs, d);
    SiblingDepth(fs, d, i + 1, i);
    assert Under(fs, s[i + 1], s[i + 1]) && s[i..][1] == s[i + 1];
    assert s[i + 1] in Forest(fs, s[i..]);
  }

  lemma DanglingPointer(fs: Fs, d: Ptr, i: nat, sh: Shape)
    requires Wf(fs) && d in fs.shape.kids && 0 < i < |fs.shape.kids[d]| && Wf(Fs(Unlinked(fs, d, i), fs.root, sh))
    ensures i == |fs.shape.kids[d]| - 1
  {
    PreviousKept(fs, d, i, sh);
    NextAllocated(Fs(Unlinked(fs, d, i), fs.root, sh), fs.shape.kids[d][i - 1]);
    EarlierKept(fs, d, i, i - 1);
    if i < |fs.shape.kids[d]| - 1 {
      NextFreed(fs, d, i);
    }
  }
}
