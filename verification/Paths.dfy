/**
 Path strings: the tokeniser `strtok_r`, the string primitives the path code uses,
 and the two path helpers `fs_getFileName` and `fs_getParentPath`.

 A C string is a `string` without NUL; a buffer is an `array<char>` that holds a NUL.
 A pointer into a buffer is an index, and the NULL pointer is -1.
 */
module Paths {
  import opened Basics

  const MAX_FNAME := 128
  const MAX_PATH := 255

  predicate SlashFree(s: string) {
    forall i :: 0 <= i < |s| ==> s[i] != '/'
  }

  /** The first `k` characters of `s` hold no slash. */
  predicate SlashFreeTo(s: string, k: nat)
    requires k <= |s|
  {
    forall i :: 0 <= i < k ==> s[i] != '/'
  }

  // ----- Reference tokeniser: the maximal non-slash runs of a path -----

  /** Length of the longest slash-free prefix. */
  function Run(p: string): (k: nat)
    ensures k <= |p| && SlashFreeTo(p, k)
    ensures k < |p| ==> p[k] == '/'
  {
    if p == "" || p[0] == '/' then 0 else 1 + Run(p[1..])
  }

  function Tokens(p: string): seq<string>
    decreases |p|
  {
    if p == "" then []
    else if p[0] == '/' then Tokens(p[1..])
    else
      var k := Run(p);
      assert k > 0;
      [p[..k]] + Tokens(p[k..])
  }

  lemma RunUnique(p: string, k: nat)
    requires k <= |p| && SlashFreeTo(p, k) && (k < |p| ==> p[k] == '/')
    ensures Run(p) == k
  {}

  /** Every token is non-empty, slash-free and, for a C string, NUL-free. */
  lemma {:induction false} TokensShape(p: string)
    ensures forall t <- Tokens(p) :: t != "" && SlashFree(t) && (CString(p) ==> CString(t))
    decreases |p|
  {
    if p != "" {
      if p[0] == '/' {
        TokensShape(p[1..]);
      } else {
        TokensShape(p[Run(p)..]);
      }
    }
  }

  /** A slash separates: the tokens of `a/b` are those of `a` followed by those of `b`. */
  lemma {:induction false} TokensJoin(a: string, b: string)
    ensures Tokens(a + "/" + b) == Tokens(a) + Tokens(b)
    decreases |a|
  {
    var p := a + "/" + b;
    if a == "" {
      assert p[1..] == b;
    } else if a[0] == '/' {
      assert p[1..] == a[1..] + "/" + b;
      TokensJoin(a[1..], b);
    } else {
      var k := Run(a);
      assert p[..k] == a[..k];
      RunUnique(p, k);
      assert p[k..] == a[k..] + "/" + b;
      TokensJoin(a[k..], b);
    }
  }

  /** A slash-free non-empty string is its own only token. */
  lemma TokensOfName(name: string)
    requires name != "" && SlashFree(name)
    ensures Tokens(name) == [name]
  {
    assert name[..|name|] == name;
    RunUnique(name, |name|);
    assert name[|name|..] == "";
  }

  lemma TokensTrailingSlash(p: string)
    ensures Tokens(p + "/") == Tokens(p)
  {
    TokensJoin(p, "");
    assert p + "/" + "" == p + "/";
  }

  /** Cutting a path short never yields more tokens. */
  lemma {:induction false} TokensPrefixCount(a: string, b: string)
    ensures |Tokens(a)| <= |Tokens(a + b)|
    decreases |a|
  {
    var p := a + b;
    if a == "" {
    } else if a[0] == '/' {
      assert p[1..] == a[1..] + b;
      TokensPrefixCount(a[1..], b);
    } else {
      var k := Run(a);
      if k == |a| {
        assert a[k..] == "";
      } else {
        assert p[..k] == a[..k];
        RunUnique(p, k);
        assert p[k..] == a[k..] + b;
        TokensPrefixCount(a[k..], b);
      }
    }
  }

  // ----- strtok_r with the delimiter "/" -----

  /** `buf` holds a NUL-terminated string from `start`, whose NUL is at `z`. */
  ghost predicate Terminated(buf: array<char>, start: int, z: int)
    reads buf
  {
    0 <= start <= z < buf.Length && buf[z] == NUL && CString(buf[start..z])
  }

  /** The first loop of `strtok_r`: move past leading delimiters. */
  method SkipDelimiters(buf: array<char>, start: int, ghost z: int) returns (token: int)
    requires Terminated(buf, start, z)
    ensures start <= token <= z && Tokens(buf[token..z]) == Tokens(buf[start..z])
    ensures buf[token] != '/' && Terminated(buf, token, z)
  {
    token := start;
    while buf[token] == '/'
      invariant Terminated(buf, token, z) && start <= token && Tokens(buf[token..z]) == Tokens(buf[start..z])
      decreases z - token
    {
      TokensSkip(buf[token..z]);
      assert buf[token + 1..z] == buf[token..z][1..];
      token := token + 1;
    }
  }

  lemma TokensSkip(s: string)
    requires s != "" && s[0] == '/'
    ensures Tokens(s) == Tokens(s[1..])
  {}

  /** The second loop of `strtok_r`: measure the run that starts at `token`. */
  method TokenLength(buf: array<char>, token: int, ghost z: int) returns (count: nat)
    requires Terminated(buf, token, z)
    ensures token + count <= z && count == Run(buf[token..z])
    ensures token + count < z <==> buf[token + count] == '/'
  {
    count := 0;
    ghost var rest := buf[token..z];
    while buf[token + count] != '/' && buf[token + count] != NUL
      invariant token + count <= z && SlashFreeTo(rest, count)
      decreases z - token - count
    {
      assert buf[token + count] == rest[count];
      count := count + 1;
    }
    if token + count < z {
      assert rest[count] == buf[token + count];
    }
    RunUnique(rest, count);
  }

  /** `rest` with its first run taken off: what `strtok_r` splits into token and remainder. */
  lemma TokensSplit(rest: string, k: nat)
    requires k == Run(rest) && (rest != "" ==> rest[0] != '/')
    ensures k == 0 <==> Tokens(rest) == []
    ensures k > 0 ==> Tokens(rest)[0] == rest[..k]
    ensures k > 0 && k == |rest| ==> Tokens(rest)[1..] == []
    ensures 0 < k < |rest| ==> Tokens(rest)[1..] == Tokens(rest[k + 1..])
  {
    if 0 < k < |rest| {
      assert rest[k..][1..] == rest[k + 1..];
    }
  }

  /**
   One call of `strtok_r(str, "/", &save)`, both pointers as indices. The token that
   comes back is the first maximal run of what was left, it is cut off by a NUL written
   in place, and what is left for the next call is exactly the remaining runs.
   */
  method Strtok(buf: array<char>, str: int, save: int, ghost z: int)
    returns (token: int, save': int, ghost end: int)
    requires str != -1 ==> Terminated(buf, str, z)
    requires str == -1 && save != -1 ==> Terminated(buf, save, z)
    modifies buf
    ensures str == -1 && save == -1 ==> token == -1
    ensures token == -1 ==> save' == -1
    ensures str != -1 || save != -1 ==>
              var todo := Tokens(old(buf[(if str != -1 then str else save)..z]));
              && (token == -1 <==> todo == [])
              && (token != -1 ==>
                    && Terminated(buf, token, end) && buf[token..end] == todo[0]
                    && (save' == -1 ==> todo[1..] == [])
                    && (save' != -1 ==>
                          Terminated(buf, save', z) && Tokens(buf[save'..z]) == todo[1..]))
  {
    token, save', end := -1, save, 0;
    if str != -1 || save != -1 {
      token := SkipDelimiters(buf, if str != -1 then str else save, z);
      token, save', end := CutToken(buf, token, z);
    }
  }

  /** The end of `strtok_r`: cut the run at `start` off and remember what follows it. */
  method CutToken(buf: array<char>, start: int, ghost z: int) returns (token: int, save': int, ghost end: int)
    requires Terminated(buf, start, z) && buf[start] != '/'
    modifies buf
    ensures var todo := Tokens(old(buf[start..z]));
            && (token == -1 <==> todo == [])
            && (token == -1 ==> save' == -1)
            && (token != -1 ==>
                  && Terminated(buf, token, end) && buf[token..end] == todo[0]
                  && (save' == -1 ==> todo[1..] == [])
                  && (save' != -1 ==>
                        Terminated(buf, save', z) && Tokens(buf[save'..z]) == todo[1..]))
  {
    token := start;
    var count := TokenLength(buf, token, z);
    ghost var rest := buf[token..z];
    assert rest != "" ==> rest[0] == buf[token];
    TokensSplit(rest, count);
    end := token + count;
    assert buf[token..end] == rest[..count];
    if buf[token + count] != NUL {
      save' := token + count + 1;
      buf[token + count] := NUL;
      assert buf[save'..z] == rest[count + 1..];
      assert buf[token..end] == rest[..count];
    } else {
      save' := -1;
      if buf[token] == NUL {
        token := -1;
      }
    }
  }

  /** A tokenising loop that has passed `done` of the tokens `all` and stands at the next one, if any. */
  ghost predicate AtToken(buf: array<char>, token: int, save: int, end: int, z: int, all: seq<string>, done: nat)
    reads buf
  {
    && done <= |all| && (token == -1 <==> done == |all|)
    && (token != -1 ==> Terminated(buf, token, end) && buf[token..end] == all[done])
    && (token != -1 && save == -1 ==> done + 1 == |all|)
    && (token != -1 && save != -1 ==> Terminated(buf, save, z) && Tokens(buf[save..z]) == all[done + 1..])
  }

  /** The first call of `strtok_r` on a buffer. */
  method FirstToken(buf: array<char>, ghost z: int) returns (token: int, save: int, ghost end: int)
    requires Terminated(buf, 0, z)
    modifies buf
    ensures AtToken(buf, token, save, end, z, Tokens(old(buf[0..z])), 0)
  {
    token, save, end := Strtok(buf, 0, -1, z);
  }

  /** A later call, with NULL for the string. */
  method NextToken(buf: array<char>, save: int, ghost token: int, ghost end: int, ghost z: int, ghost all: seq<string>, ghost done: nat)
    returns (token': int, save': int, ghost end': int)
    requires AtToken(buf, token, save, end, z, all, done) && token != -1
    modifies buf
    ensures AtToken(buf, token', save', end', z, all, done + 1)
  {
    token', save', end' := Strtok(buf, -1, save, z);
  }

  // ----- strncpy and strncmp, as the path code uses them -----

  /** `strncpy(buf, src, buf.Length)` for a source that fits with its NUL. */
  method Strncpy(buf: array<char>, src: string)
    requires CString(src) && |src| < buf.Length
    modifies buf
    ensures buf[..|src|] == src && Terminated(buf, 0, |src|)
  {
    var i := 0;
    while i < buf.Length && i < |src|
      invariant 0 <= i <= |src| && buf[..i] == src[..i]
    {
      buf[i] := src[i];
      i := i + 1;
    }
    if i < buf.Length {
      buf[i] := NUL;
    }
    assert buf[..|src|] == src;
  }

  function Clip(s: string, n: nat): string { if |s| <= n then s else s[..n] }

  /** `strncmp` compares n + 1 characters, one more than its bound; strings of at most n characters are told apart. */
  method Strncmp(s1: string, s2: string, n: nat) returns (r: int)
    requires CString(s1) && CString(s2)
    ensures r == 0 <==> Clip(s1, n + 1) == Clip(s2, n + 1)
    ensures |s1| <= n ==> (r == 0 <==> s1 == s2)
  {
    var i := 0;
    while At(s1, i) != NUL && At(s1, i) == At(s2, i) && n - i > 0
      invariant i <= |s1| && i <= |s2| && i <= n && s1[..i] == s2[..i]
      decreases |s1| - i
    {
      i := i + 1;
    }
    r := At(s1, i) as int - At(s2, i) as int;
    ghost var t1, t2 := Clip(s1, n + 1), Clip(s2, n + 1);
    if r == 0 {
      if At(s1, i) == NUL {
        assert i == |s1| == |s2|;
      } else {
        assert i == n && t1 == s1[..i] + [s1[i]] && t2 == s2[..i] + [s2[i]];
      }
    } else {
      assert i < |t1| || i < |t2|;
      assert i < |t1| ==> t1[i] == s1[i];
      assert i < |t2| ==> t2[i] == s2[i];
    }
  }

  // ----- fs_checkFileName -----

  ghost predicate NameOk(name: string) {
    name != "." && name != ".." && SlashFree(name)
  }

  method CheckFileName(name: string) returns (ok: bool)
    requires CString(name) && |name| < MAX_FNAME
    ensures ok <==> NameOk(name)
  {
    var dot := Strncmp(name, ".", MAX_FNAME);
    if dot == 0 { return false; }
    var dotdot := Strncmp(name, "..", MAX_FNAME);
    if dotdot == 0 { return false; }
    var k := 0;
    while k < |name|
      invariant 0 <= k <= |name| && SlashFree(name[..k])
    {
      if name[k] == '/' { return false; }
      k := k + 1;
    }
    assert name[..k] == name;
    return true;
  }

  // ----- fs_getFileName and fs_getParentPath -----

  function RemoveLastSlash(p: string): string
    requires p != ""
  {
    if p[|p| - 1] == '/' then p[..|p| - 1] else p
  }

  lemma RemoveLastSlashTokens(p: string)
    requires p != ""
    ensures Tokens(RemoveLastSlash(p)) == Tokens(p)
  {
    if p[|p| - 1] == '/' {
      TokensTrailingSlash(p[..|p| - 1]);
      assert p == p[..|p| - 1] + "/";
    }
  }

  /** The file name of a path is its last token. */
  method GetFileName(filePath: string) returns (name: Option<string>)
    requires CString(filePath) && 0 < |filePath| < MAX_FNAME
    ensures var ts := Tokens(filePath); name == if ts == [] then None else Some(ts[|ts| - 1])
  {
    RemoveLastSlashTokens(filePath);
    var cut := RemoveLastSlash(filePath);
    var intPath := new char[MAX_FNAME];
    Strncpy(intPath, cut);
    ghost var z := |cut|;
    assert intPath[0..z] == cut;
    name := LastToken(intPath, z);
  }

  /** The loop of `fs_getFileName`: the token in front of the one that is not there. */
  method LastToken(buf: array<char>, ghost z: int) returns (name: Option<string>)
    requires Terminated(buf, 0, z)
    modifies buf
    ensures var ts := Tokens(old(buf[0..z])); name == if ts == [] then None else Some(ts[|ts| - 1])
  {
    ghost var all := Tokens(buf[0..z]);
    var token, save, end := FirstToken(buf, z);
    name := None;
    ghost var done := 0;
    while token != -1
      invariant AtToken(buf, token, save, end, z, all, done)
      invariant name == if done == 0 then None else Some(all[done - 1])
      decreases |all| - done
    {
      var t := ReadString(buf, token, end);
      assert t == all[done];
      name := Some(t);
      token, save, end := NextToken(buf, save, token, end, z, all, done);
      done := done + 1;
    }
  }

  /** The C string that starts at `start`; the ghost `end` is where its NUL sits. */
  function ReadString(buf: array<char>, start: int, ghost end: int): (s: string)
    requires Terminated(buf, start, end)
    reads buf
    ensures s == buf[start..end]
    decreases end - start
  {
    if buf[start] == NUL then
      ""
    else
      assert buf[start + 1..end] == buf[start..end][1..];
      [buf[start]] + ReadString(buf, start + 1, end)
  }

  /** What `fs_getParentPath` computes, as a function of the path and its file name. */
  function ParentPath(p: string, nameLen: nat): (r: string)
    requires p != "" && nameLen < |RemoveLastSlash(p)|
  {
    var intPath := RemoveLastSlash(p);
    var cut := intPath[..|intPath| - nameLen];
    if |cut| != 1 then RemoveLastSlash(cut) else cut
  }

  function LastName(p: string): (name: string)
    requires Tokens(p) != []
    ensures name in Tokens(p)
  {
    Tokens(p)[|Tokens(p)| - 1]
  }

  /** Where the part behind the last slash starts. */
  function NameStart(p: string): (k: nat)
    ensures k <= |p| && SlashFree(p[k..]) && (k > 0 ==> p[k - 1] == '/')
  {
    if p == "" || p[|p| - 1] == '/' then |p|
    else
      var k := NameStart(p[..|p| - 1]);
      assert p[k..] == p[..|p| - 1][k..] + [p[|p| - 1]];
      k
  }

  /** A name behind a slash, or on its own, is the last token. */
  lemma TokensAppendName(head: string, name: string)
    requires head == "" || head[|head| - 1] == '/'
    requires name != "" && SlashFree(name)
    ensures Tokens(head + name) == Tokens(head) + [name]
  {
    TokensOfName(name);
    if head == "" {
      assert head + name == name;
    } else {
      var h := head[..|head| - 1];
      assert head == h + "/";
      TokensJoin(h, name);
      TokensTrailingSlash(h);
    }
  }

  /** A path that does not end in a slash ends in its last token, behind a slash if anything. */
  lemma LastTokenIsSuffix(p: string)
    requires p != "" && p[|p| - 1] != '/'
    ensures Tokens(p) != []
    ensures var k := NameStart(p);
            k < |p| && p[k..] == LastName(p) && Tokens(p[..k]) == Tokens(p)[..|Tokens(p)| - 1]
  {
    var k := NameStart(p);
    var head, name := p[..k], p[k..];
    TokensAppendName(head, name);
    assert p == head + name;
    assert Tokens(p) == Tokens(head) + [name];
  }

  /** There is a slash beside the optional one at the end, as in every absolute path but "/". */
  predicate HasParent(p: string)
    requires p != ""
  {
    !SlashFree(RemoveLastSlash(p))
  }

  /** The last token takes up a whole path exactly when the path holds no slash. */
  lemma {:induction false} NameShorterThanPath(p: string)
    requires Tokens(p) != []
    ensures LastName(p) != "" && |LastName(p)| <= |p|
    ensures |LastName(p)| < |p| <==> !SlashFree(p)
    decreases |p|
  {
    TokensShape(p);
    if SlashFree(p) {
      TokensOfName(p);
    } else if p[0] == '/' {
      if SlashFree(p[1..]) {
        TokensOfName(p[1..]);
      } else {
        NameShorterThanPath(p[1..]);
      }
    } else if Tokens(p[Run(p)..]) != [] {
      NameShorterThanPath(p[Run(p)..]);
    }
  }

  /** True for a path such as "/a//": the trailing run of slashes is longer than one. */
  predicate EndsInDoubleSlash(p: string) {
    |p| >= 2 && p[|p| - 2] == '/' && p[|p| - 1] == '/'
  }

  /** Splits off a trailing run of slashes. */
  lemma {:induction false} TrimSlashes(q: string) returns (w: string)
    requires Tokens(q) != []
    ensures |w| <= |q| && q[..|w|] == w && w != "" && w[|w| - 1] != '/' && Tokens(w) == Tokens(q)
    ensures q[|q| - 1] == '/' ==> |w| < |q|
    decreases |q|
  {
    if q[|q| - 1] == '/' {
      RemoveLastSlashTokens(q);
      w := TrimSlashes(q[..|q| - 1]);
    } else {
      w := q;
    }
  }

  /**
   `fs_getParentPath` keeps exactly the leading components if and only if the path does
   not end in a doubled slash. (For "/dir//" it returns "/d".)
   */
  lemma ParentPathTokens(p: string)
    requires p != "" && Tokens(p) != [] && HasParent(p)
    ensures |LastName(p)| < |RemoveLastSlash(p)|
    ensures var r := ParentPath(p, |LastName(p)|);
            && r != "" && r[0] == p[0]
            && (Tokens(r) == Tokens(p)[..|Tokens(p)| - 1] <==> !EndsInDoubleSlash(p))
  {
    TrimmedName(p);
    ParentOfTrimmed(p, RemoveLastSlash(p), |LastName(p)|, Tokens(p));
  }

  /** Without the optional slash at its end the path has the same last name, and more than that. */
  lemma TrimmedName(p: string)
    requires p != "" && Tokens(p) != [] && HasParent(p)
    ensures var q := RemoveLastSlash(p); Tokens(q) == Tokens(p) && |LastName(p)| < |q|
  {
    RemoveLastSlashTokens(p);
    NameShorterThanPath(RemoveLastSlash(p));
  }

  /** The same for the path `q` without its last slash. */
  lemma ParentOfTrimmed(p: string, q: string, m: nat, ts: seq<string>)
    requires p != "" && q == RemoveLastSlash(p) && ts == Tokens(q) && ts != [] && m == |LastName(q)| < |q|
    ensures var r := ParentPath(p, m);
            && r != "" && r[0] == p[0]
            && (Tokens(r) == ts[..|ts| - 1] <==> !EndsInDoubleSlash(p))
  {
    DoubleSlash(p);
    CutTokens(q);
    ParentPathCut(p, m);
  }

  lemma DoubleSlash(p: string)
    requires p != "" && RemoveLastSlash(p) != ""
    ensures var q := RemoveLastSlash(p); EndsInDoubleSlash(p) <==> q[|q| - 1] == '/'
  {}

  /** The last, optional removal of a slash changes neither the tokens nor the first slash. */
  lemma ParentPathCut(p: string, m: nat)
    requires p != "" && m < |RemoveLastSlash(p)|
    ensures var q, r := RemoveLastSlash(p), ParentPath(p, m);
            r != "" && r[0] == p[0] && Tokens(r) == Tokens(q[..|q| - m])
  {
    var q := RemoveLastSlash(p);
    var cut := q[..|q| - m];
    assert cut[0] == p[0];
    if |cut| != 1 {
      RemoveLastSlashTokens(cut);
    }
  }

  /** Taking the last name's length off a path takes the last token off, unless slashes follow the name. */
  lemma CutTokens(q: string)
    requires Tokens(q) != [] && |LastName(q)| <= |q|
    ensures var cut := q[..|q| - |LastName(q)|];
            Tokens(cut) == Tokens(q)[..|Tokens(q)| - 1] <==> q[|q| - 1] != '/'
  {
    if q[|q| - 1] == '/' {
      TrimmedCut(q);
    } else {
      LastTokenIsSuffix(q);
      var k := NameStart(q);
      assert |q[k..]| == |q| - k;
    }
  }

  /** One character of the last name is enough to keep its component alive. */
  lemma FirstCharOfName(w: string)
    requires w != "" && w[|w| - 1] != '/'
    ensures var k := NameStart(w); k < |w| && |Tokens(w[..k + 1])| == |Tokens(w)| > 0
  {
    var k := NameStart(w);
    TokensAppendName(w[..k], w[k..]);
    assert w == w[..k] + w[k..];
    var first := [w[k]];
    assert first[0] == w[k..][0];
    TokensAppendName(w[..k], first);
    assert w[..k + 1] == w[..k] + first;
  }

  /** Taking the last name's length off the end of "…name//" leaves a piece of the name behind. */
  lemma TrimmedCut(q: string)
    requires Tokens(q) != [] && q[|q| - 1] == '/' && |LastName(q)| <= |q|
    ensures |Tokens(q[..|q| - |LastName(q)|])| > |Tokens(q)| - 1
  {
    var w := TrimSlashes(q);
    LastTokenIsSuffix(w);
    FirstCharOfName(w);
    var k := NameStart(w);
    assert |w[k..]| == |w| - k;
    PrefixCount(w[..k + 1], q[..|q| - |LastName(q)|]) by {
      assert q[..|q| - |LastName(q)|][..k + 1] == q[..|w|][..k + 1];
    }
  }

  lemma PrefixCount(a: string, b: string)
    requires |a| <= |b| && b[..|a|] == a
    ensures |Tokens(a)| <= |Tokens(b)|
  {
    TokensPrefixCount(a, b[|a|..]);
    assert b == a + b[|a|..];
  }

  /** An absolute path with a token has a parent. */
  lemma AbsoluteHasParent(p: string)
    requires p != "" && p[0] == '/' && Tokens(p) != []
    ensures HasParent(p)
  {
    if |p| > 1 {
      assert RemoveLastSlash(p)[0] == '/';
    }
  }

  /**
   `fs_getParentPath`. A name without a slash in front of it leaves nothing of the path,
   and the source then reads the byte in front of its buffer.
   */
  method GetParentPath(filePath: string) returns (parent: Option<string>)
    requires CString(filePath) && 0 < |filePath| < MAX_FNAME && (Tokens(filePath) != [] ==> HasParent(filePath))
    ensures parent.None? <==> Tokens(filePath) == []
    ensures parent.Some? ==>
              && parent.value != "" && parent.value[0] == filePath[0]
              && CString(parent.value) && |parent.value| < MAX_FNAME
              && (Tokens(parent.value) == Tokens(filePath)[..|Tokens(filePath)| - 1]
                  <==> !EndsInDoubleSlash(filePath))
  {
    var fileName := GetFileName(filePath);
    if fileName.None? {
      return None;
    }
    ParentPathTokens(filePath);
    ParentIsPrefix(filePath, |fileName.value|);
    return Some(ParentPath(filePath, |fileName.value|));
  }

  lemma ParentIsPrefix(p: string, m: nat)
    requires p != "" && m < |RemoveLastSlash(p)|
    ensures ParentPath(p, m) <= p && (CString(p) ==> CString(ParentPath(p, m)))
  {}
}
