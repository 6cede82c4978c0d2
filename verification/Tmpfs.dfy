// tmpfs_create of kernel/fs/tmpfs/tmpfs.c: a node is created under tmpfs_root
// from a path relative to it.
module Tmpfs {
  import opened CString
  import opened Vfs

  const DOTDOT: string := ".."

  // The path without its last component, and the last component.
  function Parent(path: string): string {
    if LastSlash(path) == 0 then "" else path[..LastSlash(path)]
  }

  function FileName(path: string): string {
    if LastSlash(path) == 0 then path else path[LastSlash(path) + 1..]
  }

  // The index of the last '/', or 0 when there is none.
  function LastSlash(path: string): (k: nat)
    ensures k == 0 || (k < |path| && path[k] == '/')
    ensures forall i :: k < i < |path| ==> path[i] != '/'
  {
    if path == "" then 0
    else if path[|path| - 1] == '/' then |path| - 1
    else LastSlash(path[..|path| - 1])
  }

  ghost predicate HasDotDot(path: string) {
    exists i: nat :: OccursAt(path, DOTDOT, i)
  }

  // The character of path[N - 1]; for an empty path it is the one before the path.
  function LastChar(path: string, before: char): char {
    if path == "" then before else path[|path| - 1]
  }

  // ----- tokens of an accepted path -----

  // The split at the last slash loses nothing.
  lemma SplitIsPath(path: string)
    requires path != "" && path[0] != '/'
    ensures LastSlash(path) == 0 ==> Parent(path) == "" && FileName(path) == path
    ensures LastSlash(path) != 0 ==> path == Parent(path) + SLASH + FileName(path)
    ensures '/' !in FileName(path)
  {
    var k := LastSlash(path);
    if k != 0 {
      assert path == path[..k] + [path[k]] + path[k + 1..];
    }
  }

  // No token of a text without ".." is "..".
  lemma {:induction false} TokensAvoidDotDot(s: string, p: nat)
    requires p <= |s| + 1 && !HasDotDot(s)
    ensures DOTDOT !in TokensFrom(s, SLASH, p)
    decreases |s| + 1 - p
  {
    if p <= |s| {
      var r := FirstSpan(s, SLASH, p);
      if r.lo < r.hi {
        TokensAvoidDotDot(s, r.hi + 1);
        if s[r.lo..r.hi] == DOTDOT {
          assert OccursAt(s, DOTDOT, r.lo);
        }
      }
    }
  }

  lemma {:induction false} LastToken(s: string, p: nat, q: nat)
    requires p <= q <= |s| && IsComponent(s[q..])
    requires forall i :: p <= i < q ==> s[i] in SLASH
    ensures TokensFrom(s, SLASH, p) == [s[q..]]
  {
    forall i | q <= i < |s| ensures s[i] !in SLASH {
      assert s[i] == s[q..][i - q];
    }
    SkipIs(s, SLASH, p, true, q);
    SkipIs(s, SLASH, q, false, |s|);
    assert s[q..|s|] == s[q..] && [s[q..]] + [] == [s[q..]];
  }

  lemma {:induction false} FirstSpanOfPrefix(a: string, b: string, p: nat)
    requires p <= |a| && FirstSpan(a, SLASH, p).lo < |a|
    ensures FirstSpan(a + SLASH + b, SLASH, p) == FirstSpan(a, SLASH, p)
    ensures var r := FirstSpan(a, SLASH, p); r.lo < r.hi && (a + SLASH + b)[r.lo..r.hi] == a[r.lo..r.hi]
  {
    var s := a + SLASH + b;
    var r := FirstSpan(a, SLASH, p);
    assert s[|a|] == '/' && forall i :: 0 <= i < |a| ==> s[i] == a[i];
    SkipIs(s, SLASH, p, true, r.lo);
    SkipIs(s, SLASH, r.lo, false, r.hi);
  }

  // Scanning `a` + "/" + `b`, where `b` is one component, finds the tokens of `a` and then `b`.
  lemma {:induction false} TokensSnoc(s: string, a: string, b: string, p: nat)
    requires p <= |a| + 1 && IsComponent(b) && s == a + SLASH + b
    ensures TokensFrom(s, SLASH, p) == TokensFrom(a, SLASH, p) + [b]
    decreases |a| + 1 - p
  {
    if p == |a| + 1 || Skip(a, SLASH, p, true) == |a| {
      OnlyLastToken(s, a, b, p);
    } else {
      var hi := FirstSpan(a, SLASH, p).hi;
      TokensSnoc(s, a, b, hi + 1);
      SnocStep(s, a, b, p, hi);
    }
  }

  lemma SnocStep(s: string, a: string, b: string, p: nat, hi: nat)
    requires p <= |a| && s == a + SLASH + b && FirstSpan(a, SLASH, p).hi == hi && Skip(a, SLASH, p, true) < |a|
    requires TokensFrom(s, SLASH, hi + 1) == TokensFrom(a, SLASH, hi + 1) + [b]
    ensures TokensFrom(s, SLASH, p) == TokensFrom(a, SLASH, p) + [b]
  {
    FirstSpanOfPrefix(a, b, p);
    var lo := FirstSpan(a, SLASH, p).lo;
    FirstToken(a, SLASH, p, lo, hi);
    FirstToken(s, SLASH, p, lo, hi);
    Prepend(a[lo..hi], TokensFrom(a, SLASH, hi + 1), TokensFrom(s, SLASH, hi + 1), b);
  }

  lemma Prepend<T>(head: T, tail: seq<T>, all: seq<T>, last: T)
    requires all == tail + [last]
    ensures [head] + all == ([head] + tail) + [last]
  {
  }

  lemma {:induction false} OnlyLastToken(s: string, a: string, b: string, p: nat)
    requires p <= |a| + 1 && IsComponent(b) && s == a + SLASH + b
    requires p <= |a| ==> Skip(a, SLASH, p, true) == |a|
    ensures TokensFrom(s, SLASH, p) == TokensFrom(a, SLASH, p) + [b]
  {
    assert s[|a| + 1..] == b;
    assert forall i :: p <= i < |a| ==> s[i] == a[i];
    LastToken(s, p, |a| + 1);
    assert TokensFrom(a, SLASH, p) == [];
  }

  lemma {:induction false} TokensOfSplit(path: string)
    requires path != "" && path[0] != '/' && path[|path| - 1] != '/'
    ensures Tokens(path, SLASH) == Tokens(Parent(path), SLASH) + [FileName(path)]
  {
    var k := LastSlash(path);
    SplitIsPath(path);
    if k == 0 {
      LastToken(path, 0, 0);
      assert path[0..] == path && Tokens("", SLASH) == [];
    } else {
      TokensSnoc(path, path[..k], FileName(path), 0);
    }
  }

  // The tokens of an accepted path are those of the parent path and the file
  // name, and none of them is "..".
  lemma {:induction false} PathFacts(path: string)
    requires IsText(path) && path != "" && path[0] != '/' && path[|path| - 1] != '/' && !HasDotDot(path)
    ensures Tokens(path, SLASH) == Tokens(Parent(path), SLASH) + [FileName(path)]
    ensures DOTDOT !in Tokens(Parent(path), SLASH) && FileName(path) != DOTDOT
    ensures IsText(Parent(path)) && (Parent(path) != "" ==> Parent(path)[0] != '/')
  {
    TokensOfSplit(path);
    TokensAvoidDotDot(path, 0);
    var toks := Tokens(path, SLASH);
    assert toks[|toks| - 1] == FileName(path);
    forall t | t in Tokens(Parent(path), SLASH) ensures t in toks {
    }
  }

  // ----- the code -----

  class Filesystem {
    const tree: Tree
    var tmpfsRoot: VNode?

    constructor (tree: Tree)
      ensures this.tree == tree && tmpfsRoot == null
    {
      this.tree := tree;
      tmpfsRoot := null;
    }

    // The directory in which `path` is to be created, or null.
    ghost function Place(path: string): VNode?
      requires tree.Valid() && tmpfsRoot != null && tmpfsRoot in tree.nodes
      reads this, tree, tree.nodes
    {
      tree.Resolve(tmpfsRoot, Tokens(Parent(path), SLASH))
    }

    // tmpfs_create; `before` is the byte in front of the path, which the code
    // reads if the path is empty.
    method Create(path: string, before: char, kind: nat) returns (code: nat, ghost created: VNode?, ghost chain: seq<VNode>)
      requires tree.Valid() && (tmpfsRoot != null ==> tmpfsRoot in tree.nodes)
      requires IsText(path) && |path| < 256
      modifies tree, tree.nodes, tree.tok
      ensures tree.Valid() && (tmpfsRoot != null ==> tmpfsRoot in tree.nodes)
      ensures code == 255 <==> tmpfsRoot == null
      ensures code == 254 <==> tmpfsRoot != null && kind != 0 && kind != 1
      ensures code == 1 <==> tmpfsRoot != null && kind <= 1 && path != "" && path[0] == '/'
      ensures code == 2 <==> tmpfsRoot != null && kind <= 1 && !(path != "" && path[0] == '/') && HasDotDot(path)
      ensures code == 3 <==>
        && tmpfsRoot != null && kind <= 1 && !(path != "" && path[0] == '/') && !HasDotDot(path)
        && (if path == "" then before else path[|path| - 1]) == '/'
      ensures code == 0 || code == 4 <==>
        && tmpfsRoot != null && kind <= 1 && !HasDotDot(path)
        && (if path == "" then before != '/' else path[0] != '/' && path[|path| - 1] != '/')
      ensures code == 0 || code == 4 ==> (code == 4 <==> old(Place(path)) == null)
      ensures code != 0 ==> created == null && tree.nodes == old(tree.nodes)
      ensures code == 0 ==>
        && created != null && tree.Added(created, old(Place(path)), FileName(path), kind)
        && tree.UpChain(chain, created, tmpfsRoot)
      ensures code == 0 ==> created.parent == Place(path) && created.inode == 0
      // The new node is found by the path exactly if its name was free.
      ensures code == 0 ==>
        (tree.Resolve(tmpfsRoot, Tokens(path, SLASH)) == created <==>
         path != "" && FileName(path) != "." &&
         old(Tree.FirstNamed(Place(path).kids, FileName(path)) == |Place(path).kids|))
    {
      created, chain := null, [];
      if tmpfsRoot == null {
        return 255, null, [];
      }
      if kind != VFS_FILE && kind != VFS_DIR {
        return 254, null, [];
      }
      if path != "" && path[0] == '/' {
        return 1, null, [];
      }
      var dots := Strstr(path, DOTDOT);
      if dots != -1 {
        assert OccursAt(path, DOTDOT, dots);
        return 2, null, [];
      }
      if LastChar(path, before) == '/' {
        return 3, null, [];
      }
      var lastSlashIndex := ScanLastSlash(path);
      code, created, chain := CreateAt(path, kind, lastSlashIndex);
    }

    // A path that passed the checks.
    ghost predicate Accepted(path: string) {
      && IsText(path) && |path| < 256 && !HasDotDot(path)
      && (path != "" ==> path[0] != '/' && path[|path| - 1] != '/')
    }

    // Lines 86 to 116.
    method CreateAt(path: string, kind: nat, lastSlashIndex: nat) returns (code: nat, ghost created: VNode?, ghost chain: seq<VNode>)
      requires tree.Valid() && tmpfsRoot != null && tmpfsRoot in tree.nodes
      requires Accepted(path) && lastSlashIndex == LastSlash(path)
      modifies tree, tree.nodes, tree.tok
      ensures tree.Valid() && tmpfsRoot in tree.nodes
      ensures code == if old(Place(path)) == null then 4 else 0
      ensures code != 0 ==> created == null && tree.nodes == old(tree.nodes)
      ensures code == 0 ==>
        && created != null && tree.Added(created, old(Place(path)), FileName(path), kind)
        && tree.UpChain(chain, created, tmpfsRoot)
      ensures code == 0 ==> created.parent == Place(path) && created.inode == 0
      ensures code == 0 ==>
        (tree.Resolve(tmpfsRoot, Tokens(path, SLASH)) == created <==>
         path != "" && FileName(path) != "." &&
         old(Tree.FirstNamed(Place(path).kids, FileName(path)) == |Place(path).kids|))
    {
      var name, parent := Split(path, lastSlashIndex);
      if parent == null {
        return 4, null, [];
      }
      code := 0;
      created, chain := CreateIn(path, parent, name, kind);
    }

    // The new node, in terms of the path.
    method CreateIn(ghost path: string, parent: VNode, name: string, kind: nat) returns (created: VNode, ghost chain: seq<VNode>)
      requires tree.Valid() && tmpfsRoot != null && tmpfsRoot in tree.nodes
      requires Accepted(path) && name == FileName(path) && parent == Place(path)
      modifies tree, tree.nodes
      ensures tree.Valid() && tmpfsRoot in tree.nodes
      ensures tree.Added(created, parent, name, kind) && tree.UpChain(chain, created, tmpfsRoot)
      ensures parent == Place(path) && created.inode == 0
      ensures tree.Resolve(tmpfsRoot, Tokens(path, SLASH)) == created <==>
        path != "" && name != "." && old(Tree.FirstNamed(parent.kids, name) == |parent.kids|)
    {
      AcceptedFacts(path);
      created, chain := Attach(parent, name, kind, Tokens(Parent(path), SLASH));
    }

    // Lines 86 to 106: the file name, and the directory it is to be put in.
    method Split(path: string, lastSlashIndex: nat) returns (name: string, parent: VNode?)
      requires tree.Valid() && tmpfsRoot != null && tmpfsRoot in tree.nodes
      requires Accepted(path) && lastSlashIndex == LastSlash(path)
      modifies tree.tok
      ensures tree.Valid() && name == FileName(path) && parent == Place(path)
    {
      name, parent := path, tmpfsRoot;
      AcceptedFacts(path);
      if lastSlashIndex != 0 {
        name := path[lastSlashIndex + 1..];
        parent := tree.NodeFromPath(tmpfsRoot, path[..lastSlashIndex]);
      }
    }

    lemma AcceptedFacts(path: string)
      requires Accepted(path)
      ensures path == "" ==> Tokens(path, SLASH) == []
      ensures path != "" ==> Tokens(path, SLASH) == Tokens(Parent(path), SLASH) + [FileName(path)]
      ensures DOTDOT !in Tokens(Parent(path), SLASH) && FileName(path) != DOTDOT
      ensures IsText(Parent(path)) && (Parent(path) != "" ==> Parent(path)[0] != '/')
    {
      if path != "" {
        PathFacts(path);
      }
    }

    // Lines 108 and 109, below a directory that `names` lead to.
    method Attach(parent: VNode, name: string, kind: nat, ghost names: seq<string>) returns (created: VNode, ghost chain: seq<VNode>)
      requires tree.Valid() && tmpfsRoot != null && tmpfsRoot in tree.nodes && parent in tree.nodes
      requires DOTDOT !in names && name != DOTDOT && tree.Resolve(tmpfsRoot, names) == parent
      modifies tree, tree.nodes
      ensures tree.Valid() && tmpfsRoot in tree.nodes
      ensures tree.Added(created, parent, name, kind) && created.inode == 0 && tree.UpChain(chain, created, tmpfsRoot)
      ensures tree.Resolve(tmpfsRoot, names) == parent
      ensures tree.Resolve(tmpfsRoot, names + [name]) == created <==>
        name != "." && old(Tree.FirstNamed(parent.kids, name) == |parent.kids|)
    {
      chain := tree.ResolveStaysBelow(tmpfsRoot, names);
      created := tree.AddBelow(tmpfsRoot, names, parent, name, kind, 0);
      chain := [created] + chain;
    }

    // Lines 78 to 84.
    method ScanLastSlash(path: string) returns (k: nat)
      ensures k == LastSlash(path)
    {
      var i := |path| - 1;
      while i >= 0
        invariant -1 <= i < |path|
        invariant forall j :: i < j < |path| ==> path[j] != '/'
      {
        if path[i] == '/' {
          LastSlashIs(path, i);
          return i;
        }
        i := i - 1;
      }
      LastSlashIs(path, 0);
      return 0;
    }
  }

  lemma {:induction false} LastSlashIs(path: string, k: nat)
    requires k == 0 || (k < |path| && path[k] == '/')
    requires forall i :: k < i < |path| ==> path[i] != '/'
    ensures LastSlash(path) == k
  {
    var m := LastSlash(path);
    assert m > 0 ==> path[m] == '/';
  }
}
