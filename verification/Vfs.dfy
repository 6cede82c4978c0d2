// The namespace of kernel/fs/vfs.c: a tree of nodes linked by `parent`,
// `childs`, `next` and `prev`, its path printer and its path resolver.
module Vfs {
  import opened Common
  import opened CString

  const SLASH: string := "/"
  const VFS_FILE: nat := 0
  const VFS_DIR: nat := 1

  class VNode {
    var name: string
    var kind: nat  // file->type
    var inode: nat  // file->inode
    var parent: VNode?
    var childs: VNode?
    var next: VNode?
    var prev: VNode?
    ghost var kids: seq<VNode>  // the children in list order
    ghost var level: nat  // distance from the root
    ghost var rank: nat  // position among its siblings

    // vfs_create_node. The field `prev` keeps whatever kmalloc returned.
    constructor (name: string, kind: nat, ghost level: nat, ghost rank: nat)
      ensures this.name == name && this.kind == kind && childs == null && next == null
      ensures kids == [] && this.level == level && this.rank == rank
    {
      this.name, this.kind, this.level, this.rank := name, kind, level, rank;
      childs, next, parent := null, null, null;
      kids := [];
      prev := *;
      inode := *;
    }
  }

  ghost function At(s: seq<VNode>, i: int): VNode? {
    if 0 <= i < |s| then s[i] else null
  }

  // The names that paths are made of.
  predicate GoodName(s: string) {
    s != "" && IsText(s) && '/' !in s && s != "." && s != ".."
  }

  class Tree {
    var root: VNode
    ghost var nodes: set<VNode>
    const tok: Strtok  // the static cursor of strtok

    // The first lines of vfs_dummy: a root that is its own parent.
    constructor ()
      ensures Valid() && nodes == {root} && root.kids == [] && root.name == SLASH
    {
      var r := new VNode(SLASH, VFS_DIR, 0, 0);
      root := r;
      nodes := {r};
      tok := new Strtok();
      new;
      root.parent := root;
    }

    ghost predicate Valid()
      reads this, nodes
    {
      && root in nodes && root.parent == root && root.level == 0
      && (forall n :: n in nodes ==> Family(n))
      && (forall n :: n in nodes && n != root ==> HasParent(n))
    }

    // Node `n` heads the list of its children.
    ghost predicate Family(n: VNode)
      reads this, nodes, n
    {
      && n.childs == At(n.kids, 0)
      && (forall i :: 0 <= i < |n.kids| ==> Child(n, i))
    }

    // Child `i` of `n` is linked to its parent and to its next sibling.
    ghost predicate Child(n: VNode, i: nat)
      requires i < |n.kids|
      reads this, nodes, n
    {
      var c := n.kids[i];
      && c in nodes && c != root && c.parent == n && c.next == At(n.kids, i + 1)
      && c.level == n.level + 1 && c.rank == i
    }

    ghost predicate HasParent(n: VNode)
      reads this, nodes, n
    {
      n.parent != null && n.parent in nodes && n.rank < |n.parent.kids| && n.parent.kids[n.rank] == n
    }

    // Names of all nodes but the root can be path components.
    ghost predicate GoodNames()
      reads this, nodes
    {
      root in nodes && root.name == SLASH && forall n :: n in nodes && n != root ==> GoodName(n.name)
    }

    lemma KidsAreNodes(n: VNode)
      requires Valid() && n in nodes
      ensures forall c :: c in n.kids ==> c in nodes && c != root && c.parent == n && c.level == n.level + 1
    {
      forall c | c in n.kids ensures c in nodes && c != root && c.parent == n && c.level == n.level + 1 {
        var i :| 0 <= i < |n.kids| && n.kids[i] == c;
        assert Child(n, i);
      }
    }

    // ----- specification -----

    // The index of the first of `s` with the given name, or |s|.
    static ghost function FirstNamed(s: seq<VNode>, name: string): (k: nat)
      reads s
      ensures k <= |s|
      ensures forall i :: 0 <= i < k ==> s[i].name != name
      ensures k < |s| ==> s[k].name == name
    {
      if s == [] then 0 else if s[0].name == name then 0 else 1 + FirstNamed(s[1..], name)
    }

    ghost function Lookup(n: VNode, name: string): VNode?
      requires Valid() && n in nodes
      reads this, nodes
      ensures Lookup(n, name) != null ==> Lookup(n, name) in nodes
    {
      if name == "." then n
      else if name == ".." then (if n == root then root else n.parent)
      else
        KidsAreNodes(n);
        At(n.kids, FirstNamed(n.kids, name))
    }

    // The node reached from `n` by a list of names, or null.
    ghost function Resolve(n: VNode, names: seq<string>): VNode?
      requires Valid() && n in nodes
      reads this, nodes
      ensures Resolve(n, names) != null ==> Resolve(n, names) in nodes
    {
      if names == [] then n
      else
        var m := Resolve(n, names[..|names| - 1]);
        if m == null then null else Lookup(m, names[|names| - 1])
    }

    // The names from below the root down to `n`.
    ghost function Components(n: VNode): seq<string>
      requires Valid() && n in nodes
      reads this, nodes
      decreases n.level
    {
      if n == root then []
      else
        KidsAreNodes(n.parent);
        Components(n.parent) + [n.name]
    }

    // Every name on the way up from `n` is the first of its kind among its siblings.
    ghost predicate Nameable(n: VNode)
      requires Valid() && n in nodes
      reads this, nodes
      decreases n.level
    {
      n == root ||
      (KidsAreNodes(n.parent);
       Lookup(n.parent, n.name) == n && Nameable(n.parent))
    }

    ghost predicate UniqueSiblings()
      reads this, nodes
    {
      forall n, i, j :: n in nodes && 0 <= i < j < |n.kids| && n.kids[i] in nodes && n.kids[j] in nodes
        ==> n.kids[i].name != n.kids[j].name
    }

    lemma LookupIsChild(n: VNode, name: string)
      requires Valid() && n in nodes && name != "." && name != ".."
      ensures Lookup(n, name) != null ==> Lookup(n, name).parent == n && Lookup(n, name) != root
    {
      KidsAreNodes(n);
    }

    // ".." leads from a child to the node it is a child of, and from the root
    // to itself.
    lemma DotDotIsParent(n: VNode, i: nat)
      requires Valid() && n in nodes && i < |n.kids|
      ensures n.kids[i] in nodes && Lookup(n.kids[i], "..") == n && Lookup(root, "..") == root
    {
      assert Child(n, i);
    }

    // As a path, ".." drops the last component, and "." none.
    lemma DotDotDropsComponent(n: VNode)
      requires Valid() && n in nodes
      ensures Resolve(n, [".."]) != null && Resolve(n, ["."]) == n
      ensures Components(Resolve(n, [".."])) == if n == root then [] else Components(n)[..|Components(n)| - 1]
    {
      assert [".."][..0] == [] && ["."][..0] == [];
      if n != root {
        KidsAreNodes(n.parent);
      }
    }

    // Following the names below the root leads to `n` exactly when `n` is nameable.
    lemma {:induction false} ResolveComponents(n: VNode)
      requires Valid() && GoodNames() && n in nodes
      ensures Resolve(root, Components(n)) == n <==> Nameable(n)
      decreases n.level
    {
      if n != root {
        KidsAreNodes(n.parent);
        ResolveComponents(n.parent);
        assert Components(n)[..|Components(n)| - 1] == Components(n.parent);
        var r := Resolve(root, Components(n.parent));
        if r != null {
          LookupIsChild(r, n.name);
        }
      }
    }

    lemma {:induction false} UniqueIsNameable(n: VNode)
      requires Valid() && GoodNames() && UniqueSiblings() && n in nodes
      ensures Nameable(n)
      decreases n.level
    {
      if n != root {
        var p := n.parent;
        KidsAreNodes(p);
        UniqueIsNameable(p);
        var k := FirstNamed(p.kids, n.name);
        assert p.kids[k] in p.kids;
      }
    }

    lemma {:induction false} ComponentsAreGood(n: VNode)
      requires Valid() && GoodNames() && n in nodes
      ensures forall i :: 0 <= i < |Components(n)| ==> GoodName(Components(n)[i])
      decreases n.level
    {
      if n != root {
        KidsAreNodes(n.parent);
        ComponentsAreGood(n.parent);
      }
    }

    // Printing the path of a node and resolving the text leads back to the
    // node exactly when every name on the way is the first among its siblings;
    // with unique sibling names that is every node.
    lemma {:induction false} PrintThenParse(n: VNode)
      requires Valid() && GoodNames() && n in nodes
      ensures Resolve(root, Tokens(PathText(Components(n)), SLASH)) == n <==> Nameable(n)
      ensures UniqueSiblings() ==> Nameable(n)
    {
      ComponentsAreGood(n);
      TokensOfPath(Components(n));
      ResolveComponents(n);
      if UniqueSiblings() {
        UniqueIsNameable(n);
      }
    }

    // ----- the code -----

    // vfs_get_child_by_name. strcmp of two names is equality of their texts.
    method GetChildByName(parent: VNode, name: string) returns (r: VNode?)
      requires Valid() && parent in nodes
      ensures r == Lookup(parent, name)
    {
      if name == "." {
        return parent;
      }
      if name == ".." {
        return parent.parent;
      }
      KidsAreNodes(parent);
      var child := parent.childs;
      if child == null {
        return null;
      }
      ghost var i := 0;
      while child.name != name && child.next != null
        invariant 0 <= i < |parent.kids| && child == parent.kids[i]
        invariant forall j :: 0 <= j < i ==> parent.kids[j].name != name
        decreases |parent.kids| - i
      {
        assert Child(parent, i);
        child, i := child.next, i + 1;
      }
      assert Child(parent, i);
      FirstNamedIs(parent.kids, name, if child.name == name then i else i + 1);
      return if child.name != name then null else child;
    }

    static lemma {:induction false} FirstNamedIs(s: seq<VNode>, name: string, k: nat)
      requires k <= |s|
      requires forall i :: 0 <= i < k ==> s[i].name != name
      requires k < |s| ==> s[k].name == name
      ensures FirstNamed(s, name) == k
    {
    }

    lemma OwnParent(n: VNode)
      requires Valid() && n in nodes
      ensures n.parent == n <==> n == root
    {
      if n != root { KidsAreNodes(n.parent); }
    }

    lemma SlashIsRoot(n: VNode)
      requires GoodNames() && n in nodes
      ensures n.name == SLASH <==> n == root
    {
      assert !GoodName(SLASH);
    }

    lemma StepUp(node: VNode, n: VNode, below: seq<string>)
      requires Valid() && node in nodes && n in nodes && n != root
      requires Components(node) == Components(n) + below
      ensures n.parent in nodes && n.parent.level < n.level
      ensures Components(node) == Components(n.parent) + ([n.name] + below)
    {
      KidsAreNodes(n.parent);
      assert (Components(n.parent) + [n.name]) + below == Components(n.parent) + ([n.name] + below);
    }

    // vfs_abs_path_to.
    method AbsPathTo(node: VNode?) returns (path: Option<string>)
      requires Valid() && GoodNames() && (node != null ==> node in nodes)
      ensures node == null ==> path == None
      ensures node != null ==> path == Some(PathText(Components(node)))
    {
      if node == null {
        return None;
      }
      var n: VNode := node;
      var text := n.name;
      ghost var below: seq<string> := [];
      while n.parent != n
        invariant n in nodes && Components(node) == Components(n) + below
        invariant text == if n == root then PathText(below) else Join([n.name] + below)
        decreases n.level
      {
        OwnParent(n);
        StepUp(node, n, below);
        SlashIsRoot(n.parent);
        JoinCons(n.parent.name, [n.name] + below);
        below := [n.name] + below;
        n := n.parent;
        var bak := text;
        text := n.name;
        if text != SLASH {
          text := text + SLASH;
        }
        text := text + bak;
      }
      OwnParent(n);
      assert [] + below == below;
      return Some(text);
    }

    lemma ResolveSnoc(n: VNode, names: seq<string>, name: string)
      requires Valid() && n in nodes
      ensures Resolve(n, names + [name]) == if Resolve(n, names) == null then null else Lookup(Resolve(n, names), name)
    {
      assert (names + [name])[..|names|] == names;
    }

    // A list of names that starts with a dead end is a dead end.
    lemma {:induction false} ResolveDeadEnd(n: VNode, names: seq<string>, more: seq<string>)
      requires Valid() && n in nodes && Resolve(n, names) == null
      ensures Resolve(n, names + more) == null
      decreases |more|
    {
      if more == [] {
        assert names + more == names;
      } else {
        var k := |more| - 1;
        ResolveDeadEnd(n, names, more[..k]);
        assert names + more == (names + more[..k]) + [more[k]];
        ResolveSnoc(n, names + more[..k], more[k]);
      }
    }

    // Following `parent` along `chain` leads from `n` up to `a`.
    ghost predicate UpChain(chain: seq<VNode>, n: VNode, a: VNode)
      reads chain
    {
      && |chain| > 0 && chain[0] == n && chain[|chain| - 1] == a
      && forall i :: 0 <= i < |chain| - 1 ==> chain[i].parent == chain[i + 1]
    }

    // Names without ".." never lead out of the subtree they start in.
    lemma {:induction false} ResolveStaysBelow(a: VNode, names: seq<string>) returns (chain: seq<VNode>)
      requires Valid() && a in nodes && ".." !in names && Resolve(a, names) != null
      ensures UpChain(chain, Resolve(a, names), a) && forall c :: c in chain ==> c in nodes
    {
      if names == [] {
        chain := [a];
      } else {
        var k := |names| - 1;
        chain := ResolveStaysBelow(a, names[..k]);
        if names[k] != "." {
          LookupIsChild(Resolve(a, names[..k]), names[k]);
          chain := [Resolve(a, names)] + chain;
        }
      }
    }

    // vfs_node_from_path, on its own copy of the path.
    method NodeFromPath(start: VNode, path: string) returns (r: VNode?)
      requires Valid() && start in nodes && IsText(path) && |path| < 256
      modifies tok
      ensures Valid() && r == Resolve(if path != "" && path[0] == '/' then root else start, Tokens(path, SLASH))
    {
      var ap := new char[256];
      Strcpy(ap, path);
      ghost var b0 := ap[..];
      ghost var toks: seq<string> := [];
      ScanStarts(b0, SLASH);
      var token := tok.Call(ap, SLASH);
      var node := if path != "" && path[0] == '/' then root else start;
      ghost var from := node;
      while token != -1
        invariant tok.buf == null || tok.buf == ap
        invariant Scanned(b0, ap[..], SLASH, Cursor(tok.buf != null, tok.i), token, toks)
        invariant Valid() && node in nodes && node == Resolve(from, toks)
        decreases if token == -1 then 0 else 1, if tok.buf == null then 0 else ap.Length - tok.i
      {
        var child;
        ghost var name;
        child, token, name := Round(ap, b0, from, node, token, toks);
        if child == null {
          return null;
        }
        node, toks := child, toks + [name];
      }
      return node;
    }

    // One round of the loop above: look the token up, then fetch the next one.
    method Round(ap: array<char>, ghost b0: string, ghost from: VNode, node: VNode, token: int, ghost toks: seq<string>)
      returns (child: VNode?, token': int, ghost name: string)
      requires Valid() && from in nodes && node in nodes && node == Resolve(from, toks)
      requires (tok.buf == null || tok.buf == ap) && Terminated(b0, 0) && token != -1
      requires Scanned(b0, ap[..], SLASH, Cursor(tok.buf != null, tok.i), token, toks)
      modifies tok, ap
      ensures Valid()
      ensures child == null ==> Resolve(from, Tokens(Str(b0, 0), SLASH)) == null
      ensures child != null ==> child in nodes && child == Resolve(from, toks + [name])
      ensures child != null ==> tok.buf == null || (tok.buf == ap && old(tok.buf) == ap && old(tok.i) < tok.i <= ap.Length)
      ensures child != null ==> Scanned(b0, ap[..], SLASH, Cursor(tok.buf != null, tok.i), token', toks + [name])
    {
      child, name := Descend(ap, b0, from, node, token, toks);
      if child == null {
        return null, -1, name;
      }
      label found:
      token' := NextToken(ap, b0, token, toks, name);
      assert unchanged@found(this, nodes);
    }

    // strtok(NULL, "/"), which does not touch the tree.
    method NextToken(ap: array<char>, ghost b0: string, ghost token: int, ghost toks: seq<string>, ghost name: string)
      returns (token': int)
      requires (tok.buf == null || tok.buf == ap) && Terminated(b0, 0) && token != -1
      requires Scanned(b0, ap[..], SLASH, Cursor(tok.buf != null, tok.i), token, toks)
      requires Terminated(ap[..], token) && name == Str(ap[..], token)
      modifies tok, ap
      ensures tok.buf == null || (tok.buf == ap && old(tok.buf) == ap && old(tok.i) < tok.i <= ap.Length)
      ensures Scanned(b0, ap[..], SLASH, Cursor(tok.buf != null, tok.i), token', toks + [name])
    {
      token' := tok.Next(ap, SLASH, b0, token, toks);
    }

    // The lookup of the token at `token` in the loop above.
    method Descend(ap: array<char>, ghost b0: string, ghost from: VNode, node: VNode, token: int, ghost toks: seq<string>)
      returns (child: VNode?, ghost name: string)
      requires Valid() && from in nodes && node in nodes && node == Resolve(from, toks)
      requires Terminated(b0, 0) && token != -1
      requires Scanned(b0, ap[..], SLASH, Cursor(tok.buf != null, tok.i), token, toks)
      ensures child == null ==> Resolve(from, Tokens(Str(b0, 0), SLASH)) == null
      ensures Terminated(ap[..], token) && name == Str(ap[..], token)
      ensures child != null ==> child in nodes && child == Resolve(from, toks + [name])
    {
      PrefixOfTokens(b0, ap[..], Cursor(tok.buf != null, tok.i), token, toks);
      var text := Str(ap[..], token);
      name := text;
      ResolveSnoc(from, toks, name);
      child := GetChildByName(node, text);
      if child == null {
        ResolveDeadEnd(from, toks + [name], Tokens(Str(b0, 0), SLASH)[|toks| + 1..]);
      }
    }

    static lemma PrefixOfTokens(b0: string, a: string, c: Cursor, token: int, toks: seq<string>)
      requires Terminated(b0, 0) && token != -1 && Scanned(b0, a, SLASH, c, token, toks)
      ensures Terminated(a, token)
      ensures var all := Tokens(Str(b0, 0), SLASH);
        |toks| + 1 <= |all| && all == (toks + [Str(a, token)]) + all[|toks| + 1..]
    {
      TokenText(b0, a, SLASH, c, token, toks);
      var s := b0[..End(b0, 0)];
      assert s == Str(b0, 0);
      var hi := Skip(s, SLASH, token, false);
      assert s[token..hi] == b0[token..hi];
    }

    // vfs_add_child: the new node becomes the last child.
    method AddChild(parent: VNode?, name: string, kind: nat) returns (r: VNode?)
      requires Valid() && (parent != null ==> parent in nodes)
      modifies this, nodes
      ensures Valid() && root == old(root)
      ensures parent == null ==> r == null && nodes == old(nodes)
      ensures parent != null ==> r != null && fresh(r) && Added(r, parent, name, kind)
    {
      if parent == null {
        return null;
      }
      var node := new VNode(name, kind, parent.level + 1, |parent.kids|);
      if parent.childs == null {
        LinkFirst(parent, node);
      } else {
        var child := LastChild(parent);
        LinkAfter(parent, child, node);
      }
      return node;
    }

    // node->file->inode = value
    method SetInode(n: VNode, value: nat)
      requires Valid() && n in nodes
      modifies n`inode
      ensures Valid() && n.inode == value
    {
      n.inode := value;
      forall x | x in nodes ensures Family(x) {
        assert old(Family(x));
        forall i | 0 <= i < |x.kids| ensures Child(x, i) {
          assert old(Child(x, i));
        }
      }
      forall x | x in nodes && x != root ensures HasParent(x) {
        assert old(HasParent(x));
      }
    }

    // Lines 103 and 104.
    method LinkFirst(parent: VNode, node: VNode)
      requires Valid() && parent in nodes && node !in nodes && parent.kids == []
      requires node.childs == null && node.next == null && node.kids == [] && node.level == parent.level + 1 && node.rank == |parent.kids|
      modifies this`nodes, parent`childs, parent`kids, node`parent
      ensures Valid() && nodes == old(nodes) + {node} && node.parent == parent && parent.kids == old(parent.kids) + [node]
    {
      parent.childs, node.parent, parent.kids, nodes := node, parent, [node], nodes + {node};
      forall n | n in nodes ensures Family(n) {
        if n != parent && n != node {
          assert old(Family(n));
          forall i | 0 <= i < |n.kids| ensures Child(n, i) {
            assert old(Child(n, i));
          }
        }
      }
      forall n | n in nodes && n != root ensures HasParent(n) {
        assert n != node ==> old(HasParent(n));
      }
    }

    // Lines 113 to 115.
    method LinkAfter(parent: VNode, child: VNode, node: VNode)
      requires Valid() && parent in nodes && node !in nodes
      requires |parent.kids| > 0 && child == parent.kids[|parent.kids| - 1] && child in nodes
      requires node.childs == null && node.next == null && node.kids == [] && node.level == parent.level + 1 && node.rank == |parent.kids|
      modifies this`nodes, parent`kids, child`next, node`parent, node`prev
      ensures Valid() && nodes == old(nodes) + {node} && node.parent == parent && parent.kids == old(parent.kids) + [node]
    {
      KidsAreNodes(parent);
      assert Child(parent, |parent.kids| - 1);
      child.next, node.parent, node.prev, parent.kids, nodes := node, parent, child, parent.kids + [node], nodes + {node};
      forall n | n in nodes && n != root ensures HasParent(n) {
        if n == node {
          assert parent.kids[node.rank] == node;
        } else {
          assert old(HasParent(n)) && n.parent == old(n.parent);
          assert n.parent != parent ==> n.parent.kids == old(n.parent.kids);
        }
      }
      assert Family(parent) by {
        forall i | 0 <= i < |parent.kids| ensures Child(parent, i) {
          assert i < |old(parent.kids)| ==> old(Child(parent, i));
        }
      }
      forall n | n in nodes && n != parent ensures Family(n) {
        if n != node {
          assert old(Family(n));
          forall i | 0 <= i < |n.kids| ensures Child(n, i) {
            assert old(Child(n, i));
            assert n.kids[i] != child && n.kids[i] != node;
          }
        }
      }
    }

    // vfs_add_child and the inode, below a node reached by `names` from `a`: the names still
    // lead there, and the new node is found by its name exactly when it is not
    // called "." or ".." and no earlier sibling has the name.
    method AddBelow(a: VNode, ghost names: seq<string>, parent: VNode, name: string, kind: nat, inode: nat) returns (r: VNode)
      requires Valid() && a in nodes && parent in nodes && Resolve(a, names) == parent
      modifies this, nodes
      ensures Valid() && root == old(root) && Added(r, parent, name, kind) && r.inode == inode
      ensures a in nodes && Resolve(a, names) == parent
      ensures Resolve(a, names + [name]) == r <==>
        name != "." && name != ".." && old(FirstNamed(parent.kids, name) == |parent.kids|)
    {
      ghost var path := PathOf(a, names);
      r := AddNamed(parent, name, kind, inode);
      ResolvesAlong(a, names, path);
      ResolveSnoc(a, names, name);
    }

    method AddWithInode(parent: VNode, name: string, kind: nat, inode: nat) returns (r: VNode)
      requires Valid() && parent in nodes
      modifies this, nodes
      ensures Valid() && root == old(root) && fresh(r) && Added(r, parent, name, kind) && r.inode == inode
    {
      var node := AddChild(parent, name, kind);
      r := node;
      SetInode(r, inode);
    }

    // vfs_add_child on an existing parent keeps every successful lookup.
    method AddNamed(parent: VNode, name: string, kind: nat, inode: nat) returns (r: VNode)
      requires Valid() && parent in nodes
      modifies this, nodes
      ensures Valid() && root == old(root) && Added(r, parent, name, kind) && r.inode == inode
      ensures forall n, x :: n in old(nodes) && old(Lookup(n, x)) != null ==> Lookup(n, x) == old(Lookup(n, x))
      ensures Lookup(parent, name) == r <==>
        name != "." && name != ".." && old(FirstNamed(parent.kids, name) == |parent.kids|)
    {
      r := AddWithInode(parent, name, kind, inode);
      forall n, x | n in old(nodes) && old(Lookup(n, x)) != null ensures Lookup(n, x) == old(Lookup(n, x)) {
        if x != "." && x != ".." {
          assert old(Family(n)) && forall i :: 0 <= i < |old(n.kids)| ==> old(Child(n, i));
          LookupIs(n, x, old(FirstNamed(n.kids, x)));
        }
      }
      if name != "." && name != ".." {
        assert old(Family(parent)) && forall i :: 0 <= i < |old(parent.kids)| ==> old(Child(parent, i));
        LookupIs(parent, name, old(FirstNamed(parent.kids, name)));
      }
    }

    // The nodes visited by resolving `names`.
    lemma {:induction false} PathOf(a: VNode, names: seq<string>) returns (path: seq<VNode>)
      requires Valid() && a in nodes && Resolve(a, names) != null
      ensures |path| == |names| + 1 && path[0] == a && path[|names|] == Resolve(a, names)
      ensures forall i :: 0 <= i < |names| ==> path[i] in nodes && Lookup(path[i], names[i]) == path[i + 1]
    {
      if names == [] {
        path := [a];
      } else {
        var k := |names| - 1;
        var init := PathOf(a, names[..k]);
        assert Lookup(init[k], names[k]) == Resolve(a, names);
        path := init + [Resolve(a, names)];
        forall i | 0 <= i < |names| ensures path[i] in nodes && Lookup(path[i], names[i]) == path[i + 1] {
          if i < k { assert path[i] == init[i] && path[i + 1] == init[i + 1] && names[i] == names[..k][i]; }
        }
      }
    }

    lemma {:induction false} ResolvesAlong(a: VNode, names: seq<string>, path: seq<VNode>)
      requires Valid() && a in nodes && |path| == |names| + 1 && path[0] == a
      requires forall i :: 0 <= i < |names| ==> path[i] in nodes && Lookup(path[i], names[i]) == path[i + 1]
      ensures Resolve(a, names) == path[|names|]
    {
      if names != [] {
        ResolvesAlong(a, names[..|names| - 1], path[..|names|]);
      }
    }

    lemma LookupIs(n: VNode, x: string, k: nat)
      requires Valid() && n in nodes && x != "." && x != ".." && k <= |n.kids|
      requires forall i :: 0 <= i < k ==> n.kids[i].name != x
      requires k < |n.kids| ==> n.kids[k].name == x
      ensures Lookup(n, x) == At(n.kids, k)
    {
      FirstNamedIs(n.kids, x, k);
    }

    method LastChild(parent: VNode) returns (child: VNode)
      requires Valid() && parent in nodes && parent.childs != null
      ensures |parent.kids| > 0 && child == parent.kids[|parent.kids| - 1] && child in nodes
    {
      KidsAreNodes(parent);
      child := parent.childs;
      ghost var i := 0;
      while child.next != null
        invariant 0 <= i < |parent.kids| && child == parent.kids[i]
        decreases |parent.kids| - i
      {
        assert Child(parent, i);
        child, i := child.next, i + 1;
      }
      assert Child(parent, i);
    }

    // Node `r` has been added under `parent`, and every earlier node keeps its
    // place, name, kind and children but for the new last child of `parent`.
    twostate predicate Added(new r: VNode, parent: VNode, name: string, kind: nat)
      reads this, nodes
    {
      && r !in old(nodes) && nodes == old(nodes) + {r}
      && r.name == name && r.kind == kind && r.parent == parent && r.kids == []
      && parent in old(nodes) && parent.kids == old(parent.kids) + [r]
      && forall n :: n in old(nodes) ==>
           && n.name == old(n.name) && n.kind == old(n.kind) && n.parent == old(n.parent) && n.level == old(n.level)
           && n.rank == old(n.rank)
           && n.inode == old(n.inode)
           && (n != parent ==> n.kids == old(n.kids))
    }
  }

  // ----- the text of a path -----

  function Join(names: seq<string>): string {
    if names == [] then "" else if |names| == 1 then names[0] else names[0] + SLASH + Join(names[1..])
  }

  lemma JoinCons(name: string, names: seq<string>)
    requires names != []
    ensures Join([name] + names) == name + SLASH + Join(names)
  {
    assert ([name] + names)[1..] == names;
  }

  function PathText(names: seq<string>): string {
    SLASH + Join(names)
  }

  // It starts with a slash, has no two in a row, and ends in one for the root only.
  lemma {:induction false} PathTextShape(names: seq<string>)
    requires forall i :: 0 <= i < |names| ==> IsComponent(names[i])
    ensures var s := PathText(names);
      && s[0] == '/' && (names != [] <==> s[|s| - 1] != '/')
      && forall i :: 0 <= i < |s| - 1 ==> !(s[i] == '/' && s[i + 1] == '/')
  {
    if names != [] {
      JoinShape(names);
    }
  }

  lemma {:induction false} JoinShape(names: seq<string>)
    requires names != [] && forall i :: 0 <= i < |names| ==> IsComponent(names[i])
    ensures var s := Join(names);
      && s != "" && s[0] != '/' && s[|s| - 1] != '/'
      && forall i :: 0 <= i < |s| - 1 ==> !(s[i] == '/' && s[i + 1] == '/')
  {
    var first := names[0];
    if |names| > 1 {
      var rest := Join(names[1..]);
      JoinShape(names[1..]);
      forall i | 0 <= i < |first| + |rest| ensures !((first + SLASH + rest)[i] == '/' && (first + SLASH + rest)[i + 1] == '/') {
        if i > |first| {
          assert (first + SLASH + rest)[i] == rest[i - |first| - 1];
        }
      }
    }
  }

  predicate IsComponent(s: string) {
    s != "" && '/' !in s
  }

  // A joined list starts with the first name, and then comes the rest.
  lemma JoinHead(s: string, p: nat, names: seq<string>)
    requires p <= |s| && s[p..] == Join(names) && names != []
    ensures var q := p + |names[0]|;
      && q <= |s| && s[p..q] == names[0]
      && (if |names| == 1 then q == |s| else q < |s| && s[q] == '/' && s[q + 1..] == Join(names[1..]))
  {
    var first, rest := names[0], s[p..];
    var q := p + |first|;
    assert first <= rest && s[p..q] == rest[..|first|];
    if |names| > 1 {
      assert s[q] == rest[|first|] && s[q + 1..] == rest[|first| + 1..];
    }
  }

  // Scanning a joined list of components from where it starts finds them.
  lemma {:induction false} TokensOfJoin(s: string, p: nat, names: seq<string>)
    requires p <= |s| && s[p..] == Join(names) && forall i :: 0 <= i < |names| ==> IsComponent(names[i])
    ensures TokensFrom(s, SLASH, p) == names
    decreases |names|
  {
    if names == [] {
      NoTokenAtEnd(s);
    } else {
      JoinHead(s, p, names);
      var q := p + |names[0]|;
      if |names| > 1 {
        TokensOfJoin(s, q + 1, names[1..]);
      } else {
        NoTokenBehindEnd(s);
      }
      FirstComponent(s, p, q);
      HeadAndTail(TokensFrom(s, SLASH, p), s[p..q], TokensFrom(s, SLASH, q + 1), names);
    }
  }

  lemma NoTokenAtEnd(s: string)
    ensures TokensFrom(s, SLASH, |s|) == []
  {
  }

  lemma NoTokenBehindEnd(s: string)
    ensures TokensFrom(s, SLASH, |s| + 1) == []
  {
  }

  lemma HeadAndTail<T>(s: seq<T>, head: T, tail: seq<T>, names: seq<T>)
    requires s == [head] + tail && names != [] && names[0] == head && names[1..] == tail
    ensures s == names
  {
  }

  // The scan takes a component that a slash or the end of the text follows.
  lemma FirstComponent(s: string, p: nat, q: nat)
    requires p <= q <= |s| && IsComponent(s[p..q]) && (q < |s| ==> s[q] == '/')
    ensures TokensFrom(s, SLASH, p) == [s[p..q]] + TokensFrom(s, SLASH, q + 1)
  {
    forall i | p <= i < q ensures s[i] !in SLASH {
      assert s[i] == s[p..q][i - p];
    }
    SkipIs(s, SLASH, p, true, p);
    SkipIs(s, SLASH, p, false, q);
    FirstToken(s, SLASH, p, p, q);
  }

  lemma {:induction false} TokensOfPath(names: seq<string>)
    requires forall i :: 0 <= i < |names| ==> GoodName(names[i])
    ensures Tokens(PathText(names), SLASH) == names
  {
    var s := PathText(names);
    TokensOfJoin(s, 1, names);
    assert Skip(s, SLASH, 0, true) == Skip(s, SLASH, 1, true);
  }
}
