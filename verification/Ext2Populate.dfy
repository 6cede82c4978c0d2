// vfs_ext2_populate of kernel/fs/vfs.c: the directories of a partition become
// nodes of the namespace.
module Ext2Populate {
  import opened Common
  import opened Ext2
  import opened Ext2Dir
  import opened Vfs

  // ext2_type_translate
  function TypeTranslate(kind: Byte): nat {
    match kind
    case 2 => VFS_DIR
    case 3 => 2
    case 4 => 3
    case 5 => 5
    case 6 => 7
    case 7 => 4
    case _ => VFS_FILE
  }

  // The types of directory entries and of nodes, by their numbers: directories
  // are 2 on disk and 1 in the namespace, files 1 and 0.
  lemma TypeValues(kind: Byte)
    ensures TypeTranslate(kind) == 1 <==> kind == 2
    ensures TypeTranslate(1) == 0 && TypeTranslate(2) == 1 && TypeTranslate(3) == 2 && TypeTranslate(4) == 3
    ensures TypeTranslate(5) == 5 && TypeTranslate(6) == 7 && TypeTranslate(7) == 4
    ensures kind == 0 || kind > 7 ==> TypeTranslate(kind) == 0
  {
  }

  function Text(name: seq<Byte>): (s: string)
    ensures |s| == |name| && forall i :: 0 <= i < |s| ==> s[i] as int == name[i]
  {
    seq(|name|, i requires 0 <= i < |name| => name[i] as char)
  }

  predicate IsDots(e: Entry) {
    Text(e.name) == "." || Text(e.name) == ".."
  }

  // ----- a directory tree on disk -----

  // The blocks of a directory, and a tree for each of its entries; that of an
  // entry that is no directory, or is "." or "..", is not looked at.
  datatype DirTree = DirTree(blocks: seq<seq<Entry>>, subs: seq<DirTree>)

  function Entries(t: DirTree): seq<Entry> {
    Flat(t.blocks)
  }

  // How many entries the iterator lists: those before the first without an inode.
  function Listed(t: DirTree): (k: nat)
    ensures k <= |Entries(t)|
  {
    FirstZero(Entries(t))
  }

  predicate TreeOnDisk(vol: Volume, number: nat, t: DirTree)
    decreases t, 0
  {
    && IsDir(vol.inode(number)) && OnDisk(vol, number, t.blocks, 0)
    && |t.subs| == |Entries(t)|
    && forall k :: 0 <= k < Listed(t) ==> SubOnDisk(vol, Entries(t)[k], t.subs[k])
  }

  predicate SubOnDisk(vol: Volume, e: Entry, sub: DirTree)
    decreases sub, 1
  {
    e.kind == 2 && !IsDots(e) ==> TreeOnDisk(vol, e.inode, sub)
  }

  // ----- the namespace as a value -----

  datatype Rec = Rec(name: string, kind: nat, inode: nat, level: nat, kids: seq<VNode>)
  type Shape = map<VNode, Rec>

  ghost function ShapeOf(tree: Tree): Shape
    reads tree, tree.nodes
  {
    map n | n in tree.nodes :: Rec(n.name, n.kind, n.inode, n.level, n.kids)
  }

  // `kids` are nodes for the first `k` entries of `t`, in order and without "."
  // and "..", each with all that is below it.
  ghost predicate Mirrors(shape: Shape, kids: seq<VNode>, t: DirTree, k: nat, depth: nat)
    decreases t, k
  {
    k <= |Entries(t)| == |t.subs| &&
    if k == 0 then kids == []
    else if IsDots(Entries(t)[k - 1]) then Mirrors(shape, kids, t, k - 1, depth)
    else
      && kids != [] && Mirrors(shape, kids[..|kids| - 1], t, k - 1, depth)
      && NodeMirrors(shape, kids[|kids| - 1], Entries(t)[k - 1], t.subs[k - 1], depth)
  }

  ghost predicate NodeMirrors(shape: Shape, n: VNode, e: Entry, sub: DirTree, depth: nat)
    decreases sub, |Entries(sub)| + 1
  {
    && n in shape && shape[n].name == Text(e.name) && shape[n].kind == TypeTranslate(e.kind)
    && shape[n].inode == e.inode && shape[n].level == depth
    && (shape[n].kind == VFS_DIR <==> e.kind == 2)
    && if e.kind == 2 then Mirrors(shape, shape[n].kids, sub, Listed(sub), depth + 1) else shape[n].kids == []
  }

  // All nodes but `p` are as before.
  ghost predicate ChangedAt(before: Shape, after: Shape, p: VNode) {
    forall n :: n in before ==> n in after && (n != p ==> after[n] == before[n])
  }

  // Changing one node outside keeps a mirrored list.
  lemma {:induction false} MirrorsKept(before: Shape, after: Shape, p: VNode, kids: seq<VNode>, t: DirTree, k: nat, depth: nat)
    requires Mirrors(before, kids, t, k, depth) && ChangedAt(before, after, p)
    requires p in before ==> before[p].level <= depth
    requires p !in kids
    ensures Mirrors(after, kids, t, k, depth)
    decreases t, k
  {
    if k > 0 {
      if IsDots(Entries(t)[k - 1]) {
        MirrorsKept(before, after, p, kids, t, k - 1, depth);
      } else {
        var n := kids[|kids| - 1];
        MirrorsKept(before, after, p, kids[..|kids| - 1], t, k - 1, depth);
        NodeKept(before, after, p, n, Entries(t)[k - 1], t.subs[k - 1], depth);
      }
    }
  }

  lemma {:induction false} NodeKept(before: Shape, after: Shape, p: VNode, n: VNode, e: Entry, sub: DirTree, depth: nat)
    requires NodeMirrors(before, n, e, sub, depth) && ChangedAt(before, after, p)
    requires p in before ==> before[p].level <= depth
    requires n != p
    ensures NodeMirrors(after, n, e, sub, depth)
    decreases sub, |Entries(sub)| + 1
  {
    if e.kind == 2 {
      KidsAreDeeper(before, before[n].kids, sub, Listed(sub), depth + 1);
      MirrorsKept(before, after, p, before[n].kids, sub, Listed(sub), depth + 1);
    }
  }

  lemma {:induction false} KidsAreDeeper(shape: Shape, kids: seq<VNode>, t: DirTree, k: nat, depth: nat)
    requires Mirrors(shape, kids, t, k, depth)
    ensures forall n :: n in kids ==> n in shape && shape[n].level == depth
    decreases k
  {
    if k > 0 {
      if IsDots(Entries(t)[k - 1]) {
        KidsAreDeeper(shape, kids, t, k - 1, depth);
      } else {
        KidsAreDeeper(shape, kids[..|kids| - 1], t, k - 1, depth);
        assert kids == kids[..|kids| - 1] + [kids[|kids| - 1]];
      }
    }
  }

  // Node `root` has `kids` appended to its children; earlier nodes are as before.
  ghost predicate Grown(before: Shape, after: Shape, root: VNode, kids: seq<VNode>) {
    && ChangedAt(before, after, root) && root in before
    && after[root] == before[root].(kids := before[root].kids + kids)
  }

  // A node without children has been appended.
  ghost predicate Extended(before: Shape, after: Shape, root: VNode, n: VNode, rec: Rec) {
    Grown(before, after, root, [n]) && n !in before && n in after && after[n] == rec
  }

  lemma GrownMore(s0: Shape, s: Shape, s2: Shape, root: VNode, kids: seq<VNode>, n: VNode)
    requires Grown(s0, s, root, kids) && Grown(s, s2, root, [n])
    ensures Grown(s0, s2, root, kids + [n])
  {
    assert s0[root].kids + kids + [n] == s0[root].kids + (kids + [n]);
  }

  lemma GrownBelow(s0: Shape, s2: Shape, s3: Shape, root: VNode, kids: seq<VNode>, n: VNode)
    requires Grown(s0, s2, root, kids) && n !in s0 && ChangedAt(s2, s3, n)
    ensures Grown(s0, s3, root, kids)
  {
  }

  // One entry more: a node is appended, and what is below it is filled in.
  lemma OneMore(s: Shape, s2: Shape, s3: Shape, root: VNode, kids: seq<VNode>, n: VNode, t: DirTree, k: nat, depth: nat)
    requires Mirrors(s, kids, t, k, depth) && k < |Entries(t)| && !IsDots(Entries(t)[k])
    requires root in s && s[root].level < depth && n !in s && n in s2 && s2[n].level == depth
    requires ChangedAt(s, s2, root) && ChangedAt(s2, s3, n) && NodeMirrors(s3, n, Entries(t)[k], t.subs[k], depth)
    ensures Mirrors(s3, kids + [n], t, k + 1, depth)
  {
    KidsAreDeeper(s, kids, t, k, depth);
    MirrorsKept(s, s2, root, kids, t, k, depth);
    MirrorsKept(s2, s3, n, kids, t, k, depth);
    assert (kids + [n])[..|kids|] == kids;
  }

  lemma NodeFilled(s2: Shape, s3: Shape, n: VNode, e: Entry, sub: DirTree, kids: seq<VNode>, depth: nat)
    requires n in s2 && s2[n] == Rec(Text(e.name), TypeTranslate(e.kind), e.inode, depth, [])
    requires if e.kind == 2
      then Grown(s2, s3, n, kids) && Mirrors(s3, kids, sub, Listed(sub), depth + 1)
      else s3 == s2
    ensures ChangedAt(s2, s3, n) && NodeMirrors(s3, n, e, sub, depth)
  {
    assert [] + kids == kids;
  }

  // Lines 284 to 289.
  method AddEntry(tree: Tree, root: VNode, ent: Dirent) returns (n: VNode)
    requires tree.Valid() && root in tree.nodes
    modifies tree, tree.nodes
    ensures tree.Valid() && tree.root == old(tree.root) && fresh(n) && tree.nodes == old(tree.nodes) + {n}
    ensures Extended(old(ShapeOf(tree)), ShapeOf(tree), root, n,
      Rec(Text(ent.name), TypeTranslate(ent.kind), ent.inode, old(root.level) + 1, []))
  {
    n := tree.AddWithInode(root, Text(ent.name), TypeTranslate(ent.kind), ent.inode);
    assert tree.Family(root) && tree.Child(root, |root.kids| - 1);
  }

  // The tree has grown from shape `s0` by `kids` below `root`, for the first
  // `k` entries of `t`.
  ghost predicate Populated(tree: Tree, s0: Shape, root: VNode, kids: seq<VNode>, t: DirTree, k: nat, depth: nat)
    reads tree, tree.nodes
  {
    && tree.Valid() && root in s0 && Grown(s0, ShapeOf(tree), root, kids)
    && s0[root].level + 1 == depth && Mirrors(ShapeOf(tree), kids, t, k, depth)
  }

  lemma PopulatedAtFirst(tree: Tree, root: VNode, t: DirTree, depth: nat)
    requires tree.Valid() && root in tree.nodes && root.level + 1 == depth && |t.subs| == |Entries(t)|
    ensures Populated(tree, ShapeOf(tree), root, [], t, 0, depth)
  {
    assert root.kids + [] == root.kids;
  }

  // vfs_ext2_populate: below `root`, and nowhere else, there appears a node for
  // every entry listed but "." and "..", in disk order, and so on down the tree.
  method Populate(tree: Tree, root: VNode, dir: Dir, ghost s0: Shape, ghost t: DirTree, ghost depth: nat) returns (ghost kids: seq<VNode>)
    requires s0 == ShapeOf(tree) && tree.Valid() && root in tree.nodes && root.level + 1 == depth
    requires dir.Reading(t.blocks, 0, 0) && TreeOnDisk(dir.vol, dir.inodeNumber, t)
    modifies tree, tree.nodes, dir, dir.buffer
    ensures tree.root == old(tree.root) && old(tree.nodes) <= tree.nodes && fresh(tree.nodes - old(tree.nodes))
    ensures Populated(tree, s0, root, kids, t, Listed(t), depth)
    decreases t, 1
  {
    AtFirst(dir, t);
    PopulatedAtFirst(tree, root, t, depth);
    kids := Rounds(tree, root, dir, s0, t, depth);
  }

  // Lines 272 to 298.
  method Rounds(tree: Tree, root: VNode, dir: Dir, ghost s0: Shape, ghost t: DirTree, ghost depth: nat) returns (ghost kids: seq<VNode>)
    requires AtEntry(dir, t, 0, 0, 0) && TreeOnDisk(dir.vol, dir.inodeNumber, t) && Populated(tree, s0, root, [], t, 0, depth)
    modifies tree, tree.nodes, dir, dir.buffer
    ensures tree.root == old(tree.root) && old(tree.nodes) <= tree.nodes && fresh(tree.nodes - old(tree.nodes))
    ensures Populated(tree, s0, root, kids, t, Listed(t), depth)
    decreases t, 0, 3
  {
    ghost var j, i, k := 0, 0, 0;
    kids := [];
    var found := true;
    while found
      invariant tree.root == old(tree.root) && old(tree.nodes) <= tree.nodes
      invariant forall n :: n in tree.nodes && n !in old(tree.nodes) ==> fresh(n)
      invariant k <= Listed(t) && Populated(tree, s0, root, kids, t, k, depth)
      invariant if found then AtEntry(dir, t, j, i, k) else k == Listed(t)
      decreases found, Listed(t) - k
    {
      ghost var before := tree.nodes;
      found, kids, j, i := Round(tree, root, dir, s0, kids, t, j, i, k, depth);
      forall n | n in tree.nodes && n !in old(tree.nodes) ensures fresh(n) {
        assert n in before || n in tree.nodes - before;
      }
      k := if found then k + 1 else k;
    }
  }

  // The iterator stands before entry `k` of the directory.
  ghost predicate AtEntry(dir: Dir, t: DirTree, j: nat, i: nat, k: nat)
    reads dir, dir.buffer
  {
    k <= |Entries(t)| && dir.Reading(t.blocks, j, i) && Rest(t.blocks, j, i) == Entries(t)[k..]
  }

  lemma AtFirst(dir: Dir, t: DirTree)
    requires dir.Reading(t.blocks, 0, 0)
    ensures AtEntry(dir, t, 0, 0, 0)
  {
    assert Rest(t.blocks, 0, 0) == Entries(t) == Entries(t)[0..];
  }

  // One round of the loop.
  method Round(tree: Tree, root: VNode, dir: Dir, ghost s0: Shape, ghost kids: seq<VNode>, ghost t: DirTree, ghost j: nat, ghost i: nat,
      ghost k: nat, ghost depth: nat) returns (found: bool, ghost kids': seq<VNode>, ghost j': nat, ghost i': nat)
    requires AtEntry(dir, t, j, i, k) && TreeOnDisk(dir.vol, dir.inodeNumber, t)
    requires Populated(tree, s0, root, kids, t, k, depth) && k <= Listed(t)
    modifies tree, tree.nodes, dir, dir.buffer
    ensures tree.root == old(tree.root) && old(tree.nodes) <= tree.nodes && fresh(tree.nodes - old(tree.nodes))
    ensures found <==> k < Listed(t)
    ensures Populated(tree, s0, root, kids', t, if found then k + 1 else k, depth)
    ensures found ==> AtEntry(dir, t, j', i', k + 1)
    decreases t, 0, 2
  {
    found, j', i' := NextEntry(dir, t, j, i, k);
    kids' := kids;
    assert Populated(tree, s0, root, kids, t, k, depth);
    if found {
      label next:
      kids' := PopulateEntry(tree, root, dir.vol, dir.ent, s0, kids, t, k, depth);
      assert unchanged@next(dir, dir.buffer);
    }
  }

  // The call of ext2_readdir.
  method NextEntry(dir: Dir, ghost t: DirTree, ghost j: nat, ghost i: nat, ghost k: nat)
    returns (found: bool, ghost j': nat, ghost i': nat)
    requires AtEntry(dir, t, j, i, k) && TreeOnDisk(dir.vol, dir.inodeNumber, t) && k <= Listed(t)
    modifies dir, dir.buffer
    ensures found <==> k < Listed(t)
    ensures found ==> AtEntry(dir, t, j', i', k + 1)
    ensures found ==> dir.ent == DirentOf(dir.vol, Entries(t)[k]) && SubOnDisk(dir.vol, Entries(t)[k], t.subs[k])
  {
    found, j', i' := dir.ReadDir(t.blocks, j, i);
    if k < Listed(t) {
      assert SubOnDisk(dir.vol, Entries(t)[k], t.subs[k]);
      assert Entries(t)[k..][1..] == Entries(t)[k + 1..];
    }
  }

  // Lines 280 to 296.
  method PopulateEntry(tree: Tree, root: VNode, vol: Volume, ent: Dirent, ghost s0: Shape, ghost kids: seq<VNode>, ghost t: DirTree,
      ghost k: nat, ghost depth: nat) returns (ghost kids': seq<VNode>)
    requires Populated(tree, s0, root, kids, t, k, depth) && k < Listed(t)
    requires SubOnDisk(vol, Entries(t)[k], t.subs[k]) && ent == DirentOf(vol, Entries(t)[k])
    modifies tree, tree.nodes
    ensures tree.root == old(tree.root) && old(tree.nodes) <= tree.nodes && fresh(tree.nodes - old(tree.nodes))
    ensures Populated(tree, s0, root, kids', t, k + 1, depth)
    decreases t, 0, 1
  {
    if Text(ent.name) == "." || Text(ent.name) == ".." {
      DotsSkipped(ShapeOf(tree), kids, t, k, depth);
      return kids;
    }
    kids' := PopulateNode(tree, root, vol, ent, s0, kids, t, k, depth);
  }

  lemma DotsSkipped(s: Shape, kids: seq<VNode>, t: DirTree, k: nat, depth: nat)
    requires Mirrors(s, kids, t, k, depth) && k < |Entries(t)| && IsDots(Entries(t)[k])
    ensures Mirrors(s, kids, t, k + 1, depth)
  {
  }

  method PopulateNode(tree: Tree, root: VNode, vol: Volume, ent: Dirent, ghost s0: Shape, ghost kids: seq<VNode>, ghost t: DirTree,
      ghost k: nat, ghost depth: nat) returns (ghost kids': seq<VNode>)
    requires Populated(tree, s0, root, kids, t, k, depth) && k < Listed(t) && !IsDots(Entries(t)[k])
    requires SubOnDisk(vol, Entries(t)[k], t.subs[k]) && ent == DirentOf(vol, Entries(t)[k])
    modifies tree, tree.nodes
    ensures tree.root == old(tree.root) && old(tree.nodes) <= tree.nodes && fresh(tree.nodes - old(tree.nodes))
    ensures Populated(tree, s0, root, kids', t, k + 1, depth)
    decreases t, 0, 0
  {
    ghost var s := ShapeOf(tree);
    ghost var n, s2 := AddAndFill(tree, root, vol, ent, Entries(t)[k], t.subs[k], depth);
    kids' := kids + [n];
    OneMorePopulated(s0, s, s2, ShapeOf(tree), root, kids, n, t, k, depth);
  }

  method AddAndFill(tree: Tree, root: VNode, vol: Volume, ent: Dirent, ghost e: Entry, ghost sub: DirTree, ghost depth: nat)
    returns (ghost n: VNode, ghost s2: Shape)
    requires tree.Valid() && root in tree.nodes && root.level + 1 == depth
    requires SubOnDisk(vol, e, sub) && !IsDots(e) && ent == DirentOf(vol, e)
    modifies tree, tree.nodes
    ensures tree.root == old(tree.root) && old(tree.nodes) <= tree.nodes && fresh(tree.nodes - old(tree.nodes))
    ensures tree.Valid() && Extended(old(ShapeOf(tree)), s2, root, n, Rec(Text(e.name), TypeTranslate(e.kind), e.inode, depth, []))
    ensures ChangedAt(s2, ShapeOf(tree), n) && NodeMirrors(ShapeOf(tree), n, e, sub, depth)
    decreases sub, 3
  {
    var node := AddEntry(tree, root, ent);
    n, s2 := node, ShapeOf(tree);
    ghost var before := tree.nodes;
    FillBelow(tree, node, vol, ent, e, sub, depth);
    forall x | x in tree.nodes && x !in old(tree.nodes) ensures fresh(x) {
      assert x in before || x in tree.nodes - before;
    }
  }

  lemma OneMorePopulated(s0: Shape, s: Shape, s2: Shape, s3: Shape, root: VNode, kids: seq<VNode>, n: VNode, t: DirTree,
      k: nat, depth: nat)
    requires root in s0 && s0[root].level + 1 == depth && Grown(s0, s, root, kids) && Mirrors(s, kids, t, k, depth)
    requires k < Listed(t) && !IsDots(Entries(t)[k])
    requires Grown(s, s2, root, [n]) && n !in s && n in s2 && s2[n].level == depth
    requires ChangedAt(s2, s3, n) && NodeMirrors(s3, n, Entries(t)[k], t.subs[k], depth)
    ensures Grown(s0, s3, root, kids + [n]) && Mirrors(s3, kids + [n], t, k + 1, depth)
  {
    GrownMore(s0, s, s2, root, kids, n);
    GrownBelow(s0, s2, s3, root, kids + [n], n);
    OneMore(s, s2, s3, root, kids, n, t, k, depth);
  }

  // Lines 291 to 296.
  method FillBelow(tree: Tree, n: VNode, vol: Volume, ent: Dirent, ghost e: Entry, ghost sub: DirTree, ghost depth: nat)
    requires tree.Valid() && n in tree.nodes
    requires SubOnDisk(vol, e, sub) && !IsDots(e) && ent == DirentOf(vol, e)
    requires ShapeOf(tree)[n] == Rec(Text(e.name), TypeTranslate(e.kind), e.inode, depth, [])
    modifies tree, tree.nodes
    ensures tree.root == old(tree.root) && old(tree.nodes) <= tree.nodes && fresh(tree.nodes - old(tree.nodes))
    ensures tree.Valid() && ChangedAt(old(ShapeOf(tree)), ShapeOf(tree), n) && NodeMirrors(ShapeOf(tree), n, e, sub, depth)
    decreases sub, 2
  {
    ghost var s2 := ShapeOf(tree);
    TypeValues(ent.kind);
    if TypeTranslate(ent.kind) == VFS_DIR {
      ghost var kids := FillDirectory(tree, n, vol, ent, s2, e, sub, depth);
      NodeFilled(s2, ShapeOf(tree), n, e, sub, kids, depth);
    } else {
      NodeFilled(s2, s2, n, e, sub, [], depth);
    }
  }

  // Lines 293 and 294.
  method FillDirectory(tree: Tree, n: VNode, vol: Volume, ent: Dirent, ghost s0: Shape, ghost e: Entry, ghost sub: DirTree, ghost depth: nat)
    returns (ghost kids: seq<VNode>)
    requires s0 == ShapeOf(tree) && tree.Valid() && n in tree.nodes && n.level == depth
    requires SubOnDisk(vol, e, sub) && !IsDots(e) && ent == DirentOf(vol, e) && TypeTranslate(ent.kind) == VFS_DIR
    modifies tree, tree.nodes
    ensures tree.root == old(tree.root) && old(tree.nodes) <= tree.nodes && fresh(tree.nodes - old(tree.nodes))
    ensures Populated(tree, s0, n, kids, sub, Listed(sub), depth + 1)
    decreases sub, 2, 0
  {
    var subDir := OpenSub(vol, ent, e, sub);
    kids := Populate(tree, n, subDir, s0, sub, depth + 1);
  }

  method OpenSub(vol: Volume, ent: Dirent, ghost e: Entry, ghost sub: DirTree) returns (dir: Dir)
    requires SubOnDisk(vol, e, sub) && !IsDots(e) && ent == DirentOf(vol, e) && TypeTranslate(ent.kind) == VFS_DIR
    ensures fresh(dir) && fresh(dir.buffer) && dir.Reading(sub.blocks, 0, 0) && TreeOnDisk(dir.vol, dir.inodeNumber, sub)
  {
    dir := OpenTree(vol, ent.inode, sub);
  }

  method OpenTree(vol: Volume, number: nat, ghost t: DirTree) returns (dir: Dir)
    requires TreeOnDisk(vol, number, t)
    ensures fresh(dir) && fresh(dir.buffer) && dir.Reading(t.blocks, 0, 0) && TreeOnDisk(dir.vol, dir.inodeNumber, t)
  {
    dir := OpenDir(vol, number, 0);
  }

  // vfs_mount_ext2: the root directory is inode 2. A tree that the inode records
  // describe is such a tree, by RecordedTree.
  method MountExt2(fs: Fs, tree: Tree, mtpt: VNode, ghost t: DirTree, ghost depth: nat) returns (ghost kids: seq<VNode>)
    requires tree.Valid() && mtpt in tree.nodes && mtpt.level + 1 == depth && Mounted(fs) && TreeOnDisk(VolumeOf(fs), 2, t)
    modifies tree, tree.nodes
    ensures Populated(tree, old(ShapeOf(tree)), mtpt, kids, t, Listed(t), depth)
  {
    ghost var s0 := ShapeOf(tree);
    var dir := OpenTree(VolumeOf(fs), 2, t);
    kids := Populate(tree, mtpt, dir, s0, t, depth);
  }

  // The inodes and blocks recorded on the partition are a directory tree.
  ghost predicate TreeRecorded(fs: Fs, number: nat, t: DirTree)
    requires Mounted(fs)
    decreases t
  {
    && (exists inode :: Stored(fs, number, inode) && DirectoryOf(fs, inode, t.blocks))
    && |t.subs| == |Entries(t)|
    && forall k :: 0 <= k < Listed(t) ==>
         (Entries(t)[k].kind == 2 && !IsDots(Entries(t)[k]) ==> TreeRecorded(fs, Entries(t)[k].inode, t.subs[k]))
  }

  ghost predicate DirectoryOf(fs: Fs, inode: Inode, blocks: seq<seq<Entry>>)
    requires Mounted(fs)
  {
    |inode.direct| == 12 && IsDir(inode) && Recorded(fs, inode, blocks)
  }

  // Then it is the tree that the code finds there.
  lemma {:induction false} RecordedTree(fs: Fs, number: nat, t: DirTree)
    requires Mounted(fs) && TreeRecorded(fs, number, t)
    ensures TreeOnDisk(VolumeOf(fs), number, t)
    decreases t
  {
    var inode :| Stored(fs, number, inode) && DirectoryOf(fs, inode, t.blocks);
    StoredIsRead(fs, number, inode);
    RecordedBlocks(fs, number, t.blocks);
    VolumeInode(fs, number);
    forall k | 0 <= k < Listed(t) ensures SubOnDisk(VolumeOf(fs), Entries(t)[k], t.subs[k]) {
      if Entries(t)[k].kind == 2 && !IsDots(Entries(t)[k]) {
        RecordedTree(fs, Entries(t)[k].inode, t.subs[k]);
      }
    }
  }

  lemma VolumeInode(fs: Fs, number: nat)
    requires Mounted(fs)
    ensures VolumeOf(fs).inode(number) == GetInode(fs, number)
  {
  }

  // ----- paths below a mount point -----

  datatype Found = Nothing | At(k: nat)

  // The first of the first `k` entries with the given name.
  function FirstEntry(es: seq<Entry>, k: nat, name: string): (r: Found)
    requires k <= |es|
    ensures r.At? ==> r.k < k
  {
    if k == 0 then Nothing
    else
      var r := FirstEntry(es, k - 1, name);
      if r.At? then r else if Text(es[k - 1].name) == name then At(k - 1) else Nothing
  }

  // The entry that a list of names leads to on disk, through entries that are listed.
  function DiskResolve(t: DirTree, names: seq<string>): Option<Entry>
    requires names != []
    decreases |names|
  {
    var r := FirstEntry(Entries(t), Listed(t), names[0]);
    if r.Nothing? || |t.subs| != |Entries(t)| then None
    else
      var e := Entries(t)[r.k];
      if |names| == 1 then Some(e)
      else if e.kind != 2 then None
      else DiskResolve(t.subs[r.k], names[1..])
  }

  // The first node of a name stands for the first entry of that name.
  lemma {:induction false} MirrorFind(shape: Shape, kids: seq<VNode>, t: DirTree, k: nat, depth: nat, name: string) returns (c: nat)
    requires Mirrors(shape, kids, t, k, depth) && name != "." && name != ".."
    ensures c <= |kids| && (c == |kids| <==> FirstEntry(Entries(t), k, name).Nothing?)
    ensures forall i :: 0 <= i < c ==> kids[i] in shape && shape[kids[i]].name != name
    ensures c < |kids| ==> kids[c] in shape && shape[kids[c]].name == name
    ensures c < |kids| ==> var i := FirstEntry(Entries(t), k, name).k; NodeMirrors(shape, kids[c], Entries(t)[i], t.subs[i], depth)
    decreases k
  {
    if k == 0 {
      c := 0;
    } else if IsDots(Entries(t)[k - 1]) {
      c := MirrorFind(shape, kids, t, k - 1, depth, name);
    } else {
      c := MirrorFind(shape, kids[..|kids| - 1], t, k - 1, depth, name);
      if c == |kids| - 1 && shape[kids[c]].name != name {
        c := |kids|;
      }
    }
  }

  // One name: the child looked up stands for the entry, or neither is there.
  lemma LookupMirrors(tree: Tree, n: VNode, t: DirTree, name: string) returns (r: Found, c: VNode?)
    requires tree.Valid() && n in tree.nodes && name != "." && name != ".."
    requires Mirrors(ShapeOf(tree), n.kids, t, Listed(t), n.level + 1)
    ensures |t.subs| == |Entries(t)| && r == FirstEntry(Entries(t), Listed(t), name) && c == tree.Lookup(n, name)
    ensures r.Nothing? <==> c == null
    ensures c != null ==> c in tree.nodes && Stands(tree, c, Entries(t)[r.k], t.subs[r.k])
  {
    var j := MirrorFind(ShapeOf(tree), n.kids, t, Listed(t), n.level + 1, name);
    tree.KidsAreNodes(n);
    tree.LookupIs(n, name, j);
    r, c := FirstEntry(Entries(t), Listed(t), name), tree.Lookup(n, name);
  }

  ghost predicate Stands(tree: Tree, c: VNode, e: Entry, sub: DirTree)
    reads tree, tree.nodes, c
  {
    && c.inode == e.inode && c.kind == TypeTranslate(e.kind)
    && if e.kind == 2 then Mirrors(ShapeOf(tree), c.kids, sub, Listed(sub), c.level + 1) else c.kids == []
  }

  // The node `r` is the one for what a path leads to on disk, or both are missing.
  ghost predicate StandsFor(r: VNode?, found: Option<Entry>)
    reads if r == null then {} else {r}
  {
    if found.None? then r == null
    else r != null && r.inode == found.value.inode && r.kind == TypeTranslate(found.value.kind)
  }

  // Below a node that mirrors a directory tree, path resolution in the
  // namespace finds a node with the inode that the path has on disk, and finds
  // none exactly if the path leads nowhere on disk.
  lemma {:induction false} PathsFindInodes(tree: Tree, n: VNode, t: DirTree, names: seq<string>)
    requires tree.Valid() && n in tree.nodes && names != [] && "." !in names && ".." !in names
    requires Mirrors(ShapeOf(tree), n.kids, t, Listed(t), n.level + 1)
    ensures StandsFor(tree.Resolve(n, names), DiskResolve(t, names))
    decreases |names|
  {
    var r, c := LookupMirrors(tree, n, t, names[0]);
    ResolveCons(tree, n, names);
    if c != null {
      if |names| == 1 {
        assert names[1..] == [];
      } else if Entries(t)[r.k].kind == 2 {
        PathsFindInodes(tree, c, t.subs[r.k], names[1..]);
      } else {
        NothingBelow(tree, c, names[1..]);
      }
    }
  }

  lemma NothingBelow(tree: Tree, c: VNode, names: seq<string>)
    requires tree.Valid() && c in tree.nodes && c.kids == [] && names != [] && "." !in names && ".." !in names
    ensures tree.Resolve(c, names) == null
  {
    tree.LookupIs(c, names[0], 0);
    ResolveCons(tree, c, names);
  }

  lemma {:induction false} ResolveCons(tree: Tree, n: VNode, names: seq<string>)
    requires tree.Valid() && n in tree.nodes && names != []
    ensures tree.Resolve(n, names) == if tree.Lookup(n, names[0]) == null then null else tree.Resolve(tree.Lookup(n, names[0]), names[1..])
    decreases |names|
  {
    var last, first := |names| - 1, tree.Lookup(n, names[0]);
    var front := names[..last];
    tree.ResolveSnoc(n, front, names[last]);
    assert names == front + [names[last]];
    if last == 0 {
      assert front == [] && names[1..] == [];
    } else {
      ResolveCons(tree, n, front);
      if first != null {
        assert names[1..] == front[1..] + [names[last]];
        tree.ResolveSnoc(first, front[1..], names[last]);
      }
    }
  }
}
