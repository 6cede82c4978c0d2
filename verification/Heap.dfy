// The kernel heap of kernel/mem/heap.c on its doubly linked lists, updated in
// place. A null pointer that the code reads through is the outcome `fault`.
module Heap {
  import opened Common
  import opened HeapSpec

  // free_ll_t and alloc_ll_t.
  class Node {
    var addr: nat
    var size: nat
    var prev: Node?
    var next: Node?
    ghost const recordsFree: bool  // which of the two lists the node is made for

    constructor (addr: nat, size: nat, ghost recordsFree: bool)
      ensures this.addr == addr && this.size == size && prev == null && next == null
      ensures this.recordsFree == recordsFree
    {
      this.addr, this.size, prev, next := addr, size, null, null;
      this.recordsFree := recordsFree;
    }
  }

  ghost function At(nodes: seq<Node>, i: int): Node? {
    if 0 <= i < |nodes| then nodes[i] else null
  }

  // Following `next` from `head` visits `nodes`.
  ghost predicate Chain(nodes: seq<Node>, head: Node?)
    reads nodes
  {
    && Distinct(nodes) && head == At(nodes, 0)
    && forall i {:trigger nodes[i].next} :: 0 <= i < |nodes| ==> nodes[i].next == At(nodes, i + 1)
  }

  // The links `prev` are the inverse of `next`.
  ghost predicate Prevs(nodes: seq<Node>)
    reads nodes
  {
    forall i {:trigger nodes[i].prev} :: 0 <= i < |nodes| ==> nodes[i].prev == At(nodes, i - 1)
  }

  ghost function Blocks(nodes: seq<Node>): (s: seq<Block>)
    reads nodes
    ensures |s| == |nodes| && forall i :: 0 <= i < |s| ==> s[i] == Block(nodes[i].addr, nodes[i].size)
  {
    seq(|nodes|, i requires 0 <= i < |nodes| reads nodes => Block(nodes[i].addr, nodes[i].size))
  }

  // The links of all nodes but `k` pass over node `k`.
  ghost predicate Bypassed(nodes: seq<Node>, head: Node?, k: nat)
    requires k < |nodes|
    reads nodes
  {
    && Distinct(nodes) && head == At(nodes, if k == 0 then 1 else 0)
    && (forall i {:trigger nodes[i].next} :: 0 <= i < |nodes| && i != k ==>
          nodes[i].next == At(nodes, if i == k - 1 then k + 1 else i + 1))
    && (forall i {:trigger nodes[i].prev} :: 0 <= i < |nodes| && i != k ==>
          nodes[i].prev == At(nodes, if i == k + 1 then k - 1 else i - 1))
  }

  lemma BypassedIsRemoved(nodes: seq<Node>, head: Node?, k: nat)
    requires k < |nodes| && Bypassed(nodes, head, k)
    ensures Chain(Remove(nodes, k), head) && Prevs(Remove(nodes, k))
  {
    var r := Remove(nodes, k);
    forall i | 0 <= i < |r|
      ensures r[i] == nodes[if i < k then i else i + 1]
      ensures r[i].next == At(r, i + 1)
      ensures r[i].prev == At(r, i - 1)
    {
    }
  }

  lemma BlocksOfRemove(nodes: seq<Node>, k: nat)
    requires k < |nodes|
    ensures Blocks(Remove(nodes, k)) == Remove(Blocks(nodes), k)
  {
  }

  method Bypass(ghost nodes: seq<Node>, head: Node?, node: Node, ghost k: nat) returns (head': Node?)
    requires Chain(nodes, head) && Prevs(nodes) && k < |nodes| && node == nodes[k]
    modifies nodes
    ensures Bypassed(nodes, head', k)
    ensures Blocks(nodes) == old(Blocks(nodes))
    ensures node.addr == old(node.addr) && node.size == old(node.size)
  {
    head' := head;
    if node.prev != null {
      node.prev.next := node.next;
    } else {
      head' := node.next;
    }
    if node.next != null {
      node.next.prev := node.prev;
    }
  }

  // Takes node `k` out of a list; the result is the new head.
  method Unlink(ghost nodes: seq<Node>, head: Node?, node: Node, ghost k: nat) returns (head': Node?)
    requires Chain(nodes, head) && Prevs(nodes) && k < |nodes| && node == nodes[k]
    modifies nodes
    ensures Chain(Remove(nodes, k), head') && Prevs(Remove(nodes, k))
    ensures Blocks(Remove(nodes, k)) == Remove(old(Blocks(nodes)), k)
    ensures node.addr == old(node.addr) && node.size == old(node.size)
  {
    head' := Bypass(nodes, head, node, k);
    BypassedIsRemoved(nodes, head', k);
    BlocksOfRemove(nodes, k);
  }

  // Puts `node` at position `k` between its neighbours; the result is the new head.
  method Splice(ghost nodes: seq<Node>, head: Node?, node: Node, prev: Node?, next: Node?, ghost k: nat)
    returns (head': Node?)
    requires Chain(nodes, head) && Prevs(nodes) && k <= |nodes| && node !in nodes
    requires prev == At(nodes, k - 1) && next == At(nodes, k)
    modifies nodes, node
    ensures Chain(InsertAt(nodes, k, node), head') && Prevs(InsertAt(nodes, k, node))
    ensures Blocks(InsertAt(nodes, k, node)) == InsertAt(old(Blocks(nodes)), k, old(Block(node.addr, node.size)))
  {
    head' := head;
    node.next := next;
    node.prev := prev;
    if prev != null {
      prev.next := node;
    } else {
      head' := node;
    }
    assert forall i {:trigger nodes[i].next} :: 0 <= i < |nodes| ==>
      nodes[i].next == if i == k - 1 then node else At(nodes, i + 1);
    if next != null {
      next.prev := node;
    }
    assert Blocks(nodes) == old(Blocks(nodes));
    SplicedIsInserted(nodes, head', node, k);
  }

  // The links of `nodes` pass through `node` between positions k - 1 and k.
  lemma SplicedIsInserted(nodes: seq<Node>, head: Node?, node: Node, k: nat)
    requires Distinct(nodes) && k <= |nodes| && node !in nodes
    requires head == if k == 0 then node else At(nodes, 0)
    requires node.next == At(nodes, k) && node.prev == At(nodes, k - 1)
    requires forall i {:trigger nodes[i].next} :: 0 <= i < |nodes| ==>
      nodes[i].next == if i == k - 1 then node else At(nodes, i + 1)
    requires forall i {:trigger nodes[i].prev} :: 0 <= i < |nodes| ==>
      nodes[i].prev == if i == k then node else At(nodes, i - 1)
    ensures Chain(InsertAt(nodes, k, node), head) && Prevs(InsertAt(nodes, k, node))
    ensures Blocks(InsertAt(nodes, k, node)) == InsertAt(Blocks(nodes), k, Block(node.addr, node.size))
  {
    var r := InsertAt(nodes, k, node);
    InsertedDistinct(nodes, node, k);
    InsertedAt(nodes, k, node, 0);
    InsertedBlocks(nodes, node, k);
    forall i | 0 <= i < |r| ensures r[i].next == At(r, i + 1) && r[i].prev == At(r, i - 1) {
      InsertedNext(nodes, node, k, i);
      InsertedPrev(nodes, node, k, i);
    }
  }

  lemma InsertedDistinct(nodes: seq<Node>, node: Node, k: nat)
    requires Distinct(nodes) && k <= |nodes| && node !in nodes
    ensures Distinct(InsertAt(nodes, k, node))
  {
  }

  lemma InsertedAt<T>(s: seq<T>, k: nat, x: T, i: nat)
    requires k <= |s| && i <= |s|
    ensures InsertAt(s, k, x)[i] == if i < k then s[i] else if i == k then x else s[i - 1]
  {
  }

  lemma InsertedBlocks(nodes: seq<Node>, node: Node, k: nat)
    requires k <= |nodes|
    ensures Blocks(InsertAt(nodes, k, node)) == InsertAt(Blocks(nodes), k, Block(node.addr, node.size))
  {
    forall i | 0 <= i <= |nodes|
      ensures Blocks(InsertAt(nodes, k, node))[i] == InsertAt(Blocks(nodes), k, Block(node.addr, node.size))[i]
    {
      InsertedAt(nodes, k, node, i);
      InsertedAt(Blocks(nodes), k, Block(node.addr, node.size), i);
    }
  }

  lemma InsertedNext(nodes: seq<Node>, node: Node, k: nat, i: nat)
    requires i <= |nodes| && k <= |nodes| && node.next == At(nodes, k)
    requires forall j {:trigger nodes[j].next} :: 0 <= j < |nodes| ==>
      nodes[j].next == if j == k - 1 then node else At(nodes, j + 1)
    ensures var r := InsertAt(nodes, k, node); r[i].next == At(r, i + 1)
  {
    InsertedAt(nodes, k, node, i);
    if i < |nodes| { InsertedAt(nodes, k, node, i + 1); }
  }

  lemma InsertedPrev(nodes: seq<Node>, node: Node, k: nat, i: nat)
    requires i <= |nodes| && k <= |nodes| && node.prev == At(nodes, k - 1)
    requires forall j {:trigger nodes[j].prev} :: 0 <= j < |nodes| ==>
      nodes[j].prev == if j == k then node else At(nodes, j - 1)
    ensures var r := InsertAt(nodes, k, node); r[i].prev == At(r, i - 1)
  {
    InsertedAt(nodes, k, node, i);
    if i > 0 { InsertedAt(nodes, k, node, i - 1); }
  }

  // Adds the next block to this one and links past it, as both merges of
  // heap_free do. No link `prev` changes.
  method JoinNext(ghost nodes: seq<Node>, ghost head: Node?, node: Node, ghost k: nat)
    requires Chain(nodes, head) && k + 1 < |nodes| && node == nodes[k]
    modifies node`size, node`next
    ensures Chain(Remove(nodes, k + 1), head)
    ensures Blocks(Remove(nodes, k + 1)) == Join(old(Blocks(nodes)), k)
  {
    ghost var before := Blocks(nodes);
    node.size := node.size + node.next.size;
    node.next := node.next.next;
    SkippedIsRemoved(nodes, head, k);
    BlocksJoined(nodes, before, k);
  }

  lemma SkippedIsRemoved(nodes: seq<Node>, head: Node?, k: nat)
    requires k + 1 < |nodes| && Distinct(nodes) && head == At(nodes, 0) && nodes[k].next == At(nodes, k + 2)
    requires forall i {:trigger nodes[i].next} :: 0 <= i < |nodes| && i != k ==> nodes[i].next == At(nodes, i + 1)
    ensures Chain(Remove(nodes, k + 1), head)
  {
    var r := Remove(nodes, k + 1);
    forall i | 0 <= i < |r|
      ensures r[i] == nodes[if i <= k then i else i + 1]
      ensures r[i].next == At(r, i + 1)
    {
    }
  }

  lemma BlocksJoined(nodes: seq<Node>, before: seq<Block>, k: nat)
    requires k + 1 < |nodes| == |before|
    requires Blocks(nodes) == before[k := Block(before[k].addr, before[k].size + before[k + 1].size)]
    ensures Blocks(Remove(nodes, k + 1)) == Join(before, k)
  {
    BlocksOfRemove(nodes, k + 1);
  }

  // Cutting nodes [lo, hi) out of a list while no link `prev` changes leaves the
  // links inverse exactly when nothing follows the cut.
  lemma PrevsAfterCut(nodes: seq<Node>, lo: nat, hi: nat)
    requires Distinct(nodes) && Prevs(nodes) && 1 <= lo < hi <= |nodes|
    ensures Prevs(nodes[..lo] + nodes[hi..]) <==> hi == |nodes|
  {
    var r := nodes[..lo] + nodes[hi..];
    if hi < |nodes| {
      assert r[lo] == nodes[hi] && r[lo - 1] == nodes[lo - 1];
      assert nodes[hi].prev == nodes[hi - 1];
    } else {
      assert r == nodes[..lo];
      assert forall i :: 0 <= i < lo ==> r[i] == nodes[i];
    }
  }

  // JoinNext with the repair heap_free lacks: the node after the joined one
  // points back to the joined block.
  method JoinNextRepaired(ghost nodes: seq<Node>, ghost head: Node?, node: Node, ghost k: nat)
    requires Chain(nodes, head) && Prevs(nodes) && k + 1 < |nodes| && node == nodes[k]
    modifies nodes
    ensures Chain(Remove(nodes, k + 1), head) && Prevs(Remove(nodes, k + 1))
    ensures Blocks(Remove(nodes, k + 1)) == Join(old(Blocks(nodes)), k)
  {
    JoinNext(nodes, head, node, k);
    ghost var r := Remove(nodes, k + 1);
    assert r[k] == node && node.next == At(r, k + 1);
    if node.next != null {
      assert r[k + 1] == nodes[k + 2];
      node.next.prev := node;
    }
    RepairedPrevs(nodes, k);
  }

  lemma RepairedPrevs(nodes: seq<Node>, k: nat)
    requires k + 1 < |nodes| && (k + 2 < |nodes| ==> nodes[k + 2].prev == nodes[k])
    requires forall i {:trigger nodes[i].prev} :: 0 <= i < |nodes| && i != k + 2 ==> nodes[i].prev == At(nodes, i - 1)
    ensures Prevs(Remove(nodes, k + 1))
  {
    var r := Remove(nodes, k + 1);
    forall i | 0 <= i < |r| ensures r[i].prev == At(r, i - 1) {
      assert r[i] == nodes[if i <= k then i else i + 1];
    }
  }

  class Heap {
    const start: nat
    const size: nat
    const maxSize: nat
    var freeLl: Node?
    var allocLl: Node?
    ghost var freeNodes: seq<Node>
    ghost var allocNodes: seq<Node>

    ghost predicate Valid()
      reads this, freeNodes, allocNodes
    {
      Chained() && Prevs(freeNodes)
    }

    // Everything but the links `prev` of the free list.
    ghost predicate Chained()
      reads this, freeNodes, allocNodes
    {
      && Chain(freeNodes, freeLl)
      && Chain(allocNodes, allocLl) && Prevs(allocNodes)
      && (forall i :: 0 <= i < |freeNodes| ==> freeNodes[i].recordsFree)
      && (forall i :: 0 <= i < |allocNodes| ==> !allocNodes[i].recordsFree)
    }

    ghost function View(): Lists
      reads this, freeNodes, allocNodes
    {
      Lists(Blocks(freeNodes), Blocks(allocNodes))
    }

    // heap_create.
    constructor (start: nat, size: nat, maxSize: nat)
      ensures Valid() && View() == Create(start, size)
      ensures fresh(freeNodes) && fresh(allocNodes)
    {
      this.start, this.size, this.maxSize := start, size, maxSize;
      var first := new Node(start, size, true);
      freeLl, allocLl := first, null;
      freeNodes, allocNodes := [first], [];
    }

    method SaveAllocatedBlock(addr: nat, size: nat)
      requires Valid()
      modifies this`allocLl, this`allocNodes, allocNodes
      ensures Valid()
      ensures View().free == old(View().free) && View().alloc == old(View().alloc) + [Block(addr, size)]
    {
      var node := new Node(addr, size, false);
      if allocLl == null {
        allocLl := node;
        allocNodes := [node];
        return;
      }
      var n := allocLl;
      ghost var i := 0;
      while n.next != null
        invariant 0 <= i < |allocNodes| && n == allocNodes[i]
        decreases |allocNodes| - i
      {
        n, i := n.next, i + 1;
      }
      AppendRecord(n, node);
    }

    // The new record goes after the last one.
    method AppendRecord(last: Node, node: Node)
      requires Valid() && |allocNodes| > 0 && last == allocNodes[|allocNodes| - 1]
      requires !node.recordsFree && node !in allocNodes
      modifies this`allocLl, this`allocNodes, allocNodes, node
      ensures Valid()
      ensures View().free == old(View().free) && View().alloc == old(View().alloc) + [old(Block(node.addr, node.size))]
    {
      ghost var grown := InsertAt(allocNodes, |allocNodes|, node);
      forall i | 0 <= i < |grown| ensures !grown[i].recordsFree {
        InsertedAt(allocNodes, |allocNodes|, node, i);
      }
      allocLl := Splice(allocNodes, allocLl, node, last, null, |allocNodes|);
      assert Blocks(freeNodes) == old(Blocks(freeNodes));
      assert Chain(freeNodes, freeLl) && Prevs(freeNodes);
      allocNodes := grown;
    }

    method FirstFit(n: nat) returns (r: Node?, ghost k: nat)
      requires Valid()
      ensures k == HeapSpec.FirstFit(View().free, n) && r == At(freeNodes, k)
    {
      r, k := freeLl, 0;
      while r != null && r.size < n
        invariant k <= |freeNodes| && r == At(freeNodes, k)
        invariant forall i :: 0 <= i < k ==> freeNodes[i].size < n
        decreases |freeNodes| - k
      {
        r, k := r.next, k + 1;
      }
    }

    // heap_alloc takes the first bytes of a block that is larger.
    method Shrink(node: Node, n: nat, ghost k: nat)
      requires Valid() && k < |freeNodes| && node == freeNodes[k] && n < node.size
      modifies node`addr, node`size
      ensures Valid()
      ensures View().free == Carve(old(View().free), k, n) && View().alloc == old(View().alloc)
    {
      ghost var before := Blocks(freeNodes);
      node.addr := node.addr + n;
      node.size := node.size - n;
      assert Blocks(allocNodes) == old(Blocks(allocNodes));
      assert Blocks(freeNodes) == before[k := Block(before[k].addr + n, before[k].size - n)];
    }

    // heap_alloc takes a block of exactly the size asked for.
    method TakeWhole(node: Node, ghost k: nat)
      requires Valid() && k < |freeNodes| && node == freeNodes[k]
      modifies this`freeLl, this`freeNodes, freeNodes
      ensures Valid()
      ensures View().free == Remove(old(View().free), k) && View().alloc == old(View().alloc)
    {
      ghost var rest := Remove(freeNodes, k);
      assert forall i :: 0 <= i < |rest| ==> rest[i].recordsFree;
      freeLl := Unlink(freeNodes, freeLl, node, k);
      assert Blocks(allocNodes) == old(Blocks(allocNodes));
      assert Chain(allocNodes, allocLl) && Prevs(allocNodes);
      freeNodes := rest;
    }

    method Alloc(n: nat) returns (r: Option<nat>)
      requires Valid()
      modifies this, freeNodes, allocNodes
      ensures Valid() && (View(), r) == HeapSpec.Alloc(old(View()), n)
    {
      var node, k := FirstFit(n);
      if node == null {
        return None;
      }
      var addr := node.addr;
      SaveAllocatedBlock(addr, n);
      if n < node.size {
        Shrink(node, n, k);
      } else {
        TakeWhole(node, k);
      }
      return Some(addr);
    }

    // Walks to the first record of `ptr`, or to the last record.
    method FindRecord(ptr: nat) returns (n: Node?, ghost a: nat)
      requires Valid()
      ensures View().alloc == [] <==> n == null
      ensures n != null ==> a < |allocNodes| && n == allocNodes[a]
      ensures n != null ==> a == if Find(View().alloc, ptr) < |allocNodes| then Find(View().alloc, ptr) else |allocNodes| - 1
    {
      n, a := allocLl, 0;
      if n == null {
        return;
      }
      while n.addr != ptr && n.next != null
        invariant a < |allocNodes| && n == allocNodes[a]
        invariant forall i :: 0 <= i < a ==> allocNodes[i].addr != ptr
        decreases |allocNodes| - a
      {
        n, a := n.next, a + 1;
      }
    }

    // Takes record `a` out of the allocated list.
    method DropRecord(node: Node, ghost a: nat)
      requires Valid() && a < |allocNodes| && node == allocNodes[a]
      modifies this`allocLl, this`allocNodes, allocNodes
      ensures Valid() && node.size == old(node.size)
      ensures View().alloc == Remove(old(View().alloc), a) && View().free == old(View().free)
    {
      ghost var rest := Remove(allocNodes, a);
      assert forall i :: 0 <= i < |rest| ==> !rest[i].recordsFree;
      allocLl := Unlink(allocNodes, allocLl, node, a);
      assert Blocks(freeNodes) == old(Blocks(freeNodes));
      assert Chain(freeNodes, freeLl) && Prevs(freeNodes);
      allocNodes := rest;
    }

    // heap_forget_allocated_block as written.
    method ForgetAllocatedBlock(ptr: nat) returns (fault: bool, r: nat)
      requires Valid()
      modifies this`allocLl, this`allocNodes, allocNodes
      ensures fault <==> ForgetFaults(old(View()).alloc, ptr)
      ensures !fault ==> Valid() && View().free == old(View()).free
      ensures !fault && Live(old(View()), ptr) ==>
        var a := Find(old(View()).alloc, ptr);
        r == old(View()).alloc[a].size && View().alloc == Remove(old(View()).alloc, a)
      ensures !fault && !Live(old(View()), ptr) ==> r == 0xFFFF_FFFF && View().alloc == old(View()).alloc
    {
      var n, a := FindRecord(ptr);
      if n == null {
        return true, 0;
      }
      if n.addr != ptr {
        return false, 0xFFFF_FFFF;
      }
      fault := ForgetFound(n, a);
      r := n.size;
    }

    // Lines 74 and 75: the record found leaves the list.
    method ForgetFound(n: Node, ghost a: nat) returns (fault: bool)
      requires Valid() && a < |allocNodes| && n == allocNodes[a]
      modifies this`allocLl, this`allocNodes, allocNodes
      ensures fault <==> a == 0 || a + 1 == |old(allocNodes)|
      ensures !fault ==> Valid() && View().free == old(View()).free && n.size == old(n.size)
      ensures !fault ==> View().alloc == Remove(old(View()).alloc, a)
    {
      if n.next == null {
        return true;
      }
      if n.prev == null {
        n.next.prev := n.prev;
        return true;
      }
      DropRecord(n, a);
      return false;
    }

    // Walks to the first free block at or above `ptr`; `below` is the block before it.
    method FindAbove(ptr: nat) returns (fl: Node?, below: Node?, ghost k: nat)
      requires Valid()
      ensures k == Above(View().free, ptr) && fl == At(freeNodes, k) && below == At(freeNodes, k - 1)
    {
      fl, below, k := freeLl, null, 0;
      while fl != null && ptr > fl.addr
        invariant k <= |freeNodes| && fl == At(freeNodes, k) && below == At(freeNodes, k - 1)
        invariant forall i :: 0 <= i < k ==> freeNodes[i].addr < ptr
        decreases |freeNodes| - k
      {
        fl, below, k := fl.next, fl, k + 1;
      }
    }

    method InsertFree(node: Node, below: Node?, fl: Node?, ghost k: nat)
      requires Valid() && k <= |freeNodes| && node.recordsFree && node !in freeNodes
      requires fl == At(freeNodes, k) && below == At(freeNodes, k - 1)
      modifies this`freeLl, this`freeNodes, freeNodes, node
      ensures Valid() && freeNodes == InsertAt(old(freeNodes), k, node)
      ensures View().free == InsertAt(old(View().free), k, old(Block(node.addr, node.size)))
      ensures View().alloc == old(View().alloc)
    {
      ghost var grown := InsertAt(freeNodes, k, node);
      forall i | 0 <= i < |grown| ensures grown[i].recordsFree {
        InsertedAt(freeNodes, k, node, i);
      }
      var head := Splice(freeNodes, freeLl, node, below, fl, k);
      assert Blocks(allocNodes) == old(Blocks(allocNodes));
      assert Chain(allocNodes, allocLl) && Prevs(allocNodes);
      freeLl, freeNodes := head, grown;
    }

    // A new node for the freed block, put into the free list.
    method InsertNew(ptr: nat, size: nat, below: Node?, fl: Node?, ghost k: nat) returns (node: Node)
      requires Valid() && k <= |freeNodes|
      requires fl == At(freeNodes, k) && below == At(freeNodes, k - 1)
      modifies this`freeLl, this`freeNodes, freeNodes
      ensures fresh(node) && Valid() && freeNodes == InsertAt(old(freeNodes), k, node)
      ensures View().free == InsertAt(old(View().free), k, Block(ptr, size))
      ensures View().alloc == old(View().alloc)
    {
      node := new Node(ptr, size, true);
      InsertFree(node, below, fl, k);
    }

    // One merge of heap_free as written: block `k` takes in the next block if
    // they touch. The links `prev` of the nodes of any list stay.
    method TryJoin(node: Node, ghost k: nat, ghost all: seq<Node>) returns (joined: bool)
      requires Chained() && k + 1 < |freeNodes| && node == freeNodes[k] && Prevs(all)
      modifies this`freeNodes, node`size, node`next
      ensures Prevs(all) && (joined <==> Touch(old(View().free), k))
      ensures freeNodes == if joined then Remove(old(freeNodes), k + 1) else old(freeNodes)
      ensures Chained() && View().free == JoinIf(old(View().free), k) && View().alloc == old(View().alloc)
    {
      joined := (node.addr + node.size) % WORD == node.next.addr;
      assert joined <==> Touch(old(View().free), k);
      if joined {
        ghost var rest := Remove(freeNodes, k + 1);
        assert forall i :: 0 <= i < |rest| ==> rest[i].recordsFree;
        JoinNext(freeNodes, freeLl, node, k);
        assert Blocks(allocNodes) == old(Blocks(allocNodes));
        assert Chain(allocNodes, allocLl) && Prevs(allocNodes);
        freeNodes := rest;
      }
    }

    // The two merges of heap_free as written, around the node at position `k`.
    method MergeAsWritten(node: Node, ghost k: nat) returns (fault: bool)
      requires Valid() && k + 1 < |freeNodes| && node == freeNodes[k]
      modifies this`freeNodes, freeNodes
      ensures fault <==> k == 0
      ensures !fault ==>
        var s := old(View().free);
        var up, down := Touch(s, k), Touch(JoinIf(s, k), k - 1);
        && Chained() && View().free == JoinIf(JoinIf(s, k), k - 1) && View().alloc == old(View().alloc)
        && (Prevs(freeNodes) <==> if up then k + 2 == |s| else !down)
    {
      ghost var s1 := freeNodes;
      var up, down;
      fault, up, down := JoinBoth(node, k);
      if !fault {
        CutOfJoins(s1, freeNodes, k, up, down);
      }
    }

    // Lines 125 to 136. They write no link `prev`.
    method JoinBoth(node: Node, ghost k: nat) returns (fault: bool, up: bool, down: bool)
      requires Valid() && k + 1 < |freeNodes| && node == freeNodes[k]
      modifies this`freeNodes, freeNodes
      ensures fault <==> k == 0
      ensures Prevs(old(freeNodes))
      ensures !fault ==>
        var s, nodes := old(View().free), old(freeNodes);
        && up == Touch(s, k) && down == Touch(JoinIf(s, k), k - 1)
        && (var t := if up then Remove(nodes, k + 1) else nodes; freeNodes == if down then Remove(t, k) else t)
        && Chained() && View().free == JoinIf(JoinIf(s, k), k - 1) && View().alloc == old(View().alloc)
    {
      ghost var nodes := freeNodes;
      up := TryJoin(node, k, nodes);
      assert k < |freeNodes| && At(freeNodes, k - 1) == At(nodes, k - 1) == node.prev;
      fault, down := JoinBelow(node, k, nodes);
    }

    // The second merge, with the block below.
    method JoinBelow(node: Node, ghost k: nat, ghost all: seq<Node>) returns (fault: bool, down: bool)
      requires Chained() && k < |freeNodes| && node == freeNodes[k] && node.prev == At(freeNodes, k - 1) && Prevs(all)
      modifies this`freeNodes, freeNodes
      ensures Prevs(all) && (fault <==> k == 0) && (down <==> Touch(old(View().free), k - 1))
      ensures freeNodes == if down then Remove(old(freeNodes), k) else old(freeNodes)
      ensures Chained() && View().free == JoinIf(old(View().free), k - 1) && View().alloc == old(View().alloc)
    {
      if node.prev == null {
        return true, false;
      }
      down := TryJoin(node.prev, k - 1, all);
      return false, down;
    }

    // heap_free as written. It faults on a missing free neighbour or record
    // neighbour; otherwise the `next` chain is right, and the `prev` links are
    // right exactly when PrevLinksSurvive says so.
    method FreeAsWritten(ptr: nat) returns (fault: bool)
      requires Valid()
      modifies this, freeNodes, allocNodes
      ensures fault <==> FreeFaults(old(View()), ptr)
      ensures !fault ==>
        var h := old(View());
        && Chained() && View() == Free(h, ptr)
        && (Prevs(freeNodes) <==> PrevLinksSurvive(h.free, Above(h.free, ptr), Freed(h, ptr)))
    {
      var fl, below, k := FindAbove(ptr);
      if fl == null {
        return true;
      }
      fault := FreeBelow(ptr, fl, k);
    }

    // Lines 117 to 136, for the free block `fl` above the address.
    method FreeBelow(ptr: nat, fl: Node, ghost k: nat) returns (fault: bool)
      requires Valid() && k == Above(View().free, ptr) < |freeNodes| && fl == freeNodes[k]
      modifies this, freeNodes, allocNodes
      ensures fault <==> k == 0 || ForgetFaults(old(View()).alloc, ptr)
      ensures !fault ==>
        var h := old(View());
        && Chained() && View() == Free(h, ptr)
        && (Prevs(freeNodes) <==> PrevLinksSurvive(h.free, k, Freed(h, ptr)))
    {
      ghost var h := View();
      var size;
      fault, size := ForgetAllocatedBlock(ptr);
      if fault {
        return;
      }
      assert Block(ptr, size) == Freed(h, ptr);
      fault := InsertAndMerge(ptr, size, fl, k);
    }

    // The new node, and the two merges.
    method InsertAndMerge(ptr: nat, size: nat, fl: Node, ghost k: nat) returns (fault: bool)
      requires Valid() && k < |freeNodes| && fl == freeNodes[k]
      modifies this`freeLl, this`freeNodes, freeNodes
      ensures fault <==> k == 0
      ensures !fault ==>
        && Chained() && View().free == Insert(old(View().free), k, Block(ptr, size)) && View().alloc == old(View().alloc)
        && (Prevs(freeNodes) <==> PrevLinksSurvive(old(View().free), k, Block(ptr, size)))
    {
      var node := InsertNew(ptr, size, fl.prev, fl, k);
      fault := MergeAsWritten(node, k);
    }

    // heap_forget_allocated_block with null guards.
    method ForgetRepaired(ptr: nat) returns (r: nat)
      requires Valid() && Live(View(), ptr)
      modifies this`allocLl, this`allocNodes, allocNodes
      ensures Valid() && View().free == old(View()).free
      ensures var a := Find(old(View()).alloc, ptr);
        r == old(View()).alloc[a].size && View().alloc == Remove(old(View()).alloc, a)
    {
      var n, a := FindRecord(ptr);
      DropRecord(n, a);
      return n.size;
    }

    // One merge with the missing repair of the following node's link `prev`.
    method TryJoinRepaired(node: Node, ghost k: nat)
      requires Valid() && k + 1 < |freeNodes| && node == freeNodes[k]
      modifies this`freeNodes, freeNodes
      ensures Valid() && View().free == JoinIf(old(View().free), k) && View().alloc == old(View().alloc)
      ensures freeNodes == if Touch(old(View().free), k) then Remove(old(freeNodes), k + 1) else old(freeNodes)
    {
      var joins := (node.addr + node.size) % WORD == node.next.addr;
      assert joins <==> Touch(old(View().free), k);
      if joins {
        ghost var rest := Remove(freeNodes, k + 1);
        assert forall i :: 0 <= i < |rest| ==> rest[i].recordsFree;
        JoinNextRepaired(freeNodes, freeLl, node, k);
        assert Blocks(allocNodes) == old(Blocks(allocNodes));
        assert Chain(allocNodes, allocLl) && Prevs(allocNodes);
        freeNodes := rest;
      }
    }

    // heap_free with null guards and with the merges repaired.
    method FreeRepaired(ptr: nat)
      requires Valid() && Live(View(), ptr)
      modifies this, freeNodes, allocNodes
      ensures Valid() && View() == Free(old(View()), ptr)
    {
      ghost var h, a := View(), Find(View().alloc, ptr);
      var fl, below, k := FindAbove(ptr);
      var size := ForgetRepaired(ptr);
      assert View() == Lists(h.free, Remove(h.alloc, a));
      InsertAndMergeRepaired(ptr, size, below, fl, k);
    }

    method InsertAndMergeRepaired(ptr: nat, size: nat, below: Node?, fl: Node?, ghost k: nat)
      requires Valid() && k <= |freeNodes| && fl == At(freeNodes, k) && below == At(freeNodes, k - 1)
      modifies this`freeLl, this`freeNodes, freeNodes
      ensures Valid() && View().alloc == old(View().alloc)
      ensures View().free == Insert(old(View().free), k, Block(ptr, size))
    {
      var node := InsertNew(ptr, size, below, fl, k);
      MergeRepaired(node, k);
    }

    method MergeRepaired(node: Node, ghost k: nat)
      requires Valid() && k < |freeNodes| && node == freeNodes[k]
      modifies this`freeNodes, freeNodes
      ensures Valid() && View().alloc == old(View().alloc)
      ensures View().free == JoinIf(JoinIf(old(View().free), k), k - 1)
    {
      if node.next != null {
        TryJoinRepaired(node, k);
      }
      assert freeNodes[k] == node;
      if node.prev != null {
        TryJoinRepaired(node.prev, k - 1);
      }
    }
  }

  lemma CutOfJoins(nodes: seq<Node>, r: seq<Node>, k: nat, up: bool, down: bool)
    requires Distinct(nodes) && Prevs(nodes) && 0 < k && k + 1 < |nodes|
    requires var s := if up then Remove(nodes, k + 1) else nodes; r == if down then Remove(s, k) else s
    ensures Prevs(r) <==> if up then k + 2 == |nodes| else !down
  {
    if up || down {
      var lo, hi := if down then k else k + 1, if up then k + 2 else k + 1;
      assert r == nodes[..lo] + nodes[hi..];
      PrevsAfterCut(nodes, lo, hi);
    }
  }
}
