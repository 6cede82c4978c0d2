// What the kernel heap of kernel/mem/heap.c does to its two lists of blocks,
// on values: `free` in list order and `alloc` in list order.
module HeapSpec {
  import opened Common

  datatype Block = Block(addr: nat, size: nat)
  datatype Lists = Lists(free: seq<Block>, alloc: seq<Block>)

  // The 32-bit sum of an address and a size.
  function End32(b: Block): nat {
    (b.addr + b.size) % WORD
  }

  // ----- heap_create -----

  function Create(start: nat, size: nat): Lists {
    Lists([Block(start, size)], [])
  }

  // ----- heap_alloc -----

  // Index of the first free block that is large enough, or |free|.
  function FirstFit(free: seq<Block>, n: nat): (k: nat)
    ensures k <= |free|
    ensures forall i :: 0 <= i < k ==> free[i].size < n
    ensures k < |free| ==> n <= free[k].size
  {
    if free == [] then 0 else if free[0].size >= n then 0 else 1 + FirstFit(free[1..], n)
  }

  function Carve(free: seq<Block>, k: nat, n: nat): seq<Block>
    requires k < |free|
  {
    if n < free[k].size then free[k := Block(free[k].addr + n, free[k].size - n)] else Remove(free, k)
  }

  function Alloc(h: Lists, n: nat): (Lists, Option<nat>) {
    var k := FirstFit(h.free, n);
    if k == |h.free| then (h, None)
    else
      var addr := h.free[k].addr;
      (Lists(Carve(h.free, k, n), h.alloc + [Block(addr, n)]), Some(addr))
  }

  // ----- heap_free -----

  // Index of the first free block at or above `ptr`, or |free|.
  function Above(free: seq<Block>, ptr: nat): (k: nat)
    ensures k <= |free|
    ensures forall i :: 0 <= i < k ==> free[i].addr < ptr
    ensures k < |free| ==> ptr <= free[k].addr
  {
    if free == [] then 0 else if ptr <= free[0].addr then 0 else 1 + Above(free[1..], ptr)
  }

  // Index of the first allocated block recorded at `ptr`, or |alloc|.
  function Find(alloc: seq<Block>, ptr: nat): (k: nat)
    ensures k <= |alloc|
    ensures forall i :: 0 <= i < k ==> alloc[i].addr != ptr
    ensures k < |alloc| ==> alloc[k].addr == ptr
  {
    if alloc == [] then 0 else if alloc[0].addr == ptr then 0 else 1 + Find(alloc[1..], ptr)
  }

  // Blocks `i` and `i + 1` of a list made into one.
  function Join(s: seq<Block>, i: nat): seq<Block>
    requires i + 1 < |s|
  {
    Remove(s, i + 1)[i := Block(s[i].addr, s[i].size + s[i + 1].size)]
  }

  // Blocks `i` and `i + 1` are contiguous, by the 32-bit sum of the code.
  predicate Touch(s: seq<Block>, i: int) {
    0 <= i < |s| - 1 && End32(s[i]) == s[i + 1].addr
  }

  function InsertAt<T>(s: seq<T>, k: nat, x: T): seq<T>
    requires k <= |s|
  {
    s[..k] + [x] + s[k..]
  }

  function JoinIf(s: seq<Block>, i: int): seq<Block> {
    if Touch(s, i) then Join(s, i) else s
  }

  // The free list with `b` put at position `k`, joined first with the block
  // above it and then with the block below it where they touch.
  function Insert(free: seq<Block>, k: nat, b: Block): seq<Block>
    requires k <= |free|
  {
    JoinIf(JoinIf(InsertAt(free, k, b), k), k - 1)
  }

  predicate Live(h: Lists, ptr: nat) {
    Find(h.alloc, ptr) < |h.alloc|
  }

  // The block freed: the record of a live block, else one of size -1.
  function Freed(h: Lists, ptr: nat): Block {
    if Live(h, ptr) then h.alloc[Find(h.alloc, ptr)] else Block(ptr, 0xFFFF_FFFF)
  }

  // The record of a live block leaves the allocated list; the block joins the free list.
  function Free(h: Lists, ptr: nat): Lists {
    Lists(Insert(h.free, Above(h.free, ptr), Freed(h, ptr)),
          if Live(h, ptr) then Remove(h.alloc, Find(h.alloc, ptr)) else h.alloc)
  }

  // heap_forget_allocated_block as written reads through a null pointer on an
  // empty list and on a record without both neighbours.
  predicate ForgetFaults(alloc: seq<Block>, ptr: nat) {
    alloc == [] || Find(alloc, ptr) == 0 || Find(alloc, ptr) == |alloc| - 1
  }

  // heap_free as written also needs a free block on each side of `ptr`.
  predicate FreeFaults(h: Lists, ptr: nat) {
    Above(h.free, ptr) == 0 || Above(h.free, ptr) == |h.free| || ForgetFaults(h.alloc, ptr)
  }

  // The links `prev` of the free list stay the inverse of `next` after
  // heap_free as written exactly when it joins nothing, or joins the freed
  // block with the last free block.
  predicate PrevLinksSurvive(free: seq<Block>, k: nat, b: Block)
    requires k <= |free|
  {
    var up := Touch(InsertAt(free, k, b), k);
    var down := Touch(JoinIf(InsertAt(free, k, b), k), k - 1);
    if up then k == |free| - 1 else !down
  }

  // ----- the invariant -----

  predicate Covers(b: Block, x: nat) {
    b.addr <= x < b.addr + b.size
  }

  // How many of the blocks contain byte `x`.
  function Count(s: seq<Block>, x: nat): nat {
    if s == [] then 0 else (if Covers(s[0], x) then 1 else 0) + Count(s[1..], x)
  }

  function Bytes(s: seq<Block>): nat {
    if s == [] then 0 else s[0].size + Bytes(s[1..])
  }

  ghost predicate Positive(s: seq<Block>) {
    forall i :: 0 <= i < |s| ==> s[i].size > 0
  }

  // Address-sorted with no two blocks overlapping or touching.
  ghost predicate Apart(free: seq<Block>) {
    forall i, j :: 0 <= i < j < |free| ==> free[i].addr + free[i].size < free[j].addr
  }

  // Every byte of [start, start + size) is in exactly one block, free or
  // allocated, and no other byte is in any.
  ghost predicate Tiles(h: Lists, start: nat, size: nat) {
    forall x: nat :: Count(h.free, x) + Count(h.alloc, x) == if start <= x < start + size then 1 else 0
  }

  ghost predicate Inv(h: Lists, start: nat, size: nat) {
    && Positive(h.free) && Positive(h.alloc)
    && Apart(h.free)
    && Tiles(h, start, size)
    && Bytes(h.free) + Bytes(h.alloc) == size
  }

  // ----- counting lemmas -----

  lemma {:induction false} CountConcat(s: seq<Block>, t: seq<Block>, x: nat)
    ensures Count(s + t, x) == Count(s, x) + Count(t, x)
  {
    if s == [] {
      assert s + t == t;
    } else {
      CountConcat(s[1..], t, x);
      assert (s + t)[1..] == s[1..] + t;
    }
  }

  lemma {:induction false} BytesConcat(s: seq<Block>, t: seq<Block>)
    ensures Bytes(s + t) == Bytes(s) + Bytes(t)
  {
    if s == [] {
      assert s + t == t;
    } else {
      BytesConcat(s[1..], t);
      assert (s + t)[1..] == s[1..] + t;
    }
  }

  // Splits a list at one block.
  lemma {:induction false} CountAt(s: seq<Block>, k: nat, x: nat)
    requires k < |s|
    ensures Count(s, x) == Count(Remove(s, k), x) + if Covers(s[k], x) then 1 else 0
    ensures Count(s, x) == Count(s[..k], x) + (if Covers(s[k], x) then 1 else 0) + Count(s[k + 1..], x)
  {
    assert s == s[..k] + ([s[k]] + s[k + 1..]);
    CountConcat(s[..k], [s[k]] + s[k + 1..], x);
    CountConcat([s[k]], s[k + 1..], x);
    CountConcat(s[..k], s[k + 1..], x);
    assert Count([s[k]], x) == if Covers(s[k], x) then 1 else 0;
  }

  lemma {:induction false} BytesAt(s: seq<Block>, k: nat)
    requires k < |s|
    ensures Bytes(s) == Bytes(Remove(s, k)) + s[k].size
    ensures Bytes(s) == Bytes(s[..k]) + s[k].size + Bytes(s[k + 1..])
  {
    assert s == s[..k] + ([s[k]] + s[k + 1..]);
    BytesConcat(s[..k], [s[k]] + s[k + 1..]);
    BytesConcat([s[k]], s[k + 1..]);
    BytesConcat(s[..k], s[k + 1..]);
    assert Bytes([s[k]]) == s[k].size;
  }

  lemma {:induction false} Covered(s: seq<Block>, x: nat) returns (k: nat)
    requires Count(s, x) > 0
    ensures k < |s| && Covers(s[k], x)
  {
    if Covers(s[0], x) { k := 0; } else { k := Covered(s[1..], x); k := k + 1; }
  }

  lemma {:induction false} CountPositive(s: seq<Block>, k: nat, x: nat)
    requires k < |s| && Covers(s[k], x)
    ensures Count(s, x) > 0
  {
    CountAt(s, k, x);
  }

  // A live block and a free block have no byte in common.
  lemma {:induction false} LiveIsNotFree(h: Lists, start: nat, size: nat, a: nat, k: nat, x: nat)
    requires Inv(h, start, size) && a < |h.alloc| && k < |h.free|
    ensures !(Covers(h.alloc[a], x) && Covers(h.free[k], x))
  {
    if Covers(h.alloc[a], x) && Covers(h.free[k], x) {
      CountPositive(h.alloc, a, x);
      CountPositive(h.free, k, x);
    }
  }

  lemma {:induction false} LiveDistinct(h: Lists, start: nat, size: nat, i: nat, j: nat)
    requires Inv(h, start, size) && i < j < |h.alloc|
    ensures h.alloc[i].addr != h.alloc[j].addr
  {
    var x := h.alloc[i].addr;
    if h.alloc[j].addr == x {
      CountAt(h.alloc, i, x);
      assert Remove(h.alloc, i)[j - 1] == h.alloc[j];
      CountPositive(Remove(h.alloc, i), j - 1, x);
    }
  }

  lemma {:induction false} InRange(h: Lists, start: nat, size: nat, b: Block)
    requires Inv(h, start, size) && (b in h.free || b in h.alloc)
    ensures start <= b.addr && b.addr + b.size <= start + size
  {
    if b in h.free {
      var k :| 0 <= k < |h.free| && h.free[k] == b;
      CountPositive(h.free, k, b.addr);
      CountPositive(h.free, k, b.addr + b.size - 1);
    } else {
      var k :| 0 <= k < |h.alloc| && h.alloc[k] == b;
      CountPositive(h.alloc, k, b.addr);
      CountPositive(h.alloc, k, b.addr + b.size - 1);
    }
  }

  // ----- heap_alloc keeps the tiling -----

  lemma {:induction false} AllocKeeps(h: Lists, start: nat, size: nat, n: nat)
    requires Inv(h, start, size) && n > 0
    ensures Inv(Alloc(h, n).0, start, size)
  {
    var k := FirstFit(h.free, n);
    if k < |h.free| {
      var b, h' := Block(h.free[k].addr, n), Alloc(h, n).0;
      CarveBytes(h.free, k, n);
      BytesConcat(h.alloc, [b]);
      assert Bytes([b]) == n;
      forall x: nat ensures Count(h'.free, x) + Count(h'.alloc, x) == Count(h.free, x) + Count(h.alloc, x) {
        AllocCount(h, n, x);
      }
      CarveKeepsApart(h.free, k, n);
    }
  }

  // A successful request for no bytes leaves a record without bytes; every
  // other request keeps the invariant.
  lemma {:induction false} AllocKeepsIff(h: Lists, start: nat, size: nat, n: nat)
    requires Inv(h, start, size)
    ensures Inv(Alloc(h, n).0, start, size) <==> n > 0 || Alloc(h, n).1.None?
  {
    if n > 0 {
      AllocKeeps(h, start, size, n);
    } else if Alloc(h, n).1.Some? {
      assert Alloc(h, n).0.alloc[|h.alloc|].size == 0;
    }
  }

  lemma {:induction false} AllocCount(h: Lists, n: nat, x: nat)
    ensures var h' := Alloc(h, n).0; Count(h'.free, x) + Count(h'.alloc, x) == Count(h.free, x) + Count(h.alloc, x)
  {
    var k := FirstFit(h.free, n);
    if k < |h.free| {
      var b := Block(h.free[k].addr, n);
      CarveCount(h.free, k, n, x);
      CountConcat(h.alloc, [b], x);
      assert Count([b], x) == if Covers(b, x) then 1 else 0;
    }
  }

  lemma {:induction false} CarveKeepsApart(free: seq<Block>, k: nat, n: nat)
    requires k < |free| && 0 < n <= free[k].size && Apart(free) && Positive(free)
    ensures Apart(Carve(free, k, n)) && Positive(Carve(free, k, n))
  {
  }

  lemma {:induction false} CarveCount(free: seq<Block>, k: nat, n: nat, x: nat)
    requires k < |free| && n <= free[k].size
    ensures Count(free, x) == Count(Carve(free, k, n), x) + if Covers(Block(free[k].addr, n), x) then 1 else 0
  {
    CountAt(free, k, x);
    if n < free[k].size {
      var free' := Carve(free, k, n);
      CountAt(free', k, x);
      assert Remove(free', k) == Remove(free, k);
    }
  }

  lemma {:induction false} CarveBytes(free: seq<Block>, k: nat, n: nat)
    requires k < |free| && n <= free[k].size
    ensures Bytes(free) == Bytes(Carve(free, k, n)) + n
  {
    BytesAt(free, k);
    if n < free[k].size {
      var free' := Carve(free, k, n);
      BytesAt(free', k);
      assert Remove(free', k) == Remove(free, k);
    }
  }

  // ----- heap_free of a live block keeps the tiling -----

  // The freed block lies strictly between its free neighbours, up to touching.
  lemma {:induction false} FitsBetween(h: Lists, start: nat, size: nat, ptr: nat)
    requires Inv(h, start, size) && Live(h, ptr)
    ensures var b, k := h.alloc[Find(h.alloc, ptr)], Above(h.free, ptr);
      && (k > 0 ==> h.free[k - 1].addr + h.free[k - 1].size <= ptr)
      && (k < |h.free| ==> ptr + b.size <= h.free[k].addr)
  {
    var a, k := Find(h.alloc, ptr), Above(h.free, ptr);
    if k > 0 {
      LiveIsNotFree(h, start, size, a, k - 1, ptr);
    }
    if k < |h.free| {
      LiveIsNotFree(h, start, size, a, k, h.free[k].addr);
    }
  }

  lemma {:induction false} FreedFits(h: Lists, start: nat, size: nat, ptr: nat)
    requires Inv(h, start, size) && Live(h, ptr) && start + size <= WORD
    ensures Fits(h.free, Above(h.free, ptr), h.alloc[Find(h.alloc, ptr)])
  {
    FitsBetween(h, start, size, ptr);
    InRange(h, start, size, h.alloc[Find(h.alloc, ptr)]);
    forall i | 0 <= i < |h.free| ensures h.free[i].addr + h.free[i].size <= WORD && h.free[i].addr < WORD {
      InRange(h, start, size, h.free[i]);
    }
  }

  lemma {:induction false} FreeCount(h: Lists, start: nat, size: nat, ptr: nat, x: nat)
    requires Inv(h, start, size) && Live(h, ptr) && start + size <= WORD
    ensures Count(Free(h, ptr).free, x) + Count(Free(h, ptr).alloc, x) == Count(h.free, x) + Count(h.alloc, x)
  {
    var a, k := Find(h.alloc, ptr), Above(h.free, ptr);
    FreedFits(h, start, size, ptr);
    InsertCount(h.free, k, h.alloc[a], x);
    CountAt(h.alloc, a, x);
  }

  lemma {:induction false} FreeKeeps(h: Lists, start: nat, size: nat, ptr: nat)
    requires Inv(h, start, size) && Live(h, ptr) && start + size <= WORD
    ensures Inv(Free(h, ptr), start, size)
  {
    var a, k := Find(h.alloc, ptr), Above(h.free, ptr);
    FreedFits(h, start, size, ptr);
    InsertKeepsApart(h.free, k, h.alloc[a]);
    InsertBytes(h.free, k, h.alloc[a]);
    BytesAt(h.alloc, a);
    var h' := Free(h, ptr);
    assert Tiles(h', start, size) by {
      forall x: nat ensures Count(h'.free, x) + Count(h'.alloc, x) == if start <= x < start + size then 1 else 0 {
        FreeCount(h, start, size, ptr, x);
      }
    }
  }

  // `b` fits at position `k` of a list without 32-bit overflow.
  ghost predicate Fits(free: seq<Block>, k: nat, b: Block) {
    && k <= |free| && b.size > 0 && b.addr < WORD && b.addr + b.size <= WORD
    && (k > 0 ==> free[k - 1].addr + free[k - 1].size <= b.addr)
    && (k < |free| ==> b.addr + b.size <= free[k].addr)
    && (forall i :: 0 <= i < |free| ==> free[i].addr < WORD && free[i].addr + free[i].size <= WORD)
  }

  // Sorted without overlap below 4 GiB, and touching at most at positions [lo, hi).
  ghost predicate ApartBut(s: seq<Block>, lo: int, hi: int) {
    && (forall i :: 0 <= i < |s| ==> 0 < s[i].size && s[i].addr < WORD && s[i].addr + s[i].size <= WORD)
    && (forall i, j :: 0 <= i < j < |s| ==> s[i].addr + s[i].size <= s[j].addr)
    && (forall i, j :: 0 <= i < j < |s| && s[i].addr + s[i].size == s[j].addr ==> lo <= i < hi && j == i + 1)
  }

  // Consecutive blocks decide the order of the whole list.
  lemma {:induction false} ApartByNeighbours(s: seq<Block>, lo: int, hi: int)
    requires forall i :: 0 <= i < |s| ==> 0 < s[i].size && s[i].addr < WORD && s[i].addr + s[i].size <= WORD
    requires forall i :: 0 <= i < |s| - 1 ==>
      if lo <= i < hi then s[i].addr + s[i].size <= s[i + 1].addr else s[i].addr + s[i].size < s[i + 1].addr
    ensures ApartBut(s, lo, hi)
  {
    forall i, j | 0 <= i < j < |s|
      ensures s[i].addr + s[i].size <= s[j].addr
      ensures s[i].addr + s[i].size == s[j].addr ==> lo <= i < hi && j == i + 1
    {
      ApartFrom(s, lo, hi, i, j);
    }
  }

  lemma {:induction false} ApartFrom(s: seq<Block>, lo: int, hi: int, i: nat, j: nat)
    requires forall i :: 0 <= i < |s| ==> 0 < s[i].size
    requires forall i :: 0 <= i < |s| - 1 ==>
      if lo <= i < hi then s[i].addr + s[i].size <= s[i + 1].addr else s[i].addr + s[i].size < s[i + 1].addr
    requires i < j < |s|
    ensures s[i].addr + s[i].size <= s[j].addr
    ensures s[i].addr + s[i].size == s[j].addr ==> lo <= i < hi && j == i + 1
  {
    if i + 1 < j {
      ApartFrom(s, lo, hi, i, j - 1);
      assert s[j - 1].addr + s[j - 1].size <= s[j - 1 + 1].addr;
    }
  }

  lemma {:induction false} InsertAtApart(free: seq<Block>, k: nat, b: Block)
    requires Fits(free, k, b) && Apart(free) && Positive(free)
    ensures ApartBut(InsertAt(free, k, b), k - 1, k + 1)
  {
    var s := InsertAt(free, k, b);
    forall i | 0 <= i < |s| ensures s[i] == if i < k then free[i] else if i == k then b else free[i - 1] {
    }
    ApartByNeighbours(s, k - 1, k + 1);
  }

  lemma {:induction false} JoinIfApart(s: seq<Block>, lo: int, i: int)
    requires lo <= i && ApartBut(s, lo, i + 1)
    ensures ApartBut(JoinIf(s, i), lo, i)
  {
    if Touch(s, i) {
      var t := Join(s, i);
      forall j | 0 <= j < |t|
        ensures t[j] == if j < i then s[j] else if j == i then Block(s[i].addr, s[i].size + s[i + 1].size) else s[j + 1]
      {
      }
      ApartByNeighbours(t, lo, i);
    } else {
      ApartByNeighbours(s, lo, i);
    }
  }

  lemma {:induction false} InsertKeepsApart(free: seq<Block>, k: nat, b: Block)
    requires Fits(free, k, b) && Apart(free) && Positive(free)
    ensures Apart(Insert(free, k, b)) && Positive(Insert(free, k, b))
  {
    InsertAtApart(free, k, b);
    JoinIfApart(InsertAt(free, k, b), k - 1, k);
    JoinIfApart(JoinIf(InsertAt(free, k, b), k), k - 1, k - 1);
  }

  lemma {:induction false} JoinIfCount(s: seq<Block>, lo: int, hi: int, i: int, x: nat)
    requires ApartBut(s, lo, hi)
    ensures Count(JoinIf(s, i), x) == Count(s, x)
  {
    if Touch(s, i) {
      var m := Block(s[i].addr, s[i].size + s[i + 1].size);
      CountAt(s, i + 1, x);
      CountAt(Remove(s, i + 1), i, x);
      CountAt(Join(s, i), i, x);
      assert Remove(Join(s, i), i) == Remove(Remove(s, i + 1), i);
      assert Remove(s, i + 1)[i] == s[i];
      assert Covers(m, x) <==> Covers(s[i], x) || Covers(s[i + 1], x);
    }
  }

  lemma {:induction false} InsertCount(free: seq<Block>, k: nat, b: Block, x: nat)
    requires Fits(free, k, b) && Apart(free) && Positive(free)
    ensures Count(Insert(free, k, b), x) == Count(free, x) + if Covers(b, x) then 1 else 0
  {
    InsertAtApart(free, k, b);
    JoinBothCount(InsertAt(free, k, b), k, x);
    InsertAtCount(free, k, b, x);
  }

  lemma InsertAtCount(free: seq<Block>, k: nat, b: Block, x: nat)
    requires k <= |free|
    ensures Count(InsertAt(free, k, b), x) == Count(free, x) + if Covers(b, x) then 1 else 0
  {
    CountAt(InsertAt(free, k, b), k, x);
    assert Remove(InsertAt(free, k, b), k) == free;
  }

  lemma {:induction false} JoinBothCount(s: seq<Block>, k: nat, x: nat)
    requires ApartBut(s, k - 1, k + 1)
    ensures Count(JoinIf(JoinIf(s, k), k - 1), x) == Count(s, x)
  {
    JoinIfApart(s, k - 1, k);
    JoinIfCount(s, k - 1, k + 1, k, x);
    JoinIfCount(JoinIf(s, k), k - 1, k, k - 1, x);
  }

  lemma {:induction false} JoinIfBytes(s: seq<Block>, i: int)
    ensures Bytes(JoinIf(s, i)) == Bytes(s)
  {
    if Touch(s, i) {
      BytesAt(s, i + 1);
      BytesAt(Remove(s, i + 1), i);
      BytesAt(Join(s, i), i);
      assert Remove(Join(s, i), i) == Remove(Remove(s, i + 1), i);
      assert Remove(s, i + 1)[i] == s[i];
    }
  }

  lemma {:induction false} InsertBytes(free: seq<Block>, k: nat, b: Block)
    requires k <= |free|
    ensures Bytes(Insert(free, k, b)) == Bytes(free) + b.size
  {
    var s := InsertAt(free, k, b);
    JoinIfBytes(s, k);
    JoinIfBytes(JoinIf(s, k), k - 1);
    BytesAt(s, k);
    assert Remove(s, k) == free;
  }

  // ----- what heap_alloc returns -----

  // [x, x + n) lies in the heap and no byte of it is allocated.
  ghost predicate Gap(h: Lists, start: nat, size: nat, x: nat, n: nat) {
    forall y: nat :: x <= y < x + n ==> Unallocated(h, start, size, y)
  }

  ghost predicate Unallocated(h: Lists, start: nat, size: nat, y: nat) {
    start <= y < start + size && Count(h.alloc, y) == 0
  }

  // Free blocks are maximal: an unallocated range lies inside one of them.
  lemma {:induction false} GapInOneBlock(h: Lists, start: nat, size: nat, x: nat, n: nat) returns (k: nat)
    requires Inv(h, start, size) && n > 0 && Gap(h, start, size, x, n)
    ensures k < |h.free| && h.free[k].addr <= x && x + n <= h.free[k].addr + h.free[k].size
  {
    assert Unallocated(h, start, size, x);
    assert Count(h.free, x) == 1;
    k := Covered(h.free, x);
    var end := h.free[k].addr + h.free[k].size;
    if end < x + n {
      assert Unallocated(h, start, size, end);
      assert Count(h.free, end) == 1;
      var j := Covered(h.free, end);
    }
  }

  lemma {:induction false} FreeBlockIsGap(h: Lists, start: nat, size: nat, k: nat, n: nat)
    requires Inv(h, start, size) && k < |h.free| && n <= h.free[k].size
    ensures Gap(h, start, size, h.free[k].addr, n)
  {
    var x := h.free[k].addr;
    forall y: nat | x <= y < x + n ensures Unallocated(h, start, size, y) {
      CountPositive(h.free, k, y);
      assert Count(h.free, y) + Count(h.alloc, y) == if start <= y < start + size then 1 else 0;
    }
  }

  lemma FirstFitIsBelow(h: Lists, start: nat, size: nat, x: nat, n: nat)
    requires Inv(h, start, size) && n > 0 && Gap(h, start, size, x, n)
    ensures var k := FirstFit(h.free, n); k < |h.free| && h.free[k].addr <= x
  {
    var j := GapInOneBlock(h, start, size, x, n);
    assert h.free[j].size >= n;
  }

  // heap_alloc returns the lowest address at which `n` unallocated bytes start,
  // and NULL exactly when there is no such address.
  lemma {:induction false} AllocIsLowestGap(h: Lists, start: nat, size: nat, n: nat)
    requires Inv(h, start, size) && n > 0
    ensures var r := Alloc(h, n).1;
      && (r.None? <==> forall x: nat :: !Gap(h, start, size, x, n))
      && (r.Some? ==> Gap(h, start, size, r.value, n) && forall x: nat :: Gap(h, start, size, x, n) ==> r.value <= x)
  {
    var k := FirstFit(h.free, n);
    if k < |h.free| {
      FreeBlockIsGap(h, start, size, k, n);
    }
    forall x: nat | Gap(h, start, size, x, n) ensures k < |h.free| && h.free[k].addr <= x {
      FirstFitIsBelow(h, start, size, x, n);
    }
  }

  // Two successful allocations in a row return the same address exactly when
  // the first asks for no bytes and the first free block can hold the second.
  lemma {:induction false} SameAddressTwice(h: Lists, start: nat, size: nat, m: nat, n: nat)
    requires Inv(h, start, size)
    requires Alloc(h, m).1.Some? && Alloc(Alloc(h, m).0, n).1.Some?
    ensures Alloc(h, m).1 == Alloc(Alloc(h, m).0, n).1 <==> m == 0 && n <= h.free[0].size
  {
    var h1 := Alloc(h, m).0;
    if m > 0 {
      AllocKeeps(h, start, size, m);
      assert h1.alloc[|h.alloc|] == Block(Alloc(h, m).1.value, m);
      LiveIsNotFree(h1, start, size, |h.alloc|, FirstFit(h1.free, n), Alloc(h, m).1.value);
    } else {
      assert FirstFit(h.free, 0) == 0 && h1.free == h.free;
    }
  }

  // Freeing the block just allocated restores both lists.
  lemma {:induction false} FreeUndoesAlloc(h: Lists, start: nat, size: nat, n: nat)
    requires Inv(h, start, size) && start + size <= WORD && Alloc(h, n).1.Some?
    ensures var (h', r) := Alloc(h, n); Live(h', r.value) && Free(h', r.value) == h
  {
    var k := FirstFit(h.free, n);
    var h', ptr := Alloc(h, n).0, Alloc(h, n).1.value;
    forall i | 0 <= i < |h.free| ensures h.free[i].addr < WORD && h.free[i].addr + h.free[i].size <= WORD {
      InRange(h, start, size, h.free[i]);
    }
    RecordIsLast(h, start, size, n);
    InsertBack(h.free, k, n);
    FreeOfLast(h', h.alloc, Block(ptr, n));
  }

  lemma InsertBack(free: seq<Block>, k: nat, n: nat)
    requires k == FirstFit(free, n) < |free| && Apart(free) && Positive(free)
    requires forall i :: 0 <= i < |free| ==> free[i].addr < WORD && free[i].addr + free[i].size <= WORD
    ensures Insert(Carve(free, k, n), Above(Carve(free, k, n), free[k].addr), Block(free[k].addr, n)) == free
  {
    if n == 0 {
      assert Carve(free, 0, 0) == free;
      EmptyBlockJoins(free, free[0].addr);
    } else {
      AboveOfCarve(free, k, n);
      InsertUndoesCarve(free, k, n);
    }
  }

  lemma FreeOfLast(h: Lists, alloc: seq<Block>, b: Block)
    requires h.alloc == alloc + [b] && Find(h.alloc, b.addr) == |alloc|
    ensures Live(h, b.addr) && Free(h, b.addr) == Lists(Insert(h.free, Above(h.free, b.addr), b), alloc)
  {
    assert Remove(h.alloc, |alloc|) == alloc;
  }

  lemma AboveOfCarve(free: seq<Block>, k: nat, n: nat)
    requires k < |free| && 0 < n <= free[k].size && Apart(free) && Positive(free)
    ensures Above(Carve(free, k, n), free[k].addr) == k
  {
    var c := Carve(free, k, n);
    assert forall i :: 0 <= i < k ==> c[i] == free[i];
    assert k < |c| ==> c[k].addr == free[k].addr + n || c[k] == free[k + 1];
  }

  // The record just made is the only one at its address.
  lemma {:induction false} RecordIsLast(h: Lists, start: nat, size: nat, n: nat)
    requires Inv(h, start, size) && Alloc(h, n).1.Some?
    ensures Find(Alloc(h, n).0.alloc, Alloc(h, n).1.value) == |h.alloc|
  {
    var ptr := Alloc(h, n).1.value;
    CountPositive(h.free, FirstFit(h.free, n), ptr);
    forall i | 0 <= i < |h.alloc| ensures h.alloc[i].addr != ptr {
      if h.alloc[i].addr == ptr {
        CountPositive(h.alloc, i, ptr);
      }
    }
    assert Alloc(h, n).0.alloc[|h.alloc|].addr == ptr;
  }

  lemma EmptyBlockJoins(free: seq<Block>, ptr: nat)
    requires free != [] && free[0].addr == ptr < WORD
    ensures Insert(free, Above(free, ptr), Block(ptr, 0)) == free
  {
    var s := InsertAt(free, 0, Block(ptr, 0));
    assert Join(s, 0) == free;
  }

  // Requests of no bytes can leave the free list out of order: after two
  // allocations at one address, of 0 and of 8 bytes, and two frees of it, the
  // free list holds a block without bytes, and a block that is not joined with
  // the one it touches.
  lemma ZeroBytesBreakOrder(start: nat, size: nat)
    requires size > 8 && start + size <= WORD
    ensures var h := Alloc(Alloc(Create(start, size), 0).0, 8).0;
      && Live(h, start) && Live(Free(h, start), start)
      && Free(Free(h, start), start) == Lists([Block(start, 8), Block(start, 0), Block(start + 8, size - 8)], [])
  {
    var h0 := Create(start, size);
    var h1 := Alloc(h0, 0).0;
    assert h1 == Lists(h0.free, [Block(start, 0)]);
    assert Alloc(h1, 8).0 == Lists([Block(start + 8, size - 8)], [Block(start, 0), Block(start, 8)]);
    FreeTwice(start, size, Alloc(h1, 8).0);
  }

  lemma FreeTwice(start: nat, size: nat, h: Lists)
    requires size > 8 && start + size <= WORD
    requires h == Lists([Block(start + 8, size - 8)], [Block(start, 0), Block(start, 8)])
    ensures Live(h, start) && Live(Free(h, start), start)
    ensures Free(Free(h, start), start) == Lists([Block(start, 8), Block(start, 0), Block(start + 8, size - 8)], [])
  {
    assert Find(h.alloc, start) == 0 && Above(h.free, start) == 0;
    var h' := Free(h, start);
    assert h' == Lists([Block(start, 0), Block(start + 8, size - 8)], [Block(start, 8)]);
    assert Find(h'.alloc, start) == 0 && Above(h'.free, start) == 0;
  }

  lemma {:induction false} InsertUndoesCarve(free: seq<Block>, k: nat, n: nat)
    requires k < |free| && 0 < n <= free[k].size && Apart(free) && Positive(free)
    requires forall i :: 0 <= i < |free| ==> free[i].addr + free[i].size <= WORD
    ensures Insert(Carve(free, k, n), k, Block(free[k].addr, n)) == free
  {
    var b := Block(free[k].addr, n);
    var s := InsertAt(Carve(free, k, n), k, b);
    assert k > 0 ==> s[k - 1] == free[k - 1] && End32(s[k - 1]) != b.addr;
    if n < free[k].size {
      assert s[k + 1] == Block(free[k].addr + n, free[k].size - n);
      assert Join(s, k) == free;
    } else {
      assert s == free;
      assert k + 1 < |free| ==> End32(free[k]) != free[k + 1].addr;
    }
  }

  // ----- runs of heap_alloc and of heap_free on live blocks -----

  datatype HeapOp = AllocOp(n: nat) | FreeOp(ptr: nat)

  function Run(h: Lists, ops: seq<HeapOp>): Lists {
    if ops == [] then h
    else
      var h' := Run(h, ops[..|ops| - 1]);
      match ops[|ops| - 1]
      case AllocOp(n) => Alloc(h', n).0
      case FreeOp(ptr) => if Live(h', ptr) then Free(h', ptr) else h'
  }

  // Every request is for at least a byte and only live blocks are freed.
  ghost predicate Legal(h: Lists, ops: seq<HeapOp>) {
    forall i :: 0 <= i < |ops| ==>
      match ops[i]
      case AllocOp(n) => n > 0
      case FreeOp(ptr) => Live(Run(h, ops[..i]), ptr)
  }

  // Over every legal run from heap_create the blocks tile the heap.
  lemma {:induction false} RunTiles(start: nat, size: nat, ops: seq<HeapOp>)
    requires size > 0 && start + size <= WORD
    requires Legal(Create(start, size), ops)
    ensures Inv(Run(Create(start, size), ops), start, size)
  {
    var h0 := Create(start, size);
    if ops == [] {
      CreateTiles(start, size);
    } else {
      var init := ops[..|ops| - 1];
      forall i | 0 <= i < |init| ensures init[..i] == ops[..i] {
      }
      RunTiles(start, size, init);
      match ops[|ops| - 1]
      case AllocOp(n) => AllocKeeps(Run(h0, init), start, size, n);
      case FreeOp(ptr) => FreeKeeps(Run(h0, init), start, size, ptr);
    }
  }

  lemma {:induction false} CreateTiles(start: nat, size: nat)
    requires size > 0
    ensures Inv(Create(start, size), start, size)
  {
    var h := Create(start, size);
    assert Bytes(h.free) == size;
    forall x: nat ensures Count(h.free, x) == if start <= x < start + size then 1 else 0 {
      assert h.free[1..] == [];
    }
  }

  // As written, heap_free of the live block with record `i` reads through no
  // null pointer exactly if there is a record before it and one behind it, and
  // a free block below it and one above.
  lemma {:induction false} FreeReturnsIff(h: Lists, start: nat, size: nat, i: nat)
    requires Inv(h, start, size) && i < |h.alloc|
    ensures !FreeFaults(h, h.alloc[i].addr) <==>
      && 0 < i < |h.alloc| - 1
      && (exists k :: 0 <= k < |h.free| && h.free[k].addr < h.alloc[i].addr)
      && (exists k :: 0 <= k < |h.free| && h.alloc[i].addr <= h.free[k].addr)
  {
    var ptr := h.alloc[i].addr;
    var a, k := Find(h.alloc, ptr), Above(h.free, ptr);
    if a < i {
      LiveDistinct(h, start, size, a, i);
    }
    assert 0 < k ==> h.free[k - 1].addr < ptr;
    forall j | 0 <= j < |h.free| && k <= j ensures ptr <= h.free[j].addr {
      assert k < j ==> h.free[k].addr + h.free[k].size < h.free[j].addr;
    }
  }

  // As written, heap_free cannot be called with success on a heap that has
  // only been allocated from: it needs a free block on each side.
  lemma {:induction false} FirstFreeFaults(start: nat, size: nat, ops: seq<HeapOp>, ptr: nat)
    requires forall i :: 0 <= i < |ops| ==> ops[i].AllocOp?
    ensures |Run(Create(start, size), ops).free| <= 1
    ensures FreeFaults(Run(Create(start, size), ops), ptr)
  {
    if ops != [] {
      FirstFreeFaults(start, size, ops[..|ops| - 1], ptr);
    }
  }
}
