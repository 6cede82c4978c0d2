// The two-level page tables of kernel/mem/paging.c, over a physical memory of
// 1024-word frames. A word is split as the 32-bit paging structures split it:
// bits 31:12 hold a frame number (PG_FRAME), bits 11:0 hold flags (PG_FLAGS).
module Paging {
  import opened Common
  import opened Pmm

  const PG_PRESENT: bv12 := 1
  const LAST_FRAME: FrameNumber := 0xF_FFFF

  datatype Entry = Entry(frame: FrameNumber, flags: bv12)

  type Table = t: seq<Entry> | |t| == 1024 witness seq(1024, _ => Entry(0, 0))
  type Memory = m: seq<Table> | |m| == 0x10_0000 witness seq(0x10_0000, _ => seq(1024, _ => Entry(0, 0)))

  // Pages are named by the upper 20 bits of their address.
  type Page = p: nat | p < 0x10_0000

  function EmptyTable(): Table {
    seq(1024, _ => Entry(0, 0))
  }

  function Store(m: Memory, f: FrameNumber, i: nat, e: Entry): Memory
    requires i < 1024
  {
    m[f := m[f][i := e]]
  }

  function OrFlags(m: Memory, f: FrameNumber, i: nat, flags: bv12): Memory
    requires i < 1024
  {
    Store(m, f, i, Entry(m[f][i].frame, m[f][i].flags | flags))
  }

  // ----- translation -----

  predicate Present(m: Memory, dir: FrameNumber, i: nat)
    requires i < 1024
  {
    m[dir][i].flags & PG_PRESENT != 0
  }

  function TableOf(m: Memory, dir: FrameNumber, i: nat): FrameNumber
    requires i < 1024
  {
    m[dir][i].frame
  }

  function Leaf(m: Memory, dir: FrameNumber, p: Page): Entry {
    m[TableOf(m, dir, p / 1024)][p % 1024]
  }

  predicate IsMapped(m: Memory, dir: FrameNumber, p: Page) {
    Present(m, dir, p / 1024) && Leaf(m, dir, p).flags & PG_PRESENT != 0
  }

  // The frame a page translates to.
  function Translate(m: Memory, dir: FrameNumber, p: Page): Option<FrameNumber> {
    if IsMapped(m, dir, p) then Some(Leaf(m, dir, p).frame) else None
  }

  // ----- what the table-writing loops leave in memory -----

  // Word `i` of the table at frame `tbl`; past 1024 words it is in a later frame.
  function WordFrame(tbl: FrameNumber, i: nat): FrameNumber {
    (tbl + i / 1024) % FRAMES
  }

  // Iteration `i` of the loop of pg_map_pages: a page found mapped only has
  // flags added first; then word `i` is written in either case.
  function MapStep(m: Memory, dir: FrameNumber, tbl: FrameNumber, p: Page, phys: FrameNumber, flags: bv12, i: nat): Memory {
    var m1 := if IsMapped(m, dir, (p + i) % FRAMES)
              then OrFlags(OrFlags(m, WordFrame(tbl, i), i % 1024, flags), dir, p / 1024, flags)
              else m;
    Store(m1, WordFrame(tbl, i), i % 1024, Entry((phys + i) % FRAMES, PG_PRESENT | flags))
  }

  // Memory after `n` iterations of the loop of pg_map_pages.
  function MapLoop(m: Memory, dir: FrameNumber, tbl: FrameNumber, p: Page, phys: FrameNumber, flags: bv12, n: nat): Memory {
    if n == 0 then m else MapStep(MapLoop(m, dir, tbl, p, phys, flags, n - 1), dir, tbl, p, phys, flags, n - 1)
  }

  // Memory after `n` iterations of the loop of pg_unmap_pages.
  function UnmapLoop(m: Memory, tbl: FrameNumber, n: nat): Memory {
    if n == 0 then m else Store(UnmapLoop(m, tbl, n - 1), WordFrame(tbl, n - 1), (n - 1) % 1024, Entry(0, 0))
  }

  // The frame of the address (word | PG_FRAME), where the code means `&`.
  function OrFrame(f: FrameNumber): FrameNumber {
    ((f as bv20) | 0xF_FFFF) as int
  }

  lemma OrFrameIsLast(f: FrameNumber)
    ensures OrFrame(f) == LAST_FRAME
  {
    var bits := f as bv20;
    assert bits | 0xF_FFFF == 0xF_FFFF;
  }

  // The frame bitmap after `n` iterations of that loop: each word's frame_free.
  function UnmapBits(bits: Bitmap, m: Memory, tbl: FrameNumber, n: nat): Bitmap {
    if n == 0 then bits
    else
      var word := UnmapLoop(m, tbl, n - 1)[WordFrame(tbl, n - 1)][(n - 1) % 1024];
      Mark(UnmapBits(bits, m, tbl, n - 1), OrFrame(word.frame), false)
  }

  lemma {:induction false} UnmapBitsIs(bits: Bitmap, m: Memory, tbl: FrameNumber, n: nat)
    ensures UnmapBits(bits, m, tbl, n) == if n == 0 then bits else Mark(bits, LAST_FRAME, false)
  {
    if n > 0 {
      UnmapBitsIs(bits, m, tbl, n - 1);
      OrFrameIsLast(UnmapLoop(m, tbl, n - 1)[WordFrame(tbl, n - 1)][(n - 1) % 1024].frame);
      MarkTwice(bits, LAST_FRAME, false);
    }
  }

  datatype PageOp =
    | MapOp(dir: FrameNumber, page: Page, num: nat, phys: FrameNumber, flags: bv12)
    | UnmapOp(dir: FrameNumber, page: Page, num: nat)

  // The frame allocator and memory together. `limit` is ManagedFrames(memorySize).
  datatype System = System(bits: Bitmap, mem: Memory)

  // pg_mk_pgtbl where the directory slot is empty; None is the allocator's panic.
  function EnsureTable(s: System, limit: nat, dir: FrameNumber, slot: nat, flags: bv12): Option<System>
    requires limit <= FRAMES && slot < 1024
  {
    if Present(s.mem, dir, slot) then Some(s)
    else
      var f := FirstFree(s.bits, 0, limit);
      if f == limit then None
      else Some(System(Mark(s.bits, f, true), Store(s.mem[f := EmptyTable()], dir, slot, Entry(f, PG_PRESENT | flags))))
  }

  // One call of pg_map_pages or pg_unmap_pages on page-aligned addresses.
  function Apply(s: System, limit: nat, op: PageOp): Option<System>
    requires limit <= FRAMES
  {
    var slot := op.page / 1024;
    match op
    case MapOp(dir, page, num, phys, flags) =>
      (match EnsureTable(s, limit, dir, slot, flags)
       case None => None
       case Some(s') =>
         Some(s'.(mem := MapLoop(s'.mem, dir, TableOf(s'.mem, dir, slot), page, phys, flags, num))))
    case UnmapOp(dir, _, num) =>
      if !Present(s.mem, dir, slot) then Some(s)
      else
        var tbl := TableOf(s.mem, dir, slot);
        Some(System(UnmapBits(s.bits, s.mem, tbl, num), UnmapLoop(s.mem, tbl, num)))
  }

  // ----- the invariant of a set of page directories -----

  predicate Owned(bits: Bitmap, f: FrameNumber) {
    Used(bits, f) && f != LAST_FRAME
  }

  ghost predicate NoSharing(s: System, dirs: set<FrameNumber>) {
    && (forall d :: d in dirs ==> Owned(s.bits, d))
    && (forall d, i: nat | d in dirs && i < 1024 && Present(s.mem, d, i) ::
          Owned(s.bits, TableOf(s.mem, d, i)) && TableOf(s.mem, d, i) !in dirs)
    && (forall d, e, i: nat, j: nat |
          d in dirs && e in dirs && i < 1024 && j < 1024 && Present(s.mem, d, i) && Present(s.mem, e, j) ::
          TableOf(s.mem, d, i) == TableOf(s.mem, e, j) ==> d == e && i == j)
  }

  // ----- one call -----

  // `m'` is `m` with the words of `tbl` below `n` rewritten by pg_map_pages.
  // The directory keeps its table frames and present bits.
  ghost predicate MapWrote(m: Memory, m': Memory, dir: FrameNumber, tbl: FrameNumber, phys: FrameNumber, flags: bv12, n: nat) {
    && (forall f: FrameNumber :: f != dir && f != tbl ==> m'[f] == m[f])
    && (forall k :: 0 <= k < 1024 ==>
          m'[tbl][k] == if k < n then Entry((phys + k) % FRAMES, PG_PRESENT | flags) else m[tbl][k])
    && (forall j :: 0 <= j < 1024 ==> TableOf(m', dir, j) == TableOf(m, dir, j))
    && (forall j :: 0 <= j < 1024 ==> Present(m', dir, j) == Present(m, dir, j))
  }

  lemma OrKeepsPresent(e: bv12, flags: bv12)
    requires e & PG_PRESENT != 0
    ensures (e | flags) & PG_PRESENT != 0 && (PG_PRESENT | flags) & PG_PRESENT != 0
  {
  }

  // Adding flags keeps what MapWrote says but for word `n` of the table.
  lemma OrFlagsWrites(m: Memory, m': Memory, dir: FrameNumber, tbl: FrameNumber, slot: nat, phys: FrameNumber, flags: bv12, n: nat)
    requires n < 1024 && slot < 1024 && tbl != dir && Present(m, dir, slot)
    requires MapWrote(m, m', dir, tbl, phys, flags, n)
    ensures var r := OrFlags(OrFlags(m', tbl, n, flags), dir, slot, flags);
      && (forall f: FrameNumber :: f != dir && f != tbl ==> r[f] == m[f])
      && (forall k :: 0 <= k < 1024 && k != n ==> r[tbl][k] == m'[tbl][k])
      && (forall j :: 0 <= j < 1024 ==> TableOf(r, dir, j) == TableOf(m, dir, j) && Present(r, dir, j) == Present(m, dir, j))
  {
    OrKeepsPresent(m'[dir][slot].flags, flags);
  }

  lemma MapStepWrites(m: Memory, m': Memory, dir: FrameNumber, tbl: FrameNumber, p: Page, phys: FrameNumber, flags: bv12, n: nat)
    requires n < 1024 && tbl != dir && Present(m, dir, p / 1024)
    requires MapWrote(m, m', dir, tbl, phys, flags, n)
    ensures MapWrote(m, MapStep(m', dir, tbl, p, phys, flags, n), dir, tbl, phys, flags, n + 1)
  {
    assert WordFrame(tbl, n) == tbl && n % 1024 == n;
    OrFlagsWrites(m, m', dir, tbl, p / 1024, phys, flags, n);
  }

  lemma {:induction false} MapLoopWrites(m: Memory, dir: FrameNumber, tbl: FrameNumber, p: Page, phys: FrameNumber, flags: bv12, n: nat)
    requires n <= 1024 && tbl != dir && Present(m, dir, p / 1024)
    ensures MapWrote(m, MapLoop(m, dir, tbl, p, phys, flags, n), dir, tbl, phys, flags, n)
  {
    if n > 0 {
      MapLoopWrites(m, dir, tbl, p, phys, flags, n - 1);
      MapStepWrites(m, MapLoop(m, dir, tbl, p, phys, flags, n - 1), dir, tbl, p, phys, flags, n - 1);
    }
  }

  // `m'` is `m` with the words of `tbl` below `n` cleared.
  ghost predicate UnmapWrote(m: Memory, m': Memory, tbl: FrameNumber, n: nat) {
    && (forall f: FrameNumber :: f != tbl ==> m'[f] == m[f])
    && (forall k :: 0 <= k < 1024 ==> m'[tbl][k] == if k < n then Entry(0, 0) else m[tbl][k])
  }

  lemma UnmapStepWrites(m: Memory, m': Memory, tbl: FrameNumber, n: nat)
    requires n < 1024 && UnmapWrote(m, m', tbl, n)
    ensures UnmapWrote(m, Store(m', WordFrame(tbl, n), n % 1024, Entry(0, 0)), tbl, n + 1)
  {
    assert WordFrame(tbl, n) == tbl && n % 1024 == n;
  }

  lemma {:induction false} UnmapLoopWrites(m: Memory, tbl: FrameNumber, n: nat)
    requires n <= 1024
    ensures UnmapWrote(m, UnmapLoop(m, tbl, n), tbl, n)
  {
    if n > 0 {
      UnmapLoopWrites(m, tbl, n - 1);
      UnmapStepWrites(m, UnmapLoop(m, tbl, n - 1), tbl, n - 1);
    }
  }

  lemma EnsureTableKeeps(s: System, limit: nat, dirs: set<FrameNumber>, dir: FrameNumber, slot: nat, flags: bv12)
    requires limit < FRAMES && slot < 1024 && dir in dirs && NoSharing(s, dirs)
    ensures var r := EnsureTable(s, limit, dir, slot, flags);
      r.Some? ==>
        && NoSharing(r.value, dirs) && Present(r.value.mem, dir, slot)
        && forall d, p: Page :: d in dirs ==> Translate(r.value.mem, d, p) == Translate(s.mem, d, p)
  {
    var r := EnsureTable(s, limit, dir, slot, flags);
    if r.Some? && !Present(s.mem, dir, slot) {
      var f := FirstFree(s.bits, 0, limit);
      forall d, i: nat | d in dirs && i < 1024
        ensures Present(r.value.mem, d, i) <==> (d, i) == (dir, slot) || Present(s.mem, d, i)
        ensures TableOf(r.value.mem, d, i) == if (d, i) == (dir, slot) then f else TableOf(s.mem, d, i)
      {
      }
    }
  }

  // What one call does to the translation of page `p` of its own directory:
  // the pages of the 4 MiB slot of the call's page whose table index is below
  // `num`, whatever the table index of the call's page.
  function Effect(op: PageOp, p: Page, t: Option<FrameNumber>): Option<FrameNumber> {
    if p / 1024 == op.page / 1024 && p % 1024 < op.num then
      match op
      case MapOp(_, _, _, phys, _) => Some((phys + p % 1024) % FRAMES)
      case UnmapOp(_, _, _) => None
    else t
  }

  // One call keeps the invariant, has the effect above on its own directory
  // and none on any other.
  lemma ApplyEffect(s: System, limit: nat, dirs: set<FrameNumber>, op: PageOp)
    requires limit < FRAMES && op.dir in dirs && op.num <= 1024 && NoSharing(s, dirs)
    ensures var r := Apply(s, limit, op);
      r.Some? ==>
        && NoSharing(r.value, dirs)
        && forall d, p: Page :: d in dirs ==>
             Translate(r.value.mem, d, p) ==
             if d == op.dir then Effect(op, p, Translate(s.mem, d, p)) else Translate(s.mem, d, p)
  {
    var r := Apply(s, limit, op);
    var slot := op.page / 1024;
    match op
    case MapOp(dir, page, num, phys, flags) =>
      EnsureTableKeeps(s, limit, dirs, dir, slot, flags);
      var s1 := EnsureTable(s, limit, dir, slot, flags);
      if s1.Some? {
        MapLoopWrites(s1.value.mem, dir, TableOf(s1.value.mem, dir, slot), page, phys, flags, num);
        MapEffect(s1.value, r.value, dirs, op);
      }
    case UnmapOp(dir, page, num) =>
      if Present(s.mem, dir, slot) {
        UnmapLoopWrites(s.mem, TableOf(s.mem, dir, slot), num);
        UnmapBitsIs(s.bits, s.mem, TableOf(s.mem, dir, slot), num);
        UnmapEffect(s, r.value, dirs, op);
      }
  }

  lemma UnmapEffect(s: System, s': System, dirs: set<FrameNumber>, op: PageOp)
    requires op.UnmapOp? && op.dir in dirs && op.num <= 1024 && NoSharing(s, dirs)
    requires Present(s.mem, op.dir, op.page / 1024)
    requires s'.bits == s.bits || s'.bits == Mark(s.bits, LAST_FRAME, false)
    requires var tbl := TableOf(s.mem, op.dir, op.page / 1024);
      && (forall f: FrameNumber :: f != tbl ==> s'.mem[f] == s.mem[f])
      && (forall k :: 0 <= k < 1024 ==> s'.mem[tbl][k] == if k < op.num then Entry(0, 0) else s.mem[tbl][k])
    ensures NoSharing(s', dirs)
    ensures forall d, p: Page :: d in dirs ==>
      Translate(s'.mem, d, p) == if d == op.dir then Effect(op, p, Translate(s.mem, d, p)) else Translate(s.mem, d, p)
  {
    forall d, i: nat | d in dirs && i < 1024
      ensures Present(s'.mem, d, i) == Present(s.mem, d, i) && TableOf(s'.mem, d, i) == TableOf(s.mem, d, i)
    {
    }
  }

  lemma MapEffect(s: System, s': System, dirs: set<FrameNumber>, op: PageOp)
    requires op.MapOp? && op.dir in dirs && op.num <= 1024 && NoSharing(s, dirs)
    requires Present(s.mem, op.dir, op.page / 1024)
    requires s'.bits == s.bits
    requires MapWrote(s.mem, s'.mem, op.dir, TableOf(s.mem, op.dir, op.page / 1024), op.phys, op.flags, op.num)
    ensures NoSharing(s', dirs)
    ensures forall d, p: Page :: d in dirs ==>
      Translate(s'.mem, d, p) == if d == op.dir then Effect(op, p, Translate(s.mem, d, p)) else Translate(s.mem, d, p)
  {
    OrKeepsPresent(PG_PRESENT, op.flags);
    forall d, i: nat | d in dirs && i < 1024
      ensures Present(s'.mem, d, i) == Present(s.mem, d, i) && TableOf(s'.mem, d, i) == TableOf(s.mem, d, i)
    {
    }
  }

  // ----- runs -----

  function Run(s: System, limit: nat, ops: seq<PageOp>): Option<System>
    requires limit <= FRAMES
  {
    if ops == [] then Some(s)
    else match Run(s, limit, ops[..|ops| - 1])
      case None => None
      case Some(s') => Apply(s', limit, ops[|ops| - 1])
  }

  // The translation of page `p` of directory `d` that the calls on `d` alone produce.
  function FoldEffects(ops: seq<PageOp>, d: FrameNumber, p: Page, t: Option<FrameNumber>): Option<FrameNumber> {
    if ops == [] then t
    else
      var last := ops[|ops| - 1];
      var t' := FoldEffects(ops[..|ops| - 1], d, p, t);
      if last.dir == d then Effect(last, p, t') else t'
  }

  // Over any run of pg_map_pages and pg_unmap_pages on a set of directories
  // that share no table, every translation of a directory depends only on the
  // calls made on that directory.
  lemma {:induction false} RunIsolation(s: System, limit: nat, dirs: set<FrameNumber>, ops: seq<PageOp>)
    requires limit < FRAMES && NoSharing(s, dirs)
    requires forall i :: 0 <= i < |ops| ==> ops[i].dir in dirs && ops[i].num <= 1024
    ensures var r := Run(s, limit, ops);
      r.Some? ==>
        && NoSharing(r.value, dirs)
        && forall d, p: Page :: d in dirs ==>
             Translate(r.value.mem, d, p) == FoldEffects(ops, d, p, Translate(s.mem, d, p))
  {
    if ops != [] && Run(s, limit, ops).Some? {
      RunIsolation(s, limit, dirs, ops[..|ops| - 1]);
      ApplyEffect(Run(s, limit, ops[..|ops| - 1]).value, limit, dirs, ops[|ops| - 1]);
    }
  }

  // With a 4 MiB aligned address pg_map_pages maps page + i to phys + i and nothing else.
  lemma AlignedMap(s: System, limit: nat, dirs: set<FrameNumber>, op: PageOp)
    requires limit < FRAMES && op.MapOp? && op.dir in dirs && op.num <= 1024 && NoSharing(s, dirs)
    requires op.page % 1024 == 0
    ensures var r := Apply(s, limit, op);
      r.Some? ==>
        forall p: Page ::
          Translate(r.value.mem, op.dir, p) ==
          if op.page <= p < op.page + op.num then Some((op.phys + (p - op.page)) % FRAMES)
          else Translate(s.mem, op.dir, p)
  {
    ApplyEffect(s, limit, dirs, op);
    forall p: Page
      ensures op.page <= p < op.page + op.num <==> p / 1024 == op.page / 1024 && p % 1024 < op.num
      ensures op.page <= p < op.page + op.num ==> p % 1024 == p - op.page
    {
      AlignedSlot(op.page, p, op.num);
    }
  }

  lemma AlignedSlot(page: Page, p: Page, num: nat)
    requires page % 1024 == 0 && num <= 1024
    ensures page <= p < page + num <==> p / 1024 == page / 1024 && p % 1024 < num
    ensures page <= p < page + num ==> p % 1024 == p - page
  {
    assert page == page / 1024 * 1024;
    assert p == p / 1024 * 1024 + p % 1024;
  }

  // For any alignment the first page is mapped as asked exactly when the
  // address is 4 MiB aligned, or its table index is not below num and the page
  // was mapped to that frame already.
  lemma FirstPageMapped(s: System, limit: nat, dirs: set<FrameNumber>, op: PageOp)
    requires limit < FRAMES && op.MapOp? && op.dir in dirs && 0 < op.num <= 1024 && NoSharing(s, dirs)
    requires Apply(s, limit, op).Some?
    ensures Translate(Apply(s, limit, op).value.mem, op.dir, op.page) == Some(op.phys) <==>
      (op.page % 1024 == 0 ||
       (op.num <= op.page % 1024 && Translate(s.mem, op.dir, op.page) == Some(op.phys)))
  {
    ApplyEffect(s, limit, dirs, op);
  }

  // pg_unmap_pages releases no frame but the last one of memory: over every
  // run of calls each other frame in use stays in use, so the frames of
  // unmapped pages are never available again.
  lemma {:induction false} UnmapReleasesLastFrame(s: System, limit: nat, ops: seq<PageOp>, f: FrameNumber)
    requires limit <= FRAMES && Run(s, limit, ops).Some? && Used(s.bits, f) && f != LAST_FRAME
    ensures Used(Run(s, limit, ops).value.bits, f)
    decreases |ops|
  {
    if ops != [] {
      var last := |ops| - 1;
      UnmapReleasesLastFrame(s, limit, ops[..last], f);
      var s1 := Run(s, limit, ops[..last]).value;
      if ops[last].UnmapOp? {
        UnmapBitsIs(s1.bits, s1.mem, TableOf(s1.mem, ops[last].dir, ops[last].page / 1024), ops[last].num);
      }
    }
  }

  // ----- the whole state after one call -----

  // The directory word of the call's page has got the flags of the call if its
  // table is new, or if some page of the call was mapped before.
  ghost predicate DirectoryFlags(m: Memory, m': Memory, dir: FrameNumber, page: Page, num: nat, flags: bv12) {
    var before, after := m[dir][page / 1024].flags, m'[dir][page / 1024].flags;
    if !Present(m, dir, page / 1024) then after == 1 | flags
    else if SomeMapped(m, dir, page, num) then after == before | flags
    else after == before
  }

  ghost predicate SomeMapped(m: Memory, dir: FrameNumber, page: Page, num: nat) {
    exists i: nat :: i < num && MappedAt(m, dir, page, i)
  }

  // The loop finds the page of its round `i` mapped.
  predicate MappedAt(m: Memory, dir: FrameNumber, page: Page, i: nat) {
    IsMapped(m, dir, (page + i) % FRAMES)
  }

  // The table is the one that was there, or the least free frame, zeroed.
  ghost predicate TableTaken(s: System, s': System, limit: nat, dir: FrameNumber, slot: nat, tbl: FrameNumber)
    requires slot < 1024
  {
    if Present(s.mem, dir, slot) then tbl == s.mem[dir][slot].frame && s'.bits == s.bits
    else
      && tbl < limit && !Used(s.bits, tbl) && (forall f: FrameNumber :: f < tbl ==> Used(s.bits, f))
      && OnlyChanges(s.bits, s'.bits, tbl, true)
  }

  // All of memory and of the bitmap after pg_map_pages.
  ghost predicate MapDone(s: System, s': System, limit: nat, dir: FrameNumber, page: Page, num: nat, phys: FrameNumber, flags: bv12) {
    var slot := page / 1024;
    var tbl := s'.mem[dir][slot].frame;
    && TableTaken(s, s', limit, dir, slot, tbl)
    && DirectoryFlags(s.mem, s'.mem, dir, page, num, flags)
    && TableMaps(s'.mem[tbl], phys, flags, num, if Present(s.mem, dir, slot) then s.mem[tbl] else EmptyTable())
    && OthersKept(s.mem, s'.mem, dir, slot, tbl)
  }

  ghost predicate TableMaps(t: Table, phys: FrameNumber, flags: bv12, num: nat, rest: Table) {
    forall k :: 0 <= k < 1024 ==> t[k] == if k < num then Entry((phys + k) % FRAMES, 1 | flags) else rest[k]
  }

  ghost predicate OthersKept(m: Memory, m': Memory, dir: FrameNumber, slot: nat, tbl: FrameNumber) {
    && (forall j :: 0 <= j < 1024 && j != slot ==> m'[dir][j] == m[dir][j])
    && forall f: FrameNumber :: f != dir && f != tbl ==> m'[f] == m[f]
  }

  // Directory `dir` after `n` rounds: the flags are added to one word at most.
  ghost predicate DirectoryWrote(m: Memory, m': Memory, dir: FrameNumber, page: Page, flags: bv12, n: nat) {
    && (forall j :: 0 <= j < 1024 && j != page / 1024 ==> m'[dir][j] == m[dir][j])
    && m'[dir][page / 1024].flags == Added(m[dir][page / 1024].flags, SomeMapped(m, dir, page, n), flags)
  }

  // No other table of `dir` is at frame `tbl`, or is the directory.
  ghost predicate OnlyTable(m: Memory, dir: FrameNumber, slot: nat, tbl: FrameNumber) {
    && tbl != dir && slot < 1024 && Present(m, dir, slot) && TableOf(m, dir, slot) == tbl
    && forall j: nat :: j < 1024 && j != slot && Present(m, dir, j) ==> TableOf(m, dir, j) != tbl && TableOf(m, dir, j) != dir
  }

  // The pages the loop looks at are as they were before the call.
  lemma LooksAtOld(m: Memory, m': Memory, dir: FrameNumber, tbl: FrameNumber, p: Page, phys: FrameNumber, flags: bv12, n: nat)
    requires n < 1024 && OnlyTable(m, dir, p / 1024, tbl) && MapWrote(m, m', dir, tbl, phys, flags, n)
    ensures MappedAt(m', dir, p, n) <==> MappedAt(m, dir, p, n)
  {
    var q := (p + n) % FRAMES;
    NextPage(p, n);
    if q / 1024 == p / 1024 {
      assert m'[tbl][q % 1024] == m[tbl][q % 1024];
    } else if Present(m, dir, q / 1024) {
      assert m'[TableOf(m, dir, q / 1024)] == m[TableOf(m, dir, q / 1024)];
    }
  }

  lemma NextPage(p: Page, n: nat)
    requires n < 1024
    ensures (p + n) % FRAMES / 1024 == p / 1024 ==> (p + n) % FRAMES % 1024 >= n
  {
    var q := (p + n) % FRAMES;
    assert q == if p + n < FRAMES then p + n else p + n - FRAMES;
  }

  lemma SomeMappedSnoc(m: Memory, dir: FrameNumber, page: Page, n: nat)
    ensures SomeMapped(m, dir, page, n + 1) <==> SomeMapped(m, dir, page, n) || MappedAt(m, dir, page, n)
  {
  }

  lemma OrTwice(a: bv12, b: bv12)
    ensures (a | b) | b == a | b
  {
  }

  function Added(a: bv12, hit: bool, flags: bv12): bv12 {
    if hit then a | flags else a
  }

  lemma AddedTwice(a: bv12, flags: bv12, x: bool, y: bool)
    ensures Added(Added(a, x, flags), y, flags) == Added(a, x || y, flags)
  {
    OrTwice(a, flags);
  }

  // What one round does to the words of the directory.
  lemma DirectoryRound(m: Memory, dir: FrameNumber, tbl: FrameNumber, p: Page, phys: FrameNumber, flags: bv12, n: nat)
    requires n < 1024 && tbl != dir
    ensures var r := MapStep(m, dir, tbl, p, phys, flags, n);
      && (forall j :: 0 <= j < 1024 && j != p / 1024 ==> r[dir][j] == m[dir][j])
      && r[dir][p / 1024].flags == Added(m[dir][p / 1024].flags, MappedAt(m, dir, p, n), flags)
  {
    assert WordFrame(tbl, n) == tbl;
  }

  lemma DirectoryStep(m: Memory, m': Memory, dir: FrameNumber, tbl: FrameNumber, p: Page, phys: FrameNumber, flags: bv12, n: nat)
    requires n < 1024 && OnlyTable(m, dir, p / 1024, tbl)
    requires MapWrote(m, m', dir, tbl, phys, flags, n) && DirectoryWrote(m, m', dir, p, flags, n)
    ensures DirectoryWrote(m, MapStep(m', dir, tbl, p, phys, flags, n), dir, p, flags, n + 1)
  {
    DirectoryRound(m', dir, tbl, p, phys, flags, n);
    LooksAtOld(m, m', dir, tbl, p, phys, flags, n);
    SomeMappedSnoc(m, dir, p, n);
    AddedTwice(m[dir][p / 1024].flags, flags, SomeMapped(m, dir, p, n), MappedAt(m, dir, p, n));
  }

  lemma {:induction false} DirectoryLoop(m: Memory, dir: FrameNumber, tbl: FrameNumber, p: Page, phys: FrameNumber, flags: bv12, n: nat)
    requires n <= 1024 && OnlyTable(m, dir, p / 1024, tbl)
    ensures DirectoryWrote(m, MapLoop(m, dir, tbl, p, phys, flags, n), dir, p, flags, n)
  {
    if n > 0 {
      DirectoryLoop(m, dir, tbl, p, phys, flags, n - 1);
      MapLoopWrites(m, dir, tbl, p, phys, flags, n - 1);
      DirectoryStep(m, MapLoop(m, dir, tbl, p, phys, flags, n - 1), dir, tbl, p, phys, flags, n - 1);
    }
  }

  lemma TablesApart(s: System, dirs: set<FrameNumber>, dir: FrameNumber, slot: nat)
    requires NoSharing(s, dirs) && dir in dirs && slot < 1024 && Present(s.mem, dir, slot)
    ensures OnlyTable(s.mem, dir, slot, TableOf(s.mem, dir, slot))
  {
  }

  // pg_map_pages, with what it leaves in every word of memory; it panics
  // exactly if a table is missing and no managed frame is free.
  lemma MapOutcome(s: System, limit: nat, dirs: set<FrameNumber>, op: PageOp)
    requires limit < FRAMES && op.MapOp? && op.dir in dirs && op.num <= 1024 && NoSharing(s, dirs)
    ensures var r := Apply(s, limit, op);
      && (r.None? <==> !Present(s.mem, op.dir, op.page / 1024) && forall f: FrameNumber :: f < limit ==> Used(s.bits, f))
      && (r.Some? ==> MapDone(s, r.value, limit, op.dir, op.page, op.num, op.phys, op.flags))
  {
    var slot := op.page / 1024;
    var s1 := EnsureTable(s, limit, op.dir, slot, op.flags);
    EnsureTableKeeps(s, limit, dirs, op.dir, slot, op.flags);
    if s1.Some? {
      MapOutcomeFrom(s, s1.value, limit, dirs, op);
    }
  }

  lemma MapOutcomeFrom(s: System, s1: System, limit: nat, dirs: set<FrameNumber>, op: PageOp)
    requires limit < FRAMES && op.MapOp? && op.dir in dirs && op.num <= 1024 && NoSharing(s, dirs) && NoSharing(s1, dirs)
    requires EnsureTable(s, limit, op.dir, op.page / 1024, op.flags) == Some(s1) && Present(s1.mem, op.dir, op.page / 1024)
    ensures MapDone(s, Apply(s, limit, op).value, limit, op.dir, op.page, op.num, op.phys, op.flags)
  {
    var slot := op.page / 1024;
    var tbl := TableOf(s1.mem, op.dir, slot);
    TablesApart(s1, dirs, op.dir, slot);
    MapLoopWrites(s1.mem, op.dir, tbl, op.page, op.phys, op.flags, op.num);
    DirectoryLoop(s1.mem, op.dir, tbl, op.page, op.phys, op.flags, op.num);
    var r := Apply(s, limit, op).value;
    assert r == s1.(mem := MapLoop(s1.mem, op.dir, tbl, op.page, op.phys, op.flags, op.num));
    if Present(s.mem, op.dir, slot) {
      InOldTable(s, r, limit, op);
    } else {
      assert s1.mem[tbl] == EmptyTable() by {
        assert Used(s.bits, op.dir);
      }
      InNewTable(s, s1, r, limit, op);
    }
  }

  lemma InOldTable(s: System, r: System, limit: nat, op: PageOp)
    requires op.MapOp? && Present(s.mem, op.dir, op.page / 1024) && r.bits == s.bits
    requires var tbl := TableOf(s.mem, op.dir, op.page / 1024);
      MapWrote(s.mem, r.mem, op.dir, tbl, op.phys, op.flags, op.num) && DirectoryWrote(s.mem, r.mem, op.dir, op.page, op.flags, op.num)
    ensures MapDone(s, r, limit, op.dir, op.page, op.num, op.phys, op.flags)
  {
  }

  lemma InNewTable(s: System, s1: System, r: System, limit: nat, op: PageOp)
    requires limit < FRAMES && op.MapOp? && !Present(s.mem, op.dir, op.page / 1024) && r.bits == s1.bits
    requires EnsureTable(s, limit, op.dir, op.page / 1024, op.flags) == Some(s1)
    requires var tbl := TableOf(s1.mem, op.dir, op.page / 1024);
      && s1.mem[tbl] == EmptyTable() && tbl != op.dir
      && MapWrote(s1.mem, r.mem, op.dir, tbl, op.phys, op.flags, op.num)
      && DirectoryWrote(s1.mem, r.mem, op.dir, op.page, op.flags, op.num)
    ensures MapDone(s, r, limit, op.dir, op.page, op.num, op.phys, op.flags)
  {
    var tbl := TableOf(s1.mem, op.dir, op.page / 1024);
    NewTableTaken(s, s1, r, limit, op.dir, op.page / 1024, op.flags);
    NewTableRest(s.mem, s1.mem, r.mem, op.dir, op.page, tbl, op.phys, op.flags, op.num);
    NewTableFlags(s.mem, s1.mem, r.mem, op.dir, op.page, op.num, op.flags);
  }

  lemma NewTableTaken(s: System, s1: System, r: System, limit: nat, dir: FrameNumber, slot: nat, flags: bv12)
    requires limit < FRAMES && slot < 1024 && !Present(s.mem, dir, slot) && r.bits == s1.bits
    requires EnsureTable(s, limit, dir, slot, flags) == Some(s1)
    ensures TableTaken(s, r, limit, dir, slot, TableOf(s1.mem, dir, slot))
  {
    var f := FirstFree(s.bits, 0, limit);
    assert s1.bits == Mark(s.bits, f, true) && TableOf(s1.mem, dir, slot) == f;
  }

  lemma NewTableRest(m: Memory, m1: Memory, m2: Memory, dir: FrameNumber, page: Page, tbl: FrameNumber, phys: FrameNumber,
      flags: bv12, num: nat)
    requires m1[tbl] == EmptyTable() && tbl != dir && OthersKept(m, m1, dir, page / 1024, tbl)
    requires MapWrote(m1, m2, dir, tbl, phys, flags, num) && DirectoryWrote(m1, m2, dir, page, flags, num)
    ensures TableMaps(m2[tbl], phys, flags, num, EmptyTable()) && OthersKept(m, m2, dir, page / 1024, tbl)
  {
  }

  lemma NewTableFlags(m: Memory, m1: Memory, m2: Memory, dir: FrameNumber, page: Page, num: nat, flags: bv12)
    requires !Present(m, dir, page / 1024) && m1[dir][page / 1024].flags == PG_PRESENT | flags
    requires DirectoryWrote(m1, m2, dir, page, flags, num)
    ensures DirectoryFlags(m, m2, dir, page, num, flags)
  {
    NewFlags(flags, SomeMapped(m1, dir, page, num));
  }

  lemma NewFlags(flags: bv12, hit: bool)
    ensures Added(PG_PRESENT | flags, hit, flags) == 1 | flags
  {
    OrTwice(1, flags);
  }

  // All of memory and of the bitmap after pg_unmap_pages.
  ghost predicate UnmapDone(s: System, s': System, dir: FrameNumber, page: Page, num: nat) {
    var slot := page / 1024;
    if !Present(s.mem, dir, slot) then s' == s
    else
      var tbl := s.mem[dir][slot].frame;
      && (if num == 0 then s'.bits == s.bits else OnlyChanges(s.bits, s'.bits, 0xF_FFFF, false))
      && (forall k :: 0 <= k < 1024 ==> s'.mem[tbl][k] == if k < num then Entry(0, 0) else s.mem[tbl][k])
      && forall f: FrameNumber :: f != tbl ==> s'.mem[f] == s.mem[f]
  }

  lemma UnmapOutcome(s: System, limit: nat, op: PageOp)
    requires limit <= FRAMES && op.UnmapOp? && op.num <= 1024
    ensures Apply(s, limit, op).Some? && UnmapDone(s, Apply(s, limit, op).value, op.dir, op.page, op.num)
  {
    if Present(s.mem, op.dir, op.page / 1024) {
      var tbl := TableOf(s.mem, op.dir, op.page / 1024);
      UnmapLoopWrites(s.mem, tbl, op.num);
      UnmapBitsIs(s.bits, s.mem, tbl, op.num);
    }
  }

  // The first `n` words of a table map consecutive frames from `phys`.
  ghost predicate HoldsRun(t: Table, phys: nat, flags: bv12, n: nat) {
    forall k :: 0 <= k < n && k < 1024 ==> t[k] == Entry((phys + k) % FRAMES, PG_PRESENT | flags)
  }

  lemma MapStepPastTable(m: Memory, dir: FrameNumber, tbl: FrameNumber, p: Page, phys: FrameNumber, flags: bv12, n: nat)
    requires n < 1024 && tbl != LAST_FRAME && tbl + 1 != dir
    requires HoldsRun(m[tbl + 1], phys + 1024, flags, n)
    ensures HoldsRun(MapStep(m, dir, tbl, p, phys, flags, 1024 + n)[tbl + 1], phys + 1024, flags, n + 1)
  {
    assert WordFrame(tbl, 1024 + n) == tbl + 1 && (1024 + n) % 1024 == n;
  }

  // Past 1024 pages the loop writes into the physical frame after the table,
  // as the 2048-page call of pg_init does.
  lemma {:induction false} MapPastTable(m: Memory, dir: FrameNumber, tbl: FrameNumber, p: Page, phys: FrameNumber, flags: bv12, n: nat)
    requires n <= 1024 && tbl != LAST_FRAME && tbl + 1 != dir
    ensures HoldsRun(MapLoop(m, dir, tbl, p, phys, flags, 1024 + n)[tbl + 1], phys + 1024, flags, n)
  {
    if n > 0 {
      MapPastTable(m, dir, tbl, p, phys, flags, n - 1);
      MapStepPastTable(MapLoop(m, dir, tbl, p, phys, flags, 1024 + (n - 1)), dir, tbl, p, phys, flags, n - 1);
    }
  }

  lemma AddressIn(f: FrameNumber, low: nat)
    requires low < 4096
    ensures 0 <= f * 4096 + low < WORD && (f * 4096 + low) / 4096 == f
  {
  }

  // The 32-bit sum of an aligned address and a page offset, by page number.
  lemma PageOf(addr: Address, i: nat)
    requires addr % 4096 == 0
    ensures var a := (addr + i * 4096) % WORD;
      0 <= a < WORD && a % 4096 == 0 && a / 4096 == (addr / 4096 + i) % FRAMES
  {
    assert addr + i * 4096 == (addr / 4096 + i) * 4096;
  }

  // ----- the code, on physical memory and the bitmap in place -----

  class Mmu {
    const pmm: FrameAllocator
    const ram: array<Table>

    constructor (pmm: FrameAllocator)
      ensures this.pmm == pmm && fresh(ram) && ram.Length == FRAMES
    {
      this.pmm := pmm;
      ram := new Table[FRAMES];
    }

    ghost predicate Valid()
      reads pmm
    {
      pmm.Valid() && ram.Length == FRAMES && ManagedFrames(pmm.memorySize) < FRAMES
      && ram as object != pmm.framesBmp
    }

    ghost function State(): System
      requires Valid()
      reads pmm, pmm.framesBmp, ram
    {
      System(pmm.Bits(), ram[..])
    }

    ghost function Limit(): nat
      requires Valid()
      reads pmm
    {
      ManagedFrames(pmm.memorySize)
    }

    method PgMkPgtbl(dir: FrameNumber, dirIndex: nat, flags: bv12) returns (panicked: bool)
      requires Valid() && dirIndex < 1024 && !Present(State().mem, dir, dirIndex)
      modifies pmm.framesBmp, ram
      ensures panicked <==> EnsureTable(old(State()), Limit(), dir, dirIndex, flags).None?
      ensures !panicked ==> State() == EnsureTable(old(State()), Limit(), dir, dirIndex, flags).value
      ensures !panicked ==>
        var e := State().mem[dir][dirIndex];
        && e.flags == 1 | flags && e.frame < Limit() && !Used(old(State()).bits, e.frame) && Used(State().bits, e.frame)
        && (e.frame != dir ==> forall k :: 0 <= k < 1024 ==> State().mem[e.frame][k] == Entry(0, 0))
    {
      var p, addr := pmm.FrameAlloc();
      if p {
        return true;
      }
      var newTable := addr / 4096;
      for i := 0 to 1024
        invariant pmm.Bits() == Mark(old(pmm.Bits()), newTable, true)
        invariant forall f: FrameNumber :: f != newTable ==> ram[f] == old(ram[f])
        invariant forall k :: 0 <= k < i ==> ram[newTable][k] == Entry(0, 0)
      {
        ram[newTable] := ram[newTable][i := Entry(0, 0)];
      }
      assert ram[newTable] == EmptyTable();
      assert ram[..] == old(ram[..])[newTable := EmptyTable()];
      WriteWord(dir, dirIndex, Entry(newTable, PG_PRESENT | flags));
      return false;
    }

    method PgMapPages(dir: FrameNumber, virt: Address, phys: Address, num: nat, flags: bv12, ghost dirs: set<FrameNumber>)
      returns (panicked: bool)
      requires Valid()
      modifies pmm.framesBmp, ram
      ensures var r := Apply(old(State()), Limit(), MapOp(dir, virt / 4096, num, phys / 4096, flags));
        && (panicked <==> virt % 4096 != 0 || phys % 4096 != 0 || r.None?)
        && (!panicked ==> State() == r.value)
      // Among directories that share no table, what that is.
      ensures !panicked && dir in dirs && NoSharing(old(State()), dirs) && num <= 1024 ==>
        MapDone(old(State()), State(), Limit(), dir, virt / 4096, num, phys / 4096, flags)
    {
      ghost var s0, op := State(), MapOp(dir, virt / 4096, num, phys / 4096, flags);
      if dir in dirs && NoSharing(s0, dirs) && num <= 1024 {
        MapOutcome(s0, Limit(), dirs, op);
      }
      if virt % 4096 != 0 || phys % 4096 != 0 {
        return true;
      }
      var dirIndex := virt / 4096 / 1024;
      if ram[dir][dirIndex].flags & PG_PRESENT == 0 {
        var p := PgMkPgtbl(dir, dirIndex, flags);
        if p {
          return true;
        }
      }
      var tbl := ram[dir][dirIndex].frame;
      PgMapAll(dir, tbl, virt, phys, num, flags);
      return false;
    }

    // Lines 75 to 89.
    method PgMapAll(dir: FrameNumber, tbl: FrameNumber, virt: Address, phys: Address, num: nat, flags: bv12)
      requires Valid() && virt % 4096 == 0 && phys % 4096 == 0
      modifies ram
      ensures State() == old(State()).(mem := MapLoop(old(ram[..]), dir, tbl, virt / 4096, phys / 4096, flags, num))
    {
      ghost var s := State();
      for i := 0 to num
        invariant pmm.Bits() == s.bits
        invariant ram[..] == MapLoop(s.mem, dir, tbl, virt / 4096, phys / 4096, flags, i)
      {
        PgMapOne(dir, tbl, virt, phys, flags, i);
      }
    }

    // The body of the loop above.
    method PgMapOne(dir: FrameNumber, tbl: FrameNumber, virt: Address, phys: Address, flags: bv12, i: nat)
      requires Valid() && virt % 4096 == 0 && phys % 4096 == 0
      modifies ram
      ensures ram[..] == MapStep(old(ram[..]), dir, tbl, virt / 4096, phys / 4096, flags, i)
    {
      PageOf(virt, i);
      PageOf(phys, i);
      var addr, value := (virt + i * 4096) % WORD, (phys + i * 4096) % WORD;
      var dirIndex := virt / 4096 / 1024;
      var _, mapped := PgIsMapped(dir, addr);
      var w, k := (tbl + i / 1024) % FRAMES, i % 1024;
      if mapped {
        AddFlags(w, k, flags);
        AddFlags(dir, dirIndex, flags);
      }
      WriteWord(w, k, Entry(value / 4096, PG_PRESENT | flags));
    }

    method AddFlags(f: FrameNumber, i: nat, flags: bv12)
      requires ram.Length == FRAMES && i < 1024
      modifies ram
      ensures ram[..] == OrFlags(old(ram[..]), f, i, flags)
    {
      WriteWord(f, i, Entry(ram[f][i].frame, ram[f][i].flags | flags));
    }

    // A store through a word pointer.
    method WriteWord(f: FrameNumber, i: nat, e: Entry)
      requires ram.Length == FRAMES && i < 1024
      modifies ram
      ensures ram[..] == Store(old(ram[..]), f, i, e)
    {
      ram[f] := ram[f][i := e];
    }

    method PgIsMapped(dir: FrameNumber, virt: Address) returns (panicked: bool, r: bool)
      requires Valid()
      ensures panicked <==> virt % 4096 != 0
      ensures !panicked ==> r == IsMapped(State().mem, dir, virt / 4096)
    {
      if virt % 4096 != 0 {
        return true, false;
      }
      var dirIndex, tableIndex := virt / 4096 / 1024, virt / 4096 % 1024;
      var tbl := ram[dir][dirIndex].frame;
      return false, ram[dir][dirIndex].flags & PG_PRESENT != 0 && ram[tbl][tableIndex].flags & PG_PRESENT != 0;
    }

    // pg_virt_to_phys; `panicked` on an unaligned address. It does not look at
    // the present bits: of an unmapped page it gives the frame bits of some word.
    method PgVirtToPhys(dir: FrameNumber, virt: Address) returns (panicked: bool, phys: nat)
      requires Valid()
      ensures panicked <==> virt % 4096 != 0
      ensures !panicked && IsMapped(State().mem, dir, virt / 4096) ==> Translate(State().mem, dir, virt / 4096) == Some(phys / 4096)
      ensures !panicked ==> phys == 4096 * Leaf(State().mem, dir, virt / 4096).frame
    {
      if virt % 4096 != 0 {
        return true, 0;
      }
      var dirIndex, tableIndex := virt / 4096 / 1024, virt / 4096 % 1024;
      var tbl := ram[dir][dirIndex].frame;
      return false, 4096 * ram[tbl][tableIndex].frame;
    }

    method PgUnmapPages(dir: FrameNumber, virt: Address, num: nat) returns (panicked: bool)
      requires Valid()
      modifies pmm.framesBmp, ram
      ensures panicked <==> virt % 4096 != 0
      ensures !panicked ==> Some(State()) == Apply(old(State()), Limit(), UnmapOp(dir, virt / 4096, num))
      ensures !panicked && num <= 1024 ==> UnmapDone(old(State()), State(), dir, virt / 4096, num)
    {
      if num <= 1024 {
        UnmapOutcome(State(), Limit(), UnmapOp(dir, virt / 4096, num));
      }
      if virt % 4096 != 0 {
        return true;
      }
      var dirIndex := virt / 4096 / 1024;
      if ram[dir][dirIndex].flags & PG_PRESENT == 0 {
        return false;
      }
      var tbl := ram[dir][dirIndex].frame;
      ghost var s := State();
      for i := 0 to num
        invariant State() == System(UnmapBits(s.bits, s.mem, tbl, i), UnmapLoop(s.mem, tbl, i))
      {
        PgUnmapOne(tbl, i);
      }
      return false;
    }

    // The body of the loop above. The guard (word | PG_PRESENT) is never zero.
    method PgUnmapOne(tbl: FrameNumber, i: nat)
      requires Valid()
      modifies pmm.framesBmp, ram
      ensures pmm.Bits() == Mark(old(pmm.Bits()), OrFrame(old(ram[WordFrame(tbl, i)][i % 1024].frame)), false)
      ensures ram[..] == Store(old(ram[..]), WordFrame(tbl, i), i % 1024, Entry(0, 0))
    {
      var w, k := (tbl + i / 1024) % FRAMES, i % 1024;
      var word := ram[w][k];
      if word.frame != 0 || word.flags | PG_PRESENT != 0 {
        AddressIn(OrFrame(word.frame), word.flags as nat);
        pmm.FrameFree(OrFrame(word.frame) * 4096 + word.flags as nat);
        WriteWord(w, k, Entry(0, 0));
      }
    }

    method PgClonePageTable(word: Entry) returns (panicked: bool, r: Entry)
      requires Valid()
      modifies pmm.framesBmp, ram
      ensures panicked <==> FirstFree(old(pmm.Bits()), 0, Limit()) == Limit()
      ensures panicked ==> State() == old(State())
      ensures !panicked ==>
        && r == Entry(FirstFree(old(pmm.Bits()), 0, Limit()), word.flags) && r.frame < Limit()
        && State() == System(Mark(old(pmm.Bits()), r.frame, true), old(ram[..])[r.frame := old(ram[word.frame])])
    {
      var p, addr := pmm.FrameAlloc();
      if p {
        return true, word;
      }
      ram[addr / 4096] := ram[word.frame];
      return false, Entry(addr / 4096, word.flags);
    }

    // The loop body of pg_clone_page_dir for a present entry.
    method PgCloneEntry(dir: FrameNumber, newDir: FrameNumber, i: nat) returns (panicked: bool)
      requires Valid() && i < 1024 && dir != newDir && Used(State().bits, dir)
      modifies pmm.framesBmp, ram
      ensures panicked <==> FirstFree(old(pmm.Bits()), 0, Limit()) == Limit()
      ensures !panicked ==>
        var s, t := old(State()), FirstFree(old(pmm.Bits()), 0, Limit());
        && t < Limit() && State().bits == Mark(s.bits, t, true)
        && State().mem == Store(s.mem[t := s.mem[TableOf(s.mem, dir, i)]], newDir, i, Entry(t, s.mem[dir][i].flags))
    {
      var word := ram[dir][i];
      var q, r := PgClonePageTable(word);
      if q {
        return true;
      }
      WriteWord(newDir, i, r);
      AddFlags(newDir, i, ram[dir][i].flags);
      SameFlags(word.flags);
      StoreTwice(old(ram[..])[r.frame := old(ram[word.frame])], newDir, i, r, r);
      return false;
    }

    // pg_clone_page_dir, among the directories `dirs` that share no table.
    method PgClonePageDir(dir: FrameNumber, ghost dirs: set<FrameNumber>) returns (panicked: bool, newDir: FrameNumber)
      requires Valid() && dir in dirs && NoSharing(State(), dirs)
      modifies pmm.framesBmp, ram
      ensures panicked <==> FreeCount(old(State()).bits, Limit()) < 1 + PresentCount(old(State()).mem, dir, 1024)
      ensures !panicked ==> Cloned(old(State()), State(), dir, newDir, 1024)
      ensures !panicked ==>
        && newDir !in dirs && NoSharing(State(), dirs + {newDir})
        && (forall p: Page :: Translate(State().mem, newDir, p) == Translate(old(State()).mem, dir, p))
        && (forall d, p: Page :: d in dirs ==> Translate(State().mem, d, p) == Translate(old(State()).mem, d, p))
        && (forall i :: 0 <= i < 1024 && Present(old(State()).mem, dir, i) ==>
              State().mem[newDir][i].flags == old(State()).mem[dir][i].flags)
        && (forall f: FrameNumber :: Used(old(State()).bits, f) ==>
              Used(State().bits, f) && State().mem[f] == old(State()).mem[f])
    {
      ghost var s0 := State();
      var p, addr := pmm.FrameAlloc();
      TakesOne(s0.bits, Limit());
      if p {
        return true, 0;
      }
      newDir := addr / 4096;
      ram[newDir] := EmptyTable();
      for i := 0 to 1024
        invariant Cloning(s0, dir, newDir, i)
      {
        var q := PgCloneSlot(dir, newDir, i, s0, dirs);
        if q {
          return true, 0;
        }
      }
      CloneDone(s0, State(), dir, dirs, newDir);
      return false, newDir;
    }

    // The first `i` entries are cloned, each table taking one free frame.
    ghost predicate Cloning(s0: System, dir: FrameNumber, newDir: FrameNumber, i: nat)
      reads this, pmm, pmm.framesBmp, ram
    {
      && Valid() && i <= 1024 && Cloned(s0, State(), dir, newDir, i)
      && FreeCount(s0.bits, Limit()) == FreeCount(State().bits, Limit()) + 1 + PresentCount(s0.mem, dir, i)
    }

    // Lines 157 to 160.
    method PgCloneSlot(dir: FrameNumber, newDir: FrameNumber, i: nat, ghost s0: System, ghost dirs: set<FrameNumber>)
      returns (panicked: bool)
      requires Cloning(s0, dir, newDir, i) && i < 1024 && dir in dirs && NoSharing(s0, dirs)
      modifies pmm.framesBmp, ram
      ensures panicked ==> FreeCount(s0.bits, Limit()) < 1 + PresentCount(s0.mem, dir, 1024)
      ensures !panicked ==> Cloning(s0, dir, newDir, i + 1)
    {
      ghost var s := State();
      if ram[dir][i].flags & PG_PRESENT == 0 {
        return false;
      }
      TakesOne(s.bits, Limit());
      panicked := PgCloneEntry(dir, newDir, i);
      if panicked {
        PresentCountGrows(s0.mem, dir, i + 1, 1024);
      } else {
        CloneStep(s0, s, State(), dir, dirs, newDir, i, FirstFree(s.bits, 0, Limit()));
      }
    }
  }

  // ----- cloning -----

  // How many of the first `n` directory entries are present.
  function PresentCount(m: Memory, dir: FrameNumber, n: nat): nat
    requires n <= 1024
  {
    if n == 0 then 0 else PresentCount(m, dir, n - 1) + if Present(m, dir, n - 1) then 1 else 0
  }

  lemma {:induction false} PresentCountGrows(m: Memory, dir: FrameNumber, i: nat, n: nat)
    requires i <= n <= 1024
    ensures PresentCount(m, dir, i) <= PresentCount(m, dir, n)
    decreases n
  {
    if i < n {
      PresentCountGrows(m, dir, i, n - 1);
    }
  }

  // The allocator takes one frame, or there is none.
  lemma TakesOne(b: Bitmap, limit: nat)
    requires limit < FRAMES
    ensures var f := FirstFree(b, 0, limit);
      if f == limit then FreeCount(b, limit) == 0 else FreeCount(b, limit) == FreeCount(Mark(b, f, true), limit) + 1
  {
    var f := FirstFree(b, 0, limit);
    if f == limit {
      NoneFree(b, limit);
    } else {
      MarkCounts(b, f, limit);
    }
  }

  lemma StoreTwice(m: Memory, f: FrameNumber, i: nat, e: Entry, e': Entry)
    requires i < 1024
    ensures Store(Store(m, f, i, e), f, i, e') == Store(m, f, i, e')
  {
    assert m[f][i := e][i := e'] == m[f][i := e'];
  }

  lemma SameFlags(flags: bv12)
    ensures flags | flags == flags
  {
  }

  // The clone `newDir` of `dir` after `n` directory entries: fresh frames hold
  // copies of the tables, and no frame in use before the call has changed.
  ghost predicate Cloned(s0: System, s: System, dir: FrameNumber, newDir: FrameNumber, n: nat)
    requires n <= 1024
  {
    && !Used(s0.bits, newDir) && Owned(s.bits, newDir)
    && (forall f: FrameNumber :: Used(s0.bits, f) ==> Used(s.bits, f) && s.mem[f] == s0.mem[f])
    && (forall j :: n <= j < 1024 ==> s.mem[newDir][j] == Entry(0, 0))
    && (forall j :: 0 <= j < n ==> Present(s.mem, newDir, j) == Present(s0.mem, dir, j))
    && (forall j :: 0 <= j < n && Present(s0.mem, dir, j) ==> CopiedTable(s0, s, dir, newDir, j))
    && (forall j, k :: 0 <= j < k < n && Present(s0.mem, dir, j) && Present(s0.mem, dir, k) ==>
          TableOf(s.mem, newDir, j) != TableOf(s.mem, newDir, k))
  }

  ghost predicate CopiedTable(s0: System, s: System, dir: FrameNumber, newDir: FrameNumber, j: nat)
    requires j < 1024
  {
    var t := TableOf(s.mem, newDir, j);
    && !Used(s0.bits, t) && Owned(s.bits, t) && t != newDir
    && s.mem[newDir][j].flags == s0.mem[dir][j].flags
    && s.mem[t] == s0.mem[TableOf(s0.mem, dir, j)]
  }

  lemma CloneStep(s0: System, s: System, s': System, dir: FrameNumber, dirs: set<FrameNumber>, newDir: FrameNumber, i: nat, t: FrameNumber)
    requires i < 1024 && dir in dirs && NoSharing(s0, dirs)
    requires Cloned(s0, s, dir, newDir, i) && Present(s0.mem, dir, i)
    requires !Used(s.bits, t) && t != LAST_FRAME
    requires s'.bits == Mark(s.bits, t, true)
    requires s'.mem == Store(s.mem[t := s0.mem[TableOf(s0.mem, dir, i)]], newDir, i, Entry(t, s0.mem[dir][i].flags))
    ensures Cloned(s0, s', dir, newDir, i + 1)
  {
    forall j | 0 <= j < i && Present(s0.mem, dir, j) ensures CopiedTable(s0, s', dir, newDir, j) {
      assert CopiedTable(s0, s, dir, newDir, j);
    }
    assert CopiedTable(s0, s', dir, newDir, i);
  }

  lemma CloneDone(s0: System, s: System, dir: FrameNumber, dirs: set<FrameNumber>, newDir: FrameNumber)
    requires dir in dirs && NoSharing(s0, dirs) && Cloned(s0, s, dir, newDir, 1024)
    ensures newDir !in dirs && NoSharing(s, dirs + {newDir})
    ensures forall p: Page :: Translate(s.mem, newDir, p) == Translate(s0.mem, dir, p)
    ensures forall d, p: Page :: d in dirs ==> Translate(s.mem, d, p) == Translate(s0.mem, d, p)
    ensures forall i :: 0 <= i < 1024 && Present(s0.mem, dir, i) ==> s.mem[newDir][i].flags == s0.mem[dir][i].flags
  {
    forall i | 0 <= i < 1024 && Present(s0.mem, dir, i) ensures CopiedTable(s0, s, dir, newDir, i) {
    }
    forall d, i: nat | d in dirs && i < 1024 && Present(s.mem, d, i)
      ensures s.mem[d] == s0.mem[d] && Present(s0.mem, d, i)
      ensures Used(s0.bits, TableOf(s.mem, d, i)) && s.mem[TableOf(s.mem, d, i)] == s0.mem[TableOf(s.mem, d, i)]
    {
      assert Owned(s0.bits, d);
      assert TableOf(s.mem, d, i) == TableOf(s0.mem, d, i);
      assert Owned(s0.bits, TableOf(s0.mem, d, i));
    }
  }

  lemma {:induction false} NoCallNoEffect(ops: seq<PageOp>, d: FrameNumber, p: Page, t: Option<FrameNumber>)
    requires forall i :: 0 <= i < |ops| ==> ops[i].dir != d
    ensures FoldEffects(ops, d, p, t) == t
  {
    if ops != [] {
      NoCallNoEffect(ops[..|ops| - 1], d, p, t);
    }
  }

  // After a clone, any run on the clone leaves every translation of the source
  // as it was, and any run on the source leaves the clone translating as the
  // source did when it was cloned.
  lemma CloneIsPrivate(s0: System, s: System, dir: FrameNumber, newDir: FrameNumber, limit: nat,
      dirs: set<FrameNumber>, ops: seq<PageOp>, on: FrameNumber)
    requires limit < FRAMES && dir in dirs && NoSharing(s0, dirs) && Cloned(s0, s, dir, newDir, 1024)
    requires on == dir || on == newDir
    requires forall i :: 0 <= i < |ops| ==> ops[i].dir == on && ops[i].num <= 1024
    requires Run(s, limit, ops).Some?
    ensures var other := if on == dir then newDir else dir;
      forall p: Page :: Translate(Run(s, limit, ops).value.mem, other, p) == Translate(s0.mem, dir, p)
  {
    CloneDone(s0, s, dir, dirs, newDir);
    RunIsolation(s, limit, dirs + {newDir}, ops);
    var other := if on == dir then newDir else dir;
    forall p: Page ensures FoldEffects(ops, other, p, Translate(s.mem, other, p)) == Translate(s.mem, other, p) {
      NoCallNoEffect(ops, other, p, Translate(s.mem, other, p));
    }
  }
}
