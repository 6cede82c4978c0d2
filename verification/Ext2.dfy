// Inodes, block offsets and the directory iterator of kernel/fs/ext2fs/ext2.c.
module Ext2 {
  import opened Arithmetic
  import opened Ata
  import opened Common
  import opened Ext2Index
  import opened LittleEndian

  function U32At(disk: Disk, at: nat): nat {
    U32(Slice(disk, at, 4), 0)
  }

  // ----- inodes -----

  // The fields of ext2_inode_t that are read.
  datatype Inode = Inode(mode: nat, size: nat, direct: seq<nat>, single: nat, double: nat, triple: nat)

  // A mounted partition; `gd` gives the inode table's first block of a group.
  datatype Fs = Fs(disk: Disk, pOffset: nat, pointers: nat, inodesPerGroup: nat, inodeSize: nat, gd: nat -> nat)

  predicate Mounted(fs: Fs) {
    0 < fs.pointers < 0x4000_0000 && fs.inodesPerGroup > 0 && fs.inodeSize >= 128
  }

  function BlockSize(fs: Fs): nat {
    4 * fs.pointers
  }

  // The product of two uint32_t.
  function Times(a: nat, b: nat): nat {
    a * b % WORD
  }

  function InodeOffset(fs: Fs, number: nat): nat
    requires Mounted(fs)
  {
    var index := (number - 1) % WORD;
    Times(fs.gd(Div(index, fs.inodesPerGroup)), BlockSize(fs)) + Mod(index, fs.inodesPerGroup) * fs.inodeSize
  }

  // An inode record: direct_block_pointer starts at byte 40.
  function Decode(s: seq<Byte>): (inode: Inode)
    requires |s| >= 128
    ensures |inode.direct| == 12
  {
    Inode(U16(s, 0), U32(s, 4), seq(12, i requires 0 <= i < 12 => U32(s, 40 + 4 * i)), U32(s, 88), U32(s, 92), U32(s, 96))
  }

  // ext2_get_inode
  function GetInode(fs: Fs, number: nat): (inode: Inode)
    requires Mounted(fs)
    ensures |inode.direct| == 12
  {
    Decode(Slice(fs.disk, fs.pOffset + InodeOffset(fs, number), fs.inodeSize))
  }

  // Inode number g * inodesPerGroup + i + 1 is the record with index i in the
  // table of group g, exactly if the table starts below 4 GiB.
  lemma InodePlace(fs: Fs, number: nat, g: nat, i: nat)
    requires Mounted(fs) && i < fs.inodesPerGroup && number == g * fs.inodesPerGroup + i + 1 < WORD
    ensures InodeOffset(fs, number) == RecordPlace(fs, g, i) <==> fs.gd(g) * BlockSize(fs) < WORD
  {
    InodeIndex(fs.inodesPerGroup, g, i);
    ProductsWrap(fs.gd(g), BlockSize(fs));
    assert InodeOffset(fs, number) == Times(fs.gd(g), BlockSize(fs)) + i * fs.inodeSize;
  }

  // Record `i` of the inode table of group `g`, as an offset in the partition.
  function RecordPlace(fs: Fs, g: nat, i: nat): nat {
    fs.gd(g) * BlockSize(fs) + i * fs.inodeSize
  }

  lemma InodeIndex(perGroup: nat, g: nat, i: nat)
    requires i < perGroup && g * perGroup + i + 1 < WORD
    ensures var index := (g * perGroup + i + 1 - 1) % WORD; Div(index, perGroup) == g && Mod(index, perGroup) == i
  {
    DivIs(g * perGroup + i, perGroup, g, i);
  }

  // ----- inode records -----

  predicate ValidInode(inode: Inode) {
    && inode.mode < 0x1_0000 && inode.size < WORD && |inode.direct| == 12 && inode.single < WORD && inode.double < WORD
    && inode.triple < WORD && forall i :: 0 <= i < 12 ==> inode.direct[i] < WORD
  }

  function Words(ws: seq<nat>): (s: seq<Byte>)
    requires forall i :: 0 <= i < |ws| ==> ws[i] < WORD
    ensures |s| == 4 * |ws|
  {
    if ws == [] then [] else Words(ws[..|ws| - 1]) + Bytes32(ws[|ws| - 1])
  }

  // The 15 block pointers of an inode.
  function PointersOf(inode: Inode): (ws: seq<nat>)
    requires |inode.direct| == 12
    ensures |ws| == 15
  {
    inode.direct + [inode.single, inode.double, inode.triple]
  }

  // A record of `inode`: the mode at byte 0, the size at byte 4 and the block
  // pointers from byte 40 to 100, whatever the other bytes hold.
  ghost predicate RecordHolds(s: seq<Byte>, inode: Inode) {
    && ValidInode(inode) && |s| >= 128 && s[0..2] == Bytes16(inode.mode) && s[4..8] == Bytes32(inode.size)
    && s[40..100] == Words(PointersOf(inode))
  }

  lemma WordIs(s: seq<Byte>, at: nat, n: nat)
    requires n < WORD && at + 4 <= |s| && s[at..at + 4] == Bytes32(n)
    ensures U32(s, at) == n
  {
    var t := s[at..at + 4];
    assert t[0] == s[at] && t[1] == s[at + 1] && t[2] == s[at + 2] && t[3] == s[at + 3];
  }

  lemma {:induction false} WordAt(ws: seq<nat>, i: nat)
    requires i < |ws| && forall i :: 0 <= i < |ws| ==> ws[i] < WORD
    ensures Words(ws)[4 * i..4 * i + 4] == Bytes32(ws[i])
  {
    var n := |ws| - 1;
    if i < n {
      WordAt(ws[..n], i);
      assert Words(ws)[4 * i..4 * i + 4] == Words(ws[..n])[4 * i..4 * i + 4];
    }
  }

  // Decoding a record gives the inode back.
  lemma DecodeRecord(s: seq<Byte>, inode: Inode)
    requires RecordHolds(s, inode)
    ensures Decode(s) == inode
  {
    var ws := PointersOf(inode);
    assert s[0] == s[0..2][0] && s[1] == s[0..2][1];
    WordIs(s, 4, inode.size);
    forall i | 0 <= i < 15 ensures U32(s, 40 + 4 * i) == ws[i] {
      PointerInRecord(s, ws, 4 * i, i);
    }
    assert U32(s, 40 + 4 * 12) == ws[12] && U32(s, 40 + 4 * 13) == ws[13] && U32(s, 40 + 4 * 14) == ws[14];
    forall k | 0 <= k < 12 ensures Decode(s).direct[k] == inode.direct[k] {
      assert U32(s, 40 + 4 * k) == ws[k];
    }
  }

  lemma SliceWithin(s: seq<Byte>, lo: nat, hi: nat, from: nat, to: nat)
    requires lo <= hi <= |s| && from <= to <= hi - lo
    ensures s[lo..hi][from..to] == s[lo + from..lo + to]
  {
    assert forall k :: 0 <= k < to - from ==> s[lo..hi][from..to][k] == s[lo + from + k];
  }

  lemma PointerInRecord(s: seq<Byte>, ws: seq<nat>, at: nat, i: nat)
    requires |s| >= 100 && |ws| == 15 && (forall i :: 0 <= i < 15 ==> ws[i] < WORD) && s[40..100] == Words(ws) && at == 4 * i < 60
    ensures U32(s, 40 + at) == ws[i]
  {
    WordAt(ws, i);
    SliceWithin(s, 40, 100, at, at + 4);
    WordIs(s, 40 + at, ws[i]);
  }

  // The partition holds `inode` as record `i` of group `g`, which has number `number`.
  ghost predicate StoredAt(fs: Fs, number: nat, g: nat, i: nat, inode: Inode)
    requires Mounted(fs)
  {
    && i < fs.inodesPerGroup && number == g * fs.inodesPerGroup + i + 1 < WORD && fs.gd(g) * BlockSize(fs) < WORD
    && RecordHolds(Slice(fs.disk, fs.pOffset + RecordPlace(fs, g, i), fs.inodeSize), inode)
  }

  ghost predicate Stored(fs: Fs, number: nat, inode: Inode)
    requires Mounted(fs)
  {
    exists g: nat, i: nat :: StoredAt(fs, number, g, i, inode)
  }

  // The inode read is the one stored under its number.
  lemma StoredIsRead(fs: Fs, number: nat, inode: Inode)
    requires Mounted(fs) && Stored(fs, number, inode)
    ensures GetInode(fs, number) == inode
  {
    var g: nat, i: nat :| StoredAt(fs, number, g, i, inode);
    InodePlace(fs, number, g, i);
    ReadRecord(fs, number, RecordPlace(fs, g, i), inode);
  }

  lemma ReadRecord(fs: Fs, number: nat, offset: nat, inode: Inode)
    requires Mounted(fs) && InodeOffset(fs, number) == offset
    requires RecordHolds(Slice(fs.disk, fs.pOffset + offset, fs.inodeSize), inode)
    ensures GetInode(fs, number) == inode
  {
    DecodeRecord(Slice(fs.disk, fs.pOffset + offset, fs.inodeSize), inode);
  }

  // mode & EXT2_INODE_TYPE_DIR, mode & EXT2_INODE_TYPE_FILE
  predicate IsDir(inode: Inode) {
    inode.mode / 0x4000 % 2 == 1
  }

  predicate IsFile(inode: Inode) {
    inode.mode / 0x8000 % 2 == 1
  }

  // The type is the upper four bits of the mode: 4 for a directory, 8 for a
  // file. The tests of one bit hold of block devices (6) and sockets (12), and
  // of symbolic links (10) and sockets, too.
  lemma TypeBits(inode: Inode)
    requires inode.mode < 0x1_0000
    ensures IsDir(inode) <==> inode.mode / 0x1000 in {4, 5, 6, 7, 12, 13, 14, 15}
    ensures IsFile(inode) <==> inode.mode / 0x1000 >= 8
  {
  }

  // ----- block offsets -----

  // ext2_get_sbptr_offset; `index` is in bytes.
  function SingleOffset(fs: Fs, inode: Inode, index: nat): nat {
    var block := U32At(fs.disk, fs.pOffset + (Times(inode.single, BlockSize(fs)) + index) % WORD);
    fs.pOffset + Times(block, BlockSize(fs))
  }

  // ext2_get_dbptr_offset. Both indices are added to addresses in bytes, but
  // the caller passes the numbers of entries, unlike for SingleOffset.
  function DoubleOffset(fs: Fs, inode: Inode, index1: nat, index2: nat): nat {
    var first := U32At(fs.disk, SingleOffset(fs, inode, index1));
    var second := U32At(fs.disk, (Times(first, BlockSize(fs)) + index2) % WORD);
    fs.pOffset + Times(second, BlockSize(fs))
  }

  // ext2_get_tbptr_offset, whose indices are numbers of entries as well.
  function TripleOffset(fs: Fs, inode: Inode, index1: nat, index2: nat, index3: nat): nat {
    var first := U32At(fs.disk, DoubleOffset(fs, inode, index1, index2));
    var second := U32At(fs.disk, (Times(first, BlockSize(fs)) + index3) % WORD);
    fs.pOffset + Times(second, BlockSize(fs))
  }

  // ext2_get_block_offset
  function BlockOffset(fs: Fs, inode: Inode, n: nat): (offset: nat)
    requires Mounted(fs) && |inode.direct| == 12
    ensures offset < WORD
    ensures n < 12 ==> offset == Times(inode.direct[n], BlockSize(fs))
  {
    OffsetOf(fs, inode, PlaceOf(fs.pointers, n))
  }

  function OffsetOf(fs: Fs, inode: Inode, place: Place): (offset: nat)
    requires |inode.direct| == 12 && (place.Direct? ==> place.i < 12)
    ensures offset < WORD
  {
    match place
    case Direct(i) => Times(inode.direct[i], BlockSize(fs))
    case Single(i) => SingleOffset(fs, inode, 4 * i % WORD) % WORD
    case Double(i, j) => DoubleOffset(fs, inode, i, j) % WORD
    case Triple(i, j, k) => TripleOffset(fs, inode, i, j, k) % WORD
    case Beyond => 0
  }

  // ----- the blocks of a file -----

  // Entry `i` of a block of pointers; a missing block has none.
  function TableEntry(fs: Fs, block: nat, i: nat): nat {
    if block == 0 then 0 else U32At(fs.disk, fs.pOffset + block * BlockSize(fs) + 4 * i)
  }

  // The block that the inode records for a place, 0 for a hole.
  function PointerAt(fs: Fs, inode: Inode, place: Place): nat
    requires |inode.direct| == 12 && (place.Direct? ==> place.i < 12)
  {
    match place
    case Direct(i) => inode.direct[i]
    case Single(i) => TableEntry(fs, inode.single, i)
    case Double(i, j) => TableEntry(fs, TableEntry(fs, inode.double, i), j)
    case Triple(i, j, k) => TableEntry(fs, TableEntry(fs, TableEntry(fs, inode.triple, i), j), k)
    case Beyond => 0
  }

  function BlockPointer(fs: Fs, inode: Inode, n: nat): nat
    requires Mounted(fs) && |inode.direct| == 12
  {
    PointerAt(fs, inode, TruePlace(fs.pointers, n))
  }

  // What the inode records for a block of the doubly and of the triply indirect
  // level: one word of each table on the way, four bytes apart.
  lemma RecordedByTables(fs: Fs, inode: Inode, i: nat, j: nat, k: nat)
    requires Mounted(fs) && |inode.direct| == 12 && i < fs.pointers && j < fs.pointers && k < fs.pointers
    ensures var n := Number(Exact(fs.pointers), Double(i, j));
      BlockPointer(fs, inode, n) == TableEntry(fs, TableEntry(fs, inode.double, i), j)
    ensures var n := Number(Exact(fs.pointers), Triple(i, j, k));
      BlockPointer(fs, inode, n) == TableEntry(fs, TableEntry(fs, TableEntry(fs, inode.triple, i), j), k)
    ensures inode.double != 0 ==> TableEntry(fs, inode.double, i) == U32At(fs.disk, fs.pOffset + InBlock(fs, inode.double, 4 * i))
  {
    TruePlaceOf(fs.pointers, Double(i, j));
    TruePlaceOf(fs.pointers, Triple(i, j, k));
    AddressOf(fs, inode.double, i);
  }

  lemma AddressOf(fs: Fs, block: nat, i: nat)
    ensures fs.pOffset + block * BlockSize(fs) + 4 * i == fs.pOffset + InBlock(fs, block, 4 * i)
  {
  }

  // A direct block is found at the address the inode records exactly if that
  // is below 4 GiB.
  lemma DirectOffsetIff(fs: Fs, inode: Inode, n: nat)
    requires Mounted(fs) && |inode.direct| == 12 && n < 12
    ensures BlockOffset(fs, inode, n) == BlockPointer(fs, inode, n) * BlockSize(fs)
      <==> BlockPointer(fs, inode, n) * BlockSize(fs) < WORD
  {
    ProductsWrap(inode.direct[n], BlockSize(fs));
  }

  lemma ProductsWrap(a: nat, b: nat)
    ensures Times(a, b) == a * b <==> a * b < WORD
  {
  }

  // The readers add the start of the partition to the offset. For the blocks
  // of the singly indirect level it is in there already, so they read the
  // block it is meant to exactly if the partition starts at a
  // multiple of 4 GiB.
  lemma SingleIndirectIff(fs: Fs, inode: Inode, n: nat)
    requires Mounted(fs) && |inode.direct| == 12 && fs.pointers <= 1024 && 12 <= n < 12 + fs.pointers
    requires inode.single != 0 && inode.single * BlockSize(fs) + 4 * (n - 12) < WORD
    requires BlockPointer(fs, inode, n) * BlockSize(fs) < WORD
    ensures BlockOffset(fs, inode, n) == BlockPointer(fs, inode, n) * BlockSize(fs) <==> fs.pOffset % WORD == 0
  {
    SinglePlace(fs.pointers, n);
    TimesIs(inode.single, BlockSize(fs), 4 * (n - 12));
    var block := TableEntry(fs, inode.single, n - 12);
    TimesIs(block, BlockSize(fs), 0);
    var offset := OffsetOfSingle(fs, inode, n - 12);
    SingleOffsetIs(fs, inode, 4 * (n - 12), Times(inode.single, BlockSize(fs)), block);
    AddedTwice(fs.pOffset, block * BlockSize(fs));
  }

  lemma OffsetOfSingle(fs: Fs, inode: Inode, i: nat) returns (offset: nat)
    requires |inode.direct| == 12 && i < 1024
    ensures offset == SingleOffset(fs, inode, 4 * i) && OffsetOf(fs, inode, Single(i)) == offset % WORD
  {
    offset := SingleOffset(fs, inode, 4 * i);
    assert 4 * i % WORD == 4 * i;
  }

  lemma SingleOffsetIs(fs: Fs, inode: Inode, index: nat, table: nat, block: nat)
    requires table == Times(inode.single, BlockSize(fs)) && table + index < WORD
    requires block == U32At(fs.disk, fs.pOffset + table + index)
    ensures SingleOffset(fs, inode, index) == fs.pOffset + Times(block, BlockSize(fs))
  {
    assert (table + index) % WORD == table + index;
  }

  lemma TimesIs(a: nat, b: nat, more: nat)
    requires a * b + more < WORD
    ensures Times(a, b) == a * b && (Times(a, b) + more) % WORD == a * b + more
  {
  }

  lemma AddedTwice(start: nat, x: nat)
    requires x < WORD
    ensures (start + x) % WORD == x <==> start % WORD == 0
  {
  }

  // Byte `k` of block `b`.
  function InBlock(fs: Fs, b: nat, k: nat): nat {
    b * BlockSize(fs) + k
  }

  // What the two functions above read where no 32-bit sum wraps around: at each
  // level but the first without the start of the partition, and at the number of
  // the entry where four times that is meant.
  lemma DoubleOffsetIs(fs: Fs, inode: Inode, i: nat, j: nat, n: nat)
    requires Mounted(fs) && |inode.direct| == 12 && fs.pointers <= 1024 && i < fs.pointers && j < fs.pointers
    requires n == 12 + fs.pointers + fs.pointers * i + j && InBlock(fs, inode.single, i) < WORD
    ensures var b1 := U32At(fs.disk, fs.pOffset + InBlock(fs, inode.single, i));
      InBlock(fs, b1, 0) < WORD ==>
        var b2 := U32At(fs.disk, fs.pOffset + InBlock(fs, b1, 0));
        InBlock(fs, b2, j) < WORD ==>
          var b3 := U32At(fs.disk, InBlock(fs, b2, j));
          InBlock(fs, b3, 0) < WORD ==> BlockOffset(fs, inode, n) == (fs.pOffset + InBlock(fs, b3, 0)) % WORD
  {
    LocateNumber(fs.pointers, Double(i, j));
    OffsetAt(fs, inode, n, Double(i, j));
    DoubleOffsetReads(fs, inode, i, j);
  }

  lemma OffsetAt(fs: Fs, inode: Inode, n: nat, place: Place)
    requires Mounted(fs) && |inode.direct| == 12 && (place.Direct? ==> place.i < 12) && PlaceOf(fs.pointers, n) == place
    ensures BlockOffset(fs, inode, n) == OffsetOf(fs, inode, place)
    ensures place.Double? ==> BlockOffset(fs, inode, n) == DoubleOffset(fs, inode, place.i, place.j) % WORD
    ensures place.Triple? ==> BlockOffset(fs, inode, n) == TripleOffset(fs, inode, place.i, place.j, place.k) % WORD
  {
  }

  lemma TimesInBlock(fs: Fs, b: nat, k: nat)
    requires InBlock(fs, b, k) < WORD
    ensures (Times(b, BlockSize(fs)) + k) % WORD == InBlock(fs, b, k) && (k == 0 ==> Times(b, BlockSize(fs)) == InBlock(fs, b, 0))
  {
    TimesIs(b, BlockSize(fs), k);
  }

  lemma DoubleOffsetReads(fs: Fs, inode: Inode, i: nat, j: nat)
    requires InBlock(fs, inode.single, i) < WORD
    ensures var b1 := U32At(fs.disk, fs.pOffset + InBlock(fs, inode.single, i));
      InBlock(fs, b1, 0) < WORD ==>
        var b2 := U32At(fs.disk, fs.pOffset + InBlock(fs, b1, 0));
        InBlock(fs, b2, j) < WORD ==>
          var b3 := U32At(fs.disk, InBlock(fs, b2, j));
          InBlock(fs, b3, 0) < WORD ==> DoubleOffset(fs, inode, i, j) == fs.pOffset + InBlock(fs, b3, 0)
  {
    TimesInBlock(fs, inode.single, i);
    var b1 := U32At(fs.disk, fs.pOffset + InBlock(fs, inode.single, i));
    if InBlock(fs, b1, 0) < WORD {
      TimesInBlock(fs, b1, 0);
      SecondRead(fs, inode, i, j, fs.pOffset + InBlock(fs, b1, 0));
    }
  }

  lemma SecondRead(fs: Fs, inode: Inode, i: nat, j: nat, at: nat)
    requires SingleOffset(fs, inode, i) == at
    ensures var b2 := U32At(fs.disk, at);
      InBlock(fs, b2, j) < WORD ==>
        var b3 := U32At(fs.disk, InBlock(fs, b2, j));
        InBlock(fs, b3, 0) < WORD ==> DoubleOffset(fs, inode, i, j) == fs.pOffset + InBlock(fs, b3, 0)
  {
    var b2 := U32At(fs.disk, at);
    if InBlock(fs, b2, j) < WORD {
      TimesInBlock(fs, b2, j);
      var b3 := U32At(fs.disk, InBlock(fs, b2, j));
      if InBlock(fs, b3, 0) < WORD {
        TimesInBlock(fs, b3, 0);
      }
    }
  }

  // A third level goes on from what the second gives.
  lemma TripleOffsetIs(fs: Fs, inode: Inode, i: nat, j: nat, k: nat, n: nat)
    requires Mounted(fs) && |inode.direct| == 12 && fs.pointers <= 1024 && i < fs.pointers && j < fs.pointers && k < fs.pointers
    requires n == Number(Exact(fs.pointers), Triple(i, j, k))
    ensures var b := U32At(fs.disk, DoubleOffset(fs, inode, i, j));
      InBlock(fs, b, k) < WORD ==>
        var b' := U32At(fs.disk, InBlock(fs, b, k));
        InBlock(fs, b', 0) < WORD ==> BlockOffset(fs, inode, n) == (fs.pOffset + InBlock(fs, b', 0)) % WORD
  {
    LocateNumber(fs.pointers, Triple(i, j, k));
    OffsetAt(fs, inode, n, Triple(i, j, k));
    TripleOffsetReads(fs, inode, i, j, k, DoubleOffset(fs, inode, i, j));
  }

  lemma TripleOffsetReads(fs: Fs, inode: Inode, i: nat, j: nat, k: nat, below: nat)
    requires DoubleOffset(fs, inode, i, j) == below
    ensures var b := U32At(fs.disk, below);
      InBlock(fs, b, k) < WORD ==>
        var b' := U32At(fs.disk, InBlock(fs, b, k));
        InBlock(fs, b', 0) < WORD ==> TripleOffset(fs, inode, i, j, k) == fs.pOffset + InBlock(fs, b', 0)
  {
    var b := U32At(fs.disk, below);
    if InBlock(fs, b, k) < WORD {
      TimesInBlock(fs, b, k);
      var b' := U32At(fs.disk, InBlock(fs, b, k));
      if InBlock(fs, b', 0) < WORD {
        TimesInBlock(fs, b', 0);
      }
    }
  }

  // The doubly and triply indirect pointers of the inode are never used.
  lemma OtherPointersUnused(fs: Fs, inode: Inode, double: nat, triple: nat, n: nat)
    requires Mounted(fs) && |inode.direct| == 12
    ensures BlockOffset(fs, inode, n) == BlockOffset(fs, inode.(double := double, triple := triple), n)
  {
    OffsetIgnores(fs, inode, double, triple, PlaceOf(fs.pointers, n));
  }

  lemma OffsetIgnores(fs: Fs, inode: Inode, double: nat, triple: nat, place: Place)
    requires |inode.direct| == 12 && (place.Direct? ==> place.i < 12)
    ensures OffsetOf(fs, inode, place) == OffsetOf(fs, inode.(double := double, triple := triple), place)
  {
    match place
    case Direct(i) =>
    case Single(i) => SingleIgnores(fs, inode, double, triple, 4 * i % WORD);
    case Double(i, j) => DoubleIgnores(fs, inode, double, triple, i, j);
    case Triple(i, j, k) => DoubleIgnores(fs, inode, double, triple, i, j);
    case Beyond =>
  }

  lemma DoubleIgnores(fs: Fs, inode: Inode, double: nat, triple: nat, index1: nat, index2: nat)
    ensures var other := inode.(double := double, triple := triple);
      DoubleOffset(fs, inode, index1, index2) == DoubleOffset(fs, other, index1, index2)
  {
    SingleIgnores(fs, inode, double, triple, index1);
  }

  lemma SingleIgnores(fs: Fs, inode: Inode, double: nat, triple: nat, index: nat)
    ensures SingleOffset(fs, inode, index) == SingleOffset(fs, inode.(double := double, triple := triple), index)
  {
  }

  // ----- directories on disk -----

  // A directory entry; `pad` are the bytes up to the next one.
  datatype Entry = Entry(inode: nat, kind: Byte, name: seq<Byte>, pad: seq<Byte>)

  function EntrySize(e: Entry): nat {
    8 + |e.name| + |e.pad|
  }

  predicate ValidEntry(e: Entry) {
    e.inode < WORD && 0 < |e.name| < 256 && EntrySize(e) < 0x1_0000 && forall i :: 0 <= i < |e.name| ==> e.name[i] != 0
  }

  function Encode(e: Entry): (s: seq<Byte>)
    requires ValidEntry(e)
    ensures |s| == EntrySize(e)
  {
    Bytes32(e.inode) + Bytes16(EntrySize(e)) + [|e.name|, e.kind] + e.name + e.pad
  }

  predicate AllValid(es: seq<Entry>) {
    forall i :: 0 <= i < |es| ==> ValidEntry(es[i])
  }

  function EncodeAll(es: seq<Entry>): seq<Byte>
    requires AllValid(es)
  {
    if es == [] then [] else EncodeAll(es[..|es| - 1]) + Encode(es[|es| - 1])
  }

  // Where entry `i` starts.
  function Start(es: seq<Entry>, i: nat): nat
    requires i <= |es|
  {
    if i == 0 then 0 else Start(es, i - 1) + EntrySize(es[i - 1])
  }

  lemma {:induction false} EncodedAt(es: seq<Entry>, i: nat)
    requires AllValid(es) && i <= |es|
    ensures Start(es, i) <= |EncodeAll(es)| && (i == |es| ==> Start(es, i) == |EncodeAll(es)|)
    ensures i < |es| ==> Start(es, i + 1) <= |EncodeAll(es)|
    ensures i < |es| ==> EncodeAll(es)[Start(es, i)..Start(es, i + 1)] == Encode(es[i])
  {
    if es != [] {
      var n := |es| - 1;
      var front := es[..n];
      EncodedAt(front, n);
      StartOfFront(es, n);
      assert |EncodeAll(es)| == Start(es, n) + EntrySize(es[n]);
      if i < n {
        EncodedAt(front, i);
        StartOfFront(es, i);
        StartOfFront(es, i + 1);
        WithinFirst(EncodeAll(front), Encode(es[n]), Start(es, i), Start(es, i + 1));
      }
    }
  }

  lemma WithinFirst<T>(a: seq<T>, b: seq<T>, from: nat, to: nat)
    requires from <= to <= |a|
    ensures (a + b)[from..to] == a[from..to]
  {
  }

  lemma {:induction false} StartOfFront(es: seq<Entry>, i: nat)
    requires i < |es|
    ensures Start(es, i) == Start(es[..|es| - 1], i)
  {
    if i > 0 {
      StartOfFront(es, i - 1);
    }
  }

  // Reading the fields of an encoded entry gives them back.
  lemma DecodeEntry(s: seq<Byte>, at: nat, e: Entry)
    requires ValidEntry(e) && at + EntrySize(e) <= |s| && s[at..at + EntrySize(e)] == Encode(e)
    ensures U32(s, at) == e.inode && U16(s, at + 4) == EntrySize(e)
    ensures s[at + 6] == |e.name| && s[at + 7] == e.kind && s[at + 8..at + 8 + |e.name|] == e.name
  {
    var t := s[at..at + EntrySize(e)];
    forall i | 0 <= i < |t| ensures t[i] == s[at + i] {
    }
    assert t[0..4] == Bytes32(e.inode);
    assert t[4..6] == Bytes16(EntrySize(e));
    assert t[8..8 + |e.name|] == e.name;
  }

  lemma DecodeEntryAt(s: seq<Byte>, es: seq<Entry>, i: nat)
    requires AllValid(es) && i < |es| && s == EncodeAll(es)
    ensures var at, e := Start(es, i), es[i];
      && at + EntrySize(e) <= |s| && U32(s, at) == e.inode && U16(s, at + 4) == EntrySize(e)
      && s[at + 6] == |e.name| && s[at + 7] == e.kind && s[at + 8..at + 8 + |e.name|] == e.name
  {
    EncodedAt(es, i);
    DecodeEntry(s, Start(es, i), es[i]);
  }

  // What reading directories depends on: `inode` is ext2_get_inode and
  // `blockOffset` is ext2_get_block_offset, by the number of an inode.
  datatype Volume = Volume(disk: Disk, base: nat, blockSize: nat, inode: nat -> Inode, blockOffset: (nat, nat) -> nat)

  function VolumeOf(fs: Fs): Volume
    requires Mounted(fs)
  {
    Volume(fs.disk, fs.pOffset, BlockSize(fs), (n: nat) => GetInode(fs, n),
           (number: nat, n: nat) => BlockOffset(fs, GetInode(fs, number), n))
  }

  // The index of the block read after `j` others when bp_index, a 32-bit word,
  // starts at `skip`.
  function BlockAt(skip: nat, j: nat): nat {
    if j == 0 then 0 else (skip + j) % WORD
  }

  // The blocks read of directory `number` hold the given entries. With `skip` 0,
  // which is what ext2_opendir means bp_index to be, they are all of its blocks.
  predicate OnDisk(vol: Volume, number: nat, blocks: seq<seq<Entry>>, skip: nat) {
    && blocks != [] && skip < WORD && vol.blockSize > 0
    && (forall j :: 0 <= j < |blocks| ==> BlockHolds(vol, number, BlockAt(skip, j), blocks[j]))
    && vol.blockOffset(number, BlockAt(skip, |blocks|)) == 0
  }

  // The direct pointers of the inode record just these blocks.
  predicate Recorded(fs: Fs, inode: Inode, blocks: seq<seq<Entry>>)
    requires Mounted(fs) && |inode.direct| == 12
  {
    && 1 <= |blocks| < 12 && inode.direct[|blocks|] == 0
    && forall j :: 0 <= j < |blocks| ==> RecordedAt(fs, inode.direct[j], blocks[j])
  }

  predicate RecordedAt(fs: Fs, pointer: nat, es: seq<Entry>)
    requires Mounted(fs)
  {
    && pointer != 0 && pointer * BlockSize(fs) < WORD
    && AllValid(es) && Slice(fs.disk, fs.pOffset + pointer * BlockSize(fs), BlockSize(fs)) == EncodeAll(es)
  }

  // The blocks that an inode records below 4 GiB are the blocks the code reads.
  lemma RecordedBlocks(fs: Fs, number: nat, blocks: seq<seq<Entry>>)
    requires Mounted(fs) && Recorded(fs, GetInode(fs, number), blocks)
    ensures OnDisk(VolumeOf(fs), number, blocks, 0)
  {
    forall j | 0 <= j < |blocks| ensures BlockHolds(VolumeOf(fs), number, j, blocks[j]) {
      RecordedBlock(fs, number, j, blocks[j]);
    }
    RecordedEnd(fs, number, |blocks|);
    VolumeBlockSize(fs);
    BlocksOnDisk(VolumeOf(fs), number, blocks);
  }

  lemma BlocksOnDisk(vol: Volume, number: nat, blocks: seq<seq<Entry>>)
    requires blocks != [] && |blocks| < WORD && vol.blockSize > 0 && vol.blockOffset(number, |blocks|) == 0
    requires forall j :: 0 <= j < |blocks| ==> BlockHolds(vol, number, j, blocks[j])
    ensures OnDisk(vol, number, blocks, 0)
  {
    forall j | 0 <= j < |blocks| ensures BlockHolds(vol, number, BlockAt(0, j), blocks[j]) {
      assert BlockHolds(vol, number, j, blocks[j]);
    }
  }

  lemma VolumeBlockSize(fs: Fs)
    requires Mounted(fs)
    ensures VolumeOf(fs).blockSize > 0
  {
  }

  lemma RecordedEnd(fs: Fs, number: nat, n: nat)
    requires Mounted(fs) && n < 12 && GetInode(fs, number).direct[n] == 0
    ensures VolumeOf(fs).blockOffset(number, n) == 0
  {
    VolumeOffset(fs, number, n);
    TimesIs(0, BlockSize(fs), 0);
  }

  lemma VolumeOffset(fs: Fs, number: nat, n: nat)
    requires Mounted(fs)
    ensures VolumeOf(fs).blockOffset(number, n) == BlockOffset(fs, GetInode(fs, number), n)
  {
  }

  lemma RecordedBlock(fs: Fs, number: nat, n: nat, es: seq<Entry>)
    requires Mounted(fs) && n < 12 && RecordedAt(fs, GetInode(fs, number).direct[n], es)
    ensures BlockHolds(VolumeOf(fs), number, n, es)
  {
    var pointer := GetInode(fs, number).direct[n];
    DirectOffsetIff(fs, GetInode(fs, number), n);
    AtMost(1, pointer, BlockSize(fs));
  }

  // Where the code finds no block: behind a direct pointer whose 32-bit address
  // is 0, and past the last block number there is.
  lemma NoBlock(fs: Fs, number: nat, n: nat)
    requires Mounted(fs) && fs.pointers <= 1024
    ensures n < 12 ==> (VolumeOf(fs).blockOffset(number, n) == 0 <==> GetInode(fs, number).direct[n] * BlockSize(fs) % WORD == 0)
    ensures n >= Total(Exact(fs.pointers)) ==> VolumeOf(fs).blockOffset(number, n) == 0
  {
    if n >= Total(Exact(fs.pointers)) {
      NumberLocate(fs.pointers, n);
    }
  }

  predicate BlockHolds(vol: Volume, number: nat, n: nat, es: seq<Entry>) {
    var offset := vol.blockOffset(number, n);
    AllValid(es) && offset != 0 && Slice(vol.disk, vol.base + offset, vol.blockSize) == EncodeAll(es)
  }

  function Flat(blocks: seq<seq<Entry>>): seq<Entry> {
    if blocks == [] then [] else blocks[0] + Flat(blocks[1..])
  }

  // The entries from entry `i` of block `j` on.
  function Rest(blocks: seq<seq<Entry>>, j: nat, i: nat): seq<Entry>
    requires j < |blocks| && i <= |blocks[j]|
  {
    blocks[j][i..] + Flat(blocks[j + 1..])
  }

  // struct dirent
  datatype Dirent = Dirent(inode: nat, size: nat, kind: Byte, mode: nat, name: seq<Byte>)

  function DirentOf(vol: Volume, e: Entry): Dirent {
    Dirent(e.inode, vol.inode(e.inode).size, e.kind, vol.inode(e.inode).mode, e.name)
  }
}
