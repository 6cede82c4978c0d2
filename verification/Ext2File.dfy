// ext2_readfile of kernel/fs/ext2fs/ext2.c, over ATA_read_b.
module Ext2File {
  import opened Arithmetic
  import opened Ata
  import opened Common
  import opened Ext2

  // What reading depends on. `blockOffset` is ext2_get_block_offset for the
  // inode of the file, `base` the start of the partition; `pointer` gives the
  // blocks the inode records, 0 for a hole.
  datatype File = File(disk: Disk, base: nat, blockSize: nat, size: nat, pointer: nat -> nat, blockOffset: nat -> nat)

  function FileOf(fs: Fs, inode: Inode): File
    requires Mounted(fs) && |inode.direct| == 12
  {
    File(fs.disk, fs.pOffset, BlockSize(fs), inode.size, n => BlockPointer(fs, inode, n), n => BlockOffset(fs, inode, n))
  }

  // ----- the bytes of a file -----

  function Block(f: File, k: nat): nat
    requires f.blockSize > 0
  {
    Div(k, f.blockSize)
  }

  // Byte `k` of a file: zero in a hole, else at k % block size of its block.
  function FileByte(f: File, k: nat): Byte
    requires f.blockSize > 0
  {
    var block := (f.pointer)(Block(f, k));
    if block == 0 then 0 else (f.disk)(f.base + block * f.blockSize + Mod(k, f.blockSize))
  }

  function FileSlice(f: File, offset: nat, size: nat): (s: seq<Byte>)
    requires f.blockSize > 0
    ensures |s| == size
  {
    seq<Byte>(size, i requires 0 <= i < size => FileByte(f, offset + i))
  }

  // Byte `k` of block `b` of a file is byte `k` of the block recorded there, and
  // zero if none is.
  lemma ByteOfBlock(f: File, b: nat, k: nat, at: nat)
    requires f.blockSize > 0 && k < f.blockSize && at == f.blockSize * b + k
    ensures FileByte(f, at) == if (f.pointer)(b) == 0 then 0 else (f.disk)(f.base + (f.pointer)(b) * f.blockSize + k)
  {
    DivIs(at, f.blockSize, b, k);
  }

  // The code finds block `b` where the inode says it is.
  predicate Located(f: File, b: nat) {
    (f.pointer)(b) != 0 && (f.blockOffset)(b) == (f.pointer)(b) * f.blockSize
  }

  // A direct block is found exactly if it is no hole and starts below 4 GiB.
  lemma DirectLocatedIff(fs: Fs, inode: Inode, b: nat)
    requires Mounted(fs) && |inode.direct| == 12 && b < 12
    ensures Located(FileOf(fs, inode), b) <==> inode.direct[b] != 0 && inode.direct[b] * BlockSize(fs) < WORD
  {
    DirectOffsetIff(fs, inode, b);
  }

  // A block of the singly indirect level, where no 32-bit product wraps
  // around, is found exactly if it is no hole and the partition starts at a
  // multiple of 4 GiB.
  lemma SingleLocatedIff(fs: Fs, inode: Inode, b: nat)
    requires Mounted(fs) && |inode.direct| == 12 && fs.pointers <= 1024 && 12 <= b < 12 + fs.pointers
    requires inode.single != 0 && inode.single * BlockSize(fs) + 4 * (b - 12) < WORD
    requires BlockPointer(fs, inode, b) * BlockSize(fs) < WORD
    ensures Located(FileOf(fs, inode), b) <==> BlockPointer(fs, inode, b) != 0 && fs.pOffset % WORD == 0
  {
    SingleIndirectIff(fs, inode, b);
  }

  // Of two inodes that differ in the doubly and triply indirect pointers only
  // and record different blocks for a number, at most one has it found.
  lemma OtherLevelsNotFound(fs: Fs, inode: Inode, double: nat, triple: nat, b: nat)
    requires Mounted(fs) && |inode.direct| == 12
    requires BlockPointer(fs, inode, b) != BlockPointer(fs, inode.(double := double, triple := triple), b)
    ensures !(Located(FileOf(fs, inode), b) && Located(FileOf(fs, inode.(double := double, triple := triple)), b))
  {
    var other := inode.(double := double, triple := triple);
    OtherPointersUnused(fs, inode, double, triple, b);
    Cancels(BlockPointer(fs, inode, b), BlockPointer(fs, other, b), BlockSize(fs));
  }

  lemma Cancels(x: nat, y: nat, n: nat)
    requires n > 0 && x != y
    ensures x * n != y * n
  {
    NextMultiple(n, x, y);
    NextMultiple(n, y, x);
  }

  // What the code reads, `size` bytes from where it finds block `b`.
  function RawSlice(f: File, b: nat, at: nat, size: nat): seq<Byte> {
    Slice(f.disk, f.base + (f.blockOffset)(b) + at, size)
  }

  // In a block that is found, those are the bytes of the file.
  lemma WithinBlock(f: File, offset: nat, size: nat, b: nat, at: nat)
    requires f.blockSize > 0 && offset == f.blockSize * b + at && at + size <= f.blockSize && Located(f, b)
    ensures RawSlice(f, b, at, size) == FileSlice(f, offset, size)
  {
    var s, t := RawSlice(f, b, at, size), FileSlice(f, offset, size);
    forall i | 0 <= i < size ensures s[i] == t[i] {
      DivIs(offset + i, f.blockSize, b, at + i);
      assert t[i] == FileByte(f, offset + i);
    }
  }

  // ----- the range read -----

  // The file does not hold `size` bytes, or is none.
  predicate Refused(inode: Inode, size: nat) {
    size == 0 || !IsFile(inode) || inode.size == 0 || size > inode.size
  }

  function LastBlock(f: File, offset: nat, size: nat): nat
    requires f.blockSize > 0
  {
    Block(f, Min(offset + size, f.size))
  }

  // How many of the bytes asked for lie in the first block.
  function InFirst(f: File, offset: nat, size: nat): nat
    requires f.blockSize > 0
  {
    Min(size, f.blockSize - Mod(offset, f.blockSize))
  }

  // A block without an address, met on the way.
  predicate Hole(f: File, from: nat, to: nat) {
    exists b :: from <= b < to && (f.blockOffset)(b) == 0
  }

  // Among the direct blocks the code stops at a pointer whose 32-bit address is 0.
  lemma HoleIff(fs: Fs, inode: Inode, from: nat, to: nat)
    requires Mounted(fs) && |inode.direct| == 12 && to <= 12
    ensures Hole(FileOf(fs, inode), from, to) <==>
      exists b :: from <= b < to && inode.direct[b] * BlockSize(fs) % WORD == 0
  {
    var f := FileOf(fs, inode);
    forall b | from <= b < to ensures (f.blockOffset)(b) == 0 <==> inode.direct[b] * BlockSize(fs) % WORD == 0 {
      assert (f.blockOffset)(b) == BlockOffset(fs, inode, b);
    }
  }

  // A range lies in its first block exactly if its last byte does.
  lemma InFirstIsAll(f: File, offset: nat, size: nat)
    requires f.blockSize > 0 && size > 0
    ensures InFirst(f, offset, size) == size <==> Block(f, offset + size - 1) == Block(f, offset)
  {
    var q, m := DivIsSome(offset, f.blockSize);
    if m + size <= f.blockSize {
      DivIs(offset + size - 1, f.blockSize, q, m + size - 1);
    } else {
      var q', m' := DivIsSome(offset + size - 1, f.blockSize);
      if q' == q {
        assert false;
      }
    }
  }

  // What ext2_readfile leaves in the buffer once the inode has passed its
  // checks: one read, and a NUL at the index of the file's size if the range
  // goes on past the block.
  function After(f: File, offset: nat, size: nat, before: seq<Byte>): seq<Byte>
    requires f.blockSize > 0 && size <= |before|
    requires Block(f, offset) != LastBlock(f, offset, size) ==> f.size < |before|
  {
    var from, to, at := Block(f, offset), LastBlock(f, offset, size), Mod(offset, f.blockSize);
    if from == to then RawSlice(f, from, at, size) + before[size..]
    else if from > to then before[f.size := 0]
    else
      FirstFits(f, offset, size);
      (RawSlice(f, from, at, f.blockSize - at) + before[f.blockSize - at..])[f.size := 0]
  }

  // The rest of the first block fits if the range goes on past it.
  lemma FirstFits(f: File, offset: nat, size: nat)
    requires f.blockSize > 0 && Block(f, offset) < LastBlock(f, offset, size)
    ensures 0 < f.blockSize - Mod(offset, f.blockSize) <= size
  {
    var q, m := DivIsSome(offset, f.blockSize);
    var q', m' := DivIsSome(Min(offset + size, f.size), f.blockSize);
    NextMultiple(f.blockSize, q, q');
  }

  // In a range inside the file whose first block is found, the bytes of that
  // block arrive and the others stay.
  lemma FirstBlockArrives(f: File, offset: nat, size: nat, before: seq<Byte>)
    requires f.blockSize > 0 && 0 < size <= |before| && offset + size <= f.size && Located(f, Block(f, offset))
    requires Block(f, offset) != LastBlock(f, offset, size) ==> f.size < |before|
    ensures var n := InFirst(f, offset, size);
      After(f, offset, size, before)[..size] == FileSlice(f, offset, n) + before[n..size]
  {
    var n := InFirst(f, offset, size);
    var q, m := DivIsSome(offset, f.blockSize);
    var q', m' := DivIsSome(offset + size, f.blockSize);
    NextMultiple(f.blockSize, q, q');
    NextMultiple(f.blockSize, q', q);
    WithinBlock(f, offset, n, q, m);
    assert n == if q == q' then size else f.blockSize - m;
    var head := RawSlice(f, q, m, n);
    assert (head + before[n..])[..size] == head + before[n..size];
  }

  // The NUL at the index of the file's size is stored exactly if the range
  // reaches the end of its first block.
  lemma NulStored(f: File, offset: nat, size: nat, before: seq<Byte>)
    requires f.blockSize > 0 && 0 < size <= |before| && offset + size <= f.size < |before|
    ensures After(f, offset, size, before)[f.size] == if Mod(offset, f.blockSize) + size < f.blockSize then before[f.size] else 0
  {
    var q, m := DivIsSome(offset, f.blockSize);
    var q', m' := DivIsSome(offset + size, f.blockSize);
    NextMultiple(f.blockSize, q, q');
    NextMultiple(f.blockSize, q', q);
  }

  // A range inside the file whose first block is found arrives right, whatever
  // the buffer held before, exactly if its last byte is in the block of its
  // first.
  lemma RightForEveryBufferIff(f: File, offset: nat, size: nat, len: nat)
    requires f.blockSize > 0 && 0 < size <= len && offset + size <= f.size && Located(f, Block(f, offset))
    requires Block(f, offset) != LastBlock(f, offset, size) ==> f.size < len
    ensures (forall before: seq<Byte> :: |before| == len ==> After(f, offset, size, before)[..size] == FileSlice(f, offset, size))
      <==> Block(f, offset + size - 1) == Block(f, offset)
  {
    var n := InFirst(f, offset, size);
    InFirstIsAll(f, offset, size);
    if n == size {
      forall before: seq<Byte> | |before| == len ensures After(f, offset, size, before)[..size] == FileSlice(f, offset, size) {
        FirstBlockArrives(f, offset, size, before);
        assert before[n..size] == [];
      }
    } else {
      var before := WrongBuffer(f, offset, size, len, n);
      assert After(f, offset, size, before)[..size] != FileSlice(f, offset, size);
    }
  }

  // A buffer that the read does not put right.
  lemma WrongBuffer(f: File, offset: nat, size: nat, len: nat, n: nat) returns (before: seq<Byte>)
    requires f.blockSize > 0 && n < size <= len && offset + size <= f.size && Located(f, Block(f, offset)) && n == InFirst(f, offset, size)
    requires Block(f, offset) != LastBlock(f, offset, size) ==> f.size < len
    ensures |before| == len && After(f, offset, size, before)[..size] != FileSlice(f, offset, size)
  {
    var wrong: Byte := if FileByte(f, offset + n) == 0 then 1 else 0;
    before := seq<Byte>(len, _ => wrong);
    FirstBlockArrives(f, offset, size, before);
    assert (FileSlice(f, offset, n) + before[n..size])[n] == wrong != FileSlice(f, offset, size)[n];
  }

  // The read of a file with this inode.
  ghost predicate Outcome(fs: Fs, inode: Inode, offset: nat, size: nat, count: nat, before: seq<Byte>, after: seq<Byte>)
    requires Mounted(fs) && |inode.direct| == 12 && size <= |before| == |after|
  {
    if size == 0 || !IsFile(inode) || inode.size == 0 || size > inode.size then count == 0 && after == before
    else
      var f := FileOf(fs, inode);
      var n := InFirst(f, offset, size);
      && count == (if Hole(f, Block(f, offset), LastBlock(f, offset, size)) then 0 else size)
      && (count == size && (Block(f, offset) == LastBlock(f, offset, size) || inode.size < |before|) ==>
            after == After(f, offset, size, before))
      && (count == size && offset + size <= f.size && Located(f, Block(f, offset)) ==>
            after[..size] == FileSlice(f, offset, n) + before[n..size])
  }

  // ext2_readfile; the inode is the one that is stored under its number.
  method ReadFile(fs: Fs, number: nat, offset: nat, size: nat, buffer: array<Byte>) returns (count: nat)
    requires Mounted(fs) && size <= buffer.Length
    requires var inode := GetInode(fs, number); var f := FileOf(fs, inode);
      !Refused(inode, size) && Block(f, offset) != LastBlock(f, offset, size) ==> inode.size < buffer.Length
    modifies buffer
    ensures Outcome(fs, GetInode(fs, number), offset, size, count, old(buffer[..]), buffer[..])
    ensures forall inode :: Stored(fs, number, inode) ==> Outcome(fs, inode, offset, size, count, old(buffer[..]), buffer[..])
  {
    forall inode | Stored(fs, number, inode) ensures inode == GetInode(fs, number) {
      StoredIsRead(fs, number, inode);
    }
    if size == 0 {
      return 0;
    }
    var inode := GetInode(fs, number);
    if !IsFile(inode) || inode.size == 0 || size > inode.size {
      return 0;
    }
    ghost var before := buffer[..];
    count := ReadRange(FileOf(fs, inode), offset, size, buffer);
    if offset + size <= inode.size && Located(FileOf(fs, inode), Block(FileOf(fs, inode), offset)) {
      FirstBlockArrives(FileOf(fs, inode), offset, size, before);
    }
  }

  // Lines 335 to 378.
  method ReadRange(f: File, offset: nat, size: nat, buffer: array<Byte>) returns (count: nat)
    requires f.blockSize > 0 && 0 < size <= f.size && size <= buffer.Length
    requires Block(f, offset) != LastBlock(f, offset, size) ==> f.size < buffer.Length
    modifies buffer
    ensures count == if Hole(f, Block(f, offset), LastBlock(f, offset, size)) then 0 else size
    ensures count == size ==> buffer[..] == After(f, offset, size, old(buffer[..]))
  {
    var end := offset + size;
    if end > f.size {
      end := f.size;
    }
    var blockStart, blockEnd := Div(offset, f.blockSize), Div(end, f.blockSize);
    var startOffset := Mod(offset, f.blockSize);
    if blockStart == blockEnd {
      ReadRaw(f, blockStart, startOffset, size, buffer);
      return size;
    }
    ghost var before := buffer[..];
    var hole := false;
    if blockStart < blockEnd {
      FirstFits(f, offset, size);
      hole := ReadBlocks(f, blockStart, blockEnd, startOffset, buffer);
    }
    if hole {
      return 0;
    }
    buffer[f.size] := 0;
    return size;
  }

  // The loop, of which only the first round reads; it ends early at a hole.
  method ReadBlocks(f: File, blockStart: nat, blockEnd: nat, startOffset: nat, buffer: array<Byte>) returns (hole: bool)
    requires blockStart < blockEnd && 0 < f.blockSize - startOffset <= buffer.Length
    modifies buffer
    ensures hole <==> Hole(f, blockStart, blockEnd)
    ensures !hole ==> var n := f.blockSize - startOffset;
      buffer[..] == RawSlice(f, blockStart, startOffset, n) + old(buffer[..])[n..]
  {
    ghost var before := buffer[..];
    var blk := blockStart;
    while blk < blockEnd
      invariant blockStart <= blk <= blockEnd && !Hole(f, blockStart, blk)
      invariant var n := f.blockSize - startOffset;
        buffer[..] == if blk == blockStart then before else RawSlice(f, blockStart, startOffset, n) + before[n..]
    {
      if (f.blockOffset)(blk) == 0 {
        return true;
      }
      // The code's other branch is for blk == block_end, which does not happen.
      if blk == blockStart {
        ReadRaw(f, blk, startOffset, f.blockSize - startOffset, buffer);
      }
      blk := blk + 1;
    }
    return false;
  }

  method ReadRaw(f: File, b: nat, at: nat, size: nat, buffer: array<Byte>)
    requires size <= buffer.Length
    modifies buffer
    ensures buffer[..] == RawSlice(f, b, at, size) + old(buffer[..])[size..]
  {
    ReadB(f.disk, f.base + (f.blockOffset)(b) + at, size, buffer, 0);
    assert buffer[..] == buffer[0..size] + buffer[size..];
  }
}
