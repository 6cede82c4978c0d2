// Byte reads over sectors: ATA_read_b of kernel/drivers/ata.c. The transfer of
// whole sectors is taken as a copy from the disk.
module Ata {
  import opened Common

  const SECTOR := 512

  type Disk = nat -> Byte

  function Slice(disk: Disk, offset: nat, size: nat): (s: seq<Byte>)
    ensures |s| == size && forall i :: 0 <= i < size ==> s[i] == disk(offset + i)
  {
    seq(size, i requires 0 <= i < size => disk(offset + i))
  }

  lemma SliceOfSlice(disk: Disk, offset: nat, size: nat, at: nat, n: nat)
    requires at + n <= size
    ensures Slice(disk, offset, size)[at..at + n] == Slice(disk, offset + at, n)
  {
  }

  // The sectors that hold the bytes from `offset` up to and including
  // `offset + size`.
  function FirstSector(offset: nat): nat {
    offset / SECTOR
  }

  function SectorCount(offset: nat, size: nat): nat {
    (offset + size) / SECTOR - offset / SECTOR + 1
  }

  // ATA_read: `n` sectors from sector `block` on.
  method Read(disk: Disk, block: nat, n: nat, buf: array<Byte>)
    requires buf.Length == n * SECTOR
    modifies buf
    ensures buf[..] == Slice(disk, block * SECTOR, n * SECTOR)
  {
    var i := 0;
    while i < buf.Length
      invariant 0 <= i <= buf.Length
      invariant forall k :: 0 <= k < i ==> buf[k] == disk(block * SECTOR + k)
    {
      buf[i] := disk(block * SECTOR + i);
      i := i + 1;
    }
  }

  // memcpy, between two buffers.
  method Memcpy(dest: array<Byte>, at: nat, src: array<Byte>, from: nat, size: nat)
    requires at + size <= dest.Length && from + size <= src.Length && dest != src
    modifies dest
    ensures dest[at..at + size] == src[from..from + size]
    ensures dest[..at] == old(dest[..at]) && dest[at + size..] == old(dest[at + size..])
  {
    var i := 0;
    while i < size
      invariant 0 <= i <= size
      invariant dest[at..at + i] == src[from..from + i]
      invariant dest[..at] == old(dest[..at]) && dest[at + i..] == old(dest[at + i..])
    {
      dest[at + i] := src[from + i];
      i := i + 1;
    }
  }

  // The bytes [offset, offset + size) of the disk, put at position `at` of
  // `buf`; nothing else of `buf` is written, and no index leaves either buffer.
  method ReadB(disk: Disk, offset: nat, size: nat, buf: array<Byte>, at: nat)
    requires at + size <= buf.Length
    modifies buf
    ensures buf[at..at + size] == Slice(disk, offset, size)
    ensures buf[..at] == old(buf[..at]) && buf[at + size..] == old(buf[at + size..])
  {
    var start := offset / SECTOR;
    var end := (offset + size) / SECTOR;
    var n := end - start + 1;
    var wholeSector := new Byte[n * SECTOR](_ => 0);
    Read(disk, start, n, wholeSector);
    Memcpy(buf, at, wholeSector, offset % SECTOR, size);
    SliceOfSlice(disk, start * SECTOR, n * SECTOR, offset % SECTOR, size);
  }

  // The sectors read cover the bytes asked for. On a disk of `sectors`
  // sectors, a request inside the disk reads a sector past its end iff it ends
  // exactly at the end of the disk.
  lemma SectorsRead(offset: nat, size: nat, sectors: nat)
    ensures FirstSector(offset) * 512 <= offset < FirstSector(offset) * 512 + 512
    ensures offset + size < (FirstSector(offset) + SectorCount(offset, size)) * 512 <= offset + size + 512
    ensures offset + size <= sectors * 512 ==>
      (FirstSector(offset) + SectorCount(offset, size) > sectors <==> offset + size == sectors * 512)
  {
  }
}
