// The directory iterator of kernel/fs/ext2fs/ext2.c: ext2_opendir,
// ext2_readdir and ext2_make_dirent on the block buffer of a DIR.
module Ext2Dir {
  import opened Ata
  import opened Common
  import opened Ext2
  import opened LittleEndian

  // The index of the first entry without an inode, or |es|.
  function FirstZero(es: seq<Entry>): (k: nat)
    ensures k <= |es|
    ensures forall i :: 0 <= i < k ==> es[i].inode != 0
    ensures k < |es| ==> es[k].inode == 0
  {
    if es == [] || es[0].inode == 0 then 0 else 1 + FirstZero(es[1..])
  }

  // The entries before it, where ext2_readdir stops.
  function UpToZero(es: seq<Entry>): seq<Entry> {
    es[..FirstZero(es)]
  }

  // The entries with an inode: the others are unused.
  function Used(es: seq<Entry>): seq<Entry> {
    if es == [] then [] else (if es[0].inode == 0 then [] else [es[0]]) + Used(es[1..])
  }

  predicate AllUsed(es: seq<Entry>) {
    forall i :: 0 <= i < |es| ==> es[i].inode != 0
  }

  // Every used entry is listed exactly if none follows an unused one, and every
  // entry is exactly if all are used.
  lemma {:induction false} NothingDropped(es: seq<Entry>)
    ensures UpToZero(es) == Used(es) <==> forall i, j :: 0 <= i < j < |es| && es[i].inode == 0 ==> es[j].inode == 0
    ensures UpToZero(es) <= es && (UpToZero(es) == es <==> AllUsed(es))
  {
    if FirstZero(es) < |es| {
      assert |UpToZero(es)| < |es|;
    } else {
      assert UpToZero(es) == es;
    }
    UsedFirst(es);
  }

  lemma {:induction false} UsedFirst(es: seq<Entry>)
    ensures UpToZero(es) == Used(es) <==> forall i, j :: 0 <= i < j < |es| && es[i].inode == 0 ==> es[j].inode == 0
  {
    if es != [] {
      var rest := es[1..];
      assert forall j :: 1 <= j < |es| ==> es[j] == rest[j - 1];
      if es[0].inode == 0 {
        NoneUsed(rest);
        assert forall k :: 0 <= k < |rest| ==> rest[k] == es[k + 1];
      } else {
        UsedFirst(rest);
        MoveOne([], es);
        SameHead(es[0], UpToZero(rest), Used(rest));
        assert UpToZero(es) == [es[0]] + UpToZero(rest);
        assert forall k :: 0 <= k < |rest| ==> rest[k] == es[k + 1];
      }
    }
  }

  lemma SameHead<T>(x: T, a: seq<T>, b: seq<T>)
    ensures [x] + a == [x] + b <==> a == b
  {
    if [x] + a == [x] + b {
      assert ([x] + a)[1..] == a && ([x] + b)[1..] == b;
    }
  }

  lemma {:induction false} NoneUsed(es: seq<Entry>)
    ensures Used(es) == [] <==> forall j :: 0 <= j < |es| ==> es[j].inode == 0
  {
    if es != [] {
      NoneUsed(es[1..]);
      assert forall j :: 1 <= j < |es| ==> es[j] == es[1..][j - 1];
      assert forall k :: 0 <= k < |es| - 1 ==> es[1..][k] == es[k + 1];
    }
  }

  lemma BlockIsNotEmpty(vol: Volume, number: nat, blocks: seq<seq<Entry>>, skip: nat, j: nat)
    requires OnDisk(vol, number, blocks, skip) && j < |blocks|
    ensures AllValid(blocks[j]) && |EncodeAll(blocks[j])| == vol.blockSize > 0 && blocks[j] != []
  {
    assert BlockHolds(vol, number, BlockAt(skip, j), blocks[j]);
  }

  lemma NextIndex(skip: nat, j: nat)
    ensures ((skip + j) % WORD + 1) % WORD == BlockAt(skip, j + 1)
  {
  }

  // The block the code asks for after the first one.
  function Second(skip: nat): nat {
    if skip == WORD - 1 then 0 else skip + 1
  }

  lemma BlockAfterSecond(skip: nat, j: nat)
    requires skip < WORD && j > 0 && Second(skip) + j - 1 < WORD
    ensures BlockAt(skip, j) == Second(skip) + j - 1
  {
  }

  // The blocks of a directory that are read when bp_index starts at `skip`, if
  // the code finds none behind the last one.
  function Passed(blocks: seq<seq<Entry>>, skip: nat): seq<seq<Entry>>
    requires blocks != []
  {
    [blocks[0]] + if Second(skip) < |blocks| then blocks[Second(skip)..] else []
  }

  // bp_index starts with what the memory held. The entries gone through are
  // those of the directory exactly if that is 0, or there is one block and it
  // is not 2^32 - 1, from which the count goes on to the first block again.
  // That decides what is listed if every entry is used; an unused one in the
  // first block ends the listing there, whatever the memory held.
  lemma BlocksSkipped(vol: Volume, number: nat, blocks: seq<seq<Entry>>, skip: nat)
    requires OnDisk(vol, number, blocks, 0) && skip < WORD
    requires Second(skip) >= |blocks| ==> vol.blockOffset(number, Second(skip)) == 0
    ensures OnDisk(vol, number, Passed(blocks, skip), skip)
    ensures var complete := skip == 0 || (|blocks| == 1 && skip != WORD - 1);
      && (Flat(Passed(blocks, skip)) == Flat(blocks) <==> complete)
      && (AllUsed(Flat(blocks)) ==> (UpToZero(Flat(Passed(blocks, skip))) == UpToZero(Flat(blocks)) <==> complete))
    ensures !AllUsed(blocks[0]) ==> UpToZero(Flat(Passed(blocks, skip))) == UpToZero(Flat(blocks))
  {
    NumberedBelow(vol, number, blocks);
    PassedOnDisk(vol, number, blocks, skip);
    NoneEmpty(vol, number, blocks);
    FlatPassed(blocks, skip);
    PassedListing(blocks, skip);
  }

  // The number of blocks is a 32-bit word: the code finds none at that number.
  lemma NumberedBelow(vol: Volume, number: nat, blocks: seq<seq<Entry>>)
    requires OnDisk(vol, number, blocks, 0)
    ensures |blocks| < WORD
  {
    if |blocks| >= WORD {
      HoldsAt(vol, number, blocks, |blocks| % WORD);
      assert false;
    }
  }

  ghost predicate NonEmpty(blocks: seq<seq<Entry>>) {
    forall j :: 0 <= j < |blocks| ==> blocks[j] != []
  }

  lemma NoneEmpty(vol: Volume, number: nat, blocks: seq<seq<Entry>>)
    requires OnDisk(vol, number, blocks, 0)
    ensures NonEmpty(blocks)
  {
    forall j | 0 <= j < |blocks| ensures blocks[j] != [] {
      BlockIsNotEmpty(vol, number, blocks, 0, j);
    }
  }

  lemma PassedListing(blocks: seq<seq<Entry>>, skip: nat)
    requires blocks != []
    ensures AllUsed(Flat(blocks)) ==>
      UpToZero(Flat(blocks)) == Flat(blocks) && UpToZero(Flat(Passed(blocks, skip))) == Flat(Passed(blocks, skip))
    ensures !AllUsed(blocks[0]) ==> UpToZero(Flat(Passed(blocks, skip))) == UpToZero(Flat(blocks))
  {
    if AllUsed(Flat(blocks)) {
      PassedUsed(blocks, skip);
      NothingDropped(Flat(blocks));
      NothingDropped(Flat(Passed(blocks, skip)));
    }
    if !AllUsed(blocks[0]) {
      EndsInFirst(blocks[0], Flat(blocks[1..]));
      EndsInFirst(blocks[0], Flat(Passed(blocks, skip)[1..]));
    }
  }

  lemma PassedOnDisk(vol: Volume, number: nat, blocks: seq<seq<Entry>>, skip: nat)
    requires OnDisk(vol, number, blocks, 0) && skip < WORD
    requires Second(skip) >= |blocks| ==> vol.blockOffset(number, Second(skip)) == 0
    requires |blocks| < WORD
    ensures OnDisk(vol, number, Passed(blocks, skip), skip)
  {
    var read := Passed(blocks, skip);
    forall j | 0 <= j < |read| ensures BlockHolds(vol, number, BlockAt(skip, j), read[j]) {
      if j > 0 {
        BlockAfterSecond(skip, j);
      }
      HoldsAt(vol, number, blocks, BlockAt(skip, j));
    }
    BlockAfterSecond(skip, |read|);
    OffsetBehind(vol, number, blocks);
  }

  lemma HoldsAt(vol: Volume, number: nat, blocks: seq<seq<Entry>>, n: nat)
    requires OnDisk(vol, number, blocks, 0) && n < |blocks| && n < WORD
    ensures BlockHolds(vol, number, n, blocks[n])
  {
    assert BlockHolds(vol, number, BlockAt(0, n), blocks[n]);
  }

  lemma OffsetBehind(vol: Volume, number: nat, blocks: seq<seq<Entry>>)
    requires OnDisk(vol, number, blocks, 0) && |blocks| < WORD
    ensures vol.blockOffset(number, |blocks|) == 0
  {
    assert BlockAt(0, |blocks|) == |blocks|;
  }

  lemma FlatPassed(blocks: seq<seq<Entry>>, skip: nat)
    requires blocks != [] && skip < WORD && NonEmpty(blocks)
    ensures Flat(Passed(blocks, skip)) == Flat(blocks) <==> skip == 0 || (|blocks| == 1 && skip != WORD - 1)
  {
    if skip == WORD - 1 {
      assert Passed(blocks, skip)[1..] == blocks;
      assert |Flat(Passed(blocks, skip))| == |blocks[0]| + |Flat(blocks)|;
    } else {
      var n := if skip + 1 < |blocks| then skip else |blocks| - 1;
      assert Passed(blocks, skip)[1..] == blocks[1..][n..];
      FlatWithout(blocks[0], blocks[1..], n);
      assert Flat(Passed(blocks, skip)) == blocks[0] + Flat(blocks[1..][n..]);
    }
  }

  lemma FlatWithout(first: seq<Entry>, rest: seq<seq<Entry>>, n: nat)
    requires n <= |rest| && NonEmpty(rest)
    ensures first + Flat(rest[n..]) == first + Flat(rest) <==> n == 0
  {
    FlatShrinks(rest, n);
    if n == 0 {
      assert rest[0..] == rest;
    } else {
      assert |first + Flat(rest[n..])| < |first + Flat(rest)|;
    }
  }

  lemma {:induction false} UsedBlocks(blocks: seq<seq<Entry>>)
    ensures AllUsed(Flat(blocks)) <==> forall j :: 0 <= j < |blocks| ==> AllUsed(blocks[j])
  {
    if blocks != [] {
      UsedBlocks(blocks[1..]);
      UsedBoth(blocks[0], Flat(blocks[1..]));
      assert forall j :: 1 <= j < |blocks| ==> blocks[j] == blocks[1..][j - 1];
      assert forall k :: 0 <= k < |blocks| - 1 ==> blocks[1..][k] == blocks[k + 1];
    }
  }

  lemma UsedBoth(a: seq<Entry>, b: seq<Entry>)
    ensures AllUsed(a + b) <==> AllUsed(a) && AllUsed(b)
  {
    assert forall i :: 0 <= i < |a| ==> (a + b)[i] == a[i];
    assert forall i :: 0 <= i < |b| ==> (a + b)[|a| + i] == b[i];
  }

  lemma PassedUsed(blocks: seq<seq<Entry>>, skip: nat)
    requires blocks != [] && AllUsed(Flat(blocks))
    ensures AllUsed(Flat(Passed(blocks, skip)))
  {
    UsedBlocks(blocks);
    UsedBlocks(Passed(blocks, skip));
  }

  // Behind an unused entry nothing is listed.
  lemma EndsInFirst(first: seq<Entry>, more: seq<Entry>)
    requires !AllUsed(first)
    ensures UpToZero(first + more) == UpToZero(first)
  {
    var k := FirstZero(first);
    assert k < |first|;
    assert forall i :: 0 <= i <= k ==> (first + more)[i] == first[i];
    assert FirstZero(first + more) == k;
  }

  // Without its first `n` non-empty blocks a list of blocks has fewer entries.
  lemma {:induction false} FlatShrinks(blocks: seq<seq<Entry>>, n: nat)
    requires n <= |blocks| && NonEmpty(blocks)
    ensures |Flat(blocks[n..])| <= |Flat(blocks)| && (|Flat(blocks[n..])| == |Flat(blocks)| <==> n == 0)
  {
    if n > 0 {
      FlatShrinks(blocks[1..], n - 1);
      assert blocks[1..][n - 1..] == blocks[n..];
    } else {
      assert blocks[0..] == blocks;
    }
  }

  // The next entry of the directory: in the block at hand, or the first of the
  // next block.
  lemma RestSteps(blocks: seq<seq<Entry>>, j: nat, i: nat)
    requires j < |blocks| && i <= |blocks[j]|
    ensures i < |blocks[j]| ==>
      Rest(blocks, j, i) != [] && Rest(blocks, j, i)[0] == blocks[j][i] && Rest(blocks, j, i)[1..] == Rest(blocks, j, i + 1)
    ensures i == |blocks[j]| && j + 1 < |blocks| ==> Rest(blocks, j, i) == Rest(blocks, j + 1, 0)
    ensures i == |blocks[j]| && j + 1 == |blocks| ==> Rest(blocks, j, i) == []
  {
    if i < |blocks[j]| {
      assert blocks[j][i..] == [blocks[j][i]] + blocks[j][i + 1..];
      assert Rest(blocks, j, i) == [blocks[j][i]] + Rest(blocks, j, i + 1);
    }
  }

  class Dir {
    const vol: Volume
    const inodeNumber: nat
    const buffer: array<Byte>  // block_buffer
    ghost const skip: nat  // where bp_index started
    var bpIndex: nat
    var soFar: nat
    var next: nat  // as an index into the buffer
    var ent: Dirent

    // The rest of ext2_opendir, past its type check. The memset clears four
    // bytes only, so bp_index keeps what kmalloc returned.
    constructor (vol: Volume, inodeNumber: nat, garbage: nat)
      requires garbage < WORD
      ensures this.vol == vol && this.inodeNumber == inodeNumber && fresh(buffer) && skip == bpIndex == garbage
      ensures forall blocks :: OnDisk(vol, inodeNumber, blocks, garbage) ==> Reading(blocks, 0, 0)
    {
      this.vol, this.inodeNumber, skip, bpIndex := vol, inodeNumber, garbage, garbage;
      buffer := new Byte[vol.blockSize](_ => 0);
      ent := Dirent(0, 0, 0, 0, []);
      soFar, next := 0, 0;
      new;
      ReadB(vol.disk, vol.base + vol.blockOffset(inodeNumber, 0), vol.blockSize, buffer, 0);
      assert buffer[..] == Slice(vol.disk, vol.base + vol.blockOffset(inodeNumber, 0), vol.blockSize);
      forall blocks | OnDisk(vol, inodeNumber, blocks, garbage) ensures Reading(blocks, 0, 0) {
        assert BlockHolds(vol, inodeNumber, BlockAt(garbage, 0), blocks[0]);
      }
    }

    // The iterator stands before entry `i` of block `j` of those it reads.
    ghost predicate Reading(blocks: seq<seq<Entry>>, j: nat, i: nat)
      reads this, buffer
    {
      && OnDisk(vol, inodeNumber, blocks, skip)
      && j < |blocks| && i <= |blocks[j]| && bpIndex == (skip + j) % WORD
      && buffer[..] == EncodeAll(blocks[j]) && next == soFar == Start(blocks[j], i)
    }

    // ext2_make_dirent, for the entry at `next`.
    method MakeDirent(ghost blocks: seq<seq<Entry>>, ghost j: nat, ghost i: nat)
      requires Reading(blocks, j, i) && i < |blocks[j]|
      modifies this
      ensures Reading(blocks, j, i + 1) && ent == DirentOf(vol, blocks[j][i])
      ensures var e := blocks[j][i];
        && ent.inode == e.inode && ent.kind == e.kind && ent.name == e.name
        && ent.size == vol.inode(e.inode).size && ent.mode == vol.inode(e.inode).mode
    {
      EntryHere(blocks, j, i);
      var e := next;
      var size := U16(buffer[..], e + 4);
      next := e + size;
      soFar := soFar + size;
      var inode := vol.inode(U32(buffer[..], e));
      ent := Dirent(U32(buffer[..], e), inode.size, buffer[e + 7], inode.mode, buffer[e + 8..e + 8 + buffer[e + 6]]);
    }

    lemma EntryHere(blocks: seq<seq<Entry>>, j: nat, i: nat)
      requires Reading(blocks, j, i) && i < |blocks[j]|
      ensures var e := blocks[j][i];
        && next + EntrySize(e) <= buffer.Length
        && U32(buffer[..], next) == e.inode && U16(buffer[..], next + 4) == EntrySize(e)
        && buffer[next + 6] == |e.name| && buffer[next + 7] == e.kind
        && buffer[next + 8..next + 8 + |e.name|] == e.name
    {
      DecodeEntryAt(buffer[..], blocks[j], i);
    }

    // ext2_readdir; `found` is false where it returns a null pointer.
    method ReadDir(ghost blocks: seq<seq<Entry>>, ghost j: nat, ghost i: nat)
      returns (found: bool, ghost j': nat, ghost i': nat)
      requires Reading(blocks, j, i)
      modifies this, buffer
      ensures var rest := Rest(blocks, j, i); found <==> rest != [] && rest[0].inode != 0
      ensures found ==> Reading(blocks, j', i') && ent == DirentOf(vol, Rest(blocks, j, i)[0])
      ensures found ==> Rest(blocks, j', i') == Rest(blocks, j, i)[1..]
      decreases soFar
    {
      j', i' := j, i;
      RestSteps(blocks, j, i);
      WhereInBlock(blocks, j, i);
      if soFar < vol.blockSize {
        found := ReadHere(blocks, j, i);
        return found, j, if found then i + 1 else i;
      }
      found := Refill(blocks, j);
      if !found {
        return;
      }
      found, j', i' := ReadDir(blocks, j + 1, 0);
    }

    lemma WhereInBlock(blocks: seq<seq<Entry>>, j: nat, i: nat)
      requires Reading(blocks, j, i)
      ensures soFar < vol.blockSize <==> i < |blocks[j]|
      ensures vol.blockSize > 0 && (i == 0 ==> soFar == 0)
    {
      BlockIsNotEmpty(vol, inodeNumber, blocks, skip, j);
      EncodedAt(blocks[j], i);
    }

    // Lines 289 to 294: the entry at `next`, unless it has no inode.
    method ReadHere(ghost blocks: seq<seq<Entry>>, ghost j: nat, ghost i: nat) returns (found: bool)
      requires Reading(blocks, j, i) && i < |blocks[j]|
      modifies this
      ensures found <==> blocks[j][i].inode != 0
      ensures found ==> Reading(blocks, j, i + 1) && ent == DirentOf(vol, blocks[j][i])
    {
      EntryHere(blocks, j, i);
      if U32(buffer[..], next) == 0 {
        return false;
      }
      MakeDirent(blocks, j, i);
      return true;
    }

    // Reading the next block, lines 296 to 309.
    method Refill(ghost blocks: seq<seq<Entry>>, ghost j: nat) returns (more: bool)
      requires j < |blocks| && Reading(blocks, j, |blocks[j]|)
      modifies this, buffer
      ensures more <==> j + 1 < |blocks|
      ensures more ==> Reading(blocks, j + 1, 0)
    {
      NextIndex(skip, j);
      bpIndex := (bpIndex + 1) % WORD;
      var offset := vol.blockOffset(inodeNumber, bpIndex);
      if j + 1 < |blocks| {
        assert BlockHolds(vol, inodeNumber, BlockAt(skip, j + 1), blocks[j + 1]);
      }
      if offset == 0 {
        return false;
      }
      ReadB(vol.disk, vol.base + offset, vol.blockSize, buffer, 0);
      next, soFar := 0, 0;
      return true;
    }
  }

  // ext2_opendir
  method OpenDir(vol: Volume, inodeNumber: nat, garbage: nat) returns (dir: Dir?)
    requires garbage < WORD
    ensures dir == null <==> !IsDir(vol.inode(inodeNumber))
    ensures dir != null ==> fresh(dir) && fresh(dir.buffer) && dir.vol == vol && dir.inodeNumber == inodeNumber
    ensures dir != null ==> forall blocks :: OnDisk(vol, inodeNumber, blocks, garbage) ==> dir.Reading(blocks, 0, 0)
  {
    if !IsDir(vol.inode(inodeNumber)) {
      return null;
    }
    dir := new Dir(vol, inodeNumber, garbage);
  }

  // `ents` describe the entries `es`.
  ghost predicate Describe(ents: seq<Dirent>, vol: Volume, es: seq<Entry>)
  {
    |ents| == |es| && forall k :: 0 <= k < |es| ==> ents[k] == DirentOf(vol, es[k])
  }

  lemma DescribeSnoc(ents: seq<Dirent>, vol: Volume, es: seq<Entry>, e: Entry)
    requires Describe(ents, vol, es)
    ensures Describe(ents + [DirentOf(vol, e)], vol, es + [e])
  {
  }

  lemma MoveOne(done: seq<Entry>, rest: seq<Entry>)
    requires rest != [] && rest[0].inode != 0
    ensures done + UpToZero(rest) == done + [rest[0]] + UpToZero(rest[1..])
  {
    assert rest == [rest[0]] + rest[1..];
    assert UpToZero(rest) == [rest[0]] + UpToZero(rest[1..]);
  }

  // Calling ext2_readdir until it returns null lists every entry once, in disk
  // order, up to the first without an inode.
  method List(dir: Dir, ghost blocks: seq<seq<Entry>>) returns (ents: seq<Dirent>)
    requires dir.Reading(blocks, 0, 0)
    modifies dir, dir.buffer
    ensures Describe(ents, dir.vol, UpToZero(Flat(blocks)))
  {
    ents := [];
    ghost var j, i, done := 0, 0, [];
    assert Rest(blocks, 0, 0) == Flat(blocks);
    var found := true;
    while found
      invariant found ==> dir.Reading(blocks, j, i) && UpToZero(Flat(blocks)) == done + UpToZero(Rest(blocks, j, i))
      invariant Describe(ents, dir.vol, done)
      invariant !found ==> UpToZero(Flat(blocks)) == done
      decreases found, if found then |Rest(blocks, j, i)| else 0
    {
      ghost var rest := Rest(blocks, j, i);
      found, j, i := dir.ReadDir(blocks, j, i);
      if found {
        DescribeSnoc(ents, dir.vol, done, rest[0]);
        MoveOne(done, rest);
        ents, done := ents + [dir.ent], done + [rest[0]];
      }
    }
  }
}
