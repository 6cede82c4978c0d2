// The ring buffer of kernel/fs/pipe.c.
module Pipe {
  import opened Arithmetic
  import opened Common

  // ring_buffer_t; `size` is the length of the buffer.
  datatype Ring = Ring(buffer: seq<Byte>, read: nat, write: nat, valid: nat)

  // The slots an 8-bit index reaches.
  function Capacity(r: Ring): nat {
    Min(|r.buffer|, 256)
  }

  predicate WellFormed(r: Ring) {
    0 < |r.buffer| < WORD && r.read < Capacity(r) && r.write < Capacity(r) && r.valid < WORD
  }

  // An 8-bit increment, then the remainder by the size.
  function Bump(index: nat, size: nat): nat
    requires size > 0
  {
    (index + 1) % 256 % size
  }

  function Put(r: Ring, b: Byte): Ring
    requires WellFormed(r)
  {
    var valid := (r.valid + 1) % WORD;
    Ring(r.buffer[r.write := b], r.read, Bump(r.write, |r.buffer|), Min(valid, |r.buffer|))
  }

  function Drop(r: Ring): Ring
    requires WellFormed(r) && r.valid > 0
  {
    r.(read := Bump(r.read, |r.buffer|), valid := r.valid - 1)
  }

  lemma BumpWraps(index: nat, size: nat)
    requires size > 0 && index < Min(size, 256)
    ensures Bump(index, size) == if index + 1 == Min(size, 256) then 0 else index + 1
  {
    var i := (index + 1) % 256;
    if i < size {
      Quotient(i, size, 0, i);
    } else {
      Quotient(i, size, 1, 0);
    }
  }

  lemma StepsAreWellFormed(r: Ring, b: Byte)
    requires WellFormed(r)
    ensures WellFormed(Put(r, b)) && (r.valid > 0 ==> WellFormed(Drop(r)))
  {
    BumpWraps(r.write, |r.buffer|);
    BumpWraps(r.read, |r.buffer|);
  }

  // ----- the queue a ring stands for -----

  // The slot `i` places after the read index.
  function Slot(r: Ring, i: nat): (k: nat)
    requires WellFormed(r) && i <= Capacity(r)
    ensures k < Capacity(r)
  {
    if r.read + i < Capacity(r) then r.read + i else r.read + i - Capacity(r)
  }

  predicate Sound(r: Ring) {
    WellFormed(r) && r.valid <= Capacity(r) && r.write == Slot(r, r.valid)
  }

  function Queue(r: Ring): (q: seq<Byte>)
    requires Sound(r)
  {
    seq(r.valid, i requires 0 <= i < r.valid => r.buffer[Slot(r, i)])
  }

  // The relation of the two indices, with the remainder written out.
  lemma SoundIndices(r: Ring)
    requires WellFormed(r)
    ensures Sound(r) <==> r.valid <= Capacity(r) && r.write == (r.read + r.valid) % Capacity(r)
  {
    var n, x := Capacity(r), r.read + r.valid;
    if r.valid <= n {
      Quotient(x, n, if x < n then 0 else 1, if x < n then x else x - n);
    }
  }

  lemma PutAppends(r: Ring, b: Byte)
    requires Sound(r) && r.valid < 256 && r.valid < |r.buffer|
    ensures Sound(Put(r, b)) && Queue(Put(r, b)) == Queue(r) + [b]
  {
    BumpWraps(r.write, |r.buffer|);
    var s := Put(r, b);
    assert s.valid == r.valid + 1;
    assert forall i :: 0 <= i < r.valid ==> Slot(r, i) != r.write && Slot(s, i) == Slot(r, i);
  }

  lemma DropRemovesFirst(r: Ring)
    requires Sound(r) && r.valid > 0
    ensures r.buffer[r.read] == Queue(r)[0] && Sound(Drop(r)) && Queue(Drop(r)) == Queue(r)[1..]
  {
    BumpWraps(r.read, |r.buffer|);
    assert forall i :: 0 <= i < r.valid - 1 ==> Slot(Drop(r), i) == Slot(r, i + 1);
  }

  // Writing to a full ring: the read index stays, so the next byte read is the
  // one just written. It is the one due iff the two are equal.
  lemma OverflowIsReadNext(r: Ring, b: Byte)
    requires Sound(r) && r.valid == Capacity(r)
    ensures var s := Put(r, b);
      WellFormed(s) && s.valid > 0 && s.read == r.read && s.buffer[s.read] == b
    ensures var s := Put(r, b); s.buffer[s.read] == Queue(r)[0] <==> b == Queue(r)[0]
  {
    StepsAreWellFormed(r, b);
  }

  // The bytes that reads take from a ring without a write between them, whether
  // its indices agree or not.
  function Pending(r: Ring): (q: seq<Byte>)
    requires WellFormed(r)
  {
    seq(r.valid, i requires 0 <= i < r.valid => r.buffer[Mod(r.read + i, Capacity(r))])
  }

  lemma ModOf(x: nat, n: nat, q: nat)
    requires n > 0 && q <= 1 && n * q <= x < n * q + n
    ensures Mod(x, n) == x - n * q
  {
    Quotient(x, n, q, x - n * q);
  }

  lemma PendingOfSound(r: Ring)
    requires Sound(r)
    ensures Pending(r) == Queue(r)
  {
    forall i | 0 <= i < r.valid ensures Pending(r)[i] == Queue(r)[i] {
      ModOf(r.read + i, Capacity(r), if r.read + i < Capacity(r) then 0 else 1);
    }
  }

  lemma PendingIsRead(r: Ring)
    requires WellFormed(r) && r.valid > 0
    ensures r.buffer[r.read] == Pending(r)[0] && WellFormed(Drop(r)) && Pending(Drop(r)) == Pending(r)[1..]
  {
    var n := Capacity(r);
    StepsAreWellFormed(r, 0);
    BumpWraps(r.read, |r.buffer|);
    ModOf(r.read, n, 0);
    forall i | 0 <= i < r.valid - 1 ensures Pending(Drop(r))[i] == Pending(r)[1..][i] {
      NextSlot(r.read, i, n);
    }
  }

  lemma NextSlot(read: nat, i: nat, n: nat)
    requires read < n
    ensures Mod((if read + 1 == n then 0 else read + 1) + i, n) == Mod(read + (i + 1), n)
  {
    var x := (if read + 1 == n then 0 else read + 1) + i;
    DivMod(x, n);
    if read + 1 == n {
      Quotient(read + (i + 1), n, x / n + 1, x % n);
      assert n * (x / n + 1) == n * (x / n) + n;
    }
  }

  // Writes past the capacity of a full ring: `late` is what they put in place of the oldest bytes.
  ghost predicate Overwritten(r: Ring, s: Ring, late: seq<Byte>) {
    && WellFormed(r) && WellFormed(s) && |s.buffer| == |r.buffer| && s.read == r.read && s.valid == r.valid
    && |late| <= Capacity(r) && s.write == Slot(r, if |late| == Capacity(r) then 0 else |late|)
    && forall i :: 0 <= i < Capacity(r) ==> s.buffer[Slot(r, i)] == if i < |late| then late[i] else r.buffer[Slot(r, i)]
  }

  lemma BumpSlot(r: Ring, k: nat)
    requires WellFormed(r) && k < Capacity(r)
    ensures Bump(Slot(r, k), |r.buffer|) == Slot(r, if k + 1 == Capacity(r) then 0 else k + 1)
  {
    BumpWraps(Slot(r, k), |r.buffer|);
  }

  lemma SlotsDiffer(r: Ring, i: nat, k: nat)
    requires WellFormed(r) && i < Capacity(r) && k < Capacity(r)
    ensures Slot(r, i) == Slot(r, k) <==> i == k
  {
  }

  lemma PutFull(r: Ring, b: Byte)
    requires WellFormed(r) && r.valid == |r.buffer| <= 256
    ensures Put(r, b) == Ring(r.buffer[r.write := b], r.read, Bump(r.write, |r.buffer|), r.valid)
  {
  }

  lemma OverwriteOne(r: Ring, s: Ring, late: seq<Byte>, b: Byte)
    requires WellFormed(r) && r.valid == |r.buffer| <= 256 && Overwritten(r, s, late) && |late| < Capacity(r)
    ensures Overwritten(r, Put(s, b), late + [b])
  {
    var t, at := Put(s, b), Slot(r, |late|);
    StepsAreWellFormed(s, b);
    BumpSlot(r, |late|);
    PutFull(s, b);
    forall i | 0 <= i < Capacity(r) ensures t.buffer[Slot(r, i)] == if i < |late| + 1 then (late + [b])[i] else r.buffer[Slot(r, i)] {
      SlotsDiffer(r, i, |late|);
    }
  }

  lemma {:induction false} OverwriteAll(r: Ring, data: seq<Byte>)
    requires Sound(r) && r.valid == |r.buffer| <= 256 && |data| <= |r.buffer|
    ensures Overwritten(r, PutAll(r, data), data)
    decreases |data|
  {
    if data != [] {
      var last := |data| - 1;
      OverwriteAll(r, data[..last]);
      OverwriteOne(r, PutAll(r, data[..last]), data[..last], data[last]);
      assert data == data[..last] + [data[last]];
    }
  }

  // Writing up to a whole ring's worth to a full ring of at most 256 bytes
  // leaves the new bytes at the front of what is read next, before the bytes
  // that are younger than those they replaced; a queue that dropped its oldest
  // bytes would have them at the end.
  lemma OverflowQueue(r: Ring, data: seq<Byte>)
    requires Sound(r) && r.valid == |r.buffer| <= 256 && |data| <= |r.buffer|
    ensures Pending(PutAll(r, data)) == data + Queue(r)[|data|..]
  {
    var s := PutAll(r, data);
    OverwriteAll(r, data);
    PendingOverwritten(r, s, data);
  }

  lemma PendingOverwritten(r: Ring, s: Ring, late: seq<Byte>)
    requires Sound(r) && r.valid == Capacity(r) && Overwritten(r, s, late)
    ensures Pending(s) == late + Queue(r)[|late|..]
  {
    forall i | 0 <= i < r.valid ensures Pending(s)[i] == (late + Queue(r)[|late|..])[i] {
      ModOf(r.read + i, Capacity(r), if r.read + i < Capacity(r) then 0 else 1);
      assert Pending(s)[i] == s.buffer[Slot(r, i)];
    }
  }

  // In a larger ring the count goes on past the 256 slots there are, so after
  // an overflow the byte written is read first and again at the end.
  lemma OverflowLargeRing(r: Ring, b: Byte)
    requires Sound(r) && |r.buffer| > 256 && r.valid == 256
    ensures WellFormed(Put(r, b)) && Pending(Put(r, b)) == [b] + Queue(r)[1..] + [b]
  {
    StepsAreWellFormed(r, b);
    LargePut(r, b);
    forall i | 0 <= i < 257 ensures Pending(Put(r, b))[i] == ([b] + Queue(r)[1..] + [b])[i] {
      LargeSlot(r, i);
    }
  }

  lemma LargePut(r: Ring, b: Byte)
    requires Sound(r) && |r.buffer| > 256 && r.valid == 256
    ensures var s := Put(r, b); s.buffer == r.buffer[r.read := b] && s.read == r.read && s.valid == 257 && |s.buffer| == |r.buffer|
  {
  }

  lemma LargeSlot(r: Ring, i: nat)
    requires WellFormed(r) && |r.buffer| > 256 && i <= 256
    ensures Mod(r.read + i, 256) == if i == 256 then r.read else Slot(r, i)
    ensures 0 < i < 256 ==> Slot(r, i) != r.read
    ensures i == 0 ==> Slot(r, i) == r.read
  {
    ModOf(r.read + i, 256, if r.read + i < 256 then 0 else 1);
  }

  // ----- runs -----

  datatype Op = Write(byte: Byte) | Read

  // Each read finds a byte (rb_read_byte waits for one) and each write a slot.
  predicate Fits(valid: nat, capacity: nat, ops: seq<Op>)
    decreases |ops|
  {
    ops == [] ||
    match ops[0]
    case Write(_) => valid < capacity && Fits(valid + 1, capacity, ops[1..])
    case Read => valid > 0 && Fits(valid - 1, capacity, ops[1..])
  }

  // A run that would have to wait stops there.
  function Run(r: Ring, ops: seq<Op>): Ring
    requires WellFormed(r)
    decreases |ops|
  {
    if ops == [] then r else
      match ops[0]
      case Write(b) => StepsAreWellFormed(r, b); Run(Put(r, b), ops[1..])
      case Read => if r.valid == 0 then r else StepsAreWellFormed(r, 0); Run(Drop(r), ops[1..])
  }

  function Outputs(r: Ring, ops: seq<Op>): seq<Byte>
    requires WellFormed(r)
    decreases |ops|
  {
    if ops == [] then [] else
      match ops[0]
      case Write(b) => StepsAreWellFormed(r, b); Outputs(Put(r, b), ops[1..])
      case Read =>
        if r.valid == 0 then [] else StepsAreWellFormed(r, 0); [r.buffer[r.read]] + Outputs(Drop(r), ops[1..])
  }

  function Inputs(ops: seq<Op>): seq<Byte> {
    if ops == [] then [] else (if ops[0].Write? then [ops[0].byte] else []) + Inputs(ops[1..])
  }

  // In every interleaving that fits, what was queued and what was written is
  // what was read followed by what is queued.
  lemma {:induction false} RunIsFifo(r: Ring, ops: seq<Op>)
    requires Sound(r) && Fits(r.valid, Capacity(r), ops)
    ensures Sound(Run(r, ops)) && Queue(r) + Inputs(ops) == Outputs(r, ops) + Queue(Run(r, ops))
    decreases |ops|
  {
    if ops != [] {
      match ops[0]
      case Write(b) =>
        PutAppends(r, b);
        RunIsFifo(Put(r, b), ops[1..]);
        Associates(Queue(r), [b], Inputs(ops[1..]));
      case Read =>
        DropRemovesFirst(r);
        RunIsFifo(Drop(r), ops[1..]);
        FirstMoves(Queue(r), Inputs(ops[1..]), Outputs(Drop(r), ops[1..]), Queue(Run(Drop(r), ops[1..])));
    }
  }

  lemma Associates(a: seq<Byte>, b: seq<Byte>, c: seq<Byte>)
    ensures (a + b) + c == a + (b + c)
  {
  }

  lemma FirstMoves(q: seq<Byte>, input: seq<Byte>, output: seq<Byte>, left: seq<Byte>)
    requires q != [] && q[1..] + input == output + left
    ensures q + input == ([q[0]] + output) + left
    ensures [] + input == input
  {
    assert q + input == [q[0]] + (q[1..] + input);
  }

  // make_rb sets both indices and leaves valid_data_size as kmalloc left it.
  function Made(memory: seq<Byte>, validDataSize: nat): Ring {
    Ring(memory, 0, 0, validDataSize)
  }

  // The new ring is a FIFO in every run that fits iff the allocator happened
  // to return a zero there.
  lemma MadeIsFifoIff(memory: seq<Byte>, garbage: nat)
    requires 0 < |memory| < WORD && garbage < WORD
    ensures var r := Made(memory, garbage);
      (forall ops :: Fits(garbage, Capacity(r), ops) ==> Outputs(r, ops) <= Inputs(ops)) <==> garbage == 0
  {
    var r := Made(memory, garbage);
    if garbage == 0 {
      forall ops | Fits(0, Capacity(r), ops) ensures Outputs(r, ops) <= Inputs(ops) {
        RunIsFifo(r, ops);
        assert Queue(r) + Inputs(ops) == Inputs(ops);
      }
    } else {
      GarbageIsRead(memory, garbage);
    }
  }

  lemma GarbageIsRead(memory: seq<Byte>, garbage: nat)
    requires 0 < |memory| < WORD && 0 < garbage < WORD
    ensures var r := Made(memory, garbage); Fits(garbage, Capacity(r), [Read]) && !(Outputs(r, [Read]) <= Inputs([Read]))
  {
    var r, ops := Made(memory, garbage), [Read];
    assert ops[1..] == [];
    assert Fits(garbage - 1, Capacity(r), ops[1..]);
    assert Outputs(r, ops) == [r.buffer[r.read]] + Outputs(Drop(r), ops[1..]) by {
      StepsAreWellFormed(r, 0);
    }
    assert Inputs(ops) == [] + Inputs(ops[1..]);
  }

  // ----- the buffer updated in place -----

  function PutAll(r: Ring, data: seq<Byte>): (s: Ring)
    requires WellFormed(r)
    ensures WellFormed(s) && |s.buffer| == |r.buffer|
  {
    if data == [] then r else
      var last := |data| - 1;
      StepsAreWellFormed(PutAll(r, data[..last]), data[last]);
      Put(PutAll(r, data[..last]), data[last])
  }

  function DropAll(r: Ring, n: nat): (s: Ring)
    requires WellFormed(r) && n <= r.valid
    ensures WellFormed(s) && s.valid == r.valid - n && s.buffer == r.buffer
  {
    if n == 0 then r else
      StepsAreWellFormed(DropAll(r, n - 1), 0);
      Drop(DropAll(r, n - 1))
  }

  lemma {:induction false} PutAllAppends(r: Ring, data: seq<Byte>)
    requires Sound(r) && r.valid + |data| <= Capacity(r)
    ensures Sound(PutAll(r, data)) && Queue(PutAll(r, data)) == Queue(r) + data
  {
    if data == [] {
      assert Queue(r) + data == Queue(r);
    } else {
      var last := |data| - 1;
      PutAllAppends(r, data[..last]);
      assert |Queue(PutAll(r, data[..last]))| == r.valid + last;
      PutAppends(PutAll(r, data[..last]), data[last]);
      assert Queue(r) + data[..last] + [data[last]] == Queue(r) + (data[..last] + [data[last]]);
      assert data[..last] + [data[last]] == data;
    }
  }

  lemma {:induction false} DropAllRemoves(r: Ring, n: nat)
    requires Sound(r) && n <= r.valid
    ensures Sound(DropAll(r, n)) && Queue(DropAll(r, n)) == Queue(r)[n..]
  {
    if n > 0 {
      DropAllRemoves(r, n - 1);
      DropRemovesFirst(DropAll(r, n - 1));
      assert Queue(r)[n - 1..][1..] == Queue(r)[n..];
    }
  }

  class RingBuffer {
    const size: nat
    const buffer: array<Byte>
    var readIndex: nat
    var writeIndex: nat
    var validDataSize: nat

    // make_rb; `memory` and `garbage` are what the allocated bytes held.
    constructor (memory: seq<Byte>, garbage: nat)
      requires 0 < |memory| < WORD && garbage < WORD
      ensures Valid() && State() == Made(memory, garbage) && fresh(buffer)
    {
      size := |memory|;
      buffer := new Byte[|memory|](i requires 0 <= i < |memory| => memory[i]);
      readIndex, writeIndex, validDataSize := 0, 0, garbage;
      new;
      assert buffer[..] == memory;
    }

    ghost predicate Valid()
      reads this, buffer
    {
      buffer.Length == size && WellFormed(State())
    }

    ghost function State(): Ring
      reads this, buffer
    {
      Ring(buffer[..], readIndex, writeIndex, validDataSize)
    }

    // rb_read_byte, once valid_data_size is not zero.
    method ReadByte() returns (b: Byte)
      requires Valid() && validDataSize > 0
      modifies this
      ensures Valid() && State() == Drop(old(State())) && b == old(State().buffer[readIndex])
    {
      StepsAreWellFormed(State(), 0);
      b := buffer[readIndex];
      readIndex := (readIndex + 1) % 256;
      validDataSize := validDataSize - 1;
      readIndex := readIndex % size;
    }

    method WriteByte(b: Byte)
      requires Valid()
      modifies this, buffer
      ensures Valid() && State() == Put(old(State()), b)
    {
      StepsAreWellFormed(State(), b);
      ghost var r := State();
      buffer[writeIndex] := b;
      writeIndex := (writeIndex + 1) % 256;
      validDataSize := (validDataSize + 1) % WORD;
      writeIndex := writeIndex % size;
      if validDataSize > size {
        validDataSize := size;
      }
      assert State().buffer == r.buffer[r.write := b];
    }

    // rb_write; the queue gains all of `data` when it fits.
    method Write(data: seq<Byte>)
      requires Valid()
      modifies this, buffer
      ensures Valid() && State() == PutAll(old(State()), data)
      ensures old(Sound(State()) && validDataSize + |data| <= Capacity(State())) ==>
        Sound(State()) && Queue(State()) == old(Queue(State())) + data
    {
      ghost var r := State();
      var i := 0;
      while i < |data|
        invariant Valid() && i <= |data| && State() == PutAll(r, data[..i])
      {
        WriteByte(data[i]);
        assert data[..i + 1][..i] == data[..i];
        i := i + 1;
      }
      assert data[..i] == data;
      if Sound(r) && r.valid + |data| <= Capacity(r) {
        PutAllAppends(r, data);
      }
    }

    // rb_read when no byte has to be waited for.
    method Read(n: nat) returns (data: seq<Byte>)
      requires Valid() && n <= validDataSize
      modifies this
      ensures Valid() && State() == DropAll(old(State()), n) && |data| == n
      ensures old(Sound(State())) ==>
        Sound(State()) && old(Queue(State())) == data + Queue(State())
    {
      ghost var r := State();
      data := [];
      var i := 0;
      while i < n
        invariant Valid() && i <= n && State() == DropAll(r, i) && |data| == i
        invariant Sound(r) ==> data == Queue(r)[..i]
      {
        if Sound(r) {
          DropAllRemoves(r, i);
          DropRemovesFirst(State());
        }
        var b := ReadByte();
        data := data + [b];
        i := i + 1;
      }
      if Sound(r) {
        DropAllRemoves(r, n);
        assert Queue(r) == Queue(r)[..n] + Queue(r)[n..];
      }
    }
  }
}
