// The walk over a tar archive in memory: tar_get_size, tar_parse and
// initrd_read of kernel/fs/initrd/initrd.c. The format is the ustar Interchange
// Format of the pax utility (IEEE Std 1003.1).
module Tar {
  import opened Ata
  import opened Common
  import opened LittleEndian

  const BLOCK := 512
  const SIZE_FIELD := 124
  const TYPE_FLAG := 156
  // Where the compiler puts tar_header_t.offset: after typeflag, aligned to 4.
  const OFFSET_FIELD := 160

  // ----- the size field -----

  // input[j] - '0', for a signed char.
  function Digit(b: Byte): int {
    (if b < 128 then b as int else b as int - 256) - 48
  }

  // The number written by octal digits, the most significant first.
  function Octal(s: seq<Byte>): int {
    if s == [] then 0 else 8 * Octal(s[..|s| - 1]) + Digit(s[|s| - 1])
  }

  function Pow8(k: nat): nat {
    if k == 0 then 1 else 8 * Pow8(k - 1)
  }

  // The first digit weighs as much as the ones after it say.
  lemma {:induction false} OctalHead(s: seq<Byte>)
    requires s != []
    ensures Octal(s) == Digit(s[0]) * Pow8(|s| - 1) + Octal(s[1..])
  {
    var last := |s| - 1;
    if last > 0 {
      OctalHead(s[..last]);
      assert s[..last][1..] == s[1..][..last - 1];
      TimesEight(Digit(s[0]), Pow8(last - 1));
    } else {
      assert s[..0] == [] && s[1..] == [];
    }
  }

  lemma TimesEight(d: int, p: int)
    ensures 8 * (d * p) == d * (8 * p)
  {
  }

  lemma {:induction false} Pow8Bound(k: nat)
    requires k <= 10
    ensures Pow8(k) <= 0x4000_0000
  {
    Pow8Grows(k, 10);
    assert Pow8(4) == 4096;
    assert Pow8(7) == 512 * Pow8(4);
    assert Pow8(10) == 512 * Pow8(7);
  }

  lemma {:induction false} Pow8Grows(k: nat, m: nat)
    requires k <= m
    ensures Pow8(k) <= Pow8(m)
    decreases m
  {
    if k < m {
      Pow8Grows(k, m - 1);
    }
  }

  // `k` octal digits, as the ASCII bytes 48 to 55, the most significant first.
  function OctalText(n: nat, k: nat): (s: seq<Byte>)
    ensures |s| == k
  {
    if k == 0 then [] else OctalText(n / 8, k - 1) + [48 + n % 8]
  }

  // A number written in octal is read back if it has room.
  lemma {:induction false} OctalRoundTrip(n: nat, k: nat)
    requires n < Pow8(k)
    ensures Octal(OctalText(n, k)) == n
    decreases k
  {
    if k > 0 {
      OctalRoundTrip(n / 8, k - 1);
      var s := OctalText(n, k);
      assert s[..k - 1] == OctalText(n / 8, k - 1) && s[k - 1] == 48 + n % 8;
    }
  }

  lemma OctalStep(input: seq<Byte>, j: nat)
    requires j < 11 <= |input|
    ensures Octal(input[j..11]) % WORD == (Octal(input[j + 1..11]) % WORD + Digit(input[j]) * Pow8(10 - j)) % WORD
    ensures j > 0 ==> Pow8(11 - j) == Pow8(10 - j) * 8 % WORD
  {
    OctalHead(input[j..11]);
    assert input[j..11][1..] == input[j + 1..11];
    ModAdd(Octal(input[j + 1..11]), Digit(input[j]) * Pow8(10 - j));
    if j > 0 {
      Pow8Step(11 - j);
    }
  }

  lemma Pow8Step(k: nat)
    requires 0 < k <= 10
    ensures Pow8(k) == Pow8(k - 1) * 8 % WORD
  {
    Pow8Bound(k);
  }

  lemma ModAdd(x: int, y: int)
    ensures (x % WORD + y) % WORD == (x + y) % WORD
  {
  }

  // size_t arithmetic wraps around, so this is the number in the field exactly
  // if that is below 2^32; the field has room for 2^33 - 1.
  method GetSize(input: seq<Byte>) returns (size: nat)
    requires |input| >= 11
    ensures size == Octal(input[..11]) % WORD
  {
    size := 0;
    var j, count := 11, 1;
    while j > 0
      invariant 0 <= j <= 11 && (j > 0 ==> count == Pow8(11 - j))
      invariant size == Octal(input[j..11]) % WORD
    {
      OctalStep(input, j - 1);
      size := (size + Digit(input[j - 1]) * count) % WORD;
      j, count := j - 1, count * 8 % WORD;
    }
    assert input[0..11] == input[..11];
  }

  // ----- archives -----

  datatype Member = Member(header: seq<Byte>, body: seq<Byte>)

  function Padded(size: nat): nat {
    (size + BLOCK - 1) / BLOCK * BLOCK
  }

  // The index of the first zero byte from `at` on, or |s|.
  function ZeroFrom(s: seq<Byte>, at: nat): (e: nat)
    requires at <= |s|
    ensures at <= e <= |s| && (e < |s| ==> s[e] == 0) && forall i :: at <= i < e ==> s[i] != 0
    decreases |s| - at
  {
    if at == |s| || s[at] == 0 then at else ZeroFrom(s, at + 1)
  }

  // The text tar_parse takes for the name: it starts two bytes into the header.
  function NameText(header: seq<Byte>): seq<Byte>
    requires |header| >= 2
  {
    header[2..ZeroFrom(header, 2)]
  }

  // Name and mode, the fields before `offset` that are read as text, end in a
  // zero byte.
  predicate ValidMember(m: Member) {
    && |m.header| == BLOCK && m.header[0] != 0 && ZeroFrom(m.header, 2) < OFFSET_FIELD
    && Octal(m.header[SIZE_FIELD..SIZE_FIELD + 11]) == |m.body| < WORD
  }

  // Memory holds a member at `addr`: the header, and the body padded to whole blocks.
  predicate MemberAt(mem: seq<Byte>, addr: nat, m: Member) {
    var body := addr + BLOCK;
    && ValidMember(m) && |m.body| <= Padded(|m.body|) && body + Padded(|m.body|) <= |mem|
    && mem[addr..body] == m.header && mem[body..body + |m.body|] == m.body
  }

  function After(addr: nat, m: Member): nat {
    addr + BLOCK + Padded(|m.body|)
  }

  // From `addr` on, memory holds the members, and then a header with an empty name.
  predicate ArchiveAt(mem: seq<Byte>, addr: nat, members: seq<Member>)
    decreases |members|
  {
    if members == [] then addr < |mem| && mem[addr] == 0
    else MemberAt(mem, addr, members[0]) && ArchiveAt(mem, After(addr, members[0]), members[1..])
  }

  lemma PaddedBounds(size: nat)
    ensures size <= Padded(size) < size + 512 && Padded(size) % 512 == 0
  {
  }

  // The layout of a member, by the offsets of the ustar format: the size field
  // of eleven digits at byte 124, the type at byte 156, the body at byte 512,
  // and the next member after whole blocks of 512 bytes.
  lemma MemberLayout(mem: seq<Byte>, addr: nat, m: Member)
    requires MemberAt(mem, addr, m)
    ensures addr + 512 + |m.body| <= |mem| && mem[addr] != 0
    ensures Octal(mem[addr + 124..addr + 135]) == |m.body| && mem[addr + 512..addr + 512 + |m.body|] == m.body
    ensures |m.header| == 512 && (VisitOf(addr, m).isDir <==> mem[addr + 156] == '5' as int)
    ensures VisitOf(addr, m).header == addr && VisitOf(addr, m).inode == addr + 512 && VisitOf(addr, m).size == |m.body|
    ensures addr + 512 + |m.body| <= After(addr, m) < addr + 1024 + |m.body| && (After(addr, m) - addr) % 512 == 0
  {
    SubSlice(mem, addr, 512, 124, 135);
    PaddedBounds(|m.body|);
    assert mem[addr] == mem[addr..addr + BLOCK][0] && mem[addr + 156] == mem[addr..addr + BLOCK][156];
  }

  // The name of the node starts two bytes into the header and ends at a NUL.
  lemma NameLayout(mem: seq<Byte>, addr: nat, m: Member)
    requires MemberAt(mem, addr, m)
    ensures var name := VisitOf(addr, m).name;
      && 2 + |name| < 160 && mem[addr + 2..addr + 2 + |name|] == name && mem[addr + 2 + |name|] == 0
      && forall i :: 0 <= i < |name| ==> name[i] != 0
  {
    var e := ZeroFrom(m.header, 2);
    SubSlice(mem, addr, BLOCK, 2, e);
    assert mem[addr + e] == mem[addr..addr + BLOCK][e];
  }

  // What tar_parse gives a node.
  datatype Visit = Visit(header: nat, name: seq<Byte>, isDir: bool, inode: nat, size: nat)

  function VisitOf(addr: nat, m: Member): Visit
    requires |m.header| == BLOCK
  {
    Visit(addr, NameText(m.header), m.header[TYPE_FLAG] == 53, addr + BLOCK, |m.body|)
  }

  function Visits(addr: nat, members: seq<Member>): seq<Visit>
    requires AllHeaders(members)
    decreases |members|
  {
    if members == [] then []
    else
      [VisitOf(addr, members[0])] + Visits(After(addr, members[0]), members[1..])
  }

  // ----- the walk -----

  // header->offset = addr
  function StampAt(mem: seq<Byte>, addr: nat): (r: seq<Byte>)
    requires addr + BLOCK <= |mem| <= WORD
    ensures |r| == |mem|
  {
    mem[..addr + OFFSET_FIELD] + Bytes32(addr) + mem[addr + OFFSET_FIELD + 4..]
  }

  function Stamp(header: seq<Byte>, addr: nat): (r: seq<Byte>)
    requires |header| == BLOCK && addr < WORD
    ensures |r| == BLOCK
  {
    header[..OFFSET_FIELD] + Bytes32(addr) + header[OFFSET_FIELD + 4..]
  }

  // The members once every header holds its own address.
  function Stamped(addr: nat, members: seq<Member>): seq<Member>
    decreases |members|
  {
    if members == [] then []
    else [StampedMember(addr, members[0])] + Stamped(After(addr, members[0]), members[1..])
  }

  function StampedMember(addr: nat, m: Member): Member {
    if |m.header| == BLOCK && addr < WORD then m.(header := Stamp(m.header, addr)) else m
  }

  // The stamp changes nothing before the header and nothing after it.
  lemma StampFrame(mem: seq<Byte>, addr: nat, after: nat)
    requires addr + BLOCK <= after <= |mem| <= WORD
    ensures StampAt(mem, addr)[..addr] == mem[..addr] && StampAt(mem, addr)[after..] == mem[after..]
  {
  }

  lemma {:induction false} ArchiveFits(mem: seq<Byte>, addr: nat, members: seq<Member>)
    requires ArchiveAt(mem, addr, members)
    ensures addr < |mem|
    decreases |members|
  {
  }

  function StampedMemory(mem: seq<Byte>, addr: nat, members: seq<Member>): (r: seq<Byte>)
    requires ArchiveAt(mem, addr, members) && |mem| <= WORD
    ensures |r| == |mem| && addr < |mem| && r[..addr] == mem[..addr]
    decreases |members|
  {
    if members == [] then mem
    else
      var after := After(addr, members[0]);
      ArchiveFits(mem, after, members[1..]);
      StampFrame(mem, addr, after);
      OnlyWhatFollows(mem, StampAt(mem, addr), after, members[1..]);
      var r := StampedMemory(StampAt(mem, addr), after, members[1..]);
      Within(r, StampAt(mem, addr), 0, addr, after);
      r
  }

  lemma SubSlice(s: seq<Byte>, base: nat, size: nat, from: nat, to: nat)
    requires base + size <= |s| && from <= to <= size
    ensures s[base..base + size][from..to] == s[base + from..base + to]
  {
    var t := s[base..base + size];
    assert forall i :: 0 <= i < to - from ==> t[from..to][i] == s[base + from..base + to][i];
  }

  lemma Within(r: seq<Byte>, s: seq<Byte>, from: nat, to: nat, end: nat)
    requires from <= to <= end <= |r| == |s| && r[..end] == s[..end]
    ensures r[from..to] == s[from..to]
  {
    assert r[from..to] == r[..end][from..to];
    assert s[from..to] == s[..end][from..to];
  }

  // What is at `addr` depends on the memory from there on.
  lemma OnlyMember(mem: seq<Byte>, mem': seq<Byte>, addr: nat, m: Member)
    requires MemberAt(mem, addr, m) && |mem'| == |mem| && mem'[addr..] == mem[addr..]
    ensures MemberAt(mem', addr, m) && mem'[After(addr, m)..] == mem[After(addr, m)..]
  {
    var size := |m.body|;
    var body := addr + BLOCK;
    assert mem[addr..body] == mem[addr..][..BLOCK] && mem'[addr..body] == mem'[addr..][..BLOCK];
    assert mem[body..body + size] == mem[addr..][BLOCK..BLOCK + size];
    assert mem'[body..body + size] == mem'[addr..][BLOCK..BLOCK + size];
    var after := After(addr, m) - addr;
    assert mem[After(addr, m)..] == mem[addr..][after..] && mem'[After(addr, m)..] == mem'[addr..][after..];
  }

  lemma {:induction false} OnlyWhatFollows(mem: seq<Byte>, mem': seq<Byte>, addr: nat, members: seq<Member>)
    requires ArchiveAt(mem, addr, members) && |mem'| == |mem| && addr <= |mem| && mem'[addr..] == mem[addr..]
    ensures ArchiveAt(mem', addr, members)
    decreases |members|
  {
    if members == [] {
      assert mem[addr] == mem[addr..][0] && mem'[addr] == mem'[addr..][0];
    } else {
      OnlyMember(mem, mem', addr, members[0]);
      OnlyWhatFollows(mem, mem', After(addr, members[0]), members[1..]);
    }
  }

  // A member whose header has been stamped, in any memory that agrees up to its end.
  lemma StampedMemberAt(mem: seq<Byte>, r: seq<Byte>, addr: nat, m: Member)
    requires MemberAt(mem, addr, m) && |r| == |mem| <= WORD
    requires r[..After(addr, m)] == StampAt(mem, addr)[..After(addr, m)]
    ensures MemberAt(r, addr, StampedMember(addr, m))
  {
    var s, body, after := StampAt(mem, addr), addr + BLOCK, After(addr, m);
    Within(r, s, addr, body, after);
    Within(r, s, body, body + |m.body|, after);
    StampFrame(mem, addr, body);
    assert s[body..body + |m.body|] == s[body..][..|m.body|];
    assert mem[body..body + |m.body|] == mem[body..][..|m.body|];
    StampHeader(mem, addr, m.header);
    StampKeepsFields(m, addr);
  }

  lemma StampHeader(mem: seq<Byte>, addr: nat, header: seq<Byte>)
    requires addr + BLOCK <= |mem| <= WORD && mem[addr..addr + BLOCK] == header
    ensures StampAt(mem, addr)[addr..addr + BLOCK] == Stamp(header, addr)
  {
    var s, h := StampAt(mem, addr)[addr..addr + BLOCK], Stamp(header, addr);
    forall i | 0 <= i < BLOCK ensures s[i] == h[i] {
      assert s[i] == StampAt(mem, addr)[addr + i] && header[i] == mem[addr + i];
    }
  }

  lemma StampKeepsFields(m: Member, addr: nat)
    requires ValidMember(m) && addr < WORD
    ensures ValidMember(m.(header := Stamp(m.header, addr))) && NameText(Stamp(m.header, addr)) == NameText(m.header)
  {
    var h := Stamp(m.header, addr);
    assert h[SIZE_FIELD..SIZE_FIELD + 11] == m.header[SIZE_FIELD..SIZE_FIELD + 11];
    ZeroIs(h, 2, ZeroFrom(m.header, 2));
  }

  lemma {:induction false} ZeroIs(s: seq<Byte>, at: nat, e: nat)
    requires at <= e < |s| && s[e] == 0 && forall i :: at <= i < e ==> s[i] != 0
    ensures ZeroFrom(s, at) == e
    decreases e - at
  {
    if at < e {
      ZeroIs(s, at + 1, e);
    }
  }

  // The archive is the same one but for the stamps.
  lemma {:induction false} StampedIsArchive(mem: seq<Byte>, addr: nat, members: seq<Member>)
    requires ArchiveAt(mem, addr, members) && |mem| <= WORD
    ensures ArchiveAt(StampedMemory(mem, addr, members), addr, Stamped(addr, members))
    decreases |members|
  {
    if members != [] {
      var m, rest := members[0], members[1..];
      var s, after := StampAt(mem, addr), After(addr, m);
      ArchiveFits(mem, after, rest);
      StampFrame(mem, addr, after);
      OnlyWhatFollows(mem, s, after, rest);
      StampedIsArchive(s, after, rest);
      StampedFirst(mem, StampedMemory(s, after, rest), addr, m, Stamped(after, rest));
    }
  }

  lemma StampedFirst(mem: seq<Byte>, r: seq<Byte>, addr: nat, m: Member, rest: seq<Member>)
    requires MemberAt(mem, addr, m) && |r| == |mem| <= WORD
    requires r[..After(addr, m)] == StampAt(mem, addr)[..After(addr, m)] && ArchiveAt(r, After(addr, m), rest)
    ensures ArchiveAt(r, addr, [StampedMember(addr, m)] + rest)
  {
    StampedMemberAt(mem, r, addr, m);
    StampedFields(m, addr);
    MemberFirst(r, addr, StampedMember(addr, m), rest);
  }

  lemma MemberFirst(mem: seq<Byte>, addr: nat, m: Member, rest: seq<Member>)
    requires MemberAt(mem, addr, m) && ArchiveAt(mem, After(addr, m), rest)
    ensures ArchiveAt(mem, addr, [m] + rest)
  {
    assert ([m] + rest)[1..] == rest;
  }

  // tar_parse finds each member once, in order, with the address of its body
  // and its size, counts them, and writes only the stamps.
  method Parse(mem: array<Byte>, start: nat, ghost members: seq<Member>) returns (count: nat, visits: seq<Visit>)
    requires mem.Length <= WORD && ArchiveAt(mem[..], start, members)
    modifies mem
    ensures AllHeaders(members) && visits == Visits(start, members) && count == |members|
    ensures mem[..] == old(StampedMemory(mem[..], start, members))
    ensures ArchiveAt(mem[..], start, Stamped(start, members))
  {
    HeadersOf(mem[..], start, members);
    StampedIsArchive(mem[..], start, members);
    NameOf(mem[..], start, members);
    ghost var rest := members;
    var addr: nat := start;
    count, visits := 0, [];
    while mem[addr] != 0
      invariant Walking(mem[..], addr, rest, old(StampedMemory(mem[..], start, members)))
      invariant Visited(visits, addr, rest, Visits(start, members)) && count + |rest| == |members|
      decreases |rest|
    {
      var name, isDir, size, next := ReadHeader(mem, addr, rest, old(StampedMemory(mem[..], start, members)));
      VisitFirst(visits, addr, rest, Visits(start, members));
      visits := visits + [Visit(addr, name, isDir, addr + BLOCK, size)];
      addr, count, rest := next, count + 1, rest[1..];
    }
  }

  // The rest of the archive is at `addr`, and stamping it gives `final`.
  ghost predicate Walking(mem: seq<Byte>, addr: nat, rest: seq<Member>, final: seq<Byte>) {
    && |mem| <= WORD && ArchiveAt(mem, addr, rest) && StampedMemory(mem, addr, rest) == final
    && addr < |mem| && (mem[addr] != 0 <==> rest != [])
  }

  ghost predicate Visited(visits: seq<Visit>, addr: nat, rest: seq<Member>, all: seq<Visit>) {
    AllHeaders(rest) && visits + Visits(addr, rest) == all
  }

  // The first byte of the name tells whether there is a member.
  lemma NameOf(mem: seq<Byte>, addr: nat, members: seq<Member>)
    requires ArchiveAt(mem, addr, members)
    ensures addr < |mem| && (mem[addr] != 0 <==> members != [])
  {
    if members != [] {
      assert mem[addr] == mem[addr..addr + BLOCK][0];
    }
  }

  predicate AllHeaders(members: seq<Member>) {
    forall i :: 0 <= i < |members| ==> |members[i].header| == BLOCK
  }

  predicate AllValid(members: seq<Member>) {
    forall i :: 0 <= i < |members| ==> ValidMember(members[i])
  }

  lemma {:induction false} HeadersOf(mem: seq<Byte>, addr: nat, members: seq<Member>)
    requires ArchiveAt(mem, addr, members)
    ensures AllHeaders(members) && AllValid(members)
    decreases |members|
  {
    if members != [] {
      HeadersOf(mem, After(addr, members[0]), members[1..]);
      assert forall i :: 1 <= i < |members| ==> members[i] == members[1..][i - 1];
    }
  }

  // One round of tar_parse: the header at `addr` is read, then stamped.
  method ReadHeader(mem: array<Byte>, addr: nat, ghost members: seq<Member>, ghost final: seq<Byte>)
    returns (name: seq<Byte>, isDir: bool, size: nat, next: nat)
    requires Walking(mem[..], addr, members, final) && members != []
    modifies mem
    ensures |members[0].header| == BLOCK && next == After(addr, members[0])
    ensures name == NameText(members[0].header)
    ensures isDir == (members[0].header[TYPE_FLAG] == 53) && size == |members[0].body|
    ensures Walking(mem[..], next, members[1..], final)
  {
    name := ReadName(mem, addr, members[0]);
    isDir, size := ReadFields(mem, addr, members[0]);
    WalkingOn(mem[..], addr, members, final);
    StampInPlace(mem, addr);
    next := NextHeader(addr, size);
  }

  // After the stamp the rest of the archive is behind the member.
  lemma WalkingOn(mem: seq<Byte>, addr: nat, members: seq<Member>, final: seq<Byte>)
    requires Walking(mem, addr, members, final) && members != []
    ensures addr + BLOCK <= |mem| && Walking(StampAt(mem, addr), After(addr, members[0]), members[1..], final)
  {
    var after := After(addr, members[0]);
    ArchiveFits(mem, after, members[1..]);
    StampFrame(mem, addr, after);
    OnlyWhatFollows(mem, StampAt(mem, addr), after, members[1..]);
    NameOf(StampAt(mem, addr), after, members[1..]);
  }

  lemma VisitFirst(done: seq<Visit>, addr: nat, members: seq<Member>, all: seq<Visit>)
    requires Visited(done, addr, members, all) && members != []
    ensures Visited(done + [VisitOf(addr, members[0])], After(addr, members[0]), members[1..], all)
  {
  }

  // The text at header->name + 2, which vfs_make_node is given.
  method ReadName(mem: array<Byte>, addr: nat, ghost m: Member) returns (name: seq<Byte>)
    requires MemberAt(mem[..], addr, m)
    ensures name == NameText(m.header)
  {
    ghost var h := mem[..][addr..addr + BLOCK];
    name := [];
    var i := 2;
    while mem[addr + i] != 0
      invariant 2 <= i <= ZeroFrom(h, 2) && name == h[2..i]
      decreases BLOCK - i
    {
      assert mem[addr + i] == h[i];
      name := name + [mem[addr + i]];
      i := i + 1;
    }
    assert mem[addr + i] == h[i];
  }

  method ReadFields(mem: array<Byte>, addr: nat, ghost m: Member) returns (isDir: bool, size: nat)
    requires MemberAt(mem[..], addr, m)
    ensures isDir == (m.header[TYPE_FLAG] == 53) && size == |m.body|
  {
    ghost var h := mem[..][addr..addr + BLOCK];
    assert h[TYPE_FLAG] == mem[addr + TYPE_FLAG];
    isDir := mem[addr + TYPE_FLAG] == 53;
    SubSlice(mem[..], addr, BLOCK, SIZE_FIELD, SIZE_FIELD + 11);
    SubSlice(mem[..], addr + SIZE_FIELD, 12, 0, 11);
    var field := mem[addr + SIZE_FIELD..addr + SIZE_FIELD + 12];
    assert field == mem[..][addr + SIZE_FIELD..addr + SIZE_FIELD + 12];
    assert field[..11] == field[0..11];
    size := GetSize(field);
  }

  method StampInPlace(mem: array<Byte>, addr: nat)
    requires addr + BLOCK <= mem.Length <= WORD
    modifies mem
    ensures mem[..] == StampAt(old(mem[..]), addr)
  {
    var bytes := Bytes32(addr);
    mem[addr + OFFSET_FIELD] := bytes[0];
    mem[addr + OFFSET_FIELD + 1] := bytes[1];
    mem[addr + OFFSET_FIELD + 2] := bytes[2];
    mem[addr + OFFSET_FIELD + 3] := bytes[3];
  }

  // Lines 102 to 104: past the header and the padded body.
  function NextHeader(addr: nat, size: nat): (next: nat)
    ensures next == addr + BLOCK + Padded(size)
  {
    addr + (size / BLOCK + 1) * BLOCK + if size % BLOCK != 0 then BLOCK else 0
  }

  lemma StampedFields(m: Member, addr: nat)
    requires ValidMember(m)
    ensures var s := StampedMember(addr, m);
      |s.header| == BLOCK && After(addr, s) == After(addr, m) && VisitOf(addr, s) == VisitOf(addr, m)
  {
    if addr < WORD {
      StampKeepsFields(m, addr);
      assert Stamp(m.header, addr)[TYPE_FLAG] == m.header[TYPE_FLAG];
    }
  }

  lemma VisitsCons(addr: nat, m: Member, rest: seq<Member>)
    requires |m.header| == BLOCK && AllHeaders(rest)
    ensures AllHeaders([m] + rest) && Visits(addr, [m] + rest) == [VisitOf(addr, m)] + Visits(After(addr, m), rest)
  {
    assert ([m] + rest)[1..] == rest;
  }

  // Walking the stamped archive again visits the same.
  lemma {:induction false} SameVisits(addr: nat, members: seq<Member>)
    requires AllHeaders(members) && AllValid(members)
    ensures AllHeaders(Stamped(addr, members)) && Visits(addr, Stamped(addr, members)) == Visits(addr, members)
    decreases |members|
  {
    if members != [] {
      var m, after := members[0], After(addr, members[0]);
      SameVisits(after, members[1..]);
      StampedFields(m, addr);
      VisitsCons(addr, StampedMember(addr, m), Stamped(after, members[1..]));
    }
  }

  // ----- reading a file -----

  // How many bytes initrd_read copies: offset + size is a 32-bit sum.
  function ReadCount(fileSize: nat, offset: nat, size: nat): nat {
    if offset >= fileSize then 0
    else if (offset + size) % WORD > fileSize then fileSize - offset
    else size
  }

  // The read is cut at the end of the file exactly if the sum does not wrap
  // around. From the end of the file on nothing is read.
  lemma ReadIsCutIff(fileSize: nat, offset: nat, size: nat)
    requires fileSize < WORD && offset < WORD && size < WORD
    ensures offset < fileSize ==>
      (ReadCount(fileSize, offset, size) == (if size < fileSize - offset then size else fileSize - offset) <==> offset + size < WORD)
    ensures offset >= fileSize ==> ReadCount(fileSize, offset, size) == 0
    // Past 2^32 the size asked for is read.
    ensures offset < fileSize && offset + size >= WORD ==> ReadCount(fileSize, offset, size) == size
  {
    if offset < fileSize && offset + size >= WORD {
      assert (offset + size) % WORD == offset + size - WORD;
    }
  }

  method InitrdRead(mem: array<Byte>, file: Visit, offset: nat, size: nat, buffer: array<Byte>) returns (count: nat)
    requires offset < WORD && size < WORD && buffer != mem
    requires ReadCount(file.size, offset, size) <= buffer.Length
    requires offset < file.size ==> file.inode + offset + ReadCount(file.size, offset, size) <= mem.Length
    modifies buffer
    ensures count == ReadCount(file.size, offset, size)
    ensures count > 0 ==> buffer[..count] == mem[file.inode + offset..file.inode + offset + count]
    ensures buffer[count..] == old(buffer[count..])
  {
    if offset >= file.size {
      return 0;
    }
    count := size;
    if (offset + size) % WORD > file.size {
      count := file.size - offset;
    }
    Memcpy(buffer, 0, mem, file.inode + offset, count);
  }

  // A read within a member is a slice of its body.
  lemma ReadOfMember(mem: seq<Byte>, addr: nat, m: Member, offset: nat, count: nat)
    requires MemberAt(mem, addr, m) && offset + count <= |m.body|
    ensures mem[addr + BLOCK + offset..addr + BLOCK + offset + count] == m.body[offset..offset + count]
  {
    SubSlice(mem, addr + BLOCK, |m.body|, offset, offset + count);
  }
}
