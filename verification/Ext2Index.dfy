// The choice of level and indices in ext2_get_block_offset
// (kernel/fs/ext2fs/ext2.c), on 32-bit unsigned words.
module Ext2Index {
  import opened Arithmetic
  import opened Common

  datatype Place =
    | Direct(i: nat)
    | Single(i: nat)
    | Double(i: nat, j: nat)
    | Triple(i: nat, j: nat, k: nat)
    | Beyond

  // Pointers per block: the block size is 1024 << log2_block_size_minus_10.
  function Pointers(log: nat): (p: nat)
    ensures p >= 256
  {
    if log == 0 then 256 else 2 * Pointers(log - 1)
  }

  // Pointers per block, and the products of it that the code forms.
  datatype Geometry = Geometry(p: nat, square: nat, cube: nat)

  function Exact(p: nat): Geometry {
    Geometry(p, p * p, p * p * p)
  }

  // uint32_t products wrap around.
  function Wrapped(p: nat): Geometry {
    Geometry(p, p * p % WORD, p * p % WORD * p % WORD)
  }

  // The level of a block, and its index within the level.
  datatype Level = Flat(x: nat) | One(x: nat) | Two(x: nat) | Three(x: nat) | Past

  // The branches of ext2_get_block_offset.
  function LevelOf(g: Geometry, n: nat): Level {
    if n < 12 then Flat(n)
    else if n < (12 + g.p) % WORD then One((n - 12) % WORD)
    else if n < (12 + g.p + g.square) % WORD then Two((n - 12 - g.p) % WORD)
    else if n < (12 + g.p + g.square + g.cube) % WORD then Three((n - 12 - g.p - g.square) % WORD)
    else Past
  }

  // The indices computed in each branch. The singly indirect one is in entries
  // here; the code scales it to bytes.
  function Indices(p: nat, square: nat, level: Level): Place
    requires p > 0 && (level.Three? ==> square > 0)
  {
    match level
    case Flat(x) => Direct(x)
    case One(x) => Single(x)
    case Two(x) => Double(Div(x, p), Mod(x, p))
    case Three(x) => Triple(Div(x, square), Div(Mod(x, square), p), Mod(Mod(x, square), p))
    case Past => Beyond
  }

  // The place ext2_get_block_offset computes, for `p` pointers per block.
  function PlaceOf(p: nat, n: nat): (place: Place)
    requires p > 0
    ensures n < 12 ==> place == Direct(n)
    ensures place.Direct? ==> place == Direct(n) && n < 12
  {
    var g := Wrapped(p);
    var level := LevelOf(g, n);
    if level.Three? && g.square == 0 then Beyond else Indices(p, g.square, level)
  }

  // ----- the places there are -----

  function Total(g: Geometry): nat {
    12 + g.p + g.square + g.cube
  }

  predicate InRange(p: nat, place: Place) {
    match place
    case Direct(i) => i < 12
    case Single(i) => i < p
    case Double(i, j) => i < p && j < p
    case Triple(i, j, k) => i < p && j < p && k < p
    case Beyond => false
  }

  // The number of the block at a place: blocks are numbered level by level,
  // and within a level with the last index fastest.
  function Number(g: Geometry, place: Place): nat {
    match place
    case Direct(i) => i
    case Single(i) => 12 + i
    case Double(i, j) => 12 + g.p + g.p * i + j
    case Triple(i, j, k) => 12 + g.p + g.square + g.square * i + (g.p * j + k)
    case Beyond => Total(g)
  }

  lemma Below(a: nat, b: nat, i: nat, x: nat)
    requires i < b && x < a
    ensures a * i + x < a * b
  {
    NextMultiple(a, i, b);
  }

  lemma AtMost(a: nat, b: nat, c: nat)
    requires a <= b
    ensures a * c <= b * c
  {
    assert b * c == a * c + (b - a) * c;
  }

  // With 4096-byte blocks no product wraps around.
  lemma NothingWraps(p: nat)
    requires 0 < p <= 1024
    ensures Wrapped(p) == Exact(p) && 0 < p * p <= 0x10_0000 && 0 < p * p * p <= 0x4000_0000
  {
    AtMost(p, 1024, p);
    AtMost(p * p, 0x10_0000, p);
    AtMost(1, p, p);
    AtMost(1, p * p, p);
  }

  // A level and index, and the first block of each level.
  predicate LevelInRange(g: Geometry, level: Level) {
    match level
    case Flat(x) => x < 12
    case One(x) => x < g.p
    case Two(x) => x < g.square
    case Three(x) => x < g.cube
    case Past => false
  }

  function LevelNumber(g: Geometry, level: Level): nat {
    match level
    case Flat(x) => x
    case One(x) => 12 + x
    case Two(x) => 12 + g.p + x
    case Three(x) => 12 + g.p + g.square + x
    case Past => Total(g)
  }

  // The level of a block when nothing wraps around.
  function PlainLevel(g: Geometry, n: nat): Level {
    if n < 12 then Flat(n)
    else if n < 12 + g.p then One(n - 12)
    else if n < 12 + g.p + g.square then Two(n - 12 - g.p)
    else if n < Total(g) then Three(n - 12 - g.p - g.square)
    else Past
  }

  lemma Small(x: int)
    ensures 0 <= x < WORD ==> x % WORD == x
  {
  }

  lemma LevelIsPlain(g: Geometry, n: nat)
    requires Total(g) < WORD
    ensures LevelOf(g, n) == PlainLevel(g, n)
  {
    Small(12 + g.p);
    Small(12 + g.p + g.square);
    Small(Total(g));
    Small(n - 12);
    Small(n - 12 - g.p);
    Small(n - 12 - g.p - g.square);
  }

  lemma LevelOfNumber(g: Geometry, level: Level)
    requires Total(g) < WORD && LevelInRange(g, level)
    ensures LevelNumber(g, level) < Total(g) && LevelOf(g, LevelNumber(g, level)) == level
  {
    LevelIsPlain(g, LevelNumber(g, level));
  }

  lemma NumberOfLevel(g: Geometry, n: nat)
    requires Total(g) < WORD
    ensures n < Total(g) ==> LevelInRange(g, LevelOf(g, n)) && LevelNumber(g, LevelOf(g, n)) == n
    ensures n >= Total(g) ==> LevelOf(g, n) == Past
  {
    LevelIsPlain(g, n);
  }

  // The index within the level of the indices of a place.
  function Flatten(p: nat, square: nat, place: Place): Level {
    match place
    case Direct(i) => Flat(i)
    case Single(i) => One(i)
    case Double(i, j) => Two(p * i + j)
    case Triple(i, j, k) => Three(square * i + (p * j + k))
    case Beyond => Past
  }

  lemma FlattenIndices(p: nat, level: Level)
    requires p > 0 && p * p > 0 && LevelInRange(Exact(p), level)
    ensures var place := Indices(p, p * p, level); InRange(p, place) && Flatten(p, p * p, place) == level
  {
    match level
    case Flat(x) =>
    case One(x) =>
    case Two(x) =>
      var i, j := DivIsSome(x, p);
      NextMultiple(p, p, i);
    case Three(x) =>
      var i, rest := DivIsSome(x, p * p);
      NextMultiple(p * p, p, i);
      var j, k := DivIsSome(rest, p);
      NextMultiple(p, p, j);
  }

  lemma IndicesFlatten(p: nat, place: Place)
    requires p > 0 && p * p > 0 && InRange(p, place)
    ensures var level := Flatten(p, p * p, place); LevelInRange(Exact(p), level) && Indices(p, p * p, level) == place
  {
    match place
    case Direct(i) =>
    case Single(i) =>
    case Double(i, j) =>
      Below(p, p, i, j);
      DivIs(p * i + j, p, i, j);
    case Triple(i, j, k) =>
      TripleIndices(p, p * p, i, j, k);
  }

  lemma TripleIndices(p: nat, square: nat, i: nat, j: nat, k: nat)
    requires i < p && j < p && k < p && square == p * p
    ensures square * i + (p * j + k) < square * p && square > 0
    ensures Indices(p, square, Three(square * i + (p * j + k))) == Triple(i, j, k)
  {
    var rest := p * j + k;
    Below(p, p, j, k);
    Below(square, p, i, rest);
    ThreeIs(p, square, square * i + rest, i, rest, j, k);
  }

  lemma ThreeIs(p: nat, square: nat, x: nat, i: nat, rest: nat, j: nat, k: nat)
    requires x == square * i + rest && rest < square && rest == p * j + k && k < p
    ensures Indices(p, square, Three(x)) == Triple(i, j, k)
  {
    DivIs(x, square, i, rest);
    DivIs(rest, p, j, k);
  }

  lemma NumberIsLevelNumber(p: nat, place: Place)
    ensures Number(Exact(p), place) == LevelNumber(Exact(p), Flatten(p, p * p, place))
  {
  }

  // Every place is found from its number.
  lemma LocateNumber(p: nat, place: Place)
    requires 0 < p <= 1024 && InRange(p, place)
    ensures Number(Exact(p), place) < Total(Exact(p)) && PlaceOf(p, Number(Exact(p), place)) == place
  {
    NothingWraps(p);
    IndicesFlatten(p, place);
    NumberIsLevelNumber(p, place);
    LevelOfNumber(Exact(p), Flatten(p, p * p, place));
  }

  lemma SinglePlace(p: nat, n: nat)
    requires 0 < p <= 1024 && 12 <= n < 12 + p
    ensures PlaceOf(p, n) == Single(n - 12)
  {
    NothingWraps(p);
    LevelOfNumber(Exact(p), One(n - 12));
  }

  // Every block number below the total has a place, and is its number; the
  // others have none.
  lemma NumberLocate(p: nat, n: nat)
    requires 0 < p <= 1024
    ensures n < Total(Exact(p)) ==> InRange(p, PlaceOf(p, n)) && Number(Exact(p), PlaceOf(p, n)) == n
    ensures n >= Total(Exact(p)) ==> PlaceOf(p, n) == Beyond
  {
    NothingWraps(p);
    var level := LevelOf(Exact(p), n);
    NumberOfLevel(Exact(p), n);
    if n < Total(Exact(p)) {
      FlattenIndices(p, level);
      NumberIsLevelNumber(p, Indices(p, p * p, level));
    }
  }

  // ----- larger blocks -----

  function TrueLevel(p: nat, n: nat): Level {
    PlainLevel(Exact(p), n)
  }

  function TruePlace(p: nat, n: nat): (place: Place)
    requires p > 0
    ensures n < 12 ==> place == Direct(n)
    ensures 12 <= n < 12 + p ==> place == Single(n - 12)
    ensures place.Direct? ==> place.i < 12
  {
    if TrueLevel(p, n).Three? && p * p == 0 then Beyond else Indices(p, p * p, TrueLevel(p, n))
  }

  // For blocks of any size the true place of a block has its number.
  lemma TruePlaceNumber(p: nat, n: nat)
    requires p > 0
    ensures n < Total(Exact(p)) ==> InRange(p, TruePlace(p, n)) && Number(Exact(p), TruePlace(p, n)) == n
    ensures n >= Total(Exact(p)) ==> TruePlace(p, n) == Beyond
  {
    AtMost(1, p, p);
    if n < Total(Exact(p)) {
      FlattenIndices(p, TrueLevel(p, n));
      NumberIsLevelNumber(p, TruePlace(p, n));
    }
  }

  lemma TruePlaceOf(p: nat, place: Place)
    requires p > 0 && InRange(p, place)
    ensures TruePlace(p, Number(Exact(p), place)) == place
  {
    AtMost(1, p, p);
    IndicesFlatten(p, place);
    NumberIsLevelNumber(p, place);
    PlainLevelOfNumber(Exact(p), Flatten(p, p * p, place));
  }

  lemma PlainLevelOfNumber(g: Geometry, level: Level)
    requires LevelInRange(g, level)
    ensures PlainLevel(g, LevelNumber(g, level)) == level
  {
  }

  lemma {:induction false} PointersGrow(log: nat, more: nat)
    ensures Pointers(log) <= Pointers(log + more)
  {
    if more > 0 {
      PointersGrow(log, more - 1);
    }
  }

  lemma {:induction false} PointersFactor(log: nat) returns (t: nat)
    requires log >= 3
    ensures Pointers(log) == 2048 * t && t > 0
  {
    if log == 3 {
      t := 1;
    } else {
      t := PointersFactor(log - 1);
      t := 2 * t;
    }
  }

  lemma CubeVanishes(p: nat, t: nat)
    requires p == 2048 * t
    ensures Wrapped(p).cube == 0
  {
    var q := p * p / WORD;
    DivMod(p * p, WORD);
    assert p * p == 0x40_0000 * (t * t);
    assert p * p * p == WORD * (2 * (t * t * t));
    assert p * p % WORD * p == p * p * p - WORD * q * p == WORD * (2 * (t * t * t) - q * p);
    Quotient(p * p % WORD * p, WORD, 2 * (t * t * t) - q * p, 0);
  }

  // The 32-bit arithmetic finds the level of every block exactly for block
  // sizes up to 4096. For the larger ones no triply indirect block is found.
  lemma LevelsRightIff(log: nat)
    requires log <= 21
    ensures var p := Pointers(log); (forall n :: LevelOf(Wrapped(p), n) == TrueLevel(p, n)) <==> log <= 2
  {
    if log <= 2 {
      SmallLevelsRight(log);
    } else {
      LargeLevelsWrong(log);
    }
  }

  lemma SmallLevelsRight(log: nat)
    requires log <= 2
    ensures forall n :: LevelOf(Wrapped(Pointers(log)), n) == TrueLevel(Pointers(log), n)
  {
    PointersGrow(log, 2 - log);
    NothingWraps(Pointers(log));
    ExactLevels(Pointers(log), Exact(Pointers(log)));
  }

  lemma ExactLevels(p: nat, g: Geometry)
    requires g == Exact(p) && Total(g) < WORD
    ensures forall n :: LevelOf(g, n) == TrueLevel(p, n)
  {
    forall n: nat ensures LevelOf(g, n) == TrueLevel(p, n) {
      LevelIsPlain(g, n);
    }
  }

  lemma LargeLevelsWrong(log: nat)
    requires 3 <= log <= 21
    ensures var p := Pointers(log); LevelOf(Wrapped(p), 12 + p + p * p) == Past && TrueLevel(p, 12 + p + p * p) == Three(0)
  {
    PointersBound(log);
    var t := PointersFactor(log);
    CubeVanishes(Pointers(log), t);
    FirstTripleIsPast(Pointers(log));
  }

  lemma PointersBound(log: nat)
    requires log <= 21
    ensures Pointers(log) <= 0x2000_0000
  {
    PointersGrow(log, 21 - log);
    Eightfold(0, 256);
    Eightfold(3, 0x800);
    Eightfold(6, 0x4000);
    Eightfold(9, 0x2_0000);
    Eightfold(12, 0x10_0000);
    Eightfold(15, 0x80_0000);
    Eightfold(18, 0x400_0000);
  }

  lemma Eightfold(log: nat, value: nat)
    requires Pointers(log) == value
    ensures Pointers(log + 3) == 8 * value
  {
    assert Pointers(log + 1) == 2 * value;
    assert Pointers(log + 2) == 4 * value;
  }

  lemma FirstTripleIsPast(p: nat)
    requires 0 < p <= 0x2000_0000 && Wrapped(p).cube == 0
    ensures LevelOf(Wrapped(p), 12 + p + p * p) == Past && TrueLevel(p, 12 + p + p * p) == Three(0)
  {
    AtMost(1, p, p);
    AtMost(1, p * p, p);
    AtMostItself(p * p);
    LevelIsPast(Wrapped(p), 12 + p + p * p);
    FirstTriple(Exact(p));
  }

  lemma AtMostItself(x: nat)
    ensures x % WORD <= x
  {
  }

  lemma LevelIsPast(g: Geometry, n: nat)
    requires g.cube == 0 && 12 + g.p + g.square <= n
    ensures LevelOf(g, n) == Past
  {
    AtMostItself(12 + g.p);
    AtMostItself(12 + g.p + g.square);
  }

  lemma FirstTriple(g: Geometry)
    requires g.cube > 0
    ensures PlainLevel(g, 12 + g.p + g.square) == Three(0)
  {
  }
}
