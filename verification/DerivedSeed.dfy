/**
 `derived_seed`: one seed per sensor from one run seed. The 64-bit mixing is the
 finaliser of splitmix64; here it is undone step by step. A C++ int is its 32-bit
 two's complement word.
 */
module DerivedSeed {

  /** The largest seed handed to a sensor. */
  const SEED_LIMIT: int := 2147483646

  /** Conversion of an int to std::uint64_t: sign extension. */
  function Widened(i: bv32): bv64 {
    if i < 0x8000_0000 then i as bv64 else i as bv64 | 0xFFFF_FFFF_0000_0000
  }

  function Spaced(x: bv64): bv64 { x * 0x9E3779B97F4A7C15 }

  function Plus(a: bv64, b: bv64): bv64 { a + b }

  function Start(runSeed: bv32, sensorIndex: bv32): bv64 {
    Plus(Widened(runSeed), Spaced(Widened(sensorIndex + 1)))
  }

  function Shake30(x: bv64): bv64 { x ^ (x >> 30) }

  function Shake27(x: bv64): bv64 { x ^ (x >> 27) }

  function Shake31(x: bv64): bv64 { x ^ (x >> 31) }

  function TimesFirst(x: bv64): bv64 { x * 0xBF58476D1CE4E5B9 }

  function TimesSecond(x: bv64): bv64 { x * 0x94D049BB133111EB }

  function Mix(x: bv64): bv64 {
    Shake31(TimesSecond(Shake27(TimesFirst(Shake30(x)))))
  }

  function Reduced(x: bv64): int {
    x as int % SEED_LIMIT + 1
  }

  function Seed(runSeed: bv32, sensorIndex: bv32): int {
    if runSeed == 0 then 0 else Reduced(Mix(Start(runSeed, sensorIndex)))
  }

  /**
   The assignments of the source, in place. The largest index would overflow before it
   is converted.
   */
  method Derive(runSeed: bv32, sensorIndex: bv32) returns (seed: int)
    requires sensorIndex != 0x7FFF_FFFF
    ensures seed == Seed(runSeed, sensorIndex)
  {
    if runSeed == 0 {
      return 0;
    }
    hide Widened, Spaced, Plus, Shake30, Shake27, Shake31, TimesFirst, TimesSecond;
    var x := Plus(Widened(runSeed), Spaced(Widened(sensorIndex + 1)));
    x := Shake30(x);
    x := TimesFirst(x);
    x := Shake27(x);
    x := TimesSecond(x);
    x := Shake31(x);
    seed := x as int % SEED_LIMIT + 1;
  }

  // ---------------------------------------------------------------------------
  // The mixing is a bijection
  // ---------------------------------------------------------------------------

  function Unshake30(y: bv64): bv64 { y ^ (y >> 30) ^ (y >> 60) }

  function Unshake27(y: bv64): bv64 { y ^ (y >> 27) ^ (y >> 54) }

  function Unshake31(y: bv64): bv64 { y ^ (y >> 31) ^ (y >> 62) }

  function OverFirst(y: bv64): bv64 { y * 0x96DE1B173F119089 }

  function OverSecond(y: bv64): bv64 { y * 0x319642B2D24D8EC3 }

  function Unspaced(y: bv64): bv64 { y * 0xF1DE83E19937733D }

  function Unmix(y: bv64): bv64 {
    Unshake30(OverFirst(Unshake27(OverSecond(Unshake31(y)))))
  }

  lemma ShakesInverted(x: bv64)
    ensures Unshake30(x ^ (x >> 30)) == x == Shake30(x ^ (x >> 30) ^ (x >> 60))
    ensures Unshake27(x ^ (x >> 27)) == x == Shake27(x ^ (x >> 27) ^ (x >> 54))
    ensures Unshake31(x ^ (x >> 31)) == x == Shake31(x ^ (x >> 31) ^ (x >> 62))
  {
  }

  lemma FactorsInverted(x: bv64)
    ensures OverFirst(x * 0xBF58476D1CE4E5B9) == x == TimesFirst(x * 0x96DE1B173F119089)
    ensures OverSecond(x * 0x94D049BB133111EB) == x == TimesSecond(x * 0x319642B2D24D8EC3)
    ensures Unspaced(x * 0x9E3779B97F4A7C15) == x
  {
  }

  lemma Shake30Undone(x: bv64)
    ensures Unshake30(Shake30(x)) == x
  {
    ShakesInverted(x);
    hide Unshake30;
  }

  lemma Unshake30Undone(x: bv64)
    ensures Shake30(Unshake30(x)) == x
  {
    ShakesInverted(x);
    hide Shake30;
  }

  lemma Shake27Undone(x: bv64)
    ensures Unshake27(Shake27(x)) == x
  {
    ShakesInverted(x);
    hide Unshake27;
  }

  lemma Unshake27Undone(x: bv64)
    ensures Shake27(Unshake27(x)) == x
  {
    ShakesInverted(x);
    hide Shake27;
  }

  lemma Shake31Undone(x: bv64)
    ensures Unshake31(Shake31(x)) == x
  {
    ShakesInverted(x);
    hide Unshake31;
  }

  lemma Unshake31Undone(x: bv64)
    ensures Shake31(Unshake31(x)) == x
  {
    ShakesInverted(x);
    hide Shake31;
  }

  lemma TimesFirstUndone(x: bv64)
    ensures OverFirst(TimesFirst(x)) == x
  {
    FactorsInverted(x);
    hide OverFirst;
  }

  lemma OverFirstUndone(x: bv64)
    ensures TimesFirst(OverFirst(x)) == x
  {
    FactorsInverted(x);
    hide TimesFirst;
  }

  lemma TimesSecondUndone(x: bv64)
    ensures OverSecond(TimesSecond(x)) == x
  {
    FactorsInverted(x);
    hide OverSecond;
  }

  lemma OverSecondUndone(x: bv64)
    ensures TimesSecond(OverSecond(x)) == x
  {
    FactorsInverted(x);
    hide TimesSecond;
  }

  lemma SpacedUndone(x: bv64)
    ensures Unspaced(Spaced(x)) == x
  {
    FactorsInverted(x);
    hide Unspaced;
  }

  lemma UnmixMix(x: bv64)
    ensures Unmix(Mix(x)) == x
  {
    hide Shake30, Shake27, Shake31, TimesFirst, TimesSecond;
    hide Unshake30, Unshake27, Unshake31, OverFirst, OverSecond;
    Shake30Undone(x);
    var a := Shake30(x);
    TimesFirstUndone(a);
    var b := TimesFirst(a);
    Shake27Undone(b);
    var c := Shake27(b);
    TimesSecondUndone(c);
    Shake31Undone(TimesSecond(c));
  }

  lemma MixUnmix(y: bv64)
    ensures Mix(Unmix(y)) == y
  {
    hide Shake30, Shake27, Shake31, TimesFirst, TimesSecond;
    hide Unshake30, Unshake27, Unshake31, OverFirst, OverSecond;
    Unshake31Undone(y);
    var a := Unshake31(y);
    OverSecondUndone(a);
    var b := OverSecond(a);
    Unshake27Undone(b);
    var c := Unshake27(b);
    OverFirstUndone(c);
    Unshake30Undone(OverFirst(c));
  }

  /** The mixing loses nothing, and reaches every state. */
  lemma MixIsABijection(x: bv64)
    ensures Unmix(Mix(x)) == x && Mix(Unmix(x)) == x
  {
    UnmixMix(x);
    MixUnmix(x);
  }

  // ---------------------------------------------------------------------------
  // Which seeds are apart
  // ---------------------------------------------------------------------------

  function Low(x: bv64): bv32 { (x & 0xFFFF_FFFF) as bv32 }

  lemma LowInverts(i: bv32)
    ensures Low(i as bv64) == i == Low(i as bv64 | 0xFFFF_FFFF_0000_0000)
  {
  }

  /** A conversion of an int keeps its value, modulo 2^64: a negative one is sign-extended. */
  lemma WidenedValue(i: bv32)
    ensures i < 0x8000_0000 ==> Widened(i) == i as bv64
    ensures i >= 0x8000_0000 ==> Plus(Widened(i), (0 - i) as bv64) == 0
  {
  }

  lemma WidenedUndone(i: bv32)
    ensures Low(Widened(i)) == i
  {
    LowInverts(i);
    hide Low;
  }

  lemma NextApart(i: bv32, j: bv32)
    requires i != j
    ensures i + 1 != j + 1
  {
  }

  function Minus(s: bv64, a: bv64): bv64 { s - a }

  lemma PlusInverts(a: bv64, b: bv64)
    ensures Minus(a + b, a) == b && Minus(a + b, b) == a
  {
  }

  lemma PlusUndone(a: bv64, b: bv64)
    ensures Minus(Plus(a, b), a) == b && Minus(Plus(a, b), b) == a
  {
    PlusInverts(a, b);
    hide Minus;
  }

  lemma StartsApart(runSeed: bv32, otherRun: bv32, i: bv32, j: bv32)
    ensures i != j ==> Start(runSeed, i) != Start(runSeed, j)
    ensures runSeed != otherRun ==> Start(runSeed, i) != Start(otherRun, i)
  {
    hide Widened, Spaced, Unspaced, Low, Plus, Minus;
    var (a, b) := (Widened(i + 1), Widened(j + 1));
    WidenedUndone(i + 1);
    WidenedUndone(j + 1);
    WidenedUndone(runSeed);
    WidenedUndone(otherRun);
    SpacedUndone(a);
    SpacedUndone(b);
    PlusUndone(Widened(runSeed), Spaced(a));
    PlusUndone(Widened(runSeed), Spaced(b));
    PlusUndone(Widened(otherRun), Spaced(a));
    if i != j {
      NextApart(i, j);
    }
  }

  /** The 64-bit states of two sensors of a run differ, and so do those of two runs. */
  lemma StatesAreApart(runSeed: bv32, otherRun: bv32, i: bv32, j: bv32)
    ensures i != j ==> Mix(Start(runSeed, i)) != Mix(Start(runSeed, j))
    ensures runSeed != otherRun ==> Mix(Start(runSeed, i)) != Mix(Start(otherRun, i))
  {
    hide Mix, Unmix, Start;
    StartsApart(runSeed, otherRun, i, j);
    UnmixMix(Start(runSeed, i));
    UnmixMix(Start(runSeed, j));
    UnmixMix(Start(otherRun, i));
  }

  /** A seed is one a sensor accepts, and 0 only for the run seed that asks for a fresh instrument. */
  lemma SeedRange(runSeed: bv32, sensorIndex: bv32)
    ensures Seed(runSeed, sensorIndex) == 0 <==> runSeed == 0
    ensures runSeed != 0 ==> 1 <= Seed(runSeed, sensorIndex) <= SEED_LIMIT
  {
    hide Mix, Start;
  }

  lemma IntsApart(a: bv64, b: bv64)
    ensures a as int == b as int <==> a == b
  {
    assert (a as int) as bv64 == a && (b as int) as bv64 == b;
  }

  lemma SameRemainderIff(a: int, b: int)
    ensures a % SEED_LIMIT == b % SEED_LIMIT <==> exists n: int :: a - b == n * SEED_LIMIT
  {
    if a % SEED_LIMIT == b % SEED_LIMIT {
      assert a - b == (a / SEED_LIMIT - b / SEED_LIMIT) * SEED_LIMIT;
    }
    if n: int :| a - b == n * SEED_LIMIT {
      assert a % SEED_LIMIT == (b + n * SEED_LIMIT) % SEED_LIMIT == b % SEED_LIMIT;
    }
  }

  /**
   Two sensors of a run share a seed exactly when their states lie a non-zero multiple
   of the limit apart; the states themselves never coincide.
   */
  lemma SeedsCollideIff(runSeed: bv32, i: bv32, j: bv32)
    requires runSeed != 0 && i != j
    ensures Seed(runSeed, i) == Seed(runSeed, j) <==>
            exists n: int :: n != 0 && Mix(Start(runSeed, i)) as int - Mix(Start(runSeed, j)) as int == n * SEED_LIMIT
  {
    hide Mix, Start;
    var a, b := Mix(Start(runSeed, i)), Mix(Start(runSeed, j));
    StatesAreApart(runSeed, runSeed, i, j);
    IntsApart(a, b);
    SameRemainderIff(a as int, b as int);
  }

  // ---------------------------------------------------------------------------
  // Every seed has its share of the states
  // ---------------------------------------------------------------------------

  const STATES: int := 0x1_0000_0000_0000_0000

  /** The `n`-th of the mixed values that are reduced to `seed`, counted from 0. */
  function Value(seed: int, n: int): int { seed - 1 + n * SEED_LIMIT }

  /** How many there are. */
  function Share(seed: int): (n: int)
    requires 1 <= seed <= SEED_LIMIT
    ensures n == 8589934600 + (if seed <= 16 then 1 else 0)
    ensures Value(seed, n - 1) < STATES <= Value(seed, n)
  {
    (STATES - seed) / SEED_LIMIT + 1
  }

  lemma ReducedIff(v: int, seed: int)
    requires 0 <= v < STATES && 1 <= seed <= SEED_LIMIT
    ensures v % SEED_LIMIT + 1 == seed <==> exists n: nat :: n < Share(seed) && v == Value(seed, n)
  {
    if v % SEED_LIMIT + 1 == seed {
      var n: nat := v / SEED_LIMIT;
      assert v == Value(seed, n);
    }
  }

  lemma HighBitClear(x: bv64)
    requires x as int < 0x8000_0000_0000_0000
    ensures x < 0x8000_0000_0000_0000
  {
  }

  lemma Doubled(x: bv64)
    requires x < 0x8000_0000_0000_0000
    ensures (x << 1) as int == 2 * x as int && ((x << 1) | 1) as int == 2 * x as int + 1
  {
  }

  /** The word of a value, bit by bit. */
  function Word(v: int): (x: bv64)
    requires 0 <= v < STATES
    ensures x as int == v
  {
    if v == 0 then 0
    else
      var half := Word(v / 2);
      HighBitClear(half);
      Doubled(half);
      if v % 2 == 0 then half << 1 else (half << 1) | 1
  }

  lemma ValueInRange(seed: int, n: nat)
    requires 1 <= seed <= SEED_LIMIT && n < Share(seed)
    ensures 0 <= Value(seed, n) < STATES
  {
  }

  /** The mixed state as a number. */
  function Mixed(x: bv64): (v: int)
    ensures 0 <= v < STATES && Reduced(Mix(x)) == v % SEED_LIMIT + 1
  {
    hide Mix;
    Mix(x) as int
  }

  function StateBehind(seed: int, n: nat): bv64
    requires 1 <= seed <= SEED_LIMIT && n < Share(seed)
  {
    ValueInRange(seed, n);
    Unmix(Word(Value(seed, n)))
  }

  /** The states that are mixed and reduced to `seed`. */
  function StatesBehind(seed: int): (r: seq<bv64>)
    requires 1 <= seed <= SEED_LIMIT
    ensures |r| == Share(seed)
  {
    seq(Share(seed), n requires 0 <= n < Share(seed) => StateBehind(seed, n))
  }

  lemma StateBehindIff(seed: int, n: nat, x: bv64)
    requires 1 <= seed <= SEED_LIMIT && n < Share(seed)
    ensures Mixed(x) == Value(seed, n) <==> x == StateBehind(seed, n)
  {
    hide Mix, Unmix, Word, Share;
    ValueInRange(seed, n);
    var value := Word(Value(seed, n));
    MixUnmix(value);
    UnmixMix(x);
    IntsApart(Mix(x), value);
  }

  lemma ReducedFrom(seed: int, x: bv64)
    requires 1 <= seed <= SEED_LIMIT
    ensures Reduced(Mix(x)) == seed <==> exists n: nat :: n < Share(seed) && x == StateBehind(seed, n)
  {
    ReducedIff(Mixed(x), seed);
    hide Mix, Mixed, Share, Reduced, Value, StateBehind;
    forall n: nat | n < Share(seed) ensures Mixed(x) == Value(seed, n) <==> x == StateBehind(seed, n) {
      StateBehindIff(seed, n, x);
    }
  }

  lemma StatesDiffer(seed: int, m: nat, n: nat)
    requires 1 <= seed <= SEED_LIMIT && m < n < Share(seed)
    ensures StateBehind(seed, m) != StateBehind(seed, n)
  {
    hide Mix, Mixed, Share, StateBehind;
    StateBehindIff(seed, m, StateBehind(seed, m));
    StateBehindIff(seed, n, StateBehind(seed, n));
    assert Value(seed, m) < Value(seed, n);
  }

  /**
   The seeds share the 64-bit states evenly: each is reached from exactly its own
   states, all different, and no seed has more than one state more than another.
   */
  lemma SeedsAreBalanced(seed: int, x: bv64)
    requires 1 <= seed <= SEED_LIMIT
    ensures Reduced(Mix(x)) == seed <==> x in StatesBehind(seed)
    ensures forall m, n :: 0 <= m < n < |StatesBehind(seed)| ==> StatesBehind(seed)[m] != StatesBehind(seed)[n]
    ensures |StatesBehind(seed)| in {8589934600, 8589934601}
  {
    hide Mix, Reduced, StateBehind;
    ReducedFrom(seed, x);
    var states := StatesBehind(seed);
    forall n: nat | n < |states| ensures states[n] == StateBehind(seed, n) {
    }
    forall m, n | 0 <= m < n < |states| ensures states[m] != states[n] {
      StatesDiffer(seed, m, n);
    }
  }

  /**
   The header comment promises a distinct seed per sensor. It can fail: this run seed
   hands the GPS (0) and the barometer (2) the same one.
   */
  lemma SeedsCanCollide()
    ensures Seed(170397147, 0) == Seed(170397147, 2) == 1513271118
  {
    assert Mix(Start(170397147, 0)) == 5981726699281529939;
    assert Mix(Start(170397147, 2)) == 13150681198788363203;
  }
}
