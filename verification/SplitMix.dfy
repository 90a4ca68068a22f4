/** The fixture generator of benches/indexer_bench.rs, on 64-bit words with wrapping arithmetic. */
module SplitMix {

  const WORDS: int := 0x1_0000_0000_0000_0000
  const GAMMA: int := 0x9E37_79B9_7F4A_7C15
  const MIX1: int := 0xBF58_476D_1CE4_E5B9
  const MIX2: int := 0x94D0_49BB_1331_11EB

  // Multiplicative inverses of the three odd constants modulo 2^64.
  const GAMMA_INVERSE: int := 0xF1DE_83E1_9937_733D
  const MIX1_INVERSE: int := 0x96DE_1B17_3F11_9089
  const MIX2_INVERSE: int := 0x3196_42B2_D24D_8EC3

  type Word = n: nat | n < WORDS

  // ----- bitwise operations on naturals -----

  function Bit(a: nat, i: nat): bool {
    if i == 0 then a % 2 == 1 else Bit(a / 2, i - 1)
  }

  function Xor(a: nat, b: nat): nat {
    if a == 0 && b == 0 then 0
    else 2 * Xor(a / 2, b / 2) + (if a % 2 != b % 2 then 1 else 0)
  }

  /** Exclusive or works bit by bit. */
  lemma {:induction false} XorBits(a: nat, b: nat, i: nat)
    ensures Bit(Xor(a, b), i) == (Bit(a, i) != Bit(b, i))
    decreases i
  {
    if i > 0 {
      XorHalf(a, b);
      XorBits(a / 2, b / 2, i - 1);
    }
  }

  lemma {:induction false} XorHalf(a: nat, b: nat)
    ensures Xor(a, b) / 2 == Xor(a / 2, b / 2)
    ensures Xor(a, b) % 2 == if a % 2 != b % 2 then 1 else 0
  {
  }

  function Pow2(k: nat): nat { if k == 0 then 1 else 2 * Pow2(k - 1) }

  /** `a >> k` */
  function ShiftRight(a: nat, k: nat): nat { if k == 0 then a else ShiftRight(a / 2, k - 1) }

  lemma {:induction false} ShiftDrops(a: nat, k: nat, i: nat)
    ensures Bit(ShiftRight(a, k), i) == Bit(a, i + k)
  {
    if k > 0 {
      ShiftDrops(a / 2, k - 1, i);
    }
  }

  lemma {:induction false} ShiftHalf(a: nat, k: nat)
    ensures ShiftRight(a, k) / 2 == ShiftRight(a / 2, k)
    ensures ShiftRight(a, k + 1) == ShiftRight(a / 2, k)
    ensures ShiftRight(a, k) <= a
  {
    if k > 0 { ShiftHalf(a / 2, k - 1); }
  }

  /** `z ^ (z >> k)` */
  function XorShift(z: nat, k: nat): nat { Xor(z, ShiftRight(z, k)) }

  /** Recovers `z` from its high end down. */
  function UnXorShift(y: nat, k: nat): nat
    requires k > 0
  {
    if y == 0 then 0
    else
      var h := UnXorShift(y / 2, k);
      2 * h + (if y % 2 != ShiftRight(h, k - 1) % 2 then 1 else 0)
  }

  lemma {:induction false} XorShiftHalf(z: nat, k: nat)
    requires k > 0
    ensures XorShift(z, k) / 2 == XorShift(z / 2, k)
    ensures XorShift(z, k) % 2 == if z % 2 != ShiftRight(z / 2, k - 1) % 2 then 1 else 0
  {
    XorHalf(z, ShiftRight(z, k));
    ShiftHalf(z, k);
  }

  lemma {:induction false} XorShiftZero(z: nat, k: nat)
    requires k > 0 && XorShift(z, k) == 0
    ensures z == 0
  {
    if z > 0 {
      XorShiftHalf(z, k);
      XorShiftZero(z / 2, k);
      ShiftZero(k - 1);
    }
  }

  lemma {:induction false} ShiftZero(k: nat)
    ensures ShiftRight(0, k) == 0
  {
    if k > 0 { ShiftZero(k - 1); }
  }

  lemma {:induction false} UndoXorShift(z: nat, k: nat)
    requires k > 0
    ensures UnXorShift(XorShift(z, k), k) == z
  {
    var y := XorShift(z, k);
    if y == 0 {
      XorShiftZero(z, k);
    } else {
      if z == 0 { ShiftZero(k); }
      XorShiftHalf(z, k);
      UndoXorShift(z / 2, k);
    }
  }

  lemma {:induction false} RedoXorShift(y: nat, k: nat)
    requires k > 0
    ensures XorShift(UnXorShift(y, k), k) == y
  {
    if y == 0 {
      ShiftZero(k);
    } else {
      var h, z := UnXorShift(y / 2, k), UnXorShift(y, k);
      RedoXorShift(y / 2, k);
      assert z / 2 == h;
      XorShiftHalf(z, k);
    }
  }

  lemma {:induction false} XorBound(a: nat, b: nat, n: nat)
    requires a < Pow2(n) && b < Pow2(n)
    ensures Xor(a, b) < Pow2(n)
  {
    if n > 0 { XorBound(a / 2, b / 2, n - 1); }
  }

  lemma {:induction false} UnXorShiftBound(y: nat, k: nat, n: nat)
    requires k > 0 && y < Pow2(n)
    ensures UnXorShift(y, k) < Pow2(n)
  {
    if y > 0 { UnXorShiftBound(y / 2, k, n - 1); }
  }

  lemma {:induction false} PowerOfWords()
    ensures Pow2(64) == WORDS
  {
    assert Pow2(8) == 0x100;
    assert Pow2(16) == 0x1_0000;
    assert Pow2(24) == 0x100_0000;
    assert Pow2(32) == 0x1_0000_0000;
    assert Pow2(40) == 0x100_0000_0000;
    assert Pow2(48) == 0x1_0000_0000_0000;
    assert Pow2(56) == 0x100_0000_0000_0000;
  }

  // ----- wrapping arithmetic -----

  function WrappingAdd(a: Word, b: Word): Word { (a + b) % WORDS }

  function WrappingMul(a: Word, b: Word): Word { (a * b) % WORDS }

  lemma {:induction false} ModUnique(x: int, q: int, r: int)
    requires x == q * WORDS + r && 0 <= r < WORDS
    ensures x % WORDS == r
  {
  }

  /** Multiplying by a unit and then by its inverse restores the word. */
  lemma {:induction false} MulInverse(z: Word, c: Word, i: Word, t: int)
    requires c * i == t * WORDS + 1
    ensures WrappingMul(WrappingMul(z, c), i) == z
  {
    var q, r := z * c / WORDS, WrappingMul(z, c);
    assert z * c == q * WORDS + r;
    assert r * i == z * (c * i) - q * WORDS * i == (z * t - q * i) * WORDS + z;
    ModUnique(r * i, z * t - q * i, z);
  }

  // ----- the generator -----

  lemma {:induction false} XorShiftIsWord(z: Word, k: nat)
    ensures XorShift(z, k) < WORDS
    ensures k > 0 ==> UnXorShift(z, k) < WORDS
  {
    PowerOfWords();
    ShiftHalf(z, k);
    XorBound(z, ShiftRight(z, k), 64);
    if k > 0 { UnXorShiftBound(z, k, 64); }
  }

  /** One `(z ^ (z >> k)).wrapping_mul(c)`. */
  function Round(z: Word, k: nat, c: Word): Word {
    XorShiftIsWord(z, k);
    WrappingMul(XorShift(z, k), c)
  }

  function Unround(y: Word, k: nat, i: Word): Word
    requires k > 0
  {
    XorShiftIsWord(WrappingMul(y, i), k);
    UnXorShift(WrappingMul(y, i), k)
  }

  /** The output mix applied to the advanced state. */
  function Mix(state: Word): Word {
    var z := Round(Round(state, 30, MIX1), 27, MIX2);
    XorShiftIsWord(z, 31);
    XorShift(z, 31)
  }

  function Unmix(output: Word): Word {
    XorShiftIsWord(output, 31);
    Unround(Unround(UnXorShift(output, 31), 27, MIX2_INVERSE), 30, MIX1_INVERSE)
  }

  class Generator {
    var state: Word

    constructor (seed: Word)
      ensures state == seed
    {
      state := seed;
    }

    /** `splitmix64`: advances the state and mixes it into one output. */
    method Next() returns (z: Word)
      modifies this
      ensures state == WrappingAdd(old(state), GAMMA) && z == Mix(state)
    {
      state := WrappingAdd(state, GAMMA);
      z := state;
      XorShiftIsWord(z, 30);
      z := WrappingMul(XorShift(z, 30), MIX1);
      XorShiftIsWord(z, 27);
      z := WrappingMul(XorShift(z, 27), MIX2);
      XorShiftIsWord(z, 31);
      z := XorShift(z, 31);
    }
  }

  lemma {:induction false} UndoRound(x: Word, k: nat, c: Word, i: Word, t: int)
    requires k > 0 && c * i == t * WORDS + 1
    ensures Unround(Round(x, k, c), k, i) == x
    ensures Round(Unround(x, k, c), k, i) == x
  {
    XorShiftIsWord(x, k);
    MulInverse(XorShift(x, k), c, i, t);
    UndoXorShift(x, k);
    RedoXorShift(WrappingMul(x, c), k);
    MulInverse(x, c, i, t);
  }

  lemma {:induction false} UndoRounds(x: Word)
    ensures Unround(Round(x, 30, MIX1), 30, MIX1_INVERSE) == x && Round(Unround(x, 30, MIX1_INVERSE), 30, MIX1) == x
    ensures Unround(Round(x, 27, MIX2), 27, MIX2_INVERSE) == x && Round(Unround(x, 27, MIX2_INVERSE), 27, MIX2) == x
  {
    UndoRound(x, 30, MIX1, MIX1_INVERSE, 0x70C3_BCA7_8F27_F46C);
    UndoRound(x, 30, MIX1_INVERSE, MIX1, 0x70C3_BCA7_8F27_F46C);
    UndoRound(x, 27, MIX2, MIX2_INVERSE, 0x1CD3_36ED_A85F_1453);
    UndoRound(x, 27, MIX2_INVERSE, MIX2, 0x1CD3_36ED_A85F_1453);
  }

  /** The mix is a bijection on 64-bit words, with an explicit inverse. */
  lemma {:induction false} MixIsBijective(w: Word)
    ensures Unmix(Mix(w)) == w
    ensures Mix(Unmix(w)) == w
  {
    UndoXorShift(Round(Round(w, 30, MIX1), 27, MIX2), 31);
    UndoRounds(Round(w, 30, MIX1));
    UndoRounds(w);
    XorShiftIsWord(w, 31);
    RedoXorShift(w, 31);
    var y := UnXorShift(w, 31);
    UndoRounds(y);
    UndoRounds(Unround(y, 27, MIX2_INVERSE));
  }

  /** The state after `n` calls. */
  function StateAfter(seed: Word, n: nat): Word {
    if n == 0 then seed else WrappingAdd(StateAfter(seed, n - 1), GAMMA)
  }

  lemma {:induction false} ModAdd(a: int, b: int)
    ensures (a % WORDS + b) % WORDS == (a + b) % WORDS
  {
    var q := a / WORDS;
    assert a == q * WORDS + a % WORDS;
    var r := (a % WORDS + b) % WORDS;
    var p := (a % WORDS + b) / WORDS;
    ModUnique(a + b, q + p, r);
  }

  /** The state advances by a fixed odd stride. */
  lemma {:induction false} StateIsStride(seed: Word, n: nat)
    ensures StateAfter(seed, n) == (seed + n * GAMMA) % WORDS
  {
    if n > 0 {
      StateIsStride(seed, n - 1);
      ModAdd(seed + (n - 1) * GAMMA, GAMMA);
      assert seed + (n - 1) * GAMMA + GAMMA == seed + n * GAMMA;
    }
  }

  lemma {:induction false} EqualResidues(a: int, b: int) returns (q: int)
    requires a % WORDS == b % WORDS
    ensures a - b == q * WORDS
  {
    q := a / WORDS - b / WORDS;
  }

  lemma {:induction false} ModShift(a: int, q: int)
    ensures (a + q * WORDS) % WORDS == a % WORDS
  {
    ModUnique(a + q * WORDS, a / WORDS + q, a % WORDS);
  }

  /** The stride is a unit: a multiple of it vanishes only with its factor. */
  lemma {:induction false} StrideCancels(d: int, q: int)
    requires d * GAMMA == q * WORDS
    ensures d % WORDS == 0
  {
    var t := GAMMA * GAMMA_INVERSE / WORDS;
    assert GAMMA * GAMMA_INVERSE == t * WORDS + 1;
    assert d * (GAMMA * GAMMA_INVERSE) == q * WORDS * GAMMA_INVERSE;
    assert d == (q * GAMMA_INVERSE - d * t) * WORDS;
    ModUnique(d, q * GAMMA_INVERSE - d * t, 0);
  }

  lemma {:induction false} EqualStates(seed: Word, i: nat, j: nat)
    requires StateAfter(seed, i) == StateAfter(seed, j)
    ensures (i - j) % WORDS == 0
  {
    StateIsStride(seed, i);
    StateIsStride(seed, j);
    var q := EqualResidues(seed + i * GAMMA, seed + j * GAMMA);
    assert (seed + i * GAMMA) - (seed + j * GAMMA) == (i - j) * GAMMA;
    StrideCancels(i - j, q);
  }

  lemma {:induction false} StatesReturn(seed: Word, i: nat, j: nat)
    requires (i - j) % WORDS == 0
    ensures StateAfter(seed, i) == StateAfter(seed, j)
  {
    StateIsStride(seed, i);
    StateIsStride(seed, j);
    var q := (i - j) / WORDS;
    assert i - j == q * WORDS;
    assert seed + i * GAMMA == seed + j * GAMMA + (q * GAMMA) * WORDS;
    ModShift(seed + j * GAMMA, q * GAMMA);
  }

  /** The n-th output, counting calls from 1. */
  function Output(seed: Word, n: nat): Word { Mix(StateAfter(seed, n)) }

  /** Outputs agree exactly when the call counts differ by a multiple of 2^64. */
  lemma {:induction false} OutputsAgreeIff(seed: Word, i: nat, j: nat)
    ensures Output(seed, i) == Output(seed, j) <==> (i - j) % WORDS == 0
  {
    if Output(seed, i) == Output(seed, j) {
      MixIsBijective(StateAfter(seed, i));
      MixIsBijective(StateAfter(seed, j));
      EqualStates(seed, i, j);
    }
    if (i - j) % WORDS == 0 {
      StatesReturn(seed, i, j);
    }
  }

  /** From any seed, the first 2^64 outputs are pairwise distinct. */
  lemma {:induction false} OutputsNeverRepeat(seed: Word, i: nat, j: nat)
    requires 0 < i < j <= WORDS
    ensures Output(seed, i) != Output(seed, j)
  {
    OutputsAgreeIff(seed, i, j);
    ModUnique(i - j, -1, WORDS - (j - i));
  }

  // ----- components of the fixture vectors -----

  /** `(z >> 40) as f32 / (1 << 23) as f32 - 1.0`, every value of which is exact in binary32. */
  function Component(z: Word): real {
    ShiftRight(z, 40) as real / 8388608.0 - 1.0
  }

  lemma {:induction false} ShiftBound(a: nat, k: nat, n: nat)
    requires a < Pow2(n + k)
    ensures ShiftRight(a, k) < Pow2(n)
  {
    if k > 0 { ShiftBound(a / 2, k - 1, n); }
  }

  lemma {:induction false} ShiftWhole(h: nat, l: nat, k: nat)
    requires l < Pow2(k)
    ensures ShiftRight(h * Pow2(k) + l, k) == h
  {
    if k > 0 {
      HalfWhole(h, l, Pow2(k - 1));
      ShiftWhole(h, l / 2, k - 1);
    }
  }

  lemma {:induction false} HalfWhole(h: nat, l: nat, p: nat)
    requires l < 2 * p
    ensures (h * (2 * p) + l) / 2 == h * p + l / 2 && l / 2 < p
  {
    assert h * (2 * p) == 2 * (h * p);
  }

  /** The component of a word is set by its upper 24 bits: steps of 2^-23 from -1 on. */
  lemma {:induction false} ComponentOf(h: nat, l: nat)
    requires h < 0x100_0000 && l < Pow2(40) && h * Pow2(40) + l < WORDS
    ensures 8388608.0 * (Component(h * Pow2(40) + l) + 1.0) == h as real
  {
    ShiftWhole(h, l, 40);
  }

  lemma {:induction false} ComponentRange(z: Word)
    ensures -1.0 <= Component(z) < 1.0
    ensures ShiftRight(z, 40) < 0x100_0000
  {
    PowerOfWords();
    ShiftBound(z, 40, 24);
    assert Pow2(8) == 0x100 && Pow2(16) == 0x1_0000 && Pow2(24) == 0x100_0000;
  }
}
