/** What the numbers of the knapsack key are, in closed form: the seed, the modulus, the first guess at the
    multiplier and the weights (xsend/lib.c). */
module KeyLaws {
  import opened Machine
  import opened Digits
  import opened KnapsackKeys
  import opened NumberTheory

  // ----- The exclusive or -----

  lemma {:induction false} TwoPositive(i: nat)
    ensures Pow(2, i) >= 1
  {
    if i > 0 {
      TwoPositive(i - 1);
    }
  }

  /** The i-th bit of x. */
  function Bit(x: nat, i: nat): nat {
    TwoPositive(i);
    x / Pow(2, i) % 2
  }

  lemma BitShift(x: nat, i: nat)
    ensures Bit(x, i + 1) == Bit(x / 2, i) && Bit(x, 0) == x % 2
  {
    TwoPositive(i);
    TwoPositive(i + 1);
    var p := Pow(2, i);
    var q := x / 2 / p;
    Halved(x, p, q, x / 2 % p);
  }

  lemma Halved(x: nat, p: int, q: int, r: int)
    requires p >= 1 && 0 <= r < p && x / 2 == p * q + r
    ensures x / (2 * p) == q
  {
    MulAssoc(2, p, q);
    DivModUnique(x, 2 * p, q, 2 * r + x % 2);
  }

  /** A bit of x ^ y is set if and only if the bits of x and y differ. */
  lemma {:induction false} XorBit(x: nat, y: nat, bits: nat, i: nat)
    requires i < bits
    ensures Bit(Xor(x, y, bits), i) == 1 <==> Bit(x, i) != Bit(y, i)
    decreases bits
  {
    BitShift(x, if i > 0 then i - 1 else 0);
    BitShift(y, if i > 0 then i - 1 else 0);
    BitShift(Xor(x, y, bits), if i > 0 then i - 1 else 0);
    if i > 0 {
      XorBit(x / 2, y / 2, bits - 1, i - 1);
    }
  }

  lemma {:induction false} XorZero(x: nat, y: nat, bits: nat)
    requires x < Pow(2, bits) && y < Pow(2, bits)
    ensures Xor(x, y, bits) == 0 <==> x == y
  {
    if bits > 0 {
      XorZero(x / 2, y / 2, bits - 1);
    }
  }

  lemma Fifteen()
    ensures Pow(2, 15) == 32768
  {
    PowAdd(2, 3, 3);
    PowAdd(2, 6, 6);
    PowAdd(2, 12, 3);
  }

  /** A digit of the guess has the bits in which the random number and the byte of the key differ, and is
      zero exactly when they are equal. */
  lemma GuessDigit(key: Key, gen: Generator, i: nat, bit: nat)
    requires i < 4 && bit < 15
    ensures var draw, digit := gen(Seed(key), 12 + i), MultiplierDigit(key, gen, i);
      && digit < 32768 && (Bit(digit, bit) == 1 <==> Bit(draw, bit) != Bit(key[i], bit))
      && (digit == 0 <==> draw == key[i])
  {
    Fifteen();
    XorBit(gen(Seed(key), 12 + i), key[i], 15, bit);
    XorZero(gen(Seed(key), 12 + i), key[i], 15);
  }

  lemma GuessNext(key: Key, gen: Generator, i: nat)
    requires i < 4
    ensures MultiplierStart(key, gen, i + 1) == MultiplierStart(key, gen, i) * 32768 + MultiplierDigit(key, gen, i)
    ensures MultiplierStart(key, gen, 0) == 0
  {}

  /** The guess is its four digits, the first one drawn at the top. */
  lemma GuessIs(key: Key, gen: Generator)
    ensures MultiplierStart(key, gen, 4)
         == MultiplierDigit(key, gen, 0) * 0x2000_0000_0000 + MultiplierDigit(key, gen, 1) * 0x4000_0000
          + MultiplierDigit(key, gen, 2) * 0x8000 + MultiplierDigit(key, gen, 3)
  {
    hide MultiplierDigit;
    GuessNext(key, gen, 0);
    GuessNext(key, gen, 1);
    GuessNext(key, gen, 2);
    GuessNext(key, gen, 3);
  }

  // ----- The seed -----

  /** key[i] * .. * key[12] */
  function ProductFrom(key: Key, i: nat): nat
    requires i <= 13
    decreases 13 - i
  {
    if i == 13 then 1 else key[i] * ProductFrom(key, i + 1)
  }

  /** The indices from i on, each times the bytes after it. */
  function IndicesFrom(key: Key, i: nat): int
    requires i <= 13
    decreases 13 - i
  {
    if i == 13 then 0 else i * ProductFrom(key, i + 1) + IndicesFrom(key, i + 1)
  }

  lemma Regroup(s: int, k: int, i: int, p: int, t: int)
    ensures (s * k + i) * p + t == s * (k * p) + (i * p + t)
  {
    MulDistribute(s * k, i, p);
    MulAssoc(s, k, p);
  }

  lemma SeedNext(key: Key, i: nat)
    requires i < 13
    ensures Congruent(SeedAfter(key, i + 1), SeedAfter(key, i) * key[i] + i, 65536)
  {}

  lemma SamePlus(x: int, y: int, p: int, t: int)
    requires Congruent(x, y, 65536)
    ensures Congruent(x * p + t, y * p + t, 65536)
  {
    CongruentMul(x, y, p, p, 65536);
    CongruentAdd(x * p, y * p, t, t, 65536);
  }

  lemma Chain(x: int, y: int, z: int)
    requires Congruent(x, y, 65536) && Congruent(y, z, 65536)
    ensures Congruent(x, z, 65536)
  {}

  lemma OneByteMore(seed: int, s: int, s': int, k: int, i: int, p: int, t: int)
    requires Congruent(seed, s' * p + t, 65536) && Congruent(s', s * k + i, 65536)
    ensures Congruent(seed, s * (k * p) + (i * p + t), 65536)
  {
    hide Congruent;
    SamePlus(s', s * k + i, p, t);
    Regroup(s, k, i, p, t);
    Chain(seed, s' * p + t, (s * k + i) * p + t);
  }

  lemma {:induction false} SeedFrom(key: Key, i: nat)
    requires i <= 13
    ensures Congruent(SeedAfter(key, 13), SeedAfter(key, i) * ProductFrom(key, i) + IndicesFrom(key, i), 65536)
    decreases 13 - i
  {
    hide SeedAfter, Congruent;
    if i < 13 {
      SeedFrom(key, i + 1);
      var s, s', p, t := SeedAfter(key, i), SeedAfter(key, i + 1), ProductFrom(key, i + 1), IndicesFrom(key, i + 1);
      SeedNext(key, i);
      OneByteMore(SeedAfter(key, 13), s, s', key[i], i, p, t);
    } else {
      CongruentBy(SeedAfter(key, i), SeedAfter(key, i) * 1 + 0, 0, 65536);
    }
  }

  /** The seed: 123 times all bytes of the key, and each index times the bytes after it, in 16 bits. */
  lemma SeedIs(key: Key)
    ensures Seed(key) == (123 * ProductFrom(key, 0) + IndicesFrom(key, 0)) % 65536
  {
    hide ProductFrom, IndicesFrom;
    SeedFrom(key, 0);
    SmallMod(Seed(key), 65536);
  }

  // ----- The modulus -----

  /** The i-th piece of six bits: a byte of the key, the first two left out, and a random number. */
  function Piece(key: Key, gen: Generator, i: nat): nat
    requires i < 11
  {
    (key[i + 2] + gen(Seed(key), i + 1)) % 64
  }

  function PiecesFrom(key: Key, gen: Generator, i: nat): int
    requires i <= 11
    decreases 11 - i
  {
    if i == 11 then 0 else Times(Piece(key, gen, i), Pow(64, 10 - i)) + PiecesFrom(key, gen, i + 1)
  }

  lemma {:induction false} ModulusFrom(key: Key, gen: Generator, i: nat)
    requires i <= 11
    ensures Modulus(key, gen) == Times(ModulusAfter(key, gen, i), Pow(64, 11 - i)) + PiecesFrom(key, gen, i)
    decreases 11 - i
  {
    hide Seed;
    if i < 11 {
      ModulusFrom(key, gen, i + 1);
      var m, p := ModulusAfter(key, gen, i), Pow(64, 10 - i);
      assert ModulusAfter(key, gen, i + 1) == m * 64 + Piece(key, gen, i);
      MulDistribute(m * 64, Piece(key, gen, i), p);
      MulAssoc(m, 64, p);
    } else {
      assert Pow(64, 0) == 1;
    }
  }

  /** The modulus: three bits at 64^11, and eleven pieces at the powers of 64 below. */
  lemma ModulusIs(key: Key, gen: Generator)
    ensures Modulus(key, gen) == Times(4 + gen(Seed(key), 0) % 4, Pow(64, 11)) + PiecesFrom(key, gen, 0)
  {
    hide Seed, PiecesFrom;
    ModulusFrom(key, gen, 0);
  }

  // ----- The weights -----

  /** The weight of bit n of character p has that bit's place in a message of 15 bits for two characters,
      above 15 bits of which nine are noise. */
  lemma WeightIs(key: Key, gen: Generator, p: nat, n: nat)
    requires p < 6 && n < 7
    ensures Weight(key, gen, 7 * p + n)
         == Times(Pow(2, 15 * (p / 2) + 8 * (p % 2) + n), 32768) + gen(Seed(key), 17 + 2 * (7 * p + n)) % 512
  {
    hide Pow, Seed;
    assert (7 * p + n + 7) / 14 == p / 2 + p % 2;
  }
}
