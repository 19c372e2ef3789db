/** The numbers of the knapsack mail cipher (xsend/lib.c) as functions of the password key and the
    random sequence, and why deciphering undoes enciphering. */
module KnapsackKeys {
  import opened Machine
  import opened Digits
  import NumberTheory

  /** The thirteen bytes makekey prints: seven-bit characters. */
  type Key = k: seq<nat> | |k| == 13 && (forall i :: 0 <= i < 13 ==> k[i] < 128)
    witness seq(13, _ => 46)

  /** The n-th value rand() gives after srand(seed): any deterministic 15-bit generator. */
  type Generator = (nat, nat) -> Digit

  function Xor(x: nat, y: nat, bits: nat): (z: nat)
    ensures z < Pow(2, bits)
  {
    if bits == 0 then 0
    else (if x % 2 == y % 2 then 0 else 1) + 2 * Xor(x / 2, y / 2, bits - 1)
  }

  /** The unsigned 16-bit seed after the first i bytes of the key. */
  function SeedAfter(key: Key, i: nat): (seed: nat)
    requires i <= 13
    ensures seed < 65536
  {
    if i == 0 then 123 else (SeedAfter(key, i - 1) * key[i - 1] + i - 1) % 65536
  }

  function Seed(key: Key): nat {
    SeedAfter(key, 13)
  }

  /** The modulus after i of its eleven 6-bit pieces. */
  function ModulusAfter(key: Key, gen: Generator, i: nat): nat
    requires i <= 11
  {
    if i == 0 then 4 + gen(Seed(key), 0) % 4
    else ModulusAfter(key, gen, i - 1) * 64 + (key[i + 1] + gen(Seed(key), i)) % 64
  }

  function Modulus(key: Key, gen: Generator): nat {
    ModulusAfter(key, gen, 11)
  }

  /** The i-th digit, from the top, of the first guess at the multiplier. */
  function MultiplierDigit(key: Key, gen: Generator, i: nat): nat
    requires i < 4
  {
    Xor(gen(Seed(key), 12 + i), key[i], 15)
  }

  function MultiplierStart(key: Key, gen: Generator, i: nat): nat
    requires i <= 4
  {
    if i == 0 then 0 else MultiplierStart(key, gen, i - 1) * 32768 + MultiplierDigit(key, gen, i - 1)
  }

  /** The first number from x on that is prime to b. */
  function NextCoprime(b: nat, x: nat): (y: nat)
    requires x < b && b > 2
    ensures x <= y < b && NumberTheory.Gcd(b, y) == 1
    ensures forall z :: x <= z < y ==> NumberTheory.Gcd(b, z) != 1
    decreases b - x
  {
    if NumberTheory.Gcd(b, x) == 1 then x
    else
      PredecessorCoprime(b);
      NextCoprime(b, x + 1)
  }

  lemma PredecessorCoprime(b: nat)
    requires b > 2
    ensures NumberTheory.Gcd(b, b - 1) == 1
  {
    NumberTheory.DivModUnique(b, b - 1, 1, 1);
    NumberTheory.DivModUnique(b - 1, 1, b - 1, 0);
    assert NumberTheory.Gcd(b, b - 1) == NumberTheory.Gcd(b - 1, 1) == NumberTheory.Gcd(1, 0);
  }

  /** The exponent of the i-th public weight: seven per character, one left out after every second
      group of seven, so that two characters fill fifteen bits. */
  function Exponent(i: nat): nat {
    i + (i + 7) / 14
  }

  function Noise(key: Key, gen: Generator, i: nat): (n: nat)
    ensures n <= 511
  {
    gen(Seed(key), 16 + 2 * i + 1) % 512
  }

  /** The superincreasing secret weight, with its noise. */
  function Weight(key: Key, gen: Generator, i: nat): int {
    Times(Pow(2, Exponent(i)), 32768) + Noise(key, gen, i)
  }

  /** What the weights of the bits of k, from bit n on, add up to. */
  function BitSum(w: seq<int>, group: nat, k: nat, n: nat): int
    requires 7 * group + 7 <= |w| && n <= 7
    decreases 7 - n
  {
    if k == 0 || n == 7 then 0
    else (if k % 2 == 1 then w[7 * group + n] else 0) + BitSum(w, group, k / 2, n + 1)
  }

  /** What the first i characters of a message add up to. */
  function MessageSum(w: seq<int>, s: seq<nat>, i: nat): int
    requires |w| == 42 && |s| == 6 && i <= 6
  {
    if i == 0 then 0 else MessageSum(w, s, i - 1) + BitSum(w, i - 1, s[i - 1] % 128, 0)
  }

  /** The public weights are the secret ones times the multiplier, modulo the modulus. */
  ghost predicate Public(a: seq<int>, w: seq<int>, x: int, b: int) {
    |a| == |w| == 42 && b > 0 && forall i :: 0 <= i < 42 ==> NumberTheory.Congruent(a[i], w[i] * x, b)
  }

  function Weights(key: Key, gen: Generator): seq<int> {
    seq(42, i requires 0 <= i < 42 => Weight(key, gen, i))
  }

  // ----- The size of the modulus -----

  lemma {:induction false} ModulusGrows(key: Key, gen: Generator, i: nat)
    requires i <= 11
    ensures Times(4, Pow(64, i)) <= ModulusAfter(key, gen, i) < Times(8, Pow(64, i))
  {
    if i > 0 {
      ModulusGrows(key, gen, i - 1);
      MulAssoc(4, 64, Pow(64, i - 1));
      MulAssoc(8, 64, Pow(64, i - 1));
    }
  }

  /** The modulus has 69 bits: five digits of 15 bits, and room for a message of 60 bits. */
  lemma ModulusRange(key: Key, gen: Generator)
    ensures 0x10_0000_0000_0000_0000 <= Modulus(key, gen) < 0x20_0000_0000_0000_0000
  {
    ModulusGrows(key, gen, 11);
    assert Pow(64, 1) == 64 && Pow(64, 2) == 0x1000 && Pow(64, 3) == 0x4_0000;
    assert Pow(64, 5) == 64 * (64 * Pow(64, 3));
    assert Pow(64, 7) == 64 * (64 * Pow(64, 5));
    assert Pow(64, 9) == 64 * (64 * Pow(64, 7));
    assert Pow(64, 11) == 64 * (64 * Pow(64, 9));
  }

  lemma XorFifteen(x: nat, y: nat)
    ensures Xor(x, y, 15) < 32768
  {
    assert Pow(2, 5) == 32 && Pow(2, 10) == 32 * Pow(2, 5) && Pow(2, 15) == 32 * Pow(2, 10) by {
      assert Pow(2, 1) == 2 && Pow(2, 2) == 4 && Pow(2, 3) == 8 && Pow(2, 4) == 16;
      assert Pow(2, 6) == 64 && Pow(2, 7) == 128 && Pow(2, 8) == 256 && Pow(2, 9) == 512;
      assert Pow(2, 11) == 2048 && Pow(2, 12) == 4096 && Pow(2, 13) == 8192 && Pow(2, 14) == 16384;
    }
  }

  lemma {:induction false} MultiplierStartRange(key: Key, gen: Generator, i: nat)
    requires i <= 4
    ensures MultiplierStart(key, gen, i) < BasePow(i)
  {
    if i > 0 {
      MultiplierStartRange(key, gen, i - 1);
      XorFifteen(gen(Seed(key), 12 + i - 1), key[i - 1]);
    }
  }

  // ----- From the public message to the secret one -----

  lemma {:induction false} BitSumCongruent(a: seq<int>, w: seq<int>, x: int, b: int, group: nat, k: nat, n: nat)
    requires Public(a, w, x, b) && group < 6 && n <= 7
    ensures NumberTheory.Congruent(BitSum(a, group, k, n), BitSum(w, group, k, n) * x, b)
    decreases 7 - n
  {
    if k != 0 && n < 7 {
      BitSumCongruent(a, w, x, b, group, k / 2, n + 1);
      if k % 2 == 1 {
        var i := 7 * group + n;
        assert NumberTheory.Congruent(a[i], w[i] * x, b);
        CongruentSum(a[i], w[i], BitSum(a, group, k / 2, n + 1), BitSum(w, group, k / 2, n + 1), x, b);
      }
    }
  }

  lemma CongruentSum(a: int, w: int, a': int, w': int, x: int, b: int)
    requires b > 0 && NumberTheory.Congruent(a, w * x, b) && NumberTheory.Congruent(a', w' * x, b)
    ensures NumberTheory.Congruent(a + a', (w + w') * x, b)
  {
    MulDistribute(w, w', x);
    NumberTheory.CongruentAdd(a, w * x, a', w' * x, b);
  }

  lemma {:induction false} MessageCongruent(a: seq<int>, w: seq<int>, x: int, b: int, s: seq<nat>, i: nat)
    requires Public(a, w, x, b) && |s| == 6 && i <= 6
    ensures NumberTheory.Congruent(MessageSum(a, s, i), MessageSum(w, s, i) * x, b)
  {
    hide BitSum, NumberTheory.Congruent;
    if i == 0 {
      NumberTheory.CongruentBy(0, 0 * x, 0, b);
    } else {
      MessageCongruent(a, w, x, b, s, i - 1);
      BitSumCongruent(a, w, x, b, i - 1, s[i - 1] % 128, 0);
      CongruentSum(MessageSum(a, s, i - 1), MessageSum(w, s, i - 1),
                   BitSum(a, i - 1, s[i - 1] % 128, 0), BitSum(w, i - 1, s[i - 1] % 128, 0), x, b);
    }
  }

  // ----- The secret message -----

  /** The noise a message picks up. */
  function NoiseSum(key: Key, gen: Generator, group: nat, k: nat, n: nat): (sum: nat)
    requires n <= 7
    ensures sum <= 511 * (7 - n)
    decreases 7 - n
  {
    if k == 0 || n == 7 then 0
    else (if k % 2 == 1 then Noise(key, gen, 7 * group + n) else 0) + NoiseSum(key, gen, group, k / 2, n + 1)
  }

  function MessageNoise(key: Key, gen: Generator, s: seq<nat>, i: nat): (sum: nat)
    requires |s| == 6 && i <= 6
    ensures sum <= 3577 * i
  {
    if i == 0 then 0 else MessageNoise(key, gen, s, i - 1) + NoiseSum(key, gen, i - 1, s[i - 1] % 128, 0)
  }

  /** Within a group each weight is twice the one before it, so the bits of a character select the
      character itself, at the place of the group. */
  lemma {:induction false} CharacterPlace(key: Key, gen: Generator, group: nat, k: nat, n: nat)
    requires group < 6 && n <= 7 && k < Pow(2, 7 - n)
    ensures BitSum(Weights(key, gen), group, k, n)
         == Times(k, Times(Pow(2, Exponent(7 * group + n)), 32768)) + NoiseSum(key, gen, group, k, n)
    decreases 7 - n
  {
    hide Times, Pow, Noise;
    TimesZero(Times(Pow(2, Exponent(7 * group + n)), 32768));
    BitsOf(n);
    if k != 0 {
      CharacterPlace(key, gen, group, k / 2, n + 1);
      var i := 7 * group + n;
      var p := Times(Pow(2, Exponent(i)), 32768);
      WeightAt(key, gen, i);
      HalfTimes(k, p);
      if n < 6 {
        DoublePlace(i);
      } else {
        TimesZero(2 * p);
        TimesZero(Times(Pow(2, Exponent(i + 1)), 32768));
      }
    }
  }

  lemma WeightAt(key: Key, gen: Generator, i: nat)
    requires i < 42
    ensures Weights(key, gen)[i] == Times(Pow(2, Exponent(i)), 32768) + Noise(key, gen, i)
  {}

  lemma TimesZero(p: int)
    ensures Times(0, p) == 0
  {}

  lemma BitsOf(n: nat)
    requires n <= 7
    ensures if n == 7 then Pow(2, 7 - n) == 1 else Pow(2, 7 - n) == 2 * Pow(2, 7 - n - 1)
    ensures n == 6 ==> Pow(2, 7 - n) == 2
  {
    assert Pow(2, 0) == 1;
  }

  lemma DoublePlace(i: nat)
    requires i % 7 != 6
    ensures Times(Pow(2, Exponent(i + 1)), 32768) == 2 * Times(Pow(2, Exponent(i)), 32768)
  {
    hide Times;
    NextExponent(i);
    TimesDouble(Pow(2, Exponent(i)));
  }

  lemma NextExponent(i: nat)
    requires i % 7 != 6
    ensures Exponent(i + 1) == Exponent(i) + 1
  {
    var q, r := (i + 7) / 14, (i + 7) % 14;
    assert r < 13;
    NumberTheory.DivModUnique(i + 8, 14, q, r + 1);
  }

  lemma TimesDouble(p: int)
    ensures Times(2 * p, 32768) == 2 * Times(p, 32768)
  {
    MulAssoc(2, p, 32768);
  }

  lemma HalfTimes(k: nat, p: int)
    ensures Times(k, p) == (if k % 2 == 1 then p else 0) + Times(k / 2, 2 * p)
  {
    assert k == k % 2 + 2 * (k / 2);
    MulDistribute(k % 2, 2 * (k / 2), p);
    MulAssoc(k / 2, 2, p);
  }

  /** The places of the six characters: bits 0 and 8 of digits 1, 2 and 3. */
  lemma Places()
    ensures Times(Pow(2, Exponent(0)), 32768) == 0x8000 && Times(Pow(2, Exponent(7)), 32768) == 0x80_0000
    ensures Times(Pow(2, Exponent(14)), 32768) == 0x4000_0000 && Times(Pow(2, Exponent(21)), 32768) == 0x40_0000_0000
    ensures Times(Pow(2, Exponent(28)), 32768) == 0x2000_0000_0000
    ensures Times(Pow(2, Exponent(35)), 32768) == 0x20_0000_0000_0000
  {
    assert Pow(2, 0) == 1 && Pow(2, 1) == 2 && Pow(2, 2) == 4 && Pow(2, 3) == 8;
    assert Pow(2, 8) == 256 by {
      NumberTheory.PowAdd(2, 3, 3);
      NumberTheory.PowAdd(2, 6, 2);
    }
    assert Pow(2, 15) == 32768 by {
      NumberTheory.PowAdd(2, 3, 3);
      NumberTheory.PowAdd(2, 6, 1);
      NumberTheory.PowAdd(2, 8, 7);
    }
    NumberTheory.PowAdd(2, 15, 8);
    NumberTheory.PowAdd(2, 15, 15);
    NumberTheory.PowAdd(2, 30, 8);
  }

  /** The four digits of a secret message: the noise, and three pairs of characters. */
  function PlainDigits(key: Key, gen: Generator, s: seq<nat>): (d: seq<Digit>)
    requires |s| == 6
    ensures |d| == 4
  {
    [MessageNoise(key, gen, s, 6),
     s[0] % 128 + 256 * (s[1] % 128), s[2] % 128 + 256 * (s[3] % 128), s[4] % 128 + 256 * (s[5] % 128)]
  }

  lemma PlainMessage(key: Key, gen: Generator, s: seq<nat>)
    requires |s| == 6
    ensures MessageSum(Weights(key, gen), s, 6) == Val(PlainDigits(key, gen, s))
  {
    hide BitSum, NoiseSum, MessageSum, MessageNoise;
    var w := Weights(key, gen);
    assert Pow(2, 7) == 128 by {
      assert Pow(2, 1) == 2 && Pow(2, 2) == 4 && Pow(2, 3) == 8;
      NumberTheory.PowAdd(2, 3, 3);
      NumberTheory.PowAdd(2, 6, 1);
    }
    forall g: nat | g < 6
      ensures InPlace(key, gen, w, s, g)
    {
      CharacterPlace(key, gen, g, s[g] % 128, 0);
    }
    Places();
    SixCharacters(key, gen, w, s);
    var d := PlainDigits(key, gen, s);
    FourDigits(d[0], d[1], d[2], d[3]);
  }

  /** Character g stands at its place, with noise beside it. */
  ghost predicate InPlace(key: Key, gen: Generator, w: seq<int>, s: seq<nat>, g: nat)
    requires |w| == 42 && |s| == 6 && g < 6
  {
    BitSum(w, g, s[g] % 128, 0)
    == Times(s[g] % 128, Times(Pow(2, Exponent(7 * g)), 32768)) + NoiseSum(key, gen, g, s[g] % 128, 0)
  }

  lemma SixCharacters(key: Key, gen: Generator, w: seq<int>, s: seq<nat>)
    requires |w| == 42 && |s| == 6
    requires forall g: nat :: g < 6 ==> InPlace(key, gen, w, s, g)
    ensures MessageSum(w, s, 6) == MessageNoise(key, gen, s, 6)
      + 0x8000 * (s[0] % 128) + 0x80_0000 * (s[1] % 128) + 0x4000_0000 * (s[2] % 128)
      + 0x40_0000_0000 * (s[3] % 128) + 0x2000_0000_0000 * (s[4] % 128) + 0x20_0000_0000_0000 * (s[5] % 128)
  {
    hide BitSum, NoiseSum, Pow, Exponent;
    Places();
    assert InPlace(key, gen, w, s, 0) && InPlace(key, gen, w, s, 1) && InPlace(key, gen, w, s, 2);
    assert InPlace(key, gen, w, s, 3) && InPlace(key, gen, w, s, 4) && InPlace(key, gen, w, s, 5);
    assert MessageSum(w, s, 1) == BitSum(w, 0, s[0] % 128, 0);
    assert MessageSum(w, s, 3) == MessageSum(w, s, 1) + BitSum(w, 1, s[1] % 128, 0) + BitSum(w, 2, s[2] % 128, 0);
    assert MessageSum(w, s, 5) == MessageSum(w, s, 3) + BitSum(w, 3, s[3] % 128, 0) + BitSum(w, 4, s[4] % 128, 0);
    assert MessageNoise(key, gen, s, 1) == NoiseSum(key, gen, 0, s[0] % 128, 0);
    assert MessageNoise(key, gen, s, 3)
        == MessageNoise(key, gen, s, 1) + NoiseSum(key, gen, 1, s[1] % 128, 0) + NoiseSum(key, gen, 2, s[2] % 128, 0);
    assert MessageNoise(key, gen, s, 5)
        == MessageNoise(key, gen, s, 3) + NoiseSum(key, gen, 3, s[3] % 128, 0) + NoiseSum(key, gen, 4, s[4] % 128, 0);
  }

  lemma FourDigits(d0: Digit, d1: Digit, d2: Digit, d3: Digit)
    ensures Val([d0, d1, d2, d3]) == d0 + 0x8000 * (d1 as int) + 0x4000_0000 * (d2 as int) + 0x2000_0000_0000 * (d3 as int)
  {
    ValSingle(d3);
    ValCons(d2, [d3]);
    ValCons(d1, [d2] + [d3]);
    ValCons(d0, [d1] + ([d2] + [d3]));
    assert [d0, d1, d2, d3] == [d0] + ([d1] + ([d2] + [d3]));
  }

  /** Deciphering undoes enciphering: multiplied by the inverse of the multiplier and reduced, the
      public message is the secret one. */
  lemma DecipherUndoes(key: Key, gen: Generator, a: seq<int>, x: int, inverse: int, s: seq<nat>)
    requires |s| == 6
    requires Public(a, Weights(key, gen), x, Modulus(key, gen))
    requires NumberTheory.Congruent(x * inverse, 1, Modulus(key, gen))
    ensures (MessageSum(a, s, 6) * inverse) % Modulus(key, gen) == Val(PlainDigits(key, gen, s))
  {
    var b, plain, msg := Modulus(key, gen), MessageSum(Weights(key, gen), s, 6), MessageSum(a, s, 6);
    MessageCongruent(a, Weights(key, gen), x, b, s, 6);
    NumberTheory.CongruentMul(msg, plain * x, inverse, inverse, b);
    NumberTheory.CancelInverse(x, inverse, plain, b);
    PlainMessage(key, gen, s);
    ValBound(PlainDigits(key, gen, s));
    ModulusRange(key, gen);
    assert BasePow(4) == 0x1000_0000_0000_0000;
    NumberTheory.SmallMod(plain, b);
  }
}
