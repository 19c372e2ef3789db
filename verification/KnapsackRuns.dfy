/** What comes back, for a key and a random sequence, when six characters are enrolled for, sent and read:
    exact arithmetic where the library computes exactly, the library's own steps where it does not. */
module KnapsackRuns {
  import opened Machine
  import opened Digits
  import opened KnapsackKeys
  import opened LeadingZero
  import NumberTheory
  import Shorts

  // ----- Reading a message number -----

  /** The k-th digit of a number. */
  function DigitOf(n: nat, k: nat): (d: nat)
    ensures d < 32768
  {
    n / BasePow(k) % 32768
  }

  /** The six characters in bits 0 and 8 of digits 1, 2 and 3. */
  function Characters(plain: nat): (t: seq<nat>)
    ensures |t| == 6
  {
    [DigitOf(plain, 1) % 128, DigitOf(plain, 1) / 256 % 128, DigitOf(plain, 2) % 128, DigitOf(plain, 2) / 256 % 128,
     DigitOf(plain, 3) % 128, DigitOf(plain, 3) / 256 % 128]
  }

  /** What is sent of a message: seven bits of each character. */
  function SevenBits(s: seq<nat>): (t: seq<nat>)
    requires |s| == 6
    ensures |t| == 6
  {
    [s[0] % 128, s[1] % 128, s[2] % 128, s[3] % 128, s[4] % 128, s[5] % 128]
  }

  /** decipher finds four digits in use: in the product, when it is too short to be divided, or else in
      the remainder. */
  predicate ReadsWithin(product: nat, length: nat, modulusLength: nat, plain: nat)
    requires length > 0
  {
    var n := if product >= BasePow(length - 1) then length else length - 1;
    if n < modulusLength then n > 3 else plain >= BasePow(3)
  }

  /** The digits of a digit string are the digits of its value. */
  lemma DigitOfVal(s: seq<Digit>, k: nat)
    requires k < |s|
    ensures DigitOf(Val(s), k) == s[k]
  {
    ValSplit(s, k);
    ValBound(s[..k]);
    var high := s[k..];
    NumberTheory.DivModUnique(Val(s), BasePow(k), Val(high), Val(s[..k]));
    assert high == [s[k]] + s[k + 1..];
    ValCons(s[k], s[k + 1..]);
    NumberTheory.DivModUnique(Val(high), 32768, Val(s[k + 1..]), s[k]);
  }

  lemma CharactersOfVal(d: seq<Digit>)
    requires |d| > 3
    ensures Characters(Val(d))
         == [d[1] % 128, d[1] / 256 % 128, d[2] % 128, d[2] / 256 % 128, d[3] % 128, d[3] / 256 % 128]
  {
    DigitOfVal(d, 1);
    DigitOfVal(d, 2);
    DigitOfVal(d, 3);
  }

  lemma Pair(c: nat, d: nat)
    requires c < 128 && d < 128
    ensures (c + 256 * d) % 128 == c && (c + 256 * d) / 256 % 128 == d
    ensures c != 0 || d != 0 ==> c + 256 * d != 0
  {}

  lemma PlainCharacters(key: Key, gen: Generator, s: seq<nat>)
    requires |s| == 6
    ensures Characters(Val(PlainDigits(key, gen, s))) == SevenBits(s)
    ensures Val(PlainDigits(key, gen, s)) >= BasePow(3) <==> s[4] % 128 != 0 || s[5] % 128 != 0
  {
    var d := PlainDigits(key, gen, s);
    CharactersOfVal(d);
    Pair(s[0] % 128, s[1] % 128);
    Pair(s[2] % 128, s[3] % 128);
    Pair(s[4] % 128, s[5] % 128);
    ValTop(d);
    if d[3] == 0 {
      ValBound(d[..3]);
    }
  }

  /** Unless message number and inverse are very short, decipher reads past the number for exactly the
      messages that end in two NUL characters. */
  lemma TwoNulsReadPast(key: Key, gen: Generator, s: seq<nat>, product: nat, length: nat)
    requires |s| == 6 && length >= 6
    ensures ReadsWithin(product, length, 5, Val(PlainDigits(key, gen, s))) <==> s[4] % 128 != 0 || s[5] % 128 != 0
  {
    PlainCharacters(key, gen, s);
  }

  /** The letter a and five NULs, with ten digits in the product, is read past; six NULs are a message
      number of no digits, which is too short to be divided, and are read back. */
  lemma NulsForExample(product: nat)
    ensures !ReadsWithin(product, 10, 5, 97 * 32768)
    ensures ReadsWithin(0, 5, 5, 0)
  {
    assert BasePow(1) == 32768 && BasePow(2) == 0x4000_0000 && BasePow(3) == 0x2000_0000_0000;
  }

  // ----- The multiplier and its inverse -----

  function Multiplier(key: Key, gen: Generator): nat
    requires MultiplierStart(key, gen, 4) < Modulus(key, gen) && Modulus(key, gen) > 2
  {
    NextCoprime(Modulus(key, gen), MultiplierStart(key, gen, 4))
  }

  /** The number is in proper digits and has this value. */
  ghost predicate Stands(a: Shorts.Number, v: nat) {
    a.len >= 0 && exists s: seq<Digit> :: a.Used() == s && Val(s) == v
  }

  /** mkx's last loop, on the library as it is: up from x until gcd answers with the one digit 1. */
  function MultiplierFrom(b: Shorts.Number, x: Shorts.Number, turns: nat): Shorts.Result<Shorts.Number>
    decreases turns
  {
    if turns == 0 then Shorts.Undefined
    else
      var g := Shorts.Gcd(b, x, turns);
      if g.Undefined? then Shorts.Undefined
      else if g.value.len == 1 && g.value.val[0] == 1 then Shorts.Is(x)
      else
        var y := Shorts.Add(x, Shorts.ONE);
        if y.Undefined? then Shorts.Undefined else MultiplierFrom(b, y.value, turns - 1)
  }

  /** The first guess, as its four digits. */
  function Guess(key: Key, gen: Generator): Shorts.Number {
    XorFifteen(gen(Seed(key), 12), key[0]);
    XorFifteen(gen(Seed(key), 13), key[1]);
    XorFifteen(gen(Seed(key), 14), key[2]);
    XorFifteen(gen(Seed(key), 15), key[3]);
    Shorts.Raw(4, [MultiplierDigit(key, gen, 3), MultiplierDigit(key, gen, 2), MultiplierDigit(key, gen, 1),
      MultiplierDigit(key, gen, 0)])
  }

  function ModulusNumber(key: Key, gen: Generator): Shorts.Number {
    var b := Modulus(key, gen);
    Shorts.Raw(5, [DigitOf(b, 0), DigitOf(b, 1), DigitOf(b, 2), DigitOf(b, 3), DigitOf(b, 4)])
  }

  /** What mkx makes of a guess with a leading zero, and what invert makes of that. */
  function RawMultiplier(key: Key, gen: Generator, turns: nat): Shorts.Result<Shorts.Number> {
    MultiplierFrom(ModulusNumber(key, gen), Guess(key, gen), turns)
  }

  function RawInverse(key: Key, gen: Generator, turns: nat): Shorts.Result<Shorts.Number> {
    var r := RawMultiplier(key, gen, turns);
    if r.Undefined? then Shorts.Undefined else Shorts.Invert(r.value, ModulusNumber(key, gen), turns)
  }

  /** x is the multiplier that enroll and xget compute. */
  ghost predicate MultiplierIs(key: Key, gen: Generator, x: nat, turns: nat) {
    if MultiplierDigit(key, gen, 0) != 0 then
      MultiplierStart(key, gen, 4) < Modulus(key, gen) && Modulus(key, gen) > 2 && x == Multiplier(key, gen)
    else RawMultiplier(key, gen, turns).Is? && Stands(RawMultiplier(key, gen, turns).value, x)
  }

  /** c is what xget takes for the inverse of x. */
  ghost predicate InverseIs(key: Key, gen: Generator, x: nat, c: nat, turns: nat) {
    if MultiplierDigit(key, gen, 0) != 0 then
      Modulus(key, gen) > 0 && NumberTheory.Congruent(x * c, 1, Modulus(key, gen))
    else RawInverse(key, gen, turns).Is? && Stands(RawInverse(key, gen, turns).value, c)
  }

  ghost predicate Keys(key: Key, gen: Generator, x: nat, c: nat, turns: nat) {
    MultiplierIs(key, gen, x, turns) && InverseIs(key, gen, x, c, turns)
  }

  /** The public weights. */
  function PublicWeights(key: Key, gen: Generator, x: nat): (a: seq<int>)
    requires Modulus(key, gen) > 0
    ensures |a| == 42
  {
    seq(42, i requires 0 <= i < 42 => (Weight(key, gen, i) * x) % Modulus(key, gen))
  }

  ghost predicate Deciphered(key: Key, gen: Generator, s: seq<nat>, t: seq<nat>, x: nat, c: nat)
    requires |s| == 6
  {
    && Modulus(key, gen) > 0 && MessageSum(PublicWeights(key, gen, x), s, 6) * c >= 0
    && t == Characters((MessageSum(PublicWeights(key, gen, x), s, 6) * c) % Modulus(key, gen))
  }

  /** t is what comes back for s, when mkx and invert end with proper numbers. */
  ghost predicate ComesBack(key: Key, gen: Generator, s: seq<nat>, t: seq<nat>)
    requires |s| == 6
  {
    exists x: nat, c: nat, turns: nat :: Keys(key, gen, x, c, turns) && Deciphered(key, gen, s, t, x, c)
  }

  lemma PublicKey(key: Key, gen: Generator, x: nat)
    requires Modulus(key, gen) > 0
    ensures Public(PublicWeights(key, gen, x), Weights(key, gen), x, Modulus(key, gen))
  {
    hide Modulus, Weight;
    var b := Modulus(key, gen);
    forall i | 0 <= i < 42
      ensures NumberTheory.Congruent(PublicWeights(key, gen, x)[i], Weights(key, gen)[i] * x, b)
    {
      NumberTheory.SmallMod((Weight(key, gen, i) * x) % b, b);
    }
  }

  lemma NonzeroDeciphers(key: Key, gen: Generator, s: seq<nat>, t: seq<nat>, x: nat, c: nat)
    requires |s| == 6 && Deciphered(key, gen, s, t, x, c)
    requires NumberTheory.Congruent(x * c, 1, Modulus(key, gen))
    ensures t == SevenBits(s)
  {
    hide Modulus, MessageSum, NumberTheory.Congruent, Characters, PlainDigits, Val, PublicWeights, Public, SevenBits;
    PublicKey(key, gen, x);
    DecipherUndoes(key, gen, PublicWeights(key, gen, x), x, c, s);
    PlainCharacters(key, gen, s);
  }

  /** With a top digit that is not zero, the product of message number and inverse leaves the message. */
  lemma PlainRemainder(key: Key, gen: Generator, s: seq<nat>, x: nat, c: nat)
    requires |s| == 6 && Modulus(key, gen) > 0 && NumberTheory.Congruent(x * c, 1, Modulus(key, gen))
    ensures (MessageSum(PublicWeights(key, gen, x), s, 6) * c) % Modulus(key, gen) == Val(PlainDigits(key, gen, s))
  {
    hide Modulus, MessageSum, NumberTheory.Congruent, PlainDigits, Val, PublicWeights, Public;
    PublicKey(key, gen, x);
    DecipherUndoes(key, gen, PublicWeights(key, gen, x), x, c, s);
  }

  /** Then decipher stays within its number at least when the message does not end in two NULs. */
  lemma ReadsMessage(key: Key, gen: Generator, s: seq<nat>, product: nat, length: nat, plain: nat)
    requires |s| == 6 && length > 0 && product < BasePow(length) && plain <= product
    requires plain == Val(PlainDigits(key, gen, s)) && (s[4] % 128 != 0 || s[5] % 128 != 0)
    ensures ReadsWithin(product, length, 5, plain)
  {
    hide Val, PlainDigits, BasePow;
    PlainCharacters(key, gen, s);
    var n := if product >= BasePow(length - 1) then length else length - 1;
    if n <= 3 {
      BasePowMonotone(n, 3);
    }
  }

  /** With a top digit that is not zero, only what was sent comes back. */
  lemma NonzeroComesBack(key: Key, gen: Generator, s: seq<nat>, t: seq<nat>)
    requires |s| == 6 && MultiplierDigit(key, gen, 0) != 0 && ComesBack(key, gen, s, t)
    ensures t == SevenBits(s)
  {
    hide Modulus, MultiplierDigit, MultiplierStart, NumberTheory.Congruent, Deciphered, SevenBits, Multiplier;
    var x: nat, c: nat, turns: nat :| Keys(key, gen, x, c, turns) && Deciphered(key, gen, s, t, x, c);
    NonzeroDeciphers(key, gen, s, t, x, c);
  }

  /** Of characters that have seven bits all are sent. */
  lemma SevenBitsAre(s: seq<nat>)
    requires |s| == 6 && forall k :: 0 <= k < 6 ==> s[k] < 128
    ensures SevenBits(s) == s
  {}
}
