/** Which top digits of mkx's guess make the cipher work: all but zero, under every password. */
module TopDigit {
  import opened Machine
  import opened Digits
  import opened KnapsackKeys
  import opened KnapsackRuns
  import opened LeadingZero
  import NumberTheory
  import Shorts

  // The value of LeadingZero.MODULUS, GUESS and WRONG
  const B := 590242332304604069895
  const X := 3221225474
  const C := 593718864924198535169

  /** The eleven 6-bit pieces of B below its top three bits. */
  const PIECES: seq<nat> := [63, 61, 2, 0, 31, 56, 61, 63, 48, 0, 7]

  // One weight times X, modulo B, and that times C, modulo B
  const SENT := 267602000381042671588
  const READ := 487927753596635426987

  const MESSAGE: seq<nat> := [0, 0, 0, 0, 0, 1]

  /** Random numbers that give this modulus and this guess under the key, and no noise. */
  function Draw(key: Key, n: nat): Digit {
    if n == 0 then 3
    else if n <= 11 then PIECES[n - 1] + 128 - key[n + 1]
    else if n < 16 then Unmasked(key, n - 12)
    else 0
  }

  function Unmasked(key: Key, i: nat): (d: Digit)
    requires i < 4
  {
    XorFifteen(GUESS[3 - i], key[i]);
    Xor(GUESS[3 - i], key[i], 15)
  }

  function Drawn(key: Key): Generator {
    (seed, n) => Draw(key, n)
  }

  lemma {:induction false} XorTwice(x: nat, y: nat, bits: nat)
    requires x < Pow(2, bits)
    ensures Xor(Xor(x, y, bits), y, bits) == x
  {
    if bits > 0 {
      XorTwice(x / 2, y / 2, bits - 1);
    }
  }

  lemma GuessDrawn(key: Key)
    ensures MultiplierDigit(key, Drawn(key), 0) == 0
    ensures Guess(key, Drawn(key)) == Shorts.Raw(4, GUESS)
  {
    assert Pow(2, 15) == 32768 by {
      NumberTheory.PowAdd(2, 3, 3);
      NumberTheory.PowAdd(2, 6, 6);
      NumberTheory.PowAdd(2, 12, 3);
    }
    forall i: nat | i < 4
      ensures MultiplierDigit(key, Drawn(key), i) == GUESS[3 - i]
    {
      XorTwice(GUESS[3 - i], key[i], 15);
    }
  }

  lemma ModulusDrawn(key: Key)
    ensures Modulus(key, Drawn(key)) == B
  {
    hide Draw, ModulusAfter;
    ModulusFirst(key);
    ModulusNext(key, 1);
    ModulusNext(key, 2);
    ModulusNext(key, 3);
    ModulusNext(key, 4);
    ModulusNext(key, 5);
    ModulusNext(key, 6);
    ModulusNext(key, 7);
    ModulusNext(key, 8);
    ModulusNext(key, 9);
    ModulusNext(key, 10);
    ModulusNext(key, 11);
  }

  lemma ModulusFirst(key: Key)
    ensures ModulusAfter(key, Drawn(key), 0) == 7
  {}

  lemma ModulusNext(key: Key, i: nat)
    requires 0 < i <= 11
    ensures ModulusAfter(key, Drawn(key), i) == ModulusAfter(key, Drawn(key), i - 1) * 64 + PIECES[i - 1]
  {
    assert key[i + 1] + Draw(key, i) == PIECES[i - 1] + 128;
    assert PIECES[i - 1] < 64;
  }

  lemma FiveDigits(d0: Digit, d1: Digit, d2: Digit, d3: Digit, d4: Digit)
    ensures Val([d0, d1, d2, d3, d4]) == d0 as int + 0x8000 * (d1 as int) + 0x4000_0000 * (d2 as int)
      + 0x2000_0000_0000 * (d3 as int) + 0x1000_0000_0000_0000 * (d4 as int)
  {
    FourDigits(d1, d2, d3, d4);
    ValCons(d0, [d1, d2, d3, d4]);
    assert [d0, d1, d2, d3, d4] == [d0] + [d1, d2, d3, d4];
  }

  lemma KeysDrawn(key: Key)
    ensures Keys(key, Drawn(key), X, C, 5)
  {
    hide Modulus, Shorts.Gcd, Shorts.Invert, MultiplierDigit, Guess, Val, DigitOf;
    ModulusDrawn(key);
    GuessDrawn(key);
    GuessAccepted(5);
    GuessInverted(5);
    FiveDigits(7, 31742, 2040, 31248, 511);
    FourDigits(2, 0, 3, 0);
    FiveDigits(1, 32247, 2038, 31753, 514);
    DigitOfVal(MODULUS, 0);
    DigitOfVal(MODULUS, 1);
    DigitOfVal(MODULUS, 2);
    DigitOfVal(MODULUS, 3);
    DigitOfVal(MODULUS, 4);
    assert ModulusNumber(key, Drawn(key)) == Shorts.Raw(5, MODULUS);
    var r, i: Shorts.Number := Shorts.Raw(4, GUESS), Shorts.Raw(5, WRONG);
    assert r.Used() == GUESS && Stands(r, X);
    assert i.Used() == WRONG && Stands(i, C);
  }

  /** invert's answer is not an inverse. */
  lemma WrongIsNoInverse()
    ensures (X * C) % B == 513467104060112139706
  {
    NumberTheory.DivModUnique(X * C, B, 3240198520, 513467104060112139706);
  }

  lemma MessageDrawn(key: Key)
    requires Modulus(key, Drawn(key)) == B
    ensures MessageSum(PublicWeights(key, Drawn(key), X), MESSAGE, 6) == SENT
  {
    hide Modulus, Pow, Exponent;
    var gen := Drawn(key);
    var a := PublicWeights(key, gen, X);
    Places();
    assert Weight(key, gen, 35) == 0x20_0000_0000_0000;
    NumberTheory.DivModUnique(0x20_0000_0000_0000 * X, B, 49156, SENT);
    assert a[35] == SENT;
    hide PublicWeights, Weight;
    OneBit(a, MESSAGE);
  }

  lemma OneBit(a: seq<int>, s: seq<nat>)
    requires |a| == 42 && s == [0, 0, 0, 0, 0, 1]
    ensures MessageSum(a, s, 6) == a[35]
  {
    assert BitSum(a, 0, 0, 0) == BitSum(a, 1, 0, 0) == BitSum(a, 2, 0, 0) == BitSum(a, 3, 0, 0) == BitSum(a, 4, 0, 0) == 0;
    assert MessageSum(a, s, 0) == 0;
    assert MessageSum(a, s, 1) == 0;
    assert MessageSum(a, s, 2) == 0;
    assert MessageSum(a, s, 3) == 0;
    assert MessageSum(a, s, 4) == 0;
    assert MessageSum(a, s, 5) == 0;
    assert BitSum(a, 5, 1, 0) == a[35] + BitSum(a, 5, 0, 1);
  }

  /** Under every key there are random numbers for which other characters come back than were sent. */
  lemma OthersComeBack(key: Key)
    ensures MultiplierDigit(key, Drawn(key), 0) == 0
    ensures ComesBack(key, Drawn(key), MESSAGE, Characters(READ))
    ensures Characters(READ) != SevenBits(MESSAGE)
  {
    hide Modulus, MessageSum, PublicWeights, Keys, MultiplierDigit, Val;
    ModulusDrawn(key);
    GuessDrawn(key);
    KeysDrawn(key);
    MessageDrawn(key);
    NumberTheory.DivModUnique(SENT * C, B, 269178178558166902463, READ);
    assert Deciphered(key, Drawn(key), MESSAGE, Characters(READ), X, C);
    FiveDigits(12459, 31631, 27385, 6876, 423);
    CharactersOfVal([12459, 31631, 27385, 6876, 423]);
  }

  /** For every password, a top digit of the guess is good for every random sequence and every message if and
      only if it is not zero. */
  lemma TopDigitDecides(key: Key, top: Digit)
    ensures top != 0 <==>
      forall gen: Generator, s: seq<nat>, t: seq<nat> ::
        |s| == 6 && MultiplierDigit(key, gen, 0) == top && ComesBack(key, gen, s, t) ==> t == SevenBits(s)
  {
    hide ComesBack, MultiplierDigit, Characters, SevenBits;
    if top != 0 {
      forall gen: Generator, s: seq<nat>, t: seq<nat> |
        |s| == 6 && MultiplierDigit(key, gen, 0) == top && ComesBack(key, gen, s, t)
        ensures t == SevenBits(s)
      {
        NonzeroComesBack(key, gen, s, t);
      }
    } else {
      OthersComeBack(key);
    }
  }
}
