/** The knapsack mail cipher: key construction (xsend/lib.c), enciphering (xsend/xsend.c) and
    deciphering (xsend/xget.c), over the multiple-precision library. */
module Knapsack {
  import opened Machine
  import opened Digits
  import opened Mints
  import opened AddSub
  import opened Multiplication
  import opened ShortDivision
  import opened LongDivision
  import opened Euclid
  import opened Powers
  import opened KnapsackKeys
  import opened KnapsackRuns
  import LeadingZero
  import NumberTheory
  import Shorts

  lemma NonzeroHasDigits(a: Mint)
    ensures a.Value() != 0 ==> a.len != 0
  {
    MintSign(a);
  }

  /** A normal form of a value between two powers of the radix has that many digits. */
  lemma NormalDigitCount(a: Mint, n: nat)
    requires n > 0 && a.Normal() && a.len >= 0 && BasePow(n - 1) <= a.Value() < BasePow(n)
    ensures a.len == n
  {
    hide Val, BasePow;
    ValBound(a.Digits());
    if a.len < n {
      BasePowMonotone(a.len, n - 1);
    } else if a.len > n {
      BasePowMonotone(n, a.len - 1);
      ValTop(a.Digits());
    }
  }

  lemma SmallPowersOfTwo()
    ensures Pow(2, 15) == 32768 && Pow(2, 44) == 0x1000_0000_0000
    ensures BasePow(1) == 32768 && BasePow(2) == 0x4000_0000 && BasePow(3) == 0x2000_0000_0000
    ensures BasePow(4) == 0x1000_0000_0000_0000 && BasePow(5) == 0x800_0000_0000_0000_0000
  {
    assert Pow(2, 1) == 2 && Pow(2, 2) == 4 && Pow(2, 3) == 8;
    assert Pow(2, 15) == 32768 by {
      NumberTheory.PowAdd(2, 3, 3);
      NumberTheory.PowAdd(2, 6, 6);
      NumberTheory.PowAdd(2, 12, 3);
    }
    NumberTheory.PowAdd(2, 3, 3);
    NumberTheory.PowAdd(2, 6, 6);
    NumberTheory.PowAdd(2, 12, 2);
    NumberTheory.PowAdd(2, 15, 15);
    NumberTheory.PowAdd(2, 30, 14);
  }

  /** The globals of lib.c, on the side that knows the password: enroll builds the public key from
      them, xget builds the same modulus and multiplier again. */
  class Secret {
    const key: Key
    const gen: Generator
    var seed: nat
    var drawn: nat
    var x: Mint
    var b: Mint
    var z: Mint
    var one: Mint
    var two: Mint
    var c64: Mint
    var t45: Mint
    var t15: Mint
    var a: array<Mint>

    /** The constants comminit sets up, never written afterwards. */
    predicate Constants()
      reads this
    {
      && one.Normal() && one.len == 1 && one.Value() == 1
      && two.Normal() && two.len == 1 && two.Value() == 2
      && c64.Normal() && c64.len == 1 && c64.Value() == 64
      && 0 < t45.len <= 32767 && t45.Value() > 0
      && t15.Normal() && t15.len == 2 && t15.Value() == 32768
      && z.len == 1
      && a.Length == 42
    }

    /** comminit */
    constructor (key: Key, gen: Generator)
      ensures this.key == key && this.gen == gen
      ensures Constants() && fresh(a) && x == ZERO && b.len == 1
    {
      var c1 := FromInt(1);
      var c2 := FromInt(2);
      var c3 := FromInt(64);
      this.key, this.gen, seed, drawn := key, gen, 0, 0;
      x, b, one, two, c64, z := ZERO, c1, c1, c2, c3, c1;
      var p45 := Power(c2, 45);
      var p15 := Power(c2, 15);
      t45, t15 := p45, p15;
      a := new Mint[42](_ => ZERO);
      SmallPowersOfTwo();
      PowMonotone(2, 0, 45);
      NonzeroHasDigits(p45);
      NormalDigitCount(p15, 2);
    }

    method Srand(s: nat)
      modifies this`seed, this`drawn
      ensures seed == s && drawn == 0
    {
      seed, drawn := s, 0;
    }

    method Rand() returns (r: Digit)
      modifies this`drawn
      ensures r == gen(seed, old(drawn)) && drawn == old(drawn) + 1
    {
      r := gen(seed, drawn);
      drawn := drawn + 1;
    }

    /** *z->val = d */
    method SetZ(d: Digit)
      requires z.len == 1
      modifies this`z
      ensures z.len == 1 && z.Value() == d
    {
      z := Mint(1, [d]);
      OneDigit(d);
    }

    /** mkb, first loop: the seed */
    method MakeSeed() returns (s: nat)
      ensures s == Seed(key)
    {
      hide SeedAfter;
      s := 123;
      SeedStart(key);
      for i := 0 to 13
        invariant s == SeedAfter(key, i)
      {
        SeedStep(key, i);
        s := (s * key[i] + i) % 65536;
      }
    }

    /** mkb, one round of the second loop: six more bits of the modulus. */
    method AppendSixBits(i: nat)
      requires i < 11 && Constants() && seed == Seed(key) && drawn == 1 + i
      requires b.Normal() && b.len > 0 && b.Value() == ModulusAfter(key, gen, i)
      modifies this`drawn, this`b, this`z
      ensures Constants() && drawn == 2 + i
      ensures b.Normal() && b.len > 0 && b.Value() == ModulusAfter(key, gen, i + 1)
    {
      hide Val, Storage.Value, Storage.Normal, ModulusAfter;
      var r := Rand();
      SixBits(key[i + 2], r);
      SetZ(Wrap16(key[i + 2] + r) % 64);
      var p := Multiply(b, c64);
      b := Add(p, z);
      ModulusStep(key, gen, i);
    }

    /** mkb: the modulus, from a seed made of the key and twelve random numbers. */
    method MakeModulus()
      requires Constants() && b.len == 1
      modifies this`seed, this`drawn, this`b, this`z
      ensures Constants() && seed == Seed(key) && drawn == 12
      ensures b.Normal() && b.len == 5 && b.Value() == Modulus(key, gen)
    {
      hide Val, Storage.Value, Storage.Normal, ModulusAfter;
      var s := MakeSeed();
      Srand(s);
      var r := Rand();
      var top: Digit := 4 + r % 4;
      b := Mint(1, [top]);
      OneDigit(top);
      ModulusStart(key, gen);
      for i := 0 to 11
        invariant Constants() && seed == Seed(key) && drawn == 1 + i
        invariant b.Normal() && b.len > 0 && b.Value() == ModulusAfter(key, gen, i)
      {
        AppendSixBits(i);
      }
      ModulusRange(key, gen);
      SmallPowersOfTwo();
      NormalDigitCount(b, 5);
    }

    /** mkx, one round of its first loop: a random digit onto the guess. */
    method AppendDigit(i: nat)
      requires i < 4 && Constants() && seed == Seed(key) && drawn == 12 + i
      requires x.len == i && x.Value() == MultiplierStart(key, gen, i)
      modifies this`drawn, this`x, this`z
      ensures Constants() && drawn == 13 + i
      ensures x.len == i + 1 && x.Value() == MultiplierStart(key, gen, i + 1)
    {
      hide Val, Storage.Value, Storage.Normal, MultiplierStart, Xor;
      var p := Multiply(x, t15);
      var r := Rand();
      XorFifteen(r, key[i]);
      SetZ(Xor(r, key[i], 15));
      var y := Add(p, z);
      MultiplierStep(key, gen, i);
      GuessLength(key, gen, i, p, y);
      x := y;
    }

    /** mkx, its last loop: up to the next number prime to the modulus. */
    method StepToCoprime()
      requires Constants() && b.Normal() && b.len > 0 && b.Value() > 2
      requires x.Normal() && x.len >= 0 && 0 <= x.Value() < b.Value()
      modifies this`x
      ensures Constants() && x.Normal() && 0 < x.len <= b.len
      ensures x.Value() == NextCoprime(b.Value(), old(x.Value()))
    {
      hide Val, Storage.Value, Storage.Normal;
      ghost var x0 := x.Value();
      while true
        invariant Constants()
        invariant x.Normal() && x.len >= 0 && x0 <= x.Value() < b.Value()
        invariant NextCoprime(b.Value(), x.Value()) == NextCoprime(b.Value(), x0)
        decreases b.Value() - x.Value()
      {
        var g := GreatestCommonDivisor(b, x);
        IsOne(g);
        MintSign(g);
        if g.len == 1 && g.val[0] == 1 {
          Shorter(x, b);
          CoprimeNotZero(b.Value(), x.Value());
          NonzeroHasDigits(x);
          return;
        }
        PredecessorCoprime(b.Value());
        x := Add(x, one);
        MintSign(x);
        NormalSign(x);
      }
    }

    /** mkx up to its last loop: four random digits make a first guess, in normal form exactly when
        the top one is not zero. */
    method GuessMultiplier()
      requires Constants() && x == ZERO
      requires seed == Seed(key) && drawn == 12
      requires b.Normal() && b.len == 5 && b.Value() == Modulus(key, gen)
      modifies this`drawn, this`x, this`z
      ensures Constants() && drawn == 16
      ensures x.len == 4 && 0 <= x.Value() == MultiplierStart(key, gen, 4) < b.Value()
      ensures x.Normal() <==> MultiplierDigit(key, gen, 0) != 0
    {
      hide Val, Storage.Value, Storage.Normal, MultiplierStart, Divides, MultiplierDigit;
      MultiplierZero(key, gen);
      assert ZERO.Value() == 0 by {
        NonzeroHasDigits(ZERO);
      }
      for i := 0 to 4
        invariant Constants() && drawn == 12 + i
        invariant x.len == i && x.Value() == MultiplierStart(key, gen, i)
      {
        AppendDigit(i);
      }
      GuessNormal(key, gen, x);
      var fine, q, rest := Div(x, b);
      GuessReduced(key, gen, x.Value(), b.Value(), q.Value(), rest.Value());
      SameForm(x, rest);
      x := rest;
    }

    /** mkx: the multiplier, the first number from the guess on that is prime to the modulus. If the
        guess is not in normal form, gcd hands it to mdiv as a divisor all the same; the scaling
        factor then does not fit a short (see ScaleOverflows), and the library's own steps say what
        the multiplier is. They need not end, so they get a number of turns; `ok` is false when these
        are not enough or the result is not a proper number of at most five digits. */
    method MakeMultiplier(turns: nat) returns (ok: bool)
      requires Constants() && x == ZERO
      requires seed == Seed(key) && drawn == 12
      requires b.Normal() && b.len == 5 && b.Value() == Modulus(key, gen)
      modifies this`drawn, this`x, this`z
      ensures Constants() && drawn == 16
      ensures MultiplierDigit(key, gen, 0) != 0 ==> ok && x.Normal()
      ensures ok ==> 0 < x.len <= 5 && x.Value() > 0 && MultiplierIs(key, gen, x.Value(), turns)
      ensures ok && MultiplierDigit(key, gen, 0) == 0 ==> RawIs(RawMultiplier(key, gen, turns), x)
    {
      hide Val, Storage.Value, Storage.Normal, MultiplierStart, MultiplierDigit, Modulus, Guess, ModulusNumber;
      hide MultiplierFrom;
      GuessMultiplier();
      TopOf(x);
      ModulusRange(key, gen);
      if x.val[x.len - 1] == 0 {
        GuessDigits(key, gen, x);
        ModulusDigits(key, gen, b);
        var r := MultiplierFrom(Shorts.Raw(5, b.Digits()), Shorts.Raw(4, x.Digits()), turns);
        ok, x := ToMint(r);
        ok := ok && x.len <= 5;
        return;
      }
      StepToCoprime();
      ok := true;
    }

    /** mka, one round of its second loop: the secret weight of bit i over its noise. The product
        with z, always zero, empties the one that a[i] starts from. */
    method MakeWeight(start: Mint, i: nat, j: Digit) returns (w: Mint)
      requires i < 42 && j == Exponent(i) && start.len == 1
      requires Constants() && seed == Seed(key) && drawn == 16 + 2 * i
      requires b.Normal() && b.len == 5 && b.Value() == Modulus(key, gen)
      modifies this`drawn, this`z
      ensures Constants() && drawn == 18 + 2 * i
      ensures w.len >= 0 && w.Value() == Weight(key, gen, i)
    {
      hide Val, Storage.Value, Storage.Normal, Divides, Modulus, Weight, Pow;
      var r := Rand();
      SetZ(0);
      w := Multiply(start, z);
      w := Multiply(w, t45);
      ExponentRange(i);
      var q := Power(two, j);
      w := Add(w, q);
      w := Multiply(w, t15);
      r := Rand();
      SetZ(r % 512);
      w := Add(w, z);
      WeightValue(key, gen, i);
      WeightRange(key, gen, i);
      var ok, quotient, rest := Div(w, b);
      GuessReduced(key, gen, w.Value(), b.Value(), quotient.Value(), rest.Value());
      w := rest;
    }

    /** mka, first and second loops: the secret weights. */
    method MakeWeights()
      requires Constants() && seed == Seed(key) && drawn == 16
      requires b.Normal() && b.len == 5 && b.Value() == Modulus(key, gen) > 0
      modifies this`drawn, this`z, a
      ensures Constants()
      ensures forall k :: 0 <= k < 42 ==> a[k].len >= 0 && a[k].Value() == Weight(key, gen, k)
    {
      hide Val, Storage.Value, Storage.Normal, Modulus, Weight;
      for i := 0 to 42
        invariant forall k :: 0 <= k < i ==> a[k].len == 1
        modifies a
      {
        var w := FromInt(1);
        a[i] := w;
      }
      var j := 0;
      for i := 0 to 42
        invariant Constants() && seed == Seed(key) && drawn == 16 + 2 * i && j == Exponent(i)
        invariant forall k :: i <= k < 42 ==> a[k].len == 1
        invariant forall k :: 0 <= k < i ==> a[k].len >= 0 && a[k].Value() == Weight(key, gen, k)
      {
        ExponentRange(i);
        var w := MakeWeight(a[i], i, j);
        a[i] := w;
        if i % 14 == 6 {
          j := j + 1;
        }
        j := j + 1;
      }
    }

    /** mka, third loop: every weight times the multiplier. */
    method MultiplyWeights()
      requires a.Length == 42 && 0 < x.len <= 5
      requires forall k :: 0 <= k < 42 ==> a[k].len >= 0 && a[k].Value() == Weight(key, gen, k)
      modifies a
      ensures forall k :: 0 <= k < 42 ==> a[k].len >= 0 && a[k].Value() == Weight(key, gen, k) * x.Value()
    {
      hide Val, Storage.Value, Storage.Normal, Weight;
      for i := 0 to 42
        invariant forall k :: i <= k < 42 ==> a[k].len >= 0 && a[k].Value() == Weight(key, gen, k)
        invariant forall k :: 0 <= k < i ==> a[k].len >= 0 && a[k].Value() == Weight(key, gen, k) * x.Value()
      {
        var p := Multiply(a[i], x);
        a[i] := p;
      }
    }

    /** mka, last loop: every product modulo the modulus. */
    method ReduceWeights()
      requires a.Length == 42 && b.Normal() && b.len == 5 && b.Value() > 0
      requires forall k :: 0 <= k < 42 ==> a[k].len >= 0 && a[k].Value() == Weight(key, gen, k) * x.Value()
      modifies a
      ensures forall k :: 0 <= k < 42 ==>
        0 <= a[k].len <= 5 && a[k].Value() == (Weight(key, gen, k) * x.Value()) % b.Value()
    {
      hide Val, Storage.Value, Storage.Normal, Weight, Divides;
      for i := 0 to 42
        invariant forall k :: i <= k < 42 ==> a[k].len >= 0 && a[k].Value() == Weight(key, gen, k) * x.Value()
        invariant forall k :: 0 <= k < i ==>
          0 <= a[k].len <= 5 && a[k].Value() == (Weight(key, gen, k) * x.Value()) % b.Value()
      {
        MintSign(a[i]);
        var ok, q, r := Div(a[i], b);
        ReducedProduct(a[i].Value(), b.Value(), q.Value(), r.Value());
        a[i] := r;
      }
    }

    /** mka: the public weights. */
    method MakePublic()
      requires Constants() && seed == Seed(key) && drawn == 16
      requires b.Normal() && b.len == 5 && b.Value() == Modulus(key, gen) > 0
      requires 0 < x.len <= 5
      modifies this`drawn, this`z, a
      ensures Constants()
      ensures forall k :: 0 <= k < 42 ==>
        0 <= a[k].len <= 5 && a[k].Value() == (Weight(key, gen, k) * x.Value()) % Modulus(key, gen)
    {
      MakeWeights();
      MultiplyWeights();
      ReduceWeights();
    }
  }

  lemma ExponentRange(i: nat)
    requires i < 42
    ensures Exponent(i) <= 44
    ensures Exponent(i + 1) == Exponent(i) + (if i % 14 == 6 then 2 else 1)
  {
    var q, r := (i + 7) / 14, (i + 7) % 14;
    if r == 13 {
      NumberTheory.DivModUnique(i + 8, 14, q + 1, 0);
      NumberTheory.DivModUnique(i, 14, q, 6);
    } else {
      NumberTheory.DivModUnique(i + 8, 14, q, r + 1);
    }
  }

  lemma WeightValue(key: Key, gen: Generator, i: nat)
    ensures Weight(key, gen, i) == Pow(2, Exponent(i)) * 32768 + gen(Seed(key), 16 + 2 * i + 1) % 512
  {}

  lemma WeightRange(key: Key, gen: Generator, i: nat)
    requires i < 42
    ensures 0 <= Weight(key, gen, i) < Modulus(key, gen)
  {
    hide Modulus;
    ExponentRange(i);
    PowMonotone(2, Exponent(i), 44);
    SmallPowersOfTwo();
    ModulusRange(key, gen);
  }

  lemma ReducedProduct(p: int, b: int, q: int, r: int)
    requires 0 <= p && 0 < b && Divides(p, b, false, q, r)
    ensures r == p % b
  {
    NumberTheory.DivModUnique(p, b, q, r);
  }

  lemma SameForm(x: Mint, y: Mint)
    requires x.len == y.len && x.Digits() == y.Digits()
    ensures x.Normal() <==> y.Normal()
  {}

  /** mdiv's scaling factor for a divisor with top digit t, 0100000 / (t + 1), fits a short exactly
      when t is not zero: for a leading zero it is stored as -32768. */
  lemma ScaleOverflows(t: Digit)
    ensures Wrap16(32768 / (t + 1)) == 32768 / (t + 1) <==> t != 0
    ensures Wrap16(32768 / (0 + 1)) == -32768
  {
    if t != 0 {
      FactorFits(t);
      QuotIs(32768, t + 1);
    }
  }

  lemma QuotIs(x: int, n: int)
    requires n > 0
    ensures Quot(x, n) == x / n
  {}

  lemma CoprimeNotZero(b: nat, x: nat)
    requires b > 1 && NumberTheory.Gcd(b, x) == 1
    ensures x != 0
  {}

  lemma SeedStart(key: Key)
    ensures SeedAfter(key, 0) == 123
  {}

  lemma SeedStep(key: Key, i: nat)
    requires i < 13
    ensures SeedAfter(key, i + 1) == (SeedAfter(key, i) * key[i] + i) % 65536
  {}

  lemma ModulusStart(key: Key, gen: Generator)
    ensures ModulusAfter(key, gen, 0) == 4 + gen(Seed(key), 0) % 4
  {}

  lemma ModulusStep(key: Key, gen: Generator, i: nat)
    requires i < 11
    ensures ModulusAfter(key, gen, i + 1)
         == ModulusAfter(key, gen, i) * 64 + (key[i + 2] + gen(Seed(key), i + 1)) % 64
  {}

  /** (buf[i+2] + rand()) & 077: the sum may wrap, its low six bits do not. */
  lemma SixBits(k: nat, r: Digit)
    requires k < 128
    ensures Wrap16(k + r) % 64 == (k + r) % 64
  {}

  lemma MultiplierZero(key: Key, gen: Generator)
    ensures MultiplierStart(key, gen, 0) == 0
  {}

  lemma MultiplierStep(key: Key, gen: Generator, i: nat)
    requires i < 4
    ensures MultiplierStart(key, gen, i + 1)
         == MultiplierStart(key, gen, i) * 32768 + Xor(gen(Seed(key), 12 + i), key[i], 15)
  {}

  /** The guess grows by one digit a round. */
  lemma GuessLength(key: Key, gen: Generator, i: nat, p: Mint, y: Mint)
    requires i < 4 && i + 1 <= p.len <= i + 2 && (p.len == i + 2 ==> p.Normal())
    requires p.Value() == MultiplierStart(key, gen, i) * 32768
    requires p.len <= y.len && (y.len > p.len ==> y.Normal()) && y.Value() == MultiplierStart(key, gen, i + 1)
    ensures y.len == i + 1
  {
    hide MultiplierStart, Val;
    MultiplierStartRange(key, gen, i);
    MultiplierStartRange(key, gen, i + 1);
    if p.len == i + 2 {
      ValTop(p.Digits());
    }
    if y.len > i + 1 {
      ValTop(y.Digits());
      BasePowMonotone(i + 1, y.len - 1);
    }
  }

  lemma GuessNormal(key: Key, gen: Generator, x: Mint)
    requires x.len == 4 && x.Value() == MultiplierStart(key, gen, 4)
    ensures x.Normal() <==> MultiplierDigit(key, gen, 0) != 0
    ensures x.Value() < Modulus(key, gen)
  {
    hide Val, MultiplierDigit, Modulus;
    MultiplierStartRange(key, gen, 4);
    ModulusRange(key, gen);
    SmallPowersOfTwo();
    ValTop(x.Digits());
    assert MultiplierStart(key, gen, 1) == MultiplierDigit(key, gen, 0);
    assert MultiplierStart(key, gen, 3)
        == (MultiplierDigit(key, gen, 0) * 32768 + MultiplierDigit(key, gen, 1)) * 32768 + MultiplierDigit(key, gen, 2);
    DigitRange(key, gen, 1);
    DigitRange(key, gen, 2);
    DigitRange(key, gen, 3);
  }

  lemma DigitRange(key: Key, gen: Generator, i: nat)
    requires i < 4
    ensures MultiplierDigit(key, gen, i) < 32768
  {
    XorFifteen(gen(Seed(key), 12 + i), key[i]);
  }

  lemma GuessReduced(key: Key, gen: Generator, x: int, b: int, q: int, r: int)
    requires 0 <= x < b && Divides(x, b, false, q, r)
    ensures r == x
  {
    NumberTheory.DivModUnique(x, b, q, r);
    NumberTheory.SmallMod(x, b);
  }

  lemma TopOf(x: Mint)
    requires x.len > 0
    ensures x.val[x.len - 1] != 0 <==> x.Normal()
    ensures x.Value() >= 0
  {}

  lemma IsOne(g: Mint)
    requires g.Normal() && g.len >= 0
    ensures g.len == 1 && g.val[0] == 1 <==> g.Value() == 1
  {
    if g.len == 1 {
      assert g.Digits() == [g.val[0]];
      ValSingle(g.val[0]);
    }
    if g.Value() == 1 {
      SmallPowersOfTwo();
      NormalDigitCount(g, 1);
    }
  }

  lemma Shorter(x: Mint, b: Mint)
    requires x.Normal() && b.Normal() && x.len >= 0 && b.len >= 0 && x.Value() < b.Value()
    ensures x.len <= b.len
  {
    if b.len < x.len {
      NormalLength(b.Digits(), x.Digits());
    }
  }

  function Values(a: seq<Mint>): (v: seq<int>)
    ensures |v| == |a|
  {
    seq(|a|, i requires 0 <= i < |a| => a[i].Value())
  }

  /** The globals of xsend: the public weights as read from the key file, the table of sums for every
      character at every position, and the message under way. */
  class Sender {
    var a: array<Mint>
    var cd: array2<Mint>
    var msg: Mint

    ghost predicate Tabled()
      reads this, a, cd
    {
      && a.Length == 42 && cd.Length0 == 6 && cd.Length1 == 128
      && (forall i, j :: 0 <= i < 6 && 0 <= j < 128 ==> Entry(cd[i, j], a[..], i, j))
      && 0 <= msg.len <= 18
    }

    /** init and mkcd */
    constructor (key: seq<Mint>)
      requires |key| == 42 && forall i :: 0 <= i < 42 ==> 0 <= key[i].len <= 5
      ensures Tabled() && fresh(a) && fresh(cd) && a[..] == key
    {
      msg := ZERO;
      a := new Mint[42](i requires 0 <= i < |key| => key[i]);
      cd := new Mint[6, 128]((i, j) => ZERO);
      new;
      hide Val, Storage.Value, BitSum, Entry;
      assert a[..] == key;
      for i := 0 to 6
        invariant a.Length == 42 && a[..] == key && cd.Length0 == 6 && cd.Length1 == 128 && msg == ZERO
        invariant forall k, j :: i <= k < 6 && 0 <= j < 128 ==> cd[k, j] == ZERO
        invariant forall k, j :: 0 <= k < i && 0 <= j < 128 ==> Entry(cd[k, j], key, k, j)
        modifies cd
      {
        FillRow(i);
      }
    }

    /** A table entry: what the weights of the bits of character j add up to at position i. */
    static predicate Entry(c: Mint, key: seq<Mint>, i: nat, j: nat)
      requires |key| == 42 && i < 6
    {
      0 <= c.len <= 12 && c.Value() == BitSum(Values(key), i, j, 0)
    }

    /** mkcd, one position: the entries of all 128 characters. */
    method FillRow(i: nat)
      requires a.Length == 42 && cd.Length0 == 6 && cd.Length1 == 128 && i < 6
      requires forall k :: 0 <= k < 42 ==> 0 <= a[k].len <= 5
      requires forall j :: 0 <= j < 128 ==> cd[i, j] == ZERO
      modifies cd
      ensures forall j :: 0 <= j < 128 ==> Entry(cd[i, j], a[..], i, j)
      ensures forall k, j :: 0 <= k < 6 && k != i && 0 <= j < 128 ==> cd[k, j] == old(cd[k, j])
    {
      hide Entry;
      for j := 0 to 128
        invariant forall l :: j <= l < 128 ==> cd[i, l] == ZERO
        invariant forall l :: 0 <= l < j ==> Entry(cd[i, l], a[..], i, l)
        invariant forall k, l :: 0 <= k < 6 && k != i && 0 <= l < 128 ==> cd[k, l] == old(cd[k, l])
      {
        var c := SumOfBits(a[..], cd[i, j], i, j);
        cd[i, j] := c;
      }
    }

    /** mkcd, its innermost loop: the weights of the bits of j, added to an empty table entry. */
    static method SumOfBits(a: seq<Mint>, entry: Mint, i: nat, j: nat) returns (c: Mint)
      requires |a| == 42 && i < 6 && entry == ZERO
      requires forall k :: 0 <= k < 42 ==> 0 <= a[k].len <= 5
      ensures Entry(c, a, i, j)
    {
      hide Val, Storage.Value;
      c := entry;
      NoDigitsZero();
      var k, n := j, 0;
      while k > 0 && n < 7
        invariant 0 <= n <= 7 && k >= 0
        invariant 0 <= c.len <= 5 + n
        invariant c.Value() + BitSum(Values(a), i, k, n) == BitSum(Values(a), i, j, 0)
        decreases 7 - n
      {
        if k % 2 == 1 {
          assert Values(a)[7 * i + n] == a[7 * i + n].Value();
          c := Add(c, a[7 * i + n]);
        }
        n := n + 1;
        k := k / 2;
      }
    }

    /** encipher: the message number of six characters. */
    method Encipher(s: seq<nat>)
      requires Tabled() && |s| == 6
      modifies this`msg
      ensures Tabled() && msg.Value() == MessageSum(Values(a[..]), s, 6)
    {
      hide Val, Storage.Value, BitSum;
      msg := Subtract(msg, msg);
      EmptyDifference(msg);
      for i := 0 to 6
        invariant 0 <= msg.len <= 12 + i && Tabled()
        invariant msg.Value() == MessageSum(Values(a[..]), s, i)
      {
        msg := Add(msg, cd[i, s[i] % 128]);
      }
    }
  }

  lemma NoDigitsZero()
    ensures ZERO.Value() == 0
  {
    assert ZERO.Digits() == [];
  }

  lemma EmptyDifference(m: Mint)
    requires m.Normal() && m.Value() == 0
    ensures m.len == 0
  {
    NormalSign(m);
  }

  /** decipher, for one message number: six characters from digits 1, 2 and 3 of the secret number.
      With fewer than four digits in use the original reads past the number; `ok` is then false. */
  method Decipher(mbuf: Mint, x: Mint, b: Mint) returns (ok: bool, t: seq<nat>)
    requires 0 <= mbuf.len <= 32767 && x.len > 0 && b.Normal() && b.len > 0
    requires mbuf.Value() >= 0 && x.Value() >= 0 && b.Value() > 0
    ensures var product := mbuf.Value() * x.Value();
      && 0 <= product < BasePow(mbuf.len + x.len)
      && (ok <==> ReadsWithin(product, mbuf.len + x.len, b.len, product % b.Value()))
      && (ok ==> t == Characters(product % b.Value()))
  {
    hide Val, Storage.Value, Storage.Normal, Divides, BasePow, DigitOf;
    var m := Multiply(mbuf, x);
    MulLe(0, mbuf.Value(), x.Value());
    MintSign(m);
    var fine, q, r := Div(m, b);
    MintSign(r);
    ReducedProduct(m.Value(), b.Value(), q.Value(), r.Value());
    t := [];
    DigitsInUse(m, mbuf.len + x.len, r, b.len);
    ValBound(m.val);
    MagnitudeIsValue(m);
    if r.len <= 3 {
      return false, t;
    }
    for i := 1 to 4
      invariant |t| == 2 * (i - 1)
      invariant forall k :: 1 <= k < i ==> t[2 * k - 2] == r.val[k] % 128 && t[2 * k - 1] == r.val[k] / 256 % 128
    {
      var a := r.val[i];
      t := t + [a % 128];
      a := a / 256;
      t := t + [a % 128];
    }
    CharactersRead(r);
    ok := true;
  }

  /** How many digits the product m and its remainder r have in use. */
  lemma DigitsInUse(m: Mint, length: nat, r: Mint, modulusLength: nat)
    requires length > 0 && length - 1 <= m.len <= length && (m.len == length ==> m.Normal()) && m.Value() >= 0
    requires r.len >= 0 && r.Value() >= 0
    requires if m.len < modulusLength then r.len == m.len else r.Normal()
    ensures r.len > 3 <==> ReadsWithin(m.Value(), length, modulusLength, r.Value())
  {
    hide Val, BasePow;
    ValBound(m.Digits());
    if m.len == length {
      ValTop(m.Digits());
    }
    ValBound(r.Digits());
    if r.len > 3 && m.len >= modulusLength {
      ValTop(r.Digits());
      BasePowMonotone(3, r.len - 1);
    } else if r.len <= 3 {
      BasePowMonotone(r.len, 3);
    }
  }

  lemma CharactersRead(r: Mint)
    requires r.len > 3 && r.Value() >= 0
    ensures Characters(r.Value()) ==
      [r.val[1] % 128, r.val[1] / 256 % 128, r.val[2] % 128, r.val[2] / 256 % 128, r.val[3] % 128, r.val[3] / 256 % 128]
  {
    hide Val;
    CharactersOfVal(r.Digits());
  }

  // ----- Numbers of the library and numbers of this module -----

  /** The result is a proper number, and a is it. */
  ghost predicate RawIs(r: Shorts.Result<Shorts.Number>, a: Mint) {
    r.Is? && r.value.Moved() == Shorts.Raw(a.len, a.Digits())
  }

  /** A number above zero in proper digits, as the other routines take it. */
  method ToMint(r: Shorts.Result<Shorts.Number>) returns (ok: bool, a: Mint)
    ensures ok ==> r.Is? && a.len > 0 && a.Value() > 0 && RawIs(r, a) && Stands(r.value, a.Value())
    ensures !ok ==> r.Undefined? || r.value.len <= 0 || !LeadingZero.Proper(r.value) || Stands(r.value, 0)
  {
    hide Val;
    a := ZERO;
    if r.Undefined? || r.value.len <= 0 || !LeadingZero.Proper(r.value) {
      return false, a;
    }
    var d: seq<Digit> := r.value.Used();
    if Val(d) == 0 {
      return false, a;
    }
    a := Mint(r.value.len, d);
    assert a.Digits() == d;
    ok := true;
  }

  lemma GuessDigits(key: Key, gen: Generator, x: Mint)
    requires x.len == 4 && x.Value() == MultiplierStart(key, gen, 4)
    ensures Shorts.Raw(4, x.Digits()) == Guess(key, gen)
  {
    hide Val;
    DigitRange(key, gen, 0);
    DigitRange(key, gen, 1);
    DigitRange(key, gen, 2);
    DigitRange(key, gen, 3);
    var d: seq<Digit> := [MultiplierDigit(key, gen, 3), MultiplierDigit(key, gen, 2), MultiplierDigit(key, gen, 1),
      MultiplierDigit(key, gen, 0)];
    FourDigits(d[0], d[1], d[2], d[3]);
    StartOfDigits(key, gen);
    ValUnique(x.Digits(), d);
  }

  lemma StartOfDigits(key: Key, gen: Generator)
    ensures MultiplierStart(key, gen, 4) == MultiplierDigit(key, gen, 3) + 0x8000 * MultiplierDigit(key, gen, 2)
      + 0x4000_0000 * MultiplierDigit(key, gen, 1) + 0x2000_0000_0000 * MultiplierDigit(key, gen, 0)
  {
    hide MultiplierDigit;
    assert MultiplierStart(key, gen, 0) == 0;
    assert MultiplierStart(key, gen, 1) == MultiplierDigit(key, gen, 0);
    assert MultiplierStart(key, gen, 2) == 32768 * MultiplierDigit(key, gen, 0) + MultiplierDigit(key, gen, 1);
  }

  lemma ModulusDigits(key: Key, gen: Generator, b: Mint)
    requires b.len == 5 && b.Value() == Modulus(key, gen)
    ensures Shorts.Raw(5, b.Digits()) == ModulusNumber(key, gen)
  {
    hide Val, DigitOf, Modulus;
    DigitOfVal(b.Digits(), 0);
    DigitOfVal(b.Digits(), 1);
    DigitOfVal(b.Digits(), 2);
    DigitOfVal(b.Digits(), 3);
    DigitOfVal(b.Digits(), 4);
  }

  /** enroll: the public weights. `made` is false when the steps of mkx on a leading zero do not end in
      the given turns, or not with a proper number. */
  method Enroll(key: Key, gen: Generator, turns: nat) returns (made: bool, public: seq<Mint>, ghost x: nat)
    ensures MultiplierDigit(key, gen, 0) != 0 ==> made
    ensures made ==>
      && MultiplierIs(key, gen, x, turns) && Modulus(key, gen) > 0
      && |public| == 42 && (forall i :: 0 <= i < 42 ==> 0 <= public[i].len <= 5)
      && Values(public) == PublicWeights(key, gen, x)
  {
    hide Val, Storage.Value, Storage.Normal, Modulus, Weight, MultiplierDigit, MultiplierStart, MultiplierIs, RawIs;
    public, x := [], 0;
    var secret := new Secret(key, gen);
    secret.MakeModulus();
    made := secret.MakeMultiplier(turns);
    if made {
      x := secret.x.Value();
      ModulusRange(key, gen);
      secret.MakePublic();
      public := secret.a[..];
    }
  }

  /** xget up to its message loop: the same modulus and multiplier, and what invert makes of it: the
      inverse, if the guess has no leading zero. */
  method Unlock(key: Key, gen: Generator, turns: nat) returns (made: bool, inverse: Mint, b: Mint, ghost x: nat)
    ensures MultiplierDigit(key, gen, 0) != 0 ==> made
    ensures made ==>
      && b.Normal() && b.len == 5 && b.Value() == Modulus(key, gen) > 0
      && inverse.len > 0 && inverse.Value() > 0 && Keys(key, gen, x, inverse.Value(), turns)
  {
    hide Val, Storage.Value, Storage.Normal, Modulus, MultiplierDigit, MultiplierStart, NumberTheory.Congruent;
    hide MultiplierIs, RawIs, RawMultiplier, Keys, NumberTheory.Gcd, Stands, ModulusNumber, RawInverse;
    inverse, b, x := ZERO, ZERO, 0;
    var secret := new Secret(key, gen);
    secret.MakeModulus();
    made := secret.MakeMultiplier(turns);
    if made {
      x := secret.x.Value();
      b := secret.b;
      ModulusRange(key, gen);
      if MultiplierDigit(key, gen, 0) != 0 {
        inverse := Invert(secret.x, b);
        CoprimeMultiplier(key, gen, x, inverse.Value(), turns);
        NonzeroHasDigits(inverse);
      } else {
        made, inverse := InvertRaw(key, gen, secret.x, b, turns);
      }
    }
  }

  /** invert of a multiplier that came from a leading zero. */
  method InvertRaw(key: Key, gen: Generator, x: Mint, b: Mint, turns: nat) returns (ok: bool, inverse: Mint)
    requires MultiplierDigit(key, gen, 0) == 0 && b.len == 5 && b.Value() == Modulus(key, gen)
    requires x.Value() >= 0 && RawIs(RawMultiplier(key, gen, turns), x) && MultiplierIs(key, gen, x.Value(), turns)
    ensures ok ==> inverse.len > 0 && inverse.Value() > 0 && Keys(key, gen, x.Value(), inverse.Value(), turns)
  {
    hide Val, Storage.Value, Modulus, MultiplierDigit, MultiplierIs, RawIs, RawMultiplier, Keys, Stands, ModulusNumber;
    ModulusDigits(key, gen, b);
    var c := Shorts.Invert(Shorts.Raw(x.len, x.Digits()), Shorts.Raw(5, b.Digits()), turns);
    ok, inverse := ToMint(c);
    if ok {
      SameInverse(key, gen, turns, x, inverse);
    }
  }

  lemma CoprimeMultiplier(key: Key, gen: Generator, x: nat, c: int, turns: nat)
    requires MultiplierDigit(key, gen, 0) != 0 && MultiplierIs(key, gen, x, turns)
    ensures Modulus(key, gen) > 2 && NumberTheory.Gcd(Modulus(key, gen), x) == 1
    ensures c >= 0 && NumberTheory.Congruent(x * c, 1, Modulus(key, gen)) ==> Keys(key, gen, x, c, turns)
  {
    hide Modulus, MultiplierStart, MultiplierDigit, NextCoprime, NumberTheory.Congruent;
  }

  /** invert only looks at the digits in use. */
  lemma SameInverse(key: Key, gen: Generator, turns: nat, x: Mint, c: Mint)
    requires RawIs(RawMultiplier(key, gen, turns), x) && x.Value() >= 0 && c.Value() >= 0
    requires MultiplierDigit(key, gen, 0) == 0 && MultiplierIs(key, gen, x.Value(), turns)
    requires var i := Shorts.Invert(Shorts.Raw(x.len, x.Digits()), ModulusNumber(key, gen), turns);
      i.Is? && Stands(i.value, c.Value())
    ensures Keys(key, gen, x.Value(), c.Value(), turns)
  {
    hide Shorts.InvertFrom, RawMultiplier, ModulusNumber, MultiplierDigit, Val, Stands;
    var a: Shorts.Number := Shorts.Raw(x.len, x.Digits());
    assert a.Moved() == a;
    assert RawMultiplier(key, gen, turns).value.Moved() == a;
  }

  /** Enrolling, sending six characters, and reading them back with the same password. Whatever comes back
      is what KnapsackRuns says. If the top digit of the guess is not zero, a key is made whatever the
      password and the random numbers, the characters come back as they were sent, and decipher stays
      within its number unless the last two of them are both NUL. `length` counts the digits of the message
      number and the inverse; from 6 on these two NULs always lead it outside. */
  method SendAndReceive(key: Key, gen: Generator, s: seq<nat>, turns: nat)
    returns (made: bool, ok: bool, t: seq<nat>, ghost length: nat)
    requires |s| == 6
    ensures MultiplierDigit(key, gen, 0) != 0 ==> made
    ensures made && ok ==> ComesBack(key, gen, s, t)
    ensures MultiplierDigit(key, gen, 0) != 0 && ok ==> t == SevenBits(s)
    ensures MultiplierDigit(key, gen, 0) != 0 && (s[4] % 128 != 0 || s[5] % 128 != 0) ==> ok
    ensures MultiplierDigit(key, gen, 0) != 0 && length >= 6 ==> (ok <==> s[4] % 128 != 0 || s[5] % 128 != 0)
  {
    hide Val, Storage.Value, Storage.Normal, Modulus, BitSum, MessageSum, MultiplierDigit, MultiplierStart, Public;
    hide NumberTheory.Congruent, BasePow, PlainDigits, Multiplier, Sender.Entry, Keys, MultiplierIs, PublicWeights;
    hide Characters, SevenBits, ReadsWithin, ComesBack;
    ok, t, length := false, [], 0;
    var public, inverse, b;
    ghost var x, y;
    made, public, x := Enroll(key, gen, turns);
    if made {
      var sender := new Sender(public);
      sender.Encipher(s);
      MintSign(sender.msg);
      made, inverse, b, y := Unlock(key, gen, turns);
      if made {
        SameMultiplier(key, gen, x, y, inverse.Value(), turns);
        ok, t := Decipher(sender.msg, inverse, b);
        length := sender.msg.len + inverse.len;
        Received(key, gen, s, x, inverse.Value(), turns, length, ok, t);
      }
    }
  }

  /** enroll and xget compute the same multiplier. */
  lemma SameMultiplier(key: Key, gen: Generator, x: nat, y: nat, c: nat, turns: nat)
    requires MultiplierIs(key, gen, x, turns) && Keys(key, gen, y, c, turns)
    ensures x == y
  {
    hide Modulus, MultiplierDigit, MultiplierStart, Multiplier, RawMultiplier, InverseIs, Val;
  }

  lemma Received(key: Key, gen: Generator, s: seq<nat>, x: nat, c: nat, turns: nat, length: nat, ok: bool, t: seq<nat>)
    requires |s| == 6 && Keys(key, gen, x, c, turns) && Modulus(key, gen) > 0 && length > 0
    requires var product := MessageSum(PublicWeights(key, gen, x), s, 6) * c;
      && 0 <= product < BasePow(length)
      && (ok <==> ReadsWithin(product, length, 5, product % Modulus(key, gen)))
      && (ok ==> t == Characters(product % Modulus(key, gen)))
    ensures ok ==> ComesBack(key, gen, s, t)
    ensures MultiplierDigit(key, gen, 0) != 0 && ok ==> t == SevenBits(s)
    ensures MultiplierDigit(key, gen, 0) != 0 && (s[4] % 128 != 0 || s[5] % 128 != 0) ==> ok
    ensures MultiplierDigit(key, gen, 0) != 0 && length >= 6 ==> (ok <==> s[4] % 128 != 0 || s[5] % 128 != 0)
  {
    hide Val, Modulus, MessageSum, MultiplierDigit, MultiplierStart, NumberTheory.Congruent, BasePow, PlainDigits;
    hide Multiplier, PublicWeights, Characters, SevenBits, ReadsWithin;
    var product := MessageSum(PublicWeights(key, gen, x), s, 6) * c;
    assert ok ==> Deciphered(key, gen, s, t, x, c);
    if MultiplierDigit(key, gen, 0) != 0 {
      hide Deciphered, ComesBack;
      PlainRemainder(key, gen, s, x, c);
      PlainCharacters(key, gen, s);
      var plain := product % Modulus(key, gen);
      SmallerRemainder(product, Modulus(key, gen));
      if s[4] % 128 != 0 || s[5] % 128 != 0 {
        ReadsMessage(key, gen, s, product, length, plain);
      } else if length >= 6 {
        TwoNulsReadPast(key, gen, s, product, length);
      }
    }
  }

  lemma SmallerRemainder(p: nat, b: nat)
    requires b > 0
    ensures p % b <= p
  {}
}
