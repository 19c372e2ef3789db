/** pow.c: modular powers by repeated squaring, and exact powers through a modulus too large to
    matter. */
module Powers {
  import opened Machine
  import opened Digits
  import opened Mints
  import opened Multiplication
  import opened ShortDivision
  import opened LongDivision
  import opened Euclid
  import opened NumberTheory

  /** No power on the way to a^b vanishes modulo c. A vanished power would be squared as an operand
      of length 0, which is not a thing mult can be asked to do. */
  ghost predicate NeverVanishes(a: int, b: nat, c: nat) {
    c > 1 && forall k: nat :: 0 < k < b ==> Pow(a, k) % c != 0
  }

  lemma CoprimeNeverVanishes(a: int, b: nat, c: nat)
    requires c > 1 && Gcd(Abs(a), c) == 1
    ensures NeverVanishes(a, b, c)
  {
    forall k: nat | 0 < k < b
      ensures Pow(a, k) % c != 0
    {
      CoprimePower(Abs(a), c, k);
      PowMagnitude(a, k);
      NegativeMod(Pow(Abs(a), k), c);
    }
  }

  lemma {:induction false} PowMagnitude(a: int, k: nat)
    ensures Pow(a, k) == if Negative(a, k) then -Pow(Abs(a), k) else Pow(Abs(a), k)
  {
    if k > 0 {
      PowMagnitude(a, k - 1);
      var p := Pow(Abs(a), k - 1);
      assert (-p) * a == p * -a && (-p) * -a == p * a;
    }
  }

  /** A number and its negative are congruent to zero together, and -((-n) mod c) is congruent to n. */
  lemma NegativeMod(n: int, c: int)
    requires c > 0
    ensures (-n) % c == 0 <==> n % c == 0
    ensures (-(n % c)) % c == (-n) % c
  {
    var q, r := n / c, n % c;
    MulDistribute(0, q, c);
    assert -n == c * -q + -r;
    if r == 0 {
      DivModUnique(-n, c, -q, 0);
    } else {
      MulDistribute(-q, -1, c);
      DivModUnique(-n, c, -q - 1, c - r);
      DivModUnique(-r, c, -1, c - r);
    }
  }

  /** (n = n << 1) & 0100000: the bit that reaches position 15, and what is left below it. */
  lemma ShiftOut(n: Int16)
    ensures var f, f' := Low15(n), Low15(Wrap16(2 * n));
      2 * (f as int) == f' + (if SignBit(Wrap16(2 * n)) then 32768 else 0)
  {}

  /** Where the exponent stands after i of the 15 bits of a digit: `e` so far, `f` still to come out
      of the shifted digit, `v` what the exponent will be after all of them. */
  predicate BitsDone(v: nat, i: nat, e: nat, f: int) {
    0 <= f < 32768 && 32768 * e + f == Times(v, Pow(2, i))
  }

  lemma BitsStart(v: nat, n: Digit)
    ensures BitsDone(32768 * v + n, 0, v, n)
  {}

  lemma BitsStep(v: nat, i: nat, e: nat, f: int, bit: int, f': int)
    requires BitsDone(v, i, e, f) && 2 * f == f' + 32768 * bit && 0 <= f' < 32768
    requires bit == 0 || bit == 1
    ensures BitsDone(v, i + 1, 2 * e + bit, f')
  {
    assert Times(v, Pow(2, i + 1)) == 2 * Times(v, Pow(2, i)) by {
      MulAssoc(v, 2, Pow(2, i));
      MulAssoc(2, v, Pow(2, i));
    }
  }

  lemma {:induction false} Pow2Bound(i: nat)
    requires i <= 15
    ensures 1 <= Pow(2, i) && (i < 15 ==> 2 * Pow(2, i) <= 32768) && (i == 15 ==> Pow(2, i) == 32768)
  {
    assert Pow(2, 0) == 1 && Pow(2, 1) == 2 && Pow(2, 2) == 4 && Pow(2, 3) == 8;
    assert Pow(2, 4) == 16 && Pow(2, 5) == 32 && Pow(2, 6) == 64 && Pow(2, 7) == 128;
    assert Pow(2, 8) == 256 && Pow(2, 9) == 512 && Pow(2, 10) == 1024 && Pow(2, 11) == 2048;
    assert Pow(2, 12) == 4096 && Pow(2, 13) == 8192 && Pow(2, 14) == 16384 && Pow(2, 15) == 32768;
  }

  lemma BitsLeft(v: nat, i: nat, e: nat, f: int)
    requires BitsDone(v, i, e, f) && i <= 15
    ensures e <= v && (i < 15 ==> 2 * e <= v) && (i == 15 ==> e == v)
  {
    Pow2Bound(i);
    MulLe(Pow(2, i), if i == 15 then 32768 else 16384, v);
  }

  lemma {:induction false} SuffixAtMost(s: seq<Digit>, i: nat)
    requires i <= |s|
    ensures Val(s[i..]) <= Val(s)
  {
    ValSplit(s, i);
    MulLe(1, BasePow(i), Val(s[i..]));
  }

  /** a^e is negative. */
  predicate Negative(a: int, e: nat) {
    a < 0 && e % 2 == 1
  }

  /** x is a^e modulo c, with the sign of a^e. */
  predicate IsPower(x: int, a: int, e: nat, c: nat)
    requires c > 0
  {
    Congruent(x, Pow(a, e), c) && Abs(x) < c && if Negative(a, e) then x <= 0 else x >= 0
  }

  /** r is what is left of n modulo c, with the sign of n. */
  predicate IsRest(r: int, n: int, c: nat)
    requires c > 0
  {
    Congruent(r, n, c) && Abs(r) < c && (n < 0 ==> r <= 0) && (n > 0 ==> r >= 0) && (n == 0 ==> r == 0)
  }

  lemma Squared(x: int, r: int, a: int, e: nat, c: nat)
    requires c > 0 && IsPower(x, a, e, c) && IsRest(r, x * x, c)
    ensures IsPower(r, a, 2 * e, c)
  {
    PowAdd(a, e, e);
    CongruentMul(x, Pow(a, e), x, Pow(a, e), c);
    MulSquare(x);
  }

  lemma MulSquare(x: int)
    ensures x * x >= 0
  {
    if x >= 0 {
      MulLe(0, x, x);
    } else {
      MulLe(0, -x, -x);
    }
  }

  lemma TimesBase(x: int, r: int, a: int, e: nat, c: nat)
    requires c > 0 && IsPower(x, a, e, c) && e % 2 == 0 && IsRest(r, a * x, c)
    ensures IsPower(r, a, e + 1, c)
  {
    CongruentMul(a, a, x, Pow(a, e), c);
    if a >= 0 {
      MulLe(0, a, x);
    } else {
      MulLe(0, -a, x);
    }
  }

  lemma NonzeroSoFar(x: Mint, a: int, e: nat, b: nat, c: nat)
    requires NeverVanishes(a, b, c) && IsPower(x.Value(), a, e, c) && (e < b || e == 0)
    ensures x.len != 0
  {
    MintSign(x);
    SmallMod(0, c);
    if e == 0 {
      SmallMod(1, c);
    }
  }

  /** mult and mdiv together: the product reduced modulo c. */
  method MultiplyMod(x: Mint, y: Mint, c: Mint) returns (d: Mint)
    requires (x.len != 0 || y.len != 0) && (Abs(x.len) <= 32767 || Abs(y.len) <= 32767)
    requires c.Normal() && c.len > 0
    ensures Abs(d.len) <= c.len && c.Value() > 0
    ensures IsRest(d.Value(), x.Value() * y.Value(), c.Value())
    ensures x.len >= 0 && y.len >= 0 ==> d.len >= 0
    ensures x.Normal() && y.Normal() && x.len != 0 && y.len != 0 ==> d.Normal()
  {
    hide Val, Storage.Value, Storage.Normal, Divides;
    NormalSign(c);
    var product := Multiply(x, y);
    MintSign(product);
    var ok, q, r := Div(product, c);
    d := r;
    RestOfDivision(product.Value(), c.Value(), product.len < 0, q.Value(), d.Value());
  }

  lemma RestOfDivision(n: int, c: nat, negative: bool, q: int, r: int)
    requires c > 0 && Divides(n, c, negative, q, r)
    requires if negative then n <= 0 else n >= 0
    ensures IsRest(r, n, c)
  {
    DividesIsDivMod(n, c, negative, q, r);
    NegativeMod(Abs(n), c);
    SmallMod(0, c);
    SmallMod(Abs(r), c);
  }

  /** The fifteen squarings for one digit of the exponent. */
  method DigitPower(a: Mint, n0: Digit, c: Mint, d0: Mint, ghost b: nat, ghost v: nat) returns (d: Mint)
    requires c.Normal() && 0 < c.len <= 32767 && c.Value() > 1
    requires Abs(d0.len) <= 32767 && IsPower(d0.Value(), a.Value(), v, c.Value())
    requires 32768 * v + n0 <= b && NeverVanishes(a.Value(), b, c.Value())
    ensures Abs(d.len) <= 32767 && IsPower(d.Value(), a.Value(), 32768 * v + n0, c.Value())
    ensures a.len >= 0 && d0.len >= 0 ==> d.len >= 0
    ensures a.Normal() && a.len != 0 && d0.Normal() ==> d.Normal()
  {
    hide Val, Storage.Value, Storage.Normal, IsPower, IsRest, NeverVanishes, BitsDone, Low15, Wrap16, SignBit;
    d := d0;
    var n: Int16 := n0;
    ghost var e: nat := v;
    BitsStart(v, n0);
    LowOfDigit(n0);
    for i := 0 to 15
      invariant Abs(d.len) <= 32767 && IsPower(d.Value(), a.Value(), e, c.Value())
      invariant a.len >= 0 && d0.len >= 0 ==> d.len >= 0
      invariant BitsDone(32768 * v + n0, i, e, Low15(n))
      invariant a.Normal() && a.len != 0 && d0.Normal() ==> d.Normal()
    {
      ghost var f := Low15(n);
      BitsLeft(32768 * v + n0, i, e, f);
      NonzeroSoFar(d, a.Value(), e, b, c.Value());
      ghost var x := d.Value();
      d := MultiplyMod(d, d, c);
      Squared(x, d.Value(), a.Value(), e, c.Value());
      ShiftOut(n);
      n := Wrap16(2 * n);
      BitsStep(32768 * v + n0, i, e, f, if SignBit(n) then 1 else 0, Low15(n));
      if SignBit(n) {
        BitsLeft(32768 * v + n0, i + 1, 2 * e + 1, Low15(n));
        NonzeroSoFar(d, a.Value(), 2 * e, b, c.Value());
        x := d.Value();
        d := MultiplyMod(a, d, c);
        TimesBase(x, d.Value(), a.Value(), 2 * e, c.Value());
        e := 2 * e + 1;
      } else {
        e := 2 * e;
      }
    }
    BitsLeft(32768 * v + n0, 15, e, Low15(n));
  }

  lemma LowOfDigit(n: Digit)
    ensures Low15(n) == n
  {}

  /** pow: d = a^b mod c, taking the digits of the exponent from the top. The result of a negative power is
      negative or zero. */
  method ModPower(a: Mint, b: Mint, c: Mint) returns (d: Mint)
    requires b.len >= 0 && c.Normal() && 0 < c.len <= 32767
    requires b.Value() >= 0 && c.Value() > 1
    requires NeverVanishes(a.Value(), b.Value(), c.Value())
    ensures Abs(d.len) <= 32767 && IsPower(d.Value(), a.Value(), b.Value(), c.Value())
    ensures a.len >= 0 ==> d.len >= 0
    ensures a.Value() >= 0 ==> d.Value() == Pow(a.Value(), b.Value()) % c.Value()
    ensures a.Normal() && a.len != 0 ==> d.Normal()
  {
    hide Val, Storage.Normal, NeverVanishes;
    d := Mint(1, [1]);
    OneDigit(1);
    assert d.Digits() == [1];
    SmallMod(1, c.Value());
    ghost var B := b.Digits();
    assert B[b.len..] == [];
    ValEmpty();
    for j := 0 to b.len
      invariant Abs(d.len) <= 32767 && (a.len >= 0 ==> d.len >= 0)
      invariant IsPower(d.Value(), a.Value(), Val(B[b.len - j..]), c.Value())
      invariant a.Normal() && a.len != 0 ==> d.Normal()
    {
      var k := b.len - j - 1;
      ValSuffix(B, k);
      SuffixAtMost(B, k);
      d := DigitPower(a, b.val[k], c, d, b.Value(), Val(B[k + 1..]));
    }
    assert B[0..] == B;
    if a.Value() >= 0 {
      SmallMod(d.Value(), c.Value());
    }
  }

  /** rpow: b = a^n exactly, for a > 0: the modulus, 010000 over n * a->len + 3 zero digits, is
      greater than the power. */
  method Power(a: Mint, n: Digit) returns (b: Mint)
    requires a.len > 0 && a.Value() > 0 && n * a.len + 4 <= 32767
    ensures 0 <= b.len <= 32767 && b.Value() == Pow(a.Value(), n)
    ensures a.Normal() ==> b.Normal()
  {
    hide Val, BasePow, Scaled, NeverVanishes;
    var x := Mint(1, [n]);
    OneDigit(n);
    var len := n * a.len + 4;
    LengthPositive(n, a.len);
    var y := LeadingDigit(len, 4096);
    ModulusAbovePowers(a, n, y.Value());
    b := ModPower(a, x, y);
    SmallMod(Pow(a.Value(), n), y.Value());
  }

  lemma LengthPositive(n: nat, len: nat)
    ensures n * len >= 0
  {
    MulLe(0, n, len);
  }

  lemma {:induction false} PowerFits(x: nat, len: nat, n: nat)
    requires x < BasePow(len)
    ensures n * len >= 0 && (x > 0 ==> 0 < Pow(x, n)) && 0 <= Pow(x, n) <= BasePow(n * len)
  {
    LengthPositive(n, len);
    if n > 0 {
      PowerFits(x, len, n - 1);
      BasePowAdd(len, (n - 1) * len);
      MulDistribute(n, 1, len);
      var p := Pow(x, n - 1);
      if x > 0 {
        MulLe(1, x, p);
      } else {
        assert x * p == 0;
      }
      MulLe(x, BasePow(len), p);
      MulLe(p, BasePow((n - 1) * len), BasePow(len));
    }
  }

  lemma {:induction false} PowMonotone(x: nat, k: nat, n: nat)
    requires x > 0 && k <= n
    ensures 0 < Pow(x, k) <= Pow(x, n)
    decreases n
  {
    if k < n {
      PowMonotone(x, k, n - 1);
      MulLe(1, x, Pow(x, n - 1));
    } else if n > 0 {
      PowMonotone(x, n - 1, n - 1);
      MulLe(1, x, Pow(x, n - 1));
    }
  }

  lemma ModulusAbovePowers(a: Mint, n: nat, m: nat)
    requires a.len > 0 && a.Value() > 0
    requires n * a.len >= 0 && m == Scaled(4096, n * a.len + 3)
    ensures m > 1 && 0 <= Pow(a.Value(), n) < m && NeverVanishes(a.Value(), n, m)
  {
    hide Val;
    var x := a.Value();
    ValBound(a.Digits());
    PowerFits(x, a.len, n);
    BasePowMonotone(n * a.len, n * a.len + 3);
    MulLe(2, 4096, BasePow(n * a.len + 3));
    forall k: nat | 0 < k < n
      ensures Pow(x, k) % m != 0
    {
      PowMonotone(x, k, n);
      SmallMod(Pow(x, k), m);
    }
  }
}
