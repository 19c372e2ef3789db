/** gcd.c: greatest common divisor and modular inverse. */
module Euclid {
  import opened Machine
  import opened Digits
  import opened Mints
  import opened AddSub
  import opened Multiplication
  import opened ShortDivision
  import opened LongDivision
  import NumberTheory

  /** What mdiv says about the magnitudes, in terms of / and %. */
  lemma DividesIsDivMod(a: int, b: int, opposite: bool, q: int, r: int)
    requires b != 0 && Divides(a, b, opposite, q, r)
    ensures Abs(q) == Abs(a) / Abs(b) && Abs(r) == Abs(a) % Abs(b)
  {
    NumberTheory.DivModUnique(Abs(a), Abs(b), Abs(q), Abs(r));
  }

  /** gcd: the magnitude of the answer is the greatest common divisor, for operands of any sign. */
  method GreatestCommonDivisor(a: Mint, b: Mint) returns (c: Mint)
    requires a.Normal() && b.Normal()
    ensures c.Normal() && Abs(c.Value()) == NumberTheory.Gcd(Abs(a.Value()), Abs(b.Value()))
    ensures a.len >= 0 && b.len >= 0 ==> c.len >= 0
  {
    hide Val, Storage.Value, Storage.Normal, Divides;
    var x, y := a, b;
    NormalSign(y);
    while y.len != 0
      invariant x.Normal() && y.Normal()
      invariant y.len == 0 <==> y.Value() == 0
      invariant NumberTheory.Gcd(Abs(x.Value()), Abs(y.Value())) == NumberTheory.Gcd(Abs(a.Value()), Abs(b.Value()))
      invariant a.len >= 0 && b.len >= 0 ==> x.len >= 0 && y.len >= 0
      decreases Abs(y.Value())
    {
      var ok, w, z := Div(x, y);
      DividesIsDivMod(x.Value(), y.Value(), (x.len < 0) != (y.len < 0), w.Value(), z.Value());
      x, y := y, z;
      NormalSign(y);
    }
    c := x;
  }

  /** What the coefficients of invert's loop satisfy: `anew` and `aold` are multiples of the inverse of
      a up to sign, the signs alternating with i, and they weigh x and y into b. */
  ghost predicate Cofactors(a: int, b: int, even: bool, x: int, y: int, anew: int, aold: int, k: int, l: int) {
    && Times(x, anew) + Times(y, aold) == b
    && Times(a, anew) == (if even then y else -y) + Times(k, b)
    && Times(a, aold) == (if even then -x else x) + Times(l, b)
  }

  lemma CofactorsStep(a: int, b: int, even: bool, x: int, y: int, anew: int, aold: int, k: int, l: int, w: int, z: int)
    requires Cofactors(a, b, even, x, y, anew, aold, k, l) && x == Times(y, w) + z
    ensures Cofactors(a, b, !even, y, z, Times(w, anew) + aold, anew, Times(w, k) + l, k)
  {
    hide Times;
    WeighInto(x, y, w, z, anew, aold);
    Rotate(a, w, anew, aold);
    Rotate(b, w, k, l);
    TimesSwap(Times(w, k) + l, b);
    TimesSwap(k, b);
    TimesSwap(l, b);
    TimesSwap(y, w);
    Spread(w, y, Times(k, b));
  }

  lemma WeighInto(x: int, y: int, w: int, z: int, anew: int, aold: int)
    requires x == Times(y, w) + z
    ensures Times(y, Times(w, anew) + aold) + Times(z, anew) == Times(x, anew) + Times(y, aold)
  {
    MulDistribute(w * anew, aold, y);
    MulAssoc(y, w, anew);
    MulDistribute(y * w, z, anew);
  }

  lemma Rotate(a: int, w: int, anew: int, aold: int)
    ensures Times(a, Times(w, anew) + aold) == Times(w, Times(a, anew)) + Times(a, aold)
  {
    MulDistribute(w * anew, aold, a);
    MulAssoc(a, w, anew);
    MulAssoc(w, a, anew);
  }

  lemma Spread(w: int, y: int, m: int)
    ensures Times(w, y + m) == Times(w, y) + Times(w, m)
    ensures Times(w, -y + m) == -Times(w, y) + Times(w, m)
  {
    MulDistribute(y, m, w);
    MulDistribute(m, y, w);
  }

  lemma WithinWeight(x: int, y: int, anew: int, aold: int, b: int)
    requires x >= 1 && y >= 0 && anew >= 0 && aold >= 0
    requires Times(x, anew) + Times(y, aold) == b
    ensures anew <= b
  {
    MulLe(1, x, anew);
    MulLe(0, y, aold);
  }

  /** The parity fix-up at the end of invert. */
  lemma Invertible(a: int, b: int, even: bool, g: int, anew: int, aold: int, k: int, l: int, c: int)
    requires b > 0 && Cofactors(a, b, even, g, 0, anew, aold, k, l)
    requires c == if even then b - aold else aold
    ensures NumberTheory.Congruent(a * c, g, b)
    ensures g == 1 && b > 1 ==> c != 0 && c != b
  {
    if even {
      MulDistribute(b, aold, a);
      MulDistribute(a, l, b);
      NumberTheory.CongruentBy(a * c, g, a - l, b);
    } else {
      NumberTheory.CongruentBy(a * c, g, l, b);
    }
    if g == 1 && b > 1 {
      NumberTheory.SmallMod(1, b);
      NumberTheory.SmallMod(0, b);
      NumberTheory.CongruentBy(a * b, 0, a, b);
    }
  }

  lemma CofactorsWeight(a: int, b: int, even: bool, x: int, y: int, anew: int, aold: int, k: int, l: int)
    requires Cofactors(a, b, even, x, y, anew, aold, k, l)
    requires x >= 1 && y >= 0 && anew >= 0 && aold >= 0
    ensures anew <= b
  {
    WithinWeight(x, y, anew, aold, b);
  }

  lemma WrapKeepsParity(i: Int16)
    ensures (Wrap16(i + 1) % 2 == 0) == (i % 2 != 0)
  {
    if i == 32767 {
      assert Wrap16(i + 1) == -32768;
    } else {
      assert Wrap16(i + 1) == i + 1;
    }
  }

  lemma QuotientOfGreater(x: int, y: int, w: Mint, z: int)
    requires 0 <= x && 0 < y && Divides(x, y, false, w.Value(), z)
    ensures x == Times(y, w.Value()) + z && 0 <= z < y
    ensures x >= y ==> w.len != 0
  {
    MintSign(w);
    MulDistribute(0, 0, y);
  }

  /** The start of invert's loop. */
  lemma CofactorsStart(a: int, b: int)
    ensures Cofactors(a, b, true, b, a, 1, 0, 0, 1)
  {}

  /** invert: c times a is congruent to gcd(a, b) modulo b; for a prime to b > 1 that makes c the
      inverse of a, strictly between 0 and b. The loop counter is a 16-bit int, of which only the
      parity matters. */
  method Invert(a: Mint, b: Mint) returns (c: Mint)
    requires a.Normal() && b.Normal() && 0 <= a.len <= 32767 && 0 < b.len <= 32767
    ensures c.len >= 0 && 0 <= c.Value() <= b.Value()
    ensures b.Value() > 0
    ensures NumberTheory.Congruent(a.Value() * c.Value(), NumberTheory.Gcd(b.Value(), a.Value()), b.Value())
    ensures NumberTheory.Gcd(b.Value(), a.Value()) == 1 < b.Value() ==> 0 < c.Value() < b.Value()
  {
    hide Val, Times, Wrap16, Storage.Value, Storage.Normal, Divides, Cofactors;
    ghost var A, B := a.Value(), b.Value();
    var i: Int16 := 0;
    OneDigit(1);
    var anew: Mint, aold := Mint(1, [1]), ZERO;
    MintSign(aold);
    var x, y := b, a;
    NormalSign(x);
    NormalSign(y);
    ghost var k, l := 0, 1;
    CofactorsStart(A, B);
    while y.len != 0
      invariant x.Normal() && y.Normal() && 0 < x.len <= 32767 && 0 <= y.len <= 32767
      invariant x.Value() > 0 && y.Value() >= 0 && (y.len == 0 <==> y.Value() == 0)
      invariant anew.len >= 0 && aold.len >= 0 && 0 <= aold.Value() <= B
      invariant anew.len > 0 || x.Value() > y.Value()
      invariant Cofactors(A, B, i % 2 == 0, x.Value(), y.Value(), anew.Value(), aold.Value(), k, l)
      invariant NumberTheory.Gcd(x.Value(), y.Value()) == NumberTheory.Gcd(B, A)
      decreases y.Value()
    {
      var ok, w, z := Div(x, y);
      DividesIsDivMod(x.Value(), y.Value(), false, w.Value(), z.Value());
      QuotientOfGreater(x.Value(), y.Value(), w, z.Value());
      ghost var w0 := w.Value();
      MintSign(anew);
      CofactorsWeight(A, B, i % 2 == 0, x.Value(), y.Value(), anew.Value(), aold.Value(), k, l);
      CofactorsStep(A, B, i % 2 == 0, x.Value(), y.Value(), anew.Value(), aold.Value(), k, l, w0, z.Value());
      var kept := anew;
      TimesIs(w0, anew.Value());
      anew := Multiply(w, anew);
      anew := Add(anew, aold);
      aold := kept;
      x, y := y, z;
      NormalSign(x);
      NormalSign(y);
      MintSign(y);
      k, l := Times(w0, k) + l, k;
      WrapKeepsParity(i);
      i := Wrap16(i + 1);
    }
    c := aold;
    if i % 2 == 0 {
      c := Subtract(b, c);
      NormalSign(c);
    }
    Invertible(A, B, i % 2 == 0, x.Value(), anew.Value(), aold.Value(), k, l, c.Value());
  }
}
