/** Divisibility, congruence and powers of integers, as the routines above long division need them. */
module NumberTheory {
  import opened Digits

  /** n is a multiple of d. */
  ghost predicate IsDivisor(d: int, n: int) {
    exists k: int :: n == Times(d, k)
  }

  /** x and y leave the same remainder on division by m. */
  predicate Congruent(x: int, y: int, m: int)
    requires m > 0
  {
    x % m == y % m
  }

  /** Euclid's algorithm. */
  function Gcd(a: nat, b: nat): nat
    decreases b
  {
    if b == 0 then a else Gcd(b, a % b)
  }

  lemma DivisorOfSum(d: int, x: int, y: int, k: int)
    requires IsDivisor(d, x) && IsDivisor(d, y)
    ensures IsDivisor(d, x + k * y) && IsDivisor(d, x - k * y)
  {
    var i :| x == Times(d, i);
    var j :| y == Times(d, j);
    assert k * y == d * (k * j) by {
      MulAssoc(k, d, j);
      MulAssoc(d, k, j);
    }
    MulDistribute(i, k * j, d);
    assert x + k * y == Times(d, i + k * j);
    assert x - k * y == Times(d, i - k * j);
  }

  /** Euclid's algorithm finds a common divisor that every common divisor divides. */
  lemma {:induction false} GcdIsGreatest(a: nat, b: nat, e: int)
    ensures IsDivisor(Gcd(a, b), a) && IsDivisor(Gcd(a, b), b)
    ensures IsDivisor(e, a) && IsDivisor(e, b) ==> IsDivisor(e, Gcd(a, b))
    decreases b
  {
    if b == 0 {
      assert a == Times(a, 1) && 0 == Times(a, 0);
    } else {
      GcdIsGreatest(b, a % b, e);
      assert a == a % b + (a / b) * b;
      DivisorOfSum(Gcd(a, b), a % b, b, a / b);
      if IsDivisor(e, a) && IsDivisor(e, b) {
        DivisorOfSum(e, a, b, a / b);
      }
    }
  }

  /** The coefficients that make the greatest common divisor a combination of a and b. */
  lemma {:induction false} Bezout(a: nat, b: nat) returns (s: int, t: int)
    ensures s * a + t * b == Gcd(a, b)
    decreases b
  {
    if b == 0 {
      s, t := 1, 0;
    } else {
      var s', t' := Bezout(b, a % b);
      s, t := t', s' - t' * (a / b);
      assert a % b == a - (a / b) * b;
      assert t * b == s' * b - t' * (a / b) * b by {
        MulDistribute(s', t' * (a / b), b);
      }
      assert t' * (a - (a / b) * b) == t' * a - t' * (a / b) * b by {
        MulDistribute(a, (a / b) * b, t');
        MulAssoc(t', a / b, b);
      }
    }
  }

  /** Quotient and remainder are determined. */
  lemma DivModUnique(a: int, b: int, q: int, r: int)
    requires 0 <= r < b && a == b * q + r
    ensures a / b == q && a % b == r
  {
    var e := a / b - q;
    assert b * e == r - a % b by {
      MulDistribute(a / b, q, b);
    }
    if e >= 1 {
      MulLe(1, e, b);
    } else if e <= -1 {
      MulLe(e, -1, b);
    }
  }

  lemma CongruentBy(x: int, y: int, k: int, m: int)
    requires m > 0 && x == y + k * m
    ensures Congruent(x, y, m)
  {
    MulDistribute(y / m, k, m);
    DivModUnique(x, m, y / m + k, y % m);
  }

  lemma CongruentAdd(x: int, x': int, y: int, y': int, m: int)
    requires m > 0 && Congruent(x, x', m) && Congruent(y, y', m)
    ensures Congruent(x + y, x' + y', m)
  {
    MulDistribute(x / m - x' / m, y / m - y' / m, m);
    MulDistribute(x / m, x' / m, m);
    MulDistribute(y / m, y' / m, m);
    CongruentBy(x + y, x' + y', x / m - x' / m + y / m - y' / m, m);
  }

  lemma CongruentMul(x: int, x': int, y: int, y': int, m: int)
    requires m > 0 && Congruent(x, x', m) && Congruent(y, y', m)
    ensures Congruent(x * y, x' * y', m)
  {
    hide Congruent;
    ByRemainder(x, m);
    ByRemainder(y, m);
    ByRemainder(x', m);
    ByRemainder(y', m);
    SameRemainders(x, x', m);
    SameRemainders(y, y', m);
    ProductCongruent(x, y, x % m, y % m, x / m, y / m, m);
    ProductCongruent(x', y', x % m, y % m, x' / m, y' / m, m);
    Through(x * y, x' * y', (x % m) * (y % m), m);
  }

  lemma SameRemainders(x: int, x': int, m: int)
    requires m > 0 && Congruent(x, x', m)
    ensures x % m == x' % m
  {}

  lemma ByRemainder(x: int, m: int)
    requires m > 0
    ensures x == (x / m) * m + x % m
  {}

  lemma Through(x: int, y: int, z: int, m: int)
    requires m > 0 && Congruent(x, z, m) && Congruent(y, z, m)
    ensures Congruent(x, y, m)
  {}

  lemma ProductCongruent(x: int, y: int, p: int, q: int, i: int, j: int, m: int)
    requires m > 0 && x == i * m + p && y == j * m + q
    ensures Congruent(x * y, p * q, m)
  {
    assert x * y == p * q + (i * y + p * j) * m by {
      MulDistribute(x, p, y);
      MulDistribute(y, q, p);
      MulAssoc(i, m, y);
      MulAssoc(i, y, m);
      MulAssoc(p, j, m);
      MulDistribute(i * y, p * j, m);
    }
    CongruentBy(x * y, p * q, i * y + p * j, m);
  }

  lemma {:induction false} PowAdd(b: int, m: nat, n: nat)
    ensures Pow(b, m + n) == Pow(b, m) * Pow(b, n)
  {
    if m > 0 {
      PowAdd(b, m - 1, n);
      MulAssoc(b, Pow(b, m - 1), Pow(b, n));
    }
  }

  lemma {:induction false} PowCongruent(x: int, y: int, n: nat, m: int)
    requires m > 0 && Congruent(x, y, m)
    ensures Congruent(Pow(x, n), Pow(y, n), m)
  {
    if n > 0 {
      PowCongruent(x, y, n - 1, m);
      CongruentMul(x, y, Pow(x, n - 1), Pow(y, n - 1), m);
    }
  }

  lemma {:induction false} PowMul(x: int, y: int, n: nat)
    ensures Pow(x * y, n) == Pow(x, n) * Pow(y, n)
  {
    if n > 0 {
      PowMul(x, y, n - 1);
      var p, q := Pow(x, n - 1), Pow(y, n - 1);
      calc {
        x * y * (p * q);
        { MulAssoc(x, y, p * q); MulAssoc(y, p, q); MulAssoc(p, y, q); }
        x * (p * (y * q));
        { MulAssoc(x, p, y * q); }
        x * p * (y * q);
      }
    }
  }

  lemma {:induction false} PowOne(n: nat)
    ensures Pow(1, n) == 1
  {
    if n > 0 {
      PowOne(n - 1);
    }
  }

  /** No power of a number prime to c is a multiple of c. */
  lemma CoprimePower(a: nat, c: nat, n: nat)
    requires c > 1 && Gcd(a, c) == 1
    ensures Pow(a, n) % c != 0
  {
    var s, t := Bezout(a, c);
    CongruentBy(s * a, 1, -t, c);
    PowCongruent(s * a, 1, n, c);
    PowOne(n);
    PowMul(s, a, n);
    if Pow(a, n) % c == 0 {
      CongruentMul(Pow(s, n), Pow(s, n), Pow(a, n), 0, c);
      assert Pow(s, n) * 0 == 0;
      SmallMod(1, c);
      SmallMod(0, c);
    }
  }

  lemma SmallMod(x: int, m: int)
    requires 0 <= x < m
    ensures x % m == x
  {
    DivModUnique(x, m, 0, x);
  }

  /** The inverse of an invertible residue cancels it. */
  lemma CancelInverse(x: int, y: int, u: int, m: int)
    requires m > 0 && Congruent(x * y, 1, m)
    ensures Congruent(u * x * y, u, m)
  {
    MulAssoc(u, x, y);
    CongruentMul(u, u, x * y, 1, m);
  }
}
