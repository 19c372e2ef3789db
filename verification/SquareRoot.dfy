/** msqrt.c: integer square root by Newton's iteration from above. */
module SquareRoot {
  import opened Machine
  import opened Digits
  import opened Mints
  import opened AddSub
  import opened Multiplication
  import opened ShortDivision
  import opened LongDivision

  /** x is at or above the integer square root of a. */
  predicate AtOrAbove(x: nat, a: nat) {
    a < (x + 1) * (x + 1)
  }

  lemma Squares(x: int, y: int)
    requires 0 <= x <= y
    ensures x * x <= y * y
  {
    MulLe(x, y, x);
    MulLe(x, y, y);
  }

  /** The mean of x and a / x is again at or above the root, and a step that does not go down has
      reached it. */
  lemma NewtonStep(x: nat, a: nat, q: nat, r: nat, y: nat)
    requires a > 0 && x > 0 && a == x * q + r && r < x
    requires y == (x + q) / 2
    ensures AtOrAbove(y, a) && y > 0
    ensures x <= y ==> x * x <= a
  {
    var h := x + q + 1;
    assert h * h >= 4 * (x * (q + 1)) by {
      FourTimesProduct(x, q + 1);
    }
    assert x * (q + 1) == x * q + x by {
      MulDistribute(q, 1, x);
    }
    Squares(h, 2 * (y + 1));
    assert 2 * (y + 1) * (2 * (y + 1)) == 4 * ((y + 1) * (y + 1)) by {
      DoubleSquare(y + 1);
    }
    if x <= y {
      MulLe(x, q, x);
    }
    if y == 0 {
      assert false;
    }
  }

  lemma DoubleSquare(y: int)
    ensures 2 * y * (2 * y) == 4 * (y * y)
  {}

  lemma FourTimesProduct(x: int, y: int)
    ensures (x + y) * (x + y) >= 4 * (x * y)
  {
    var d := x - y;
    assert d * d >= 0;
    MulDistribute(x, y, x);
    MulDistribute(x, y, y);
    MulDistribute(x, y, x + y);
    MulDistribute(x, y, d);
  }

  /** The starting point: about half the digits, the square root of a power of the radix. */
  method FirstApproximation(a: Mint) returns (x: Mint)
    requires a.len > 0
    ensures x.Normal() && 0 < x.len <= a.len + 1 && x.Value() > 0
    ensures a.len <= 32766 ==> x.len <= 32767
    ensures AtOrAbove(x.Value(), a.Value())
  {
    hide Val, BasePow, Scaled, AtOrAbove;
    var len := if a.len % 2 == 1 then (1 + a.len) / 2 else 1 + a.len / 2;
    var top: Digit := if a.len % 2 == 1 then 256 else 1;
    x := LeadingDigit(len, top);
    ValBound(a.Digits());
    StartAbove(a.Value(), a.len, top, len - 1);
  }

  lemma StartAbove(a: nat, n: nat, top: int, h: nat)
    requires a < BasePow(n)
    requires if n % 2 == 1 then top == 256 && n == 2 * h + 1 else top == 1 && n == 2 * h
    ensures Scaled(top, h) > 0 && AtOrAbove(Scaled(top, h), a)
  {
    BasePowAdd(h, h);
    var p := BasePow(h);
    var x := top * p;
    MulAssoc(top, p, top * p);
    MulAssoc(p, top, p);
    MulAssoc(top, p, p);
    MulLe(1, p, top);
    if n % 2 == 1 {
      assert x * x == 65536 * (p * p) by {
        SquareOfMultiple(256, p);
      }
      assert BasePow(n) == 32768 * BasePow(2 * h);
    }
    Squares(x, x + 1);
  }

  lemma SquareOfMultiple(k: int, p: int)
    ensures k * p * (k * p) == k * k * (p * p)
  {
    MulAssoc(k, p, k * p);
    MulAssoc(p, k, p);
    assert p * (k * p) == k * (p * p) by {
      MulAssoc(k, p, p);
    }
    MulAssoc(k, k, p * p);
  }

  /** msqrt: b is the integer square root of a and r the rest; the value returned, the length of r,
      is 0 exactly for perfect squares. A negative argument is fatal. */
  method Sqrt(a: Mint) returns (ok: bool, b: Mint, r: Mint, rest: int)
    requires a.Normal() && a.len <= 32766
    ensures ok <==> a.Value() >= 0
    ensures ok ==> b.Value() >= 0 && AtOrAbove(b.Value(), a.Value())
    ensures ok ==> r.Value() == a.Value() - b.Value() * b.Value() >= 0
    ensures ok ==> b.Normal() && r.Normal() && (rest == 0 <==> a.Value() == b.Value() * b.Value())
  {
    hide Val, Storage.Value, Storage.Normal, AtOrAbove, Divides;
    NormalSign(a);
    EmptyIsZero();
    b, r, rest := ZERO, ZERO, 0;
    if a.len < 0 {
      return false, b, r, rest;
    }
    if a.len == 0 {
      ZeroRoot();
      return true, b, r, rest;
    }
    var x := FirstApproximation(a);
    ghost var A := a.Value();
    while true
      invariant x.Normal() && 0 < x.len <= 32767 && x.Value() > 0 && AtOrAbove(x.Value(), A)
      decreases x.Value()
    {
      var fine, q, junk := Div(a, x);
      var sum := Add(x, q);
      var y, j := Divide(sum, 2);
      Mean(A, x.Value(), q.Value(), junk.Value(), sum.Value(), y.Value(), j);
      NormalSign(y);
      LengthOrder(x, y);
      var order := Compare(x, y);
      if order > 0 {
        x := y;
      } else {
        break;
      }
    }
    b := x;
    var square := Multiply(x, x);
    r := Subtract(a, square);
    NormalSign(r);
    rest := r.len;
    ok := true;
  }

  lemma EmptyIsZero()
    ensures ZERO.Value() == 0 && ZERO.Normal()
  {
    assert ZERO.Digits() == [];
  }

  lemma ZeroRoot()
    ensures AtOrAbove(0, 0)
  {}

  lemma Mean(a: int, x: int, q: int, junk: int, sum: int, y: int, j: int)
    requires a > 0 && x > 0 && Divides(a, x, false, q, junk)
    requires sum == x + q && Divides(sum, 2, false, y, j)
    ensures AtOrAbove(y, a) && y > 0
    ensures x <= y ==> x * x <= a
  {
    NewtonStep(x, a, q, junk, y);
  }
}
