/** mult.c: column multiplication on a 32-bit accumulator with a hand-kept overflow count. */
module Multiplication {
  import opened Machine
  import opened Digits
  import opened Mints
  import opened AddSub

  function DigitAt(s: seq<Digit>, k: int): Digit {
    if 0 <= k < |s| then s[k] else 0
  }

  function Product(x: Digit, y: Digit): (p: nat)
    ensures p <= 0x3FFF_0001
  {
    ProductBound(x, y);
    (x as int) * y
  }

  lemma ProductBound(x: int, y: int)
    requires 0 <= x <= 32767 && 0 <= y <= 32767
    ensures 0 <= x * y <= 0x3FFF_0001
  {
    MulLe(0, x, y);
    MulLe(x, 32767, y);
  }

  /** The total of column i of the product: every a[j] * b[i - j]. */
  function Column(a: seq<Digit>, b: seq<Digit>, i: nat): nat {
    if a == [] then 0
    else Column(a[..|a| - 1], b, i) + Product(a[|a| - 1], DigitAt(b, i - |a| + 1))
  }

  /** The first k columns, each at its place. */
  function ColumnSum(a: seq<Digit>, b: seq<Digit>, k: nat): int {
    if k == 0 then 0 else ColumnSum(a, b, k - 1) + Scaled(Column(a, b, k - 1), k - 1)
  }

  lemma ColumnSnoc(a: seq<Digit>, b: seq<Digit>, i: nat, j: nat)
    requires j < |a|
    ensures Column(a[..j + 1], b, i) == Column(a[..j], b, i) + Product(a[j], DigitAt(b, i - j))
  {
    assert a[..j + 1][..j] == a[..j];
  }

  /** Rows too far to the left meet no digit of b. */
  lemma {:induction false} ColumnSkip(a: seq<Digit>, b: seq<Digit>, i: nat, k: nat)
    requires k <= |a| && i >= k + |b| - 1
    ensures Column(a[..k], b, i) == 0
  {
    if k > 0 {
      ColumnSkip(a, b, i, k - 1);
      ColumnSnoc(a, b, i, k - 1);
    }
  }

  /** Rows too far to the right meet none either. */
  lemma {:induction false} ColumnTail(a: seq<Digit>, b: seq<Digit>, i: nat, k: nat)
    requires i < k <= |a|
    ensures Column(a, b, i) == Column(a[..k], b, i)
    decreases |a| - k
  {
    if k < |a| {
      ColumnTail(a, b, i, k + 1);
      ColumnSnoc(a, b, i, k);
    } else {
      assert a[..k] == a;
    }
  }

  /** What the last row of a puts into the first k columns. */
  function RowSum(d: int, b: seq<Digit>, m: nat, k: nat): int {
    if k <= m then 0 else if k <= m + |b| then Scaled(d * Val(b[..k - m]), m) else Scaled(d * Val(b), m)
  }

  lemma RowStep(d: int, b: seq<Digit>, m: nat, i: nat)
    ensures RowSum(d, b, m, i + 1) == RowSum(d, b, m, i) + Scaled(d * DigitAt(b, i - m), i)
  {
    hide Val, Scaled;
    var y := DigitAt(b, i - m);
    if m <= i < m + |b| {
      ValPrefix(b, i - m);
      RowDigit(d, Val(b[..i - m]), y, i - m, m);
      if i == m {
        assert b[..0] == [];
        ValEmpty();
        ScaledBasics(m);
      }
    } else {
      assert d * y == 0;
      ScaledBasics(i);
      if i == m {
        assert b == [];
        ValEmpty();
        ScaledBasics(m);
      } else if i >= m + |b| {
        assert b[..|b|] == b;
      }
    }
  }

  /** The last row of a adds its digit times b, moved up by its place. */
  lemma {:induction false} LastRow(a: seq<Digit>, b: seq<Digit>, k: nat)
    requires a != []
    ensures ColumnSum(a, b, k) == ColumnSum(a[..|a| - 1], b, k) + RowSum(a[|a| - 1], b, |a| - 1, k)
  {
    if k > 0 {
      var m, d: int := |a| - 1, a[|a| - 1];
      LastRow(a, b, k - 1);
      ColumnPlusRow(a, b, k - 1);
      RowStep(d, b, m, k - 1);
    }
  }

  lemma ColumnPlusRow(a: seq<Digit>, b: seq<Digit>, i: nat)
    requires a != []
    ensures var d: int := a[|a| - 1];
      Scaled(Column(a, b, i), i) == Scaled(Column(a[..|a| - 1], b, i), i) + Scaled(d * DigitAt(b, i - |a| + 1), i)
  {
    hide Scaled;
    var d: int := a[|a| - 1];
    ScaledAdd(Column(a[..|a| - 1], b, i), d * DigitAt(b, i - |a| + 1), i);
  }

  lemma RowDigit(d: int, v: int, y: int, t: nat, m: nat)
    ensures Scaled(d * (v + Scaled(y, t)), m) == Scaled(d * v, m) + Scaled(d * y, m + t)
  {
    var p, q := BasePow(m), BasePow(t);
    BasePowAdd(m, t);
    calc {
      d * (v + y * q) * p;
      { MulDistribute(v, y * q, d); MulDistribute(d * v, d * (y * q), p); }
      d * v * p + d * (y * q) * p;
      { MulAssoc(d, y, q); MulAssoc(d * y, q, p); }
      d * v * p + d * y * (q * p);
    }
  }

  /** The columns of a product add up to the product. */
  lemma {:induction false} ColumnsMakeProduct(a: seq<Digit>, b: seq<Digit>, k: nat)
    requires k >= |a| + |b|
    ensures ColumnSum(a, b, k) == Val(a) * Val(b)
  {
    if a == [] {
      NoColumns(b, k);
    } else {
      var m, d := |a| - 1, a[|a| - 1];
      ColumnsMakeProduct(a[..m], b, k);
      LastRow(a, b, k);
      assert b[..|b|] == b;
      assert a[..m] + [d] == a;
      ValSnoc(a[..m], d);
      MulDistribute(Val(a[..m]), Scaled(d, m), Val(b));
      RowAsProduct(d, Val(b), m);
    }
  }

  lemma RowAsProduct(d: int, v: int, m: nat)
    ensures Scaled(d * v, m) == Scaled(d, m) * v
  {
    MulAssoc(d, v, BasePow(m));
    MulAssoc(d, BasePow(m), v);
  }

  lemma {:induction false} NoColumns(b: seq<Digit>, k: nat)
    ensures ColumnSum([], b, k) == 0
  {
    if k > 0 {
      NoColumns(b, k - 1);
      ScaledBasics(k - 1);
    }
  }

  /** 2^31, what one unit of the overflow count stands for */
  const OVERFLOW := 0x8000_0000

  /** tradd: add a product to the accumulator; a sum that reaches bit 31 is counted in `carry` and
      the bit taken out again. */
  method Accumulate(carry: Int16, sum: Long, x: Long) returns (carry': Int16, sum': Long)
    requires 0 <= sum && 0 <= x <= 0x3FFF_0001 && 0 <= carry < 32767
    ensures sum' >= 0 && carry <= carry' <= carry + 1
    ensures sum' + carry' * OVERFLOW == sum + carry * OVERFLOW + x
  {
    carry', sum' := carry, Wrap32(sum + x);
    if SignBit(High(sum')) {
      sum' := Join(Low15(High(sum')), Low(sum'));
      carry' := carry' + 1;
    }
  }

  /** The inner loop shared by the three column loops (S2, S3, S4): rows lo to hi - 1 of column i on
      top of what the column to the right left over. */
  method SumColumn(a: seq<Digit>, b: seq<Digit>, i: nat, lo: nat, hi: nat, sum0: Long)
    returns (carry: Int16, sum: Long)
    requires lo <= hi <= |a| && hi <= i + 1 && i < lo + |b| && hi - lo <= 32767
    requires 0 <= sum0 <= 0x4000_0000
    requires lo == 0 || i >= lo + |b| - 1
    requires hi == |a| || hi == i + 1
    ensures sum >= 0 && 0 <= carry <= 16384
    ensures sum + carry * OVERFLOW == sum0 + Column(a, b, i)
    ensures sum0 + Column(a, b, i) <= 0x1FFF_FFFF_FFFF
  {
    hide Column, Product;
    carry, sum := 0, sum0;
    var j := lo;
    if i >= lo + |b| - 1 {
      ColumnSkip(a, b, i, lo);
    }
    assert Column(a[..lo], b, i) == 0 by {
      if lo == 0 {
        NoRows(a, b, i);
      }
    }
    while j < hi
      invariant lo <= j <= hi
      invariant sum >= 0 && carry >= 0
      invariant sum + carry * OVERFLOW == sum0 + Column(a[..j], b, i)
      invariant Column(a[..j], b, i) <= (j - lo) * 0x3FFF_0001
    {
      ColumnSnoc(a, b, i, j);
      var x: Long := a[j];
      ProductIs(a[j], b[i - j]);
      x := x * b[i - j];
      carry, sum := Accumulate(carry, sum, x);
      j := j + 1;
    }
    if hi < |a| {
      ColumnTail(a, b, i, hi);
    }
    assert a[..|a|] == a;
  }

  lemma NoRows(a: seq<Digit>, b: seq<Digit>, i: nat)
    ensures Column(a[..0], b, i) == 0
  {}

  lemma ProductIs(x: Digit, y: Digit)
    ensures (x as int) * y == Product(x, y)
  {}

  /** S5, S6, S7: the low 15 bits are the digit; the rest, with the overflow count as its high half,
      is what the next column starts from. */
  method Emit(carry: Int16, sum: Long) returns (digit: Digit, sum': Long)
    requires sum >= 0 && 0 <= carry <= 16384
    requires sum + carry * OVERFLOW <= 0x1FFF_FFFF_FFFF
    ensures 0 <= sum' <= 0x4000_0000
    ensures digit + 32768 * sum' == sum + carry * OVERFLOW
  {
    digit := Low15(Low(sum));
    sum' := ShiftRight15(sum);
    sum' := Join(carry, Low(sum'));
  }

  /** One column of the product: summed, emitted, stored. */
  method StoreColumn(a: seq<Digit>, b: seq<Digit>, cval: array<Digit>, i: nat, lo: nat, hi: nat, sum: Long)
    returns (sum': Long)
    requires i < cval.Length && 0 <= sum <= 0x4000_0000
    requires lo <= hi <= |a| && hi <= i + 1 && i < lo + |b| && hi - lo <= 32767
    requires lo == 0 || i >= lo + |b| - 1
    requires hi == |a| || hi == i + 1
    requires Val(cval[..i]) + Scaled(sum, i) == ColumnSum(a, b, i)
    modifies cval
    ensures 0 <= sum' <= 0x4000_0000
    ensures Val(cval[..i + 1]) + Scaled(sum', i + 1) == ColumnSum(a, b, i + 1)
  {
    hide Val, Scaled, Column;
    ghost var before := cval[..i];
    var carry, s := SumColumn(a, b, i, lo, hi, sum);
    var digit, rest := Emit(carry, s);
    CarryStep(before, digit, sum, rest, Column(a, b, i));
    cval[i] := digit;
    sum' := rest;
    assert cval[..i + 1] == before + [digit];
  }

  lemma NoColumns0(a: seq<Digit>, b: seq<Digit>)
    ensures ColumnSum(a, b, 0) == 0
  {}

  /** m_mult: multiply magnitudes, the longer operand first. */
  method MultiplyMagnitudes(a: Mint, b: Mint) returns (c: Mint)
    requires a.len >= b.len >= 0 && a.len > 0
    requires b.len <= 32767
    ensures c.Value() == a.Value() * b.Value()
    ensures |c.val| == a.len + b.len && Val(c.val) == c.Value()
    ensures a.len + b.len - 1 <= c.len <= a.len + b.len
    ensures c.len == a.len + b.len ==> c.Normal()
    ensures a.Normal() && b.Normal() && b.len > 0 ==> c.Normal()
  {
    hide Val, Scaled, ColumnSum;
    NoColumns0(a.Digits(), b.Digits());
    ghost var A, B := a.Digits(), b.Digits();
    var cval := new Digit[a.len + b.len];
    var sum: Long, i: nat := 0, 0;
    ValEmpty();
    ScaledBasics(0);
    assert cval[..0] == [];
    while i < b.len
      invariant 0 <= i <= b.len
      invariant 0 <= sum <= 0x4000_0000
      invariant Val(cval[..i]) + Scaled(sum, i) == ColumnSum(A, B, i)
    {
      sum := StoreColumn(a.val[..a.len], b.val[..b.len], cval, i, 0, i + 1, sum);
      i := i + 1;
    }
    while i < a.len
      invariant b.len <= i <= a.len
      invariant 0 <= sum <= 0x4000_0000
      invariant Val(cval[..i]) + Scaled(sum, i) == ColumnSum(A, B, i)
    {
      sum := StoreColumn(a.val[..a.len], b.val[..b.len], cval, i, i - b.len + 1, i + 1, sum);
      i := i + 1;
    }
    while i < a.len + b.len
      invariant a.len <= i <= a.len + b.len
      invariant 0 <= sum <= 0x4000_0000
      invariant Val(cval[..i]) + Scaled(sum, i) == ColumnSum(A, B, i)
    {
      sum := StoreColumn(a.val[..a.len], b.val[..b.len], cval, i, i - b.len + 1, a.len, sum);
      i := i + 1;
    }
    assert cval[..i] == cval[..];
    ColumnsMakeProduct(A, B, i);
    NothingLeftOver(A, B, cval[..], sum);
    if cval[i - 1] != 0 {
      c := Mint(a.len + b.len, cval[..]);
    } else {
      c := Mint(a.len + b.len - 1, cval[..]);
    }
    TrimmedProduct(A, B, c);
  }

  /** A product of m-digit and n-digit numbers fits m + n digits: the accumulator ends at zero. */
  lemma NothingLeftOver(a: seq<Digit>, b: seq<Digit>, c: seq<Digit>, sum: int)
    requires sum >= 0 && |c| == |a| + |b|
    requires Val(c) + Scaled(sum, |c|) == Val(a) * Val(b)
    ensures sum == 0 && Val(c) == Val(a) * Val(b)
  {
    hide Val, Scaled, BasePow;
    ProductFits(a, b);
    if sum > 0 {
      ScaledMonotone(1, sum, |c|);
      ScaledBasics(|c|);
    }
    ScaledBasics(|c|);
  }

  lemma ProductFits(a: seq<Digit>, b: seq<Digit>)
    ensures Val(a) * Val(b) < BasePow(|a| + |b|)
  {
    hide Val, BasePow;
    ValBound(a);
    ValBound(b);
    BasePowAdd(|a|, |b|);
    SmallerProduct(Val(a), Val(b), BasePow(|a|), BasePow(|b|));
  }

  lemma SmallerProduct(x: nat, y: nat, p: nat, q: nat)
    requires x < p && y < q
    ensures x * y < p * q
  {
    MulLe(y, q, x);
    MulLe(x, p - 1, q);
    MulDistribute(p, 1, q);
  }

  /** Dropping the one leading zero a product can have leaves its value, and for non-zero normal
      operands its normal form. */
  lemma TrimmedProduct(a: seq<Digit>, b: seq<Digit>, c: Mint)
    requires |c.val| == |a| + |b| > 0 && Val(c.val) == Val(a) * Val(b)
    requires c.len == if c.val[|c.val| - 1] != 0 then |c.val| else |c.val| - 1
    ensures Val(c.Digits()) == Val(c.val)
    ensures NormalDigits(a) && NormalDigits(b) && a != [] && b != [] ==> c.Normal()
  {
    hide Val, Scaled, BasePow;
    var k := |c.val|;
    assert c.val[..k] == c.val;
    if c.len == k - 1 {
      ValPrefix(c.val, k - 1);
      ScaledBasics(k - 1);
    }
    if NormalDigits(a) && NormalDigits(b) && a != [] && b != [] {
      ValTop(a);
      ValTop(b);
      var p, q := BasePow(|a| - 1), BasePow(|b| - 1);
      BasePowAdd(|a| - 1, |b| - 1);
      MulLe(p, Val(a), q);
      MulLe(q, Val(b), Val(a));
      assert Val(a) * Val(b) >= BasePow(k - 2);
      if c.len == k - 1 {
        ValTop(c.Digits());
      }
    }
  }

  /** mult: c = a * b for every combination of signs. Multiplying by zero gives the value zero, not
      always in normal form; two operands of length 0 are not the caller's to pass. */
  method Multiply(a: Mint, b: Mint) returns (c: Mint)
    requires a.len != 0 || b.len != 0
    requires Abs(a.len) <= 32767 || Abs(b.len) <= 32767
    ensures c.Value() == a.Value() * b.Value()
    ensures a.Normal() && b.Normal() && a.len != 0 && b.len != 0 ==> c.Normal()
    ensures Abs(a.len) + Abs(b.len) - 1 <= Abs(c.len) <= Abs(a.len) + Abs(b.len)
    ensures Abs(c.len) == Abs(a.len) + Abs(b.len) ==> c.Normal()
    ensures |c.val| == Abs(a.len) + Abs(b.len) && Val(c.val) == c.Magnitude()
    ensures a.len >= 0 && b.len >= 0 ==> c.len >= 0
  {
    hide Val, Storage.Value, Storage.Normal;
    var sign := 1;
    var x, y := a, b;
    Negated(a);
    Negated(b);
    if a.len < 0 {
      x := Mint(-a.len, a.val);
      sign := -sign;
    }
    if b.len < 0 {
      y := Mint(-b.len, b.val);
      sign := -sign;
    }
    if x.len < y.len {
      c := MultiplyMagnitudes(y, x);
    } else {
      c := MultiplyMagnitudes(x, y);
    }
    SignsOfProduct(a.Value(), b.Value());
    MagnitudeIsValue(c);
    if sign < 0 {
      Negated(c);
      c := Mint(-c.len, c.val);
    }
  }

  lemma MagnitudeIsValue(c: Mint)
    ensures c.len >= 0 ==> c.Value() == c.Magnitude()
    ensures Mint(-c.len, c.val).Magnitude() == c.Magnitude()
  {}

  lemma SignsOfProduct(x: int, y: int)
    ensures -x * y == -(x * y) && x * -y == -(x * y) && -x * -y == x * y && y * x == x * y
    ensures -y * x == -(x * y) && y * -x == -(x * y) && -y * -x == x * y
  {}
}
