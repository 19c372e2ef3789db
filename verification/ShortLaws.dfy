/** The library on shorts computes exactly whatever is proper: on digits that are digits, and with a divisor
    whose top digit is not zero, its sums, products, quotients and remainders are those of the integers. */
module ShortLaws {
  import opened Machine
  import opened Digits
  import AddSub
  import Multiplication
  import ShortDivision
  import LongDivision
  import Mints
  import NumberTheory
  import S = Shorts

  /** Shorts that are digits. */
  predicate Proper(s: seq<Int16>) {
    forall k :: 0 <= k < |s| ==> 0 <= s[k]
  }

  function Worth(s: seq<Int16>): nat
    requires Proper(s)
  {
    var d: seq<Digit> := s;
    Val(d)
  }

  predicate ProperNumber(a: S.Number) {
    Proper(a.Used())
  }

  /** The value of a number whose digits are digits. */
  function Value(a: S.Number): int
    requires ProperNumber(a)
  {
    if a.len < 0 then 0 - Worth(a.Used()) else Worth(a.Used())
  }

  /** A result there is, proper and of this value. */
  ghost predicate Comes(r: S.Result<S.Number>, v: int) {
    r.Is? && ProperNumber(r.value) && Value(r.value) == v
  }

  function Rest(b: seq<Digit>, i: nat): seq<Digit> {
    if i <= |b| then b[i..] else []
  }

  lemma RestSuffix(b: seq<Digit>, i: nat)
    ensures Val(Rest(b, i)) == (if i < |b| then b[i] as int else 0) + 32768 * Val(Rest(b, i + 1))
  {
    if i < |b| {
      ValSuffix(b, i);
    } else {
      ValEmpty();
    }
  }

  // ----- Sums -----

  /** The first k of these digits, under a sign, as a number. */
  lemma NumberIs(k: nat, s: seq<Digit>)
    requires k <= |s|
    ensures Comes(S.Is(S.Raw(k, s)), Val(s[..k])) && Comes(S.Is(S.Raw(-(k as int), s)), 0 - Val(s[..k]))
  {
    var up: S.Number, down: S.Number := S.Raw(k, s), S.Raw(-(k as int), s);
    assert up.Used() == s[..k] && down.Used() == s[..k];
    EmptyIsZero(s[..k]);
  }

  lemma EmptyIsZero(s: seq<Digit>)
    ensures s == [] ==> Val(s) == 0
  {}

  lemma AddFromNext(a: seq<Digit>, b: seq<Digit>, i: nat, carry: int) returns (digit: Digit, carry': int)
    requires |b| <= |a| && i < |a| && 0 <= carry <= 1
    ensures 0 <= carry' <= 1 && S.AddFrom(a, b, i, carry) == [digit] + S.AddFrom(a, b, i + 1, carry')
    ensures digit + 32768 * carry' == carry + a[i] + if i < |b| then b[i] as int else 0
  {
    var total := carry + a[i] + if i < |b| then b[i] as int else 0;
    SignBitIsCarry(total);
    var x := Wrap16(total);
    digit, carry' := S.Low(x), if x >= 0 then 0 else if i < |b| then 1 else carry;
  }

  lemma {:induction false} AddFromLaw(a: seq<Digit>, b: seq<Digit>, i: nat, carry: int) returns (s: seq<Digit>)
    requires |b| <= |a| && i <= |a| && 0 <= carry <= 1
    ensures S.AddFrom(a, b, i, carry) == s && Val(s) == Val(a[i..]) + Val(Rest(b, i)) + carry
    ensures Val(s) < BasePow(|a| - i) ==> |s| == |a| - i
    decreases |a| - i
  {
    hide Val;
    if i == |a| {
      s := if carry == 1 then [1] else [];
      ValEmpty();
      ValSingle(1);
      assert a[i..] == [] && Rest(b, i) == [];
    } else {
      var digit, carry' := AddFromNext(a, b, i, carry);
      hide S.AddFrom;
      var more := AddFromLaw(a, b, i + 1, carry');
      s := [digit] + more;
      ValCons(digit, more);
      ValSuffix(a, i);
      RestSuffix(b, i);
    }
  }

  /** m_add */
  lemma SumLaw(a: seq<Digit>, b: seq<Digit>)
    ensures Comes(S.Is(S.AddMagnitudes(a, b)), Val(a) + Val(b))
  {
    hide Val, Comes;
    assert a[0..] == a && Rest(a, 0) == a && b[0..] == b && Rest(b, 0) == b;
    var s;
    if |a| >= |b| {
      s := AddFromLaw(a, b, 0, 0);
    } else {
      s := AddFromLaw(b, a, 0, 0);
    }
    NumberIs(|s|, s);
    assert s[..|s|] == s;
  }

  lemma {:induction false} SubtractFromLaw(a: seq<Digit>, b: seq<Digit>, i: nat, borrow: int)
    requires |b| <= |a| && i <= |a| && -1 <= borrow <= 0
    ensures var r := S.SubtractFrom(a, b, i, borrow);
      Val(r.0) + Scaled(r.1, |a| - i) == Val(a[i..]) - Val(Rest(b, i)) + borrow
    decreases |a| - i
  {
    hide Val, Scaled;
    var r := S.SubtractFrom(a, b, i, borrow);
    if i == |a| {
      ValEmpty();
      ScaledBasics(0);
      assert a[i..] == [] && Rest(b, i) == [];
    } else {
      var total := borrow + a[i] - if i < |b| then b[i] as int else 0;
      SignBitIsCarry(total);
      var x := Wrap16(total);
      var borrow' := if x >= 0 then 0 else if i < |b| then -1 else borrow;
      SubtractFromLaw(a, b, i + 1, borrow');
      ValCons(S.Low(x), S.SubtractFrom(a, b, i + 1, borrow').0);
      ScaledSnoc(r.1, |a| - i - 1);
      ValSuffix(a, i);
      RestSuffix(b, i);
    }
  }

  lemma {:induction false} SignificantLaw(s: seq<Digit>, n: nat)
    requires n <= |s|
    ensures Val(s[..S.Significant(s, n)]) == Val(s[..n])
  {
    if n > 0 && s[n - 1] == 0 {
      ValPrefix(s, n - 1);
      SignificantLaw(s, n - 1);
    }
  }

  lemma FlippedLaw(digits: seq<Digit>) returns (s: seq<Digit>)
    requires digits != [] && Val(digits) > 0
    ensures S.AddFrom(S.Complemented(digits), [1], 0, 0) == s
    ensures |s| == |digits| && Val(s) == BasePow(|digits|) - Val(digits)
  {
    hide Val, BasePow;
    var flipped := S.Complemented(digits);
    AddSub.ValComplement(digits, flipped);
    s := AddFromLaw(flipped, [1], 0, 0);
    ValSingle(1);
    assert flipped[0..] == flipped && Rest([1], 0) == [1];
  }

  /** The digits of s below its leading zeros as a number of either sign. */
  lemma StrippedLaw(s: seq<Digit>)
    ensures var n := S.Significant(s, |s|);
      && Comes(S.Is(S.Raw(n, s)), Val(s)) && Comes(S.Is(S.Raw(-(n as int), s)), 0 - Val(s)) && (Val(s) > 0 ==> n > 0)
  {
    hide Val, Comes, S.Significant;
    var n := S.Significant(s, |s|);
    SignificantLaw(s, |s|);
    assert s[..|s|] == s;
    NumberIs(n, s);
    EmptyIsZero(s[..n]);
  }

  /** m_sub, in normal form */
  lemma DifferenceOfLonger(a: seq<Digit>, b: seq<Digit>)
    requires |b| <= |a|
    ensures Comes(S.SubtractMagnitudes(a, b), Val(a) - Val(b))
  {
    hide Val, Scaled, BasePow, Comes, S.Significant, S.AddFrom, S.SubtractFrom, S.Complemented;
    var n := |a|;
    var (digits, borrow) := S.SubtractFrom(a, b, 0, 0);
    SubtractFromLaw(a, b, 0, 0);
    assert a[0..] == a && Rest(b, 0) == b;
    ScaledBasics(n);
    ValBound(digits);
    if borrow == 0 {
      StrippedLaw(digits);
    } else {
      ValBound(b);
      BasePowMonotone(|b|, n);
      EmptyIsZero(digits);
      var s := FlippedLaw(digits);
      StrippedLaw(s);
    }
  }

  lemma DifferenceLaw(a: seq<Digit>, b: seq<Digit>)
    ensures Comes(S.Difference(a, b), Val(a) - Val(b))
  {
    hide Val;
    if |a| >= |b| {
      DifferenceOfLonger(a, b);
    } else {
      DifferenceOfLonger(b, a);
      NegatedLaw(S.SubtractMagnitudes(b, a).value);
    }
  }

  lemma NegatedLaw(a: S.Number)
    requires ProperNumber(a)
    ensures ProperNumber(a.Negated()) && Value(a.Negated()) == 0 - Value(a)
  {
    assert a.Negated().Used() == a.Used();
    EmptyIsZero(a.Used());
  }

  /** madd */
  lemma AddLaw(a: S.Number, b: S.Number)
    requires ProperNumber(a) && ProperNumber(b)
    ensures Comes(S.Add(a, b), Value(a) + Value(b))
  {
    hide Val;
    var x: seq<Digit>, y: seq<Digit> := a.Used(), b.Used();
    SumLaw(x, y);
    NegatedLaw(S.AddMagnitudes(x, y));
    DifferenceLaw(x, y);
    DifferenceLaw(y, x);
    EmptyIsZero(x);
    EmptyIsZero(y);
  }

  /** msub, with a sign too many for two operands that are not positive */
  lemma SubtractLaw(a: S.Number, b: S.Number)
    requires ProperNumber(a) && ProperNumber(b)
    ensures Comes(S.Subtract(a, b), if a.len < 0 && b.len <= 0 then Value(b) - Value(a) else Value(a) - Value(b))
  {
    hide Val;
    var x: seq<Digit>, y: seq<Digit> := a.Used(), b.Used();
    SumLaw(x, y);
    NegatedLaw(S.AddMagnitudes(x, y));
    DifferenceLaw(x, y);
    DifferenceLaw(y, x);
    if a.len < 0 && b.len <= 0 {
      NegatedLaw(S.Difference(y, x).value);
    }
    EmptyIsZero(x);
    EmptyIsZero(y);
  }

  // ----- Products -----

  lemma {:induction false} RowsLaw(a: seq<Digit>, b: seq<Digit>, i: nat, j: nat, hi: nat, carry: Int16, sum: Long)
    requires j <= hi <= |a| && hi <= i + 1 && i < j + |b|
    requires sum >= 0 && carry >= 0 && carry as int + hi - j <= 32767
    ensures var r := S.Rows(a, b, i, j, hi, carry, sum);
      && r.1 >= 0 && r.0 >= 0
      && r.1 as int + r.0 as int * 0x8000_0000 + Multiplication.Column(a[..j], b, i)
         == sum as int + carry as int * 0x8000_0000 + Multiplication.Column(a[..hi], b, i)
    decreases hi - j
  {
    hide Multiplication.Column;
    if j < hi {
      Multiplication.ColumnSnoc(a, b, i, j);
      Multiplication.ProductIs(a[j], b[i - j]);
      OneRow(sum, Multiplication.Product(a[j], b[i - j]));
      var t := Wrap32(sum as int + Wrap32(a[j] as int * b[i - j] as int) as int);
      if t < 0 {
        RowsLaw(a, b, i, j + 1, hi, Wrap16(carry as int + 1), t + 0x8000_0000);
      } else {
        RowsLaw(a, b, i, j + 1, hi, carry, t);
      }
    }
  }

  lemma OneRow(sum: Long, p: int)
    requires sum >= 0 && 0 <= p <= 0x3FFF_0001
    ensures Wrap32(p) == p
    ensures var t := Wrap32(sum as int + p); if t < 0 then t as int + 0x1_0000_0000 == sum as int + p else t as int == sum as int + p
  {}

  /** One column: the digit that stays, and what goes over to the next one. */
  lemma ColumnLaw(a: seq<Digit>, b: seq<Digit>, i: nat, sum: Long) returns (digit: Digit, next: Long)
    requires |b| <= |a| && |b| <= 32767 && i < |a| + |b| && 0 <= sum <= 0x4000_0000
    ensures 0 <= next <= 0x4000_0000 && S.Columns(a, b, i, sum) == [digit] + S.Columns(a, b, i + 1, next)
    ensures digit as int + 32768 * next as int == sum as int + Multiplication.Column(a, b, i)
  {
    hide Multiplication.Column;
    var lo := if i < |b| then 0 else i - |b| + 1;
    var hi := if i < |a| then i + 1 else |a|;
    RowsLaw(a, b, i, lo, hi, 0, sum);
    Multiplication.NoRows(a, b, i);
    if i >= lo + |b| - 1 {
      Multiplication.ColumnSkip(a, b, i, lo);
    }
    if hi < |a| {
      Multiplication.ColumnTail(a, b, i, hi);
    }
    assert a[..|a|] == a;
    ColumnBound(a, b, i, lo, hi);
    var (carry, total) := S.Rows(a, b, i, lo, hi, 0, sum);
    OnwardLaw(carry, total);
    digit, next := Low15(total), S.Onward(carry, total);
  }

  lemma {:induction false} ColumnBound(a: seq<Digit>, b: seq<Digit>, i: nat, lo: nat, hi: nat)
    requires lo <= hi <= |a| && Multiplication.Column(a[..lo], b, i) == 0
    ensures Multiplication.Column(a[..hi], b, i) <= (hi - lo) * 0x3FFF_0001
    decreases hi - lo
  {
    if lo < hi {
      ColumnBound(a, b, i, lo, hi - 1);
      Multiplication.ColumnSnoc(a, b, i, hi - 1);
    }
  }

  lemma OnwardLaw(carry: Int16, total: Long)
    requires carry >= 0 && total >= 0 && total as int + carry as int * 0x8000_0000 <= 0x1FFF_FFFF_FFFF
    ensures 0 <= S.Onward(carry, total) <= 0x4000_0000
    ensures Low15(total) as int + 32768 * S.Onward(carry, total) as int == total as int + carry as int * 0x8000_0000
  {
    assert total as int == 32768 * (total as int / 32768) + total as int % 32768;
  }

  /** The columns from i on, with what is left over at the end. */
  lemma {:induction false} ColumnsLaw(a: seq<Digit>, b: seq<Digit>, i: nat, sum: Long) returns (over: nat)
    requires |b| <= |a| && |b| <= 32767 && i <= |a| + |b| && 0 <= sum <= 0x4000_0000
    ensures Scaled(Val(S.Columns(a, b, i, sum)), i) + Scaled(over, |a| + |b|)
         == Scaled(sum, i) + Multiplication.ColumnSum(a, b, |a| + |b|) - Multiplication.ColumnSum(a, b, i)
    decreases |a| + |b| - i
  {
    hide Val, Scaled, Multiplication.Column, Multiplication.ColumnSum;
    var n := |a| + |b|;
    if i == n {
      over := sum;
      ValEmpty();
      ScaledBasics(n);
    } else {
      hide S.Columns;
      var digit, next := ColumnLaw(a, b, i, sum);
      over := ColumnsLaw(a, b, i + 1, next);
      OneColumn(digit, S.Columns(a, b, i + 1, next), next, sum, Multiplication.Column(a, b, i), i);
      NextColumn(a, b, i);
    }
  }

  lemma NextColumn(a: seq<Digit>, b: seq<Digit>, i: nat)
    ensures Multiplication.ColumnSum(a, b, i + 1)
         == Multiplication.ColumnSum(a, b, i) + Scaled(Multiplication.Column(a, b, i), i)
  {}

  lemma OneColumn(digit: Digit, more: seq<Digit>, next: int, sum: int, column: int, i: nat)
    requires digit as int + 32768 * next == sum + column
    ensures Scaled(Val([digit] + more), i) - Scaled(Val(more), i + 1) == Scaled(digit, i)
    ensures Scaled(digit, i) + Scaled(next, i + 1) == Scaled(sum, i) + Scaled(column, i)
  {
    hide Val, Scaled;
    ValCons(digit, more);
    ScaledUp(Val(more), i);
    ScaledAdd(digit, 32768 * Val(more), i);
    ScaledUp(next, i);
    ScaledAdd(digit, 32768 * next, i);
    ScaledAdd(sum, column, i);
  }

  /** m_mult, all its digits */
  lemma ProductLaw(a: seq<Digit>, b: seq<Digit>)
    requires |b| <= |a| && |b| <= 32767
    ensures Val(S.Columns(a, b, 0, 0)) == Val(a) * Val(b)
  {
    hide Val, Scaled, Multiplication.ColumnSum;
    var over := ColumnsLaw(a, b, 0, 0);
    var c := S.Columns(a, b, 0, 0);
    ScaledBasics(0);
    ScaledOnce(Val(c));
    Multiplication.NoColumns0(a, b);
    Multiplication.ColumnsMakeProduct(a, b, |a| + |b|);
    Multiplication.NothingLeftOver(a, b, c, over);
  }

  lemma ScaledOnce(n: int)
    ensures Scaled(n, 0) == n
  {}

  lemma ProductOfLonger(a: seq<Digit>, b: seq<Digit>)
    requires |b| <= |a| && |b| <= 32767 && a != []
    ensures Comes(S.MultiplyMagnitudes(a, b), Val(a) * Val(b)) && S.MultiplyMagnitudes(a, b).value.len >= 0
  {
    hide Val;
    ProductLaw(a, b);
    TrimmedLaw(S.Columns(a, b, 0, 0));
  }

  /** One leading zero less changes nothing. */
  lemma TrimmedLaw(s: seq<Digit>)
    requires s != []
    ensures Comes(S.Is(S.Raw(if s[|s| - 1] != 0 then |s| else |s| - 1, s)), Val(s))
  {
    hide Val, Comes;
    var n := |s| - 1;
    assert s[..n + 1] == s;
    ValPrefix(s, n);
    ScaledBasics(n);
    NumberIs(n + 1, s);
    NumberIs(n, s);
  }

  /** mult */
  lemma MultiplyLaw(a: S.Number, b: S.Number)
    requires ProperNumber(a) && ProperNumber(b) && (a.len != 0 || b.len != 0) && |a.Used()| <= 32767 && |b.Used()| <= 32767
    ensures Comes(S.Multiply(a, b), Value(a) * Value(b))
    ensures var n := S.Multiply(a, b).value.len; if (a.len < 0) == (b.len < 0) then n >= 0 else n <= 0
  {
    hide Val;
    var x: seq<Digit>, y: seq<Digit> := a.Used(), b.Used();
    EmptyIsZero(x);
    EmptyIsZero(y);
    Multiplication.SignsOfProduct(Val(x), Val(y));
    if |x| < |y| {
      ProductOfLonger(y, x);
      NegatedLaw(S.MultiplyMagnitudes(y, x).value);
    } else {
      ProductOfLonger(x, y);
      NegatedLaw(S.MultiplyMagnitudes(x, y).value);
    }
  }

  // ----- Division by one digit -----

  lemma {:induction false} DivideFromLaw(a: seq<Digit>, i: nat, n: Digit, x: Long) returns (q: seq<Digit>, r: Digit)
    requires i <= |a| && 0 <= x < n
    ensures S.DivideFrom(a, i, n, x) == (q, r as Long) && |q| == i && r < n
    ensures Times(n, Val(q)) + r as int == Scaled(x, i) + Val(a[..i])
    decreases i
  {
    hide Val, Scaled, Times;
    if i == 0 {
      q, r := [], x;
      ValEmpty();
      ScaledOnce(x);
      TimesZero(n);
      assert a[..0] == [];
    } else {
      var y := x as int * 32768 + a[i - 1] as int;
      ShortDivision.QuotientDigit(x, a[i - 1], n);
      QuotRem(y, n);
      DivideFromNext(a, i, n, x);
      hide S.DivideFrom;
      var digit: Digit := Quot(y, n);
      q, r := DivideFromLaw(a, i - 1, n, Rem(y, n));
      ValSnoc(q, digit);
      ValPrefix(a, i - 1);
      OneDigitDown(n, Val(q), digit, y, Rem(y, n), x, a[i - 1], i - 1);
      q := q + [digit];
    }
  }

  lemma DivideFromNext(a: seq<Digit>, i: nat, n: Digit, x: Long)
    requires 0 < i <= |a| && 0 <= x < n
    requires 0 <= Quot(x as int * 32768 + a[i - 1] as int, n) < 32768
    ensures var y := x as int * 32768 + a[i - 1] as int;
      var rest := S.DivideFrom(a, i - 1, n, Rem(y, n));
      S.DivideFrom(a, i, n, x) == (rest.0 + [Quot(y, n) as Int16], rest.1)
  {
    hide Wrap32, Wrap16, S.Over, S.Left, Quot, Rem;
    var y := x as int * 32768 + a[i - 1] as int;
    assert 0 <= y < 0x8000_0000;
    OverIs(y, n);
    QuotRem(y, n);
    LongKeeps(y);
    LongKeeps(Rem(y, n));
    ShortKeeps(Quot(y, n));
  }

  lemma LongKeeps(n: int)
    requires -0x8000_0000 <= n < 0x8000_0000
    ensures Wrap32(n) as int == n
  {}

  lemma ShortKeeps(n: int)
    requires -32768 <= n < 32768
    ensures Wrap16(n) as int == n
  {}

  lemma TimesZero(n: int)
    ensures Times(n, 0) == 0
  {}

  lemma OverIs(y: int, n: int)
    requires y >= 0 && n > 0
    ensures S.Over(y, n) == Quot(y, n) && S.Left(y, n) == Rem(y, n)
  {}

  lemma OneDigitDown(n: int, done: int, q: int, y: int, left: int, x: int, d: int, i: nat)
    requires y == Times(n, q) + left && y == x * 32768 + d
    ensures Times(n, done + Scaled(q, i)) + Scaled(left, i) == Times(n, done) + Scaled(x, i + 1) + Scaled(d, i)
  {
    hide Scaled;
    LongDivision.TimesScaled(n, done, q, i);
    LongDivision.TimesSwap(n, q);
    ScaledUp(x, i);
    ScaledAdd(32768 * x, d, i);
    ScaledAdd(Times(n, q), left, i);
  }

  /** s_div's quotient of the magnitude, one leading zero off. */
  lemma DividedLaw(x: seq<Digit>, n: Digit) returns (q: seq<Digit>, r: Digit)
    requires x != [] && n > 0
    ensures S.DivideFrom(x, |x|, n, 0) == (q, r as Long) && q != [] && r < n
    ensures Comes(S.Is(S.Raw(if q[|q| - 1] == 0 then |q| - 1 else |q|, q)), Val(q)) && Val(x) == n * Val(q) + r as int
  {
    hide Val, Times, S.DivideFrom, Comes;
    q, r := DivideFromLaw(x, |x|, n, 0);
    assert x[..|x|] == x;
    ScaledBasics(|x|);
    TrimmedLaw(q);
    ShortDivision.TimesIs(n, Val(q));
  }

  lemma DivideShortIs(a: S.Number, n: Int16, q: seq<Int16>, r: Digit)
    requires a.len != 0 && n != 0 && n > -32768 && q != []
    requires S.DivideFrom(a.Used(), |a.Used()|, if n < 0 then -(n as int) else n, 0) == (q, r)
    ensures var c := S.Raw(if q[|q| - 1] == 0 then |q| - 1 else |q|, q);
      S.DivideShort(a, n) == S.Is(if (a.len < 0) != (n < 0) then (c.Negated(), -(r as int)) else (c, r))
  {
    hide S.DivideFrom, Wrap16;
    ShortKeeps(0 - n as int);
    ShortKeeps(r);
    ShortKeeps(0 - r as int);
  }

  /** sdiv, off -32768 */
  lemma DivideShortLaw(a: S.Number, n: Int16)
    requires ProperNumber(a) && a.len != 0 && n != 0 && n > -32768
    ensures var r := S.DivideShort(a, n);
      && r.Is? && ProperNumber(r.value.0)
      && ShortDivision.Divides(Value(a), n, (a.len < 0) != (n < 0), Value(r.value.0), r.value.1)
  {
    hide Val, S.DivideFrom, S.DivideShort, ShortDivision.Divides;
    var x: seq<Digit>, m: Digit := a.Used(), if n < 0 then -(n as int) else n;
    var q, r := DividedLaw(x, m);
    var c: S.Number := S.Raw(if q[|q| - 1] == 0 then |q| - 1 else |q|, q);
    NegatedLaw(c);
    ShortDivision.SignedDivision(Value(a), n, Value(c), r as int);
    DivideShortIs(a, n, q, r);
  }

  // ----- Long division -----

  /** m_trq for digits: the estimate of Knuth's theorem, found in at most as many turns as it starts from. */
  lemma {:induction false} TryFromLaw(v1: Digit, v2: Digit, u1: Digit, u2: Digit, u3: Digit, q: Long, turns: nat)
    requires 0 < v1 && 0 <= q <= 32767 && q as int < turns
    requires 0 <= LongDivision.Two(u1, u2) - Times(v1, q) <= 65534
    requires q == 32767 || LongDivision.Three(u1, u2, u3) < Times(q as int + 1, LongDivision.Two(v1, v2))
    ensures IsEstimate(S.TryFrom(v1, v2, u1, u2, u3, q, turns), v1, v2, u1, u2, u3)
    decreases turns
  {
    hide Times, Wrap32, Wrap16;
    LongDivision.ProductFitsLong(v1, v2, q);
    LongDivision.Expand(v1, v2, q);
    var x := u1 as int * 32768 + u2 as int - Times(v1, q);
    var y := x * 32768 + u3 as int - Times(v2, q);
    LongKeeps(Times(v1, q));
    LongKeeps(Times(v2, q));
    LongKeeps(u1 as int * 32768);
    LongKeeps(u1 as int * 32768 + u2 as int);
    LongKeeps(x);
    LongKeeps(x * 32768);
    LongKeeps(x * 32768 + u3 as int);
    LongKeeps(y);
    ShortKeeps(q);
    if y < 0 {
      LongDivision.NextGuess(v1, v2, u1, u2, u3, q);
      LongKeeps(q as int - 1);
      TryFromLaw(v1, v2, u1, u2, u3, q as int - 1, turns - 1);
    }
  }

  ghost predicate IsEstimate(r: S.Result<Int16>, v1: Digit, v2: Digit, u1: Digit, u2: Digit, u3: Digit) {
    && r.Is? && r.value >= 0
    && Times(r.value, LongDivision.Two(v1, v2)) <= LongDivision.Three(u1, u2, u3)
    && (r.value == 32767 || LongDivision.Three(u1, u2, u3) < Times(r.value as int + 1, LongDivision.Two(v1, v2)))
  }

  lemma EstimateLaw(v1: Digit, v2: Digit, u1: Digit, u2: Digit, u3: Digit, turns: nat)
    requires 0 < v1 && u1 <= v1 && turns >= 32768
    ensures IsEstimate(S.TrialQuotient(v1, v2, u1, u2, u3, turns), v1, v2, u1, u2, u3)
  {
    hide Times, Quot, Rem, Wrap32, S.Over, S.TryFrom, IsEstimate;
    var q: Long := 32767;
    if u1 != v1 {
      ShortDivision.QuotientDigit(u1, u2, v1);
      q := Quot(u1 as int * 32768 + u2 as int, v1);
      LongKeeps(u1 as int * 32768);
      LongKeeps(u1 as int * 32768 + u2 as int);
      OverIs(u1 as int * 32768 + u2 as int, v1);
      LongKeeps(q);
    }
    LongDivision.FirstGuess(v1, v2, u1, u2, u3, q);
    TryFromLaw(v1, v2, u1, u2, u3, q, turns);
  }

  /** The first loop of m_dsb: the window loses q times a, but for its top digit, which says what is owed. */
  lemma {:induction false} TakeFromLaw(q: Digit, a: seq<Digit>, w: seq<Digit>, j: nat, borrow: Int16) returns (top: int)
    requires |w| == |a| + 1 && j <= |a| && -32767 <= borrow <= 0
    ensures var r := S.TakeFrom(q, a, w, j, borrow);
      && -32767 <= top < 32768 && r.0[|a| - j] == Low15(top) && (r.1 <==> top < 0)
      && Val(r.0[..|a| - j]) + Scaled(top - w[|a|] as int, |a| - j) == Val(w[j..|a|]) - Times(q, Val(a[j..])) + borrow as int
    decreases |a| - j
  {
    hide Val, Scaled, Times, Wrap32, Wrap16, Low15, ShiftRight15;
    if j == |a| {
      top := borrow as int + w[j] as int;
      ShortKeeps(top);
      ValEmpty();
      ScaledOnce(borrow);
      TimesZero(q);
      assert w[j..|a|] == [] && a[j..] == [] && S.TakeFrom(q, a, w, j, borrow).0[..0] == [];
    } else {
      LongDivision.ProductFitsLong(a[j], 0, q);
      var p := Times(a[j], q);
      var x := borrow as int - p + w[j] as int;
      var digit, next := TakeNext(q, a, w, j, borrow, p);
      hide S.TakeFrom;
      top := TakeFromLaw(q, a, w, j + 1, next);
      var more := S.TakeFrom(q, a, w, j + 1, next).0;
      assert S.TakeFrom(q, a, w, j, borrow).0[..|a| - j] == [digit] + more[..|a| - j - 1];
      ValCons(digit, more[..|a| - j - 1]);
      ScaledSnoc(top - w[|a|] as int, |a| - j - 1);
      ValSuffix(w[..|a|], j);
      assert w[..|a|][j..] == w[j..|a|] && w[..|a|][j + 1..] == w[j + 1..|a|];
      ValSuffix(a, j);
      TimesDigitLow(q, a[j], Val(a[j + 1..]));
    }
  }

  lemma TimesDigitLow(q: int, d: int, v: int)
    ensures Times(q, d + 32768 * v) == Times(d, q) + 32768 * Times(q, v)
  {
    ShortDivision.TimesDigit(q, d, v);
    LongDivision.TimesSwap(q, d);
  }

  lemma TakeNext(q: Digit, a: seq<Digit>, w: seq<Digit>, j: nat, borrow: Int16, p: int) returns (digit: Digit, next: Int16)
    requires |w| == |a| + 1 && j < |a| && -32767 <= borrow <= 0 && p == Times(a[j], q) && 0 <= p <= 0x3FFF_0001
    ensures digit as int + 32768 * next as int == borrow as int - p + w[j] as int && -32767 <= next <= 0
    ensures var rest := S.TakeFrom(q, a, w, j + 1, next);
      S.TakeFrom(q, a, w, j, borrow) == ([digit] + rest.0, rest.1)
  {
    hide Wrap32, Wrap16, Low15, ShiftRight15;
    var x := borrow as int - p + w[j] as int;
    LongKeeps(a[j] as int * q as int);
    LongKeeps(borrow as int - p);
    LongKeeps(x);
    LowAndShift(x);
    digit, next := Low15(x), ShiftRight15(x);
    ShortKeeps(next);
  }

  /** The second loop of m_dsb adds the divisor back, and drops the last carry. */
  lemma {:induction false} GiveBackLaw(a: seq<Digit>, w: seq<Digit>, j: nat, carry: int) returns (over: int)
    requires |a| <= |w| && j <= |a| && 0 <= carry <= 1
    ensures 0 <= over <= 1
    ensures Val(S.GiveBackFrom(a, w, j, carry)) + Scaled(over, |a| - j) == Val(w[j..|a|]) + Val(a[j..]) + carry
    decreases |a| - j
  {
    hide Val, Scaled, Wrap16, Low15;
    if j == |a| {
      over := carry;
      ValEmpty();
      ScaledOnce(carry);
      assert w[j..|a|] == [] && a[j..] == [];
    } else {
      var total := a[j] as int + w[j] as int + carry;
      SignBitIsCarry(total);
      var u := Wrap16(total);
      LongDivision.MaskKeepsDigit(u);
      var next := if u < 0 then 1 else 0;
      over := GiveBackLaw(a, w, j + 1, next);
      ValCons(Low15(u), S.GiveBackFrom(a, w, j + 1, next));
      ScaledSnoc(over, |a| - j - 1);
      ValSuffix(w[..|a|], j);
      assert w[..|a|][j..] == w[j..|a|] && w[..|a|][j + 1..] == w[j + 1..|a|];
      ValSuffix(a, j);
    }
  }

  /** m_dsb, for an estimate that is right or one too large. */
  lemma TakeMultipleLaw(q: Digit, a: seq<Digit>, w: seq<Digit>)
    requires |w| == |a| + 1
    requires Times(q as int - 1, Val(a)) <= Val(w) < Times(q as int + 1, Val(a))
    ensures var r := S.TakeMultiple(q, a, w);
      && (r.1 == if Times(q, Val(a)) <= Val(w) then 0 else 1)
      && Val(r.0[..|a|]) == Val(w) - Times(q as int - r.1, Val(a))
  {
    hide Val, Scaled, Times, BasePow, S.TakeFrom, S.GiveBackFrom, Low15;
    var n := |a|;
    var top := TakeFromLaw(q, a, w, 0, 0);
    var (s, owes) := S.TakeFrom(q, a, w, 0, 0);
    assert a[0..] == a && w[0..n] == w[..n] && w[..n + 1] == w;
    ValPrefix(w, n);
    ScaledAdd(top, w[n], n);
    ValBound(a);
    LongDivision.WindowAfterSubtraction(s[..n], top - w[n] as int, top, w[n], Val(w), q, Val(a));
    if owes {
      var over := GiveBackLaw(a, s, 0, 0);
      assert s[0..n] == s[..n];
      var back := S.GiveBackFrom(a, s, 0, 0);
      LongDivision.WindowAfterRepair(back, s[..n], over, Val(w), q, Val(a));
      assert (back + [s[n]])[..n] == back;
    }
  }

  /** One round of the descending loop: the digit, and the digits of u afterwards. */
  lemma RoundLaw(u: seq<Digit>, v: seq<Digit>, j: nat, turns: nat) returns (d: Digit, w: seq<Digit>, less: int)
    requires |v| >= 2 && v[|v| - 1] > 0 && j + |v| < |u| && turns >= 32768
    requires Val(u[j + 1..j + 1 + |v|]) < Val(v)
    ensures 0 <= d as int - less < 32768 && |w| == |v| + 1
    ensures S.TrialQuotient(v[|v| - 1], v[|v| - 2], u[j + |v|], u[j + |v| - 1], u[j + |v| - 2], turns) == S.Is(d)
    ensures S.TakeMultiple(d, v, u[j..j + |v| + 1]) == (w, less)
    ensures Val(w[..|v|]) == Val(u[j..j + |v| + 1]) - Times(d as int - less, Val(v)) && Val(w[..|v|]) < Val(v)
  {
    hide Val, Times, S.TrialQuotient, S.TakeMultiple;
    var n := |v|;
    var W := u[j..j + n + 1];
    assert W[1..] == u[j + 1..j + 1 + n];
    ValSuffix(W, 0);
    assert W[0..] == W;
    LongDivision.TopDigitLe(W[1..], v);
    EstimateLaw(v[n - 1], v[n - 2], u[j + n], u[j + n - 1], u[j + n - 2], turns);
    d := S.TrialQuotient(v[n - 1], v[n - 2], u[j + n], u[j + n - 1], u[j + n - 2], turns).value;
    LongDivision.TrialQuotientOffByOne(d, W, v);
    TakeMultipleLaw(d, v, W);
    w, less := S.TakeMultiple(d, v, W).0, S.TakeMultiple(d, v, W).1;
    LongDivision.TimesSplit(d, Val(v));
    if less == 1 && d == 0 {
      TimesZeroTimes(Val(v));
    }
  }

  lemma TimesZeroTimes(v: int)
    ensures Times(0, v) == 0
  {}

  /** The descending loop divides what is in the low digits. */
  lemma {:induction false} DivideDownLaw(u: seq<Digit>, v: seq<Digit>, k: nat, turns: nat)
    returns (low: seq<Digit>, q: seq<Digit>)
    requires |v| >= 2 && v[|v| - 1] > 0 && k + |v| <= |u| && turns >= 32768
    requires Val(u[k..k + |v|]) < Val(v)
    ensures S.DivideDown(u, v, k, turns) == S.Is((low, q)) && |low| == |u| && |q| == k && Val(low[..|v|]) < Val(v)
    ensures Val(u[..k + |v|]) == Times(Val(v), Val(q)) + Val(low[..|v|])
    decreases k
  {
    hide Val, Times, Scaled, BasePow, S.TrialQuotient, S.TakeMultiple;
    var n := |v|;
    if k == 0 {
      low, q := u, [];
      ValEmpty();
      TimesZero(Val(v));
      assert u[0..n] == u[..n];
    } else {
      var j := k - 1;
      var d, w, less := RoundLaw(u, v, j, turns);
      var u' := u[..j] + w + u[j + n + 1..];
      WindowIs(u, j, w, n);
      hide S.DivideDown;
      low, q := DivideDownLaw(u', v, j, turns);
      DownNext(u, v, k, turns, d, w, less);
      var digit: Digit := d as int - less;
      ValSnoc(q, digit);
      WindowChanged(u, j, w, n);
      BroughtDown(BasePow(j), Val(u[j..j + n + 1]), Val(w[..n]), digit, Val(v), Val(q), j);
      q := q + [digit];
    }
  }

  lemma WindowIs(u: seq<Digit>, j: nat, w: seq<Digit>, n: nat)
    requires j + n < |u| && |w| == n + 1
    ensures var u' := u[..j] + w + u[j + n + 1..];
      |u'| == |u| && u'[j..j + n] == w[..n]
  {}

  lemma WindowChanged(u: seq<Digit>, j: nat, w: seq<Digit>, n: nat)
    requires j + n < |u| && |w| == n + 1
    ensures var u' := u[..j] + w + u[j + n + 1..];
      Val(u'[..j + n]) == Val(u[..j]) + BasePow(j) * Val(w[..n])
    ensures Val(u[..j + n + 1]) == Val(u[..j]) + BasePow(j) * Val(u[j..j + n + 1])
  {
    hide Val, BasePow;
    var u' := u[..j] + w + u[j + n + 1..];
    assert u'[..j + n] == u[..j] + w[..n];
    ValConcat(u[..j], w[..n]);
    assert u[..j + n + 1] == u[..j] + u[j..j + n + 1];
    ValConcat(u[..j], u[j..j + n + 1]);
  }

  lemma DownNext(u: seq<Digit>, v: seq<Digit>, k: nat, turns: nat, d: Digit, w: seq<Digit>, less: int)
    requires |v| >= 2 && 0 < k && k + |v| <= |u| && |w| == |v| + 1 && 0 <= d as int - less < 32768
    requires S.TrialQuotient(v[|v| - 1], v[|v| - 2], u[k - 1 + |v|], u[k + |v| - 2], u[k + |v| - 3], turns) == S.Is(d)
    requires S.TakeMultiple(d, v, u[k - 1..k + |v|]) == (w, less)
    requires S.DivideDown(u[..k - 1] + w + u[k + |v|..], v, k - 1, turns).Is?
    ensures var more := S.DivideDown(u[..k - 1] + w + u[k + |v|..], v, k - 1, turns).value;
      S.DivideDown(u, v, k, turns) == S.Is((more.0, more.1 + [(d as int - less) as Int16]))
  {
    hide S.TrialQuotient, S.TakeMultiple, Wrap16;
    ShortKeeps(d as int - less);
  }

  lemma BroughtDown(p: int, window: int, rest: int, q: int, v: int, done: int, j: nat)
    requires p == BasePow(j) && rest == window - Times(q, v)
    ensures p * window + Times(v, done) == p * rest + Times(v, done + Scaled(q, j))
  {
    MulDistribute(window, q * v, p);
    MulAssoc(p, q, v);
    MulDistribute(done, q * p, v);
  }

  /** The scaling factor is a digit that keeps the divisor's length and makes its top digit large enough. */
  lemma ScaledLaw(a: seq<Digit>, b: seq<Digit>) returns (d: Digit)
    requires |a| >= |b| >= 2 && b[|b| - 1] > 0
    ensures d > 0 && d as int == S.Over(32768, b[|b| - 1] as int + 1) == Wrap16(S.Over(32768, b[|b| - 1] as int + 1)) as int
    ensures var u, v, n := S.Columns(a, [d], 0, 0), S.Columns(b, [d], 0, 0), |b|;
      && Val(u) == Times(d, Val(a)) && Val(v[..n]) == Times(d, Val(b)) && v[n - 1] > 0 && Val(u[|a| - n + 1..]) < Val(v[..n])
  {
    hide Val, Times, BasePow, Quot, S.Over, S.Columns, Wrap16;
    var n, top := |b|, b[|b| - 1];
    LongDivision.FactorFits(top);
    OverIs(32768, top as int + 1);
    d := Quot(32768, top as int + 1);
    ShortKeeps(d);
    ProductLaw(a, [d]);
    ProductLaw(b, [d]);
    ValSingle(d);
    LongDivision.TimesSwap(d, Val(a));
    LongDivision.TimesSwap(d, Val(b));
    ShortDivision.TimesIs(Val(a), d);
    ShortDivision.TimesIs(Val(b), d);
    KeepsLength(b, d);
    var B := Mints.Mint(n, b);
    assert B.Digits() == b;
    LongDivision.ScaledDivisor(B, d, S.Columns(b, [d], 0, 0));
    ValBound(a);
    ValTop(b);
    LongDivision.TopWindowSmall(S.Columns(a, [d], 0, 0), Val(a), Val(b), d, n);
  }

  lemma KeepsLength(b: seq<Digit>, d: Digit)
    requires b != [] && b[|b| - 1] > 0 && d as int == Quot(32768, b[|b| - 1] as int + 1) && d > 0
    ensures Times(d, Val(b)) < BasePow(|b|)
  {
    hide Val, BasePow, Times, Quot;
    var n, top := |b|, b[|b| - 1];
    LongDivision.FactorFits(top);
    assert b[..n] == b;
    ValPrefix(b, n - 1);
    ValBound(b[..n - 1]);
    ScaledAdd(top, 1, n - 1);
    ScaledBasics(n - 1);
    LongDivision.BaseUp(n - 1);
    LongDivision.FactorKeepsLength(d, top, Val(b), BasePow(n - 1), n - 1);
  }

  /** The end of m_div: what the descending loop has left, without the factor. Nothing left is read below its
      array. */
  lemma UnscaledLaw(u: seq<Digit>, n: nat, d: Digit)
    requires n <= |u| && d > 0
    ensures var r := S.Unscaled(u, n, d);
      && (r.Is? <==> Val(u[..n]) > 0)
      && (r.Is? ==> ProperNumber(r.value) && Value(r.value) >= 0
                    && 0 <= Val(u[..n]) - d as int * Value(r.value) < d as int)
  {
    hide Val, S.DivideShort, ShortDivision.Divides;
    var k := S.Significant(u, n);
    SignificantLaw(u, n);
    EmptyIsZero(u[..k]);
    var x: S.Number := S.Raw(k, u);
    assert x.Used() == u[..k];
    if k == 0 {
      assert S.DivideShort(x, d) == S.Undefined by {
        NothingToRead(x, d);
      }
    } else {
      ValTop(u[..k]);
      DivideShortLaw(x, d);
      var z := S.DivideShort(x, d).value;
      ShortQuotientLaw(Value(x), d, Value(z.0), z.1);
    }
  }

  lemma NothingToRead(x: S.Number, n: Int16)
    requires x.len == 0
    ensures S.DivideShort(x, n) == S.Undefined
  {}

  lemma ShortQuotientLaw(x: nat, n: Digit, q: int, r: Int16)
    requires n > 0 && ShortDivision.Divides(x, n, false, q, r)
    ensures q >= 0 && 0 <= r < n && x == n as int * q + r as int
  {}

  lemma QuotientIs(a: nat, b: nat, q: nat, r: nat)
    requires a == b * q + r && r < b
    ensures a % b == r
  {
    NumberTheory.DivModUnique(a, b, q, r);
  }

  /** What mdiv cannot do with proper operands: divide by nothing, or read below an array. */
  predicate Refused(a: seq<Digit>, b: seq<Digit>) {
    || b == []
    || (|b| == 1 && a == [])
    || (|a| >= |b| >= 2 && Val(b) > 0 && Val(a) % Val(b) == 0)
  }

  lemma OneDigitLaw(a: seq<Digit>, n: Digit)
    requires n > 0
    ensures var r := S.DivideShort(S.Raw(|a|, a), n);
      && (r.Is? <==> a != [])
      && (r.Is? ==> ProperNumber(r.value.0) && Value(r.value.0) >= 0 && 0 <= r.value.1 < n
                    && Comes(S.Is(S.Raw(if r.value.1 == 0 then 0 else 1, [r.value.1])), r.value.1)
                    && Val(a) == n as int * Value(r.value.0) + r.value.1 as int)
  {
    hide Val, S.DivideShort, ShortDivision.Divides, Comes;
    var x: S.Number := S.Raw(|a|, a);
    assert x.Used() == a;
    if a == [] {
      NothingToRead(x, n);
    } else {
      DivideShortLaw(x, n);
      var z := S.DivideShort(x, n).value;
      ShortQuotientLaw(Value(x), n, Value(z.0), z.1);
      LastDigitLaw(z.1);
    }
  }

  /** Quotient and remainder are proper and right. */
  ghost predicate DividesTo(r: S.Result<(S.Number, S.Number)>, a: nat, b: nat) {
    r.Is? ==>
      && ProperNumber(r.value.0) && ProperNumber(r.value.1)
      && a == b * Value(r.value.0) + Value(r.value.1) && 0 <= Value(r.value.1) < b && 0 <= Value(r.value.0)
  }

  /** m_div for two digits and more, off the exact divisions, for which it reads below an array. */
  lemma DivideLongLaw(a: seq<Digit>, b: seq<Digit>, turns: nat)
    requires |a| >= |b| >= 2 && b[|b| - 1] > 0 && turns >= 32768
    ensures var r := S.DivideLong(a, b, turns);
      (r.Is? <==> Val(b) > 0 && Val(a) % Val(b) != 0) && DividesTo(r, Val(a), Val(b))
  {
    hide Val, Times, BasePow, S.Over, S.Columns, S.DivideDown, S.Unscaled, Wrap16;
    var n := |b|;
    var d := ScaledLaw(a, b);
    var u, v := S.Columns(a, [d], 0, 0), S.Columns(b, [d], 0, 0);
    var k := |a| - n + 1;
    assert u[k..k + n] == u[|a| - n + 1..] && u[..k + n] == u;
    var low, q := DivideDownLaw(u, v[..n], k, turns);
    UnscaledLaw(low, n, d);
    TrimmedLaw(q);
    var rest := Val(low[..n]);
    var r := if rest > 0 then Value(S.Unscaled(low, n, d).value) else 0;
    LongDivision.Unscale(Val(a), Val(b), d, Val(q), rest, r, rest - d as int * r);
    QuotientIs(Val(a), Val(b), Val(q), r);
    if rest > 0 && r == 0 {
      assert false;
    }
  }

  lemma ByOneDigit(a: seq<Digit>, b: seq<Digit>, turns: nat)
    requires |b| == 1 && b[0] > 0
    ensures var r := S.DivideMagnitudes(a, b, turns); (r.Is? <==> a != []) && DividesTo(r, Val(a), Val(b))
  {
    hide Val, S.DivideShort;
    OneDigitLaw(a, b[0]);
    ValSingle(b[0]);
    assert b == [b[0]];
  }

  lemma ByLonger(a: seq<Digit>, b: seq<Digit>, turns: nat)
    requires |a| < |b| && |b| >= 2 && b[|b| - 1] > 0
    ensures var r := S.DivideMagnitudes(a, b, turns); r.Is? && DividesTo(r, Val(a), Val(b))
  {
    hide Val;
    var x: S.Number := S.Raw(|a|, a);
    assert x.Used() == a && S.NONE.Used() == [];
    EmptyIsZero([]);
    NormalLength(a, b);
  }

  lemma DivideMagnitudesLaw(a: seq<Digit>, b: seq<Digit>, turns: nat)
    requires (b != [] ==> b[|b| - 1] > 0) && turns >= 32768
    ensures var r := S.DivideMagnitudes(a, b, turns);
      (r.Is? <==> !Refused(a, b)) && DividesTo(r, Val(a), Val(b))
  {
    hide Val, S.DivideLong, DividesTo;
    if b == [] {
      EmptyIsZero(b);
      NothingDivided(a, turns);
    } else if |b| == 1 {
      ByOneDigit(a, b, turns);
    } else if |a| < |b| {
      ByLonger(a, b, turns);
    } else {
      ValTop(b);
      DivideLongLaw(a, b, turns);
      ByItself(a, b, turns);
    }
  }

  lemma NothingDivided(a: seq<Digit>, turns: nat)
    ensures S.DivideMagnitudes(a, [], turns) == S.Undefined && DividesTo(S.Undefined, Val(a), 0)
  {}

  lemma ByItself(a: seq<Digit>, b: seq<Digit>, turns: nat)
    requires |a| >= |b| >= 2
    ensures S.DivideMagnitudes(a, b, turns) == S.DivideLong(a, b, turns)
  {}

  lemma LastDigitLaw(r: Int16)
    requires r >= 0
    ensures Comes(S.Is(S.Raw(if r == 0 then 0 else 1, [r])), r)
  {
    var c: S.Number := S.Raw(if r == 0 then 0 else 1, [r]);
    ValSingle(r);
    assert c.Used() == if r == 0 then [] else [r];
  }

  /** mdiv by a number whose top digit is not zero. */
  lemma DivideLaw(a: S.Number, b: S.Number, turns: nat)
    requires ProperNumber(a) && ProperNumber(b) && turns >= 32768
    requires b.Used() != [] ==> b.Used()[|b.Used()| - 1] > 0
    ensures var r := S.Divide(a, b, turns);
      && (r.Is? <==> !Refused(a.Used(), b.Used()))
      && (r.Is? ==> ProperNumber(r.value.0) && ProperNumber(r.value.1)
                    && ShortDivision.Divides(Value(a), Value(b), (a.len < 0) != (b.len < 0),
                                             Value(r.value.0), Value(r.value.1)))
  {
    hide Val, S.DivideMagnitudes, ShortDivision.Divides, Refused;
    var x: seq<Digit>, y: seq<Digit> := a.Used(), b.Used();
    DivideMagnitudesLaw(x, y, turns);
    var z := S.DivideMagnitudes(x, y, turns);
    if z.Is? {
      NegatedLaw(z.value.0);
      NegatedLaw(z.value.1);
      ShortDivision.SignedDivision(Value(a), Value(b), Value(z.value.0), Value(z.value.1));
    }
  }
}
