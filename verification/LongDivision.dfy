/** mdiv.c: long division (Knuth, The Art of Computer Programming, vol. 2, section 4.3.1,
    Algorithm D). */
module LongDivision {
  import opened Machine
  import opened Digits
  import opened Mints
  import opened AddSub
  import opened Multiplication
  import opened ShortDivision

  /** The number made of two, or three, digits. */
  function Two(hi: Digit, lo: Digit): nat {
    hi * 32768 + lo
  }

  function Three(u1: Digit, u2: Digit, u3: Digit): nat {
    Two(u1, u2) * 32768 + u3
  }

  /** m_trq: estimate a quotient digit from the top three digits of the dividend and the top two of
      the divisor. The answer is min(BASE - 1, three digits over two), and every intermediate fits
      a signed 32-bit long. */
  method TrialQuotient(v1: Digit, v2: Digit, u1: Digit, u2: Digit, u3: Digit) returns (d: Digit)
    requires 0 < v1 && u1 <= v1
    ensures Times(d, Two(v1, v2)) <= Three(u1, u2, u3)
    ensures d == 32767 || Three(u1, u2, u3) < Times(d + 1, Two(v1, v2))
  {
    hide Times, Quot, Rem;
    var q: Long := 32767;
    if u1 != v1 {
      var t: Long := u1 * 32768;
      t := t + u2;
      QuotientDigit(u1, u2, v1);
      q := Quot(t, v1);
    }
    FirstGuess(v1, v2, u1, u2, u3, q);
    while true
      invariant 0 <= q <= 32767
      invariant 0 <= Two(u1, u2) - Times(v1, q) <= 65534
      invariant q == 32767 || Three(u1, u2, u3) < Times(q + 1, Two(v1, v2))
      decreases q
    {
      ProductFitsLong(v1, v2, q);
      var x1: Long := u1 * 32768;
      x1 := x1 + u2;
      var p: Long := Times(v1, q);
      x1 := x1 - p;
      x1 := x1 * 32768;
      x1 := x1 + u3;
      p := Times(v2, q);
      x1 := x1 - p;
      Expand(v1, v2, q);
      if x1 < 0 {
        NextGuess(v1, v2, u1, u2, u3, q);
        q := q - 1;
      } else {
        return q;
      }
    }
  }

  lemma ProductFitsLong(v1: Digit, v2: Digit, q: int)
    requires 0 <= q <= 32767
    ensures 0 <= Times(v1, q) <= 0x3FFF_0001 && 0 <= Times(v2, q) <= 0x3FFF_0001
  {
    ProductBound(v1, q);
    ProductBound(v2, q);
  }

  lemma Expand(v1: Digit, v2: Digit, q: int)
    ensures Times(q, Two(v1, v2)) == Times(v1, q) * 32768 + Times(v2, q)
  {
    MulDistribute(v1 * 32768, v2, q);
  }

  /** The two-digit quotient is never below the three-digit one. */
  lemma FirstGuess(v1: Digit, v2: Digit, u1: Digit, u2: Digit, u3: Digit, q: int)
    requires 0 < v1 && u1 <= v1
    requires q == if u1 == v1 then 32767 else Quot(u1 * 32768 + u2, v1)
    ensures 0 <= q <= 32767
    ensures 0 <= Two(u1, u2) - Times(v1, q) <= 65534
    ensures q == 32767 || Three(u1, u2, u3) < Times(q + 1, Two(v1, v2))
  {
    hide Times, Quot, Rem;
    if u1 == v1 {
      TimesIs(v1, 32767);
    } else {
      var t := Two(u1, u2);
      QuotRem(t, v1);
      QuotientDigit(u1, u2, v1);
      Expand(v1, v2, q + 1);
      TimesNext(v1, q);
      ProductBound(v2, q);
      TimesIs(v2, q);
      TimesNext(v2, q);
    }
  }

  lemma TimesNext(x: int, q: int)
    ensures Times(x, q + 1) == Times(x, q) + x
  {}

  /** A guess that is too large leaves a remainder below BASE, so the next one still fits. */
  lemma NextGuess(v1: Digit, v2: Digit, u1: Digit, u2: Digit, u3: Digit, q: int)
    requires 0 <= q <= 32767 && 0 <= Two(u1, u2) - Times(v1, q) <= 65534
    requires Three(u1, u2, u3) < Times(q, Two(v1, v2))
    ensures q > 0
    ensures 0 <= Two(u1, u2) - Times(v1, q - 1) <= 65534
  {
    hide Times;
    Expand(v1, v2, q);
    TimesNext(v1, q - 1);
    ProductFitsLong(v1, v2, q);
    if q == 0 {
      TimesIs(0, Two(v1, v2));
    }
  }

  lemma TimesPrefix(q: int, a: seq<Digit>, j: nat)
    requires j < |a|
    ensures Times(q, Val(a[..j + 1])) == Times(q, Val(a[..j])) + Scaled(Times(a[j], q), j)
  {
    hide Val, Times, Scaled;
    ValPrefix(a, j);
    TimesScaled(q, Val(a[..j]), a[j], j);
  }

  lemma TimesScaled(q: int, v: int, d: int, j: nat)
    ensures Times(q, v + Scaled(d, j)) == Times(q, v) + Scaled(Times(d, q), j)
  {
    var p := BasePow(j);
    MulDistribute(v, d * p, q);
    MulAssoc(q, d, p);
  }

  /** The multiply-and-subtract loop of m_dsb: the digits of u from `off` on lose q times a. */
  method SubtractMultiple(q: Digit, a: seq<Digit>, u: array<Digit>, off: nat) returns (borrow: int)
    requires off + |a| < u.Length
    modifies u
    ensures -32767 <= borrow <= 0
    ensures u[..off] == old(u[..off]) && u[off + |a|..] == old(u[off + |a|..])
    ensures Val(u[off..off + |a|]) + Scaled(borrow, |a|) == old(Val(u[off..off + |a|])) - Times(q, Val(a))
  {
    hide Val, Scaled, Times, Low15, ShiftRight15;
    ghost var U := u[..];
    ghost var W := U[off..off + |a|];
    ghost var done: seq<Digit> := [];
    borrow := 0;
    NoMultiple(q, a, W);
    for j := 0 to |a|
      invariant -32767 <= borrow <= 0
      invariant done == u[off..off + j]
      invariant forall k :: 0 <= k < off || off + j <= k < u.Length ==> u[k] == U[k]
      invariant Val(done) + Scaled(borrow, j) == Val(W[..j]) - Times(q, Val(a[..j]))
    {
      ghost var borrow0, before := borrow, done;
      assert W[j] == U[off + j];
      var x: Long := borrow;
      ProductFitsLong(a[j], 0, q);
      var p: Long := Times(a[j], q);
      x := x - p;
      x := x + u[off + j];
      LowAndShift(x);
      u[off + j] := Low15(x);
      borrow := ShiftRight15(x);
      done := done + [u[off + j]];
      CarryStep(before, u[off + j], borrow0, borrow, W[j] as int - p);
      ValPrefix(W, j);
      TimesPrefix(q, a, j);
      ScaledAdd(W[j], p, j);
    }
    assert u[..off] == U[..off];
    assert u[off + |a|..] == U[off + |a|..];
    assert W[..|a|] == W && a[..|a|] == a;
  }

  lemma NoMultiple(q: int, a: seq<Digit>, w: seq<Digit>)
    ensures Val([]) + Scaled(0, 0) == Val(w[..0]) - Times(q, Val(a[..0]))
  {
    assert w[..0] == a[..0] == [];
  }

  /** The add-back loop of m_dsb; the carry out of its top digit is dropped. */
  method AddBack(a: seq<Digit>, u: array<Digit>, off: nat) returns (ghost carry: int)
    requires off + |a| < u.Length
    modifies u
    ensures carry == 0 || carry == 1
    ensures u[..off] == old(u[..off]) && u[off + |a|..] == old(u[off + |a|..])
    ensures Val(u[off..off + |a|]) + Scaled(carry, |a|) == old(Val(u[off..off + |a|])) + Val(a)
  {
    hide Val, Scaled, Low15, Wrap16, SignBit;
    ghost var U := u[..];
    ghost var W := U[off..off + |a|];
    ghost var done: seq<Digit> := [];
    var borrow: int := 0;
    NothingAdded(a, W);
    for j := 0 to |a|
      invariant borrow == 0 || borrow == 1
      invariant done == u[off..off + j]
      invariant forall k :: 0 <= k < off || off + j <= k < u.Length ==> u[k] == U[k]
      invariant Val(done) + Scaled(borrow, j) == Val(W[..j]) + Val(a[..j])
    {
      ghost var borrow0, before, w: int := borrow, done, W[j];
      assert W[j] == U[off + j];
      SignBitIsCarry(w + a[j] + borrow);
      var x := Wrap16(a[j] as int + u[off + j] + borrow);
      if SignBit(x) {
        borrow := 1;
      } else {
        borrow := 0;
        MaskKeepsDigit(x);
      }
      u[off + j] := Low15(x);
      done := done + [u[off + j]];
      CarryStep(before, u[off + j], borrow0, borrow, w + a[j]);
      PrefixSum(W, a, j);
    }
    carry := borrow;
    assert u[..off] == U[..off];
    assert u[off + |a|..] == U[off + |a|..];
    assert W[..|a|] == W && a[..|a|] == a;
  }

  lemma MaskKeepsDigit(x: Int16)
    ensures !SignBit(x) ==> Low15(x) == x
  {}

  lemma NothingAdded(a: seq<Digit>, w: seq<Digit>)
    ensures Val([]) + Scaled(0, 0) == Val(w[..0]) + Val(a[..0])
  {
    assert w[..0] == a[..0] == [];
  }

  /** m_dsb: take q times a from the digits of u at `off`. For a q that is right, or one too large,
      the answer says which, and in the second case the over-subtraction has been repaired. The
      digit of u above the window is not repaired; nothing reads it again. */
  method SubtractOrRepair(q: Digit, a: seq<Digit>, u: array<Digit>, off: nat) returns (r: int)
    requires off + |a| < u.Length
    requires Times(q - 1, Val(a)) <= Val(u[off..off + |a| + 1]) < Times(q + 1, Val(a))
    modifies u
    ensures r == 0 || r == 1
    ensures r == 0 <==> Times(q, Val(a)) <= old(Val(u[off..off + |a| + 1]))
    ensures Val(u[off..off + |a|]) == old(Val(u[off..off + |a| + 1])) - Times(q - r, Val(a))
    ensures u[..off] == old(u[..off]) && u[off + |a| + 1..] == old(u[off + |a| + 1..])
  {
    hide Val, Scaled, Times, Low15, ShiftRight15;
    var n := |a|;
    ghost var W := u[off..off + n + 1];
    assert W[..n] == u[off..off + n] && W[n] == u[off + n] && W[..n + 1] == W;
    ValPrefix(W, n);
    ghost var U := u[..];
    var borrow := SubtractMultiple(q, a, u, off);
    assert u[off + n..][0] == U[off + n..][0];
    ghost var D := u[off..off + n];
    var x: int := borrow + u[off + n];
    ValBound(a);
    WindowAfterSubtraction(D, borrow, x, W[n], Val(W), q, Val(a));
    u[off + n] := Low15(x);
    LowAndShift(x);
    assert u[off..off + n] == D;
    assert u[off + n + 1..] == U[off + n + 1..] by {
      assert U[off + n..][1..] == U[off + n + 1..];
    }
    if ShiftRight15(x) == 0 {
      return 0;
    }
    ghost var U1 := u[..];
    ghost var carry := AddBack(a, u, off);
    assert u[off + n + 1..] == U1[off + n + 1..] by {
      assert U1[off + n..][1..] == U1[off + n + 1..] && u[off + n..][1..] == u[off + n + 1..];
    }
    WindowAfterRepair(u[off..off + n], D, carry, Val(W), q, Val(a));
    return 1;
  }

  /** The digit above the window comes out as 0 or, after one subtraction too many, as -1. */
  lemma WindowAfterSubtraction(d: seq<Digit>, borrow: int, x: int, top: Digit, w: int, q: int, v: int)
    requires x == borrow + top
    requires Val(d) + Scaled(borrow, |d|) == w - Scaled(top, |d|) - Times(q, v)
    requires Times(q - 1, v) <= w < Times(q + 1, v) && 0 <= v < BasePow(|d|)
    ensures Times(q, v) <= w ==> x == 0 && Val(d) == w - Times(q, v)
    ensures w < Times(q, v) ==> x == -1 && Val(d) == w - Times(q, v) + BasePow(|d|)
  {
    hide Val, Times, Scaled, BasePow;
    var n := |d|;
    ScaledAdd(borrow, top, n);
    ValBound(d);
    TimesSplit(q, v);
    ScaledBasics(n);
    ScaledOne(n);
    if x >= 1 {
      ScaledMonotone(1, x, n);
    } else if x <= -2 {
      ScaledMonotone(x, -2, n);
    }
  }

  lemma ScaledOne(n: nat)
    ensures Scaled(-2, n) == 0 - 2 * BasePow(n)
  {}

  lemma TimesSplit(q: int, v: int)
    ensures Times(q - 1, v) == Times(q, v) - v && Times(q + 1, v) == Times(q, v) + v
  {}

  lemma WindowAfterRepair(e: seq<Digit>, d: seq<Digit>, carry: int, w: int, q: int, v: int)
    requires |e| == |d| && (carry == 0 || carry == 1)
    requires Val(e) + Scaled(carry, |d|) == Val(d) + v
    requires Val(d) == w - Times(q, v) + BasePow(|d|)
    requires Times(q - 1, v) <= w < Times(q, v) && 0 <= v < BasePow(|d|)
    ensures carry == 1 && Val(e) == w - Times(q - 1, v)
  {
    hide Val, Times, Scaled, BasePow;
    ValBound(e);
    TimesSplit(q, v);
    ScaledBasics(|d|);
  }

  /** Knuth's theorem on the trial quotient: with u the window and v the divisor, an estimate that is
      right for the top three digits over the top two is right, or one too large, for all of them. */
  lemma TrialQuotientOffByOne(q: int, w: seq<Digit>, v: seq<Digit>)
    requires |v| >= 2 && |w| == |v| + 1 && 0 <= q <= 32767
    requires v[|v| - 1] > 0 && Val(w) < 32768 * Val(v)
    requires var n := |v|;
      && Times(q, Two(v[n - 1], v[n - 2])) <= Three(w[n], w[n - 1], w[n - 2])
      && (q == 32767 || Three(w[n], w[n - 1], w[n - 2]) < Times(q + 1, Two(v[n - 1], v[n - 2])))
    ensures Times(q - 1, Val(v)) <= Val(w) < Times(q + 1, Val(v))
  {
    hide Val, BasePow, Times;
    var n := |v|;
    var r := BasePow(n - 2);
    TopTwo(v);
    TopThree(w);
    ValBound(v[..n - 2]);
    ValBound(w[..n - 2]);
    var hi, lo := Two(v[n - 1], v[n - 2]), Val(v[..n - 2]);
    var top, rest := Three(w[n], w[n - 1], w[n - 2]), Val(w[..n - 2]);
    NotTooLarge(q, hi, lo, top, rest, r);
    if q == 32767 {
      TimesIs(32768, Val(v));
    } else {
      NotTooSmall(q + 1, hi, lo, top, rest, r);
    }
  }

  lemma TopTwo(v: seq<Digit>)
    requires |v| >= 2
    ensures var n := |v|; Val(v) == Val(v[..n - 2]) + Times(Two(v[n - 1], v[n - 2]), BasePow(n - 2))
  {
    hide Val;
    var n := |v|;
    assert v[..n] == v;
    ValPrefix(v, n - 1);
    ValPrefix(v, n - 2);
    ScaledUp(v[n - 1], n - 2);
    ScaledAdd(32768 * (v[n - 1] as int), v[n - 2], n - 2);
  }

  lemma TopThree(w: seq<Digit>)
    requires |w| >= 3
    ensures var n := |w| - 1;
      Val(w) == Val(w[..n - 2]) + Times(Three(w[n], w[n - 1], w[n - 2]), BasePow(n - 2))
  {
    hide Val;
    var n := |w| - 1;
    assert w[..n + 1] == w;
    ValPrefix(w, n);
    ValPrefix(w, n - 1);
    ValPrefix(w, n - 2);
    ScaledUp(w[n], n - 1);
    ScaledAdd(32768 * (w[n] as int), w[n - 1], n - 1);
    ScaledUp(Two(w[n], w[n - 1]), n - 2);
    ScaledAdd(32768 * Two(w[n], w[n - 1]), w[n - 2], n - 2);
  }

  lemma NotTooLarge(q: int, hi: int, lo: int, top: int, rest: int, r: int)
    requires 0 <= q <= 32767 && hi >= 32768 && 0 <= lo < r && 0 <= rest < r
    requires Times(q, hi) <= top
    ensures Times(q - 1, lo + Times(hi, r)) <= rest + Times(top, r)
  {
    assert q * hi * r <= top * r by {
      MulLe(q * hi, top, r);
    }
    assert q * lo <= 32767 * lo by {
      MulLe(q, 32767, lo);
    }
    assert hi * r >= 32768 * r by {
      MulLe(32768, hi, r);
    }
    MulAssoc(q, hi, r);
    MulDistribute(q, 1, lo + hi * r);
    MulDistribute(lo, hi * r, q);
  }

  lemma NotTooSmall(q: int, hi: int, lo: int, top: int, rest: int, r: int)
    requires q >= 0 && lo >= 0 && 0 <= rest < r
    requires top < Times(q, hi)
    ensures rest + Times(top, r) < Times(q, lo + Times(hi, r))
  {
    MulLe(top + 1, q * hi, r);
    MulDistribute(top, 1, r);
    MulAssoc(q, hi, r);
    MulDistribute(lo, hi * r, q);
    MulLe(0, q, lo);
  }

  lemma TopDigitLe(r: seq<Digit>, v: seq<Digit>)
    requires |r| == |v| > 0 && Val(r) < Val(v)
    ensures r[|r| - 1] <= v[|v| - 1]
  {
    hide Val, Scaled, BasePow;
    var n := |v|;
    assert r[..n] == r && v[..n] == v;
    ValPrefix(r, n - 1);
    ValPrefix(v, n - 1);
    ValBound(v[..n - 1]);
    ScaledBasics(n - 1);
    if r[n - 1] > v[n - 1] {
      ScaledAdd(v[n - 1], 1, n - 1);
      ScaledMonotone(v[n - 1] + 1, r[n - 1], n - 1);
    }
  }

  /** Bringing down the next digit: from the division of the digits above j to that of all from j. */
  lemma BringDown(U: seq<Digit>, j: nat, v: int, done: seq<Digit>, rest: int, w: int, q: Digit, rest': int)
    requires j < |U|
    requires Val(U[j + 1..]) == Times(v, Val(done)) + rest
    requires w == U[j] + 32768 * rest && rest' == w - Times(q, v)
    ensures Val(U[j..]) == Times(v, Val([q] + done)) + rest'
  {
    hide Val, Times;
    ValSuffix(U, j);
    assert ([q] + done)[1..] == done && ([q] + done)[0] == q;
    ValCons(q, done);
    TimesDigit(v, q, Val(done));
    TimesSwap(q, v);
  }

  lemma TimesSwap(x: int, y: int)
    ensures Times(x, y) == Times(y, x)
  {}

  /** One round of the descending loop of m_div: the quotient digit at j. */
  method QuotientDigitAt(u: array<Digit>, v: seq<Digit>, j: nat) returns (q: Digit)
    requires |v| >= 2 && v[|v| - 1] > 0 && j + |v| < u.Length
    requires Val(u[j + 1..j + 1 + |v|]) < Val(v)
    modifies u
    ensures u[..j] == old(u[..j])
    ensures Val(u[j..j + |v|]) == old(u[j]) + 32768 * old(Val(u[j + 1..j + 1 + |v|])) - Times(q, Val(v))
    ensures Val(u[j..j + |v|]) < Val(v)
  {
    hide Val, Times;
    var n := |v|;
    ghost var W := u[j..j + n + 1];
    assert W[1..] == u[j + 1..j + 1 + n];
    ValSuffix(W, 0);
    assert W[0..] == W;
    TopDigitLe(W[1..], v);
    var qq: int := TrialQuotient(v[n - 1], v[n - 2], u[j + n], u[j + n - 1], u[j + n - 2]);
    TrialQuotientOffByOne(qq, W, v);
    var over := SubtractOrRepair(qq, v, u, j);
    TimesSplit(qq, Val(v));
    if over != 0 {
      if qq == 0 {
        TimesIs(0, Val(v));
      }
      qq := qq - 1;
    }
    q := qq;
  }

  /** The descending loop of m_div: u becomes the remainder (in its low digits) of dividing it by v. */
  method DivideDown(u: array<Digit>, v: seq<Digit>) returns (qval: array<Digit>)
    requires |v| >= 2 && v[|v| - 1] > 0 && |v| <= u.Length
    requires Val(u[u.Length - |v|..]) < Val(v)
    modifies u
    ensures fresh(qval) && qval.Length == u.Length - |v|
    ensures old(Val(u[..])) == Times(Val(v), Val(qval[..])) + Val(u[..|v|])
    ensures Val(u[..|v|]) < Val(v)
  {
    hide Val, Times;
    var n := |v|;
    var k := u.Length - n;
    qval := new Digit[k];
    ghost var U := u[..];
    ghost var done: seq<Digit> := [];
    NothingDivided(v, Val(v));
    assert u[k..k + n] == U[k..] == u[k..];
    NoQuotient(U[k..], Val(v));
    for j := k downto 0
      invariant u[..j] == U[..j] && done == qval[j..]
      invariant Val(u[j..j + n]) < Val(v)
      invariant Val(U[j..]) == Times(Val(v), Val(done)) + Val(u[j..j + n])
    {
      ghost var rest := Val(u[j + 1..j + 1 + n]);
      assert u[..j + 1][j] == U[..j + 1][j];
      assert u[..j + 1][..j] == u[..j] && U[..j + 1][..j] == U[..j];
      var q := QuotientDigitAt(u, v, j);
      qval[j] := q;
      BringDown(U, j, Val(v), done, rest, U[j] + 32768 * rest, q, Val(u[j..j + n]));
      done := [q] + done;
    }
    assert U[0..] == U && u[0..n] == u[..n];
  }

  lemma NoQuotient(s: seq<Digit>, v: int)
    ensures Val(s) == Times(v, Val([])) + Val(s)
  {}

  /** The scaling factor: with it the divisor keeps its length. The top digit must not be zero, or
      the factor itself would not fit a short. */
  method ScaleFactor(b: Mint) returns (d: Digit)
    requires b.len > 0 && b.Normal()
    ensures 0 < d <= 16384
    ensures Times(d, b.Magnitude()) < BasePow(b.len)
  {
    hide Val, BasePow, Times, Quot, Rem;
    var n := b.len;
    var top: Digit := b.val[n - 1];
    FactorFits(top);
    d := Quot(32768, top + 1);
    ghost var B := b.Digits();
    assert B[..n] == B && B[n - 1] == top;
    ValPrefix(B, n - 1);
    ValBound(B[..n - 1]);
    ScaledAdd(top, 1, n - 1);
    ScaledBasics(n - 1);
    BaseUp(n - 1);
    FactorKeepsLength(d, top, Val(B), BasePow(n - 1), n - 1);
  }

  lemma BaseUp(n: nat)
    ensures BasePow(n + 1) == 32768 * BasePow(n)
  {}

  lemma FactorFits(top: Digit)
    requires top > 0
    ensures 0 < Quot(32768, top + 1) <= 16384
    ensures Times(Quot(32768, top + 1), top + 1) <= 32768
  {
    var d := Quot(32768, top + 1);
    QuotRem(32768, top + 1);
    if d >= 16385 {
      MulLe(2, top + 1, d);
    } else if d <= 0 {
      MulLe(d, 0, top + 1);
    }
  }

  lemma FactorKeepsLength(d: int, top: int, b: int, p: int, n: nat)
    requires d > 0 && p == BasePow(n) && b < Scaled(top + 1, n) && Times(d, top + 1) <= 32768
    ensures Times(d, b) < 32768 * p
  {
    MulLe(b + 1, (top + 1) * p, d);
    MulLe(d * (top + 1), 32768, p);
    MulAssoc(d, top + 1, p);
  }

  /** The scaled divisor keeps its n digits, the top one still not zero. */
  lemma ScaledDivisor(b: Mint, d: Digit, v: seq<Digit>)
    requires b.len > 0 && b.Normal() && d > 0 && |v| == b.len + 1
    requires Val(v) == Times(d, b.Magnitude()) < BasePow(b.len)
    ensures Val(v[..b.len]) == Val(v) && v[b.len - 1] > 0
  {
    hide Val, BasePow, Times;
    var n := b.len;
    ValTop(v);
    assert v[..n + 1] == v;
    ValPrefix(v, n);
    ScaledBasics(n);
    ValTop(b.Digits());
    TimesAtLeast(d, b.Magnitude());
    ValTop(v[..n]);
  }

  lemma TimesAtLeast(d: int, x: nat)
    requires d > 0
    ensures Times(d, x) >= x
  {
    MulLe(1, d, x);
  }

  /** Before the first round the top n digits of the scaled dividend are below the scaled divisor. */
  lemma TopWindowSmall(u: seq<Digit>, a: nat, b: nat, d: nat, n: nat)
    requires 0 < n < |u| && d > 0
    requires Val(u) == Times(d, a) && a < BasePow(|u| - 1) && b >= BasePow(n - 1)
    ensures Val(u[|u| - n..]) < Times(d, b)
  {
    hide Val, BasePow;
    var k := |u| - n;
    ValSplit(u, k);
    BasePowAdd(k, n - 1);
    var p, w := BasePow(k), Val(u[k..]);
    if w >= d * b {
      MulLe(BasePow(n - 1), b, d);
      MulLe(d * BasePow(n - 1), w, p);
      MulAssoc(d, p, BasePow(n - 1));
      MulLe(a + 1, BasePow(|u| - 1), d);
      MulAssoc(d, BasePow(n - 1), p);
      assert false;
    }
  }

  /** Unscaling: the remainder of the scaled division is d times the true one. */
  lemma Unscale(a: int, b: int, d: int, q: int, rest: int, r: int, e: int)
    requires d > 0 && 0 <= e < d
    requires Times(d, a) == Times(Times(d, b), q) + rest
    requires 0 <= rest < Times(d, b) && rest == d * r + e
    ensures e == 0 && a == b * q + r && 0 <= r < b
  {
    MulAssoc(d, b, q);
    var diff := a - b * q - r;
    assert d * diff == e by {
      MulDistribute(a, b * q, d);
      MulDistribute(a - b * q, r, d);
    }
    if diff >= 1 {
      MulLe(1, diff, d);
    } else if diff <= -1 {
      MulLe(diff, -1, d);
    }
    if r < 0 {
      MulLe(r, -1, d);
    }
    if r >= b {
      MulLe(b, r, d);
    }
  }

  /** A quotient of normal operands has at most one leading zero. */
  lemma QuotientLength(a: Mint, b: Mint, q: seq<Digit>, r: nat)
    requires a.len >= b.len > 0 && b.Normal()
    requires |q| == a.len - b.len + 1
    requires a.Magnitude() == b.Magnitude() * Val(q) + r && r < b.Magnitude()
    ensures q[|q| - 1] == 0 ==>
      Val(q[..|q| - 1]) == Val(q) && (a.Normal() ==> NormalDigits(q[..|q| - 1]))
    ensures q[|q| - 1] != 0 ==> NormalDigits(q)
  {
    hide Val, BasePow;
    var k := |q|;
    if q[k - 1] == 0 {
      assert q[..k] == q;
      ValPrefix(q, k - 1);
      ScaledBasics(k - 1);
      if a.Normal() && k > 1 && q[k - 2] == 0 {
        assert q[..k - 1][k - 2] == 0;
        ValTop(q[..k - 1]);
        ValTop(a.Digits());
        ValBound(b.Digits());
        BasePowAdd(b.len, k - 2);
        ShortQuotient(a.Magnitude(), b.Magnitude(), Val(q), r, BasePow(b.len), BasePow(k - 2));
        assert false;
      }
    }
  }

  lemma ShortQuotient(a: nat, b: nat, q: nat, r: nat, p: nat, s: nat)
    requires a == b * q + r && r < b < p && q < s
    ensures a < p * s
  {
    MulLe(q + 1, s, b);
    MulDistribute(q, 1, b);
    MulLe(b, p, s);
  }

  /** Scaling both operands by one digit, into the storage that mult leaves over. */
  method Scale(a: Mint, b: Mint) returns (u: array<Digit>, v: seq<Digit>, d: Digit)
    requires a.len >= b.len >= 2 && b.Normal()
    ensures fresh(u) && u.Length == a.len + 1 && |v| == b.len && d > 0
    ensures Val(u[..]) == Times(d, a.Magnitude()) && Val(v) == Times(d, b.Magnitude())
    ensures v[b.len - 1] > 0 && Val(u[u.Length - |v|..]) < Val(v)
  {
    hide Val, Times, BasePow;
    var n := b.len;
    d := ScaleFactor(b);
    OneDigit(d);
    var us := Multiply(a, Mint(1, [d]));
    var vs := Multiply(b, Mint(1, [d]));
    TimesIs(d, a.Magnitude());
    TimesIs(d, b.Magnitude());
    ScaledDivisor(b, d, vs.val);
    ValBound(a.Digits());
    ValTop(b.Digits());
    TopWindowSmall(us.val, a.Magnitude(), b.Magnitude(), d, n);
    v := vs.val[..n];
    u := new Digit[a.len + 1](i requires 0 <= i < |us.val| => us.val[i]);
    assert u[..] == us.val;
  }

  /** The part of m_div that does long division: at least two digits, dividend not the shorter. */
  method DivideLong(a: Mint, b: Mint) returns (q: Mint, r: Mint)
    requires a.len >= b.len >= 2 && b.Normal()
    ensures a.Value() == b.Value() * q.Value() + r.Value()
    ensures 0 <= r.Value() < b.Value() && r.len >= 0 && q.len >= 0
    ensures r.Normal() && (a.Normal() ==> q.Normal())
    ensures q.len <= a.len - b.len + 1 && r.len <= b.len
  {
    hide Val, Times, BasePow, NormalDigits;
    var n := b.len;
    var u, v, d := Scale(a, b);
    var qval := DivideDown(u, v);
    var x := Strip(Mint(n, u[..]));
    assert Mint(n, u[..]).Digits() == u[..n];
    var w, e := Divide(x, d);
    r := w;
    Unscale(a.Magnitude(), b.Magnitude(), d, Val(qval[..]), x.Value(), w.Value(), e);
    QuotientLength(a, b, qval[..], r.Value());
    var qlen := a.len - n + 1;
    if qlen > 0 && qval[qlen - 1] == 0 {
      qlen := qlen - 1;
    }
    q := Mint(qlen, qval[..]);
    assert qval[..][..a.len - n + 1] == qval[..];
  }

  lemma OneDigit(d: Digit)
    ensures Mint(1, [d]).Value() == d && Mint(1, [d]).Magnitude() == d
    ensures d != 0 ==> Mint(1, [d]).Normal()
  {
    assert Mint(1, [d]).Digits() == [d];
    ValSingle(d);
  }

  /** m_div: divide magnitudes. A one-digit divisor goes to sdiv; a dividend with fewer digits than
      the divisor is its own remainder, copied as it is. */
  method DivideMagnitudes(a: Mint, b: Mint) returns (q: Mint, r: Mint)
    requires a.len >= 0 && b.len > 0 && b.Normal()
    ensures a.Value() == b.Value() * q.Value() + r.Value()
    ensures 0 <= r.Value() < b.Value() && r.len >= 0 && q.len >= 0
    ensures a.Normal() ==> q.Normal()
    ensures a.Normal() || a.len >= b.len ==> r.Normal()
    ensures a.len < b.len ==> r.len == a.len && r.Digits() == a.Digits()
    ensures q.len <= a.len && r.len <= b.len
  {
    hide Val;
    if b.len == 1 {
      var quotient, rest := Divide(a, b.val[0]);
      assert b.Digits() == [b.val[0]];
      OneDigit(b.val[0]);
      ValSingle(b.val[0]);
      MintSign(a);
      q := quotient;
      if a.len == 0 {
        assert a.Digits() == [];
        ValEmpty();
        NothingToDivide(b.Value(), q.Value(), rest);
      }
      if rest == 0 {
        r := ZERO;
        assert r.Digits() == [];
        ValEmpty();
      } else {
        r := Mint(1, [rest]);
        OneDigit(rest);
        assert r.Digits() == [rest];
      }
      return;
    }
    if a.len < b.len {
      q := ZERO;
      r := Mint(a.len, a.val[..a.len]);
      assert q.Digits() == [] && r.Digits() == a.Digits();
      ValEmpty();
      ShorterIsSmaller(a, b);
      return;
    }
    q, r := DivideLong(a, b);
  }

  lemma NothingToDivide(b: int, q: int, r: int)
    requires Divides(0, b, false, q, r)
    ensures r == 0
  {
    MulLe(0, Abs(q), Abs(b));
  }

  /** A number of fewer digits is below one whose top digit is not zero. */
  lemma ShorterIsSmaller(a: Mint, b: Mint)
    requires 0 <= a.len < b.len && b.Normal()
    ensures a.Value() < b.Value()
  {
    NormalLength(a.Digits(), b.Digits());
  }

  /** mdiv: divide with signs. A divisor of length 0 is fatal (`ok` is then false and there is no
      result). The remainder, like the quotient, is negative when the operands' signs differ. */
  method Div(a: Mint, b: Mint) returns (ok: bool, q: Mint, r: Mint)
    requires b.Normal()
    ensures ok <==> b.len != 0
    ensures ok ==> Divides(a.Value(), b.Value(), (a.len < 0) != (b.len < 0), q.Value(), r.Value())
    ensures ok && a.Normal() ==> q.Normal()
    ensures ok && (a.Normal() || Abs(a.len) >= Abs(b.len)) ==> r.Normal()
    ensures ok ==> Abs(q.len) <= Abs(a.len) && Abs(r.len) <= Abs(b.len)
    ensures ok && a.len >= 0 && b.len >= 0 ==> q.len >= 0 && r.len >= 0
    ensures ok && 0 <= a.len < b.len ==> r.len == a.len && r.Digits() == a.Digits()
  {
    hide Val, Storage.Value, Storage.Normal, Divides;
    var sign, x, y := 1, a, b;
    Negated(a);
    Negated(b);
    MintSign(a);
    MintSign(b);
    if a.len < 0 {
      sign := -1;
      x := Mint(-a.len, a.val);
    }
    if b.len < 0 {
      sign := -sign;
      y := Mint(-b.len, b.val);
    }
    q, r := ZERO, ZERO;
    if y.len == 0 {
      return false, q, r;
    }
    MintSign(x);
    MintSign(y);
    q, r := DivideMagnitudes(x, y);
    MintSign(q);
    SignedDivision(a.Value(), b.Value(), q.Value(), r.Value());
    if sign == -1 {
      Negated(q);
      Negated(r);
      q, r := Mint(-q.len, q.val), Mint(-r.len, r.val);
    }
    ok := true;
  }

  /** So `a = q * b + r` as a statement about signed numbers holds exactly for a positive divisor or
      an exact division. */
  lemma SignedIdentityExact(a: int, b: int, q: int, r: int)
    requires b != 0 && Divides(a, b, (a < 0) != (b < 0), q, r)
    ensures a == q * b + r <==> b > 0 || r == 0
  {
    var m := Abs(q) * Abs(b);
    assert q * b == if a < 0 then -m else m by {
      SignsOfProduct(Abs(q), Abs(b));
    }
  }
}
