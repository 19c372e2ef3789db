/** s_div and sdiv of mout.c: division by one digit. */
module ShortDivision {
  import opened Machine
  import opened Digits
  import opened Mints

  /** What a division with operands of these signs returns: exact on magnitudes, with quotient and
      remainder both negative when the operands' signs differ. */
  ghost predicate Divides(a: int, b: int, opposite: bool, q: int, r: int) {
    && Abs(a) == Abs(q) * Abs(b) + Abs(r)
    && Abs(r) < Abs(b)
    && (if opposite then q <= 0 && r <= 0 else q >= 0 && r >= 0)
  }

  /** One round of the loop: `done` is the quotient of the digits above i and x their remainder. */
  lemma DivideStep(a: seq<Digit>, i: nat, n: Digit, done: seq<Digit>, x: int)
    requires i < |a| && n > 0 && 0 <= x < n
    requires Val(a[i + 1..]) == Times(n, Val(done)) + x
    ensures var y := x * 32768 + a[i];
      && 0 <= Quot(y, n) < 32768 && 0 <= Rem(y, n) < n
      && Val(a[i..]) == Times(n, Val([Quot(y, n)] + done)) + Rem(y, n)
  {
    hide Times, Quot, Rem;
    var y := x * 32768 + a[i];
    QuotRem(y, n);
    QuotientDigit(x, a[i], n);
    var e: Digit := Quot(y, n);
    ValSuffix(a, i);
    assert ([e] + done)[1..] == done;
    TimesDigit(n, e, Val(done));
  }

  lemma TimesDigit(n: int, e: int, v: int)
    ensures Times(n, e + 32768 * v) == Times(n, e) + 32768 * Times(n, v)
  {
    MulDistribute(e, 32768 * v, n);
    MulAssoc(32768, v, n);
  }

  lemma QuotientDigit(x: int, d: int, n: int)
    requires 0 <= x < n && 0 <= d < 32768
    ensures 0 <= Quot(x * 32768 + d, n) < 32768
  {
    var y := x * 32768 + d;
    var e := Quot(y, n);
    QuotRem(y, n);
    if e >= 32768 {
      MulLe(32768, e, n);
    }
    if e < 0 {
      MulLe(e, -1, n);
    }
  }

  /** The loop of s_div, from the top digit down. */
  method DivideDigits(a: seq<Digit>, n: Digit) returns (qval: array<Digit>, r: Digit)
    requires n > 0
    ensures fresh(qval) && qval.Length == |a|
    ensures Val(a) == Times(n, Val(qval[..])) + r && r < n
  {
    hide Val, Times, Quot, Rem;
    var x: Long := 0;
    qval := new Digit[|a|];
    ghost var done: seq<Digit> := [];
    NothingDivided(a, n);
    for i := |a| downto 0
      invariant 0 <= x < n
      invariant done == qval[i..]
      invariant Val(a[i..]) == Times(n, Val(done)) + x
    {
      DivideStep(a, i, n, done, x);
      x := x * 32768 + a[i];
      qval[i] := Quot(x, n);
      x := Rem(x, n);
      done := [qval[i]] + done;
    }
    assert a[0..] == a;
    r := x;
  }

  lemma NothingDivided(a: seq<Digit>, n: int)
    ensures Val(a[|a|..]) == Times(n, Val([])) + 0
  {
    assert a[|a|..] == [];
  }

  lemma TimesIs(x: int, y: int)
    ensures Times(x, y) == x * y
  {}

  /** s_div: divide a magnitude by n. Only one leading zero is taken off the quotient, which is all
      a normal dividend can leave. A dividend of length 0 has quotient 0 and remainder 0. */
  method DivideMagnitude(a: Mint, n: Digit) returns (q: Mint, r: Digit)
    requires a.len >= 0 && n > 0
    ensures a.Value() == n * q.Value() + r && r < n
    ensures a.Normal() ==> q.Normal()
    ensures a.len - 1 <= q.len <= a.len && q.len >= 0
  {
    hide Val, Times;
    var qval, rest := DivideDigits(a.val[..a.len], n);
    r := rest;
    var qlen := a.len;
    TimesIs(n, Val(qval[..]));
    OneLeadingZero(a.Digits(), qval[..], n, r);
    if qlen > 0 && qval[qlen - 1] == 0 {
      qlen := qlen - 1;
    }
    q := Mint(qlen, qval[..]);
    assert qval[..][..a.len] == qval[..];
  }

  /** The quotient of a normal number by one digit has at most one leading zero, and taking it off
      does not change the value. */
  lemma OneLeadingZero(a: seq<Digit>, q: seq<Digit>, n: Digit, r: Digit)
    requires |a| == |q| && r < n && Val(a) == n * Val(q) + r
    ensures q != [] && q[|q| - 1] == 0 ==>
      && Val(q[..|q| - 1]) == Val(q)
      && (NormalDigits(a) ==> NormalDigits(q[..|q| - 1]))
    ensures q == [] || q[|q| - 1] != 0 ==> NormalDigits(q)
  {
    hide Val, BasePow;
    var k := |q|;
    if q != [] && q[k - 1] == 0 {
      assert q[..k] == q;
      ValPrefix(q, k - 1);
      ScaledBasics(k - 1);
      if NormalDigits(a) && k > 1 && q[k - 2] == 0 {
        assert q[..k - 1][k - 2] == 0;
        ValTop(q[..k - 1]);
        ValTop(a);
        TooSmall(Val(a), Val(q), n, r, BasePow(k - 2), k);
        assert false;
      }
    }
  }

  lemma TooSmall(a: int, q: int, n: int, r: int, p: int, k: nat)
    requires k > 1 && p == BasePow(k - 2) && 0 <= r < n <= 32767 && a == n * q + r && q < p
    ensures a < BasePow(k - 1)
  {
    MulLe(q, p - 1, n);
    MulLe(n, 32768, p);
    MulDistribute(p, 1, n);
  }

  /** sdiv: divide by a signed 16-bit divisor. */
  method Divide(a: Mint, n: Int16) returns (q: Mint, r: Int16)
    requires n != 0 && n != -32768
    ensures Divides(a.Value(), n, (a.len < 0) != (n < 0), q.Value(), r)
    ensures a.Normal() ==> q.Normal()
    ensures Abs(a.len) - 1 <= Abs(q.len) <= Abs(a.len)
    ensures (a.len >= 0) == (n >= 0) ==> q.len >= 0
  {
    hide Val, Storage.Value, Storage.Normal, Divides;
    var sign: int, m: int, x := 1, n, a;
    Negated(a);
    MintSign(a);
    if m < 0 {
      sign := -sign;
      m := -m;
    }
    if x.len < 0 {
      sign := -sign;
      x := Mint(-x.len, x.val);
    }
    MintSign(x);
    var y, z := DivideMagnitude(x, m);
    MintSign(y);
    SignedDivision(a.Value(), n, y.Value(), z);
    q, r := y, z;
    if sign < 0 {
      Negated(y);
      q := Mint(-y.len, y.val);
      r := 0 - r;
    }
  }

  /** Dividing the magnitudes and then setting the signs. */
  lemma SignedDivision(a: int, b: int, q: nat, r: nat)
    requires Abs(a) == Abs(b) * q + r && r < Abs(b)
    ensures Divides(a, b, false, q, r) && Divides(a, b, true, 0 - q, 0 - r)
  {}

  lemma MintSign(a: Mint)
    ensures a.len >= 0 ==> a.Value() >= 0
    ensures a.len <= 0 ==> a.Value() <= 0
  {
    if a.len == 0 {
      assert a.Digits() == [];
    }
  }
}
