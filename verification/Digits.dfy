/** Little-endian sequences of 15-bit digits and the natural numbers they stand for. */
module Digits {
  import opened Machine

  function Pow(b: int, n: nat): int {
    if n == 0 then 1 else b * Pow(b, n - 1)
  }

  /** BASE to the power n */
  function BasePow(n: nat): (p: nat)
    ensures p >= 1
  {
    if n == 0 then 1 else 32768 * BasePow(n - 1)
  }

  /** k digits' worth at position i. A name for the product, so that long proofs can treat it as
      a symbol and use only the laws below. */
  function Scaled(k: int, i: nat): int {
    k * BasePow(i)
  }

  lemma ScaledAdd(j: int, k: int, i: nat)
    ensures Scaled(j + k, i) == Scaled(j, i) + Scaled(k, i)
    ensures Scaled(j - k, i) == Scaled(j, i) - Scaled(k, i)
  {}

  lemma ScaledUp(k: int, i: nat)
    ensures Scaled(k, i + 1) == Scaled(32768 * k, i)
  {
    assert BasePow(i + 1) == 32768 * BasePow(i);
    MulAssoc(k, 32768, BasePow(i));
  }

  lemma ScaledBasics(i: nat)
    ensures Scaled(0, i) == 0 && Scaled(1, i) == BasePow(i) && Scaled(-1, i) == 0 - BasePow(i)
  {}

  lemma ScaledMonotone(j: int, k: int, i: nat)
    requires j <= k
    ensures Scaled(j, i) <= Scaled(k, i)
  {
    MulLe(j, k, BasePow(i));
  }

  function Val(s: seq<Digit>): nat {
    if s == [] then 0 else s[0] + 32768 * Val(s[1..])
  }

  /** No leading zero digit; zero is the empty sequence. */
  predicate NormalDigits(s: seq<Digit>) {
    s != [] ==> s[|s| - 1] != 0
  }

  lemma {:induction false} BasePowAdd(m: nat, n: nat)
    ensures BasePow(m + n) == BasePow(m) * BasePow(n)
  {
    if m == 0 {
    } else {
      BasePowAdd(m - 1, n);
      assert BasePow(m + n) == 32768 * BasePow(m - 1 + n);
      MulAssoc(32768, BasePow(m - 1), BasePow(n));
    }
  }

  /** Names for a product and a division, so that long proofs can treat them as symbols. */
  function Times(x: int, y: int): int {
    x * y
  }

  function Quot(x: int, n: int): int
    requires n > 0
  {
    x / n
  }

  function Rem(x: int, n: int): int
    requires n > 0
  {
    x % n
  }

  lemma QuotRem(x: int, n: int)
    requires n > 0
    ensures x == Times(n, Quot(x, n)) + Rem(x, n) && 0 <= Rem(x, n) < n
  {}

  lemma MulAssoc(x: int, y: int, z: int)
    ensures x * y * z == x * (y * z)
  {}

  lemma MulDistribute(x: int, y: int, z: int)
    ensures (x + y) * z == x * z + y * z
    ensures (x - y) * z == x * z - y * z
  {}

  lemma MulLe(x: int, y: int, z: int)
    requires x <= y && 0 <= z
    ensures x * z <= y * z
  {}

  lemma ScaledSnoc(k: int, i: nat)
    ensures Scaled(k, i + 1) == 32768 * Scaled(k, i)
  {
    MulAssoc(k, 32768, BasePow(i));
    MulAssoc(32768, k, BasePow(i));
  }

  lemma {:induction false} ValSnoc(s: seq<Digit>, d: Digit)
    ensures Val(s + [d]) == Val(s) + Scaled(d, |s|)
  {
    if s == [] {
      assert s + [d] == [d];
    } else {
      assert (s + [d])[1..] == s[1..] + [d];
      ValSnoc(s[1..], d);
      ScaledSnoc(d, |s| - 1);
    }
  }

  lemma ValEmpty()
    ensures Val([]) == 0 && BasePow(0) == 1
  {}

  lemma ValSingle(d: Digit)
    ensures Val([d]) == d
  {
    assert [d][1..] == [];
  }

  lemma ValCons(q: Digit, s: seq<Digit>)
    ensures Val([q] + s) == q + 32768 * Val(s)
  {
    assert ([q] + s)[1..] == s;
  }

  /** One more digit of a prefix, the form the low-to-high loops use. */
  lemma ValPrefix(s: seq<Digit>, i: nat)
    requires i < |s|
    ensures Val(s[..i + 1]) == Val(s[..i]) + Scaled(s[i], i)
  {
    assert s[..i + 1] == s[..i] + [s[i]];
    ValSnoc(s[..i], s[i]);
  }

  /** One more digit of a suffix, the form the high-to-low loops use. */
  lemma ValSuffix(s: seq<Digit>, i: nat)
    requires i < |s|
    ensures Val(s[i..]) == s[i] + 32768 * Val(s[i + 1..])
  {
    assert s[i..][1..] == s[i + 1..];
  }

  lemma {:induction false} ValBound(s: seq<Digit>)
    ensures Val(s) < BasePow(|s|)
  {
    if s != [] {
      ValBound(s[1..]);
    }
  }

  lemma {:induction false} ValConcat(s: seq<Digit>, t: seq<Digit>)
    ensures Val(s + t) == Val(s) + BasePow(|s|) * Val(t)
  {
    if s == [] {
      assert s + t == t;
    } else {
      assert (s + t)[1..] == s[1..] + t;
      ValConcat(s[1..], t);
      MulAssoc(32768, BasePow(|s| - 1), Val(t));
    }
  }

  lemma ValSplit(s: seq<Digit>, i: nat)
    requires i <= |s|
    ensures Val(s) == Val(s[..i]) + BasePow(i) * Val(s[i..])
  {
    assert s == s[..i] + s[i..];
    ValConcat(s[..i], s[i..]);
  }

  lemma {:induction false} ValZeros(s: seq<Digit>)
    requires forall k :: 0 <= k < |s| ==> s[k] == 0
    ensures Val(s) == 0
  {
    if s != [] {
      ValZeros(s[1..]);
    }
  }

  lemma ValTop(s: seq<Digit>)
    requires s != []
    ensures s[|s| - 1] != 0 <==> Val(s) >= BasePow(|s| - 1)
  {
    var n := |s| - 1;
    assert s[..n + 1] == s;
    ValPrefix(s, n);
    ValBound(s[..n]);
    if s[n] != 0 {
      MulLe(1, s[n], BasePow(n));
    }
  }

  lemma {:induction false} ValUnique(s: seq<Digit>, t: seq<Digit>)
    requires |s| == |t| && Val(s) == Val(t)
    ensures s == t
  {
    if s != [] {
      assert s[0] == t[0];
      ValUnique(s[1..], t[1..]);
      assert s == [s[0]] + s[1..];
      assert t == [t[0]] + t[1..];
    }
  }

  lemma {:induction false} BasePowMonotone(m: nat, n: nat)
    requires m <= n
    ensures BasePow(m) <= BasePow(n)
  {
    if m < n {
      BasePowMonotone(m, n - 1);
    }
  }

  /** Of two normal forms the longer one is the greater number. */
  lemma NormalLength(s: seq<Digit>, t: seq<Digit>)
    requires NormalDigits(t)
    requires |s| < |t|
    ensures Val(s) < Val(t)
  {
    ValBound(s);
    BasePowMonotone(|s|, |t| - 1);
    ValTop(t);
  }
}
