/** The MINT structure of mp.h and the housekeeping of util.c.

    Routines fill freshly allocated digit arrays in place; a finished number is the pair of its
    `len` and a snapshot of its storage, so a result never changes an operand it was made from. */
module Mints {
  import opened Machine
  import opened Digits

  function Abs(n: int): nat {
    if n < 0 then -n else n
  }

  /** A signed-magnitude number: `len` counts the digits in use and carries the sign; `val` is the
      storage, which may be longer than that. */
  datatype Storage = Mint(len: int, val: seq<Digit>) {
    predicate Valid() {
      Abs(len) <= |val|
    }

    function Digits(): (s: seq<Digit>)
      requires Valid()
    {
      val[..Abs(len)]
    }

    function Magnitude(): nat
      requires Valid()
    {
      Val(Digits())
    }

    function Value(): int
      requires Valid()
    {
      if len < 0 then 0 - Magnitude() else Magnitude()
    }

    /** Normal form: the top digit is not zero, or there are no digits. */
    predicate Normal()
      requires Valid()
    {
      NormalDigits(Digits())
    }
  }

  type Mint = m: Storage | m.Valid() witness Mint(0, [])

  const ZERO: Mint := Mint(0, [])

  /** Reversing the sign of `len` reverses the sign of the value. */
  lemma Negated(a: Mint)
    ensures Mint(-a.len, a.val).Value() == -a.Value()
    ensures Mint(-a.len, a.val).Normal() <==> a.Normal()
    ensures Abs(-a.len) == Abs(a.len)
  {
    if a.len == 0 {
      assert a.Digits() == [];
    }
  }

  /** In normal form `len` tells the sign of the value. */
  lemma NormalSign(a: Mint)
    requires a.Normal()
    ensures a.len == 0 <==> a.Value() == 0
    ensures a.len < 0 <==> a.Value() < 0
  {
    if a.len != 0 {
      ValTop(a.Digits());
    }
  }

  /** mcan: strip every leading zero digit. */
  method Strip(a: Mint) returns (c: Mint)
    ensures c.Normal() && c.Value() == a.Value()
    ensures c.val == a.val || c.len == 0
    ensures Abs(c.len) <= Abs(a.len) && (a.len >= 0 ==> c.len >= 0)
  {
    hide Val;
    c := a;
    var i := if a.len < 0 then -a.len else a.len;
    if i == 0 {
      return;
    }
    ghost var A := a.Digits();
    var j := i;
    assert A[..i] == A;
    ValEmpty();
    while j > 0 && a.val[j - 1] == 0
      invariant 0 <= j <= i
      invariant Val(A[..j]) == Val(A)
    {
      ValPrefix(A, j - 1);
      j := j - 1;
    }
    if j == i {
      return;
    }
    if j == 0 {
      c := ZERO;
      assert A[..0] == [] == c.Digits();
      return;
    }
    if a.len > 0 {
      c := Mint(j, a.val);
    } else {
      c := Mint(-j, a.val);
    }
    assert c.Digits() == A[..j];
  }

  /** itom: a one-digit constant. */
  method FromInt(n: Int16) returns (a: Mint)
    requires n > -32768
    ensures a.Normal() && a.Value() == n && Abs(a.len) == (if n == 0 then 0 else 1)
    ensures n > 0 ==> a.len == 1 && a.val == [n]
  {
    if n > 0 {
      a := Mint(1, [n]);
      assert a.Digits() == [n];
      ValSingle(n);
    } else if n < 0 {
      a := Mint(-1, [-n]);
      assert a.Digits() == [-n];
      ValSingle(-n);
    } else {
      a := ZERO;
    }
  }

  /** One digit over len - 1 zeros, as msqrt and rpow build a power of the radix. */
  method LeadingDigit(len: nat, top: Digit) returns (x: Mint)
    requires len > 0 && top > 0
    ensures x.Normal() && x.len == len && x.Value() == Scaled(top, len - 1)
  {
    hide Val, Scaled;
    var val := new Digit[len];
    for j := 0 to len
      invariant forall k :: 0 <= k < j ==> val[k] == 0
    {
      val[j] := 0;
    }
    val[len - 1] := top;
    x := Mint(len, val[..]);
    ghost var X := x.Digits();
    assert X[..len] == X && X[len - 1] == top;
    ValPrefix(X, len - 1);
    ValZeros(X[..len - 1]);
  }
}
