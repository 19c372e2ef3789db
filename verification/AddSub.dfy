/** madd.c: addition, and subtraction by complement. */
module AddSub {
  import opened Machine
  import opened Digits
  import opened Mints

  /** One round of a low-to-high loop: `before` is what has been stored, `carry` what is owed to
      the next digit, `total` what the operands contribute at this one. */
  lemma CarryStep(before: seq<Digit>, digit: Digit, carry: int, carry': int, total: int)
    requires digit + 32768 * carry' == carry + total
    ensures Val(before + [digit]) + Scaled(carry', |before| + 1)
         == Val(before) + Scaled(carry, |before|) + Scaled(total, |before|)
  {
    hide Val, Scaled;
    var i := |before|;
    ValSnoc(before, digit);
    ScaledUp(carry', i);
    ScaledAdd(digit, 32768 * carry', i);
    ScaledAdd(carry, total, i);
  }

  /** What two operands contribute at digit i to their sum, and to their difference. */
  lemma PrefixSum(s: seq<Digit>, t: seq<Digit>, i: nat)
    requires i < |s| && i < |t|
    ensures var d: int := s[i];
      && Val(s[..i + 1]) + Val(t[..i + 1]) == Val(s[..i]) + Val(t[..i]) + Scaled(d + t[i], i)
      && Val(s[..i + 1]) - Val(t[..i + 1]) == Val(s[..i]) - Val(t[..i]) + Scaled(d - t[i], i)
  {
    hide Val, Scaled;
    ValPrefix(s, i);
    ValPrefix(t, i);
    ScaledAdd(s[i], t[i], i);
  }

  /** The two loops of m_add: one digit of each operand, then the rest of the longer one. */
  method AddDigits(a: Mint, b: Mint) returns (cval: array<Digit>, carry: int)
    requires 0 <= b.len <= a.len
    ensures fresh(cval) && cval.Length == a.len + 1 && (carry == 0 || carry == 1)
    ensures Val(cval[..a.len]) + Scaled(carry, a.len) == a.Magnitude() + b.Magnitude()
  {
    hide Val, Scaled, Wrap16, Low15, SignBit;
    ghost var A, B := a.Digits(), b.Digits();
    cval := new Digit[a.len + 1];
    carry := 0;
    var i: nat := 0;
    ValEmpty();
    ScaledBasics(0);
    assert cval[..0] == A[..0] == B[..0] == [];
    while i < b.len
      invariant 0 <= i <= b.len
      invariant carry == 0 || carry == 1
      invariant Val(cval[..i]) + Scaled(carry, i) == Val(A[..i]) + Val(B[..i])
    {
      ghost var carry0, before, A0: int := carry, cval[..i], A[i];
      SignBitIsCarry(carry + a.val[i] + b.val[i]);
      var x := Wrap16(carry + a.val[i] + b.val[i]);
      if SignBit(x) {
        carry := 1;
        cval[i] := Low15(x);
      } else {
        carry := 0;
        cval[i] := x;
      }
      CarryStep(before, cval[i], carry0, carry, A0 + B[i]);
      PrefixSum(A, B, i);
      assert cval[..i + 1] == before + [cval[i]];
      i := i + 1;
    }
    assert B[..b.len] == B;
    while i < a.len
      invariant b.len <= i <= a.len
      invariant carry == 0 || carry == 1
      invariant Val(cval[..i]) + Scaled(carry, i) == Val(A[..i]) + Val(B)
    {
      ghost var carry0, before := carry, cval[..i];
      SignBitIsCarry(carry + a.val[i]);
      var x := Wrap16(carry + a.val[i]);
      if SignBit(x) {
        cval[i] := Low15(x);
      } else {
        carry := 0;
        cval[i] := x;
      }
      CarryStep(before, cval[i], carry0, carry, A[i]);
      ValPrefix(A, i);
      assert cval[..i + 1] == before + [cval[i]];
      i := i + 1;
    }
    assert A[..a.len] == A;
  }

  /** m_add: add magnitudes, the longer operand first. */
  method AddMagnitudes(a: Mint, b: Mint) returns (c: Mint)
    requires 0 <= b.len <= a.len
    ensures c.Value() == a.Value() + b.Value()
    ensures a.len <= c.len <= a.len + 1
    ensures a.Normal() || c.len > a.len ==> c.Normal()
  {
    var cval, carry := AddDigits(a, b);
    ghost var sum := cval[..a.len];
    if carry == 1 {
      cval[a.len] := 1;
      c := Mint(a.len + 1, cval[..]);
      assert c.Digits() == sum + [1];
      ValSnoc(sum, 1);
    } else {
      c := Mint(a.len, cval[..]);
      assert c.Digits() == sum;
      if a.len > 0 {
        ValTop(a.Digits());
        ValTop(sum);
      }
    }
  }

  /** x ^ 077777 on a digit */
  function Complement(d: Digit): Digit {
    32767 - d
  }

  lemma {:induction false} ValComplement(s: seq<Digit>, t: seq<Digit>)
    requires |s| == |t| && forall k :: 0 <= k < |s| ==> t[k] == Complement(s[k])
    ensures Val(s) + Val(t) == BasePow(|s|) - 1
  {
    if s != [] {
      assert t[0] == Complement(s[0]);
      ValComplement(s[1..], t[1..]);
    }
  }

  /** Nested calls always fall to a smaller rank: the sign cases first, then the length cases. */
  function AddRank(a: int, b: int): nat {
    if a >= 0 && b >= 0 then 0 else 4
  }

  function SubRank(a: int, b: int): nat {
    if a < 0 || b < 0 then 4 else if a < b then 3 else 2
  }

  function Longer(a: Mint, b: Mint): nat {
    if Abs(a.len) < Abs(b.len) then Abs(b.len) else Abs(a.len)
  }

  /** madd: c = a + b for every combination of signs. */
  method Add(a: Mint, b: Mint) returns (c: Mint)
    ensures c.Value() == a.Value() + b.Value()
    ensures a.Normal() && b.Normal() ==> c.Normal()
    ensures Abs(c.len) <= Longer(a, b) + 1
    ensures 0 <= b.len <= a.len ==> a.len <= c.len && (a.Normal() || c.len > a.len ==> c.Normal())
    ensures a.len >= 0 && b.len >= 0 ==> c.len >= Longer(a, b)
    decreases AddRank(a.len, b.len)
  {
    hide Val, Storage.Normal, Storage.Value;
    var x, y := a, b;
    Negated(a);
    Negated(b);
    var sign := 1;
    if x.len >= 0 {
      if y.len >= 0 {
        if x.len >= y.len {
          c := AddMagnitudes(x, y);
        } else {
          c := AddMagnitudes(y, x);
        }
      } else {
        y := Mint(-y.len, y.val);
        c := Subtract(x, y);
      }
    } else {
      if y.len <= 0 {
        x, y := Mint(-x.len, x.val), Mint(-y.len, y.val);
        sign := -1;
        c := Add(x, y);
      } else {
        x := Mint(-x.len, x.val);
        c := Subtract(y, x);
      }
    }
    if sign < 0 {
      Negated(c);
      c := Mint(-c.len, c.val);
    }
  }

  /** The two subtracting loops of m_sub. */
  method SubtractDigits(a: Mint, b: Mint) returns (cval: array<Digit>, borrow: int)
    requires 0 <= b.len <= a.len
    ensures fresh(cval) && cval.Length == a.len && (borrow == 0 || borrow == -1)
    ensures Val(cval[..]) + Scaled(borrow, a.len) == a.Magnitude() - b.Magnitude()
  {
    hide Val, Scaled, Wrap16, Low15, SignBit;
    ghost var A, B := a.Digits(), b.Digits();
    cval := new Digit[a.len];
    borrow := 0;
    var i: nat := 0;
    ValEmpty();
    ScaledBasics(0);
    assert cval[..0] == A[..0] == B[..0] == [];
    while i < b.len
      invariant 0 <= i <= b.len
      invariant borrow == 0 || borrow == -1
      invariant Val(cval[..i]) + Scaled(borrow, i) == Val(A[..i]) - Val(B[..i])
    {
      ghost var borrow0, before, A0: int := borrow, cval[..i], A[i];
      SignBitIsCarry(borrow + a.val[i] - b.val[i]);
      var x := Wrap16(borrow + a.val[i] - b.val[i]);
      if SignBit(x) {
        borrow := -1;
        cval[i] := Low15(x);
      } else {
        borrow := 0;
        cval[i] := x;
      }
      CarryStep(before, cval[i], borrow0, borrow, A0 - B[i]);
      PrefixSum(A, B, i);
      assert cval[..i + 1] == before + [cval[i]];
      i := i + 1;
    }
    assert B[..b.len] == B;
    while i < a.len
      invariant b.len <= i <= a.len
      invariant borrow == 0 || borrow == -1
      invariant Val(cval[..i]) + Scaled(borrow, i) == Val(A[..i]) - Val(B)
    {
      ghost var borrow0, before := borrow, cval[..i];
      SignBitIsCarry(borrow + a.val[i]);
      var x := Wrap16(borrow + a.val[i]);
      if SignBit(x) {
        cval[i] := Low15(x);
      } else {
        borrow := 0;
        cval[i] := x;
      }
      CarryStep(before, cval[i], borrow0, borrow, A[i]);
      ValPrefix(A, i);
      assert cval[..i + 1] == before + [cval[i]];
      i := i + 1;
    }
    assert A[..a.len] == A && cval[..a.len] == cval[..];
  }

  /** m_sub: subtract magnitudes, the longer operand first. A borrow left over at the top means
      a < b; the digits then hold the complement of the answer, so they are complemented back
      and one is added. */
  method SubtractMagnitudes(a: Mint, b: Mint) returns (c: Mint)
    requires 0 <= b.len <= a.len
    ensures c.Normal() && c.Value() == a.Value() - b.Value()
    ensures Abs(c.len) <= a.len
    decreases 1
  {
    hide Val, Scaled, BasePow;
    var cval, borrow := SubtractDigits(a, b);
    ScaledBasics(a.len);
    var digits := cval[..];
    ValBound(digits);
    if borrow < 0 {
      ValBound(b.Digits());
      BasePowMonotone(b.len, a.len);
      digits := Uncomplement(cval);
    }
    assert digits[..a.len] == cval[..] || borrow < 0;
    c := StripDifference(digits, a.len, borrow);
  }

  /** The borrow path of m_sub: complement every digit in place and add one. */
  method Uncomplement(cval: array<Digit>) returns (digits: seq<Digit>)
    requires Val(cval[..]) > 0
    modifies cval
    ensures |digits| >= cval.Length
    ensures Val(digits[..cval.Length]) == BasePow(cval.Length) - old(Val(cval[..]))
    decreases 1, 0
  {
    hide Val, BasePow;
    ghost var was := cval[..];
    var m := cval.Length;
    for i := 0 to m
      invariant forall k :: 0 <= k < i ==> cval[k] == Complement(was[k])
      invariant forall k :: i <= k < m ==> cval[k] == was[k]
    {
      cval[i] := Complement(cval[i]);
    }
    ValComplement(was, cval[..]);
    assert Mint(1, [1]).Digits() == [1];
    ValSingle(1);
    var c := Add(Mint(m, cval[..]), Mint(1, [1]));
    assert Mint(m, cval[..]).Digits() == cval[..];
    if c.len > m {
      BasePowMonotone(m, c.len - 1);
      ValTop(c.Digits());
    }
    digits := c.val;
    assert c.Digits() == digits[..m];
  }

  /** The end of m_sub: the top non-zero digit fixes the length, the borrow the sign; with no
      non-zero digit the length stays 0. */
  method StripDifference(digits: seq<Digit>, m: nat, borrow: int) returns (c: Mint)
    requires m <= |digits| && (borrow == 0 || borrow == -1)
    ensures c.Normal() && Abs(c.len) <= m
    ensures c.Value() == if borrow == 0 then Val(digits[..m]) else 0 - Val(digits[..m])
  {
    hide Val;
    ghost var D := digits[..m];
    var i := m - 1;
    assert D[..m] == D;
    while i >= 0
      invariant -1 <= i < m
      invariant Val(D[..i + 1]) == Val(D)
    {
      if digits[i] > 0 {
        if borrow == 0 {
          c := Mint(i + 1, digits);
        } else {
          c := Mint(-i - 1, digits);
        }
        assert c.Digits() == D[..i + 1];
        return;
      }
      ValPrefix(D, i);
      i := i - 1;
    }
    ValEmpty();
    c := Mint(0, digits);
    assert c.Digits() == D[..0] == [];
  }

  /** msub: c = a - b, except that two negative operands (or a negative one and a zero of length 0)
      come out as b - a. */
  method Subtract(a: Mint, b: Mint) returns (c: Mint)
    ensures c.Value() == if SignSlip(a, b) then b.Value() - a.Value() else a.Value() - b.Value()
    ensures (a.Normal() && b.Normal()) || (a.len >= 0 && b.len >= 0) || (a.len < 0 && b.len < 0) ==> c.Normal()
    ensures Abs(c.len) <= Longer(a, b) + 1
    decreases SubRank(a.len, b.len)
  {
    hide Val, Storage.Normal, Storage.Value;
    var x, y := a, b;
    Negated(a);
    Negated(b);
    var sign := 1;
    if x.len >= 0 {
      if y.len >= 0 {
        if x.len >= y.len {
          c := SubtractMagnitudes(x, y);
        } else {
          sign := -1;
          c := Subtract(y, x);
        }
      } else {
        y := Mint(-y.len, y.val);
        c := Add(x, y);
      }
    } else {
      if y.len <= 0 {
        sign := -1;
        x, y := Mint(-x.len, x.val), Mint(-y.len, y.val);
        c := Subtract(y, x);
      } else {
        x := Mint(-x.len, x.val);
        c := Add(x, y);
        sign := -1;
      }
    }
    if sign < 0 {
      Negated(c);
      c := Mint(-c.len, c.val);
    }
  }

  /** The operands for which msub takes its one branch with a sign too many. */
  predicate SignSlip(a: Mint, b: Mint) {
    a.len < 0 && b.len <= 0
  }

  /** So msub is a - b exactly off that branch, or where the two answers coincide. */
  lemma SubtractExact(a: Mint, b: Mint, c: int)
    requires c == if SignSlip(a, b) then b.Value() - a.Value() else a.Value() - b.Value()
    ensures c == a.Value() - b.Value() <==> !SignSlip(a, b) || a.Value() == b.Value()
  {}

  /** -2 - -1 comes out as 1. */
  lemma SubtractSlips()
    ensures var a, b: Mint := Mint(-1, [2]), Mint(-1, [1]);
      a.Normal() && b.Normal() && SignSlip(a, b) && b.Value() - a.Value() == 1 && a.Value() - b.Value() == -1
  {
    var a, b: Mint := Mint(-1, [2]), Mint(-1, [1]);
    assert a.Digits() == [2] && b.Digits() == [1];
    ValSingle(1);
    ValSingle(2);
  }

  /** mcmp: compare lengths, then subtract. For normal forms, and for equal lengths in any form, the sign of
      the answer is that of a - b, unless both are negative with the same number of digits, when msub's slip
      reverses it. Unequal lengths decide alone, leading zeros or not. */
  method Compare(a: Mint, b: Mint) returns (res: int)
    ensures (a.Normal() && b.Normal()) || a.len == b.len ==>
      var slip := a.len == b.len < 0;
      && (res > 0 <==> if slip then a.Value() < b.Value() else a.Value() > b.Value())
      && (res < 0 <==> if slip then a.Value() > b.Value() else a.Value() < b.Value())
    ensures a.len != b.len ==> (res > 0 <==> a.len > b.len) && res != 0
  {
    hide Val, Storage.Value, Storage.Normal;
    if a.len != b.len {
      if a.Normal() && b.Normal() {
        LengthOrder(a, b);
        LengthOrder(b, a);
      }
      return a.len - b.len;
    }
    var c := Subtract(a, b);
    NormalSign(c);
    return c.len;
  }

  /** Signed lengths order normal forms. */
  lemma LengthOrder(a: Mint, b: Mint)
    requires a.Normal() && b.Normal()
    ensures a.len < b.len ==> a.Value() < b.Value()
  {
    if a.len < b.len {
      NormalSign(a);
      NormalSign(b);
      if a.len >= 0 {
        NormalLength(a.Digits(), b.Digits());
      } else if b.len <= 0 {
        NormalLength(b.Digits(), a.Digits());
      }
    }
  }
}
