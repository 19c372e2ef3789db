/** What mdiv does with a divisor of several digits whose top digit is zero, and where that takes mkx and
    invert. */
module LeadingZero {
  import opened Machine
  import opened Digits
  import opened Shorts
  import NumberTheory

  /** Digits that are digits. */
  predicate Proper(a: Number) {
    forall k :: 0 <= k < |a.Used()| ==> a.Used()[k] >= 0
  }

  // ----- Every divisor with a leading zero -----

  /** One turn of s_div's loop. */
  lemma DivideNext(a: seq<Int16>, i: nat, n: Int16, x: Long, q: Int16, left: Long)
    requires 0 < i <= |a| && n != 0 && -0x8000_0000 <= x * 32768 + a[i - 1] < 0x8000_0000
    requires q as int == Over(x as int * BASE + a[i - 1] as int, n) && left as int == Left(x as int * BASE + a[i - 1] as int, n)
    ensures DivideFrom(a, i, n, x) == (DivideFrom(a, i - 1, n, left).0 + [q], DivideFrom(a, i - 1, n, left).1)
  {
    hide Over, Left;
  }

  lemma DivideNone(a: seq<Int16>, n: Int16, x: Long)
    requires n != 0
    ensures DivideFrom(a, 0, n, x) == ([], x)
  {}

  /** s_div by -32768, the scaling factor that does not fit: minus the digits, one place down. */
  lemma {:induction false} ByMinimum(a: seq<Digit>, i: nat, x: Digit)
    requires i <= |a|
    ensures var q := DivideFrom(a, i, -32768, x).0;
      |q| == i && forall k :: 0 <= k < i ==> q[k] as int == 0 - (if k + 1 < i then a[k + 1] else x)
    decreases i
  {
    if i > 0 {
      var d: Digit := a[i - 1];
      OverMinimum(x, d);
      DivideNext(a, i, -32768, x, 0 - x, d);
      hide DivideFrom, Over, Left;
      ByMinimum(a, i - 1, d);
    }
  }

  lemma OverMinimum(x: Digit, d: Digit)
    ensures Over(x as int * BASE + d as int, -32768) == 0 - x as int && Left(x as int * BASE + d as int, -32768) == d
  {
    var y := x as int * 32768 + d as int;
    assert y / 32768 == x as int;
  }

  /** The remainder of a division by a number with a leading zero has no positive digit, under a length
      that is not positive: it is not a number of the library unless it is zero. */
  lemma RemainderIsNoNumber(a: Number, b: Number, turns: nat)
    requires a.len >= b.len >= 2 && Proper(a) && Proper(b) && b.val[b.len - 1] == 0
    requires Divide(a, b, turns).Is?
    ensures var r := Divide(a, b, turns).value.1;
      && r.len <= 0 && (forall k :: 0 <= k < -r.len ==> r.val[k] <= 0) && (r.len < 0 ==> r.val[-r.len - 1] < 0)
      && (Proper(r) <==> r.len == 0)
  {
    hide DivideDown, Columns, DivideFrom;
    var n := b.len;
    assert b.Used()[n - 1] == 0;
    assert Wrap16(Over(BASE, 1)) == -32768;
    var u := Columns(a.Used(), [-32768], 0, 0);
    var v := Columns(b.Used(), [-32768], 0, 0);
    var down := DivideDown(u, v[..n], a.len - n + 1, turns).value.0;
    var s := Significant(down, n);
    ByMinimum(down[..s], s, 0);
    assert Raw(s, down).Used() == down[..s];
    var r := Divide(a, b, turns).value.1;
    assert r.len < 0 ==> r.Used()[-r.len - 1] == r.val[-r.len - 1];
  }

  // ----- One modulus and one guess -----

  // 0x1fff4201fe3dff0007
  const MODULUS: seq<Digit> := [7, 31742, 2040, 31248, 511]

  // 3 * 2^30 + 2
  const GUESS: seq<Digit> := [2, 0, 3, 0]

  const MINIMUM: Int16 := -32768

  lemma FitsLong(n: int)
    requires -0x8000_0000 <= n < 0x8000_0000
    ensures Wrap32(n) as int == n
  {}

  lemma FitsShort(n: int)
    requires -32768 <= n < 32768
    ensures Wrap16(n) as int == n
  {}

  lemma RowOne(a: seq<Int16>, d: Int16, i: nat, sum: Long, t: Long)
    requires i < |a| && 0 <= sum <= 0x3FFFF && -0x4000_0000 <= a[i] as int * d as int <= 0x4000_0000
    requires t as int == sum as int + a[i] as int * d as int
    ensures Rows(a, [d], i, i, i + 1, 0, sum) == if t < 0 then (1, t + 0x8000_0000) else (0, t)
  {
    FitsLong(a[i] as int * d as int);
    FitsLong(t);
    hide Wrap32;
    assert [d][i - i] == d;
  }

  lemma OnwardIs(carry: Int16, total: Long, digit: Digit, high: nat)
    requires 0 <= carry <= 1 && total as int == 32768 * high + digit && high < 65536
    ensures Low15(total) == digit && Onward(carry, total) == 65536 * carry + high
  {}

  /** One column of a product by one short. */
  lemma ScaleStep(a: seq<Int16>, d: Int16, i: nat, sum: Long, digit: Digit, next: Long)
    requires i < |a| && 0 <= sum <= 0x3FFFF && -0x4000_0000 <= a[i] as int * d as int <= 0x4000_0000
    requires var t := sum as int + a[i] as int * d as int;
      && (t >= 0 ==> t == 32768 * next + digit && 0 <= next < 65536)
      && (t < 0 ==> t + 0x8000_0000 == 32768 * (next - 65536) + digit && 65536 <= next < 131072)
    ensures Columns(a, [d], i, sum) == [digit] + Columns(a, [d], i + 1, next)
  {
    var t := sum as int + a[i] as int * d as int;
    RowOne(a, d, i, sum, t);
    if t < 0 {
      OnwardIs(1, t + 0x8000_0000, digit, next - 65536);
    } else {
      OnwardIs(0, t, digit, next);
    }
    hide Rows, Onward, Low15;
  }

  /** The last column has no row. */
  lemma ScaleEnd(a: seq<Int16>, d: Int16, sum: Long)
    requires a != [] && 0 <= sum <= 0x3FFFF
    ensures Columns(a, [d], |a|, sum) == [Low15(sum)]
  {
    assert Columns(a, [d], |a| + 1, Onward(0, sum)) == [];
  }

  lemma ScaledModulus()
    ensures Columns(MODULUS, [MINIMUM], 0, 0) == [0, 32761, 1029, 30731, 1523, 32260]
  {
    hide Columns;
    ScaleStep(MODULUS, MINIMUM, 0, 0, 0, 131065);
    ScaleStep(MODULUS, MINIMUM, 1, 131065, 32761, 99333);
    ScaleStep(MODULUS, MINIMUM, 2, 99333, 1029, 129035);
    ScaleStep(MODULUS, MINIMUM, 3, 129035, 30731, 99827);
    ScaleStep(MODULUS, MINIMUM, 4, 99827, 1523, 130564);
    ScaleEnd(MODULUS, MINIMUM, 130564);
  }

  lemma ScaledGuess()
    ensures Columns(GUESS, [MINIMUM], 0, 0) == [0, 32766, 3, 32765, 3]
  {
    hide Columns;
    ScaleStep(GUESS, MINIMUM, 0, 0, 0, 131070);
    ScaleStep(GUESS, MINIMUM, 1, 131070, 32766, 3);
    ScaleStep(GUESS, MINIMUM, 2, 3, 3, 131069);
    ScaleStep(GUESS, MINIMUM, 3, 131069, 32765, 3);
    ScaleEnd(GUESS, MINIMUM, 3);
  }

  /** One digit of the first loop of m_dsb. */
  lemma TakeStep(q: Int16, a: seq<Int16>, w: seq<Int16>, j: nat, borrow: Int16, digit: Digit, borrow': Int16)
    requires |w| == |a| + 1 && j < |a|
    requires -0x4000_0000 <= a[j] as int * q as int <= 0x4000_0000
    requires borrow as int - a[j] as int * q as int + w[j] as int == 32768 * borrow' as int + digit
    ensures TakeFrom(q, a, w, j, borrow)
         == ([digit] + TakeFrom(q, a, w, j + 1, borrow').0, TakeFrom(q, a, w, j + 1, borrow').1)
  {
    var p := a[j] as int * q as int;
    var x := borrow as int - p + w[j] as int;
    FitsLong(p);
    FitsLong(borrow as int - p);
    FitsLong(x);
    ShiftedIs(x, digit, borrow');
    hide Wrap32, Wrap16, Low15, ShiftRight15;
  }

  lemma ShiftedIs(x: int, digit: Digit, high: Int16)
    requires x == 32768 * high as int + digit
    ensures Low15(x) == digit && ShiftRight15(x) == high as int && Wrap16(ShiftRight15(x)) == high
  {}

  /** An estimate of m_trq that is not too large. */
  lemma TryOnce(v1: int, v2: int, u1: int, u2: int, u3: int, d: Digit, x: int, turns: nat)
    requires turns > 0
    requires 0 <= v1 < 32768 && 0 <= v2 < 32768 && 0 <= u1 < 32768 && 0 <= u2 < 32768 && 0 <= u3 < 32768
    requires 0 <= Times(v1, d) <= 0x3FFF_FFFF && 0 <= Times(v2, d) <= 0x3FFF_FFFF
    requires x == u1 * 32768 + u2 - Times(v1, d) && 0 <= x < 32768 && x * 32768 + u3 >= Times(v2, d)
    ensures TryFrom(v1, v2, u1, u2, u3, d, turns) == Is(d)
  {
    hide Wrap32, Wrap16, Times;
    FitsShort(d);
    var p, p' := Times(v1, d), Times(v2, d);
    FitsLong(u1 * 32768);
    FitsLong(u1 * 32768 + u2);
    FitsLong(p);
    FitsLong(x);
    FitsLong(x * 32768);
    FitsLong(x * 32768 + u3);
    FitsLong(p');
    FitsLong(x * 32768 + u3 - p');
  }

  lemma FirstEstimate(v1: int, v2: int, u1: int, u2: int, u3: int, d: Digit, x: int, turns: nat)
    requires turns > 0
    requires 0 <= v2 < 32768 && 0 <= u1 < v1 < 32768 && 0 <= u2 < 32768 && 0 <= u3 < 32768
    requires 0 <= Times(v1, d) <= 0x3FFF_FFFF && 0 <= Times(v2, d) <= 0x3FFF_FFFF
    requires x == u1 * 32768 + u2 - Times(v1, d) && 0 <= x < v1 && x * 32768 + u3 >= Times(v2, d)
    ensures TrialQuotient(v1, v2, u1, u2, u3, turns) == Is(d)
  {
    FitsLong(u1 * BASE);
    FitsLong(u1 * BASE + u2);
    FitsLong(d);
    assert Over(u1 * BASE + u2, v1) == d by {
      NumberTheory.DivModUnique(u1 * BASE + u2, v1, d, x);
    }
    TryOnce(v1, v2, u1, u2, u3, d, x, turns);
    hide Wrap32, Over, TryFrom;
  }

  const DIVISOR: seq<Digit> := [0, 32766, 3, 32765]

  lemma FirstDigit(turns: nat)
    requires turns > 0
    ensures TrialQuotient(32765, 3, 32260, 1523, 30731, turns) == Is(32263)
    ensures TakeMultiple(32263, DIVISOR, [32761, 1029, 30731, 1523, 32260]) == ([32761, 19, 32753, 4, 0], 0)
  {
    hide TakeFrom, TrialQuotient;
    FirstEstimate(32765, 3, 32260, 1523, 30731, 32263, 8, turns);
    var w: seq<Digit> := [32761, 1029, 30731, 1523, 32260];
    TakeStep(32263, DIVISOR, w, 0, 0, 32761, 0);
    TakeStep(32263, DIVISOR, w, 1, 0, 19, -32261);
    TakeStep(32263, DIVISOR, w, 2, -32261, 32753, -4);
    TakeStep(32263, DIVISOR, w, 3, -4, 4, -32260);
    TakeEnd(32263, DIVISOR, w, -32260);
    assert TakeFrom(32263, DIVISOR, w, 0, 0).0 == [32761, 19, 32753, 4, 0];
  }

  lemma TakeEnd(q: Int16, a: seq<Int16>, w: seq<Int16>, borrow: Int16)
    requires |w| == |a| + 1 && borrow as int + w[|a|] as int == 0
    ensures TakeFrom(q, a, w, |a|, borrow) == ([0], false)
  {}

  lemma SecondDigit(turns: nat)
    requires turns > 0
    ensures TrialQuotient(32765, 3, 4, 32753, 19, turns) == Is(5)
    ensures TakeMultiple(5, DIVISOR, [0, 32761, 19, 32753, 4]) == ([0, 3, 0, 0, 0], 0)
  {
    hide TakeFrom, TrialQuotient;
    FirstEstimate(32765, 3, 4, 32753, 19, 5, 0, turns);
    var w: seq<Digit> := [0, 32761, 19, 32753, 4];
    TakeStep(5, DIVISOR, w, 0, 0, 0, 0);
    TakeStep(5, DIVISOR, w, 1, 0, 3, -4);
    TakeStep(5, DIVISOR, w, 2, -4, 0, 0);
    TakeStep(5, DIVISOR, w, 3, 0, 0, -4);
    TakeEnd(5, DIVISOR, w, -4);
    assert TakeFrom(5, DIVISOR, w, 0, 0).0 == [0, 3, 0, 0, 0];
  }

  lemma QuotientDigits(turns: nat)
    requires turns > 0
    ensures DivideDown([0, 32761, 1029, 30731, 1523, 32260], DIVISOR, 2, turns) == Is(([0, 3, 0, 0, 0, 0], [5, 32263]))
  {
    hide TrialQuotient, TakeMultiple;
    var u: seq<Digit> := [0, 32761, 1029, 30731, 1523, 32260];
    var u': seq<Digit> := [0, 32761, 19, 32753, 4, 0];
    var u'': seq<Digit> := [0, 3, 0, 0, 0, 0];
    FirstDigit(turns);
    SecondDigit(turns);
    assert u[1..6] == [32761, 1029, 30731, 1523, 32260];
    assert u'[0..5] == [0, 32761, 19, 32753, 4];
    assert u[..1] + [32761, 19, 32753, 4, 0] + u[6..] == u';
    assert u'[..0] + [0, 3, 0, 0, 0] + u'[5..] == u'';
    assert [] + [5] == [5] && [5] + [32263] == [5, 32263];
    hide DivideDown;
    DownNone(u'', DIVISOR, turns);
    DownStep(u', DIVISOR, 1, turns, 5, u'', []);
    DownStep(u, DIVISOR, 2, turns, 32263, u'', [5]);
  }

  lemma DownNone(u: seq<Digit>, v: seq<Digit>, turns: nat)
    requires 2 <= |v| <= |u|
    ensures DivideDown(u, v, 0, turns) == Is((u, []))
  {}

  lemma DownStep(u: seq<Digit>, v: seq<Digit>, k: nat, turns: nat, d: Digit, last: seq<Digit>, q: seq<Int16>)
    requires |v| >= 2 && 0 < k && k + |v| <= |u|
    requires var j, n := k - 1, |v|;
      && TrialQuotient(v[n - 1], v[n - 2], u[j + n], u[j + n - 1], u[j + n - 2], turns) == Is(d)
      && var (w, less) := TakeMultiple(d, v, u[j..j + n + 1]);
      less == 0 && DivideDown(u[..j] + w + u[j + n + 1..], v, j, turns) == Is((last, q))
    ensures DivideDown(u, v, k, turns) == Is((last, q + [d]))
  {
    hide TrialQuotient, TakeMultiple, Wrap16;
    FitsShort(d);
  }

  /** Quotient and remainder of the modulus by the guess, as m_div computes them. */
  lemma ModulusByGuess(turns: nat)
    requires turns > 0
    ensures Divide(Raw(5, MODULUS), Raw(4, GUESS), turns) == Is((Raw(2, [5, 32263]), Raw(-1, [-3, 0])))
  {
    hide DivideDown, Columns, DivideFrom;
    ScaledModulus();
    ScaledGuess();
    QuotientDigits(turns);
    assert Raw(5, MODULUS).Used() == MODULUS && Raw(4, GUESS).Used() == GUESS;
    assert Wrap16(Over(BASE, 1)) == MINIMUM;
    assert [0, 32766, 3, 32765, 3][..4] == DIVISOR;
    var u: seq<Digit> := [0, 3, 0, 0, 0, 0];
    LowTwo(u);
    assert DivideLong(MODULUS, GUESS, turns) == Is((Raw(2, [5, 32263]), Raw(-1, [-3, 0])));
  }

  lemma LowTwo(u: seq<Digit>)
    requires u == [0, 3, 0, 0, 0, 0]
    ensures Unscaled(u, 4, MINIMUM) == Is(Raw(-1, [-3, 0]))
  {
    hide DivideFrom, Significant;
    assert Significant(u, 4) == 2 by {
      StripZero(u, 4);
      StripZero(u, 3);
      StripNone(u, 2);
    }
    assert Raw(2, u).Used() == [0, 3];
    ByMinimum([0, 3], 2, 0);
    assert DivideFrom([0, 3], 2, MINIMUM, 0).0 == [-3, 0];
  }

  lemma StripZero(s: seq<Int16>, n: nat)
    requires 0 < n <= |s| && s[n - 1] == 0
    ensures Significant(s, n) == Significant(s, n - 1)
  {}

  lemma StripNone(s: seq<Int16>, n: nat)
    requires 0 < n <= |s| && s[n - 1] != 0
    ensures Significant(s, n) == n
  {}

  // ----- gcd and invert from there -----

  /** sdiv by one digit, for numbers of one digit or more; q is the quotient's storage. */
  lemma ShortQuotient(a: Number, n: Int16, q: seq<Int16>, left: Int16)
    requires a.len != 0 && n != 0 && n > -32768 && |q| == |a.Used()| && left > -32768
    requires DivideFrom(a.Used(), |a.Used()|, if n < 0 then 0 - n else n, 0) == (q, left as Long)
    ensures var opposite, len := (n < 0) != (a.len < 0), if q[|q| - 1] == 0 then |q| - 1 else |q|;
      DivideShort(a, n) == Is(if opposite then (Raw(-len, q), 0 - left) else (Raw(len, q), left))
  {
    hide DivideFrom;
    FitsShort(-n as int);
    FitsShort(left);
    FitsShort(-left as int);
    hide Wrap16;
  }

  /** One turn of s_div's loop on digits, by a digit. */
  lemma DivideDigit(a: seq<Digit>, i: nat, n: Digit, x: Digit, q: Digit, left: Digit)
    requires 0 < i <= |a| && x < n && left < n && x as int * 32768 + a[i - 1] as int == n as int * q as int + left as int
    ensures DivideFrom(a, i, n, x) == (DivideFrom(a, i - 1, n, left).0 + [q], DivideFrom(a, i - 1, n, left).1)
  {
    hide DivideFrom;
    NumberTheory.DivModUnique(x as int * 32768 + a[i - 1] as int, n, q, left);
    DivideNext(a, i, n, x, q, left);
  }

  /** The guess by -3. */
  lemma SecondDivision(turns: nat)
    ensures Divide(Raw(4, GUESS), Raw(-1, [-3, 0]), turns) == Is((Raw(3, [0, 0, 1, 0]), Raw(-1, [-2])))
  {
    hide DivideFrom;
    var a, b: Number := Raw(4, GUESS), Raw(-1, [-3, 0]);
    assert a.Used() == GUESS && b.Used() == [-3];
    DivideDigit(GUESS, 4, 3, 0, 0, 0);
    DivideDigit(GUESS, 3, 3, 0, 1, 0);
    DivideDigit(GUESS, 2, 3, 0, 0, 0);
    DivideDigit(GUESS, 1, 3, 0, 0, 2);
    DivideNone(GUESS, 3, 2);
    assert DivideFrom(GUESS, 4, 3, 0).0 == [0, 0, 1, 0];
    ShortQuotient(Raw(4, GUESS), -3, [0, 0, 1, 0], 2);
  }

  /** -3 by -2. */
  lemma ThirdDivision(turns: nat)
    ensures Divide(Raw(-1, [-3, 0]), Raw(-1, [-2]), turns) == Is((Raw(-1, [-1]), Raw(1, [1])))
  {
    hide DivideFrom;
    var a, b: Number := Raw(-1, [-3, 0]), Raw(-1, [-2]);
    assert a.Used() == [-3] && b.Used() == [-2] && Raw(1, [-3]).Used() == [-3];
    DivideNext([-3], 1, 2, 0, -1, -1);
    DivideNone([-3], 2, -1);
    assert [] + [-1] == [-1];
    ShortQuotient(Raw(1, [-3]), -2, [-1], -1);
  }

  /** And -2 by 1. */
  lemma FourthDivision(turns: nat)
    ensures Divide(Raw(-1, [-2]), Raw(1, [1]), turns) == Is((Raw(-1, [-2]), Raw(0, [0])))
  {
    hide DivideFrom;
    var a, b: Number := Raw(-1, [-2]), Raw(1, [1]);
    assert a.Used() == [-2] && b.Used() == [1];
    DivideNext([-2], 1, 1, 0, -2, 0);
    DivideNone([-2], 1, 0);
    assert [] + [-2] == [-2];
    ShortQuotient(Raw(1, [-2]), 1, [-2], 0);
  }

  /** gcd finds 1, so mkx takes the guess as it is. */
  lemma GuessAccepted(turns: nat)
    requires turns >= 4
    ensures Gcd(Raw(5, MODULUS), Raw(4, GUESS), turns) == Is(Raw(1, [1]))
  {
    hide Divide;
    ModulusByGuess(turns);
    SecondDivision(turns - 1);
    ThirdDivision(turns - 2);
    FourthDivision(turns - 3);
    hide Gcd;
    GcdNext(Raw(5, MODULUS), Raw(4, GUESS), Raw(2, [5, 32263]), Raw(-1, [-3, 0]), turns);
    GcdNext(Raw(4, GUESS), Raw(-1, [-3, 0]), Raw(3, [0, 0, 1, 0]), Raw(-1, [-2]), turns - 1);
    GcdNext(Raw(-1, [-3, 0]), Raw(-1, [-2]), Raw(-1, [-1]), Raw(1, [1]), turns - 2);
    GcdNext(Raw(-1, [-2]), Raw(1, [1]), Raw(-1, [-2]), Raw(0, [0]), turns - 3);
    GcdEnd(Raw(1, [1]), Raw(0, [0]), turns - 4);
  }

  lemma GcdNext(x: Number, y: Number, q: Number, r: Number, turns: nat)
    requires turns > 0 && y.len != 0 && Divide(x, y, turns) == Is((q, r))
    ensures Gcd(x, y, turns) == Gcd(y, r, turns - 1)
  {
    hide Divide;
  }

  lemma GcdEnd(x: Number, y: Number, turns: nat)
    requires y.len == 0
    ensures Gcd(x, y, turns) == Is(x)
  {}

  // ----- The four coefficients of invert -----

  lemma FirstCoefficient()
    ensures Multiply(Raw(2, [5, 32263]), ONE) == Is(Raw(2, [5, 32263, 0]))
    ensures Add(Raw(2, [5, 32263, 0]), NONE) == Is(Raw(2, [5, 32263]))
  {
    hide Columns, AddFrom;
    var w: seq<Digit> := [5, 32263];
    assert Raw(2, w).Used() == w && ONE.Used() == [1] && NONE.Used() == [] && Raw(2, [5, 32263, 0]).Used() == w;
    ScaleStep(w, 1, 0, 0, 5, 0);
    ScaleStep(w, 1, 1, 0, 32263, 0);
    ScaleEnd(w, 1, 0);
    assert Columns(w, [1], 0, 0) == [5, 32263, 0];
    AddStep(w, [], 0, 0, 5, 0);
    AddStep(w, [], 1, 0, 32263, 0);
    AddEnd(w, [], 0);
    assert AddFrom(w, [], 0, 0) == w;
  }

  /** One digit of m_add. */
  lemma AddStep(a: seq<Digit>, b: seq<Digit>, i: nat, carry: int, digit: Digit, carry': int)
    requires |b| <= |a| && i < |a| && 0 <= carry <= 1 && 0 <= carry' <= 1
    requires carry + a[i] as int + (if i < |b| then b[i] as int else 0) == digit + 32768 * carry'
    ensures AddFrom(a, b, i, carry) == [digit] + AddFrom(a, b, i + 1, carry')
  {
    SignBitIsCarry(digit + 32768 * carry');
    hide Wrap16, Low15;
  }

  lemma AddEnd(a: seq<Digit>, b: seq<Digit>, carry: int)
    requires |b| <= |a| && 0 <= carry <= 1
    ensures AddFrom(a, b, |a|, carry) == if carry == 1 then [1] else []
  {}

  lemma SecondCoefficient()
    ensures Multiply(Raw(3, [0, 0, 1, 0]), Raw(2, [5, 32263])) == Is(Raw(4, [0, 0, 5, 32263, 0]))
    ensures Add(Raw(4, [0, 0, 5, 32263, 0]), ONE) == Is(Raw(4, [1, 0, 5, 32263]))
  {
    hide Columns, AddFrom;
    assert Raw(3, [0, 0, 1, 0]).Used() == UP_TWO && Raw(2, [5, 32263]).Used() == QUOTIENT && ONE.Used() == [1];
    ShiftedColumns();
    var s: seq<Digit> := [0, 0, 5, 32263];
    assert Raw(4, [0, 0, 5, 32263, 0]).Used() == s;
    AddStep(s, [1], 0, 0, 1, 0);
    AddStep(s, [1], 1, 0, 0, 0);
    AddStep(s, [1], 2, 0, 5, 0);
    AddStep(s, [1], 3, 0, 32263, 0);
    AddEnd(s, [1], 0);
    assert AddFrom(s, [1], 0, 0) == [1, 0, 5, 32263];
  }

  const UP_TWO: seq<Digit> := [0, 0, 1]

  const QUOTIENT: seq<Digit> := [5, 32263]

  /** UP_TWO moves the digits it is multiplied with up by two. */
  lemma ShiftedColumns()
    ensures Columns(UP_TWO, QUOTIENT, 0, 0) == [0, 0, 5, 32263, 0]
  {
    hide Columns;
    ShiftedColumn(0, 0, 0);
    ShiftedColumn(1, 0, 0);
    ShiftedColumn(2, 1, 5);
    ShiftedColumn(3, 2, 32263);
    ShiftedColumn(4, 3, 0);
    NoColumns(UP_TWO, QUOTIENT);
  }

  lemma NoColumns(a: seq<Int16>, b: seq<Int16>)
    requires |b| <= |a|
    ensures Columns(a, b, |a| + |b|, 0) == []
  {}

  lemma ShiftedColumn(i: nat, lo: nat, digit: Digit)
    requires i < 5 && lo == (if i < 2 then 0 else i - 1) && digit == if i == 2 then 5 else if i == 3 then 32263 else 0
    ensures Columns(UP_TWO, QUOTIENT, i, 0) == [digit] + Columns(UP_TWO, QUOTIENT, i + 1, 0)
  {
    hide Rows, Columns;
    var hi := if i < 3 then i + 1 else 3;
    if lo < hi {
      var p: Long := UP_TWO[lo] as int * QUOTIENT[i - lo] as int;
      RowNext(UP_TWO, QUOTIENT, i, lo, hi, 0, p);
      if lo + 1 < hi {
        RowNext(UP_TWO, QUOTIENT, i, lo + 1, hi, p, digit);
      }
    }
    RowNone(UP_TWO, QUOTIENT, i, hi, digit);
    ColumnIs(UP_TWO, QUOTIENT, i, lo, hi, digit);
  }

  /** A column whose total is one digit. */
  lemma ColumnIs(a: seq<Int16>, b: seq<Int16>, i: nat, lo: nat, hi: nat, digit: Digit)
    requires |b| <= |a| && i < |a| + |b|
    requires lo == (if i < |b| then 0 else i - |b| + 1) && hi == if i < |a| then i + 1 else |a|
    requires Rows(a, b, i, lo, hi, 0, 0) == (0, digit)
    ensures Columns(a, b, i, 0) == [digit] + Columns(a, b, i + 1, 0)
  {
    OnwardIs(0, digit, digit, 0);
    hide Rows, Onward, Low15;
  }

  lemma RowNone(a: seq<Int16>, b: seq<Int16>, i: nat, hi: nat, sum: Long)
    requires hi <= |a| && hi <= i + 1 && i < hi + |b|
    ensures Rows(a, b, i, hi, hi, 0, sum) == (0, sum)
  {}

  /** One row of a column, without overflow. */
  lemma RowNext(a: seq<Digit>, b: seq<Digit>, i: nat, j: nat, hi: nat, sum: Long, t: Long)
    requires j < hi <= |a| && hi <= i + 1 && i < j + |b|
    requires t as int == sum as int + a[j] as int * b[i - j] as int && 0 <= a[j] as int * b[i - j] as int <= t
    ensures Rows(a, b, i, j, hi, 0, sum) == Rows(a, b, i, j + 1, hi, 0, t)
  {
    FitsLong(a[j] as int * b[i - j] as int);
    FitsLong(t);
    hide Wrap32;
  }

  const COMPLEMENT: seq<Digit> := [32767, 32767, 32766, 504, 3]

  lemma ThirdCoefficient()
    ensures Multiply(Raw(-1, [-1]), Raw(4, [1, 0, 5, 32263])) == Is(Raw(-5, COMPLEMENT))
    ensures Add(Raw(-5, COMPLEMENT), Raw(2, [5, 32263])) == Is(Raw(-5, [32762, 504, 32766, 504, 3]))
  {
    hide Columns, SubtractFrom;
    var a, w: seq<Digit> := [1, 0, 5, 32263], [5, 32263];
    assert Raw(-1, [-1]).Used() == [-1] && Raw(4, a).Used() == a && Raw(2, w).Used() == w;
    assert Raw(-5, COMPLEMENT).Used() == COMPLEMENT;
    ScaleStep(a, -1, 0, 0, 32767, 131071);
    ScaleStep(a, -1, 1, 131071, 32767, 3);
    ScaleStep(a, -1, 2, 3, 32766, 131071);
    ScaleStep(a, -1, 3, 131071, 504, 3);
    ScaleEnd(a, -1, 3);
    assert Columns(a, [-1], 0, 0) == COMPLEMENT;
    SubtractStep(COMPLEMENT, w, 0, 32762);
    SubtractStep(COMPLEMENT, w, 1, 504);
    SubtractStep(COMPLEMENT, w, 2, 32766);
    SubtractStep(COMPLEMENT, w, 3, 504);
    SubtractStep(COMPLEMENT, w, 4, 3);
    SubtractEnd(COMPLEMENT, w);
    assert SubtractFrom(COMPLEMENT, w, 0, 0).0 == [32762, 504, 32766, 504, 3];
    StripNone([32762, 504, 32766, 504, 3], 5);
  }

  /** One digit of m_sub without a borrow. */
  lemma SubtractStep(a: seq<Digit>, b: seq<Digit>, i: nat, digit: Digit)
    requires |b| <= |a| && i < |a| && a[i] as int - (if i < |b| then b[i] as int else 0) == digit as int
    ensures SubtractFrom(a, b, i, 0) == ([digit] + SubtractFrom(a, b, i + 1, 0).0, SubtractFrom(a, b, i + 1, 0).1)
  {
    FitsShort(digit);
    hide Wrap16;
  }

  lemma SubtractEnd(a: seq<Digit>, b: seq<Digit>)
    requires |b| <= |a|
    ensures SubtractFrom(a, b, |a|, 0) == ([], 0)
  {}

  /** The last one is computed but not used. */
  lemma FourthCoefficient() returns (c: Number)
    ensures Multiply(Raw(-1, [-2]), Raw(-5, [32762, 504, 32766, 504, 3])).Is?
    ensures Add(Multiply(Raw(-1, [-2]), Raw(-5, [32762, 504, 32766, 504, 3])).value, Raw(4, [1, 0, 5, 32263])) == Is(c)
  {
    hide Columns, AddFrom;
    var m := Multiply(Raw(-1, [-2]), Raw(-5, [32762, 504, 32766, 504, 3])).value;
    c := Add(m, Raw(4, [1, 0, 5, 32263])).value;
  }

  const WRONG: seq<Digit> := [1, 32247, 2038, 31753, 514]

  lemma LastDifference()
    ensures Subtract(Raw(5, MODULUS), Raw(-5, [32762, 504, 32766, 504, 3])) == Is(Raw(5, WRONG))
  {
    hide AddFrom;
    var s: seq<Digit> := [32762, 504, 32766, 504, 3];
    assert Raw(5, MODULUS).Used() == MODULUS && Raw(-5, s).Used() == s;
    AddStep(MODULUS, s, 0, 0, 1, 1);
    AddStep(MODULUS, s, 1, 1, 32247, 0);
    AddStep(MODULUS, s, 2, 0, 2038, 1);
    AddStep(MODULUS, s, 3, 1, 31753, 0);
    AddStep(MODULUS, s, 4, 0, 514, 0);
    AddEnd(MODULUS, s, 0);
    assert AddFrom(MODULUS, s, 0, 0) == WRONG;
  }

  /** What invert makes of the guess. */
  lemma GuessInverted(turns: nat)
    requires turns >= 4
    ensures Invert(Raw(4, GUESS), Raw(5, MODULUS), turns) == Is(Raw(5, WRONG))
  {
    hide Divide, Multiply, Add, Subtract;
    ModulusByGuess(turns);
    SecondDivision(turns - 1);
    ThirdDivision(turns - 2);
    FourthDivision(turns - 3);
    FirstCoefficient();
    SecondCoefficient();
    ThirdCoefficient();
    var c := FourthCoefficient();
    LastDifference();
    assert MODULUS[..5] == MODULUS && GUESS[..4] == GUESS;
    hide InvertFrom;
    var b, r1, r2, r3, r4: Number := Raw(5, MODULUS), Raw(4, GUESS), Raw(-1, [-3, 0]), Raw(-1, [-2]), Raw(1, [1]);
    var a1, a2, a3: Number := Raw(2, [5, 32263]), Raw(4, [1, 0, 5, 32263]), Raw(-5, [32762, 504, 32766, 504, 3]);
    InvertNext(b, b, r1, ONE, NONE, true, turns, r2, a1);
    InvertNext(b, r1, r2, a1, ONE, false, turns - 1, r3, a2);
    InvertNext(b, r2, r3, a2, a1, true, turns - 2, r4, a3);
    InvertNext(b, r3, r4, a3, a2, false, turns - 3, Raw(0, [0]), c);
    InvertEnd(b, r4, Raw(0, [0]), c, a3, turns - 4);
  }

  lemma InvertNext(b: Number, x: Number, y: Number, anew: Number, aold: Number, even: bool, turns: nat, r: Number, a: Number)
    requires turns > 0 && y.len != 0 && Divide(x, y, turns).Is? && Divide(x, y, turns).value.1 == r
    requires Multiply(Divide(x, y, turns).value.0, anew).Is?
    requires Add(Multiply(Divide(x, y, turns).value.0, anew).value, aold) == Is(a)
    ensures InvertFrom(b, x, y, anew, aold, even, turns) == InvertFrom(b, y, r, a, anew, !even, turns - 1)
  {
    hide Divide, Multiply, Add;
  }

  lemma InvertEnd(b: Number, x: Number, y: Number, anew: Number, aold: Number, turns: nat)
    requires y.len == 0
    ensures InvertFrom(b, x, y, anew, aold, true, turns) == Subtract(b, aold)
  {
    hide Subtract;
  }
}
