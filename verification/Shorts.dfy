/** The library on whatever its shorts hold: a digit may be negative here, and what does not fit a
    short or a long is cut off as the machine cuts it off. On proper numbers with a proper divisor
    the other modules say what comes out; this one follows the text where they do not apply. */
module Shorts {
  import opened Machine
  import opened Digits

  /** The storage `val` is at least as long as `len` says. */
  datatype Raw = Raw(len: int, val: seq<Int16>) {
    predicate Valid() {
      -|val| <= len <= |val|
    }

    /** The digits in use. */
    function Used(): (s: seq<Int16>)
      requires Valid()
      ensures |s| == if len < 0 then -len else len
    {
      val[..if len < 0 then -len else len]
    }

    function Negated(): Raw {
      Raw(-len, val)
    }

    /** move: a copy of the digits in use. */
    function Moved(): (r: Raw)
      requires Valid()
      ensures r.Valid()
    {
      Raw(len, Used())
    }
  }

  type Number = r: Raw | r.Valid() witness Raw(0, [])

  /** Undefined is a division by zero, an access below an array, an exit through `fatal`, or a loop that
      has not ended after the turns it was given. */
  datatype Result<+T> = Undefined | Is(value: T)

  const ONE: Number := Raw(1, [1])
  const NONE: Number := Raw(0, [])

  /** C division, which truncates towards zero, and its remainder. */
  function Over(a: int, b: int): int
    requires b != 0
  {
    if a >= 0 then (if b > 0 then a / b else -(a / -b))
    else if b > 0 then -(-a / b)
    else -a / -b
  }

  function Left(a: int, b: int): int
    requires b != 0
  {
    a - Over(a, b) * b
  }

  // ----- madd.c -----

  /** The loops of m_add, from digit i on, and the carry they leave. */
  function AddFrom(a: seq<Int16>, b: seq<Int16>, i: nat, carry: int): (s: seq<Int16>)
    requires |b| <= |a| && i <= |a| && 0 <= carry <= 1
    ensures |a| - i <= |s| <= |a| - i + 1
    decreases |a| - i
  {
    if i == |a| then (if carry == 1 then [1] else [])
    else
      var x := Wrap16(carry + a[i] as int + if i < |b| then b[i] as int else 0);
      var carry' := if x >= 0 then 0 else if i < |b| then 1 else carry;
      [Low(x)] + AddFrom(a, b, i + 1, carry')
  }

  /** x & 077777 of a negative x, and x itself otherwise. */
  function Low(x: Int16): (d: Digit) {
    if x < 0 then Low15(x) else x
  }

  /** m_add, the longer operand first. */
  function AddMagnitudes(a: seq<Int16>, b: seq<Int16>): (c: Number)
    ensures c.len >= 0
  {
    var s := if |a| >= |b| then AddFrom(a, b, 0, 0) else AddFrom(b, a, 0, 0);
    Raw(|s|, s)
  }

  /** The loops of m_sub, from digit i on. */
  function SubtractFrom(a: seq<Int16>, b: seq<Int16>, i: nat, borrow: int): (r: (seq<Digit>, int))
    requires |b| <= |a| && i <= |a| && -1 <= borrow <= 0
    ensures |r.0| == |a| - i && -1 <= r.1 <= 0
    decreases |a| - i
  {
    if i == |a| then ([], borrow)
    else
      var x := Wrap16(borrow + a[i] as int - if i < |b| then b[i] as int else 0);
      var borrow' := if x >= 0 then 0 else if i < |b| then -1 else borrow;
      var rest := SubtractFrom(a, b, i + 1, borrow');
      ([Low(x)] + rest.0, rest.1)
  }

  /** How many digits are left below the leading zeros. */
  function Significant(s: seq<Int16>, n: nat): (k: nat)
    requires n <= |s|
    ensures k <= n && (k > 0 ==> s[k - 1] != 0)
  {
    if n == 0 || s[n - 1] != 0 then n else Significant(s, n - 1)
  }

  /** x ^ 077777 on every digit */
  function Complemented(s: seq<Digit>): (t: seq<Digit>)
    ensures |t| == |s|
  {
    seq(|s|, i requires 0 <= i < |s| => 32767 - s[i])
  }

  /** m_sub, the longer operand first. */
  function SubtractMagnitudes(a: seq<Int16>, b: seq<Int16>): Result<Number>
    requires |b| <= |a|
  {
    var (digits, borrow) := SubtractFrom(a, b, 0, 0);
    if borrow == 0 then Is(Raw(Significant(digits, |a|), digits))
    else
      var s := AddFrom(Complemented(digits), [1], 0, 0);
      var n := Significant(s, |a|);
      if n == 0 then Undefined else Is(Raw(0 - n, s))
  }

  /** msub of two operands without sign. */
  function Difference(a: seq<Int16>, b: seq<Int16>): Result<Number> {
    if |a| >= |b| then SubtractMagnitudes(a, b)
    else
      var z := SubtractMagnitudes(b, a);
      if z.Undefined? then Undefined else Is(z.value.Negated())
  }

  /** madd */
  function Add(a: Number, b: Number): Result<Number> {
    if a.len >= 0 then
      if b.len >= 0 then Is(AddMagnitudes(a.Used(), b.Used())) else Difference(a.Used(), b.Used())
    else if b.len <= 0 then Is(AddMagnitudes(a.Used(), b.Used()).Negated())
    else Difference(b.Used(), a.Used())
  }

  /** msub */
  function Subtract(a: Number, b: Number): Result<Number> {
    if a.len >= 0 then
      if b.len >= 0 then Difference(a.Used(), b.Used()) else Is(AddMagnitudes(a.Used(), b.Used()))
    else if b.len <= 0 then
      var z := Difference(b.Used(), a.Used());
      if z.Undefined? then Undefined else Is(z.value.Negated())
    else Is(AddMagnitudes(a.Used(), b.Used()).Negated())
  }

  // ----- mult.c -----

  /** The inner loops of m_mult: rows j to hi - 1 of column i. */
  function Rows(a: seq<Int16>, b: seq<Int16>, i: nat, j: nat, hi: nat, carry: Int16, sum: Long): (r: (Int16, Long))
    requires j <= hi <= |a| && hi <= i + 1 && i < j + |b|
    decreases hi - j
  {
    if j == hi then (carry, sum)
    else
      var t := Wrap32(sum as int + Wrap32(a[j] as int * b[i - j] as int) as int);
      if t < 0 then Rows(a, b, i, j + 1, hi, Wrap16(carry as int + 1), t + 0x8000_0000)
      else Rows(a, b, i, j + 1, hi, carry, t)
  }

  /** S6 and S7: what goes over to the next column. */
  function Onward(carry: Int16, sum: Long): Long {
    Join(carry, Machine.Low(ShiftRight15(sum)))
  }

  /** The columns of m_mult from i on. */
  function Columns(a: seq<Int16>, b: seq<Int16>, i: nat, sum: Long): (s: seq<Digit>)
    requires |b| <= |a| && i <= |a| + |b|
    ensures |s| == |a| + |b| - i
    decreases |a| + |b| - i
  {
    if i == |a| + |b| then []
    else
      var lo := if i < |b| then 0 else i - |b| + 1;
      var hi := if i < |a| then i + 1 else |a|;
      var (carry, total) := Rows(a, b, i, lo, hi, 0, sum);
      [Low15(total)] + Columns(a, b, i + 1, Onward(carry, total))
  }

  /** m_mult, the longer operand first; with no digits at all it reads below its array. */
  function MultiplyMagnitudes(a: seq<Int16>, b: seq<Int16>): Result<Number>
    requires |b| <= |a|
  {
    if a == [] then Undefined
    else
      var s := Columns(a, b, 0, 0);
      Is(Raw(if s[|s| - 1] != 0 then |s| else |s| - 1, s))
  }

  /** mult */
  function Multiply(a: Number, b: Number): Result<Number> {
    var z := if |a.Used()| < |b.Used()| then MultiplyMagnitudes(b.Used(), a.Used())
             else MultiplyMagnitudes(a.Used(), b.Used());
    if z.Undefined? then Undefined
    else Is(if (a.len < 0) != (b.len < 0) then z.value.Negated() else z.value)
  }

  // ----- mout.c -----

  /** The loop of s_div over the first i digits of a, with x left over from those above. */
  function DivideFrom(a: seq<Int16>, i: nat, n: Int16, x: Long): (r: (seq<Int16>, Long))
    requires i <= |a| && n != 0
    ensures |r.0| == i
  {
    if i == 0 then ([], x)
    else
      var y := Wrap32(x as int * BASE + a[i - 1] as int);
      var rest := DivideFrom(a, i - 1, n, Wrap32(Left(y, n)));
      (rest.0 + [Wrap16(Over(y, n))], rest.1)
  }

  /** sdiv: quotient and remainder. A dividend of length 0 is read below its array. */
  function DivideShort(a: Number, n: Int16): Result<(Number, Int16)> {
    if n == 0 || a.len == 0 then Undefined
    else
      var opposite := (n < 0) != (a.len < 0);
      var (q, x) := DivideFrom(a.Used(), |a.Used()|, if n < 0 then Wrap16(0 - n as int) else n, 0);
      var len := if q[|q| - 1] == 0 then |q| - 1 else |q|;
      Is(if opposite then (Raw(-len, q), Wrap16(0 - Wrap16(x) as int)) else (Raw(len, q), Wrap16(x)))
  }

  // ----- mdiv.c -----

  /** The loop of m_trq. */
  function TryFrom(v1: int, v2: int, u1: int, u2: int, u3: int, d: Long, turns: nat): Result<Int16>
    decreases turns
  {
    if turns == 0 then Undefined
    else
      var x := Wrap32(Wrap32(Wrap32(u1 * BASE) as int + u2) as int - Wrap32(Times(v1, d)) as int);
      var y := Wrap32(Wrap32(Wrap32(x as int * BASE) as int + u3) as int - Wrap32(Times(v2, d)) as int);
      if y < 0 then TryFrom(v1, v2, u1, u2, u3, Wrap32(d as int - 1), turns - 1) else Is(Wrap16(d))
  }

  /** m_trq */
  function TrialQuotient(v1: int, v2: int, u1: int, u2: int, u3: int, turns: nat): Result<Int16> {
    if u1 == v1 then TryFrom(v1, v2, u1, u2, u3, 32767, turns)
    else if v1 == 0 then Undefined
    else TryFrom(v1, v2, u1, u2, u3, Wrap32(Over(Wrap32(Wrap32(u1 * BASE) as int + u2), v1)), turns)
  }

  /** The first loop of m_dsb, over the window w of one digit more than a, from digit j on: what is left,
      and whether too much was taken. */
  function TakeFrom(q: Int16, a: seq<Int16>, w: seq<Int16>, j: nat, borrow: Int16): (r: (seq<Digit>, bool))
    requires |w| == |a| + 1 && j <= |a|
    ensures |r.0| == |w| - j
    decreases |a| - j
  {
    if j == |a| then
      var x := Wrap16(borrow as int + w[j] as int);
      ([Low15(x)], x < 0)
    else
      var x := Wrap32(Wrap32(borrow as int - Wrap32(a[j] as int * q as int) as int) as int + w[j] as int);
      var rest := TakeFrom(q, a, w, j + 1, Wrap16(ShiftRight15(x)));
      ([Low15(x)] + rest.0, rest.1)
  }

  /** The second loop of m_dsb. */
  function GiveBackFrom(a: seq<Int16>, w: seq<Int16>, j: nat, borrow: int): (s: seq<Digit>)
    requires |a| <= |w| && j <= |a| && 0 <= borrow <= 1
    ensures |s| == |a| - j
    decreases |a| - j
  {
    if j == |a| then []
    else
      var u := Wrap16(a[j] as int + w[j] as int + borrow);
      [Low15(u)] + GiveBackFrom(a, w, j + 1, if u < 0 then 1 else 0)
  }

  /** m_dsb: the window afterwards, and the answer. */
  function TakeMultiple(q: Int16, a: seq<Int16>, w: seq<Int16>): (r: (seq<Digit>, int))
    requires |w| == |a| + 1
    ensures |r.0| == |w|
  {
    var (s, over) := TakeFrom(q, a, w, 0, 0);
    if over then (GiveBackFrom(a, s, 0, 0) + [s[|a|]], 1) else (s, 0)
  }

  /** The descending loop of m_div, for the quotient digits below k: the digits of u afterwards, and the
      quotient. */
  function DivideDown(u: seq<Digit>, v: seq<Digit>, k: nat, turns: nat): (r: Result<(seq<Digit>, seq<Int16>)>)
    requires |v| >= 2 && k + |v| <= |u|
    ensures r.Is? ==> |r.value.0| == |u| && |r.value.1| == k
    decreases k
  {
    if k == 0 then Is((u, []))
    else
      var j, n := k - 1, |v|;
      var d := TrialQuotient(v[n - 1], v[n - 2], u[j + n], u[j + n - 1], u[j + n - 2], turns);
      if d.Undefined? then Undefined
      else
        var (w, less) := TakeMultiple(d.value, v, u[j..j + n + 1]);
        var rest := DivideDown(u[..j] + w + u[j + n + 1..], v, j, turns);
        if rest.Undefined? then Undefined
        else Is((rest.value.0, rest.value.1 + [Wrap16(d.value as int - less)]))
  }

  /** The end of m_div: the low n digits of u without leading zeros, divided by the scaling factor. */
  function Unscaled(u: seq<Int16>, n: nat, d: Int16): Result<Number>
    requires n <= |u|
  {
    var r := DivideShort(Raw(Significant(u, n), u), d);
    if r.Undefined? then Undefined else Is(r.value.0)
  }

  /** m_div for a divisor of at least two digits that the dividend is not shorter than. */
  function DivideLong(a: seq<Int16>, b: seq<Int16>, turns: nat): Result<(Number, Number)>
    requires |a| >= |b| >= 2
  {
    var n := |b|;
    if b[n - 1] == -1 then Undefined
    else
      var d := Wrap16(Over(BASE, b[n - 1] as int + 1));
      var u, v := Columns(a, [d], 0, 0), Columns(b, [d], 0, 0);
      var down := DivideDown(u, v[..n], |a| - n + 1, turns);
      if down.Undefined? then Undefined
      else
        var r, q := Unscaled(down.value.0, n, d), down.value.1;
        if r.Undefined? then Undefined
        else Is((Raw(if q[|q| - 1] == 0 then |q| - 1 else |q|, q), r.value))
  }

  /** m_div: quotient and remainder of the digits. */
  function DivideMagnitudes(a: seq<Int16>, b: seq<Int16>, turns: nat): Result<(Number, Number)> {
    if b == [] then Undefined
    else if |b| == 1 then
      var z := DivideShort(Raw(|a|, a), b[0]);
      if z.Undefined? then Undefined
      else Is((z.value.0, Raw(if z.value.1 == 0 then 0 else 1, [z.value.1])))
    else if |a| < |b| then Is((NONE, Raw(|a|, a)))
    else DivideLong(a, b, turns)
  }

  /** mdiv */
  function Divide(a: Number, b: Number, turns: nat): Result<(Number, Number)> {
    var z := DivideMagnitudes(a.Used(), b.Used(), turns);
    if z.Undefined? then Undefined
    else if (a.len < 0) != (b.len < 0) then Is((z.value.0.Negated(), z.value.1.Negated()))
    else z
  }

  // ----- gcd.c -----

  /** The loop of gcd. */
  function Gcd(x: Number, y: Number, turns: nat): Result<Number>
    decreases turns
  {
    if y.len == 0 then Is(x)
    else if turns == 0 then Undefined
    else
      var z := Divide(x, y, turns);
      if z.Undefined? then Undefined else Gcd(y, z.value.1, turns - 1)
  }

  /** The loop of invert, and what comes after it. */
  function InvertFrom(b: Number, x: Number, y: Number, anew: Number, aold: Number, even: bool, turns: nat): Result<Number>
    decreases turns
  {
    if y.len == 0 then (if even then Subtract(b, aold) else Is(aold))
    else if turns == 0 then Undefined
    else
      var z := Divide(x, y, turns);
      if z.Undefined? then Undefined
      else
        var m := Multiply(z.value.0, anew);
        if m.Undefined? then Undefined
        else
          var s := Add(m.value, aold);
          if s.Undefined? then Undefined
          else InvertFrom(b, y, z.value.1, s.value, anew, !even, turns - 1)
  }

  /** invert */
  function Invert(a: Number, b: Number, turns: nat): Result<Number> {
    InvertFrom(b, b.Moved(), a.Moved(), ONE, NONE, true, turns)
  }
}
