/** m_in and m_out of mout.c: numbers as text in a small radix. */
module RadixIO {
  import opened Machine
  import opened Digits
  import opened Mints
  import opened AddSub
  import opened Multiplication
  import opened ShortDivision
  import opened LongDivision

  /** The end of a read: whether it met the end of the file, the number, and the text not read. */
  datatype Scan = Scan(eof: bool, value: int, rest: string)

  predicate IsDigit(c: char) {
    '0' <= c <= '9'
  }

  function DigitOf(c: char): nat
    requires IsDigit(c)
  {
    c as int - '0' as int
  }

  /** What m_in makes of a text, from the value and sign collected so far. A backslash hides the
      character after it, blanks are skipped, every minus sign flips the sign, and a tab, a newline
      or any other character ends the number. That other character is given back to the standard
      input, whether or not it came from there. The end of the file leaves the sign unapplied. */
  function Read(s: string, base: nat, acc: nat, sign: int, fromStdin: bool): Scan
    decreases |s|
  {
    if s == "" then Scan(true, acc, "")
    else if s[0] == '\\' then Read(if |s| > 1 then s[2..] else "", base, acc, sign, fromStdin)
    else if s[0] == '\t' || s[0] == '\n' then Scan(false, acc * sign, s[1..])
    else if s[0] == ' ' then Read(s[1..], base, acc, sign, fromStdin)
    else if s[0] == '-' then Read(s[1..], base, acc, -sign, fromStdin)
    else if IsDigit(s[0]) then Read(s[1..], base, acc * base + DigitOf(s[0]), sign, fromStdin)
    else Scan(false, acc * sign, if fromStdin then s else s[1..])
  }

  /** m_in: read a number in radix `base`. */
  method ReadNumber(s: string, base: Digit, fromStdin: bool) returns (eof: bool, a: Mint, rest: string)
    requires base > 0
    ensures Scan(eof, a.Value(), rest) == Read(s, base, 0, 1, fromStdin)
  {
    hide Val, Storage.Value;
    a := ZERO;
    NoDigits();
    var sign := 1;
    var pos := 0;
    OneDigit(base);
    assert s[0..] == s;
    while pos < |s|
      invariant 0 <= pos <= |s| && (sign == 1 || sign == -1)
      invariant a.len >= 0 && a.Value() >= 0
      invariant Read(s[pos..], base, a.Value(), sign, fromStdin) == Read(s, base, 0, 1, fromStdin)
    {
      var c := s[pos];
      ReadNext(s, pos, base, a.Value(), sign, fromStdin);
      pos := pos + 1;
      match c
      case '\\' =>
        if pos < |s| {
          pos := pos + 1;
        }
      case '\t' | '\n' =>
        ApplySign(a, sign);
        a := Mint(a.len * sign, a.val);
        return false, a, s[pos..];
      case ' ' =>
      case '-' =>
        sign := -sign;
      case _ =>
        if '0' <= c <= '9' {
          var y: Digit := DigitOf(c);
          OneDigit(y);
          a := Multiply(a, Mint(1, [base]));
          a := Add(a, Mint(1, [y]));
          MintSign(a);
        } else {
          ApplySign(a, sign);
          a := Mint(a.len * sign, a.val);
          return false, a, if fromStdin then s[pos - 1..] else s[pos..];
        }
    }
    return true, a, "";
  }

  lemma NoDigits()
    ensures ZERO.Value() == 0
  {
    assert ZERO.Digits() == [];
  }

  lemma ApplySign(a: Mint, sign: int)
    requires sign == 1 || sign == -1
    ensures Abs(a.len * sign) == Abs(a.len)
    ensures Mint(a.len * sign, a.val).Value() == a.Value() * sign
  {
    Negated(a);
    assert a.len * sign == if sign == 1 then a.len else -a.len;
  }

  /** One character read. */
  lemma ReadNext(s: string, pos: nat, base: nat, acc: nat, sign: int, fromStdin: bool)
    requires pos < |s|
    ensures var c, more := s[pos], s[pos + 1..];
      Read(s[pos..], base, acc, sign, fromStdin) ==
        if c == '\\' then Read(if more == "" then "" else s[pos + 2..], base, acc, sign, fromStdin)
        else if c == '\t' || c == '\n' then Scan(false, acc * sign, more)
        else if c == ' ' then Read(more, base, acc, sign, fromStdin)
        else if c == '-' then Read(more, base, acc, -sign, fromStdin)
        else if IsDigit(c) then Read(more, base, acc * base + DigitOf(c), sign, fromStdin)
        else Scan(false, acc * sign, if fromStdin then s[pos..] else more)
  {
    assert s[pos..][1..] == s[pos + 1..];
    if pos + 1 < |s| {
      assert s[pos..][2..] == s[pos + 2..];
    }
  }

  /** Digits in groups of ten, counted from the right, with a blank between groups. */
  predicate Grouped(body: string, base: nat) {
    forall i :: 0 <= i < |body| ==> GroupedAt(body[i], |body| - 1 - i, base)
  }

  predicate GroupedAt(c: char, k: nat, base: nat) {
    if k % 11 == 10 then c == ' ' else IsDigit(c) && DigitOf(c) < base
  }

  lemma GroupedMore(c: char, body: string, base: nat)
    requires Grouped(body, base) && GroupedAt(c, |body|, base)
    ensures Grouped([c] + body, base)
  {
    var t := [c] + body;
    forall i | 0 <= i < |t|
      ensures GroupedAt(t[i], |t| - 1 - i, base)
    {
      if i > 0 {
        assert t[i] == body[i - 1];
      }
    }
  }

  /** The text after k digits have been written and x is still to come: reading it from x gives the
      whole number back. */
  ghost predicate Printed(t: string, base: Digit, x: nat, n: nat) {
    && Read(t + "\n", base, x, 1, false) == Scan(false, n, "")
    && Read(t + "\n", base, x, -1, false) == Scan(false, 0 - n, "")
  }

  lemma PrintedStart(base: Digit, n: nat)
    ensures Printed("", base, n, n)
  {
    assert ("" + "\n")[1..] == "";
  }

  lemma PrintedDigit(t: string, base: Digit, x: nat, n: nat, q: nat, r: nat)
    requires Printed(t, base, x, n) && x == base * q + r && r < base <= 10
    ensures Printed([(r + '0' as int) as char] + t, base, q, n)
  {
    var c := (r + '0' as int) as char;
    assert ([c] + t + "\n")[1..] == t + "\n";
    assert DigitOf(c) == r;
    assert q * base == base * q;
  }

  lemma PrintedBlank(t: string, base: Digit, x: nat, n: nat)
    requires Printed(t, base, x, n)
    ensures Printed(" " + t, base, x, n)
  {
    assert (" " + t + "\n")[1..] == t + "\n";
  }

  lemma PrintedAll(t: string, base: Digit, n: nat, fromStdin: bool)
    requires Printed(t, base, 0, n)
    ensures Read(t + "\n", base, 0, 1, fromStdin) == Scan(false, n, "")
    ensures Read("-" + t + "\n", base, 0, 1, fromStdin) == Scan(false, 0 - n, "")
  {
    assert ("-" + t + "\n")[1..] == t + "\n";
    SourceOfText(t + "\n", base, 0, 1, fromStdin);
    SourceOfText(t + "\n", base, 0, -1, fromStdin);
  }

  /** Where a text that ends inside itself came from makes no difference. */
  lemma {:induction false} SourceOfText(s: string, base: nat, acc: nat, sign: int, fromStdin: bool)
    requires Read(s, base, acc, sign, false).rest == "" && s != "" && s[|s| - 1] == '\n'
    ensures Read(s, base, acc, sign, fromStdin) == Read(s, base, acc, sign, false)
    decreases |s|
  {
    if s[0] == '\\' {
      if |s| > 2 {
        SourceOfText(s[2..], base, acc, sign, fromStdin);
      }
    } else if s[0] == ' ' {
      SourceOfText(s[1..], base, acc, sign, fromStdin);
    } else if s[0] == '-' {
      SourceOfText(s[1..], base, acc, -sign, fromStdin);
    } else if IsDigit(s[0]) {
      SourceOfText(s[1..], base, acc * base + DigitOf(s[0]), sign, fromStdin);
    }
  }

  lemma {:induction false} RadixEight(len: nat)
    ensures BasePow(len) == Pow(8, 5 * len)
  {
    if len > 0 {
      RadixEight(len - 1);
      var n := 5 * (len - 1);
      assert Pow(8, n + 2) == 64 * Pow(8, n);
      assert Pow(8, n + 4) == 64 * Pow(8, n + 2);
      assert Pow(8, n + 5) == 8 * Pow(8, n + 4);
    }
  }

  lemma {:induction false} PowEightMonotone(m: nat, n: nat)
    requires m <= n
    ensures 1 <= Pow(8, m) <= Pow(8, n)
    decreases n
  {
    if m < n {
      PowEightMonotone(m, n - 1);
    } else if m > 0 {
      PowEightMonotone(m - 1, m - 1);
    }
  }

  /** In a radix of 8 or more a number of `len` digits of 15 bits is printed with at most 5 * len. */
  lemma DigitsLeft(x: nat, k: nat, n: nat, len: nat)
    requires x > 0 && Times(x, Pow(8, k)) <= n < BasePow(len)
    ensures k < 5 * len
  {
    RadixEight(len);
    if k >= 5 * len {
      PowEightMonotone(5 * len, k);
      MulLe(1, x, Pow(8, k));
    }
  }

  lemma DigitsStep(x: nat, k: nat, n: nat, base: nat, q: nat, r: nat)
    requires Times(x, Pow(8, k)) <= n && x == base * q + r && base >= 8
    ensures Times(q, Pow(8, k + 1)) <= n
  {
    PowEightMonotone(k, k);
    MulLe(8, base, q);
    MulLe(8 * q, x, Pow(8, k));
    MulAssoc(8, q, Pow(8, k));
    MulAssoc(q, 8, Pow(8, k));
  }

  lemma DigitsStart(n: nat)
    ensures Times(n, Pow(8, 0)) == n
  {}

  /** The state of m_out after k digits and g blanks have gone into `body`, with x still to print. */
  ghost predicate Progress(body: string, base: Digit, x: nat, n: nat, len: nat, k: nat, g: nat) {
    && |body| == k + g
    && Times(x, Pow(8, k)) <= n < BasePow(len)
    && Printed(body, base, x, n)
    && Grouped(body, base)
    && (x == 0 ==> k <= 5 * len && body != "" && body[0] != '0' && body[0] != ' ')
  }

  lemma ProgressDigit(body: string, base: Digit, x: nat, n: nat, len: nat, k: nat, g: nat, q: nat, r: nat)
    requires Progress(body, base, x, n, len, k, g) && x > 0 && 10 * g <= k < 10 * g + 10
    requires 8 <= base <= 10 && x == base * q + r && r < base && (q == 0 ==> r > 0)
    ensures k < 5 * len
    ensures Progress([(r + '0' as int) as char] + body, base, q, n, len, k + 1, g)
  {
    hide Printed, Grouped;
    DigitsLeft(x, k, n, len);
    PrintedDigit(body, base, x, n, q, r);
    DigitsStep(x, k, n, base, q, r);
    GroupedMore((r + '0' as int) as char, body, base);
  }

  lemma ProgressBlank(body: string, base: Digit, x: nat, n: nat, len: nat, k: nat, g: nat)
    requires Progress(body, base, x, n, len, k, g) && x > 0 && k == 10 * g + 10
    ensures k < 5 * len
    ensures Progress(" " + body, base, x, n, len, k, g + 1)
  {
    hide Printed, Grouped;
    DigitsLeft(x, k, n, len);
    PrintedBlank(body, base, x, n);
    GroupedMore(' ', body, base);
  }

  lemma ProgressStart(base: Digit, x: Mint)
    requires x.len > 0 && x.Normal()
    ensures x.Value() > 0 && Progress("", base, x.Value(), x.Value(), x.len, 0, 0)
  {
    NormalSign(x);
    ValBound(x.Digits());
    PrintedStart(base, x.Value());
    DigitsStart(x.Value());
  }

  lemma ProgressEnd(body: string, base: Digit, n: nat, len: nat, k: nat, g: nat)
    requires Progress(body, base, 0, n, len, k, g)
    ensures Grouped(body, base) && |body| == k + g && k <= 5 * len
    ensures body != "" && body[0] != '0' && body[0] != ' '
    ensures forall fromStdin :: Read(body + "\n", base, 0, 1, fromStdin) == Scan(false, n, "")
    ensures forall fromStdin :: Read("-" + body + "\n", base, 0, 1, fromStdin) == Scan(false, 0 - n, "")
  {
    forall fromStdin: bool
      ensures Read(body + "\n", base, 0, 1, fromStdin) == Scan(false, n, "")
      ensures Read("-" + body + "\n", base, 0, 1, fromStdin) == Scan(false, 0 - n, "")
    {
      PrintedAll(body, base, n, fromStdin);
    }
  }

  /** The inner loop of m_out: up to ten digits, written downwards from bp. */
  method WriteGroup(x0: Mint, base: Digit, obuf: array<char>, bp0: int, ghost body0: string, ghost n: nat,
                    ghost len: nat, ghost k0: nat, ghost g: nat)
    returns (x: Mint, bp: int, ghost body: string, ghost k: nat)
    requires 8 <= base <= 10 && x0.Normal() && x0.len > 0 && x0.Value() > 0 && k0 == 10 * g
    requires len > 0 && obuf.Length == 7 * len && bp0 == 7 * len - 2 - k0 - g
    requires -1 <= bp0 && body0 == obuf[bp0 + 1..7 * len - 1]
    requires Progress(body0, base, x0.Value(), n, len, k0, g)
    modifies obuf
    ensures x.Normal() && x.len >= 0 && 0 <= x.Value() < x0.Value() && (x.len == 0 <==> x.Value() == 0)
    ensures k0 < k <= k0 + 10 && bp == 7 * len - 2 - k - g && (x.len > 0 ==> k == k0 + 10)
    ensures -1 <= bp && body == obuf[bp + 1..7 * len - 1]
    ensures Progress(body, base, x.Value(), n, len, k, g)
  {
    hide Val, Storage.Value, Storage.Normal, Progress, Divides;
    x, bp, body, k := x0, bp0, body0, k0;
    NormalSign(x);
    var i := 0;
    while i < 10 && x.len > 0
      invariant 0 <= i <= 10 && k == k0 + i
      invariant x.Normal() && x.len >= 0 && 0 <= x.Value() && (x.len == 0 <==> x.Value() == 0)
      invariant if i == 0 then x == x0 else x.Value() < x0.Value()
      invariant bp == 7 * len - 2 - k - g && -1 <= bp && body == obuf[bp + 1..7 * len - 1]
      invariant Progress(body, base, x.Value(), n, len, k, g)
    {
      var q, r := Divide(x, base);
      MintSign(q);
      QuotientSmaller(x.Value(), base, q.Value(), r);
      ProgressDigit(body, base, x.Value(), n, len, k, g, q.Value(), r);
      var c := (r + '0' as int) as char;
      obuf[bp] := c;
      body := [c] + body;
      bp := bp - 1;
      x := q;
      NormalSign(x);
      k := k + 1;
      i := i + 1;
    }
  }

  /** m_out: print a number in radix 8 or 10, from a buffer of 7 * |len| bytes filled backwards. What
      is printed reads back as the number. */
  method WriteNumber(a: Mint, base: Digit) returns (text: string, ghost body: string)
    requires a.Normal() && 8 <= base <= 10
    ensures forall fromStdin :: Read(text, base, 0, 1, fromStdin) == Scan(false, a.Value(), "")
    ensures text == (if a.len < 0 then "-" else "") + body + "\n"
    ensures Grouped(body, base) && body != "" && body[0] != ' ' && (body[0] == '0' <==> body == "0")
  {
    hide Val, Storage.Value, Storage.Normal, Progress, Grouped, Read;
    var sign, xlen := 1, a.len;
    Negated(a);
    NormalSign(a);
    if xlen < 0 {
      xlen := -xlen;
      sign := -1;
    }
    if xlen == 0 {
      ZeroText(base);
      return "0\n", "0";
    }
    var x: Mint := Mint(xlen, a.val);
    ghost var n := x.Value();
    var obuf := new char[7 * xlen];
    var bp := 7 * xlen - 1;
    obuf[bp] := 0 as char;
    bp := bp - 1;
    body := "";
    ghost var k, g := 0, 0;
    ProgressStart(base, x);
    while x.len > 0
      invariant x.Normal() && x.len >= 0 && x.Value() >= 0 && (x.len == 0 <==> x.Value() == 0)
      invariant k >= 0 && g >= 0 && bp == 7 * xlen - 2 - k - g && -1 <= bp && body == obuf[bp + 1..7 * xlen - 1]
      invariant if x.len > 0 then k == 10 * g else 10 * g < k
      invariant Progress(body, base, x.Value(), n, xlen, k, g)
      decreases x.Value()
    {
      x, bp, body, k := WriteGroup(x, base, obuf, bp, body, n, xlen, k, g);
      if x.len > 0 {
        ProgressBlank(body, base, x.Value(), n, xlen, k, g);
        obuf[bp] := ' ';
        body := " " + body;
        bp := bp - 1;
        g := g + 1;
      }
    }
    ProgressEnd(body, base, n, xlen, k, g);
    if sign == -1 {
      obuf[bp] := '-';
      bp := bp - 1;
    }
    ghost var printed := (if a.len < 0 then "-" else "") + body;
    assert printed == obuf[bp + 1..7 * xlen - 1];
    text := obuf[bp + 1..7 * xlen - 1] + "\n";
  }

  lemma ZeroText(base: Digit)
    requires 8 <= base <= 10
    ensures forall fromStdin :: Read("0\n", base, 0, 1, fromStdin) == Scan(false, 0, "")
    ensures Grouped("0", base)
  {
    assert "0\n"[1..] == "\n" && "\n"[1..] == "";
    forall fromStdin: bool
      ensures Read("0\n", base, 0, 1, fromStdin) == Scan(false, 0, "")
    {
      assert Read("0\n", base, 0, 1, fromStdin) == Read("\n", base, 0 * base + 0, 1, fromStdin);
    }
  }

  lemma QuotientSmaller(x: int, base: int, q: int, r: int)
    requires x > 0 && base >= 8 && q >= 0 && Divides(x, base, false, q, r)
    ensures x == base * q + r && 0 <= r < base && 0 <= q < x
    ensures q == 0 ==> r > 0
  {
    MulLe(8, base, q);
  }

  /** Reading back what was printed gives the same number. */
  method PrintAndRead(a: Mint, base: Digit, fromStdin: bool) returns (b: Mint)
    requires a.Normal() && 8 <= base <= 10
    ensures b.Value() == a.Value()
  {
    var text, body := WriteNumber(a, base);
    var eof, c, rest := ReadNumber(text, base, fromStdin);
    b := c;
  }

  // ----- What a text says -----

  /** The value of digits in a radix, each at its place. */
  function Placed(s: string, base: nat): int
    requires forall k :: 0 <= k < |s| ==> 48 <= s[k] as int <= 57
  {
    if s == "" then 0 else (s[0] as int - 48) * Pow(base, |s| - 1) + Placed(s[1..], base)
  }

  /** Digits up to the end of a line are read as their value in the radix, and negated after a minus sign. */
  lemma {:induction false} DigitsRead(s: string, base: nat, acc: nat, sign: int, after: string, fromStdin: bool)
    requires forall k :: 0 <= k < |s| ==> 48 <= s[k] as int <= 57
    ensures Read(s + "\n" + after, base, acc, sign, fromStdin)
         == Scan(false, (acc * Pow(base, |s|) + Placed(s, base)) * sign, after)
    decreases |s|
  {
    var text := s + "\n" + after;
    if s == "" {
      assert text[0] == '\n' && text[1..] == after;
      assert Pow(base, 0) == 1;
    } else {
      assert text[0] == s[0] && text[1..] == s[1..] + "\n" + after;
      DigitsRead(s[1..], base, acc * base + DigitOf(s[0]), sign, after, fromStdin);
      NextPlace(acc, base, DigitOf(s[0]), Pow(base, |s| - 1));
    }
  }

  lemma NextPlace(acc: int, base: int, digit: int, p: int)
    ensures (acc * base + digit) * p == acc * (base * p) + digit * p
  {
    MulDistribute(acc * base, digit, p);
    MulAssoc(acc, base, p);
  }

  lemma MinusRead(s: string, base: nat, after: string, fromStdin: bool)
    requires forall k :: 0 <= k < |s| ==> 48 <= s[k] as int <= 57
    ensures Read(s + "\n" + after, base, 0, 1, fromStdin) == Scan(false, Placed(s, base), after)
    ensures Read("-" + s + "\n" + after, base, 0, 1, fromStdin) == Scan(false, 0 - Placed(s, base), after)
  {
    DigitsRead(s, base, 0, 1, after, fromStdin);
    DigitsRead(s, base, 0, -1, after, fromStdin);
    assert ("-" + s + "\n" + after)[1..] == s + "\n" + after;
  }
}
