/** What the words of miniforth do to the stack, said of the words by name: laws for all cells that take
    nothing from the functions behind the code fields (stack.c, initdict.c, number.c). */
module WordLaws {
  import opened Threaded
  import opened Definitions

  /** The cells from the top of the stack on. */
  function Contents(d: Data): seq<Cell>
    requires 0 <= d.sp <= STACK_CELLS
  {
    d.stack[d.sp..]
  }

  /** Interpreting went well, changed the stack from d's to these cells and nothing else. */
  ghost predicate Leaves(o: Outcome, d: Data, cells: seq<Cell>) {
    && o.Done? && 0 <= o.d.sp <= STACK_CELLS && Contents(o.d) == cells
    && o.d.vars == d.vars && o.d.out == d.out
  }

  /** The name is that of c, and can be used in definitions. */
  ghost predicate Named(D: Dict, words: seq<Word>, name: string, c: Code) {
    Headed(D, words) && StandsFor(D, words, name, c) && Plain(D, words, name)
  }

  predicate OnStack(d: Data, cells: seq<Cell>) {
    0 <= d.sp <= STACK_CELLS && cells <= Contents(d)
  }

  lemma OneWord(D: Dict, words: seq<Word>, name: string, d: Data)
    requires Headed(D, words) && Plain(D, words, name)
    ensures AllPlain(D, words, [name]) && Interpret(D, words, [name], d) == InterpretWord(D, words, name, d)
  {
    assert [name][0] == name && [name][1..] == [];
    var o := InterpretWord(D, words, name, d);
    if o.Done? {
      assert Interpret(D, words, [], o.d) == o;
    }
  }

  /** A cell pushed. */
  lemma Pushed(d: Data, n: Cell)
    requires 0 < d.sp <= STACK_CELLS
    ensures Leaves(Push(d, n), d, [n] + Contents(d))
  {
    var d' := Push(d, n).d;
    assert d'.stack[d'.sp..] == [n] + d.stack[d.sp..];
  }

  /** `x y +` leaves x + y, as far as 32 bits hold it. */
  lemma PlusLaw(D: Dict, words: seq<Word>, d: Data, x: Cell, y: Cell) returns (n: Cell)
    requires Named(D, words, "+", Plus) && OnStack(d, [y, x])
    ensures AllPlain(D, words, ["+"]) && Leaves(Interpret(D, words, ["+"], d), d, [n] + Contents(d)[2..])
    ensures (n as int - x as int - y as int) % 0x1_0000_0000 == 0
    ensures -0x8000_0000 <= x as int + y as int < 0x8000_0000 ==> n as int == x as int + y as int
  {
    hide Lookup, Sound;
    OneWord(D, words, "+", d);
    NamedRuns(D, words, "+", Plus, d);
    Read(d, [y, x]);
    n := Wrap(y as int + x as int);
    WrapKeeps(y as int + x as int);
    Pushed(d.(sp := d.sp + 2), n);
  }

  lemma Read(d: Data, cells: seq<Cell>)
    requires OnStack(d, cells)
    ensures d.sp + |cells| <= STACK_CELLS && forall k :: 0 <= k < |cells| ==> Holds(d, k) && Top(d, k) == cells[k]
  {
    forall k | 0 <= k < |cells|
      ensures Holds(d, k) && Top(d, k) == cells[k]
    {
      assert Contents(d)[k] == cells[k];
    }
  }

  lemma WrapKeeps(n: int)
    ensures (Wrap(n) as int - n) % 0x1_0000_0000 == 0
    ensures -0x8000_0000 <= n < 0x8000_0000 ==> Wrap(n) as int == n
  {}

  /** `x y -` leaves what y has to be added to for x. */
  lemma MinusLaw(D: Dict, words: seq<Word>, d: Data, x: Cell, y: Cell) returns (n: Cell)
    requires Named(D, words, "-", Minus) && OnStack(d, [y, x])
    ensures AllPlain(D, words, ["-"]) && Leaves(Interpret(D, words, ["-"], d), d, [n] + Contents(d)[2..])
    ensures (n as int + y as int - x as int) % 0x1_0000_0000 == 0
    ensures -0x8000_0000 <= x as int - y as int < 0x8000_0000 ==> n as int + y as int == x as int
  {
    hide Lookup, Sound;
    OneWord(D, words, "-", d);
    NamedRuns(D, words, "-", Minus, d);
    Read(d, [y, x]);
    n := Wrap(x as int - y as int);
    WrapKeeps(x as int - y as int);
    Pushed(d.(sp := d.sp + 2), n);
  }

  /** `x y *` leaves the product, as far as 32 bits hold it. */
  lemma TimesLaw(D: Dict, words: seq<Word>, d: Data, x: Cell, y: Cell) returns (n: Cell)
    requires Named(D, words, "*", Times) && OnStack(d, [y, x])
    ensures AllPlain(D, words, ["*"]) && Leaves(Interpret(D, words, ["*"], d), d, [n] + Contents(d)[2..])
    ensures (n as int - (x as int) * (y as int)) % 0x1_0000_0000 == 0
    ensures -0x8000_0000 <= (x as int) * (y as int) < 0x8000_0000 ==> n as int == (x as int) * (y as int)
  {
    hide Lookup, Sound, Wrap;
    OneWord(D, words, "*", d);
    NamedRuns(D, words, "*", Times, d);
    Read(d, [y, x]);
    n := Wrap((y as int) * (x as int));
    WrapKeeps((y as int) * (x as int));
    Pushed(d.(sp := d.sp + 2), n);
  }

  function Magnitude(n: int): nat {
    if n < 0 then -n else n
  }

  lemma AtLeastOnce(b: nat, q: nat)
    requires b > 0
    ensures q <= b * q && (b > 1 ==> 2 * q <= b * q)
  {
    if b > 1 {
      assert b * q == 2 * q + (b - 2) * q;
      NoLess(b - 2, q);
    }
  }

  lemma NoLess(a: nat, b: nat)
    ensures 0 <= a * b
  {}

  lemma QuotientTruncates(x: Cell, y: Cell)
    requires y != 0 && !(x == -0x8000_0000 && y == -1)
    ensures var q := Quotient(x, y);
      && -0x8000_0000 <= q < 0x8000_0000
      && Magnitude(q) * Magnitude(y) <= Magnitude(x) < Magnitude(q) * Magnitude(y) + Magnitude(y)
      && (q != 0 ==> (q < 0 <==> (x < 0) != (y < 0)))
  {
    var a, b := Magnitude(x), Magnitude(y);
    var q := Quotated(a, b);
    AtLeastOnce(b, q);
    assert Magnitude(Quotient(x, y)) == q;
  }

  lemma Quotated(a: nat, b: nat) returns (q: nat)
    requires b > 0
    ensures q == a / b && b * q <= a < b * q + b
  {
    q := a / b;
    assert a == b * q + a % b;
  }

  /** `x y /` leaves the quotient rounded towards zero, off the one that 32 bits do not hold. */
  lemma DivideLaw(D: Dict, words: seq<Word>, d: Data, x: Cell, y: Cell) returns (q: Cell)
    requires Named(D, words, "/", Divide) && OnStack(d, [y, x]) && y != 0 && !(x == -0x8000_0000 && y == -1)
    ensures AllPlain(D, words, ["/"]) && Leaves(Interpret(D, words, ["/"], d), d, [q] + Contents(d)[2..])
    ensures Magnitude(q) * Magnitude(y) <= Magnitude(x) < Magnitude(q) * Magnitude(y) + Magnitude(y)
    ensures q != 0 ==> (q < 0 <==> (x < 0) != (y < 0))
  {
    hide Lookup, Sound;
    OneWord(D, words, "/", d);
    NamedRuns(D, words, "/", Divide, d);
    Read(d, [y, x]);
    q := Wrap(Quotient(x, y));
    WrapKeeps(Quotient(x, y));
    QuotientTruncates(x, y);
    Pushed(d.(sp := d.sp + 2), q);
  }

  /** Dividing by zero is not defined. */
  lemma DivideByZero(D: Dict, words: seq<Word>, d: Data, x: Cell)
    requires Named(D, words, "/", Divide) && OnStack(d, [0, x])
    ensures AllPlain(D, words, ["/"]) && Interpret(D, words, ["/"], d) == Undefined
  {
    hide Lookup, Sound;
    OneWord(D, words, "/", d);
    NamedRuns(D, words, "/", Divide, d);
    Read(d, [0, x]);
  }

  /** `dup` leaves the top twice. */
  lemma DupLaw(D: Dict, words: seq<Word>, d: Data, x: Cell)
    requires Named(D, words, "dup", Dup) && OnStack(d, [x]) && d.sp > 0
    ensures AllPlain(D, words, ["dup"]) && Leaves(Interpret(D, words, ["dup"], d), d, [x] + Contents(d))
  {
    hide Lookup, Sound;
    OneWord(D, words, "dup", d);
    NamedRuns(D, words, "dup", Dup, d);
    Read(d, [x]);
    Pushed(d, x);
  }

  /** `drop` leaves all but the top. */
  lemma DropLaw(D: Dict, words: seq<Word>, d: Data, x: Cell)
    requires Named(D, words, "drop", Drop) && OnStack(d, [x])
    ensures AllPlain(D, words, ["drop"]) && Leaves(Interpret(D, words, ["drop"], d), d, Contents(d)[1..])
  {
    hide Lookup, Sound;
    OneWord(D, words, "drop", d);
    NamedRuns(D, words, "drop", Drop, d);
    Read(d, [x]);
  }

  /** `.` takes the top off the stack and puts it after what has been printed. */
  lemma PrintLaw(D: Dict, words: seq<Word>, d: Data, x: Cell)
    requires Named(D, words, ".", Print) && OnStack(d, [x])
    ensures AllPlain(D, words, ["."])
    ensures match Interpret(D, words, ["."], d)
            case Done(d') =>
              0 <= d'.sp <= STACK_CELLS && Contents(d') == Contents(d)[1..] && d'.out == d.out + [x] && d'.vars == d.vars
            case _ => false
  {
    hide Lookup, Sound;
    OneWord(D, words, ".", d);
    NamedRuns(D, words, ".", Print, d);
    Read(d, [x]);
  }

  /** `bye` ends the program and changes nothing. */
  lemma ByeLaw(D: Dict, words: seq<Word>, d: Data)
    requires Named(D, words, "bye", Bye)
    ensures AllPlain(D, words, ["bye"]) && Interpret(D, words, ["bye"], d) == Stopped(d)
  {
    hide Lookup, Sound;
    OneWord(D, words, "bye", d);
    NamedRuns(D, words, "bye", Bye, d);
  }

  /** A word that needs a cell, or two, is not defined on a stack that has none, or one. */
  lemma TooFewCells(D: Dict, words: seq<Word>, name: string, c: Code, d: Data)
    requires Named(D, words, name, c) && 0 <= d.sp <= STACK_CELLS
    requires if c in {Plus, Minus, Times, Divide, Store} then |Contents(d)| < 2
             else c in {Print, Drop, Dup, Fetch} && |Contents(d)| < 1
    ensures AllPlain(D, words, [name]) && Interpret(D, words, [name], d) == Undefined
  {
    hide Lookup, Sound;
    OneWord(D, words, name, d);
    NamedRuns(D, words, name, c, d);
  }

  // ----- Laws of several words -----

  lemma {:induction false} LastWord(D: Dict, words: seq<Word>, names: seq<string>, last: string, d: Data)
    requires Headed(D, words) && AllPlain(D, words, names) && Plain(D, words, last)
    ensures AllPlain(D, words, names + [last])
    ensures Interpret(D, words, names + [last], d)
         == match Interpret(D, words, names, d) case Done(d') => InterpretWord(D, words, last, d') case o => o
  {
    if names == [] {
      assert [] + [last] == [last];
      OneWord(D, words, last, d);
    } else {
      assert (names + [last])[0] == names[0] && (names + [last])[1..] == names[1..] + [last];
      assert Plain(D, words, names[0]);
      var o := InterpretWord(D, words, names[0], d);
      LastWord(D, words, names[1..], last, if o.Done? then o.d else d);
    }
  }

  /** `x y + y -` leaves x, for all cells x and y that names push. */
  lemma MinusUndoesPlus(D: Dict, words: seq<Word>, nx: string, x: Cell, ny: string, y: Cell, d: Data)
    requires Pushes(D, words, nx, x) && Pushes(D, words, ny, y) && 2 <= d.sp <= STACK_CELLS
    requires Named(D, words, "+", Plus) && Named(D, words, "-", Minus)
    ensures AllPlain(D, words, [nx, ny, "+", ny, "-"])
    ensures Leaves(Interpret(D, words, [nx, ny, "+", ny, "-"], d), d, [x] + Contents(d))
  {
    hide Lookup, Sound, Plain, Interpret, StandsFor;
    var rest := Contents(d);
    OneWord(D, words, nx, d);
    Pushed(d, x);
    var d1 := Push(d, x).d;
    LastWord(D, words, [nx], ny, d);
    assert [nx] + [ny] == [nx, ny];
    Pushed(d1, y);
    var d2 := Push(d1, y).d;
    assert Contents(d2) == [y, x] + rest;
    var n := PlusLaw(D, words, d2, x, y);
    LastWord(D, words, [nx, ny], "+", d);
    assert [nx, ny] + ["+"] == [nx, ny, "+"];
    OneWord(D, words, "+", d2);
    var d3 := InterpretWord(D, words, "+", d2).d;
    assert Contents(d3) == [n] + rest;
    LastWord(D, words, [nx, ny, "+"], ny, d);
    assert [nx, ny, "+"] + [ny] == [nx, ny, "+", ny];
    Pushed(d3, y);
    var d4 := Push(d3, y).d;
    assert Contents(d4) == [y, n] + rest;
    var m := MinusLaw(D, words, d4, n, y);
    LastWord(D, words, [nx, ny, "+", ny], "-", d);
    assert [nx, ny, "+", ny] + ["-"] == [nx, ny, "+", ny, "-"];
    OneWord(D, words, "-", d4);
    Cancels(x, y, n, m);
  }

  lemma Cancels(x: Cell, y: Cell, n: Cell, m: Cell)
    requires (n as int - x as int - y as int) % 0x1_0000_0000 == 0
    requires (m as int + y as int - n as int) % 0x1_0000_0000 == 0
    ensures m == x
  {
    assert (m as int - x as int) % 0x1_0000_0000 == 0;
  }

  /** `dup drop` changes nothing. */
  lemma DropUndoesDup(D: Dict, words: seq<Word>, d: Data)
    requires Named(D, words, "dup", Dup) && Named(D, words, "drop", Drop) && 0 < d.sp < STACK_CELLS
    ensures AllPlain(D, words, ["dup", "drop"]) && Leaves(Interpret(D, words, ["dup", "drop"], d), d, Contents(d))
  {
    hide Lookup, Sound, Plain, Interpret, StandsFor;
    var x := Top(d, 0);
    assert Contents(d)[0] == x;
    DupLaw(D, words, d, x);
    OneWord(D, words, "dup", d);
    var d1 := InterpretWord(D, words, "dup", d).d;
    DropLaw(D, words, d1, x);
    LastWord(D, words, ["dup"], "drop", d);
    assert ["dup"] + ["drop"] == ["dup", "drop"];
    OneWord(D, words, "drop", d1);
    assert ([x] + Contents(d))[1..] == Contents(d);
  }

  /** Names of constants, variables and the like. */
  ghost predicate AllPush(D: Dict, words: seq<Word>, names: seq<string>) {
    forall name :: name in names ==> exists n: Cell :: Pushes(D, words, name, n)
  }

  lemma {:induction false} Piles(D: Dict, words: seq<Word>, names: seq<string>, d: Data)
    requires Headed(D, words) && AllPush(D, words, names) && |names| <= d.sp <= STACK_CELLS
    ensures AllPlain(D, words, names)
    ensures match Interpret(D, words, names, d)
            case Done(d') => d'.sp == d.sp - |names|
            case _ => false
  {
    hide Lookup, Sound;
    if names != [] {
      assert names[0] in names;
      var n: Cell :| Pushes(D, words, names[0], n);
      assert forall name :: name in names[1..] ==> name in names;
      Piles(D, words, names[1..], Push(d, n).d);
    }
  }

  /** After names that each push a cell onto an empty stack `depth` leaves how many they are. */
  lemma DepthLaw(D: Dict, words: seq<Word>, names: seq<string>, d: Data)
    requires Named(D, words, "depth", Depth) && AllPush(D, words, names) && |names| < d.sp == MAXSTACK
    ensures AllPlain(D, words, names + ["depth"])
    ensures match Interpret(D, words, names + ["depth"], d)
            case Done(d') => 0 <= d'.sp < STACK_CELLS && Contents(d')[0] as int == |names|
            case _ => false
  {
    hide Lookup, Sound;
    Piles(D, words, names, d);
    LastWord(D, words, names, "depth", d);
    var d1 := Interpret(D, words, names, d).d;
    NamedRuns(D, words, "depth", Depth, d1);
    Pushed(d1, |names|);
  }

  // ----- Numbers -----

  function Ten(k: nat): int {
    if k == 0 then 1 else 10 * Ten(k - 1)
  }

  /** The value of a decimal numeral, each digit at its place. */
  function Decimal(s: string): int
    requires IsNumber(s)
  {
    if s == "" then 0 else (s[0] as int - 48) * Ten(|s| - 1) + Decimal(s[1..])
  }

  lemma {:induction false} DecimalLast(s: string, c: char)
    requires IsNumber(s) && '0' <= c <= '9'
    ensures IsNumber(s + [c]) && Decimal(s + [c]) == 10 * Decimal(s) + (c as int - 48)
  {
    if s == "" {
      assert ("" + [c])[1..] == "";
      assert Ten(0) == 1;
    } else {
      assert (s + [c])[1..] == s[1..] + [c] && (s + [c])[0] == s[0];
      DecimalLast(s[1..], c);
      Shifted(s[0] as int - 48, Ten(|s| - 1));
    }
  }

  lemma Shifted(digit: int, place: int)
    ensures digit * (10 * place) == 10 * (digit * place)
  {}

  /** A numeral stands for its decimal value, as far as 32 bits hold it. */
  lemma {:induction false} NumberLaw(s: string)
    requires IsNumber(s)
    ensures (NumberValue(s) as int - Decimal(s)) % 0x1_0000_0000 == 0
    decreases |s|
  {
    hide Wrap;
    if s != "" {
      var init, last := s[..|s| - 1], s[|s| - 1];
      assert s == init + [last];
      NumberLaw(init);
      DecimalLast(init, last);
      OneDigitMore(NumberValue(init), Decimal(init), last as int - 48);
    }
  }

  lemma OneDigitMore(n: int, m: int, digit: int)
    requires (n - m) % 0x1_0000_0000 == 0
    ensures (Wrap(n * 10 + digit) as int - (10 * m + digit)) % 0x1_0000_0000 == 0
  {
    WrapKeeps(n * 10 + digit);
  }

  /** A name that no word has and that is a numeral pushes its decimal value. */
  lemma LiteralLaw(D: Dict, words: seq<Word>, name: string) returns (n: Cell)
    requires Headed(D, words) && IsNumber(name) && Lookup(words, name).NotFound?
    ensures Pushes(D, words, name, n) && (n as int - Decimal(name)) % 0x1_0000_0000 == 0
  {
    hide Sound;
    n := NumberValue(name);
    NumberLaw(name);
  }
}
