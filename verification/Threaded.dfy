/** miniforth: a dictionary of threaded code, what its words mean, and the inner interpreter that
    runs them one cell at a time (walk.c, initdict.c, stack.c). Addresses count cells; a code field,
    which in C holds a function pointer, holds the name of the function. */
module Threaded {

  /** The C functions behind code fields. */
  datatype Code =
    | DoColon | DoConstant | DoVariable
    | Plus | Minus | Times | Divide | Print | Drop | Dup | Depth | Fetch | Store | Bye
    | Exit | Literal
    | Colon | Semicolon | Variable | Constant

  /** Words that a definition may call: not the return-stack and literal primitives, and not those
      that parse the input or change the state. */
  predicate Callable(c: Code) {
    !(c.Exit? || c.Literal? || c.Colon? || c.Semicolon? || c.Variable? || c.Constant?)
  }

  const MAXSTACK := 100
  // five cells more than MAXSTACK, which a stack that runs empty may read
  const STACK_CELLS := 105

  /** A 32-bit cell. */
  type Cell = n: int | -0x8000_0000 <= n < 0x8000_0000

  function Wrap(n: int): Cell {
    (n + 0x8000_0000) % 0x1_0000_0000 - 0x8000_0000
  }

  /** C division, which truncates towards zero. */
  function Quotient(a: int, b: int): int
    requires b != 0
  {
    var q := (if a < 0 then -a else a) / (if b < 0 then -b else b);
    if (a < 0) != (b < 0) then -q else q
  }

  type StackCells = s: seq<Cell> | |s| == STACK_CELLS witness seq(STACK_CELLS, _ => 0)

  /** What words work on: the data stack, which grows down from cell 100 of its array, the cells
      behind variables, and what has been printed. */
  datatype Data = Data(stack: StackCells, sp: int, vars: map<int, Cell>, out: seq<Cell>)

  /** A word ends, ends the program, or does what C leaves undefined. */
  datatype Outcome = Done(d: Data) | Stopped(d: Data) | Undefined

  function Push(d: Data, n: Cell): (o: Outcome)
    ensures !o.Stopped?
  {
    if 0 < d.sp <= STACK_CELLS then Done(d.(stack := d.stack[d.sp - 1 := n], sp := d.sp - 1)) else Undefined
  }

  /** The k-th cell from the top can be read. */
  predicate Holds(d: Data, k: nat) {
    0 <= d.sp && d.sp + k < STACK_CELLS
  }

  function Top(d: Data, k: nat): Cell
    requires Holds(d, k)
  {
    d.stack[d.sp + k]
  }

  function Binary(d: Data, n: Cell): Outcome
    requires Holds(d, 1)
  {
    Push(d.(sp := d.sp + 2), n)
  }

  /** The C functions that touch nothing but the data. Fetching and storing are only defined on the
      cells behind variables. */
  function Primitive(c: Code, d: Data): Outcome
    requires Callable(c) && !c.DoColon? && !c.DoConstant? && !c.DoVariable?
  {
    match c
    case Plus => if Holds(d, 1) then Binary(d, Wrap(Top(d, 0) + Top(d, 1))) else Undefined
    case Minus => if Holds(d, 1) then Binary(d, Wrap(Top(d, 1) - Top(d, 0))) else Undefined
    case Times => if Holds(d, 1) then Binary(d, Wrap(Top(d, 0) * Top(d, 1))) else Undefined
    case Divide =>
      if Holds(d, 1) && Top(d, 0) != 0 then Binary(d, Wrap(Quotient(Top(d, 1), Top(d, 0)))) else Undefined
    case Print => if Holds(d, 0) then Done(d.(sp := d.sp + 1, out := d.out + [Top(d, 0)])) else Undefined
    case Drop => if Holds(d, 0) then Done(d.(sp := d.sp + 1)) else Undefined
    case Dup => if Holds(d, 0) then Push(d, Top(d, 0)) else Undefined
    case Depth => Push(d, Wrap(MAXSTACK - d.sp))
    case Fetch =>
      if Holds(d, 0) && Top(d, 0) in d.vars then Push(d.(sp := d.sp + 1), d.vars[Top(d, 0)]) else Undefined
    case Store =>
      if Holds(d, 1) && Top(d, 0) in d.vars then
        Done(d.(sp := d.sp + 2, vars := d.vars[Top(d, 0) := Top(d, 1)]))
      else Undefined
    case Bye => Stopped(d)
  }

  /** The dictionary as compiled so far: its cells up to `here`, and the code fields among them. The
      cell of a variable's body is kept in the data. */
  datatype Dict = Dict(mem: seq<Cell>, code: map<int, Code>)

  // the first two words init_dictionary makes that colon definitions are built from
  const UNNESTER: Cell := 9
  const DOLIT: Cell := 59

  /** The cells from ip on are threaded code that comes to an unnester, and call only words defined
      before xt. */
  predicate BodyFrom(D: Dict, xt: int, ip: int)
    decreases |D.mem| - ip
  {
    && 0 <= ip < |D.mem|
    && var c := D.mem[ip];
       if c == UNNESTER then true
       else if c == DOLIT then ip + 1 < |D.mem| && BodyFrom(D, xt, ip + 2)
       else c in D.code && c < xt && Callable(D.code[c]) && BodyFrom(D, xt, ip + 1)
  }

  /** A word that is complete: what its code field needs after it is there. */
  predicate Complete(D: Dict, xt: int) {
    && xt in D.code && 0 <= xt < |D.mem|
    && (D.code[xt].DoColon? ==> BodyFrom(D, xt, xt + 1))
    && (D.code[xt].DoConstant? ==> xt + 1 < |D.mem|)
    && (D.code[xt].DoVariable? ==> xt + 1 < 0x8000_0000)
  }

  /** Every word below `limit` is complete. */
  ghost predicate Sound(D: Dict, limit: int) {
    && UNNESTER in D.code && D.code[UNNESTER] == Exit
    && DOLIT in D.code && D.code[DOLIT] == Literal
    && forall xt :: xt in D.code && xt < limit ==> Complete(D, xt)
  }

  /** What a word means. Definitions only call earlier words, so the order of definition is the
      measure. */
  ghost function Run(D: Dict, xt: int, d: Data): Outcome
    requires Sound(D, xt + 1) && xt in D.code && Callable(D.code[xt]) && xt >= 0
    decreases xt, |D.mem| + 1
  {
    assert Complete(D, xt);
    var c := D.code[xt];
    if c.DoColon? then RunBody(D, xt, xt + 1, d)
    else if c.DoConstant? then Push(d, D.mem[xt + 1])
    else if c.DoVariable? then Push(d, xt + 1)
    else Primitive(c, d)
  }

  ghost function RunBody(D: Dict, xt: int, ip: int, d: Data): Outcome
    requires Sound(D, xt) && BodyFrom(D, xt, ip)
    decreases xt, |D.mem| - ip
  {
    var c := D.mem[ip];
    if c == UNNESTER then Done(d)
    else if c == DOLIT then
      match Push(d, D.mem[ip + 1])
      case Done(d') => RunBody(D, xt, ip + 2, d')
      case o => o
    else
      assert Complete(D, c);
      match Run(D, c, d)
      case Done(d') => RunBody(D, xt, ip + 1, d')
      case o => o
  }

  /** How many return addresses a word can pile up. */
  ghost function Nesting(D: Dict, xt: int): nat
    requires Sound(D, xt + 1) && xt in D.code && Callable(D.code[xt]) && xt >= 0
    decreases xt, |D.mem| + 1
  {
    if D.code[xt].DoColon? then
      assert Complete(D, xt);
      1 + BodyNesting(D, xt, xt + 1)
    else 0
  }

  ghost function BodyNesting(D: Dict, xt: int, ip: int): nat
    requires Sound(D, xt) && BodyFrom(D, xt, ip)
    decreases xt, |D.mem| - ip
  {
    var c := D.mem[ip];
    if c == UNNESTER then 0
    else if c == DOLIT then BodyNesting(D, xt, ip + 2)
    else
      assert Complete(D, c);
      var first, rest := Nesting(D, c), BodyNesting(D, xt, ip + 1);
      if first < rest then rest else first
  }

  // ----- The inner interpreter -----

  // executer[2] and the bare code field it ends in, outside the dictionary
  const EXECUTER: int := -3
  const FINISHER: int := -1

  /** ip, the return stack (top first) and the data; the executer's first cell is fixed during a run. */
  datatype Machine = Machine(ip: int, rs: seq<int>, d: Data)

  /** One turn of walk's loop: on to the next turn, out of the loop, out of the program, or undefined. */
  datatype Turn = Next(m: Machine) | Finished(d: Data) | Exited(d: Data) | Stuck

  function After(m: Machine, o: Outcome): Turn {
    match o
    case Done(d) => Next(m.(d := d))
    case Stopped(d) => Exited(d)
    case Undefined => Stuck
  }

  predicate Readable(D: Dict, ip: int) {
    ip == EXECUTER || ip == EXECUTER + 1 || 0 <= ip < |D.mem|
  }

  function CellAt(D: Dict, start: int, ip: int): int
    requires Readable(D, ip)
  {
    if ip == EXECUTER then start else if ip == EXECUTER + 1 then FINISHER else D.mem[ip]
  }

  /** w = *ip++; then through the code field of w. */
  function Step(D: Dict, start: int, m: Machine): Turn {
    if !Readable(D, m.ip) then Stuck
    else
      var w, n := CellAt(D, start, m.ip), m.(ip := m.ip + 1);
      if w == FINISHER then Finished(m.d)
      else if w !in D.code then Stuck
      else Call(D, w, n)
  }

  /** ((code_field_t)(*w))(), with ip already past the cell. */
  function Call(D: Dict, w: int, n: Machine): Turn
    requires w in D.code
  {
    var c := D.code[w];
    if c.DoColon? then if |n.rs| < MAXSTACK then Next(Machine(w + 1, [n.ip] + n.rs, n.d)) else Stuck
    else if c.Exit? then if n.rs == [] then Stuck else Next(Machine(n.rs[0], n.rs[1..], n.d))
    else if c.Literal? then
      if 0 <= n.ip < |D.mem| then After(n.(ip := n.ip + 1), Push(n.d, D.mem[n.ip])) else Stuck
    else if c.DoConstant? then if 0 <= w + 1 < |D.mem| then After(n, Push(n.d, D.mem[w + 1])) else Stuck
    else if c.DoVariable? then
      if -0x8000_0000 <= w + 1 < 0x8000_0000 then After(n, Push(n.d, w + 1)) else Stuck
    else if !Callable(c) then Stuck
    else After(n, Primitive(c, n.d))
  }

  /** n turns, or as many as there are before the loop is left. */
  function Steps(D: Dict, start: int, m: Machine, n: nat): Turn
    decreases n
  {
    if n == 0 then Next(m)
    else match Step(D, start, m)
    case Next(m') => Steps(D, start, m', n - 1)
    case t => t
  }

  lemma {:induction false} StepsAdd(D: Dict, start: int, m: Machine, n: nat, k: nat)
    ensures Steps(D, start, m, n).Next? ==>
      Steps(D, start, m, n + k) == Steps(D, start, Steps(D, start, m, n).m, k)
    ensures !Steps(D, start, m, n).Next? ==> Steps(D, start, m, n + k) == Steps(D, start, m, n)
    decreases n
  {
    if n > 0 {
      match Step(D, start, m)
      case Next(m') => StepsAdd(D, start, m', n - 1, k);
      case _ =>
    }
  }

  /** What a run of turns must come to, if the word's meaning is defined. */
  ghost predicate Realizes(t: Turn, o: Outcome, ip: int, rs: seq<int>) {
    match o
    case Done(d) => t == Next(Machine(ip, rs, d))
    case Stopped(d) => t == Exited(d)
    case Undefined => true
  }

  /** The inner interpreter carries out a word's meaning, and comes back to the next cell with the
      return stack as it was. */
  lemma {:induction false} WordRuns(D: Dict, start: int, xt: int, m: Machine) returns (n: nat)
    requires Sound(D, xt + 1) && xt in D.code && Callable(D.code[xt]) && xt >= 0
    requires Readable(D, m.ip) && CellAt(D, start, m.ip) == xt && |m.rs| + Nesting(D, xt) <= MAXSTACK
    ensures Realizes(Steps(D, start, m, n), Run(D, xt, m.d), m.ip + 1, m.rs)
    decreases xt, |D.mem| + 1
  {
    assert Complete(D, xt);
    if D.code[xt].DoColon? {
      var inner := Machine(xt + 1, [m.ip + 1] + m.rs, m.d);
      var k := BodyRuns(D, start, xt, inner);
      n := 1 + k;
      assert Step(D, start, m) == Next(inner);
    } else {
      n := 1;
      var t := Step(D, start, m);
      assert Steps(D, start, m, 1) == t by {
        if t.Next? {
          assert Steps(D, start, t.m, 0) == t;
        }
      }
    }
  }

  lemma {:induction false} BodyRuns(D: Dict, start: int, xt: int, m: Machine) returns (n: nat)
    requires Sound(D, xt) && BodyFrom(D, xt, m.ip)
    requires m.rs != [] && |m.rs| + BodyNesting(D, xt, m.ip) <= MAXSTACK
    ensures Realizes(Steps(D, start, m, n), RunBody(D, xt, m.ip, m.d), m.rs[0], m.rs[1..])
    decreases xt, |D.mem| - m.ip
  {
    var c := D.mem[m.ip];
    if c == UNNESTER {
      n := 1;
      assert Steps(D, start, Machine(m.rs[0], m.rs[1..], m.d), 0).Next?;
    } else if c == DOLIT {
      var o := Push(m.d, D.mem[m.ip + 1]);
      n := 1;
      if o.Done? {
        var k := BodyRuns(D, start, xt, Machine(m.ip + 2, m.rs, o.d));
        n := 1 + k;
      }
    } else {
      assert Complete(D, c);
      var k := WordRuns(D, start, c, m);
      var o := Run(D, c, m.d);
      n := k;
      if o.Done? {
        var l := BodyRuns(D, start, xt, Machine(m.ip + 1, m.rs, o.d));
        StepsAdd(D, start, m, k, l);
        n := k + l;
      }
    }
  }
}
