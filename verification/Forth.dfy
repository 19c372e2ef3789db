/** miniforth as a running system: the C functions over their global variables, the inner and the
    outer interpreter, and the compiler's end-to-end correctness. */
module Forth {
  import opened Threaded
  import opened Definitions
  import WordLaws

  // MAXDICT bytes, in cells of four
  const MAXDICT := 0x4000

  const PRIMITIVES := 17

  /** What init_dictionary puts into the dictionary, in its order. */
  function Table(): (t: seq<(string, Code)>)
    ensures |t| == PRIMITIVES
  {
    [("exit", Exit), (";", Semicolon), (":", Colon), ("variable", Variable), ("constant", Constant),
     ("(literal)", Literal), ("+", Plus), ("-", Minus), ("*", Times), ("/", Divide), (".", Print), ("drop", Drop),
     ("dup", Dup), ("depth", Depth), ("@", Fetch), ("!", Store), ("bye", Bye)]
  }

  /** The code field of the i-th of them. */
  function CodeField(i: nat): nat {
    HEADER_CELLS * i + HEADER_CELLS - 1
  }

  /** The names, and what each stands for. */
  lemma NamesStand()
    ensures Table()[0] == ("exit", Exit) && Table()[1] == (";", Semicolon) && Table()[2] == (":", Colon)
    ensures Table()[3] == ("variable", Variable) && Table()[4] == ("constant", Constant)
    ensures Table()[5] == ("(literal)", Literal) && Table()[6] == ("+", Plus) && Table()[7] == ("-", Minus)
    ensures Table()[8] == ("*", Times) && Table()[9] == ("/", Divide) && Table()[10] == (".", Print)
    ensures Table()[11] == ("drop", Drop) && Table()[12] == ("dup", Dup) && Table()[13] == ("depth", Depth)
    ensures Table()[14] == ("@", Fetch) && Table()[15] == ("!", Store) && Table()[16] == ("bye", Bye)
  {}

  lemma PrimitiveNames()
    ensures forall i, j :: 0 <= i < j < PRIMITIVES ==> Table()[i].0 != Table()[j].0
    ensures forall i :: 0 <= i < PRIMITIVES ==> |Table()[i].0| <= MAXNAMELEN && (Table()[i].1.Semicolon? <==> i == 1)
    ensures forall i :: 0 <= i < PRIMITIVES ==> Bare(Table()[i].1)
  {
  }

  /** A code field without anything behind it. */
  predicate Bare(c: Code) {
    !c.DoColon? && !c.DoConstant? && !c.DoVariable?
  }

  /** The first n primitives are in the dictionary, at their places, and nothing else is. */
  ghost predicate Made(D: Dict, words: seq<Word>, n: nat)
    requires n <= PRIMITIVES
  {
    && |D.mem| == HEADER_CELLS * n
    && (forall i :: 0 <= i < n ==>
          && Lookup(words, Table()[i].0) == Known(Word(Table()[i].0, Table()[i].1.Semicolon?, CodeField(i)))
          && CodeField(i) in D.code && D.code[CodeField(i)] == Table()[i].1)
    && (forall name :: (forall i :: 0 <= i < n ==> Table()[i].0 != name) ==> Lookup(words, name) == NotFound)
  }

  lemma MadeLength(D: Dict, words: seq<Word>, n: nat)
    requires n <= PRIMITIVES && Made(D, words, n)
    ensures |D.mem| == HEADER_CELLS * n
  {}

  lemma OneMoreMade(D: Dict, words: seq<Word>, D': Dict, words': seq<Word>, i: nat)
    requires i < PRIMITIVES && Made(D, words, i) && |D'.mem| == |D.mem| + HEADER_CELLS
    requires D'.code == D.code[CodeField(i) := Table()[i].1]
    requires Lookup(words', Table()[i].0)
          == Known(Word(Table()[i].0, Table()[i].1.Semicolon?, CodeField(i)))
    requires forall other :: other != Table()[i].0 ==> Lookup(words', other) == Lookup(words, other)
    ensures Made(D', words', i + 1)
  {
    hide Lookup;
    PrimitiveNames();
  }

  /** The words that frame a definition are the ones init_dictionary made. */
  ghost predicate Framed(D: Dict, words: seq<Word>) {
    && StandsFor(D, words, ":", Colon)
    && StandsFor(D, words, ";", Semicolon) && Lookup(words, ";").word.immediate
  }

  /** The dictionary is in order, definitions can be framed, and variables have cells in the dictionary. */
  ghost predicate InOrder(D: Dict, words: seq<Word>, vars: map<int, Cell>) {
    Headed(D, words) && Framed(D, words) && forall a :: a in vars ==> 0 <= a < |D.mem|
  }

  /** Words of other names leave those that frame definitions. */
  lemma StillFramed(D: Dict, words: seq<Word>, D': Dict, w: Word)
    requires Framed(D, words) && Extends(D', D) && w.name != ":" && w.name != ";"
    ensures Framed(D', [w] + words)
  {
    hide Lookup, Extends;
    StillStandsFor(D, words, D', w, ":", Colon);
    StillStandsFor(D, words, D', w, ";", Semicolon);
  }

  /** In a dictionary in order, with room, a new variable or constant pushes n, the cell of a variable is one
      that no variable had, every other name keeps its meaning, and the order is kept. */
  ghost predicate Serves(D: Dict, words: seq<Word>, vars: map<int, Cell>, D': Dict, words': seq<Word>,
                         vars': map<int, Cell>, name: string, c: Code, n: Cell) {
    InOrder(D, words, vars) && |D'.mem| <= MAXDICT ==>
      && (c.DoVariable? ==> n !in vars) && Added(D, words, D', words', name, n)
      && (name != ":" && name != ";" ==> InOrder(D', words', vars'))
  }

  lemma VariableServes(D: Dict, words: seq<Word>, vars: map<int, Cell>, D': Dict, words': seq<Word>, name: string)
    requires NewWord(D, words, D', words', name, DoVariable, [0]) && |D'.mem| <= 0x8000_0000
    ensures |D'.mem| > 0
    ensures var n := |D'.mem| - 1; Serves(D, words, vars, D', words', vars[n := 0], name, DoVariable, n)
  {
    hide Lookup, Sound, Extends, Framed;
    if InOrder(D, words, vars) && |D'.mem| <= MAXDICT {
      WordMade(D, words, D', words', name, DoVariable, 0);
      if name != ":" && name != ";" {
        StillFramed(D, words, D', words'[0]);
      }
    }
  }

  lemma ConstantServes(D: Dict, words: seq<Word>, vars: map<int, Cell>, D': Dict, words': seq<Word>, name: string, n: Cell)
    requires NewWord(D, words, D', words', name, DoConstant, [n])
    ensures Serves(D, words, vars, D', words', vars, name, DoConstant, n)
  {
    hide Lookup, Sound, Extends, Framed;
    if InOrder(D, words, vars) && |D'.mem| <= MAXDICT {
      WordMade(D, words, D', words', name, DoConstant, n);
      if name != ":" && name != ";" {
        StillFramed(D, words, D', words'[0]);
      }
    }
  }

  /** What variable does: a word with a cell of its own, zero at first. The word pushes the address of the
      cell. A name that is too long makes no word, but takes the cell; without a name nothing happens. */
  ghost predicate VariableMade(D: Dict, words: seq<Word>, vars: map<int, Cell>, line: seq<string>,
                               D': Dict, words': seq<Word>, vars': map<int, Cell>, line': seq<string>) {
    if line == [] then
      D' == D && words' == words && vars' == vars && line' == []
    else
      var name := line[0];
      && line' == line[1..] && |D'.mem| > 0 && vars' == vars[|D'.mem| - 1 := 0]
      && if |name| > MAXNAMELEN then
           D' == D.(mem := D.mem + [0]) && words' == words
         else
           && NewWord(D, words, D', words', name, DoVariable, [0])
           && (|D'.mem| <= MAXDICT ==> Serves(D, words, vars, D', words', vars', name, DoVariable, |D'.mem| - 1))
  }

  /** What constant does with the number n: a word that pushes it. A name that is too long makes no word, but
      the number goes to the dictionary; without a name nothing happens. */
  ghost predicate ConstantMade(D: Dict, words: seq<Word>, vars: map<int, Cell>, line: seq<string>, n: Cell,
                               D': Dict, words': seq<Word>, line': seq<string>) {
    if line == [] then
      D' == D && words' == words && line' == []
    else
      var name := line[0];
      && line' == line[1..]
      && if |name| > MAXNAMELEN then
           D' == D.(mem := D.mem + [n]) && words' == words
         else
           && NewWord(D, words, D', words', name, DoConstant, [n])
           && Serves(D, words, vars, D', words', vars, name, DoConstant, n)
  }

  /** The words that read the line or change the state. */
  predicate Parses(c: Code) {
    c.Colon? || c.Semicolon? || c.Variable? || c.Constant?
  }

  class System {
    // dictionary.c, find.c
    var mem: seq<Cell>
    var code: map<int, Code>
    var words: seq<Word>
    // stack.c, and what print has written
    var stack: StackCells
    var sp: int
    var rs: seq<int>
    var vars: map<int, Cell>
    var out: seq<Cell>
    // walk.c
    var ip: int
    var w: int
    var executer: int
    var finished: bool
    var gone: bool
    // handle_compile.c, and the words of the line not yet read
    var state: bool
    var line: seq<string>

    /** clear, rclear and init_dictionary: every name of the table stands for its function, no other name is
        found, only ; is immediate, and both stacks are empty. */
    constructor ()
      ensures Made(D(), words, PRIMITIVES) && Ready() && !state && !gone && rs == [] && sp == MAXSTACK && vars == map[]
      ensures |mem| == 170
      ensures forall i :: 0 <= i < PRIMITIVES ==> StandsFor(D(), words, Table()[i].0, Table()[i].1)
      ensures forall i :: 0 <= i < PRIMITIVES && Callable(Table()[i].1) ==> Plain(D(), words, Table()[i].0)
    {
      mem, code, words := [], map[], [];
      stack, sp, rs, vars, out := seq(STACK_CELLS, _ => 0), MAXSTACK, [], map[], [];
      ip, w, executer, finished, gone, state, line := 0, 0, 0, false, false, false, [];
      new;
      hide Lookup, Made, Ready, StandsFor, Plain, Table, Callable;
      InitDictionary();
    }

    /** init_dictionary */
    method InitDictionary()
      requires mem == [] && code == map[] && words == [] && vars == map[]
      modifies this`mem, this`words, this`code
      ensures Made(D(), words, PRIMITIVES) && Ready() && |mem| == 170
      ensures forall i :: 0 <= i < PRIMITIVES ==> StandsFor(D(), words, Table()[i].0, Table()[i].1)
      ensures forall i :: 0 <= i < PRIMITIVES && Callable(Table()[i].1) ==> Plain(D(), words, Table()[i].0)
    {
      hide Lookup, Primitives, Made, Ready, StandsFor, Plain, Table, BlankHeader, Callable;
      NothingMade();
      AddFrame();
      AddOperators();
      MadeLength(D(), words, PRIMITIVES);
      PrimitivesStand();
      PrimitivesReady();
    }

    lemma NothingMade()
      requires mem == [] && code == map[] && words == []
      ensures Primitives() && Made(D(), words, 0)
    {}

    /** The words definitions are made with. */
    method AddFrame()
      requires Primitives() && Made(D(), words, 0)
      modifies this`mem, this`words, this`code
      ensures Primitives() && Made(D(), words, 6)
    {
      hide Lookup, Primitives, Made, Table, BlankHeader;
      NamesStand();
      AddPrimitive("exit", Exit, 0);
      AddSemicolon();
      AddPrimitive(":", Colon, 2);
      AddPrimitive("variable", Variable, 3);
      AddPrimitive("constant", Constant, 4);
      AddPrimitive("(literal)", Literal, 5);
    }

    /** The words that work on the stack. */
    method AddOperators()
      requires Primitives() && Made(D(), words, 6)
      modifies this`mem, this`words, this`code
      ensures Primitives() && Made(D(), words, PRIMITIVES)
    {
      hide Lookup, Primitives, Made, Table;
      PrimitiveNames();
      for i := 6 to PRIMITIVES
        invariant Primitives() && Made(D(), words, i)
      {
        AddPrimitive(Table()[i].0, Table()[i].1, i);
      }
    }

    method AddSemicolon()
      requires Primitives() && Made(D(), words, 1)
      modifies this`mem, this`words, this`code
      ensures Primitives() && Made(D(), words, 2)
    {
      hide Lookup, Primitives, Made, Table, BlankHeader;
      NamesStand();
      ghost var D0, words0 := D(), words;
      AddPrimitive(";", Semicolon, 1);
      Immediate();
      MadeLength(D0, words0, 1);
      OneMoreMade(D0, words0, D(), words, 1);
    }

    /** Only primitives in the dictionary so far. */
    ghost predicate Primitives()
      reads this`mem, this`code, this`words
    {
      && (forall xt :: xt in code ==> 0 <= xt < |mem| && Bare(code[xt]))
      && (forall w :: w in words ==> w.xt in code)
    }

    /** cheader */
    method AddPrimitive(name: string, c: Code, ghost i: nat)
      requires Primitives() && i < PRIMITIVES && Made(D(), words, i) && Table()[i] == (name, c)
      modifies this`mem, this`words, this`code
      ensures Primitives() && |mem| == HEADER_CELLS * (i + 1) && words != [] && words[0].name == name
      ensures words[0] == Word(name, false, CodeField(i)) && Lookup(words, name) == Known(words[0])
      ensures code == old(code)[CodeField(i) := c]
      ensures forall other :: other != name ==> Lookup(words, other) == Lookup(old(words), other)
      ensures !c.Semicolon? ==> Made(D(), words, i + 1)
    {
      hide Lookup, Made, Table, BlankHeader;
      ghost var D0 := D();
      MadeLength(D0, words, i);
      PrimitiveNames();
      ghost var words0 := words;
      Header(name, c);
      NewestFirst(words0, words[0]);
      forall other: string | other != name
        ensures Lookup(words, other) == Lookup(words0, other)
      {
        OtherName(words0, words[0], other);
      }
      if !c.Semicolon? {
        OneMoreMade(D0, words0, D(), words, i);
      }
    }

    ghost predicate Ready()
      reads this`mem, this`words, this`code, this`vars
    {
      InOrder(D(), words, vars)
    }

    lemma ReadyHeaded()
      requires Ready()
      ensures Headed(D(), words)
    {}

    lemma PrimitivesStand()
      requires Primitives() && Made(D(), words, PRIMITIVES)
      ensures forall i :: 0 <= i < PRIMITIVES ==> StandsFor(D(), words, Table()[i].0, Table()[i].1)
      ensures forall i :: 0 <= i < PRIMITIVES && Callable(Table()[i].1) ==> Plain(D(), words, Table()[i].0)
      ensures Lookup(words, Table()[1].0).Known? && Lookup(words, Table()[1].0).word.immediate
      ensures forall i :: 0 <= i < PRIMITIVES ==> CodeField(i) in code && code[CodeField(i)] == Table()[i].1
    {
      hide Lookup, Table;
      PrimitiveNames();
      var i := 1;
      assert Table()[i].1.Semicolon?;
    }

    lemma PrimitivesReady()
      requires Primitives() && Made(D(), words, PRIMITIVES) && vars == map[] && |mem| == 170
      ensures Ready()
    {
      hide Lookup, Table, Made, Plain, StandsFor;
      PrimitivesStand();
      NamesStand();
      var i, k := 0, 5;
      assert code[CodeField(i)] == Exit && code[CodeField(k)] == Literal;
    }

    ghost function D(): Dict
      reads this`mem, this`code
    {
      Dict(mem, code)
    }

    ghost function Now(): Data
      reads this`stack, this`sp, this`vars, this`out
    {
      Data(stack, sp, vars, out)
    }

    ghost function M(): Machine
      reads this`ip, this`rs, this`stack, this`sp, this`vars, this`out
    {
      Machine(ip, rs, Now())
    }

    // ----- stack.c -----

    method Pop() returns (n: Cell)
      requires Holds(Now(), 0)
      modifies this`sp
      ensures n == Top(old(Now()), 0) && sp == old(sp) + 1
    {
      n := stack[sp];
      sp := sp + 1;
    }

    method PushCell(n: Cell)
      requires Push(Now(), n).Done?
      modifies this`stack, this`sp
      ensures Now() == Push(old(Now()), n).d
    {
      sp := sp - 1;
      stack := stack[sp := n];
    }

    // ----- initdict.c: the functions behind code fields -----

    method DoPrimitive(c: Code)
      requires Callable(c) && !c.DoColon? && !c.DoConstant? && !c.DoVariable?
      requires !Primitive(c, Now()).Undefined?
      modifies this`stack, this`sp, this`vars, this`out, this`gone
      ensures match Primitive(c, old(Now()))
              case Done(d) => Now() == d && gone == old(gone)
              case Stopped(d) => Now() == d && gone
              case Undefined => false
    {
      match c
      case Plus =>
        var b := Pop();
        var a := Pop();
        PushCell(Wrap((b as int) + a));
      case Minus =>
        var n := Pop();
        var a := Pop();
        PushCell(Wrap((a as int) - n));
      case Times =>
        var b := Pop();
        var a := Pop();
        PushCell(Wrap((b as int) * a));
      case Divide =>
        var n := Pop();
        var a := Pop();
        PushCell(Wrap(Quotient(a, n)));
      case Print =>
        var n := Pop();
        out := out + [n];
      case Drop =>
        var n := Pop();
      case Dup =>
        PushCell(stack[sp]);
      case Depth =>
        PushCell(Wrap(MAXSTACK - sp));
      case Fetch =>
        var adr := Pop();
        PushCell(vars[adr]);
      case Store =>
        var adr := Pop();
        var n := Pop();
        vars := vars[adr := n];
      case Bye =>
        gone := true;
    }

    // ----- walk.c -----

    method ReadCell(adr: int) returns (c: int)
      requires Readable(D(), adr)
      ensures c == CellAt(D(), executer, adr)
    {
      if adr == EXECUTER {
        c := executer;
      } else if adr == EXECUTER + 1 {
        c := FINISHER;
      } else {
        c := mem[adr];
      }
    }

    /** One turn of the loop in walk: fetch a code field address, step over it, and call. */
    method Turn()
      requires !Step(D(), executer, M()).Stuck?
      modifies this`ip, this`w, this`rs, this`stack, this`sp, this`vars, this`out, this`finished, this`gone
      ensures match Step(D(), executer, old(M()))
              case Next(m) => M() == m && finished == old(finished) && gone == old(gone)
              case Finished(d) => Now() == d && rs == old(rs) && finished && gone == old(gone)
              case Exited(d) => Now() == d && gone
              case Stuck => false
    {
      hide Call;
      w := ReadCell(ip);
      ip := ip + 1;
      if w == FINISHER {
        finished := true;
        return;
      }
      CallThrough(w);
    }

    /** ((code_field_t)(*w))() */
    method CallThrough(xt: int)
      requires xt in code && w == xt && !Call(D(), xt, M()).Stuck?
      modifies this`ip, this`rs, this`stack, this`sp, this`vars, this`out, this`gone
      ensures match Call(D(), xt, old(M()))
              case Next(m) => M() == m && gone == old(gone)
              case Finished(_) => false
              case Exited(d) => Now() == d && gone
              case Stuck => false
    {
      hide Primitive, Push;
      var c := code[xt];
      if c.DoColon? {
        rs := [ip] + rs;
        ip := w + 1;
      } else if c.Exit? {
        ip := rs[0];
        rs := rs[1..];
      } else if c.Literal? {
        PushCell(mem[ip]);
        ip := ip + 1;
      } else if c.DoConstant? {
        PushCell(mem[w + 1]);
      } else if c.DoVariable? {
        PushCell(w + 1);
      } else {
        DoPrimitive(c);
      }
    }

    /** perform, and walk under it: run a word to its end. It ends as its meaning says, with the return
        stack as it was. */
    method Perform(xt: int)
      requires Sound(D(), |mem|) && 0 <= xt < |mem| && xt in code && Callable(code[xt])
      requires Sound(D(), xt + 1) && |rs| + Nesting(D(), xt) <= MAXSTACK
      requires !Run(D(), xt, Now()).Undefined? && !gone
      modifies this`executer, this`ip, this`w, this`rs, this`stack, this`sp, this`vars, this`out, this`finished, this`gone
      ensures match Run(D(), xt, old(Now()))
              case Done(d) => Now() == d && rs == old(rs) && !gone
              case Stopped(d) => Now() == d && gone
              case Undefined => false
    {
      hide Sound, Run, Nesting, Step;
      executer := xt;
      ip := EXECUTER;
      finished := false;
      ghost var n := WordRuns(D(), xt, xt, M());
      ghost var end := Steps(D(), xt, M(), n);
      ghost var o := Run(D(), xt, Now());
      ghost var rs0 := rs;
      while true
        invariant executer == xt && !finished && !gone
        invariant Steps(D(), xt, M(), n) == end && Realizes(end, o, EXECUTER + 1, rs0) && !o.Undefined?
        decreases n
      {
        TurnDefined(D(), xt, M(), n, end);
        Turn();
        if finished || gone {
          break;
        }
        n := n - 1;
      }
    }

    // ----- dictionary.c, find.c, initdict.c: making words -----

    /** comma, and compile */
    method Comma(n: Cell)
      modifies this`mem
      ensures mem == old(mem) + [n]
    {
      mem := mem + [n];
    }

    /** header: a name longer than 31 characters is complained about, and makes no word. A header is forty
        bytes, the last four of them the code field. */
    method Header(name: string, c: Code)
      modifies this`mem, this`words, this`code
      ensures |name| > 31 ==> mem == old(mem) && words == old(words) && code == old(code)
      ensures |name| <= 31 ==>
        var xt := old(|mem|) + 9;
        && |BlankHeader()| == 10 && mem == old(mem) + BlankHeader()
        && words == [Word(name, false, xt)] + old(words) && code == old(code)[xt := c]
    {
      if |name| > MAXNAMELEN {
        return;
      }
      var start := |mem|;
      mem := mem + BlankHeader();
      var xt := start + HEADER_CELLS - 1;
      words := [Word(name, false, xt)] + words;
      code := code[xt := c];
    }

    /** immediate */
    method Immediate()
      requires words != []
      modifies this`words
      ensures words == [old(words)[0].(immediate := true)] + old(words)[1..]
      ensures Lookup(words, words[0].name) == Known(words[0])
      ensures forall other :: other != words[0].name ==> Lookup(words, other) == Lookup(old(words), other)
      ensures old(Primitives()) ==> Primitives()
    {
      ghost var words0 := words;
      forall other: string | other != words[0].name
        ensures Lookup([words[0].(immediate := true)] + words[1..], other) == Lookup(words0, other)
      {
        OtherName(words[1..], words[0].(immediate := true), other);
        OtherName(words[1..], words[0], other);
        assert [words[0]] + words[1..] == words;
      }
      NewestFirst(words[1..], words[0].(immediate := true));
      words := [words[0].(immediate := true)] + words[1..];
    }

    /** literal: compile a number. */
    method CompileLiteral(n: Cell)
      modifies this`mem
      ensures mem == old(mem) + [DOLIT, n]
    {
      Comma(DOLIT);
      Comma(n);
    }

    /** colon */
    method StartDefinition()
      modifies this`mem, this`words, this`code, this`state, this`line
      ensures old(line) == [] ==>
        mem == old(mem) && words == old(words) && code == old(code) && state == old(state) && line == []
      ensures old(line) != [] ==> state && line == old(line)[1..]
      ensures old(line) != [] && |old(line)[0]| > MAXNAMELEN ==>
        mem == old(mem) && words == old(words) && code == old(code)
      ensures old(line) != [] && |old(line)[0]| <= MAXNAMELEN ==>
        var xt := old(|mem|) + HEADER_CELLS - 1;
        && mem == old(mem) + BlankHeader()
        && words == [Word(old(line)[0], false, xt)] + old(words) && code == old(code)[xt := DoColon]
    {
      if line == [] {
        return;
      }
      var name := line[0];
      line := line[1..];
      Header(name, DoColon);
      state := true;
    }

    /** semicolon */
    method EndDefinition()
      modifies this`mem, this`state
      ensures mem == old(mem) + [UNNESTER] && !state
    {
      Comma(UNNESTER);
      state := false;
    }

    /** header and comma, with which variable and constant end. */
    method HeaderAndCell(name: string, c: Code, n: Cell)
      modifies this`mem, this`words, this`code
      ensures |name| > MAXNAMELEN ==> mem == old(mem) + [n] && words == old(words) && code == old(code)
      ensures |name| <= MAXNAMELEN ==> NewWord(old(D()), old(words), D(), words, name, c, [n])
      ensures |mem| > 0
    {
      Header(name, c);
      Comma(n);
    }

    /** variable */
    method DefineVariable()
      modifies this`mem, this`words, this`code, this`vars, this`line
      ensures VariableMade(old(D()), old(words), old(vars), old(line), D(), words, vars, line)
    {
      if line == [] {
        return;
      }
      hide Serves, NewWord, BlankHeader;
      ghost var D0, words0, vars0 := D(), words, vars;
      var name := line[0];
      line := line[1..];
      HeaderAndCell(name, DoVariable, 0);
      vars := vars[|mem| - 1 := 0];
      if |name| <= MAXNAMELEN && |mem| <= MAXDICT {
        VariableServes(D0, words0, vars0, D(), words, name);
      }
    }

    /** constant */
    method DefineConstant()
      requires line == [] || Holds(Now(), 0)
      modifies this`mem, this`words, this`code, this`sp, this`line
      ensures sp == if old(line) == [] then old(sp) else old(sp) + 1
      ensures var n := if old(line) == [] then 0 else Top(old(Now()), 0);
        ConstantMade(old(D()), old(words), vars, old(line), n, D(), words, line)
    {
      if line == [] {
        return;
      }
      hide Serves, NewWord, BlankHeader;
      ghost var D0, words0 := D(), words;
      var name := line[0];
      line := line[1..];
      var n := Pop();
      HeaderAndCell(name, DoConstant, n);
      if |name| <= MAXNAMELEN {
        ConstantServes(D0, words0, vars, D(), words, name, n);
      }
    }

    // ----- find.c, number.c -----

    method Find(name: string) returns (m: Meaning)
      ensures m == Lookup(words, name)
    {
      var i := 0;
      assert words[0..] == words;
      while i < |words|
        invariant 0 <= i <= |words|
        invariant Lookup(words[i..], name) == Lookup(words, name)
      {
        if words[i].name == name {
          return Known(words[i]);
        }
        assert words[i..][1..] == words[i + 1..];
        i := i + 1;
      }
      return NotFound;
    }

    method ParseNumber(s: string) returns (ok: bool, n: Cell)
      ensures ok <==> IsNumber(s)
      ensures ok ==> n == NumberValue(s)
    {
      n := 0;
      assert s[..0] == "";
      for i := 0 to |s|
        invariant IsNumber(s[..i]) && n == NumberValue(s[..i])
      {
        if !('0' <= s[i] <= '9') {
          return false, n;
        }
        assert s[..i + 1][..i] == s[..i];
        n := Wrap((n as int) * 10 + (s[i] as int - '0' as int));
      }
      assert s[..|s|] == s;
      ok := true;
    }

    // ----- handle_compile.c -----

    /** A plain name while a definition is open. D0 and words0 are the dictionary before it was. */
    ghost predicate Compiles(name: string, D0: Dict, words0: seq<Word>)
      reads this`state, this`words
    {
      && state && Headed(D0, words0) && Plain(D0, words0, name)
      && MeaningOf(words, name) == MeaningOf(words0, name)
    }

    /** A plain name while interpreting, with a meaning that is defined, and room to nest. */
    ghost predicate Interprets(name: string)
      reads this
    {
      && !state && !gone && Headed(D(), words) && Plain(D(), words, name)
      && AllPlain(D(), words, [name]) && |rs| + NamesNesting(D(), words, [name]) <= MAXSTACK
      && !InterpretWord(D(), words, name, Now()).Undefined?
    }

    /** A name that stands for one of the words that parse or change the state, and is executed. */
    ghost predicate Executes(name: string, c: Code)
      reads this`state, this`mem, this`words, this`code
    {
      StandsFor(D(), words, name, c) && (state ==> Lookup(words, name).word.immediate)
    }

    ghost predicate Unknown(name: string)
      reads this`words
    {
      MeaningOf(words, name).NotFound?
    }

    /** perform, for the words that parse or change the state. */
    method PerformParsing(xt: int)
      requires xt in code && Parses(code[xt]) && (code[xt].Constant? ==> line == [] || Holds(Now(), 0))
      modifies this`mem, this`words, this`code, this`vars, this`sp, this`line, this`state
      ensures old(code)[xt].Colon? ==>
        && vars == old(vars) && sp == old(sp)
        && (old(line) != [] && |old(line)[0]| <= MAXNAMELEN ==>
              NewWord(old(D()), old(words), D(), words, old(line)[0], DoColon, []) && state && line == old(line)[1..])
      ensures old(code)[xt].Semicolon? ==>
        && mem == old(mem) + [UNNESTER] && words == old(words) && code == old(code) && !state
        && line == old(line) && vars == old(vars) && sp == old(sp)
      ensures old(code)[xt].Variable? ==>
        && VariableMade(old(D()), old(words), old(vars), old(line), D(), words, vars, line)
        && state == old(state) && sp == old(sp)
      ensures old(code)[xt].Constant? ==>
        && sp == (if old(line) == [] then old(sp) else old(sp) + 1)
        && (var n := if old(line) == [] then 0 else Top(old(Now()), 0);
            ConstantMade(old(D()), old(words), vars, old(line), n, D(), words, line))
        && state == old(state) && vars == old(vars)
    {
      hide VariableMade, ConstantMade, BlankHeader;
      match code[xt]
      case Colon => StartDefinition();
      case Semicolon => EndDefinition();
      case Variable => DefineVariable();
      case Constant => DefineConstant();
    }

    /** perform, for the words that definitions are made of. */
    method PerformPlain(name: string, xt: int)
      requires Interprets(name) && Lookup(words, name).Known? && Lookup(words, name).word.xt == xt
      modifies this`executer, this`ip, this`w, this`rs, this`stack, this`sp, this`vars, this`out, this`finished, this`gone
      ensures match old(InterpretWord(D(), words, name, Now()))
              case Done(d) => Now() == d && rs == old(rs) && !gone
              case Stopped(d) => Now() == d && gone
              case Undefined => false
    {
      hide Sound, Run, Nesting, Lookup, NumberValue;
      LookupIsWord(words, name);
      SoundDown(D(), |mem|, xt + 1);
      assert [name][0] == name && [name][1..] == [];
      Perform(xt);
    }

    /** handle_word */
    method HandleWord(name: string, ghost D0: Dict, ghost words0: seq<Word>)
      requires Compiles(name, D0, words0) || Interprets(name) || Unknown(name)
            || Executes(name, Colon) || Executes(name, Semicolon)
            || Executes(name, Variable) || (Executes(name, Constant) && (line == [] || Holds(Now(), 0)))
      modifies this
      ensures old(Compiles(name, D0, words0)) ==>
        && mem == old(mem) + CompiledWord(D0, words0, name)
        && words == old(words) && code == old(code) && state && line == old(line) && gone == old(gone)
        && Now() == old(Now()) && rs == old(rs)
      ensures old(Interprets(name)) ==>
        && D() == old(D()) && words == old(words) && !state && line == old(line)
        && match old(InterpretWord(D(), words, name, Now()))
           case Done(d) => Now() == d && rs == old(rs) && !gone
           case Stopped(d) => Now() == d && gone
           case Undefined => false
      ensures old(Executes(name, Colon)) && old(line) != [] && |old(line)[0]| <= MAXNAMELEN ==>
        && NewWord(old(D()), old(words), D(), words, old(line)[0], DoColon, []) && state && line == old(line)[1..]
        && Now() == old(Now()) && rs == old(rs) && gone == old(gone)
      ensures old(Executes(name, Semicolon)) ==>
        && mem == old(mem) + [UNNESTER] && words == old(words) && code == old(code) && !state
        && line == old(line) && Now() == old(Now()) && rs == old(rs) && gone == old(gone)
      ensures old(Executes(name, Variable)) ==>
        && VariableMade(old(D()), old(words), old(vars), old(line), D(), words, vars, line)
        && state == old(state) && gone == old(gone) && rs == old(rs)
        && stack == old(stack) && sp == old(sp) && out == old(out)
      ensures old(Executes(name, Constant)) ==>
        && sp == (if old(line) == [] then old(sp) else old(sp) + 1)
        && (var n := if old(line) == [] then 0 else Top(old(Now()), 0);
            ConstantMade(old(D()), old(words), vars, old(line), n, D(), words, line))
        && state == old(state) && gone == old(gone) && rs == old(rs)
        && stack == old(stack) && vars == old(vars) && out == old(out)
      ensures old(Unknown(name)) ==>
        && D() == old(D()) && words == old(words) && state == old(state) && line == []
        && Now() == old(Now()) && rs == old(rs) && gone == old(gone)
    {
      hide Sound, Run, Nesting, Lookup, NumberValue, VariableMade, ConstantMade, BlankHeader, NewWord;
      hide NamesNesting, AllPlain;
      var found := Find(name);
      LookupIsWord(words0, name);
      LookupIsWord(words, name);
      if found.Known? {
        var xt := found.word.xt;
        if state && !found.word.immediate {
          Comma(xt);
        } else if Parses(code[xt]) {
          PerformParsing(xt);
        } else {
          PerformPlain(name, xt);
        }
      } else {
        var ok, n := ParseNumber(name);
        if ok {
          if state {
            CompileLiteral(n);
          } else {
            PushCell(n);
          }
        } else {
          line := [];
        }
      }
    }

    /** Interpreting names one after the other. */
    method InterpretAll(names: seq<string>)
      requires !state && !gone && Headed(D(), words) && AllPlain(D(), words, names)
      requires |rs| + NamesNesting(D(), words, names) <= MAXSTACK
      requires !Interpret(D(), words, names, Now()).Undefined?
      modifies this
      ensures D() == old(D()) && words == old(words) && !state
      ensures old(Ready()) ==> Ready()
      ensures match old(Interpret(D(), words, names, Now()))
              case Done(d) => Now() == d && rs == old(rs) && !gone
              case Stopped(d) => Now() == d && gone
              case Undefined => false
    {
      hide Sound, InterpretWord;
      InterpretKeepsCells(D(), words, names, Now());
      var i := 0;
      ghost var o := Interpret(D(), words, names, Now());
      assert names[0..] == names;
      while i < |names| && !gone
        invariant D() == old(D()) && words == old(words) && !state
        invariant 0 <= i <= |names| && AllPlain(D(), words, names[i..])
        invariant !gone ==> rs == old(rs) && Interpret(D(), words, names[i..], Now()) == o
        invariant !gone ==> |rs| + NamesNesting(D(), words, names[i..]) <= MAXSTACK
        invariant gone ==> o == Stopped(Now())
        decreases |names| - i
      {
        assert names[i..][0] == names[i] && names[i..][1..] == names[i + 1..];
        assert Plain(D(), words, names[i]);
        FirstNesting(D(), words, names[i..]);
        HandleWord(names[i], D(), words);
        i := i + 1;
      }
      if !gone {
        assert names[i..] == [];
      }
    }

    /** `: name` */
    method Begin(name: string)
      requires !state && StandsFor(D(), words, ":", Colon) && |name| <= MAXNAMELEN
      modifies this
      ensures NewWord(old(D()), old(words), D(), words, name, DoColon, []) && state
      ensures Now() == old(Now()) && rs == old(rs) && gone == old(gone)
    {
      hide VariableMade, ConstantMade, Lookup, Compiles, Interprets, Unknown, BlankHeader;
      line := [name];
      HandleWord(":", D(), words);
    }

    /** `;` */
    method End()
      requires state && StandsFor(D(), words, ";", Semicolon) && Lookup(words, ";").word.immediate
      modifies this
      ensures mem == old(mem) + [UNNESTER] && words == old(words) && code == old(code) && !state
      ensures Now() == old(Now()) && rs == old(rs) && gone == old(gone)
    {
      hide VariableMade, ConstantMade, Lookup, Compiles, Interprets, Unknown, BlankHeader;
      HandleWord(";", D(), words);
    }

    /** The names between : and ; are compiled as they mean before the definition. */
    method CompileAll(names: seq<string>, ghost D0: Dict, ghost words0: seq<Word>)
      requires state && Headed(D0, words0) && AllPlain(D0, words0, names)
      requires forall name :: name in names ==> MeaningOf(words, name) == MeaningOf(words0, name)
      modifies this
      ensures mem == old(mem) + Compiled(D0, words0, names)
      ensures words == old(words) && code == old(code) && state && line == old(line) && gone == old(gone)
      ensures Now() == old(Now()) && rs == old(rs)
    {
      hide Sound, MeaningOf, Compiled, CompiledWord, VariableMade, ConstantMade, StandsFor, Plain;
      NothingCompiled(D0, words0);
      for i := 0 to |names|
        invariant words == old(words) && code == old(code) && state && line == old(line) && gone == old(gone)
        invariant Now() == old(Now()) && rs == old(rs)
        invariant AllPlain(D0, words0, names[..i]) && mem == old(mem) + Compiled(D0, words0, names[..i])
      {
        CompiledSnoc(D0, words0, names[..i], names[i]);
        assert names[..i + 1] == names[..i] + [names[i]];
        HandleWord(names[i], D0, words0);
      }
      assert names[..|names|] == names;
    }

    /** `: name names ;` */
    method Define(name: string, names: seq<string>)
      requires !state && Headed(D(), words) && Framed(D(), words) && AllPlain(D(), words, names)
      requires |name| <= MAXNAMELEN && name !in names && name != ";"
      requires |mem| + HEADER_CELLS + 2 * |names| + 1 <= MAXDICT
      modifies this
      ensures old(AllPlain(D(), words, names)) && D() == Defined(old(D()), old(words), names)
      ensures words == [Word(name, false, old(|mem|) + HEADER_CELLS - 1)] + old(words)
      ensures Headed(D(), words) && !state && Now() == old(Now()) && rs == old(rs) && gone == old(gone)
      ensures old(Ready()) && name != ":" ==> Ready()
    {
      hide Sound, Lookup, MeaningOf, Compiled, InOrder, BlankHeader;
      ghost var D0, words0 := D(), words;
      Begin(name);
      OtherNames(words0, words[0], names);
      CompileAll(names, D0, words0);
      OtherName(words0, words[0], ";");
      End();
      assert D() == Defined(D0, words0, names);
      DefinitionInOrder(D0, words0, vars, words[0], names);
    }

    /** The compiler and both interpreters together: compiling `: name names ;` and then performing
        name does to the stack, the variables and the output exactly what interpreting the names one
        after the other would have done. */
    method DefineAndPerform(name: string, names: seq<string>)
      requires !state && !gone && Headed(D(), words) && Framed(D(), words) && AllPlain(D(), words, names)
      requires |name| <= MAXNAMELEN && name !in names && name != ";"
      requires |mem| + HEADER_CELLS + 2 * |names| + 1 <= MAXDICT
      requires |rs| + 1 + NamesNesting(D(), words, names) <= MAXSTACK
      requires !Interpret(D(), words, names, Now()).Undefined?
      modifies this
      ensures D() == Defined(old(D()), old(words), names)
      ensures words == [Word(name, false, old(|mem|) + HEADER_CELLS - 1)] + old(words)
      ensures old(Ready()) && name != ":" ==> Ready()
      ensures match old(Interpret(D(), words, names, Now()))
              case Done(d) => Now() == d && rs == old(rs) && !gone && !state
              case Stopped(d) => Now() == d && gone
              case Undefined => false
    {
      hide Sound, Interpret, NamesNesting, Run, Nesting, Lookup, Compiled;
      InterpretKeepsCells(D(), words, names, Now());
      ghost var D0, words0, d0 := D(), words, Now();
      Define(name, names);
      DefinitionMeans(D0, words0, names, d0);
      NewestFirst(words0, words[0]);
      OneName(D(), words, name);
      HandleWord(name, D(), words);
    }
  }

  lemma OtherNames(words: seq<Word>, w: Word, names: seq<string>)
    requires w.name !in names
    ensures forall name :: name in names ==> MeaningOf([w] + words, name) == MeaningOf(words, name)
  {
    forall name | name in names
      ensures MeaningOf([w] + words, name) == MeaningOf(words, name)
    {
      OtherName(words, w, name);
    }
  }

  lemma {:induction false} CompiledLength(D: Dict, words: seq<Word>, names: seq<string>)
    requires AllPlain(D, words, names)
    ensures |Compiled(D, words, names)| <= 2 * |names|
  {
    if names != [] {
      assert Plain(D, words, names[0]);
      CompiledLength(D, words, names[1..]);
    }
  }

  lemma StillHeaded(D: Dict, words: seq<Word>, D': Dict, w: Word)
    requires Headed(D, words) && Extends(D', D) && Sound(D', |D'.mem|) && |D'.mem| < 0x4000_0000
    requires |D.mem| <= w.xt < |D'.mem| && D'.code == D.code[w.xt := DoColon]
    ensures Headed(D', [w] + words)
  {}

  /** A definition leaves the dictionary in order, and the words that frame definitions as they were. */
  lemma DefinitionMade(D: Dict, words: seq<Word>, w: Word, names: seq<string>)
    requires Headed(D, words) && AllPlain(D, words, names) && w.xt == |D.mem| + HEADER_CELLS - 1
    requires |D.mem| + HEADER_CELLS + 2 * |names| + 1 <= MAXDICT
    ensures var D', words' := Defined(D, words, names), [w] + words;
      && Extends(D', D) && Headed(D', words')
      && (forall name, c :: StandsFor(D, words, name, c) && name != w.name ==>
            StandsFor(D', words', name, c) && Lookup(words', name) == Lookup(words, name))
  {
    hide Lookup;
    var D' := Defined(D, words, names);
    CompiledLength(D, words, names);
    var d := Data(seq(STACK_CELLS, _ => 0), MAXSTACK, map[], []);
    DefinitionMeans(D, words, names, d);
    StillHeaded(D, words, D', w);
    forall name, c | StandsFor(D, words, name, c) && name != w.name
      ensures StandsFor(D', [w] + words, name, c) && Lookup([w] + words, name) == Lookup(words, name)
    {
      StillStandsFor(D, words, D', w, name, c);
    }
  }

  lemma DefinitionInOrder(D: Dict, words: seq<Word>, vars: map<int, Cell>, w: Word, names: seq<string>)
    requires Headed(D, words) && AllPlain(D, words, names) && w.xt == |D.mem| + HEADER_CELLS - 1
    requires |D.mem| + HEADER_CELLS + 2 * |names| + 1 <= MAXDICT
    ensures Extends(Defined(D, words, names), D) && Headed(Defined(D, words, names), [w] + words)
    ensures InOrder(D, words, vars) && w.name != ":" && w.name != ";" ==>
      InOrder(Defined(D, words, names), [w] + words, vars)
  {
    hide Lookup, Framed, Sound;
    DefinitionMade(D, words, w, names);
    if InOrder(D, words, vars) && w.name != ":" && w.name != ";" {
      StillFramed(D, words, Defined(D, words, names), w);
    }
  }

  lemma StillStandsFor(D: Dict, words: seq<Word>, D': Dict, w: Word, name: string, c: Code)
    requires StandsFor(D, words, name, c) && Extends(D', D) && name != w.name
    ensures StandsFor(D', [w] + words, name, c) && Lookup([w] + words, name) == Lookup(words, name)
  {
    OtherName(words, w, name);
  }

  /** A sound dictionary's newest definition as a plain name on its own. */
  lemma OneName(D: Dict, words: seq<Word>, name: string)
    requires Headed(D, words) && Lookup(words, name).Known?
    requires var w := Lookup(words, name).word; !w.immediate && w.xt in D.code && Callable(D.code[w.xt])
    ensures Plain(D, words, name) && AllPlain(D, words, [name])
    ensures Sound(D, Lookup(words, name).word.xt + 1)
    ensures NamesNesting(D, words, [name]) == Nesting(D, Lookup(words, name).word.xt)
  {
    assert [name][0] == name && [name][1..] == [];
    SoundBelow(D, Lookup(words, name).word.xt + 1);
  }

  lemma FirstNesting(D: Dict, words: seq<Word>, names: seq<string>)
    requires Headed(D, words) && AllPlain(D, words, names) && names != []
    ensures AllPlain(D, words, [names[0]])
    ensures NamesNesting(D, words, [names[0]]) <= NamesNesting(D, words, names)
    ensures AllPlain(D, words, names[1..])
    ensures NamesNesting(D, words, names[1..]) <= NamesNesting(D, words, names)
  {
    assert [names[0]][1..] == [];
  }

  /** While a run still has to come back to the executer or to end the program, the next turn is
      defined, and it leaves the loop exactly when the run is over. */
  lemma TurnDefined(D: Dict, start: int, m: Machine, n: nat, end: Turn)
    requires Steps(D, start, m, n) == end && (end.Next? || end.Exited?)
    requires end.Next? ==> end.m.ip == EXECUTER + 1
    ensures match Step(D, start, m)
            case Next(m') => n > 0 && Steps(D, start, m', n - 1) == end
            case Finished(d) => end == Next(m) && d == m.d
            case Exited(d) => end == Exited(d)
            case Stuck => false
  {
    if n > 0 {
      var t := Step(D, start, m);
      assert !t.Next? ==> t == end;
    }
  }

  // ----- A session -----

  /** Names none of which was defined with a colon pile up no return addresses. */
  lemma {:induction false} FlatNesting(D: Dict, words: seq<Word>, names: seq<string>)
    requires Headed(D, words) && AllPlain(D, words, names)
    requires forall name :: name in names ==> !StandsFor(D, words, name, DoColon)
    ensures NamesNesting(D, words, names) == 0
  {
    if names != [] {
      assert names[0] in names && Plain(D, words, names[0]);
      LookupIsWord(words, names[0]);
      assert !StandsFor(D, words, names[0], DoColon);
      FlatNesting(D, words, names[1..]);
    }
  }

  /** `dup *` squares the top of the stack. */
  lemma Squares(D: Dict, words: seq<Word>, d: Data)
    requires Headed(D, words) && 0 < d.sp < STACK_CELLS
    requires StandsFor(D, words, "dup", Dup) && Plain(D, words, "dup")
    requires StandsFor(D, words, "*", Times) && Plain(D, words, "*")
    ensures AllPlain(D, words, ["dup", "*"]) && NamesNesting(D, words, ["dup", "*"]) == 0
    ensures Interpret(D, words, ["dup", "*"], d) == Done(d.(stack := d.stack[d.sp - 1 := Top(d, 0)][d.sp := Wrap(Top(d, 0) * Top(d, 0))]))
  {
    hide Lookup, Sound;
    var names := ["dup", "*"];
    assert names[1..] == ["*"] && names[1..][1..] == [];
    NamedRuns(D, words, "dup", Dup, d);
    var d1 := InterpretWord(D, words, "dup", d).d;
    NamedRuns(D, words, "*", Times, d1);
    var d2 := InterpretWord(D, words, "*", d1).d;
    assert Interpret(D, words, ["*"], d1) == Done(d2);
    FlatNesting(D, words, names);
  }

  /** The primitives that variables are made and used with. */
  ghost predicate HasVariables(D: Dict, words: seq<Word>) {
    && StandsFor(D, words, "variable", Variable)
    && StandsFor(D, words, "!", Store) && Plain(D, words, "!")
    && StandsFor(D, words, "@", Fetch) && Plain(D, words, "@")
  }

  /** They stay what they were when a word of another name is added or defined. */
  lemma StillHasVariables(D: Dict, words: seq<Word>, D': Dict, w: Word)
    requires HasVariables(D, words) && Extends(D', D) && w.name !in ["variable", "!", "@"]
    ensures HasVariables(D', [w] + words)
  {
    hide Lookup, Extends;
    assert "variable" in ["variable", "!", "@"] && "!" in ["variable", "!", "@"] && "@" in ["variable", "!", "@"];
    StillStandsFor(D, words, D', w, "variable", Variable);
    StillStandsFor(D, words, D', w, "!", Store);
    StillStandsFor(D, words, D', w, "@", Fetch);
  }

  lemma VariableNesting(D: Dict, words: seq<Word>, D': Dict, words': seq<Word>, v: string)
    requires NewWord(D, words, D', words', v, DoVariable, [0])
    requires Headed(D', words') && AllPlain(D', words', [v, "!", v, "@"]) && HasVariables(D', words')
    ensures NamesNesting(D', words', [v, "!", v, "@"]) == 0
  {
    NewestFirst(words, words'[0]);
    FlatNesting(D', words', [v, "!", v, "@"]);
  }

  /** `variable v  v ! v @`: a new variable keeps what is on the stack. */
  method KeepIn(s: System, v: string)
    requires !s.state && !s.gone && s.Ready() && |s.rs| <= MAXSTACK && 0 < s.sp < STACK_CELLS
    requires HasVariables(s.D(), s.words) && v !in [":", ";", "variable", "!", "@"] && |v| <= MAXNAMELEN
    requires |s.mem| + HEADER_CELLS + 1 <= MAXDICT
    modifies s
    ensures s.Ready() && HasVariables(s.D(), s.words) && !s.state && !s.gone
    ensures s.sp == old(s.sp) && s.stack[s.sp..] == old(s.stack[s.sp..]) && s.out == old(s.out) && s.rs == old(s.rs)
  {
    hide Lookup, Sound, Interpret, NamesNesting, Plain, StandsFor, Extends;
    ghost var D1, words1 := s.D(), s.words;
    s.line := [v];
    s.HandleWord("variable", D1, words1);
    ghost var D2, words2 := s.D(), s.words;
    StillHasVariables(D1, words1, D2, words2[0]);
    StoreThenFetch(D2, words2, v, |D2.mem| - 1, s.Now());
    VariableNesting(D1, words1, D2, words2, v);
    s.InterpretAll([v, "!", v, "@"]);
  }

  /** `: sq dup * ;  sq`: the new word squares the top of the stack. */
  method SquareTop(s: System)
    requires !s.state && !s.gone && s.Ready() && s.rs == [] && 0 < s.sp < STACK_CELLS && |s.mem| <= MAXDICT - 20
    requires StandsFor(s.D(), s.words, "dup", Dup) && Plain(s.D(), s.words, "dup")
    requires StandsFor(s.D(), s.words, "*", Times) && Plain(s.D(), s.words, "*")
    requires HasVariables(s.D(), s.words)
    modifies s
    ensures s.Ready() && HasVariables(s.D(), s.words) && !s.state && !s.gone && s.rs == []
    ensures s.sp == old(s.sp) && Top(s.Now(), 0) == Wrap(Top(old(s.Now()), 0) * Top(old(s.Now()), 0))
    ensures |s.mem| <= old(|s.mem|) + 15
  {
    hide Lookup, Sound, Interpret, NamesNesting, Plain, StandsFor, Extends, Compiled;
    ghost var D0, words0 := s.D(), s.words;
    Squares(D0, words0, s.Now());
    CompiledLength(D0, words0, ["dup", "*"]);
    s.DefineAndPerform("sq", ["dup", "*"]);
    DefinitionMade(D0, words0, s.words[0], ["dup", "*"]);
    StillHasVariables(D0, words0, s.D(), s.words[0]);
  }

  /** `n  : sq dup * ;  sq  variable var  var ! var @` on a new system: the square of n goes through the
      variable and is on the stack in the end. */
  method Session(n: Cell) returns (square: Cell)
    ensures square == Wrap(n * n)
  {
    hide Lookup, Sound, Plain, StandsFor, Table, Made, System.Ready;
    var s := new System();
    NamesStand();
    s.PushCell(n);
    SquareTop(s);
    assert s.stack[s.sp..][0] == Wrap(n * n);
    KeepIn(s, "var");
    assert s.stack[s.sp..][0] == Wrap(n * n);
    square := s.Pop();
  }

  /** What the laws of the three words say of the stack. */
  lemma Operates(D: Dict, words: seq<Word>, name: string, d: Data, x: Cell, y: Cell) returns (n: Cell)
    requires name in ["+", "-", "*"] && WordLaws.OnStack(d, [y, x])
    requires WordLaws.Named(D, words, "+", Plus) && WordLaws.Named(D, words, "-", Minus) && WordLaws.Named(D, words, "*", Times)
    ensures AllPlain(D, words, [name]) && NamesNesting(D, words, [name]) == 0
    ensures WordLaws.Leaves(Interpret(D, words, [name], d), d, [n] + WordLaws.Contents(d)[2..])
    ensures name == "+" ==> (n as int - (x as int + y as int)) % 0x1_0000_0000 == 0
    ensures name == "-" ==> (n as int - (x as int - y as int)) % 0x1_0000_0000 == 0
    ensures name == "*" ==> (n as int - (x as int) * (y as int)) % 0x1_0000_0000 == 0
  {
    hide Lookup, Sound, Interpret;
    if name == "+" {
      n := WordLaws.PlusLaw(D, words, d, x, y);
    } else if name == "-" {
      n := WordLaws.MinusLaw(D, words, d, x, y);
    } else {
      n := WordLaws.TimesLaw(D, words, d, x, y);
    }
    FlatNesting(D, words, [name]);
  }

  /** One of the three words, with its operands on the stack. */
  method Operate(s: System, name: string, x: Cell, y: Cell) returns (n: Cell)
    requires name in ["+", "-", "*"] && !s.state && !s.gone && s.rs == [] && WordLaws.OnStack(s.Now(), [y, x])
    requires WordLaws.Named(s.D(), s.words, "+", Plus) && WordLaws.Named(s.D(), s.words, "-", Minus)
    requires WordLaws.Named(s.D(), s.words, "*", Times)
    modifies s
    ensures name == "+" ==> (n as int - (x as int + y as int)) % 0x1_0000_0000 == 0
    ensures name == "-" ==> (n as int - (x as int - y as int)) % 0x1_0000_0000 == 0
    ensures name == "*" ==> (n as int - (x as int) * (y as int)) % 0x1_0000_0000 == 0
  {
    hide Lookup, Sound, Interpret, NamesNesting, Plain, StandsFor, AllPlain, Headed;
    ghost var d := s.Now();
    ghost var m := Operates(s.D(), s.words, name, d, x, y);
    hide WordLaws.Named;
    s.InterpretAll([name]);
    n := s.Pop();
    assert [m] + WordLaws.Contents(d)[2..] == s.stack[s.sp - 1..] && s.stack[s.sp - 1..][0] == m;
  }

  lemma OperatorsNamed(D: Dict, words: seq<Word>)
    requires Headed(D, words)
    requires forall i :: 0 <= i < PRIMITIVES ==> StandsFor(D, words, Table()[i].0, Table()[i].1)
    requires forall i :: 0 <= i < PRIMITIVES && Callable(Table()[i].1) ==> Plain(D, words, Table()[i].0)
    ensures WordLaws.Named(D, words, "+", Plus) && WordLaws.Named(D, words, "-", Minus) && WordLaws.Named(D, words, "*", Times)
  {
    hide Headed, Lookup, Sound, Plain, StandsFor, Table;
    NamesStand();
  }

  /** A new system as a calculator: `x y +`, `x y -` and `x y *`. */
  method Calculate(name: string, x: Cell, y: Cell) returns (n: Cell)
    requires name in ["+", "-", "*"]
    ensures name == "+" ==> (n as int - (x as int + y as int)) % 0x1_0000_0000 == 0
    ensures name == "-" ==> (n as int - (x as int - y as int)) % 0x1_0000_0000 == 0
    ensures name == "*" ==> (n as int - (x as int) * (y as int)) % 0x1_0000_0000 == 0
  {
    hide Lookup, Sound, Plain, StandsFor, Table, Made, System.Ready, Headed, WordLaws.Named;
    var s := new System();
    s.ReadyHeaded();
    OperatorsNamed(s.D(), s.words);
    s.PushCell(x);
    s.PushCell(y);
    n := Operate(s, name, x, y);
  }
}
