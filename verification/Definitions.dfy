/** miniforth: looking names up, compiling a definition, and why the definition means what its words
    mean one after the other (find.c, number.c, handle_compile.c). */
module Definitions {
  import opened Threaded

  const MAXNAMELEN := 31
  // sizeof(struct word) in cells: next, length and name, code field
  const HEADER_CELLS := 10

  /** The cells of a header as they are counted here: what is in them is kept in the list of words. */
  function BlankHeader(): (cells: seq<Cell>)
    ensures |cells| == HEADER_CELLS
  {
    seq(HEADER_CELLS, _ => 0)
  }

  /** A dictionary header, newest first in a list of them. */
  datatype Word = Word(name: string, immediate: bool, xt: int)

  datatype Meaning = Known(word: Word) | Number(n: Cell) | NotFound

  /** find: the newest word of that name. */
  function Lookup(words: seq<Word>, name: string): Meaning {
    if words == [] then NotFound
    else if words[0].name == name then Known(words[0])
    else Lookup(words[1..], name)
  }

  /** is_number, in base 10 */
  predicate IsNumber(s: string) {
    forall i :: 0 <= i < |s| ==> '0' <= s[i] <= '9'
  }

  function NumberValue(s: string): Cell
    requires IsNumber(s)
  {
    if s == "" then 0
    else
      Wrap(NumberValue(s[..|s| - 1]) * 10 + (s[|s| - 1] as int - '0' as int))
  }

  /** What handle_word makes of a name. */
  function MeaningOf(words: seq<Word>, name: string): Meaning {
    var m := Lookup(words, name);
    if m.NotFound? && IsNumber(name) then Number(NumberValue(name)) else m
  }

  /** Every header's code field is in the dictionary. */
  ghost predicate Headed(D: Dict, words: seq<Word>) {
    && Sound(D, |D.mem|)
    && (forall xt :: xt in D.code ==> 0 <= xt < |D.mem|)
    && (forall w :: w in words ==> w.xt in D.code)
    && |D.mem| < 0x4000_0000
  }

  /** A word of a definition that can be compiled as well as interpreted: found, not immediate, and
      callable, or else a number. */
  predicate Plain(D: Dict, words: seq<Word>, name: string) {
    match MeaningOf(words, name)
    case Known(w) => !w.immediate && w.xt in D.code && Callable(D.code[w.xt])
    case Number(_) => true
    case NotFound => false
  }

  predicate AllPlain(D: Dict, words: seq<Word>, names: seq<string>) {
    forall name :: name in names ==> Plain(D, words, name)
  }

  lemma {:induction false} LookupIsWord(words: seq<Word>, name: string)
    ensures Lookup(words, name).Known? ==> Lookup(words, name).word in words
    ensures !Lookup(words, name).Number?
  {
    if words != [] && words[0].name != name {
      LookupIsWord(words[1..], name);
    }
  }

  /** Interpreting one name. */
  ghost function InterpretWord(D: Dict, words: seq<Word>, name: string, d: Data): Outcome
    requires Headed(D, words) && Plain(D, words, name)
  {
    match MeaningOf(words, name)
    case Known(w) => SoundBelow(D, w.xt + 1); Run(D, w.xt, d)
    case Number(n) => Push(d, n)
  }

  lemma SoundBelow(D: Dict, limit: int)
    requires Sound(D, |D.mem|) && limit <= |D.mem|
    ensures Sound(D, limit)
  {}

  /** Interpreting names one by one. */
  ghost function Interpret(D: Dict, words: seq<Word>, names: seq<string>, d: Data): Outcome
    requires Headed(D, words) && AllPlain(D, words, names)
  {
    if names == [] then Done(d)
    else
      match InterpretWord(D, words, names[0], d)
      case Done(d') => Interpret(D, words, names[1..], d')
      case o => o
  }

  /** The most return addresses any of these names piles up. */
  ghost function NamesNesting(D: Dict, words: seq<Word>, names: seq<string>): nat
    requires Headed(D, words) && AllPlain(D, words, names)
  {
    if names == [] then 0
    else
      assert Plain(D, words, names[0]);
      var m := MeaningOf(words, names[0]);
      var first := if m.Known? then SoundBelow(D, m.word.xt + 1); Nesting(D, m.word.xt) else 0;
      var rest := NamesNesting(D, words, names[1..]);
      if first < rest then rest else first
  }

  /** What compiling a name appends to the dictionary. */
  function CompiledWord(D: Dict, words: seq<Word>, name: string): seq<Cell>
    requires Plain(D, words, name)
  {
    match MeaningOf(words, name)
    case Known(w) => if -0x8000_0000 <= w.xt < 0x8000_0000 then [w.xt] else []
    case Number(n) => [DOLIT, n]
  }

  function Compiled(D: Dict, words: seq<Word>, names: seq<string>): seq<Cell>
    requires AllPlain(D, words, names)
  {
    if names == [] then [] else CompiledWord(D, words, names[0]) + Compiled(D, words, names[1..])
  }

  lemma {:induction false} CompiledSnoc(D: Dict, words: seq<Word>, names: seq<string>, name: string)
    requires AllPlain(D, words, names) && Plain(D, words, name)
    ensures AllPlain(D, words, names + [name])
    ensures Compiled(D, words, names + [name]) == Compiled(D, words, names) + CompiledWord(D, words, name)
  {
    if names == [] {
      assert names + [name] == [name] && [name][1..] == [];
    } else {
      CompiledSnoc(D, words, names[1..], name);
      assert (names + [name])[1..] == names[1..] + [name];
    }
  }

  /** The dictionary after `: n names ;`. */
  function Defined(D: Dict, words: seq<Word>, names: seq<string>): Dict
    requires AllPlain(D, words, names)
  {
    var xt := |D.mem| + HEADER_CELLS - 1;
    Dict(D.mem + BlankHeader() + Compiled(D, words, names) + [UNNESTER], D.code[xt := DoColon])
  }

  // ----- A later dictionary keeps what the earlier one meant -----

  predicate Extends(D': Dict, D: Dict) {
    && D.mem <= D'.mem
    && (forall xt :: xt in D.code ==> xt in D'.code && D'.code[xt] == D.code[xt])
    && (forall xt :: xt in D'.code && xt < |D.mem| ==> xt in D.code)
  }

  lemma {:induction false} BodyKept(D: Dict, D': Dict, xt: int, ip: int)
    requires Extends(D', D) && BodyFrom(D, xt, ip)
    ensures BodyFrom(D', xt, ip)
    decreases |D.mem| - ip
  {
    var c := D.mem[ip];
    assert D'.mem[ip] == c;
    if c == DOLIT && c != UNNESTER {
      BodyKept(D, D', xt, ip + 2);
    } else if c != UNNESTER {
      BodyKept(D, D', xt, ip + 1);
    }
  }

  lemma SoundKept(D: Dict, D': Dict)
    requires Extends(D', D) && Sound(D, |D.mem|)
    ensures Sound(D', |D.mem|)
  {
    forall xt | xt in D'.code && xt < |D.mem|
      ensures Complete(D', xt)
    {
      assert Complete(D, xt);
      if D.code[xt].DoColon? {
        BodyKept(D, D', xt, xt + 1);
      }
    }
  }

  lemma {:induction false} RunKept(D: Dict, D': Dict, xt: int, d: Data)
    requires Extends(D', D) && Sound(D, |D.mem|) && 0 <= xt < |D.mem|
    requires xt in D.code && Callable(D.code[xt])
    requires Sound(D, xt + 1) && Sound(D', xt + 1)
    ensures Run(D', xt, d) == Run(D, xt, d)
    ensures Nesting(D', xt) == Nesting(D, xt)
    decreases xt, |D.mem| + 1
  {
    assert Complete(D, xt);
    if D.code[xt].DoColon? {
      BodyKept(D, D', xt, xt + 1);
      RunBodyKept(D, D', xt, xt + 1, d);
    }
  }

  lemma {:induction false} RunBodyKept(D: Dict, D': Dict, xt: int, ip: int, d: Data)
    requires Extends(D', D) && Sound(D, |D.mem|) && xt < |D.mem|
    requires Sound(D, xt) && Sound(D', xt) && BodyFrom(D, xt, ip) && BodyFrom(D', xt, ip)
    ensures RunBody(D', xt, ip, d) == RunBody(D, xt, ip, d)
    ensures BodyNesting(D', xt, ip) == BodyNesting(D, xt, ip)
    decreases xt, |D.mem| - ip
  {
    var c := D.mem[ip];
    assert D'.mem[ip] == c;
    if c == UNNESTER {
    } else if c == DOLIT {
      assert D'.mem[ip + 1] == D.mem[ip + 1];
      var o := Push(d, D.mem[ip + 1]);
      RunBodyKept(D, D', xt, ip + 2, if o.Done? then o.d else d);
    } else {
      assert Complete(D, c);
      RunKept(D, D', c, d);
      var o := Run(D, c, d);
      RunBodyKept(D, D', xt, ip + 1, if o.Done? then o.d else d);
    }
  }

  // ----- Compiling preserves meaning -----

  lemma SoundDown(D: Dict, limit: int, limit': int)
    requires Sound(D, limit) && limit' <= limit
    ensures Sound(D, limit')
  {}

  lemma NothingCompiled(D: Dict, words: seq<Word>)
    ensures AllPlain(D, words, []) && Compiled(D, words, []) == []
  {}

  /** Compiled names are threaded code. */
  lemma {:induction false} CompiledIsBody(D: Dict, words: seq<Word>, names: seq<string>, D': Dict, xt: int, ip: int)
    requires Headed(D, words) && AllPlain(D, words, names) && Extends(D', D) && xt >= |D.mem|
    requires 0 <= ip <= |D'.mem| && D'.mem[ip..] == Compiled(D, words, names) + [UNNESTER]
    ensures BodyFrom(D', xt, ip)
    decreases |names|
  {
    if names == [] {
      assert D'.mem[ip] == D'.mem[ip..][0];
    } else {
      var first := FirstCells(D, words, names, D', ip);
      CompiledIsBody(D, words, names[1..], D', xt, ip + first);
    }
  }

  /** The cells of the first name, and where those of the others start. */
  lemma FirstCells(D: Dict, words: seq<Word>, names: seq<string>, D': Dict, ip: int) returns (first: nat)
    requires Headed(D, words) && AllPlain(D, words, names) && Extends(D', D) && names != []
    requires 0 <= ip <= |D'.mem| && D'.mem[ip..] == Compiled(D, words, names) + [UNNESTER]
    ensures ip + first <= |D'.mem| && D'.mem[ip + first..] == Compiled(D, words, names[1..]) + [UNNESTER]
    ensures match MeaningOf(words, names[0])
            case Known(w) => first == 1 && D'.mem[ip] == w.xt && w.xt in D.code && 0 <= w.xt < |D.mem|
                             && Callable(D.code[w.xt]) && w.xt != UNNESTER && w.xt != DOLIT
            case Number(n) => first == 2 && ip + 1 < |D'.mem| && D'.mem[ip] == DOLIT && D'.mem[ip + 1] == n
            case NotFound => false
  {
    hide Sound, Extends;
    assert Plain(D, words, names[0]);
    LookupIsWord(words, names[0]);
    var cells := CompiledWord(D, words, names[0]);
    first := |cells|;
    var rest := Compiled(D, words, names[1..]) + [UNNESTER];
    assert D'.mem[ip..] == cells + rest;
    SuffixSplit(D'.mem, ip, cells, rest);
    PrimitivesOwnCode(D);
  }

  lemma PrimitivesOwnCode(D: Dict)
    requires Sound(D, |D.mem|)
    ensures UNNESTER in D.code && !Callable(D.code[UNNESTER])
    ensures DOLIT in D.code && !Callable(D.code[DOLIT])
  {}

  lemma SuffixSplit(mem: seq<Cell>, ip: int, cells: seq<Cell>, rest: seq<Cell>)
    requires 0 <= ip <= |mem| && mem[ip..] == cells + rest
    ensures ip + |cells| <= |mem| && mem[ip + |cells|..] == rest
    ensures forall k :: 0 <= k < |cells| ==> mem[ip + k] == cells[k]
  {
    assert mem[ip..][|cells|..] == mem[ip + |cells|..];
    forall k | 0 <= k < |cells|
      ensures mem[ip + k] == cells[k]
    {
      assert mem[ip..][k] == cells[k];
    }
  }

  /** Running the compiled names is interpreting them, with the same nesting. */
  lemma {:induction false} CompiledMeans(D: Dict, words: seq<Word>, names: seq<string>, D': Dict, xt: int, ip: int, d: Data)
    requires Headed(D, words) && AllPlain(D, words, names) && Extends(D', D) && xt >= |D.mem|
    requires Sound(D', xt) && BodyFrom(D', xt, ip)
    requires 0 <= ip <= |D'.mem| && D'.mem[ip..] == Compiled(D, words, names) + [UNNESTER]
    ensures RunBody(D', xt, ip, d) == Interpret(D, words, names, d)
    ensures BodyNesting(D', xt, ip) == NamesNesting(D, words, names)
    decreases |names|
  {
    hide Sound, Complete, Extends, Compiled, CompiledWord, Lookup, NumberValue;
    if names == [] {
      NothingCompiled(D, words);
      assert D'.mem[ip] == D'.mem[ip..][0];
    } else {
      assert Plain(D, words, names[0]);
      var first := FirstCells(D, words, names, D', ip);
      CompiledIsBody(D, words, names[1..], D', xt, ip + first);
      match MeaningOf(words, names[0])
      case Known(w) =>
        SoundBelow(D, w.xt + 1);
        SoundDown(D', xt, w.xt + 1);
        RunKept(D, D', w.xt, d);
        var o := Run(D, w.xt, d);
        CompiledMeans(D, words, names[1..], D', xt, ip + 1, if o.Done? then o.d else d);
      case Number(n) =>
        var o := Push(d, n);
        CompiledMeans(D, words, names[1..], D', xt, ip + 2, if o.Done? then o.d else d);
    }
  }

  /** The compiler is correct: in the dictionary that `: n names ;` leaves, n means what interpreting
      the names one by one means, for any data at all, and nests one return address deeper. */
  lemma DefinitionMeans(D: Dict, words: seq<Word>, names: seq<string>, d: Data)
    requires Headed(D, words) && AllPlain(D, words, names)
    ensures var D', xt := Defined(D, words, names), |D.mem| + HEADER_CELLS - 1;
      && Extends(D', D) && Sound(D', |D'.mem|) && Sound(D', xt + 1) && D'.code[xt] == DoColon
      && Run(D', xt, d) == Interpret(D, words, names, d)
      && Nesting(D', xt) == 1 + NamesNesting(D, words, names)
  {
    var D', xt := Defined(D, words, names), |D.mem| + HEADER_CELLS - 1;
    assert D.mem <= D'.mem;
    SoundKept(D, D');
    assert D'.mem[xt + 1..] == Compiled(D, words, names) + [UNNESTER];
    CompiledIsBody(D, words, names, D', xt, xt + 1);
    assert Sound(D', |D'.mem|);
    CompiledMeans(D, words, names, D', xt, xt + 1, d);
  }

  // ----- Words made by variable and constant -----

  /** A new first word with its code field and what was put behind it. */
  ghost predicate NewWord(D: Dict, words: seq<Word>, D': Dict, words': seq<Word>, name: string, c: Code, body: seq<Cell>) {
    var xt := |D.mem| + HEADER_CELLS - 1;
    && D'.mem == D.mem + BlankHeader() + body && D'.code == D.code[xt := c]
    && words' == [Word(name, false, xt)] + words
  }

  /** A name that can be used in definitions, and that pushes n whatever the data. */
  ghost predicate Pushes(D: Dict, words: seq<Word>, name: string, n: Cell) {
    && Headed(D, words) && Plain(D, words, name)
    && forall d :: InterpretWord(D, words, name, d) == Push(d, n)
  }

  /** A name means in the later dictionary what it means in the earlier one. */
  ghost predicate SameMeaning(D: Dict, words: seq<Word>, D': Dict, words': seq<Word>, name: string) {
    && Headed(D, words) && Plain(D, words, name) && Headed(D', words') && Plain(D', words', name)
    && forall d :: InterpretWord(D', words', name, d) == InterpretWord(D, words, name, d)
  }

  /** A word was added to the dictionary: it pushes n, and every other name is found and means what it was
      found as and meant. */
  ghost predicate Added(D: Dict, words: seq<Word>, D': Dict, words': seq<Word>, name: string, n: Cell) {
    && Extends(D', D) && Pushes(D', words', name, n)
    && (forall other :: other != name ==> Lookup(words', other) == Lookup(words, other))
    && (forall other :: other != name && Plain(D, words, other) ==> SameMeaning(D, words, D', words', other))
  }

  /** The newest word is found first. */
  lemma NewestFirst(words: seq<Word>, w: Word)
    ensures Lookup([w] + words, w.name) == Known(w)
  {}

  /** And hides nothing of another name. */
  lemma OtherName(words: seq<Word>, w: Word, name: string)
    requires name != w.name
    ensures Lookup([w] + words, name) == Lookup(words, name)
  {
    assert ([w] + words)[1..] == words;
  }

  /** Names other than the new word's keep their meaning for all data. */
  lemma OthersKept(D: Dict, words: seq<Word>, D': Dict, w: Word, name: string)
    requires Headed(D, words) && Headed(D', [w] + words) && Extends(D', D)
    requires Plain(D, words, name) && name != w.name
    ensures SameMeaning(D, words, D', [w] + words, name)
  {
    hide Lookup, Sound, Extends;
    OtherName(words, w, name);
    assert Extends(D', D) ==> forall xt :: xt in D.code ==> xt in D'.code && D'.code[xt] == D.code[xt] by {
      ExtendsCode(D', D);
    }
    LookupIsWord(words, name);
    forall d
      ensures InterpretWord(D', [w] + words, name, d) == InterpretWord(D, words, name, d)
    {
      match MeaningOf(words, name)
      case Known(v) =>
        SoundBelow(D, v.xt + 1);
        SoundBelow(D', v.xt + 1);
        RunKept(D, D', v.xt, d);
      case Number(n) =>
    }
  }

  lemma ExtendsCode(D': Dict, D: Dict)
    requires Extends(D', D)
    ensures |D.mem| <= |D'.mem|
    ensures forall xt :: xt in D.code ==> xt in D'.code && D'.code[xt] == D.code[xt]
  {}

  /** A word that variable or constant made leaves the dictionary in order and pushes the address of
      its cell, or its number, and every other name keeps its meaning. */
  lemma WordMade(D: Dict, words: seq<Word>, D': Dict, words': seq<Word>, name: string, c: Code, n: Cell)
    requires Headed(D, words) && NewWord(D, words, D', words', name, c, [n]) && (c.DoVariable? || c.DoConstant?)
    requires |D'.mem| < 0x4000_0000
    ensures Added(D, words, D', words', name, if c.DoVariable? then |D'.mem| - 1 else n)
    ensures Lookup(words', name) == Known(words'[0])
  {
    hide Lookup;
    var xt := |D.mem| + HEADER_CELLS - 1;
    SoundKept(D, D');
    assert Complete(D', xt);
    assert Sound(D', |D'.mem|);
    NewestFirst(words, words'[0]);
    assert Headed(D', words');
    forall d
      ensures InterpretWord(D', words', name, d) == Push(d, if c.DoVariable? then |D'.mem| - 1 else n)
    {
      SoundBelow(D', xt + 1);
      assert D'.mem[xt + 1] == n;
    }
    forall other: string | other != name
      ensures Lookup(words', other) == Lookup(words, other)
      ensures Plain(D, words, other) ==> SameMeaning(D, words, D', words', other)
    {
      OtherName(words, words'[0], other);
      if Plain(D, words, other) {
        OthersKept(D, words, D', words'[0], other);
      }
    }
  }

  // ----- Variables hold what is stored in them -----

  /** The same cells are there to be fetched and stored. */
  predicate SameCells(o: Outcome, d: Data) {
    match o
    case Done(d') => d'.vars.Keys == d.vars.Keys
    case Stopped(d') => d'.vars.Keys == d.vars.Keys
    case Undefined => true
  }

  /** No word that is run makes or loses a variable. */
  lemma {:induction false} RunKeepsCells(D: Dict, xt: int, d: Data)
    requires Sound(D, xt + 1) && xt in D.code && Callable(D.code[xt]) && xt >= 0
    ensures SameCells(Run(D, xt, d), d)
    decreases xt, |D.mem| + 1
  {
    assert Complete(D, xt);
    if D.code[xt].DoColon? {
      BodyKeepsCells(D, xt, xt + 1, d);
    }
  }

  lemma {:induction false} BodyKeepsCells(D: Dict, xt: int, ip: int, d: Data)
    requires Sound(D, xt) && BodyFrom(D, xt, ip)
    ensures SameCells(RunBody(D, xt, ip, d), d)
    decreases xt, |D.mem| - ip
  {
    var c := D.mem[ip];
    if c == UNNESTER {
    } else if c == DOLIT {
      var o := Push(d, D.mem[ip + 1]);
      if o.Done? {
        BodyKeepsCells(D, xt, ip + 2, o.d);
      }
    } else {
      assert Complete(D, c);
      RunKeepsCells(D, c, d);
      var o := Run(D, c, d);
      if o.Done? {
        BodyKeepsCells(D, xt, ip + 1, o.d);
      }
    }
  }

  lemma {:induction false} InterpretKeepsCells(D: Dict, words: seq<Word>, names: seq<string>, d: Data)
    requires Headed(D, words) && AllPlain(D, words, names)
    ensures SameCells(Interpret(D, words, names, d), d)
  {
    if names != [] {
      assert Plain(D, words, names[0]);
      var m := MeaningOf(words, names[0]);
      if m.Known? {
        SoundBelow(D, m.word.xt + 1);
        RunKeepsCells(D, m.word.xt, d);
      }
      var o := InterpretWord(D, words, names[0], d);
      if o.Done? {
        InterpretKeepsCells(D, words, names[1..], o.d);
      }
    }
  }

  /** A name that stands for the function c of the C program. */
  ghost predicate StandsFor(D: Dict, words: seq<Word>, name: string, c: Code) {
    var m := Lookup(words, name);
    m.Known? && m.word.xt in D.code && D.code[m.word.xt] == c
  }

  /** `v ! v @`: what is stored in a variable is what is fetched from it, and nothing else changes. */
  lemma StoreThenFetch(D: Dict, words: seq<Word>, v: string, cell: Cell, d: Data)
    requires Pushes(D, words, v, cell) && cell in d.vars && 0 < d.sp < STACK_CELLS
    requires StandsFor(D, words, "!", Store) && Plain(D, words, "!")
    requires StandsFor(D, words, "@", Fetch) && Plain(D, words, "@")
    ensures AllPlain(D, words, [v, "!", v, "@"])
    ensures match Interpret(D, words, [v, "!", v, "@"], d)
            case Done(d') =>
              && d'.sp == d.sp && d'.out == d.out && d'.vars == d.vars[cell := Top(d, 0)]
              && d'.stack[d.sp..] == d.stack[d.sp..]
            case _ => false
  {
    hide Lookup, Sound;
    var names := [v, "!", v, "@"];
    assert names[1..] == ["!", v, "@"] && names[1..][1..] == [v, "@"] && names[1..][1..][1..] == ["@"];
    assert names[1..][1..][1..][1..] == [];
    var d1 := InterpretWord(D, words, v, d).d;
    NamedRuns(D, words, "!", Store, d1);
    var d2 := InterpretWord(D, words, "!", d1).d;
    assert d2.vars == d.vars[cell := Top(d, 0)] && d2.sp == d.sp + 1;
    var d3 := InterpretWord(D, words, v, d2).d;
    NamedRuns(D, words, "@", Fetch, d3);
    var d4 := InterpretWord(D, words, "@", d3).d;
    assert Interpret(D, words, ["@"], d3) == Done(d4);
    assert Interpret(D, words, [v, "@"], d2) == Done(d4);
    assert Interpret(D, words, ["!", v, "@"], d1) == Done(d4);
  }

  lemma NamedRuns(D: Dict, words: seq<Word>, name: string, c: Code, d: Data)
    requires Headed(D, words) && StandsFor(D, words, name, c) && Plain(D, words, name)
    requires Callable(c) && !c.DoColon? && !c.DoConstant? && !c.DoVariable?
    ensures InterpretWord(D, words, name, d) == Primitive(c, d)
  {
    LookupIsWord(words, name);
    SoundBelow(D, Lookup(words, name).word.xt + 1);
  }
}
