/** picol/re.c: the backtracking matcher, against the language of the compiled pattern. */
module Regex {

  /** An entry of the compiled pattern. A character class keeps the text between its brackets. */
  datatype Node =
    | UNUSED | DOT | BEGIN | END | QUESTIONMARK | STAR | PLUS
    | CHAR(ch: char) | CHAR_CLASS(ccl: string) | INV_CHAR_CLASS(ccl: string)
    | DIGIT | ALPHA | WHITESPACE

  predicate IsAtom(n: Node) {
    n.DOT? || n.CHAR? || n.CHAR_CLASS? || n.INV_CHAR_CLASS? || n.DIGIT? || n.ALPHA? || n.WHITESPACE?
  }

  predicate CString(s: string) {
    forall i :: 0 <= i < |s| ==> s[i] != 0 as char
  }

  function At(s: string, i: int): char {
    if 0 <= i < |s| then s[i] else 0 as char
  }

  // ----- One character -----

  predicate MatchDigit(c: char) {
    '0' <= c <= '9'
  }

  predicate MatchAlpha(c: char) {
    'a' <= c <= 'z' || 'A' <= c <= 'Z'
  }

  predicate MatchWhitespace(c: char) {
    c == ' ' || c == '\t' || c == '\n' || c == '\r' || c as int == 12 || c as int == 11
  }

  predicate MatchAlphanum(c: char) {
    c == '_' || MatchAlpha(c) || MatchDigit(c)
  }

  /** matchrange, at position k of the class text */
  predicate MatchRange(c: char, ccl: string, k: nat) {
    && c != '-' && At(ccl, k) != 0 as char && At(ccl, k) != '-'
    && At(ccl, k + 1) == '-' && At(ccl, k + 2) != 0 as char && At(ccl, k) <= c <= At(ccl, k + 2)
  }

  predicate IsMetachar(c: char) {
    c == 's' || c == 'S' || c == 'w' || c == 'W' || c == 'd' || c == 'D'
  }

  predicate MatchMetachar(c: char, m: char) {
    if m == 'd' then MatchDigit(c)
    else if m == 'D' then !MatchDigit(c)
    else if m == 'w' then MatchAlphanum(c)
    else if m == 'W' then !MatchAlphanum(c)
    else if m == 's' then MatchWhitespace(c)
    else if m == 'S' then !MatchWhitespace(c)
    else c == m
  }

  /** What the character at position k of a class, not itself escaped, makes the class contain. */
  predicate Contributes(ccl: string, k: nat, c: char) {
    || MatchRange(c, ccl, k)
    || (if At(ccl, k) == '\\' then MatchMetachar(c, At(ccl, k + 1)) else c == At(ccl, k))
  }

  /** The positions of a class, from `from` on, that do not follow an escaping backslash. */
  function Heads(ccl: string, from: nat): set<nat>
    decreases |ccl| - from
  {
    if from >= |ccl| then {}
    else {from} + Heads(ccl, if ccl[from] == '\\' then from + 2 else from + 1)
  }

  /** The class contains c: some position contributes it. A minus sign, unless it is escaped or in a
      metacharacter, has to stand first or last, and the first plain one met decides. */
  predicate ClassFrom(ccl: string, k: nat, c: char)
    decreases |ccl| - k
  {
    if k >= |ccl| then false
    else if MatchRange(c, ccl, k) then true
    else if ccl[k] == '\\' then MatchMetachar(c, At(ccl, k + 1)) || ClassFrom(ccl, k + 2, c)
    else if c == ccl[k] then c != '-' || k == 0 || k + 1 == |ccl|
    else ClassFrom(ccl, k + 1, c)
  }

  predicate Takes(n: Node, c: char)
    requires IsAtom(n)
  {
    match n
    case DOT => true
    case CHAR(ch) => ch == c
    case CHAR_CLASS(ccl) => ClassFrom(ccl, 0, c)
    case INV_CHAR_CLASS(ccl) => !ClassFrom(ccl, 0, c)
    case DIGIT => MatchDigit(c)
    case ALPHA => MatchAlphanum(c)
    case WHITESPACE => MatchWhitespace(c)
  }

  /** For any character but the minus sign a class is the union of what its positions contribute. */
  lemma {:induction false} ClassIsUnion(ccl: string, from: nat, c: char)
    requires CString(ccl) && c != '-' && c != 0 as char
    ensures ClassFrom(ccl, from, c) <==> exists k :: k in Heads(ccl, from) && Contributes(ccl, k, c)
    decreases |ccl| - from
  {
    if from < |ccl| {
      var next := if ccl[from] == '\\' then from + 2 else from + 1;
      ClassIsUnion(ccl, next, c);
      assert from in Heads(ccl, from) && Heads(ccl, from) == {from} + Heads(ccl, next);
      if ClassFrom(ccl, from, c) && !Contributes(ccl, from, c) {
        assert ClassFrom(ccl, next, c);
      }
      if exists k :: k in Heads(ccl, next) && Contributes(ccl, k, c) {
        var k :| k in Heads(ccl, next) && Contributes(ccl, k, c);
        assert k in Heads(ccl, from);
      }
    }
  }

  /** Position k decides about the minus sign: an escape there contributes it, or a plain one stands there. */
  predicate DecidesMinus(ccl: string, k: nat) {
    if At(ccl, k) == '\\' then MatchMetachar('-', At(ccl, k + 1)) else At(ccl, k) == '-'
  }

  /** A minus sign is in the class if and only if the first position that decides about it is an escape, or
      is the first or the last of the class. */
  lemma {:induction false} MinusInClass(ccl: string, from: nat)
    requires CString(ccl)
    ensures ClassFrom(ccl, from, '-') <==>
      exists k :: k in Heads(ccl, from) && DecidesMinus(ccl, k) && (At(ccl, k) == '\\' || k == 0 || k + 1 == |ccl|)
               && forall j :: j in Heads(ccl, from) && DecidesMinus(ccl, j) ==> k <= j
    decreases |ccl| - from
  {
    if from < |ccl| {
      var next := if ccl[from] == '\\' then from + 2 else from + 1;
      assert from in Heads(ccl, from) && Heads(ccl, from) == {from} + Heads(ccl, next);
      HeadsFrom(ccl, next);
      if DecidesMinus(ccl, from) {
        assert forall j :: j in Heads(ccl, from) && DecidesMinus(ccl, j) ==> from <= j;
      } else {
        MinusInClass(ccl, next);
        assert forall k :: k in Heads(ccl, from) && DecidesMinus(ccl, k) <==> k in Heads(ccl, next) && DecidesMinus(ccl, k);
      }
    }
  }

  lemma {:induction false} HeadsFrom(ccl: string, from: nat)
    ensures forall k :: k in Heads(ccl, from) ==> from <= k < |ccl|
    decreases |ccl| - from
  {
    if from < |ccl| {
      HeadsFrom(ccl, if ccl[from] == '\\' then from + 2 else from + 1);
    }
  }

  // ----- Classes and atoms in plain characters -----

  /** A range takes what lies between its ends, ends included. */
  lemma RangeTakes(lo: char, hi: char, c: char)
    requires lo != 0 as char && lo != '-' && lo != '\\' && hi != 0 as char && hi != '\\' && c != 0 as char && c != '-'
    ensures ClassFrom([lo, '-', hi], 0, c) <==> lo <= c <= hi || c == lo || c == hi
  {
    var ccl := [lo, '-', hi];
    assert ClassFrom(ccl, 3, c) == false;
    assert ClassFrom(ccl, 2, c) <==> c == hi;
    assert ClassFrom(ccl, 1, c) <==> c == hi;
  }

  /** A class of characters without backslash and minus takes exactly these. */
  lemma {:induction false} PlainClassTakes(ccl: string, from: nat, c: char)
    requires CString(ccl) && '\\' !in ccl && '-' !in ccl && c != 0 as char && from <= |ccl|
    ensures ClassFrom(ccl, from, c) <==> c in ccl[from..]
    decreases |ccl| - from
  {
    if from < |ccl| {
      assert ccl[from] in ccl && ccl[from..] == [ccl[from]] + ccl[from + 1..];
      assert from + 1 < |ccl| ==> ccl[from + 1] in ccl;
      PlainClassTakes(ccl, from + 1, c);
    }
  }

  predicate Digit(c: char) {
    48 <= c as int <= 57
  }

  predicate WordChar(c: char) {
    48 <= c as int <= 57 || 65 <= c as int <= 90 || 97 <= c as int <= 122 || c as int == 95
  }

  /** Tab, line feed, vertical tab, form feed, carriage return and space. */
  predicate Blank(c: char) {
    c as int in {9, 10, 11, 12, 13, 32}
  }

  /** What the atoms other than classes take. */
  lemma AtomsTake(c: char, d: char)
    ensures Takes(DIGIT, c) <==> Digit(c)
    ensures Takes(ALPHA, c) <==> WordChar(c)
    ensures Takes(WHITESPACE, c) <==> Blank(c)
    ensures Takes(DOT, c)
    ensures Takes(CHAR(d), c) <==> c == d
  {}

  /** Inside a class a backslash with d, w or s stands for the same characters, with D, W or S for all
      others, and with any other letter for that letter. */
  lemma EscapesTake(c: char, d: char)
    requires c != 0 as char && d != 0 as char
    ensures Takes(CHAR_CLASS("\\d"), c) <==> Digit(c)
    ensures Takes(CHAR_CLASS("\\D"), c) <==> !Digit(c)
    ensures Takes(CHAR_CLASS("\\w"), c) <==> WordChar(c)
    ensures Takes(CHAR_CLASS("\\W"), c) <==> !WordChar(c)
    ensures Takes(CHAR_CLASS("\\s"), c) <==> Blank(c)
    ensures Takes(CHAR_CLASS("\\S"), c) <==> !Blank(c)
    ensures d !in "dDwWsS" ==> (Takes(CHAR_CLASS(['\\', d]), c) <==> c == d)
  {
    OneEscape('d', c);
    OneEscape('D', c);
    OneEscape('w', c);
    OneEscape('W', c);
    OneEscape('s', c);
    OneEscape('S', c);
    assert "\\d" == ['\\', 'd'] && "\\D" == ['\\', 'D'] && "\\w" == ['\\', 'w'];
    assert "\\W" == ['\\', 'W'] && "\\s" == ['\\', 's'] && "\\S" == ['\\', 'S'];
    if d !in "dDwWsS" {
      OneEscape(d, c);
    }
  }

  lemma OneEscape(m: char, c: char)
    requires c != 0 as char
    ensures ClassFrom(['\\', m], 0, c) <==> MatchMetachar(c, m)
  {
    var ccl := ['\\', m];
    assert ClassFrom(ccl, 2, c) == false;
  }

  /** An inverted class takes exactly what the class does not. */
  lemma InvertedTakes(ccl: string, c: char)
    ensures Takes(INV_CHAR_CLASS(ccl), c) <==> !Takes(CHAR_CLASS(ccl), c)
  {}

  /** matchcharclass */
  method MatchCharClass(c: char, ccl: string) returns (r: bool)
    requires CString(ccl) && c != 0 as char
    requires EscapesClosed(ccl, 0)
    ensures r == ClassFrom(ccl, 0, c)
  {
    var k := 0;
    while true
      invariant 0 <= k <= |ccl| && EscapesClosed(ccl, k)
      invariant ClassFrom(ccl, k, c) == ClassFrom(ccl, 0, c)
      decreases |ccl| - k
    {
      if MatchRange(c, ccl, k) {
        return true;
      } else if At(ccl, k) == '\\' {
        k := k + 1;
        if MatchMetachar(c, At(ccl, k)) {
          return true;
        } else if c == At(ccl, k) && !IsMetachar(c) {
          return true;
        }
      } else if c == At(ccl, k) {
        if c == '-' {
          return At(ccl, k - 1) == 0 as char || At(ccl, k + 1) == 0 as char;
        } else {
          return true;
        }
      }
      if At(ccl, k) == 0 as char {
        return false;
      }
      k := k + 1;
    }
  }

  /** Every escaping backslash of a class has a character after it. */
  predicate EscapesClosed(ccl: string, k: nat)
    decreases |ccl| - k
  {
    if k >= |ccl| then k == |ccl|
    else if ccl[k] == '\\' then k + 1 < |ccl| && EscapesClosed(ccl, k + 2)
    else EscapesClosed(ccl, k + 1)
  }

  predicate Usable(n: Node) {
    (n.CHAR_CLASS? || n.INV_CHAR_CLASS?) ==> CString(n.ccl) && EscapesClosed(n.ccl, 0)
  }

  /** matchone */
  method MatchOne(n: Node, c: char) returns (r: bool)
    requires IsAtom(n) && Usable(n) && c != 0 as char
    ensures r == Takes(n, c)
  {
    match n
    case DOT => return true;
    case CHAR_CLASS(ccl) => r := MatchCharClass(c, ccl);
    case INV_CHAR_CLASS(ccl) =>
      var inside := MatchCharClass(c, ccl);
      r := !inside;
    case DIGIT => return MatchDigit(c);
    case ALPHA => return MatchAlphanum(c);
    case WHITESPACE => return MatchWhitespace(c);
    case CHAR(ch) => return ch == c;
  }

  // ----- The language -----

  datatype Item = Once(atom: Node) | Maybe(atom: Node) | Any(atom: Node) | Some(atom: Node)

  /** A pattern without its leading anchor: items, and whether it is anchored at the end. */
  datatype Pattern = Bad | Pattern(items: seq<Item>, anchored: bool)

  function Cons(item: Item, rest: Pattern): Pattern {
    if rest.Bad? then Bad else Pattern([item] + rest.items, rest.anchored)
  }

  /** The pattern that the table holds from p on: atoms with at most one quantifier each, an END only
      last, then UNUSED. */
  function Parse(table: seq<Node>, p: nat): Pattern
    decreases |table| - p
  {
    if p >= |table| then Bad
    else if table[p].UNUSED? then Pattern([], false)
    else if p + 1 >= |table| then Bad
    else if table[p].END? && table[p + 1].UNUSED? then Pattern([], true)
    else if !IsAtom(table[p]) || !Usable(table[p]) then Bad
    else if table[p + 1].QUESTIONMARK? then Cons(Maybe(table[p]), Parse(table, p + 2))
    else if table[p + 1].STAR? then Cons(Any(table[p]), Parse(table, p + 2))
    else if table[p + 1].PLUS? then Cons(Some(table[p]), Parse(table, p + 2))
    else Cons(Once(table[p]), Parse(table, p + 1))
  }

  /** An item as the compiler leaves it: the atom, and its quantifier after it. */
  function Entries(item: Item): seq<Node> {
    match item
    case Once(atom) => [atom]
    case Maybe(atom) => [atom, QUESTIONMARK]
    case Any(atom) => [atom, STAR]
    case Some(atom) => [atom, PLUS]
  }

  function AllEntries(items: seq<Item>): seq<Node> {
    if items == [] then [] else Entries(items[0]) + AllEntries(items[1..])
  }

  lemma TableAt(table: seq<Node>, p: nat, first: seq<Node>, more: seq<Node>)
    requires p <= |table| && table[p..] == first + more && 1 <= |first| <= 2 && more != []
    ensures p + |first| < |table| && table[p + |first|..] == more
    ensures table[p] == first[0] && table[p + 1] == if |first| == 2 then first[1] else more[0]
  {
    assert table[p] == table[p..][0] && table[p + 1] == table[p..][1];
    assert table[p + |first|..] == table[p..][|first|..];
  }

  /** What the table holds for the end of a pattern. */
  function Ending(anchored: bool, rest: seq<Node>): (e: seq<Node>)
    ensures e != []
  {
    if anchored then [END, UNUSED] + rest else [UNUSED] + rest
  }

  lemma {:induction false} NoQuantifierNext(items: seq<Item>, anchored: bool, rest: seq<Node>)
    requires forall k :: 0 <= k < |items| ==> IsAtom(items[k].atom)
    ensures var more := AllEntries(items) + Ending(anchored, rest);
      more != [] && !more[0].QUESTIONMARK? && !more[0].STAR? && !more[0].PLUS?
  {
    if items == [] {
      assert [] + Ending(anchored, rest) == Ending(anchored, rest);
    } else {
      assert AllEntries(items)[0] == items[0].atom;
    }
  }

  lemma EndParses(table: seq<Node>, p: nat, anchored: bool, rest: seq<Node>)
    requires p <= |table| && table[p..] == Ending(anchored, rest)
    ensures Parse(table, p) == Pattern([], anchored)
  {
    assert table[p] == table[p..][0] && (anchored ==> table[p + 1] == table[p..][1]);
  }

  lemma EntriesLength(item: Item)
    ensures 1 <= |Entries(item)| <= 2 && Entries(item)[0] == item.atom && (|Entries(item)| == 1 <==> item.Once?)
  {}

  lemma ItemParses(table: seq<Node>, p: nat, item: Item, items: seq<Item>, anchored: bool)
    requires IsAtom(item.atom) && Usable(item.atom) && p + |Entries(item)| < |table|
    requires table[p] == item.atom && (|Entries(item)| == 2 ==> table[p + 1] == Entries(item)[1])
    requires item.Once? ==> !table[p + 1].QUESTIONMARK? && !table[p + 1].STAR? && !table[p + 1].PLUS?
    requires Parse(table, p + |Entries(item)|) == Pattern(items, anchored)
    ensures Parse(table, p) == Pattern([item] + items, anchored)
  {
    hide Usable;
  }

  /** Any items of usable atoms, anchored or not, are read back from their table. */
  lemma {:induction false} EntriesParse(table: seq<Node>, p: nat, items: seq<Item>, anchored: bool, rest: seq<Node>)
    requires p <= |table| && table[p..] == AllEntries(items) + Ending(anchored, rest)
    requires forall k :: 0 <= k < |items| ==> IsAtom(items[k].atom) && Usable(items[k].atom)
    ensures Parse(table, p) == Pattern(items, anchored)
    decreases |items|
  {
    hide Usable, Parse, IsAtom, Ending, Entries;
    if items == [] {
      assert AllEntries(items) + Ending(anchored, rest) == Ending(anchored, rest);
      EndParses(table, p, anchored, rest);
    } else {
      var first, more := Entries(items[0]), AllEntries(items[1..]) + Ending(anchored, rest);
      assert table[p..] == first + more;
      NoQuantifierNext(items[1..], anchored, rest);
      EntriesLength(items[0]);
      TableAt(table, p, first, more);
      EntriesParse(table, p + |first|, items[1..], anchored, rest);
      ItemParses(table, p, items[0], items[1..], anchored);
      assert [items[0]] + items[1..] == items;
    }
  }

  predicate AllAtoms(items: seq<Item>) {
    forall i :: 0 <= i < |items| ==> IsAtom(items[i].atom)
  }

  /** The atom takes each of the first k characters. */
  predicate TakesRun(n: Node, s: string, k: nat)
    requires IsAtom(n) && k <= |s|
  {
    forall i :: 0 <= i < k ==> Takes(n, s[i])
  }

  /** The words of the language. */
  ghost predicate InLanguage(items: seq<Item>, w: string)
    requires AllAtoms(items)
    decreases |items|
  {
    if items == [] then w == ""
    else
      var rest := items[1..];
      match items[0]
      case Once(a) => w != "" && Takes(a, w[0]) && InLanguage(rest, w[1..])
      case Maybe(a) => InLanguage(rest, w) || (w != "" && Takes(a, w[0]) && InLanguage(rest, w[1..]))
      case Any(a) => exists k :: 0 <= k <= |w| && TakesRun(a, w, k) && InLanguage(rest, w[k..])
      case Some(a) => exists k :: 1 <= k <= |w| && TakesRun(a, w, k) && InLanguage(rest, w[k..])
  }

  /** Some prefix of the text, all of it if the pattern is anchored at the end, is in the language. */
  ghost predicate Accepts(items: seq<Item>, anchored: bool, s: string)
    requires AllAtoms(items)
  {
    exists n :: AcceptsAt(items, anchored, s, n)
  }

  ghost predicate AcceptsAt(items: seq<Item>, anchored: bool, s: string, n: int)
    requires AllAtoms(items)
  {
    0 <= n <= |s| && (anchored ==> n == |s|) && InLanguage(items, s[..n])
  }

  lemma AcceptsNothing(anchored: bool, s: string)
    ensures Accepts([], anchored, s) <==> anchored ==> s == ""
  {
    if anchored {
      if s == "" {
        assert AcceptsAt([], anchored, s, 0);
      }
    } else {
      assert AcceptsAt([], anchored, s, 0);
    }
  }

  /** A rest that accepts after k taken characters is a whole that accepts, and the other way round. */
  lemma AfterRun(item: Item, rest: seq<Item>, anchored: bool, s: string, k: nat)
    requires AllAtoms([item] + rest) && AllAtoms(rest) && IsAtom(item.atom) && k <= |s| && TakesRun(item.atom, s, k)
    requires match item
             case Once(_) => k == 1
             case Maybe(_) => k <= 1
             case Any(_) => true
             case Some(_) => k >= 1
    requires Accepts(rest, anchored, s[k..])
    ensures Accepts([item] + rest, anchored, s)
  {
    var n :| AcceptsAt(rest, anchored, s[k..], n);
    var w := s[..k + n];
    assert ([item] + rest)[1..] == rest;
    assert w[k..] == s[k..][..n];
    assert TakesRun(item.atom, w, k);
    if k == 0 {
      assert w[0..] == w;
    }
    assert AcceptsAt([item] + rest, anchored, s, k + n);
  }

  lemma BeforeRest(item: Item, rest: seq<Item>, anchored: bool, s: string) returns (k: nat)
    requires AllAtoms([item] + rest) && AllAtoms(rest) && IsAtom(item.atom)
    requires Accepts([item] + rest, anchored, s)
    ensures k <= |s| && TakesRun(item.atom, s, k) && Accepts(rest, anchored, s[k..])
    ensures match item
            case Once(_) => k == 1
            case Maybe(_) => k <= 1
            case Any(_) => true
            case Some(_) => k >= 1
  {
    var n :| AcceptsAt([item] + rest, anchored, s, n);
    var w := s[..n];
    assert ([item] + rest)[1..] == rest;
    match item {
      case Once(a) => k := 1;
      case Maybe(a) => k := if InLanguage(rest, w) then 0 else 1;
      case Any(a) => k :| 0 <= k <= |w| && TakesRun(a, w, k) && InLanguage(rest, w[k..]);
      case Some(a) => k :| 1 <= k <= |w| && TakesRun(a, w, k) && InLanguage(rest, w[k..]);
    }
    assert w[0..] == w;
    assert InLanguage(rest, w[k..]);
    assert w[k..] == s[k..][..n - k];
    assert TakesRun(item.atom, s, k) by {
      forall i | 0 <= i < k
        ensures Takes(item.atom, s[i])
      {
        assert w[i] == s[i];
      }
    }
    assert AcceptsAt(rest, anchored, s[k..], n - k);
  }

  // ----- The matchers -----

  predicate Wellformed(table: seq<Node>, p: nat) {
    Parse(table, p).Pattern?
  }

  /** What the table holds from p on accepts the text from t on. */
  ghost predicate Matches(table: seq<Node>, p: nat, s: string, t: nat)
    requires Wellformed(table, p) && t <= |s|
  {
    ParsedAtoms(table, p);
    Accepts(Parse(table, p).items, Parse(table, p).anchored, s[t..])
  }

  lemma {:induction false} ParsedAtoms(table: seq<Node>, p: nat)
    ensures Wellformed(table, p) ==> AllAtoms(Parse(table, p).items)
    decreases |table| - p
  {
    if p + 1 < |table| && IsAtom(table[p]) {
      var next := if table[p + 1].QUESTIONMARK? || table[p + 1].STAR? || table[p + 1].PLUS? then p + 2 else p + 1;
      ParsedAtoms(table, next);
    }
  }

  /** The item at p of the table and where the next one starts. */
  ghost predicate ItemAt(table: seq<Node>, p: nat, item: Item, next: nat) {
    && Wellformed(table, p) && Wellformed(table, next) && IsAtom(item.atom) && Usable(item.atom)
    && Parse(table, p).items == [item] + Parse(table, next).items
    && Parse(table, p).anchored == Parse(table, next).anchored
  }

  /** k more characters taken and the next item accepting is this one accepting. */
  lemma Extends(table: seq<Node>, p: nat, item: Item, next: nat, s: string, t: nat, k: nat)
    requires ItemAt(table, p, item, next) && t + k <= |s| && TakesRun(item.atom, s[t..], k)
    requires match item
             case Once(_) => k == 1
             case Maybe(_) => k <= 1
             case Any(_) => true
             case Some(_) => k >= 1
    requires Matches(table, next, s, t + k)
    ensures Matches(table, p, s, t)
  {
    ParsedAtoms(table, p);
    ParsedAtoms(table, next);
    assert s[t..][k..] == s[t + k..];
    AfterRun(item, Parse(table, next).items, Parse(table, p).anchored, s[t..], k);
  }

  /** And every way of accepting is one of these. */
  lemma Splits(table: seq<Node>, p: nat, item: Item, next: nat, s: string, t: nat) returns (k: nat)
    requires ItemAt(table, p, item, next) && t <= |s| && Matches(table, p, s, t)
    ensures t + k <= |s| && TakesRun(item.atom, s[t..], k) && Matches(table, next, s, t + k)
    ensures match item
            case Once(_) => k == 1
            case Maybe(_) => k <= 1
            case Any(_) => true
            case Some(_) => k >= 1
  {
    ParsedAtoms(table, p);
    ParsedAtoms(table, next);
    k := BeforeRest(item, Parse(table, next).items, Parse(table, p).anchored, s[t..]);
    assert s[t..][k..] == s[t + k..];
  }

  /** No way of accepting is left once every run that the item may take, up to the first character its
      atom refuses, has been tried. */
  lemma RunOver(table: seq<Node>, p: nat, item: Item, next: nat, s: string, t0: nat, t: nat)
    requires ItemAt(table, p, item, next) && t0 <= t <= |s|
    requires t == |s| || !Takes(item.atom, s[t]) || (item.Maybe? && t == t0 + 1) || (item.Once? && t == t0 + 1)
    requires forall u :: (if item.Some? || item.Once? then t0 < u else t0 <= u) && u <= t ==> !Matches(table, next, s, u)
    ensures !Matches(table, p, s, t0)
  {
    hide Parse, Accepts;
    assert t < |s| ==> s[t0..][t - t0] == s[t];
    if Matches(table, p, s, t0) {
      var k := Splits(table, p, item, next, s, t0);
    }
  }

  /** matchstar: the longer the run, the later it is tried. */
  method MatchStar(atom: Node, table: seq<Node>, p: nat, next: nat, s: string, t0: nat) returns (r: bool)
    requires CString(s) && t0 <= |s| && p < next <= |table| && ItemAt(table, p, Any(atom), next)
    ensures r == Matches(table, p, s, t0)
    decreases |table| - next, 2
  {
    hide Parse, Accepts;
    var t := t0;
    while true
      invariant t0 <= t <= |s| && TakesRun(atom, s[t0..], t - t0)
      invariant forall u :: t0 <= u < t ==> !Matches(table, next, s, u)
      decreases |s| - t
    {
      var rest := MatchPattern(table, next, s, t);
      if rest {
        Extends(table, p, Any(atom), next, s, t0, t - t0);
        return true;
      }
      var more := false;
      if t < |s| {
        more := MatchOne(atom, s[t]);
      }
      if !more {
        RunOver(table, p, Any(atom), next, s, t0, t);
        return false;
      }
      t := t + 1;
    }
  }

  /** matchplus */
  method MatchPlus(atom: Node, table: seq<Node>, p: nat, next: nat, s: string, t0: nat) returns (r: bool)
    requires CString(s) && t0 <= |s| && p < next <= |table| && ItemAt(table, p, Some(atom), next)
    ensures r == Matches(table, p, s, t0)
    decreases |table| - next, 2
  {
    hide Parse, Accepts;
    var t := t0;
    while true
      invariant t0 <= t <= |s| && TakesRun(atom, s[t0..], t - t0)
      invariant forall u :: t0 < u <= t ==> !Matches(table, next, s, u)
      decreases |s| - t
    {
      var more := false;
      if t < |s| {
        more := MatchOne(atom, s[t]);
      }
      if !more {
        RunOver(table, p, Some(atom), next, s, t0, t);
        return false;
      }
      t := t + 1;
      var rest := MatchPattern(table, next, s, t);
      if rest {
        Extends(table, p, Some(atom), next, s, t0, t - t0);
        return true;
      }
    }
  }

  /** matchquestion, for an atom */
  method MatchQuestion(atom: Node, table: seq<Node>, p: nat, next: nat, s: string, t: nat) returns (r: bool)
    requires CString(s) && t <= |s| && p < next <= |table| && ItemAt(table, p, Maybe(atom), next)
    ensures r == Matches(table, p, s, t)
    decreases |table| - next, 2
  {
    hide Parse, Accepts;
    r := MatchPattern(table, next, s, t);
    if r {
      Extends(table, p, Maybe(atom), next, s, t, 0);
      return;
    }
    var one := false;
    if t < |s| {
      one := MatchOne(atom, s[t]);
    }
    if one {
      r := MatchPattern(table, next, s, t + 1);
      if r {
        Extends(table, p, Maybe(atom), next, s, t, 1);
      }
    }
    if !r {
      RunOver(table, p, Maybe(atom), next, s, t, if one then t + 1 else t);
    }
  }

  /** matchpattern: accept exactly when some prefix of the text is in the language of the pattern. */
  method MatchPattern(table: seq<Node>, p0: nat, s: string, t0: nat) returns (r: bool)
    requires CString(s) && t0 <= |s| && p0 <= |table| && Wellformed(table, p0)
    ensures r == Matches(table, p0, s, t0)
    decreases |table| - p0, 1
  {
    var p, t := p0, t0;
    while true
      invariant p0 <= p <= |table| && t0 <= t <= |s| && Wellformed(table, p)
      invariant Matches(table, p, s, t) == Matches(table, p0, s, t0)
      decreases |table| - p
    {
      if table[p].UNUSED? {
        AcceptsNothing(false, s[t..]);
        return true;
      } else if table[p].END? && table[p + 1].UNUSED? {
        AcceptsNothing(true, s[t..]);
        return t == |s|;
      } else if table[p + 1].QUESTIONMARK? {
        r := MatchQuestion(table[p], table, p, p + 2, s, t);
        return;
      } else if table[p + 1].STAR? {
        r := MatchStar(table[p], table, p, p + 2, s, t);
        return;
      } else if table[p + 1].PLUS? {
        r := MatchPlus(table[p], table, p, p + 2, s, t);
        return;
      }
      var one := false;
      if t < |s| {
        one := MatchOne(table[p], s[t]);
      }
      OnceStep(table, p, s, t, one);
      if !one {
        return false;
      }
      p, t := p + 1, t + 1;
    }
  }

  /** One plain atom against one character. */
  lemma OnceStep(table: seq<Node>, p: nat, s: string, t: nat, one: bool)
    requires t <= |s| && p < |table| && ItemAt(table, p, Once(table[p]), p + 1)
    requires one <==> t < |s| && Takes(table[p], s[t])
    ensures if one then Matches(table, p, s, t) == Matches(table, p + 1, s, t + 1) else !Matches(table, p, s, t)
  {
    hide Parse, Accepts;
    if one && Matches(table, p + 1, s, t + 1) {
      Extends(table, p, Once(table[p]), p + 1, s, t, 1);
    } else {
      RunOver(table, p, Once(table[p]), p + 1, s, t, if one then t + 1 else t);
    }
  }

  /** re_matchp: the first place in the text where the pattern accepts, or -1. An anchored pattern is
      only tried at the start. A first place that is the end of the text also counts as -1. */
  method Search(table: seq<Node>, s: string) returns (r: int)
    requires CString(s) && table != []
    requires Wellformed(table, if table[0].BEGIN? then 1 else 0)
    ensures table[0].BEGIN? ==> r == if Matches(table, 1, s, 0) then 0 else -1
    ensures !table[0].BEGIN? ==> -1 <= r < |s|
    ensures !table[0].BEGIN? && r >= 0 ==>
      Matches(table, 0, s, r) && forall u :: 0 <= u < r ==> !Matches(table, 0, s, u)
    ensures !table[0].BEGIN? && r == -1 ==> forall u :: 0 <= u < |s| ==> !Matches(table, 0, s, u)
  {
    hide Parse, Matches;
    if table[0].BEGIN? {
      var ok := MatchPattern(table, 1, s, 0);
      return if ok then 0 else -1;
    }
    var t := 0;
    while true
      invariant 0 <= t <= |s|
      invariant forall u :: 0 <= u < t ==> !Matches(table, 0, s, u)
      decreases |s| - t
    {
      var ok := MatchPattern(table, 0, s, t);
      if ok {
        if t == |s| {
          return -1;
        }
        return t;
      }
      if t == |s| {
        return -1;
      }
      t := t + 1;
    }
  }
}
