/** picol/re.c: the compiler from pattern text to the table that the matcher walks. */
module RegexCompile {
  import opened Regex

  const MAX_REGEXP_OBJECTS := 30
  const MAX_CHAR_CLASS_LEN := 40
  const NUL := 0 as char

  // ----- What a pattern says -----

  /** A symbol of the pattern and where the next one starts. Broken is a class without its bracket, or
      a backslash with nothing after it. */
  datatype Token = Broken | Token(node: Node, next: nat)

  datatype Tokens = Malformed | Tokens(nodes: seq<Node>)

  /** The closing bracket of a class, past escaped characters, or the end of the pattern. */
  function ClassEnd(s: string, i: nat): (e: nat)
    requires i <= |s|
    ensures i <= e <= |s| && (e < |s| ==> s[e] == ']')
    decreases |s| - i
  {
    if i == |s| || s[i] == ']' then i
    else if s[i] != '\\' then ClassEnd(s, i + 1)
    else if i + 2 <= |s| then ClassEnd(s, i + 2)
    else |s|
  }

  function Escaped(c: char): Node {
    if c == 'd' || c == 'D' then DIGIT
    else if c == 'w' || c == 'W' then ALPHA
    else if c == 's' || c == 'S' then WHITESPACE
    else CHAR(c)
  }

  function TokenAt(s: string, i: nat): (t: Token)
    requires i < |s|
    ensures t.Token? ==> i < t.next <= |s|
  {
    match s[i]
    case '^' => Token(BEGIN, i + 1)
    case '$' => Token(END, i + 1)
    case '.' => Token(DOT, i + 1)
    case '*' => Token(STAR, i + 1)
    case '+' => Token(PLUS, i + 1)
    case '?' => Token(QUESTIONMARK, i + 1)
    case '\\' => if i + 1 < |s| then Token(Escaped(s[i + 1]), i + 2) else Broken
    case '[' =>
      var inverted := At(s, i + 1) == '^';
      var b := if inverted then i + 2 else i + 1;
      var e := ClassEnd(s, b);
      if e == |s| then Broken
      else Token(if inverted then INV_CHAR_CLASS(s[b..e]) else CHAR_CLASS(s[b..e]), e + 1)
    case c => Token(CHAR(c), i + 1)
  }

  function Prepend(nodes: seq<Node>, rest: Tokens): Tokens {
    if rest.Malformed? then Malformed else Tokens(nodes + rest.nodes)
  }

  /** The first `room` symbols of the pattern from i on. */
  function Tokenize(s: string, i: nat, room: nat): Tokens
    requires i <= |s|
    decreases room
  {
    if i == |s| || room == 0 then Tokens([])
    else
      var t := TokenAt(s, i);
      if t.Broken? then Malformed else Prepend([t.node], Tokenize(s, t.next, room - 1))
  }

  // ----- Writing a pattern down -----

  predicate Special(c: char) {
    c == '^' || c == '$' || c == '.' || c == '*' || c == '+' || c == '?' || c == '\\' || c == '['
  }

  function Spelling(n: Node): string {
    match n
    case UNUSED => ""
    case BEGIN => "^"
    case END => "$"
    case DOT => "."
    case STAR => "*"
    case PLUS => "+"
    case QUESTIONMARK => "?"
    case DIGIT => "\\d"
    case ALPHA => "\\w"
    case WHITESPACE => "\\s"
    case CHAR(ch) => if Special(ch) then ['\\', ch] else [ch]
    case CHAR_CLASS(ccl) => "[" + ccl + "]"
    case INV_CHAR_CLASS(ccl) => "[^" + ccl + "]"
  }

  function Spell(nodes: seq<Node>): string {
    if nodes == [] then "" else Spelling(nodes[0]) + Spell(nodes[1..])
  }

  /** A class text that its own closing bracket ends: no plain closing bracket, no open escape. */
  predicate Closed(ccl: string) {
    ClassEnd(ccl + "]", 0) == |ccl|
  }

  predicate Spellable(n: Node) {
    match n
    case UNUSED => false
    case CHAR(ch) => ch != NUL
    case CHAR_CLASS(ccl) => CString(ccl) && Closed(ccl) && At(ccl, 0) != '^'
    case INV_CHAR_CLASS(ccl) => CString(ccl) && Closed(ccl)
    case _ => true
  }

  /** Where a class ends does not depend on what surrounds it. */
  lemma {:induction false} ClassEndInside(before: string, ccl: string, i: nat, after: string)
    requires i <= |ccl| && ClassEnd(ccl + "]", i) == |ccl|
    ensures ClassEnd(before + ccl + "]" + after, |before| + i) == |before| + |ccl|
    decreases |ccl| - i
  {
    var s := before + ccl + "]" + after;
    var short := ccl + "]";
    assert s[|before| + i] == short[i];
    if i < |ccl| {
      if short[i] != '\\' {
        ClassEndInside(before, ccl, i + 1, after);
      } else {
        ClassEndInside(before, ccl, i + 2, after);
      }
    }
  }

  lemma ClassOfSpelling(before: string, ccl: string, inverted: bool, after: string)
    requires CString(ccl) && Closed(ccl) && (inverted || At(ccl, 0) != '^')
    ensures var n := if inverted then INV_CHAR_CLASS(ccl) else CHAR_CLASS(ccl);
      TokenAt(before + Spelling(n) + after, |before|) == Token(n, |before| + |Spelling(n)|)
  {
    hide ClassEnd, CString;
    var n := if inverted then INV_CHAR_CLASS(ccl) else CHAR_CLASS(ccl);
    var s := before + Spelling(n) + after;
    var open := before + (if inverted then "[^" else "[");
    assert s == open + ccl + "]" + after;
    assert s[|before|] == '[';
    assert At(s, |before| + 1) == if inverted then '^' else if ccl == "" then ']' else ccl[0];
    ClassEndInside(open, ccl, 0, after);
    assert s[|open|..|open| + |ccl|] == ccl;
  }

  lemma TokenOfSpelling(before: string, n: Node, after: string)
    requires Spellable(n)
    ensures Spelling(n) != ""
    ensures TokenAt(before + Spelling(n) + after, |before|) == Token(n, |before| + |Spelling(n)|)
  {
    hide ClassEnd, CString;
    if n.CHAR_CLASS? || n.INV_CHAR_CLASS? {
      ClassOfSpelling(before, n.ccl, n.INV_CHAR_CLASS?, after);
    } else {
      var s := before + Spelling(n) + after;
      assert s[|before|] == Spelling(n)[0];
      if |Spelling(n)| > 1 {
        assert s[|before| + 1] == Spelling(n)[1];
      }
    }
  }

  function FirstOf(nodes: seq<Node>, room: nat): seq<Node> {
    if |nodes| <= room then nodes else nodes[..room]
  }

  /** Reading back what was written down gives the same symbols, as many as there is room for. */
  lemma {:induction false} TokensOfSpelling(before: string, nodes: seq<Node>, room: nat)
    requires forall k :: 0 <= k < |nodes| ==> Spellable(nodes[k])
    ensures Tokenize(before + Spell(nodes), |before|, room)
         == Tokens(FirstOf(nodes, room))
    decreases |nodes|
  {
    hide TokenAt, Spelling, Spellable;
    if nodes != [] && room > 0 {
      var n, rest := nodes[0], nodes[1..];
      TokenOfSpelling(before, n, Spell(rest));
      assert before + Spell(nodes) == before + Spelling(n) + Spell(rest);
      TokensOfSpelling(before + Spelling(n), rest, room - 1);
      assert [n] + FirstOf(rest, room - 1) == FirstOf(nodes, room);
    }
  }

  // ----- The static tables -----

  /** An entry of re_compiled: a class points at its text in ccl_buf. */
  datatype Entry = Plain(node: Node) | ClassAt(inverted: bool, begin: nat)

  /** The characters of the buffer from b up to a NUL. */
  function TextAt(buf: seq<char>, b: nat): string
    decreases |buf| - b
  {
    if b >= |buf| || buf[b] == NUL then "" else [buf[b]] + TextAt(buf, b + 1)
  }

  function View(e: Entry, buf: seq<char>): Node {
    match e
    case Plain(n) => n
    case ClassAt(inverted, b) => if inverted then INV_CHAR_CLASS(TextAt(buf, b)) else CHAR_CLASS(TextAt(buf, b))
  }

  predicate IsClass(n: Node) {
    n.CHAR_CLASS? || n.INV_CHAR_CLASS?
  }

  /** The buffer space that the classes of a pattern take. */
  function Space(nodes: seq<Node>): nat {
    if nodes == [] then 0
    else Space(nodes[..|nodes| - 1]) + if IsClass(nodes[|nodes| - 1]) then |nodes[|nodes| - 1].ccl| + 1 else 0
  }

  lemma {:induction false} SpaceGrows(nodes: seq<Node>, k: nat)
    requires k <= |nodes|
    ensures Space(nodes[..k]) <= Space(nodes)
    decreases |nodes|
  {
    if k == |nodes| {
      assert nodes[..k] == nodes;
    } else {
      SpaceGrows(nodes[..|nodes| - 1], k);
      assert nodes[..|nodes| - 1][..k] == nodes[..k];
    }
  }

  /** The entry stands for n; the text of a class lies, with a NUL on each side, in the used buffer. */
  predicate Stands(e: Entry, buf: seq<char>, used: nat, n: Node)
    requires used <= |buf|
  {
    match e
    case Plain(node) => node == n && !IsClass(n)
    case ClassAt(inverted, b) =>
      && 1 <= b && IsClass(n) && n.INV_CHAR_CLASS? == inverted && CString(n.ccl)
      && b + |n.ccl| < used && buf[b - 1] == NUL && buf[b..b + |n.ccl|] == n.ccl && buf[b + |n.ccl|] == NUL
  }

  lemma TokenizeStep(s: string, i: nat, room: nat)
    requires i <= |s| && Tokenize(s, i, room).Tokens?
    ensures i == |s| || room == 0 ==> Tokenize(s, i, room).nodes == []
    ensures i < |s| && room > 0 ==>
      && TokenAt(s, i).Token? && Tokenize(s, TokenAt(s, i).next, room - 1).Tokens?
      && Tokenize(s, i, room).nodes == [TokenAt(s, i).node] + Tokenize(s, TokenAt(s, i).next, room - 1).nodes
  {
  }

  lemma StandsStill(e: Entry, buf: seq<char>, used: nat, later: seq<char>, now: nat, n: Node)
    requires used <= |buf| && used <= now <= |later| && later[..used] == buf[..used] && Stands(e, buf, used, n)
    ensures Stands(e, later, now, n)
  {
    if e.ClassAt? {
      assert forall k :: 0 <= k < used ==> later[k] == later[..used][k] == buf[k];
    }
  }

  lemma StandStill(entries: seq<Entry>, after: seq<Entry>, j: nat, buf: seq<char>, used: nat,
                   later: seq<char>, now: nat, nodes: seq<Node>)
    requires used <= |buf| && used <= now <= |later| && later[..used] == buf[..used]
    requires j < |entries| == |after| && |nodes| == j
    requires forall k :: 0 <= k < j ==> after[k] == entries[k] && Stands(entries[k], buf, used, nodes[k])
    ensures forall k :: 0 <= k < j ==> Stands(after[k], later, now, nodes[k])
  {
    forall k | 0 <= k < j
      ensures Stands(after[k], later, now, nodes[k])
    {
      StandsStill(entries[k], buf, used, later, now, nodes[k]);
    }
  }

  lemma SpaceOfLonger(nodes: seq<Node>, n: Node)
    ensures Space([]) == 0 && Space(nodes + [n]) == Space(nodes) + Space([n])
  {
    assert (nodes + [n])[..|nodes|] == nodes;
    SpaceOfOne(n);
  }

  lemma SpaceOfOne(n: Node)
    ensures Space([n]) == if IsClass(n) then |n.ccl| + 1 else 0
  {
    assert [n][..0] == [];
  }

  lemma {:induction false} TextStands(buf: seq<char>, b: nat, text: string)
    requires CString(text) && b + |text| < |buf| && buf[b..b + |text|] == text && buf[b + |text|] == NUL
    ensures TextAt(buf, b) == text
    decreases |text|
  {
    if text != "" {
      assert buf[b] == text[0];
      assert buf[b + 1..b + 1 + |text[1..]|] == text[1..];
      TextStands(buf, b + 1, text[1..]);
      assert text == [text[0]] + text[1..];
    }
  }

  class Compiler {
    const re_compiled: array<Entry>
    const ccl_buf: array<char>

    ghost predicate Valid()
      reads this, ccl_buf
    {
      re_compiled.Length == MAX_REGEXP_OBJECTS && ccl_buf.Length == MAX_CHAR_CLASS_LEN && ccl_buf[0] == NUL
    }

    constructor ()
      ensures Valid() && fresh(re_compiled) && fresh(ccl_buf) && re_compiled.Length == 30 && ccl_buf.Length == 40
    {
      re_compiled := new Entry[MAX_REGEXP_OBJECTS](_ => Plain(UNUSED));
      ccl_buf := new char[MAX_CHAR_CLASS_LEN](_ => NUL);
    }

    /** The table as the matcher reads it. */
    function Table(): (t: seq<Node>)
      reads re_compiled, ccl_buf
      ensures |t| == re_compiled.Length
    {
      seq(re_compiled.Length, k requires 0 <= k < re_compiled.Length reads re_compiled, ccl_buf =>
        View(re_compiled[k], ccl_buf[..]))
    }

    /** Copies the text of a class into the buffer; ok is false when the buffer has no room for it and
        its NUL. */
    method CopyClass(s: string, start: nat, begin: nat) returns (ok: bool, i: nat, used: nat)
      requires Valid() && CString(s) && start <= |s| && ClassEnd(s, start) < |s| && 1 <= begin <= ccl_buf.Length
      modifies ccl_buf
      ensures Valid() && ccl_buf[..begin] == old(ccl_buf[..begin])
      ensures ok <==> begin + (ClassEnd(s, start) - start) + 1 <= ccl_buf.Length
      ensures ok ==> i == ClassEnd(s, start) && used == begin + (i - start) + 1
      ensures ok ==> ccl_buf[begin..used - 1] == s[start..i] && ccl_buf[used - 1] == NUL
    {
      i, used := start, begin;
      while s[i] != ']'
        invariant start <= i <= |s| && ClassEnd(s, i) == ClassEnd(s, start) < |s|
        invariant used == begin + (i - start) <= ccl_buf.Length
        invariant Valid() && ccl_buf[..begin] == old(ccl_buf[..begin])
        invariant forall k :: begin <= k < used ==> ccl_buf[k] == s[start + (k - begin)]
        decreases |s| - i
      {
        if s[i] == '\\' {
          if used >= MAX_CHAR_CLASS_LEN - 1 {
            return false, i, used;
          }
          ccl_buf[used] := s[i];
          used, i := used + 1, i + 1;
        } else if used >= MAX_CHAR_CLASS_LEN {
          return false, i, used;
        }
        ccl_buf[used] := s[i];
        used, i := used + 1, i + 1;
      }
      if used >= MAX_CHAR_CLASS_LEN {
        return false, i, used;
      }
      ccl_buf[used] := NUL;
      used := used + 1;
      ok := true;
    }

    /** One turn of the compiling loop: the symbol at i goes to entry j. */
    method Symbol(s: string, i: nat, j: nat, used: nat) returns (ok: bool, next: nat, now: nat)
      requires Valid() && CString(s) && i < |s| && TokenAt(s, i).Token?
      requires j < MAX_REGEXP_OBJECTS && 1 <= used <= MAX_CHAR_CLASS_LEN && ccl_buf[used - 1] == NUL
      modifies re_compiled, ccl_buf
      ensures Valid() && ccl_buf[..used] == old(ccl_buf[..used])
      ensures forall k :: 0 <= k < MAX_REGEXP_OBJECTS && k != j ==> re_compiled[k] == old(re_compiled[k])
      ensures ok <==> used + Space([TokenAt(s, i).node]) <= MAX_CHAR_CLASS_LEN
      ensures ok ==> next == TokenAt(s, i).next && now == used + Space([TokenAt(s, i).node])
      ensures ok ==> Stands(re_compiled[j], ccl_buf[..], now, TokenAt(s, i).node) && ccl_buf[now - 1] == NUL
    {
      hide ClassEnd;
      ghost var n := TokenAt(s, i).node;
      SpaceOfOne(n);
      match s[i] {
        case '[' =>
          var inverted := At(s, i + 1) == '^';
          var start := if inverted then i + 2 else i + 1;
          var end;
          next := i;
          ok, end, now := CopyClass(s, start, used);
          if ok {
            re_compiled[j] := ClassAt(inverted, used);
            next := end + 1;
            assert ccl_buf[..][used..used + |n.ccl|] == n.ccl;
            assert ccl_buf[used - 1] == ccl_buf[..used][used - 1];
          }
        case '\\' =>
          re_compiled[j] := Plain(Escaped(s[i + 1]));
          ok, next, now := true, i + 2, used;
        case c =>
          re_compiled[j] := Plain(TokenAt(s, i).node);
          ok, next, now := true, i + 1, used;
      }
    }

    /** re_compile. The table holds the symbols of the pattern, at most 29 of them, and UNUSED; it fails
        exactly when the class texts among them overflow the buffer. A class text has a NUL before it. */
    method Compile(s: string) returns (ok: bool)
      requires Valid() && CString(s) && Tokenize(s, 0, MAX_REGEXP_OBJECTS - 1).Tokens?
      modifies re_compiled, ccl_buf
      ensures Valid()
      ensures ok <==> Space(Tokenize(s, 0, MAX_REGEXP_OBJECTS - 1).nodes) < MAX_CHAR_CLASS_LEN
      ensures ok ==> Tokenize(s, 0, MAX_REGEXP_OBJECTS - 1).nodes + [UNUSED] <= Table()
      ensures ok ==> forall k :: 0 <= k < |Tokenize(s, 0, MAX_REGEXP_OBJECTS - 1).nodes| && re_compiled[k].ClassAt? ==>
        1 <= re_compiled[k].begin < MAX_CHAR_CLASS_LEN && ccl_buf[re_compiled[k].begin - 1] == NUL
    {
      hide Stands, TokenAt, Tokenize, Table, Space, CString;
      ghost var all := Tokenize(s, 0, MAX_REGEXP_OBJECTS - 1).nodes;
      ghost var nodes: seq<Node> := [];
      var used, i, j := 1, 0, 0;
      SpaceOfLonger([], UNUSED);
      while i < |s| && j + 1 < MAX_REGEXP_OBJECTS
        invariant 0 <= i <= |s| && 0 <= j == |nodes| < MAX_REGEXP_OBJECTS && Valid()
        invariant Tokenize(s, i, MAX_REGEXP_OBJECTS - 1 - j).Tokens?
        invariant all == nodes + Tokenize(s, i, MAX_REGEXP_OBJECTS - 1 - j).nodes
        invariant used == 1 + Space(nodes) <= MAX_CHAR_CLASS_LEN && ccl_buf[used - 1] == NUL
        invariant forall k :: 0 <= k < j ==> Stands(re_compiled[..][k], ccl_buf[..], used, nodes[k])
        decreases |s| - i
      {
        TokenizeStep(s, i, MAX_REGEXP_OBJECTS - 1 - j);
        ghost var n, next := TokenAt(s, i).node, TokenAt(s, i).next;
        ghost var longer := nodes + [n];
        assert all == longer + Tokenize(s, next, MAX_REGEXP_OBJECTS - 1 - (j + 1)).nodes;
        SpaceOfLonger(nodes, n);
        ghost var entries, buf, before := re_compiled[..], ccl_buf[..], used;
        var fits;
        fits, i, used := Symbol(s, i, j, used);
        if !fits {
          assert all[..j + 1] == longer;
          SpaceGrows(all, j + 1);
          return false;
        }
        StandStill(entries, re_compiled[..], j, buf, before, ccl_buf[..], used, nodes);
        nodes := longer;
        j := j + 1;
      }
      TokenizeStep(s, i, MAX_REGEXP_OBJECTS - 1 - j);
      assert nodes == all;
      re_compiled[j] := Plain(UNUSED);
      Settled(nodes, used);
      ok := true;
    }

    lemma Settled(nodes: seq<Node>, used: nat)
      requires Valid() && used <= MAX_CHAR_CLASS_LEN && |nodes| < MAX_REGEXP_OBJECTS
      requires forall k :: 0 <= k < |nodes| ==> Stands(re_compiled[k], ccl_buf[..], used, nodes[k])
      requires re_compiled[|nodes|] == Plain(UNUSED)
      ensures nodes + [UNUSED] <= Table()
      ensures forall k :: 0 <= k < |nodes| && re_compiled[k].ClassAt? ==>
        1 <= re_compiled[k].begin < MAX_CHAR_CLASS_LEN && ccl_buf[re_compiled[k].begin - 1] == NUL
    {
      forall k | 0 <= k < |nodes|
        ensures View(re_compiled[k], ccl_buf[..]) == nodes[k]
      {
        assert Stands(re_compiled[k], ccl_buf[..], used, nodes[k]);
        if re_compiled[k].ClassAt? {
          TextStands(ccl_buf[..], re_compiled[k].begin, nodes[k].ccl);
        }
      }
      assert forall k :: 0 <= k <= |nodes| ==> Table()[k] == (nodes + [UNUSED])[k];
    }

    /** re_match: the first place where the language of the pattern's symbols accepts. */
    method Match(pattern: string, text: string) returns (r: int)
      requires Valid() && CString(pattern) && CString(text)
      requires Tokenize(pattern, 0, MAX_REGEXP_OBJECTS - 1).Tokens?
      requires var nodes := Tokenize(pattern, 0, MAX_REGEXP_OBJECTS - 1).nodes;
        Wellformed(nodes + [UNUSED], Start(nodes))
      modifies re_compiled, ccl_buf
      ensures Valid()
      ensures Found(Tokenize(pattern, 0, MAX_REGEXP_OBJECTS - 1).nodes, text, r)
    {
      ghost var nodes := Tokenize(pattern, 0, MAX_REGEXP_OBJECTS - 1).nodes;
      var ok := Compile(pattern);
      if !ok {
        return -1;
      }
      SameLanguage(nodes, Table(), Start(nodes));
      SameMatches(nodes, Table(), Start(nodes), text);
      r := Search(Table(), text);
    }
  }

  function Start(nodes: seq<Node>): nat {
    if nodes != [] && nodes[0].BEGIN? then 1 else 0
  }

  /** What re_match returns. */
  ghost predicate Found(nodes: seq<Node>, text: string, r: int)
    requires Wellformed(nodes + [UNUSED], Start(nodes))
  {
    var table := nodes + [UNUSED];
    if Space(nodes) >= MAX_CHAR_CLASS_LEN then r == -1
    else if Start(nodes) == 1 then r == if Matches(table, 1, text, 0) then 0 else -1
    else if r == -1 then forall u :: 0 <= u < |text| ==> !Matches(table, 0, text, u)
    else 0 <= r < |text| && Matches(table, 0, text, r) && forall u :: 0 <= u < r ==> !Matches(table, 0, text, u)
  }

  /** What an earlier, longer pattern left after the UNUSED entry plays no part. */
  lemma {:induction false} SameLanguage(nodes: seq<Node>, table: seq<Node>, p: nat)
    requires nodes + [UNUSED] <= table && p <= |nodes| && Wellformed(nodes + [UNUSED], p)
    ensures Parse(table, p) == Parse(nodes + [UNUSED], p)
    decreases |nodes| - p
  {
    var short := nodes + [UNUSED];
    assert table[p] == short[p];
    if p < |nodes| {
      assert table[p + 1] == short[p + 1];
      if !short[p].UNUSED? && !(short[p].END? && short[p + 1].UNUSED?) {
        var next := if short[p + 1].QUESTIONMARK? || short[p + 1].STAR? || short[p + 1].PLUS? then p + 2 else p + 1;
        SameLanguage(nodes, table, next);
      }
    }
  }

  lemma SameMatches(nodes: seq<Node>, table: seq<Node>, p: nat, text: string)
    requires nodes + [UNUSED] <= table && Wellformed(nodes + [UNUSED], p)
    requires Parse(table, p) == Parse(nodes + [UNUSED], p)
    ensures forall u :: 0 <= u <= |text| ==> Matches(table, p, text, u) == Matches(nodes + [UNUSED], p, text, u)
  {
  }

  // ----- What the characters of a pattern stand for -----

  /** Outside classes, by character code. */
  lemma SymbolIs(s: string, i: nat)
    requires i < |s| && s[i] as int != 91 && (s[i] as int == 92 ==> i + 1 < |s|)
    ensures var c := s[i] as int;
      TokenAt(s, i) ==
        if c == 94 then Token(BEGIN, i + 1)
        else if c == 36 then Token(END, i + 1)
        else if c == 46 then Token(DOT, i + 1)
        else if c == 42 then Token(STAR, i + 1)
        else if c == 43 then Token(PLUS, i + 1)
        else if c == 63 then Token(QUESTIONMARK, i + 1)
        else if c != 92 then Token(CHAR(s[i]), i + 1)
        else
          var d := s[i + 1] as int;
          Token(if d == 100 || d == 68 then DIGIT
                else if d == 119 || d == 87 then ALPHA
                else if d == 115 || d == 83 then WHITESPACE
                else CHAR(s[i + 1]), i + 2)
  {}

  /** A bracketed text without backslash and closing bracket is the class of that text, and with a caret in
      front the inverted one. */
  lemma BracketsAre(before: string, ccl: string, after: string)
    requires ']' !in ccl && '\\' !in ccl && CString(ccl)
    ensures TokenAt(before + ("[^" + ccl + "]") + after, |before|) == Token(INV_CHAR_CLASS(ccl), |before| + |ccl| + 3)
    ensures At(ccl, 0) != '^' ==>
      TokenAt(before + ("[" + ccl + "]") + after, |before|) == Token(CHAR_CLASS(ccl), |before| + |ccl| + 2)
  {
    hide TokenAt, CString, ClassEnd;
    NoBracketBefore(ccl, 0);
    ClassOfSpelling(before, ccl, true, after);
    if At(ccl, 0) != '^' {
      ClassOfSpelling(before, ccl, false, after);
    }
  }

  lemma {:induction false} NoBracketBefore(ccl: string, i: nat)
    requires i <= |ccl| && ']' !in ccl && '\\' !in ccl
    ensures ClassEnd(ccl + "]", i) == |ccl|
    decreases |ccl| - i
  {
    if i < |ccl| {
      assert (ccl + "]")[i] == ccl[i] && ccl[i] in ccl;
      NoBracketBefore(ccl, i + 1);
    }
  }
}
