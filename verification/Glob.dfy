/** picol/util.c: Tcl_StringMatch, against the language of the pattern. */
module Glob {

  /** A member of a bracketed class: one character, or a range with its ends in either order. */
  datatype Item = One(c: char) | Range(lo: char, hi: char)

  datatype Piece = Star | AnyChar | Class(items: seq<Item>) | Literal(c: char) | Never

  datatype Parsed = Malformed | Pattern(pieces: seq<Piece>)

  predicate InItem(item: Item, c: char) {
    match item
    case One(d) => c == d
    case Range(lo, hi) => lo <= c <= hi || hi <= c <= lo
  }

  predicate InClass(items: seq<Item>, c: char) {
    exists i :: 0 <= i < |items| && InItem(items[i], c)
  }

  predicate InPiece(p: Piece, c: char)
    requires !p.Star?
  {
    match p
    case AnyChar => true
    case Class(items) => InClass(items, c)
    case Literal(d) => c == d
    case Never => false
  }

  /** The language of a pattern: a star stands for any run of characters. */
  ghost predicate Matches(ps: seq<Piece>, s: string)
    decreases |ps|
  {
    if ps == [] then s == ""
    else if ps[0].Star? then exists k :: 0 <= k <= |s| && Matches(ps[1..], s[k..])
    else s != "" && InPiece(ps[0], s[0]) && Matches(ps[1..], s[1..])
  }

  datatype ParsedClass = Unclosed | Closed(items: seq<Item>, rest: nat)

  /** The members of the class whose text starts at i, and where the bracket closes it. A class that
      is not closed, or has a bracket for the upper end of a range, is malformed. */
  function ParseClass(p: string, i: nat): (r: ParsedClass)
    requires i <= |p|
    ensures r.Closed? ==> i <= r.rest < |p| && p[r.rest] == ']'
    ensures r.Closed? ==> forall k :: i <= k < r.rest ==> p[k] != ']'
    decreases |p| - i
  {
    if i == |p| then Unclosed
    else if p[i] == ']' then Closed([], i)
    else if i + 1 < |p| && p[i + 1] == '-' then
      if i + 2 >= |p| || p[i + 2] == ']' then Unclosed
      else
        var more := ParseClass(p, i + 3);
        if more.Closed? then Closed([Range(p[i], p[i + 2])] + more.items, more.rest) else Unclosed
    else
      var more := ParseClass(p, i + 1);
      if more.Closed? then Closed([One(p[i])] + more.items, more.rest) else Unclosed
  }

  /** The pattern from i on. A backslash at the very end is a piece nothing matches. */
  function Parse(p: string, i: nat): Parsed
    requires i <= |p|
    decreases |p| - i
  {
    if i == |p| then Pattern([])
    else if p[i] == '*' then Then(Star, Parse(p, i + 1))
    else if p[i] == '?' then Then(AnyChar, Parse(p, i + 1))
    else if p[i] == '[' then
      var c := ParseClass(p, i + 1);
      if c.Closed? then Then(Class(c.items), Parse(p, c.rest + 1)) else Malformed
    else if p[i] == '\\' then
      if i + 1 == |p| then Pattern([Never]) else Then(Literal(p[i + 1]), Parse(p, i + 2))
    else Then(Literal(p[i]), Parse(p, i + 1))
  }

  function Then(piece: Piece, rest: Parsed): Parsed {
    match rest
    case Malformed => Malformed
    case Pattern(ps) => Pattern([piece] + ps)
  }

  /** A C string: no NUL inside; reading at its length gives the NUL. */
  predicate CString(s: string) {
    forall i :: 0 <= i < |s| ==> s[i] != 0 as char
  }

  function At(s: string, i: nat): char
    requires i <= |s|
  {
    if i < |s| then s[i] else 0 as char
  }

  ghost predicate MatchesFrom(pattern: string, p: nat, s: string, i: nat)
    requires p <= |pattern| && i <= |s| && Parse(pattern, p).Pattern?
  {
    Matches(Parse(pattern, p).pieces, s[i..])
  }

  /** The class loop: the text of the class is walked from p until a member takes the character, and
      then on to the closing bracket. */
  method MatchClass(pattern: string, p0: nat, c: char) returns (ok: bool, p: nat)
    requires CString(pattern) && p0 <= |pattern| && ParseClass(pattern, p0).Closed?
    ensures ok <==> InClass(ParseClass(pattern, p0).items, c)
    ensures ok ==> p == ParseClass(pattern, p0).rest
  {
    p := p0;
    var end := ParseClass(pattern, p0).rest;
    while true
      invariant p0 <= p <= end && ParseClass(pattern, p).Closed? && ParseClass(pattern, p).rest == end
      invariant InClass(ParseClass(pattern, p0).items, c) <==> InClass(ParseClass(pattern, p).items, c)
      decreases |pattern| - p
    {
      if At(pattern, p) == ']' || p == |pattern| {
        return false, p;
      }
      var items := ParseClass(pattern, p).items;
      FirstItem(items, c);
      if pattern[p] == c {
        break;
      }
      if At(pattern, p + 1) == '-' {
        var c2 := At(pattern, p + 2);
        if pattern[p] <= c && c2 >= c {
          break;
        }
        if pattern[p] >= c && c2 <= c {
          break;
        }
        p := p + 2;
      }
      p := p + 1;
    }
    while At(pattern, p) != ']' && p < |pattern|
      invariant p0 <= p <= end
      invariant forall k :: p <= k < end ==> pattern[k] != ']'
      decreases |pattern| - p
    {
      p := p + 1;
    }
    ok := true;
  }

  lemma FirstItem(items: seq<Item>, c: char)
    ensures items != [] ==> (InClass(items, c) <==> InItem(items[0], c) || InClass(items[1..], c))
  {
    if items != [] {
      if InClass(items[1..], c) {
        var i :| 0 <= i < |items[1..]| && InItem(items[1..][i], c);
        assert InItem(items[i + 1], c);
      }
      if InClass(items, c) && !InItem(items[0], c) {
        var i :| 0 <= i < |items| && InItem(items[i], c);
        assert InItem(items[1..][i - 1], c);
      }
    }
  }

  /** What the piece of the pattern at p is, when it is not a star, and where the next one starts. */
  ghost predicate PieceAt(pattern: string, p: nat, piece: Piece, next: nat)
    requires p <= |pattern| && Parse(pattern, p).Pattern?
  {
    && p < next <= |pattern| && !piece.Star? && Parse(pattern, next).Pattern?
    && Parse(pattern, p).pieces == [piece] + Parse(pattern, next).pieces
  }

  /** The piece of the pattern at p. */
  function FirstPiece(pattern: string, p: nat): (piece: Piece)
    requires p < |pattern| && pattern[p] != '*' && Parse(pattern, p).Pattern?
    ensures !piece.Star? && Parse(pattern, p).pieces != [] && piece == Parse(pattern, p).pieces[0]
  {
    Parse(pattern, p).pieces[0]
  }

  /** One turn of the outer loop, for a piece other than a star: does it take the character c? */
  method MatchPiece(pattern: string, p0: nat, c: char) returns (ok: bool, p: nat)
    requires CString(pattern) && p0 < |pattern| && pattern[p0] != '*' && Parse(pattern, p0).Pattern?
    ensures ok <==> InPiece(FirstPiece(pattern, p0), c)
    ensures ok ==> PieceAt(pattern, p0, FirstPiece(pattern, p0), p)
  {
    p := p0;
    if pattern[p] == '?' {
      return true, p + 1;
    }
    if pattern[p] == '[' {
      var inside, q := MatchClass(pattern, p + 1, c);
      return inside, if inside then q + 1 else p;
    }
    if pattern[p] == '\\' {
      p := p + 1;
      if p == |pattern| {
        return false, p;
      }
    }
    if pattern[p] != c {
      return false, p;
    }
    return true, p + 1;
  }

  /** Tcl_StringMatch, with the two pointers as positions: 1 exactly when the rest of the string is in
      the language of the rest of the pattern. */
  method StringMatch(str: string, i0: nat, pattern: string, p0: nat) returns (r: int)
    requires CString(str) && CString(pattern) && i0 <= |str| && p0 <= |pattern|
    requires Parse(pattern, p0).Pattern?
    ensures r == 0 || r == 1
    ensures r == 1 <==> MatchesFrom(pattern, p0, str, i0)
    decreases |pattern| - p0, 1
  {
    var i, p := i0, p0;
    while true
      invariant i0 <= i <= |str| && p0 <= p <= |pattern| && Parse(pattern, p).Pattern?
      invariant MatchesFrom(pattern, p, str, i) <==> MatchesFrom(pattern, p0, str, i0)
      decreases |pattern| - p
    {
      if p == |pattern| {
        return if i == |str| then 1 else 0;
      }
      if i == |str| && pattern[p] != '*' {
        NothingLeft(pattern, p);
        return 0;
      }
      if pattern[p] == '*' {
        StarParses(pattern, p);
        p := p + 1;
        if p == |pattern| {
          EmptyTail(pattern, str, i);
          return 1;
        }
        r := MatchStar(str, i, pattern, p);
        return;
      }
      var ok, q := MatchPiece(pattern, p, str[i]);
      ghost var piece := FirstPiece(pattern, p);
      OnePiece(pattern, p, str, i, piece);
      if !ok {
        return 0;
      }
      NextPiece(pattern, p, str, i, piece, q);
      p := q;
      i := i + 1;
    }
  }

  /** The loop after a star: try every place where the rest of the pattern could start. */
  method MatchStar(str: string, i0: nat, pattern: string, p: nat) returns (r: int)
    requires CString(str) && CString(pattern) && i0 <= |str| && p <= |pattern|
    requires Parse(pattern, p).Pattern?
    ensures r == 0 || r == 1
    ensures r == 1 <==> Matches([Star] + Parse(pattern, p).pieces, str[i0..])
    decreases |pattern| - p, 2
  {
    hide Matches, Parse;
    var i := i0;
    while true
      invariant i0 <= i <= |str|
      invariant forall k :: i0 <= k < i ==> !MatchesFrom(pattern, p, str, k)
      decreases |str| - i
    {
      var sub := StringMatch(str, i, pattern, p);
      if sub == 1 {
        StarAt(pattern, p, str, i0, i);
        return 1;
      }
      if i == |str| {
        StarNowhere(pattern, p, str, i0);
        return 0;
      }
      i := i + 1;
    }
  }

  lemma StarParses(pattern: string, p: nat)
    requires p < |pattern| && pattern[p] == '*' && Parse(pattern, p).Pattern?
    ensures Parse(pattern, p + 1).Pattern?
    ensures Parse(pattern, p).pieces == [Star] + Parse(pattern, p + 1).pieces
  {}

  lemma NothingLeft(pattern: string, p: nat)
    requires p < |pattern| && pattern[p] != '*' && Parse(pattern, p).Pattern?
    ensures Parse(pattern, p).pieces != [] && !Parse(pattern, p).pieces[0].Star?
  {}

  /** A piece that does not take the character fails the pattern here. */
  lemma OnePiece(pattern: string, p: nat, s: string, i: nat, piece: Piece)
    requires p <= |pattern| && i < |s| && Parse(pattern, p).Pattern? && !piece.Star?
    requires Parse(pattern, p).pieces != [] && Parse(pattern, p).pieces[0] == piece
    ensures MatchesFrom(pattern, p, s, i) ==> InPiece(piece, s[i])
  {}

  /** A piece that takes it passes the question on. */
  lemma NextPiece(pattern: string, p: nat, s: string, i: nat, piece: Piece, next: nat)
    requires p <= |pattern| && i < |s| && Parse(pattern, p).Pattern? && PieceAt(pattern, p, piece, next)
    requires InPiece(piece, s[i])
    ensures MatchesFrom(pattern, p, s, i) <==> MatchesFrom(pattern, next, s, i + 1)
  {
    hide Parse;
    assert s[i..][0] == s[i] && s[i..][1..] == s[i + 1..];
    var ps := Parse(pattern, p).pieces;
    assert ps[0] == piece && ps[1..] == Parse(pattern, next).pieces;
  }

  lemma EmptyTail(pattern: string, s: string, i: nat)
    requires i <= |s|
    ensures Parse(pattern, |pattern|) == Pattern([])
    ensures exists k :: 0 <= k <= |s[i..]| && Matches([], s[i..][k..])
  {
    assert s[i..][|s| - i..] == "";
  }

  lemma StarAt(pattern: string, p: nat, s: string, start: nat, i: nat)
    requires p <= |pattern| && start <= i <= |s| && Parse(pattern, p).Pattern?
    requires MatchesFrom(pattern, p, s, i)
    ensures Matches([Star] + Parse(pattern, p).pieces, s[start..])
  {
    var ps := Parse(pattern, p).pieces;
    assert ([Star] + ps)[1..] == ps;
    assert s[start..][i - start..] == s[i..];
  }

  lemma StarNowhere(pattern: string, p: nat, s: string, start: nat)
    requires p <= |pattern| && start <= |s| && Parse(pattern, p).Pattern?
    requires forall k :: start <= k <= |s| ==> !MatchesFrom(pattern, p, s, k)
    ensures !Matches([Star] + Parse(pattern, p).pieces, s[start..])
  {
    var ps := Parse(pattern, p).pieces;
    assert ([Star] + ps)[1..] == ps;
    forall k | 0 <= k <= |s[start..]|
      ensures !Matches(ps, s[start..][k..])
    {
      assert s[start..][k..] == s[start + k..];
      assert !MatchesFrom(pattern, p, s, start + k);
    }
  }

  // ----- Patterns in plain characters -----

  predicate Plain(c: char) {
    c as int != 42 && c as int != 63 && c as int != 91 && c as int != 92
  }

  /** The pattern from p on, split at its first piece: a star, a question mark, a backslash and the character
      after it, or a character for itself. */
  lemma PieceIs(pattern: string, p: nat, s: string)
    requires p < |pattern| && pattern[p] as int != 91 && (pattern[p] as int == 92 ==> p + 1 < |pattern|)
    requires Parse(pattern, p).Pattern?
    ensures var c, next := pattern[p] as int, if pattern[p] as int == 92 then p + 2 else p + 1;
      && Parse(pattern, next).Pattern?
      && (Matches(Parse(pattern, p).pieces, s) <==>
            if c == 42 then exists k :: 0 <= k <= |s| && Matches(Parse(pattern, next).pieces, s[k..])
            else s != "" && (c == 63 || s[0] == (if c == 92 then pattern[p + 1] else pattern[p]))
                 && Matches(Parse(pattern, next).pieces, s[1..]))
  {
    var next := if pattern[p] as int == 92 then p + 2 else p + 1;
    var rest := Parse(pattern, next).pieces;
    assert Parse(pattern, p).pieces[1..] == rest;
  }

  /** At the end of the pattern nothing of the string may be left. */
  lemma EndIs(pattern: string, s: string)
    ensures Parse(pattern, |pattern|).Pattern? && (Matches(Parse(pattern, |pattern|).pieces, s) <==> s == "")
  {}

  /** A pattern of plain characters matches itself only. */
  lemma {:induction false} PlainMatchesItself(pattern: string, p: nat, s: string)
    requires p <= |pattern| && forall k :: 0 <= k < |pattern| ==> Plain(pattern[k])
    ensures Parse(pattern, p).Pattern? && (Matches(Parse(pattern, p).pieces, s) <==> s == pattern[p..])
    decreases |pattern| - p
  {
    if p < |pattern| {
      PlainMatchesItself(pattern, p + 1, if s == "" then "" else s[1..]);
      PieceIs(pattern, p, s);
      assert pattern[p..] == [pattern[p]] + pattern[p + 1..];
      if s != "" {
        assert s == [s[0]] + s[1..];
      }
    }
  }

  /** A bracketed range takes what lies between its ends, in either order. */
  lemma RangeIs(pattern: string, p: nat, s: string)
    requires p + 5 <= |pattern| && pattern[p] == '[' && pattern[p + 2] == '-' && pattern[p + 4] == ']'
    requires pattern[p + 1] != ']' && pattern[p + 3] != ']' && Parse(pattern, p).Pattern?
    ensures var lo, hi := pattern[p + 1], pattern[p + 3];
      && Parse(pattern, p + 5).Pattern?
      && (Matches(Parse(pattern, p).pieces, s) <==>
            s != "" && (lo <= s[0] <= hi || hi <= s[0] <= lo) && Matches(Parse(pattern, p + 5).pieces, s[1..]))
  {
    var items := [Range(pattern[p + 1], pattern[p + 3])];
    assert ParseClass(pattern, p + 4) == Closed([], p + 4);
    assert ParseClass(pattern, p + 1) == Closed(items + [], p + 4);
    assert items + [] == items && Parse(pattern, p).pieces == [Class(items)] + Parse(pattern, p + 5).pieces;
    assert Parse(pattern, p).pieces[1..] == Parse(pattern, p + 5).pieces;
    OneRange(pattern[p + 1], pattern[p + 3], if s == "" then 'a' else s[0]);
  }

  lemma OneRange(lo: char, hi: char, c: char)
    ensures InClass([Range(lo, hi)], c) <==> lo <= c <= hi || hi <= c <= lo
  {
    assert InItem([Range(lo, hi)][0], c) == InItem(Range(lo, hi), c);
  }

  /** A bracketed list of characters takes exactly these. */
  lemma ListIs(pattern: string, p: nat, e: nat, s: string)
    requires p + 1 < e < |pattern| && pattern[p] == '[' && pattern[e] == ']' && Parse(pattern, p).Pattern?
    requires forall k :: p < k < e ==> pattern[k] != ']' && pattern[k] != '-'
    ensures Parse(pattern, e + 1).Pattern?
    ensures Matches(Parse(pattern, p).pieces, s) <==>
      s != "" && s[0] in pattern[p + 1..e] && Matches(Parse(pattern, e + 1).pieces, s[1..])
  {
    var c := if s == "" then 'a' else s[0];
    ListItems(pattern, p + 1, e, c);
    var items := ParseClass(pattern, p + 1).items;
    assert Parse(pattern, p).pieces == [Class(items)] + Parse(pattern, e + 1).pieces;
    assert Parse(pattern, p).pieces[1..] == Parse(pattern, e + 1).pieces;
  }

  lemma {:induction false} ListItems(pattern: string, i: nat, e: nat, c: char)
    requires i <= e < |pattern| && pattern[e] == ']' && forall k :: i <= k < e ==> pattern[k] != ']' && pattern[k] != '-'
    ensures var r := ParseClass(pattern, i);
      r.Closed? && r.rest == e && (InClass(r.items, c) <==> c in pattern[i..e])
    decreases e - i
  {
    if i < e {
      ListItems(pattern, i + 1, e, c);
      var more := ParseClass(pattern, i + 1).items;
      assert pattern[i..e] == [pattern[i]] + pattern[i + 1..e];
      var items := [One(pattern[i])] + more;
      assert ParseClass(pattern, i).items == items;
      assert InClass(items, c) <==> c == pattern[i] || InClass(more, c) by {
        if InClass(more, c) {
          var k :| 0 <= k < |more| && InItem(more[k], c);
          assert items[k + 1] == more[k];
        }
        if InClass(items, c) {
          var k :| 0 <= k < |items| && InItem(items[k], c);
          assert k > 0 ==> items[k] == more[k - 1];
        }
        assert InItem(items[0], c) <==> c == pattern[i];
      }
    }
  }
}
