/** picol/buf.c and picol/ncl.c: lists written as text, element by element, and read back. A character
    is any integer but 0, so that it makes no difference whether char is signed. */
module ListQuoting {

  type Text = seq<int>

  const SPACE := 32
  const BACKSLASH := 92
  const LOWER_Z := 122
  const OPEN := 123
  const CLOSE := 125

  predicate CString(s: Text) {
    0 !in s
  }

  predicate Clean(c: int) {
    SPACE < c <= LOWER_Z && c != BACKSLASH
  }

  // ----- Writing -----

  function EscapedChar(c: int): Text {
    if Clean(c) then [c] else [BACKSLASH, c]
  }

  function EscapedText(x: Text): Text {
    if x == [] then [] else EscapedChar(x[0]) + EscapedText(x[1..])
  }

  predicate AllClean(x: Text) {
    forall k :: 0 <= k < |x| ==> Clean(x[k])
  }

  /** An element on its own: bare when nothing in it needs care, else in braces. */
  function Quoted(x: Text): Text {
    if AllClean(x) && x != [] then x else [OPEN] + EscapedText(x) + [CLOSE]
  }

  /** A list text with one element more. */
  function Appended(list: Text, x: Text): Text {
    (if list == [] then [] else list + [SPACE]) + Quoted(x)
  }

  function AppendedAll(list: Text, xs: seq<Text>): Text
    decreases |xs|
  {
    if xs == [] then list else Appended(AppendedAll(list, xs[..|xs| - 1]), xs[|xs| - 1])
  }

  // ----- Reading -----

  /** An element read from a list text: what it says, where it ends, and whether its brace is closed.
      Dangling is a backslash with nothing after it, where the program runs past the end. */
  datatype Scan = Dangling | Scan(text: Text, end: nat, closed: bool)

  function Longer(c: int, rest: Scan): Scan {
    if rest.Dangling? then Dangling else rest.(text := [c] + rest.text)
  }

  /** After an opening brace. */
  function Braced(s: Text, i: nat): (e: Scan)
    requires i <= |s|
    ensures e.Scan? ==> i <= e.end <= |s|
    decreases |s| - i
  {
    if i == |s| then Scan([], i, false)
    else if s[i] == CLOSE then Scan([], i + 1, true)
    else if s[i] != BACKSLASH then Longer(s[i], Braced(s, i + 1))
    else if i + 1 == |s| then Dangling
    else Longer(s[i + 1], Braced(s, i + 2))
  }

  function BareEnd(s: Text, i: nat): (e: nat)
    requires i <= |s|
    ensures i <= e <= |s|
    decreases |s| - i
  {
    if i < |s| && s[i] > SPACE then BareEnd(s, i + 1) else i
  }

  function ElementAt(s: Text, i: nat): (e: Scan)
    requires i <= |s|
    ensures e.Scan? ==> i <= e.end <= |s|
    ensures e.Scan? && i < |s| && s[i] > SPACE ==> i < e.end
  {
    if i < |s| && s[i] == OPEN then Braced(s, i + 1)
    else Scan(s[i..BareEnd(s, i)], BareEnd(s, i), true)
  }

  function SkipBlank(s: Text, i: nat): (j: nat)
    requires i <= |s|
    ensures i <= j <= |s| && (j < |s| ==> s[j] > SPACE)
    decreases |s| - i
  {
    if i < |s| && s[i] <= SPACE then SkipBlank(s, i + 1) else i
  }

  /** The elements of a list text. It is complete when it does not end in blanks, which read as one more
      empty element, and every brace is closed. */
  datatype Elements = Broken | Elements(texts: seq<Text>, complete: bool)

  function ListFrom(s: Text, i: nat): Elements
    requires i <= |s|
    decreases |s| - i
  {
    if i == |s| then Elements([], true)
    else
      var j := SkipBlank(s, i);
      if j == |s| then Elements([[]], false)
      else
        var e := ElementAt(s, j);
        if e.Dangling? then Broken
        else
          var rest := ListFrom(s, e.end);
          if rest.Broken? then Broken else Elements([e.text] + rest.texts, e.closed && rest.complete)
  }

  // ----- One element -----

  lemma {:induction false} BracesDecode(before: Text, x: Text, after: Text)
    ensures Braced(before + EscapedText(x) + [CLOSE] + after, |before|)
         == Scan(x, |before| + |EscapedText(x)| + 1, true)
    decreases |x|
  {
    var s := before + EscapedText(x) + [CLOSE] + after;
    if x == [] {
      assert s[|before|] == CLOSE;
    } else {
      var first, rest := EscapedChar(x[0]), EscapedText(x[1..]);
      assert EscapedText(x) == first + rest;
      assert s == before + first + rest + [CLOSE] + after;
      assert x == [x[0]] + x[1..];
      hide EscapedText;
      BracesDecode(before + first, x[1..], after);
      assert s[|before|] == first[0];
      assert !Clean(x[0]) ==> s[|before| + 1] == x[0];
    }
  }

  lemma {:induction false} BareReaches(s: Text, i: nat, end: nat)
    requires i <= end <= |s| && (forall k :: i <= k < end ==> s[k] > SPACE) && (end == |s| || s[end] <= SPACE)
    ensures BareEnd(s, i) == end
    decreases end - i
  {
    if i < end {
      BareReaches(s, i + 1, end);
    }
  }

  lemma BareDecodes(before: Text, x: Text, after: Text)
    requires AllClean(x) && x != [] && (after == [] || after[0] <= SPACE)
    ensures ElementAt(before + x + after, |before|) == Scan(x, |before| + |x|, true)
  {
    var s, end := before + x + after, |before| + |x|;
    assert s[|before|..end] == x;
    assert forall k :: |before| <= k < end ==> s[k] == x[k - |before|];
    assert end < |s| ==> s[end] == after[0];
    BareReaches(s, |before|, end);
  }

  lemma WrappedDecodes(before: Text, x: Text, after: Text)
    ensures ElementAt(before + ([OPEN] + EscapedText(x) + [CLOSE]) + after, |before|)
         == Scan(x, |before| + |EscapedText(x)| + 2, true)
  {
    hide EscapedText, Braced, BareEnd;
    var s := before + ([OPEN] + EscapedText(x) + [CLOSE]) + after;
    assert s == (before + [OPEN]) + EscapedText(x) + [CLOSE] + after;
    assert s[|before|] == OPEN;
    BracesDecode(before + [OPEN], x, after);
  }

  /** An element written between other text reads back as itself. */
  lemma QuotedDecodes(before: Text, x: Text, after: Text)
    requires after == [] || after[0] <= SPACE
    ensures Quoted(x) != [] && Quoted(x)[0] > SPACE
    ensures ElementAt(before + Quoted(x) + after, |before|) == Scan(x, |before| + |Quoted(x)|, true)
  {
    hide EscapedText, Braced, BareEnd;
    if AllClean(x) && x != [] {
      BareDecodes(before, x, after);
    } else {
      WrappedDecodes(before, x, after);
    }
  }

  // ----- A list with one element more -----

  lemma {:induction false} BracedExtends(s: Text, more: Text, i: nat)
    requires i <= |s| && Braced(s, i).Scan?
    ensures Braced(s, i).closed ==> Braced(s + more, i) == Braced(s, i)
    ensures !Braced(s, i).closed && more != [] && more[0] == SPACE && Braced(s + more, i).Scan? ==>
      |Braced(s + more, i).text| > |Braced(s, i).text|
    ensures !Braced(s, i).closed ==> Braced(s, i).end == |s|
    decreases |s| - i
  {
    if i < |s| {
      assert (s + more)[i] == s[i];
      if s[i] == BACKSLASH {
        assert (s + more)[i + 1] == s[i + 1];
        BracedExtends(s, more, i + 2);
      } else if s[i] != CLOSE {
        BracedExtends(s, more, i + 1);
      }
    } else if more != [] && more[0] == SPACE {
      assert (s + more)[i] == SPACE;
    }
  }

  lemma {:induction false} BareExtends(s: Text, more: Text, i: nat)
    requires i <= |s| && more != [] && more[0] <= SPACE
    ensures BareEnd(s + more, i) == BareEnd(s, i)
    decreases |s| - i
  {
    assert i < |s| ==> (s + more)[i] == s[i];
    if i < |s| && s[i] > SPACE {
      BareExtends(s, more, i + 1);
    } else if i == |s| {
      assert (s + more)[i] == more[0];
    }
  }

  lemma {:induction false} SkipExtends(s: Text, more: Text, i: nat)
    requires i <= |s|
    ensures SkipBlank(s + more, i) == if SkipBlank(s, i) < |s| then SkipBlank(s, i) else SkipBlank(s + more, |s|)
    decreases |s| - i
  {
    assert i < |s| ==> (s + more)[i] == s[i];
    if i < |s| && s[i] <= SPACE {
      SkipExtends(s, more, i + 1);
    }
  }

  /** Reading what lappend wrote gives the old elements and the new one exactly when the old text was
      complete. */
  lemma {:induction false} AppendsOne(list: Text, x: Text, i: nat)
    requires i <= |list| && (list == [] ==> i == 0) && ListFrom(list, i).Elements?
    ensures ListFrom(list, i).complete ==>
      ListFrom(Appended(list, x), i) == Elements(ListFrom(list, i).texts + [x], true)
    ensures !ListFrom(list, i).complete ==>
      ListFrom(Appended(list, x), i).Broken? || ListFrom(Appended(list, x), i).texts != ListFrom(list, i).texts + [x]
    decreases |list| - i
  {
    hide ElementAt, Quoted;
    var longer := Appended(list, x);
    if list == [] {
      LastElement([], x);
    } else {
      var more := [SPACE] + Quoted(x);
      assert longer == list + more;
      LastElement(list + [SPACE], x);
      assert longer[|list|] == SPACE;
      assert SkipBlank(longer, |list|) == |list| + 1;
      SkipExtends(list, more, i);
      var j := SkipBlank(list, i);
      if i < |list| && j < |list| {
        ElementExtends(list, more, j);
        var e := ElementAt(list, j);
        if e.closed {
          AppendsOne(list, x, e.end);
          assert [e.text] + (ListFrom(list, e.end).texts + [x]) == ([e.text] + ListFrom(list, e.end).texts) + [x];
          if ListFrom(longer, e.end).Elements? {
            SameTail(e.text, ListFrom(longer, e.end).texts, ListFrom(list, e.end).texts + [x]);
          }
        } else if ListFrom(longer, i).Elements? {
          assert ListFrom(longer, i).texts[0] != (ListFrom(list, i).texts + [x])[0];
        }
      }
    }
  }

  lemma SameTail(head: Text, a: seq<Text>, b: seq<Text>)
    ensures [head] + a == [head] + b <==> a == b
  {
    assert a == ([head] + a)[1..];
    assert b == ([head] + b)[1..];
  }

  lemma ElementExtends(list: Text, more: Text, j: nat)
    requires j < |list| && more != [] && more[0] == SPACE && ElementAt(list, j).Scan?
    ensures ElementAt(list, j).closed ==> ElementAt(list + more, j) == ElementAt(list, j)
    ensures !ElementAt(list, j).closed ==>
      ElementAt(list + more, j).Dangling? || ElementAt(list + more, j).text != ElementAt(list, j).text
  {
    assert (list + more)[j] == list[j];
    if list[j] == OPEN {
      BracedExtends(list, more, j + 1);
    } else {
      BareExtends(list, more, j);
      assert (list + more)[j..BareEnd(list, j)] == list[j..BareEnd(list, j)];
    }
  }

  lemma LastFrom(s: Text, i: nat, j: nat, x: Text)
    requires i <= j < |s| && SkipBlank(s, i) == j && ElementAt(s, j) == Scan(x, |s|, true)
    ensures ListFrom(s, i) == Elements([x], true)
  {
    hide ElementAt, SkipBlank;
    assert ListFrom(s, |s|) == Elements([], true);
  }

  lemma LastElement(before: Text, x: Text)
    ensures Quoted(x) != [] && Quoted(x)[0] > SPACE
    ensures ListFrom(before + Quoted(x), |before|) == Elements([x], true)
    ensures before != [] && before[|before| - 1] == SPACE ==>
      ListFrom(before + Quoted(x), |before| - 1) == Elements([x], true)
  {
    hide ElementAt, Quoted, ListFrom;
    QuotedDecodes(before, x, []);
    var s, i := before + Quoted(x), |before|;
    assert s + [] == s;
    assert s[i] == Quoted(x)[0];
    LastFrom(s, i, i, x);
    if before != [] && before[i - 1] == SPACE {
      assert s[i - 1] == SPACE;
      LastFrom(s, i - 1, i, x);
    }
  }

  /** lappend with any number of items. */
  lemma {:induction false} AppendsAll(list: Text, xs: seq<Text>)
    requires ListFrom(list, 0).Elements? && ListFrom(list, 0).complete
    ensures ListFrom(AppendedAll(list, xs), 0) == Elements(ListFrom(list, 0).texts + xs, true)
    decreases |xs|
  {
    hide ListFrom, Appended;
    if xs == [] {
      assert ListFrom(list, 0).texts + [] == ListFrom(list, 0).texts;
    } else {
      var init := xs[..|xs| - 1];
      AppendsAll(list, init);
      AppendsOne(AppendedAll(list, init), xs[|xs| - 1], 0);
      assert ListFrom(list, 0).texts + init + [xs[|xs| - 1]] == ListFrom(list, 0).texts + xs by {
        assert init + [xs[|xs| - 1]] == xs;
      }
    }
  }

  /** SplitList(FormList(xs)) == xs. */
  lemma ListsRoundTrip(xs: seq<Text>)
    ensures ListFrom(AppendedAll([], xs), 0) == Elements(xs, true)
  {
    AppendsAll([], xs);
    assert [] + xs == xs;
  }

  // ----- Buffers -----

  class Buf {
    var s: Text

    constructor ()
      ensures s == []
    {
      s := [];
    }

    constructor Take(text: Text)
      ensures s == text
    {
      s := text;
    }

    method AppC(c: int)
      modifies this
      ensures s == old(s) + [c]
    {
      s := s + [c];
    }

    method AppS(text: Text)
      modifies this
      ensures s == old(s) + text
    {
      s := s + text;
    }

    method AppElemC(c: int)
      modifies this
      ensures s == old(s) + EscapedChar(c)
    {
      if c <= SPACE || c > LOWER_Z || c == BACKSLASH {
        s := s + [BACKSLASH, c];
      } else {
        s := s + [c];
      }
    }

    method AppClean(x: Text)
      modifies this
      ensures s == old(s) + x
    {
      for t := 0 to |x|
        invariant s == old(s) + x[..t]
      {
        AppC(x[t]);
      }
      assert x[..|x|] == x;
    }

    method AppBraced(x: Text)
      modifies this
      ensures s == old(s) + ([OPEN] + EscapedText(x) + [CLOSE])
    {
      AppC(OPEN);
      var t := 0;
      while t < |x|
        invariant 0 <= t <= |x| && s + EscapedText(x[t..]) == old(s) + [OPEN] + EscapedText(x)
      {
        assert x[t..][1..] == x[t + 1..];
        AppElemC(x[t]);
        t := t + 1;
      }
      assert s == old(s) + [OPEN] + EscapedText(x);
      AppC(CLOSE);
    }

    method AppElemS(x: Text)
      requires CString(x)
      modifies this
      ensures s == Appended(old(s), x)
    {
      hide EscapedText;
      if s != [] {
        AppC(SPACE);
      }
      var clean := true;
      var t := 0;
      while t < |x|
        invariant 0 <= t <= |x| && clean
        invariant forall k :: 0 <= k < t ==> Clean(x[k])
      {
        if x[t] <= SPACE || x[t] > LOWER_Z || x[t] == BACKSLASH {
          clean := false;
          break;
        }
        t := t + 1;
      }
      if clean && x != [] {
        AppClean(x);
      } else {
        AppBraced(x);
      }
    }
  }

  /** ElemLen. Its count is of no use, only that it is enough for the element. */
  method ElemLen(s: Text, i: nat) returns (n: nat, end: nat)
    requires CString(s) && i <= |s| && ElementAt(s, i).Scan?
    ensures end == ElementAt(s, i).end && n >= |ElementAt(s, i).text|
  {
    n, end := 0, i;
    if i < |s| && s[i] == OPEN {
      end := end + 1;
      while end < |s|
        invariant i + 1 <= end <= |s| && Braced(s, end).Scan?
        invariant Braced(s, end).end == Braced(s, i + 1).end
        invariant n + |Braced(s, end).text| >= |Braced(s, i + 1).text|
        decreases |s| - end
      {
        if s[end] == CLOSE {
          end := end + 1;
          return;
        }
        if s[end] == BACKSLASH {
          end, n := end + 1, n + 1;
        }
        end, n := end + 1, n + 1;
      }
    } else {
      while end < |s| && s[end] > SPACE
        invariant i <= end <= |s| && BareEnd(s, end) == BareEnd(s, i)
      {
        end := end + 1;
      }
      n := end - i;
    }
  }

  /** A step of the brace loop of ElemDecode: where the character stands and where to go on. */
  lemma BracedStep(s: Text, i: nat, k: nat, text: Text)
    requires i < |s| && s[i] != CLOSE && k == (if s[i] == BACKSLASH then i + 1 else i) && Braced(s, i).Scan?
    ensures k < |s| && Braced(s, k + 1).Scan?
    ensures text + [s[k]] + Braced(s, k + 1).text == text + Braced(s, i).text
  {
    assert text + ([s[k]] + Braced(s, k + 1).text) == text + [s[k]] + Braced(s, k + 1).text;
  }

  method ElemDecode(s: Text, i0: nat) returns (x: Text)
    requires CString(s) && i0 <= |s| && ElementAt(s, i0).Scan?
    ensures x == ElementAt(s, i0).text
  {
    hide CString;
    var buf := new Buf();
    var i := i0;
    if i < |s| && s[i] == OPEN {
      i := i + 1;
      while i < |s| && s[i] != CLOSE
        invariant i0 + 1 <= i <= |s| && Braced(s, i).Scan?
        invariant buf.s + Braced(s, i).text == Braced(s, i0 + 1).text
        decreases |s| - i
      {
        hide Braced;
        ghost var at, text := i, buf.s;
        if s[i] == BACKSLASH {
          i := i + 1;
        }
        BracedStep(s, at, i, text);
        buf.AppC(s[i]);
        i := i + 1;
      }
      assert Braced(s, i).text == [];
    } else {
      var t := i;
      while t < |s| && s[t] > SPACE
        invariant i <= t <= |s| && BareEnd(s, t) == BareEnd(s, i)
      {
        t := t + 1;
      }
      buf.AppS(s[i..t]);
    }
    x := buf.s;
  }

  /** SplitList. Its test for the end after skipping blanks looks at the pointer and not at the
      character, which is why trailing blanks give one more element. */
  method SplitList(s: Text) returns (xs: seq<Text>)
    requires CString(s) && ListFrom(s, 0).Elements?
    ensures xs == ListFrom(s, 0).texts
  {
    xs := [];
    var i := 0;
    while i < |s|
      invariant 0 <= i <= |s| && ListFrom(s, i).Elements? && xs + ListFrom(s, i).texts == ListFrom(s, 0).texts
      decreases |s| - i
    {
      ghost var j := SkipBlank(s, i);
      while i < |s| && s[i] <= SPACE
        invariant i <= |s| && SkipBlank(s, i) == j
      {
        i := i + 1;
      }
      var n, end := ElemLen(s, i);
      var x := ElemDecode(s, i);
      i := end;
      xs := xs + [x];
    }
  }

  method FormList(xs: seq<Text>) returns (s: Text)
    requires forall k :: 0 <= k < |xs| ==> CString(xs[k])
    ensures s == AppendedAll([], xs)
  {
    s := ListAppend([], xs);
  }

  /** lappend, on the value of the variable */
  method ListAppend(value: Text, xs: seq<Text>) returns (s: Text)
    requires forall k :: 0 <= k < |xs| ==> CString(xs[k])
    ensures s == AppendedAll(value, xs)
  {
    var buf := new Buf.Take(value);
    for j := 0 to |xs|
      invariant buf.s == AppendedAll(value, xs[..j])
    {
      buf.AppElemS(xs[j]);
      assert xs[..j + 1][..j] == xs[..j];
    }
    assert xs[..|xs|] == xs;
    s := buf.s;
  }

  // ----- split and join -----

  /** The pieces of s between the delimiters, from i on; the first one has begun with `part`. */
  function Parts(part: Text, s: Text, i: nat, d: int): (ps: seq<Text>)
    requires i <= |s|
    ensures ps != []
    decreases |s| - i
  {
    if i == |s| then [part]
    else if s[i] == d then [part] + Parts([], s, i + 1, d)
    else Parts(part + [s[i]], s, i + 1, d)
  }

  function PartsOf(s: Text, d: int): seq<Text> {
    if s == [] then [] else Parts([], s, 0, d)
  }

  /** The words of s between blanks. */
  function Words(part: Text, s: Text, i: nat): seq<Text>
    requires i <= |s|
    decreases |s| - i
  {
    if i == |s| then (if part == [] then [] else [part])
    else if s[i] > SPACE then Words(part + [s[i]], s, i + 1)
    else (if part == [] then [] else [part]) + Words([], s, i + 1)
  }

  /** A word begins at i: a character after a blank, or the first. */
  predicate Begins(s: Text, i: nat)
    requires i < |s|
  {
    s[i] > SPACE && (i == 0 || s[i - 1] <= SPACE)
  }

  /** Wherever a word begins, from i on and in order, the text from there up to the next blank or the end. */
  function Runs(s: Text, i: nat): (ws: seq<Text>)
    requires i <= |s|
    ensures forall k :: 0 <= k < |ws| ==> ws[k] != [] && forall c :: c in ws[k] ==> c > SPACE
    decreases |s| - i
  {
    if i == |s| then []
    else
      RunToBlank(s, i);
      (if Begins(s, i) then [s[i..BareEnd(s, i)]] else []) + Runs(s, i + 1)
  }

  lemma {:induction false} RunToBlank(s: Text, i: nat)
    requires i <= |s|
    ensures i <= BareEnd(s, i) <= |s| && (i < |s| && s[i] > SPACE ==> i < BareEnd(s, i))
    ensures BareEnd(s, i) < |s| ==> s[BareEnd(s, i)] <= SPACE
    ensures forall k :: i <= k < BareEnd(s, i) ==> s[k] > SPACE
    ensures forall c :: c in s[i..BareEnd(s, i)] ==> c > SPACE
    decreases |s| - i
  {
    if i < |s| && s[i] > SPACE {
      RunToBlank(s, i + 1);
    }
  }

  /** What split cuts out between blanks are all the maximal runs of other characters, in order. */
  lemma {:induction false} WordsAreRuns(s: Text, a: nat, i: nat)
    requires a <= i <= |s| && (a == 0 || s[a - 1] <= SPACE) && forall k :: a <= k < i ==> s[k] > SPACE
    ensures Words(s[a..i], s, i) == (if a < i then [s[a..BareEnd(s, i)]] else []) + Runs(s, i)
    decreases |s| - i
  {
    if i < |s| {
      if s[i] > SPACE {
        assert s[a..i] + [s[i]] == s[a..i + 1];
        WordsAreRuns(s, a, i + 1);
      } else {
        assert s[i + 1..i + 1] == [];
        WordsAreRuns(s, i + 1, i + 1);
      }
    }
  }

  function Joined(xs: seq<Text>, d: int): Text {
    if xs == [] then []
    else if |xs| == 1 then xs[0]
    else Joined(xs[..|xs| - 1], d) + (if d == 0 then [] else [d]) + xs[|xs| - 1]
  }

  lemma {:induction false} JoinedFirst(x: Text, xs: seq<Text>, d: int)
    requires xs != [] && d != 0
    ensures Joined([x] + xs, d) == x + [d] + Joined(xs, d)
    decreases |xs|
  {
    var all := [x] + xs;
    assert all[..|all| - 1] == [x] + xs[..|xs| - 1];
    if |xs| > 1 {
      JoinedFirst(x, xs[..|xs| - 1], d);
    } else {
      assert all[..1] == [x];
    }
  }

  lemma {:induction false} PartsJoin(part: Text, s: Text, i: nat, d: int)
    requires i <= |s| && d != 0
    ensures Joined(Parts(part, s, i, d), d) == part + s[i..]
    decreases |s| - i
  {
    if i < |s| {
      assert s[i..] == [s[i]] + s[i + 1..];
      if s[i] == d {
        JoinedFirst(part, Parts([], s, i + 1, d), d);
        PartsJoin([], s, i + 1, d);
      } else {
        PartsJoin(part + [s[i]], s, i + 1, d);
      }
    }
  }

  /** join(split(s, d), d) == s. */
  lemma SplitThenJoin(s: Text, d: int)
    requires d != 0
    ensures ListFrom(AppendedAll([], PartsOf(s, d)), 0).Elements?
    ensures Joined(ListFrom(AppendedAll([], PartsOf(s, d)), 0).texts, d) == s
  {
    ListsRoundTrip(PartsOf(s, d));
    if s != [] {
      PartsJoin([], s, 0, d);
    }
  }

  lemma {:induction false} PartsOfRun(part: Text, before: Text, x: Text, after: Text, d: int)
    requires d !in x && (after == [] || after[0] == d)
    ensures Parts(part, before + x + after, |before|, d)
         == if after == [] then [part + x] else [part + x] + Parts([], before + x + after, |before| + |x| + 1, d)
    decreases |x|
  {
    var s := before + x + after;
    if x == [] {
      assert part + x == part;
      assert after != [] ==> s[|before|] == after[0];
    } else {
      assert s == (before + [x[0]]) + x[1..] + after;
      assert s[|before|] == x[0];
      PartsOfRun(part + [x[0]], before + [x[0]], x[1..], after, d);
      assert part + [x[0]] + x[1..] == part + x;
    }
  }

  lemma {:induction false} PartsOfJoined(before: Text, xs: seq<Text>, d: int)
    requires xs != [] && d != 0 && forall k :: 0 <= k < |xs| ==> d !in xs[k]
    ensures Parts([], before + Joined(xs, d), |before|, d) == xs
    decreases |xs|
  {
    if |xs| == 1 {
      PartsOfRun([], before, xs[0], [], d);
      assert before + xs[0] + [] == before + xs[0];
      assert [] + xs[0] == xs[0];
    } else {
      var rest := xs[1..];
      assert xs == [xs[0]] + rest;
      JoinedFirst(xs[0], rest, d);
      var after := [d] + Joined(rest, d);
      assert before + Joined(xs, d) == before + xs[0] + after;
      PartsOfRun([], before, xs[0], after, d);
      assert before + Joined(xs, d) == (before + xs[0] + [d]) + Joined(rest, d);
      PartsOfJoined(before + xs[0] + [d], rest, d);
      assert [] + xs[0] == xs[0];
    }
  }

  /** split(join(xs, d), d) == xs for elements without the delimiter, but for the list of one empty
      element, whose join is the same as that of no elements. */
  lemma JoinThenSplit(xs: seq<Text>, d: int)
    requires d != 0 && forall k :: 0 <= k < |xs| ==> d !in xs[k]
    ensures PartsOf(Joined(xs, d), d) == xs <==> xs != [[]]
  {
    if xs != [] {
      PartsOfJoined([], xs, d);
      assert [] + Joined(xs, d) == Joined(xs, d);
      if |xs| > 1 {
        var rest := xs[1..];
        assert xs == [xs[0]] + rest;
        JoinedFirst(xs[0], rest, d);
      } else {
        assert xs == [xs[0]];
      }
    }
  }

  /** What split has still to find from i on; a delimiter at the very end owes one empty piece. */
  function Left(s: Text, i: nat, d: int, finalDelim: bool): seq<Text>
    requires i <= |s|
  {
    if i == |s| then (if finalDelim then [[]] else [])
    else if d != 0 then Parts([], s, i, d)
    else Words([], s, i)
  }

  function Kept(part: Text, d: int): seq<Text> {
    if d != 0 || part != [] then [part] else []
  }

  /** The inner loop of split: the piece that starts at i, up to a delimiter or the end. */
  method Piece(s: Text, i0: nat, delim: int, was: bool) returns (part: Text, i: nat, finalDelim: bool)
    requires CString(s) && i0 < |s| && (was ==> delim != 0)
    ensures i0 <= i <= |s| && CString(part) && (finalDelim ==> delim != 0)
    ensures Left(s, i0, delim, was) == Kept(part, delim) + Left(s, if i < |s| then i + 1 else i, delim, finalDelim)
  {
    var buf := new Buf();
    i, finalDelim := i0, was;
    while i < |s|
      invariant i0 <= i <= |s| && CString(buf.s) && (finalDelim <==> i == i0 && was)
      invariant delim != 0 ==> Parts(buf.s, s, i, delim) == Parts([], s, i0, delim)
      invariant delim == 0 ==> Words(buf.s, s, i) == Words([], s, i0)
      decreases |s| - i
    {
      if delim != 0 {
        if s[i] == delim {
          finalDelim := true;
          break;
        }
      } else {
        if s[i] <= SPACE {
          break;
        }
      }
      buf.AppC(s[i]);
      i := i + 1;
      finalDelim := false;
    }
    part := buf.s;
  }

  /** split. With no delimiter it cuts at blanks and leaves out empty words. */
  method Split(s: Text, delim: int) returns (list: Text)
    requires CString(s)
    ensures list == AppendedAll([], if delim != 0 then PartsOf(s, delim) else Runs(s, 0))
  {
    hide Appended, Parts, Words, AppendedAll, Runs;
    var finalDelim := false;
    var buf := new Buf();
    ghost var done: seq<Text> := [];
    AppendedNone();
    var i := 0;
    while i < |s|
      invariant 0 <= i <= |s| && buf.s == AppendedAll([], done) && (finalDelim ==> delim != 0)
      invariant done + Left(s, i, delim, finalDelim) == Left(s, 0, delim, false)
      decreases |s| - i
    {
      hide Left, CString;
      var part;
      part, i, finalDelim := Piece(s, i, delim, finalDelim);
      if i < |s| {
        i := i + 1;
      }
      if delim != 0 || part != [] {
        buf.AppElemS(part);
        OneMore(done, part);
      }
      assert done + [] == done;
      done := done + Kept(part, delim);
    }
    if finalDelim {
      buf.AppElemS([]);
      OneMore(done, []);
    }
    assert done + [] == done;
    LeftAll(s, delim);
    list := buf.s;
  }

  lemma LeftAll(s: Text, d: int)
    ensures Left(s, 0, d, false) == if d != 0 then PartsOf(s, d) else Runs(s, 0)
  {
    WordsAreRuns(s, 0, 0);
    assert s[0..0] == [] && [] + Runs(s, 0) == Runs(s, 0);
  }

  lemma AppendedNone()
    ensures AppendedAll([], []) == []
  {
  }

  lemma OneMore(xs: seq<Text>, x: Text)
    ensures AppendedAll([], xs + [x]) == Appended(AppendedAll([], xs), x)
  {
    assert (xs + [x])[..|xs|] == xs;
  }

  /** join */
  method Join(list: Text, delim: int) returns (r: Text)
    requires CString(list) && ListFrom(list, 0).Elements?
    ensures r == Joined(ListFrom(list, 0).texts, delim)
  {
    hide ListFrom;
    var xs := SplitList(list);
    var result := new Buf();
    for j := 0 to |xs|
      invariant result.s == Joined(xs[..j], delim)
    {
      if j > 0 && delim != 0 {
        result.AppC(delim);
      }
      result.AppS(xs[j]);
      assert xs[..j + 1][..j] == xs[..j];
    }
    assert xs[..|xs|] == xs;
    r := result.s;
  }

  // ----- What a list looks like -----

  /** The characters that need no care, from the exclamation mark to the letter z, the backslash left out. */
  predicate AllPlain(x: Text) {
    forall k :: 0 <= k < |x| ==> 33 <= x[k] <= 122 && x[k] != 92
  }

  /** An element that is not empty and needs no care is written as it is, and any other between braces. */
  lemma QuotedLooks(x: Text)
    ensures AllPlain(x) && x != [] ==> Quoted(x) == x
    ensures !AllPlain(x) || x == [] ==> Quoted(x) == [123] + EscapedText(x) + [125]
  {}

  /** Wherever it stands, a character is escaped if and only if it needs care. */
  lemma {:induction false} EscapedLooks(a: Text, c: int, b: Text)
    ensures EscapedText(a + [c] + b)
         == EscapedText(a) + (if 33 <= c <= 122 && c != 92 then [c] else [92, c]) + EscapedText(b)
    decreases |a|
  {
    var x := a + [c] + b;
    if a == [] {
      assert x[0] == c && x[1..] == b;
    } else {
      assert x[0] == a[0] && x[1..] == a[1..] + [c] + b;
      EscapedLooks(a[1..], c, b);
    }
  }

  function CareCount(x: Text): nat {
    if x == [] then 0 else CareCount(x[1..]) + if 33 <= x[0] <= 122 && x[0] != 92 then 0 else 1
  }

  lemma {:induction false} EscapedLength(x: Text)
    ensures |EscapedText(x)| == |x| + CareCount(x)
  {
    if x != [] {
      EscapedLength(x[1..]);
    }
  }

  /** The list of elements that are not empty and need no care is these elements with blanks between. */
  lemma {:induction false} PlainListLooks(xs: seq<Text>)
    requires forall k :: 0 <= k < |xs| ==> xs[k] != [] && AllPlain(xs[k])
    ensures AppendedAll([], xs) == Joined(xs, 32) && (xs != [] ==> Joined(xs, 32) != [])
    decreases |xs|
  {
    if xs != [] {
      var n := |xs| - 1;
      PlainListLooks(xs[..n]);
      QuotedLooks(xs[n]);
    }
  }

  /** Between braces text without backslash and closing brace is read as it stands, blanks included. */
  lemma {:induction false} BracesRead(s: Text, i: nat, x: Text)
    requires i + |x| < |s| && s[i..i + |x|] == x && s[i + |x|] == 125 && 92 !in x && 125 !in x
    ensures Braced(s, i) == Scan(x, i + |x| + 1, true)
    decreases |x|
  {
    if x != [] {
      assert s[i] == s[i..i + |x|][0] == x[0];
      assert s[i + 1..i + 1 + |x[1..]|] == s[i..i + |x|][1..];
      BracesRead(s, i + 1, x[1..]);
    }
  }

  /** A backslash between braces makes the next character stand for itself, whatever it is. */
  lemma BackslashRead(s: Text, i: nat)
    requires i + 1 < |s| && s[i] == 92
    ensures match Braced(s, i)
            case Dangling => Braced(s, i + 2).Dangling?
            case Scan(text, end, closed) => Braced(s, i + 2).Scan? && text == [s[i + 1]] + Braced(s, i + 2).text
                                            && end == Braced(s, i + 2).end && closed == Braced(s, i + 2).closed
  {}

  lemma ElementLooks(s: Text, i: nat, x: Text)
    requires i + |x| <= |s|
    ensures i + |x| + 1 < |s| && s[i] == 123 && s[i + 1..i + 1 + |x|] == x && s[i + 1 + |x|] == 125 && 92 !in x && 125 !in x ==>
      ElementAt(s, i) == Scan(x, i + |x| + 2, true)
    ensures s[i..i + |x|] == x && x != [] && x[0] != 123 && (forall k :: 0 <= k < |x| ==> x[k] > 32)
            && (i + |x| < |s| ==> s[i + |x|] <= 32) ==>
      ElementAt(s, i) == Scan(x, i + |x|, true)
  {
    if i + |x| + 1 < |s| && s[i] == 123 && s[i + 1..i + 1 + |x|] == x && s[i + 1 + |x|] == 125 && 92 !in x && 125 !in x {
      BracesRead(s, i + 1, x);
    }
    if s[i..i + |x|] == x && x != [] && x[0] != 123 && (forall k :: 0 <= k < |x| ==> x[k] > 32) && (i + |x| < |s| ==> s[i + |x|] <= 32) {
      assert s[i] == s[i..i + |x|][0];
      BareRead(s, i, x);
    }
  }

  /** A bare element goes up to the next blank or the end. */
  lemma {:induction false} BareRead(s: Text, i: nat, x: Text)
    requires i + |x| <= |s| && s[i..i + |x|] == x && (forall k :: 0 <= k < |x| ==> x[k] > 32)
    requires i + |x| < |s| ==> s[i + |x|] <= 32
    ensures BareEnd(s, i) == i + |x|
    decreases |x|
  {
    if x != [] {
      assert s[i] == s[i..i + |x|][0] == x[0];
      assert s[i + 1..i + 1 + |x[1..]|] == s[i..i + |x|][1..];
      BareRead(s, i + 1, x[1..]);
    }
  }
}
