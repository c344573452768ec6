/** Resolving a written description gives back what the description says. */
module MainTfRoundTrip {
  import opened Text
  import opened HclFields
  import opened MainTf

  // ----- spans -----

  /** A space in front changes nothing. */
  lemma {:induction false} LeadingSpace(c: char, s: string)
    requires IsSpace(c)
    ensures AfterEquals([c] + s) == AfterEquals(s)
  {
    LeadingSpan(c, s);
    hide IsSpace, Span;
    DropOne(c, s, Span(IsSpace, s));
  }

  lemma {:induction false} LeadingSpan(c: char, s: string)
    requires IsSpace(c)
    ensures Span(IsSpace, [c] + s) == Span(IsSpace, s) + 1
  {
    hide IsSpace;
    assert ([c] + s)[1..] == s && ([c] + s)[0] == c;
  }

  lemma {:induction false} DropOne(c: char, s: string, n: nat)
    requires n <= |s|
    ensures ([c] + s)[n + 1..] == s[n..]
  {
  }

  lemma {:induction false} LeadingSpaces(n: nat, s: string)
    ensures AfterEquals(Spaces(n) + s) == AfterEquals(s)
    decreases n
  {
    hide AfterEquals;
    if n == 0 {
      assert Spaces(n) + s == s;
    } else {
      LeadingSpaces(n - 1, s);
      assert Spaces(n) + s == [' '] + (Spaces(n - 1) + s);
      LeadingSpace(' ', Spaces(n - 1) + s);
    }
  }

  lemma {:induction false} NoEquals(s: string)
    requires s != "" && !IsSpace(s[0]) && s[0] != '='
    ensures AfterEquals(s) == None
  {
    assert Span(IsSpace, s) == 0;
  }

  /** A piece without `=` in front of a text that does not go on with one. */
  lemma {:induction false} PieceNoEquals(x: string, rest: string)
    requires (forall i | 0 <= i < |x| :: x[i] != '=') && AfterEquals(rest) == None
    ensures AfterEquals(x + rest) == None
    decreases |x|
  {
    hide AfterEquals;
    if x == "" {
      assert x + rest == rest;
    } else {
      assert x + rest == [x[0]] + (x[1..] + rest);
      if IsSpace(x[0]) {
        PieceNoEquals(x[1..], rest);
        LeadingSpace(x[0], x[1..] + rest);
      } else {
        NoEquals([x[0]] + (x[1..] + rest));
      }
    }
  }

  /** `<spaces>=<spaces>u`. */
  function Equals(n: nat, gap: nat, u: string): string { Spaces(n) + ("=" + (Spaces(gap) + u)) }

  lemma {:induction false} EqualsHead(gap: nat, u: string)
    requires u != "" && !IsSpace(u[0])
    ensures AfterEquals("=" + (Spaces(gap) + u)) == Some(u)
  {
    var v, w := "=" + (Spaces(gap) + u), Spaces(gap) + u;
    assert v[0] == '=' && v[1..] == w;
    assert Span(IsSpace, v) == 0 && v[0..] == v;
    SpanAt(IsSpace, Spaces(gap), u);
    assert w[gap..] == u;
  }

  lemma {:induction false} EqualsAt(n: nat, gap: nat, u: string)
    requires u != "" && !IsSpace(u[0])
    ensures AfterEquals(Equals(n, gap, u)) == Some(u)
  {
    hide AfterEquals;
    LeadingSpaces(n, "=" + (Spaces(gap) + u));
    EqualsHead(gap, u);
  }

  lemma {:induction false} Reassociate(a: string, b: string, c: string, d: string, e: string, u: string)
    ensures a + b + c + (d + e) + u == a + (b + (c + (d + (e + u))))
  {
  }

  lemma {:induction false} HeadShape(indent: nat, name: string, pad: nat, gap: nat, u: string)
    ensures Head(indent, name, pad, gap) + u == Spaces(indent) + (name + Equals(pad, gap, u))
  {
    Reassociate(Spaces(indent), name, Spaces(pad), "=", Spaces(gap), u);
  }

  // ----- searching through the pieces -----

  /** A character that is no word character starts nothing. */
  lemma {:induction false} SkipChar(b: bool, c: char, s: string, accept: (string, string) -> bool)
    requires !IsWord(c)
    ensures Search(b, [c] + s, accept) == Search(true, s, accept)
  {
    assert ([c] + s)[1..] == s;
    assert Span(IsWord, [c] + s) == 0;
  }

  lemma {:induction false} SkipSpaces(b: bool, n: nat, s: string, accept: (string, string) -> bool)
    ensures Search(b, Spaces(n) + s, accept) == Search(b || n > 0, s, accept)
    decreases n
  {
    if n == 0 {
      assert Spaces(n) + s == s;
    } else {
      assert Spaces(n) + s == [' '] + (Spaces(n - 1) + s);
      SkipChar(b, ' ', Spaces(n - 1) + s, accept);
      SkipSpaces(true, n - 1, s, accept);
    }
  }

  /** A piece without `=` that does not run into a word holds nothing to find. */
  lemma {:induction false} SkipPiece(b: bool, x: string, rest: string, accept: (string, string) -> bool)
    requires (forall i | 0 <= i < |x| :: x[i] != '=') && AfterEquals(rest) == None
    requires x != "" ==> !IsWord(x[|x| - 1])
    ensures Search(b, x + rest, accept) == Search(b || x != "", rest, accept)
    decreases |x|
  {
    hide AfterEquals;
    var s := x + rest;
    if x == "" {
      assert s == rest;
    } else {
      var n := Span(IsWord, s);
      assert s[|x| - 1] == x[|x| - 1];
      assert n <= |x| - 1;
      assert s[n..] == x[n..] + rest;
      PieceNoEquals(x[n..], rest);
      assert s[1..] == x[1..] + rest && s[0] == x[0];
      SkipPiece(!IsWord(x[0]), x[1..], rest, accept);
    }
  }

  /** So does a line without `=`. */
  lemma {:induction false} SkipLine(b: bool, x: string, rest: string, accept: (string, string) -> bool)
    requires (forall i | 0 <= i < |x| :: x[i] != '=') && AfterEquals(rest) == None
    ensures Search(b, x + "\n" + rest, accept) == Search(true, rest, accept)
    ensures AfterEquals(x + "\n" + rest) == None
  {
    hide AfterEquals, Search;
    SkipPiece(b, x + "\n", rest, accept);
    PieceNoEquals(x + "\n", rest);
  }

  lemma {:induction false} SkipWordTail(x: string, s: string, accept: (string, string) -> bool)
    requires forall i | 0 <= i < |x| :: IsWord(x[i])
    ensures Search(false, x + s, accept) == Search(false, s, accept)
    decreases |x|
  {
    if x == "" {
      assert x + s == s;
    } else {
      assert (x + s)[0] == x[0] && (x + s)[1..] == x[1..] + s;
      SkipWordTail(x[1..], s, accept);
    }
  }

  lemma {:induction false} EqualsNoWord(n: nat, gap: nat, u: string)
    ensures Equals(n, gap, u) != "" && !IsWord(Equals(n, gap, u)[0])
  {
    if n > 0 { assert Equals(n, gap, u)[0] == ' '; } else { assert Equals(n, gap, u)[0] == '='; }
  }

  lemma {:induction false} AssignOf(name: string, n: nat, gap: nat, u: string)
    requires IsIdent(name) && u != "" && !IsSpace(u[0])
    ensures AssignAt(name + Equals(n, gap, u)) == Some((name, u))
  {
    var tail := Equals(n, gap, u);
    EqualsNoWord(n, gap, u);
    EqualsAt(n, gap, u);
    hide Equals, AfterEquals;
    SpanAt(IsWord, name, tail);
    assert (name + tail)[|name|..] == tail && (name + tail)[..|name|] == name;
  }

  /** Past the name, the search goes on behind the equals sign. */
  lemma {:induction false} SkipName(name: string, n: nat, gap: nat, u: string, accept: (string, string) -> bool)
    requires IsIdent(name)
    ensures Search(false, name[1..] + Equals(n, gap, u), accept) == Search(true, u, accept)
  {
    hide Search;
    var v := "=" + (Spaces(gap) + u);
    SkipWordTail(name[1..], Spaces(n) + v, accept);
    SkipSpaces(false, n, v, accept);
    assert v == ['='] + (Spaces(gap) + u);
    SkipChar(n > 0, '=', Spaces(gap) + u, accept);
    SkipSpaces(true, gap, u, accept);
  }

  lemma {:induction false} SearchName(name: string, n: nat, gap: nat, u: string, accept: (string, string) -> bool)
    requires IsIdent(name) && u != "" && !IsSpace(u[0])
    ensures Search(true, name + Equals(n, gap, u), accept) ==
            if accept(name, u) then Some((name, u)) else Search(true, u, accept)
  {
    var tail := Equals(n, gap, u);
    AssignOf(name, n, gap, u);
    SkipName(name, n, gap, u, accept);
    hide Equals, AssignAt;
    NameThen(name, tail);
    SearchHere(name + tail, (name, u), accept);
  }

  lemma {:induction false} NameThen(name: string, tail: string)
    requires IsIdent(name)
    ensures name + tail != "" && IsWord((name + tail)[0]) && (name + tail)[1..] == name[1..] + tail
  {
  }

  lemma {:induction false} SearchHere(s: string, m: (string, string), accept: (string, string) -> bool)
    requires s != "" && AssignAt(s) == Some(m)
    ensures Search(true, s, accept) == if accept(m.0, m.1) then Some(m) else Search(!IsWord(s[0]), s[1..], accept)
  {
    hide AssignAt;
  }

  /** `<indent><name><pad>=<gap>u`: either the search stops here or it goes on in `u`. */
  lemma {:induction false} SearchHead(b: bool, indent: nat, name: string, pad: nat, gap: nat, u: string, accept: (string, string) -> bool)
    requires IsIdent(name) && u != "" && !IsSpace(u[0])
    requires b || indent > 0
    ensures Search(b, Head(indent, name, pad, gap) + u, accept) ==
            if accept(name, u) then Some((name, u)) else Search(true, u, accept)
  {
    hide Search;
    HeadShape(indent, name, pad, gap, u);
    hide Equals;
    SkipSpaces(b, indent, name + Equals(pad, gap, u), accept);
    SearchName(name, pad, gap, u, accept);
  }

  lemma {:induction false} RightChars(a: Attr)
    requires ValidAttr(a)
    ensures var s := Right(a);
      && s != "" && !IsSpace(s[0]) && s[0] != '{' && s[0] == ValueText(a.value)[0]
      && forall i | 0 <= i < |s| :: s[i] != '=' && s[i] != '\n'
    ensures IsDigit(Right(a)[0]) <==> a.value.Number?
    ensures Right(a)[0] == '"' <==> a.value.Quoted?
  {
    hide InString;
  }

  /** An attribute line: either the search stops at its name or it goes on after it. */
  lemma {:induction false} SearchAttr(a: Attr, rest: string, accept: (string, string) -> bool)
    requires ValidAttr(a) && AfterEquals(rest) == None
    ensures var u := Right(a) + "\n" + rest;
      Search(true, AttrLine(a) + rest, accept) ==
      if accept(a.name, u) then Some((a.name, u)) else Search(true, rest, accept)
  {
    hide Search;
    var u := Right(a) + "\n" + rest;
    RightChars(a);
    assert u[0] == Right(a)[0];
    hide Right;
    AttrText(Head(a.indent, a.name, a.pad, a.gap), Right(a), rest);
    SearchHead(true, a.indent, a.name, a.pad, a.gap, u, accept);
    SkipLine(true, Right(a), rest, accept);
  }

  // ----- commented out or not -----

  /** A mark is passed over. */
  lemma {:induction false} SearchMark(mark: Mark, s: string, accept: (string, string) -> bool)
    requires ValidMark(mark) && AfterEquals(s) == None
    ensures Search(true, MarkText(mark) + s, accept) == Search(true, s, accept)
    ensures AfterEquals(MarkText(mark) + s) == None
  {
    hide Search, AfterEquals, InString;
    var x := MarkText(mark);
    assert forall i | 0 <= i < |x| :: x[i] != '=';
    assert x != "" ==> x[|x| - 1] == if mark.lead == "" then '#' else mark.lead[|mark.lead| - 1];
    SkipPiece(true, x, s, accept);
    PieceNoEquals(x, s);
  }

  lemma {:induction false} HeadNoEquals(indent: nat, name: string, pad: nat, gap: nat, u: string)
    requires IsIdent(name)
    ensures AfterEquals(Head(indent, name, pad, gap) + u) == None
  {
    var s := name + Equals(pad, gap, u);
    assert s[0] == name[0] && !IsSpace(name[0]) && name[0] != '=';
    hide Head, Equals, AfterEquals, IsSpace, IsIdent;
    HeadShape(indent, name, pad, gap, u);
    LeadingSpaces(indent, s);
    NoEquals(s);
  }

  lemma {:induction false} AttrText(head: string, v: string, rest: string)
    ensures head + v + "\n" + rest == head + (v + "\n" + rest)
  {
  }

  lemma {:induction false} Associate(a: string, b: string, c: string)
    ensures (a + b) + c == a + (b + c)
  {
  }

  /** An assignment, commented out or not: either the search stops at its name or it
      goes on after it. */
  lemma {:induction false} SearchAssign(mark: Mark, a: Attr, rest: string, accept: (string, string) -> bool)
    requires ValidMark(mark) && ValidAttr(a) && AfterEquals(rest) == None
    ensures var u := Right(a) + "\n" + rest;
      Search(true, (MarkText(mark) + AttrLine(a)) + rest, accept) ==
      if accept(a.name, u) then Some((a.name, u)) else Search(true, rest, accept)
    ensures AfterEquals((MarkText(mark) + AttrLine(a)) + rest) == None
    ensures Search(true, (MarkText(mark) + AttrLine(a)) + rest, accept) == Search(true, AttrLine(a) + rest, accept)
  {
    hide Search, AfterEquals;
    Associate(MarkText(mark), AttrLine(a), rest);
    AttrText(Head(a.indent, a.name, a.pad, a.gap), Right(a), rest);
    HeadNoEquals(a.indent, a.name, a.pad, a.gap, Right(a) + "\n" + rest);
    hide MarkText, Right, Head;
    SearchMark(mark, AttrLine(a) + rest, accept);
    SearchAttr(a, rest, accept);
  }

  /** The text of a block in front of more text. */
  lemma {:induction false} BlockText(mark: string, head: string, lines: string, end: string, rest: string)
    ensures (mark + head) + ("{\n" + (lines + (end + "}\n"))) + rest == mark + (head + ("{\n" + (lines + (end + "}\n" + rest))))
  {
  }

  lemma {:induction false} LineNoEquals(l: Line, rest: string)
    requires ValidLine(l) && AfterEquals(rest) == None
    ensures AfterEquals(LineText(l) + rest) == None
  {
    hide AfterEquals, InString;
    match l
    case Assign(mark, a) => SearchAssign(mark, a, rest, (n, u) => false);
    case Plain(x) => PieceNoEquals(x + "\n", rest);
    case Remark(x) => PieceNoEquals("#" + x + "\n", rest);
  }

  lemma {:induction false} LinesNoEquals(lines: seq<Line>, rest: string)
    requires (forall l | l in lines :: ValidLine(l)) && AfterEquals(rest) == None
    ensures AfterEquals(LinesText(lines) + rest) == None
    decreases |lines|
  {
    hide AfterEquals, LineText, ValidLine;
    if lines == [] {
      assert LinesText(lines) + rest == rest;
    } else {
      LinesNoEquals(lines[1..], rest);
      LineNoEquals(lines[0], LinesText(lines[1..]) + rest);
      Associate(LineText(lines[0]), LinesText(lines[1..]), rest);
    }
  }

  lemma {:induction false} ItemNoEquals(item: Item, rest: string)
    requires ValidItem(item) && AfterEquals(rest) == None
    ensures AfterEquals(ItemText(item) + rest) == None
  {
    hide AfterEquals;
    match item
    case Single(l) => LineNoEquals(l, rest);
    case Block(mark, indent, name, pad, gap, lines) =>
      hide LinesText, Head, MarkText, ValidLine;
      var inside := "{\n" + (LinesText(lines) + (CloseHead(mark, indent) + "}\n" + rest));
      BlockText(MarkText(mark), Head(indent, name, pad, gap), LinesText(lines), CloseHead(mark, indent), rest);
      HeadNoEquals(indent, name, pad, gap, inside);
      SearchMark(mark, Head(indent, name, pad, gap) + inside, (n, u) => false);
  }

  /** No line of the form starts with `=`. */
  lemma {:induction false} ItemsNoEquals(items: seq<Item>)
    requires ValidItems(items)
    ensures AfterEquals(ItemsText(items)) == None
    decreases |items|
  {
    hide ItemText;
    hide ValidItem;
    if items != [] {
      ItemsNoEquals(items[1..]);
      ItemNoEquals(items[0], ItemsText(items[1..]));
    }
  }
}
