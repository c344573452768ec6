/** The resolver's reading of a written description. */
module MainTfMeaning {
  import opened Text
  import opened HclScanner
  import opened HclFields
  import opened Topology
  import opened MainTf
  import opened MainTfScan
  import opened MainTfRoundTrip

  // ----- lines and blocks in general -----

  /** Lines none of which the search accepts. */
  lemma {:induction false} SkipLines(lines: seq<Line>, rest: string, accept: (string, string) -> bool)
    requires (forall l | l in lines :: ValidLine(l)) && AfterEquals(rest) == None
    requires forall a: Attr, u: string | ValidAttr(a) && u != "" && Right(a) <= u :: !accept(a.name, u)
    ensures Search(true, LinesText(lines) + rest, accept) == Search(true, rest, accept)
    decreases |lines|
  {
    hide Search, AfterEquals, LineText, ValidLine, ValidAttr, Right;
    if lines == [] {
      assert LinesText(lines) + rest == rest;
    } else {
      var tail := LinesText(lines[1..]) + rest;
      LinesNoEquals(lines[1..], rest);
      Associate(LineText(lines[0]), LinesText(lines[1..]), rest);
      if lines[0].Assign? { AttrOfLine(lines[0], "\n" + tail); }
      SkipOneLine(lines[0], tail, accept);
      SkipLines(lines[1..], rest, accept);
    }
  }

  lemma {:induction false} AttrOfLine(l: Line, more: string)
    requires ValidLine(l) && l.Assign? && more != "" && more[0] == '\n'
    ensures ValidAttr(l.attr) && Right(l.attr) <= Right(l.attr) + more && Right(l.attr) + more != ""
    ensures Right(l.attr) + more == Right(l.attr) + "\n" + more[1..]
  {
    hide ValidAttr, Right;
    assert more == "\n" + more[1..];
  }

  lemma {:induction false} SkipOneLine(l: Line, rest: string, accept: (string, string) -> bool)
    requires ValidLine(l) && AfterEquals(rest) == None
    requires l.Assign? ==> !accept(l.attr.name, Right(l.attr) + "\n" + rest)
    ensures Search(true, LineText(l) + rest, accept) == Search(true, rest, accept)
  {
    hide Search, AfterEquals, InString;
    match l
    case Assign(mark, a) => SearchAssign(mark, a, rest, accept);
    case Plain(x) => SkipLine(true, x, rest, accept);
    case Remark(x) => SkipLine(true, "#" + x, rest, accept);
  }

  /** A block header, commented out or not: either the search stops at it or it goes
      on in the block. */
  lemma {:induction false} SearchBlockHead(mark: Mark, indent: nat, name: string, pad: nat, gap: nat, inside: string,
                                           accept: (string, string) -> bool)
    requires ValidMark(mark) && IsIdent(name)
    ensures Search(true, MarkText(mark) + (Head(indent, name, pad, gap) + ("{\n" + inside)), accept) ==
            if accept(name, "{\n" + inside) then Some((name, "{\n" + inside)) else Search(true, inside, accept)
  {
    hide Search, AfterEquals;
    var u := "{\n" + inside;
    HeadNoEquals(indent, name, pad, gap, u);
    hide Head;
    SearchMark(mark, Head(indent, name, pad, gap) + u, accept);
    SearchHead(true, indent, name, pad, gap, u, accept);
    assert u == ['{'] + (['\n'] + inside);
    SkipChar(true, '{', ['\n'] + inside, accept);
    SkipChar(true, '\n', inside, accept);
  }

  lemma {:induction false} SkipClose(mark: Mark, indent: nat, rest: string, accept: (string, string) -> bool)
    requires AfterEquals(rest) == None
    ensures Search(true, CloseHead(mark, indent) + "}\n" + rest, accept) == Search(true, rest, accept)
    ensures AfterEquals(CloseHead(mark, indent) + "}\n" + rest) == None
  {
    hide AfterEquals, Search;
    var x := CloseHead(mark, indent) + "}";
    assert x + "\n" + rest == CloseHead(mark, indent) + "}\n" + rest;
    SkipLine(true, x, rest, accept);
  }

  // ----- the fields -----

  lemma {:induction false} TrimNewlines(s: string)
    ensures AfterLastNewline("\n" + s) > 0
    ensures Search(true, ("\n" + s)[AfterLastNewline("\n" + s)..], IsField) == Search(true, s, IsField)
  {
    var w, m := "\n" + s, AfterLastNewline(s);
    assert w[1..] == s;
    if m > 0 {
      assert w[m + 1..] == s[m..];
      DropSpaces(s, m);
    } else {
      assert w[1..] == s;
    }
  }

  lemma {:induction false} DropSpaces(s: string, n: nat)
    requires n <= AfterLastNewline(s)
    ensures Search(true, s[n..], IsField) == Search(true, s, IsField)
    decreases n
  {
    if n == 0 {
      assert s[0..] == s;
    } else {
      assert s == [s[0]] + s[1..];
      SkipChar(true, s[0], s[1..], IsField);
      DropSpaces(s[1..], n - 1);
      assert s[1..][n - 1..] == s[n..];
    }
  }

  lemma {:induction false} QuotedRead(t: string, w: string)
    requires IsPlain(t)
    ensures LiteralAt("\"" + t + "\"" + w) == Some((t, |t| + 2))
  {
    var u := "\"" + t + "\"" + w;
    assert u[1..] == t + ("\"" + w);
    SpanAt(NotQuote, t, "\"" + w);
    assert u[1..|t| + 1] == t;
  }

  lemma {:induction false} NumberRead(n: nat, w: string)
    requires w != "" && !IsDigit(w[0])
    ensures LiteralAt(Dec(n) + w) == Some((Dec(n), |Dec(n)|))
  {
    var v := Dec(n);
    SpanAt(IsDigit, v, w);
    assert (v + w)[0] == v[0] && (v + w)[..|v|] == v;
  }

  /** Blanks in front of the end of a line do not matter. */
  lemma {:induction false} BlankTail(tail: string, w: string)
    requires IsBlank(tail) && AfterLastNewline(w) > 0
    ensures AfterLastNewline(tail + w) > 0
    ensures (tail + w)[AfterLastNewline(tail + w)..] == w[AfterLastNewline(w)..]
    decreases |tail|
  {
    if tail == "" {
      assert tail + w == w;
    } else {
      assert (tail + w)[1..] == tail[1..] + w;
      BlankTail(tail[1..], w);
    }
  }

  /** Anything else keeps the line from ending there. */
  lemma {:induction false} NoteTail(tail: string, w: string)
    requires !IsBlank(tail) && forall i | 0 <= i < |tail| :: tail[i] != '\n'
    ensures AfterLastNewline(tail + w) == 0
    decreases |tail|
  {
    assert (tail + w)[0] == tail[0] && (tail + w)[1..] == tail[1..] + w;
    if IsSpace(tail[0]) {
      assert !IsBlank(tail[1..]) by {
        var i :| 0 <= i < |tail| && !IsSpace(tail[i]);
        assert tail[1..][i - 1] == tail[i];
      }
      NoteTail(tail[1..], w);
    }
  }

  /** The literal of an attribute, read with the text behind it: taken if and only if
      nothing but blanks stand between it and the end of the line. */
  lemma {:induction false} FieldOfLiteral(a: Attr, rest: string)
    requires ValidAttr(a) && !a.value.Expr?
    ensures var u := Right(a) + "\n" + rest;
      if IsBlank(a.tail) then
        && FieldTest(a.name, u).Some?
        && [FieldTest(a.name, u).value.0] == LiteralOf(a)
        && FieldTest(a.name, u).value.1 == ("\n" + rest)[AfterLastNewline("\n" + rest)..]
      else FieldTest(a.name, u) == None
  {
    var v, w := ValueText(a.value), a.tail + ("\n" + rest);
    TrimNewlines(rest);
    RightShape(a, rest);
    if IsBlank(a.tail) { BlankTail(a.tail, "\n" + rest); } else { assert IsClosed(a.tail); NoteTail(a.tail, "\n" + rest); }
    LiteralRead(a, w);
    hide AfterLastNewline, IsBlank, LiteralAt, InString, Right, ValueText;
    assert (v + w)[|v|..] == w;
  }

  lemma {:induction false} RightShape(a: Attr, rest: string)
    ensures Right(a) + "\n" + rest == ValueText(a.value) + (a.tail + ("\n" + rest))
  {
    hide ValueText;
  }

  lemma {:induction false} LiteralRead(a: Attr, w: string)
    requires ValidAttr(a) && !a.value.Expr? && w != "" && !IsDigit(w[0])
    ensures var l := LiteralAt(ValueText(a.value) + w);
      l.Some? && l.value.1 == |ValueText(a.value)| && LiteralOf(a) == [ModuleField(a.name, l.value.0)]
  {
    if a.value.Quoted? { QuotedRead(a.value.text, w); } else { NumberRead(a.value.n, w); }
    hide LiteralAt, InString;
  }

  lemma {:induction false} NoFieldInExpr(a: Attr, u: string)
    requires ValidAttr(a) && a.value.Expr? && u != "" && u[0] == Right(a)[0]
    ensures !IsField(a.name, u)
  {
    RightChars(a);
    hide Right, ValidAttr;
    assert Span(IsDigit, u) == 0;
  }

  /** An attribute line contributes its literal, or nothing. */
  lemma {:induction false} FieldsOfAttr(a: Attr, rest: string)
    requires ValidAttr(a) && AfterEquals(rest) == None
    ensures Fields(true, AttrLine(a) + rest) == (if IsBlank(a.tail) then LiteralOf(a) else []) + Fields(true, rest)
  {
    hide Search, AfterEquals, FieldTest, IsBlank;
    var u := Right(a) + "\n" + rest;
    SearchAttr(a, rest, IsField);
    assert [] + Fields(true, rest) == Fields(true, rest);
    RightChars(a);
    assert u[0] == Right(a)[0];
    hide Right, ValidAttr;
    if a.value.Expr? {
      NoFieldInExpr(a, u);
    } else {
      FieldOfLiteral(a, rest);
      TrimNewlines(rest);
    }
  }

  /** A line that is commented out contributes the same. */
  lemma {:induction false} FieldsOfLine(l: Line, rest: string)
    requires ValidLine(l) && AfterEquals(rest) == None
    ensures Fields(true, LineText(l) + rest) == LineRead(l) + Fields(true, rest)
  {
    hide Search, AfterEquals, Fields, InString, IsBlank, ValidAttr, ValidMark;
    assert [] + Fields(true, rest) == Fields(true, rest);
    match l
    case Assign(mark, a) =>
      hide AttrLine, MarkText, LiteralOf;
      SearchAssign(mark, a, rest, IsField);
      SameFields(LineText(l) + rest, AttrLine(a) + rest);
      FieldsOfAttr(a, rest);
    case Plain(x) =>
      SkipLine(true, x, rest, IsField);
      SameFields(x + "\n" + rest, rest);
    case Remark(x) =>
      SkipLine(true, "#" + x, rest, IsField);
      SameFields("#" + x + "\n" + rest, rest);
  }

  lemma {:induction false} FieldsOfLines(lines: seq<Line>, rest: string)
    requires (forall l | l in lines :: ValidLine(l)) && AfterEquals(rest) == None
    ensures Fields(true, LinesText(lines) + rest) == LinesRead(lines) + Fields(true, rest)
    decreases |lines|
  {
    hide AfterEquals, Fields, LineText, ValidLine, LineRead;
    if lines == [] {
      assert LinesText(lines) + rest == rest && LinesRead(lines) + Fields(true, rest) == Fields(true, rest);
    } else {
      var tail := LinesText(lines[1..]) + rest;
      LinesNoEquals(lines[1..], rest);
      Associate(LineText(lines[0]), LinesText(lines[1..]), rest);
      FieldsOfLine(lines[0], tail);
      FieldsOfLines(lines[1..], rest);
      assert LineRead(lines[0]) + (LinesRead(lines[1..]) + Fields(true, rest)) == LinesRead(lines) + Fields(true, rest);
    }
  }

  /** Fields depend on a text only through the search. */
  lemma {:induction false} SameFields(s: string, t: string)
    requires Search(true, s, IsField) == Search(true, t, IsField)
    ensures Fields(true, s) == Fields(true, t)
  {
  }

  lemma {:induction false} NoFieldAtBrace(name: string, inside: string)
    ensures !IsField(name, "{\n" + inside)
  {
    assert Span(IsDigit, "{\n" + inside) == 0;
  }

  lemma {:induction false} FieldsOfItem(item: Item, rest: string)
    requires ValidItem(item) && AfterEquals(rest) == None
    ensures Fields(true, ItemText(item) + rest) == ItemRead(item) + Fields(true, rest)
  {
    hide Search, AfterEquals, Fields;
    match item
    case Single(l) => FieldsOfLine(l, rest);
    case Block(mark, indent, name, pad, gap, lines) =>
      hide LinesText, Head, MarkText, CloseHead, ValidLine;
      var close := CloseHead(mark, indent) + "}\n" + rest;
      var inside := LinesText(lines) + close;
      BlockText(MarkText(mark), Head(indent, name, pad, gap), LinesText(lines), CloseHead(mark, indent), rest);
      NoFieldAtBrace(name, inside);
      SearchBlockHead(mark, indent, name, pad, gap, inside, IsField);
      SameFields(ItemText(item) + rest, inside);
      SkipClose(mark, indent, rest, IsField);
      FieldsOfLines(lines, close);
      SameFields(close, rest);
  }

  lemma {:induction false} FieldsOfItems(items: seq<Item>)
    requires ValidItems(items)
    ensures Fields(true, ItemsText(items)) == Read(items)
    decreases |items|
  {
    hide AfterEquals, ItemText, ItemRead, ValidItem;
    if items == [] {
      assert Search(true, "", IsField) == None;
    } else {
      ItemsNoEquals(items[1..]);
      FieldsOfItem(items[0], ItemsText(items[1..]));
      FieldsOfItems(items[1..]);
    }
  }

  /** The field pattern finds exactly the literals with nothing but blanks behind
      them, in order. */
  lemma {:induction false} FieldsOfBody(items: seq<Item>)
    requires ValidItems(items)
    ensures Fields(true, "\n" + ItemsText(items)) == Read(items)
  {
    hide ItemsText;
    FieldsOfItems(items);
    assert "\n" + ItemsText(items) == ['\n'] + ItemsText(items);
    SkipChar(true, '\n', ItemsText(items), IsField);
    SameFields("\n" + ItemsText(items), ItemsText(items));
  }

  // ----- the counts -----

  function ChildText(lines: seq<Line>, end: string, rest: string): string {
    "{\n" + (LinesText(lines) + (end + "}\n" + rest))
  }

  lemma {:induction false} NoBlockAtAttr(a: Attr, u: string, child: string)
    requires ValidAttr(a) && u != "" && Right(a) <= u
    ensures !OpensChild(child)(a.name, u)
  {
    RightChars(a);
    assert u[0] == Right(a)[0];
    hide Right, ValidAttr;
  }

  /** A line or block other than the wanted one is passed over. */
  lemma {:induction false} SkipItem(item: Item, rest: string, child: string)
    requires ValidItem(item) && AfterEquals(rest) == None
    requires !IsBlock(item, child)
    ensures Search(true, ItemText(item) + rest, OpensChild(child)) == Search(true, rest, OpensChild(child))
  {
    hide Search, AfterEquals, ValidAttr, Right;
    var accept := OpensChild(child);
    match item
    case Single(l) =>
      if l.Assign? {
        assert Right(l.attr) <= Right(l.attr) + "\n" + rest;
        NoBlockAtAttr(l.attr, Right(l.attr) + "\n" + rest, child);
      }
      SkipOneLine(l, rest, accept);
    case Block(mark, indent, name, pad, gap, lines) =>
      hide LinesText, Head, MarkText, CloseHead, ValidLine;
      var close := CloseHead(mark, indent) + "}\n" + rest;
      BlockText(MarkText(mark), Head(indent, name, pad, gap), LinesText(lines), CloseHead(mark, indent), rest);
      SearchBlockHead(mark, indent, name, pad, gap, LinesText(lines) + close, accept);
      SkipClose(mark, indent, rest, accept);
      forall a: Attr, u: string | ValidAttr(a) && u != "" && Right(a) <= u ensures !accept(a.name, u) { NoBlockAtAttr(a, u, child); }
      SkipLines(lines, close, accept);
  }

  /** The child search stops exactly at the first block of that name, commented out
      or not. */
  lemma {:induction false} ChildFound(items: seq<Item>, child: string) returns (end: string, rest: string)
    requires ValidItems(items)
    ensures NoBrace(end) && AfterEquals(end) == None && Search(true, end, IsCount) == None
    ensures Search(true, ItemsText(items), OpensChild(child)) ==
            match FirstBlock(items, child, true)
            case None => None
            case Some(lines) => Some((child, ChildText(lines, end, rest)))
    decreases |items|
  {
    hide AfterEquals, ValidItem, Search, NoBrace;
    if items == [] {
      NothingAtEnd(Live, 0);
      end, rest := CloseHead(Live, 0), "";
      assert Search(true, "", OpensChild(child)) == None by { NoneInEmpty(OpensChild(child)); }
    } else {
      var tail := ItemsText(items[1..]);
      ItemsNoEquals(items[1..]);
      if IsBlock(items[0], child) {
        NothingAtEnd(items[0].mark, items[0].indent);
        end, rest := CloseHead(items[0].mark, items[0].indent), tail;
        BlockFound(items[0], tail);
      } else {
        hide ItemText;
        SkipItem(items[0], tail, child);
        end, rest := ChildFound(items[1..], child);
      }
    }
  }

  lemma {:induction false} NoneInEmpty(accept: (string, string) -> bool)
    ensures Search(true, "", accept) == None
  {
  }

  lemma {:induction false} BlockFound(item: Item, rest: string)
    requires item.Block? && ValidItem(item)
    ensures Search(true, ItemText(item) + rest, OpensChild(item.name)) ==
            Some((item.name, ChildText(item.lines, CloseHead(item.mark, item.indent), rest)))
  {
    hide Search, LinesText, Head, MarkText, CloseHead, ValidLine;
    var text, end := LinesText(item.lines), CloseHead(item.mark, item.indent);
    BlockText(MarkText(item.mark), Head(item.indent, item.name, item.pad, item.gap), text, end, rest);
    SearchBlockHead(item.mark, item.indent, item.name, item.pad, item.gap, text + (end + "}\n" + rest), OpensChild(item.name));
  }

  /** Even a commented opening line with nothing of a block behind it is taken: the
      nested scan then runs on through whatever text follows. */
  lemma {:induction false} CommentedOpeningIsTaken(mark: Mark, indent: nat, child: string, pad: nat, gap: nat, rest: string)
    requires ValidMark(mark) && mark.Off? && IsIdent(child)
    ensures Search(true, MarkText(mark) + (Head(indent, child, pad, gap) + ("{\n" + rest)), OpensChild(child)) ==
            Some((child, "{\n" + rest))
  {
    hide Search, MarkText, Head;
    SearchBlockHead(mark, indent, child, pad, gap, rest, OpensChild(child));
  }

  ghost predicate NoBrace(s: string) {
    forall i | 0 <= i < |s| :: s[i] != '{' && s[i] != '}'
  }

  lemma {:induction false} NoBraceConcat(a: string, b: string)
    requires NoBrace(a) && NoBrace(b)
    ensures NoBrace(a + b)
  {
  }

  lemma {:induction false} NoBraceDepth(u: string, n: nat)
    requires n <= |u| && forall i | 0 <= i < n :: u[i] != '{' && u[i] != '}'
    ensures RawDepth(u, n) == 1
    decreases n
  {
    if n > 0 { NoBraceDepth(u, n - 1); }
  }

  /** Up to its first brace, a closing one, a text is the child's inside. */
  lemma {:induction false} InnerUpToBrace(inner: string, after: string)
    requires NoBrace(inner)
    ensures ChildInner(inner + "}" + after) == inner
  {
    var u := inner + "}" + after;
    assert forall i | 0 <= i < |inner| :: u[i] == inner[i];
    forall j: nat | j <= |inner| ensures RawDepth(u, j) == 1 { NoBraceDepth(u, j); }
    assert u[|inner|] == '}';
    assert IsRawClose(u, |inner|);
    ChildInnerIs(u, |inner|);
  }

  lemma {:induction false} LineNoBrace(mark: Mark, l: Line)
    requires ValidInside(mark, l)
    ensures NoBrace(LineText(l))
  {
    hide InString;
    match l
    case Assign(m, a) =>
      HeadChars(a.indent, a.name, a.pad, a.gap);
      assert NoBrace(Head(a.indent, a.name, a.pad, a.gap)) && NoBrace(Right(a)) && NoBrace(MarkText(m));
      hide Head, Right, MarkText, NoBrace;
      NoBraceConcat(Head(a.indent, a.name, a.pad, a.gap), Right(a));
      assert NoBrace("\n") by { NewlineNoBrace(); }
      NoBraceConcat(Head(a.indent, a.name, a.pad, a.gap) + Right(a), "\n");
      NoBraceConcat(MarkText(m), AttrLine(a));
    case Plain(_) =>
    case Remark(_) =>
  }

  lemma {:induction false} NewlineNoBrace()
    ensures NoBrace("\n")
  {
  }

  lemma {:induction false} LinesNoBrace(mark: Mark, lines: seq<Line>)
    requires forall l | l in lines :: ValidInside(mark, l)
    ensures NoBrace(LinesText(lines))
    decreases |lines|
  {
    hide LineText, ValidInside;
    if lines != [] {
      LinesNoBrace(mark, lines[1..]);
      LineNoBrace(mark, lines[0]);
      NoBraceConcat(LineText(lines[0]), LinesText(lines[1..]));
    }
  }

  /** The nested scan takes exactly the block's inside. */
  lemma {:induction false} ChildInnerIsBlock(mark: Mark, lines: seq<Line>, end: string, rest: string)
    requires (forall l | l in lines :: ValidInside(mark, l)) && NoBrace(end)
    ensures ChildInner(ChildText(lines, end, rest)[1..]) == "\n" + LinesText(lines) + end
  {
    hide ChildInner, LinesText, ValidInside, NoBrace;
    LinesNoBrace(mark, lines);
    NewlineNoBrace();
    NoBraceConcat("\n", LinesText(lines));
    NoBraceConcat("\n" + LinesText(lines), end);
    ChildTextShape(LinesText(lines), end, rest);
    InnerUpToBrace("\n" + LinesText(lines) + end, "\n" + rest);
  }

  lemma {:induction false} ChildTextShape(lines: string, end: string, rest: string)
    ensures ("{\n" + (lines + (end + "}\n" + rest)))[1..] == ("\n" + lines + end) + "}" + ("\n" + rest)
  {
  }

  /** The first numeric `count` among lines, commented out or not. */
  lemma {:induction false} CountFound(lines: seq<Line>, rest: string)
    requires (forall l | l in lines :: ValidLine(l)) && AfterEquals(rest) == None
    requires Search(true, rest, IsCount) == None
    ensures match Search(true, LinesText(lines) + rest, IsCount)
      case None => FirstCount(lines, true) == None
      case Some((_, u)) => FirstCount(lines, true) == Some(LeadingNumber(u))
    decreases |lines|
  {
    hide Search, AfterEquals, LineText, ValidLine;
    if lines == [] {
      assert LinesText(lines) + rest == rest;
    } else {
      var tail := LinesText(lines[1..]) + rest;
      LinesNoEquals(lines[1..], rest);
      Associate(LineText(lines[0]), LinesText(lines[1..]), rest);
      CountAtLine(lines[0], tail);
      hide LeadingNumber;
      CountFound(lines[1..], rest);
    }
  }

  lemma {:induction false} CountAtLine(l: Line, tail: string)
    requires ValidLine(l) && AfterEquals(tail) == None
    ensures if IsCountLine(l, true) then
              var r := Search(true, LineText(l) + tail, IsCount); r.Some? && LeadingNumber(r.value.1) == l.attr.value.n
            else Search(true, LineText(l) + tail, IsCount) == Search(true, tail, IsCount)
  {
    hide Search, AfterEquals, LineText;
    if l.Assign? {
      CountAtAttr(l.attr, tail);
      hide LeadingNumber, Right;
      if IsCountLine(l, true) {
        assert LineText(l) == MarkText(l.mark) + AttrLine(l.attr) by { AssignText(l); }
        SearchAssign(l.mark, l.attr, tail, IsCount);
      } else {
        SkipOneLine(l, tail, IsCount);
      }
    } else {
      SkipOneLine(l, tail, IsCount);
    }
  }

  lemma {:induction false} AssignText(l: Line)
    requires l.Assign?
    ensures LineText(l) == MarkText(l.mark) + AttrLine(l.attr)
  {
  }

  lemma {:induction false} CountAtAttr(a: Attr, tail: string)
    requires ValidAttr(a)
    ensures var u := Right(a) + "\n" + tail;
      && (IsCount(a.name, u) <==> a.name == "count" && a.value.Number?)
      && (a.value.Number? ==> LeadingNumber(u) == a.value.n)
  {
    hide InString;
    var u := Right(a) + "\n" + tail;
    RightChars(a);
    assert u[0] == Right(a)[0];
    if a.value.Number? {
      var v, w := ValueText(a.value), a.tail + ("\n" + tail);
      assert u == v + w && (w[0] == ' ' || w[0] == '\n');
      SpanAt(IsDigit, v, w);
      assert u[..|v|] == v;
      DecRoundTrip(a.value.n);
    } else {
      assert Span(IsDigit, u) == 0;
    }
  }

  lemma {:induction false} NothingAtEnd(mark: Mark, indent: nat)
    ensures var end := CloseHead(mark, indent);
      NoBrace(end) && AfterEquals(end) == None && Search(true, end, IsCount) == None
  {
    var end, close := CloseHead(mark, indent), if mark.Off? then Off(mark.margin, "") else Live;
    assert AfterEquals("") == None by { assert Span(IsSpace, "") == 0; }
    NoneInEmpty(IsCount);
    hide Search, AfterEquals;
    assert ValidMark(close) by { assert IsClosed(""); }
    assert NoBrace(MarkText(close)) && NoBrace(Spaces(indent));
    NoBraceConcat(MarkText(close), Spaces(indent));
    hide NoBrace, MarkText;
    assert Spaces(indent) + "" == Spaces(indent);
    LeadingSpaces(indent, "");
    SkipSpaces(true, indent, "", IsCount);
    SearchMark(close, Spaces(indent), IsCount);
  }

  lemma {:induction false} CountOfInside(lines: seq<Line>, end: string)
    requires forall l | l in lines :: ValidLine(l)
    requires AfterEquals(end) == None && Search(true, end, IsCount) == None
    ensures CountIn("\n" + LinesText(lines) + end) == BlockCount(lines, true)
  {
    hide Search, AfterEquals, LinesText, ValidLine;
    CountFound(lines, end);
    hide LeadingNumber, FirstCount;
    assert "\n" + LinesText(lines) + end == ['\n'] + (LinesText(lines) + end);
    SkipChar(true, '\n', LinesText(lines) + end, IsCount);
  }

  /** The nested count of a written description is the first one in the first block of
      the name, even where block or count are commented out. */
  lemma {:induction false} CountRead(t: string, key: string, items: seq<Item>, child: string)
    requires ValidItems(items) && Body(t, key) == Some("\n" + ItemsText(items))
    ensures NestedCount(t, key, child) == CountOf(items, child, true)
  {
    hide Body, Search, ItemsText, ValidItem, ValidInside, LinesText, CountIn, ChildInner, BlockCount, NoBrace, AfterEquals;
    var body := "\n" + ItemsText(items);
    assert body == ['\n'] + ItemsText(items);
    SkipChar(true, '\n', ItemsText(items), OpensChild(child));
    var end, rest := ChildFound(items, child);
    match FirstBlock(items, child, true)
    case None =>
    case Some(lines) =>
      var mark := FirstBlockValid(items, child);
      ChildInnerIsBlock(mark, lines, end, rest);
      forall l | l in lines ensures ValidLine(l) { InsideIsLine(mark, l); }
      CountOfInside(lines, end);
  }

  lemma {:induction false} InsideIsLine(mark: Mark, l: Line)
    requires ValidInside(mark, l)
    ensures ValidLine(l)
  {
  }

  lemma {:induction false} FirstBlockValid(items: seq<Item>, child: string) returns (mark: Mark)
    requires ValidItems(items) && FirstBlock(items, child, true).Some?
    ensures forall l | l in FirstBlock(items, child, true).value :: ValidInside(mark, l)
    decreases |items|
  {
    hide ValidInside;
    if IsBlock(items[0], child) {
      assert ValidItem(items[0]);
      mark := items[0].mark;
    } else {
      mark := FirstBlockValid(items[1..], child);
    }
  }

  // ----- the module key -----

  lemma {:induction false} MentionsIn(dir: string, tail: string, after: string)
    requires IsPlain(dir)
    ensures MentionsClusterModule(dir + ("proxmox-k3s-cluster" + (tail + after)))
  {
    var v := dir + ("proxmox-k3s-cluster" + (tail + after));
    assert v[..|dir|] == dir && v[|dir|..] == "proxmox-k3s-cluster" + (tail + after);
  }

  lemma {:induction false} Slices(t: string, h: nat, a: string, b: string, c: string)
    requires h <= |t| && t[h..] == a + (b + c)
    ensures h + |a| + |b| <= |t|
    ensures t[h..h + |a|] == a && t[h + |a|..h + |a| + |b|] == b && t[h + |a| + |b|..] == c
  {
    assert forall i | 0 <= i < |t| - h :: t[h + i] == t[h..][i];
  }

  lemma {:induction false} SourceMatches(t: string, s: nat, u: string)
    requires s + 6 <= |t| && t[s..s + 6] == "source" && t[s + 6..] == Equals(1, 1, u)
    requires u != "" && u[0] == '"' && MentionsClusterModule(u[1..])
    ensures SourceAt(t, s)
  {
    hide MentionsClusterModule;
    EqualsAt(1, 1, u);
  }

  /** The source attribute, right after the opening line. */
  lemma {:induction false} SourceFound(t: string, h: nat, dir: string, tail: string, rest: string)
    requires IsPlain(dir) && h <= |t|
    requires t[h..] == "\n" + (AttrLine(Attr(2, "source", 1, 1, Quoted(dir + "proxmox-k3s-cluster" + tail), "")) + rest)
    ensures SourceBeforeBrace(t, h)
  {
    hide SourceAt;
    hide AttrLine;
    hide MentionsClusterModule;
    var v := dir + "proxmox-k3s-cluster" + tail;
    var after := "\"\n" + rest;
    var u := "\"" + (v + after);
    var end := Equals(1, 1, u);
    var s := h + 3;
    SourceShape(v, rest);
    Slices(t, h, "\n  ", "source", end);
    assert u[1..] == dir + ("proxmox-k3s-cluster" + (tail + after));
    MentionsIn(dir, tail, after);
    SourceMatches(t, s, u);
    assert '}' !in t[h..s];
  }

  lemma {:induction false} SourceShape(v: string, rest: string)
    ensures "\n" + (AttrLine(Attr(2, "source", 1, 1, Quoted(v), "")) + rest) ==
            "\n  " + ("source" + Equals(1, 1, "\"" + (v + ("\"\n" + rest))))
  {
    var u := "\"" + (v + ("\"\n" + rest));
    assert Right(Attr(2, "source", 1, 1, Quoted(v), "")) == "\"" + v + "\"";
    AttrText(Head(2, "source", 1, 1), "\"" + v + "\"", rest);
    QuoteShape(v, rest);
    HeadShape(2, "source", 1, 1, u);
    hide Head, Equals;
    assert Spaces(2) == "  ";
    assert "\n" + ("  " + ("source" + Equals(1, 1, u))) == "\n  " + ("source" + Equals(1, 1, u));
  }

  lemma {:induction false} QuoteShape(v: string, rest: string)
    ensures "\"" + v + "\"" + "\n" + rest == "\"" + (v + ("\"\n" + rest))
  {
  }

  lemma {:induction false} NamedKey(t: string, p: nat, key: string)
    requires p + 8 + |key| < |t| && key != "" && NotQuoted(key)
    requires ModuleWordAt(t, p) == Some(p + 8) && t[p + 8..p + 8 + |key|] == key && t[p + 8 + |key|] == '"'
    ensures Span(NotQuote, t[p + 8..]) == |key|
  {
    var q := p + 8;
    assert t[q..] == key + t[q + |key|..];
    SpanAt(NotQuote, key, t[q + |key|..]);
  }

  ghost predicate NotQuoted(s: string) {
    forall i | 0 <= i < |s| :: s[i] != '"'
  }

  lemma {:induction false} KeyThere(t: string, p: string, key: string, body: string, rest: string)
    requires Around(t, p, key, body, rest) && ValidPreamble(p) && key != "" && NotQuoted(key)
    requires |p| + 8 + |key| + 3 <= |t| ==> SourceBeforeBrace(t, |p| + 8 + |key| + 3)
    ensures |p| <= |t| && KeyAt(t, |p|) == Some(key)
  {
    hide SourceBeforeBrace;
    hide ModuleWordAt;
    hide OpenBraceAt;
    HeaderMatches(t, p, key, body, rest);
    hide Around;
    NamedKey(t, |p|, key);
  }

  lemma {:induction false} NoKeyBefore(t: string, p: string, key: string, body: string, rest: string, i: nat)
    requires Around(t, p, key, body, rest) && ValidPreamble(p) && i < |p|
    ensures i <= |t| && KeyAt(t, i) == None
  {
    hide SourceBeforeBrace;
    hide ModuleWordAt;
    NoHeaderBefore(t, p, key, body, rest, i);
  }

  /** The module found is the described one, whatever the default. */
  lemma {:induction false} KeyFound(t: string, p: string, key: string, body: string, rest: string, default: string)
    requires Around(t, p, key, body, rest) && ValidPreamble(p) && key != "" && NotQuoted(key)
    requires |p| + 8 + |key| + 3 <= |t| ==> SourceBeforeBrace(t, |p| + 8 + |key| + 3)
    ensures ModuleKey(t, default) == key
  {
    hide KeyAt;
    hide SourceBeforeBrace;
    hide Around;
    KeyThere(t, p, key, body, rest);
    var f := NamesCluster(t);
    forall i: nat | i < |p| ensures !f(i) { NoKeyBefore(t, p, key, body, rest, i); }
    assert f(|p|);
    FirstAtIs(f, 0, |p|, |t|);
  }

  // ----- the whole reading -----

  lemma {:induction false} SourceInBody(d: Description, t: string)
    requires Valid(d) && t == Render(d)
    ensures var h := |d.preamble| + 8 + |d.key| + 3; h <= |t| && SourceBeforeBrace(t, h)
  {
    hide SourceBeforeBrace;
    hide ItemsText;
    hide AttrLine;
    var h := |d.preamble| + 8 + |d.key| + 3;
    var line, more := AttrLine(SourceAttr(d)), ItemsText(d.items);
    assert ItemsText(AllItems(d)) == line + more by { ItemsTextUnfold(d); }
    var after := more + ("}" + d.rest);
    RenderTail(t, Opening(d), line, more, d.rest);
    assert |Opening(d)| == h;
    SourceFound(t, h, d.dir, d.tail, after);
  }

  lemma {:induction false} ItemsTextUnfold(d: Description)
    ensures ItemsText(AllItems(d)) == AttrLine(SourceAttr(d)) + ItemsText(d.items)
  {
    hide AttrLine;
    var items := AllItems(d);
    assert items[0] == Single(Assign(Live, SourceAttr(d))) && items[1..] == d.items;
    hide AllItems, SourceAttr;
    assert "" + AttrLine(items[0].line.attr) == AttrLine(items[0].line.attr);
  }

  lemma {:induction false} RenderTail(t: string, open: string, line: string, more: string, rest: string)
    requires t == open + ("\n" + (line + more)) + "}" + rest
    ensures |open| <= |t| && t[|open|..] == "\n" + (line + (more + ("}" + rest)))
  {
  }

  /** What the resolver makes of any written description: all literals with nothing but
      blanks behind them and the first counts of the first blocks, commented out or
      not. */
  lemma {:induction false} RenderResolved(d: Description, clusterName: string)
    requires Valid(d)
    ensures Resolved(Some(Render(d)), clusterName) ==
            Assemble(Read(AllItems(d)), CountOf(d.items, "control_plane", true), CountOf(d.items, "workers", true))
  {
    hide Assemble;
    hide Fields;
    hide NestedCount;
    hide Body;
    hide ModuleKey;
    hide Read;
    hide CountOf;
    var t, items := Render(d), AllItems(d);
    assert ModuleKey(t, clusterName) == d.key by {
      SourceInBody(d, t);
      RenderAround(d, ItemsText(items));
      KeyFound(t, d.preamble, d.key, "\n" + ItemsText(items), d.rest, clusterName);
    }
    BodyExtracted(d);
    ValidAll(d);
    FieldsOfBody(items);
    CountRead(t, d.key, items, "control_plane");
    CountRead(t, d.key, items, "workers");
    CountOfTail(d, "control_plane", true);
    CountOfTail(d, "workers", true);
  }

  lemma {:induction false} CountOfTail(d: Description, child: string, all: bool)
    ensures CountOf(AllItems(d), child, all) == CountOf(d.items, child, all)
  {
    assert AllItems(d)[1..] == d.items;
  }
}
