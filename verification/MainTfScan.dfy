/** The scanner on the written form: it extracts exactly the module's body. */
module MainTfScan {
  import opened Text
  import opened HclScanner
  import opened MainTf

  // ----- characters of the pieces -----

  lemma {:induction false} HeadChars(indent: nat, name: string, pad: nat, gap: nat)
    requires IsIdent(name)
    ensures var s := Head(indent, name, pad, gap);
      && |s| > 0
      && (forall i | 0 <= i < |s| :: s[i] == ' ' || s[i] == '=' || IsWord(s[i]))
  {
  }

  lemma {:induction false} InStringConcat(a: string, b: string)
    ensures InString(a + b) <==> (InString(a) != InString(b))
    decreases |b|
  {
    if b == "" {
      assert a + b == a;
    } else {
      var n := |b| - 1;
      assert (a + b)[..|a + b| - 1] == a + b[..n];
      InStringConcat(a, b[..n]);
    }
  }

  lemma {:induction false} NoQuotes(s: string)
    requires forall i | 0 <= i < |s| :: s[i] != '"'
    ensures !InString(s)
    decreases |s|
  {
    if s != "" { NoQuotes(s[..|s| - 1]); }
  }

  /** A piece of a line: no braces, backslashes or newlines, every string ended. */
  predicate IsPiece(s: string) {
    (forall i | 0 <= i < |s| :: s[i] !in {'\\', '{', '}', '\n'}) && !InString(s)
  }

  lemma {:induction false} PieceConcat(a: string, b: string)
    requires IsPiece(a) && IsPiece(b)
    ensures IsPiece(a + b)
  {
    InStringConcat(a, b);
    hide InString;
  }

  lemma {:induction false} SpacesPiece(n: nat)
    ensures IsPiece(Spaces(n)) && IsPiece("#") && IsPiece("")
  {
    NoQuotes(Spaces(n));
    NoQuotes("#");
  }

  lemma {:induction false} HeadPiece(indent: nat, name: string, pad: nat, gap: nat)
    requires IsIdent(name)
    ensures IsPiece(Head(indent, name, pad, gap)) && Head(indent, name, pad, gap)[0] != '#'
  {
    HeadChars(indent, name, pad, gap);
    NoQuotes(Head(indent, name, pad, gap));
  }

  lemma {:induction false} ValuePiece(v: Value)
    requires ValidValue(v)
    ensures IsPiece(ValueText(v))
  {
    match v
    case Quoted(t) =>
      NoQuotes(t);
      InStringConcat("\"", t);
      InStringConcat("\"" + t, "\"");
    case Number(n) => NoQuotes(Dec(n));
    case Expr(_) =>
  }

  lemma {:induction false} RightPiece(a: Attr)
    requires ValidAttr(a)
    ensures IsPiece(Right(a))
  {
    ValuePiece(a.value);
    assert IsPiece(a.tail);
    hide IsPiece;
    PieceConcat(ValueText(a.value), a.tail);
  }

  lemma {:induction false} MarkPiece(mark: Mark)
    requires ValidMark(mark)
    ensures IsPiece(MarkText(mark))
    ensures MarkText(mark) != "" ==> (MarkText(mark)[0] == '#' <==> mark.margin == 0)
  {
    match mark
    case Live => SpacesPiece(0);
    case Off(margin, lead) =>
      SpacesPiece(margin);
      assert IsPiece(lead);
      hide IsPiece, IsClosed;
      PieceConcat("#", lead);
      PieceConcat(Spaces(margin), "#" + lead);
  }

  /** A whole line: a comment in column 0, or a piece and a newline. */
  predicate IsLine(s: string) {
    && s != "" && s[|s| - 1] == '\n'
    && (forall i | 0 <= i < |s| - 1 :: s[i] != '\n')
    && (s[0] == '#' || IsPiece(s[..|s| - 1]))
  }

  lemma {:induction false} PieceIsLine(s: string)
    requires IsPiece(s)
    ensures IsLine(s + "\n")
  {
    assert (s + "\n")[..|s + "\n"| - 1] == s;
    hide InString;
  }

  lemma {:induction false} LineIsLine(l: Line)
    requires ValidLine(l)
    ensures IsLine(LineText(l))
  {
    match l
    case Assign(mark, a) =>
      var head, right, text := Head(a.indent, a.name, a.pad, a.gap), Right(a), MarkText(mark);
      MarkPiece(mark);
      HeadPiece(a.indent, a.name, a.pad, a.gap);
      RightPiece(a);
      hide IsPiece, ValidAttr, ValidMark, IsNote, IsLine;
      PieceConcat(head, right);
      PieceConcat(text, head + right);
      PieceIsLine(text + (head + right));
      LineShape(text, head, right);
    case Plain(s) => PieceIsLine(s);
    case Remark(s) => assert forall i | 0 < i <= |s| :: ("#" + s + "\n")[i] == s[i - 1];
  }

  lemma {:induction false} LineShape(mark: string, head: string, right: string)
    ensures mark + (head + right + "\n") == (mark + (head + right)) + "\n"
  {
  }

  // ----- scanning the pieces -----

  /** From a position read as code at depth `d`, `piece` is read and left as code
      at depth `d`, at no point below. */
  ghost predicate Passes(t: string, h: nat, a: nat, piece: string, d: int)
    requires 0 < h <= a
  {
    && At(t, a, piece)
    && ModeAt(t, h, a + |piece|) == Code && Depth(t, h, a + |piece|) == d
    && forall k | a <= k <= a + |piece| :: Above(t, h, k, d)
  }

  ghost predicate Starts(t: string, h: nat, a: nat, d: int) {
    0 < h <= a <= |t| && ModeAt(t, h, a) == Code && Depth(t, h, a) == d
  }

  lemma {:induction false} AtConcat(t: string, a: nat, p: string, q: string)
    ensures At(t, a, p + q) <==> At(t, a, p) && At(t, a + |p|, q)
  {
    if a + |p + q| <= |t| {
      assert t[a..a + |p + q|] == t[a..a + |p|] + t[a + |p|..a + |p| + |q|];
      if t[a..a + |p + q|] == p + q {
        assert t[a..a + |p|] == (p + q)[..|p|] == p;
        assert t[a + |p|..a + |p| + |q|] == (p + q)[|p|..] == q;
      }
    }
  }

  lemma {:induction false} PassBoth(t: string, h: nat, a: nat, p: string, q: string, d: int)
    requires 0 < h <= a && Passes(t, h, a, p, d) && Passes(t, h, a + |p|, q, d)
    ensures Passes(t, h, a, p + q, d)
  {
    AtConcat(t, a, p, q);
  }

  /** Three pieces in a row; each needs to pass only once its turn comes. */
  lemma {:induction false} PassThree(t: string, h: nat, a: nat, p: string, q: string, r: string, d: int)
    requires Starts(t, h, a, d) && At(t, a, p + q + r)
    requires At(t, a, p) ==> Passes(t, h, a, p, d)
    requires Starts(t, h, a + |p|, d) && At(t, a + |p|, q) ==> Passes(t, h, a + |p|, q, d)
    requires Starts(t, h, a + |p + q|, d) && At(t, a + |p + q|, r) ==> Passes(t, h, a + |p + q|, r, d)
    ensures Passes(t, h, a, p + q + r, d)
  {
    AtConcat(t, a, p + q, r);
    AtConcat(t, a, p, q);
    PassBoth(t, h, a, p, q, d);
    PassBoth(t, h, a, p + q, r, d);
  }

  /** One character that is no brace, no backslash and no start of a comment. */
  lemma {:induction false} OneRead(t: string, h: nat, i: nat, d: int)
    requires 0 < h <= i < |t| && Depth(t, h, i) == d && t[i] !in {'{', '}'}
    requires ModeAt(t, h, i) == Code ==> t[i] != '#' || t[i - 1] != '\n'
    requires ModeAt(t, h, i) != Code ==> ModeAt(t, h, i) == Str && t[i - 1] != '\\'
    ensures ModeAt(t, h, i + 1) == if (ModeAt(t, h, i) == Str) != (t[i] == '"') then Str else Code
    ensures Depth(t, h, i + 1) == d
  {
  }

  /** Without braces and backslashes, depth stays and the mode follows the quotes. */
  lemma {:induction false} QuotesRead(t: string, h: nat, a: nat, s: string, d: int)
    requires Starts(t, h, a, d) && At(t, a, s)
    requires forall i | 0 <= i < |s| :: s[i] !in {'\\', '{', '}'}
    requires forall i | 0 <= i < |s| && s[i] == '#' :: t[a + i - 1] != '\n'
    ensures ModeAt(t, h, a + |s|) == if InString(s) then Str else Code
    ensures forall k | a <= k <= a + |s| :: Depth(t, h, k) == d
    decreases |s|
  {
    hide ModeAt, Depth;
    if s != "" {
      var n := |s| - 1;
      assert s == s[..n] + [s[n]];
      AtConcat(t, a, s[..n], [s[n]]);
      QuotesRead(t, h, a, s[..n], d);
      assert t[a + n] == t[a..a + |s|][n] == s[n];
      if n > 0 {
        assert t[a + (n - 1)] == t[a..a + |s|][n - 1] == s[n - 1];
      } else {
        assert s[..n] == "";
      }
      OneRead(t, h, a + n, d);
    }
  }

  /** A piece is passed over, unless a `#` at its head stands in column 0; so is the
      end of a line. */
  lemma {:induction false} PiecePasses(t: string, h: nat, a: nat, s: string, d: int)
    requires Starts(t, h, a, d) && At(t, a, s) && IsPiece(s)
    requires s != "" && s[0] == '#' ==> t[a - 1] != '\n'
    ensures Passes(t, h, a, s, d)
  {
    forall i | 0 <= i < |s| && s[i] == '#' ensures t[a + i - 1] != '\n' {
      if i > 0 { assert t[a + (i - 1)] == t[a..a + |s|][i - 1] == s[i - 1]; }
    }
    QuotesRead(t, h, a, s, d);
  }

  lemma {:induction false} NewlinePasses(t: string, h: nat, a: nat, d: int)
    requires Starts(t, h, a, d) && At(t, a, "\n")
    ensures Passes(t, h, a, "\n", d) && t[a] == '\n'
  {
    AtChar(t, a, "\n");
    NoQuotes("\n");
    QuotesRead(t, h, a, "\n", d);
  }

  lemma {:induction false} LastCharAt(t: string, a: nat, s: string)
    requires At(t, a, s) && s != "" && s[|s| - 1] == '\n'
    ensures t[a + |s| - 1] == '\n'
  {
    assert t[a..a + |s|][|s| - 1] == t[a + |s| - 1];
  }

  lemma {:induction false} LinePasses(t: string, h: nat, a: nat, line: string, d: int)
    requires Starts(t, h, a, d) && t[a - 1] == '\n' && At(t, a, line) && IsLine(line)
    ensures Passes(t, h, a, line, d) && t[a + |line| - 1] == '\n'
  {
    var s := line[..|line| - 1];
    assert line == s + "\n";
    LastCharAt(t, a, line);
    if line[0] == '#' {
      assert line == "#" + line[1..|line| - 1] + "\n";
      RemarkPasses(t, h, a, line[1..|line| - 1], d);
    } else {
      AtConcat(t, a, s, "\n");
      hide IsPiece;
      PiecePasses(t, h, a, s, d);
      NewlinePasses(t, h, a + |s|, d);
      PassBoth(t, h, a, s, "\n", d);
    }
  }

  lemma {:induction false} StartsAfter(t: string, h: nat, a: nat, s: string, d: int)
    requires 0 < h <= a && Passes(t, h, a, s, d)
    ensures Starts(t, h, a + |s|, d)
  {
  }

  lemma {:induction false} LinesPass(t: string, h: nat, a: nat, lines: seq<Line>, d: int)
    requires Starts(t, h, a, d) && t[a - 1] == '\n'
    requires (forall l | l in lines :: ValidLine(l)) && At(t, a, LinesText(lines))
    ensures Passes(t, h, a, LinesText(lines), d)
    ensures t[a + |LinesText(lines)| - 1] == '\n'
    decreases |lines|
  {
    hide LineText, ValidLine;
    if lines == [] {
      assert LinesText(lines) == "";
    } else {
      hide Passes, At, Starts, IsLine;
      var line, more := LineText(lines[0]), LinesText(lines[1..]);
      assert LinesText(lines) == line + more;
      AtConcat(t, a, line, more);
      LineIsLine(lines[0]);
      LinePasses(t, h, a, line, d);
      StartsAfter(t, h, a, line, d);
      LinesPass(t, h, a + |line|, lines[1..], d);
      PassBoth(t, h, a, line, more, d);
    }
  }

  lemma {:induction false} AtChar(t: string, a: nat, s: string)
    requires At(t, a, s) && s != ""
    ensures t[a] == s[0]
  {
    assert t[a..a + |s|][0] == t[a];
  }

  lemma {:induction false} BracesPass(t: string, h: nat, a: nat, inside: string, d: int)
    requires Starts(t, h, a, d) && At(t, a, "{" + inside + "}")
    requires Starts(t, h, a + 1, d + 1) && At(t, a + 1, inside) ==> Passes(t, h, a + 1, inside, d + 1)
    ensures Passes(t, h, a, "{" + inside + "}", d)
  {
    AtConcat(t, a, "{" + inside, "}");
    AtConcat(t, a, "{", inside);
    AtChar(t, a, "{");
    AtChar(t, a + 1 + |inside|, "}");
    var b := a + 1 + |inside|;
    assert Starts(t, h, a + 1, d + 1);
    forall k | a <= k <= b + 1 ensures Above(t, h, k, d) {
      if a < k <= b { assert Above(t, h, k, d + 1); }
    }
    assert Depth(t, h, b + 1) == d && ModeAt(t, h, b + 1) == Code;
  }

  lemma {:induction false} RemarkPasses(t: string, h: nat, a: nat, text: string, d: int)
    requires Starts(t, h, a, d) && t[a - 1] == '\n' && forall i | 0 <= i < |text| :: text[i] != '\n'
    requires At(t, a, "#" + text + "\n")
    ensures Passes(t, h, a, "#" + text + "\n", d)
  {
    var s := "#" + text + "\n";
    var j := a + 1 + |text|;
    assert forall i | 0 <= i < |s| :: t[a + i] == t[a..a + |s|][i] == s[i];
    forall k | a <= k < j ensures t[k] != '\n' {
      if k > a { assert t[k] == s[k - a] == text[k - a - 1]; }
    }
    assert t[j] == s[j - a] == '\n';
    SkipComment(t, h, a, j);
  }

  // ----- blocks -----

  lemma {:induction false} BlockShape(head: string, lines: string, end: string)
    ensures head + ("{\n" + (lines + (end + "}\n"))) == head + ("{" + ("\n" + lines + end) + "}") + "\n"
    ensures head + ("{\n" + (lines + (end + "}\n"))) == (head + "{\n") + lines + (end + "}\n")
  {
  }

  /** A head, braces around an inside that passes, and the end of the line. */
  lemma {:induction false} BracedPasses(t: string, h: nat, a: nat, head: string, inside: string, d: int)
    requires Starts(t, h, a, d) && IsPiece(head) && head != "" && head[0] != '#'
    requires At(t, a, head + ("{" + inside + "}") + "\n")
    requires var b := a + |head| + 1; Starts(t, h, b, d + 1) && At(t, b, inside) ==> Passes(t, h, b, inside, d + 1)
    ensures Passes(t, h, a, head + ("{" + inside + "}") + "\n", d)
  {
    var braces, nl := "{" + inside + "}", "\n";
    hide IsPiece;
    if At(t, a, head) { PiecePasses(t, h, a, head, d); }
    var b := a + |head|;
    if Starts(t, h, b, d) && At(t, b, braces) { BracesPass(t, h, b, inside, d); }
    var c := a + |head + braces|;
    if Starts(t, h, c, d) && At(t, c, nl) { NewlinePasses(t, h, c, d); }
    hide At, Starts, Passes;
    PassThree(t, h, a, head, braces, nl, d);
  }

  lemma {:induction false} InsidePasses(t: string, h: nat, a: nat, lines: seq<Line>, end: string, d: int)
    requires Starts(t, h, a, d) && (forall l | l in lines :: ValidLine(l))
    requires IsPiece(end) && (end != "" ==> end[0] != '#')
    requires At(t, a, "\n" + LinesText(lines) + end)
    ensures Passes(t, h, a, "\n" + LinesText(lines) + end, d)
  {
    hide LinesText, IsPiece, ValidLine;
    var nl, text := "\n", LinesText(lines);
    if At(t, a, nl) {
      NewlinePasses(t, h, a, d);
      if Starts(t, h, a + 1, d) && At(t, a + 1, text) { LinesPass(t, h, a + 1, lines, d); }
    }
    AtConcat(t, a, nl + text, end);
    AtConcat(t, a, nl, text);
    var c := a + |nl + text|;
    if Starts(t, h, c, d) && At(t, c, end) { PiecePasses(t, h, c, end, d); }
    PassThree(t, h, a, nl, text, end, d);
  }

  lemma {:induction false} HeadsArePieces(item: Item)
    requires item.Block? && ValidItem(item)
    ensures IsPiece(BlockHead(item)) && IsPiece(CloseHead(item.mark, item.indent)) && BlockHead(item) != ""
    ensures BlockHead(item)[0] == '#' <==> item.mark.Off? && item.mark.margin == 0
    ensures item.mark.Off? && item.mark.margin == 0 ==> CloseHead(item.mark, item.indent)[..1] == "#"
    ensures CloseHead(item.mark, item.indent) != "" && CloseHead(item.mark, item.indent)[0] == '#' ==> item.mark.Off? && item.mark.margin == 0
  {
    var mark, close := item.mark, if item.mark.Off? then Off(item.mark.margin, "") else Live;
    SpacesPiece(item.indent);
    MarkPiece(mark);
    assert ValidMark(close) by { assert IsClosed(""); }
    MarkPiece(close);
    HeadPiece(item.indent, item.name, item.pad, item.gap);
    hide IsPiece;
    PieceConcat(MarkText(mark), Head(item.indent, item.name, item.pad, item.gap));
    PieceConcat(MarkText(close), Spaces(item.indent));
  }

  lemma {:induction false} BlockTextIs(item: Item)
    requires item.Block?
    ensures var (head, text, end) := (BlockHead(item), LinesText(item.lines), CloseHead(item.mark, item.indent));
      && ItemText(item) == head + ("{" + ("\n" + text + end) + "}") + "\n"
      && ItemText(item) == (head + "{\n") + text + (end + "}\n")
  {
    hide BlockHead, LinesText, CloseHead;
    BlockShape(BlockHead(item), LinesText(item.lines), CloseHead(item.mark, item.indent));
  }

  /** A block that is not commented out in column 0: its braces are code. */
  lemma {:induction false} BlockPasses(t: string, h: nat, a: nat, item: Item, d: int)
    requires item.Block? && ValidItem(item) && (item.mark.Off? ==> item.mark.margin > 0)
    requires Starts(t, h, a, d) && At(t, a, ItemText(item))
    ensures Passes(t, h, a, ItemText(item), d)
  {
    HeadsArePieces(item);
    BlockTextIs(item);
    InsideLines(item);
    hide LinesText, BlockHead, CloseHead, IsPiece, ItemText, ValidItem, ValidLine, At, Starts, Passes;
    BetweenBracesPass(t, h, a, BlockHead(item), item.lines, CloseHead(item.mark, item.indent), d);
  }

  lemma {:induction false} InsideLines(item: Item)
    requires item.Block? && ValidItem(item)
    ensures forall l | l in item.lines :: ValidLine(l)
  {
    hide ValidLine;
  }

  lemma {:induction false} BetweenBracesPass(t: string, h: nat, a: nat, head: string, lines: seq<Line>, end: string, d: int)
    requires Starts(t, h, a, d) && (forall l | l in lines :: ValidLine(l))
    requires IsPiece(head) && head != "" && head[0] != '#' && IsPiece(end) && (end != "" ==> end[0] != '#')
    requires At(t, a, head + ("{" + ("\n" + LinesText(lines) + end) + "}") + "\n")
    ensures Passes(t, h, a, head + ("{" + ("\n" + LinesText(lines) + end) + "}") + "\n", d)
  {
    hide LinesText, IsPiece, ValidLine, At, Starts, Passes;
    var b := a + |head| + 1;
    if Starts(t, h, b, d + 1) && At(t, b, "\n" + LinesText(lines) + end) { InsidePasses(t, h, b, lines, end, d + 1); }
    BracedPasses(t, h, a, head, "\n" + LinesText(lines) + end, d);
  }

  /** One that is: all lines between two commented lines. */
  lemma {:induction false} OffBlockPasses(t: string, h: nat, a: nat, item: Item, d: int)
    requires item.Block? && ValidItem(item) && item.mark.Off? && item.mark.margin == 0
    requires Starts(t, h, a, d) && t[a - 1] == '\n' && At(t, a, ItemText(item))
    ensures Passes(t, h, a, ItemText(item), d)
  {
    var head, end := BlockHead(item), CloseHead(item.mark, item.indent);
    HeadsArePieces(item);
    BlockTextIs(item);
    InsideLines(item);
    hide LinesText, BlockHead, CloseHead, IsPiece, ItemText, ValidItem, ValidLine, IsLine, At, Starts, Passes;
    CommentIsLine(head, "{\n");
    CommentIsLine(end, "}\n");
    BetweenLinesPass(t, h, a, head + "{\n", item.lines, end + "}\n", d);
  }

  lemma {:induction false} CommentIsLine(s: string, brace: string)
    requires brace == "{\n" || brace == "}\n"
    requires IsPiece(s) && s != "" && s[0] == '#'
    ensures IsLine(s + brace)
  {
  }

  lemma {:induction false} BetweenLinesPass(t: string, h: nat, a: nat, first: string, lines: seq<Line>, last: string, d: int)
    requires Starts(t, h, a, d) && t[a - 1] == '\n' && (forall l | l in lines :: ValidLine(l))
    requires IsLine(first) && IsLine(last) && At(t, a, first + LinesText(lines) + last)
    ensures Passes(t, h, a, first + LinesText(lines) + last, d)
  {
    hide LinesText, IsLine, ValidLine;
    var text := LinesText(lines);
    AtConcat(t, a, first + text, last);
    AtConcat(t, a, first, text);
    assert 0 < h <= a;
    hide At, Passes, Starts;
    LinePasses(t, h, a, first, d);
    StartsAfter(t, h, a, first, d);
    LinesPass(t, h, a + |first|, lines, d);
    PassBoth(t, h, a, first, text, d);
    StartsAfter(t, h, a, first + text, d);
    LinePasses(t, h, a + |first + text|, last, d);
    PassBoth(t, h, a, first + text, last, d);
  }

  lemma {:induction false} ItemPasses(t: string, h: nat, a: nat, item: Item, d: int)
    requires ValidItem(item)
    requires Starts(t, h, a, d) && t[a - 1] == '\n' && At(t, a, ItemText(item))
    ensures Passes(t, h, a, ItemText(item), d)
  {
    hide IsLine;
    match item
    case Single(l) =>
      LineIsLine(l);
      LinePasses(t, h, a, LineText(l), d);
    case Block(mark, _, _, _, _, _) =>
      if mark.Off? && mark.margin == 0 { OffBlockPasses(t, h, a, item, d); } else { BlockPasses(t, h, a, item, d); }
  }

  lemma {:induction false} ItemEndsLine(item: Item)
    requires ValidItem(item)
    ensures ItemText(item) != "" && ItemText(item)[|ItemText(item)| - 1] == '\n'
  {
    match item
    case Single(l) => LineIsLine(l);
    case Block(mark, indent, _, _, _, lines) =>
      BlockTextIs(item);
      hide BlockHead, LinesText, CloseHead, ItemText;
  }

  lemma {:induction false} ItemsPass(t: string, h: nat, a: nat, items: seq<Item>, d: int)
    requires ValidItems(items)
    requires Starts(t, h, a, d) && t[a - 1] == '\n' && At(t, a, ItemsText(items))
    ensures Passes(t, h, a, ItemsText(items), d)
    decreases |items|
  {
    hide ItemText;
    hide ValidItem;
    if items == [] {
      assert ItemsText(items) == "";
    } else {
      var first := ItemText(items[0]);
      AtConcat(t, a, first, ItemsText(items[1..]));
      ItemPasses(t, h, a, items[0], d);
      ItemEndsLine(items[0]);
      LastCharAt(t, a, first);
      ItemsPass(t, h, a + |first|, items[1..], d);
      PassBoth(t, h, a, first, ItemsText(items[1..]), d);
    }
  }

  // ----- finding the header -----

  lemma {:induction false} SkipSpacePrefix(s: string, t: string, i: nat)
    requires s <= t && i <= |s| && |s| < |t| && !IsSpace(t[|s|])
    ensures SkipSpace(t, i) == SkipSpace(s, i)
    decreases |s| - i
  {
    if i < |s| && IsSpace(s[i]) { SkipSpacePrefix(s, t, i + 1); }
  }

  /** No header starts in the preamble, in the whole text either. */
  lemma {:induction false} NoModuleWord(s: string, t: string, p: nat)
    requires ValidPreamble(s) && p < |s| && s <= t && |s| < |t| && t[|s|] == 'm'
    ensures ModuleWordAt(t, p) == None
  {
    if At(t, p, "module") {
      NoNewlineInModule(t, p);
      assert t[|s| - 1] == s[|s| - 1] == '\n';
      assert p + 6 <= |s|;
      SkipSpacePrefix(s, t, p + 6);
      assert s[p..p + 6] == t[p..p + 6];
      assert p > 0 ==> s[p - 1] == t[p - 1];
      assert ModuleWordAt(s, p) == None;
    }
  }

  lemma {:induction false} NoNewlineInModule(t: string, p: nat)
    requires At(t, p, "module")
    ensures forall i | p <= i < p + 6 :: t[i] != '\n'
  {
    assert forall i | 0 <= i < 6 :: "module"[i] != '\n';
    forall i | p <= i < p + 6 ensures t[i] != '\n' { assert t[i] == t[p..p + 6][i - p]; }
  }

  lemma {:induction false} Regroup(p: string, w: string, k: string, m: string, b: string, c: string, r: string)
    ensures var t := (p + w + k + m) + b + c + r;
      && p <= t
      && t[|p|..] == w + (k + (m + (b + c + r)))
      && t[|p| + |w|..] == k + (m + (b + c + r))
      && t[|p| + |w| + |k|..] == m + (b + c + r)
      && t[|p| + |w| + |k| + |m|..] == b + c + r
      && t[|p| + |w| + |k| + |m|..|p| + |w| + |k| + |m| + |b|] == b
      && t[|p| + |w|..|p| + |w| + |k|] == k
  {
  }

  lemma {:induction false} WordMatches(t: string, p: nat, rest: string)
    requires p <= |t| && t[p..] == "module \"" + rest && (p > 0 ==> t[p - 1] == '\n')
    ensures p + 8 <= |t| && t[p] == 'm' && ModuleWordAt(t, p) == Some(p + 8)
  {
    var word := "module \"";
    assert forall i | 0 <= i < 8 :: t[p + i] == t[p..][i] == word[i];
    assert t[p..p + 6] == word[..6] == "module";
    assert SkipSpace(t, p + 7) == p + 7 && SkipSpace(t, p + 6) == p + 7;
  }

  lemma {:induction false} BraceMatches(t: string, b: nat, rest: string)
    requires b <= |t| && t[b..] == "\" {" + rest
    ensures b + 3 <= |t| && t[b] == '"' && OpenBraceAt(t, b + 1) == Some(b + 3)
  {
    var mid := "\" {";
    assert forall i | 0 <= i < 3 :: t[b + i] == t[b..][i] == mid[i];
    assert SkipSpace(t, b + 2) == b + 2 && SkipSpace(t, b + 1) == b + 2;
  }

  /** A whole text around a module block, with its pieces as plain strings. */
  ghost predicate Around(t: string, p: string, key: string, body: string, rest: string) {
    t == (p + "module \"" + key + "\" {") + body + "}" + rest
  }

  /** The header matches right after the preamble. */
  lemma {:induction false} HeaderMatches(t: string, p: string, key: string, body: string, rest: string)
    requires Around(t, p, key, body, rest) && ValidPreamble(p)
    ensures var b := |p| + 8 + |key|;
      && p <= t && b + 3 <= |t| && t[|p|] == 'm' && t[|p| + 8..b] == key && t[b] == '"'
      && ModuleWordAt(t, |p|) == Some(|p| + 8) && OpenBraceAt(t, b + 1) == Some(b + 3)
  {
    hide ModuleWordAt, OpenBraceAt;
    var b := |p| + 8 + |key|;
    var tail := body + "}" + rest;
    Regroup(p, "module \"", key, "\" {", body, "}", rest);
    assert p != "" ==> t[|p| - 1] == p[|p| - 1];
    WordMatches(t, |p|, key + ("\" {" + tail));
    BraceMatches(t, b, tail);
  }

  lemma {:induction false} HeaderThere(t: string, p: string, key: string, body: string, rest: string)
    requires Around(t, p, key, body, rest) && ValidPreamble(p)
    ensures |p| <= |t| && HeaderAt(t, |p|, key) == Some(|p| + 8 + |key| + 3)
  {
    HeaderMatches(t, p, key, body, rest);
    QuotedKey(t, |p| + 8, key);
  }

  lemma {:induction false} NoHeaderBefore(t: string, p: string, key: string, body: string, rest: string, i: nat)
    requires Around(t, p, key, body, rest) && ValidPreamble(p) && i < |p|
    ensures i <= |t| && ModuleWordAt(t, i) == None && HeaderAt(t, i, key) == None
  {
    HeaderMatches(t, p, key, body, rest);
    NoModuleWord(p, t, i);
  }

  /** The header search finds it there. */
  lemma {:induction false} HeaderFound(t: string, p: string, key: string, body: string, rest: string)
    requires Around(t, p, key, body, rest) && ValidPreamble(p)
    ensures Header(t, key) == Some(|p| + 8 + |key| + 3)
  {
    HeaderThere(t, p, key, body, rest);
    var f := IsHeader(t, key);
    assert f(|p|);
    forall i: nat | i < |p| ensures !f(i) { NoHeaderBefore(t, p, key, body, rest, i); }
    FirstAtIs(f, 0, |p|, |t|);
  }

  lemma {:induction false} QuotedKey(t: string, q: nat, key: string)
    requires q + |key| < |t| && t[q..q + |key|] == key && t[q + |key|] == '"'
    ensures At(t, q, key + "\"")
  {
    assert t[q..q + |key| + 1] == t[q..q + |key|] + [t[q + |key|]];
  }

  lemma {:induction false} FirstNewline(t: string, h: nat)
    requires 0 < h < |t| && t[h] == '\n'
    ensures Starts(t, h, h + 1, 1) && Depth(t, h, h) == 1
  {
    assert Depth(t, h, h) == 1 && ModeAt(t, h, h) == Code;
  }

  lemma {:induction false} PassedIsClosed(t: string, h: nat, text: string)
    requires 0 < h < |t| && Depth(t, h, h) == 1 && Passes(t, h, h + 1, text, 1)
    requires h + 1 + |text| < |t| && t[h + 1 + |text|] == '}'
    ensures IsClose(t, h, h + 1 + |text|)
  {
    var k := h + 1 + |text|;
    assert Depth(t, h, k + 1) == Depth(t, h, k) - 1;
  }

  /** The text stands at `h`, after a newline, between the module's braces. */
  ghost predicate Placed(t: string, h: nat, text: string) {
    var k := h + 1 + |text|;
    && 0 < h && k < |t|
    && t[h] == '\n' && At(t, h + 1, text) && t[k] == '}'
  }

  lemma {:induction false} BodyClosed(t: string, h: nat, items: seq<Item>)
    requires Placed(t, h, ItemsText(items)) && ValidItems(items)
    ensures IsClose(t, h, h + 1 + |ItemsText(items)|)
  {
    hide ItemsText, ValidItems, Depth;
    FirstNewline(t, h);
    hide Passes, Starts, At;
    ItemsPass(t, h, h + 1, items, 1);
    PassedIsClosed(t, h, ItemsText(items));
  }

  lemma {:induction false} PlacedSlice(t: string, h: nat, text: string)
    requires Placed(t, h, text)
    ensures t[h..h + 1 + |text|] == "\n" + text
  {
  }

  lemma {:induction false} PlacedInside(t: string, open: string, text: string, rest: string)
    requires open != "" && t == open + ("\n" + text) + "}" + rest
    ensures Placed(t, |open|, text)
  {
  }

  lemma {:induction false} BodyFound(t: string, key: string, h: nat, text: string)
    requires Header(t, key) == Some(h) && Placed(t, h, text) && IsClose(t, h, h + 1 + |text|)
    ensures Body(t, key) == Some("\n" + text)
  {
    BodyIs(t, key, h, h + 1 + |text|);
    PlacedSlice(t, h, text);
  }

  lemma {:induction false} PlainConcat(a: string, b: string)
    requires IsPlain(a) && IsPlain(b)
    ensures IsPlain(a + b)
  {
  }

  lemma {:induction false} ValidAll(d: Description)
    requires Valid(d)
    ensures ValidItems(AllItems(d))
  {
    assert IsPlain("proxmox-k3s-cluster");
    hide IsPlain;
    PlainConcat(d.dir, "proxmox-k3s-cluster");
    PlainConcat(d.dir + "proxmox-k3s-cluster", d.tail);
    assert IsIdent("source") && IsClosed("") && IsNote("");
    hide IsIdent, IsClosed, IsNote;
    assert ValidLine(Assign(Live, SourceAttr(d)));
    hide ValidLine;
  }

  lemma {:induction false} RenderAround(d: Description, text: string)
    requires text == ItemsText(AllItems(d))
    ensures Around(Render(d), d.preamble, d.key, "\n" + text, d.rest)
  {
  }

  lemma {:induction false} AroundPlaced(t: string, p: string, key: string, text: string, rest: string)
    requires Around(t, p, key, "\n" + text, rest)
    ensures Placed(t, |p| + 8 + |key| + 3, text)
  {
    var open := p + "module \"" + key + "\" {";
    assert |open| == |p| + 8 + |key| + 3;
    PlacedInside(t, open, text, rest);
  }

  lemma {:induction false} ExtractAround(t: string, p: string, key: string, items: seq<Item>, text: string, rest: string)
    requires Around(t, p, key, "\n" + text, rest) && ValidPreamble(p)
    requires ValidItems(items) && text == ItemsText(items)
    ensures Body(t, key) == Some("\n" + text)
  {
    hide ItemsText;
    var h := |p| + 8 + |key| + 3;
    HeaderFound(t, p, key, "\n" + text, rest);
    AroundPlaced(t, p, key, text, rest);
    assert Placed(t, h, text);
    ExtractPlaced(t, key, h, items, text);
  }

  lemma {:induction false} ExtractPlaced(t: string, key: string, h: nat, items: seq<Item>, text: string)
    requires Header(t, key) == Some(h) && Placed(t, h, text) && ValidItems(items) && text == ItemsText(items)
    ensures Body(t, key) == Some("\n" + text)
  {
    hide ItemsText;
    BodyClosed(t, h, items);
    BodyFound(t, key, h, text);
  }

  /** The scanner extracts exactly the module's body. */
  lemma {:induction false} BodyExtracted(d: Description)
    requires Valid(d)
    ensures Body(Render(d), d.key) == Some(BodyText(d))
  {
    hide ItemsText;
    var items := AllItems(d);
    ValidAll(d);
    RenderAround(d, ItemsText(items));
    ExtractAround(Render(d), d.preamble, d.key, items, ItemsText(items), d.rest);
  }
}
