/** What the scanner makes of a text given piece by piece: code, braces, strings with
    whatever is in them, and comments. */
module HclPieces {
  import opened Text
  import opened HclScanner

  datatype Piece = Plain(text: string) | Open | Close | Quoted(text: string) | Comment(text: string)

  function PieceText(p: Piece): (s: string)
    ensures p.Open? || p.Close? || p.Quoted? || p.Comment? ==> s != ""
  {
    match p
    case Plain(s) => s
    case Open => "{"
    case Close => "}"
    case Quoted(s) => "\"" + s + "\""
    case Comment(s) => "#" + s + "\n"
  }

  ghost predicate IsCodeAt(prev: char, s: string, i: nat)
    requires i < |s|
  {
    s[i] !in {'"', '{', '}'} && (s[i] == '#' ==> (if i == 0 then prev else s[i - 1]) != '\n')
  }

  /** Behind `prev`: code has no quotes and no braces and no `#` in column 0; in a string
      every quote has a backslash in front, and its last character is none; a comment
      stands in column 0 and is one line. */
  ghost predicate ValidPiece(prev: char, p: Piece) {
    match p
    case Plain(s) => forall i | 0 <= i < |s| :: IsCodeAt(prev, s, i)
    case Quoted(s) =>
      && (forall i | 0 <= i < |s| && s[i] == '"' :: i > 0 && s[i - 1] == '\\')
      && (s != "" ==> s[|s| - 1] != '\\')
    case Comment(s) => prev == '\n' && '\n' !in s
    case _ => true
  }

  function LastChar(prev: char, s: string): char { if s == "" then prev else s[|s| - 1] }

  function PiecesText(ps: seq<Piece>): string {
    if ps == [] then "" else PieceText(ps[0]) + PiecesText(ps[1..])
  }

  ghost predicate ValidPieces(prev: char, ps: seq<Piece>)
    decreases |ps|
  {
    ps == [] || (ValidPiece(prev, ps[0]) && ValidPieces(LastChar(prev, PieceText(ps[0])), ps[1..]))
  }

  function Level(p: Piece): int { if p == Open then 1 else if p == Close then -1 else 0 }

  /** Behind all pieces, starting from `d`. */
  function LevelAfter(d: int, ps: seq<Piece>): int
    decreases |ps|
  {
    if ps == [] then d else LevelAfter(d + Level(ps[0]), ps[1..])
  }

  /** The level stays positive. */
  ghost predicate StaysInside(d: int, ps: seq<Piece>)
    decreases |ps|
  {
    d > 0 && (ps == [] || StaysInside(d + Level(ps[0]), ps[1..]))
  }

  // ----- one piece -----

  /** The scanner is at code at `i` and again at `j`, and depth is what it was up to `j`,
      where it has moved by `level`. */
  ghost predicate Passes(t: string, h: nat, i: nat, j: nat, level: int) {
    && 0 < h <= i <= j <= |t| && ModeAt(t, h, i) == Code == ModeAt(t, h, j)
    && (forall k | i <= k < j :: Depth(t, h, k) == Depth(t, h, i))
    && Depth(t, h, j) == Depth(t, h, i) + level
  }

  lemma {:induction false} CodePasses(t: string, h: nat, i: nat, j: nat)
    requires 0 < h <= i <= j <= |t| && ModeAt(t, h, i) == Code
    requires forall k | i <= k < j :: t[k] !in {'"', '{', '}'} && (t[k] == '#' ==> t[k - 1] != '\n')
    ensures Passes(t, h, i, j, 0)
    decreases j
  {
    if i < j { CodePasses(t, h, i, j - 1); }
  }

  lemma {:induction false} BracePasses(t: string, h: nat, i: nat)
    requires 0 < h <= i < |t| && ModeAt(t, h, i) == Code && t[i] in {'{', '}'}
    ensures Passes(t, h, i, i + 1, if t[i] == '{' then 1 else -1)
  {
  }

  /** From behind the opening quote at `i`. */
  lemma {:induction false} InsideString(t: string, h: nat, i: nat, j: nat)
    requires 0 < h <= i < j <= |t| && ModeAt(t, h, i) == Code && t[i] == '"'
    requires forall k | i < k < j && t[k] == '"' :: t[k - 1] == '\\'
    ensures ModeAt(t, h, j) == Str && forall k | i <= k <= j :: Depth(t, h, k) == Depth(t, h, i)
    decreases j
  {
    if i + 1 < j { InsideString(t, h, i, j - 1); }
  }

  lemma {:induction false} StringPasses(t: string, h: nat, i: nat, j: nat)
    requires 0 < h <= i && i + 1 < j <= |t| && ModeAt(t, h, i) == Code && t[i] == '"' && t[j - 1] == '"' && t[j - 2] != '\\'
    requires forall k | i < k < j - 1 && t[k] == '"' :: t[k - 1] == '\\'
    ensures Passes(t, h, i, j, 0)
  {
    InsideString(t, h, i, j - 1);
  }

  lemma {:induction false} CommentPasses(t: string, h: nat, i: nat, j: nat)
    requires 0 < h <= i < j < |t| && ModeAt(t, h, i) == Code && t[i] == '#' && t[i - 1] == '\n' && t[j] == '\n'
    requires forall k | i <= k < j :: t[k] != '\n'
    ensures Passes(t, h, i, j + 1, 0)
  {
    SkipComment(t, h, i, j);
  }

  lemma {:induction false} CodeThere(t: string, i: nat, c: string)
    requires 0 < i && i + |c| <= |t| && t[i..i + |c|] == c && ValidPiece(t[i - 1], Plain(c))
    ensures forall k | i <= k < i + |c| :: t[k] !in {'"', '{', '}'} && (t[k] == '#' ==> t[k - 1] != '\n')
  {
    forall k | i <= k < i + |c| ensures t[k] !in {'"', '{', '}'} && (t[k] == '#' ==> t[k - 1] != '\n') {
      var m := k - i;
      assert t[k] == t[i..i + |c|][m] == c[m];
      assert IsCodeAt(t[i - 1], c, m);
      if m > 0 { assert t[k - 1] == t[i..i + |c|][m - 1] == c[m - 1]; }
    }
  }

  lemma {:induction false} PiecePasses(t: string, h: nat, i: nat, p: Piece)
    requires 0 < h <= i && i + |PieceText(p)| <= |t| && t[i..i + |PieceText(p)|] == PieceText(p)
    requires ModeAt(t, h, i) == Code && ValidPiece(t[i - 1], p)
    ensures Passes(t, h, i, i + |PieceText(p)|, Level(p))
  {
    var s := PieceText(p);
    var j := i + |s|;
    assert forall k | i <= k < j :: t[k] == s[k - i];
    hide Depth, ModeAt, Passes;
    match p
    case Plain(c) =>
      CodeThere(t, i, c);
      CodePasses(t, h, i, j);
    case Open => BracePasses(t, h, i);
    case Close => BracePasses(t, h, i);
    case Quoted(q) =>
      assert forall k | i < k < j - 1 :: t[k] == q[k - i - 1];
      StringPasses(t, h, i, j);
    case Comment(c) =>
      assert forall k | i < k < j - 1 :: t[k] == c[k - i - 1];
      CommentPasses(t, h, i, j - 1);
  }

  // ----- all pieces -----

  /** The scanner reads piece by piece and never below the levels in between. */
  lemma {:induction false} PiecesPass(t: string, h: nat, i: nat, ps: seq<Piece>)
    requires 0 < h <= i && i + |PiecesText(ps)| <= |t| && t[i..i + |PiecesText(ps)|] == PiecesText(ps)
    requires ModeAt(t, h, i) == Code && ValidPieces(t[i - 1], ps) && StaysInside(Depth(t, h, i), ps)
    ensures var j := i + |PiecesText(ps)|;
      && ModeAt(t, h, j) == Code && Depth(t, h, j) == LevelAfter(Depth(t, h, i), ps)
      && forall k | i <= k <= j :: Above(t, h, k, 1)
    decreases |ps|
  {
    hide ModeAt, Depth, ValidPiece, PieceText;
    if ps != [] {
      var s, rest := PieceText(ps[0]), PiecesText(ps[1..]);
      var m := i + |s|;
      assert t[i..m] == (s + rest)[..|s|] == s && t[m..m + |rest|] == (s + rest)[|s|..] == rest;
      PiecePasses(t, h, i, ps[0]);
      assert t[m - 1] == LastChar(t[i - 1], s) by { if s != "" { assert t[i..m][|s| - 1] == t[m - 1]; } }
      PiecesPass(t, h, m, ps[1..]);
    }
  }

  lemma {:induction false} HeaderEndsInBrace(t: string, key: string)
    requires Header(t, key).Some?
    ensures 0 < Header(t, key).value <= |t| && t[Header(t, key).value - 1] == '{'
  {
    hide ModuleWordAt, FirstAt, SkipSpace;
  }

  /** The body of a module is exactly what is written in it, when every brace that is
      opened in it is closed there: braces in strings and comments do not count, nor do
      quotes in comments or, behind a backslash, in strings. */
  lemma {:induction false} BodyOfPieces(t: string, key: string, h: nat, ps: seq<Piece>, rest: string)
    requires Header(t, key) == Some(h) && h <= |t| && t[h..] == PiecesText(ps) + ("}" + rest)
    requires ValidPieces('{', ps) && StaysInside(1, ps) && LevelAfter(1, ps) == 1
    ensures Body(t, key) == Some(PiecesText(ps))
  {
    hide Header, PiecesText, ValidPieces, StaysInside, LevelAfter, Body;
    HeaderEndsInBrace(t, key);
    var s := PiecesText(ps);
    UpToBrace(t, h, s, rest);
    PiecesPass(t, h, h, ps);
    Closes(t, h, h + |s|);
    BodyIs(t, key, h, h + |s|);
  }

  lemma {:induction false} UpToBrace(t: string, h: nat, s: string, rest: string)
    requires h <= |t| && t[h..] == s + ("}" + rest)
    ensures h + |s| < |t| && t[h..h + |s|] == s && t[h + |s|] == '}'
  {
    assert t[h..][|s|] == '}' && t[h..][..|s|] == s;
  }

  lemma {:induction false} Closes(t: string, h: nat, k: nat)
    requires 0 < h <= k < |t| && t[k] == '}' && ModeAt(t, h, k) == Code && Depth(t, h, k) == 1
    requires forall j | h <= j <= k :: Above(t, h, j, 1)
    ensures IsClose(t, h, k)
  {
    hide ModeAt, Above;
  }

  /** And there is none when the text ends before that. */
  lemma {:induction false} NoBodyOfPieces(t: string, key: string, h: nat, ps: seq<Piece>)
    requires Header(t, key) == Some(h) && h <= |t| && t[h..] == PiecesText(ps)
    requires ValidPieces('{', ps) && StaysInside(1, ps)
    ensures Body(t, key) == None
  {
    hide Header, PiecesText, ValidPieces, StaysInside, LevelAfter, Above;
    HeaderEndsInBrace(t, key);
    var s := PiecesText(ps);
    assert |t| == h + |s| && t[h..h + |s|] == t[h..];
    PiecesPass(t, h, h, ps);
    EndFromOpen(t, h, h);
  }
}
