/** `shlex.quote`, and the word splitter of a POSIX shell that undoes it. */
module Shell {
  import opened Text

  // ----- shlex.quote -----

  /** The characters `shlex.quote` leaves bare. */
  predicate IsSafe(c: char) {
    IsWord(c) || c in {'@', '%', '+', '=', ':', ',', '.', '/', '-'}
  }

  /** `s.replace("'", "'\"'\"'")`. */
  function Escape(s: string): string {
    if s == "" then ""
    else (if s[0] == '\'' then "'\"'\"'" else [s[0]]) + Escape(s[1..])
  }

  function Quote(s: string): string {
    if s == "" then "''"
    else if forall i | 0 <= i < |s| :: IsSafe(s[i]) then s
    else "'" + Escape(s) + "'"
  }

  function QuoteAll(words: seq<string>): (r: seq<string>)
    ensures |r| == |words|
  {
    seq(|words|, i requires 0 <= i < |words| => Quote(words[i]))
  }

  /** `" ".join(shlex.quote(t) for t in words)`. */
  function QuoteJoin(words: seq<string>): string {
    Join(" ", QuoteAll(words))
  }

  lemma {:induction false} EscapeNoShorter(s: string)
    ensures |Escape(s)| >= |s|
  {
    if s != "" { EscapeNoShorter(s[1..]); }
  }

  /** Only a token of these characters, and not an empty one, is left bare. */
  lemma {:induction false} BareExactly(s: string)
    ensures Quote(s) == s <==> s != "" && forall i | 0 <= i < |s| ::
      'a' <= s[i] <= 'z' || 'A' <= s[i] <= 'Z' || '0' <= s[i] <= '9' || s[i] in "@%+=:,./-_"
  {
    EscapeNoShorter(s);
    assert forall c: char :: c in "@%+=:,./-_" <==> c in {'@', '%', '+', '=', ':', ',', '.', '/', '-', '_'};
  }

  // ----- the shell's reading -----

  datatype Token = Word(text: string) | Newline | Pipe

  /** What the reader is inside of: nothing, just after a `|`, quotes, or just
      after a backslash (outside quotes, or inside double quotes). */
  datatype Mode = Bare | Piped | Single | Double | BareEscape | DoubleEscape

  /** The reader's state: `cur` is the word under construction. */
  datatype Reader = Reader(mode: Mode, cur: Option<string>, out: seq<Token>)

  const START := Reader(Bare, None, [])

  /** Characters with a meaning of their own outside quotes: quoting, token
      separation, operators, expansion, globbing, grouping. */
  predicate IsSpecial(c: char) {
    || c in {'\'', '"', '\\', ' ', '\t', '\n'}
    || c in {'|', '&', ';', '<', '>', '(', ')'}
    || c in {'$', '`', '*', '?', '[', '~', '{', '}', '!'}
  }

  function Flush(cur: Option<string>): seq<Token> {
    match cur
    case None => []
    case Some(w) => [Word(w)]
  }

  function Append(cur: Option<string>, t: string): Option<string> {
    match cur
    case None => Some(t)
    case Some(w) => Some(w + t)
  }

  /** One character of token recognition and quote removal, sections 2.2 and 2.3
      of POSIX.1-2017 XCU chapter 2. The result is None for any text that calls
      for more than splitting into words (expansions, globs, comments, operators
      other than `|`). */
  function Step(r: Reader, c: char): Option<Reader> {
    match r.mode
    case Single =>
      if c == '\'' then Some(r.(mode := Bare)) else Some(r.(cur := Append(r.cur, [c])))
    case Double =>
      if c == '"' then Some(r.(mode := Bare))
      else if c == '\\' then Some(r.(mode := DoubleEscape))
      else if c == '$' || c == '`' then None
      else Some(r.(cur := Append(r.cur, [c])))
    case DoubleEscape =>
      if c == '\n' then Some(r.(mode := Double))
      else if c in {'$', '`', '"', '\\'} then Some(Reader(Double, Append(r.cur, [c]), r.out))
      else Some(Reader(Double, Append(r.cur, ['\\', c]), r.out))
    case BareEscape =>
      if c == '\n' then Some(r.(mode := Bare))
      else Some(Reader(Bare, Append(r.cur, [c]), r.out))
    case _ =>
      if c == '\'' then Some(Reader(Single, Append(r.cur, ""), r.out))
      else if c == '"' then Some(Reader(Double, Append(r.cur, ""), r.out))
      else if c == '\\' then Some(r.(mode := BareEscape))
      else if c == ' ' || c == '\t' then Some(Reader(Bare, None, r.out + Flush(r.cur)))
      else if c == '\n' then Some(Reader(Bare, None, r.out + Flush(r.cur) + [Newline]))
      else if c == '|' && r.mode == Bare then Some(Reader(Piped, None, r.out + Flush(r.cur) + [Pipe]))
      else if IsSpecial(c) || (c == '#' && r.cur == None) then None
      else Some(Reader(Bare, Append(r.cur, [c]), r.out))
  }

  function Run(r: Reader, s: string): Option<Reader>
    decreases |s|
  {
    if s == "" then Some(r)
    else match Step(r, s[0])
      case None => None
      case Some(r') => Run(r', s[1..])
  }

  /** The tokens of a whole text; None also for an open quote or escape. */
  function Tokens(s: string): Option<seq<Token>> {
    match Run(START, s)
    case None => None
    case Some(r) => if r.mode == Bare || r.mode == Piped then Some(r.out + Flush(r.cur)) else None
  }

  function WordTokens(words: seq<string>): (r: seq<Token>)
    ensures |r| == |words| && forall i | 0 <= i < |r| :: r[i] == Word(words[i])
  {
    seq(|words|, i requires 0 <= i < |words| => Word(words[i]))
  }

  /** A text the shell takes as one word, character for character. */
  predicate IsLiteral(s: string) {
    s != "" && s[0] != '#' && forall i | 0 <= i < |s| :: !IsSpecial(s[i])
  }

  // ----- reading what was quoted -----

  lemma {:induction false} RunConcat(r: Reader, a: string, b: string)
    ensures Run(r, a + b) == match Run(r, a) case None => None case Some(r') => Run(r', b)
    decreases |a|
  {
    if a == "" {
      assert a + b == b;
    } else {
      assert (a + b)[0] == a[0] && (a + b)[1..] == a[1..] + b;
      match Step(r, a[0])
      case None =>
      case Some(r') => RunConcat(r', a[1..], b);
    }
  }

  /** The reader between two texts: `r2` is where `b` leads from where `a` led. */
  lemma {:induction false} RunThen(r: Reader, a: string, r1: Reader, b: string, r2: Reader)
    requires Run(r, a) == Some(r1) && Run(r1, b) == Some(r2)
    ensures Run(r, a + b) == Some(r2)
  {
    RunConcat(r, a, b);
  }

  lemma {:induction false} RunOne(r: Reader, c: char)
    ensures Run(r, [c]) == Step(r, c)
  {
  }

  /** Characters without special meaning join the current word as they are. */
  lemma {:induction false} RunPlain(r: Reader, s: string)
    requires r.mode == Bare
    requires s != "" && forall i | 0 <= i < |s| :: !IsSpecial(s[i])
    requires r.cur == None ==> s[0] != '#'
    ensures Run(r, s) == Some(r.(cur := Append(r.cur, s)))
    decreases |s|
  {
    var r' := r.(cur := Append(r.cur, [s[0]]));
    if |s| == 1 {
      assert s == [s[0]];
    } else {
      RunPlain(r', s[1..]);
      assert [s[0]] + s[1..] == s;
      if r.cur.Some? { assert (r.cur.value + [s[0]]) + s[1..] == r.cur.value + s; }
    }
  }

  /** Inside single quotes the escaped text spells out the text itself. */
  lemma {:induction false} RunEscaped(w: string, out: seq<Token>, s: string)
    ensures Run(Reader(Single, Some(w), out), Escape(s)) == Some(Reader(Single, Some(w + s), out))
    decreases |s|
  {
    if s == "" {
      assert w + s == w;
    } else {
      var r := Reader(Single, Some(w), out);
      var head := if s[0] == '\'' then "'\"'\"'" else [s[0]];
      if s[0] == '\'' { RunApostrophe(w, out); } else { RunOne(r, s[0]); }
      RunConcat(r, head, Escape(s[1..]));
      RunEscaped(w + [s[0]], out, s[1..]);
      assert w + [s[0]] + s[1..] == w + s;
    }
  }

  lemma {:induction false} RunApostrophe(w: string, out: seq<Token>)
    ensures Run(Reader(Single, Some(w), out), "'\"'\"'") == Some(Reader(Single, Some(w + "'"), out))
  {
    var s := "'\"'\"'";
    assert s[1..] == "\"'\"'" && s[1..][1..] == "'\"'" && s[1..][1..][1..] == "\"'" && s[1..][1..][1..][1..] == "'";
    assert w + "" == w && (w + "'") + "" == w + "'";
    RunConcat(Reader(Single, Some(w), out), "'\"'", "\"'");
    RunOne(Reader(Double, Some(w), out), '\'');
    assert Run(Reader(Single, Some(w), out), "'\"'") == Some(Reader(Double, Some(w + "'"), out)) by {
      RunConcat(Reader(Single, Some(w), out), "'\"", "'");
    }
  }

  lemma {:induction false} RunSingleQuoted(r: Reader, s: string)
    requires r.mode == Bare
    ensures Run(r, "'" + Escape(s) + "'") == Some(r.(cur := Append(r.cur, s)))
  {
    var w := Append(r.cur, "").value;
    var open := Reader(Single, Some(w), r.out);
    assert Run(r, "'") == Some(open) by { RunOne(r, '\''); }
    assert Run(r, "'" + Escape(s)) == Some(open.(cur := Some(w + s))) by {
      RunConcat(r, "'", Escape(s));
      RunEscaped(w, r.out, s);
    }
    assert Run(open.(cur := Some(w + s)), "'") == Some(Reader(Bare, Some(w + s), r.out)) by {
      RunOne(open.(cur := Some(w + s)), '\'');
    }
    RunConcat(r, "'" + Escape(s), "'");
    assert Some(w + s) == Append(r.cur, s) by {
      match r.cur
      case None => assert "" + s == s;
      case Some(v) => assert w == v;
    }
  }

  /** A quoted text joins the current word exactly, whatever it contains. */
  lemma {:induction false} RunQuote(r: Reader, s: string)
    requires r.mode == Bare
    ensures Run(r, Quote(s)) == Some(r.(cur := Append(r.cur, s)))
  {
    if s != "" && forall i | 0 <= i < |s| :: IsSafe(s[i]) {
      RunPlain(r, s);
    } else {
      RunSingleQuoted(r, s);
      assert s == "" ==> Quote(s) == "'" + Escape(s) + "'";
    }
  }

  /** A literal word and the blank after it. */
  lemma {:induction false} RunLiteral(r: Reader, w: string)
    requires r.mode == Bare && r.cur == None && IsLiteral(w)
    ensures Run(r, w + " ") == Some(r.(out := r.out + [Word(w)]))
  {
    RunPlain(r, w);
    RunOne(r.(cur := Some(w)), ' ');
    RunConcat(r, w, " ");
  }

  /** The words, each with a blank after it. */
  function Spaced(words: seq<string>): string {
    if words == [] then "" else words[0] + " " + Spaced(words[1..])
  }

  lemma {:induction false} RunLiterals(r: Reader, words: seq<string>, last: Reader)
    requires r.mode == Bare && r.cur == None
    requires forall w | w in words :: IsLiteral(w)
    requires last == r.(out := r.out + WordTokens(words))
    ensures Run(r, Spaced(words)) == Some(last)
    decreases |words|
  {
    if words == [] {
      assert r.out + WordTokens(words) == r.out;
    } else {
      var next := r.(out := r.out + [Word(words[0])]);
      assert next.out + WordTokens(words[1..]) == r.out + WordTokens(words);
      RunLiterals(next, words[1..], last);
      RunLiteral(r, words[0]);
      RunThen(r, words[0] + " ", next, Spaced(words[1..]), last);
    }
  }

  lemma {:induction false} RunQuotedWord(r: Reader, w: string)
    requires r.mode == Bare && r.cur == None
    ensures Run(r, Quote(w) + " ") == Some(r.(out := r.out + [Word(w)]))
  {
    RunQuote(r, w);
    RunOne(r.(cur := Some(w)), ' ');
    RunConcat(r, Quote(w), " ");
  }

  lemma {:induction false} QuoteJoinUnfold(words: seq<string>)
    requires |words| > 1
    ensures QuoteJoin(words) == Quote(words[0]) + " " + QuoteJoin(words[1..])
  {
    assert QuoteAll(words)[1..] == QuoteAll(words[1..]);
  }

  lemma {:induction false} RunQuoteJoin(r: Reader, words: seq<string>, last: Reader)
    requires r.mode == Bare && r.cur == None && words != []
    requires last == Reader(Bare, Some(words[|words| - 1]), r.out + WordTokens(words[..|words| - 1]))
    ensures Run(r, QuoteJoin(words)) == Some(last)
    decreases |words|
  {
    if |words| == 1 {
      RunQuote(r, words[0]);
      assert r.out + WordTokens(words[..0]) == r.out;
    } else {
      var next := r.(out := r.out + [Word(words[0])]);
      var init := words[1..][..|words| - 2];
      assert next.out + WordTokens(init) == r.out + WordTokens(words[..|words| - 1]) by {
        assert words[..|words| - 1] == [words[0]] + init;
      }
      RunQuoteJoin(next, words[1..], last);
      RunQuotedWord(r, words[0]);
      QuoteJoinUnfold(words);
      RunThen(r, Quote(words[0]) + " ", next, QuoteJoin(words[1..]), last);
    }
  }

  /** Word-list quoting: the space-joined quoted tokens split back into exactly
      the token list. */
  lemma {:induction false} SplitQuoteJoin(words: seq<string>)
    ensures Tokens(QuoteJoin(words)) == Some(WordTokens(words))
  {
    if words == [] {
      assert QuoteJoin(words) == "" && START.out + Flush(None) == WordTokens(words);
    } else {
      var n := |words| - 1;
      RunQuoteJoin(START, words, Reader(Bare, Some(words[n]), START.out + WordTokens(words[..n])));
      assert START.out + WordTokens(words[..n]) + [Word(words[n])] == WordTokens(words);
    }
  }

  /** Two different lists never give the same command string. */
  lemma {:induction false} QuoteJoinInjective(a: seq<string>, b: seq<string>)
    requires QuoteJoin(a) == QuoteJoin(b)
    ensures a == b
  {
    SplitQuoteJoin(a);
    SplitQuoteJoin(b);
    assert forall i | 0 <= i < |a| :: WordTokens(a)[i] == Word(a[i]);
    assert forall i | 0 <= i < |b| :: WordTokens(b)[i] == Word(b[i]);
  }
}
