/** What exactly the fixed patterns of the resolver take. */
module HclPatterns {
  import opened Text
  import opened HclScanner
  import opened HclFields
  import opened Topology

  ghost predicate AllWord(s: string) { s != "" && forall i | 0 <= i < |s| :: IsWord(s[i]) }

  ghost predicate StartsInk(s: string) { s != "" ==> !IsSpace(s[0]) }

  lemma {:induction false} NoSpaceIsWord(c: char)
    requires IsSpace(c) || c == '='
    ensures !IsWord(c)
  {
  }

  // ----- assignments -----

  lemma {:induction false} EqualsOf(a: string, b: string, u: string)
    requires IsBlank(a) && IsBlank(b) && StartsInk(u)
    ensures AfterEquals(a + ("=" + (b + u))) == Some(u)
  {
    hide IsSpace;
    assert !IsSpace('=') by { NotSpace(); }
    var v := b + u;
    SpanAt(IsSpace, a, "=" + v);
    SpanAt(IsSpace, b, u);
    hide Span, IsBlank, StartsInk;
    assert (a + ("=" + v))[|a|..] == "=" + v && ("=" + v)[1..] == v && v[|b|..] == u;
  }

  lemma {:induction false} NotSpace()
    ensures !IsSpace('=') && !IsSpace('"') && !IsSpace('{')
  {
  }

  lemma {:induction false} EqualsSplits(s: string) returns (a: string, b: string)
    requires AfterEquals(s).Some?
    ensures IsBlank(a) && IsBlank(b) && s == a + ("=" + (b + AfterEquals(s).value)) && StartsInk(AfterEquals(s).value)
  {
    hide IsSpace;
    var n := Span(IsSpace, s);
    var v := s[n..][1..];
    var m := Span(IsSpace, v);
    a, b := s[..n], v[..m];
    assert v == b + v[m..];
  }

  /** `\s*=\s*` takes an equals sign with all the space around it. */
  lemma {:induction false} EqualsExactly(s: string, u: string)
    ensures AfterEquals(s) == Some(u) <==>
            exists a, b :: IsBlank(a) && IsBlank(b) && s == a + ("=" + (b + u)) && StartsInk(u)
  {
    hide AfterEquals, IsBlank, StartsInk;
    if AfterEquals(s) == Some(u) { var a, b := EqualsSplits(s); }
    if a, b :| IsBlank(a) && IsBlank(b) && s == a + ("=" + (b + u)) && StartsInk(u) { EqualsOf(a, b, u); }
  }

  /** `\w+\s*=\s*` takes a whole word and the equals sign behind it. */
  lemma {:induction false} AssignExactly(s: string, w: string, u: string)
    ensures AssignAt(s) == Some((w, u)) <==>
            AllWord(w) && exists a, b :: IsBlank(a) && IsBlank(b) && s == w + (a + ("=" + (b + u))) && StartsInk(u)
  {
    hide AfterEquals;
    if AssignAt(s) == Some((w, u)) {
      assert s == w + s[|w|..];
      EqualsExactly(s[|w|..], u);
    }
    if AllWord(w) {
      if a, b :| IsBlank(a) && IsBlank(b) && s == w + (a + ("=" + (b + u))) && StartsInk(u) {
        var rest := a + ("=" + (b + u));
        EqualsExactly(rest, u);
        assert rest[0] == if a == "" then '=' else a[0];
        NoSpaceIsWord(rest[0]);
        SpanAt(IsWord, w, rest);
        assert s[|w|..] == rest && s[..|w|] == w;
      }
    }
  }

  /** An assignment that is accepted stands at `p`, at the start of a word; `boundary` says
      whether one may start at the head of `s`. */
  ghost predicate MatchAt(boundary: bool, s: string, accept: (string, string) -> bool, p: nat, m: (string, string)) {
    && p < |s| && (if p == 0 then boundary else !IsWord(s[p - 1]))
    && AssignAt(s[p..]) == Some(m) && accept(m.0, m.1)
  }

  /** The search finds the first of them. */
  lemma {:induction false} SearchExactly(boundary: bool, s: string, accept: (string, string) -> bool, m: (string, string))
    ensures Search(boundary, s, accept) == Some(m) <==>
            exists p: nat :: MatchAt(boundary, s, accept, p, m) && forall q: nat, n | q < p :: !MatchAt(boundary, s, accept, q, n)
    decreases |s|
  {
    hide AssignAt;
    if s != "" {
      assert s[0..] == s;
      var head := if boundary then AssignAt(s) else None;
      if head.Some? && accept(head.value.0, head.value.1) {
        assert MatchAt(boundary, s, accept, 0, head.value);
      } else {
        var t, b := s[1..], !IsWord(s[0]);
        assert forall n :: !MatchAt(boundary, s, accept, 0, n);
        SearchExactly(b, t, accept, m);
        forall q: nat, n ensures MatchAt(boundary, s, accept, q + 1, n) <==> MatchAt(b, t, accept, q, n) {
          assert q + 1 <= |s| ==> s[q + 1..] == t[q..];
        }
        FirstShifts(boundary, s, b, t, accept, m);
      }
    }
  }

  lemma {:induction false} FirstShifts(boundary: bool, s: string, b: bool, t: string, accept: (string, string) -> bool, m: (string, string))
    requires forall n :: !MatchAt(boundary, s, accept, 0, n)
    requires forall q: nat, n :: MatchAt(boundary, s, accept, q + 1, n) <==> MatchAt(b, t, accept, q, n)
    ensures (exists p: nat :: MatchAt(boundary, s, accept, p, m) && forall q: nat, n | q < p :: !MatchAt(boundary, s, accept, q, n)) <==>
            (exists p: nat :: MatchAt(b, t, accept, p, m) && forall q: nat, n | q < p :: !MatchAt(b, t, accept, q, n))
  {
    hide MatchAt;
    if p: nat :| MatchAt(b, t, accept, p, m) && forall q: nat, n | q < p :: !MatchAt(b, t, accept, q, n) {
      forall q: nat, n | q < p + 1 ensures !MatchAt(boundary, s, accept, q, n) {
        if q > 0 {
          assert !MatchAt(b, t, accept, q - 1, n);
          assert MatchAt(boundary, s, accept, q - 1 + 1, n) <==> MatchAt(b, t, accept, q - 1, n);
        }
      }
      assert MatchAt(boundary, s, accept, p + 1, m);
    }
    if p: nat :| MatchAt(boundary, s, accept, p, m) && forall q: nat, n | q < p :: !MatchAt(boundary, s, accept, q, n) {
      assert p > 0;
      assert MatchAt(boundary, s, accept, p - 1 + 1, m);
      forall q: nat, n | q < p - 1 ensures !MatchAt(b, t, accept, q, n) { assert !MatchAt(boundary, s, accept, q + 1, n); }
      assert MatchAt(b, t, accept, p - 1, m);
    }
  }

  // ----- fields -----

  lemma {:induction false} BehindQuote(v: string, w: string)
    ensures var u := "\"" + v + "\"" + w;
      u[0] == '"' && u[1..] == v + ("\"" + w) && u[1..|v| + 1] == v && |u| == |v| + 2 + |w|
  {
  }

  lemma {:induction false} QuotedThere(u: string, v: string, w: string)
    requires '"' !in v && u == "\"" + v + "\"" + w
    ensures LiteralAt(u) == Some((v, |v| + 2))
  {
    BehindQuote(v, w);
    SpanAt(NotQuote, v, "\"" + w);
  }

  /** A quoted text without quotes, or a whole run of digits. */
  lemma {:induction false} LiteralExactly(u: string, v: string, n: nat)
    ensures LiteralAt(u) == Some((v, n)) <==>
            || ('"' !in v && n == |v| + 2 <= |u| && u[..n] == "\"" + v + "\"")
            || (AllDigits(v) && n == |v| <= |u| && u[..n] == v && (n < |u| ==> !IsDigit(u[n])))
  {
    if '"' !in v && n == |v| + 2 <= |u| && u[..n] == "\"" + v + "\"" {
      assert u == "\"" + v + "\"" + u[n..];
      QuotedThere(u, v, u[n..]);
    }
    if AllDigits(v) && n == |v| <= |u| && u[..n] == v && (n < |u| ==> !IsDigit(u[n])) {
      assert u == v + u[n..] && u[0] == v[0];
      SpanAt(IsDigit, v, u[n..]);
    }
    if LiteralAt(u) == Some((v, n)) && u[0] == '"' {
      var m := Span(NotQuote, u[1..]);
      assert u[1..][m] == u[m + 1];
      assert u[..n] == "\"" + v + "\"";
    }
  }

  /** The first `k` characters and the newline behind them are all space. */
  ghost predicate LineEndAt(s: string, k: nat) {
    k < |s| && IsBlank(s[..k + 1]) && s[k] == '\n'
  }

  /** `e` is behind the last newline among the leading spaces. */
  ghost predicate LineEnds(s: string, e: nat) {
    e > 0 && LineEndAt(s, e - 1) && forall k: nat | k >= e :: !LineEndAt(s, k)
  }

  lemma {:induction false} SpaceCons(c: char, s: string)
    ensures IsBlank([c] + s) <==> IsSpace(c) && IsBlank(s)
  {
    hide IsSpace;
    assert ([c] + s)[0] == c;
    assert forall i | 0 <= i < |s| :: ([c] + s)[i + 1] == s[i];
  }

  lemma {:induction false} LineEndStep(s: string, k: nat)
    requires s != ""
    ensures LineEndAt(s, k + 1) <==> IsSpace(s[0]) && LineEndAt(s[1..], k)
  {
    var t := s[1..];
    if k + 1 < |s| {
      assert s[..k + 2] == [s[0]] + t[..k + 1] && s[k + 1] == t[k];
      SpaceCons(s[0], t[..k + 1]);
    }
  }

  lemma {:induction false} LineEndHead(s: string)
    ensures LineEndAt(s, 0) <==> s != "" && s[0] == '\n'
  {
    if s != "" { assert s[..1] == [s[0]]; }
  }

  /** `\s*\n` takes the leading spaces up to their last newline. */
  lemma {:induction false} LineEndExactly(s: string, e: nat)
    ensures AfterLastNewline(s) == e > 0 <==> LineEnds(s, e)
    ensures AfterLastNewline(s) == 0 <==> forall k: nat :: !LineEndAt(s, k)
    decreases |s|
  {
    LineEndHead(s);
    if s == "" {
      hide IsBlank;
    } else {
      var t := s[1..];
      forall k: nat ensures LineEndAt(s, k + 1) <==> IsSpace(s[0]) && LineEndAt(t, k) { LineEndStep(s, k); }
      hide IsSpace, LineEndAt;
      assert IsSpace('\n') by { NewlineIsSpace(); }
      if !IsSpace(s[0]) {
        forall k: nat ensures !LineEndAt(s, k) { if k > 0 { assert !LineEndAt(s, k - 1 + 1); } }
      } else {
        LineEndExactly(t, if e > 0 then e - 1 else 0);
        LineEndsShift(s, t, e);
      }
    }
  }

  lemma {:induction false} NewlineIsSpace()
    ensures IsSpace('\n')
  {
  }

  lemma {:induction false} LineEndsShift(s: string, t: string, e: nat)
    requires forall k: nat :: LineEndAt(s, k + 1) <==> LineEndAt(t, k)
    ensures e > 1 ==> (LineEnds(s, e) <==> LineEnds(t, e - 1))
    ensures LineEnds(s, 1) <==> LineEndAt(s, 0) && forall k: nat :: !LineEndAt(t, k)
    ensures (forall k: nat :: !LineEndAt(s, k)) <==> !LineEndAt(s, 0) && forall k: nat :: !LineEndAt(t, k)
  {
    hide LineEndAt;
    forall k: nat | k > 0 ensures LineEndAt(s, k) <==> LineEndAt(t, k - 1) { assert LineEndAt(s, k - 1 + 1) <==> LineEndAt(t, k - 1); }
    if e > 1 && LineEnds(t, e - 1) {
      forall k: nat | k >= e ensures !LineEndAt(s, k) { assert !LineEndAt(t, k - 1); }
    }
    if e > 1 && LineEnds(s, e) {
      forall k: nat | k >= e - 1 ensures !LineEndAt(t, k) { assert !LineEndAt(s, k + 1); }
    }
    if LineEnds(s, 1) || forall k: nat :: !LineEndAt(s, k) {
      forall k: nat ensures !LineEndAt(t, k) { assert !LineEndAt(s, k + 1); }
    }
    if forall k: nat :: !LineEndAt(t, k) {
      forall k: nat | k > 0 ensures !LineEndAt(s, k) { assert !LineEndAt(t, k - 1); }
    }
  }

  /** A field is an identifier and behind the equals sign a literal, with nothing but
      space to the end of its line. */
  lemma {:induction false} FieldExactly(name: string, u: string, f: ModuleField, rest: string)
    ensures FieldTest(name, u) == Some((f, rest)) <==>
      && name != "" && (IsLetter(name[0]) || name[0] == '_')
      && exists v, n: nat, e: nat ::
           && LiteralAt(u) == Some((v, n)) && n <= |u| && LineEnds(u[n..], e) && e <= |u| - n
           && f == ModuleField(name, v) && rest == u[n..][e..]
  {
    if LiteralAt(u).Some? {
      var (v, n) := LiteralAt(u).value;
      var e := AfterLastNewline(u[n..]);
      hide LineEnds, LiteralAt, AfterLastNewline;
      forall e': nat ensures e == e' > 0 <==> LineEnds(u[n..], e') { LineEndExactly(u[n..], e'); }
    }
  }

  // ----- headers -----

  /** The position is that of the first character from `i` on that is no space. */
  ghost predicate InkAt(t: string, i: nat, j: nat) {
    i <= j <= |t| && IsBlank(t[i..j]) && (j < |t| ==> !IsSpace(t[j]))
  }

  lemma {:induction false} SkipSpaceExactly(t: string, i: nat, j: nat)
    requires i <= |t|
    ensures SkipSpace(t, i) == j <==> InkAt(t, i, j)
  {
    hide IsSpace, SkipSpace;
    var k := SkipSpace(t, i);
    if j <= |t| { assert forall m | i <= m < j :: t[i..j][m - i] == t[m]; }
  }

  /** The word `module`, space and a quote, from `p` to `q`. */
  ghost predicate ModuleWord(t: string, p: nat, q: nat) {
    && p + 8 <= q <= |t| && (p > 0 ==> !IsWord(t[p - 1]))
    && t[p..p + 6] == "module" && IsBlank(t[p + 6..q - 1]) && t[q - 1] == '"'
  }

  /** The key, the quote behind it, perhaps space, and an opening brace, from `q` to `b`. */
  ghost predicate KeyAndBrace(t: string, q: nat, key: string, b: nat) {
    && q + |key| + 2 <= b <= |t| && t[q..q + |key|] == key && t[q + |key|] == '"'
    && IsBlank(t[q + |key| + 1..b - 1]) && t[b - 1] == '{'
  }

  /** `\bmodule\s+"` ends at `q`. */
  lemma {:induction false} ModuleWordExactly(t: string, p: nat, q: nat)
    requires p <= |t|
    ensures ModuleWordAt(t, p) == Some(q) <==> ModuleWord(t, p, q)
  {
    NotSpace();
    hide IsSpace, IsWord, SkipSpace;
    if At(t, p, "module") {
      var s := SkipSpace(t, p + 6);
      SkipSpaceExactly(t, p + 6, s);
      if ModuleWord(t, p, q) { SkipSpaceExactly(t, p + 6, q - 1); }
    }
  }

  lemma {:induction false} KeyAndBraceExactly(t: string, q: nat, key: string, b: nat)
    requires q <= |t|
    ensures (At(t, q, key + "\"") && OpenBraceAt(t, q + |key| + 1) == Some(b)) <==> KeyAndBrace(t, q, key, b)
  {
    hide IsBlank, OpenBraceAt;
    KeyQuoted(t, q, key);
    if q + |key| + 1 <= |t| { BraceExactly(t, q + |key| + 1, b); }
  }

  /** The module header with this key, from `p` to behind its brace at `b`. */
  lemma {:induction false} HeaderExactly(t: string, p: nat, key: string, b: nat)
    requires p <= |t|
    ensures HeaderAt(t, p, key) == Some(b) <==> exists q: nat :: ModuleWord(t, p, q) && KeyAndBrace(t, q, key, b)
  {
    hide ModuleWordAt, ModuleWord, KeyAndBrace, OpenBraceAt;
    forall q: nat ensures ModuleWordAt(t, p) == Some(q) <==> ModuleWord(t, p, q) { ModuleWordExactly(t, p, q); }
    if ModuleWordAt(t, p).Some? { KeyAndBraceExactly(t, ModuleWordAt(t, p).value, key, b); }
  }

  lemma {:induction false} KeyQuoted(t: string, q: nat, key: string)
    requires q <= |t|
    ensures At(t, q, key + "\"") <==> q + |key| < |t| && t[q..q + |key|] == key && t[q + |key|] == '"'
  {
    if q + |key| < |t| {
      assert t[q..q + |key| + 1] == t[q..q + |key|] + [t[q + |key|]];
      var k := key + "\"";
      assert k[..|key|] == key && k[|key|] == '"';
      if t[q..q + |key| + 1] == k { assert t[q..q + |key|] == k[..|key|]; }
    }
  }

  lemma {:induction false} BraceExactly(t: string, i: nat, b: nat)
    requires i <= |t|
    ensures OpenBraceAt(t, i) == Some(b) <==> i < b <= |t| && IsBlank(t[i..b - 1]) && t[b - 1] == '{'
  {
    NotSpace();
    hide IsSpace, SkipSpace;
    SkipSpaceExactly(t, i, SkipSpace(t, i));
    if i < b <= |t| && IsBlank(t[i..b - 1]) && t[b - 1] == '{' { SkipSpaceExactly(t, i, b - 1); }
  }

  /** The search finds the first header with the key. */
  lemma {:induction false} HeaderFirst(t: string, key: string, h: nat)
    ensures Header(t, key) == Some(h) <==> exists p: nat ::
      p <= |t| && HeaderAt(t, p, key) == Some(h) && forall i: nat | i < p :: HeaderAt(t, i, key) == None
  {
    hide HeaderAt;
    if p: nat :| p <= |t| && HeaderAt(t, p, key) == Some(h) && forall i: nat | i < p :: HeaderAt(t, i, key) == None {
      FirstAtIs(IsHeader(t, key), 0, p, |t|);
    }
    if Header(t, key) == Some(h) {
      var p := FirstHeld(IsHeader(t, key), 0, |t|);
      forall i: nat | i < p ensures HeaderAt(t, i, key) == None { assert !IsHeader(t, key)(i); }
    }
  }

  lemma {:induction false} FirstHeld(f: nat -> bool, p: nat, n: nat) returns (q: nat)
    requires p <= n && FirstAt(f, p, n).Some?
    ensures p <= q <= n && FirstAt(f, p, n) == Some(q) && f(q) && forall i: nat | p <= i < q :: !f(i)
    decreases n - p
  {
    if f(p) { q := p; } else { q := FirstHeld(f, p + 1, n); }
  }

  // ----- the module's key -----

  /** `source`, an equals sign with space around it, and a quoted text that has the name of
      the cluster module in it. */
  ghost predicate ClusterSource(s: string) {
    exists a, b, v, rest :: IsBlank(a) && IsBlank(b) && '"' !in v &&
      s == "source" + (a + ("=" + (b + ("\"" + (v + ("proxmox-k3s-cluster" + rest))))))
  }

  lemma {:induction false} MentionsExactly(v: string)
    ensures MentionsClusterModule(v) <==> exists head, rest :: '"' !in head && v == head + ("proxmox-k3s-cluster" + rest)
  {
    if i: nat :| i <= |v| && '"' !in v[..i] && StartsWith(v[i..], "proxmox-k3s-cluster") {
      var name := "proxmox-k3s-cluster";
      assert v == v[..i] + (name + v[i..][|name|..]);
    }
    if head, rest :| '"' !in head && v == head + ("proxmox-k3s-cluster" + rest) {
      assert v[..|head|] == head && v[|head|..] == "proxmox-k3s-cluster" + rest;
    }
  }

  lemma {:induction false} QuoteInk(u: string)
    ensures StartsInk("\"" + u) && ("\"" + u)[0] == '"' && ("\"" + u)[1..] == u
  {
    NotSpace();
    hide IsSpace;
  }

  lemma {:induction false} SourceExactly(t: string, p: nat)
    requires p <= |t|
    ensures SourceAt(t, p) <==> ClusterSource(t[p..])
  {
    hide IsBlank, IsSpace, AfterEquals, MentionsClusterModule;
    if SourceAt(t, p) {
      var tail := t[p + 6..];
      var u := AfterEquals(tail).value;
      assert t[p..] == "source" + tail && u == "\"" + u[1..];
      EqualsExactly(tail, u);
      var a, b :| IsBlank(a) && IsBlank(b) && tail == a + ("=" + (b + u)) && StartsInk(u);
      MentionsExactly(u[1..]);
      var v, rest :| '"' !in v && u[1..] == v + ("proxmox-k3s-cluster" + rest);
      hide SourceAt;
      assert t[p..] == "source" + (a + ("=" + (b + ("\"" + (v + ("proxmox-k3s-cluster" + rest))))));
    }
    if ClusterSource(t[p..]) {
      var a, b, v, rest :| IsBlank(a) && IsBlank(b) && '"' !in v &&
        t[p..] == "source" + (a + ("=" + (b + ("\"" + (v + ("proxmox-k3s-cluster" + rest))))));
      hide ClusterSource;
      var w := v + ("proxmox-k3s-cluster" + rest);
      var tail := a + ("=" + (b + ("\"" + w)));
      QuoteInk(w);
      SourceHead(t, p, tail);
      EqualsExactly(tail, "\"" + w);
      MentionsExactly(w);
    }
  }

  lemma {:induction false} SourceHead(t: string, p: nat, tail: string)
    requires p <= |t| && t[p..] == "source" + tail
    ensures At(t, p, "source") && t[p + 6..] == tail
  {
    assert t[p..][..6] == "source" && t[p..][6..] == tail;
  }

  /** A module header with this key stands at `p`, and after its brace, before any closing
      brace, the source of the cluster module. */
  ghost predicate ClusterModuleAt(t: string, p: nat, key: string) {
    && key != "" && '"' !in key
    && exists q: nat, b: nat :: ModuleWord(t, p, q) && KeyAndBrace(t, q, key, b) && SourceBehind(t, b)
  }

  ghost predicate SourceBehind(t: string, b: nat) {
    exists s: nat :: b <= s <= |t| && '}' !in t[b..s] && ClusterSource(t[s..])
  }

  lemma {:induction false} SourceBehindExactly(t: string, b: nat)
    requires b <= |t|
    ensures SourceBeforeBrace(t, b) <==> SourceBehind(t, b)
  {
    hide SourceAt, ClusterSource;
    forall s: nat | s <= |t| ensures SourceAt(t, s) <==> ClusterSource(t[s..]) { SourceExactly(t, s); }
  }

  /** The text up to the next quote is the only key that can stand there. */
  lemma {:induction false} KeyThere(t: string, q: nat, key: string, b: nat)
    requires q <= |t| && '"' !in key && KeyAndBrace(t, q, key, b)
    ensures Span(NotQuote, t[q..]) == |key| && q + |key| < |t| && t[q..q + |key|] == key
    ensures OpenBraceAt(t, q + |key| + 1) == Some(b)
  {
    KeyAndBraceExactly(t, q, key, b);
    hide OpenBraceAt, IsBlank;
    assert t[q..] == key + t[q + |key|..];
    SpanAt(NotQuote, key, t[q + |key|..]);
  }

  lemma {:induction false} BraceThere(t: string, q: nat, b: nat)
    requires q <= |t|
    requires var n := Span(NotQuote, t[q..]); q + n < |t| && OpenBraceAt(t, q + n + 1) == Some(b)
    ensures var key := t[q..q + Span(NotQuote, t[q..])]; '"' !in key && KeyAndBrace(t, q, key, b)
  {
    var n := Span(NotQuote, t[q..]);
    var key := t[q..q + n];
    assert t[q..][n] == t[q + n] && key == t[q..][..n];
    hide OpenBraceAt;
    KeyQuoted(t, q, key);
    KeyAndBraceExactly(t, q, key, b);
  }

  lemma {:induction false} KeyExactly(t: string, p: nat, key: string)
    requires p <= |t|
    ensures KeyAt(t, p) == Some(key) <==> ClusterModuleAt(t, p, key)
  {
    hide ModuleWordAt, ModuleWord, OpenBraceAt, KeyAndBrace, SourceBeforeBrace, SourceBehind;
    forall q: nat ensures ModuleWordAt(t, p) == Some(q) <==> ModuleWord(t, p, q) { ModuleWordExactly(t, p, q); }
    if KeyAt(t, p) == Some(key) {
      var q := ModuleWordAt(t, p).value;
      var b := OpenBraceAt(t, q + |key| + 1).value;
      BraceThere(t, q, b);
      SourceBehindExactly(t, b);
    }
    if ClusterModuleAt(t, p, key) {
      var q: nat, b: nat :| ModuleWord(t, p, q) && KeyAndBrace(t, q, key, b) && SourceBehind(t, b);
      KeyThere(t, q, key, b);
      SourceBehindExactly(t, b);
    }
  }

  /** The key of the first module with the cluster's source, or else the default. */
  lemma {:induction false} ModuleKeyExactly(t: string, default: string)
    ensures if exists p: nat, key :: p <= |t| && ClusterModuleAt(t, p, key) then
              exists p: nat :: p <= |t| && ClusterModuleAt(t, p, ModuleKey(t, default)) &&
                forall i: nat, key | i < p :: !ClusterModuleAt(t, i, key)
            else ModuleKey(t, default) == default
  {
    hide KeyAt, ClusterModuleAt;
    forall p: nat, key | p <= |t| ensures KeyAt(t, p) == Some(key) <==> ClusterModuleAt(t, p, key) { KeyExactly(t, p, key); }
    if FirstAt(NamesCluster(t), 0, |t|).Some? {
      var p := FirstHeld(NamesCluster(t), 0, |t|);
      assert ClusterModuleAt(t, p, ModuleKey(t, default));
      forall i: nat, key | i < p ensures !ClusterModuleAt(t, i, key) { assert !NamesCluster(t)(i); }
    } else {
      if p: nat, key :| p <= |t| && ClusterModuleAt(t, p, key) { FirstHolds(NamesCluster(t), 0, p, |t|); }
    }
  }

  lemma {:induction false} FirstHolds(f: nat -> bool, p: nat, q: nat, n: nat)
    requires p <= q <= n && f(q)
    ensures FirstAt(f, p, n).Some?
    decreases q - p
  {
    if p < q { FirstHolds(f, p + 1, q, n); }
  }

  // ----- numbers -----

  ghost function Concat(groups: seq<string>): (r: string)
    ensures (forall i | 0 <= i < |groups| :: AllDigits(groups[i])) ==> forall i | 0 <= i < |r| :: IsDigit(r[i])
  {
    if groups == [] then "" else groups[0] + Concat(groups[1..])
  }

  ghost predicate DigitGroups(groups: seq<string>) {
    groups != [] && forall i | 0 <= i < |groups| :: AllDigits(groups[i])
  }

  ghost predicate Numeric(s: string) { forall i | 0 <= i < |s| :: IsDigit(s[i]) || s[i] == '_' }

  /** The number that the digits of all groups spell. */
  ghost function SignedNumber(sign: string, groups: seq<string>): int
    requires DigitGroups(groups)
  {
    var n: int := DigitsToNat(Concat(groups));
    if sign == "-" then -n else n
  }

  lemma {:induction false} DropConcat(a: string, b: string)
    requires Numeric(a) && Numeric(b)
    ensures Numeric(a + b) && DropUnderscores(a + b) == DropUnderscores(a) + DropUnderscores(b)
    decreases |a|
  {
    hide IsDigit;
    assert Numeric(a + b) by {
      assert forall i | 0 <= i < |a + b| :: (a + b)[i] == if i < |a| then a[i] else b[i - |a|];
    }
    if a == "" {
      assert a + b == b;
    } else {
      assert (a + b)[1..] == a[1..] + b && (a + b)[0] == a[0];
      DropConcat(a[1..], b);
    }
  }

  lemma {:induction false} NumeralCons(a: string, r: string)
    requires AllDigits(a) && IsNumeral(r)
    ensures IsNumeral(a + ("_" + r)) && DropUnderscores(a + ("_" + r)) == a + DropUnderscores(r)
  {
    DropNothing(a);
    DropConcat("_", r);
    DropConcat(a, "_" + r);
    assert DropUnderscores("_") == "";
    NumeralJoined(a, r);
    hide IsNumeral, DropUnderscores, Numeric;
  }

  lemma {:induction false} NumeralJoined(a: string, r: string)
    requires AllDigits(a) && IsNumeral(r)
    ensures IsNumeral(a + ("_" + r))
  {
    var s := a + ("_" + r);
    assert forall i | 0 <= i < |s| :: s[i] == if i < |a| then a[i] else if i == |a| then '_' else r[i - |a| - 1];
  }

  lemma {:induction false} NumeralOfGroups(groups: seq<string>)
    requires DigitGroups(groups)
    ensures IsNumeral(Join("_", groups)) && DropUnderscores(Join("_", groups)) == Concat(groups)
    decreases |groups|
  {
    DropNothing(groups[0]);
    if |groups| == 1 {
      assert groups[0] + "" == groups[0] && groups[1..] == [];
    } else {
      NumeralOfGroups(groups[1..]);
      NumeralCons(groups[0], Join("_", groups[1..]));
      assert groups[0] + "_" + Join("_", groups[1..]) == groups[0] + ("_" + Join("_", groups[1..]));
    }
  }

  lemma {:induction false} NumeralTail(s: string, j: nat)
    requires IsNumeral(s) && j < |s| && s[j] == '_' && forall i | 0 <= i < j :: s[i] != '_'
    ensures AllDigits(s[..j]) && IsNumeral(s[j + 1..])
  {
    var r := s[j + 1..];
    assert j > 0 && j + 1 < |s| && s[j + 1] != '_';
    assert forall i | 0 <= i < |r| :: r[i] == s[j + 1 + i];
    assert r[|r| - 1] == s[|s| - 1];
  }

  lemma {:induction false} NumeralWhole(s: string)
    requires IsNumeral(s) && forall i | 0 <= i < |s| :: s[i] != '_'
    ensures AllDigits(s)
  {
  }

  lemma {:induction false} GroupsOfNumeral(s: string) returns (groups: seq<string>)
    requires IsNumeral(s)
    ensures DigitGroups(groups) && Join("_", groups) == s
    decreases |s|
  {
    hide IsNumeral, AllDigits, Join;
    var j := Find(s, '_', 0);
    if j == -1 {
      groups := [s];
      NumeralWhole(s);
      JoinOne("_", s);
    } else {
      NumeralTail(s, j);
      var tail := GroupsOfNumeral(s[j + 1..]);
      groups := [s[..j]] + tail;
      JoinCons("_", s[..j], tail);
      CutAt(s, j);
    }
  }

  lemma {:induction false} NumeralHead(s: string)
    requires IsNumeral(s)
    ensures s != "" && !IsSpace(s[0]) && !IsSpace(s[|s| - 1]) && s[0] != '+' && s[0] != '-'
  {
  }

  /** What `int` reads: groups of digits with single underscores between them, perhaps a
      sign in front, and any space around. */
  lemma {:induction false} NumberExactly(text: string, v: int)
    ensures ToInt(text) == Some(v) <==> exists left, sign, groups, right ::
      && IsBlank(left) && IsBlank(right) && sign in {"", "+", "-"} && DigitGroups(groups)
      && text == left + (sign + Join("_", groups)) + right
      && v == SignedNumber(sign, groups)
  {
    hide IsSpace, Join, DropUnderscores, DigitsToNat, IsNumeral, DigitGroups;
    if ToInt(text) == Some(v) {
      var left, right := StripSplits(text);
      var s := Strip(text);
      var sign := if s != "" && (s[0] == '+' || s[0] == '-') then [s[0]] else "";
      var digits := s[|sign|..];
      var groups := GroupsOfNumeral(digits);
      NumeralOfGroups(groups);
      assert s == sign + digits;
      assert IsBlank(left) && IsBlank(right);
    }
    if left, sign, groups, right :| (
      && IsBlank(left) && IsBlank(right) && sign in {"", "+", "-"} && DigitGroups(groups)
      && text == left + (sign + Join("_", groups)) + right && v == SignedNumber(sign, groups))
    {
      NumberOf(left, sign, groups, right);
    }
  }

  lemma {:induction false} NumberOf(left: string, sign: string, groups: seq<string>, right: string)
    requires IsBlank(left) && IsBlank(right) && sign in {"", "+", "-"} && DigitGroups(groups)
    ensures ToInt(left + (sign + Join("_", groups)) + right) == Some(SignedNumber(sign, groups))
  {
    var digits := Join("_", groups);
    var s := sign + digits;
    NumeralOfGroups(groups);
    NumeralHead(digits);
    assert !IsSpace('+') && !IsSpace('-');
    hide IsSpace, IsNumeral, Strip, Join, DropUnderscores, DigitsToNat;
    assert s[|s| - 1] == digits[|digits| - 1] && s[0] == if sign == "" then digits[0] else sign[0];
    StripOf(left, s, right);
    assert s[|sign|..] == digits;
  }
}
