/** Fields, counts and module key read out of a module body by fixed patterns. */
module HclFields {
  import opened Text
  import opened HclScanner

  /** Length of the longest head of `s` whose characters all satisfy `p`. */
  function Span(p: char -> bool, s: string): (n: nat)
    ensures n <= |s|
    ensures forall i | 0 <= i < n :: p(s[i])
    ensures n < |s| ==> !p(s[n])
  {
    if s == "" || !p(s[0]) then 0 else 1 + Span(p, s[1..])
  }

  lemma {:induction false} SpanAt(p: char -> bool, a: string, rest: string)
    requires forall i | 0 <= i < |a| :: p(a[i])
    requires rest != "" ==> !p(rest[0])
    ensures Span(p, a + rest) == |a|
    decreases |a|
  {
    if a == "" {
      assert a + rest == rest;
    } else {
      assert (a + rest)[0] == a[0] && (a + rest)[1..] == a[1..] + rest;
      SpanAt(p, a[1..], rest);
    }
  }

  predicate NotQuote(c: char) { c != '"' }

  predicate StartsIdent(s: string) { s != "" && (IsLetter(s[0]) || s[0] == '_') }

  /** The position after the last newline among the leading spaces of `s`, or 0. */
  function AfterLastNewline(s: string): (n: nat)
    ensures n <= |s|
  {
    if s == "" || !IsSpace(s[0]) then 0
    else
      var m := AfterLastNewline(s[1..]);
      if m > 0 then m + 1 else if s[0] == '\n' then 1 else 0
  }

  /** `\s*=\s*` at the head of `s`: what is left, or None. */
  function AfterEquals(s: string): (r: Option<string>)
    ensures r.Some? ==> |r.value| < |s|
  {
    var u := s[Span(IsSpace, s)..];
    if u == "" || u[0] != '=' then None
    else
      var v := u[1..];
      Some(v[Span(IsSpace, v)..])
  }

  /** `\w+\s*=\s*` at the head of `s`: the word and what is left. Every field
      pattern starts like this, with a named word; since the character after the
      word must be a space or `=`, the word matched is always the whole word. */
  function AssignAt(s: string): (r: Option<(string, string)>)
    ensures r.Some? ==> |r.value.1| < |s|
  {
    var n := Span(IsWord, s);
    if n == 0 then None
    else match AfterEquals(s[n..])
      case None => None
      case Some(u) => Some((s[..n], u))
  }

  /** `re.search`: the first assignment that `accept` takes; `boundary` says
      whether a word may start at the head of `s`. */
  function Search(boundary: bool, s: string, accept: (string, string) -> bool): (r: Option<(string, string)>)
    ensures r.Some? ==> |r.value.1| < |s| && accept(r.value.0, r.value.1)
    decreases |s|
  {
    if s == "" then None
    else
      var m := if boundary then AssignAt(s) else None;
      if m.Some? && accept(m.value.0, m.value.1) then m
      else Search(!IsWord(s[0]), s[1..], accept)
  }

  // ----- fields -----

  datatype ModuleField = ModuleField(name: string, value: string)

  /** The literal at the head of `u`, quoted or numeric: its value and its length. */
  function LiteralAt(u: string): (r: Option<(string, nat)>)
    ensures r.Some? ==> 0 < r.value.1 <= |u|
  {
    if u != "" && u[0] == '"' then
      var m := Span(NotQuote, u[1..]);
      if m == |u| - 1 then None else Some((u[1..m + 1], m + 2))
    else
      var d := Span(IsDigit, u);
      if d == 0 then None else Some((u[..d], d))
  }

  /** `([a-zA-Z_]\w*)\s*=\s*("[^"]*"|\d+)\s*\n`: the field, and what is left. */
  function FieldTest(name: string, u: string): (r: Option<(ModuleField, string)>)
    ensures r.Some? ==> |r.value.1| <= |u|
  {
    if !StartsIdent(name) then None
    else match LiteralAt(u)
      case None => None
      case Some((v, len)) =>
        var e := AfterLastNewline(u[len..]);
        if e == 0 then None else Some((ModuleField(name, v), u[len..][e..]))
  }

  predicate IsField(name: string, u: string) { FieldTest(name, u).Some? }

  /** `re.finditer` over `s`. */
  function Fields(boundary: bool, s: string): seq<ModuleField>
    decreases |s|
  {
    match Search(boundary, s, IsField)
    case None => []
    case Some((name, u)) =>
      var (f, rest) := FieldTest(name, u).value;
      [f] + Fields(true, rest)
  }

  /** The loop over the matches. */
  method CollectFields(body: string) returns (fields: seq<ModuleField>)
    ensures fields == Fields(true, body)
  {
    fields := [];
    var s := body;
    var m := Search(true, s, IsField);
    while m != None
      invariant m == Search(true, s, IsField)
      invariant fields + Fields(true, s) == Fields(true, body)
      decreases |s|
    {
      var (name, u) := m.value;
      var (f, rest) := FieldTest(name, u).value;
      assert Fields(true, s) == [f] + Fields(true, rest);
      fields := fields + [f];
      s := rest;
      m := Search(true, s, IsField);
    }
  }

  /** `_parse_module_literal_block`. */
  method ParseLiteralBlock(t: string, key: string) returns (fields: seq<ModuleField>)
    ensures fields == match Body(t, key) case None => [] case Some(b) => Fields(true, b)
  {
    var body := ExtractModuleBody(t, key);
    if body == None {
      return [];
    }
    fields := CollectFields(body.value);
  }

  /** The value a dict comprehension over the fields keeps: the last one. */
  function LastValue(fields: seq<ModuleField>, name: string): Option<string> {
    if fields == [] then None
    else
      var f := fields[|fields| - 1];
      if f.name == name then Some(f.value) else LastValue(fields[..|fields| - 1], name)
  }

  /** The last field of that name has that value. */
  ghost predicate LastNamed(fields: seq<ModuleField>, name: string, value: string) {
    exists i | 0 <= i < |fields| :: fields[i] == ModuleField(name, value) && forall j | i < j < |fields| :: fields[j].name != name
  }

  lemma {:induction false} LastValueIs(fields: seq<ModuleField>, name: string)
    ensures match LastValue(fields, name)
            case Some(v) => LastNamed(fields, name, v)
            case None => forall i | 0 <= i < |fields| :: fields[i].name != name
    decreases |fields|
  {
    if fields != [] {
      var n := |fields| - 1;
      var init := fields[..n];
      assert forall i | 0 <= i < n :: fields[i] == init[i];
      if fields[n].name == name {
        assert fields[n] == ModuleField(name, fields[n].value);
      } else {
        LastValueIs(init, name);
        if LastValue(fields, name).Some? {
          var v := LastValue(fields, name).value;
          hide LastValue;
          var i :| 0 <= i < n && init[i] == ModuleField(name, v) && forall j | i < j < n :: init[j].name != name;
          assert fields[i] == ModuleField(name, v);
        }
      }
    }
  }

  // ----- nested counts -----

  /** `\b<child>\s*=\s*\{`. */
  function OpensChild(child: string): (string, string) -> bool {
    (name: string, u: string) => name == child && u != "" && u[0] == '{'
  }

  /** `\bcount\s*=\s*(\d+)`. */
  predicate IsCount(name: string, u: string) {
    name == "count" && Span(IsDigit, u) > 0
  }

  function LeadingNumber(u: string): nat {
    DigitsToNat(u[..Span(IsDigit, u)])
  }

  /** Brace depth in front of `j`, counting every brace, for a text that starts
      right after an opening brace. */
  ghost function RawDepth(u: string, j: nat): int
    requires j <= |u|
  {
    if j == 0 then 1 else RawDepth(u, j - 1) + Weight(u[j - 1])
  }

  ghost predicate IsRawClose(u: string, k: nat) {
    k < |u| && RawDepth(u, k + 1) == 0 && forall j | 0 <= j <= k :: RawDepth(u, j) > 0
  }

  lemma {:induction false} RawCloseUnique(u: string, k: nat, k': nat)
    requires IsRawClose(u, k) && IsRawClose(u, k')
    ensures k == k'
  {
  }

  /** The slice the nested scan takes: up to the matching brace, or all but the
      last character when it runs off the end. */
  ghost function ChildInner(u: string): string {
    if exists k: nat :: IsRawClose(u, k) then
      var k: nat :| IsRawClose(u, k);
      u[..k]
    else if u == "" then "" else u[..|u| - 1]
  }

  lemma {:induction false} ChildInnerIs(u: string, k: nat)
    requires IsRawClose(u, k)
    ensures ChildInner(u) == u[..k]
  {
    forall k': nat | IsRawClose(u, k') ensures k' == k { RawCloseUnique(u, k, k'); }
  }

  /** The count in the text of a child block. */
  function CountIn(inner: string): nat {
    match Search(true, inner, IsCount)
    case None => 1
    case Some((_, u)) => LeadingNumber(u)
  }

  ghost function NestedCount(t: string, key: string, child: string): nat {
    match Body(t, key)
    case None => 1
    case Some(body) =>
      match Search(true, body, OpensChild(child))
      case None => 1
      case Some((_, u)) => CountIn(ChildInner(u[1..]))
  }

  /** The brace loop of `_parse_nested_count`, from just after the child's brace;
      `closed` says whether depth came to zero. */
  method ScanChild(u: string) returns (inner: string, ghost closed: bool)
    ensures inner == ChildInner(u)
    ensures closed <==> exists k: nat :: IsRawClose(u, k)
  {
    var depth, j := 1, 0;
    while j < |u| && depth > 0
      invariant 0 <= j <= |u|
      invariant depth == RawDepth(u, j) >= 0
      invariant forall i | 0 <= i < j :: RawDepth(u, i) > 0
      invariant depth == 0 ==> j > 0
    {
      var c := u[j];
      if c == '{' {
        depth := depth + 1;
      } else if c == '}' {
        depth := depth - 1;
      }
      j := j + 1;
    }
    closed := depth == 0;
    if closed {
      assert IsRawClose(u, j - 1);
      ChildInnerIs(u, j - 1);
    }
    inner := if j == 0 then "" else u[..j - 1];
  }

  /** `_parse_nested_count`. */
  method ParseNestedCount(t: string, key: string, child: string) returns (n: nat)
    ensures n == NestedCount(t, key, child)
  {
    var body := ExtractModuleBody(t, key);
    if body == None || body.value == "" {
      return 1;
    }
    var m := Search(true, body.value, OpensChild(child));
    if m == None {
      return 1;
    }
    var inner, _ := ScanChild(m.value.1[1..]);
    return CountIn(inner);
  }

  // ----- the nested scan inside the body -----

  ghost predicate IsSuffix(u: string, s: string) {
    |u| <= |s| && u == s[|s| - |u|..]
  }

  lemma {:induction false} DropIsSuffix(s: string, n: nat)
    requires n <= |s|
    ensures IsSuffix(s[n..], s)
  {
  }

  lemma {:induction false} SuffixOfSuffix(u: string, v: string, s: string)
    requires IsSuffix(u, v) && IsSuffix(v, s)
    ensures IsSuffix(u, s)
  {
  }

  lemma {:induction false} AfterEqualsSuffix(s: string)
    requires AfterEquals(s).Some?
    ensures IsSuffix(AfterEquals(s).value, s)
  {
    var n := Span(IsSpace, s);
    var v := s[n..][1..];
    DropIsSuffix(s, n);
    DropIsSuffix(s[n..], 1);
    SuffixOfSuffix(v, s[n..], s);
    DropIsSuffix(v, Span(IsSpace, v));
    SuffixOfSuffix(AfterEquals(s).value, v, s);
  }

  /** The count is 1 where there is no body, no child in it, or no count behind the
      child's brace. */
  lemma {:induction false} CountDefaults(t: string, key: string, child: string)
    ensures Body(t, key) == None ==> NestedCount(t, key, child) == 1
    ensures Body(t, key).Some? && Search(true, Body(t, key).value, OpensChild(child)) == None ==> NestedCount(t, key, child) == 1
    ensures Body(t, key).Some? && Search(true, Body(t, key).value, OpensChild(child)).Some? &&
            Search(true, ChildInner(Search(true, Body(t, key).value, OpensChild(child)).value.1[1..]), IsCount) == None ==>
            NestedCount(t, key, child) == 1
  {
    hide Body, Search, ChildInner;
  }

  /** What is left behind a found assignment is the end of the text searched. */
  lemma {:induction false} SearchSuffix(boundary: bool, s: string, accept: (string, string) -> bool)
    requires Search(boundary, s, accept).Some?
    ensures IsSuffix(Search(boundary, s, accept).value.1, s)
    decreases |s|
  {
    hide AfterEquals, IsSuffix;
    var u := Search(boundary, s, accept).value.1;
    var m := if boundary then AssignAt(s) else None;
    if m.Some? && accept(m.value.0, m.value.1) {
      var n := Span(IsWord, s);
      AfterEqualsSuffix(s[n..]);
      DropIsSuffix(s, n);
      SuffixOfSuffix(u, s[n..], s);
    } else {
      SearchSuffix(!IsWord(s[0]), s[1..], accept);
      DropIsSuffix(s, 1);
      SuffixOfSuffix(u, s[1..], s);
    }
  }

  lemma {:induction false} NestedCountIs(t: string, key: string, child: string, body: string, u: string)
    requires Body(t, key) == Some(body) && Search(true, body, OpensChild(child)) == Some((child, u))
    requires u != ""
    ensures NestedCount(t, key, child) == CountIn(ChildInner(u[1..]))
  {
    hide Body, Search, CountIn, ChildInner;
  }

  /** The scan from a brace on that stands at the head of an end of the body. */
  lemma {:induction false} SuffixCloses(t: string, h: nat, k: nat, u: string) returns (p: nat, c: nat)
    requires 0 < h && IsClose(t, h, k) && IsSuffix(u, t[h..k]) && u != "" && u[0] == '{'
    requires forall i | h <= i < k && t[i] in {'{', '}'} :: ModeAt(t, h, i) == Code
    ensures h <= p < c < k && t[p] == '{' && t[c] == '}' && u == t[p..k]
    ensures Depth(t, h, c + 1) == Depth(t, h, p) && forall i | p < i <= c :: Depth(t, h, i) > Depth(t, h, p)
    ensures ChildInner(u[1..]) == t[p + 1..c]
  {
    p := k - |u|;
    assert t[h..k][|t[h..k]| - |u|..] == t[p..k];
    c := NestedScanCloses(t, h, k, p);
    hide Depth, ModeAt, RawDepth, ChildInner, IsClose, IsRawClose;
    assert u[1..] == t[p + 1..k];
  }

  /** The nested count closes within bounds. If no brace of the body stands in a
      string or a comment, then for a child that is found, the scan starts behind its
      opening brace at `p`, ends at the matching brace at `c` inside the body, and the
      count is the one in the text between the two. */
  lemma {:induction false} NestedCountCloses(t: string, key: string, child: string, h: nat, k: nat) returns (p: nat, c: nat)
    requires Header(t, key) == Some(h) && 0 < h && IsClose(t, h, k)
    requires forall i | h <= i < k && t[i] in {'{', '}'} :: ModeAt(t, h, i) == Code
    requires Search(true, t[h..k], OpensChild(child)).Some?
    ensures h <= p < c < k && t[p] == '{' && t[c] == '}'
    ensures Search(true, t[h..k], OpensChild(child)) == Some((child, t[p..k]))
    ensures Depth(t, h, c + 1) == Depth(t, h, p) && forall i | p < i <= c :: Depth(t, h, i) > Depth(t, h, p)
    ensures NestedCount(t, key, child) == CountIn(t[p + 1..c])
  {
    BodyIs(t, key, h, k);
    SearchSuffix(true, t[h..k], OpensChild(child));
    var (name, u) := Search(true, t[h..k], OpensChild(child)).value;
    assert name == child && u != "" && u[0] == '{';
    hide Search, Depth, ModeAt, Body, Header, NestedCount, CountIn, ChildInner, IsSuffix, OpensChild;
    p, c := SuffixCloses(t, h, k, u);
    hide IsClose;
    NestedCountIs(t, key, child, t[h..k], u);
  }

  /** The nested scan stays inside: if no brace of the body stands in a string or
      a comment, every opening brace of the body has its match in the body, and the
      slice the nested scan takes is the block between the two. */
  lemma {:induction false} NestedScanCloses(t: string, h: nat, k: nat, p: nat) returns (c: nat)
    requires 0 < h && IsClose(t, h, k) && h <= p < k && t[p] == '{'
    requires forall i | h <= i < k && t[i] in {'{', '}'} :: ModeAt(t, h, i) == Code
    ensures p < c < k && t[c] == '}'
    ensures Depth(t, h, c + 1) == Depth(t, h, p) && forall i | p < i <= c :: Depth(t, h, i) > Depth(t, h, p)
    ensures IsRawClose(t[p + 1..k], c - p - 1)
    ensures ChildInner(t[p + 1..k]) == t[p + 1..c]
  {
    var u := t[p + 1..k];
    var j := RawCloseInside(t, h, k, p);
    c := p + 1 + j;
    hide Depth, ModeAt, IsClose;
    ChildInnerIs(u, j);
    hide ChildInner;
    assert u[..j] == t[p + 1..c] && u[j] == t[c];
    forall i | p < i <= c ensures Depth(t, h, i) > Depth(t, h, p) {
      assert RawDepth(u, i - p - 1) > 0;
    }
    assert RawDepth(u, j + 1) == RawDepth(u, j) + Weight(u[j]);
  }

  lemma {:induction false} RawCloseInside(t: string, h: nat, k: nat, p: nat) returns (j: nat)
    requires 0 < h && IsClose(t, h, k) && h <= p < k && t[p] == '{'
    requires forall i | h <= i < k && t[i] in {'{', '}'} :: ModeAt(t, h, i) == Code
    ensures IsRawClose(t[p + 1..k], j) && j < k - p - 1
    ensures forall q | p < q <= k :: RawDepth(t[p + 1..k], q - p - 1) == Depth(t, h, q) - Depth(t, h, p)
  {
    var u := t[p + 1..k];
    assert Above(t, h, p, 1) && Above(t, h, k, 1) && Depth(t, h, k) == 1;
    assert Depth(t, h, p + 1) == Depth(t, h, p) + 1;
    hide Depth, ModeAt;
    forall q | p < q <= k ensures RawDepth(u, q - p - 1) == Depth(t, h, q) - Depth(t, h, p) {
      RawIsCodeDepth(t, h, k, p, q - p - 1);
    }
    hide IsRawClose;
    j := FirstZero(u, |u|);
  }

  lemma {:induction false} RawIsCodeDepth(t: string, h: nat, k: nat, p: nat, j: nat)
    requires 0 < h <= p < k <= |t| && p + 1 + j <= k
    requires forall i | h <= i < k && t[i] in {'{', '}'} :: ModeAt(t, h, i) == Code
    ensures RawDepth(t[p + 1..k], j) == 1 + Depth(t, h, p + 1 + j) - Depth(t, h, p + 1)
    decreases j
  {
    if j > 0 {
      RawIsCodeDepth(t, h, k, p, j - 1);
      assert t[p + 1..k][j - 1] == t[p + j];
    }
  }

  /** Depth moves by one step at a time, so it meets zero on its way below. */
  lemma {:induction false} FirstZero(u: string, n: nat) returns (j: nat)
    requires n <= |u| && RawDepth(u, n) <= 0
    ensures j < n && IsRawClose(u, j)
    decreases n
  {
    if m: nat :| m < n && RawDepth(u, m) <= 0 {
      j := FirstZero(u, m);
    } else {
      j := n - 1;
    }
  }
}
