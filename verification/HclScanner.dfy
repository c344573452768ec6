/** The hand-written brace scanner over `main.tf`. */
module HclScanner {
  import opened Text

  // ----- the fixed patterns, as matchers -----

  predicate At(t: string, i: nat, lit: string) {
    i + |lit| <= |t| && t[i..i + |lit|] == lit
  }

  /** `\b` in front of a word character. */
  predicate Boundary(t: string, p: nat)
    requires p <= |t|
  {
    p == 0 || !IsWord(t[p - 1])
  }

  function SkipSpace(t: string, i: nat): (j: nat)
    requires i <= |t|
    ensures i <= j <= |t|
    ensures forall k | i <= k < j :: IsSpace(t[k])
    ensures j < |t| ==> !IsSpace(t[j])
    decreases |t| - i
  {
    if i < |t| && IsSpace(t[i]) then SkipSpace(t, i + 1) else i
  }

  /** The opening `module "` at `p`: the position after the quote. */
  function ModuleWordAt(t: string, p: nat): (r: Option<nat>)
    requires p <= |t|
    ensures r.Some? ==> p < r.value <= |t|
  {
    if !Boundary(t, p) || !At(t, p, "module") then None
    else
      var q := SkipSpace(t, p + 6);
      if q == p + 6 || q == |t| || t[q] != '"' then None else Some(q + 1)
  }

  /** The rest of a module header after the quoted name: the position after `{`. */
  function OpenBraceAt(t: string, q: nat): (r: Option<nat>)
    requires q <= |t|
    ensures r.Some? ==> q < r.value <= |t|
  {
    var b := SkipSpace(t, q);
    if b < |t| && t[b] == '{' then Some(b + 1) else None
  }

  /** `\bmodule\s+"<key>"\s*\{` at `p`: the position after the brace. */
  function HeaderAt(t: string, p: nat, key: string): (r: Option<nat>)
    requires p <= |t|
    ensures r.Some? ==> p < r.value <= |t|
  {
    match ModuleWordAt(t, p)
    case None => None
    case Some(q) => if At(t, q, key + "\"") then OpenBraceAt(t, q + |key| + 1) else None
  }

  /** The first of the positions `p..n` that `f` accepts. */
  function FirstAt(f: nat -> bool, p: nat, n: nat): (r: Option<nat>)
    requires p <= n
    ensures r.Some? ==> p <= r.value <= n && f(r.value)
    decreases n - p
  {
    if f(p) then Some(p) else if p == n then None else FirstAt(f, p + 1, n)
  }

  lemma {:induction false} FirstAtIs(f: nat -> bool, p: nat, q: nat, n: nat)
    requires p <= q <= n && f(q)
    requires forall i: nat | p <= i < q :: !f(i)
    ensures FirstAt(f, p, n) == Some(q)
    decreases q - p
  {
    if p < q { FirstAtIs(f, p + 1, q, n); }
  }

  function IsHeader(t: string, key: string): nat -> bool {
    (p: nat) => p <= |t| && HeaderAt(t, p, key).Some?
  }

  /** `re.search` for the header. */
  function Header(t: string, key: string): (r: Option<nat>)
    ensures r.Some? ==> 0 < r.value <= |t|
  {
    match FirstAt(IsHeader(t, key), 0, |t|)
    case None => None
    case Some(p) => HeaderAt(t, p, key)
  }

  // ----- declarative depth -----

  datatype Mode = Code | Str | Comment

  /** How the character after `c` is read, when `c` is read in mode `m` and
      `prev` stands before it. A comment starts at a `#` in column 0 and runs to
      the end of the line; a quote after a backslash does not end a string. */
  function After(m: Mode, prev: char, c: char): Mode {
    match m
    case Code => if c == '#' && prev == '\n' then Comment else if c == '"' then Str else Code
    case Str => if c == '"' && prev != '\\' then Code else Str
    case Comment => if c == '\n' then Code else Comment
  }

  /** The mode in which the character at `i` is read, for a body starting at `h`. */
  ghost function ModeAt(t: string, h: nat, i: nat): Mode
    requires 0 < h <= i <= |t|
  {
    if i == h then Code
    else After(ModeAt(t, h, i - 1), t[i - 2], t[i - 1])
  }

  function Weight(c: char): int {
    if c == '{' then 1 else if c == '}' then -1 else 0
  }

  /** Brace depth in front of position `i`: only braces read as code count. */
  ghost function Depth(t: string, h: nat, i: nat): int
    requires 0 < h <= i <= |t|
  {
    if i == h then 1
    else Depth(t, h, i - 1) + if ModeAt(t, h, i - 1) == Code then Weight(t[i - 1]) else 0
  }

  ghost predicate Above(t: string, h: nat, i: nat, d: int)
    requires 0 < h <= i <= |t|
  {
    Depth(t, h, i) >= d
  }

  /** `k` is the closing brace: the first position after which depth is zero. */
  ghost predicate IsClose(t: string, h: nat, k: nat)
    requires 0 < h
  {
    h <= k < |t| && Depth(t, h, k + 1) == 0 && forall j | h <= j <= k :: Above(t, h, j, 1)
  }

  /** The first position from `i` on at which depth is not positive. */
  ghost function EndFrom(t: string, h: nat, i: nat): (r: Option<nat>)
    requires 0 < h <= i <= |t|
    ensures r.Some? ==> i <= r.value <= |t|
    decreases |t| - i
  {
    if Depth(t, h, i) <= 0 then Some(i) else if i == |t| then None else EndFrom(t, h, i + 1)
  }

  /** The body of the module: the text up to its closing brace. */
  ghost function Body(t: string, key: string): Option<string> {
    match Header(t, key)
    case None => None
    case Some(h) =>
      match EndFrom(t, h, h)
      case None => None
      case Some(end) => if h < end then Some(t[h..end - 1]) else None
  }

  lemma {:induction false} EndFromClose(t: string, h: nat, i: nat, k: nat)
    requires 0 < h <= i <= k + 1 && IsClose(t, h, k)
    ensures EndFrom(t, h, i) == Some(k + 1)
    decreases k + 1 - i
  {
    if i <= k {
      assert Above(t, h, i, 1);
      EndFromClose(t, h, i + 1, k);
    }
  }

  lemma {:induction false} EndFromOpen(t: string, h: nat, i: nat)
    requires 0 < h <= i <= |t|
    requires forall k | i <= k <= |t| :: Above(t, h, k, 1)
    ensures EndFrom(t, h, i) == None
    decreases |t| - i
  {
    assert Above(t, h, i, 1);
    if i < |t| { EndFromOpen(t, h, i + 1); }
  }

  lemma {:induction false} BodyIs(t: string, key: string, h: nat, k: nat)
    requires Header(t, key) == Some(h) && 0 < h && IsClose(t, h, k)
    ensures Body(t, key) == Some(t[h..k])
  {
    EndFromClose(t, h, h, k);
  }

  /** Skipping a column-0 comment leaves mode and depth as a character-by-character
      reading would. */
  lemma {:induction false} SkipComment(t: string, h: nat, i: nat, j: nat)
    requires 0 < h <= i < j <= |t|
    requires ModeAt(t, h, i) == Code && t[i] == '#' && t[i - 1] == '\n'
    requires forall k | i <= k < j :: t[k] != '\n'
    ensures ModeAt(t, h, j) == Comment
    ensures forall k | i <= k <= j :: Depth(t, h, k) == Depth(t, h, i)
    ensures j < |t| && t[j] == '\n' ==> ModeAt(t, h, j + 1) == Code && Depth(t, h, j + 1) == Depth(t, h, i)
    decreases j
  {
    if j > i + 1 { SkipComment(t, h, i, j - 1); }
    assert ModeAt(t, h, j) == Comment && Depth(t, h, j) == Depth(t, h, i);
  }

  /** The scanning loop: the position after the closing brace, or None. */
  method ScanBody(t: string, h: nat) returns (r: Option<nat>)
    requires 0 < h <= |t|
    ensures r.Some? ==> r.value > 0 && IsClose(t, h, r.value - 1)
    ensures r.None? ==> forall k | h <= k <= |t| :: Above(t, h, k, 1)
  {
    var i, depth, inString := h, 1, false;
    while i < |t| && depth > 0
      invariant h <= i <= |t|
      invariant ModeAt(t, h, i) == if inString then Str else Code
      invariant depth == Depth(t, h, i) >= 0
      invariant forall j | h <= j < i :: Above(t, h, j, 1)
      invariant depth == 0 ==> h < i
      decreases |t| - i
    {
      var c := t[i];
      if !inString && c == '#' && (i == 0 || t[i - 1] == '\n') {
        var j := Find(t, '\n', i);
        SkipComment(t, h, i, if j == -1 then |t| else j);
        if j == -1 {
          return None;
        }
        i := j + 1;
        continue;
      }
      if !inString && c == '"' {
        inString := true;
      } else if inString && c == '"' && t[i - 1] != '\\' {
        inString := false;
      } else if !inString && c == '{' {
        depth := depth + 1;
      } else if !inString && c == '}' {
        depth := depth - 1;
      }
      i := i + 1;
    }
    return if depth != 0 then None else Some(i);
  }

  /** `_extract_module_body`. */
  method ExtractModuleBody(t: string, key: string) returns (r: Option<string>)
    ensures r == Body(t, key)
  {
    var header := Header(t, key);
    if header == None {
      return None;
    }
    var end := ScanBody(t, header.value);
    if end == None {
      EndFromOpen(t, header.value, header.value);
      return None;
    }
    BodyIs(t, key, header.value, end.value - 1);
    return Some(t[header.value..end.value - 1]);
  }

  /** The body is the text between the header's brace and the first position where
      depth is zero; there is none exactly when there is no header or depth stays
      positive to the end. */
  lemma {:induction false} BodyExact(t: string, key: string)
    ensures Header(t, key) == None ==> Body(t, key) == None
    ensures Header(t, key).Some? ==>
              var h := Header(t, key).value;
              if forall k | h <= k <= |t| :: Above(t, h, k, 1) then Body(t, key) == None
              else exists k: nat :: IsClose(t, h, k) && Body(t, key) == Some(t[h..k])
  {
    var header := Header(t, key);
    if header.Some? {
      var h := header.value;
      if k: nat :| h <= k <= |t| && !Above(t, h, k, 1) {
        var c := FirstClose(t, h, k);
        BodyIs(t, key, h, c);
      } else {
        EndFromOpen(t, h, h);
      }
    }
  }

  /** Depth moves by one step at a time, so it meets zero before going below. */
  lemma {:induction false} FirstClose(t: string, h: nat, k: nat) returns (c: nat)
    requires 0 < h <= k <= |t| && !Above(t, h, k, 1)
    ensures IsClose(t, h, c)
    decreases k
  {
    if m: nat :| h <= m < k && !Above(t, h, m, 1) {
      c := FirstClose(t, h, m);
    } else {
      assert k > h by { assert Depth(t, h, h) == 1; }
      assert Above(t, h, k - 1, 1);
      c := k - 1;
    }
  }
}
