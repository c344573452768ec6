/** Loading a `.env` file into the environment. */
module EnvFile {
  import opened Text

  predicate IsQuoteChar(c: char) { c == '\'' || c == '"' }

  /** `value[1:-1]` where both ends are quotes; a lone quote becomes empty. */
  function Unquote(v: string): string {
    if v != "" && IsQuoteChar(v[0]) && IsQuoteChar(v[|v| - 1]) then
      if |v| < 2 then "" else v[1..|v| - 1]
    else v
  }

  /** The assignment a line makes, if any: not blank, no comment, with an `=`. */
  function Assignment(raw: string): Option<(string, string)> {
    var line := Strip(raw);
    var j := Find(line, '=', 0);
    if line == "" || line[0] == '#' || j == -1 then None
    else Some((Strip(line[..j]), Unquote(Strip(line[j + 1..]))))
  }

  ghost predicate Trimmed(s: string) { s != "" ==> !IsSpace(s[0]) && !IsSpace(s[|s| - 1]) }

  predicate Quoted(v: string) { |v| >= 2 && v[0] in {'\'', '"'} && v[|v| - 1] in {'\'', '"'} }

  lemma {:induction false} SignInk(c: char)
    requires c == '='
    ensures !IsSpace(c)
  {
  }

  /** A line makes the assignment of what is around its first `=`, without outer space, and
      without the quotes if there are some at both ends, be they the same or not; it makes
      none if it is blank, a comment, or has no `=`. */
  lemma {:induction false} AssignmentExactly(a: string, key: string, b: string, c: string, body: string, d: string)
    requires IsBlank(a) && IsBlank(b) && IsBlank(c) && IsBlank(d) && Trimmed(key) && Trimmed(body)
    requires (key == "" ==> b == "") && (body == "" ==> c == "")
    requires '=' !in key && (key != "" ==> key[0] != '#')
    ensures Assignment(a + (key + (b + ("=" + (c + body)))) + d) ==
            Some((key, if Quoted(body) then body[1..|body| - 1] else if body in {"'", "\""} then "" else body))
  {
    hide IsSpace, Strip, Assignment;
    SignInk('=');
    var left, right := key + b, c + body;
    var line := key + (b + ("=" + (c + body)));
    LineParts(key, b, right);
    assert line[|line| - 1] == if body == "" then '=' else body[|body| - 1];
    StripOf(a, line, d);
    assert "" + key + b == left && c + body + "" == right;
    StripOf("", key, b);
    StripOf(c, body, "");
    AssignmentOfLine(a + line + d, left, right);
    UnquoteExactly(body);
  }

  lemma {:induction false} UnquoteExactly(body: string)
    ensures Unquote(body) == if Quoted(body) then body[1..|body| - 1] else if body in {"'", "\""} then "" else body
  {
    if |body| == 1 { assert body == [body[0]]; }
  }

  lemma {:induction false} LineParts(key: string, b: string, right: string)
    requires '=' !in key && IsBlank(b) && (key == "" ==> b == "")
    ensures '=' !in key + b
    ensures var line := key + (b + ("=" + right));
      line == key + b + ['='] + right && line[0] == if key == "" then '=' else key[0]
  {
    SignInk('=');
    hide IsSpace;
  }

  lemma {:induction false} AssignmentOfLine(raw: string, left: string, right: string)
    requires Strip(raw) == left + ['='] + right && '=' !in left && (left != "" ==> left[0] != '#')
    ensures Assignment(raw) == Some((Strip(left), Unquote(Strip(right))))
  {
    hide Strip, Unquote;
    var line := left + ['='] + right;
    FindAt(left, '=', right);
    assert line[0] == if left == "" then '=' else left[0];
    assert line[..|left|] == left && line[|left| + 1..] == right;
  }

  lemma {:induction false} NoAssignmentExactly(raw: string)
    ensures Assignment(raw) == None <==> Strip(raw) == "" || Strip(raw)[0] == '#' || '=' !in Strip(raw)
  {
    hide Strip;
  }

  /** What the operating system accepts as a new environment entry. */
  predicate Settable(kv: (string, string)) {
    kv.0 != "" && '\0' !in kv.0 && '\0' !in kv.1
  }

  type Environ = map<string, string>

  datatype Loaded = Loaded(env: Environ, count: nat, ok: bool)

  /** The lines from the `i`-th on. `setdefault` writes only absent keys; writing an
      entry the system refuses raises and ends the load. */
  function LoadFrom(lines: seq<string>, i: nat, env: Environ, count: nat): Loaded
    requires i <= |lines|
    decreases |lines| - i
  {
    if i == |lines| then Loaded(env, count, true)
    else match Assignment(lines[i])
      case None => LoadFrom(lines, i + 1, env, count)
      case Some(kv) =>
        if kv.0 in env then LoadFrom(lines, i + 1, env, count + 1)
        else if !Settable(kv) then Loaded(env, count, false)
        else LoadFrom(lines, i + 1, env[kv.0 := kv.1], count + 1)
  }

  class Process {
    var environ: Environ

    constructor (environ: Environ)
      ensures this.environ == environ
    {
      this.environ := environ;
    }

    /** `_load_env_file`; None for a missing file. */
    method LoadEnvFile(text: Option<string>) returns (count: nat, ok: bool)
      modifies this
      ensures text == None ==> environ == old(environ) && count == 0 && ok
      ensures text.Some? ==> Loaded(environ, count, ok) == LoadFrom(SplitLines(text.value), 0, old(environ), 0)
    {
      count, ok := 0, true;
      if text == None {
        return;
      }
      var lines := SplitLines(text.value);
      for i := 0 to |lines|
        invariant ok && LoadFrom(lines, i, environ, count) == LoadFrom(lines, 0, old(environ), 0)
      {
        var line := Strip(lines[i]);
        if line == "" || line[0] == '#' {
          continue;
        }
        var j := Find(line, '=', 0);
        if j == -1 {
          continue;
        }
        var key, value := Strip(line[..j]), Strip(line[j + 1..]);
        if value != "" && IsQuoteChar(value[0]) && IsQuoteChar(value[|value| - 1]) {
          value := if |value| < 2 then "" else value[1..|value| - 1];
        }
        if key !in environ {
          if !Settable((key, value)) {
            ok := false;
            return;
          }
          environ := environ[key := value];
        }
        count := count + 1;
      }
    }
  }

  // ----- what loading means -----

  /** The first assignment of a key among the lines. */
  function FirstValue(lines: seq<string>, i: nat, key: string): Option<string>
    requires i <= |lines|
    decreases |lines| - i
  {
    if i == |lines| then None
    else match Assignment(lines[i])
      case Some(kv) => if kv.0 == key then Some(kv.1) else FirstValue(lines, i + 1, key)
      case None => FirstValue(lines, i + 1, key)
  }

  /** For every text that loads: a key that was set keeps its value, any other ends
      with its first value in the file, and nothing else appears. */
  lemma {:induction false} LoadMeans(lines: seq<string>, i: nat, env: Environ, count: nat, key: string)
    requires i <= |lines| && LoadFrom(lines, i, env, count).ok
    ensures var after := LoadFrom(lines, i, env, count).env;
      if key in env then key in after && after[key] == env[key]
      else match FirstValue(lines, i, key)
        case None => key !in after
        case Some(v) => key in after && after[key] == v
    decreases |lines| - i
  {
    hide Assignment;
    if i < |lines| {
      match Assignment(lines[i])
      case None => LoadMeans(lines, i + 1, env, count, key);
      case Some(kv) =>
        if kv.0 in env {
          LoadMeans(lines, i + 1, env, count + 1, key);
        } else {
          LoadMeans(lines, i + 1, env[kv.0 := kv.1], count + 1, key);
        }
    }
  }

  /** The first value of the key in the file, if there is one, is one the system takes
      for it: the key is not empty, and there is no NUL in either. */
  ghost predicate FirstIsTaken(lines: seq<string>, i: nat, key: string)
    requires i <= |lines|
  {
    var v := FirstValue(lines, i, key);
    v.Some? ==> key != "" && '\0' !in key && '\0' !in v.value
  }

  /** A load goes through to the end exactly if, of every key that is not set yet, the
      first value in the file is one the system takes; then each assignment counts. */
  lemma {:induction false} LoadsExactly(lines: seq<string>, i: nat, env: Environ, count: nat)
    requires i <= |lines|
    ensures var r := LoadFrom(lines, i, env, count);
      && (r.ok <==> forall key | key !in env :: FirstIsTaken(lines, i, key))
      && (r.ok ==> r.count == count + |set k | i <= k < |lines| && Assignment(lines[k]).Some?|)
    decreases |lines| - i
  {
    hide Assignment;
    var here := set k | i <= k < |lines| && Assignment(lines[k]).Some?;
    if i < |lines| {
      var rest := set k | i + 1 <= k < |lines| && Assignment(lines[k]).Some?;
      match Assignment(lines[i])
      case None =>
        assert here == rest;
        LoadsExactly(lines, i + 1, env, count);
        assert forall key :: FirstIsTaken(lines, i, key) <==> FirstIsTaken(lines, i + 1, key);
      case Some(kv) =>
        assert here == rest + {i} && i !in rest;
        forall key ensures FirstIsTaken(lines, i, key) <==> if key == kv.0 then Settable(kv) else FirstIsTaken(lines, i + 1, key) { }
        hide FirstIsTaken, Settable;
        if kv.0 in env {
          LoadsExactly(lines, i + 1, env, count + 1);
        } else if Settable(kv) {
          LoadsExactly(lines, i + 1, env[kv.0 := kv.1], count + 1);
        }
    } else {
      assert here == {};
    }
  }

  // ----- the written form -----

  /** A line of a written file: an assignment, or noise. */
  datatype Line = Set(key: string, value: string) | Noise(text: string)

  function LineText(l: Line): string {
    match l
    case Set(k, v) => k + "='" + v + "'"
    case Noise(t) => t
  }

  function LineTexts(ls: seq<Line>): (r: seq<string>)
    ensures |r| == |ls|
  {
    seq(|ls|, i requires 0 <= i < |ls| => LineText(ls[i]))
  }

  /** Keys are not blank, hold no `=`, do not start like a comment and have no outer
      space; values are any text on one line. Noise is blank, a comment, or has no `=`. */
  predicate ValidLine(l: Line) {
    match l
    case Set(k, v) =>
      && k != "" && !IsSpace(k[0]) && !IsSpace(k[|k| - 1]) && k[0] != '#' && '=' !in k
      && (forall i | 0 <= i < |k| :: !IsLineBreak(k[i])) && (forall i | 0 <= i < |v| :: !IsLineBreak(v[i]))
      && '\0' !in k && '\0' !in v
    case Noise(t) =>
      && (forall i | 0 <= i < |t| :: !IsLineBreak(t[i]))
      && (Strip(t) == "" || Strip(t)[0] == '#' || '=' !in Strip(t))
  }

  lemma {:induction false} NoFind(s: string, c: char)
    requires c !in s
    ensures Find(s, c, 0) == -1
  {
  }

  /** A written line makes exactly its assignment, whatever the value holds. */
  lemma {:induction false} LineRead(l: Line)
    requires ValidLine(l)
    ensures Assignment(LineText(l)) == match l case Set(k, v) => Some((k, v)) case Noise(_) => None
  {
    hide IsSpace;
    match l
    case Noise(t) =>
      if '=' !in Strip(t) { NoFind(Strip(t), '='); }
    case Set(k, v) =>
      var q := "'" + v + "'";
      var line := k + "='" + v + "'";
      QuoteEnds(v);
      assert line == k + ['='] + q;
      assert line[0] == k[0] && line[|line| - 1] == q[|q| - 1];
      StripIdentity(line);
      FindAt(k, '=', q);
      assert line[..|k|] == k && line[|k| + 1..] == q;
      StripIdentity(k);
      StripIdentity(q);
      assert q[1..|q| - 1] == v;
  }

  lemma {:induction false} QuoteEnds(v: string)
    ensures var q := "'" + v + "'"; q[0] == '\'' && q[|q| - 1] == '\'' && !IsSpace(q[0]) && !IsSpace(q[|q| - 1])
  {
  }

  /** The first value written for a key. */
  function FirstWritten(ls: seq<Line>, i: nat, key: string): Option<string>
    requires i <= |ls|
    decreases |ls| - i
  {
    if i == |ls| then None
    else if ls[i].Set? && ls[i].key == key then Some(ls[i].value)
    else FirstWritten(ls, i + 1, key)
  }

  function CountSets(ls: seq<Line>, i: nat): nat
    requires i <= |ls|
    decreases |ls| - i
  {
    if i == |ls| then 0 else (if ls[i].Set? then 1 else 0) + CountSets(ls, i + 1)
  }

  lemma {:induction false} WrittenLoads(ls: seq<Line>, i: nat, env: Environ, count: nat, key: string)
    requires i <= |ls| && forall l | l in ls :: ValidLine(l)
    ensures var r := LoadFrom(LineTexts(ls), i, env, count);
      && r.ok && r.count == count + CountSets(ls, i)
      && FirstValue(LineTexts(ls), i, key) == FirstWritten(ls, i, key)
    decreases |ls| - i
  {
    hide Assignment;
    hide ValidLine;
    if i < |ls| {
      assert ls[i] in ls;
      LineRead(ls[i]);
      if ls[i].Set? { SetSettable(ls[i]); }
      var env1 := if ls[i].Set? && ls[i].key !in env then env[ls[i].key := ls[i].value] else env;
      WrittenLoads(ls, i + 1, env1, if ls[i].Set? then count + 1 else count, key);
    }
  }

  lemma {:induction false} SetSettable(l: Line)
    requires ValidLine(l) && l.Set?
    ensures Settable((l.key, l.value))
  {
  }

  lemma {:induction false} LineOneLine(l: Line)
    requires ValidLine(l)
    ensures OneLine(LineText(l))
  {
  }

  /** Loading a written file: it loads completely, counts its assignments, and each
      key ends with the value it had before, if any, else with its first value in the
      file, to the letter. */
  lemma {:induction false} WrittenFileLoads(ls: seq<Line>, env: Environ, key: string)
    requires forall l | l in ls :: ValidLine(l)
    ensures var r := LoadFrom(SplitLines(Unlines(LineTexts(ls))), 0, env, 0);
      && r.ok && r.count == CountSets(ls, 0)
      && if key in env then key in r.env && r.env[key] == env[key]
         else match FirstWritten(ls, 0, key)
           case None => key !in r.env
           case Some(v) => key in r.env && r.env[key] == v
  {
    hide ValidLine;
    hide LoadFrom;
    forall i | 0 <= i < |ls| ensures OneLine(LineTexts(ls)[i]) {
      assert ls[i] in ls;
      LineOneLine(ls[i]);
    }
    SplitUnlines(LineTexts(ls));
    WrittenLoads(ls, 0, env, 0, key);
    LoadMeans(LineTexts(ls), 0, env, 0, key);
  }
}
