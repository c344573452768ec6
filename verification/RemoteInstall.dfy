/** The install command: an exported environment and a pipeline, quoted for a
    root `bash -c`, and what the two shells on the far side make of it. */
module RemoteInstall {
  import opened Text
  import opened Shell

  /** A Python dict of strings, in insertion order. */
  type Env = seq<(string, string)>

  // ----- building the command -----

  function WithoutUnderscores(k: string): string {
    if k == "" then "" else (if k[0] == '_' then "" else [k[0]]) + WithoutUnderscores(k[1..])
  }

  /** `str.isalnum`, ASCII part. */
  predicate IsAlnum(s: string) { s != "" && forall i | 0 <= i < |s| :: IsLetter(s[i]) || IsDigit(s[i]) }

  /** The guard `k.replace("_", "").isalnum()`. */
  predicate PassesGuard(k: string) { IsAlnum(WithoutUnderscores(k)) }

  /** What it lets through: letters, digits and underscores, not only underscores. */
  predicate KeyAllowed(k: string) {
    && (forall i | 0 <= i < |k| :: IsWord(k[i]))
    && exists i | 0 <= i < |k| :: k[i] != '_'
  }

  lemma {:induction false} WithoutUnderscoresHas(k: string, c: char)
    ensures c in WithoutUnderscores(k) <==> c in k && c != '_'
  {
    if k != "" {
      WithoutUnderscoresHas(k[1..], c);
      assert k == [k[0]] + k[1..];
    }
  }

  lemma {:induction false} GuardExactly(k: string)
    ensures PassesGuard(k) <==> KeyAllowed(k)
  {
    var s := WithoutUnderscores(k);
    forall c: char { WithoutUnderscoresHas(k, c); }
    assert forall i | 0 <= i < |s| :: s[i] in s;
    assert forall i | 0 <= i < |k| :: k[i] in k;
    assert forall i | 0 <= i < |k| && k[i] != '_' :: k[i] in s;
    if s != "" {
      assert s[0] in k && s[0] != '_';
      var i :| 0 <= i < |k| && k[i] == s[0];
      assert (forall i | 0 <= i < |k| :: IsWord(k[i])) <==> forall c | c in k :: IsWord(c);
    }
  }

  function ExportLine(kv: (string, string)): string {
    "export " + kv.0 + "=" + Quote(kv.1)
  }

  function ExportLines(env: Env): (r: seq<string>)
    ensures |r| == |env|
  {
    seq(|env|, i requires 0 <= i < |env| => ExportLine(env[i]))
  }

  function InstallLine(url: string, flags: seq<string>): string {
    "curl -sfL " + url + " | " + "sh -s - " + QuoteJoin(flags)
  }

  function Inner(env: Env, url: string, flags: seq<string>): string {
    Join("\n", ExportLines(env)) + "\n" + InstallLine(url, flags)
  }

  /** `sudo -n bash -c <quoted>`, used by every remote call of the installer. */
  function AsRoot(inner: string): string {
    "sudo -n bash -c " + Quote(inner)
  }

  /** The command construction of `_run_upstream_install`; the error names the
      first refused environment key. */
  method UpstreamCommand(env: Env, url: string, flags: seq<string>) returns (r: Result<string, string>)
    ensures r.Ok? <==> forall i | 0 <= i < |env| :: KeyAllowed(env[i].0)
    ensures r.Ok? ==> r.value == AsRoot(Inner(env, url, flags))
    ensures r.Err? ==> exists i | 0 <= i < |env| ::
      r.error == env[i].0 && !KeyAllowed(env[i].0) && forall j | 0 <= j < i :: KeyAllowed(env[j].0)
  {
    var lines := [];
    for i := 0 to |env|
      invariant forall j | 0 <= j < i :: KeyAllowed(env[j].0)
      invariant lines == ExportLines(env[..i])
    {
      GuardExactly(env[i].0);
      if !PassesGuard(env[i].0) {
        return Err(env[i].0);
      }
      lines := lines + [ExportLine(env[i])];
    }
    assert env[..|env|] == env;
    var block := Join("\n", lines) + "\n";
    var install := "curl -sfL " + url + " | " + "sh -s - " + QuoteJoin(flags);
    return Ok(AsRoot(block + install));
  }

  // ----- the far side -----

  /** What a shell script of exports followed by one pipeline does. */
  datatype Script = Script(exports: Env, stages: seq<seq<string>>)

  /** A shell variable name, section 3.235 of POSIX.1-2017 XBD. */
  predicate IsName(k: string) {
    k != "" && !IsDigit(k[0]) && forall i | 0 <= i < |k| :: IsWord(k[i])
  }

  function Assignment(w: string): Option<(string, string)> {
    var j := Find(w, '=', 0);
    if j == -1 || !IsName(w[..j]) then None else Some((w[..j], w[j + 1..]))
  }

  /** The commands of one pipeline. */
  function ReadStages(ts: seq<Token>): (r: Option<seq<seq<string>>>)
    ensures r.Some? ==> r.value != []
  {
    if ts == [] then Some([[]])
    else match ReadStages(ts[1..])
      case None => None
      case Some(ss) =>
        match ts[0]
        case Word(w) => Some([[w] + ss[0]] + ss[1..])
        case Pipe => Some([[]] + ss)
        case Newline => None
  }

  /** A script of `export NAME=value` lines, blank lines, and a last pipeline. */
  function ReadScript(ts: seq<Token>): Option<Script>
    decreases |ts|
  {
    if |ts| >= 1 && ts[0] == Newline then ReadScript(ts[1..])
    else if |ts| >= 3 && ts[0] == Word("export") && ts[1].Word? && ts[2] == Newline then
      match Assignment(ts[1].text)
      case None => None
      case Some(kv) =>
        match ReadScript(ts[3..])
        case None => None
        case Some(s) => Some(s.(exports := [kv] + s.exports))
    else match ReadStages(ts)
      case None => None
      case Some(ss) => Some(Script([], ss))
  }

  /** What the remote login shell hands to `bash -c` under `sudo -n`. */
  function Unwrap(remote: string): Option<string> {
    match Tokens(remote)
    case Some(ts) =>
      if |ts| == 5 && ts[..4] == [Word("sudo"), Word("-n"), Word("bash"), Word("-c")] && ts[4].Word?
      then Some(ts[4].text) else None
    case None => None
  }

  /** Both shells: the outer command line, then the script inside it. */
  function Deliver(remote: string): Option<Script> {
    match Unwrap(remote)
    case None => None
    case Some(inner) =>
      match Tokens(inner)
      case None => None
      case Some(ts) => ReadScript(ts)
  }

  // ----- the outer shell -----

  const ROOT_WORDS := ["sudo", "-n", "bash", "-c"]

  lemma {:induction false} RootWords()
    ensures Spaced(ROOT_WORDS) == "sudo -n bash -c "
    ensures forall w | w in ROOT_WORDS :: IsLiteral(w)
  {
    assert ROOT_WORDS[1..] == ["-n", "bash", "-c"];
    assert ["-n", "bash", "-c"][1..] == ["bash", "-c"];
    assert ["bash", "-c"][1..] == ["-c"];
    assert ["-c"][1..] == [];
  }

  /** The five words: whatever `inner` holds, `bash -c` receives it unchanged. */
  lemma {:induction false} RootShellReceives(inner: string)
    ensures Tokens(AsRoot(inner)) == Some(WordTokens(["sudo", "-n", "bash", "-c", inner]))
    ensures Unwrap(AsRoot(inner)) == Some(inner)
  {
    RootWords();
    var r := START.(out := START.out + WordTokens(ROOT_WORDS));
    RunLiterals(START, ROOT_WORDS, r);
    RunQuote(r, inner);
    RunThen(START, Spaced(ROOT_WORDS), r, Quote(inner), r.(cur := Some(inner)));
    assert r.out + [Word(inner)] == WordTokens(["sudo", "-n", "bash", "-c", inner]);
  }

  // ----- the inner shell -----

  function ExportTokens(kv: (string, string)): seq<Token> {
    [Word("export"), Word(kv.0 + "=" + kv.1), Newline]
  }

  lemma {:induction false} RunAssignment(r: Reader, k: string, v: string, last: Reader)
    requires r.mode == Bare && r.cur == None && KeyAllowed(k)
    requires last == r.(cur := Some(k + "=" + v))
    ensures Run(r, k + "=" + Quote(v)) == Some(last)
  {
    var r1 := r.(cur := Some(k + "="));
    RunPlain(r, k + "=");
    RunQuote(r1, v);
    RunThen(r, k + "=", r1, Quote(v), last);
  }

  lemma {:induction false} RunExport(r: Reader, kv: (string, string), last: Reader)
    requires r.mode == Bare && r.cur == None && KeyAllowed(kv.0)
    requires last == r.(out := r.out + ExportTokens(kv))
    ensures Run(r, ExportLine(kv) + "\n") == Some(last)
  {
    var (k, v) := kv;
    var r1 := r.(out := r.out + WordTokens(["export"]));
    var r2 := r1.(cur := Some(k + "=" + v));
    RunLiterals(r, ["export"], r1);
    RunAssignment(r1, k, v, r2);
    RunThen(r, Spaced(["export"]), r1, k + "=" + Quote(v), r2);
    assert r.out + WordTokens(["export"]) + [Word(k + "=" + v)] + [Newline] == r.out + ExportTokens(kv);
    RunOne(r2, '\n');
    RunThen(r, Spaced(["export"]) + (k + "=" + Quote(v)), r2, "\n", last);
    ExportLineShape(kv);
  }

  lemma {:induction false} ExportLineShape(kv: (string, string))
    ensures Spaced(["export"]) + (kv.0 + "=" + Quote(kv.1)) == ExportLine(kv)
  {
    assert Spaced(["export"]) == "export ";
  }

  function EnvTokens(env: Env): seq<Token> {
    if env == [] then [] else ExportTokens(env[0]) + EnvTokens(env[1..])
  }

  lemma {:induction false} RunExports(r: Reader, env: Env, last: Reader)
    requires r.mode == Bare && r.cur == None
    requires forall i | 0 <= i < |env| :: KeyAllowed(env[i].0)
    requires last == r.(out := r.out + EnvTokens(env))
    ensures Run(r, Unlines(ExportLines(env))) == Some(last)
    decreases |env|
  {
    if env == [] {
      assert r.out + EnvTokens(env) == r.out;
    } else {
      var next := r.(out := r.out + ExportTokens(env[0]));
      assert next.out + EnvTokens(env[1..]) == r.out + EnvTokens(env);
      RunExports(next, env[1..], last);
      RunExport(r, env[0], next);
      assert ExportLines(env)[1..] == ExportLines(env[1..]);
      RunThen(r, ExportLine(env[0]) + "\n", next, Unlines(ExportLines(env[1..])), last);
    }
  }

  function InstallTokens(url: string, flags: seq<string>): seq<Token> {
    WordTokens(["curl", "-sfL", url]) + [Pipe] + WordTokens(["sh", "-s", "-"] + flags)
  }

  lemma {:induction false} InstallWords(url: string)
    ensures Spaced(["curl", "-sfL", url]) == "curl -sfL " + url + " "
    ensures Spaced(["sh", "-s", "-"]) == "sh -s - "
    ensures IsLiteral("curl") && IsLiteral("-sfL")
    ensures IsLiteral("sh") && IsLiteral("-s") && IsLiteral("-")
  {
    SpacedThree("curl", "-sfL", url);
    SpacedThree("sh", "-s", "-");
    hide Spaced;
    assert "curl" + " " + "-sfL" + " " == "curl -sfL ";
    assert "sh" + " " + "-s" + " " + "-" + " " == "sh -s - ";
  }

  lemma {:induction false} SpacedThree(a: string, b: string, c: string)
    ensures Spaced([a, b, c]) == a + " " + b + " " + c + " "
  {
    assert [a, b, c][1..] == [b, c] && [b, c][1..] == [c];
    assert Spaced([c]) == c + " ";
    assert Spaced([b, c]) == b + " " + (c + " ");
  }

  lemma {:induction false} RunPipe(r: Reader, last: Reader)
    requires r.mode == Bare && r.cur == None
    requires last == r.(out := r.out + [Pipe])
    ensures Run(r, "| ") == Some(last)
  {
    var piped := last.(mode := Piped);
    assert r.out + Flush(None) + [Pipe] == last.out && last.out + Flush(None) == last.out;
    RunOne(r, '|');
    RunOne(piped, ' ');
    RunThen(r, "|", piped, " ", last);
  }

  /** The tokens of the install line, after whatever was read before it. */
  lemma {:induction false} RunInstallLine(r: Reader, url: string, flags: seq<string>) returns (last: Reader)
    requires r.mode == Bare && r.cur == None && IsLiteral(url)
    ensures Run(r, InstallLine(url, flags)) == Some(last)
    ensures last.mode == Bare && last.out + Flush(last.cur) == r.out + InstallTokens(url, flags)
  {
    InstallWords(url);
    InstallLineShape(url, flags);
    InstallTokensShape(r.out, url, flags);
    hide IsLiteral, Spaced, InstallLine, InstallTokens, WordTokens, QuoteJoin, Run;
    var get, sh := ["curl", "-sfL", url], ["sh", "-s", "-"];
    var r1 := r.(out := r.out + WordTokens(get));
    var r2 := r.(out := r1.out + [Pipe]);
    var r3 := r.(out := r2.out + WordTokens(sh));
    RunLiterals(r, get, r1);
    RunPipe(r1, r2);
    RunThen(r, Spaced(get), r1, "| ", r2);
    RunLiterals(r2, sh, r3);
    RunThen(r, Spaced(get) + "| ", r2, Spaced(sh), r3);
    last := FlagsReader(r3, flags);
    RunThen(r, Spaced(get) + "| " + Spaced(sh), r3, QuoteJoin(flags), last);
  }

  lemma {:induction false} InstallLineShape(url: string, flags: seq<string>)
    ensures InstallLine(url, flags) == Spaced(["curl", "-sfL", url]) + "| " + Spaced(["sh", "-s", "-"]) + QuoteJoin(flags)
  {
    InstallWords(url);
    hide Spaced, QuoteJoin;
  }

  lemma {:induction false} InstallTokensShape(out: seq<Token>, url: string, flags: seq<string>)
    ensures out + WordTokens(["curl", "-sfL", url]) + [Pipe] + WordTokens(["sh", "-s", "-"]) + WordTokens(flags) ==
            out + InstallTokens(url, flags)
  {
    var sh := ["sh", "-s", "-"];
    assert WordTokens(sh + flags) == WordTokens(sh) + WordTokens(flags);
    hide WordTokens;
  }

  lemma {:induction false} FlagsReader(r: Reader, flags: seq<string>) returns (last: Reader)
    requires r.mode == Bare && r.cur == None
    ensures Run(r, QuoteJoin(flags)) == Some(last)
    ensures last.mode == Bare && last.out + Flush(last.cur) == r.out + WordTokens(flags)
  {
    if flags == [] {
      last := r;
      assert QuoteJoin(flags) == "" && r.out + Flush(None) == r.out + WordTokens(flags);
    } else {
      var n := |flags| - 1;
      last := Reader(Bare, Some(flags[n]), r.out + WordTokens(flags[..n]));
      RunQuoteJoin(r, flags, last);
      assert WordTokens(flags[..n]) + [Word(flags[n])] == WordTokens(flags);
    }
  }

  function InnerTokens(env: Env, url: string, flags: seq<string>): seq<Token> {
    (if env == [] then [Newline] else EnvTokens(env)) + InstallTokens(url, flags)
  }

  lemma {:induction false} RunEnvironment(env: Env, r: Reader)
    requires forall i | 0 <= i < |env| :: KeyAllowed(env[i].0)
    requires r == START.(out := START.out + if env == [] then [Newline] else EnvTokens(env))
    ensures Run(START, Join("\n", ExportLines(env)) + "\n") == Some(r)
  {
    if env == [] {
      assert Join("\n", ExportLines(env)) + "\n" == "\n";
      assert START.out + Flush(None) + [Newline] == r.out;
      RunOne(START, '\n');
    } else {
      JoinIsUnlines(ExportLines(env));
      RunExports(START, env, r);
    }
  }

  lemma {:induction false} InnerIsRead(env: Env, url: string, flags: seq<string>)
    requires forall i | 0 <= i < |env| :: KeyAllowed(env[i].0)
    requires IsLiteral(url)
    ensures Tokens(Inner(env, url, flags)) == Some(InnerTokens(env, url, flags))
  {
    var before := if env == [] then [Newline] else EnvTokens(env);
    var r := START.(out := START.out + before);
    RunEnvironment(env, r);
    var last := RunInstallLine(r, url, flags);
    var first, second := Join("\n", ExportLines(env)) + "\n", InstallLine(url, flags);
    assert Inner(env, url, flags) == first + second;
    hide KeyAllowed, IsLiteral, Inner, InstallLine, ExportLines, Join, EnvTokens, InstallTokens, Run;
    RunThen(START, first, r, second, last);
    assert START.out + before == before;
  }

  // ----- what the tokens mean -----

  lemma {:induction false} ReadWords(words: seq<string>, rest: seq<Token>)
    ensures ReadStages(WordTokens(words) + rest) ==
            match ReadStages(rest) case None => None case Some(ss) => Some([words + ss[0]] + ss[1..])
    decreases |words|
  {
    var ts := WordTokens(words) + rest;
    if words == [] {
      assert ts == rest;
      match ReadStages(rest)
      case None =>
      case Some(ss) =>
        assert words + ss[0] == ss[0];
        assert [words + ss[0]] + ss[1..] == ss;
    } else {
      assert ts[1..] == WordTokens(words[1..]) + rest;
      ReadWords(words[1..], rest);
      match ReadStages(rest)
      case None =>
      case Some(ss) =>
        assert [words[0]] + (words[1..] + ss[0]) == words + ss[0];
    }
  }

  lemma {:induction false} ReadLastWords(words: seq<string>)
    ensures ReadStages(WordTokens(words)) == Some([words])
  {
    ReadWords(words, []);
    assert WordTokens(words) + [] == WordTokens(words);
    var end: seq<seq<string>> := [[]];
    assert ReadStages([]) == Some(end);
    assert words + end[0] == words && end[1..] == [];
    assert [words + end[0]] + end[1..] == [words];
  }

  function Stages(url: string, flags: seq<string>): seq<seq<string>> {
    [["curl", "-sfL", url], ["sh", "-s", "-"] + flags]
  }

  lemma {:induction false} ReadInstall(url: string, flags: seq<string>)
    ensures ReadScript(InstallTokens(url, flags)) == Some(Script([], Stages(url, flags)))
  {
    var second := ["sh", "-s", "-"] + flags;
    var tail := [Pipe] + WordTokens(second);
    ReadLastWords(second);
    assert tail[1..] == WordTokens(second);
    var first := ["curl", "-sfL", url];
    ReadWords(first, tail);
    assert WordTokens(first) + tail == InstallTokens(url, flags);
    var rest: seq<seq<string>> := [[]] + [second];
    assert tail[0] == Pipe && ReadStages(tail) == Some(rest);
    assert first + rest[0] == first && rest[1..] == [second];
    assert [first + rest[0]] + rest[1..] == Stages(url, flags);
  }

  lemma {:induction false} AssignmentOf(k: string, v: string)
    requires KeyAllowed(k)
    ensures Assignment(k + "=" + v) == if IsName(k) then Some((k, v)) else None
  {
    FindAt(k, '=', v);
    assert (k + "=" + v)[..|k|] == k && (k + "=" + v)[|k| + 1..] == v;
  }

  ghost predicate AllNames(env: Env) {
    forall i | 0 <= i < |env| :: IsName(env[i].0)
  }

  lemma {:induction false} AllNamesUnfold(env: Env)
    requires env != []
    ensures AllNames(env) <==> IsName(env[0].0) && AllNames(env[1..])
  {
    assert forall i | 1 <= i < |env| :: env[i] == env[1..][i - 1];
  }

  lemma {:induction false} ReadExport(kv: (string, string), rest: seq<Token>)
    requires KeyAllowed(kv.0)
    ensures ReadScript(ExportTokens(kv) + rest) ==
            if !IsName(kv.0) then None
            else match ReadScript(rest) case None => None case Some(s) => Some(s.(exports := [kv] + s.exports))
  {
    AssignmentOf(kv.0, kv.1);
    assert (ExportTokens(kv) + rest)[3..] == rest;
  }

  /** The exports come back in order exactly when every key is a shell name. */
  lemma {:induction false} ReadExports(env: Env, rest: seq<Token>, s: Script)
    requires forall i | 0 <= i < |env| :: KeyAllowed(env[i].0)
    requires ReadScript(rest) == Some(s)
    ensures ReadScript(EnvTokens(env) + rest) ==
            if AllNames(env) then Some(s.(exports := env + s.exports)) else None
    decreases |env|
  {
    hide ReadScript;
    if env == [] {
      assert EnvTokens(env) + rest == rest && env + s.exports == s.exports;
    } else {
      var tail := EnvTokens(env[1..]) + rest;
      assert EnvTokens(env) + rest == ExportTokens(env[0]) + tail;
      AllNamesUnfold(env);
      hide AllNames, IsName;
      ReadExport(env[0], tail);
      hide ExportTokens, EnvTokens;
      ReadExports(env[1..], rest, s);
      hide KeyAllowed;
      assert [env[0]] + (env[1..] + s.exports) == env + s.exports;
    }
  }

  /** The two-level round trip. For every environment the guard lets through and
      every flag list, whatever the values hold, the outer shell hands `bash -c`
      exactly the script, and the script exports exactly the environment, in
      order, and runs the installer with exactly the flags. The one exception is
      a key the guard allows although it is no shell name: one that starts with a
      digit. */
  lemma {:induction false} InstallCommandDelivered(env: Env, url: string, flags: seq<string>)
    requires forall i | 0 <= i < |env| :: KeyAllowed(env[i].0)
    requires IsLiteral(url)
    ensures Unwrap(AsRoot(Inner(env, url, flags))) == Some(Inner(env, url, flags))
    ensures AllNames(env) <==>
            Deliver(AsRoot(Inner(env, url, flags))) == Some(Script(env, [["curl", "-sfL", url], ["sh", "-s", "-"] + flags]))
  {
    RootShellReceives(Inner(env, url, flags));
    InnerIsRead(env, url, flags);
    ReadInstall(url, flags);
    var rest := InstallTokens(url, flags);
    if env == [] {
      assert ([Newline] + rest)[1..] == rest;
    } else {
      ReadExports(env, rest, Script([], Stages(url, flags)));
      assert env + [] == env;
    }
  }

  /** The guard refuses every key that is no shell name, except those that start
      with a digit; and it really lets those through. */
  lemma {:induction false} GuardAgainstNames(k: string)
    requires KeyAllowed(k)
    ensures IsName(k) <==> !IsDigit(k[0])
    ensures KeyAllowed("9K") && !IsName("9K")
  {
    assert "9K"[0] != '_';
  }

  lemma {:induction false} AssignmentWordInjective(k: string, v: string, k': string, v': string)
    requires KeyAllowed(k) && KeyAllowed(k') && k + "=" + v == k' + "=" + v'
    ensures k == k' && v == v'
  {
    FindAt(k, '=', v);
    FindAt(k', '=', v');
    var w := k + "=" + v;
    assert w[..|k|] == k && w[|k| + 1..] == v;
    assert w[..|k'|] == k' && w[|k'| + 1..] == v';
  }

  lemma {:induction false} InstallTokensInjective(url: string, flags: seq<string>, flags': seq<string>)
    requires InstallTokens(url, flags) == InstallTokens(url, flags')
    ensures flags == flags'
  {
    var a, b := ["sh", "-s", "-"] + flags, ["sh", "-s", "-"] + flags';
    assert InstallTokens(url, flags)[4..] == WordTokens(a) && InstallTokens(url, flags')[4..] == WordTokens(b);
    assert forall i | 0 <= i < |a| :: WordTokens(a)[i] == Word(a[i]);
    assert forall i | 0 <= i < |b| :: WordTokens(b)[i] == Word(b[i]);
    assert |a| == |b| && forall i | 0 <= i < |a| :: a[i] == b[i];
    assert a[3..] == flags && b[3..] == flags';
  }

  lemma {:induction false} FirstTokens(kv: (string, string), rest: seq<Token>, url: string, flags: seq<string>)
    ensures ExportTokens(kv) + rest != InstallTokens(url, flags)
  {
    assert "export" != "curl" by { assert "export"[0] != "curl"[0]; }
    assert InstallTokens(url, flags)[0] == Word("curl") && (ExportTokens(kv) + rest)[0] == Word("export");
  }

  lemma {:induction false} TokensInjective(env: Env, flags: seq<string>, env': Env, flags': seq<string>, url: string)
    requires forall i | 0 <= i < |env| :: KeyAllowed(env[i].0)
    requires forall i | 0 <= i < |env'| :: KeyAllowed(env'[i].0)
    requires EnvTokens(env) + InstallTokens(url, flags) == EnvTokens(env') + InstallTokens(url, flags')
    ensures env == env' && flags == flags'
    decreases |env|
  {
    hide KeyAllowed, InstallTokens;
    var rest, rest' := InstallTokens(url, flags), InstallTokens(url, flags');
    if env == [] && env' == [] {
      assert EnvTokens(env) + rest == rest && EnvTokens(env') + rest' == rest';
      InstallTokensInjective(url, flags, flags');
    } else if env == [] {
      assert EnvTokens(env) + rest == rest;
      assert EnvTokens(env') + rest' == ExportTokens(env'[0]) + (EnvTokens(env'[1..]) + rest');
      FirstTokens(env'[0], EnvTokens(env'[1..]) + rest', url, flags);
    } else if env' == [] {
      assert EnvTokens(env') + rest' == rest';
      assert EnvTokens(env) + rest == ExportTokens(env[0]) + (EnvTokens(env[1..]) + rest);
      FirstTokens(env[0], EnvTokens(env[1..]) + rest, url, flags');
    } else {
      var a, b := EnvTokens(env[1..]) + rest, EnvTokens(env'[1..]) + rest';
      assert EnvTokens(env) + rest == ExportTokens(env[0]) + a && EnvTokens(env') + rest' == ExportTokens(env'[0]) + b;
      SameHead(env[0], a, env'[0], b);
      TokensInjective(env[1..], flags, env'[1..], flags', url);
    }
  }

  lemma {:induction false} SameHead(kv: (string, string), a: seq<Token>, kv': (string, string), b: seq<Token>)
    requires KeyAllowed(kv.0) && KeyAllowed(kv'.0)
    requires ExportTokens(kv) + a == ExportTokens(kv') + b
    ensures kv == kv' && a == b
  {
    var s, s' := ExportTokens(kv) + a, ExportTokens(kv') + b;
    hide KeyAllowed;
    assert s[1] == Word(kv.0 + "=" + kv.1) && s'[1] == Word(kv'.0 + "=" + kv'.1);
    AssignmentWordInjective(kv.0, kv.1, kv'.0, kv'.1);
    assert s[3..] == a && s'[3..] == b;
  }

  lemma {:induction false} FirstInnerToken(env: Env, url: string, flags: seq<string>)
    ensures InnerTokens(env, url, flags) != [] && (InnerTokens(env, url, flags)[0] == Newline <==> env == [])
  {
  }

  /** Different environments or flags never produce the same remote command, also
      with keys that start with a digit. */
  lemma {:induction false} InstallCommandInjective(env: Env, flags: seq<string>, env': Env, flags': seq<string>, url: string)
    requires forall i | 0 <= i < |env| :: KeyAllowed(env[i].0)
    requires forall i | 0 <= i < |env'| :: KeyAllowed(env'[i].0)
    requires IsLiteral(url)
    requires AsRoot(Inner(env, url, flags)) == AsRoot(Inner(env', url, flags'))
    ensures env == env' && flags == flags'
  {
    hide KeyAllowed, IsLiteral, AsRoot, Inner, Tokens;
    RootShellReceives(Inner(env, url, flags));
    RootShellReceives(Inner(env', url, flags'));
    InnerIsRead(env, url, flags);
    InnerIsRead(env', url, flags');
    FirstInnerToken(env, url, flags);
    FirstInnerToken(env', url, flags');
    assert env == [] <==> env' == [];
    var t, t' := InstallTokens(url, flags), InstallTokens(url, flags');
    if env == [] {
      assert ([Newline] + t)[1..] == t && ([Newline] + t')[1..] == t';
      InstallTokensInjective(url, flags, flags');
    } else {
      TokensInjective(env, flags, env', flags', url);
    }
  }
}
