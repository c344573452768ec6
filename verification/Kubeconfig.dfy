/** Pointing a kubeconfig at the local end of a tunnel, line by line. */
module Kubeconfig {
  import opened Text

  const SERVER := "server:"

  predicate Qualifies(line: string) { StartsWith(LStrip(line), SERVER) }

  function Indent(line: string): string {
    line[..|line| - |LStrip(line)|]
  }

  function Endpoint(port: nat): string { "https://127.0.0.1:" + Dec(port) }

  function ServerLine(line: string, port: nat): string {
    Indent(line) + (SERVER + " " + Endpoint(port))
  }

  /** The first qualifying line. */
  function FirstServer(lines: seq<string>): (r: Option<nat>)
    ensures r.Some? ==> r.value < |lines| && Qualifies(lines[r.value]) && forall i | 0 <= i < r.value :: !Qualifies(lines[i])
    ensures r == None <==> forall i | 0 <= i < |lines| :: !Qualifies(lines[i])
  {
    if lines == [] then None
    else if Qualifies(lines[0]) then Some(0)
    else match FirstServer(lines[1..])
      case None => None
      case Some(k) => Some(k + 1)
  }

  function RewriteLines(lines: seq<string>, port: nat): (r: seq<string>)
    ensures |r| == |lines|
  {
    match FirstServer(lines)
    case None => lines
    case Some(k) => lines[k := ServerLine(lines[k], port)]
  }

  /** The rewritten text; None where no line qualifies. */
  function Rewritten(text: string, port: nat): Option<string> {
    var lines := SplitLines(text);
    if FirstServer(lines) == None then None else Some(Unlines(RewriteLines(lines, port)))
  }

  /** The first `server:` line of the text names the local port. */
  predicate PointsAt(text: string, port: nat) {
    var lines := SplitLines(text);
    var k := FirstServer(lines);
    k.Some? && lines[k.value] == ServerLine(lines[k.value], port)
  }

  predicate LooksLikeKubeconfig(body: string) {
    Contains(body, "apiVersion: v1") && Contains(body, "kind: Config")
  }

  // ----- the two loops -----

  lemma {:induction false} FirstServerPrefix(lines: seq<string>, k: nat)
    requires k < |lines| && Qualifies(lines[k]) && forall i | 0 <= i < k :: !Qualifies(lines[i])
    ensures FirstServer(lines) == Some(k)
  {
  }

  /** `rewrite_server_url` of the puller. */
  method RewriteServerUrl(text: string, port: nat) returns (r: Option<string>)
    ensures r == Rewritten(text, port)
  {
    hide SERVER;
    hide LStrip;
    hide SplitLines;
    hide Endpoint;
    hide Join;
    hide Unlines;
    var newUrl := Endpoint(port);
    var lines := SplitLines(text);
    var out, replaced := [], false;
    ghost var k := FirstServer(lines);
    for i := 0 to |lines|
      invariant replaced <==> k.Some? && k.value < i
      invariant out == RewriteLines(lines, port)[..i]
    {
      var line := lines[i];
      var stripped := LStrip(line);
      if StartsWith(stripped, SERVER) && !replaced {
        FirstServerPrefix(lines, i);
        var indent := line[..|line| - |stripped|];
        out := out + [indent + (SERVER + " " + newUrl)];
        replaced := true;
      } else {
        assert k != Some(i);
        out := out + [line];
      }
    }
    if !replaced {
      return None;
    }
    assert out == RewriteLines(lines, port);
    JoinIsUnlines(out);
    return Some(Join("\n", out) + "\n");
  }

  class ConfigFile {
    var content: Option<string>

    constructor ()
      ensures content == None
    {
      content := None;
    }

    /** `_write_kubeconfig_with_rewritten_url` of the merger, after the fetch; its
        own copy of the loop. Nothing is written unless the body looks like a
        kubeconfig and has a server line. */
    method WriteRewritten(body: string, port: nat) returns (ok: bool)
      modifies this
      ensures ok <==> LooksLikeKubeconfig(body) && Rewritten(body, port).Some?
      ensures content == if ok then Rewritten(body, port) else old(content)
    {
      hide Contains;
      hide SERVER;
      hide LStrip;
      hide SplitLines;
      hide Endpoint;
      hide Join;
      hide Unlines;
      if !Contains(body, "apiVersion: v1") || !Contains(body, "kind: Config") {
        return false;
      }
      var newUrl := Endpoint(port);
      var lines := SplitLines(body);
      var outLines: seq<string>, done := [], false;
      ghost var k := FirstServer(lines);
      for i := 0 to |lines|
        invariant done <==> k.Some? && k.value < i
        invariant |outLines| == i && content == old(content)
        invariant forall j | 0 <= j < i :: outLines[j] == if k == Some(j) then ServerLine(lines[j], port) else lines[j]
      {
        var stripped := LStrip(lines[i]);
        if StartsWith(stripped, SERVER) && !done {
          FirstServerPrefix(lines, i);
          var indent := lines[i][..|lines[i]| - |stripped|];
          outLines := outLines + [indent + (SERVER + " " + newUrl)];
          done := true;
        } else {
          outLines := outLines + [lines[i]];
        }
      }
      if !done {
        return false;
      }
      assert outLines == RewriteLines(lines, port);
      JoinIsUnlines(outLines);
      content := Some(Join("\n", outLines) + "\n");
      return true;
    }
  }

  // ----- what the rewrite does -----

  /** A rewritten line still qualifies, with the same indentation, on one line. */
  lemma {:induction false} ServerLineShape(line: string, port: nat)
    requires OneLine(line)
    ensures var l := ServerLine(line, port);
      Qualifies(l) && Indent(l) == Indent(line) && OneLine(l)
  {
    LStripSplits(line);
    var s := SERVER + " " + Endpoint(port);
    var indent := Indent(line);
    assert s[0] == SERVER[0] == 's';
    LStripOf(indent, s);
    assert (indent + s)[..|indent|] == indent;
    assert SERVER <= s;
    assert OneLine(s) by { EndpointOneLine(port); }
  }

  lemma {:induction false} HeadOneLine()
    ensures OneLine(SERVER) && OneLine(" ") && OneLine("https://127.0.0.1:")
  {
  }

  lemma {:induction false} OneLineConcat(a: string, b: string)
    requires OneLine(a) && OneLine(b)
    ensures OneLine(a + b)
  {
    hide IsLineBreak;
  }

  lemma {:induction false} EndpointOneLine(port: nat)
    ensures OneLine(SERVER + " " + Endpoint(port))
  {
    HeadOneLine();
    assert OneLine(Dec(port));
    hide OneLine, SERVER, Dec;
    OneLineConcat("https://127.0.0.1:", Dec(port));
    OneLineConcat(SERVER, " ");
    OneLineConcat(SERVER + " ", Endpoint(port));
  }

  lemma {:induction false} RewrittenLines(text: string, port: nat)
    requires Rewritten(text, port).Some?
    ensures var before := SplitLines(text);
      var k := FirstServer(before).value;
      && SplitLines(Rewritten(text, port).value) == RewriteLines(before, port)
      && Rewritten(text, port).value == Unlines(RewriteLines(before, port))
      && FirstServer(RewriteLines(before, port)) == Some(k)
      && Indent(RewriteLines(before, port)[k]) == Indent(before[k])
  {
    var lines := SplitLines(text);
    var k := FirstServer(lines).value;
    var after := RewriteLines(lines, port);
    ServerLineShape(lines[k], port);
    SplitUnlines(after);
    FirstServerPrefix(after, k);
  }

  /** What stands in front of the first character of a line that is no space. */
  function Margin(line: string): (m: string)
    ensures |m| + |LStrip(line)| == |line|
  {
    line[..|line| - |LStrip(line)|]
  }

  /** The first line of a text that starts, behind its margin, with `server:`. */
  ghost predicate ServerAt(lines: seq<string>, k: nat) {
    && k < |lines| && StartsWith(LStrip(lines[k]), "server:")
    && forall i | 0 <= i < k :: !StartsWith(LStrip(lines[i]), "server:")
  }

  lemma {:induction false} ServerAtIs(lines: seq<string>)
    ensures FirstServer(lines) == None <==> forall i | 0 <= i < |lines| :: !StartsWith(LStrip(lines[i]), "server:")
    ensures forall k: nat :: FirstServer(lines) == Some(k) <==> ServerAt(lines, k)
  {
    assert SERVER == "server:";
    hide SERVER, LStrip;
    forall k: nat | ServerAt(lines, k) ensures FirstServer(lines) == Some(k) { FirstServerPrefix(lines, k); }
  }

  /** The rewrite fails exactly when no line starts, behind its margin, with `server:`.
      Otherwise the result has the same lines in the same number, but for the first one
      that does, of which only the margin stays, and names the port; and every line of
      it ends in a newline. */
  lemma {:induction false} RewriteExact(text: string, port: nat)
    ensures Rewritten(text, port) == None <==>
            forall i | 0 <= i < |SplitLines(text)| :: !StartsWith(LStrip(SplitLines(text)[i]), "server:")
    ensures Rewritten(text, port).Some? ==>
              var before, after := SplitLines(text), SplitLines(Rewritten(text, port).value);
              exists k: nat :: ServerAt(before, k) && ServerAt(after, k) &&
                after == before[k := Margin(before[k]) + ("server: https://127.0.0.1:" + Dec(port))]
    ensures Rewritten(text, port).Some? ==> Rewritten(text, port).value == Unlines(SplitLines(Rewritten(text, port).value))
  {
    var lines := SplitLines(text);
    ServerAtIs(lines);
    if Rewritten(text, port).Some? {
      RewrittenLines(text, port);
      var k := FirstServer(lines).value;
      var after := RewriteLines(lines, port);
      ServerAtIs(after);
      Spelled(port);
      hide SERVER, Endpoint, LStrip, SplitLines, Unlines, Dec;
      assert after == lines[k := Margin(lines[k]) + ("server: https://127.0.0.1:" + Dec(port))];
      hide RewriteLines, FirstServer;
      assert ServerAt(lines, k) && ServerAt(after, k);
    }
  }

  lemma {:induction false} Spelled(port: nat)
    ensures SERVER + " " + Endpoint(port) == "server: https://127.0.0.1:" + Dec(port)
  {
    hide Dec;
    assert SERVER + " " == "server: ";
    assert SERVER + " " + Endpoint(port) == "server: " + "https://127.0.0.1:" + Dec(port);
    assert "server: " + "https://127.0.0.1:" == "server: https://127.0.0.1:";
  }

  /** A text points at a port if its first server line is, behind the margin, nothing but
      the local address with that port; the text rewritten for a port does. */
  lemma {:induction false} PointsAtExactly(text: string, port: nat)
    ensures PointsAt(text, port) <==>
            exists k: nat :: ServerAt(SplitLines(text), k) &&
              SplitLines(text)[k] == Margin(SplitLines(text)[k]) + ("server: https://127.0.0.1:" + Dec(port))
    ensures Rewritten(text, port).Some? ==> PointsAt(Rewritten(text, port).value, port)
  {
    var lines := SplitLines(text);
    ServerAtIs(lines);
    Spelled(port);
    if Rewritten(text, port).Some? { RewrittenLines(text, port); }
    hide SERVER, Endpoint, LStrip, SplitLines, Unlines, Dec, Rewritten;
    if FirstServer(lines).Some? {
      var k := FirstServer(lines).value;
      assert ServerAt(lines, k);
      assert ServerLine(lines[k], port) == Margin(lines[k]) + ("server: https://127.0.0.1:" + Dec(port));
    }
  }

  /** Only the last port counts. */
  lemma {:induction false} RewriteTwice(text: string, p: nat, q: nat)
    requires Rewritten(text, p).Some?
    ensures Rewritten(Rewritten(text, p).value, q) == Rewritten(text, q)
  {
    RewrittenLines(text, p);
    var lines := SplitLines(text);
    var k := FirstServer(lines).value;
    ServerLineShape(lines[k], p);
    var once := RewriteLines(lines, p);
    SplitUnlines(once);
    assert RewriteLines(once, q) == RewriteLines(lines, q);
  }

  /** A text points at one port only. */
  lemma {:induction false} PointsAtOnePort(text: string, p: nat, q: nat)
    requires PointsAt(text, p) && PointsAt(text, q)
    ensures p == q
  {
    var lines := SplitLines(text);
    var line := lines[FirstServer(lines).value];
    var head := Indent(line) + (SERVER + " " + "https://127.0.0.1:");
    assert line == head + Dec(p) && line == head + Dec(q);
    assert line[|head|..] == Dec(p) && line[|head|..] == Dec(q);
    DecInjective(p, q);
  }
}
