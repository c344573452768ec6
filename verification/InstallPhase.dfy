/** The install phase: servers one by one, the join token, then agents. */
module InstallPhase {
  import opened Text
  import opened HclFields

  datatype Kind = Server | Agent

  /** A machine as the probes see it. */
  datatype Host = Host(reachable: bool, serverActive: bool, agentActive: bool, kubeconfig: bool, versionOutput: string)

  const DOWN := Host(false, false, false, false, "")

  datatype Vm = Vm(name: string, ip: string)

  // ----- the health test -----

  /** `\d+` at the head of `s` and then `lit`: what is left. */
  function DigitsThen(s: string, lit: string): (r: Option<string>)
    ensures r.Some? ==> |r.value| <= |s|
  {
    var n := Span(IsDigit, s);
    if n == 0 || !StartsWith(s[n..], lit) then None else Some(s[n + |lit|..])
  }

  /** `v\d+\.\d+\.\d+\+k3s\d+` at the head of `s`: its length. */
  function VersionLen(s: string): (r: Option<nat>)
    ensures r.Some? ==> r.value <= |s|
  {
    if s == "" || s[0] != 'v' then None
    else match DigitsThen(s[1..], ".")
      case None => None
      case Some(a) =>
      match DigitsThen(a, ".")
      case None => None
      case Some(b) =>
      match DigitsThen(b, "+k3s")
      case None => None
      case Some(c) =>
        var n := Span(IsDigit, c);
        if n == 0 then None else Some(|s| - |c| + n)
  }

  /** `re.search` of the version. */
  function FindVersion(s: string): Option<string> {
    match VersionLen(s)
    case Some(n) => Some(s[..n])
    case None => if s == "" then None else FindVersion(s[1..])
  }

  /** `_running_k3s_version_matches`: an unreadable version counts as a match. */
  predicate VersionMatches(output: string, pinned: string) {
    match FindVersion(output)
    case None => true
    case Some(v) => v == pinned
  }

  /** `_is_k3s_healthy` and `_is_k3s_agent_healthy`. */
  predicate Healthy(kind: Kind, h: Host, pinned: string) {
    && h.reachable
    && (match kind
        case Server => h.serverActive && h.kubeconfig
        case Agent => h.agentActive)
    && VersionMatches(h.versionOutput, pinned)
  }

  // ----- what the health test says -----

  /** `v1.2.3+k3s4` and what follows it, with these four numbers. */
  function Versioned(a: string, b: string, c: string, d: string, rest: string): string {
    "v" + (a + ("." + (b + ("." + (c + ("+k3s" + (d + rest)))))))
  }

  /** A version stands at the head of `s`, with all the digits of its last number. */
  ghost predicate VersionAt(s: string, v: string) {
    exists a, b, c, d, rest :: AllDigits(a) && AllDigits(b) && AllDigits(c) && AllDigits(d) && (rest != "" ==> !IsDigit(rest[0])) &&
      s == Versioned(a, b, c, d, rest) && |rest| <= |s| && v == s[..|s| - |rest|]
  }

  /** The first place at which a version stands, and that version. */
  ghost predicate FirstVersion(s: string, p: nat, v: string) {
    && p <= |s| && VersionAt(s[p..], v)
    && forall q: nat, w | q < p :: !VersionAt(s[q..], w)
  }

  lemma {:induction false} DigitsThenOf(a: string, lit: string, rest: string)
    requires AllDigits(a) && lit != "" && !IsDigit(lit[0])
    ensures DigitsThen(a + (lit + rest), lit) == Some(rest)
  {
    SpanAt(IsDigit, a, lit + rest);
    var s := a + (lit + rest);
    assert s[|a|..] == lit + rest && s[|a| + |lit|..] == rest;
  }

  lemma {:induction false} DigitsThenSplits(s: string, lit: string) returns (a: string)
    requires DigitsThen(s, lit).Some?
    ensures AllDigits(a) && s == a + (lit + DigitsThen(s, lit).value)
  {
    a := s[..Span(IsDigit, s)];
    assert s[|a|..][..|lit|] == lit;
  }

  lemma {:induction false} Literals()
    ensures "." != "" && !IsDigit("."[0]) && "+k3s" != "" && !IsDigit("+k3s"[0])
  {
  }

  lemma {:induction false} VersionSteps(s: string, s0: string, s1: string, s2: string, s3: string)
    requires s != "" && s[0] == 'v' && s[1..] == s0
    requires DigitsThen(s0, ".") == Some(s1) && DigitsThen(s1, ".") == Some(s2) && DigitsThen(s2, "+k3s") == Some(s3)
    ensures VersionLen(s) == if Span(IsDigit, s3) == 0 then None else Some(|s| - |s3| + Span(IsDigit, s3))
  {
    hide DigitsThen, Span;
  }

  lemma {:induction false} BehindLetter(s0: string)
    ensures ("v" + s0)[0] == 'v' && ("v" + s0)[1..] == s0
  {
  }

  lemma {:induction false} SpanOfDigits(d: string, rest: string)
    requires AllDigits(d) && (rest != "" ==> !IsDigit(rest[0]))
    ensures Span(IsDigit, d + rest) == |d| > 0
  {
    SpanAt(IsDigit, d, rest);
  }

  lemma {:induction false} VersionLenOf(s: string, a: string, b: string, c: string, d: string, rest: string)
    requires AllDigits(a) && AllDigits(b) && AllDigits(c) && AllDigits(d) && (rest != "" ==> !IsDigit(rest[0]))
    requires s == Versioned(a, b, c, d, rest)
    ensures |rest| <= |s| && VersionLen(s) == Some(|s| - |rest|)
  {
    hide DigitsThen, Span, VersionLen, AllDigits;
    var s3 := d + rest;
    var s2 := c + ("+k3s" + s3);
    var s1 := b + ("." + s2);
    var s0 := a + ("." + s1);
    assert s == "v" + s0;
    hide Versioned;
    Literals();
    BehindLetter(s0);
    DigitsThenOf(a, ".", s1);
    DigitsThenOf(b, ".", s2);
    DigitsThenOf(c, "+k3s", s3);
    SpanOfDigits(d, rest);
    VersionSteps(s, s0, s1, s2, s3);
  }

  lemma {:induction false} VersionLenSplits(s: string) returns (a: string, b: string, c: string, d: string, rest: string)
    requires VersionLen(s).Some?
    ensures AllDigits(a) && AllDigits(b) && AllDigits(c) && AllDigits(d) && (rest != "" ==> !IsDigit(rest[0]))
    ensures s == Versioned(a, b, c, d, rest)
  {
    var s0 := s[1..];
    hide AllDigits, DigitsThen, Span;
    var s1 := DigitsThen(s0, ".").value;
    var s2 := DigitsThen(s1, ".").value;
    var s3 := DigitsThen(s2, "+k3s").value;
    assert s == "v" + s0 && Span(IsDigit, s3) > 0;
    hide VersionLen;
    a := DigitsThenSplits(s0, ".");
    b := DigitsThenSplits(s1, ".");
    c := DigitsThenSplits(s2, "+k3s");
    d, rest := LastDigits(s3);
  }

  lemma {:induction false} LastDigits(s: string) returns (d: string, rest: string)
    requires Span(IsDigit, s) > 0
    ensures s == d + rest && AllDigits(d) && (rest != "" ==> !IsDigit(rest[0]))
  {
    var n := Span(IsDigit, s);
    d, rest := s[..n], s[n..];
  }

  /** The pattern takes exactly the version at the head of the text. */
  lemma {:induction false} VersionLenExactly(s: string, v: string)
    ensures VersionAt(s, v) <==> VersionLen(s) == Some(|v|) && |v| <= |s| && v == s[..|v|]
  {
    hide Versioned, AllDigits, VersionLen;
    if VersionAt(s, v) {
      var a, b, c, d, rest :| AllDigits(a) && AllDigits(b) && AllDigits(c) && AllDigits(d) && (rest != "" ==> !IsDigit(rest[0])) &&
        s == Versioned(a, b, c, d, rest) && |rest| <= |s| && v == s[..|s| - |rest|];
      VersionLenOf(s, a, b, c, d, rest);
    }
    if VersionLen(s) == Some(|v|) && |v| <= |s| && v == s[..|v|] {
      var a, b, c, d, rest := VersionLenSplits(s);
      VersionLenOf(s, a, b, c, d, rest);
    }
  }

  /** The search finds the version at the first place where one stands. */
  lemma {:induction false} FindVersionExactly(s: string, v: string)
    ensures FindVersion(s) == Some(v) <==> exists p: nat :: FirstVersion(s, p, v)
    decreases |s|
  {
    hide VersionAt, VersionLen;
    forall w { VersionLenExactly(s, w); }
    match VersionLen(s) {
      case Some(n) =>
        assert s[0..] == s && VersionAt(s, s[..n]);
        if v == s[..n] { assert FirstVersion(s, 0, v); }
        if p: nat :| FirstVersion(s, p, v) { assert p == 0; }
      case None =>
        if s != "" {
          var t := s[1..];
          FindVersionExactly(t, v);
          assert forall q: nat | 0 < q <= |s| :: s[q..] == t[q - 1..];
          if p: nat :| FirstVersion(t, p, v) {
            forall q: nat, w | q < p + 1 ensures !VersionAt(s[q..], w) {
              if q > 0 { assert s[q..] == t[q - 1..]; } else { assert s[0..] == s; }
            }
            assert FirstVersion(s, p + 1, v);
          }
          if p: nat :| FirstVersion(s, p, v) {
            assert s[0..] == s;
            assert p > 0;
            forall q: nat, w | q < p - 1 ensures !VersionAt(t[q..], w) { assert t[q..] == s[q + 1..]; }
            assert FirstVersion(t, p - 1, v);
          }
        } else {
          assert s[0..] == s;
        }
    }
  }

  /** The first version in the text, if there is one, is the pinned one. */
  ghost predicate OnlyPinned(s: string, pinned: string) {
    forall p: nat, v | FirstVersion(s, p, v) :: v == pinned
  }

  /** A machine passes the health test if and only if it can be reached, its unit is
      active, a server has its kubeconfig, and the first version in what it says of
      itself, if there is one, is the pinned one. */
  lemma {:induction false} HealthyExactly(kind: Kind, h: Host, pinned: string)
    ensures Healthy(kind, h, pinned) <==>
            && h.reachable
            && (kind == Server ==> h.serverActive && h.kubeconfig)
            && (kind == Agent ==> h.agentActive)
            && OnlyPinned(h.versionOutput, pinned)
  {
    hide FindVersion, FirstVersion;
    var s := h.versionOutput;
    forall p: nat, v | FirstVersion(s, p, v) ensures FindVersion(s) == Some(v) { FindVersionExactly(s, v); }
    if FindVersion(s).Some? {
      FindVersionExactly(s, FindVersion(s).value);
      var p: nat :| FirstVersion(s, p, FindVersion(s).value);
    }
  }

  // ----- the phase as a function -----

  /** The upstream installer: its success, and the machine it leaves. */
  type Upstream = (Kind, string, Host) -> (bool, Host)

  datatype Event = Invoke(kind: Kind, ip: string) | ReadToken

  datatype Cluster = Cluster(hosts: map<string, Host>, log: seq<Event>) {
    function At(ip: string): Host { if ip in hosts then hosts[ip] else DOWN }
  }

  /** `install_server` or `install_agent` on one machine. */
  function InstallOne(kind: Kind, ip: string, c: Cluster, up: Upstream, pinned: string): (Cluster, bool) {
    if Healthy(kind, c.At(ip), pinned) then (c, true)
    else
      var (ok, h) := up(kind, ip, c.At(ip));
      (Cluster(c.hosts[ip := h], c.log + [Invoke(kind, ip)]), ok)
  }

  /** The machines from the `i`-th on; the result is the number of those that are
      through, all of them unless one fails. */
  function InstallFrom(kind: Kind, vms: seq<Vm>, i: nat, c: Cluster, up: Upstream, pinned: string): (r: (Cluster, nat))
    requires i <= |vms|
    ensures i <= r.1 <= |vms|
    decreases |vms| - i
  {
    if i == |vms| then (c, i)
    else
      var (c1, ok) := InstallOne(kind, vms[i].ip, c, up, pinned);
      if !ok then (c1, i) else InstallFrom(kind, vms, i + 1, c1, up, pinned)
  }

  datatype Failure = NoControlPlane | InstallFailed(kind: Kind, index: nat) | TokenUnreadable | TokenEmpty | NoCpIp

  /** The address agents join on: that of the first control plane, or else of the
      first one with a name and an address. */
  function CpIp(cps: seq<Vm>): string {
    if cps == [] then ""
    else if cps[0].ip != "" then cps[0].ip
    else FirstNamed(cps)
  }

  function FirstNamed(cps: seq<Vm>): string {
    if cps == [] then ""
    else if cps[0].name != "" && cps[0].ip != "" then cps[0].ip
    else FirstNamed(cps[1..])
  }

  /** `_run_install_k3s`; `token` is what the read of the join token yields. */
  function Phase(cps: seq<Vm>, workers: seq<Vm>, c: Cluster, token: Option<string>, up: Upstream, pinned: string)
    : (Cluster, Option<Failure>)
  {
    if cps == [] then (c, Some(NoControlPlane))
    else
      var (c1, n) := InstallFrom(Server, cps, 0, c, up, pinned);
      if n < |cps| then (c1, Some(InstallFailed(Server, n)))
      else
        var c2 := c1.(log := c1.log + [ReadToken]);
        if token == None then (c2, Some(TokenUnreadable))
        else if Strip(token.value) == "" then (c2, Some(TokenEmpty))
        else if workers != [] && CpIp(cps) == "" then (c2, Some(NoCpIp))
        else
          var (c3, m) := InstallFrom(Agent, workers, 0, c2, up, pinned);
          if m < |workers| then (c3, Some(InstallFailed(Agent, m))) else (c3, None)
  }

  // ----- the phase as a program -----

  class Installer {
    const up: Upstream
    const pinned: string
    var hosts: map<string, Host>
    ghost var log: seq<Event>

    constructor (up: Upstream, pinned: string, hosts: map<string, Host>)
      ensures this.up == up && this.pinned == pinned && this.hosts == hosts && log == []
    {
      this.up, this.pinned, this.hosts, this.log := up, pinned, hosts, [];
    }

    ghost function View(): Cluster
      reads this
    {
      Cluster(hosts, log)
    }

    method Install(kind: Kind, ip: string) returns (ok: bool)
      modifies this
      ensures (View(), ok) == InstallOne(kind, ip, old(View()), up, pinned)
    {
      var h := if ip in hosts then hosts[ip] else DOWN;
      if Healthy(kind, h, pinned) {
        return true;
      }
      var (done, after) := up(kind, ip, h);
      hosts := hosts[ip := after];
      log := log + [Invoke(kind, ip)];
      return done;
    }

    method RunInstallK3s(cps: seq<Vm>, workers: seq<Vm>, token: Option<string>) returns (r: Option<Failure>)
      modifies this
      ensures (View(), r) == Phase(cps, workers, old(View()), token, up, pinned)
    {
      if cps == [] {
        return Some(NoControlPlane);
      }
      for i := 0 to |cps|
        invariant InstallFrom(Server, cps, i, View(), up, pinned) == InstallFrom(Server, cps, 0, old(View()), up, pinned)
      {
        var ok := Install(Server, cps[i].ip);
        if !ok {
          return Some(InstallFailed(Server, i));
        }
      }
      log := log + [ReadToken];
      if token == None {
        return Some(TokenUnreadable);
      }
      if Strip(token.value) == "" {
        return Some(TokenEmpty);
      }
      ghost var joined := View();
      for i := 0 to |workers|
        invariant if i == 0 then View() == joined else CpIp(cps) != ""
        invariant InstallFrom(Agent, workers, i, View(), up, pinned) == InstallFrom(Agent, workers, 0, joined, up, pinned)
      {
        if CpIp(cps) == "" {
          return Some(NoCpIp);
        }
        var ok := Install(Agent, workers[i].ip);
        if !ok {
          return Some(InstallFailed(Agent, i));
        }
      }
      return None;
    }
  }

  // ----- convergence -----

  function Other(kind: Kind): Kind { if kind == Server then Agent else Server }

  /** The upstream installer keeps its word: when it reports success, the machine
      passes the health test it was installed for, and still passes the other one
      if it did before. */
  ghost predicate Honest(up: Upstream, pinned: string) {
    forall kind, ip, h {:trigger up(kind, ip, h)} :: up(kind, ip, h).0 ==>
      && Healthy(kind, up(kind, ip, h).1, pinned)
      && (Healthy(Other(kind), h, pinned) ==> Healthy(Other(kind), up(kind, ip, h).1, pinned))
  }

  ghost predicate AllHealthy(kind: Kind, vms: seq<Vm>, c: Cluster, pinned: string) {
    forall i | 0 <= i < |vms| :: Healthy(kind, c.At(vms[i].ip), pinned)
  }

  /** One installation: a healthy machine is left alone, any other is what the installer
      run on it leaves; no other machine is touched. With an installer that keeps its
      word the machine is healthy after success, and none gets worse except the one a
      failing installer was run on. */
  lemma {:induction false} OneInstall(kind: Kind, ip: string, c: Cluster, up: Upstream, pinned: string)
    ensures var (c1, ok) := InstallOne(kind, ip, c, up, pinned);
      && (ok, c1.At(ip)) == (if Healthy(kind, c.At(ip), pinned) then (true, c.At(ip)) else up(kind, ip, c.At(ip)))
      && (forall other | other != ip :: c1.At(other) == c.At(other))
    ensures Honest(up, pinned) ==>
      var (c1, ok) := InstallOne(kind, ip, c, up, pinned);
      && (ok ==> Healthy(kind, c1.At(ip), pinned))
      && (forall k, other | Healthy(k, c.At(other), pinned) && (ok || other != ip) :: Healthy(k, c1.At(other), pinned))
  {
    hide VersionMatches;
    assert Server == Other(Agent) && Agent == Other(Server);
  }

  /** What a row of machines adds to the log, whatever the installer does: nothing
      but invocations of its kind, and a row that gets through adds none if and only
      if all its machines were healthy. */
  lemma {:induction false} RowLog(kind: Kind, vms: seq<Vm>, i: nat, c: Cluster, up: Upstream, pinned: string)
    requires i <= |vms|
    ensures var (c1, n) := InstallFrom(kind, vms, i, c, up, pinned);
      && |c.log| <= |c1.log| && c1.log[..|c.log|] == c.log
      && (forall k | |c.log| <= k < |c1.log| :: c1.log[k].Invoke? && c1.log[k].kind == kind)
      && (n == |vms| ==> (|c1.log| == |c.log| <==> forall j | i <= j < |vms| :: Healthy(kind, c.At(vms[j].ip), pinned)))
      && (|c1.log| == |c.log| ==> c1 == c)
    decreases |vms| - i
  {
    hide Healthy;
    if i < |vms| {
      var ip := vms[i].ip;
      var (c1, ok) := InstallOne(kind, ip, c, up, pinned);
      assert if Healthy(kind, c.At(ip), pinned) then c1 == c else c1.log == c.log + [Invoke(kind, ip)];
      if ok {
        RowLog(kind, vms, i + 1, c1, up, pinned);
        var last := InstallFrom(kind, vms, i + 1, c1, up, pinned).0;
        assert last.log[..|c.log|] == last.log[..|c1.log|][..|c.log|];
        if |c1.log| > |c.log| { assert last.log[|c.log|] == last.log[..|c1.log|][|c.log|]; }
      }
    }
  }

  /** What a row does to the machines, with an installer that keeps its word. */
  lemma {:induction false} RowInstalls(kind: Kind, vms: seq<Vm>, i: nat, c: Cluster, up: Upstream, pinned: string)
    requires Honest(up, pinned) && i <= |vms|
    ensures var (c1, n) := InstallFrom(kind, vms, i, c, up, pinned);
      && (forall j | i <= j < n :: n == |vms| || vms[j].ip != vms[n].ip ==> Healthy(kind, c1.At(vms[j].ip), pinned))
      && (forall k, other | Healthy(k, c.At(other), pinned) && (n == |vms| || other != vms[n].ip) :: Healthy(k, c1.At(other), pinned))
    decreases |vms| - i
  {
    hide Honest;
    hide Healthy;
    if i < |vms| {
      var ip := vms[i].ip;
      var (c1, ok) := InstallOne(kind, ip, c, up, pinned);
      OneInstall(kind, ip, c, up, pinned);
      if ok { RowInstalls(kind, vms, i + 1, c1, up, pinned); }
    }
  }

  /** A normal return leaves every machine healthy by the code's own test: within reach,
      with its unit active, a server with its kubeconfig, and no other version shown
      first than the pinned one. */
  lemma {:induction false} PhaseConverges(cps: seq<Vm>, workers: seq<Vm>, c: Cluster, token: Option<string>, up: Upstream, pinned: string)
    requires Honest(up, pinned) && Phase(cps, workers, c, token, up, pinned).1 == None
    ensures var c1 := Phase(cps, workers, c, token, up, pinned).0;
      && AllHealthy(Server, cps, c1, pinned) && AllHealthy(Agent, workers, c1, pinned)
      && (forall i | 0 <= i < |cps| :: var h := c1.At(cps[i].ip);
            h.reachable && h.serverActive && h.kubeconfig && OnlyPinned(h.versionOutput, pinned))
      && (forall i | 0 <= i < |workers| :: var h := c1.At(workers[i].ip);
            h.reachable && h.agentActive && OnlyPinned(h.versionOutput, pinned))
  {
    hide Honest, Healthy, InstallFrom, OnlyPinned;
    RowInstalls(Server, cps, 0, c, up, pinned);
    var c1 := InstallFrom(Server, cps, 0, c, up, pinned).0;
    RowInstalls(Agent, workers, 0, c1.(log := c1.log + [ReadToken]), up, pinned);
    var last := Phase(cps, workers, c, token, up, pinned).0;
    hide Phase;
    forall i | 0 <= i < |cps| { HealthyExactly(Server, last.At(cps[i].ip), pinned); }
    forall i | 0 <= i < |workers| { HealthyExactly(Agent, last.At(workers[i].ip), pinned); }
  }

  /** A row that stops has just run the installer on the machine it stops at. */
  lemma {:induction false} RowStops(kind: Kind, vms: seq<Vm>, i: nat, c: Cluster, up: Upstream, pinned: string)
    requires i <= |vms|
    ensures var (c1, n) := InstallFrom(kind, vms, i, c, up, pinned);
      n < |vms| ==> c1.log != [] && c1.log[|c1.log| - 1] == Invoke(kind, vms[n].ip)
    decreases |vms| - i
  {
    hide Healthy;
    if i < |vms| {
      var (c1, ok) := InstallOne(kind, vms[i].ip, c, up, pinned);
      if ok { RowStops(kind, vms, i + 1, c1, up, pinned); }
    }
  }

  lemma {:induction false} NoAddress(cps: seq<Vm>)
    ensures FirstNamed(cps) == "" <==> forall i | 0 <= i < |cps| :: cps[i].name == "" || cps[i].ip == ""
    decreases |cps|
  {
    if cps != [] {
      NoAddress(cps[1..]);
      assert forall i | 1 <= i < |cps| :: cps[i] == cps[1..][i - 1];
    }
  }

  /** An error leaves the machines before it healthy: all servers once the token is
      read, and in a row all those before the failing machine, that machine's own
      address aside. And each error says why: the installer failed on that machine just
      now, the token could not be read or is blank, or no control plane has an address
      to join on. */
  lemma {:induction false} ErrorKeepsEarlier(cps: seq<Vm>, workers: seq<Vm>, c: Cluster, token: Option<string>, up: Upstream, pinned: string)
    requires Honest(up, pinned) && Phase(cps, workers, c, token, up, pinned).1.Some?
    ensures var (c1, e) := Phase(cps, workers, c, token, up, pinned);
      match e.value
      case NoControlPlane => c1 == c && cps == []
      case InstallFailed(Server, n) =>
        && n < |cps| && c1.log != [] && c1.log[|c1.log| - 1] == Invoke(Server, cps[n].ip)
        && (forall j | 0 <= j < n && cps[j].ip != cps[n].ip :: Healthy(Server, c1.At(cps[j].ip), pinned))
      case InstallFailed(Agent, n) =>
        && n < |workers| && c1.log != [] && c1.log[|c1.log| - 1] == Invoke(Agent, workers[n].ip)
        && (forall j | 0 <= j < |cps| && cps[j].ip != workers[n].ip :: Healthy(Server, c1.At(cps[j].ip), pinned))
        && (forall j | 0 <= j < n && workers[j].ip != workers[n].ip :: Healthy(Agent, c1.At(workers[j].ip), pinned))
      case TokenUnreadable => AllHealthy(Server, cps, c1, pinned) && token == None
      case TokenEmpty => AllHealthy(Server, cps, c1, pinned) && token.Some? && Strip(token.value) == ""
      case NoCpIp =>
        && AllHealthy(Server, cps, c1, pinned) && workers != [] && cps != [] && cps[0].ip == ""
        && forall j | 0 <= j < |cps| :: cps[j].name == "" || cps[j].ip == ""
  {
    hide Honest, Healthy, InstallFrom, FirstNamed;
    if cps != [] {
      NoAddress(cps);
      RowInstalls(Server, cps, 0, c, up, pinned);
      RowStops(Server, cps, 0, c, up, pinned);
      var c1 := InstallFrom(Server, cps, 0, c, up, pinned).0;
      var c2 := c1.(log := c1.log + [ReadToken]);
      RowInstalls(Agent, workers, 0, c2, up, pinned);
      RowStops(Agent, workers, 0, c2, up, pinned);
    }
  }

  /** No agent is installed before the join token is read. */
  lemma {:induction false} TokenBeforeAgents(cps: seq<Vm>, workers: seq<Vm>, c: Cluster, token: Option<string>, up: Upstream,
                                             pinned: string, k: nat)
    requires var log := Phase(cps, workers, c, token, up, pinned).0.log;
      |c.log| <= k < |log| && log[k].Invoke? && log[k].kind == Agent
    ensures var log := Phase(cps, workers, c, token, up, pinned).0.log;
      exists j | |c.log| <= j < k :: log[j] == ReadToken
  {
    hide Healthy;
    hide InstallFrom;
    if cps != [] {
      RowLog(Server, cps, 0, c, up, pinned);
      var (c1, n) := InstallFrom(Server, cps, 0, c, up, pinned);
      var c2 := c1.(log := c1.log + [ReadToken]);
      RowLog(Agent, workers, 0, c2, up, pinned);
      var last := Phase(cps, workers, c, token, up, pinned).0;
      if n == |cps| {
        assert last.log[|c1.log|] == ReadToken by { assert last.log[..|c2.log|] == c2.log; }
        assert last.log[..|c1.log|] == c1.log by { assert last.log[..|c2.log|][..|c1.log|] == c1.log; }
        assert forall i | 0 <= i < |c1.log| :: last.log[i] == last.log[..|c1.log|][i];
      }
    }
  }

  /** A run that returns normally invokes no installer exactly when every machine
      was healthy before; then nothing at all is changed. */
  lemma {:induction false} NothingToDo(cps: seq<Vm>, workers: seq<Vm>, c: Cluster, token: Option<string>, up: Upstream, pinned: string)
    requires Phase(cps, workers, c, token, up, pinned).1 == None
    ensures var c1 := Phase(cps, workers, c, token, up, pinned).0;
      && (c1.log == c.log + [ReadToken] <==> AllHealthy(Server, cps, c, pinned) && AllHealthy(Agent, workers, c, pinned))
      && (c1.log == c.log + [ReadToken] ==> c1.hosts == c.hosts)
  {
    hide Healthy;
    hide InstallFrom;
    RowLog(Server, cps, 0, c, up, pinned);
    var c1 := InstallFrom(Server, cps, 0, c, up, pinned).0;
    var c2 := c1.(log := c1.log + [ReadToken]);
    RowLog(Agent, workers, 0, c2, up, pinned);
    var last := InstallFrom(Agent, workers, 0, c2, up, pinned).0;
    if |c1.log| == |c.log| {
      assert forall ip :: c2.At(ip) == c.At(ip);
    }
    if last.log == c.log + [ReadToken] { assert |c1.log| == |c.log| && |last.log| == |c2.log|; }
  }

  /** A second run over the machines a successful one left invokes no installer. */
  lemma {:induction false} SecondRunIsIdle(cps: seq<Vm>, workers: seq<Vm>, c: Cluster, token: Option<string>, up: Upstream, pinned: string)
    requires Honest(up, pinned) && Phase(cps, workers, c, token, up, pinned).1 == None
    ensures var c1 := Phase(cps, workers, c, token, up, pinned).0;
      Phase(cps, workers, c1, token, up, pinned) == (c1.(log := c1.log + [ReadToken]), None)
  {
    hide Honest;
    hide Healthy;
    var c1 := Phase(cps, workers, c, token, up, pinned).0;
    PhaseConverges(cps, workers, c, token, up, pinned);
    IdleRow(Server, cps, 0, c1, up, pinned);
    IdleRow(Agent, workers, 0, c1.(log := c1.log + [ReadToken]), up, pinned);
  }

  lemma {:induction false} IdleRow(kind: Kind, vms: seq<Vm>, i: nat, c: Cluster, up: Upstream, pinned: string)
    requires i <= |vms| && AllHealthy(kind, vms, c, pinned)
    ensures InstallFrom(kind, vms, i, c, up, pinned) == (c, |vms|)
    decreases |vms| - i
  {
    hide Healthy;
    if i < |vms| { IdleRow(kind, vms, i + 1, c, up, pinned); }
  }
}
