/** The ssh command lines of the jump-host proxy, and how ssh reads them. */
module SshCommand {
  import opened Text
  import opened Shell
  import RemoteInstall

  datatype Command = NoCommand | Line(text: string) | Words(words: seq<string>)

  /** A proxy: the words of the jump-host setting, such as `root@host -p 6022`,
      and the user to log in as behind it. */
  datatype Proxy = Proxy(jump: seq<string>, user: string)

  /** The documented shape: a host first, then its flags. */
  predicate WellFormed(p: Proxy) {
    p.jump != [] && !StartsWith(p.jump[0], "-") && !StartsWith(p.user, "-")
  }

  /** Settings as `-o` arguments. */
  function Options(settings: seq<string>): seq<string> {
    if settings == [] then [] else ["-o", settings[0]] + Options(settings[1..])
  }

  const BASE := ["BatchMode=yes", "StrictHostKeyChecking=no", "UserKnownHostsFile=/dev/null"]

  /** `s.split("@", 1)[-1]`. */
  function AfterAt(s: string): string {
    var j := Find(s, '@', 0);
    if j == -1 then s else s[j + 1..]
  }

  /** `s.split(":", 1)[0]`. */
  function BeforeColon(s: string): string {
    var j := Find(s, ':', 0);
    if j == -1 then s else s[..j]
  }

  predicate IsJumpHost(p: Proxy, target: string)
    requires p.jump != []
  {
    BeforeColon(AfterAt(target)) == AfterAt(p.jump[0])
  }

  function ProxyWords(p: Proxy): seq<string> {
    ["ssh"] + p.jump + ["-W", "%h:%p"]
  }

  function ProxyOption(p: Proxy): seq<string> {
    ["-o", "ProxyCommand=" + QuoteJoin(ProxyWords(p))]
  }

  function Tail(command: Command): seq<string> {
    match command
    case NoCommand => []
    case Line(t) => ["--", t]
    case Words(ws) => ["--"] + QuoteAll(ws)
  }

  function SshArgv(p: Proxy, target: string, command: Command): seq<string>
    requires p.jump != []
  {
    ["ssh"] + Options(BASE)
    + (if IsJumpHost(p, target) then ["ssh"] + p.jump
       else ProxyOption(p) + [p.user + "@" + target])
    + Tail(command)
  }

  const KEEPALIVE := ["ExitOnForwardFailure=yes", "ServerAliveInterval=15", "ServerAliveCountMax=4"]

  function ForwardSpec(local: nat, bind: string, remote: nat): string { Dec(local) + ":" + bind + ":" + Dec(remote) }

  /** The argv that `port_forward` starts. */
  function ForwardArgv(p: Proxy, target: string, local: nat, bind: string, remote: nat): seq<string>
    requires p.jump != []
  {
    ["ssh"] + Options(BASE)
    + (if IsJumpHost(p, target) then ["ssh"] + p.jump
       else ProxyOption(p) + ["-N", "-L", ForwardSpec(local, bind, remote)] + Options(KEEPALIVE) + [p.user + "@" + target])
  }

  // ----- ssh's own reading of its arguments -----

  /** The destination, the first proxy command, the other settings in order, the forwards,
      whether it is for forwarding only, and the remote command. */
  datatype Call = Call(destination: Option<string>, proxyCommand: Option<string>, settings: seq<string>,
                       forwards: seq<string>, idle: bool, command: seq<string>)

  const NO_CALL := Call(None, None, [], [], false, [])

  function NoteOption(c: Call, v: string): Call {
    if !StartsWith(v, "ProxyCommand=") then c.(settings := c.settings + [v])
    else if c.proxyCommand == None then c.(proxyCommand := Some(v[|"ProxyCommand="|..]))
    else c
  }

  /** Options up to and around the first operand, which is the destination; the
      second operand, or `--` after the destination, starts the remote command. */
  function ReadArgs(args: seq<string>, c: Call): Call
    decreases |args|
  {
    if args == [] then c
    else if args[0] == "--" then
      if c.destination.Some? then c.(command := args[1..])
      else if |args| == 1 then c
      else c.(destination := Some(args[1]), command := args[2..])
    else if StartsWith(args[0], "-") then
      if args[0] in {"-o", "-p", "-L", "-W"} then
        if |args| == 1 then c
        else if args[0] == "-o" then ReadArgs(args[2..], NoteOption(c, args[1]))
        else if args[0] == "-L" then ReadArgs(args[2..], c.(forwards := c.forwards + [args[1]]))
        else ReadArgs(args[2..], c)
      else ReadArgs(args[1..], if args[0] == "-N" then c.(idle := true) else c)
    else if c.destination.Some? then c.(command := args)
    else ReadArgs(args[1..], c.(destination := Some(args[0])))
  }

  function SshReads(argv: seq<string>): Call
    requires argv != []
  {
    ReadArgs(argv[1..], NO_CALL)
  }

  /** What the login shell at the destination is given: ssh joins the command
      words with blanks. */
  function RemoteText(c: Call): string { Join(" ", c.command) }

  // ----- properties -----

  lemma {:induction false} ReadOption(v: string, rest: seq<string>, c: Call)
    ensures ReadArgs(["-o", v] + rest, c) == ReadArgs(rest, NoteOption(c, v))
  {
    assert (["-o", v] + rest)[2..] == rest;
  }

  lemma {:induction false} ReadOptions(settings: seq<string>, rest: seq<string>, c: Call)
    requires forall v | v in settings :: !StartsWith(v, "ProxyCommand=")
    ensures ReadArgs(Options(settings) + rest, c) == ReadArgs(rest, c.(settings := c.settings + settings))
    decreases |settings|
  {
    hide ReadArgs;
    if settings == [] {
      assert Options(settings) + rest == rest && c.settings + settings == c.settings;
    } else {
      var tail := Options(settings[1..]) + rest;
      assert Options(settings) + rest == ["-o", settings[0]] + tail;
      ReadOption(settings[0], tail, c);
      var next := c.(settings := c.settings + [settings[0]]);
      ReadOptions(settings[1..], rest, next);
      assert next.settings + settings[1..] == c.settings + settings;
    }
  }

  lemma {:induction false} NoProxyAmong()
    ensures forall v | v in BASE :: !StartsWith(v, "ProxyCommand=")
    ensures forall v | v in KEEPALIVE :: !StartsWith(v, "ProxyCommand=")
  {
    assert forall v | v in BASE :: v[0] != 'P';
    assert forall v | v in KEEPALIVE :: v[0] != 'P';
  }

  lemma {:induction false} ReadProxy(p: Proxy, rest: seq<string>, c: Call)
    requires c.proxyCommand == None
    ensures ReadArgs(ProxyOption(p) + rest, c) == ReadArgs(rest, c.(proxyCommand := Some(QuoteJoin(ProxyWords(p)))))
  {
    var v := "ProxyCommand=" + QuoteJoin(ProxyWords(p));
    assert v[|"ProxyCommand="|..] == QuoteJoin(ProxyWords(p));
    ReadOption(v, rest, c);
  }

  lemma {:induction false} ReadDestination(d: string, rest: seq<string>, c: Call)
    requires !StartsWith(d, "-") && c.destination == None
    ensures ReadArgs([d] + rest, c) == ReadArgs(rest, c.(destination := Some(d)))
  {
    assert ([d] + rest)[1..] == rest;
  }

  lemma {:induction false} ReadTail(command: Command, c: Call)
    requires c.destination.Some? && c.command == []
    ensures ReadArgs(Tail(command), c) == c.(command := Tail(command)[if command == NoCommand then 0 else 1..])
  {
  }

  lemma {:induction false} UserAtTarget(p: Proxy, target: string)
    requires WellFormed(p)
    ensures !StartsWith(p.user + "@" + target, "-") && p.user + "@" + target != "ssh"
  {
    var d := p.user + "@" + target;
    assert d[|p.user|] == '@';
    if p.user == "" { assert d[0] == '@'; } else { assert d[0] == p.user[0]; assert p.user[..1] == [p.user[0]]; }
    assert forall i | 0 <= i < 3 :: "ssh"[i] != '@';
  }

  function ProxyCall(p: Proxy): Call {
    Call(None, Some(QuoteJoin(ProxyWords(p))), BASE, [], false, [])
  }

  lemma {:induction false} ReadHead(p: Proxy, rest: seq<string>)
    ensures ReadArgs(Options(BASE) + (ProxyOption(p) + rest), NO_CALL) == ReadArgs(rest, ProxyCall(p))
  {
    NoProxyAmong();
    assert [] + BASE == BASE;
    hide BASE, ReadArgs, ProxyOption, NoteOption;
    ReadOptions(BASE, ProxyOption(p) + rest, NO_CALL);
    ReadProxy(p, rest, NO_CALL.(settings := BASE));
  }

  /** The direct branch: the destination ssh reads is the second program name. */
  lemma {:induction false} ReadDirect(p: Proxy, args: seq<string>, rest: seq<string>)
    requires WellFormed(p)
    requires args == Options(BASE) + (["ssh"] + (p.jump + rest))
    ensures ReadArgs(args, NO_CALL) == Call(Some("ssh"), None, BASE, [], false, p.jump + rest)
  {
    var words := p.jump + rest;
    assert "ssh"[0] != '-' && words[0] == p.jump[0];
    NoProxyAmong();
    assert [] + BASE == BASE;
    ReadOptions(BASE, ["ssh"] + words, NO_CALL);
    ReadDestination("ssh", words, NO_CALL.(settings := BASE));
    assert words[0] != "--";
  }

  lemma {:induction false} ReadBehind(p: Proxy, target: string, command: Command, args: seq<string>)
    requires WellFormed(p)
    requires args == Options(BASE) + (ProxyOption(p) + ([p.user + "@" + target] + Tail(command)))
    ensures ReadArgs(args, NO_CALL) ==
            ProxyCall(p).(destination := Some(p.user + "@" + target),
                          command := Tail(command)[if command == NoCommand then 0 else 1..])
  {
    var d := p.user + "@" + target;
    UserAtTarget(p, target);
    ReadHead(p, [d] + Tail(command));
    ReadDestination(d, Tail(command), ProxyCall(p));
    ReadTail(command, ProxyCall(p).(destination := Some(d)));
  }

  lemma {:induction false} Regroup(a: seq<string>, b: seq<string>, c: seq<string>, d: seq<string>)
    ensures (["ssh"] + a + (b + c) + d)[1..] == a + (b + (c + d))
  {
  }

  lemma {:induction false} RegroupForward(a: seq<string>, b: seq<string>, spec: string, k: seq<string>, d: seq<string>)
    ensures (["ssh"] + a + (b + ["-N", "-L", spec] + k + d))[1..] == a + (b + (["-N"] + (["-L", spec] + (k + d))))
  {
  }

  /** The words of a remote command as they are on the command line. */
  function Sent(command: Command): seq<string> {
    match command
    case NoCommand => []
    case Line(t) => [t]
    case Words(ws) => QuoteAll(ws)
  }

  lemma {:induction false} SpelledOut(p: Proxy)
    ensures BASE == ["BatchMode=yes", "StrictHostKeyChecking=no", "UserKnownHostsFile=/dev/null"]
    ensures KEEPALIVE == ["ExitOnForwardFailure=yes", "ServerAliveInterval=15", "ServerAliveCountMax=4"]
    ensures BASE + KEEPALIVE == ["BatchMode=yes", "StrictHostKeyChecking=no", "UserKnownHostsFile=/dev/null",
                                 "ExitOnForwardFailure=yes", "ServerAliveInterval=15", "ServerAliveCountMax=4"]
    ensures ProxyWords(p) == ["ssh"] + p.jump + ["-W", "%h:%p"]
  {
  }

  /** What ssh makes of a login argv: behind the jump host it lands on the target as the
      user, through a proxy that is ssh with the words of the jump host, with these
      settings and the command intact; for the jump host itself the destination it
      reads is the second program name, `ssh`, and all else is the command. */
  lemma {:induction false} LoginIsRead(p: Proxy, target: string, command: Command)
    requires WellFormed(p)
    ensures SshReads(SshArgv(p, target, command)) ==
      if IsJumpHost(p, target) then
        Call(Some("ssh"), None, ["BatchMode=yes", "StrictHostKeyChecking=no", "UserKnownHostsFile=/dev/null"], [], false,
             p.jump + if command == NoCommand then [] else ["--"] + Sent(command))
      else
        Call(Some(p.user + "@" + target), Some(QuoteJoin(["ssh"] + p.jump + ["-W", "%h:%p"])),
             ["BatchMode=yes", "StrictHostKeyChecking=no", "UserKnownHostsFile=/dev/null"], [], false, Sent(command))
    ensures SshReads(SshArgv(p, target, command)).destination == Some(p.user + "@" + target) <==> !IsJumpHost(p, target)
  {
    var args := SshArgv(p, target, command)[1..];
    UserAtTarget(p, target);
    SpelledOut(p);
    assert Tail(command) == if command == NoCommand then [] else ["--"] + Sent(command);
    if IsJumpHost(p, target) {
      Regroup(Options(BASE), ["ssh"], p.jump, Tail(command));
      ReadDirect(p, args, Tail(command));
    } else {
      Regroup(Options(BASE), ProxyOption(p), [p.user + "@" + target], Tail(command));
      ReadBehind(p, target, command, args);
      assert Tail(command)[if command == NoCommand then 0 else 1..] == Sent(command);
    }
  }

  // ----- which target is the jump host -----

  lemma {:induction false} AfterAtOf(a: string, b: string)
    requires '@' !in a
    ensures AfterAt(a + "@" + b) == b && AfterAt(a) == a
  {
    FindAt(a, '@', b);
    assert "@" == ['@'] && (a + "@" + b)[|a| + 1..] == b;
  }

  lemma {:induction false} BeforeColonOf(a: string, b: string)
    requires ':' !in a
    ensures BeforeColon(a + ":" + b) == a && BeforeColon(a) == a
  {
    FindAt(a, ':', b);
    assert ":" == [':'] && (a + ":" + b)[..|a|] == a;
  }

  /** A target is the jump host if and only if its host is, whatever user stands before
      and whatever port stands behind it. */
  lemma {:induction false} JumpHostExactly(p: Proxy, jumpUser: Option<string>, jumpHost: string,
                                           user: Option<string>, host: string, port: Option<string>)
    requires p.jump != [] && '@' !in jumpHost && '@' !in host && ':' !in host && '@' !in port.GetOr("")
    requires '@' !in jumpUser.GetOr("") && '@' !in user.GetOr("")
    requires p.jump[0] == (if jumpUser.Some? then jumpUser.value + "@" + jumpHost else jumpHost)
    ensures var place := if port.Some? then host + ":" + port.value else host;
      IsJumpHost(p, if user.Some? then user.value + "@" + place else place) <==> host == jumpHost
  {
    var place := if port.Some? then host + ":" + port.value else host;
    assert '@' !in place;
    hide AfterAt, BeforeColon;
    AfterAtOf(jumpUser.GetOr(""), jumpHost);
    AfterAtOf(jumpHost, "");
    AfterAtOf(user.GetOr(""), place);
    AfterAtOf(place, "");
    BeforeColonOf(host, port.GetOr(""));
  }

  const HOST := "kvm.bruj0.net"

  /** The documented jump host itself as the target: ssh takes `ssh` for the host. */
  lemma {:induction false} JumpHostMissed(user: string, command: Command)
    requires !StartsWith(user, "-")
    ensures var p := Proxy(["root@" + HOST, "-p", "6022"], user);
      && WellFormed(p) && IsJumpHost(p, HOST)
      && SshReads(SshArgv(p, HOST, command)).destination == Some("ssh")
  {
    var p := Proxy(["root@" + HOST, "-p", "6022"], user);
    HostOfJump();
    assert p.jump[0] == "root@" + HOST;
    hide HOST, AfterAt, BeforeColon, SshReads, SshArgv;
    JumpHostRead(p, HOST, command);
  }

  lemma {:induction false} HostOfJump()
    ensures AfterAt("root@" + HOST) == HOST && BeforeColon(AfterAt(HOST)) == HOST
    ensures !StartsWith("root@" + HOST, "-")
  {
    assert '@' !in HOST && ':' !in HOST;
    hide HOST;
    FindAt("root", '@', HOST);
    assert "root" + ['@'] + HOST == "root@" + HOST;
    assert ("root@" + HOST)[5..] == HOST;
    assert ("root@" + HOST)[0] == 'r';
  }

  lemma {:induction false} JumpHostRead(p: Proxy, target: string, command: Command)
    requires WellFormed(p) && IsJumpHost(p, target)
    ensures SshReads(SshArgv(p, target, command)).destination == Some("ssh")
  {
    var args := SshArgv(p, target, command)[1..];
    Regroup(Options(BASE), ["ssh"], p.jump, Tail(command));
    ReadDirect(p, args, Tail(command));
  }

  /** Word-list commands survive the trip: behind the jump host, the login shell
      splits what ssh sends into exactly the words given, and the local shell
      splits the ProxyCommand into exactly the proxy words. */
  lemma {:induction false} WordsSurviveLogin(p: Proxy, target: string, words: seq<string>)
    requires WellFormed(p) && !IsJumpHost(p, target)
    ensures var c := SshReads(SshArgv(p, target, Words(words)));
      && Tokens(RemoteText(c)) == Some(WordTokens(words))
      && c.proxyCommand.Some? && Tokens(c.proxyCommand.value) == Some(WordTokens(["ssh"] + p.jump + ["-W", "%h:%p"]))
  {
    LoginIsRead(p, target, Words(words));
    SplitQuoteJoin(words);
    SplitQuoteJoin(["ssh"] + p.jump + ["-W", "%h:%p"]);
  }

  /** A command line given as one text reaches the login shell as it is. */
  lemma {:induction false} LineSurvivesLogin(p: Proxy, target: string, line: string)
    requires WellFormed(p) && !IsJumpHost(p, target)
    ensures RemoteText(SshReads(SshArgv(p, target, Line(line)))) == line
  {
    LoginIsRead(p, target, Line(line));
  }

  /** All the way: the install command, sent by ssh to a machine behind the jump host
      and read by both shells there, is exactly the exports and the pipeline it was made
      of, if and only if all keys are shell names. */
  lemma {:induction false} InstallOverSsh(p: Proxy, target: string, env: RemoteInstall.Env, url: string, flags: seq<string>)
    requires WellFormed(p) && !IsJumpHost(p, target) && IsLiteral(url)
    requires forall i | 0 <= i < |env| :: RemoteInstall.KeyAllowed(env[i].0)
    ensures RemoteInstall.Deliver(RemoteText(SshReads(SshArgv(p, target, Line(RemoteInstall.AsRoot(RemoteInstall.Inner(env, url, flags))))))) ==
            Some(RemoteInstall.Script(env, [["curl", "-sfL", url], ["sh", "-s", "-"] + flags]))
            <==> RemoteInstall.AllNames(env)
  {
    var sent := RemoteInstall.AsRoot(RemoteInstall.Inner(env, url, flags));
    hide RemoteInstall.AsRoot, RemoteInstall.Inner, RemoteInstall.Deliver, RemoteInstall.Stages, RemoteInstall.KeyAllowed, RemoteInstall.AllNames;
    hide IsLiteral, WellFormed, SshReads, SshArgv, RemoteText, IsJumpHost;
    LineSurvivesLogin(p, target, sent);
    RemoteInstall.InstallCommandDelivered(env, url, flags);
  }

  /** What ssh makes of the forwarding argv: behind the jump host, the same login with no
      command, forwarding only, with the one forward from the local port to the bound
      address and port at the target, and with settings that end it when it fails; for
      the jump host itself a destination `ssh` and no forward. */
  lemma {:induction false} ForwardIsRead(p: Proxy, target: string, local: nat, bind: string, remote: nat)
    requires WellFormed(p)
    ensures SshReads(ForwardArgv(p, target, local, bind, remote)) ==
      if IsJumpHost(p, target) then
        Call(Some("ssh"), None, ["BatchMode=yes", "StrictHostKeyChecking=no", "UserKnownHostsFile=/dev/null"], [], false, p.jump)
      else
        Call(Some(p.user + "@" + target), Some(QuoteJoin(["ssh"] + p.jump + ["-W", "%h:%p"])),
             ["BatchMode=yes", "StrictHostKeyChecking=no", "UserKnownHostsFile=/dev/null",
              "ExitOnForwardFailure=yes", "ServerAliveInterval=15", "ServerAliveCountMax=4"],
             [Dec(local) + ":" + bind + ":" + Dec(remote)], true, [])
  {
    var argv := ForwardArgv(p, target, local, bind, remote);
    var args := argv[1..];
    SpelledOut(p);
    if IsJumpHost(p, target) {
      assert p.jump + [] == p.jump && argv + [] == argv;
      Regroup(Options(BASE), ["ssh"], p.jump, []);
      ReadDirect(p, args, []);
    } else {
      var d := [p.user + "@" + target];
      var spec := ForwardSpec(local, bind, remote);
      RegroupForward(Options(BASE), ProxyOption(p), spec, Options(KEEPALIVE), d);
      hide BASE, KEEPALIVE, ProxyWords, Options, ForwardArgv, SshArgv;
      ReadForwarding(p, target, spec, args);
    }
  }

  lemma {:induction false} ReadForwarding(p: Proxy, target: string, spec: string, args: seq<string>)
    requires WellFormed(p)
    requires args == Options(BASE) +
      (ProxyOption(p) + (["-N"] + (["-L", spec] + (Options(KEEPALIVE) + [p.user + "@" + target]))))
    ensures ReadArgs(args, NO_CALL) ==
            Call(Some(p.user + "@" + target), Some(QuoteJoin(ProxyWords(p))), BASE + KEEPALIVE, [spec], true, [])
  {
    var d := p.user + "@" + target;
    var rest := Options(KEEPALIVE) + [d];
    UserAtTarget(p, target);
    NoProxyAmong();
    hide BASE, KEEPALIVE, Options, ProxyOption, ReadArgs;
    ReadHead(p, ["-N"] + (["-L", spec] + rest));
    ReadForward(spec, rest, ProxyCall(p));
    var c := ProxyCall(p).(forwards := [spec], idle := true);
    ReadOptions(KEEPALIVE, [d], c);
    ReadDestination(d, [], c.(settings := BASE + KEEPALIVE));
    assert [d] + [] == [d];
    NothingLeft(c.(settings := BASE + KEEPALIVE, destination := Some(d)));
  }

  lemma {:induction false} NothingLeft(c: Call)
    ensures ReadArgs([], c) == c
  {
  }

  lemma {:induction false} ReadForward(spec: string, rest: seq<string>, c: Call)
    requires c.forwards == []
    ensures ReadArgs(["-N"] + (["-L", spec] + rest), c) == ReadArgs(rest, c.(forwards := [spec], idle := true))
  {
    var tail := ["-L", spec] + rest;
    assert (["-N"] + tail)[1..] == tail && tail[2..] == rest;
    assert c.forwards + [spec] == [spec];
    assert ReadArgs(["-N"] + tail, c) == ReadArgs(tail, c.(idle := true));
  }
}
