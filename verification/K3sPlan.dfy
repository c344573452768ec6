/** The install plans of servers and agents, and what the k3s binary at the far
    end of two shells is given for them. */
module K3sPlan {
  import opened Text
  import opened Shell
  import opened RemoteInstall
  import opened ServiceGateway
  import InstallPhase

  datatype Versions = Versions(version: string, channel: string, url: string)

  /** The keys of a machine's dict that the planner looks at. */
  datatype VmDict = VmDict(name: string, ip: string, svcCidr: Option<string>, podCidr: Option<string>,
                           clusterDns: Option<string>)

  datatype Member = Member(role: string, ip: Option<string>)

  /** The keys of the cluster's dict. */
  datatype ClusterDict = ClusterDict(controlPlaneIp: Option<string>, vms: seq<Member>, svcCidr: Option<string>,
                                     podCidr: Option<string>, clusterDns: Option<string>)

  datatype Plan = Plan(env: Env, flags: seq<string>)

  datatype PlanError = BlankToken | NoCpIp

  const DEFAULT_POD_CIDR := "172.16.0.0/16"
  const DEFAULT_CLUSTER_DNS := "172.17.0.10"

  // ----- options -----

  /** An option of a command line: `--name` or `--name=value`. */
  datatype Setting = Switch(name: string) | Setting(name: string, value: string)

  function Show(s: Setting): string {
    match s
    case Switch(n) => n
    case Setting(n, v) => n + "=" + v
  }

  function ShowAll(settings: seq<Setting>): (r: seq<string>)
    ensures |r| == |settings|
  {
    seq(|settings|, i requires 0 <= i < |settings| => Show(settings[i]))
  }

  // ----- the planner -----

  function SvcCidr(vm: VmDict, c: ClusterDict): string {
    FirstNonEmpty(vm.svcCidr, c.svcCidr, DEFAULT_SVC_CIDR)
  }

  function CommonEnv(vm: VmDict, v: Versions): Env {
    [("INSTALL_K3S_VERSION", v.version), ("INSTALL_K3S_CHANNEL", v.channel), ("K3S_NODE_NAME", vm.name)]
  }

  const SERVER_BASE := [
    Setting("--flannel-backend", "none"), Setting("--disable", "traefik"), Setting("--disable", "servicelb"),
    Setting("--disable", "local-storage"), Setting("--disable", "metrics-server"), Switch("--disable-kube-proxy"),
    Setting("--kubelet-arg", "cloud-provider=external")]

  function Addresses(ip: string): seq<Setting> {
    [Setting("--node-ip", ip), Setting("--node-external-ip", ip)]
  }

  const TLS_SAN := "--tls-san"

  function Network(ip: string, gateway: string, svc: string, pod: string, dns: string): seq<Setting> {
    [Setting(TLS_SAN, ip), Setting(TLS_SAN, gateway), Setting(TLS_SAN, "kubernetes.default.svc"),
     Setting("--cluster-cidr", pod), Setting("--service-cidr", svc), Setting("--cluster-dns", dns)]
  }

  /** The options of a server, in order. */
  function ServerSettings(vm: VmDict, c: ClusterDict): seq<Setting> {
    SERVER_BASE + Addresses(vm.ip) +
    Network(vm.ip, InstallerSan(vm.svcCidr, c.svcCidr), SvcCidr(vm, c), FirstNonEmpty(vm.podCidr, c.podCidr, DEFAULT_POD_CIDR),
            FirstNonEmpty(vm.clusterDns, c.clusterDns, DEFAULT_CLUSTER_DNS))
  }

  /** `plan_server`. */
  function PlanServer(vm: VmDict, c: ClusterDict, v: Versions): Plan {
    Plan(CommonEnv(vm, v), ["server"] + ShowAll(ServerSettings(vm, c)))
  }

  /** The address of the first member with the control-plane role. */
  function FirstControlPlane(vms: seq<Member>): string {
    if vms == [] then ""
    else if vms[0].role == "control_plane" then vms[0].ip.GetOr("")
    else FirstControlPlane(vms[1..])
  }

  function JoinAddress(c: ClusterDict): string {
    if c.controlPlaneIp.GetOr("") != "" then c.controlPlaneIp.value else FirstControlPlane(c.vms)
  }

  /** `plan_agent`. */
  function PlanAgent(vm: VmDict, c: ClusterDict, v: Versions, token: string): Result<Plan, PlanError> {
    if token == "" then Err(BlankToken)
    else if JoinAddress(c) == "" then Err(NoCpIp)
    else Ok(Plan(CommonEnv(vm, v) + [("K3S_URL", "https://" + JoinAddress(c) + ":6443"), ("K3S_TOKEN", token)],
                 ["agent"] + ShowAll(Addresses(vm.ip))))
  }

  /** The remote command a plan is turned into. */
  function Command(p: Plan, v: Versions): string { AsRoot(Inner(p.env, v.url, p.flags)) }

  // ----- the far end -----

  /** The name ends at the first equals sign. */
  function ReadSetting(word: string): Setting {
    var j := Find(word, '=', 0);
    if j == -1 then Switch(word) else Setting(word[..j], word[j + 1..])
  }

  function ReadSettings(words: seq<string>): (r: seq<Setting>)
    ensures |r| == |words|
  {
    seq(|words|, i requires 0 <= i < |words| => ReadSetting(words[i]))
  }

  /** What the install script is run with: its environment, the role and the options. */
  datatype Invocation = Invocation(exports: Env, role: string, settings: seq<Setting>)

  function Invoked(remote: string): Option<Invocation> {
    match Deliver(remote)
    case None => None
    case Some(s) =>
      if |s.stages| == 2 && |s.stages[1]| >= 4 && s.stages[1][..3] == ["sh", "-s", "-"]
      then Some(Invocation(s.exports, s.stages[1][3], ReadSettings(s.stages[1][4..]))) else None
  }

  // ----- every plan passes the guard -----

  predicate Keys(env: Env) {
    forall i | 0 <= i < |env| :: KeyAllowed(env[i].0) && IsName(env[i].0)
  }

  lemma {:induction false} CommonKeys(vm: VmDict, v: Versions)
    ensures Keys(CommonEnv(vm, v))
  {
    WordKey("INSTALL_K3S_VERSION");
    WordKey("INSTALL_K3S_CHANNEL");
    WordKey("K3S_NODE_NAME");
    hide KeyAllowed, IsName;
  }

  lemma {:induction false} WordKey(k: string)
    requires k != "" && IsWord(k[0]) && !IsDigit(k[0]) && k[0] != '_'
    requires forall i | 0 <= i < |k| :: IsWord(k[i])
    ensures KeyAllowed(k) && IsName(k)
  {
  }

  lemma {:induction false} AgentKeys(vm: VmDict, c: ClusterDict, v: Versions, token: string)
    requires PlanAgent(vm, c, v, token).Ok?
    ensures Keys(PlanAgent(vm, c, v, token).value.env)
  {
    CommonKeys(vm, v);
    WordKey("K3S_URL");
    WordKey("K3S_TOKEN");
    hide KeyAllowed, IsName, CommonEnv;
  }

  /** A plan whose keys are names arrives as it was made, whatever its values hold. */
  lemma {:induction false} PlanArrives(p: Plan, v: Versions)
    requires Keys(p.env) && p.flags != [] && IsLiteral(v.url)
    ensures Invoked(Command(p, v)) == Some(Invocation(p.env, p.flags[0], ReadSettings(p.flags[1..])))
  {
    hide KeyAllowed, IsName, IsLiteral, AsRoot, Inner, Deliver, ReadSetting;
    InstallCommandDelivered(p.env, v.url, p.flags);
    var stage := ["sh", "-s", "-"] + p.flags;
    assert Stages(v.url, p.flags)[1] == stage;
    assert stage[..3] == ["sh", "-s", "-"] && stage[3] == p.flags[0] && stage[4..] == p.flags[1..];
  }

  // ----- reading what was shown -----

  predicate NamesPlain(settings: seq<Setting>) {
    forall s | s in settings :: '=' !in s.name
  }

  lemma {:induction false} ReadShown(s: Setting)
    requires '=' !in s.name
    ensures ReadSetting(Show(s)) == s
  {
    if s.Setting? {
      FindAt(s.name, '=', s.value);
      assert Show(s)[..|s.name|] == s.name && Show(s)[|s.name| + 1..] == s.value;
    }
  }

  lemma {:induction false} ReadAllShown(settings: seq<Setting>)
    requires NamesPlain(settings)
    ensures ReadSettings(ShowAll(settings)) == settings
  {
    forall i | 0 <= i < |settings| ensures ReadSetting(ShowAll(settings)[i]) == settings[i] { ReadShown(settings[i]); }
    hide ReadSetting, Show;
  }

  lemma {:induction false} OptionNames()
    ensures '=' !in "--flannel-backend" && '=' !in "--disable" && '=' !in "--disable-kube-proxy"
    ensures '=' !in "--kubelet-arg" && '=' !in "--node-ip" && '=' !in "--node-external-ip"
    ensures '=' !in TLS_SAN && '=' !in "--cluster-cidr" && '=' !in "--service-cidr" && '=' !in "--cluster-dns"
  {
  }

  lemma {:induction false} PlainBase()
    ensures NamesPlain(SERVER_BASE)
  {
    OptionNames();
  }

  lemma {:induction false} PlainNames(ip: string, gateway: string, svc: string, pod: string, dns: string)
    ensures NamesPlain(Addresses(ip)) && NamesPlain(Network(ip, gateway, svc, pod, dns))
  {
    OptionNames();
    hide TLS_SAN;
  }

  lemma {:induction false} PlainServer(vm: VmDict, c: ClusterDict)
    ensures NamesPlain(ServerSettings(vm, c))
  {
    PlainNames(vm.ip, InstallerSan(vm.svcCidr, c.svcCidr), SvcCidr(vm, c), FirstNonEmpty(vm.podCidr, c.podCidr, DEFAULT_POD_CIDR),
               FirstNonEmpty(vm.clusterDns, c.clusterDns, DEFAULT_CLUSTER_DNS));
    PlainBase();
    hide SERVER_BASE, Addresses, Network, SvcCidr, FirstNonEmpty, InstallerSan;
  }

  // ----- what arrives -----

  lemma {:induction false} ServerPlanArrives(vm: VmDict, c: ClusterDict, v: Versions)
    requires IsLiteral(v.url)
    ensures Invoked(Command(PlanServer(vm, c, v), v)) == Some(Invocation(CommonEnv(vm, v), "server", ServerSettings(vm, c)))
  {
    CommonKeys(vm, v);
    PlainServer(vm, c);
    ReadAllShown(ServerSettings(vm, c));
    var p := PlanServer(vm, c, v);
    hide CommonEnv, Keys, IsLiteral, Command, Invoked, ReadSettings, ServerSettings, ShowAll;
    assert p.flags[1..] == ShowAll(ServerSettings(vm, c));
    PlanArrives(p, v);
  }

  /** A value is the machine's own if it has one, else the cluster's, else the default;
      an empty one counts as none. */
  ghost predicate Chosen(value: string, own: Option<string>, shared: Option<string>, default: string) {
    if own.Some? && own.value != "" then value == own.value
    else if shared.Some? && shared.value != "" then value == shared.value
    else value == default
  }

  /** What a server is to be given, by the values it is given for. */
  ghost function ServerOptions(ip: string, gateway: string, pod: string, svc: string, dns: string): (r: seq<Setting>)
    ensures |r| == 15
  {
    [Setting("--flannel-backend", "none"), Setting("--disable", "traefik"), Setting("--disable", "servicelb"),
     Setting("--disable", "local-storage"), Setting("--disable", "metrics-server"), Switch("--disable-kube-proxy"),
     Setting("--kubelet-arg", "cloud-provider=external"), Setting("--node-ip", ip), Setting("--node-external-ip", ip),
     Setting("--tls-san", ip), Setting("--tls-san", gateway), Setting("--tls-san", "kubernetes.default.svc"),
     Setting("--cluster-cidr", pod), Setting("--service-cidr", svc), Setting("--cluster-dns", dns)]
  }

  lemma {:induction false} OptionsOfServer(vm: VmDict, c: ClusterDict, pod: string, svc: string, dns: string)
    requires Chosen(pod, vm.podCidr, c.podCidr, "172.16.0.0/16") && Chosen(svc, vm.svcCidr, c.svcCidr, "172.17.0.0/16")
    requires Chosen(dns, vm.clusterDns, c.clusterDns, "172.17.0.10")
    ensures ServerSettings(vm, c) == ServerOptions(vm.ip, Gateway(svc), pod, svc, dns)
  {
    assert SvcCidr(vm, c) == svc && FirstNonEmpty(vm.podCidr, c.podCidr, DEFAULT_POD_CIDR) == pod;
    assert FirstNonEmpty(vm.clusterDns, c.clusterDns, DEFAULT_CLUSTER_DNS) == dns;
    hide SvcCidr, FirstNonEmpty, Gateway, Chosen;
  }

  /** Whatever the names, addresses and blocks hold, the install script on a server is
      run with these three exports, as a server, and with exactly these options, each
      with its value, in order. */
  lemma {:induction false} ServerReceives(vm: VmDict, c: ClusterDict, v: Versions, pod: string, svc: string, dns: string)
    requires IsLiteral(v.url)
    requires Chosen(pod, vm.podCidr, c.podCidr, "172.16.0.0/16") && Chosen(svc, vm.svcCidr, c.svcCidr, "172.17.0.0/16")
    requires Chosen(dns, vm.clusterDns, c.clusterDns, "172.17.0.10")
    ensures Invoked(Command(PlanServer(vm, c, v), v)) == Some(Invocation(
              [("INSTALL_K3S_VERSION", v.version), ("INSTALL_K3S_CHANNEL", v.channel), ("K3S_NODE_NAME", vm.name)],
              "server", ServerOptions(vm.ip, Gateway(svc), pod, svc, dns)))
  {
    hide Command, Invoked, PlanServer, Gateway, Chosen, IsLiteral, ServerSettings, ServerOptions;
    ServerPlanArrives(vm, c, v);
    OptionsOfServer(vm, c, pod, svc, dns);
  }

  /** For an aligned service block of prefix length at most 24, the second name of the
      certificate is the address behind the network address, as text. */
  lemma {:induction false} ServerCertifiesGateway(vm: VmDict, c: ClusterDict, v: Versions, b: Block)
    requires IsLiteral(v.url) && Aligned(b) && b.len <= 24 && Chosen(BlockText(b), vm.svcCidr, c.svcCidr, "172.17.0.0/16")
    ensures var s := Invoked(Command(PlanServer(vm, c, v), v));
      && s.Some? && Setting("--service-cidr", BlockText(b)) in s.value.settings
      && Setting("--tls-san", Dotted(b.address + 1)) in s.value.settings
  {
    var pod := FirstNonEmpty(vm.podCidr, c.podCidr, "172.16.0.0/16");
    var dns := FirstNonEmpty(vm.clusterDns, c.clusterDns, "172.17.0.10");
    assert Chosen(pod, vm.podCidr, c.podCidr, "172.16.0.0/16") && Chosen(dns, vm.clusterDns, c.clusterDns, "172.17.0.10");
    hide Command, Invoked, PlanServer, FirstNonEmpty, Gateway, BlockText, Dotted, IsLiteral, Aligned, Chosen;
    GatewayIsNetworkPlusOne(b);
    var settings := ServerOptions(vm.ip, Gateway(BlockText(b)), pod, BlockText(b), dns);
    assert settings[10] == Setting("--tls-san", Dotted(b.address + 1)) && settings[13] == Setting("--service-cidr", BlockText(b));
    hide ServerOptions;
    ServerReceives(vm, c, v, pod, BlockText(b), dns);
  }

  /** The address an agent joins on: the one the cluster's dict names, or else that of
      its first member with the control-plane role; empty if there is none. */
  ghost predicate JoinsOn(c: ClusterDict, ip: string) {
    if c.controlPlaneIp.Some? && c.controlPlaneIp.value != "" then ip == c.controlPlaneIp.value
    else if exists i | 0 <= i < |c.vms| :: c.vms[i].role == "control_plane" then
      exists i | 0 <= i < |c.vms| :: && c.vms[i].role == "control_plane" && ip == c.vms[i].ip.GetOr("")
                                     && forall j | 0 <= j < i :: c.vms[j].role != "control_plane"
    else ip == ""
  }

  lemma {:induction false} FirstControlPlaneIs(vms: seq<Member>)
    ensures if exists i | 0 <= i < |vms| :: vms[i].role == "control_plane" then
              exists i | 0 <= i < |vms| :: && vms[i].role == "control_plane" && FirstControlPlane(vms) == vms[i].ip.GetOr("")
                                           && forall j | 0 <= j < i :: vms[j].role != "control_plane"
            else FirstControlPlane(vms) == ""
    decreases |vms|
  {
    if vms != [] {
      if vms[0].role == "control_plane" {
        assert FirstControlPlane(vms) == vms[0].ip.GetOr("");
      } else {
        var rest := vms[1..];
        FirstControlPlaneIs(rest);
        assert forall i | 1 <= i < |vms| :: vms[i] == rest[i - 1];
        if exists i | 0 <= i < |rest| :: rest[i].role == "control_plane" {
          var i :| 0 <= i < |rest| && rest[i].role == "control_plane" && FirstControlPlane(rest) == rest[i].ip.GetOr("")
                   && forall j | 0 <= j < i :: rest[j].role != "control_plane";
          assert vms[i + 1].role == "control_plane" && forall j | 0 <= j < i + 1 :: vms[j].role != "control_plane";
        }
      }
    }
  }

  lemma {:induction false} JoinAddressIs(c: ClusterDict)
    ensures JoinsOn(c, JoinAddress(c))
  {
    FirstControlPlaneIs(c.vms);
    hide FirstControlPlane;
  }

  lemma {:induction false} JoinsOnOne(c: ClusterDict, ip: string, other: string)
    requires JoinsOn(c, ip) && JoinsOn(c, other)
    ensures ip == other
  {
  }

  lemma {:induction false} AgentPlanArrives(vm: VmDict, c: ClusterDict, v: Versions, token: string)
    requires IsLiteral(v.url) && PlanAgent(vm, c, v, token).Ok?
    ensures Invoked(Command(PlanAgent(vm, c, v, token).value, v)) ==
            Some(Invocation(CommonEnv(vm, v) + [("K3S_URL", "https://" + JoinAddress(c) + ":6443"), ("K3S_TOKEN", token)],
                            "agent", Addresses(vm.ip)))
  {
    AgentKeys(vm, c, v, token);
    PlainNames(vm.ip, "", "", "", "");
    ReadAllShown(Addresses(vm.ip));
    var p := PlanAgent(vm, c, v, token).value;
    hide CommonEnv, Keys, IsLiteral, Command, Invoked, ReadSettings, Addresses, ShowAll, JoinAddress;
    assert p.flags[1..] == ShowAll(Addresses(vm.ip));
    PlanArrives(p, v);
  }

  /** An agent gets the join address and the token as exports, the token as it was read,
      and no option but its own two addresses. It is planned if and only if there are a
      token and an address to join on. */
  lemma {:induction false} AgentReceives(vm: VmDict, c: ClusterDict, v: Versions, token: string, ip: string)
    requires IsLiteral(v.url) && JoinsOn(c, ip)
    ensures PlanAgent(vm, c, v, token) == Err(BlankToken) <==> token == ""
    ensures PlanAgent(vm, c, v, token) == Err(NoCpIp) <==> token != "" && ip == ""
    ensures token != "" && ip != "" ==> (
      && PlanAgent(vm, c, v, token).Ok?
      && Invoked(Command(PlanAgent(vm, c, v, token).value, v)) == Some(Invocation(
           [("INSTALL_K3S_VERSION", v.version), ("INSTALL_K3S_CHANNEL", v.channel), ("K3S_NODE_NAME", vm.name),
            ("K3S_URL", "https://" + ip + ":6443"), ("K3S_TOKEN", token)],
           "agent", [Setting("--node-ip", vm.ip), Setting("--node-external-ip", vm.ip)])))
  {
    hide JoinsOn, Invoked, Command, IsLiteral, CommonEnv, Addresses, ShowAll;
    JoinAddressIs(c);
    JoinsOnOne(c, ip, JoinAddress(c));
    hide JoinAddress;
    if token != "" && ip != "" {
      AgentPlanArrives(vm, c, v, token);
      hide PlanAgent;
      AgentParts(vm, v, ip, token);
    }
  }

  lemma {:induction false} AgentParts(vm: VmDict, v: Versions, ip: string, token: string)
    ensures CommonEnv(vm, v) + [("K3S_URL", "https://" + ip + ":6443"), ("K3S_TOKEN", token)] ==
            [("INSTALL_K3S_VERSION", v.version), ("INSTALL_K3S_CHANNEL", v.channel), ("K3S_NODE_NAME", vm.name),
             ("K3S_URL", "https://" + ip + ":6443"), ("K3S_TOKEN", token)]
    ensures Addresses(vm.ip) == [Setting("--node-ip", vm.ip), Setting("--node-external-ip", vm.ip)]
  {
  }

  lemma {:induction false} OwnAddressCertified(vm: VmDict, c: ClusterDict)
    ensures Setting(TLS_SAN, vm.ip) in ServerSettings(vm, c)
  {
    hide SERVER_BASE, TLS_SAN, InstallerSan, SvcCidr, FirstNonEmpty;
    assert ServerSettings(vm, c)[|SERVER_BASE| + 2] == Setting(TLS_SAN, vm.ip);
  }

  /** The address an agent is told to join is one the certificate of that server is
      made for. */
  lemma {:induction false} JoinAddressIsCertified(server: VmDict, agent: VmDict, c: ClusterDict, v: Versions, token: string)
    requires IsLiteral(v.url) && server.ip == JoinAddress(c)
    requires PlanAgent(agent, c, v, token).Ok?
    ensures var s := Invoked(Command(PlanServer(server, c, v), v));
      var a := Invoked(Command(PlanAgent(agent, c, v, token).value, v));
      && s.Some? && a.Some?
      && Setting(TLS_SAN, server.ip) in s.value.settings
      && ("K3S_URL", "https://" + server.ip + ":6443") in a.value.exports
  {
    ServerPlanArrives(server, c, v);
    AgentPlanArrives(agent, c, v, token);
    OwnAddressCertified(server, c);
    var s := Invoked(Command(PlanServer(server, c, v), v));
    var a := Invoked(Command(PlanAgent(agent, c, v, token).value, v));
    hide Command, Invoked, PlanServer, PlanAgent, CommonEnv, JoinAddress;
    assert Setting(TLS_SAN, server.ip) in s.value.settings;
    assert a.value.exports[|CommonEnv(agent, v)|] == ("K3S_URL", "https://" + server.ip + ":6443");
  }

  // ----- the cluster dict of the install phase -----

  function Members(role: string, vms: seq<InstallPhase.Vm>): seq<Member> {
    if vms == [] then []
    else (if vms[0].name != "" && vms[0].ip != "" then [Member(role, Some(vms[0].ip))] else []) + Members(role, vms[1..])
  }

  /** What `_run_install_k3s` passes: the first control plane's address, and all
      nodes that have a name and an address. */
  function PhaseCluster(cps: seq<InstallPhase.Vm>, workers: seq<InstallPhase.Vm>, svc: string, pod: string, dns: string): ClusterDict
    requires cps != []
  {
    ClusterDict(Some(cps[0].ip), Members("control_plane", cps) + Members("worker", workers), Some(svc), Some(pod), Some(dns))
  }

  /** The dict it makes of a control plane: its own name and address, and the blocks of
      the cluster. */
  function PhaseServer(cp: InstallPhase.Vm, svc: string, pod: string, dns: string): VmDict {
    VmDict(cp.name, cp.ip, Some(svc), Some(pod), Some(dns))
  }

  function PhaseAgent(w: InstallPhase.Vm): VmDict { VmDict(w.name, w.ip, None, None, None) }

  lemma {:induction false} OptionsAt(ip: string, gateway: string, pod: string, svc: string, dns: string)
    ensures var o := ServerOptions(ip, gateway, pod, svc, dns);
      && o[7..9] == [Setting("--node-ip", ip), Setting("--node-external-ip", ip)]
      && o[12..] == [Setting("--cluster-cidr", pod), Setting("--service-cidr", svc), Setting("--cluster-dns", dns)]
  {
  }

  /** In the install phase, the blocks of the cluster arrive at every control plane, each
      under the option of its name, or the default where it is empty, and its own name
      and address as those of the node. */
  lemma {:induction false} PhaseServerReceives(cps: seq<InstallPhase.Vm>, workers: seq<InstallPhase.Vm>, svc: string, pod: string,
                                               dns: string, v: Versions, k: nat)
    requires IsLiteral(v.url) && k < |cps|
    ensures var s := Invoked(Command(PlanServer(PhaseServer(cps[k], svc, pod, dns), PhaseCluster(cps, workers, svc, pod, dns), v), v));
      && s.Some? && s.value.role == "server" && |s.value.settings| == 15
      && ("K3S_NODE_NAME", cps[k].name) in s.value.exports
      && s.value.settings[7..9] == [Setting("--node-ip", cps[k].ip), Setting("--node-external-ip", cps[k].ip)]
      && s.value.settings[12..] == [Setting("--cluster-cidr", if pod != "" then pod else "172.16.0.0/16"),
                                    Setting("--service-cidr", if svc != "" then svc else "172.17.0.0/16"),
                                    Setting("--cluster-dns", if dns != "" then dns else "172.17.0.10")]
  {
    var c := PhaseCluster(cps, workers, svc, pod, dns);
    var pod' := if pod != "" then pod else "172.16.0.0/16";
    var svc' := if svc != "" then svc else "172.17.0.0/16";
    var dns' := if dns != "" then dns else "172.17.0.10";
    hide Command, Invoked, PlanServer, Gateway, IsLiteral, Members;
    OptionsAt(cps[k].ip, Gateway(svc'), pod', svc', dns');
    hide ServerOptions;
    ServerReceives(PhaseServer(cps[k], svc, pod, dns), c, v, pod', svc', dns');
    var s := Invoked(Command(PlanServer(PhaseServer(cps[k], svc, pod, dns), c, v), v)).value;
    assert s.exports[2] == ("K3S_NODE_NAME", cps[k].name);
  }

  lemma {:induction false} WorkersAreNoControlPlanes(workers: seq<InstallPhase.Vm>)
    ensures FirstControlPlane(Members("worker", workers)) == ""
    decreases |workers|
  {
    if workers != [] {
      WorkersAreNoControlPlanes(workers[1..]);
      var rest := Members("worker", workers[1..]);
      assert "worker"[0] != "control_plane"[0];
      if Members("worker", workers) != rest {
        assert Members("worker", workers)[1..] == rest;
      }
    }
  }

  lemma {:induction false} FirstMember(cps: seq<InstallPhase.Vm>, workers: seq<InstallPhase.Vm>)
    ensures FirstControlPlane(Members("control_plane", cps) + Members("worker", workers)) == InstallPhase.FirstNamed(cps)
    decreases |cps|
  {
    var w := Members("worker", workers);
    if cps == [] {
      WorkersAreNoControlPlanes(workers);
      assert Members("control_plane", cps) + w == w;
    } else if cps[0].name != "" && cps[0].ip != "" {
      assert (Members("control_plane", cps) + w)[0] == Member("control_plane", Some(cps[0].ip));
    } else {
      FirstMember(cps[1..], workers);
      assert Members("control_plane", cps) == Members("control_plane", cps[1..]);
    }
  }

  /** The planner's search over the dict finds the address the phase joins on. */
  lemma {:induction false} PhaseJoinAddress(cps: seq<InstallPhase.Vm>, workers: seq<InstallPhase.Vm>, svc: string, pod: string, dns: string)
    requires cps != []
    ensures JoinAddress(PhaseCluster(cps, workers, svc, pod, dns)) == InstallPhase.CpIp(cps)
  {
    FirstMember(cps, workers);
  }

  lemma {:induction false} JoinAddressHeld(cps: seq<InstallPhase.Vm>) returns (i: nat)
    requires InstallPhase.CpIp(cps) != ""
    ensures i < |cps| && cps[i].ip == InstallPhase.CpIp(cps)
  {
    if cps[0].ip != "" { i := 0; } else { i := FirstNamedHeld(cps); }
  }

  lemma {:induction false} FirstNamedHeld(cps: seq<InstallPhase.Vm>) returns (i: nat)
    requires InstallPhase.FirstNamed(cps) != ""
    ensures i < |cps| && cps[i].ip == InstallPhase.FirstNamed(cps)
    decreases |cps|
  {
    if cps[0].name != "" && cps[0].ip != "" {
      i := 0;
    } else {
      i := FirstNamedHeld(cps[1..]);
      i := i + 1;
    }
  }

  /** In the install phase, every agent is told to join the address of one of the
      control planes, and that one's certificate is made for it. */
  lemma {:induction false} PhaseAgentsJoinServer(cps: seq<InstallPhase.Vm>, workers: seq<InstallPhase.Vm>, svc: string, pod: string,
                                                 dns: string, v: Versions, token: string, k: nat)
    returns (i: nat)
    requires IsLiteral(v.url) && InstallPhase.CpIp(cps) != "" && token != "" && k < |workers|
    ensures i < |cps| && cps[i].ip == InstallPhase.CpIp(cps)
    ensures var c := PhaseCluster(cps, workers, svc, pod, dns);
      var server, agent := PhaseServer(cps[i], svc, pod, dns), PhaseAgent(workers[k]);
      && PlanAgent(agent, c, v, token).Ok?
      && var s := Invoked(Command(PlanServer(server, c, v), v));
      && var a := Invoked(Command(PlanAgent(agent, c, v, token).value, v));
      && s.Some? && a.Some? && s.value.role == "server" && a.value.role == "agent"
      && Setting(TLS_SAN, cps[i].ip) in s.value.settings
      && ("K3S_URL", "https://" + cps[i].ip + ":6443") in a.value.exports
      && ("K3S_TOKEN", token) in a.value.exports && ("K3S_NODE_NAME", workers[k].name) in a.value.exports
      && a.value.settings == [Setting("--node-ip", workers[k].ip), Setting("--node-external-ip", workers[k].ip)]
  {
    i := JoinAddressHeld(cps);
    var c := PhaseCluster(cps, workers, svc, pod, dns);
    var server, agent := PhaseServer(cps[i], svc, pod, dns), PhaseAgent(workers[k]);
    PhaseJoinAddress(cps, workers, svc, pod, dns);
    JoinAddressIsCertified(server, agent, c, v, token);
    ServerPlanArrives(server, c, v);
    AgentPlanArrives(agent, c, v, token);
    AgentParts(agent, v, cps[i].ip, token);
    var a := Invoked(Command(PlanAgent(agent, c, v, token).value, v));
    hide Command, Invoked, PlanServer, CommonEnv, JoinAddress, PhaseCluster, ServerSettings, Addresses;
    assert a.value.exports[4] == ("K3S_TOKEN", token) && a.value.exports[2] == ("K3S_NODE_NAME", workers[k].name);
  }

  /** The search for the join address, as `plan_agent` runs it. */
  method FindJoinAddress(c: ClusterDict) returns (ip: string)
    ensures ip == JoinAddress(c)
    ensures c.controlPlaneIp.GetOr("") == "" && ip != "" ==>
      exists i | 0 <= i < |c.vms| :: c.vms[i] == Member("control_plane", Some(ip)) &&
        forall j | 0 <= j < i :: c.vms[j].role != "control_plane"
  {
    ip := c.controlPlaneIp.GetOr("");
    if ip == "" {
      var i := 0;
      while i < |c.vms|
        invariant 0 <= i <= |c.vms| && ip == ""
        invariant forall j | 0 <= j < i :: c.vms[j].role != "control_plane"
        invariant FirstControlPlane(c.vms) == FirstControlPlane(c.vms[i..])
      {
        if c.vms[i].role == "control_plane" {
          ip := c.vms[i].ip.GetOr("");
          return;
        }
        assert c.vms[i..][1..] == c.vms[i + 1..];
        i := i + 1;
      }
    }
  }
}
