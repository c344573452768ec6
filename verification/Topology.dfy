/** The cluster description resolved from `main.tf`, and the nodes it declares. */
module Topology {
  import opened Text
  import opened HclScanner
  import opened HclFields

  datatype Role = ControlPlane | Worker

  datatype Node = Node(role: Role, name: string, vmid: int, ip: string)

  datatype Static = Static(clusterName: string, vnetBridge: string, cpCount: nat, workerCount: nat,
                           podCidr: string, svcCidr: string, clusterDns: string, nodes: seq<Node>)

  datatype ResolveError = NoMainTf | MissingField(name: string) | BadInteger(text: string)

  // ----- which module -----

  predicate MentionsClusterModule(v: string) {
    exists i: nat | i <= |v| :: '"' !in v[..i] && StartsWith(v[i..], "proxmox-k3s-cluster")
  }

  /** `source\s*=\s*"[^"]*proxmox-k3s-cluster` at `s`. */
  predicate SourceAt(t: string, s: nat) {
    && At(t, s, "source")
    && match AfterEquals(t[s + 6..])
       case None => false
       case Some(u) => u != "" && u[0] == '"' && MentionsClusterModule(u[1..])
  }

  predicate SourceBeforeBrace(t: string, b: nat)
    requires b <= |t|
  {
    exists s: nat | b <= s <= |t| :: '}' !in t[b..s] && SourceAt(t, s)
  }

  function KeyAt(t: string, p: nat): Option<string>
    requires p <= |t|
  {
    match ModuleWordAt(t, p)
    case None => None
    case Some(q) =>
      var n := Span(NotQuote, t[q..]);
      if n == 0 || q + n == |t| then None
      else match OpenBraceAt(t, q + n + 1)
        case None => None
        case Some(b) => if SourceBeforeBrace(t, b) then Some(t[q..q + n]) else None
  }

  function NamesCluster(t: string): nat -> bool {
    (p: nat) => p <= |t| && KeyAt(t, p).Some?
  }

  /** `_module_keyword`. */
  function ModuleKey(t: string, default: string): string {
    match FirstAt(NamesCluster(t), 0, |t|)
    case None => default
    case Some(p) => KeyAt(t, p).value
  }

  // ----- int(text) -----

  function DropUnderscores(s: string): (r: string)
    requires forall i | 0 <= i < |s| :: IsDigit(s[i]) || s[i] == '_'
    ensures forall i | 0 <= i < |r| :: IsDigit(r[i])
  {
    if s == "" then "" else (if s[0] == '_' then "" else [s[0]]) + DropUnderscores(s[1..])
  }

  /** Digits, with single underscores between them. */
  predicate IsNumeral(s: string) {
    && s != "" && IsDigit(s[0]) && IsDigit(s[|s| - 1])
    && forall i | 0 <= i < |s| :: IsDigit(s[i]) || (s[i] == '_' && i > 0 && s[i - 1] != '_')
  }

  function ToInt(text: string): Option<int> {
    var s := Strip(text);
    var digits := if s != "" && (s[0] == '+' || s[0] == '-') then s[1..] else s;
    if !IsNumeral(digits) then None
    else
      var n: int := DigitsToNat(DropUnderscores(digits));
      Some(if s[0] == '-' then -n else n)
  }

  lemma {:induction false} DropNothing(s: string)
    requires forall i | 0 <= i < |s| :: IsDigit(s[i])
    ensures DropUnderscores(s) == s
  {
    if s != "" {
      DropNothing(s[1..]);
      assert s == [s[0]] + s[1..];
    }
  }

  lemma {:induction false} ToIntOfDigits(s: string)
    requires s != "" && forall i | 0 <= i < |s| :: IsDigit(s[i])
    ensures ToInt(s) == Some(DigitsToNat(s))
  {
    assert IsDigit(s[0]) && IsDigit(s[|s| - 1]);
    StripIdentity(s);
    DropNothing(s);
    hide Strip, DropUnderscores, DigitsToNat;
  }

  lemma {:induction false} ToIntOfDec(n: nat)
    ensures ToInt(Dec(n)) == Some(n)
  {
    DecRoundTrip(n);
    hide Dec, ToInt, DigitsToNat;
    ToIntOfDigits(Dec(n));
  }

  // ----- the declared nodes -----

  function CpNode(name: string, start: int, i: nat): Node {
    Node(ControlPlane, name + "-cp-" + Dec(i + 1), start + i, "")
  }

  function WorkerNode(name: string, start: int, cp: nat, i: nat): Node {
    Node(Worker, name + "-w-" + Dec(i + 1), start + cp + i, "")
  }

  function DeclaredNodes(name: string, start: int, cp: nat, workers: nat): (r: seq<Node>)
    ensures |r| == cp + workers
  {
    seq(cp, i requires 0 <= i < cp => CpNode(name, start, i))
    + seq(workers, i requires 0 <= i < workers => WorkerNode(name, start, cp, i))
  }

  lemma {:induction false} CpAndWorkerNamesDiffer(name: string, i: nat, j: nat)
    ensures name + "-cp-" + Dec(i) != name + "-w-" + Dec(j)
  {
    var a, b := name + "-cp-" + Dec(i), name + "-w-" + Dec(j);
    assert a[|name| + 1] == 'c' && b[|name| + 1] == 'w';
  }

  lemma {:induction false} SuffixedNamesDiffer(prefix: string, i: nat, j: nat)
    requires i != j
    ensures prefix + Dec(i) != prefix + Dec(j)
  {
    if prefix + Dec(i) == prefix + Dec(j) {
      assert Dec(i) == (prefix + Dec(i))[|prefix|..] == (prefix + Dec(j))[|prefix|..] == Dec(j);
      DecInjective(i, j);
    }
  }

  ghost predicate DistinctNames(nodes: seq<Node>) {
    forall i, j | 0 <= i < j < |nodes| :: nodes[i].name != nodes[j].name
  }

  /** The declared VM ids are the interval from `start`, in order; the names count
      control planes and workers from one, and no two are equal. */
  lemma {:induction false} DeclaredNodesShape(name: string, start: int, cp: nat, workers: nat)
    ensures var r := DeclaredNodes(name, start, cp, workers);
      && (forall i | 0 <= i < |r| :: r[i].vmid == start + i && r[i].ip == "")
      && (forall i | 0 <= i < |r| :: r[i].role == if i < cp then ControlPlane else Worker)
      && (forall i | 0 <= i < |r| :: r[i].name == if i < cp then name + "-cp-" + Dec(i + 1) else name + "-w-" + Dec(i - cp + 1))
      && DistinctNames(r)
  {
    var r := DeclaredNodes(name, start, cp, workers);
    forall i, j | 0 <= i < j < |r| ensures r[i].name != r[j].name {
      if j < cp {
        SuffixedNamesDiffer(name + "-cp-", i + 1, j + 1);
      } else if i < cp {
        CpAndWorkerNamesDiffer(name, i + 1, j - cp + 1);
      } else {
        SuffixedNamesDiffer(name + "-w-", i - cp + 1, j - cp + 1);
      }
    }
  }

  // ----- resolving -----

  const NEEDED := ["cluster_name", "pod_cidr", "svc_cidr", "cluster_dns", "vnet_bridge", "vmid_start"]

  /** The description that a list of fields and two counts stand for; fields are
      needed in the order of `NEEDED`. */
  function Assemble(fields: seq<ModuleField>, cp: nat, workers: nat): Result<Static, ResolveError> {
    match LastValue(fields, "cluster_name")
    case None => Err(MissingField("cluster_name"))
    case Some(name) =>
    match LastValue(fields, "pod_cidr")
    case None => Err(MissingField("pod_cidr"))
    case Some(pod) =>
    match LastValue(fields, "svc_cidr")
    case None => Err(MissingField("svc_cidr"))
    case Some(svc) =>
    match LastValue(fields, "cluster_dns")
    case None => Err(MissingField("cluster_dns"))
    case Some(dns) =>
    match LastValue(fields, "vnet_bridge")
    case None => Err(MissingField("vnet_bridge"))
    case Some(bridge) =>
    match LastValue(fields, "vmid_start")
    case None => Err(MissingField("vmid_start"))
    case Some(text) =>
    match ToInt(text)
    case None => Err(BadInteger(text))
    case Some(start) =>
      Ok(Static(name, bridge, cp, workers, pod, svc, dns, DeclaredNodes(name, start, cp, workers)))
  }

  ghost function Resolved(mainTf: Option<string>, clusterName: string): Result<Static, ResolveError> {
    match mainTf
    case None => Err(NoMainTf)
    case Some(t) =>
      var key := ModuleKey(t, clusterName);
      Assemble(match Body(t, key) case None => [] case Some(b) => Fields(true, b),
               NestedCount(t, key, "control_plane"), NestedCount(t, key, "workers"))
  }

  /** Nodes numbered on from the number that the text is. */
  ghost predicate NumberedFrom(s: Static, text: string) {
    && ToInt(text).Some?
    && forall i | 0 <= i < |s.nodes| ::
         if i < s.cpCount then s.nodes[i] == Node(ControlPlane, s.clusterName + "-cp-" + Dec(i + 1), ToInt(text).value + i, "")
         else s.nodes[i] == Node(Worker, s.clusterName + "-w-" + Dec(i - s.cpCount + 1), ToInt(text).value + i, "")
  }

  /** Each setting is the last value of its own name among the fields, and the nodes are
      numbered on from the last `vmid_start`. */
  ghost predicate Describes(s: Static, fields: seq<ModuleField>, cp: nat, workers: nat) {
    && LastNamed(fields, "cluster_name", s.clusterName) && LastNamed(fields, "vnet_bridge", s.vnetBridge)
    && LastNamed(fields, "pod_cidr", s.podCidr) && LastNamed(fields, "svc_cidr", s.svcCidr)
    && LastNamed(fields, "cluster_dns", s.clusterDns)
    && s.cpCount == cp && s.workerCount == workers && |s.nodes| == cp + workers
    && exists text :: LastNamed(fields, "vmid_start", text) && NumberedFrom(s, text)
  }

  lemma {:induction false} AssembledDescribes(fields: seq<ModuleField>, cp: nat, workers: nat)
    requires Assemble(fields, cp, workers).Ok?
    ensures Describes(Assemble(fields, cp, workers).value, fields, cp, workers)
  {
    hide LastNamed, LastValue, ToInt;
    LastValueIs(fields, "cluster_name");
    LastValueIs(fields, "vnet_bridge");
    LastValueIs(fields, "pod_cidr");
    LastValueIs(fields, "svc_cidr");
    LastValueIs(fields, "cluster_dns");
    LastValueIs(fields, "vmid_start");
    assert NumberedFrom(Assemble(fields, cp, workers).value, LastValue(fields, "vmid_start").value);
  }

  /** What is resolved of any text: the settings and nodes described by the fields of
      the cluster module's body and by its two counts. */
  lemma {:induction false} ResolvedDescribes(mainTf: Option<string>, clusterName: string)
    requires Resolved(mainTf, clusterName).Ok?
    ensures mainTf.Some?
    ensures var key := ModuleKey(mainTf.value, clusterName);
      && Body(mainTf.value, key).Some?
      && Describes(Resolved(mainTf, clusterName).value, Fields(true, Body(mainTf.value, key).value),
                   NestedCount(mainTf.value, key, "control_plane"), NestedCount(mainTf.value, key, "workers"))
  {
    hide Assemble, Body, NestedCount, ModuleKey, Fields, Describes;
    var t := mainTf.value;
    var key := ModuleKey(t, clusterName);
    var fields := match Body(t, key) case None => [] case Some(b) => Fields(true, b);
    var cp, workers := NestedCount(t, key, "control_plane"), NestedCount(t, key, "workers");
    AssembledDescribes(fields, cp, workers);
    if Body(t, key) == None { NothingDescribed(Resolved(mainTf, clusterName).value, cp, workers); }
  }

  ghost predicate HasField(fields: seq<ModuleField>, name: string) {
    exists i | 0 <= i < |fields| :: fields[i].name == name
  }

  /** The first of the names that no field has. */
  ghost function FirstLacking(fields: seq<ModuleField>, names: seq<string>): Option<string> {
    if names == [] then None
    else if !HasField(fields, names[0]) then Some(names[0])
    else FirstLacking(fields, names[1..])
  }

  lemma {:induction false} LackingStep(fields: seq<ModuleField>, name: string, rest: seq<string>)
    ensures FirstLacking(fields, [name] + rest) == if LastValue(fields, name) == None then Some(name) else FirstLacking(fields, rest)
  {
    LastValueIs(fields, name);
    assert ([name] + rest)[1..] == rest;
  }

  /** Why fields are not a description: the first of six names that is lacking, in this
      order, or a last `vmid_start` that is no number. */
  lemma {:induction false} AssembleFails(fields: seq<ModuleField>, cp: nat, workers: nat)
    ensures var r := Assemble(fields, cp, workers);
      match FirstLacking(fields, ["cluster_name", "pod_cidr", "svc_cidr", "cluster_dns", "vnet_bridge", "vmid_start"])
      case Some(m) => r == Err(MissingField(m))
      case None => exists text :: LastNamed(fields, "vmid_start", text) && if ToInt(text) == None then r == Err(BadInteger(text)) else r.Ok?
  {
    hide LastValue, LastNamed, HasField, ToInt, FirstLacking;
    assert ["cluster_name", "pod_cidr", "svc_cidr", "cluster_dns", "vnet_bridge", "vmid_start"] ==
           ["cluster_name"] + (["pod_cidr"] + (["svc_cidr"] + (["cluster_dns"] + (["vnet_bridge"] + (["vmid_start"] + [])))));
    LackingStep(fields, "cluster_name", ["pod_cidr"] + (["svc_cidr"] + (["cluster_dns"] + (["vnet_bridge"] + (["vmid_start"] + [])))));
    LackingStep(fields, "pod_cidr", ["svc_cidr"] + (["cluster_dns"] + (["vnet_bridge"] + (["vmid_start"] + []))));
    LackingStep(fields, "svc_cidr", ["cluster_dns"] + (["vnet_bridge"] + (["vmid_start"] + [])));
    LackingStep(fields, "cluster_dns", ["vnet_bridge"] + (["vmid_start"] + []));
    LackingStep(fields, "vnet_bridge", ["vmid_start"] + []);
    LackingStep(fields, "vmid_start", []);
    LackingNone(fields);
    LastValueIs(fields, "vmid_start");
  }

  /** Why any text is not resolved: it is absent, or the fields of the cluster module's
      body, none where there is no body, are no description. */
  lemma {:induction false} ResolvedFails(mainTf: Option<string>, clusterName: string)
    ensures var r := Resolved(mainTf, clusterName);
      match mainTf
      case None => r == Err(NoMainTf)
      case Some(t) =>
        var body := Body(t, ModuleKey(t, clusterName));
        var fields := if body == None then [] else Fields(true, body.value);
        match FirstLacking(fields, ["cluster_name", "pod_cidr", "svc_cidr", "cluster_dns", "vnet_bridge", "vmid_start"])
        case Some(m) => r == Err(MissingField(m))
        case None => exists text :: LastNamed(fields, "vmid_start", text) &&
                       if ToInt(text) == None then r == Err(BadInteger(text)) else r.Ok?
  {
    hide Assemble, Body, NestedCount, ModuleKey, Fields, FirstLacking, LastNamed, ToInt;
    if mainTf.Some? {
      var t := mainTf.value;
      var key := ModuleKey(t, clusterName);
      AssembleFails(match Body(t, key) case None => [] case Some(b) => Fields(true, b),
                    NestedCount(t, key, "control_plane"), NestedCount(t, key, "workers"));
    }
  }

  lemma {:induction false} LackingNone(fields: seq<ModuleField>)
    ensures FirstLacking(fields, []) == None
  {
  }

  lemma {:induction false} NothingDescribed(s: Static, cp: nat, workers: nat)
    ensures !Describes(s, [], cp, workers)
  {
  }

  /** `_resolve_runtime_cluster_topology`. */
  method Resolve(mainTf: Option<string>, clusterName: string) returns (r: Result<Static, ResolveError>)
    ensures r == Resolved(mainTf, clusterName)
  {
    if mainTf == None {
      return Err(NoMainTf);
    }
    var t := mainTf.value;
    var key := ModuleKey(t, clusterName);
    var fields := ParseLiteralBlock(t, key);
    var name := LastValue(fields, "cluster_name");
    if name == None {
      return Err(MissingField("cluster_name"));
    }
    var pod := LastValue(fields, "pod_cidr");
    if pod == None {
      return Err(MissingField("pod_cidr"));
    }
    var svc := LastValue(fields, "svc_cidr");
    if svc == None {
      return Err(MissingField("svc_cidr"));
    }
    var dns := LastValue(fields, "cluster_dns");
    if dns == None {
      return Err(MissingField("cluster_dns"));
    }
    var bridge := LastValue(fields, "vnet_bridge");
    if bridge == None {
      return Err(MissingField("vnet_bridge"));
    }
    var start := LastValue(fields, "vmid_start");
    if start == None {
      return Err(MissingField("vmid_start"));
    }
    var vmidStart := ToInt(start.value);
    if vmidStart == None {
      return Err(BadInteger(start.value));
    }
    var cpCount := ParseNestedCount(t, key, "control_plane");
    var workerCount := ParseNestedCount(t, key, "workers");
    var nodes := BuildNodes(name.value, vmidStart.value, cpCount, workerCount);
    return Ok(Static(name.value, bridge.value, cpCount, workerCount, pod.value, svc.value, dns.value, nodes));
  }

  /** The two node loops. */
  method BuildNodes(name: string, start: int, cp: nat, workers: nat) returns (nodes: seq<Node>)
    ensures nodes == DeclaredNodes(name, start, cp, workers)
  {
    nodes := [];
    for i := 0 to cp
      invariant nodes == DeclaredNodes(name, start, i, 0)
    {
      nodes := nodes + [Node(ControlPlane, name + "-cp-" + Dec(i + 1), start + i, "")];
    }
    for i := 0 to workers
      invariant nodes == DeclaredNodes(name, start, cp, i)
    {
      nodes := nodes + [Node(Worker, name + "-w-" + Dec(i + 1), start + cp + i, "")];
    }
  }
}
