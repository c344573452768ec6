/** `output.json`: written by merging declared, previous and live data, and read
    back into a cluster topology. */
module OutputWriter {
  import opened Text
  import opened HclScanner
  import opened HclFields
  import opened Topology

  // ----- the file -----

  datatype RawNode =
    | NotAnObject
    | Entry(role: Option<string>, name: Option<string>, vmid: Option<int>, ip: string)   // "" for an absent ip

  /** The parsed object, fields absent where the file has none. */
  datatype Raw = Raw(clusterName: Option<string>, nodes: Option<seq<RawNode>>, vip: Option<string>,
                     podCidr: Option<string>, svcCidr: Option<string>, clusterDns: Option<string>)

  datatype File = Absent | Unparsable | WrongShape | Json(raw: Raw)

  function RoleName(r: Role): string {
    match r
    case ControlPlane => "control_plane"
    case Worker => "worker"
  }

  function RawOf(n: Node): RawNode {
    Entry(Some(RoleName(n.role)), Some(n.name), Some(n.vmid), n.ip)
  }

  function RawNodes(nodes: seq<Node>): (r: seq<RawNode>)
    ensures |r| == |nodes|
  {
    seq(|nodes|, i requires 0 <= i < |nodes| => RawOf(nodes[i]))
  }

  /** What the writer dumps and a reader loads. */
  function Dump(s: Static): File {
    Json(Raw(Some(s.clusterName), Some(RawNodes(s.nodes)), None, Some(s.podCidr), Some(s.svcCidr), Some(s.clusterDns)))
  }

  // ----- previous and live data -----

  predicate Nameless(n: RawNode) { n.Entry? && n.ip != "" && n.name == None }

  function Known(nodes: seq<RawNode>): map<string, string> {
    if nodes == [] then map[]
    else
      var n := nodes[|nodes| - 1];
      var m := Known(nodes[..|nodes| - 1]);
      if n.Entry? && n.ip != "" && n.name.Some? then m[n.name.value := n.ip] else m
  }

  /** The addresses carried over from an old file; a nameless entry with an address
      voids them all. None stands for the exception on a file of the wrong shape. */
  function PriorIps(f: File): Option<map<string, string>> {
    match f
    case Absent => Some(map[])
    case Unparsable => Some(map[])
    case WrongShape => None
    case Json(raw) =>
      var nodes := raw.nodes.GetOr([]);
      if exists i | 0 <= i < |nodes| :: Nameless(nodes[i]) then Some(map[]) else Some(Known(nodes))
  }

  /** One answer of the live system: VM ids with names, and addresses by VM id. */
  datatype Live = Unreachable | Live(vms: seq<(Option<int>, string)>, ips: map<int, seq<string>>)

  function NameToVmid(vms: seq<(Option<int>, string)>): map<string, int> {
    if vms == [] then map[]
    else
      var (vmid, n) := vms[|vms| - 1];
      var m := NameToVmid(vms[..|vms| - 1]);
      if n != "" && vmid.Some? then m[n := vmid.value] else m
  }

  function Lookup<K, V>(m: map<K, V>, k: K, default: V): V {
    if k in m then m[k] else default
  }

  function First(ips: seq<string>): string {
    if ips == [] then "" else ips[0]
  }

  /** One node of the merge. */
  function Settle(n: Node, prior: map<string, string>, byName: map<string, int>, ips: map<int, seq<string>>): Node {
    if n.ip != "" then n
    else if Lookup(prior, n.name, "") != "" then n.(ip := prior[n.name])
    else
      var vmid := Lookup(byName, n.name, n.vmid);
      n.(vmid := vmid, ip := First(Lookup(ips, vmid, [])))
  }

  function SettleAll(nodes: seq<Node>, prior: map<string, string>, byName: map<string, int>, ips: map<int, seq<string>>): (r: seq<Node>)
    ensures |r| == |nodes|
  {
    seq(|nodes|, i requires 0 <= i < |nodes| => Settle(nodes[i], prior, byName, ips))
  }

  datatype WriteError = Unresolved(e: ResolveError) | BadOldFile | NoLiveData

  /** Discovery is needed when some declared node has no address yet, or by force. */
  function LiveData(nodes: seq<Node>, force: bool, live: Live): Option<Live> {
    if force || (exists i | 0 <= i < |nodes| :: nodes[i].ip == "") then
      if live == Unreachable then None else Some(live)
    else Some(Live([], map[]))
  }

  function Merge(s: Static, previous: File, force: bool, live: Live): Result<Static, WriteError> {
    match if force then Some(map[]) else PriorIps(previous)
    case None => Err(BadOldFile)
    case Some(prior) =>
      match LiveData(s.nodes, force, live)
      case None => Err(NoLiveData)
      case Some(data) =>
        if data == Unreachable then Err(NoLiveData)
        else Ok(s.(nodes := SettleAll(s.nodes, prior, NameToVmid(data.vms), data.ips)))
  }

  /** What one call writes, as a function of everything it looks at. */
  ghost function Output(mainTf: Option<string>, cluster: string, previous: File, force: bool, live: Live): Result<Static, WriteError> {
    match Resolved(mainTf, cluster)
    case Err(e) => Err(Unresolved(e))
    case Ok(s) => Merge(s, previous, force, live)
  }

  class ClusterDir {
    var mainTf: Option<string>
    var output: File

    constructor (mainTf: Option<string>, output: File)
      ensures this.mainTf == mainTf && this.output == output
    {
      this.mainTf, this.output := mainTf, output;
    }

    method CarriedOver(force: bool) returns (prior: Option<map<string, string>>)
      ensures prior == if force then Some(map[]) else PriorIps(output)
    {
      if force || output == Absent || output == Unparsable {
        return Some(map[]);
      }
      if output == WrongShape {
        return None;
      }
      var nodes := output.raw.nodes.GetOr([]);
      var ips: map<string, string> := map[];
      for i := 0 to |nodes|
        invariant forall j | 0 <= j < i :: !Nameless(nodes[j])
        invariant ips == Known(nodes[..i])
      {
        var n := nodes[i];
        assert nodes[..i + 1][..i] == nodes[..i];
        if n.Entry? && n.ip != "" {
          if n.name == None {
            assert Nameless(nodes[i]);
            return Some(map[]);
          }
          ips := ips[n.name.value := n.ip];
        }
      }
      assert nodes[..|nodes|] == nodes;
      return Some(ips);
    }

    /** `write_output_json`: on success the file holds the merge; on any failure it
        is left as it was. */
    method WriteOutputJson(cluster: string, force: bool, live: Live) returns (r: Option<WriteError>)
      modifies this`output
      ensures match Output(mainTf, cluster, old(output), force, live)
              case Ok(s) => r == None && output == Dump(s)
              case Err(e) => r == Some(e) && output == old(output)
    {
      hide Resolved;
      var resolved := Resolve(mainTf, cluster);
      if resolved.Err? {
        return Some(Unresolved(resolved.error));
      }
      var declared := resolved.value;
      var prior := CarriedOver(force);
      if prior == None {
        return Some(BadOldFile);
      }
      var data := LiveData(declared.nodes, force, live);
      if data == None || data.value == Unreachable {
        return Some(NoLiveData);
      }
      var nodes := SettleNodes(declared.nodes, prior.value, NameToVmid(data.value.vms), data.value.ips);
      output := Dump(declared.(nodes := nodes));
      return None;
    }
  }

  /** The loop of `write_output_json`, updating the nodes one by one. */
  method SettleNodes(declared: seq<Node>, prior: map<string, string>, byName: map<string, int>, discovered: map<int, seq<string>>)
    returns (nodes: seq<Node>)
    ensures nodes == SettleAll(declared, prior, byName, discovered)
  {
    nodes := declared;
    for i := 0 to |nodes|
      invariant |nodes| == |declared|
      invariant forall j | 0 <= j < i :: nodes[j] == Settle(declared[j], prior, byName, discovered)
      invariant forall j | i <= j < |nodes| :: nodes[j] == declared[j]
    {
      var n := nodes[i];
      if n.ip != "" {
        continue;
      }
      if n.name in prior && prior[n.name] != "" {
        nodes := nodes[i := n.(ip := prior[n.name])];
        continue;
      }
      var vmid := Lookup(byName, n.name, n.vmid);
      var ips := Lookup(discovered, vmid, []);
      nodes := nodes[i := n.(ip := First(ips))];
      if vmid != nodes[i].vmid {
        nodes := nodes[i := nodes[i].(vmid := vmid)];
      }
    }
  }

  // ----- what a write gives each node -----

  /** The old file's address of a name: that of the last entry with the name and an
      address, in a file of which no entry has an address but no name. */
  ghost predicate KnownAs(f: File, name: string, ip: string) {
    && f.Json? && f.raw.nodes.Some?
    && var nodes := f.raw.nodes.value;
    && (forall i | 0 <= i < |nodes| && nodes[i].Entry? && nodes[i].ip != "" :: nodes[i].name.Some?)
    && exists i | 0 <= i < |nodes| :: Names(nodes[i], name) && nodes[i].ip == ip && forall j | i < j < |nodes| :: !Names(nodes[j], name)
  }

  predicate Names(n: RawNode, name: string) { n.Entry? && n.name == Some(name) && n.ip != "" }

  /** The live system's VM id of a name: that of the last machine with the name and an id. */
  ghost predicate LivesAs(vms: seq<(Option<int>, string)>, name: string, vmid: int) {
    && name != ""
    && exists i | 0 <= i < |vms| ::
         && vms[i] == (Some(vmid), name)
         && forall j | i < j < |vms| :: vms[j].1 != name || vms[j].0 == None
  }

  lemma {:induction false} KnownIs(nodes: seq<RawNode>, name: string)
    ensures if name in Known(nodes)
            then exists i | 0 <= i < |nodes| :: Names(nodes[i], name) && nodes[i].ip == Known(nodes)[name] &&
                   forall j | i < j < |nodes| :: !Names(nodes[j], name)
            else forall i | 0 <= i < |nodes| :: !Names(nodes[i], name)
    decreases |nodes|
  {
    if nodes != [] {
      var n := |nodes| - 1;
      var init := nodes[..n];
      KnownIs(init, name);
      assert forall j | 0 <= j < n :: init[j] == nodes[j];
      if Names(nodes[n], name) {
        assert nodes[n].ip == Known(nodes)[name];
      } else if name in Known(nodes) {
        var i :| 0 <= i < n && Names(init[i], name) && init[i].ip == Known(init)[name] && forall j | i < j < n :: !Names(init[j], name);
        assert Names(nodes[i], name) && nodes[i].ip == Known(nodes)[name];
      }
    }
  }

  lemma {:induction false} PriorIs(f: File, name: string)
    requires PriorIps(f).Some?
    ensures var ip := Lookup(PriorIps(f).value, name, "");
      if ip == "" then forall known :: !KnownAs(f, name, known)
      else KnownAs(f, name, ip) && forall known | KnownAs(f, name, known) :: known == ip
  {
    if f.Json? && f.raw.nodes.Some? {
      var nodes := f.raw.nodes.value;
      KnownIs(nodes, name);
      hide Known;
      if i :| 0 <= i < |nodes| && Nameless(nodes[i]) {
        assert nodes[i].Entry? && nodes[i].ip != "" && !nodes[i].name.Some?;
      } else {
        assert forall i | 0 <= i < |nodes| && nodes[i].Entry? && nodes[i].ip != "" :: !Nameless(nodes[i]);
      }
    }
  }

  /** A last machine of another name, or without an id, changes nothing. */
  lemma {:induction false} LivesBefore(vms: seq<(Option<int>, string)>, name: string, v: int)
    requires vms != [] && (vms[|vms| - 1].1 != name || vms[|vms| - 1].0 == None)
    ensures LivesAs(vms, name, v) <==> LivesAs(vms[..|vms| - 1], name, v)
  {
    var n := |vms| - 1;
    var init := vms[..n];
    assert forall j | 0 <= j < n :: init[j] == vms[j];
    if LivesAs(init, name, v) {
      var i :| 0 <= i < n && init[i] == (Some(v), name) && forall j | i < j < n :: init[j].1 != name || init[j].0 == None;
      assert vms[i] == (Some(v), name);
    }
    if LivesAs(vms, name, v) {
      var i :| 0 <= i < |vms| && vms[i] == (Some(v), name) && forall j | i < j < |vms| :: vms[j].1 != name || vms[j].0 == None;
      assert init[i] == (Some(v), name);
    }
  }

  lemma {:induction false} LivesLast(vms: seq<(Option<int>, string)>, name: string, v: int)
    requires vms != [] && name != "" && vms[|vms| - 1].1 == name && vms[|vms| - 1].0.Some?
    ensures LivesAs(vms, name, v) <==> vms[|vms| - 1].0 == Some(v)
  {
    var n := |vms| - 1;
    if vms[n].0 == Some(v) { assert vms[n] == (Some(v), name); }
  }

  lemma {:induction false} LivesIs(vms: seq<(Option<int>, string)>, name: string)
    ensures if name in NameToVmid(vms)
            then LivesAs(vms, name, NameToVmid(vms)[name]) && forall v | LivesAs(vms, name, v) :: v == NameToVmid(vms)[name]
            else forall v :: !LivesAs(vms, name, v)
    decreases |vms|
  {
    if vms == [] || name == "" {
      NoEmptyName(vms);
    } else {
      var n := |vms| - 1;
      LivesIs(vms[..n], name);
      hide LivesAs;
      if vms[n].1 == name && vms[n].0.Some? {
        forall v ensures LivesAs(vms, name, v) <==> vms[n].0 == Some(v) { LivesLast(vms, name, v); }
      } else {
        forall v ensures LivesAs(vms, name, v) <==> LivesAs(vms[..n], name, v) { LivesBefore(vms, name, v); }
      }
    }
  }

  lemma {:induction false} NoEmptyName(vms: seq<(Option<int>, string)>)
    ensures "" !in NameToVmid(vms)
    decreases |vms|
  {
    if vms != [] { NoEmptyName(vms[..|vms| - 1]); }
  }

  /** A declared node as it is written: with the address the old file knows and the
      declared VM id, or else with the live VM id of its name, if any, and the first of
      the live addresses under the id it has. */
  ghost predicate WrittenAs(n: Node, w: Node, previous: File, force: bool, live: Live) {
    && w.role == n.role && w.name == n.name
    && (forall ip | !force && KnownAs(previous, n.name, ip) :: w.ip == ip && w.vmid == n.vmid)
    && ((force || forall ip :: !KnownAs(previous, n.name, ip)) ==>
          && live.Live?
          && (forall vmid | LivesAs(live.vms, n.name, vmid) :: w.vmid == vmid)
          && ((forall vmid :: !LivesAs(live.vms, n.name, vmid)) ==> w.vmid == n.vmid)
          && w.ip == if w.vmid in live.ips && live.ips[w.vmid] != [] then live.ips[w.vmid][0] else "")
  }

  lemma {:induction false} SettledAsWritten(n: Node, previous: File, force: bool, live: Live)
    requires n.ip == "" && live.Live? && (force || PriorIps(previous).Some?)
    ensures var prior := if force then map[] else PriorIps(previous).value;
      WrittenAs(n, Settle(n, prior, NameToVmid(live.vms), live.ips), previous, force, live)
  {
    hide PriorIps, NameToVmid, KnownAs, LivesAs;
    if !force { PriorIs(previous, n.name); }
    LivesIs(live.vms, n.name);
  }

  /** What a write gives: the settings of the description, and each declared node as the
      old file and the live system say. */
  lemma {:induction false} WriteGives(mainTf: Option<string>, cluster: string, previous: File, force: bool, live: Live)
    requires Output(mainTf, cluster, previous, force, live).Ok?
    ensures Resolved(mainTf, cluster).Ok?
    ensures var d, w := Resolved(mainTf, cluster).value, Output(mainTf, cluster, previous, force, live).value;
      && w == d.(nodes := w.nodes) && |w.nodes| == |d.nodes|
      && forall i | 0 <= i < |d.nodes| :: WrittenAs(d.nodes[i], w.nodes[i], previous, force, live)
  {
    hide Resolved, WrittenAs, Settle, NameToVmid, PriorIps;
    ResolvedUnsettled(mainTf, cluster);
    var d, w := Resolved(mainTf, cluster).value, Output(mainTf, cluster, previous, force, live).value;
    forall i | 0 <= i < |d.nodes| ensures WrittenAs(d.nodes[i], w.nodes[i], previous, force, live) {
      assert d.nodes[i].ip == "";
      SettledAsWritten(d.nodes[i], previous, force, live);
    }
  }

  /** And when it fails: on what the resolver says, on an old file of another shape that
      is looked at, or on a live system out of reach that is needed. */
  lemma {:induction false} WriteFails(mainTf: Option<string>, cluster: string, previous: File, force: bool, live: Live)
    ensures var r, d := Output(mainTf, cluster, previous, force, live), Resolved(mainTf, cluster);
      && (forall e :: r == Err(Unresolved(e)) <==> d == Err(e))
      && (r == Err(BadOldFile) <==> d.Ok? && !force && previous == WrongShape)
      && (r == Err(NoLiveData) <==> d.Ok? && (force || (previous != WrongShape && d.value.nodes != [])) && live == Unreachable)
  {
    hide Resolved, SettleAll, NameToVmid;
    if Resolved(mainTf, cluster).Ok? {
      ResolvedUnsettled(mainTf, cluster);
      var d := Resolved(mainTf, cluster).value;
      assert d.nodes != [] ==> d.nodes[0].ip == "";
    }
  }

  // ----- what the merge keeps -----

  /** The carried-over address of a declared name, read from a dumped node list. */
  lemma {:induction false} KnownDumped(nodes: seq<Node>, i: nat)
    requires DistinctNames(nodes) && i < |nodes|
    ensures Lookup(Known(RawNodes(nodes)), nodes[i].name, "") == nodes[i].ip
    decreases |nodes|
  {
    var n := |nodes| - 1;
    assert RawNodes(nodes)[..n] == RawNodes(nodes[..n]);
    if i < n {
      KnownDumped(nodes[..n], i);
    } else {
      UnknownName(nodes[..n], nodes[n].name);
    }
  }

  lemma {:induction false} UnknownName(nodes: seq<Node>, name: string)
    requires forall i | 0 <= i < |nodes| :: nodes[i].name != name
    ensures name !in Known(RawNodes(nodes))
    decreases |nodes|
  {
    if nodes != [] {
      var n := |nodes| - 1;
      assert RawNodes(nodes)[..n] == RawNodes(nodes[..n]);
      UnknownName(nodes[..n], name);
    }
  }

  lemma {:induction false} PriorOfDump(s: Static)
    ensures PriorIps(Dump(s)) == Some(Known(RawNodes(s.nodes)))
  {
    assert forall i | 0 <= i < |s.nodes| :: !Nameless(RawNodes(s.nodes)[i]);
  }

  ghost predicate Unsettled(s: Static) {
    DistinctNames(s.nodes) && forall i | 0 <= i < |s.nodes| :: s.nodes[i].ip == ""
  }

  lemma {:induction false} AssembledUnsettled(fields: seq<ModuleField>, cp: nat, workers: nat)
    requires Assemble(fields, cp, workers).Ok?
    ensures Unsettled(Assemble(fields, cp, workers).value)
  {
    hide ToInt;
    hide LastValue;
    var s := Assemble(fields, cp, workers).value;
    DeclaredNodesShape(s.clusterName, ToInt(LastValue(fields, "vmid_start").value).value, cp, workers);
  }

  /** Whatever main.tf resolves to: addresses empty, names distinct. */
  lemma {:induction false} ResolvedUnsettled(mainTf: Option<string>, cluster: string)
    requires Resolved(mainTf, cluster).Ok?
    ensures Unsettled(Resolved(mainTf, cluster).value)
  {
    hide Assemble;
    hide Body;
    hide NestedCount;
    hide ModuleKey;
    var t := mainTf.value;
    var key := ModuleKey(t, cluster);
    AssembledUnsettled(match Body(t, key) case None => [] case Some(b) => Fields(true, b),
                       NestedCount(t, key, "control_plane"), NestedCount(t, key, "workers"));
  }

  /** A known address is never lost: without force, a declared node whose address
      the old file knows keeps it. */
  lemma {:induction false} KnownIpKept(s: Static, previous: File, live: Live, i: nat)
    requires Unsettled(s) && i < |s.nodes|
    requires Merge(s, previous, false, live).Ok?
    ensures var before := Lookup(PriorIps(previous).value, s.nodes[i].name, "");
            var after := Merge(s, previous, false, live).value.nodes[i];
      && after.role == s.nodes[i].role && after.name == s.nodes[i].name
      && (before != "" ==> after.ip == before && after.vmid == s.nodes[i].vmid)
  {
  }

  /** Force starts over: whatever the old file holds, the result is that of a write
      with no file there, but for a description without nodes while the live system
      cannot be reached, for which only force asks it. */
  lemma {:induction false} ForceStartsOver(mainTf: Option<string>, cluster: string, previous: File, live: Live)
    ensures Output(mainTf, cluster, previous, true, live) == Output(mainTf, cluster, Absent, false, live) <==>
            !(Resolved(mainTf, cluster).Ok? && Resolved(mainTf, cluster).value.nodes == [] && live == Unreachable)
  {
    hide Resolved;
    match Resolved(mainTf, cluster)
    case Err(_) =>
    case Ok(s) =>
      ResolvedUnsettled(mainTf, cluster);
      if s.nodes == [] {
        assert SettleAll(s.nodes, map[], NameToVmid([]), map[]) == s.nodes;
        if live.Live? { assert SettleAll(s.nodes, map[], NameToVmid(live.vms), live.ips) == s.nodes; }
      } else {
        assert s.nodes[0].ip == "";
      }
  }

  ghost predicate SameAddresses(a: seq<Node>, b: seq<Node>) {
    |a| == |b| && forall i | 0 <= i < |a| :: a[i].role == b[i].role && a[i].name == b[i].name && a[i].ip == b[i].ip
  }

  /** Writing over a file this writer wrote: an address found stays, with the
      declared VM id; a node without one is looked up again. */
  lemma {:induction false} Rewritten(s: Static, w: Static, live: Live, i: nat)
    requires Unsettled(s) && DistinctNames(w.nodes) && |w.nodes| == |s.nodes|
    requires i < |s.nodes| && w.nodes[i].name == s.nodes[i].name
    requires live != Unreachable
    ensures Merge(s, Dump(w), false, live).Ok?
    ensures var again := Merge(s, Dump(w), false, live).value.nodes[i];
      again == if w.nodes[i].ip != "" then s.nodes[i].(ip := w.nodes[i].ip)
               else Settle(s.nodes[i], map[], NameToVmid(live.vms), live.ips)
  {
    PriorOfDump(w);
    KnownDumped(w.nodes, i);
  }

  lemma {:induction false} MergeKeepsNames(s: Static, previous: File, force: bool, live: Live)
    requires Unsettled(s) && Merge(s, previous, force, live).Ok?
    ensures var w := Merge(s, previous, force, live).value;
      && DistinctNames(w.nodes) && |w.nodes| == |s.nodes| && w == s.(nodes := w.nodes)
      && forall i | 0 <= i < |s.nodes| :: w.nodes[i].name == s.nodes[i].name && w.nodes[i].role == s.nodes[i].role
  {
  }

  /** One write leaves the node as it stays: the old file knows its address, or it
      lives under the declared VM id, or no address is found. */
  ghost predicate SettledAtOnce(n: Node, prior: map<string, string>, live: Live) {
    live.Live? && Lookup(prior, n.name, "") == "" ==>
      var vmid := Lookup(NameToVmid(live.vms), n.name, n.vmid);
      vmid == n.vmid || First(Lookup(live.ips, vmid, [])) == ""
  }

  ghost predicate AllSettledAtOnce(nodes: seq<Node>, prior: map<string, string>, live: Live) {
    forall i | 0 <= i < |nodes| :: SettledAtOnce(nodes[i], prior, live)
  }

  /** The fixpoint. With unchanged main.tf and live data and without force, roles,
      names and addresses are final after one write and the whole file after two; the
      first write is already final if and only if each node is settled at once. */
  lemma {:induction false} WritesSettle(s: Static, previous: File, live: Live)
    requires Unsettled(s) && Merge(s, previous, false, live).Ok?
    ensures var w1 := Merge(s, previous, false, live).value;
      && Merge(s, Dump(w1), false, live).Ok?
      && var w2 := Merge(s, Dump(w1), false, live).value;
      && SameAddresses(w1.nodes, w2.nodes)
      && Merge(s, Dump(w2), false, live) == Ok(w2)
      && (w1 == w2 <==> AllSettledAtOnce(s.nodes, PriorIps(previous).value, live))
  {
    hide NameToVmid, PriorIps;
    var w1 := Merge(s, previous, false, live).value;
    MergeKeepsNames(s, previous, false, live);
    if s.nodes != [] { assert s.nodes[0].ip == "" && live != Unreachable; }
    forall i | 0 <= i < |s.nodes| { Rewritten(s, w1, live, i); }
    if s.nodes == [] { PriorOfDump(w1); }
    var w2 := Merge(s, Dump(w1), false, live).value;
    MergeKeepsNames(s, Dump(w1), false, live);
    forall i | 0 <= i < |s.nodes|
      ensures w1.nodes[i].ip == w2.nodes[i].ip
      ensures w1.nodes[i] == w2.nodes[i] <==> SettledAtOnce(s.nodes[i], PriorIps(previous).value, live)
    {
      Rewritten(s, w1, live, i);
      assert w1.nodes[i] == Settle(s.nodes[i], PriorIps(previous).value, NameToVmid(live.vms), live.ips);
    }
    if s.nodes == [] { PriorOfDump(w2); }
    forall i | 0 <= i < |s.nodes| { Rewritten(s, w2, live, i); }
    hide SettledAtOnce;
    var w3 := Merge(s, Dump(w2), false, live).value;
    assert w3.nodes == w2.nodes;
    assert w1 == w2 <==> w1.nodes == w2.nodes;
  }

  /** One write is not enough: a node declared as VM 210 that lives as VM 114 is
      written with 114 first and with 210 from then on. */
  lemma {:induction false} FirstWriteNotFinal()
    ensures var s := Static("c", "v", 1, 0, "p", "s", "d", [Node(ControlPlane, "c-cp-1", 210, "")]);
      var live := Live([(Some(114), "c-cp-1")], map[114 := ["10.0.0.1"]]);
      && Merge(s, Absent, false, live) == Ok(s.(nodes := [Node(ControlPlane, "c-cp-1", 114, "10.0.0.1")]))
      && Merge(s, Dump(s.(nodes := [Node(ControlPlane, "c-cp-1", 114, "10.0.0.1")])), false, live) ==
         Ok(s.(nodes := [Node(ControlPlane, "c-cp-1", 210, "10.0.0.1")]))
  {
    var s := Static("c", "v", 1, 0, "p", "s", "d", [Node(ControlPlane, "c-cp-1", 210, "")]);
    var vms: seq<(Option<int>, string)> := [(Some(114), "c-cp-1")];
    var live := Live(vms, map[114 := ["10.0.0.1"]]);
    var w := Node(ControlPlane, "c-cp-1", 114, "10.0.0.1");
    assert vms[..0] == [] && NameToVmid([]) == map[] && NameToVmid(vms) == map["c-cp-1" := 114];
    assert s.nodes[0].ip == "";
    OneSettled(s, Absent, live, w);
    Rewritten(s, s.(nodes := [w]), live, 0);
    OneSettled(s, Dump(s.(nodes := [w])), live, Node(ControlPlane, "c-cp-1", 210, "10.0.0.1"));
  }

  /** The merge of a description with one node. */
  lemma {:induction false} OneSettled(s: Static, previous: File, live: Live, n: Node)
    requires |s.nodes| == 1 && s.nodes[0].ip == "" && live != Unreachable && PriorIps(previous).Some?
    requires n == Settle(s.nodes[0], PriorIps(previous).value, NameToVmid(live.vms), live.ips)
    ensures Merge(s, previous, false, live) == Ok(s.(nodes := [n]))
  {
    hide PriorIps, NameToVmid, Settle;
    assert SettleAll(s.nodes, PriorIps(previous).value, NameToVmid(live.vms), live.ips) == [n];
  }

  /** Force matters exactly where the old file knows a node's address and the live
      data do not give that address under the declared VM id. */
  lemma {:induction false} ForceMattersExactly(s: Static, previous: File, live: Live)
    requires Unsettled(s) && live != Unreachable && PriorIps(previous).Some?
    ensures Merge(s, previous, true, live) == Merge(s, previous, false, live) <==>
            forall i | 0 <= i < |s.nodes| :: LiveAgrees(s.nodes[i], PriorIps(previous).value, live)
  {
    hide PriorIps, NameToVmid;
    var prior, byName := PriorIps(previous).value, NameToVmid(live.vms);
    if s.nodes != [] { assert s.nodes[0].ip == ""; }
    forall i | 0 <= i < |s.nodes|
      ensures Settle(s.nodes[i], map[], byName, live.ips) == Settle(s.nodes[i], prior, byName, live.ips) <==>
              LiveAgrees(s.nodes[i], prior, live)
    {
    }
    hide Settle, LiveAgrees;
    var a, b := SettleAll(s.nodes, map[], byName, live.ips), SettleAll(s.nodes, prior, byName, live.ips);
    assert Merge(s, previous, true, live) == Ok(s.(nodes := a));
    if s.nodes == [] {
      assert Merge(s, previous, false, live) == Ok(s.(nodes := a));
    } else {
      assert Merge(s, previous, false, live) == Ok(s.(nodes := b));
      forall i | 0 <= i < |s.nodes| ensures a[i] == b[i] <==> LiveAgrees(s.nodes[i], prior, live) {
        assert a[i] == Settle(s.nodes[i], map[], byName, live.ips) && b[i] == Settle(s.nodes[i], prior, byName, live.ips);
      }
      assert a == b <==> forall i | 0 <= i < |s.nodes| :: a[i] == b[i];
      assert s.(nodes := a) == s.(nodes := b) <==> a == b;
    }
  }

  /** The live data give a node the address the old file knows, if it knows one, under
      the declared VM id. */
  ghost predicate LiveAgrees(n: Node, prior: map<string, string>, live: Live)
    requires live != Unreachable
  {
    var known := Lookup(prior, n.name, "");
    known != "" ==>
      Lookup(NameToVmid(live.vms), n.name, n.vmid) == n.vmid && First(Lookup(live.ips, n.vmid, [])) == known
  }

  /** The same, for whole calls over one main.tf. */
  lemma {:induction false} WritesReachFixpoint(mainTf: Option<string>, cluster: string, previous: File, live: Live)
    requires Output(mainTf, cluster, previous, false, live).Ok?
    ensures var w1 := Output(mainTf, cluster, previous, false, live).value;
      && Output(mainTf, cluster, Dump(w1), false, live).Ok?
      && var w2 := Output(mainTf, cluster, Dump(w1), false, live).value;
      && SameAddresses(w1.nodes, w2.nodes)
      && Output(mainTf, cluster, Dump(w2), false, live) == Ok(w2)
      && (w1 == w2 <==> AllSettledAtOnce(Resolved(mainTf, cluster).value.nodes, PriorIps(previous).value, live))
  {
    hide Resolved, AllSettledAtOnce;
    ResolvedUnsettled(mainTf, cluster);
    WritesSettle(Resolved(mainTf, cluster).value, previous, live);
  }

  // ----- histories of writes -----

  datatype Run = Run(mainTf: Option<string>, cluster: string, live: Live)

  /** The file after a history of unforced writes; a failing write leaves it. */
  ghost function After(f: File, runs: seq<Run>): File {
    if runs == [] then f
    else
      var last := runs[|runs| - 1];
      var before := After(f, runs[..|runs| - 1]);
      match Output(last.mainTf, last.cluster, before, false, last.live)
      case Ok(s) => Dump(s)
      case Err(_) => before
  }

  function AddressOf(f: File, name: string): string {
    match PriorIps(f)
    case None => ""
    case Some(prior) => Lookup(prior, name, "")
  }

  /** The run, where main.tf resolves, still declares a node of that name. */
  ghost predicate Declares(run: Run, name: string) {
    match Resolved(run.mainTf, run.cluster)
    case Err(_) => true
    case Ok(s) => exists i | 0 <= i < |s.nodes| :: s.nodes[i].name == name
  }

  lemma {:induction false} OneWriteKeepsAddress(f: File, run: Run, name: string)
    requires AddressOf(f, name) != "" && Declares(run, name)
    requires Output(run.mainTf, run.cluster, f, false, run.live).Ok?
    ensures AddressOf(Dump(Output(run.mainTf, run.cluster, f, false, run.live).value), name) == AddressOf(f, name)
  {
    hide Resolved;
    ResolvedUnsettled(run.mainTf, run.cluster);
    var s := Resolved(run.mainTf, run.cluster).value;
    var w := Merge(s, f, false, run.live).value;
    var i :| 0 <= i < |s.nodes| && s.nodes[i].name == name;
    KnownIpKept(s, f, run.live, i);
    MergeKeepsNames(s, f, false, run.live);
    PriorOfDump(w);
    KnownDumped(w.nodes, i);
  }

  /** Over every history of unforced writes, whatever main.tf and the live system
      do in between, the address of a node that stays declared never changes. */
  lemma {:induction false} AddressNeverLost(f: File, runs: seq<Run>, name: string)
    requires AddressOf(f, name) != ""
    requires forall i | 0 <= i < |runs| :: Declares(runs[i], name)
    ensures AddressOf(After(f, runs), name) == AddressOf(f, name)
    decreases |runs|
  {
    hide Output;
    hide Declares;
    if runs != [] {
      var n := |runs| - 1;
      AddressNeverLost(f, runs[..n], name);
      var before, last := After(f, runs[..n]), runs[n];
      if Output(last.mainTf, last.cluster, before, false, last.live).Ok? { OneWriteKeepsAddress(before, last, name); }
    }
  }

  // ----- reading the file back -----

  /** `ClusterTopology`. */
  datatype View = View(name: string, vip: string, podCidr: string, svcCidr: string, clusterDns: string,
                       controlPlane: seq<RawNode>, worker: seq<RawNode>)

  datatype ReadError = Missing(field: string) | NotReadable

  function WithRole(nodes: seq<RawNode>, role: string): seq<RawNode> {
    if nodes == [] then []
    else (if nodes[0].Entry? && nodes[0].role == Some(role) then [nodes[0]] else []) + WithRole(nodes[1..], role)
  }

  /** `ClusterTopology.from_output_json`. */
  function FromOutputJson(f: File): Result<View, ReadError> {
    match f
    case Json(raw) =>
      if raw.nodes == None then Err(Missing("nodes"))
      else if exists i | 0 <= i < |raw.nodes.value| :: raw.nodes.value[i] == NotAnObject then Err(NotReadable)
      else if raw.clusterName == None then Err(Missing("cluster_name"))
      else Ok(View(raw.clusterName.value, raw.vip.GetOr(""), raw.podCidr.GetOr("172.16.0.0/16"),
                   raw.svcCidr.GetOr("172.17.0.0/16"), raw.clusterDns.GetOr("172.17.0.10"),
                   WithRole(raw.nodes.value, "control_plane"), WithRole(raw.nodes.value, "worker")))
    case _ => Err(NotReadable)
  }

  function AllNodes(v: View): seq<RawNode> { v.controlPlane + v.worker }

  predicate HasRole(n: RawNode, role: string) { n.Entry? && n.role == Some(role) }

  /** `k` control planes first, then workers, and nothing else. */
  ghost predicate SplitsAt(nodes: seq<RawNode>, k: nat) {
    && k <= |nodes|
    && (forall i | 0 <= i < k :: HasRole(nodes[i], "control_plane"))
    && (forall i | k <= i < |nodes| :: HasRole(nodes[i], "worker"))
  }

  ghost predicate RolesInOrder(nodes: seq<RawNode>) {
    exists k: nat :: SplitsAt(nodes, k)
  }

  lemma {:induction false} WithRoleHas(nodes: seq<RawNode>, role: string)
    ensures forall i | 0 <= i < |WithRole(nodes, role)| :: HasRole(WithRole(nodes, role)[i], role)
    decreases |nodes|
  {
    if nodes != [] { WithRoleHas(nodes[1..], role); }
  }

  lemma {:induction false} WithRoleAll(nodes: seq<RawNode>, role: string)
    requires forall i | 0 <= i < |nodes| :: HasRole(nodes[i], role)
    ensures WithRole(nodes, role) == nodes
    decreases |nodes|
  {
    if nodes != [] { WithRoleAll(nodes[1..], role); }
  }

  lemma {:induction false} WithRoleNone(nodes: seq<RawNode>, role: string)
    requires forall i | 0 <= i < |nodes| :: !HasRole(nodes[i], role)
    ensures WithRole(nodes, role) == []
    decreases |nodes|
  {
    if nodes != [] { WithRoleNone(nodes[1..], role); }
  }

  lemma {:induction false} WithRoleConcat(a: seq<RawNode>, b: seq<RawNode>, role: string)
    ensures WithRole(a + b, role) == WithRole(a, role) + WithRole(b, role)
    decreases |a|
  {
    if a == [] {
      assert a + b == b;
    } else {
      assert (a + b)[1..] == a[1..] + b;
      WithRoleConcat(a[1..], b, role);
    }
  }

  lemma {:induction false} SplitRoles(nodes: seq<RawNode>, k: nat)
    requires SplitsAt(nodes, k)
    ensures WithRole(nodes, "control_plane") == nodes[..k] && WithRole(nodes, "worker") == nodes[k..]
  {
    hide WithRole;
    var a, b := nodes[..k], nodes[k..];
    assert nodes == a + b && "control_plane"[0] != "worker"[0];
    WithRoleConcat(a, b, "control_plane");
    WithRoleConcat(a, b, "worker");
    WithRoleAll(a, "control_plane");
    WithRoleNone(b, "control_plane");
    WithRoleNone(a, "worker");
    WithRoleAll(b, "worker");
  }

  /** What is read of any file: it needs a list of objects and a name, and a setting that
      is absent has its default; the nodes of a role are all those, in order. */
  lemma {:induction false} ReadExactly(f: File)
    ensures var r := FromOutputJson(f);
      && (r.Ok? <==> f.Json? && f.raw.nodes.Some? && f.raw.clusterName.Some? && NotAnObject !in f.raw.nodes.value)
      && (r == Err(Missing("nodes")) <==> f.Json? && f.raw.nodes == None)
      && (r == Err(Missing("cluster_name")) <==>
            f.Json? && f.raw.nodes.Some? && NotAnObject !in f.raw.nodes.value && f.raw.clusterName == None)
      && (r.Ok? ==>
            && var v := r.value;
            && f.raw.clusterName == Some(v.name)
            && v.vip == (if f.raw.vip.Some? then f.raw.vip.value else "")
            && v.podCidr == (if f.raw.podCidr.Some? then f.raw.podCidr.value else "172.16.0.0/16")
            && v.svcCidr == (if f.raw.svcCidr.Some? then f.raw.svcCidr.value else "172.17.0.0/16")
            && v.clusterDns == (if f.raw.clusterDns.Some? then f.raw.clusterDns.value else "172.17.0.10")
            && InOrder(f.raw.nodes.value, "control_plane", v.controlPlane) && InOrder(f.raw.nodes.value, "worker", v.worker))
  {
    assert "nodes"[0] != "cluster_name"[0];
    if f.Json? && f.raw.nodes.Some? {
      WithRoleInOrder(f.raw.nodes.value, "control_plane");
      WithRoleInOrder(f.raw.nodes.value, "worker");
    }
    hide WithRole, InOrder;
  }

  /** All the nodes with the role, each as often as it is there and in the same order. */
  ghost predicate InOrder(nodes: seq<RawNode>, role: string, part: seq<RawNode>)
    decreases |nodes|
  {
    if nodes == [] then part == []
    else
      var n := nodes[|nodes| - 1];
      var init := nodes[..|nodes| - 1];
      if n.Entry? && n.role == Some(role) then part != [] && part[|part| - 1] == n && InOrder(init, role, part[..|part| - 1])
      else InOrder(init, role, part)
  }

  lemma {:induction false} WithRoleInOrder(nodes: seq<RawNode>, role: string)
    ensures InOrder(nodes, role, WithRole(nodes, role))
    decreases |nodes|
  {
    if nodes != [] {
      var init, n := nodes[..|nodes| - 1], nodes[|nodes| - 1];
      WithRoleInOrder(init, role);
      WithRoleConcat(init, [n], role);
      assert nodes == init + [n] && [n][1..] == [];
      assert WithRole([n], role) == if n.Entry? && n.role == Some(role) then [n] else [];
      var part := WithRole(nodes, role);
      hide WithRole;
      if n.Entry? && n.role == Some(role) {
        assert part[..|part| - 1] == WithRole(init, role);
      } else {
        assert part == WithRole(init, role);
      }
    }
  }

  /** Splitting by role and joining again gives the list back exactly when it lists
      control planes first, then workers, and nothing else. */
  lemma {:induction false} SplitByRoleIsIdentity(nodes: seq<RawNode>)
    ensures WithRole(nodes, "control_plane") + WithRole(nodes, "worker") == nodes <==> RolesInOrder(nodes)
  {
    hide WithRole;
    var cps, workers := WithRole(nodes, "control_plane"), WithRole(nodes, "worker");
    WithRoleHas(nodes, "control_plane");
    WithRoleHas(nodes, "worker");
    if cps + workers == nodes {
      assert forall i | 0 <= i < |cps| :: nodes[i] == cps[i];
      assert forall i | |cps| <= i < |nodes| :: nodes[i] == workers[i - |cps|];
      assert SplitsAt(nodes, |cps|);
    }
    if k: nat :| SplitsAt(nodes, k) {
      SplitRoles(nodes, k);
    }
  }

  /** Reading a written file gives the written nodes back, all of them and in
      order, and the written settings. */
  lemma {:induction false} ReadBack(mainTf: Option<string>, cluster: string, previous: File, force: bool, live: Live)
    requires Output(mainTf, cluster, previous, force, live).Ok?
    ensures FromOutputJson(Dump(Output(mainTf, cluster, previous, force, live).value)).Ok?
    ensures var s := Output(mainTf, cluster, previous, force, live).value;
      IsViewOf(FromOutputJson(Dump(s)).value, s)
  {
    hide Resolved, FromOutputJson, Dump, IsViewOf;
    var d := Resolved(mainTf, cluster).value;
    ResolvedInOrder(mainTf, cluster);
    ResolvedUnsettled(mainTf, cluster);
    MergeKeepsNames(d, previous, force, live);
    var s := Merge(d, previous, force, live).value;
    hide Merge;
    ReadBackOf(s);
  }

  /** Node by node, count by count and setting by setting. */
  ghost predicate IsViewOf(v: View, s: Static) {
    && |AllNodes(v)| == |s.nodes|
    && (forall i | 0 <= i < |s.nodes| ::
          AllNodes(v)[i] == Entry(Some(if i < s.cpCount then "control_plane" else "worker"), Some(s.nodes[i].name),
                                  Some(s.nodes[i].vmid), s.nodes[i].ip))
    && |v.controlPlane| == s.cpCount && |v.worker| == s.workerCount
    && v.name == s.clusterName && v.podCidr == s.podCidr && v.svcCidr == s.svcCidr && v.clusterDns == s.clusterDns
  }

  lemma {:induction false} ReadBackOf(s: Static)
    requires |s.nodes| == s.cpCount + s.workerCount
    requires forall i | 0 <= i < |s.nodes| :: s.nodes[i].role == if i < s.cpCount then ControlPlane else Worker
    ensures FromOutputJson(Dump(s)).Ok? && IsViewOf(FromOutputJson(Dump(s)).value, s)
  {
    hide WithRole;
    DumpInOrder(s);
  }

  lemma {:induction false} DumpInOrder(s: Static)
    requires |s.nodes| == s.cpCount + s.workerCount
    requires forall i | 0 <= i < |s.nodes| :: s.nodes[i].role == if i < s.cpCount then ControlPlane else Worker
    ensures var raw := RawNodes(s.nodes);
      && WithRole(raw, "control_plane") == raw[..s.cpCount] && WithRole(raw, "worker") == raw[s.cpCount..]
      && forall i | 0 <= i < |raw| :: raw[i] != NotAnObject
  {
    SplitRoles(RawNodes(s.nodes), s.cpCount);
  }

  lemma {:induction false} ResolvedInOrder(mainTf: Option<string>, cluster: string)
    requires Resolved(mainTf, cluster).Ok?
    ensures var s := Resolved(mainTf, cluster).value;
      |s.nodes| == s.cpCount + s.workerCount &&
      forall i | 0 <= i < |s.nodes| :: s.nodes[i].role == if i < s.cpCount then ControlPlane else Worker
  {
    hide Assemble;
    hide Body;
    hide NestedCount;
    hide ModuleKey;
    var t := mainTf.value;
    var key := ModuleKey(t, cluster);
    AssembledInOrder(match Body(t, key) case None => [] case Some(b) => Fields(true, b),
                     NestedCount(t, key, "control_plane"), NestedCount(t, key, "workers"));
  }

  lemma {:induction false} AssembledInOrder(fields: seq<ModuleField>, cp: nat, workers: nat)
    requires Assemble(fields, cp, workers).Ok?
    ensures var s := Assemble(fields, cp, workers).value;
      && s.cpCount == cp && s.workerCount == workers && |s.nodes| == cp + workers
      && forall i | 0 <= i < |s.nodes| :: s.nodes[i].role == if i < cp then ControlPlane else Worker
  {
    hide ToInt;
    hide LastValue;
    var s := Assemble(fields, cp, workers).value;
    DeclaredNodesShape(s.clusterName, ToInt(LastValue(fields, "vmid_start").value).value, cp, workers);
  }
}
