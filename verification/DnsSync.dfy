/** Bringing the DNS records in line with the addresses the machines really have. */
module DnsSync {
  import opened Text

  // ----- names -----

  function Reverse(s: seq<string>): (r: seq<string>)
    ensures |r| == |s| && forall i | 0 <= i < |s| :: r[i] == s[|s| - 1 - i]
  {
    seq(|s|, i requires 0 <= i < |s| => s[|s| - 1 - i])
  }

  function ReversedOctets(ip: string): string {
    Join(".", Reverse(Split(ip, '.')))
  }

  /** `_reverse_name`; None for the exception on anything but four parts. */
  function ReverseName(ip: string, zone: string): Option<string> {
    if |Split(ip, '.')| != 4 then None else Some(ReversedOctets(ip) + "." + zone)
  }

  function Fqdn(name: string, zone: string): string { name + "." + zone }

  lemma {:induction false} SplitReversed(ip: string)
    ensures Split(ReversedOctets(ip), '.') == Reverse(Split(ip, '.'))
  {
    var parts := Reverse(Split(ip, '.'));
    assert forall i | 0 <= i < |parts| :: '.' !in parts[i];
    SplitJoin(parts, '.');
  }

  /** Reversing the octets twice gives the address back. */
  lemma {:induction false} ReversalIsInvolution(ip: string)
    ensures ReversedOctets(ReversedOctets(ip)) == ip
  {
    SplitReversed(ip);
    var parts := Split(ip, '.');
    assert Reverse(Reverse(parts)) == parts;
    JoinSplit(ip, '.');
  }

  lemma {:induction false} SuffixCancels(a: string, b: string, suffix: string)
    requires a + suffix == b + suffix
    ensures a == b
  {
    assert |a| == |b|;
    assert a == (a + suffix)[..|a|] && b == (b + suffix)[..|b|];
  }

  /** Within one zone, different addresses have different PTR names. */
  lemma {:induction false} ReverseNameInjective(a: string, b: string, zone: string)
    requires ReverseName(a, zone).Some? && ReverseName(a, zone) == ReverseName(b, zone)
    ensures a == b
  {
    assert ReversedOctets(a) + ("." + zone) == ReversedOctets(a) + "." + zone;
    assert ReversedOctets(b) + ("." + zone) == ReversedOctets(b) + "." + zone;
    SuffixCancels(ReversedOctets(a), ReversedOctets(b), "." + zone);
    ReversalIsInvolution(a);
    ReversalIsInvolution(b);
  }

  lemma {:induction false} FqdnInjective(a: string, b: string, zone: string)
    requires Fqdn(a, zone) == Fqdn(b, zone)
    ensures a == b
  {
    assert a + ("." + zone) == a + "." + zone && b + ("." + zone) == b + "." + zone;
    SuffixCancels(a, b, "." + zone);
  }

  /** The name that section 3.5 of RFC 1035 gives an address: its octets in reverse
      order under in-addr.arpa. */
  function RfcName(octets: seq<string>): string
    requires |octets| == 4
  {
    octets[3] + "." + octets[2] + "." + octets[1] + "." + octets[0] + "." + "in-addr.arpa."
  }

  /** The code's PTR name is the one of RFC 1035 exactly for the zone in-addr.arpa;
      the default zone 10.in-addr.arpa repeats the leading octet. */
  lemma {:induction false} RfcNameExactly(ip: string, zone: string)
    requires |Split(ip, '.')| == 4
    ensures ReverseName(ip, zone) == Some(RfcName(Split(ip, '.'))) <==> zone == "in-addr.arpa."
  {
    var o := Split(ip, '.');
    var r := Reverse(o);
    JoinFour(r);
    var head := o[3] + "." + o[2] + "." + o[1] + "." + o[0] + ".";
    assert ReversedOctets(ip) + "." + zone == head + zone;
    assert RfcName(o) == head + "in-addr.arpa.";
    if head + zone == head + "in-addr.arpa." {
      assert zone == (head + zone)[|head|..] == (head + "in-addr.arpa.")[|head|..];
    }
  }

  // ----- records -----

  datatype RecordType = A | Ptr

  datatype Key = Key(zone: string, name: string, kind: RecordType)

  type Records = map<Key, string>

  datatype Target = Target(vmid: int, name: string)

  datatype Zones = Zones(forward: string, reverse: string)

  /** The answer to one update: applied; refused; or applied although the answer
      that came back was an error. */
  datatype Patch = Applied | Refused | Lost

  /** The answers while one target is served: the addresses the machines would give if
      asked, by VM id, and the two updates. */
  datatype Answer = Answer(ips: map<int, string>, a: Patch, ptr: Patch)

  function At(answers: seq<Answer>, i: nat): Answer {
    if i < |answers| then answers[i] else Answer(map[], Refused, Refused)
  }

  /** `_get_ens18_ipv4`: the address of the target's own machine, if it gives one. */
  function Address(t: Target, ans: Answer): Option<string> {
    if t.vmid in ans.ips then Some(ans.ips[t.vmid]) else None
  }

  function Ip(targets: seq<Target>, answers: seq<Answer>, i: nat): Option<string>
    requires i < |targets|
  {
    Address(targets[i], At(answers, i))
  }

  function AKey(t: Target, z: Zones): Key { Key(z.forward, Fqdn(t.name, z.forward), A) }

  function PtrKey(ip: string, z: Zones): Key
    requires ReverseName(ip, z.reverse).Some?
  {
    Key(z.reverse, ReverseName(ip, z.reverse).value, Ptr)
  }

  /** An update replaces all records of its name and type. */
  function Updated(r: Records, k: Key, value: string, p: Patch): Records {
    if p == Refused then r else r[k := value]
  }

  datatype Outcome = Outcome(records: Records, code: int, stopped: nat)

  /** The loop over the targets from the `i`-th on; `stopped` is the target at which
      it ends, code 1 the uncaught exception on a malformed address. */
  function Sync(targets: seq<Target>, i: nat, r: Records, answers: seq<Answer>, z: Zones): Outcome
    requires i <= |targets|
    decreases |targets| - i
  {
    if i == |targets| then Outcome(r, 0, i)
    else
      var t, ans := targets[i], At(answers, i);
      if Address(t, ans) == None then Outcome(r, 4, i)
      else
        var ip := Address(t, ans).value;
        if ReverseName(ip, z.reverse) == None then Outcome(r, 1, i)
        else
          var r1 := Updated(r, AKey(t, z), ip, ans.a);
          if ans.a != Applied then Outcome(r1, 5, i)
          else
            var r2 := Updated(r1, PtrKey(ip, z), Fqdn(t.name, z.forward), ans.ptr);
            if ans.ptr != Applied then Outcome(r2, 5, i) else Sync(targets, i + 1, r2, answers, z)
  }

  class DnsServer {
    var records: Records

    constructor (records: Records)
      ensures this.records == records
    {
      this.records := records;
    }

    /** `_pdns_update_record`. */
    method UpdateRecord(k: Key, value: string, p: Patch) returns (ok: bool)
      modifies this
      ensures records == Updated(old(records), k, value, p) && (ok <==> p == Applied)
    {
      if p != Refused {
        records := records[k := value];
      }
      return p == Applied;
    }

    /** `main`, from the checks on its arguments on. */
    method Run(vmids: seq<int>, names: seq<string>, hasSsh: bool, hasKey: bool, tunnelUp: bool,
               answers: seq<Answer>, z: Zones) returns (code: int)
      modifies this
      ensures |vmids| != |names| || !hasSsh || !hasKey ==> code == 2 && records == old(records)
      ensures |vmids| == |names| && hasSsh && hasKey && !tunnelUp ==> code == 3 && records == old(records)
      ensures |vmids| == |names| && hasSsh && hasKey && tunnelUp ==>
                (records, code) == var o := Sync(Targets(vmids, names), 0, old(records), answers, z); (o.records, o.code)
      ensures code == 0 ==> |vmids| == |names|
      ensures code == 0 ==>
                ((forall i | 0 <= i < |names| :: Published(vmids[i], names[i], At(answers, i), records, z)) <==> Paired(vmids, names, answers))
    {
      if |vmids| != |names| {
        return 2;
      }
      if !hasSsh || !hasKey {
        return 2;
      }
      if !tunnelUp {
        return 3;
      }
      var targets := Targets(vmids, names);
      RunPublishes(vmids, names, records, answers, z);
      for i := 0 to |targets|
        invariant Sync(targets, i, records, answers, z) == Sync(targets, 0, old(records), answers, z)
      {
        var t, ans := targets[i], At(answers, i);
        var asked := Address(t, ans);
        if asked == None {
          return 4;
        }
        var ip := asked.value;
        var fqdn := Fqdn(t.name, z.forward);
        var ptrName := ReverseName(ip, z.reverse);
        if ptrName == None {
          return 1;
        }
        var ok := UpdateRecord(Key(z.forward, fqdn, A), ip, ans.a);
        if !ok {
          return 5;
        }
        ok := UpdateRecord(Key(z.reverse, ptrName.value, Ptr), fqdn, ans.ptr);
        if !ok {
          return 5;
        }
      }
      return 0;
    }
  }

  function Targets(vmids: seq<int>, names: seq<string>): (r: seq<Target>)
    requires |vmids| == |names|
    ensures |r| == |names|
  {
    seq(|names|, i requires 0 <= i < |names| => Target(vmids[i], names[i]))
  }

  // ----- what a run is for -----

  /** The address that the machine with this VM id gave is published under this name: an A
      record in the forward zone, and in the reverse zone a PTR record whose name starts
      with the four parts of the address read backwards. */
  ghost predicate Published(vmid: int, name: string, ans: Answer, r: Records, z: Zones) {
    && vmid in ans.ips
    && var parts := Split(ans.ips[vmid], '.');
    && |parts| == 4
    && var a := Key(z.forward, name + "." + z.forward, A);
    && var ptr := Key(z.reverse, parts[3] + "." + parts[2] + "." + parts[1] + "." + parts[0] + "." + z.reverse, Ptr);
    && a in r && r[a] == ans.ips[vmid] && ptr in r && r[ptr] == name + "." + z.forward
  }

  /** Equal names went with equal addresses and the other way round. */
  ghost predicate Paired(vmids: seq<int>, names: seq<string>, answers: seq<Answer>)
    requires |vmids| == |names|
  {
    forall i, j | 0 <= i < j < |names| && vmids[i] in At(answers, i).ips && vmids[j] in At(answers, j).ips ::
      names[i] == names[j] <==> At(answers, i).ips[vmids[i]] == At(answers, j).ips[vmids[j]]
  }

  // ----- what a run leaves -----

  ghost predicate Resolved(targets: seq<Target>, answers: seq<Answer>, i: nat, z: Zones)
    requires i < |targets|
  {
    Ip(targets, answers, i).Some? && ReverseName(Ip(targets, answers, i).value, z.reverse).Some?
  }

  /** Both records of a target agree with the queried address. */
  ghost predicate Synced(t: Target, ip: string, r: Records, z: Zones)
    requires ReverseName(ip, z.reverse).Some?
  {
    && AKey(t, z) in r && r[AKey(t, z)] == ip
    && PtrKey(ip, z) in r && r[PtrKey(ip, z)] == Fqdn(t.name, z.forward)
  }

  /** Among the first `n` targets, equal names go with equal addresses and the other
      way round; with distinct names and addresses this holds by itself. */
  ghost predicate Consistent(targets: seq<Target>, answers: seq<Answer>, n: nat) {
    && n <= |targets|
    && forall i, j | 0 <= i < j < n :: targets[i].name == targets[j].name <==> Ip(targets, answers, i) == Ip(targets, answers, j)
  }

  ghost predicate SyncedUpTo(targets: seq<Target>, answers: seq<Answer>, n: nat, r: Records, z: Zones)
    requires n <= |targets|
  {
    forall j | 0 <= j < n :: Resolved(targets, answers, j, z) && Synced(targets[j], Ip(targets, answers, j).value, r, z)
  }

  /** The keys a target may write. */
  ghost predicate KeyOf(k: Key, targets: seq<Target>, answers: seq<Answer>, j: nat, z: Zones)
    requires j < |targets|
  {
    k == AKey(targets[j], z) || (Resolved(targets, answers, j, z) && k == PtrKey(Ip(targets, answers, j).value, z))
  }

  lemma {:induction false} StepKeepsSynced(targets: seq<Target>, answers: seq<Answer>, i: nat, r: Records, z: Zones)
    requires i < |targets| && Resolved(targets, answers, i, z) && Consistent(targets, answers, i + 1)
    requires SyncedUpTo(targets, answers, i, r, z)
    ensures var ip := Ip(targets, answers, i).value;
      SyncedUpTo(targets, answers, i + 1, r[AKey(targets[i], z) := ip][PtrKey(ip, z) := Fqdn(targets[i].name, z.forward)], z)
  {
    hide ReverseName;
    var ip := Ip(targets, answers, i).value;
    forall j | 0 <= j < i && AKey(targets[j], z) == AKey(targets[i], z) ensures Ip(targets, answers, j) == Some(ip) {
      FqdnInjective(targets[j].name, targets[i].name, z.forward);
    }
    forall j | 0 <= j < i && PtrKey(Ip(targets, answers, j).value, z) == PtrKey(ip, z) ensures targets[j].name == targets[i].name {
      ReverseNameInjective(Ip(targets, answers, j).value, ip, z.reverse);
    }
  }

  /** However the loop ends at target `n`: all before it are synced, the code says
      why it ended, and no record of another name was touched. At target `n` itself,
      4 and 1 leave everything, and 5 leaves each of its two records either as it was
      or as intended, the PTR record only after the A record. */
  lemma {:induction false} SyncLeaves(targets: seq<Target>, i: nat, r: Records, answers: seq<Answer>, z: Zones)
    requires i <= |targets| && SyncedUpTo(targets, answers, i, r, z)
    requires Consistent(targets, answers, Sync(targets, i, r, answers, z).stopped)
    ensures var o := Sync(targets, i, r, answers, z);
      && i <= o.stopped <= |targets| && (o.code == 0 <==> o.stopped == |targets|)
      && o.code in {0, 1, 4, 5}
      && (exists before :: SyncedUpTo(targets, answers, o.stopped, before, z) &&
            if o.code != 5 then o.records == before
            else Resolved(targets, answers, o.stopped, z) && HalfDone(targets[o.stopped], At(answers, o.stopped), before, o.records, z))
    decreases |targets| - i
  {
    hide ReverseName;
    hide SyncedUpTo;
    if i < |targets| && Resolved(targets, answers, i, z) && At(answers, i).a == Applied && At(answers, i).ptr == Applied {
      var ip := Ip(targets, answers, i).value;
      var next := r[AKey(targets[i], z) := ip][PtrKey(ip, z) := Fqdn(targets[i].name, z.forward)];
      StoppedAfter(targets, i + 1, next, answers, z);
      StepKeepsSynced(targets, answers, i, r, z);
      SyncLeaves(targets, i + 1, next, answers, z);
    }
  }

  /** Target updates cut short: the A record alone, or both, or none. */
  ghost predicate HalfDone(t: Target, ans: Answer, before: Records, after: Records, z: Zones)
    requires Address(t, ans).Some? && ReverseName(Address(t, ans).value, z.reverse).Some?
  {
    var withA := before[AKey(t, z) := Address(t, ans).value];
    if ans.a == Refused then after == before
    else if ans.a == Lost || ans.ptr == Refused then after == withA
    else after == withA[PtrKey(Address(t, ans).value, z) := Fqdn(t.name, z.forward)]
  }

  lemma {:induction false} StoppedAfter(targets: seq<Target>, i: nat, r: Records, answers: seq<Answer>, z: Zones)
    requires i <= |targets|
    ensures Sync(targets, i, r, answers, z).stopped >= i
    decreases |targets| - i
  {
    hide ReverseName;
    if i < |targets| {
      var ans := At(answers, i);
      if Resolved(targets, answers, i, z) && ans.a == Applied && ans.ptr == Applied {
        var ip := Ip(targets, answers, i).value;
        StoppedAfter(targets, i + 1, r[AKey(targets[i], z) := ip][PtrKey(ip, z) := Fqdn(targets[i].name, z.forward)], answers, z);
      }
    }
  }

  /** Records of no target up to the last one reached are never touched. */
  lemma {:induction false} OthersUntouched(targets: seq<Target>, i: nat, r: Records, answers: seq<Answer>, z: Zones, k: Key)
    requires i <= |targets|
    requires forall j | i <= j < |targets| && j <= Sync(targets, i, r, answers, z).stopped :: !KeyOf(k, targets, answers, j, z)
    ensures var o := Sync(targets, i, r, answers, z);
      (k in o.records <==> k in r) && (k in r ==> o.records[k] == r[k])
    decreases |targets| - i
  {
    hide ReverseName;
    StoppedAfter(targets, i, r, answers, z);
    if i < |targets| {
      assert !KeyOf(k, targets, answers, i, z);
      var ans := At(answers, i);
      if Resolved(targets, answers, i, z) && ans.a == Applied && ans.ptr == Applied {
        var ip := Ip(targets, answers, i).value;
        OthersUntouched(targets, i + 1, r[AKey(targets[i], z) := ip][PtrKey(ip, z) := Fqdn(targets[i].name, z.forward)], answers, z, k);
      }
    }
  }

  /** After exit 0, every target is synced exactly when equal names went with equal
      addresses and the other way round. */
  lemma {:induction false} SyncedExactly(targets: seq<Target>, r: Records, answers: seq<Answer>, z: Zones)
    requires Sync(targets, 0, r, answers, z).code == 0
    ensures SyncedUpTo(targets, answers, |targets|, Sync(targets, 0, r, answers, z).records, z)
            <==> Consistent(targets, answers, |targets|)
  {
    hide ReverseName;
    hide Sync;
    var last := Sync(targets, 0, r, answers, z).records;
    if SyncedUpTo(targets, answers, |targets|, last, z) {
      forall i, j | 0 <= i < j < |targets|
        ensures targets[i].name == targets[j].name <==> Ip(targets, answers, i) == Ip(targets, answers, j)
      {
        assert Synced(targets[i], Ip(targets, answers, i).value, last, z) && Synced(targets[j], Ip(targets, answers, j).value, last, z);
        if Ip(targets, answers, i) == Ip(targets, answers, j) { FqdnInjective(targets[i].name, targets[j].name, z.forward); }
      }
    } else if Consistent(targets, answers, |targets|) {
      StoppedInRange(targets, r, answers, z);
      SyncLeaves(targets, 0, r, answers, z);
    }
  }

  lemma {:induction false} SyncedIsPublished(t: Target, ans: Answer, r: Records, z: Zones)
    ensures (Address(t, ans).Some? && ReverseName(Address(t, ans).value, z.reverse).Some? && Synced(t, Address(t, ans).value, r, z))
            <==> Published(t.vmid, t.name, ans, r, z)
  {
    if t.vmid in ans.ips && |Split(ans.ips[t.vmid], '.')| == 4 {
      var parts := Split(ans.ips[t.vmid], '.');
      JoinFour(Reverse(parts));
      assert ReverseName(ans.ips[t.vmid], z.reverse) ==
             Some(parts[3] + "." + parts[2] + "." + parts[1] + "." + parts[0] + "." + z.reverse);
      hide Split, Join, ReverseName;
    }
  }

  lemma {:induction false} PairedIsConsistent(vmids: seq<int>, names: seq<string>, answers: seq<Answer>)
    requires |vmids| == |names| && forall i | 0 <= i < |names| :: vmids[i] in At(answers, i).ips
    ensures Paired(vmids, names, answers) <==> Consistent(Targets(vmids, names), answers, |names|)
  {
    hide At;
    var targets := Targets(vmids, names);
    forall i, j | 0 <= i < j < |names|
      ensures targets[i].name == names[i] && targets[j].name == names[j]
      ensures Ip(targets, answers, i) == Ip(targets, answers, j) <==> At(answers, i).ips[vmids[i]] == At(answers, j).ips[vmids[j]]
    {
    }
  }

  /** After exit 0 each machine's address is published under its own name, if and only if
      equal names went with equal addresses and the other way round. */
  lemma {:induction false} RunPublishes(vmids: seq<int>, names: seq<string>, r: Records, answers: seq<Answer>, z: Zones)
    requires |vmids| == |names|
    ensures var o := Sync(Targets(vmids, names), 0, r, answers, z);
      o.code == 0 ==>
        ((forall i | 0 <= i < |names| :: Published(vmids[i], names[i], At(answers, i), o.records, z)) <==> Paired(vmids, names, answers))
  {
    var targets := Targets(vmids, names);
    var o := Sync(targets, 0, r, answers, z);
    if o.code == 0 {
      SyncedExactly(targets, r, answers, z);
      AllAnswered(targets, 0, r, answers, z);
      hide Sync, Published, Synced, ReverseName;
      forall i | 0 <= i < |names|
        ensures Published(vmids[i], names[i], At(answers, i), o.records, z) <==>
                Resolved(targets, answers, i, z) && Synced(targets[i], Ip(targets, answers, i).value, o.records, z)
      {
        SyncedIsPublished(targets[i], At(answers, i), o.records, z);
      }
      forall i | 0 <= i < |names| ensures vmids[i] in At(answers, i).ips && Ip(targets, answers, i) == Some(At(answers, i).ips[vmids[i]]) {
        assert Resolved(targets, answers, i, z);
      }
      PairedIsConsistent(vmids, names, answers);
    }
  }

  lemma {:induction false} AllAnswered(targets: seq<Target>, i: nat, r: Records, answers: seq<Answer>, z: Zones)
    requires i <= |targets| && Sync(targets, i, r, answers, z).code == 0
    ensures forall j | i <= j < |targets| :: Resolved(targets, answers, j, z)
    decreases |targets| - i
  {
    hide ReverseName;
    if i < |targets| {
      var ip := Ip(targets, answers, i).value;
      AllAnswered(targets, i + 1, r[AKey(targets[i], z) := ip][PtrKey(ip, z) := Fqdn(targets[i].name, z.forward)], answers, z);
    }
  }

  /** Why a run ends: the machine gave no address, one that is not of four parts, or an
      update did not come back as applied. All targets before had both applied. */
  lemma {:induction false} EndsBecause(targets: seq<Target>, i: nat, r: Records, answers: seq<Answer>, z: Zones)
    requires i <= |targets|
    ensures var o := Sync(targets, i, r, answers, z);
      if o.stopped == |targets| then o.code == 0
      else
        && i <= o.stopped < |targets|
        && var t, ans := targets[o.stopped], At(answers, o.stopped);
        && o.code == (if t.vmid !in ans.ips then 4 else if |Split(ans.ips[t.vmid], '.')| != 4 then 1 else 5)
        && (o.code == 5 ==> ans.a != Applied || ans.ptr != Applied)
    ensures forall j | i <= j < Sync(targets, i, r, answers, z).stopped && j < |targets| ::
      Resolved(targets, answers, j, z) && At(answers, j).a == Applied && At(answers, j).ptr == Applied
    decreases |targets| - i
  {
    hide Split, ReversedOctets;
    if i < |targets| && Resolved(targets, answers, i, z) && At(answers, i).a == Applied && At(answers, i).ptr == Applied {
      var ip := Ip(targets, answers, i).value;
      EndsBecause(targets, i + 1, r[AKey(targets[i], z) := ip][PtrKey(ip, z) := Fqdn(targets[i].name, z.forward)], answers, z);
    }
  }

  lemma {:induction false} StoppedInRange(targets: seq<Target>, r: Records, answers: seq<Answer>, z: Zones)
    requires Sync(targets, 0, r, answers, z).code == 0
    ensures Sync(targets, 0, r, answers, z).stopped == |targets|
  {
    StoppedAtEnd(targets, 0, r, answers, z);
  }

  lemma {:induction false} StoppedAtEnd(targets: seq<Target>, i: nat, r: Records, answers: seq<Answer>, z: Zones)
    requires i <= |targets| && Sync(targets, i, r, answers, z).code == 0
    ensures Sync(targets, i, r, answers, z).stopped == |targets|
    decreases |targets| - i
  {
    hide ReverseName;
    if i < |targets| {
      var ip := Ip(targets, answers, i).value;
      StoppedAtEnd(targets, i + 1, r[AKey(targets[i], z) := ip][PtrKey(ip, z) := Fqdn(targets[i].name, z.forward)], answers, z);
    }
  }

  lemma {:induction false} HalfStepKeeps(targets: seq<Target>, answers: seq<Answer>, i: nat, before: Records, after: Records, z: Zones)
    requires i < |targets| && Resolved(targets, answers, i, z) && Consistent(targets, answers, i + 1)
    requires SyncedUpTo(targets, answers, i, before, z)
    requires HalfDone(targets[i], At(answers, i), before, after, z)
    ensures SyncedUpTo(targets, answers, i, after, z)
  {
    hide ReverseName;
    var ip := Ip(targets, answers, i).value;
    forall j | 0 <= j < i && AKey(targets[j], z) == AKey(targets[i], z) ensures Ip(targets, answers, j) == Some(ip) {
      FqdnInjective(targets[j].name, targets[i].name, z.forward);
    }
    forall j | 0 <= j < i && PtrKey(Ip(targets, answers, j).value, z) == PtrKey(ip, z) ensures targets[j].name == targets[i].name {
      ReverseNameInjective(Ip(targets, answers, j).value, ip, z.reverse);
    }
  }

  /** A run that stops at a target leaves all earlier targets fully synced. */
  lemma {:induction false} AbortKeepsEarlier(targets: seq<Target>, r: Records, answers: seq<Answer>, z: Zones)
    requires var n := Sync(targets, 0, r, answers, z).stopped;
      Consistent(targets, answers, if n < |targets| then n + 1 else n)
    ensures var o := Sync(targets, 0, r, answers, z);
      o.stopped <= |targets| && SyncedUpTo(targets, answers, o.stopped, o.records, z)
  {
    hide ReverseName;
    hide SyncedUpTo;
    hide HalfDone;
    var o := Sync(targets, 0, r, answers, z);
    assert SyncedUpTo(targets, answers, 0, r, z) by { NothingSynced(targets, answers, r, z); }
    SyncLeaves(targets, 0, r, answers, z);
    hide Sync;
    if o.code == 5 {
      var before :| SyncedUpTo(targets, answers, o.stopped, before, z) &&
        HalfDone(targets[o.stopped], At(answers, o.stopped), before, o.records, z);
      HalfStepKeeps(targets, answers, o.stopped, before, o.records, z);
    }
  }

  lemma {:induction false} NothingSynced(targets: seq<Target>, answers: seq<Answer>, r: Records, z: Zones)
    ensures SyncedUpTo(targets, answers, 0, r, z)
  {
  }
}
