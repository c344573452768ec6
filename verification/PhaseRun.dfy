/** One run of the bootstrap, as a function of what it finds on disk and of what
    the world answers. */
module PhaseRun {
  import opened Text
  import opened Kubeconfig

  const PHASES: seq<string> := [
    "cloudinit", "install_k3s", "k3s", "gateway_crds", "helm",
    "gateway_smoke", "kubeconfig", "csi_smoke", "host_ports", "externalname"
  ]

  /** The phases that open the apiserver tunnel. */
  predicate OpensTunnel(phase: string) {
    phase in {"k3s", "gateway_crds", "helm", "gateway_smoke", "kubeconfig"}
  }

  // ----- the request -----

  function Stripped(raw: seq<string>): seq<string> {
    if raw == [] then []
    else (if Strip(raw[0]) == "" then [] else [Strip(raw[0])]) + Stripped(raw[1..])
  }

  /** `_parse_phases`; the error is the list of unknown names. */
  function ParsePhases(raw: Option<seq<string>>): (r: Result<seq<string>, seq<string>>)
    ensures r.Ok? ==> forall p | p in r.value :: p in PHASES
  {
    match raw
    case None => Ok(PHASES)
    case Some(names) =>
      var phases := Stripped(names);
      var unknown := Unknown(phases);
      if unknown == [] then Ok(phases) else Err(unknown)
  }

  function Unknown(phases: seq<string>): (r: seq<string>)
    ensures r == [] <==> forall p | p in phases :: p in PHASES
  {
    if phases == [] then []
    else if phases[0] in PHASES then Unknown(phases[1..]) else [phases[0]] + Unknown(phases[1..])
  }

  lemma {:induction false} StrippedConcat(a: seq<string>, b: seq<string>)
    ensures Stripped(a + b) == Stripped(a) + Stripped(b)
    decreases |a|
  {
    hide Strip;
    if a == [] {
      assert a + b == b;
    } else {
      assert (a + b)[1..] == a[1..] + b;
      StrippedConcat(a[1..], b);
    }
  }

  lemma {:induction false} UnknownConcat(a: seq<string>, b: seq<string>)
    ensures Unknown(a + b) == Unknown(a) + Unknown(b)
    decreases |a|
  {
    hide PHASES;
    if a == [] {
      assert a + b == b;
    } else {
      assert (a + b)[1..] == a[1..] + b;
      UnknownConcat(a[1..], b);
    }
  }

  lemma {:induction false} AllTen(phase: string)
    ensures PHASES == ["cloudinit", "install_k3s", "k3s", "gateway_crds", "helm", "gateway_smoke", "kubeconfig", "csi_smoke",
                       "host_ports", "externalname"]
    ensures phase in PHASES <==> phase in {"cloudinit", "install_k3s", "k3s", "gateway_crds", "helm", "gateway_smoke",
                                           "kubeconfig", "csi_smoke", "host_ports", "externalname"}
  {
  }

  /** A request without names is one for all ten; of a single name, its outer blanks do
      not count, and a blank one requests nothing. */
  lemma {:induction false} RequestOfOne(name: string)
    ensures ParsePhases(None) == Ok(["cloudinit", "install_k3s", "k3s", "gateway_crds", "helm", "gateway_smoke", "kubeconfig",
                                     "csi_smoke", "host_ports", "externalname"])
    ensures ParsePhases(Some([])) == Ok([])
    ensures ParsePhases(Some([name])) ==
            if Strip(name) == "" then Ok([])
            else if Strip(name) in {"cloudinit", "install_k3s", "k3s", "gateway_crds", "helm", "gateway_smoke", "kubeconfig",
                                    "csi_smoke", "host_ports", "externalname"} then Ok([Strip(name)])
            else Err([Strip(name)])
  {
    var phase := Strip(name);
    AllTen(phase);
    hide Strip, PHASES;
    assert Stripped([name]) == if phase == "" then [] else [phase];
    assert Unknown([phase]) == if phase in PHASES then [] else [phase];
  }

  /** A longer one is read part by part; one unknown name refuses it, and the error
      lists all of them in order. */
  lemma {:induction false} RequestRead(a: seq<string>, b: seq<string>)
    ensures ParsePhases(Some(a + b)) ==
            match (ParsePhases(Some(a)), ParsePhases(Some(b)))
            case (Ok(x), Ok(y)) => Ok(x + y)
            case (Ok(_), Err(y)) => Err(y)
            case (Err(x), Ok(_)) => Err(x)
            case (Err(x), Err(y)) => Err(x + y)
  {
    StrippedConcat(a, b);
    UnknownConcat(Stripped(a), Stripped(b));
    hide Stripped, Unknown, PHASES;
    var x, y := Unknown(Stripped(a)), Unknown(Stripped(b));
    assert x + [] == x && [] + y == y;
  }

  // ----- what the world answers -----

  /** One action: it goes through, it raises, or the process dies in it. */
  datatype Step = Goes | Raises | Dies

  /** The answers to one attempt of a phase: whether the ssh process of an earlier
      forward is still there; then, action by action, the phase's own checks; the port
      forward and the kubeconfig fetched through the proxy; the second fetch and the
      merge of the kubeconfig phase; the rest of the phase; whether the cross-cluster
      manifest exists; and the save. */
  datatype Attempt = Attempt(alive: bool, check: Step, forward: Step, port: nat, fetch: Step, body: string,
                             refetch: Step, body2: string, work: Step, manifest: bool, save: Step)

  const SMOOTH_LINES: seq<string> := ["apiVersion: v1 kind: Config", SERVER + " x"]

  const SMOOTH_BODY := Unlines(SMOOTH_LINES)

  const SMOOTH := Attempt(true, Goes, Goes, 1, Goes, SMOOTH_BODY, Goes, SMOOTH_BODY, Goes, true, Goes)

  function Answer(world: seq<Attempt>, i: nat): Attempt {
    if i < |world| then world[i] else SMOOTH
  }

  // ----- the run's state -----

  datatype Outcome = Failed | Unmarked | Saved

  /** One attempt in the log: the forward it found, the one held when it ended, whether
      the process of that was there, how the attempt ended, and what the world answered. */
  datatype Event = Event(index: nat, phase: string, found: Option<nat>, held: Option<nat>, running: bool, outcome: Outcome,
                         answers: Attempt)

  /** `done` is in memory, `disk` in the state file; `running` says whether the process
      behind the forward is there; `ports` lists the ports of all forwards that were
      returned in this run. */
  datatype Run = Run(done: set<string>, disk: set<string>, forward: Option<nat>, running: bool, ports: seq<nat>,
                     kubeconfig: Option<string>, log: seq<Event>)

  function Fetched(r: Run, step: Step, body: string): (Run, Step)
    requires r.forward.Some?
  {
    if step != Goes then (r, step)
    else if !LooksLikeKubeconfig(body) then (r, Raises)
    else match Rewritten(body, r.forward.value)
      case None => (r, Raises)
      case Some(text) => (r.(kubeconfig := Some(text)), Goes)
  }

  /** `_open_apiserver_tunnel`: a forward that is held is reused without a look at its
      process. */
  function OpenTunnel(r: Run, a: Attempt): (Run, Step) {
    if r.forward == None then
      if a.forward != Goes then (r, a.forward)
      else Fetched(r.(forward := Some(a.port), running := true, ports := r.ports + [a.port]), a.fetch, a.body)
    else Fetched(r, a.fetch, a.body)
  }

  /** The body of a phase up to its mark; without its manifest `externalname` returns
      before its work. */
  function Body(r: Run, phase: string, a: Attempt): (Run, Step) {
    if a.check != Goes then (r, a.check)
    else
      var (r1, s1) := if OpensTunnel(phase) then OpenTunnel(r, a) else (r, Goes);
      if s1 != Goes then (r1, s1)
      else
        var (r2, s2) := if phase == "kubeconfig" && r1.forward.Some? then Fetched(r1, a.refetch, a.body2) else (r1, Goes);
        if s2 != Goes then (r2, s2) else (r2, if Marks(phase, a) then a.work else Goes)
  }

  function Marks(phase: string, a: Attempt): bool { phase != "externalname" || a.manifest }

  function Logged(r: Run, i: nat, phase: string, found: Option<nat>, outcome: Outcome, a: Attempt): Run {
    r.(log := r.log + [Event(i, phase, found, r.forward, r.running, outcome, a)])
  }

  /** The process may have ended by itself since the attempt before. */
  function Since(r: Run, a: Attempt): Run { r.(running := r.running && a.alive) }

  /** One attempt of a phase that is not done yet, with its mark and its save. */
  function TryPhase(r: Run, i: nat, phase: string, a: Attempt): (Run, Step) {
    var (r1, s1) := Body(Since(r, a), phase, a);
    if s1 != Goes then (Logged(r1, i, phase, r.forward, Failed, a), s1)
    else
      var marked := Marks(phase, a);
      var r2 := if marked then r1.(done := r1.done + {phase}) else r1;
      if a.save != Goes then (Logged(r2, i, phase, r.forward, Failed, a), a.save)
      else (Logged(r2.(disk := r2.done), i, phase, r.forward, if marked then Saved else Unmarked, a), Goes)
  }

  /** The phase loop, from the `i`-th requested phase on. */
  function Loop(r: Run, requested: seq<string>, i: nat, world: seq<Attempt>): (Run, Step)
    requires i <= |requested|
    decreases |requested| - i
  {
    if i == |requested| then (r, Goes)
    else if requested[i] in r.done then Loop(r, requested, i + 1, world)
    else
      var (r1, s1) := TryPhase(r, i, requested[i], Answer(world, i));
      if s1 != Goes then (r1, s1) else Loop(r1, requested, i + 1, world)
  }

  /** What a run leaves on disk. */
  datatype Store = Store(phases: set<string>, kubeconfig: Option<string>)

  function Begin(s: Store): Run {
    Run(s.phases, s.phases, None, false, [], s.kubeconfig, [])
  }

  /** A whole invocation: the request, what happens before the loop (the topology
      is written and loaded there), and the answers inside it. */
  datatype Invocation = Invocation(raw: Option<seq<string>>, prelude: Step, world: seq<Attempt>)

  function Execute(s: Store, inv: Invocation): (Run, Step) {
    match ParsePhases(inv.raw)
    case Err(_) => (Begin(s), Raises)
    case Ok(requested) =>
      if inv.prelude != Goes then (Begin(s), inv.prelude)
      else Loop(Begin(s), requested, 0, inv.world)
  }

  function Left(r: Run): Store { Store(r.disk, r.kubeconfig) }

  // ----- the tunnel within a run -----

  /** At most one forward was returned; while it is held, the kubeconfig on disk
      names its port; memory and disk agree on what is done. */
  ghost predicate Steady(r: Run) {
    && r.done == r.disk
    && r.ports == (match r.forward case None => [] case Some(p) => [p])
    && (r.forward.Some? ==> r.kubeconfig.Some? && PointsAt(r.kubeconfig.value, r.forward.value))
    && (r.running ==> r.forward.Some?)
  }

  /** What still holds when an attempt has ended badly. */
  ghost predicate OneForward(r: Run) {
    r.ports == match r.forward case None => [] case Some(p) => [p]
  }

  lemma {:induction false} FetchedPoints(r: Run, step: Step, body: string)
    requires r.forward.Some?
    ensures var (r1, s) := Fetched(r, step, body);
      && r1 == r.(kubeconfig := r1.kubeconfig)
      && (s == Goes ==> r1.kubeconfig.Some? && PointsAt(r1.kubeconfig.value, r.forward.value))
      && (s != Goes ==> r1 == r)
  {
    PointsAtExactly(body, r.forward.value);
  }

  /** After the tunnel is open, the kubeconfig on disk names the port of the forward
      held, the only one there was. A process is behind that port if and only if the
      forward was opened just now, or the process of the earlier one is still there. */
  lemma {:induction false} TunnelPoints(r: Run, a: Attempt)
    requires Steady(r)
    ensures var (r1, s) := OpenTunnel(r, a);
      && OneForward(r1) && r1.done == r.done && r1.disk == r.disk && r1.log == r.log
      && (r.forward.Some? ==> r1.forward == r.forward && r1.running == r.running)
      && (r1.running ==> r1.forward.Some?)
      && (r.forward == None && r1.forward.Some? ==> r1.running)
      && (s == Goes ==> r1.forward.Some? && Steady(r1) && (r1.running <==> r.forward == None || r.running))
  {
    hide Rewritten;
    hide PointsAt;
    if r.forward.Some? {
      FetchedPoints(r, a.fetch, a.body);
    } else if a.forward == Goes {
      FetchedPoints(r.(forward := Some(a.port), running := true, ports := r.ports + [a.port]), a.fetch, a.body);
    }
  }

  /** A phase body neither marks nor saves, keeps a forward that is held, and opens one
      exactly if it is of the kind that does. */
  lemma {:induction false} BodyKeeps(r: Run, phase: string, a: Attempt)
    requires Steady(r)
    ensures var (r1, s) := Body(r, phase, a);
      && OneForward(r1) && r1.done == r.done && r1.disk == r.disk && r1.log == r.log
      && (!OpensTunnel(phase) ==> r1 == r)
      && (r.forward.Some? ==> r1.forward == r.forward && r1.running == r.running)
      && (r1.running ==> r1.forward.Some?)
      && (r.forward == None && r1.forward.Some? ==> r1.running)
      && (s == Goes ==> Steady(r1) && (r1.forward.Some? <==> r.forward.Some? || OpensTunnel(phase)))
  {
    hide Fetched;
    hide PointsAt;
    if OpensTunnel(phase) {
      TunnelPoints(r, a);
      var (r1, s1) := OpenTunnel(r, a);
      if s1 == Goes { FetchedPoints(r1, a.refetch, a.body2); }
    }
  }

  /** One attempt: what is on disk only grows, and by the phase itself, exactly when
      the attempt is logged as saved. */
  lemma {:induction false} TryKeeps(r: Run, i: nat, phase: string, a: Attempt)
    requires Steady(r) && phase !in r.done
    ensures var (r1, s) := TryPhase(r, i, phase, a);
      && OneForward(r1)
      && |r1.log| == |r.log| + 1 && r1.log[..|r.log|] == r.log
      && var e := r1.log[|r.log|];
      && e.index == i && e.phase == phase && e.answers.manifest == a.manifest && e.held == r1.forward && e.running == r1.running
      && r1.disk == (if e.outcome == Saved then r.disk + {phase} else r.disk)
      && (e.outcome == Failed <==> s != Goes)
      && (s == Goes ==> Steady(r1))
      && (e.outcome == Unmarked ==> phase == "externalname" && !e.answers.manifest)
      && (s == Goes ==> (r1.forward.Some? <==> r.forward.Some? || OpensTunnel(phase)))
      && (!OpensTunnel(phase) ==> r1.forward == r.forward)
      && (r.forward.Some? ==> r1.forward == r.forward && r1.running == (r.running && a.alive))
      && (r1.running ==> r1.forward.Some?)
      && (r.forward == None && r1.forward.Some? ==> r1.running)
  {
    hide Body;
    hide PointsAt;
    hide OpensTunnel;
    assert Steady(Since(r, a));
    BodyKeeps(Since(r, a), phase, a);
  }

  // ----- what an attempt needs -----

  /** A fetched kubeconfig is of use: it came, looks like one, and has a server line. */
  ghost predicate Usable(step: Step, body: string) {
    && step == Goes
    && Contains(body, "apiVersion: v1") && Contains(body, "kind: Config")
    && exists i | 0 <= i < |SplitLines(body)| :: StartsWith(LStrip(SplitLines(body)[i]), "server:")
  }

  /** Everything an attempt comes to went, from the phase's own checks to the save. */
  ghost predicate AllWent(phase: string, found: Option<nat>, a: Attempt) {
    && a.check == Goes
    && (phase in {"k3s", "gateway_crds", "helm", "gateway_smoke", "kubeconfig"} ==>
          (found.Some? || a.forward == Goes) && Usable(a.fetch, a.body))
    && (phase == "kubeconfig" ==> Usable(a.refetch, a.body2))
    && ((phase == "externalname" && !a.manifest) || a.work == Goes)
    && a.save == Goes
  }

  ghost function Took(step: Step, body: string): Step {
    if step == Goes && !Usable(step, body) then Raises else step
  }

  /** The answers an attempt may come to before its save, in order. */
  ghost function Answers(phase: string, found: Option<nat>, a: Attempt): seq<Step> {
    [a.check]
    + (if phase in {"k3s", "gateway_crds", "helm", "gateway_smoke", "kubeconfig"}
       then (if found == None then [a.forward] else []) + [Took(a.fetch, a.body)] else [])
    + (if phase == "kubeconfig" then [Took(a.refetch, a.body2)] else [])
    + (if phase == "externalname" && !a.manifest then [] else [a.work])
  }

  /** The first answer that is a failure, if any. */
  function FirstStop(steps: seq<Step>): Step {
    if steps == [] then Goes else if steps[0] != Goes then steps[0] else FirstStop(steps[1..])
  }

  /** Everything went, and it was not `externalname` without its manifest. */
  ghost predicate Completed(e: Event) {
    AllWent(e.phase, e.found, e.answers) && (e.phase == "externalname" ==> e.answers.manifest)
  }

  /** How the attempt is logged follows from what was answered in it. */
  ghost predicate Justified(e: Event) {
    && (e.outcome == Saved <==> Completed(e))
    && (e.outcome == Failed <==> !AllWent(e.phase, e.found, e.answers))
  }

  lemma {:induction false} FetchedStep(r: Run, step: Step, body: string)
    requires r.forward.Some?
    ensures Fetched(r, step, body).1 == Took(step, body) && Fetched(r, step, body).0.forward == r.forward
    ensures Usable(step, body) <==> Took(step, body) == Goes
    ensures Usable(step, body) ==> Fetched(r, step, body).0 == r.(kubeconfig := Rewritten(body, r.forward.value))
  {
    RewriteExact(body, r.forward.value);
    assert SERVER == "server:";
    hide SplitLines, LStrip, Contains, PointsAt, RewriteLines, Unlines, Endpoint;
  }

  lemma {:induction false} StopAfter(a: seq<Step>, b: seq<Step>)
    ensures FirstStop(a + b) == if FirstStop(a) != Goes then FirstStop(a) else FirstStop(b)
    decreases |a|
  {
    if a == [] { assert a + b == b; } else { assert (a + b)[1..] == a[1..] + b; StopAfter(a[1..], b); }
  }

  lemma {:induction false} StopOfOne(s: Step)
    ensures FirstStop([s]) == s && FirstStop([]) == Goes
  {
  }

  lemma {:induction false} StopOfAnswers(phase: string, found: Option<nat>, a: Attempt)
    ensures FirstStop(Answers(phase, found, a)) ==
      var tunnel := phase in {"k3s", "gateway_crds", "helm", "gateway_smoke", "kubeconfig"};
      if a.check != Goes then a.check
      else if tunnel && found == None && a.forward != Goes then a.forward
      else if tunnel && Took(a.fetch, a.body) != Goes then Took(a.fetch, a.body)
      else if phase == "kubeconfig" && Took(a.refetch, a.body2) != Goes then Took(a.refetch, a.body2)
      else if phase == "externalname" && !a.manifest then Goes else a.work
  {
    var tunnel := phase in {"k3s", "gateway_crds", "helm", "gateway_smoke", "kubeconfig"};
    var open := if found == None then [a.forward] else [];
    var first := if tunnel then open + [Took(a.fetch, a.body)] else [];
    var second := if phase == "kubeconfig" then [Took(a.refetch, a.body2)] else [];
    var last := if phase == "externalname" && !a.manifest then [] else [a.work];
    hide FirstStop, Took;
    StopAfter([a.check] + first + second, last);
    StopAfter([a.check] + first, second);
    StopAfter([a.check], first);
    StopAfter(open, [Took(a.fetch, a.body)]);
    StopOfOne(a.check);
    StopOfOne(a.forward);
    StopOfOne(a.work);
    StopOfOne(Took(a.fetch, a.body));
    StopOfOne(Took(a.refetch, a.body2));
    assert Answers(phase, found, a) == [a.check] + first + second + last;
  }

  lemma {:induction false} BodySteps(r: Run, phase: string, a: Attempt)
    ensures Body(r, phase, a).1 == FirstStop(Answers(phase, r.forward, a))
    ensures FirstStop(Answers(phase, r.forward, a)) == Goes && a.save == Goes <==> AllWent(phase, r.forward, a)
    ensures Body(r, phase, a).1 == Goes ==>
      var r1 := Body(r, phase, a).0;
      if phase in {"k3s", "gateway_crds", "helm", "gateway_smoke", "kubeconfig"} then
        && r1.forward == Some(r.forward.GetOr(a.port))
        && r1.kubeconfig == Rewritten(if phase == "kubeconfig" then a.body2 else a.body, r1.forward.value)
      else r1 == r
  {
    hide Fetched, Usable, Rewritten;
    var open := if r.forward == None then r.(forward := Some(a.port), running := true, ports := r.ports + [a.port]) else r;
    FetchedStep(open, a.fetch, a.body);
    FetchedStep(Fetched(open, a.fetch, a.body).0, a.refetch, a.body2);
    StopOfAnswers(phase, r.forward, a);
  }

  /** How an attempt ends: with the first answer that is a failure, the save's last. It
      is logged as what the answers make of it, and only one that went through changes
      what is on disk. */
  lemma {:induction false} TryEnds(r: Run, i: nat, phase: string, a: Attempt)
    requires Steady(r) && phase !in r.done
    ensures var (r1, s) := TryPhase(r, i, phase, a);
      && s == FirstStop(Answers(phase, r.forward, a) + [a.save])
      && (s == Goes <==> AllWent(phase, r.forward, a))
      && |r1.log| == |r.log| + 1
      && var e := r1.log[|r.log|];
      && Justified(e) && e.index == i && e.phase == phase && e.found == r.forward && e.answers == a
      && r1.disk == (if Completed(e) then r.disk + {phase} else r.disk)
  {
    hide Body, Answers, AllWent, PointsAt, FirstStop, Rewritten, OneForward, OpensTunnel;
    BodySteps(Since(r, a), phase, a);
    BodyKeeps(Since(r, a), phase, a);
    StopAfter(Answers(phase, r.forward, a), [a.save]);
    StopOfOne(a.save);
  }

  /** What an attempt that went through leaves: after a phase that uses the tunnel, the
      forward it found or else the one it was given, and the kubeconfig fetched last,
      rewritten for it; after any other, what was there. */
  lemma {:induction false} TryLeaves(r: Run, i: nat, phase: string, a: Attempt)
    requires TryPhase(r, i, phase, a).1 == Goes
    ensures var r1 := TryPhase(r, i, phase, a).0;
      if phase in {"k3s", "gateway_crds", "helm", "gateway_smoke", "kubeconfig"} then
        && r1.forward == Some(r.forward.GetOr(a.port))
        && r1.kubeconfig == Rewritten(if phase == "kubeconfig" then a.body2 else a.body, r1.forward.value)
      else r1.forward == r.forward && r1.kubeconfig == r.kubeconfig
  {
    hide Body, Answers, AllWent, FirstStop, Rewritten;
    BodySteps(Since(r, a), phase, a);
  }

  // ----- the loop -----

  /** The whole loop at once: the facts every exit has, and those a normal one adds. */
  lemma {:induction false} LoopKeeps(r: Run, requested: seq<string>, i: nat, world: seq<Attempt>)
    requires Steady(r) && i <= |requested|
    ensures var (r1, s) := Loop(r, requested, i, world);
      && OneForward(r1) && r.disk <= r1.disk
      && |r.log| <= |r1.log| && r1.log[..|r.log|] == r.log
      && (s == Goes ==> Steady(r1))
    decreases |requested| - i
  {
    hide PointsAt;
    hide TryPhase;
    if i < |requested| {
      if requested[i] in r.done {
        LoopKeeps(r, requested, i + 1, world);
      } else {
        var (r1, s1) := TryPhase(r, i, requested[i], Answer(world, i));
        TryKeeps(r, i, requested[i], Answer(world, i));
        if s1 == Goes {
          LoopKeeps(r1, requested, i + 1, world);
          var last := Loop(r1, requested, i + 1, world).0;
          assert last.log[..|r.log|] == last.log[..|r1.log|][..|r.log|];
        }
      }
    }
  }

  /** The phase is to run again: the attempt failed, or it was `externalname` without a
      manifest. An attempt that dies before its save counts as failed. */
  predicate LeavesOpen(e: Event) {
    e.outcome == Failed || (e.outcome == Unmarked && e.phase == "externalname" && !e.answers.manifest)
  }

  /** Only phases whose attempt is logged as saved are added to the disk, and only
      phases that were not on disk are attempted. */
  lemma {:induction false} LoopLog(r: Run, requested: seq<string>, i: nat, world: seq<Attempt>)
    requires Steady(r) && i <= |requested|
    ensures var r1 := Loop(r, requested, i, world).0;
      && |r.log| <= |r1.log|
      && (forall p | p in r1.disk - r.disk :: exists k | |r.log| <= k < |r1.log| :: r1.log[k].phase == p && r1.log[k].outcome == Saved)
      && (forall k | |r.log| <= k < |r1.log| ::
            && r1.log[k].phase !in r.disk
            && (if r1.log[k].outcome == Saved then r1.log[k].phase in r1.disk else LeavesOpen(r1.log[k]))
            && forall j | |r.log| <= j < k && r1.log[j].phase == r1.log[k].phase :: LeavesOpen(r1.log[j]))
    decreases |requested| - i
  {
    hide PointsAt;
    hide TryPhase;
    LoopKeeps(r, requested, i, world);
    if i < |requested| {
      if requested[i] in r.done {
        LoopLog(r, requested, i + 1, world);
      } else {
        var (r1, s1) := TryPhase(r, i, requested[i], Answer(world, i));
        TryKeeps(r, i, requested[i], Answer(world, i));
        if s1 == Goes {
          LoopKeeps(r1, requested, i + 1, world);
          LoopLog(r1, requested, i + 1, world);
          var last := Loop(r1, requested, i + 1, world).0;
          assert last.log[|r.log|] == last.log[..|r1.log|][|r.log|];
          forall p | p in last.disk - r.disk
            ensures exists k | |r.log| <= k < |last.log| :: last.log[k].phase == p && last.log[k].outcome == Saved
          {
            if p in r1.disk {
              var k := |r.log|;
              assert last.log[k] == r1.log[k] && last.log[k].phase == p && last.log[k].outcome == Saved;
            } else {
              assert p in last.disk - r1.disk;
              var k :| |r1.log| <= k < |last.log| && last.log[k].phase == p && last.log[k].outcome == Saved;
              assert |r.log| <= k;
            }
          }
        }
      }
    }
  }

  /** An attempt of the phase requested at its index, with what the world answered there. */
  ghost predicate Attempted(e: Event, requested: seq<string>, world: seq<Attempt>) {
    e.index < |requested| && e.phase == requested[e.index] && e.answers == Answer(world, e.index) && Justified(e)
  }

  /** The `k`-th attempt came after the one before it, which did not fail, and found the
      forward that one held; the first, at `n`, found `forward`. */
  ghost predicate Follows(log: seq<Event>, n: nat, forward: Option<nat>, k: nat)
    requires n <= k < |log|
  {
    if k == n then log[k].found == forward
    else log[k].found == log[k - 1].held && log[k - 1].index < log[k].index && log[k - 1].outcome != Failed
  }

  lemma {:induction false} FollowOn(log: seq<Event>, m: nat, n: nat, held: Option<nat>, forward: Option<nat>)
    requires n == m + 1 <= |log| && log[m].held == held && log[m].found == forward
    requires log[m].outcome != Failed && (n < |log| ==> log[m].index < log[n].index)
    requires forall k | n <= k < |log| :: Follows(log, n, held, k)
    ensures forall k | m <= k < |log| :: Follows(log, m, forward, k)
  {
    forall k | m <= k < |log| ensures Follows(log, m, forward, k) {
      if k >= n { assert Follows(log, n, held, k); }
    }
  }

  /** The attempts of a loop come in the order of the request, and each finds the forward
      that the one before held. Only the last can have failed, and the loop is cut
      short exactly by one that did. */
  lemma {:induction false} LoopAttempts(r: Run, requested: seq<string>, i: nat, world: seq<Attempt>)
    requires Steady(r) && i <= |requested|
    ensures var (r1, s) := Loop(r, requested, i, world);
      && |r.log| <= |r1.log|
      && (forall k | |r.log| <= k < |r1.log| :: Attempted(r1.log[k], requested, world) && i <= r1.log[k].index)
      && (forall k | |r.log| <= k < |r1.log| :: Follows(r1.log, |r.log|, r.forward, k))
      && (s != Goes <==> |r.log| < |r1.log| && r1.log[|r1.log| - 1].outcome == Failed)
    decreases |requested| - i
  {
    hide PointsAt, TryPhase, Justified, AllWent, Answers, FirstStop, Rewritten, Steady, OneForward, OpensTunnel;
    if i < |requested| {
      if requested[i] in r.done {
        LoopAttempts(r, requested, i + 1, world);
      } else {
        var (r1, s1) := TryPhase(r, i, requested[i], Answer(world, i));
        TryKeeps(r, i, requested[i], Answer(world, i));
        TryEnds(r, i, requested[i], Answer(world, i));
        if s1 == Goes {
          LoopAttempts(r1, requested, i + 1, world);
          LoopKeeps(r1, requested, i + 1, world);
          var last := Loop(r1, requested, i + 1, world).0;
          assert last.log[|r.log|] == last.log[..|r1.log|][|r.log|];
          FollowOn(last.log, |r.log|, |r1.log|, r1.forward, r.forward);
        }
      }
    }
  }

  /** Every requested phase, up to the attempt that cut the loop short if one did, is on
      disk in the end, but for an `externalname` whose manifest was missing. */
  lemma {:induction false} LoopFinishes(r: Run, requested: seq<string>, i: nat, world: seq<Attempt>, k: nat)
    requires Steady(r) && i <= k < |requested|
    requires var (r1, s) := Loop(r, requested, i, world);
      s == Goes || (r1.log != [] && k < r1.log[|r1.log| - 1].index)
    ensures requested[k] in Loop(r, requested, i, world).0.disk ||
      (requested[k] == "externalname" && exists j | i <= j < |requested| :: requested[j] == "externalname" && !Answer(world, j).manifest)
    decreases |requested| - i
  {
    hide PointsAt, TryPhase, OpensTunnel;
    if requested[i] in r.done {
      LoopKeeps(r, requested, i + 1, world);
      if i < k { LoopFinishes(r, requested, i + 1, world, k); }
    } else {
      var (r1, s1) := TryPhase(r, i, requested[i], Answer(world, i));
      TryKeeps(r, i, requested[i], Answer(world, i));
      if s1 == Goes {
        LoopKeeps(r1, requested, i + 1, world);
        if i < k { LoopFinishes(r1, requested, i + 1, world, k); }
      }
    }
  }

  // ----- the tunnel at each attempt -----

  /** At a phase that opens no tunnel itself, a forward is held exactly when an earlier
      phase of the same run opened it: one that opens tunnels, was requested before,
      and was not done when the run began. */
  lemma {:induction false} LoopTunnel(r: Run, requested: seq<string>, i: nat, world: seq<Attempt>, k: nat)
    requires Steady(r) && i <= |requested|
    requires |r.log| <= k < |Loop(r, requested, i, world).0.log|
    requires !OpensTunnel(Loop(r, requested, i, world).0.log[k].phase)
    ensures var e := Loop(r, requested, i, world).0.log[k];
      && i <= e.index < |requested| && requested[e.index] == e.phase
      && (e.held.Some? <==> r.forward.Some? || exists j | i <= j < e.index :: OpensTunnel(requested[j]) && requested[j] !in r.disk)
    decreases |requested| - i
  {
    hide PointsAt;
    hide TryPhase;
    hide OpensTunnel;
    var last := Loop(r, requested, i, world).0;
    assert i < |requested|;
    if requested[i] in r.done {
      LoopTunnel(r, requested, i + 1, world, k);
    } else {
      var (r1, s1) := TryPhase(r, i, requested[i], Answer(world, i));
      TryKeeps(r, i, requested[i], Answer(world, i));
      if s1 == Goes {
        LoopKeeps(r1, requested, i + 1, world);
        assert last.log[|r.log|] == last.log[..|r1.log|][|r.log|];
        if k > |r.log| {
          LoopTunnel(r1, requested, i + 1, world, k);
          var e := last.log[k];
          if j :| i + 1 <= j < e.index && OpensTunnel(requested[j]) && requested[j] !in r1.disk {
            assert requested[j] !in r.disk;
          }
          if j :| i <= j < e.index && OpensTunnel(requested[j]) && requested[j] !in r.disk {
            assert OpensTunnel(requested[i]) || j > i;
            assert r1.disk <= r.disk + {requested[i]};
          }
        }
      }
    }
  }

  // ----- the process behind the tunnel -----

  /** The `k`-th attempt opened the forward, or took over that of the one before
      together with its process, if that was still there. */
  ghost predicate ChainedAt(log: seq<Event>, world: seq<Attempt>, k: nat)
    requires k < |log|
  {
    && (log[k].running ==> log[k].held.Some?)
    && if k > 0 && log[k - 1].held.Some?
       then log[k].held == log[k - 1].held && log[k].running == (log[k - 1].running && Answer(world, log[k].index).alive)
       else log[k].held.Some? ==> log[k].running
  }

  ghost predicate Chained(r: Run, world: seq<Attempt>) {
    && (forall k: nat | k < |r.log| :: ChainedAt(r.log, world, k))
    && (if r.log == [] then r.forward == None && !r.running
        else r.log[|r.log| - 1].held == r.forward && r.log[|r.log| - 1].running == r.running)
  }

  lemma {:induction false} TryChains(r: Run, i: nat, phase: string, world: seq<Attempt>)
    requires Steady(r) && phase !in r.done && Chained(r, world)
    ensures Chained(TryPhase(r, i, phase, Answer(world, i)).0, world)
  {
    hide TryPhase, PointsAt, Answer, OpensTunnel;
    var r1 := TryPhase(r, i, phase, Answer(world, i)).0;
    TryKeeps(r, i, phase, Answer(world, i));
    var n := |r.log|;
    hide Steady;
    forall k: nat | k < |r1.log| ensures ChainedAt(r1.log, world, k) {
      if k < n {
        assert ChainedAt(r.log, world, k);
        assert r1.log[k] == r1.log[..n][k] && (k > 0 ==> r1.log[k - 1] == r1.log[..n][k - 1]);
      } else if n > 0 {
        assert r1.log[n - 1] == r1.log[..n][n - 1];
        assert ChainedAt(r.log, world, n - 1);
      }
    }
  }

  lemma {:induction false} LoopChains(r: Run, requested: seq<string>, i: nat, world: seq<Attempt>)
    requires Steady(r) && i <= |requested| && Chained(r, world)
    ensures Chained(Loop(r, requested, i, world).0, world)
    decreases |requested| - i
  {
    hide TryPhase, PointsAt, Chained;
    if i < |requested| {
      if requested[i] in r.done {
        LoopChains(r, requested, i + 1, world);
      } else {
        var (r1, s1) := TryPhase(r, i, requested[i], Answer(world, i));
        TryKeeps(r, i, requested[i], Answer(world, i));
        TryChains(r, i, requested[i], world);
        if s1 == Goes { LoopChains(r1, requested, i + 1, world); }
      }
    }
  }

  /** A forward that is held was opened by some attempt, and its process is there if
      and only if it has been at every attempt since. */
  lemma {:induction false} ProcessSince(log: seq<Event>, world: seq<Attempt>, k: nat) returns (j: nat)
    requires k < |log| && log[k].held.Some? && forall m: nat | m < |log| :: ChainedAt(log, world, m)
    ensures j <= k && (j == 0 || log[j - 1].held == None)
    ensures forall m | j <= m <= k :: log[m].held == log[k].held
    ensures log[k].running <==> forall m | j < m <= k :: Answer(world, log[m].index).alive
    decreases k
  {
    assert ChainedAt(log, world, k);
    if k > 0 && log[k - 1].held.Some? {
      j := ProcessSince(log, world, k - 1);
    } else {
      j := k;
    }
  }
}
