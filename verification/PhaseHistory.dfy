/** Whole histories of bootstrap runs: successes, failures and deaths in any order. */
module PhaseHistory {
  import opened Text
  import opened Kubeconfig
  import opened PhaseRun

  /** The store after a history of runs, and the log of all their attempts. */
  function Play(s: Store, runs: seq<Invocation>): (Store, seq<Event>)
    decreases |runs|
  {
    if runs == [] then (s, [])
    else
      var r := Execute(s, runs[0]).0;
      var (last, log) := Play(Left(r), runs[1..]);
      (last, r.log + log)
  }

  // ----- resuming -----

  /** One run, whatever is requested and however it ends. */
  lemma {:induction false} RunResumes(s: Store, inv: Invocation)
    ensures var (r, e) := Execute(s, inv);
      && s.phases <= r.disk
      && (forall p | p in r.disk - s.phases :: exists k | 0 <= k < |r.log| :: r.log[k].phase == p && r.log[k].outcome == Saved)
      && (forall k | 0 <= k < |r.log| ::
            && r.log[k].phase !in s.phases
            && (if r.log[k].outcome == Saved then r.log[k].phase in r.disk else LeavesOpen(r.log[k]))
            && forall j | 0 <= j < k && r.log[j].phase == r.log[k].phase :: LeavesOpen(r.log[j]))
  {
    hide Steady;
    hide Loop;
    hide ParsePhases;
    BeginSteady(s);
    if ParsePhases(inv.raw).Ok? && inv.prelude == Goes {
      LoopKeeps(Begin(s), ParsePhases(inv.raw).value, 0, inv.world);
      LoopLog(Begin(s), ParsePhases(inv.raw).value, 0, inv.world);
    }
  }

  lemma {:induction false} BeginSteady(s: Store)
    ensures Steady(Begin(s))
  {
  }

  /** The event is an attempt of that run: the phase was requested there, and the answers
      are those of the world at that place. */
  ghost predicate Happened(e: Event, inv: Invocation) {
    ParsePhases(inv.raw).Ok? && Attempted(e, ParsePhases(inv.raw).value, inv.world)
  }

  /** One run: its attempts come in the order of the request, each finds the forward the
      one before held, the first none, and the run goes on exactly until one fails. A
      request that is refused and a failure before the loop leave everything. */
  lemma {:induction false} RunAttempts(s: Store, inv: Invocation)
    ensures var (r, e) := Execute(s, inv);
      && (forall k | 0 <= k < |r.log| :: Happened(r.log[k], inv) && Follows(r.log, 0, None, k))
      && (r.log != [] ==> (e != Goes <==> r.log[|r.log| - 1].outcome == Failed))
      && (ParsePhases(inv.raw).Err? ==> r == Begin(s) && e == Raises)
      && (ParsePhases(inv.raw).Ok? && inv.prelude != Goes ==> r == Begin(s) && e == inv.prelude)
  {
    hide Loop, ParsePhases, Steady, Attempted, Follows;
    BeginSteady(s);
    if ParsePhases(inv.raw).Ok? && inv.prelude == Goes {
      LoopAttempts(Begin(s), ParsePhases(inv.raw).value, 0, inv.world);
    }
  }

  /** How an attempt of a history is logged follows from the answers of its run. */
  lemma {:induction false} HistoryHappened(s: Store, runs: seq<Invocation>, k: nat) returns (n: nat)
    requires k < |Play(s, runs).1|
    ensures n < |runs| && Happened(Play(s, runs).1[k], runs[n]) && Justified(Play(s, runs).1[k])
    decreases |runs|
  {
    hide Execute, Justified, ParsePhases;
    var r := Execute(s, runs[0]).0;
    RunAttempts(s, runs[0]);
    if k < |r.log| {
      n := 0;
    } else {
      n := HistoryHappened(Left(r), runs[1..], k - |r.log|);
      n := n + 1;
    }
  }

  /** Resuming over all histories: persisted are the phases that were, and exactly those
      that had an attempt in which everything went, the save included; no phase that is
      persisted is attempted again, and a phase is attempted again only if in each earlier
      attempt something failed or it was `externalname` without a manifest. */
  lemma {:induction false} HistoryResumes(s: Store, runs: seq<Invocation>)
    ensures var (last, log) := Play(s, runs);
      && (forall p :: p in last.phases <==> p in s.phases || exists k | 0 <= k < |log| :: log[k].phase == p && Completed(log[k]))
      && (forall k | 0 <= k < |log| ::
            log[k].phase !in s.phases && forall j | 0 <= j < k && log[j].phase == log[k].phase :: !Completed(log[j]))
  {
    hide Play, AllWent, Completed;
    HistoryLog(s, runs);
    var (last, log) := Play(s, runs);
    forall k | 0 <= k < |log| ensures log[k].outcome == Saved <==> Completed(log[k]) {
      var n := HistoryHappened(s, runs, k);
    }
    forall p | p in last.phases && p !in s.phases ensures exists k | 0 <= k < |log| :: log[k].phase == p && Completed(log[k]) {
      assert p in last.phases - s.phases;
    }
  }

  /** The same in terms of the log's own word for how an attempt ended. */
  lemma {:induction false} HistoryLog(s: Store, runs: seq<Invocation>)
    ensures var (last, log) := Play(s, runs);
      && s.phases <= last.phases
      && (forall p | p in last.phases - s.phases :: exists k | 0 <= k < |log| :: log[k].phase == p && log[k].outcome == Saved)
      && (forall k | 0 <= k < |log| ::
            && log[k].phase !in s.phases
            && (if log[k].outcome == Saved then log[k].phase in last.phases else LeavesOpen(log[k]))
            && forall j | 0 <= j < k && log[j].phase == log[k].phase :: LeavesOpen(log[j]))
    decreases |runs|
  {
    hide Execute;
    if runs != [] {
      var r := Execute(s, runs[0]).0;
      var (last, tail) := Play(Left(r), runs[1..]);
      var log := r.log + tail;
      RunResumes(s, runs[0]);
      HistoryLog(Left(r), runs[1..]);
      forall p | p in last.phases - s.phases ensures exists k | 0 <= k < |log| :: log[k].phase == p && log[k].outcome == Saved {
        if p in r.disk {
          assert p in r.disk - s.phases;
          var k :| 0 <= k < |r.log| && r.log[k].phase == p && r.log[k].outcome == Saved;
          assert log[k] == r.log[k];
        } else {
          assert p in last.phases - r.disk;
          var k :| 0 <= k < |tail| && tail[k].phase == p && tail[k].outcome == Saved;
          assert log[|r.log| + k] == tail[k];
        }
      }
      forall k | 0 <= k < |log|
        ensures log[k].phase !in s.phases
        ensures if log[k].outcome == Saved then log[k].phase in last.phases else LeavesOpen(log[k])
        ensures forall j | 0 <= j < k && log[j].phase == log[k].phase :: LeavesOpen(log[j])
      {
        if k >= |r.log| {
          assert log[k] == tail[k - |r.log|];
          forall j | 0 <= j < k && log[j].phase == log[k].phase ensures LeavesOpen(log[j]) {
            if j >= |r.log| { assert log[j] == tail[j - |r.log|]; } else { assert log[j] == r.log[j]; }
          }
        } else {
          assert log[k] == r.log[k];
        }
      }
    }
  }

  /** A run that returns normally leaves every requested phase persisted, but for an
      `externalname` that met no manifest; so does one that is cut short, for the
      phases requested before the one it failed in. */
  lemma {:induction false} ReturnMeansDone(s: Store, inv: Invocation)
    ensures Execute(s, inv).1 == Goes ==> ParsePhases(inv.raw).Ok?
    ensures ParsePhases(inv.raw).Ok? ==>
      var (r, e) := Execute(s, inv);
      var requested := ParsePhases(inv.raw).value;
      forall k | 0 <= k < |requested| && (e == Goes || (r.log != [] && k < r.log[|r.log| - 1].index)) ::
        requested[k] in r.disk ||
        (requested[k] == "externalname" && exists j | 0 <= j < |requested| ::
           requested[j] == "externalname" && !Answer(inv.world, j).manifest)
  {
    hide ParsePhases, Loop, Steady;
    BeginSteady(s);
    if ParsePhases(inv.raw).Ok? && inv.prelude == Goes {
      var requested := ParsePhases(inv.raw).value;
      var (r, e) := Loop(Begin(s), requested, 0, inv.world);
      forall k | 0 <= k < |requested| && (e == Goes || (r.log != [] && k < r.log[|r.log| - 1].index))
        ensures requested[k] in r.disk ||
          (requested[k] == "externalname" && exists j | 0 <= j < |requested| ::
             requested[j] == "externalname" && !Answer(inv.world, j).manifest)
      {
        LoopFinishes(Begin(s), requested, 0, inv.world, k);
      }
    }
  }

  /** When `externalname` runs, a forward is held exactly when an earlier requested
      phase of the same run, not yet persisted, opened it. */
  lemma {:induction false} ExternalnameTunnel(s: Store, inv: Invocation, k: nat)
    requires ParsePhases(inv.raw).Ok? && k < |Execute(s, inv).0.log|
    requires Execute(s, inv).0.log[k].phase == "externalname"
    ensures var e, requested := Execute(s, inv).0.log[k], ParsePhases(inv.raw).value;
      && e.index < |requested|
      && (e.held.Some? <==> exists j | 0 <= j < e.index ::
            requested[j] in {"k3s", "gateway_crds", "helm", "gateway_smoke", "kubeconfig"} && requested[j] !in s.phases)
  {
    hide ParsePhases;
    hide Loop;
    hide Steady;
    BeginSteady(s);
    LoopTunnel(Begin(s), ParsePhases(inv.raw).value, 0, inv.world, k);
  }

  /** Whether a process is behind a forward that is held: it was opened by the `j`-th
      attempt of the run and has been reused since, and the process is there if and
      only if it was at every attempt after that one. */
  lemma {:induction false} TunnelProcess(s: Store, inv: Invocation, k: nat) returns (j: nat)
    requires k < |Execute(s, inv).0.log| && Execute(s, inv).0.log[k].held.Some?
    ensures var log := Execute(s, inv).0.log;
      && j <= k && (j == 0 || log[j - 1].held == None)
      && (forall m | j <= m <= k :: log[m].held == log[k].held)
      && (log[k].running <==> forall m | j < m <= k :: Answer(inv.world, log[m].index).alive)
  {
    hide ParsePhases;
    hide Loop;
    hide Steady;
    BeginSteady(s);
    var requested := ParsePhases(inv.raw).value;
    LoopChains(Begin(s), requested, 0, inv.world);
    hide Execute;
    j := ProcessSince(Execute(s, inv).0.log, inv.world, k);
  }

  /** A retry in which only `externalname` is left has no tunnel: for the default
      request over a store with all other phases, there is one attempt, and no
      forward. */
  lemma {:induction false} RetryHasNoTunnel(kubeconfig: Option<string>)
    ensures var log := Execute(Store(Prefix(9), kubeconfig), Invocation(None, Goes, [])).0.log;
      |log| == 1 && log[0].phase == "externalname" && log[0].held == None
  {
    var begin := Begin(Store(Prefix(9), kubeconfig));
    forall i: nat | i < 10 ensures PHASES[i] in begin.done <==> i < 9 { InPrefix(i, 9); }
    BeginSteady(Store(Prefix(9), kubeconfig));
    assert PHASES[9] == "externalname" && |PHASES| == 10;
    TryKeeps(begin, 9, "externalname", Answer([], 9));
    assert !OpensTunnel("externalname");
    hide PHASES, Prefix, TryPhase, Steady, Answer, OpensTunnel;
    SkipDone(begin, 0, 9, []);
  }

  /** Requested phases that are done are passed over. */
  lemma {:induction false} SkipDone(r: Run, i: nat, k: nat, world: seq<Attempt>)
    requires i <= k <= |PHASES| && forall j | i <= j < k :: PHASES[j] in r.done
    ensures Loop(r, PHASES, i, world) == Loop(r, PHASES, k, world)
    decreases k - i
  {
    hide PHASES;
    if i < k { SkipDone(r, i + 1, k, world); }
  }

  // ----- prefixes -----

  function Prefix(k: nat): set<string>
    requires k <= |PHASES|
  {
    set p | p in PHASES[..k]
  }

  ghost predicate IsPrefix(d: set<string>) {
    exists k | 0 <= k <= |PHASES| :: d == Prefix(k)
  }

  lemma {:induction false} PhasesDistinct(i: nat, j: nat)
    requires i < |PHASES| && j < |PHASES| && PHASES[i] == PHASES[j]
    ensures i == j
  {
    assert |PHASES[0]| == 9 && |PHASES[1]| == 11 && |PHASES[2]| == 3 && |PHASES[3]| == 12 && |PHASES[4]| == 4;
    assert |PHASES[5]| == 13 && |PHASES[6]| == 10 && |PHASES[7]| == 9 && |PHASES[8]| == 10 && |PHASES[9]| == 12;
    assert PHASES[0][1] == 'l' && PHASES[7][1] == 's' && PHASES[3][0] == 'g' && PHASES[9][0] == 'e';
    assert PHASES[6][0] == 'k' && PHASES[8][0] == 'h';
  }

  lemma {:induction false} InPrefix(i: nat, k: nat)
    requires i < |PHASES| && k <= |PHASES|
    ensures PHASES[i] in Prefix(k) <==> i < k
  {
    hide PHASES;
    if PHASES[i] in Prefix(k) {
      var j :| 0 <= j < k && PHASES[..k][j] == PHASES[i];
      PhasesDistinct(i, j);
    }
    assert i < k ==> PHASES[..k][i] == PHASES[i];
  }

  lemma {:induction false} NextPrefix(k: nat)
    requires k < |PHASES|
    ensures Prefix(k) + {PHASES[k]} == Prefix(k + 1)
  {
    hide PHASES;
    assert PHASES[..k + 1] == PHASES[..k] + [PHASES[k]];
  }

  /** In a prefix, a phase never stands without those before it. */
  lemma {:induction false} PrefixOrder(d: set<string>, i: nat, j: nat)
    requires IsPrefix(d) && i < j < |PHASES| && PHASES[j] in d
    ensures PHASES[i] in d
  {
    hide PHASES;
    var k :| 0 <= k <= |PHASES| && d == Prefix(k);
    InPrefix(j, k);
    InPrefix(i, k);
  }

  function IndexOf(phase: string, i: nat): (r: nat)
    requires i <= |PHASES| && phase in PHASES[i..]
    ensures i <= r < |PHASES| && PHASES[r] == phase
    decreases |PHASES| - i
  {
    if PHASES[i] == phase then i else IndexOf(phase, i + 1)
  }

  /** No request skips ahead of what is done, from a prefix of length `k` on. */
  predicate NoSkip(k: nat, requested: seq<string>)
    requires forall p | p in requested :: p in PHASES
    decreases |requested|
  {
    requested == [] ||
    (assert requested[0] in requested && PHASES[0..] == PHASES;
     var j := IndexOf(requested[0], 0);
     j <= k && NoSkip(if j == k then k + 1 else k, requested[1..]))
  }

  lemma {:induction false} IndexOfPhase(i: nat)
    requires i < |PHASES|
    ensures PHASES[0..] == PHASES && PHASES[i] in PHASES && IndexOf(PHASES[i], 0) == i
  {
    hide PHASES;
    hide IndexOf;
    assert PHASES[0..] == PHASES;
    PhasesDistinct(IndexOf(PHASES[i], 0), i);
  }

  /** More being done never turns a request into a skip. */
  lemma {:induction false} NoSkipMore(k: nat, requested: seq<string>)
    requires forall p | p in requested :: p in PHASES
    requires NoSkip(k, requested)
    ensures NoSkip(k + 1, requested)
    decreases |requested|
  {
    hide PHASES;
    hide IndexOf;
    if requested != [] {
      assert requested[0] in requested && PHASES[0..] == PHASES;
      var j := IndexOf(requested[0], 0);
      NoSkipMore(if j == k then k + 1 else k, requested[1..]);
    }
  }

  /** An initial part of the default list skips nothing, whatever is done. */
  lemma {:induction false} InitialPartNoSkip(k: nat, i: nat, n: nat)
    requires i <= k && i <= n <= |PHASES|
    ensures forall p | p in PHASES[i..n] :: p in PHASES
    ensures NoSkip(k, PHASES[i..n])
    decreases n - i
  {
    hide PHASES;
    if i < n {
      var rest := PHASES[i..n];
      assert rest[0] == PHASES[i] && rest[1..] == PHASES[i + 1..n];
      IndexOfPhase(i);
      InitialPartNoSkip(if i == k then k + 1 else k, i + 1, n);
    }
  }

  lemma {:induction false} LastPhase(j: nat)
    requires j < |PHASES| && PHASES[j] == "externalname"
    ensures j == |PHASES| - 1
  {
    PhasesDistinct(j, 9);
  }

  /** Once all phases but the last are done, no request can skip. */
  lemma {:induction false} NoSkipAtEnd(k: nat, requested: seq<string>)
    requires (forall p | p in requested :: p in PHASES) && k >= |PHASES| - 1
    ensures NoSkip(k, requested)
    decreases |requested|
  {
    hide PHASES;
    if requested != [] {
      assert requested[0] in requested;
      var j := IndexOfOf(requested[0]);
      NoSkipAtEnd(if j == k then k + 1 else k, requested[1..]);
    }
  }

  /** A loop over requests that skip nothing keeps the disk a prefix, at every exit. */
  lemma {:induction false} LoopKeepsPrefix(r: Run, requested: seq<string>, i: nat, world: seq<Attempt>, k: nat)
    requires forall p | p in requested :: p in PHASES
    requires Steady(r) && i <= |requested| && k <= |PHASES| && r.disk == Prefix(k)
    requires NoSkip(k, requested[i..])
    ensures IsPrefix(Loop(r, requested, i, world).0.disk)
    decreases |requested| - i
  {
    hide PHASES;
    hide IndexOf;
    hide TryPhase;
    hide Prefix;
    if i < |requested| {
      var phase := requested[i];
      assert requested[i..][0] == phase && requested[i..][1..] == requested[i + 1..];
      assert phase in requested && PHASES[0..] == PHASES;
      var j := IndexOfOf(phase);
      InPrefix(j, k);
      if j < k {
        LoopKeepsPrefix(r, requested, i + 1, world, k);
      } else {
        var (r1, s1) := TryPhase(r, i, phase, Answer(world, i));
        TryKeeps(r, i, phase, Answer(world, i));
        NextPrefix(k);
        if s1 == Goes {
          if r1.disk == r.disk {
            LastPhase(j);
            NoSkipAtEnd(k, requested[i + 1..]);
            LoopKeepsPrefix(r1, requested, i + 1, world, k);
          } else {
            LoopKeepsPrefix(r1, requested, i + 1, world, k + 1);
          }
        }
      }
    }
  }

  lemma {:induction false} IndexOfOf(phase: string) returns (j: nat)
    requires phase in PHASES
    ensures PHASES[0..] == PHASES && j < |PHASES| && PHASES[j] == phase && IndexOf(phase, 0) == j
  {
    hide PHASES;
    hide IndexOf;
    assert PHASES[0..] == PHASES;
    j := IndexOf(phase, 0);
  }

  /** Prefix safety of one run over requests that skip nothing. */
  lemma {:induction false} RunKeepsPrefix(s: Store, inv: Invocation, k: nat)
    requires k <= |PHASES| && s.phases == Prefix(k)
    requires ParsePhases(inv.raw).Ok? ==> NoSkip(k, ParsePhases(inv.raw).value)
    ensures IsPrefix(Execute(s, inv).0.disk)
  {
    hide ParsePhases;
    hide Loop;
    hide Prefix;
    if ParsePhases(inv.raw).Ok? && inv.prelude == Goes {
      var requested := ParsePhases(inv.raw).value;
      assert requested[0..] == requested;
      LoopKeepsPrefix(Begin(s), requested, 0, inv.world, k);
    }
  }

  /** The default list or an initial part of it, or a request that is refused. */
  ghost predicate InitialRequest(inv: Invocation) {
    ParsePhases(inv.raw).Ok? ==> exists n | 0 <= n <= |PHASES| :: ParsePhases(inv.raw).value == PHASES[..n]
  }

  /** Prefix safety over all histories: however the runs end, what is persisted is
      always an initial part of the phase list. */
  lemma {:induction false} HistoryKeepsPrefix(s: Store, runs: seq<Invocation>)
    requires IsPrefix(s.phases)
    requires forall i | 0 <= i < |runs| :: InitialRequest(runs[i])
    ensures IsPrefix(Play(s, runs).0.phases)
    decreases |runs|
  {
    hide PHASES;
    hide Execute;
    hide Prefix;
    hide ParsePhases;
    if runs != [] {
      var inv := runs[0];
      assert InitialRequest(inv);
      var k :| 0 <= k <= |PHASES| && s.phases == Prefix(k);
      if ParsePhases(inv.raw).Ok? {
        var n :| 0 <= n <= |PHASES| && ParsePhases(inv.raw).value == PHASES[..n];
        assert PHASES[0..n] == PHASES[..n];
        InitialPartNoSkip(k, 0, n);
      }
      RunKeepsPrefix(s, inv, k);
      HistoryKeepsPrefix(Left(Execute(s, inv).0), runs[1..]);
    }
  }

  /** In every reachable state each phase stands on those before it: the persisted set is
      an initial part of this list of ten, so no phase is there without all earlier ones. */
  lemma {:induction false} OrderInEveryState(s: Store, runs: seq<Invocation>, i: nat, j: nat)
    requires IsPrefix(s.phases)
    requires forall k | 0 <= k < |runs| :: InitialRequest(runs[k])
    ensures var d := Play(s, runs).0.phases;
      var list := ["cloudinit", "install_k3s", "k3s", "gateway_crds", "helm", "gateway_smoke", "kubeconfig", "csi_smoke",
                   "host_ports", "externalname"];
      (i < j < 10 && list[j] in d ==> list[i] in d) && forall p | p in d :: p in list
  {
    HistoryKeepsPrefix(s, runs);
    var d := Play(s, runs).0.phases;
    if i < j < 10 && PHASES[j] in d { PrefixOrder(d, i, j); }
  }

  // ----- requests that do skip -----

  /** Everything goes well up to the `b`-th request, and nothing after it. */
  function Until(b: nat, n: nat): seq<Attempt> {
    seq(n, i requires 0 <= i < n => if i <= b then SMOOTH else SMOOTH.(check := Raises))
  }

  lemma {:induction false} ContainsAt(s: string, i: nat, part: string)
    requires i + |part| <= |s| && s[i..i + |part|] == part
    ensures Contains(s, part)
  {
    assert s[i..][..|part|] == part;
  }

  lemma {:induction false} SmoothLooksRight()
    ensures LooksLikeKubeconfig(SMOOTH_BODY)
  {
    hide Contains;
    var first := SMOOTH_LINES[0];
    var rest := "\n" + Unlines(SMOOTH_LINES[1..]);
    assert SMOOTH_BODY == first + rest;
    hide Unlines;
    assert first[0..14] == "apiVersion: v1" && first[15..27] == "kind: Config";
    assert (first + rest)[0..14] == first[0..14] && (first + rest)[15..27] == first[15..27];
    ContainsAt(first + rest, 0, "apiVersion: v1");
    ContainsAt(first + rest, 15, "kind: Config");
  }

  lemma {:induction false} SmoothRewrites(port: nat)
    ensures Rewritten(SMOOTH_BODY, port).Some?
  {
    hide Unlines;
    SmoothOneLine();
    SplitUnlines(SMOOTH_LINES);
    var second := SMOOTH_LINES[1];
    assert second[0] == 's';
    hide SERVER;
    assert LStrip(second) == second && SERVER <= second;
    assert Qualifies(SMOOTH_LINES[1]);
    hide SMOOTH_LINES, Endpoint;
  }

  lemma {:induction false} SmoothOneLine()
    ensures |SMOOTH_LINES| == 2 && forall i | 0 <= i < 2 :: OneLine(SMOOTH_LINES[i])
  {
    assert OneLine("apiVersion: v1 kind: Config");
    assert OneLine("server: x") && SERVER + " x" == "server: x";
    hide OneLine, SERVER;
  }

  lemma {:induction false} SmoothTry(r: Run, i: nat, phase: string)
    requires Steady(r) && phase !in r.done
    ensures var (r1, s) := TryPhase(r, i, phase, SMOOTH); s == Goes && r1.disk == r.disk + {phase} && r1.done == r1.disk
  {
    hide LooksLikeKubeconfig;
    hide Rewritten;
    hide PointsAt;
    hide SMOOTH_BODY;
    SmoothLooksRight();
    forall port: nat { SmoothRewrites(port); }
  }

  lemma {:induction false} StuckLoop(r: Run, requested: seq<string>, i: nat, world: seq<Attempt>)
    requires i <= |requested| && forall j | i <= j < |requested| :: Answer(world, j).check == Raises
    ensures Loop(r, requested, i, world).0.disk == r.disk
    decreases |requested| - i
  {
    if i < |requested| && requested[i] in r.done { StuckLoop(r, requested, i + 1, world); }
  }

  /** If a request skips, some run leaves a gap on disk. */
  lemma {:induction false} SkipLeavesGap(r: Run, requested: seq<string>, i: nat, k: nat) returns (b: nat)
    requires forall p | p in requested :: p in PHASES
    requires Steady(r) && i <= |requested| && k <= |PHASES| && r.disk == Prefix(k)
    requires !NoSkip(k, requested[i..])
    ensures i <= b < |requested|
    ensures !IsPrefix(Loop(r, requested, i, Until(b, |requested|)).0.disk)
    decreases |requested| - i
  {
    hide PHASES;
    hide IndexOf;
    hide TryPhase;
    hide Prefix;
    hide SMOOTH;
    assert i < |requested|;
    var phase := requested[i];
    assert requested[i..][0] == phase && requested[i..][1..] == requested[i + 1..];
    assert phase in requested;
    var j := IndexOfOf(phase);
    InPrefix(j, k);
    if j < k {
      b := SkipLeavesGap(r, requested, i + 1, k);
    } else {
      var r1 := TryPhase(r, i, phase, SMOOTH).0;
      SmoothTry(r, i, phase);
      TryKeeps(r, i, phase, SMOOTH);
      if j == k {
        NextPrefix(k);
        b := SkipLeavesGap(r1, requested, i + 1, k + 1);
        assert Answer(Until(b, |requested|), i) == SMOOTH;
      } else {
        b := i;
        var world := Until(b, |requested|);
        assert Answer(world, i) == SMOOTH;
        RaisesAfter(b, |requested|);
        StuckLoop(r1, requested, i + 1, world);
        GapIsNoPrefix(k, j);
      }
    }
  }

  lemma {:induction false} RaisesAfter(b: nat, n: nat)
    ensures forall j | b < j < n :: Answer(Until(b, n), j).check == Raises
  {
  }

  lemma {:induction false} GapIsNoPrefix(k: nat, j: nat)
    requires k < j < |PHASES|
    ensures !IsPrefix(Prefix(k) + {PHASES[j]})
  {
    hide PHASES;
    var d := Prefix(k) + {PHASES[j]};
    if IsPrefix(d) {
      PrefixOrder(d, k, j);
      InPrefix(k, k);
      PhasesDistinct(k, j);
    }
  }

  /** For arbitrary requests: from a prefix of length `k`, every run leaves a prefix,
      whatever the world does, exactly when no request skips ahead. */
  lemma {:induction false} PrefixSafeExactly(s: Store, raw: Option<seq<string>>, k: nat)
    requires ParsePhases(raw).Ok? && k <= |PHASES| && s.phases == Prefix(k)
    ensures (forall world :: IsPrefix(Execute(s, Invocation(raw, Goes, world)).0.disk)) <==> NoSkip(k, ParsePhases(raw).value)
  {
    hide ParsePhases;
    hide Loop;
    hide Prefix;
    hide IsPrefix;
    var requested := ParsePhases(raw).value;
    if NoSkip(k, requested) {
      forall world ensures IsPrefix(Execute(s, Invocation(raw, Goes, world)).0.disk) {
        RunKeepsPrefix(s, Invocation(raw, Goes, world), k);
      }
    } else {
      assert requested[0..] == requested;
      var b := SkipLeavesGap(Begin(s), requested, 0, k);
      assert !IsPrefix(Execute(s, Invocation(raw, Goes, Until(b, |requested|))).0.disk);
    }
  }
}
