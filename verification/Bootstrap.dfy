/** The resumable runner as a program: its state, its tunnel, its phase loop. */
module Bootstrap {
  import opened Text
  import opened Kubeconfig
  import opened PhaseRun

  datatype Signal = Stop | Kill

  /** A background ssh process that forwards a local port. */
  class ForwardedPort {
    const port: nat
    var running: bool
    ghost var signals: seq<Signal>

    constructor (port: nat)
      ensures this.port == port && running && signals == []
    {
      this.port := port;
      running := true;
      signals := [];
    }

    /** The process ends by itself. */
    method Exit()
      modifies this`running
      ensures !running
    {
      running := false;
    }

    /** `terminate`: nothing for a process that has ended, a polite stop for one that
        has not, and a kill where that is not obeyed. */
    method Terminate(obeys: bool)
      modifies this
      ensures !running
      ensures signals == old(signals) + if !old(running) then [] else if obeys then [Stop] else [Stop, Kill]
    {
      if running {
        signals := signals + [Stop];
        running := !obeys;
        if running {
          signals := signals + [Kill];
          running := false;
        }
      }
    }
  }

  /** The cluster directory: the state file and the kubeconfig. */
  class ClusterFiles {
    var phases: Option<set<string>>
    var kubeconfig: Option<string>

    constructor (phases: Option<set<string>>, kubeconfig: Option<string>)
      ensures this.phases == phases && this.kubeconfig == kubeconfig
    {
      this.phases, this.kubeconfig := phases, kubeconfig;
    }

    function Stored(): Store
      reads this
    {
      Store(phases.GetOr({}), kubeconfig)
    }
  }

  class State {
    const files: ClusterFiles
    var phasesDone: set<string>
    var forward: ForwardedPort?
    ghost var forwards: seq<ForwardedPort>    // all that port_forward has returned
    ghost var log: seq<Event>

    constructor (files: ClusterFiles)
      ensures this.files == files && phasesDone == {} && forward == null && forwards == [] && log == []
    {
      this.files := files;
      phasesDone, forward := {}, null;
      forwards, log := [], [];
    }

    /** The forward held is the one forward returned so far; nobody has signalled its
        process, which may have ended by itself. */
    ghost predicate Owns()
      reads this, forward
    {
      if forward == null then forwards == [] else forwards == [forward] && forward.signals == []
    }

    ghost function Ports(): seq<nat>
      reads this
    {
      seq(|forwards|, i requires 0 <= i < |forwards| reads this => forwards[i].port)
    }

    ghost function HeldPort(): Option<nat>
      reads this
    {
      if forward == null then None else Some(forward.port)
    }

    /** The abstract state of the run. */
    ghost function View(): Run
      reads this, files, forward
    {
      Run(phasesDone, files.phases.GetOr({}), HeldPort(), forward != null && forward.running, Ports(), files.kubeconfig, log)
    }

    method Load()
      modifies this`phasesDone
      ensures phasesDone == files.phases.GetOr({})
    {
      phasesDone := {};
      if files.phases.Some? {
        phasesDone := files.phases.value;
      }
    }

    method Save()
      modifies files`phases
      ensures files.phases == Some(phasesDone)
    {
      files.phases := Some(phasesDone);
    }

    /** Fetch the kubeconfig through the proxy, rewrite it, write it. */
    method FetchKubeconfig(step: Step, body: string) returns (s: Step)
      requires forward != null && Owns()
      modifies files`kubeconfig
      ensures Owns()
      ensures (View(), s) == Fetched(old(View()), step, body)
    {
      if step != Goes {
        return step;
      }
      if !LooksLikeKubeconfig(body) {
        return Raises;
      }
      var text := RewriteServerUrl(body, forward.port);
      if text == None {
        return Raises;
      }
      files.kubeconfig := text;
      return Goes;
    }

    /** `_open_apiserver_tunnel`. */
    method OpenApiserverTunnel(a: Attempt) returns (s: Step)
      requires Owns()
      modifies this`forward, this`forwards, files`kubeconfig
      ensures Owns() && (forward == old(forward) || fresh(forward))
      ensures (View(), s) == OpenTunnel(old(View()), a)
    {
      if forward == null {
        if a.forward != Goes {
          return a.forward;
        }
        forward := new ForwardedPort(a.port);
        forwards := [forward];
        assert Ports() == old(Ports()) + [a.port];
      }
      s := FetchKubeconfig(a.fetch, a.body);
    }

    ghost method Note(i: nat, phase: string, found: Option<nat>, outcome: Outcome, a: Attempt)
      requires Owns()
      modifies this`log
      ensures Owns() && View() == Logged(old(View()), i, phase, found, outcome, a)
    {
      var before := View();
      log := log + [Event(i, phase, found, HeldPort(), forward != null && forward.running, outcome, a)];
      assert Ports() == before.ports;
    }

    /** One attempt of a phase and the save after it. */
    method RunPhase(i: nat, phase: string, a: Attempt) returns (s: Step)
      requires Owns()
      modifies this`phasesDone, this`forward, this`forwards, this`log, files, if forward == null then {} else {forward}
      ensures Owns() && (forward == old(forward) || fresh(forward))
      ensures (View(), s) == TryPhase(old(View()), i, phase, a)
    {
      hide Body;
      ghost var begin := View();
      if forward != null && !a.alive {
        forward.Exit();
      }
      assert Ports() == begin.ports;
      s := PhaseBody(phase, a);
      if s != Goes {
        Note(i, phase, begin.forward, Failed, a);
        return;
      }
      var marked := phase != "externalname" || a.manifest;
      ghost var ended := View();
      if marked {
        phasesDone := phasesDone + {phase};
      }
      assert Ports() == ended.ports;
      if a.save != Goes {
        Note(i, phase, begin.forward, Failed, a);
        return a.save;
      }
      Save();
      assert Ports() == ended.ports;
      Note(i, phase, begin.forward, if marked then Saved else Unmarked, a);
    }

    method PhaseBody(phase: string, a: Attempt) returns (s: Step)
      requires Owns()
      modifies this`forward, this`forwards, files`kubeconfig
      ensures Owns() && (forward == old(forward) || fresh(forward))
      ensures (View(), s) == Body(old(View()), phase, a)
    {
      if a.check != Goes {
        return a.check;
      }
      if OpensTunnel(phase) {
        s := OpenApiserverTunnel(a);
        if s != Goes {
          return;
        }
      }
      if phase == "kubeconfig" && forward != null {
        s := FetchKubeconfig(a.refetch, a.body2);
        if s != Goes {
          return;
        }
      }
      if phase == "externalname" && !a.manifest {
        return Goes;
      }
      return a.work;
    }

    /** `bootstrap`. `obeys` says whether the ssh process stops when asked. Whatever
        raises, the tunnel is torn down, with signals only to an ssh process that is
        still there; only the death of the runner itself skips that. */
    method Bootstrap(inv: Invocation, obeys: bool) returns (s: Step)
      requires forward == null && forwards == [] && log == []
      modifies this, files
      ensures ((files.Stored(), log), s) == var (r, e) := Execute(old(files.Stored()), inv); ((Left(r), r.log), e)
      ensures |forwards| <= 1 && forall f | f in forwards :: fresh(f)
      ensures s != Dies ==> forward == null && forall f | f in forwards :: !f.running
      ensures s != Dies ==> forall f | f in forwards ::
        f.signals == if !Execute(old(files.Stored()), inv).0.running then [] else if obeys then [Stop] else [Stop, Kill]
    {
      Load();
      ghost var begin := View();
      assert begin == Begin(old(files.Stored()));
      var parsed := ParsePhases(inv.raw);
      if parsed.Err? {
        return Raises;
      }
      if inv.prelude != Goes {
        return inv.prelude;
      }
      s := RunPhases(parsed.value, inv.world);
      if s != Dies {
        if forward != null {
          forward.Terminate(obeys);
          forward := null;
        }
      }
    }

    method RunPhases(requested: seq<string>, world: seq<Attempt>) returns (s: Step)
      requires Owns() && forward == null
      modifies this, files
      ensures Owns() && (forward == null || fresh(forward))
      ensures (View(), s) == Loop(old(View()), requested, 0, world)
    {
      ghost var begin := View();
      for i := 0 to |requested|
        invariant Owns() && (forward == null || fresh(forward))
        invariant Loop(View(), requested, i, world) == Loop(begin, requested, 0, world)
      {
        var phase := requested[i];
        if phase in phasesDone {
          continue;
        }
        s := RunPhase(i, phase, Answer(world, i));
        if s != Goes {
          return;
        }
      }
      return Goes;
    }
  }
}
