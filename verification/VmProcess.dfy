/** StartVM and its reaper: qemu processes, vm.pid and exit.json of one VM, step by step (builtin/qemu.go). */
module VmProcess {
  import opened Wrappers

  /** A process is a zombie from its exit until it is waited for; until then its pid answers signal 0. */
  datatype Process = Running | Zombie | Gone

  /** One StartVM call: before its check, after it found nothing alive, after removing exit.json, after the launch. */
  datatype Starter = Idle | Checked | Cleared | Launched(p: nat)

  /** The goroutine started once vm.pid is written: waiting, about to write the tmp file, about to rename it. */
  datatype Reaper = NoReaper | Waiting | ToWrite | ToRename

  /** An exit descriptor names a process, or is what a failed write left. */
  datatype ExitDoc = Names(pid: nat) | Torn

  /** Processes are numbered in launch order. */
  datatype State = State(procs: seq<Process>, reapers: seq<Reaper>, starters: seq<Starter>,
                         pidFile: Option<nat>, exitFile: Option<ExitDoc>, exitTmp: Option<ExitDoc>)

  function Init(n: nat): State {
    State([], [], seq(n, _ => Idle), None, None, None)
  }

  datatype Label =
    | Check(t: nat)
    | Clear(t: nat)
    | ClearFails(t: nat)    // the error is dropped
    | LaunchFails(t: nat)   // also: no kernel, bad configuration
    | Launch(t: nat)
    | WritePid(t: nat)
    | WritePidFails(t: nat) // StartVM returns an error and starts no reaper
    | Exit(p: nat)
    | Wait(p: nat)
    | WriteTmp(p: nat)
    | WriteTmpFails(p: nat, torn: bool) // the reaper ends; a torn tmp file may be left
    | Rename(p: nat)
    | RenameFails(p: nat)               // the error is dropped, the tmp file stays

  predicate Alive(s: State, p: nat) {
    p < |s.procs| && !s.procs[p].Gone?
  }

  predicate PidAlive(s: State) {
    s.pidFile.Some? && Alive(s, s.pidFile.value)
  }

  predicate ByStarter(l: Label) {
    l.Check? || l.Clear? || l.ClearFails? || l.LaunchFails? || l.Launch? || l.WritePid? || l.WritePidFails?
  }

  predicate Enabled(s: State, l: Label) {
    if ByStarter(l) then l.t < |s.starters| && StarterEnabled(s, l, s.starters[l.t])
    else l.p < |s.procs| && l.p < |s.reapers| && ProcessEnabled(s.procs[l.p], s.reapers[l.p], l)
  }

  predicate StarterEnabled(s: State, l: Label, x: Starter)
    requires ByStarter(l)
  {
    match l
    case Check(_) => x.Idle?
    case Clear(_) => x.Checked?
    case ClearFails(_) => x.Checked?
    case LaunchFails(_) => x.Cleared?
    case Launch(_) => x.Cleared?
    case WritePid(_) => x.Launched? && x.p < |s.reapers|
    case WritePidFails(_) => x.Launched?
  }

  predicate ProcessEnabled(x: Process, r: Reaper, l: Label)
    requires !ByStarter(l)
  {
    match l
    case Exit(_) => x.Running?
    case Wait(_) => x.Zombie? && r.Waiting?
    case WriteTmp(_) => r.ToWrite?
    case WriteTmpFails(_, _) => r.ToWrite?
    case Rename(_) => r.ToRename?
    case RenameFails(_) => r.ToRename?
  }

  function Move(s: State, t: nat, x: Starter): State
    requires t < |s.starters|
  {
    s.(starters := s.starters[t := x])
  }

  function Apply(s: State, l: Label): State
    requires Enabled(s, l)
  {
    match l
    case Check(t) => if PidAlive(s) then s else Move(s, t, Checked)
    case Clear(t) => Move(s, t, Cleared).(exitFile := None)
    case ClearFails(t) => Move(s, t, Cleared)
    case LaunchFails(t) => Move(s, t, Idle)
    case Launch(t) => Move(s, t, Launched(|s.procs|)).(procs := s.procs + [Running], reapers := s.reapers + [NoReaper])
    case WritePid(t) =>
      var p := s.starters[t].p;
      Move(s, t, Idle).(pidFile := Some(p), reapers := s.reapers[p := Waiting])
    case WritePidFails(t) => Move(s, t, Idle)
    case Exit(p) => s.(procs := s.procs[p := Zombie])
    case Wait(p) => s.(procs := s.procs[p := Gone], reapers := s.reapers[p := ToWrite])
    case WriteTmp(p) => s.(exitTmp := Some(Names(p)), reapers := s.reapers[p := ToRename])
    case WriteTmpFails(p, torn) => s.(exitTmp := if torn then Some(Torn) else s.exitTmp, reapers := s.reapers[p := NoReaper])
    case Rename(p) =>
      if s.exitTmp.Some?
      then s.(exitFile := s.exitTmp, exitTmp := None, reapers := s.reapers[p := NoReaper])
      else s.(reapers := s.reapers[p := NoReaper])
    case RenameFails(p) => s.(reapers := s.reapers[p := NoReaper])
  }

  predicate Run(s: State, ls: seq<Label>)
    decreases |ls|
  {
    ls == [] || (Enabled(s, ls[0]) && Run(Apply(s, ls[0]), ls[1..]))
  }

  function Exec(s: State, ls: seq<Label>): State
    requires Run(s, ls)
    decreases |ls|
  {
    if ls == [] then s else Exec(Apply(s, ls[0]), ls[1..])
  }

  lemma RunNone(s: State)
    ensures Run(s, []) && Exec(s, []) == s
  {
  }

  /** A step put in front of a run. */
  lemma Then(s: State, l: Label, ls: seq<Label>)
    requires Enabled(s, l) && Run(Apply(s, l), ls)
    ensures Run(s, [l] + ls) && Exec(s, [l] + ls) == Exec(Apply(s, l), ls)
  {
    assert ([l] + ls)[1..] == ls;
  }

  // ---- exit.json never accuses a live process ----

  ghost predicate ReaperOk(s: State, p: nat) {
    && p < |s.procs| == |s.reapers|
    && (s.reapers[p].ToWrite? || s.reapers[p].ToRename? ==> s.procs[p].Gone?)
    && (s.reapers[p].Waiting? ==> !s.procs[p].Gone?)
  }

  ghost predicate StarterOk(s: State, t: nat)
    requires t < |s.starters|
  {
    s.starters[t].Launched? ==>
      && s.starters[t].p < |s.reapers| && s.reapers[s.starters[t].p].NoReaper?
      && s.starters[t].p < |s.procs| && !s.procs[s.starters[t].p].Gone?
  }

  ghost predicate Waited(s: State, file: Option<ExitDoc>) {
    file.Some? && file.value.Names? ==> file.value.pid < |s.procs| && s.procs[file.value.pid].Gone?
  }

  ghost predicate Inv(s: State) {
    && |s.reapers| == |s.procs|
    && (forall p: nat :: p < |s.procs| ==> ReaperOk(s, p))
    && (forall t: nat :: t < |s.starters| ==> StarterOk(s, t))
    && (forall t: nat, u: nat :: t < u < |s.starters| && s.starters[t].Launched? && s.starters[u].Launched? ==>
          s.starters[t].p != s.starters[u].p)
    && Waited(s, s.exitFile) && Waited(s, s.exitTmp)
    && (s.pidFile.Some? ==> s.pidFile.value < |s.procs|)
  }

  lemma InitInv(n: nat)
    ensures Inv(Init(n))
  {
  }

  lemma StepInv(s: State, l: Label)
    requires Inv(s) && Enabled(s, l)
    ensures Inv(Apply(s, l))
  {
    var s' := Apply(s, l);
    forall p: nat | p < |s'.procs| ensures ReaperOk(s', p) {
      ReaperStep(s, l, p);
    }
    forall t: nat | t < |s'.starters| ensures StarterOk(s', t) {
      assert StarterOk(s, t);
      if ByStarter(l) {
        assert StarterOk(s, l.t);
      } else {
        assert ReaperOk(s, l.p);
      }
    }
    forall t: nat, u: nat | t < u < |s'.starters| && s'.starters[t].Launched? && s'.starters[u].Launched?
      ensures s'.starters[t].p != s'.starters[u].p
    {
      assert StarterOk(s, t) && StarterOk(s, u);
    }
    WaitedStep(s, l);
  }

  lemma ReaperStep(s: State, l: Label, p: nat)
    requires Inv(s) && Enabled(s, l) && p < |Apply(s, l).procs|
    ensures ReaperOk(Apply(s, l), p)
  {
    assert p < |s.procs| ==> ReaperOk(s, p);
    if ByStarter(l) {
      assert StarterOk(s, l.t);
    }
  }

  lemma WaitedStep(s: State, l: Label)
    requires Inv(s) && Enabled(s, l)
    ensures Waited(Apply(s, l), Apply(s, l).exitFile) && Waited(Apply(s, l), Apply(s, l).exitTmp)
    ensures Apply(s, l).pidFile.Some? ==> Apply(s, l).pidFile.value < |Apply(s, l).procs|
  {
    if !ByStarter(l) {
      assert ReaperOk(s, l.p);
    } else {
      assert StarterOk(s, l.t);
    }
  }

  lemma {:induction false} RunInv(s: State, ls: seq<Label>)
    requires Inv(s) && Run(s, ls)
    ensures Inv(Exec(s, ls))
    decreases |ls|
  {
    if ls == [] {
    } else {
      StepInv(s, ls[0]);
      RunInv(Apply(s, ls[0]), ls[1..]);
    }
  }

  /**
   * In every run, with any number of StartVM calls and reapers, exit.json names only a process that has been
   * waited for. So a reader that finds in it the pid of vm.pid may conclude that this process is gone.
   */
  lemma ExitFileIsTrue(n: nat, ls: seq<Label>, p: nat)
    requires Run(Init(n), ls) && Exec(Init(n), ls).exitFile == Some(Names(p))
    ensures p < |Exec(Init(n), ls).procs| && !Alive(Exec(Init(n), ls), p)
  {
    InitInv(n);
    RunInv(Init(n), ls);
  }

  // ---- but it may be about an earlier one ----

  /**
   * The reaper of p, or the StartVM call that will start it, has yet to publish p; or the tmp file names p and some
   * reaper is about to rename it. (A tmp file that nobody is about to rename is overwritten before anybody is.)
   */
  predicate Outstanding(s: State, p: nat) {
    || (p < |s.reapers| && (s.reapers[p].Waiting? || s.reapers[p].ToWrite?))
    || (s.exitTmp == Some(Names(p)) && exists r :: 0 <= r < |s.reapers| && s.reapers[r].ToRename?)
    || exists t :: 0 <= t < |s.starters| && s.starters[t] == Launched(p)
  }

  predicate Named(s: State, p: nat) {
    s.exitFile == Some(Names(p))
  }

  predicate NoStart(ls: seq<Label>) {
    forall i :: 0 <= i < |ls| ==> !ByStarter(ls[i])
  }

  /** The next step of the reaper of p. */
  function TowardsNamed(s: State, p: nat): Label {
    if p < |s.reapers| && s.reapers[p].ToRename? then Rename(p)
    else if p < |s.reapers| && s.reapers[p].ToWrite? then WriteTmp(p)
    else if p < |s.procs| && s.procs[p].Zombie? then Wait(p)
    else Exit(p)
  }

  /** How many steps that takes. */
  function StepsLeft(s: State, p: nat): nat {
    match TowardsNamed(s, p) case Rename(_) => 1 case WriteTmp(_) => 2 case Wait(_) => 3 case _ => 4
  }

  /** A reaper that waits or has yet to write can go on until exit.json names its process, with no StartVM step. */
  lemma {:induction false} ReaperPublishes(s: State, p: nat) returns (ls: seq<Label>)
    requires Inv(s) && p < |s.reapers|
    requires s.reapers[p].Waiting? || s.reapers[p].ToWrite? || (s.reapers[p].ToRename? && s.exitTmp == Some(Names(p)))
    ensures Run(s, ls) && NoStart(ls) && Named(Exec(s, ls), p)
    decreases StepsLeft(s, p)
  {
    var l := TowardsNamed(s, p);
    assert ReaperOk(s, p);
    var s1 := Apply(s, l);
    StepInv(s, l);
    if l.Rename? {
      ls := [];
      RunNone(s1);
    } else {
      ls := ReaperPublishes(s1, p);
    }
    Then(s, l, ls);
    ls := [l] + ls;
  }

  ghost predicate NeverNamed(s: State, p: nat) {
    forall ls :: Run(s, ls) ==> !Named(Exec(s, ls), p)
  }

  /** What is not outstanding is never so again, whatever starts, exits or is reaped. */
  lemma SettledStep(s: State, l: Label, p: nat)
    requires Inv(s) && Enabled(s, l) && p < |s.procs| && !Outstanding(s, p) && !Named(s, p)
    ensures p < |Apply(s, l).procs| && !Outstanding(Apply(s, l), p) && !Named(Apply(s, l), p)
  {
    if ByStarter(l) {
      assert s.starters[l.t] != Launched(p);
    }
    if s.exitTmp == Some(Names(p)) {
      assert forall r :: 0 <= r < |s.reapers| ==> !s.reapers[r].ToRename?;
    }
  }

  lemma {:induction false} SettledRun(s: State, ls: seq<Label>, p: nat)
    requires Inv(s) && Run(s, ls) && p < |s.procs| && !Outstanding(s, p) && !Named(s, p)
    ensures !Named(Exec(s, ls), p)
    decreases |ls|
  {
    if ls == [] {
    } else {
      SettledStep(s, ls[0], p);
      StepInv(s, ls[0]);
      SettledRun(Apply(s, ls[0]), ls[1..], p);
    }
  }

  lemma OutstandingPublishes(s: State, p: nat)
    requires Inv(s) && Outstanding(s, p)
    ensures !NeverNamed(s, p)
  {
    if t :| 0 <= t < |s.starters| && s.starters[t] == Launched(p) {
      assert StarterOk(s, t);
      StepInv(s, WritePid(t));
      var ls := ReaperPublishes(Apply(s, WritePid(t)), p);
      Then(s, WritePid(t), ls);
      assert Run(s, [WritePid(t)] + ls);
    } else if r :| s.exitTmp == Some(Names(p)) && 0 <= r < |s.reapers| && s.reapers[r].ToRename? {
      RunNone(Apply(s, Rename(r)));
      Then(s, Rename(r), []);
      assert Run(s, [Rename(r)] + []);
    } else {
      var ls := ReaperPublishes(s, p);
      assert Run(s, ls);
    }
  }

  /**
   * Whether exit.json can come to name an earlier process after a restart. For a process p already launched,
   * no continuation at all, later StartVM calls and exits included, makes exit.json name p if and only if
   * it does not name p now, neither p's reaper nor the call that starts it has yet to publish, and no reaper is
   * about to rename a tmp file that names p.
   */
  lemma NeverNamedExactly(s: State, p: nat)
    requires Inv(s) && p < |s.procs|
    ensures NeverNamed(s, p) <==> !Named(s, p) && !Outstanding(s, p)
  {
    if Named(s, p) {
      RunNone(s);
    } else if Outstanding(s, p) {
      OutstandingPublishes(s, p);
    } else {
      forall ls | Run(s, ls) ensures !Named(Exec(s, ls), p) {
        SettledRun(s, ls, p);
      }
    }
  }

  /** A reaper is running that can still publish: it waits, or has yet to write, or finds a tmp file to rename. */
  predicate Pending(s: State, p: nat) {
    p < |s.reapers| && (s.reapers[p].Waiting? || s.reapers[p].ToWrite? || (s.reapers[p].ToRename? && s.exitTmp.Some?))
  }

  predicate NonePending(s: State) {
    forall p: nat :: p < |s.reapers| ==> !Pending(s, p)
  }

  ghost predicate StaysAbsent(s: State) {
    forall ls :: Run(s, ls) && NoStart(ls) ==> Exec(s, ls).exitFile.None?
  }

  lemma {:induction false} NothingPublished(s: State, ls: seq<Label>)
    requires s.exitFile.None? && Run(s, ls) && NoStart(ls) && NonePending(s)
    ensures Exec(s, ls).exitFile.None?
    decreases |ls|
  {
    if ls == [] {
    } else {
      assert !ByStarter(ls[0]) && !Pending(s, ls[0].p);
      var s1 := Apply(s, ls[0]);
      forall p: nat | p < |s1.reapers| ensures !Pending(s1, p) {
        assert !Pending(s, p);
      }
      NothingPublished(s1, ls[1..]);
    }
  }

  /**
   * With exit.json absent, as StartVM leaves it, and StartVM not going on yet, it stays absent whatever
   * exits and is reaped if and only if no reaper of an earlier process can still publish.
   */
  lemma StaysAbsentExactly(s: State)
    requires Inv(s) && s.exitFile.None?
    ensures StaysAbsent(s) <==> NonePending(s)
  {
    if NonePending(s) {
      forall ls | Run(s, ls) && NoStart(ls) ensures Exec(s, ls).exitFile.None? {
        NothingPublished(s, ls);
      }
    } else {
      var p: nat :| p < |s.reapers| && Pending(s, p);
      assert ReaperOk(s, p);
      if s.reapers[p].ToRename? {
        RunNone(Apply(s, Rename(p)));
        Then(s, Rename(p), []);
        assert NoStart([Rename(p)] + []) && Exec(s, [Rename(p)] + []).exitFile.Some?;
      } else {
        var ls := ReaperPublishes(s, p);
        assert Run(s, ls) && NoStart(ls);
      }
    }
  }

  /** The condition can fail: a StartVM has removed exit.json while an earlier process's reaper still waits. */
  lemma PendingIsReachable()
    ensures exists ls :: Run(Init(2), ls) && |Exec(Init(2), ls).starters| == 2 && Exec(Init(2), ls).starters[0].Cleared? && Exec(Init(2), ls).exitFile.None?
                         && !NonePending(Exec(Init(2), ls))
  {
    var first := [Check(0), Check(1), Clear(1)];
    var second := [Launch(1), WritePid(1), Clear(0)];
    var s3 := State([], [], [Checked, Cleared], None, None, None);
    ThreeSteps(Init(2), Check(0), Check(1), Clear(1));
    ThreeSteps(s3, Launch(1), WritePid(1), Clear(0));
    RunAppend(Init(2), first, second);
    var s := Exec(Init(2), first + second);
    assert Pending(s, 0);
  }

  lemma ThreeSteps(s: State, l1: Label, l2: Label, l3: Label)
    requires Enabled(s, l1) && Enabled(Apply(s, l1), l2) && Enabled(Apply(Apply(s, l1), l2), l3)
    ensures Run(s, [l1, l2, l3]) && Exec(s, [l1, l2, l3]) == Apply(Apply(Apply(s, l1), l2), l3)
  {
    var s2 := Apply(Apply(s, l1), l2);
    RunNone(Apply(s2, l3));
    Then(s2, l3, []);
    Then(Apply(s, l1), l2, [l3] + []);
    Then(s, l1, [l2] + ([l3] + []));
    assert [l1] + ([l2] + ([l3] + [])) == [l1, l2, l3];
  }

  // ---- One process per VM ----

  /** The one live process is the recorded one between calls, and the launched one within a call. */
  predicate Accounted(s: State, p: nat)
    requires |s.starters| == 1
  {
    match s.starters[0]
    case Idle => s.pidFile == Some(p)
    case Launched(q) => p == q
    case _ => false
  }

  /** What a lone caller of StartVM keeps, if every vm.pid is written. */
  ghost predicate Single(s: State) {
    |s.starters| == 1 && |s.reapers| == |s.procs| && forall p: nat :: Alive(s, p) ==> Accounted(s, p)
  }

  lemma SingleStep(s: State, l: Label)
    requires Single(s) && Enabled(s, l) && !l.WritePidFails?
    ensures Single(Apply(s, l))
  {
    var s' := Apply(s, l);
    forall p: nat | Alive(s', p) ensures Accounted(s', p) {
      assert p < |s.procs| ==> Alive(s, p);
    }
  }

  lemma {:induction false} SingleRun(s: State, ls: seq<Label>)
    requires Single(s) && Run(s, ls) && forall i :: 0 <= i < |ls| ==> !ls[i].WritePidFails?
    ensures Single(Exec(s, ls))
    decreases |ls|
  {
    if ls == [] {
    } else {
      SingleStep(s, ls[0]);
      SingleRun(Apply(s, ls[0]), ls[1..]);
    }
  }

  /** With one StartVM call at a time and vm.pid always written, at most one process of the VM lives. */
  lemma AtMostOneProcess(ls: seq<Label>, p: nat, q: nat)
    requires Run(Init(1), ls) && forall i :: 0 <= i < |ls| ==> !ls[i].WritePidFails?
    requires Alive(Exec(Init(1), ls), p) && Alive(Exec(Init(1), ls), q)
    ensures p == q
  {
    assert Single(Init(1));
    SingleRun(Init(1), ls);
    assert Accounted(Exec(Init(1), ls), p) && Accounted(Exec(Init(1), ls), q);
  }

  lemma {:induction false} RunAppend(s: State, xs: seq<Label>, ys: seq<Label>)
    requires Run(s, xs) && Run(Exec(s, xs), ys)
    ensures Run(s, xs + ys) && Exec(s, xs + ys) == Exec(Exec(s, xs), ys)
    decreases |xs|
  {
    if xs == [] {
      assert xs + ys == ys;
    } else {
      assert (xs + ys)[1..] == xs[1..] + ys;
      RunAppend(Apply(s, xs[0]), xs[1..], ys);
    }
  }

  /** A start, from the check to the launch, when nothing recorded is alive. */
  lemma LaunchRun(s: State, t: nat)
    requires t < |s.starters| && s.starters[t].Idle? && !PidAlive(s) && |s.reapers| == |s.procs|
    ensures Run(s, [Check(t), Clear(t), Launch(t)])
    ensures var s' := Exec(s, [Check(t), Clear(t), Launch(t)]);
            && s'.procs == s.procs + [Running] && s'.starters == s.starters[t := Launched(|s.procs|)]
            && s'.pidFile == s.pidFile && |s'.reapers| == |s'.procs|
  {
    ThreeSteps(s, Check(t), Clear(t), Launch(t));
  }

  /** Both conditions are needed: two calls at once, or one whose vm.pid is not written, can leave two processes. */
  lemma TwoProcesses(s: State, t: nat, u: nat)
    requires Inv(s) && t < |s.starters| && u < |s.starters| && !PidAlive(s)
    requires s.starters[t].Idle? && s.starters[u].Idle?
    ensures exists ls: seq<Label>, p: nat, q: nat :: Run(s, ls) && p != q && Alive(Exec(s, ls), p) && Alive(Exec(s, ls), q)
                               && (t != u ==> forall i :: 0 <= i < |ls| ==> !ls[i].WritePidFails?)
  {
    var first := [Check(t), Clear(t), Launch(t)];
    LaunchRun(s, t);
    var s1 := Exec(s, first);
    if t != u {
      LaunchRun(s1, u);
      var second := [Check(u), Clear(u), Launch(u)];
      RunAppend(s, first, second);
      assert Alive(Exec(s, first + second), |s.procs|) && Alive(Exec(s, first + second), |s.procs| + 1);
    } else {
      var s2 := Apply(s1, WritePidFails(t));
      LaunchRun(s2, t);
      Then(s1, WritePidFails(t), first);
      RunAppend(s, first, [WritePidFails(t)] + first);
      var ls := first + ([WritePidFails(t)] + first);
      assert Alive(Exec(s, ls), |s.procs|) && Alive(Exec(s, ls), |s.procs| + 1);
    }
  }

  // ---- One start, and one life ----

  /** StartVM removes what exit.json said before, unless the removal fails. */
  lemma ClearRemoves(s: State, t: nat)
    requires t < |s.starters| && s.starters[t].Checked?
    ensures Enabled(s, Clear(t)) && Apply(s, Clear(t)).exitFile.None?
    ensures Enabled(s, ClearFails(t)) && Apply(s, ClearFails(t)).exitFile == s.exitFile
  {
  }

  /** While the recorded process is alive StartVM does nothing, however often it is called. */
  lemma StartIsNoOpWhileAlive(s: State, t: nat)
    requires t < |s.starters| && s.starters[t].Idle? && s.pidFile.Some? && s.pidFile.value < |s.procs| && !s.procs[s.pidFile.value].Gone?
    ensures Enabled(s, Check(t)) && Apply(s, Check(t)) == s
  {
  }

  /**
   * One StartVM with nothing recorded alive, undisturbed: it launches a process, records it in vm.pid and leaves no
   * exit.json. If that process then exits and is reaped, exit.json names it and vm.pid still does.
   */
  lemma OneLife(s: State, t: nat) returns (start: seq<Label>, end: seq<Label>)
    requires t < |s.starters| && s.starters[t].Idle? && !PidAlive(s) && |s.reapers| == |s.procs|
    ensures Run(s, start)
    ensures var s', p := Exec(s, start), |s.procs|;
            && s'.procs == s.procs + [Running] && s'.pidFile == Some(p) && s'.exitFile == None
            && Run(s', end) && Exec(s', end).procs == s.procs + [Gone] && Exec(s', end).pidFile == Some(p)
            && Exec(s', end).exitFile == Some(Names(p))
  {
    var p := |s.procs|;
    var launch := [Check(t), Clear(t), Launch(t)];
    ThreeSteps(s, Check(t), Clear(t), Launch(t));
    var s3 := Exec(s, launch);
    var s4 := Apply(s3, WritePid(t));
    RunNone(s4);
    Then(s3, WritePid(t), []);
    RunAppend(s, launch, [WritePid(t)] + []);
    start := launch + ([WritePid(t)] + []);
    var s5 := Apply(s4, Exit(p));
    ThreeSteps(s5, Wait(p), WriteTmp(p), Rename(p));
    Then(s4, Exit(p), [Wait(p), WriteTmp(p), Rename(p)]);
    end := [Exit(p)] + [Wait(p), WriteTmp(p), Rename(p)];
  }
}
