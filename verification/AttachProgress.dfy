/** Every attach, detach and destroy ends once clients disconnect, although destroy waits with the mutex held. */
module AttachProgress {
  import opened Wrappers
  import opened AttachProtocol
  import opened AttachInvariant
  import opened AttachSafety

  /** Steps other than new calls, new connections and new files. */
  predicate Internal(l: Label) {
    !l.Invoke? && !l.Connect? && !l.Provision?
  }

  predicate Quiet(s: State) {
    forall t :: 0 <= t < |s.callers| ==> s.callers[t].Idle?
  }

  predicate AllInternal(ls: seq<Label>) {
    forall i :: 0 <= i < |ls| ==> Internal(ls[i])
  }

  // ---- A measure that every internal step decreases ----

  const SERVER_WEIGHT := 4

  function CallerWeight(c: Caller): nat {
    if c.Idle? then 0
    else match c.at
      case FirstCheck => 11
      case Opening => 10
      case Resolved => 9
      case Opened(_) => 8
      case Aborting(_) => 2
      case SecondCheck(_) => 6
      case ToDelete => 2
      case ToLock => 4
      case Sweep(todo) => 3 + |todo|
      case RemoveDir => 2
      case Closing(_, stage, _, after) => StageWeight(stage) + if after.ResumeSweep? then |after.todo| else 2
      case Finished(_) => 1
  }

  function StageWeight(stage: Stage): nat {
    match stage
    case CloseListener => 2
    case AwaitDone => 1
    case CloseStore => 0
  }

  function HandleWeight(x: Handle): nat {
    if x.ln.Unopened? then 0 else x.conns + if x.done then 0 else 1
  }

  /** A destroy that has yet to take the mutex will visit every server it finds then. */
  function LockerWeight(c: Caller): nat {
    if c.Busy? && c.at.ToLock? then 1 else 0
  }

  /** An attach that may still add a server. */
  function InserterWeight(c: Caller): nat {
    if c.Busy? && (c.at.FirstCheck? || c.at.Opening? || c.at.Resolved? || c.at.Opened? || c.at.SecondCheck?) then 1 else 0
  }

  function Total(cs: seq<Caller>, f: Caller -> nat): nat {
    if cs == [] then 0 else f(cs[0]) + Total(cs[1..], f)
  }

  function HandlesWeight(xs: seq<Handle>): nat {
    if xs == [] then 0 else HandleWeight(xs[0]) + HandlesWeight(xs[1..])
  }

  /** Destroys that have yet to lock, and the most servers one of them may find. */
  function Lockers(s: State): nat { Total(s.callers, LockerWeight) }
  function Servers(s: State): nat { |s.servers| + Total(s.callers, InserterWeight) }

  function Weights(s: State): nat {
    Total(s.callers, CallerWeight) + HandlesWeight(s.handles) + SERVER_WEIGHT * |s.servers|
  }

  function Measure(s: State): nat {
    Weights(s) + Lockers(s) * Servers(s)
  }

  lemma {:induction false} TotalUpdate(cs: seq<Caller>, f: Caller -> nat, t: nat, c: Caller)
    requires t < |cs|
    ensures Total(cs[t := c], f) == Total(cs, f) - f(cs[t]) + f(c)
  {
    if t == 0 {
      assert cs[0 := c][1..] == cs[1..];
    } else {
      assert cs[t := c][1..] == cs[1..][t - 1 := c];
      TotalUpdate(cs[1..], f, t - 1, c);
    }
  }

  lemma {:induction false} HandlesUpdate(xs: seq<Handle>, h: nat, x: Handle)
    requires h < |xs|
    ensures HandlesWeight(xs[h := x]) == HandlesWeight(xs) - HandleWeight(xs[h]) + HandleWeight(x)
  {
    if h == 0 {
      assert xs[0 := x][1..] == xs[1..];
    } else {
      assert xs[h := x][1..] == xs[1..][h - 1 := x];
      HandlesUpdate(xs[1..], h - 1, x);
    }
  }

  lemma {:induction false} HandlesAppend(xs: seq<Handle>, x: Handle)
    ensures HandlesWeight(xs + [x]) == HandlesWeight(xs) + HandleWeight(x)
  {
    if xs == [] {
      assert xs + [x] == [x];
    } else {
      assert (xs + [x])[1..] == xs[1..] + [x];
      HandlesAppend(xs[1..], x);
    }
  }

  /** What a step changes, in weights. */
  lemma StepTotal(s: State, l: Label, f: Caller -> nat)
    requires Enabled(s, l)
    ensures ByCaller(l) ==>
              && |Apply(s, l).callers| == |s.callers|
              && Total(Apply(s, l).callers, f) == Total(s.callers, f) - f(s.callers[l.t]) + f(Apply(s, l).callers[l.t])
    ensures !ByCaller(l) ==> Apply(s, l).callers == s.callers
  {
    if ByCaller(l) {
      TotalUpdate(s.callers, f, l.t, Apply(s, l).callers[l.t]);
      assert Apply(s, l).callers == s.callers[l.t := Apply(s, l).callers[l.t]];
    }
  }

  /** The handle a step changes, if it changes one. */
  function Touched(s: State, l: Label): Option<nat>
    requires Enabled(s, l)
  {
    match l
    case Listen(t, _) => Some(PointOf(s, t).h)
    case Abort(t) => Some(PointOf(s, t).h)
    case CloseLn(t, _) => Some(PointOf(s, t).h)
    case Release(t, _) => Some(PointOf(s, t).h)
    case Connect(h) => Some(h)
    case Disconnect(h) => Some(h)
    case ServeReturns(h) => Some(h)
    case _ => None
  }

  lemma StepHandles(s: State, l: Label)
    requires Enabled(s, l)
    ensures Touched(s, l).Some? ==>
              var h := Touched(s, l).value;
              && h < |s.handles| && |Apply(s, l).handles| == |s.handles|
              && HandlesWeight(Apply(s, l).handles) ==
                 HandlesWeight(s.handles) - HandleWeight(s.handles[h]) + HandleWeight(Apply(s, l).handles[h])
    ensures Touched(s, l).None? ==> HandlesWeight(Apply(s, l).handles) == HandlesWeight(s.handles)
  {
    if l.OpenStore? {
      HandlesAppend(s.handles, Apply(s, l).handles[|s.handles|]);
    } else if Touched(s, l).Some? {
      var h := Touched(s, l).value;
      HandlesUpdate(s.handles, h, Apply(s, l).handles[h]);
      assert Apply(s, l).handles == s.handles[h := Apply(s, l).handles[h]];
    }
  }

  lemma SizeWithout(m: map<string, nat>, k: string)
    requires k in m
    ensures |m - {k}| == |m| - 1
  {
    assert (m - {k}).Keys == m.Keys - {k};
    assert |m - {k}| == |(m - {k}).Keys| && |m| == |m.Keys|;
  }

  lemma SizeWith(m: map<string, nat>, k: string, h: nat)
    requires k !in m
    ensures |m[k := h]| == |m| + 1
  {
    assert m[k := h].Keys == m.Keys + {k};
    assert |m[k := h]| == |m[k := h].Keys| && |m| == |m.Keys|;
  }

  /** A server enters the map only by a winning Insert; it leaves by Delete or by the end of destroy's close. */
  function ServersChange(s: State, l: Label): int
    requires Enabled(s, l)
  {
    match l
    case Insert(t) => if KeyOf(OpOf(s, t)) in s.servers then 0 else 1
    case Delete(t) => if KeyOf(OpOf(s, t)) in s.servers then -1 else 0
    case Release(t, _) => if PointOf(s, t).after.ResumeSweep? then -1 else 0
    case _ => 0
  }

  lemma InsertServers(s: State, own: seq<Owner>, l: Label)
    requires OwnedBy(s, own) && Enabled(s, l) && l.Insert?
    ensures |Apply(s, l).servers| == |s.servers| + ServersChange(s, l)
  {
    var k := KeyOf(OpOf(s, l.t));
    if k in s.servers {
      assert KeyOk(s, own, k);
    } else {
      SizeWith(s.servers, k, PointOf(s, l.t).h);
    }
  }

  lemma DeleteServers(s: State, l: Label)
    requires Enabled(s, l) && l.Delete?
    ensures |Apply(s, l).servers| == |s.servers| + ServersChange(s, l)
  {
    var k := KeyOf(OpOf(s, l.t));
    if k in s.servers {
      SizeWithout(s.servers, k);
    }
  }

  lemma ReleaseServers(s: State, own: seq<Owner>, l: Label)
    requires OwnedBy(s, own) && Enabled(s, l) && l.Release?
    ensures |Apply(s, l).servers| == |s.servers| + ServersChange(s, l)
  {
    assert CallerOk(s, own, l.t);
    if PointOf(s, l.t).after.ResumeSweep? {
      SizeWithout(s.servers, PointOf(s, l.t).after.key);
    }
  }

  lemma SameServers(s: State, l: Label)
    requires Enabled(s, l) && !l.Insert? && !l.Delete? && !l.Release?
    ensures Apply(s, l).servers == s.servers && ServersChange(s, l) == 0
  {
  }

  lemma StepServers(s: State, own: seq<Owner>, l: Label)
    requires OwnedBy(s, own) && Enabled(s, l)
    ensures |Apply(s, l).servers| == |s.servers| + ServersChange(s, l)
  {
    match l
    case Insert(_) => InsertServers(s, own, l);
    case Delete(_) => DeleteServers(s, l);
    case Release(_, _) => ReleaseServers(s, own, l);
    case _ => SameServers(s, l);
  }

  /** What a caller's step takes off its own weight pays for the rest; only destroy's lock makes a caller heavier. */
  ghost predicate Pays(s: State, l: Label)
    requires Enabled(s, l) && ByCaller(l)
  {
    && l.t < |Apply(s, l).callers|
    && CallerWeight(Apply(s, l).callers[l.t]) + SERVER_WEIGHT * ServersChange(s, l) + (if l.Listen? then 1 else 0)
       < CallerWeight(s.callers[l.t]) + if l.Lock? then |s.servers| else 0
  }

  lemma CallerPays(s: State, own: seq<Owner>, l: Label)
    requires OwnedBy(s, own) && Enabled(s, l) && ByCaller(l) && !l.Invoke?
    ensures Pays(s, l)
  {
    if l.Lock? || l.Visit? {
      SweepPays(s, l);
    } else if l.CloseLn? || l.Wait? || l.Release? {
      ClosePays(s, l);
    } else {
      CallPays(s, own, l);
    }
  }

  lemma SweepPays(s: State, l: Label)
    requires Enabled(s, l) && (l.Lock? || l.Visit?)
    ensures Pays(s, l)
  {
    assert |s.servers.Keys| == |s.servers|;
  }

  lemma ClosePays(s: State, l: Label)
    requires Enabled(s, l) && (l.CloseLn? || l.Wait? || l.Release?)
    ensures Pays(s, l)
  {
  }

  lemma CallPays(s: State, own: seq<Owner>, l: Label)
    requires OwnedBy(s, own) && Enabled(s, l) && ByCaller(l) && !l.Invoke?
    requires !l.Lock? && !l.Visit? && !l.CloseLn? && !l.Wait? && !l.Release?
    ensures Pays(s, l)
  {
    assert CallerOk(s, own, l.t);
    if l.Insert? && KeyOf(OpOf(s, l.t)) in s.servers {
      assert KeyOk(s, own, KeyOf(OpOf(s, l.t)));
    }
  }

  /** Nobody becomes a destroy that has yet to lock; a lock is one fewer. */
  lemma LockersStep(s: State, l: Label)
    requires Enabled(s, l) && Internal(l)
    ensures Lockers(Apply(s, l)) <= Lockers(s) - if l.Lock? then 1 else 0
  {
    StepTotal(s, l, LockerWeight);
  }

  /** A server is added only by an attach that may add one, once. */
  lemma ServersStep(s: State, own: seq<Owner>, l: Label)
    requires OwnedBy(s, own) && Enabled(s, l) && Internal(l)
    ensures Servers(Apply(s, l)) <= Servers(s)
  {
    StepTotal(s, l, InserterWeight);
    StepServers(s, own, l);
  }

  lemma HandleWeightStep(s: State, own: seq<Owner>, l: Label, h: nat)
    requires OwnedBy(s, own) && Enabled(s, l) && Internal(l) && Touched(s, l) == Some(h)
    ensures h < |s.handles| && h < |Apply(s, l).handles|
    ensures HandleWeight(Apply(s, l).handles[h]) <=
            HandleWeight(s.handles[h]) + (if l.Listen? then 1 else if ByCaller(l) then 0 else -1)
  {
    if ByCaller(l) {
      assert CallerOk(s, own, l.t);
    }
    assert HandleOk(s, own, h);
  }

  /** Every internal step lowers the weights, but for a lock, which may add one for each server. */
  lemma WeightsStep(s: State, own: seq<Owner>, l: Label)
    requires OwnedBy(s, own) && Enabled(s, l) && Internal(l)
    ensures Weights(Apply(s, l)) < Weights(s) + if l.Lock? then |s.servers| else 0
  {
    StepTotal(s, l, CallerWeight);
    StepHandles(s, l);
    StepServers(s, own, l);
    if Touched(s, l).Some? {
      HandleWeightStep(s, own, l, Touched(s, l).value);
    }
    if ByCaller(l) {
      CallerPays(s, own, l);
    }
  }

  lemma ProductDrops(a: nat, b: nat, a': nat, b': nat)
    requires b' <= b
    ensures a' <= a ==> a' * b' <= a * b
    ensures a' < a ==> a' * b' + b <= a * b
  {
    if a' < a {
      assert (a' + 1) * b <= a * b;
    }
  }

  lemma MeasureDecreases(s: State, l: Label)
    requires Inv(s) && Enabled(s, l) && Internal(l)
    ensures Measure(Apply(s, l)) < Measure(s)
  {
    var own :| OwnedBy(s, own);
    WeightsStep(s, own, l);
    LockersStep(s, l);
    ServersStep(s, own, l);
    ProductDrops(Lockers(s), Servers(s), Lockers(Apply(s, l)), Servers(Apply(s, l)));
  }

  /** With no new calls and no new connections, a run is no longer than the measure. */
  lemma {:induction false} InternalRunsAreShort(s: State, ls: seq<Label>)
    requires Inv(s) && Run(s, ls) && AllInternal(ls)
    ensures |ls| + Measure(Exec(s, ls)) <= Measure(s)
    decreases |ls|
  {
    if ls == [] {
    } else {
      MeasureDecreases(s, ls[0]);
      StepInv(s, ls[0]);
      InternalRunsAreShort(Apply(s, ls[0]), ls[1..]);
    }
  }

  // ---- A step is always possible ----

  /** The caller is in close, waiting for a Serve that still has connections. */
  predicate WaitsForClients(s: State, t: nat) {
    && At(s, t) && PointOf(s, t).Closing? && PointOf(s, t).stage.AwaitDone?
    && Held(s, PointOf(s, t).h)
    && s.handles[PointOf(s, t).h].conns > 0
  }

  /** The next step of a caller that waits for nothing. */
  function NextStep(s: State, t: nat, key: string): Label
    requires At(s, t)
  {
    match PointOf(s, t)
    case FirstCheck => Check(t)
    case Opening => OpenFails(t)
    case Resolved => OpenFails(t)
    case Opened(_) => ListenFails(t)
    case Aborting(_) => Abort(t)
    case SecondCheck(_) => Insert(t)
    case ToDelete => Delete(t)
    case ToLock => Lock(t)
    case Sweep(todo) => if todo == {} then Unlock(t) else Visit(t, key)
    case RemoveDir => Remove(t, false, true)
    case Finished(_) => Return(t)
    case Closing(h, CloseListener, _, _) => CloseLn(t, false)
    case Closing(h, CloseStore, _, _) => Release(t, false)
    case Closing(h, AwaitDone, _, _) => if h < |s.handles| && s.handles[h].done then Wait(t) else ServeReturns(h)
  }

  lemma NextStepEnabled(s: State, own: seq<Owner>, t: nat, key: string)
    requires OwnedBy(s, own) && At(s, t) && (s.lock.None? || s.lock == Some(t)) && !WaitsForClients(s, t)
    requires PointOf(s, t).Sweep? && PointOf(s, t).todo != {} ==> key in PointOf(s, t).todo
    ensures Enabled(s, NextStep(s, t, key))
  {
    assert CallerOk(s, own, t);
    if Holds(s.callers[t]).Some? {
      assert HandleOk(s, own, Holds(s.callers[t]).value);
    }
  }

  /** A caller that needs no mutex, or holds it, or finds it free, can step unless it waits for clients. */
  lemma CallerCanStep(s: State, t: nat)
    requires Inv(s) && At(s, t) && (s.lock.None? || s.lock == Some(t)) && !WaitsForClients(s, t)
    ensures exists l :: Internal(l) && !l.Disconnect? && Enabled(s, l)
  {
    var own :| OwnedBy(s, own);
    assert CallerOk(s, own, t);
    var key := "";
    if PointOf(s, t).Sweep? && PointOf(s, t).todo != {} {
      key :| key in PointOf(s, t).todo;
    }
    NextStepEnabled(s, own, t, key);
    var l := NextStep(s, t, key);
    assert Internal(l) && !l.Disconnect?;
  }

  /**
   * No deadlock: while some caller is inside an operation an internal step is possible. The serve
   * goroutines never need the mutex, so a destroy that holds it while waiting on done is not stuck.
   */
  lemma SomeStepIsEnabled(s: State, t: nat)
    requires Reachable(s) && At(s, t)
    ensures exists l :: Internal(l) && Enabled(s, l)
  {
    ReachableInv(s);
    var own :| OwnedBy(s, own);
    var u := if s.lock.Some? then s.lock.value else t;
    if WaitsForClients(s, u) {
      assert Enabled(s, Disconnect(PointOf(s, u).h));
    } else {
      CallerCanStep(s, u);
    }
  }

  /** If only clients can move, then some caller in close is waiting for one to disconnect. */
  lemma OnlyClientsCanBlock(s: State, t: nat)
    requires Reachable(s) && At(s, t)
    requires forall l :: Internal(l) && Enabled(s, l) ==> l.Disconnect?
    ensures exists u :: WaitsForClients(s, u)
  {
    ReachableInv(s);
    var own :| OwnedBy(s, own);
    var u := if s.lock.Some? then s.lock.value else t;
    if !WaitsForClients(s, u) {
      CallerCanStep(s, u);
      assert false;
    }
  }

  /** So every run of internal steps that cannot be extended leaves every caller idle. */
  lemma EveryCallEnds(s: State, ls: seq<Label>)
    requires Reachable(s) && Run(s, ls) && AllInternal(ls)
    requires forall l :: Internal(l) ==> !Enabled(Exec(s, ls), l)
    ensures |ls| <= Measure(s)
    ensures Quiet(Exec(s, ls))
  {
    ReachableInv(s);
    InternalRunsAreShort(s, ls);
    StillReachable(s, ls);
    forall t | 0 <= t < |Exec(s, ls).callers| ensures Exec(s, ls).callers[t].Idle? {
      if Exec(s, ls).callers[t].Busy? {
        SomeStepIsEnabled(Exec(s, ls), t);
        assert false;
      }
    }
  }

  /** And such a run always exists: from any reachable state the calls in progress can all be finished. */
  lemma {:induction false} CallsCanFinish(s: State)
    requires Reachable(s)
    ensures exists ls :: Run(s, ls) && AllInternal(ls) && Quiet(Exec(s, ls))
    decreases Measure(s)
  {
    if Quiet(s) {
      assert Run(s, []) && Exec(s, []) == s && AllInternal([]);
    } else {
      var t :| 0 <= t < |s.callers| && s.callers[t].Busy?;
      SomeStepIsEnabled(s, t);
      var l :| Internal(l) && Enabled(s, l);
      ReachableInv(s);
      MeasureDecreases(s, l);
      OneStepRun(s, l);
      StillReachable(s, [l]);
      CallsCanFinish(Apply(s, l));
      var rest :| Run(Apply(s, l), rest) && AllInternal(rest) && Quiet(Exec(Apply(s, l), rest));
      RunAppend(s, [l], rest);
      assert AllInternal([l] + rest);
    }
  }
}
