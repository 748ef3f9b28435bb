/** When a call fails: exactly when one of its own steps did, and only a step whose error it does not drop. */
module AttachOutcome {
  import opened Wrappers
  import opened AttachProtocol
  import opened AttachInvariant
  import opened AttachSafety
  import opened AttachHistory

  /**
   * The step fails in a way the call of t reports: an attach reports what it cannot open or listen on, a destroy the
   * removal of the directory, a detach the close of the listener and of a pool. What a lost race or a destroy
   * closes, and an image's close, are dropped.
   */
  predicate Fails(s: State, l: Label, t: nat)
    requires Enabled(s, l)
  {
    match l
    case OpenFails(u) => u == t
    case VolumeFails(u) => u == t
    case ListenFails(u) => u == t
    case Remove(u, fails, _) => u == t && fails
    case CloseLn(u, fails) => u == t && fails && OpOf(s, u).Detach?
    case Release(u, fails) => u == t && fails && OpOf(s, u).Detach? && s.handles[PointOf(s, u).h].mode.PoolMode?
    case _ => false
  }

  predicate SomeStepFails(s: State, ls: seq<Label>, t: nat)
    requires Run(s, ls)
    decreases |ls|
  {
    ls != [] && (Fails(s, ls[0], t) || SomeStepFails(Apply(s, ls[0]), ls[1..], t))
  }

  /** What the program point of a call says about its outcome so far. */
  predicate Failing(c: Caller) {
    c.Busy? &&
    match c.at
    case Aborting(_) => true
    case Closing(_, stage, failed, ReturnError) => !stage.CloseListener? && failed
    case Finished(r) => r.Failure?
    case _ => false
  }

  /** A call fails from the step on that fails. */
  lemma FailingStep(s: State, l: Label, t: nat)
    requires Inv(s) && Enabled(s, l) && At(s, t) && l != Return(t)
    ensures At(Apply(s, l), t)
    ensures Failing(Apply(s, l).callers[t]) <==> Failing(s.callers[t]) || Fails(s, l, t)
  {
    var own :| OwnedBy(s, own);
    if ByCaller(l) && l.t == t {
      assert CallerOk(s, own, t);
      if l.CloseLn? || l.Wait? || l.Release? {
        FailingClose(s, l);
      } else {
        FailingCall(s, own, l);
      }
    }
  }

  lemma FailingClose(s: State, l: Label)
    requires Enabled(s, l) && (l.CloseLn? || l.Wait? || l.Release?) && PointFits(OpOf(s, l.t), PointOf(s, l.t))
    ensures At(Apply(s, l), l.t)
    ensures Failing(Apply(s, l).callers[l.t]) <==> Failing(s.callers[l.t]) || Fails(s, l, l.t)
  {
  }

  lemma FailingCall(s: State, own: seq<Owner>, l: Label)
    requires OwnedBy(s, own) && Enabled(s, l) && ByCaller(l) && At(s, l.t) && !l.Return?
    requires !l.CloseLn? && !l.Wait? && !l.Release?
    ensures At(Apply(s, l), l.t)
    ensures Failing(Apply(s, l).callers[l.t]) <==> Failing(s.callers[l.t]) || Fails(s, l, l.t)
  {
    assert CallerOk(s, own, l.t);
  }

  lemma {:induction false} FailingRun(s: State, ls: seq<Label>, t: nat)
    requires Inv(s) && At(s, t) && Run(s, ls) && Return(t) !in ls
    ensures At(Exec(s, ls), t)
    ensures Failing(Exec(s, ls).callers[t]) <==> Failing(s.callers[t]) || SomeStepFails(s, ls, t)
    decreases |ls|
  {
    if ls == [] {
    } else {
      FailingStep(s, ls[0], t);
      StepInv(s, ls[0]);
      FailingRun(Apply(s, ls[0]), ls[1..], t);
    }
  }

  /**
   * A call of t, from its call to its return and whatever runs in between, returns a failure if and only if it is an
   * attach of the empty UUID or one of its own steps failed as above.
   */
  lemma FailsExactly(s: State, t: nat, op: Op, mid: seq<Label>)
    requires Reachable(s) && Enabled(s, Invoke(t, op))
    requires Run(Apply(s, Invoke(t, op)), mid) && Return(t) !in mid
    requires Enabled(Exec(Apply(s, Invoke(t, op)), mid), Return(t))
    ensures var s1 := Apply(s, Invoke(t, op));
            EventsOf(Exec(s1, mid), Return(t)) == [Returned(t, PointOf(Exec(s1, mid), t).r)]
            && (PointOf(Exec(s1, mid), t).r == Failure <==> (op.Attach? && op.volume == "") || SomeStepFails(s1, mid, t))
  {
    ReachableInv(s);
    StepInv(s, Invoke(t, op));
    FailingRun(Apply(s, Invoke(t, op)), mid, t);
  }

  /** A detach of a key that is not in the map returns success. */
  lemma AbsentDetachSucceeds(s: State, t: nat, mid: seq<Label>)
    requires Reachable(s) && Enabled(s, Delete(t)) && KeyOf(OpOf(s, t)) !in s.servers
    requires Run(Apply(s, Delete(t)), mid) && Return(t) !in mid
    ensures At(Exec(Apply(s, Delete(t)), mid), t) && PointOf(Exec(Apply(s, Delete(t)), mid), t) == Finished(Success)
  {
    DeleteDetaches(s, t);
    FinishedStays(Apply(s, Delete(t)), mid, t);
  }

  predicate NoCloseFails(ls: seq<Label>, t: nat) {
    forall i :: 0 <= i < |ls| ==> ls[i] != CloseLn(t, true) && ls[i] != Release(t, true)
  }

  /** So does one of which no close fails. */
  lemma CleanDetachSucceeds(s: State, t: nat, mid: seq<Label>)
    requires Reachable(s) && Enabled(s, Delete(t)) && NoCloseFails(mid, t)
    requires Run(Apply(s, Delete(t)), mid) && Return(t) !in mid
    requires Enabled(Exec(Apply(s, Delete(t)), mid), Return(t))
    ensures PointOf(Exec(Apply(s, Delete(t)), mid), t).r == Success
  {
    var s1 := Apply(s, Delete(t));
    DeleteDetaches(s, t);
    DetachStays(s1, mid, t);
    FailingRun(s1, mid, t);
    NoneFails(s1, mid, t);
  }

  lemma DeleteDetaches(s: State, t: nat)
    requires Reachable(s) && Enabled(s, Delete(t))
    ensures Inv(Apply(s, Delete(t))) && Detaching(Apply(s, Delete(t)), t) && !Failing(Apply(s, Delete(t)).callers[t])
    ensures KeyOf(OpOf(s, t)) !in s.servers ==> PointOf(Apply(s, Delete(t)), t) == Finished(Success)
  {
    ReachableInv(s);
    StepInv(s, Delete(t));
    var own :| OwnedBy(s, own);
    assert CallerOk(s, own, t);
  }

  predicate Detaching(s: State, t: nat) {
    At(s, t) && OpOf(s, t).Detach? && (PointOf(s, t).Closing? || (PointOf(s, t).Finished? && !PointOf(s, t).r.Address?))
  }

  lemma DetachingStep(s: State, l: Label, t: nat)
    requires Inv(s) && Enabled(s, l) && Detaching(s, t) && l != Return(t)
    ensures Detaching(Apply(s, l), t)
    ensures PointOf(s, t).Finished? ==> Apply(s, l).callers[t] == s.callers[t]
  {
    var own :| OwnedBy(s, own);
    assert CallerOk(s, own, t);
  }

  lemma {:induction false} DetachStays(s: State, ls: seq<Label>, t: nat)
    requires Inv(s) && Detaching(s, t) && Run(s, ls) && Return(t) !in ls
    ensures Detaching(Exec(s, ls), t)
    decreases |ls|
  {
    if ls == [] {
    } else {
      DetachingStep(s, ls[0], t);
      StepInv(s, ls[0]);
      DetachStays(Apply(s, ls[0]), ls[1..], t);
    }
  }

  lemma {:induction false} FinishedStays(s: State, ls: seq<Label>, t: nat)
    requires Inv(s) && Detaching(s, t) && PointOf(s, t).Finished? && Run(s, ls) && Return(t) !in ls
    ensures t < |Exec(s, ls).callers| && Exec(s, ls).callers[t] == s.callers[t]
    decreases |ls|
  {
    if ls == [] {
    } else {
      DetachingStep(s, ls[0], t);
      StepInv(s, ls[0]);
      FinishedStays(Apply(s, ls[0]), ls[1..], t);
    }
  }

  lemma {:induction false} NoneFails(s: State, ls: seq<Label>, t: nat)
    requires Inv(s) && Detaching(s, t) && Run(s, ls) && Return(t) !in ls
    requires NoCloseFails(ls, t)
    ensures !SomeStepFails(s, ls, t)
    decreases |ls|
  {
    if ls == [] {
    } else {
      DetachingStep(s, ls[0], t);
      StepInv(s, ls[0]);
      NoneFails(Apply(s, ls[0]), ls[1..], t);
    }
  }
}
