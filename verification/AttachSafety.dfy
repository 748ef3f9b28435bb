/** Conservation of resources and safe closing, in every reachable state of the attach protocol. */
module AttachSafety {
  import opened Wrappers
  import opened AttachProtocol
  import opened AttachInvariant

  ghost predicate Reachable(s: State) {
    exists n, ls :: Run(Init(n), ls) && Exec(Init(n), ls) == s
  }

  lemma ReachableInv(s: State)
    requires Reachable(s)
    ensures Inv(s)
  {
    var n, ls :| Run(Init(n), ls) && Exec(Init(n), ls) == s;
    InitInv(n);
    RunInv(Init(n), ls);
  }

  lemma StillReachable(s: State, ls: seq<Label>)
    requires Reachable(s) && Run(s, ls)
    ensures Reachable(Exec(s, ls))
  {
    var n, ms :| Run(Init(n), ms) && Exec(Init(n), ms) == s;
    RunAppend(Init(n), ms, ls);
  }

  lemma ReachableStep(s: State, l: Label)
    requires Reachable(s) && Enabled(s, l)
    ensures Reachable(Apply(s, l))
  {
    OneStepRun(s, l);
    StillReachable(s, [l]);
  }

  /** Who answers for a handle: a server in the map that nobody is closing, or a caller. */
  datatype Holder = InMap(key: string) | InCall(t: nat)

  predicate BeingClosed(s: State, key: string) {
    s.lock.Some? && s.lock.value < |s.callers| && ClosingInMap(s.callers[s.lock.value], key)
  }

  predicate HeldBy(s: State, w: Holder, h: nat) {
    match w
    case InMap(k) => k in s.servers && s.servers[k] == h && !BeingClosed(s, k)
    case InCall(t) => t < |s.callers| && Holds(s.callers[t]) == Some(h)
  }

  /**
   * Conservation: a pool or image is open exactly while somebody holds its handle, the holder is
   * unique, and a listener never outlives the pool or image behind it. Nothing leaks on an error
   * path or a lost race, and nothing is shared.
   */
  lemma Conservation(s: State, h: nat)
    requires Reachable(s) && h < |s.handles|
    ensures s.handles[h].store <==> exists w :: HeldBy(s, w, h)
    ensures s.handles[h].ln.Open? ==> s.handles[h].store
    ensures forall w1, w2 :: HeldBy(s, w1, h) && HeldBy(s, w2, h) ==> w1 == w2
  {
    ReachableInv(s);
    var own :| OwnedBy(s, own);
    assert HandleOk(s, own, h);
    forall w | HeldBy(s, w, h)
      ensures own[h] == (match w case InMap(k) => ByMap(k) case InCall(t) => ByCallerAt(t))
      ensures s.handles[h].store
    {
      HolderOwns(s, own, w, h);
    }
    match own[h]
    case ByMap(k) =>
      if BeingClosed(s, k) {
        HolderOwns(s, own, InCall(s.lock.value), h);
        assert false;
      }
      assert HeldBy(s, InMap(k), h);
    case ByCallerAt(t) => assert HeldBy(s, InCall(t), h);
    case Nobody =>
  }

  lemma HolderOwns(s: State, own: seq<Owner>, w: Holder, h: nat)
    requires OwnedBy(s, own) && h < |s.handles|
    requires HeldBy(s, w, h) || (w.InCall? && s.lock == Some(w.t) && w.t < |s.callers| &&
                                 exists k :: k in s.servers && s.servers[k] == h && ClosingInMap(s.callers[w.t], k))
    ensures own[h] == (match w case InMap(k) => ByMap(k) case InCall(t) => ByCallerAt(t))
    ensures s.handles[h].store
  {
    assert HandleOk(s, own, h);
    match w
    case InMap(k) => assert KeyOk(s, own, k);
    case InCall(t) => assert CallerOk(s, own, t);
  }

  /** When every caller is idle, the open resources are exactly those of the servers in the map. */
  lemma QuietMeansOnlyServers(s: State, h: nat)
    requires Reachable(s) && h < |s.handles|
    requires forall t :: 0 <= t < |s.callers| ==> s.callers[t].Idle?
    ensures s.handles[h].store <==> h in s.servers.Values
    ensures s.handles[h].ln.Open? <==> h in s.servers.Values
    ensures h !in s.servers.Values ==> s.handles[h].conns == 0
  {
    ReachableInv(s);
    var own :| OwnedBy(s, own);
    assert HandleOk(s, own, h);
    if k :| k in s.servers && s.servers[k] == h {
      assert KeyOk(s, own, k);
    }
  }

  /**
   * Each close step acts on something still open, so nothing is closed twice; and a pool or image is
   * released only when Serve has returned or never ran, so never under a running connection handler.
   */
  lemma ClosedOnceAfterDrain(s: State, l: Label)
    requires Reachable(s) && Enabled(s, l)
    ensures l.CloseLn? ==> s.handles[PointOf(s, l.t).h].ln.Open?
    ensures l.Release? ==> var x := s.handles[PointOf(s, l.t).h]; x.store && !x.ln.Open? && x.done && x.conns == 0
    ensures l.Abort? ==> var x := s.handles[PointOf(s, l.t).h]; x.store && x.ln.Unopened? && x.conns == 0
  {
    ReachableInv(s);
    var own :| OwnedBy(s, own);
    if l.CloseLn? || l.Release? || l.Abort? {
      assert CallerOk(s, own, l.t);
      assert HandleOk(s, own, PointOf(s, l.t).h);
    }
  }

  /** A running connection handler always has its pool or image open and Serve waiting for it. */
  lemma HandlersRunOverOpenStore(s: State, h: nat)
    requires Reachable(s) && h < |s.handles| && s.handles[h].conns > 0
    ensures s.handles[h].store && !s.handles[h].done
  {
    ReachableInv(s);
    var own :| OwnedBy(s, own);
    assert HandleOk(s, own, h);
  }

  /** Servers under different keys have different handles and different addresses, unless one is being closed. */
  lemma ServersAreSeparate(s: State, k1: string, k2: string)
    requires Reachable(s) && k1 in s.servers && k2 in s.servers && k1 != k2
    requires !BeingClosed(s, k1) && !BeingClosed(s, k2)
    ensures var h1, h2 := s.servers[k1], s.servers[k2];
            && h1 < |s.handles| && h2 < |s.handles| && h1 != h2
            && Live(s.handles[h1]) && Live(s.handles[h2])
            && s.handles[h1].addr != s.handles[h2].addr
  {
    ReachableInv(s);
    var own :| OwnedBy(s, own);
    assert KeyOk(s, own, k1) && KeyOk(s, own, k2);
    assert HandleOk(s, own, s.servers[k1]) && HandleOk(s, own, s.servers[k2]);
  }

  /** Only the caller inside DestroyVolume's loop holds the mutex between steps. */
  lemma MutexHolderSweeps(s: State, t: nat)
    requires Reachable(s) && t < |s.callers|
    ensures s.lock == Some(t) <==> InSweep(s.callers[t])
  {
    ReachableInv(s);
    var own :| OwnedBy(s, own);
    assert CallerOk(s, own, t);
  }
}
