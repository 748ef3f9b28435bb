/** What a destroy guarantees about its volume, and what a racing attach can undo. */
module AttachDestroy {
  import opened Wrappers
  import opened Keys
  import opened AttachProtocol
  import opened AttachInvariant
  import opened AttachSafety
  import opened AttachHistory

  predicate Serves(s: State, volume: string) {
    exists k :: k in s.servers && HasVolumePrefix(k, volume)
  }

  /** When destroy's loop has visited every key it listed, no server of its volume is left in the map. */
  lemma DestroyEmptiesVolume(s: State, l: Label)
    requires Reachable(s) && Enabled(s, l) && l.Unlock?
    ensures Apply(s, l).lock.None? && !Serves(Apply(s, l), OpOf(s, l.t).volume)
  {
    ReachableInv(s);
    var own :| OwnedBy(s, own);
    assert CallerOk(s, own, l.t);
    assert ToVisit(PointOf(s, l.t)) == {};
  }

  /** Attach points that no longer need the volume's files: its store is open, or its image is named. */
  predicate PastFiles(at: Point) {
    at.Resolved? || at.Opened? || at.SecondCheck?
  }

  /** Attach points from which a server may still be inserted. */
  predicate CanInsertAt(at: Point) {
    at.FirstCheck? || at.Opening? || PastFiles(at)
  }

  /** The caller's attach of the volume may still insert a server, if it finds the files it needs. */
  predicate MayInsert(c: Caller, volume: string) {
    && c.Busy? && c.op.Attach? && HasVolumePrefix(KeyOf(c.op), volume)
    && CanInsertAt(c.at)
  }

  predicate InFlight(s: State, volume: string) {
    exists t :: 0 <= t < |s.callers| && MayInsert(s.callers[t], volume)
  }

  /** It can do so with the files there are now. */
  predicate CanInsert(s: State, c: Caller, volume: string) {
    MayInsert(c, volume) && (PastFiles(c.at) || c.op.volume in s.files)
  }

  predicate Threatened(s: State, volume: string) {
    exists t :: 0 <= t < |s.callers| && CanInsert(s, s.callers[t], volume)
  }

  predicate NoNewAttach(ls: seq<Label>, volume: string) {
    forall i :: 0 <= i < |ls| ==> !StartsAttach(ls[i], volume)
  }

  predicate NoProvision(ls: seq<Label>) {
    forall i :: 0 <= i < |ls| ==> !ls[i].Provision?
  }

  predicate StartsAttach(l: Label, volume: string) {
    l.Invoke? && l.op.Attach? && HasVolumePrefix(KeyOf(l.op), volume)
  }

  /** Only an attach that may insert adds a server. */
  lemma ServesStep(s: State, l: Label, volume: string)
    requires Inv(s) && Enabled(s, l) && !Serves(s, volume) && !Threatened(s, volume)
    ensures !Serves(Apply(s, l), volume)
  {
    if l.Insert? {
      var own :| OwnedBy(s, own);
      assert CallerOk(s, own, l.t);
      assert !CanInsert(s, s.callers[l.t], volume);
    }
    forall k | k in Apply(s, l).servers ensures !HasVolumePrefix(k, volume) {
      assert k in s.servers || (l.Insert? && k == KeyOf(OpOf(s, l.t)));
    }
  }

  /** A caller's operation changes only when it calls or returns. */
  lemma OpKept(s: State, l: Label)
    requires Enabled(s, l) && ByCaller(l) && !l.Invoke? && !l.Return?
    ensures |Apply(s, l).callers| == |s.callers|
    ensures Apply(s, l).callers[l.t].Busy? && Apply(s, l).callers[l.t].op == OpOf(s, l.t)
    ensures forall t :: 0 <= t < |s.callers| && t != l.t ==> Apply(s, l).callers[t] == s.callers[t]
  {
  }

  /** An attach that can no longer insert stays so. */
  lemma PointKept(s: State, l: Label)
    requires Enabled(s, l) && ByCaller(l) && !l.Invoke? && !l.Return? && !CanInsertAt(PointOf(s, l.t))
    ensures |Apply(s, l).callers| == |s.callers| && Apply(s, l).callers[l.t].Busy?
    ensures !CanInsertAt(Apply(s, l).callers[l.t].at)
  {
  }

  /** Only a new attach becomes one that may insert. */
  lemma MayInsertStep(s: State, l: Label, volume: string)
    requires Enabled(s, l) && ByCaller(l) && !StartsAttach(l, volume)
    requires !MayInsert(s.callers[l.t], volume)
    ensures |Apply(s, l).callers| == |s.callers|
    ensures !MayInsert(Apply(s, l).callers[l.t], volume)
    ensures forall t :: 0 <= t < |s.callers| && t != l.t ==> Apply(s, l).callers[t] == s.callers[t]
  {
    if !l.Invoke? && !l.Return? {
      OpKept(s, l);
      if !CanInsertAt(PointOf(s, l.t)) {
        PointKept(s, l);
      }
    }
  }

  /** Without new files an attach that lacks its own does not get past needing them. */
  lemma CanInsertStep(s: State, l: Label, volume: string, t: nat)
    requires Enabled(s, l) && !StartsAttach(l, volume) && !l.Provision? && t < |s.callers|
    requires !CanInsert(s, s.callers[t], volume)
    ensures |Apply(s, l).callers| == |s.callers| && !CanInsert(Apply(s, l), Apply(s, l).callers[t], volume)
  {
    if ByCaller(l) && l.t == t {
      if !MayInsert(s.callers[t], volume) {
        MayInsertStep(s, l, volume);
      } else {
        OwnFilesStep(s, l);
      }
    } else {
      OthersKept(s, l, t);
    }
  }

  lemma OwnFilesStep(s: State, l: Label)
    requires Enabled(s, l) && ByCaller(l) && !l.Invoke? && OpOf(s, l.t).Attach?
    requires PointOf(s, l.t).FirstCheck? || PointOf(s, l.t).Opening?
    requires OpOf(s, l.t).volume !in s.files
    ensures |Apply(s, l).callers| == |s.callers| && Apply(s, l).files == s.files
    ensures var c := Apply(s, l).callers[l.t]; c.Busy? && c.op == OpOf(s, l.t) && !PastFiles(c.at)
  {
  }

  lemma OthersKept(s: State, l: Label, t: nat)
    requires Enabled(s, l) && !l.Provision? && t < |s.callers| && !(ByCaller(l) && l.t == t)
    ensures |Apply(s, l).callers| == |s.callers| && Apply(s, l).callers[t] == s.callers[t]
    ensures Apply(s, l).files <= s.files
  {
  }

  lemma StaysEmptyStep(s: State, l: Label, volume: string)
    requires Inv(s) && Enabled(s, l) && !StartsAttach(l, volume) && !l.Provision?
    requires !Serves(s, volume) && !Threatened(s, volume)
    ensures !Serves(Apply(s, l), volume) && !Threatened(Apply(s, l), volume)
  {
    ServesStep(s, l, volume);
    forall t | 0 <= t < |Apply(s, l).callers| ensures !CanInsert(Apply(s, l), Apply(s, l).callers[t], volume) {
      CallersStay(s, l);
      CanInsertStep(s, l, volume, t);
    }
  }

  lemma {:induction false} StaysEmpty(s: State, ls: seq<Label>, volume: string)
    requires Inv(s) && Run(s, ls) && NoNewAttach(ls, volume) && NoProvision(ls)
    requires !Serves(s, volume) && !Threatened(s, volume)
    ensures !Serves(Exec(s, ls), volume)
    decreases |ls|
  {
    if ls == [] {
    } else {
      StaysEmptyStep(s, ls[0], volume);
      StepInv(s, ls[0]);
      StaysEmpty(Apply(s, ls[0]), ls[1..], volume);
    }
  }

  /** With nothing in flight, new files change nothing. */
  lemma StaysQuietStep(s: State, l: Label, volume: string)
    requires Inv(s) && Enabled(s, l) && !StartsAttach(l, volume)
    requires !Serves(s, volume) && !InFlight(s, volume)
    ensures !Serves(Apply(s, l), volume) && !InFlight(Apply(s, l), volume)
  {
    ServesStep(s, l, volume);
    if ByCaller(l) {
      assert !MayInsert(s.callers[l.t], volume);
      MayInsertStep(s, l, volume);
      assert forall t :: 0 <= t < |s.callers| ==> !MayInsert(s.callers[t], volume);
    }
  }

  lemma {:induction false} StaysQuiet(s: State, ls: seq<Label>, volume: string)
    requires Inv(s) && Run(s, ls) && NoNewAttach(ls, volume)
    requires !Serves(s, volume) && !InFlight(s, volume)
    ensures !Serves(Exec(s, ls), volume)
    decreases |ls|
  {
    if ls == [] {
    } else {
      StaysQuietStep(s, ls[0], volume);
      StepInv(s, ls[0]);
      StaysQuiet(Apply(s, ls[0]), ls[1..], volume);
    }
  }

  function MaxAddr(xs: seq<Handle>): nat {
    if xs == [] then 0 else if xs[0].addr > MaxAddr(xs[1..]) then xs[0].addr else MaxAddr(xs[1..])
  }

  lemma {:induction false} MaxAddrIsMax(xs: seq<Handle>, h: nat)
    requires h < |xs|
    ensures xs[h].addr <= MaxAddr(xs)
  {
    if h == 0 {
    } else {
      MaxAddrIsMax(xs[1..], h - 1);
    }
  }

  function NextTowardsInsert(s: State, t: nat): Label
    requires At(s, t)
  {
    match PointOf(s, t)
    case FirstCheck => Check(t)
    case Opening => OpenStore(t, PoolMode)
    case Resolved => OpenStore(t, OverlayMode)
    case Opened(_) => Listen(t, MaxAddr(s.handles) + 1)
    case _ => Insert(t)
  }

  /** Each of those steps is possible, and brings the attach closer or inserts its server. */
  lemma TowardsInsert(s: State, own: seq<Owner>, t: nat, volume: string)
    requires OwnedBy(s, own) && s.lock.None? && !Serves(s, volume)
    requires t < |s.callers| && CanInsert(s, s.callers[t], volume)
    ensures Enabled(s, NextTowardsInsert(s, t))
    ensures var s1 := Apply(s, NextTowardsInsert(s, t));
            if PointOf(s, t).SecondCheck? then KeyOf(OpOf(s, t)) in s1.servers
            else s1.servers == s.servers && s1.lock.None? && |s1.callers| == |s.callers|
                 && CanInsert(s1, s1.callers[t], volume) && StepsLeft(s1.callers[t]) < StepsLeft(s.callers[t])
  {
    assert CallerOk(s, own, t);
    forall h | 0 <= h < |s.handles| ensures s.handles[h].addr <= MaxAddr(s.handles) {
      MaxAddrIsMax(s.handles, h);
    }
    if Holds(s.callers[t]).Some? {
      assert HandleOk(s, own, Holds(s.callers[t]).value);
    }
    assert KeyOf(OpOf(s, t)) !in s.servers;
  }

  function StepsLeft(c: Caller): nat {
    if c.Idle? then 0
    else match c.at case FirstCheck => 5 case Opening => 4 case Resolved => 3 case Opened(_) => 2 case _ => 1
  }

  /** An attach that has what it needs can go on to insert its server. */
  lemma {:induction false} ThreatCanInsert(s: State, t: nat, volume: string) returns (ls: seq<Label>)
    requires Inv(s) && s.lock.None? && !Serves(s, volume)
    requires t < |s.callers| && CanInsert(s, s.callers[t], volume)
    ensures Run(s, ls) && NoNewAttach(ls, volume) && NoProvision(ls) && Serves(Exec(s, ls), volume)
    decreases StepsLeft(s.callers[t])
  {
    var own :| OwnedBy(s, own);
    TowardsInsert(s, own, t, volume);
    var l := NextTowardsInsert(s, t);
    var s1 := Apply(s, l);
    var rest: seq<Label> := [];
    if PointOf(s, t).SecondCheck? {
      assert Exec(s1, rest) == s1 && Serves(s1, volume);
    } else {
      StepInv(s, l);
      rest := ThreatCanInsert(s1, t, volume);
    }
    Then(s, l, rest);
    ls := [l] + rest;
  }

  /** One that lacks its files can, once the volume is provisioned again. */
  lemma InFlightCanInsert(s: State, t: nat, volume: string) returns (ls: seq<Label>)
    requires Inv(s) && s.lock.None? && !Serves(s, volume)
    requires t < |s.callers| && MayInsert(s.callers[t], volume)
    ensures Run(s, ls) && NoNewAttach(ls, volume) && Serves(Exec(s, ls), volume)
  {
    var l := Provision(s.callers[t].op.volume);
    var s1 := Apply(s, l);
    StepInv(s, l);
    var rest := ThreatCanInsert(s1, t, volume);
    Then(s, l, rest);
    ls := [l] + rest;
  }

  /**
   * After a destroy, with no later attach of the volume and nothing provisioned, no server of it ever appears
   * again if and only if no attach of it in flight has opened its store or image, named its image, or still
   * finds the files of the volume it attaches.
   */
  lemma DestroyedStaysEmptyExactly(s: State, volume: string)
    requires Reachable(s) && s.lock.None? && !Serves(s, volume)
    ensures (forall ls :: Run(s, ls) && NoNewAttach(ls, volume) && NoProvision(ls) ==> !Serves(Exec(s, ls), volume))
            <==> !Threatened(s, volume)
  {
    ReachableInv(s);
    if Threatened(s, volume) {
      var t :| 0 <= t < |s.callers| && CanInsert(s, s.callers[t], volume);
      var ls := ThreatCanInsert(s, t, volume);
      assert Run(s, ls);
    } else {
      forall ls | Run(s, ls) && NoNewAttach(ls, volume) && NoProvision(ls) ensures !Serves(Exec(s, ls), volume) {
        StaysEmpty(s, ls, volume);
      }
    }
  }

  /** If volumes may be provisioned again, the condition is that no attach of it is in flight at all. */
  lemma ReprovisionedStaysEmptyExactly(s: State, volume: string)
    requires Reachable(s) && s.lock.None? && !Serves(s, volume)
    ensures (forall ls :: Run(s, ls) && NoNewAttach(ls, volume) ==> !Serves(Exec(s, ls), volume)) <==> !InFlight(s, volume)
  {
    ReachableInv(s);
    if InFlight(s, volume) {
      var t :| 0 <= t < |s.callers| && MayInsert(s.callers[t], volume);
      var ls := InFlightCanInsert(s, t, volume);
      assert Run(s, ls);
    } else {
      forall ls | Run(s, ls) && NoNewAttach(ls, volume) ensures !Serves(Exec(s, ls), volume) {
        StaysQuiet(s, ls, volume);
      }
    }
  }

  /** For '|'-free UUIDs, once destroy has removed the files, only an attach past needing them is left to fear. */
  lemma ThreatsAfterRemoval(s: State, volume: string)
    requires volume !in s.files && '|' !in volume
    requires forall t :: 0 <= t < |s.callers| && s.callers[t].Busy? ==> '|' !in s.callers[t].op.volume
    ensures Threatened(s, volume) <==>
            exists t :: 0 <= t < |s.callers| && MayInsert(s.callers[t], volume) && PastFiles(s.callers[t].at)
  {
    forall t | 0 <= t < |s.callers| && MayInsert(s.callers[t], volume)
      ensures s.callers[t].op.volume == volume
    {
      var op := s.callers[t].op;
      PrefixIsolatesVolume(op.volume, op.host, volume);
    }
    if t :| 0 <= t < |s.callers| && MayInsert(s.callers[t], volume) && PastFiles(s.callers[t].at) {
      assert CanInsert(s, s.callers[t], volume);
    }
  }

  /** Destroy touches only its own volume: while it sweeps, every other volume's server stays in the map, serving. */
  lemma SweepSparesOthers(s: State, l: Label, t: nat, k: string)
    requires Reachable(s) && Enabled(s, l) && s.lock == Some(t) && k in s.servers
    requires At(s, t) ==> !HasVolumePrefix(k, OpOf(s, t).volume)
    ensures k in Apply(s, l).servers && Apply(s, l).servers[k] == s.servers[k] < |Apply(s, l).handles|
    ensures Live(Apply(s, l).handles[s.servers[k]])
  {
    ReachableInv(s);
    var own :| OwnedBy(s, own);
    assert CallerOk(s, own, t) && KeyOk(s, own, k);
    var h := s.servers[k];
    assert own[h] == ByMap(k) && HandleOk(s, own, h);
    if ByCaller(l) {
      assert CallerOk(s, own, l.t);
    }
    if l.Release? {
      KeptByRelease(s, own, l, k, h);
    } else {
      KeptBySweep(s, l, k, h);
    }
  }

  /** The end of a close drops only the key and the handle it closed. */
  lemma KeptByRelease(s: State, own: seq<Owner>, l: Label, k: string, h: nat)
    requires OwnedBy(s, own) && Enabled(s, l) && l.Release? && k in s.servers && s.servers[k] == h < |s.handles|
    requires own[h] == ByMap(k)
    ensures k in Apply(s, l).servers && Apply(s, l).servers[k] == h < |Apply(s, l).handles|
    ensures Apply(s, l).handles[h] == s.handles[h]
  {
    assert CallerOk(s, own, l.t);
  }

  /** With the mutex held, only the end of a close drops a key, and only a holder's step changes what a handle has open. */
  lemma KeptBySweep(s: State, l: Label, k: string, h: nat)
    requires Enabled(s, l) && s.lock.Some? && !l.Release? && k in s.servers && s.servers[k] == h < |s.handles|
    requires ByCaller(l) ==> Holds(s.callers[l.t]) != Some(h)
    ensures k in Apply(s, l).servers && Apply(s, l).servers[k] == h < |Apply(s, l).handles|
    ensures Live(s.handles[h]) ==> Live(Apply(s, l).handles[h])
  {
  }

  /** Nobody but destroy itself ends the sweep, and meanwhile the map only loses keys of its volume. */
  lemma HeldStep(s: State, l: Label, t: nat)
    requires Reachable(s) && Enabled(s, l) && s.lock == Some(t) && At(s, t) && l != Unlock(t)
    ensures Apply(s, l).lock == Some(t) && At(Apply(s, l), t) && OpOf(Apply(s, l), t) == OpOf(s, t)
    ensures Apply(s, l).servers.Keys <= s.servers.Keys
  {
    ReachableInv(s);
    var own :| OwnedBy(s, own);
    HolderStep(s, own, l, t);
    MapShrinks(s, l);
  }

  lemma MapShrinks(s: State, l: Label)
    requires Enabled(s, l) && s.lock.Some?
    ensures Apply(s, l).servers.Keys <= s.servers.Keys
  {
  }

  /** The mutex stays with its holder, whose operation does not change. */
  lemma HolderStep(s: State, own: seq<Owner>, l: Label, t: nat)
    requires OwnedBy(s, own) && Enabled(s, l) && s.lock == Some(t) && At(s, t) && l != Unlock(t)
    ensures Apply(s, l).lock == Some(t) && At(Apply(s, l), t) && OpOf(Apply(s, l), t) == OpOf(s, t)
  {
    assert InSweep(s.callers[t]) && CallerOk(s, own, t);
    if ByCaller(l) {
      assert CallerOk(s, own, l.t);
      if l.t == t {
        assert !l.Invoke? && !l.Return?;
        OpKept(s, l);
      }
    }
  }

  lemma {:induction false} HeldRun(s: State, ls: seq<Label>, t: nat)
    requires Reachable(s) && s.lock == Some(t) && At(s, t) && Run(s, ls) && Unlock(t) !in ls
    ensures var s', v := Exec(s, ls), OpOf(s, t).volume;
            && Reachable(s') && s'.lock == Some(t) && At(s', t) && OpOf(s', t) == OpOf(s, t)
            && s'.servers.Keys <= s.servers.Keys
            && forall k :: k in s.servers && !HasVolumePrefix(k, v) ==> k in s'.servers && s'.servers[k] == s.servers[k]
    decreases |ls|
  {
    if ls == [] {
    } else {
      HeldStep(s, ls[0], t);
      ReachableStep(s, ls[0]);
      forall k | k in s.servers && !HasVolumePrefix(k, OpOf(s, t).volume)
        ensures k in Apply(s, ls[0]).servers && Apply(s, ls[0]).servers[k] == s.servers[k]
      {
        SweepSparesOthers(s, ls[0], t, k);
      }
      HeldRun(Apply(s, ls[0]), ls[1..], t);
    }
  }

  /** The handle is still the map's, is being closed by the destroy, or has been released. */
  predicate OfMapOrSweep(own: seq<Owner>, t: nat, h: nat) {
    h < |own| && (own[h].ByMap? || own[h] == ByCallerAt(t) || own[h].Nobody?)
  }

  ghost predicate InSweepOf(s: State, t: nat, h: nat) {
    exists own :: OwnedBy(s, own) && OfMapOrSweep(own, t, h)
  }

  /** Only destroy takes a handle from the map while it holds the mutex, and it releases what it takes. */
  lemma InSweepStep(s: State, l: Label, t: nat, h: nat)
    requires Inv(s) && Enabled(s, l) && s.lock == Some(t) && InSweepOf(s, t, h)
    ensures InSweepOf(Apply(s, l), t, h)
  {
    var own :| OwnedBy(s, own) && OfMapOrSweep(own, t, h);
    OwnersStep(s, own, l);
    if l.Visit? {
      assert CallerOk(s, own, l.t);
    }
    assert OfMapOrSweep(NextOwners(s, own, l), t, h);
  }

  lemma {:induction false} InSweepRun(s: State, ls: seq<Label>, t: nat, h: nat)
    requires Reachable(s) && s.lock == Some(t) && At(s, t) && Run(s, ls) && Unlock(t) !in ls && InSweepOf(s, t, h)
    ensures InSweepOf(Exec(s, ls), t, h)
    decreases |ls|
  {
    if ls == [] {
    } else {
      ReachableInv(s);
      InSweepStep(s, ls[0], t, h);
      HeldStep(s, ls[0], t);
      ReachableStep(s, ls[0]);
      InSweepRun(Apply(s, ls[0]), ls[1..], t, h);
    }
  }

  /** When destroy locks, every server's handle is the map's. */
  lemma ServedBeforeLock(s: State, t: nat, k: string)
    requires Reachable(s) && Enabled(s, Lock(t)) && k in s.servers
    ensures InSweepOf(Apply(s, Lock(t)), t, s.servers[k])
  {
    ReachableInv(s);
    var own :| OwnedBy(s, own);
    assert KeyOk(s, own, k);
    OwnersStep(s, own, Lock(t));
    assert NextOwners(s, own, Lock(t)) == own && OfMapOrSweep(own, t, s.servers[k]);
  }

  /** When it unlocks, a handle of the sweep whose key is gone has been released. */
  lemma ReleasedAtUnlock(s: State, t: nat, h: nat)
    requires Enabled(s, Unlock(t)) && InSweepOf(s, t, h)
    requires forall k :: k in s.servers ==> s.servers[k] != h
    ensures h < |s.handles| && Released(s.handles[h])
  {
    var own :| OwnedBy(s, own) && OfMapOrSweep(own, t, h);
    assert HandleOk(s, own, h);
  }

  /** A handle serves the key it was opened for, and keeps it. */
  lemma HandleKeyKept(s: State, l: Label, h: nat)
    requires Enabled(s, l) && h < |s.handles|
    ensures h < |Apply(s, l).handles| && Apply(s, l).handles[h].key == s.handles[h].key
  {
  }

  lemma {:induction false} HandleKeyKeptRun(s: State, ls: seq<Label>, h: nat)
    requires Run(s, ls) && h < |s.handles|
    ensures h < |Exec(s, ls).handles| && Exec(s, ls).handles[h].key == s.handles[h].key
    decreases |ls|
  {
    if ls == [] {
    } else {
      HandleKeyKept(s, ls[0], h);
      HandleKeyKeptRun(Apply(s, ls[0]), ls[1..], h);
    }
  }

  /**
   * Destroy, from its lock to its unlock and whatever others do in between: exactly the keys of its volume
   * leave the map, each of their servers is closed and its pool or image released, and every other server
   * keeps its handle and still serves.
   */
  lemma DestroyRemovesExactly(s: State, t: nat, mid: seq<Label>)
    requires Reachable(s) && Enabled(s, Lock(t))
    requires Run(Apply(s, Lock(t)), mid) && Unlock(t) !in mid
    requires Enabled(Exec(Apply(s, Lock(t)), mid), Unlock(t))
    ensures var s', v := Apply(Exec(Apply(s, Lock(t)), mid), Unlock(t)), OpOf(s, t).volume;
            && (forall k :: k in s'.servers <==> k in s.servers && !HasVolumePrefix(k, v))
            && (forall k :: k in s'.servers ==> s'.servers[k] == s.servers[k] < |s'.handles| && Live(s'.handles[s.servers[k]]))
            && (forall k :: k in s.servers && HasVolumePrefix(k, v) ==>
                  s.servers[k] < |s'.handles| && Released(s'.handles[s.servers[k]]))
  {
    var s1, v := Apply(s, Lock(t)), OpOf(s, t).volume;
    ReachableStep(s, Lock(t));
    HeldRun(s1, mid, t);
    var s2 := Exec(s1, mid);
    var s' := Apply(s2, Unlock(t));
    DestroyEmptiesVolume(s2, Unlock(t));
    forall k | k in s.servers && !HasVolumePrefix(k, v)
      ensures k in s'.servers && s'.servers[k] == s.servers[k] < |s'.handles| && Live(s'.handles[s.servers[k]])
    {
      SweepSparesOthers(s2, Unlock(t), t, k);
    }
    assert forall k :: k in s'.servers ==> !HasVolumePrefix(k, v);
    forall k | k in s.servers && HasVolumePrefix(k, v)
      ensures s.servers[k] < |s'.handles| && Released(s'.handles[s.servers[k]])
    {
      SweptIsReleased(s, t, mid, k);
    }
  }

  lemma SweptIsReleased(s: State, t: nat, mid: seq<Label>, k: string)
    requires Reachable(s) && Enabled(s, Lock(t)) && k in s.servers && HasVolumePrefix(k, OpOf(s, t).volume)
    requires Run(Apply(s, Lock(t)), mid) && Unlock(t) !in mid
    requires Enabled(Exec(Apply(s, Lock(t)), mid), Unlock(t))
    ensures var s2 := Exec(Apply(s, Lock(t)), mid); s.servers[k] < |s2.handles| && Released(s2.handles[s.servers[k]])
  {
    var s1, h := Apply(s, Lock(t)), s.servers[k];
    var s2 := Exec(s1, mid);
    ReachableStep(s, Lock(t));
    HeldRun(s1, mid, t);
    DestroyEmptiesVolume(s2, Unlock(t));
    ServedBeforeLock(s, t, k);
    InSweepRun(s1, mid, t, h);
    KeyOfHandle(s, k);
    HandleKeyKeptRun(s1, mid, h);
    forall x | x in s2.servers ensures s2.servers[x] != h {
      KeyOfHandle(s2, x);
      assert !HasVolumePrefix(x, OpOf(s2, t).volume);
    }
    ReleasedAtUnlock(s2, t, h);
  }

  lemma KeyOfHandle(s: State, k: string)
    requires Reachable(s) && k in s.servers
    ensures s.servers[k] < |s.handles| && s.handles[s.servers[k]].key == k
  {
    ReachableInv(s);
    var own :| OwnedBy(s, own);
    assert KeyOk(s, own, k);
  }

  // ---- The race ----

  /** A step put in front of a run. */
  lemma Then(s: State, l: Label, ls: seq<Label>)
    requires Enabled(s, l) && Run(Apply(s, l), ls)
    ensures Run(s, [l] + ls) && Exec(s, [l] + ls) == Exec(Apply(s, l), ls)
    ensures History(s, [l] + ls) == EventsOf(s, l) + History(Apply(s, l), ls)
  {
    assert ([l] + ls)[1..] == ls;
  }

  lemma {:induction false} HistoryAppend(s: State, xs: seq<Label>, ys: seq<Label>)
    requires Run(s, xs) && Run(Exec(s, xs), ys) && Run(s, xs + ys)
    ensures History(s, xs + ys) == History(s, xs) + History(Exec(s, xs), ys)
    decreases |xs|
  {
    if xs == [] {
      assert xs + ys == ys;
      assert History(s, xs) == [];
    } else {
      var s1, rest := Apply(s, xs[0]), xs[1..];
      assert (xs + ys)[1..] == rest + ys && (xs + ys)[0] == xs[0];
      HistoryAppend(s1, rest, ys);
      EventsAssoc(EventsOf(s, xs[0]), History(s1, rest), History(Exec(s1, rest), ys));
    }
  }

  lemma EventsAssoc(a: seq<Event>, b: seq<Event>, c: seq<Event>)
    ensures a + (b + c) == (a + b) + c
  {
  }

  lemma RunAndHistory(s: State, xs: seq<Label>, ys: seq<Label>) returns (ls: seq<Label>)
    requires Run(s, xs) && Run(Exec(s, xs), ys)
    ensures Run(s, ls) && Exec(s, ls) == Exec(Exec(s, xs), ys)
    ensures History(s, ls) == History(s, xs) + History(Exec(s, xs), ys)
  {
    ls := xs + ys;
    RunAppend(s, xs, ys);
    HistoryAppend(s, xs, ys);
  }

  lemma TwoSteps(s: State, l1: Label, l2: Label) returns (ls: seq<Label>)
    requires Enabled(s, l1) && Enabled(Apply(s, l1), l2)
    ensures Run(s, ls) && Exec(s, ls) == Apply(Apply(s, l1), l2)
    ensures History(s, ls) == EventsOf(s, l1) + EventsOf(Apply(s, l1), l2)
  {
    Then(Apply(s, l1), l2, []);
    Then(s, l1, [l2] + []);
    ls := [l1] + ([l2] + []);
  }

  /** Caller 0 attaches (v, h), caller 1 destroys v, and this is the handle of the attach. */
  function World(attach: Caller, destroy: Caller, handles: seq<Handle>, files: set<string>): State {
    State([attach, destroy], handles, map[], None, files)
  }

  function Own(v: string, h: string): Handle {
    Handle(AttachKey(v, h), PoolMode, 0, Unopened, true, 0, false)
  }

  /** The attach is serving but has not inserted; the destroy is called, or done. */
  function BothCalled(v: string, h: string): State {
    World(Busy(Attach(v, h), SecondCheck(0)), Busy(Destroy(v), ToLock), [Own(v, h).(ln := Open, addr := 1)], {v})
  }

  function DestroyDone(v: string, h: string): State {
    World(Busy(Attach(v, h), SecondCheck(0)), Idle, [Own(v, h).(ln := Open, addr := 1)], {})
  }

  /** The volume is provisioned and the attach is called. */
  lemma AttachCalled(v: string, h: string) returns (ls: seq<Label>)
    requires v != ""
    ensures Run(Init(2), ls) && Exec(Init(2), ls) == World(Busy(Attach(v, h), FirstCheck), Idle, [], {v})
    ensures History(Init(2), ls) == [Called(0, Attach(v, h))]
  {
    ls := TwoSteps(Init(2), Provision(v), Invoke(0, Attach(v, h)));
  }

  /** It passes its first check and opens the pool. */
  lemma AttachOpens(v: string, h: string) returns (ls: seq<Label>)
    requires v != ""
    ensures Run(Init(2), ls) && Exec(Init(2), ls) == World(Busy(Attach(v, h), Opened(0)), Idle, [Own(v, h)], {v})
    ensures History(Init(2), ls) == [Called(0, Attach(v, h))]
  {
    var call := AttachCalled(v, h);
    var s := World(Busy(Attach(v, h), FirstCheck), Idle, [], {v});
    var opens := TwoSteps(s, Check(0), OpenStore(0, PoolMode));
    ls := RunAndHistory(Init(2), call, opens);
  }

  /** It listens; the destroy is called. */
  lemma BothCall(v: string, h: string) returns (ls: seq<Label>)
    requires v != ""
    ensures Run(Init(2), ls) && Exec(Init(2), ls) == BothCalled(v, h)
    ensures History(Init(2), ls) == [Called(0, Attach(v, h)), Called(1, Destroy(v))]
  {
    var opens := AttachOpens(v, h);
    var s := World(Busy(Attach(v, h), Opened(0)), Idle, [Own(v, h)], {v});
    var listens := TwoSteps(s, Listen(0, 1), Invoke(1, Destroy(v)));
    ls := RunAndHistory(Init(2), opens, listens);
  }

  function Swept(v: string, h: string): State {
    World(Busy(Attach(v, h), SecondCheck(0)), Busy(Destroy(v), RemoveDir), [Own(v, h).(ln := Open, addr := 1)], {v})
  }

  /** The destroy takes the mutex and finds nothing. */
  lemma DestroySweeps(v: string, h: string) returns (ls: seq<Label>)
    requires v != ""
    ensures Run(BothCalled(v, h), ls) && Exec(BothCalled(v, h), ls) == Swept(v, h)
    ensures History(BothCalled(v, h), ls) == [Took(1, Destroy(v), None)]
  {
    assert BothCalled(v, h).servers.Keys == {};
    ls := TwoSteps(BothCalled(v, h), Lock(1), Unlock(1));
  }

  /** Then it removes the files and returns. */
  lemma DestroyRuns(v: string, h: string) returns (ls: seq<Label>)
    requires v != ""
    ensures Run(BothCalled(v, h), ls) && Exec(BothCalled(v, h), ls) == DestroyDone(v, h)
    ensures History(BothCalled(v, h), ls) == [Took(1, Destroy(v), None), Returned(1, Success)]
  {
    var sweep := DestroySweeps(v, h);
    var done := TwoSteps(Swept(v, h), Remove(1, false, true), Return(1));
    ls := RunAndHistory(BothCalled(v, h), sweep, done);
  }

  /** The attach inserts its server and returns. */
  lemma AttachGoesOn(v: string, h: string) returns (ls: seq<Label>)
    ensures Run(DestroyDone(v, h), ls) && Serves(Exec(DestroyDone(v, h), ls), v) && Exec(DestroyDone(v, h), ls).files == {}
    ensures History(DestroyDone(v, h), ls) == [Took(0, Attach(v, h), Some(1)), Returned(0, Address(1))]
  {
    ls := TwoSteps(DestroyDone(v, h), Insert(0), Return(0));
    assert AttachKey(v, h) in Exec(DestroyDone(v, h), ls).servers && HasVolumePrefix(AttachKey(v, h), v);
  }

  /** Both calls are made, the destroy takes effect and returns, then the attach does. */
  function RaceHistory(v: string, h: string): seq<Event> {
    [Called(0, Attach(v, h)), Called(1, Destroy(v)), Took(1, Destroy(v), None),
     Returned(1, Success), Took(0, Attach(v, h), Some(1)), Returned(0, Address(1))]
  }

  lemma RaceParts(v: string, h: string)
    ensures [Called(0, Attach(v, h)), Called(1, Destroy(v))]
            + ([Took(1, Destroy(v), None), Returned(1, Success)] + [Took(0, Attach(v, h), Some(1)), Returned(0, Address(1))])
            == RaceHistory(v, h)
  {
  }

  /**
   * The race, for every volume and host: while an attach is serving but has not inserted, a destroy of its volume
   * runs from call to successful return; then the attach returns an address, and a volume without files has a server.
   */
  lemma RaceIsReachable(v: string, h: string)
    requires v != ""
    ensures exists ls :: Run(Init(2), ls) && History(Init(2), ls) == RaceHistory(v, h)
                         && Serves(Exec(Init(2), ls), v) && v !in Exec(Init(2), ls).files
  {
    var first := BothCall(v, h);
    var second := DestroyRuns(v, h);
    var third := AttachGoesOn(v, h);
    var rest := RunAndHistory(BothCalled(v, h), second, third);
    var ls := RunAndHistory(Init(2), first, rest);
    RaceParts(v, h);
    assert Run(Init(2), ls);
  }
}
