/** What every step of the attach protocol keeps: each open resource has exactly one owner. */
module AttachInvariant {
  import opened Wrappers
  import opened Keys
  import opened AttachProtocol

  datatype Owner = ByMap(key: string) | ByCallerAt(t: nat) | Nobody

  /** The handle a caller holds, if any. */
  function Holds(c: Caller): Option<nat> {
    if c.Idle? then None
    else match c.at
      case Opened(h) => Some(h)
      case Aborting(h) => Some(h)
      case SecondCheck(h) => Some(h)
      case Closing(h, _, _, _) => Some(h)
      case _ => None
  }

  /** The caller is inside DestroyVolume's loop, so it holds the mutex. */
  predicate InSweep(c: Caller) {
    c.Busy? && (c.at.Sweep? || (c.at.Closing? && c.at.after.ResumeSweep?))
  }

  /** The caller is closing a server that is still in the map under this key. */
  predicate ClosingInMap(c: Caller, key: string) {
    c.Busy? && c.at.Closing? && c.at.after.ResumeSweep? && c.at.after.key == key
  }

  /** Each program point belongs to one operation. */
  predicate PointFits(op: Op, at: Point) {
    match at
    case FirstCheck => op.Attach?
    case Opening => op.Attach?
    case Resolved => op.Attach?
    case Opened(_) => op.Attach?
    case Aborting(_) => op.Attach?
    case SecondCheck(_) => op.Attach?
    case ToDelete => op.Detach?
    case ToLock => op.Destroy? && op.volume != ""
    case Sweep(_) => op.Destroy? && op.volume != ""
    case RemoveDir => op.Destroy? && op.volume != ""
    case Closing(_, _, _, after) =>
      (match after
       case ReturnWinner(_) => op.Attach?
       case ReturnError => op.Detach?
       case ResumeSweep(key, _) => op.Destroy? && op.volume != "" && HasVolumePrefix(key, op.volume))
    case Finished(r) => (r.Address? ==> op.Attach?) && (op.Attach? ==> r.Address? || r.Failure?)
  }

  /** Serving: listener and pool or image open. */
  predicate Live(x: Handle) {
    x.ln.Open? && x.store
  }

  predicate Released(x: Handle) {
    !x.ln.Open? && !x.store && x.conns == 0
  }

  /** What the holder's program point says about its handle. */
  predicate HeldState(c: Caller, x: Handle)
    requires c.Busy?
  {
    match c.at
    case Opened(_) => x.ln.Unopened? && x.store && x.key == KeyOf(c.op)
    case Aborting(_) => x.ln.Unopened? && x.store
    case SecondCheck(_) => Live(x) && x.key == KeyOf(c.op)
    case Closing(_, stage, _, _) =>
      (match stage
       case CloseListener => Live(x)
       case AwaitDone => x.ln.Closed? && x.store
       case CloseStore => x.ln.Closed? && x.store && x.done)
    case _ => true
  }

  /** A connection handler runs only inside Serve, over an open pool or image. */
  predicate Sane(x: Handle) {
    && (x.conns > 0 ==> x.store && !x.done && !x.ln.Unopened?)
    && (x.ln.Unopened? ==> !x.done)
  }

  ghost predicate OwnedBy(s: State, own: seq<Owner>) {
    && |own| == |s.handles|
    && (forall t :: 0 <= t < |s.callers| ==> CallerOk(s, own, t))
    && (forall k :: k in s.servers ==> KeyOk(s, own, k))
    && (forall h :: 0 <= h < |s.handles| ==> HandleOk(s, own, h))
    && (s.lock.Some? ==> s.lock.value < |s.callers| && InSweep(s.callers[s.lock.value]))
    && PortsDistinct(s)
  }

  ghost predicate CallerOk(s: State, own: seq<Owner>, t: nat)
    requires |own| == |s.handles| && t < |s.callers|
  {
    var c := s.callers[t];
    && (c.Busy? ==> PointFits(c.op, c.at))
    && (InSweep(c) ==> s.lock == Some(t))
    && (Holds(c).Some? ==> Holds(c).value < |own| && own[Holds(c).value] == ByCallerAt(t))
    && (c.Busy? && c.at.Closing? && c.at.after.ResumeSweep? ==>
          c.at.after.key in s.servers && s.servers[c.at.after.key] == c.at.h)
  }

  ghost predicate KeyOk(s: State, own: seq<Owner>, k: string)
    requires |own| == |s.handles| && k in s.servers
  {
    var h := s.servers[k];
    && h < |own|
    && s.handles[h].key == k
    && (own[h] == ByMap(k)
        || (s.lock.Some? && s.lock.value < |s.callers| && own[h] == ByCallerAt(s.lock.value)
            && ClosingInMap(s.callers[s.lock.value], k)))
  }

  ghost predicate HandleOk(s: State, own: seq<Owner>, h: nat)
    requires |own| == |s.handles| && h < |own|
  {
    var x := s.handles[h];
    && Sane(x)
    && match own[h]
       case ByMap(k) => k in s.servers && s.servers[k] == h && Live(x)
       case ByCallerAt(t) => t < |s.callers| && Holds(s.callers[t]) == Some(h) && HeldState(s.callers[t], x)
       case Nobody => Released(x)
  }

  /** Open listeners have distinct ports. */
  ghost predicate PortsDistinct(s: State) {
    forall h, g :: 0 <= h < g < |s.handles| && s.handles[h].ln.Open? && s.handles[g].ln.Open? ==>
      s.handles[h].addr != s.handles[g].addr
  }

  /** The keys destroy's loop has not done with. */
  function ToVisit(at: Point): set<string> {
    match at
    case Sweep(todo) => todo
    case Closing(_, _, _, ResumeSweep(key, todo)) => todo + {key}
    case _ => {}
  }

  /** While destroy holds the mutex, every server of its volume still in the map is one the loop will come to. */
  ghost predicate Covered(s: State) {
    s.lock.Some? && At(s, s.lock.value) ==>
      forall k :: k in s.servers && HasVolumePrefix(k, OpOf(s, s.lock.value).volume) ==> k in ToVisit(PointOf(s, s.lock.value))
  }

  ghost predicate Inv(s: State) {
    Covered(s) && exists own :: OwnedBy(s, own)
  }

  lemma InitInv(n: nat)
    ensures Inv(Init(n))
  {
    assert OwnedBy(Init(n), []);
  }

  // ---- One step ----

  /** Who owns what after the step. */
  function NextOwners(s: State, own: seq<Owner>, l: Label): seq<Owner>
    requires |own| == |s.handles| && Enabled(s, l)
  {
    match l
    case OpenStore(t, _) => own + [ByCallerAt(t)]
    case Abort(t) => own[PointOf(s, t).h := Nobody]
    case Insert(t) => if KeyOf(OpOf(s, t)) in s.servers then own else own[PointOf(s, t).h := ByMap(KeyOf(OpOf(s, t)))]
    case Delete(t) =>
      var k := KeyOf(OpOf(s, t));
      if k in s.servers && s.servers[k] < |own| then own[s.servers[k] := ByCallerAt(t)] else own
    case Visit(t, k) =>
      if k in s.servers && HasVolumePrefix(k, OpOf(s, t).volume) && s.servers[k] < |own|
      then own[s.servers[k] := ByCallerAt(t)] else own
    case Release(t, _) => own[PointOf(s, t).h := Nobody]
    case _ => own
  }

  /** A step that changes one caller's point and, at most, the handle it holds. */
  ghost predicate Local(s: State, s': State, t: nat) {
    && t < |s.callers| && |s'.callers| == |s.callers| && |s'.handles| == |s.handles|
    && s' == s.(callers := s'.callers, handles := s'.handles, files := s'.files)
    && (forall u :: 0 <= u < |s.callers| && u != t ==> s'.callers[u] == s.callers[u])
    && (forall h :: 0 <= h < |s.handles| && Some(h) != Holds(s.callers[t]) ==> s'.handles[h] == s.handles[h])
    && InSweep(s'.callers[t]) == InSweep(s.callers[t])
    && Holds(s'.callers[t]) == Holds(s.callers[t])
    && (s'.callers[t].Busy? ==> PointFits(s'.callers[t].op, s'.callers[t].at))
    && (forall k :: ClosingInMap(s'.callers[t], k) <==> ClosingInMap(s.callers[t], k))
  }

  lemma LocalStep(s: State, own: seq<Owner>, s': State, t: nat)
    requires OwnedBy(s, own) && Local(s, s', t) && PortsDistinct(s')
    requires Holds(s.callers[t]).Some? ==>
               var h := Holds(s.callers[t]).value;
               && h < |s.handles| && Sane(s'.handles[h]) && HeldState(s'.callers[t], s'.handles[h])
               && s'.handles[h].key == s.handles[h].key
    ensures OwnedBy(s', own)
  {
    forall u | 0 <= u < |s.callers| ensures CallerOk(s', own, u) {
      assert CallerOk(s, own, u);
      if u == t && s'.callers[t].Busy? && s'.callers[t].at.Closing? && s'.callers[t].at.after.ResumeSweep? {
        assert ClosingInMap(s'.callers[t], s'.callers[t].at.after.key);
      }
    }
    forall k | k in s.servers ensures KeyOk(s', own, k) {
      assert KeyOk(s, own, k);
    }
    forall h | 0 <= h < |s.handles| ensures HandleOk(s', own, h) {
      assert CallerOk(s, own, t) && HandleOk(s, own, h);
    }
  }

  predicate IsLocal(s: State, l: Label)
    requires Enabled(s, l)
  {
    match l
    case Invoke(_, _) => true
    case Check(_) => true
    case ReadRef(_) => true
    case OpenFails(_) => true
    case VolumeFails(_) => true
    case Listen(_, _) => true
    case ListenFails(_) => true
    case Insert(t) => KeyOf(OpOf(s, t)) in s.servers
    case Delete(t) => KeyOf(OpOf(s, t)) !in s.servers
    case Visit(t, k) => !(k in s.servers && HasVolumePrefix(k, OpOf(s, t).volume))
    case Remove(_, _, _) => true
    case CloseLn(_, _) => true
    case Wait(_) => true
    case Return(_) => true
    case _ => false
  }

  /** Steps of a caller that holds no handle. */
  lemma OwnersBetweenStep(s: State, own: seq<Owner>, l: Label)
    requires OwnedBy(s, own) && Enabled(s, l) && IsLocal(s, l)
    requires l.Invoke? || l.ReadRef? || l.OpenFails? || l.Remove? || l.Return?
    ensures OwnedBy(Apply(s, l), own)
  {
    assert CallerOk(s, own, l.t);
    LocalStep(s, own, Apply(s, l), l.t);
  }

  /** A locked section that leaves the map as it is. */
  lemma OwnersLookupStep(s: State, own: seq<Owner>, l: Label)
    requires OwnedBy(s, own) && Enabled(s, l) && IsLocal(s, l) && (l.Check? || l.Delete?)
    ensures OwnedBy(Apply(s, l), own)
  {
    assert CallerOk(s, own, l.t);
    if l.Check? && KeyOf(OpOf(s, l.t)) in s.servers {
      assert KeyOk(s, own, KeyOf(OpOf(s, l.t)));
    }
    LocalStep(s, own, Apply(s, l), l.t);
  }

  /** Destroy's loop passes over a key of another volume. */
  lemma OwnersPassStep(s: State, own: seq<Owner>, l: Label)
    requires OwnedBy(s, own) && Enabled(s, l) && IsLocal(s, l) && l.Visit?
    ensures OwnedBy(Apply(s, l), own)
  {
    assert CallerOk(s, own, l.t);
    LocalStep(s, own, Apply(s, l), l.t);
  }

  /** Steps of an attach that keeps its handle. */
  lemma OwnersAttachStep(s: State, own: seq<Owner>, l: Label)
    requires OwnedBy(s, own) && Enabled(s, l) && IsLocal(s, l)
    requires l.VolumeFails? || l.Listen? || l.ListenFails? || l.Insert?
    ensures OwnedBy(Apply(s, l), own)
  {
    var t, s' := l.t, Apply(s, l);
    assert CallerOk(s, own, t);
    assert HandleOk(s, own, Holds(s.callers[t]).value);
    if l.Insert? {
      assert KeyOk(s, own, KeyOf(OpOf(s, t)));
    }
    LocalStep(s, own, s', t);
  }

  /** The stages of close before the last. */
  lemma OwnersCloseStep(s: State, own: seq<Owner>, l: Label)
    requires OwnedBy(s, own) && Enabled(s, l) && IsLocal(s, l)
    requires l.CloseLn? || l.Wait?
    ensures OwnedBy(Apply(s, l), own)
  {
    var t, s' := l.t, Apply(s, l);
    assert CallerOk(s, own, t);
    assert HandleOk(s, own, Holds(s.callers[t]).value);
    LocalStep(s, own, s', t);
  }

  /** A serve goroutine or a client moves: only the connection count and done change. */
  lemma OwnersServeStep(s: State, own: seq<Owner>, l: Label)
    requires OwnedBy(s, own) && Enabled(s, l) && !ByCaller(l) && !l.Provision?
    ensures OwnedBy(Apply(s, l), own)
  {
    var s', x := Apply(s, l), s.handles[l.h];
    assert HandleOk(s, own, l.h);
    ServedStep(s, own, l.h, s'.handles[l.h]);
  }

  /** New files are nobody's. */
  lemma OwnersProvisionStep(s: State, own: seq<Owner>, l: Label)
    requires OwnedBy(s, own) && Enabled(s, l) && l.Provision?
    ensures OwnedBy(Apply(s, l), own)
  {
    var s' := Apply(s, l);
    forall t | 0 <= t < |s.callers| ensures CallerOk(s', own, t) {
      assert CallerOk(s, own, t);
    }
    forall k | k in s.servers ensures KeyOk(s', own, k) {
      assert KeyOk(s, own, k);
    }
    forall h | 0 <= h < |s.handles| ensures HandleOk(s', own, h) {
      assert HandleOk(s, own, h);
    }
  }

  lemma ServedStep(s: State, own: seq<Owner>, h: nat, x: Handle)
    requires OwnedBy(s, own) && h < |s.handles| && Sane(x)
    requires x == s.handles[h].(conns := x.conns, done := x.done)
    requires s.handles[h].done ==> x.done
    requires own[h].Nobody? ==> x.conns == 0
    ensures OwnedBy(SetHandle(s, h, x), own)
  {
    var s' := SetHandle(s, h, x);
    forall t | 0 <= t < |s.callers| ensures CallerOk(s', own, t) {
      assert CallerOk(s, own, t);
    }
    forall k | k in s.servers ensures KeyOk(s', own, k) {
      assert KeyOk(s, own, k);
    }
    forall g | 0 <= g < |s.handles| ensures HandleOk(s', own, g) {
      assert HandleOk(s, own, g);
    }
  }

  /** Lock and Unlock: the mutex changes hands, no handle does. */
  lemma OwnersLockStep(s: State, own: seq<Owner>, l: Label)
    requires OwnedBy(s, own) && Enabled(s, l) && (l.Lock? || l.Unlock?)
    ensures OwnedBy(Apply(s, l), NextOwners(s, own, l))
  {
    var s' := Apply(s, l);
    assert CallerOk(s, own, l.t);
    forall t | 0 <= t < |s.callers| ensures CallerOk(s', own, t) {
      assert CallerOk(s, own, t);
    }
    forall k | k in s.servers ensures KeyOk(s', own, k) {
      assert KeyOk(s, own, k);
    }
    forall h | 0 <= h < |s.handles| ensures HandleOk(s', own, h) {
      assert HandleOk(s, own, h);
    }
  }

  lemma OwnersOpenStep(s: State, own: seq<Owner>, l: Label)
    requires OwnedBy(s, own) && Enabled(s, l) && l.OpenStore?
    ensures OwnedBy(Apply(s, l), NextOwners(s, own, l))
  {
    var s', own' := Apply(s, l), NextOwners(s, own, l);
    forall t | 0 <= t < |s.callers| ensures CallerOk(s', own', t) {
      assert CallerOk(s, own, t) && CallerOk(s, own, l.t);
    }
    forall k | k in s.servers ensures KeyOk(s', own', k) {
      assert KeyOk(s, own, k);
    }
    forall h | 0 <= h < |s'.handles| ensures HandleOk(s', own', h) {
      if h < |s.handles| {
        assert HandleOk(s, own, h);
      }
    }
  }

  /** The winner's handle passes to the map. */
  lemma OwnersInsertStep(s: State, own: seq<Owner>, l: Label)
    requires OwnedBy(s, own) && Enabled(s, l) && l.Insert? && !IsLocal(s, l)
    ensures OwnedBy(Apply(s, l), NextOwners(s, own, l))
  {
    var s', own' := Apply(s, l), NextOwners(s, own, l);
    assert CallerOk(s, own, l.t);
    assert HandleOk(s, own, PointOf(s, l.t).h);
    forall t | 0 <= t < |s.callers| ensures CallerOk(s', own', t) {
      assert CallerOk(s, own, t);
    }
    forall k | k in s'.servers ensures KeyOk(s', own', k) {
      if k in s.servers {
        assert KeyOk(s, own, k);
      }
    }
    forall h | 0 <= h < |s.handles| ensures HandleOk(s', own', h) {
      assert HandleOk(s, own, h);
    }
  }

  /** Detach takes the handle out of the map. */
  lemma OwnersDeleteStep(s: State, own: seq<Owner>, l: Label)
    requires OwnedBy(s, own) && Enabled(s, l) && l.Delete? && !IsLocal(s, l)
    ensures OwnedBy(Apply(s, l), NextOwners(s, own, l))
  {
    var s', own' := Apply(s, l), NextOwners(s, own, l);
    assert CallerOk(s, own, l.t);
    var key := KeyOf(OpOf(s, l.t));
    assert KeyOk(s, own, key) && HandleOk(s, own, s.servers[key]);
    forall t | 0 <= t < |s.callers| ensures CallerOk(s', own', t) {
      assert CallerOk(s, own, t);
    }
    forall k | k in s'.servers ensures KeyOk(s', own', k) {
      assert KeyOk(s, own, k);
    }
    forall h | 0 <= h < |s.handles| ensures HandleOk(s', own', h) {
      assert HandleOk(s, own, h);
    }
  }

  /** Destroy starts to close a server it finds in the map. */
  lemma OwnersVisitStep(s: State, own: seq<Owner>, l: Label)
    requires OwnedBy(s, own) && Enabled(s, l) && l.Visit? && !IsLocal(s, l)
    ensures OwnedBy(Apply(s, l), NextOwners(s, own, l))
  {
    var s', own' := Apply(s, l), NextOwners(s, own, l);
    assert CallerOk(s, own, l.t);
    assert KeyOk(s, own, l.key) && HandleOk(s, own, s.servers[l.key]);
    forall t | 0 <= t < |s.callers| ensures CallerOk(s', own', t) {
      assert CallerOk(s, own, t);
    }
    forall k | k in s'.servers ensures KeyOk(s', own', k) {
      assert KeyOk(s, own, k);
    }
    forall h | 0 <= h < |s.handles| ensures HandleOk(s', own', h) {
      assert HandleOk(s, own, h);
    }
  }

  /** A failed attach releases its pool or image. */
  lemma OwnersAbortStep(s: State, own: seq<Owner>, l: Label)
    requires OwnedBy(s, own) && Enabled(s, l) && l.Abort?
    ensures OwnedBy(Apply(s, l), NextOwners(s, own, l))
  {
    var s', own' := Apply(s, l), NextOwners(s, own, l);
    assert CallerOk(s, own, l.t);
    assert HandleOk(s, own, PointOf(s, l.t).h);
    forall t | 0 <= t < |s.callers| ensures CallerOk(s', own', t) {
      assert CallerOk(s, own, t);
    }
    forall k | k in s'.servers ensures KeyOk(s', own', k) {
      assert KeyOk(s, own, k);
    }
    forall h | 0 <= h < |s.handles| ensures HandleOk(s', own', h) {
      assert HandleOk(s, own, h);
    }
  }

  /** The last stage of close: the handle is released; destroy also drops its key. */
  lemma OwnersReleaseStep(s: State, own: seq<Owner>, l: Label)
    requires OwnedBy(s, own) && Enabled(s, l) && l.Release?
    ensures OwnedBy(Apply(s, l), NextOwners(s, own, l))
  {
    var s', own' := Apply(s, l), NextOwners(s, own, l);
    assert CallerOk(s, own, l.t);
    forall t | 0 <= t < |s.callers| ensures CallerOk(s', own', t) {
      CallerAfterRelease(s, own, l, t);
    }
    forall k | k in s'.servers ensures KeyOk(s', own', k) {
      KeyAfterRelease(s, own, l, k);
    }
    forall h | 0 <= h < |s.handles| ensures HandleOk(s', own', h) {
      HandleAfterRelease(s, own, l, h);
    }
  }

  lemma CallerAfterRelease(s: State, own: seq<Owner>, l: Label, t: nat)
    requires OwnedBy(s, own) && Enabled(s, l) && l.Release? && t < |s.callers|
    ensures |Apply(s, l).callers| == |s.callers| && CallerOk(Apply(s, l), NextOwners(s, own, l), t)
  {
    assert CallerOk(s, own, t) && CallerOk(s, own, l.t);
  }

  lemma KeyAfterRelease(s: State, own: seq<Owner>, l: Label, k: string)
    requires OwnedBy(s, own) && Enabled(s, l) && l.Release? && k in Apply(s, l).servers
    ensures KeyOk(Apply(s, l), NextOwners(s, own, l), k)
  {
    assert CallerOk(s, own, l.t) && KeyOk(s, own, k);
  }

  lemma HandleAfterRelease(s: State, own: seq<Owner>, l: Label, h: nat)
    requires OwnedBy(s, own) && Enabled(s, l) && l.Release? && h < |s.handles|
    ensures HandleOk(Apply(s, l), NextOwners(s, own, l), h)
  {
    assert CallerOk(s, own, l.t) && HandleOk(s, own, PointOf(s, l.t).h) && HandleOk(s, own, h);
  }

  lemma OwnersStep(s: State, own: seq<Owner>, l: Label)
    requires OwnedBy(s, own) && Enabled(s, l)
    ensures OwnedBy(Apply(s, l), NextOwners(s, own, l))
  {
    match l
    case OpenStore(_, _) => OwnersOpenStep(s, own, l);
    case VolumeFails(_) => OwnersAttachStep(s, own, l);
    case Listen(_, _) => OwnersAttachStep(s, own, l);
    case ListenFails(_) => OwnersAttachStep(s, own, l);
    case Abort(_) => OwnersAbortStep(s, own, l);
    case Insert(_) => if IsLocal(s, l) { OwnersAttachStep(s, own, l); } else { OwnersInsertStep(s, own, l); }
    case Check(_) => OwnersLookupStep(s, own, l);
    case Delete(_) => if IsLocal(s, l) { OwnersLookupStep(s, own, l); } else { OwnersDeleteStep(s, own, l); }
    case Lock(_) => OwnersLockStep(s, own, l);
    case Unlock(_) => OwnersLockStep(s, own, l);
    case Visit(_, _) => if IsLocal(s, l) { OwnersPassStep(s, own, l); } else { OwnersVisitStep(s, own, l); }
    case CloseLn(_, _) => OwnersCloseStep(s, own, l);
    case Wait(_) => OwnersCloseStep(s, own, l);
    case Release(_, _) => OwnersReleaseStep(s, own, l);
    case Connect(_) => OwnersServeStep(s, own, l);
    case Disconnect(_) => OwnersServeStep(s, own, l);
    case ServeReturns(_) => OwnersServeStep(s, own, l);
    case Provision(_) => OwnersProvisionStep(s, own, l);
    case _ => OwnersBetweenStep(s, own, l);
  }

  /** Nobody else changes the map while the mutex is held, and the loop leaves no key of its volume behind. */
  lemma CoveredStep(s: State, own: seq<Owner>, l: Label)
    requires OwnedBy(s, own) && Covered(s) && Enabled(s, l)
    ensures Covered(Apply(s, l))
  {
    if s.lock.None? {
      if l.Lock? {
        assert Covered(Apply(s, l));
      }
    } else if ByCaller(l) && s.lock == Some(l.t) {
      assert CallerOk(s, own, l.t);
      LoopCovers(s, own, l);
    } else {
      OthersCover(s, own, l);
    }
  }

  /** A step of the loop itself. */
  lemma LoopCovers(s: State, own: seq<Owner>, l: Label)
    requires OwnedBy(s, own) && Covered(s) && Enabled(s, l) && ByCaller(l) && s.lock == Some(l.t)
    ensures Covered(Apply(s, l))
  {
    assert InSweep(s.callers[l.t]) && CallerOk(s, own, l.t);
    if l.Visit? {
      VisitCovers(s, l);
    } else if l.Release? {
      ReleaseCovers(s, l);
    }
  }

  lemma VisitCovers(s: State, l: Label)
    requires Covered(s) && Enabled(s, l) && l.Visit? && s.lock == Some(l.t)
    ensures Covered(Apply(s, l))
  {
  }

  lemma ReleaseCovers(s: State, l: Label)
    requires Covered(s) && Enabled(s, l) && l.Release? && s.lock == Some(l.t) && InSweep(s.callers[l.t])
    ensures Covered(Apply(s, l))
  {
  }

  /** A step of anybody else. */
  lemma OthersCover(s: State, own: seq<Owner>, l: Label)
    requires OwnedBy(s, own) && Covered(s) && Enabled(s, l) && s.lock.Some? && (ByCaller(l) ==> s.lock != Some(l.t))
    ensures Covered(Apply(s, l))
  {
    if ByCaller(l) {
      assert CallerOk(s, own, l.t);
    }
    assert Apply(s, l).servers == s.servers;
  }

  lemma StepInv(s: State, l: Label)
    requires Inv(s) && Enabled(s, l)
    ensures Inv(Apply(s, l))
  {
    var own :| OwnedBy(s, own);
    OwnersStep(s, own, l);
    CoveredStep(s, own, l);
  }

  /** The invariant holds along every run. */
  lemma {:induction false} RunInv(s: State, ls: seq<Label>)
    requires Inv(s) && Run(s, ls)
    ensures Inv(Exec(s, ls))
    decreases |ls|
  {
    if ls == [] {
    } else {
      StepInv(s, ls[0]);
      RunInv(Apply(s, ls[0]), ls[1..]);
    }
  }
}
