/** The attach protocol refines an atomic map from keys to addresses: it is linearisable. */
module AttachHistory {
  import opened Wrappers
  import opened Keys
  import opened AttachProtocol
  import opened AttachInvariant

  // ---- The atomic map ----

  type Addresses = map<string, nat>

  /** An attach of a served key gets that server's address; otherwise it gets an address nobody else has. */
  predicate Allowed(m: Addresses, op: Op, addr: Option<nat>) {
    op.Attach? ==>
      && addr.Some?
      && (if KeyOf(op) in m then addr.value == m[KeyOf(op)] else addr.value !in m.Values)
  }

  function Effect(m: Addresses, op: Op, addr: Option<nat>): Addresses
    requires Allowed(m, op, addr)
  {
    match op
    case Attach(_, _) => m[KeyOf(op) := addr.value]
    case Detach(_, _) => m - {KeyOf(op)}
    case Destroy(v) => map k | k in m && !HasVolumePrefix(k, v) :: m[k]
  }

  // ---- Histories ----

  /** A caller enters an operation, the operation takes effect, the caller gets its outcome. */
  datatype Event =
    | Called(t: nat, op: Op)
    | Took(t: nat, op: Op, addr: Option<nat>)
    | Returned(t: nat, r: Outcome)

  /** The operations, applied one at a time in the order they took effect. */
  predicate Legal(m: Addresses, es: seq<Event>)
    decreases |es|
  {
    es == [] ||
    (if es[0].Took?
     then Allowed(m, es[0].op, es[0].addr) && Legal(Effect(m, es[0].op, es[0].addr), es[1..])
     else Legal(m, es[1..]))
  }

  function Final(m: Addresses, es: seq<Event>): Addresses
    requires Legal(m, es)
    decreases |es|
  {
    if es == [] then m
    else Final(if es[0].Took? then Effect(m, es[0].op, es[0].addr) else m, es[1..])
  }

  /** One caller's events must repeat: called, took effect once, returned what it took. */
  datatype Phase = Ready | Pending(op: Op) | Decided(op: Op, addr: Option<nat>) | Broken

  /** Only a failed attach, or a destroy of the empty UUID, returns without having taken effect. */
  predicate NeedsNoEffect(op: Op, r: Outcome) {
    (op.Attach? && r.Failure?) || (op == Destroy("") && r.Success?)
  }

  predicate Matches(op: Op, addr: Option<nat>, r: Outcome) {
    if op.Attach? then addr.Some? && r == Address(addr.value) else !r.Address?
  }

  function Advance(p: Phase, e: Event): Phase {
    match e
    case Called(_, op) => if p.Ready? then Pending(op) else Broken
    case Took(_, op, addr) => if p == Pending(op) then Decided(op, addr) else Broken
    case Returned(_, r) =>
      if p.Pending? && NeedsNoEffect(p.op, r) then Ready
      else if p.Decided? && Matches(p.op, p.addr, r) then Ready
      else Broken
  }

  function PhaseAfter(p: Phase, es: seq<Event>, t: nat): Phase
    decreases |es|
  {
    if es == [] then p
    else PhaseAfter(if es[0].t == t then Advance(p, es[0]) else p, es[1..], t)
  }

  // ---- What the protocol does to them ----

  /** The events of a step. Attach takes effect in one of its two locked sections, destroy when it locks. */
  function EventsOf(s: State, l: Label): seq<Event>
    requires Enabled(s, l)
  {
    match l
    case Invoke(t, op) => [Called(t, op)]
    case Check(t) =>
      (match Apply(s, l).callers[t].at
       case Finished(Address(a)) => [Took(t, OpOf(s, t), Some(a))]
       case _ => [])
    case Insert(t) =>
      (match Apply(s, l).callers[t].at
       case Finished(Address(a)) => [Took(t, OpOf(s, t), Some(a))]
       case Closing(_, _, _, ReturnWinner(a)) => [Took(t, OpOf(s, t), Some(a))]
       case _ => [])
    case Delete(t) => [Took(t, OpOf(s, t), None)]
    case Lock(t) => [Took(t, OpOf(s, t), None)]
    case Return(t) => [Returned(t, PointOf(s, t).r)]
    case _ => []
  }

  function History(s: State, ls: seq<Label>): seq<Event>
    requires Run(s, ls)
    decreases |ls|
  {
    if ls == [] then [] else EventsOf(s, ls[0]) + History(Apply(s, ls[0]), ls[1..])
  }

  function PhaseOf(c: Caller): Phase {
    if c.Idle? then Ready
    else match c.at
      case Closing(_, _, _, ReturnWinner(a)) => Decided(c.op, Some(a))
      case Closing(_, _, _, _) => Decided(c.op, None)
      case Sweep(_) => Decided(c.op, None)
      case RemoveDir => Decided(c.op, None)
      case Finished(Address(a)) => Decided(c.op, Some(a))
      case Finished(r) => if NeedsNoEffect(c.op, r) then Pending(c.op) else Decided(c.op, None)
      case _ => Pending(c.op)
  }

  /** The key is one the caller in DestroyVolume's loop is about to remove. */
  predicate Doomed(s: State, k: string) {
    && s.lock.Some? && At(s, s.lock.value)
    && OpOf(s, s.lock.value).Destroy?
    && HasVolumePrefix(k, OpOf(s, s.lock.value).volume)
  }

  /** What the map says to whoever takes the mutex next. */
  function View(s: State): Addresses {
    map k | k in s.servers && Held(s, s.servers[k]) && !Doomed(s, k) :: s.handles[s.servers[k]].addr
  }

  // ---- One step ----

  lemma PhaseStep(s: State, l: Label, t: nat)
    requires Inv(s) && Enabled(s, l) && t < |s.callers|
    ensures |Apply(s, l).callers| == |s.callers|
    ensures PhaseAfter(PhaseOf(s.callers[t]), EventsOf(s, l), t) == PhaseOf(Apply(s, l).callers[t])
  {
    if ByCaller(l) && l.t == t {
      OwnPhaseStep(s, l);
      OneEvent(PhaseOf(s.callers[t]), EventsOf(s, l), t);
    } else {
      OtherPhase(s, l, t);
    }
  }

  lemma OneEvent(p: Phase, es: seq<Event>, t: nat)
    ensures es == [] ==> PhaseAfter(p, es, t) == p
    ensures |es| == 1 ==> PhaseAfter(p, es, t) == if es[0].t == t then Advance(p, es[0]) else p
  {
    assert |es| == 1 ==> es[1..] == [];
  }

  /** A step of another caller, or of a serve goroutine, is no event of t's. */
  lemma OtherPhase(s: State, l: Label, t: nat)
    requires Enabled(s, l) && t < |s.callers| && !(ByCaller(l) && l.t == t)
    ensures |Apply(s, l).callers| == |s.callers| && Apply(s, l).callers[t] == s.callers[t]
    ensures PhaseAfter(PhaseOf(s.callers[t]), EventsOf(s, l), t) == PhaseOf(s.callers[t])
  {
    OneEvent(PhaseOf(s.callers[t]), EventsOf(s, l), t);
  }

  lemma OwnPhaseStep(s: State, l: Label)
    requires Inv(s) && Enabled(s, l) && ByCaller(l)
    ensures |Apply(s, l).callers| == |s.callers|
    ensures var es, p := EventsOf(s, l), PhaseOf(s.callers[l.t]);
            |es| <= 1 && (es != [] ==> es[0].t == l.t)
            && PhaseOf(Apply(s, l).callers[l.t]) == if es == [] then p else Advance(p, es[0])
  {
    var own :| OwnedBy(s, own);
    if l.Release? || l.CloseLn? || l.Wait? || l.Visit? {
      ClosePhaseStep(s, own, l);
    } else {
      OpenPhaseStep(s, own, l);
    }
  }

  lemma ClosePhaseStep(s: State, own: seq<Owner>, l: Label)
    requires OwnedBy(s, own) && Enabled(s, l) && (l.Release? || l.CloseLn? || l.Wait? || l.Visit?)
    ensures |Apply(s, l).callers| == |s.callers| && EventsOf(s, l) == []
    ensures PhaseOf(Apply(s, l).callers[l.t]) == PhaseOf(s.callers[l.t])
  {
    assert CallerOk(s, own, l.t);
  }

  lemma OpenPhaseStep(s: State, own: seq<Owner>, l: Label)
    requires OwnedBy(s, own) && Enabled(s, l) && ByCaller(l) && !l.Release? && !l.CloseLn? && !l.Wait? && !l.Visit?
    ensures |Apply(s, l).callers| == |s.callers|
    ensures var es, p := EventsOf(s, l), PhaseOf(s.callers[l.t]);
            |es| <= 1 && (es != [] ==> es[0].t == l.t)
            && PhaseOf(Apply(s, l).callers[l.t]) == if es == [] then p else Advance(p, es[0])
  {
    assert CallerOk(s, own, l.t);
  }

  /** A listening or once-listening handle keeps its address, and a busy caller keeps its operation until it returns. */
  lemma AddressKept(s: State, own: seq<Owner>, l: Label, h: nat)
    requires OwnedBy(s, own) && Enabled(s, l) && h < |s.handles| && !s.handles[h].ln.Unopened?
    ensures h < |Apply(s, l).handles| && Apply(s, l).handles[h].addr == s.handles[h].addr
  {
    if l.Listen? {
      assert CallerOk(s, own, l.t) && HandleOk(s, own, PointOf(s, l.t).h);
    }
  }

  lemma DoomedKept(s: State, own: seq<Owner>, l: Label, k: string)
    requires OwnedBy(s, own) && Enabled(s, l) && !l.Lock? && !l.Unlock?
    ensures Doomed(Apply(s, l), k) <==> Doomed(s, k)
  {
    if ByCaller(l) {
      assert CallerOk(s, own, l.t);
    }
  }

  lemma ServersKept(s: State, own: seq<Owner>, l: Label, k: string)
    requires OwnedBy(s, own) && Enabled(s, l) && !l.Insert? && !l.Delete?
    ensures k in Apply(s, l).servers ==> k in s.servers && Apply(s, l).servers[k] == s.servers[k]
    ensures k in s.servers && k !in Apply(s, l).servers ==> l.Release? && Doomed(s, k)
  {
    if l.Release? {
      assert CallerOk(s, own, l.t);
    }
  }

  /** Every step but Insert, Delete and Lock leaves the view alone. */
  lemma ViewUnchanged(s: State, own: seq<Owner>, l: Label)
    requires OwnedBy(s, own) && Enabled(s, l) && !l.Insert? && !l.Delete? && !l.Lock?
    requires l.Unlock? ==> Covered(s)
    ensures View(Apply(s, l)) == View(s)
  {
    if l.Unlock? {
      UnlockedView(s, own, l);
    } else {
      forall k | k in s.servers || k in Apply(s, l).servers
        ensures k in View(Apply(s, l)) <==> k in View(s)
        ensures k in View(s) ==> View(Apply(s, l))[k] == View(s)[k]
      {
        ServersKept(s, own, l, k);
        assert KeyOk(s, own, k) && HandleOk(s, own, s.servers[k]);
        AddressKept(s, own, l, s.servers[k]);
        DoomedKept(s, own, l, k);
      }
    }
  }

  /** At the end of the sweep no server in the map is doomed any more. */
  lemma UnlockedView(s: State, own: seq<Owner>, l: Label)
    requires OwnedBy(s, own) && Enabled(s, l) && l.Unlock? && Covered(s)
    ensures View(Apply(s, l)) == View(s)
  {
    assert CallerOk(s, own, l.t);
    assert ToVisit(PointOf(s, l.t)) == {};
    assert forall k :: k in s.servers ==> !Doomed(s, k);
  }

  lemma LegalOne(m: Addresses, t: nat, op: Op, addr: Option<nat>)
    ensures Legal(m, [Took(t, op, addr)]) <==> Allowed(m, op, addr)
    ensures Allowed(m, op, addr) ==> Final(m, [Took(t, op, addr)]) == Effect(m, op, addr)
  {
    var es := [Took(t, op, addr)];
    assert es[1..] == [];
  }

  /** The operation of a step takes effect at this address on the map's view. */
  ghost predicate TakesEffect(s: State, l: Label, addr: Option<nat>)
    requires Enabled(s, l) && ByCaller(l) && !l.Invoke?
  {
    && EventsOf(s, l) == [Took(l.t, OpOf(s, l.t), addr)]
    && Allowed(View(s), OpOf(s, l.t), addr)
    && Effect(View(s), OpOf(s, l.t), addr) == View(Apply(s, l))
  }

  /** The second locked section of attach: the loser gets the winner's address. */
  lemma LosingInsert(s: State, own: seq<Owner>, l: Label)
    requires OwnedBy(s, own) && Enabled(s, l) && l.Insert? && KeyOf(OpOf(s, l.t)) in s.servers
    ensures exists a :: TakesEffect(s, l, Some(a))
  {
    var key := KeyOf(OpOf(s, l.t));
    assert KeyOk(s, own, key) && CallerOk(s, own, l.t);
    var a := s.handles[s.servers[key]].addr;
    assert View(Apply(s, l)) == View(s);
    assert TakesEffect(s, l, Some(a));
  }

  /** The winner publishes its own address, which no other server has. */
  lemma WinningInsert(s: State, own: seq<Owner>, l: Label)
    requires OwnedBy(s, own) && Enabled(s, l) && l.Insert? && KeyOf(OpOf(s, l.t)) !in s.servers
    ensures exists a :: TakesEffect(s, l, Some(a))
  {
    var a := s.handles[PointOf(s, l.t).h].addr;
    assert CallerOk(s, own, l.t);
    FreshAddress(s, own, l);
    InsertedView(s, l);
    assert TakesEffect(s, l, Some(a));
  }

  /** The inserting caller's own handle listens where no server in the map does. */
  lemma FreshAddress(s: State, own: seq<Owner>, l: Label)
    requires OwnedBy(s, own) && Enabled(s, l) && l.Insert?
    ensures s.handles[PointOf(s, l.t).h].addr !in View(s).Values
  {
    var h := PointOf(s, l.t).h;
    assert CallerOk(s, own, l.t) && HandleOk(s, own, h);
    forall k | k in View(s) ensures View(s)[k] != s.handles[h].addr {
      assert KeyOk(s, own, k) && HandleOk(s, own, s.servers[k]);
    }
  }

  lemma InsertedView(s: State, l: Label)
    requires Enabled(s, l) && l.Insert? && KeyOf(OpOf(s, l.t)) !in s.servers
    ensures View(Apply(s, l)) == View(s)[KeyOf(OpOf(s, l.t)) := s.handles[PointOf(s, l.t).h].addr]
  {
  }

  lemma DeleteTakesEffect(s: State, own: seq<Owner>, l: Label)
    requires OwnedBy(s, own) && Enabled(s, l) && l.Delete?
    ensures TakesEffect(s, l, None)
  {
    assert CallerOk(s, own, l.t);
    DeletedView(s, l);
  }

  lemma DeletedView(s: State, l: Label)
    requires Enabled(s, l) && l.Delete?
    ensures View(Apply(s, l)) == View(s) - {KeyOf(OpOf(s, l.t))}
  {
  }

  lemma LockTakesEffect(s: State, own: seq<Owner>, l: Label)
    requires OwnedBy(s, own) && Enabled(s, l) && l.Lock?
    ensures TakesEffect(s, l, None)
  {
    assert CallerOk(s, own, l.t);
    assert View(Apply(s, l)) == Effect(View(s), OpOf(s, l.t), None);
  }

  /** The first locked section of attach, when the key is already served. */
  lemma CheckTakesEffect(s: State, own: seq<Owner>, l: Label)
    requires OwnedBy(s, own) && Enabled(s, l) && l.Check? && KeyOf(OpOf(s, l.t)) in s.servers
    ensures exists a :: TakesEffect(s, l, Some(a))
  {
    var key := KeyOf(OpOf(s, l.t));
    assert CallerOk(s, own, l.t) && KeyOk(s, own, key);
    ViewUnchanged(s, own, l);
    assert TakesEffect(s, l, Some(s.handles[s.servers[key]].addr));
  }

  lemma ViewStep(s: State, l: Label)
    requires Inv(s) && Enabled(s, l)
    ensures Legal(View(s), EventsOf(s, l))
    ensures Final(View(s), EventsOf(s, l)) == View(Apply(s, l))
  {
    var own :| OwnedBy(s, own);
    if l.Delete? || l.Lock? {
      if l.Delete? { DeleteTakesEffect(s, own, l); } else { LockTakesEffect(s, own, l); }
      LegalOne(View(s), l.t, OpOf(s, l.t), None);
    } else if l.Insert? || (l.Check? && KeyOf(OpOf(s, l.t)) in s.servers) {
      if l.Check? { CheckTakesEffect(s, own, l); }
      else if KeyOf(OpOf(s, l.t)) in s.servers { LosingInsert(s, own, l); }
      else { WinningInsert(s, own, l); }
      var a :| TakesEffect(s, l, Some(a));
      LegalOne(View(s), l.t, OpOf(s, l.t), Some(a));
    } else {
      ViewUnchanged(s, own, l);
      NoEffect(View(s), s, l);
    }
  }

  /** A call or a return has no effect on the map. */
  lemma NoEffect(m: Addresses, s: State, l: Label)
    requires Enabled(s, l) && !l.Insert? && !l.Delete? && !l.Lock?
    requires l.Check? ==> KeyOf(OpOf(s, l.t)) !in s.servers
    ensures Legal(m, EventsOf(s, l)) && Final(m, EventsOf(s, l)) == m
  {
    var es := EventsOf(s, l);
    assert es != [] ==> !es[0].Took? && es[1..] == [];
  }

  // ---- Whole runs ----

  lemma {:induction false} LegalAppend(m: Addresses, xs: seq<Event>, ys: seq<Event>)
    requires Legal(m, xs) && Legal(Final(m, xs), ys)
    ensures Legal(m, xs + ys) && Final(m, xs + ys) == Final(Final(m, xs), ys)
    decreases |xs|
  {
    if xs == [] {
      assert xs + ys == ys;
    } else {
      assert (xs + ys)[1..] == xs[1..] + ys;
      LegalAppend(if xs[0].Took? then Effect(m, xs[0].op, xs[0].addr) else m, xs[1..], ys);
    }
  }

  lemma {:induction false} PhaseAppend(p: Phase, xs: seq<Event>, ys: seq<Event>, t: nat)
    ensures PhaseAfter(p, xs + ys, t) == PhaseAfter(PhaseAfter(p, xs, t), ys, t)
    decreases |xs|
  {
    if xs == [] {
      assert xs + ys == ys;
    } else {
      assert (xs + ys)[1..] == xs[1..] + ys;
      PhaseAppend(if xs[0].t == t then Advance(p, xs[0]) else p, xs[1..], ys, t);
    }
  }

  lemma {:induction false} HistoryFrom(s: State, ls: seq<Label>)
    requires Inv(s) && Run(s, ls)
    ensures Legal(View(s), History(s, ls)) && Final(View(s), History(s, ls)) == View(Exec(s, ls))
    decreases |ls|
  {
    if ls == [] {
    } else {
      var s1 := Apply(s, ls[0]);
      StepInv(s, ls[0]);
      ViewStep(s, ls[0]);
      HistoryFrom(s1, ls[1..]);
      LegalAppend(View(s), EventsOf(s, ls[0]), History(s1, ls[1..]));
    }
  }

  lemma {:induction false} PhaseFrom(s: State, ls: seq<Label>, t: nat)
    requires Inv(s) && Run(s, ls) && t < |s.callers|
    ensures |Exec(s, ls).callers| == |s.callers|
    ensures PhaseAfter(PhaseOf(s.callers[t]), History(s, ls), t) == PhaseOf(Exec(s, ls).callers[t])
    decreases |ls|
  {
    if ls == [] {
    } else {
      var s1 := Apply(s, ls[0]);
      StepInv(s, ls[0]);
      PhaseStep(s, ls[0], t);
      PhaseFrom(s1, ls[1..], t);
      PhaseAppend(PhaseOf(s.callers[t]), EventsOf(s, ls[0]), History(s1, ls[1..]), t);
    }
  }

  lemma {:induction false} CallersFrom(s: State, ls: seq<Label>)
    requires Run(s, ls)
    ensures |Exec(s, ls).callers| == |s.callers|
    decreases |ls|
  {
    if ls == [] {
    } else {
      CallersStay(s, ls[0]);
      CallersFrom(Apply(s, ls[0]), ls[1..]);
    }
  }

  lemma CallersStay(s: State, l: Label)
    requires Enabled(s, l)
    ensures |Apply(s, l).callers| == |s.callers|
  {
  }

  /**
   * Linearisability, for any number of callers and any run. Taken in the order of their locked
   * sections the operations are a legal history of the atomic map that ends at the current view, and
   * each caller's events repeat: called, took effect, returned what it took. A failed attach takes none.
   */
  lemma Linearisable(n: nat, ls: seq<Label>)
    requires Run(Init(n), ls)
    ensures Legal(map[], History(Init(n), ls))
    ensures Final(map[], History(Init(n), ls)) == View(Exec(Init(n), ls))
    ensures |Exec(Init(n), ls).callers| == n
    ensures forall t :: 0 <= t < n ==>
              && PhaseAfter(Ready, History(Init(n), ls), t) == PhaseOf(Exec(Init(n), ls).callers[t])
              && !PhaseAfter(Ready, History(Init(n), ls), t).Broken?
  {
    InitInv(n);
    HistoryFrom(Init(n), ls);
    CallersFrom(Init(n), ls);
    assert View(Init(n)) == map[];
    forall t | 0 <= t < n
      ensures PhaseAfter(Ready, History(Init(n), ls), t) == PhaseOf(Exec(Init(n), ls).callers[t])
    {
      assert PhaseOf(Init(n).callers[t]) == Ready;
      PhaseFrom(Init(n), ls, t);
    }
  }

  // ---- One address per key ----

  predicate Removes(e: Event, key: string) {
    e.Took? && ((e.op.Detach? && KeyOf(e.op) == key) || (e.op.Destroy? && HasVolumePrefix(key, e.op.volume)))
  }

  predicate Attaches(e: Event, key: string) {
    e.Took? && e.op.Attach? && KeyOf(e.op) == key
  }

  /** A served key keeps its address until something removes it. */
  lemma {:induction false} AddressStays(m: Addresses, es: seq<Event>, key: string, j: nat)
    requires Legal(m, es) && key in m && j < |es| && Attaches(es[j], key)
    requires forall i :: 0 <= i < j ==> !Removes(es[i], key)
    ensures es[j].addr == Some(m[key])
    decreases j
  {
    if j == 0 {
    } else {
      var m' := if es[0].Took? then Effect(m, es[0].op, es[0].addr) else m;
      AddressStays(m', es[1..], key, j - 1);
    }
  }

  lemma {:induction false} SameAddressIn(m: Addresses, es: seq<Event>, key: string, i: nat, j: nat)
    requires Legal(m, es) && i < j < |es| && Attaches(es[i], key) && Attaches(es[j], key)
    requires forall x :: i < x < j ==> !Removes(es[x], key)
    ensures es[i].addr.Some? && es[i].addr == es[j].addr
    decreases i
  {
    var m' := if es[0].Took? then Effect(m, es[0].op, es[0].addr) else m;
    if i == 0 {
      AddressStays(m', es[1..], key, j - 1);
    } else {
      SameAddressIn(m', es[1..], key, i - 1, j - 1);
    }
  }

  /** In every run, attaches of one key with no detach or destroy of it between them get the same address. */
  lemma AttachesAgree(n: nat, ls: seq<Label>, key: string, i: nat, j: nat)
    requires Run(Init(n), ls)
    requires var es := History(Init(n), ls);
             && i < j < |es| && Attaches(es[i], key) && Attaches(es[j], key)
             && forall x :: i < x < j ==> !Removes(es[x], key)
    ensures var es := History(Init(n), ls); es[i].addr.Some? && es[i].addr == es[j].addr
  {
    Linearisable(n, ls);
    SameAddressIn(map[], History(Init(n), ls), key, i, j);
  }
}
