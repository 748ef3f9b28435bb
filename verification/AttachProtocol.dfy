/**
 * Attach, detach and destroy as an interleaving protocol (builtin/govolume.go, builtin/govolume_oci.go).
 *
 * Any number of callers run AttachVolume, DetachVolume or DestroyVolume at once. A step is one
 * locked section, one library call made without the lock, or one move of a serve goroutine or of
 * an NBD client. The mutex is held across steps only by DestroyVolume.
 */
module AttachProtocol {
  import opened Wrappers
  import opened Keys

  /** A volume is served from its pool file or from an in-memory overlay over a frozen image. */
  datatype Mode = PoolMode | OverlayMode

  datatype Listener = Unopened | Open | Closed

  /**
   * What one attach attempt has opened: the pool or image, then the listener with its serve goroutine.
   * store: the pool or image is open. conns: running connection handlers. done: Serve has returned.
   */
  datatype Handle = Handle(key: string, mode: Mode, addr: nat, ln: Listener, store: bool, conns: nat, done: bool)

  datatype Op =
    | Attach(volume: string, host: string)
    | Detach(volume: string, host: string)
    | Destroy(volume: string)

  datatype Outcome = Address(addr: nat) | Success | Failure

  /** nbdServer.close: close the listener, wait for done, release the pool or image. */
  datatype Stage = CloseListener | AwaitDone | CloseStore

  /** What the closing caller does next. */
  datatype After = ReturnWinner(addr: nat) | ReturnError | ResumeSweep(key: string, todo: set<string>)

  /** Where a caller stands. A number is the handle it holds. */
  datatype Point =
    | FirstCheck                                                 // attach: before the first locked section
    | Opening                                                    // attach: before the volume's files are opened
    | Resolved                                                   // attach: the sidecar is read, the image not yet opened
    | Opened(h: nat)                                             // attach: pool or image open, no listener yet
    | Aborting(h: nat)                                           // attach: releasing after an error
    | SecondCheck(h: nat)                                        // attach: serving, before the second locked section
    | ToDelete                                                   // detach: before its locked section
    | ToLock                                                     // destroy: before taking the mutex
    | Sweep(todo: set<string>)                                   // destroy: in the loop with these keys to visit, holding the mutex
    | RemoveDir                                                  // destroy: mutex released
    | Closing(h: nat, stage: Stage, failed: bool, after: After)  // in nbdServer.close
    | Finished(r: Outcome)

  datatype Caller = Idle | Busy(op: Op, at: Point)

  /**
   * servers maps a key to the handle it serves from; lock is the caller that holds the mutex across steps;
   * files are the volumes whose directory holds a pool.bin or a sidecar.
   */
  datatype State = State(callers: seq<Caller>, handles: seq<Handle>, servers: map<string, nat>, lock: Option<nat>,
                         files: set<string>)

  function Init(n: nat): State {
    State(seq(n, _ => Idle), [], map[], None, {})
  }

  datatype Label =
    | Invoke(t: nat, op: Op)
    | Check(t: nat)
    | ReadRef(t: nat)
    | OpenStore(t: nat, mode: Mode)
    | OpenFails(t: nat)
    | VolumeFails(t: nat)
    | Listen(t: nat, port: nat)
    | ListenFails(t: nat)
    | Abort(t: nat)
    | Insert(t: nat)
    | Delete(t: nat)
    | Lock(t: nat)
    | Visit(t: nat, key: string)
    | Unlock(t: nat)
    | Remove(t: nat, fails: bool, gone: bool) // a failed removal may or may not have got to the files
    | CloseLn(t: nat, fails: bool)
    | Wait(t: nat)
    | Release(t: nat, fails: bool)
    | Return(t: nat)
    | Connect(h: nat)
    | Disconnect(h: nat)
    | ServeReturns(h: nat)
    | Provision(volume: string)               // EnsureVolume or RestoreBackup writes the volume's files

  predicate ByCaller(l: Label) {
    !l.Connect? && !l.Disconnect? && !l.ServeReturns? && !l.Provision?
  }

  predicate At(s: State, t: nat) {
    t < |s.callers| && s.callers[t].Busy?
  }

  function PointOf(s: State, t: nat): Point
    requires At(s, t)
  {
    s.callers[t].at
  }

  function OpOf(s: State, t: nat): Op
    requires At(s, t)
  {
    s.callers[t].op
  }

  /** The key of an attach or detach. */
  function KeyOf(op: Op): string {
    match op
    case Attach(v, h) => AttachKey(v, h)
    case Detach(v, h) => AttachKey(v, h)
    case Destroy(_) => ""
  }

  predicate Held(s: State, h: nat) {
    h < |s.handles|
  }

  /** The system never gives a listener the port of another open one. */
  predicate PortFree(s: State, port: nat) {
    forall h :: 0 <= h < |s.handles| && s.handles[h].ln.Open? ==> s.handles[h].addr != port
  }

  predicate Enabled(s: State, l: Label) {
    if l.Invoke? then l.t < |s.callers| && s.callers[l.t].Idle?
    else if ByCaller(l) then At(s, l.t) && CallerEnabled(s, l)
    else l.Provision? || ServeEnabled(s, l)
  }

  predicate CallerEnabled(s: State, l: Label)
    requires ByCaller(l) && !l.Invoke? && At(s, l.t)
  {
    var at := PointOf(s, l.t);
    match l
    case Check(_) => at.FirstCheck? && s.lock.None?
    case ReadRef(_) => at.Opening? && OpOf(s, l.t).volume in s.files
    case OpenStore(_, mode) => if mode.PoolMode? then at.Opening? && OpOf(s, l.t).volume in s.files else at.Resolved?
    case OpenFails(_) => at.Opening? || at.Resolved?
    case VolumeFails(_) => at.Opened? && Held(s, at.h) && s.handles[at.h].mode.PoolMode?
    case Listen(_, port) => at.Opened? && Held(s, at.h) && PortFree(s, port)
    case ListenFails(_) => at.Opened?
    case Abort(_) => at.Aborting? && Held(s, at.h)
    case Insert(_) => at.SecondCheck? && Held(s, at.h) && s.lock.None?
    case Delete(_) => at.ToDelete? && s.lock.None?
    case Lock(_) => at.ToLock? && s.lock.None?
    case Visit(_, key) => at.Sweep? && key in at.todo
    case Unlock(_) => at.Sweep? && at.todo == {}
    case Remove(_, fails, gone) => at.RemoveDir? && (fails || gone)
    case CloseLn(_, _) => at.Closing? && at.stage.CloseListener? && Held(s, at.h)
    case Wait(_) => at.Closing? && at.stage.AwaitDone? && Held(s, at.h) && s.handles[at.h].done
    case Release(_, _) => at.Closing? && at.stage.CloseStore? && Held(s, at.h)
    case Return(_) => at.Finished?
  }

  /** Connections arrive while the listener is open and Serve runs; Serve returns only once they have drained. */
  predicate ServeEnabled(s: State, l: Label)
    requires !ByCaller(l) && !l.Provision?
  {
    && Held(s, l.h)
    && var x := s.handles[l.h];
       match l
       case Connect(_) => x.ln.Open? && !x.done
       case Disconnect(_) => x.conns > 0
       case ServeReturns(_) => !x.ln.Unopened? && x.conns == 0 && !x.done
  }

  function Move(s: State, t: nat, at: Point): State
    requires At(s, t)
  {
    s.(callers := s.callers[t := Busy(OpOf(s, t), at)])
  }

  function SetHandle(s: State, h: nat, x: Handle): State
    requires Held(s, h)
  {
    s.(handles := s.handles[h := x])
  }

  function Apply(s: State, l: Label): State
    requires Enabled(s, l)
  {
    match l
    case Invoke(t, op) => s.(callers := s.callers[t := Busy(op, Start(op))])
    case Check(t) => ApplyCheck(s, t)
    case ReadRef(t) => Move(s, t, Resolved)
    case OpenStore(t, mode) =>
      Move(s, t, Opened(|s.handles|)).(
        handles := s.handles + [Handle(KeyOf(OpOf(s, t)), mode, 0, Unopened, true, 0, false)])
    case OpenFails(t) => Move(s, t, Finished(Failure))
    case VolumeFails(t) => Move(s, t, Aborting(PointOf(s, t).h))
    case Listen(t, port) =>
      var h := PointOf(s, t).h;
      SetHandle(Move(s, t, SecondCheck(h)), h, s.handles[h].(ln := Open, addr := port))
    case ListenFails(t) => Move(s, t, Aborting(PointOf(s, t).h))
    case Abort(t) =>
      var h := PointOf(s, t).h;
      SetHandle(Move(s, t, Finished(Failure)), h, s.handles[h].(store := false))
    case Insert(t) => ApplyInsert(s, t)
    case Delete(t) => ApplyDelete(s, t)
    case Lock(t) => Move(s, t, Sweep(s.servers.Keys)).(lock := Some(t))
    case Visit(t, key) => ApplyVisit(s, t, key)
    case Unlock(t) => Move(s, t, RemoveDir).(lock := None)
    case Remove(t, fails, gone) =>
      Move(s, t, Finished(if fails then Failure else Success)).(files := if gone then s.files - {OpOf(s, t).volume} else s.files)
    case CloseLn(t, fails) =>
      var at := PointOf(s, t);
      SetHandle(Move(s, t, at.(stage := AwaitDone, failed := fails)), at.h, s.handles[at.h].(ln := Closed))
    case Wait(t) => Move(s, t, PointOf(s, t).(stage := CloseStore))
    case Release(t, fails) => ApplyRelease(s, t, fails)
    case Return(t) => s.(callers := s.callers[t := Idle])
    case Connect(h) => SetHandle(s, h, s.handles[h].(conns := s.handles[h].conns + 1))
    case Disconnect(h) => SetHandle(s, h, s.handles[h].(conns := s.handles[h].conns - 1))
    case ServeReturns(h) => SetHandle(s, h, s.handles[h].(done := true))
    case Provision(volume) => s.(files := s.files + {volume})
  }

  /** An empty UUID makes attach fail and destroy succeed at once, before the mutex. */
  function Start(op: Op): Point {
    match op
    case Attach(v, _) => if v == "" then Finished(Failure) else FirstCheck
    case Detach(_, _) => ToDelete
    case Destroy(v) => if v == "" then Finished(Success) else ToLock
  }

  function ApplyCheck(s: State, t: nat): State
    requires At(s, t)
  {
    var key := KeyOf(OpOf(s, t));
    if key in s.servers && Held(s, s.servers[key])
    then Move(s, t, Finished(Address(s.handles[s.servers[key]].addr)))
    else Move(s, t, Opening)
  }

  function ApplyInsert(s: State, t: nat): State
    requires At(s, t) && PointOf(s, t).SecondCheck? && Held(s, PointOf(s, t).h)
  {
    var key, h := KeyOf(OpOf(s, t)), PointOf(s, t).h;
    if key in s.servers && Held(s, s.servers[key])
    then Move(s, t, Closing(h, CloseListener, false, ReturnWinner(s.handles[s.servers[key]].addr)))
    else Move(s, t, Finished(Address(s.handles[h].addr))).(servers := s.servers[key := h])
  }

  function ApplyDelete(s: State, t: nat): State
    requires At(s, t)
  {
    var key := KeyOf(OpOf(s, t));
    if key in s.servers
    then Move(s, t, Closing(s.servers[key], CloseListener, false, ReturnError)).(servers := s.servers - {key})
    else Move(s, t, Finished(Success))
  }

  /** One turn of destroy's loop: a key of the volume has its server closed, any other is passed over. */
  function ApplyVisit(s: State, t: nat, key: string): State
    requires At(s, t) && PointOf(s, t).Sweep?
  {
    var todo := PointOf(s, t).todo - {key};
    if key in s.servers && HasVolumePrefix(key, OpOf(s, t).volume)
    then Move(s, t, Closing(s.servers[key], CloseListener, false, ResumeSweep(key, todo)))
    else Move(s, t, Sweep(todo))
  }

  /** The last stage of close. An image's close error is dropped, a pool's is kept. */
  function ApplyRelease(s: State, t: nat, fails: bool): State
    requires At(s, t) && PointOf(s, t).Closing? && Held(s, PointOf(s, t).h)
  {
    var at := PointOf(s, t);
    var x := s.handles[at.h];
    var failed := at.failed || (fails && x.mode.PoolMode?);
    var s' := SetHandle(s, at.h, x.(store := false));
    match at.after
    case ReturnWinner(addr) => Move(s', t, Finished(Address(addr)))
    case ReturnError => Move(s', t, Finished(if failed then Failure else Success))
    case ResumeSweep(key, todo) => Move(s', t, Sweep(todo)).(servers := s.servers - {key})
  }

  // ---- Runs ----

  predicate Run(s: State, ls: seq<Label>)
    decreases |ls|
  {
    ls == [] || (Enabled(s, ls[0]) && Run(Apply(s, ls[0]), ls[1..]))
  }

  function Exec(s: State, ls: seq<Label>): State
    requires Run(s, ls)
    decreases |ls|
  {
    if ls == [] then s else Exec(Apply(s, ls[0]), ls[1..])
  }

  lemma OneStepRun(s: State, l: Label)
    requires Enabled(s, l)
    ensures Run(s, [l]) && Exec(s, [l]) == Apply(s, l)
  {
    assert [l][1..] == [];
  }

  lemma {:induction false} RunAppend(s: State, xs: seq<Label>, ys: seq<Label>)
    requires Run(s, xs) && Run(Exec(s, xs), ys)
    ensures Run(s, xs + ys) && Exec(s, xs + ys) == Exec(Exec(s, xs), ys)
    decreases |xs|
  {
    if xs == [] {
      assert xs + ys == ys;
    } else {
      assert (xs + ys)[1..] == xs[1..] + ys && (xs + ys)[0] == xs[0];
      RunAppend(Apply(s, xs[0]), xs[1..], ys);
    }
  }
}
