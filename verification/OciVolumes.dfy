/** OCI-overlay volumes: the version lifecycle of builtin/govolume_oci.go, one operation at a time. */
module OciVolumes {
  import opened Wrappers
  import opened Keys
  import opened OciRef
  import opened SparseCopy

  /** oci.json: the ref first provisioned and the newest committed one. */
  datatype Sidecar = Sidecar(base: string, current: string)

  /** A metadata file: a complete record, or what a failed write left. */
  datatype File = Whole(sc: Sidecar) | Torn

  /** An in-memory overlay: a frozen base and the bytes written over it. */
  datatype Overlay = Overlay(base: Bytes, written: map<nat, Byte>) {
    /** What a reader of the export sees, and what a commit pushes. */
    function View(): Bytes {
      seq(|base|, i requires 0 <= i < |base| => if i in written then written[i] else base[i])
    }
  }

  type Registry = map<Target, Bytes>

  /** Everything that outlives or outgrows a call: the registry, the sidecars on disk, the attached overlays. */
  datatype Vols = Vols(registry: Registry, sidecars: map<string, File>, servers: map<string, Overlay>)

  datatype OciError =
    | BaseRequired
    | BadRef(ref: RefError)
    | OpenImage
    | MakeDir
    | ReadSidecar
    | WriteSidecar
    | RenameSidecar
    | Listen
    | Close
    | RemoveDir
    | NotAttached
    | Commit
    | EmptyUuid
    | TargetRequired

  // ---- What operations do ----

  /** One finished operation. key is the attached server whose overlay was committed. */
  datatype Event =
    | Provisioned(v: string, ref: string)
    | Attached(v: string, host: string)
    | Wrote(key: string, bytes: map<nat, Byte>)
    | Detached(v: string, host: string)
    | Committed(v: string, dst: string, key: string, baseRead: bool)
    | Pushed(v: string, dst: string, key: string)
    | Destroyed(v: string)
    | Stopped(v: string) // a destroy that failed before it removed the sidecar
    | Nothing

  /** The ref resolves to an image the registry has. */
  predicate Resolves(r: Registry, ref: string) {
    Resolve(ref).Ok? && Resolve(ref).value in r
  }

  function ImageAt(r: Registry, ref: string): Bytes
    requires Resolves(r, ref)
  {
    r[Resolve(ref).value]
  }

  predicate HasSidecar(a: Vols, v: string) {
    v in a.sidecars && a.sidecars[v].Whole?
  }

  /** The volume is attached on some host. */
  ghost predicate Served(servers: map<string, Overlay>, v: string) {
    exists k :: k in servers && HasVolumePrefix(k, v)
  }

  function ServersWithout(m: map<string, Overlay>, v: string): map<string, Overlay> {
    map k | k in m && !HasVolumePrefix(k, v) :: m[k]
  }

  /** How an operation changes what is kept. Nothing else may change. */
  ghost predicate Step(a: Vols, e: Event, b: Vols) {
    match e
    case Provisioned(v, ref) =>
      && v !in a.sidecars && Resolves(a.registry, ref)
      && b == a.(sidecars := a.sidecars[v := Whole(Sidecar(ref, ref))])
    case Attached(v, host) =>
      var key := AttachKey(v, host);
      if key in a.servers then b == a
      else
        && HasSidecar(a, v) && Resolves(a.registry, a.sidecars[v].sc.current)
        && b == a.(servers := a.servers[key := Overlay(ImageAt(a.registry, a.sidecars[v].sc.current), map[])])
    case Wrote(key, bytes) =>
      && key in a.servers
      && b == a.(servers := a.servers[key := a.servers[key].(written := a.servers[key].written + bytes)])
    case Detached(v, host) => b == a.(servers := a.servers - {AttachKey(v, host)})
    case Committed(v, dst, key, baseRead) =>
      && PushOf(a, v, dst, key, b.registry)
      && (baseRead ==> HasSidecar(a, v))
      && b == a.(registry := b.registry,
                 sidecars := a.sidecars[v := Whole(Sidecar(if baseRead then a.sidecars[v].sc.base else "", dst))])
    case Pushed(v, dst, key) => PushOf(a, v, dst, key, b.registry) && b == a.(registry := b.registry)
    case Destroyed(v) => b == a.(sidecars := a.sidecars - {v}, servers := ServersWithout(a.servers, v))
    case Stopped(v) => b == a.(servers := ServersWithout(a.servers, v))
    case Nothing => b == a
  }

  /** A commit puts the view of a live overlay of the volume under the destination's tag, and touches no other tag. */
  ghost predicate PushOf(a: Vols, v: string, dst: string, key: string, after: Registry) {
    && key in a.servers && HasVolumePrefix(key, v)
    && Resolve(dst).Ok?
    && after == a.registry[Resolve(dst).value := a.servers[key].View()]
  }

  // ---- Runs ----

  ghost predicate Run(states: seq<Vols>, es: seq<Event>) {
    |states| == |es| + 1 && forall i :: 0 <= i < |es| ==> Step(states[i], es[i], states[i + 1])
  }

  /** The tag an event writes, if any. */
  function Pushes(e: Event): Option<Target> {
    match e
    case Committed(_, dst, _, _) => if Resolve(dst).Ok? then Some(Resolve(dst).value) else None
    case Pushed(_, dst, _) => if Resolve(dst).Ok? then Some(Resolve(dst).value) else None
    case _ => None
  }

  /** Registry frame: at every point of every run a tag that was no commit's destination has its bytes, and no tag has disappeared. */
  lemma {:induction false} OtherTagsKeepTheirBytes(states: seq<Vols>, es: seq<Event>, t: Target, n: nat)
    requires Run(states, es) && n <= |es| && t in states[0].registry
    ensures t in states[n].registry
    ensures (forall i :: 0 <= i < n ==> Pushes(es[i]) != Some(t)) ==> states[n].registry[t] == states[0].registry[t]
    decreases n
  {
    if n == 0 {
    } else {
      OtherTagsKeepTheirBytes(states, es, t, n - 1);
      TagStep(states[n - 1], es[n - 1], states[n], t);
    }
  }

  lemma TagStep(a: Vols, e: Event, b: Vols, t: Target)
    requires Step(a, e, b) && t in a.registry
    ensures t in b.registry && (Pushes(e) != Some(t) ==> b.registry[t] == a.registry[t])
  {
  }

  /** Every commit of the volume among the first n events could read the sidecar back. */
  predicate AllReadBack(es: seq<Event>, v: string, n: nat)
    requires n <= |es|
  {
    forall i :: 0 <= i < n && es[i].Committed? && es[i].v == v ==> es[i].baseRead
  }

  predicate NotDestroyed(es: seq<Event>, v: string) {
    forall i :: 0 <= i < |es| ==> es[i] != Destroyed(v)
  }

  /**
   * The recorded base at every point of a run that does not destroy the volume: it is still the first one if
   * every commit of the volume so far read the sidecar back, and otherwise it is empty.
   */
  lemma {:induction false} BaseAfterRun(states: seq<Vols>, es: seq<Event>, v: string, n: nat)
    requires Run(states, es) && n <= |es| && HasSidecar(states[0], v) && NotDestroyed(es, v)
    ensures HasSidecar(states[n], v)
    ensures states[n].sidecars[v].sc.base == if AllReadBack(es, v, n) then states[0].sidecars[v].sc.base else ""
    decreases n
  {
    if n == 0 {
    } else {
      BaseAfterRun(states, es, v, n - 1);
      BaseStep(states[n - 1], es[n - 1], states[n], v);
    }
  }

  lemma BaseStep(a: Vols, e: Event, b: Vols, v: string)
    requires Step(a, e, b) && HasSidecar(a, v) && e != Destroyed(v)
    ensures HasSidecar(b, v)
    ensures b.sidecars[v].sc.base == if e.Committed? && e.v == v && !e.baseRead then "" else a.sidecars[v].sc.base
  {
  }

  /** So a volume's base is fixed exactly if every commit of it read the sidecar back. */
  lemma BaseIsFixedExactly(states: seq<Vols>, es: seq<Event>, v: string)
    requires Run(states, es) && HasSidecar(states[0], v) && NotDestroyed(es, v)
    requires states[0].sidecars[v].sc.base != ""
    ensures HasSidecar(states[|es|], v)
    ensures states[|es|].sidecars[v].sc.base == states[0].sidecars[v].sc.base <==> AllReadBack(es, v, |es|)
  {
    BaseAfterRun(states, es, v, |es|);
  }

  /** One commit that cannot read the sidecar back loses the base for good: no later snapshot can name its version. */
  lemma UnreadBaseIsLost(states: seq<Vols>, es: seq<Event>, v: string, i: nat)
    requires Run(states, es) && HasSidecar(states[0], v) && NotDestroyed(es, v)
    requires i < |es| && es[i].Committed? && es[i].v == v && !es[i].baseRead
    ensures HasSidecar(states[|es|], v) && states[|es|].sidecars[v].sc.base == ""
    ensures forall tag :: Retag(states[|es|].sidecars[v].sc.base, tag).Err?
  {
    BaseAfterRun(states, es, v, |es|);
  }

  // ---- What a live overlay shows ----

  /** The byte that the last write to offset i through this server put there, among events from..n. */
  function LastWrite(es: seq<Event>, key: string, i: nat, from: nat, n: nat): Option<Byte>
    requires from <= n <= |es|
    decreases n
  {
    if n == from then None
    else if es[n - 1].Wrote? && es[n - 1].key == key && i in es[n - 1].bytes then Some(es[n - 1].bytes[i])
    else LastWrite(es, key, i, from, n - 1)
  }

  /** Event j attaches (v, host) afresh over this image, and the server stays until after event n - 1. */
  ghost predicate AttachedOver(states: seq<Vols>, es: seq<Event>, v: string, host: string, image: Bytes, j: nat, n: nat)
    requires |states| == |es| + 1
  {
    && j < n <= |es| && es[j] == Attached(v, host) && AttachKey(v, host) !in states[j].servers
    && HasSidecar(states[j], v) && Resolves(states[j].registry, states[j].sidecars[v].sc.current)
    && image == ImageAt(states[j].registry, states[j].sidecars[v].sc.current)
    && Stays(states, AttachKey(v, host), j + 1, n)
  }

  /** The overlay is over this image and says this of offset i. */
  predicate Holds(o: Overlay, image: Bytes, i: nat, last: Option<Byte>) {
    o.base == image && (if i in o.written then last == Some(o.written[i]) else last == None)
  }

  lemma FreshHolds(a: Vols, v: string, host: string, b: Vols, i: nat)
    requires Step(a, Attached(v, host), b) && AttachKey(v, host) !in a.servers
    ensures AttachKey(v, host) in b.servers
    ensures Holds(b.servers[AttachKey(v, host)], ImageAt(a.registry, a.sidecars[v].sc.current), i, None)
  {
  }

  lemma StepHolds(a: Vols, e: Event, b: Vols, key: string, image: Bytes, i: nat, last: Option<Byte>)
    requires Step(a, e, b) && key in a.servers && key in b.servers && Holds(a.servers[key], image, i, last)
    ensures Holds(b.servers[key], image, i, if e.Wrote? && e.key == key && i in e.bytes then Some(e.bytes[i]) else last)
  {
  }

  predicate Stays(states: seq<Vols>, key: string, from: nat, n: nat) {
    n < |states| && forall x :: from <= x <= n ==> key in states[x].servers
  }

  /** While the server stays, its overlay is over the same image with the writes through it. */
  lemma {:induction false} HoldsFrom(states: seq<Vols>, es: seq<Event>, key: string, image: Bytes, from: nat, n: nat, i: nat)
    requires Run(states, es) && from <= n <= |es| && Stays(states, key, from, n)
    requires Holds(states[from].servers[key], image, i, None)
    ensures Holds(states[n].servers[key], image, i, LastWrite(es, key, i, from, n))
    decreases n
  {
    if n > from {
      HoldsFrom(states, es, key, image, from, n - 1, i);
      StepHolds(states[n - 1], es[n - 1], states[n], key, image, i, LastWrite(es, key, i, from, n - 1));
    }
  }

  /**
   * The live view. Byte i of what a reader of the export sees, and of what a commit through it pushes, is the one
   * that the last guest write to it since the attach put there, and otherwise the attached image's.
   */
  lemma LiveBytes(states: seq<Vols>, es: seq<Event>, v: string, host: string, image: Bytes, j: nat, n: nat, i: nat)
    requires Run(states, es) && AttachedOver(states, es, v, host, image, j, n) && i < |image|
    ensures var view, last := states[n].servers[AttachKey(v, host)].View(), LastWrite(es, AttachKey(v, host), i, j + 1, n);
            |view| == |image| && view[i] == if last.Some? then last.value else image[i]
  {
    FreshHolds(states[j], v, host, states[j + 1], i);
    HoldsFrom(states, es, AttachKey(v, host), image, j + 1, n, i);
  }

  /** So a commit, and one whose sidecar write then failed, leaves exactly those bytes under its destination's tag. */
  lemma CommitPushesWrites(states: seq<Vols>, es: seq<Event>, v: string, host: string, image: Bytes, j: nat, n: nat, i: nat)
    requires Run(states, es) && AttachedOver(states, es, v, host, image, j, n) && i < |image| && n < |es|
    requires (es[n].Committed? || es[n].Pushed?) && es[n].key == AttachKey(v, host)
    ensures Resolves(states[n + 1].registry, es[n].dst)
    ensures var pushed, last := ImageAt(states[n + 1].registry, es[n].dst), LastWrite(es, AttachKey(v, host), i, j + 1, n);
            |pushed| == |image| && pushed[i] == if last.Some? then last.value else image[i]
  {
    LiveBytes(states, es, v, host, image, j, n, i);
    assert Step(states[n], es[n], states[n + 1]);
  }

  /** One write shows at once, and nowhere else. */
  lemma WriteShows(a: Vols, key: string, bytes: map<nat, Byte>, b: Vols, i: nat)
    requires Step(a, Wrote(key, bytes), b) && i < |a.servers[key].View()|
    ensures key in b.servers && |b.servers[key].View()| == |a.servers[key].View()|
    ensures b.servers[key].View()[i] == if i in bytes then bytes[i] else a.servers[key].View()[i]
  {
  }

  /** A destroy, failed or not, takes exactly its volume's overlays. */
  lemma DestroyKeepsOthers(a: Vols, v: string, b: Vols, k: string)
    requires Step(a, Destroyed(v), b) || Step(a, Stopped(v), b)
    ensures k in b.servers <==> k in a.servers && !(v + "|" <= k)
    ensures k in b.servers ==> b.servers[k] == a.servers[k]
    ensures b.registry == a.registry
    ensures forall u :: u != v ==> (u in b.sidecars <==> u in a.sidecars) && (u in b.sidecars ==> b.sidecars[u] == a.sidecars[u])
  {
    if HasVolumePrefix(k, v) {
      assert k[..|v| + 1] == v + "|";
    }
  }

  // ---- Durability ----

  /** The event decides what its volume owes its next reader. */
  predicate Settles(e: Event, v: string) {
    (e.Provisioned? || e.Committed? || e.Destroyed?) && e.v == v
  }

  /** To what: the image it was provisioned from, the view it committed, or nothing once destroyed. */
  function SettledTo(a: Vols, e: Event): Option<Bytes> {
    match e
    case Provisioned(_, ref) => if Resolves(a.registry, ref) then Some(ImageAt(a.registry, ref)) else None
    case Committed(_, _, key, _) => if key in a.servers then Some(a.servers[key].View()) else None
    case _ => None
  }

  /** What a volume owes after a step, given what it owed before. */
  function Owed(prev: Option<Bytes>, a: Vols, e: Event, v: string): Option<Bytes> {
    if Settles(e, v) then SettledTo(a, e) else prev
  }

  /** What it owes after the first n events. */
  function OwedAfter(states: seq<Vols>, es: seq<Event>, v: string, n: nat): Option<Bytes>
    requires |states| == |es| + 1 && n <= |es|
    decreases n
  {
    if n == 0 then None else Owed(OwedAfter(states, es, v, n - 1), states[n - 1], es[n - 1], v)
  }

  /** The current version of the volume is in the registry with these bytes. */
  predicate Pays(a: Vols, v: string, bytes: Bytes) {
    && HasSidecar(a, v) && Resolves(a.registry, a.sidecars[v].sc.current)
    && ImageAt(a.registry, a.sidecars[v].sc.current) == bytes
  }

  /** The event writes over the volume's current tag without being its own successful commit. */
  predicate Clobbers(a: Vols, e: Event, v: string) {
    && HasSidecar(a, v) && Resolve(a.sidecars[v].sc.current).Ok?
    && Pushes(e) == Some(Resolve(a.sidecars[v].sc.current).value)
    && !(e.Committed? && e.v == v)
  }

  /** A step keeps the debt payable exactly unless it writes other bytes over the volume's current tag. */
  lemma StepPaysExactly(a: Vols, e: Event, b: Vols, v: string, owed: Bytes)
    requires Step(a, e, b) && Pays(a, v, owed)
    ensures Owed(Some(owed), a, e, v).Some? ==>
              (Pays(b, v, Owed(Some(owed), a, e, v).value)
               <==> !(Clobbers(a, e, v) && a.servers[e.key].View() != owed))
    ensures Owed(Some(owed), a, e, v).None? <==> e == Destroyed(v)
  {
    match e
    case Committed(_, _, _, _) => CommitPaysExactly(a, e, b, v, owed);
    case Pushed(_, _, _) => CommitPaysExactly(a, e, b, v, owed);
    case _ => QuietStepPays(a, e, b, v, owed);
  }

  lemma CommitPaysExactly(a: Vols, e: Event, b: Vols, v: string, owed: Bytes)
    requires Step(a, e, b) && Pays(a, v, owed) && (e.Committed? || e.Pushed?)
    ensures Owed(Some(owed), a, e, v).Some?
    ensures Pays(b, v, Owed(Some(owed), a, e, v).value) <==> !(Clobbers(a, e, v) && a.servers[e.key].View() != owed)
  {
    if e.Committed? && e.v == v {
      OwnCommitPays(a, e, b, v);
    } else {
      assert b.sidecars[v] == a.sidecars[v];
      PushPaysExactly(a.registry, b.registry, a.sidecars[v].sc.current, Resolve(e.dst).value, a.servers[e.key].View(), owed);
    }
  }

  lemma OwnCommitPays(a: Vols, e: Event, b: Vols, v: string)
    requires Step(a, e, b) && e.Committed? && e.v == v
    ensures Pays(b, v, a.servers[e.key].View())
  {
  }

  /** A push leaves what a ref resolves to exactly if it goes elsewhere or puts the same bytes there. */
  lemma PushPaysExactly(r: Registry, after: Registry, ref: string, target: Target, view: Bytes, owed: Bytes)
    requires Resolves(r, ref) && ImageAt(r, ref) == owed && after == r[target := view]
    ensures Resolves(after, ref)
    ensures ImageAt(after, ref) == owed <==> !(Resolve(ref).value == target && view != owed)
  {
  }

  /** Without a push the registry stays, and a volume's sidecar changes only by its provisioning or its destruction. */
  lemma QuietStepPays(a: Vols, e: Event, b: Vols, v: string, owed: Bytes)
    requires Step(a, e, b) && Pays(a, v, owed) && !e.Committed? && !e.Pushed?
    ensures e != Destroyed(v) ==> Owed(Some(owed), a, e, v) == Some(owed) && Pays(b, v, owed)
    ensures e == Destroyed(v) ==> Owed(Some(owed), a, e, v) == None
    ensures !Clobbers(a, e, v)
  {
    assert b.registry == a.registry;
  }

  /** What a volume owes is settled by the last such event so far. */
  lemma {:induction false} LastOneSettles(states: seq<Vols>, es: seq<Event>, v: string, i: nat, n: nat)
    requires |states| == |es| + 1 && i < n <= |es| && Settles(es[i], v)
    requires forall j :: i < j < n ==> !Settles(es[j], v)
    ensures OwedAfter(states, es, v, n) == SettledTo(states[i], es[i])
    decreases n
  {
    if i < n - 1 {
      LastOneSettles(states, es, v, i, n - 1);
      assert !Settles(es[n - 1], v);
    }
  }

  /** At every point of a run in which nobody has written over the volume's current tag, what it owes can be paid. */
  lemma {:induction false} RunPays(states: seq<Vols>, es: seq<Event>, v: string, n: nat)
    requires Run(states, es) && n <= |es| && v !in states[0].sidecars
    requires forall i :: 0 <= i < n ==> !Clobbers(states[i], es[i], v)
    ensures v in states[n].sidecars <==> OwedAfter(states, es, v, n).Some?
    ensures OwedAfter(states, es, v, n).Some? ==> Pays(states[n], v, OwedAfter(states, es, v, n).value)
    decreases n
  {
    if n == 0 {
    } else {
      RunPays(states, es, v, n - 1);
      OwedStep(states[n - 1], es[n - 1], states[n], v, OwedAfter(states, es, v, n - 1));
    }
  }

  lemma OwedStep(a: Vols, e: Event, b: Vols, v: string, before: Option<Bytes>)
    requires Step(a, e, b) && !Clobbers(a, e, v)
    requires (v in a.sidecars <==> before.Some?) && (before.Some? ==> Pays(a, v, before.value))
    ensures v in b.sidecars <==> Owed(before, a, e, v).Some?
    ensures Owed(before, a, e, v).Some? ==> Pays(b, v, Owed(before, a, e, v).value)
  {
    if before.Some? {
      StepPaysExactly(a, e, b, v, before.value);
    }
  }

  /**
   * Durability. Event i is the last that settled what the volume owes. Whenever the volume is then attached
   * afresh, in any run in which nobody writes over its current tag, it has not been destroyed and the guest
   * reads the view pushed by that commit, or the image of that provisioning; later writes are gone.
   */
  lemma ReattachReadsLastCommit(states: seq<Vols>, es: seq<Event>, v: string, host: string, after: Vols, i: nat)
    requires Run(states, es) && v !in states[0].sidecars
    requires i < |es| && Settles(es[i], v) && forall j :: i < j < |es| ==> !Settles(es[j], v)
    requires forall j :: 0 <= j < |es| ==> !Clobbers(states[j], es[j], v)
    requires AttachKey(v, host) !in states[|es|].servers
    requires Step(states[|es|], Attached(v, host), after)
    ensures !es[i].Destroyed? && AttachKey(v, host) in after.servers
    ensures SettledTo(states[i], es[i]) == Some(after.servers[AttachKey(v, host)].View())
  {
    RunPays(states, es, v, |es|);
    LastOneSettles(states, es, v, i, |es|);
    FreshView(states[|es|], v, host, after, SettledTo(states[i], es[i]).value);
  }

  /** A fresh attachment shows the current version. */
  lemma FreshView(a: Vols, v: string, host: string, b: Vols, bytes: Bytes)
    requires Step(a, Attached(v, host), b) && AttachKey(v, host) !in a.servers && Pays(a, v, bytes)
    ensures AttachKey(v, host) in b.servers && b.servers[AttachKey(v, host)].View() == bytes
  {
  }

  /** A fresh tag is no current one. */
  lemma FreshTagSpares(a: Vols, e: Event, v: string)
    requires HasSidecar(a, v) ==> Resolves(a.registry, a.sidecars[v].sc.current)
    requires Pushes(e).Some? ==> Pushes(e).value !in a.registry
    ensures !Clobbers(a, e, v)
  {
  }

  /** Commit tags are never reused: each push of the run goes to a tag that is not in the registry yet. */
  predicate NeverReuses(states: seq<Vols>, es: seq<Event>)
    requires |states| == |es| + 1
  {
    forall i :: 0 <= i < |es| && Pushes(es[i]).Some? ==> Pushes(es[i]).value !in states[i].registry
  }

  /** Never reusing a tag is enough: along such a run nobody writes over the volume's current tag. */
  lemma {:induction false} FreshTagsNeverClobber(states: seq<Vols>, es: seq<Event>, v: string, n: nat)
    requires Run(states, es) && n <= |es| && v !in states[0].sidecars && NeverReuses(states, es)
    ensures forall i :: 0 <= i < n ==> !Clobbers(states[i], es[i], v)
    decreases n
  {
    if n == 0 {
    } else {
      FreshTagsNeverClobber(states, es, v, n - 1);
      RunPays(states, es, v, n - 1);
      FreshTagSpares(states[n - 1], es[n - 1], v);
    }
  }

  /** Durability as the driver promises it: with tags never reused, a fresh attach reads what the last commit pushed. */
  lemma FreshTagsKeepCommits(states: seq<Vols>, es: seq<Event>, v: string, host: string, after: Vols, i: nat)
    requires Run(states, es) && v !in states[0].sidecars && NeverReuses(states, es)
    requires i < |es| && Settles(es[i], v) && forall j :: i < j < |es| ==> !Settles(es[j], v)
    requires AttachKey(v, host) !in states[|es|].servers
    requires Step(states[|es|], Attached(v, host), after)
    ensures !es[i].Destroyed? && AttachKey(v, host) in after.servers
    ensures SettledTo(states[i], es[i]) == Some(after.servers[AttachKey(v, host)].View())
  {
    FreshTagsNeverClobber(states, es, v, |es|);
    ReattachReadsLastCommit(states, es, v, host, after, i);
  }

  /** Detaching forgets what was not committed: attached again, the volume reads its current version, and no other server has changed. */
  lemma DetachForgetsWrites(a: Vols, v: string, host: string, b: Vols, c: Vols)
    requires Step(a, Detached(v, host), b) && Step(b, Attached(v, host), c)
    ensures HasSidecar(a, v) && Resolves(a.registry, a.sidecars[v].sc.current)
    ensures AttachKey(v, host) in c.servers
    ensures c.servers[AttachKey(v, host)].View() == ImageAt(a.registry, a.sidecars[v].sc.current)
    ensures forall k :: k != AttachKey(v, host) ==> (k in c.servers <==> k in a.servers) && (k in c.servers ==> c.servers[k] == a.servers[k])
    ensures c.registry == a.registry && c.sidecars == a.sidecars
  {
  }

  /** A snapshot's tag goes to the base's own tag exactly when it is given that tag's name. */
  lemma SnapshotCanReplaceBase(base: string, tag: string)
    requires Parse(base).Ok? && Retag(base, tag).Ok?
    ensures Parse(Retag(base, tag).value) == Parse(base) <==> tag == Parse(base).value.tag
  {
    RetagKeepsRepository(base, tag);
    ParsedTagHasNoColon(base);
    var t := Parse(base).value;
    assert Ok(t.(tag := tag)) == Parse(base) <==> tag == t.tag;
  }

  lemma ParsedTagHasNoColon(ref: string)
    requires Parse(ref).Ok?
    ensures ':' !in Parse(ref).value.tag
  {
    PrintParse(ref);
  }

  /** And then the base image is the snapshot's view from there on; under any other name it keeps its bytes. */
  lemma SnapshotReplacesBaseExactly(a: Vols, v: string, base: string, tag: string, key: string, baseRead: bool, b: Vols)
    requires Resolves(a.registry, base) && Retag(base, tag).Ok?
    requires Step(a, Committed(v, Retag(base, tag).value, key, baseRead), b)
    ensures Resolves(b.registry, base)
    ensures ImageAt(b.registry, base) ==
            if tag == Parse(base).value.tag then a.servers[key].View() else ImageAt(a.registry, base)
  {
    SnapshotCanReplaceBase(base, tag);
  }

  // ---- The driver ----

  /** How a sidecar write fails: not at all, before writing, part-way through the tmp file, or at the rename. */
  datatype WriteFault = Written | NotWritten | TornWrite | NotRenamed

  /** How the removal of a volume's directory goes. */
  datatype RemoveFault = Removed | Partly(sidecarLeft: bool, tmpLeft: bool)

  /** Which calls fail in one operation. */
  datatype Faults = Faults(read: bool, reread: bool, open: bool, mkdir: bool, listen: bool, commit: bool, write: WriteFault)

  class GoVolume {
    var registry: Registry
    var dirs: set<string>            // volume directories
    var sidecars: map<string, File>  // oci.json
    var tmps: map<string, File>      // oci.json.tmp
    var servers: map<string, Overlay>

    constructor ()
      ensures Kept() == Vols(map[], map[], map[])
    {
      registry, dirs, sidecars, tmps, servers := map[], {}, map[], map[], map[];
    }

    function Kept(): Vols
      reads this
    {
      Vols(registry, sidecars, servers)
    }

    /** readOCISidecar. */
    method ReadSidecar(uuid: string, fails: bool) returns (r: Result<Sidecar, OciError>)
      ensures r.Ok? <==> !fails && uuid in sidecars && sidecars[uuid].Whole?
      ensures r.Ok? ==> sidecars[uuid] == Whole(r.value)
    {
      if fails || uuid !in sidecars {
        return Err(OciError.ReadSidecar);
      }
      match sidecars[uuid]
      case Whole(sc) => return Ok(sc);
      case Torn => return Err(OciError.ReadSidecar);
    }

    /** writeOCISidecar: the tmp file first, then the rename. The sidecar changes whole or not at all. */
    method WriteSidecar(uuid: string, sc: Sidecar, fault: WriteFault) returns (err: Option<OciError>)
      modifies this`tmps, this`sidecars
      ensures err.None? <==> fault.Written? && uuid in dirs
      ensures sidecars == if err.None? then old(sidecars)[uuid := Whole(sc)] else old(sidecars)
      ensures forall u :: u != uuid ==> (u in tmps <==> u in old(tmps)) && (u in tmps ==> tmps[u] == old(tmps)[u])
    {
      if fault.NotWritten? || uuid !in dirs {
        return Some(OciError.WriteSidecar);
      }
      if fault.TornWrite? {
        tmps := tmps[uuid := Torn];
        return Some(OciError.WriteSidecar);
      }
      tmps := tmps[uuid := Whole(sc)];
      if fault.NotRenamed? {
        return Some(OciError.RenameSidecar);
      }
      sidecars := sidecars[uuid := tmps[uuid]];
      tmps := tmps - {uuid};
      return None;
    }

    /** The tail shared by provisioning and restoring: check that the ref opens, then record it. */
    method Record(uuid: string, ref: string, f: Faults) returns (err: Option<OciError>)
      requires uuid !in sidecars
      modifies this`dirs, this`tmps, this`sidecars
      ensures err.None? <==> Resolves(registry, ref) && !f.open && !f.mkdir && f.write.Written?
      ensures sidecars == if err.None? then old(sidecars)[uuid := Whole(Sidecar(ref, ref))] else old(sidecars)
      ensures Step(old(Kept()), if err.None? then Provisioned(uuid, ref) else Nothing, Kept())
      ensures dirs == old(dirs) || dirs == old(dirs) + {uuid}
      ensures err.None? ==> uuid in dirs
    {
      var target := Resolve(ref);
      if target.Err? {
        return Some(BadRef(target.error));
      }
      if f.open || target.value !in registry {
        return Some(OpenImage);
      }
      if f.mkdir {
        return Some(MakeDir);
      }
      dirs := dirs + {uuid};
      err := WriteSidecar(uuid, Sidecar(ref, ref), f.write);
    }

    /** ensureOCIVolume. baseRef is the trimmed spec name; an existing sidecar makes it a no-op. */
    method EnsureVolume(uuid: string, baseRef: string, f: Faults) returns (err: Option<OciError>)
      modifies this`dirs, this`tmps, this`sidecars
      ensures baseRef == "" ==> err == Some(BaseRequired)
      ensures baseRef != "" ==>
                (err.None? <==> uuid in old(sidecars)
                                || (Resolves(registry, baseRef) && !f.open && !f.mkdir && f.write.Written?))
      ensures Step(old(Kept()), if err.None? && uuid !in old(sidecars) then Provisioned(uuid, baseRef) else Nothing, Kept())
      ensures sidecars == if err.None? && uuid !in old(sidecars)
                          then old(sidecars)[uuid := Whole(Sidecar(baseRef, baseRef))] else old(sidecars)
    {
      if baseRef == "" {
        return Some(BaseRequired);
      }
      if uuid in sidecars {
        return None;
      }
      err := Record(uuid, baseRef, f);
    }

    /** restoreOCIVolume: a new volume whose base and current are the given version. */
    method RestoreVolume(uuid: string, backupUrl: string, f: Faults) returns (err: Option<OciError>)
      modifies this`dirs, this`tmps, this`sidecars
      ensures err.None? <==> uuid in old(sidecars)
                             || (Resolves(registry, backupUrl) && !f.open && !f.mkdir && f.write.Written?)
      ensures Step(old(Kept()), if err.None? && uuid !in old(sidecars) then Provisioned(uuid, backupUrl) else Nothing, Kept())
      ensures sidecars == if err.None? && uuid !in old(sidecars)
                          then old(sidecars)[uuid := Whole(Sidecar(backupUrl, backupUrl))] else old(sidecars)
    {
      if uuid in sidecars {
        return None;
      }
      err := Record(uuid, backupUrl, f);
    }

    /** openOverlay: a fresh overlay over the current version. */
    method OpenOverlay(uuid: string, f: Faults) returns (r: Result<Overlay, OciError>)
      ensures r.Ok? <==> HasSidecar(Kept(), uuid) && Resolves(registry, sidecars[uuid].sc.current) && !f.read && !f.open
      ensures r.Ok? ==> r.value == Overlay(ImageAt(registry, sidecars[uuid].sc.current), map[])
    {
      var sc := ReadSidecar(uuid, f.read);
      if sc.Err? {
        return Err(sc.error);
      }
      var target := Resolve(sc.value.current);
      if target.Err? {
        return Err(BadRef(target.error));
      }
      if f.open || target.value !in registry {
        return Err(OpenImage);
      }
      return Ok(Overlay(registry[target.value], map[]));
    }

    /** AttachVolume of an OCI volume, uncontended. */
    method AttachVolume(uuid: string, host: string, f: Faults) returns (err: Option<OciError>)
      modifies this`servers
      ensures Step(old(Kept()), if err.None? then Attached(uuid, host) else Nothing, Kept())
      ensures uuid == "" ==> err == Some(EmptyUuid)
      ensures uuid != "" ==>
                (err.None? <==> || AttachKey(uuid, host) in old(servers)
                                || (&& HasSidecar(Kept(), uuid) && Resolves(registry, sidecars[uuid].sc.current)
                                    && !f.read && !f.open && !f.listen))
    {
      if uuid == "" {
        return Some(EmptyUuid);
      }
      var key := AttachKey(uuid, host);
      if key in servers {
        return None;
      }
      var overlay := OpenOverlay(uuid, f);
      if overlay.Err? {
        return Some(overlay.error);
      }
      if f.listen {
        return Some(Listen);
      }
      servers := servers[key := overlay.value];
      return None;
    }

    /** The guest writes through its export. */
    method GuestWrite(key: string, bytes: map<nat, Byte>)
      requires key in servers
      modifies this`servers
      ensures Step(old(Kept()), Wrote(key, bytes), Kept())
    {
      servers := servers[key := servers[key].(written := servers[key].written + bytes)];
    }

    /** DetachVolume, uncontended: whatever was not committed goes with the overlay. The server is gone even if its close fails. */
    method DetachVolume(uuid: string, host: string, closeFails: bool) returns (err: Option<OciError>)
      modifies this`servers
      ensures Step(old(Kept()), Detached(uuid, host), Kept())
      ensures err == if closeFails && AttachKey(uuid, host) in old(servers) then Some(Close) else None
    {
      var key := AttachKey(uuid, host);
      var ok := key in servers;
      servers := servers - {key};
      if !ok {
        return None;
      }
      return if closeFails then Some(Close) else None;
    }

    /** The loop of DestroyVolume over the map, in any order. */
    method RemoveServers(uuid: string)
      modifies this`servers
      ensures servers == ServersWithout(old(servers), uuid)
    {
      var left := servers.Keys;
      while left != {}
        invariant left <= servers.Keys <= old(servers).Keys
        invariant forall k :: k in servers ==> servers[k] == old(servers)[k]
        invariant forall k :: k in old(servers) && k !in left ==> (k in servers <==> !HasVolumePrefix(k, uuid))
        decreases |left|
      {
        var key :| key in left;
        left := left - {key};
        if HasVolumePrefix(key, uuid) {
          servers := servers - {key};
        }
      }
    }

    /**
     * DestroyVolume, uncontended: the loop over the map, then the volume's directory. A failed removal may have
     * deleted some of the files; the servers are gone whether or not it fails.
     */
    method DestroyVolume(uuid: string, f: RemoveFault) returns (err: Option<OciError>)
      modifies this
      ensures err == if uuid != "" && f.Partly? then Some(RemoveDir) else None
      ensures Step(old(Kept()), if uuid == "" then Nothing else if f.Partly? && f.sidecarLeft then Stopped(uuid) else Destroyed(uuid),
                   Kept())
      ensures dirs == if uuid == "" || f.Partly? then old(dirs) else old(dirs) - {uuid}
      ensures tmps == if uuid == "" || (f.Partly? && f.tmpLeft) then old(tmps) else old(tmps) - {uuid}
    {
      if uuid == "" {
        return None;
      }
      RemoveServers(uuid);
      match f
      case Removed =>
        dirs, sidecars, tmps := dirs - {uuid}, sidecars - {uuid}, tmps - {uuid};
        return None;
      case Partly(sidecarLeft, tmpLeft) =>
        if !sidecarLeft {
          sidecars := sidecars - {uuid};
        }
        if !tmpLeft {
          tmps := tmps - {uuid};
        }
        return Some(RemoveDir);
    }

    /** liveOverlay: some attached server of the volume, if there is one. */
    method LiveOverlay(uuid: string) returns (live: Option<string>)
      ensures live.Some? ==> live.value in servers && HasVolumePrefix(live.value, uuid)
      ensures live.Some? <==> Served(servers, uuid)
    {
      var left := servers.Keys;
      while left != {}
        invariant left <= servers.Keys
        invariant forall k :: k in servers && k !in left ==> !HasVolumePrefix(k, uuid)
        decreases |left|
      {
        var key :| key in left;
        if HasVolumePrefix(key, uuid) {
          return Some(key);
        }
        left := left - {key};
      }
      return None;
    }

    /** baseRef: the recorded base, or "" when the sidecar cannot be read. */
    method BaseRef(uuid: string, fails: bool) returns (base: string)
      ensures base == if !fails && HasSidecar(Kept(), uuid) then sidecars[uuid].sc.base else ""
    {
      var sc := ReadSidecar(uuid, fails);
      return if sc.Ok? then sc.value.base else "";
    }

    /** commitOverlay: push the live overlay, then advance the sidecar. A failed sidecar write leaves the pushed tag. */
    method CommitOverlay(uuid: string, dst: string, f: Faults) returns (r: Result<string, OciError>, ghost e: Event)
      modifies this`registry, this`tmps, this`sidecars
      ensures Step(old(Kept()), e, Kept())
      ensures r.Ok? <==> && Served(servers, uuid) && Resolve(dst).Ok? && uuid in dirs
                         && !f.commit && f.write.Written?
      ensures r.Ok? ==> r.value == dst && e.Committed? && e.v == uuid && e.dst == dst
                        && HasSidecar(Kept(), uuid) && sidecars[uuid].sc.current == dst
                        && (e.baseRead <==> !f.reread && HasSidecar(old(Kept()), uuid))
      ensures r.Err? ==> e.Nothing? || (e.Pushed? && e.v == uuid && e.dst == dst)
      ensures !Served(servers, uuid) ==> r == Err(NotAttached) && e.Nothing?
    {
      e := Nothing;
      var live := LiveOverlay(uuid);
      if live.None? {
        return Err(NotAttached), e;
      }
      var target := Resolve(dst);
      if target.Err? {
        return Err(BadRef(target.error)), e;
      }
      if f.commit {
        return Err(Commit), e;
      }
      registry := registry[target.value := servers[live.value].View()];
      e := Pushed(uuid, dst, live.value);
      var base := BaseRef(uuid, f.reread);
      var err := WriteSidecar(uuid, Sidecar(base, dst), f.write);
      if err.Some? {
        return Err(err.value), e;
      }
      e := Committed(uuid, dst, live.value, !f.reread && HasSidecar(old(Kept()), uuid));
      return Ok(dst), e;
    }

    /** snapshotOCIVolume: commit to a new tag of the base's repository. now is the timestamped tag used when no name is given. */
    method SnapshotVolume(uuid: string, name: string, now: string, f: Faults) returns (r: Result<string, OciError>, ghost e: Event)
      modifies this`registry, this`tmps, this`sidecars
      ensures Step(old(Kept()), e, Kept())
      ensures r.Ok? <==> && !f.read && HasSidecar(old(Kept()), uuid)
                         && var dst := Retag(old(sidecars)[uuid].sc.base, if name == "" then now else name);
                            && dst.Ok? && Resolve(dst.value).Ok? && Served(servers, uuid) && uuid in dirs
                            && !f.commit && f.write.Written?
      ensures r.Ok? ==>
                && !f.read && HasSidecar(old(Kept()), uuid)
                && Retag(old(sidecars)[uuid].sc.base, if name == "" then now else name) == Ok(r.value)
                && e.Committed? && e.v == uuid && e.dst == r.value
                && HasSidecar(Kept(), uuid) && sidecars[uuid].sc.current == r.value
                && (e.baseRead <==> !f.reread)
      ensures r.Err? ==> e.Nothing? || (e.Pushed? && e.v == uuid)
    {
      e := Nothing;
      var base := BaseRef(uuid, f.read);
      var tag := if name == "" then now else name;
      var dst := Retag(base, tag);
      if dst.Err? {
        return Err(BadRef(dst.error)), e;
      }
      r, e := CommitOverlay(uuid, dst.value, f);
    }

    /** backupOCIVolume: commit to an explicit target. */
    method BackupVolume(uuid: string, target: string, f: Faults) returns (r: Result<string, OciError>, ghost e: Event)
      modifies this`registry, this`tmps, this`sidecars
      ensures Step(old(Kept()), e, Kept())
      ensures target == "" ==> r == Err(TargetRequired) && e.Nothing?
      ensures target != "" ==>
                (r.Ok? <==> && Served(servers, uuid) && Resolve(target).Ok? && uuid in dirs
                            && !f.commit && f.write.Written?)
      ensures r.Ok? ==> r.value == target && e.Committed? && e.v == uuid && e.dst == target
                        && HasSidecar(Kept(), uuid) && sidecars[uuid].sc.current == target
                        && (e.baseRead <==> !f.reread && HasSidecar(old(Kept()), uuid))
      ensures r.Err? ==> e.Nothing? || (e.Pushed? && e.v == uuid && e.dst == target)
    {
      e := Nothing;
      if target == "" {
        return Err(TargetRequired), e;
      }
      r, e := CommitOverlay(uuid, target, f);
    }
  }

  /**
   * Attach a volume that is attached nowhere, write through the export, commit to a tag: if both succeed the tag holds
   * the bytes written, and the current version's elsewhere, and the volume's current version is that tag.
   */
  method AttachWriteCommit(g: GoVolume, uuid: string, host: string, bytes: map<nat, Byte>, dst: string, f1: Faults, f2: Faults)
    returns (err: Option<OciError>, r: Result<string, OciError>)
    requires !Served(g.servers, uuid)
    modifies g
    ensures err.None? && r.Ok? ==>
              && HasSidecar(old(g.Kept()), uuid) && Resolves(old(g.registry), old(g.sidecars)[uuid].sc.current)
              && Resolves(g.registry, dst)
              && var image, pushed := ImageAt(old(g.registry), old(g.sidecars)[uuid].sc.current), ImageAt(g.registry, dst);
                 && |pushed| == |image|
                 && (forall i :: 0 <= i < |image| ==> pushed[i] == if i in bytes then bytes[i] else image[i])
                 && HasSidecar(g.Kept(), uuid) && g.sidecars[uuid].sc.current == dst
  {
    r := Err(NotAttached);
    var key := AttachKey(uuid, host);
    assert HasVolumePrefix(key, uuid);
    err := g.AttachVolume(uuid, host, f1);
    if err.Some? {
      return;
    }
    g.GuestWrite(key, bytes);
    assert forall k :: k in g.servers && HasVolumePrefix(k, uuid) ==> k == key;
    ghost var e;
    r, e := g.CommitOverlay(uuid, dst, f2);
  }
}
