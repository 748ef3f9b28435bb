/**
 * Concurrent commits of OCI-overlay volumes, one system call at a time (builtin/govolume_oci.go).
 * Any number of snapshots and backups run commitOverlay at once; the driver may restart between any
 * two steps. The sidecar and its tmp file are not guarded by the driver's mutex.
 */
module SidecarProtocol {
  import opened Keys
  import opened OciRef
  import opened SparseCopy
  import opened OciVolumes

  /** Where a commit stands: about to push, to read the base back, to write the tmp file, to rename it. */
  datatype Writer =
    | Idle
    | ToPush(v: string, dst: string)
    | ToReadBase(v: string, dst: string)
    | ToWrite(v: string, sc: Sidecar)
    | ToRename(v: string, sc: Sidecar)

  datatype State = State(registry: Registry, sidecars: map<string, File>, tmps: map<string, File>, writers: seq<Writer>)

  datatype Label =
    | Start(t: nat, v: string, dst: string)   // an overlay of v is live
    | Push(t: nat, content: Bytes)            // its view at that moment
    | PushFails(t: nat)
    | ReadBase(t: nat)
    | ReadBaseFails(t: nat)
    | WriteTmp(t: nat)
    | WriteTears(t: nat)                      // fails part-way, leaving a torn tmp file
    | WriteFails(t: nat)
    | Rename(t: nat)
    | RenameFails(t: nat)
    | Restart                                 // the driver dies; files stay
    | Foreign(target: Target, content: Bytes) // another client of the registry pushes a tag

  predicate Enabled(s: State, l: Label) {
    match l
    case Restart => true
    case Foreign(_, _) => true
    case _ =>
      && l.t < |s.writers|
      && var w := s.writers[l.t];
         match l
         case Start(_, _, _) => w.Idle?
         case Push(_, _) => w.ToPush? && Resolve(w.dst).Ok?
         case PushFails(_) => w.ToPush?
         case ReadBase(_) => w.ToReadBase?
         case ReadBaseFails(_) => w.ToReadBase?
         case WriteTmp(_) => w.ToWrite?
         case WriteTears(_) => w.ToWrite?
         case WriteFails(_) => w.ToWrite?
         case Rename(_) => w.ToRename?
         case RenameFails(_) => w.ToRename?
  }

  function Set(s: State, t: nat, w: Writer): State
    requires t < |s.writers|
  {
    s.(writers := s.writers[t := w])
  }

  function Apply(s: State, l: Label): State
    requires Enabled(s, l)
  {
    match l
    case Start(t, v, dst) => Set(s, t, ToPush(v, dst))
    case Push(t, content) =>
      var w := s.writers[t];
      Set(s, t, ToReadBase(w.v, w.dst)).(registry := s.registry[Resolve(w.dst).value := content])
    case PushFails(t) => Set(s, t, Idle)
    case ReadBase(t) =>
      var w := s.writers[t];
      var base := if w.v in s.sidecars && s.sidecars[w.v].Whole? then s.sidecars[w.v].sc.base else "";
      Set(s, t, ToWrite(w.v, Sidecar(base, w.dst)))
    case ReadBaseFails(t) => Set(s, t, ToWrite(s.writers[t].v, Sidecar("", s.writers[t].dst)))
    case WriteTmp(t) =>
      var w := s.writers[t];
      Set(s, t, ToRename(w.v, w.sc)).(tmps := s.tmps[w.v := Whole(w.sc)])
    case WriteTears(t) => Set(s, t, Idle).(tmps := s.tmps[s.writers[t].v := Torn])
    case WriteFails(t) => Set(s, t, Idle)
    case Rename(t) =>
      var v := s.writers[t].v;
      if v in s.tmps
      then Set(s, t, Idle).(sidecars := s.sidecars[v := s.tmps[v]], tmps := s.tmps - {v})
      else Set(s, t, Idle)
    case RenameFails(t) => Set(s, t, Idle)
    case Restart => s.(writers := seq(|s.writers|, _ => Idle))
    case Foreign(target, content) => s.(registry := s.registry[target := content])
  }

  predicate Run(s: State, ls: seq<Label>)
    decreases |ls|
  {
    ls == [] || (Enabled(s, ls[0]) && Run(Apply(s, ls[0]), ls[1..]))
  }

  function Exec(s: State, ls: seq<Label>): State
    requires Run(s, ls)
    decreases |ls|
  {
    if ls == [] then s else Exec(Apply(s, ls[0]), ls[1..])
  }

  // ---- The invariant ----

  /** A record with this base whose current version resolves. */
  predicate GoodRecord(r: Registry, base: string, sc: Sidecar) {
    sc.base == base && Resolves(r, sc.current)
  }

  predicate AtRename(w: Writer, v: string) {
    w.ToRename? && w.v == v
  }

  /** bases says which ref each provisioned volume recorded first. */
  ghost predicate Inv(s: State, bases: map<string, string>) {
    && (forall v :: v in bases ==> SidecarOk(s, bases[v], v) && TmpOk(s, bases[v], v))
    && (forall t :: 0 <= t < |s.writers| ==> WriterOk(s, bases, s.writers[t]))
  }

  ghost predicate SidecarOk(s: State, base: string, v: string) {
    v in s.sidecars && s.sidecars[v].Whole? && GoodRecord(s.registry, base, s.sidecars[v].sc)
  }

  /** A complete tmp file is a good record; it is complete whenever somebody is about to rename it. */
  ghost predicate TmpOk(s: State, base: string, v: string) {
    v in s.tmps ==>
      if s.tmps[v].Whole? then GoodRecord(s.registry, base, s.tmps[v].sc)
      else forall t :: 0 <= t < |s.writers| ==> !AtRename(s.writers[t], v)
  }

  ghost predicate WriterOk(s: State, bases: map<string, string>, w: Writer) {
    match w
    case Idle => true
    case ToPush(v, dst) => v in bases
    case ToReadBase(v, dst) => v in bases && Resolves(s.registry, dst)
    case ToWrite(v, sc) => v in bases && GoodRecord(s.registry, bases[v], sc)
    case ToRename(v, sc) => v in bases && GoodRecord(s.registry, bases[v], sc)
  }

  /** A write is torn while no other commit of the volume stands between its own write and rename. */
  predicate TearIsAlone(s: State, t: nat)
    requires t < |s.writers| && s.writers[t].ToWrite?
  {
    forall u :: 0 <= u < |s.writers| ==> !AtRename(s.writers[u], s.writers[t].v)
  }

  /** Sidecar reads succeed, torn writes are alone, and commits are of provisioned volumes. */
  predicate Benign(s: State, l: Label, bases: map<string, string>)
    requires Enabled(s, l)
  {
    match l
    case Start(_, v, _) => v in bases
    case ReadBaseFails(_) => false
    case WriteTears(t) => TearIsAlone(s, t)
    case _ => true
  }

  predicate BenignRun(s: State, ls: seq<Label>, bases: map<string, string>)
    decreases |ls|
  {
    ls == [] || (Enabled(s, ls[0]) && Benign(s, ls[0], bases) && BenignRun(Apply(s, ls[0]), ls[1..], bases))
  }

  /** Tags are only added or overwritten, so what resolves goes on resolving. */
  lemma RegistryGrows(s: State, l: Label)
    requires Enabled(s, l)
    ensures forall ref :: Resolves(s.registry, ref) ==> Resolves(Apply(s, l).registry, ref)
  {
  }

  lemma SidecarStep(s: State, l: Label, bases: map<string, string>, v: string)
    requires Inv(s, bases) && Enabled(s, l) && Benign(s, l, bases) && v in bases
    ensures SidecarOk(Apply(s, l), bases[v], v)
  {
    RegistryGrows(s, l);
    assert SidecarOk(s, bases[v], v) && TmpOk(s, bases[v], v);
    if l.Rename? {
      assert AtRename(s.writers[l.t], s.writers[l.t].v);
    }
  }

  /** Only a write of the tmp file brings a commit to its rename. */
  lemma RenamersStep(s: State, l: Label, v: string)
    requires Enabled(s, l) && !l.WriteTmp?
    ensures |Apply(s, l).writers| == |s.writers|
    ensures forall t :: 0 <= t < |s.writers| && AtRename(Apply(s, l).writers[t], v) ==> AtRename(s.writers[t], v)
  {
  }

  /** Only the steps of that file's own writers touch a tmp file. */
  lemma TmpsStep(s: State, l: Label, v: string)
    requires Enabled(s, l)
    ensures v in Apply(s, l).tmps ==>
              || (v in s.tmps && Apply(s, l).tmps[v] == s.tmps[v])
              || (l.WriteTmp? && s.writers[l.t].v == v && Apply(s, l).tmps[v] == Whole(s.writers[l.t].sc))
              || (l.WriteTears? && s.writers[l.t].v == v && Apply(s, l).tmps[v] == Torn)
    ensures l.WriteTmp? && v in Apply(s, l).tmps && Apply(s, l).tmps[v].Torn? ==> s.writers[l.t].v != v
  {
  }

  lemma TmpStep(s: State, l: Label, bases: map<string, string>, v: string)
    requires Inv(s, bases) && Enabled(s, l) && Benign(s, l, bases) && v in bases
    ensures TmpOk(Apply(s, l), bases[v], v)
  {
    var s' := Apply(s, l);
    RegistryGrows(s, l);
    TmpsStep(s, l, v);
    assert TmpOk(s, bases[v], v);
    if v in s'.tmps {
      if s'.tmps[v].Whole? {
        if l.WriteTmp? {
          assert WriterOk(s, bases, s.writers[l.t]);
        }
      } else if l.WriteTmp? {
        OtherRenamers(s, l, v);
      } else {
        RenamersStep(s, l, v);
      }
    }
  }

  lemma OtherRenamers(s: State, l: Label, v: string)
    requires Enabled(s, l) && l.WriteTmp? && s.writers[l.t].v != v
    ensures forall t :: 0 <= t < |s.writers| && AtRename(Apply(s, l).writers[t], v) ==> AtRename(s.writers[t], v)
  {
  }

  lemma WriterStep(s: State, l: Label, bases: map<string, string>, t: nat)
    requires Inv(s, bases) && Enabled(s, l) && Benign(s, l, bases) && t < |Apply(s, l).writers|
    ensures WriterOk(Apply(s, l), bases, Apply(s, l).writers[t])
  {
    RegistryGrows(s, l);
    assert WriterOk(s, bases, s.writers[t]);
    if l.ReadBase? && l.t == t {
      assert SidecarOk(s, bases[s.writers[t].v], s.writers[t].v);
    }
  }

  lemma StepInv(s: State, l: Label, bases: map<string, string>)
    requires Inv(s, bases) && Enabled(s, l) && Benign(s, l, bases)
    ensures Inv(Apply(s, l), bases)
  {
    forall v | v in bases ensures SidecarOk(Apply(s, l), bases[v], v) && TmpOk(Apply(s, l), bases[v], v) {
      SidecarStep(s, l, bases, v);
      TmpStep(s, l, bases, v);
    }
    forall t | 0 <= t < |Apply(s, l).writers| ensures WriterOk(Apply(s, l), bases, Apply(s, l).writers[t]) {
      WriterStep(s, l, bases, t);
    }
  }

  lemma {:induction false} BenignRunInv(s: State, ls: seq<Label>, bases: map<string, string>)
    requires Inv(s, bases) && BenignRun(s, ls, bases)
    ensures Run(s, ls) && Inv(Exec(s, ls), bases)
    decreases |ls|
  {
    if ls == [] {
    } else {
      StepInv(s, ls[0], bases);
      BenignRunInv(Apply(s, ls[0]), ls[1..], bases);
    }
  }

  predicate Quiet(s: State) {
    forall t :: 0 <= t < |s.writers| ==> s.writers[t].Idle?
  }

  /** Volumes provisioned with these bases and no commit yet: the sidecars name versions the registry has. */
  ghost predicate Provisioned(s: State, bases: map<string, string>) {
    && Quiet(s) && s.tmps == map[]
    && forall v :: v in bases ==> SidecarOk(s, bases[v], v)
  }

  lemma ProvisionedInv(s: State, bases: map<string, string>)
    requires Provisioned(s, bases)
    ensures Inv(s, bases)
  {
  }

  /**
   * Every intermediate state of every benign run, crashes and concurrent commits included: oci.json of
   * a provisioned volume is a complete record, its base is the first one, its current version resolves.
   */
  lemma SidecarAlwaysGood(s: State, ls: seq<Label>, bases: map<string, string>, v: string)
    requires Provisioned(s, bases) && BenignRun(s, ls, bases) && v in bases
    ensures Run(s, ls) && v in Exec(s, ls).sidecars && Exec(s, ls).sidecars[v].Whole?
    ensures Exec(s, ls).sidecars[v].sc.base == bases[v] && Resolves(Exec(s, ls).registry, Exec(s, ls).sidecars[v].sc.current)
  {
    ProvisionedInv(s, bases);
    BenignRunInv(s, ls, bases);
    assert SidecarOk(Exec(s, ls), bases[v], v);
  }

  // ---- The two conditions are needed ----

  lemma RunCons(s: State, l: Label, ls: seq<Label>)
    requires Enabled(s, l) && Run(Apply(s, l), ls)
    ensures Run(s, [l] + ls) && Exec(s, [l] + ls) == Exec(Apply(s, l), ls)
  {
    assert ([l] + ls)[1..] == ls;
  }

  lemma RunTwo(s: State, l1: Label, l2: Label)
    requires Enabled(s, l1) && Enabled(Apply(s, l1), l2)
    ensures Run(s, [l1, l2]) && Exec(s, [l1, l2]) == Apply(Apply(s, l1), l2)
  {
    RunOne(Apply(s, l1), l2);
    assert [l1, l2][1..] == [l2];
  }

  lemma RunThree(s: State, l1: Label, l2: Label, l3: Label)
    requires Enabled(s, l1) && Enabled(Apply(s, l1), l2) && Enabled(Apply(Apply(s, l1), l2), l3)
    ensures Run(s, [l1, l2, l3]) && Exec(s, [l1, l2, l3]) == Apply(Apply(Apply(s, l1), l2), l3)
  {
    RunTwo(Apply(s, l1), l2, l3);
    RunCons(s, l1, [l2, l3]);
    assert [l1] + [l2, l3] == [l1, l2, l3];
  }

  lemma RunOne(s: State, l: Label)
    requires Enabled(s, l)
    ensures Run(s, [l]) && Exec(s, [l]) == Apply(s, l)
  {
    var none: seq<Label> := [];
    assert [l][1..] == none;
    assert Run(Apply(s, l), none) && Exec(Apply(s, l), none) == Apply(s, l);
  }

  /** The volume's sidecar can be read after every benign continuation. */
  ghost predicate StaysReadable(s: State, v: string, bases: map<string, string>) {
    forall ls :: BenignRun(s, ls, bases) ==> Run(s, ls) && v in Exec(s, ls).sidecars && Exec(s, ls).sidecars[v].Whole?
  }

  /** Another commit of the volume that stands at its rename publishes the torn file. */
  lemma TornIsPublished(s: State, u: nat, v: string, bases: map<string, string>)
    requires u < |s.writers| && AtRename(s.writers[u], v) && v in s.tmps && s.tmps[v].Torn?
    ensures !StaysReadable(s, v, bases)
  {
    var s1 := Apply(s, Rename(u));
    assert [Rename(u)][1..] == [];
    assert BenignRun(s1, [], bases);
    assert BenignRun(s, [Rename(u)], bases);
    assert Run(s, [Rename(u)]) ==> Exec(s, [Rename(u)]) == s1;
    assert s1.sidecars[v] == Torn;
  }

  /**
   * A torn write of a tmp file is harmless if and only if it is alone. Otherwise the other commit's
   * rename publishes the torn file, and the volume can no longer be opened.
   */
  lemma TornWriteIsHarmlessExactly(s: State, t: nat, bases: map<string, string>)
    requires Inv(s, bases) && Enabled(s, WriteTears(t))
    ensures TearIsAlone(s, t) <==> StaysReadable(Apply(s, WriteTears(t)), s.writers[t].v, bases)
  {
    var v, s1 := s.writers[t].v, Apply(s, WriteTears(t));
    assert WriterOk(s, bases, s.writers[t]);
    if TearIsAlone(s, t) {
      StepInv(s, WriteTears(t), bases);
      InvStaysReadable(s1, v, bases);
    } else {
      var u := TornBesideRename(s, t);
      TornIsPublished(s1, u, v, bases);
    }
  }

  lemma TornBesideRename(s: State, t: nat) returns (u: nat)
    requires Enabled(s, WriteTears(t)) && !TearIsAlone(s, t)
    ensures var v, s1 := s.writers[t].v, Apply(s, WriteTears(t));
            u < |s1.writers| && AtRename(s1.writers[u], v) && v in s1.tmps && s1.tmps[v].Torn?
  {
    u :| 0 <= u < |s.writers| && AtRename(s.writers[u], s.writers[t].v);
  }

  lemma InvStaysReadable(s: State, v: string, bases: map<string, string>)
    requires Inv(s, bases) && v in bases
    ensures StaysReadable(s, v, bases)
  {
    forall ls | BenignRun(s, ls, bases)
      ensures Run(s, ls) && v in Exec(s, ls).sidecars && Exec(s, ls).sidecars[v].Whole?
    {
      BenignRunInv(s, ls, bases);
      assert SidecarOk(Exec(s, ls), bases[v], v);
    }
  }

  /** A commit that cannot read the sidecar back publishes an empty base. */
  lemma UnreadBaseIsPublished(s: State, t: nat)
    requires Enabled(s, ReadBaseFails(t))
    ensures var v := s.writers[t].v;
            exists ls :: Run(s, ls) && v in Exec(s, ls).sidecars && Exec(s, ls).sidecars[v] == Whole(Sidecar("", s.writers[t].dst))
  {
    RunThree(s, ReadBaseFails(t), WriteTmp(t), Rename(t));
    assert Run(s, [ReadBaseFails(t), WriteTmp(t), Rename(t)]);
  }

  /** Two commits of one volume stand where the one can tear its write and the other's rename may publish what it writes. */
  predicate Overlap(s: State, t: nat, u: nat) {
    && t < |s.writers| && u < |s.writers| && t != u
    && s.writers[t].ToWrite? && s.writers[u].ToRename? && s.writers[t].v == s.writers[u].v
  }

  /**
   * Two commits of one volume share the tmp file: the first rename may publish the record the second
   * has written, and report success for a version the sidecar does not name; the second rename then fails.
   */
  lemma RenameMayPublishAnother(s: State, t: nat, u: nat)
    requires Overlap(s, u, t)
    ensures Run(s, [WriteTmp(u), Rename(t)])
    ensures var v, s2 := s.writers[u].v, Exec(s, [WriteTmp(u), Rename(t)]);
            && v in s2.sidecars && s2.sidecars[v] == Whole(s.writers[u].sc) && v !in s2.tmps
            && Enabled(s2, Rename(u)) && Apply(s2, Rename(u)).sidecars == s2.sidecars
  {
    RunTwo(s, WriteTmp(u), Rename(t));
  }

  // ---- Both failures can come about ----

  lemma BenignCons(s: State, l: Label, ls: seq<Label>, bases: map<string, string>)
    requires Enabled(s, l) && Benign(s, l, bases) && BenignRun(Apply(s, l), ls, bases) && Run(Apply(s, l), ls)
    ensures BenignRun(s, [l] + ls, bases) && Run(s, [l] + ls) && Exec(s, [l] + ls) == Exec(Apply(s, l), ls)
  {
    assert ([l] + ls)[1..] == ls;
  }

  lemma {:induction false} BenignAppend(s: State, xs: seq<Label>, ys: seq<Label>, bases: map<string, string>)
    requires BenignRun(s, xs, bases) && Run(s, xs) && BenignRun(Exec(s, xs), ys, bases) && Run(Exec(s, xs), ys)
    ensures BenignRun(s, xs + ys, bases) && Run(s, xs + ys) && Exec(s, xs + ys) == Exec(Exec(s, xs), ys)
    decreases |xs|
  {
    if xs == [] {
      assert xs + ys == ys;
    } else {
      var l, rest := xs[0], xs[1..];
      FirstThenRest(xs, ys);
      BenignAppend(Apply(s, l), rest, ys, bases);
      BenignCons(s, l, rest + ys, bases);
    }
  }

  lemma FirstThenRest(xs: seq<Label>, ys: seq<Label>)
    requires xs != []
    ensures xs + ys == [xs[0]] + (xs[1..] + ys)
  {
  }

  /** An idle writer commits up to the point where it writes the tmp file; the others stand still. */
  lemma UpToWrite(s: State, t: nat, v: string, dst: string, bases: map<string, string>) returns (ls: seq<Label>)
    requires t < |s.writers| && s.writers[t].Idle? && v in bases && Resolve(dst).Ok?
    ensures BenignRun(s, ls, bases) && Run(s, ls)
    ensures |Exec(s, ls).writers| == |s.writers|
    ensures var w := Exec(s, ls).writers[t]; w.ToWrite? && w.v == v && w.sc.current == dst
    ensures forall u :: 0 <= u < |s.writers| && u != t ==> Exec(s, ls).writers[u] == s.writers[u]
  {
    var s1 := Apply(s, Start(t, v, dst));
    var s2 := Apply(s1, Push(t, []));
    var s3 := Apply(s2, ReadBase(t));
    assert BenignRun(s3, [], bases) && Run(s3, []) && Exec(s3, []) == s3;
    BenignCons(s2, ReadBase(t), [], bases);
    BenignCons(s1, Push(t, []), [ReadBase(t)] + [], bases);
    BenignCons(s, Start(t, v, dst), [Push(t, [])] + ([ReadBase(t)] + []), bases);
    ls := [Start(t, v, dst)] + ([Push(t, [])] + ([ReadBase(t)] + []));
  }

  /**
   * From any provisioned volumes, with sidecar reads that succeed and no torn write, two commits of one volume can get
   * there: the write of one may then tear beside the other's rename, and that rename may publish its record.
   */
  lemma OverlapIsReachable(s: State, bases: map<string, string>, v: string, t: nat, u: nat, dst1: string, dst2: string)
    returns (ls: seq<Label>)
    requires Provisioned(s, bases) && v in bases && t < |s.writers| && u < |s.writers| && t != u
    requires Resolve(dst1).Ok? && Resolve(dst2).Ok?
    ensures BenignRun(s, ls, bases) && Run(s, ls)
    ensures var s' := Exec(s, ls);
            && Overlap(s', t, u) && s'.writers[t].sc.current == dst1 && s'.writers[u].sc.current == dst2
            && Enabled(s', WriteTears(t)) && !TearIsAlone(s', t)
  {
    var first := UpToRename(s, u, v, dst2, bases);
    var s1 := Exec(s, first);
    var second := UpToWrite(s1, t, v, dst1, bases);
    BenignAppend(s, first, second, bases);
    ls := first + second;
    assert AtRename(Exec(s1, second).writers[u], v);
  }

  lemma UpToRename(s: State, t: nat, v: string, dst: string, bases: map<string, string>) returns (ls: seq<Label>)
    requires t < |s.writers| && s.writers[t].Idle? && v in bases && Resolve(dst).Ok?
    ensures BenignRun(s, ls, bases) && Run(s, ls)
    ensures |Exec(s, ls).writers| == |s.writers|
    ensures var w := Exec(s, ls).writers[t]; w.ToRename? && w.v == v && w.sc.current == dst
    ensures forall u :: 0 <= u < |s.writers| && u != t ==> Exec(s, ls).writers[u] == s.writers[u]
  {
    var before := UpToWrite(s, t, v, dst, bases);
    var s1 := Exec(s, before);
    var s2 := Apply(s1, WriteTmp(t));
    assert BenignRun(s2, [], bases) && Run(s2, []) && Exec(s2, []) == s2;
    BenignCons(s1, WriteTmp(t), [], bases);
    BenignAppend(s, before, [WriteTmp(t)] + [], bases);
    ls := before + ([WriteTmp(t)] + []);
  }

  // ---- One commit per volume at a time ----

  predicate Busy(w: Writer, v: string) {
    !w.Idle? && w.v == v
  }

  /** At most one commit per volume, and its tmp file is its own from its write to its rename. */
  ghost predicate OneEach(s: State) {
    && (forall t, u, v :: 0 <= t < |s.writers| && 0 <= u < |s.writers| && Busy(s.writers[t], v) && Busy(s.writers[u], v) ==> t == u)
    && (forall t :: 0 <= t < |s.writers| ==> OwnsTmp(s, s.writers[t]))
  }

  predicate OwnsTmp(s: State, w: Writer) {
    w.ToRename? ==> w.v in s.tmps && s.tmps[w.v] == Whole(w.sc)
  }

  /** A commit starts only when no other of its volume is running. */
  predicate Polite(s: State, l: Label) {
    l.Start? ==> forall u :: 0 <= u < |s.writers| ==> !Busy(s.writers[u], l.v)
  }

  predicate PoliteRun(s: State, ls: seq<Label>)
    decreases |ls|
  {
    ls == [] || (Enabled(s, ls[0]) && Polite(s, ls[0]) && PoliteRun(Apply(s, ls[0]), ls[1..]))
  }

  lemma OneEachStep(s: State, l: Label)
    requires OneEach(s) && Enabled(s, l) && Polite(s, l)
    ensures OneEach(Apply(s, l))
  {
    var s' := Apply(s, l);
    forall t | 0 <= t < |s'.writers| ensures OwnsTmp(s', s'.writers[t]) {
      assert OwnsTmp(s, s.writers[t]);
      if s'.writers[t].ToRename? && !l.Restart? && !l.Foreign? && l.t != t {
        var v := s.writers[t].v;
        assert Busy(s.writers[t], v) && !Busy(s.writers[l.t], v);
      }
    }
    forall t, u, v | 0 <= t < |s'.writers| && 0 <= u < |s'.writers| && Busy(s'.writers[t], v) && Busy(s'.writers[u], v)
      ensures t == u
    {
      if !l.Start? {
        assert Busy(s.writers[t], v) && Busy(s.writers[u], v);
      }
    }
  }

  lemma {:induction false} PoliteRunOneEach(s: State, ls: seq<Label>)
    requires OneEach(s) && PoliteRun(s, ls)
    ensures Run(s, ls) && OneEach(Exec(s, ls))
    decreases |ls|
  {
    if ls == [] {
    } else {
      OneEachStep(s, ls[0]);
      PoliteRunOneEach(Apply(s, ls[0]), ls[1..]);
    }
  }

  /**
   * If commits of one volume never overlap, then at every point of every run, crashes, failures and
   * commits of other volumes included, a commit that renames publishes exactly its own record.
   */
  lemma EachCommitPublishesItself(s: State, ls: seq<Label>, t: nat)
    requires Quiet(s) && PoliteRun(s, ls)
    ensures Run(s, ls)
    ensures Enabled(Exec(s, ls), Rename(t)) ==>
              var w, after := Exec(s, ls).writers[t], Apply(Exec(s, ls), Rename(t));
              after.sidecars == Exec(s, ls).sidecars[w.v := Whole(w.sc)] && w.v !in after.tmps
  {
    assert OneEach(s);
    PoliteRunOneEach(s, ls);
    assert t < |Exec(s, ls).writers| ==> OwnsTmp(Exec(s, ls), Exec(s, ls).writers[t]);
  }

  // ---- When a commit's rename publishes its own record ----

  /** Another commit of the volume that can still touch its tmp file: not one whose push is bound to be refused. */
  predicate Stirs(w: Writer, v: string) {
    Busy(w, v) && (w.ToPush? ==> Resolve(w.dst).Ok?)
  }

  predicate OthersStir(s: State, t: nat, v: string) {
    exists u :: 0 <= u < |s.writers| && u != t && Stirs(s.writers[u], v)
  }

  /** A step while commit t of v pauses: not its own, no restart, no new commit of v. */
  predicate While(l: Label, t: nat, v: string) {
    match l
    case Restart => false
    case Foreign(_, _) => true
    case Start(u, w, _) => u != t && w != v
    case _ => l.t != t
  }

  predicate AllWhile(ls: seq<Label>, t: nat, v: string) {
    forall i :: 0 <= i < |ls| ==> While(ls[i], t, v)
  }

  /** However long the commit pauses before its rename while no new commit of the volume starts, it still owns the tmp file. */
  ghost predicate KeepsTmp(s: State, t: nat)
    requires t < |s.writers| && s.writers[t].ToRename?
  {
    forall ls :: Run(s, ls) && AllWhile(ls, t, s.writers[t].v) ==> OwnsTmp(Exec(s, ls), s.writers[t])
  }

  lemma UnstirredStep(s: State, l: Label, t: nat, v: string)
    requires Enabled(s, l) && While(l, t, v) && !OthersStir(s, t, v)
    ensures |Apply(s, l).writers| == |s.writers| && !OthersStir(Apply(s, l), t, v)
    ensures v in Apply(s, l).tmps <==> v in s.tmps
    ensures v in s.tmps ==> Apply(s, l).tmps[v] == s.tmps[v]
  {
    if !l.Foreign? {
      assert !Stirs(s.writers[l.t], v);
    }
  }

  lemma {:induction false} UnstirredRun(s: State, ls: seq<Label>, t: nat, w: Writer)
    requires w.ToRename? && Run(s, ls) && AllWhile(ls, t, w.v) && !OthersStir(s, t, w.v) && OwnsTmp(s, w)
    ensures OwnsTmp(Exec(s, ls), w)
    decreases |ls|
  {
    if ls == [] {
    } else {
      assert While(ls[0], t, w.v);
      UnstirredStep(s, ls[0], t, w.v);
      UnstirredRun(Apply(s, ls[0]), ls[1..], t, w);
    }
  }

  /** The next step of a commit that goes on to its rename. */
  function OnToRename(w: Writer, u: nat): Label {
    match w
    case ToPush(_, _) => Push(u, [])
    case ToReadBase(_, _) => ReadBase(u)
    case ToWrite(_, _) => WriteTmp(u)
    case _ => Rename(u)
  }

  function CallsLeft(w: Writer): nat {
    match w case Idle => 0 case ToRename(_, _) => 1 case ToWrite(_, _) => 2 case ToReadBase(_, _) => 3 case ToPush(_, _) => 4
  }

  /** It renames the tmp file away, whoever else needed it. */
  lemma {:induction false} StirringTakesTmp(s: State, t: nat, u: nat, v: string) returns (ls: seq<Label>)
    requires u < |s.writers| && u != t && Stirs(s.writers[u], v)
    ensures Run(s, ls) && AllWhile(ls, t, v) && v !in Exec(s, ls).tmps
    decreases CallsLeft(s.writers[u])
  {
    var l := OnToRename(s.writers[u], u);
    var s1 := Apply(s, l);
    if l.Rename? {
      ls := [];
      assert Run(s1, []) && Exec(s1, []) == s1;
    } else {
      ls := StirringTakesTmp(s1, t, u, v);
    }
    RunCons(s, l, ls);
    ls := [l] + ls;
  }

  /**
   * A commit about to rename a tmp file that is its own keeps it, however long it pauses with no restart and no new
   * commit of its volume, if and only if no other commit of the volume is running that can get past its push.
   */
  lemma KeepsTmpExactly(s: State, t: nat)
    requires t < |s.writers| && s.writers[t].ToRename? && OwnsTmp(s, s.writers[t])
    ensures KeepsTmp(s, t) <==> !OthersStir(s, t, s.writers[t].v)
  {
    var w := s.writers[t];
    if OthersStir(s, t, w.v) {
      var u :| 0 <= u < |s.writers| && u != t && Stirs(s.writers[u], w.v);
      var ls := StirringTakesTmp(s, t, u, w.v);
      assert !OwnsTmp(Exec(s, ls), w);
    } else {
      forall ls | Run(s, ls) && AllWhile(ls, t, w.v) ensures OwnsTmp(Exec(s, ls), w) {
        UnstirredRun(s, ls, t, w);
      }
    }
  }

  /** The system calls of one commit. */
  function CommitCalls(t: nat, v: string, dst: string, view: Bytes): seq<Label> {
    [Start(t, v, dst), Push(t, view)] + [ReadBase(t), WriteTmp(t), Rename(t)]
  }

  /** From the push on: the record with the recorded base is written and published. */
  lemma RecordCalls(s: State, t: nat, v: string, dst: string)
    requires t < |s.writers| && s.writers[t] == ToReadBase(v, dst)
    ensures var ls, base := [ReadBase(t), WriteTmp(t), Rename(t)],
                            if v in s.sidecars && s.sidecars[v].Whole? then s.sidecars[v].sc.base else "";
            && Run(s, ls) && Exec(s, ls).registry == s.registry
            && Exec(s, ls).sidecars == s.sidecars[v := Whole(Sidecar(base, dst))]
  {
    RunThree(s, ReadBase(t), WriteTmp(t), Rename(t));
  }

  /** The system calls of an undisturbed commit add up to the one step the lifecycle takes. */
  lemma UndisturbedCommitIsOneStep(a: Vols, s: State, t: nat, v: string, dst: string, key: string)
    requires s.registry == a.registry && s.sidecars == a.sidecars
    requires t < |s.writers| && s.writers[t].Idle?
    requires key in a.servers && HasVolumePrefix(key, v) && Resolve(dst).Ok?
    ensures Run(s, CommitCalls(t, v, dst, a.servers[key].View()))
    ensures var after := Exec(s, CommitCalls(t, v, dst, a.servers[key].View()));
            Step(a, Committed(v, dst, key, HasSidecar(a, v)), a.(registry := after.registry, sidecars := after.sidecars))
  {
    var view := a.servers[key].View();
    var s1 := Apply(s, Start(t, v, dst));
    var s2 := Apply(s1, Push(t, view));
    var rest := [ReadBase(t), WriteTmp(t), Rename(t)];
    RecordCalls(s2, t, v, dst);
    RunCons(s1, Push(t, view), rest);
    RunCons(s, Start(t, v, dst), [Push(t, view)] + rest);
    assert CommitCalls(t, v, dst, view) == [Start(t, v, dst)] + ([Push(t, view)] + rest);
    assert PushOf(a, v, dst, key, s2.registry);
  }
}
