/** Pool-backed volumes: provisioning, snapshots, backup and restore (builtin/govolume.go). */
module PoolVolumes {
  import opened Wrappers
  import opened OciRef
  import opened SparseCopy
  import opened Sorting

  const DISK := "disk"
  const GIB: int := 0x4000_0000

  /** One pool.bin: its capacity and its logical volumes, the live disk among them. */
  datatype PoolFile = PoolFile(capacity: int, volumes: map<string, Bytes>)

  type Pools = map<string, PoolFile>

  datatype VolumeError =
    | EmptyUuid
    | BadSize
    | OpenPool
    | OpenVolume
    | CannotGrow
    | MakeDir
    | CreatePool
    | CreateDisk
    | ImageSize
    | Materialise(io: IOError)
    | SyncPool
    | BadTarget(ref: RefError)
    | OpenImage
    | Freeze
    | NameRequired
    | NameReserved
    | SnapshotRefused

  /** Which library and system calls fail in one operation, and how its image read and disk writes behave. */
  datatype Faults = Faults(open: bool, mkdir: bool, create: bool, disk: bool, size: bool, sync: bool,
                           registry: bool, answers: seq<Answer>, badWrites: seq<bool>)

  /** No call fails, but for reads of the image. */
  predicate NoCallFails(f: Faults) {
    !f.open && !f.mkdir && !f.create && !f.disk && !f.size && !f.sync && !f.registry && f.badWrites == []
  }

  /** Nothing fails; image reads may still be short. */
  predicate NoFaults(f: Faults) {
    NoCallFails(f) && OnlyShort(f.answers)
  }

  /** The requested size in bytes, in int64. */
  function WantBytes(sizeGiB: int64): int64 {
    Wrap64(sizeGiB as int * GIB)
  }

  /** It is exact for sizes below 2^33 GiB in magnitude, and wraps for all others. */
  lemma WantBytesExactly(sizeGiB: int64)
    ensures WantBytes(sizeGiB) as int == sizeGiB as int * GIB <==> -0x2_0000_0000 <= sizeGiB as int < 0x2_0000_0000
  {
  }

  /** So an absurd request is not refused: 2^34 GiB becomes an empty disk. */
  lemma WantBytesCanVanish()
    ensures WantBytes(0x4_0000_0000) == 0
  {
  }

  /** A freshly provisioned pool: room for the disk and one GiB, and a disk of zeros. */
  function NewPool(want: nat): PoolFile {
    PoolFile(want + GIB, map[DISK := Zeros(want)])
  }

  /** The size a restore settles on: the image's, or a larger requested one. */
  function RestoreSize(imgSize: nat, sizeGiB: int64): nat {
    if WantBytes(sizeGiB) as int > imgSize then WantBytes(sizeGiB) as nat else imgSize
  }

  /** No wrap-around up to 2^33 - 2 GiB and images up to 2^63 - 1 - 2^30 bytes. */
  lemma RestoreSizeExact(imgSize: nat, sizeGiB: int64)
    requires 0 <= sizeGiB as int <= 0x2_0000_0000 - 2 && imgSize <= TWO63 - 1 - GIB
    ensures RestoreSize(imgSize, sizeGiB) == (if sizeGiB as int * GIB > imgSize then sizeGiB as int * GIB else imgSize)
    ensures Wrap64(RestoreSize(imgSize, sizeGiB) + GIB) as int == RestoreSize(imgSize, sizeGiB) + GIB
  {
    WantBytesExactly(sizeGiB);
  }

  /** The pool's capacity is one GiB more than its disk, or comes out negative and is refused. */
  lemma CapacityFits(size: nat)
    requires size < TWO63
    ensures Wrap64(size + GIB) as int == if size + GIB < TWO63 then size + GIB else size + GIB - 2 * TWO63
  {
  }

  /** A frozen image materialised on a disk of this size: its bytes, then zeros. */
  function Materialised(image: Bytes, size: nat): Bytes
    requires |image| <= size
  {
    image + Zeros(size - |image|)
  }

  // ---- One pool as the guest and the snapshots see it ----

  datatype PoolOp = GuestWrite(off: nat, bytes: Bytes) | Snapshot(name: string)

  /** pool.Snapshot refuses a name that is taken; the driver refuses "disk". */
  predicate CanSnapshot(p: PoolFile, name: string) {
    name != DISK && DISK in p.volumes && name !in p.volumes
  }

  /** A snapshot is the disk's content when it is taken; later writes change the disk alone. */
  function PoolStep(p: PoolFile, op: PoolOp): PoolFile {
    match op
    case GuestWrite(off, bytes) =>
      if DISK in p.volumes then p.(volumes := p.volumes[DISK := Overwrite(p.volumes[DISK], off, bytes)]) else p
    case Snapshot(name) =>
      if CanSnapshot(p, name) then p.(volumes := p.volumes[name := p.volumes[DISK]]) else p
  }

  function PoolRun(p: PoolFile, ops: seq<PoolOp>): PoolFile
    decreases |ops|
  {
    if ops == [] then p else PoolRun(PoolStep(p, ops[0]), ops[1..])
  }

  /** The names whose snapshots were taken along a run. */
  function Taken(p: PoolFile, ops: seq<PoolOp>): set<string>
    decreases |ops|
  {
    if ops == [] then {}
    else (if ops[0].Snapshot? && CanSnapshot(p, ops[0].name) then {ops[0].name} else {})
         + Taken(PoolStep(p, ops[0]), ops[1..])
  }

  /** A snapshot's content survives every later guest write and every later snapshot. */
  lemma {:induction false} SnapshotIsolation(p: PoolFile, ops: seq<PoolOp>, name: string)
    requires name in p.volumes && name != DISK
    ensures name in PoolRun(p, ops).volumes && PoolRun(p, ops).volumes[name] == p.volumes[name]
    decreases |ops|
  {
    if ops == [] {
    } else {
      SnapshotIsolation(PoolStep(p, ops[0]), ops[1..], name);
    }
  }

  /** One step at the end of a run. */
  lemma {:induction false} PoolRunSnoc(p: PoolFile, ops: seq<PoolOp>, op: PoolOp)
    ensures PoolRun(p, ops + [op]) == PoolStep(PoolRun(p, ops), op)
    decreases |ops|
  {
    if ops == [] {
      assert ops + [op] == [op];
      assert PoolRun(PoolStep(p, op), [op][1..]) == PoolStep(p, op);
    } else {
      assert (ops + [op])[1..] == ops[1..] + [op];
      PoolRunSnoc(PoolStep(p, ops[0]), ops[1..], op);
    }
  }

  lemma {:induction false} PoolRunAppend(p: PoolFile, xs: seq<PoolOp>, ys: seq<PoolOp>)
    ensures PoolRun(p, xs + ys) == PoolRun(PoolRun(p, xs), ys)
    decreases |xs|
  {
    if xs == [] {
      assert xs + ys == ys;
    } else {
      assert (xs + ys)[1..] == xs[1..] + ys;
      PoolRunAppend(PoolStep(p, xs[0]), xs[1..], ys);
    }
  }

  /** At the end of any run a name taken in it holds the bytes the disk had when it was taken. */
  lemma TakenHoldsTheDisk(p: PoolFile, before: seq<PoolOp>, name: string, later: seq<PoolOp>)
    requires name != "disk" && "disk" in PoolRun(p, before).volumes && name !in PoolRun(p, before).volumes
    ensures name in PoolRun(p, before + [Snapshot(name)] + later).volumes
    ensures PoolRun(p, before + [Snapshot(name)] + later).volumes[name] == PoolRun(p, before).volumes["disk"]
  {
    PoolRunAppend(p, before + [Snapshot(name)], later);
    PoolRunSnoc(p, before, Snapshot(name));
    SnapshotIsolation(PoolRun(p, before + [Snapshot(name)]), later, name);
  }

  /** What a run's guest writes make of byte i of the disk. */
  function LastWritten(ops: seq<PoolOp>, i: nat): Option<Byte>
    decreases |ops|
  {
    if ops == [] then None
    else
      var op := ops[|ops| - 1];
      if op.GuestWrite? && op.off <= i < op.off + |op.bytes| then Some(op.bytes[i - op.off]) else LastWritten(ops[..|ops| - 1], i)
  }

  /** After any run the disk has its size, and each byte is the last one written to it, or the first. */
  lemma {:induction false} DiskIsLastWritten(p: PoolFile, ops: seq<PoolOp>, i: nat)
    requires "disk" in p.volumes && i < |p.volumes["disk"]|
    ensures "disk" in PoolRun(p, ops).volumes && |PoolRun(p, ops).volumes["disk"]| == |p.volumes["disk"]|
    ensures PoolRun(p, ops).volumes["disk"][i] == if LastWritten(ops, i).Some? then LastWritten(ops, i).value else p.volumes["disk"][i]
    decreases |ops|
  {
    if ops == [] {
    } else {
      var earlier, op := ops[..|ops| - 1], ops[|ops| - 1];
      DiskIsLastWritten(p, earlier, i);
      PoolRunSnoc(p, earlier, op);
      assert ops == earlier + [op];
    }
  }

  /** After any run the pool holds the names it began with and exactly the snapshots taken. */
  lemma {:induction false} NamesAreTheTaken(p: PoolFile, ops: seq<PoolOp>)
    ensures PoolRun(p, ops).volumes.Keys == p.volumes.Keys + Taken(p, ops)
    ensures DISK !in Taken(p, ops)
    decreases |ops|
  {
    if ops == [] {
    } else {
      NamesAreTheTaken(PoolStep(p, ops[0]), ops[1..]);
    }
  }

  /** After these errors the new pool.bin stays: restoreInto never removes it. */
  predicate LeavesBehind(err: Option<VolumeError>) {
    err.None? || err.value.CreateDisk? || err.value.Materialise? || err.value.SyncPool?
  }

  /** What a restore leaves behind, in terms of what was there and what the image holds. */
  ghost predicate RestoreOutcome(before: Pools, after: Pools, uuid: string, sizeGiB: int64, image: Bytes, err: Option<VolumeError>)
    requires |image| < TWO63
  {
    if uuid in before then
      after == before && err.None?
    else if LeavesBehind(err) then
      && LeavesPool(before, after, uuid, sizeGiB, image)
      && DiskAfter(after[uuid], RestoreSize(|image|, sizeGiB), image, err)
    else
      after == before
  }

  ghost predicate LeavesPool(before: Pools, after: Pools, uuid: string, sizeGiB: int64, image: Bytes) {
    && uuid in after && after == before[uuid := after[uuid]]
    && after[uuid].capacity == RestoreSize(|image|, sizeGiB) + GIB < TWO63
    && after[uuid].volumes.Keys <= {DISK}
  }

  /** The disk is the image and zeros when the restore succeeded or failed only to sync; a failed copy may have done less. */
  ghost predicate DiskAfter(p: PoolFile, size: nat, image: Bytes, err: Option<VolumeError>)
    requires |image| <= size
  {
    match err
    case None => DISK in p.volumes && p.volumes[DISK] == Materialised(image, size)
    case Some(SyncPool) => DISK in p.volumes && p.volumes[DISK] == Materialised(image, size)
    case Some(Materialise(_)) => DISK in p.volumes && PartlyCopied(p.volumes[DISK], size, image)
    case Some(e) => e.CreateDisk? && p.volumes == map[]
  }

  /** A copy that stopped in some window: the image before it, zeros after it, and zeros in it if the image has zeros there. */
  ghost predicate PartlyCopied(disk: Bytes, size: nat, image: Bytes) {
    |disk| == size && exists done: nat :: StoppedInWindow(disk, image, done)
  }

  ghost predicate StoppedInWindow(disk: Bytes, image: Bytes, done: nat) {
    && done * WIN < |image| <= |disk|
    && disk[..done * WIN] == image[..done * WIN]
    && (forall i :: (done + 1) * WIN <= i < |image| ==> disk[i] == 0)
    && (forall i :: |image| <= i < |disk| ==> disk[i] == 0)
    && (AllZero(Window(image, |image|, done)) ==> forall i :: done * WIN <= i < |image| ==> disk[i] == 0)
  }

  /** The first call that fails before the copy decides the error. */
  function BeforeCopy(f: Faults, size: nat): Option<VolumeError> {
    if f.size then Some(ImageSize)
    else if f.mkdir then Some(MakeDir)
    else if f.create || size + GIB >= TWO63 then Some(CreatePool)
    else if f.disk then Some(CreateDisk)
    else None
  }

  /** Each error of a restore names a call that failed, or a size that does not fit. */
  predicate Blames(e: VolumeError, f: Faults, plan: seq<Answer>, size: nat, imgSize: nat) {
    match e
    case ImageSize => f.size
    case MakeDir => f.mkdir
    case CreatePool => f.create || size + GIB >= TWO63
    case CreateDisk => f.disk
    case SyncPool => f.sync
    case _ => e.Materialise? && !(HarmlessFor(plan, imgSize) && f.badWrites == [])
  }

  /** The volume holds the image. */
  ghost predicate HoldsImage(pools: Pools, uuid: string, sizeGiB: int64, image: Bytes) {
    && uuid in pools && DISK in pools[uuid].volumes
    && pools[uuid].volumes[DISK] == Materialised(image, RestoreSize(|image|, sizeGiB))
  }

  /** Whenever a restore that failed with this error is retried and reports success, the volume holds the image. */
  ghost predicate RetryIsTrusted(p0: Pools, uuid: string, sizeGiB: int64, image: Bytes, e: VolumeError)
    requires |image| < TWO63
  {
    forall p1: Pools, p2: Pools, err2: Option<VolumeError> ::
      RestoreOutcome(p0, p1, uuid, sizeGiB, image, Some(e)) && RestoreOutcome(p1, p2, uuid, sizeGiB, image, err2) && err2.None?
      ==> HoldsImage(p2, uuid, sizeGiB, image)
  }

  /** The first error is one after which an incomplete pool.bin may be left. */
  predicate MayHide(e: VolumeError, sizeGiB: int64, image: Bytes)
    requires |image| < TWO63
  {
    && RestoreSize(|image|, sizeGiB) + GIB < TWO63
    && (e.CreateDisk? || (e.Materialise? && !AllZero(image)))
  }

  /**
   * A retry after a failed restore. It reports success without looking whenever the failed attempt left a
   * pool.bin, so it can be trusted if and only if the first error was neither the creation of the disk nor,
   * for an image with a non-zero byte, the copy (or no pool of that size can be made at all).
   */
  lemma RetryIsTrustedExactly(p0: Pools, uuid: string, sizeGiB: int64, image: Bytes, e: VolumeError)
    requires |image| < TWO63 && uuid !in p0
    ensures RetryIsTrusted(p0, uuid, sizeGiB, image, e) <==> !MayHide(e, sizeGiB, image)
  {
    if MayHide(e, sizeGiB, image) {
      RetryHides(p0, uuid, sizeGiB, image, e);
    } else {
      forall p1: Pools, p2: Pools, err2: Option<VolumeError> |
        RestoreOutcome(p0, p1, uuid, sizeGiB, image, Some(e)) && RestoreOutcome(p1, p2, uuid, sizeGiB, image, err2) && err2.None?
        ensures HoldsImage(p2, uuid, sizeGiB, image)
      {
        if uuid in p1 && e.Materialise? {
          ZerosAreComplete(p1[uuid].volumes[DISK], RestoreSize(|image|, sizeGiB), image);
        }
      }
    }
  }

  /** A copy of nothing but zeros is complete wherever it stops. */
  lemma ZerosAreComplete(disk: Bytes, size: nat, image: Bytes)
    requires |image| <= size && PartlyCopied(disk, size, image) && AllZero(image)
    ensures disk == Materialised(image, size)
  {
    var done: nat :| StoppedInWindow(disk, image, done);
    assert forall i :: 0 <= i < done * WIN ==> disk[i] == disk[..done * WIN][i] == image[i];
    assert AllZero(Window(image, |image|, done));
  }

  /** The witness: an empty pool, or a disk of zeros left by a copy that failed at once. */
  lemma RetryHides(p0: Pools, uuid: string, sizeGiB: int64, image: Bytes, e: VolumeError)
    requires |image| < TWO63 && uuid !in p0 && MayHide(e, sizeGiB, image)
    ensures !RetryIsTrusted(p0, uuid, sizeGiB, image, e)
  {
    var size := RestoreSize(|image|, sizeGiB);
    var disk := Zeros(size);
    var p1 := p0[uuid := PoolFile(size + GIB, if e.CreateDisk? then map[] else map[DISK := disk])];
    if e.Materialise? {
      var i :| 0 <= i < |image| && image[i] != 0;
      assert disk[i] != Materialised(image, size)[i];
      assert disk[..0 * WIN] == image[..0 * WIN];
      assert StoppedInWindow(disk, image, 0);
    }
    assert p1 == p0[uuid := p1[uuid]];
    assert RestoreOutcome(p0, p1, uuid, sizeGiB, image, Some(e));
    assert RestoreOutcome(p1, p1, uuid, sizeGiB, image, None);
  }

  /** The empty disk of a restore, after the image has been copied over it. */
  method CopyInto(size: nat, img: Source, imgSize: int64, badWrites: seq<bool>) returns (disk: Bytes, io: Option<IOError>)
    requires 0 <= imgSize <= MAX_COPY && imgSize as int == |img.data| <= size
    modifies img`plan
    ensures io.None? ==> disk == Materialised(img.data, size)
    ensures io.Some? ==> PartlyCopied(disk, size, img.data)
    ensures HarmlessFor(old(img.plan), |img.data|) && badWrites == [] ==> io.None?
    ensures FailsAtOnce(old(img.plan)) && imgSize > 0 ==> io == old(img.plan)[0].err && disk == Zeros(size)
  {
    var dev := new Device(Zeros(size), badWrites);
    var panics;
    ghost var done;
    io, panics, done := CopyDevice(dev, img, imgSize);
    disk := dev.data;
    if io.Some? {
      FailedCopyLeaves(Zeros(size), disk, img.data, |img.data|, done);
      assert StoppedInWindow(disk, img.data, done);
    } else {
      SparseIntoZeros(Zeros(size), img.data, |img.data|);
      assert Zeros(size)[|img.data|..] == Zeros(size - |img.data|);
    }
  }

  class GoVolume {
    var pools: Pools
    var registry: map<Target, Bytes>

    constructor ()
      ensures pools == map[] && registry == map[]
    {
      pools, registry := map[], map[];
    }

    /** EnsureVolume for a pool-backed volume. */
    method EnsureVolume(uuid: string, sizeGiB: int64, f: Faults) returns (err: Option<VolumeError>)
      modifies this`pools
      ensures err.None? ==> uuid != "" && sizeGiB > 0
      // an existing pool is only looked at
      ensures uuid in old(pools) ==> pools == old(pools)
      ensures uuid in old(pools) && err.None? ==>
                DISK in pools[uuid].volumes && |pools[uuid].volumes[DISK]| >= WantBytes(sizeGiB) as int
      ensures uuid in old(pools) && uuid != "" && sizeGiB > 0 && !f.open && !f.sync ==>
                (err.None? <==> DISK in pools[uuid].volumes && |pools[uuid].volumes[DISK]| >= WantBytes(sizeGiB) as int)
      // a new one is created whole, or not at all, or left without its disk or not synced
      ensures uuid !in old(pools) && err.None? ==>
                WantBytes(sizeGiB) >= 0 && pools == old(pools)[uuid := NewPool(WantBytes(sizeGiB) as int)]
      ensures uuid !in old(pools) && uuid != "" && 0 < sizeGiB as int < 0x2_0000_0000 - 1 && NoFaults(f) ==> err.None?
      ensures uuid !in old(pools) && sizeGiB as int < 0x2_0000_0000 && err.None? ==>
                && pools[uuid].capacity == (sizeGiB as int + 1) * 0x4000_0000
                && pools[uuid].volumes.Keys == {"disk"} && |pools[uuid].volumes["disk"]| == sizeGiB as int * 0x4000_0000
                && forall i :: 0 <= i < |pools[uuid].volumes["disk"]| ==> pools[uuid].volumes["disk"][i] == 0
      ensures uuid !in old(pools) && err == Some(CreateDisk) ==>
                pools == old(pools)[uuid := PoolFile(WantBytes(sizeGiB) as int + GIB, map[])]
      ensures uuid !in old(pools) && err == Some(SyncPool) ==>
                WantBytes(sizeGiB) >= 0 && pools == old(pools)[uuid := NewPool(WantBytes(sizeGiB) as int)]
      ensures err.Some? && !err.value.CreateDisk? && !err.value.SyncPool? ==> pools == old(pools)
    {
      if uuid == "" {
        return Some(EmptyUuid);
      }
      if sizeGiB <= 0 {
        return Some(BadSize);
      }
      var wantBytes := WantBytes(sizeGiB);
      WantBytesExactly(sizeGiB);
      if uuid in pools {
        if f.open {
          return Some(OpenPool);
        }
        if DISK !in pools[uuid].volumes {
          return Some(OpenVolume);
        }
        if |pools[uuid].volumes[DISK]| < wantBytes as int {
          return Some(CannotGrow);
        }
        return if f.sync then Some(SyncPool) else None;
      }
      if f.mkdir {
        return Some(MakeDir);
      }
      var capBytes := Wrap64(wantBytes as int + GIB);
      if f.create || capBytes <= 0 {
        return Some(CreatePool);
      }
      pools := pools[uuid := PoolFile(capBytes as int, map[])];
      if f.disk || wantBytes < 0 {
        return Some(CreateDisk);
      }
      pools := pools[uuid := PoolFile(capBytes as int, map[DISK := Zeros(wantBytes as int)])];
      return if f.sync then Some(SyncPool) else None;
    }

    /** restoreInto: a fresh pool, a disk at least as large as the image, and a sparse copy of the image. */
    method RestoreInto(uuid: string, sizeGiB: int64, img: Source, f: Faults) returns (err: Option<VolumeError>)
      requires uuid !in pools && |img.data| < TWO63
      modifies this`pools, img`plan
      ensures RestoreOutcome(old(pools), pools, uuid, sizeGiB, img.data, err)
      ensures err.Some? ==> Blames(err.value, f, old(img.plan), RestoreSize(|img.data|, sizeGiB), |img.data|)
      ensures BeforeCopy(f, RestoreSize(|img.data|, sizeGiB)).Some? ==> err == BeforeCopy(f, RestoreSize(|img.data|, sizeGiB))
      // a first read that fails leaves a disk of zeros
      ensures (&& BeforeCopy(f, RestoreSize(|img.data|, sizeGiB)).None? && |img.data| > 0
               && FailsAtOnce(old(img.plan))) ==>
                && err == Some(Materialise(old(img.plan)[0].err.value))
                && pools[uuid].volumes == map[DISK := Zeros(RestoreSize(|img.data|, sizeGiB))]
    {
      if f.size {
        return Some(ImageSize);
      }
      var imgSize := |img.data| as int64;
      var size := imgSize;
      var want := WantBytes(sizeGiB);
      if want > size {
        size := want;
      }
      if f.mkdir {
        return Some(MakeDir);
      }
      CapacityFits(size as int);
      var capBytes := Wrap64(size as int + GIB);
      if f.create || capBytes <= 0 {
        return Some(CreatePool);
      }
      pools := pools[uuid := PoolFile(capBytes as int, map[])];
      if f.disk {
        return Some(CreateDisk);
      }
      var disk, io := CopyInto(size as int, img, imgSize, f.badWrites);
      pools := pools[uuid := PoolFile(capBytes as int, map[DISK := disk])];
      if io.Some? {
        return Some(Materialise(io.value));
      }
      return if f.sync then Some(SyncPool) else None;
    }

    /** RestoreBackup for a pool-backed volume. */
    method RestoreBackup(backupUrl: string, uuid: string, sizeGiB: int64, f: Faults) returns (err: Option<VolumeError>)
      requires Resolve(backupUrl).Ok? && Resolve(backupUrl).value in registry ==> |registry[Resolve(backupUrl).value]| < TWO63
      modifies this`pools
      ensures uuid == "" ==> err == Some(EmptyUuid) && pools == old(pools)
      ensures uuid != "" && uuid in old(pools) ==> err.None? && pools == old(pools)
      ensures err.None? && uuid !in old(pools) ==> Resolve(backupUrl).Ok? && Resolve(backupUrl).value in registry
      ensures uuid != "" && Resolve(backupUrl).Ok? && Resolve(backupUrl).value in registry ==>
                RestoreOutcome(old(pools), pools, uuid, sizeGiB, registry[Resolve(backupUrl).value], err)
      ensures (&& uuid != "" && uuid !in old(pools) && NoFaults(f)
               && Resolve(backupUrl).Ok? && Resolve(backupUrl).value in registry
               && RestoreSize(|registry[Resolve(backupUrl).value]|, sizeGiB) + GIB < TWO63) ==> err.None?
      // image reads may be short, and may end a window with an EOF
      ensures (&& uuid != "" && uuid !in old(pools) && NoCallFails(f)
               && Resolve(backupUrl).Ok? && Resolve(backupUrl).value in registry
               && HarmlessFor(f.answers, |registry[Resolve(backupUrl).value]|)
               && RestoreSize(|registry[Resolve(backupUrl).value]|, sizeGiB) + GIB < TWO63) ==> err.None?
      ensures err.Some? && !(Resolve(backupUrl).Ok? && Resolve(backupUrl).value in registry) ==> pools == old(pools)
      ensures (uuid != "" && uuid !in old(pools) && !f.registry
               && Resolve(backupUrl).Ok? && Resolve(backupUrl).value in registry) ==>
                var image := registry[Resolve(backupUrl).value];
                var size := RestoreSize(|image|, sizeGiB);
                && (BeforeCopy(f, size).Some? ==> err == BeforeCopy(f, size))
                && (BeforeCopy(f, size).None? && |image| > 0 && FailsAtOnce(f.answers) ==>
                      err == Some(Materialise(f.answers[0].err.value)) && pools[uuid].volumes == map[DISK := Zeros(size)])
    {
      if uuid == "" {
        return Some(EmptyUuid);
      }
      if uuid in pools {
        return None;
      }
      var target := Resolve(backupUrl);
      if target.Err? {
        return Some(BadTarget(target.error));
      }
      if f.registry || target.value !in registry {
        return Some(OpenImage);
      }
      var img := new Source(registry[target.value], f.answers);
      if OnlyShort(f.answers) {
        OnlyShortHarmless(f.answers, |img.data|, Min(WIN, |img.data|));
      }
      err := RestoreInto(uuid, sizeGiB, img, f);
    }

    /** CreateBackup for a pool-backed volume: the snapshot's bytes, frozen under the target. */
    method CreateBackup(uuid: string, snapshot: string, target: string, f: Faults) returns (err: Option<VolumeError>)
      modifies this`registry
      ensures err.None? ==>
                && uuid in pools && snapshot in pools[uuid].volumes && Resolve(target).Ok?
                && registry == old(registry)[Resolve(target).value := pools[uuid].volumes[snapshot]]
      ensures err.Some? ==> registry == old(registry)
      ensures (&& uuid != "" && snapshot != "" && uuid in pools && snapshot in pools[uuid].volumes
               && Resolve(target).Ok? && NoFaults(f)) ==> err.None?
    {
      if uuid == "" || snapshot == "" {
        return Some(NameRequired);
      }
      var t := Resolve(target);
      if t.Err? {
        return Some(BadTarget(t.error));
      }
      if f.open || uuid !in pools {
        return Some(OpenPool);
      }
      if snapshot !in pools[uuid].volumes {
        return Some(OpenVolume);
      }
      if f.registry {
        return Some(Freeze);
      }
      registry := registry[t.value := pools[uuid].volumes[snapshot]];
      return None;
    }

    /** CreateSnapshot for a pool-backed volume. now is the timestamped name used when none is given. */
    method CreateSnapshot(uuid: string, name: string, now: string, f: Faults) returns (err: Option<VolumeError>)
      requires now != DISK
      modifies this`pools
      ensures err.None? ==>
                var n := if name == "" then now else name;
                && uuid in old(pools) && CanSnapshot(old(pools)[uuid], n)
                && pools == old(pools)[uuid := PoolStep(old(pools)[uuid], Snapshot(n))]
      ensures err.Some? ==> pools == old(pools)
      ensures uuid != "" && uuid in old(pools) && !f.open ==>
                (err.None? <==> CanSnapshot(old(pools)[uuid], if name == "" then now else name))
      // in the pool's own terms: any free name but "disk" will do, and it gets the disk's content
      ensures (uuid != "" && uuid in old(pools) && !f.open) ==>
                var n, p := if name == "" then now else name, old(pools)[uuid];
                err.None? <==> n != "disk" && "disk" in p.volumes && n !in p.volumes
      ensures err.None? ==>
                var n, p := if name == "" then now else name, old(pools)[uuid];
                && uuid in pools && pools == old(pools)[uuid := pools[uuid]] && pools[uuid].capacity == p.capacity
                && n != "disk" && "disk" in p.volumes && n !in p.volumes
                && pools[uuid].volumes == p.volumes[n := p.volumes["disk"]]
    {
      if uuid == "" {
        return Some(EmptyUuid);
      }
      var n := if name == "" then now else name;
      if n == DISK {
        return Some(NameReserved);
      }
      if f.open || uuid !in pools {
        return Some(OpenPool);
      }
      var p := pools[uuid];
      if DISK !in p.volumes || n in p.volumes {
        return Some(SnapshotRefused);
      }
      pools := pools[uuid := p.(volumes := p.volumes[n := p.volumes[DISK]])];
      return None;
    }

    /** The guest writes to the attached disk, and others take snapshots. */
    method Runs(uuid: string, ops: seq<PoolOp>)
      requires uuid in pools
      modifies this`pools
      ensures pools == old(pools)[uuid := PoolRun(old(pools)[uuid], ops)]
    {
      for k := 0 to |ops|
        invariant uuid in pools && pools == old(pools)[uuid := PoolRun(old(pools)[uuid], ops[..k])]
      {
        PoolRunSnoc(old(pools)[uuid], ops[..k], ops[k]);
        assert ops[..k + 1] == ops[..k] + [ops[k]];
        pools := pools[uuid := PoolStep(pools[uuid], ops[k])];
      }
      assert ops[..|ops|] == ops;
    }

    /** ListSnapshots: every pool volume but the disk that opens, in order. */
    method ListSnapshots(uuid: string, unopenable: set<string>, f: Faults)
      returns (r: Result<seq<string>, VolumeError>)
      ensures r.Ok? ==>
                && uuid in pools
                && StrictlySorted(r.value)
                && forall n :: n in r.value <==> n in pools[uuid].volumes && n != DISK && n !in unopenable
      ensures uuid != "" && uuid in pools && !f.open ==> r.Ok?
    {
      if uuid == "" {
        return Err(EmptyUuid);
      }
      if f.open || uuid !in pools {
        return Err(OpenPool);
      }
      var names := SortedNames(pools[uuid].volumes.Keys);
      var out: seq<string> := [];
      for i := 0 to |names|
        invariant StrictlySorted(out)
        invariant forall n :: n in out <==> n in names[..i] && n != DISK && n !in unopenable
      {
        assert names[..i + 1] == names[..i] + [names[i]];
        if names[i] == DISK {
          continue;
        }
        if names[i] in unopenable {
          continue;
        }
        forall j | 0 <= j < |out| ensures Less(out[j], names[i]) {
          assert out[j] in out;
        }
        out := out + [names[i]];
      }
      assert names[..|names|] == names;
      return Ok(out);
    }
  }

  /** Faults under which the first restore fails with this error: the disk cannot be made, or the first read fails. */
  function FaultsFor(e: VolumeError): Faults {
    if e.Materialise? then Faults(false, false, false, false, false, false, false, [Answer(0, Some(e.io))], [])
    else Faults(false, false, false, true, false, false, false, [], [])
  }

  /**
   * The trap is real, in the driver itself: for every image, target and error after which it is not excluded, the first
   * RestoreBackup fails with that error, the second returns nil whatever its faults, and the volume does not hold the image.
   */
  method RetryCanHideAFailure(g: GoVolume, backupUrl: string, uuid: string, sizeGiB: int64, e: VolumeError, f2: Faults)
    returns (err1: Option<VolumeError>, err2: Option<VolumeError>)
    requires uuid != "" && uuid !in g.pools && Resolve(backupUrl).Ok? && Resolve(backupUrl).value in g.registry
    requires |g.registry[Resolve(backupUrl).value]| < TWO63
    requires MayHide(e, sizeGiB, g.registry[Resolve(backupUrl).value])
    modifies g`pools
    ensures err1 == Some(e) && err2.None?
    ensures !HoldsImage(g.pools, uuid, sizeGiB, g.registry[Resolve(backupUrl).value])
  {
    ghost var image := g.registry[Resolve(backupUrl).value];
    err1 := g.RestoreBackup(backupUrl, uuid, sizeGiB, FaultsFor(e));
    if e.Materialise? {
      ghost var i :| 0 <= i < |image| && image[i] != 0;
      assert Zeros(RestoreSize(|image|, sizeGiB))[i] != Materialised(image, RestoreSize(|image|, sizeGiB))[i];
    }
    err2 := g.RestoreBackup(backupUrl, uuid, sizeGiB, f2);
  }

  /** Any two restores in a row: a nil retry after any other error means that the volume holds the image. */
  method RestoreTwice(g: GoVolume, backupUrl: string, uuid: string, sizeGiB: int64, f1: Faults, f2: Faults)
    returns (err1: Option<VolumeError>, err2: Option<VolumeError>)
    requires uuid !in g.pools && Resolve(backupUrl).Ok? && Resolve(backupUrl).value in g.registry
    requires |g.registry[Resolve(backupUrl).value]| < TWO63
    modifies g`pools
    ensures err2.None? && (err1.None? || !MayHide(err1.value, sizeGiB, g.registry[Resolve(backupUrl).value])) ==>
              HoldsImage(g.pools, uuid, sizeGiB, g.registry[Resolve(backupUrl).value])
    ensures err1 == Some(CreateDisk) ==> err2.None? && !HoldsImage(g.pools, uuid, sizeGiB, g.registry[Resolve(backupUrl).value])
  {
    ghost var p0, image := g.pools, g.registry[Resolve(backupUrl).value];
    err1 := g.RestoreBackup(backupUrl, uuid, sizeGiB, f1);
    ghost var p1 := g.pools;
    err2 := g.RestoreBackup(backupUrl, uuid, sizeGiB, f2);
    if err1.Some? && uuid != "" {
      RetryIsTrustedExactly(p0, uuid, sizeGiB, image, err1.value);
      assert RestoreOutcome(p0, p1, uuid, sizeGiB, image, err1) && RestoreOutcome(p1, g.pools, uuid, sizeGiB, image, err2);
    }
  }

  /** On a volume that went through any run of guest writes and snapshots, ListSnapshots lists exactly the snapshots taken. */
  method ListTaken(g: GoVolume, uuid: string, want: nat, ops: seq<PoolOp>, f: Faults)
    returns (r: Result<seq<string>, VolumeError>)
    requires uuid != "" && uuid in g.pools && g.pools[uuid] == PoolRun(NewPool(want), ops)
    ensures !f.open ==> r.Ok?
    ensures r.Ok? ==> StrictlySorted(r.value) && forall n :: n in r.value <==> n in Taken(NewPool(want), ops)
  {
    NamesAreTheTaken(NewPool(want), ops);
    r := g.ListSnapshots(uuid, {}, f);
  }

  /** A restore that made its pool left exactly this one. */
  lemma RestoredPool(before: Pools, after: Pools, uuid: string, sizeGiB: int64, image: Bytes)
    requires 0 <= sizeGiB as int <= 0x2_0000_0000 - 2 && |image| <= TWO63 - 1 - GIB
    requires uuid !in before && RestoreOutcome(before, after, uuid, sizeGiB, image, None)
    ensures var size := if sizeGiB as int * GIB > |image| then sizeGiB as int * GIB else |image|;
            && uuid in after && after == before[uuid := after[uuid]]
            && after[uuid] == PoolFile(size + GIB, map[DISK := image + Zeros(size - |image|)])
  {
    RestoreSizeExact(|image|, sizeGiB);
    assert after[uuid].volumes.Keys == {DISK};
  }

  /**
   * Backup, then restore into a volume without a pool.bin. If both report success the new disk holds
   * the snapshot followed by zeros up to the larger of the two sizes, in a pool one GiB larger.
   */
  method BackupThenRestore(g: GoVolume, uuid: string, snapshot: string, target: string,
                           copy: string, sizeGiB: int64, f1: Faults, f2: Faults)
    returns (err1: Option<VolumeError>, err2: Option<VolumeError>)
    requires copy !in g.pools
    requires 0 <= sizeGiB as int <= 0x2_0000_0000 - 2
    requires uuid in g.pools && snapshot in g.pools[uuid].volumes ==> |g.pools[uuid].volumes[snapshot]| <= TWO63 - 1 - GIB
    modifies g
    ensures err1.None? && err2.None? ==>
              && uuid in old(g.pools) && snapshot in old(g.pools)[uuid].volumes
              && var image := old(g.pools)[uuid].volumes[snapshot];
                 var size := if sizeGiB as int * GIB > |image| then sizeGiB as int * GIB else |image|;
                 && copy in g.pools && g.pools == old(g.pools)[copy := g.pools[copy]]
                 && g.pools[copy].capacity == size + GIB
                 && g.pools[copy].volumes == map[DISK := image + Zeros(size - |image|)]
    ensures (&& NoFaults(f1) && NoFaults(f2) && uuid != "" && snapshot != "" && copy != "" && Resolve(target).Ok?
             && uuid in old(g.pools) && snapshot in old(g.pools)[uuid].volumes) ==> err1.None? && err2.None?
  {
    err1 := g.CreateBackup(uuid, snapshot, target, f1);
    if err1.Some? {
      return err1, None;
    }
    ghost var image := g.pools[uuid].volumes[snapshot];
    RestoreSizeExact(|image|, sizeGiB);
    err2 := g.RestoreBackup(target, copy, sizeGiB, f2);
    if err2.None? {
      RestoredPool(old(g.pools), g.pools, copy, sizeGiB, image);
    }
  }

  /**
   * The whole way round: snapshot a disk, let the guest write and others snapshot, back the snapshot up and restore it.
   * If all succeed the copy's disk is what the first disk was at the snapshot, and zeros.
   */
  method SnapshotThenRestore(g: GoVolume, uuid: string, name: string, later: seq<PoolOp>, target: string,
                             copy: string, sizeGiB: int64, f0: Faults, f1: Faults, f2: Faults)
    returns (err0: Option<VolumeError>, err1: Option<VolumeError>, err2: Option<VolumeError>)
    requires copy !in g.pools && uuid in g.pools && copy != uuid && name != ""
    requires 0 <= sizeGiB as int <= 0x2_0000_0000 - 2
    requires "disk" in g.pools[uuid].volumes ==> |g.pools[uuid].volumes["disk"]| <= TWO63 - 1 - GIB
    modifies g
    ensures err0.None? && err1.None? && err2.None? ==>
              && "disk" in old(g.pools)[uuid].volumes
              && var image := old(g.pools)[uuid].volumes["disk"];
                 var size := if sizeGiB as int * GIB > |image| then sizeGiB as int * GIB else |image|;
                 && copy in g.pools && g.pools[copy].capacity == size + GIB
                 && g.pools[copy].volumes == map["disk" := image + Zeros(size - |image|)]
  {
    err1, err2 := None, None;
    err0 := g.CreateSnapshot(uuid, name, "now", f0);
    if err0.Some? {
      return;
    }
    SnapshotIsolation(g.pools[uuid], later, name);
    g.Runs(uuid, later);
    err1, err2 := BackupThenRestore(g, uuid, name, target, copy, sizeGiB, f1, f2);
  }
}
