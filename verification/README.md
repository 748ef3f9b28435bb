# weft-driver-qemu: a verified model of the volume driver

This project models the storage side of the QEMU driver and proves properties of the model with Dafny 4.11.
`dafny verify dfyconfig.toml` checks everything.

The repository's `GoVolume` driver attaches volumes to virtual machines through NBD servers that run inside
the driver process. A volume is either a copy-on-write pool in one file, or an in-memory overlay over a frozen
OCI image with a small `oci.json` sidecar that records its base and its current version. Beside it the driver
renders a qemu-system argv and starts the process.

## Modules

| file | what it is |
|---|---|
| `AttachProtocol.dfy` | attach, detach and destroy as interleaved steps of any number of callers, with the mutex, the serve goroutines and the NBD clients |
| `AttachInvariant.dfy` | the ownership invariant and its preservation by every step |
| `AttachSafety.dfy` | conservation of pools, images and listeners; closing once, after drain |
| `AttachHistory.dfy` | linearisability: the protocol refines an atomic map from keys to addresses |
| `AttachOutcome.dfy` | which failures a call reports |
| `AttachProgress.dfy` | no deadlock; a measure; every call ends once clients disconnect |
| `AttachDestroy.dfy` | what destroy guarantees, and the attach that can outlive it |
| `Keys.dfy`, `OciRef.dfy` | attach keys; OCI references, parsing, printing and retagging |
| `SparseCopy.dfy` | `readFullAt`, `equalBytes`, `copyDevice` as methods on arrays and devices |
| `PoolVolumes.dfy` | pool volumes: ensure, snapshot, list, backup, restore |
| `OciVolumes.dfy` | the version lifecycle of OCI-overlay volumes: a class for the operations, and theorems over all runs |
| `SidecarProtocol.dfy` | concurrent commits of one sidecar, one system call at a time, with crashes |
| `QemuOptions.dfy`, `QemuArgs.dfy`, `QemuArgsReader.dfy` | the argv builder, and a reader that splits options at every comma |
| `Cmdline.dfy` | the kernel command line rewrite, in place on a shared array |
| `VmProcess.dfy` | StartVM and its reaper: processes, `vm.pid`, `exit.json` |
| `Text.dfy`, `Decimal.dfy`, `Sorting.dfy`, `Wrappers.dfy` | string searches, decimal printing, sorted names, result types |

A concurrent part is a state machine: labels, an `Enabled` predicate, an `Apply` function, and `Run` and `Exec`
over sequences of labels. Its theorems hold for every such sequence. The volume operations are methods of classes
whose fields are the driver's maps and files; each says how the kept state changes.

## What the code does that its comments do not say

* An attach that has opened its pool or image, or has read which image to open, outlives a destroy of its volume; one that
  has only passed its first check does so if the volume is provisioned again: `AttachDestroy.DestroyedStaysEmptyExactly` and
  `AttachDestroy.ReprovisionedStaysEmptyExactly` give the exact conditions, `AttachDestroy.RaceIsReachable` a run.
* A failed restore can leave `pool.bin`, after which a retry reports success without looking:
  `PoolVolumes.RetryIsTrustedExactly`, `PoolVolumes.RestoreTwice`, `PoolVolumes.RetryCanHideAFailure`.
* A requested size of 2^33 GiB or more wraps in int64; 2^34 GiB becomes an empty disk: `PoolVolumes.WantBytesExactly`,
  `PoolVolumes.WantBytesCanVanish`.
* A snapshot stays in the base's repository only if its name has no ':', and replaces the base image if it is named
  like the base's tag: `OciRef.RetagKeepsRepository`, `OciVolumes.SnapshotReplacesBaseExactly`.
* A commit that cannot read the sidecar back records an empty base for good: `OciVolumes.BaseIsFixedExactly`,
  `OciVolumes.UnreadBaseIsLost`, `SidecarProtocol.UnreadBaseIsPublished`.
* The sidecar write is atomic for one commit at a time. Two commits share the tmp file:
  `SidecarProtocol.TornWriteIsHarmlessExactly`, `SidecarProtocol.KeepsTmpExactly`, `SidecarProtocol.RenameMayPublishAnother`,
  `SidecarProtocol.OverlapIsReachable`.
* `hostIsLocal` does not take the bare or the bracketed IPv6 loopback for local, and takes some longer bare literals for it:
  `OciRef.HostIsLocalExactly`, `OciRef.BareLiteralExactly`, `OciRef.Ipv6LoopbackIsNotLocal`.
* `copyDevice` panics on lengths above 2^63 - 2^20, where its offset wraps: `SparseCopy.CopyDevice`, `SparseCopy.OffsetsFitExactly`.
  The driver never gets there: `restoreInto` has by then been refused a pool of that size.
* The command line rewrite always picks ttyAMA0, also on x86_64: `Cmdline.NeverTtyS0`.
* `exit.json` may describe an earlier process of the VM: `VmProcess.NeverNamedExactly`, `VmProcess.StaysAbsentExactly`.

## What is assumed of code that is not shown

* `nbd.Server.Serve` returns only when its connection handlers have ended; it may also return early, when accepting fails.
* The system gives a listener no port that another open listener has.
* A pool is its capacity and named byte strings. A fresh disk reads as zeros. `Snapshot` refuses a taken name. A pool of
  non-positive capacity, or a disk of negative size, is refused.
* An overlay is its base and the bytes written over it; a frozen image keeps its bytes when its tag moves. The registry
  is a map from tags to bytes and deletes nothing.
* `ReadAt` delivers the device's bytes and, on each call, progress or an error. A failed `WriteAt` may leave anything in
  the range it was given. `os.WriteFile` is one step; when it fails it may leave a torn file.

## Model

| member | source | states |
|---|---|---|
| AttachInvariant.RunInv | builtin/govolume.go:213-340 | every step of every interleaving keeps the ownership invariant |
| AttachSafety.Conservation | builtin/govolume.go:237-340 | a pool or image is open exactly while one holder answers for it: a server in the map that is not being closed, a caller before its insert, or a caller closing; listeners never outlive it; nothing leaks on error or lost-race paths |
| AttachSafety.QuietMeansOnlyServers | builtin/govolume.go:289-324 | with all callers idle the open pools, images and listeners are exactly those of the servers in the map, and no other handle has a connection |
| AttachSafety.ClosedOnceAfterDrain | builtin/govolume.go:302-324 | no listener, pool or image is closed twice; a pool or image is released only after Serve returned, or before it ever ran |
| AttachSafety.HandlersRunOverOpenStore | builtin/govolume.go:280-287 | while a connection handler runs, its pool or image is open and Serve has not returned |
| AttachSafety.ServersAreSeparate | builtin/govolume.go:268-297 | servers under different keys have different handles and different addresses, all serving |
| AttachSafety.MutexHolderSweeps | builtin/govolume.go:217-224 | the mutex is held between steps exactly by the caller inside the destroy loop |
| AttachHistory.Linearisable | builtin/govolume.go:237-340 | for any number of callers and any run, the locked sections are a legal history of an atomic map ending at the current one, and each caller takes effect at most once, between its call and its return, with the outcome it returns |
| AttachHistory.AttachesAgree | builtin/govolume.go:233-300 | all attaches of one key with no detach or destroy of it between them get the same address |
| AttachHistory.ViewStep | builtin/govolume.go:243-298 | each step is one legal operation on the atomic map or leaves it alone |
| AttachOutcome.FailsExactly | builtin/govolume.go:211-340 | whatever runs in between, a call returns a failure if and only if it attaches the empty UUID or one of its own steps failed: opening or listening for an attach, the removal for a destroy, the close of the listener or of a pool for a detach; what a lost race or a destroy closes, and an image's close, are dropped |
| AttachOutcome.AbsentDetachSucceeds | builtin/govolume.go:326-340 | a detach of a key that is not in the map succeeds |
| AttachOutcome.CleanDetachSucceeds | builtin/govolume.go:306-340 | so does one of which no close fails |
| AttachProgress.SomeStepIsEnabled | builtin/govolume.go:217-224 | no deadlock: while a call is in progress some step other than a new call or connection is possible, although destroy waits for drain with the mutex held |
| AttachProgress.OnlyClientsCanBlock | builtin/govolume.go:306-308 | if nothing but clients can move, some close is waiting for a client to disconnect |
| AttachProgress.MeasureDecreases | builtin/govolume.go:213-340 | every step other than a new call or connection decreases a measure |
| AttachProgress.EveryCallEnds | builtin/govolume.go:213-340 | every run of such steps that cannot be extended is bounded and leaves every caller idle |
| AttachProgress.CallsCanFinish | builtin/govolume.go:213-340 | such a run exists from every reachable state |
| AttachInvariant.CoveredStep | builtin/govolume.go:217-224 | while destroy holds the mutex, every server of its volume still in the map is a key its loop has yet to visit or is closing |
| AttachDestroy.DestroyEmptiesVolume | builtin/govolume.go:217-224 | a loop that has visited every key listed when it locked leaves no server of the volume in the map |
| AttachDestroy.DestroyRemovesExactly | builtin/govolume.go:217-224 | from its lock to its unlock, whatever runs in between, destroy removes exactly the keys of its volume and closes exactly their servers, whose pools and images are released; every other server keeps its handle and still serves |
| AttachDestroy.DestroyedStaysEmptyExactly | builtin/govolume.go:211-297 | with no later attach and nothing provisioned, no server of the volume appears again if and only if no attach of it in flight has its store open, its image named, or the files it needs |
| AttachDestroy.ReprovisionedStaysEmptyExactly | builtin/govolume.go:161-297 | if volumes may be provisioned again, if and only if no attach of it is in flight |
| AttachDestroy.ThreatsAfterRemoval | builtin/govolume.go:225-261 | for '\|'-free UUIDs, once the files are removed the attaches to fear are exactly those past needing files |
| AttachDestroy.RaceIsReachable | builtin/govolume.go:211-297 | for every volume and host, a run whose history is: attach called, destroy called, destroy takes effect and returns success, attach takes effect and returns an address; a volume without files then has a server |
| AttachDestroy.SweepSparesOthers | builtin/govolume.go:217-224 | while destroy sweeps, every other volume's server stays in the map and serves |
| Keys.PrefixMeansSomeHost | builtin/govolume.go:228-231 | the prefix test holds exactly of the volume's attach keys |
| Keys.PrefixIsolatesVolume | builtin/govolume.go:228-231 | for '\|'-free UUIDs the prefix test singles out one volume |
| Keys.PrefixIsolatesExactly | builtin/govolume.go:228-231 | for any two UUIDs, no key of one passes for the other's if and only if neither is the other followed by '\|' and something |
| Keys.AttachKeyInjective | builtin/govolume.go:152-153 | attach keys are injective for '\|'-free volume UUIDs |
| Keys.BarInVolumeCollides | builtin/govolume.go:152-153 | a '\|' in a UUID makes two pairs share a key |
| OciRef.ParsePrint | builtin/govolume.go:639-665 | parsing a printed reference gives its parts |
| OciRef.PrintParse | builtin/govolume.go:639-665 | printing the parts of a parsed reference gives it back; the parts are well formed |
| OciRef.ParseSucceedsExactly | builtin/govolume.go:639-665 | parsing succeeds exactly on oci://host/repo:tag with host, repo and tag non-empty, host '/'-free and tag ':'-free |
| OciRef.ParseInjective | builtin/govolume.go:639-665 | distinct references never resolve to the same registry, repository and tag |
| OciRef.RegistryUrlExactly | builtin/govolume.go:635-679 | a reference resolves to its host, repository and tag, over http if the host without its port is "127.0.0.1", "::1", "localhost" or ends in ".local", and over https otherwise |
| OciRef.ParseErrorsExactly | builtin/govolume.go:639-665 | a missing scheme, repository or tag is named as such |
| OciRef.PortIsIgnored | builtin/govolume.go:669-679 | a port does not change whether a host is local |
| OciRef.HostIsLocalExactly | builtin/govolume.go:667-679 | when hostIsLocal is right: every name with a port, every ':'-free name; a name with a ':' exactly if it is not "::1" and is local once cut just when it ends in ".local"; a bracketed literal, bare or with a port, exactly if it is not the loopback and, bare, does not read as *.local once cut |
| OciRef.BareLiteralExactly | builtin/govolume.go:667-679 | a bare IPv6 literal is judged right exactly if it is not "::1" and what precedes its last ':' is not a loopback address |
| OciRef.Ipv6LoopbackIsNotLocal | builtin/govolume.go:669-679 | "::1" and "[::1]:5000" are not local, "::1:5000" is |
| OciRef.RetagSucceedsExactly | builtin/govolume_oci.go:325-340 | retagging a parsable reference succeeds exactly for a non-empty new tag and a '/'-free old one |
| OciRef.RetagKeepsRepository | builtin/govolume_oci.go:323-340 | the result parses to the same registry and repository with the new tag if and only if that tag has no ':' |
| OciRef.RetagInjective | builtin/govolume_oci.go:325-340 | retagging is injective in the tag and changes nothing only for the tag already there |
| OciRef.RetagTwice | builtin/govolume_oci.go:325-340 | after a retag to a tag without ':' and '/', a further retag keeps only the last tag |
| SparseCopy.ReadFullAt | builtin/govolume.go:565-579 | under arbitrary short reads, no error means every byte is the source's; answers that progress up to an EOF with the last byte succeed, an EOF before it and any other error are reported; bytes beyond are untouched; short reads alone never make it fail |
| SparseCopy.EqualBytes | builtin/govolume.go:581-592 | true exactly for equal contents |
| SparseCopy.WriteUnlessHole | builtin/govolume.go:555-560 | an all-zero window is not written, any other is written whole |
| SparseCopy.CopyDevice | builtin/govolume.go:540-563 | success gives the sparse image of every window; failure gives the windows before the failing one, leaves those after it, and leaves that one too if it is all zeros; a failing first read stops it before any write; no all-zero window is ever written; short reads, and EOFs that come with the last byte of a window, never make it fail; for lengths above 2^63 - 2^20 it panics after the last window |
| SparseCopy.SparseIsPlainExactly | builtin/govolume.go:540-563 | the sparse copy equals a plain copy if and only if the destination was zero wherever a source window is all zeros |
| SparseCopy.SparseIntoZeros | builtin/govolume.go:540-563 | into zeros, the sparse copy is the source's bytes, and what lies beyond is unchanged |
| SparseCopy.FailedCopyLeaves | builtin/govolume.go:552-560 | after a failure into zeros: the source before the failing window, zeros after it, and in it too if the source has zeros there |
| SparseCopy.OffsetsFitExactly | builtin/govolume.go:546-549 | with windows of 2^20 bytes the offset never wraps exactly for lengths up to 2^63 - 2^20 |
| PoolVolumes.WantBytesExactly | builtin/govolume.go:174 | the requested size in bytes is exact exactly below 2^33 GiB |
| PoolVolumes.WantBytesCanVanish | builtin/govolume.go:174 | 2^34 GiB wraps to zero |
| PoolVolumes.RestoreSizeExact | builtin/govolume.go:511-521 | no wrap for up to 2^33 - 2 GiB and images up to 2^63 - 1 - 2^30 bytes |
| PoolVolumes.GoVolume.EnsureVolume | builtin/govolume.go:161-209 | an existing pool is only checked, and accepted exactly if its disk is large enough; a new one is a zero disk of the size asked with one GiB of headroom, and is made unless something fails or wraps; a failed disk or sync leaves the pool file behind, any other failure nothing |
| PoolVolumes.GoVolume.RestoreInto | builtin/govolume.go:507-538 | the new disk is the image and zeros, in a pool one GiB larger; the first failing call before the copy decides the error; a failed disk, copy or sync leaves the pool file behind, any other failure nothing; what a partial copy leaves, and zeros if its first read fails |
| PoolVolumes.GoVolume.RestoreBackup | builtin/govolume.go:478-501 | an existing pool makes it a no-op; otherwise the tag's image is restored, always so without faults, short reads and window-ending EOFs included, if the pool's capacity fits, and a failure leaves what restoreInto leaves |
| PoolVolumes.GoVolume.CreateBackup | builtin/govolume.go:435-472 | success puts the snapshot's bytes under the target tag and changes no other; failure changes nothing; without faults it succeeds for a snapshot that exists |
| PoolVolumes.BackupThenRestore | builtin/govolume.go:435-538 | backup then restore gives the snapshot's bytes and zeros up to the larger size, in a pool of exactly that size plus 2^30; without faults both succeed |
| PoolVolumes.RetryIsTrustedExactly | builtin/govolume.go:487-538 | a retry that succeeds after a failed restore can be trusted if and only if the first error was neither the creation of the disk nor, for an image with a non-zero byte, the copy (or no pool of that size fits) |
| PoolVolumes.RestoreTwice | builtin/govolume.go:478-538 | two calls of RestoreBackup: a nil retry after any other first error leaves the image; after a failed disk creation it always returns nil without one |
| PoolVolumes.RetryCanHideAFailure | builtin/govolume.go:474-538 | two calls of RestoreBackup, for every image, target and such first error whose pool fits: under the faults given the first fails with it, the second returns nil, and the volume does not hold the image |
| PoolVolumes.GoVolume.CreateSnapshot | builtin/govolume.go:345-380 | succeeds exactly for a name that is neither "disk" nor taken; the name then holds the disk's content, and nothing else in the pool changes |
| PoolVolumes.GoVolume.ListSnapshots | builtin/govolume.go:382-415 | the strictly sorted list of exactly the names but "disk" that open |
| PoolVolumes.SnapshotIsolation | builtin/govolume.go:342-344 | a snapshot's content survives every later write and snapshot |
| PoolVolumes.TakenHoldsTheDisk | builtin/govolume.go:342-367 | at the end of any run a name taken in it holds the bytes the disk had when it was taken |
| PoolVolumes.DiskIsLastWritten | builtin/govolume.go:342-344 | after any run each byte of the disk is the last one the guest wrote to it, or the first |
| PoolVolumes.SnapshotThenRestore | builtin/govolume.go:342-538 | snapshot, any later writes and snapshots, backup, restore: the copy is the disk as it was at the snapshot, and zeros |
| PoolVolumes.NamesAreTheTaken | builtin/govolume.go:354-367 | after any run the pool holds the names it began with and exactly the snapshots taken |
| PoolVolumes.ListTaken | builtin/govolume.go:382-415 | on a fresh volume after any run of guest writes and snapshots, ListSnapshots returns the strictly sorted list of exactly the snapshots taken |
| Sorting.SortedNames | builtin/govolume.go:395-396 | the names in strict order |
| Sorting.LessExactly | builtin/govolume.go:395-396 | the order is by the first character that differs, a prefix before what it begins |
| OciVolumes.OtherTagsKeepTheirBytes | builtin/govolume_oci.go:222-239 | at every point of every run only the destinations of commits have changed; no tag disappears |
| OciVolumes.BaseIsFixedExactly | builtin/govolume_oci.go:222-250 | over every run that does not destroy the volume, its recorded base is the first one at the end if and only if every commit of it read the sidecar back |
| OciVolumes.UnreadBaseIsLost | builtin/govolume_oci.go:241-265 | after one commit that could not read the sidecar back, the base is empty for the rest of every run that does not destroy the volume, and no snapshot tag can be formed |
| OciVolumes.LiveBytes | builtin/govolume_oci.go:149-163 | over any run byte i of a live overlay is the one the last guest write to it since the attach put there, otherwise the attached image's |
| OciVolumes.CommitPushesWrites | builtin/govolume_oci.go:203-239 | and a commit through it leaves exactly those bytes under its destination's tag |
| OciVolumes.AttachWriteCommit | builtin/govolume_oci.go:165-239 | attach, write, commit: the tag holds the bytes written and the current version's elsewhere |
| OciVolumes.DestroyKeepsOthers | builtin/govolume.go:211-231 | a destroy takes exactly its volume's overlays and sidecar, and no tag |
| OciVolumes.StepPaysExactly | builtin/govolume_oci.go:222-239 | a step keeps the last committed bytes reachable exactly unless it writes other bytes over the volume's current tag |
| OciVolumes.LastOneSettles | builtin/govolume_oci.go:117-239 | what a volume owes its next reader is what its last successful commit pushed or the image it was provisioned from, whichever came last |
| OciVolumes.RunPays | builtin/govolume_oci.go:222-239 | in any run that spares the current tag, a provisioned volume's current version is in the registry with exactly those bytes |
| OciVolumes.ReattachReadsLastCommit | builtin/govolume_oci.go:149-163 | in any run that spares the current tag, a fresh attach reads exactly the view of the last successful commit, or the image provisioned from if that is later; uncommitted writes are gone |
| OciVolumes.FreshTagsNeverClobber | builtin/govolume_oci.go:222-239 | in every run whose pushes go to tags not in the registry yet, nobody writes over the volume's current tag |
| OciVolumes.FreshTagsKeepCommits | builtin/govolume_oci.go:149-239 | so in every such run a fresh attach reads what the last commit pushed, or the image provisioned from |
| OciVolumes.DetachForgetsWrites | builtin/govolume.go:326-340 | a detach and a new attach show the volume's current version without its uncommitted writes, and change no other server, tag or sidecar |
| OciVolumes.SnapshotCanReplaceBase | builtin/govolume_oci.go:255-265 | a snapshot lands on the base's tag exactly when it is named like it |
| OciVolumes.SnapshotReplacesBaseExactly | builtin/govolume_oci.go:222-265 | the base image is then the snapshot's view; under any other name it keeps its bytes |
| OciVolumes.GoVolume.ReadSidecar | builtin/govolume_oci.go:92-102 | succeeds exactly on a complete record |
| OciVolumes.GoVolume.WriteSidecar | builtin/govolume_oci.go:104-115 | the sidecar becomes the new record or stays as it was |
| OciVolumes.GoVolume.EnsureVolume | builtin/govolume_oci.go:117-144 | provisions a ref as base and current exactly if it resolves and no call fails; an existing sidecar is a no-op |
| OciVolumes.GoVolume.RestoreVolume | builtin/govolume_oci.go:299-321 | a new volume whose base and current are the given version, exactly if that resolves and no call fails; an existing sidecar is a no-op |
| OciVolumes.GoVolume.OpenOverlay | builtin/govolume_oci.go:146-163 | a fresh overlay over the image of the current version, exactly if the sidecar reads and the version opens |
| OciVolumes.GoVolume.AttachVolume | builtin/govolume_oci.go:165-201 | a running server is kept, otherwise a fresh overlay is served; when it succeeds, exactly |
| OciVolumes.GoVolume.RemoveServers | builtin/govolume.go:218-223 | the loop removes exactly the volume's servers |
| OciVolumes.GoVolume.DestroyVolume | builtin/govolume.go:211-226 | the volume's servers go even if its directory cannot be removed, which is reported; the files go as far as the removal got; everything else stays; the empty UUID is a no-op |
| OciVolumes.GoVolume.LiveOverlay | builtin/govolume_oci.go:203-216 | some attached server of the volume, or none exactly if there is none |
| OciVolumes.GoVolume.BaseRef | builtin/govolume_oci.go:241-250 | the recorded base, or "" when the sidecar cannot be read |
| OciVolumes.GoVolume.CommitOverlay | builtin/govolume_oci.go:218-239 | pushes the live view under the destination and advances current; succeeds exactly if the volume is attached, the destination parses, and push and sidecar write succeed; what each failure leaves |
| OciVolumes.GoVolume.SnapshotVolume | builtin/govolume_oci.go:252-276 | commits to the retagged base; when it succeeds, exactly |
| OciVolumes.GoVolume.BackupVolume | builtin/govolume_oci.go:278-297 | commits to the target; when it succeeds, exactly |
| SidecarProtocol.SidecarAlwaysGood | builtin/govolume_oci.go:104-115 | from provisioned volumes on, in every state of every run with concurrent commits and crashes, the sidecar is complete, its base the first one, its current version in the registry, if reads succeed and torn writes are alone |
| SidecarProtocol.TornWriteIsHarmlessExactly | builtin/govolume_oci.go:107-113 | a torn tmp write leaves the volume readable for ever if and only if no other commit of it stands before its rename |
| SidecarProtocol.UnreadBaseIsPublished | builtin/govolume_oci.go:235-250 | a failed re-read publishes an empty base |
| SidecarProtocol.RenameMayPublishAnother | builtin/govolume_oci.go:107-113 | one commit's rename may publish the other's record, whose own rename then finds nothing |
| SidecarProtocol.OverlapIsReachable | builtin/govolume_oci.go:104-115 | from any provisioned volumes two commits of one volume reach the state from which a torn write is published and from which a rename publishes another's record, with no read failing and no write torn before |
| SidecarProtocol.EachCommitPublishesItself | builtin/govolume_oci.go:104-115 | starting with no commit running, if commits of one volume never overlap, in every run with crashes and failures a rename publishes exactly its own commit's record |
| SidecarProtocol.KeepsTmpExactly | builtin/govolume_oci.go:107-113 | a commit about to rename its own record keeps it, however long it pauses with no restart and no new commit of the volume, if and only if no other commit of the volume is running that can get past its push |
| SidecarProtocol.UndisturbedCommitIsOneStep | builtin/govolume_oci.go:222-239 | the system calls of an undisturbed commit add up to the one step the lifecycle's runs are made of |
| QemuArgs.BuildArgs | builtin/args.go:105-239 | succeeds exactly for a kernel, an arch, complete shares and valid tokens, and says which is wrong; the argv |
| QemuArgs.HeadIs | builtin/args.go:87-141 | the first fifteen arguments, with the machine type of the arch and every default |
| QemuArgs.FixedParts | builtin/args.go:142-239 | the NIC, vsock, serial and initrd arguments |
| QemuArgs.ValidTokenExactly | builtin/args.go:241-262 | a passthrough token is refused exactly for a comma, white space, '=', '/' or two dots in a row |
| QemuArgs.TokensLikeThese | builtin/args.go:250-252 | a PCI address passes, a path upwards and a second property do not |
| QemuArgs.TokenArgsAppend | builtin/args.go:208-231 | one device per non-empty token, in order |
| QemuArgs.ForwardsAppend | builtin/args.go:157-165 | every forward in order, "tcp" when no protocol is given |
| QemuArgs.AddDrives | builtin/args.go:149-155 | one -drive per disk, numbered |
| QemuArgs.AddNet | builtin/args.go:157-167 | the NIC with every forward in order |
| QemuArgs.AddShares | builtin/args.go:177-188 | an -fsdev and -device pair per share, or the first incomplete share |
| QemuArgs.AddTokens | builtin/args.go:208-216 | one vfio device per non-empty token, or an invalid one |
| QemuArgs.AddDevices | builtin/args.go:197-238 | vsock, passthrough and serial |
| QemuArgsReader.RoundTripExactly | builtin/args.go:108-239 | the configuration is recovered from the argv, defaults filled in, if and only if paths, tags and protocols have no comma |
| QemuArgsReader.ArgsReadBack | builtin/args.go:108-239 | the position-by-position reader recovers it |
| QemuArgsReader.FsdevIdsDistinct | builtin/args.go:177-181 | the ids read from the fsdev arguments of one argv are pairwise distinct |
| QemuArgsReader.DriveIdsDistinct | builtin/args.go:149-155 | and so are those of its drive arguments, for paths without a comma |
| QemuArgsReader.ShareWiring | builtin/args.go:177-188 | in the argv each 9p device's fsdev= option is the id= option of the fsdev argument just before it, whatever the paths and tags |
| QemuOptions.ForwardReadBack | builtin/args.go:159-165 | protocol and ports of either sign are read back from a forward |
| Decimal.AtoiOfItoa | builtin/args.go:136-137 | reading a printed integer gives it back |
| Decimal.DecimalDigits | builtin/args.go:136-137 | the digits are the decimal ones, after a minus sign for negative numbers |
| Cmdline.RewriteCmdlineForQEMU | builtin/qemu.go:404-418 | in place on the shared array, the result is the mapped and filtered tokens and one transport hint |
| Cmdline.RewrittenTokens | builtin/qemu.go:404-418 | the tokens of the result; no virtio console, the hint once and last |
| Cmdline.ConsoleMoves | builtin/qemu.go:404-418 | the result has the ttyAMA0 console exactly if the input had it or the virtio one; no other token comes or goes but the hint |
| Cmdline.RewriteOne | builtin/qemu.go:407-414 | what becomes of one token |
| Cmdline.FieldsSplit | builtin/qemu.go:405 | any white space splits, however much of it |
| Cmdline.RewriteIsIdempotent | builtin/qemu.go:399-418 | rewriting twice is rewriting once, for every line |
| Cmdline.FieldsOfJoin | builtin/qemu.go:405-417 | splitting undoes joining for tokens |
| Cmdline.NeverTtyS0 | builtin/qemu.go:395-410 | ttyS0 is in the result exactly if it was in the input |
| VmProcess.ExitFileIsTrue | builtin/qemu.go:186-210 | in every run from the start exit.json names only a process that has been waited for |
| VmProcess.ClearRemoves | builtin/qemu.go:110-114 | the removal leaves no exit.json, whatever it said, unless it fails |
| VmProcess.OneLife | builtin/qemu.go:105-210 | an undisturbed StartVM launches a process, records it and leaves no exit.json; when it exits and is reaped exit.json names it |
| VmProcess.NeverNamedExactly | builtin/qemu.go:105-210 | for a process already launched, no continuation makes exit.json name it if and only if it does not name it now, neither its reaper nor the StartVM call that starts it has yet to publish, and no reaper is about to rename a tmp file that names it |
| VmProcess.StaysAbsentExactly | builtin/qemu.go:110-114 | after the removal, until StartVM goes on, exit.json stays absent whatever exits and is reaped if and only if no reaper can still publish |
| VmProcess.PendingIsReachable | builtin/qemu.go:105-186 | a run in which StartVM has removed exit.json while an earlier reaper still waits |
| VmProcess.AtMostOneProcess | builtin/qemu.go:105-178 | in every run from the start, one StartVM at a time that always writes vm.pid keeps at most one process |
| VmProcess.TwoProcesses | builtin/qemu.go:105-178 | both conditions are needed |

## Left out

* The NBD wire protocol, copy-on-write block maps, OCI chunking and digests: library code that is not part of this model.
* OciRef.Parse: the host is kept as written; percent-escaping of unusual host characters in the rendered URL is not modelled.
* AttachProtocol.Apply: a volume either has files or not; whether they are a pool or a sidecar is free in each step, because they may change under an attach; nil map entries, which the driver never inserts, are not modelled.
* PoolVolumes.GoVolume.EnsureVolume: the dispatch on the spec's format and on the presence of a sidecar is the choice between the two GoVolume classes.
* OciVolumes.GoVolume.EnsureVolume: takes the base ref already trimmed of white space.
* OciVolumes.GoVolume.AttachVolume: uncontended; the contended form is the attach protocol.
* SidecarProtocol.SidecarAlwaysGood: commits only; a destroy or a provisioning of the same volume at the same time is not covered.
* Two attachments of one pool file, from two hosts or during a snapshot: what happens is decided inside the library.
* A commit through an overlay whose server is being closed at the same time.
* Digests, labels, sizes and timestamps in returned records; registry credentials; logging.
* VmProcess.ExitFileIsTrue: pids are never reused; a write of exit.json.tmp is one step, which may fail and leave a torn file.
* QemuArgsReader.RoundTripExactly: the reader splits at every comma; QEMU reads a doubled comma as one that does not split.
* StopVM, DeleteVM, disks and NICs of a VM, host information, bundle assembly, MAC creation and the unsupported stubs: plumbing with no state of their own.
