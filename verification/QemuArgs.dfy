/** The qemu-system argv of a boot configuration, and a reader that recovers it (builtin/args.go). */
module QemuArgs {
  import opened Wrappers
  import opened Decimal
  import opened QemuOptions

  datatype BootConfig = BootConfig(
    arch: string, accel: string, cpu: string, cpus: int, memMiB: int,
    kernel: string, initrd: string, cmdline: string,
    disks: seq<Disk>, consolePath: string, netUser: bool, fwd: seq<Forward>, shares: seq<Share>,
    pci: seq<string>, mig: seq<string>, vsockCid: nat)

  datatype ArgsError =
    | KernelRequired
    | ArchRequired
    | ShareIncomplete(i: nat)
    | BadPci(token: string)
    | BadMig(token: string)

  // ---- Defaults ----

  function MachineType(arch: string): string { if arch == "aarch64" then "virt" else "q35" }
  function AccelOf(b: BootConfig): string { if b.accel == "" then "tcg" else b.accel }
  function CpuOf(b: BootConfig): string { if b.cpu == "" then "max" else b.cpu }
  function CpusOf(b: BootConfig): int { if b.cpus < 1 then 1 else b.cpus }
  function MemOf(b: BootConfig): int { if b.memMiB < 1 then 512 else b.memMiB }

  /** validVFIOToken. */
  predicate ValidToken(s: string) {
    && (forall i :: 0 <= i < |s| ==> s[i] !in ", \t\n\r=/")
    && (forall i :: 0 <= i < |s| - 1 ==> !(s[i] == '.' && s[i + 1] == '.'))
  }

  predicate ShareComplete(s: Share) {
    s.tag != "" && s.path != ""
  }

  predicate TokensValid(tokens: seq<string>) {
    forall i :: 0 <= i < |tokens| ==> tokens[i] == "" || ValidToken(tokens[i])
  }

  /** What buildArgs accepts. */
  predicate Buildable(b: BootConfig) {
    && b.kernel != "" && b.arch != ""
    && (forall i :: 0 <= i < |b.shares| ==> ShareComplete(b.shares[i]))
    && TokensValid(b.pci) && TokensValid(b.mig)
  }

  // ---- The argv ----

  function HeadArgs(b: BootConfig): seq<string> {
    ["-machine", MachineType(b.arch), "-accel", AccelOf(b), "-cpu", CpuOf(b),
     "-smp", Itoa(CpusOf(b)), "-m", Itoa(MemOf(b)), "-no-reboot", "-display", "none", "-kernel", b.kernel]
  }

  function OptionArgs(name: string, value: string): seq<string> {
    if value == "" then [] else [name, value]
  }

  function DriveArgs(disks: seq<Disk>, i: nat): seq<string> {
    if disks == [] then [] else ["-drive", DriveSpec(disks[0], i)] + DriveArgs(disks[1..], i + 1)
  }

  function ForwardsText(fwd: seq<Forward>): string {
    if fwd == [] then "" else "," + ForwardPart(fwd[0]) + ForwardsText(fwd[1..])
  }

  const NET_DEVICE := "virtio-net-pci,netdev=net0"

  function NetArgs(b: BootConfig): seq<string> {
    if b.netUser then ["-netdev", "user,id=net0" + ForwardsText(b.fwd), "-device", NET_DEVICE] else []
  }

  function ShareArgs(shares: seq<Share>, i: nat): seq<string> {
    if shares == [] then []
    else ["-fsdev", FsdevSpec(shares[0], i), "-device", ShareDeviceSpec(shares[0], i)] + ShareArgs(shares[1..], i + 1)
  }

  const VSOCK := "vhost-vsock-pci,guest-cid="
  const PCI := "vfio-pci,host="
  const MIG := "vfio-pci,sysfsdev=/sys/bus/mdev/devices/"

  function VsockArgs(cid: nat): seq<string> {
    if cid == 0 then [] else ["-device", VSOCK + Itoa(cid)]
  }

  /** One vfio device per non-empty token. */
  function TokenArgs(prefix: string, tokens: seq<string>): seq<string> {
    if tokens == [] then []
    else if tokens[0] == "" then TokenArgs(prefix, tokens[1..])
    else ["-device", prefix + tokens[0]] + TokenArgs(prefix, tokens[1..])
  }

  function SerialArgs(consolePath: string): seq<string> {
    ["-serial", if consolePath != "" then "file:" + consolePath else "null"]
  }

  function ArgsFromVsock(b: BootConfig): seq<string> {
    VsockArgs(b.vsockCid) + (TokenArgs(PCI, b.pci) + (TokenArgs(MIG, b.mig) + SerialArgs(b.consolePath)))
  }

  function ArgsFromDrives(b: BootConfig): seq<string> {
    DriveArgs(b.disks, 0) + (NetArgs(b) + (ShareArgs(b.shares, 0) + ArgsFromVsock(b)))
  }

  function ArgsOf(b: BootConfig): seq<string> {
    HeadArgs(b) + (OptionArgs("-initrd", b.initrd) + (OptionArgs("-append", b.cmdline) + ArgsFromDrives(b)))
  }

  // ---- buildArgs ----

  method BuildArgs(b: BootConfig) returns (r: Result<seq<string>, ArgsError>)
    ensures r.Ok? <==> Buildable(b)
    ensures r.Ok? ==> r.value == ArgsOf(b)
    ensures r.Err? ==>
              match r.error
              case KernelRequired => b.kernel == ""
              case ArchRequired => b.kernel != "" && b.arch == ""
              case ShareIncomplete(i) => i < |b.shares| && !ShareComplete(b.shares[i])
                                         && forall j :: 0 <= j < i ==> ShareComplete(b.shares[j])
              case BadPci(t) => t in b.pci && t != "" && !ValidToken(t)
              case BadMig(t) => t in b.mig && t != "" && !ValidToken(t)
  {
    if b.kernel == "" {
      return Err(KernelRequired);
    }
    if b.arch == "" {
      return Err(ArchRequired);
    }
    var head := AddHead(b);
    var drives := AddDrives(b, head);
    var net := AddNet(b, drives);
    var shared := AddShares(b, net);
    if shared.Err? {
      return Err(shared.error);
    }
    Glue(head, DriveArgs(b.disks, 0), NetArgs(b), ShareArgs(b.shares, 0), ArgsFromVsock(b));
    r := AddDevices(b, shared.value);
  }

  lemma Glue(a: seq<string>, b: seq<string>, c: seq<string>, d: seq<string>, e: seq<string>)
    ensures a + (b + (c + (d + e))) == a + b + c + d + e
  {
  }

  /** The fixed options, the initrd and the kernel command line. */
  method AddHead(b: BootConfig) returns (args: seq<string>)
    ensures args + ArgsFromDrives(b) == ArgsOf(b)
  {
    args := HeadArgs(b);
    if b.initrd != "" {
      args := args + ["-initrd", b.initrd];
    }
    if b.cmdline != "" {
      args := args + ["-append", b.cmdline];
    }
    Glue(HeadArgs(b), OptionArgs("-initrd", b.initrd), OptionArgs("-append", b.cmdline), [], ArgsFromDrives(b));
    assert [] + ArgsFromDrives(b) == ArgsFromDrives(b);
    assert args + [] == args;
  }

  /** vsock, the two passthrough loops and the serial port. */
  method AddDevices(b: BootConfig, args0: seq<string>) returns (r: Result<seq<string>, ArgsError>)
    ensures r.Ok? <==> TokensValid(b.pci) && TokensValid(b.mig)
    ensures r.Ok? ==> r.value == args0 + ArgsFromVsock(b)
    ensures r.Err? ==>
              || (r.error.BadPci? && r.error.token in b.pci && r.error.token != "" && !ValidToken(r.error.token))
              || (r.error.BadMig? && r.error.token in b.mig && r.error.token != "" && !ValidToken(r.error.token))
  {
    var args := args0;
    if b.vsockCid != 0 {
      args := args + ["-device", VSOCK + Itoa(b.vsockCid)];
    }
    assert args == args0 + VsockArgs(b.vsockCid);
    var pci, badPci := AddTokens(PCI, b.pci, args);
    if badPci.Some? {
      return Err(BadPci(badPci.value));
    }
    var mig, badMig := AddTokens(MIG, b.mig, pci);
    if badMig.Some? {
      return Err(BadMig(badMig.value));
    }
    Glue(args0, VsockArgs(b.vsockCid), TokenArgs(PCI, b.pci), TokenArgs(MIG, b.mig), SerialArgs(b.consolePath));
    if b.consolePath != "" {
      return Ok(mig + ["-serial", "file:" + b.consolePath]);
    } else {
      return Ok(mig + ["-serial", "null"]);
    }
  }

  /** The -drive loop. */
  method AddDrives(b: BootConfig, args0: seq<string>) returns (args: seq<string>)
    ensures args == args0 + DriveArgs(b.disks, 0)
  {
    args := args0;
    for i := 0 to |b.disks|
      invariant args + DriveArgs(b.disks[i..], i) == args0 + DriveArgs(b.disks, 0)
    {
      var spec := "file=" + b.disks[i].path + ",if=virtio,format=raw,id=disk" + Itoa(i);
      if b.disks[i].readOnly {
        spec := spec + ",readonly=on";
      }
      assert spec == DriveSpec(b.disks[i], i);
      NextDrive(b.disks, i, args);
      args := args + ["-drive", spec];
    }
  }

  lemma NextDrive(disks: seq<Disk>, i: nat, args: seq<string>)
    requires i < |disks|
    ensures args + DriveArgs(disks[i..], i) == args + ["-drive", DriveSpec(disks[i], i)] + DriveArgs(disks[i + 1..], i + 1)
  {
    assert disks[i..][0] == disks[i] && disks[i..][1..] == disks[i + 1..];
  }

  /** The user-mode NIC and its port forwards. */
  method AddNet(b: BootConfig, args0: seq<string>) returns (args: seq<string>)
    ensures args == args0 + NetArgs(b)
  {
    args := args0;
    if b.netUser {
      var netdev := "user,id=net0";
      for i := 0 to |b.fwd|
        invariant netdev + ForwardsText(b.fwd[i..]) == "user,id=net0" + ForwardsText(b.fwd)
      {
        var proto := b.fwd[i].proto;
        if proto == "" {
          proto := "tcp";
        }
        var part := "hostfwd=" + proto + "::" + Itoa(b.fwd[i].hostPort) + "-:" + Itoa(b.fwd[i].guestPort);
        assert part == ForwardPart(b.fwd[i]);
        assert b.fwd[i..][0] == b.fwd[i] && b.fwd[i..][1..] == b.fwd[i + 1..];
        Regrouped(netdev, part, ForwardsText(b.fwd[i + 1..]));
        netdev := netdev + ("," + part);
      }
      assert netdev + "" == netdev;
      args := args + ["-netdev", netdev, "-device", NET_DEVICE];
    }
  }

  lemma Regrouped(a: string, part: string, rest: string)
    ensures a + ("," + part + rest) == a + ("," + part) + rest
  {
  }

  /** The 9p loop: an -fsdev and the -device that names it. */
  method AddShares(b: BootConfig, args0: seq<string>) returns (r: Result<seq<string>, ArgsError>)
    ensures r.Ok? <==> forall i :: 0 <= i < |b.shares| ==> ShareComplete(b.shares[i])
    ensures r.Ok? ==> r.value == args0 + ShareArgs(b.shares, 0)
    ensures r.Err? ==> r.error.ShareIncomplete? && r.error.i < |b.shares| && !ShareComplete(b.shares[r.error.i])
                       && forall j :: 0 <= j < r.error.i ==> ShareComplete(b.shares[j])
  {
    var args := args0;
    for i := 0 to |b.shares|
      invariant forall j :: 0 <= j < i ==> ShareComplete(b.shares[j])
      invariant args + ShareArgs(b.shares[i..], i) == args0 + ShareArgs(b.shares, 0)
    {
      var s := b.shares[i];
      if s.tag == "" || s.path == "" {
        return Err(ShareIncomplete(i));
      }
      var fsId := "fs" + Itoa(i);
      var fsdev := "local,id=" + fsId + ",path=" + s.path + ",security_model=none";
      if s.readOnly {
        fsdev := fsdev + ",readonly=on";
      }
      var dev := "virtio-9p-pci,fsdev=" + fsId + ",mount_tag=" + s.tag;
      FsIdText(fsdev, dev, s, i);
      assert b.shares[i..][0] == s && b.shares[i..][1..] == b.shares[i + 1..];
      args := args + ["-fsdev", fsdev, "-device", dev];
    }
    return Ok(args);
  }

  lemma FsIdText(fsdev: string, dev: string, s: Share, i: nat)
    requires fsdev == "local,id=" + ("fs" + Itoa(i)) + ",path=" + s.path + ",security_model=none" + ReadOnlyTail(s.readOnly)
    requires dev == "virtio-9p-pci,fsdev=" + ("fs" + Itoa(i)) + ",mount_tag=" + s.tag
    ensures fsdev == FsdevSpec(s, i) && dev == ShareDeviceSpec(s, i)
  {
    var n := Itoa(i);
    assert "local,id=fs" == "local,id=" + "fs" && "virtio-9p-pci,fsdev=fs" == "virtio-9p-pci,fsdev=" + "fs";
    assert "local,id=" + ("fs" + n) == "local,id=fs" + n;
    assert "virtio-9p-pci,fsdev=" + ("fs" + n) == "virtio-9p-pci,fsdev=fs" + n;
  }

  /** A passthrough loop: empty tokens are skipped, an invalid one stops it. */
  method AddTokens(prefix: string, tokens: seq<string>, args0: seq<string>)
    returns (args: seq<string>, bad: Option<string>)
    ensures bad.None? <==> TokensValid(tokens)
    ensures bad.None? ==> args == args0 + TokenArgs(prefix, tokens)
    ensures bad.Some? ==> bad.value in tokens && bad.value != "" && !ValidToken(bad.value)
  {
    args, bad := args0, None;
    for i := 0 to |tokens|
      invariant TokensValid(tokens[..i])
      invariant args + TokenArgs(prefix, tokens[i..]) == args0 + TokenArgs(prefix, tokens)
    {
      assert tokens[i..][0] == tokens[i] && tokens[i..][1..] == tokens[i + 1..];
      assert tokens[..i + 1] == tokens[..i] + [tokens[i]];
      if tokens[i] == "" {
        continue;
      }
      if !ValidToken(tokens[i]) {
        return args, Some(tokens[i]);
      }
      args := args + ["-device", prefix + tokens[i]];
    }
    assert tokens[..|tokens|] == tokens;
  }

  // ---- The parts a reader of the argv takes over, in their own words ----

  /** The first fifteen arguments and the defaults in them. */
  lemma HeadIs(b: BootConfig)
    ensures |ArgsOf(b)| >= 15
    ensures ArgsOf(b)[..15] ==
            ["-machine", if b.arch == "aarch64" then "virt" else "q35",
             "-accel", if b.accel == "" then "tcg" else b.accel,
             "-cpu", if b.cpu == "" then "max" else b.cpu,
             "-smp", Itoa(if b.cpus < 1 then 1 else b.cpus),
             "-m", Itoa(if b.memMiB < 1 then 512 else b.memMiB),
             "-no-reboot", "-display", "none", "-kernel", b.kernel]
  {
  }

  predicate Forbidden(c: char) {
    c == ',' || c == ' ' || c == '\t' || c == '\n' || c == '\r' || c == '=' || c == '/'
  }

  /** A token is refused exactly for a comma, white space, '=', '/' or two dots in a row. */
  lemma ValidTokenExactly(s: string)
    ensures ValidToken(s) <==>
              && (forall c :: Forbidden(c) ==> c !in s)
              && (forall i :: 0 < i < |s| ==> !(s[i - 1] == '.' && s[i] == '.'))
  {
    assert forall c: char :: c in ", \t\n\r=/" <==> Forbidden(c) by {
      ForbiddenChars();
    }
    if forall i :: 0 < i < |s| ==> !(s[i - 1] == '.' && s[i] == '.') {
      forall i | 0 <= i < |s| - 1 ensures !(s[i] == '.' && s[i + 1] == '.') {
        assert !(s[i + 1 - 1] == '.' && s[i + 1] == '.');
      }
    }
  }

  lemma ForbiddenChars()
    ensures forall c: char :: c in ", \t\n\r=/" <==> Forbidden(c)
  {
    var chars := ", \t\n\r=/";
    assert |chars| == 7;
    assert chars[0] == ',' && chars[1] == ' ' && chars[2] == '\t' && chars[3] == '\n' && chars[4] == '\r' && chars[5] == '=' && chars[6] == '/';
  }

  /** A PCI address passes; a path upwards does not. */
  lemma TokensLikeThese()
    ensures ValidToken("0000:65:00.0") && !ValidToken("../x") && !ValidToken("a,b=c")
  {
    var up, prop := "../x", "a,b=c";
    assert up[0] == '.' && up[0 + 1] == '.';
    assert prop[1] == ',';
    ForbiddenChars();
    BdfIsValid("0000:65:00.0");
  }

  lemma BdfIsValid(s: string)
    requires |s| == 12 && s == "0000:65:00.0"
    ensures ValidToken(s)
  {
    ForbiddenChars();
    assert s[0] == '0' && s[1] == '0' && s[2] == '0' && s[3] == '0' && s[4] == ':' && s[5] == '6' && s[6] == '5' && s[7] == ':';
    assert s[8] == '0' && s[9] == '0' && s[10] == '.' && s[11] == '0';
    assert forall i :: 0 <= i < 12 ==> s[i] == '0' || s[i] == '5' || s[i] == '6' || s[i] == ':' || s[i] == '.';
  }

  /** One vfio device per token that is not empty, in order. */
  lemma {:induction false} TokenArgsAppend(prefix: string, xs: seq<string>, ys: seq<string>)
    ensures TokenArgs(prefix, xs + ys) == TokenArgs(prefix, xs) + TokenArgs(prefix, ys)
    ensures forall t :: TokenArgs(prefix, [t]) == if t == "" then [] else ["-device", prefix + t]
  {
    forall t ensures TokenArgs(prefix, [t]) == if t == "" then [] else ["-device", prefix + t] {
      assert [t][1..] == [];
    }
    if xs == [] {
      assert xs + ys == ys;
    } else {
      assert (xs + ys)[1..] == xs[1..] + ys;
      TokenArgsAppend(prefix, xs[1..], ys);
    }
  }

  /** The options that are always written the same way. */
  lemma FixedParts(b: BootConfig)
    ensures OptionArgs("-initrd", b.initrd) == if b.initrd == "" then [] else ["-initrd", b.initrd]
    ensures NetArgs(b) == if b.netUser then ["-netdev", "user,id=net0" + ForwardsText(b.fwd), "-device", "virtio-net-pci,netdev=net0"] else []
    ensures VsockArgs(b.vsockCid) == if b.vsockCid == 0 then [] else ["-device", "vhost-vsock-pci,guest-cid=" + Itoa(b.vsockCid)]
    ensures SerialArgs(b.consolePath) == if b.consolePath == "" then ["-serial", "null"] else ["-serial", "file:" + b.consolePath]
    ensures PCI == "vfio-pci,host=" && MIG == "vfio-pci,sysfsdev=/sys/bus/mdev/devices/"
  {
  }

  /** Every forward in order, each after a comma, with "tcp" for no protocol. */
  lemma {:induction false} ForwardsAppend(xs: seq<Forward>, ys: seq<Forward>)
    ensures ForwardsText(xs + ys) == ForwardsText(xs) + ForwardsText(ys)
    ensures forall f :: ForwardsText([f]) == "," + ("hostfwd=" + (if f.proto == "" then "tcp" else f.proto) + "::"
                                                    + Itoa(f.hostPort) + "-:" + Itoa(f.guestPort))
  {
    forall f ensures ForwardsText([f]) == "," + ForwardPart(f) {
      assert [f][1..] == [];
      assert "," + ForwardPart(f) + "" == "," + ForwardPart(f);
    }
    if xs == [] {
      assert xs + ys == ys;
      assert "" + ForwardsText(ys) == ForwardsText(ys);
    } else {
      assert (xs + ys)[1..] == xs[1..] + ys;
      ForwardsAppend(xs[1..], ys);
      assert "," + ForwardPart(xs[0]) + (ForwardsText(xs[1..]) + ForwardsText(ys)) == "," + ForwardPart(xs[0]) + ForwardsText(xs[1..]) + ForwardsText(ys);
    }
  }
}
