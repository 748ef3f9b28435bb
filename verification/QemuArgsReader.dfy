/** Reading the argv of buildArgs back, position by position, splitting option strings at every comma. */
module QemuArgsReader {
  import opened Wrappers
  import opened Decimal
  import opened QemuOptions
  import opened QemuArgs

  /** What the argv says: the configuration with its defaults filled in. */
  datatype Machine = Machine(
    machine: string, accel: string, cpu: string, cpus: int, memMiB: int,
    kernel: string, initrd: Option<string>, cmdline: Option<string>,
    disks: seq<Disk>, net: Option<seq<Forward>>, shares: seq<Share>, vsockCid: Option<int>,
    pci: seq<string>, mig: seq<string>, console: Option<string>)

  function NonEmpty(s: string): Option<string> {
    if s == "" then None else Some(s)
  }

  function Normalised(fwd: seq<Forward>): seq<Forward> {
    if fwd == [] then [] else [fwd[0].(proto := ProtoOf(fwd[0]))] + Normalised(fwd[1..])
  }

  function Tokens(ts: seq<string>): seq<string> {
    if ts == [] then [] else (if ts[0] == "" then [] else [ts[0]]) + Tokens(ts[1..])
  }

  function Normalise(b: BootConfig): Machine {
    Machine(MachineType(b.arch), AccelOf(b), CpuOf(b), CpusOf(b), MemOf(b),
            b.kernel, NonEmpty(b.initrd), NonEmpty(b.cmdline),
            b.disks, if b.netUser then Some(Normalised(b.fwd)) else None, b.shares,
            if b.vsockCid == 0 then None else Some(b.vsockCid),
            Tokens(b.pci), Tokens(b.mig), NonEmpty(b.consolePath))
  }

  // ---- The reader: each part takes what it knows from the front ----

  datatype Read<T> = Read(value: T, rest: seq<string>)

  function ReadOption(name: string, args: seq<string>): Read<Option<string>> {
    if |args| >= 2 && args[0] == name then Read(Some(args[1]), args[2..]) else Read(None, args)
  }

  function ReadDrives(args: seq<string>, i: nat): Option<Read<seq<Disk>>>
    decreases |args|
  {
    if |args| < 2 || args[0] != "-drive" then Some(Read([], args)) else
    var d := ReadDrive(args[1], i);
    var more := ReadDrives(args[2..], i + 1);
    if d.None? || more.None? then None
    else Some(Read([d.value] + more.value.value, more.value.rest))
  }

  function ReadForwards(parts: seq<string>): Option<seq<Forward>> {
    if parts == [] then Some([]) else
    var f := ReadForward(parts[0]);
    var more := ReadForwards(parts[1..]);
    if f.None? || more.None? then None else Some([f.value] + more.value)
  }

  function ReadNet(args: seq<string>): Option<Read<Option<seq<Forward>>>> {
    if |args| < 4 || args[0] != "-netdev" then Some(Read(None, args)) else
    var f := Split(args[1]);
    if |f| < 2 || f[0] != "user" || f[1] != "id=net0" || args[2] != "-device" || args[3] != NET_DEVICE then None else
    var fwd := ReadForwards(f[2..]);
    if fwd.None? then None else Some(Read(fwd, args[4..]))
  }

  function ReadShares(args: seq<string>, i: nat): Option<Read<seq<Share>>>
    decreases |args|
  {
    if |args| < 4 || args[0] != "-fsdev" then Some(Read([], args)) else
    var s := ReadShare(args[1], args[3], i);
    var more := ReadShares(args[4..], i + 1);
    if args[2] != "-device" || s.None? || more.None? then None
    else Some(Read([s.value] + more.value.value, more.value.rest))
  }

  /** The value of "driver,name=value", if the next two arguments are -device and that. */
  function ReadDevice(args: seq<string>, driver: string, name: string): Option<string> {
    if |args| < 2 || args[0] != "-device" then None else
    var f := Split(args[1]);
    if |f| == 2 && f[0] == driver then After(name, f[1]) else None
  }

  function ReadVsock(args: seq<string>): Read<Option<int>> {
    var cid := ReadDevice(args, "vhost-vsock-pci", "guest-cid=");
    if cid.Some? && Atoi(cid.value).Some? then Read(Atoi(cid.value), args[2..]) else Read(None, args)
  }

  function ReadTokens(name: string, args: seq<string>): Read<seq<string>>
    decreases |args|
  {
    var t := ReadDevice(args, "vfio-pci", name);
    if t.None? then Read([], args)
    else
      var more := ReadTokens(name, args[2..]);
      Read([t.value] + more.value, more.rest)
  }

  function ReadSerial(args: seq<string>): Option<Option<string>> {
    if |args| != 2 || args[0] != "-serial" then None
    else if args[1] == "null" then Some(None)
    else if After("file:", args[1]).Some? then Some(After("file:", args[1]))
    else None
  }

  datatype Devices = Devices(vsockCid: Option<int>, pci: seq<string>, mig: seq<string>, console: Option<string>)

  function ReadDevices(args: seq<string>): Option<Devices> {
    var vsock := ReadVsock(args);
    var pci := ReadTokens("host=", vsock.rest);
    var mig := ReadTokens("sysfsdev=/sys/bus/mdev/devices/", pci.rest);
    var console := ReadSerial(mig.rest);
    if console.None? then None else Some(Devices(vsock.value, pci.value, mig.value, console.value))
  }

  datatype Storage = Storage(disks: seq<Disk>, net: Option<seq<Forward>>, shares: seq<Share>, devices: Devices)

  function ReadStorage(args: seq<string>): Option<Storage> {
    var disks := ReadDrives(args, 0);
    if disks.None? then None else
    var net := ReadNet(disks.value.rest);
    if net.None? then None else
    var shares := ReadShares(net.value.rest, 0);
    if shares.None? then None else
    var devices := ReadDevices(shares.value.rest);
    if devices.None? then None
    else Some(Storage(disks.value.value, net.value.value, shares.value.value, devices.value))
  }

  datatype Tail = Tail(initrd: Option<string>, cmdline: Option<string>, storage: Storage)

  function ReadTail(args: seq<string>): Option<Tail> {
    var initrd := ReadOption("-initrd", args);
    var cmdline := ReadOption("-append", initrd.rest);
    var st := ReadStorage(cmdline.rest);
    if st.None? then None else Some(Tail(initrd.value, cmdline.value, st.value))
  }

  predicate HasHead(args: seq<string>) {
    && |args| >= 15
    && args[0] == "-machine" && args[2] == "-accel" && args[4] == "-cpu" && args[6] == "-smp" && args[8] == "-m"
    && args[10] == "-no-reboot" && args[11] == "-display" && args[12] == "none" && args[13] == "-kernel"
  }

  function ReadArgs(args: seq<string>): Option<Machine> {
    if !HasHead(args) then None else
    var cpus, mem, tail := Atoi(args[7]), Atoi(args[9]), ReadTail(args[15..]);
    if cpus.None? || mem.None? || tail.None? then None else
    var s := tail.value.storage;
    Some(Machine(args[1], args[3], args[5], cpus.value, mem.value, args[14], tail.value.initrd, tail.value.cmdline,
                 s.disks, s.net, s.shares, s.devices.vsockCid, s.devices.pci, s.devices.mig, s.devices.console))
  }

  // ---- Each part reads its own arguments and stops ----

  /** The next argument, if there is one, is none of these names. */
  predicate NotNext(args: seq<string>, name: string) {
    args == [] || args[0] != name
  }

  lemma EmptyFront(xs: seq<string>)
    ensures [] + xs == xs
  {
  }

  lemma OneDrive(spec: string, d: Disk, i: nat, tail: seq<string>, ds: seq<Disk>, rest: seq<string>)
    requires ReadDrive(spec, i) == Some(d) && ReadDrives(tail, i + 1) == Some(Read(ds, rest))
    ensures ReadDrives(["-drive", spec] + tail, i) == Some(Read([d] + ds, rest))
  {
    assert (["-drive", spec] + tail)[2..] == tail;
  }

  lemma {:induction false} DrivesReadBack(disks: seq<Disk>, i: nat, rest: seq<string>)
    requires forall k :: 0 <= k < |disks| ==> CommaFree(disks[k].path)
    requires NotNext(rest, "-drive")
    ensures ReadDrives(DriveArgs(disks, i) + rest, i) == Some(Read(disks, rest))
  {
    if disks == [] {
      assert DriveArgs(disks, i) + rest == rest;
    } else {
      var spec, more := DriveSpec(disks[0], i), DriveArgs(disks[1..], i + 1);
      DriveReadBack(disks[0], i);
      DrivesReadBack(disks[1..], i + 1, rest);
      OneDrive(spec, disks[0], i, more + rest, disks[1..], rest);
      Assoc(["-drive", spec], more, rest);
      assert disks == [disks[0]] + disks[1..];
    }
  }

  function ForwardParts(fwd: seq<Forward>): seq<string> {
    if fwd == [] then [] else [ForwardPart(fwd[0])] + ForwardParts(fwd[1..])
  }

  lemma ForwardPartCommaFree(f: Forward)
    requires CommaFree(f.proto)
    ensures CommaFree(ForwardPart(f))
  {
    ItoaChars(f.hostPort, ',');
    ItoaChars(f.guestPort, ',');
    PiecesCommaFree("hostfwd=", ProtoOf(f), "::", Itoa(f.hostPort), "-:", Itoa(f.guestPort));
  }

  lemma PiecesCommaFree(a: string, b: string, c: string, d: string, e: string, f: string)
    requires CommaFree(a) && CommaFree(b) && CommaFree(c) && CommaFree(d) && CommaFree(e) && CommaFree(f)
    ensures CommaFree(a + b + c + d + e + f)
  {
  }

  lemma SplitForward(x: string, part: string, text: string, parts: seq<string>)
    requires CommaFree(x) && Split(part + text) == parts
    ensures Split(x + ("," + part + text)) == [x] + parts
  {
    CommaFirst(x, part, text);
    SplitCons(x, part + text);
  }

  lemma CommaFirst(x: string, part: string, text: string)
    ensures x + ("," + part + text) == x + "," + (part + text)
  {
  }

  lemma Assoc(a: seq<string>, b: seq<string>, c: seq<string>)
    ensures a + b + c == a + (b + c)
  {
  }

  lemma {:induction false} ForwardsSplit(x: string, fwd: seq<Forward>)
    requires CommaFree(x) && forall k :: 0 <= k < |fwd| ==> CommaFree(fwd[k].proto)
    ensures Split(x + ForwardsText(fwd)) == [x] + ForwardParts(fwd)
    decreases |fwd|
  {
    if fwd == [] {
      assert x + "" == x;
      SplitOne(x);
    } else {
      var part := ForwardPart(fwd[0]);
      ForwardPartCommaFree(fwd[0]);
      ForwardsSplit(part, fwd[1..]);
      SplitForward(x, part, ForwardsText(fwd[1..]), [part] + ForwardParts(fwd[1..]));
    }
  }

  lemma {:induction false} ForwardsReadBack(fwd: seq<Forward>)
    ensures ReadForwards(ForwardParts(fwd)) == Some(Normalised(fwd))
  {
    if fwd == [] {
    } else {
      ForwardReadBack(fwd[0]);
      ForwardsReadBack(fwd[1..]);
      assert ForwardParts(fwd)[1..] == ForwardParts(fwd[1..]);
    }
  }

  lemma OneNet(netdev: string, parts: seq<string>, fwd: seq<Forward>, rest: seq<string>)
    requires Split(netdev) == ["user", "id=net0"] + parts && ReadForwards(parts) == Some(fwd)
    ensures ReadNet(["-netdev", netdev, "-device", NET_DEVICE] + rest) == Some(Read(Some(fwd), rest))
  {
    var args, f := ["-netdev", netdev, "-device", NET_DEVICE] + rest, ["user", "id=net0"] + parts;
    assert f[0] == "user" && f[1] == "id=net0" && f[2..] == parts;
    assert args[0] == "-netdev" && args[1] == netdev && args[2] == "-device" && args[3] == NET_DEVICE && args[4..] == rest;
  }

  lemma NetReadBack(b: BootConfig, rest: seq<string>)
    requires b.netUser ==> forall k :: 0 <= k < |b.fwd| ==> CommaFree(b.fwd[k].proto)
    requires NotNext(rest, "-netdev")
    ensures ReadNet(NetArgs(b) + rest) == Some(Read(if b.netUser then Some(Normalised(b.fwd)) else None, rest))
  {
    if b.netUser {
      NetdevSplits(b.fwd);
      ForwardsReadBack(b.fwd);
      OneNet("user,id=net0" + ForwardsText(b.fwd), ForwardParts(b.fwd), Normalised(b.fwd), rest);
    } else {
      EmptyFront(rest);
    }
  }

  lemma NetText(t: string)
    ensures "user,id=net0" + t == "user" + "," + ("id=net0" + t)
    ensures CommaFree("user") && CommaFree("id=net0")
  {
    assert "user,id=net0" == "user" + "," + "id=net0";
  }

  lemma NetdevSplits(fwd: seq<Forward>)
    requires forall k :: 0 <= k < |fwd| ==> CommaFree(fwd[k].proto)
    ensures Split("user,id=net0" + ForwardsText(fwd)) == ["user", "id=net0"] + ForwardParts(fwd)
  {
    NetText(ForwardsText(fwd));
    ForwardsSplit("id=net0", fwd);
    SplitThen("user", "id=net0", "id=net0" + ForwardsText(fwd), ForwardParts(fwd));
  }

  lemma SplitThen(a: string, b: string, rest: string, parts: seq<string>)
    requires CommaFree(a) && Split(rest) == [b] + parts
    ensures Split(a + "," + rest) == [a, b] + parts
  {
    SplitCons(a, rest);
    assert [a] + ([b] + parts) == [a, b] + parts;
  }

  lemma OneShare(f: string, d: string, x: Share, i: nat, tail: seq<string>, xs: seq<Share>, rest: seq<string>)
    requires ReadShare(f, d, i) == Some(x) && ReadShares(tail, i + 1) == Some(Read(xs, rest))
    ensures ReadShares(["-fsdev", f, "-device", d] + tail, i) == Some(Read([x] + xs, rest))
  {
    assert (["-fsdev", f, "-device", d] + tail)[4..] == tail;
  }

  lemma {:induction false} SharesReadBack(shares: seq<Share>, i: nat, rest: seq<string>)
    requires forall k :: 0 <= k < |shares| ==> CommaFree(shares[k].path) && CommaFree(shares[k].tag)
    requires NotNext(rest, "-fsdev")
    ensures ReadShares(ShareArgs(shares, i) + rest, i) == Some(Read(shares, rest))
  {
    if shares == [] {
      assert ShareArgs(shares, i) + rest == rest;
    } else {
      var f, d := FsdevSpec(shares[0], i), ShareDeviceSpec(shares[0], i);
      var more := ShareArgs(shares[1..], i + 1);
      ShareReadBack(shares[0], i);
      SharesReadBack(shares[1..], i + 1, rest);
      OneShare(f, d, shares[0], i, more + rest, shares[1..], rest);
      Assoc(["-fsdev", f, "-device", d], more, rest);
      assert shares == [shares[0]] + shares[1..];
    }
  }

  lemma DeviceReadBack(driver: string, name: string, value: string, rest: seq<string>)
    requires CommaFree(driver) && CommaFree(name) && CommaFree(value)
    ensures ReadDevice(["-device", driver + "," + (name + value)] + rest, driver, name) == Some(value)
    ensures forall other, key :: other != driver ==> ReadDevice(["-device", driver + "," + (name + value)] + rest, other, key) == None
    ensures Split(driver + "," + (name + value)) == [driver, name + value]
  {
    SplitCons(driver, name + value);
    SplitOne(name + value);
    AfterPrefix(name, value);
  }

  lemma ValidTokenCommaFree(t: string)
    requires ValidToken(t)
    ensures CommaFree(t)
  {
  }

  /** The two vfio option names, and their text in the argv. */
  lemma VfioText(token: string)
    ensures PCI + token == "vfio-pci" + "," + ("host=" + token)
    ensures MIG + token == "vfio-pci" + "," + ("sysfsdev=/sys/bus/mdev/devices/" + token)
  {
    assert PCI == "vfio-pci" + "," + "host=";
    assert MIG == "vfio-pci" + "," + "sysfsdev=/sys/bus/mdev/devices/";
  }

  lemma OneToken(name: string, x: string, t: string, more: seq<string>, ts: seq<string>, rest: seq<string>)
    requires ReadDevice(["-device", x] + more, "vfio-pci", name) == Some(t)
    requires ReadTokens(name, more) == Read(ts, rest)
    ensures ReadTokens(name, ["-device", x] + more) == Read([t] + ts, rest)
  {
    assert (["-device", x] + more)[2..] == more;
  }

  lemma VfioReadBack(prefix: string, name: string, token: string, more: seq<string>)
    requires (prefix == PCI && name == "host=") || (prefix == MIG && name == "sysfsdev=/sys/bus/mdev/devices/")
    requires ValidToken(token)
    ensures ReadDevice(["-device", prefix + token] + more, "vfio-pci", name) == Some(token)
  {
    VfioText(token);
    ValidTokenCommaFree(token);
    VfioNamesCommaFree();
    DeviceReadBack("vfio-pci", name, token, more);
  }

  lemma VfioNamesCommaFree()
    ensures CommaFree("vfio-pci") && CommaFree("host=") && CommaFree("sysfsdev=/sys/bus/mdev/devices/")
  {
  }

  lemma {:induction false} TokensReadBack(prefix: string, name: string, tokens: seq<string>, rest: seq<string>)
    requires (prefix == PCI && name == "host=") || (prefix == MIG && name == "sysfsdev=/sys/bus/mdev/devices/")
    requires TokensValid(tokens)
    requires ReadDevice(rest, "vfio-pci", name).None?
    ensures ReadTokens(name, TokenArgs(prefix, tokens) + rest) == Read(Tokens(tokens), rest)
  {
    if tokens == [] {
      assert TokenArgs(prefix, tokens) + rest == rest;
    } else {
      TokensReadBack(prefix, name, tokens[1..], rest);
      if tokens[0] == "" {
        assert [] + Tokens(tokens[1..]) == Tokens(tokens[1..]);
      } else {
        var more, x := TokenArgs(prefix, tokens[1..]), prefix + tokens[0];
        VfioReadBack(prefix, name, tokens[0], more + rest);
        OneToken(name, x, tokens[0], more + rest, Tokens(tokens[1..]), rest);
        Assoc(["-device", x], more, rest);
      }
    }
  }

  const HOST := "host="
  const SYSFS := "sysfsdev=/sys/bus/mdev/devices/"

  /** A list of passthrough devices is empty or starts with the device of some valid token. */
  lemma {:induction false} TokensStart(prefix: string, tokens: seq<string>)
    requires TokensValid(tokens)
    ensures TokenArgs(prefix, tokens) == []
            || exists t, more :: ValidToken(t) && TokenArgs(prefix, tokens) == ["-device", prefix + t] + more
  {
    if tokens == [] {
    } else if tokens[0] == "" {
      TokensStart(prefix, tokens[1..]);
    } else {
      assert TokenArgs(prefix, tokens) == ["-device", prefix + tokens[0]] + TokenArgs(prefix, tokens[1..]);
    }
  }

  /** A vfio device is no vsock device, and a MIG device no PCI one. */
  lemma VfioIsOther(prefix: string, token: string, more: seq<string>)
    requires (prefix == PCI || prefix == MIG) && ValidToken(token)
    ensures ReadDevice(["-device", prefix + token] + more, "vhost-vsock-pci", "guest-cid=").None?
    ensures prefix == MIG ==> ReadDevice(["-device", prefix + token] + more, "vfio-pci", HOST).None?
  {
    VfioText(token);
    ValidTokenCommaFree(token);
    VfioNamesCommaFree();
    var name := if prefix == PCI then HOST else SYSFS;
    DeviceReadBack("vfio-pci", name, token, more);
    assert "vhost-vsock-pci" != "vfio-pci" by { assert "vhost-vsock-pci"[1] != "vfio-pci"[1]; }
    assert prefix == MIG ==> (name + token)[0] != HOST[0];
  }

  lemma SerialReadBack(console: string)
    ensures ReadSerial(SerialArgs(console)) == Some(NonEmpty(console))
    ensures forall driver, name :: ReadDevice(SerialArgs(console), driver, name).None?
  {
    AfterPrefix("file:", console);
    assert console != "" ==> ("file:" + console)[0] != "null"[0];
  }

  lemma DevicesReadBack(b: BootConfig)
    requires TokensValid(b.pci) && TokensValid(b.mig)
    ensures ReadDevices(ArgsFromVsock(b)) ==
            Some(Devices(if b.vsockCid == 0 then None else Some(b.vsockCid), Tokens(b.pci), Tokens(b.mig), NonEmpty(b.consolePath)))
  {
    var serial := SerialArgs(b.consolePath);
    var mig := TokenArgs(MIG, b.mig) + serial;
    var pci := TokenArgs(PCI, b.pci) + mig;
    SerialReadBack(b.consolePath);
    TokensReadBack(MIG, SYSFS, b.mig, serial);
    NothingBefore(MIG, b.mig, serial);
    TokensReadBack(PCI, HOST, b.pci, mig);
    NothingBefore(PCI, b.pci, mig);
    VsockReadBack(b.vsockCid, pci);
  }

  /** The lists of vfio devices hide nothing of the kind read before them. */
  lemma NothingBefore(prefix: string, tokens: seq<string>, rest: seq<string>)
    requires (prefix == PCI || prefix == MIG) && TokensValid(tokens)
    requires ReadDevice(rest, "vhost-vsock-pci", "guest-cid=").None?
    requires prefix == MIG ==> ReadDevice(rest, "vfio-pci", HOST).None?
    ensures ReadDevice(TokenArgs(prefix, tokens) + rest, "vhost-vsock-pci", "guest-cid=").None?
    ensures prefix == MIG ==> ReadDevice(TokenArgs(prefix, tokens) + rest, "vfio-pci", HOST).None?
  {
    TokensStart(prefix, tokens);
    if TokenArgs(prefix, tokens) == [] {
      assert [] + rest == rest;
    } else {
      var t, more :| ValidToken(t) && TokenArgs(prefix, tokens) == ["-device", prefix + t] + more;
      VfioIsOther(prefix, t, more + rest);
      Assoc(["-device", prefix + t], more, rest);
    }
  }

  lemma VsockText(n: string)
    ensures VSOCK + n == "vhost-vsock-pci" + "," + ("guest-cid=" + n)
    ensures CommaFree("vhost-vsock-pci") && CommaFree("guest-cid=")
  {
    assert VSOCK == "vhost-vsock-pci" + "," + "guest-cid=";
  }

  lemma VsockReadBack(cid: nat, rest: seq<string>)
    requires ReadDevice(rest, "vhost-vsock-pci", "guest-cid=").None?
    ensures ReadVsock(VsockArgs(cid) + rest) == Read(if cid == 0 then None else Some(cid), rest)
  {
    if cid == 0 {
      assert VsockArgs(cid) + rest == rest;
    } else {
      var n := Itoa(cid);
      VsockText(n);
      ItoaChars(cid, ',');
      AtoiOfItoa(cid);
      DeviceReadBack("vhost-vsock-pci", "guest-cid=", n, rest);
      assert (["-device", VSOCK + n] + rest)[2..] == rest;
    }
  }

  // ---- The whole argv ----

  /** The argument an argv part starts with is one of these. */
  predicate StartsIn(args: seq<string>, names: seq<string>) {
    args != [] && args[0] in names
  }

  lemma Starts(b: BootConfig)
    requires TokensValid(b.pci) && TokensValid(b.mig)
    ensures StartsIn(ArgsFromVsock(b), ["-device", "-serial"])
    ensures StartsIn(ShareArgs(b.shares, 0) + ArgsFromVsock(b), ["-fsdev", "-device", "-serial"])
    ensures StartsIn(NetArgs(b) + (ShareArgs(b.shares, 0) + ArgsFromVsock(b)), ["-netdev", "-fsdev", "-device", "-serial"])
    ensures StartsIn(ArgsFromDrives(b), ["-drive", "-netdev", "-fsdev", "-device", "-serial"])
  {
    TokensStart(PCI, b.pci);
    TokensStart(MIG, b.mig);
  }

  lemma NamesDiffer()
    ensures forall n :: n in ["-device", "-serial"] ==> n !in ["-fsdev", "-netdev", "-drive", "-append", "-initrd"]
    ensures forall n :: n in ["-fsdev", "-netdev", "-drive"] ==> n != "-append" && n != "-initrd"
    ensures "-fsdev" != "-netdev" && "-fsdev" != "-drive" && "-netdev" != "-drive" && "-append" != "-initrd"
  {
  }

  /** Paths, tags and protocols have no comma. */
  predicate CommaFreeConfig(disks: seq<Disk>, net: Option<seq<Forward>>, shares: seq<Share>) {
    && (forall i :: 0 <= i < |disks| ==> CommaFree(disks[i].path))
    && (net.Some? ==> forall i :: 0 <= i < |net.value| ==> CommaFree(net.value[i].proto))
    && (forall i :: 0 <= i < |shares| ==> CommaFree(shares[i].path) && CommaFree(shares[i].tag))
  }

  predicate CommaFreeBoot(b: BootConfig) {
    CommaFreeConfig(b.disks, if b.netUser then Some(b.fwd) else None, b.shares)
  }

  function StorageOf(b: BootConfig): Storage {
    var m := Normalise(b);
    Storage(m.disks, m.net, m.shares, Devices(m.vsockCid, m.pci, m.mig, m.console))
  }

  /** The four parts of storage, each stopping where the next begins. */
  lemma StorageParts(drives: seq<string>, disks: Read<seq<Disk>>, net: Read<Option<seq<Forward>>>,
                     shares: Read<seq<Share>>, devices: Devices)
    requires ReadDrives(drives, 0) == Some(disks) && ReadNet(disks.rest) == Some(net)
    requires ReadShares(net.rest, 0) == Some(shares) && ReadDevices(shares.rest) == Some(devices)
    ensures ReadStorage(drives) == Some(Storage(disks.value, net.value, shares.value, devices))
  {
  }

  lemma StorageReadBack(b: BootConfig)
    requires TokensValid(b.pci) && TokensValid(b.mig) && CommaFreeBoot(b)
    ensures ReadStorage(ArgsFromDrives(b)) == Some(StorageOf(b))
  {
    var devices := ArgsFromVsock(b);
    var shares := ShareArgs(b.shares, 0) + devices;
    var net := NetArgs(b) + shares;
    PartsStop(b);
    DevicesReadBack(b);
    SharesReadBack(b.shares, 0, devices);
    NetReadBack(b, shares);
    DrivesReadBack(b.disks, 0, net);
    var m := StorageOf(b);
    StorageParts(ArgsFromDrives(b), Read(b.disks, net), Read(m.net, shares), Read(b.shares, devices), m.devices);
  }

  lemma PartsStop(b: BootConfig)
    requires TokensValid(b.pci) && TokensValid(b.mig)
    ensures NotNext(ArgsFromVsock(b), "-fsdev")
    ensures NotNext(ShareArgs(b.shares, 0) + ArgsFromVsock(b), "-netdev")
    ensures NotNext(NetArgs(b) + (ShareArgs(b.shares, 0) + ArgsFromVsock(b)), "-drive")
    ensures NotNext(ArgsFromDrives(b), "-append") && NotNext(ArgsFromDrives(b), "-initrd")
    ensures NotNext(OptionArgs("-append", b.cmdline) + ArgsFromDrives(b), "-initrd")
  {
    Starts(b);
    NamesDiffer();
  }

  lemma OptionReadBack(name: string, value: string, rest: seq<string>)
    requires NotNext(rest, name)
    ensures ReadOption(name, OptionArgs(name, value) + rest) == Read(NonEmpty(value), rest)
  {
    if value == "" {
      assert OptionArgs(name, value) + rest == rest;
    } else {
      assert (OptionArgs(name, value) + rest)[2..] == rest;
    }
  }

  lemma TailReadBack(b: BootConfig)
    requires TokensValid(b.pci) && TokensValid(b.mig) && CommaFreeBoot(b)
    ensures ReadTail(OptionArgs("-initrd", b.initrd) + (OptionArgs("-append", b.cmdline) + ArgsFromDrives(b)))
            == Some(Tail(NonEmpty(b.initrd), NonEmpty(b.cmdline), StorageOf(b)))
  {
    var drives := ArgsFromDrives(b);
    PartsStop(b);
    StorageReadBack(b);
    OptionReadBack("-append", b.cmdline, drives);
    OptionReadBack("-initrd", b.initrd, OptionArgs("-append", b.cmdline) + drives);
  }

  lemma HeadIsHead(b: BootConfig)
    ensures Heads(HeadArgs(b), b)
  {
    AtoiOfItoa(CpusOf(b));
    AtoiOfItoa(MemOf(b));
  }

  /** The fifteen fixed arguments, and what they say. */
  predicate Heads(head: seq<string>, b: BootConfig) {
    && HasHead(head) && |head| == 15
    && head[1] == MachineType(b.arch) && head[3] == AccelOf(b) && head[5] == CpuOf(b)
    && Atoi(head[7]) == Some(CpusOf(b)) && Atoi(head[9]) == Some(MemOf(b)) && head[14] == b.kernel
  }

  lemma HeadThenTail(b: BootConfig, head: seq<string>, tail: seq<string>)
    requires Heads(head, b)
    requires ReadTail(tail) == Some(Tail(NonEmpty(b.initrd), NonEmpty(b.cmdline), StorageOf(b)))
    ensures ReadArgs(head + tail) == Some(Normalise(b))
  {
    assert (head + tail)[15..] == tail;
    HeadKept(head, tail);
  }

  lemma HeadKept(head: seq<string>, tail: seq<string>)
    requires HasHead(head)
    ensures HasHead(head + tail)
    ensures forall i :: 0 <= i < 15 ==> (head + tail)[i] == head[i]
  {
    assert forall i :: 0 <= i < 15 ==> (head + tail)[i] == head[i];
  }

  /** The argv of a buildable, comma-free configuration is read back to it, defaults filled in. */
  lemma ArgsReadBack(b: BootConfig)
    requires Buildable(b) && CommaFreeBoot(b)
    ensures ReadArgs(ArgsOf(b)) == Some(Normalise(b))
  {
    var tail := OptionArgs("-initrd", b.initrd) + (OptionArgs("-append", b.cmdline) + ArgsFromDrives(b));
    TailReadBack(b);
    HeadIsHead(b);
    HeadThenTail(b, HeadArgs(b), tail);
  }

  // ---- What is read is comma-free ----

  lemma {:induction false} DrivesReadCommaFree(args: seq<string>, i: nat)
    requires ReadDrives(args, i).Some?
    ensures forall k :: 0 <= k < |ReadDrives(args, i).value.value| ==> CommaFree(ReadDrives(args, i).value.value[k].path)
    decreases |args|
  {
    if |args| >= 2 && args[0] == "-drive" {
      ReadDriveCommaFree(args[1], i);
      DrivesReadCommaFree(args[2..], i + 1);
    }
  }

  lemma {:induction false} ForwardsReadCommaFree(parts: seq<string>)
    requires AllCommaFree(parts) && ReadForwards(parts).Some?
    ensures forall k :: 0 <= k < |ReadForwards(parts).value| ==> CommaFree(ReadForwards(parts).value[k].proto)
  {
    if parts != [] {
      ReadForwardCommaFree(parts[0]);
      ForwardsReadCommaFree(parts[1..]);
    }
  }

  lemma {:induction false} SharesReadCommaFree(args: seq<string>, i: nat)
    requires ReadShares(args, i).Some?
    ensures forall k :: 0 <= k < |ReadShares(args, i).value.value| ==>
              CommaFree(ReadShares(args, i).value.value[k].path) && CommaFree(ReadShares(args, i).value.value[k].tag)
    decreases |args|
  {
    if |args| >= 4 && args[0] == "-fsdev" {
      ReadShareCommaFree(args[1], args[3], i);
      SharesReadCommaFree(args[4..], i + 1);
    }
  }

  lemma ReadIsCommaFree(args: seq<string>)
    requires ReadArgs(args).Some?
    ensures var m := ReadArgs(args).value; CommaFreeConfig(m.disks, m.net, m.shares)
  {
    var cmdline := ReadOption("-append", ReadOption("-initrd", args[15..]).rest);
    var disks := ReadDrives(cmdline.rest, 0);
    DrivesReadCommaFree(cmdline.rest, 0);
    var net := ReadNet(disks.value.rest);
    if net.value.value.Some? {
      ForwardsReadCommaFree(Split(disks.value.rest[1])[2..]);
    }
    SharesReadCommaFree(net.value.rest, 0);
  }

  lemma {:induction false} NormalisedCommaFree(fwd: seq<Forward>)
    requires forall i :: 0 <= i < |Normalised(fwd)| ==> CommaFree(Normalised(fwd)[i].proto)
    ensures forall i :: 0 <= i < |fwd| ==> CommaFree(fwd[i].proto)
  {
    if fwd != [] {
      assert Normalised(fwd)[0].proto == ProtoOf(fwd[0]);
      assert forall i :: 0 <= i < |Normalised(fwd[1..])| ==> Normalised(fwd[1..])[i] == Normalised(fwd)[i + 1];
      NormalisedCommaFree(fwd[1..]);
      assert forall i :: 0 < i < |fwd| ==> fwd[i] == fwd[1..][i - 1];
    }
  }

  /**
   * The round trip, exactly. A configuration that buildArgs accepts is recovered from its argv, defaults
   * filled in, if and only if its disk paths, share paths and tags and forward protocols have no comma.
   */
  lemma RoundTripExactly(b: BootConfig)
    requires Buildable(b)
    ensures ReadArgs(ArgsOf(b)) == Some(Normalise(b)) <==> CommaFreeBoot(b)
  {
    if CommaFreeBoot(b) {
      ArgsReadBack(b);
    }
    if ReadArgs(ArgsOf(b)) == Some(Normalise(b)) {
      ReadIsCommaFree(ArgsOf(b));
      if b.netUser {
        NormalisedCommaFree(b.fwd);
      }
    }
  }

  // ---- Identifiers, in the argv itself ----

  /** The value of the first option with this name. */
  function ValueOf(name: string, parts: seq<string>): Option<string> {
    if parts == [] then None
    else if After(name, parts[0]).Some? then After(name, parts[0])
    else ValueOf(name, parts[1..])
  }

  /** The arguments of drive i and of share k. */
  function OneDriveArgs(d: Disk, i: nat): seq<string> {
    ["-drive", DriveSpec(d, i)]
  }

  function OneShareArgs(s: Share, k: nat): seq<string> {
    ["-fsdev", FsdevSpec(s, k), "-device", ShareDeviceSpec(s, k)]
  }

  lemma FirstDrive(d: Disk, rest: seq<Disk>, j: nat)
    ensures DriveArgs([d] + rest, j) == OneDriveArgs(d, j) + DriveArgs(rest, j + 1)
  {
    assert ([d] + rest)[1..] == rest;
  }

  lemma FirstShare(s: Share, rest: seq<Share>, j: nat)
    ensures ShareArgs([s] + rest, j) == OneShareArgs(s, j) + ShareArgs(rest, j + 1)
  {
    assert ([s] + rest)[1..] == rest;
  }

  /** The arguments of numbered things, one after the other. */
  function Numbered<T>(xs: seq<T>, i: nat, f: (T, nat) -> seq<string>): seq<string> {
    if xs == [] then [] else f(xs[0], i) + Numbered(xs[1..], i + 1, f)
  }

  lemma {:induction false} NumberedAppend<T>(a: seq<T>, b: seq<T>, i: nat, f: (T, nat) -> seq<string>)
    ensures Numbered(a + b, i, f) == Numbered(a, i, f) + Numbered(b, i + |a|, f)
    decreases |a|
  {
    if a == [] {
      assert a + b == b;
    } else {
      assert (a + b)[1..] == a[1..] + b && (a + b)[0] == a[0];
      NumberedAppend(a[1..], b, i + 1, f);
      Assoc(f(a[0], i), Numbered(a[1..], i + 1, f), Numbered(b, i + |a|, f));
    }
  }

  lemma {:induction false} DrivesNumbered(disks: seq<Disk>, i: nat)
    ensures DriveArgs(disks, i) == Numbered(disks, i, OneDriveArgs)
  {
    if disks == [] {
    } else {
      DrivesNumbered(disks[1..], i + 1);
    }
  }

  lemma {:induction false} SharesNumbered(shares: seq<Share>, i: nat)
    ensures ShareArgs(shares, i) == Numbered(shares, i, OneShareArgs)
  {
    if shares == [] {
    } else {
      SharesNumbered(shares[1..], i + 1);
    }
  }

  lemma DriveArgsAppend(a: seq<Disk>, b: seq<Disk>, i: nat)
    ensures DriveArgs(a + b, i) == DriveArgs(a, i) + DriveArgs(b, i + |a|)
  {
    DrivesNumbered(a + b, i);
    DrivesNumbered(a, i);
    DrivesNumbered(b, i + |a|);
    NumberedAppend(a, b, i, OneDriveArgs);
  }

  lemma ShareArgsAppend(a: seq<Share>, b: seq<Share>, i: nat)
    ensures ShareArgs(a + b, i) == ShareArgs(a, i) + ShareArgs(b, i + |a|)
  {
    SharesNumbered(a + b, i);
    SharesNumbered(a, i);
    SharesNumbered(b, i + |a|);
    NumberedAppend(a, b, i, OneShareArgs);
  }

  lemma DrivesCut(disks: seq<Disk>, k: nat)
    requires k < |disks|
    ensures DriveArgs(disks, 0) == DriveArgs(disks[..k], 0) + (OneDriveArgs(disks[k], k) + DriveArgs(disks[k + 1..], k + 1))
  {
    assert disks == disks[..k] + disks[k..];
    assert disks[k..] == [disks[k]] + disks[k + 1..];
    DriveArgsAppend(disks[..k], disks[k..], 0);
    FirstDrive(disks[k], disks[k + 1..], k);
  }

  lemma SharesCut(shares: seq<Share>, k: nat)
    requires k < |shares|
    ensures ShareArgs(shares, 0) == ShareArgs(shares[..k], 0) + (OneShareArgs(shares[k], k) + ShareArgs(shares[k + 1..], k + 1))
  {
    assert shares == shares[..k] + shares[k..];
    assert shares[k..] == [shares[k]] + shares[k + 1..];
    ShareArgsAppend(shares[..k], shares[k..], 0);
    FirstShare(shares[k], shares[k + 1..], k);
  }

  /** A group of arguments inside a nested list, with what stands before and after it. */
  lemma CutThree(a: seq<string>, b: seq<string>, c: seq<string>, before: seq<string>, group: seq<string>, after: seq<string>, rest: seq<string>)
    ensures a + (b + (c + ((before + (group + after)) + rest))) == (a + (b + (c + before))) + (group + (after + rest))
  {
  }

  lemma CutTwo(a: seq<string>, b: seq<string>, before: seq<string>, group: seq<string>, after: seq<string>, rest: seq<string>)
    ensures a + (b + ((before + (group + after)) + rest)) == (a + (b + before)) + (group + (after + rest))
  {
  }

  lemma RegroupThree(a: seq<string>, b: seq<string>, c: seq<string>, before: seq<string>, rest: seq<string>)
    ensures a + (b + (c + (before + rest))) == (a + (b + (c + before))) + rest
  {
  }

  /** The argv around drive i. */
  lemma AroundDrive(b: BootConfig, i: nat) returns (before: seq<string>, after: seq<string>)
    requires i < |b.disks|
    ensures ArgsOf(b) == before + (OneDriveArgs(b.disks[i], i) + after)
  {
    var rest := NetArgs(b) + (ShareArgs(b.shares, 0) + ArgsFromVsock(b));
    var head, initrd, append := HeadArgs(b), OptionArgs("-initrd", b.initrd), OptionArgs("-append", b.cmdline);
    var d1, d2 := DriveArgs(b.disks[..i], 0), DriveArgs(b.disks[i + 1..], i + 1);
    DrivesCut(b.disks, i);
    CutThree(head, initrd, append, d1, OneDriveArgs(b.disks[i], i), d2, rest);
    before, after := head + (initrd + (append + d1)), d2 + rest;
  }

  /** The argv around share k. */
  lemma AroundShare(b: BootConfig, k: nat) returns (before: seq<string>, after: seq<string>)
    requires k < |b.shares|
    ensures ArgsOf(b) == before + (OneShareArgs(b.shares[k], k) + after)
  {
    var head, initrd, append := HeadArgs(b), OptionArgs("-initrd", b.initrd), OptionArgs("-append", b.cmdline);
    var drives, net, rest := DriveArgs(b.disks, 0), NetArgs(b), ArgsFromVsock(b);
    var s1, s2 := ShareArgs(b.shares[..k], 0), ShareArgs(b.shares[k + 1..], k + 1);
    SharesCut(b.shares, k);
    CutTwo(drives, net, s1, OneShareArgs(b.shares[k], k), s2, rest);
    var inner := drives + (net + s1);
    after := s2 + rest;
    RegroupThree(head, initrd, append, inner, OneShareArgs(b.shares[k], k) + after);
    before := head + (initrd + (append + inner));
  }

  lemma DriveStart(d: Disk, i: nat)
    requires CommaFree(d.path)
    ensures ValueOf("id=", Split(DriveSpec(d, i))) == Some("disk" + Itoa(i))
  {
    DriveSplits(d, i);
    DriveOptionNames(d.path, Itoa(i));
    FourthValue("id=", "disk" + Itoa(i), "file=" + d.path, "if=virtio", "format=raw", if d.readOnly then ["readonly=on"] else []);
  }

  lemma DriveOptionNames(path: string, n: string)
    ensures "id=disk" + n == "id=" + ("disk" + n)
    ensures After("id=", "file=" + path).None? && After("id=", "if=virtio").None? && After("id=", "format=raw").None?
  {
    assert "id=disk" == "id=" + "disk";
    assert ("file=" + path)[0] != "id="[0] && "if=virtio"[1] != "id="[1] && "format=raw"[0] != "id="[0];
  }

  lemma FourthValue(name: string, value: string, a: string, b: string, c: string, last: seq<string>)
    requires After(name, a).None? && After(name, b).None? && After(name, c).None?
    ensures ValueOf(name, [a, b, c, name + value] + last) == Some(value)
  {
    var d := [name + value] + last;
    ValueHit(name, value, last);
    ValueMiss(name, c, d);
    ValueMiss(name, b, [c] + d);
    ValueMiss(name, a, [b] + ([c] + d));
    assert [a] + ([b] + ([c] + d)) == [a, b, c, name + value] + last;
  }

  lemma ValueHit(name: string, value: string, more: seq<string>)
    ensures ValueOf(name, [name + value] + more) == Some(value)
  {
    AfterPrefix(name, value);
  }

  lemma ValueMiss(name: string, part: string, more: seq<string>)
    requires After(name, part).None?
    ensures ValueOf(name, [part] + more) == ValueOf(name, more)
  {
    assert ([part] + more)[1..] == more;
  }

  /** The id of an fsdev comes before its path, so it is read whatever the path is. */
  lemma FsdevStart(s: Share, k: nat)
    ensures ValueOf("id=", Split(FsdevSpec(s, k))) == Some("fs" + Itoa(k))
  {
    var n := Itoa(k);
    var rest := s.path + ",security_model=none" + ReadOnlyTail(s.readOnly);
    ItoaChars(k, ',');
    StartText("local,id=fs", n, ",path=", s.path, ",security_model=none", ReadOnlyTail(s.readOnly));
    FsdevLiterals();
    assert "local,id=fs" == "local" + "," + "id=fs";
    assert "local"[0] != "id="[0];
    QemuOptions.Glue(",path=", "local,id=fs", n, rest, "local", "id=fs", "path=");
    IdThenRest("local", "id=", "fs" + n, "id=fs" + n, "path=" + rest);
  }

  lemma DeviceStart(s: Share, k: nat)
    ensures ValueOf("fsdev=", Split(ShareDeviceSpec(s, k))) == Some("fs" + Itoa(k))
  {
    var n := Itoa(k);
    ItoaChars(k, ',');
    ShareDeviceLiterals();
    assert "virtio-9p-pci"[0] != "fsdev="[0];
    QemuOptions.Glue(",mount_tag=", "virtio-9p-pci,fsdev=fs", n, s.tag, "virtio-9p-pci", "fsdev=fs", "mount_tag=");
    IdThenRest("virtio-9p-pci", "fsdev=", "fs" + n, "fsdev=fs" + n, "mount_tag=" + s.tag);
  }

  lemma StartText(a: string, b: string, c: string, d: string, e: string, f: string)
    ensures a + b + c + d + e + f == a + b + c + (d + e + f)
  {
  }

  lemma ListTwo(a: string, b: string, rest: seq<string>)
    ensures [a, b] + rest == [a] + ([b] + rest)
  {
  }

  lemma IdThenRest(driver: string, name: string, value: string, option: string, rest: string)
    requires CommaFree(driver) && CommaFree(option) && option == name + value
    requires After(name, driver).None?
    ensures ValueOf(name, Split(driver + "," + (option + "," + rest))) == Some(value)
  {
    SplitTwo(driver, option, rest);
    ListTwo(driver, option, Split(rest));
    ValueHit(name, value, Split(rest));
    ValueMiss(name, driver, [option] + Split(rest));
  }

  /** Each 9p device of the argv names the fsdev just before it, whatever the paths and tags. */
  lemma ShareWiring(b: BootConfig, k: nat) returns (before: seq<string>, fsdev: string, device: string, after: seq<string>)
    requires k < |b.shares|
    ensures ArgsOf(b) == before + (["-fsdev", fsdev, "-device", device] + after)
    ensures ValueOf("id=", Split(fsdev)) == Some("fs" + Itoa(k)) == ValueOf("fsdev=", Split(device))
  {
    before, after := AroundShare(b, k);
    fsdev, device := FsdevSpec(b.shares[k], k), ShareDeviceSpec(b.shares[k], k);
    FsdevStart(b.shares[k], k);
    DeviceStart(b.shares[k], k);
  }

  /** The id= option of an argument. */
  function IdIn(arg: string): Option<string> {
    ValueOf("id=", Split(arg))
  }

  /** The fsdev arguments of an argv have pairwise distinct ids. */
  lemma FsdevIdsDistinct(b: BootConfig, i: nat, j: nat)
    requires i < |b.shares| && j < |b.shares| && i != j
    ensures FsdevSpec(b.shares[i], i) in ArgsOf(b) && FsdevSpec(b.shares[j], j) in ArgsOf(b)
    ensures IdIn(FsdevSpec(b.shares[i], i)) != IdIn(FsdevSpec(b.shares[j], j))
  {
    FsdevInArgs(b, i);
    FsdevInArgs(b, j);
    NumberedDiffer("fs", i, j);
    FsdevStart(b.shares[i], i);
    FsdevStart(b.shares[j], j);
  }

  /** So have the drive arguments whose paths have no comma. */
  lemma DriveIdsDistinct(b: BootConfig, i: nat, j: nat)
    requires i < |b.disks| && j < |b.disks| && i != j
    requires CommaFree(b.disks[i].path) && CommaFree(b.disks[j].path)
    ensures DriveSpec(b.disks[i], i) in ArgsOf(b) && DriveSpec(b.disks[j], j) in ArgsOf(b)
    ensures IdIn(DriveSpec(b.disks[i], i)) != IdIn(DriveSpec(b.disks[j], j))
  {
    DriveInArgs(b, i);
    DriveInArgs(b, j);
    NumberedDiffer("disk", i, j);
    DriveStart(b.disks[i], i);
    DriveStart(b.disks[j], j);
  }

  lemma FsdevInArgs(b: BootConfig, k: nat)
    requires k < |b.shares|
    ensures FsdevSpec(b.shares[k], k) in ArgsOf(b)
  {
    var before, after := AroundShare(b, k);
    SecondInMiddle(before, "-fsdev", FsdevSpec(b.shares[k], k), ["-device", ShareDeviceSpec(b.shares[k], k)], after);
  }

  lemma DriveInArgs(b: BootConfig, i: nat)
    requires i < |b.disks|
    ensures DriveSpec(b.disks[i], i) in ArgsOf(b)
  {
    var before, after := AroundDrive(b, i);
    SecondInMiddle(before, "-drive", DriveSpec(b.disks[i], i), [], after);
  }

  lemma SecondInMiddle(before: seq<string>, name: string, spec: string, more: seq<string>, after: seq<string>)
    ensures spec in before + (([name, spec] + more) + after)
  {
    var args := before + (([name, spec] + more) + after);
    assert args[|before| + 1] == spec;
  }

  lemma NumberedDiffer(prefix: string, i: nat, j: nat)
    requires i != j
    ensures prefix + Itoa(i) != prefix + Itoa(j)
  {
    if Itoa(i) == Itoa(j) {
      ItoaInjective(i, j);
    }
    assert Itoa(i) == (prefix + Itoa(i))[|prefix|..] && Itoa(j) == (prefix + Itoa(j))[|prefix|..];
  }

  /** The configuration read back: every forward in order with "tcp" for no protocol, and every token that is not empty. */
  lemma {:induction false} NormalisedIs(fwd: seq<Forward>, i: nat)
    requires i < |fwd|
    ensures |Normalised(fwd)| == |fwd|
    ensures Normalised(fwd)[i] == Forward(if fwd[i].proto == "" then "tcp" else fwd[i].proto, fwd[i].hostPort, fwd[i].guestPort)
  {
    if |fwd| > 1 {
      NormalisedIs(fwd[1..], if i == 0 then 0 else i - 1);
    }
  }

  lemma {:induction false} TokensAppend(xs: seq<string>, ys: seq<string>)
    ensures Tokens(xs + ys) == Tokens(xs) + Tokens(ys)
    ensures forall t :: Tokens([t]) == if t == "" then [] else [t]
  {
    forall t ensures Tokens([t]) == if t == "" then [] else [t] {
      assert [t][1..] == [];
    }
    if xs == [] {
      assert xs + ys == ys;
    } else {
      assert (xs + ys)[1..] == xs[1..] + ys;
      TokensAppend(xs[1..], ys);
    }
  }
}
