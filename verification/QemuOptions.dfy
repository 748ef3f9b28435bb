/** QEMU's comma-separated option strings, as builtin/args.go prints them, split at every comma. */
module QemuOptions {
  import opened Wrappers
  import opened Text
  import opened Decimal

  predicate CommaFree(s: string) {
    ',' !in s
  }

  predicate AllCommaFree(parts: seq<string>) {
    forall i :: 0 <= i < |parts| ==> CommaFree(parts[i])
  }

  /** The parts between commas. */
  function Split(s: string): (parts: seq<string>)
    ensures parts != [] && AllCommaFree(parts)
  {
    var i := IndexOf(s, ',');
    if i < 0 then [s] else [s[..i]] + Split(s[i + 1..])
  }

  /** The part after a prefix, if the string has it. */
  function After(prefix: string, s: string): Option<string> {
    if prefix <= s then Some(s[|prefix|..]) else None
  }

  lemma AfterPrefix(prefix: string, s: string)
    ensures After(prefix, prefix + s) == Some(s)
  {
    assert (prefix + s)[|prefix|..] == s;
  }

  // ---- One option string each ----

  datatype Disk = Disk(path: string, readOnly: bool)
  datatype Share = Share(tag: string, path: string, readOnly: bool)
  datatype Forward = Forward(proto: string, hostPort: int, guestPort: int)

  function DriveSpec(d: Disk, i: nat): string {
    "file=" + d.path + ",if=virtio,format=raw,id=disk" + Itoa(i) + (if d.readOnly then ",readonly=on" else "")
  }

  function ReadDrive(spec: string, i: nat): Option<Disk> {
    var f := Split(spec);
    if (|f| == 4 || (|f| == 5 && f[4] == "readonly=on"))
       && After("file=", f[0]).Some? && f[1] == "if=virtio" && f[2] == "format=raw" && f[3] == "id=disk" + Itoa(i)
    then Some(Disk(After("file=", f[0]).value, |f| == 5))
    else None
  }

  function FsdevSpec(s: Share, i: nat): string {
    "local,id=fs" + Itoa(i) + ",path=" + s.path + ",security_model=none" + (if s.readOnly then ",readonly=on" else "")
  }

  function ShareDeviceSpec(s: Share, i: nat): string {
    "virtio-9p-pci,fsdev=fs" + Itoa(i) + ",mount_tag=" + s.tag
  }

  /** An fsdev and the device after it, which must name it. */
  function ReadShare(fsdev: string, device: string, i: nat): Option<Share> {
    var f, d := Split(fsdev), Split(device);
    if (|f| == 4 || (|f| == 5 && f[4] == "readonly=on"))
       && f[0] == "local" && f[1] == "id=fs" + Itoa(i) && After("path=", f[2]).Some? && f[3] == "security_model=none"
       && |d| == 3 && d[0] == "virtio-9p-pci" && d[1] == "fsdev=fs" + Itoa(i) && After("mount_tag=", d[2]).Some?
    then Some(Share(After("mount_tag=", d[2]).value, After("path=", f[2]).value, |f| == 5))
    else None
  }

  function ProtoOf(f: Forward): string {
    if f.proto == "" then "tcp" else f.proto
  }

  function ForwardPart(f: Forward): string {
    "hostfwd=" + ProtoOf(f) + "::" + Itoa(f.hostPort) + "-:" + Itoa(f.guestPort)
  }

  function ReadForward(part: string): Option<Forward> {
    var body := After("hostfwd=", part);
    if body.None? then None else ReadForwardBody(body.value)
  }

  /** Read from the right: the guest port, the host port, then the protocol. */
  function ReadForwardBody(body: string): Option<Forward> {
    var c := LastIndexOf(body, ':');
    if c < 1 || body[c - 1] != '-' then None
    else ReadHostSide(body[..c - 1], Atoi(body[c + 1..]))
  }

  function ReadHostSide(left: string, guest: Option<int>): Option<Forward> {
    var p := LastIndexOf(left, ':');
    if p < 1 || left[p - 1] != ':' then None else
    var host := Atoi(left[p + 1..]);
    if guest.None? || host.None? then None
    else Some(Forward(left[..p - 1], host.value, guest.value))
  }

  // ---- Each is read back ----

  lemma SplitOne(a: string)
    requires CommaFree(a)
    ensures Split(a) == [a]
  {
    assert IndexOf(a, ',') < 0;
  }

  lemma SplitCons(a: string, rest: string)
    requires CommaFree(a)
    ensures Split(a + "," + rest) == [a] + Split(rest)
  {
    IndexOfSplit(a, ',', rest);
    var s := a + [','] + rest;
    assert s[..|a|] == a && s[|a| + 1..] == rest;
  }

  lemma SplitTwo(a: string, b: string, rest: string)
    requires CommaFree(a) && CommaFree(b)
    ensures Split(a + "," + (b + "," + rest)) == [a, b] + Split(rest)
  {
    SplitCons(a, b + "," + rest);
    SplitCons(b, rest);
    assert [a] + ([b] + Split(rest)) == [a, b] + Split(rest);
  }

  /** The last option, and one more when the tail brings one. */
  lemma SplitLast(d: string, tail: string)
    requires CommaFree(d)
    requires tail == "" || (tail[0] == ',' && CommaFree(tail[1..]))
    ensures Split(d + tail) == [d] + (if tail == "" then [] else [tail[1..]])
  {
    if tail == "" {
      assert d + tail == d;
      SplitOne(d);
    } else {
      assert d + tail == d + "," + tail[1..];
      SplitCons(d, tail[1..]);
      SplitOne(tail[1..]);
    }
  }

  /** Four options, and a fifth when the tail brings one. */
  lemma SplitFour(a: string, b: string, c: string, d: string, tail: string)
    requires CommaFree(a) && CommaFree(b) && CommaFree(c) && CommaFree(d)
    requires tail == "" || (tail[0] == ',' && CommaFree(tail[1..]))
    ensures Split(a + "," + (b + "," + (c + "," + (d + tail)))) == [a, b, c, d] + (if tail == "" then [] else [tail[1..]])
  {
    SplitTwo(a, b, c + "," + (d + tail));
    SplitCons(c, d + tail);
    SplitLast(d, tail);
    ListFour(a, b, c, d, if tail == "" then [] else [tail[1..]]);
  }

  lemma ListFour(a: string, b: string, c: string, d: string, last: seq<string>)
    ensures [a, b] + ([c] + ([d] + last)) == [a, b, c, d] + last
  {
  }

  function ReadOnlyTail(readOnly: bool): string {
    if readOnly then ",readonly=on" else ""
  }

  /** The same text, grouped at the commas. */
  lemma Regroup(x: string, y: string, b: string, c: string, k: string, n: string, tail: string)
    requires y == "," + b + "," + c + "," + k
    ensures x + y + n + tail == x + "," + (b + "," + (c + "," + (k + n + tail)))
  {
  }

  lemma DriveText()
    ensures ",if=virtio,format=raw,id=disk" == "," + "if=virtio" + "," + "format=raw" + "," + "id=disk"
    ensures CommaFree("if=virtio") && CommaFree("format=raw")
  {
  }

  lemma DriveSplits(d: Disk, i: nat)
    requires CommaFree(d.path)
    ensures Split(DriveSpec(d, i)) ==
            ["file=" + d.path, "if=virtio", "format=raw", "id=disk" + Itoa(i)] + (if d.readOnly then ["readonly=on"] else [])
  {
    ItoaChars(i, ',');
    var tail := ReadOnlyTail(d.readOnly);
    assert tail != "" ==> tail[1..] == "readonly=on";
    DriveText();
    Regroup("file=" + d.path, ",if=virtio,format=raw,id=disk", "if=virtio", "format=raw", "id=disk", Itoa(i), tail);
    SplitFour("file=" + d.path, "if=virtio", "format=raw", "id=disk" + Itoa(i), tail);
  }

  lemma DriveReadBack(d: Disk, i: nat)
    requires CommaFree(d.path)
    ensures ReadDrive(DriveSpec(d, i), i) == Some(d)
  {
    DriveSplits(d, i);
    AfterPrefix("file=", d.path);
  }

  lemma RegroupFsdev(x: string, n: string, p: string, path: string, m: string, tail: string)
    ensures "local," + x + n + "," + p + path + "," + m + tail ==
            "local" + "," + (x + n + "," + (p + path + "," + (m + tail)))
  {
  }

  lemma FsdevSplits(s: Share, i: nat)
    requires CommaFree(s.path)
    ensures Split(FsdevSpec(s, i)) ==
            ["local", "id=fs" + Itoa(i), "path=" + s.path, "security_model=none"] + (if s.readOnly then ["readonly=on"] else [])
  {
    ItoaChars(i, ',');
    var tail := ReadOnlyTail(s.readOnly);
    assert tail != "" ==> tail[1..] == "readonly=on";
    RegroupFsdev("id=fs", Itoa(i), "path=", s.path, "security_model=none", tail);
    FsdevText(s, i);
    SplitFour("local", "id=fs" + Itoa(i), "path=" + s.path, "security_model=none", tail);
  }

  lemma FsdevText(s: Share, i: nat)
    ensures FsdevSpec(s, i) ==
            "local," + "id=fs" + Itoa(i) + "," + "path=" + s.path + "," + "security_model=none" + ReadOnlyTail(s.readOnly)
  {
    FsdevLiterals();
    Append3("local," + "id=fs" + Itoa(i), ",", "path=", s.path);
    Append3("local," + "id=fs" + Itoa(i) + "," + "path=" + s.path, ",", "security_model=none", ReadOnlyTail(s.readOnly));
  }

  lemma FsdevLiterals()
    ensures "local,id=fs" == "local," + "id=fs"
    ensures ",path=" == "," + "path="
    ensures ",security_model=none" == "," + "security_model=none"
  {
  }

  lemma Append3(a: string, b: string, c: string, d: string)
    ensures a + (b + c) + d == a + b + c + d
  {
  }

  lemma SplitThree(a: string, b: string, c: string)
    requires CommaFree(a) && CommaFree(b) && CommaFree(c)
    ensures Split(a + "," + (b + "," + c)) == [a, b, c]
  {
    SplitTwo(a, b, c);
    SplitOne(c);
    assert [a, b] + [c] == [a, b, c];
  }

  lemma ShareDeviceSplits(s: Share, i: nat)
    requires CommaFree(s.tag)
    ensures Split(ShareDeviceSpec(s, i)) == ["virtio-9p-pci", "fsdev=fs" + Itoa(i), "mount_tag=" + s.tag]
  {
    ItoaChars(i, ',');
    ShareDeviceLiterals();
    Glue(",mount_tag=", "virtio-9p-pci,fsdev=fs", Itoa(i), s.tag, "virtio-9p-pci", "fsdev=fs", "mount_tag=");
    SplitThree("virtio-9p-pci", "fsdev=fs" + Itoa(i), "mount_tag=" + s.tag);
  }

  lemma ShareDeviceLiterals()
    ensures "virtio-9p-pci,fsdev=fs" == "virtio-9p-pci" + "," + "fsdev=fs"
    ensures ",mount_tag=" == "," + "mount_tag="
    ensures CommaFree("virtio-9p-pci") && CommaFree("fsdev=fs") && CommaFree("mount_tag=")
  {
  }

  lemma Glue(y: string, x: string, n: string, tag: string, a: string, b: string, c: string)
    requires x == a + "," + b && y == "," + c
    ensures x + n + y + tag == a + "," + (b + n + "," + (c + tag))
  {
  }

  lemma ShareReadBack(s: Share, i: nat)
    requires CommaFree(s.path) && CommaFree(s.tag)
    ensures ReadShare(FsdevSpec(s, i), ShareDeviceSpec(s, i), i) == Some(s)
  {
    FsdevSplits(s, i);
    ShareDeviceSplits(s, i);
    ShareFromParts(FsdevSpec(s, i), ShareDeviceSpec(s, i), s, i);
  }

  lemma ShareFromParts(fsdev: string, device: string, s: Share, i: nat)
    requires Split(fsdev) ==
             ["local", "id=fs" + Itoa(i), "path=" + s.path, "security_model=none"] + (if s.readOnly then ["readonly=on"] else [])
    requires Split(device) == ["virtio-9p-pci", "fsdev=fs" + Itoa(i), "mount_tag=" + s.tag]
    ensures ReadShare(fsdev, device, i) == Some(s)
  {
    AfterPrefix("path=", s.path);
    AfterPrefix("mount_tag=", s.tag);
  }

  lemma CutGuest(left: string, g: string)
    requires ':' !in g
    ensures ReadForwardBody(left + "-:" + g) == ReadHostSide(left, Atoi(g))
  {
    var body := left + "-:" + g;
    assert body == (left + "-") + [':'] + g;
    LastIndexOfSplit(left + "-", ':', g);
    assert body[|left|] == '-' && body[..|left|] == left && body[|left| + 2..] == g;
  }

  lemma CutHost(proto: string, h: string, host: int, guest: int)
    requires ':' !in h && Atoi(h) == Some(host)
    ensures ReadHostSide(proto + "::" + h, Some(guest)) == Some(Forward(proto, host, guest))
  {
    var left := proto + "::" + h;
    assert left == (proto + ":") + [':'] + h;
    LastIndexOfSplit(proto + ":", ':', h);
    assert left[|proto|] == ':' && left[|proto| + 2..] == h && left[..|proto|] == proto;
  }

  lemma ForwardText(a: string, b: string, c: string, d: string, e: string, f: string)
    ensures a + b + c + d + e + f == a + (b + c + d + e + f)
  {
  }

  /** Any protocol but the empty one is read back, and ports of either sign. */
  lemma ForwardReadBack(f: Forward)
    ensures ReadForward(ForwardPart(f)) == Some(f.(proto := ProtoOf(f)))
  {
    var proto, h, g := ProtoOf(f), Itoa(f.hostPort), Itoa(f.guestPort);
    var body := proto + "::" + h + "-:" + g;
    ForwardText("hostfwd=", proto, "::", h, "-:", g);
    AfterPrefix("hostfwd=", body);
    ItoaChars(f.hostPort, ':');
    ItoaChars(f.guestPort, ':');
    AtoiOfItoa(f.hostPort);
    AtoiOfItoa(f.guestPort);
    CutGuest(proto + "::" + h, g);
    CutHost(proto, h, f.hostPort, f.guestPort);
  }

  // ---- What is read never has a comma in it ----

  lemma ReadDriveCommaFree(spec: string, i: nat)
    requires ReadDrive(spec, i).Some?
    ensures CommaFree(ReadDrive(spec, i).value.path)
  {
    var f := Split(spec);
    assert CommaFree(f[0]);
  }

  lemma ReadShareCommaFree(fsdev: string, device: string, i: nat)
    requires ReadShare(fsdev, device, i).Some?
    ensures CommaFree(ReadShare(fsdev, device, i).value.path) && CommaFree(ReadShare(fsdev, device, i).value.tag)
  {
    assert CommaFree(Split(fsdev)[2]) && CommaFree(Split(device)[2]);
  }

  lemma ReadForwardCommaFree(part: string)
    requires CommaFree(part) && ReadForward(part).Some?
    ensures CommaFree(ReadForward(part).value.proto)
  {
  }
}
