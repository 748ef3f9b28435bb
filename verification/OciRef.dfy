/** References to OCI images: oci://host[:port]/repo[/sub...]:tag (builtin/govolume.go, builtin/govolume_oci.go). */
module OciRef {
  import opened Wrappers
  import opened Text

  const SCHEME := "oci://"

  datatype RefError =
    | EmptyTarget
    | NotAnOciUrl
    | MissingRepository
    | MissingTag
    | EmptyPart
    | EmptyNewTag

  /** What a reference resolves to: a registry, a repository in it and a tag. */
  datatype Target = Target(scheme: string, host: string, repo: string, tag: string) {
    /** The registry URL, for hosts that URL rendering leaves as they are. */
    function BaseUrl(): string { scheme + "://" + host }
  }

  /** Loopback or a *.local mDNS name. */
  predicate LocalName(name: string) {
    name == "127.0.0.1" || name == "::1" || name == "localhost" || HasSuffix(name, ".local")
  }

  /** The host up to its last ':', meant to drop a port. */
  function BeforeLastColon(host: string): string {
    var i := LastIndexOf(host, ':');
    if i >= 0 then host[..i] else host
  }

  /** hostIsLocal. */
  predicate HostIsLocal(host: string) {
    LocalName(BeforeLastColon(host))
  }

  function SchemeFor(host: string): string {
    if HostIsLocal(host) then "http" else "https"
  }

  /** parseOCITarget. */
  function Parse(target: string): Result<Target, RefError> {
    if !(SCHEME <= target) then Err(NotAnOciUrl) else ParseRest(target[|SCHEME|..])
  }

  /** The part after the scheme: host up to the first '/', tag after the last ':' that follows it. */
  function ParseRest(rest: string): Result<Target, RefError> {
    var slash := IndexOf(rest, '/');
    if slash < 0 then Err(MissingRepository) else
    var host := rest[..slash];
    var repoAndTag := rest[slash + 1..];
    var colon := LastIndexOf(repoAndTag, ':');
    if colon < 0 then Err(MissingTag) else
    var repo := repoAndTag[..colon];
    var tag := repoAndTag[colon + 1..];
    if host == "" || repo == "" || tag == "" then Err(EmptyPart)
    else Ok(Target(SchemeFor(host), host, repo, tag))
  }

  /** registryFor: an empty target is refused before it is parsed. */
  function Resolve(target: string): Result<Target, RefError> {
    if target == "" then Err(EmptyTarget) else Parse(target)
  }

  /** The printed form, and the parts it may be printed from. */
  function Print(host: string, repo: string, tag: string): string {
    SCHEME + PrintRest(host, repo, tag)
  }

  function PrintRest(host: string, repo: string, tag: string): string {
    host + "/" + (repo + ":" + tag)
  }

  predicate Printable(host: string, repo: string, tag: string) {
    && host != "" && '/' !in host
    && repo != ""
    && tag != "" && ':' !in tag
  }

  lemma ParseRestOfPrint(host: string, repo: string, tag: string)
    requires Printable(host, repo, tag)
    ensures ParseRest(PrintRest(host, repo, tag)) == Ok(Target(SchemeFor(host), host, repo, tag))
  {
    var repoAndTag := repo + ":" + tag;
    var rest := PrintRest(host, repo, tag);
    assert rest == host + ['/'] + repoAndTag;
    IndexOfSplit(host, '/', repoAndTag);
    assert rest[..|host|] == host && rest[|host| + 1..] == repoAndTag;
    LastIndexOfSplit(repo, ':', tag);
    assert repoAndTag[..|repo|] == repo && repoAndTag[|repo| + 1..] == tag;
  }

  lemma PrintOfParseRest(rest: string)
    requires ParseRest(rest).Ok?
    ensures var t := ParseRest(rest).value;
            && Printable(t.host, t.repo, t.tag)
            && t.scheme == SchemeFor(t.host)
            && rest == PrintRest(t.host, t.repo, t.tag)
  {
    var slash := IndexOf(rest, '/');
    var repoAndTag := rest[slash + 1..];
    var colon := LastIndexOf(repoAndTag, ':');
    CutAt(rest, slash);
    CutAt(repoAndTag, colon);
    assert '/' !in rest[..slash] && ':' !in repoAndTag[colon + 1..];
  }

  lemma CutAt(s: string, i: nat)
    requires i < |s|
    ensures s == s[..i] + ([s[i]] + s[i + 1..]) && s == s[..i] + [s[i]] + s[i + 1..]
  {
  }

  /** Parsing undoes printing: it finds the printed parts and no others. */
  lemma ParsePrint(host: string, repo: string, tag: string)
    requires Printable(host, repo, tag)
    ensures Parse(Print(host, repo, tag)) == Ok(Target(SchemeFor(host), host, repo, tag))
  {
    ParseRestOfPrint(host, repo, tag);
    AfterScheme(PrintRest(host, repo, tag));
  }

  lemma AfterScheme(rest: string)
    ensures SCHEME <= SCHEME + rest && (SCHEME + rest)[|SCHEME|..] == rest
  {
  }

  /** Printing undoes parsing, and every parsed target has printable parts. */
  lemma PrintParse(target: string)
    requires Parse(target).Ok?
    ensures var t := Parse(target).value;
            && Printable(t.host, t.repo, t.tag)
            && t.scheme == SchemeFor(t.host)
            && target == Print(t.host, t.repo, t.tag)
  {
    PrintOfParseRest(target[|SCHEME|..]);
  }

  /** Parsing succeeds on the printed references and on nothing else. */
  lemma ParseSucceedsExactly(target: string)
    ensures Parse(target).Ok? <==>
            exists host, repo, tag :: Printable(host, repo, tag) && target == Print(host, repo, tag)
  {
    if Parse(target).Ok? {
      PrintParse(target);
    }
    if host, repo, tag :| Printable(host, repo, tag) && target == Print(host, repo, tag) {
      ParsePrint(host, repo, tag);
    }
  }

  /** A registry URL determines the host and the scheme in front of it. */
  lemma BaseUrlInjective(s1: string, h1: string, s2: string, h2: string)
    requires (s1 == "http" || s1 == "https") && (s2 == "http" || s2 == "https")
    requires s1 + "://" + h1 == s2 + "://" + h2
    ensures s1 == s2 && h1 == h2
  {
    var u1, u2 := s1 + "://" + h1, s2 + "://" + h2;
    assert u1[4] == if s1 == "http" then ':' else 's';
    assert u2[4] == if s2 == "http" then ':' else 's';
    assert u1[|s1| + 3..] == h1 && u2[|s2| + 3..] == h2;
  }

  /** Distinct references never reach the same image. */
  lemma ParseInjective(s1: string, s2: string)
    requires Parse(s1).Ok? && Parse(s2).Ok?
    requires var t1, t2 := Parse(s1).value, Parse(s2).value;
             t1.BaseUrl() == t2.BaseUrl() && t1.repo == t2.repo && t1.tag == t2.tag
    ensures s1 == s2
  {
    PrintParse(s1);
    PrintParse(s2);
    var t1, t2 := Parse(s1).value, Parse(s2).value;
    BaseUrlInjective(t1.scheme, t1.host, t2.scheme, t2.host);
  }

  /** http for a loopback name or one that ends in ".local", https for any other. */
  predicate OverHttp(name: string) {
    name == "127.0.0.1" || name == "::1" || name == "localhost" || (|name| >= 6 && name[|name| - 6..] == ".local")
  }

  lemma SchemeExactly(host: string, name: string)
    requires BeforeLastColon(host) == name
    ensures SchemeFor(host) == if OverHttp(name) then "http" else "https"
  {
    assert |".local"| == 6;
  }

  lemma UrlText(t: Target)
    ensures t.BaseUrl() == t.scheme + ("://" + t.host)
    ensures t.scheme == "http" ==> t.BaseUrl() == "http://" + t.host
    ensures t.scheme == "https" ==> t.BaseUrl() == "https://" + t.host
  {
    assert "http" + "://" == "http://" && "https" + "://" == "https://";
  }

  lemma NoPortToDrop(name: string)
    requires ':' !in name
    ensures BeforeLastColon(name) == name
  {
  }

  /**
   * The registry a reference oci://host/repo:tag is read from. If the host is written as a name, or as a name, a ':'
   * and a port, it is reached over http exactly if the name is "127.0.0.1", "::1", "localhost" or ends in ".local",
   * and over https otherwise.
   */
  lemma RegistryUrlExactly(target: string, host: string, name: string, port: Option<string>, repo: string, tag: string)
    requires target == "oci://" + (host + "/" + (repo + ":" + tag))
    requires host != "" && '/' !in host && repo != "" && tag != "" && ':' !in tag
    requires if port.Some? then host == name + ":" + port.value && ':' !in port.value else host == name && ':' !in name
    ensures Resolve(target).Ok?
    ensures var t := Resolve(target).value;
            && t.host == host && t.repo == repo && t.tag == tag
            && t.BaseUrl() ==
               (if name == "127.0.0.1" || name == "::1" || name == "localhost" || (|name| >= 6 && name[|name| - 6..] == ".local")
                then "http://" + host else "https://" + host)
  {
    ResolvePrinted(target, host, repo, tag);
    if port.Some? {
      PortIsDropped(name, port.value);
    } else {
      NoPortToDrop(name);
    }
    SchemeExactly(host, name);
    SchemesDiffer();
    UrlText(Resolve(target).value);
  }

  lemma SchemesDiffer()
    ensures "http" != "https"
  {
    assert |"http"| != |"https"|;
  }

  lemma ResolvePrinted(target: string, host: string, repo: string, tag: string)
    requires target == "oci://" + (host + "/" + (repo + ":" + tag)) && Printable(host, repo, tag)
    ensures Resolve(target) == Ok(Target(SchemeFor(host), host, repo, tag))
  {
    ParsePrint(host, repo, tag);
  }

  /** Which part of a reference is at fault: the scheme, the repository or the tag. */
  lemma ParseErrorsExactly(target: string, host: string, path: string)
    ensures !("oci://" <= target) ==> Parse(target) == Err(NotAnOciUrl)
    ensures '/' !in host ==> Parse(SCHEME + host) == Err(MissingRepository)
    ensures '/' !in host && ':' !in path ==> Parse(SCHEME + (host + ['/'] + path)) == Err(MissingTag)
  {
    AfterScheme(host);
    AfterScheme(host + ['/'] + path);
    if '/' !in host {
      assert IndexOf(host, '/') < 0;
      IndexOfSplit(host, '/', path);
      assert (host + ['/'] + path)[|host| + 1..] == path;
    }
  }

  /** The empty reference is refused; any other is what it parses to. */
  lemma ResolveIsParse(target: string)
    ensures Resolve(target) == if target == "" then Err(EmptyTarget) else Parse(target)
  {
  }

  /** Cutting at the last ':' drops a port, whatever name is before it. */
  lemma PortIsDropped(name: string, port: string)
    requires ':' !in port
    ensures BeforeLastColon(name + ":" + port) == name
  {
    LastIndexOfSplit(name, ':', port);
    assert (name + ":" + port)[..|name|] == name;
  }

  /** A port never changes whether a named host is local. */
  lemma PortIsIgnored(name: string, port: string)
    requires ':' !in name && ':' !in port
    ensures HostIsLocal(name + ":" + port) == HostIsLocal(name)
  {
    PortIsDropped(name, port);
  }

  /** The ways to write a host. A name may also be a bare IPv6 literal; the brackets hold one. */
  datatype Host =
    | Named(name: string)
    | NamedPort(name: string, port: string)
    | Bracketed(literal: string)
    | BracketedPort(literal: string, port: string)
  {
    function Text(): string {
      match this
      case Named(name) => name
      case NamedPort(name, port) => name + ":" + port
      case Bracketed(a) => "[" + a + "]"
      case BracketedPort(a, port) => "[" + a + "]" + ":" + port
    }

    /** Whether it is loopback or a *.local name. */
    predicate Local() {
      match this
      case Named(name) => LocalName(name)
      case NamedPort(name, _) => LocalName(name)
      case Bracketed(a) => a == "::1"
      case BracketedPort(a, _) => a == "::1"
    }
  }

  /**
   * A bare name is judged right if it has no ':'. One that has is cut: it must not be the loopback, and what is
   * left must be local exactly if the whole ends in ".local". Literals in brackets must not be the loopback.
   */
  predicate JudgedRight(h: Host) {
    match h
    case Named(name) =>
      ':' !in name || (name != "::1" && (LocalName(BeforeLastColon(name)) <==> HasSuffix(name, ".local")))
    case NamedPort(_, _) => true
    case Bracketed(a) => a != "::1" && !(':' in a && HasSuffix(BeforeLastColon(a), ".local"))
    case BracketedPort(a, _) => a != "::1"
  }

  /**
   * For which hosts hostIsLocal is right: every name with a port; every bare name without a ':', and one with a ':'
   * exactly if it is not "::1" and is local once cut just when it ends in ".local"; a bracketed literal, with or
   * without a port, exactly if it is not the loopback (and, without a port, does not read as *.local once cut).
   */
  lemma HostIsLocalExactly(h: Host)
    requires h.NamedPort? || h.BracketedPort? ==> ':' !in h.port
    ensures HostIsLocal(h.Text()) == h.Local() <==> JudgedRight(h)
  {
    match h
    case Named(name) => NamedExactly(name);
    case NamedPort(name, port) => PortIsDropped(name, port);
    case Bracketed(a) => BracketedExactly(a);
    case BracketedPort(a, port) => BracketedPortVerdict(a, port);
  }

  lemma NamedExactly(name: string)
    ensures HostIsLocal(name) == LocalName(name) <==> JudgedRight(Named(name))
  {
    BracketedVerdict("");
    NoColonInNames();
    assert ':' in name ==> (LocalName(name) <==> name == "::1" || HasSuffix(name, ".local"));
  }

  lemma NoColonInNames()
    ensures ':' !in "127.0.0.1" && ':' !in "localhost" && !LocalName(":")
  {
    assert |":"| < |".local"|;
  }

  lemma BracketedPortVerdict(a: string, port: string)
    requires ':' !in port
    ensures !HostIsLocal("[" + a + "]" + ":" + port)
  {
    BracketedIsNoName(a, "[" + a + "]");
    PortIsDropped("[" + a + "]", port);
  }

  lemma BracketedIsNoName(a: string, name: string)
    requires name == "[" + a + "]"
    ensures !LocalName(name)
  {
    var x := a + "]";
    assert x[|x| - 1] == ']';
    BracketIsNoName(x);
    assert name == "[" + x;
  }

  lemma BracketedExactly(a: string)
    ensures HostIsLocal("[" + a + "]") == (a == "::1") <==> a != "::1" && !(':' in a && HasSuffix(BeforeLastColon(a), ".local"))
  {
    BracketedVerdict(a);
  }

  /** A name that starts with a bracket is local only by its suffix, and one that also ends with one is not local. */
  lemma BracketIsNoName(x: string)
    ensures LocalName("[" + x) <==> HasSuffix(x, ".local")
    ensures x != "" && x[|x| - 1] == ']' ==> !LocalName("[" + x)
  {
    var y := "[" + x;
    assert y[0] == '[';
    assert y != "127.0.0.1" && y != "::1" && y != "localhost";
    SuffixBehind('[', x, ".local");
    SuffixEnds(x, ".local");
  }

  lemma SuffixBehind(c: char, x: string, suffix: string)
    requires suffix != "" && suffix[0] != c
    ensures HasSuffix([c] + x, suffix) <==> HasSuffix(x, suffix)
  {
    var y := [c] + x;
    if |suffix| == |y| {
      assert y[0..][0] == c;
    } else if |suffix| < |y| {
      assert y[|y| - |suffix|..] == x[|x| - |suffix|..];
    }
  }

  lemma SuffixEnds(x: string, suffix: string)
    requires suffix != ""
    ensures HasSuffix(x, suffix) ==> x[|x| - 1] == suffix[|suffix| - 1]
  {
    if |suffix| <= |x| {
      assert x[|x| - |suffix|..][|suffix| - 1] == x[|x| - 1];
    }
  }

  lemma BracketedVerdict(a: string)
    ensures HostIsLocal("[" + a + "]") <==> ':' in a && HasSuffix(BeforeLastColon(a), ".local")
    ensures BeforeLastColon("::1") == ":"
  {
    var host := "[" + a + "]";
    if ':' in a {
      var i := LastIndexOf(a, ':');
      assert host == ("[" + a[..i]) + [':'] + (a[i + 1..] + "]");
      LastIndexOfSplit("[" + a[..i], ':', a[i + 1..] + "]");
      assert BeforeLastColon(host) == "[" + a[..i];
      BracketIsNoName(a[..i]);
    } else {
      assert ':' !in host;
      BracketedIsNoName(a, host);
    }
    LastIndexOfSplit(":", ':', "1");
    assert "::1" == ":" + [':'] + "1";
  }

  /** A bare IPv6 literal: the loopback is missed, and a longer literal that begins like a loopback one is taken for it. */
  lemma BareLiteralExactly(a: string)
    requires ':' in a && 'l' !in a
    ensures HostIsLocal(a) == LocalName(a) <==> a != "::1" && BeforeLastColon(a) != "::1" && BeforeLastColon(a) != "127.0.0.1"
  {
    var cut := BeforeLastColon(a);
    assert 'l' !in cut;
    NoSuffix(a);
    NoSuffix(cut);
    BracketedVerdict("");
    assert "127.0.0.1"[0] != ':' && ':' !in "127.0.0.1";
    assert "localhost"[0] == 'l';
  }

  lemma NoSuffix(s: string)
    requires 'l' !in s
    ensures !HasSuffix(s, ".local") && s != "localhost"
  {
    assert ".local"[5] == 'l' && "localhost"[0] == 'l';
    if |s| >= 6 {
      assert s[|s| - 6..][5] == s[|s| - 1];
    }
  }

  /**
   * The bare and the bracketed IPv6 loopback are not seen as local: cutting at the last colon
   * leaves ":" or "[::1]". The "::1" arm is reached only by the unbracketed form with a port.
   */
  lemma Ipv6LoopbackIsNotLocal()
    ensures !HostIsLocal("::1") && !HostIsLocal("[::1]:5000") && HostIsLocal("::1:5000")
  {
    LastIndexOfSplit(":", ':', "1");
    assert "::1" == ":" + [':'] + "1";
    LastIndexOfSplit("[::1]", ':', "5000");
    assert "[::1]:5000" == "[::1]" + [':'] + "5000";
    LastIndexOfSplit("::1", ':', "5000");
    assert "::1:5000" == "::1" + [':'] + "5000";
  }

  /** retagOCIRef. */
  function Retag(ref: string, newTag: string): Result<string, RefError> {
    if newTag == "" then Err(EmptyNewTag)
    else if !(SCHEME <= ref) then Err(NotAnOciUrl)
    else
      var colon := LastIndexOf(ref, ':');
      var slash := LastIndexOf(ref, '/');
      if colon <= slash then Err(MissingTag) else Ok(ref[..colon + 1] + newTag)
  }

  /** In head + ":" + tag, with a '/' in the head, the last ':' follows the last '/' exactly when the tag has no '/'. */
  lemma TagColonIsLast(head: string, tag: string)
    requires '/' in head && ':' !in tag
    ensures var ref := head + [':'] + tag;
            && LastIndexOf(ref, ':') == |head|
            && (LastIndexOf(ref, ':') <= LastIndexOf(ref, '/') <==> '/' in tag)
  {
    var ref := head + [':'] + tag;
    LastIndexOfSplit(head, ':', tag);
    var slash := LastIndexOf(ref, '/');
    if i :| 0 <= i < |tag| && tag[i] == '/' {
      assert ref[|head| + 1 + i] == '/';
    }
    assert slash > |head| ==> tag[slash - |head| - 1] == '/';
  }

  /** On a printed reference, retagging replaces the tag; it refuses an empty new tag or a '/' in the old one. */
  lemma RetagPrinted(host: string, repo: string, tag: string, newTag: string)
    requires Printable(host, repo, tag)
    ensures Retag(Print(host, repo, tag), newTag).Ok? <==> newTag != "" && '/' !in tag
    ensures Retag(Print(host, repo, tag), newTag).Ok? ==>
              Retag(Print(host, repo, tag), newTag).value == Print(host, repo, newTag)
  {
    var ref := Print(host, repo, tag);
    var head := Head(host, repo);
    HeadThenTag(host, repo, tag);
    HeadThenTag(host, repo, newTag);
    assert head[|SCHEME| + |host|] == '/';
    TagColonIsLast(head, tag);
    assert ref[..|head| + 1] == head + [':'];
  }

  function Head(host: string, repo: string): string {
    SCHEME + host + "/" + repo
  }

  lemma HeadThenTag(host: string, repo: string, tag: string)
    ensures Print(host, repo, tag) == Head(host, repo) + [':'] + tag
    ensures SCHEME <= Print(host, repo, tag)
  {
  }

  /** Retagging commutes with parsing: it succeeds exactly when the old tag has no '/'. */
  lemma RetagSucceedsExactly(ref: string, newTag: string)
    requires Parse(ref).Ok?
    ensures Retag(ref, newTag).Ok? <==> newTag != "" && '/' !in Parse(ref).value.tag
  {
    PrintParse(ref);
    var t := Parse(ref).value;
    RetagPrinted(t.host, t.repo, t.tag, newTag);
  }

  /**
   * The retagged reference names the new tag in the old repository if and only if the new tag has
   * no ':'. Snapshot names are not checked for one, so a name with a ':' lands in another repository.
   */
  lemma RetagKeepsRepository(ref: string, newTag: string)
    requires Parse(ref).Ok? && Retag(ref, newTag).Ok?
    ensures Parse(Retag(ref, newTag).value) == Ok(Parse(ref).value.(tag := newTag)) <==> ':' !in newTag
  {
    PrintParse(ref);
    var t := Parse(ref).value;
    RetagPrinted(t.host, t.repo, t.tag, newTag);
    var r := Print(t.host, t.repo, newTag);
    if ':' !in newTag {
      ParsePrint(t.host, t.repo, newTag);
    } else if Parse(r).Ok? {
      PrintParse(r);
    }
  }

  /** Retagging is injective in the tag, and leaves the reference alone only for its own tag. */
  lemma RetagInjective(ref: string, tag1: string, tag2: string)
    requires Parse(ref).Ok? && Retag(ref, tag1).Ok? && Retag(ref, tag2).Ok?
    ensures Retag(ref, tag1) == Retag(ref, tag2) <==> tag1 == tag2
    ensures Retag(ref, tag1).value == ref <==> tag1 == Parse(ref).value.tag
  {
    PrintParse(ref);
    var t := Parse(ref).value;
    RetagPrinted(t.host, t.repo, t.tag, tag1);
    RetagPrinted(t.host, t.repo, t.tag, tag2);
    var n := |Print(t.host, t.repo, "")|;
    forall x: string ensures Print(t.host, t.repo, x)[n..] == x {
    }
    assert ref[n..] == t.tag;
    assert Retag(ref, tag1).value[n..] == tag1 && Retag(ref, tag2).value[n..] == tag2;
  }

  /** After a retag to a tag free of ':' and '/', a further retag keeps only the last tag. */
  lemma RetagTwice(ref: string, tag1: string, tag2: string)
    requires Parse(ref).Ok? && Retag(ref, tag1).Ok? && tag2 != ""
    requires ':' !in tag1 && '/' !in tag1
    ensures Retag(Retag(ref, tag1).value, tag2) == Retag(ref, tag2)
  {
    PrintParse(ref);
    var t := Parse(ref).value;
    RetagPrinted(t.host, t.repo, t.tag, tag1);
    RetagPrinted(t.host, t.repo, tag1, tag2);
    RetagPrinted(t.host, t.repo, t.tag, tag2);
  }
}
