/** The kernel command line of a microVM, rewritten for QEMU in place (builtin/qemu.go). */
module Cmdline {

  const HVC0 := "console=hvc0"
  const TTYAMA0 := "console=ttyAMA0"
  const TRANSPORT := "weft.transport=9p"

  /** unicode.IsSpace. */
  predicate IsSpace(c: char) {
    var x := c as int;
    || 0x09 <= x <= 0x0D || x == 0x20 || x == 0x85 || x == 0xA0 || x == 0x1680
    || 0x2000 <= x <= 0x200A || x == 0x2028 || x == 0x2029 || x == 0x202F || x == 0x205F || x == 0x3000
  }

  /** A token: not empty, no white space. */
  predicate IsToken(t: string) {
    t != "" && forall i :: 0 <= i < |t| ==> !IsSpace(t[i])
  }

  predicate AllTokens(ts: seq<string>) {
    forall i :: 0 <= i < |ts| ==> IsToken(ts[i])
  }

  /** The length of the token a string starts with. */
  function TokenLength(s: string): (n: nat)
    ensures n <= |s| && (n < |s| ==> IsSpace(s[n]))
    ensures forall i :: 0 <= i < n ==> !IsSpace(s[i])
  {
    if s == "" || IsSpace(s[0]) then 0 else 1 + TokenLength(s[1..])
  }

  /** strings.Fields. */
  function Fields(s: string): (ts: seq<string>)
    ensures AllTokens(ts)
  {
    if s == "" then []
    else if IsSpace(s[0]) then Fields(s[1..])
    else
      var n := TokenLength(s);
      [s[..n]] + Fields(s[n..])
  }

  /** strings.Join with a blank. */
  function Join(ts: seq<string>): string {
    if ts == [] then ""
    else if |ts| == 1 then ts[0]
    else ts[0] + " " + Join(ts[1..])
  }

  lemma TokenLengthOf(t: string, rest: string)
    requires IsToken(t) && (rest == "" || IsSpace(rest[0]))
    ensures TokenLength(t + rest) == |t|
  {
    var s := t + rest;
    assert forall i :: 0 <= i < |t| ==> s[i] == t[i];
    assert rest != "" ==> s[|t|] == rest[0];
  }

  /** Splitting a joined line gives its tokens back. */
  lemma {:induction false} FieldsOfJoin(ts: seq<string>)
    requires AllTokens(ts)
    ensures Fields(Join(ts)) == ts
  {
    if ts == [] {
    } else if |ts| == 1 {
      TokenLengthOf(ts[0], "");
      assert ts[0] + "" == ts[0];
      assert Fields(ts[0]) == [ts[0]] + Fields(ts[0][|ts[0]|..]);
    } else {
      var rest := " " + Join(ts[1..]);
      FieldsOfJoin(ts[1..]);
      TokenLengthOf(ts[0], rest);
      var s := ts[0] + rest;
      assert Join(ts) == s && s[0] == ts[0][0];
      assert s[..|ts[0]|] == ts[0] && s[|ts[0]|..] == rest;
      assert rest[1..] == Join(ts[1..]);
      assert Fields(rest) == Fields(rest[1..]);
      assert ts == [ts[0]] + ts[1..];
    }
  }

  /** The tokens mapped and filtered: the virtio console becomes ttyAMA0, a transport hint is dropped. */
  function Rewrite(ts: seq<string>): seq<string> {
    if ts == [] then []
    else if ts[0] == HVC0 then [TTYAMA0] + Rewrite(ts[1..])
    else if ts[0] == TRANSPORT then Rewrite(ts[1..])
    else [ts[0]] + Rewrite(ts[1..])
  }

  function Rewritten(cmdline: string): string {
    Join(Rewrite(Fields(cmdline)) + [TRANSPORT])
  }

  lemma {:induction false} RewriteSnoc(ts: seq<string>, t: string)
    ensures Rewrite(ts + [t]) == Rewrite(ts) + Rewrite([t])
  {
    if ts == [] {
      assert ts + [t] == [t];
    } else {
      assert (ts + [t])[1..] == ts[1..] + [t];
      RewriteSnoc(ts[1..], t);
    }
  }

  /**
   * rewriteCmdlineForQEMU. out starts as tokens[:0], so it shares the array: each kept token is written
   * at or before the place it was read from, and the last append may reuse a slot or need a new array.
   */
  method RewriteCmdlineForQEMU(cmdline: string) returns (r: string)
    ensures r == Rewritten(cmdline)
  {
    var fields := Fields(cmdline);
    var tokens := new string[|fields|](i requires 0 <= i < |fields| => fields[i]);
    var w := 0;
    for i := 0 to tokens.Length
      invariant w <= i
      invariant tokens[..w] == Rewrite(fields[..i])
      invariant forall j :: i <= j < tokens.Length ==> tokens[j] == fields[j]
    {
      RewriteSnoc(fields[..i], fields[i]);
      assert fields[..i + 1] == fields[..i] + [fields[i]];
      var t := tokens[i];
      if t == HVC0 {
        t := TTYAMA0;
      } else if t == TRANSPORT {
        continue;
      }
      tokens[w] := t;
      w := w + 1;
    }
    assert fields[..tokens.Length] == fields;
    var out := tokens;
    if w < tokens.Length {
      tokens[w] := TRANSPORT;
    } else {
      out := new string[w + 1](i requires 0 <= i < w + 1 reads tokens => if i < tokens.Length then tokens[i] else TRANSPORT);
    }
    assert out[..w + 1] == Rewrite(fields) + [TRANSPORT];
    r := Join(out[..w + 1]);
  }

  lemma TokenLiterals()
    ensures IsToken(HVC0) && IsToken(TTYAMA0) && IsToken(TRANSPORT)
  {
  }

  /** Rewriting keeps tokens tokens, and leaves neither the virtio console nor a transport hint. */
  lemma {:induction false} RewriteClean(ts: seq<string>)
    requires AllTokens(ts)
    ensures AllTokens(Rewrite(ts)) && HVC0 !in Rewrite(ts) && TRANSPORT !in Rewrite(ts)
  {
    TokenLiterals();
    if ts == [] {
    } else {
      RewriteClean(ts[1..]);
    }
  }

  /** Tokens without either are left alone. */
  lemma {:induction false} RewriteIdle(ts: seq<string>)
    requires HVC0 !in ts && TRANSPORT !in ts
    ensures Rewrite(ts) == ts
  {
    if ts == [] {
    } else {
      RewriteIdle(ts[1..]);
      assert ts == [ts[0]] + ts[1..];
    }
  }

  /** The tokens of the rewritten line: the input's, mapped and filtered in order, then one transport hint. */
  lemma RewrittenTokens(cmdline: string)
    ensures Fields(Rewritten(cmdline)) == Rewrite(Fields(cmdline)) + [TRANSPORT]
    ensures HVC0 !in Fields(Rewritten(cmdline))
    ensures TRANSPORT !in Rewrite(Fields(cmdline))
  {
    RewriteClean(Fields(cmdline));
    TokenLiterals();
    FieldsOfJoin(Rewrite(Fields(cmdline)) + [TRANSPORT]);
  }

  /** Rewriting twice is rewriting once, for every command line. */
  lemma RewriteIsIdempotent(cmdline: string)
    ensures Rewritten(Rewritten(cmdline)) == Rewritten(cmdline)
  {
    var ts := Rewrite(Fields(cmdline));
    RewrittenTokens(cmdline);
    RewriteClean(Fields(cmdline));
    RewriteIdle(ts);
    RewriteSnoc(ts, TRANSPORT);
    DroppedAlone();
    assert Rewrite(ts + [TRANSPORT]) == ts;
  }

  lemma DroppedAlone()
    ensures Rewrite([TRANSPORT]) == []
  {
    assert TRANSPORT[0] != HVC0[0];
    assert [TRANSPORT][1..] == [];
  }

  /** The console always becomes ttyAMA0: a serial ttyS0 token is in the result only if it was in the input. */
  lemma {:induction false} NeverTtyS0(ts: seq<string>)
    ensures "console=ttyS0" in Rewrite(ts) <==> "console=ttyS0" in ts
  {
    if ts == [] {
    } else {
      assert ts == [ts[0]] + ts[1..];
      NeverTtyS0(ts[1..]);
    }
  }

  // ---- The pieces, in their own words ----

  /** What becomes of one token. */
  lemma RewriteOne(t: string)
    ensures Rewrite([t]) == if t == "console=hvc0" then ["console=ttyAMA0"] else if t == "weft.transport=9p" then [] else [t]
  {
    assert [t][1..] == [];
  }

  /** Each token on its own, in order. */
  lemma {:induction false} RewriteAppend(xs: seq<string>, ys: seq<string>)
    ensures Rewrite(xs + ys) == Rewrite(xs) + Rewrite(ys)
  {
    if xs == [] {
      assert xs + ys == ys;
    } else {
      assert (xs + ys)[1..] == xs[1..] + ys;
      RewriteAppend(xs[1..], ys);
    }
  }

  /** The line has the serial console exactly if it had it or the virtio one; no other token but these and the hint comes or goes. */
  lemma {:induction false} ConsoleMoves(ts: seq<string>, t: string)
    ensures "console=ttyAMA0" in Rewrite(ts) <==> "console=ttyAMA0" in ts || "console=hvc0" in ts
    ensures t != "console=ttyAMA0" && t != "console=hvc0" && t != "weft.transport=9p" ==> (t in Rewrite(ts) <==> t in ts)
    ensures "console=hvc0" !in Rewrite(ts) && "weft.transport=9p" !in Rewrite(ts)
  {
    if ts == [] {
    } else {
      ConsoleMoves(ts[1..], t);
      assert ts == [ts[0]] + ts[1..];
      LiteralsDiffer();
    }
  }

  lemma LiteralsDiffer()
    ensures "console=ttyAMA0" != "console=hvc0" && "console=ttyAMA0" != "weft.transport=9p" && "console=hvc0" != "weft.transport=9p"
  {
    assert "console=ttyAMA0"[8] != "console=hvc0"[8] && "console=ttyAMA0"[0] != "weft.transport=9p"[0];
    assert "console=hvc0"[0] != "weft.transport=9p"[0];
  }

  /** Lines are joined with one blank. */
  lemma {:induction false} JoinSnoc(ts: seq<string>, t: string)
    ensures Join([t]) == t
    ensures ts != [] ==> Join(ts + [t]) == Join(ts) + " " + t
  {
    if |ts| > 1 {
      JoinSnoc(ts[1..], t);
      assert (ts + [t])[1..] == ts[1..] + [t];
      assert ts[0] + " " + (Join(ts[1..]) + " " + t) == ts[0] + " " + Join(ts[1..]) + " " + t;
    } else if |ts| == 1 {
      assert ts + [t] == [ts[0], t] && [ts[0], t][1..] == [t];
    }
  }

  /** Any white space splits, however much of it, and nothing else does. */
  lemma {:induction false} FieldsSplit(a: string, c: char, b: string)
    requires IsSpace(c)
    ensures Fields(a + [c] + b) == Fields(a) + Fields(b)
    decreases |a|
  {
    var s := a + [c] + b;
    if a == "" {
      assert s[1..] == b;
    } else if IsSpace(a[0]) {
      assert s[1..] == a[1..] + [c] + b;
      FieldsSplit(a[1..], c, b);
    } else {
      var n := TokenLength(a);
      assert s[..n] == a[..n] && s[n..] == a[n..] + [c] + b;
      TokenLengthOf(a[..n], a[n..] + [c] + b);
      assert a[..n] + (a[n..] + [c] + b) == s;
      FieldsSplit(a[n..], c, b);
    }
  }

  lemma FieldsOfToken(t: string)
    requires IsToken(t)
    ensures Fields(t) == [t] && Fields("") == []
  {
    FieldsOfJoin([t]);
  }

  /** Blanks, tabs and line ends are white space; no printing ASCII character is. */
  lemma WhiteSpace(c: char)
    ensures IsSpace(' ') && IsSpace('\t') && IsSpace('\n') && IsSpace('\r')
    ensures '!' <= c <= '~' ==> !IsSpace(c)
  {
  }
}
