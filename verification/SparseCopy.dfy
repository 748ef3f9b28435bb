/** The sparse restore engine: copyDevice, readFullAt and equalBytes (builtin/govolume.go). */
module SparseCopy {
  import opened Wrappers

  type Byte = x: int | 0 <= x < 256
  type Bytes = seq<Byte>

  newtype int64 = x: int | -0x8000_0000_0000_0000 <= x < 0x8000_0000_0000_0000

  const TWO63: int := 0x8000_0000_0000_0000

  /** Two's-complement wrap-around of int64 arithmetic. */
  function Wrap64(x: int): (r: int64)
    ensures (r as int - x) % (2 * TWO63) == 0
    ensures -TWO63 <= x < TWO63 ==> r as int == x
  {
    ((x + TWO63) % (2 * TWO63) - TWO63) as int64
  }

  const WIN: nat := 0x10_0000 // 1 MiB windows
  const MAX_COPY: int64 := 0x7FFF_FFFF_FFF0_0000 // the largest length whose last offset still fits an int64

  datatype IOError = EOF | Fault(code: nat)

  /** An answer of ReadAt: how many bytes it filled and the error it returned. */
  datatype Answer = Answer(count: nat, err: Option<IOError>)

  /** Short reads, but no errors. */
  predicate OnlyShort(plan: seq<Answer>) {
    forall i :: 0 <= i < |plan| ==> plan[i].count > 0 && plan[i].err.None?
  }

  /**
   * Answers that a copy of n more bytes survives, w of them in the window it is reading: each makes progress, and none
   * brings an error but perhaps EOF, with the last byte of a window.
   */
  predicate Harmless(plan: seq<Answer>, n: nat, w: nat)
    requires w <= n
    decreases |plan|
  {
    plan == [] || n == 0 ||
    var c := Min(plan[0].count, w);
    && c > 0
    && (plan[0].err.None? || (plan[0].err == Some(EOF) && c == w))
    && Harmless(plan[1..], n - c, if c == w then Min(WIN, n - c) else w - c)
  }

  predicate HarmlessFor(plan: seq<Answer>, n: nat) {
    Harmless(plan, n, Min(WIN, n))
  }

  /** Short reads alone are harmless. */
  lemma {:induction false} OnlyShortHarmless(plan: seq<Answer>, n: nat, w: nat)
    requires OnlyShort(plan) && w <= n && (n > 0 ==> w > 0)
    ensures Harmless(plan, n, w)
    decreases |plan|
  {
    if plan != [] && n > 0 {
      var c := Min(plan[0].count, w);
      OnlyShortHarmless(plan[1..], n - c, if c == w then Min(WIN, n - c) else w - c);
    }
  }

  /**
   * The answers progress without error up to one that brings error e before want bytes are there, or with the last
   * of them (full).
   */
  predicate EndsWith(plan: seq<Answer>, want: nat, e: IOError, full: bool)
    decreases |plan|
  {
    && want > 0 && plan != []
    && if plan[0].err.None? then 0 < plan[0].count < want && EndsWith(plan[1..], want - plan[0].count, e, full)
       else plan[0].err == Some(e) && (full <==> plan[0].count >= want)
  }

  /** The first read fails before it delivers a byte. */
  predicate FailsAtOnce(plan: seq<Answer>) {
    plan != [] && plan[0].count == 0 && plan[0].err.Some?
  }

  predicate AllZero(w: Bytes) {
    forall i :: 0 <= i < |w| ==> w[i] == 0
  }

  /** d with w written over it at off; what falls outside d is dropped. */
  function Overwrite(d: Bytes, off: nat, w: Bytes): (r: Bytes)
    ensures |r| == |d|
    ensures forall i :: 0 <= i < |d| ==> r[i] == if off <= i < off + |w| then w[i - off] else d[i]
  {
    seq(|d|, i requires 0 <= i < |d| => if off <= i < off + |w| then w[i - off] else d[i])
  }

  function Min(a: int, b: int): int {
    if a < b then a else b
  }

  function Zeros(n: nat): (z: Bytes)
    ensures |z| == n && AllZero(z)
  {
    seq(n, _ => 0)
  }

  /** Later writes are added to earlier ones, and none of them is all zeros. */
  predicate AddsNoHole(before: seq<(nat, Bytes)>, after: seq<(nat, Bytes)>) {
    && |before| <= |after| && after[..|before|] == before
    && forall x :: |before| <= x < |after| ==> !AllZero(after[x].1)
  }

  /**
   * m bytes and err are an answer to a read of w bytes at off: progress or an error, only bytes the device has, and as
   * planned if it has them all.
   */
  predicate Answered(plan: seq<Answer>, rest: seq<Answer>, w: nat, off: nat, data: Bytes, m: nat, err: Option<IOError>) {
    && m <= w && (m > 0 || err.Some?) && (m > 0 ==> off + m <= |data|)
    && rest == (if plan == [] then [] else plan[1..])
    && (OnlyShort(plan) && off < |data| ==> err.None?)
    && (FailsAtOnce(plan) ==> m == 0 && err == plan[0].err)
    && (off + w <= |data| ==>
          if plan == [] then m == w && err.None?
          else m == Min(plan[0].count, w) && err == if m == 0 && plan[0].err.None? then Some(EOF) else plan[0].err)
  }

  /** A read-only device. plan decides how much each call delivers and how it fails. */
  class Source {
    const data: Bytes
    var plan: seq<Answer>

    constructor (data: Bytes, plan: seq<Answer>)
      ensures this.data == data && this.plan == plan
    {
      this.data := data;
      this.plan := plan;
    }

    /**
     * io.ReaderAt into buf[lo..hi]: some bytes, perhaps fewer than asked, and perhaps an error. All
     * that is promised is that delivered bytes are the device's, and progress or an error each time.
     */
    method ReadAt(buf: array<Byte>, lo: nat, hi: nat, off: nat) returns (m: nat, err: Option<IOError>)
      requires lo < hi <= buf.Length
      modifies this`plan, buf
      ensures lo + m <= hi && Answered(old(plan), plan, hi - lo, off, data, m, err)
      ensures m > 0 ==> buf[lo..lo + m] == data[off..off + m]
      ensures forall i :: 0 <= i < buf.Length && !(lo <= i < hi) ==> buf[i] == old(buf[i])
    {
      m, err := hi - lo, None;
      if plan != [] {
        m, err := Min(plan[0].count, m), plan[0].err;
        plan := plan[1..];
      }
      m := if off >= |data| then 0 else Min(m, |data| - off);
      if m == 0 && err.None? {
        err := Some(EOF);
      }
      forall i | 0 <= i < m {
        buf[lo + i] := data[off + i];
      }
    }
  }

  /** A writable device. Each element of faults says whether that write fails. */
  class Device {
    var data: Bytes
    var writes: seq<(nat, Bytes)>
    var faults: seq<bool>

    constructor (data: Bytes, faults: seq<bool>)
      ensures this.data == data && writes == [] && this.faults == faults
    {
      this.data := data;
      this.writes := [];
      this.faults := faults;
    }

    /** io.WriterAt of buf[..m]. A failed write may leave anything in the range it was given. */
    method WriteAt(buf: array<Byte>, m: nat, off: nat) returns (err: Option<IOError>)
      requires m <= buf.Length
      modifies this
      ensures writes == old(writes) + [(off, buf[..m])]
      ensures err.None? ==> off + m <= |data| && data == Overwrite(old(data), off, buf[..m])
      ensures old(faults) == [] ==> faults == [] && (off + m <= |old(data)| ==> err.None?)
      ensures |data| == |old(data)|
      ensures forall i :: 0 <= i < |data| && !(off <= i < off + m) ==> data[i] == old(data)[i]
    {
      writes := writes + [(off, buf[..m])];
      err := None;
      if (faults != [] && faults[0]) || off + m > |data| {
        err := Some(Fault(0));
      } else {
        data := Overwrite(data, off, buf[..m]);
      }
      faults := if faults == [] then [] else faults[1..];
    }
  }

  // ---- readFullAt ----

  /**
   * What a run of answers means to a caller that wants a number of bytes: the first error, except an
   * EOF that comes with the last byte. Any other error is reported even if the buffer is full.
   */
  function Verdict(answers: seq<Answer>, have: nat, want: nat): Option<IOError> {
    if answers == [] then None
    else
      var have' := have + answers[0].count;
      if answers[0].err.None? then Verdict(answers[1..], have', want)
      else if answers[0].err == Some(EOF) && have' == want then None
      else answers[0].err
  }

  function Delivered(answers: seq<Answer>): nat {
    if answers == [] then 0 else answers[0].count + Delivered(answers[1..])
  }

  lemma {:induction false} VerdictSnoc(answers: seq<Answer>, a: Answer, have: nat, want: nat)
    requires forall i :: 0 <= i < |answers| ==> answers[i].err.None?
    ensures Verdict(answers + [a], have, want) == Verdict([a], have + Delivered(answers), want)
    ensures Delivered(answers + [a]) == Delivered(answers) + a.count
  {
    if answers == [] {
      assert answers + [a] == [a];
    } else {
      assert (answers + [a])[1..] == answers[1..] + [a];
      VerdictSnoc(answers[1..], a, have + answers[0].count, want);
    }
  }

  /** The first n bytes of buf are those of data from off. */
  predicate Filled(buf: Bytes, n: nat, data: Bytes, off: nat) {
    n <= |buf| && (n > 0 ==> off + n <= |data| && buf[..n] == data[off..off + n])
  }

  lemma FilledMore(b0: Bytes, b1: Bytes, n: nat, m: nat, data: Bytes, off: nat)
    requires Filled(b0, n, data, off) && |b1| == |b0| && n + m <= |b1|
    requires forall i :: 0 <= i < n ==> b1[i] == b0[i]
    requires m > 0 ==> off + n + m <= |data| && b1[n..n + m] == data[off + n..off + n + m]
    ensures Filled(b1, n + m, data, off)
  {
    assert b1[..n] == b0[..n];
    if n > 0 && m > 0 {
      assert b1[..n + m] == b1[..n] + b1[n..n + m];
      assert data[off..off + n + m] == data[off..off + n] + data[off + n..off + n + m];
    }
  }

  /** The answers so far brought n bytes and no error, and these are the ones still planned. */
  ghost predicate Reading(all: seq<Answer>, plan: seq<Answer>, answers: seq<Answer>, want: nat, n: nat) {
    && n == Delivered(answers)
    && (forall i :: 0 <= i < |answers| ==> answers[i].err.None?)
    && Verdict(answers, 0, want) == None
    && (OnlyShort(all) ==> OnlyShort(plan))
    && (if answers == [] then n == 0 && plan == all else !FailsAtOnce(all))
  }

  lemma ReadingStep(all: seq<Answer>, plan: seq<Answer>, rest: seq<Answer>, answers: seq<Answer>, want: nat, n: nat, off: nat, data: Bytes,
                    m: nat, err: Option<IOError>)
    requires n < want && Reading(all, plan, answers, want, n) && Answered(plan, rest, want - n, off + n, data, m, err)
    ensures err.None? ==> Reading(all, rest, answers + [Answer(m, err)], want, n + m)
    ensures err.Some? ==> Verdict(answers + [Answer(m, err)], 0, want) == if err.value.EOF? && n + m == want then None else err
    ensures Delivered(answers + [Answer(m, err)]) == n + m && (OnlyShort(all) ==> OnlyShort(rest))
    ensures FailsAtOnce(all) ==> m == 0 && n == 0 && err == all[0].err
  {
    VerdictSnoc(answers, Answer(m, err), 0, want);
  }

  /** If the answers end with an error, it is reported, unless it is an EOF that comes with the last byte. */
  ghost predicate EndsAsPlanned(plan: seq<Answer>, want: nat, err: Option<IOError>) {
    forall e, full :: EndsWith(plan, want, e, full) ==> err == if e.EOF? && full then None else Some(e)
  }

  /** What is left of the answers after n of want bytes promises what all of them promised. */
  ghost predicate Scheduled(all: seq<Answer>, plan: seq<Answer>, want: nat, n: nat, total: nat)
    requires n <= want <= total
  {
    && (forall e, full :: EndsWith(all, want, e, full) ==> n < want && EndsWith(plan, want - n, e, full))
    && (want > 0 && Harmless(all, total, want) ==>
          if n == want then HarmlessFor(plan, total - want) else Harmless(plan, total - n, want - n))
  }

  lemma ScheduledStep(all: seq<Answer>, plan: seq<Answer>, rest: seq<Answer>, want: nat, n: nat, total: nat, off: nat, data: Bytes,
                      m: nat, err: Option<IOError>)
    requires n < want <= total && Scheduled(all, plan, want, n, total) && off + want <= |data|
    requires Answered(plan, rest, want - n, off + n, data, m, err)
    ensures err.None? ==> Scheduled(all, rest, want, n + m, total)
    ensures err.Some? ==> EndsAsPlanned(all, want, if err.value.EOF? && n + m == want then None else err)
    ensures err.Some? && Harmless(all, total, want) ==>
              err.value.EOF? && n + m == want && HarmlessFor(rest, total - want)
  {
    forall e, full | EndsWith(all, want, e, full)
      ensures err.None? ==> n + m < want && EndsWith(rest, want - n - m, e, full)
      ensures err.Some? ==> err.value == e && (full <==> n + m == want)
    {
      assert EndsWith(plan, want - n, e, full);
    }
  }

  /** Where a read of want bytes stands after n of them, before its next answer. */
  ghost predicate ReadSoFar(all: seq<Answer>, plan: seq<Answer>, answers: seq<Answer>, before: Bytes, buf: Bytes, want: nat, n: nat,
                            off: nat, data: Bytes, total: nat) {
    && n <= want <= total && want <= |buf| == |before|
    && Reading(all, plan, answers, want, n)
    && Filled(buf, n, data, off)
    && (forall i :: want <= i < |buf| ==> buf[i] == before[i])
    && (off + want <= |data| ==> Scheduled(all, plan, want, n, total))
  }

  /** How a read of want bytes ends. */
  ghost predicate ReadDone(all: seq<Answer>, rest: seq<Answer>, answers: seq<Answer>, before: Bytes, buf: Bytes, want: nat,
                           off: nat, data: Bytes, total: nat, err: Option<IOError>) {
    && want <= |buf| == |before| && want <= total
    // the error is the first one, but not an EOF with the last byte
    && err == Verdict(answers, 0, want) && (err.None? ==> Delivered(answers) == want)
    // without an error every byte is the device's; the rest of the buffer is untouched
    && (err.None? && want > 0 ==> off + want <= |data| && buf[..want] == data[off..off + want])
    && buf[want..] == before[want..]
    // short reads alone do no harm
    && (OnlyShort(all) ==> OnlyShort(rest) && (off + want <= |data| ==> err.None?))
    && (FailsAtOnce(all) && want > 0 ==> err == all[0].err)
    && (off + want <= |data| ==> EndsAsPlanned(all, want, err))
    && (off + want <= |data| && want > 0 && Harmless(all, total, want) ==> err.None? && HarmlessFor(rest, total - want))
  }

  lemma ReadStarts(plan: seq<Answer>, buf: Bytes, want: nat, off: nat, data: Bytes, total: nat)
    requires want <= |buf| && want <= total
    ensures ReadSoFar(plan, plan, [], buf, buf, want, 0, off, data, total)
  {
  }

  lemma ReadEnds(all: seq<Answer>, plan: seq<Answer>, answers: seq<Answer>, before: Bytes, buf: Bytes, want: nat,
                 off: nat, data: Bytes, total: nat)
    requires ReadSoFar(all, plan, answers, before, buf, want, want, off, data, total)
    ensures ReadDone(all, plan, answers, before, buf, want, off, data, total, None)
  {
    assert buf[want..] == before[want..];
  }

  lemma ReadGoesOn(all: seq<Answer>, plan: seq<Answer>, rest: seq<Answer>, answers: seq<Answer>, before: Bytes, buf: Bytes, buf': Bytes,
                   want: nat, n: nat, off: nat, data: Bytes, total: nat, m: nat, err: Option<IOError>)
    requires n < want && ReadSoFar(all, plan, answers, before, buf, want, n, off, data, total)
    requires Answered(plan, rest, want - n, off + n, data, m, err) && |buf'| == |buf|
    requires m > 0 ==> buf'[n..n + m] == data[off + n..off + n + m]
    requires forall i :: 0 <= i < |buf| && !(n <= i < want) ==> buf'[i] == buf[i]
    ensures var answers' := answers + [Answer(m, err)];
            && (err.None? ==> ReadSoFar(all, rest, answers', before, buf', want, n + m, off, data, total))
            && (err.Some? ==> ReadDone(all, rest, answers', before, buf', want, off, data, total,
                                       if err.value.EOF? && n + m == want then None else err))
  {
    ReadingStep(all, plan, rest, answers, want, n, off, data, m, err);
    FilledMore(buf, buf', n, m, data, off);
    if off + want <= |data| {
      ScheduledStep(all, plan, rest, want, n, total, off, data, m, err);
    }
    if err.Some? {
      assert buf'[want..] == before[want..];
    }
  }

  /**
   * readFullAt into buf[..want]: no error means every byte is the device's. The rest of buf is untouched.
   * Short reads alone never make it fail, nor an EOF that comes with the last byte; an EOF before it and any other
   * error are reported. total is how much the caller still has to copy, this window included.
   */
  method ReadFullAt(r: Source, buf: array<Byte>, want: nat, off: nat, ghost total: nat)
    returns (err: Option<IOError>, ghost answers: seq<Answer>)
    requires want <= buf.Length && want <= total
    modifies r`plan, buf
    ensures ReadDone(old(r.plan), r.plan, answers, old(buf[..]), buf[..], want, off, r.data, total, err)
  {
    var n := 0;
    answers := [];
    err := None;
    ghost var all, before := r.plan, buf[..];
    ReadStarts(all, before, want, off, r.data, total);
    while n < want
      invariant n <= want && ReadSoFar(all, r.plan, answers, before, buf[..], want, n, off, r.data, total)
    {
      ghost var plan, b := r.plan, buf[..];
      var m, e := r.ReadAt(buf, n, want, off + n);
      ReadGoesOn(all, plan, r.plan, answers, before, b, buf[..], want, n, off, r.data, total, m, e);
      answers := answers + [Answer(m, e)];
      n := n + m;
      if e.Some? {
        if e == Some(EOF) && n == want {
          return None, answers;
        }
        return e, answers;
      }
    }
    ReadEnds(all, r.plan, answers, before, buf[..], want, off, r.data, total);
  }

  /** equalBytes on the slices a[..m] and b[..k]. */
  method EqualBytes(a: array<Byte>, m: nat, b: array<Byte>, k: nat) returns (same: bool)
    requires m <= a.Length && k <= b.Length
    ensures same <==> a[..m] == b[..k]
  {
    if m != k {
      return false;
    }
    for i := 0 to m
      invariant forall j :: 0 <= j < i ==> a[j] == b[j]
    {
      if a[i] != b[i] {
        assert a[..m][i] != b[..k][i];
        return false;
      }
    }
    return true;
  }

  // ---- copyDevice ----

  /** The bytes of window k of a copy of length n. */
  function Window(src: Bytes, n: nat, k: nat): Bytes
    requires k * WIN <= n && Min((k + 1) * WIN, n) <= |src|
  {
    src[k * WIN..Min((k + 1) * WIN, n)]
  }

  /** dst after the first k windows of a sparse copy: all-zero windows are skipped. */
  function SparseImage(dst: Bytes, src: Bytes, n: nat, k: nat): (r: Bytes)
    requires k > 0 ==> (k - 1) * WIN <= n && Min(k * WIN, n) <= |src|
    ensures |r| == |dst|
  {
    if k == 0 then dst else PutWindow(SparseImage(dst, src, n, k - 1), (k - 1) * WIN, Window(src, n, k - 1))
  }

  /** d with window w put at off, or as it was if the window is all zeros. */
  function PutWindow(d: Bytes, off: nat, w: Bytes): (r: Bytes)
    ensures |r| == |d|
  {
    if AllZero(w) then d else Overwrite(d, off, w)
  }

  function WindowCount(n: nat): nat {
    (n + WIN - 1) / WIN
  }

  /** The end of the loop body: compare with zeros, then skip or write. */
  method WriteUnlessHole(dst: Device, buf: array<Byte>, zero: array<Byte>, m: nat, off: nat) returns (err: Option<IOError>)
    requires m <= buf.Length && m <= zero.Length && AllZero(zero[..m])
    modifies dst
    ensures |dst.data| == |old(dst.data)|
    ensures err.None? ==> dst.data == if AllZero(buf[..m]) then old(dst.data) else Overwrite(old(dst.data), off, buf[..m])
    ensures AllZero(buf[..m]) ==> err.None?
    ensures forall i :: 0 <= i < |dst.data| && !(off <= i < off + m) ==> dst.data[i] == old(dst.data)[i]
    ensures dst.writes == old(dst.writes) + if AllZero(buf[..m]) then [] else [(off, buf[..m])]
    ensures old(dst.faults) == [] ==> dst.faults == [] && (off + m <= |old(dst.data)| ==> err.None?)
  {
    var hole := EqualBytes(buf, m, zero, m);
    assert hole <==> AllZero(buf[..m]) by {
      assert AllZero(buf[..m]) ==> forall i :: 0 <= i < m ==> buf[..m][i] == zero[..m][i];
    }
    if hole {
      return None;
    }
    err := dst.WriteAt(buf, m, off);
  }

  /** The first k windows have been read and copied. */
  ghost predicate Copied(before: Bytes, now: Bytes, src: Bytes, n: nat, k: nat) {
    && (k > 0 ==> (k - 1) * WIN < n && Min(k * WIN, n) <= |src|)
    && now == SparseImage(before, src, n, k)
  }

  /** One more window of a sparse copy. */
  lemma NextWindow(before: Bytes, now: Bytes, src: Bytes, n: nat, k: nat)
    requires Copied(before, now, src, n, k) && k * WIN < n && Min((k + 1) * WIN, n) <= |src|
    ensures Copied(before, PutWindow(now, k * WIN, Window(src, n, k)), src, n, k + 1)
  {
  }

  /** The copy stopped in window done: earlier windows are copied, later ones untouched, and a hole is untouched too. */
  ghost predicate StoppedAt(before: Bytes, now: Bytes, src: Bytes, n: nat, done: nat)
    requires done * WIN < n && done * WIN <= |src|
  {
    && |now| == |before|
    && (forall i :: 0 <= i < |now| && !(done * WIN <= i < Min((done + 1) * WIN, n)) ==>
          now[i] == SparseImage(before, src, n, done)[i])
    && (Min((done + 1) * WIN, n) <= |src| && AllZero(Window(src, n, done)) ==> now == SparseImage(before, src, n, done))
  }

  lemma StopsHere(before: Bytes, data: Bytes, now: Bytes, src: Bytes, n: nat, k: nat)
    requires Copied(before, data, src, n, k) && k * WIN < n && |now| == |before|
    requires var w := Min((k + 1) * WIN, n) - k * WIN;
             && (forall i :: 0 <= i < |now| && !(k * WIN <= i < k * WIN + w) ==> now[i] == data[i])
             && (k * WIN + w <= |src| && AllZero(src[k * WIN..k * WIN + w]) ==> now == data)
    ensures k * WIN <= |src| && StoppedAt(before, now, src, n, k)
  {
  }

  /** The loop body on window k: it copies the window, or fails and leaves what a stopped copy may leave. */
  method CopyWindow(dst: Device, src: Source, buf: array<Byte>, zero: array<Byte>, m: nat, off: nat,
                    ghost before: Bytes, ghost n: nat, ghost k: nat)
    returns (err: Option<IOError>)
    requires m <= buf.Length && m <= zero.Length && AllZero(zero[..m]) && buf != zero
    requires Copied(before, dst.data, src.data, n, k)
    requires k * WIN < n && off == k * WIN && m == Min((k + 1) * WIN, n) - k * WIN
    modifies dst, src`plan, buf
    ensures |dst.data| == |old(dst.data)|
    ensures err.None? ==> Copied(before, dst.data, src.data, n, k + 1)
    ensures err.Some? ==> k * WIN <= |src.data| && StoppedAt(before, dst.data, src.data, n, k)
    ensures AddsNoHole(old(dst.writes), dst.writes)
    ensures old(dst.faults) == [] ==> dst.faults == []
    ensures (&& Harmless(old(src.plan), n - k * WIN, m) && old(dst.faults) == []
             && off + m <= |src.data| && off + m <= |old(dst.data)|) ==>
              err.None? && HarmlessFor(src.plan, n - k * WIN - m)
    ensures FailsAtOnce(old(src.plan)) ==> err == old(src.plan)[0].err && dst.data == old(dst.data)
  {
    ghost var data, answers := dst.data, [];
    err, answers := ReadFullAt(src, buf, m, off, n - k * WIN);
    if err.None? {
      err := WriteUnlessHole(dst, buf, zero, m, off);
    }
    if err.Some? {
      StopsHere(before, data, dst.data, src.data, n, k);
    } else {
      NextWindow(before, data, src.data, n, k);
    }
  }

  /** What is left to copy of n bytes after some windows. */
  function Rest(n: nat, done: nat): nat {
    if done * WIN < n then n - done * WIN else 0
  }

  lemma RestStep(n: nat, done: nat)
    requires done * WIN < n
    ensures Rest(n, done) == n - done * WIN && Min((done + 1) * WIN, n) - done * WIN == Min(WIN, Rest(n, done))
    ensures Rest(n, done + 1) == Rest(n, done) - Min(WIN, Rest(n, done))
  {
  }

  /** What the answers and the write faults still to come promise before window done. */
  ghost predicate Copying(all: seq<Answer>, plan: seq<Answer>, before: Bytes, now: Bytes, faults: seq<bool>, n: nat, done: nat, good: bool) {
    && (good ==> HarmlessFor(plan, Rest(n, done)) && faults == [] && n <= |before|)
    && |now| == |before|
    && (if done == 0 then plan == all && now == before else !FailsAtOnce(all))
  }

  lemma CopyingStep(all: seq<Answer>, plan: seq<Answer>, plan': seq<Answer>, before: Bytes, now: Bytes, now': Bytes,
                    faults: seq<bool>, faults': seq<bool>, size: nat, n: nat, done: nat, good: bool, err: Option<IOError>)
    requires Copying(all, plan, before, now, faults, n, done, good) && done * WIN < n && (good ==> n <= size) && |now'| == |now|
    requires faults == [] ==> faults' == []
    requires var m := Min((done + 1) * WIN, n) - done * WIN;
             (&& Harmless(plan, n - done * WIN, m) && faults == [] && done * WIN + m <= size && done * WIN + m <= |now|) ==>
               err.None? && HarmlessFor(plan', n - done * WIN - m)
    requires FailsAtOnce(plan) ==> err == plan[0].err && now' == now
    ensures err.None? ==> Copying(all, plan', before, now', faults', n, done + 1, good)
    ensures err.Some? ==> !good && (FailsAtOnce(all) ==> err == all[0].err && now' == before)
  {
    RestStep(n, done);
  }

  lemma CountOfWindows(n: nat, done: nat)
    requires done * WIN >= n && (done > 0 ==> (done - 1) * WIN < n)
    ensures done == WindowCount(n)
  {
  }

  /** The offset before window done: past 2^63 it has wrapped to -2^63, and only for lengths above MAX_COPY. */
  predicate OffsetAt(off: int64, n: int64, done: nat) {
    || off as int == done * WIN
    || (off as int == -TWO63 && done * WIN == TWO63 && n > MAX_COPY)
  }

  lemma NextOffset(n: int64, off: int64, done: nat)
    requires 0 <= off < n && OffsetAt(off, n, done)
    ensures OffsetAt(Wrap64(off as int + WIN), n, done + 1)
  {
  }

  lemma RemFits(n: int64, off: int64, done: nat)
    requires off < n && OffsetAt(off, n, done)
    ensures Wrap64(n as int - off as int) as int == if off >= 0 then n as int - off as int else n as int - TWO63
    ensures off < 0 ==> n > MAX_COPY && done * WIN == TWO63
  {
  }

  lemma AddsNoHoleTrans(w0: seq<(nat, Bytes)>, w1: seq<(nat, Bytes)>, w2: seq<(nat, Bytes)>)
    requires AddsNoHole(w0, w1) && AddsNoHole(w1, w2)
    ensures AddsNoHole(w0, w2)
  {
    assert w2[..|w0|] == w1[..|w0|];
    forall x | |w0| <= x < |w2| ensures !AllZero(w2[x].1) {
      if x < |w1| {
        assert w2[x] == w2[..|w1|][x];
      }
    }
  }

  function LengthOf(n: int64): nat {
    if n < 0 then 0 else n as nat
  }

  /** Nothing can fail: the answers are harmless, the devices are large enough, no write is planned to fail. */
  predicate Smooth(all: seq<Answer>, faults: seq<bool>, before: Bytes, src: Bytes, n: nat) {
    HarmlessFor(all, n) && faults == [] && n <= |src| && n <= |before|
  }

  /** Where a copy stands before its next window. */
  ghost predicate CopyGoing(all: seq<Answer>, plan: seq<Answer>, faults0: seq<bool>, faults: seq<bool>,
                            writes0: seq<(nat, Bytes)>, writes: seq<(nat, Bytes)>, before: Bytes, now: Bytes, src: Bytes,
                            n: int64, off: int64, done: nat) {
    && OffsetAt(off, n, done)
    && Copied(before, now, src, LengthOf(n), done)
    && AddsNoHole(writes0, writes)
    && Copying(all, plan, before, now, faults, LengthOf(n), done, Smooth(all, faults0, before, src, LengthOf(n)))
  }

  /** How a copy ends. */
  ghost predicate CopyDone(all: seq<Answer>, faults0: seq<bool>, writes0: seq<(nat, Bytes)>, writes: seq<(nat, Bytes)>,
                           before: Bytes, now: Bytes, src: Bytes, n: int64, done: nat, err: Option<IOError>, panics: bool) {
    var len := LengthOf(n);
    && |now| == |before|
    && (err.None? ==> len <= |src| && done == WindowCount(len) && (panics <==> n > MAX_COPY)
                      && now == SparseImage(before, src, len, done))
    && (err.Some? ==> !panics && done * WIN < len && done * WIN <= |src| && StoppedAt(before, now, src, len, done))
    // with harmless answers, short reads among them, and room for the bytes, nothing fails
    && (Smooth(all, faults0, before, src, len) ==> err.None?)
    && (OnlyShort(all) && faults0 == [] && len <= |src| && len <= |before| ==> err.None?)
    // a first read that fails stops it before anything is written
    && (FailsAtOnce(all) && n > 0 ==> err == all[0].err && now == before)
    // no all-zero window is ever written
    && AddsNoHole(writes0, writes)
  }

  lemma ShortIsSmooth(all: seq<Answer>, faults: seq<bool>, before: Bytes, src: Bytes, n: nat)
    requires OnlyShort(all) && faults == [] && n <= |src| && n <= |before|
    ensures Smooth(all, faults, before, src, n)
  {
    OnlyShortHarmless(all, n, Min(WIN, n));
  }

  lemma CopyStarts(plan: seq<Answer>, faults: seq<bool>, writes: seq<(nat, Bytes)>, data: Bytes, src: Bytes, n: int64)
    ensures CopyGoing(plan, plan, faults, faults, writes, writes, data, data, src, n, 0, 0)
  {
  }

  lemma CopyEnds(all: seq<Answer>, plan: seq<Answer>, faults0: seq<bool>, faults: seq<bool>, writes0: seq<(nat, Bytes)>,
                 writes: seq<(nat, Bytes)>, before: Bytes, now: Bytes, src: Bytes, n: int64, off: int64, done: nat)
    requires CopyGoing(all, plan, faults0, faults, writes0, writes, before, now, src, n, off, done)
    requires done * WIN >= LengthOf(n)
    ensures CopyDone(all, faults0, writes0, writes, before, now, src, n, done, None, n > MAX_COPY)
  {
    CountOfWindows(LengthOf(n), done);
  }

  lemma CopyStops(all: seq<Answer>, faults0: seq<bool>, writes0: seq<(nat, Bytes)>, writes: seq<(nat, Bytes)>,
                  before: Bytes, now: Bytes, src: Bytes, n: int64, done: nat, err: Option<IOError>)
    requires done * WIN < LengthOf(n) && done * WIN <= |src| && StoppedAt(before, now, src, LengthOf(n), done)
    requires err.Some? && !Smooth(all, faults0, before, src, LengthOf(n)) && (FailsAtOnce(all) ==> err == all[0].err && now == before)
    requires AddsNoHole(writes0, writes)
    ensures CopyDone(all, faults0, writes0, writes, before, now, src, n, done, err, false)
  {
    if OnlyShort(all) && faults0 == [] && LengthOf(n) <= |src| && LengthOf(n) <= |before| {
      ShortIsSmooth(all, faults0, before, src, LengthOf(n));
      assert false;
    }
  }

  /** The loop body, with what the whole copy promises. */
  method CopyNext(dst: Device, src: Source, buf: array<Byte>, zero: array<Byte>, n: int64, m: int64, off: int64,
                  ghost all: seq<Answer>, ghost faults0: seq<bool>, ghost writes0: seq<(nat, Bytes)>, ghost before: Bytes, ghost done: nat)
    returns (err: Option<IOError>)
    requires 0 <= off < n && m as int == Min(WIN, n as int - off as int)
    requires buf.Length == zero.Length == WIN && AllZero(zero[..m as int]) && buf != zero
    requires CopyGoing(all, src.plan, faults0, dst.faults, writes0, dst.writes, before, dst.data, src.data, n, off, done)
    modifies dst, src`plan, buf
    ensures err.None? ==> CopyGoing(all, src.plan, faults0, dst.faults, writes0, dst.writes, before, dst.data, src.data, n,
                                    Wrap64(off as int + WIN), done + 1)
    ensures err.Some? ==> CopyDone(all, faults0, writes0, dst.writes, before, dst.data, src.data, n, done, err, false)
  {
    ghost var len := LengthOf(n);
    RestStep(len, done);
    err := CopyWindow(dst, src, buf, zero, m as int, off as int, before, len, done);
    AddsNoHoleTrans(writes0, old(dst.writes), dst.writes);
    CopyingStep(all, old(src.plan), src.plan, before, old(dst.data), dst.data, old(dst.faults), dst.faults, |src.data|, len, done,
                Smooth(all, faults0, before, src.data, len), err);
    if err.Some? {
      CopyStops(all, faults0, writes0, dst.writes, before, dst.data, src.data, n, done, err);
    } else {
      NextOffset(n, off, done);
    }
  }

  /**
   * copyDevice. For a length above MAX_COPY the offset after the last window wraps to -2^63, the loop goes on and
   * buf[:m] gets a negative m: the code panics instead of returning.
   */
  method CopyDevice(dst: Device, src: Source, n: int64) returns (err: Option<IOError>, panics: bool, ghost done: nat)
    modifies dst, src`plan
    ensures CopyDone(old(src.plan), old(dst.faults), old(dst.writes), dst.writes, old(dst.data), dst.data, src.data, n, done, err, panics)
  {
    var buf := new Byte[WIN](_ => 0);
    var zero := new Byte[WIN](_ => 0);
    var off: int64 := 0;
    done := 0;
    err, panics := None, false;
    ghost var all, faults0, writes0, before := src.plan, dst.faults, dst.writes, dst.data;
    CopyStarts(all, faults0, writes0, before, src.data, n);
    while off < n
      invariant err.None? && !panics && forall i :: 0 <= i < WIN ==> zero[i] == 0
      invariant CopyGoing(all, src.plan, faults0, dst.faults, writes0, dst.writes, before, dst.data, src.data, n, off, done)
      decreases if off < 0 then 0 else n as int - off as int
    {
      var m := WIN as int64;
      var rem := Wrap64(n as int - off as int);
      RemFits(n, off, done);
      if rem < m {
        m := rem;
      }
      if m < 0 {
        CopyEnds(all, src.plan, faults0, dst.faults, writes0, dst.writes, before, dst.data, src.data, n, off, done);
        panics := true;
        return;
      }
      err := CopyNext(dst, src, buf, zero, n, m, off, all, faults0, writes0, before, done);
      if err.Some? {
        return;
      }
      done := done + 1;
      off := Wrap64(off as int + WIN);
    }
    LastOffset(n, off, done);
    CopyEnds(all, src.plan, faults0, dst.faults, writes0, dst.writes, before, dst.data, src.data, n, off, done);
  }

  /** A loop that ends has not wrapped. */
  lemma LastOffset(n: int64, off: int64, done: nat)
    requires OffsetAt(off, n, done) && off >= n
    ensures done * WIN >= LengthOf(n) && n <= MAX_COPY
  {
  }

  // ---- What the sparse image is ----

  /** A plain copy of n bytes over dst. */
  function PlainCopy(dst: Bytes, src: Bytes, n: nat): Bytes
    requires n <= |src| && n <= |dst|
  {
    src[..n] + dst[n..]
  }

  /** Byte i falls in a window of the copy that is all zeros. */
  predicate InHole(src: Bytes, n: nat, i: nat)
    requires i < n <= |src|
  {
    AllZero(Window(src, n, i / WIN))
  }

  /** What one more window changes. */
  lemma WindowStep(dst: Bytes, src: Bytes, n: nat, k: nat, i: nat)
    requires n <= |src| && 0 < k && (k - 1) * WIN < n && i < |dst|
    ensures SparseImage(dst, src, n, k)[i] ==
            if (k - 1) * WIN <= i < Min(k * WIN, n) && !AllZero(Window(src, n, k - 1)) then src[i]
            else SparseImage(dst, src, n, k - 1)[i]
  {
  }

  /** A byte of window k is in a hole exactly if window k is one. */
  lemma HoleOfWindow(src: Bytes, n: nat, k: nat, i: nat)
    requires k * WIN < n <= |src|
    ensures k * WIN <= i < Min((k + 1) * WIN, n) ==> (InHole(src, n, i) <==> AllZero(Window(src, n, k)))
  {
    if k * WIN <= i < Min((k + 1) * WIN, n) {
      assert i / WIN == k;
    }
  }

  /** After k windows, a byte is the source's if its window is done and has a non-zero byte; else it is the old one. */
  lemma {:induction false} SparseAt(dst: Bytes, src: Bytes, n: nat, k: nat, i: nat)
    requires n <= |src| && (k > 0 ==> (k - 1) * WIN < n) && i < |dst|
    ensures SparseImage(dst, src, n, k)[i] == if i < Min(k * WIN, n) && !InHole(src, n, i) then src[i] else dst[i]
  {
    if k == 0 {
    } else {
      SparseAt(dst, src, n, k - 1, i);
      WindowStep(dst, src, n, k, i);
      HoleOfWindow(src, n, k - 1, i);
    }
  }

  /** Each byte of the copy belongs to one window, which is among the counted ones. */
  lemma ByteOfWindow(src: Bytes, n: nat, i: nat)
    requires i < n <= |src|
    ensures i - i / WIN * WIN < |Window(src, n, i / WIN)| && Window(src, n, i / WIN)[i - i / WIN * WIN] == src[i]
    ensures Min(WindowCount(n) * WIN, n) == n
    ensures InHole(src, n, i) ==> src[i] == 0
  {
  }

  /** Byte by byte: a sparse copy and a plain copy differ only where a hole covers a non-zero byte of dst. */
  lemma SparseOrPlainAt(dst: Bytes, src: Bytes, n: nat, i: nat)
    requires n <= |src| && n <= |dst| && i < |dst|
    ensures SparseImage(dst, src, n, WindowCount(n))[i] == PlainCopy(dst, src, n)[i]
            <==> (i < n && InHole(src, n, i) ==> dst[i] == 0)
  {
    SparseAt(dst, src, n, WindowCount(n), i);
    if i < n {
      ByteOfWindow(src, n, i);
    }
    var hole := i < n && InHole(src, n, i);
    assert SparseImage(dst, src, n, WindowCount(n))[i] == if i < n && !hole then src[i] else dst[i];
    assert PlainCopy(dst, src, n)[i] == if i < n then src[i] else dst[i];
  }

  /**
   * A sparse copy equals a plain copy if and only if dst was already zero wherever a window of the
   * source is all zeros; in particular it does when dst is zero on the copied range.
   */
  lemma SparseIsPlainExactly(dst: Bytes, src: Bytes, n: nat)
    requires n <= |src| && n <= |dst|
    ensures SparseImage(dst, src, n, WindowCount(n)) == PlainCopy(dst, src, n)
            <==> forall i :: 0 <= i < n && InHole(src, n, i) ==> dst[i] == 0
  {
    forall i | 0 <= i < |dst|
      ensures SparseImage(dst, src, n, WindowCount(n))[i] == PlainCopy(dst, src, n)[i]
              <==> (i < n && InHole(src, n, i) ==> dst[i] == 0)
    {
      SparseOrPlainAt(dst, src, n, i);
    }
  }

  /** Into a device that is zero on [0, n) and longer: the source bytes, then what was there. */
  lemma SparseIntoZeros(dst: Bytes, src: Bytes, n: nat)
    requires n <= |src| && n <= |dst| && AllZero(dst[..n])
    ensures SparseImage(dst, src, n, WindowCount(n)) == src[..n] + dst[n..]
  {
    forall i | 0 <= i < n && InHole(src, n, i) ensures dst[i] == 0 {
      assert dst[i] == dst[..n][i];
    }
    SparseIsPlainExactly(dst, src, n);
  }

  /**
   * A copy that failed in window done, into a device that was zero on [0, n): the source before that window,
   * zeros after it up to n. A failing write may leave anything in its own window, but only if that is not all zeros.
   */
  lemma FailedCopyLeaves(before: Bytes, now: Bytes, src: Bytes, n: nat, done: nat)
    requires |now| == |before| && n <= |before| && AllZero(before[..n])
    requires done * WIN < n && done * WIN <= |src|
    requires StoppedAt(before, now, src, n, done)
    ensures now[..done * WIN] == src[..done * WIN]
    ensures forall i :: (done + 1) * WIN <= i < n ==> now[i] == 0
    ensures Min((done + 1) * WIN, n) <= |src| && AllZero(Window(src, n, done)) ==>
              forall i :: done * WIN <= i < n ==> now[i] == 0
    ensures forall i :: n <= i < |now| ==> now[i] == before[i]
  {
    DonePart(before, src, n, done);
    assert forall i :: 0 <= i < n ==> before[i] == before[..n][i];
    assert forall i :: 0 <= i < done * WIN ==> now[i] == src[i];
  }

  /** The windows before the failing one, on a device that was zero there. */
  lemma DonePart(before: Bytes, src: Bytes, n: nat, done: nat)
    requires n <= |before| && AllZero(before[..n]) && done * WIN < n && done * WIN <= |src|
    ensures SparseImage(before, src, n, done) == src[..done * WIN] + before[done * WIN..]
  {
    SameWindows(before, src, n, done * WIN, done);
    assert WindowCount(done * WIN) == done;
    assert forall i :: 0 <= i < done * WIN ==> before[..done * WIN][i] == before[..n][i];
    SparseIntoZeros(before, src, done * WIN);
  }

  /** Whole windows do not depend on the length of the copy they belong to. */
  lemma {:induction false} SameWindows(dst: Bytes, src: Bytes, n: nat, m: nat, k: nat)
    requires k * WIN <= n && k * WIN <= m && k * WIN <= |src|
    ensures SparseImage(dst, src, n, k) == SparseImage(dst, src, m, k)
  {
    if k == 0 {
    } else {
      SameWindows(dst, src, n, m, k - 1);
      assert Window(src, n, k - 1) == Window(src, m, k - 1);
    }
  }

  /** The offset after the last window fits an int64 exactly for lengths up to MAX_COPY. */
  lemma OffsetsFitExactly(n: nat)
    ensures WindowCount(n) * 0x10_0000 < 0x8000_0000_0000_0000 <==> n <= 0x7FFF_FFFF_FFF0_0000
  {
  }
}
