/** sort.Strings: code-point order on strings, and a sorted list of a finite set of names. */
module Sorting {

  /** a <= b in lexicographic order. */
  predicate Leq(a: string, b: string) {
    a == "" || (b != "" && (a[0] < b[0] || (a[0] == b[0] && Leq(a[1..], b[1..]))))
  }

  lemma {:induction false} LeqTotal(a: string, b: string)
    ensures Leq(a, b) || Leq(b, a)
    ensures Leq(a, b) && Leq(b, a) ==> a == b
  {
    if a != "" && b != "" && a[0] == b[0] {
      LeqTotal(a[1..], b[1..]);
      assert a == [a[0]] + a[1..] && b == [b[0]] + b[1..];
    }
  }

  lemma {:induction false} LeqTransitive(a: string, b: string, c: string)
    requires Leq(a, b) && Leq(b, c)
    ensures Leq(a, c)
  {
    if a != "" && a[0] == b[0] == c[0] {
      LeqTransitive(a[1..], b[1..], c[1..]);
    }
  }

  predicate Less(a: string, b: string) {
    Leq(a, b) && a != b
  }

  /** a and b agree on n characters; then a ends and b does not, or a has the smaller character. */
  predicate LessAt(a: string, b: string, n: nat) {
    n <= |a| && n < |b| && a[..n] == b[..n] && (n == |a| || a[n] < b[n])
  }

  lemma LessAtTail(a: string, b: string, n: nat)
    requires a != "" && b != "" && a[0] == b[0]
    ensures LessAt(a, b, n + 1) <==> LessAt(a[1..], b[1..], n)
  {
    if n + 1 <= |a| && n + 1 <= |b| {
      assert a[..n + 1] == [a[0]] + a[1..][..n] && b[..n + 1] == [b[0]] + b[1..][..n];
      assert a[..n + 1][1..] == a[1..][..n] && b[..n + 1][1..] == b[1..][..n];
    }
  }

  /** By the first character that differs, or by length if none does. */
  lemma {:induction false} LessExactly(a: string, b: string)
    ensures Less(a, b) <==> exists n: nat :: LessAt(a, b, n)
  {
    if a != "" && b != "" && a[0] == b[0] {
      LessExactly(a[1..], b[1..]);
      assert a == [a[0]] + a[1..] && b == [b[0]] + b[1..];
      if n: nat :| LessAt(a[1..], b[1..], n) {
        LessAtTail(a, b, n);
      }
      if n: nat :| LessAt(a, b, n) {
        LessAtTail(a, b, n - 1);
      }
    } else {
      FirstDecides(a, b);
    }
  }

  lemma AgreeFirst(a: string, b: string, n: nat)
    requires LessAt(a, b, n)
    ensures n > 0 ==> a != "" && b != "" && a[0] == b[0]
  {
    if n > 0 {
      assert a[..n][0] == b[..n][0];
    }
  }

  lemma FirstDecides(a: string, b: string)
    requires a == "" || b == "" || a[0] != b[0]
    ensures Less(a, b) <==> LessAt(a, b, 0)
    ensures forall n: nat :: LessAt(a, b, n) ==> n == 0
  {
    forall n: nat | LessAt(a, b, n) ensures n == 0 {
      AgreeFirst(a, b, n);
    }
  }

  predicate StrictlySorted(xs: seq<string>) {
    forall i, j :: 0 <= i < j < |xs| ==> Less(xs[i], xs[j])
  }

  /** xs with x put in its place. */
  function Insert(xs: seq<string>, x: string): (r: seq<string>)
    ensures forall y :: y in r <==> y == x || y in xs
  {
    if xs == [] then [x]
    else if Leq(x, xs[0]) then [x] + xs
    else
      assert forall y :: y in xs <==> y == xs[0] || y in xs[1..];
      [xs[0]] + Insert(xs[1..], x)
  }

  lemma {:induction false} InsertSorted(xs: seq<string>, x: string)
    requires StrictlySorted(xs) && x !in xs
    ensures StrictlySorted(Insert(xs, x))
  {
    if xs == [] {
    } else if Leq(x, xs[0]) {
      forall i | 0 <= i < |xs| ensures Less(x, xs[i]) {
        LeqTotal(xs[0], xs[0]);
        LeqTransitive(x, xs[0], xs[i]);
      }
    } else {
      LeqTotal(x, xs[0]);
      InsertSorted(xs[1..], x);
      var r := Insert(xs[1..], x);
      forall i | 0 <= i < |r| ensures Less(xs[0], r[i]) {
        assert r[i] in r;
        assert r[i] == x || r[i] in xs[1..];
      }
    }
  }

  /** The names of a set in order: what sort.Strings makes of any listing of it. */
  method SortedNames(names: set<string>) returns (r: seq<string>)
    ensures StrictlySorted(r)
    ensures forall x :: x in r <==> x in names
  {
    r := [];
    var left := names;
    while left != {}
      invariant StrictlySorted(r) && left <= names
      invariant forall x :: x in r <==> x in names - left
      decreases |left|
    {
      var x :| x in left;
      InsertSorted(r, x);
      r := Insert(r, x);
      left := left - {x};
    }
  }
}
