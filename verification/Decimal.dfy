/** Decimal printing of integers (strconv.Itoa, %d) and its inverse. */
module Decimal {
  import opened Wrappers

  function Digit(d: nat): char
    requires d < 10
  {
    "0123456789"[d]
  }

  predicate IsDigit(c: char) {
    '0' <= c <= '9'
  }

  function DigitValue(c: char): nat
    requires IsDigit(c)
  {
    c as nat - '0' as nat
  }

  predicate AllDigits(s: string) {
    forall i :: 0 <= i < |s| ==> IsDigit(s[i])
  }

  function PrintNat(n: nat): (s: string)
    ensures s != "" && AllDigits(s)
  {
    if n < 10 then [Digit(n)] else PrintNat(n / 10) + [Digit(n % 10)]
  }

  function Itoa(n: int): string {
    if n < 0 then "-" + PrintNat(-n) else PrintNat(n)
  }

  function ValueOf(s: string): nat
    requires AllDigits(s)
  {
    if s == "" then 0 else 10 * ValueOf(s[..|s| - 1]) + DigitValue(s[|s| - 1])
  }

  function Atoi(s: string): Option<int> {
    if s != "" && AllDigits(s) then Some(ValueOf(s))
    else if |s| > 1 && s[0] == '-' && AllDigits(s[1..]) then Some(-(ValueOf(s[1..]) as int))
    else None
  }

  lemma {:induction false} ValueOfPrint(n: nat)
    ensures ValueOf(PrintNat(n)) == n
  {
    if n < 10 {
      assert PrintNat(n)[..0] == "";
    } else {
      ValueOfPrint(n / 10);
      var s := PrintNat(n);
      assert s[..|s| - 1] == PrintNat(n / 10);
    }
  }

  lemma AtoiDigits(digits: string)
    requires digits != "" && AllDigits(digits)
    ensures Atoi(digits) == Some(ValueOf(digits))
    ensures Atoi("-" + digits) == Some(-(ValueOf(digits) as int))
  {
    var s := "-" + digits;
    assert s[1..] == digits && s[0] == '-';
  }

  /** Reading a printed integer gives it back, so printing is injective. */
  lemma AtoiOfItoa(n: int)
    ensures Atoi(Itoa(n)) == Some(n)
  {
    var m := if n < 0 then -n else n;
    ValueOfPrint(m);
    AtoiDigits(PrintNat(m));
  }

  lemma ItoaInjective(m: int, n: int)
    requires Itoa(m) == Itoa(n)
    ensures m == n
  {
    AtoiOfItoa(m);
    AtoiOfItoa(n);
  }

  /** A printed integer is digits, perhaps after a minus sign. */
  lemma ItoaChars(n: int, c: char)
    requires !IsDigit(c) && c != '-'
    ensures c !in Itoa(n)
  {
    if n < 0 {
      assert forall i :: 0 < i < |Itoa(n)| ==> Itoa(n)[i] == PrintNat(-n)[i - 1];
    }
  }

  /** The digits are the decimal ones, most significant first, after a '-' for a negative number. */
  lemma DecimalDigits(d: nat)
    requires d < 10
    ensures Itoa(d) == ['0' + d as char]
    ensures Itoa(120) == "120" && Itoa(-1024) == "-1024"
  {
    assert PrintNat(12) == "12" && PrintNat(10) == "10" && PrintNat(102) == "102";
  }

  /** One more digit, at the end. */
  lemma NextDigit(n: nat, d: nat)
    requires n > 0 && d < 10
    ensures Itoa(10 * n + d) == Itoa(n) + Itoa(d)
  {
  }
}
