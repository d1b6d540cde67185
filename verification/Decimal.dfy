/** Decimal numerals, as template literals print integers and `Number` reads digit strings. */
module Decimal {

  predicate IsDigit(c: char) {
    '0' <= c <= '9'
  }

  predicate AllDigits(s: string) {
    forall i :: 0 <= i < |s| ==> IsDigit(s[i])
  }

  function DigitChar(d: int): (c: char)
    requires 0 <= d < 10
    ensures IsDigit(c) && DigitValue(c) == d
  {
    '0' + d as char
  }

  function DigitValue(c: char): int {
    c as int - '0' as int
  }

  function PrintNat(n: nat): (s: string)
    ensures s != [] && AllDigits(s)
  {
    if n < 10 then [DigitChar(n)] else PrintNat(n / 10) + [DigitChar(n % 10)]
  }

  function ParseNat(s: string): (n: int)
    requires AllDigits(s)
    ensures n >= 0
  {
    if s == [] then 0 else 10 * ParseNat(s[..|s| - 1]) + DigitValue(s[|s| - 1])
  }

  lemma {:induction false} ParsePrint(n: nat)
    ensures ParseNat(PrintNat(n)) == n
  {
    if n >= 10 {
      ParsePrint(n / 10);
      var s := PrintNat(n);
      assert s[..|s| - 1] == PrintNat(n / 10);
    }
  }

  function PrintInt(n: int): (s: string)
    ensures s != [] && forall i :: 0 <= i < |s| ==> IsDigit(s[i]) || s[i] == '-'
  {
    if n < 0 then "-" + PrintNat(-n) else PrintNat(n)
  }

  lemma PrintIntInjective(a: int, b: int)
    requires PrintInt(a) == PrintInt(b)
    ensures a == b
  {
    assert a < 0 <==> PrintInt(a)[0] == '-';
    assert b < 0 <==> PrintInt(b)[0] == '-';
    if a < 0 {
      assert PrintInt(a)[1..] == PrintNat(-a) && PrintInt(b)[1..] == PrintNat(-b);
      ParsePrint(-a);
      ParsePrint(-b);
    } else {
      ParsePrint(a);
      ParsePrint(b);
    }
  }

  /** A numeral has d digits exactly when it lies below 10^d; counted one digit at a time. */
  lemma {:induction false} PrintNatLength(n: nat, digits: nat)
    requires digits >= 1
    ensures |PrintNat(n)| <= digits <==> n < Pow10(digits)
    decreases digits
  {
    if n >= 10 {
      if digits > 1 {
        PrintNatLength(n / 10, digits - 1);
        assert n / 10 < Pow10(digits - 1) <==> n < 10 * Pow10(digits - 1);
      }
    } else {
      Pow10Positive(digits - 1);
    }
  }

  function Pow10(e: nat): nat {
    if e == 0 then 1 else 10 * Pow10(e - 1)
  }

  lemma {:induction false} Pow10Positive(e: nat)
    ensures Pow10(e) >= 1
  {
    if e > 0 { Pow10Positive(e - 1); }
  }

  // ------------------------------------------------ text joined by a separator ---

  lemma FirstSeparator(a: string, x: string, separator: char)
    requires separator !in a
    ensures (a + [separator] + x)[|a|] == separator
    ensures forall i :: 0 <= i < |a| ==> (a + [separator] + x)[i] != separator
    ensures (a + [separator] + x)[..|a|] == a && (a + [separator] + x)[|a| + 1..] == x
  {
  }

  /** Splitting at the first separator undoes joining, when the left part holds no separator. */
  lemma JoinInjective(a: string, b: string, x: string, y: string, separator: char)
    requires separator !in a && separator !in b
    requires a + [separator] + x == b + [separator] + y
    ensures a == b && x == y
  {
    FirstSeparator(a, x, separator);
    FirstSeparator(b, y, separator);
  }

  /** `indexOf`, of a string or of an array. */
  function IndexOf<T(==)>(s: seq<T>, x: T): (i: int)
    ensures -1 <= i < |s|
    ensures i >= 0 ==> s[i] == x
    ensures i == -1 ==> x !in s
  {
    if s == [] then -1
    else if s[0] == x then 0
    else
      var i := IndexOf(s[1..], x);
      assert s == [s[0]] + s[1..];
      if i == -1 then -1 else i + 1
  }

  lemma {:induction false} IndexOfSeparator(head: string, tail: string, separator: char)
    requires separator !in head
    ensures IndexOf(head + [separator] + tail, separator) == |head|
  {
    if head != [] {
      IndexOfSeparator(head[1..], tail, separator);
      assert head == [head[0]] + head[1..];
      assert (head + [separator] + tail)[1..] == head[1..] + [separator] + tail;
    }
  }
}
