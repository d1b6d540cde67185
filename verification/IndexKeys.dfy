/** Array indices among property keys: which texts they are, and that they are enumerated by value. */
module IndexKeys {
  import opened Digest
  import opened Json
  import opened Ordering

  function Pow10(e: nat): (p: nat)
    ensures p >= 1
  {
    if e == 0 then 1 else 10 * Pow10(e - 1)
  }

  /** The numeral of a number, as Number::toString writes it. */
  function Numeral(n: nat): Text {
    if n < 10 then [0x30 + n] else Numeral(n / 10) + [0x30 + n % 10]
  }

  function ValueOf(k: Text): nat
    requires AllDigits(k)
  {
    if k == [] then 0 else 10 * ValueOf(k[..|k| - 1]) + (k[|k| - 1] - 0x30)
  }

  /** Digits without a leading zero. */
  predicate IsNumeral(k: Text) {
    k != [] && AllDigits(k) && (|k| > 1 ==> k[0] != 0x30)
  }

  lemma {:induction false} NumeralReads(n: nat)
    ensures IsNumeral(Numeral(n)) && ValueOf(Numeral(n)) == n
    ensures n > 0 ==> Numeral(n)[0] != 0x30
  {
    if n >= 10 {
      NumeralReads(n / 10);
      var k := Numeral(n);
      assert k[..|k| - 1] == Numeral(n / 10);
    }
  }

  lemma {:induction false} NumeralOfValue(k: Text)
    requires IsNumeral(k)
    ensures Numeral(ValueOf(k)) == k
    decreases |k|
  {
    if |k| == 1 {
      assert k[..0] == [];
    } else {
      var front := k[..|k| - 1];
      NumeralOfValue(front);
      PositiveNumeral(front);
      assert k == front + [k[|k| - 1]];
    }
  }

  lemma {:induction false} PositiveNumeral(k: Text)
    requires AllDigits(k) && k != [] && k[0] != 0x30
    ensures Pow10(|k| - 1) <= ValueOf(k)
    decreases |k|
  {
    if |k| > 1 {
      PositiveNumeral(k[..|k| - 1]);
    } else {
      assert k[..0] == [];
    }
  }

  /** The first digit weighs most. */
  lemma {:induction false} ValueByHead(k: Text)
    requires AllDigits(k) && k != []
    ensures ValueOf(k) == (k[0] - 0x30) * Pow10(|k| - 1) + ValueOf(k[1..])
    decreases |k|
  {
    if |k| > 1 {
      var front := k[..|k| - 1];
      ValueByHead(front);
      assert k[1..][..|k[1..]| - 1] == front[1..] && front[0] == k[0];
      NextPower(|k| - 2, k[0] - 0x30);
      hide Pow10;
    } else {
      assert k[..0] == [] && k[1..] == [];
    }
  }

  lemma NextPower(e: nat, d: int)
    ensures d * Pow10(e + 1) == 10 * (d * Pow10(e))
  {
  }

  lemma {:induction false} ValueBounded(k: Text)
    requires AllDigits(k)
    ensures ValueOf(k) < Pow10(|k|)
    decreases |k|
  {
    if k != [] { ValueBounded(k[..|k| - 1]); }
  }

  lemma {:induction false} SameLengthByValue(a: Text, b: Text)
    requires AllDigits(a) && AllDigits(b) && |a| == |b|
    ensures LexLess(a, b) <==> ValueOf(a) < ValueOf(b)
    decreases |a|
  {
    if a != [] {
      ValueByHead(a);
      ValueByHead(b);
      ValueBounded(a[1..]);
      ValueBounded(b[1..]);
      SameLengthByValue(a[1..], b[1..]);
      var x, y, p := a[0] - 0x30, b[0] - 0x30, Pow10(|a| - 1);
      HeadDecides(x, y, p, ValueOf(a[1..]), ValueOf(b[1..]));
      HeadDecides(y, x, p, ValueOf(b[1..]), ValueOf(a[1..]));
      assert LexLess(a, b) <==> x < y || (x == y && LexLess(a[1..], b[1..]));
      hide ValueOf, Pow10, LexLess;
    }
  }

  lemma HeadDecides(x: int, y: int, p: int, r: int, q: int)
    requires 0 <= r < p && 0 <= q < p
    ensures x < y ==> x * p + r < y * p + q
    ensures x == y ==> (x * p + r < y * p + q <==> r < q)
  {
    if x < y {
      assert (x + 1) * p <= y * p;
    }
  }

  lemma {:induction false} Pow10Grows(a: nat, b: nat)
    requires a <= b
    ensures Pow10(a) <= Pow10(b)
  {
    if a < b { Pow10Grows(a, b - 1); }
  }

  lemma ShorterIsLess(a: Text, b: Text)
    requires IsNumeral(a) && IsNumeral(b) && |a| < |b|
    ensures ValueOf(a) < ValueOf(b)
  {
    ValueBounded(a);
    PositiveNumeral(b);
    Pow10Grows(|a|, |b| - 1);
  }

  /** Numerals compare by length first. */
  lemma NumeralsByValue(a: Text, b: Text)
    requires IsNumeral(a) && IsNumeral(b)
    ensures |a| < |b| || (|a| == |b| && LexLess(a, b)) <==> ValueOf(a) < ValueOf(b)
  {
    if |a| < |b| {
      ShorterIsLess(a, b);
    } else if |b| < |a| {
      ShorterIsLess(b, a);
    } else {
      SameLengthByValue(a, b);
    }
  }

  function Digit(k: Text, i: nat): int
    requires i < |k|
  {
    k[i] as int - 0x30
  }

  lemma OneMoreDigit(k: Text, n: nat)
    requires AllDigits(k) && n < |k|
    ensures ValueOf(k[..n + 1]) == 10 * ValueOf(k[..n]) + Digit(k, n)
  {
    assert k[..n + 1][..n] == k[..n];
  }

  lemma FiveDigits(k: Text, from: nat)
    requires AllDigits(k) && from + 5 <= |k|
    ensures ValueOf(k[..from + 5])
         == 100000 * ValueOf(k[..from]) + 10000 * Digit(k, from) + 1000 * Digit(k, from + 1) + 100 * Digit(k, from + 2)
            + 10 * Digit(k, from + 3) + Digit(k, from + 4)
  {
    hide ValueOf;
    OneMoreDigit(k, from);
    OneMoreDigit(k, from + 1);
    OneMoreDigit(k, from + 2);
    OneMoreDigit(k, from + 3);
    OneMoreDigit(k, from + 4);
  }

  lemma TenDigits(k: Text)
    requires AllDigits(k) && |k| == 10
    ensures var high := 10000 * Digit(k, 0) + 1000 * Digit(k, 1) + 100 * Digit(k, 2) + 10 * Digit(k, 3) + Digit(k, 4);
      var low := 10000 * Digit(k, 5) + 1000 * Digit(k, 6) + 100 * Digit(k, 7) + 10 * Digit(k, 8) + Digit(k, 9);
      ValueOf(k) == 100000 * high + low
  {
    NoDigits();
    hide ValueOf;
    assert k[..0] == [] && k[..10] == k;
    FiveDigits(k, 0);
    FiveDigits(k, 5);
  }

  lemma MaxIndexReads()
    ensures IsNumeral(MAX_INDEX) && ValueOf(MAX_INDEX) == 0xFFFF_FFFF
  {
    hide ValueOf;
    TenDigits(MAX_INDEX);
  }

  lemma NoDigits()
    ensures ValueOf([]) == 0
  {
  }

  /** Section 6.1.7 of ECMA-262: an array index is the numeral of an integer below 2^32 - 1. */
  lemma ArrayIndexIff(k: Text)
    ensures IsArrayIndex(k) <==> exists n: nat :: n < 0xFFFF_FFFF && k == Numeral(n)
  {
    MaxIndexReads();
    hide Numeral, ValueOf, LexLess;
    if IsNumeral(k) {
      NumeralOfValue(k);
      NumeralsByValue(k, MAX_INDEX);
    }
    forall n: nat | k == Numeral(n) ensures IsNumeral(k) && ValueOf(k) == n {
      NumeralReads(n);
    }
  }

  /** Keys that are array indices are enumerated before all others and by their value. */
  lemma IndicesComeFirst(a: Text, b: Text)
    ensures IsArrayIndex(a) && IsArrayIndex(b) ==> (KeyLess(a, b) <==> ValueOf(a) < ValueOf(b))
    ensures IsArrayIndex(a) && !IsArrayIndex(b) ==> KeyLess(a, b)
    ensures !IsArrayIndex(a) && !IsArrayIndex(b) ==> (KeyLess(a, b) <==> LexLess(a, b))
  {
    hide LexLess;
    if IsArrayIndex(a) && IsArrayIndex(b) {
      NumeralsByValue(a, b);
    }
  }
}
