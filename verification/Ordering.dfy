/** Lexicographic order on sequences of code units, the order in which strings are compared. */
module Ordering {

  type Codes = seq<int>

  predicate LexLess(a: Codes, b: Codes) {
    b != [] && (a == [] || a[0] < b[0] || (a[0] == b[0] && LexLess(a[1..], b[1..])))
  }

  lemma {:induction false} LexIrreflexive(a: Codes)
    ensures !LexLess(a, a)
  {
    if a != [] { LexIrreflexive(a[1..]); }
  }

  lemma {:induction false} LexTotal(a: Codes, b: Codes)
    ensures LexLess(a, b) || a == b || LexLess(b, a)
  {
    if a != [] && b != [] && a[0] == b[0] {
      LexTotal(a[1..], b[1..]);
      assert a == [a[0]] + a[1..] && b == [b[0]] + b[1..];
    }
  }

  lemma {:induction false} LexTransitive(a: Codes, b: Codes, c: Codes)
    requires LexLess(a, b) && LexLess(b, c)
    ensures LexLess(a, c)
  {
    if a != [] && a[0] == b[0] == c[0] {
      LexTransitive(a[1..], b[1..], c[1..]);
    }
  }

  function CodesOf(s: string): Codes {
    seq(|s|, i requires 0 <= i < |s| => s[i] as int)
  }

  lemma CodesInjective(a: string, b: string)
    requires CodesOf(a) == CodesOf(b)
    ensures a == b
  {
    assert |a| == |CodesOf(a)| == |b|;
    assert forall i :: 0 <= i < |a| ==> a[i] as int == CodesOf(a)[i] && b[i] as int == CodesOf(b)[i];
  }
}
