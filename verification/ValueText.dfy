/** `deepEqual` as it is written: two values are equal when their key-sorted copies print alike. */
module ValueText {
  import opened Json
  import opened JsonSchema
  import opened Sorting
  import opened Ordering
  import D = Digest
  import E = Encoding

  // --------------------------------------------------------------------- strings ---

  /** The UTF-16 code units of a character. */
  function UnitsOf(c: char): Json.Text {
    var n := c as int;
    if n < 0x1_0000 then [n] else [0xD800 + (n - 0x1_0000) / 0x400, 0xDC00 + (n - 0x1_0000) % 0x400]
  }

  function Units(s: string): Json.Text {
    if s == [] then [] else UnitsOf(s[0]) + Units(s[1..])
  }

  lemma UnitsOfInjective(a: char, b: char, s: Json.Text, t: Json.Text)
    requires UnitsOf(a) + s == UnitsOf(b) + t
    ensures a == b && s == t
  {
    var x, y := UnitsOf(a) + s, UnitsOf(b) + t;
    assert x[0] == UnitsOf(a)[0] && y[0] == UnitsOf(b)[0];
    assert IsHighSurrogate(x[0]) <==> |UnitsOf(a)| == 2;
    assert IsHighSurrogate(y[0]) <==> |UnitsOf(b)| == 2;
    assert x[|UnitsOf(a)|..] == s && y[|UnitsOf(b)|..] == t;
    if |UnitsOf(a)| == 2 {
      assert x[1] == UnitsOf(a)[1] && y[1] == UnitsOf(b)[1];
    }
    assert a as int == b as int;
  }

  lemma {:induction false} UnitsInjective(a: string, b: string)
    requires Units(a) == Units(b)
    ensures a == b
  {
    if a != [] && b != [] {
      UnitsOfInjective(a[0], b[0], Units(a[1..]), Units(b[1..]));
      UnitsInjective(a[1..], b[1..]);
      assert a == [a[0]] + a[1..] && b == [b[0]] + b[1..];
    }
  }

  /** The text encoder, given the code units of a string, hashes its very characters. */
  lemma {:induction false} EncoderReadsCharacters(s: string)
    ensures E.Scalars(Units(s)) == CodesOf(s)
  {
    if s != [] {
      EncoderReadsCharacters(s[1..]);
      EncoderReadsOne(s[0], Units(s[1..]));
      assert CodesOf(s) == [s[0] as int] + CodesOf(s[1..]);
    }
  }

  lemma EncoderReadsOne(c: char, rest: Json.Text)
    ensures E.Scalars(UnitsOf(c) + rest) == [c as int] + E.Scalars(rest)
  {
    var text := UnitsOf(c) + rest;
    if |UnitsOf(c)| == 2 {
      assert text[2..] == rest && text[0] == UnitsOf(c)[0] && text[1] == UnitsOf(c)[1];
      assert E.IsPair(text) && E.ScalarOfPair(text[0], text[1]) == c as int;
    } else {
      assert text[1..] == rest && text[0] == c as int;
    }
  }

  // --------------------------------------------------------------------- numbers ---

  /** The numbers of the machine and the text `Number::toString` gives each of them. */
  datatype Numerals = Numerals(isNumber: real -> bool, text: real -> Json.Text)

  /** Number::toString of ECMA-262: a number has a numeral, and no other number has the same. */
  ghost predicate TellsNumbersApart(p: Numerals) {
    && (forall x :: p.isNumber(x) ==> IsNumberText(p.text(x)))
    && (forall x, y :: p.isNumber(x) && p.isNumber(y) && p.text(x) == p.text(y) ==> x == y)
  }

  predicate OfNumbers(p: Numerals, v: Value)
    decreases v
  {
    match v
    case Number(n) => p.isNumber(n)
    case Array(items) => forall i :: 0 <= i < |items| ==> OfNumbers(p, items[i])
    case Object(members) => forall i :: 0 <= i < |members| ==> OfNumbers(p, members[i].value)
    case _ => true
  }

  // --------------------------------------------------------------------- printing ---

  /** The value as `JSON.stringify` sees it: the members of an object in the order of their enumeration. */
  function Enumerated(p: Numerals, v: Value): Canon
    decreases v
  {
    match v
    case Null => CNull
    case Bool(b) => CBool(b)
    case Number(n) => CNumber(p.text(n))
    case Text(s) => CString(Units(s))
    case Array(items) => CArray(EnumeratedItems(p, items))
    case Object(members) => CObject(Sort(D.MemberLess, EnumeratedMembers(p, members)))
  }

  function EnumeratedItems(p: Numerals, items: seq<Value>): (r: seq<Canon>)
    ensures |r| == |items| && forall i :: 0 <= i < |items| ==> r[i] == Enumerated(p, items[i])
    decreases items
  {
    if items == [] then [] else [Enumerated(p, items[0])] + EnumeratedItems(p, items[1..])
  }

  function EnumeratedMembers(p: Numerals, members: seq<Member>): (r: seq<CMember>)
    ensures |r| == |members|
    ensures forall i :: 0 <= i < |members| ==> r[i] == CMember(Units(members[i].key), Enumerated(p, members[i].value))
    decreases members
  {
    if members == [] then []
    else [CMember(Units(members[0].key), Enumerated(p, members[0].value))] + EnumeratedMembers(p, members[1..])
  }

  function Printed(p: Numerals, v: Value): Json.Text {
    Print(Enumerated(p, Canonical(v)))
  }

  // ------------------------------------------------------------------ key-sorted values ---

  /** Every object lists its members by ascending keys. */
  ghost predicate KeySorted(v: Value)
    decreases v
  {
    match v
    case Array(items) => forall i :: 0 <= i < |items| ==> KeySorted(items[i])
    case Object(members) =>
      Ordered(MemberLess, members) && forall i :: 0 <= i < |members| ==> KeySorted(members[i].value)
    case _ => true
  }

  lemma {:induction false} CanonicalIsKeySorted(p: Numerals, v: Value)
    requires WellFormed(v) && OfNumbers(p, v)
    ensures KeySorted(Canonical(v)) && OfNumbers(p, Canonical(v))
    decreases v
  {
    match v
    case Array(items) =>
      forall i | 0 <= i < |items|
        ensures KeySorted(CanonicalItems(items)[i]) && OfNumbers(p, CanonicalItems(items)[i])
      {
        CanonicalItemsAt(items, i);
        CanonicalIsKeySorted(p, items[i]);
      }
    case Object(members) =>
      CanonicalMembersSorted(members);
      var sorted := Sort(MemberLess, CanonicalMembers(members));
      forall k | 0 <= k < |sorted| ensures KeySorted(sorted[k].value) && OfNumbers(p, sorted[k].value) {
        assert sorted[k] in sorted;
        var i :| 0 <= i < |members| && sorted[k] == Copy(members[i]);
        CanonicalIsKeySorted(p, members[i].value);
      }
    case _ =>
  }

  lemma KeysDiffer(members: seq<Member>)
    requires Ordered(MemberLess, members)
    ensures DistinctKeys(members)
  {
    MemberLessIsStrict();
    hide MemberLess;
    forall i, j | 0 <= i < j < |members| ensures members[i].key != members[j].key {
      if members[i].key == members[j].key {
        SameKeyNotLess(members[i], members[j]);
      }
    }
  }

  lemma SameKeyNotLess(a: Member, b: Member)
    requires a.key == b.key
    ensures !MemberLess(a, b)
  {
    MemberLessIsStrict();
    assert MemberLess(a, b) == MemberLess(a, a);
  }

  lemma EnumerationLists(p: Numerals, members: seq<Member>)
    requires DistinctKeys(members)
    ensures forall c :: c in Sort(D.MemberLess, EnumeratedMembers(p, members)) <==>
              c in EnumeratedMembers(p, members)
  {
    hide Enumerated, D.KeyLess;
    var listed := EnumeratedMembers(p, members);
    D.MemberLessIsStrict();
    forall i, j | 0 <= i < j < |listed| ensures D.MemberLess(listed[i], listed[j]) || D.MemberLess(listed[j], listed[i]) {
      if listed[i].key == listed[j].key {
        UnitsInjective(members[i].key, members[j].key);
      }
      D.KeyOrder(listed[i].key, listed[j].key, listed[i].key);
    }
    SortOrders(D.MemberLess, listed);
  }

  /** The printed form of key-sorted values tells them apart. */
  lemma {:induction false} EnumeratedInjective(p: Numerals, a: Value, b: Value)
    requires TellsNumbersApart(p) && OfNumbers(p, a) && OfNumbers(p, b) && KeySorted(a) && KeySorted(b)
    requires Enumerated(p, a) == Enumerated(p, b)
    ensures a == b
    decreases a
  {
    match a
    case Text(s) => UnitsInjective(s, b.s);
    case Array(items) =>
      var x, y := EnumeratedItems(p, items), EnumeratedItems(p, b.items);
      assert x == y;
      forall i | 0 <= i < |items| ensures items[i] == b.items[i] {
        assert x[i] == y[i];
        EnumeratedInjective(p, items[i], b.items[i]);
      }
    case Object(members) =>
      forall i, j | 0 <= i < |members| && 0 <= j < |b.members| &&
                    Enumerated(p, members[i].value) == Enumerated(p, b.members[j].value)
        ensures members[i].value == b.members[j].value
      {
        EnumeratedInjective(p, members[i].value, b.members[j].value);
      }
      SameEnumerationSameMembers(p, members, b.members);
    case _ =>
  }

  ghost predicate ValuesAgree(p: Numerals, a: seq<Member>, b: seq<Member>) {
    forall i, j :: 0 <= i < |a| && 0 <= j < |b| && Enumerated(p, a[i].value) == Enumerated(p, b[j].value) ==>
      a[i].value == b[j].value
  }

  lemma MemberCarriesOver(p: Numerals, a: seq<Member>, b: seq<Member>, m: Member)
    requires ValuesAgree(p, a, b) && m in a
    requires forall c :: c in EnumeratedMembers(p, a) ==> c in EnumeratedMembers(p, b)
    ensures m in b
  {
    hide Enumerated;
    var x, y := EnumeratedMembers(p, a), EnumeratedMembers(p, b);
    var i :| 0 <= i < |a| && a[i] == m;
    assert x[i] in x;
    var j :| 0 <= j < |y| && y[j] == x[i];
    UnitsInjective(a[i].key, b[j].key);
    assert b[j] == m;
  }

  lemma SameEnumerationSameMembers(p: Numerals, a: seq<Member>, b: seq<Member>)
    requires Ordered(MemberLess, a) && Ordered(MemberLess, b) && ValuesAgree(p, a, b)
    requires Sort(D.MemberLess, EnumeratedMembers(p, a)) == Sort(D.MemberLess, EnumeratedMembers(p, b))
    ensures a == b
  {
    hide Enumerated, EnumeratedMembers, MemberLess, Sort;
    KeysDiffer(a);
    KeysDiffer(b);
    EnumerationLists(p, a);
    EnumerationLists(p, b);
    forall m ensures m in a <==> m in b {
      if m in a { MemberCarriesOver(p, a, b, m); }
      if m in b { MemberCarriesOver(p, b, a, m); }
    }
    MemberLessIsStrict();
    OrderedUnique(MemberLess, a, b);
  }

  lemma {:induction false} EnumeratedHoldsNumerals(p: Numerals, v: Value)
    requires TellsNumbersApart(p) && OfNumbers(p, v) && KeySorted(v)
    ensures NumbersAreText(Enumerated(p, v))
    decreases v
  {
    match v
    case Array(items) =>
      forall i | 0 <= i < |items| ensures NumbersAreText(EnumeratedItems(p, items)[i]) {
        EnumeratedHoldsNumerals(p, items[i]);
      }
    case Object(members) =>
      KeysDiffer(members);
      EnumerationLists(p, members);
      var listed := EnumeratedMembers(p, members);
      var sorted := Sort(D.MemberLess, listed);
      forall k | 0 <= k < |sorted| ensures NumbersAreText(sorted[k].value) {
        assert sorted[k] in sorted;
        var i :| 0 <= i < |listed| && listed[i] == sorted[k];
        EnumeratedHoldsNumerals(p, members[i].value);
      }
    case _ =>
  }

  /** Two values print alike exactly when they are equal up to the order of keys. */
  lemma PrintedAlikeIffSame(p: Numerals, a: Value, b: Value)
    requires TellsNumbersApart(p) && OfNumbers(p, a) && OfNumbers(p, b) && WellFormed(a) && WellFormed(b)
    ensures Printed(p, a) == Printed(p, b) <==> SameValue(a, b)
  {
    hide Canonical, Enumerated, SameValue, Print;
    DeepEqualIffSame(a, b);
    CanonicalIsKeySorted(p, a);
    CanonicalIsKeySorted(p, b);
    if Printed(p, a) == Printed(p, b) {
      EnumeratedHoldsNumerals(p, Canonical(a));
      EnumeratedHoldsNumerals(p, Canonical(b));
      PrintInjective(Enumerated(p, Canonical(a)), Enumerated(p, Canonical(b)));
      EnumeratedInjective(p, Canonical(a), Canonical(b));
    }
  }
}
