/** Finite sets of instants and their ascending listings. */
module Ticks {
  import opened Sorting

  lemma SomeMember<T>(s: set<T>) returns (x: T)
    requires s != {}
    ensures x in s
  {
    x :| x in s;
  }

  lemma {:induction false} LeastExists(s: set<int>) returns (m: int)
    requires s != {}
    ensures m in s && forall x :: x in s ==> m <= x
  {
    m := SomeMember(s);
    if s != {m} {
      var rest := s - {m};
      assert rest != {};
      var least := LeastExists(rest);
      assert forall x :: x in s ==> x == m || x in rest;
      m := if m < least then m else least;
    }
  }

  function Least(s: set<int>): (m: int)
    requires s != {}
    ensures m in s && forall x :: x in s ==> m <= x
  {
    assert exists m :: m in s && forall x :: x in s ==> m <= x by {
      var m := LeastExists(s);
    }
    var m :| m in s && forall x :: x in s ==> m <= x;
    m
  }

  ghost predicate Ascending(ticks: seq<int>) {
    forall i, j :: 0 <= i < j < |ticks| ==> ticks[i] < ticks[j]
  }

  /** The elements of a set in ascending order, as spreading a Set into a sorted array gives. */
  function Sorted(s: set<int>): (r: seq<int>)
    ensures Ascending(r)
    ensures |r| == |s|
    ensures forall x :: x in r <==> x in s
  {
    if s == {} then [] else
      var m := Least(s);
      [m] + Sorted(s - {m})
  }

  predicate Earlier(a: int, b: int) {
    a < b
  }

  /** An ascending sequence is determined by its elements. */
  lemma AscendingUnique(a: seq<int>, b: seq<int>)
    requires Ascending(a) && Ascending(b)
    requires forall x :: x in a <==> x in b
    ensures a == b
  {
    assert forall x: int :: x in a <==> x in b;
    OrderedUnique<int>(Earlier, a, b);
  }

  // --------------------------------------------------------------- sorting ticks ---

  predicate InOrder(s: seq<int>) {
    forall i, j :: 0 <= i < j < |s| ==> s[i] <= s[j]
  }

  lemma {:induction false} InsertAdds(s: seq<int>, x: int)
    ensures multiset(Insert(Earlier, s, x)) == multiset(s) + multiset{x}
  {
    if s != [] && x >= s[0] {
      InsertAdds(s[1..], x);
      hide Insert;
      assert s == [s[0]] + s[1..];
    }
  }

  lemma PrependInOrder(x: int, s: seq<int>)
    requires InOrder(s) && forall y :: y in s ==> x <= y
    ensures InOrder([x] + s)
  {
    assert forall j :: 0 <= j < |s| ==> s[j] in s;
  }

  lemma AddedMember(s: seq<int>, x: int, y: int)
    requires y in Insert(Earlier, s, x)
    ensures y == x || y in s
  {
    InsertAdds(s, x);
    hide Insert;
    assert y in multiset(Insert(Earlier, s, x));
  }

  lemma {:induction false} InsertInOrder(s: seq<int>, x: int)
    requires InOrder(s)
    ensures InOrder(Insert(Earlier, s, x))
  {
    if s == [] || x < s[0] {
      forall y | y in s ensures x <= y {
        var i :| 0 <= i < |s| && s[i] == y;
      }
      PrependInOrder(x, s);
    } else {
      var tail := Insert(Earlier, s[1..], x);
      InsertInOrder(s[1..], x);
      forall y | y in tail ensures s[0] <= y {
        AddedMember(s[1..], x, y);
      }
      hide InOrder;
      PrependInOrder(s[0], tail);
    }
  }

  /** Sorting leaves the same ticks, duplicates included, in order. */
  lemma {:induction false} SortedInOrder(s: seq<int>)
    ensures InOrder(Sort(Earlier, s)) && multiset(Sort(Earlier, s)) == multiset(s)
  {
    if s != [] {
      assert s == [s[0]] + s[1..];
      SortedInOrder(s[1..]);
      hide Insert;
      InsertInOrder(Sort(Earlier, s[1..]), s[0]);
      InsertAdds(Sort(Earlier, s[1..]), s[0]);
    }
  }

  /** Ascending ticks are sorted already. */
  lemma SortKeepsAscending(s: seq<int>)
    requires Ascending(s)
    ensures Sort(Earlier, s) == s
  {
    SortOrders(Earlier, s);
    AscendingUnique(Sort(Earlier, s), s);
  }

  lemma {:induction false} SubsetSize<T>(a: set<T>, b: set<T>)
    requires a <= b
    ensures |a| <= |b|
  {
    if a != {} {
      var x := SomeMember(a);
      SubsetSize(a - {x}, b - {x});
    }
  }
}
