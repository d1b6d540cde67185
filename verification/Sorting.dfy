/** Insertion into sequences kept in strict order, and why an ordered sequence is determined by its elements. */
module Sorting {

  ghost predicate StrictOrder<T(!new)>(less: (T, T) -> bool) {
    && (forall a :: !less(a, a))
    && (forall a, b, c :: less(a, b) && less(b, c) ==> less(a, c))
  }

  ghost predicate Ordered<T>(less: (T, T) -> bool, s: seq<T>) {
    forall i, j :: 0 <= i < j < |s| ==> less(s[i], s[j])
  }

  /** The element is comparable with every element of the sequence. */
  ghost predicate Comparable<T>(less: (T, T) -> bool, s: seq<T>, x: T) {
    forall y :: y in s ==> less(x, y) || less(y, x)
  }

  function Insert<T>(less: (T, T) -> bool, s: seq<T>, x: T): seq<T> {
    if s == [] || less(x, s[0]) then [x] + s else [s[0]] + Insert(less, s[1..], x)
  }

  lemma {:induction false} InsertKeepsOrder<T(!new)>(less: (T, T) -> bool, s: seq<T>, x: T)
    requires StrictOrder(less) && Ordered(less, s) && Comparable(less, s, x)
    ensures Ordered(less, Insert(less, s, x))
    ensures |Insert(less, s, x)| == |s| + 1
    ensures forall y :: y in Insert(less, s, x) <==> y == x || y in s
  {
    if s != [] {
      assert s == [s[0]] + s[1..] && s[0] in s;
      if less(x, s[0]) {
        var r := [x] + s;
        forall j | 1 <= j < |r| ensures less(x, r[j]) {
          if j > 1 { assert less(s[0], s[j - 1]); }
        }
      } else {
        InsertKeepsOrder(less, s[1..], x);
        var tail := Insert(less, s[1..], x);
        forall j | 0 <= j < |tail| ensures less(s[0], tail[j]) {
          assert tail[j] in tail;
        }
      }
    }
  }

  lemma {:induction false} AppendIsInsert<T(!new)>(less: (T, T) -> bool, s: seq<T>, x: T)
    requires StrictOrder(less) && forall y :: y in s ==> less(y, x)
    ensures s + [x] == Insert(less, s, x)
  {
    if s != [] {
      assert s[0] in s && s == [s[0]] + s[1..];
      AppendIsInsert(less, s[1..], x);
      assert s + [x] == [s[0]] + (s[1..] + [x]);
    }
  }

  function Sort<T>(less: (T, T) -> bool, s: seq<T>): seq<T> {
    if s == [] then [] else Insert(less, Sort(less, s[1..]), s[0])
  }

  ghost predicate PairwiseComparable<T>(less: (T, T) -> bool, s: seq<T>) {
    forall i, j :: 0 <= i < j < |s| ==> less(s[i], s[j]) || less(s[j], s[i])
  }

  lemma {:induction false} SortOrders<T(!new)>(less: (T, T) -> bool, s: seq<T>)
    requires StrictOrder(less) && PairwiseComparable(less, s)
    ensures Ordered(less, Sort(less, s)) && |Sort(less, s)| == |s|
    ensures forall x :: x in Sort(less, s) <==> x in s
  {
    if s != [] {
      assert s == [s[0]] + s[1..];
      SortOrders(less, s[1..]);
      InsertKeepsOrder(less, Sort(less, s[1..]), s[0]);
    }
  }

  lemma FirstIsMember<T>(s: seq<T>)
    requires s != []
    ensures s[0] in s
  {
  }

  lemma TailMembers<T(!new)>(less: (T, T) -> bool, s: seq<T>, x: T)
    requires StrictOrder(less) && Ordered(less, s) && s != []
    ensures x in s[1..] <==> x in s && x != s[0]
    ensures x in s ==> x == s[0] || less(s[0], x)
  {
    assert s == [s[0]] + s[1..];
  }

  lemma {:induction false} OrderedUnique<T(!new)>(less: (T, T) -> bool, a: seq<T>, b: seq<T>)
    requires StrictOrder(less) && Ordered(less, a) && Ordered(less, b)
    requires forall x :: x in a <==> x in b
    ensures a == b
  {
    if a == [] {
      if b != [] {
        FirstIsMember(b);
      }
    } else {
      FirstIsMember(a);
      FirstIsMember(b);
      TailMembers(less, a, b[0]);
      TailMembers(less, b, a[0]);
      assert a[0] == b[0];
      forall x ensures x in a[1..] <==> x in b[1..] {
        TailMembers(less, a, x);
        TailMembers(less, b, x);
      }
      OrderedUnique(less, a[1..], b[1..]);
      assert a == [a[0]] + a[1..] && b == [b[0]] + b[1..];
    }
  }
}
