/** The recursion that builds a canonical value step by step, proved to give the canonical form. */
module Canonicalizer {
  import opened Digest
  import opened Json
  import opened Options
  import opened Ordering
  import opened Sorting

  // ---------------------------------------------------------- Object.keys().sort() ---

  predicate SourceLess(a: Member, b: Member) {
    LexLess(a.key, b.key)
  }

  lemma SourceLessIsStrict()
    ensures StrictOrder(SourceLess)
  {
    hide LexLess;
    forall a: Member ensures !SourceLess(a, a) {
      LexIrreflexive(a.key);
    }
    forall a: Member, b: Member, c: Member | SourceLess(a, b) && SourceLess(b, c) ensures SourceLess(a, c) {
      LexTransitive(a.key, b.key, c.key);
    }
  }

  /** The members of an object in the code-unit order of their keys. */
  function SortByKey(members: seq<Member>): seq<Member> {
    Sort(SourceLess, members)
  }

  lemma SortByKeySorts(members: seq<Member>)
    requires DistinctKeys(members)
    ensures Ordered(SourceLess, SortByKey(members))
    ensures forall x :: x in SortByKey(members) <==> x in members
  {
    hide LexLess;
    SourceLessIsStrict();
    forall i, j | 0 <= i < j < |members| ensures SourceLess(members[i], members[j]) || SourceLess(members[j], members[i]) {
      LexTotal(members[i].key, members[j].key);
    }
    SortOrders(SourceLess, members);
  }

  // ------------------------------------------------------------------ out[key] = value ---

  /** The enumeration of `out` after `out[key] = value` for a key it does not have: an array index goes among
      the array indices in ascending order, any other key goes last, and `__proto__` makes no property. */
  function SetProperty(out: seq<CMember>, m: CMember): seq<CMember> {
    if m.key == PROTO then out
    else if IsArrayIndex(m.key) then Insert(MemberLess, out, m)
    else out + [m]
  }

  /** Adding the next key in code-unit order keeps the listing of what was added so far. */
  lemma SetPropertyKeepsListing(sorted: seq<Member>, i: nat, out: seq<CMember>, c: Canon)
    requires Ordered(SourceLess, sorted) && i < |sorted| && !sorted[i].value.JUndefined?
    requires CanonicalListing(sorted[..i], out) && Canonicalize(sorted[i].value) == Some(c)
    ensures CanonicalListing(sorted[..i + 1], SetProperty(out, CMember(sorted[i].key, c)))
  {
    hide Canonicalize, LexLess, Insert, IsArrayIndex;
    var m := CMember(sorted[i].key, c);
    forall k | 0 <= k < |out|
      ensures out[k].key != m.key && (!IsArrayIndex(m.key) ==> KeyLess(out[k].key, m.key))
    {
      assert out[k] in out;
      var j :| 0 <= j < i && CanonicalOf(sorted[..i][j], out[k]);
      assert SourceLess(sorted[j], sorted[i]);
      LexIrreflexive(m.key);
    }
    if m.key != PROTO {
      MemberLessIsStrict();
      FreshKeyIsComparable(out, m);
      InsertKeepsOrder(MemberLess, out, m);
      if !IsArrayIndex(m.key) {
        AppendIsInsert(MemberLess, out, m);
      }
    }
    ListingExtends(sorted[..i], sorted[i], sorted[..i + 1], out, m);
  }

  lemma ListingExtends(before: seq<Member>, source: Member, after: seq<Member>, out: seq<CMember>, m: CMember)
    requires after == before + [source] && m.key == source.key && Canonicalize(source.value) == Some(m.value)
    requires !source.value.JUndefined?
    requires forall x :: x in out <==> exists k :: 0 <= k < |before| && CanonicalOf(before[k], x)
    ensures forall x :: (x in out || (x == m && m.key != PROTO)) <==> exists k :: 0 <= k < |after| && CanonicalOf(after[k], x)
  {
    hide Canonicalize;
    forall x ensures (x in out || (x == m && m.key != PROTO)) <==> exists k :: 0 <= k < |after| && CanonicalOf(after[k], x) {
      if x in out {
        var k :| 0 <= k < |before| && CanonicalOf(before[k], x);
        assert CanonicalOf(after[k], x);
      }
      if x == m && m.key != PROTO {
        assert CanonicalOf(after[|before|], x);
      }
      if exists k :: 0 <= k < |after| && CanonicalOf(after[k], x) {
        var k :| 0 <= k < |after| && CanonicalOf(after[k], x);
        if k < |before| {
          assert CanonicalOf(before[k], x);
        } else {
          assert x == m;
        }
      }
    }
  }

  lemma SkipKeepsListing(before: seq<Member>, source: Member, after: seq<Member>, out: seq<CMember>)
    requires after == before + [source] && source.value.JUndefined? && CanonicalListing(before, out)
    ensures CanonicalListing(after, out)
  {
    hide Canonicalize, KeyLess;
    forall x ensures x in out <==> exists k :: 0 <= k < |after| && CanonicalOf(after[k], x) {
      if x in out {
        var k :| 0 <= k < |before| && CanonicalOf(before[k], x);
        assert CanonicalOf(after[k], x);
      }
      if exists k :: 0 <= k < |after| && CanonicalOf(after[k], x) {
        var k :| 0 <= k < |after| && CanonicalOf(after[k], x);
        assert CanonicalOf(before[k], x);
      }
    }
  }

  lemma {:induction false} MembersSomeIff(members: seq<Member>)
    ensures CanonicalMembers(members).Some?
       <==> forall m :: m in members && !m.value.JUndefined? ==> Canonicalize(m.value).Some?
    decreases members
  {
    hide Canonicalize, Insert;
    if members != [] {
      MembersSomeIff(members[1..]);
      assert members == [members[0]] + members[1..];
      assert members[0] in members;
    }
  }

  lemma ListingOfSorted(members: seq<Member>, sorted: seq<Member>, out: seq<CMember>)
    requires DistinctKeys(members) && CanonicalMembers(members).Some?
    requires (forall x :: x in sorted <==> x in members) && CanonicalListing(sorted, out)
    ensures CanonicalMembers(members) == Some(out)
  {
    hide Canonicalize, CanonicalMembers, KeyLess;
    CanonicalMembersList(members);
    var r := CanonicalMembers(members).value;
    forall x ensures x in out <==> x in r {
      if x in out {
        var k :| 0 <= k < |sorted| && CanonicalOf(sorted[k], x);
        assert sorted[k] in sorted;
        var j :| 0 <= j < |members| && members[j] == sorted[k];
        assert CanonicalOf(members[j], x);
      }
      if x in r {
        var k :| 0 <= k < |members| && CanonicalOf(members[k], x);
        assert members[k] in members;
        var j :| 0 <= j < |sorted| && sorted[j] == members[k];
        assert CanonicalOf(sorted[j], x);
      }
    }
    MemberLessIsStrict();
    OrderedUnique(MemberLess, out, r);
  }

  // -------------------------------------------------------------------- the methods ---

  method CanonicalizeValue(v: Value) returns (r: Option<Canon>)
    requires WellFormed(v)
    ensures r == Canonicalize(v)
    decreases v, 0
  {
    match v
    case JUndefined => return Some(CNull);
    case JNull => return Some(CNull);
    case JBool(b) => return Some(CBool(b));
    case JNumber(text) => return Some(CNumber(text));
    case JNonFinite => return None;
    case JString(s) => return Some(CString(s));
    case JArray(items) =>
      var mapped := MapItems(items);
      return if mapped.None? then None else Some(CArray(mapped.value));
    case JObject(members) =>
      var out := BuildObject(members);
      return if out.None? then None else Some(CObject(out.value));
    case JOther => return None;
  }

  function Prepend(done: seq<Canon>, rest: Option<seq<Canon>>): Option<seq<Canon>> {
    if rest.None? then None else Some(done + rest.value)
  }

  method MapItems(items: seq<Value>) returns (r: Option<seq<Canon>>)
    requires forall i :: 0 <= i < |items| ==> WellFormed(items[i])
    ensures r == CanonicalItems(items)
    decreases items, 0
  {
    hide Canonicalize, WellFormed;
    var done: seq<Canon> := [];
    assert items[0..] == items;
    ghost var all := CanonicalItems(items);
    assert all.Some? ==> done + all.value == all.value;
    for i := 0 to |items|
      invariant CanonicalItems(items) == Prepend(done, CanonicalItems(items[i..]))
    {
      var c := CanonicalizeValue(items[i]);
      assert items[i..][0] == items[i] && items[i..][1..] == items[i + 1..];
      if c.None? {
        return None;
      }
      assert forall rest :: done + ([c.value] + rest) == done + [c.value] + rest;
      done := done + [c.value];
    }
    assert items[|items|..] == [] && done + [] == done;
    return Some(done);
  }

  method BuildObject(members: seq<Member>) returns (r: Option<seq<CMember>>)
    requires DistinctKeys(members) && forall i :: 0 <= i < |members| ==> WellFormed(members[i].value)
    ensures r == CanonicalMembers(members)
    decreases members, 0
  {
    hide Canonicalize, CanonicalMembers, WellFormed, KeyLess, LexLess, SetProperty, SortByKey;
    var sorted := SortByKey(members);
    SortByKeySorts(members);
    MembersSomeIff(members);
    var out: seq<CMember> := [];
    for i := 0 to |sorted|
      invariant CanonicalListing(sorted[..i], out)
      invariant forall k :: 0 <= k < i && !sorted[k].value.JUndefined? ==> Canonicalize(sorted[k].value).Some?
    {
      assert sorted[i] in sorted;
      ghost var k :| 0 <= k < |members| && members[k] == sorted[i];
      var child := sorted[i].value;
      if child.JUndefined? {
        SkipKeepsListing(sorted[..i], sorted[i], sorted[..i + 1], out);
        continue;
      }
      var c := CanonicalizeValue(child);
      if c.None? {
        return None;
      }
      SetPropertyKeepsListing(sorted, i, out, c.value);
      out := SetProperty(out, CMember(sorted[i].key, c.value));
    }
    assert sorted[..|sorted|] == sorted;
    ListingOfSorted(members, sorted, out);
    return Some(out);
  }
}
