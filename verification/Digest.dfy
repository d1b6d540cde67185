/** Request digests: the canonical form of a JavaScript value, and the text whose hash identifies a call. */
module Digest {
  import opened Json
  import opened Options
  import opened Ordering
  import opened Sorting

  // -------------------------------------------------------------------- values ---

  /** A JavaScript value as `canonicalize` tells them apart. A finite number is held as the text
      `Number::toString` gives it; `JOther` is a function, a symbol or a bigint. */
  datatype Value =
    | JUndefined
    | JNull
    | JBool(b: bool)
    | JNumber(text: Text)
    | JNonFinite
    | JString(s: Text)
    | JArray(items: seq<Value>)
    | JObject(members: seq<Member>)
    | JOther

  datatype Member = Member(key: Text, value: Value)

  /** Objects have distinct keys, numbers the text of a number. */
  predicate WellFormed(v: Value) {
    match v
    case JNumber(text) => IsNumberText(text)
    case JArray(items) => forall i :: 0 <= i < |items| ==> WellFormed(items[i])
    case JObject(members) =>
      && DistinctKeys(members)
      && forall i :: 0 <= i < |members| ==> WellFormed(members[i].value)
    case _ => true
  }

  predicate DistinctKeys(members: seq<Member>) {
    forall i, j :: 0 <= i < j < |members| ==> members[i].key != members[j].key
  }

  /** Assigning this key sets an object's prototype and creates no property. */
  const PROTO: Text := [0x5F, 0x5F, 0x70, 0x72, 0x6F, 0x74, 0x6F, 0x5F, 0x5F]

  // ------------------------------------------------------ property enumeration ---

  predicate AllDigits(k: Text) {
    forall i :: 0 <= i < |k| ==> 0x30 <= k[i] <= 0x39
  }

  const MAX_INDEX: Text := [0x34, 0x32, 0x39, 0x34, 0x39, 0x36, 0x37, 0x32, 0x39, 0x35]

  /** The canonical numeral of an integer below 2^32 - 1, section 6.1.7 of ECMA-262. */
  predicate IsArrayIndex(k: Text) {
    && k != [] && AllDigits(k) && (|k| > 1 ==> k[0] != 0x30)
    && (|k| < 10 || (|k| == 10 && LexLess(k, MAX_INDEX)))
  }

  /** The order in which own properties are enumerated when keys are added in ascending order: array indices
      by value, then every other key. Numerals without leading zeros compare by length first. */
  predicate KeyLess(a: Text, b: Text) {
    if IsArrayIndex(a) && IsArrayIndex(b) then |a| < |b| || (|a| == |b| && LexLess(a, b))
    else if IsArrayIndex(a) || IsArrayIndex(b) then IsArrayIndex(a)
    else LexLess(a, b)
  }

  lemma KeyOrder(a: Text, b: Text, c: Text)
    ensures !KeyLess(a, a)
    ensures KeyLess(a, b) || a == b || KeyLess(b, a)
    ensures KeyLess(a, b) && KeyLess(b, c) ==> KeyLess(a, c)
  {
    LexIrreflexive(a);
    LexTotal(a, b);
    if LexLess(a, b) && LexLess(b, c) { LexTransitive(a, b, c); }
  }

  predicate MemberLess(a: CMember, b: CMember) {
    KeyLess(a.key, b.key)
  }

  lemma MemberLessIsStrict()
    ensures StrictOrder(MemberLess)
  {
    hide KeyLess;
    forall a: CMember ensures !MemberLess(a, a) {
      KeyOrder(a.key, a.key, a.key);
    }
    forall a: CMember, b: CMember, c: CMember | MemberLess(a, b) && MemberLess(b, c) ensures MemberLess(a, c) {
      KeyOrder(a.key, b.key, c.key);
    }
  }

  lemma FreshKeyIsComparable(members: seq<CMember>, m: CMember)
    requires forall i :: 0 <= i < |members| ==> members[i].key != m.key
    ensures Comparable(MemberLess, members, m)
  {
    hide KeyLess;
    forall y | y in members ensures MemberLess(m, y) || MemberLess(y, m) {
      KeyOrder(m.key, y.key, m.key);
    }
  }

  // -------------------------------------------------------------- canonical form ---

  /** The canonical form, or nothing when `canonicalize` throws. */
  function Canonicalize(v: Value): Option<Canon>
    decreases v
  {
    match v
    case JUndefined => Some(CNull)
    case JNull => Some(CNull)
    case JBool(b) => Some(CBool(b))
    case JNumber(text) => Some(CNumber(text))
    case JNonFinite => None
    case JString(s) => Some(CString(s))
    case JArray(items) =>
      var r := CanonicalItems(items);
      if r.None? then None else Some(CArray(r.value))
    case JObject(members) =>
      var r := CanonicalMembers(members);
      if r.None? then None else Some(CObject(r.value))
    case JOther => None
  }

  function CanonicalItems(items: seq<Value>): (r: Option<seq<Canon>>)
    ensures r.Some? ==> |r.value| == |items|
    decreases items
  {
    if items == [] then Some([]) else
      var first, rest := Canonicalize(items[0]), CanonicalItems(items[1..]);
      if first.None? || rest.None? then None else Some([first.value] + rest.value)
  }

  function CanonicalMembers(members: seq<Member>): Option<seq<CMember>>
    decreases members
  {
    if members == [] then Some([]) else
      var rest := CanonicalMembers(members[1..]);
      if members[0].value.JUndefined? then rest else
        var first := Canonicalize(members[0].value);
        if first.None? || rest.None? then None
        else if members[0].key == PROTO then rest
        else Some(Insert(MemberLess, rest.value, CMember(members[0].key, first.value)))
  }

  /** A member that reaches the canonical object. */
  predicate Kept(m: Member) {
    !m.value.JUndefined? && m.key != PROTO
  }

  ghost predicate CanonicalOf(m: Member, c: CMember) {
    Kept(m) && m.key == c.key && Canonicalize(m.value) == Some(c.value)
  }

  /** The canonical members: one for each kept member, in enumeration order. */
  ghost predicate CanonicalListing(members: seq<Member>, r: seq<CMember>) {
    && Ordered(MemberLess, r)
    && forall c :: c in r <==> exists i :: 0 <= i < |members| && CanonicalOf(members[i], c)
  }

  lemma {:induction false} CanonicalMembersList(members: seq<Member>)
    requires DistinctKeys(members) && CanonicalMembers(members).Some?
    ensures CanonicalListing(members, CanonicalMembers(members).value)
    ensures forall i :: 0 <= i < |members| && !members[i].value.JUndefined? ==> Canonicalize(members[i].value).Some?
    decreases members
  {
    hide KeyLess, Insert, Canonicalize;
    if members != [] {
      var first, rest := members[0], members[1..];
      assert members == [first] + rest;
      CanonicalMembersList(rest);
      var tail := CanonicalMembers(rest).value;
      var r := CanonicalMembers(members).value;
      if Kept(first) {
        var c := CMember(first.key, Canonicalize(first.value).value);
        forall i | 0 <= i < |tail| ensures tail[i].key != c.key {
          assert tail[i] in tail;
          var k :| 0 <= k < |rest| && CanonicalOf(rest[k], tail[i]);
          assert members[0].key != members[k + 1].key;
        }
        MemberLessIsStrict();
        FreshKeyIsComparable(tail, c);
        InsertKeepsOrder(MemberLess, tail, c);
        assert CanonicalOf(members[0], c);
      }
      forall x ensures x in r <==> exists i :: 0 <= i < |members| && CanonicalOf(members[i], x) {
        ListedByHeadOrTail(members, x);
      }
    }
  }

  lemma ListedByHeadOrTail(members: seq<Member>, x: CMember)
    requires members != []
    ensures (exists i :: 0 <= i < |members| && CanonicalOf(members[i], x))
       <==> CanonicalOf(members[0], x) || exists i :: 0 <= i < |members[1..]| && CanonicalOf(members[1..][i], x)
  {
    hide Canonicalize;
    if exists i :: 0 <= i < |members| && CanonicalOf(members[i], x) {
      var i :| 0 <= i < |members| && CanonicalOf(members[i], x);
      if i > 0 {
        assert members[1..][i - 1] == members[i];
      }
    }
    if exists i :: 0 <= i < |members[1..]| && CanonicalOf(members[1..][i], x) {
      var i :| 0 <= i < |members[1..]| && CanonicalOf(members[1..][i], x);
      assert members[i + 1] == members[1..][i];
    }
  }

  // ---------------------------------------------------------- what the form forgets ---

  /** Equal up to key order, members whose value is undefined or whose key is `__proto__`, and undefined
      standing for null. */
  ghost predicate Equivalent(a: Value, b: Value)
    decreases a
  {
    match a
    case JUndefined => b.JUndefined? || b.JNull?
    case JNull => b.JUndefined? || b.JNull?
    case JArray(items) =>
      b.JArray? && |items| == |b.items| && forall i :: 0 <= i < |items| ==> Equivalent(items[i], b.items[i])
    case JObject(members) =>
      && b.JObject?
      && (forall i :: 0 <= i < |members| && Kept(members[i]) ==> HasKey(b.members, members[i].key))
      && (forall j :: 0 <= j < |b.members| && Kept(b.members[j]) ==> HasKey(members, b.members[j].key))
      && forall i, j :: 0 <= i < |members| && 0 <= j < |b.members| ==>
           Kept(members[i]) && Kept(b.members[j]) && members[i].key == b.members[j].key ==>
             Equivalent(members[i].value, b.members[j].value)
    case _ => a == b
  }

  predicate HasKey(members: seq<Member>, key: Text) {
    exists i :: 0 <= i < |members| && Kept(members[i]) && members[i].key == key
  }

  /** Canonical forms are equal exactly when the values are equivalent. */
  lemma {:induction false} SameFormIffEquivalent(a: Value, b: Value)
    requires WellFormed(a) && WellFormed(b) && Canonicalize(a).Some? && Canonicalize(b).Some?
    ensures Canonicalize(a) == Canonicalize(b) <==> Equivalent(a, b)
    decreases a
  {
    if a.JArray? && b.JArray? {
      if |a.items| == |b.items| {
        SameItemsIffEquivalent(a.items, b.items);
      }
    } else if a.JObject? && b.JObject? {
      SameMembersIffEquivalent(a, b);
    }
  }

  lemma {:induction false} SameItemsIffEquivalent(a: seq<Value>, b: seq<Value>)
    requires |a| == |b| && CanonicalItems(a).Some? && CanonicalItems(b).Some?
    requires forall i :: 0 <= i < |a| ==> WellFormed(a[i]) && WellFormed(b[i])
    ensures CanonicalItems(a) == CanonicalItems(b) <==> forall i :: 0 <= i < |a| ==> Equivalent(a[i], b[i])
    decreases a
  {
    hide Canonicalize, Equivalent, WellFormed;
    if a != [] {
      SameFormIffEquivalent(a[0], b[0]);
      SameItemsIffEquivalent(a[1..], b[1..]);
      var x, y := CanonicalItems(a).value, CanonicalItems(b).value;
      assert x == y <==> x[0] == y[0] && x[1..] == y[1..] by {
        assert x == [x[0]] + x[1..] && y == [y[0]] + y[1..];
      }
      assert (forall i :: 0 <= i < |a| ==> Equivalent(a[i], b[i]))
        <==> Equivalent(a[0], b[0]) && forall i :: 0 <= i < |a[1..]| ==> Equivalent(a[1..][i], b[1..][i]) by {
        assert forall i :: 0 <= i < |a[1..]| ==> a[1..][i] == a[i + 1] && b[1..][i] == b[i + 1];
        assert forall i :: 1 <= i < |a| ==> a[i] == a[1..][i - 1] && b[i] == b[1..][i - 1];
      }
    }
  }

  lemma {:induction false} SameMembersIffEquivalent(a: Value, b: Value)
    requires a.JObject? && b.JObject? && WellFormed(a) && WellFormed(b)
    requires CanonicalMembers(a.members).Some? && CanonicalMembers(b.members).Some?
    ensures CanonicalMembers(a.members) == CanonicalMembers(b.members) <==> Equivalent(a, b)
    decreases a, 0
  {
    var x, y := CanonicalMembers(a.members).value, CanonicalMembers(b.members).value;
    CanonicalMembersList(a.members);
    CanonicalMembersList(b.members);
    forall i, j | 0 <= i < |a.members| && 0 <= j < |b.members| && Kept(a.members[i]) && Kept(b.members[j])
      ensures Canonicalize(a.members[i].value) == Canonicalize(b.members[j].value)
         <==> Equivalent(a.members[i].value, b.members[j].value)
    {
      SameFormIffEquivalent(a.members[i].value, b.members[j].value);
    }
    hide Canonicalize, CanonicalMembers, WellFormed, KeyLess;
    if Equivalent(a, b) {
      forall c ensures c in x <==> c in y {
        if c in x { MemberCarriesOver(a, b, c); }
        if c in y { MemberCarriesBack(a, b, c); }
      }
      MemberLessIsStrict();
      OrderedUnique(MemberLess, x, y);
    }
    if x == y {
      SameListingIsEquivalent(a, b, x);
    }
  }

  /** For the kept members of two objects, equal forms and equivalence say the same. */
  ghost predicate FormsAgree(a: seq<Member>, b: seq<Member>) {
    forall i, j :: 0 <= i < |a| && 0 <= j < |b| && Kept(a[i]) && Kept(b[j]) ==>
      (Canonicalize(a[i].value) == Canonicalize(b[j].value) <==> Equivalent(a[i].value, b[j].value))
  }

  lemma MemberCarriesOver(a: Value, b: Value, c: CMember)
    requires a.JObject? && b.JObject? && Equivalent(a, b)
    requires FormsAgree(a.members, b.members)
    requires exists i :: 0 <= i < |a.members| && CanonicalOf(a.members[i], c)
    ensures exists j :: 0 <= j < |b.members| && CanonicalOf(b.members[j], c)
  {
    hide Canonicalize;
    var i :| 0 <= i < |a.members| && CanonicalOf(a.members[i], c);
    assert HasKey(b.members, a.members[i].key);
    var j :| 0 <= j < |b.members| && Kept(b.members[j]) && b.members[j].key == a.members[i].key;
    assert CanonicalOf(b.members[j], c);
  }

  lemma MemberCarriesBack(a: Value, b: Value, c: CMember)
    requires a.JObject? && b.JObject? && Equivalent(a, b)
    requires FormsAgree(a.members, b.members)
    requires exists j :: 0 <= j < |b.members| && CanonicalOf(b.members[j], c)
    ensures exists i :: 0 <= i < |a.members| && CanonicalOf(a.members[i], c)
  {
    hide Canonicalize;
    var j :| 0 <= j < |b.members| && CanonicalOf(b.members[j], c);
    assert HasKey(a.members, b.members[j].key);
    var i :| 0 <= i < |a.members| && Kept(a.members[i]) && a.members[i].key == b.members[j].key;
    assert CanonicalOf(a.members[i], c);
  }

  lemma SameListingIsEquivalent(a: Value, b: Value, x: seq<CMember>)
    requires a.JObject? && b.JObject? && DistinctKeys(a.members) && DistinctKeys(b.members)
    requires CanonicalListing(a.members, x) && CanonicalListing(b.members, x)
    requires forall i :: 0 <= i < |a.members| && !a.members[i].value.JUndefined? ==> Canonicalize(a.members[i].value).Some?
    requires forall i :: 0 <= i < |b.members| && !b.members[i].value.JUndefined? ==> Canonicalize(b.members[i].value).Some?
    requires FormsAgree(a.members, b.members)
    ensures Equivalent(a, b)
  {
    hide Canonicalize, KeyLess;
    forall i | 0 <= i < |a.members| && Kept(a.members[i])
      ensures HasKey(b.members, a.members[i].key)
      ensures forall j :: 0 <= j < |b.members| && Kept(b.members[j]) && b.members[j].key == a.members[i].key ==>
        Canonicalize(a.members[i].value) == Canonicalize(b.members[j].value)
    {
      var c := CMember(a.members[i].key, Canonicalize(a.members[i].value).value);
      assert CanonicalOf(a.members[i], c) && c in x;
      var k :| 0 <= k < |b.members| && CanonicalOf(b.members[k], c);
    }
    forall j | 0 <= j < |b.members| && Kept(b.members[j]) ensures HasKey(a.members, b.members[j].key) {
      var c := CMember(b.members[j].key, Canonicalize(b.members[j].value).value);
      assert CanonicalOf(b.members[j], c) && c in x;
      var k :| 0 <= k < |a.members| && CanonicalOf(a.members[k], c);
    }
  }

  // ------------------------------------------------------------------- the texts ---

  /** `canonicalJson`; nothing when it throws. */
  function CanonicalJson(v: Value): Option<Text> {
    var c := Canonicalize(v);
    if c.None? then None else Some(Print(c.value))
  }

  lemma {:induction false} CanonicalNumbersAreText(v: Value)
    requires WellFormed(v) && Canonicalize(v).Some?
    ensures NumbersAreText(Canonicalize(v).value)
    decreases v
  {
    if v.JArray? {
      CanonicalItemsAreText(v.items);
    } else if v.JObject? {
      CanonicalMembersList(v.members);
      var r := CanonicalMembers(v.members).value;
      forall k | 0 <= k < |r| ensures NumbersAreText(r[k].value) {
        assert r[k] in r;
        var i :| 0 <= i < |v.members| && CanonicalOf(v.members[i], r[k]);
        CanonicalNumbersAreText(v.members[i].value);
      }
    }
  }

  lemma {:induction false} CanonicalItemsAreText(items: seq<Value>)
    requires CanonicalItems(items).Some? && forall i :: 0 <= i < |items| ==> WellFormed(items[i])
    ensures forall i :: 0 <= i < |items| ==> NumbersAreText(CanonicalItems(items).value[i])
    decreases items
  {
    hide Canonicalize, NumbersAreText, WellFormed;
    if items != [] {
      CanonicalNumbersAreText(items[0]);
      CanonicalItemsAreText(items[1..]);
    }
  }

  /** Two values have the same canonical text exactly when they are equivalent. */
  lemma SameTextIffEquivalent(a: Value, b: Value)
    requires WellFormed(a) && WellFormed(b) && CanonicalJson(a).Some? && CanonicalJson(b).Some?
    ensures CanonicalJson(a) == CanonicalJson(b) <==> Equivalent(a, b)
  {
    hide Canonicalize, Equivalent, Print, NumbersAreText, WellFormed;
    SameFormIffEquivalent(a, b);
    CanonicalNumbersAreText(a);
    CanonicalNumbersAreText(b);
    if CanonicalJson(a) == CanonicalJson(b) {
      PrintInjective(Canonicalize(a).value, Canonicalize(b).value);
    }
  }

  /** A value is refused exactly when it holds a number that is not finite or something JSON cannot carry, other
      than as an undefined member. */
  ghost predicate Representable(v: Value)
    decreases v
  {
    match v
    case JNonFinite => false
    case JOther => false
    case JArray(items) => forall i :: 0 <= i < |items| ==> Representable(items[i])
    case JObject(members) =>
      forall i :: 0 <= i < |members| && !members[i].value.JUndefined? ==> Representable(members[i].value)
    case _ => true
  }

  lemma {:induction false} CanonicalIffRepresentable(v: Value)
    ensures Canonicalize(v).Some? <==> Representable(v)
    decreases v
  {
    if v.JArray? {
      ItemsIffRepresentable(v.items);
    } else if v.JObject? {
      MembersIffRepresentable(v.members);
    }
  }

  lemma {:induction false} ItemsIffRepresentable(items: seq<Value>)
    ensures CanonicalItems(items).Some? <==> forall i :: 0 <= i < |items| ==> Representable(items[i])
    decreases items
  {
    hide Canonicalize, Representable;
    if items != [] {
      CanonicalIffRepresentable(items[0]);
      ItemsIffRepresentable(items[1..]);
      assert forall i :: 1 <= i < |items| ==> items[i] == items[1..][i - 1];
      assert forall i :: 0 <= i < |items[1..]| ==> items[1..][i] == items[i + 1];
    }
  }

  lemma {:induction false} MembersIffRepresentable(members: seq<Member>)
    ensures CanonicalMembers(members).Some?
       <==> forall i :: 0 <= i < |members| && !members[i].value.JUndefined? ==> Representable(members[i].value)
    decreases members
  {
    hide Canonicalize, Representable, Insert;
    if members != [] {
      CanonicalIffRepresentable(members[0].value);
      MembersIffRepresentable(members[1..]);
      assert forall i :: 1 <= i < |members| ==> members[i] == members[1..][i - 1];
      assert forall i :: 0 <= i < |members[1..]| ==> members[1..][i] == members[i + 1];
    }
  }

  // ----------------------------------------------------------------- the preimage ---

  /** What `requestDigest` hashes: the tool, a newline, the canonical arguments. */
  function Preimage(tool: Text, json: Text): Text {
    tool + [NEWLINE] + json
  }

  predicate NoNewline(t: Text) {
    forall i :: 0 <= i < |t| ==> t[i] != NEWLINE
  }

  lemma {:induction false} EscapedHasNoNewline(s: Text)
    ensures NoNewline(EscapeAll(s))
    decreases |s|
  {
    if s == [] {
    } else if |s| >= 2 && IsHighSurrogate(s[0]) && IsLowSurrogate(s[1]) {
      EscapedHasNoNewline(s[2..]);
    } else {
      EscapedHasNoNewline(s[1..]);
      assert NoNewline(EscapeUnit(s[0]));
    }
  }

  lemma {:induction false} PrintHasNoNewline(c: Canon)
    requires NumbersAreText(c)
    ensures NoNewline(Print(c))
    decreases c
  {
    hide EscapeAll;
    match c
    case CString(s) => EscapedHasNoNewline(s);
    case CArray(items) =>
      if items != [] {
        PrintHasNoNewline(items[0]);
        ItemsHaveNoNewline(items[1..]);
      }
    case CObject(members) =>
      if members != [] {
        EscapedHasNoNewline(members[0].key);
        PrintHasNoNewline(members[0].value);
        MembersHaveNoNewline(members[1..]);
      }
    case _ =>
  }

  lemma {:induction false} ItemsHaveNoNewline(items: seq<Canon>)
    requires forall i :: 0 <= i < |items| ==> NumbersAreText(items[i])
    ensures NoNewline(PrintItems(items))
    decreases items
  {
    hide Print;
    if items != [] {
      PrintHasNoNewline(items[0]);
      ItemsHaveNoNewline(items[1..]);
    }
  }

  lemma {:induction false} MembersHaveNoNewline(members: seq<CMember>)
    requires forall i :: 0 <= i < |members| ==> NumbersAreText(members[i].value)
    ensures NoNewline(PrintMembers(members))
    decreases members
  {
    hide Print, EscapeAll;
    if members != [] {
      EscapedHasNoNewline(members[0].key);
      PrintHasNoNewline(members[0].value);
      MembersHaveNoNewline(members[1..]);
    }
  }

  lemma LastNewlineSplits(tool1: Text, json1: Text, tool2: Text, json2: Text)
    requires NoNewline(json1) && NoNewline(json2)
    requires Preimage(tool1, json1) == Preimage(tool2, json2)
    ensures tool1 == tool2 && json1 == json2
  {
    var p := Preimage(tool1, json1);
    LastNewlineAt(tool1, json1);
    LastNewlineAt(tool2, json2);
    assert tool1 == p[..|tool1|] && tool2 == p[..|tool2|];
  }

  lemma LastNewlineAt(tool: Text, json: Text)
    requires NoNewline(json)
    ensures var p := Preimage(tool, json);
      p[|tool|] == NEWLINE && (forall i :: |tool| < i < |p| ==> p[i] != NEWLINE) && p[|tool| + 1..] == json
  {
  }

  /** The text that is hashed determines the tool, whatever its name holds, and the arguments up to
      equivalence. */
  lemma PreimageDeterminesCall(tool1: Text, args1: Value, tool2: Text, args2: Value)
    requires WellFormed(args1) && WellFormed(args2) && CanonicalJson(args1).Some? && CanonicalJson(args2).Some?
    ensures Preimage(tool1, CanonicalJson(args1).value) == Preimage(tool2, CanonicalJson(args2).value)
       <==> tool1 == tool2 && Equivalent(args1, args2)
  {
    hide Canonicalize, Equivalent, Print, NumbersAreText, WellFormed, Preimage;
    SameTextIffEquivalent(args1, args2);
    CanonicalNumbersAreText(args1);
    CanonicalNumbersAreText(args2);
    PrintHasNoNewline(Canonicalize(args1).value);
    PrintHasNoNewline(Canonicalize(args2).value);
    if Preimage(tool1, CanonicalJson(args1).value) == Preimage(tool2, CanonicalJson(args2).value) {
      LastNewlineSplits(tool1, CanonicalJson(args1).value, tool2, CanonicalJson(args2).value);
    }
  }
}
