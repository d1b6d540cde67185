/** The JSON Schema subset: an error-collecting traversal against the meaning of the keywords. */
module JsonSchema {
  import opened Decimal
  import opened Options
  import opened Ordering
  import opened Sorting
  import opened Ticks

  // --------------------------------------------------------------------- values ---

  /** A JSON value; an object has distinct keys, in whatever order they came. */
  datatype Value =
    | Null
    | Bool(b: bool)
    | Number(n: real)
    | Text(s: string)
    | Array(items: seq<Value>)
    | Object(members: seq<Member>)

  datatype Member = Member(key: string, value: Value)

  predicate WellFormed(v: Value) {
    match v
    case Array(items) => forall i :: 0 <= i < |items| ==> WellFormed(items[i])
    case Object(members) =>
      && DistinctKeys(members) && forall i :: 0 <= i < |members| ==> WellFormed(members[i].value)
    case _ => true
  }

  predicate DistinctKeys(members: seq<Member>) {
    forall i, j :: 0 <= i < j < |members| ==> members[i].key != members[j].key
  }

  /** Equal up to the order of keys. */
  ghost predicate SameValue(a: Value, b: Value)
    decreases a
  {
    match a
    case Array(items) => b.Array? && |items| == |b.items| && forall i :: 0 <= i < |items| ==> SameValue(items[i], b.items[i])
    case Object(members) =>
      && b.Object? && |members| == |b.members|
      && forall i :: 0 <= i < |members| ==>
           exists j :: 0 <= j < |b.members| &&
             b.members[j].key == members[i].key && SameValue(members[i].value, b.members[j].value)
    case _ => a == b
  }

  function Index(members: seq<Member>, key: string): (i: int)
    ensures -1 <= i < |members|
    ensures i >= 0 ==> members[i].key == key
    ensures i == -1 ==> forall j :: 0 <= j < |members| ==> members[j].key != key
  {
    if members == [] then -1
    else if members[0].key == key then 0
    else
      var i := Index(members[1..], key);
      assert members == [members[0]] + members[1..];
      if i == -1 then -1 else i + 1
  }

  // -------------------------------------------------------------------- schemas ---

  datatype JsonType = ObjectType | ArrayType | StringType | NumberType | IntegerType | BooleanType | NullType

  datatype Additional = Anything | Nothing | Only(schema: Schema)

  /** The list of an `anyOf` or `oneOf` keyword, when it is there. */
  datatype Shapes = AnyShape | Shapes(list: seq<Schema>)

  datatype Property = Property(name: string, schema: Schema)

  datatype Schema = Schema(
    ref: Option<string>, constant: Option<Value>, enumeration: Option<seq<Value>>, types: Option<seq<JsonType>>,
    minimum: Option<real>, maximum: Option<real>, exclusiveMinimum: Option<real>, exclusiveMaximum: Option<real>,
    multipleOf: Option<real>,
    minLength: Option<int>, maxLength: Option<int>, pattern: Option<string>, format: Option<string>,
    minItems: Option<int>, maxItems: Option<int>, uniqueItems: bool, items: Option<Schema>,
    minProperties: Option<int>, maxProperties: Option<int>, required: seq<string>, properties: seq<Property>,
    additional: Additional,
    allOf: seq<Schema>, anyOf: Shapes, oneOf: Shapes, negated: Option<Schema>)

  /** The root's definitions, and what its patterns and formats accept. */
  datatype Env = Env(
    defs: map<string, Schema>, matchesPattern: (string, string) -> bool, matchesFormat: (string, string) -> bool)
  {
    /** How many definitions can be reached from one without descending into the value. */
    ghost function Rank(name: string): nat {
      |Reach(defs, name)|
    }

    ghost function Top(): nat {
      |defs| + 1
    }
  }

  // ------------------------------------------------------------ references between definitions ---

  /** The schema refers to the name without descending into the value. */
  ghost predicate Mentions(s: Schema, name: string)
    decreases s
  {
    if s.ref.Some? then s.ref.value == name
    else
      || (exists i :: 0 <= i < |s.allOf| && Mentions(s.allOf[i], name))
      || (s.anyOf.Shapes? && exists i :: 0 <= i < |s.anyOf.list| && Mentions(s.anyOf.list[i], name))
      || (s.oneOf.Shapes? && exists i :: 0 <= i < |s.oneOf.list| && Mentions(s.oneOf.list[i], name))
      || (s.negated.Some? && Mentions(s.negated.value, name))
  }

  ghost predicate Refers(defs: map<string, Schema>, a: string, b: string) {
    a in defs && b in defs && Mentions(defs[a], b)
  }

  ghost predicate Chain(defs: map<string, Schema>, path: seq<string>) {
    |path| >= 2 && forall i :: 0 < i < |path| ==> Refers(defs, path[i - 1], path[i])
  }

  ghost predicate ChainFrom(defs: map<string, Schema>, path: seq<string>, a: string, b: string) {
    Chain(defs, path) && path[0] == a && path[|path| - 1] == b
  }

  ghost predicate Reaches(defs: map<string, Schema>, a: string, b: string) {
    exists path :: ChainFrom(defs, path, a, b)
  }

  ghost function Reach(defs: map<string, Schema>, a: string): set<string> {
    set b | b in defs && Reaches(defs, a, b)
  }

  /** Reference cycles all descend into the value: no chain of references outside it comes back to where it began. */
  ghost predicate Guarded(env: Env) {
    forall name :: name in env.defs ==> !Reaches(env.defs, name, name)
  }

  /** Every reference reached without descending into the value leads to a definition of rank below `k`. */
  ghost predicate RefsBelow(env: Env, s: Schema, k: nat)
    decreases s
  {
    if s.ref.Some? then s.ref.value in env.defs ==> env.Rank(s.ref.value) < k
    else
      && (forall i :: 0 <= i < |s.allOf| ==> RefsBelow(env, s.allOf[i], k))
      && (s.anyOf.Shapes? ==> forall i :: 0 <= i < |s.anyOf.list| ==> RefsBelow(env, s.anyOf.list[i], k))
      && (s.oneOf.Shapes? ==> forall i :: 0 <= i < |s.oneOf.list| ==> RefsBelow(env, s.oneOf.list[i], k))
      && (s.negated.Some? ==> RefsBelow(env, s.negated.value, k))
  }

  lemma ReachesDirectly(defs: map<string, Schema>, a: string, b: string)
    requires Refers(defs, a, b)
    ensures Reaches(defs, a, b)
  {
    hide Mentions;
    var path := [a, b];
    assert ChainFrom(defs, path, a, b);
  }

  lemma ReachesThrough(defs: map<string, Schema>, a: string, b: string, c: string)
    requires Refers(defs, a, b) && Reaches(defs, b, c)
    ensures Reaches(defs, a, c)
  {
    hide Mentions, Refers;
    var path :| ChainFrom(defs, path, b, c);
    var longer := [a] + path;
    forall i | 0 < i < |longer| ensures Refers(defs, longer[i - 1], longer[i]) {
      if i > 1 {
        assert longer[i - 1] == path[i - 2] && longer[i] == path[i - 1];
        assert Refers(defs, path[(i - 1) - 1], path[i - 1]);
      }
    }
    assert ChainFrom(defs, longer, a, c);
  }

  /** Following a reference leads to a definition from which strictly fewer can be reached. */
  lemma ReferenceLowersRank(env: Env, a: string, b: string)
    requires Guarded(env) && Refers(env.defs, a, b)
    ensures env.Rank(b) < env.Rank(a)
  {
    hide Mentions, Reaches;
    var from, to := Reach(env.defs, a), Reach(env.defs, b);
    forall c | c in to ensures c in from {
      ReachesThrough(env.defs, a, b, c);
    }
    ReachesDirectly(env.defs, a, b);
    assert b in from - to;
    assert to < from;
    SmallerSet(to, from);
  }

  lemma SmallerSet<T>(a: set<T>, b: set<T>)
    requires a < b
    ensures |a| < |b|
  {
    assert b == a + (b - a) && a !! (b - a);
    assert b - a != {};
    assert |b| == |a| + |b - a|;
  }

  lemma {:induction false} MentionsBelow(env: Env, s: Schema, k: nat)
    requires forall name :: Mentions(s, name) && name in env.defs ==> env.Rank(name) < k
    ensures RefsBelow(env, s, k)
    decreases s
  {
    if s.ref.Some? {
      assert Mentions(s, s.ref.value);
    } else {
      forall i | 0 <= i < |s.allOf| ensures RefsBelow(env, s.allOf[i], k) {
        assert forall name :: Mentions(s.allOf[i], name) ==> Mentions(s, name);
        MentionsBelow(env, s.allOf[i], k);
      }
      if s.anyOf.Shapes? {
        forall i | 0 <= i < |s.anyOf.list| ensures RefsBelow(env, s.anyOf.list[i], k) {
          assert forall name :: Mentions(s.anyOf.list[i], name) ==> Mentions(s, name);
          MentionsBelow(env, s.anyOf.list[i], k);
        }
      }
      if s.oneOf.Shapes? {
        forall i | 0 <= i < |s.oneOf.list| ensures RefsBelow(env, s.oneOf.list[i], k) {
          assert forall name :: Mentions(s.oneOf.list[i], name) ==> Mentions(s, name);
          MentionsBelow(env, s.oneOf.list[i], k);
        }
      }
      if s.negated.Some? {
        assert forall name :: Mentions(s.negated.value, name) ==> Mentions(s, name);
        MentionsBelow(env, s.negated.value, k);
      }
    }
  }

  lemma RankBelowTop(env: Env, name: string)
    ensures env.Rank(name) < env.Top()
  {
    hide Reaches;
    assert Reach(env.defs, name) <= env.defs.Keys;
    SubsetSize(Reach(env.defs, name), env.defs.Keys);
  }

  /** When every cycle descends, the ranks order the definitions: each refers only to lower ones outside the value. */
  lemma DefinitionRanked(env: Env, name: string)
    requires Guarded(env)
    ensures name in env.defs ==> env.Rank(name) < env.Top() && RefsBelow(env, env.defs[name], env.Rank(name))
  {
    hide RefsBelow, Reach;
    if name in env.defs {
      RankBelowTop(env, name);
      forall other | Mentions(env.defs[name], other) && other in env.defs ensures env.Rank(other) < env.Rank(name) {
        ReferenceLowersRank(env, name, other);
      }
      MentionsBelow(env, env.defs[name], env.Rank(name));
    }
  }

  lemma RefsBelowTop(env: Env, s: Schema)
    ensures RefsBelow(env, s, env.Top())
  {
    hide RefsBelow, Mentions;
    forall name | Mentions(s, name) && name in env.defs ensures env.Rank(name) < env.Top() {
      RankBelowTop(env, name);
    }
    MentionsBelow(env, s, env.Top());
  }

  // ------------------------------------------------------------------ scalar rules ---

  predicate HasType(v: Value, t: JsonType) {
    match t
    case ObjectType => v.Object?
    case ArrayType => v.Array?
    case StringType => v.Text?
    case NumberType => v.Number?
    case IntegerType => v.Number? && v.n == v.n.Floor as real
    case BooleanType => v.Bool?
    case NullType => v.Null?
  }

  predicate TypeAllowed(s: Schema, v: Value) {
    s.types.Some? ==> exists i :: 0 <= i < |s.types.value| && HasType(v, s.types.value[i])
  }

  predicate IsWhole(n: real, i: int) {
    n == i as real
  }

  /** What the types mean: an integer is a number that is whole, and every number has the type `number`. */
  lemma HasTypeMeaning(v: Value, t: JsonType)
    ensures HasType(v, t) <==> match v
      case Null => t.NullType?
      case Bool(_) => t.BooleanType?
      case Number(n) => t.NumberType? || (t.IntegerType? && exists i :: IsWhole(n, i))
      case Text(_) => t.StringType?
      case Array(_) => t.ArrayType?
      case Object(_) => t.ObjectType?
  {
    if v.Number? {
      if v.n == v.n.Floor as real {
        assert IsWhole(v.n, v.n.Floor);
      }
    }
  }

  lemma TypeAllowedMeaning(s: Schema, v: Value)
    ensures TypeAllowed(s, v) <==> s.types.None? || exists t :: t in s.types.value && HasType(v, t)
  {
    hide HasType;
  }

  function Distance(x: real): real {
    var d := x - (x + 0.5).Floor as real;
    if d < 0.0 then -d else d
  }

  predicate IsMultiple(n: real, m: real) {
    m != 0.0 && Distance(n / m) <= 0.000000001
  }

  /** `n` is `k` times `m`, up to a billionth. */
  predicate IsTimes(n: real, m: real, k: int)
    requires m != 0.0
  {
    -0.000000001 <= n / m - k as real <= 0.000000001
  }

  /** A multiple is a whole number of times the divisor; nothing is a multiple of zero. */
  lemma IsMultipleMeaning(n: real, m: real)
    ensures IsMultiple(n, m) <==> m != 0.0 && exists k :: IsTimes(n, m, k)
  {
    if m != 0.0 {
      var x := n / m;
      var k := (x + 0.5).Floor;
      assert Distance(x) == if x >= k as real then x - k as real else k as real - x;
      if IsMultiple(n, m) {
        assert IsTimes(n, m, k);
      }
      if exists j :: IsTimes(n, m, j) {
        var j :| IsTimes(n, m, j);
        NearestIsNear(x, j);
      }
    }
  }

  lemma NearestIsNear(x: real, j: int)
    requires -0.5 < x - j as real < 0.5
    ensures (x + 0.5).Floor == j
  {
  }

  // ------------------------------------------------- equality as the validator decides it ---

  predicate MemberLess(a: Member, b: Member) {
    LexLess(CodesOf(a.key), CodesOf(b.key))
  }

  /** A copy with the keys of every object sorted. */
  function Canonical(v: Value): Value
    decreases v
  {
    match v
    case Array(items) => Array(CanonicalItems(items))
    case Object(members) => Object(Sort(MemberLess, CanonicalMembers(members)))
    case _ => v
  }

  function CanonicalItems(items: seq<Value>): (r: seq<Value>)
    ensures |r| == |items|
    decreases items
  {
    if items == [] then [] else [Canonical(items[0])] + CanonicalItems(items[1..])
  }

  function CanonicalMembers(members: seq<Member>): (r: seq<Member>)
    ensures |r| == |members|
    decreases members
  {
    if members == [] then [] else [Member(members[0].key, Canonical(members[0].value))] + CanonicalMembers(members[1..])
  }

  /** `deepEqual`: the key-sorted copies print alike. ValueText shows that the texts agree exactly when the
      copies do, so the copies are compared here. */
  predicate DeepEqual(a: Value, b: Value) {
    Canonical(a) == Canonical(b)
  }

  lemma {:induction false} CanonicalItemsAt(items: seq<Value>, i: nat)
    requires i < |items|
    ensures CanonicalItems(items)[i] == Canonical(items[i])
    decreases items
  {
    if i > 0 { CanonicalItemsAt(items[1..], i - 1); }
  }

  lemma {:induction false} CanonicalMembersAt(members: seq<Member>, i: nat)
    requires i < |members|
    ensures CanonicalMembers(members)[i] == Member(members[i].key, Canonical(members[i].value))
    decreases members
  {
    if i > 0 { CanonicalMembersAt(members[1..], i - 1); }
  }

  lemma MemberLessIsStrict()
    ensures StrictOrder(MemberLess)
  {
    hide LexLess;
    forall a: Member ensures !MemberLess(a, a) {
      LexIrreflexive(CodesOf(a.key));
    }
    forall a: Member, b: Member, c: Member | MemberLess(a, b) && MemberLess(b, c) ensures MemberLess(a, c) {
      LexTransitive(CodesOf(a.key), CodesOf(b.key), CodesOf(c.key));
    }
  }

  function Copy(m: Member): Member {
    Member(m.key, Canonical(m.value))
  }

  ghost predicate CopiesOf(sorted: seq<Member>, members: seq<Member>) {
    forall x :: x in sorted <==> exists i :: 0 <= i < |members| && x == Copy(members[i])
  }

  lemma CanonicalMembersCopies(members: seq<Member>)
    ensures CopiesOf(CanonicalMembers(members), members)
  {
    hide Canonical;
    var copies := CanonicalMembers(members);
    forall i | 0 <= i < |members| ensures copies[i] == Copy(members[i]) {
      CanonicalMembersAt(members, i);
    }
    forall x ensures x in copies <==> exists i :: 0 <= i < |members| && x == Copy(members[i]) {
      if x in copies {
        var i :| 0 <= i < |copies| && copies[i] == x;
      }
    }
  }

  lemma CanonicalMembersSorted(members: seq<Member>)
    requires DistinctKeys(members)
    ensures var sorted := Sort(MemberLess, CanonicalMembers(members));
      Ordered(MemberLess, sorted) && |sorted| == |members| && CopiesOf(sorted, members)
  {
    hide LexLess, Canonical;
    var copies := CanonicalMembers(members);
    MemberLessIsStrict();
    forall i, j | 0 <= i < j < |copies| ensures MemberLess(copies[i], copies[j]) || MemberLess(copies[j], copies[i]) {
      CanonicalMembersAt(members, i);
      CanonicalMembersAt(members, j);
      LexTotal(CodesOf(members[i].key), CodesOf(members[j].key));
      if CodesOf(members[i].key) == CodesOf(members[j].key) {
        CodesInjective(members[i].key, members[j].key);
      }
    }
    SortOrders(MemberLess, copies);
    CanonicalMembersCopies(members);
  }

  /** `deepEqual` holds exactly for values equal up to the order of keys. */
  lemma {:induction false} DeepEqualIffSame(a: Value, b: Value)
    requires WellFormed(a) && WellFormed(b)
    ensures DeepEqual(a, b) <==> SameValue(a, b)
    decreases a
  {
    if a.Array? && b.Array? && |a.items| == |b.items| {
      forall i | 0 <= i < |a.items|
        ensures Canonical(a.items[i]) == CanonicalItems(a.items)[i] && Canonical(b.items[i]) == CanonicalItems(b.items)[i]
        ensures Canonical(a.items[i]) == Canonical(b.items[i]) <==> SameValue(a.items[i], b.items[i])
      {
        CanonicalItemsAt(a.items, i);
        CanonicalItemsAt(b.items, i);
        DeepEqualIffSame(a.items[i], b.items[i]);
      }
      if SameValue(a, b) {
        assert CanonicalItems(a.items) == CanonicalItems(b.items);
      }
    } else if a.Object? && b.Object? {
      CanonicalMembersSorted(a.members);
      CanonicalMembersSorted(b.members);
      if |a.members| == |b.members| {
        forall i, j | 0 <= i < |a.members| && 0 <= j < |b.members|
          ensures Canonical(a.members[i].value) == Canonical(b.members[j].value)
             <==> SameValue(a.members[i].value, b.members[j].value)
        {
          DeepEqualIffSame(a.members[i].value, b.members[j].value);
        }
        SameMembers(a.members, b.members);
      }
    }
  }

  ghost predicate Matched(a: Member, b: Member) {
    a.key == b.key && Canonical(a.value) == Canonical(b.value)
  }

  ghost predicate HasPartner(m: Member, others: seq<Member>) {
    exists j :: 0 <= j < |others| && Matched(m, others[j])
  }

  lemma CopyMatches(a: Member, b: Member)
    ensures Copy(a) == Copy(b) <==> Matched(a, b)
  {
  }

  lemma CopyInIffPartner(m: Member, sorted: seq<Member>, members: seq<Member>)
    requires CopiesOf(sorted, members)
    ensures Copy(m) in sorted <==> HasPartner(m, members)
  {
    hide Copy, Matched;
    forall j | 0 <= j < |members| ensures Copy(m) == Copy(members[j]) <==> Matched(m, members[j]) {
      CopyMatches(m, members[j]);
    }
    assert Copy(m) in sorted <==> exists j :: 0 <= j < |members| && Copy(m) == Copy(members[j]);
  }

  /** Sorted copies are equal exactly when every member has an equal partner on the other side. */
  lemma SameMembers(a: seq<Member>, b: seq<Member>)
    requires DistinctKeys(a) && DistinctKeys(b) && |a| == |b|
    ensures Sort(MemberLess, CanonicalMembers(a)) == Sort(MemberLess, CanonicalMembers(b))
       <==> forall i :: 0 <= i < |a| ==> HasPartner(a[i], b)
  {
    hide Copy, Matched, HasPartner, Sort, MemberLess, DistinctKeys;
    var x, y := Sort(MemberLess, CanonicalMembers(a)), Sort(MemberLess, CanonicalMembers(b));
    CanonicalMembersSorted(a);
    CanonicalMembersSorted(b);
    forall i | 0 <= i < |a| ensures Copy(a[i]) in x && (Copy(a[i]) in y <==> HasPartner(a[i], b)) {
      CopyInIffPartner(a[i], y, b);
    }
    if forall i :: 0 <= i < |a| ==> HasPartner(a[i], b) {
      OrderedSubset(x, y);
    }
  }

  /** An ordered sequence contained in another of the same length has the same elements. */
  lemma OrderedSubset(x: seq<Member>, y: seq<Member>)
    requires Ordered(MemberLess, x) && Ordered(MemberLess, y) && |x| == |y|
    requires forall m :: m in x ==> m in y
    ensures x == y
  {
    hide MemberLess;
    MemberLessIsStrict();
    OrderedSize(x);
    OrderedSize(y);
    var sx, sy := set m | m in x, set m | m in y;
    assert sx <= sy;
    SubsetSameSize(sx, sy);
    forall m ensures m in x <==> m in y {
      assert m in x <==> m in sx;
      assert m in y <==> m in sy;
    }
    OrderedUnique(MemberLess, x, y);
  }

  lemma {:induction false} OrderedSize(x: seq<Member>)
    requires Ordered(MemberLess, x)
    ensures |set m | m in x| == |x|
  {
    hide MemberLess;
    MemberLessIsStrict();
    if x != [] {
      OrderedSize(x[1..]);
      TailMembers(MemberLess, x, x[0]);
      assert x == [x[0]] + x[1..];
      assert (set m | m in x) == {x[0]} + set m | m in x[1..];
    }
  }

  lemma {:induction false} SubsetSameSize<T>(a: set<T>, b: set<T>)
    requires a <= b && |a| == |b|
    ensures a == b
  {
    assert |b - a| == |b| - |a|;
    assert b == a + (b - a);
  }
}
