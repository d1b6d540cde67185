/** The validator: what it reports, the traversal that collects it, and when it reports nothing. */
module SchemaValidator {
  import opened Decimal
  import opened JsonSchema
  import opened Options

  datatype Problem =
    | UnresolvedRef | NotConstant | NotEnumerated | WrongType
    | TooSmall | TooLarge | NotMultiple | TooShort | TooLong | NoPatternMatch | BadFormat
    | TooFewItems | TooManyItems | DuplicateItems | TooFewProperties | TooManyProperties
    | RequiredMissing | NotPermitted | NoShapeMatched | NotExactlyOneShape | ForbiddenShape

  datatype ValidationError = ValidationError(path: string, problem: Problem)

  function When(failed: bool, path: string, problem: Problem): seq<ValidationError> {
    if failed then [ValidationError(path, problem)] else []
  }

  // -------------------------------------------------------------- what is reported ---

  function NumberErrors(s: Schema, n: real, path: string): seq<ValidationError> {
    When(s.minimum.Some? && n < s.minimum.value, path, TooSmall)
    + When(s.maximum.Some? && n > s.maximum.value, path, TooLarge)
    + When(s.exclusiveMinimum.Some? && n <= s.exclusiveMinimum.value, path, TooSmall)
    + When(s.exclusiveMaximum.Some? && n >= s.exclusiveMaximum.value, path, TooLarge)
    + When(s.multipleOf.Some? && !IsMultiple(n, s.multipleOf.value), path, NotMultiple)
  }

  function StringErrors(env: Env, s: Schema, text: string, path: string): seq<ValidationError> {
    When(s.minLength.Some? && |text| < s.minLength.value, path, TooShort)
    + When(s.maxLength.Some? && |text| > s.maxLength.value, path, TooLong)
    + When(s.pattern.Some? && !env.matchesPattern(s.pattern.value, text), path, NoPatternMatch)
    + When(s.format.Some? && !env.matchesFormat(s.format.value, text), path, BadFormat)
  }

  /** The distinct canonical items are as many as the items. */
  predicate ItemsUnique(items: seq<Value>) {
    |set c | c in CanonicalItems(items)| == |items|
  }

  function ArraySizeErrors(s: Schema, items: seq<Value>, path: string): seq<ValidationError> {
    When(s.minItems.Some? && |items| < s.minItems.value, path, TooFewItems)
    + When(s.maxItems.Some? && |items| > s.maxItems.value, path, TooManyItems)
    + When(s.uniqueItems && !ItemsUnique(items), path, DuplicateItems)
  }

  function RequiredErrors(required: seq<string>, members: seq<Member>, path: string): seq<ValidationError> {
    if required == [] then [] else
      When(Index(members, required[0]) == -1, path + "/" + required[0], RequiredMissing)
      + RequiredErrors(required[1..], members, path)
  }

  function ObjectSizeErrors(s: Schema, members: seq<Member>, path: string): seq<ValidationError> {
    When(s.minProperties.Some? && |members| < s.minProperties.value, path, TooFewProperties)
    + When(s.maxProperties.Some? && |members| > s.maxProperties.value, path, TooManyProperties)
    + RequiredErrors(s.required, members, path)
  }

  function CountTrue(verdicts: seq<bool>): nat {
    if verdicts == [] then 0 else (if verdicts[0] then 1 else 0) + CountTrue(verdicts[1..])
  }

  predicate Declared(properties: seq<Property>, name: string) {
    exists i :: 0 <= i < |properties| && properties[i].name == name
  }

  lemma DeclaredMeaning(properties: seq<Property>, name: string)
    ensures Declared(properties, name) <==> exists p :: p in properties && p.name == name
  {
  }

  predicate ConstantAllowed(s: Schema, v: Value) {
    s.constant.Some? ==> DeepEqual(v, s.constant.value)
  }

  predicate EnumerationAllowed(s: Schema, v: Value) {
    s.enumeration.Some? ==> exists i :: 0 <= i < |s.enumeration.value| && DeepEqual(v, s.enumeration.value[i])
  }

  /** The errors of `check`, in the order it reports them. */
  function Errors(env: Env, s: Schema, v: Value, path: string, ghost k: nat): seq<ValidationError>
    requires Guarded(env) && RefsBelow(env, s, k)
    decreases v, k + 1, s
  {
    if s.ref.Some? then
      if s.ref.value !in env.defs then [ValidationError(path, UnresolvedRef)]
      else
        DefinitionRanked(env, s.ref.value);
        Errors(env, env.defs[s.ref.value], v, path, env.Rank(s.ref.value))
    else
      When(!ConstantAllowed(s, v), path, NotConstant) + When(!EnumerationAllowed(s, v), path, NotEnumerated)
      + if !TypeAllowed(s, v) then [ValidationError(path, WrongType)]
        else KindErrors(env, s, v, path) + CombinedErrors(env, s, v, path, k)
  }

  /** The keywords that combine other schemas over the same value. */
  function CombinedErrors(env: Env, s: Schema, v: Value, path: string, ghost k: nat): seq<ValidationError>
    requires Guarded(env) && RefsBelow(env, s, k) && s.ref.None?
    decreases v, k + 1, s, 0
  {
    AllOfErrors(env, s.allOf, v, path, k)
    + When(s.anyOf.Shapes? && true !in Verdicts(env, s.anyOf.list, v, k), path, NoShapeMatched)
    + When(s.oneOf.Shapes? && CountTrue(Verdicts(env, s.oneOf.list, v, k)) != 1, path, NotExactlyOneShape)
    + When(s.negated.Some? && Errors(env, s.negated.value, v, "", k) == [], path, ForbiddenShape)
  }

  /** The keywords that apply to the value's own kind. */
  function KindErrors(env: Env, s: Schema, v: Value, path: string): seq<ValidationError>
    requires Guarded(env)
    decreases v, 0
  {
    match v
    case Number(n) => NumberErrors(s, n, path)
    case Text(text) => StringErrors(env, s, text, path)
    case Array(items) =>
      ArraySizeErrors(s, items, path) + (if s.items.Some? then ItemErrors(env, s.items.value, items, 0, path) else [])
    case Object(members) =>
      ObjectSizeErrors(s, members, path) + PropertyErrors(env, s.properties, members, path)
      + (if s.additional.Anything? then [] else AdditionalErrors(env, s.properties, s.additional, members, path))
    case _ => []
  }

  function AllOfErrors(env: Env, subs: seq<Schema>, v: Value, path: string, ghost k: nat): seq<ValidationError>
    requires Guarded(env) && forall i :: 0 <= i < |subs| ==> RefsBelow(env, subs[i], k)
    decreases v, k + 1, subs
  {
    if subs == [] then [] else Errors(env, subs[0], v, path, k) + AllOfErrors(env, subs[1..], v, path, k)
  }

  /** `validateAgainst` of each shape in turn. */
  function Verdicts(env: Env, subs: seq<Schema>, v: Value, ghost k: nat): (r: seq<bool>)
    requires Guarded(env) && forall i :: 0 <= i < |subs| ==> RefsBelow(env, subs[i], k)
    ensures |r| == |subs|
    decreases v, k + 1, subs
  {
    if subs == [] then [] else [Errors(env, subs[0], v, "", k) == []] + Verdicts(env, subs[1..], v, k)
  }

  function ItemErrors(env: Env, s: Schema, items: seq<Value>, start: nat, path: string): seq<ValidationError>
    requires Guarded(env)
    decreases items
  {
    if items == [] then [] else
      RefsBelowTop(env, s);
      Errors(env, s, items[0], path + "/" + PrintNat(start), env.Top()) + ItemErrors(env, s, items[1..], start + 1, path)
  }

  function PropertyErrors(env: Env, properties: seq<Property>, members: seq<Member>, path: string): seq<ValidationError>
    requires Guarded(env)
    decreases members, |properties|
  {
    if properties == [] then [] else
      var p := properties[0];
      var i := Index(members, p.name);
      RefsBelowTop(env, p.schema);
      (if i == -1 then [] else Errors(env, p.schema, members[i].value, path + "/" + p.name, env.Top()))
      + PropertyErrors(env, properties[1..], members, path)
  }

  function AdditionalErrors(
      env: Env, properties: seq<Property>, additional: Additional, members: seq<Member>, path: string): seq<ValidationError>
    requires Guarded(env) && !additional.Anything?
    decreases members
  {
    if members == [] then [] else
      var m := members[0];
      (if Declared(properties, m.key) then []
       else if additional.Nothing? then [ValidationError(path + "/" + m.key, NotPermitted)]
       else
         RefsBelowTop(env, additional.schema);
         Errors(env, additional.schema, m.value, path + "/" + m.key, env.Top()))
      + AdditionalErrors(env, properties, additional, members[1..], path)
  }

  // ------------------------------------------------------------------ what is meant ---

  ghost predicate NumberAllowed(s: Schema, n: real) {
    && (s.minimum.Some? ==> s.minimum.value <= n) && (s.maximum.Some? ==> n <= s.maximum.value)
    && (s.exclusiveMinimum.Some? ==> s.exclusiveMinimum.value < n) && (s.exclusiveMaximum.Some? ==> n < s.exclusiveMaximum.value)
    && (s.multipleOf.Some? ==> IsMultiple(n, s.multipleOf.value))
  }

  ghost predicate StringAllowed(env: Env, s: Schema, text: string) {
    && (s.minLength.Some? ==> s.minLength.value <= |text|) && (s.maxLength.Some? ==> |text| <= s.maxLength.value)
    && (s.pattern.Some? ==> env.matchesPattern(s.pattern.value, text))
    && (s.format.Some? ==> env.matchesFormat(s.format.value, text))
  }

  ghost predicate ArraySizeAllowed(s: Schema, items: seq<Value>) {
    && (s.minItems.Some? ==> s.minItems.value <= |items|) && (s.maxItems.Some? ==> |items| <= s.maxItems.value)
    && (s.uniqueItems ==> forall i, j :: 0 <= i < j < |items| ==> !DeepEqual(items[i], items[j]))
  }

  ghost predicate HasMember(members: seq<Member>, name: string) {
    exists i :: 0 <= i < |members| && members[i].key == name
  }

  ghost predicate ObjectSizeAllowed(s: Schema, members: seq<Member>) {
    && (s.minProperties.Some? ==> s.minProperties.value <= |members|)
    && (s.maxProperties.Some? ==> |members| <= s.maxProperties.value)
    && forall i :: 0 <= i < |s.required| ==> HasMember(members, s.required[i])
  }

  /** The value satisfies the schema: a reference stands for its definition alone; otherwise every keyword that
      applies to the value holds. */
  ghost predicate Satisfies(env: Env, s: Schema, v: Value, k: nat)
    requires Guarded(env) && RefsBelow(env, s, k)
    decreases v, k + 1, s, 1
  {
    if s.ref.Some? then
      DefinitionRanked(env, s.ref.value);
      s.ref.value in env.defs && Satisfies(env, env.defs[s.ref.value], v, env.Rank(s.ref.value))
    else
      && ConstantAllowed(s, v) && EnumerationAllowed(s, v) && TypeAllowed(s, v)
      && KindAllowed(env, s, v) && CombinedAllowed(env, s, v, k)
  }

  /** Every schema of `allOf` is satisfied, some of `anyOf`, exactly one of `oneOf`, and not the one of `not`. */
  ghost predicate CombinedAllowed(env: Env, s: Schema, v: Value, k: nat)
    requires Guarded(env) && RefsBelow(env, s, k) && s.ref.None?
    decreases v, k + 1, s, 0
  {
    && EverySatisfied(env, s.allOf, v, k)
    && (s.anyOf.Shapes? ==> SomeSatisfied(env, s.anyOf.list, v, k))
    && (s.oneOf.Shapes? ==> OneSatisfied(env, s.oneOf.list, v, k))
    && (s.negated.Some? ==> !Satisfies(env, s.negated.value, v, k))
  }

  ghost predicate EverySatisfied(env: Env, list: seq<Schema>, v: Value, k: nat)
    requires Guarded(env) && forall i :: 0 <= i < |list| ==> RefsBelow(env, list[i], k)
    decreases v, k + 1, list
  {
    forall i :: 0 <= i < |list| ==> Satisfies(env, list[i], v, k)
  }

  ghost predicate SomeSatisfied(env: Env, list: seq<Schema>, v: Value, k: nat)
    requires Guarded(env) && forall i :: 0 <= i < |list| ==> RefsBelow(env, list[i], k)
    decreases v, k + 1, list, 0
  {
    exists i :: 0 <= i < |list| && Satisfies(env, list[i], v, k)
  }

  /** Some schema of the list is satisfied and no two are. */
  ghost predicate OneSatisfied(env: Env, list: seq<Schema>, v: Value, k: nat)
    requires Guarded(env) && forall i :: 0 <= i < |list| ==> RefsBelow(env, list[i], k)
    decreases v, k + 1, list, 1
  {
    && SomeSatisfied(env, list, v, k)
    && forall i, j :: 0 <= i < j < |list| ==> !(Satisfies(env, list[i], v, k) && Satisfies(env, list[j], v, k))
  }

  /** Every keyword for the value's own kind holds, down through its items and members. */
  ghost predicate KindAllowed(env: Env, s: Schema, v: Value)
    requires Guarded(env)
    decreases v, 0
  {
    match v
    case Number(n) => NumberAllowed(s, n)
    case Text(text) => StringAllowed(env, s, text)
    case Array(items) =>
      && ArraySizeAllowed(s, items)
      && (s.items.Some? ==> forall i :: 0 <= i < |items| ==> SatisfiesDeep(env, s.items.value, items[i]))
    case Object(members) =>
      && ObjectSizeAllowed(s, members)
      && PropertiesAllowed(env, s.properties, members)
      && (s.additional.Anything? || AdditionalAllowed(env, s.properties, s.additional, members))
    case _ => true
  }

  /** A member named in `properties` satisfies the schema given there. */
  ghost predicate PropertiesAllowed(env: Env, properties: seq<Property>, members: seq<Member>)
    requires Guarded(env)
    decreases members, 1
  {
    forall p, i :: 0 <= p < |properties| && 0 <= i < |members| && members[i].key == properties[p].name ==>
      SatisfiesDeep(env, properties[p].schema, members[i].value)
  }

  /** A member not named there is refused, or satisfies the schema for additional members. */
  ghost predicate AdditionalAllowed(env: Env, properties: seq<Property>, additional: Additional, members: seq<Member>)
    requires Guarded(env) && !additional.Anything?
    decreases members, 1
  {
    forall i :: 0 <= i < |members| && !Declared(properties, members[i].key) ==>
      additional.Only? && SatisfiesDeep(env, additional.schema, members[i].value)
  }

  /** The same, for a value inside the one being checked. */
  ghost predicate SatisfiesDeep(env: Env, s: Schema, v: Value)
    requires Guarded(env)
    decreases v, env.Top() + 1, s, 2
  {
    RefsBelowTop(env, s);
    Satisfies(env, s, v, env.Top())
  }

  /** `const` and `enum` compare up to the order of keys. */
  lemma ListedValuesMeaning(s: Schema, v: Value)
    requires WellFormed(v) && (s.constant.Some? ==> WellFormed(s.constant.value))
    requires s.enumeration.Some? ==> forall i :: 0 <= i < |s.enumeration.value| ==> WellFormed(s.enumeration.value[i])
    ensures ConstantAllowed(s, v) <==> (s.constant.Some? ==> SameValue(v, s.constant.value))
    ensures EnumerationAllowed(s, v) <==>
      (s.enumeration.Some? ==> exists i :: 0 <= i < |s.enumeration.value| && SameValue(v, s.enumeration.value[i]))
  {
    hide DeepEqual, SameValue, WellFormed;
    if s.constant.Some? {
      DeepEqualIffSame(v, s.constant.value);
    }
    if s.enumeration.Some? {
      forall i | 0 <= i < |s.enumeration.value|
        ensures DeepEqual(v, s.enumeration.value[i]) <==> SameValue(v, s.enumeration.value[i])
      {
        DeepEqualIffSame(v, s.enumeration.value[i]);
      }
    }
  }

  // ------------------------------------------------------------- nothing to report ---

  lemma {:induction false} CountTrueZero(verdicts: seq<bool>)
    ensures CountTrue(verdicts) == 0 <==> true !in verdicts
  {
    if verdicts != [] {
      CountTrueZero(verdicts[1..]);
      assert verdicts == [verdicts[0]] + verdicts[1..];
    }
  }

  ghost predicate NoTwo(verdicts: seq<bool>) {
    forall i, j :: 0 <= i < j < |verdicts| ==> !(verdicts[i] && verdicts[j])
  }

  lemma NoTwoByHead(verdicts: seq<bool>)
    requires verdicts != []
    ensures NoTwo(verdicts) <==> NoTwo(verdicts[1..]) && (verdicts[0] ==> true !in verdicts[1..])
  {
    var rest := verdicts[1..];
    assert forall i :: 0 <= i < |rest| ==> rest[i] == verdicts[i + 1];
    assert forall i :: 1 <= i < |verdicts| ==> verdicts[i] == rest[i - 1];
  }

  lemma {:induction false} CountTrueOne(verdicts: seq<bool>)
    ensures CountTrue(verdicts) == 1 <==> true in verdicts && NoTwo(verdicts)
  {
    hide NoTwo;
    if verdicts != [] {
      var rest := verdicts[1..];
      assert verdicts == [verdicts[0]] + rest;
      CountTrueOne(rest);
      CountTrueZero(rest);
      NoTwoByHead(verdicts);
      NoTrueNoTwo(rest);
    }
  }

  lemma NoTrueNoTwo(verdicts: seq<bool>)
    ensures true !in verdicts ==> NoTwo(verdicts)
  {
    if true !in verdicts {
      forall i | 0 <= i < |verdicts| ensures !verdicts[i] {
        assert verdicts[i] in verdicts;
      }
    }
  }

  lemma {:induction false} ItemsUniqueIff(items: seq<Value>)
    ensures ItemsUnique(items) <==> forall i, j :: 0 <= i < j < |items| ==> !DeepEqual(items[i], items[j])
  {
    hide Canonical;
    var copies := CanonicalItems(items);
    forall i | 0 <= i < |items| ensures copies[i] == Canonical(items[i]) {
      CanonicalItemsAt(items, i);
    }
    SetSizeIffDistinct(copies);
  }

  ghost predicate Distinct(s: seq<Value>) {
    forall i, j :: 0 <= i < j < |s| ==> s[i] != s[j]
  }

  lemma DistinctByHead(s: seq<Value>)
    requires s != []
    ensures Distinct(s) <==> s[0] !in s[1..] && Distinct(s[1..])
  {
    var rest := s[1..];
    assert forall i :: 0 <= i < |rest| ==> rest[i] == s[i + 1];
    assert forall i :: 1 <= i < |s| ==> s[i] == rest[i - 1];
  }

  lemma {:induction false} SetSizeIffDistinct(s: seq<Value>)
    ensures |set x | x in s| <= |s|
    ensures |set x | x in s| == |s| <==> Distinct(s)
  {
    hide Distinct;
    if s == [] {
      EmptyIsDistinct();
    } else {
      var rest := s[1..];
      SetSizeIffDistinct(rest);
      DistinctByHead(s);
      assert s == [s[0]] + rest;
      var all, tail := set x | x in s, set x | x in rest;
      assert all == {s[0]} + tail;
      if s[0] in rest {
        assert all == tail;
      } else {
        assert |all| == 1 + |tail|;
      }
    }
  }

  lemma EmptyIsDistinct()
    ensures Distinct([])
  {
  }

  lemma {:induction false} RequiredIff(required: seq<string>, members: seq<Member>, path: string)
    ensures RequiredErrors(required, members, path) == [] <==> forall i :: 0 <= i < |required| ==> HasMember(members, required[i])
  {
    if required != [] {
      RequiredIff(required[1..], members, path);
      assert required == [required[0]] + required[1..];
      assert HasMember(members, required[0]) <==> Index(members, required[0]) != -1;
    }
  }

  lemma ScalarsIff(env: Env, s: Schema, v: Value, path: string)
    ensures v.Number? ==> (NumberErrors(s, v.n, path) == [] <==> NumberAllowed(s, v.n))
    ensures v.Text? ==> (StringErrors(env, s, v.s, path) == [] <==> StringAllowed(env, s, v.s))
  {
    hide IsMultiple;
  }

  lemma ArraySizeIff(s: Schema, items: seq<Value>, path: string)
    ensures ArraySizeErrors(s, items, path) == [] <==> ArraySizeAllowed(s, items)
  {
    hide ItemsUnique, DeepEqual;
    ItemsUniqueIff(items);
  }

  lemma ObjectSizeIff(s: Schema, members: seq<Member>, path: string)
    ensures ObjectSizeErrors(s, members, path) == [] <==> ObjectSizeAllowed(s, members)
  {
    hide RequiredErrors, HasMember;
    RequiredIff(s.required, members, path);
  }

  lemma {:induction false} AllOfIff(env: Env, subs: seq<Schema>, v: Value, path: string, k: nat)
    requires Guarded(env) && WellFormed(v) && forall i :: 0 <= i < |subs| ==> RefsBelow(env, subs[i], k)
    ensures AllOfErrors(env, subs, v, path, k) == [] <==> EverySatisfied(env, subs, v, k)
    decreases v, k + 1, subs
  {
    hide Errors, Satisfies, RefsBelow, Guarded, WellFormed;
    if subs != [] {
      ValidIffSatisfies(env, subs[0], v, path, k);
      AllOfIff(env, subs[1..], v, path, k);
      assert forall i :: 1 <= i < |subs| ==> subs[i] == subs[1..][i - 1];
      assert forall i :: 0 <= i < |subs[1..]| ==> subs[1..][i] == subs[i + 1];
    }
  }

  lemma {:induction false} VerdictsIff(env: Env, subs: seq<Schema>, v: Value, k: nat)
    requires Guarded(env) && WellFormed(v) && forall i :: 0 <= i < |subs| ==> RefsBelow(env, subs[i], k)
    ensures forall i :: 0 <= i < |subs| ==> (Verdicts(env, subs, v, k)[i] <==> Satisfies(env, subs[i], v, k))
    decreases v, k + 1, subs, 0
  {
    hide Errors, Satisfies, RefsBelow, Guarded, WellFormed;
    if subs != [] {
      ValidIffSatisfies(env, subs[0], v, "", k);
      VerdictsIff(env, subs[1..], v, k);
      assert forall i :: 1 <= i < |subs| ==> subs[i] == subs[1..][i - 1];
      assert forall i :: 1 <= i < |subs| ==> Verdicts(env, subs, v, k)[i] == Verdicts(env, subs[1..], v, k)[i - 1];
    }
  }

  lemma {:induction false} ItemsIff(env: Env, s: Schema, items: seq<Value>, start: nat, path: string)
    requires Guarded(env) && forall i :: 0 <= i < |items| ==> WellFormed(items[i])
    ensures ItemErrors(env, s, items, start, path) == [] <==> forall i :: 0 <= i < |items| ==> SatisfiesDeep(env, s, items[i])
    decreases items, 0
  {
    hide Errors, Satisfies, RefsBelow, Guarded, WellFormed;
    if items != [] {
      RefsBelowTop(env, s);
      ValidIffSatisfies(env, s, items[0], path + "/" + PrintNat(start), env.Top());
      ItemsIff(env, s, items[1..], start + 1, path);
      assert forall i :: 1 <= i < |items| ==> items[i] == items[1..][i - 1];
      assert forall i :: 0 <= i < |items[1..]| ==> items[1..][i] == items[i + 1];
    }
  }

  lemma {:induction false} PropertiesIff(env: Env, properties: seq<Property>, members: seq<Member>, path: string)
    requires Guarded(env) && DistinctKeys(members) && forall i :: 0 <= i < |members| ==> WellFormed(members[i].value)
    ensures PropertyErrors(env, properties, members, path) == [] <==> PropertiesAllowed(env, properties, members)
    decreases members, |properties|
  {
    hide Errors, Satisfies, RefsBelow, Guarded, WellFormed;
    if properties != [] {
      var p := properties[0];
      var i := Index(members, p.name);
      RefsBelowTop(env, p.schema);
      if i != -1 {
        ValidIffSatisfies(env, p.schema, members[i].value, path + "/" + p.name, env.Top());
      }
      PropertiesIff(env, properties[1..], members, path);
      PropertiesByHead(env, properties, members, i);
    }
  }

  lemma PropertiesByHead(env: Env, properties: seq<Property>, members: seq<Member>, i: int)
    requires Guarded(env) && DistinctKeys(members) && properties != [] && i == Index(members, properties[0].name)
    ensures PropertiesAllowed(env, properties, members)
       <==> (i != -1 ==> SatisfiesDeep(env, properties[0].schema, members[i].value))
            && PropertiesAllowed(env, properties[1..], members)
  {
    hide SatisfiesDeep, Guarded;
    assert forall p :: 1 <= p < |properties| ==> properties[p] == properties[1..][p - 1];
    assert forall p :: 0 <= p < |properties[1..]| ==> properties[1..][p] == properties[p + 1];
  }

  lemma {:induction false} AdditionalIff(
      env: Env, properties: seq<Property>, additional: Additional, members: seq<Member>, path: string)
    requires Guarded(env) && !additional.Anything? && forall i :: 0 <= i < |members| ==> WellFormed(members[i].value)
    ensures AdditionalErrors(env, properties, additional, members, path) == []
       <==> AdditionalAllowed(env, properties, additional, members)
    decreases members, 0
  {
    hide Errors, Satisfies, RefsBelow, Guarded, Declared, WellFormed;
    if members != [] {
      if additional.Only? {
        RefsBelowTop(env, additional.schema);
        ValidIffSatisfies(env, additional.schema, members[0].value, path + "/" + members[0].key, env.Top());
      }
      AdditionalIff(env, properties, additional, members[1..], path);
      assert forall i :: 1 <= i < |members| ==> members[i] == members[1..][i - 1];
      assert forall i :: 0 <= i < |members[1..]| ==> members[1..][i] == members[i + 1];
    }
  }

  lemma ArrayIff(env: Env, s: Schema, items: seq<Value>, path: string)
    requires Guarded(env) && forall i :: 0 <= i < |items| ==> WellFormed(items[i])
    ensures ArraySizeErrors(s, items, path) + (if s.items.Some? then ItemErrors(env, s.items.value, items, 0, path) else []) == []
       <==> ArraySizeAllowed(s, items)
            && (s.items.Some? ==> forall i :: 0 <= i < |items| ==> SatisfiesDeep(env, s.items.value, items[i]))
    decreases items, 1
  {
    hide Guarded, WellFormed, ArraySizeErrors, ArraySizeAllowed, SatisfiesDeep, ItemErrors;
    ArraySizeIff(s, items, path);
    if s.items.Some? {
      ItemsIff(env, s.items.value, items, 0, path);
    }
  }

  lemma ObjectIff(env: Env, s: Schema, members: seq<Member>, path: string)
    requires Guarded(env) && DistinctKeys(members) && forall i :: 0 <= i < |members| ==> WellFormed(members[i].value)
    ensures ObjectSizeErrors(s, members, path) + PropertyErrors(env, s.properties, members, path)
            + (if s.additional.Anything? then [] else AdditionalErrors(env, s.properties, s.additional, members, path)) == []
       <==> ObjectSizeAllowed(s, members) && PropertiesAllowed(env, s.properties, members)
            && (s.additional.Anything? || AdditionalAllowed(env, s.properties, s.additional, members))
    decreases members, |s.properties| + 1
  {
    hide Guarded, WellFormed, ObjectSizeErrors, ObjectSizeAllowed, PropertiesAllowed, AdditionalAllowed,
         PropertyErrors, AdditionalErrors, DistinctKeys;
    ObjectSizeIff(s, members, path);
    PropertiesIff(env, s.properties, members, path);
    if !s.additional.Anything? {
      AdditionalIff(env, s.properties, s.additional, members, path);
    }
  }

  /** The keywords that apply to the value's own kind report nothing. */
  lemma KindIff(env: Env, s: Schema, v: Value, path: string)
    requires Guarded(env) && WellFormed(v)
    ensures KindErrors(env, s, v, path) == [] <==> KindAllowed(env, s, v)
    decreases v, 0
  {
    hide Guarded, ArraySizeErrors, ObjectSizeErrors, PropertyErrors, AdditionalErrors, ItemErrors, NumberErrors, StringErrors,
         NumberAllowed, StringAllowed, ArraySizeAllowed, ObjectSizeAllowed, SatisfiesDeep, Declared;
    ScalarsIff(env, s, v, path);
    if v.Array? {
      ArrayIff(env, s, v.items, path);
    } else if v.Object? {
      ObjectIff(env, s, v.members, path);
    }
  }

  lemma ShapesIff(env: Env, list: seq<Schema>, v: Value, k: nat)
    requires Guarded(env) && WellFormed(v) && forall i :: 0 <= i < |list| ==> RefsBelow(env, list[i], k)
    ensures true in Verdicts(env, list, v, k) <==> SomeSatisfied(env, list, v, k)
    ensures CountTrue(Verdicts(env, list, v, k)) == 1 <==> OneSatisfied(env, list, v, k)
    decreases v, k + 1, list, 1
  {
    hide Guarded, WellFormed, RefsBelow, Satisfies, Verdicts, CountTrue;
    VerdictsIff(env, list, v, k);
    var verdicts := Verdicts(env, list, v, k);
    CountTrueOne(verdicts);
    if exists i :: 0 <= i < |list| && Satisfies(env, list[i], v, k) {
      var i :| 0 <= i < |list| && Satisfies(env, list[i], v, k);
      assert verdicts[i];
    }
  }

  lemma CombinedIff(env: Env, s: Schema, v: Value, path: string, k: nat)
    requires Guarded(env) && RefsBelow(env, s, k) && s.ref.None? && WellFormed(v)
    ensures CombinedErrors(env, s, v, path, k) == [] <==> CombinedAllowed(env, s, v, k)
    decreases v, k + 1, s, 0
  {
    hide Guarded, WellFormed, Satisfies, Errors, Verdicts, CountTrue, AllOfErrors, EverySatisfied, SomeSatisfied, OneSatisfied;
    AllOfIff(env, s.allOf, v, path, k);
    if s.anyOf.Shapes? { ShapesIff(env, s.anyOf.list, v, k); }
    if s.oneOf.Shapes? { ShapesIff(env, s.oneOf.list, v, k); }
    if s.negated.Some? { ValidIffSatisfies(env, s.negated.value, v, "", k); }
  }

  /** The traversal reports nothing exactly when the value satisfies the schema, at any path: so the boolean
      test used for `anyOf`, `oneOf` and `not` agrees with the traversal that collects errors. */
  lemma {:induction false} ValidIffSatisfies(env: Env, s: Schema, v: Value, path: string, k: nat)
    requires Guarded(env) && RefsBelow(env, s, k)
    requires WellFormed(v)
    ensures Errors(env, s, v, path, k) == [] <==> Satisfies(env, s, v, k)
    decreases v, k + 1, s
  {
    hide Guarded, WellFormed, TypeAllowed, ConstantAllowed, EnumerationAllowed, KindErrors, KindAllowed,
         CombinedErrors, CombinedAllowed;
    if s.ref.Some? {
      if s.ref.value in env.defs {
        DefinitionRanked(env, s.ref.value);
        ValidIffSatisfies(env, env.defs[s.ref.value], v, path, env.Rank(s.ref.value));
      }
    } else {
      KindIff(env, s, v, path);
      CombinedIff(env, s, v, path, k);
    }
  }

  /** `validate(schema, value).valid` holds exactly when the value satisfies the root schema. */
  lemma RootValidIffSatisfies(env: Env, root: Schema, v: Value)
    requires Guarded(env) && WellFormed(v)
    ensures RefsBelow(env, root, env.Top())
    ensures Errors(env, root, v, "", env.Top()) == [] <==> SatisfiesDeep(env, root, v)
  {
    hide Guarded, WellFormed, RefsBelow, Errors, Satisfies;
    RefsBelowTop(env, root);
    ValidIffSatisfies(env, root, v, "", env.Top());
  }
}
