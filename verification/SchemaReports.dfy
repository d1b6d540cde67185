/** Which errors a traversal reports: one for each failing keyword at each place it comes to, and nothing else. */
module SchemaReports {
  import opened Decimal
  import opened JsonSchema
  import opened Options
  import opened SchemaValidator

  /** A schema being checked against a value, at a path; `k` bounds the ranks of its references. */
  datatype Site = Site(path: string, schema: Schema, value: Value, k: nat)

  ghost predicate Legal(env: Env, a: Site) {
    Guarded(env) && RefsBelow(env, a.schema, a.k) && WellFormed(a.value)
  }

  ghost predicate Reports(env: Env, a: Site, e: ValidationError)
    requires Legal(env, a)
  {
    e in Errors(env, a.schema, a.value, a.path, a.k)
  }

  // ------------------------------------------------------------ where it goes ---

  function Child(path: string, name: string): string {
    path + "/" + name
  }

  ghost predicate IntoAllOf(a: Site, b: Site) {
    exists i :: 0 <= i < |a.schema.allOf| && b == Site(a.path, a.schema.allOf[i], a.value, a.k)
  }

  ghost predicate IntoItem(env: Env, a: Site, b: Site) {
    && a.value.Array? && a.schema.items.Some?
    && exists i :: 0 <= i < |a.value.items| &&
         b == Site(Child(a.path, PrintNat(i)), a.schema.items.value, a.value.items[i], env.Top())
  }

  ghost predicate IntoProperty(env: Env, a: Site, b: Site) {
    && a.value.Object?
    && exists p, i :: 0 <= p < |a.schema.properties| && 0 <= i < |a.value.members| &&
         AtProperty(env, a, b, a.schema.properties[p], a.value.members[i])
  }

  ghost predicate AtProperty(env: Env, a: Site, b: Site, p: Property, m: Member) {
    m.key == p.name && b == Site(Child(a.path, p.name), p.schema, m.value, env.Top())
  }

  ghost predicate IntoAdditional(env: Env, a: Site, b: Site) {
    && a.value.Object? && a.schema.additional.Only?
    && exists i :: 0 <= i < |a.value.members| && !Declared(a.schema.properties, a.value.members[i].key) &&
         b == Site(Child(a.path, a.value.members[i].key), a.schema.additional.schema, a.value.members[i].value, env.Top())
  }

  /** The traversal goes on from one place to another: to the definition a reference names; and, when the type is right,
      to every schema of `allOf`, every item under its index, every declared member under its name and every other one
      that `additionalProperties` describes. */
  ghost predicate Leads(env: Env, a: Site, b: Site)
    requires Guarded(env)
  {
    if a.schema.ref.Some? then
      && a.schema.ref.value in env.defs
      && b == Site(a.path, env.defs[a.schema.ref.value], a.value, env.Rank(a.schema.ref.value))
    else
      && TypeAllowed(a.schema, a.value)
      && (IntoAllOf(a, b) || IntoItem(env, a, b) || IntoProperty(env, a, b) || IntoAdditional(env, a, b))
  }

  // ------------------------------------------------------------- what fails there ---

  /** The keyword that a problem of the value itself stands for, failing. */
  ghost predicate KeywordFails(env: Env, s: Schema, v: Value, problem: Problem) {
    match problem
    case TooSmall =>
      v.Number? && ((s.minimum.Some? && v.n < s.minimum.value) || (s.exclusiveMinimum.Some? && v.n <= s.exclusiveMinimum.value))
    case TooLarge =>
      v.Number? && ((s.maximum.Some? && s.maximum.value < v.n) || (s.exclusiveMaximum.Some? && s.exclusiveMaximum.value <= v.n))
    case NotMultiple => v.Number? && s.multipleOf.Some? && !IsMultiple(v.n, s.multipleOf.value)
    case TooShort => v.Text? && s.minLength.Some? && |v.s| < s.minLength.value
    case TooLong => v.Text? && s.maxLength.Some? && s.maxLength.value < |v.s|
    case NoPatternMatch => v.Text? && s.pattern.Some? && !env.matchesPattern(s.pattern.value, v.s)
    case BadFormat => v.Text? && s.format.Some? && !env.matchesFormat(s.format.value, v.s)
    case TooFewItems => v.Array? && s.minItems.Some? && |v.items| < s.minItems.value
    case TooManyItems => v.Array? && s.maxItems.Some? && s.maxItems.value < |v.items|
    case DuplicateItems =>
      v.Array? && s.uniqueItems && exists i, j :: 0 <= i < j < |v.items| && DeepEqual(v.items[i], v.items[j])
    case TooFewProperties => v.Object? && s.minProperties.Some? && |v.members| < s.minProperties.value
    case TooManyProperties => v.Object? && s.maxProperties.Some? && s.maxProperties.value < |v.members|
    case _ => false
  }

  /** The keyword that combines schemas, failing. */
  ghost predicate ShapeFails(env: Env, a: Site, problem: Problem)
    requires Legal(env, a) && a.schema.ref.None?
  {
    match problem
    case NoShapeMatched => a.schema.anyOf.Shapes? && !SomeSatisfied(env, a.schema.anyOf.list, a.value, a.k)
    case NotExactlyOneShape => a.schema.oneOf.Shapes? && !OneSatisfied(env, a.schema.oneOf.list, a.value, a.k)
    case ForbiddenShape => a.schema.negated.Some? && Satisfies(env, a.schema.negated.value, a.value, a.k)
    case _ => false
  }

  /** A required member is missing, or a member is there that is not permitted: named by the path. */
  ghost predicate MemberFails(a: Site, e: ValidationError) {
    && a.value.Object?
    && (|| (e.problem.RequiredMissing? &&
            exists r :: 0 <= r < |a.schema.required| && !HasMember(a.value.members, a.schema.required[r])
              && e.path == Child(a.path, a.schema.required[r]))
        || (e.problem.NotPermitted? && a.schema.additional.Nothing? &&
            exists i :: 0 <= i < |a.value.members| && !Declared(a.schema.properties, a.value.members[i].key)
              && e.path == Child(a.path, a.value.members[i].key)))
  }

  /** A keyword fails at this very place. After a wrong type nothing but `const` and `enum` is looked at. */
  ghost predicate Breaks(env: Env, a: Site, e: ValidationError)
    requires Legal(env, a)
  {
    if a.schema.ref.Some? then a.schema.ref.value !in env.defs && e == ValidationError(a.path, UnresolvedRef)
    else
      || (e == ValidationError(a.path, NotConstant) && !ConstantAllowed(a.schema, a.value))
      || (e == ValidationError(a.path, NotEnumerated) && !EnumerationAllowed(a.schema, a.value))
      || (if !TypeAllowed(a.schema, a.value) then e == ValidationError(a.path, WrongType)
          else
            || (e.path == a.path && KeywordFails(env, a.schema, a.value, e.problem))
            || (e.path == a.path && ShapeFails(env, a, e.problem))
            || MemberFails(a, e))
  }

  // ------------------------------------------------------------------- one level ---

  lemma LeadsToLegal(env: Env, a: Site, b: Site)
    requires Legal(env, a) && Leads(env, a, b)
    ensures Legal(env, b)
    ensures (a.value, a.k + 1, a.schema decreases to b.value, b.k + 1, b.schema)
  {
    hide Guarded;
    if a.schema.ref.Some? {
      DefinitionRanked(env, a.schema.ref.value);
    } else if !IntoAllOf(a, b) {
      RefsBelowTop(env, b.schema);
    }
  }

  lemma WhenReports(failed: bool, path: string, problem: Problem, e: ValidationError)
    ensures e in When(failed, path, problem) <==> failed && e == ValidationError(path, problem)
  {
  }

  lemma {:induction false} AllOfReports(env: Env, subs: seq<Schema>, v: Value, path: string, k: nat, e: ValidationError)
    requires Guarded(env) && forall i :: 0 <= i < |subs| ==> RefsBelow(env, subs[i], k)
    ensures e in AllOfErrors(env, subs, v, path, k) <==> exists i :: 0 <= i < |subs| && e in Errors(env, subs[i], v, path, k)
    decreases |subs|
  {
    hide Errors, RefsBelow, Guarded;
    if subs != [] {
      AllOfReports(env, subs[1..], v, path, k, e);
      assert forall i :: 0 <= i < |subs[1..]| ==> subs[1..][i] == subs[i + 1];
      assert forall i :: 1 <= i < |subs| ==> subs[i] == subs[1..][i - 1];
    }
  }

  /** What an item reports, under its index. */
  ghost predicate ItemReports(env: Env, s: Schema, item: Value, index: nat, path: string, e: ValidationError)
    requires Guarded(env)
  {
    RefsBelowTop(env, s);
    e in Errors(env, s, item, Child(path, PrintNat(index)), env.Top())
  }

  lemma {:induction false} ItemsReport(env: Env, s: Schema, items: seq<Value>, start: nat, path: string, e: ValidationError)
    requires Guarded(env)
    ensures e in ItemErrors(env, s, items, start, path)
       <==> exists i :: 0 <= i < |items| && ItemReports(env, s, items[i], start + i, path, e)
    decreases |items|
  {
    hide Errors, RefsBelow, Guarded, ItemReports;
    if items != [] {
      HeadItemReports(env, s, items, start, path, e);
      var rest := items[1..];
      ItemsReport(env, s, rest, start + 1, path, e);
      hide ItemErrors;
      forall i | 1 <= i < |items| ensures ItemReports(env, s, items[i], start + i, path, e)
                                     <==> ItemReports(env, s, rest[i - 1], start + 1 + (i - 1), path, e) {
        assert items[i] == rest[i - 1];
      }
      assert forall i :: 0 <= i < |rest| ==> rest[i] == items[i + 1];
      if exists i :: 0 <= i < |rest| && ItemReports(env, s, rest[i], start + 1 + i, path, e) {
        var i :| 0 <= i < |rest| && ItemReports(env, s, rest[i], start + 1 + i, path, e);
        assert ItemReports(env, s, items[i + 1], start + (i + 1), path, e);
      }
      if exists i :: 0 <= i < |items| && ItemReports(env, s, items[i], start + i, path, e) {
        var i :| 0 <= i < |items| && ItemReports(env, s, items[i], start + i, path, e);
        if i > 0 {
          assert ItemReports(env, s, rest[i - 1], start + 1 + (i - 1), path, e);
        }
      }
    }
  }

  lemma HeadItemReports(env: Env, s: Schema, items: seq<Value>, start: nat, path: string, e: ValidationError)
    requires Guarded(env) && items != []
    ensures e in ItemErrors(env, s, items, start, path)
       <==> ItemReports(env, s, items[0], start, path, e) || e in ItemErrors(env, s, items[1..], start + 1, path)
  {
    hide Errors, RefsBelow, Guarded;
  }

  ghost predicate PropertyReports(env: Env, p: Property, m: Member, path: string, e: ValidationError)
    requires Guarded(env)
  {
    RefsBelowTop(env, p.schema);
    m.key == p.name && e in Errors(env, p.schema, m.value, Child(path, p.name), env.Top())
  }

  lemma {:induction false} PropertiesReport(
      env: Env, properties: seq<Property>, members: seq<Member>, path: string, e: ValidationError)
    requires Guarded(env) && DistinctKeys(members)
    ensures e in PropertyErrors(env, properties, members, path)
       <==> exists p, i :: 0 <= p < |properties| && 0 <= i < |members| && PropertyReports(env, properties[p], members[i], path, e)
    decreases |properties|
  {
    hide Errors, RefsBelow, Guarded, PropertyReports;
    if properties != [] {
      HeadPropertyReports(env, properties, members, path, e);
      PropertiesReport(env, properties[1..], members, path, e);
      hide PropertyErrors;
      assert forall p :: 0 <= p < |properties[1..]| ==> properties[1..][p] == properties[p + 1];
      assert forall p :: 1 <= p < |properties| ==> properties[p] == properties[1..][p - 1];
    }
  }

  lemma HeadPropertyReports(env: Env, properties: seq<Property>, members: seq<Member>, path: string, e: ValidationError)
    requires Guarded(env) && DistinctKeys(members) && properties != []
    ensures e in PropertyErrors(env, properties, members, path)
       <==> (exists i :: 0 <= i < |members| && PropertyReports(env, properties[0], members[i], path, e))
            || e in PropertyErrors(env, properties[1..], members, path)
  {
    hide Errors, RefsBelow, Guarded;
    var i := Index(members, properties[0].name);
    if i != -1 {
      assert forall j :: 0 <= j < |members| && members[j].key == properties[0].name ==> j == i;
    }
  }

  ghost predicate AdditionalReports(
      env: Env, properties: seq<Property>, additional: Additional, m: Member, path: string, e: ValidationError)
    requires Guarded(env) && !additional.Anything?
  {
    && !Declared(properties, m.key)
    && if additional.Nothing? then e == ValidationError(Child(path, m.key), NotPermitted)
       else
         RefsBelowTop(env, additional.schema);
         e in Errors(env, additional.schema, m.value, Child(path, m.key), env.Top())
  }

  lemma {:induction false} AdditionalsReport(
      env: Env, properties: seq<Property>, additional: Additional, members: seq<Member>, path: string, e: ValidationError)
    requires Guarded(env) && !additional.Anything?
    ensures e in AdditionalErrors(env, properties, additional, members, path)
       <==> exists i :: 0 <= i < |members| && AdditionalReports(env, properties, additional, members[i], path, e)
    decreases |members|
  {
    hide Errors, RefsBelow, Guarded, AdditionalReports, Declared;
    if members != [] {
      HeadAdditionalReports(env, properties, additional, members, path, e);
      AdditionalsReport(env, properties, additional, members[1..], path, e);
      hide AdditionalErrors;
      assert forall i :: 0 <= i < |members[1..]| ==> members[1..][i] == members[i + 1];
      assert forall i :: 1 <= i < |members| ==> members[i] == members[1..][i - 1];
    }
  }

  lemma HeadAdditionalReports(
      env: Env, properties: seq<Property>, additional: Additional, members: seq<Member>, path: string, e: ValidationError)
    requires Guarded(env) && !additional.Anything? && members != []
    ensures e in AdditionalErrors(env, properties, additional, members, path)
       <==> AdditionalReports(env, properties, additional, members[0], path, e)
            || e in AdditionalErrors(env, properties, additional, members[1..], path)
  {
    hide Errors, RefsBelow, Guarded, Declared;
  }

  lemma {:induction false} RequiredReport(required: seq<string>, members: seq<Member>, path: string, e: ValidationError)
    ensures e in RequiredErrors(required, members, path)
       <==> e.problem.RequiredMissing? && exists r :: 0 <= r < |required| && !HasMember(members, required[r])
                                                      && e.path == Child(path, required[r])
  {
    if required != [] {
      RequiredReport(required[1..], members, path, e);
      assert HasMember(members, required[0]) <==> Index(members, required[0]) != -1;
      assert forall r :: 0 <= r < |required[1..]| ==> required[1..][r] == required[r + 1];
      assert forall r :: 1 <= r < |required| ==> required[r] == required[1..][r - 1];
      hide HasMember, Index;
    }
  }

  // --------------------------------------------- each kind of value, and the shapes ---

  lemma NumberReport(env: Env, s: Schema, v: Value, path: string, e: ValidationError)
    requires v.Number?
    ensures e in NumberErrors(s, v.n, path) <==> e.path == path && KeywordFails(env, s, v, e.problem)
  {
    hide IsMultiple, When;
    var n := v.n;
    WhenReports(s.minimum.Some? && n < s.minimum.value, path, TooSmall, e);
    WhenReports(s.maximum.Some? && n > s.maximum.value, path, TooLarge, e);
    WhenReports(s.exclusiveMinimum.Some? && n <= s.exclusiveMinimum.value, path, TooSmall, e);
    WhenReports(s.exclusiveMaximum.Some? && n >= s.exclusiveMaximum.value, path, TooLarge, e);
    WhenReports(s.multipleOf.Some? && !IsMultiple(n, s.multipleOf.value), path, NotMultiple, e);
  }

  lemma TextReport(env: Env, s: Schema, v: Value, path: string, e: ValidationError)
    requires v.Text?
    ensures e in StringErrors(env, s, v.s, path) <==> e.path == path && KeywordFails(env, s, v, e.problem)
  {
    hide When;
    WhenReports(s.minLength.Some? && |v.s| < s.minLength.value, path, TooShort, e);
    WhenReports(s.maxLength.Some? && |v.s| > s.maxLength.value, path, TooLong, e);
    WhenReports(s.pattern.Some? && !env.matchesPattern(s.pattern.value, v.s), path, NoPatternMatch, e);
    WhenReports(s.format.Some? && !env.matchesFormat(s.format.value, v.s), path, BadFormat, e);
  }

  lemma ArraySizeReport(env: Env, s: Schema, v: Value, path: string, e: ValidationError)
    requires v.Array?
    ensures e in ArraySizeErrors(s, v.items, path) <==> e.path == path && KeywordFails(env, s, v, e.problem)
  {
    hide ItemsUnique, DeepEqual;
    ItemsUniqueIff(v.items);
  }

  lemma ObjectSizeReport(env: Env, s: Schema, v: Value, path: string, e: ValidationError)
    requires v.Object?
    ensures e in ObjectSizeErrors(s, v.members, path)
       <==> (e.path == path && KeywordFails(env, s, v, e.problem)) || e in RequiredErrors(s.required, v.members, path)
  {
    hide RequiredErrors;
  }

  ghost predicate Below(env: Env, b: Site, e: ValidationError) {
    Legal(env, b) && Reports(env, b, e)
  }

  lemma ArrayReport(env: Env, a: Site, e: ValidationError)
    requires Legal(env, a) && a.value.Array?
    ensures e in KindErrors(env, a.schema, a.value, a.path)
       <==> (e.path == a.path && KeywordFails(env, a.schema, a.value, e.problem))
            || exists b :: IntoItem(env, a, b) && Below(env, b, e)
  {
    hide Errors, RefsBelow, Guarded, KeywordFails, ArraySizeErrors, ItemErrors;
    ArraySizeReport(env, a.schema, a.value, a.path, e);
    if a.schema.items.Some? {
      var s, items := a.schema.items.value, a.value.items;
      RefsBelowTop(env, s);
      ItemsReport(env, s, items, 0, a.path, e);
      forall i | 0 <= i < |items|
        ensures ItemReports(env, s, items[i], 0 + i, a.path, e)
           <==> Below(env, Site(Child(a.path, PrintNat(i)), s, items[i], env.Top()), e)
      {
      }
      if exists i :: 0 <= i < |items| && ItemReports(env, s, items[i], 0 + i, a.path, e) {
        var i :| 0 <= i < |items| && ItemReports(env, s, items[i], 0 + i, a.path, e);
        assert IntoItem(env, a, Site(Child(a.path, PrintNat(i)), s, items[i], env.Top()));
      }
    }
  }

  lemma PropertyBelow(env: Env, a: Site, e: ValidationError)
    requires Legal(env, a) && a.value.Object?
    ensures e in PropertyErrors(env, a.schema.properties, a.value.members, a.path)
       <==> exists b :: IntoProperty(env, a, b) && Below(env, b, e)
  {
    hide Errors, RefsBelow, Guarded, PropertyErrors;
    var properties, members := a.schema.properties, a.value.members;
    PropertiesReport(env, properties, members, a.path, e);
    forall p, i | 0 <= p < |properties| && 0 <= i < |members|
      ensures PropertyReports(env, properties[p], members[i], a.path, e)
         <==> members[i].key == properties[p].name
              && Below(env, Site(Child(a.path, properties[p].name), properties[p].schema, members[i].value, env.Top()), e)
    {
      RefsBelowTop(env, properties[p].schema);
    }
    if exists p, i :: 0 <= p < |properties| && 0 <= i < |members| && PropertyReports(env, properties[p], members[i], a.path, e) {
      var p, i :| 0 <= p < |properties| && 0 <= i < |members| && PropertyReports(env, properties[p], members[i], a.path, e);
      var b := Site(Child(a.path, properties[p].name), properties[p].schema, members[i].value, env.Top());
      assert AtProperty(env, a, b, properties[p], members[i]);
      assert IntoProperty(env, a, b);
    }
  }

  lemma AdditionalBelow(env: Env, a: Site, e: ValidationError)
    requires Legal(env, a) && a.value.Object? && !a.schema.additional.Anything?
    ensures e in AdditionalErrors(env, a.schema.properties, a.schema.additional, a.value.members, a.path)
       <==> (e.problem.NotPermitted? && a.schema.additional.Nothing? &&
               exists i :: 0 <= i < |a.value.members| && !Declared(a.schema.properties, a.value.members[i].key)
                 && e.path == Child(a.path, a.value.members[i].key))
            || exists b :: IntoAdditional(env, a, b) && Below(env, b, e)
  {
    hide Errors, RefsBelow, Guarded, AdditionalErrors, Declared;
    var properties, additional, members := a.schema.properties, a.schema.additional, a.value.members;
    AdditionalsReport(env, properties, additional, members, a.path, e);
    if additional.Only? {
      RefsBelowTop(env, additional.schema);
      forall i | 0 <= i < |members|
        ensures AdditionalReports(env, properties, additional, members[i], a.path, e)
           <==> !Declared(properties, members[i].key)
                && Below(env, Site(Child(a.path, members[i].key), additional.schema, members[i].value, env.Top()), e)
      {
      }
      if exists i :: 0 <= i < |members| && AdditionalReports(env, properties, additional, members[i], a.path, e) {
        var i :| 0 <= i < |members| && AdditionalReports(env, properties, additional, members[i], a.path, e);
        assert IntoAdditional(env, a, Site(Child(a.path, members[i].key), additional.schema, members[i].value, env.Top()));
      }
    }
  }

  lemma ObjectReport(env: Env, a: Site, e: ValidationError)
    requires Legal(env, a) && a.value.Object?
    ensures e in KindErrors(env, a.schema, a.value, a.path)
       <==> || (e.path == a.path && KeywordFails(env, a.schema, a.value, e.problem))
            || MemberFails(a, e)
            || (exists b :: IntoProperty(env, a, b) && Below(env, b, e))
            || (exists b :: IntoAdditional(env, a, b) && Below(env, b, e))
  {
    hide Errors, RefsBelow, Guarded, KeywordFails, ObjectSizeErrors, PropertyErrors, AdditionalErrors, RequiredErrors, Declared,
         HasMember, Below, IntoProperty;
    ObjectSizeReport(env, a.schema, a.value, a.path, e);
    RequiredReport(a.schema.required, a.value.members, a.path, e);
    PropertyBelow(env, a, e);
    if !a.schema.additional.Anything? {
      AdditionalBelow(env, a, e);
    }
  }

  lemma KindReport(env: Env, a: Site, e: ValidationError)
    requires Legal(env, a)
    ensures e in KindErrors(env, a.schema, a.value, a.path)
       <==> || (e.path == a.path && KeywordFails(env, a.schema, a.value, e.problem))
            || MemberFails(a, e)
            || (exists b :: IntoItem(env, a, b) && Below(env, b, e))
            || (exists b :: IntoProperty(env, a, b) && Below(env, b, e))
            || (exists b :: IntoAdditional(env, a, b) && Below(env, b, e))
  {
    hide RefsBelow, Guarded, Below, NumberErrors, StringErrors, ArraySizeErrors, ObjectSizeErrors, ItemErrors, PropertyErrors,
         AdditionalErrors;
    match a.value
    case Number(_) => NumberReport(env, a.schema, a.value, a.path, e);
    case Text(_) => TextReport(env, a.schema, a.value, a.path, e);
    case Array(_) => ArrayReport(env, a, e);
    case Object(_) => ObjectReport(env, a, e);
    case _ =>
  }

  lemma CombinedReport(env: Env, a: Site, e: ValidationError)
    requires Legal(env, a) && a.schema.ref.None?
    ensures e in CombinedErrors(env, a.schema, a.value, a.path, a.k)
       <==> (e.path == a.path && ShapeFails(env, a, e.problem)) || exists b :: IntoAllOf(a, b) && Below(env, b, e)
  {
    hide Errors, Guarded, WellFormed, Satisfies, Verdicts, CountTrue, AllOfErrors, SomeSatisfied, OneSatisfied, When;
    var s, v, k := a.schema, a.value, a.k;
    AllOfReports(env, s.allOf, v, a.path, k, e);
    ShapeReport(env, a, e);
    AllOfBelow(env, a, e);
  }

  lemma ShapeReport(env: Env, a: Site, e: ValidationError)
    requires Legal(env, a) && a.schema.ref.None?
    ensures var s, v, path, k := a.schema, a.value, a.path, a.k;
      e in When(s.anyOf.Shapes? && true !in Verdicts(env, s.anyOf.list, v, k), path, NoShapeMatched)
        || e in When(s.oneOf.Shapes? && CountTrue(Verdicts(env, s.oneOf.list, v, k)) != 1, path, NotExactlyOneShape)
        || e in When(s.negated.Some? && Errors(env, s.negated.value, v, "", k) == [], path, ForbiddenShape)
      <==> e.path == path && ShapeFails(env, a, e.problem)
  {
    hide Errors, Guarded, WellFormed, Satisfies, Verdicts, CountTrue, SomeSatisfied, OneSatisfied, When;
    var s, v, path, k := a.schema, a.value, a.path, a.k;
    if s.anyOf.Shapes? { ShapesIff(env, s.anyOf.list, v, k); }
    if s.oneOf.Shapes? { ShapesIff(env, s.oneOf.list, v, k); }
    if s.negated.Some? { ValidIffSatisfies(env, s.negated.value, v, "", k); }
    WhenReports(s.anyOf.Shapes? && true !in Verdicts(env, s.anyOf.list, v, k), path, NoShapeMatched, e);
    WhenReports(s.oneOf.Shapes? && CountTrue(Verdicts(env, s.oneOf.list, v, k)) != 1, path, NotExactlyOneShape, e);
    WhenReports(s.negated.Some? && Errors(env, s.negated.value, v, "", k) == [], path, ForbiddenShape, e);
  }

  lemma AllOfBelow(env: Env, a: Site, e: ValidationError)
    requires Legal(env, a) && a.schema.ref.None?
    ensures (exists i :: 0 <= i < |a.schema.allOf| && e in Errors(env, a.schema.allOf[i], a.value, a.path, a.k))
       <==> exists b :: IntoAllOf(a, b) && Below(env, b, e)
  {
    hide Errors, Guarded, WellFormed;
    var s, v, k := a.schema, a.value, a.k;
    if exists i :: 0 <= i < |s.allOf| && e in Errors(env, s.allOf[i], v, a.path, k) {
      var i :| 0 <= i < |s.allOf| && e in Errors(env, s.allOf[i], v, a.path, k);
      assert IntoAllOf(a, Site(a.path, s.allOf[i], v, k)) && Below(env, Site(a.path, s.allOf[i], v, k), e);
    }
  }

  /** What a place reports fails right there, or is reported by a place its traversal goes on to; and the other way
      round. */
  lemma OneLevel(env: Env, a: Site, e: ValidationError)
    requires Legal(env, a)
    ensures Reports(env, a, e) <==> Breaks(env, a, e) || exists b :: Leads(env, a, b) && Below(env, b, e)
  {
    if a.schema.ref.Some? {
      ReferenceReport(env, a, e);
    } else {
      hide RefsBelow, Guarded, KeywordFails, ShapeFails, MemberFails, Below, KindErrors, CombinedErrors, IntoItem, IntoProperty,
           IntoAdditional, IntoAllOf, ConstantAllowed, EnumerationAllowed, TypeAllowed, When;
      WhenReports(!ConstantAllowed(a.schema, a.value), a.path, NotConstant, e);
      WhenReports(!EnumerationAllowed(a.schema, a.value), a.path, NotEnumerated, e);
      if TypeAllowed(a.schema, a.value) {
        KindReport(env, a, e);
        CombinedReport(env, a, e);
        BelowByWay(env, a, e);
      }
    }
  }

  lemma BelowByWay(env: Env, a: Site, e: ValidationError)
    requires Legal(env, a) && a.schema.ref.None? && TypeAllowed(a.schema, a.value)
    ensures (exists b :: Leads(env, a, b) && Below(env, b, e))
       <==> || (exists b :: IntoAllOf(a, b) && Below(env, b, e))
            || (exists b :: IntoItem(env, a, b) && Below(env, b, e))
            || (exists b :: IntoProperty(env, a, b) && Below(env, b, e))
            || (exists b :: IntoAdditional(env, a, b) && Below(env, b, e))
  {
    hide RefsBelow, Guarded, WellFormed, TypeAllowed, IntoAllOf, IntoItem, IntoProperty, IntoAdditional, Below;
  }

  lemma ReferenceReport(env: Env, a: Site, e: ValidationError)
    requires Legal(env, a) && a.schema.ref.Some?
    ensures Reports(env, a, e) <==> Breaks(env, a, e) || exists b :: Leads(env, a, b) && Below(env, b, e)
  {
    hide Guarded;
    if a.schema.ref.value in env.defs {
      DefinitionRanked(env, a.schema.ref.value);
      var b := Site(a.path, env.defs[a.schema.ref.value], a.value, env.Rank(a.schema.ref.value));
      assert Leads(env, a, b) && Legal(env, b);
    }
  }

  // ----------------------------------------------------------------- all the way down ---

  /** The error is one of a place that lies so many steps down. */
  ghost predicate Found(env: Env, a: Site, e: ValidationError, steps: nat)
    requires Legal(env, a)
    decreases steps
  {
    || Breaks(env, a, e)
    || (steps > 0 && exists b :: Leads(env, a, b) && Legal(env, b) && Found(env, b, e, steps - 1))
  }

  lemma {:induction false} FoundIsReported(env: Env, a: Site, e: ValidationError, steps: nat)
    requires Legal(env, a) && Found(env, a, e, steps)
    ensures Reports(env, a, e)
    decreases steps
  {
    hide Errors, RefsBelow, WellFormed, Guarded, Breaks, Leads;
    OneLevel(env, a, e);
    if !Breaks(env, a, e) {
      var b :| Leads(env, a, b) && Legal(env, b) && Found(env, b, e, steps - 1);
      FoundIsReported(env, b, e, steps - 1);
    }
  }

  lemma {:induction false} ReportedIsFound(env: Env, a: Site, e: ValidationError) returns (steps: nat)
    requires Legal(env, a) && Reports(env, a, e)
    ensures Found(env, a, e, steps)
    decreases a.value, a.k + 1, a.schema
  {
    hide Errors, RefsBelow, WellFormed, Guarded, Breaks, Leads;
    OneLevel(env, a, e);
    if Breaks(env, a, e) {
      steps := 0;
    } else {
      var b :| Leads(env, a, b) && Below(env, b, e);
      LeadsToLegal(env, a, b);
      var below := ReportedIsFound(env, b, e);
      steps := below + 1;
    }
  }

  /** The errors of a traversal, with their paths, are exactly those of the keywords that fail at the places it comes
      to. */
  lemma ReportedIffFound(env: Env, a: Site, e: ValidationError)
    requires Legal(env, a)
    ensures Reports(env, a, e) <==> exists steps :: Found(env, a, e, steps)
  {
    hide Errors, RefsBelow, WellFormed, Guarded, Found;
    if Reports(env, a, e) {
      var steps := ReportedIsFound(env, a, e);
    }
    if exists steps :: Found(env, a, e, steps) {
      var steps :| Found(env, a, e, steps);
      FoundIsReported(env, a, e, steps);
    }
  }
}
