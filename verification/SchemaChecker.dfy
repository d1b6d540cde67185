/** The validator as it runs: errors pushed onto one shared list, with a list of its own for each shape tried. */
module SchemaChecker {
  import opened Decimal
  import opened JsonSchema
  import opened Options
  import opened SchemaValidator

  class Report {
    var errors: seq<ValidationError>

    constructor ()
      ensures errors == []
    {
      errors := [];
    }

    method Push(path: string, problem: Problem)
      modifies this
      ensures errors == old(errors) + [ValidationError(path, problem)]
    {
      errors := errors + [ValidationError(path, problem)];
    }

    method PushIf(failed: bool, path: string, problem: Problem)
      modifies this
      ensures errors == old(errors) + When(failed, path, problem)
    {
      if failed { Push(path, problem); }
    }
  }

  /** What was there, then what each keyword adds, in order. */
  lemma Regroup(start: seq<ValidationError>, a: seq<ValidationError>, b: seq<ValidationError>, c: seq<ValidationError>,
                d: seq<ValidationError>)
    ensures start + a + b + c + d == start + (a + b + c + d)
  {
    assert start + a + b == start + (a + b);
    assert start + (a + b) + c == start + (a + b + c);
  }

  lemma RegroupOneMore(start: seq<ValidationError>, a: seq<ValidationError>, b: seq<ValidationError>, c: seq<ValidationError>,
                       d: seq<ValidationError>, e: seq<ValidationError>)
    ensures start + a + b + c + d + e == start + (a + b + c + d + e)
  {
    Regroup(start, a, b, c, d);
    assert start + (a + b + c + d) + e == start + (a + b + c + d + e);
  }

  method CheckNumber(s: Schema, n: real, path: string, report: Report)
    modifies report
    ensures report.errors == old(report.errors) + NumberErrors(s, n, path)
  {
    hide When, IsMultiple;
    RegroupOneMore(report.errors,
            When(s.minimum.Some? && n < s.minimum.value, path, TooSmall),
            When(s.maximum.Some? && n > s.maximum.value, path, TooLarge),
            When(s.exclusiveMinimum.Some? && n <= s.exclusiveMinimum.value, path, TooSmall),
            When(s.exclusiveMaximum.Some? && n >= s.exclusiveMaximum.value, path, TooLarge),
            When(s.multipleOf.Some? && !IsMultiple(n, s.multipleOf.value), path, NotMultiple));
    report.PushIf(s.minimum.Some? && n < s.minimum.value, path, TooSmall);
    report.PushIf(s.maximum.Some? && n > s.maximum.value, path, TooLarge);
    report.PushIf(s.exclusiveMinimum.Some? && n <= s.exclusiveMinimum.value, path, TooSmall);
    report.PushIf(s.exclusiveMaximum.Some? && n >= s.exclusiveMaximum.value, path, TooLarge);
    report.PushIf(s.multipleOf.Some? && !IsMultiple(n, s.multipleOf.value), path, NotMultiple);
  }

  method CheckString(env: Env, s: Schema, text: string, path: string, report: Report)
    modifies report
    ensures report.errors == old(report.errors) + StringErrors(env, s, text, path)
  {
    hide When;
    Regroup(report.errors,
            When(s.minLength.Some? && |text| < s.minLength.value, path, TooShort),
            When(s.maxLength.Some? && |text| > s.maxLength.value, path, TooLong),
            When(s.pattern.Some? && !env.matchesPattern(s.pattern.value, text), path, NoPatternMatch),
            When(s.format.Some? && !env.matchesFormat(s.format.value, text), path, BadFormat));
    report.PushIf(s.minLength.Some? && |text| < s.minLength.value, path, TooShort);
    report.PushIf(s.maxLength.Some? && |text| > s.maxLength.value, path, TooLong);
    report.PushIf(s.pattern.Some? && !env.matchesPattern(s.pattern.value, text), path, NoPatternMatch);
    report.PushIf(s.format.Some? && !env.matchesFormat(s.format.value, text), path, BadFormat);
  }

  method CheckItems(env: Env, s: Schema, items: seq<Value>, path: string, report: Report)
    requires Guarded(env)
    modifies report
    ensures report.errors == old(report.errors) + ItemErrors(env, s, items, 0, path)
    decreases items, 0
  {
    hide Errors, Guarded;
    RefsBelowTop(env, s);
    for i := 0 to |items|
      invariant old(report.errors) + ItemErrors(env, s, items, 0, path) == report.errors + ItemErrors(env, s, items[i..], i, path)
    {
      Check(env, s, items[i], path + "/" + PrintNat(i), env.Top(), report);
      assert items[i..][0] == items[i] && items[i..][1..] == items[i + 1..];
    }
  }

  method CheckArray(env: Env, s: Schema, items: seq<Value>, path: string, report: Report)
    requires Guarded(env)
    modifies report
    ensures report.errors == old(report.errors) + KindErrors(env, s, Array(items), path)
    decreases items, 1
  {
    hide ItemErrors, Guarded, ItemsUnique, When;
    Regroup(report.errors,
            When(s.minItems.Some? && |items| < s.minItems.value, path, TooFewItems),
            When(s.maxItems.Some? && |items| > s.maxItems.value, path, TooManyItems),
            When(s.uniqueItems && !ItemsUnique(items), path, DuplicateItems),
            if s.items.Some? then ItemErrors(env, s.items.value, items, 0, path) else []);
    report.PushIf(s.minItems.Some? && |items| < s.minItems.value, path, TooFewItems);
    report.PushIf(s.maxItems.Some? && |items| > s.maxItems.value, path, TooManyItems);
    report.PushIf(s.uniqueItems && !ItemsUnique(items), path, DuplicateItems);
    if s.items.Some? {
      CheckItems(env, s.items.value, items, path, report);
    }
  }

  method CheckRequired(required: seq<string>, members: seq<Member>, path: string, report: Report)
    modifies report
    ensures report.errors == old(report.errors) + RequiredErrors(required, members, path)
  {
    for i := 0 to |required|
      invariant old(report.errors) + RequiredErrors(required, members, path)
        == report.errors + RequiredErrors(required[i..], members, path)
    {
      report.PushIf(Index(members, required[i]) == -1, path + "/" + required[i], RequiredMissing);
      assert required[i..][0] == required[i] && required[i..][1..] == required[i + 1..];
    }
  }

  /** What one declared property reports. */
  function PropertyReport(env: Env, p: Property, members: seq<Member>, path: string): seq<ValidationError>
    requires Guarded(env)
  {
    var at := Index(members, p.name);
    RefsBelowTop(env, p.schema);
    if at == -1 then [] else Errors(env, p.schema, members[at].value, path + "/" + p.name, env.Top())
  }

  /** What one member reports as an additional one. */
  function AdditionalReport(env: Env, properties: seq<Property>, additional: Additional, m: Member, path: string)
    : seq<ValidationError>
    requires Guarded(env) && !additional.Anything?
  {
    if Declared(properties, m.key) then []
    else if additional.Nothing? then [ValidationError(path + "/" + m.key, NotPermitted)]
    else
      RefsBelowTop(env, additional.schema);
      Errors(env, additional.schema, m.value, path + "/" + m.key, env.Top())
  }

  lemma PropertyErrorsUnfold(env: Env, properties: seq<Property>, i: nat, members: seq<Member>, path: string)
    requires Guarded(env) && i <= |properties|
    ensures PropertyErrors(env, properties[i..], members, path)
         == if i == |properties| then [] else
              PropertyReport(env, properties[i], members, path) + PropertyErrors(env, properties[i + 1..], members, path)
  {
    hide Errors, Guarded, RefsBelow, Index;
    if i < |properties| {
      assert properties[i..][0] == properties[i] && properties[i..][1..] == properties[i + 1..];
    }
  }

  lemma AdditionalErrorsUnfold(
      env: Env, properties: seq<Property>, additional: Additional, members: seq<Member>, i: nat, path: string)
    requires Guarded(env) && !additional.Anything? && i <= |members|
    ensures AdditionalErrors(env, properties, additional, members[i..], path)
         == if i == |members| then [] else
              AdditionalReport(env, properties, additional, members[i], path)
              + AdditionalErrors(env, properties, additional, members[i + 1..], path)
  {
    hide Errors, Guarded, RefsBelow, Declared;
    if i < |members| {
      assert members[i..][0] == members[i] && members[i..][1..] == members[i + 1..];
    }
  }

  method CheckProperties(env: Env, properties: seq<Property>, members: seq<Member>, path: string, report: Report)
    requires Guarded(env)
    modifies report
    ensures report.errors == old(report.errors) + PropertyErrors(env, properties, members, path)
    decreases members, 0
  {
    hide Errors, Guarded, RefsBelow, Index, PropertyErrors;
    assert properties[0..] == properties;
    for i := 0 to |properties|
      invariant old(report.errors) + PropertyErrors(env, properties, members, path)
        == report.errors + PropertyErrors(env, properties[i..], members, path)
    {
      var p := properties[i];
      var at := Index(members, p.name);
      RefsBelowTop(env, p.schema);
      PropertyErrorsUnfold(env, properties, i, members, path);
      if at != -1 {
        Check(env, p.schema, members[at].value, path + "/" + p.name, env.Top(), report);
      }
    }
    PropertyErrorsUnfold(env, properties, |properties|, members, path);
  }

  method CheckAdditional(
      env: Env, properties: seq<Property>, additional: Additional, members: seq<Member>, path: string, report: Report)
    requires Guarded(env) && !additional.Anything?
    modifies report
    ensures report.errors == old(report.errors) + AdditionalErrors(env, properties, additional, members, path)
    decreases members, 0
  {
    hide Errors, Guarded, RefsBelow, Declared, AdditionalErrors;
    assert members[0..] == members;
    for i := 0 to |members|
      invariant old(report.errors) + AdditionalErrors(env, properties, additional, members, path)
        == report.errors + AdditionalErrors(env, properties, additional, members[i..], path)
    {
      var m := members[i];
      AdditionalErrorsUnfold(env, properties, additional, members, i, path);
      if Declared(properties, m.key) { continue; }
      if additional.Nothing? {
        report.Push(path + "/" + m.key, NotPermitted);
      } else {
        RefsBelowTop(env, additional.schema);
        Check(env, additional.schema, m.value, path + "/" + m.key, env.Top(), report);
      }
    }
    AdditionalErrorsUnfold(env, properties, additional, members, |members|, path);
  }

  method CheckObject(env: Env, s: Schema, members: seq<Member>, path: string, report: Report)
    requires Guarded(env)
    modifies report
    ensures report.errors == old(report.errors) + KindErrors(env, s, Object(members), path)
    decreases members, 1
  {
    hide Guarded, RequiredErrors, PropertyErrors, AdditionalErrors, When;
    RegroupOneMore(report.errors,
            When(s.minProperties.Some? && |members| < s.minProperties.value, path, TooFewProperties),
            When(s.maxProperties.Some? && |members| > s.maxProperties.value, path, TooManyProperties),
            RequiredErrors(s.required, members, path), PropertyErrors(env, s.properties, members, path),
            if s.additional.Anything? then [] else AdditionalErrors(env, s.properties, s.additional, members, path));
    report.PushIf(s.minProperties.Some? && |members| < s.minProperties.value, path, TooFewProperties);
    report.PushIf(s.maxProperties.Some? && |members| > s.maxProperties.value, path, TooManyProperties);
    CheckRequired(s.required, members, path, report);
    CheckProperties(env, s.properties, members, path, report);
    if !s.additional.Anything? {
      CheckAdditional(env, s.properties, s.additional, members, path, report);
    }
  }

  /** Whether the value meets the schema, tried on a list of its own: the caller's list is left alone. */
  method ValidateAgainst(env: Env, s: Schema, v: Value, ghost k: nat) returns (ok: bool)
    requires Guarded(env) && RefsBelow(env, s, k)
    ensures ok <==> Errors(env, s, v, "", k) == []
    decreases v, k + 1, s, 2
  {
    var report := new Report();
    Check(env, s, v, "", k, report);
    ok := report.errors == [];
  }

  method MatchesAny(env: Env, list: seq<Schema>, v: Value, ghost k: nat) returns (matched: bool)
    requires Guarded(env) && forall i :: 0 <= i < |list| ==> RefsBelow(env, list[i], k)
    ensures matched <==> true in Verdicts(env, list, v, k)
    decreases v, k + 1, list
  {
    hide Errors, Guarded, RefsBelow;
    matched := false;
    var i := 0;
    while i < |list| && !matched
      invariant 0 <= i <= |list|
      invariant true in Verdicts(env, list, v, k) <==> matched || true in Verdicts(env, list[i..], v, k)
    {
      matched := ValidateAgainst(env, list[i], v, k);
      assert list[i..][0] == list[i] && list[i..][1..] == list[i + 1..];
      assert Verdicts(env, list[i..], v, k) == [matched] + Verdicts(env, list[i + 1..], v, k);
      i := i + 1;
    }
  }

  method CountMatches(env: Env, list: seq<Schema>, v: Value, ghost k: nat) returns (count: nat)
    requires Guarded(env) && forall i :: 0 <= i < |list| ==> RefsBelow(env, list[i], k)
    ensures count == CountTrue(Verdicts(env, list, v, k))
    decreases v, k + 1, list
  {
    hide Errors, Guarded, RefsBelow;
    count := 0;
    for i := 0 to |list|
      invariant CountTrue(Verdicts(env, list, v, k)) == count + CountTrue(Verdicts(env, list[i..], v, k))
    {
      var ok := ValidateAgainst(env, list[i], v, k);
      assert list[i..][0] == list[i] && list[i..][1..] == list[i + 1..];
      assert Verdicts(env, list[i..], v, k) == [ok] + Verdicts(env, list[i + 1..], v, k);
      if ok { count := count + 1; }
    }
  }

  method CheckAll(env: Env, list: seq<Schema>, v: Value, path: string, ghost k: nat, report: Report)
    requires Guarded(env) && forall i :: 0 <= i < |list| ==> RefsBelow(env, list[i], k)
    modifies report
    ensures report.errors == old(report.errors) + AllOfErrors(env, list, v, path, k)
    decreases v, k + 1, list
  {
    hide Errors, Guarded, RefsBelow;
    for i := 0 to |list|
      invariant old(report.errors) + AllOfErrors(env, list, v, path, k) == report.errors + AllOfErrors(env, list[i..], v, path, k)
    {
      Check(env, list[i], v, path, k, report);
      assert list[i..][0] == list[i] && list[i..][1..] == list[i + 1..];
    }
  }

  method CheckAnyOf(env: Env, s: Schema, v: Value, path: string, ghost k: nat, report: Report)
    requires Guarded(env) && RefsBelow(env, s, k) && s.ref.None?
    modifies report
    ensures report.errors
      == old(report.errors) + When(s.anyOf.Shapes? && true !in Verdicts(env, s.anyOf.list, v, k), path, NoShapeMatched)
    decreases v, k + 1, s, 0, 0
  {
    hide Guarded, Verdicts;
    if s.anyOf.Shapes? {
      var matched := MatchesAny(env, s.anyOf.list, v, k);
      report.PushIf(!matched, path, NoShapeMatched);
    }
  }

  method CheckOneOf(env: Env, s: Schema, v: Value, path: string, ghost k: nat, report: Report)
    requires Guarded(env) && RefsBelow(env, s, k) && s.ref.None?
    modifies report
    ensures report.errors
      == old(report.errors) + When(s.oneOf.Shapes? && CountTrue(Verdicts(env, s.oneOf.list, v, k)) != 1, path, NotExactlyOneShape)
    decreases v, k + 1, s, 0, 0
  {
    hide Guarded, Verdicts, CountTrue;
    if s.oneOf.Shapes? {
      var matches := CountMatches(env, s.oneOf.list, v, k);
      report.PushIf(matches != 1, path, NotExactlyOneShape);
    }
  }

  method CheckNot(env: Env, s: Schema, v: Value, path: string, ghost k: nat, report: Report)
    requires Guarded(env) && RefsBelow(env, s, k) && s.ref.None?
    modifies report
    ensures report.errors
      == old(report.errors) + When(s.negated.Some? && Errors(env, s.negated.value, v, "", k) == [], path, ForbiddenShape)
    decreases v, k + 1, s, 0, 0
  {
    hide Guarded, Errors;
    if s.negated.Some? {
      var matched := ValidateAgainst(env, s.negated.value, v, k);
      report.PushIf(matched, path, ForbiddenShape);
    }
  }

  method CheckCombined(env: Env, s: Schema, v: Value, path: string, ghost k: nat, report: Report)
    requires Guarded(env) && RefsBelow(env, s, k) && s.ref.None?
    modifies report
    ensures report.errors == old(report.errors) + CombinedErrors(env, s, v, path, k)
    decreases v, k + 1, s, 0
  {
    hide Errors, Guarded, AllOfErrors, Verdicts, CountTrue, When;
    Regroup(report.errors, AllOfErrors(env, s.allOf, v, path, k),
            When(s.anyOf.Shapes? && true !in Verdicts(env, s.anyOf.list, v, k), path, NoShapeMatched),
            When(s.oneOf.Shapes? && CountTrue(Verdicts(env, s.oneOf.list, v, k)) != 1, path, NotExactlyOneShape),
            When(s.negated.Some? && Errors(env, s.negated.value, v, "", k) == [], path, ForbiddenShape));
    CheckAll(env, s.allOf, v, path, k, report);
    CheckAnyOf(env, s, v, path, k, report);
    CheckOneOf(env, s, v, path, k, report);
    CheckNot(env, s, v, path, k, report);
  }

  method Check(env: Env, s: Schema, v: Value, path: string, ghost k: nat, report: Report)
    requires Guarded(env) && RefsBelow(env, s, k)
    modifies report
    ensures report.errors == old(report.errors) + Errors(env, s, v, path, k)
    decreases v, k + 1, s, 1
  {
    hide Guarded, TypeAllowed, ConstantAllowed, EnumerationAllowed, CombinedErrors, KindErrors, When;
    if s.ref.Some? {
      DefinitionRanked(env, s.ref.value);
      if s.ref.value !in env.defs {
        report.Push(path, UnresolvedRef);
        return;
      }
      Check(env, env.defs[s.ref.value], v, path, env.Rank(s.ref.value), report);
      return;
    }
    Regroup(report.errors, When(!ConstantAllowed(s, v), path, NotConstant), When(!EnumerationAllowed(s, v), path, NotEnumerated),
            KindErrors(env, s, v, path), CombinedErrors(env, s, v, path, k));
    report.PushIf(!ConstantAllowed(s, v), path, NotConstant);
    report.PushIf(!EnumerationAllowed(s, v), path, NotEnumerated);
    if !TypeAllowed(s, v) {
      report.Push(path, WrongType);
      return;
    }
    CheckKind(env, s, v, path, report);
    CheckCombined(env, s, v, path, k, report);
  }

  method CheckKind(env: Env, s: Schema, v: Value, path: string, report: Report)
    requires Guarded(env)
    modifies report
    ensures report.errors == old(report.errors) + KindErrors(env, s, v, path)
    decreases v, 0
  {
    hide Guarded, NumberErrors, StringErrors, ArraySizeErrors, ObjectSizeErrors, ItemErrors, PropertyErrors, AdditionalErrors;
    match v
    case Number(n) => CheckNumber(s, n, path, report);
    case Text(text) => CheckString(env, s, text, path, report);
    case Array(items) => CheckArray(env, s, items, path, report);
    case Object(members) => CheckObject(env, s, members, path, report);
    case _ =>
  }

  /** `validate`: the verdict is the meaning of the schema, and the errors are empty exactly when it is met. */
  method Validate(env: Env, root: Schema, v: Value) returns (valid: bool, errors: seq<ValidationError>)
    requires Guarded(env) && WellFormed(v)
    ensures valid <==> SatisfiesDeep(env, root, v)
    ensures valid <==> errors == []
  {
    hide Errors, Satisfies, RefsBelow, Guarded, WellFormed;
    RootValidIffSatisfies(env, root, v);
    var report := new Report();
    Check(env, root, v, "", env.Top(), report);
    errors := report.errors;
    valid := errors == [];
  }
}
