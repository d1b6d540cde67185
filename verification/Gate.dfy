/** The pre-flight gate and the price of a call, both derived from the scope a tool demands. */
module Gate {
  import opened Options

  datatype ScopeClass = SafeRead | SensitiveRead | ContentWrite | Operational | Destructive | Credential | CodeExecution

  /** The scope vocabulary: every known scope with its risk class. */
  type Vocabulary = map<string, ScopeClass>

  datatype Tool = Tool(name: string, scope: Option<string>, minScope: Option<string>)

  /** The derived contract; `hasRoute` when the tool touches a site. */
  datatype Contract = Contract(
    tool: Tool, riskClass: Option<ScopeClass>, requiresApproval: bool, requiresSnapshot: bool, requiresStepUp: bool,
    supportsIdempotency: bool, hasRoute: bool, timeoutMs: int, enabledPlans: set<string>)
  {
    function RequiredScopes(): set<string> {
      if tool.scope.None? then {} else {tool.scope.value}
    }

    /** The meter unit is the action, unless the tool is local to the platform. */
    predicate Metered() {
      tool.scope.Some?
    }

    predicate IsWrite() {
      riskClass.Some? && !riskClass.value.SafeRead? && !riskClass.value.SensitiveRead?
    }
  }

  datatype Caller = Caller(
    plan: string, isMachineToken: bool, planScopes: set<string>, siteScopes: set<string>, keyScopes: Option<set<string>>,
    disabledTools: set<string>, stepUpSatisfied: bool, grantedApprovals: set<string>, codeExecutionOptIn: bool)

  /** The arguments the gate itself looks at, and whether they satisfy the tool's input schema. */
  datatype Args = Args(matchSchema: bool, approvalId: Option<string>, idempotencyKey: Option<string>, dryRun: bool)

  datatype Denial = NotFound | Forbidden | PlanRequired | ScopeDenied | InvalidRequest | StepUpRequired | ApprovalRequired

  datatype Verdict = Callable(contract: Contract) | Denied(code: Denial)

  /** Requested, plan, site grant and key ceiling intersected; unknown scopes are dropped. */
  function EffectiveScopes(known: Vocabulary, requested: set<string>, caller: Caller): set<string> {
    set s | s in requested && s in known && s in caller.planScopes && s in caller.siteScopes
            && (caller.keyScopes.None? || s in caller.keyScopes.value)
  }

  predicate AllowedForMachineToken(known: Vocabulary, scope: string) {
    scope in known && !known[scope].Credential?
  }

  function AssertCallable(known: Vocabulary, contract: Option<Contract>, args: Args, caller: Caller): Verdict {
    if contract.None? then Denied(NotFound)
    else
      var c := contract.value;
      var required := c.RequiredScopes();
      var hasFull := required <= EffectiveScopes(known, required, caller);
      var hasMin := c.tool.minScope.Some? && c.tool.minScope.value in EffectiveScopes(known, {c.tool.minScope.value}, caller);
      if c.tool.name in caller.disabledTools then Denied(Forbidden)
      else if caller.plan !in c.enabledPlans then Denied(PlanRequired)
      else if required != {} && !hasFull && !hasMin then Denied(ScopeDenied)
      else if caller.isMachineToken && exists s :: s in required && !AllowedForMachineToken(known, s) then Denied(Forbidden)
      else if c.riskClass == Some(CodeExecution) && !caller.codeExecutionOptIn then Denied(Forbidden)
      else if !args.matchSchema then Denied(InvalidRequest)
      else if c.requiresStepUp && !caller.stepUpSatisfied then Denied(StepUpRequired)
      else if c.requiresApproval && (args.approvalId.None? || args.approvalId.value !in caller.grantedApprovals)
      then Denied(ApprovalRequired)
      else if c.supportsIdempotency && c.IsWrite() && args.idempotencyKey.None? then Denied(InvalidRequest)
      else Callable(c)
  }

  // ---------------------------------------------------------------------- price ---

  const FAILED_CALL_WEIGHT := 1
  const LOCAL_WEIGHT := 0

  function ActionWeight(cls: ScopeClass): int {
    match cls
    case SafeRead => 1
    case SensitiveRead => 2
    case ContentWrite => 2
    case Operational => 2
    case Destructive => 5
    case Credential => 5
    case CodeExecution => 5
  }

  /** The class a caller's own scopes give a call. */
  function EffectiveToolClass(known: Vocabulary, tool: Tool, granted: set<string>): Option<ScopeClass> {
    if tool.scope.None? then None
    else if tool.scope.value in granted then ClassOf(known, tool.scope.value)
    else if tool.minScope.Some? && tool.minScope.value in granted then ClassOf(known, tool.minScope.value)
    else None
  }

  function ClassOf(known: Vocabulary, scope: string): Option<ScopeClass> {
    if scope in known then Some(known[scope]) else None
  }

  /** Actions a successful call consumes. */
  function SuccessCost(known: Vocabulary, tool: Tool, granted: set<string>): int {
    var cls := EffectiveToolClass(known, tool, granted);
    if cls.None? then LOCAL_WEIGHT else ActionWeight(cls.value)
  }

  /** The catalogue only demands scopes the vocabulary knows. */
  predicate Catalogued(known: Vocabulary, tool: Tool) {
    (tool.scope.Some? ==> tool.scope.value in known) && (tool.minScope.Some? ==> tool.minScope.value in known)
  }

  /** A call the gate lets through has a price of its own: at least one action when it is metered, so it is
      never free, and at least what a failed call costs; nothing when it is not. */
  lemma AuthorisedCallHasPrice(known: Vocabulary, contract: Contract, args: Args, caller: Caller)
    requires Catalogued(known, contract.tool)
    requires AssertCallable(known, Some(contract), args, caller).Callable?
    ensures var cost := SuccessCost(known, contract.tool, caller.siteScopes);
      if contract.Metered() then FAILED_CALL_WEIGHT <= cost <= 5 else cost == 0
    ensures contract.Metered() ==>
      var cost := SuccessCost(known, contract.tool, caller.siteScopes);
      var full, min := contract.tool.scope.value, contract.tool.minScope;
      && (full in caller.siteScopes || (min.Some? && min.value in caller.siteScopes))
      && PricedAs(known[if full in caller.siteScopes then full else min.value], cost)
  {
    if contract.Metered() {
      var scope := contract.tool.scope.value;
      assert scope in contract.RequiredScopes();
    }
  }

  /** The published rule: a safe read costs one action, what destroys, holds secrets or runs code five, and everything
      in between two. */
  predicate PricedAs(cls: ScopeClass, cost: int) {
    && (cls.SafeRead? <==> cost == 1)
    && (cls in {Destructive, Credential, CodeExecution} <==> cost == 5)
    && (cls in {SensitiveRead, ContentWrite, Operational} <==> cost == 2)
  }

  predicate GrantedByAll(caller: Caller, scope: string) {
    scope in caller.planScopes && scope in caller.siteScopes && (caller.keyScopes.Some? ==> scope in caller.keyScopes.value)
  }

  // ------------------------------------------------------------ the terms of the gate ---

  /** Vocabulary, plan, site and key all carry a scope the tool accepts: its own or the lesser one. */
  predicate ScopeCarried(known: Vocabulary, tool: Tool, caller: Caller) {
    tool.scope.Some? ==>
      || (tool.scope.value in known && GrantedByAll(caller, tool.scope.value))
      || (tool.minScope.Some? && tool.minScope.value in known && GrantedByAll(caller, tool.minScope.value))
  }

  /** A machine token is not asked for what only a person may answer. */
  predicate HumanWhereNeeded(known: Vocabulary, tool: Tool, caller: Caller) {
    caller.isMachineToken && tool.scope.Some? ==> tool.scope.value in known && known[tool.scope.value] != Credential
  }

  predicate OptedIn(contract: Contract, caller: Caller) {
    contract.riskClass == Some(CodeExecution) ==> caller.codeExecutionOptIn
  }

  /** Who may call the tool at all, whatever the arguments. */
  predicate Entitled(known: Vocabulary, contract: Contract, caller: Caller) {
    && contract.tool.name !in caller.disabledTools && caller.plan in contract.enabledPlans
    && ScopeCarried(known, contract.tool, caller) && HumanWhereNeeded(known, contract.tool, caller)
    && OptedIn(contract, caller)
  }

  predicate Approved(contract: Contract, args: Args, caller: Caller) {
    contract.requiresApproval ==> args.approvalId.Some? && args.approvalId.value in caller.grantedApprovals
  }

  /** A write names a key by which a retry is told from a second request. */
  predicate KeyedWrite(contract: Contract, args: Args) {
    contract.supportsIdempotency && contract.riskClass.Some? && contract.riskClass.value !in {SafeRead, SensitiveRead} ==>
      args.idempotencyKey.Some?
  }

  lemma ScopesMet(known: Vocabulary, contract: Contract, caller: Caller)
    ensures var required := contract.RequiredScopes(); var minScope := contract.tool.minScope;
      ScopeCarried(known, contract.tool, caller) <==>
        || required == {} || required <= EffectiveScopes(known, required, caller)
        || (minScope.Some? && minScope.value in EffectiveScopes(known, {minScope.value}, caller))
    ensures HumanWhereNeeded(known, contract.tool, caller) <==>
      !(caller.isMachineToken && exists s :: s in contract.RequiredScopes() && !AllowedForMachineToken(known, s))
  {
    if contract.tool.scope.Some? {
      assert contract.tool.scope.value in contract.RequiredScopes();
    }
  }

  /** The gate lets a call through exactly when every term holds: the tool is known and not switched off, the plan has
      it, its scope is carried throughout, a person or a permitted token asks, code execution is opted into, the
      arguments match, the actor has re-authenticated and is approved where that is demanded, and a write has a key. */
  lemma CallableIff(known: Vocabulary, contract: Option<Contract>, args: Args, caller: Caller)
    ensures AssertCallable(known, contract, args, caller).Callable? <==>
      && contract.Some? && Entitled(known, contract.value, caller) && args.matchSchema
      && (contract.value.requiresStepUp ==> caller.stepUpSatisfied)
      && Approved(contract.value, args, caller) && KeyedWrite(contract.value, args)
    ensures var verdict := AssertCallable(known, contract, args, caller);
      verdict.Callable? ==> contract == Some(verdict.contract)
  {
    if contract.Some? {
      ScopesMet(known, contract.value, caller);
      hide EffectiveScopes, AllowedForMachineToken, ScopeCarried, HumanWhereNeeded;
    }
  }

  /** A term that fails under this code. */
  predicate Fails(known: Vocabulary, contract: Option<Contract>, args: Args, caller: Caller, code: Denial) {
    match code
    case NotFound => contract.None?
    case PlanRequired => contract.Some? && caller.plan !in contract.value.enabledPlans
    case ScopeDenied => contract.Some? && !ScopeCarried(known, contract.value.tool, caller)
    case Forbidden =>
      contract.Some? && (contract.value.tool.name in caller.disabledTools
                         || !HumanWhereNeeded(known, contract.value.tool, caller) || !OptedIn(contract.value, caller))
    case InvalidRequest => contract.Some? && (!args.matchSchema || !KeyedWrite(contract.value, args))
    case StepUpRequired => contract.Some? && contract.value.requiresStepUp && !caller.stepUpSatisfied
    case ApprovalRequired => contract.Some? && !Approved(contract.value, args, caller)
  }

  /** A denial names a term that fails, and says nothing of the arguments to a caller who may not call the tool. An
      approval is asked for only when it is all that the caller, who is entitled and has re-authenticated, still lacks
      beside a key. */
  lemma DenialNamesFailure(known: Vocabulary, contract: Option<Contract>, args: Args, caller: Caller)
    ensures var verdict := AssertCallable(known, contract, args, caller);
      verdict.Denied? ==>
        && Fails(known, contract, args, caller, verdict.code)
        && (verdict.code in {InvalidRequest, StepUpRequired, ApprovalRequired} ==> Entitled(known, contract.value, caller))
        && (verdict.code in {StepUpRequired, ApprovalRequired} ==> args.matchSchema)
        && (verdict.code.ApprovalRequired? && contract.value.requiresStepUp ==> caller.stepUpSatisfied)
  {
    if contract.Some? {
      ScopesMet(known, contract.value, caller);
      hide EffectiveScopes, AllowedForMachineToken, ScopeCarried, HumanWhereNeeded;
    }
  }
}
