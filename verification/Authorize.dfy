/** The authorization decision: a chain of early answers over the validated
    policy, the classified facts and the request. */
module Authorize {
  import opened JsText
  import opened Paths
  import opened ProtectedRoots
  import opened Classify
  import opened KeyMaterial
  import opened PolicySchema
  import opened Wrappers

  datatype Signer = Delegated(keyId: Option<Text>) | Owner(keyId: Option<Text>) | Unsigned(keyId: Option<Text>)

  datatype Limits = Limits(wallMsMax: Option<int>, maxProcesses: Option<int>, maxOutputBytes: Option<int>,
                           workspaceBytesMax: Option<int>)

  datatype Request = Request(
    capabilityId: Capability, signer: Signer, intent: Option<Intent>, targetPath: Option<Text>,
    recipeId: Option<Text>, executableId: Option<Text>, networkRequired: bool, externalSideEffects: bool,
    persistence: bool, modelRiskLabel: Option<Risk>, requestedLimits: Option<Limits>, nowIso: Text)

  datatype Rule =
    | PolicyMissing | PolicyInvalid | InvalidClock | PolicyExpired | PolicyNotYetValid | SignerNotAllowed
    | AbsoluteDenialRule | UnknownCapabilityRule | PathMalformedRule | PathRequiredRule
    | CapabilityNotAllowed | IntentNotPermitted | RecipeNotAllowed | ExecutableNotAllowed
    | PathNotPermitted | WorkingDirectoryNotPermitted | PersistenceOutsideDisposable | IntentRequired
    | NetworkRequiredRule | ExternalEffects | SecretExposure | ResourceCeilingExceeded

  datatype ApprovalRule = OwnerApprovalRequired | OwnerApprovalEscalated

  datatype Outcome = AutonomousSafe | NeedsOwner(approval: ApprovalRule) | Denied(rule: Rule)

  datatype Decision = Decision(outcome: Outcome, capability: Capability, risk: Risk)

  predicate Over(requested: Option<int>, ceiling: int) {
    requested.Some? && requested.value > ceiling
  }

  predicate ExceedsCeilings(c: Ceilings, r: Limits) {
    || Over(r.wallMsMax, c.wallMsMax) || Over(r.maxProcesses, c.maxProcesses)
    || Over(r.maxOutputBytes, c.maxOutputBytes) || Over(r.workspaceBytesMax, c.workspaceBytesMax)
  }

  function FallbackRisk(id: Capability): Risk {
    match CapabilitySpec(id)
    case None => High
    case Some(spec) => if spec.cls == OwnerApprovable then Consultation else spec.intrinsicRisk
  }

  function FactsOf(doc: Policy, r: Request): Facts {
    ClassifySandboxOperation(r.capabilityId, r.intent, r.targetPath, ToProtectedRootsConfig(doc.protectedRoots),
                             r.modelRiskLabel, r.networkRequired, r.externalSideEffects)
  }

  /** The answers given before the operation is looked at. */
  function Preliminary(host: Host, policy: Option<Policy>, r: Request): Option<Rule> {
    if policy.None? then Some(PolicyMissing)
    else
      var doc := policy.value;
      if PolicyReasons(host, doc) != [] then Some(PolicyInvalid)
      else
        var now, issued := host.parseDate(r.nowIso), host.parseDate(doc.issuedAt);
        var expires := if doc.expiresAt.Some? then host.parseDate(doc.expiresAt.value) else None;
        if now.None? then Some(InvalidClock)
        else if expires.Some? && expires.value < now.value then Some(PolicyExpired)
        else if issued.Some? && issued.value > now.value then Some(PolicyNotYetValid)
        else if r.signer.Delegated? &&
                (r.signer.keyId.None? || r.signer.keyId.value !in doc.allowedDelegatedSignerKeyIds)
        then Some(SignerNotAllowed)
        else None
  }

  /** The answers for the target of an operation whose capability has a spec. */
  function TargetAnswer(doc: Policy, spec: Spec, r: Request): Option<Outcome> {
    var disposable := r.targetPath.Some? && IsWithinAny(doc.writableDisposableRoots, r.targetPath.value);
    if r.targetPath.Some? && r.intent.Some? then
      match ProtectedConflictForIntent(ToProtectedRootsConfig(doc.protectedRoots), r.targetPath.value, r.intent.value)
      case Conflict(AbsoluteDenial, _) => Some(Denied(AbsoluteDenialRule))
      case Conflict(DelegatedWriteDenied, _) => Some(NeedsOwner(OwnerApprovalEscalated))
      case NoConflict =>
        var readPermitted := IsWithinAny(doc.readOnlyRoots, r.targetPath.value) || disposable;
        if !(if r.intent.value == Read then readPermitted else disposable) then Some(Denied(PathNotPermitted))
        else if r.persistence && !disposable then Some(Denied(PersistenceOutsideDisposable))
        else None
    else if r.targetPath.Some? && r.intent.None? && |spec.allowedIntents| > 0 then Some(Denied(IntentRequired))
    else if r.targetPath.Some? && |spec.allowedIntents| == 0 && !disposable
    then Some(Denied(WorkingDirectoryNotPermitted))
    else None
  }

  function ListAnswer(doc: Policy, spec: Spec, r: Request): Option<Outcome> {
    if r.capabilityId !in doc.allowedCapabilities then Some(Denied(CapabilityNotAllowed))
    else if r.intent.Some? && r.intent.value !in spec.allowedIntents then Some(Denied(IntentNotPermitted))
    else if spec.recipeBound && (r.recipeId.None? || r.recipeId.value !in doc.allowedRecipeIds)
    then Some(Denied(RecipeNotAllowed))
    else if spec.executableBound && (r.executableId.None? || r.executableId.value !in doc.allowedExecutableIds)
    then Some(Denied(ExecutableNotAllowed))
    else None
  }

  function EffectAnswer(doc: Policy, facts: Facts, r: Request): Outcome {
    if facts.networkRequired then Denied(NetworkRequiredRule)
    else if facts.externalSideEffects then Denied(ExternalEffects)
    else if facts.secretExposure then Denied(SecretExposure)
    else if r.requestedLimits.Some? && ExceedsCeilings(doc.resourceCeilings, r.requestedLimits.value)
    then Denied(ResourceCeilingExceeded)
    else AutonomousSafe
  }

  function OperationAnswer(doc: Policy, facts: Facts, r: Request): Outcome {
    var spec := CapabilitySpec(r.capabilityId);
    if facts.absoluteDenialCondition then Denied(AbsoluteDenialRule)
    else if facts.capabilityClass.None? || spec.None? then Denied(UnknownCapabilityRule)
    else if facts.pathMalformed then Denied(PathMalformedRule)
    else if facts.pathRequired then Denied(PathRequiredRule)
    else if facts.capabilityClass == Some(OwnerApprovable) then NeedsOwner(OwnerApprovalRequired)
    else
      match ListAnswer(doc, spec.value, r)
      case Some(answer) => answer
      case None =>
        match TargetAnswer(doc, spec.value, r)
        case Some(answer) => answer
        case None => EffectAnswer(doc, facts, r)
  }

  function AuthorizeSandboxOperation(host: Host, policy: Option<Policy>, r: Request): Decision {
    match Preliminary(host, policy, r)
    case Some(rule) => Decision(Denied(rule), r.capabilityId, FallbackRisk(r.capabilityId))
    case None =>
      var facts := FactsOf(policy.value, r);
      Decision(OperationAnswer(policy.value, facts, r), r.capabilityId, facts.risk)
  }

  predicate Safe(host: Host, policy: Option<Policy>, r: Request) {
    AuthorizeSandboxOperation(host, policy, r).outcome == AutonomousSafe
  }

  // ---- What an autonomous answer means ----

  predicate InForce(host: Host, doc: Policy, nowIso: Text) {
    && host.parseDate(nowIso).Some? && host.parseDate(doc.issuedAt).Some?
    && host.parseDate(doc.issuedAt).value <= host.parseDate(nowIso).value
    && (doc.expiresAt.Some? ==>
          && host.parseDate(doc.expiresAt.value).Some?
          && host.parseDate(nowIso).value <= host.parseDate(doc.expiresAt.value).value)
  }

  predicate SignerAllowed(doc: Policy, signer: Signer) {
    signer.Delegated? ==> signer.keyId.Some? && signer.keyId.value in doc.allowedDelegatedSignerKeyIds
  }

  /** The capability is delegated, listed, and bound as its entry demands. */
  predicate CapabilityPermits(doc: Policy, r: Request) {
    && r.capabilityId in doc.allowedCapabilities
    && CapabilitySpec(r.capabilityId).Some?
    && var spec := CapabilitySpec(r.capabilityId).value;
      && spec.cls == DelegatedSafe
      && (r.intent.Some? ==> r.intent.value in spec.allowedIntents)
      && (|spec.allowedIntents| > 0 ==> r.targetPath.Some? && r.intent.Some?)
      && (spec.recipeBound ==> r.recipeId.Some? && r.recipeId.value in doc.allowedRecipeIds)
      && (spec.executableBound ==> r.executableId.Some? && r.executableId.value in doc.allowedExecutableIds)
  }

  /** Where a target may lie: a read without persistence in any listed root,
      everything else in a disposable root. No protected root is mentioned. */
  predicate TargetPermitted(doc: Policy, r: Request) {
    r.targetPath.Some? ==>
      || IsWithinAny(doc.writableDisposableRoots, r.targetPath.value)
      || (r.intent == Some(Read) && !r.persistence && IsWithinAny(doc.readOnlyRoots, r.targetPath.value))
  }

  /** Every limit the request names is at most the policy's. */
  predicate CeilingsKept(c: Ceilings, l: Limits) {
    && (l.wallMsMax.Some? ==> l.wallMsMax.value <= c.wallMsMax)
    && (l.maxProcesses.Some? ==> l.maxProcesses.value <= c.maxProcesses)
    && (l.maxOutputBytes.Some? ==> l.maxOutputBytes.value <= c.maxOutputBytes)
    && (l.workspaceBytesMax.Some? ==> l.workspaceBytesMax.value <= c.workspaceBytesMax)
  }

  predicate WithinLimits(doc: Policy, r: Request) {
    && !r.networkRequired && !r.externalSideEffects
    && (r.requestedLimits.Some? ==> CeilingsKept(doc.resourceCeilings, r.requestedLimits.value))
  }

  lemma ExceedsCeilingsIff(c: Ceilings, l: Limits)
    ensures ExceedsCeilings(c, l) <==> !CeilingsKept(c, l)
  {
  }

  lemma PreliminaryIff(host: Host, doc: Policy, r: Request)
    ensures Preliminary(host, Some(doc), r).None? <==>
            ValidPolicy(host, doc) && InForce(host, doc, r.nowIso) && SignerAllowed(doc, r.signer)
  {
    hide PolicyReasons, WellListed, WellRooted, WellBounded, NamesNoKey;
    ReportsNothingIffValid(host, doc);
  }

  lemma WithinAnyIsCanonical(roots: seq<Text>, path: Text)
    requires IsWithinAny(roots, path)
    ensures IsCanonicalForm(path)
  {
    hide IsCanonicalForm;
  }

  /** A path in a root that is apart from a list of roots is apart from each of
      them too: enclosing roots of one path are comparable. */
  lemma InsideApartRoot(roots: seq<Text>, others: seq<Text>, path: Text, other: Text)
    requires Apart(roots, others) && IsWithinAny(roots, path) && other in others
    ensures !IsWithin(other, path) && !IsWithin(path, other)
  {
    hide IsWithin;
    var i :| 0 <= i < |roots| && IsWithin(roots[i], path);
    var j :| 0 <= j < |others| && others[j] == other;
    WithinIsPartialOrder(roots[i], path, other);
    if IsWithin(other, path) {
      AncestorsAreComparable(roots[i], other, path);
    }
  }

  lemma DisposableIsUnprotected(doc: Policy, path: Text)
    requires WellRooted(doc) && IsWithinAny(doc.writableDisposableRoots, path)
    ensures ClassifyProtectedPath(ToProtectedRootsConfig(doc.protectedRoots), path) == Unprotected
  {
    hide IsWithin, ClassifyProtectedPath, Canonical, Apart, PathsOfClass;
    var config := ToProtectedRootsConfig(doc.protectedRoots);
    forall root | root in config.absoluteDenial || root in config.delegatedWriteDeniedOwnerApprovable
      ensures !IsWithin(root, path)
    {
      ConfiguredRootsIff(doc, root);
      InsideApartRoot(doc.writableDisposableRoots, ProtectedPaths(doc.protectedRoots), path, root);
    }
    ClassificationIff(config, path, path);
  }

  lemma ReadableIsNotDenied(doc: Policy, path: Text)
    requires WellRooted(doc) && IsWithinAny(doc.readOnlyRoots, path)
    ensures var c := ClassifyProtectedPath(ToProtectedRootsConfig(doc.protectedRoots), path);
            c.Protected? ==> c.rootClass == DelegatedWriteDenied
  {
    hide IsWithin, ClassifyProtectedPath, Canonical, Apart, PathsOfClass, ProtectedPaths;
    var config := ToProtectedRootsConfig(doc.protectedRoots);
    forall root | root in config.absoluteDenial
      ensures !IsWithin(root, path)
    {
      InsideApartRoot(doc.readOnlyRoots, config.absoluteDenial, path, root);
    }
    var c := ClassifyProtectedPath(config, path);
    if c.Protected? {
      ClassificationIff(config, path, c.root);
    }
  }

  predicate NotDenied(doc: Policy, r: Request) {
    r.targetPath.Some? ==>
      var c := ClassifyProtectedPath(ToProtectedRootsConfig(doc.protectedRoots), r.targetPath.value);
      && IsCanonicalForm(r.targetPath.value)
      && (c.Protected? ==> c.rootClass == DelegatedWriteDenied && (r.intent.Some? ==> r.intent == Some(Read)))
  }

  lemma PermittedIsNotDenied(doc: Policy, r: Request)
    requires WellRooted(doc) && TargetPermitted(doc, r)
    ensures NotDenied(doc, r)
  {
    hide ClassifyProtectedPath, WellRooted, IsCanonicalForm, IsWithinAny;
    if r.targetPath.Some? {
      if IsWithinAny(doc.writableDisposableRoots, r.targetPath.value) {
        DisposableIsUnprotected(doc, r.targetPath.value);
        WithinAnyIsCanonical(doc.writableDisposableRoots, r.targetPath.value);
      } else {
        ReadableIsNotDenied(doc, r.targetPath.value);
        WithinAnyIsCanonical(doc.readOnlyRoots, r.targetPath.value);
      }
    }
  }

  lemma OperationIff(doc: Policy, r: Request)
    ensures OperationAnswer(doc, FactsOf(doc, r), r) == AutonomousSafe <==>
            CapabilityPermits(doc, r) && TargetPermitted(doc, r) && NotDenied(doc, r) && WithinLimits(doc, r)
  {
    hide CapabilitySpec, ClassifyProtectedPath, IsCanonicalForm, IsWithinAny, BaseRisk, ExceedsCeilings, CeilingsKept;
    if r.requestedLimits.Some? {
      ExceedsCeilingsIff(doc.resourceCeilings, r.requestedLimits.value);
    }
    if CapabilitySpec(r.capabilityId).Some? && CapabilitySpec(r.capabilityId).value.cls == DelegatedSafe {
      DelegatedSafeIsHarmless(r.capabilityId);
    }
  }

  /** An autonomous answer, in full. The checks on protected roots are absent:
      for a valid document they decide nothing, because its writable roots are
      apart from every protected root and its readable ones from the denied. */
  lemma AutonomousSafeIff(host: Host, policy: Option<Policy>, r: Request)
    ensures Safe(host, policy, r) <==>
            && policy.Some? && ValidPolicy(host, policy.value)
            && InForce(host, policy.value, r.nowIso) && SignerAllowed(policy.value, r.signer)
            && CapabilityPermits(policy.value, r) && TargetPermitted(policy.value, r) && WithinLimits(policy.value, r)
  {
    hide Preliminary, OperationAnswer, FactsOf, CapabilityPermits, TargetPermitted, NotDenied, WellRooted,
         WellListed, WellBounded, WellDated, NamesNoKey, InForce, WithinLimits;
    if policy.Some? {
      PreliminaryIff(host, policy.value, r);
      OperationIff(policy.value, r);
      if ValidPolicy(host, policy.value) && TargetPermitted(policy.value, r) {
        PermittedIsNotDenied(policy.value, r);
      }
    } else {
      NoPolicyAnswersFirst(host, r);
    }
  }

  /** An autonomous request stays within every ceiling it names, and touches
      neither the network nor the outside. */
  lemma AutonomousSafeKeepsCeilings(host: Host, doc: Policy, r: Request)
    requires Safe(host, Some(doc), r)
    ensures !r.networkRequired && !r.externalSideEffects
    ensures r.requestedLimits.Some? ==> CeilingsKept(doc.resourceCeilings, r.requestedLimits.value)
  {
    hide Safe, ValidPolicy, InForce, SignerAllowed, CapabilityPermits, TargetPermitted, CeilingsKept;
    AutonomousSafeIff(host, Some(doc), r);
  }

  lemma NoPolicyAnswersFirst(host: Host, r: Request)
    ensures Preliminary(host, None, r).Some?
  {
  }

  // ---- Every answer ----

  ghost predicate Disposable(doc: Policy, r: Request) {
    r.targetPath.Some? && exists root <- doc.writableDisposableRoots :: IsWithin(root, r.targetPath.value)
  }

  ghost predicate Readable(doc: Policy, r: Request) {
    r.targetPath.Some? && exists root <- doc.readOnlyRoots :: IsWithin(root, r.targetPath.value)
  }

  /** The answer to an operation, by the first objection to it. That a secret is
      exposed is none: what exposes one is denied before. */
  ghost function FirstObjection(doc: Policy, r: Request): Outcome {
    var id, target, intent := r.capabilityId, r.targetPath, r.intent;
    if id.Unknown? then Denied(UnknownCapabilityRule)
    else if Deniable(doc, r) then Denied(AbsoluteDenialRule)
    else if Malformed(target) then Denied(PathMalformedRule)
    else if SpecOf(id).allowedIntents != [] && target.None? then Denied(PathRequiredRule)
    else if SpecOf(id).cls == OwnerApprovable then NeedsOwner(OwnerApprovalRequired)
    else if id !in doc.allowedCapabilities then Denied(CapabilityNotAllowed)
    else if intent.Some? && intent.value !in SpecOf(id).allowedIntents then Denied(IntentNotPermitted)
    else if SpecOf(id).recipeBound && !(exists recipe <- doc.allowedRecipeIds :: r.recipeId == Some(recipe))
    then Denied(RecipeNotAllowed)
    else if SpecOf(id).executableBound && !(exists e <- doc.allowedExecutableIds :: r.executableId == Some(e))
    then Denied(ExecutableNotAllowed)
    else if WritesProtected(doc, r) then NeedsOwner(OwnerApprovalEscalated)
    else if intent.Some? && target.Some? && !Disposable(doc, r) && !(intent == Some(Read) && Readable(doc, r))
    then Denied(PathNotPermitted)
    else if intent.Some? && target.Some? && r.persistence && !Disposable(doc, r)
    then Denied(PersistenceOutsideDisposable)
    else if intent.None? && target.Some? && SpecOf(id).allowedIntents != [] then Denied(IntentRequired)
    else if intent.None? && target.Some? && !Disposable(doc, r) then Denied(WorkingDirectoryNotPermitted)
    else if r.networkRequired then Denied(NetworkRequiredRule)
    else if r.externalSideEffects then Denied(ExternalEffects)
    else if r.requestedLimits.Some? && !CeilingsKept(doc.resourceCeilings, r.requestedLimits.value)
    then Denied(ResourceCeilingExceeded)
    else AutonomousSafe
  }

  lemma WithinAnyIff(roots: seq<Text>, path: Text)
    ensures IsWithinAny(roots, path) <==> exists root <- roots :: IsWithin(root, path)
  {
    hide IsWithin;
    if i :| 0 <= i < |roots| && IsWithin(roots[i], path) {
      assert roots[i] in roots;
    }
  }

  /** The classified target against the policy's roots. */
  lemma ClassOfTarget(doc: Policy, r: Request)
    requires r.targetPath.Some?
    ensures var c := ClassifyProtectedPath(ToProtectedRootsConfig(doc.protectedRoots), r.targetPath.value);
            && (c.Protected? && c.rootClass == AbsoluteDenial <==>
                  exists root :: root in doc.protectedRoots && root.rootClass == AbsoluteDenial &&
                                 IsWithin(root.path, r.targetPath.value))
            && (c.Protected? <==> exists root :: root in doc.protectedRoots && IsWithin(root.path, r.targetPath.value))
            && (c.Protected? ==> IsCanonicalForm(r.targetPath.value))
  {
    hide ClassifyProtectedPath, IsWithin, ToProtectedRootsConfig, IsCanonicalForm;
    DeniedClassIff(doc, r.targetPath.value);
    ProtectedClassIff(doc, r.targetPath.value);
    DeniedIsCanonical(doc, r.targetPath.value);
  }

  lemma TargetAnswerIs(doc: Policy, r: Request)
    requires !r.capabilityId.Unknown? && !Deniable(doc, r)
    requires r.intent.Some? ==> r.intent.value in SpecOf(r.capabilityId).allowedIntents
    ensures CapabilitySpec(r.capabilityId).Some?
    ensures TargetAnswer(doc, SpecOf(r.capabilityId), r) ==
            if WritesProtected(doc, r) then Some(NeedsOwner(OwnerApprovalEscalated))
            else if r.targetPath.None? then None
            else if r.intent.Some? then
              if !Disposable(doc, r) && (r.intent != Some(Read) || !Readable(doc, r))
              then Some(Denied(PathNotPermitted))
              else if r.persistence && !Disposable(doc, r) then Some(Denied(PersistenceOutsideDisposable))
              else None
            else if SpecOf(r.capabilityId).allowedIntents != [] then Some(Denied(IntentRequired))
            else if !Disposable(doc, r) then Some(Denied(WorkingDirectoryNotPermitted))
            else None
  {
    hide CapabilitySpec, ClassifyProtectedPath, IsWithin, ToProtectedRootsConfig, IsWithinAny, IsCanonicalForm;
    UnknownIffUnlisted(r.capabilityId);
    if r.targetPath.Some? {
      ClassOfTarget(doc, r);
      WithinAnyIff(doc.writableDisposableRoots, r.targetPath.value);
      WithinAnyIff(doc.readOnlyRoots, r.targetPath.value);
    }
  }

  lemma ListAnswerIs(doc: Policy, r: Request)
    requires !r.capabilityId.Unknown?
    ensures CapabilitySpec(r.capabilityId).Some?
    ensures ListAnswer(doc, SpecOf(r.capabilityId), r) ==
            if r.capabilityId !in doc.allowedCapabilities then Some(Denied(CapabilityNotAllowed))
            else if r.intent.Some? && r.intent.value !in SpecOf(r.capabilityId).allowedIntents
            then Some(Denied(IntentNotPermitted))
            else if SpecOf(r.capabilityId).recipeBound &&
                    !(exists recipe <- doc.allowedRecipeIds :: r.recipeId == Some(recipe))
            then Some(Denied(RecipeNotAllowed))
            else if SpecOf(r.capabilityId).executableBound &&
                    !(exists e <- doc.allowedExecutableIds :: r.executableId == Some(e))
            then Some(Denied(ExecutableNotAllowed))
            else None
  {
    hide CapabilitySpec;
    UnknownIffUnlisted(r.capabilityId);
  }

  /** The target is in a denied root of the policy exactly when it is in one of
      the classified roots. */
  lemma DeniedRootIff(doc: Policy, target: Option<Text>)
    ensures Below(ToProtectedRootsConfig(doc.protectedRoots).absoluteDenial, target) <==>
            target.Some? && exists root :: root in doc.protectedRoots && root.rootClass == AbsoluteDenial &&
                                           IsWithin(root.path, target.value)
  {
    hide IsWithin, PathsOfClass;
    forall x ensures x in PathsOfClass(doc.protectedRoots, AbsoluteDenial) <==>
                     PolicyRoot(x, AbsoluteDenial) in doc.protectedRoots {
      InPathsOfClassIff(doc.protectedRoots, AbsoluteDenial, x);
    }
    if target.Some? {
      if root :| root in doc.protectedRoots && root.rootClass == AbsoluteDenial && IsWithin(root.path, target.value) {
        assert PolicyRoot(root.path, AbsoluteDenial) == root;
      }
    }
  }

  lemma UnknownFacts(doc: Policy, r: Request)
    requires r.capabilityId.Unknown?
    ensures var f := FactsOf(doc, r);
            f.capabilityClass.None? && !f.absoluteDenialCondition && CapabilitySpec(r.capabilityId).None?
  {
  }

  lemma EffectAnswerIs(doc: Policy, r: Request)
    requires !r.capabilityId.Unknown? && SpecOf(r.capabilityId).cls == DelegatedSafe && !Deniable(doc, r)
    ensures EffectAnswer(doc, FactsOf(doc, r), r) ==
            if r.networkRequired then Denied(NetworkRequiredRule)
            else if r.externalSideEffects then Denied(ExternalEffects)
            else if r.requestedLimits.Some? && !CeilingsKept(doc.resourceCeilings, r.requestedLimits.value)
            then Denied(ResourceCeilingExceeded)
            else AutonomousSafe
  {
    hide CapabilitySpec, ClassifySandboxOperation, IsWithin, ToProtectedRootsConfig, ExceedsCeilings, CeilingsKept,
         Malformed, Below, InLiveCheckout;
    UnknownIffUnlisted(r.capabilityId);
    DeniedRootIff(doc, r.targetPath);
    FactsAre(r.capabilityId, r.intent, r.targetPath, ToProtectedRootsConfig(doc.protectedRoots), r.modelRiskLabel,
             r.networkRequired, r.externalSideEffects);
    DelegatedSafeIsHarmless(r.capabilityId);
    if r.requestedLimits.Some? {
      ExceedsCeilingsIff(doc.resourceCeilings, r.requestedLimits.value);
    }
  }

  lemma OperationAnswerIs(doc: Policy, r: Request)
    ensures OperationAnswer(doc, FactsOf(doc, r), r) == FirstObjection(doc, r)
  {
    hide CapabilitySpec, ClassifySandboxOperation, IsWithin, ToProtectedRootsConfig, TargetAnswer, ListAnswer,
         EffectAnswer, CeilingsKept, Malformed, WritesProtected, Disposable, Readable, Below, InLiveCheckout;
    UnknownIffUnlisted(r.capabilityId);
    DeniedRootIff(doc, r.targetPath);
    if r.capabilityId.Unknown? {
      UnknownFacts(doc, r);
    } else {
      FactsAre(r.capabilityId, r.intent, r.targetPath, ToProtectedRootsConfig(doc.protectedRoots), r.modelRiskLabel,
               r.networkRequired, r.externalSideEffects);
      if !Deniable(doc, r) && SpecOf(r.capabilityId).cls == DelegatedSafe && !Malformed(r.targetPath)
         && (SpecOf(r.capabilityId).allowedIntents != [] ==> r.targetPath.Some?) {
        ListAnswerIs(doc, r);
        if ListAnswer(doc, SpecOf(r.capabilityId), r).None? {
          TailIs(doc, r);
        }
      }
    }
  }

  /** Where the lists do not object, the first objection is about the target or
      the effects. */
  lemma TailIs(doc: Policy, r: Request)
    requires !r.capabilityId.Unknown? && SpecOf(r.capabilityId).cls == DelegatedSafe && !Deniable(doc, r)
    requires !Malformed(r.targetPath) && (SpecOf(r.capabilityId).allowedIntents != [] ==> r.targetPath.Some?)
    requires CapabilitySpec(r.capabilityId).Some? && ListAnswer(doc, SpecOf(r.capabilityId), r).None?
    ensures FirstObjection(doc, r) ==
            match TargetAnswer(doc, SpecOf(r.capabilityId), r)
            case Some(answer) => answer
            case None => EffectAnswer(doc, FactsOf(doc, r), r)
  {
    hide CapabilitySpec, FactsOf, IsWithin, TargetAnswer, ListAnswer, EffectAnswer, CeilingsKept, Malformed,
         WritesProtected, Disposable, Readable, Deniable;
    ListAnswerIs(doc, r);
    TargetAnswerIs(doc, r);
    EffectAnswerIs(doc, r);
    NoTargetNoWhere(doc, r);
  }

  lemma NoTargetNoWhere(doc: Policy, r: Request)
    ensures WritesProtected(doc, r) || Disposable(doc, r) || Readable(doc, r) ==> r.targetPath.Some?
    ensures WritesProtected(doc, r) ==> r.intent in {Some(Write), Some(Delete)}
  {
  }

  /** Every answer, with its rule and its risk: first what is wrong with the
      policy, its time or the signer, then the first objection to the operation. */
  lemma AnswerIs(host: Host, policy: Option<Policy>, r: Request)
    ensures var d := AuthorizeSandboxOperation(host, policy, r);
            && d.capability == r.capabilityId
            && (policy.None? ==> d.outcome == Denied(PolicyMissing))
            && (policy.Some? ==>
                  var doc, now := policy.value, host.parseDate(r.nowIso);
                  d.outcome ==
                    if !ValidPolicy(host, doc) then Denied(PolicyInvalid)
                    else if now.None? then Denied(InvalidClock)
                    else if doc.expiresAt.Some? && host.parseDate(doc.expiresAt.value).value < now.value
                    then Denied(PolicyExpired)
                    else if now.value < host.parseDate(doc.issuedAt).value then Denied(PolicyNotYetValid)
                    else if !SignerAllowed(doc, r.signer) then Denied(SignerNotAllowed)
                    else FirstObjection(doc, r))
  {
    hide OperationAnswer, FactsOf, FirstObjection, PolicyReasons, WellListed, WellRooted, WellBounded, NamesNoKey;
    if policy.Some? {
      ReportsNothingIffValid(host, policy.value);
      OperationAnswerIs(policy.value, r);
    }
  }

  /** The risk reported before the operation is looked at is that of its entry. */
  lemma RiskBefore(host: Host, policy: Option<Policy>, r: Request)
    requires Preliminary(host, policy, r).Some?
    ensures AuthorizeSandboxOperation(host, policy, r).risk ==
            if r.capabilityId.Unknown? then High
            else if SpecOf(r.capabilityId).cls == OwnerApprovable then Consultation
            else SpecOf(r.capabilityId).intrinsicRisk
  {
    hide CapabilitySpec, Preliminary;
    UnknownIffUnlisted(r.capabilityId);
  }

  /** Later it is that of the classification by the policy's own roots. */
  lemma RiskAfter(host: Host, doc: Policy, r: Request)
    requires ValidPolicy(host, doc) && InForce(host, doc, r.nowIso) && SignerAllowed(doc, r.signer)
    ensures AuthorizeSandboxOperation(host, Some(doc), r).risk ==
            ClassifySandboxOperation(r.capabilityId, r.intent, r.targetPath, ToProtectedRootsConfig(doc.protectedRoots),
                                     r.modelRiskLabel, r.networkRequired, r.externalSideEffects).risk
  {
    hide ClassifySandboxOperation, Preliminary, OperationAnswer, ValidPolicy, InForce, SignerAllowed;
    PreliminaryIff(host, doc, r);
  }

  /** Whoever signs: an autonomous write or delete stays in a disposable root
      that shares nothing with a protected root; an autonomous read shares
      nothing with a denied root; a working directory is disposable. */
  lemma AutonomousSafeKeepsRoots(host: Host, doc: Policy, r: Request)
    requires Safe(host, Some(doc), r) && r.targetPath.Some?
    ensures r.intent != Some(Read) || r.persistence ==>
              && IsWithinAny(doc.writableDisposableRoots, r.targetPath.value)
              && forall root <- ProtectedPaths(doc.protectedRoots) :: !Overlap(root, r.targetPath.value)
    ensures forall root | root in doc.protectedRoots && root.rootClass == AbsoluteDenial ::
              !Overlap(root.path, r.targetPath.value)
  {
    hide Safe, CapabilityPermits, WellRooted, TargetPermitted, Overlap;
    AutonomousSafeIff(host, Some(doc), r);
    PermittedKeepsRoots(doc, r);
  }

  lemma PermittedKeepsRoots(doc: Policy, r: Request)
    requires WellRooted(doc) && TargetPermitted(doc, r) && r.targetPath.Some?
    ensures r.intent != Some(Read) || r.persistence ==>
              && IsWithinAny(doc.writableDisposableRoots, r.targetPath.value)
              && forall root <- ProtectedPaths(doc.protectedRoots) :: !Overlap(root, r.targetPath.value)
    ensures forall root | root in doc.protectedRoots && root.rootClass == AbsoluteDenial ::
              !Overlap(root.path, r.targetPath.value)
  {
    hide IsWithin, Apart, PathsOfClass, IsWithinAny, Canonical, Distinct;
    var path := r.targetPath.value;
    if IsWithinAny(doc.writableDisposableRoots, path) {
      forall root | root in ProtectedPaths(doc.protectedRoots) ensures !Overlap(root, path) {
        InsideApartRoot(doc.writableDisposableRoots, ProtectedPaths(doc.protectedRoots), path, root);
      }
    }
    forall root | root in doc.protectedRoots && root.rootClass == AbsoluteDenial ensures !Overlap(root.path, path) {
      var i :| 0 <= i < |doc.protectedRoots| && doc.protectedRoots[i] == root;
      assert ProtectedPaths(doc.protectedRoots)[i] == root.path;
      InPathsOfClassIff(doc.protectedRoots, AbsoluteDenial, root.path);
      if !IsWithinAny(doc.writableDisposableRoots, path) {
        InsideApartRoot(doc.readOnlyRoots, PathsOfClass(doc.protectedRoots, AbsoluteDenial), path, root.path);
      }
    }
  }

  predicate Deniable(doc: Policy, r: Request) {
    || (CapabilitySpec(r.capabilityId).Some? && CapabilitySpec(r.capabilityId).value.cls == NeverAllowed)
    || (r.targetPath.Some? &&
        exists root :: root in doc.protectedRoots && root.rootClass == AbsoluteDenial &&
                       IsWithin(root.path, r.targetPath.value))
  }

  lemma DeniedClassIff(doc: Policy, path: Text)
    ensures var c := ClassifyProtectedPath(ToProtectedRootsConfig(doc.protectedRoots), path);
            (c.Protected? && c.rootClass == AbsoluteDenial) <==>
            exists root :: root in doc.protectedRoots && root.rootClass == AbsoluteDenial && IsWithin(root.path, path)
  {
    hide IsWithin, PathsOfClass, Longest;
    var denied := PathsOfClass(doc.protectedRoots, AbsoluteDenial);
    LongestIff(denied, path, path);
    forall x ensures x in denied <==> PolicyRoot(x, AbsoluteDenial) in doc.protectedRoots {
      InPathsOfClassIff(doc.protectedRoots, AbsoluteDenial, x);
    }
    if root :| root in doc.protectedRoots && root.rootClass == AbsoluteDenial && IsWithin(root.path, path) {
      assert PolicyRoot(root.path, AbsoluteDenial) == root;
    }
    if x :| x in denied && IsWithin(x, path) {
      assert PolicyRoot(x, AbsoluteDenial) in doc.protectedRoots;
    }
  }

  /** An absolute denial is final: the owner is never asked to override it. */
  lemma AbsoluteDenialIsFinal(host: Host, doc: Policy, r: Request)
    requires Deniable(doc, r)
    ensures AuthorizeSandboxOperation(host, Some(doc), r).outcome.Denied?
  {
    hide CapabilitySpec, ClassifyProtectedPath, IsWithinAny, BaseRisk, PolicyReasons, ToProtectedRootsConfig,
         IsWithin;
    if r.targetPath.Some? {
      DeniedClassIff(doc, r.targetPath.value);
      DeniedIsCanonical(doc, r.targetPath.value);
    }
  }

  lemma DeniedIsCanonical(doc: Policy, path: Text)
    ensures (exists root :: root in doc.protectedRoots && IsWithin(root.path, path)) ==> IsCanonicalForm(path)
  {
    hide IsCanonicalForm;
  }

  /** When the owner is asked: for a capability that is the owner's to approve
      and whose target is well formed, or for a delegated write or delete below
      a root that delegation may not write. */
  lemma NeedsOwnerIff(host: Host, doc: Policy, r: Request)
    ensures AuthorizeSandboxOperation(host, Some(doc), r).outcome.NeedsOwner? <==>
            && ValidPolicy(host, doc) && InForce(host, doc, r.nowIso) && SignerAllowed(doc, r.signer)
            && !Deniable(doc, r) && (r.targetPath.Some? ==> IsCanonicalForm(r.targetPath.value))
            && (|| OwnersToApprove(r)
                || (CapabilityPermits(doc, r) && WritesProtected(doc, r)))
  {
    hide CapabilityPermits, ValidPolicy, InForce, Preliminary, OperationAnswer, FactsOf, Deniable, SignerAllowed,
         OwnersToApprove, WritesProtected;
    PreliminaryIff(host, doc, r);
    OwnerAnswerIff(doc, r);
  }

  predicate OwnersToApprove(r: Request) {
    && CapabilitySpec(r.capabilityId).Some? && CapabilitySpec(r.capabilityId).value.cls == OwnerApprovable
    && (CapabilitySpec(r.capabilityId).value.allowedIntents != [] ==> r.targetPath.Some?)
  }

  predicate WritesProtected(doc: Policy, r: Request) {
    && r.targetPath.Some? && (r.intent == Some(Write) || r.intent == Some(Delete))
    && exists root :: root in doc.protectedRoots && IsWithin(root.path, r.targetPath.value)
  }

  lemma ProtectedClassIff(doc: Policy, path: Text)
    ensures ClassifyProtectedPath(ToProtectedRootsConfig(doc.protectedRoots), path).Protected? <==>
            exists root :: root in doc.protectedRoots && IsWithin(root.path, path)
  {
    hide IsWithin, PathsOfClass, ClassifyProtectedPath;
    var config := ToProtectedRootsConfig(doc.protectedRoots);
    ClassificationIff(config, path, path);
    forall x ensures (x in config.absoluteDenial || x in config.delegatedWriteDeniedOwnerApprovable) <==>
                     x in ProtectedPaths(doc.protectedRoots) {
      ConfiguredRootsIff(doc, x);
    }
    if root :| root in doc.protectedRoots && IsWithin(root.path, path) {
      var i :| 0 <= i < |doc.protectedRoots| && doc.protectedRoots[i] == root;
      assert ProtectedPaths(doc.protectedRoots)[i] == root.path;
    }
    if x :| x in ProtectedPaths(doc.protectedRoots) && IsWithin(x, path) {
      var i :| 0 <= i < |doc.protectedRoots| && ProtectedPaths(doc.protectedRoots)[i] == x;
      assert doc.protectedRoots[i].path == x;
    }
  }

  lemma OwnerAnswerIff(doc: Policy, r: Request)
    ensures OperationAnswer(doc, FactsOf(doc, r), r).NeedsOwner? <==>
            && !Deniable(doc, r) && (r.targetPath.Some? ==> IsCanonicalForm(r.targetPath.value))
            && (OwnersToApprove(r) || (CapabilityPermits(doc, r) && WritesProtected(doc, r)))
  {
    hide CapabilitySpec, ClassifyProtectedPath, IsCanonicalForm, IsWithinAny, BaseRisk, ExceedsCeilings, IsWithin,
         ToProtectedRootsConfig;
    if r.targetPath.Some? {
      DeniedClassIff(doc, r.targetPath.value);
      ProtectedClassIff(doc, r.targetPath.value);
      DeniedIsCanonical(doc, r.targetPath.value);
    }
  }

  /** The model's label cannot move the decision, and cannot lower its risk. */
  lemma LabelDecidesNothing(host: Host, policy: Option<Policy>, r: Request)
    ensures var plain := AuthorizeSandboxOperation(host, policy, r.(modelRiskLabel := None));
            var labelled := AuthorizeSandboxOperation(host, policy, r);
            && labelled.outcome == plain.outcome && labelled.capability == plain.capability
            && labelled.risk.Rank() >= plain.risk.Rank()
  {
    hide ClassifySandboxOperation, PolicyReasons, ToProtectedRootsConfig, ProtectedConflictForIntent, CapabilitySpec,
         IsWithinAny, ExceedsCeilings;
    if policy.Some? && r.modelRiskLabel.Some? {
      LabelOnlyRaisesRisk(r.capabilityId, r.intent, r.targetPath, ToProtectedRootsConfig(policy.value.protectedRoots),
                          r.modelRiskLabel.value, r.networkRequired, r.externalSideEffects);
    }
  }

  // ---- Narrowing a policy ----

  predicate CeilingsAtMost(a: Ceilings, b: Ceilings) {
    && a.wallMsMax <= b.wallMsMax && a.maxProcesses <= b.maxProcesses
    && a.maxOutputBytes <= b.maxOutputBytes && a.workspaceBytesMax <= b.workspaceBytesMax
  }

  /** Nothing listed is new and no ceiling is higher. The protected roots may
      change freely, as may what the decision never reads. */
  predicate Narrows(narrow: Policy, wide: Policy) {
    && narrow.issuedAt == wide.issuedAt && narrow.expiresAt == wide.expiresAt
    && (forall k <- narrow.allowedDelegatedSignerKeyIds :: k in wide.allowedDelegatedSignerKeyIds)
    && (forall c <- narrow.allowedCapabilities :: c in wide.allowedCapabilities)
    && (forall x <- narrow.readOnlyRoots :: x in wide.readOnlyRoots)
    && (forall x <- narrow.writableDisposableRoots :: x in wide.writableDisposableRoots)
    && (forall x <- narrow.allowedRecipeIds :: x in wide.allowedRecipeIds)
    && (forall x <- narrow.allowedExecutableIds :: x in wide.allowedExecutableIds)
    && CeilingsAtMost(narrow.resourceCeilings, wide.resourceCeilings)
  }

  lemma WithinMore(few: seq<Text>, many: seq<Text>, path: Text)
    requires (forall x <- few :: x in many) && IsWithinAny(few, path)
    ensures IsWithinAny(many, path)
  {
    hide IsWithin;
    var i :| 0 <= i < |few| && IsWithin(few[i], path);
    assert few[i] in many;
    var j :| 0 <= j < |many| && many[j] == few[i];
  }

  lemma NarrowTarget(narrow: Policy, wide: Policy, r: Request)
    requires Narrows(narrow, wide) && TargetPermitted(narrow, r)
    ensures TargetPermitted(wide, r)
  {
    hide IsWithinAny;
    if r.targetPath.Some? {
      if IsWithinAny(narrow.writableDisposableRoots, r.targetPath.value) {
        WithinMore(narrow.writableDisposableRoots, wide.writableDisposableRoots, r.targetPath.value);
      } else {
        WithinMore(narrow.readOnlyRoots, wide.readOnlyRoots, r.targetPath.value);
      }
    }
  }

  /** What a narrowed policy allows, the wide one allows exactly if it is valid:
      narrowing shrinks what is autonomous, save that it can mend a document
      the decision was refusing outright. */
  lemma NarrowingShrinksIff(host: Host, narrow: Policy, wide: Policy, r: Request)
    requires Narrows(narrow, wide) && Safe(host, Some(narrow), r)
    ensures Safe(host, Some(wide), r) <==> ValidPolicy(host, wide)
  {
    hide ValidPolicy, Safe, CapabilitySpec, IsWithinAny, TargetPermitted;
    AutonomousSafeIff(host, Some(narrow), r);
    AutonomousSafeIff(host, Some(wide), r);
    NarrowTarget(narrow, wide, r);
  }

  lemma FewerPathsOfClass(a: seq<PolicyRoot>, x: PolicyRoot, b: seq<PolicyRoot>, c: RootClass)
    ensures forall path <- PathsOfClass(a + b, c) :: path in PathsOfClass(a + [x] + b, c)
  {
    forall path | path in PathsOfClass(a + b, c) ensures path in PathsOfClass(a + [x] + b, c) {
      InPathsOfClassIff(a + b, c, path);
      InPathsOfClassIff(a + [x] + b, c, path);
      var i :| 0 <= i < |a + b| && (a + b)[i] == PolicyRoot(path, c);
      assert (a + [x] + b)[if i < |a| then i else i + 1] == PolicyRoot(path, c);
    }
  }

  lemma ApartFromFewer(roots: seq<Text>, few: seq<Text>, many: seq<Text>)
    requires Apart(roots, many) && forall x <- few :: x in many
    ensures Apart(roots, few)
  {
    hide IsWithin;
    forall i, j | 0 <= i < |roots| && 0 <= j < |few|
      ensures !IsWithin(roots[i], few[j]) && !IsWithin(few[j], roots[i])
    {
      assert few[j] in many;
      var k :| 0 <= k < |many| && many[k] == few[j];
    }
  }

  lemma PathsWithout(a: seq<PolicyRoot>, x: PolicyRoot, b: seq<PolicyRoot>)
    ensures ProtectedPaths(a + b) == ProtectedPaths(a) + ProtectedPaths(b)
    ensures ProtectedPaths(a + [x] + b) == ProtectedPaths(a) + [x.path] + ProtectedPaths(b)
    ensures Distinct(ProtectedPaths(a + [x] + b)) ==> Distinct(ProtectedPaths(a + b))
    ensures forall path <- ProtectedPaths(a + b) :: path in ProtectedPaths(a + [x] + b)
  {
    assert ProtectedPaths(a + b) == ProtectedPaths(a) + ProtectedPaths(b);
    assert ProtectedPaths(a + [x] + b) == ProtectedPaths(a) + [x.path] + ProtectedPaths(b);
    DistinctWithout(ProtectedPaths(a), x.path, ProtectedPaths(b));
  }

  lemma DistinctWithout(a: seq<Text>, x: Text, b: seq<Text>)
    ensures Distinct(a + [x] + b) ==> Distinct(a + b)
  {
    if Distinct(a + [x] + b) {
      forall i, j | 0 <= i < j < |a + b| ensures (a + b)[i] != (a + b)[j] {
        var i', j' := if i < |a| then i else i + 1, if j < |a| then j else j + 1;
        assert (a + [x] + b)[i'] != (a + [x] + b)[j'];
      }
    }
  }

  lemma FewerRootsAreWell(p: Policy, a: seq<PolicyRoot>, x: PolicyRoot, b: seq<PolicyRoot>)
    requires p.protectedRoots == a + [x] + b && WellRooted(p)
    ensures WellRooted(p.(protectedRoots := a + b))
  {
    hide Apart, Distinct, ProtectedPaths, PathsOfClass, IsCanonicalForm;
    PathsWithout(a, x, b);
    FewerPathsOfClass(a, x, b, AbsoluteDenial);
    ApartFromFewer(p.readOnlyRoots, PathsOfClass(a + b, AbsoluteDenial), PathsOfClass(a + [x] + b, AbsoluteDenial));
    ApartFromFewer(p.writableDisposableRoots, ProtectedPaths(a + b), ProtectedPaths(a + [x] + b));
  }

  /** Adding a protected root anywhere, or lowering ceilings, needs no such
      condition: it can only shrink what is autonomous. */
  lemma ProtectingOnlyShrinks(host: Host, wide: Policy, a: seq<PolicyRoot>, x: PolicyRoot, b: seq<PolicyRoot>,
                              ceilings: Ceilings, r: Request)
    requires wide.protectedRoots == a + b && CeilingsAtMost(ceilings, wide.resourceCeilings)
    requires Safe(host, Some(wide.(protectedRoots := a + [x] + b, resourceCeilings := ceilings)), r)
    ensures Safe(host, Some(wide), r)
  {
    hide Safe, WellRooted, WellListed, NamesNoKey, WellDated;
    var narrow := wide.(protectedRoots := a + [x] + b, resourceCeilings := ceilings);
    AutonomousSafeIff(host, Some(narrow), r);
    FewerRootsAreWell(narrow, a, x, b);
    SameRest(host, narrow, wide);
    RootsOnly(narrow.(protectedRoots := a + b), wide);
    NarrowingShrinksIff(host, narrow, wide, r);
  }

  lemma RootsOnly(p: Policy, q: Policy)
    requires p.protectedRoots == q.protectedRoots && p.readOnlyRoots == q.readOnlyRoots
    requires p.writableDisposableRoots == q.writableDisposableRoots
    ensures WellRooted(p) == WellRooted(q)
  {
    hide Apart, Canonical, Distinct, ProtectedPaths, PathsOfClass;
  }

  lemma SameRest(host: Host, p: Policy, q: Policy)
    requires q == p.(protectedRoots := q.protectedRoots, resourceCeilings := q.resourceCeilings)
    ensures WellListed(p) == WellListed(q) && WellDated(host, p) == WellDated(host, q)
    ensures NamesNoKey(p) == NamesNoKey(q)
  {
    hide KeyFree;
  }

  /** A document refused for an empty recipe id, and the narrower one without
      it, which is valid: the condition of NarrowingShrinksIff is needed. */
  lemma NarrowingCanMend(host: Host, day: Text)
    requires host.parseDate(day) == Some(0) && 0 < |day| < 27
    ensures exists narrow: Policy, wide: Policy, r: Request ::
              Narrows(narrow, wide) && Safe(host, Some(narrow), r) && !Safe(host, Some(wide), r)
  {
    hide Safe;
    var narrow := Plain(day);
    var wide := narrow.(allowedRecipeIds := [[]]);
    var r := Request(LocalHealthStatusInspection, Unsigned(None), None, None, None, None, false, false, false, None,
                     None, day);
    PlainIsValid(host, day);
    AutonomousSafeIff(host, Some(narrow), r);
    AutonomousSafeIff(host, Some(wide), r);
    assert [] in wide.allowedRecipeIds;
    assert Narrows(narrow, wide) && Safe(host, Some(narrow), r) && !Safe(host, Some(wide), r);
  }

  /** A small valid document. */
  function Plain(day: Text): Policy {
    Policy(PAYLOAD_VERSION, day, 1, day, None, [], [LocalHealthStatusInspection], None, [], [], [], [],
           [], Ceilings(1, 1, 0, 1), NoNetwork, 1)
  }

  lemma PlainIsValid(host: Host, day: Text)
    requires host.parseDate(day).Some? && 0 < |day| < 27
    ensures ValidPolicy(host, Plain(day))
  {
    hide KeyFree;
    ShortIsKeyFree(day);
  }
}
