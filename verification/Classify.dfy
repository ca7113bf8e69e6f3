/** The capability registry and the authoritative classification of a sandbox
    operation. The model's own risk label is advisory. */
module Classify {
  import opened JsText
  import opened Paths
  import opened ProtectedRoots
  import opened Wrappers

  datatype Risk = Low | Medium | High | Consultation
  {
    function Rank(): nat {
      match this case Low => 0 case Medium => 1 case High => 2 case Consultation => 3
    }
  }

  function MaxRisk(a: Risk, b: Risk): Risk {
    if a.Rank() >= b.Rank() then a else b
  }

  /** The listed identifiers; Unknown holds any other text. */
  datatype Capability =
    | ApprovedProjectRead | ApprovedBoundedLogRead | LocalHealthStatusInspection | FixedTestRecipe
    | FixedBuildRecipe | FixedLintVerificationRecipe | CandidateWorkspaceCreate | CandidateWorkspaceReadWriteDelete
    | CandidatePatchGenerate | CandidateReportArtifactGenerate | BoundedDiagnosticExecution | EngineeringProjectRead
    | CandidateRepositoryGitWrite | ApplyCandidatePatchLive | WriteLiveRepository | ModifyLiveGitMetadata
    | CommitMergeWorkflow | Deployment | ServiceRestartManagement | PackageInstallRemoveUpgrade
    | ProductionConfigurationChange | PersistentDeletion | AuthenticatedExternalAction | MessagingFileUpload
    | BroaderNetworkEffects | SecretExtractionTransmission | CredentialExtraction | SigningKeyAccess
    | PrivilegeEscalation | SafeguardWeakening | AuthorizationPolicyModification | TrustedKeyConfigurationModification
    | HostWiping | DestructiveSystemOperation | AuditLogConcealmentTampering | UnrestrictedShell
    | UnrelatedPersonalFileAccess | DataExfiltration | ControlsBypass
    | Unknown(id: string)

  datatype CapabilityClass = DelegatedSafe | OwnerApprovable | NeverAllowed

  datatype Spec = Spec(
    cls: CapabilityClass, allowedIntents: seq<Intent>, intrinsicRisk: Risk,
    networkRequired: bool, externalSideEffects: bool, secretExposure: bool,
    recipeBound: bool, executableBound: bool)

  function CapabilitySpec(id: Capability): Option<Spec> {
    match id
    case ApprovedProjectRead => Some(Spec(DelegatedSafe, [Read], Low, false, false, false, false, false))
    case ApprovedBoundedLogRead => Some(Spec(DelegatedSafe, [Read], Low, false, false, false, false, false))
    case LocalHealthStatusInspection => Some(Spec(DelegatedSafe, [], Low, false, false, false, false, false))
    case FixedTestRecipe => Some(Spec(DelegatedSafe, [], Medium, false, false, false, true, false))
    case FixedBuildRecipe => Some(Spec(DelegatedSafe, [], Medium, false, false, false, true, false))
    case FixedLintVerificationRecipe => Some(Spec(DelegatedSafe, [], Low, false, false, false, true, false))
    case CandidateWorkspaceCreate => Some(Spec(DelegatedSafe, [Write], Low, false, false, false, false, false))
    case CandidateWorkspaceReadWriteDelete =>
      Some(Spec(DelegatedSafe, [Read, Write, Delete], Low, false, false, false, false, false))
    case CandidatePatchGenerate => Some(Spec(DelegatedSafe, [Write], Low, false, false, false, false, false))
    case CandidateReportArtifactGenerate => Some(Spec(DelegatedSafe, [Write], Low, false, false, false, false, false))
    case BoundedDiagnosticExecution => Some(Spec(DelegatedSafe, [], Medium, false, false, false, false, true))
    case EngineeringProjectRead => Some(Spec(DelegatedSafe, [Read], Low, false, false, false, false, false))
    case CandidateRepositoryGitWrite =>
      Some(Spec(DelegatedSafe, [Read, Write, Delete], Medium, false, false, false, false, false))
    case ApplyCandidatePatchLive => Some(Spec(OwnerApprovable, [Write], High, false, false, false, false, false))
    case WriteLiveRepository => Some(Spec(OwnerApprovable, [Write], High, false, false, false, false, false))
    case ModifyLiveGitMetadata => Some(Spec(OwnerApprovable, [Write, Delete], High, false, false, false, false, false))
    case CommitMergeWorkflow => Some(Spec(OwnerApprovable, [], Consultation, false, false, false, false, false))
    case Deployment => Some(Spec(OwnerApprovable, [], Consultation, true, true, false, false, false))
    case ServiceRestartManagement => Some(Spec(OwnerApprovable, [], High, false, true, false, false, false))
    case PackageInstallRemoveUpgrade => Some(Spec(OwnerApprovable, [], High, true, true, false, false, false))
    case ProductionConfigurationChange =>
      Some(Spec(OwnerApprovable, [Write], Consultation, false, true, false, false, false))
    case PersistentDeletion => Some(Spec(OwnerApprovable, [Delete], High, false, false, false, false, false))
    case AuthenticatedExternalAction => Some(Spec(OwnerApprovable, [], Consultation, true, true, false, false, false))
    case MessagingFileUpload => Some(Spec(OwnerApprovable, [], High, true, true, false, false, false))
    case BroaderNetworkEffects => Some(Spec(OwnerApprovable, [], Consultation, true, true, false, false, false))
    case SecretExtractionTransmission => Some(Spec(NeverAllowed, [Read], High, false, false, true, false, false))
    case CredentialExtraction => Some(Spec(NeverAllowed, [Read], High, false, false, true, false, false))
    case SigningKeyAccess => Some(Spec(NeverAllowed, [Read, Write], High, false, false, true, false, false))
    case PrivilegeEscalation => Some(Spec(NeverAllowed, [], High, false, false, false, false, false))
    case SafeguardWeakening => Some(Spec(NeverAllowed, [], High, false, false, false, false, false))
    case AuthorizationPolicyModification =>
      Some(Spec(NeverAllowed, [Write, Delete], High, false, false, false, false, false))
    case TrustedKeyConfigurationModification =>
      Some(Spec(NeverAllowed, [Write, Delete], High, false, false, false, false, false))
    case HostWiping => Some(Spec(NeverAllowed, [Write, Delete], High, false, false, false, false, false))
    case DestructiveSystemOperation => Some(Spec(NeverAllowed, [], High, false, false, false, false, false))
    case AuditLogConcealmentTampering =>
      Some(Spec(NeverAllowed, [Write, Delete], High, false, false, false, false, false))
    case UnrestrictedShell => Some(Spec(NeverAllowed, [], High, false, false, false, false, false))
    case UnrelatedPersonalFileAccess =>
      Some(Spec(NeverAllowed, [Read, Write, Delete], High, false, false, false, false, false))
    case DataExfiltration => Some(Spec(NeverAllowed, [Read], High, true, true, true, false, false))
    case ControlsBypass => Some(Spec(NeverAllowed, [], High, false, false, false, false, false))
    case Unknown(_) => None
  }

  // ---- The registry by its columns ----

  /** The entry of a listed capability. */
  function SpecOf(id: Capability): Spec
    requires !id.Unknown?
  {
    CapabilitySpec(id).value
  }

  /** Who decides about a capability. */
  lemma ClassesAre(id: Capability)
    requires !id.Unknown?
    ensures SpecOf(id).cls == DelegatedSafe <==>
            id in {ApprovedProjectRead, ApprovedBoundedLogRead, LocalHealthStatusInspection, FixedTestRecipe,
                   FixedBuildRecipe, FixedLintVerificationRecipe, CandidateWorkspaceCreate,
                   CandidateWorkspaceReadWriteDelete, CandidatePatchGenerate, CandidateReportArtifactGenerate,
                   BoundedDiagnosticExecution, EngineeringProjectRead, CandidateRepositoryGitWrite}
    ensures SpecOf(id).cls == OwnerApprovable <==>
            id in {ApplyCandidatePatchLive, WriteLiveRepository, ModifyLiveGitMetadata, CommitMergeWorkflow,
                   Deployment, ServiceRestartManagement, PackageInstallRemoveUpgrade, ProductionConfigurationChange,
                   PersistentDeletion, AuthenticatedExternalAction, MessagingFileUpload, BroaderNetworkEffects}
    ensures SpecOf(id).cls == NeverAllowed <==>
            id in {SecretExtractionTransmission, CredentialExtraction, SigningKeyAccess, PrivilegeEscalation,
                   SafeguardWeakening, AuthorizationPolicyModification, TrustedKeyConfigurationModification,
                   HostWiping, DestructiveSystemOperation, AuditLogConcealmentTampering, UnrestrictedShell,
                   UnrelatedPersonalFileAccess, DataExfiltration, ControlsBypass}
  {
  }

  /** Which capabilities may read, */
  lemma ReadersAre(id: Capability)
    requires !id.Unknown?
    ensures Read in SpecOf(id).allowedIntents <==>
            id in {ApprovedProjectRead, ApprovedBoundedLogRead, CandidateWorkspaceReadWriteDelete,
                   EngineeringProjectRead, CandidateRepositoryGitWrite, SecretExtractionTransmission,
                   CredentialExtraction, SigningKeyAccess, UnrelatedPersonalFileAccess, DataExfiltration}
  {
  }

  /** write, */
  lemma WritersAre(id: Capability)
    requires !id.Unknown?
    ensures Write in SpecOf(id).allowedIntents <==>
            id in {CandidateWorkspaceCreate, CandidateWorkspaceReadWriteDelete, CandidatePatchGenerate,
                   CandidateReportArtifactGenerate, CandidateRepositoryGitWrite, ApplyCandidatePatchLive,
                   WriteLiveRepository, ModifyLiveGitMetadata, ProductionConfigurationChange, SigningKeyAccess,
                   AuthorizationPolicyModification, TrustedKeyConfigurationModification, HostWiping,
                   AuditLogConcealmentTampering, UnrelatedPersonalFileAccess}
  {
  }

  /** and delete. */
  lemma DeletersAre(id: Capability)
    requires !id.Unknown?
    ensures Delete in SpecOf(id).allowedIntents <==>
            id in {CandidateWorkspaceReadWriteDelete, CandidateRepositoryGitWrite, ModifyLiveGitMetadata,
                   PersistentDeletion, AuthorizationPolicyModification, TrustedKeyConfigurationModification,
                   HostWiping, AuditLogConcealmentTampering, UnrelatedPersonalFileAccess}
  {
  }

  /** How risky it is in itself: high, where nothing else is said. */
  lemma RisksAre(id: Capability)
    requires !id.Unknown?
    ensures SpecOf(id).intrinsicRisk == Low <==>
            id in {ApprovedProjectRead, ApprovedBoundedLogRead, LocalHealthStatusInspection,
                   FixedLintVerificationRecipe, CandidateWorkspaceCreate, CandidateWorkspaceReadWriteDelete,
                   CandidatePatchGenerate, CandidateReportArtifactGenerate, EngineeringProjectRead}
    ensures SpecOf(id).intrinsicRisk == Medium <==>
            id in {FixedTestRecipe, FixedBuildRecipe, BoundedDiagnosticExecution, CandidateRepositoryGitWrite}
    ensures SpecOf(id).intrinsicRisk == Consultation <==>
            id in {CommitMergeWorkflow, Deployment, ProductionConfigurationChange, AuthenticatedExternalAction,
                   BroaderNetworkEffects}
  {
  }

  /** What it needs or does in itself, and what it is bound to. */
  lemma EffectsAre(id: Capability)
    requires !id.Unknown?
    ensures SpecOf(id).networkRequired <==>
            id in {Deployment, PackageInstallRemoveUpgrade, AuthenticatedExternalAction, MessagingFileUpload,
                   BroaderNetworkEffects, DataExfiltration}
    ensures SpecOf(id).externalSideEffects <==>
            id in {Deployment, ServiceRestartManagement, PackageInstallRemoveUpgrade, ProductionConfigurationChange,
                   AuthenticatedExternalAction, MessagingFileUpload, BroaderNetworkEffects, DataExfiltration}
    ensures SpecOf(id).secretExposure <==>
            id in {SecretExtractionTransmission, CredentialExtraction, SigningKeyAccess, DataExfiltration}
    ensures SpecOf(id).recipeBound <==> id in {FixedTestRecipe, FixedBuildRecipe, FixedLintVerificationRecipe}
    ensures SpecOf(id).executableBound <==> id in {BoundedDiagnosticExecution}
  {
  }

  datatype Facts = Facts(
    capabilityClass: Option<CapabilityClass>,
    pathClass: PathClass, pathMalformed: bool, pathRequired: bool, risk: Risk,
    secretExposure: bool, networkRequired: bool, externalSideEffects: bool,
    liveCheckoutInteraction: bool, absoluteDenialCondition: bool)

  /** The risk before the model's label is considered. */
  function BaseRisk(spec: Spec, intent: Option<Intent>, network: bool, external: bool, pathClass: PathClass,
                    malformed: bool): Risk {
    var live := pathClass.Protected? && pathClass.rootClass == DelegatedWriteDenied;
    var denied := pathClass.Protected? && pathClass.rootClass == AbsoluteDenial;
    var r0 := if spec.cls == OwnerApprovable then Consultation else spec.intrinsicRisk;
    var r1 := if network then High else r0;
    var r2 := if external then Consultation else r1;
    var r3 := if (intent == Some(Write) || intent == Some(Delete)) && live then Consultation else r2;
    if spec.cls == NeverAllowed || denied || malformed then High else r3
  }

  function ClassifyKnown(spec: Spec, intent: Option<Intent>, targetPath: Option<Text>,
                         roots: ProtectedRootsConfig, modelLabel: Option<Risk>, network: bool, external: bool): Facts {
    var malformed := targetPath.Some? && !IsCanonicalForm(targetPath.value);
    var pathClass :=
      if targetPath.Some? && !malformed then ClassifyProtectedPath(roots, targetPath.value) else Unprotected;
    var denied := pathClass.Protected? && pathClass.rootClass == AbsoluteDenial;
    var net, ext := spec.networkRequired || network, spec.externalSideEffects || external;
    var base := BaseRisk(spec, intent, net, ext, pathClass, malformed);
    Facts(Some(spec.cls), pathClass, malformed,
          |spec.allowedIntents| > 0 && targetPath.None?,
          MaxRisk(base, if modelLabel.Some? then modelLabel.value else base),
          spec.secretExposure || denied, net, ext,
          pathClass.Protected? && pathClass.rootClass == DelegatedWriteDenied,
          spec.cls == NeverAllowed || denied)
  }

  function ClassifySandboxOperation(id: Capability, intent: Option<Intent>, targetPath: Option<Text>,
                                    roots: ProtectedRootsConfig, modelLabel: Option<Risk>,
                                    network: bool, external: bool): Facts {
    match CapabilitySpec(id)
    case None => Facts(None, Unprotected, false, false, High, false, false, false, false, false)
    case Some(spec) => ClassifyKnown(spec, intent, targetPath, roots, modelLabel, network, external)
  }

  /** The model's label changes nothing but the reported risk, and that only upwards. */
  lemma LabelOnlyRaisesRisk(id: Capability, intent: Option<Intent>, targetPath: Option<Text>,
                            roots: ProtectedRootsConfig, modelLabel: Risk, network: bool, external: bool)
    ensures var plain := ClassifySandboxOperation(id, intent, targetPath, roots, None, network, external);
            var labelled :=
              ClassifySandboxOperation(id, intent, targetPath, roots, Some(modelLabel), network, external);
            && labelled == plain.(risk := labelled.risk)
            && labelled.risk.Rank() >= plain.risk.Rank()
            && (id.Unknown? ==> labelled.risk == High)
            && (!id.Unknown? ==>
                  labelled.risk == if plain.risk.Rank() < modelLabel.Rank() then modelLabel else plain.risk)
  {
    hide CapabilitySpec, ClassifyProtectedPath, IsCanonicalForm;
    UnknownIffUnlisted(id);
  }

  lemma UnknownIffUnlisted(id: Capability)
    ensures CapabilitySpec(id).None? <==> id.Unknown?
  {
  }

  /** The order of the risks, and their maximum. */
  lemma RisksAscend(a: Risk, b: Risk)
    ensures Low.Rank() < Medium.Rank() < High.Rank() < Consultation.Rank()
    ensures MaxRisk(a, b) == if a.Rank() < b.Rank() then b else a
  {
  }

  /** Roots of the class that contain the target. */
  ghost predicate Below(roots: seq<Text>, targetPath: Option<Text>) {
    targetPath.Some? && exists root <- roots :: IsWithin(root, targetPath.value)
  }

  /** The target is in a root that delegation may not write, and in no denied one. */
  ghost predicate InLiveCheckout(roots: ProtectedRootsConfig, targetPath: Option<Text>) {
    !Below(roots.absoluteDenial, targetPath) && Below(roots.delegatedWriteDeniedOwnerApprovable, targetPath)
  }

  ghost predicate Malformed(targetPath: Option<Text>) {
    targetPath.Some? && !IsCanonicalForm(targetPath.value)
  }

  lemma PathClassIs(roots: ProtectedRootsConfig, path: Text)
    requires IsCanonicalForm(path)
    ensures var c := ClassifyProtectedPath(roots, path);
            && (c.Protected? && c.rootClass == AbsoluteDenial <==> Below(roots.absoluteDenial, Some(path)))
            && (c.Protected? && c.rootClass == DelegatedWriteDenied <==> InLiveCheckout(roots, Some(path)))
            && (c.Protected? ==>
                  Innermost(if c.rootClass == AbsoluteDenial then roots.absoluteDenial
                            else roots.delegatedWriteDeniedOwnerApprovable, path, c.root))
  {
    hide IsWithin, IsCanonicalForm;
    LongestIsInnermost(roots.absoluteDenial, path);
    LongestIsInnermost(roots.delegatedWriteDeniedOwnerApprovable, path);
  }

  lemma OutsideWhenMalformed(roots: seq<Text>, targetPath: Option<Text>)
    requires Malformed(targetPath)
    ensures !Below(roots, targetPath)
  {
    hide IsCanonicalForm;
  }

  /** The risk without a label, in full. */
  lemma RiskIs(id: Capability, intent: Option<Intent>, targetPath: Option<Text>, roots: ProtectedRootsConfig,
               network: bool, external: bool)
    ensures var risk := ClassifySandboxOperation(id, intent, targetPath, roots, None, network, external).risk;
            risk == if id.Unknown? || SpecOf(id).cls == NeverAllowed || Malformed(targetPath) then High
                    else if Below(roots.absoluteDenial, targetPath) then High
                    else if intent in {Some(Write), Some(Delete)} && InLiveCheckout(roots, targetPath) then Consultation
                    else if SpecOf(id).externalSideEffects || external then Consultation
                    else if SpecOf(id).networkRequired || network then High
                    else if SpecOf(id).cls == OwnerApprovable then Consultation
                    else SpecOf(id).intrinsicRisk
  {
    hide CapabilitySpec, ClassifyProtectedPath, IsCanonicalForm, Below;
    UnknownIffUnlisted(id);
    if targetPath.Some? && IsCanonicalForm(targetPath.value) {
      PathClassIs(roots, targetPath.value);
    } else if targetPath.Some? {
      OutsideWhenMalformed(roots.absoluteDenial, targetPath);
      OutsideWhenMalformed(roots.delegatedWriteDeniedOwnerApprovable, targetPath);
    } else {
      NoTarget(roots.absoluteDenial);
      NoTarget(roots.delegatedWriteDeniedOwnerApprovable);
    }
  }

  lemma NoTarget(roots: seq<Text>)
    ensures !Below(roots, None)
  {
  }

  /** The other facts of a listed capability, in full. */
  lemma FactsAre(id: Capability, intent: Option<Intent>, targetPath: Option<Text>, roots: ProtectedRootsConfig,
                 modelLabel: Option<Risk>, network: bool, external: bool)
    requires !id.Unknown?
    ensures var f := ClassifySandboxOperation(id, intent, targetPath, roots, modelLabel, network, external);
            && f.capabilityClass == Some(SpecOf(id).cls)
            && (f.pathMalformed <==> Malformed(targetPath))
            && (f.pathRequired <==> SpecOf(id).allowedIntents != [] && targetPath.None?)
            && (f.secretExposure <==> SpecOf(id).secretExposure || Below(roots.absoluteDenial, targetPath))
            && (f.networkRequired <==> SpecOf(id).networkRequired || network)
            && (f.externalSideEffects <==> SpecOf(id).externalSideEffects || external)
            && (f.liveCheckoutInteraction <==> InLiveCheckout(roots, targetPath))
            && (f.absoluteDenialCondition <==>
                  SpecOf(id).cls == NeverAllowed || Below(roots.absoluteDenial, targetPath))
  {
    hide CapabilitySpec, ClassifyProtectedPath, IsCanonicalForm, Below, BaseRisk, MaxRisk;
    UnknownIffUnlisted(id);
    if targetPath.Some? && IsCanonicalForm(targetPath.value) {
      PathClassIs(roots, targetPath.value);
    } else if targetPath.Some? {
      OutsideWhenMalformed(roots.absoluteDenial, targetPath);
      OutsideWhenMalformed(roots.delegatedWriteDeniedOwnerApprovable, targetPath);
    } else {
      NoTarget(roots.absoluteDenial);
      NoTarget(roots.delegatedWriteDeniedOwnerApprovable);
    }
  }

  /** What a registry entry that can run without the owner never involves, and
      how it is bound: to paths, or to a recipe or an executable, not both. */
  lemma DelegatedSafeIsHarmless(id: Capability)
    requires CapabilitySpec(id).Some? && CapabilitySpec(id).value.cls == DelegatedSafe
    ensures var spec := CapabilitySpec(id).value;
            && !spec.networkRequired && !spec.externalSideEffects && !spec.secretExposure
            && !(spec.recipeBound && spec.executableBound)
            && (spec.recipeBound || spec.executableBound ==> spec.allowedIntents == [])
            && spec.intrinsicRisk.Rank() <= Medium.Rank()
  {
  }

  /** The target is outside every configured root that would change the risk of
      an owner's operation. */
  predicate PlainTarget(intent: Option<Intent>, targetPath: Option<Text>, roots: ProtectedRootsConfig) {
    targetPath.Some? ==>
      && IsCanonicalForm(targetPath.value)
      && (forall r <- roots.absoluteDenial :: !IsWithin(r, targetPath.value))
      && (intent in {Some(Write), Some(Delete)} ==>
            forall r <- roots.delegatedWriteDeniedOwnerApprovable :: !IsWithin(r, targetPath.value))
  }

  /** Declaring a further effect need not raise the risk. Declaring the network
      lowers it, from consultation to high, exactly for an owner's operation
      that has no external effect, by its entry or as declared, and a target
      that is no denied one and no live checkout to be changed. */
  lemma NetworkLowersRiskIff(id: Capability, intent: Option<Intent>, targetPath: Option<Text>,
                             roots: ProtectedRootsConfig, external: bool)
    requires !id.Unknown?
    ensures CapabilitySpec(id).Some?
    ensures var spec := CapabilitySpec(id).value;
            var quiet := ClassifySandboxOperation(id, intent, targetPath, roots, None, false, external);
            var loud := ClassifySandboxOperation(id, intent, targetPath, roots, None, true, external);
            loud.risk.Rank() < quiet.risk.Rank() <==>
            && spec.cls == OwnerApprovable && !spec.networkRequired && !spec.externalSideEffects && !external
            && PlainTarget(intent, targetPath, roots)
  {
    hide CapabilitySpec, ClassifyProtectedPath, IsCanonicalForm, IsWithin;
    UnknownIffUnlisted(id);
    RiskIsBounded(id);
    if targetPath.Some? {
      ClassificationIff(roots, targetPath.value, targetPath.value);
      ClassIsOfRoot(roots, targetPath.value);
    }
  }

  /** The class of a classified path, by the roots around it. */
  lemma ClassIsOfRoot(roots: ProtectedRootsConfig, path: Text)
    ensures var c := ClassifyProtectedPath(roots, path);
            && ((c.Protected? && c.rootClass == AbsoluteDenial) <==>
                  exists r <- roots.absoluteDenial :: IsWithin(r, path))
            && ((c.Protected? && c.rootClass == DelegatedWriteDenied) ==>
                  exists r <- roots.delegatedWriteDeniedOwnerApprovable :: IsWithin(r, path))
  {
    hide IsWithin, Longest;
    var c := ClassifyProtectedPath(roots, path);
    ClassificationIff(roots, path, if c.Protected? then c.root else path);
    LongestIsInnermost(roots.absoluteDenial, path);
  }

  /** Committing and merging: a consultation, but only high with the network. */
  lemma NetworkCanLowerRisk()
    ensures var none := ProtectedRootsConfig([], []);
            && ClassifySandboxOperation(CommitMergeWorkflow, None, None, none, None, false, false).risk == Consultation
            && ClassifySandboxOperation(CommitMergeWorkflow, None, None, none, None, true, false).risk == High
  {
  }

  lemma RiskIsBounded(id: Capability)
    requires CapabilitySpec(id).Some?
    ensures var spec := CapabilitySpec(id).value;
            && (spec.intrinsicRisk.Rank() <= High.Rank() || spec.cls == OwnerApprovable)
            && (spec.cls == DelegatedSafe ==> spec.intrinsicRisk.Rank() <= Medium.Rank())
  {
  }

  /** Declaring an external effect never lowers it. */
  lemma ExternalEffectsOnlyRaiseRisk(id: Capability, intent: Option<Intent>, targetPath: Option<Text>,
                                     roots: ProtectedRootsConfig, network: bool)
    ensures var quiet := ClassifySandboxOperation(id, intent, targetPath, roots, None, network, false);
            var loud := ClassifySandboxOperation(id, intent, targetPath, roots, None, network, true);
            && loud.risk.Rank() >= quiet.risk.Rank()
            && (!id.Unknown? && !quiet.absoluteDenialCondition && !quiet.pathMalformed ==> loud.risk == Consultation)
  {
    hide CapabilitySpec, ClassifyProtectedPath, IsCanonicalForm;
    UnknownIffUnlisted(id);
  }
}
