/** Exactly which faults the validator reports, fault by fault, in terms of the
    document alone. */
module PolicyFaults {
  import opened JsText
  import opened Paths
  import opened ProtectedRoots
  import opened Classify
  import opened KeyMaterial
  import opened PolicySchema
  import opened PolicyDocument
  import opened Wrappers

  // ---- What each fault is ----

  predicate Whole(n: Raw<int>, least: int) {
    n.Well? && least <= n.value
  }

  predicate Dated(host: Host, t: Raw<Text>) {
    t.Well? && t.value != [] && host.parseDate(t.value).Some?
  }

  predicate Listed(list: RawList) {
    list.Well? && AllWell(list.value) && NonemptyDistinct(Values(list.value))
  }

  predicate Rooted(list: RawList) {
    list.Well? && AllWell(list.value) && Canonical(Values(list.value))
  }

  /** A protected root without a fault of its own. */
  predicate Sound(root: RawRoot, path: Text) {
    root.Record? && root.path == Well(path) && IsCanonicalForm(path) && root.rootClass.Some?
  }

  /** What of the protected roots a kind of overlap is looked for in. */
  predicate Guarded(kind: OverlapKind, root: RawRoot, path: Text) {
    && root.Record? && root.path == Well(path)
    && (kind.ReadRootAndDenial? ==> root.rootClass == Some(AbsoluteDenial))
  }

  function Against(kind: OverlapKind, d: Document): RawList {
    match kind case ReadRootAndDenial => d.readOnlyRoots case DisposableAndProtected => d.writableDisposableRoots
  }

  ghost predicate NamesKey(d: Document) {
    || !KeyFree(Shown(d.policyId)) || !KeyFree(Shown(d.issuedAt))
    || (d.expiresAt.Some? && !KeyFree(Shown(d.expiresAt.value)))
    || (d.allowedDelegatedSignerKeyIds.Well? &&
        exists id <- d.allowedDelegatedSignerKeyIds.value :: !KeyFree(Shown(id)))
  }

  ghost predicate IdentityFault(host: Host, d: Document, reason: Reason) {
    match reason
    case UnsupportedPayloadVersion(version) => d.payloadVersion == Well(version) && version != 1
    case PayloadVersionIllTyped(shown) => d.payloadVersion == Ill(shown)
    case PolicyIdRequired => d.policyId.Ill? || d.policyId.value == []
    case PolicyVersionRequired => !Whole(d.policyVersion, 1)
    case IssuedAtRequired => !Dated(host, d.issuedAt)
    case ExpiresAtInvalid => d.expiresAt.Some? && !Dated(host, d.expiresAt.value)
    case ExpiresAtMustExceedIssuedAt =>
      && Dated(host, d.issuedAt) && d.expiresAt.Some? && Dated(host, d.expiresAt.value)
      && host.parseDate(d.expiresAt.value.value).value <= host.parseDate(d.issuedAt.value).value
    case _ => false
  }

  ghost predicate ListFault(d: Document, reason: Reason) {
    match reason
    case SignerKeyIdsMustBeUnique => !Listed(d.allowedDelegatedSignerKeyIds)
    case RecipeIdsMustBeUnique => !Listed(d.allowedRecipeIds)
    case ExecutableIdsMustBeUnique => !Listed(d.allowedExecutableIds)
    case SessionRolesMustBeUnique => d.sessionRoles.Some? && !Listed(d.sessionRoles.value)
    case SessionRoleOutOfBounds =>
      && d.sessionRoles.Some? && Listed(d.sessionRoles.value)
      && exists role <- d.sessionRoles.value.value :: |role.value| > 64
    case _ => false
  }

  ghost predicate CapabilityListFault(list: Raw<seq<Entry>>, reason: Reason) {
    match reason
    case CapabilitiesRequired => list.Ill?
    case CapabilitiesMustNotBeEmpty => list == Well([])
    case IllTypedCapability(named) => list.Well? && NotAString(named) in list.value
    case UnknownCapability(id) => list.Well? && id.Unknown? && Id(id) in list.value
    case DuplicateCapability(id) =>
      && list.Well? && !id.Unknown?
      && exists i, j :: 0 <= i < j < |list.value| && Named(list.value[i]) == id && list.value[j] == Id(id)
    case _ => false
  }

  ghost predicate RootFault(list: Raw<seq<RawRoot>>, reason: Reason) {
    match reason
    case ProtectedRootsRequired => list.Ill?
    case ProtectedRootMustBeObject => list.Well? && exists root <- list.value :: !root.Record?
    case ProtectedRootPathRequired => list.Well? && exists root <- list.value :: root.Record? && root.path.Ill?
    case ProtectedRootNotCanonical(path) =>
      list.Well? && !IsCanonicalForm(path) && exists root <- list.value :: root.Record? && root.path == Well(path)
    case ProtectedRootInvalidClass(path) =>
      list.Well? && IsCanonicalForm(path) && Record(Well(path), None) in list.value
    case DuplicateProtectedRoot(path) =>
      && list.Well?
      && exists i, j :: 0 <= i < j < |list.value| && Sound(list.value[i], path) && Sound(list.value[j], path)
    case _ => false
  }

  ghost predicate CeilingFault(c: Raw<RawCeilings>, reason: Reason) {
    match reason
    case ResourceCeilingsRequired => c.Ill?
    case WallMsMaxRequired => c.Well? && !Whole(c.value.wallMsMax, 1)
    case MaxProcessesRequired => c.Well? && !Whole(c.value.maxProcesses, 1)
    case MaxOutputBytesRequired => c.Well? && !Whole(c.value.maxOutputBytes, 0)
    case WorkspaceBytesMaxRequired => c.Well? && !Whole(c.value.workspaceBytesMax, 1)
    case _ => false
  }

  ghost predicate OverlapFault(d: Document, reason: Reason) {
    match reason
    case RootsOverlap(kind, root, other) =>
      && Rooted(Against(kind, d)) && Well(root) in Against(kind, d).value
      && d.protectedRoots.Well? && (exists entry <- d.protectedRoots.value :: Guarded(kind, entry, other))
      && (IsWithin(root, other) || IsWithin(other, root))
    case _ => false
  }

  ghost predicate OtherFault(d: Document, reason: Reason) {
    match reason
    case ReadRootsMustBeCanonical => !Rooted(d.readOnlyRoots)
    case DisposableRootsMustBeCanonical => !Rooted(d.writableDisposableRoots)
    case NetworkModeInvalid => d.networkMode.Ill?
    case MaxActiveSessionsRequired => !Whole(d.maxActiveSessions, 1)
    case MustNotContainSecretMaterial => NamesKey(d)
    case _ => false
  }

  ghost predicate Faulty(host: Host, d: Document, reason: Reason) {
    || IdentityFault(host, d, reason) || ListFault(d, reason) || CapabilityListFault(d.allowedCapabilities, reason)
    || RootFault(d.protectedRoots, reason) || CeilingFault(d.resourceCeilings, reason) || OverlapFault(d, reason)
    || OtherFault(d, reason)
  }

  // ---- Part by part ----

  lemma IdentityIff(host: Host, d: Document, reason: Reason)
    ensures reason in RawIdentityReasons(host, d) <==> IdentityFault(host, d, reason)
  {
  }

  lemma ListedIff(list: RawList)
    ensures RawUnique(list) <==> Listed(list)
  {
    if list.Well? && AllWell(list.value) {
      DistinctIff(Values(list.value));
    }
  }

  lemma ListIff(d: Document, reason: Reason)
    ensures reason in RawListReasons(d) <==> ListFault(d, reason)
  {
    hide RawUnique, Listed, Values;
    ListedIff(d.allowedDelegatedSignerKeyIds);
    ListedIff(d.allowedRecipeIds);
    ListedIff(d.allowedExecutableIds);
    if d.sessionRoles.Some? {
      ListedIff(d.sessionRoles.value);
      RolesIff(d.sessionRoles.value, reason);
    }
  }

  lemma RolesIff(roles: RawList, reason: Reason)
    ensures reason in RawRoleReasons(Some(roles)) <==>
            || (reason == SessionRolesMustBeUnique && !Listed(roles))
            || (reason == SessionRoleOutOfBounds && Listed(roles) && exists role <- roles.value :: |role.value| > 64)
  {
    ListedIff(roles);
    if Listed(roles) {
      var values := Values(roles.value);
      assert forall i | 0 <= i < |values| :: values[i] == roles.value[i].value && |values[i]| > 0;
      if role :| role in values && |role| > ROLE_MAX {
        var i :| 0 <= i < |values| && values[i] == role;
        assert roles.value[i] in roles.value;
      }
      if role :| role in roles.value && |role.value| > ROLE_MAX {
        var i :| 0 <= i < |values| && roles.value[i] == role;
        assert values[i] in values;
      }
    }
  }

  ghost predicate NamedBefore(entries: seq<Entry>, j: int, id: Capability) {
    exists i :: 0 <= i < j && i < |entries| && Named(entries[i]) == id
  }

  ghost predicate RepeatedAt(entries: seq<Entry>, seen: set<Capability>, id: Capability, j: int) {
    0 <= j < |entries| && entries[j] == Id(id) && (id in seen || NamedBefore(entries, j, id))
  }

  ghost predicate RepeatedCapability(entries: seq<Entry>, seen: set<Capability>, id: Capability) {
    exists j :: RepeatedAt(entries, seen, id, j)
  }

  lemma NamedBeforeStep(entries: seq<Entry>, j: int, id: Capability)
    requires 0 < j <= |entries|
    ensures NamedBefore(entries, j, id) <==> Named(entries[0]) == id || NamedBefore(entries[1..], j - 1, id)
  {
    hide Named;
    var rest := entries[1..];
    if i :| 0 <= i < j && i < |entries| && Named(entries[i]) == id {
      assert i == 0 || Named(rest[i - 1]) == id;
    }
    if i :| 0 <= i < j - 1 && i < |rest| && Named(rest[i]) == id {
      assert Named(entries[i + 1]) == id;
    }
  }

  lemma RepeatedAtStep(entries: seq<Entry>, seen: set<Capability>, id: Capability, j: int)
    requires 0 < j < |entries|
    ensures RepeatedAt(entries, seen, id, j) <==> RepeatedAt(entries[1..], seen + {Named(entries[0])}, id, j - 1)
  {
    hide Named, NamedBefore;
    NamedBeforeStep(entries, j, id);
  }

  lemma RepeatedCapabilityStep(entries: seq<Entry>, seen: set<Capability>, id: Capability)
    requires entries != []
    ensures RepeatedCapability(entries, seen, id) <==>
            || (entries[0] == Id(id) && id in seen)
            || RepeatedCapability(entries[1..], seen + {Named(entries[0])}, id)
  {
    hide Named;
    assert RepeatedAt(entries, seen, id, 0) <==> entries[0] == Id(id) && id in seen;
    hide RepeatedAt;
    var rest, more := entries[1..], seen + {Named(entries[0])};
    if j :| RepeatedAt(entries, seen, id, j) {
      RepeatedInside(entries, seen, id, j);
      if j > 0 {
        RepeatedAtStep(entries, seen, id, j);
      }
    }
    if j :| RepeatedAt(rest, more, id, j) {
      RepeatedInside(rest, more, id, j);
      RepeatedAtStep(entries, seen, id, j + 1);
    }
  }

  lemma RepeatedInside(entries: seq<Entry>, seen: set<Capability>, id: Capability, j: int)
    requires RepeatedAt(entries, seen, id, j)
    ensures 0 <= j < |entries|
  {
  }

  lemma {:induction false} EntriesIff(entries: seq<Entry>, seen: set<Capability>, reason: Reason)
    ensures reason in EntriesReasons(entries, seen) <==>
            match reason
            case IllTypedCapability(named) => NotAString(named) in entries
            case UnknownCapability(id) => id.Unknown? && Id(id) in entries
            case DuplicateCapability(id) => !id.Unknown? && RepeatedCapability(entries, seen, id)
            case _ => false
  {
    hide RepeatedCapability, CapabilitySpec;
    if entries != [] {
      var more := seen + {Named(entries[0])};
      EntriesIff(entries[1..], more, reason);
      assert entries == [entries[0]] + entries[1..];
      if entries[0].Id? {
        UnknownIffUnlisted(entries[0].id);
      }
      if reason.DuplicateCapability? {
        RepeatedCapabilityStep(entries, seen, reason.id);
      }
    } else if reason.DuplicateCapability? {
      NothingIsRepeated(seen, reason.id);
    }
  }

  lemma NothingIsRepeated(seen: set<Capability>, id: Capability)
    ensures !RepeatedCapability([], seen, id)
  {
  }

  lemma CapabilityListIff(list: Raw<seq<Entry>>, reason: Reason)
    ensures reason in RawCapabilityReasons(list) <==> CapabilityListFault(list, reason)
  {
    if list.Well? {
      EntriesIff(list.value, {}, reason);
      if reason.DuplicateCapability? && CapabilityListFault(list, reason) {
        var i, j :| 0 <= i < j < |list.value| && Named(list.value[i]) == reason.id && list.value[j] == Id(reason.id);
        assert RepeatedAt(list.value, {}, reason.id, j);
      }
    }
  }

  ghost predicate RepeatedRoot(roots: seq<RawRoot>, seen: set<Text>, path: Text) {
    exists j :: 0 <= j < |roots| && Sound(roots[j], path) &&
                (path in seen || exists i :: 0 <= i < j && Sound(roots[i], path))
  }

  lemma RepeatedRootStep(roots: seq<RawRoot>, seen: set<Text>, more: set<Text>, path: Text)
    requires roots != [] && (path in more <==> path in seen || Sound(roots[0], path))
    ensures RepeatedRoot(roots, seen, path) <==>
            (Sound(roots[0], path) && path in seen) || RepeatedRoot(roots[1..], more, path)
  {
    hide Sound;
    var rest := roots[1..];
    assert forall i | 0 <= i < |rest| :: rest[i] == roots[i + 1];
    if RepeatedRoot(roots, seen, path) {
      var j :| 0 <= j < |roots| && Sound(roots[j], path) &&
               (path in seen || exists i :: 0 <= i < j && Sound(roots[i], path));
      if j > 0 {
        assert Sound(rest[j - 1], path);
        if path !in seen {
          var i :| 0 <= i < j && Sound(roots[i], path);
          if i > 0 {
            assert Sound(rest[i - 1], path);
          }
        }
      }
    }
    if RepeatedRoot(rest, more, path) {
      var j :| 0 <= j < |rest| && Sound(rest[j], path) &&
               (path in more || exists i :: 0 <= i < j && Sound(rest[i], path));
      assert Sound(roots[j + 1], path);
      if i :| 0 <= i < j && Sound(rest[i], path) {
        assert Sound(roots[i + 1], path);
      }
    }
  }

  lemma NoRootIsRepeated(seen: set<Text>, path: Text)
    ensures !RepeatedRoot([], seen, path)
  {
  }

  lemma SeenAfterRoot(root: RawRoot, seen: set<Text>, path: Text)
    ensures path in RootReasons(root, seen).1 <==> path in seen || Sound(root, path)
  {
    hide IsCanonicalForm;
  }

  lemma {:induction false} RootsIff(roots: seq<RawRoot>, seen: set<Text>, reason: Reason)
    ensures reason in RootsReasons(roots, seen) <==>
            match reason
            case ProtectedRootMustBeObject => exists root <- roots :: !root.Record?
            case ProtectedRootPathRequired => exists root <- roots :: root.Record? && root.path.Ill?
            case ProtectedRootNotCanonical(path) =>
              !IsCanonicalForm(path) && exists root <- roots :: root.Record? && root.path == Well(path)
            case ProtectedRootInvalidClass(path) => IsCanonicalForm(path) && Record(Well(path), None) in roots
            case DuplicateProtectedRoot(path) => RepeatedRoot(roots, seen, path)
            case _ => false
  {
    hide IsCanonicalForm, RepeatedRoot;
    if roots != [] {
      var more := RootReasons(roots[0], seen).1;
      RootsIff(roots[1..], more, reason);
      assert roots[0] in roots && forall root <- roots :: root == roots[0] || root in roots[1..];
      if reason.DuplicateProtectedRoot? {
        SeenAfterRoot(roots[0], seen, reason.path);
        RepeatedRootStep(roots, seen, more, reason.path);
      }
    } else if reason.DuplicateProtectedRoot? {
      NoRootIsRepeated(seen, reason.path);
    }
  }

  lemma RootListIff(list: Raw<seq<RawRoot>>, reason: Reason)
    ensures reason in RawProtectedReasons(list) <==> RootFault(list, reason)
  {
    hide IsCanonicalForm, Sound;
    if list.Well? {
      RootsIff(list.value, {}, reason);
      if reason.DuplicateProtectedRoot? && RootFault(list, reason) {
        var i, j :| 0 <= i < j < |list.value| && Sound(list.value[i], reason.path) && Sound(list.value[j], reason.path);
        assert RepeatedRoot(list.value, {}, reason.path);
      }
    }
  }

  lemma CeilingIff(c: Raw<RawCeilings>, reason: Reason)
    ensures reason in RawCeilingReasons(c) <==> CeilingFault(c, reason)
  {
  }

  lemma {:induction false} OverlapsOfRootIff(kind: OverlapKind, root: Text, others: seq<Text>, reason: Reason)
    ensures reason in OverlapsOfRoot(kind, root, others) <==>
            && reason.RootsOverlap? && reason.kind == kind && reason.root == root
            && reason.other in others && (IsWithin(root, reason.other) || IsWithin(reason.other, root))
  {
    hide IsWithin;
    if others != [] {
      OverlapsOfRootIff(kind, root, others[1..], reason);
      assert others == [others[0]] + others[1..];
    }
  }

  lemma {:induction false} OverlapsIff(kind: OverlapKind, roots: seq<Text>, others: seq<Text>, reason: Reason)
    ensures reason in OverlapReasons(kind, roots, others) <==>
            && reason.RootsOverlap? && reason.kind == kind && reason.root in roots
            && reason.other in others && (IsWithin(reason.root, reason.other) || IsWithin(reason.other, reason.root))
  {
    hide IsWithin;
    if roots != [] {
      OverlapsOfRootIff(kind, roots[0], others, reason);
      OverlapsIff(kind, roots[1..], others, reason);
      assert roots == [roots[0]] + roots[1..];
    }
  }

  lemma {:induction false} EntryPathsIff(roots: seq<RawRoot>, kind: OverlapKind, path: Text)
    ensures path in EntryPaths(roots, kind.ReadRootAndDenial?) <==> exists entry <- roots :: Guarded(kind, entry, path)
  {
    if roots != [] {
      EntryPathsIff(roots[1..], kind, path);
      assert roots[0] in roots && forall root <- roots :: root == roots[0] || root in roots[1..];
    }
  }

  lemma RootedIff(list: RawList)
    ensures RawCanonical(list) <==> Rooted(list)
  {
    if list.Well? && AllWell(list.value) {
      CanonicalRootsIff(Values(list.value));
    }
  }

  lemma InValuesIff(list: RawList, t: Text)
    requires Rooted(list)
    ensures t in Values(list.value) <==> Well(t) in list.value
  {
    var values := Values(list.value);
    if Well(t) in list.value {
      var i :| 0 <= i < |values| && list.value[i] == Well(t);
      assert values[i] == t;
    }
    if t in values {
      var i :| 0 <= i < |values| && values[i] == t;
      assert list.value[i] == Well(t);
    }
  }

  lemma KindIff(d: Document, kind: OverlapKind, reason: Reason)
    ensures reason in RawOverlapReasons(kind, Against(kind, d), d.protectedRoots) <==>
            OverlapFault(d, reason) && reason.kind == kind
  {
    hide RawCanonical, Rooted, OverlapReasons, EntryPaths, Guarded, IsWithin, Values;
    var list := Against(kind, d);
    RootedIff(list);
    if Rooted(list) && d.protectedRoots.Well? && reason.RootsOverlap? {
      RootedIsWell(list);
      OverlapsIff(kind, Values(list.value), EntryPaths(d.protectedRoots.value, kind.ReadRootAndDenial?), reason);
      EntryPathsIff(d.protectedRoots.value, kind, reason.other);
      InValuesIff(list, reason.root);
    } else if Rooted(list) && d.protectedRoots.Well? {
      RootedIsWell(list);
      OverlapsIff(kind, Values(list.value), EntryPaths(d.protectedRoots.value, kind.ReadRootAndDenial?), reason);
    }
  }

  lemma RootedIsWell(list: RawList)
    requires Rooted(list)
    ensures list.Well? && AllWell(list.value)
  {
  }

  lemma OverlapIff(d: Document, reason: Reason)
    ensures reason in RawOverlapReasons(ReadRootAndDenial, d.readOnlyRoots, d.protectedRoots) ||
            reason in RawOverlapReasons(DisposableAndProtected, d.writableDisposableRoots, d.protectedRoots) <==>
            OverlapFault(d, reason)
  {
    hide RawOverlapReasons, OverlapFault;
    KindIff(d, ReadRootAndDenial, reason);
    KindIff(d, DisposableAndProtected, reason);
  }

  lemma ShownIff(ids: seq<Raw<Text>>, field: Text)
    ensures field in AllShown(ids) <==> exists id <- ids :: Shown(id) == field
  {
    hide Shown;
    if field in AllShown(ids) {
      var i :| 0 <= i < |ids| && AllShown(ids)[i] == field;
      assert ids[i] in ids;
    }
    if id :| id in ids && Shown(id) == field {
      var i :| 0 <= i < |ids| && ids[i] == id;
      assert AllShown(ids)[i] == field;
    }
  }

  lemma FieldIff(d: Document, field: Text)
    ensures field in RawStringFields(d) <==>
            || field == Shown(d.policyId) || field == Shown(d.issuedAt)
            || field == (if d.expiresAt.Some? then Shown(d.expiresAt.value) else U("undefined"))
            || (d.allowedDelegatedSignerKeyIds.Well? &&
                exists id <- d.allowedDelegatedSignerKeyIds.value :: Shown(id) == field)
  {
    hide Shown, AllShown, U;
    if d.allowedDelegatedSignerKeyIds.Well? {
      ShownIff(d.allowedDelegatedSignerKeyIds.value, field);
    }
  }

  lemma NamesKeyIff(d: Document)
    ensures RawHoldsKeyMaterial(d) <==> NamesKey(d)
  {
    hide LooksLikeKeyMaterial, KeyFree, RawStringFields, U, Shown;
    ShortIsKeyFree(U("undefined"));
    forall t
      ensures LooksLikeKeyMaterial(t) <==> !KeyFree(t)
    {
      LooksLikeKeyMaterialIff(t);
    }
    forall field {
      FieldIff(d, field);
    }
  }

  lemma OtherIff(d: Document, reason: Reason)
    ensures reason in When(!RawCanonical(d.readOnlyRoots), ReadRootsMustBeCanonical) ||
            reason in When(!RawCanonical(d.writableDisposableRoots), DisposableRootsMustBeCanonical) ||
            reason in When(d.networkMode.Ill?, NetworkModeInvalid) ||
            reason in When(!AtLeast(d.maxActiveSessions, 1), MaxActiveSessionsRequired) ||
            reason in When(RawHoldsKeyMaterial(d), MustNotContainSecretMaterial) <==>
            OtherFault(d, reason)
  {
    hide RawCanonical, Rooted, RawHoldsKeyMaterial, NamesKey;
    RootedIff(d.readOnlyRoots);
    RootedIff(d.writableDisposableRoots);
    NamesKeyIff(d);
  }

  /** The validator reports a fault exactly when the document has it. */
  lemma ReportedIff(host: Host, d: Document, reason: Reason)
    ensures reason in DocumentReasons(host, d) <==> Faulty(host, d, reason)
  {
    hide RawIdentityReasons, RawListReasons, RawCapabilityReasons, RawProtectedReasons, RawCeilingReasons,
         RawOverlapReasons, RawHoldsKeyMaterial, RawCanonical, AtLeast, When, IdentityFault, ListFault,
         CapabilityListFault, RootFault, CeilingFault, OverlapFault, OtherFault;
    IdentityIff(host, d, reason);
    ListIff(d, reason);
    CapabilityListIff(d.allowedCapabilities, reason);
    RootListIff(d.protectedRoots, reason);
    CeilingIff(d.resourceCeilings, reason);
    OverlapIff(d, reason);
    OtherIff(d, reason);
  }
}
