/** The owner's policy document, well typed, and what its validation reports:
    every fault, in order. A document with none has the properties the
    authorization decision relies on. */
module PolicySchema {
  import opened JsText
  import opened Paths
  import opened ProtectedRoots
  import opened Classify
  import opened KeyMaterial
  import opened Wrappers

  datatype Ceilings = Ceilings(wallMsMax: int, maxProcesses: int, maxOutputBytes: int, workspaceBytesMax: int)

  datatype PolicyRoot = PolicyRoot(path: Text, rootClass: RootClass)

  datatype NetworkMode = NoNetwork | Networked

  datatype Policy = Policy(
    payloadVersion: int, policyId: Text, policyVersion: int, issuedAt: Text, expiresAt: Option<Text>,
    allowedDelegatedSignerKeyIds: seq<Text>, allowedCapabilities: seq<Capability>,
    sessionRoles: Option<seq<Text>>, readOnlyRoots: seq<Text>, writableDisposableRoots: seq<Text>,
    protectedRoots: seq<PolicyRoot>, allowedRecipeIds: seq<Text>, allowedExecutableIds: seq<Text>,
    resourceCeilings: Ceilings, networkMode: NetworkMode, maxActiveSessions: int)

  const PAYLOAD_VERSION := 1
  const ROLE_MAX := 64

  /** What the host decides: the reading of a date (nothing for NaN). */
  datatype Host = Host(parseDate: Text -> Option<int>)

  datatype OverlapKind = ReadRootAndDenial | DisposableAndProtected

  datatype Reason =
    | UnsupportedPayloadVersion(version: int)
    | PolicyIdRequired
    | PolicyVersionRequired
    | IssuedAtRequired
    | ExpiresAtInvalid
    | ExpiresAtMustExceedIssuedAt
    | SignerKeyIdsMustBeUnique
    | RecipeIdsMustBeUnique
    | SessionRolesMustBeUnique
    | SessionRoleOutOfBounds
    | ExecutableIdsMustBeUnique
    | CapabilitiesMustNotBeEmpty
    | UnknownCapability(id: Capability)
    | DuplicateCapability(id: Capability)
    | ReadRootsMustBeCanonical
    | DisposableRootsMustBeCanonical
    | ProtectedRootNotCanonical(path: Text)
    | DuplicateProtectedRoot(path: Text)
    | WallMsMaxRequired
    | MaxProcessesRequired
    | MaxOutputBytesRequired
    | WorkspaceBytesMaxRequired
    | MaxActiveSessionsRequired
    | RootsOverlap(kind: OverlapKind, root: Text, other: Text)
    | MustNotContainSecretMaterial
    | PolicyNotAnObject
    | PayloadVersionIllTyped(shown: Text)
    | CapabilitiesRequired
    | IllTypedCapability(named: Capability)
    | ProtectedRootsRequired
    | ProtectedRootMustBeObject
    | ProtectedRootPathRequired
    | ProtectedRootInvalidClass(path: Text)
    | ResourceCeilingsRequired
    | NetworkModeInvalid

  predicate ValidIso(host: Host, s: Text) {
    s != [] && host.parseDate(s).Some?
  }

  predicate UniqueStrings(values: seq<Text>) {
    (forall v <- values :: |v| > 0) && |Elements(values)| == |values|
  }

  predicate CanonicalRoots(values: seq<Text>) {
    forall v <- values :: CanonicalizePath(v).Ok? && IsCanonicalForm(v)
  }

  function StringFields(p: Policy): seq<Text> {
    [p.policyId, p.issuedAt, if p.expiresAt.Some? then p.expiresAt.value else U("undefined")] +
    p.allowedDelegatedSignerKeyIds
  }

  predicate Overlap(a: Text, b: Text) {
    IsWithin(a, b) || IsWithin(b, a)
  }

  function PathsOfClass(roots: seq<PolicyRoot>, c: RootClass): seq<Text> {
    if roots == [] then []
    else (if roots[0].rootClass == c then [roots[0].path] else []) + PathsOfClass(roots[1..], c)
  }

  function ProtectedPaths(roots: seq<PolicyRoot>): (r: seq<Text>)
    ensures |r| == |roots|
    ensures forall i | 0 <= i < |roots| :: r[i] == roots[i].path
  {
    seq(|roots|, i requires 0 <= i < |roots| => roots[i].path)
  }

  function ToProtectedRootsConfig(roots: seq<PolicyRoot>): ProtectedRootsConfig {
    ProtectedRootsConfig(PathsOfClass(roots, DelegatedWriteDenied), PathsOfClass(roots, AbsoluteDenial))
  }

  // ---- What the validator reports ----

  function When(condition: bool, reason: Reason): seq<Reason> {
    if condition then [reason] else []
  }

  function ExpiryMs(host: Host, p: Policy): Option<int> {
    if p.expiresAt.Some? && p.expiresAt.value != [] then host.parseDate(p.expiresAt.value) else None
  }

  predicate ExpiryTooEarly(host: Host, p: Policy) {
    && ValidIso(host, p.issuedAt) && ExpiryMs(host, p).Some?
    && ExpiryMs(host, p).value <= host.parseDate(p.issuedAt).value
  }

  function IdentityReasons(host: Host, p: Policy): seq<Reason> {
    When(p.payloadVersion != PAYLOAD_VERSION, UnsupportedPayloadVersion(p.payloadVersion)) +
    When(p.policyId == [], PolicyIdRequired) +
    When(p.policyVersion < 1, PolicyVersionRequired) +
    When(!ValidIso(host, p.issuedAt), IssuedAtRequired) +
    When(p.expiresAt.Some? && !ValidIso(host, p.expiresAt.value), ExpiresAtInvalid) +
    When(ExpiryTooEarly(host, p), ExpiresAtMustExceedIssuedAt)
  }

  function RoleReasons(roles: Option<seq<Text>>): seq<Reason> {
    if roles.None? then []
    else if !UniqueStrings(roles.value) then [SessionRolesMustBeUnique]
    else When(exists r <- roles.value :: |r| == 0 || |r| > ROLE_MAX, SessionRoleOutOfBounds)
  }

  function ListReasons(p: Policy): seq<Reason> {
    When(!UniqueStrings(p.allowedDelegatedSignerKeyIds), SignerKeyIdsMustBeUnique) +
    When(!UniqueStrings(p.allowedRecipeIds), RecipeIdsMustBeUnique) +
    RoleReasons(p.sessionRoles) +
    When(!UniqueStrings(p.allowedExecutableIds), ExecutableIdsMustBeUnique)
  }

  function CapabilityFault(id: Capability, seen: set<Capability>): seq<Reason> {
    if CapabilitySpec(id).None? then [UnknownCapability(id)]
    else if id in seen then [DuplicateCapability(id)] else []
  }

  function CapabilityReasons(ids: seq<Capability>, seen: set<Capability>): seq<Reason> {
    if ids == [] then []
    else CapabilityFault(ids[0], seen) + CapabilityReasons(ids[1..], seen + {ids[0]})
  }

  function ProtectedReasons(roots: seq<PolicyRoot>, seen: set<Text>): seq<Reason> {
    if roots == [] then []
    else if !IsCanonicalForm(roots[0].path) then
      [ProtectedRootNotCanonical(roots[0].path)] + ProtectedReasons(roots[1..], seen)
    else
      When(roots[0].path in seen, DuplicateProtectedRoot(roots[0].path)) +
      ProtectedReasons(roots[1..], seen + {roots[0].path})
  }

  function CeilingReasons(c: Ceilings): seq<Reason> {
    When(c.wallMsMax < 1, WallMsMaxRequired) +
    When(c.maxProcesses < 1, MaxProcessesRequired) +
    When(c.maxOutputBytes < 0, MaxOutputBytesRequired) +
    When(c.workspaceBytesMax < 1, WorkspaceBytesMaxRequired)
  }

  function OverlapsOfRoot(kind: OverlapKind, root: Text, others: seq<Text>): seq<Reason> {
    if others == [] then []
    else When(Overlap(root, others[0]), RootsOverlap(kind, root, others[0])) + OverlapsOfRoot(kind, root, others[1..])
  }

  function OverlapReasons(kind: OverlapKind, roots: seq<Text>, others: seq<Text>): seq<Reason> {
    if roots == [] then []
    else OverlapsOfRoot(kind, roots[0], others) + OverlapReasons(kind, roots[1..], others)
  }

  function CapabilityListReasons(ids: seq<Capability>): seq<Reason> {
    if ids == [] then [CapabilitiesMustNotBeEmpty] else CapabilityReasons(ids, {})
  }

  function ReadOverlapReasons(p: Policy): seq<Reason> {
    if CanonicalRoots(p.readOnlyRoots)
    then OverlapReasons(ReadRootAndDenial, p.readOnlyRoots, PathsOfClass(p.protectedRoots, AbsoluteDenial))
    else []
  }

  function DisposableOverlapReasons(p: Policy): seq<Reason> {
    if CanonicalRoots(p.writableDisposableRoots)
    then OverlapReasons(DisposableAndProtected, p.writableDisposableRoots, ProtectedPaths(p.protectedRoots))
    else []
  }

  predicate HoldsKeyMaterial(p: Policy) {
    exists field <- StringFields(p) :: LooksLikeKeyMaterial(field)
  }

  function PolicyReasons(host: Host, p: Policy): seq<Reason> {
    IdentityReasons(host, p) +
    ListReasons(p) +
    CapabilityListReasons(p.allowedCapabilities) +
    When(!CanonicalRoots(p.readOnlyRoots), ReadRootsMustBeCanonical) +
    When(!CanonicalRoots(p.writableDisposableRoots), DisposableRootsMustBeCanonical) +
    ProtectedReasons(p.protectedRoots, {}) +
    CeilingReasons(p.resourceCeilings) +
    When(p.maxActiveSessions < 1, MaxActiveSessionsRequired) +
    ReadOverlapReasons(p) +
    DisposableOverlapReasons(p) +
    When(HoldsKeyMaterial(p), MustNotContainSecretMaterial)
  }

  // ---- The nested loops over pairs of roots ----

  /** The inner of the nested loops: one root against each other root. */
  method OverlapsOfRootLoop(kind: OverlapKind, root: Text, others: seq<Text>) returns (reasons: seq<Reason>)
    ensures reasons == OverlapsOfRoot(kind, root, others)
  {
    hide IsWithin;
    reasons := [];
    var j := 0;
    while j < |others|
      invariant 0 <= j <= |others|
      invariant OverlapsOfRoot(kind, root, others) == reasons + OverlapsOfRoot(kind, root, others[j..])
    {
      var o := others[j];
      assert others[j..][0] == o && others[j..][1..] == others[j + 1..];
      Associative(reasons, When(Overlap(root, o), RootsOverlap(kind, root, o)),
                  OverlapsOfRoot(kind, root, others[j + 1..]));
      if IsWithin(root, o) || IsWithin(o, root) {
        reasons := reasons + [RootsOverlap(kind, root, o)];
      }
      j := j + 1;
    }
    assert others[j..] == [];
  }

  method OverlapLoop(kind: OverlapKind, roots: seq<Text>, others: seq<Text>) returns (reasons: seq<Reason>)
    ensures reasons == OverlapReasons(kind, roots, others)
  {
    hide IsWithin, OverlapsOfRoot;
    reasons := [];
    var i := 0;
    while i < |roots|
      invariant 0 <= i <= |roots|
      invariant OverlapReasons(kind, roots, others) == reasons + OverlapReasons(kind, roots[i..], others)
    {
      assert roots[i..][0] == roots[i] && roots[i..][1..] == roots[i + 1..];
      var found := OverlapsOfRootLoop(kind, roots[i], others);
      Associative(reasons, found, OverlapReasons(kind, roots[i + 1..], others));
      reasons := reasons + found;
      i := i + 1;
    }
    assert roots[i..] == [];
  }

  // ---- What a document without faults is ----

  predicate NonemptyDistinct(values: seq<Text>) {
    (forall v <- values :: |v| > 0) && Distinct(values)
  }

  predicate Canonical(values: seq<Text>) {
    forall v <- values :: IsCanonicalForm(v)
  }

  predicate Apart(roots: seq<Text>, others: seq<Text>) {
    forall i, j | 0 <= i < |roots| && 0 <= j < |others| ::
      !IsWithin(roots[i], others[j]) && !IsWithin(others[j], roots[i])
  }

  predicate WellDated(host: Host, p: Policy) {
    && ValidIso(host, p.issuedAt)
    && (p.expiresAt.Some? ==>
          && ValidIso(host, p.expiresAt.value)
          && host.parseDate(p.issuedAt).value < host.parseDate(p.expiresAt.value).value)
  }

  predicate WellRooted(p: Policy) {
    && Canonical(p.readOnlyRoots) && Canonical(p.writableDisposableRoots)
    && Canonical(ProtectedPaths(p.protectedRoots)) && Distinct(ProtectedPaths(p.protectedRoots))
    && Apart(p.readOnlyRoots, PathsOfClass(p.protectedRoots, AbsoluteDenial))
    && Apart(p.writableDisposableRoots, ProtectedPaths(p.protectedRoots))
  }

  predicate WellListed(p: Policy) {
    && NonemptyDistinct(p.allowedDelegatedSignerKeyIds)
    && NonemptyDistinct(p.allowedRecipeIds) && NonemptyDistinct(p.allowedExecutableIds)
    && (p.sessionRoles.Some? ==>
          NonemptyDistinct(p.sessionRoles.value) && forall r <- p.sessionRoles.value :: |r| <= ROLE_MAX)
    && p.allowedCapabilities != [] && Distinct(p.allowedCapabilities)
    && (forall id <- p.allowedCapabilities :: !id.Unknown?)
  }

  predicate WellBounded(p: Policy) {
    var c := p.resourceCeilings;
    && c.wallMsMax >= 1 && c.maxProcesses >= 1 && c.maxOutputBytes >= 0 && c.workspaceBytesMax >= 1
    && p.maxActiveSessions >= 1
  }

  /** Neither the identity, nor the dates, nor any signer's key id holds a key. */
  ghost predicate NamesNoKey(p: Policy) {
    && KeyFree(p.policyId) && KeyFree(p.issuedAt) && (p.expiresAt.Some? ==> KeyFree(p.expiresAt.value))
    && forall id <- p.allowedDelegatedSignerKeyIds :: KeyFree(id)
  }

  ghost predicate ValidPolicy(host: Host, p: Policy) {
    && p.payloadVersion == PAYLOAD_VERSION && p.policyId != [] && p.policyVersion >= 1
    && WellDated(host, p) && WellListed(p) && WellRooted(p) && WellBounded(p) && NamesNoKey(p)
  }

  lemma {:induction false} NoCapabilityReasonsIff(ids: seq<Capability>, seen: set<Capability>)
    ensures CapabilityReasons(ids, seen) == [] <==>
            Distinct(ids) && forall i | 0 <= i < |ids| :: ids[i] !in seen && !ids[i].Unknown?
  {
    hide CapabilitySpec;
    if ids != [] {
      var rest := ids[1..];
      UnknownIffUnlisted(ids[0]);
      NoCapabilityReasonsIff(rest, seen + {ids[0]});
      assert forall i | 0 <= i < |rest| :: rest[i] == ids[i + 1];
      DistinctHead(ids);
      assert ids == [ids[0]] + rest;
    }
  }

  lemma UnseenIff(s: seq<Text>, seen: set<Text>)
    requires s != []
    ensures (forall i | 0 <= i < |s| :: s[i] !in seen) && (forall i | 1 <= i < |s| :: s[i] != s[0]) <==>
            s[0] !in seen && forall i | 0 <= i < |s[1..]| :: s[1..][i] !in seen + {s[0]}
  {
    assert forall i | 0 <= i < |s[1..]| :: s[1..][i] == s[i + 1];
    assert forall i | 1 <= i < |s| :: s[i] == s[1..][i - 1];
  }

  lemma {:induction false} NoProtectedReasonsIff(roots: seq<PolicyRoot>, seen: set<Text>)
    ensures ProtectedReasons(roots, seen) == [] <==>
            && Canonical(ProtectedPaths(roots)) && Distinct(ProtectedPaths(roots))
            && forall i | 0 <= i < |roots| :: ProtectedPaths(roots)[i] !in seen
  {
    hide IsCanonicalForm;
    if roots != [] {
      var rest, paths := roots[1..], ProtectedPaths(roots);
      assert ProtectedPaths(rest) == paths[1..];
      NoProtectedReasonsIff(rest, seen + {paths[0]});
      DistinctHead(paths);
      UnseenIff(paths, seen);
      assert Canonical(paths) <==> IsCanonicalForm(paths[0]) && Canonical(paths[1..]) by {
        assert paths == [paths[0]] + paths[1..];
      }
    }
  }

  lemma {:induction false} NoOverlapsOfRootIff(kind: OverlapKind, root: Text, others: seq<Text>)
    ensures OverlapsOfRoot(kind, root, others) == [] <==>
            forall j | 0 <= j < |others| :: !IsWithin(root, others[j]) && !IsWithin(others[j], root)
  {
    hide IsWithin;
    if others != [] {
      NoOverlapsOfRootIff(kind, root, others[1..]);
      assert others == [others[0]] + others[1..];
    }
  }

  lemma {:induction false} NoOverlapsIff(kind: OverlapKind, roots: seq<Text>, others: seq<Text>)
    ensures OverlapReasons(kind, roots, others) == [] <==> Apart(roots, others)
  {
    hide IsWithin;
    if roots != [] {
      NoOverlapsOfRootIff(kind, roots[0], others);
      NoOverlapsIff(kind, roots[1..], others);
      assert roots == [roots[0]] + roots[1..];
    }
  }

  lemma NoListReasonsIff(p: Policy)
    ensures ListReasons(p) == [] && CapabilityListReasons(p.allowedCapabilities) == [] <==> WellListed(p)
  {
    hide CapabilitySpec;
    DistinctIff(p.allowedDelegatedSignerKeyIds);
    DistinctIff(p.allowedRecipeIds);
    DistinctIff(p.allowedExecutableIds);
    if p.sessionRoles.Some? {
      DistinctIff(p.sessionRoles.value);
    }
    NoCapabilityReasonsIff(p.allowedCapabilities, {});
    assert (forall id <- p.allowedCapabilities :: !id.Unknown?) <==>
           (forall i | 0 <= i < |p.allowedCapabilities| :: !p.allowedCapabilities[i].Unknown?);
  }

  predicate NoRootReasons(p: Policy) {
    && CanonicalRoots(p.readOnlyRoots) && CanonicalRoots(p.writableDisposableRoots)
    && ProtectedReasons(p.protectedRoots, {}) == []
    && ReadOverlapReasons(p) == [] && DisposableOverlapReasons(p) == []
  }

  lemma NoRootReasonsIff(p: Policy)
    ensures NoRootReasons(p) <==> WellRooted(p)
  {
    hide IsWithin;
    NoProtectedReasonsIff(p.protectedRoots, {});
    NoOverlapsIff(ReadRootAndDenial, p.readOnlyRoots, PathsOfClass(p.protectedRoots, AbsoluteDenial));
    NoOverlapsIff(DisposableAndProtected, p.writableDisposableRoots, ProtectedPaths(p.protectedRoots));
    CanonicalRootsIff(p.readOnlyRoots);
    CanonicalRootsIff(p.writableDisposableRoots);
  }

  lemma CanonicalRootsIff(values: seq<Text>)
    ensures CanonicalRoots(values) <==> Canonical(values)
  {
    hide CanonicalizePath;
  }

  lemma NoIdentityReasonsIff(host: Host, p: Policy)
    ensures IdentityReasons(host, p) == [] <==>
            p.payloadVersion == PAYLOAD_VERSION && p.policyId != [] && p.policyVersion >= 1 && WellDated(host, p)
  {
  }

  lemma HoldsKeyMaterialIff(p: Policy)
    ensures HoldsKeyMaterial(p) <==> !NamesNoKey(p)
  {
    hide LooksLikeKeyMaterial, KeyFree;
    forall t ensures LooksLikeKeyMaterial(t) <==> !KeyFree(t) {
      LooksLikeKeyMaterialIff(t);
    }
    ShortIsKeyFree(U("undefined"));
    var fields := StringFields(p);
    assert fields[0] == p.policyId && fields[1] == p.issuedAt && p.policyId in fields && p.issuedAt in fields;
    assert fields[2] in fields && fields[3..] == p.allowedDelegatedSignerKeyIds;
  }

  /** The validator reports nothing exactly for the valid documents. */
  lemma ReportsNothingIffValid(host: Host, p: Policy)
    ensures PolicyReasons(host, p) == [] <==> ValidPolicy(host, p)
  {
    hide HoldsKeyMaterial, NamesNoKey;
    NoIdentityReasonsIff(host, p);
    NoListReasonsIff(p);
    NoRootReasonsIff(p);
    HoldsKeyMaterialIff(p);
    assert CeilingReasons(p.resourceCeilings) == [] && p.maxActiveSessions >= 1 <==> WellBounded(p);
    NothingIff(host, p);
  }

  lemma NothingIff(host: Host, p: Policy)
    ensures PolicyReasons(host, p) == [] <==>
            && IdentityReasons(host, p) == [] && ListReasons(p) == []
            && CapabilityListReasons(p.allowedCapabilities) == []
            && NoRootReasons(p) && CeilingReasons(p.resourceCeilings) == [] && p.maxActiveSessions >= 1
            && !HoldsKeyMaterial(p)
  {
    hide IdentityReasons, ListReasons, CapabilityListReasons, ProtectedReasons, CeilingReasons,
         ReadOverlapReasons, DisposableOverlapReasons, HoldsKeyMaterial, CanonicalRoots;
    var parts := PolicyReasons(host, p);
    assert |parts| == |IdentityReasons(host, p)| + |ListReasons(p)| + |CapabilityListReasons(p.allowedCapabilities)| +
      |When(!CanonicalRoots(p.readOnlyRoots), ReadRootsMustBeCanonical)| +
      |When(!CanonicalRoots(p.writableDisposableRoots), DisposableRootsMustBeCanonical)| +
      |ProtectedReasons(p.protectedRoots, {})| + |CeilingReasons(p.resourceCeilings)| +
      |When(p.maxActiveSessions < 1, MaxActiveSessionsRequired)| + |ReadOverlapReasons(p)| +
      |DisposableOverlapReasons(p)| + |When(HoldsKeyMaterial(p), MustNotContainSecretMaterial)|;
  }

  lemma {:induction false} InPathsOfClassIff(roots: seq<PolicyRoot>, c: RootClass, path: Text)
    ensures path in PathsOfClass(roots, c) <==> exists i :: 0 <= i < |roots| && roots[i] == PolicyRoot(path, c)
  {
    if roots != [] {
      InPathsOfClassIff(roots[1..], c, path);
      assert roots == [roots[0]] + roots[1..];
    }
  }

  /** The decision's two root lists hold the policy's roots and no others. */
  lemma ConfiguredRootsIff(p: Policy, path: Text)
    ensures path in ToProtectedRootsConfig(p.protectedRoots).absoluteDenial ||
            path in ToProtectedRootsConfig(p.protectedRoots).delegatedWriteDeniedOwnerApprovable <==>
            path in ProtectedPaths(p.protectedRoots)
  {
    InPathsOfClassIff(p.protectedRoots, AbsoluteDenial, path);
    InPathsOfClassIff(p.protectedRoots, DelegatedWriteDenied, path);
    if path in ProtectedPaths(p.protectedRoots) {
      var i :| 0 <= i < |p.protectedRoots| && ProtectedPaths(p.protectedRoots)[i] == path;
      assert p.protectedRoots[i] == PolicyRoot(path, p.protectedRoots[i].rootClass);
    } else {
      assert forall i | 0 <= i < |p.protectedRoots| ::
          ProtectedPaths(p.protectedRoots)[i] in ProtectedPaths(p.protectedRoots);
    }
  }
}
