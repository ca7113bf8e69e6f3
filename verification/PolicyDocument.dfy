/** The validation of a policy as it is read: any value, some of whose parts may
    not be of the type they should have. */
module PolicyDocument {
  import opened JsText
  import opened Paths
  import opened ProtectedRoots
  import opened Classify
  import opened KeyMaterial
  import opened PolicySchema
  import opened Wrappers

  /** A value of the wanted type, or another, of which only its text matters. */
  datatype Raw<T> = Ill(shown: Text) | Well(value: T)

  /** An entry of the capability list; one that is no string still puts the
      identifier its text names among those seen. */
  datatype Entry = Id(id: Capability) | NotAString(named: Capability)

  /** An entry of the protected roots: null or undefined, another primitive, or
      an object, whose class may be none of the two. */
  datatype RawRoot = Nullish | Primitive | Record(path: Raw<Text>, rootClass: Option<RootClass>)

  datatype RawCeilings = RawCeilings(
    wallMsMax: Raw<int>, maxProcesses: Raw<int>, maxOutputBytes: Raw<int>, workspaceBytesMax: Raw<int>)

  type RawList = Raw<seq<Raw<Text>>>

  /** Numbers that are no integers are ill typed; so is a null expiry. */
  datatype Document = Document(
    payloadVersion: Raw<int>, policyId: Raw<Text>, policyVersion: Raw<int>, issuedAt: Raw<Text>,
    expiresAt: Option<Raw<Text>>, allowedDelegatedSignerKeyIds: RawList, allowedCapabilities: Raw<seq<Entry>>,
    sessionRoles: Option<RawList>, readOnlyRoots: RawList, writableDisposableRoots: RawList,
    protectedRoots: Raw<seq<RawRoot>>, allowedRecipeIds: RawList, allowedExecutableIds: RawList,
    resourceCeilings: Raw<RawCeilings>, networkMode: Raw<NetworkMode>, maxActiveSessions: Raw<int>)

  datatype Input = NotAnObject | Object(document: Document)

  datatype Outcome = Reported(reasons: seq<Reason>) | TypeError

  predicate AllWell<T>(s: seq<Raw<T>>) {
    forall i | 0 <= i < |s| :: s[i].Well?
  }

  function Values<T>(s: seq<Raw<T>>): (r: seq<T>)
    requires AllWell(s)
    ensures |r| == |s| && forall i | 0 <= i < |s| :: r[i] == s[i].value
  {
    seq(|s|, i requires 0 <= i < |s| => s[i].value)
  }

  function Shown(r: Raw<Text>): Text {
    if r.Well? then r.value else r.shown
  }

  predicate AtLeast(r: Raw<int>, least: int) {
    r.Well? && r.value >= least
  }

  predicate RawIso(host: Host, r: Raw<Text>) {
    r.Well? && ValidIso(host, r.value)
  }

  predicate RawUnique(list: RawList) {
    list.Well? && AllWell(list.value) && UniqueStrings(Values(list.value))
  }

  predicate RawCanonical(list: RawList) {
    list.Well? && AllWell(list.value) && CanonicalRoots(Values(list.value))
  }

  function RawStringFields(d: Document): seq<Text> {
    [Shown(d.policyId), Shown(d.issuedAt), if d.expiresAt.Some? then Shown(d.expiresAt.value) else U("undefined")] +
    if d.allowedDelegatedSignerKeyIds.Well? then AllShown(d.allowedDelegatedSignerKeyIds.value) else []
  }

  function AllShown(s: seq<Raw<Text>>): (r: seq<Text>)
    ensures |r| == |s| && forall i | 0 <= i < |s| :: r[i] == Shown(s[i])
  {
    seq(|s|, i requires 0 <= i < |s| => Shown(s[i]))
  }

  // ---- What is reported ----

  predicate RawExpiryTooEarly(host: Host, d: Document) {
    && RawIso(host, d.issuedAt) && d.expiresAt.Some? && RawIso(host, d.expiresAt.value)
    && host.parseDate(d.expiresAt.value.value).value <= host.parseDate(d.issuedAt.value).value
  }

  function VersionReasons(v: Raw<int>): seq<Reason> {
    match v
    case Ill(shown) => [PayloadVersionIllTyped(shown)]
    case Well(version) => When(version != PAYLOAD_VERSION, UnsupportedPayloadVersion(version))
  }

  function RawIdentityReasons(host: Host, d: Document): seq<Reason> {
    VersionReasons(d.payloadVersion) +
    When(!(d.policyId.Well? && d.policyId.value != []), PolicyIdRequired) +
    When(!AtLeast(d.policyVersion, 1), PolicyVersionRequired) +
    When(!RawIso(host, d.issuedAt), IssuedAtRequired) +
    When(d.expiresAt.Some? && !RawIso(host, d.expiresAt.value), ExpiresAtInvalid) +
    When(RawExpiryTooEarly(host, d), ExpiresAtMustExceedIssuedAt)
  }

  function RawRoleReasons(roles: Option<RawList>): seq<Reason> {
    if roles.None? then []
    else if !RawUnique(roles.value) then [SessionRolesMustBeUnique]
    else When(exists r <- Values(roles.value.value) :: |r| == 0 || |r| > ROLE_MAX, SessionRoleOutOfBounds)
  }

  function RawListReasons(d: Document): seq<Reason> {
    When(!RawUnique(d.allowedDelegatedSignerKeyIds), SignerKeyIdsMustBeUnique) +
    When(!RawUnique(d.allowedRecipeIds), RecipeIdsMustBeUnique) +
    RawRoleReasons(d.sessionRoles) +
    When(!RawUnique(d.allowedExecutableIds), ExecutableIdsMustBeUnique)
  }

  function Named(e: Entry): Capability {
    if e.Id? then e.id else e.named
  }

  function EntryReasons(e: Entry, seen: set<Capability>): seq<Reason> {
    match e case NotAString(named) => [IllTypedCapability(named)] case Id(id) => CapabilityFault(id, seen)
  }

  function EntriesReasons(entries: seq<Entry>, seen: set<Capability>): seq<Reason> {
    if entries == [] then []
    else EntryReasons(entries[0], seen) + EntriesReasons(entries[1..], seen + {Named(entries[0])})
  }

  function RawCapabilityReasons(list: Raw<seq<Entry>>): seq<Reason> {
    if list.Ill? then [CapabilitiesRequired]
    else if list.value == [] then [CapabilitiesMustNotBeEmpty] else EntriesReasons(list.value, {})
  }

  /** The faults of one protected root, and the path it adds to those seen. */
  function RootReasons(root: RawRoot, seen: set<Text>): (seq<Reason>, set<Text>) {
    match root
    case Nullish => ([ProtectedRootMustBeObject], seen)
    case Primitive => ([ProtectedRootMustBeObject], seen)
    case Record(path, rootClass) =>
      if path.Ill? then ([ProtectedRootPathRequired], seen)
      else if !IsCanonicalForm(path.value) then ([ProtectedRootNotCanonical(path.value)], seen)
      else if rootClass.None? then ([ProtectedRootInvalidClass(path.value)], seen)
      else (When(path.value in seen, DuplicateProtectedRoot(path.value)), seen + {path.value})
  }

  function RootsReasons(roots: seq<RawRoot>, seen: set<Text>): seq<Reason> {
    if roots == [] then []
    else RootReasons(roots[0], seen).0 + RootsReasons(roots[1..], RootReasons(roots[0], seen).1)
  }

  function RawProtectedReasons(list: Raw<seq<RawRoot>>): seq<Reason> {
    if list.Ill? then [ProtectedRootsRequired] else RootsReasons(list.value, {})
  }

  function RawCeilingReasons(c: Raw<RawCeilings>): seq<Reason> {
    if c.Ill? then [ResourceCeilingsRequired]
    else
      When(!AtLeast(c.value.wallMsMax, 1), WallMsMaxRequired) +
      When(!AtLeast(c.value.maxProcesses, 1), MaxProcessesRequired) +
      When(!AtLeast(c.value.maxOutputBytes, 0), MaxOutputBytesRequired) +
      When(!AtLeast(c.value.workspaceBytesMax, 1), WorkspaceBytesMaxRequired)
  }

  /** The paths an overlap could involve: of the entries of a class, or of all,
      those that are texts. A path of another type lies within nothing. */
  function EntryPaths(roots: seq<RawRoot>, deniedOnly: bool): seq<Text> {
    if roots == [] then []
    else
      (if roots[0].Record? && roots[0].path.Well? && (deniedOnly ==> roots[0].rootClass == Some(AbsoluteDenial))
       then [roots[0].path.value] else []) + EntryPaths(roots[1..], deniedOnly)
  }

  function RawOverlapReasons(kind: OverlapKind, list: RawList, roots: Raw<seq<RawRoot>>): seq<Reason> {
    if RawCanonical(list) && roots.Well?
    then OverlapReasons(kind, Values(list.value), EntryPaths(roots.value, kind.ReadRootAndDenial?)) else []
  }

  predicate RawHoldsKeyMaterial(d: Document) {
    exists field <- RawStringFields(d) :: LooksLikeKeyMaterial(field)
  }

  function DocumentReasons(host: Host, d: Document): seq<Reason> {
    RawIdentityReasons(host, d) +
    RawListReasons(d) +
    RawCapabilityReasons(d.allowedCapabilities) +
    When(!RawCanonical(d.readOnlyRoots), ReadRootsMustBeCanonical) +
    When(!RawCanonical(d.writableDisposableRoots), DisposableRootsMustBeCanonical) +
    RawProtectedReasons(d.protectedRoots) +
    RawCeilingReasons(d.resourceCeilings) +
    When(d.networkMode.Ill?, NetworkModeInvalid) +
    When(!AtLeast(d.maxActiveSessions, 1), MaxActiveSessionsRequired) +
    RawOverlapReasons(ReadRootAndDenial, d.readOnlyRoots, d.protectedRoots) +
    RawOverlapReasons(DisposableAndProtected, d.writableDisposableRoots, d.protectedRoots) +
    When(RawHoldsKeyMaterial(d), MustNotContainSecretMaterial)
  }

  /** The overlap stage reads a property of every entry of the protected roots. */
  predicate Trips(list: RawList, roots: Raw<seq<RawRoot>>) {
    RawCanonical(list) && roots.Well? && Nullish in roots.value
  }

  function Validate(host: Host, input: Input): Outcome {
    match input
    case NotAnObject => Reported([PolicyNotAnObject])
    case Object(d) =>
      if Trips(d.readOnlyRoots, d.protectedRoots) || Trips(d.writableDisposableRoots, d.protectedRoots) then TypeError
      else Reported(DocumentReasons(host, d))
  }

  // ---- The program ----

  method EntriesLoop(entries: seq<Entry>) returns (reasons: seq<Reason>)
    ensures reasons == EntriesReasons(entries, {})
  {
    hide EntryReasons;
    reasons := [];
    var seen: set<Capability> := {};
    var i := 0;
    while i < |entries|
      invariant 0 <= i <= |entries|
      invariant EntriesReasons(entries, {}) == reasons + EntriesReasons(entries[i..], seen)
    {
      var entry := entries[i];
      assert entries[i..][0] == entry && entries[i..][1..] == entries[i + 1..];
      Associative(reasons, EntryReasons(entry, seen), EntriesReasons(entries[i + 1..], seen + {Named(entry)}));
      reasons := reasons + EntryReasons(entry, seen);
      seen := seen + {Named(entry)};
      i := i + 1;
    }
    assert entries[i..] == [];
  }

  method RootsLoop(roots: seq<RawRoot>) returns (reasons: seq<Reason>)
    ensures reasons == RootsReasons(roots, {})
  {
    hide IsCanonicalForm;
    reasons := [];
    var seen: set<Text> := {};
    var i := 0;
    while i < |roots|
      invariant 0 <= i <= |roots|
      invariant RootsReasons(roots, {}) == reasons + RootsReasons(roots[i..], seen)
    {
      var entry := roots[i];
      assert roots[i..][0] == entry && roots[i..][1..] == roots[i + 1..];
      Associative(reasons, RootReasons(entry, seen).0, RootsReasons(roots[i + 1..], RootReasons(entry, seen).1));
      i := i + 1;
      if !entry.Record? {
        reasons := reasons + [ProtectedRootMustBeObject];
        continue;
      }
      if entry.path.Ill? {
        reasons := reasons + [ProtectedRootPathRequired];
        continue;
      }
      var path := entry.path.value;
      if !IsCanonicalForm(path) {
        reasons := reasons + [ProtectedRootNotCanonical(path)];
        continue;
      }
      if entry.rootClass.None? {
        reasons := reasons + [ProtectedRootInvalidClass(path)];
        continue;
      }
      reasons := reasons + When(path in seen, DuplicateProtectedRoot(path));
      seen := seen + {path};
    }
    assert roots[i..] == [];
  }

  /** Filtering and mapping the protected roots, which throws at a null. */
  method PathsLoop(roots: seq<RawRoot>, deniedOnly: bool) returns (paths: Option<seq<Text>>)
    ensures paths == if Nullish in roots then None else Some(EntryPaths(roots, deniedOnly))
  {
    var found: seq<Text> := [];
    var i := 0;
    while i < |roots|
      invariant 0 <= i <= |roots|
      invariant Nullish !in roots[..i]
      invariant EntryPaths(roots, deniedOnly) == found + EntryPaths(roots[i..], deniedOnly)
    {
      var entry := roots[i];
      assert roots[i..][0] == entry && roots[i..][1..] == roots[i + 1..];
      assert roots[..i + 1] == roots[..i] + [entry];
      if entry.Nullish? {
        return None;
      }
      if entry.Record? && entry.path.Well? && (!deniedOnly || entry.rootClass == Some(AbsoluteDenial)) {
        Associative(found, [entry.path.value], EntryPaths(roots[i + 1..], deniedOnly));
        found := found + [entry.path.value];
      } else {
        EmptyPrefix(EntryPaths(roots[i + 1..], deniedOnly));
      }
      i := i + 1;
    }
    assert roots[i..] == [] && roots[..i] == roots && found + [] == found;
    return Some(found);
  }

  /** One overlap stage. */
  method OverlapStage(kind: OverlapKind, list: RawList, roots: Raw<seq<RawRoot>>) returns (reasons: Option<seq<Reason>>)
    ensures reasons == if Trips(list, roots) then None else Some(RawOverlapReasons(kind, list, roots))
  {
    hide EntryPaths, OverlapReasons;
    if !RawCanonical(list) || roots.Ill? {
      return Some([]);
    }
    var paths := PathsLoop(roots.value, kind.ReadRootAndDenial?);
    if paths.None? {
      return None;
    }
    var overlaps := OverlapLoop(kind, Values(list.value), paths.value);
    return Some(overlaps);
  }

  method ValidateSandboxPolicyDocument(host: Host, input: Input) returns (outcome: Outcome)
    ensures outcome == Validate(host, input)
  {
    hide RawCanonical, RawHoldsKeyMaterial, RawIdentityReasons, RawListReasons, EntriesReasons, RootsReasons,
         RawCeilingReasons, RawOverlapReasons, Trips, AtLeast;
    if input.NotAnObject? {
      return Reported([PolicyNotAnObject]);
    }
    var d := input.document;
    var reasons := RawIdentityReasons(host, d) + RawListReasons(d);
    var capabilities := [CapabilitiesRequired];
    if d.allowedCapabilities.Well? {
      capabilities := [CapabilitiesMustNotBeEmpty];
      if d.allowedCapabilities.value != [] {
        capabilities := EntriesLoop(d.allowedCapabilities.value);
      }
    }
    reasons := reasons + capabilities;
    reasons := reasons + When(!RawCanonical(d.readOnlyRoots), ReadRootsMustBeCanonical);
    reasons := reasons + When(!RawCanonical(d.writableDisposableRoots), DisposableRootsMustBeCanonical);
    var protected := [ProtectedRootsRequired];
    if d.protectedRoots.Well? {
      protected := RootsLoop(d.protectedRoots.value);
    }
    reasons := reasons + protected + RawCeilingReasons(d.resourceCeilings);
    reasons := reasons + When(d.networkMode.Ill?, NetworkModeInvalid);
    reasons := reasons + When(!AtLeast(d.maxActiveSessions, 1), MaxActiveSessionsRequired);
    var readOverlaps := OverlapStage(ReadRootAndDenial, d.readOnlyRoots, d.protectedRoots);
    if readOverlaps.None? {
      return TypeError;
    }
    var disposableOverlaps := OverlapStage(DisposableAndProtected, d.writableDisposableRoots, d.protectedRoots);
    if disposableOverlaps.None? {
      return TypeError;
    }
    reasons := reasons + readOverlaps.value + disposableOverlaps.value;
    return Reported(reasons + When(RawHoldsKeyMaterial(d), MustNotContainSecretMaterial));
  }

  // ---- Well-typed documents ----

  predicate WellList(list: RawList) {
    list.Well? && AllWell(list.value)
  }

  predicate WellRoot(root: RawRoot) {
    root.Record? && root.path.Well? && root.rootClass.Some?
  }

  predicate WellTyped(d: Document) {
    && d.payloadVersion.Well? && d.policyId.Well? && d.policyVersion.Well? && d.issuedAt.Well?
    && (d.expiresAt.Some? ==> d.expiresAt.value.Well?)
    && WellList(d.allowedDelegatedSignerKeyIds) && WellList(d.allowedRecipeIds) && WellList(d.allowedExecutableIds)
    && (d.sessionRoles.Some? ==> WellList(d.sessionRoles.value))
    && WellList(d.readOnlyRoots) && WellList(d.writableDisposableRoots)
    && d.allowedCapabilities.Well? && (forall e <- d.allowedCapabilities.value :: e.Id?)
    && d.protectedRoots.Well? && (forall root <- d.protectedRoots.value :: WellRoot(root))
    && d.resourceCeilings.Well? && WellCeilings(d.resourceCeilings.value)
    && d.networkMode.Well? && d.maxActiveSessions.Well?
  }

  predicate WellCeilings(c: RawCeilings) {
    c.wallMsMax.Well? && c.maxProcesses.Well? && c.maxOutputBytes.Well? && c.workspaceBytesMax.Well?
  }

  function Ids(entries: seq<Entry>): seq<Capability> {
    seq(|entries|, i requires 0 <= i < |entries| => Named(entries[i]))
  }

  function TypedRoots(roots: seq<RawRoot>): seq<PolicyRoot>
    requires forall root <- roots :: WellRoot(root)
  {
    if roots == [] then []
    else
      assert WellRoot(roots[0]);
      [PolicyRoot(roots[0].path.value, roots[0].rootClass.value)] + TypedRoots(roots[1..])
  }

  /** The policy a well-typed document is. */
  function TypedOf(d: Document): Policy
    requires WellTyped(d)
  {
    var c := d.resourceCeilings.value;
    Policy(
      d.payloadVersion.value, d.policyId.value, d.policyVersion.value, d.issuedAt.value,
      if d.expiresAt.Some? then Some(d.expiresAt.value.value) else None,
      Values(d.allowedDelegatedSignerKeyIds.value), Ids(d.allowedCapabilities.value),
      if d.sessionRoles.Some? then Some(Values(d.sessionRoles.value.value)) else None,
      Values(d.readOnlyRoots.value), Values(d.writableDisposableRoots.value),
      TypedRoots(d.protectedRoots.value), Values(d.allowedRecipeIds.value), Values(d.allowedExecutableIds.value),
      Ceilings(c.wallMsMax.value, c.maxProcesses.value, c.maxOutputBytes.value, c.workspaceBytesMax.value),
      d.networkMode.value, d.maxActiveSessions.value)
  }

  lemma {:induction false} TypedEntries(entries: seq<Entry>, seen: set<Capability>)
    requires forall e <- entries :: e.Id?
    ensures EntriesReasons(entries, seen) == CapabilityReasons(Ids(entries), seen)
  {
    hide CapabilityFault;
    if entries != [] {
      assert Ids(entries)[1..] == Ids(entries[1..]);
      TypedEntries(entries[1..], seen + {Named(entries[0])});
    }
  }

  lemma {:induction false} TypedProtected(roots: seq<RawRoot>, seen: set<Text>)
    requires forall root <- roots :: WellRoot(root)
    ensures RootsReasons(roots, seen) == ProtectedReasons(TypedRoots(roots), seen)
  {
    hide IsCanonicalForm;
    if roots != [] {
      assert WellRoot(roots[0]);
      TypedProtected(roots[1..], RootReasons(roots[0], seen).1);
    }
  }

  lemma {:induction false} TypedPaths(roots: seq<RawRoot>)
    requires forall root <- roots :: WellRoot(root)
    ensures EntryPaths(roots, true) == PathsOfClass(TypedRoots(roots), AbsoluteDenial)
    ensures EntryPaths(roots, false) == ProtectedPaths(TypedRoots(roots))
  {
    if roots != [] {
      assert WellRoot(roots[0]);
      TypedPaths(roots[1..]);
      var typed := TypedRoots(roots);
      assert typed[1..] == TypedRoots(roots[1..]);
      assert ProtectedPaths(typed) == [typed[0].path] + ProtectedPaths(typed[1..]);
    }
  }

  lemma TypedKeyMaterial(d: Document)
    requires WellTyped(d)
    ensures RawHoldsKeyMaterial(d) == HoldsKeyMaterial(TypedOf(d))
  {
    hide LooksLikeKeyMaterial;
    var keys := d.allowedDelegatedSignerKeyIds.value;
    assert AllShown(keys) == Values(keys);
    assert RawStringFields(d) == StringFields(TypedOf(d));
  }

  lemma TypedIdentity(host: Host, d: Document)
    requires WellTyped(d)
    ensures RawIdentityReasons(host, d) == IdentityReasons(host, TypedOf(d))
  {
    hide Values, Ids, TypedRoots;
  }

  lemma TypedLists(d: Document)
    requires WellTyped(d)
    ensures RawListReasons(d) == ListReasons(TypedOf(d))
    ensures RawCeilingReasons(d.resourceCeilings) == CeilingReasons(TypedOf(d).resourceCeilings)
  {
    hide UniqueStrings, Ids, TypedRoots;
  }

  lemma TypedRootReasons(d: Document)
    requires WellTyped(d)
    ensures RawCapabilityReasons(d.allowedCapabilities) == CapabilityListReasons(TypedOf(d).allowedCapabilities)
    ensures RawProtectedReasons(d.protectedRoots) == ProtectedReasons(TypedOf(d).protectedRoots, {})
    ensures RawOverlapReasons(ReadRootAndDenial, d.readOnlyRoots, d.protectedRoots) == ReadOverlapReasons(TypedOf(d))
    ensures RawOverlapReasons(DisposableAndProtected, d.writableDisposableRoots, d.protectedRoots) ==
            DisposableOverlapReasons(TypedOf(d))
  {
    hide CanonicalRoots, OverlapReasons, CapabilityReasons, EntriesReasons, RootsReasons, ProtectedReasons,
         PathsOfClass, ProtectedPaths, EntryPaths;
    TypedEntries(d.allowedCapabilities.value, {});
    TypedProtected(d.protectedRoots.value, {});
    TypedPaths(d.protectedRoots.value);
  }

  /** The document's reasons are those of the policy. */
  lemma WellTypedReasons(host: Host, d: Document)
    requires WellTyped(d)
    ensures DocumentReasons(host, d) == PolicyReasons(host, TypedOf(d))
  {
    hide WellTyped, TypedOf, RawIdentityReasons, RawListReasons, RawCapabilityReasons, RawProtectedReasons,
         RawCeilingReasons, RawOverlapReasons, RawHoldsKeyMaterial, IdentityReasons, ListReasons,
         CapabilityListReasons, ProtectedReasons, CeilingReasons, ReadOverlapReasons, DisposableOverlapReasons,
         HoldsKeyMaterial, CanonicalRoots, RawCanonical, AtLeast, When;
    TypedKeyMaterial(d);
    TypedIdentity(host, d);
    TypedLists(d);
    TypedRootReasons(d);
    SameScalars(d);
    var beforeNetwork :=
      RawIdentityReasons(host, d) + RawListReasons(d) + RawCapabilityReasons(d.allowedCapabilities) +
      When(!RawCanonical(d.readOnlyRoots), ReadRootsMustBeCanonical) +
      When(!RawCanonical(d.writableDisposableRoots), DisposableRootsMustBeCanonical) +
      RawProtectedReasons(d.protectedRoots) + RawCeilingReasons(d.resourceCeilings);
    assert beforeNetwork + [] == beforeNetwork;
  }

  /** On a well-typed document the validator reports what the policy's faults are. */
  lemma WellTypedReports(host: Host, d: Document)
    requires WellTyped(d)
    ensures Validate(host, Object(d)) == Reported(PolicyReasons(host, TypedOf(d)))
  {
    hide WellTyped, TypedOf, DocumentReasons, PolicyReasons, Trips;
    WellTypedReasons(host, d);
    NothingTrips(d);
  }

  lemma SameScalars(d: Document)
    requires WellTyped(d)
    ensures RawCanonical(d.readOnlyRoots) == CanonicalRoots(TypedOf(d).readOnlyRoots)
    ensures RawCanonical(d.writableDisposableRoots) == CanonicalRoots(TypedOf(d).writableDisposableRoots)
    ensures AtLeast(d.maxActiveSessions, 1) == (TypedOf(d).maxActiveSessions >= 1)
    ensures When(d.networkMode.Ill?, NetworkModeInvalid) == []
  {
  }

  lemma NothingTrips(d: Document)
    requires WellTyped(d)
    ensures !Trips(d.readOnlyRoots, d.protectedRoots) && !Trips(d.writableDisposableRoots, d.protectedRoots)
  {
  }

  // ---- Ill-typed documents ----

  lemma {:induction false} IllEntryIsReported(entries: seq<Entry>, seen: set<Capability>)
    requires EntriesReasons(entries, seen) == []
    ensures forall e <- entries :: e.Id?
  {
    hide CapabilityFault;
    if entries != [] {
      IllEntryIsReported(entries[1..], seen + {Named(entries[0])});
      assert entries == [entries[0]] + entries[1..];
    }
  }

  lemma {:induction false} IllRootIsReported(roots: seq<RawRoot>, seen: set<Text>)
    requires RootsReasons(roots, seen) == []
    ensures forall root <- roots :: WellRoot(root)
  {
    hide IsCanonicalForm;
    if roots != [] {
      IllRootIsReported(roots[1..], RootReasons(roots[0], seen).1);
      assert roots == [roots[0]] + roots[1..];
    }
  }

  lemma NoReasonsParts(host: Host, d: Document)
    requires DocumentReasons(host, d) == []
    ensures RawIdentityReasons(host, d) == [] && RawListReasons(d) == []
    ensures RawCapabilityReasons(d.allowedCapabilities) == [] && RawProtectedReasons(d.protectedRoots) == []
    ensures RawCanonical(d.readOnlyRoots) && RawCanonical(d.writableDisposableRoots)
    ensures RawCeilingReasons(d.resourceCeilings) == [] && d.networkMode.Well? && AtLeast(d.maxActiveSessions, 1)
  {
    hide RawIdentityReasons, RawListReasons, RawCapabilityReasons, RawProtectedReasons, RawCeilingReasons,
         RawOverlapReasons, RawHoldsKeyMaterial, RawCanonical, AtLeast;
    assert |DocumentReasons(host, d)| >=
           |RawIdentityReasons(host, d)| + |RawListReasons(d)| + |RawCapabilityReasons(d.allowedCapabilities)| +
           |When(!RawCanonical(d.readOnlyRoots), ReadRootsMustBeCanonical)| +
           |When(!RawCanonical(d.writableDisposableRoots), DisposableRootsMustBeCanonical)| +
           |RawProtectedReasons(d.protectedRoots)| + |RawCeilingReasons(d.resourceCeilings)| +
           |When(d.networkMode.Ill?, NetworkModeInvalid)| +
           |When(!AtLeast(d.maxActiveSessions, 1), MaxActiveSessionsRequired)|;
  }

  /** Nothing of the wrong type goes unreported. */
  lemma IllTypedIsReported(host: Host, d: Document)
    requires DocumentReasons(host, d) == []
    ensures WellTyped(d)
  {
    hide UniqueStrings, CanonicalRoots, EntriesReasons, RootsReasons, WellRoot;
    NoReasonsParts(host, d);
    IllEntryIsReported(d.allowedCapabilities.value, {});
    IllRootIsReported(d.protectedRoots.value, {});
    IdentityIsWell(host, d);
  }

  lemma IdentityIsWell(host: Host, d: Document)
    requires RawIdentityReasons(host, d) == []
    ensures d.payloadVersion.Well? && d.policyId.Well? && d.policyVersion.Well? && d.issuedAt.Well?
    ensures d.expiresAt.Some? ==> d.expiresAt.value.Well?
  {
  }

  /** The validator accepts exactly the well-typed documents of valid policies. */
  lemma AcceptsIff(host: Host, input: Input)
    ensures Validate(host, input) == Reported([]) <==>
            input.Object? && WellTyped(input.document) && ValidPolicy(host, TypedOf(input.document))
  {
    hide DocumentReasons, PolicyReasons, WellTyped, ValidPolicy, TypedOf, Trips;
    if input.Object? {
      var d := input.document;
      if WellTyped(d) {
        WellTypedReports(host, d);
        ReportsNothingIffValid(host, TypedOf(d));
      } else if DocumentReasons(host, d) == [] {
        IllTypedIsReported(host, d);
      }
    }
  }

  /** It throws, instead of reporting, exactly when an entry of the protected
      roots is null and one of the two root lists is canonical. */
  lemma ThrowsIff(host: Host, d: Document)
    ensures Validate(host, Object(d)) == TypeError <==>
            && d.protectedRoots.Well? && Nullish in d.protectedRoots.value
            && (RawCanonical(d.readOnlyRoots) || RawCanonical(d.writableDisposableRoots))
  {
    hide RawCanonical, DocumentReasons;
  }

  /** A small document whose one protected root is null. */
  lemma NullRootThrows(host: Host, text: Text)
    ensures var none: seq<Raw<Text>> := [];
            var d := Document(Well(1), Well(text), Well(1), Well(text), None, Well(none), Well([]), None, Well(none),
                              Well(none), Well([Nullish]), Well(none), Well(none), Ill(text), Well(NoNetwork), Well(1));
            Validate(host, Object(d)) == TypeError
  {
    var none: seq<Raw<Text>> := [];
    assert AllWell(none) && Values(none) == [];
    assert RawCanonical(Well(none));
    assert Nullish in [Nullish];
  }
}
