# Verified model of the Ashley services

This project models, in Dafny, the parts of the Ashley repository whose
behaviour is hardest to see from any one function, and proves what they keep:
the sanitized workspace copy, the canonical serializers, the field-day calendar,
the sandbox policy decision, the window queries over the observed databases, the
budget protocol around a provider dispatch, the single-flight schedulers, the
transcript join and the proposal courier.

Verify everything with `dafny verify dfyconfig.toml`.

## How the model is laid out

Each area has a specification made of functions on values, and, where the
program works by changing things step by step, methods and classes with the
program's own fields and loops whose contracts tie them to the specification.
The main results are lemmas about the specification.

- `JsText`: JavaScript strings as sequences of UTF-16 code units, with `split`,
  `join`, `filter` and the sorting order of `Array.prototype.sort`. `Utf8`: their
  encoding in bytes as in section 3 of RFC 3629, with what it forgets.
- `Paths`, `ProtectedRoots`, `Classify`, `KeyMaterial`, `PolicySchema`,
  `PolicyDocument`, `PolicyFaults`, `Authorize`: the sandbox policy, from lexical
  paths up to the authorization decision. `PolicySchema` says what is wrong with a
  policy, `PolicyDocument` what the validator makes of any value that should be
  one, `PolicyFaults` which faults each of its reasons stands for.
- `Exclusions`, `TreeCopy`, `TreeCopyLaws`, `TreeCopySafety`, `TreeCopyEntries`,
  `TreeCopyDigest`, `TreeCopyFailures`: the sanitized copy. `TreeCopy` proves the
  worklist equal to a fold over a recursive tour; `TreeCopyLaws` and
  `TreeCopySafety` prove what that fold delivers and what holds at each of its
  points; the others say it by the addresses of entries, by what the digested text
  gives back, and why a copy fails.
- `JsonText`, `Quoting`, `CanonicalPayload`, `CanonicalPayloadLaws`,
  `CanonicalJson`, `CanonicalRuns`: printing and reading of JSON text, with the
  string quoting of section 7 of RFC 8259, and the two printers over a heap of
  objects that may share nodes, form cycles or have holes in their arrays.
- `Civil`, `FieldDay`, `FieldDayTiling`: proleptic Gregorian dates as in section
  21.4.1 of ECMA-262 (2023 edition), the boundary search and the tiling of time.
- `Sql`, `Coverage`, `CoverageReport`: a fragment of SQL with positional
  parameters and three-valued conditions, the query builders over it, and the
  coverage report.
- `Dispatch`, `Failover`, `DirectTraces`, `ChatTraces`: the budget protocol and the
  credential failover; the last two give their traces in closed form.
- `Lane`, `Transcript`, `Courier`: one module each.

The outside world is a parameter: a `Host` record answers for the file system, the
clock, date parsing, Unicode normalization, digests and git; a `Database` also says
which of the rows it may return a `LIMIT 1` without an order returns; a `Script`,
`Turn` or list of events fixes what an environment does during a run. Every result
holds for all of them.

## What turned out not to hold

Some properties one would expect of the code are false. Each entry names a lemma
with a concrete input that shows it and one with the exact condition.

- A protected root below the source whose relative path contains `..` anywhere,
  also inside a plain name such as `a..c`, is silently not excluded from a copy
  (`TreeCopySafety.DottedProtectedRootIsDropped`; `ProtectedRootCoveredIff`).
- The validator of policies, which returns its findings, throws instead on a null
  among the protected roots, exactly when one of the two root lists is canonical
  (`PolicyDocument.NullRootThrows`; `ThrowsIff`).
- Narrowing a policy can allow more: it can mend a document that was refused as
  invalid (`Authorize.NarrowingCanMend`; `NarrowingShrinksIff`).
- Declaring that an operation needs the network can lower its risk
  (`Classify.NetworkCanLowerRisk`; `NetworkLowersRiskIff`).
- A pause between a request and its deferred poll loses the lane's wake-up
  (`Lane.PauseLosesAWakeUp`; `StepKeepsIff` for one event, `WakeUpIsLostIff` for
  whole runs).
- The two printers differ on objects the payload serializer refuses, and on arrays
  with holes, which the second prints as if there were nothing
  (`CanonicalJson.PrintersCanDiffer`, `HoleIsLost`; `PrintersAgreeIff` for finite
  values, `CanonicalRuns.GraphsAgreeIff` for any graph).
- The record of digests of a copy lacks a file named `__proto__` directly below the
  source, which is copied and digested like the others
  (`TreeCopySafety.ProtoFileIsNotRecorded`; `DigestIsRecordedIff`).
- The join by hash can join a message with high confidence to a record of another
  text, however good the digest, because encoding a text before digesting it
  replaces surrogates without their other half
  (`Transcript.LoneSurrogateIsMistaken`; `CandidatesAgreeIff` for given records,
  `EncodingAgreesIff` for all).
- An instant before year 1 gets the field day of the same number in its era, which
  lies in no window (`FieldDayTiling.EarlierEraIsMistaken`; `FieldDayByPartsIff`
  for the day any instant is sent to, `WindowsTileTime` for when it is right).
- In a zone with two changes within hours of a boundary the search for it can fail
  although the local clock passes it exactly once. The source fixes its zone to
  Europe/Istanbul (field-day.ts:4); the failing zone is a hypothetical one
  (`FieldDayTiling.TwoChangesCanDefeatTheSearch`; `FieldDay.SearchFailsIff`: the
  offsets it meets come round in a circle or settle too late;
  `FieldDayTiling.WindowExistsIff`).

## Model

| member | source | states |
|---|---|---|
| Paths.CanonicalizePathLoop | apps/sandbox-policy/src/canonical-paths.ts:35-60 | the push-and-pop loop computes the recursive resolution, with the same four errors |
| Paths.CanonicalFormIff | apps/sandbox-policy/src/canonical-paths.ts:101-106 | canonical paths are exactly `/` joined from segments that are nonempty, not dots and free of separators and NUL |
| Paths.CanonicalizeIdempotent | apps/sandbox-policy/src/canonical-paths.ts:35-60 | a result is in canonical form and canonicalizes to itself |
| Paths.ParentCancelsName | apps/sandbox-policy/src/canonical-paths.ts:50-57 | a name followed by `..` can be removed anywhere without changing the resolution |
| Paths.NormalizedAt | apps/sandbox-policy/src/canonical-paths.ts:26-28 | a backslash separates like a slash, nothing else changes |
| Paths.RefusedIff | apps/sandbox-policy/src/canonical-paths.ts:35-60 | which paths are refused, and as which of the four errors |
| Paths.EscapeIff | apps/sandbox-policy/src/canonical-paths.ts:46-60 | a path escapes above the root exactly when some prefix of it goes up more often than down |
| Paths.IsWithinLoop | apps/sandbox-policy/src/canonical-paths.ts:118-128 | the loop over indices decides the segment prefix order, and fails closed on non-canonical input |
| Paths.WithinIsPartialOrder | apps/sandbox-policy/src/canonical-paths.ts:118-128 | containment is a partial order on canonical paths with `/` at the top |
| Paths.AncestorsAreComparable | apps/sandbox-policy/src/canonical-paths.ts:118-128 | any two roots around one target are comparable, so containment is a tree order |
| Paths.WithinByText | apps/sandbox-policy/src/canonical-paths.ts:112-128 | on texts: equality, `/`, or the root and a separator as a prefix, so siblings with a common prefix never match |
| Paths.AncestorsByLength | apps/sandbox-policy/src/protected-roots.ts:33-56 | among roots around one path text length and containment agree |
| Paths.WithinRootStaysInside | apps/sandbox-policy/src/canonical-paths.ts:67-99 | an accepted candidate lies inside the canonical root |
| Paths.RelativePathResolves | apps/sandbox-policy/src/engineering.ts:114-122 | an accepted nonempty relative path resolves to the root's segments and then its own, without the trivial ones |
| ProtectedRoots.LongestLoop | apps/sandbox-policy/src/protected-roots.ts:37-54 | the loop over best root and best length keeps the first longest enclosing root |
| ProtectedRoots.ClassifyLoop | apps/sandbox-policy/src/protected-roots.ts:33-56 | absolute denial is looked for first, then the delegated roots |
| ProtectedRoots.LongestIsInnermost | apps/sandbox-policy/src/protected-roots.ts:33-56 | the root found lies inside every other enclosing root, and none is found only if none encloses |
| ProtectedRoots.ClassificationIff | apps/sandbox-policy/src/protected-roots.ts:33-56 | the classification names a root exactly when it is the innermost of its class, with absolute denial winning |
| ProtectedRoots.ClassificationIgnoresOrder | apps/sandbox-policy/src/protected-roots.ts:33-56 | order and repetition of the configured roots do not matter |
| Classify.LabelOnlyRaisesRisk | apps/sandbox-policy/src/classify.ts:564-661 | the model's label changes nothing but the risk, which becomes the larger of the two |
| Classify.RiskIs | apps/sandbox-policy/src/classify.ts:564-661 | the risk of every operation in full, without a label: what is unknown, denied or malformed, a live checkout, external effects, the network, the class |
| Classify.FactsAre | apps/sandbox-policy/src/classify.ts:594-661 | the other facts in full, by the entry of the capability and the place of the target |
| Classify.PathClassIs | apps/sandbox-policy/src/classify.ts:594-612 | what a target path is classified as, by the roots at or above it |
| Classify.ClassesAre | apps/sandbox-policy/src/classify.ts:42-519 | the class of every capability |
| Classify.ReadersAre | apps/sandbox-policy/src/classify.ts:42-519 | which capabilities may state an intent to read |
| Classify.WritersAre | apps/sandbox-policy/src/classify.ts:42-519 | which may state one to write |
| Classify.DeletersAre | apps/sandbox-policy/src/classify.ts:42-519 | which may state one to delete |
| Classify.RisksAre | apps/sandbox-policy/src/classify.ts:42-519 | the risk each entry carries of itself |
| Classify.RisksAscend | apps/sandbox-policy/src/types.ts:15-30 | the order of the risks, and the larger of two |
| Classify.EffectsAre | apps/sandbox-policy/src/classify.ts:42-519 | which need the network, act outside, expose secrets or are bound to a recipe or an executable |
| Classify.DelegatedSafeIsHarmless | apps/sandbox-policy/src/classify.ts:42-202 | no entry that can run without the owner needs network, has external effects or exposes secrets, and each is bound in one way only |
| Classify.NetworkLowersRiskIff | apps/sandbox-policy/src/classify.ts:616-637 | when declaring the network lowers the risk, in full, by the entry of the capability and the target |
| Classify.NetworkCanLowerRisk | apps/sandbox-policy/src/classify.ts:616-637 | committing and merging is a consultation, and only high risk once the network is declared |
| Classify.ExternalEffectsOnlyRaiseRisk | apps/sandbox-policy/src/classify.ts:616-637 | declaring external effects never lowers it, and makes it a consultation unless denied or malformed |
| PolicyDocument.ValidateSandboxPolicyDocument | apps/sandbox-policy/src/policy-schema.ts:97-274 | the validator, on any value, reports exactly the specified faults in order, or throws |
| PolicyDocument.EntriesLoop | apps/sandbox-policy/src/policy-schema.ts:149-159 | the loop with its `seen` set reports entries that are no strings, unknown or repeated |
| PolicyDocument.RootsLoop | apps/sandbox-policy/src/policy-schema.ts:166-196 | the loop with its four `continue` branches reports non-objects, missing and non-canonical paths, wrong classes and repetitions |
| PolicyDocument.WellTypedReports | apps/sandbox-policy/src/policy-schema.ts:97-274 | on a well-typed document the validator reports what the faults of the policy are |
| PolicyDocument.AcceptsIff | apps/sandbox-policy/src/policy-schema.ts:97-274 | it accepts a value exactly when it is a well-typed document of a valid policy |
| PolicyDocument.ThrowsIff | apps/sandbox-policy/src/policy-schema.ts:220-253 | it throws exactly on a null protected root beside a canonical list of roots |
| PolicyDocument.NullRootThrows | apps/sandbox-policy/src/policy-schema.ts:220-253 | a small document it throws on |
| PolicySchema.OverlapLoop | apps/sandbox-policy/src/policy-schema.ts:220-253 | the nested loops report every overlapping pair |
| PolicySchema.ReportsNothingIffValid | apps/sandbox-policy/src/policy-schema.ts:97-274 | nothing is reported exactly for documents that are well dated, listed, rooted and bounded and none of whose named texts holds a private-key line or is long base64 |
| PolicyFaults.ReportedIff | apps/sandbox-policy/src/policy-schema.ts:97-274 | for any raw document each of the reasons is among the reported ones exactly when the document has the fault it names |
| KeyMaterial.MarkerMatchesIff | apps/sandbox-policy/src/policy-schema.ts:55 | the backtracking search for the private-key marker finds one exactly when the text holds `-----BEGIN `, label characters and `PRIVATE KEY-----` |
| KeyMaterial.LooksLikeKeyMaterialIff | apps/sandbox-policy/src/policy-schema.ts:92-95 | a text looks like key material exactly if it holds such a line or has more than 200 characters, all of base64 |
| PolicySchema.NoOverlapsIff | apps/sandbox-policy/src/policy-schema.ts:227-252 | no overlap is reported exactly when no root of one list contains or is contained in one of the other |
| PolicySchema.ConfiguredRootsIff | apps/sandbox-policy/src/protected-roots.ts:89-103 | the two lists handed to the decision hold the policy's protected roots and no others |
| Authorize.AutonomousSafeIff | apps/sandbox-policy/src/authorize.ts:118-288 | an autonomous answer in full, with the four ceilings compared one by one; no check on protected roots appears, because validation implies them |
| Authorize.AnswerIs | apps/sandbox-policy/src/authorize.ts:118-288 | the answer to every request, with its rule: the first objection in the order of the checks, or none |
| Authorize.AutonomousSafeKeepsCeilings | apps/sandbox-policy/src/authorize.ts:90-116 | an autonomous request needs no network, acts on nothing outside and names no limit above its ceiling |
| Authorize.RiskBefore | apps/sandbox-policy/src/authorize.ts:121-158 | the risk reported when a request is turned away before it is classified |
| Authorize.RiskAfter | apps/sandbox-policy/src/authorize.ts:163-288 | the risk reported otherwise is the one classified |
| Authorize.AutonomousSafeKeepsRoots | apps/sandbox-policy/src/authorize.ts:212-265 | for every signer, writes and deletes stay in a disposable root apart from all protected roots, and no autonomous target overlaps an absolutely denied root |
| Authorize.AbsoluteDenialIsFinal | apps/sandbox-policy/src/authorize.ts:174-176 | a never-allowed capability or denied target is denied whatever the policy, signer and other facts |
| Authorize.NeedsOwnerIff | apps/sandbox-policy/src/authorize.ts:174-231 | when the owner is asked, in full |
| Authorize.LabelDecidesNothing | apps/sandbox-policy/src/authorize.ts:118-288 | the label moves no decision and lowers no risk |
| Authorize.NarrowingShrinksIff | apps/sandbox-policy/src/authorize.ts:118-288 | what a narrowed policy allows the wide one allows exactly if it is valid |
| Authorize.ProtectingOnlyShrinks | apps/sandbox-policy/src/authorize.ts:118-288 | adding a protected root anywhere and lowering ceilings only shrinks what is autonomous, without condition |
| Authorize.NarrowingCanMend | apps/sandbox-policy/src/policy-schema.ts:128-130 | a narrowed policy that allows a request the wide, invalid one refuses |
| Exclusions.ExclusionSet.Evaluate | apps/sandbox-tree/src/workspace-exclusions.ts:152-171 | the nested loops exclude exactly the paths with a hit segment or below a protected path, and report the first hit's code |
| Exclusions.ExclusionIsInherited | apps/sandbox-tree/src/workspace-exclusions.ts:107-113 | excluding a path excludes everything below it |
| Exclusions.MandatoryRulesReport | apps/sandbox-tree/src/workspace-exclusions.ts:27-98 | which names the static rules bar, and the code of the first that a name hits |
| Exclusions.BuildWorkspaceExclusionSet | apps/sandbox-tree/src/workspace-exclusions.ts:130-173 | the set holds each contributed relative path once and nothing else |
| Exclusions.ProtectedPathIff | apps/sandbox-tree/src/workspace-exclusions.ts:116-122 | which protected roots contribute, by their relative path from the source |
| TreeCopy.TreeCopier.RegisterName | apps/sandbox-tree/src/workspace-copy.ts:247-256 | a name is registered unless its lower case belongs to a different name |
| TreeCopy.TreeCopier.ProcessFile | apps/sandbox-tree/src/workspace-copy.ts:258-310 | the checks, the copy, the counters and the digests of one file, or the first failure with the part of the file it leaves |
| TreeCopy.TreeCopier.ProcessDir | apps/sandbox-tree/src/workspace-copy.ts:312-339 | one listing, in any order the system gives it, is scanned in sorted order up to the first failure |
| TreeCopy.TreeCopier.VisitEntry | apps/sandbox-tree/src/workspace-copy.ts:372-420 | one popped entry, by its kind, with what a failure leaves behind |
| TreeCopy.TreeCopier.TakeTop | apps/sandbox-tree/src/workspace-copy.ts:361-421 | one turn of the loop takes the next events of the tour off the stack, so the state at each loop head is that of a prefix of the tour |
| TreeCopy.TreeCopier.Copy | apps/sandbox-tree/src/workspace-copy.ts:341-425 | the explicit stack gives the result and the state of the fold over the recursive tour, and terminates |
| TreeCopyLaws.PruningIsFiltering | apps/sandbox-tree/src/workspace-copy.ts:312-339 | the pruning walk visits exactly the entries of the full listing whose own path is not excluded, in sorted preorder |
| TreeCopyLaws.RunIff | apps/sandbox-tree/src/workspace-copy.ts:207-310 | a run goes through exactly when each event is acceptable, the ceilings cover the totals, the time suffices and no names collide |
| TreeCopyLaws.CopySucceedsIff | apps/sandbox-tree/src/workspace-copy.ts:187-425 | a copy succeeds exactly on trees whose kept entries are admissible |
| TreeCopyLaws.CopyDelivers | apps/sandbox-tree/src/workspace-copy.ts:361-424 | a successful copy places exactly the kept files and directories, digests them in order, records the digests of all files but one of the path `__proto__`, and counts them; scanned is files, directories and skipped symlinks |
| TreeCopyEntries.EntryIff | apps/sandbox-tree/src/workspace-copy.ts:312-339 | the listing holds exactly what the tree has at each address, the names on the way down |
| TreeCopyEntries.KeptIff | apps/sandbox-tree/src/workspace-copy.ts:312-339 | the entries processed are what the tree has at addresses that are not excluded, a directory before what is below it and siblings in sorted order |
| TreeCopyEntries.AcceptableIff | apps/sandbox-tree/src/workspace-copy.ts:234-245 | what is asked of the kept entries, by their addresses: so many names, none of them `..`, no backslash in front, and by kind |
| TreeCopyEntries.DeliveredIff | apps/sandbox-tree/src/workspace-copy.ts:361-424 | what a successful copy leaves: the wanted directories and files with their contents and nothing else |
| TreeCopyDigest.DigestedIsRead | apps/sandbox-tree/src/workspace-copy.ts:296-299 | the text that is digested gives back, to a reader of paths up to a NUL and hashes up to a newline, exactly the paths and content hashes of the kept files in order |
| TreeCopyDigest.DigestsAgreeIff | apps/sandbox-tree/src/workspace-copy.ts:361-424 | two successful copies report one digest exactly when they kept the same files with the same hashes in the same order, with a digest that tells their texts apart |
| TreeCopyDigest.DigestsOnDemand | apps/sandbox-tree/src/workspace-copy.ts:204-205 | nothing is digested unless asked for, and a result has a digest and a record exactly if it is a success that was to have them |
| TreeCopyFailures.FailureIsTrue | apps/sandbox-tree/src/workspace-copy.ts:187-425 | whichever of its eighteen failures a copy reports, the tree, the limits or the host give cause for it |
| TreeCopyFailures.FailureIsCounted | apps/sandbox-tree/src/workspace-copy.ts:247-310 | special files, privileged files and name collisions are counted exactly in the failures that name them |
| TreeCopyFailures.FailedCopyLeaves | apps/sandbox-tree/src/workspace-copy.ts:138-180 | a copy of a file that fails leaves as many of its first bytes as were written |
| TreeCopySafety.DigestIsRecordedIff | apps/sandbox-tree/src/workspace-copy.ts:204-299 | the digest of a kept file is on record under its path exactly when that path is not `__proto__` |
| TreeCopySafety.ProtoFileIsNotRecorded | apps/sandbox-tree/src/workspace-copy.ts:296-299 | a copy of one file `__proto__` that succeeds, digests it and records nothing |
| TreeCopySafety.PathsAreDistinct | apps/sandbox-tree/src/workspace-copy.ts:324-337 | no two entries of a tree have the same relative path |
| TreeCopySafety.EventsAreScanned | apps/sandbox-tree/src/workspace-copy.ts:324-337 | every visited path was scanned, and not excluded, before |
| TreeCopySafety.EveryPointIsSafe | apps/sandbox-tree/src/workspace-copy.ts:361-424 | after every prefix of the events, so at every loop head: ceilings, byte sums, depth and length, no excluded path and no two paths equal in lower case |
| TreeCopySafety.EveryRunIsSafe | apps/sandbox-tree/src/workspace-copy.ts:361-424 | the same for what any run leaves behind, also one that fails in the middle of a file or directory; at most its last effect is partial |
| TreeCopySafety.StopIsSafe | apps/sandbox-tree/src/workspace-copy.ts:138-310 | the step that stops a run leaves at most one more effect, whole or partial, and what is there stays safe |
| TreeCopySafety.ProtectedRootCoveredIff | apps/sandbox-tree/src/workspace-exclusions.ts:130-141 | when a protected root inside the source is covered by the set built for it |
| TreeCopySafety.ProtectedRootsStayOut | apps/sandbox-tree/src/workspace-exclusions.ts:116-141 | nothing at or below a configured protected root is created, in whole or in part, on any run, unless its relative path has two dots in a row |
| TreeCopySafety.BarredNamesStayOut | apps/sandbox-tree/src/workspace-exclusions.ts:27-98 | nothing is created, on any run, below or at a name that the static rules bar: no key, credential, environment or history |
| TreeCopySafety.DottedProtectedRootIsDropped | apps/sandbox-tree/src/workspace-exclusions.ts:120 | the root `/s/a..c` below `/s` contributes nothing |
| JsonText.DecodePrint | apps/sandbox-policy/src/canonical-payload.ts:48-120 | a parser returns every printed tree and the text after it |
| JsonText.PrintIsInjective | apps/sandbox-policy/src/canonical-payload.ts:48-120 | equal texts are exactly equal trees |
| JsonText.PrintIsWellPaired | apps/sandbox-policy/src/canonical-payload.ts:55-56 | the text has no lone surrogate whatever the strings hold |
| Quoting.QuotedByPieces | apps/sandbox-policy/src/canonical-payload.ts:56 | a text is quoted piece by piece, wherever it is not cut inside a surrogate pair |
| Quoting.PlainIsQuotedAsItIs | apps/sandbox-policy/src/canonical-payload.ts:56 | a well-formed text without controls, quotes and backslashes is itself between two quotes |
| Quoting.ShortEscapes | apps/sandbox-policy/src/canonical-payload.ts:56 | the seven short escapes |
| Quoting.ControlEscapes | apps/sandbox-policy/src/canonical-payload.ts:56 | the other controls are escaped by their code in four digits |
| Quoting.LoneEscapes | apps/sandbox-policy/src/canonical-payload.ts:56 | so are surrogates without their other half |
| Quoting.QuotingIsMinimal | apps/sandbox-policy/src/canonical-payload.ts:56 | of all bodies without raw controls and lone surrogates that read back as the string none is shorter |
| Quoting.LiteralTexts | apps/sandbox-policy/src/canonical-payload.ts:53-67 | the texts of null, the truth values and what is empty |
| Quoting.ArrayText | apps/sandbox-policy/src/canonical-payload.ts:81-96 | an array is its items between brackets with commas |
| Quoting.ObjectText | apps/sandbox-policy/src/canonical-payload.ts:112-119 | an object is its quoted keys, colons and values between braces with commas |
| CanonicalPayload.Serializer.SerializeValue | apps/sandbox-policy/src/canonical-payload.ts:48-120 | on any graph the recursion terminates, restores the ancestor set on success and adds exactly one reason on failure |
| CanonicalPayload.Serializer.Canonicalize | apps/sandbox-policy/src/canonical-payload.ts:37-46 | the payload, or the one reason |
| CanonicalPayloadLaws.SerializesIffUnfolds | apps/sandbox-policy/src/canonical-payload.ts:48-120 | serializing succeeds exactly on values that unfold to a finite tree and prints that tree; sharing is no obstacle |
| CanonicalPayloadLaws.SerializesIffAcyclic | apps/sandbox-policy/src/canonical-payload.ts:81-120 | it succeeds exactly when everything reachable is acceptable and no path meets a node twice |
| CanonicalPayloadLaws.ReasonIsTrue | apps/sandbox-policy/src/canonical-payload.ts:53-111 | the reason given for a refusal is a true one: something reachable shows it, or a path meets a node twice |
| CanonicalPayloadLaws.AcceptableIff | apps/sandbox-policy/src/canonical-payload.ts:53-107 | a value by itself is acceptable exactly when it shows none of the reasons |
| CanonicalPayloadLaws.NegativeZeroIsZero | apps/sandbox-policy/src/canonical-payload.ts:57-62 | negative zero prints as `0` |
| CanonicalPayloadLaws.PayloadsDetermineValues | apps/sandbox-policy/src/canonical-payload.ts:37-120 | payloads decode to the value, and are equal exactly for equal values, whatever the key order |
| CanonicalJson.CanonicalValuePrints | apps/observer-exporter/src/canonical-json.ts:4-21 | the second printer prints the tree a value without holes reads as |
| CanonicalRuns.CanonicalOutcomes | apps/observer-exporter/src/canonical-json.ts:4-21 | on any graph, holes included: it prints exactly when nothing unprintable and no cycle is reachable, throws without a cycle otherwise, and recurses without end on a cycle with nothing unprintable |
| CanonicalRuns.PrintedTextIsOfTree | apps/observer-exporter/src/canonical-json.ts:4-21 | what it prints on a graph is what the recursion on its finite reading gives, and without holes the text of that tree |
| CanonicalJson.PrintedKeysAreSorted | apps/observer-exporter/src/canonical-json.ts:13-20 | the keys of an object come out in ascending order, each once |
| CanonicalJson.PrintersAgreeIff | apps/observer-exporter/src/canonical-json.ts:4-21 | on finite values the two printers agree exactly when every reachable record is plain and without the reserved key and no array has a hole |
| CanonicalRuns.GraphsAgreeIff | apps/observer-exporter/src/canonical-json.ts:4-21 | on any graph they give one text exactly when the serializer takes everything reachable and there is no cycle |
| CanonicalJson.PrintersCanDiffer | apps/observer-exporter/src/canonical-json.ts:13-20 | an empty object that is not plain is printed by the one and refused by the other |
| CanonicalJson.HoleIsLost | apps/observer-exporter/src/canonical-json.ts:12 | an array of one hole is refused by the one and printed like the empty array by the other |
| CanonicalJson.WithoutVolatileTopLevelFields | apps/observer-exporter/src/canonical-json.ts:27-34 | the clone lacks the four volatile fields and nothing else |
| CanonicalJson.VolatileIff | apps/observer-exporter/src/canonical-json.ts:27-34 | which the four are |
| CanonicalJson.BundleTextsAgreeIff | apps/observer-exporter/src/canonical-json.ts:27-39 | the hashed text ignores the volatile fields and changes with every other edit |
| CanonicalJson.BundleBytesAgreeIff | apps/observer-exporter/src/canonical-json.ts:36-39 | and so do the bytes that are digested: the encoding loses nothing of that text |
| Civil.DateRoundTrip | apps/observer-exporter/src/field-day.ts:48-56 | dates and day numbers correspond one to one |
| Civil.ValidDateIff | apps/observer-exporter/src/field-day.ts:48-56 | the dates of the calendar: twelve months of 31, 30 and 28 or 29 days, by the rule of 4, 100 and 400 years |
| Civil.EpochIsDayZero | apps/observer-exporter/src/field-day.ts:48 | day 0 is 1970-01-01 |
| Civil.NextDayIsNext | apps/observer-exporter/src/field-day.ts:59-67 | the next day number is the next day of the month, else the first of the next month, else 1 January of the next year |
| Civil.ShapedIff | apps/observer-exporter/src/field-day.ts:44 | the shape of a date text, character by character |
| Civil.DigitsRead | apps/observer-exporter/src/field-day.ts:62-66 | a year past 9999 is printed in digits that read as it, without a zero in front |
| Civil.TextIsInjective | apps/observer-exporter/src/field-day.ts:62-66 | a date text determines its date |
| FieldDay.DateOnlyPartsIff | apps/observer-exporter/src/field-day.ts:43-57 | the accepted texts are those of a year from 0100 on, a month and a day that month has, each the one text of its date |
| FieldDay.NextDateIsNextDay | apps/observer-exporter/src/field-day.ts:59-67 | the successor is the next day of the month, of the next month or of the next year; only that of 9999-12-31 is refused |
| FieldDay.LocalBoundaryLoop | apps/observer-exporter/src/field-day.ts:69-89 | the loop over candidates computes the recursive search |
| FieldDay.SearchIsSound | apps/observer-exporter/src/field-day.ts:73-87 | the search returns only instants whose local time is exactly the wanted one, whatever the zone does |
| FieldDay.SearchConvergesIff | apps/observer-exporter/src/field-day.ts:73-88 | with one change nearby it succeeds exactly when the wanted time is not skipped, and within three rounds |
| FieldDay.SearchSettlesIff | apps/observer-exporter/src/field-day.ts:73-88 | in every zone it succeeds exactly when, within eight rounds, the offset it meets puts the wanted time where that offset is in force |
| FieldDay.SearchFailsIff | apps/observer-exporter/src/field-day.ts:73-88 | in every zone it fails exactly when those offsets come round in a circle, and then with any number of rounds, or settle too late |
| FieldDay.EightRoundsAreEnough | apps/observer-exporter/src/field-day.ts:73-88 | with up to seven offsets nearby they never settle too late |
| FieldDay.LateIsLegible | apps/observer-exporter/src/field-day.ts:73-87 | from 0100-01-03 on no zone makes the search read a clock before year 100 |
| FieldDay.FirstRooms | apps/observer-exporter/src/field-day.ts:73-87 | the offsets it can bear for the first two field days: two hours and fourteen |
| FieldDayTiling.PassesOnceIff | apps/observer-exporter/src/field-day.ts:69-89 | a zone passes a local time once exactly when none of its changes jumps over it |
| FieldDayTiling.FieldDayByPartsIff | apps/observer-exporter/src/field-day.ts:103-124 | the field day of any instant, of any era, by the date and the hour its zone prints |
| FieldDay.EraYearIff | apps/observer-exporter/src/field-day.ts:17-28 | the year a clock prints is positive, counted in its era |
| FieldDayTiling.FieldDayOfInstantIff | apps/observer-exporter/src/field-day.ts:103-124 | from year 1 on, the field day of an instant is the one that started at the last local 04:00; only 9999-12-31 ends at midnight |
| FieldDayTiling.EarlierEraIsMistaken | apps/observer-exporter/src/field-day.ts:103-124 | noon of 15 June of year -1000 is sent to 1001-06-15, before whose window it lies |
| FieldDayTiling.TwoChangesCanDefeatTheSearch | apps/observer-exporter/src/field-day.ts:69-89 | for every late date a zone that passes the boundary once and makes the search fail |
| FieldDayTiling.WindowExistsIff | apps/observer-exporter/src/field-day.ts:91-101 | a field day has a window exactly when it is not the last of the calendar and the offsets settle at both its boundaries |
| FieldDayTiling.WindowExists | apps/observer-exporter/src/field-day.ts:91-101 | so it has one where the zone passes both boundaries once and changes at most once around each |
| FieldDayTiling.FixedZoneWindow | apps/observer-exporter/src/field-day.ts:91-101 | in a zone of one offset a window is the 86400000 milliseconds from 04:00 |
| FieldDayTiling.WindowsTileTime | apps/observer-exporter/src/field-day.ts:91-124 | an instant lies in a day's window exactly when the inverse map sends it to that day and it is not before year 1 |
| FieldDayTiling.WindowsMeet | apps/observer-exporter/src/field-day.ts:91-101 | the end of a window is the start of the next day's |
| Sql.LeastAndGreatest | apps/observer-exporter/src/coverage.ts:340-387 | the three-valued conditions the queries are read with |
| Sql.ComparisonsIff | apps/observer-exporter/src/coverage.ts:276-300 | their comparisons: unknown exactly beside a NULL, otherwise numbers before instants before other texts, each in its order |
| Coverage.SurfaceBinds | apps/observer-exporter/src/coverage.ts:276-387 | for every shape of surface each positional parameter receives its own bound, and later arguments are left for later text |
| Coverage.SurfaceMeans | apps/observer-exporter/src/coverage.ts:340-387 | under three-valued logic, whichever related row the engine picks, the condition selects a row exactly when the projection gives it an instant, and which one |
| Coverage.InstantIff | apps/observer-exporter/src/coverage.ts:276-338 | a row has an instant exactly when it belongs to the day, and the instant lies in the window |
| Coverage.OwnInstantIsFirst | apps/observer-exporter/src/coverage.ts:292-307 | the instant is that of the first listed column that lies in the window |
| Coverage.WhereSelectsTheDay | apps/observer-exporter/src/coverage.ts:340-361 | the composed condition with its own arguments selects exactly the day's rows, by an own column or a related row |
| CoverageReport.QueryAnswers | apps/observer-exporter/src/coverage.ts:394-402 | the whole statement answers with the day's instants in ascending order up to the limit, each inside the window |
| CoverageReport.ReadSurfaceTimestamps | apps/observer-exporter/src/coverage.ts:389-416 | the loop returns the first 500 instants and whether there were more, or throws exactly on a fractional number among those fetched |
| CoverageReport.ParsesIff | apps/observer-exporter/src/coverage.ts:245-262 | a stored value reads as an instant exactly if it is a whole number of milliseconds, or the text of a date, that a date can hold |
| CoverageReport.WholeNumbersNeverThrow | apps/observer-exporter/src/coverage.ts:405-411 | over well-typed columns the throw is unreachable |
| CoverageReport.ObservedInterval | apps/observer-exporter/src/coverage.ts:502-511 | the interval is the least and the greatest observed instant, or nothing for none |
| CoverageReport.EnumerateRequiredSurface | apps/observer-exporter/src/coverage.ts:442-486 | one surface's schema failures, count, overflow and orphaned rows |
| CoverageReport.UnmatchedIff | apps/observer-exporter/src/coverage.ts:418-440 | the left join on the keys, where the related key is null, answers exactly if some row has no related row |
| CoverageReport.SchemaIsWholeIff | apps/observer-exporter/src/coverage.ts:447-477 | a surface can be queried exactly when every table and column its query names is there |
| CoverageReport.SourceCoverageForDatabase | apps/observer-exporter/src/coverage.ts:517-578 | the report's disposition, count, interval and failures over all required surfaces |
| CoverageReport.CompleteIff | apps/observer-exporter/src/coverage.ts:551-577 | a report is complete exactly when no row of the day can be missing, and then its count is the day's and its interval the one that spans the day's instants |
| CoverageReport.ReportIs | apps/observer-exporter/src/coverage.ts:517-578 | any report, also a partial one: its failures are exactly what the surfaces say, its count what they saw in all, its interval the one that spans it |
| CoverageReport.SchemaFailureIs | apps/observer-exporter/src/coverage.ts:447-477 | a schema failure names a table or column the query needs and the database lacks |
| CoverageReport.DatedIsCompleteIff | apps/observer-exporter/src/coverage.ts:551-577 | the same spelled out for surfaces whose rows are dated |
| Dispatch.DirectThought.OnDispatch | apps/agent-service/src/mistral-client.ts:635-713 | one callback: commit if still due, send, record the response |
| Dispatch.DirectThought.OnFailure | apps/agent-service/src/mistral-client.ts:842-906 | what the error path tells the ledger |
| Dispatch.DirectThought.Complete | apps/agent-service/src/mistral-client.ts:509-579 | a whole run under any environment asks exactly the specified trace of the ledger and the adapter |
| Dispatch.PhaseSummarizes | apps/agent-service/src/mistral-client.ts:511-514 | a trace the monitor accepts keeps the discipline, event by event |
| Dispatch.DirectRunsAreDisciplined | apps/agent-service/src/mistral-client.ts:562-905 | bind and commit at most once, commit strictly between bind and sending, settlement only if nothing was sent, one row throughout |
| Dispatch.NoBudgetNoLedger | apps/agent-service/src/mistral-client.ts:564-578 | without a budget the ledger is never touched |
| Dispatch.UncommittedIsSettledIff | apps/agent-service/src/mistral-client.ts:866-899 | when a bound row that was never committed is released or its silence proved |
| DirectTraces.DirectTraceIs | apps/agent-service/src/mistral-client.ts:562-905 | what a direct run says from first to last: a bind, commits until the ledger takes one, the sending with a record of each complete answer, and the last word of a run that fails |
| DirectTraces.UnbudgetedTraceIs | apps/agent-service/src/mistral-client.ts:564-713 | and without a budget: no more than the sending |
| Failover.ChatDispatch.Single | apps/agent-service/src/mistral-client.ts:1277-1757 | one attempt under any environment, on the flags both attempts share |
| Failover.ChatDispatch.Complete | apps/agent-service/src/mistral-client.ts:1759-1822 | the call with its failover, and that the failover flag is set exactly when a second attempt was made |
| Failover.FailoverIsDisciplined | apps/agent-service/src/mistral-client.ts:1332-1494 | through a failover bind and commit still happen at most once, in order and on one row |
| Failover.SecondAttemptIff | apps/agent-service/src/mistral-client.ts:1769-1822 | a second attempt is made exactly after a response that condemns the account, in time and with a second credential |
| ChatTraces.SecondAttemptByScript | apps/agent-service/src/mistral-client.ts:1769-1822 | the same by what the ledger, the provider and the clock do alone: the last adapter called answered or gave an error status, the error condemns the account, and 2500 ms are left |
| ChatTraces.FirstAttemptIs | apps/agent-service/src/mistral-client.ts:1277-1757 | what the first attempt says, and the flags it leaves |
| ChatTraces.ChatTraceIs | apps/agent-service/src/mistral-client.ts:1759-1822 | what a whole call says: the first attempt, and after it a second that only sends |
| Failover.SecondAttemptReusesTheBinding | apps/agent-service/src/mistral-client.ts:1474-1494 | when it starts the first has committed and sent, and it neither binds nor commits |
| Lane.Scheduler.PollDomusLane | apps/agent-service/src/serve.ts:726-740 | one poll, on demand or not |
| Lane.Scheduler.OnDomusArrival | apps/agent-service/src/serve.ts:741 | an arrival polls on demand |
| Lane.Scheduler.OnHandlerDone | apps/agent-service/src/serve.ts:770-778 | the end of a game pass defers a poll |
| Lane.Scheduler.OnImmediate | apps/agent-service/src/serve.ts:736-778 | a deferred poll polls on demand |
| Lane.Scheduler.OnTickDone | apps/agent-service/src/serve.ts:736-739 | the end of a tick and its deferred poll |
| Lane.EveryRunIsSound | apps/agent-service/src/serve.ts:721-741 | on every run one tick at a time, maintenance keeps the interval, and what is owed is covered unless a poll was refused |
| Lane.TickStartsIff | apps/agent-service/src/serve.ts:726-741 | when an event starts a tick, and what it then notes |
| Lane.NoWakeUpIsLost | apps/agent-service/src/serve.ts:721-778 | while enabled and not paused every request without a later start is covered by a rerun of the running tick or a deferred poll |
| Lane.CoveredIsServed | apps/agent-service/src/serve.ts:736-739 | what covers a request starts a tick as soon as the running one ends |
| Lane.ArrivalIsKeptIff | apps/agent-service/src/serve.ts:726-741 | an arrival is kept exactly when the lane is open or something already covers it |
| Lane.ImmediateIsKeptIff | apps/agent-service/src/serve.ts:726-739 | a deferred poll keeps what is owed exactly when the lane is open or something else covers it |
| Lane.StepKeepsIff | apps/agent-service/src/serve.ts:721-778 | for every event and state, exactly when a wake-up is lost and when a lost one is made up for |
| Lane.WakeUpIsLostIff | apps/agent-service/src/serve.ts:721-778 | on every run, whatever is switched or paused: one is lost in the end exactly when an event dropped it and none made up for it afterwards |
| Lane.PauseLosesAWakeUp | apps/agent-service/src/serve.ts:727-738 | a run in which a pause loses a wake-up |
| Lane.InnerLife.PollInnerLife | apps/agent-service/src/serve.ts:683-690 | one poll of the inner life under its switches |
| Lane.EveryInnerRunIsSound | apps/agent-service/src/serve.ts:681-720 | one pass at a time, each at least the interval of its switch after the start before it |
| Lane.PassStartsIff | apps/agent-service/src/serve.ts:683-690 | a pass starts exactly when some switch is on, nothing is paused, none runs and the interval has gone by |
| Lane.InnerLife.OnPassDone | apps/agent-service/src/serve.ts:717-719 | the end of a pass |
| Lane.PassEndsIff | apps/agent-service/src/serve.ts:717-719 | it ends the pass that runs and nothing else |
| Lane.NothingStartsWhileIdle | apps/agent-service/src/serve.ts:683-690 | while paused or with every switch off none starts, however long |
| Transcript.IndexById | apps/observer-exporter/src/transcript.ts:276 | the table of ids holds the last record of each |
| Transcript.IndexByHash | apps/observer-exporter/src/transcript.ts:277-282 | each bucket holds the records of its hash in order |
| Transcript.JoinOne | apps/observer-exporter/src/transcript.ts:283-330 | one message's fields, gaps and conflicts |
| Transcript.JoinTranscript | apps/observer-exporter/src/transcript.ts:275-330 | the whole loop updates every message as specified and no other object |
| Utf8.EncodedAlikeIff | apps/observer-exporter/src/transcript.ts:50-54 | two texts have the same bytes exactly when they are equal up to surrogates without their other half |
| Utf8.EncodePointIff | apps/observer-exporter/src/transcript.ts:50-54 | the bytes of a code point are those of the table in section 3 of RFC 3629 |
| Utf8.PairPoints | apps/observer-exporter/src/transcript.ts:50-54 | a surrogate pair stands for one code point |
| Utf8.SinglePoints | apps/observer-exporter/src/transcript.ts:50-54 | any other unit for itself, or for U+FFFD if it is half of a pair |
| Utf8.BytesOfPoints | apps/observer-exporter/src/transcript.ts:50-54 | the bytes of a text are those of its code points in order |
| Transcript.HashingAgreesIff | apps/observer-exporter/src/transcript.ts:50-58 | the join by hash agrees with a linear scan on every input exactly when no two differing normalized texts have one hash |
| Transcript.EncodingAgreesIff | apps/observer-exporter/src/transcript.ts:50-54 | with a digest free of collisions it agrees on every input exactly when no two normalized texts differ only in such surrogates and replacement characters |
| Transcript.CandidatesAgreeIff | apps/observer-exporter/src/transcript.ts:277-317 | on given records it finds the meant candidates exactly when the hashes of those in reach tell their texts from the message's |
| Transcript.PairedTextsAgree | apps/observer-exporter/src/transcript.ts:277-317 | so it agrees, with such a digest, wherever the normalized texts are well-formed |
| Transcript.LoneSurrogateIsMistaken | apps/observer-exporter/src/transcript.ts:50-54 | a record and a message of different texts that it joins with high confidence, whatever the digest |
| Transcript.ConfidenceIff | apps/observer-exporter/src/transcript.ts:318-329 | high confidence exactly for one candidate and to that one, ambiguous with a gap exactly for several, where hashes tell the texts at hand apart |
| Transcript.CandidateIff | apps/observer-exporter/src/transcript.ts:318-320 | a candidate is a record of the same role and text at most 300000 ms away |
| Transcript.StableIdIff | apps/observer-exporter/src/transcript.ts:283-313 | with a stable id: joined to the last record that carries it, a conflict if its role or text differs, a gap if there is none |
| Transcript.FoundIff | apps/observer-exporter/src/transcript.ts:275-330 | the gaps and conflicts of a join are those of its messages |
| Transcript.LastByIdIff | apps/observer-exporter/src/transcript.ts:276 | the record a stable id means is the last that carries it |
| Courier.Controller.Mirror | deploy/linux-mint/self_courier.py:97-112 | main is moved by an unforced push and witnessed, or the run stops |
| Courier.Controller.PublishOne | deploy/linux-mint/self_courier.py:114-160 | a branch is created or the existing one verified, or the run stops |
| Courier.Controller.Run | deploy/linux-mint/self_courier.py:162-185 | the loop over sealed pairs with its journal, up to the first failure |
| Courier.ProposeIsSafe | deploy/linux-mint/self_courier.py:97-184 | one proposal stopped anywhere loses nothing and creates only the sealed change |
| Courier.ProposeSucceedsIff | deploy/linux-mint/self_courier.py:97-160 | when a faultless proposal succeeds, and what its receipt then says |
| Courier.WhatAFaultCosts | deploy/linux-mint/self_courier.py:97-185 | what each fault leaves of main, of the branch and of the journal |
| Courier.RunReturnsReceipts | deploy/linux-mint/self_courier.py:162-185 | a run that ends returns the receipts of its seals in order, and has journaled just those |
| Courier.RunStopsAtFirst | deploy/linux-mint/self_courier.py:162-185 | a run stops exactly at its first failing seal, and leaves what the seals up to it left |
| Courier.HistoryIsSafe | deploy/linux-mint/self_courier.py:97-218 | over any runs main only moves to descendants, no branch changes once created, and every receipt names a commit with the sealed base, tree and message |
| Courier.HistoryBranchesAreSealed | deploy/linux-mint/self_courier.py:97-218 | over any runs every branch that is new holds the change of a seal of the runs, also one whose push landed without a receipt |
| Courier.RetryChangesNothing | deploy/linux-mint/self_courier.py:141-149 | retrying a published seal after any history changes no branch and verifies the same commit |
| Courier.RetrySucceedsIff | deploy/linux-mint/self_courier.py:97-160 | a faultless retry succeeds exactly when the public branch still descends from main |
| Courier.LostPushIsRecovered | deploy/linux-mint/self_courier.py:141-157 | a lost push that had landed is found again with its own commit |

## Left out

- HTTP routes, Discord clients, the desktop UI, provider adapters, process spawning and SQLite itself have no visible semantics here.
- The private-budget ledger, the attention dispatcher and the model fabric appear only as calls with arbitrary outcomes; a ledger call that throws is one the ledger did not accept.
- The releases in the error path of `completeChat` (mistral-client.ts:1913-1966) depend on reservation states the ledger keeps; release safety is claimed for the direct path only.
- The dispatch callback may be called any number of times but not twice at once; the dispatcher awaits it.
- SHA-256, object ids and random ids are opaque; a commit is known by its content.
- Files do not change during a copy; permission bits, back-pressure and the Windows branches are not modelled, and an I/O error, with the bytes written before it, is an answer of the host.
- Numbers in JSON are their printed tokens; how a double prints is not modelled.
- Stored ISO timestamps are in the one format `toISOString` prints, so comparing the texts compares the instants; other text in a timestamp column is taken to sort outside the window.
- Table aliases are never absent, as at every call in the source, and never `related`, the alias of the subselects.
- The text JavaScript shows for a value of the wrong type in a policy document is part of the value; a conversion to text that itself throws is not modelled.
- The tables and columns of the required surfaces are listed once; the theorems hold for any list of surfaces, and none speaks of single names.
- Capability identifiers are an enumeration of the listed ones beside a case for all other texts, so which texts are listed is not a theorem here.
- Recursion without end, as on a cycle in the second printer, is told apart from throwing; the engine ends it with a RangeError.
- The fields of the classification that only report (`policyInteraction`, `safeguardInteraction`, `reason`) and the reason strings beside each rule are not modelled.
- Concerning zones: offsets are whole seconds of at most a day and change at finitely many instants.
- FieldDayTiling.WindowsTileTime: asks, for 0100-01-01 and 0100-01-02 only, that offsets near the boundaries be at most two and fourteen hours, because a search with a larger one may read a clock before year 100, where `Date.UTC` shifts the year.
- Redaction of conflict texts, reading of session files and the modern transcript are not modelled; the join starts from parsed records.
- Receipts carry the sealed fields themselves instead of copies, without the time of observation; validation of the manifests and the lock file are not modelled, and no one else writes to the review repository during a run.
- Which pass an inner-life poll runs (afterglow, night or awake) is not modelled, only when a pass may start.
- The project-root registry, the engineering contracts other than the relative-path predicate and the transcript coverage would add only easy members.
- The text cleaners of the agent service, environment parsing, exit codes, the bot loop guard and the evidence projections are not modelled.
