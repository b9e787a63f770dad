# Verified models of relay-knowledge

Dafny models of the parts of relay-knowledge whose behaviour is easiest to get wrong, with proofs of what those parts
promise. Every module follows one source component: the same branches, constants and error cases. Code that changes
state is a method or a class here, proved against a specification function; what the specification means is then proved
by lemmas over all inputs, runs or interleavings.

- `SchemaModel`, `SchemaValidator`, `SchemaMeaning`, `SchemaAgreement`, `SchemaGraph`, `SchemaCycles`,
  `SchemaReach`, `SchemaInlining`, `SchemaKeywords`, `SchemaOrder`: the JSON Schema validator for skill contracts, a subset of JSON Schema 2020-12. Its
  control flow is exceptions, three outcomes here: accepted, ValueError, and RecursionError, which nothing catches. It
  is shown to compute the one set-theoretic meaning of its keywords when no definition returns to itself without
  descending into the instance; `SchemaKeywords` says what each assertion asks of the instance.
- `StableHash`: FNV-1a (section 2 of draft-eastlake-fnv) on wrapping 64-bit words, and shard directory names.
- `NetworkRuntime`: refreshes in two critical sections, interleaved with each other and with readers.
- `ModelProfile`, `ModelProfileStore`, `ModelProfileLaws`, `ModelProfileEdits`: the model-profile store, its redacted views and what saving them again does.
- `ServiceDefinition`, `ServiceDocument`, `ServicePins`, `ServiceStream`, `ServiceSelection`: storage overrides read from a stream of
  XML events, against the document tree, and the directory they select.
- `IdentifierTerms`, `IdentifierCuts`: search terms of identifiers.
- `MarkdownLinks`, `DocumentFences`, `FenceLines`, `DocumentAnchors`: escapes, link destinations, code fences and heading anchors in
  the documentation checker.
- `ShellQuoting`: printed commands and environment lines, against sections 2.2.1, 2.2.2 and 2.3 of POSIX.1-2017 XCU.
- `AccountSid`, `WindowsDataPath`, `WindowsRefusals`: account identifiers (section 2.4.2.1 of MS-DTYP) and the reserved data directory.
- `HitOrder`, `Rerank`: the local reranker, over real numbers.
- `ProviderProbe`: overlapping probe runs on the settings page.
- `OrderedPhrases`: the release check for required phrases.
- `Prelude`, `Pigeonhole`, `Text`, `Decimal`: shared vocabulary.

Where a promise does not hold as stated, the code is kept as it is and the exact condition is proved:

- Definitions whose references form a cycle may recurse for ever. `AcyclicGraphsAndOnlyThoseDecide`: a reference graph
  guarantees a verdict exactly when it has no cycle that does not descend into the instance. A cycle need not be entered,
  so single cyclic definitions may still give a verdict (`CyclicDefinitionsMayDecide`) or none
  (`SelfReferenceNeverReturns`); for one schema and one instance `ReachablePairsSuffice` settles which, at a call depth
  that can be computed beforehand.
- A reader that takes the timeout floor before the configuration can hold a timeout below that floor; `FloorThenCurrent`
  says exactly when. In the other order it cannot.
- A stored profile's own view can be refused: `http://` is stored as `http:`. `ResubmissionIsLossless` has the condition.
- An escaped bare link destination that ends in white space and has nothing visible after it loses its last character;
  `BareDestinationReadsBack` is an equivalence.
- Reranking depends on the input order exactly when different rescored hits tie on score and evidence id
  (`OrderFreeWithoutTies`), which `RepeatedIdsCanDepend` shows can happen.
- A part of an identifier splits into itself alone for ASCII, but not for every letter of Unicode; `PartsStayExactly`
  has the condition, chunk by chunk, and `DottedCapitalDoesNotStay` a letter.
- A storage override must be non-empty; one of blanks only is read (`BlankPinsAreAccepted`).

`dafny verify dfyconfig.toml` checks the whole project.

## Model

| member | source | states |
|---|---|---|
| SchemaValidator.ValidateSchemaInstance | tools/release/skill_schema_contracts.py:108-227 | the recursive validator with its raised and caught exceptions returns the outcome that the lemmas below characterise |
| SchemaValidator.FollowReference | tools/release/skill_schema_contracts.py:116-126 | a `$ref` with a supported, resolvable target is that target's verdict and its siblings are ignored; any other one is rejected |
| SchemaValidator.RunAll | tools/release/skill_schema_contracts.py:128-132 | a run of unguarded recursive calls ends at the first exception, of either kind |
| SchemaValidator.ValidateHere | tools/release/skill_schema_contracts.py:128-169 | `allOf`, `if`/`then`/`else`, `oneOf`, `anyOf`, `not` in that order, where only a ValueError is caught |
| SchemaValidator.CountMatches | tools/release/skill_schema_contracts.py:144-160 | the `matches` counter accepts exactly one (`oneOf`) or at least one (`anyOf`) accepting alternative, and a RecursionError escapes the loop |
| SchemaValidator.ValidateMembers | tools/release/skill_schema_contracts.py:198-227 | property names, then property values with `additionalProperties`, then items |
| SchemaValidator.ValidateNode | tools/release/skill_schema_contracts.py:128-227 | a schema object without `$ref`: keywords on the instance, scalar and container assertions, members |
| SchemaMeaning.StackMonotone | tools/release/skill_schema_contracts.py:108-227 | a verdict reached with some call depth is reached with any greater one, so it does not depend on the depth available |
| SchemaMeaning.DecidesOnce | tools/release/skill_schema_contracts.py:108-227 | no schema both accepts and rejects an instance |
| SchemaOrder.StatementsRunInOrder | tools/release/skill_schema_contracts.py:128-227 | a node returns or raises what the first of its statements, in the order of the source and written out, raises; so it is known which of ValueError and RecursionError wins |
| SchemaAgreement.NodeMeans | tools/release/skill_schema_contracts.py:128-227 | a node whose calls return gives the verdict its keywords state: intersection, complement, exactly one, union, and (C and T) or (not C and E) |
| SchemaAgreement.Terminates | tools/release/skill_schema_contracts.py:115-169 | with ranked definitions the validator returns once the call depth exceeds a bound that falls lexicographically in instance depth, reference rank and schema height |
| SchemaAgreement.Sound | tools/release/skill_schema_contracts.py:108-227 | with any definitions, cyclic ones too, a verdict that is reached is the one every reading of the keywords gives |
| SchemaAgreement.AlwaysDecides | tools/release/skill_schema_contracts.py:108-227 | with ranked definitions every schema accepts or rejects every instance |
| SchemaAgreement.ValidatorRespects | tools/release/skill_schema_contracts.py:108-227 | the validator's own verdicts satisfy every keyword's equation, so it is a denotation |
| SchemaAgreement.ValidatorComputesTheMeaning | tools/release/skill_schema_contracts.py:108-227 | any reading that satisfies the equations is what the validator accepts, and its complement what it rejects |
| SchemaKeywords.AcceptedMeetsEveryKeyword | tools/release/skill_schema_contracts.py:171-227 | whatever else a node says, an instance it accepts meets each of its assertions, spelled out: types, `const`, `enum`, lengths, UTF-8 bytes, `pattern`, bounds, item counts, uniqueness, required names |
| SchemaKeywords.RequiredNamesArePresent | tools/release/skill_schema_contracts.py:194-197 | in an accepted object every required name is the name of a field |
| SchemaKeywords.AssertionsDecide | tools/release/skill_schema_contracts.py:171-227 | a node with assertions alone accepts exactly the instances that meet them and rejects every other |
| SchemaKeywords.KeywordsMean | tools/release/skill_schema_contracts.py:171-227 | the two blocks of assertions together say exactly that |
| SchemaKeywords.TypeMeans | tools/release/skill_schema_contracts.py:96-105 | a type, or a list of types however nested, admits an instance exactly when one of its names is unknown or names the instance's kind; a boolean is no integer |
| SchemaKeywords.SameIsEquality | tools/release/skill_schema_contracts.py:180-227 | equality of instances, and of their sorted JSON text, is equality of the values they denote |
| SchemaKeywords.Utf8LengthIsBytes | tools/release/skill_schema_contracts.py:188-193 | the UTF-8 length of a string is one to four bytes for each character, by its code point |
| SchemaKeywords.ReferencesNameDefinitions | tools/release/skill_schema_contracts.py:116-126 | a `$ref` is the definition named after `#/$defs/`, any other form or an unknown name a ValueError |
| SchemaGraph.RankedIsAcyclic | tools/release/skill_schema_contracts.py:116-126 | definitions that can be ranked have no cycle of direct references |
| SchemaGraph.AcyclicIsRanked | tools/release/skill_schema_contracts.py:116-126 | and definitions without such a cycle can be ranked |
| SchemaGraph.AcyclicSchemasAreDecided | tools/release/skill_schema_contracts.py:108-227 | when no definition returns to itself without descending into the instance, the keywords have one and only one reading and the validator computes it on every instance |
| SchemaModel.DepthIs | tools/release/skill_schema_contracts.py:198-227 | the depth of an instance: a scalar has none, an array or object is one deeper than its deepest member |
| SchemaGraph.StackBound | tools/release/skill_schema_contracts.py:108-227 | a verdict needs no more nested calls than (instance depth + 1) * (number of definitions + 1) * schema height |
| SchemaCycles.AcyclicGraphsAndOnlyThoseDecide | tools/release/skill_schema_contracts.py:108-227 | a graph of direct references has no cycle if and only if every set of definitions with that graph decides every instance of every schema |
| SchemaCycles.CyclesCanRunForever | tools/release/skill_schema_contracts.py:116-132 | over a graph with a cycle, replacing each definition by the `allOf` of its direct references keeps the graph and makes every call depth run out, on every instance |
| SchemaCycles.PoolExhausts | tools/release/skill_schema_contracts.py:116-132 | `allOf` definitions that keep referring to each other exhaust every call depth |
| SchemaCycles.NeverRejects | tools/release/skill_schema_contracts.py:116-132 | `allOf` definitions of nothing but resolvable references never reject, so nothing stops a cycle through them early |
| SchemaCycles.SelfReferenceNeverReturns | tools/release/skill_schema_contracts.py:116-126 | a definition that is only a reference to itself exhausts every call depth, whatever else is defined |
| SchemaCycles.CyclicDefinitionsMayDecide | tools/release/skill_schema_contracts.py:128-132 | a cycle need not be entered: `allOf` of an unsatisfiable schema and a reference back rejects every instance |
| SchemaReach.ReachableIsClosed | tools/release/skill_schema_contracts.py:108-227 | every recursive call is made for a subschema of the schema or of a definition, and for a part of the instance or a name in it |
| SchemaReach.SettledBySize | tools/release/skill_schema_contracts.py:108-227 | the pairs of a schema and an instance that are decided grow with the call depth, and once one more call decides no more of them no outcome ever changes |
| SchemaReach.ReachablePairsSuffice | tools/release/skill_schema_contracts.py:108-227 | with any definitions, cyclic ones too, a call depth of the number of reachable pairs gives the verdict if there is one, and running out there means running out at every depth |
| SchemaReach.ReachableSize | tools/release/skill_schema_contracts.py:108-227 | that number is the number of subschemas times the number of parts of the instance |
| SchemaInlining.Forward | tools/release/skill_schema_contracts.py:116-126 | a schema with references replaced by their targets reaches the same verdict with no more call depth |
| SchemaInlining.Backward | tools/release/skill_schema_contracts.py:116-126 | and the original reaches it with at most twice as much |
| SchemaInlining.InliningPreservesMeaning | tools/release/skill_schema_contracts.py:108-227 | replacing any references, at any depth of a schema and its definitions and under any keywords, changes no verdict, and a schema without one gains none |
| SchemaInlining.RoundsPreserveMeaning | tools/release/skill_schema_contracts.py:108-227 | and so does any number of rounds of inlining |
| StableHash.StableHasher64.constructor | src/relay_knowledge/identity/mod.rs:13-17 | a new hasher starts from the offset basis |
| StableHash.StableHasher64.Update | src/relay_knowledge/identity/mod.rs:19-24 | the loop over the bytes folds the FNV-1a step into the field |
| StableHash.StableHash64 | src/relay_knowledge/identity/mod.rs:31-35 | the one-shot hash is the hash of the whole input |
| StableHash.PublishedValues | src/relay_knowledge/identity/mod.rs:3-35 | the hash has the published 64-bit FNV-1a values of the empty input and of `a` |
| StableHash.StepIsABijection | src/relay_knowledge/identity/mod.rs:19-24 | for every byte the step permutes the 64-bit states: multiplying by the inverse of the prime undoes it |
| StableHash.StepSeparatesBytes | src/relay_knowledge/identity/mod.rs:19-24 | from one state different bytes lead to different states |
| StableHash.FoldIsInjective | src/relay_knowledge/identity/mod.rs:19-24 | a fixed input maps different states to different states |
| StableHash.FoldIsSurjective | src/relay_knowledge/identity/mod.rs:19-24 | and reaches every state |
| StableHash.Chunks | src/relay_knowledge/identity/mod.rs:19-28 | feeding an input in pieces gives the hash of the whole |
| StableHash.OneByteEditsNeverCollide | src/relay_knowledge/identity/mod.rs:31-35 | inputs of one length that differ in exactly one byte have different hashes |
| StableHash.RepositoryShardDirName | src/relay_knowledge/paths/mod.rs:868-885 | the loop builds 48 sanitised characters or `repository`, a hyphen and 16 hexadecimal digits of the hash |
| StableHash.ShardNameReads | src/relay_knowledge/paths/mod.rs:868-885 | the readable head is the first 48 characters with everything but ASCII letters, digits, `-` and `_` replaced by `_`, or `repository` for the empty id |
| StableHash.HexIsInjective | src/relay_knowledge/paths/mod.rs:881-884 | fixed-width hexadecimal determines the number |
| StableHash.HexSpells | src/relay_knowledge/paths/mod.rs:881-884 | each hexadecimal digit is that of its position, in lower case and with leading zeros |
| StableHash.Utf8IsInjective | src/relay_knowledge/identity/mod.rs:31-35 | different strings have different UTF-8 bytes |
| StableHash.SameShardSameHash | src/relay_knowledge/paths/mod.rs:868-885 | equal directory names mean equal hashes, however the readable parts were shortened |
| StableHash.OneByteEditsGetOtherShards | src/relay_knowledge/paths/mod.rs:868-885 | repository ids whose bytes differ in one place get different directories |
| StableHash.ShardNamesAreSafe | src/relay_knowledge/paths/mod.rs:868-885 | a directory name has 18 to 65 characters, all letters, digits, hyphens or underscores |
| NetworkRuntime.Runtime.FromConfig | src/relay_knowledge/net/mod.rs:49-55 | floor and configuration start from the same timeout |
| NetworkRuntime.Runtime.Current | src/relay_knowledge/net/mod.rs:63-68 | the active configuration is returned |
| NetworkRuntime.Runtime.RequestTimeoutFloor | src/relay_knowledge/net/mod.rs:77-82 | the floor is returned |
| NetworkRuntime.Runtime.LowerFloor | src/relay_knowledge/net/mod.rs:91-97 | the first critical section lowers the floor to the new timeout if that is less, and touches nothing else |
| NetworkRuntime.Runtime.Install | src/relay_knowledge/net/mod.rs:99-102 | the second installs the configuration, and touches nothing else |
| NetworkRuntime.Runtime.RefreshFromOverrides | src/relay_knowledge/net/mod.rs:85-105 | an uninterrupted refresh runs both; a rejected one changes nothing |
| NetworkRuntime.InterleavingsAre | src/relay_knowledge/net/mod.rs:85-105 | the interleavings are exactly the event sequences in which every thread installs only inside a refresh it began, and begins another, or has one rejected, only outside |
| NetworkRuntime.FloorIsLeast | src/relay_knowledge/net/mod.rs:85-105 | after every step of every interleaving the floor is the least timeout of the initial configuration and all refreshes past their first critical section |
| NetworkRuntime.LeastTimeoutIsMinimum | src/relay_knowledge/net/mod.rs:91-97 | that least timeout is one of those and exceeds none of them |
| NetworkRuntime.FloorBoundsConfigurations | src/relay_knowledge/net/mod.rs:75-105 | the floor never exceeds the active timeout, nor that of a configuration waiting to be installed |
| NetworkRuntime.FloorNeverRises | src/relay_knowledge/net/mod.rs:91-97 | the floor never increases |
| NetworkRuntime.CurrentThenFloor | src/relay_knowledge/net/mod.rs:75-82 | a reader that takes the configuration and later the floor sees floor <= timeout, whatever ran in between |
| NetworkRuntime.FloorThenCurrentCanExceed | src/relay_knowledge/net/mod.rs:63-105 | read in the other order the floor can exceed the timeout: a concrete interleaving |
| NetworkRuntime.FloorThenCurrent | src/relay_knowledge/net/mod.rs:63-105 | it does so exactly when, after the floor was read, one thread ran both sections of a refresh to a timeout below it and its install is the last before the configuration is read |
| NetworkRuntime.WaitingIsPending | src/relay_knowledge/net/mod.rs:91-102 | a thread that has lowered the floor and not yet installed holds the configuration it began with |
| NetworkRuntime.LastInstallIsActive | src/relay_knowledge/net/mod.rs:99-102 | the last install decides the active configuration, by the thread that made it |
| NetworkRuntime.InitialIsActive | src/relay_knowledge/net/mod.rs:49-55 | before the first install the configuration the runtime was created with is active |
| NetworkRuntime.RejectionChangesNothing | src/relay_knowledge/net/mod.rs:85-89 | a rejected refresh can be dropped from any interleaving |
| ModelProfile.ValidateHeader | src/relay_knowledge/model_provider/profile_config.rs:187-228 | one header of a request: normalised, refused if repeated up to case, filled from the stored list |
| ModelProfile.ValidateHeaders | src/relay_knowledge/model_provider/profile_config.rs:181-229 | the loop with its growing set of folded names validates the headers in order and stops at the first error |
| ModelProfile.ValidatedHeadersAreOk | src/relay_knowledge/model_provider/profile_config.rs:181-229 | validated headers have names unique up to case and a value exactly where one is configured |
| ModelProfile.NormalizedBaseUrlIsOk | src/relay_knowledge/model_provider/profile_config.rs:238-256 | an accepted base URL has an HTTP scheme, or is `http:` or `https:` because trimming slashes ate the rest |
| ModelProfileLaws.BaseUrlIs | src/relay_knowledge/model_provider/profile_config.rs:238-256 | a base URL, or the provider's own when none is given, is stored without the white space around it and the slashes at its end; it is refused when there is none or it does not start with `http://` or `https://` |
| ModelProfile.RedactionKeepsScheme | src/relay_knowledge/model_provider/profile.rs:242-252 | removing user information keeps the scheme |
| ModelProfileLaws.UserInformationIsCut | src/relay_knowledge/model_provider/profile.rs:242-252 | a view shows a URL without what stands before the last `@` of its authority |
| ModelProfileLaws.OtherUrlsStay | src/relay_knowledge/model_provider/profile.rs:242-252 | and every URL without user information as it is |
| ModelProfileLaws.ViewHidesSecrets | src/relay_knowledge/model_provider/profile.rs:211-240 | a view has the profile's public fields, says whether a key and each header value are configured, and never holds either |
| ModelProfile.RedactedUrlResubmits | src/relay_knowledge/model_provider/profile.rs:242-252 | a stored URL, redacted and submitted again, is accepted if and only if it kept its scheme |
| ModelProfile.SavedProfileIsOk | src/relay_knowledge/model_provider/profile_config.rs:26-92 | whatever a save accepts satisfies the invariant of stored profiles |
| ModelProfileLaws.HeadersAre | src/relay_knowledge/model_provider/profile_config.rs:181-229 | headers are accepted exactly when each one is allowed and no two names agree up to case, and each is then stored as requested, an empty value taken from the stored header of that name |
| ModelProfileLaws.SavedFields | src/relay_knowledge/model_provider/profile_config.rs:26-92 | the fields of a saved profile: trimmed text, a typed key or else the stored one unless it is cleared, the headers, the source |
| ModelProfileLaws.SaveIsAccepted | src/relay_knowledge/model_provider/profile_config.rs:26-92 | a save is accepted exactly when the sampling numbers are in range, the model is not blank, the URL and the headers are accepted, and there is a key, a configured header or a provider that needs neither |
| ModelProfile.RedactedHeadersAreRestored | src/relay_knowledge/model_provider/profile.rs:76-85 | validating the redacted headers against the stored ones gives back the stored list, values included |
| ModelProfile.ResubmissionIsLossless | src/relay_knowledge/model_provider/profile.rs:211-240 | saving a profile's own redacted view, with no key and nothing cleared, is accepted if and only if the base URL kept its scheme, and then keeps the API key, the header list and all else but the base URL, the flag and the source |
| ModelProfile.SchemeOnlyUrlCannotBeResubmitted | src/relay_knowledge/model_provider/profile_config.rs:238-256 | `http://` is stored as `http:`, which is refused when it comes back |
| ModelProfileLaws.SaveIsRefused | src/relay_knowledge/model_provider/profile_config.rs:26-92 | and otherwise refused for the first of these reasons, in this order: sampling, model, URL, headers, no way to authenticate |
| ModelProfileLaws.HeaderIsRefused | src/relay_knowledge/model_provider/profile_config.rs:187-228 | a header is refused for the first of: no name, a repeated name, a bad name, a configured value that is nowhere, a bad value |
| ModelProfileStore.Service.constructor | src/relay_knowledge/model_provider/profiles.rs:163-171 | at first there is no file |
| ModelProfileStore.Service.SaveProfile | src/relay_knowledge/model_provider/profiles.rs:47-74 | a save inserts the profile, moves the default and the flags when asked or when there was no default, and answers with the listing; a refused one leaves the file |
| ModelProfileStore.Service.DeleteProfile | src/relay_knowledge/model_provider/profiles.rs:76-98 | a delete removes the profile, moves the default to the first remaining name if it was the default, and resets the flags |
| ModelProfileStore.ResetFlags | src/relay_knowledge/model_provider/profiles.rs:66-71 | the loop over the profiles sets each flag to whether its profile is the default |
| ModelProfileStore.ValidNamesAreStable | src/relay_knowledge/model_provider/profile_config.rs:288-301 | a validated profile name validates to itself |
| ModelProfileStore.SaveKeepsFileOk | src/relay_knowledge/model_provider/profiles.rs:47-74 | a save keeps: default set iff profiles exist, naming one of them, no flag elsewhere, every profile well formed |
| ModelProfileStore.DeleteKeepsFileOk | src/relay_knowledge/model_provider/profiles.rs:76-98 | and so does a delete |
| ModelProfileEdits.ValidNameIs | src/relay_knowledge/model_provider/profile_config.rs:288-301 | a name is trimmed and then valid if 1 to 80 ASCII letters, digits, `-`, `_` and `.` are left |
| ModelProfileEdits.DeleteRemovesTheProfile | src/relay_knowledge/model_provider/profiles.rs:76-98 | an accepted delete leaves the old names without the trimmed one, every other profile up to its flag, and the default unless it was deleted: then the least remaining name, or none |
| ModelProfileEdits.DeletedIsGone | src/relay_knowledge/model_provider/profiles.rs:76-161 | the deleted name then resolves to nothing, except that the environment's profile, if there is one, answers to `default` |
| ModelProfileEdits.StoredResolves | src/relay_knowledge/model_provider/profiles.rs:128-161 | a stored name resolves to its profile |
| ModelProfileEdits.SaveStoresTheProfile | src/relay_knowledge/model_provider/profiles.rs:47-74 | an accepted save leaves the old names and the trimmed one, the new profile under it, every other profile up to its flag, and the default unless it is asked for or there was none |
| ModelProfileEdits.EnvironmentProfileIs | src/relay_knowledge/model_provider/profile_config.rs:94-136 | the environment's profile, field by field |
| ModelProfileEdits.ListingShows | src/relay_knowledge/model_provider/profile_config.rs:138-168 | a listing shows the view of every stored profile, or while there is none the environment's as `default` |
| ModelProfileEdits.ProbeRunsWith | src/relay_knowledge/model_provider/profiles.rs:100-126 | a probe runs with the named or the default profile, with the edits applied if there are any, and from the edits alone if there is no profile to start from |
| ModelProfileStore.RunsKeepStoreOk | src/relay_knowledge/model_provider/profiles.rs:47-98 | that invariant holds after every run of saves and deletes from an absent file |
| ModelProfileStore.ListingHasOneDefault | src/relay_knowledge/model_provider/profile_config.rs:138-168 | after any run a listing that shows anything shows exactly one default, the one it names |
| ModelProfileStore.DefaultResolves | src/relay_knowledge/model_provider/profiles.rs:128-161 | resolving the default succeeds if and only if a stored or runtime profile exists, and finds the stored default |
| ModelProfileStore.ResavingTheViewKeepsSecrets | src/relay_knowledge/model_provider/profiles.rs:47-74 | after any run, saving a listed view over its profile is accepted iff its base URL kept its scheme, and keeps key, headers, every other profile and the default |
| ModelProfileStore.SavingTheEnvironmentViewKeepsItsKey | src/relay_knowledge/model_provider/profile_config.rs:170-179 | while nothing is stored, saving the listed view of the environment's profile is accepted iff its model name is not blank and its redacted URL can be stored, and then keeps the environment's key |
| ModelProfileStore.ProbingTheViewUsesSecrets | src/relay_knowledge/model_provider/profiles.rs:100-126 | probing with the unedited form, by name or as the default, runs with the stored key and headers |
| ServiceDefinition.StorageOverrides | src/relay_knowledge/paths/service_storage.rs:102-192 | the event loop over `depth`, `root_seen` and `values` returns what reading the stream means |
| ServiceDefinition.AttributesOf | src/relay_knowledge/paths/service_storage.rs:115-131 | the attributes of one `env` element: names upper-cased, the last of a kind wins, an undecodable one fails |
| ServiceDocument.InnerScan | src/relay_knowledge/paths/service_storage.rs:150-180 | below the root's children only nesting, declarations and DTDs matter: the scan passes a forest iff it has none of these and at most the levels left, and leaves the state alone |
| ServiceDocument.ChildrenScan | src/relay_knowledge/paths/service_storage.rs:112-180 | over the root's children the scan succeeds iff their content is allowed and their overrides can be pushed, and pushes exactly those |
| ServiceDocument.PushAllMeans | src/relay_knowledge/paths/service_storage.rs:132-145 | pushing succeeds iff every `env` is readable and no variable is pinned twice or without a value, and appends the pins in order |
| ServiceDocument.DocumentScan | src/relay_knowledge/paths/service_storage.rs:150-180 | a document passes without a root, or with exactly one |
| ServiceDocument.ReadsDocuments | src/relay_knowledge/paths/service_storage.rs:102-192 | on the events of any document tree the reader succeeds if and only if there is one `service` root, nesting at most 32, nothing but blank text, comments and a declaration beside it, and pins that are readable, unique, valued, non-empty and at least one; and it returns exactly those |
| ServicePins.PinMeans | src/relay_knowledge/paths/service_storage.rs:112-148 | a child of the root pins a variable exactly when it is an `env` whose last `name` spells it up to ASCII case, and the value is its last `value` |
| ServicePins.ServiceDocumentMeans | src/relay_knowledge/paths/service_storage.rs:150-192 | what a service document is, written out: one root named `service`, 32 levels at most, no declaration or DTD inside, nothing but blank text, comments and a declaration beside it |
| ServicePins.ReadsServiceDocuments | src/relay_knowledge/paths/service_storage.rs:102-192 | the reader succeeds on exactly those documents with pins that are readable, unique, valued and not empty, and returns what the root's children set |
| ServicePins.OnePinIsRead | src/relay_knowledge/paths/service_storage.rs:132-192 | one `env` child with any spelling of either variable and any non-empty value reads as exactly that override; the last `name` and the last `value` decide |
| ServicePins.BothPinsAreRead | src/relay_knowledge/paths/service_storage.rs:132-192 | with both variables pinned it reads both |
| ServicePins.ForeignEnvChangesNothing | src/relay_knowledge/paths/service_storage.rs:132-148 | an `env` of any other name, or of none, changes nothing wherever it stands among the root's children |
| ServiceStream.AcceptedIsBalanced | src/relay_knowledge/paths/service_storage.rs:150-188 | every accepted stream closes what it opens and never closes more |
| ServiceStream.Parse | src/relay_knowledge/paths/service_storage.rs:176-180 | a balanced stream is the flattening of a forest, which is constructed |
| ServiceStream.AcceptsServiceDocumentsOnly | src/relay_knowledge/paths/service_storage.rs:102-192 | a stream of events is accepted if and only if it is the flattening of such a document |
| ServiceSelection.AcceptedSelectsADirectory | src/relay_knowledge/paths/service_storage.rs:51-70 | an accepted definition never lacks a base: its own data directory decides, whatever home is pinned beside it, and without one the directory below its home, which must be valid itself |
| ServiceSelection.PinnedAccountIsRecovered | src/relay_knowledge/paths/service_storage.rs:51-70 | a definition that pins the reserved directory of an account selects that directory with that account |
| ServiceSelection.BlankPinsAreAccepted | src/relay_knowledge/paths/service_storage.rs:189-191 | a document that pins a blank is read, the same document with an empty value is refused |
| IdentifierTerms.SplitIdentifierChunk | src/relay_knowledge/retrieval/terms.rs:41-69 | the loop with `current` and `previous` appends exactly the parts of the chunk |
| IdentifierTerms.SplittingPartitions | src/relay_knowledge/retrieval/terms.rs:41-104 | the parts of a chunk concatenate to the lower-cased chunk, are non-empty, and start exactly where `should_split` holds |
| IdentifierTerms.SplittingIsTheOnlyPartition | src/relay_knowledge/retrieval/terms.rs:41-104 | no other list of parts does that |
| IdentifierCuts.PartsStartAtCuts | src/relay_knowledge/retrieval/terms.rs:41-104 | a part starts at an offset exactly when the lower-cased text before some cut is that long, the cuts given by the characters: upper case after lower case, a digit beside none, or a capital before lower case after a capital |
| IdentifierCuts.AsciiPartsStartAtCuts | src/relay_knowledge/retrieval/terms.rs:41-104 | for ASCII the offsets are the indices and the parts spell the lower-cased chunk |
| IdentifierCuts.CamelCaseSplits | src/relay_knowledge/retrieval/terms.rs:88-97 | a lower-case word followed by a capitalised one splits into the two |
| IdentifierCuts.CapitalsBeforeAWordSplit | src/relay_knowledge/retrieval/terms.rs:88-97 | a run of capitals before a capitalised word splits before its capital |
| IdentifierCuts.DigitsSplit | src/relay_knowledge/retrieval/terms.rs:88-97 | letters followed by digits split between them |
| IdentifierTerms.PartsStayExactly | src/relay_knowledge/retrieval/terms.rs:41-104 | the parts of a chunk are each all letters or all digits and split into themselves alone if and only if lower-casing each of its characters gives only lower-case letters, or digits for a digit, that lower-case to themselves |
| IdentifierTerms.AllPartsStayExactly | src/relay_knowledge/retrieval/terms.rs:41-104 | so it holds for every chunk if and only if it is so for every alphanumeric character |
| IdentifierTerms.AsciiPartsStay | src/relay_knowledge/retrieval/terms.rs:41-104 | it holds for every chunk of ASCII letters and digits, whatever the rest of the alphabet |
| IdentifierTerms.DottedCapitalDoesNotStay | src/relay_knowledge/retrieval/terms.rs:59 | capital dotted I is a letter for which it fails: its part is cut again |
| IdentifierCuts.LongTermsAre | src/relay_knowledge/retrieval/terms.rs:3-21 | with a least length, those of them that have it |
| IdentifierTerms.InsertTerm | src/relay_knowledge/retrieval/terms.rs:82-86 | a term is inserted iff it is long enough |
| IdentifierTerms.InsertIdentifierTerms | src/relay_knowledge/retrieval/terms.rs:23-39 | a token adds its lower-case form, its parts and their acronym, as far as they are long enough |
| IdentifierCuts.TokenGives | src/relay_knowledge/retrieval/terms.rs:23-39 | a token gives its lower-case form, its parts and, of two or more, the word of their first characters, and nothing else |
| IdentifierCuts.TextGives | src/relay_knowledge/retrieval/terms.rs:10-21 | a text gives exactly the terms of its maximal runs of letters, digits and underscores |
| IdentifierTerms.CollectParts | src/relay_knowledge/retrieval/terms.rs:29-32 | the chunks between underscores are split in order |
| IdentifierTerms.UnderscoresAreBoundaries | src/relay_knowledge/retrieval/terms.rs:29-55 | splitting at underscores first gives the same parts as leaving them to the chunk splitter's boundary branch |
| IdentifierTerms.InitialsOfParts | src/relay_knowledge/retrieval/terms.rs:71-80 | the acronym has one character from every part, so with two parts or more it is never empty |
| IdentifierTerms.ExtendNormalizedTerms | src/relay_knowledge/retrieval/terms.rs:10-21 | the token loop adds the terms of the text, filtered by length alone, to those present |
| IdentifierTerms.NormalizedTerms | src/relay_knowledge/retrieval/terms.rs:3-8 | from the empty set it gives the long enough terms of the text |
| IdentifierTerms.SeparatedTextsAreIndependent | src/relay_knowledge/retrieval/terms.rs:10-21 | the terms of two texts joined by a separator are the union of theirs, under every minimum length |
| MarkdownLinks.IsEscaped | tools/docs/check_docs.py:72-78 | counting backslashes backwards answers whether a left-to-right reader that consumes backslash pairs passes over the index |
| MarkdownLinks.FindUnescaped | tools/docs/check_docs.py:81-85 | the first occurrence at which that reader stops, or none |
| MarkdownLinks.UnescapeMarkdown | tools/docs/check_docs.py:88-98 | the index loop drops the first backslash of each pair |
| MarkdownLinks.LinkDestination | tools/docs/check_docs.py:51-69 | a bracketed target is unescaped up to its first unescaped `>`, a bare one up to its first unescaped white space |
| MarkdownLinks.VisitedStep | tools/docs/check_docs.py:72-78 | a character is passed over exactly when it follows a backslash that is not |
| MarkdownLinks.BracketedDestinationReadsBack | tools/docs/check_docs.py:51-55 | `<...>` with at least `\` and `>` escaped gives back its content, whatever follows |
| MarkdownLinks.BareDestinationReadsBack | tools/docs/check_docs.py:57-69 | a bare destination with `\`, white space and a leading `<` escaped, and nothing or white space and anything after it, is read back if and only if it or what follows ends in something visible: otherwise stripping the target takes its last character |
| MarkdownLinks.UnclosedDestinationReadsBack | tools/docs/check_docs.py:53-55 | a `<` that no unescaped `>` closes spells the rest of the target |
| MarkdownLinks.SurroundingSpaceIsIgnored | tools/docs/check_docs.py:51-52 | white space around a link target does not matter |
| MarkdownLinks.SpaceCharacters | tools/docs/check_docs.py:61-66 | which characters that is |
| MarkdownLinks.UnescapeReads | tools/docs/check_docs.py:88-98 | a backslash spells the character after it and, at the end, itself; every other character spells itself |
| MarkdownLinks.BareReads | tools/docs/check_docs.py:57-69 | a bare destination is read likewise, up to its first unescaped white space |
| DocumentFences.FenceMatchIsSyntax | tools/docs/check_docs.py:17 | a line has one reading as a fence line at most, and the matcher finds it: indent up to three, three or more of one character, none of either right after |
| FenceLines.FenceLinesAre | tools/docs/check_docs.py:17 | a line is a fence line exactly when it is at most three spaces, at least three backticks or tildes, and a text that does not go on with either |
| FenceLines.FenceOpens | tools/docs/check_docs.py:228-251 | with no fence open, a line opens one exactly when it is a fence line, with its character and width |
| FenceLines.FenceCloses | tools/docs/check_docs.py:228-251 | an open fence is closed by a fence line of its character, at least as wide and with only white space after it, and stays as it is after every other line |
| FenceLines.MixedMarkersAre | tools/docs/check_docs.py:101-106 | a mixed marker is found exactly in a line of at most three spaces and a run of three or more backticks and tildes with both in it |
| FenceLines.MixedLinesAre | tools/docs/check_docs.py:109-113 | it is reported outside fences, and inside one when it starts with enough of the fence's character |
| FenceLines.ProseLinesAre | tools/docs/check_docs.py:580-617 | prose lines are those outside every fence that are no fence lines |
| FenceLines.ScannedLinesAre | tools/docs/check_docs.py:317-381 | the link scanner looks at the prose lines without a mixed marker |
| FenceLines.CountedAre | tools/docs/check_docs.py:580-617 | a diagnostic is a prose line with a positive count, and that count |
| DocumentFences.FenceLinesAreNotMixed | tools/docs/check_docs.py:101-106 | a fence line never carries a mixed marker |
| DocumentFences.OpenFenceHasAnOpener | tools/docs/check_docs.py:228-251 | a fence is open after some lines if and only if one of them opened it, outside any other, and none since closes it |
| DocumentFences.ValidateLanguageEditions | tools/docs/check_docs.py:580-617 | its three variables describe the open fence, and it counts in exactly the prose lines and reports those with a count |
| DocumentFences.ScanDocument | tools/docs/check_docs.py:317-381 | its two variables describe the same fence although mixed markers are handled first; it scans the prose lines without mixed markers, reports the mixed ones, and blames an unclosed fence on its opener |
| DocumentFences.SkippedProseIsReported | tools/docs/check_docs.py:361-369 | every line the link scanner skips although the other checkers take it for prose is reported |
| DocumentAnchors.DocumentAnchors | tools/docs/check_docs.py:228-266 | the anchors are those assigned to the slugs of the unfenced headings, and the fence variables describe the same fence as in the other checkers |
| DocumentAnchors.FollowFences | tools/docs/check_docs.py:228-253 | run on the same lines, so after every line of any document, the three trackers agree on being open, and while open on character and width |
| DocumentAnchors.FreshAnchor | tools/docs/check_docs.py:260-264 | the suffix loop ends after at most as many collisions as there are anchors, at the first free name |
| DocumentAnchors.TakenNamesAreFew | tools/docs/check_docs.py:262-264 | if the first k names are all taken there are at least k anchors, because the names are distinct |
| DocumentAnchors.HeadingsKeepTheirAnchors | tools/docs/check_docs.py:228-266 | no two headings share an anchor, the set has exactly one per heading with a slug, and each begins with its heading's slug |
| DocumentAnchors.AssignmentIsUnique | tools/docs/check_docs.py:257-265 | the assignment of names is determined by the slugs |
| DocumentAnchors.NamesAre | tools/docs/check_docs.py:257-265 | a heading's name is its slug if no earlier heading has that name, and otherwise the slug, a hyphen and the least positive number that gives a new one |
| DocumentAnchors.SlugsAreOfProse | tools/docs/check_docs.py:228-257 | the slugs are those of the prose lines that have one, in order |
| ShellQuoting.CommandsReadBack | web/src/operations.ts:591-601 | a shell that reads words, backslashes and single quotes gets back exactly the list of arguments, for every list of strings |
| ShellQuoting.CommandsAreUnambiguous | web/src/operations.ts:591-601 | two argument lists never print alike |
| ShellQuoting.EnvLinesReadBack | web/src/settings.ts:544-554 | an environment line reads as the single word `name=value` for every value |
| ShellQuoting.PrintedBare | web/src/operations.ts:591-601 | an argument is printed as it is exactly when it is not empty and has only the safe characters |
| AccountSid.ValidSidsArePrinted | src/relay_knowledge/paths/windows_storage.rs:60-83 | a string validates if and only if it is the printed form of a 48-bit authority and 1 to 15 subauthorities of 32 bits |
| AccountSid.PrintSidIsInjective | src/relay_knowledge/paths/windows_storage.rs:60-83 | two identifiers never print alike |
| AccountSid.SidIsWritten | src/relay_knowledge/paths/windows_storage.rs:60-83 | written out: `S-1-`, a number below 2 to the 48th and one to fifteen numbers below 2 to the 32nd, with a hyphen before each, is valid, and beyond those bounds invalid |
| Decimal.PrintReads | src/relay_knowledge/paths/windows_storage.rs:66-78 | decimal notation, digit by digit |
| WindowsDataPath.DirectoryGivesTheSidBack | src/relay_knowledge/paths/mod.rs:626-690 | recovering the account from its own data directory gives it back, with either separator |
| WindowsDataPath.RecoveredPathsAreTheDirectory | src/relay_knowledge/paths/mod.rs:637-690 | a path maps to an account if and only if the account is valid, the path is neither remote nor disguised, and it equals the account's directory after normalising separators, ASCII case, empty and `.` components and the `\\?\` prefix |
| WindowsRefusals.RefusedPaths | src/relay_knowledge/paths/mod.rs:637-668 | a path is refused as no local drive exactly when it starts with two equal separators and not with `\\?\`, a letter and a colon; any other is refused as disguised exactly when it has a drive colon and a piece that ends in a space or in a period but is not a lone one, or a tilde in the first directory of drive D |
| WindowsRefusals.ComponentsRead | src/relay_knowledge/paths/mod.rs:669-674 | separators and `.` name nothing, every other piece is a component |
| WindowsRefusals.AccountPaths | src/relay_knowledge/paths/mod.rs:669-690 | a path that is not refused gives no account unless it has five components, `D:`, `relay-knowledge`, `users`, the account and `data`, in any ASCII case; the account is then upper-cased, and refused if it is not valid |
| WindowsRefusals.DirectoryIs | src/relay_knowledge/paths/mod.rs:626-633 | the directory of an account, written out |
| WindowsDataPath.DirectoriesDoNotCollide | src/relay_knowledge/paths/mod.rs:626-633 | directories of different accounts differ even after that normalisation |
| HitOrder.SortSorts | src/relay_knowledge/retrieval/rerank.rs:63-68 | the result is sorted by score, then evidence id, and is a permutation |
| HitOrder.SortIsStable | src/relay_knowledge/retrieval/rerank.rs:63-68 | hits that tie keep the order they came in |
| HitOrder.SortedIsUnique | src/relay_knowledge/retrieval/rerank.rs:63-68 | without ties between different hits there is one sorted permutation |
| Rerank.RerankHits | src/relay_knowledge/retrieval/rerank.rs:19-85 | hits are rescored and sorted in place, except in disabled mode; external mode runs the local reranker and says why it is degraded |
| Rerank.RescoreHits | src/relay_knowledge/retrieval/rerank.rs:46-62 | the loop overwrites each hit in place with its rescored form |
| Rerank.ScoreHit | src/relay_knowledge/retrieval/rerank.rs:97-123 | the score and its signals, with the terms gathered by the loops below |
| Rerank.TermsFromLabels | src/relay_knowledge/retrieval/rerank.rs:162-169 | the terms of all labels together |
| Rerank.TermsFromFacts | src/relay_knowledge/retrieval/rerank.rs:149-160 | the terms of subject, predicate and optional object of all facts together |
| Rerank.TermCoverage | src/relay_knowledge/retrieval/rerank.rs:171-181 | coverage lies in [0, 1], is 1 iff every query term is found and there is one, and 0 iff none is found |
| Rerank.SignalsAreShares | src/relay_knowledge/retrieval/rerank.rs:97-123 | each signal is the share of the query's terms that the hit's own texts have |
| Rerank.ScoreIsSum | src/relay_knowledge/retrieval/rerank.rs:97-147 | the score is the fusion score, the four shares with their weights, and the bonuses with theirs |
| Rerank.ScoreBounds | src/relay_knowledge/retrieval/rerank.rs:97-147 | a score is at least the fusion score and at most 0.90 + 0.15 + 0.05 per extra source above it |
| Rerank.ScoreStaysWithoutEvidence | src/relay_knowledge/retrieval/rerank.rs:97-147 | it equals the fusion score if and only if nothing matches and there is no extra source, fact, span or code artifact |
| Rerank.TermsAre | src/relay_knowledge/retrieval/rerank.rs:162-186 | the terms of a text are all those of its tokens but an empty one |
| Rerank.RerankedIsSorted | src/relay_knowledge/retrieval/rerank.rs:46-68 | the reranked list is a sorted permutation of the rescored hits |
| Rerank.RerankedIsBestFirst | src/relay_knowledge/retrieval/rerank.rs:63-68 | in fields: scores never rise, and among equal scores evidence ids never fall |
| Rerank.BestComesFirst | src/relay_knowledge/retrieval/rerank.rs:63-68 | so no hit scores above the first |
| Rerank.OrderFreeWithoutTies | src/relay_knowledge/retrieval/rerank.rs:46-68 | every permutation of the input gives the same list if and only if no two different rescored hits share score and evidence id |
| Rerank.DistinctIdsAreOrderFree | src/relay_knowledge/retrieval/rerank.rs:46-68 | so distinct evidence ids suffice |
| Rerank.RepeatedIdsCanDepend | src/relay_knowledge/retrieval/rerank.rs:46-68 | without them it can depend: two hits with one id and different contents, and an empty query |
| ProviderProbe.ProbePanel.constructor | web/src/settings.ts:78-80 | the page starts idle, with no run |
| ProviderProbe.ProbePanel.ResetClicked | web/src/settings.ts:298-306 | a reset retires the active run and shows idle |
| ProviderProbe.ProbePanel.StartProbe | web/src/settings.ts:380-386 | a probe takes the next run id, makes it active and shows running |
| ProviderProbe.ProbePanel.ResultArrives | web/src/settings.ts:386-392 | a result of the active run is shown and its diagnostics awaited; any other is dropped |
| ProviderProbe.ProbePanel.ResultFails | web/src/settings.ts:393-399 | an error of the active run is shown; any other is dropped |
| ProviderProbe.ProbePanel.DiagnosticsArrive | web/src/settings.ts:427-438 | diagnostics are installed for the active run only |
| ProviderProbe.ProbePanel.DiagnosticsFail | web/src/settings.ts:439-448 | a diagnostics error is added for the active run while its success is shown |
| ProviderProbe.PossibleAre | web/src/settings.ts:375-449 | the sequences of events that can happen are exactly those in which a run settles once, after its click on Probe, and its diagnostics end once, if it was resolved while it was still the last click |
| ProviderProbe.RunsAreConsistent | web/src/settings.ts:375-449 | in every interleaving pending runs are no later than the active one, running is shown iff the active run awaits its result, and nothing awaits behind an idle page |
| ProviderProbe.RunningIsPending | web/src/settings.ts:380-386 | while running is shown the active run is pending |
| ProviderProbe.StaleRunsAreErased | web/src/settings.ts:386-448 | what is shown is what the last click shows followed by the active run's events alone, so every event of another run could be left out |
| ProviderProbe.ShownBelongsToTheActiveRun | web/src/settings.ts:386-448 | a shown result, error or diagnostics error was reported by the active run, which otherwise has reported nothing |
| ProviderProbe.ActiveRunShows | web/src/settings.ts:380-448 | what the active run has reported decides what is shown: running, its result, its result with a diagnostics error, or its error |
| ProviderProbe.LastClickShows | web/src/settings.ts:298-386 | until it reports, the last click decides: running after Probe, idle after a reset |
| ProviderProbe.DiagnosticsAreTheLastInstalled | web/src/settings.ts:427-438 | the diagnostics shown are the last that loaded for a run while it was active |
| ProviderProbe.ResetStaysIdle | web/src/settings.ts:298-306 | after a reset the page stays idle, whatever comes back, until Probe is clicked |
| OrderedPhrases.RequireOrderedPhrases | tools/release/update_skill_metadata_version.py:448-456 | the greedy scan succeeds if and only if all phrases have non-overlapping occurrences in order, and otherwise names the first phrase that cannot be added |
| OrderedPhrases.LeftmostStep | tools/release/update_skill_metadata_version.py:449-456 | taking the first occurrence after the cursor ends as early as any placement can, and if there is none nothing fits |
| OrderedPhrases.PlacedIsPairwise | tools/release/update_skill_metadata_version.py:448-456 | a placement is an occurrence of every phrase that ends before any later one starts |

## Left out

- Schema numbers: a bound that is not an integer, which the code converts or fails on with another exception.
- Schema errors: the location and wording of messages; `pattern` is an arbitrary predicate on the string.
- Schema instances: NaN and infinities, and duplicate keys, which parsing has already merged.
- SchemaGraph.StackBound: gives a call depth that suffices, not the least one; the frames the interpreter uses for anything but the validator's own calls are not counted.
- Profiles: the context window, token limits, fallback settings and catalogue fields, which are copied along; HTTP probing.
- ModelProfileStore.Service.SaveProfile: reading, writing and locking the file and its JSON form are not modelled; the file is a value.
- ModelProfileStore.Service.DeleteProfile: likewise; a failed read or write is not an outcome here.
- ModelProfileStore.ListingHasOneDefault: speaks of the set of views, not of the order in which they are listed.
- Header syntax: the HTTP library's checks on names and values are arbitrary predicates.
- ServiceDefinition.StorageOverrides: starts from the decoded events; tokenising, character encodings and namespaces belong to the XML library.
- ServiceStream.AcceptsServiceDocumentsOnly: says which definitions are refused; with which message is stated by the contracts of the methods alone.
- Service storage: path validation and the file checks around the overrides.
- Network configuration: parsing and validating the overrides, lock poisoning and the QoS counters.
- Unicode tables: which characters beyond ASCII are alphanumeric and how they are lower-cased are parameters of `IdentifierTerms`, of which it is only assumed that lower-casing never gives nothing and that only the ten digits are lower-cased to one of them.
- MarkdownLinks.LinkDestination: finding the link targets in a line is not modelled.
- DocumentFences.ScanDocument: only the fence logic; the diagnostics on white space, headings, link targets and the language of fences are left out.
- DocumentFences.ValidateLanguageEditions: the count of CJK characters in a line is an arbitrary function; reading the files is left out.
- DocumentAnchors.DocumentAnchors: recognising a heading and computing its slug are one arbitrary function of the line.
- ShellQuoting.CommandsReadBack: the reader knows words, quotes and backslashes and refuses expansions, patterns, operators and comments; reserved words, assignments before a command and aliases are not in its language.
- WindowsDataPath.DirectoryGivesTheSidBack: paths that are not Unicode, which map to no account, are left out.
- Rerank.RerankHits: rounding of floating-point sums, NaN, the wording of the explanation and the model's name in it; the library's stable sort is the specification's insertion sort.
- ProviderProbe.ProbePanel.ResultArrives: assumes that the rendering callbacks return; an exception out of one would show as an error.
- ProviderProbe.ProbePanel.StartProbe: the button is disabled while a probe runs, but the model allows a click at any time.
- OrderedPhrases.RequireOrderedPhrases: the wording of the error.
- Storage, indexing, adapters, telemetry, process control and the rest of the user interface.
