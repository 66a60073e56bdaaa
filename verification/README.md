# Verification of an event and ABI layer for Stellar

This project models the parts of the repository whose correctness rests on an algorithm or
on the order of steps, and proves properties of the models with Dafny 4.11. The command
`dafny verify dfyconfig.toml` checks all of it. Every source path below is relative to the
root of the repository.

The modules, by subject:

- **Canonical JSON and the signed message.** `CanonicalJson` is the RFC 8785 printer over
  UTF-16 text, `JsonParser` an independent parser, `CanonicalForm` the normal-form theorems,
  `CanonicalText` the form of the text itself, `AttestationMessage` the domain-prefixed message.
- **Attestation policy.** `Attestations` and `AttestationPolicy` verify, deduplicate,
  supersede, expire, filter and sort; `AttestationTheorems` says what the outcome depends on and
  `AttestationOutcome` what it is in terms of the envelopes.
  A document carries the hash it supersedes, and a hash is a constructor applied to a
  document, so hashing is injective and supersession has no cycles.
- **Taxonomy.** `Taxonomy` is the pairwise static check and the loader, `TaxonomyResolver`
  the per-event resolver, `TaxonomyAmbiguity` the exact conditions under which a loaded set is
  ambiguous for some event, `TaxonomyPrecedence` which entry answers, `TaxonomyConflicts` what the
  static check reports.
- **On-chain registry.** `RegistryContract` is the append-only store with the lifetime of each
  entry, `RegistryCalls` says what one call does, `RegistryRuns` its runs, `RegistryClient`
  the paging client and the lookup by ledger, `RegistryKeeper` the job that extends lifetimes,
  `AutoPublish` indexers that publish to it.
- **Code generation.** `Codegen` holds the two compilers from `ContractSpecs` types,
  `GeneratedTypes` the meaning of what they emit, `CodegenNames` the unique names,
  `CodegenShapes` and `CodegenMeaning` the meaning by fields, elements and cases,
  `CodegenAgreement` where the two outputs agree, `CodegenLoading` when the schemas load.
- **Caches and limits.** `LruCache`, `TtlLruCache`, `LruRecency` (which keys they hold),
  `SwrCache`, `ReadPolicy` (the fixed-window limiter) and `RegistryReads` (reads through it).
- **Payroll contract.** `Payroll` accounts for every token, `PayrollRuns` follows it from its
  creation, `PayrollReentrancy` lets the token call back.
- **Others.** `VerifySchema` compares interfaces, `SchemaReport` says what the lines of
  the report mean, `EventStream` cuts a stream into frames, `Amount` converts decimal amounts,
  `Bits`, `Limbs` and `ScVals` split wide integers into limbs and lift the round trip through
  nested values, `ScValMeaning` says what each value becomes. `Decimals`, `DecimalText`,
  `Results` and `Strings` are shared.

Where the code and its documentation disagree, the model follows the code:

- The registry re-extends an entry once 30 of its 180 days are used
  (`contracts/registry/src/lib.rs:44`); `contracts/README.md:54` describes extending within 30
  days of expiry.
- The keeper skips versions starting with `__truncated`, the client those starting with
  `__truncated_`, while the contract's marker is `__truncated__`. A published version with such
  a name is accepted by the contract, never extended by the keeper
  (`RegistryKeeper.MarkedVersionExpires`) and never selected by the client.
- The lookup by ledger keeps the first of several versions published in one ledger, whereas
  the contract's `latest` is the last of them (`RegistryClient.TwoInOneLedger`).
  `RegistryClient.GetSpecAtIsHistoricalLatest` states exactly when the two agree.
- A taxonomy set that passes the static check can still be ambiguous for an event, in three ways:
  different patterns that cover one event (`TaxonomyAmbiguity.DifferentPatternsClash`), one
  contract implementing two interfaces (`TaxonomyAmbiguity.DifferentInterfacesClash`), and an
  overlap excused by a supersession all of whose sides are superseded
  (`TaxonomyAmbiguity.AllSupersededClash`). `TaxonomyAmbiguity.AmbiguousSomewhereExactly` and
  `TaxonomyAmbiguity.PlainSetAmbiguousExactly` say exactly when.
- The generated schemas of a type that mentions itself or a later type fail when the module is
  loaded, since constants are initialised in order (`CodegenLoading.LoadsExactly`).
- The generated schemas are called matching the declarations (`generate.ts:11`). They differ where a field,
  or the key or value of a map, has a type that admits undefined: the schema accepts an object without it, the
  interface does not (`CodegenAgreement.MissingFieldParses`); and where a value that is no object has all members
  of an interface, as every value but undefined and null has those of an empty one
  (`CodegenAgreement.BooleanMeetsEmptyStruct`, `CodegenAgreement.TextMeetsLength`).
  `CodegenAgreement.SchemasMatchTypesExactly` states exactly where the two agree.
- `toBigInt` accepts a lone dot as zero although malformed input is documented to throw;
  `Amount.AcceptedExactly` states what is accepted, `Amount.LoneDotIsZero` shows the case.
- Timepoints and durations are encoded but not decoded (`ScVals.InstantsAreRefused`).
- The payroll contract's comment rests safety against re-entrant tokens on advancing the window
  before any transfer (`contracts/payroll/src/lib.rs:254-256`). That covers transfers
  (`PayrollReentrancy.TransferReentrySafe`); the token's balance query comes before the window
  is advanced, and `PayrollReentrancy.WindowsConsumedOnce` states exactly when windows are
  consumed once each, on what the token does. `PayrollReentrancy.NestedInBalanceQuery` is a
  run that pays one window twice.
- The comparison of interfaces looks types up on plain objects, so an on-chain type named like an
  inherited member (`constructor`, `toString`) is not missed when the submission lacks it
  (`VerifySchema.InheritedNameUnnoticed`); a match is then not symmetric.
- The indexer treats any message with `contract_error` as a rejected republish. It then returns a
  spec that need not be stored (`AutoPublish.RefusalTakenForSuccess`), and one that is rejected as
  already published need not be the one stored (`AutoPublish.ReturnsAnotherSpecThanFiled`).

## Model

| member | source | states |
|---|---|---|
| `CanonicalJson.Serialize` | packages/abi-registry/src/canonicalJson.ts:51-77 | the recursive printer, with its depth limit and its refusals, computes the specified text or fault |
| `CanonicalJson.SerializeArray` | packages/abi-registry/src/canonicalJson.ts:79-85 | the loop over items builds the array text, stopping at the first fault |
| `CanonicalJson.SerializeObject` | packages/abi-registry/src/canonicalJson.ts:87-102 | the loop over sorted keys builds the object text, skipping undefined members |
| `JsonParser.StringRoundTrip` | packages/abi-registry/src/canonicalJson.ts:51-77 | the parser reads every escaped string back to its code units, whatever follows it |
| `JsonParser.NumberRoundTrip` | packages/abi-registry/src/canonicalJson.ts:51-77 | every printed integer is read back, provided no digit follows |
| `JsonParser.ValueRoundTrip` | packages/abi-registry/src/canonicalJson.ts:51-102 | parsing any printed value at any depth gives its meaning and leaves exactly what followed |
| `JsonParser.MeaningOfPermutation` | packages/abi-registry/src/canonicalJson.ts:87-102 | an object means the same under every order of its members |
| `JsonParser.ParserInvertsSerializer` | packages/abi-registry/src/canonicalJson.ts:47-102 | an independent parser applied to the canonical text gives back the value with objects as unordered maps |
| `CanonicalForm.LessTotal` | packages/abi-registry/src/canonicalJson.ts:87-102 | the key order is total and strict; `CanonicalText` says which order it is |
| `CanonicalForm.TextIsNormalForm` | packages/abi-registry/src/canonicalJson.ts:47-102 | two values have the same canonical text exactly when they are equal as JSON |
| `CanonicalForm.AcceptedExactly` | packages/abi-registry/src/canonicalJson.ts:39-77 | a value is printed exactly when it is JSON with well-formed strings nested at most 64 deep |
| `CanonicalForm.InsertionOrderIrrelevant` | packages/abi-registry/src/canonicalJson.ts:87-102 | the order in which members were inserted, in objects at any depth, changes neither acceptance nor text |
| `CanonicalText.LessIsFirstDifference` | packages/abi-registry/src/canonicalJson.ts:93-93 | the order the keys are sorted by: a key comes before another exactly when it ends first or is smaller at the first place where they differ |
| `CanonicalText.AcceptedIsCanonical` | packages/abi-registry/src/canonicalJson.ts:51-102 | in the text of every accepted value, at every depth, there is no space, items keep their order, and the keys of an object are its defined members' keys in ascending order by first difference, stated without the sort or the comparison |
| `CanonicalText.EscapeIsShortest` | packages/abi-registry/src/canonicalJson.ts:51-77 | of all escapes that are read as a character, the one written is a shortest |
| `CanonicalText.NumeralUnique` | packages/abi-registry/src/canonicalJson.ts:51-77 | a numeral read as an integer is the one written, but for a signed zero |
| `AttestationMessage.DomainHasNoNewline` | packages/abi-registry/src/attestation.ts:42-79 | the domain pattern admits no newline |
| `AttestationMessage.MessageDeterminesDomainAndDocument` | packages/abi-registry/src/attestation.ts:87-93 | equal signing messages come from the same domain and from documents equal as JSON |
| `AttestationMessage.MessageIsDomainThenDocument` | packages/abi-registry/src/attestation.ts:73-93 | a message exists exactly for a well-formed domain and a document with a canonical text; the domain is its first line, and the rest is read back as the document |
| `AttestationPolicy.CollectCandidates` | packages/abi-registry/src/attestationPolicy.ts:134-162 | the first loop yields the verified envelopes without duplicates, and each rejection with its reason |
| `AttestationPolicy.CollectRetired` | packages/abi-registry/src/attestationPolicy.ts:164-177 | the second loop marks exactly the candidates that another of the same attester supersedes |
| `AttestationPolicy.ResolveAttestations` | packages/abi-registry/src/attestationPolicy.ts:125-207 | the whole procedure, loops and sort, computes the specified resolution |
| `AttestationTheorems.ResolutionCharacterized` | packages/abi-registry/src/attestationPolicy.ts:125-207 | `effective` lists in strict rank order exactly the documents verified, not retired, not expired and trusted enough; `superseded` lists exactly the retired ones once each |
| `AttestationTheorems.OnlyAdmittedDocumentsMatter` | packages/abi-registry/src/attestationPolicy.ts:134-162 | the outcome depends only on the set of documents that verify |
| `AttestationTheorems.OrderIrrelevant` | packages/abi-registry/src/attestationPolicy.ts:134-214 | every permutation of the envelopes gives the same effective sequence, preferred document, conflict flag and superseded set |
| `AttestationTheorems.CompareIsBefore` | packages/abi-registry/src/attestationPolicy.ts:209-221 | the comparator is a strict total order on different documents: trust, then creation time, then hash |
| `AttestationTheorems.OthersCannotInterfere` | packages/abi-registry/src/attestationPolicy.ts:164-196 | envelopes of other attesters neither remove nor add anything of one attester's |
| `AttestationTheorems.NeverAllSuperseded` | packages/abi-registry/src/attestationPolicy.ts:164-175 | an attester with a verified document always keeps one that is not superseded |
| `AttestationTheorems.LaterOnlyExpires` | packages/abi-registry/src/attestationPolicy.ts:164-196 | a later clock removes exactly what has expired, keeps the order of the rest, and leaves the superseded set alone |
| `AttestationTheorems.HigherFloorTruncates` | packages/abi-registry/src/attestationPolicy.ts:176-196 | raising the minimum trust gives a prefix of the old effective list |
| `AttestationTheorems.EveryEnvelopeAccountedFor` | packages/abi-registry/src/attestationPolicy.ts:134-196 | every envelope is rejected with its reason or its document is effective, superseded or rejected later |
| `AttestationOutcome.ResolvedAreGenuine` | packages/abi-registry/src/attestation.ts:255-330 | whatever is effective or superseded came in an envelope of version 1, with a valid key, that of the attester, a signature that verifies for the domain, for the contract asked for and for the code expected, and bears the tier the deployer gives it |
| `AttestationOutcome.EffectiveExactly` | packages/abi-registry/src/attestationPolicy.ts:125-196 | effective are exactly the documents of such envelopes that none of the same attester replaces, that have not expired, and that the minimum trust admits |
| `AttestationOutcome.SupersededExactly` | packages/abi-registry/src/attestationPolicy.ts:164-175 | superseded are exactly those that one of the same attester replaces |
| `AttestationOutcome.BelievedInOrder` | packages/abi-registry/src/attestationPolicy.ts:176-221 | the effective stand in order, the deployer's first, then newer ones, then by hash, each once; the preferred is the first, and there is a conflict exactly when two of them differ in their events |
| `AttestationOutcome.RejectedForCause` | packages/abi-registry/src/attestationPolicy.ts:134-196 | every rejection is of an envelope handed in, for the first requirement it misses, or for its expiry or its trust |
| `AttestationOutcome.EveryEnvelopeAnswered` | packages/abi-registry/src/attestationPolicy.ts:134-196 | an envelope that misses a requirement is rejected for it; the document of any other is effective, superseded or dropped late |
| `Taxonomy.FindTaxonomyConflicts` | packages/abi-registry/src/taxonomy.ts:606-646 | the nested loops report each colliding pair with its kind, once, in the order of positions |
| `Taxonomy.Load` | packages/abi-registry/src/taxonomyResolver.ts:258-282 | loading succeeds on exactly the sets of valid, pairwise compatible entries |
| `TaxonomyResolver.MatchPattern` | packages/abi-registry/src/taxonomyResolver.ts:225-243 | the matching loop decides the pattern: prefix of topics, trailing rule and data shape |
| `TaxonomyResolver.ApplyingScopesOverlap` | packages/abi-registry/src/taxonomy.ts:555-582 | two scopes of one kind that apply to the same event overlap for the static check, unless they name different interfaces |
| `TaxonomyAmbiguity.WinnersAreTop` | packages/abi-registry/src/taxonomyResolver.ts:295-313 | the filters for live, best-ranked and current entries leave exactly the covering entries that no other covering entry outranks |
| `TaxonomyPrecedence.ResolvedByPrecedence` | packages/abi-registry/src/taxonomyResolver.ts:180-331 | an event is unmapped exactly when nothing covers it; otherwise a live entry answers before a replaced one, one for the contract before one by code hash before one by interface, a current one before a deprecated one; name, id, version, kind and flag are those of one entry that answers, and the answer is ambiguous exactly when two that answer bear different names |
| `TaxonomyPrecedence.ContractEntryComesFirst` | packages/abi-registry/src/taxonomyResolver.ts:180-184 | where a live entry for the very contract covers the event, an entry named is one for the contract |
| `TaxonomyConflicts.ConflictExactly` | packages/abi-registry/src/taxonomy.ts:544-646 | two entries with one id are duplicates; others are in conflict exactly when neither replaces the other, their patterns match the same events and their scopes meet, and harmlessly so when they bear one name |
| `TaxonomyConflicts.LengthAndShapeDecide` | packages/abi-registry/src/taxonomyResolver.ts:225-243 | an additional topic keeps a match exactly where the pattern allows trailing topics, a missing one never matches, and only the named data shape does |
| `TaxonomyConflicts.TopicDecides` | packages/abi-registry/src/taxonomyResolver.ts:210-223 | which topics can stand in a slot that the pattern names; one of unknown type is of no type |
| `TaxonomyConflicts.UnknownNeverApplies` | packages/abi-registry/src/taxonomyResolver.ts:186-208 | a hash, interface or network that is not known of an event never lets an entry apply; the case of a hash's letters does not matter |
| `TaxonomyAmbiguity.UnifiableExactly` | packages/abi-registry/src/taxonomyResolver.ts:210-243 | two patterns satisfy a check slot by slot, on length and on data shape exactly when some event matches both |
| `TaxonomyAmbiguity.ApplyTogetherExactly` | packages/abi-registry/src/taxonomyResolver.ts:186-208 | two scopes of one kind share a network and a contract id or hash, or are interfaces, exactly when both apply to some event |
| `TaxonomyAmbiguity.AmbiguousSomewhereExactly` | packages/abi-registry/src/taxonomyResolver.ts:295-331 | a loaded set is ambiguous for some event exactly when two entries of one scope kind with different names cover an event that no live, or current, entry of that kind takes from them; other kinds never matter |
| `TaxonomyAmbiguity.PlainSetAmbiguousExactly` | packages/abi-registry/src/taxonomyResolver.ts:258-331 | without supersession and deprecation, some event is ambiguous exactly when two entries with different names have scopes that can apply together and unifiable patterns |
| `TaxonomyAmbiguity.BestStandingClashExactly` | packages/abi-registry/src/taxonomyResolver.ts:295-331 | in any loaded set, two entries that none of their kind can displace clash exactly under that condition |
| `TaxonomyAmbiguity.SearchIsComplete` | packages/abi-registry/src/taxonomyResolver.ts:295-331 | whether any event is ambiguous is decided by the finitely many events made of the entries' own terms |
| `TaxonomyAmbiguity.DifferentPatternsClash` | packages/abi-registry/src/taxonomyResolver.ts:145-156 | a set with two patterns in one contract's scope loads and is ambiguous for an event |
| `TaxonomyAmbiguity.DifferentInterfacesClash` | packages/abi-registry/src/taxonomy.ts:555-582 | so does a set with one pattern for two interfaces |
| `TaxonomyAmbiguity.AllSupersededClash` | packages/abi-registry/src/taxonomyResolver.ts:301-305 | so does a set in which both entries of an excused overlap are superseded |
| `TaxonomyResolver.AmbiguityExplained` | packages/abi-registry/src/taxonomyResolver.ts:295-331 | on an accepted set, winners with different names have different patterns or different interfaces, or every covering entry is superseded |
| `TaxonomyResolver.EntryOrderIrrelevant` | packages/abi-registry/src/taxonomyResolver.ts:295-331 | the order of entries changes neither name, scope and deprecation nor whether resolution fails |
| `TaxonomyResolver.KeyDecidesMatching` | packages/abi-registry/src/taxonomy.ts:544-553 | two valid patterns have the same normalized key exactly when they match the same events |
| `TaxonomyResolver.ConflictHasWitness` | packages/abi-registry/src/taxonomy.ts:568-646 | every mapping conflict reported is witnessed by an event both entries cover at the same rank |
| `RegistryContract.Registry.PublishSpec` | contracts/registry/src/lib.rs:200-263 | the storage writes and lifetime extensions of a publish, in order, and its refusals |
| `RegistryContract.Registry.TouchEntries` | contracts/registry/src/lib.rs:388-431 | touching extends the stored entries among those named, counts them, and fails when there is none |
| `RegistryContract.ExtendAllEffect` | contracts/registry/src/lib.rs:30-44 | extending several entries affects exactly those named, each once |
| `RegistryCalls.PublishAcceptedExactly` | contracts/registry/src/lib.rs:200-230 | a publish is accepted exactly for a version and a pointer that are not empty, a version not yet published by this publisher for the contract, and entries none of which has expired; a refused one changes nothing |
| `RegistryCalls.PublishStores` | contracts/registry/src/lib.rs:222-251 | it stores the record with the time and ledger of the call, appends the version and makes it the latest, and leaves every other record and pair as they were |
| `RegistryCalls.PublishLifetimes` | contracts/registry/src/lib.rs:30-44 | it prolongs its three entries to 3,110,400 ledgers if at most 2,592,000 are left, and no other |
| `RegistryCalls.TouchAcceptedExactly` | contracts/registry/src/lib.rs:388-431 | a touch is accepted exactly for at most 25 versions, no expired entry and at least one stored, and returns how many of the entries it names are stored |
| `RegistryCalls.TouchProlongs` | contracts/registry/src/lib.rs:388-431 | it prolongs the stored entries it names in the same way and changes nothing else |
| `RegistryCalls.PageExactly` | contracts/registry/src/lib.rs:344-370 | a page holds the versions from its start on, at most 25 and no more than asked for, and names where the rest starts |
| `RegistryRuns.StepKeepsInv` | contracts/registry/src/lib.rs:200-263 | every action keeps version lists duplicate-free, in ledger order, one record each, `Latest` the last, and lifetimes bounded |
| `RegistryRuns.RunIsLater` | contracts/registry/src/lib.rs:222-251 | over every run version lists only grow at the end and no record ever changes |
| `RegistryRuns.LatestIsLast` | contracts/registry/src/lib.rs:275-287 | in every reachable state `latest` answers with the record of the last version listed |
| `RegistryRuns.PublishedOnce` | contracts/registry/src/lib.rs:217-230 | after a publish, every later publish of the same triple is refused and the record is still the first one |
| `RegistryRuns.PublishRefreshes` | contracts/registry/src/lib.rs:230-251 | a publish refreshes the three entries it writes and no other lifetime |
| `RegistryClient.ListVersions` | packages/abi-registry/src/OnChainAbiRegistryClient.ts:310-342 | the paging loop computes the specified pages; over a list that grows between pages it returns exactly the list as it stood at its last page |
| `RegistryClient.KeepPage` | packages/abi-registry/src/OnChainAbiRegistryClient.ts:310-342 | the filter of one page drops exactly the marked versions |
| `RegistryClient.RecordsAreStable` | packages/abi-registry/src/OnChainAbiRegistryClient.ts:227-238 | records fetched one by one in later states are those of the listing |
| `RegistryClient.SelectAt` | packages/abi-registry/src/OnChainAbiRegistryClient.ts:189-202 | the scan computes the specified selection |
| `RegistryClient.SelectedIsFirstOfNewest` | packages/abi-registry/src/OnChainAbiRegistryClient.ts:189-202 | the selection is the first record of the highest ledger not above the one asked for, and nothing exactly when all are newer |
| `RegistryClient.GetSpecAtIsHistoricalLatest` | packages/abi-registry/src/OnChainAbiRegistryClient.ts:189-342 | over every run, with actions before every page read and before every record read, a cold lookup by ledger selects the record `latest` gave at the end of that ledger exactly when that record's version is unmarked and alone in its ledger |
| `RegistryClient.TwoInOneLedger` | packages/abi-registry/src/OnChainAbiRegistryClient.ts:189-202 | a run that publishes two versions in one ledger: `latest` is the second, the lookup selects the first |
| `RegistryKeeper.TouchAll` | packages/abi-registry/scripts/touch-registry.ts:177-183 | the loop touches consecutive slices of at most 25 versions, stopping at a failure |
| `RegistryKeeper.TouchRefreshes` | contracts/registry/src/lib.rs:388-431 | one touch of listed, unexpired entries succeeds and leaves each above the threshold and at most at the maximum |
| `RegistryKeeper.PassRefreshesEverything` | packages/abi-registry/scripts/touch-registry.ts:164-184 | a pass over any number of versions leaves both indexes and every version refreshed |
| `RegistryKeeper.KeptEntriesNeverExpire` | packages/abi-registry/scripts/touch-registry.ts:64-184 | on every run with passes started at most a period apart and finished within a duration, publishes and touches interleaved, nothing the keeper lists ever expires, as long as period and duration together do not exceed the threshold plus one ledger |
| `RegistryKeeper.CadenceIsSafeExactly` | packages/abi-registry/scripts/touch-registry.ts:64-184 | from an empty registry that bound is exact: with a longer span some run expires a listed entry |
| `RegistryKeeper.DocumentedCadenceIsSafe` | contracts/registry/src/lib.rs:30-44 | 1,555,200 ledgers from listing to listing, the pass included, are safe from an empty registry |
| `RegistryKeeper.MarkedVersionExpires` | packages/abi-registry/scripts/touch-registry.ts:64-104 | a version the keeper skips by its name expires once its lifetime is used up, however timely the passes |
| `CodegenNames.EnsureUniqueName` | packages/abi-registry/src/generate.ts:37-50 | the search for a free suffix terminates and gives the specified name |
| `CodegenNames.UniqueNameIsNew` | packages/abi-registry/src/generate.ts:37-50 | the name given is unused, and is the base or the base with the least free suffix from 2 |
| `CodegenNames.PassNamesDistinct` | packages/abi-registry/src/generate.ts:446-456 | the names given in one pass are pairwise distinct whatever the bases |
| `CodegenMeaning.FirstKeepsItsName` | packages/abi-registry/src/generate.ts:37-50 | a base keeps its name exactly when no earlier one of the pass was given it |
| `Codegen.GenerateUdtDeclarations` | packages/abi-registry/src/generate.ts:359-413 | the pass over the user-defined types emits one type and one schema each, in order |
| `Codegen.GenerateEventDeclarations` | packages/abi-registry/src/generate.ts:440-470 | the pass over the events emits one interface and one schema each under the names of the pass |
| `Codegen.GenerateFunctionDeclarations` | packages/abi-registry/src/generate.ts:415-438 | the pass over the functions emits parameter and return types under names from one pool; a function without parameters gets a record of nothing |
| `Codegen.GenerateReactHooks` | packages/abi-registry/src/generate.ts:528-583 | the pass over the hooks, which works the names out afresh |
| `Codegen.FunctionNamesDistinct` | packages/abi-registry/src/generate.ts:415-438 | no two parameter or return type names of a spec coincide |
| `Codegen.EventAndHookNames` | packages/abi-registry/src/generate.ts:453-456 | interface and schema names are distinct, hooks refer to the same ones, and two hooks share a name exactly when the cased event names do |
| `CodegenMeaning.TypeMeaning` | packages/abi-registry/src/generate.ts:268-312 | which values have the type generated for each primitive and each constructor, one constructor at a time |
| `CodegenMeaning.SchemaMeaning` | packages/abi-registry/src/generate.ts:314-357 | which values its schema accepts |
| `CodegenMeaning.UdtMeaning` | packages/abi-registry/src/generate.ts:359-413 | a struct is what has all its fields under their cased names, an enum the text of a variant, a union what is tagged with a case and has its values |
| `CodegenMeaning.FunctionMeaning` | packages/abi-registry/src/generate.ts:415-438 | each function has one declaration, in order; its parameter interface asks for every parameter and is a record of nothing exactly for a function without any, and its result is of the type returned |
| `CodegenMeaning.EventMeaning` | packages/abi-registry/src/generate.ts:440-470 | each event has one interface and one schema, in order, for what has every field of its data |
| `CodegenAgreement.SchemasMatchTypesExactly` | packages/abi-registry/src/generate.ts:268-413 | for every type over any user-defined types, recursive ones included, the TypeScript type and the Zod schema have the same values exactly when nothing in the type is exposed: no field that may be left out, no interface that a value other than an object meets, at any depth |
| `CodegenAgreement.DifferenceIsExposed` | packages/abi-registry/src/generate.ts:268-413 | every value on which the two differ is explained by such an exposure |
| `CodegenAgreement.ExposureDiffers` | packages/abi-registry/src/generate.ts:268-413 | every exposure has a value on which the two differ |
| `CodegenAgreement.UdtMatchesExactly` | packages/abi-registry/src/generate.ts:359-413 | the same for each struct, enum and union declaration |
| `CodegenAgreement.PayloadMatchesExactly` | packages/abi-registry/src/generate.ts:440-470 | the same for the payload of an event |
| `CodegenAgreement.BorrowedExactly` | packages/abi-registry/src/generate.ts:367-373 | with one ordinary field name an interface is met by objects only; without fields it is met by other values |
| `CodegenAgreement.TightTypesAgree` | packages/abi-registry/src/generate.ts:268-413 | a check on the declarations alone suffices: ordinary fields, none of a type that admits undefined |
| `CodegenAgreement.MissingFieldParses` | packages/abi-registry/src/generate.ts:322-383 | the schema of a struct with a field of any value accepts the empty object, the interface does not |
| `CodegenAgreement.BooleanMeetsEmptyStruct` | packages/abi-registry/src/generate.ts:367-383 | a boolean meets the interface of a struct without fields, its schema refuses it |
| `CodegenAgreement.TextMeetsLength` | packages/abi-registry/src/generate.ts:367-383 | a text meets the interface of a struct with a length, its schema refuses it |
| `CodegenLoading.LoadsExactly` | packages/abi-registry/src/generate.ts:354-413 | the schema module loads exactly when declared names are distinct and every type mentioned is declared earlier |
| `CodegenLoading.RecursiveTypesDoNotLoad` | packages/abi-registry/src/generate.ts:354-413 | a type that mentions itself has a schema module that does not load |
| `LruCache.LruCache.Get` | packages/abi-registry/src/LruCache.ts:10-17 | a hit moves the entry to the end and a miss changes nothing |
| `LruCache.LruCache.Set` | packages/abi-registry/src/LruCache.ts:19-26 | the entry goes to the end and the oldest is evicted above capacity |
| `LruCache.LruCache.Delete` | packages/abi-registry/src/LruCache.ts:28-30 | removes the key and reports whether it was present |
| `LruCache.AfterKeepsInvariant` | packages/abi-registry/src/LruCache.ts:5-43 | no operation exceeds the capacity or repeats a key |
| `LruCache.SmallerIsIncluded` | packages/abi-registry/src/LruCache.ts:10-38 | on every trace the smaller cache's recency order is a subsequence of the larger's and the sizes differ by at most the capacities |
| `LruCache.HitsAreMonotone` | packages/abi-registry/src/LruCache.ts:10-38 | every hit in the smaller cache is the same hit in the larger |
| `LruRecency.ListedByLastUse` | packages/abi-registry/src/LruCache.ts:10-38 | on every trace from empty the list is ordered by last use, a set or a read that hits, and holds exactly the keys kept |
| `LruRecency.HitExactly` | packages/abi-registry/src/LruCache.ts:10-38 | on every trace from empty a read hits exactly when the key was set and not deleted or cleared since, and at no time since its last use had as many other keys been used and not deleted as the cache holds; a hit gives the value last set |
| `TtlLruCache.TtlLruCache.Get` | packages/abi-registry/src/TtlLruCache.ts:33-41 | an expired entry is deleted and missed, a live one returned and refreshed in recency |
| `TtlLruCache.TtlLruCache.Set` | packages/abi-registry/src/TtlLruCache.ts:43-45 | stores the value stamped with its expiry |
| `TtlLruCache.HitIsLastSet` | packages/abi-registry/src/TtlLruCache.ts:33-45 | on every trace a hit is the value last set for that key, aged at most the time to live |
| `LruRecency.TimedHitExactly` | packages/abi-registry/src/TtlLruCache.ts:33-45 | a read of the expiring cache hits exactly when the value was last set no longer than the time to live ago and the same holds, reading an expired entry counting as its deletion |
| `TtlLruCache.TimedHitsAreMonotone` | packages/abi-registry/src/TtlLruCache.ts:33-45 | the inclusion of a smaller cache in a larger one carries over to the expiring cache |
| `SwrCache.SwrCache.StartGet` | apps/web/lib/hostedRegistryApi.ts:51-68 | the decision between fresh, stale with a background refresh, and a blocking fetch |
| `SwrCache.SwrCache.TriggerBackgroundRefresh` | apps/web/lib/hostedRegistryApi.ts:75-88 | at most one background refresh is started at a time |
| `SwrCache.SwrCache.StoreFetched` | apps/web/lib/hostedRegistryApi.ts:90-95 | a completed fetch replaces the entry under its completion time |
| `SwrCache.EveryResultIsHonest` | apps/web/lib/hostedRegistryApi.ts:42-95 | on every interleaving fresh results are just fetched or within the time to live, stale ones within the stale window, at most one refresh runs, and the entry is never lost or aged |
| `SwrCache.FromTheStart` | apps/web/lib/hostedRegistryApi.ts:42-95 | the same from an empty cache |
| `SwrCache.HoldsTheLatestFetch` | apps/web/lib/hostedRegistryApi.ts:75-95 | on every interleaving the entry is the fetch that finished last |
| `SwrCache.ReadsExactly` | apps/web/lib/hostedRegistryApi.ts:51-88 | after any interleaving a read is answered with that fetch, fresh or stale by its age, begins a refresh exactly when stale with none running, and awaits a fetch of its own exactly when there is nothing to answer with |
| `ReadPolicy.AtMostTwiceTheLimit` | apps/web/lib/registryReadPolicy.ts:23-32 | on every trace with a monotone clock no key is granted more than 2·limit−1 requests in any half-open minute |
| `ReadPolicy.BoundIsAttained` | apps/web/lib/registryReadPolicy.ts:23-32 | for every limit some trace reaches that bound |
| `ReadPolicy.RefusedOnlyWhenSpent` | apps/web/lib/registryReadPolicy.ts:23-32 | a request is refused only when the whole limit was granted to its key within the last minute |
| `ReadPolicy.MinuteBucketCounts` | apps/web/lib/registryReadPolicy.ts:123-131 | a bucket keyed by the aligned minute counts exactly the grants of that minute |
| `RegistryReads.RegistryReadPolicy.BeginRead` | apps/web/lib/registryReadPolicy.ts:106-131 | a request up to its load: the two limiters, the live cache, the chain-read budget, the stale fallback |
| `RegistryReads.RegistryReadPolicy.CompleteRead` | apps/web/lib/registryReadPolicy.ts:133-137 | a loaded body is cached under the time the request began; a finished response is passed on |
| `RegistryReads.GrantMeansRoom` | apps/web/lib/registryReadPolicy.ts:123-131 | a chain read is granted exactly while the minute's loads are below the limit |
| `RegistryReads.ReadsAreHonest` | apps/web/lib/registryReadPolicy.ts:106-141 | however requests interleave, a live body comes from a load begun under 30 s before, a stale one under 5 min before and only once 300 loads were begun in that minute, and no minute begins more |
| `RegistryReads.ServedWithinLimits` | apps/web/lib/registryReadPolicy.ts:106-121 | on every run at most 239 requests of one address and 1199 of one key are served in any half-open minute |
| `RegistryReads.RefusedForCause` | apps/web/lib/registryReadPolicy.ts:106-121 | a request is refused for its address or its key only when 120, or 600, of them were served within the last minute |
| `RegistryReads.AnsweredExactly` | apps/web/lib/registryReadPolicy.ts:117-141 | after any run, which answer a request that passes the limiters gets: live, a load of its own, stale, or a refusal, by the age of the body loaded last and the loads of the minute |
| `Payroll.Token.Transfer` | contracts/payroll/src/lib.rs:261-264 | a well-behaved token moves the amount or fails without effect |
| `Payroll.PayrollContract.ConfigureOnce` | contracts/payroll/src/lib.rs:155-192 | configuration is checked and stored once |
| `Payroll.PayrollContract.FundFrom` | contracts/payroll/src/lib.rs:200-211 | funding moves the amount from the funder to the contract |
| `Payroll.PayrollContract.DisburseNext` | contracts/payroll/src/lib.rs:230-277 | a disbursement that is due and covered pays every recipient and consumes one window; otherwise nothing changes |
| `Payroll.PayrollContract.WithdrawToOwner` | contracts/payroll/src/lib.rs:285-300 | a withdrawal moves the amount to the owner |
| `Payroll.TransferCovered` | contracts/payroll/src/lib.rs:244-264 | after the balance check every transfer of the loop is covered |
| `Payroll.EveryTokenAccountedFor` | contracts/payroll/src/lib.rs:200-300 | on every run each account holds its start, plus the amounts of the accepted deposits, withdrawals and transfers it took part in, plus what it is owed for each window paid, less, for the contract, the window's total |
| `Payroll.ContractBalance` | contracts/payroll/src/lib.rs:200-300 | on every run the contract holds its start plus deposits and transfers received, less withdrawals, less the full total for each window paid, when it is neither recipient nor owner |
| `Payroll.RecipientPaidPerWindow` | contracts/payroll/src/lib.rs:261-264 | on every run a recipient gains, beside its own transfers, what it is owed once per window paid |
| `Payroll.SupplyNeverChanges` | contracts/payroll/src/lib.rs:200-300 | no run changes the sum of all balances |
| `Payroll.WindowsInOrder` | contracts/payroll/src/lib.rs:230-277 | windows are paid in order, each once and none before it is due |
| `PayrollRuns.ConfigureAcceptedExactly` | contracts/payroll/src/lib.rs:155-192 | from creation on, a configuring action is accepted exactly for 1 to 25 positive lines and a positive period, and if none was accepted before |
| `PayrollRuns.NothingBeforeConfiguring` | contracts/payroll/src/lib.rs:200-300 | until then every deposit, disbursement and withdrawal fails and changes nothing |
| `PayrollRuns.PaidFromTheStart` | contracts/payroll/src/lib.rs:230-243 | on every run from creation the windows paid are 0, 1, 2, ..., window k not before k + 1 periods after the configuring action |
| `PayrollRuns.DisbursedExactly` | contracts/payroll/src/lib.rs:230-277 | a disbursement pays window k exactly when k windows were paid, k + 1 periods have passed since the configuring action, and the contract holds the sum of that action's lines; each account then gets the sum of its lines |
| `PayrollRuns.WithdrawnExactly` | contracts/payroll/src/lib.rs:285-300 | a withdrawal is accepted exactly when positive and covered, and goes to the configuring action's owner |
| `PayrollRuns.FundedExactly` | contracts/payroll/src/lib.rs:200-211 | a deposit is accepted exactly when positive and covered by its sender, and goes to the contract |
| `PayrollRuns.AccountsFromTheStart` | contracts/payroll/src/lib.rs:155-300 | on every run from creation each account is accounted for by the configuring action's owner and lines |
| `PayrollRuns.TotalIsTheSum` | contracts/payroll/src/lib.rs:244-246 | the total is the sum of the lines, and what an account is owed the sum of its own |
| `Payroll.FullTotalLeavesExactly` | contracts/payroll/src/lib.rs:261-264 | a window's full total leaves the contract exactly when no recipient is the contract itself |
| `PayrollReentrancy.WindowsConsumedOnce` | contracts/payroll/src/lib.rs:230-264 | with a token that calls back at will, windows are consumed 0, 1, 2, ... once each exactly when no transaction makes a call succeed in the balance query of a call that succeeds; otherwise one is consumed twice |
| `PayrollReentrancy.NeverEarly` | contracts/payroll/src/lib.rs:230-243 | whatever the token does, no window is consumed before it is due |
| `PayrollReentrancy.DisbursesExactly` | contracts/payroll/src/lib.rs:230-264 | a call succeeds, consuming its window, exactly when the window is due, the balance reported covers the total and no transfer traps; otherwise it leaves nothing |
| `PayrollReentrancy.NestedInBalanceQuery` | contracts/payroll/src/lib.rs:244-256 | one disbursement nested in a balance query consumes window 0 twice |
| `PayrollReentrancy.TransferReentrySafe` | contracts/payroll/src/lib.rs:254-264 | a token that re-enters only from transfers cannot make a window be consumed twice or early |
| `VerifySchema.TypeComparisonIsEquality` | packages/abi-registry/src/verifySchema.ts:73-184 | the comparison decides structural equality of arbitrarily nested types |
| `VerifySchema.DeclarationComparisonIsEquality` | packages/abi-registry/src/verifySchema.ts:207-256 | the comparison of user-defined types is equality up to documentation |
| `VerifySchema.IndexByName` | packages/abi-registry/src/verifySchema.ts:258-290 | the by-name index keeps the last declaration of each name |
| `VerifySchema.SectionDiffs` | packages/abi-registry/src/verifySchema.ts:258-380 | the collector of one section reports exactly the differences that hold, each once |
| `VerifySchema.CollectDiffs` | packages/abi-registry/src/verifySchema.ts:258-428 | the collector over functions, events and types, which are looked up with the names every object inherits, reports exactly the differences that hold, each once |
| `SchemaReport.ByNameIsLast` | packages/abi-registry/src/verifySchema.ts:274-276 | a name stands for the last declaration that bears it |
| `SchemaReport.MissingMeans` | packages/abi-registry/src/verifySchema.ts:258-380 | what the lines on lengths and on names that one side alone has say |
| `SchemaReport.FunctionLinesMean` | packages/abi-registry/src/verifySchema.ts:300-325 | the lines on a function say that its parameters, or its result, differ |
| `SchemaReport.EventLinesMean` | packages/abi-registry/src/verifySchema.ts:360-380 | the lines on an event say that its topics, or its data, differ |
| `SchemaReport.TypeLinesMean` | packages/abi-registry/src/verifySchema.ts:385-428 | what the lines on types say, inherited names included |
| `VerifySchema.EmptyReportExactly` | packages/abi-registry/src/verifySchema.ts:258-428 | the report is empty exactly when there are as many declarations and they agree name by name up to documentation, beside the on-chain types that go unnoticed for their inherited names |
| `VerifySchema.EmptyBothWays` | packages/abi-registry/src/verifySchema.ts:258-428 | empty reports both ways round mean agreement, types included |
| `VerifySchema.InheritedNameUnnoticed` | packages/abi-registry/src/verifySchema.ts:395-414 | an empty submission matches a contract with a type named `constructor`, and not the other way round |
| `VerifySchema.EmptyReportUpToOrder` | packages/abi-registry/src/verifySchema.ts:258-428 | with unique names that is equality up to order of functions and events, beside the unnoticed types |
| `VerifySchema.RepeatedNamesHideDifferences` | packages/abi-registry/src/verifySchema.ts:258-290 | with repeated names the report can be empty although the lists differ |
| `VerifySchema.MatchIsPreorder` | packages/abi-registry/src/verifySchema.ts:483-542 | the match verdict is reflexive and transitive, and a match is symmetric exactly when no type went unnoticed |
| `EventStream.StreamEvents` | apps/web/components/LiveDemo.tsx:42-75 | the reading loop delivers the specified callbacks |
| `EventStream.HandleAll` | apps/web/components/LiveDemo.tsx:54-74 | the loop over complete frames, with its early stop |
| `EventStream.SplitIsCutAtBlankLines` | apps/web/components/LiveDemo.tsx:51-52 | splitting at double newlines, leftmost first, is what cuts the frames |
| `EventStream.LinesAreCutAtNewlines` | apps/web/components/LiveDemo.tsx:54-55 | the lines of a frame rejoin to it and contain no newline |
| `EventStream.FrameWithoutData` | apps/web/components/LiveDemo.tsx:54-57 | a frame without a data line causes no call |
| `EventStream.FrameWithData` | apps/web/components/LiveDemo.tsx:54-73 | the payload is the first data line, the stream stops exactly when the first event line is session_expired, and then the limit callback is made, otherwise the event callback, if the payload parses |
| `EventStream.HandledInTurn` | apps/web/components/LiveDemo.tsx:54-74 | the frames are handled in order up to the first that stops the stream |
| `EventStream.ReaderReadsWhole` | apps/web/components/LiveDemo.tsx:42-75 | incremental reading gives the callbacks of the text read in one piece |
| `EventStream.CuttingIsIrrelevant` | apps/web/components/LiveDemo.tsx:42-75 | two ways of cutting the same text give the same callbacks and the same stop |
| `AutoPublish.Indexer.Ensure` | packages/orbital-indexer/src/AutoPublishIndexer.ts:101-115 | a call backs off, joins the running discovery or starts one |
| `AutoPublish.Indexer.BackOff` | packages/orbital-indexer/src/AutoPublishIndexer.ts:144-153 | a contract without a spec is left alone for the configured time |
| `AutoPublish.Indexer.Forget` | packages/orbital-indexer/src/AutoPublishIndexer.ts:110-113 | a settled discovery leaves the in-flight map |
| `AutoPublish.IndexersAreSafe` | packages/orbital-indexer/src/AutoPublishIndexer.ts:101-203 | on every interleaving of any number of indexers with each other and with everyone else who uses the on-chain registry, the in-flight maps hold exactly the running discoveries, each publishes at most twice, of all publishes of one triple exactly one is accepted, and what a reply reported stays true |
| `AutoPublish.OneDiscoveryPerContract` | packages/orbital-indexer/src/AutoPublishIndexer.ts:101-115 | an indexer never runs two discoveries of one contract |
| `AutoPublish.StartsExactly` | packages/orbital-indexer/src/AutoPublishIndexer.ts:101-115 | a call starts a discovery exactly when the contract is not being backed off from and none is running |
| `AutoPublish.FindingNoneBacksOff` | packages/orbital-indexer/src/AutoPublishIndexer.ts:144-153 | a discovery that finds no interface returns nothing and sets the retry time |
| `AutoPublish.NoDiscoveryWhileBackingOff` | packages/orbital-indexer/src/AutoPublishIndexer.ts:101-115 | until the retry time no call starts a discovery of the contract, whatever happens in between |
| `AutoPublish.PublishEndsExactly` | packages/orbital-indexer/src/AutoPublishIndexer.ts:161-203 | how a publish call ends: when the spec is returned, when it is tried a second and last time, and when it throws |
| `AutoPublish.ReturnedIsStoredExactly` | packages/orbital-indexer/src/AutoPublishIndexer.ts:161-202 | after a publish call a returned spec's triple is stored exactly unless the caller saw a generic contract error and it was not stored before |
| `AutoPublish.ReturnedIsFiledExactly` | packages/orbital-indexer/src/AutoPublishIndexer.ts:161-202 | and the record stored is the returned spec's exactly when it was recorded by that call or had been before |
| `AutoPublish.ReturnedSpecsAfterAnyRun` | packages/orbital-indexer/src/AutoPublishIndexer.ts:101-203 | after any run from an empty registry, what was recorded stays filed, and a returned spec that is nowhere stored was returned on a generic contract error |
| `AutoPublish.RefusalTakenForSuccess` | packages/orbital-indexer/src/AutoPublishIndexer.ts:171-181 | a run in which an indexer returns a spec that is nowhere stored |
| `AutoPublish.ReturnsAnotherSpecThanFiled` | packages/orbital-indexer/src/AutoPublishIndexer.ts:171-181 | a run in which it returns a spec other than the one stored under its triple |
| `Amount.AcceptedExactly` | packages/pulse-core/src/amount.ts:21-40 | accepted are exactly the non-empty unsigned texts of digits and at most one dot, with an optional leading minus |
| `Amount.LoneDotIsZero` | packages/pulse-core/src/amount.ts:21-43 | a lone dot, signed or not, is accepted as zero |
| `Amount.StroopsRoundTrip` | packages/pulse-core/src/amount.ts:21-56 | every integer survives being written and read back |
| `Amount.TextRoundTripExactly` | packages/pulse-core/src/amount.ts:21-56 | a text is reproduced by reading and writing exactly when it has seven decimals, no leading zeros and no negative zero |
| `Amount.TruncatesTowardZero` | packages/pulse-core/src/amount.ts:31-43 | the result is the exact amount in stroops truncated toward zero, less than one stroop off |
| `Amount.OrderIsKept` | packages/pulse-core/src/amount.ts:21-43 | a larger amount never reads as fewer stroops, however many decimals it is written with |
| `Bits.MaskIsRemainder` | packages/abi-registry/src/scval.ts:444-496 | masking an unbounded integer with n ones is the remainder modulo 2^n, negative integers included |
| `Bits.OrOfDisjoint` | packages/abi-registry/src/decode.ts:375-404 | shifting and or-ing a smaller limb under a larger one is addition |
| `Limbs.JoinInvertsSplit` | packages/abi-registry/src/scval.ts:444-496 | joining the limbs of any integer gives it back, for two and for four limbs |
| `Limbs.LimbsFitExactly` | packages/abi-registry/src/scval.ts:444-496 | the limbs fit their signed and unsigned slots exactly when the integer is in the type's range |
| `Limbs.SplitInvertsJoin128` | packages/abi-registry/src/decode.ts:375-386 | no two pairs of fitting limbs denote the same integer |
| `Limbs.SplitInvertsJoin256` | packages/abi-registry/src/decode.ts:387-404 | the same for four limbs |
| `ScVals.DecodeXdrScVal` | packages/abi-registry/src/decode.ts:360-444 | the decoder computes the specified value or fault |
| `ScVals.DecodeVec` | packages/abi-registry/src/decode.ts:418-427 | the loop over a vector stops at the first fault and names its index |
| `ScVals.DecodeMap` | packages/abi-registry/src/decode.ts:428-440 | the loop over a map, keys before values |
| `ScVals.DecodedExactly` | packages/abi-registry/src/decode.ts:360-444 | a value is decoded exactly when no kind the decoder does not know occurs in it |
| `ScVals.NestedRoundTrip` | packages/abi-registry/src/scval.ts:68-258 | every value of a type, however deeply nested, encodes into fitting limbs and decodes to itself with wide integers as decimal and bytes as hexadecimal text |
| `ScVals.BytesTextEncodes` | packages/abi-registry/src/scval.ts:110-124 | the hexadecimal text that bytes decode to encodes to the same bytes |
| `ScVals.AddressTextEncodes` | packages/abi-registry/src/scval.ts:132-143 | the strkey that an address decodes to encodes to the same address |
| `ScVals.EncodingIsInjective` | packages/abi-registry/src/scval.ts:68-258 | two values of a type decode alike after encoding exactly when they are the same |
| `ScVals.PairsEncodeAsEntries` | packages/abi-registry/src/scval.ts:204-238 | an array of pairs encodes as the map with those entries |
| `ScVals.InstantsAreRefused` | packages/abi-registry/src/scval.ts:97-101 | a timepoint or duration is encoded, but its encoding is not decoded |
| `ScValMeaning.EncodesAsTyped` | packages/abi-registry/src/scval.ts:68-258 | every value of a type, instants included, encodes as a contract value of the kind the type names, with limbs that fit and add up to the integer |
| `ScValMeaning.ScalarReadAs` | packages/abi-registry/src/decode.ts:360-417 | what each scalar is read as, wide integers as decimal text of the sum of their limbs, bytes as lower-case hexadecimal |
| `ScValMeaning.VecReadAs` | packages/abi-registry/src/decode.ts:418-427 | a vector is read as the list of what its items are read as |
| `ScValMeaning.VecFault` | packages/abi-registry/src/decode.ts:418-427 | its fault is that of the first item that does not decode, with its index |
| `ScValMeaning.MapReadAs` | packages/abi-registry/src/decode.ts:428-440 | a map is read entry by entry, keys as keys and values as values |
| `ScValMeaning.MapFault` | packages/abi-registry/src/decode.ts:428-440 | its fault is that of the first entry that does not decode, of the key if that does not |

## Left out

- Numbers in canonical JSON are integers; the text of floating-point numbers is not modelled.
- Messages and paths of errors; a fault says which check failed, and in the value decoder also where.
- SHA-256 is the constructor of a hash and its hexadecimal order an injective ranking; signature verification, key validity and date parsing are functions the theorems leave arbitrary.
- Taxonomy.Load: an entry's title, description, parameters and provenance, and their validation, are left out; the tests on id, version, name, pattern, scope and superseded ids are the source's.
- TaxonomyAmbiguity.AmbiguousSomewhereExactly: an event's contract id is any text, as in the source's type, so that one no entry names always exists.
- RegistryClient.GetSpecAtIsHistoricalLatest: every page is answered; a simulation without a result ends the listing early (`RegistryClient.ListVersions` says with what).
- The warm paths of the client's record and spec caches, transport retries and restore data; the pager's page arithmetic is unbounded, so overflow of `start + limit` in 32 bits is not modelled.
- RegistryContract.Registry.PublishSpec: authorization and the emitted event are not modelled.
- Operator and offering registration, which repeat the spec store.
- SwrCache.EveryResultIsHonest: `clear` is not among the events.
- RegistryReads.RegistryReadPolicy.BeginRead: query validation, entity tags and conditional answers are left out.
- CodegenAgreement.SchemasMatchTypesExactly: Zod is not part of this model. It is read as accepting undefined for a missing key, refusing anything but plain objects for an object schema, and accepting arrays of exactly its length for a tuple. Numbers are integers (no NaN or infinities), inherited members are values of which nothing is known, and the characters of a text are not members. Fields of a struct must be cased to distinct properties and cases of a union have distinct names.
- The casing of names is a parameter, so names that case to the same identifier are covered by hypotheses; names that are not identifiers, quotes inside variant names and the raw XDR path of the generator are not modelled.
- ScVals.NestedRoundTrip: errors, results and contract instances are not modelled, nor are objects and entry records as map input, inference of a type that is not given, and what the SDK does with a limb that does not fit. An address is its strkey text; which texts are strkeys is a parameter.
- The JSON form of contract values (`decodeScVal` and its helpers), XDR and WASM parsing.
- Payroll.PayrollContract.ConfigureOnce: the owner's authorization and the token's address are not modelled.
- Payroll.PayrollContract.FundFrom: the funder's authorization is not modelled.
- Payroll.PayrollContract.WithdrawToOwner: the owner's authorization is not modelled.
- PayrollReentrancy.WindowsConsumedOnce: an arbitrary token has no balances to speak of; only windows and times are followed.
- Payroll.Token.Transfer: this token is well behaved; one that calls back is the subject of `PayrollReentrancy`.
- EventStream.StreamEvents: text decoding and JSON parsing of a frame's data are a parameter, and network errors are left out.
- AutoPublish.IndexersAreSafe: lookup, discovery and hosting of the blob are steps with arbitrary outcomes, and the message of a failed publish is arbitrary, except that only the registry's own refusal is reported under the name `AlreadyPublished`. Rehearsing publishers (`dryRun`) are left out.
- Configuration and spec hashes, status machines, back-off, and all network, file and database access.
