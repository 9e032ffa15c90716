# Verified model of the research_evolution kernel

A Dafny model of the parts of `research_evolution` on which its record hashes,
its append-only store, its receipts and its evaluation numbers depend, with
proofs of what those parts promise. `dafny verify dfyconfig.toml` checks all of
it.

## What is modelled

- **Strict JSON and canonical text.** Texts are sequences of code points,
  numbers are exact decimals (sign, coefficient, exponent). `Grammar` states the
  RFC 8259 grammar (sections 2 and 4 to 7) as concrete syntax trees with a
  rendering and a meaning, plus the stricter rules: distinct decoded keys, depth
  at most 500, 4300-digit and scale limits, no unpaired surrogates, an object at
  top level. `StrictJson` holds the parser twice, as recursive functions and as
  the frame-stack machine proved equal to them; `ParserTheorems` proves that
  loading succeeds on exactly the strict documents. `Canonical` holds the
  marker-stack serializer, proved equal to a recursive printer; `RoundTrip`
  proves that parser and serializer undo each other and that canonical text
  decides JSON equality. `RecordCopy` is the work-list copy on the heap that
  keeps a record bound to its hash.
- **The append-only store.** `Manifest` and `Store` model manifest text, record
  files and reconciliation. `Publication` states what a publish decides and that
  each prefix of its four effects leaves one of four disk shapes; `PublishRecord`
  is the publish itself on a store root whose nodes it changes in place, with a
  failure possible at every effect; `PublishRuns` is the state machine of any
  number of publishers and verifiers under the root's lock, with failures and
  crashes at any point, and the theorems over whole runs. `VerifyStore` joins
  reconciliation and the record graph into the verifier's report.
- **The record graph.** `LineageCycles` is the cycle search, `GraphCheck` the
  collecting loops of the graph verifier with what they report, `Graph` the
  meaning of an empty report and what follows from it over whole chains, link
  components and packages. The family registry is a parameter.
- **Dependency order.** `DependencyOrder` is the min-heap loop, whose order is
  the only one a receipt accepts, and the variant with its own checks.
- **Exact statistics.** `Binomial` (McNemar), `Permutation`, `ClopperPearson` and
  `Holm`, over exact reals; the random generator is an arbitrary source of bits.
- **Process containment.** `Containment` interleaves two pipe readers, the stdin
  writer and the supervisor.

Code that works step by step is written as methods with loops, classes and
arrays, each proved against a specification function or predicate; the lemmas
are about those specifications.

## Assumptions

`Publication.KernelOk` lists what is taken from outside: the content hash is
injective digest text, publishable families have two-part names whose record
paths pass the path rule, and validation does not tell JSON-equal values apart.
`KernelExample` shows that these can be met together. An injective hash cannot
have a fixed length, so a digest is a hex text whose length satisfies a
predicate of the kernel, which stands for the 64 digits of the pattern.
`GraphCheck.PairsSymmetric`, `Graph.LinksRegistered`, `Graph.ChainRegistered`
and `Graph.Shaped` state the facts of the registry
(src/research_evolution/core/_families.py:160-287) and of schema validation that
the graph code relies on.

## Behaviour worth knowing

- Publishing into a root directory that exists without a manifest is refused,
  even when it is empty (`Publication.ResidueBlocks`).
- While another record's orphan is present every publish is refused, an exact
  replay included (`Publication.OtherOrphanBlocks`).
- Case closure does not follow a member observation that no member analysis
  anchors (`Graph.UnanchoredObservationIgnored`).
- Holm's adjustment runs over all metrics, but only primary metrics read the
  adjusted value; guardrails are judged by their interval alone
  (`Holm.InferenceStatus`).

## Model

| member | source | states |
|---|---|---|
| `Json.WalkTree` | src/research_evolution/core/_walk.py:19-38 | The stack walk visits every node and succeeds exactly when every node passes the visitor and lies at depth 500 or less; it terminates because the number of nodes still waiting falls |
| `Json.EqualIffSameNormal` | src/research_evolution/core/_schema.py:526-553 | On values of the data model, JSON equality (`1` equals `1.0`, `true` differs from `1`) holds exactly when the normal forms are identical |
| `Json.EqualIsEquivalence` | src/research_evolution/core/_schema.py:526-553 | JSON equality is reflexive, symmetric and transitive on the data model |
| `Numbers.NormalDecidesEquality` | src/research_evolution/core/_schema.py:495-501 | Two decimals denote the same number exactly when their stripped forms agree, for any sign, coefficient and exponent |
| `Numbers.DumpNormal` | src/research_evolution/core/_canonical.py:140-154 | The canonical text of a number depends only on the number it denotes: integers print as integers, fractions without trailing zeros, zero without a sign |
| `StrictJson.SkipWs` | src/research_evolution/core/_strict_json.py:114-117 | The loop stops at the first code point that is not JSON white space |
| `StrictJson.ParseString` | src/research_evolution/core/_strict_json.py:229-275 | The string loop with its escapes and surrogate pairs computes the recursive reading of a string |
| `StrictJson.ParseObjectKey` | src/research_evolution/core/_strict_json.py:219-226 | Key, colon and surrounding white space are read as the recursive grammar reads them |
| `StrictJson.ParseDocument` | src/research_evolution/core/_strict_json.py:120-216 | The frame-stack machine with its closing cascade terminates on every text and gives the answer of the recursive descent, errors included |
| `StrictJson.LoadStrictJson` | src/research_evolution/core/_strict_json.py:67-93 | Blank input, parse errors, unpaired surrogates, excess depth and a top level that is not an object are refused; otherwise the parsed object is returned |
| `ParserTheorems.ValueComplete` | src/research_evolution/core/_strict_json.py:120-211 | Every strict value of the RFC 8259 grammar followed by a delimiter is read, with the meaning the grammar gives it, to exactly its end |
| `ParserTheorems.ValueSound` | src/research_evolution/core/_strict_json.py:120-211 | Whatever value is read, with no unpaired surrogate in it, is the text of a strict value of the RFC 8259 grammar with that meaning |
| `ParserTheorems.LoadIsStrictGrammar` | src/research_evolution/core/_strict_json.py:67-353 | Loading a text gives v if and only if the text is a RFC 8259 document with an object at top level, distinct decoded keys, numbers within the limits, no unpaired surrogate and depth at most 500, whose meaning is v; so no in-parse check refuses what the walk would accept |
| `ParserTheorems.LoadedIsAcceptable` | src/research_evolution/core/_strict_json.py:67-93 | Everything loaded is an object that the serializer accepts |
| `ParserTheorems.StrictWalks` | src/research_evolution/core/_strict_json.py:338-353 | The meaning of a strict value passes the model check and the surrogate check at its depth |
| `Canonical.DumpLoop` | src/research_evolution/core/_canonical.py:87-137 | The marker-stack loop prints exactly what the recursive printer prints |
| `Canonical.CanonicalBytes` | src/research_evolution/core/_canonical.py:60-79 | Model check, then printing, then the encodability check decide between the canonical text and an error |
| `RoundTrip.CanonicalAccepts` | src/research_evolution/core/_canonical.py:60-79 | Serialization succeeds exactly on values within the data model, depth and digit limits and without surrogates |
| `RoundTrip.LoadOfDump` | src/research_evolution/core/_canonical.py:87-154 | The printed text of an acceptable object is a strict document that loads as the normal form of the object |
| `RoundTrip.LoadOfCanonical` | src/research_evolution/core/_canonical.py:60-154 | For every object the serializer accepts: its canonical text loads, the loaded value is JSON-equal to the object, and it serializes to the same text |
| `RoundTrip.CanonicalDecidesEquality` | src/research_evolution/core/_canonical.py:87-154 | Two accepted values have the same canonical text if and only if they are JSON-equal |
| `RoundTrip.CanonicalOfLoaded` | src/research_evolution/core/_strict_json.py:67-93 | Every loaded object can be serialized, and loading that text gives a JSON-equal object |
| `RoundTrip.NormalizeIdempotent` | src/research_evolution/core/_canonical.py:146-154 | The normal form is its own normal form |
| `RoundTrip.DumpClean` | src/research_evolution/core/_canonical.py:60-79 | The printed text is free of surrogates exactly when every string and key in the value is |
| `RecordCopy.CopyTree` | src/research_evolution/core/records.py:45-75 | The work-list copy terminates and returns a tree that stands for the same JSON value and is made of newly created containers only |
| `RecordCopy.FillLast` | src/research_evolution/core/records.py:62-74 | Doing the last task puts its value into its one slot and leaves every other slot and every other container as it was, so each slot is still pending or filled |
| `RecordCopy.DepictsOne` | src/research_evolution/core/records.py:45-52 | A heap tree stands for one JSON value only, so source and copy are structurally equal |
| `RecordCopy.HashBound.constructor` | src/research_evolution/core/records.py:94-105 | A record keeps its own fresh copy of the payload, and its hash is the hash of the canonical text of that copy |
| `RecordCopy.HashBound.Data` | src/research_evolution/core/records.py:111-114 | The accessor returns a fresh copy that shares no container with the record |
| `RecordCopy.StaysBound` | src/research_evolution/core/records.py:78-90 | Any change to containers outside the record leaves it bound to its hash |
| `Manifest.RelPathInjective` | src/research_evolution/core/_store.py:379-381 | Family and hash can be recovered from a record path |
| `Manifest.ManifestDependsOnSet` | src/research_evolution/core/_store.py:394-412 | The manifest text depends only on the set of entries |
| `Manifest.ParseManifest` | src/research_evolution/core/_store.py:415-490 | Manifest text is accepted with entries es exactly when it is a strict document of exactly the two keys whose items read as es (digest pattern, safe path and path text included), with distinct keys and paths |
| `Manifest.WrittenManifestLists` | src/research_evolution/core/_store.py:394-490 | Reading back a written manifest gives the sorted entries: writing and reading are inverse |
| `Store.LoadRecord` | src/research_evolution/core/records.py:128-157 | Strict parsing, the schema field and validation decide whether a text is a record |
| `Store.LoadDiskRecord` | src/research_evolution/core/_store.py:608-658 | Taking the path apart (four parts, `records`, digest file name, directory family) and comparing family, digest, canonical bytes and identity accepts exactly the files that lie at their record's own path |
| `Store.PathChecks` | src/research_evolution/core/_store.py:611-649 | The checks on the four parts of a path, the directory family and the digest in the file name come to equality with the path built from the record |
| `Store.ScanRecords` | src/research_evolution/core/_store.py:774-798 | The scan keeps the usable records with distinct (family, id), files each under its family and id in the catalog, and reports a problem as soon as one file is unusable or repeats an id |
| `Store.CatalogMore` | src/research_evolution/core/_store.py:796-797 | Filing one more record with a (family, id) of its own is what it adds to the catalog of the records found |
| `Store.CheckEntries` | src/research_evolution/core/_store.py:799-823 | The entry loop reports nothing exactly when every entry has a file with its family and id |
| `Store.FindExtras` | src/research_evolution/core/_store.py:824-826 | The last loop finds exactly the usable files no entry names, in path order |
| `Store.ReconcileStore` | src/research_evolution/core/_store.py:661-837 | No problem is reported if and only if the store is clean or the root is bare (no manifest, no records directory), and then the catalog holds every file's record; the one finding `extra_record rel` is reported if and only if the store is clean but for one complete record at rel |
| `Publication.StoredRecord` | src/research_evolution/core/publication.py:182-235 | A publishable record written to its path reads back as a usable record with the same family and id |
| `Publication.SamePathSameBytes` | src/research_evolution/core/_store.py:542-552 | A usable file at a record's path holds that record's canonical bytes |
| `Publication.ShapesExclusive` | src/research_evolution/core/publication.py:269-280 | A store has at most one orphan, and the four disk shapes exclude each other |
| `Publication.EntriesMatchFiles` | src/research_evolution/core/_store.py:799-826 | In a store with at most one orphan, entries and the other record files correspond one to one, and each entry carries the family, id, hash and path of the record its file holds |
| `Publication.EffectsGood` | src/research_evolution/core/publication.py:305-320 | Whichever of the four effects a publish stops after, the disk is absent, a first-publish residue, clean, or clean plus one orphan; after all four it is clean |
| `Publication.FullPublish` | src/research_evolution/core/publication.py:305-320 | After the link the record is the only orphan; after the manifest the store is clean and lists exactly the old entries and the new one |
| `Publication.PublishOnClean` | src/research_evolution/core/publication.py:269-320 | On a clean store a new (family, id) is published by adding one file and one entry, the same content is a replay, other content under a taken id is refused |
| `Publication.OwnOrphanIsAdopted` | src/research_evolution/core/_store.py:542-587 | Publishing the orphan's own record again goes ahead, changes no file, and ends in a clean store |
| `Publication.OtherOrphanBlocks` | src/research_evolution/core/publication.py:274-280 | While another record's orphan is present every publish is refused, an exact replay included |
| `Publication.CleanStoreDetermined` | src/research_evolution/core/_store.py:394-412 | Two clean stores with records at the same paths have the same bytes and the same manifest |
| `Publication.DecideOnShape` | src/research_evolution/core/publication.py:269-304 | On a clean store, or one with the record's own orphan, the decision is go, replay or id taken according to the entries alone |
| `PublishRecord.FindEntry` | src/research_evolution/core/publication.py:287-288 | The index finds the entry with a given (family, id) if there is one |
| `PublishRecord.StoreRoot.CreateRecordFile` | src/research_evolution/core/_store.py:542-587 | Directories are made first; the link never overwrites, adopts identical bytes and fails on others |
| `PublishRecord.StoreRoot.Publish` | src/research_evolution/core/publication.py:182-320 | The outcome and the disk after a publish: refused, id taken, replayed without change, or the prefix of the effects that was made; the receipt carries the hash of the manifest then on disk |
| `PublishRuns.StepKeeps` | src/research_evolution/core/publication.py:266-320 | Every step of every thread, and a crash, keeps the invariant: a good disk, at most one thread inside the lock, and a working publisher's disk is the one it reconciled plus its own effects |
| `PublishRuns.RunsAreSafe` | src/research_evolution/core/_store.py:52-60 | Crash safety: in every state of every run of publishers and verifiers the invariant holds, so the disk has one of the four shapes |
| `PublishRuns.NoLostUpdate` | src/research_evolution/core/publication.py:266-320 | Until it replaces the manifest a publisher's entries are exactly those on disk and its link cannot be refused; after that the store is clean and lists its entry; nobody else is inside the lock |
| `PublishRuns.VerifierSeesSettledStore` | src/research_evolution/core/publication.py:386-389 | No publisher is at work while a verifier reads |
| `PublishRuns.RunsAppendOnly` | src/research_evolution/core/_store.py:542-605 | Along every run listed entries stay listed and record files keep their bytes |
| `PublishRuns.PublishStaysListed` | src/research_evolution/core/publication.py:266-320 | No update is lost: a publish that is complete, or found complete already, is listed in every later state of the run |
| `PublishRuns.ListedWasPublished` | src/research_evolution/core/publication.py:305-320 | Every listed entry is that of a publisher that had made all its effects in some state up to then |
| `PublishRuns.ManifestIsWhatWasPublished` | src/research_evolution/core/publication.py:266-320 | In every state of every run the manifest lists exactly the entries published so far, and there is a manifest exactly when something was published |
| `PublishRuns.ResidueIsFinal` | src/research_evolution/core/publication.py:281-284 | Once a first publish has stopped before its manifest, no later run of publishes changes the disk |
| `PublishRuns.RunsConverge` | src/research_evolution/core/_store.py:394-412 | Two states, of any two runs, by which the same records have been published have the same manifest byte for byte, whatever the order, interleaving and crashes; where both stores are clean the record files are the same too |
| `KernelExample.AssumptionsCanBeMet` | src/research_evolution/core/_store.py:362-391 | The assumptions about hash, registry and validation are consistent: a concrete instance meets them and has a publishable record |
| `LineageCycles.Follow` | src/research_evolution/core/_graph.py:119-123 | The inner walk visits unvisited nodes only, each once, and stops at a node without an edge or at one already met |
| `LineageCycles.FindLineageCycles` | src/research_evolution/core/_graph.py:105-128 | Every reported list is a closed path without repeated nodes, a node lies on a cycle exactly when it is in a reported list, and no node is in two lists |
| `Graph.ChainsEnd` | src/research_evolution/core/_graph.py:343-370 | In a store without violations every supersedes chain ends at a record that supersedes nothing, in fewer steps than its family has records |
| `Graph.ChainSharesAnchor` | src/research_evolution/core/_graph.py:371-394 | All records of an anchor-scoped supersedes chain name the same anchor |
| `Graph.ListsBack` | src/research_evolution/core/_graph.py:438-494 | In a store without violations the claim/evidence link is symmetric |
| `Graph.CaseHoldsWholeComponents` | src/research_evolution/core/_graph.py:235-266 | Along any path of claim/evidence links one end is in a case package if and only if the other is |
| `Graph.MemberAnalysisIsPackaged` | src/research_evolution/core/_graph.py:196-232 | A member analysis, its observation, that observation's run and its task exist in the store and are in the package |
| `Graph.UnanchoredObservationIgnored` | src/research_evolution/core/_graph.py:196-232 | Closure does not follow a member observation that no member analysis anchors: changing it changes no verdict |
| `GraphCheck.CheckIds` | src/research_evolution/core/_graph.py:315-338 | One violation for each id that exists in two families, and no other |
| `GraphCheck.Classify` | src/research_evolution/core/_graph.py:83-102 | A target is accepted when it exists in the expected family, dangling when it exists nowhere, cross-type otherwise |
| `GraphCheck.CheckSupersedes` | src/research_evolution/core/_graph.py:353-394 | The violation reported is the fault of the `supersedes` reference, if it has one (itself, dangling, cross-type, other anchor), and the edge is recorded exactly when the target is another record of the family |
| `GraphCheck.CheckField` | src/research_evolution/core/_graph.py:395-431 | The violations reported are exactly the field's faults: an id named twice in an array, a target that is dangling or of another family, a pin that differs; none if and only if the field is in order |
| `GraphCheck.CheckPairs` | src/research_evolution/core/_graph.py:433-494 | Checking each two-way pair from its lexicographically smaller side reports exactly the one-way links of all registered two-way references, at the side that lists |
| `GraphCheck.CheckCase` | src/research_evolution/core/_graph.py:183-266 | The violations reported are exactly the breaches of the three closure rules, each with rule, member and missing target |
| `GraphCheck.CheckReceipts` | src/research_evolution/core/_graph.py:269-306 | Exactly one violation for each export receipt whose resolvable decision denies it or has another mode |
| `GraphCheck.MergedCycles` | src/research_evolution/core/_graph.py:340-370 | With unique ids and valid references, cycles of the merged edge map are exactly the cycles within families |
| `GraphCheck.CheckRecordGraph` | src/research_evolution/core/_graph.py:309-511 | A violation is reported if and only if the record set has that fault; the reported cycles are loops of the accepted lineage edges and go through every node on a cycle; and nothing is reported if and only if the record set is sound |
| `VerifyStore.VerifyRecordGraph` | src/research_evolution/core/publication.py:334-401 | The report on a disk has no violation if and only if the store is clean, or the root bare, and the records in its files form a sound graph |
| `VerifyStore.GraphIsManifest` | src/research_evolution/core/publication.py:386-392 | In a clean store the records checked against each other are exactly those the manifest lists, each entry giving the family, id, hash and path of its record |
| `DependencyOrder.TopologicalOrder` | src/research_evolution/evolution/incubator.py:171-189 | The heap loop fails exactly on unknown names (an exception) or a cycle; otherwise it returns the dependency order that is smallest name by name, whatever order the mapping lists its members in |
| `DependencyOrder.ListChildren` | src/research_evolution/evolution/incubator.py:172-176 | The children lists hold every dependency as often as it is named, and an unknown name is noticed |
| `DependencyOrder.Release` | src/research_evolution/evolution/incubator.py:181-186 | Taking a name lowers each child's count by as often as it is listed and readies exactly those that reach zero |
| `DependencyOrder.PopLeast` | src/research_evolution/evolution/incubator.py:180-186 | One turn takes the least ready name and keeps counts and heap in step with the names taken |
| `DependencyOrder.GreedyIsLeast` | src/research_evolution/evolution/incubator.py:177-189 | Always taking the least ready name gives a valid order that precedes every other valid order at their first difference |
| `DependencyOrder.CycleMeansNoOrder` | src/research_evolution/evolution/incubator.py:187-188 | With a cycle there is no valid order |
| `DependencyOrder.LeastOrderUnique` | src/research_evolution/evolution/incubator.py:241-244 | At most one order is least, so a receipt has one admissible order |
| `DependencyOrder.OrderExists` | src/research_evolution/evolution/incubator.py:171-189 | A least order exists exactly when all names are known and nothing is cyclic |
| `DependencyOrder.ReceiptAccepts` | src/research_evolution/evolution/incubator.py:231-244 | A receipt's order is accepted exactly when the member names are distinct and the order is the least valid one |
| `DependencyOrder.CheckedOrder` | src/research_evolution/evolution/skill_candidate.py:143-171 | The bundle's variant refuses the first member, in listing order, that repeats a dependency, depends on itself or names an unknown one; then it fails exactly on cycles and otherwise gives the least order |
| `DependencyOrder.BundleAccepts` | src/research_evolution/evolution/skill_candidate.py:259-275 | A bundle's order is accepted exactly when the payload names are distinct and include the entry point, no member's list is faulty, and the order is the least valid one |
| `DependencyOrder.MembersAreRows` | src/research_evolution/evolution/skill_candidate.py:265 | With distinct names the member mapping holds each row's own dependency list |
| `Binomial.McNemarIsExact` | src/research_evolution/evaluation/statistics.py:102-124 | The p-value is the share of the 2^n splits of the discordant pairs that are at least as lopsided as the observed one; it is in (0, 1], symmetric, and 1 exactly when the counts differ by at most one |
| `Binomial.WiderGapSmallerP` | src/research_evolution/evaluation/statistics.py:115-119 | With the number of discordant pairs fixed, a wider gap has a strictly smaller p-value |
| `Binomial.RowSumMirror` | src/research_evolution/evaluation/statistics.py:118-119 | The head of a binomial row and the mirror image of its rest add up to 2^n |
| `ClopperPearson.TailFalls` | src/research_evolution/evaluation/statistics.py:324-328 | The binomial tail does not rise when the rate rises |
| `ClopperPearson.TailFallsStrictly` | src/research_evolution/evaluation/statistics.py:324-328 | It falls strictly as long as not every outcome is counted |
| `ClopperPearson.RareEventUpperBound` | src/research_evolution/evaluation/statistics.py:303-339 | For 0 < events < trials the tail exceeds the mass at every rate up to the result minus 2^-201 and at no rate from the result plus 2^-201 on; for no events, one minus the root of the mass is the only rate whose tail is the mass; for events = trials the result is 1 - 2^-201; invalid arguments are refused |
| `ClopperPearson.NearCrossing` | src/research_evolution/evaluation/statistics.py:330-339 | A rate whose tail equals the mass is unique and within 2^-201 of the result |
| `Permutation.CountMasks` | src/research_evolution/evaluation/statistics.py:238-252 | The mask loop counts the extreme sign assignments |
| `Permutation.ExtremesCounts` | src/research_evolution/evaluation/statistics.py:241-250 | That count is the size of the set of extreme sign vectors |
| `Permutation.ExtremeSignsExact` | src/research_evolution/evaluation/statistics.py:243-249 | A sign vector is in that set exactly when its total is extreme within the tolerance |
| `Permutation.ExactPBounds` | src/research_evolution/evaluation/statistics.py:251 | With n >= 1 pairs the exact p-value lies between 2/2^n and 1 |
| `Permutation.ExactPReorder` | src/research_evolution/evaluation/statistics.py:238-251 | Listing the pairs in another order does not change the p-value |
| `Permutation.SwappedArms` | src/research_evolution/evaluation/statistics.py:236-284 | Swapping the arms keeps the p-value and negates the mean difference and the rank-biserial effect size |
| `Permutation.MonteCarloP` | src/research_evolution/evaluation/statistics.py:254-264 | The Monte Carlo estimate over any bits is positive and at most 1 |
| `Permutation.RankSums` | src/research_evolution/evaluation/statistics.py:271-283 | The tie loop gives each value the middle rank of its magnitude; the total is m(m+1)/2 and bounds the signed sum |
| `Permutation.EffectSize` | src/research_evolution/evaluation/statistics.py:266-284 | The effect size is the order-free signed rank sum over m(m+1)/2, between -1 and 1, and 0 without nonzero differences |
| `Permutation.PairedPermutation` | src/research_evolution/evaluation/statistics.py:195-300 | Which inputs are refused, when enumeration is used, and all three estimates |
| `Holm.HolmAdjust` | src/research_evolution/evaluation/suite_comparison.py:95-103 | The running-maximum loop writes, for each p-value, the largest min(1, count * q) over p-values q up to it, where count is how many are not below q |
| `Holm.AdjustedIsMonotone` | src/research_evolution/evaluation/suite_comparison.py:95-103 | Adjusted values are ordered like the p-values and agree on ties |
| `Holm.AdjustedWithinBounds` | src/research_evolution/evaluation/suite_comparison.py:95-103 | Each adjusted value lies between p and min(1, m * p) |
| `Holm.AdjustedIgnoresOrder` | src/research_evolution/evaluation/suite_comparison.py:95-103 | Listing the metrics in another order changes no adjusted value |
| `Holm.FamilywiseCore` | src/research_evolution/evaluation/suite_comparison.py:95-103 | For any index set and alpha < 1: if some member is adjusted to at most alpha, some member's p is at most alpha over the size of the set |
| `Containment.StepKeeps` | src/research_evolution/evolution/_process_containment.py:438-535 | Every step of a reader, the writer or the supervisor keeps the invariant, and causes are only ever added once |
| `Containment.CapturesAreBounded` | src/research_evolution/evolution/_process_containment.py:444-462 | In every state each buffer is a prefix of its stream within its limit, at most one byte more was taken from the pipe, and the next read asks for at least one byte |
| `Containment.FirstCauseKept` | src/research_evolution/evolution/_process_containment.py:438-442 | At most one cause is recorded, and the first stays |
| `Containment.ReportedResult` | src/research_evolution/evolution/_process_containment.py:519-540 | Every reported result satisfies the fact table; it names no failure only when both captures are whole streams; a named failure is the first cause |
| `Containment.OverflowIsReported` | src/research_evolution/evolution/_process_containment.py:451-456 | A stream longer than its limit never ends in a completed result |
| `Containment.CanAlwaysFinish` | src/research_evolution/evolution/_process_containment.py:482-540 | From every reachable state the supervisor alone reaches a reported result in at most eight steps: no worker moves and the process does not exit on the way |
| `Containment.SupervisorIsQuick` | src/research_evolution/evolution/_process_containment.py:482-540 | No run has more than eight supervisor steps, and after eight the result is reported |

## Left out

- UTF-8 decoding and encoding: texts are code points; encoding is modelled as the refusal of surrogates, and the byte-order-mark check of byte input is not separate from the parse failure it causes.
- Insertion order of objects: objects are finite maps, so the order of members in memory, which canonical text does not show, is not modelled.
- Library routines (`re`, `json.dumps`, `sorted`, `heapq`, `math.comb`, `Decimal`) appear as their specifications: a pattern matcher written out, sorted listings, the least element of a set, Pascal's rule, exact decimals.
- Non-finite numbers: floats are given by the decimal of their shortest text and its exponent range; infinities and NaN count as values outside the data model.
- Error messages and paths in them; errors are constructors or `None`.
- SHA-256 itself: an injective function into digest text; the length 64 is a predicate on lengths.
- Schema loading and validation, patterns, date checks, restricted-content scanning and safe-path rules: predicates handed in, or not present where they only add refusals before the lock.
- Filesystem detail: symbolic links, reparse points, foreign nodes, unreadable nodes, staging files, fsync; what remains is mkdir, link without overwrite, atomic replace and crash.
- Store.Problem: the findings about a single unusable record file share one constructor, so reconciliation is exact about which shape a store has, not about the wording of findings.
- Publication across processes and two path spellings of one root: the lock is one lock per root.
- GraphCheck.CheckRecordGraph: violations carry kind, record, field, member and target, not their wording; the order of the report and forks, which are information only, are not modelled.
- Extraction of references from record data: a graph node lists its references and scalar fields.
- Graph.MemberAnalysisIsPackaged: needs `Graph.Shaped`, that schema validation put exactly one reference into each single-object field.
- Byte closure, exclusions, roles and hash binding of bundles and receipts around the dependency order.
- ClopperPearson.RareEventUpperBound: the root of the mass that the zero-event closed form needs, a fractional power, is handed in, and the result is characterised for a value that is that root.
- Binary floating point: all statistics are over exact reals.
- `paired_bootstrap`, result traces and their hashes: rank-index percentiles of seeded resamples, without a law beyond the computation.
- Containment: real processes, signals, clocks and deadlines; a read, write, close, timeout or tree cleanup is a step that can end either way, and the launch failure result is a constant.
- Containment: exceptions raised in the supervisor itself, which pass through its cleanup and report nothing.
- RecordCopy.HashBound.constructor: takes the payload both as heap containers and as the JSON value they stand for; the construction token is not modelled.
- Command line, adapters, workspaces, prompts, collaboration windows, reports, envelopes and gates: field-by-field checks around the parts above.
