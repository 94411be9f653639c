# Fulltext provider registry (Neo4j fulltext add-on)

This project models `FulltextProvider`, the entry point of Neo4j's fulltext
add-on. The provider keeps fulltext indices in two partitions, one per
`FulltextIndexType` (NODES and RELATIONSHIPS). For each kind it holds:

- a map from index identifier to index,
- a set of writable handles (`WritableFulltext`), one allocated per registration,
- the union of the property names indexed by that kind.

The model is functional. `Registry.Provider` is an immutable value holding the
two partitions and a counter. The counter gives each new `WritableFulltext`
object its identity. `register` is a pure transition. `getReader` and the
property-name arrays are lookups that dispatch on kind. `init` and `close`
return traces of effects. Each effect is a call into a collaborator the
provider does not own: the update applier, the database's event-handler
registry, or a `LuceneFulltext` index.

Several things the provider does not decide are inputs to the model:

- the iteration order of the Java `HashSet`s and `HashMap`s,
- whether `LuceneFulltext.open` succeeds,
- which population calls throw,
- which index closes throw.

Each property is proved for every choice of these inputs.

Modules:

- `Fulltext` (fulltext.dfy): index kinds, index descriptors, handles, effects.
- `Registry` (registry.dfy): the provider state, `register`, `getReader`, `getNodeProperties` and `getRelationshipProperties`.
- `History` (history.dfy): what any sequence of registrations leads to.
- `Lifecycle` (lifecycle.dfy): `init` and `close`.

The proofs also make three consequences of the code explicit:

- Re-registering an identifier replaces the map entry, but the old index's property names stay in the kind's property set.
- Every registration adds a writable handle, so a replaced index is still populated at `init`.
- `close` only closes indices still in the maps, so a replaced index object is never closed, even when its replacement was built from the same definition.

## Model

| member | source | states |
|---|---|---|
| `Registry.Admit` | enterprise/fulltext-addon/src/main/java/org/neo4j/kernel/api/impl/fulltext/FulltextProvider.java:134-145 | registering puts the index under its identifier in its own kind's map and leaves every other entry alone; the writable set gains at most the one new handle; the property set becomes the old set plus the index's names; the other kind's partition is unchanged |
| `Registry.AdmitAddsOneHandle` | enterprise/fulltext-addon/src/main/java/org/neo4j/kernel/api/impl/fulltext/FulltextProvider.java:137-143 | on a valid provider the writable set of the index's kind grows by exactly one handle, and that handle wraps the registered index |
| `Registry.AdmitPreservesValid` | enterprise/fulltext-addon/src/main/java/org/neo4j/kernel/api/impl/fulltext/FulltextProvider.java:134-145 | registration keeps the registry invariant: entries sit under their own identifier in their own kind, handles wrap indices of their kind, mapped indices' names are in the property set |
| `Registry.Register` | enterprise/fulltext-addon/src/main/java/org/neo4j/kernel/api/impl/fulltext/FulltextProvider.java:131-146 | `register` raises exactly when `open` fails, and then leaves the provider unchanged; otherwise the index is reachable under its identifier, the property set only grew, and the other kind is unchanged |
| `Registry.GetReader` | enterprise/fulltext-addon/src/main/java/org/neo4j/kernel/api/impl/fulltext/FulltextProvider.java:168-186 | the documented `getReader`: a reader exists exactly when the identifier is registered under the requested kind, and it opens on an index of that kind's map; otherwise the result is null |
| `Registry.GetReaderAsWritten` | enterprise/fulltext-addon/src/main/java/org/neo4j/kernel/api/impl/fulltext/FulltextProvider.java:176-186 | the code of `getReader` dereferences null exactly when the identifier is not registered under the requested kind |
| `Registry.GetReaderAsWrittenDiffers` | enterprise/fulltext-addon/src/main/java/org/neo4j/kernel/api/impl/fulltext/FulltextProvider.java:173-184 | code and documentation agree on every registered identifier; on every other identifier the documented null becomes a null dereference |
| `Registry.MissingIndexDereferencesNull` | enterprise/fulltext-addon/src/main/java/org/neo4j/kernel/api/impl/fulltext/FulltextProvider.java:180 | on a fresh provider, `getReader("nodes", NODES)` dereferences null, where the documentation promises null |
| `Registry.ReaderMatchesRequest` | enterprise/fulltext-addon/src/main/java/org/neo4j/kernel/api/impl/fulltext/FulltextProvider.java:176-185 | on a valid provider a reader opens on an index of the requested kind and identifier, so the same identifier under the two kinds resolves to two distinct indices |
| `Registry.ReaderConsultsOwnKind` | enterprise/fulltext-addon/src/main/java/org/neo4j/kernel/api/impl/fulltext/FulltextProvider.java:178-185 | the reader for a kind depends only on that kind's map |
| `Registry.ReaderAfterAdmit` | enterprise/fulltext-addon/src/main/java/org/neo4j/kernel/api/impl/fulltext/FulltextProvider.java:134-145 | right after registering, the reader for the index's identifier and kind opens on that index; readers of the other kind resolve as before |
| `Registry.PropertyArray` | enterprise/fulltext-addon/src/main/java/org/neo4j/kernel/api/impl/fulltext/FulltextProvider.java:148-156 | `toArray` on a property-name set lists every name of the set, nothing else, and each name once |
| `Registry.GetNodeProperties` | enterprise/fulltext-addon/src/main/java/org/neo4j/kernel/api/impl/fulltext/FulltextProvider.java:148-151 | the node property array lists every node property name exactly once |
| `Registry.GetRelationshipProperties` | enterprise/fulltext-addon/src/main/java/org/neo4j/kernel/api/impl/fulltext/FulltextProvider.java:153-156 | the relationship property array lists every relationship property name exactly once |
| `History.PropertySetIsUnion` | enterprise/fulltext-addon/src/main/java/org/neo4j/kernel/api/impl/fulltext/FulltextProvider.java:134-145 | after any sequence of registrations, a kind's property set is the union of the names of every index ever registered with that kind, replaced ones included |
| `History.PropertiesOnlyGrow` | enterprise/fulltext-addon/src/main/java/org/neo4j/kernel/api/impl/fulltext/FulltextProvider.java:138-144 | further registrations never remove a property name from either kind's set |
| `History.LastRegistrationWins` | enterprise/fulltext-addon/src/main/java/org/neo4j/kernel/api/impl/fulltext/FulltextProvider.java:136-142 | the map of a kind holds, for an identifier, the last index registered with that identifier and kind |
| `History.MappedIdentifiers` | enterprise/fulltext-addon/src/main/java/org/neo4j/kernel/api/impl/fulltext/FulltextProvider.java:136-142 | after any sequence of registrations, a kind's map holds exactly its initial identifiers plus every identifier registered with that kind, and no other |
| `History.UnregisteredIdentifierKeepsEntry` | enterprise/fulltext-addon/src/main/java/org/neo4j/kernel/api/impl/fulltext/FulltextProvider.java:136-142 | an identifier that no registration of the kind names keeps its initial entry in that kind's map |
| `History.OtherKindUntouched` | enterprise/fulltext-addon/src/main/java/org/neo4j/kernel/api/impl/fulltext/FulltextProvider.java:134-145 | registrations of the other kind leave a partition's map, writable set and property set exactly as they were |
| `History.KindSeparation` | enterprise/fulltext-addon/src/main/java/org/neo4j/kernel/api/impl/fulltext/FulltextProvider.java:134-145 | a kind's map and property set after any history equal those after only that history's registrations of that kind |
| `History.RegisterAllPreservesValid` | enterprise/fulltext-addon/src/main/java/org/neo4j/kernel/api/impl/fulltext/FulltextProvider.java:131-146 | the registry invariant holds after any sequence of registrations |
| `History.WritableCount` | enterprise/fulltext-addon/src/main/java/org/neo4j/kernel/api/impl/fulltext/FulltextProvider.java:137-143 | a kind's writable set has one handle per registration of that kind, re-registrations of an identifier included |
| `History.EveryRegistrationHasHandle` | enterprise/fulltext-addon/src/main/java/org/neo4j/kernel/api/impl/fulltext/FulltextProvider.java:137-143 | every registration, even one later replaced in the map, leaves a writable handle on its index in its kind's writable set |
| `History.FailedRegistrationsLeaveNoTrace` | enterprise/fulltext-addon/src/main/java/org/neo4j/kernel/api/impl/fulltext/FulltextProvider.java:131-134 | a sequence of `register` calls whose `open` sometimes fails ends in the provider that the successful registrations alone produce |
| `History.SeparateIndicesPerKind` | enterprise/fulltext-addon/src/test/java/org/neo4j/kernel/api/impl/fulltext/LuceneFulltextUpdaterTest.java:549-599 | the test's scenario: after registering a node index "nodes" and a relationship index "relationships" on "prop", each reads back under its own kind, `getReader("nodes", RELATIONSHIPS)` as written dereferences null, and both kinds track "prop" |
| `History.SameIdentifierBothKinds` | enterprise/fulltext-addon/src/main/java/org/neo4j/kernel/api/impl/fulltext/FulltextProvider.java:134-145 | the test's scenario generalised to one identifier shared by both kinds: the node index and the relationship index still stay separate, one per kind, and both kinds track the property |
| `History.ReplacedPropertiesRemain` | enterprise/fulltext-addon/src/main/java/org/neo4j/kernel/api/impl/fulltext/FulltextProvider.java:136-138 | after replacing an index under one identifier, the map holds only the new index, but the old index's property name is still in the property set |
| `Lifecycle.PopulateAll` | enterprise/fulltext-addon/src/main/java/org/neo4j/kernel/api/impl/fulltext/FulltextProvider.java:76-83 | a population loop calls populate on the handles in iteration order and stops at the first call that throws; it completes exactly when no handle fails |
| `Lifecycle.InitTrace` | enterprise/fulltext-addon/src/main/java/org/neo4j/kernel/api/impl/fulltext/FulltextProvider.java:76-84 | for any iteration orders, the trace of `init` contains the handler registration exactly when no population threw |
| `Lifecycle.Init` | enterprise/fulltext-addon/src/main/java/org/neo4j/kernel/api/impl/fulltext/FulltextProvider.java:74-85 | `init` raises exactly when some writable handle's population throws, and registers the event handler exactly when it does not raise |
| `Lifecycle.InitCompletes` | enterprise/fulltext-addon/src/main/java/org/neo4j/kernel/api/impl/fulltext/FulltextProvider.java:74-85 | without failures, `init` emits one node population per node handle, then one relationship population per relationship handle, then the handler registration once, as the final step |
| `Lifecycle.InitPopulatesEachHandleOnce` | enterprise/fulltext-addon/src/main/java/org/neo4j/kernel/api/impl/fulltext/FulltextProvider.java:76-83 | every population is for a handle of its own kind and no handle is populated twice; a normal return means every handle of both kinds was populated |
| `Lifecycle.InitNodesBeforeRelationships` | enterprise/fulltext-addon/src/main/java/org/neo4j/kernel/api/impl/fulltext/FulltextProvider.java:76-83 | anything before a node population is a node population |
| `Lifecycle.InitFailureIsPrefix` | enterprise/fulltext-addon/src/main/java/org/neo4j/kernel/api/impl/fulltext/FulltextProvider.java:74-85 | a failed `init` performed a strict prefix of the failure-free trace, ending with the population call that threw |
| `Lifecycle.TraceFailureIsPrefix` | enterprise/fulltext-addon/src/main/java/org/neo4j/kernel/api/impl/fulltext/FulltextProvider.java:76-84 | for any iteration orders, a trace that ended in a throw is a strict prefix of the failure-free trace and ends with the population call that threw |
| `Lifecycle.CloseAll` | enterprise/fulltext-addon/src/main/java/org/neo4j/kernel/api/impl/fulltext/FulltextProvider.java:107-128 | a close loop closes the index under every key it iterates, only indices of the map, and logs a failure exactly for the indices whose close threw |
| `Lifecycle.CloseAllDespiteFailures` | enterprise/fulltext-addon/src/main/java/org/neo4j/kernel/api/impl/fulltext/FulltextProvider.java:109-116 | leaving out the log entries, a close loop's trace is the same whatever fails, one close per key |
| `Lifecycle.Close` | enterprise/fulltext-addon/src/main/java/org/neo4j/kernel/api/impl/fulltext/FulltextProvider.java:102-129 | `close` never raises, and it first unregisters the event handler and then stops the applier |
| `Lifecycle.CloseReachesEveryIndex` | enterprise/fulltext-addon/src/main/java/org/neo4j/kernel/api/impl/fulltext/FulltextProvider.java:107-128 | `close` attempts to close every registered index under its kind, closes nothing else, and logs exactly the closes that threw |
| `Lifecycle.CloseDespiteFailures` | enterprise/fulltext-addon/src/main/java/org/neo4j/kernel/api/impl/fulltext/FulltextProvider.java:103-128 | whatever fails, `close` attempts the same closes as when nothing fails: two shutdown steps, then one close per registered index |
| `Lifecycle.CloseNodesBeforeRelationships` | enterprise/fulltext-addon/src/main/java/org/neo4j/kernel/api/impl/fulltext/FulltextProvider.java:107-128 | no relationship index is closed before a node index |
| `Lifecycle.ReplacedIndexIsNeverClosed` | enterprise/fulltext-addon/src/main/java/org/neo4j/kernel/api/impl/fulltext/FulltextProvider.java:107-128 | for any history from a valid provider: an index object replaced by a later registration under its identifier and kind, and not registered again, is never closed by `close`, whatever fails |
| `Lifecycle.SameDefinitionRegisteredTwice` | enterprise/fulltext-addon/src/main/java/org/neo4j/kernel/api/impl/fulltext/FulltextProvider.java:107-117 | two index objects built from the same definition and registered in turn: `close` closes the second and not the first |
| `Lifecycle.RegistrationIsPopulated` | enterprise/fulltext-addon/src/main/java/org/neo4j/kernel/api/impl/fulltext/FulltextProvider.java:76-83 | every registered index, a replaced one included, is populated through one of its writable handles by an `init` that returns normally |

## Left out

- The constructor and its eager `applier.start()` (FulltextProvider.java:58-72): dependency wiring and thread start-up, with no logic to state. A fresh provider is `Registry.Fresh`.
- `awaitPopulation` (FulltextProvider.java:94-97): a blocking barrier on the applier's background worker. That is concurrency, and `FulltextUpdateApplier` is not part of this model.
- `FulltextUpdateApplier`, `FulltextTransactionEventUpdater`, `WritableFulltext`, `ReadOnlyFulltext` and `LuceneFulltext`: not part of this model. They appear only as values (`Index`, `Writable`, `Reader`) and as effects in a trace.
- `LuceneFulltext.open`, population calls and index closes: their success or failure is an input. An `IOException` from `getIndexReader` is not modelled; a reader always opens.
- Exceptions other than `IOException`: not modelled. An unchecked exception thrown by a close inside the `forEach` loops would escape `close`.
- `WritableFulltext` equality: not visible. Each `new WritableFulltext` is a distinct object, so its identity is a fresh serial number.
- `LuceneFulltext` object identity: the caller creates these objects, so their identity is an input, the field `Index.instance`. Two indices are the same object exactly when they are equal values.
- A null `FulltextIndexType`: not modelled. In Java it would take the relationship branch of `register` and `getReader`. `Kind` has exactly the two enum constants.
- `writableNodeIndices()` and `writableRelationshipIndices()` (FulltextProvider.java:158-166): read-only views of the writable sets, which are `Partition.writable` itself.
- Logging messages, the `LUCENE_FULLTEXT_ADDON_INTERNAL_ID` constant and the enum `toString` strings (FulltextProvider.java:39, 191-208): text without behaviour. A logged close failure is the effect `LogCloseFailure`.
- The test suite's assertions about tokenisation, value types, relevance ordering and fuzzy matching: these are the behaviour of Lucene's analyzer and scorer, which are not part of this model. The test is used only as evidence for kind separation.

## Findings

| source | as written | input that shows it | evidently intended | confidence | as-written member | corrected member |
|---|---|---|---|---|---|---|
| enterprise/fulltext-addon/src/main/java/org/neo4j/kernel/api/impl/fulltext/FulltextProvider.java:173-184 | `getReader` calls `getIndexReader()` on the result of `Map.get`, which is null for an unknown identifier, so the call throws `NullPointerException` | `getReader("nodes", NODES)` on a provider with no node index named "nodes" | return null, as the method's documentation says | high (not executed) | `Registry.GetReaderAsWritten` (exhibited by `Registry.MissingIndexDereferencesNull`) | `Registry.GetReader` |
