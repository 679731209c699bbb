# Nestory: a verified model

Nestory keeps an in-memory object graph. The simple truth is the live rows and their relation fields; everything else
is derived state that is kept in step with it by shortcuts. This project models those shortcuts in Dafny and proves
that each of them lands where the slow, obvious computation would.

Check everything with `dafny verify dfyconfig.toml`.

## What is modelled

**The committed relation index** (`Relation*.dfy`, `Ownership*.dfy`, `TargetIndexes.dfy`, `Required*.dfy`). A row is
an object at a fixed address (`RelationIndexes.LiveRow`) whose contents are scalars and the lookup keys its relation
fields hold. `RelationGraph` says what an index over a graph has to be (`Mirrors`: lookup targets, ordered field targets,
incoming multiplicities, owners, children) and which graphs are legal (`Legal`). Against that stand the full build, the
index delta with its in-place publication, the model delta over whatever model the commit before kept, and the delete delta
with its erasure. `Steady` is what a publication leaves behind: a legal graph, its index, no dangling pointer, every inverse
view exact. Two results run over everything. `RelationRuns.DifferentialRun`: starting from a steady state, after every one
of any number of delta commits the index that was patched in place equals a rebuild from the live rows.
`RelationMixedRuns.DifferentialMix`: the same for any mix of delta commits, full commits, deletes and flushes by either
path, up to the first flush that loses a field (finding 1); each step is told apart from doing nothing by the exact
condition under which it goes through.

**Secondary indexes** (`IndexOrder`, `SecondaryIndexes`, `SecondaryCommits`, `IndexRanges`). A sorted list of rows and a
unique map are taken apart before the in-place writes of a commit and put back afterwards, one row at a time, in a batch,
or by a rebuild. All three give the same index; uniqueness validation is exact; range queries are exact.

**Commit and durability** (`Commit*.dfy`, `Bytes`, `LogFrames`, `LogReplay`, `ScalarRows`, `WireFormat`, `Recovery`). The commit protocol
is a state machine whose steps are single lock acquisitions, version checks, log rows, stores, version bumps and unlocked
refresh reads of any number of processes in any order; no update is lost in it (`CommitOrigins.NoLostUpdate`). The codecs
write into arrays and read from a moving offset, as the source does, and are proved against byte-string specifications.

**The Tower** (`Tower*.dfy`). Live and shadow nodes are objects; relation fields hold references. A refresh overwrites shadow
objects in place; a write through the Tower diffs a branch, checks versions, patches live rows and, if the relation graph
changed, turns their pointers back to live rows. Other transactions may commit at every point of that: before the branch is
compared, before the versions are read, before the commit. A change of the graph that was overtaken is tried again from a fresh copy
(`TowerRetries.UpdateRetrying`).

**The rules by themselves.** What decides everything above is also stated without the predicates the code is proved against, over
rows, values, pointers and bytes alone, and proved to be the same: which pointers reach which rows and which graphs are legal
(`RelationLaws.RulesDecide`, `RelationRoles`, `RelationTargets`), what an inverse view lists (`RelationViews`), which deletes may go and
what they leave of the survivors (`RelationCascades`), which commits keep their addresses (`RelationAddresses`), why a cycle of required
edges is refused (`RequiredRows`), in which order rows stand (`IndexOrder.KeyOrder`, `TupleOrder`), which locks a session holds
(`CommitPlans`), where the value of a version came from (`CommitOrigins`), what the bytes on disk are and what they read back as
(`WireFormat`), and what a mirrored, closed, moved or overtaken row of a Tower is (`TowerLaws`).

A relation field of a live row holds, in the model, the lookup keys its pointers lead by, not addresses. The source decides by the
id of the object pointed at where the model decides by key, for instance when pointers to doomed rows are dropped
(relation_runtime.go:1823-1829, 1880-1895). The two agree on a steady state: publication leaves every pointer at the live row
its key resolves to (`RelationPublishing.RewireLinks`), and no other row bears that key (`RelationDrops.DoomedByIdentity`).

Where a loop runs over a Go map, the model takes the elements in an arbitrary order.

## What the proofs found

Seven properties hold only under a condition. In each case the code is modelled as it is, the exact condition is proved, and a
concrete input shows that it can fail.

1. **A flush of deletes can lose a surviving borrow.** `flushDeletesViaDelta` lists a holder once per field that points at
   a doomed node (relation_runtime.go:1818-1851), so a holder with two such fields is scanned twice. While the list is
   short, `relationFieldDeltas.find` returns the first entry of a field (relation_index.go:142-159), so the second scan is
   appended to the first entry and the last entry, the one that publication leaves in force, stays empty; the rewire then
   empties the live pointer too. Take a holder with k fields into the closure and n declared link fields, and its field at
   position p. Some order of the hits loses that field if and only if it still has a surviving target, k is at least 2 and
   (k - 1) * n + p is below 8; no order loses anything if and only if there is no such field (`RelationListings.Exposed`,
   `OrdersThatLose`). One index cannot produce every order: the doomed nodes come in any order, but each bucket is read as it
   stands. Over the orders it can produce, a field is lost by one of them if and only if visiting at most eight doomed nodes first
   lists all hits of its holder so early that its last scan is among the first eight (`RelationListOrders.ExposedBy`,
   `ProducedThatLose`); `RelationBucketOrders.BucketProtects` is an index whose bucket protects an exposed field. For the
   order actually taken, the flush leaves exactly the steady state of a rebuild over the survivors if and only if that order
   loses nothing (`RelationDeleteFlush.FlushDeletesViaDelta`).
   `RelationFlushLoss.FlushLosesBorrow` is a concrete steady state, two options and a required borrow, that loses the borrow
   whatever the order.
2. **The index delta does not rescan untouched holders.** A create can satisfy a lookup key that an untouched holder was
   already holding. The patched fields are the rebuilt ones if and only if nobody was waiting like that
   (`RelationOverlays.FieldsOverlaid`, `RelationOverlays.WaitingBreaks`); `RelationWaitingLoss.CreateMissesWaiting` is a concrete
   legal graph and new row for which the delta is built and differs from a rebuild. Publication leaves nothing dangling, so the
   condition holds along every run that starts steady, and the run theorems need no such assumption. Outside such runs the
   source can reach the state: a flush clears an option of a survivor without bumping its version
   (relation_runtime.go:1817-1837), so a transaction that read the row before passes the version check (engine.go:417-424);
   whether it changes the graph is judged against its own original (engine.go:755-799), so a change of a plain field
   writes the old pointer back on the scalar path. A row created later under that id is then waited for. The model delta rescans
   holders with a recorded leftover, which is not all of them either (finding 6).
3. **A Tower refresh can leave a shadow pointing outside the shadow world.** Unchanged means equal by id, so a shadow that
   already named a node which only now receives its shadow is neither copied nor wired. No publication leaves a live pointer at a
   node that is not committed, but the write-back of finding 2 does, and so does an unsafe mutation until its flush
   (unsafe.go:3-13); the row it points at may then be committed after the holder's shadow was taken. The refreshed world is closed if
   and only if there is no such shadow (`TowerWorlds.RefreshWired`). `TowerWorlds.LateTargetIsMissed` refreshes a concrete
   replica twice and ends with a shadow that points at the live target.
4. **A rebuilt list reaches the live row with its own pointers.** Lists are diffed by pointer (tower.go:1386-1404) but the
   choice between the plain-field and the relation commit is made by id (engine.go:1040-1060). With all ids unchanged the
   plain-field path leaves live pointers alone if and only if every list still is its baseline or holds the live pointers
   themselves; any other list of the same ids reaches the live row (`TowerPatches.PatchKeepsPointers`, concrete case
   `TowerPatches.RebuiltListEscapes`).
5. **Own slices rarely let go through the delta.** The comment at relation_runtime.go:1765-1766 calls own-many drops expressible
   as a delta, but the builder refuses any change that leaves a child without the owner it had (relation_index.go:842-851),
   and a doomed child is still a child at that moment. The flush takes the delta path if and only if the hit fields are options
   or own slices, no doomed key is shared, no holder that is listed twice keeps an owned survivor (its own edge would be counted
   twice), and every owned node keeps an edge to its owner: an own slice that still lists it, or its own ownedby field unless the
   order loses it (`RelationDeleteFlush.Flushable`). Where it refuses, the full path takes over with the pointers already
   dropped, and ends where it would have without them (`RelationFlushes.FallbackConverges`). `RelationOwnSlices.OwnSliceRefused`
   is a concrete box that owns a lid: deleting the lid hits only that slice, and the delta refuses.
6. **A reused model knows a dangling pointer only if it recorded it.** The model delta rescans the touched rows and the holders
   of leftovers whose key can now be found (relation_runtime.go:925-933); everyone else keeps what the committed model says. It
   sees the fields of the proposed graph if and only if no holder outside that rescan waits for a new row
   (`RelationRescans.SeenExact`), and then it accepts what a full build accepts. After a publication that is always so, because
   nothing dangles, and the run theorems use it without an assumption. A pointer written back as in finding 2 while a model is
   kept is not among its leftovers: `RelationStaleModels.ForgottenPointer` creates the row such a pointer names, and the reused
   model says the option reaches nobody. The leftovers themselves outlive the pointers they stand for: the rewire clears a dangling
   option after the model was validated, the model is kept with its leftover (relation_runtime.go:399-400, engine.go:496-512), and
   the next delta hands it on. The leftovers are those of a full build if and only if the kept ones are exactly the pointers that
   still dangle (`RelationRescans.LeftoversExact`); `RelationStaleModels.StaleLeftoverCarried` is a run of two commits after which
   they are not. Stale leftovers cost a rescan and change no answer.
7. **A write through the Tower can revert a plain-field commit it never saw.** An attempt checks that its replica is in step, then
   compares the branch, and only then reads the versions it will be checked against (tower.go:900-938, 1488-1516). It holds the
   graph lock shared, which plain-field commits share as well. A field others committed in between keeps their value if and only if
   the shadow agrees with it or had not moved from what it was compared with (`TowerRaces.WindowExact`); a commit that lands before
   the comparison makes every field it touched look moved, so it is undone with no conflict reported. `TowerRaces.LostCommit` is a
   concrete run. Whatever lands after the version reads is caught (`TowerCommits.UpdateWithin`).

The index delta itself is exact in the same sense: over a steady state it publishes a commit if and only if the rows are
properly addressed, the proposed graph is legal and no child loses its owner (`RelationRuns.TryCommit`). With the full validator
behind it, a commit without deletes is published if and only if its rows fit, the proposed graph is legal and no new row takes
a lookup key another row has (`RelationFallbacks.CommitTransaction`); that last clause is the delta's, which reports a taken key
as an error even where full validation would tolerate the duplicate (relation_index.go:417-438).

After a flush that deletes the last row of a type, the kept set of searchable fields may be larger than a rebuild's. The
delete theorems therefore state the index for the fields it was built with (`MirrorsWithin`), and the index-delta theorems
keep the stronger `Mirrors` whenever they start from it.

## Model

| member | source | states |
|---|---|---|
| OwnershipForest.ValidateOwnerChain | relation_index.go:807-831 | Two walkers at one and two steps over the pending owner changes refuse exactly the starts whose chain of owners never ends, and always stop |
| OwnershipForest.CycleThroughChange | relation_index.go:688-697 | Over a previously acyclic map, a new ownership cycle exists if and only if some changed child's chain no longer ends, so walking from the changed children is enough |
| OwnershipForest.AcyclicIsRooted | relation_runtime.go:449-470 | An owners map has no cycle if and only if every chain of owners ends |
| OwnershipWalks.ColourWalk | relation_runtime.go:1262-1281 | One walk from an uncoloured node keeps black meaning "this chain ends" and refuses only when it runs into a cycle |
| OwnershipWalks.ValidateOwnershipCycles | relation_runtime.go:1257-1292 | The full validator's colour walk accepts if and only if the owners map is acyclic |
| OwnershipWalks.ValidateChangedOwnershipCycles | relation_runtime.go:1018-1037 | The seen-set walk from the changed children accepts if and only if each of their chains ends; with CycleThroughChange it therefore agrees with the other two walks |
| OwnershipWalks.CommittedOwnershipRoot | relation_runtime.go:449-470 | On a forest the bounded root walk always arrives at the unowned node above its start |
| OwnershipWalks.RootsPartition | branchlock.go:10-22 | A whole branch has one root, and nodes with different roots have disjoint branches |
| OwnershipWalks.CommittedOwnershipKeys | relation_runtime.go:472-506 | The worklist terminates and lists exactly the node and its descendants, each once, in ascending key order |
| RequiredCycles.VisitRequiredType | relations.go:329-351 | One visit of the schema walk refuses only schemas with a cycle of required edges, and otherwise leaves black types that reach none |
| RequiredCycles.ValidateRequiredCycles | relations.go:318-327 | The schema-time walk refuses a schema if and only if its types form a way round in which each has a to-one own of the next (or an ownedby to the next); own slices are on none |
| RequiredCycles.CyclicMeans | relations.go:354-360 | A schema is cyclic for the walk exactly when such a way round exists, listed type by type |
| RequiredRows.CycleUnsatisfiable | relations.go:374-382 | Why such schemas are refused: no legal graph, of whatever finite size, has a row of any type on the cycle |
| TargetIndexes.RelationTargetFields | relation_runtime.go:1054-1087 | Collects exactly the fields some relation of a present type looks targets up by |
| TargetIndexes.BuildRelationTargetIndexFromFields | relation_runtime.go:1041-1052 | Every searchable key some node bears is indexed, to its bearer, and marked duplicate exactly when two nodes bear it |
| TargetIndexes.IndexRelationNodeTargets | relation_runtime.go:1089-1106 | One more node: its keys are added, or marked duplicate where another node bears them |
| RelationGraph.LookupResolves | relation_runtime.go:834-846 | Reading the target index gives what the graph says: the one bearer, nobody, or a clash |
| RelationModels.RelationModel.ScanRelationPointer | relation_runtime.go:1148-1188 | One pointer keeps the record and both ownership tallies exact, or the field is ambiguous or an own slice repeats a child |
| RelationModels.RelationModel.ScanRelationField | relation_runtime.go:1128-1146 | One field is recorded pointer by pointer to its end, or refused only when no scan can get through it |
| RelationModels.RelationModel.ScanNodeRelations | relation_runtime.go:1108-1126 | All fields of one node are recorded completely, with exact tallies, or one of them cannot be scanned |
| RelationModels.RelationModel.AttachNodeOwner | relation_runtime.go:1213-1243 | A child's owner is decided from its two tallies, and refused exactly when it has two owners or its two sides disagree |
| RelationModels.BuildRelationModelFromTargets | relation_runtime.go:872-911 | The full build succeeds if and only if no pointer is ambiguous, no own slice repeats a child, every child has at most one owner with both sides agreeing, and ownership is acyclic; the result then lists exactly the fields' targets in order, leftovers, owners and children |
| RelationModels.FinishModel | relation_runtime.go:893-910 | Attaching every owner and looking for cycles settles the forest: it succeeds exactly on buildable graphs |
| RelationTargets.BuildableMeans | relation_runtime.go:872-911 | A model can be built exactly when no pointer could mean two rows, every child has at most one own pointer to it, both sides agree and nobody is among their own owners; required targets are judged on their own |
| RelationTargets.TargetsInOrder | relation_runtime.go:1128-1188 | The targets of a field are the rows its pointers reach, in the order of the pointers |
| RelationModels.ValidateRequiredRelations | relation_runtime.go:1245-1255 | Accepts exactly when every holder that lacks a required relation is being deleted |
| RelationModels.LegalIsBuildable | relation_runtime.go:1108-1292 | A graph is a legal final state if and only if the build succeeds and no required pointer is missing |
| RelationLaws.ResolveMeans | relation_runtime.go:834-846 | A lookup finds a row exactly when it alone has the value in that field, nobody when no row has it, and clashes when two have it |
| RelationLaws.TargetsReached | relation_runtime.go:1128-1188 | A field's targets are exactly the rows its pointers reach: the one row of the target type that has the value the pointer leads by |
| RelationLaws.DanglesMeans | relation_runtime.go:1148-1188 | A pointer dangles exactly when no row of its target type has that value |
| RelationLaws.LacksMeans | relation_runtime.go:1190-1196 | A relation is reported missing exactly when it is a to-one own, ownedby or borrow that reaches nothing |
| RelationLaws.OwnersMean | relation_runtime.go:1213-1243 | The owners map holds exactly the pairs that an own pointer of the owner or the ownedby pointer of the child names |
| RelationLaws.RulesDecide | relation_runtime.go:1108-1292 | A graph is legal if and only if no pointer could mean two rows, every to-one own, ownedby and borrow reaches a live row, every child has at most one own pointer to it, parent and child agree where both name each other, and nobody is among their own owners |
| RelationRoles.NothingThereIsLegal | relation_runtime.go:1190-1196 | A slice or an option whose pointers are all nil or dangling is legal and has no targets |
| RelationRoles.MissingIsIllegal | relation_index.go:500-510 | A to-one own, ownedby or borrow without a live target makes the graph illegal |
| RelationRoles.DroppingKeepsLegal | relation_runtime.go:1190-1196 | Dropping any nil or dangling pointers from a slice or an option never changes whether the graph is legal |
| TargetIndexes.BuildRelationModel | relation_runtime.go:862-870 | A model from nothing but the live rows, built exactly when there is one |
| RelationContainers.IncomingCounts.Position | relation_index.go:36-52 | Finds a counter through the short scan or the lazily built lookup, or reports that the field does not point here |
| RelationContainers.IncomingCounts.Increment | relation_index.go:54-74 | The counters stay an exact multiset of fields, grown by one occurrence, across the point where the lookup is built |
| RelationContainers.IncomingCounts.Decrement | relation_index.go:76-100 | The counters lose exactly one occurrence; the swap-delete leaves no hole and keeps the lookup right |
| RelationContainers.NodeKeySet.Add | relation_index.go:190-224 | A set in insertion order: adds a key exactly when it is new, across the inline and the spilled representation |
| RelationContainers.NodeKeySet.At | relation_index.go:226-232 | Reads the keys back in insertion order across both representations |
| RelationIndexes.CommittedIndex.IncrementIncoming | relation_index.go:1156-1160 | One more pointer into a node, written back to its bucket, no other bucket touched |
| RelationTargets.CountsMean | relation_index.go:1156-1166 | What an index over the rows counts for a row and a field is the number of pointers of that field that reach the row |
| RelationIndexes.CommittedIndex.DecrementIncoming | relation_index.go:1162-1172 | One pointer fewer into a node; a bucket that runs empty stays as an empty bucket, and the buckets still are the counted multisets |
| RelationIndexes.CommittedIndex.ReplaceField | relation_index.go:884-900 | Replacing the targets of one field keeps the incoming index the exact multiset transpose of all field targets |
| RelationFieldDeltas.RelationFieldDeltas.Find | relation_index.go:142-159 | Lookup reaches the first entry of a key while the list is short and the last one once it is indexed |
| RelationFieldDeltas.RelationFieldDeltas.Add | relation_index.go:126-140 | Appends an entry, building the lookup when the list outgrows its inline part; earlier entries are untouched and the lookup stays right |
| RelationFieldDeltas.RelationFieldDeltas.Append | relation_index.go:447-488 | Adds targets to one entry and to no other |
| RelationFieldDeltas.PublishedScan | relation_index.go:126-159 | When a field is listed more than once, its last, published entry holds the scanned targets if and only if its last listing lies past the point where the lookup is built, or is its first, or there was nothing to lose |
| RelationFieldDeltas.ScannedTwice | relation_index.go:142-159 | A field scanned twice or more is published with its last scan if that is the ninth or a later entry, and empty if it is an earlier one |
| RelationFieldDeltas.AccumulateDistinct | relation_index.go:126-140 | With every field listed once the accumulated list is simply the scans |
| RelationOverlays.FieldsOverlaid | relation_index.go:264-388 | Patching the rescanned fields over the committed ones gives the fields of the proposed graph if and only if no untouched holder has a dangling pointer whose target is being created |
| RelationOverlays.WaitingBreaks | relation_index.go:390-439 | Such a waiting holder gains a target the patched index does not list |
| RelationWaitingLoss.CreateMissesWaiting | relation_index.go:390-439 | A concrete legal graph, its index and one new row: the delta is built and sound, the patched field of the waiting holder stays empty, and a rebuild lists the new row there |
| RelationOverlays.ForestPatched | relation_index.go:642-697 | If the forest was legal, redeciding only the affected children and walking only from them decides legality of the whole new forest |
| RelationDeltas.IndexCreatedTargets | relation_index.go:417-438 | New rows add exactly their lookup entries; they are refused exactly when one of them bears a key that a live row or another new row bears |
| RelationDeltas.CreatesSupported | relation_index.go:395-415 | New rows are supported exactly when every lookup they perform goes through an indexed field |
| RelationDeltas.ScanIndexedRelationField | relation_index.go:447-518 | One proposed field is accepted exactly when it is legal in the proposed graph, with exactly its targets |
| RelationDeltaOwners.EffectiveIncomingOwn | relation_index.go:741-778 | Counts the own edges into a child after the delta from its old bucket and the replacements alone |
| RelationDeltaOwners.EffectiveOwnedBy | relation_index.go:780-805 | Finds the owner a child names after the delta |
| RelationDeltaOwners.CollectAffected | relation_index.go:647-672 | Collects every child whose ownership edges the delta can move |
| RelationDeltaOwners.UnaffectedSame | relation_index.go:647-672 | A child that was not collected has the same ownership edges before and after |
| RelationDeltaOwners.ValidateOwnership | relation_index.go:642-697 | Judging only affected children accepts if and only if some owners map makes the proposed fields a legal forest, and its changes then produce that map |
| RelationIndexDeltas.BuildRelationIndexDelta | relation_index.go:264-388 | A delta is returned for every acceptable proposal, and whenever one is returned for rows listed once it is sound: lookup keys untouched or fresh, every rescanned field legal with exactly its targets, the overlaid ownership a legal forest in which nobody lost their owner, the observed views collected; for rows listed more than once its fields are what accumulating the ordered scans gives; an error names a taken key, an illegal touched field or an impossible forest, and a taken key always is an error |
| RelationIndexDeltas.ResourcesSupported | relation_index.go:279-305 | Accepts exactly the rewrites of live rows that keep their lookup keys |
| RelationIndexDeltas.RecordScan | relation_index.go:126-159 | A scanned field lands in the entry the lookup reaches, which for a field listed before need not be the new one |
| RelationIndexDeltas.ScanOverrides | relation_index.go:335-375 | Either every field of every proposed row is scanned, row by row and field by field in declared order, legal and listed with exactly its targets, or some field of some proposed row is illegal |
| RelationIndexDeltas.SupportsOwnershipChanges | relation_index.go:842-851 | Refuses exactly the changes that leave a child without the owner it had |
| RelationIndexDeltas.AcceptedIsLegal | relation_index.go:264-388 | Soundness of the fast path: when no untouched pointer waits for a new row, an accepted delta means the full validator accepts the same overlaid graph, and the patched fields are exactly its fields |
| RelationAddresses.AddressedMeans | relation_index.go:280-345 | The delta is tried exactly for commits whose rewrites are of live rows that keep every value somebody looks their type up by, whose new rows look up only what live rows look up already, stand under fresh keys, and share no looked-up value with a live or new row |
| RelationAddresses.KeyClashMeans | relation_index.go:417-438 | A taken key is reported exactly when the rest fits and some new row has a looked-up value that another row, live or new, has too |
| RelationIndexDeltas.CollectInverseTargets | relation_index.go:853-872 | Collects every touched node with views and every node a rescanned borrow or option pointed at before or after |
| RelationRewiring.PointerReturns | relation_index.go:979-1002 | A pointer rewired to the target it resolved to resolves to it again |
| RelationRewiring.WiredMeans | relation_index.go:950-977 | Rewiring relation fields at their targets keeps the meaning of the whole graph and leaves no new dangling pointer |
| RelationPublishing.MoveChild | relation_index.go:874-948 | Moving one child between owners keeps the child lists the exact inverse of the owners map |
| RelationPublishing.PublishFields | relation_index.go:890-906 | After every listed field is replaced, last entry winning, the incoming counts are again the transpose of all field targets |
| RelationPublishing.PublishOwners | relation_index.go:908-919 | After every owner change the child lists are again the inverse of the owners map, which is the old one overlaid with the changes |
| RelationPublishing.RewireLinks | relation_index.go:950-977 | Every listed field of every touched live row holds the keys of its published targets, every other field and row what it held |
| RelationPublishing.RewireViews | relation_index.go:950-977 | Every view of an observed node lists exactly its distinct holders in order, every other view what it listed |
| RelationPublishing.ApplyWrites | engine.go:458-460 | The live rows become the proposed ones in place, without a row changing address |
| RelationPublishing.ApplyCreates | engine.go:462-473 | New rows get addresses of their own; existing rows keep theirs |
| RelationPublishing.InverseHolders | relation_index.go:1004-1034 | A recomputed inverse view lists each borrow or option holder once, in ascending order, and nobody else |
| Ordering.TextOrder | relation_index.go:1024-1030 | The order views and sorted key lists stand in: type names by the first character where they differ or the shorter first |
| RelationPublishing.UnobservedView | relation_index.go:853-872 | A view nobody recomputes still lists exactly its holders |
| RelationPublishing.PublishAndRewire | relation_index.go:874-1002 | Publishing in place replaces fields, counts, lookups, owners and children by the delta's, rewires the touched rows and recomputes the observed views; no row changes address |
| RelationPublishing.PublishedSteady | relation_index.go:874-977 | Publishing a sound delta over a steady state gives a steady state: the index mirrors the new rows, nothing dangles, every inverse view is exact |
| RelationViews.ViewTransposes | relation_index.go:1004-1034 | In a steady state of a schema whose views were accepted, a view lists a row, once, if and only if a pointer of the field it names, in that row, reaches the view's row |
| RelationViews.BorrowViewed | relation_index.go:1014-1016 | A borrow and the view that names it are transposes: the view of k lists h if and only if k is among the targets of h |
| RelationViews.OptionViewed | relations.go:236-243 | The same for an option |
| RelationViews.EveryPointerReaches | relations.go:470-497 | In a steady state every pointer that leads by a value reaches exactly one live row |
| RelationPublishing.CommitIndexDelta | engine.go:449-491 | One commit on the fast path leaves a steady state over exactly the proposed rows |
| RelationRebuilds.BuildCommittedRelationIndex | relation_index.go:1036-1154 | The rebuild mirrors the surviving graph: targets, ordered field targets, incoming multiplicities, owners and children |
| RelationRebuilds.IndexRelationFields | relation_index.go:1115-1154 | Every declared link field of every surviving node has an entry, empty to begin with, and nothing else has |
| RelationRebuilds.LoadReferences | relation_index.go:1084-1098 | Loading the references between surviving nodes gives each field its targets in order and keeps the counts their transpose |
| RelationRebuilds.FilterOwnership | relation_index.go:1100-1110 | What is left of the owners map has two surviving ends, and the child lists are its inverse |
| RelationGraph.MirrorsUnique | differential_test.go:63-175 | A graph has one index: any two that mirror it agree up to empty buckets and child order |
| RelationRuns.StartIndex | relation_runtime.go:362-416 | From the live rows alone there is a first index exactly when they are a legal graph, and it mirrors them |
| RelationRuns.TryCommit | engine.go:335-357 | On the fast path a commit is published if and only if its rows are properly addressed (rewrites are of live rows and keep their lookup keys; new rows have fresh keys and indexed lookups), the proposed graph is legal and no child loses the owner it had; a published commit keeps the state steady and moves no row, any other changes nothing and is left to the full path |
| RelationRuns.CommitExact | relation_index.go:264-388 | Over a steady state the conditions the delta checks locally are exactly those conditions on the whole proposed graph |
| RelationRuns.RefusalDeserved | relation_index.go:264-388 | The delta reports an error, as opposed to falling back, only where the full validator refuses the proposed graph or a new row's lookup key is taken |
| RelationRuns.RunCommits | relation_index.go:874-926 | A run of any number of fast-path commits goes through exactly the states the legality of each commit prescribes; the index stays the index of the live rows and no row has moved |
| RelationRuns.AssertCommittedIndexConsistent | differential_test.go:15-61 | A rebuild from the live rows never differs from the published index |
| RelationRuns.DifferentialRun | differential_test.go:198-300 | After each of any number of commits, not 200, the state is the one the commit prescribes and the index published in place equals a fresh rebuild from its rows |
| RelationFallbacks.PublishRebuild | engine.go:492-512 | Publishing a rebuilt index rewires every relation and recomputes every view: a steady state over the survivors, at the addresses the rows had |
| RelationFallbacks.KeepModel | engine.go:698-725 | The validated model stays, with its nodes bound to the live rows |
| RelationFallbacks.KeptUsable | relation_runtime.go:383-418 | After a publication without deletes the kept model, stale leftovers and all, is one the next transaction may reuse |
| RelationFallbacks.CommitFull | engine.go:335-512 | The full path, reusing the committed model where it can, publishes if and only if its rows fit the live ones and the full validator accepts graph and deletes with the least cascade; what it leaves is a steady state over exactly the survivors, and the validated model, leftovers included, is kept for the next commit unless something was deleted; a refusal changes nothing |
| RelationFallbacks.CommitTransaction | engine.go:335-512 | The whole commit, delta first and full validation behind it, on top of whatever model the commit before left: without deletes it is published if and only if the rows fit, the proposed graph is legal and no new row takes a lookup key, and it keeps a model exactly when the delta did not take it; with deletes exactly when the full validator accepts; either way the state is steady afterwards, a kept model is usable for the next commit and surviving rows stay where they are |
| RelationMixedRuns.WithinUnique | differential_test.go:63-175 | A graph has one index whatever set of lookup fields it was built with |
| RelationMixedRuns.DifferentialMix | differential_test.go:198-300 | Any mix of delta commits, full commits with or without a reused model, deletes and flushes: every step does exactly what it prescribes and leaves the index a rebuild would give, up to the first flush that loses a field and to the end if none does; a loss is a flush with that field exposed |
| RelationTransactions.RelationTargetKeysChanged | engine.go:1227-1247 | Reports a change exactly when some rewritten row moves a value others look it up by |
| RelationTransactions.ExtendTargets | engine.go:1165-1192 | The committed lookup index extended by new rows is the recomputed one, and a rebuild is asked for exactly when a new row's key is taken |
| RelationTransactions.PrepareTransactionRelationState | engine.go:1119-1195 | The prepared target index and fields are always those of the proposed graph; a rebuild is asked for exactly when there is no committed model, a new row brings a type, a rewritten row moves a lookup key or a new key is taken, and otherwise the committed model, whatever its leftovers, can be rebased on them |
| RelationAddresses.ReusableMeans | engine.go:1119-1195 | A committed model is reused exactly for transactions that bring no new type, keep every value rows are looked up by, and bring rows that share none |
| RelationModelDelta.ExtendRescan | relation_runtime.go:925-939 | The rescan is exactly the overridden nodes and the holders of leftovers whose key some row of the proposed graph bears |
| RelationRescans.RescanCatches | relation_runtime.go:925-939 | If the leftovers cover the dangling pointers, a holder left out of the rescan was waiting for nobody, however many of the leftovers are stale |
| RelationRescans.SeenExact | relation_runtime.go:913-962 | The fields the model delta works with, rescanned holders as they are and all others as the committed model has them, are those of the proposed graph if and only if no untouched holder outside the rescan waits for a new row |
| RelationRescans.AcceptsBuildable | relation_runtime.go:913-1007 | Missing nobody, what the model delta accepts is exactly what a full build accepts |
| RelationRescans.LeftoversExact | relation_runtime.go:934-940 | Missing nobody, the leftovers it hands on are those of a full build if and only if the kept ones are exactly the pointers that still dangle; leftovers that cover the dangling pointers keep doing so |
| RelationRescans.StaleAfterPublication | relations.go:470-497 | Once a publication has cleared every dangling pointer, kept leftovers are those of a full build only if there are none, and they always cover |
| RelationModelDelta.SplitReferences | relation_runtime.go:942-950 | Keeps exactly the references of holders outside the rescan, in order, and marks exactly the children whose ownership the others touched |
| RelationModelDelta.Rescan | relation_runtime.go:952-962 | Rescanning the marked nodes records each of their fields as the full scan would, or meets a field no scan gets through |
| RelationModelDelta.RedecideOwners | relation_runtime.go:990-995 | Each affected child gets the owner its tallies decide; a refusal names a child with two owners or with sides that disagree |
| RelationModelDelta.SettleOwnership | relation_runtime.go:961-1007 | Redeciding the affected children and walking only from them succeeds exactly when the fields the delta sees can be owned as a forest, and gives that forest |
| RelationModelDelta.BuildRelationModelDelta | relation_runtime.go:913-1007 | Over any sound committed model the incremental build succeeds exactly when every rescanned field can be scanned and what the delta sees is a legal forest; its fields are those of the proposed graph if and only if nobody outside the rescan waits; then it succeeds exactly when the full build does, with the same fields, owners and children, and with the same leftovers if and only if the kept ones still stand |
| RelationStaleModels.StaleLeftoverCarried | relation_runtime.go:934-940 | A concrete run of two commits by the full path: the first publication clears a dangling option, the second commit reuses the model and carries the leftover on, and a full build over the rows has none |
| RelationStaleModels.ForgottenPointer | relation_runtime.go:925-939 | A concrete model that knows nothing of a pointer its holder got back: when the row that pointer names is created, the reused model says it reaches nobody |
| RelationTransactions.ValidateTransactionGraph | engine.go:1062-1109 | Whether or not the committed model was reused, the answer depends on the proposed graph alone, unless the reuse misses a holder that waits: accepted exactly when the survivors are legal and none borrows a doomed node; where it misses one, what it accepts and sees is stated as it is |
| RelationDeletions.DeletionChildren | relation_runtime.go:1352-1378 | Lists exactly the proposed children and the committed ones nobody adopted |
| RelationDeletions.CascadeFrom | relation_runtime.go:1316-1333 | The worklist stops at the least set that contains the explicit deletes and is closed under those children |
| RelationDeletions.DeletionClosure | relation_runtime.go:1305-1350 | Over any model, unknown deletes are refused; otherwise the closure is the least one, and it is restricted if and only if a survivor has a borrow, to-one or slice, or a to-one own with a target inside it |
| RelationDeletions.RequiredSurvives | relation_runtime.go:1335-1347 | Unvetoed, a required pointer of a survivor still reaches a survivor |
| RelationDeletions.DeletionAccepted | relation_runtime.go:1245-1350 | For a cascade-closed set the checks pass if and only if the survivors are a legal graph and no borrow of theirs, to-one or slice, has a doomed target |
| RelationDeletions.ValidateDeletes | relation_runtime.go:1305-1350 | A transaction's deletes are refused exactly when one is unknown, a survivor vetoes, or a survivor's required relation is missing; over a sound model that means accepted if and only if they exist, the survivors of the least closure form a legal graph and no survivor borrows into it |
| RelationCascades.DeletesMayGo | relation_runtime.go:1305-1350 | Over a graph a model can be built for, known deletes go through if and only if no survivor of the cascade has a borrow pointer or a to-one own pointer to a doomed row, or lacks a relation it requires |
| RelationCascades.BorrowsSurvive | relation_runtime.go:1335-1347 | After an accepted delete every borrow of a survivor, slice or not, reaches exactly the rows it reached before, in order |
| RelationCascades.OthersLetGo | docs/relations.md:105-109 | And any other field of a survivor reaches what it reached before without the doomed rows |
| RelationCascades.BranchesGo | relation_runtime.go:1740-1768 | Deletes that change no owner take along exactly the rows that have a deleted row among their owners |
| RelationCascades.ChildGoes | relation_runtime.go:1352-1378 | In a transaction that also changes owners a child goes with its new owner, and with its old one only if nobody owns it now |
| RelationSurvivors.TargetsSurvivors | relation_index.go:1036-1113 | In the surviving graph a field reaches exactly its surviving targets, in order |
| RelationDeleteDelta.CommittedClosure | relation_runtime.go:1739-1755 | Cascading over the committed child lists gives the least closure |
| RelationDeleteDelta.CollectSurvivors | relation_runtime.go:1765-1815 | Lists every surviving field that points into the doomed set, each once, in an order the index can produce: the doomed nodes in some order, each bucket as it stands; it falls back exactly when one of those fields may not let go of its target or a doomed row shares a lookup key |
| RelationDeleteDelta.CollectFromBucket | relation_runtime.go:1774-1800 | One doomed node's holders: accepted exactly when each surviving one may let go, and then listed once |
| RelationDeleteDelta.KeysAreUnshared | relation_runtime.go:1802-1815 | Accepts exactly when no lookup entry of a doomed row is marked duplicate |
| RelationDrops.DropDoomedPointers | relation_runtime.go:1880-1895 | The compacted field is the original without its doomed pointers |
| RelationDrops.DropKeeps | relation_runtime.go:1880-1895 | What the compacted field reaches is exactly the surviving targets, in order |
| RelationDrops.DoomedByIdentity | relation_runtime.go:1823-1829 | On a steady state each pointer has exactly one row it can lead to, and deciding by its lookup key whether it is doomed agrees with deciding by that row |
| RelationDrops.DropSurvivors | relation_runtime.go:1817-1837 | Every listed field of a survivor loses its doomed pointers in place; nothing else changes |
| RelationDeleteFlush.DetachSurvivors | relation_runtime.go:1817-1851 | Goes through if and only if no holder listed twice keeps an owned survivor and every owned node keeps an edge to its owner that the list does not lose; then the survivors have let go of the doomed set, owners are untouched and a field is lost exactly where the list loses it, and if none is, the state is steady; a refusal changes no index |
| RelationOrphans.ForestSeen | relation_index.go:642-697 | If every owned node keeps an edge to its owner, own slice or its own ownedby field, ownership as the delta sees it after the drop is the forest there was |
| RelationOrphans.OwnedKeepsEdge | relation_index.go:842-851 | And if the forest the delta sees lets no owned node go unowned, every one of them keeps such an edge |
| RelationOrphans.DropAcceptable | relation_runtime.go:1839-1843 | The touched rows, in any order and listed any number of times, are acceptable to the index delta if and only if no holder listed twice keeps an owned survivor and every owned node keeps an edge that the list does not lose |
| RelationOrphans.OrphansOnly | relation_index.go:842-851 | With nothing lost the edge condition says that every doomed node whose owner survives names that owner itself |
| RelationOrphans.DropSound | relation_index.go:264-388 | When the list loses nothing, a delta with rows listed more than once is as sound as one with each row listed once |
| RelationErasure.EraseNode | relation_runtime.go:1902-1957 | Erasing one doomed node takes it out of fields, counts, lookups, owners and children, and only it |
| RelationErasure.EraseFields | relation_runtime.go:1906-1934 | Erasing a doomed node's fields leaves exact counts for everyone outside the doomed set |
| RelationErasure.EraseOwnership | relation_runtime.go:1945-1950 | Erasing a doomed node's ownership leaves exact child lists for everyone outside the doomed set |
| RelationErasure.RemoveDeletedFromCommittedIndex | relation_runtime.go:1902-1979 | The erasure leaves the index of the remaining rows, with the views of everyone who lost a holder recomputed |
| RelationDeleteDelta.ErasedSteady | relation_runtime.go:1902-1979 | Erasing a set no survivor points into turns a steady state into a steady state over the survivors |
| RelationDeleteFlush.FlushDeletesViaDelta | relation_runtime.go:1733-1876 | From a steady state and for any order of the hit fields: the delta path is taken if and only if those fields may let go, no doomed key is shared, no holder listed twice keeps an owned survivor and every owned node keeps an edge the order does not lose; the closure is the least one, and what is left is the steady state of a rebuild over the survivors if and only if the order loses no field; the fields afterwards are given outright; falling back changes no index |
| RelationListings.RowsFound | relation_index.go:335-375 | Where the first and the last listing of a field stand among the ordered scans, counted from the list of survivors and the declared fields before it |
| RelationListings.LostIsExposed | relation_runtime.go:1817-1851 | A lost field still has a surviving target, its holder has k at least 2 hit fields of n declared link fields, and its own position p has (k - 1) * n + p below 8 |
| RelationListings.ExposedIsLost | relation_runtime.go:1817-1851 | And each such field has an order of the hits that loses it |
| RelationListings.OrdersThatLose | relation_runtime.go:1739-1851 | Over all orders of the hits: the fields some order loses are exactly the exposed ones, and no order loses anything if and only if no field is exposed |
| RelationListOrders.ProducibleListed | relation_runtime.go:1765-1800 | Every visit of the doomed nodes, each bucket read as it stands, lists each hit field once |
| RelationListOrders.ProducedThatLose | relation_runtime.go:1765-1851 | Over the orders one index can produce: a field is lost by one of them if and only if visiting at most eight doomed nodes first lists all hits of its holder, two or more, with its last scan among the first eight, and no order loses anything if and only if there is no such field; each of them is exposed |
| RelationBucketOrders.BucketProtects | relation_runtime.go:1773-1800 | A concrete index where a field is exposed, yet no order that index can produce loses it |
| RelationDeleteFlush.UnexposedFlush | relation_runtime.go:1733-1876 | With nothing exposed no order loses anything, and the delta path is taken exactly when the hit fields may let go, no doomed key is shared, no holder listed twice keeps an owned survivor and every doomed node with a surviving owner names it |
| RelationOwnSlices.OwnSliceRefused | relation_runtime.go:1765-1766 | A concrete steady state in which deleting an owned row hits nothing but the own slice that lists it, and the flush does not go through on the delta path |
| RelationFlushLoss.FlushLosesBorrow | relation_runtime.go:1733-1876 | A concrete steady state, a holder with two options and a borrow, for which deleting both option targets goes through, keeps the borrowed row and leaves the required borrow empty, where a rebuild over the survivors lists it |
| RelationFlushes.FallbackConverges | relation_runtime.go:1817-1819 | When the builder refuses after pointers were dropped, full validation of those rows accepts, with the same closure, and a rebuild over them lists exactly the survivors |
| RelationFlushes.FlushDeletes | relation_runtime.go:1733-1876 | By either path the flush goes through exactly when the deletes may go; the state is that of a rebuild over the survivors if and only if no field was lost, and lost fields were at risk in that index and are now empty |
| IndexOrder.TupleTotal | secondary_index.go:268-293 | The field-by-field order is total and strict |
| IndexOrder.TupleTransitive | secondary_index.go:268-293 | And transitive |
| IndexOrder.KeyOrder | secondary_index.go:280-293 | False comes before true, numbers, signed or not, by size, text by the first differing byte or the shorter prefix first |
| IndexOrder.TupleOrder | secondary_index.go:268-278 | One row precedes another exactly when it has the smaller value in the first field where they differ |
| IndexOrder.TupleInjective | secondary_index.go:303-331 | The concatenated encoding of index fields identifies the fields: equal bytes, equal tuples |
| IndexOrder.UniqueKeyInjective | secondary_index.go:374-390 | Two rows have the same unique key exactly when their index fields are equal |
| WireFormat.UniqueIsLaidOut | secondary_index.go:303-331 | A unique key is its single text as it is, or its values one behind the other: a byte, eight big-endian bytes, or a length and the text |
| SecondaryIndexes.Search | secondary_index.go:733-738 | Binary search finds the first position where a monotone condition holds |
| SecondaryIndexes.LowerBound | secondary_index.go:530-564 | The position before which every entry precedes the row and from which none does |
| SecondaryIndexes.RemovedAt | secondary_index.go:530-546 | The row itself stands at that position, and taking it out leaves exactly the other rows in order |
| SecondaryIndexes.InsertedAt | secondary_index.go:556-564 | Inserting there leaves exactly the enlarged set in order |
| SecondaryIndexes.OrderedUnique | secondary_index.go:214-238 | A set of rows has one ordered list, whichever path made it |
| SecondaryIndexes.EntriesOrder | secondary_index.go:268-278 | Of two entries the earlier has the smaller value in the first field where their rows differ, or the smaller id if all are equal |
| SecondaryIndexes.KeyedUnique | secondary_index.go:240-266 | And one unique map |
| SecondaryCommits.SecondaryIndex.RemoveEntry | secondary_index.go:530-554 | Taking one row out by binary search leaves list and unique map exactly those of the other rows |
| SecondaryCommits.SecondaryIndex.AddEntry | secondary_index.go:556-572 | Putting one row in leaves list and unique map exactly those of the enlarged set |
| SecondaryCommits.SecondaryIndex.ValidateIndexes | secondary_index.go:333-372 | Fails if and only if two rows would share a unique key after the commit, swaps and delete-then-reuse included |
| SecondaryCommits.NoCollision | secondary_index.go:343-369 | The two checks, against untouched rows and among the writes, leave no third way to collide |
| SecondaryCommits.SecondaryIndex.PrepareIndexes | secondary_index.go:392-439 | Taking the written rows out, one at a time or in a batch of 64 and more, leaves exactly the untouched rows indexed |
| SecondaryCommits.SecondaryIndex.PrepareBatch | secondary_index.go:412-439 | The single filter over the entries ends where removing one by one ends |
| SecondaryCommits.SecondaryIndex.FinishIndexes | secondary_index.go:441-463 | Putting the written rows back under their new fields indexes exactly the live rows |
| SecondaryCommits.SecondaryIndex.FinishBatch | secondary_index.go:465-499 | And so does sorting and merging them in one sweep |
| SecondaryCommits.MergeEntries | secondary_index.go:501-528 | Merging two ordered lists of disjoint rows gives the ordered list of both |
| SecondaryCommits.SecondaryIndex.Commit | engine.go:447-499 | A commit is refused exactly on a key collision and then changes nothing; otherwise every index ends valid over exactly the post-commit rows |
| SecondaryCommits.SecondaryIndex.Rebuild | secondary_index.go:214-266 | A rebuild from the rows succeeds exactly when keys are unique, and otherwise keeps the old index |
| SecondaryCommits.RebuildKeys | secondary_index.go:240-266 | The unique map is rebuilt exactly when no two rows share a key |
| SecondaryCommits.SamePathsSameIndex | secondary_index.go:214-499 | One at a time, in a batch or rebuilt: the same rows give the same entries and the same unique map |
| IndexRanges.ComparesLeading | secondary_index.go:723-732 | Comparing field by field up to the prefix decides equality and order of the leading fields |
| IndexRanges.CheckPrefix | secondary_index.go:704-762 | A prefix is refused exactly when it is longer than the index, absent in some position, or of another kind |
| IndexRanges.PrefixBounds | secondary_index.go:704-741 | Two binary searches bound exactly the rows whose leading fields equal the prefix; an overlong, absent or mistyped value is an error |
| IndexRanges.RangePrefix | secondary_index.go:666-673 | The slice is contiguous and holds exactly those rows |
| IndexRanges.RangeAfter | secondary_index.go:675-702 | The slice holds exactly the rows of the prefix whose next value exceeds the cursor, a larger number, a true after a false or a later text, in ascending order of that value and then of the rest; a cursor with no field to stand in is an error |
| CommitLocks.LockTouchedBranches | branchlock.go:40-82 | Collects the roots of everything touched, each once, in ascending order |
| CommitLocks.TransactionResourceLocks | engine.go:586-623 | Lists every written row and every deleted row the transaction did not create, each once, in ascending order |
| CommitSafety.PlanClimbs | engine.go:315-408 | Graph lock, structure locks, branch locks, row locks: each session's plan is strictly ascending in one global lock order |
| CommitPlans.UpdateLocks | engine.go:380-408 | In every reachable state an update past acquiring holds exactly the graph lock, to write if relations change and to read if only a participant's row does, the structure locks of the indexed tables it writes, the branch locks of the tops of what it writes, and its rows |
| CommitPlans.LookLocks | view.go:15-97 | A fetch, a View or a ViewMany holds exactly the locks of its kind |
| CommitPlans.HeldInOrder | engine.go:614-620 | What any process holds it took by level, then by type name, then by id |
| CommitPlans.LockShared | branchlock.go:10-22 | A claim may be taken exactly when every other claim on the lock is shared and so is this one |
| CommitSafety.StepKeepsExclusive | engine.go:405-415 | No two processes ever hold conflicting claims on a lock |
| CommitSafety.StepKeepsLocked | engine.go:298-518 | Every step keeps sessions on their plans; only the holder of the graph write lock changes owners, so nobody's plan goes stale |
| CommitHistory.StepKeepsConsistent | engine.go:417-460 | Every step keeps each row's history a chain, snapshots current or known stale, and torn rows owned by their writer |
| CommitHistory.ReadsPrevious | engine.go:417-460 | Over every run each version of each row records that it was made from the version just before it, and which value that was |
| CommitOrigins.CopyIsDraft | engine.go:1250-1276 | Over every run a process's working copy of a row is what it last took from the row, by a fetch or by a refresh, with its own edits since |
| CommitOrigins.NoLostUpdate | engine.go:417-460 | Over every run of any number of processes, each version of each row was stored, at the version number just before it, from a working copy that was taken from the value of the version just before it and changed only by the writer's own edits |
| CommitOrigins.UneditedStoreChangesNothing | engine.go:1266 | A process that commits again after a refresh without another edit stores the value that is there |
| CommitHistory.RefreshFits | engine.go:1252-1277 | A refresh that reads version, copy and original without locking the row never makes a stale value look current: where its version is still the live one, the working copy it leaves is the live value |
| CommitLog.DurableIsLiveOverlaid | engine.go:444-451 | At every moment, replaying the whole frames over the snapshot gives the live rows overlaid with what is logged but not applied, each such row owed by one process |
| CommitLog.FramesUnsplit | wal.go:49-72 | The log is whole frames and at most the beginning of one more: rows of two commits never mix |
| CommitReaders.WatchersExclude | branchlock.go:101-109 | Nobody past its locks is writing a row of a branch, or a listed row, that a reader holds |
| CommitPlans.WatchesMeans | branchlock.go:10-22 | A reader of a branch relies on exactly the rows with the same top owner, a reader of rows on exactly those rows |
| CommitReaders.ReadersSeeStill | view.go:10-97 | While a View, ViewMany, ViewRange or snapshot holds its locks, no step changes a row it relies on, no such row is half written, and the branch is not regrouped |
| CommitReaders.NoWaitCycle | engine.go:614-620 | In no reachable state do processes wait for each other in a circle, queueing behind a waiting writer and waiting for the log included |
| CommitReaders.StuckWaits | branchlock.go:61-69 | And whoever is in the middle of something and cannot go on does wait for somebody in that sense |
| CommitReaders.NoDeadlock | branchlock.go:61-69 | In every reachable state, if any process is in the middle of something, some process can go on |
| Bytes.GetPut64 | wal.go:74-103 | A big-endian word reads back |
| WireFormat.WordBytes | wal.go:91-97 | A 32-bit word is four bytes, most significant first |
| LogFrames.EncodeFrame | wal.go:74-136 | Writes the length-prefixed frame into one buffer of exactly the measured size, and refuses exactly the frames whose counts or sizes do not fit |
| LogFrames.WriteRow | wal.go:74-136 | A row is written at its offset as its byte string, bytes before it untouched |
| LogFrames.DecodeRows | wal.go:219-287 | Reading rows one by one by a moving offset agrees with the recursive grammar, trailing bytes refused |
| LogFrames.DecodeFrame | wal.go:219-287 | The loop over a moving offset accepts exactly the well-formed bodies |
| LogFrames.BodyInverse | wal.go:74-287 | Encoding and decoding of frame bodies are mutual inverses, for both logs |
| WireFormat.FrameIsLaidOut | wal.go:80-135 | A frame is the length of what follows, the number of rows, and the rows one behind the other, each field at its position: name length, id modulo two to the 64, row length, name, row |
| WireFormat.FrameLimit | wal.go:86-88 | A frame is refused exactly when its length or its row count needs more than 32 bits |
| LogReplay.WholeIsMost | wal.go:183-200 | The number of frames wholly inside a cut, characterised by byte counts |
| LogReplay.TornTail | wal.go:165-217 | For any frames and any cut of their bytes, exactly the frames wholly inside the cut are read back |
| LogReplay.FrameReadBack | wal.go:183-200 | A whole frame in front is read back and the rest of the file is read as before |
| LogReplay.TornFrame | wal.go:183-200 | A frame missing any of its last bytes yields nothing |
| LogReplay.ReplayLog | transaction_wal.go:124-177 | The reading loop computes the rows of one type from the durable frames, or the first malformed row |
| LogReplay.ReplayFrame | wal.go:196-212 | One frame's rows of the type are appended, or the first malformed one stops the replay |
| LogReplay.FailureStands | wal.go:202-216 | A row that fails inside a prefix of the frames fails the whole replay the same way |
| LogReplay.ReplayAfterCrash | transaction_wal.go:124-177 | Replaying a log cut anywhere gives, for every type at once, the rows of the transactions wholly written and of no other |
| WireFormat.LoggedRecovers | db.go:309-322 | A written row is recovered as itself, and a deleted one, logged under its negated id with no bytes, as deleted |
| WireFormat.MalformedRefused | transaction_wal.go:153-168 | An id of zero, a negated id with bytes, and bytes that do not decode are refused |
| WireFormat.CrashKeepsTransactions | transaction_wal.go:124-177 | Wherever a crash cuts the log of a run of transactions, replay gives every table exactly its changes by the transactions that were wholly written, in order |
| ScalarRows.EncodedSize | wal.go:349-396 | The recursive size is exactly the number of bytes of the encoding |
| WireFormat.CompactRows | wal.go:336-396 | The compact codec takes a row exactly when it is a struct of flags, numbers, texts and byte slices of 32-bit length and aggregates of those, that fits an int together with its tag |
| ScalarRows.EncodeScalarValue | wal.go:402-440 | The in-place encoder writes exactly the encoding and touches nothing else |
| ScalarRows.EncodeScalarAggregate | wal.go:442-449 | Writing the elements one after another writes the aggregate's encoding and touches nothing else |
| ScalarRows.RoundTrip | wal.go:464-549 | For every nested shape, decoding an encoding followed by anything gives the value back, nil and empty byte slices kept apart, and consumes exactly its bytes |
| ScalarRows.PrefixRejected | wal.go:464-549 | Every proper prefix of an encoding is rejected |
| ScalarRows.EncodeRow | wal.go:296-312 | A scalar row becomes its tag and its encoding; other rows fall back |
| ScalarRows.RowRoundTrip | wal.go:296-334 | A whole row reads back, and no shortened row does |
| ScalarRows.EncodedInjective | wal.go:402-440 | Two values of one shape with equal encodings are equal |
| ScalarRows.AcceptedIsEncoded | wal.go:464-549 | For full-width shapes whatever the decoder accepts is an encoding of what it returns |
| WireFormat.ScalarIsLaidOut | wal.go:402-445 | Every encoded value is laid out plainly: a byte for a flag, eight for a number, a length and the bytes for text, the length plus one for byte slices with zero for nil, parts of an aggregate one behind the other |
| WireFormat.NarrowWraps | wal.go:470-490 | A number read into a narrower field keeps its low bits and lies in the range of the field |
| WireFormat.RowTags | wal.go:289-334 | The first byte of a row decides between gob and the scalar codec; any other value and the empty row are refused |
| Recovery.ApplyRecoveredRows | storage.go:106-148 | One pass with deferred tombstones equals applying each write and delete in order, refuses exactly rows whose stored id differs, and moves no surviving row |
| Recovery.RowStore.RangeResources | chunkstore.go:196-207 | One pass over slots and tombstones finds every live row at the place it stands, and no buried one |
| Recovery.RowStore.DeleteListed | chunkstore.go:228-247 | One sweep over all slots buries exactly the live rows whose id is listed and hands back exactly those rows; every other row stays in its slot and the store is still well formed |
| Recovery.LastEntryDecides | storage.go:83-104 | An id the log mentions ends up the same from any starting rows |
| Recovery.AppliedMeans | storage.go:106-148 | After recovery an id holds the value of the last entry about it, nothing if that entry deletes it, and what the snapshot held if there is none |
| Recovery.ReplayIsIdempotent | storage.go:83-104 | Replaying the whole log over a snapshot that absorbed any prefix of it gives the same rows |
| TowerShadows.WireNode | tower.go:755-791 | Every relation pointer of a node that names a shadow node is redirected to it, the others left |
| TowerShadows.WireField | tower.go:755-791 | One field: pointers that name shadow nodes are redirected in place, the rest kept in order |
| TowerShadows.RewiringKeepsIds | tower.go:755-791 | Wiring changes addresses only, never the ids a row points at |
| TowerRefresh.AddShadows | tower.go:386-395 | New nodes get new shadows copied from their live rows; no existing shadow is touched |
| TowerRefresh.CopyMoved | tower.go:397-420 | Exactly the shadows that differ from their live row, by scalar or by relation id, are copied |
| TowerRefresh.WireMoved | tower.go:422-426 | Wiring the copied and added shadows, one by one, ends where wiring them at once would; no other shadow is touched |
| TowerRefresh.CheckLive | tower.go:361-370 | Agrees exactly when every walked node is still committed at the address it was recorded at |
| TowerRefresh.RecordWalk | tower.go:502-564 | The refreshed walk covers exactly the live nodes, each at its live address; copied and added nodes carry their current live relation words, all others the words they had |
| TowerRefresh.RecordRelations | tower.go:718-743 | Baselines of copied and added nodes are those of the shadows; all others are kept |
| TowerRefresh.Replica.Refresh | tower.go:347-457 | Returns true exactly when every known node is still committed at the address the replica holds for it; then new and stale shadows are copied and wired, all others left as they were, baselines brought in line, the walk covers the live nodes at their live addresses with the words of copied and added nodes renewed, and no shadow has moved; a false return changes nothing |
| TowerRefresh.Replica.ForgetNodes | tower.go:464-496 | Deleted nodes leave the node map, baselines and walk; surviving shadows stay where they are |
| TowerWorlds.RefreshIsomorphic | tower.go:397-457 | After a refresh the shadow graph has the live node set, equal scalars and equal relation ids |
| TowerWorlds.RefreshWired | tower.go:422-440 | And every relation that names a node points at its shadow, if and only if no untouched shadow pointed, by id, at a node that was only now added |
| TowerWorlds.LateTargetIsMissed | tower.go:404-430 | A concrete replica refreshed twice: the holder is shadowed while its target is not yet committed, then the target arrives, and the shadow of the holder still points at the live target beside the shadow of it |
| TowerWorlds.RefreshIsRebuild | tower.go:335-346 | When the world is closed and nothing dangles, copying only what differed has made the graph a rebuild over these shadows would make |
| TowerWorlds.RefreshBaselined | tower.go:427-440 | Re-recording baselines for moved nodes only leaves every baseline right |
| TowerWorlds.RefreshWalked | tower.go:502-564 | Renewing the words of copied and added nodes only leaves every walk entry with the ids its live row holds |
| TowerWorlds.ForgettingKeepsWired | tower.go:464-496 | Forgetting nodes keeps the rest of the world closed |
| TowerLaws.MirrorMeans | tower.go:397-440 | What a mirrored world is: the same rows, equal plain values, and relations that name the same rows in the same places |
| TowerLaws.ClosedMeans | tower.go:422-440 | What a closed one is: every pointer that names a shadowed row is the pointer to its shadow |
| TowerWorlds.RefreshClosed | tower.go:581-593 | A wired replica refreshed in place is isomorphic to the live graph at unchanged addresses, and wired exactly under the condition above |
| TowerPatches.DiffFields | tower.go:1347-1404 | Names exactly the fields that moved: plain fields against the live row, to-one relations by id and lists by pointer against the baseline |
| TowerLaws.ToOneMoved | tower.go:1386-1404 | A to-one relation has moved exactly when it names another row, whatever object it points at |
| TowerLaws.ListMoved | tower.go:1386-1404 | A list has moved exactly when some pointer of it is another, or its length differs |
| TowerLaws.PlainMoved | tower.go:1347-1384 | A plain field has moved exactly when its value is another |
| TowerCommits.RelationChanged | engine.go:755-799 | The graph path is chosen exactly when some resource moves a relation by id or a lookup value |
| TowerLaws.RelinkMeans | engine.go:755-799 | A write reaches the relation graph exactly when some relation names other rows afterwards or a value others look the row up by changes |
| TowerCommits.ResourcesRelink | tower.go:1488-1516 | And that is exactly when a shadow of the branch names other nodes than the live row it was compared with, or carries another lookup value; plain-field commits in between make no difference |
| TowerPatches.DiffBranch | tower.go:1030-1057 | One change per node of the branch that has moved, with exactly the moved fields |
| TowerPatches.MaterializeChanges | tower.go:1488-1516 | Each change becomes a resource with the version and the row as they are read by then, and that row with the changed fields taken from the shadow |
| TowerPatches.PatchedMerges | tower.go:1488-1536 | Fields compared with one state of a row and copied over a later one are a merge: the shadow where it had moved, the later row where it had not, and the relation ids of the shadow |
| TowerPatches.PatchedIsShadow | tower.go:1488-1536 | Patching makes the row what the shadow is, equal scalars and equal relation ids, and nothing is reported exactly when nothing differs |
| TowerCommits.LiveRows.CommitScalars | tower.go:1538-1589 | Conflicts exactly when some version moved, is refused exactly when the versions hold and the index validators say no, and otherwise writes every row where it stands, each one version further; anything else changes nothing |
| TowerCommits.LiveRows.CommitRelations | tower.go:1591-1598 | The graph commit of a branch: accepted exactly when graph and index validators agree and no version moved; every written row then has the scalars and relation ids of its resource, its pointers name live rows, and it is one version further; anything else changes nothing |
| TowerCommits.VersionsMatch | tower.go:1565-1570 | Passes exactly when every resource still carries its row's version |
| TowerLaws.OverlapConflicts | tower.go:1565-1589 | Of two writes that read a row at the same version only one lands: the other no longer matches |
| TowerLaws.DisjointStands | tower.go:1565-1570 | A write of other rows does not put it out of date |
| TowerCommits.UpdateWithin | tower.go:882-938 | One attempt, with other transactions committing before the branch is compared, before the versions are read and before the commit: it settles exactly when nothing moved, or no changed node was written by others after its version was read and the validators agree, and conflicts exactly when one was; settled by either path, the rows of the branch nobody wrote that late are the merge of their shadows with what was read, and exactly the changed rows are one version further; after a graph commit none of them points into the shadow world; otherwise only what the others wrote has changed |
| TowerRetries.RunCallback | tower.go:882-895 | The callback changes the shadows of the branch and no other, and sees all of them as they were |
| TowerLaws.EditMeans | tower.go:882-895 | The callback assigns the fields it names, those only, and cannot add one |
| TowerRetries.Attempt | tower.go:882-938 | One attempt on a fresh copy of the rows ends as its branch, the interference and the validators say, leaves only the others' writes unless it settles, and asks for a retry exactly when it changed the graph and was overtaken |
| TowerRetries.UpdateRetrying | tower.go:830-878 | However often the loop runs, overtaken attempts leave no trace: the last one starts from exactly what the others had written by then, every earlier one had lost its race and had changed which rows a relation names or a lookup value, and only such a one is tried again |
| TowerRetries.SettledFromLatest | tower.go:830-938 | A settled write is the callback's work merged over the rows as everyone else had left them when the versions of its last attempt were read; a row nobody wrote during the attempt is what the callback made of it, and rows written after their version was read, like rows outside the branch, stay theirs |
| TowerRaces.WindowExact | tower.go:900-938 | A plain field others committed between the check that the replica is in step and the reading of the version keeps what they gave it if and only if the shadow agrees with it or had not moved from what it was compared with |
| TowerRaces.LostCommit | tower.go:900-938 | A concrete run in which a callback that sets one field silently reverts the commit of another transaction to another field of the row |
| TowerPatches.PatchKeepsPointers | tower.go:1386-1404 | With all relation ids unchanged the plain-field path leaves live pointers alone if and only if every list still is its baseline or holds the live pointers themselves |
| TowerPatches.RebuiltListEscapes | tower.go:1488-1536 | A concrete rebuilt list whose foreign pointer reaches the live row |

## Left out

- RelationIndexDeltas.BuildRelationIndexDelta: `backFields`, which deltas do not extend, are not part of it; soundness as a whole is stated for proposals that list a row once, and for repeated rows through `RelationOrphans.DropSound`.
- RelationIndexDeltas.ResourcesSupported: the comparison of `backFields` (relation_index.go:528) is not part of it.
- RelationPublishing.CommitIndexDelta: materialised back references, secondary index steps and logging of that span are not part of it; the index steps and the log are modelled on their own.
- RelationFallbacks.CommitTransaction: the members of an own slice are the model's references; foreign keys are not written back to children, and the full path always rebuilds the index. Versions, locks, secondary indexes and logging of that span are not part of it.
- RelationFallbacks.CommitFull: versions, locks, secondary indexes and logging of that span are not part of it; the source's new model shares the node map that publication updates, the model here is copied over the published rows.
- RelationDeleteFlush.FlushDeletesViaDelta: assumes that live and committed agree when it starts.
- RelationRuns.DifferentialRun: starts from a state with nothing dangling and exact views, as every publication leaves it; `backFields` are not part of the compared index.
- RelationMixedRuns.DifferentialMix: says nothing about steps after a flush that has lost a field.
- SecondaryCommits.SecondaryIndex.Commit: one index of one table; a table's indexes are independent of each other. The typed unique maps of single-field indexes are one map keyed by bytes.
- SecondaryCommits.SecondaryIndex.ValidateIndexes: for write sets with distinct ids, as a transaction's resources are.
- CommitOrigins.NoLostUpdate: update commits, snapshots and readers; creates and deletes of rows, and the unlock that looks a deleted row up again (db.go:230-234), are not steps.
- CommitReaders.ReadersSeeStill: relation and inverse fields rewritten by later publications without a version bump are not part of the row value.
- CommitLog.FramesUnsplit: one log; a failed write that leaves a partial frame behind, and appends after a torn tail, are not steps.
- LogReplay.ReplayLog: the two logs are replayed separately; the order between them is not recorded by the source either (storage.go:83-97).
- ScalarRows.RoundTrip: floats are 64-bit patterns, so the narrowing of 32-bit floats is not modelled; rows with other field kinds fall back to gob, which is a parameter.
- Recovery.RowStore.DeleteListed: slots are one list; chunks, their offsets and the reclaiming of buried slots are not modelled.
- TowerCommits.LiveRows.CommitScalars: the answer of the index validators is a parameter; logging, its failures and the locks are not part of it.
- TowerCommits.LiveRows.CommitRelations: the answers of the graph and index validators are parameters, a pointer is turned to the live row of its id, and the index it publishes is the one modelled in `Relation*.dfy`; children whose back references are materialised along with a changed row are not among the written rows.
- TowerCommits.UpdateWithin: others write at three points, not between the nodes of one pass over the branch; the answers of the graph and index validators are parameters; they are not those of the relation and secondary indexes modelled elsewhere, whose rows are another abstraction.
- TowerRetries.Attempt: copies all rows first; writes that land before the replica is found in step belong to the attempt before or make the source start over.
- TowerRetries.UpdateRetrying: every attempt copies the rows anew, where the source keeps a replica that is still in step, even one that its own scalar commit has just marked so (tower.go:935); rows are neither created nor deleted between attempts, and a loop that loses every race ends with the list of attempts it is given.
- TowerRefresh.Replica.Refresh: byte-wise segment comparison is equality of values; its false positives, which only cause an extra copy, are not modelled, nor are slice backing arrays.
- Tower epochs, the flush gate across transactions, branch caches and declared edits.
- Own-slice foreign keys materialised on children, and their agreement after a child is dropped without a new owner.
- Serializability: only changed rows are version-checked, so no lost update is claimed, not the absence of write skew.
- Reflection, struct tags, gob, files and fsync, goroutine plumbing, chunk storage internals, capacity and buffer reuse.
- Deletions of relation-free tables, and creating, reading, listing and saving single tables outside transactions.
