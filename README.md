# Neos content repository services: a Dafny model

This project models six pieces of the Neos CMS and its event-sourced content
repository:

- **The asset usage index** (`AssetUsageIndexingService`). For every node
  variant in a workspace, it records which assets the node refers to in which
  property.
  - When a node changes, `updateIndex` compares the node's asset references
    with what the index holds for its base chain: the node's own workspace
    followed by its bases up to a root. The strict bases are the chain without
    its first entry.
  - It records the new usages in the node's own workspace and withdraws them
    from all dependent workspaces.
  - It then drops rows of the node's own workspace, property by property.
    The removals of a property are those of the last base-chain row found for
    it, so a stale row survives when a later row of the same property is
    still in use.
  - The design intends each usage to be stored only in the highest workspace
    of the base chain that has it. The model proves no such invariant: an
    own-workspace copy of a row that a base also holds is never removed.
  - Base chains, dependent sets and asset-variant originals are memoised in
    runtime caches.
- **The command handling facade** (`CommandHandlingDependencies`). It answers
  read-side questions about content streams, workspaces and content graphs.
  - `overrideContentStreamId` lets a closure see the graph of another content
    stream for one workspace. Nesting it for the same workspace is rejected.
  - `handleInMemory` commits a command's events to an in-memory event store
    and replays them into the content graph projection.
- **The authorization service** (`ContentRepositoryAuthorizationService`). It
  covers:
  - the workspace permissions of anonymous users and of accounts;
  - node read/edit permissions;
  - the subtree tags a role set may not see;
  - the expansion of an account's roles with their parent roles, where the
    first role offered for an identifier wins.
- **The `Events` collection** of the event store.
- **The immutable `References` collection** of the content graph.
- **The content-title node creation handler.** It copies the title from the
  creation dialog into a new Content node's initial properties.

Each entity whose fields the source updates in place is a class:

- the index store (`AssetUsageRepository`, a set of rows);
- the indexing service and its caches;
- the command handling facade and its override table;
- the in-memory event store;
- the projection.

Each imperative operation is a method proved against a specification
function. Further lemmas state what the source promises about that
function: which rows `updateIndex` adds, keeps and removes; that the role
expansion is first-wins; and that replay after a commit starts at the last
prior event. Value objects (`Events`, `References`, the creation command) are
datatypes with functions.

Everything outside the modelled code is a parameter of the operation that
needs it:

- the workspace registry (a map from each workspace to its base);
- the node type manager;
- the asset repository;
- the policy service's roles and privileges;
- the privilege manager's `isGrantedForRoles`;
- the workspace service's role lookup;
- the event normalizer;
- the projection's `canHandle`;
- the event store's version check.

Files:

| file | module | contents |
|---|---|---|
| wrappers.dfy | Wrappers | `Option`, `Result`, `Distinct` |
| ordered_maps.dfy | OrderedMaps | PHP associative arrays as key-ordered sequences of pairs |
| content_model.dfy | ContentModel | identifiers, nodes, node types, property values |
| workspace_hierarchy.dfy | WorkspaceHierarchy | base chains and dependent workspaces, and the two traversals |
| asset_extraction.dfy | AssetExtraction | the `asset://` scanner and `extractAssetIds` |
| asset_usage_store.dfy | AssetUsageStore | the index rows and the repository operations the service calls |
| asset_usage_diff.dfy | AssetUsageDiff | steps 3a, 3b, 4a and 4b of `updateIndex` as functions and loops |
| asset_usage_indexing.dfy | AssetUsageIndexing | the service class, its caches and the properties of `updateIndex` |
| events.dfy | EventStore | `Events` |
| references.dfy | ContentGraphReferences | `References` |
| content_title.dfy | ContentTitle | `ContentTitleNodeCreationHandler::handle` |
| command_handling.dfy | CommandHandling | the facade, the override closures, the in-memory store and the replay |
| authorization.dfy | Authorization | the authorization service |

## Model

| member | source | states |
|---|---|---|
| WorkspaceHierarchy.CollectBasesAndWorkspace | Neos.Neos/Classes/AssetUsage/Service/AssetUsageIndexingService.php:205-224 | the base-chain walk yields the workspace followed by its bases up to a root, or fails with the first workspace name that is not registered |
| WorkspaceHierarchy.AncestorsSound | Neos.Neos/Classes/AssetUsage/Service/AssetUsageIndexingService.php:210-224 | a successful chain starts at the workspace, links each entry to its base and ends at a root; a failure names the missing workspace at the end of the walk |
| WorkspaceHierarchy.AncestorsComplete | Neos.Neos/Classes/AssetUsage/Service/AssetUsageIndexingService.php:210-224 | every linked chain that ends at a root is the chain the walk returns; one that ends at a missing workspace is reported with that name |
| WorkspaceHierarchy.WalkSuffix | Neos.Neos/Classes/AssetUsage/Service/AssetUsageIndexingService.php:214-224 | the chain from any base is the tail of the chain from the workspace |
| WorkspaceHierarchy.CollectDependents | Neos.Neos/Classes/AssetUsage/Service/AssetUsageIndexingService.php:239-254 | fails exactly for an unknown workspace; otherwise lists every transitive dependent once, never the workspace itself, shallower ones first |
| WorkspaceHierarchy.DependantWorkspaces | Neos.Neos/Classes/AssetUsage/Service/AssetUsageIndexingService.php:249 | the direct dependents are exactly the workspaces whose base is the given one, each once |
| WorkspaceHierarchy.BfsStep | Neos.Neos/Classes/AssetUsage/Service/AssetUsageIndexingService.php:246-254 | one iteration of the dependents loop keeps the traversal invariant (every collected name a dependent, none twice, all pending dependents reachable from the stack) and shrinks the set of unvisited workspaces |
| WorkspaceHierarchy.BfsDone | Neos.Neos/Classes/AssetUsage/Service/AssetUsageIndexingService.php:246-255 | when the stack is empty the collected names are exactly the dependents |
| WorkspaceHierarchy.NotOwnDependent | Neos.Neos/Classes/AssetUsage/Service/AssetUsageIndexingService.php:235-259 | in an acyclic registry no workspace depends on itself |
| WorkspaceHierarchy.BaseIsNotDependent | Neos.Neos/Classes/AssetUsage/Service/AssetUsageIndexingService.php:201-259 | no base of a workspace is one of its dependents |
| WorkspaceHierarchy.ChildIsDependent | Neos.Neos/Classes/AssetUsage/Service/AssetUsageIndexingService.php:249-252 | a workspace based on the workspace or on one of its dependents is a dependent |
| WorkspaceHierarchy.DependentIsDeeper | Neos.Neos/Classes/AssetUsage/Service/AssetUsageIndexingService.php:235-259 | a dependent sits strictly deeper in the base hierarchy |
| AssetExtraction.ExtractAssetIds | Neos.Neos/Classes/AssetUsage/Service/AssetUsageIndexingService.php:292-324 | the recursive extraction agrees with the reference definition `AssetIdsOf` on every type and value |
| AssetExtraction.ScanFrom | Neos.Neos/Classes/AssetUsage/Service/AssetUsageIndexingService.php:297-298 | every identifier matched from a position on consists of word characters and dashes |
| AssetExtraction.Scan | Neos.Neos/Classes/AssetUsage/Service/AssetUsageIndexingService.php:297-298 | every identifier the `asset://` pattern yields consists of word characters and dashes |
| AssetExtraction.ScanRender | Neos.Neos/Classes/AssetUsage/Service/AssetUsageIndexingService.php:297-298 | scanning a text made of `asset://` links gives back exactly their identifiers, in order |
| AssetExtraction.ScanFromShift | Neos.Neos/Classes/AssetUsage/Service/AssetUsageIndexingService.php:297-298 | matching is position independent: scanning inside a longer text finds the same identifiers |
| AssetExtraction.ScanFromWithoutScheme | Neos.Neos/Classes/AssetUsage/Service/AssetUsageIndexingService.php:297-298 | a text without the case-insensitive `asset://` prefix yields nothing |
| AssetExtraction.RunEnd | Neos.Neos/Classes/AssetUsage/Service/AssetUsageIndexingService.php:297 | the greedy `[\w-]*` run ends at the first character outside the class |
| AssetExtraction.ConcatOfAppend | Neos.Neos/Classes/AssetUsage/Service/AssetUsageIndexingService.php:318-323 | extraction from a collection merges the extractions of its parts in order |
| AssetExtraction.StringCollection | Neos.Neos/Classes/AssetUsage/Service/AssetUsageIndexingService.php:318-323 | a collection of strings yields the concatenated scans of its elements |
| AssetUsageIndexing.AssetUsageIndexingService.GetWorkspaceBasesAndWorkspace | Neos.Neos/Classes/AssetUsage/Service/AssetUsageIndexingService.php:201-230 | a cached chain is returned unchanged; otherwise the chain of the registry is computed and cached only on success; the other caches are untouched |
| AssetUsageIndexing.AssetUsageIndexingService.GetWorkspaceDependents | Neos.Neos/Classes/AssetUsage/Service/AssetUsageIndexingService.php:235-259 | a cached list is returned unchanged; otherwise the result is exactly the dependents, fails only for an unknown workspace and is cached on success |
| AssetUsageIndexing.AssetUsageIndexingService.FindOriginalAssetId | Neos.Neos/Classes/AssetUsage/Service/AssetUsageIndexingService.php:326-340 | a cached answer is reused; otherwise a variant maps to its original and any other asset to none, and a failed lookup is not cached |
| AssetUsageIndexing.RememberAllGrows | Neos.Neos/Classes/AssetUsage/Service/AssetUsageIndexingService.php:326-340 | the original-asset cache never changes an entry, and it gains exactly the looked-up ids whose lookup did not fail |
| AssetUsageIndexing.RememberAllKeepsOriginals | Neos.Neos/Classes/AssetUsage/Service/AssetUsageIndexingService.php:326-340 | filling the cache never changes the original that any lookup returns |
| AssetUsageIndexing.AssetUsageIndexingService.GetAssetIdsByProperty | Neos.Neos/Classes/AssetUsage/Service/AssetUsageIndexingService.php:261-287 | the loop computes the usage map of the node's properties and fills the cache with the ids it looked up |
| AssetUsageIndexing.UsagesOfProperty | Neos.Neos/Classes/AssetUsage/Service/AssetUsageIndexingService.php:265-285 | a property gets an entry iff the node has it and its type declares it, and the entry lists the extracted ids (none when extraction throws) with their originals |
| AssetUsageStore.AssetUsageRepository.FindUsageForNodeInWorkspaces | Neos.Neos/Classes/AssetUsage/Service/AssetUsageIndexingService.php:70 | step 2 finds exactly the rows of the node variant in its base chain, each once |
| AssetUsageDiff.UsagesNotInAncestors | Neos.Neos/Classes/AssetUsage/Service/AssetUsageIndexingService.php:73-88 | the nested loops of step 3a compute the reference filter `NewUsages` |
| AssetUsageDiff.NewUsageMembers | Neos.Neos/Classes/AssetUsage/Service/AssetUsageIndexingService.php:73-88 | a usage is new iff the node lists it under the property and no row in the base chain has that asset on that property |
| AssetUsageDiff.NewUsagesPerProperty | Neos.Neos/Classes/AssetUsage/Service/AssetUsageIndexingService.php:73-88 | per property, the new usages keep the node's order with the already-recorded ones dropped |
| AssetUsageDiff.FindsAncestorUsage | Neos.Neos/Classes/AssetUsage/Service/AssetUsageIndexingService.php:76-84 | the innermost loop reports a row in the base chain with that asset on that property |
| AssetUsageDiff.RemovedAssetIdsOfRow | Neos.Neos/Classes/AssetUsage/Service/AssetUsageIndexingService.php:93-112 | the loops of step 3b for one row in the base chain compute `RowRemovals` |
| AssetUsageDiff.RowScanStep | Neos.Neos/Classes/AssetUsage/Service/AssetUsageIndexingService.php:95-108 | after each property the found flag says whether the row's property is scanned and lists the row's asset, and the asset is pending removal exactly once otherwise |
| AssetUsageDiff.ListsAssetSearch | Neos.Neos/Classes/AssetUsage/Service/AssetUsageIndexingService.php:97-104 | the search finds the asset iff the property's list contains it |
| AssetUsageIndexing.AssetUsageIndexingService.RemovedUsages | Neos.Neos/Classes/AssetUsage/Service/AssetUsageIndexingService.php:91-118 | step 3b builds the removal map `Removals`, assigning each row's property in turn, and caches the originals it looks up |
| AssetUsageIndexing.RemovalsComeFromAncestorRows | Neos.Neos/Classes/AssetUsage/Service/AssetUsageIndexingService.php:91-118 | every removal names a property and asset that some row in the base chain has |
| AssetUsageIndexing.LastRowDecides | Neos.Neos/Classes/AssetUsage/Service/AssetUsageIndexingService.php:113-116 | the entry of a property is the removal list of the last row in the base chain for that property; earlier rows are overwritten |
| AssetUsageIndexing.LaterUsedRowHidesStaleRow | Neos.Neos/Classes/AssetUsage/Service/AssetUsageIndexingService.php:91-118 | a row whose asset the node no longer uses on its property is scheduled twice for removal on its own, yet gets no removal when a later row of the same property is still in use |
| AssetUsageIndexing.WithOriginals | Neos.Neos/Classes/AssetUsage/Service/AssetUsageIndexingService.php:281-284 | pairing ids with their originals keeps the ids in order, one pair each |
| AssetUsageIndexing.AssetUsageIndexingService.AddNewUsages | Neos.Neos/Classes/AssetUsage/Service/AssetUsageIndexingService.php:122-138 | step 4a records each new usage in the node's workspace and purges that asset on that property from the dependent workspaces |
| AssetUsageIndexing.AssetUsageIndexingService.RemoveVanishedUsages | Neos.Neos/Classes/AssetUsage/Service/AssetUsageIndexingService.php:140-152 | step 4b drops each removed asset from that property in the node's own workspace |
| AssetUsageDiff.AfterAddingMembers | Neos.Neos/Classes/AssetUsage/Service/AssetUsageIndexingService.php:122-138 | after step 4a a row is present iff it is one of the new rows, or it was present and no purge hit it |
| AssetUsageDiff.AfterRemovingMembers | Neos.Neos/Classes/AssetUsage/Service/AssetUsageIndexingService.php:140-152 | after step 4b a row is present iff it was present and no removal in the node's workspace hit it |
| AssetUsageIndexing.AssetUsageIndexingService.UpdateIndex | Neos.Neos/Classes/AssetUsage/Service/AssetUsageIndexingService.php:56-153 | a missing workspace fails before any change and an unknown node type changes nothing; otherwise the new index is the composition of steps 1 to 4b over the base rows found, with the caches kept valid; the base-chain and dependents caches gain exactly the entry for the node's workspace when it was missing and the lookup succeeded, and the original-id cache remembers exactly the ids looked up, in order |
| AssetUsageIndexing.AssetUsageIndexingService.WithOriginalAssetIds | Neos.Neos/Classes/AssetUsage/Service/AssetUsageIndexingService.php:281-284 | each id is paired with its original id, in order, and the original-id cache remembers every id looked up; the workspace caches do not change |
| AssetUsageIndexing.NewUsageIsRecorded | Neos.Neos/Classes/AssetUsage/Service/AssetUsageIndexingService.php:122-152 | every usage of the node that no row in the base chain records ends up indexed in the node's workspace |
| AssetUsageIndexing.NewRowNotRemoved | Neos.Neos/Classes/AssetUsage/Service/AssetUsageIndexingService.php:122-152 | step 4b never removes a row that step 4a just added |
| AssetUsageIndexing.NewUsageLeavesDependents | Neos.Neos/Classes/AssetUsage/Service/AssetUsageIndexingService.php:127-136 | after the update no dependent workspace holds a row for a newly recorded usage |
| AssetUsageIndexing.OnlyUnrecordedUsagesAreAdded | Neos.Neos/Classes/AssetUsage/Service/AssetUsageIndexingService.php:122-138 | every added row belongs to the node variant in its own workspace, is a usage of the node, and is not yet recorded in the base chain |
| AssetUsageIndexing.OnlyOwnAndDependentRowsAreRemoved | Neos.Neos/Classes/AssetUsage/Service/AssetUsageIndexingService.php:122-152 | a removed row belongs to the node variant, in its own workspace or in a dependent one |
| AssetUsageIndexing.OtherRowsAreKept | Neos.Neos/Classes/AssetUsage/Service/AssetUsageIndexingService.php:122-152 | rows of other nodes, other dimension space points or unrelated workspaces survive the update |
| AssetUsageIndexing.AncestorRowsAreKept | Neos.Neos/Classes/AssetUsage/Service/AssetUsageIndexingService.php:122-152 | the rows of the strict bases are never touched |
| AssetUsageIndexing.BaseChainHasNoCycle | Neos.Neos/Classes/AssetUsage/Service/AssetUsageIndexingService.php:210-224 | a workspace never appears among its own strict bases |
| AssetUsageIndexing.AssetUsageIndexingService.UpdateDimensionSpacePointInIndex | Neos.Neos/Classes/AssetUsage/Service/AssetUsageIndexingService.php:155-158 | the workspace's rows at the source point are moved to the target point; all other rows stay |
| AssetUsageIndexing.AssetUsageIndexingService.RemoveIndexForWorkspaceNameNodeAggregateIdAndDimensionSpacePoint | Neos.Neos/Classes/AssetUsage/Service/AssetUsageIndexingService.php:160-172 | exactly the rows of that node variant in that workspace, for all properties, are dropped |
| AssetUsageIndexing.AssetUsageIndexingService.RemoveIndexForNode | Neos.Neos/Classes/AssetUsage/Service/AssetUsageIndexingService.php:174-184 | exactly the rows of the node's own variant in its own workspace are dropped |
| AssetUsageIndexing.AssetUsageIndexingService.RemoveIndexForWorkspace | Neos.Neos/Classes/AssetUsage/Service/AssetUsageIndexingService.php:186-191 | exactly the rows of that workspace in that content repository are dropped |
| AssetUsageIndexing.AssetUsageIndexingService.PruneIndex | Neos.Neos/Classes/AssetUsage/Service/AssetUsageIndexingService.php:193-196 | exactly the rows of that content repository are dropped |
| EventStore.Iterate | Neos.ContentRepository.Core/Classes/EventStore/Events.php:44-47 | iterating yields exactly the events the collection holds, so the collection is what it yields |
| EventStore.Count | Neos.ContentRepository.Core/Classes/EventStore/Events.php:64-67 | the count is the number of events iterated |
| EventStore.IsEmpty | Neos.ContentRepository.Core/Classes/EventStore/Events.php:59-62 | empty iff the count is zero iff iteration yields nothing |
| EventStore.With | Neos.ContentRepository.Core/Classes/EventStore/Events.php:25-28 | a single-event collection holds exactly that event |
| EventStore.FromArray | Neos.ContentRepository.Core/Classes/EventStore/Events.php:39-42 | the collection holds the array's events, in order |
| EventStore.WithAppendedEvents | Neos.ContentRepository.Core/Classes/EventStore/Events.php:30-33 | the events of the first collection, then those of the second, in order |
| EventStore.Map | Neos.ContentRepository.Core/Classes/EventStore/Events.php:54-57 | one result per event, each the callback applied to the event at that position |
| EventStore.FromArrayRoundTrip | Neos.ContentRepository.Core/Classes/EventStore/Events.php:39-47 | building from an array and iterating are inverse to each other |
| EventStore.AppendMonoid | Neos.ContentRepository.Core/Classes/EventStore/Events.php:30-42 | appending is associative with the empty collection as unit |
| EventStore.MapAppended | Neos.ContentRepository.Core/Classes/EventStore/Events.php:30-57 | mapping an appended collection is the concatenation of the mapped parts |
| ContentGraphReferences.FromArray | Neos.ContentRepository.Core/Classes/Projection/ContentGraph/References.php:58-61 | the collection has the array's length and yields the array's reference at every offset |
| ContentGraphReferences.Iterate | Neos.ContentRepository.Core/Classes/Projection/ContentGraph/References.php:74-77 | iteration yields the reference at each offset, in order |
| ContentGraphReferences.OffsetExists | Neos.ContentRepository.Core/Classes/Projection/ContentGraph/References.php:79-82 | an offset exists iff it lies in range |
| ContentGraphReferences.OffsetGet | Neos.ContentRepository.Core/Classes/Projection/ContentGraph/References.php:84-87 | a reference is returned iff the offset exists, null otherwise |
| ContentGraphReferences.OffsetSet | Neos.ContentRepository.Core/Classes/Projection/ContentGraph/References.php:89-92 | writing always fails with the immutable-object code 1658408830 |
| ContentGraphReferences.OffsetUnset | Neos.ContentRepository.Core/Classes/Projection/ContentGraph/References.php:94-97 | unsetting always fails with the immutable-object code 1658408830 |
| ContentGraphReferences.CountIsFirstMissingOffset | Neos.ContentRepository.Core/Classes/Projection/ContentGraph/References.php:99-102 | the count is the first offset that does not exist, every offset below it exists, and it is the length of the iteration and of the node list |
| ContentGraphReferences.GetNodes | Neos.ContentRepository.Core/Classes/Projection/ContentGraph/References.php:63-69 | one node per reference, the referenced node of the reference at the same offset |
| ContentTitle.Handle | Neos.EventSourcedNeosAdjustments/Classes/Ui/NodeCreationHandler/ContentTitleNodeCreationHandler.php:50-65 | an unknown node type fails; a non-Content type returns the command unchanged; otherwise the dialog's non-null title becomes the `title` property, every other property and the node's identity are kept, and without a title nothing changes |
| CommandHandling.CommandHandlingDependencies.GetContentStreamVersion | Neos.ContentRepository.Core/Classes/CommandHandlingDependencies.php:118-125 | the stream's version, or an error with code 1716902051 exactly when the stream is unknown |
| CommandHandling.CommandHandlingDependencies.ContentStreamExists | Neos.ContentRepository.Core/Classes/CommandHandlingDependencies.php:127-130 | true iff the read model knows the stream |
| CommandHandling.CommandHandlingDependencies.GetContentStreamStatus | Neos.ContentRepository.Core/Classes/CommandHandlingDependencies.php:132-139 | the stream's status, or an error with code 1716902219 exactly when the stream is unknown |
| CommandHandling.CommandHandlingDependencies.FindWorkspaceByName | Neos.ContentRepository.Core/Classes/CommandHandlingDependencies.php:141-144 | the workspace iff it exists |
| CommandHandling.CommandHandlingDependencies.GetContentGraph | Neos.ContentRepository.Core/Classes/CommandHandlingDependencies.php:149-156 | an override wins; otherwise the graph of the workspace's current content stream, or workspace-does-not-exist |
| CommandHandling.CommandHandlingDependencies.OverrideContentStreamId | Neos.ContentRepository.Core/Classes/CommandHandlingDependencies.php:167-181 | the closure runs as `RunOverride` says, and the override is withdrawn afterwards whether the closure returns or throws |
| CommandHandling.OverrideIsVisible | Neos.ContentRepository.Core/Classes/CommandHandlingDependencies.php:167-181 | inside the closure every graph read for the workspace is the graph of the overriding content stream |
| CommandHandling.StepsSeeOverride | Neos.ContentRepository.Core/Classes/CommandHandlingDependencies.php:149-181 | while an override is in effect every read of that workspace, nested overrides included, returns the override |
| CommandHandling.NestedOverride | Neos.ContentRepository.Core/Classes/CommandHandlingDependencies.php:167-181 | a nested override is rejected with code 1715170938 before its body runs iff its workspace is overridden already; otherwise its body runs with the new override added to those in effect |
| CommandHandling.OverridesOfDifferentNamesNest | Neos.ContentRepository.Core/Classes/CommandHandlingDependencies.php:167-181 | for every body, overriding one workspace and inside it another runs the body with both overrides in effect |
| CommandHandling.InMemoryEventStore.Commit | Neos.ContentRepository.Core/Classes/CommandHandlingDependencies.php:88-92 | an accepted commit appends the events numbered on from the last sequence number and reports the highest one; a rejected one changes nothing |
| CommandHandling.InMemoryEventStore.LoadFrom | Neos.ContentRepository.Core/Classes/CommandHandlingDependencies.php:95-99 | the stored envelopes from the minimum sequence number on, in order |
| CommandHandling.Envelopes | Neos.ContentRepository.Core/Classes/CommandHandlingDependencies.php:88-92 | committed events get consecutive sequence numbers after the last stored one, in order |
| CommandHandling.AtLeastIsSuffix | Neos.ContentRepository.Core/Classes/CommandHandlingDependencies.php:95-99 | loading from a sequence number within the store is the suffix starting at that number |
| CommandHandling.ReplayStartsAtLastPriorEvent | Neos.ContentRepository.Core/Classes/CommandHandlingDependencies.php:95-99 | the replay bound (highest number minus the count of new events) also yields the last event stored before the commit, or everything when the store was empty |
| CommandHandling.CommandHandlingDependencies.HandleInMemory | Neos.ContentRepository.Core/Classes/CommandHandlingDependencies.php:71-111 | no events means no change; a rejected commit leaves store and projection as they were; otherwise the normalised events are stored and every loaded envelope the projection can handle is applied, in order |
| Authorization.RolesOfAnonymousUser | Neos.Neos/Classes/Security/Authorization/ContentRepositoryAuthorizationService.php:138-144 | exactly the Everybody and Anonymous roles, in that order, as the policy service defines them |
| Authorization.ExpandAccountRoles | Neos.Neos/Classes/Security/Authorization/ContentRepositoryAuthorizationService.php:149-166 | the loop computes the first-wins expansion `ExpandedRoles` of the account's roles and their parents |
| Authorization.ExpandedRolesKeys | Neos.Neos/Classes/Security/Authorization/ContentRepositoryAuthorizationService.php:149-166 | Everybody and AuthenticatedUser keep the policy's roles, and a role identifier is present iff it is one of those two or an account role or a parent offers it |
| Authorization.FirstWinsGet | Neos.Neos/Classes/Security/Authorization/ContentRepositoryAuthorizationService.php:156-162 | the role kept for an identifier is the first one offered for it |
| Authorization.CandidateKeys | Neos.Neos/Classes/Security/Authorization/ContentRepositoryAuthorizationService.php:151-164 | an identifier is offered iff it is Everybody, AuthenticatedUser, an account role or one of their parents |
| Authorization.WorkspacePermissionsForAnonymousUser | Neos.Neos/Classes/Security/Authorization/ContentRepositoryAuthorizationService.php:56-69 | no role means no permissions; otherwise read, write from collaborator up, manage only for managers |
| Authorization.AccountPermissionRules | Neos.Neos/Classes/Security/Authorization/ContentRepositoryAuthorizationService.php:78-100 | the owner gets all permissions; without a role an administrator gets manage only and others nothing; with a role, write from collaborator up, manage for managers and administrators |
| Authorization.GetWorkspacePermissionsForAccount | Neos.Neos/Classes/Security/Authorization/ContentRepositoryAuthorizationService.php:74-101 | the owner gets all permissions; otherwise the rules above for the most privileged role over the account's expanded roles and the user |
| Authorization.NodePermissionsForRoles | Neos.Neos/Classes/Security/Authorization/ContentRepositoryAuthorizationService.php:192-217 | the call fails iff an address is given whose workspace does not exist, with that error; an address that resolves to no node gets no permissions |
| Authorization.AddressAndNodeAgree | Neos.Neos/Classes/Security/Authorization/ContentRepositoryAuthorizationService.php:192-217 | a resolvable address gets the permissions of its node: read and edit as granted for the node's tags |
| Authorization.GetNodePermissionsForAnonymousUser | Neos.Neos/Classes/Security/Authorization/ContentRepositoryAuthorizationService.php:103-107 | the node permissions, or the resolution error, for the anonymous roles |
| Authorization.GetNodePermissionsForAccount | Neos.Neos/Classes/Security/Authorization/ContentRepositoryAuthorizationService.php:109-113 | the node permissions, or the resolution error, for the account's expanded roles |
| Authorization.TagConstraintsForRoles | Neos.Neos/Classes/Security/Authorization/ContentRepositoryAuthorizationService.php:171-181 | the loop merges the tags of every read privilege not granted to the roles |
| Authorization.RestrictedTagsMembers | Neos.Neos/Classes/Security/Authorization/ContentRepositoryAuthorizationService.php:171-181 | a tag is restricted iff some read privilege covering it is not granted for its tag set |
| Authorization.GetVisibilityConstraintsForAnonymousUser | Neos.Neos/Classes/Security/Authorization/ContentRepositoryAuthorizationService.php:118-122 | the constraints hide exactly the tags restricted for the anonymous roles |
| Authorization.GetVisibilityConstraintsForAccount | Neos.Neos/Classes/Security/Authorization/ContentRepositoryAuthorizationService.php:127-131 | the constraints hide exactly the tags restricted for the account's expanded roles |

## Left out

- I/O and foreign services are parameters, not models. This covers the content repository registry, the node type manager, the asset repository, the persistence manager's `getIdentifierByObject`, the policy service, the privilege manager, the workspace service, the party service, the command bus, the event normalizer and the projection's `canHandle` and `apply`. Each of them is a function value, or a map, that the caller supplies.
- `AssetUsageRepository`: its source is not available. `asset_usage_store.dfy` models it with the semantics its method names and its call sites in `AssetUsageIndexingService` state: finding the rows of a node in a set of workspaces, adding rows for a property, removing rows by node, property, asset or workspace, removing everything, and moving rows to a new dimension space point. Storage order and the database are not modelled.
- Finder order is not modelled: the order of the rows from `findUsageForNodeInWorkspaces` and of the children from `getDependantWorkspaces` is chosen by the model.
- The workspace registry must be acyclic: a base chain that loops would make the source's walk run forever.
- Exceptions are `Failure` values. Resolving a node address fails only with `WorkspaceDoesNotExist`, which is the throw of `getContentGraph`. Repository lookup by id is assumed to succeed. `\Error` and `\Exception` are not distinguished, and message and reason strings are not modelled.
- `ExtractAssetIds`: the resource-object and collection type tests are a `PropertyType` datatype rather than PHP class reflection. Asking for the identifier of a value that is not a persisted object, or iterating a value that is not a list, counts as a throw, which `getAssetIdsByProperty` turns into an empty list.
- `AssetExtraction.Scan`: `\w` is taken as ASCII letters, digits and `_`. The `/i` flag covers only the ASCII letters of `asset://`.
- `WorkspaceRole::isAtLeast`, `WorkspacePermissions::manage` and `NodePermissions`: their source is not available. `authorization.dfy` models them with assumed semantics: the roles are ordered VIEWER < COLLABORATOR < MANAGER, `manage` grants only manage, and `NodePermissions` is a read flag and an edit flag.
- The workspace service's most-privileged-role lookup is a parameter. How it picks among several roles is not modelled.
- `SubtreeTagPrivilegeSubject`: the declared constructor takes a single tag string and an optional repository string (Neos.Neos/Classes/Security/Authorization/Privilege/SubtreeTagPrivilegeSubject.php:24-27). Both call sites pass a set of tags and a repository id instead (ContentRepositoryAuthorizationService.php:176 and :201), and that file declares strict types (:3). As written this is a type error. The model follows the set-and-id signature that the call sites evidently intend.
- `CommandHandling.ReplayStartsAtLastPriorEvent`: the lemma shows that the replay bound, the highest committed number minus the count of new events, re-applies the last event stored before the commit. That looks like an off-by-one, which the source itself marks with a todo at CommandHandlingDependencies.php:97. The model follows the code as written.
- `InMemoryEventStore`: the expected-version check is a parameter (`accepts`). Sequence numbers are assumed to start at 1 and to be consecutive. Stream filtering on `load` is not modelled because `handleInMemory` loads the virtual all-stream.
- `handle` and `publishEvents` of `CommandHandlingDependencies` only forward to the content repository and the event persister, and are not modelled.
- `ContentGraphReferences.OffsetGet`: only integer offsets are modelled.
- The transliteration service of the content title handler is present in the source but unused by `handle`, and is not modelled.
