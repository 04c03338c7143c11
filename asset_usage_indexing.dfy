/**
 * `AssetUsageIndexingService`: keeps the asset-usage index up to date when a
 * node changes. The base chain of a workspace is the workspace followed by
 * its bases up to a root, and the ancestor rows of a node are its rows in
 * that chain, its own workspace included. The design keeps a usage only in
 * the highest workspace of the base chain that has it; a change in a
 * workspace adds the usages no ancestor row records and purges them from
 * every dependent workspace. It then removes usages from the node's own
 * workspace property by property: the removals of a property are those of
 * the last ancestor row found for it (`LastRowDecides`), so a stale row
 * survives when a later row of the same property is still in use
 * (`LaterUsedRowHidesStaleRow`). The service memoises the base chain and the
 * dependents of a workspace, and the original asset of an asset variant,
 * and never invalidates those memos.
 */
module AssetUsageIndexing {
  import opened Wrappers
  import opened OrderedMaps
  import opened ContentModel
  import opened WorkspaceHierarchy
  import opened AssetExtraction
  import opened AssetUsageStore
  import opened AssetUsageDiff

  // ---------------------------------------------------------------------------
  // Original asset ids (`findOriginalAssetId`)

  /** What `AssetRepository::findByIdentifier` gives for an id: an exception, a non-variant (or nothing), a variant. */
  datatype AssetLookup = LookupFails | NotAVariant | VariantOf(originalAssetId: AssetId)

  type OriginalAssetIdCache = map<AssetId, Option<AssetId>>

  /** The original asset id `findOriginalAssetId` reports when the memo holds `cache`. */
  function OriginalAssetId(cache: OriginalAssetIdCache, assets: AssetId -> AssetLookup, id: AssetId): Option<AssetId>
  {
    if id in cache then cache[id]
    else match assets(id)
      case VariantOf(o) => Some(o)
      case _ => None
  }

  /** The memo after one `findOriginalAssetId(id)`: a failed lookup is not remembered. */
  function Remember(cache: OriginalAssetIdCache, assets: AssetId -> AssetLookup, id: AssetId): OriginalAssetIdCache
  {
    if id in cache || assets(id).LookupFails? then cache else cache[id := OriginalAssetId(cache, assets, id)]
  }

  /** The memo after looking up every id of `ids`, in order. */
  function RememberAll(cache: OriginalAssetIdCache, assets: AssetId -> AssetLookup, ids: seq<AssetId>)
    : OriginalAssetIdCache
  {
    if ids == [] then cache
    else Remember(RememberAll(cache, assets, ids[..|ids| - 1]), assets, ids[|ids| - 1])
  }

  /** Filling the memo never changes what a later lookup reports (for unchanged assets). */
  lemma {:induction false} RememberAllKeepsOriginals(cache: OriginalAssetIdCache, assets: AssetId -> AssetLookup,
                                                     ids: seq<AssetId>, x: AssetId)
    ensures OriginalAssetId(RememberAll(cache, assets, ids), assets, x) == OriginalAssetId(cache, assets, x)
  {
    if ids != [] {
      RememberAllKeepsOriginals(cache, assets, ids[..|ids| - 1], x);
      var before := RememberAll(cache, assets, ids[..|ids| - 1]);
      var last := ids[|ids| - 1];
      if last == x {
        RememberAllKeepsOriginals(cache, assets, ids[..|ids| - 1], last);
      }
    }
  }

  /**
   * The memo only grows: an entry once stored is never changed or dropped,
   * and a new entry appears for exactly the looked-up ids whose lookup did
   * not fail.
   */
  lemma {:induction false} RememberAllGrows(cache: OriginalAssetIdCache, assets: AssetId -> AssetLookup,
                                            ids: seq<AssetId>, x: AssetId)
    ensures x in cache ==> x in RememberAll(cache, assets, ids) && RememberAll(cache, assets, ids)[x] == cache[x]
    ensures x in RememberAll(cache, assets, ids) <==> x in cache || (x in ids && !assets(x).LookupFails?)
  {
    if ids != [] {
      var n := |ids| - 1;
      RememberAllGrows(cache, assets, ids[..n], x);
      assert ids == ids[..n] + [ids[n]];
    }
  }

  lemma {:induction false} RememberAllAppend(cache: OriginalAssetIdCache, assets: AssetId -> AssetLookup,
                                             xs: seq<AssetId>, ys: seq<AssetId>)
    ensures RememberAll(cache, assets, xs + ys) == RememberAll(RememberAll(cache, assets, xs), assets, ys)
    decreases |ys|
  {
    if ys == [] {
      assert xs + ys == xs;
    } else {
      var n := |ys| - 1;
      assert (xs + ys)[..|xs + ys| - 1] == xs + ys[..n];
      RememberAllAppend(cache, assets, xs, ys[..n]);
    }
  }

  /** `array_map(fn ($id) => new AssetIdAndOriginalAssetId($id, findOriginalAssetId($id)), $ids)`. */
  function WithOriginals(cache: OriginalAssetIdCache, assets: AssetId -> AssetLookup, ids: seq<AssetId>)
    : (r: seq<AssetIdAndOriginalAssetId>)
    ensures |r| == |ids|
    ensures forall i :: 0 <= i < |ids| ==> r[i] == AssetIdAndOriginalAssetId(ids[i], OriginalAssetId(cache, assets, ids[i]))
  {
    seq(|ids|, i requires 0 <= i < |ids| => AssetIdAndOriginalAssetId(ids[i], OriginalAssetId(cache, assets, ids[i])))
  }

  lemma WithOriginalsAfterLookups(cache: OriginalAssetIdCache, assets: AssetId -> AssetLookup,
                                  done: seq<AssetId>, ids: seq<AssetId>)
    ensures WithOriginals(RememberAll(cache, assets, done), assets, ids) == WithOriginals(cache, assets, ids)
  {
    forall i | 0 <= i < |ids|
      ensures OriginalAssetId(RememberAll(cache, assets, done), assets, ids[i]) == OriginalAssetId(cache, assets, ids[i])
    {
      RememberAllKeepsOriginals(cache, assets, done, ids[i]);
    }
  }

  // ---------------------------------------------------------------------------
  // Step 1: the usages of a node (`getAssetIdsByProperty`)

  /** The ids extracted from one property; an exception while deserialising or extracting yields none. */
  function ExtractedOrEmpty(t: PropertyType, p: SerializedProperty): seq<AssetId>
  {
    if p.value.None? then []
    else match AssetIdsOf(t, p.value.value)
      case None => []
      case Some(ids) => ids
  }

  /** The `AssetIdsByProperty` of the first properties `props`: undeclared properties are skipped. */
  function UsagesOfNode(nt: NodeType, props: seq<(PropertyName, SerializedProperty)>,
                        cache: OriginalAssetIdCache, assets: AssetId -> AssetLookup): AssetIdsByProperty
  {
    if props == [] then []
    else
      var prior := UsagesOfNode(nt, props[..|props| - 1], cache, assets);
      var (name, value) := props[|props| - 1];
      if name in nt.properties then
        Assign(prior, name, WithOriginals(cache, assets, ExtractedOrEmpty(nt.properties[name], value)))
      else prior
  }

  /** The ids whose original asset step 1 looks up, in order. */
  function LookedUpIds(nt: NodeType, props: seq<(PropertyName, SerializedProperty)>): seq<AssetId>
  {
    if props == [] then []
    else
      var prior := LookedUpIds(nt, props[..|props| - 1]);
      var (name, value) := props[|props| - 1];
      if name in nt.properties then prior + ExtractedOrEmpty(nt.properties[name], value) else prior
  }

  /**
   * Step 1 per property: a property the node type does not declare has no
   * entry; a declared one has the ids extracted from its value (none when
   * extraction throws), each with its original asset.
   */
  lemma {:induction false} UsagesOfProperty(nt: NodeType, props: OrderedMap<PropertyName, SerializedProperty>,
                                            cache: OriginalAssetIdCache, assets: AssetId -> AssetLookup, name: PropertyName)
    ensures Get(UsagesOfNode(nt, props, cache, assets), name) ==
      if Get(props, name).Some? && name in nt.properties
      then Some(WithOriginals(cache, assets, ExtractedOrEmpty(nt.properties[name], Get(props, name).value)))
      else None
  {
    if props != [] {
      var n := |props| - 1;
      var prefix: OrderedMap<PropertyName, SerializedProperty> := props[..n];
      PrefixKeys(props, n);
      assert props == prefix + [props[n]];
      UsagesOfProperty(nt, prefix, cache, assets, name);
      GetSnoc(prefix, props[n].0, props[n].1, name);
    }
  }

  // ---------------------------------------------------------------------------
  // Step 3b over all ancestor rows

  /**
   * `$removedPropertiesAndAssetIds` after the rows `rows`: for each row the
   * list of its property is ASSIGNED, so a later row of the same property
   * replaces what an earlier one listed.
   */
  function Removals(byProperty: AssetIdsByProperty, rows: seq<AssetUsage>,
                    cache: OriginalAssetIdCache, assets: AssetId -> AssetLookup): AssetIdsByProperty
  {
    if rows == [] then []
    else
      var u := rows[|rows| - 1];
      Assign(Removals(byProperty, rows[..|rows| - 1], cache, assets), u.propertyName,
             WithOriginals(cache, assets, RowRemovals(byProperty, u)))
  }

  /** The ids whose original asset step 3b looks up, in order. */
  function RemovalLookups(byProperty: AssetIdsByProperty, rows: seq<AssetUsage>): seq<AssetId>
  {
    if rows == [] then []
    else RemovalLookups(byProperty, rows[..|rows| - 1]) + RowRemovals(byProperty, rows[|rows| - 1])
  }

  lemma {:induction false} RemovalsAfterLookups(byProperty: AssetIdsByProperty, rows: seq<AssetUsage>,
                                                cache: OriginalAssetIdCache, assets: AssetId -> AssetLookup,
                                                done: seq<AssetId>)
    ensures Removals(byProperty, rows, RememberAll(cache, assets, done), assets) == Removals(byProperty, rows, cache, assets)
  {
    if rows != [] {
      RemovalsAfterLookups(byProperty, rows[..|rows| - 1], cache, assets, done);
      WithOriginalsAfterLookups(cache, assets, done, RowRemovals(byProperty, rows[|rows| - 1]));
    }
  }

  /** One more ancestor row assigns the removals of its own property and leaves the other properties alone. */
  lemma RemovalsSnoc(byProperty: AssetIdsByProperty, rows: seq<AssetUsage>,
                     cache: OriginalAssetIdCache, assets: AssetId -> AssetLookup, p: PropertyName)
    requires rows != []
    ensures var u := rows[|rows| - 1];
      ListAt(Removals(byProperty, rows, cache, assets), p)
      == if p == u.propertyName then WithOriginals(cache, assets, RowRemovals(byProperty, u))
         else ListAt(Removals(byProperty, rows[..|rows| - 1], cache, assets), p)
  {
    var n := |rows| - 1;
    var u := rows[n];
    var prior := Removals(byProperty, rows[..n], cache, assets);
    ListAtAssign(prior, u.propertyName, WithOriginals(cache, assets, RowRemovals(byProperty, u)), p);
  }

  /** Every removal names the property and asset of some ancestor row. */
  lemma {:induction false} RemovalsComeFromAncestorRows(byProperty: AssetIdsByProperty, rows: seq<AssetUsage>,
                                                        cache: OriginalAssetIdCache, assets: AssetId -> AssetLookup,
                                                        p: PropertyName, x: AssetIdAndOriginalAssetId)
    requires x in ListAt(Removals(byProperty, rows, cache, assets), p)
    ensures HasAncestorUsage(rows, p, x.assetId)
  {
    var n := |rows| - 1;
    var u := rows[n];
    var prior := Removals(byProperty, rows[..n], cache, assets);
    var ys := RowRemovals(byProperty, u);
    RemovalsSnoc(byProperty, rows, cache, assets, p);
    if p == u.propertyName {
      RemovalsOfRow(byProperty, u, cache, assets, x);
      assert rows[n].assetId == x.assetId && rows[n].propertyName == p;
    } else {
      assert x in ListAt(prior, p);
      RemovalsComeFromAncestorRows(byProperty, rows[..n], cache, assets, p, x);
      var k :| 0 <= k < n && rows[..n][k].assetId == x.assetId && rows[..n][k].propertyName == p;
      assert rows[k] == rows[..n][k];
    }
  }

  /** The removals one row contributes are all of the row's own asset. */
  lemma RemovalsOfRow(byProperty: AssetIdsByProperty, u: AssetUsage, cache: OriginalAssetIdCache,
                      assets: AssetId -> AssetLookup, x: AssetIdAndOriginalAssetId)
    requires x in WithOriginals(cache, assets, RowRemovals(byProperty, u))
    ensures x.assetId == u.assetId
  {
    var ys := RowRemovals(byProperty, u);
    var i :| 0 <= i < |ys| && WithOriginals(cache, assets, ys)[i] == x;
  }

  /**
   * The last ancestor row of a property decides that property's removals:
   * whatever earlier rows of the property listed is replaced.
   */
  lemma {:induction false} LastRowDecides(byProperty: AssetIdsByProperty, before: seq<AssetUsage>, u: AssetUsage,
                                          after: seq<AssetUsage>, cache: OriginalAssetIdCache,
                                          assets: AssetId -> AssetLookup)
    requires forall v :: v in after ==> v.propertyName != u.propertyName
    ensures ListAt(Removals(byProperty, before + [u] + after, cache, assets), u.propertyName)
         == WithOriginals(cache, assets, RowRemovals(byProperty, u))
    decreases |after|
  {
    var rows := before + [u] + after;
    var n := |rows| - 1;
    var last := rows[n];
    RemovalsSnoc(byProperty, rows, cache, assets, u.propertyName);
    if after == [] {
      assert last == u;
    } else {
      var m := |after| - 1;
      assert rows[..n] == before + [u] + after[..m];
      assert last == after[m] && after[m] in after;
      forall v | v in after[..m]
        ensures v.propertyName != u.propertyName
      {
        assert v in after;
      }
      LastRowDecides(byProperty, before, u, after[..m], cache, assets);
    }
  }

  /**
   * A stale row is not withdrawn when a later row of the same property is
   * still in use: the later row's empty removal list replaces the earlier
   * row's, so the property gets no removals at all.
   */
  lemma LaterUsedRowHidesStaleRow(byProperty: AssetIdsByProperty, stale: AssetUsage, used: AssetUsage,
                                  cache: OriginalAssetIdCache, assets: AssetId -> AssetLookup)
    requires stale.propertyName == used.propertyName && stale.propertyName in Keys(byProperty)
    requires !ListsAsset(ListAt(byProperty, stale.propertyName), stale.assetId)
    requires ListsAsset(ListAt(byProperty, used.propertyName), used.assetId)
    ensures RowRemovals(byProperty, stale) == [stale.assetId, stale.assetId]
    ensures ListAt(Removals(byProperty, [stale, used], cache, assets), stale.propertyName) == []
  {
    assert [stale, used] == [stale] + [used] + [];
    LastRowDecides(byProperty, [stale], used, [], cache, assets);
  }

  // ---------------------------------------------------------------------------
  // The effect of `updateIndex` on the table

  /** The table after steps 4a and 4b for the node's usages `byProperty` and the ancestor rows found. */
  function IndexAfterUpdate(rows: set<AssetUsage>, repo: ContentRepositoryId, node: Node,
                            dependents: seq<WorkspaceName>, byProperty: AssetIdsByProperty,
                            ancestorRows: seq<AssetUsage>, cache: OriginalAssetIdCache,
                            assets: AssetId -> AssetLookup): set<AssetUsage>
  {
    var added := AfterAdding(rows, repo, node, dependents, Flatten(NewUsages(byProperty, ancestorRows)));
    AfterRemoving(added, repo, node, Flatten(Removals(byProperty, ancestorRows, cache, assets)))
  }

  /** A removal never hits a row recorded for a new usage: new usages have no ancestor row, removals do. */
  lemma NewRowNotRemoved(repo: ContentRepositoryId, node: Node, byProperty: AssetIdsByProperty,
                         ancestorRows: seq<AssetUsage>, cache: OriginalAssetIdCache, assets: AssetId -> AssetLookup,
                         p: PropertyName, x: AssetIdAndOriginalAssetId)
    requires !HasAncestorUsage(ancestorRows, p, x.assetId)
    ensures !HitByAny(NewRow(repo, node, (p, x)), repo, node, [node.workspaceName],
                      Flatten(Removals(byProperty, ancestorRows, cache, assets)))
  {
    var rs := Flatten(Removals(byProperty, ancestorRows, cache, assets));
    if HitByAny(NewRow(repo, node, (p, x)), repo, node, [node.workspaceName], rs) {
      var k :| 0 <= k < |rs| && Hits(NewRow(repo, node, (p, x)), repo, node, [node.workspaceName], rs[k]);
      assert rs[k] in rs;
      FlattenMembers(Removals(byProperty, ancestorRows, cache, assets), rs[k].0, rs[k].1);
      RemovalsComeFromAncestorRows(byProperty, ancestorRows, cache, assets, rs[k].0, rs[k].1);
    }
  }

  /**
   * A usage of the node that no ancestor row records ends up recorded for
   * the node's own workspace.
   */
  lemma NewUsageIsRecorded(rows: set<AssetUsage>, repo: ContentRepositoryId, node: Node,
                           dependents: seq<WorkspaceName>, byProperty: AssetIdsByProperty,
                           ancestorRows: seq<AssetUsage>, cache: OriginalAssetIdCache, assets: AssetId -> AssetLookup,
                           p: PropertyName, x: AssetIdAndOriginalAssetId)
    requires node.workspaceName !in dependents
    requires x in ListAt(byProperty, p) && !HasAncestorUsage(ancestorRows, p, x.assetId)
    ensures NewRow(repo, node, (p, x)) in
      IndexAfterUpdate(rows, repo, node, dependents, byProperty, ancestorRows, cache, assets)
  {
    var news := Flatten(NewUsages(byProperty, ancestorRows));
    var row := NewRow(repo, node, (p, x));
    NewUsageMembers(byProperty, ancestorRows, p, x);
    var k :| 0 <= k < |news| && news[k] == (p, x);
    AfterAddingMembers(rows, repo, node, dependents, news, row);
    NewRowNotRemoved(repo, node, byProperty, ancestorRows, cache, assets, p, x);
    AfterRemovingMembers(AfterAdding(rows, repo, node, dependents, news), repo, node,
                         Flatten(Removals(byProperty, ancestorRows, cache, assets)), row);
  }

  /** A usage of the node that no ancestor row records is left in none of the dependent workspaces. */
  lemma NewUsageLeavesDependents(rows: set<AssetUsage>, repo: ContentRepositoryId, node: Node,
                                 dependents: seq<WorkspaceName>, byProperty: AssetIdsByProperty,
                                 ancestorRows: seq<AssetUsage>, cache: OriginalAssetIdCache,
                                 assets: AssetId -> AssetLookup, p: PropertyName, x: AssetIdAndOriginalAssetId,
                                 u: AssetUsage)
    requires node.workspaceName !in dependents
    requires x in ListAt(byProperty, p) && !HasAncestorUsage(ancestorRows, p, x.assetId)
    requires u in IndexAfterUpdate(rows, repo, node, dependents, byProperty, ancestorRows, cache, assets)
    ensures !Hits(u, repo, node, dependents, (p, x))
  {
    var news := Flatten(NewUsages(byProperty, ancestorRows));
    var added := AfterAdding(rows, repo, node, dependents, news);
    AfterRemovingMembers(added, repo, node, Flatten(Removals(byProperty, ancestorRows, cache, assets)), u);
    AfterAddingMembers(rows, repo, node, dependents, news, u);
    NewUsageMembers(byProperty, ancestorRows, p, x);
    var k :| 0 <= k < |news| && news[k] == (p, x);
    assert Hits(u, repo, node, dependents, (p, x)) ==> HitByAny(u, repo, node, dependents, news);
  }

  /**
   * Rows of other node variants, and rows of the node variant in workspaces
   * that are neither the node's own nor one of its dependents, are kept.
   */
  lemma OtherRowsAreKept(rows: set<AssetUsage>, repo: ContentRepositoryId, node: Node,
                         dependents: seq<WorkspaceName>, byProperty: AssetIdsByProperty,
                         ancestorRows: seq<AssetUsage>, cache: OriginalAssetIdCache, assets: AssetId -> AssetLookup,
                         u: AssetUsage)
    requires node.workspaceName !in dependents
    requires u in rows
    requires !IsOfNode(u, repo, node.aggregateId, node.dimensionSpacePoint)
          || (u.workspaceName != node.workspaceName && u.workspaceName !in dependents)
    ensures u in IndexAfterUpdate(rows, repo, node, dependents, byProperty, ancestorRows, cache, assets)
  {
    var news := Flatten(NewUsages(byProperty, ancestorRows));
    var removals := Flatten(Removals(byProperty, ancestorRows, cache, assets));
    AfterAddingMembers(rows, repo, node, dependents, news, u);
    AfterRemovingMembers(AfterAdding(rows, repo, node, dependents, news), repo, node, removals, u);
  }

  /**
   * A row that was not there before is the row of a new usage: the node has
   * the asset on the property, in its own workspace, and no ancestor row
   * records the pair. A usage already recorded up the chain is never re-added.
   */
  lemma OnlyUnrecordedUsagesAreAdded(rows: set<AssetUsage>, repo: ContentRepositoryId, node: Node,
                                     dependents: seq<WorkspaceName>, byProperty: AssetIdsByProperty,
                                     ancestorRows: seq<AssetUsage>, cache: OriginalAssetIdCache,
                                     assets: AssetId -> AssetLookup, u: AssetUsage)
    requires node.workspaceName !in dependents
    requires u in IndexAfterUpdate(rows, repo, node, dependents, byProperty, ancestorRows, cache, assets) && u !in rows
    ensures IsOfNode(u, repo, node.aggregateId, node.dimensionSpacePoint) && u.workspaceName == node.workspaceName
    ensures ListsAsset(ListAt(byProperty, u.propertyName), u.assetId)
    ensures !HasAncestorUsage(ancestorRows, u.propertyName, u.assetId)
  {
    var news := Flatten(NewUsages(byProperty, ancestorRows));
    var added := AfterAdding(rows, repo, node, dependents, news);
    AfterRemovingMembers(added, repo, node, Flatten(Removals(byProperty, ancestorRows, cache, assets)), u);
    AfterAddingMembers(rows, repo, node, dependents, news, u);
    var k :| 0 <= k < |news| && u == NewRow(repo, node, news[k]);
    assert news[k] in news;
    NewUsageMembers(byProperty, ancestorRows, news[k].0, news[k].1);
    var xs := ListAt(byProperty, news[k].0);
    var j :| 0 <= j < |xs| && xs[j] == news[k].1;
  }

  /**
   * A row can only disappear from the node's own workspace or from one of its
   * dependents, and only a row of the node variant.
   */
  lemma OnlyOwnAndDependentRowsAreRemoved(rows: set<AssetUsage>, repo: ContentRepositoryId, node: Node,
                                          dependents: seq<WorkspaceName>, byProperty: AssetIdsByProperty,
                                          ancestorRows: seq<AssetUsage>, cache: OriginalAssetIdCache,
                                          assets: AssetId -> AssetLookup, u: AssetUsage)
    requires node.workspaceName !in dependents
    requires u in rows && u !in IndexAfterUpdate(rows, repo, node, dependents, byProperty, ancestorRows, cache, assets)
    ensures IsOfNode(u, repo, node.aggregateId, node.dimensionSpacePoint)
    ensures u.workspaceName == node.workspaceName || u.workspaceName in dependents
  {
    if !(IsOfNode(u, repo, node.aggregateId, node.dimensionSpacePoint)
         && (u.workspaceName == node.workspaceName || u.workspaceName in dependents)) {
      OtherRowsAreKept(rows, repo, node, dependents, byProperty, ancestorRows, cache, assets, u);
    }
  }

  /** With the base chain and the dependents taken from the registry, rows of the strict bases are kept. */
  lemma AncestorRowsAreKept(reg: Registry, rows: set<AssetUsage>, repo: ContentRepositoryId, node: Node,
                            dependents: seq<WorkspaceName>, byProperty: AssetIdsByProperty,
                            ancestorRows: seq<AssetUsage>, cache: OriginalAssetIdCache,
                            assets: AssetId -> AssetLookup, u: AssetUsage)
    requires Acyclic(reg) && node.workspaceName !in dependents
    requires forall d :: d in dependents ==> IsDependent(reg, d, node.workspaceName)
    requires u in rows && u.workspaceName in Walk(reg, node.workspaceName)[1..]
    ensures u in IndexAfterUpdate(rows, repo, node, dependents, byProperty, ancestorRows, cache, assets)
  {
    BaseIsNotDependent(reg, node.workspaceName, u.workspaceName);
    BaseChainHasNoCycle(reg, node.workspaceName);
    OtherRowsAreKept(rows, repo, node, dependents, byProperty, ancestorRows, cache, assets, u);
  }

  /** A workspace is not among its own strict bases. */
  lemma BaseChainHasNoCycle(reg: Registry, w: WorkspaceName)
    requires Acyclic(reg)
    ensures w !in Walk(reg, w)[1..]
  {
    if w in reg {
      NotOwnDependent(reg, w);
    } else {
      assert Walk(reg, w) == [w];
    }
  }

  // ---------------------------------------------------------------------------
  // The service

  /** The memo after a lookup: a successful result is stored under its key unless one is stored already. */
  function Memoized(memo: map<(ContentRepositoryId, WorkspaceName), seq<WorkspaceName>>,
                    key: (ContentRepositoryId, WorkspaceName), r: Result<seq<WorkspaceName>, WorkspaceName>)
    : map<(ContentRepositoryId, WorkspaceName), seq<WorkspaceName>>
  {
    if key in memo || r.Failure? then memo else memo[key := r.value]
  }

  class AssetUsageIndexingService {
    const repository: AssetUsageRepository
    var workspaceBases: map<(ContentRepositoryId, WorkspaceName), seq<WorkspaceName>>
    var workspaceDependents: map<(ContentRepositoryId, WorkspaceName), seq<WorkspaceName>>
    var originalAssetIdCache: OriginalAssetIdCache

    /** Every memoised base chain starts with its own workspace; no memoised dependents list holds its own workspace. */
    ghost predicate Valid()
      reads this
    {
      && (forall k :: k in workspaceBases ==> |workspaceBases[k]| >= 1 && workspaceBases[k][0] == k.1)
      && (forall k :: k in workspaceDependents ==> k.1 !in workspaceDependents[k])
    }

    constructor (repository: AssetUsageRepository)
      ensures this.repository == repository
      ensures workspaceBases == map[] && workspaceDependents == map[] && originalAssetIdCache == map[]
      ensures Valid()
    {
      this.repository := repository;
      workspaceBases := map[];
      workspaceDependents := map[];
      originalAssetIdCache := map[];
    }

    /** What `getWorkspaceBasesAndWorkspace` returns in the current state. */
    ghost function BasesLookup(repo: ContentRepositoryId, reg: Registry, w: WorkspaceName)
      : Result<seq<WorkspaceName>, WorkspaceName>
      reads this
    {
      if (repo, w) in workspaceBases then Success(workspaceBases[(repo, w)]) else Ancestors(reg, w)
    }

    /**
     * `getWorkspaceBasesAndWorkspace`: the memoised list when there is one,
     * whatever the registry now says; otherwise the base chain of `w`, which
     * is then memoised, or `WorkspaceDoesNotExist` for the first missing name.
     */
    method GetWorkspaceBasesAndWorkspace(repo: ContentRepositoryId, reg: Registry, w: WorkspaceName)
      returns (r: Result<seq<WorkspaceName>, WorkspaceName>)
      requires Valid() && Acyclic(reg)
      modifies this
      ensures Valid()
      ensures r == old(BasesLookup(repo, reg, w))
      ensures (repo, w) in old(workspaceBases) ==> r == Success(old(workspaceBases)[(repo, w)])
      ensures workspaceBases == Memoized(old(workspaceBases), (repo, w), r)
      ensures workspaceDependents == old(workspaceDependents) && originalAssetIdCache == old(originalAssetIdCache)
    {
      if (repo, w) !in workspaceBases {
        r := CollectBasesAndWorkspace(reg, w);
        if r.Failure? {
          return;
        }
        workspaceBases := workspaceBases[(repo, w) := r.value];
      }
      r := Success(workspaceBases[(repo, w)]);
    }

    /**
     * `getWorkspaceDependents`: the memoised list when there is one;
     * otherwise every transitive dependent of `w` once, level by level, which
     * is then memoised, or `WorkspaceDoesNotExist` when `w` itself is missing.
     */
    method GetWorkspaceDependents(repo: ContentRepositoryId, reg: Registry, w: WorkspaceName)
      returns (r: Result<seq<WorkspaceName>, WorkspaceName>)
      requires Valid() && Acyclic(reg)
      modifies this
      ensures Valid()
      ensures (repo, w) in old(workspaceDependents) ==> r == Success(old(workspaceDependents)[(repo, w)])
      ensures (repo, w) !in old(workspaceDependents) ==>
        && (r.Failure? <==> w !in reg)
        && (r.Failure? ==> r.error == w)
        && (r.Success? ==> (forall d :: d in r.value <==> IsDependent(reg, d, w)) && Distinct(r.value))
      ensures r.Success? ==> w !in r.value
      ensures workspaceDependents == Memoized(old(workspaceDependents), (repo, w), r)
      ensures workspaceBases == old(workspaceBases) && originalAssetIdCache == old(originalAssetIdCache)
    {
      if (repo, w) !in workspaceDependents {
        r := CollectDependents(reg, w);
        if r.Failure? {
          return;
        }
        workspaceDependents := workspaceDependents[(repo, w) := r.value];
      }
      r := Success(workspaceDependents[(repo, w)]);
    }

    /** `findOriginalAssetId`: memoised per id; a failing lookup reports none and is not memoised. */
    method FindOriginalAssetId(assetId: AssetId, assets: AssetId -> AssetLookup) returns (r: Option<AssetId>)
      modifies this
      ensures r == OriginalAssetId(old(originalAssetIdCache), assets, assetId)
      ensures originalAssetIdCache == Remember(old(originalAssetIdCache), assets, assetId)
      ensures workspaceBases == old(workspaceBases) && workspaceDependents == old(workspaceDependents)
    {
      if assetId !in originalAssetIdCache {
        var asset := assets(assetId);
        if asset.LookupFails? {
          return None;
        }
        originalAssetIdCache := originalAssetIdCache[assetId := if asset.VariantOf? then Some(asset.originalAssetId) else None];
      }
      r := originalAssetIdCache[assetId];
    }

    /** The `array_map` that pairs each id with its original asset id. */
    method WithOriginalAssetIds(ids: seq<AssetId>, assets: AssetId -> AssetLookup)
      returns (r: seq<AssetIdAndOriginalAssetId>)
      modifies this
      ensures r == WithOriginals(old(originalAssetIdCache), assets, ids)
      ensures originalAssetIdCache == RememberAll(old(originalAssetIdCache), assets, ids)
      ensures workspaceBases == old(workspaceBases) && workspaceDependents == old(workspaceDependents)
    {
      r := [];
      var i := 0;
      while i < |ids|
        invariant 0 <= i <= |ids|
        invariant r == WithOriginals(old(originalAssetIdCache), assets, ids[..i])
        invariant originalAssetIdCache == RememberAll(old(originalAssetIdCache), assets, ids[..i])
        invariant workspaceBases == old(workspaceBases) && workspaceDependents == old(workspaceDependents)
      {
        var original := FindOriginalAssetId(ids[i], assets);
        RememberAllKeepsOriginals(old(originalAssetIdCache), assets, ids[..i], ids[i]);
        assert ids[..i + 1][..i] == ids[..i];
        r := r + [AssetIdAndOriginalAssetId(ids[i], original)];
        i := i + 1;
      }
      assert ids[..i] == ids;
    }

    /** `getAssetIdsByProperty`. */
    method GetAssetIdsByProperty(nt: NodeType, props: OrderedMap<PropertyName, SerializedProperty>,
                                 assets: AssetId -> AssetLookup)
      returns (r: AssetIdsByProperty)
      modifies this
      ensures r == UsagesOfNode(nt, props, old(originalAssetIdCache), assets)
      ensures originalAssetIdCache == RememberAll(old(originalAssetIdCache), assets, LookedUpIds(nt, props))
      ensures workspaceBases == old(workspaceBases) && workspaceDependents == old(workspaceDependents)
    {
      ghost var cache0 := originalAssetIdCache;
      r := [];
      var i := 0;
      while i < |props|
        invariant 0 <= i <= |props|
        invariant r == UsagesOfNode(nt, props[..i], cache0, assets)
        invariant originalAssetIdCache == RememberAll(cache0, assets, LookedUpIds(nt, props[..i]))
        invariant workspaceBases == old(workspaceBases) && workspaceDependents == old(workspaceDependents)
      {
        var (name, value) := props[i];
        assert props[..i + 1][..i] == props[..i];
        if name in nt.properties {
          var t := nt.properties[name];
          var extracted: seq<AssetId> := [];
          if value.value.Some? {
            var ids := ExtractAssetIds(t, value.value.value);
            if ids.Some? {
              extracted := ids.value;
            }
          }
          ghost var done := LookedUpIds(nt, props[..i]);
          var usages := WithOriginalAssetIds(extracted, assets);
          WithOriginalsAfterLookups(cache0, assets, done, extracted);
          RememberAllAppend(cache0, assets, done, extracted);
          r := Assign(r, name, usages);
        }
        i := i + 1;
      }
      assert props[..i] == props;
    }

    /** The loop of step 3b over the ancestor rows. */
    method RemovedUsages(byProperty: AssetIdsByProperty, ancestorRows: seq<AssetUsage>, assets: AssetId -> AssetLookup)
      returns (r: AssetIdsByProperty)
      modifies this
      ensures r == Removals(byProperty, ancestorRows, old(originalAssetIdCache), assets)
      ensures originalAssetIdCache == RememberAll(old(originalAssetIdCache), assets, RemovalLookups(byProperty, ancestorRows))
      ensures workspaceBases == old(workspaceBases) && workspaceDependents == old(workspaceDependents)
    {
      ghost var cache0 := originalAssetIdCache;
      r := [];
      var i := 0;
      while i < |ancestorRows|
        invariant 0 <= i <= |ancestorRows|
        invariant r == Removals(byProperty, ancestorRows[..i], cache0, assets)
        invariant originalAssetIdCache == RememberAll(cache0, assets, RemovalLookups(byProperty, ancestorRows[..i]))
        invariant workspaceBases == old(workspaceBases) && workspaceDependents == old(workspaceDependents)
      {
        var u := ancestorRows[i];
        assert ancestorRows[..i + 1][..i] == ancestorRows[..i];
        var removed := RemovedAssetIdsOfRow(byProperty, u);
        ghost var done := RemovalLookups(byProperty, ancestorRows[..i]);
        var usages := WithOriginalAssetIds(removed, assets);
        WithOriginalsAfterLookups(cache0, assets, done, removed);
        RememberAllAppend(cache0, assets, done, removed);
        r := Assign(r, u.propertyName, usages);
        i := i + 1;
      }
      assert ancestorRows[..i] == ancestorRows;
    }

    /** Step 4a: each new usage is added for the node's workspace and removed from every dependent. */
    method AddNewUsages(repo: ContentRepositoryId, node: Node, dependents: seq<WorkspaceName>,
                        newUsages: AssetIdsByProperty)
      modifies repository
      ensures repository.rows == AfterAdding(old(repository.rows), repo, node, dependents, Flatten(newUsages))
    {
      ghost var rows0 := repository.rows;
      var i := 0;
      while i < |newUsages|
        invariant 0 <= i <= |newUsages|
        invariant repository.rows == AfterAdding(rows0, repo, node, dependents, Flatten(newUsages[..i]))
      {
        var p := newUsages[i].0;
        var xs := newUsages[i].1;
        ghost var before := Flatten(newUsages[..i]);
        assert before + Pairs(p, xs[..0]) == before;
        var j := 0;
        while j < |xs|
          invariant 0 <= j <= |xs|
          invariant repository.rows == AfterAdding(rows0, repo, node, dependents, before + Pairs(p, xs[..j]))
        {
          var x := xs[j];
          repository.AddUsagesForNodeWithAssetOnProperty(repo, node, p, x.assetId, x.originalAssetId);
          repository.RemoveAssetUsagesForNodeAggregateIdAndDimensionSpacePointWithAssetOnPropertyInWorkspaces(
            repo, node.aggregateId, node.dimensionSpacePoint, p, x.assetId, dependents);
          UsagesStep(before, p, xs, j);
          j := j + 1;
        }
        assert xs[..j] == xs;
        NextEntry(newUsages, i);
        i := i + 1;
      }
      assert newUsages[..i] == newUsages;
    }

    /** Step 4b: each removed usage is removed from the node's own workspace only. */
    method RemoveVanishedUsages(repo: ContentRepositoryId, node: Node, removed: AssetIdsByProperty)
      modifies repository
      ensures repository.rows == AfterRemoving(old(repository.rows), repo, node, Flatten(removed))
    {
      ghost var rows0 := repository.rows;
      var i := 0;
      while i < |removed|
        invariant 0 <= i <= |removed|
        invariant repository.rows == AfterRemoving(rows0, repo, node, Flatten(removed[..i]))
      {
        var p := removed[i].0;
        var xs := removed[i].1;
        ghost var before := Flatten(removed[..i]);
        assert before + Pairs(p, xs[..0]) == before;
        var j := 0;
        while j < |xs|
          invariant 0 <= j <= |xs|
          invariant repository.rows == AfterRemoving(rows0, repo, node, before + Pairs(p, xs[..j]))
        {
          repository.RemoveAssetUsagesForNodeAggregateIdAndDimensionSpacePointWithAssetOnPropertyInWorkspaces(
            repo, node.aggregateId, node.dimensionSpacePoint, p, xs[j].assetId, [node.workspaceName]);
          UsagesStep(before, p, xs, j);
          j := j + 1;
        }
        assert xs[..j] == xs;
        NextEntry(removed, i);
        i := i + 1;
      }
      assert removed[..i] == removed;
    }

    /**
     * `updateIndex`. The base chain and the dependents of the node's
     * workspace are looked up first (either may throw
     * `WorkspaceDoesNotExist`); an unknown node type then ends the call
     * without touching the table. Otherwise the table becomes
     * `IndexAfterUpdate` of the node's usages and the ancestor rows found.
     */
    method UpdateIndex(repo: ContentRepositoryId, reg: Registry, nodeTypes: map<NodeTypeName, NodeType>,
                       assets: AssetId -> AssetLookup, node: Node)
      returns (outcome: Result<(), WorkspaceName>, ghost bases: seq<WorkspaceName>,
               ghost dependents: seq<WorkspaceName>, ghost ancestorRows: seq<AssetUsage>)
      requires Valid() && Acyclic(reg)
      modifies this, repository
      ensures Valid()
      ensures outcome.Failure? ==> repository.rows == old(repository.rows)
      ensures old(BasesLookup(repo, reg, node.workspaceName)).Failure? ==>
        outcome == Failure(old(BasesLookup(repo, reg, node.workspaceName)).error)
      ensures old(BasesLookup(repo, reg, node.workspaceName)).Success? ==>
        && bases == old(BasesLookup(repo, reg, node.workspaceName)).value
        && (outcome.Failure? <==> (repo, node.workspaceName) !in old(workspaceDependents) && node.workspaceName !in reg)
        && (outcome.Failure? ==> outcome.error == node.workspaceName)
      ensures outcome.Success? ==>
        && node.workspaceName !in dependents
        && ((repo, node.workspaceName) in old(workspaceDependents) ==>
              dependents == old(workspaceDependents)[(repo, node.workspaceName)])
        && ((repo, node.workspaceName) !in old(workspaceDependents) ==>
              forall d :: d in dependents <==> IsDependent(reg, d, node.workspaceName))
      ensures outcome.Success? && node.nodeTypeName !in nodeTypes ==> repository.rows == old(repository.rows)
      ensures outcome.Success? && node.nodeTypeName in nodeTypes ==>
        && (forall u :: u in ancestorRows <==>
              u in old(repository.rows) && IsOfNode(u, repo, node.aggregateId, node.dimensionSpacePoint)
              && u.workspaceName in bases)
        && repository.rows == IndexAfterUpdate(old(repository.rows), repo, node, dependents,
             UsagesOfNode(nodeTypes[node.nodeTypeName], node.properties, old(originalAssetIdCache), assets),
             ancestorRows, old(originalAssetIdCache), assets)
      ensures workspaceBases == Memoized(old(workspaceBases), (repo, node.workspaceName),
                                         old(BasesLookup(repo, reg, node.workspaceName)))
      ensures outcome.Failure? ==> workspaceDependents == old(workspaceDependents)
      ensures outcome.Success? ==>
        workspaceDependents == Memoized(old(workspaceDependents), (repo, node.workspaceName), Success(dependents))
      ensures outcome.Failure? || node.nodeTypeName !in nodeTypes ==> originalAssetIdCache == old(originalAssetIdCache)
      ensures outcome.Success? && node.nodeTypeName in nodeTypes ==>
        var nt := nodeTypes[node.nodeTypeName];
        originalAssetIdCache == RememberAll(old(originalAssetIdCache), assets,
          LookedUpIds(nt, node.properties)
          + RemovalLookups(UsagesOfNode(nt, node.properties, old(originalAssetIdCache), assets), ancestorRows))
    {
      bases, dependents, ancestorRows := [], [], [];
      var basesResult := GetWorkspaceBasesAndWorkspace(repo, reg, node.workspaceName);
      if basesResult.Failure? {
        return Failure(basesResult.error), bases, dependents, ancestorRows;
      }
      var chain := basesResult.value;
      bases := chain;
      var dependentsResult := GetWorkspaceDependents(repo, reg, node.workspaceName);
      if dependentsResult.Failure? {
        return Failure(dependentsResult.error), bases, dependents, ancestorRows;
      }
      var dependentList := dependentsResult.value;
      dependents := dependentList;
      outcome := Success(());
      if node.nodeTypeName !in nodeTypes {
        return;
      }
      var nodeType := nodeTypes[node.nodeTypeName];
      ghost var cache0 := originalAssetIdCache;
      var byProperty := GetAssetIdsByProperty(nodeType, node.properties, assets);
      var found := repository.FindUsageForNodeInWorkspaces(repo, node, chain);
      ancestorRows := found;
      var newUsages := UsagesNotInAncestors(byProperty, found);
      ghost var cache1 := originalAssetIdCache;
      var removed := RemovedUsages(byProperty, found, assets);
      RemovalsAfterLookups(byProperty, found, cache0, assets, LookedUpIds(nodeType, node.properties));
      RememberAllAppend(cache0, assets, LookedUpIds(nodeType, node.properties), RemovalLookups(byProperty, found));
      AddNewUsages(repo, node, dependentList, newUsages);
      RemoveVanishedUsages(repo, node, removed);
    }

    /** `updateDimensionSpacePointInIndex`. */
    method UpdateDimensionSpacePointInIndex(repo: ContentRepositoryId, workspaceName: WorkspaceName,
                                            source: DimensionSpacePoint, target: DimensionSpacePoint)
      modifies repository
      ensures forall u :: u in repository.rows <==>
        (u in old(repository.rows) && !Moves(u, repo, workspaceName, source))
        || exists v :: v in old(repository.rows) && Moves(v, repo, workspaceName, source)
                       && u == v.(dimensionSpacePoint := target)
    {
      repository.UpdateAssetUsageDimensionSpacePoint(repo, workspaceName, source, target);
    }

    /** `removeIndexForWorkspaceNameNodeAggregateIdAndDimensionSpacePoint`. */
    method RemoveIndexForWorkspaceNameNodeAggregateIdAndDimensionSpacePoint(
      repo: ContentRepositoryId, workspaceName: WorkspaceName, nodeId: NodeAggregateId, dsp: DimensionSpacePoint)
      modifies repository
      ensures forall u :: u in repository.rows <==>
        u in old(repository.rows) && !(IsOfNode(u, repo, nodeId, dsp) && u.workspaceName == workspaceName)
    {
      repository.RemoveAssetUsagesOfWorkspaceWithAllProperties(repo, workspaceName, nodeId, dsp);
    }

    /** `removeIndexForNode`: the same, for the node's workspace, aggregate and dimension space point. */
    method RemoveIndexForNode(repo: ContentRepositoryId, node: Node)
      modifies repository
      ensures forall u :: u in repository.rows <==>
        u in old(repository.rows)
        && !(IsOfNode(u, repo, node.aggregateId, node.dimensionSpacePoint) && u.workspaceName == node.workspaceName)
    {
      RemoveIndexForWorkspaceNameNodeAggregateIdAndDimensionSpacePoint(
        repo, node.workspaceName, node.aggregateId, node.dimensionSpacePoint);
    }

    /** `removeIndexForWorkspace`. */
    method RemoveIndexForWorkspace(repo: ContentRepositoryId, workspaceName: WorkspaceName)
      modifies repository
      ensures forall u :: u in repository.rows <==>
        u in old(repository.rows) && !(u.contentRepositoryId == repo && u.workspaceName == workspaceName)
    {
      repository.RemoveAssetUsagesOfWorkspace(repo, workspaceName);
    }

    /** `pruneIndex`. */
    method PruneIndex(repo: ContentRepositoryId)
      modifies repository
      ensures forall u :: u in repository.rows <==> u in old(repository.rows) && u.contentRepositoryId != repo
    {
      repository.RemoveAll(repo);
    }
  }

  /** One turn of an inner loop of step 4 visits one more usage. */
  lemma UsagesStep(before: seq<Usage>, p: PropertyName, xs: seq<AssetIdAndOriginalAssetId>, j: nat)
    requires j < |xs|
    ensures before + Pairs(p, xs[..j + 1]) == (before + Pairs(p, xs[..j])) + [(p, xs[j])]
  {
    PairsSnoc(p, xs[..j], xs[j]);
    assert xs[..j + 1] == xs[..j] + [xs[j]];
  }
}
