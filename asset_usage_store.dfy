/**
 * The asset-usage index store: a table of usage rows, each saying that a
 * node variant in a workspace refers to an asset in one of its properties.
 * The operations are the repository calls the indexing service makes, each
 * specified by what its name says it does to the table.
 */
module AssetUsageStore {
  import opened Wrappers
  import opened ContentModel

  /** `AssetIdAndOriginalAssetId`: an asset and, for an asset variant, the asset it was derived from. */
  datatype AssetIdAndOriginalAssetId = AssetIdAndOriginalAssetId(assetId: AssetId, originalAssetId: Option<AssetId>)

  /** One row of the index. */
  datatype AssetUsage = AssetUsage(
    contentRepositoryId: ContentRepositoryId,
    workspaceName: WorkspaceName,
    nodeAggregateId: NodeAggregateId,
    dimensionSpacePoint: DimensionSpacePoint,
    propertyName: PropertyName,
    assetId: AssetId,
    originalAssetId: Option<AssetId>)

  /** The row belongs to the given node variant of the given content repository. */
  predicate IsOfNode(u: AssetUsage, repo: ContentRepositoryId, nodeId: NodeAggregateId, dsp: DimensionSpacePoint)
  {
    u.contentRepositoryId == repo && u.nodeAggregateId == nodeId && u.dimensionSpacePoint == dsp
  }

  class AssetUsageRepository {
    var rows: set<AssetUsage>

    constructor ()
      ensures rows == {}
    {
      rows := {};
    }

    /**
     * `findUsageForNodeInWorkspaces`: the rows of the node's variant in any of
     * the given workspaces, each once, in an order the store chooses.
     */
    method FindUsageForNodeInWorkspaces(repo: ContentRepositoryId, node: Node, workspaces: seq<WorkspaceName>)
      returns (found: seq<AssetUsage>)
      ensures Distinct(found)
      ensures forall u :: u in found <==>
        u in rows && IsOfNode(u, repo, node.aggregateId, node.dimensionSpacePoint) && u.workspaceName in workspaces
    {
      var pending := set u | u in rows && IsOfNode(u, repo, node.aggregateId, node.dimensionSpacePoint)
                             && u.workspaceName in workspaces;
      found := [];
      while pending != {}
        invariant Distinct(found)
        invariant forall u :: u in found ==> u !in pending
        invariant forall u :: u in found || u in pending <==>
          u in rows && IsOfNode(u, repo, node.aggregateId, node.dimensionSpacePoint) && u.workspaceName in workspaces
        decreases |pending|
      {
        var u :| u in pending;
        found := found + [u];
        pending := pending - {u};
      }
    }

    /** `addUsagesForNodeWithAssetOnProperty`: records the usage in the node's own workspace. */
    method AddUsagesForNodeWithAssetOnProperty(repo: ContentRepositoryId, node: Node, propertyName: PropertyName,
                                               assetId: AssetId, originalAssetId: Option<AssetId>)
      modifies this
      ensures rows == old(rows) + {AssetUsage(repo, node.workspaceName, node.aggregateId, node.dimensionSpacePoint,
                                              propertyName, assetId, originalAssetId)}
    {
      rows := rows + {AssetUsage(repo, node.workspaceName, node.aggregateId, node.dimensionSpacePoint,
                                 propertyName, assetId, originalAssetId)};
    }

    /**
     * `removeAssetUsagesForNodeAggregateIdAndDimensionSpacePointWithAssetOnPropertyInWorkspaces`:
     * drops the rows of the node variant for this asset on this property in the given workspaces.
     */
    method RemoveAssetUsagesForNodeAggregateIdAndDimensionSpacePointWithAssetOnPropertyInWorkspaces(
      repo: ContentRepositoryId, nodeId: NodeAggregateId, dsp: DimensionSpacePoint,
      propertyName: PropertyName, assetId: AssetId, workspaces: seq<WorkspaceName>)
      modifies this
      ensures rows == set u | u in old(rows) && !(IsOfNode(u, repo, nodeId, dsp) && u.propertyName == propertyName
                                                  && u.assetId == assetId && u.workspaceName in workspaces)
    {
      rows := set u | u in rows && !(IsOfNode(u, repo, nodeId, dsp) && u.propertyName == propertyName
                                     && u.assetId == assetId && u.workspaceName in workspaces);
    }

    /** `removeAssetUsagesOfWorkspaceWithAllProperties`: drops every row of the node variant in the workspace. */
    method RemoveAssetUsagesOfWorkspaceWithAllProperties(repo: ContentRepositoryId, workspaceName: WorkspaceName,
                                                         nodeId: NodeAggregateId, dsp: DimensionSpacePoint)
      modifies this
      ensures rows == set u | u in old(rows) && !(IsOfNode(u, repo, nodeId, dsp) && u.workspaceName == workspaceName)
    {
      rows := set u | u in rows && !(IsOfNode(u, repo, nodeId, dsp) && u.workspaceName == workspaceName);
    }

    /** `removeAssetUsagesOfWorkspace`: drops every row of the workspace. */
    method RemoveAssetUsagesOfWorkspace(repo: ContentRepositoryId, workspaceName: WorkspaceName)
      modifies this
      ensures rows == set u | u in old(rows) && !(u.contentRepositoryId == repo && u.workspaceName == workspaceName)
    {
      rows := set u | u in rows && !(u.contentRepositoryId == repo && u.workspaceName == workspaceName);
    }

    /** `removeAll`: drops every row of the content repository. */
    method RemoveAll(repo: ContentRepositoryId)
      modifies this
      ensures rows == set u | u in old(rows) && u.contentRepositoryId != repo
    {
      rows := set u | u in rows && u.contentRepositoryId != repo;
    }

    /** `updateAssetUsageDimensionSpacePoint`: moves the workspace's rows from one dimension space point to another. */
    method UpdateAssetUsageDimensionSpacePoint(repo: ContentRepositoryId, workspaceName: WorkspaceName,
                                               source: DimensionSpacePoint, target: DimensionSpacePoint)
      modifies this
      ensures rows == (set u | u in old(rows) && !Moves(u, repo, workspaceName, source))
                    + (set u | u in old(rows) && Moves(u, repo, workspaceName, source) :: u.(dimensionSpacePoint := target))
    {
      rows := (set u | u in rows && !Moves(u, repo, workspaceName, source))
            + (set u | u in rows && Moves(u, repo, workspaceName, source) :: u.(dimensionSpacePoint := target));
    }
  }

  predicate Moves(u: AssetUsage, repo: ContentRepositoryId, workspaceName: WorkspaceName, source: DimensionSpacePoint)
  {
    u.contentRepositoryId == repo && u.workspaceName == workspaceName && u.dimensionSpacePoint == source
  }
}
