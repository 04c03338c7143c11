/**
 * The diff `updateIndex` computes between the asset usages found on a node
 * and the rows already recorded for the node in its base chain (its own
 * workspace and the bases of it), and what applying the resulting additions and removals does to the
 * index table.
 */
module AssetUsageDiff {
  import opened Wrappers
  import opened OrderedMaps
  import opened ContentModel
  import opened AssetUsageStore

  /** `AssetIdsByProperty`: per property name, the assets it refers to. */
  type AssetIdsByProperty = OrderedMap<PropertyName, seq<AssetIdAndOriginalAssetId>>

  /** One (property, asset) usage, as visited by the nested loops over an `AssetIdsByProperty`. */
  type Usage = (PropertyName, AssetIdAndOriginalAssetId)

  /** Some recorded row of the ancestor chain has this asset on this property. */
  predicate HasAncestorUsage(ancestorRows: seq<AssetUsage>, p: PropertyName, id: AssetId)
  {
    exists k :: 0 <= k < |ancestorRows| && ancestorRows[k].assetId == id && ancestorRows[k].propertyName == p
  }

  /** Some entry of the list refers to the asset. */
  predicate ListsAsset(xs: seq<AssetIdAndOriginalAssetId>, id: AssetId)
  {
    exists k :: 0 <= k < |xs| && xs[k].assetId == id
  }

  /** The innermost loop of step 3a: is the usage already recorded in the base chain? */
  method FindsAncestorUsage(ancestorRows: seq<AssetUsage>, p: PropertyName, id: AssetId) returns (found: bool)
    ensures found <==> HasAncestorUsage(ancestorRows, p, id)
  {
    var k := 0;
    while k < |ancestorRows|
      invariant 0 <= k <= |ancestorRows|
      invariant forall j :: 0 <= j < k ==> !(ancestorRows[j].assetId == id && ancestorRows[j].propertyName == p)
    {
      if ancestorRows[k].assetId == id && ancestorRows[k].propertyName == p {
        return true;
      }
      k := k + 1;
    }
    return false;
  }

  // ---------------------------------------------------------------------------
  // Step 3a: usages of the node that no ancestor row records

  /** The usages `us` visited in order, keeping those without an ancestor row, grouped per property. */
  function NewUsagesOf(us: seq<Usage>, ancestorRows: seq<AssetUsage>): AssetIdsByProperty
  {
    if us == [] then []
    else
      var prior := NewUsagesOf(us[..|us| - 1], ancestorRows);
      var u := us[|us| - 1];
      if HasAncestorUsage(ancestorRows, u.0, u.1.assetId) then prior else AppendAt(prior, u.0, u.1)
  }

  /** `$assetIdsByPropertyNotExistingInAncestors`. */
  function NewUsages(byProperty: AssetIdsByProperty, ancestorRows: seq<AssetUsage>): AssetIdsByProperty
  {
    NewUsagesOf(Flatten(byProperty), ancestorRows)
  }

  /** The loops of step 3a. */
  method UsagesNotInAncestors(byProperty: AssetIdsByProperty, ancestorRows: seq<AssetUsage>)
    returns (r: AssetIdsByProperty)
    ensures r == NewUsages(byProperty, ancestorRows)
  {
    r := [];
    var i := 0;
    while i < |byProperty|
      invariant 0 <= i <= |byProperty|
      invariant r == NewUsagesOf(Flatten(byProperty[..i]), ancestorRows)
    {
      var p := byProperty[i].0;
      var xs := byProperty[i].1;
      ghost var before := Flatten(byProperty[..i]);
      assert before + Pairs(p, xs[..0]) == before;
      var j := 0;
      while j < |xs|
        invariant 0 <= j <= |xs|
        invariant r == NewUsagesOf(before + Pairs(p, xs[..j]), ancestorRows)
      {
        var found := FindsAncestorUsage(ancestorRows, p, xs[j].assetId);
        NewUsagesStep(before, p, xs, j, ancestorRows);
        if !found {
          r := AppendAt(r, p, xs[j]);
        }
        j := j + 1;
      }
      assert xs[..j] == xs;
      NextEntry(byProperty, i);
      i := i + 1;
    }
    assert byProperty[..i] == byProperty;
  }

  /** One turn of the inner loop of step 3a extends the visited usages by one. */
  lemma NewUsagesStep(before: seq<Usage>, p: PropertyName, xs: seq<AssetIdAndOriginalAssetId>, j: nat,
                      ancestorRows: seq<AssetUsage>)
    requires j < |xs|
    ensures NewUsagesOf(before + Pairs(p, xs[..j + 1]), ancestorRows) ==
      if HasAncestorUsage(ancestorRows, p, xs[j].assetId) then NewUsagesOf(before + Pairs(p, xs[..j]), ancestorRows)
      else AppendAt(NewUsagesOf(before + Pairs(p, xs[..j]), ancestorRows), p, xs[j])
  {
    var done := before + Pairs(p, xs[..j]);
    PairsSnoc(p, xs[..j], xs[j]);
    assert xs[..j + 1] == xs[..j] + [xs[j]];
    assert done + [(p, xs[j])] == before + Pairs(p, xs[..j + 1]);
    assert (done + [(p, xs[j])])[..|done|] == done;
  }

  /** One turn of an outer loop over an ordered map extends the visited usages by the entry's pairs. */
  lemma NextEntry<X>(m: OrderedMap<PropertyName, seq<X>>, i: nat)
    requires i < |m|
    ensures Flatten(m[..i + 1]) == Flatten(m[..i]) + Pairs(m[i].0, m[i].1)
  {
    FlattenSnoc(m[..i], m[i].0, m[i].1);
    assert m[..i + 1] == m[..i] + [(m[i].0, m[i].1)];
  }

  /** The entries of `xs` without an ancestor row for property `p`, in order. */
  function Unmatched(xs: seq<AssetIdAndOriginalAssetId>, ancestorRows: seq<AssetUsage>, p: PropertyName)
    : seq<AssetIdAndOriginalAssetId>
  {
    if xs == [] then []
    else
      var prior := Unmatched(xs[..|xs| - 1], ancestorRows, p);
      if HasAncestorUsage(ancestorRows, p, xs[|xs| - 1].assetId) then prior else prior + [xs[|xs| - 1]]
  }

  lemma {:induction false} UnmatchedMembers(xs: seq<AssetIdAndOriginalAssetId>, ancestorRows: seq<AssetUsage>,
                                            p: PropertyName, x: AssetIdAndOriginalAssetId)
    ensures x in Unmatched(xs, ancestorRows, p) <==> x in xs && !HasAncestorUsage(ancestorRows, p, x.assetId)
  {
    if xs != [] {
      UnmatchedMembers(xs[..|xs| - 1], ancestorRows, p, x);
      assert xs == xs[..|xs| - 1] + [xs[|xs| - 1]];
    }
  }

  /** The values of the usages with key `p`, in order. */
  function AtKey(us: seq<Usage>, p: PropertyName): seq<AssetIdAndOriginalAssetId>
  {
    if us == [] then []
    else AtKey(us[..|us| - 1], p) + (if us[|us| - 1].0 == p then [us[|us| - 1].1] else [])
  }

  lemma {:induction false} AtKeyAppend(a: seq<Usage>, b: seq<Usage>, p: PropertyName)
    ensures AtKey(a + b, p) == AtKey(a, p) + AtKey(b, p)
    decreases |b|
  {
    if b == [] {
      assert a + b == a;
    } else {
      assert (a + b)[..|a + b| - 1] == a + b[..|b| - 1];
      AtKeyAppend(a, b[..|b| - 1], p);
    }
  }

  lemma {:induction false} AtKeyPairs(k: PropertyName, xs: seq<AssetIdAndOriginalAssetId>, p: PropertyName)
    ensures AtKey(Pairs(k, xs), p) == if k == p then xs else []
  {
    if xs != [] {
      var n := |xs| - 1;
      assert Pairs(k, xs)[..n] == Pairs(k, xs[..n]);
      AtKeyPairs(k, xs[..n], p);
      assert xs == xs[..n] + [xs[n]];
    }
  }

  /** Visiting the nested loops and keeping key `p` gives the list stored under `p`. */
  lemma {:induction false} AtKeyFlatten(m: AssetIdsByProperty, p: PropertyName)
    ensures AtKey(Flatten(m), p) == ListAt(m, p)
  {
    if m != [] {
      var n := |m| - 1;
      var prefix: AssetIdsByProperty := m[..n];
      PrefixKeys(m, n);
      assert m == prefix + [m[n]];
      AtKeyFlatten(prefix, p);
      FlattenSnoc(prefix, m[n].0, m[n].1);
      AtKeyAppend(Flatten(prefix), Pairs(m[n].0, m[n].1), p);
      AtKeyPairs(m[n].0, m[n].1, p);
      GetSnoc(prefix, m[n].0, m[n].1, p);
    }
  }

  lemma {:induction false} NewUsagesOfAtKey(us: seq<Usage>, ancestorRows: seq<AssetUsage>, p: PropertyName)
    ensures ListAt(NewUsagesOf(us, ancestorRows), p) == Unmatched(AtKey(us, p), ancestorRows, p)
  {
    if us != [] {
      var n := |us| - 1;
      var e := us[n];
      NewUsagesOfAtKey(us[..n], ancestorRows, p);
      var prior := NewUsagesOf(us[..n], ancestorRows);
      var xs := AtKey(us[..n], p);
      ListAtAppendAt(prior, e.0, e.1, p);
      if e.0 == p {
        assert AtKey(us, p) == xs + [e.1];
        assert (xs + [e.1])[..|xs|] == xs;
        assert Unmatched(xs + [e.1], ancestorRows, p)
            == if HasAncestorUsage(ancestorRows, p, e.1.assetId) then Unmatched(xs, ancestorRows, p)
               else Unmatched(xs, ancestorRows, p) + [e.1];
      } else {
        assert AtKey(us, p) == xs;
      }
    }
  }

  /**
   * Step 3a per property: the new usages of property `p` are exactly the
   * node's usages of `p` that no ancestor row records with the same asset and
   * property, in the node's order.
   */
  lemma NewUsagesPerProperty(byProperty: AssetIdsByProperty, ancestorRows: seq<AssetUsage>, p: PropertyName)
    ensures ListAt(NewUsages(byProperty, ancestorRows), p) == Unmatched(ListAt(byProperty, p), ancestorRows, p)
  {
    NewUsagesOfAtKey(Flatten(byProperty), ancestorRows, p);
    AtKeyFlatten(byProperty, p);
  }

  /** A usage is new exactly when the node has it and no ancestor row records it. */
  lemma NewUsageMembers(byProperty: AssetIdsByProperty, ancestorRows: seq<AssetUsage>,
                        p: PropertyName, x: AssetIdAndOriginalAssetId)
    ensures (p, x) in Flatten(NewUsages(byProperty, ancestorRows)) <==>
      x in ListAt(byProperty, p) && !HasAncestorUsage(ancestorRows, p, x.assetId)
  {
    FlattenMembers(NewUsages(byProperty, ancestorRows), p, x);
    NewUsagesPerProperty(byProperty, ancestorRows, p);
    UnmatchedMembers(ListAt(byProperty, p), ancestorRows, p, x);
  }

  // ---------------------------------------------------------------------------
  // Step 3b, for one ancestor row

  /**
   * What the loop over the node's properties lists as removed for one
   * ancestor row: nothing when the node still has the row's asset on the
   * row's property; the asset once when the node lacks the property; twice
   * when the node has the property but not the asset (once inside the loop,
   * once because no match was found).
   */
  function RowRemovals(byProperty: AssetIdsByProperty, u: AssetUsage): seq<AssetId>
  {
    if u.propertyName !in Keys(byProperty) then [u.assetId]
    else if ListsAsset(ListAt(byProperty, u.propertyName), u.assetId) then []
    else [u.assetId, u.assetId]
  }

  /** The loops of step 3b for one ancestor row. */
  method RemovedAssetIdsOfRow(byProperty: AssetIdsByProperty, u: AssetUsage) returns (removed: seq<AssetId>)
    ensures removed == RowRemovals(byProperty, u)
  {
    var assetUsageFound := false;
    removed := [];
    var i := 0;
    while i < |byProperty|
      invariant 0 <= i <= |byProperty|
      invariant RowScanned(byProperty, u, i, assetUsageFound, removed)
    {
      var (p, xs) := byProperty[i];
      var hit := false;
      if u.propertyName == p {
        hit := ListsAssetSearch(xs, u.assetId);
      }
      RowScanStep(byProperty, u, i, assetUsageFound, removed, hit);
      if u.propertyName == p {
        if hit {
          assetUsageFound := true;
        } else {
          removed := removed + [u.assetId];
        }
      }
      i := i + 1;
    }
    assert byProperty[..i] == byProperty;
    if !assetUsageFound {
      removed := removed + [u.assetId];
    }
  }

  /** The state of the loops of step 3b after the first `i` properties of the node. */
  ghost predicate RowScanned(byProperty: AssetIdsByProperty, u: AssetUsage, i: nat, found: bool, removed: seq<AssetId>)
    requires i <= |byProperty|
  {
    && (u.propertyName in Keys(byProperty[..i]) ==>
         u.propertyName in Keys(byProperty) && Get(byProperty, u.propertyName) == Get(byProperty[..i], u.propertyName))
    && (u.propertyName !in Keys(byProperty[..i]) ==> !found && removed == [])
    && (u.propertyName in Keys(byProperty[..i]) ==>
         (found <==> ListsAsset(ListAt(byProperty, u.propertyName), u.assetId))
         && removed == (if found then [] else [u.assetId]))
  }

  lemma RowScanStep(byProperty: AssetIdsByProperty, u: AssetUsage, i: nat, found: bool, removed: seq<AssetId>, hit: bool)
    requires i < |byProperty| && RowScanned(byProperty, u, i, found, removed)
    requires byProperty[i].0 == u.propertyName ==> (hit <==> ListsAsset(byProperty[i].1, u.assetId))
    ensures var matched := byProperty[i].0 == u.propertyName;
      RowScanned(byProperty, u, i + 1, if matched && hit then true else found,
                 if matched && !hit then removed + [u.assetId] else removed)
  {
    var (p, xs) := byProperty[i];
    PrefixKeys(byProperty, i);
    var prefix: AssetIdsByProperty := byProperty[..i];
    GetSnoc(prefix, p, xs, u.propertyName);
    assert byProperty[..i + 1] == prefix + [(p, xs)];
    if u.propertyName == p {
      GetEntry(byProperty, i);
    }
  }

  /** The innermost loop of step 3b: does the list refer to the asset? */
  method ListsAssetSearch(xs: seq<AssetIdAndOriginalAssetId>, id: AssetId) returns (hit: bool)
    ensures hit <==> ListsAsset(xs, id)
  {
    var j := 0;
    while j < |xs|
      invariant 0 <= j <= |xs|
      invariant forall k :: 0 <= k < j ==> xs[k].assetId != id
    {
      if xs[j].assetId == id {
        return true;
      }
      j := j + 1;
    }
    return false;
  }

  /** In an ordered map the entry at position `i` is what `Get` finds for its key. */
  lemma GetEntry<K, V>(m: OrderedMap<K, V>, i: nat)
    requires i < |m|
    ensures Get(m, m[i].0) == Some(m[i].1)
  {
    if i > 0 {
      var tail: OrderedMap<K, V> := m[1..];
      GetEntry(tail, i - 1);
    }
  }

  // ---------------------------------------------------------------------------
  // Step 4: applying the diff to the table

  /** The row `addUsagesForNodeWithAssetOnProperty` records for a usage of the node. */
  function NewRow(repo: ContentRepositoryId, node: Node, x: Usage): AssetUsage
  {
    AssetUsage(repo, node.workspaceName, node.aggregateId, node.dimensionSpacePoint, x.0, x.1.assetId, x.1.originalAssetId)
  }

  /** The row is one the removal call for usage `x` in the given workspaces drops. */
  predicate Hits(u: AssetUsage, repo: ContentRepositoryId, node: Node, workspaces: seq<WorkspaceName>, x: Usage)
  {
    IsOfNode(u, repo, node.aggregateId, node.dimensionSpacePoint)
    && u.propertyName == x.0 && u.assetId == x.1.assetId && u.workspaceName in workspaces
  }

  function Purge(rows: set<AssetUsage>, repo: ContentRepositoryId, node: Node, workspaces: seq<WorkspaceName>, x: Usage)
    : set<AssetUsage>
  {
    set u | u in rows && !Hits(u, repo, node, workspaces, x)
  }

  /** Step 4a on the table: per new usage, add it for the node's workspace, then drop it from the dependents. */
  function AfterAdding(rows: set<AssetUsage>, repo: ContentRepositoryId, node: Node,
                       dependents: seq<WorkspaceName>, xs: seq<Usage>): set<AssetUsage>
  {
    if xs == [] then rows
    else
      var x := xs[|xs| - 1];
      Purge(AfterAdding(rows, repo, node, dependents, xs[..|xs| - 1]) + {NewRow(repo, node, x)}, repo, node, dependents, x)
  }

  /** Step 4b on the table: per removed usage, drop it from the node's own workspace. */
  function AfterRemoving(rows: set<AssetUsage>, repo: ContentRepositoryId, node: Node, xs: seq<Usage>): set<AssetUsage>
  {
    if xs == [] then rows
    else Purge(AfterRemoving(rows, repo, node, xs[..|xs| - 1]), repo, node, [node.workspaceName], xs[|xs| - 1])
  }

  predicate HitByAny(u: AssetUsage, repo: ContentRepositoryId, node: Node, workspaces: seq<WorkspaceName>, xs: seq<Usage>)
  {
    exists k :: 0 <= k < |xs| && Hits(u, repo, node, workspaces, xs[k])
  }

  /**
   * After step 4a a row is in the table exactly when it was there and no new
   * usage drops it from a dependent, or it is the row of a new usage; this
   * needs the node's own workspace not to be among its dependents.
   */
  lemma {:induction false} AfterAddingMembers(rows: set<AssetUsage>, repo: ContentRepositoryId, node: Node,
                                              dependents: seq<WorkspaceName>, xs: seq<Usage>, u: AssetUsage)
    requires node.workspaceName !in dependents
    ensures u in AfterAdding(rows, repo, node, dependents, xs) <==>
      (u in rows && !HitByAny(u, repo, node, dependents, xs))
      || exists k :: 0 <= k < |xs| && u == NewRow(repo, node, xs[k])
  {
    if xs != [] {
      var n := |xs| - 1;
      AfterAddingMembers(rows, repo, node, dependents, xs[..n], u);
      assert forall k :: 0 <= k < n ==> xs[..n][k] == xs[k];
      if HitByAny(u, repo, node, dependents, xs) {
        var k :| 0 <= k < |xs| && Hits(u, repo, node, dependents, xs[k]);
        if k < n {
          assert HitByAny(u, repo, node, dependents, xs[..n]);
        }
      }
      if HitByAny(u, repo, node, dependents, xs[..n]) {
        var k :| 0 <= k < n && Hits(u, repo, node, dependents, xs[..n][k]);
        assert Hits(u, repo, node, dependents, xs[k]);
      }
      if exists k :: 0 <= k < |xs| && u == NewRow(repo, node, xs[k]) {
        var k :| 0 <= k < |xs| && u == NewRow(repo, node, xs[k]);
        assert !Hits(u, repo, node, dependents, xs[n]);
        if k < n {
          assert u == NewRow(repo, node, xs[..n][k]);
        }
      }
    }
  }

  /** After step 4b a row is in the table exactly when it was there and no removed usage drops it. */
  lemma {:induction false} AfterRemovingMembers(rows: set<AssetUsage>, repo: ContentRepositoryId, node: Node,
                                                xs: seq<Usage>, u: AssetUsage)
    ensures u in AfterRemoving(rows, repo, node, xs) <==> u in rows && !HitByAny(u, repo, node, [node.workspaceName], xs)
  {
    if xs != [] {
      var n := |xs| - 1;
      AfterRemovingMembers(rows, repo, node, xs[..n], u);
      assert forall k :: 0 <= k < n ==> xs[..n][k] == xs[k];
      var ws := [node.workspaceName];
      if HitByAny(u, repo, node, ws, xs) {
        var k :| 0 <= k < |xs| && Hits(u, repo, node, ws, xs[k]);
        if k < n {
          assert HitByAny(u, repo, node, ws, xs[..n]);
        }
      }
      if HitByAny(u, repo, node, ws, xs[..n]) {
        var k :| 0 <= k < n && Hits(u, repo, node, ws, xs[..n][k]);
        assert Hits(u, repo, node, ws, xs[k]);
      }
    }
  }
}
