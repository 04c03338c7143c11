/**
 * The workspace forest of one content repository, as the asset-usage index
 * sees it: every workspace name is mapped to the name of its base workspace,
 * root workspaces have none. This module holds the two traversals the index
 * service performs over it — the chain of bases of a workspace and the
 * breadth-first collection of its dependents — together with independent
 * definitions of both and the lemmas that connect them.
 */
module WorkspaceHierarchy {
  import opened Wrappers
  import opened ContentModel

  /** `findWorkspaceByName` of one content repository: a name that is not a key does not exist. */
  type Registry = map<WorkspaceName, Option<WorkspaceName>>

  /** Follows base links from `w` for at most `fuel` steps; stops at a root or at a name the registry lacks. */
  function WalkWithin(reg: Registry, w: WorkspaceName, fuel: nat): (r: seq<WorkspaceName>)
    ensures |r| >= 1 && r[0] == w
    decreases fuel
  {
    if fuel == 0 || w !in reg || reg[w].None? then [w]
    else [w] + WalkWithin(reg, reg[w].value, fuel - 1)
  }

  /** The base chain from `w` ends (at a root or at a missing name) within `fuel` steps. */
  predicate EndsWithin(reg: Registry, w: WorkspaceName, fuel: nat)
    decreases fuel
  {
    w !in reg || reg[w].None? || (fuel > 0 && EndsWithin(reg, reg[w].value, fuel - 1))
  }

  /**
   * The base relation has no cycle: every chain of bases ends within as many
   * steps as there are workspaces.
   */
  predicate Acyclic(reg: Registry)
  {
    forall w :: w in reg ==> EndsWithin(reg, w, |reg|)
  }

  /** The names met when following base links from `w`: `w`, its base, that base's base, ... */
  function Walk(reg: Registry, w: WorkspaceName): (r: seq<WorkspaceName>)
    ensures |r| >= 1 && r[0] == w
  {
    WalkWithin(reg, w, |reg|)
  }

  /** The number of names on the base chain of `x`; a root workspace has depth 1. */
  function Depth(reg: Registry, x: WorkspaceName): nat
  {
    |Walk(reg, x)|
  }

  /** `d` is a (transitive) dependent of `w`: `w` is a strict ancestor of `d`. */
  predicate IsDependent(reg: Registry, d: WorkspaceName, w: WorkspaceName)
  {
    d in reg && w in Walk(reg, d)[1..]
  }

  /** `getDependantWorkspaces(x)`: the workspaces whose base is `x`. */
  function ChildrenOf(reg: Registry, x: WorkspaceName): set<WorkspaceName>
  {
    set c | c in reg && reg[c] == Some(x)
  }

  /** `c` is a complete chain of existing workspaces, each the base of the one before, ending at a root. */
  predicate IsRootChain(reg: Registry, c: seq<WorkspaceName>)
  {
    && |c| >= 1
    && (forall i :: 0 <= i < |c| ==> c[i] in reg)
    && (forall i :: 0 <= i < |c| - 1 ==> reg[c[i]] == Some(c[i + 1]))
    && reg[c[|c| - 1]].None?
  }

  /** `c` is a chain of base links whose last name does not exist (and all names before it do). */
  predicate IsBrokenChain(reg: Registry, c: seq<WorkspaceName>)
  {
    && |c| >= 1
    && (forall i :: 0 <= i < |c| - 1 ==> c[i] in reg && reg[c[i]] == Some(c[i + 1]))
    && c[|c| - 1] !in reg
  }

  /**
   * The result `getWorkspaceBasesAndWorkspace` computes when nothing is
   * cached: the base chain of `w`, or `WorkspaceDoesNotExist` for the first
   * name on the chain that does not exist.
   */
  function Ancestors(reg: Registry, w: WorkspaceName): Result<seq<WorkspaceName>, WorkspaceName>
  {
    var chain := Walk(reg, w);
    if chain[|chain| - 1] in reg then Success(chain) else Failure(chain[|chain| - 1])
  }

  // ---------------------------------------------------------------------------
  // Facts about walks

  lemma {:induction false} EndsWithinMonotone(reg: Registry, w: WorkspaceName, n: nat, m: nat)
    requires EndsWithin(reg, w, n) && n <= m
    ensures EndsWithin(reg, w, m)
    decreases n
  {
    if w in reg && reg[w].Some? {
      EndsWithinMonotone(reg, reg[w].value, n - 1, m - 1);
    }
  }

  lemma {:induction false} WalkWithinStable(reg: Registry, w: WorkspaceName, n: nat, m: nat)
    requires EndsWithin(reg, w, n) && n <= m
    ensures WalkWithin(reg, w, m) == WalkWithin(reg, w, n)
    decreases n
  {
    if w in reg && reg[w].Some? {
      WalkWithinStable(reg, reg[w].value, n - 1, m - 1);
    }
  }

  /** Under acyclicity a walk unfolds like the chain it describes. */
  lemma WalkUnfold(reg: Registry, w: WorkspaceName)
    requires Acyclic(reg) && w in reg && reg[w].Some?
    ensures Walk(reg, w) == [w] + Walk(reg, reg[w].value)
  {
    var b := reg[w].value;
    assert EndsWithin(reg, w, |reg|);
    assert EndsWithin(reg, b, |reg| - 1);
    WalkWithinStable(reg, b, |reg| - 1, |reg|);
  }

  /** Consecutive names on a walk are linked by the base relation. */
  lemma {:induction false} WalkWithinLinks(reg: Registry, w: WorkspaceName, n: nat, i: nat)
    requires i + 1 < |WalkWithin(reg, w, n)|
    ensures WalkWithin(reg, w, n)[i] in reg
    ensures reg[WalkWithin(reg, w, n)[i]] == Some(WalkWithin(reg, w, n)[i + 1])
    decreases n
  {
    if i > 0 {
      WalkWithinLinks(reg, reg[w].value, n - 1, i - 1);
    }
  }

  lemma WalkLinks(reg: Registry, w: WorkspaceName, i: nat)
    requires i + 1 < |Walk(reg, w)|
    ensures Walk(reg, w)[i] in reg && reg[Walk(reg, w)[i]] == Some(Walk(reg, w)[i + 1])
  {
    WalkWithinLinks(reg, w, |reg|, i);
  }

  /** A walk with enough fuel stops only at a root or at a missing name. */
  lemma {:induction false} WalkWithinEnds(reg: Registry, w: WorkspaceName, n: nat)
    requires EndsWithin(reg, w, n)
    ensures var c := WalkWithin(reg, w, n); c[|c| - 1] !in reg || reg[c[|c| - 1]].None?
    decreases n
  {
    if w in reg && reg[w].Some? {
      WalkWithinEnds(reg, reg[w].value, n - 1);
    }
  }

  lemma WalkEnds(reg: Registry, w: WorkspaceName)
    requires Acyclic(reg)
    ensures var c := Walk(reg, w); c[|c| - 1] !in reg || reg[c[|c| - 1]].None?
  {
    if w in reg {
      WalkWithinEnds(reg, w, |reg|);
    }
  }

  /** Every suffix of a walk is the walk of its first name. */
  lemma {:induction false} WalkSuffix(reg: Registry, w: WorkspaceName, i: nat)
    requires Acyclic(reg) && i < |Walk(reg, w)|
    ensures Walk(reg, w)[i..] == Walk(reg, Walk(reg, w)[i])
    decreases i
  {
    if i > 0 {
      WalkLinks(reg, w, 0);
      WalkUnfold(reg, w);
      var b := reg[w].value;
      assert Walk(reg, w)[i..] == Walk(reg, b)[i - 1..];
      WalkSuffix(reg, b, i - 1);
    }
  }

  /** A child is exactly one level deeper than its base. */
  lemma ChildDepth(reg: Registry, c: WorkspaceName, q: WorkspaceName)
    requires Acyclic(reg) && c in reg && reg[c] == Some(q)
    ensures Depth(reg, c) == Depth(reg, q) + 1
  {
    WalkUnfold(reg, c);
  }

  /** A dependent lies strictly deeper than the workspace it depends on. */
  lemma DependentIsDeeper(reg: Registry, d: WorkspaceName, w: WorkspaceName)
    requires Acyclic(reg) && IsDependent(reg, d, w)
    ensures Depth(reg, d) > Depth(reg, w)
  {
    var c := Walk(reg, d);
    var i :| 1 <= i < |c| && c[i] == w;
    WalkSuffix(reg, d, i);
  }

  /** No workspace depends on itself, because the base relation has no cycle. */
  lemma NotOwnDependent(reg: Registry, w: WorkspaceName)
    requires Acyclic(reg)
    ensures !IsDependent(reg, w, w)
  {
    if IsDependent(reg, w, w) {
      DependentIsDeeper(reg, w, w);
    }
  }

  /** The children of a dependent (or of `w` itself) are dependents of `w`. */
  lemma ChildIsDependent(reg: Registry, c: WorkspaceName, q: WorkspaceName, w: WorkspaceName)
    requires Acyclic(reg) && c in reg && reg[c] == Some(q)
    requires q == w || IsDependent(reg, q, w)
    ensures IsDependent(reg, c, w)
  {
    WalkUnfold(reg, c);
    assert Walk(reg, c)[1..] == Walk(reg, q);
    if q != w {
      assert w in Walk(reg, q)[1..];
    }
  }

  /** A base of `w` (at any distance) never depends on `w`. */
  lemma BaseIsNotDependent(reg: Registry, w: WorkspaceName, b: WorkspaceName)
    requires Acyclic(reg) && b in Walk(reg, w)[1..]
    ensures !IsDependent(reg, b, w)
  {
    var c := Walk(reg, w);
    var i :| 1 <= i < |c| && c[i] == b;
    WalkSuffix(reg, w, i);
    assert Depth(reg, b) < Depth(reg, w);
    if IsDependent(reg, b, w) {
      DependentIsDeeper(reg, b, w);
    }
  }

  /**
   * If `d` depends on `q`, the name just below `q` on `d`'s chain is a child
   * of `q` and is either `d` itself or a workspace `d` depends on.
   */
  lemma ChildOnPath(reg: Registry, d: WorkspaceName, q: WorkspaceName) returns (c: WorkspaceName)
    requires Acyclic(reg) && IsDependent(reg, d, q)
    ensures c in ChildrenOf(reg, q)
    ensures c == d || IsDependent(reg, d, c)
  {
    var chain := Walk(reg, d);
    var j :| 1 <= j < |chain| && chain[j] == q;
    WalkLinks(reg, d, j - 1);
    c := chain[j - 1];
    if j - 1 > 0 {
      assert c in chain[1..];
    }
  }

  // ---------------------------------------------------------------------------
  // The base chain

  /** `Ancestors` yields a complete root chain starting at `w`, or names the first missing workspace of a broken one. */
  lemma AncestorsSound(reg: Registry, w: WorkspaceName)
    requires Acyclic(reg)
    ensures Ancestors(reg, w).Success? ==>
      IsRootChain(reg, Ancestors(reg, w).value) && Ancestors(reg, w).value[0] == w
    ensures Ancestors(reg, w).Failure? ==>
      IsBrokenChain(reg, Walk(reg, w)) && Walk(reg, w)[0] == w
      && Ancestors(reg, w).error == Walk(reg, w)[|Walk(reg, w)| - 1]
  {
    var c := Walk(reg, w);
    WalkEnds(reg, w);
    forall i | 0 <= i < |c| - 1
      ensures c[i] in reg && reg[c[i]] == Some(c[i + 1])
    {
      WalkLinks(reg, w, i);
    }
  }

  /** A complete root chain (or a broken chain) starting at `w` is exactly what `Ancestors` reports. */
  lemma {:induction false} AncestorsComplete(reg: Registry, c: seq<WorkspaceName>)
    requires Acyclic(reg) && |c| >= 1
    ensures IsRootChain(reg, c) ==> Ancestors(reg, c[0]) == Success(c)
    ensures IsBrokenChain(reg, c) ==> Ancestors(reg, c[0]) == Failure(c[|c| - 1])
    decreases |c|
  {
    if |c| == 1 {
      assert c == [c[0]];
    } else if IsRootChain(reg, c) || IsBrokenChain(reg, c) {
      var rest := c[1..];
      assert IsRootChain(reg, c) ==> IsRootChain(reg, rest) by {
        if IsRootChain(reg, c) {
          forall i | 0 <= i < |rest| - 1 ensures reg[rest[i]] == Some(rest[i + 1]) {
            assert reg[c[i + 1]] == Some(c[i + 2]);
          }
        }
      }
      assert IsBrokenChain(reg, c) ==> IsBrokenChain(reg, rest) by {
        if IsBrokenChain(reg, c) {
          forall i | 0 <= i < |rest| - 1 ensures rest[i] in reg && reg[rest[i]] == Some(rest[i + 1]) {
            assert c[i + 1] in reg && reg[c[i + 1]] == Some(c[i + 2]);
          }
        }
      }
      AncestorsComplete(reg, rest);
      assert c[0] in reg && reg[c[0]] == Some(c[1]);
      WalkUnfold(reg, c[0]);
      assert c == [c[0]] + rest;
      if IsRootChain(reg, c) {
        assert Walk(reg, c[1]) == rest;
        assert Walk(reg, c[0]) == c;
        assert c[|c| - 1] in reg;
      }
    }
  }

  /**
   * The loop of `getWorkspaceBasesAndWorkspace`: a queue that never holds more
   * than one workspace, so it walks the base chain one link at a time.
   */
  method CollectBasesAndWorkspace(reg: Registry, w: WorkspaceName)
    returns (r: Result<seq<WorkspaceName>, WorkspaceName>)
    requires Acyclic(reg)
    ensures r == Ancestors(reg, w)
  {
    if w !in reg {
      return Failure(w);
    }
    var stack := [w];
    var collected := [w];
    while stack != []
      invariant |stack| <= 1 && |collected| >= 1
      invariant stack != [] ==> stack[0] in reg && collected[|collected| - 1] == stack[0]
      invariant stack != [] ==> collected + Walk(reg, stack[0])[1..] == Walk(reg, w)
      invariant stack == [] ==> collected == Walk(reg, w) && collected[|collected| - 1] in reg
      decreases if stack == [] then 0 else |Walk(reg, stack[0])|
    {
      var workspace := stack[0];
      stack := stack[1..];
      match reg[workspace]
      case None =>
        assert Walk(reg, workspace) == [workspace];
      case Some(base) =>
        WalkUnfold(reg, workspace);
        if base !in reg {
          assert Walk(reg, base) == [base];
          assert Walk(reg, w) == collected + [base];
          return Failure(base);
        }
        stack := stack + [base];
        collected := collected + [base];
    }
    return Success(collected);
  }

  // ---------------------------------------------------------------------------
  // The dependents

  /** `getDependantWorkspaces`: the children of `x`, each once; the finder's order is not modelled. */
  method DependantWorkspaces(reg: Registry, x: WorkspaceName) returns (ds: seq<WorkspaceName>)
    ensures Distinct(ds)
    ensures forall c :: c in ds <==> c in ChildrenOf(reg, x)
  {
    var remaining := ChildrenOf(reg, x);
    ds := [];
    while remaining != {}
      invariant Distinct(ds)
      invariant forall c :: c in ds ==> c !in remaining
      invariant forall c :: c in ChildrenOf(reg, x) <==> c in ds || c in remaining
      decreases remaining
    {
      var c :| c in remaining;
      ds := ds + [c];
      remaining := remaining - {c};
    }
  }

  /** The elements of `s` appear in order of nondecreasing depth. */
  predicate LevelOrdered(reg: Registry, s: seq<WorkspaceName>)
  {
    forall i, j :: 0 <= i < j < |s| ==> Depth(reg, s[i]) <= Depth(reg, s[j])
  }

  /**
   * The loop of `getWorkspaceDependents`: a breadth-first traversal from `w`
   * over the children relation. It reports `WorkspaceDoesNotExist` only for
   * `w` itself; otherwise it lists every transitive dependent of `w` exactly
   * once, never `w`, level by level.
   */
  method CollectDependents(reg: Registry, w: WorkspaceName)
    returns (r: Result<seq<WorkspaceName>, WorkspaceName>)
    requires Acyclic(reg)
    ensures r.Failure? <==> w !in reg
    ensures r.Failure? ==> r.error == w
    ensures r.Success? ==> forall d :: d in r.value <==> IsDependent(reg, d, w)
    ensures r.Success? ==> Distinct(r.value) && w !in r.value
    ensures r.Success? ==> LevelOrdered(reg, r.value)
  {
    if w !in reg {
      return Failure(w);
    }
    var queue := [w];
    var collected: seq<WorkspaceName> := [];
    ghost var processed: seq<WorkspaceName> := [];
    while queue != []
      invariant BfsInvariant(reg, w, processed, queue, collected)
      decreases reg.Keys - (set x | x in collected), |queue|
    {
      var q := queue[0];
      var ds := DependantWorkspaces(reg, q);
      BfsStep(reg, w, processed, queue, collected, ds);
      processed := processed + [q];
      queue := queue[1..] + ds;
      collected := collected + ds;
    }
    BfsDone(reg, w, processed, collected);
    return Success(collected);
  }

  /**
   * The invariant of the breadth-first loop: the queue is the not yet
   * processed tail of `[w] + collected`; everything collected is a distinct
   * dependent whose base has been processed; every dependent not yet
   * collected lies below some queued workspace; and the list is level-ordered
   * with the queue head at most one level above the last collected name.
   */
  ghost predicate BfsInvariant(reg: Registry, w: WorkspaceName, processed: seq<WorkspaceName>,
                         queue: seq<WorkspaceName>, collected: seq<WorkspaceName>)
  {
    && processed + queue == [w] + collected
    && Distinct([w] + collected)
    && (forall x :: x in collected ==> IsDependent(reg, x, w))
    && (forall x :: x in collected ==> x in reg && reg[x].Some? && reg[x].value in processed)
    && (forall d :: IsDependent(reg, d, w) && d !in collected ==>
         exists k :: 0 <= k < |queue| && IsDependent(reg, d, queue[k]))
    && LevelOrdered(reg, [w] + collected)
    && (queue != [] ==> Depth(reg, ([w] + collected)[|collected|]) <= Depth(reg, queue[0]) + 1)
  }

  /** One iteration of the breadth-first loop keeps its invariant and makes progress. */
  lemma BfsStep(reg: Registry, w: WorkspaceName, processed: seq<WorkspaceName>, queue: seq<WorkspaceName>,
                collected: seq<WorkspaceName>, ds: seq<WorkspaceName>)
    requires Acyclic(reg) && queue != []
    requires BfsInvariant(reg, w, processed, queue, collected)
    requires Distinct(ds) && forall c :: c in ds <==> c in ChildrenOf(reg, queue[0])
    ensures BfsInvariant(reg, w, processed + [queue[0]], queue[1..] + ds, collected + ds)
    ensures ds != [] ==> reg.Keys - (set x | x in collected + ds) < reg.Keys - (set x | x in collected)
    ensures ds == [] ==> collected + ds == collected
  {
    var L := [w] + collected;
    var processed', queue', collected' := processed + [queue[0]], queue[1..] + ds, collected + ds;
    ChildrenAreNew(reg, w, processed, queue, collected, ds);
    assert L + ds == [w] + collected';
    assert processed' + queue' == [w] + collected';
    DistinctAppend(L, ds);
    assert Distinct([w] + collected');
    assert forall x :: x in collected' ==> IsDependent(reg, x, w);
    assert forall x :: x in collected' ==> x in reg && reg[x].Some? && reg[x].value in processed';
    WaitingStillReachable(reg, w, queue, collected, ds);
    LevelsAfterStep(reg, L, ds, Depth(reg, queue[0]));
    NextLevelBound(reg, w, processed, queue, collected, ds);
    StepShrinks(reg, w, collected, ds);
  }

  /** When the queue is empty the invariant yields the postcondition of `CollectDependents`. */
  lemma BfsDone(reg: Registry, w: WorkspaceName, processed: seq<WorkspaceName>, collected: seq<WorkspaceName>)
    requires Acyclic(reg) && BfsInvariant(reg, w, processed, [], collected)
    ensures forall d :: d in collected <==> IsDependent(reg, d, w)
    ensures Distinct(collected) && w !in collected
    ensures LevelOrdered(reg, collected)
  {
    NotOwnDependent(reg, w);
    assert Distinct(collected) by {
      forall i, j | 0 <= i < j < |collected| ensures collected[i] != collected[j] {
        assert ([w] + collected)[i + 1] == collected[i];
        assert ([w] + collected)[j + 1] == collected[j];
      }
    }
    assert LevelOrdered(reg, collected) by {
      forall i, j | 0 <= i < j < |collected| ensures Depth(reg, collected[i]) <= Depth(reg, collected[j]) {
        assert ([w] + collected)[i + 1] == collected[i];
        assert ([w] + collected)[j + 1] == collected[j];
      }
    }
  }

  /** The children of the workspace at the head of the queue are one level below it and not yet collected. */
  lemma ChildrenAreNew(reg: Registry, w: WorkspaceName, processed: seq<WorkspaceName>, queue: seq<WorkspaceName>,
                       collected: seq<WorkspaceName>, ds: seq<WorkspaceName>)
    requires Acyclic(reg) && queue != []
    requires processed + queue == [w] + collected
    requires Distinct([w] + collected)
    requires forall x :: x in collected ==> IsDependent(reg, x, w)
    requires forall x :: x in collected ==> x in reg && reg[x].Some? && reg[x].value in processed
    requires forall c :: c in ds <==> c in ChildrenOf(reg, queue[0])
    ensures forall c :: c in ds ==> c in reg && reg[c] == Some(queue[0]) && reg[c].value in processed + [queue[0]]
    ensures forall c :: c in ds ==> Depth(reg, c) == Depth(reg, queue[0]) + 1
    ensures forall c :: c in ds ==> IsDependent(reg, c, w)
    ensures forall c :: c in ds ==> c !in [w] + collected
  {
    var q := queue[0];
    var L := [w] + collected;
    assert q == L[|processed|];
    assert q !in processed by {
      forall i | 0 <= i < |processed| ensures processed[i] != q {
        assert L[i] == processed[i];
      }
    }
    assert q == w || IsDependent(reg, q, w) by {
      if q != w {
        assert q in collected;
      }
    }
    forall c | c in ds
      ensures Depth(reg, c) == Depth(reg, q) + 1
      ensures IsDependent(reg, c, w)
      ensures c !in L
    {
      ChildDepth(reg, c, q);
      ChildIsDependent(reg, c, q, w);
      if q != w {
        DependentIsDeeper(reg, q, w);
      }
    }
  }

  /** The breadth-first loop terminates: each new child leaves fewer workspaces uncollected. */
  lemma StepShrinks(reg: Registry, w: WorkspaceName, collected: seq<WorkspaceName>, ds: seq<WorkspaceName>)
    requires forall c :: c in ds ==> c in reg && c !in [w] + collected
    ensures ds != [] ==> reg.Keys - (set x | x in collected + ds) < reg.Keys - (set x | x in collected)
    ensures ds == [] ==> collected + ds == collected
  {
    if ds != [] {
      assert ds[0] in ds;
      assert ds[0] in reg.Keys - (set x | x in collected);
      assert ds[0] !in reg.Keys - (set x | x in collected + ds);
    }
  }

  lemma DistinctAppend(a: seq<WorkspaceName>, b: seq<WorkspaceName>)
    requires Distinct(a) && Distinct(b) && forall x :: x in b ==> x !in a
    ensures Distinct(a + b)
  {
    forall i, j | 0 <= i < j < |a + b| ensures (a + b)[i] != (a + b)[j] {
      if j >= |a| {
        assert (a + b)[j] == b[j - |a|];
        if i >= |a| {
          assert (a + b)[i] == b[i - |a|];
        } else {
          assert (a + b)[i] == a[i] && a[i] in a;
          assert b[j - |a|] in b;
        }
      } else {
        assert (a + b)[i] == a[i] && (a + b)[j] == a[j];
      }
    }
  }

  /** A dependent that waited behind the head of the queue now waits behind the child of the head on its chain. */
  lemma WaitingStillReachable(reg: Registry, w: WorkspaceName, queue: seq<WorkspaceName>,
                              collected: seq<WorkspaceName>, ds: seq<WorkspaceName>)
    requires Acyclic(reg) && queue != []
    requires forall d :: IsDependent(reg, d, w) && d !in collected ==>
      exists k :: 0 <= k < |queue| && IsDependent(reg, d, queue[k])
    requires forall c :: c in ds <==> c in ChildrenOf(reg, queue[0])
    ensures forall d :: IsDependent(reg, d, w) && d !in collected + ds ==>
      exists k :: 0 <= k < |queue[1..] + ds| && IsDependent(reg, d, (queue[1..] + ds)[k])
  {
    var queue' := queue[1..] + ds;
    forall d | IsDependent(reg, d, w) && d !in collected + ds
      ensures exists k :: 0 <= k < |queue'| && IsDependent(reg, d, queue'[k])
    {
      assert d !in collected;
      var k :| 0 <= k < |queue| && IsDependent(reg, d, queue[k]);
      if k > 0 {
        assert queue'[k - 1] == queue[k];
      } else {
        var c := ChildOnPath(reg, d, queue[0]);
        assert c in ds;
        var m :| 0 <= m < |ds| && ds[m] == c;
        assert queue'[|queue| - 1 + m] == c;
      }
    }
  }

  /** Appending a level that is at most one below the last collected workspace keeps the list level-ordered. */
  lemma LevelsAfterStep(reg: Registry, L: seq<WorkspaceName>, ds: seq<WorkspaceName>, d: nat)
    requires LevelOrdered(reg, L) && |L| >= 1
    requires Depth(reg, L[|L| - 1]) <= d + 1
    requires forall c :: c in ds ==> Depth(reg, c) == d + 1
    ensures LevelOrdered(reg, L + ds)
  {
    forall i, j | 0 <= i < j < |L + ds| ensures Depth(reg, (L + ds)[i]) <= Depth(reg, (L + ds)[j]) {
      if j >= |L| {
        assert (L + ds)[j] == ds[j - |L|];
        if i < |L| {
          assert (L + ds)[i] == L[i];
          if i < |L| - 1 {
            assert Depth(reg, L[i]) <= Depth(reg, L[|L| - 1]);
          }
        } else {
          assert (L + ds)[i] == ds[i - |L|];
        }
      } else {
        assert (L + ds)[i] == L[i] && (L + ds)[j] == L[j];
      }
    }
  }

  /** After a step the last collected workspace is again at most one level below the new head of the queue. */
  lemma NextLevelBound(reg: Registry, w: WorkspaceName, processed: seq<WorkspaceName>, queue: seq<WorkspaceName>,
                       collected: seq<WorkspaceName>, ds: seq<WorkspaceName>)
    requires queue != [] && processed + queue == [w] + collected
    requires LevelOrdered(reg, [w] + collected)
    requires Depth(reg, ([w] + collected)[|collected|]) <= Depth(reg, queue[0]) + 1
    requires forall c :: c in ds ==> Depth(reg, c) == Depth(reg, queue[0]) + 1
    ensures queue[1..] + ds != [] ==>
      Depth(reg, ([w] + (collected + ds))[|collected + ds|]) <= Depth(reg, (queue[1..] + ds)[0]) + 1
  {
    var L := [w] + collected;
    var L' := [w] + (collected + ds);
    if queue[1..] + ds != [] {
      if |queue| > 1 {
        assert queue[0] == L[|processed|];
        assert queue[1] == L[|processed| + 1];
        assert (queue[1..] + ds)[0] == queue[1];
      } else {
        assert (queue[1..] + ds)[0] == ds[0];
        assert ds[0] in ds;
      }
      if ds != [] {
        assert L'[|collected + ds|] == ds[|ds| - 1];
        assert ds[|ds| - 1] in ds;
      } else {
        assert L'[|collected + ds|] == L[|collected|];
      }
    }
  }
}
