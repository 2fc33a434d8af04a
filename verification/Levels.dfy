/**
 * assignLevels() (src/pipeline/dag.cpp:876-901) reads the level of each dependency in insertion
 * order, where a dependency inserted later still has level -1. This module says exactly when the
 * result is a level assignment, for every acyclic graph.
 */
module Levels {
  import opened Values

  ghost predicate ValidDeps(deps: seq<seq<int>>) {
    forall i, k :: 0 <= i < |deps| && 0 <= k < |deps[i]| ==> 0 <= deps[i][k] < |deps|
  }

  /** The level a node gets when nodes are visited in insertion order. */
  function InsertionLevel(deps: seq<seq<int>>, i: int): int
    requires 0 <= i < |deps| && ValidDeps(deps)
    decreases i, |deps[i]| + 1
  {
    if deps[i] == [] then 0 else 1 + MaxAssigned(deps, i, |deps[i]|)
  }

  /** Highest level among the first `k` dependencies; one that is inserted later still reads -1. */
  function MaxAssigned(deps: seq<seq<int>>, i: int, k: nat): int
    requires 0 <= i < |deps| && k <= |deps[i]| && ValidDeps(deps)
    decreases i, k
  {
    if k == 0 then -1 else
      var p := deps[i][k - 1];
      Max(MaxAssigned(deps, i, k - 1), if p < i then InsertionLevel(deps, p) else -1)
  }

  /** `rank` witnesses that the graph has no cycle. */
  ghost predicate Acyclic(deps: seq<seq<int>>, rank: seq<nat>) {
    && ValidDeps(deps) && |rank| == |deps|
    && forall i, k :: 0 <= i < |deps| && 0 <= k < |deps[i]| ==> rank[deps[i][k]] < rank[i]
  }

  /** Length of the longest dependency path down from `i`. */
  ghost function Depth(deps: seq<seq<int>>, rank: seq<nat>, i: int): nat
    requires Acyclic(deps, rank) && 0 <= i < |deps|
    decreases rank[i], |deps[i]| + 1
  {
    if deps[i] == [] then 0 else 1 + MaxDepth(deps, rank, i, |deps[i]|)
  }

  ghost function MaxDepth(deps: seq<seq<int>>, rank: seq<nat>, i: int, k: nat): int
    requires Acyclic(deps, rank) && 0 <= i < |deps| && k <= |deps[i]|
    ensures -1 <= MaxDepth(deps, rank, i, k) && (k > 0 ==> 0 <= MaxDepth(deps, rank, i, k))
    decreases rank[i], k
  {
    if k == 0 then -1 else Max(MaxDepth(deps, rank, i, k - 1), Depth(deps, rank, deps[i][k - 1]))
  }

  lemma {:induction false} MaxDepthIsMax(deps: seq<seq<int>>, rank: seq<nat>, i: int, k: nat)
    requires Acyclic(deps, rank) && 0 <= i < |deps| && k <= |deps[i]|
    ensures forall j :: 0 <= j < k ==> Depth(deps, rank, deps[i][j]) <= MaxDepth(deps, rank, i, k)
    ensures k > 0 ==> exists j :: 0 <= j < k && Depth(deps, rank, deps[i][j]) == MaxDepth(deps, rank, i, k)
    decreases k
  {
    if k > 0 {
      MaxDepthIsMax(deps, rank, i, k - 1);
      assert Depth(deps, rank, deps[i][k - 1]) <= MaxDepth(deps, rank, i, k);
    }
  }

  lemma {:induction false} MaxAssignedIsMax(deps: seq<seq<int>>, i: int, k: nat)
    requires ValidDeps(deps) && 0 <= i < |deps| && k <= |deps[i]|
    ensures MaxAssigned(deps, i, k) >= -1
    ensures forall j :: 0 <= j < k && deps[i][j] < i ==> InsertionLevel(deps, deps[i][j]) <= MaxAssigned(deps, i, k)
    ensures MaxAssigned(deps, i, k) >= 0 ==>
      exists j :: 0 <= j < k && deps[i][j] < i && InsertionLevel(deps, deps[i][j]) == MaxAssigned(deps, i, k)
    decreases k
  {
    if k > 0 {
      MaxAssignedIsMax(deps, i, k - 1);
      var p := deps[i][k - 1];
      if p < i && MaxAssigned(deps, i, k) == InsertionLevel(deps, p) {
        assert deps[i][k - 1] < i;
      }
    }
  }

  /** Every edge goes from a strictly lower assigned level to a higher one. */
  ghost predicate LevelsClimb(deps: seq<seq<int>>)
    requires ValidDeps(deps)
  {
    forall i, k :: 0 <= i < |deps| && 0 <= k < |deps[i]| ==> EdgeClimbs(deps, i, k)
  }

  ghost predicate EdgeClimbs(deps: seq<seq<int>>, i: int, k: int)
    requires ValidDeps(deps) && 0 <= i < |deps| && 0 <= k < |deps[i]|
  {
    InsertionLevel(deps, deps[i][k]) < InsertionLevel(deps, i)
  }

  /** Some deepest dependency of `i` was inserted before `i`. */
  ghost predicate DeepestIsEarlier(deps: seq<seq<int>>, rank: seq<nat>, i: int)
    requires Acyclic(deps, rank) && 0 <= i < |deps|
  {
    deps[i] == [] ||
      exists k :: 0 <= k < |deps[i]| && deps[i][k] < i && Depth(deps, rank, deps[i][k]) + 1 == Depth(deps, rank, i)
  }

  lemma {:induction false} LevelAtMostDepth(deps: seq<seq<int>>, rank: seq<nat>, i: int)
    requires Acyclic(deps, rank) && 0 <= i < |deps|
    ensures 0 <= InsertionLevel(deps, i) <= Depth(deps, rank, i)
    decreases i
  {
    MaxAssignedIsMax(deps, i, |deps[i]|);
    MaxDepthIsMax(deps, rank, i, |deps[i]|);
    if MaxAssigned(deps, i, |deps[i]|) >= 0 {
      var j :| 0 <= j < |deps[i]| && deps[i][j] < i &&
          InsertionLevel(deps, deps[i][j]) == MaxAssigned(deps, i, |deps[i]|);
      LevelAtMostDepth(deps, rank, deps[i][j]);
    }
  }

  lemma {:induction false} ClimbingIsAtLeastDepth(deps: seq<seq<int>>, rank: seq<nat>, i: int)
    requires Acyclic(deps, rank) && 0 <= i < |deps| && LevelsClimb(deps)
    ensures Depth(deps, rank, i) <= InsertionLevel(deps, i)
    decreases rank[i]
  {
    LevelAtMostDepth(deps, rank, i);
    if deps[i] != [] {
      MaxDepthIsMax(deps, rank, i, |deps[i]|);
      var j :| 0 <= j < |deps[i]| && Depth(deps, rank, deps[i][j]) == MaxDepth(deps, rank, i, |deps[i]|);
      ClimbingIsAtLeastDepth(deps, rank, deps[i][j]);
      assert EdgeClimbs(deps, i, j);
    }
  }

  lemma {:induction false} EarlierDeepestGivesDepth(deps: seq<seq<int>>, rank: seq<nat>, i: int)
    requires Acyclic(deps, rank) && 0 <= i < |deps|
    requires forall n :: 0 <= n < |deps| ==> DeepestIsEarlier(deps, rank, n)
    ensures InsertionLevel(deps, i) == Depth(deps, rank, i)
    decreases i
  {
    LevelAtMostDepth(deps, rank, i);
    if deps[i] != [] {
      assert DeepestIsEarlier(deps, rank, i);
      var k :| 0 <= k < |deps[i]| && deps[i][k] < i && Depth(deps, rank, deps[i][k]) + 1 == Depth(deps, rank, i);
      EarlierDeepestGivesDepth(deps, rank, deps[i][k]);
      MaxAssignedIsMax(deps, i, |deps[i]|);
    }
  }

  /**
   * For every acyclic graph and insertion order: all edges climb if and only if every node with
   * dependencies has a deepest one inserted before it, and then each level is the exact depth.
   */
  lemma LevelsClimbIff(deps: seq<seq<int>>, rank: seq<nat>)
    requires Acyclic(deps, rank)
    ensures LevelsClimb(deps) <==> forall i :: 0 <= i < |deps| ==> DeepestIsEarlier(deps, rank, i)
    ensures LevelsClimb(deps) ==> forall i :: 0 <= i < |deps| ==> InsertionLevel(deps, i) == Depth(deps, rank, i)
  {
    if LevelsClimb(deps) {
      forall i | 0 <= i < |deps|
        ensures InsertionLevel(deps, i) == Depth(deps, rank, i) && DeepestIsEarlier(deps, rank, i)
      {
        ExactDepthHasEarlierDeepest(deps, rank, i);
      }
    }
    if forall i :: 0 <= i < |deps| ==> DeepestIsEarlier(deps, rank, i) {
      forall i, k | 0 <= i < |deps| && 0 <= k < |deps[i]| ensures EdgeClimbs(deps, i, k) {
        EarlierDeepestGivesDepth(deps, rank, i);
        EarlierDeepestGivesDepth(deps, rank, deps[i][k]);
        MaxDepthIsMax(deps, rank, i, |deps[i]|);
      }
    }
  }

  lemma ExactDepthHasEarlierDeepest(deps: seq<seq<int>>, rank: seq<nat>, i: int)
    requires Acyclic(deps, rank) && LevelsClimb(deps) && 0 <= i < |deps|
    ensures InsertionLevel(deps, i) == Depth(deps, rank, i) && DeepestIsEarlier(deps, rank, i)
  {
    LevelAtMostDepth(deps, rank, i);
    ClimbingIsAtLeastDepth(deps, rank, i);
    if deps[i] != [] {
      MaxAssignedIsMax(deps, i, |deps[i]|);
      MaxDepthIsMax(deps, rank, i, |deps[i]|);
      var j :| 0 <= j < |deps[i]| && deps[i][j] < i &&
          InsertionLevel(deps, deps[i][j]) == MaxAssigned(deps, i, |deps[i]|);
      LevelAtMostDepth(deps, rank, deps[i][j]);
      ClimbingIsAtLeastDepth(deps, rank, deps[i][j]);
    }
  }

  /** In particular: adding every stage after the stages it depends on is enough. */
  lemma TopologicalInsertionClimbs(deps: seq<seq<int>>)
    requires ValidDeps(deps)
    requires forall i, k :: 0 <= i < |deps| && 0 <= k < |deps[i]| ==> deps[i][k] < i
    ensures LevelsClimb(deps)
    ensures forall i :: 0 <= i < |deps| ==> InsertionLevel(deps, i) >= 0
  {
    var rank := seq(|deps|, i requires 0 <= i < |deps| => i as nat);
    forall i | 0 <= i < |deps| ensures DeepestIsEarlier(deps, rank, i) && InsertionLevel(deps, i) >= 0 {
      MaxDepthIsMax(deps, rank, i, |deps[i]|);
      LevelAtMostDepth(deps, rank, i);
    }
    LevelsClimbIff(deps, rank);
  }

  /** A chain 1 -> 0 added consumer first: both stages land on level 0. */
  lemma ConsumerFirstBreaksLevels()
    ensures var deps: seq<seq<int>> := [[1], []];
      && Acyclic(deps, [1, 0])
      && InsertionLevel(deps, 0) == InsertionLevel(deps, 1) == 0
      && !LevelsClimb(deps)
  {
    var deps: seq<seq<int>> := [[1], []];
    assert deps[0] == [1] && deps[1] == [];
    assert MaxAssigned(deps, 0, 1) == Max(MaxAssigned(deps, 0, 0), -1);
    assert !EdgeClimbs(deps, 0, 0);
  }
}
