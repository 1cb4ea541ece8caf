/**
 The `Yoga` object: an immutable pose catalog and the dependency-tree cache
 that the first non-empty build fills and every later build returns.
 */
module YogaGraph {
  import opened YogaTypes
  import opened PoseFilter
  import opened DependencyTree
  import opened PathSearch

  /** Every node of every path in `ps`. */
  function NodesOf(ps: set<seq<string>>): set<string>
  {
    set p, x | p in ps && x in p :: x
  }

  /** Every node of every reported path from the root to a pose of `ends`. */
  function SeenOver(t: Tree, minChainLen: nat, ends: set<string>): set<string>
  {
    set e, p, x | e in ends && p in AllPaths(t, Root, e, minChainLen, []) && x in p :: x
  }

  /** Every node of every reported path to every sink of `t`. */
  function SeenNodes(t: Tree, minChainLen: nat): set<string>
  {
    SeenOver(t, minChainLen, EndPoses(t))
  }

  /** A pose whose prerequisites all lie outside the working set gets no
      edge into the tree, so it is never seen: every seen pose other than
      the root is a catalog pose with a prerequisite in the working set. */
  lemma SeenPosesHavePrep(catalog: Catalog, workingPoses: set<string>, minChainLen: nat, x: string)
    requires x in SeenNodes(PoseTree(catalog, workingPoses), minChainLen) && x != Root
    ensures x in catalog && workingPoses * PrepOf(catalog, x) != {}
  {
    var t := PoseTree(catalog, workingPoses);
    var e, p :| e in EndPoses(t) && p in AllPaths(t, Root, e, minChainLen, []) && x in p;
    RootPathsAreSimple(t, e, minChainLen, p);
    var i :| 0 <= i < |p| && p[i] == x;
    assert i != 0;
    assert Edge(t, p[i - 1], x);
    PoseTreeEdges(catalog, workingPoses);
    assert p[i - 1] in workingPoses * PrepOf(catalog, x);
  }

  lemma SeenOverAdd(t: Tree, minChainLen: nat, done: set<string>, e: string)
    ensures SeenOver(t, minChainLen, done + {e})
      == SeenOver(t, minChainLen, done) + NodesOf(AllPaths(t, Root, e, minChainLen, []))
  {
  }

  /** The loop that adds the nodes of each found path to the seen set. */
  method CollectNodes(seenPoses: set<string>, paths: seq<seq<string>>) returns (r: set<string>)
    ensures r == seenPoses + NodesOf(Elems(paths))
  {
    r := seenPoses;
    var k := 0;
    while k < |paths|
      invariant 0 <= k <= |paths|
      invariant r == seenPoses + NodesOf(Elems(paths[..k]))
    {
      assert Elems(paths[..k + 1]) == Elems(paths[..k]) + {paths[k]} by {
        assert paths[..k + 1] == paths[..k] + [paths[k]];
      }
      r := r + Elems(paths[k]);
      k := k + 1;
    }
    assert paths[..k] == paths;
  }

  class Yoga {
    const poses: Catalog
    var graph: Tree
    /** The limiting set the cached tree was built with. */
    ghost var limitUsed: set<string>

    /** A non-empty cache is the tree of the catalog under the limit it was built with. */
    ghost predicate Valid()
      reads this
    {
      graph != map[] ==> graph == PoseTree(poses, limitUsed)
    }

    /** The catalog is supplied already loaded; the cache starts empty. */
    constructor (catalog: Catalog)
      ensures poses == catalog && graph == map[] && Valid()
    {
      poses := catalog;
      graph := map[];
    }

    /** `get_poses`: the root together with the catalog poses that pass
        every non-empty criterion, computed as an intersection of four
        per-criterion selections. */
    function GetPoses(intensityLevels: set<string>, experienceLevels: set<string>,
                      impStrengthAreas: set<string>, impMobilityAreas: set<string>): (r: set<string>)
      ensures forall p :: p in r <==>
        p == Root || (p in poses && Matches(poses[p], intensityLevels, experienceLevels, impStrengthAreas, impMobilityAreas))
    {
      SelectionMeaning(poses, IntensityLevel, intensityLevels);
      SelectionMeaning(poses, ExperienceLevel, experienceLevels);
      SelectionMeaning(poses, StrengthSites, impStrengthAreas);
      SelectionMeaning(poses, MobilitySites, impMobilityAreas);
      var intLevelPoses := Selection(poses, IntensityLevel, intensityLevels);
      var expLevelPoses := Selection(poses, ExperienceLevel, experienceLevels);
      var impStrPoses := Selection(poses, StrengthSites, impStrengthAreas);
      var impMobPoses := Selection(poses, MobilitySites, impMobilityAreas);
      {Root} + (intLevelPoses * expLevelPoses * impMobPoses * impStrPoses)
    }

    /** `get_prep_poses`: the prerequisites, inside `limitToPoses`, of any of `toPoses`. */
    method GetPrepPoses(toPoses: seq<string>, limitToPoses: set<string>) returns (allPrepPoses: set<string>)
      ensures forall p :: p in allPrepPoses <==>
        p in limitToPoses && exists i | 0 <= i < |toPoses| :: p in PrepOf(poses, toPoses[i])
    {
      allPrepPoses := {};
      var k := 0;
      while k < |toPoses|
        invariant 0 <= k <= |toPoses|
        invariant forall p :: p in allPrepPoses <==>
          p in limitToPoses && exists i | 0 <= i < k :: p in PrepOf(poses, toPoses[i])
      {
        var prepPoses := PrepOf(poses, toPoses[k]) * limitToPoses;
        allPrepPoses := allPrepPoses + prepPoses;
        k := k + 1;
      }
    }

    /** `build_pose_tree`: only while the cache is empty, add an edge
        p -> q for every catalog pose q and every prerequisite p of q
        inside `limitToPoses`; return the cache. The `poses` argument is
        not used, as in the source. */
    method BuildPoseTree(poses': set<string>, limitToPoses: set<string>) returns (t: Tree)
      requires Valid()
      modifies this`graph, this`limitUsed
      ensures Valid() && t == graph
      ensures old(graph) != map[] ==> graph == old(graph) && limitUsed == old(limitUsed)
      ensures old(graph) == map[] ==> graph == PoseTree(poses, limitToPoses)
    {
      if graph == map[] {
        limitUsed := limitToPoses;
        var todo := poses.Keys;
        while todo != {}
          invariant todo <= poses.Keys && limitUsed == limitToPoses
          invariant graph == TreeOver(poses, limitToPoses, poses.Keys - todo)
          decreases todo
        {
          var pose :| pose in todo;
          ghost var done := poses.Keys - todo;
          var preps := GetPrepPoses([pose], limitToPoses);
          assert [pose][0] == pose;
          assert preps == limitToPoses * PrepOf(poses, pose);
          AddEdges(preps, pose);
          TreeOverAdd(poses, limitToPoses, done, pose);
          todo := todo - {pose};
          assert poses.Keys - todo == done + {pose};
        }
        assert poses.Keys - todo == poses.Keys;
      }
      t := graph;
    }

    /** The inner loop of `build_pose_tree`: record `pose` as a dependent
        of every prerequisite in `preps`. It is a step of `BuildPoseTree`
        only: on its own it does not keep `Valid()`, and `BuildPoseTree`
        restores it once every catalog pose has been added. */
    method AddEdges(preps: set<string>, pose: string)
      modifies this`graph
      ensures graph == AddDependent(old(graph), preps, pose)
    {
      var rest := preps;
      AddDependentNone(graph, pose);
      while rest != {}
        invariant rest <= preps
        invariant graph == AddDependent(old(graph), preps - rest, pose)
        decreases rest
      {
        var prepPose :| prepPose in rest;
        AddDependentStep(old(graph), preps - rest, prepPose, pose);
        assert preps - (rest - {prepPose}) == (preps - rest) + {prepPose};
        graph := graph[prepPose := (if prepPose in graph then graph[prepPose] else {}) + {pose}];
        rest := rest - {prepPose};
      }
    }

    /** `build_map`: build (or reuse) the tree of the working set, then for
        every sink record the reported paths from the root when there are
        any, and collect every node of every recorded path. */
    method BuildMap(workingPoses: set<string>, minChainLen: nat)
      returns (poseMap: map<string, seq<seq<string>>>, seenPoses: set<string>)
      requires Valid()
      modifies this`graph, this`limitUsed
      ensures Valid()
      ensures old(graph) != map[] ==> graph == old(graph)
      ensures old(graph) == map[] ==> graph == PoseTree(poses, workingPoses)
      ensures poseMap.Keys == set e | e in EndPoses(graph) && AllPaths(graph, Root, e, minChainLen, []) != {}
      ensures forall e | e in poseMap :: Elems(poseMap[e]) == AllPaths(graph, Root, e, minChainLen, [])
      ensures forall e | e in poseMap :: NoDup(poseMap[e])
      ensures seenPoses == SeenNodes(graph, minChainLen)
    {
      var t := BuildPoseTree(workingPoses, workingPoses);
      var endPoses := GetEndPoses(t);
      poseMap, seenPoses := MapPaths(t, endPoses, minChainLen);
    }
  }

  /** The loop of `build_map` over the sinks `endPoses` of `t`. */
  method MapPaths(t: Tree, endPoses: set<string>, minChainLen: nat)
    returns (poseMap: map<string, seq<seq<string>>>, seenPoses: set<string>)
    ensures poseMap.Keys == set e | e in endPoses && AllPaths(t, Root, e, minChainLen, []) != {}
    ensures forall e | e in poseMap :: Elems(poseMap[e]) == AllPaths(t, Root, e, minChainLen, [])
    ensures forall e | e in poseMap :: NoDup(poseMap[e])
    ensures seenPoses == SeenOver(t, minChainLen, endPoses)
  {
    poseMap := map[];
    seenPoses := {};
    var todo := endPoses;
    while todo != {}
      invariant todo <= endPoses
      invariant poseMap.Keys == set e | e in endPoses - todo && AllPaths(t, Root, e, minChainLen, []) != {}
      invariant forall e | e in poseMap :: Elems(poseMap[e]) == AllPaths(t, Root, e, minChainLen, [])
      invariant forall e | e in poseMap :: NoDup(poseMap[e])
      invariant seenPoses == SeenOver(t, minChainLen, endPoses - todo)
      decreases todo
    {
      var endPose :| endPose in todo;
      ghost var done := endPoses - todo;
      var paths := FindAllPaths(t, Root, endPose, minChainLen, []);
      assert |paths| > 0 <==> AllPaths(t, Root, endPose, minChainLen, []) != {} by {
        if |paths| > 0 {
          assert paths[0] in Elems(paths);
        }
      }
      if |paths| > 0 {
        poseMap := poseMap[endPose := paths];
        seenPoses := CollectNodes(seenPoses, paths);
      }
      SeenOverAdd(t, minChainLen, done, endPose);
      todo := todo - {endPose};
      assert endPoses - todo == done + {endPose};
    }
  }
}
