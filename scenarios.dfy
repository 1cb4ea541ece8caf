/**
 Small catalogs whose tree, sinks and paths are proved.
 */
module Scenarios {
  import opened YogaTypes
  import opened DependencyTree
  import opened PathSearch

  function Record(prep: Option<seq<string>>): Pose
  {
    Pose("Low", "Beginner", ["Back"], ["Hips"], prep)
  }

  /** X has no `prep_poses` key, Y lists X and Z lists Y. */
  function ChainCatalog(): Catalog
  {
    map["X" := Record(None), "Y" := Record(Some(["X"])), "Z" := Record(Some(["Y"]))]
  }

  /** With the root in the working set the tree is the chain
      root -> X -> Y -> Z, and Z is its only sink. */
  lemma ChainCatalogTree()
    ensures PoseTree(ChainCatalog(), {Root, "X", "Y", "Z"}) == map[Root := {"X"}, "X" := {"Y"}, "Y" := {"Z"}]
    ensures EndPoses(map[Root := {"X"}, "X" := {"Y"}, "Y" := {"Z"}]) == {"Z"}
  {
    var catalog := ChainCatalog();
    var limit := {Root, "X", "Y", "Z"};
    var expected: Tree := map[Root := {"X"}, "X" := {"Y"}, "Y" := {"Z"}];
    assert PrepOf(catalog, "X") == {Root};
    assert PrepOf(catalog, "Y") == {"X"};
    assert PrepOf(catalog, "Z") == {"Y"};
    PoseTreeEdges(catalog, limit);
    SameEdgesSameTree(PoseTree(catalog, limit), expected);
    assert Edge(expected, "Y", "Z");
  }

  /** The one path from the root to Z has four nodes and passes the
      minimum length 2. */
  lemma ChainCatalogPaths()
    ensures AllPaths(map[Root := {"X"}, "X" := {"Y"}, "Y" := {"Z"}], Root, "Z", 2, []) == {[Root, "X", "Y", "Z"]}
  {
    var t: Tree := map[Root := {"X"}, "X" := {"Y"}, "Y" := {"Z"}];
    var path := [Root, "X", "Y", "Z"];
    assert Chain(t, [], Root, "Z", 2, path);
    AllPathsComplete(t, Root, "Z", 2, [], path);
    forall p | p in AllPaths(t, Root, "Z", 2, [])
      ensures p == path
    {
      RootPathsAreSimple(t, "Z", 2, p);
      assert Edge(t, p[0], p[1]);
      assert Edge(t, p[1], p[2]);
      assert Edge(t, p[2], p[3]);
      AllPathsSound(t, Root, "Z", 2, [], p);
      assert p[3] == "Z";
    }
  }

  /** An explicitly empty `prep_poses` list gives no edge from the root,
      even with the root in the working set; a working set without the
      root gives the same tree. The root then has no entry: read as "no
      successors" it yields no path, while the enumerator as written, at
      the minimum length 3, reports [root, "Y", "Z"] through the
      one-character pose "Y". */
  lemma EmptyPrepListGivesNoRootEdge()
    ensures var catalog := map["X" := Record(Some([])), "Y" := Record(Some(["X"])), "Z" := Record(Some(["Y"]))];
      var t: Tree := map["X" := {"Y"}, "Y" := {"Z"}];
      && PoseTree(catalog, {Root, "X", "Y", "Z"}) == t
      && PoseTree(catalog, {"X", "Y", "Z"}) == t
      && EndPoses(t) == {"Z"}
      && AllPaths(t, Root, "Z", 2, []) == {}
      && AllPaths(t, Root, "Z", 3, []) == {}
      && [Root, "Y", "Z"] in PathsAsWritten(t, Root, "Z", 3, [])
  {
    var catalog := map["X" := Record(Some([])), "Y" := Record(Some(["X"])), "Z" := Record(Some(["Y"]))];
    var expected: Tree := map["X" := {"Y"}, "Y" := {"Z"}];
    assert PrepOf(catalog, "X") == {};
    assert PrepOf(catalog, "Y") == {"X"};
    assert PrepOf(catalog, "Z") == {"Y"};
    var withRoot := {Root, "X", "Y", "Z"};
    PoseTreeEdges(catalog, withRoot);
    SameEdgesSameTree(PoseTree(catalog, withRoot), expected);
    var withoutRoot := {"X", "Y", "Z"};
    PoseTreeEdges(catalog, withoutRoot);
    SameEdgesSameTree(PoseTree(catalog, withoutRoot), expected);
    assert Edge(expected, "Y", "Z");
    assert Next(expected, Root, {}) == {};
    RootFallbackAtDefaultLength();
  }

  /** For X (empty list) and Y (after X) the root has no entry, even
      with the root in the working set: every record has a `prep_poses`
      list and none names the root (see `RootEntry`). The only sink is the
      one-character pose "Y", which is where the enumerator as written
      invents the step root -> "Y". */
  lemma RootWithoutEntryCatalog()
    ensures var catalog := map["X" := Record(Some([])), "Y" := Record(Some(["X"]))];
      var t := PoseTree(catalog, {Root, "X", "Y"});
      && t == map["X" := {"Y"}]
      && EndPoses(t) == {"Y"}
      && [Root, "Y"] in PathsAsWritten(t, Root, "Y", 0, [])
      && AllPaths(t, Root, "Y", 0, []) == {}
  {
    var catalog := map["X" := Record(Some([])), "Y" := Record(Some(["X"]))];
    var limit := {Root, "X", "Y"};
    var expected: Tree := map["X" := {"Y"}];
    assert PrepOf(catalog, "X") == {};
    assert PrepOf(catalog, "Y") == {"X"};
    PoseTreeEdges(catalog, limit);
    SameEdgesSameTree(PoseTree(catalog, limit), expected);
    assert Edge(expected, "X", "Y");
    RootFallbackInventsStep();
  }
}
