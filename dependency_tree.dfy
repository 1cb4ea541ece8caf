/**
 The dependency tree as a value: which prerequisites a pose declares, the
 tree the builder produces from a catalog and a limiting pose set, and the
 sinks (end poses) of a tree.
 */
module DependencyTree {
  import opened YogaTypes

  /** The prerequisites of `q`: its `prep_poses` list when the record has
      one (possibly empty), otherwise the root alone. A name that is not in
      the catalog also falls back to the root. */
  function PrepOf(catalog: Catalog, q: string): set<string>
  {
    if q in catalog && catalog[q].prepPoses.Some? then Elems(catalog[q].prepPoses.value) else {Root}
  }

  predicate Edge(t: Tree, p: string, q: string)
  {
    p in t && q in t[p]
  }

  /** The tree recorded for the dependents `qs`: an edge p -> q for each
      catalog pose q in qs and each prerequisite p of q inside `limit`. */
  function TreeOver(catalog: Catalog, limit: set<string>, qs: set<string>): Tree
  {
    map p | p in limit && (exists q :: q in qs && q in catalog && p in PrepOf(catalog, q)) ::
      set q | q in qs && q in catalog && p in PrepOf(catalog, q)
  }

  /** The tree built from the whole catalog. */
  function PoseTree(catalog: Catalog, limit: set<string>): Tree
  {
    TreeOver(catalog, limit, catalog.Keys)
  }

  /** Edge characterisation of a built tree; no prerequisite is recorded
      without at least one dependent. */
  lemma PoseTreeEdges(catalog: Catalog, limit: set<string>)
    ensures forall p, q :: Edge(PoseTree(catalog, limit), p, q) <==>
      q in catalog && p in limit && p in PrepOf(catalog, q)
    ensures forall p | p in PoseTree(catalog, limit) :: PoseTree(catalog, limit)[p] != {}
  {
  }

  /** The root gets an entry exactly when it is in the limiting set and
      some catalog pose either has no `prep_poses` key or names the root
      in its list. */
  lemma RootEntry(catalog: Catalog, limit: set<string>)
    ensures Root in PoseTree(catalog, limit) <==>
      Root in limit &&
      (exists q :: q in catalog && (catalog[q].prepPoses.None? || Root in catalog[q].prepPoses.value))
  {
    if Root in PoseTree(catalog, limit) {
      var q :| q in catalog.Keys && q in catalog && Root in PrepOf(catalog, q);
      assert q in catalog && (catalog[q].prepPoses.None? || Root in catalog[q].prepPoses.value);
    }
  }

  /** A tree is determined by its edges once empty entries are excluded. */
  lemma {:induction false} SameEdgesSameTree(t: Tree, u: Tree)
    requires forall p, q :: Edge(t, p, q) <==> Edge(u, p, q)
    requires forall p | p in t :: t[p] != {}
    requires forall p | p in u :: u[p] != {}
    ensures t == u
  {
    forall p | p in t
      ensures p in u
    {
      var q :| q in t[p];
      assert Edge(t, p, q);
    }
    forall p | p in u
      ensures p in t
    {
      var q :| q in u[p];
      assert Edge(u, p, q);
    }
    forall p | p in t
      ensures t[p] == u[p]
    {
      forall q ensures q in t[p] <==> q in u[p] {
        assert Edge(t, p, q) <==> Edge(u, p, q);
      }
    }
  }

  /** `t` with the edges p -> q added for every p in `preps`. */
  function AddDependent(t: Tree, preps: set<string>, q: string): Tree
  {
    map p | p in t.Keys + preps :: (if p in t then t[p] else {}) + (if p in preps then {q} else {})
  }

  lemma AddDependentNone(t: Tree, q: string)
    ensures AddDependent(t, {}, q) == t
  {
    var u := AddDependent(t, {}, q);
    assert u.Keys == t.Keys;
    forall p | p in t
      ensures u[p] == t[p]
    {
    }
  }

  /** Adding one prerequisite at a time is a single map update. */
  lemma AddDependentStep(t: Tree, preps: set<string>, p: string, q: string)
    ensures AddDependent(t, preps + {p}, q) ==
      AddDependent(t, preps, q)[p := (if p in AddDependent(t, preps, q) then AddDependent(t, preps, q)[p] else {}) + {q}]
  {
    var u := AddDependent(t, preps, q);
    var v := AddDependent(t, preps + {p}, q);
    var w := u[p := (if p in u then u[p] else {}) + {q}];
    assert v.Keys == w.Keys;
    forall x | x in v
      ensures v[x] == w[x]
    {
    }
  }

  /** Processing one more catalog pose adds exactly its edges. */
  lemma TreeOverAdd(catalog: Catalog, limit: set<string>, qs: set<string>, q: string)
    requires q in catalog && q !in qs
    ensures TreeOver(catalog, limit, qs + {q}) == AddDependent(TreeOver(catalog, limit, qs), limit * PrepOf(catalog, q), q)
  {
    var before := TreeOver(catalog, limit, qs);
    var after := TreeOver(catalog, limit, qs + {q});
    var added := AddDependent(before, limit * PrepOf(catalog, q), q);
    assert after.Keys == added.Keys by {
      forall p | p in added
        ensures p in after
      {
        if p !in before {
          assert p in limit * PrepOf(catalog, q);
        }
      }
    }
    forall p | p in after
      ensures after[p] == added[p]
    {
    }
  }

  /** Every node some edge points to. */
  function Targets(t: Tree): set<string>
  {
    set p, q | p in t && q in t[p] :: q
  }

  /** The sinks: edge targets that are not themselves prerequisites. */
  function EndPoses(t: Tree): (r: set<string>)
    ensures forall q :: q in r <==> (exists p :: Edge(t, p, q)) && q !in t
  {
    TargetsHaveSources(t);
    Targets(t) - t.Keys
  }

  lemma TargetsHaveSources(t: Tree)
    ensures forall q :: q in Targets(t) <==> exists p :: Edge(t, p, q)
  {
    forall q | exists p :: Edge(t, p, q)
      ensures q in Targets(t)
    {
      var p :| Edge(t, p, q);
      assert p in t && q in t[p];
    }
    forall q | q in Targets(t)
      ensures exists p :: Edge(t, p, q)
    {
      var p :| p in t && q in t[p];
      assert Edge(t, p, q);
    }
  }

  /** Sink detection as the source does it: one pass over the tree's
      entries collecting targets and prerequisites, then their difference. */
  method GetEndPoses(t: Tree) returns (ends: set<string>)
    ensures ends == EndPoses(t)
  {
    var allToPoses: set<string> := {};
    var allPrepPoses: set<string> := {};
    var todo := t.Keys;
    while todo != {}
      invariant todo <= t.Keys
      invariant allPrepPoses == t.Keys - todo
      invariant allToPoses == set p, q | p in allPrepPoses && q in t[p] :: q
      decreases todo
    {
      var p :| p in todo;
      allToPoses := allToPoses + t[p];
      allPrepPoses := allPrepPoses + {p};
      todo := todo - {p};
    }
    ends := allToPoses - allPrepPoses;
  }
}
