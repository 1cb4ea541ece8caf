/**
 Depth-first enumeration of the simple paths from a start node to an end
 pose in a dependency tree, keeping only those with at least `minChainLen`
 nodes.

 `Search` is the specification. Its last argument says what the search
 steps to from the root when the root has no entry in the tree: the
 corrected enumerator `AllPaths` steps nowhere, while the enumerator as
 written (`PathsAsWritten`) iterates the characters of the root's own
 name, each as a one-character pose name.
 */
module PathSearch {
  import opened YogaTypes
  import opened DependencyTree

  /** The one-character names obtained by iterating over the root's name. */
  function RootChars(): set<string>
  {
    set c | c in Root :: [c]
  }

  /** Successors of `s`: its tree entry, or `rootFallback` for a root
      without an entry. */
  function Next(t: Tree, s: string, rootFallback: set<string>): set<string>
  {
    if s in t then t[s] else if s == Root then rootFallback else {}
  }

  /** Every node the search can step to; it bounds the recursion. */
  function Universe(t: Tree, rootFallback: set<string>): set<string>
  {
    Targets(t) + rootFallback
  }

  /** Each step adds a node of the universe that the path did not hold yet. */
  lemma MeasureDrops(t: Tree, s: string, path: seq<string>, rootFallback: set<string>)
    ensures forall q | q in Next(t, s, rootFallback) && q !in path + [s] ::
      |Universe(t, rootFallback) - (Elems(path + [s]) + {q})|
        < |Universe(t, rootFallback) - (Elems(path) + {s})|
  {
    var u := Universe(t, rootFallback);
    var a := Elems(path) + {s};
    ElemsSnoc(path, s);
    TargetsHaveSources(t);
    forall q | q in Next(t, s, rootFallback) && q !in path + [s]
      ensures |u - (Elems(path + [s]) + {q})| < |u - a|
    {
      if s in t {
        assert Edge(t, s, q);
      }
      assert q in u - a;
      assert u - (a + {q}) == (u - a) - {q};
    }
  }

  /** The paths `find_all_paths` reports for start `s`, end `e`, minimum
      length `m` and path-so-far `path`, as a set. */
  function Search(t: Tree, s: string, e: string, m: nat, path: seq<string>,
                  rootFallback: set<string>): set<seq<string>>
    decreases |Universe(t, rootFallback) - (Elems(path) + {s})|
  {
    var here := path + [s];
    if s == e then {here}
    else if s != Root && s !in t then {}
    else
      MeasureDrops(t, s, path, rootFallback);
      set q, p | q in Next(t, s, rootFallback) && q !in here
                 && p in Search(t, q, e, m, here, rootFallback) && |p| >= m :: p
  }

  /** The enumerator with an absent tree entry read as "no successors". */
  function AllPaths(t: Tree, s: string, e: string, m: nat, path: seq<string>): set<seq<string>>
  {
    Search(t, s, e, m, path, {})
  }

  /** The enumerator as written: an absent root entry falls back to the
      characters of the root's name. */
  function PathsAsWritten(t: Tree, s: string, e: string, m: nat, path: seq<string>): set<seq<string>>
  {
    Search(t, s, e, m, path, RootChars())
  }

  /** `p` extends `path` by a simple walk along tree edges from `s` that
      stops at the first visit of `e`, and is long enough unless `s` is `e`. */
  predicate Chain(t: Tree, path: seq<string>, s: string, e: string, m: nat, p: seq<string>)
  {
    && |path| < |p|
    && p[..|path| + 1] == path + [s]
    && p[|p| - 1] == e
    && (forall i | |path| <= i < |p| - 1 :: p[i] != e)
    && (forall i, j | 0 <= i < j < |p| && |path| < j :: p[i] != p[j])
    && (forall i | |path| <= i < |p| - 1 :: Edge(t, p[i], p[i + 1]))
    && (|path| + 1 < |p| ==> m <= |p|)
  }

  /** A chain from a successor `q` of `s` is, one node earlier, a chain from `s`. */
  lemma ChainExtend(t: Tree, path: seq<string>, s: string, q: string, e: string, m: nat, p: seq<string>)
    requires s != e && Edge(t, s, q) && q !in path + [s] && m <= |p|
    requires Chain(t, path + [s], q, e, m, p)
    ensures Chain(t, path, s, e, m, p)
  {
    var here := path + [s];
    assert p[..|here|] == here by {
      assert p[..|here| + 1][..|here|] == p[..|here|];
    }
    assert p[..|path| + 1] == here;
    assert p[|path|] == s && p[|here|] == q;
    assert forall i | |path| <= i < |p| - 1 :: p[i] != e by {
      forall i | |path| <= i < |p| - 1
        ensures p[i] != e
      {
        if i == |path| {
          assert p[i] == s;
        }
      }
    }
    assert forall i, j | 0 <= i < j < |p| && |path| < j :: p[i] != p[j] by {
      forall i, j | 0 <= i < j < |p| && |path| < j
        ensures p[i] != p[j]
      {
        if j == |here| {
          assert p[i] == here[i];
        }
      }
    }
    assert forall i | |path| <= i < |p| - 1 :: Edge(t, p[i], p[i + 1]) by {
      forall i | |path| <= i < |p| - 1
        ensures Edge(t, p[i], p[i + 1])
      {
        if i == |path| {
          assert p[i] == s && p[i + 1] == q;
        }
      }
    }
  }

  lemma {:induction false} AllPathsSound(t: Tree, s: string, e: string, m: nat, path: seq<string>, p: seq<string>)
    requires p in AllPaths(t, s, e, m, path)
    ensures Chain(t, path, s, e, m, p)
    decreases |Universe(t, {}) - (Elems(path) + {s})|
  {
    var here := path + [s];
    if s == e {
      assert p == here;
    } else {
      assert s == Root || s in t;
      AllPathsUnfold(t, s, e, m, path);
      var q :| q in Next(t, s, {}) && q !in here && p in AllPaths(t, q, e, m, here) && |p| >= m;
      assert |Universe(t, {}) - (Elems(here) + {q})| < |Universe(t, {}) - (Elems(path) + {s})| by {
        MeasureDrops(t, s, path, {});
      }
      AllPathsSound(t, q, e, m, here, p);
      assert Edge(t, s, q);
      ChainExtend(t, path, s, q, e, m, p);
    }
  }

  lemma {:induction false} AllPathsComplete(t: Tree, s: string, e: string, m: nat, path: seq<string>, p: seq<string>)
    requires Chain(t, path, s, e, m, p)
    ensures p in AllPaths(t, s, e, m, path)
    decreases |Universe(t, {}) - (Elems(path) + {s})|
  {
    var here := path + [s];
    assert p[|path|] == s by {
      assert p[..|path| + 1][|path|] == p[|path|];
    }
    if s == e {
      assert |p| == |here|;
      assert p == p[..|path| + 1];
    } else {
      var q := p[|here|];
      assert Edge(t, s, q);
      assert q !in here by {
        forall i | 0 <= i < |here|
          ensures here[i] != q
        {
          assert here[i] == p[..|path| + 1][i] == p[i];
        }
      }
      assert p[..|here| + 1] == here + [q];
      MeasureDrops(t, s, path, {});
      AllPathsComplete(t, q, e, m, here, p);
    }
  }

  /** A path is reported exactly when it is a chain in the sense above. */
  lemma AllPathsAreChains(t: Tree, s: string, e: string, m: nat, path: seq<string>, p: seq<string>)
    ensures p in AllPaths(t, s, e, m, path) <==> Chain(t, path, s, e, m, p)
  {
    if p in AllPaths(t, s, e, m, path) {
      AllPathsSound(t, s, e, m, path, p);
    }
    if Chain(t, path, s, e, m, p) {
      AllPathsComplete(t, s, e, m, path, p);
    }
  }

  /** What `build_map` relies on: a path reported from the root starts at
      the root, ends at the end pose, repeats no node, follows tree edges,
      and has at least `m` nodes unless the end pose is the root itself. */
  lemma RootPathsAreSimple(t: Tree, e: string, m: nat, p: seq<string>)
    requires p in AllPaths(t, Root, e, m, [])
    ensures 0 < |p| && p[0] == Root && p[|p| - 1] == e
    ensures NoDup(p)
    ensures forall i | 0 <= i < |p| - 1 :: Edge(t, p[i], p[i + 1])
    ensures e != Root ==> m <= |p|
  {
    AllPathsSound(t, Root, e, m, [], p);
    assert p[..1][0] == p[0];
  }

  /** The reported paths that come from successor set `done`. */
  function PathsVia(t: Tree, e: string, m: nat, here: seq<string>, done: set<string>): set<seq<string>>
  {
    set q, p | q in done && q !in here && p in AllPaths(t, q, e, m, here) && |p| >= m :: p
  }

  /** The paths of `ps` with at least `m` nodes, in order. */
  function LongEnough(ps: seq<seq<string>>, m: nat): seq<seq<string>>
  {
    if ps == [] then []
    else LongEnough(ps[..|ps| - 1], m) + (if |ps[|ps| - 1]| >= m then [ps[|ps| - 1]] else [])
  }

  lemma LongEnoughSnoc(ps: seq<seq<string>>, x: seq<string>, m: nat)
    ensures LongEnough(ps + [x], m) == LongEnough(ps, m) + (if |x| >= m then [x] else [])
  {
    assert (ps + [x])[..|ps|] == ps;
  }

  predicate NoDup<T(==)>(s: seq<T>)
  {
    forall i, j | 0 <= i < j < |s| :: s[i] != s[j]
  }

  /** Every path in `ps` has a node at position `k`, and it lies in `nodes`. */
  predicate BranchesIn(ps: seq<seq<string>>, k: nat, nodes: set<string>)
  {
    forall i | 0 <= i < |ps| :: k < |ps[i]| && ps[i][k] in nodes
  }

  lemma {:induction false} LongEnoughFilters(ps: seq<seq<string>>, m: nat)
    ensures Elems(LongEnough(ps, m)) == set p | p in ps && |p| >= m
    ensures forall p | p in LongEnough(ps, m) :: p in ps
    ensures NoDup(ps) ==> NoDup(LongEnough(ps, m))
  {
    if ps != [] {
      var init, last := ps[..|ps| - 1], ps[|ps| - 1];
      LongEnoughFilters(init, m);
      assert ps == init + [last];
      var tail := if |last| >= m then [last] else [];
      assert LongEnough(ps, m) == LongEnough(init, m) + tail;
      assert Elems(LongEnough(ps, m)) == Elems(LongEnough(init, m)) + Elems(tail);
      if NoDup(ps) {
        assert NoDup(init);
        assert ps[|ps| - 1] !in init;
      }
    }
  }

  /** `paths` lists, once each, the reported paths through the successors
      in `done`, each branching at position |here| into `done`. */
  predicate Accounted(t: Tree, e: string, m: nat, here: seq<string>, done: set<string>, paths: seq<seq<string>>)
  {
    Elems(paths) == PathsVia(t, e, m, here, done) && BranchesIn(paths, |here|, done) && NoDup(paths)
  }

  /** Processing successor `q`: appending its long-enough paths extends the
      reported set by exactly the paths through `q`, and keeps them distinct. */
  lemma AppendBranch(t: Tree, e: string, m: nat, here: seq<string>, done: set<string>, q: string,
                     before: seq<seq<string>>, found: seq<seq<string>>)
    requires q !in done && q !in here
    requires Accounted(t, e, m, here, done, before)
    requires Elems(found) == AllPaths(t, q, e, m, here) && NoDup(found)
    ensures Accounted(t, e, m, here, done + {q}, before + LongEnough(found, m))
  {
    var added := LongEnough(found, m);
    LongEnoughFilters(found, m);
    forall p | p in added
      ensures |here| < |p| && p[|here|] == q
    {
      AllPathsSound(t, q, e, m, here, p);
      assert p[..|here| + 1][|here|] == p[|here|];
    }
    var r := before + added;
    forall i | 0 <= i < |r|
      ensures |here| < |r[i]| && r[i][|here|] in done + {q}
    {
      if i >= |before| {
        assert r[i] == added[i - |before|];
      }
    }
    forall i, j | 0 <= i < j < |r|
      ensures r[i] != r[j]
    {
      if i < |before| && j >= |before| {
        assert r[j] == added[j - |before|];
        assert r[i][|here|] in done;
      } else if i >= |before| {
        assert r[i] == added[i - |before|] && r[j] == added[j - |before|];
      }
    }
    assert Elems(r) == Elems(before) + Elems(added);
  }

  /** One level of the search: away from the base case and the dead end,
      the reported paths are those through the successors of `s`. */
  lemma AllPathsUnfold(t: Tree, s: string, e: string, m: nat, path: seq<string>)
    requires s != e && (s == Root || s in t)
    ensures AllPaths(t, s, e, m, path) == PathsVia(t, e, m, path + [s], Next(t, s, {}))
  {
  }

  lemma PathsViaSkip(t: Tree, e: string, m: nat, here: seq<string>, done: set<string>, q: string, paths: seq<seq<string>>)
    requires q in here && Accounted(t, e, m, here, done, paths)
    ensures Accounted(t, e, m, here, done + {q}, paths)
  {
    assert PathsVia(t, e, m, here, done + {q}) == PathsVia(t, e, m, here, done);
  }

  /** The inner loop of `find_all_paths`: append each found path that has
      at least `m` nodes, keeping their order. */
  method AppendLongEnough(paths: seq<seq<string>>, found: seq<seq<string>>, m: nat)
    returns (r: seq<seq<string>>)
    ensures r == paths + LongEnough(found, m)
  {
    r := paths;
    var k := 0;
    while k < |found|
      invariant 0 <= k <= |found|
      invariant r == paths + LongEnough(found[..k], m)
    {
      assert found[..k + 1] == found[..k] + [found[k]];
      LongEnoughSnoc(found[..k], found[k], m);
      if |found[k]| >= m {
        r := r + [found[k]];
      }
      k := k + 1;
    }
    assert found[..k] == found;
  }

  /** `find_all_paths`: recursive depth-first search. A start equal to the
      end pose completes the path; a start other than the root without a
      tree entry is a dead end; otherwise the successors are searched. An
      absent entry means no successors. The list holds exactly the paths
      of `AllPaths`, once each. */
  method FindAllPaths(t: Tree, s: string, e: string, m: nat, path: seq<string>)
    returns (paths: seq<seq<string>>)
    ensures Elems(paths) == AllPaths(t, s, e, m, path)
    ensures s == e ==> paths == [path + [s]]
    ensures s != e && s != Root && s !in t ==> paths == []
    ensures NoDup(paths)
    decreases |Universe(t, {}) - (Elems(path) + {s})|, 2
  {
    if s == e {
      return [path + [s]];
    }
    if s != Root && s !in t {
      return [];
    }
    paths := SearchSuccessors(t, s, e, m, path);
    AllPathsUnfold(t, s, e, m, path);
  }

  /** The loop of `find_all_paths` over the successors of `s`. */
  method SearchSuccessors(t: Tree, s: string, e: string, m: nat, path: seq<string>)
    returns (paths: seq<seq<string>>)
    ensures Elems(paths) == PathsVia(t, e, m, path + [s], Next(t, s, {}))
    ensures NoDup(paths)
    decreases |Universe(t, {}) - (Elems(path) + {s})|, 1
  {
    var succ := Next(t, s, {});
    var todo := succ;
    paths := [];
    while todo != {}
      invariant todo <= succ
      invariant Accounted(t, e, m, path + [s], succ - todo, paths)
      decreases todo
    {
      var q :| q in todo;
      ghost var done := succ - todo;
      paths := SearchBranch(t, s, e, m, path, q, done, paths);
      todo := todo - {q};
      assert succ - todo == done + {q};
    }
  }

  /** One iteration of that loop: a successor `q` not yet on the path is
      searched on from, and the long-enough paths found are appended. */
  method SearchBranch(t: Tree, s: string, e: string, m: nat, path: seq<string>, q: string,
                      ghost done: set<string>, paths: seq<seq<string>>)
    returns (paths': seq<seq<string>>)
    requires q in Next(t, s, {}) && q !in done
    requires Accounted(t, e, m, path + [s], done, paths)
    ensures Accounted(t, e, m, path + [s], done + {q}, paths')
    ensures |paths| <= |paths'| && paths'[..|paths|] == paths
    ensures q in path + [s] ==> paths' == paths
    decreases |Universe(t, {}) - (Elems(path) + {s})|, 0
  {
    var here := path + [s];
    if q !in here {
      assert |Universe(t, {}) - (Elems(here) + {q})| < |Universe(t, {}) - (Elems(path) + {s})| by {
        MeasureDrops(t, s, path, {});
      }
      var newpaths := FindAllPaths(t, q, e, m, here);
      paths' := AppendLongEnough(paths, newpaths, m);
      AppendBranch(t, e, m, here, done, q, paths, newpaths);
    } else {
      paths' := paths;
      PathsViaSkip(t, e, m, here, done, q, paths);
    }
  }

  /** As written, a root without a tree entry steps to the one-character
      names of its own characters. With a single prerequisite edge X -> Y
      and a pose named "Y", the search from the root reports [root, "Y"]
      although no edge leads from the root to "Y"; the corrected search
      reports no such path. */
  lemma RootFallbackInventsStep()
    ensures var t: Tree := map["X" := {"Y"}];
      && [Root, "Y"] in PathsAsWritten(t, Root, "Y", 0, [])
      && !Edge(t, Root, "Y")
      && [Root, "Y"] !in AllPaths(t, Root, "Y", 0, [])
  {
    var t: Tree := map["X" := {"Y"}];
    var fb := RootChars();
    assert [Root[0]] == "Y";
    assert "Y" in fb;
    assert Root !in t && Next(t, Root, fb) == fb;
    var here: seq<string> := [] + [Root];
    assert here == [Root] && here + ["Y"] == [Root, "Y"];
    assert Search(t, "Y", "Y", 0, here, fb) == {[Root, "Y"]};
    assert "Y" in Next(t, Root, fb) && "Y" !in here;
    assert [Root, "Y"] in Search(t, Root, "Y", 0, [], fb);
  }

  /** The same fallback at the minimum length 3 (the program's default):
      for the tree X -> Y -> Z the path [root, "Y", "Z"] is reported as
      written, although no edge leads from the root to "Y"; the corrected
      enumerator reports nothing. */
  lemma RootFallbackAtDefaultLength()
    ensures var t: Tree := map["X" := {"Y"}, "Y" := {"Z"}];
      && [Root, "Y", "Z"] in PathsAsWritten(t, Root, "Z", 3, [])
      && !Edge(t, Root, "Y")
      && AllPaths(t, Root, "Z", 3, []) == {}
  {
    var t: Tree := map["X" := {"Y"}, "Y" := {"Z"}];
    var fb := RootChars();
    assert [Root[0]] == "Y";
    assert "Y" in fb;
    assert Root !in t && Next(t, Root, fb) == fb && Next(t, Root, {}) == {};
    var here: seq<string> := [] + [Root];
    assert here == [Root];
    var there := here + ["Y"];
    assert there == [Root, "Y"] && there + ["Z"] == [Root, "Y", "Z"];
    assert Search(t, "Z", "Z", 3, there, fb) == {[Root, "Y", "Z"]};
    assert "Z" in Next(t, "Y", fb) && "Z" !in there;
    assert [Root, "Y", "Z"] in Search(t, "Y", "Z", 3, here, fb);
    assert "Y" in Next(t, Root, fb) && "Y" !in here;
    assert [Root, "Y", "Z"] in Search(t, Root, "Z", 3, [], fb);
  }
}
