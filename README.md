# Yoga pose dependency graph — a Dafny model

This project models the core of `make_yoga_graph.py`: the `Yoga` class that
selects poses from a catalog, builds the "prep pose → pose" dependency tree,
finds its end poses (sinks), and enumerates every simple chain from the
synthetic root `"Your Choice"` to each end pose that has at least
`min_chain_len` poses. It also models the node-id sanitiser `clean`.

Modules, one per component:

- `YogaTypes` (`yoga_types.dfy`): the `Pose` record, the catalog
  (`map<string, Pose>`), the tree (`map<string, set<string>>`) and the root
  constant. `prepPoses` is an `Option`. `None` means the record has no
  `prep_poses` key, so the root is assumed. `Some([])` is an explicitly
  empty list, which gives no edge.
- `PoseFilter` (`pose_filter.dfy`): one criterion's selection, computed
  the way the source does it (a non-empty intersection), plus the reference
  meaning of a match.
- `DependencyTree` (`dependency_tree.dfy`): `PrepOf`, the tree as a value
  (`PoseTree`), its edge characterisation, and sink detection (`EndPoses`,
  and the loop `GetEndPoses`).
- `PathSearch` (`path_search.dfy`): the enumerator. `Search` specifies it
  and `Chain` gives an independent characterisation of what it reports.
  `FindAllPaths` is the imperative recursive search, proved equal to
  `AllPaths`.
- `YogaGraph` (`yoga.dfy`): class `Yoga`. It has a `const poses` catalog,
  the cached `graph` field and a ghost `limitUsed`. Its invariant `Valid()`
  says a non-empty cache is the tree of the catalog under the limiting set
  it was built with. It also holds `get_poses`, `get_prep_poses`,
  `build_pose_tree` and `build_map`.
- `Sanitize` (`sanitize.dfy`): `clean`.
- `Scenarios` (`scenarios.dfy`): small catalogs whose tree, sinks and
  paths are proved.

Decisions where the source is dynamic:

- A filter criterion is a `set<string>`. Python treats `None` and an empty
  list alike (both are falsy), so the empty set stands for "not given".
- `find_all_paths` iterates a Python set, so its output order is
  unspecified. The specification `Search` is therefore a set of paths.
  `FindAllPaths` returns a list and is proved to hold exactly those paths,
  each once.
- `build_map` ignores its `poses` and `limit_to_poses` arguments and reads
  the module globals `yoga` and `interested_poses`
  (make_yoga_graph.py:147). `BuildMap` takes that working set explicitly as
  `workingPoses` and runs on `this`.
- `min_chain_len` is a `nat`.
- A pose with an explicitly empty `prep_poses` list gets no edge
  (make_yoga_graph.py:92), and a limiting set without the root gets no root
  edges (line 93). The model follows the code.
  `Scenarios.EmptyPrepListGivesNoRootEdge` shows both for X with an empty
  list. `Scenarios.ChainCatalogTree` and `Scenarios.ChainCatalogPaths`
  show the chain root → X → Y → Z when X has no `prep_poses` key.
- `find_all_paths` reads a root without a tree entry through
  `pose_tree.get(start_pose, "Your Choice")` (make_yoga_graph.py:131) and
  walks the characters of that string. `PathSearch.FindAllPaths`,
  `YogaGraph.MapPaths` and `YogaGraph.Yoga.BuildMap` read such a root as
  having no successors, so they differ from line 131 on that input. The
  behaviour as written is kept in `PathSearch.PathsAsWritten` (see
  "## Findings").

## Model

| member | source | states |
|---|---|---|
| `YogaGraph.Yoga.constructor` | make_yoga_graph.py:34-36 | the object holds the given catalog and starts with an empty tree cache, satisfying `Valid()` |
| `YogaGraph.Yoga.GetPoses` | make_yoga_graph.py:48-74 | a name is selected iff it is the root, or it is a catalog pose that meets every non-empty criterion: level by membership, sites by sharing at least one wanted site |
| `PoseFilter.SelectionMeaning` | make_yoga_graph.py:54-72 | the source's per-criterion test (non-empty intersection of the record's values with the wanted set; every pose when the wanted set is empty) selects exactly the catalog poses that pass the criterion |
| `YogaGraph.Yoga.GetPrepPoses` | make_yoga_graph.py:88-97 | the result holds p iff p is in the limiting set and is a prerequisite of some listed pose; a pose without a `prep_poses` key, or missing from the catalog, has the root as its prerequisite |
| `YogaGraph.Yoga.BuildPoseTree` | make_yoga_graph.py:100-106 | memoised build: a non-empty cache is returned unchanged, whatever the arguments; an empty cache (also one left empty by an earlier build) is filled with the tree of the whole catalog under the given limiting set; the result is the cache and `Valid()` is kept |
| `YogaGraph.Yoga.AddEdges` | make_yoga_graph.py:103-104 | the inner loop adds the pose as a dependent of each given prerequisite and changes nothing else in the cache; it is a step of `BuildPoseTree`, which restores `Valid()` afterwards |
| `DependencyTree.PoseTreeEdges` | make_yoga_graph.py:88-104 | in a built tree, p → q is an edge iff q is a catalog pose, p is in the limiting set, and p is a prerequisite of q; no entry of the tree is empty |
| `DependencyTree.RootEntry` | make_yoga_graph.py:88-104 | the root gets a tree entry iff it is in the limiting set and some catalog pose has no `prep_poses` key or names the root in its list |
| `DependencyTree.TreeOverAdd` | make_yoga_graph.py:102-104 | processing one more catalog pose adds exactly that pose's edges to the tree built so far |
| `DependencyTree.SameEdgesSameTree` | make_yoga_graph.py:100-106 | two trees without empty entries that have the same edges are equal, so a built tree is determined by its edges |
| `DependencyTree.EndPoses` | make_yoga_graph.py:109-117 | q is an end pose iff some edge points to q and q is not a key of the tree |
| `DependencyTree.GetEndPoses` | make_yoga_graph.py:109-117 | the loop that collects all targets and all prerequisites returns exactly the end poses |
| `PathSearch.AllPathsSound` | make_yoga_graph.py:120-139 | every reported path is the incoming path followed by the start; it follows tree edges; it reaches the end pose only at its last node; no node after the start repeats an earlier node; it has at least `min_chain_len` nodes unless the start is the end pose |
| `PathSearch.AllPathsComplete` | make_yoga_graph.py:120-139 | every such chain is reported |
| `PathSearch.AllPathsAreChains` | make_yoga_graph.py:120-139 | a path is reported iff it is such a chain |
| `PathSearch.RootPathsAreSimple` | make_yoga_graph.py:120-139 | a path reported from the root starts at the root, ends at the end pose, repeats no node, follows edges, and has at least `min_chain_len` nodes when the end pose is not the root |
| `PathSearch.FindAllPaths` | make_yoga_graph.py:120-139 | the recursive search returns each path of the specification exactly once; if the start is the end pose it returns exactly `[path + [start]]`, with no length filter; a start other than the root without a tree entry returns `[]` |
| `PathSearch.SearchSuccessors` | make_yoga_graph.py:131-139 | the loop over the start's successors collects, each once, the long-enough paths through every successor that is not on the path yet |
| `PathSearch.SearchBranch` | make_yoga_graph.py:132-137 | one successor: the earlier list is kept as a prefix; if the successor is on the path already the list is unchanged, otherwise its long-enough paths are appended; the collected list stays complete and free of duplicates |
| `PathSearch.AppendLongEnough` | make_yoga_graph.py:135-137 | the found paths with at least `min_chain_len` nodes are appended in their order |
| `PathSearch.RootFallbackInventsStep` | make_yoga_graph.py:127-131 | as written, for the tree {X → {Y}} and the minimum length 0, a root without an entry steps to the one-letter names of its characters, so `[root, "Y"]` is reported without any edge root → Y; the corrected enumerator does not report it |
| `PathSearch.RootFallbackAtDefaultLength` | make_yoga_graph.py:127-136 | as written, for the tree {X → {Y}, Y → {Z}} and the minimum length 3, the root without an entry steps to "Y", so `[root, "Y", "Z"]` is reported although no edge leads from the root to "Y"; the corrected enumerator reports no path |
| `YogaGraph.Yoga.BuildMap` | make_yoga_graph.py:142-162 | builds or reuses the tree as `BuildPoseTree` does; records an end pose iff it has at least one reported path from the root; each recorded list holds exactly those paths, each once; the seen set is exactly the nodes of all recorded paths |
| `YogaGraph.MapPaths` | make_yoga_graph.py:150-160 | the loop over the end poses records exactly the end poses that have paths, with their paths, each once, and collects their nodes |
| `YogaGraph.CollectNodes` | make_yoga_graph.py:157-158 | the seen set grows by exactly the nodes of the given paths |
| `YogaGraph.SeenPosesHavePrep` | make_yoga_graph.py:142-162 | every seen pose other than the root is a catalog pose with a prerequisite in the working set; a pose whose prerequisites are all outside the working set is never seen |
| `Sanitize.Replace` | make_yoga_graph.py:166 | replacing one character keeps the length and changes exactly the occurrences of that character |
| `Sanitize.Clean` | make_yoga_graph.py:165-166 | keeps the length; maps `-`, space, `/` and `'` to `_` and every other character to itself; the result contains none of those four characters |
| `Sanitize.CleanIdempotent` | make_yoga_graph.py:165-166 | cleaning twice is the same as cleaning once |
| `Scenarios.ChainCatalogTree` | make_yoga_graph.py:88-117 | for X (no `prep_poses` key), Y (after X) and Z (after Y), with the root in the working set: the tree is root → X → Y → Z and Z is the only end pose |
| `Scenarios.ChainCatalogPaths` | make_yoga_graph.py:120-139 | in that tree, with a minimum length of 2, the only path from the root to Z is [root, X, Y, Z] |
| `Scenarios.EmptyPrepListGivesNoRootEdge` | make_yoga_graph.py:88-139 | for X (empty `prep_poses` list), Y (after X) and Z (after Y), the tree is X → Y → Z with the root in the working set, so the empty list alone removes the root edge; without the root in the working set the tree is the same; Z is the only end pose; the corrected enumerator reports no path at the minimum lengths 2 and 3, and the enumerator as written reports [root, "Y", "Z"] at 3 |
| `Scenarios.RootWithoutEntryCatalog` | make_yoga_graph.py:88-139 | for X (empty `prep_poses` list) and Y (after X), the root has no entry even with the root in the working set, and Y is the only end pose; at the minimum length 0, the enumerator as written reports [root, "Y"] and the corrected one reports nothing |

## Findings

| source | as written | input that shows it | evidently intended | confidence | as-written member | corrected member |
|---|---|---|---|---|---|---|
| make_yoga_graph.py:131 | when the root has no entry in the tree, `pose_tree.get(start_pose, "Your Choice")` yields a string, and the loop walks its characters as if they were successor poses (`PathSearch.PathsAsWritten`) | catalog X with `prep_poses: []`, Y with `prep_poses: [X]` and Z with `prep_poses: [Y]`, working set {Your Choice, X, Y, Z}, `min_chain_len` 3 (the default at line 275): the tree is {X → {Y}, Y → {Z}}, the only end pose is Z, and the path [Your Choice, Y, Z] is reported although Y requires X and no edge leads from the root to Y; with X and Y alone and `min_chain_len` at most 2, [Your Choice, Y] is reported | a node without an entry has no successors, so no path is reported | not executed; certain that the code behaves this way, but it only shows up when a pose name is a single character of "Your Choice" | `PathSearch.RootFallbackAtDefaultLength` | `PathSearch.AllPathsAreChains` |

## Left out

- `load_data` (make_yoga_graph.py:39-45) is not modelled: it reads a file and parses YAML. The catalog is an immutable map given to the constructor. Every record has all four attribute fields; only `prep_poses` may be absent.
- `get_info` and `make_graph` (make_yoga_graph.py:77-85, 169-227) are not modelled: they only format the DOT text. This covers the `"n/a"` display defaults, the longest-chain colouring and the sort of chains by string length.
- `get_available_options` (make_yoga_graph.py:229-240) and the `__main__` block (lines 244-294) are not modelled. They are command-line glue: environment variables, the `"n/a"` toggling, the file write and the `dot` call. Two facts about them: the two-pass filter followed by a union is composed by that caller, and `MIN_CHAIN_LEN`, when set, arrives as a string.
- Logging, the locale setup and the `logger.info` calls in `build_map` are not modelled.
- PathSearch.FindAllPaths: states which paths the list holds and that each appears once, not their order. The source's order follows Python set iteration, which is unspecified.
- PathSearch.PathsAsWritten: models the character fallback as a set of one-character names. Python walks "Your Choice" character by character, so the repeated `o` would search twice and could report a path twice; the set collapses that duplicate.
- YogaGraph.Yoga.BuildMap: states the contents of the returned dictionary, not its insertion order.
- Python `defaultdict` lookups that create empty entries are not modelled. The core never reads the tree by indexing, only with `in`, `.get` and `.items`, so no empty entry can appear.
