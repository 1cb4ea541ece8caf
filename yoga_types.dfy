/**
 Shared vocabulary of the yoga pose graph: the pose record read from the
 catalog, the catalog itself, the dependency tree and the synthetic root.
 */
module YogaTypes {

  datatype Option<+T> = None | Some(value: T)

  /** The synthetic root: the start of every chain, and the prerequisite
      assumed for a pose whose record has no `prep_poses` entry. */
  const Root: string := "Your Choice"

  /** One catalog record. `prepPoses` is `None` when the record has no
      `prep_poses` key at all, and `Some([])` for an explicitly empty list. */
  datatype Pose = Pose(
    intensityLevel: string,
    experienceLevel: string,
    improvedStrengthSites: seq<string>,
    improvedMobilitySites: seq<string>,
    prepPoses: Option<seq<string>>)

  /** Pose name to record, loaded once and never changed. */
  type Catalog = map<string, Pose>

  /** Prerequisite (or the root) to the set of poses that build on it. */
  type Tree = map<string, set<string>>

  /** The elements of a sequence, as a set. */
  function Elems<T>(s: seq<T>): set<T>
  {
    set x | x in s
  }

  lemma ElemsSnoc<T>(s: seq<T>, x: T)
    ensures Elems(s + [x]) == Elems(s) + {x}
  {
  }
}
