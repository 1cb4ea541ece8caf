/**
 The pose filter's building blocks: for one criterion, the catalog poses it
 selects as the source computes them (a non-empty intersection with the
 wanted values), and the reference meaning of a match. An empty criterion
 selects every pose.
 */
module PoseFilter {
  import opened YogaTypes

  /** The four record fields a selection can test. */
  datatype Criterion = IntensityLevel | ExperienceLevel | StrengthSites | MobilitySites

  /** The values of one field of a record, as a set. */
  function Values(pose: Pose, c: Criterion): set<string>
  {
    match c
    case IntensityLevel => {pose.intensityLevel}
    case ExperienceLevel => {pose.experienceLevel}
    case StrengthSites => Elems(pose.improvedStrengthSites)
    case MobilitySites => Elems(pose.improvedMobilitySites)
  }

  /** The catalog poses one criterion keeps. */
  function Selection(catalog: Catalog, c: Criterion, wanted: set<string>): set<string>
  {
    if wanted != {} then set p | p in catalog && Values(catalog[p], c) * wanted != {}
    else catalog.Keys
  }

  /** A scalar field matches by membership of the record's one value. */
  predicate LevelMatches(wanted: set<string>, level: string)
  {
    wanted == {} || level in wanted
  }

  /** A site field matches when the record names at least one wanted site. */
  predicate SitesMatch(wanted: set<string>, sites: seq<string>)
  {
    wanted == {} || exists i | 0 <= i < |sites| :: sites[i] in wanted
  }

  /** The record meets every criterion that is given. */
  predicate Matches(pose: Pose, intensityLevels: set<string>, experienceLevels: set<string>,
                    impStrengthAreas: set<string>, impMobilityAreas: set<string>)
  {
    && LevelMatches(intensityLevels, pose.intensityLevel)
    && LevelMatches(experienceLevels, pose.experienceLevel)
    && SitesMatch(impStrengthAreas, pose.improvedStrengthSites)
    && SitesMatch(impMobilityAreas, pose.improvedMobilitySites)
  }

  /** Whether one record passes one criterion, in reference terms. */
  predicate Passes(pose: Pose, c: Criterion, wanted: set<string>)
  {
    match c
    case IntensityLevel => LevelMatches(wanted, pose.intensityLevel)
    case ExperienceLevel => LevelMatches(wanted, pose.experienceLevel)
    case StrengthSites => SitesMatch(wanted, pose.improvedStrengthSites)
    case MobilitySites => SitesMatch(wanted, pose.improvedMobilitySites)
  }

  lemma SitesIntersection(sites: seq<string>, wanted: set<string>)
    ensures Elems(sites) * wanted != {} <==> exists i | 0 <= i < |sites| :: sites[i] in wanted
  {
    if Elems(sites) * wanted != {} {
      var x :| x in Elems(sites) * wanted;
      var i :| 0 <= i < |sites| && sites[i] == x;
    }
    if exists i | 0 <= i < |sites| :: sites[i] in wanted {
      var i :| 0 <= i < |sites| && sites[i] in wanted;
      assert sites[i] in Elems(sites) * wanted;
    }
  }

  /** The intersection test the source uses selects exactly the poses that
      pass the criterion. */
  lemma SelectionMeaning(catalog: Catalog, c: Criterion, wanted: set<string>)
    ensures forall p :: p in Selection(catalog, c, wanted) <==> p in catalog && Passes(catalog[p], c, wanted)
  {
    forall p | p in catalog
      ensures p in Selection(catalog, c, wanted) <==> Passes(catalog[p], c, wanted)
    {
      var pose := catalog[p];
      match c
      case IntensityLevel =>
        assert pose.intensityLevel in wanted ==> pose.intensityLevel in Values(pose, c) * wanted;
      case ExperienceLevel =>
        assert pose.experienceLevel in wanted ==> pose.experienceLevel in Values(pose, c) * wanted;
      case StrengthSites =>
        SitesIntersection(pose.improvedStrengthSites, wanted);
      case MobilitySites =>
        SitesIntersection(pose.improvedMobilitySites, wanted);
    }
  }
}
