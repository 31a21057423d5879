/**
 The base descriptor every variant shares: the release group and the legacy
 proper/version ranking score.
 */
module GuessitEntry {
  import opened Guess

  /** `properCount` when present, else 0. */
  function PropersOf(g: Guess): int
  {
    if g.properCount.Some? then g.properCount.value else 0
  }

  predicate IsFastsub(g: Guess)
  {
    "Fastsub" in g.other
  }

  /** The Fastsub flag reads the Fastsub tag and no other; no tags means no flag. */
  lemma FastsubFlag(g: Guess, tag: string)
    ensures IsFastsub(g.(other := g.other + {tag})) <==> IsFastsub(g) || tag == "Fastsub"
    ensures IsFastsub(g.(other := g.other - {tag})) <==> IsFastsub(g) && tag != "Fastsub"
    ensures !IsFastsub(Empty)
  {
  }

  /** The version term of the score: no version counts 0, a present version
      that is not positive counts -1, version v counts v - 1. */
  function VersionTerm(version: Option<int>): (t: int)
    ensures t >= -1
    ensures t == -1 <==> version.Some? && version.value <= 0
    ensures t == 0 <==> version.None? || version == Some(1)
    ensures version.Some? && version.value >= 1 ==> t + 1 == version.value
  {
    match version
    case None => 0
    case Some(v) => if v <= 0 then -1 else v - 1
  }

  /** `proper_count`: higher means a more fixed re-release of the same item. */
  function ProperCount(g: Guess): (score: int)
    ensures var base := score - PropersOf(g) + (if IsFastsub(g) then 5 else 0);
            && base >= -1
            && (base == -1 <==> g.version.Some? && g.version.value <= 0)
            && (base == 0 <==> g.version.None? || g.version == Some(1))
  {
    VersionTerm(g.version) + PropersOf(g) - (if IsFastsub(g) then 5 else 0)
  }

  /** Each further version above 1 ranks exactly one step higher, a missing
      version ranks like version 1, and every present version that is not
      positive ranks one step below a missing one. */
  lemma VersionRanking(g: Guess, v: int)
    ensures v >= 1 ==>
      ProperCount(g.(version := Some(v + 1))) == ProperCount(g.(version := Some(v))) + 1
    ensures ProperCount(g.(version := None)) == ProperCount(g.(version := Some(1)))
    ensures v <= 0 ==>
      ProperCount(g.(version := Some(v))) == ProperCount(g.(version := None)) - 1
  {
  }

  /** Each counted proper adds exactly one; a missing count is a count of zero. */
  lemma ProperRanking(g: Guess, n: int)
    ensures ProperCount(g.(properCount := Some(n + 1))) == ProperCount(g.(properCount := Some(n))) + 1
    ensures ProperCount(g.(properCount := None)) == ProperCount(g.(properCount := Some(0)))
  {
  }

  /** The Fastsub tag costs exactly five steps, and no other tag matters. */
  lemma FastsubPenalty(g: Guess, tags: set<string>)
    requires "Fastsub" !in tags
    ensures ProperCount(g.(other := tags + {"Fastsub"})) == ProperCount(g.(other := tags)) - 5
    ensures ProperCount(g.(other := tags)) == ProperCount(g.(other := {}))
  {
  }

  /** Concrete scores: version 0 and version -3 both count -1 (the sentinel),
      a lone Fastsub tag scores -5, and v2 with one proper scores 2. */
  lemma ProperCountExamples()
    ensures ProperCount(Empty.(version := Some(0))) == -1
    ensures ProperCount(Empty.(version := Some(-3))) == -1
    ensures ProperCount(Empty.(other := {"Fastsub"})) == -5
    ensures ProperCount(Empty.(version := Some(2), properCount := Some(1))) == 2
  {
  }
}
