/**
 The video view of a guess: the 3D flag.
 */
module GuessitVideo {
  import opened Guess

  predicate Is3D(g: Guess)
  {
    "3D" in g.other
  }

  /** The 3D flag reads the 3D tag and no other; no tags means not 3D. */
  lemma Is3DFlag(g: Guess, tag: string)
    ensures Is3D(g.(other := g.other + {tag})) <==> Is3D(g) || tag == "3D"
    ensures Is3D(g.(other := g.other - {tag})) <==> Is3D(g) && tag != "3D"
    ensures !Is3D(Empty)
  {
  }
}
