/**
 What an analysis says about an access: a two-bit set of possible outcomes per
 cache level, joined by union.
 */
module Classifications {

  datatype Classification = Bot | Hit | Miss | Unknown | L2Hit | L2Miss | L2Unknown {

    /** Both outcomes are ruled in by joining; only the first level's lattice is joined. */
    function Join(other: Classification): Classification {
      if this == other || other == Bot then this
      else if this == Bot then other
      else Unknown
    }
  }

  /** The outcomes a classification for the first level leaves open. */
  function Outcomes(c: Classification): set<bool> {
    match c
    case Bot => {}
    case Hit => {true}
    case Miss => {false}
    case _ => {true, false}
  }

  lemma JoinExactly(x: Classification, y: Classification)
    requires x in {Bot, Hit, Miss, Unknown} && y in {Bot, Hit, Miss, Unknown}
    ensures x.Join(y) in {Bot, Hit, Miss, Unknown} && Outcomes(x.Join(y)) == Outcomes(x) + Outcomes(y)
  {}

  /** Under which assumptions an update may rely on the accessed tag being cached. */
  predicate AssumesHit(assumption: Classification, level: int) {
    assumption == Hit || (level > 1 && assumption == L2Hit)
  }

  /**
   What an assumption says of an access, given whether the cache at hand holds the tag: a hit on the
   second level says nothing about the cache on the first.
   */
  ghost predicate AssumptionHolds(assumption: Classification, level: int, cached: bool) {
    match assumption
    case Hit => cached
    case L2Hit => level <= 1 || cached
    case _ => true
  }
}
