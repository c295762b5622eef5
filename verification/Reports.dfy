/** The vocabulary shared by the cache analyses. */
module Reports {

  datatype Option<+T> = None | Some(value: T)

  datatype AccessType = Load | Store

  /** The report of an update that says nothing: the must and may reports of a set cannot be
      joined, and this one stands for them. */
  datatype GenericReport = GenericReport

  function Reported(wantReport: bool): Option<GenericReport> {
    if wantReport then Some(GenericReport) else None
  }

  /** What is claimed of an access, ordered as a lattice with Bottom below and
      Unknown above; the L2 values are what a second cache level passes on. */
  datatype Classification = Bottom | Hit | Miss | Unknown | L2Hit | L2Miss | L2Unknown

  /** The join of two first-level claims. */
  function JoinClaims(x: Classification, y: Classification): (r: Classification) {
    if x == Bottom then y else if y == Bottom || x == y then x else Unknown
  }

  predicate ClaimLeq(x: Classification, y: Classification) {
    x == Bottom || x == y || y == Unknown
  }

  /** The least claim that both make. */
  lemma JoinClaimsIsLub(x: Classification, y: Classification, z: Classification)
    requires {x, y, z} <= {Bottom, Hit, Miss, Unknown}
    ensures ClaimLeq(x, JoinClaims(x, y)) && ClaimLeq(y, JoinClaims(x, y))
    ensures ClaimLeq(x, z) && ClaimLeq(y, z) ==> ClaimLeq(JoinClaims(x, y), z)
  {
  }

  /** Whether a claim lets the must analysis of a cache level treat an access as a hit. */
  predicate AssumesHit(assumption: Classification, level: nat) {
    assumption == Hit || (level > 1 && assumption == L2Hit)
  }
}
