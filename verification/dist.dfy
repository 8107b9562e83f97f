/** Distances with an explicit infinity.

    The C++ code marks "unreached" with the sentinels `INT_MAX` (min-cost flow)
    and `INT_MAX / 2` (Johnson).  Here that sentinel is a constructor of its
    own, so no arithmetic can ever turn it into an ordinary number.
 */
module Dist {

  datatype Dist = Inf | Fin(v: int)

  /** `a < b` where `Inf` is larger than every finite distance. */
  predicate Less(a: Dist, b: Dist)
  {
    match (a, b)
    case (Fin(x), Fin(y)) => x < y
    case (Fin(_), Inf) => true
    case (Inf, _) => false
  }

  /** Adding a finite weight to a distance; infinity absorbs it. */
  function Plus(a: Dist, w: int): (r: Dist)
    ensures r.Inf? <==> a.Inf?
    ensures a.Fin? ==> r.v - a.v == w
  {
    if a.Inf? then Inf else Fin(a.v + w)
  }

  /** `min(a, b)`, with `Inf` as the neutral element. */
  function Min(a: Dist, b: Dist): (r: Dist)
    ensures r == a || r == b
    ensures !Less(a, r) && !Less(b, r)
  {
    if Less(b, a) then b else a
  }

  lemma LessIsStrictOrder(a: Dist, b: Dist, c: Dist)
    ensures !Less(a, a)
    ensures Less(a, b) ==> !Less(b, a)
    ensures Less(a, b) && Less(b, c) ==> Less(a, c)
    ensures a != b ==> Less(a, b) || Less(b, a)
  {
  }
}
