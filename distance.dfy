/** Values shared by the shortest-path engines: optional values and distances with infinity. */
module Distance {

  /** `None` stands for Python's `None` (no parent, missing key). */
  datatype Option<T> = None | Some(value: T)

  /** A tentative distance: a finite integer or positive infinity (`math.inf`, `float('inf')`). */
  datatype Dist = Fin(val: int) | Inf

  /** `d + w` for an edge weight `w`: infinity absorbs every finite weight. */
  function Plus(d: Dist, w: int): Dist
  {
    match d
    case Inf => Inf
    case Fin(x) => Fin(x + w)
  }

  /** The strict comparison `a < b` on distances; nothing is below infinity's level from above. */
  predicate Below(a: Dist, b: Dist)
  {
    match a
    case Inf => false
    case Fin(x) =>
      match b
      case Inf => true
      case Fin(y) => x < y
  }
}
