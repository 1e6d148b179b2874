/**
 * The records of solver.hpp: points in the plane with the squared Euclidean
 * distance, and the customer and facility records the solver updates. The
 * pointers of the source (a customer's facility, a facility's customer, a
 * facility's heap node) are indices into the solver's customer and facility
 * lists and into the heap's arena.
 */
module Records {
  import opened Wrappers
  import opened Numbers

  /** Coordinates are exact reals; the source's doubles are not rounded here. */
  datatype Point = Point(x: real, y: real)

  /** Point::dist: the squared Euclidean distance, never negative. */
  function Dist(p: Point, q: Point): (r: real)
    ensures r >= 0.0
    ensures p == q ==> r == 0.0
  {
    (p.x - q.x) * (p.x - q.x) + (p.y - q.y) * (p.y - q.y)
  }

  lemma DistSymmetric(p: Point, q: Point)
    ensures Dist(p, q) == Dist(q, p)
  {
  }

  /**
   * A customer: its position, its tentative distance and predecessor facility
   * in the current shortest-path tree, and the facility it is assigned to
   * (its incoming unit of flow), None while unassigned.
   */
  datatype Customer = Customer(pos: Point, dijDist: Num, dijParent: Option<nat>, flowParent: Option<nat>)

  /**
   * A facility: its position, tentative distance, potential `pi`, the
   * customer through which the shortest-path tree reaches it, its node in the
   * heap while queued, and the number of customers assigned to it.
   */
  datatype Facility = Facility(pos: Point, dijDist: Num, pi: Num, dijParent: Option<nat>,
                               heapNode: Option<nat>, outflow: nat)

  /** Facility::operator<, the order of the heap: by tentative distance alone. */
  predicate FacilityLess(a: Facility, b: Facility)
  {
    Less(a.dijDist, b.dijDist)
  }

  /** is_minimal_possible: the tentative distance is exactly zero. */
  predicate IsMinimalPossible(f: Facility)
  {
    IsZero(f.dijDist)
  }

  /** Two facilities compare as their distances do, whatever their other fields. */
  lemma FacilityLessByDistance(a: Facility, b: Facility, a': Facility, b': Facility)
    requires a.dijDist == a'.dijDist && b.dijDist == b'.dijDist
    ensures FacilityLess(a, b) <==> FacilityLess(a', b')
  {
  }

  /** The facility order is a strict order, on facilities whose distance is a number total. */
  lemma FacilityLessOrder(a: Facility, b: Facility, c: Facility)
    ensures !FacilityLess(a, a)
    ensures FacilityLess(a, b) ==> !FacilityLess(b, a)
    ensures FacilityLess(a, b) && FacilityLess(b, c) ==> FacilityLess(a, c)
    ensures !a.dijDist.NaN? && !b.dijDist.NaN? ==> FacilityLess(a, b) || a.dijDist == b.dijDist || FacilityLess(b, a)
  {
    LessIrreflexive(a.dijDist);
    if FacilityLess(a, b) {
      LessAsymmetric(a.dijDist, b.dijDist);
      if FacilityLess(b, c) {
        LessTransitive(a.dijDist, b.dijDist, c.dijDist);
      }
    }
    if !a.dijDist.NaN? && !b.dijDist.NaN? {
      LessTotal(a.dijDist, b.dijDist);
    }
  }
}
