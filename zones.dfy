/** Zone classification of a detection centre (main.py:91-101, 472-473, 637). */
module Zones {
  import opened Common

  /** A configured zone, given by its membership test. The polygon test itself is an
      external geometry routine; the model only asks whether a point is inside. */
  type Region = Point -> bool

  /** The operator's zone setup: each zone may be absent. */
  datatype ZoneConfig = ZoneConfig(pool: Option<Region>, safe: Option<Region>)

  datatype Zone = Safe | Pool | Outside

  /** `in_pool`: with no pool zone configured the whole frame is pool. */
  predicate InPool(z: ZoneConfig, p: Point)
  {
    z.pool.None? || z.pool.value(p)
  }

  /** `in_safe`: with no safe zone configured no point is safe. */
  predicate InSafe(z: ZoneConfig, p: Point)
  {
    z.safe.Some? && z.safe.value(p)
  }

  /** The zone a detection is handled in. The safe test is decisive, so a point inside
      both zones is Safe and is never risk-tracked; otherwise it is Pool when inside the
      pool zone or when no pool zone exists, and Outside in every other case. */
  function Classify(z: ZoneConfig, p: Point): (r: Zone)
    ensures r == Safe <==> z.safe.Some? && z.safe.value(p)
    ensures r == Pool <==> !(z.safe.Some? && z.safe.value(p)) && (z.pool.None? || z.pool.value(p))
    ensures z.safe.None? ==> r != Safe
    ensures z.pool.None? ==> r != Outside
    ensures r == Outside ==> z.pool.Some? && !z.pool.value(p)
  {
    if InSafe(z, p) then Safe
    else if InPool(z, p) then Pool
    else Outside
  }

  /** `was_in_pool` of the missing-person pass: the last position of an unseen person is
      tested against the pool zone only, and counts as pool when no pool zone exists. */
  predicate WasInPool(z: ZoneConfig, last: Point)
  {
    InPool(z, last)
  }
}
