/**
 * A banner's display window. Validity is a time test only; whether the banner is switched
 * on is the separate `active` filter.
 */
module Banners {
  import opened Wrappers

  /** Either end of the window may be open (None). */
  datatype Banner = Banner(isActive: bool, startAt: Option<int>, endAt: Option<int>)

  /** The `is_valid` accessor: not before the start and not after the end, both inclusive. */
  predicate IsValid(b: Banner, now: int)
  {
    (b.startAt.None? || b.startAt.value <= now) && (b.endAt.None? || b.endAt.value >= now)
  }

  /** The `valid` query scope, as a filter on one record. */
  predicate ScopeValid(b: Banner, now: int)
  {
    (b.startAt == None || now >= b.startAt.value) && (b.endAt == None || now <= b.endAt.value)
  }

  /** The `active` query scope, as a filter on one record. */
  predicate ScopeActive(b: Banner)
  {
    b.isActive
  }

  /** A banner with an open window is always valid. */
  lemma OpenWindowAlwaysValid(b: Banner, now: int)
    requires b.startAt == None && b.endAt == None
    ensures IsValid(b, now)
  {
  }

  /** Before the start or after the end the banner is not valid; at either end it is. */
  lemma WindowBounds(b: Banner, now: int)
    ensures b.startAt.Some? && now < b.startAt.value ==> !IsValid(b, now)
    ensures b.endAt.Some? && now > b.endAt.value ==> !IsValid(b, now)
    ensures b.startAt.Some? && (b.endAt == None || b.startAt.value <= b.endAt.value)
            ==> IsValid(b, b.startAt.value)
    ensures b.endAt.Some? && (b.startAt == None || b.startAt.value <= b.endAt.value)
            ==> IsValid(b, b.endAt.value)
  {
  }

  /** The accessor and the query scope select the same banners at every whole-second instant. */
  lemma ScopeValidAgrees(b: Banner, now: int)
    ensures ScopeValid(b, now) <==> IsValid(b, now)
  {
  }

  /** Switching a banner on or off does not change its validity. */
  lemma ValidityIgnoresActive(b: Banner, now: int)
    ensures IsValid(b.(isActive := !b.isActive), now) == IsValid(b, now)
    ensures ScopeActive(b.(isActive := !b.isActive)) != ScopeActive(b)
  {
  }
}
