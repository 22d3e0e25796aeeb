/**
 * One coupon: a discount definition with an enabled flag, a validity window and a usage cap.
 * Its validity check and discount arithmetic only read the record; `usedCount` is changed
 * only by a successful redemption of one of its codes (module CouponCodes).
 */
module Coupons {
  import opened Wrappers
  import opened Rounding

  /** The percentage column stores hundredths of a percent, amounts are cents: 100% of a cent total. */
  const PercentScale: int := 10000

  class Coupon {
    /** The `is_active` column. */
    var enabled: bool
    var startAt: int
    var endAt: Option<int>
    /** 0 means no usage limit. */
    var maxUsage: int
    var usedCount: int
    /** 'fixed' or 'percentage'; every value other than 'percentage' is read as fixed. */
    var discountType: string
    /** Cents for a fixed coupon, hundredths of a percent for a percentage coupon. */
    var discountAmount: int
    var minimumAmount: int

    /** A new coupon starts with no redemptions. */
    constructor (enabled: bool, startAt: int, endAt: Option<int>, maxUsage: int,
                 discountType: string, discountAmount: int, minimumAmount: int)
      ensures this.enabled == enabled && this.startAt == startAt && this.endAt == endAt
      ensures this.maxUsage == maxUsage && usedCount == 0
      ensures this.discountType == discountType && this.discountAmount == discountAmount
      ensures this.minimumAmount == minimumAmount
    {
      this.enabled := enabled;
      this.startAt := startAt;
      this.endAt := endAt;
      this.maxUsage := maxUsage;
      this.usedCount := 0;
      this.discountType := discountType;
      this.discountAmount := discountAmount;
      this.minimumAmount := minimumAmount;
    }

    /** Fails closed: each of the four checks alone can reject the coupon. */
    predicate IsActive(now: int)
      reads this
    {
      if !enabled then false
      else if now < startAt then false
      else if endAt.Some? && now > endAt.value then false
      else if maxUsage > 0 && usedCount >= maxUsage then false
      else true
    }

    predicate IsPercentageDiscount()
      reads this
    {
      discountType == "percentage"
    }

    /** The discount on an order of `total` cents; a fixed amount is not capped at the total. */
    function GetDiscountAmount(total: int): (r: int)
      reads this
      ensures IsPercentageDiscount() ==> IsRoundHalfAway(total * discountAmount, PercentScale, r)
      ensures !IsPercentageDiscount() ==> r == discountAmount
    {
      if IsPercentageDiscount() then RoundHalfAway(total * discountAmount, PercentScale)
      else discountAmount
    }

    predicate MeetsMinimumAmount(total: int)
      reads this
    {
      total >= minimumAmount
    }

    /** The `active` query scope, as a filter on one record. */
    predicate ScopeActive()
      reads this
    {
      enabled
    }

    /** The `valid` query scope: enabled and inside the window, both ends inclusive. */
    predicate ScopeValid(now: int)
      reads this
    {
      enabled && startAt <= now && (endAt.None? || endAt.value >= now)
    }

    /** The `available` query scope: no limit, or the limit not reached. */
    predicate ScopeAvailable()
      reads this
    {
      maxUsage == 0 || usedCount < maxUsage
    }

    /** The counter invariant: a limited coupon is never redeemed past its limit. */
    predicate WithinCap()
      reads this
    {
      maxUsage > 0 ==> usedCount <= maxUsage
    }
  }

  /** `IsActive` is false exactly when one of the four rejecting conditions holds. */
  lemma IsActiveExactly(c: Coupon, now: int)
    ensures !c.IsActive(now) <==>
      || !c.enabled
      || now < c.startAt
      || (c.endAt.Some? && now > c.endAt.value)
      || (c.maxUsage > 0 && c.usedCount >= c.maxUsage)
  {
  }

  /** Both ends of the window are inclusive, and one tick outside either end rejects. */
  lemma IsActiveWindowInclusive(c: Coupon)
    requires c.enabled && !(c.maxUsage > 0 && c.usedCount >= c.maxUsage)
    requires c.endAt.Some? ==> c.startAt <= c.endAt.value
    ensures c.IsActive(c.startAt)
    ensures c.endAt.Some? ==> c.IsActive(c.endAt.value) && !c.IsActive(c.endAt.value + 1)
    ensures !c.IsActive(c.startAt - 1)
  {
  }

  /** With no usage limit, the counter plays no part: activity is the enabled flag and the window. */
  lemma UnlimitedIgnoresUsedCount(c: Coupon, now: int)
    requires c.maxUsage == 0
    ensures c.IsActive(now) <==> c.ScopeValid(now)
  {
  }

  /**
   * Read as one filter, the three query scopes select exactly the active coupons, at every
   * instant of the whole-second clock.
   */
  lemma ScopesAgreeWithIsActive(c: Coupon, now: int)
    requires c.maxUsage >= 0
    ensures c.ScopeActive() && c.ScopeValid(now) && c.ScopeAvailable() <==> c.IsActive(now)
  {
  }

  /**
   * A negative cap (refused by the admin form, not by the column) separates the two:
   * `isActive` ignores it while the `available` scope rejects every non-negative count.
   */
  lemma ScopesRejectNegativeCap(c: Coupon, now: int)
    requires c.maxUsage < 0 <= c.usedCount
    ensures !c.ScopeAvailable()
    ensures c.IsActive(now) <==> c.ScopeValid(now)
  {
  }

  /** Every discount type other than 'percentage' gives the fixed amount, whatever the total. */
  lemma NonPercentageIsFixed(c: Coupon, total1: int, total2: int)
    requires c.discountType != "percentage"
    ensures c.GetDiscountAmount(total1) == c.GetDiscountAmount(total2) == c.discountAmount
  {
  }

  /** 10% of 250.00 is 25.00. */
  lemma TenPercentOf250(c: Coupon)
    requires c.discountType == "percentage" && c.discountAmount == 1000
    ensures c.GetDiscountAmount(25000) == 2500
  {
    RoundHalfAwayExact(2500, PercentScale);
  }

  /** A percentage of at most 100 on a non-negative total never exceeds the total. */
  lemma PercentageWithinTotal(c: Coupon, total: int)
    requires c.IsPercentageDiscount() && 0 <= c.discountAmount <= PercentScale && total >= 0
    ensures 0 <= c.GetDiscountAmount(total) <= total
  {
    assert 0 <= total * c.discountAmount <= total * PercentScale;
    RoundHalfAwayMonotone(0, total * c.discountAmount, PercentScale);
    RoundHalfAwayMonotone(total * c.discountAmount, total * PercentScale, PercentScale);
    RoundHalfAwayExact(0, PercentScale);
    RoundHalfAwayExact(total, PercentScale);
  }

  /** The minimum check is non-strict; with the default minimum of 0 every non-negative total passes. */
  lemma MinimumIsInclusive(c: Coupon, total: int)
    ensures c.MeetsMinimumAmount(total) <==> c.minimumAmount <= total
    ensures c.MeetsMinimumAmount(c.minimumAmount)
    ensures c.minimumAmount == 0 && total >= 0 ==> c.MeetsMinimumAmount(total)
  {
  }
}
