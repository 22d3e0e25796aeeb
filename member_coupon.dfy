/**
 * A member's wallet record of one coupon code. Redemption is guarded by a three-way check
 * (own status, own expiry, the code's usability) and then cascades into the code, which
 * in turn bumps the coupon's shared counter. Discount and minimum checks delegate down
 * the chain record -> code -> coupon, whose links may be missing.
 */
module MemberCoupons {
  import opened Wrappers
  import opened Coupons
  import CouponCodes

  /** The status column; `Unrecognized` is any other string the attribute may hold. */
  datatype MemberStatusTag = Active | Used | Expired | Unrecognized(raw: string)

  /** Only strings outside the column's own values are unrecognised. */
  type MemberStatus = st: MemberStatusTag | !st.Unrecognized? || st.raw !in {"active", "used", "expired"}
    witness Active

  /** Reads the stored string into a status. */
  function ParseMemberStatus(s: string): (st: MemberStatus)
    ensures st.Unrecognized? <==> s !in {"active", "used", "expired"}
    ensures st.Unrecognized? ==> st.raw == s
  {
    if s == "active" then Active
    else if s == "used" then Used
    else if s == "expired" then Expired
    else Unrecognized(s)
  }

  /** The label the admin panel shows for a status. */
  function MemberStatusText(st: MemberStatus): string
  {
    match st
    case Active => "有效"
    case Used => "已使用"
    case Expired => "已過期"
    case Unrecognized(_) => "未知"
  }

  /** The stored fields of a wallet record that its operations change, as a value. */
  datatype WalletView = WalletView(status: MemberStatus, usedAt: Option<int>, expiredAt: Option<int>)

  /**
   * The two operations on a wallet record. `codeUsable` says whether the linked code is
   * present and usable at `now`, which the redemption guard also requires.
   */
  datatype WalletEvent = WalletRedeem(now: int, codeUsable: bool) | ExpireAt(now: int)

  /** The redemption guard: active, not past the record's own expiry, and the code usable. */
  predicate RedeemAllowed(v: WalletView, now: int, codeUsable: bool)
  {
    v.status == Active && (v.expiredAt == None || now <= v.expiredAt.value) && codeUsable
  }

  /** One transition: a guarded redemption, or an unconditional expiry. */
  function WalletStep(v: WalletView, e: WalletEvent): (r: (WalletView, bool))
    ensures e.ExpireAt? ==> r.1 && r.0.status == Expired
    ensures e.WalletRedeem? ==> (r.1 <==> RedeemAllowed(v, e.now, e.codeUsable))
    ensures !r.1 ==> r.0 == v
    ensures r.1 && e.WalletRedeem? ==> r.0.status == Used
  {
    match e
    case WalletRedeem(now, codeUsable) =>
      if !RedeemAllowed(v, now, codeUsable) then (v, false)
      else (v.(status := Used, usedAt := Some(now)), true)
    case ExpireAt(now) =>
      (v.(status := Expired, expiredAt := Some(now)), true)
  }

  /** Applies the events in order: the final fields and the number of accepted redemptions. */
  function WalletRun(v: WalletView, events: seq<WalletEvent>): (r: (WalletView, nat))
    decreases |events|
  {
    if events == [] then (v, 0)
    else
      var (w, ok) := WalletStep(v, events[0]);
      var (u, n) := WalletRun(w, events[1..]);
      (u, n + if ok && events[0].WalletRedeem? then 1 else 0)
  }

  /** A record that is no longer active (used, expired or unrecognised) never becomes active again. */
  lemma {:induction false} InactiveStaysInactive(v: WalletView, events: seq<WalletEvent>)
    requires v.status != Active
    ensures WalletRun(v, events).1 == 0 && WalletRun(v, events).0.status != Active
    decreases |events|
  {
    if events != [] {
      InactiveStaysInactive(WalletStep(v, events[0]).0, events[1..]);
    }
  }

  /**
   * Over any sequence of redemptions and expiries a wallet record is redeemed at most
   * once, and only if it started active; an expiry ends all further redemptions.
   */
  lemma {:induction false} WalletRedeemedAtMostOnce(v: WalletView, events: seq<WalletEvent>)
    ensures WalletRun(v, events).1 <= if v.status == Active then 1 else 0
    ensures WalletRun(v, events).1 == 1 ==> WalletRun(v, events).0.status != Active
    decreases |events|
  {
    if v.status != Active {
      InactiveStaysInactive(v, events);
    } else if events != [] {
      var w := WalletStep(v, events[0]).0;
      if w.status == Active {
        WalletRedeemedAtMostOnce(w, events[1..]);
      } else {
        InactiveStaysInactive(w, events[1..]);
      }
    }
  }

  class MemberCoupon {
    var memberId: int
    var couponCode: CouponCodes.CouponCode?
    var status: MemberStatus
    var usedAt: Option<int>
    var expiredAt: Option<int>

    /** A wallet entry starts active, never used and without an expiry time. */
    constructor (memberId: int, couponCode: CouponCodes.CouponCode?)
      ensures this.memberId == memberId && this.couponCode == couponCode
      ensures status == Active && usedAt == None && expiredAt == None
    {
      this.memberId := memberId;
      this.couponCode := couponCode;
      status := Active;
      usedAt := None;
      expiredAt := None;
    }

    function View(): WalletView
      reads this
    {
      WalletView(status, usedAt, expiredAt)
    }

    /** Active, not past its own expiry (the expiry instant itself still counts), and the code usable. */
    predicate IsUsable(now: int)
      reads this, couponCode, if couponCode == null then {} else {couponCode.coupon}
    {
      if !status.Active? then false
      else if expiredAt.Some? && now > expiredAt.value then false
      else if couponCode == null || !couponCode.IsUsable(now) then false
      else true
    }

    /**
     * Redeems the record and, through it, the code and the coupon. On success all three
     * move together; on failure none of them changes.
     */
    method Use(now: int) returns (ok: bool)
      modifies this, couponCode, if couponCode == null then {} else {couponCode.coupon}
      ensures ok == old(IsUsable(now))
      ensures (View(), ok) == WalletStep(old(View()), WalletRedeem(now, old(couponCode != null && couponCode.IsUsable(now))))
      ensures couponCode == old(couponCode) && memberId == old(memberId)
      ensures ok ==> couponCode.coupon == old(couponCode.coupon)
      ensures ok ==> couponCode.status == CouponCodes.Used && couponCode.usedAt == Some(now)
      ensures ok ==> couponCode.coupon.usedCount == old(couponCode.coupon.usedCount) + 1
      ensures ok ==> couponCode.coupon.WithinCap()
      ensures ok ==> (couponCode.View(), true) == CouponCodes.Step(old(couponCode.View()), CouponCodes.Redeem(now, true))
      ensures ok ==> (couponCode.coupon.enabled == old(couponCode.coupon.enabled)
                      && couponCode.coupon.startAt == old(couponCode.coupon.startAt)
                      && couponCode.coupon.endAt == old(couponCode.coupon.endAt)
                      && couponCode.coupon.maxUsage == old(couponCode.coupon.maxUsage)
                      && couponCode.coupon.discountType == old(couponCode.coupon.discountType)
                      && couponCode.coupon.discountAmount == old(couponCode.coupon.discountAmount)
                      && couponCode.coupon.minimumAmount == old(couponCode.coupon.minimumAmount))
      ensures !ok ==> unchanged(this)
      ensures !ok && couponCode != null ==> unchanged(couponCode)
      ensures !ok && couponCode != null && couponCode.coupon != null ==> unchanged(couponCode.coupon)
    {
      if !IsUsable(now) {
        return false;
      }
      status := Used;
      usedAt := Some(now);
      // The code's own result is not looked at; the guard above makes it true.
      var codeUsed := couponCode.Use(now);
      return true;
    }

    /** Expires the record unconditionally, whatever its status, even `Used`. */
    method MarkAsExpired(now: int) returns (ok: bool)
      modifies this
      ensures (View(), ok) == WalletStep(old(View()), ExpireAt(now))
      ensures ok && expiredAt == Some(now)
      ensures memberId == old(memberId) && couponCode == old(couponCode)
      ensures !IsUsable(now)
    {
      status := Expired;
      expiredAt := Some(now);
      return true;
    }

    function StatusText(): string
      reads this
    {
      MemberStatusText(status)
    }

    /** Zero when the code or its coupon is missing, else the coupon's discount. */
    function GetDiscountAmount(total: int): (r: int)
      reads this, couponCode, if couponCode == null then {} else {couponCode.coupon}
      ensures couponCode == null || couponCode.coupon == null ==> r == 0
      ensures couponCode != null && couponCode.coupon != null ==> r == couponCode.coupon.GetDiscountAmount(total)
    {
      if couponCode == null || couponCode.coupon == null then 0
      else couponCode.coupon.GetDiscountAmount(total)
    }

    /** False when the code or its coupon is missing, else the coupon's check. */
    predicate MeetsMinimumAmount(total: int)
      reads this, couponCode, if couponCode == null then {} else {couponCode.coupon}
    {
      if couponCode == null || couponCode.coupon == null then false
      else couponCode.coupon.MeetsMinimumAmount(total)
    }

    /** The `usable` query scope, as a filter on one record: its expiry test is strict. */
    predicate ScopeUsable(now: int)
      reads this, couponCode, if couponCode == null then {} else {couponCode.coupon}
    {
      status.Active?
      && (expiredAt.None? || expiredAt.value > now)
      && couponCode != null && couponCode.ScopeUsable(now)
    }
  }

  /** The three-way conjunction behind `IsUsable`, which is also the redemption guard. */
  lemma IsUsableExactly(mc: MemberCoupon, now: int)
    ensures mc.IsUsable(now) <==>
      && mc.status == Active
      && (mc.expiredAt == None || now <= mc.expiredAt.value)
      && mc.couponCode != null && mc.couponCode.IsUsable(now)
    ensures mc.IsUsable(now) <==>
      RedeemAllowed(mc.View(), now, mc.couponCode != null && mc.couponCode.IsUsable(now))
  {
  }

  /** A usable record reaches a usable code on an active coupon, so the inner redemption succeeds. */
  lemma UsableReachesActiveCoupon(mc: MemberCoupon, now: int)
    requires mc.IsUsable(now)
    ensures mc.couponCode != null && mc.couponCode.status == CouponCodes.Unused
    ensures mc.couponCode.coupon != null && mc.couponCode.coupon.IsActive(now)
  {
  }

  /**
   * On the whole-second clock, the scope and the accessor agree everywhere except at the
   * expiry instant, where the accessor still accepts the record and the scope already
   * leaves it out.
   */
  lemma ScopeUsableAgreesOffExpiry(mc: MemberCoupon, now: int)
    requires mc.couponCode != null && mc.couponCode.coupon != null ==> mc.couponCode.coupon.maxUsage >= 0
    ensures mc.expiredAt != Some(now) ==> (mc.ScopeUsable(now) <==> mc.IsUsable(now))
    ensures mc.expiredAt == Some(now) ==> !mc.ScopeUsable(now)
  {
    if mc.couponCode != null {
      CouponCodes.ScopeUsableAgrees(mc.couponCode, now);
    }
  }

  /** At the expiry instant an otherwise usable record is usable but not selected by the scope. */
  lemma ScopeUsableDisagreesAtExpiry(mc: MemberCoupon, now: int)
    requires mc.status == Active && mc.expiredAt == Some(now)
    requires mc.couponCode != null && mc.couponCode.IsUsable(now)
    ensures mc.IsUsable(now) && !mc.ScopeUsable(now)
  {
  }

  /** Missing links give no discount and fail the minimum check. */
  lemma MissingLinkFailsClosed(mc: MemberCoupon, total: int)
    requires mc.couponCode == null || mc.couponCode.coupon == null
    ensures mc.GetDiscountAmount(total) == 0 && !mc.MeetsMinimumAmount(total)
  {
  }

  /** With every link present, the minimum check is the coupon's non-strict comparison. */
  lemma MinimumDelegates(mc: MemberCoupon, total: int)
    requires mc.couponCode != null && mc.couponCode.coupon != null
    ensures mc.MeetsMinimumAmount(total) <==> total >= mc.couponCode.coupon.minimumAmount
  {
  }

  /** An unrecognised status never hides one of the column's values: reading its text back gives it again. */
  lemma UnrecognizedRoundTrip(st: MemberStatus)
    requires st.Unrecognized?
    ensures ParseMemberStatus(st.raw) == st
  {
  }

  /** Each stored status has its own label, and every other string reads as unknown. */
  lemma StatusTextOfColumn(s: string)
    ensures s == "active" ==> MemberStatusText(ParseMemberStatus(s)) == "有效"
    ensures s == "used" ==> MemberStatusText(ParseMemberStatus(s)) == "已使用"
    ensures s == "expired" ==> MemberStatusText(ParseMemberStatus(s)) == "已過期"
    ensures s !in {"active", "used", "expired"} ==> MemberStatusText(ParseMemberStatus(s)) == "未知"
  {
  }

  /**
   * A redemption through a wallet record whose coupon has already ended is refused and
   * touches none of the three records.
   */
  method UseAfterCouponEnded(mc: MemberCoupon, now: int) returns (ok: bool)
    requires mc.couponCode != null && mc.couponCode.coupon != null
    requires mc.couponCode.coupon.endAt.Some? && mc.couponCode.coupon.endAt.value < now
    modifies mc, mc.couponCode, mc.couponCode.coupon
    ensures !ok
    ensures unchanged(mc) && unchanged(mc.couponCode) && unchanged(mc.couponCode.coupon)
  {
    ok := mc.Use(now);
  }

  /** One wallet redemption leaves record and code both used, so a second one is refused. */
  method UseTwice(mc: MemberCoupon, now: int) returns (first: bool, second: bool)
    modifies mc, mc.couponCode, if mc.couponCode == null then {} else {mc.couponCode.coupon}
    ensures !second
    ensures first == old(mc.IsUsable(now))
    ensures mc.couponCode == old(mc.couponCode)
    ensures first ==> mc.couponCode != null && mc.couponCode.coupon != null
    ensures first ==> mc.couponCode.coupon == old(mc.couponCode.coupon)
    ensures first ==> mc.status == Used && mc.couponCode.status == CouponCodes.Used
    ensures first ==> mc.couponCode.coupon.usedCount == old(mc.couponCode.coupon.usedCount) + 1
  {
    first := mc.Use(now);
    second := mc.Use(now);
  }
}
