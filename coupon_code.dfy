/**
 * One redeemable code of a coupon. Its status is a small state machine:
 * `Use` moves unused to used, `Gift` moves unused to gifted, and `Accept` hands a gifted
 * code to its new owner without leaving gifted. Every guarded transition that is
 * refused returns false and changes nothing. `Expired` is never written here: only the
 * admin form sets it.
 */
module CouponCodes {
  import opened Wrappers
  import opened Coupons

  /** The status column; `Unrecognized` is any other string the attribute may hold. */
  datatype CodeStatusTag = Unused | Used | Expired | Gifted | Unrecognized(raw: string)

  /** Only strings outside the column's own values are unrecognised. */
  type CodeStatus = st: CodeStatusTag | !st.Unrecognized? || st.raw !in {"unused", "used", "expired", "gifted"}
    witness Unused

  /** Reads the stored string into a status. */
  function ParseCodeStatus(s: string): (st: CodeStatus)
    ensures st.Unrecognized? <==> s !in {"unused", "used", "expired", "gifted"}
    ensures st.Unrecognized? ==> st.raw == s
  {
    if s == "unused" then Unused
    else if s == "used" then Used
    else if s == "expired" then Expired
    else if s == "gifted" then Gifted
    else Unrecognized(s)
  }

  /** The label the admin panel shows for a status. */
  function CodeStatusText(st: CodeStatus): string
  {
    match st
    case Unused => "未使用"
    case Used => "已使用"
    case Expired => "已過期"
    case Gifted => "已贈送"
    case Unrecognized(_) => "未知"
  }

  /** The stored fields of a code, as a value. */
  datatype CodeView = CodeView(status: CodeStatus, memberId: Option<int>, giftedByMemberId: Option<int>,
                               usedAt: Option<int>, giftedAt: Option<int>, acceptedAt: Option<int>)

  /**
   * The three operations on a code. `couponActive` says whether the code's coupon is
   * attached and active at `now`, which the redemption guard also requires.
   */
  datatype CodeEvent =
    | Redeem(now: int, couponActive: bool)
    | GiftBy(giver: int, now: int)
    | AcceptBy(member: int, now: int)

  /**
   * One transition of the state machine: the new fields and whether it was accepted.
   * unused -redeem-> used, unused -gift-> gifted, gifted -accept-> gifted (new owner).
   */
  function Step(v: CodeView, e: CodeEvent): (r: (CodeView, bool))
    ensures r.1 <==> match e
                     case Redeem(_, active) => v.status == Unused && active
                     case GiftBy(_, _) => v.status == Unused
                     case AcceptBy(_, _) => v.status == Gifted
    ensures !r.1 ==> r.0 == v
    ensures r.1 ==> r.0.status == (if e.Redeem? then Used else Gifted)
  {
    match e
    case Redeem(now, active) =>
      if v.status != Unused || !active then (v, false)
      else (v.(status := Used, usedAt := Some(now)), true)
    case GiftBy(giver, now) =>
      if v.status != Unused then (v, false)
      else (v.(status := Gifted, giftedByMemberId := Some(giver), giftedAt := Some(now)), true)
    case AcceptBy(member, now) =>
      if v.status != Gifted then (v, false)
      else (v.(memberId := Some(member), acceptedAt := Some(now)), true)
  }

  /** Applies the events in order: the final fields and the number of accepted redemptions. */
  function Run(v: CodeView, events: seq<CodeEvent>): (r: (CodeView, nat))
    decreases |events|
  {
    if events == [] then (v, 0)
    else
      var (w, ok) := Step(v, events[0]);
      var (u, n) := Run(w, events[1..]);
      (u, n + if ok && events[0].Redeem? then 1 else 0)
  }

  /** `used` is terminal: no sequence of operations changes a used code or redeems it again. */
  lemma {:induction false} UsedIsTerminal(v: CodeView, events: seq<CodeEvent>)
    requires v.status == Used
    ensures Run(v, events) == (v, 0)
  {
    if events != [] {
      UsedIsTerminal(v, events[1..]);
    }
  }

  /** A gifted code stays gifted, accepted or not, and is never redeemed. */
  lemma {:induction false} GiftedNeverRedeemed(v: CodeView, events: seq<CodeEvent>)
    requires v.status == Gifted
    ensures Run(v, events).1 == 0 && Run(v, events).0.status == Gifted
    decreases |events|
  {
    if events != [] {
      GiftedNeverRedeemed(Step(v, events[0]).0, events[1..]);
    }
  }

  /**
   * Over any sequence of operations a code is redeemed (and so bumps its coupon's counter)
   * exactly once if it ends up used having not started used, and never otherwise.
   */
  lemma {:induction false} RedeemedExactlyOnceIfUsed(v: CodeView, events: seq<CodeEvent>)
    ensures Run(v, events).1 == if v.status != Used && Run(v, events).0.status == Used then 1 else 0
    decreases |events|
  {
    if events != [] {
      var (w, ok) := Step(v, events[0]);
      if v.status == Used {
        UsedIsTerminal(v, events);
      } else if w.status == Used {
        UsedIsTerminal(w, events[1..]);
      } else {
        RedeemedExactlyOnceIfUsed(w, events[1..]);
      }
    }
  }

  class CouponCode {
    var coupon: Coupon?
    /** The owner; null until assigned or accepted. */
    var memberId: Option<int>
    var giftedByMemberId: Option<int>
    var status: CodeStatus
    var usedAt: Option<int>
    var giftedAt: Option<int>
    var acceptedAt: Option<int>

    /** A code is issued unused, with no timestamps and no giver. */
    constructor (coupon: Coupon?, memberId: Option<int>)
      ensures this.coupon == coupon && this.memberId == memberId
      ensures status == Unused && giftedByMemberId == None
      ensures usedAt == None && giftedAt == None && acceptedAt == None
    {
      this.coupon := coupon;
      this.memberId := memberId;
      giftedByMemberId := None;
      status := Unused;
      usedAt := None;
      giftedAt := None;
      acceptedAt := None;
    }

    function View(): CodeView
      reads this
    {
      CodeView(status, memberId, giftedByMemberId, usedAt, giftedAt, acceptedAt)
    }

    /** Unused, attached to a coupon, and that coupon active; a missing coupon is unusable. */
    predicate IsUsable(now: int)
      reads this, coupon
    {
      if !status.Unused? then false
      else if coupon == null || !coupon.IsActive(now) then false
      else true
    }

    /**
     * Redeems the code: on success it is used at `now` and the coupon's shared counter
     * goes up by one; otherwise nothing changes.
     */
    method Use(now: int) returns (ok: bool)
      modifies this, coupon
      ensures ok == old(IsUsable(now))
      ensures (View(), ok) == Step(old(View()), Redeem(now, old(coupon != null && coupon.IsActive(now))))
      ensures coupon == old(coupon)
      ensures ok ==> status == Used && usedAt == Some(now)
      ensures ok ==> coupon.usedCount == old(coupon.usedCount) + 1
      ensures ok ==> (coupon.enabled == old(coupon.enabled) && coupon.startAt == old(coupon.startAt)
                      && coupon.endAt == old(coupon.endAt) && coupon.maxUsage == old(coupon.maxUsage)
                      && coupon.discountType == old(coupon.discountType)
                      && coupon.discountAmount == old(coupon.discountAmount)
                      && coupon.minimumAmount == old(coupon.minimumAmount))
      ensures !ok ==> unchanged(this) && (coupon != null ==> unchanged(coupon))
      ensures ok && coupon.maxUsage > 0 ==> coupon.usedCount <= coupon.maxUsage
      ensures old(coupon != null && coupon.WithinCap()) ==> coupon.WithinCap()
    {
      if !IsUsable(now) {
        return false;
      }
      status := Used;
      usedAt := Some(now);
      coupon.usedCount := coupon.usedCount + 1;
      return true;
    }

    /** Marks an unused code as gifted by `giver`; the owner is left as it was. */
    method Gift(giver: int, now: int) returns (ok: bool)
      modifies this
      ensures (View(), ok) == Step(old(View()), GiftBy(giver, now))
      ensures coupon == old(coupon)
    {
      if !status.Unused? {
        return false;
      }
      status := Gifted;
      giftedByMemberId := Some(giver);
      giftedAt := Some(now);
      return true;
    }

    /**
     * Hands a gifted code to `member`. The status stays gifted, and nothing stops a
     * second accept from overwriting the owner.
     */
    method Accept(member: int, now: int) returns (ok: bool)
      modifies this
      ensures (View(), ok) == Step(old(View()), AcceptBy(member, now))
      ensures coupon == old(coupon)
    {
      if !status.Gifted? {
        return false;
      }
      memberId := Some(member);
      acceptedAt := Some(now);
      return true;
    }

    /** Derived from the coupon's end time only; the stored status plays no part. */
    predicate IsExpired(now: int)
      reads this, coupon
    {
      if coupon == null then true
      else if coupon.endAt.Some? && now > coupon.endAt.value then true
      else false
    }

    function StatusText(): string
      reads this
    {
      CodeStatusText(status)
    }

    /** The `usable` query scope, as a filter on one record. */
    predicate ScopeUsable(now: int)
      reads this, coupon
    {
      status.Unused? && coupon != null
      && coupon.ScopeActive() && coupon.ScopeValid(now) && coupon.ScopeAvailable()
    }
  }

  /** Usable exactly when unused, attached, and the coupon is active. */
  lemma IsUsableExactly(code: CouponCode, now: int)
    ensures code.IsUsable(now) <==> code.status == Unused && code.coupon != null && code.coupon.IsActive(now)
  {
  }

  /** A code that has left `Unused` (gifted, accepted or not, used, expired) is never usable. */
  lemma OnlyUnusedIsUsable(code: CouponCode, now: int)
    requires code.status != Unused
    ensures !code.IsUsable(now)
  {
  }

  /** `IsExpired` looks only at the coupon's presence and end time. */
  lemma IsExpiredExactly(code: CouponCode, now: int)
    ensures code.IsExpired(now) <==>
      code.coupon == null || (code.coupon.endAt.Some? && now > code.coupon.endAt.value)
    ensures code.coupon != null && code.coupon.endAt == None ==> !code.IsExpired(now)
  {
  }

  /** The usable scope selects exactly the usable codes (for a non-negative cap, whole-second clock). */
  lemma ScopeUsableAgrees(code: CouponCode, now: int)
    requires code.coupon != null ==> code.coupon.maxUsage >= 0
    ensures code.ScopeUsable(now) <==> code.IsUsable(now)
  {
    if code.coupon != null {
      ScopesAgreeWithIsActive(code.coupon, now);
    }
  }

  /** An unrecognised status never hides one of the column's values: reading its text back gives it again. */
  lemma UnrecognizedRoundTrip(st: CodeStatus)
    requires st.Unrecognized?
    ensures ParseCodeStatus(st.raw) == st
  {
  }

  /** Each stored status has its own label, and every other string reads as unknown. */
  lemma StatusTextOfColumn(s: string)
    ensures s == "unused" ==> CodeStatusText(ParseCodeStatus(s)) == "未使用"
    ensures s == "used" ==> CodeStatusText(ParseCodeStatus(s)) == "已使用"
    ensures s == "expired" ==> CodeStatusText(ParseCodeStatus(s)) == "已過期"
    ensures s == "gifted" ==> CodeStatusText(ParseCodeStatus(s)) == "已贈送"
    ensures s !in {"unused", "used", "expired", "gifted"} ==> CodeStatusText(ParseCodeStatus(s)) == "未知"
  {
  }

  /** Redeeming twice: the second call always fails and the counter moves at most once. */
  method UseTwice(code: CouponCode, now: int) returns (first: bool, second: bool)
    modifies code, code.coupon
    ensures !second
    ensures first == old(code.IsUsable(now))
    ensures code.coupon == old(code.coupon)
    ensures code.coupon != null ==>
      code.coupon.usedCount == old(code.coupon.usedCount) + (if first then 1 else 0)
  {
    first := code.Use(now);
    second := code.Use(now);
  }

  /** Gift then accept: the code changes hands but stays gifted, so it can no longer be redeemed. */
  method GiftAcceptThenUse(code: CouponCode, giver: int, receiver: int, now: int)
    returns (gifted: bool, accepted: bool, used: bool)
    requires code.status == Unused
    modifies code, code.coupon
    ensures gifted && accepted && !used
    ensures code.status == Gifted && code.memberId == Some(receiver)
    ensures code.giftedByMemberId == Some(giver)
    ensures code.coupon == old(code.coupon)
    ensures code.coupon != null ==> code.coupon.usedCount == old(code.coupon.usedCount)
  {
    gifted := code.Gift(giver, now);
    accepted := code.Accept(receiver, now);
    used := code.Use(now);
  }

  /**
   * Two codes drawing on one coupon limited to a single redemption: the first redeems,
   * after which the coupon is inactive and the second code is refused.
   */
  method SharedCapScenario(now: int) returns (activeBefore: bool, first: bool, second: bool, activeAfter: bool, count: int)
    ensures activeBefore && first && !second && !activeAfter && count == 1
  {
    var coupon := new Coupon(true, now - 1, None, 1, "fixed", 5000, 0);
    var a := new CouponCode(coupon, None);
    var b := new CouponCode(coupon, Some(7));
    activeBefore := coupon.IsActive(now);
    first := a.Use(now);
    second := b.Use(now);
    activeAfter := coupon.IsActive(now);
    count := coupon.usedCount;
  }
}
