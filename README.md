# Coupon lifecycle of a shop back-office, in Dafny

This project models the only behaviour of the shop's admin back-office that is more than
framework configuration: the coupon subsystem in `app/Models` and two small predicates
beside it.

- **Coupon** (`Coupons.Coupon`): a discount definition with an enabled flag, a validity
  window `[startAt, endAt]` (end optional), a usage cap (`maxUsage`, 0 = unlimited) and the
  shared redemption counter `usedCount`. `IsActive` fails closed on four independent
  conditions; `GetDiscountAmount` gives a fixed amount or a rounded percentage of the total;
  `MeetsMinimumAmount` is a non-strict comparison. The `active`, `valid` and `available`
  query scopes are predicates on one record, proved to select exactly the active coupons
  for a non-negative cap (a negative cap, which the signed column accepts, separates them)
  at every instant of the model's whole-second clock; the sub-second window after a set
  `end_at`, where the two differ in the program, is not modelled (see "## Left out").
- **CouponCode** (`CouponCodes.CouponCode`): one redeemable code, a state machine over
  `unused / used / expired / gifted`. `Use`, `Gift` and `Accept` are guarded transitions:
  a refused one returns false and changes nothing; a successful `Use` also increments the
  coupon's counter, which all codes of that coupon share.
- **MemberCoupon** (`MemberCoupons.MemberCoupon`): a member's wallet record of one code,
  `active / used / expired`. `Use` is guarded by a three-way check and cascades into the
  code's `Use`; `MarkAsExpired` is unconditional; discount and minimum checks delegate down
  the chain record → code → coupon, whose links may be missing (null).
- **Product** (`Products`): current price, whether there is a discount, and the discount
  percentage.
- **Banner** (`Banners`): a time-window validity predicate, as an accessor and as a scope.

Conventions: the clock is an explicit `now: int` parameter; timestamps are integers and
nullable ones `Option<int>`; money columns (`decimal:2`) are integer cents, and the
percentage column holds hundredths of a percent. PHP's `round()` is `Rounding.RoundHalfAway`
on exact rationals (the nearest integer, halves away from zero): a percentage discount in
cents is `RoundHalfAway(totalCents * pctHundredths, 10000)`. Relations are nullable object
references, database writes are field assignments, and the stateful records are classes
whose methods `modify` exactly the records the PHP code updates.

A wallet record and its `usable` scope read the record's own expiry differently:
`MemberCoupon::isUsable` (app/Models/MemberCoupon.php:62) rejects a record only once the
clock is strictly past `expired_at`, while `scopeUsable` (app/Models/MemberCoupon.php:175)
requires `expired_at > now`. `MemberCoupons.ScopeUsableDisagreesAtExpiry` shows the one
instant where the two differ.

## Model

| member | source | states |
|---|---|---|
| `Rounding.RoundHalfAway` | app/Models/Coupon.php:103 | the result is n/d rounded to the nearest integer with halves away from zero (PHP `round`), as a characterisation rather than a formula |
| `Rounding.RoundHalfAwayUnique` | app/Models/Coupon.php:103 | that characterisation admits exactly one integer, so it fully specifies the rounding |
| `Rounding.RoundHalfAwayMonotone` | app/Models/Product.php:104 | rounding is monotone in the numerator |
| `Rounding.RoundHalfAwayExact` | app/Models/Product.php:104 | an exact quotient k·d/d rounds to k |
| `Coupons.Coupon.constructor` | database/migrations/2025_07_22_024842_create_coupons_table.php:19-26 | a new coupon has the given settings and `used_count` 0 (the column default) |
| `Coupons.Coupon.IsActive` | app/Models/Coupon.php:66-87 | the four fail-closed checks in the source's order; characterised by `IsActiveExactly`, `IsActiveWindowInclusive` and `UnlimitedIgnoresUsedCount` |
| `Coupons.Coupon.IsPercentageDiscount` | app/Models/Coupon.php:92-95 | the type string equals 'percentage'; `NonPercentageIsFixed` states that every other value is read as fixed |
| `Coupons.Coupon.MeetsMinimumAmount` | app/Models/Coupon.php:112-115 | the non-strict minimum comparison; characterised by `MinimumIsInclusive` |
| `Coupons.Coupon.ScopeActive` | app/Models/Coupon.php:120-123 | the `active` filter on one record; related to `IsActive` by `ScopesAgreeWithIsActive` |
| `Coupons.Coupon.ScopeValid` | app/Models/Coupon.php:128-137 | the `valid` filter (enabled, start ≤ now, end null or ≥ now); related to `IsActive` by `ScopesAgreeWithIsActive` and `UnlimitedIgnoresUsedCount` |
| `Coupons.Coupon.ScopeAvailable` | app/Models/Coupon.php:142-148 | the `available` filter (cap 0 or count below it); related to `IsActive` by `ScopesAgreeWithIsActive` and `ScopesRejectNegativeCap` |
| `Coupons.IsActiveExactly` | app/Models/Coupon.php:66-87 | `isActive` is false exactly when the flag is off, now < start, end is set and now > end, or the cap is positive and reached; true otherwise |
| `Coupons.IsActiveWindowInclusive` | app/Models/Coupon.php:74-79 | both window ends are inclusive: active at `start_at` and at `end_at`, inactive one tick before the start and one after the end |
| `Coupons.UnlimitedIgnoresUsedCount` | app/Models/Coupon.php:82 | with `max_usage == 0` activity is the flag and the window alone, whatever `used_count` is |
| `Coupons.Coupon.GetDiscountAmount` | app/Models/Coupon.php:100-107 | a percentage coupon gives total × pct / 100 rounded half away to cents; any other type gives `discount_amount` unchanged, not capped at the total |
| `Coupons.NonPercentageIsFixed` | app/Models/Coupon.php:92-95 | every `discount_type` other than 'percentage' yields the same fixed amount for every total |
| `Coupons.TenPercentOf250` | app/Models/Coupon.php:102-104 | 10% of 250.00 is 25.00 |
| `Coupons.PercentageWithinTotal` | app/Models/Coupon.php:102-104 | a percentage of 0..100 on a non-negative total gives a discount between 0 and the total |
| `Coupons.MinimumIsInclusive` | app/Models/Coupon.php:112-115 | the minimum check is `total >= minimum_amount`, holds at the minimum itself, and with minimum 0 holds for every non-negative total |
| `Coupons.ScopesAgreeWithIsActive` | app/Models/Coupon.php:120-148 | for a non-negative cap, `active ∧ valid ∧ available` holds exactly when `isActive` does |
| `Coupons.ScopesRejectNegativeCap` | app/Models/Coupon.php:142-148 | for a negative cap the `available` scope rejects every non-negative count while `isActive` ignores the cap |
| `CouponCodes.ParseCodeStatus` | database/migrations/2025_07_22_024849_create_coupon_codes_table.php:20 | the four column values map to the four named statuses and every other string to an unrecognised one |
| `CouponCodes.CouponCode.constructor` | database/migrations/2025_07_22_024849_create_coupon_codes_table.php:20 | a new code is `unused`, with no timestamps and no giver |
| `CouponCodes.CodeStatusText` | app/Models/CouponCode.php:155-164 | the label of each status and '未知' otherwise; characterised by `StatusTextOfColumn` |
| `CouponCodes.UnrecognizedRoundTrip` | database/migrations/2025_07_22_024849_create_coupon_codes_table.php:20 | an unrecognised status never holds one of the four column values: parsing its text gives it back |
| `CouponCodes.CouponCode.IsUsable` | app/Models/CouponCode.php:68-79 | the usability check in the source's order; characterised by `IsUsableExactly` and `OnlyUnusedIsUsable` |
| `CouponCodes.CouponCode.IsExpired` | app/Models/CouponCode.php:139-150 | the derived expiry read; characterised by `IsExpiredExactly` |
| `CouponCodes.CouponCode.StatusText` | app/Models/CouponCode.php:155-164 | the label of the code's status through `CodeStatusText`; characterised by `StatusTextOfColumn` |
| `CouponCodes.CouponCode.ScopeUsable` | app/Models/CouponCode.php:193-199 | the `usable` filter on one record; related to `IsUsable` by `ScopeUsableAgrees` |
| `CouponCodes.Run` | app/Models/CouponCode.php:84-134 | applies a sequence of operations through `Step`, counting accepted redemptions; characterised by `UsedIsTerminal`, `GiftedNeverRedeemed` and `RedeemedExactlyOnceIfUsed` |
| `CouponCodes.IsUsableExactly` | app/Models/CouponCode.php:68-79 | a code is usable exactly when unused, attached to a coupon, and that coupon is active; a missing coupon means unusable |
| `CouponCodes.OnlyUnusedIsUsable` | app/Models/CouponCode.php:70 | any status other than unused (gifted, accepted or not, included) makes the code unusable |
| `CouponCodes.Step` | app/Models/CouponCode.php:84-134 | the transition table: redeem is accepted exactly from unused with an active coupon, gift exactly from unused, accept exactly from gifted; a refused transition changes nothing; redeem leads to used, gift and accept to gifted |
| `CouponCodes.CouponCode.Use` | app/Models/CouponCode.php:84-98 | follows `Step`: succeeds exactly when the code was usable, then status used and `used_at = now`; the coupon's counter +1 and its other fields unchanged; on failure neither record changes; the cap invariant `used_count <= max_usage` is kept |
| `CouponCodes.CouponCode.Gift` | app/Models/CouponCode.php:104-117 | follows `Step`: succeeds exactly from unused, then status gifted with giver and `gifted_at` set and the owner untouched; otherwise nothing changes |
| `CouponCodes.CouponCode.Accept` | app/Models/CouponCode.php:122-134 | follows `Step`: succeeds exactly from gifted, sets owner and `accepted_at`, status stays gifted; repeats are not refused and overwrite the owner |
| `CouponCodes.UsedIsTerminal` | app/Models/CouponCode.php:86-88 | no sequence of operations changes a used code or redeems it again |
| `CouponCodes.GiftedNeverRedeemed` | app/Models/CouponCode.php:70 | a gifted code stays gifted through any operations (accepts included) and is never redeemed |
| `CouponCodes.RedeemedExactlyOnceIfUsed` | app/Models/CouponCode.php:84-98 | over any sequence of operations a code bumps its coupon's counter exactly once if it ends up used (not having started used) and never otherwise |
| `CouponCodes.IsExpiredExactly` | app/Models/CouponCode.php:139-150 | expired exactly when no coupon is attached or its end is set and past; status and the enabled flag play no part |
| `CouponCodes.StatusTextOfColumn` | app/Models/CouponCode.php:155-164 | each of the four column values has its own label; any other string reads '未知' |
| `CouponCodes.ScopeUsableAgrees` | app/Models/CouponCode.php:193-199 | the `usable` scope selects exactly the usable codes (non-negative cap) |
| `CouponCodes.UseTwice` | app/Models/CouponCode.php:86-88 | a second redemption always fails, and the counter moves once in total, only if the first succeeded |
| `CouponCodes.GiftAcceptThenUse` | app/Models/CouponCode.php:104-134 | after gift and accept the code belongs to the receiver, stays gifted, and can no longer be redeemed |
| `CouponCodes.SharedCapScenario` | app/Models/CouponCode.php:84-98 | two codes on one coupon capped at 1: the first redeems, the coupon turns inactive with count 1, the second is refused |
| `MemberCoupons.ParseMemberStatus` | database/migrations/2025_07_22_024859_create_member_coupons_table.php:18 | the three column values map to the named statuses and every other string to an unrecognised one |
| `MemberCoupons.MemberCoupon.constructor` | database/migrations/2025_07_22_024859_create_member_coupons_table.php:18 | a new wallet record is active, unused and without expiry |
| `MemberCoupons.MemberStatusText` | app/Models/MemberCoupon.php:109-117 | the label of each status and '未知' otherwise; characterised by `StatusTextOfColumn` |
| `MemberCoupons.UnrecognizedRoundTrip` | database/migrations/2025_07_22_024859_create_member_coupons_table.php:18 | an unrecognised status never holds one of the three column values: parsing its text gives it back |
| `MemberCoupons.RedeemAllowed` | app/Models/MemberCoupon.php:56-71 | the redemption guard on a record's fields; tied to `IsUsable` by `IsUsableExactly` |
| `MemberCoupons.MemberCoupon.IsUsable` | app/Models/MemberCoupon.php:56-71 | the three-way check in the source's order; characterised by `IsUsableExactly` and `UsableReachesActiveCoupon` |
| `MemberCoupons.MemberCoupon.StatusText` | app/Models/MemberCoupon.php:109-117 | the label of the record's status through `MemberStatusText`; characterised by `StatusTextOfColumn` |
| `MemberCoupons.MemberCoupon.MeetsMinimumAmount` | app/Models/MemberCoupon.php:134-141 | false on a missing link, else the coupon's check; characterised by `MissingLinkFailsClosed` and `MinimumDelegates` |
| `MemberCoupons.MemberCoupon.ScopeUsable` | app/Models/MemberCoupon.php:170-180 | the `usable` filter on one record, with a strict expiry test; related to `IsUsable` by `ScopeUsableAgreesOffExpiry` and `ScopeUsableDisagreesAtExpiry` |
| `MemberCoupons.WalletRun` | app/Models/MemberCoupon.php:76-104 | applies a sequence of redemptions and expiries through `WalletStep`, counting accepted redemptions; characterised by `InactiveStaysInactive` and `WalletRedeemedAtMostOnce` |
| `MemberCoupons.IsUsableExactly` | app/Models/MemberCoupon.php:56-71 | usable exactly when active, `expired_at` null or now ≤ it, and the code present and usable; this is the redemption guard of `WalletStep` |
| `MemberCoupons.UsableReachesActiveCoupon` | app/Models/MemberCoupon.php:66 | a usable record reaches an unused code on an active coupon, so the inner redemption succeeds |
| `MemberCoupons.WalletStep` | app/Models/MemberCoupon.php:76-104 | redemption is accepted exactly when active, not past `expired_at` and the code usable, and leads to used; expiry is always accepted and leads to expired; a refused transition changes nothing |
| `MemberCoupons.MemberCoupon.Use` | app/Models/MemberCoupon.php:76-91 | follows `WalletStep`: succeeds exactly when the record was usable; then record used at now, the code's whole view follows `Step` (used at now, owner, giver and gift/accept times unchanged), coupon counter +1 and within its cap with its settings unchanged; otherwise none of the three records changes |
| `MemberCoupons.MemberCoupon.MarkAsExpired` | app/Models/MemberCoupon.php:96-104 | follows `WalletStep`: always true; status expired and `expired_at = now` whatever the prior status, and the record is then unusable |
| `MemberCoupons.InactiveStaysInactive` | app/Models/MemberCoupon.php:58 | a record that is not active never becomes active again and is never redeemed |
| `MemberCoupons.WalletRedeemedAtMostOnce` | app/Models/MemberCoupon.php:76-104 | over any sequence of redemptions and expiries a record is redeemed at most once, only if it started active, and is not active afterwards |
| `MemberCoupons.StatusTextOfColumn` | app/Models/MemberCoupon.php:109-117 | each of the three column values has its own label; any other string reads '未知' |
| `MemberCoupons.MemberCoupon.GetDiscountAmount` | app/Models/MemberCoupon.php:122-129 | 0 when the code or the coupon is missing, otherwise the coupon's discount |
| `MemberCoupons.MissingLinkFailsClosed` | app/Models/MemberCoupon.php:122-141 | a missing code or coupon gives discount 0 and fails the minimum check |
| `MemberCoupons.MinimumDelegates` | app/Models/MemberCoupon.php:134-141 | with all links present the minimum check is the coupon's `total >= minimum_amount` |
| `MemberCoupons.ScopeUsableAgreesOffExpiry` | app/Models/MemberCoupon.php:170-180 | the `usable` scope agrees with `isUsable` at every instant other than `expired_at`, and never selects a record at that instant |
| `MemberCoupons.ScopeUsableDisagreesAtExpiry` | app/Models/MemberCoupon.php:62 | at now == `expired_at` an otherwise usable record is usable (strict `gt`) yet left out by the scope (`expired_at > now`) |
| `MemberCoupons.UseAfterCouponEnded` | app/Models/MemberCoupon.php:76-91 | redeeming a wallet record whose coupon has ended is refused and mutates none of record, code or coupon |
| `MemberCoupons.UseTwice` | app/Models/MemberCoupon.php:76-91 | one successful wallet redemption leaves record and code used (status used implies code used) and a second one is refused |
| `Products.CurrentPrice` | app/Models/Product.php:86-89 | `sale_price ?? price`; characterised by `CurrentPriceChoice` |
| `Products.HasDiscount` | app/Models/Product.php:92-95 | a sale price set and below the list price; characterised by `DiscountMeansCheaper` and `SaleAbovePriceIsCharged` |
| `Products.DiscountPercentage` | app/Models/Product.php:98-105 | 0 without a discount, else the rounded percentage or the division-by-zero error; characterised by `NoDiscountNoPercentage`, `DiscountPercentageInRange` and `ZeroPriceDividesByZero` |
| `Products.CurrentPriceChoice` | app/Models/Product.php:86-89 | the current price is the sale price when non-null, the list price otherwise |
| `Products.DiscountMeansCheaper` | app/Models/Product.php:92-95 | no sale price means no discount; a discount holds exactly when a sale price is set and the current price is below the list price |
| `Products.SaleAbovePriceIsCharged` | app/Models/Product.php:86-95 | a sale price above the list price is what is charged, yet it is not a discount and its percentage is 0 |
| `Products.NoDiscountNoPercentage` | app/Models/Product.php:100-102 | without a discount the percentage is 0 |
| `Products.DiscountPercentageInRange` | app/Models/Product.php:98-105 | with non-negative prices the percentage is defined (no division by zero), is round((price − sale)/price · 100) and lies in 0..100 |
| `Products.ZeroPriceDividesByZero` | app/Models/Product.php:104 | a zero list price with a negative sale price divides by zero |
| `Banners.IsValid` | app/Models/Banner.php:64-69 | the `is_valid` accessor; characterised by `OpenWindowAlwaysValid` and `WindowBounds` |
| `Banners.ScopeValid` | app/Models/Banner.php:52-61 | the `valid` filter on one record; equal to `IsValid` by `ScopeValidAgrees` |
| `Banners.ScopeActive` | app/Models/Banner.php:40-43 | the `active` filter on one record; independent of validity by `ValidityIgnoresActive` |
| `Banners.OpenWindowAlwaysValid` | app/Models/Banner.php:64-69 | with neither bound set a banner is always valid |
| `Banners.WindowBounds` | app/Models/Banner.php:67-68 | invalid before a set start and after a set end; valid at either bound |
| `Banners.ScopeValidAgrees` | app/Models/Banner.php:52-61 | the `valid` scope equals the `is_valid` accessor at every instant of the whole-second clock |
| `Banners.ValidityIgnoresActive` | app/Models/Banner.php:40-43 | toggling `is_active` changes the `active` scope and never validity |

## Left out

- Persistence: Eloquent relations, `update()`/`increment()` as database writes, soft deletes, foreign-key cascades, indexes and the unique `(member_id, coupon_code_id)` constraint; relations are object references and writes are field assignments.
- Concurrency: the check-then-act race between the usability check and the status write, and the atomicity of the two-record update in the wallet redemption; the model is single-threaded.
- The clock: `Carbon::now()` / `now()` become one `now` parameter per operation. The PHP wallet redemption reads the clock again inside the code's `use()`, so a coupon ending between the two reads could leave the record used and the code unused; with one clock value the model cannot show that.
- Sub-second time: the clock and the timestamp columns share one granularity (whole seconds). In the program the accessors (`isActive`, `is_valid`, `isUsable`) compare a `now()` that carries microseconds with whole-second columns, while the query scopes (`valid`, `usable`) bind `now()` formatted to whole seconds. In the fraction of a second after a set `end_at` a scope therefore still selects a coupon, code, wallet record or banner that the accessor rejects. The agreement lemmas `Coupons.ScopesAgreeWithIsActive`, `Banners.ScopeValidAgrees`, `CouponCodes.ScopeUsableAgrees` and `MemberCoupons.ScopeUsableAgreesOffExpiry` hold only at whole-second instants.
- Floating point: the PHP arithmetic in the discount and percentage accessors runs on floats; the model computes on exact rationals and rounds half away from zero.
- The default argument `$totalAmount = 0` of the discount accessors: a call with no argument is the call with total 0.
- Member ids passed to `gift` and `accept` are integers; passing null is not modelled.
- The admin panel (`app/Filament/Resources`), other models (`Member`, `ProductCategory`, `ProductImage`, `AboutUs`) and the migrations' DDL, which are configuration; the migrations are used only for enum domains and defaults.
- The single-column status filters (`unused`, `used`, `gifted` on codes; `active`, `used`, `expired` on wallet records), `Product`'s `active` and `featured` scopes and `Banner`'s `ofType` scope (and its `type` column), which are single-column equality filters; and `Product`'s `published` scope, which selects products whose `published_at` is set and not after now.
