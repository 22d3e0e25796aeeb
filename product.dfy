/**
 * The price accessors of a product: the price a customer pays, whether a sale price is
 * a real discount, and the discount as a whole percentage of the list price.
 */
module Products {
  import opened Wrappers
  import opened Rounding

  /** Prices in cents; `salePrice` is None when the product is not on sale. */
  datatype Product = Product(price: int, salePrice: Option<int>)

  /** The percentage, or the division-by-zero error the accessor raises on a zero list price. */
  datatype Percentage = Percent(value: int) | DivisionByZero

  /** The sale price when there is one, else the list price. */
  function CurrentPrice(p: Product): (r: int)
  {
    if p.salePrice.Some? then p.salePrice.value else p.price
  }

  /** A sale price counts as a discount only when it is below the list price. */
  predicate HasDiscount(p: Product)
  {
    p.salePrice.Some? && p.salePrice.value < p.price
  }

  /** round((price - sale) / price * 100), or 0 when there is no discount. */
  function DiscountPercentage(p: Product): (r: Percentage)
  {
    if !HasDiscount(p) then Percent(0)
    else if p.price == 0 then DivisionByZero
    else if p.price > 0 then Percent(RoundHalfAway((p.price - p.salePrice.value) * 100, p.price))
    else Percent(RoundHalfAway((p.salePrice.value - p.price) * 100, -p.price))
  }

  /** The current price is the sale price when set, the list price otherwise. */
  lemma CurrentPriceChoice(p: Product)
    ensures p.salePrice.Some? ==> CurrentPrice(p) == p.salePrice.value
    ensures p.salePrice.None? ==> CurrentPrice(p) == p.price
  {
  }

  /** A discount means the customer pays strictly less than the list price. */
  lemma DiscountMeansCheaper(p: Product)
    ensures p.salePrice.None? ==> !HasDiscount(p)
    ensures HasDiscount(p) ==> CurrentPrice(p) < p.price
    ensures HasDiscount(p) <==> p.salePrice.Some? && CurrentPrice(p) < p.price
  {
  }

  /** A sale price above the list price is charged, yet it is not reported as a discount. */
  lemma SaleAbovePriceIsCharged(p: Product)
    requires p.salePrice.Some? && p.salePrice.value > p.price
    ensures CurrentPrice(p) == p.salePrice.value > p.price
    ensures !HasDiscount(p) && DiscountPercentage(p) == Percent(0)
  {
  }

  /** Without a discount the percentage is 0 and no division takes place. */
  lemma NoDiscountNoPercentage(p: Product)
    requires !HasDiscount(p)
    ensures DiscountPercentage(p) == Percent(0)
  {
  }

  /**
   * With non-negative prices (as the admin form enforces) a discount implies a positive
   * list price, so the division is defined, and the rounded percentage lies in 0..100.
   */
  lemma DiscountPercentageInRange(p: Product)
    requires p.price >= 0 && (p.salePrice.Some? ==> p.salePrice.value >= 0)
    ensures DiscountPercentage(p).Percent?
    ensures 0 <= DiscountPercentage(p).value <= 100
    ensures HasDiscount(p) ==> IsRoundHalfAway((p.price - p.salePrice.value) * 100, p.price, DiscountPercentage(p).value)
  {
    if HasDiscount(p) {
      var n := (p.price - p.salePrice.value) * 100;
      assert 0 <= n <= 100 * p.price;
      RoundHalfAwayMonotone(0, n, p.price);
      RoundHalfAwayMonotone(n, 100 * p.price, p.price);
      RoundHalfAwayExact(0, p.price);
      RoundHalfAwayExact(100, p.price);
    }
  }

  /** A zero list price with a negative sale price makes the accessor divide by zero. */
  lemma ZeroPriceDividesByZero(p: Product)
    requires p.price == 0 && p.salePrice.Some? && p.salePrice.value < 0
    ensures DiscountPercentage(p) == DivisionByZero
  {
  }
}
