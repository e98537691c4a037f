/**
 * Coupon resolution, three times over: the server's purchase handler
 * (case-insensitive through `toLowerCase`, and only for a non-empty code),
 * the WordPress theme's `ns_get_membership_price` (through `strtoupper`),
 * and the purchase page's preview state in the browser.
 */
module Pricing {
  import opened Wrappers
  import opened Text
  import opened Schema

  /** The one recognised coupon, as upper-case text. */
  const CouponCode: string := "SAVE3K"

  /** What the server stores for a purchase: the price, and the coupon as typed when it applied. */
  datatype Quote = Quote(paidPrice: int, couponUsed: Option<string>)

  /** The server's price for a purchase request carrying `couponCode`
      (absent when the request body has none). */
  function ServerQuote(couponCode: Option<string>): (q: Quote)
    ensures q.paidPrice == DiscountPrice || q.paidPrice == BasePrice
    ensures q.couponUsed.Some? <==> q.paidPrice == DiscountPrice
    ensures q.couponUsed.Some? ==> q.couponUsed == couponCode && couponCode.value != ""
    ensures q.paidPrice == DiscountPrice <==> couponCode.Some? && Lower(couponCode.value) == "save3k"
  {
    if couponCode.Some? && couponCode.value != "" && Lower(couponCode.value) == "save3k" then
      Quote(DiscountPrice, couponCode)
    else
      Quote(BasePrice, None)
  }

  /** `ns_get_membership_price($coupon_code = '')`. */
  function PhpPrice(couponCode: string): (r: int)
    ensures r == DiscountPrice || r == BasePrice
  {
    if Upper(couponCode) == CouponCode then DiscountPrice else BasePrice
  }

  /** The theme discounts exactly the codes that spell the coupon in any mix
      of letter case. */
  lemma PhpDiscountIff(c: string)
    ensures PhpPrice(c) == DiscountPrice <==> Lower(c) == "save3k"
    ensures PhpPrice(c) == BasePrice <==> Lower(c) != "save3k"
  {
    assert NoLowerCase(CouponCode);
    assert Lower(CouponCode) == "save3k";
    UpperLowerAgree(c, CouponCode);
  }

  /** `ns_get_referral_amount()`. */
  function PhpReferralAmount(): (r: int)
    ensures r == ReferralAmount
  {
    2000
  }

  /** The server and the theme charge the same price for every code, and both
      charge the base price when no code is given: lower-casing and comparing
      with "save3k" selects exactly the texts that upper-case to "SAVE3K". */
  lemma PricesAgree(c: string)
    ensures ServerQuote(Some(c)).paidPrice == PhpPrice(c)
    ensures ServerQuote(None).paidPrice == PhpPrice("") == BasePrice
  {
    assert NoLowerCase(CouponCode);
    assert Lower(CouponCode) == "save3k";
    UpperLowerAgree(c, CouponCode);
    assert Upper("") == "";
  }

  /** The preview state of the purchase page. */
  datatype PurchaseForm = PurchaseForm(couponCode: string, couponApplied: bool, price: int)

  /** The page opens with no code, no coupon applied and the base price. */
  function InitialForm(): (f: PurchaseForm)
    ensures f.couponCode == "" && !f.couponApplied && f.price == BasePrice
  {
    PurchaseForm("", false, 5000)
  }

  /** Typing in the coupon field. */
  function EditCoupon(f: PurchaseForm, text: string): (r: PurchaseForm)
    ensures r.couponCode == text && r.couponApplied == f.couponApplied && r.price == f.price
  {
    f.(couponCode := text)
  }

  /** `handleApplyCoupon`: a code lower-casing to "save3k" applies the discount;
      any other code leaves the price and the applied flag as they were. */
  function ApplyCoupon(f: PurchaseForm): (r: PurchaseForm)
    ensures r.couponCode == f.couponCode
    ensures Lower(f.couponCode) == "save3k" ==> r.couponApplied && r.price == DiscountPrice
    ensures Lower(f.couponCode) != "save3k" ==> r == f
  {
    if Lower(f.couponCode) == "save3k" then f.(couponApplied := true, price := 2000) else f
  }

  /** The flag and the price tell the same story. */
  predicate FormConsistent(f: PurchaseForm) {
    (f.couponApplied && f.price == DiscountPrice) || (!f.couponApplied && f.price == BasePrice)
  }

  /** Every reachable form is consistent: the initial one is, and both
      transitions keep it so. */
  lemma FormStaysConsistent(f: PurchaseForm, text: string)
    requires FormConsistent(f)
    ensures FormConsistent(InitialForm())
    ensures FormConsistent(EditCoupon(f, text))
    ensures FormConsistent(ApplyCoupon(f))
  {
  }

  /** Applying the coupon twice is applying it once. */
  lemma ApplyCouponIdempotent(f: PurchaseForm)
    ensures ApplyCoupon(ApplyCoupon(f)) == ApplyCoupon(f)
  {
  }

  /** The price the page shows after typing `c` and applying it is the price
      the server charges for `c`. */
  lemma PreviewMatchesServer(c: string)
    ensures ApplyCoupon(EditCoupon(InitialForm(), c)).price == ServerQuote(Some(c)).paidPrice
    ensures ApplyCoupon(EditCoupon(InitialForm(), c)).couponApplied <==> ServerQuote(Some(c)).couponUsed.Some?
  {
    assert Lower("") == "";
  }
}
