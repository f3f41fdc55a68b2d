/** Pricing at registration: the discount taken from an unused coupon and
    the amount left to pay. */
module Pricing {
  import opened Records

  /** A coupon the code typed by the student may still be applied to. */
  predicate Redeemable(c: Coupon, code: string)
  {
    c.code == code && !c.used
  }

  /** Index of the first coupon with this code that is not used yet. */
  function FindUnused(coupons: seq<Coupon>, code: string): (r: Option<nat>)
    ensures r.Some? ==> r.value < |coupons| && Redeemable(coupons[r.value], code)
    ensures r.Some? ==> forall j :: 0 <= j < r.value ==> !Redeemable(coupons[j], code)
    ensures r.None? ==> forall j :: 0 <= j < |coupons| ==> !Redeemable(coupons[j], code)
  {
    if coupons == [] then None
    else if Redeemable(coupons[0], code) then Some(0)
    else match FindUnused(coupons[1..], code)
      case None => None
      case Some(k) => Some(k + 1)
  }

  /** The discount percentage applied to a registration: that of the first
      unused coupon with the typed code, and 0 when no code was typed or no
      unused coupon has it. */
  function Discount(coupons: seq<Coupon>, code: string): (d: real)
    ensures code == "" ==> d == 0.0
    ensures (forall j :: 0 <= j < |coupons| ==> !Redeemable(coupons[j], code)) ==> d == 0.0
    ensures d != 0.0 ==> exists j :: 0 <= j < |coupons| && Redeemable(coupons[j], code) && d == coupons[j].discountPercent
    ensures code != "" && FindUnused(coupons, code).Some? ==> d == coupons[FindUnused(coupons, code).value].discountPercent
  {
    if code == "" then 0.0
    else match FindUnused(coupons, code)
      case None => 0.0
      case Some(k) => coupons[k].discountPercent
  }

  /** `max(0, price * (1 - discount / 100))`. */
  function Payable(price: real, discount: real): (p: real)
    ensures p >= 0.0
    ensures p >= price * (1.0 - discount / 100.0)
    ensures p > 0.0 ==> p == price * (1.0 - discount / 100.0)
    ensures price >= 0.0 && 0.0 <= discount <= 100.0 ==> p <= price
    ensures price >= 0.0 && discount == 0.0 ==> p == price
    ensures price >= 0.0 && discount >= 100.0 ==> p == 0.0
  {
    var raw := price * (1.0 - discount / 100.0);
    if raw > 0.0 then raw else 0.0
  }

  /** Every coupon's discount is a percentage. */
  ghost predicate PercentagesValid(coupons: seq<Coupon>)
  {
    forall j :: 0 <= j < |coupons| ==> 0.0 <= coupons[j].discountPercent <= 100.0
  }

  /** With valid percentages and a non-negative test price, the amount to
      pay never exceeds the price, whatever code is typed. */
  lemma PayableWithinPrice(coupons: seq<Coupon>, code: string, price: real)
    requires PercentagesValid(coupons)
    requires price >= 0.0
    ensures 0.0 <= Payable(price, Discount(coupons, code)) <= price
  {
    var d := Discount(coupons, code);
    if d != 0.0 {
      var j :| 0 <= j < |coupons| && Redeemable(coupons[j], code) && d == coupons[j].discountPercent;
      assert 0.0 <= d <= 100.0;
    }
  }

  /** A test priced 100 with an unused 50% coupon typed costs 50. */
  lemma HalfPriceExample()
    ensures Payable(100.0, Discount([Coupon("CPN-1", "ref", "new", 50.0, false, "t")], "CPN-1")) == 50.0
  {
  }
}
