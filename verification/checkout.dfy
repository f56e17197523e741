/**
 The checkout page: turning the cart and the shipping form into the order
 payload, and clearing the cart only once the order has been accepted.
 */
module Checkout {
  import opened Wrappers
  import opened CartStore

  /** The four form inputs, each registered as required. */
  datatype ShippingForm = ShippingForm(address: string, city: string, postalCode: string, country: string)

  datatype ShippingAddress = ShippingAddress(address: string, city: string, postalCode: string, country: string)

  datatype OrderPayload = OrderPayload(
    orderItems: Cart,
    shippingAddress: ShippingAddress,
    paymentMethod: string,
    itemsPrice: int,
    taxPrice: int,
    shippingPrice: int,
    totalPrice: int)

  const PaymentMethod: string := "Razorpay"

  /** The form library submits only when every required input is non-empty. */
  predicate FormComplete(f: ShippingForm) {
    f.address != "" && f.city != "" && f.postalCode != "" && f.country != ""
  }

  /** `orderData`: the cart verbatim, the address copied field by field, and self-consistent prices. */
  function BuildOrder(cart: Cart, form: ShippingForm): (o: OrderPayload)
    ensures o.orderItems == cart
    ensures o.shippingAddress.address == form.address && o.shippingAddress.city == form.city
    ensures o.shippingAddress.postalCode == form.postalCode && o.shippingAddress.country == form.country
    ensures o.paymentMethod == PaymentMethod
    ensures o.taxPrice == 0 && o.shippingPrice == 0
    ensures o.itemsPrice == UnitTimesQtySum(o.orderItems)
    ensures o.totalPrice == o.itemsPrice + o.taxPrice + o.shippingPrice
  {
    var total := TotalPrice(cart);
    TotalPriceIsUnitTimesQty(cart);
    OrderPayload(
      cart,
      ShippingAddress(form.address, form.city, form.postalCode, form.country),
      PaymentMethod, total, 0, 0, total)
  }

  datatype Submission = NotSubmitted | Placed(order: OrderPayload) | Failed(order: OrderPayload)

  /** The page after a submit attempt: what happened, and the cart left behind. */
  datatype CheckoutResult = CheckoutResult(submission: Submission, cart: Cart)

  /**
   `onSubmit`, with the outcome of the POST to /orders as a parameter: the cart
   is cleared after a successful post and kept as it was otherwise.
   */
  function Submit(cart: Cart, form: ShippingForm, postSucceeds: bool): (r: CheckoutResult)
    ensures r.submission.NotSubmitted? <==> !FormComplete(form)
    ensures r.submission.Placed? <==> FormComplete(form) && postSucceeds
    ensures !r.submission.NotSubmitted? ==> r.submission.order == BuildOrder(cart, form)
    ensures r.submission.Placed? ==> r.cart == [] && TotalPrice(r.cart) == 0
    ensures !r.submission.Placed? ==> r.cart == cart
  {
    if !FormComplete(form) then CheckoutResult(NotSubmitted, cart)
    else
      var order := BuildOrder(cart, form);
      if postSucceeds then CheckoutResult(Placed(order), ClearCart())
      else CheckoutResult(Failed(order), cart)
  }

  /** The summary row of a line: price × qty, without the packaging. */
  function LineSummary(item: CartItem): int {
    item.price * item.qty
  }

  function SummarySum(cart: Cart): int {
    if |cart| == 0 then 0 else LineSummary(cart[0]) + SummarySum(cart[1..])
  }

  function PackagingSum(cart: Cart): int {
    if |cart| == 0 then 0 else PackagingPriceOf(cart[0]) * cart[0].qty + PackagingSum(cart[1..])
  }

  /** The displayed total is the summary rows plus the packaging the rows leave out. */
  lemma TotalIsSummaryPlusPackaging(cart: Cart)
    ensures TotalPrice(cart) == SummarySum(cart) + PackagingSum(cart)
  {
    TotalPriceIsUnitTimesQty(cart);
    UnitSumSplits(cart);
  }

  lemma {:induction false} UnitSumSplits(cart: Cart)
    ensures UnitTimesQtySum(cart) == SummarySum(cart) + PackagingSum(cart)
    decreases |cart|
  {
    if |cart| > 0 {
      UnitSumSplits(cart[1..]);
      var x := cart[0];
      assert (x.price + PackagingPriceOf(x)) * x.qty == x.price * x.qty + PackagingPriceOf(x) * x.qty;
    }
  }

  /** With gift packaging in the cart the rows add up to less than the total shown under them. */
  lemma SummaryOmitsPackaging()
    ensures
      var cart := [CartItem("a", "A", None, 100, 2, 5, Some(Packaging("Velvet Black", "", "", "", "", 500)))];
      SummarySum(cart) == 200 && TotalPrice(cart) == 1200
  {
    var cart := [CartItem("a", "A", None, 100, 2, 5, Some(Packaging("Velvet Black", "", "", "", "", 500)))];
    TotalIsSummaryPlusPackaging(cart);
  }
}
