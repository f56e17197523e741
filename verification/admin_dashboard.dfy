/**
The admin dashboard's client-side logic: the overview statistics, reordering
and removing the images picked for a product, and the form body it sends when
a hero slide is saved.
*/
module AdminDashboard {
  import opened Wrappers
  import opened Checkout
  import opened ProductCard
  import opened HeroModel
  import opened HeroRoutes
  import opened Documents
  import opened FileFilter

  // ---------------------------------------------------------------- overview

  /** The three overview figures; sales in minor units. */
  datatype Stats = Stats(sales: int, orders: nat, customers: nat)

  /** `orders.reduce((acc, o) => acc + o.totalPrice, 0)`: a left fold. */
  function SalesFold(orders: seq<OrderPayload>): int {
    if |orders| == 0 then 0 else SalesFold(orders[..|orders| - 1]) + orders[|orders| - 1].totalPrice
  }

  /** The same total summed from the front, as a reference. */
  function SalesSum(orders: seq<OrderPayload>): int {
    if |orders| == 0 then 0 else orders[0].totalPrice + SalesSum(orders[1..])
  }

  lemma {:induction false} SalesSumAppend(a: seq<OrderPayload>, o: OrderPayload)
    ensures SalesSum(a + [o]) == SalesSum(a) + o.totalPrice
    decreases |a|
  {
    if |a| == 0 {
      assert a + [o] == [o];
    } else {
      assert (a + [o])[1..] == a[1..] + [o];
      SalesSumAppend(a[1..], o);
    }
  }

  /** The statistics `fetchData` computes: the fold of the totals, the order count, and no customers. */
  method ComputeStats(orders: seq<OrderPayload>) returns (s: Stats)
    ensures s.sales == SalesSum(orders)
    ensures s.orders == |orders|
    ensures s.customers == 0
  {
    var acc := 0;
    var i := 0;
    while i < |orders|
      invariant 0 <= i <= |orders|
      invariant acc == SalesSum(orders[..i])
    {
      SalesSumAppend(orders[..i], orders[i]);
      assert orders[..i + 1] == orders[..i] + [orders[i]];
      acc := acc + orders[i].totalPrice;
      i := i + 1;
    }
    assert orders[..i] == orders;
    s := Stats(acc, |orders|, 0);
  }

  /** The fold the page writes and the reference sum agree on every list of orders. */
  lemma {:induction false} SalesFoldIsSum(orders: seq<OrderPayload>)
    ensures SalesFold(orders) == SalesSum(orders)
    decreases |orders|
  {
    if |orders| > 0 {
      var init := orders[..|orders| - 1];
      SalesFoldIsSum(init);
      SalesSumAppend(init, orders[|orders| - 1]);
      assert init + [orders[|orders| - 1]] == orders;
    }
  }

  const LowStockLimit: int := 5

  /** `products.filter(p => p.stock < 5).length`. */
  function LowStockCount(ps: seq<Product>): (n: nat)
    ensures n <= |ps|
    ensures n == 0 <==> forall i :: 0 <= i < |ps| ==> ps[i].stock >= LowStockLimit
    ensures n == |ps| <==> forall i :: 0 <= i < |ps| ==> ps[i].stock < LowStockLimit
  {
    if |ps| == 0 then 0
    else
      var rest := LowStockCount(ps[1..]);
      assert forall i :: 1 <= i < |ps| ==> ps[i] == ps[1..][i - 1];
      (if ps[0].stock < LowStockLimit then 1 else 0) + rest
  }

  lemma {:induction false} LowStockCountAppend(a: seq<Product>, b: seq<Product>)
    ensures LowStockCount(a + b) == LowStockCount(a) + LowStockCount(b)
    decreases |a|
  {
    if |a| == 0 {
      assert a + b == b;
    } else {
      assert (a + b)[1..] == a[1..] + b;
      LowStockCountAppend(a[1..], b);
    }
  }

  // ---------------------------------------------------------------- picked images

  /** The "Move Left" arrow on the `idx`-th preview: swap with the previous image; no-op on the first. */
  function MoveLeft<T>(xs: seq<T>, idx: nat): (r: seq<T>)
    requires idx < |xs|
    ensures |r| == |xs| && multiset(r) == multiset(xs)
    ensures idx > 0 ==> r[idx - 1] == xs[idx] && r[idx] == xs[idx - 1]
    ensures forall j :: 0 <= j < |xs| && j != idx && j != idx - 1 ==> r[j] == xs[j]
  {
    if idx == 0 then xs else xs[idx - 1 := xs[idx]][idx := xs[idx - 1]]
  }

  /** The "Move Right" arrow: swap with the next image; no-op on the last. */
  function MoveRight<T>(xs: seq<T>, idx: nat): (r: seq<T>)
    requires idx < |xs|
    ensures |r| == |xs| && multiset(r) == multiset(xs)
    ensures idx < |xs| - 1 ==> r[idx + 1] == xs[idx] && r[idx] == xs[idx + 1]
    ensures forall j :: 0 <= j < |xs| && j != idx && j != idx + 1 ==> r[j] == xs[j]
  {
    if idx == |xs| - 1 then xs else xs[idx + 1 := xs[idx]][idx := xs[idx + 1]]
  }

  /** The "Remove" button: `splice(idx, 1)`. */
  function RemoveAt<T>(xs: seq<T>, idx: nat): (r: seq<T>)
    requires idx < |xs|
    ensures |r| == |xs| - 1
    ensures multiset(r) + multiset{xs[idx]} == multiset(xs)
    ensures forall j :: 0 <= j < idx ==> r[j] == xs[j]
    ensures forall j :: idx <= j < |r| ==> r[j] == xs[j + 1]
  {
    assert xs == xs[..idx] + [xs[idx]] + xs[idx + 1..];
    xs[..idx] + xs[idx + 1..]
  }

  /** Picking files appends them after the images already chosen. */
  function AppendPicked<T>(xs: seq<T>, picked: seq<T>): (r: seq<T>)
    ensures |r| == |xs| + |picked| && r[..|xs|] == xs && r[|xs|..] == picked
  {
    xs + picked
  }

  /** Moving an image left and then right again restores the order. */
  lemma MoveRightUndoesMoveLeft<T>(xs: seq<T>, idx: nat)
    requires 0 < idx < |xs|
    ensures MoveRight(MoveLeft(xs, idx), idx - 1) == xs
  {
  }

  lemma MoveLeftUndoesMoveRight<T>(xs: seq<T>, idx: nat)
    requires idx < |xs| - 1
    ensures MoveLeft(MoveRight(xs, idx), idx + 1) == xs
  {
  }

  /** Moving the second image left makes it the main image. */
  lemma MoveLeftToFront<T>(xs: seq<T>)
    requires |xs| >= 2
    ensures MoveLeft(xs, 1)[0] == xs[1] && MoveLeft(xs, 1)[1] == xs[0]
  {
  }

  /** Picking one file and removing it again restores the list. */
  lemma RemoveUndoesPick<T>(xs: seq<T>, f: T)
    ensures RemoveAt(AppendPicked(xs, [f]), |xs|) == xs
  {
  }

  // ---------------------------------------------------------------- hero form

  /** The hero modal's state; `description` may be undefined when it was loaded from a slide without one. */
  datatype HeroForm = HeroForm(heading: string, subHeading: string, description: Option<string>,
                               productCode: string, kind: string, productId: string)

  /** `FormData.append` turns a non-file value into text: undefined becomes "undefined". */
  function FormText(v: Option<string>): string {
    v.GetOr("undefined")
  }

  /** `handleAddHero`'s body: every text field, and `productId` only for a product slide that has one. */
  function HeroFormBody(f: HeroForm): (b: HeroBody)
    ensures b.heading == Some(f.heading) && b.subHeading == Some(f.subHeading)
    ensures b.productCode == Some(f.productCode) && b.kind == Some(f.kind)
    ensures b.description == Some(FormText(f.description))
    ensures b.productId.Some? <==> f.kind == ProductName && f.productId != ""
    ensures b.productId.Some? ==> b.productId.value == f.productId
  {
    HeroBody(Some(f.heading), Some(f.subHeading), Some(FormText(f.description)), Some(f.productCode),
             Some(f.kind),
             if f.kind == ProductName && f.productId != "" then Some(f.productId) else None)
  }

  /** Choosing the "Coming Soon" radio button also clears the linked product. */
  function ChooseComingSoon(f: HeroForm): (g: HeroForm)
    ensures g.kind == ComingSoonName && g.productId == ""
    ensures g.heading == f.heading && g.subHeading == f.subHeading
    ensures g.description == f.description && g.productCode == f.productCode
  {
    f.(kind := ComingSoonName, productId := "")
  }

  /** The form never sends a product id for a coming-soon slide. */
  lemma ComingSoonFormSendsNoProduct(f: HeroForm)
    ensures HeroFormBody(ChooseComingSoon(f)).productId.None?
  {
  }

  /** A coming-soon slide created from the form has no product link. */
  lemma ComingSoonPostHasNoProduct(st: HeroStore, f: HeroForm, upload: Upload, url: string, newId: string)
    requires !HasId(st, newId) && f.kind == ComingSoonName
    ensures var out := HeroPost(st, HeroFormBody(f), upload, url, newId);
            out.0.Ok? ==> out.0.value.kind == ComingSoon && out.0.value.productId.None?
  {
  }

  /** Saving an existing slide from the form as coming-soon clears its product link. */
  lemma ComingSoonEditClearsProduct(st: HeroStore, k: nat, f: HeroForm)
    requires StoreValid(st) && k < |st| && f.kind == ComingSoonName
    requires f.heading != "" && f.subHeading != "" && f.productCode != ""
    ensures var out := HeroPut(st, st[k].id, HeroFormBody(f), NoFile, "");
            out.reply.Ok? && out.reply.value.kind == ComingSoon && out.reply.value.productId.None?
  {
    ComingSoonClearsProduct(st, k, HeroFormBody(f));
  }

  /** Editing a slide that has no description and saving the form stores the text "undefined". */
  lemma UndescribedSlideGainsUndefinedText(st: HeroStore, k: nat, f: HeroForm)
    requires StoreValid(st) && k < |st| && f.description.None?
    requires f.kind == ProductName || f.kind == ComingSoonName
    ensures var out := HeroPut(st, st[k].id, HeroFormBody(f), NoFile, "");
            out.reply.Ok? && out.reply.value.description == Some("undefined")
  {
    var body := HeroFormBody(f);
    assert body.description == Some("undefined");
    PutFound(st, k, body, NoFile, "");
    EditSaves(st[k].value, body, NoFile, "");
  }
}
