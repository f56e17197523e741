/**
 The client-side cart: an ordered sequence of lines keyed by product id.
 Adding a product that is already in the cart REPLACES its line (the
 quantities are not summed); removing filters by key; the total is the sum
 over the lines of price × qty plus packaging price × qty. Prices are whole
 minor units (cents).
 */
module CartStore {
  import opened Wrappers

  /** What the packaging selector attaches to a line. */
  datatype Packaging = Packaging(
    boxColor: string,
    innerCloth: string,
    cushion: string,
    ribbonColor: string,
    giftMessage: string,
    packagingPrice: int)

  /** One cart line; `image` is `None` when the product had no first image (JavaScript `undefined`). */
  datatype CartItem = CartItem(
    product: string,
    name: string,
    image: Option<string>,
    price: int,
    qty: int,
    stock: int,
    packaging: Option<Packaging>)

  type Cart = seq<CartItem>

  predicate HasKey(c: Cart, id: string) {
    exists i :: 0 <= i < |c| && c[i].product == id
  }

  /** The invariant the cart operations keep: no two lines share a product id. */
  predicate UniqueKeys(c: Cart) {
    forall i, j :: 0 <= i < j < |c| ==> c[i].product != c[j].product
  }

  /** `items.map(x => x.product === item.product ? item : x)`. */
  function ReplaceLine(c: Cart, item: CartItem): (r: Cart)
    ensures |r| == |c|
    ensures forall i :: 0 <= i < |c| && c[i].product == item.product ==> r[i] == item
    ensures forall i :: 0 <= i < |c| && c[i].product != item.product ==> r[i] == c[i]
  {
    if |c| == 0 then []
    else [if c[0].product == item.product then item else c[0]] + ReplaceLine(c[1..], item)
  }

  /** `addToCart`: upsert by product id. */
  function AddToCart(c: Cart, item: CartItem): (r: Cart)
    ensures HasKey(r, item.product)
    ensures forall i :: 0 <= i < |r| && r[i].product == item.product ==> r[i] == item
    ensures HasKey(c, item.product) ==> |r| == |c|
    ensures HasKey(c, item.product) ==> forall i :: 0 <= i < |c| && c[i].product != item.product ==> r[i] == c[i]
    ensures !HasKey(c, item.product) ==> |r| == |c| + 1 && r[..|c|] == c && r[|c|] == item
  {
    if HasKey(c, item.product) then ReplaceLine(c, item)
    else
      var r := c + [item];
      assert r[|c|].product == item.product;
      r
  }

  /** `removeFromCart`: `items.filter(x => x.product !== id)`. */
  function RemoveFromCart(c: Cart, id: string): (r: Cart)
    ensures !HasKey(r, id)
    ensures |r| <= |c|
    ensures forall x :: x in r <==> x in c && x.product != id
    ensures !HasKey(c, id) ==> r == c
  {
    if |c| == 0 then []
    else if c[0].product == id then RemoveFromCart(c[1..], id)
    else [c[0]] + RemoveFromCart(c[1..], id)
  }

  /** `clearCart`. */
  function ClearCart(): (r: Cart)
    ensures |r| == 0 && TotalPrice(r) == 0
  {
    []
  }

  /** `item.packaging?.packagingPrice || 0`. */
  function PackagingPriceOf(item: CartItem): int {
    match item.packaging
    case None => 0
    case Some(p) => p.packagingPrice
  }

  /** What one line adds to the running total in `totalPrice`. */
  function LineTotal(item: CartItem): int {
    item.price * item.qty + PackagingPriceOf(item) * item.qty
  }

  /** `totalPrice`: the `reduce` from the left, so the last line is added last. */
  function TotalPrice(c: Cart): int {
    if |c| == 0 then 0 else TotalPrice(c[..|c| - 1]) + LineTotal(c[|c| - 1])
  }

  /** The total the design promises: Σ (unit price + packaging price) × qty, summed from the front. */
  function UnitTimesQtySum(c: Cart): int {
    if |c| == 0 then 0
    else (c[0].price + PackagingPriceOf(c[0])) * c[0].qty + UnitTimesQtySum(c[1..])
  }

  /** The total of a concatenation is the sum of the totals. */
  lemma {:induction false} TotalPriceAppend(a: Cart, b: Cart)
    ensures TotalPrice(a + b) == TotalPrice(a) + TotalPrice(b)
    decreases |b|
  {
    if |b| > 0 {
      var b' := b[..|b| - 1];
      assert (a + b)[..|a + b| - 1] == a + b';
      TotalPriceAppend(a, b');
      assert b[..|b| - 1] == b';
    } else {
      assert a + b == a;
    }
  }

  /** `totalPrice` equals Σ (price + packaging price) × qty, exactly. */
  lemma {:induction false} TotalPriceIsUnitTimesQty(c: Cart)
    ensures TotalPrice(c) == UnitTimesQtySum(c)
    decreases |c|
  {
    if |c| > 0 {
      TotalPriceIsUnitTimesQty(c[1..]);
      TotalPriceAppend([c[0]], c[1..]);
      assert [c[0]] + c[1..] == c;
      assert TotalPrice([c[0]]) == LineTotal(c[0]) by {
        assert [c[0]][..0] == [];
      }
    }
  }

  /** The example of the design notes: (100 + 10) × 2 + (50 + 0) × 1 = 270. */
  lemma TotalPriceExample()
    ensures
      var gift := Packaging("", "", "", "", "", 10);
      TotalPrice([CartItem("a", "A", None, 100, 2, 5, Some(gift)),
                  CartItem("b", "B", None, 50, 1, 5, None)]) == 270
  {
    var gift := Packaging("", "", "", "", "", 10);
    var c := [CartItem("a", "A", None, 100, 2, 5, Some(gift)), CartItem("b", "B", None, 50, 1, 5, None)];
    assert c[..1][..0] == [];
    assert TotalPrice(c[..1]) == 220;
    assert c[..|c| - 1] == c[..1];
    assert TotalPrice(c) == TotalPrice(c[..1]) + LineTotal(c[1]);
  }

  /** A one-pass left fold that computes `totalPrice`, as the store's `reduce` does. */
  method ComputeTotal(c: Cart) returns (acc: int)
    ensures acc == UnitTimesQtySum(c)
  {
    acc := 0;
    var i := 0;
    while i < |c|
      invariant 0 <= i <= |c|
      invariant acc == TotalPrice(c[..i])
    {
      assert c[..i + 1][..i] == c[..i];
      acc := acc + LineTotal(c[i]);
      i := i + 1;
    }
    assert c[..|c|] == c;
    TotalPriceIsUnitTimesQty(c);
  }

  /** After an add, exactly one line carries the added key, it is the added line, and keys stay unique. */
  lemma AddToCartKeepsKeysUnique(c: Cart, item: CartItem)
    requires UniqueKeys(c)
    ensures UniqueKeys(AddToCart(c, item))
    ensures exists k :: 0 <= k < |AddToCart(c, item)| && AddToCart(c, item)[k] == item
    ensures forall i, j ::
              (0 <= i < |AddToCart(c, item)| && 0 <= j < |AddToCart(c, item)|
               && AddToCart(c, item)[i].product == item.product
               && AddToCart(c, item)[j].product == item.product) ==> i == j
  {
    var r := AddToCart(c, item);
    if !HasKey(c, item.product) {
      assert r[|c|] == item;
    } else {
      var k :| 0 <= k < |c| && c[k].product == item.product;
      assert r[k] == item;
    }
  }

  /** Adding a product already present keeps every position and replaces only that line. */
  lemma AddExistingReplacesInPlace(c: Cart, item: CartItem, k: nat)
    requires UniqueKeys(c)
    requires k < |c| && c[k].product == item.product
    ensures AddToCart(c, item) == c[k := item]
  {
  }

  /** Adding the same line twice is the same as adding it once: quantities are never summed. */
  lemma AddToCartIdempotent(c: Cart, item: CartItem)
    ensures AddToCart(AddToCart(c, item), item) == AddToCart(c, item)
  {
    var r := AddToCart(c, item);
    var r2 := AddToCart(r, item);
    assert |r2| == |r|;
    forall i | 0 <= i < |r|
      ensures r2[i] == r[i]
    {
    }
  }

  /** Unique keys survive dropping the first line. */
  lemma UniqueKeysTail(c: Cart)
    requires UniqueKeys(c) && |c| > 0
    ensures UniqueKeys(c[1..])
  {
    forall i, j | 0 <= i < j < |c| - 1
      ensures c[1..][i].product != c[1..][j].product
    {
      assert c[1..][i] == c[i + 1] && c[1..][j] == c[j + 1];
    }
  }

  /** Position `i` of a cart with line `k` cut out. */
  lemma CutIndex(c: Cart, k: nat, i: nat)
    requires k < |c| && i < |c| - 1
    ensures (c[..k] + c[k + 1..])[i] == c[if i < k then i else i + 1]
  {
    if i < k {
      assert (c[..k] + c[k + 1..])[i] == c[..k][i];
    } else {
      assert (c[..k] + c[k + 1..])[i] == c[k + 1..][i - k];
    }
  }

  /** Removing the id of the first line, when no later line has it, drops just that line. */
  lemma RemoveHead(c: Cart, id: string)
    requires |c| > 0 && c[0].product == id
    requires forall j :: 1 <= j < |c| ==> c[j].product != id
    ensures RemoveFromCart(c, id) == c[1..]
  {
    assert !HasKey(c[1..], id) by {
      forall j | 0 <= j < |c[1..]|
        ensures c[1..][j].product != id
      {
        assert c[1..][j] == c[j + 1];
      }
    }
  }

  /** Cutting line k out of a cart, seen from its tail. */
  lemma CutCons(c: Cart, k: nat)
    requires 0 < k < |c|
    ensures [c[0]] + (c[1..][..k - 1] + c[1..][k..]) == c[..k] + c[k + 1..]
  {
    assert c[1..][..k - 1] == c[1..k];
    assert c[1..][k..] == c[k + 1..];
    assert c[..k] == [c[0]] + c[1..k];
  }

  /** With unique keys, removing a present id cuts out exactly its line, keeping the others in order. */
  lemma {:induction false} RemoveFromCartCutsLine(c: Cart, k: nat)
    requires UniqueKeys(c)
    requires k < |c|
    ensures RemoveFromCart(c, c[k].product) == c[..k] + c[k + 1..]
    decreases |c|
  {
    var id := c[k].product;
    if k == 0 {
      RemoveHead(c, id);
      assert c[..0] + c[1..] == c[1..];
    } else {
      assert c[0].product != id;
      UniqueKeysTail(c);
      assert c[1..][k - 1] == c[k];
      RemoveFromCartCutsLine(c[1..], k - 1);
      CutCons(c, k);
    }
  }

  /** Removing keeps the keys unique. */
  lemma RemoveFromCartKeepsKeysUnique(c: Cart, id: string)
    requires UniqueKeys(c)
    ensures UniqueKeys(RemoveFromCart(c, id))
  {
    if HasKey(c, id) {
      var k :| 0 <= k < |c| && c[k].product == id;
      RemoveFromCartCutsLine(c, k);
      var r := RemoveFromCart(c, id);
      forall i, j | 0 <= i < j < |r|
        ensures r[i].product != r[j].product
      {
        CutIndex(c, k, i);
        CutIndex(c, k, j);
      }
    }
  }

  /** The total splits around any line. */
  lemma TotalPriceAround(c: Cart, k: nat)
    requires k < |c|
    ensures TotalPrice(c) == TotalPrice(c[..k]) + LineTotal(c[k]) + TotalPrice(c[k + 1..])
  {
    assert c == (c[..k] + [c[k]]) + c[k + 1..];
    TotalPriceAppend(c[..k] + [c[k]], c[k + 1..]);
    assert (c[..k] + [c[k]])[..k] == c[..k];
  }

  /** Removing a present line lowers the total by exactly that line's contribution. */
  lemma RemoveFromCartTotal(c: Cart, k: nat)
    requires UniqueKeys(c)
    requires k < |c|
    ensures TotalPrice(RemoveFromCart(c, c[k].product)) == TotalPrice(c) - LineTotal(c[k])
  {
    RemoveFromCartCutsLine(c, k);
    TotalPriceAround(c, k);
    TotalPriceAppend(c[..k], c[k + 1..]);
  }

  /** Adding a new product raises the total by its line; replacing swaps the old line's share for the new one's. */
  lemma AddToCartTotal(c: Cart, item: CartItem)
    requires UniqueKeys(c)
    ensures !HasKey(c, item.product) ==> TotalPrice(AddToCart(c, item)) == TotalPrice(c) + LineTotal(item)
    ensures forall k :: 0 <= k < |c| && c[k].product == item.product ==>
              TotalPrice(AddToCart(c, item)) == TotalPrice(c) - LineTotal(c[k]) + LineTotal(item)
  {
    if !HasKey(c, item.product) {
      assert (c + [item])[..|c|] == c;
    }
    forall k | 0 <= k < |c| && c[k].product == item.product
      ensures TotalPrice(AddToCart(c, item)) == TotalPrice(c) - LineTotal(c[k]) + LineTotal(item)
    {
      AddExistingReplacesInPlace(c, item, k);
      var r := c[k := item];
      TotalPriceAround(c, k);
      TotalPriceAround(r, k);
      assert r[..k] == c[..k];
      assert r[k + 1..] == c[k + 1..];
    }
  }
}
