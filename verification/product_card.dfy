/** The product tile: its "Add to Cart" button and its image. */
module ProductCard {
  import opened Wrappers
  import opened Strings
  import opened CartStore
  import opened ImageUrl

  /** The catalog fields the storefront reads; prices in minor units. */
  datatype Product = Product(
    id: string,
    name: string,
    description: string,
    price: int,
    stock: int,
    images: seq<string>,
    category: string,
    featured: bool)

  /** `handleAddToCart`: the line the tile adds, a snapshot of the product with quantity one and no packaging. */
  function CartLineOf(p: Product): (item: CartItem)
    ensures item.product == p.id && item.name == p.name
    ensures item.price == p.price && item.stock == p.stock
    ensures item.qty == 1 && item.packaging.None?
    ensures LineTotal(item) == p.price
    ensures |p.images| > 0 ==> item.image == Some(p.images[0])
    ensures |p.images| == 0 ==> item.image.None?
  {
    CartItem(p.id, p.name, if |p.images| > 0 then Some(p.images[0]) else None, p.price, 1, p.stock, None)
  }

  /** The cart after clicking the tile's button `n` times. */
  function Clicks(c: Cart, p: Product, n: nat): Cart {
    if n == 0 then c else AddToCart(Clicks(c, p, n - 1), CartLineOf(p))
  }

  /** However often the button is clicked, the cart holds the product's line once, with quantity one. */
  lemma {:induction false} RepeatedClicksKeepQuantityOne(c: Cart, p: Product, n: nat)
    requires n >= 1
    ensures Clicks(c, p, n) == AddToCart(c, CartLineOf(p))
    ensures forall i :: 0 <= i < |Clicks(c, p, n)| && Clicks(c, p, n)[i].product == p.id ==>
              Clicks(c, p, n)[i].qty == 1
  {
    if n > 1 {
      RepeatedClicksKeepQuantityOne(c, p, n - 1);
      AddToCartIdempotent(c, CartLineOf(p));
    }
  }

  /**
   The tile's image: `None` stands for the "No Image" placeholder shown when
   the product has no first image (or it is empty); otherwise the resolved `src`.
   */
  function CardImage(p: Product, env: Option<string>): (src: Option<string>)
    ensures src.None? <==> |p.images| == 0 || p.images[0] == ""
    ensures src.Some? && StartsWith(p.images[0], "/") ==> src.value == RemoveFirst(ApiUrl(env), ApiSuffix) + p.images[0]
    ensures src.Some? && !StartsWith(p.images[0], "/") ==> src.value == p.images[0]
  {
    if |p.images| == 0 || p.images[0] == "" then None else Some(ResolveImage(p.images[0], env))
  }
}
