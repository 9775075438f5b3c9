/** The shop page's item card: the quantity picker, the buy handler and
    what the card enables. The card's `stock` is the inventory row's stock
    as the page last fetched it. */
module ShopItem {
  import opened Common
  import Text
  import Inventory
  import Shop

  /** The quantity the card starts with and returns to after a purchase. */
  const InitialQuantity: int := 1

  /** `increment`: one more, capped at the stock. */
  function Increment(q: int, stock: int): (r: int)
    ensures r <= stock
    ensures q < stock ==> r == q + 1
    ensures q >= stock ==> r == stock
  {
    if q + 1 < stock then q + 1 else stock
  }

  /** `decrement`: one less, never below 1. */
  function Decrement(q: int): (r: int)
    ensures r >= 1
    ensures q > 1 ==> r == q - 1
    ensures q <= 1 ==> r == 1
  {
    if q - 1 > 1 then q - 1 else 1
  }

  /** `handleInputChange`: text that `parseInt` reads as NaN leaves the
      quantity alone; a number above the stock becomes the stock, one below
      1 becomes 1, anything else is taken as is. */
  function InputChange(q: int, stock: int, text: string): (r: int)
    ensures Text.ParseInt(text).None? ==> r == q
    ensures Text.ParseInt(text).Some? ==>
              var v := Text.ParseInt(text).value;
              && (v > stock ==> r == stock)
              && (v <= stock && v < 1 ==> r == 1)
              && (1 <= v <= stock ==> r == v)
  {
    match Text.ParseInt(text)
    case None => q
    case Some(v) => if v > stock then stock else if v < 1 then 1 else v
  }

  predicate InRange(q: int, stock: int) {
    1 <= q <= stock
  }

  /** With stock on hand, every way of changing the quantity keeps it
      between 1 and the stock. */
  lemma QuantityStaysInRange(q: int, stock: int, text: string)
    requires InRange(q, stock)
    ensures InRange(Increment(q, stock), stock)
    ensures InRange(Decrement(q), stock)
    ensures InRange(InputChange(q, stock, text), stock)
  {
  }

  /** Plus and minus undo each other inside the range. */
  lemma IncrementDecrementInverse(q: int, stock: int)
    ensures 1 <= q < stock ==> Decrement(Increment(q, stock)) == q
    ensures 1 < q <= stock ==> Increment(Decrement(q), stock) == q
  {
  }

  /** Typing the current quantity changes nothing. */
  lemma TypingCurrentQuantity(q: int, stock: int)
    requires InRange(q, stock)
    ensures InputChange(q, stock, Text.IntToString(q)) == q
  {
    Text.ParseIntOfIntToString(q);
  }

  /** The minus button is disabled at `q <= 1`, the plus button at
      `q >= stock`: inside the range, exactly when pressing it would change
      nothing. */
  function MinusDisabled(q: int): bool { q <= 1 }
  function PlusDisabled(q: int, stock: int): bool { q >= stock }

  lemma DisabledExactlyWhenNoOp(q: int, stock: int)
    requires InRange(q, stock)
    ensures MinusDisabled(q) <==> Decrement(q) == q
    ensures PlusDisabled(q, stock) <==> Increment(q, stock) == q
  {
  }

  /** What a click on Buy leads to. */
  datatype BuyOutcome =
    | TooMany            // `Solo hay <stock> unidades disponibles.`
    | NonPositive        // `La cantidad debe ser mayor a 0.`
    | Cancelled          // the confirmation was declined
    | Purchase(items: seq<Shop.PurchaseItem>)

  /** `handleBuy`: more than the stock is refused first, then a
      non-positive quantity; otherwise, once confirmed, one purchase of
      this product and quantity is sent. */
  function HandleBuy(q: int, stock: int, productId: int, confirmed: bool): (r: BuyOutcome)
    ensures r.TooMany? <==> q > stock
    ensures r.NonPositive? <==> q <= stock && q <= 0
    ensures r.Purchase? <==> 0 < q <= stock && confirmed
    ensures r.Purchase? ==> r.items == [Shop.PurchaseItem(productId, q)]
  {
    if q > stock then TooMany
    else if q <= 0 then NonPositive
    else if confirmed then Purchase([Shop.PurchaseItem(productId, q)])
    else Cancelled
  }

  /** A quantity kept in range by the picker always passes both checks. */
  lemma InRangeQuantityPassesChecks(q: int, stock: int, productId: int, confirmed: bool)
    requires InRange(q, stock)
    ensures HandleBuy(q, stock, productId, confirmed).Purchase?
            || HandleBuy(q, stock, productId, confirmed).Cancelled?
  {
  }

  /** A purchase the card sends against an inventory row whose stock is the
      one the card shows goes through, and lowers that stock by the
      quantity. */
  lemma CardPurchaseSucceeds(s: Inventory.Store, userId: int, q: int, productId: int)
    requires productId in s
    requires HandleBuy(q, s[productId].stock, productId, true).Purchase?
    ensures var items := HandleBuy(q, s[productId].stock, productId, true).items;
            var r := Shop.PurchaseProducts(s, userId, items);
            r.result.Ok? && r.store[productId].stock == s[productId].stock - q
  {
    var items := [Shop.PurchaseItem(productId, q)];
    var o := Inventory.ReduceStock(s, productId, q, userId, 0);
    assert o.Ok?;
    assert items[1..] == [];
    assert Shop.ReduceAll(o.value.store, userId, items[1..]).failure.None?;
    assert Shop.ReduceAll(s, userId, items).store == o.value.store;
  }

  /** The card's state: the quantity and whether a purchase is in flight. */
  datatype Card = Card(quantity: int, purchasing: bool)

  /** The purchase starts: the in-flight flag is set. */
  function StartPurchase(c: Card): (r: Card)
    ensures r.purchasing && r.quantity == c.quantity
  {
    c.(purchasing := true)
  }

  /** The purchase settles: the flag clears, and on success the quantity
      goes back to 1. */
  function Settle(c: Card, succeeded: bool): (r: Card)
    ensures !r.purchasing
    ensures succeeded ==> r.quantity == InitialQuantity
    ensures !succeeded ==> r.quantity == c.quantity
  {
    Card(if succeeded then InitialQuantity else c.quantity, false)
  }

  /** Buy is disabled without stock or while a purchase is in flight; the
      quantity controls show only with stock. */
  function BuyDisabled(c: Card, stock: int): bool {
    stock <= 0 || c.purchasing
  }

  function ControlsShown(stock: int): bool {
    stock > 0
  }

  /** While a purchase is in flight Buy cannot be pressed again, and after
      a successful one the quantity is back in range. */
  lemma NoSecondPurchaseWhileInFlight(c: Card, stock: int)
    ensures BuyDisabled(StartPurchase(c), stock)
    ensures stock >= 1 ==> InRange(Settle(StartPurchase(c), true).quantity, stock)
    ensures stock >= 1 ==> !BuyDisabled(Settle(StartPurchase(c), true), stock)
    ensures ControlsShown(stock) <==> !BuyDisabled(Card(c.quantity, false), stock)
  {
  }
}
