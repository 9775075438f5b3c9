/** The inventory service: one stock row per product, keyed by product id
    (the table has a unique constraint on `productId`), and the events each
    operation emits, in emission order.

    Every operation is a read-modify-write of the target product's row. The
    guarded operations (`updateStock`, `reduceStock`) throw before writing
    anything; on their success paths the stock they store is never
    negative. */
module Inventory {
  import opened Common
  import Text
  import Products

  /** The minimum stock of every row the service creates. */
  const DefaultMinStock: int := 5

  /** The message of the NotFound the guarded operations throw for a
      product without a row: `Inventory for product <id> not found`. */
  function MissingInventory(productId: int): (m: string)
    ensures |m| == |"Inventory for product "| + |Text.IntToString(productId)| + |" not found"|
    ensures m[..|"Inventory for product "|] == "Inventory for product "
    ensures Text.ParseInt(m[|"Inventory for product "|..|m| - |" not found"|]) == Some(productId)
  {
    var m := "Inventory for product " + Text.IntToString(productId) + " not found";
    assert m[|"Inventory for product "|..|m| - |" not found"|] == Text.IntToString(productId);
    Text.ParseIntOfIntToString(productId);
    m
  }

  /** The database's error for a row whose `productId` names no product:
      the inventory table's foreign key references `product(id)`. */
  const MissingProduct: string :=
    "insert or update on table \"inventory\" violates foreign key constraint \"FK_c8622e1e24c6d054d36e8824490\""

  datatype Row = Row(stock: int, minStock: int)

  type Store = map<int, Row>

  /** The events the service emits; each constructor's fields are the
      event class's constructor arguments, in order. */
  datatype Event =
    | StockUpdated(productId: int, oldStock: int, newStock: int)
    | StockChanged(productId: int, newStock: int, oldStock: int)
    | StockReplenished(productId: int, quantity: int, userId: int, reason: string)
    | ProductSold(productId: int, quantity: int, userId: int, totalAmount: int)
    | StockLow(productId: int, currentStock: int, minStock: int)
  {
    /** The name the event is emitted under. */
    function Name(): string {
      match this
      case StockUpdated(_, _, _) => "product.stock.updated"
      case StockChanged(_, _, _) => "stock.changed"
      case StockReplenished(_, _, _, _) => "stock.replenished"
      case ProductSold(_, _, _, _) => "product.sold"
      case StockLow(_, _, _) => "product.stock.low"
    }
  }

  /** A successful call: the table afterwards, the row the call returns, and
      the events it emitted. */
  datatype Outcome = Outcome(store: Store, row: Row, events: seq<Event>)

  /** Only the row of `productId` may differ between `s` and `s'`. */
  predicate OnlyTouches(s: Store, s': Store, productId: int) {
    && s'.Keys == s.Keys + {productId}
    && forall k :: k in s && k != productId ==> s'[k] == s[k]
  }

  predicate NonNegative(s: Store) {
    forall k :: k in s ==> s[k].stock >= 0
  }

  /** `checkStockLow`: one `product.stock.low` event exactly when the stock
      is at or below the minimum (inclusive), none otherwise. */
  function CheckStockLow(productId: int, row: Row): (es: seq<Event>)
    ensures |es| <= 1
    ensures |es| == 1 <==> row.stock <= row.minStock
    ensures forall i :: 0 <= i < |es| ==> es[i] == StockLow(productId, row.stock, row.minStock)
  {
    if row.stock <= row.minStock then [StockLow(productId, row.stock, row.minStock)] else []
  }

  /** `createInventory`: a new row with stock 0 and minimum 5, no event. The
      unique key on `productId` rejects a second row for the same product. */
  function CreateInventory(s: Store, productId: int): (r: Result<Outcome>)
    ensures r.Err? <==> productId in s
    ensures r.Ok? ==> r.value.store == s[productId := Row(0, DefaultMinStock)]
    ensures r.Ok? ==> r.value.row == Row(0, DefaultMinStock) && r.value.events == []
  {
    if productId in s then Err(Internal("duplicate key value violates unique constraint"))
    else
      var row := Row(0, DefaultMinStock);
      Ok(Outcome(s[productId := row], row, []))
  }

  /** The `product.created` handler creates the product's inventory row. */
  function HandleProductCreated(s: Store, e: Products.Event): (r: Result<Outcome>)
    ensures e.productId !in s ==>
      && r.Ok?
      && e.productId in r.value.store
      && r.value.store[e.productId] == Row(0, DefaultMinStock)
      && OnlyTouches(s, r.value.store, e.productId)
    ensures e.productId in s ==> r.Err?
  {
    CreateInventory(s, e.productId)
  }

  /** `createAndSetStock`: a new row holding `quantity`, minimum 5, no
      event. `productIds` are the ids of the product table's rows; a
      product id outside it fails the foreign key, an Internal error, and
      nothing is written. */
  function CreateAndSetStock(s: Store, productIds: set<int>, productId: int, quantity: int): (r: Result<Outcome>)
    requires productId !in s
    ensures r.Err? <==> productId !in productIds
    ensures r.Err? ==> r.error == Internal(MissingProduct)
    ensures r.Ok? ==> r.value.row == Row(quantity, DefaultMinStock)
    ensures r.Ok? ==> r.value.store == s[productId := r.value.row]
    ensures r.Ok? ==> r.value.events == []
  {
    if productId !in productIds then Err(Internal(MissingProduct))
    else
      var row := Row(quantity, DefaultMinStock);
      Ok(Outcome(s[productId := row], row, []))
  }

  /** `setStock`: overwrites the stock. A missing row is created holding the
      quantity and nothing is emitted, which fails the foreign key when the
      product does not exist; an existing row keeps its minimum and emits
      `product.stock.updated(productId, old, quantity)`, then the low-stock
      check. */
  function SetStock(s: Store, productIds: set<int>, productId: int, quantity: int): (r: Result<Outcome>)
    ensures r.Err? <==> productId !in s && productId !in productIds
    ensures r.Err? ==> r.error == Internal(MissingProduct)
    ensures r.Ok? ==>
      && OnlyTouches(s, r.value.store, productId)
      && r.value.store[productId] == r.value.row && r.value.row.stock == quantity
    ensures r.Ok? && productId !in s ==> r.value.row.minStock == DefaultMinStock && r.value.events == []
    ensures productId in s ==>
      && r.Ok?
      && r.value.row.minStock == s[productId].minStock
      && |r.value.events| >= 1
      && r.value.events[0] == StockUpdated(productId, s[productId].stock, quantity)
      && r.value.events[1..] == CheckStockLow(productId, r.value.row)
  {
    if productId !in s then CreateAndSetStock(s, productIds, productId, quantity)
    else
      var prev := s[productId];
      var row := prev.(stock := quantity);
      Ok(Outcome(s[productId := row], row,
                 [StockUpdated(productId, prev.stock, quantity)] + CheckStockLow(productId, row)))
  }

  /** `updateStock`: adds a signed change. NotFound when the product has no
      row, BadRequest when the result would be negative; in both cases
      nothing is saved or emitted. On success it emits
      `stock.changed(productId, new, old)`, then the low-stock check. */
  function UpdateStock(s: Store, productId: int, change: int): (r: Result<Outcome>)
    ensures productId !in s ==> r == Err(NotFound(MissingInventory(productId)))
    ensures productId in s && s[productId].stock + change < 0 ==> r == Err(BadRequest("Stock cannot be negative"))
    ensures r.Ok? <==> productId in s && s[productId].stock + change >= 0
    ensures r.Ok? ==>
      && OnlyTouches(s, r.value.store, productId)
      && r.value.store[productId] == r.value.row
      && r.value.row.stock == s[productId].stock + change
      && r.value.row.stock >= 0
      && r.value.row.minStock == s[productId].minStock
      && |r.value.events| >= 1
      && r.value.events[0] == StockChanged(productId, r.value.row.stock, s[productId].stock)
      && r.value.events[1..] == CheckStockLow(productId, r.value.row)
  {
    if productId !in s then Err(NotFound(MissingInventory(productId)))
    else
      var prev := s[productId];
      var newStock := prev.stock + change;
      if newStock < 0 then Err(BadRequest("Stock cannot be negative"))
      else
        var row := prev.(stock := newStock);
        Ok(Outcome(s[productId := row], row,
                   [StockChanged(productId, newStock, prev.stock)] + CheckStockLow(productId, row)))
  }

  /** `replenishStock`: adds the quantity to an existing row and emits
      `stock.replenished(productId, quantity, userId, reason)` then
      `stock.changed`, never a low-stock event. A missing row is created
      holding the quantity and nothing is emitted, which fails the foreign
      key when the product does not exist. */
  function ReplenishStock(s: Store, productIds: set<int>, productId: int, quantity: int, reason: string,
                          userId: int): (r: Result<Outcome>)
    ensures r.Err? <==> productId !in s && productId !in productIds
    ensures r.Err? ==> r.error == Internal(MissingProduct)
    ensures r.Ok? ==> OnlyTouches(s, r.value.store, productId) && r.value.store[productId] == r.value.row
    ensures r.Ok? && productId !in s ==> r.value.row == Row(quantity, DefaultMinStock) && r.value.events == []
    ensures productId in s ==>
      && r.Ok?
      && r.value.row.stock == s[productId].stock + quantity
      && r.value.row.minStock == s[productId].minStock
      && r.value.events == [StockReplenished(productId, quantity, userId, reason),
                            StockChanged(productId, r.value.row.stock, s[productId].stock)]
    ensures r.Ok? ==> forall i :: 0 <= i < |r.value.events| ==> !r.value.events[i].StockLow?
  {
    if productId !in s then CreateAndSetStock(s, productIds, productId, quantity)
    else
      var prev := s[productId];
      var row := prev.(stock := prev.stock + quantity);
      Ok(Outcome(s[productId := row], row,
                 [StockReplenished(productId, quantity, userId, reason),
                  StockChanged(productId, row.stock, prev.stock)]))
  }

  /** `reduceStock`: NotFound when the product has no row, BadRequest when
      the stock is below the quantity; nothing is written or emitted then.
      On success the stock drops by the quantity (and stays non-negative),
      and it emits `product.sold`, `stock.changed`, then `product.stock.low`
      exactly when the new stock is at or below the minimum. */
  function ReduceStock(s: Store, productId: int, quantity: int, userId: int, totalAmount: int): (r: Result<Outcome>)
    ensures productId !in s ==> r == Err(NotFound(MissingInventory(productId)))
    ensures productId in s && s[productId].stock < quantity ==> r == Err(BadRequest("Insufficient stock"))
    ensures r.Ok? <==> productId in s && s[productId].stock >= quantity
    ensures r.Ok? ==>
      && OnlyTouches(s, r.value.store, productId)
      && r.value.store[productId] == r.value.row
      && r.value.row.stock == s[productId].stock - quantity
      && r.value.row.stock >= 0
      && r.value.row.minStock == s[productId].minStock
      && 2 <= |r.value.events| <= 3
      && r.value.events[0] == ProductSold(productId, quantity, userId, totalAmount)
      && r.value.events[1] == StockChanged(productId, r.value.row.stock, s[productId].stock)
      && (|r.value.events| == 3 <==> r.value.row.stock <= r.value.row.minStock)
      && (|r.value.events| == 3 ==>
            r.value.events[2] == StockLow(productId, r.value.row.stock, r.value.row.minStock))
  {
    if productId !in s then Err(NotFound(MissingInventory(productId)))
    else
      var prev := s[productId];
      if prev.stock < quantity then Err(BadRequest("Insufficient stock"))
      else
        var row := prev.(stock := prev.stock - quantity);
        Ok(Outcome(s[productId := row], row,
                   [ProductSold(productId, quantity, userId, totalAmount),
                    StockChanged(productId, row.stock, prev.stock)]
                   + CheckStockLow(productId, row)))
  }

  /** The guarded operations keep a non-negative table non-negative. */
  lemma GuardedOperationsKeepNonNegative(s: Store, productId: int, change: int, quantity: int,
                                         userId: int, totalAmount: int)
    requires NonNegative(s)
    ensures UpdateStock(s, productId, change).Ok? ==> NonNegative(UpdateStock(s, productId, change).value.store)
    ensures ReduceStock(s, productId, quantity, userId, totalAmount).Ok? ==>
              NonNegative(ReduceStock(s, productId, quantity, userId, totalAmount).value.store)
  {
  }

  /** Undoing a stock change with the opposite change restores the table. */
  lemma UpdateStockUndo(s: Store, productId: int, change: int)
    requires productId in s && s[productId].stock >= 0
    requires UpdateStock(s, productId, change).Ok?
    ensures UpdateStock(UpdateStock(s, productId, change).value.store, productId, -change)
            == Ok(Outcome(s, s[productId],
                          [StockChanged(productId, s[productId].stock, s[productId].stock + change)]
                          + CheckStockLow(productId, s[productId])))
  {
    var s1 := UpdateStock(s, productId, change).value.store;
    assert s1[productId := s[productId]] == s;
  }

  /** Replenishing what a sale took restores the table. */
  lemma ReduceThenReplenishRestores(s: Store, productIds: set<int>, productId: int, quantity: int,
                                    userId: int, totalAmount: int, reason: string)
    requires ReduceStock(s, productId, quantity, userId, totalAmount).Ok?
    ensures ReplenishStock(ReduceStock(s, productId, quantity, userId, totalAmount).value.store,
                           productIds, productId, quantity, reason, userId) == Ok(Outcome(s, s[productId],
              [StockReplenished(productId, quantity, userId, reason),
               StockChanged(productId, s[productId].stock, s[productId].stock - quantity)]))
  {
    var s1 := ReduceStock(s, productId, quantity, userId, totalAmount).value.store;
    assert s1[productId := s[productId]] == s;
  }

  /** A non-positive quantity passes `reduceStock`'s guard on any row with
      non-negative stock; a negative one raises the stock instead of
      lowering it. */
  lemma ReduceNegativeQuantityRaisesStock(s: Store, productId: int, quantity: int, userId: int,
                                          totalAmount: int)
    requires productId in s && s[productId].stock >= 0 && quantity < 0
    ensures ReduceStock(s, productId, quantity, userId, totalAmount).Ok?
    ensures ReduceStock(s, productId, quantity, userId, totalAmount).value.row.stock > s[productId].stock
  {
  }

  /** Without the product, no path of `setStock` or `replenishStock` creates
      a row for it: the table is left as it was. */
  lemma NoRowForMissingProduct(s: Store, productIds: set<int>, productId: int, quantity: int,
                               reason: string, userId: int)
    requires productId !in s && productId !in productIds
    ensures SetStock(s, productIds, productId, quantity) == Err(Internal(MissingProduct))
    ensures ReplenishStock(s, productIds, productId, quantity, reason, userId) == Err(Internal(MissingProduct))
  {
  }

  /** Setting a stock and then reading the row back through `updateStock`
      with no change finds exactly the stock that was set. */
  lemma SetStockIsReadBack(s: Store, productIds: set<int>, productId: int, quantity: int)
    requires productId in s || productId in productIds
    requires quantity >= 0
    ensures SetStock(s, productIds, productId, quantity).Ok?
    ensures var s1 := SetStock(s, productIds, productId, quantity).value.store;
            UpdateStock(s1, productId, 0).Ok? && UpdateStock(s1, productId, 0).value.row.stock == quantity
  {
  }
}
