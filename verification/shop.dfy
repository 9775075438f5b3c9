/** The shop service: a purchase reduces the stock of each item in turn
    through the inventory service, with a total amount of 0, and stops at
    the first item that fails.

    The purchase opens a query runner and commits or rolls back, but the
    reductions never run on that runner: each one is saved on its own, so a
    rollback after a failure leaves the reductions of the earlier items in
    place. The runner is modelled as the trace of calls made on it. */
module Shop {
  import opened Common
  import opened Inventory
  import Text
  import Audit

  datatype PurchaseItem = PurchaseItem(productId: int, quantity: int)

  /** The calls made on the query runner. */
  datatype RunnerCall = Connect | StartTransaction | CommitTransaction | RollbackTransaction | Release

  /** Where the loop over the items stopped: the table, the events emitted
      so far, the rows returned so far, and the error of the failing item
      (`None` when every item went through). */
  datatype Progress = Progress(store: Store, events: seq<Event>, rows: seq<Row>, failure: Option<Error>)

  /** The loop of `purchaseProducts`: `reduceStock(productId, quantity,
      userId, 0)` for each item in order, stopping at the first error. */
  function ReduceAll(s: Store, userId: int, items: seq<PurchaseItem>): (p: Progress)
    ensures |p.rows| <= |items|
    ensures p.failure.None? ==> |p.rows| == |items|
    ensures p.store.Keys == s.Keys
    ensures forall i :: 0 <= i < |p.events| && p.events[i].ProductSold? ==>
              p.events[i].totalAmount == 0 && p.events[i].userId == userId
  {
    if |items| == 0 then Progress(s, [], [], None)
    else
      match ReduceStock(s, items[0].productId, items[0].quantity, userId, 0)
      case Err(e) => Progress(s, [], [], Some(e))
      case Ok(o) =>
        var rest := ReduceAll(o.store, userId, items[1..]);
        Progress(rest.store, o.events + rest.events, [o.row] + rest.rows, rest.failure)
  }

  /** The outcome of a purchase: the rows returned or the error rethrown,
      the table and events it leaves behind, and the query-runner trace. */
  datatype Purchase = Purchase(result: Result<seq<Row>>, store: Store, events: seq<Event>, trace: seq<RunnerCall>)

  /** `purchaseProducts`: commit and return the rows when every item went
      through; otherwise roll back and rethrow the first error. The runner
      is released on both paths. */
  function PurchaseProducts(s: Store, userId: int, items: seq<PurchaseItem>): (r: Purchase)
    ensures r.result.Ok? ==> r.trace == [Connect, StartTransaction, CommitTransaction, Release]
    ensures r.result.Err? ==> r.trace == [Connect, StartTransaction, RollbackTransaction, Release]
    ensures r.result.Ok? ==> |r.result.value| == |items|
    ensures r.store.Keys == s.Keys
  {
    var p := ReduceAll(s, userId, items);
    match p.failure
    case None => Purchase(Ok(p.rows), p.store, p.events, [Connect, StartTransaction, CommitTransaction, Release])
    case Some(e) => Purchase(Err(e), p.store, p.events, [Connect, StartTransaction, RollbackTransaction, Release])
  }

  /** The inventory calls a purchase makes, one per item. They are all
      reductions, which never consult the product table, so the runs below
      are given no product ids. */
  function Calls(userId: int, items: seq<PurchaseItem>): (cs: seq<Audit.Call>)
    ensures |cs| == |items|
    ensures forall i :: 0 <= i < |items| ==>
              cs[i] == Audit.Reduce(items[i].productId, items[i].quantity, userId, 0)
  {
    seq(|items|, i requires 0 <= i < |items| => Audit.Reduce(items[i].productId, items[i].quantity, userId, 0))
  }

  /** A loop that went through every item left the table and events of
      the reductions run one after the other. */
  lemma {:induction false} ReduceAllIsRun(s: Store, userId: int, items: seq<PurchaseItem>)
    requires ReduceAll(s, userId, items).failure.None?
    ensures var p := ReduceAll(s, userId, items);
            var run := Audit.Run(s, {}, Calls(userId, items));
            p.store == run.0 && p.events == run.1
    decreases |items|
  {
    if |items| > 0 {
      var o := ReduceStock(s, items[0].productId, items[0].quantity, userId, 0).value;
      ReduceAllIsRun(o.store, userId, items[1..]);
      assert Calls(userId, items)[1..] == Calls(userId, items[1..]);
    }
  }

  /** In such a loop, the row returned for item `i` is the row its
      reduction returned, on the table the earlier items left. */
  lemma {:induction false} ReduceAllRowAt(s: Store, userId: int, items: seq<PurchaseItem>, i: nat)
    requires ReduceAll(s, userId, items).failure.None?
    requires i < |items|
    ensures var before := Audit.Run(s, {}, Calls(userId, items[..i])).0;
            var step := ReduceStock(before, items[i].productId, items[i].quantity, userId, 0);
            step.Ok? && ReduceAll(s, userId, items).rows[i] == step.value.row
    decreases i
  {
    if i == 0 {
      assert items[..0] == [];
    } else {
      var o := ReduceStock(s, items[0].productId, items[0].quantity, userId, 0).value;
      ReduceAllRowAt(o.store, userId, items[1..], i - 1);
      assert items[..i][1..] == items[1..][..i - 1];
      assert Calls(userId, items[..i])[1..] == Calls(userId, items[1..][..i - 1]);
    }
  }

  /** A successful purchase leaves exactly the table and events of the
      reductions run one after the other, and returns, for each item, the
      row that item's reduction returned. */
  lemma PurchaseSuccessIsSequentialReduction(s: Store, userId: int, items: seq<PurchaseItem>)
    requires PurchaseProducts(s, userId, items).result.Ok?
    ensures var r := PurchaseProducts(s, userId, items);
            var run := Audit.Run(s, {}, Calls(userId, items));
            r.store == run.0 && r.events == run.1
    ensures forall i :: 0 <= i < |items| ==>
              var before := Audit.Run(s, {}, Calls(userId, items[..i])).0;
              var step := ReduceStock(before, items[i].productId, items[i].quantity, userId, 0);
              step.Ok? && PurchaseProducts(s, userId, items).result.value[i] == step.value.row
  {
    ReduceAllIsRun(s, userId, items);
    forall i | 0 <= i < |items|
      ensures var before := Audit.Run(s, {}, Calls(userId, items[..i])).0;
              var step := ReduceStock(before, items[i].productId, items[i].quantity, userId, 0);
              step.Ok? && PurchaseProducts(s, userId, items).result.value[i] == step.value.row
    {
      ReduceAllRowAt(s, userId, items, i);
    }
  }

  /** A failed purchase tried the items up to the failing one and no
      further: it leaves the table and events of the reductions before it
      (which the rollback does not undo) and rethrows that item's error. */
  lemma {:induction false} PurchaseStopsAtFirstFailure(s: Store, userId: int, items: seq<PurchaseItem>)
    returns (k: nat)
    requires PurchaseProducts(s, userId, items).result.Err?
    ensures k < |items|
    ensures var r := PurchaseProducts(s, userId, items);
            var run := Audit.Run(s, {}, Calls(userId, items[..k]));
            && r.store == run.0 && r.events == run.1
            && ReduceStock(run.0, items[k].productId, items[k].quantity, userId, 0) == Err(r.result.error)
    decreases |items|
  {
    var first := ReduceStock(s, items[0].productId, items[0].quantity, userId, 0);
    if first.Err? {
      k := 0;
      assert items[..0] == [];
    } else {
      var k' := PurchaseStopsAtFirstFailure(first.value.store, userId, items[1..]);
      k := k' + 1;
      assert items[..k][1..] == items[1..][..k'];
      assert Calls(userId, items[..k])[1..] == Calls(userId, items[1..][..k']);
    }
  }

  /** Items after the failing one are never looked at. */
  lemma {:induction false} PurchaseIgnoresItemsAfterFailure(s: Store, userId: int, items: seq<PurchaseItem>,
                                                             more: seq<PurchaseItem>)
    requires PurchaseProducts(s, userId, items).result.Err?
    ensures PurchaseProducts(s, userId, items + more) == PurchaseProducts(s, userId, items)
    decreases |items|
  {
    assert (items + more)[0] == items[0];
    var first := ReduceStock(s, items[0].productId, items[0].quantity, userId, 0);
    if first.Ok? {
      assert (items + more)[1..] == items[1..] + more;
      PurchaseIgnoresItemsAfterFailure(first.value.store, userId, items[1..], more);
    }
  }

  /** Total quantity the items order of `productId`. */
  function Ordered(items: seq<PurchaseItem>, productId: int): int {
    if |items| == 0 then 0
    else (if items[0].productId == productId then items[0].quantity else 0) + Ordered(items[1..], productId)
  }

  /** After a successful purchase every product's stock is lower by exactly
      the total quantity ordered of it. */
  lemma {:induction false} PurchaseLowersStockByOrdered(s: Store, userId: int, items: seq<PurchaseItem>)
    requires PurchaseProducts(s, userId, items).result.Ok?
    ensures forall pid :: pid in s ==>
              PurchaseProducts(s, userId, items).store[pid].stock == s[pid].stock - Ordered(items, pid)
    decreases |items|
  {
    if |items| > 0 {
      var o := ReduceStock(s, items[0].productId, items[0].quantity, userId, 0).value;
      PurchaseLowersStockByOrdered(o.store, userId, items[1..]);
    }
  }

  /** A failed purchase keeps the reductions made before the failure: one
      unit bought of a product with three in stock, then one of a product
      without a row, fails with that product's not-found message and leaves
      two in stock. */
  lemma RollbackKeepsEarlierReductions()
    ensures var s := map[1 := Row(3, DefaultMinStock)];
            var r := PurchaseProducts(s, 7, [PurchaseItem(1, 1), PurchaseItem(2, 1)]);
            r.result == Err(NotFound("Inventory for product 2 not found")) && r.store[1].stock == 2
  {
    var s := map[1 := Row(3, DefaultMinStock)];
    var items := [PurchaseItem(1, 1), PurchaseItem(2, 1)];
    var o := ReduceStock(s, 1, 1, 7, 0).value;
    assert o.store == map[1 := Row(2, DefaultMinStock)];
    assert items[1..] == [PurchaseItem(2, 1)];
    assert Text.IntToString(2) == "2" by {
      assert Text.DigitChar(2) == '2';
    }
    assert MissingInventory(2) == "Inventory for product 2 not found";
    assert ReduceAll(o.store, 7, items[1..]).failure == Some(NotFound("Inventory for product 2 not found"));
  }
}
