/** The audit listener: it turns `stock.replenished` into an IN movement and
    `product.sold` into an OUT movement, and ignores every other event.

    Together with the inventory service this gives a ledger: for a product
    whose row already exists, the change of its stock over any run of
    replenishments and sales equals the IN quantities minus the OUT
    quantities recorded for it. */
module Audit {
  import opened Common
  import opened Inventory
  import Text

  datatype MovementType = In | Out

  /** One saved inventory movement (its database id and timestamp left out). */
  datatype Movement = Movement(productId: int, quantity: int, kind: MovementType, reason: string, userId: int)

  const SalePrefix: string := "Sale (Total: $"

  /** The reason of a sale movement: `Sale (Total: $<totalAmount>)`. */
  function SaleReason(totalAmount: int): (r: string)
    ensures |r| == |SalePrefix| + |Text.IntToString(totalAmount)| + 1
    ensures r[..|SalePrefix|] == SalePrefix && r[|r| - 1] == ')'
  {
    SalePrefix + Text.IntToString(totalAmount) + ")"
  }

  /** The amount can be read back from a sale reason. */
  lemma SaleReasonCarriesTotal(totalAmount: int)
    ensures var r := SaleReason(totalAmount);
            Text.ParseInt(r[|SalePrefix|..|r| - 1]) == Some(totalAmount)
  {
    var r := SaleReason(totalAmount);
    assert r[|SalePrefix|..|r| - 1] == Text.IntToString(totalAmount);
    Text.ParseIntOfIntToString(totalAmount);
  }

  /** `handleStockReplenished` and `handleProductSold`: the movements the
      listener saves for one event (one for those two events, none for
      any other). */
  function Record(e: Event): (ms: seq<Movement>)
    ensures |ms| <= 1
    ensures |ms| == 1 <==> e.StockReplenished? || e.ProductSold?
    ensures e.StockReplenished? ==> ms == [Movement(e.productId, e.quantity, In, e.reason, e.userId)]
    ensures e.ProductSold? ==>
      ms == [Movement(e.productId, e.quantity, Out, SaleReason(e.totalAmount), e.userId)]
  {
    match e
    case StockReplenished(productId, quantity, userId, reason) =>
      [Movement(productId, quantity, In, reason, userId)]
    case ProductSold(productId, quantity, userId, totalAmount) =>
      [Movement(productId, quantity, Out, SaleReason(totalAmount), userId)]
    case _ => []
  }

  /** The movements saved for a sequence of emitted events, in order. */
  function RecordAll(es: seq<Event>): (ms: seq<Movement>)
    ensures |ms| <= |es|
  {
    if |es| == 0 then [] else Record(es[0]) + RecordAll(es[1..])
  }

  lemma {:induction false} RecordAllAppend(a: seq<Event>, b: seq<Event>)
    ensures RecordAll(a + b) == RecordAll(a) + RecordAll(b)
  {
    if |a| == 0 {
      assert a + b == b;
    } else {
      assert (a + b)[1..] == a[1..] + b;
      RecordAllAppend(a[1..], b);
    }
  }

  /** Signed effect of a movement on the stock of `productId`. */
  function Delta(m: Movement, productId: int): int {
    if m.productId != productId then 0
    else if m.kind == In then m.quantity
    else -m.quantity
  }

  /** Sum of IN quantities minus sum of OUT quantities for `productId`. */
  function Ledger(ms: seq<Movement>, productId: int): int {
    if |ms| == 0 then 0 else Delta(ms[0], productId) + Ledger(ms[1..], productId)
  }

  lemma {:induction false} LedgerAppend(a: seq<Movement>, b: seq<Movement>, productId: int)
    ensures Ledger(a + b, productId) == Ledger(a, productId) + Ledger(b, productId)
  {
    if |a| == 0 {
      assert a + b == b;
    } else {
      assert (a + b)[1..] == a[1..] + b;
      LedgerAppend(a[1..], b, productId);
    }
  }

  /** A call of one of the two operations that move stock with an audit trail. */
  datatype Call =
    | Replenish(productId: int, quantity: int, reason: string, userId: int)
    | Reduce(productId: int, quantity: int, userId: int, totalAmount: int)

  /** The table and the emitted events after one call, given the ids of the
      product table's rows. A call that throws writes and emits nothing. */
  function Apply(s: Store, productIds: set<int>, c: Call): (r: (Store, seq<Event>))
    ensures s.Keys <= r.0.Keys
  {
    match c
    case Replenish(productId, quantity, reason, userId) =>
      (match ReplenishStock(s, productIds, productId, quantity, reason, userId)
       case Ok(o) => (o.store, o.events)
       case Err(_) => (s, []))
    case Reduce(productId, quantity, userId, totalAmount) =>
      match ReduceStock(s, productId, quantity, userId, totalAmount)
      case Ok(o) => (o.store, o.events)
      case Err(_) => (s, [])
  }

  /** The table and all emitted events after a sequence of calls. */
  function Run(s: Store, productIds: set<int>, calls: seq<Call>): (r: (Store, seq<Event>))
    ensures s.Keys <= r.0.Keys
    decreases |calls|
  {
    if |calls| == 0 then (s, [])
    else
      var first := Apply(s, productIds, calls[0]);
      var rest := Run(first.0, productIds, calls[1..]);
      (rest.0, first.1 + rest.1)
  }

  /** A replenishment of an existing row records its quantity as one IN
      movement; one that creates the row records nothing and moves no
      existing stock. */
  lemma ReplenishMatchesLedger(s: Store, productIds: set<int>, p: int, quantity: int, reason: string,
                               userId: int, productId: int)
    requires productId in s
    ensures var r := Apply(s, productIds, Replenish(p, quantity, reason, userId));
            r.0[productId].stock - s[productId].stock == Ledger(RecordAll(r.1), productId)
  {
    var (s1, es) := Apply(s, productIds, Replenish(p, quantity, reason, userId));
    if p in s {
      assert es == [StockReplenished(p, quantity, userId, reason),
                    StockChanged(p, s1[p].stock, s[p].stock)];
      assert RecordAll(es) == [Movement(p, quantity, In, reason, userId)];
    } else {
      assert es == [];
    }
  }

  /** A reduction that goes through records its quantity as one OUT
      movement; the low-stock event after it records nothing. */
  lemma ReduceMatchesLedger(s: Store, productIds: set<int>, p: int, quantity: int, userId: int,
                            totalAmount: int, productId: int)
    requires productId in s
    ensures var r := Apply(s, productIds, Reduce(p, quantity, userId, totalAmount));
            r.0[productId].stock - s[productId].stock == Ledger(RecordAll(r.1), productId)
  {
    var r := ReduceStock(s, p, quantity, userId, totalAmount);
    if r.Ok? {
      var es := r.value.events;
      var tail := es[2..];
      assert es == [es[0], es[1]] + tail;
      assert forall i :: 0 <= i < |tail| ==> tail[i].StockLow?;
      assert RecordAll(tail) == [] by {
        if |tail| == 1 {
          assert tail[1..] == [];
        }
      }
      RecordAllAppend([es[0], es[1]], tail);
      assert RecordAll([es[0], es[1]]) == [Movement(p, quantity, Out, SaleReason(totalAmount), userId)];
    }
  }

  /** One call moves the stock of an existing row by exactly what its
      recorded movements say. */
  lemma ApplyMatchesLedger(s: Store, productIds: set<int>, c: Call, productId: int)
    requires productId in s
    ensures Apply(s, productIds, c).0[productId].stock - s[productId].stock
            == Ledger(RecordAll(Apply(s, productIds, c).1), productId)
  {
    match c
    case Replenish(p, quantity, reason, userId) =>
      ReplenishMatchesLedger(s, productIds, p, quantity, reason, userId, productId);
    case Reduce(p, quantity, userId, totalAmount) =>
      ReduceMatchesLedger(s, productIds, p, quantity, userId, totalAmount, productId);
  }

  /** The ledger property: for a product whose row existed before the run,
      the change of its stock equals IN minus OUT of the recorded movements. */
  lemma {:induction false} LedgerMatchesStock(s: Store, productIds: set<int>, calls: seq<Call>, productId: int)
    requires productId in s
    ensures productId in Run(s, productIds, calls).0
    ensures Run(s, productIds, calls).0[productId].stock - s[productId].stock
            == Ledger(RecordAll(Run(s, productIds, calls).1), productId)
    decreases |calls|
  {
    if |calls| > 0 {
      var first := Apply(s, productIds, calls[0]);
      var rest := Run(first.0, productIds, calls[1..]);
      ApplyMatchesLedger(s, productIds, calls[0], productId);
      LedgerMatchesStock(first.0, productIds, calls[1..], productId);
      RecordAllAppend(first.1, rest.1);
      LedgerAppend(RecordAll(first.1), RecordAll(rest.1), productId);
    }
  }
}
