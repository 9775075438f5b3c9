/** The dashboard service: statistics, the low-stock list and the movement
    history, each scoped by the viewer's roles. Admins and merchants see
    every movement; anyone else sees only their own. Role names are
    compared after lowercasing. */
module Dashboard {
  import opened Common
  import Lists
  import Text
  import Products
  import Inventory
  import Audit

  /** The lowercase role names the service tests for. */
  const AdminName: string := "admin"
  const MerchantName: string := "merchant"

  /** The most movements the history returns. */
  const HistoryLimit: nat := 50

  /** The requesting user: their id and the names of their roles. */
  datatype Viewer = Viewer(id: int, roleNames: seq<string>)

  /** `user.roles.map((r) => r.name.toLowerCase())`. */
  function LoweredRoles(v: Viewer): (r: seq<string>)
    ensures |r| == |v.roleNames|
    ensures forall i :: 0 <= i < |r| ==> r[i] == Text.Lower(v.roleNames[i])
  {
    seq(|v.roleNames|, i requires 0 <= i < |v.roleNames| => Text.Lower(v.roleNames[i]))
  }

  predicate IsAdmin(v: Viewer) {
    AdminName in LoweredRoles(v)
  }

  predicate IsMerchant(v: Viewer) {
    MerchantName in LoweredRoles(v)
  }

  /** Role names match whatever their letter case. */
  lemma AdminWhateverTheCase(v: Viewer, i: int)
    requires 0 <= i < |v.roleNames| && Text.Lower(v.roleNames[i]) == AdminName
    ensures IsAdmin(v)
  {
    assert LoweredRoles(v)[i] == AdminName;
  }

  /** `productCount`: the non-deleted products, and for anyone but an admin
      only the active ones; that is, as many products as the catalogue
      lists for the viewer with inactive ones shown to admins only. */
  function ProductCount(products: Products.Table, v: Viewer): (n: nat)
    ensures n == |Products.FindAll(products, IsAdmin(v), false)|
  {
    var counted := (p: Products.Product) => !p.deleted && (IsAdmin(v) || p.isActive);
    Lists.CountIsFilterLength(products, counted);
    Lists.FilterAgreeing(products, counted, p => Products.Listed(p, IsAdmin(v), false));
    Lists.Count(products, counted)
  }

  /** The movements the viewer's queries run over. */
  function MovementScope(ms: seq<Audit.Movement>, v: Viewer): (r: seq<Audit.Movement>)
    ensures IsAdmin(v) || IsMerchant(v) ==> r == ms
    ensures !IsAdmin(v) && !IsMerchant(v) ==>
              && (forall i :: 0 <= i < |r| ==> r[i] in ms && r[i].userId == v.id)
              && (forall i :: 0 <= i < |ms| && ms[i].userId == v.id ==> ms[i] in r)
    ensures Lists.IsSubsequence(r, ms)
  {
    if IsAdmin(v) || IsMerchant(v) then
      Lists.FilterKeepsAll(ms, (m: Audit.Movement) => true);
      ms
    else Lists.Filter(ms, (m: Audit.Movement) => m.userId == v.id)
  }

  function IsOut(m: Audit.Movement): bool {
    m.kind == Audit.Out
  }

  /** Sum of the quantities of the OUT movements. */
  function SumOut(ms: seq<Audit.Movement>): int {
    if |ms| == 0 then 0 else (if IsOut(ms[0]) then ms[0].quantity else 0) + SumOut(ms[1..])
  }

  /** `parseInt(x, 10) || 0`: NaN and 0 both give 0. */
  function ParseOrZero(raw: Option<string>): (n: int)
    ensures raw.Some? && Text.ParseInt(raw.value).Some? ==> n == Text.ParseInt(raw.value).value
    ensures raw.Some? && Text.ParseInt(raw.value).None? ==> n == 0
    ensures raw.None? ==> n == 0
  {
    match raw
    case None => 0
    case Some(s) =>
      match Text.ParseInt(s)
      case None => 0
      case Some(v) => v
  }

  /** The raw row of the sales query: `COUNT` is always a number, `SUM` is
      NULL when no row matches; the driver hands both over as strings. */
  datatype RawSales = RawSales(totalOrders: Option<string>, totalVentas: Option<string>)

  function SalesQuery(scope: seq<Audit.Movement>): (r: RawSales)
    ensures r.totalOrders.Some?
    ensures r.totalVentas.None? <==> Lists.Count(scope, IsOut) == 0
  {
    var n := Lists.Count(scope, IsOut);
    RawSales(Some(Text.IntToString(n)), if n == 0 then None else Some(Text.IntToString(SumOut(scope))))
  }

  datatype Stats = Stats(productCount: nat, totalMovements: int, totalVentas: int, totalOrders: int,
                         role: seq<string>)

  /** `getStats` without the seven-day chart series. */
  function GetStats(products: Products.Table, ms: seq<Audit.Movement>, v: Viewer): (r: Stats)
    ensures r.productCount == ProductCount(products, v)
    ensures r.totalMovements == r.totalOrders
    ensures r.role == LoweredRoles(v)
  {
    var raw := SalesQuery(MovementScope(ms, v));
    var orders := ParseOrZero(raw.totalOrders);
    Stats(ProductCount(products, v), orders, ParseOrZero(raw.totalVentas), orders, LoweredRoles(v))
  }

  /** The sales figures are the number of OUT movements in scope and the
      sum of their quantities, both 0 when there are none. */
  lemma StatsCountSales(products: Products.Table, ms: seq<Audit.Movement>, v: Viewer)
    ensures var scope := MovementScope(ms, v);
            var r := GetStats(products, ms, v);
            && r.totalOrders == Lists.Count(scope, IsOut)
            && r.totalVentas == SumOut(scope)
  {
    var scope := MovementScope(ms, v);
    if Lists.Count(scope, IsOut) == 0 {
      SumOutWithoutSales(scope);
    }
    Text.ParseIntOfIntToString(Lists.Count(scope, IsOut));
    Text.ParseIntOfIntToString(SumOut(scope));
  }

  /** With no OUT movement the sum is 0, which is what the NULL of `SUM`
      turns into. */
  lemma {:induction false} SumOutWithoutSales(ms: seq<Audit.Movement>)
    requires Lists.Count(ms, IsOut) == 0
    ensures SumOut(ms) == 0
  {
    if |ms| > 0 {
      SumOutWithoutSales(ms[1..]);
    }
  }

  /** The product of an inventory row is listed, not deleted and active. */
  predicate ActiveProduct(products: Products.Table, productId: int) {
    exists i :: 0 <= i < |products| && products[i].id == productId && !products[i].deleted && products[i].isActive
  }

  /** `getLowStock`: nothing for a viewer who is neither admin nor
      merchant; otherwise the rows at or below their minimum whose product
      is active. */
  function GetLowStock(store: Inventory.Store, products: Products.Table, v: Viewer): (r: map<int, Inventory.Row>)
    ensures !IsAdmin(v) && !IsMerchant(v) ==> r == map[]
    ensures IsAdmin(v) || IsMerchant(v) ==>
              forall pid :: pid in r <==>
                pid in store && store[pid].stock <= store[pid].minStock && ActiveProduct(products, pid)
    ensures forall pid :: pid in r ==> pid in store && r[pid] == store[pid]
  {
    if !IsAdmin(v) && !IsMerchant(v) then map[]
    else map pid | pid in store && store[pid].stock <= store[pid].minStock && ActiveProduct(products, pid)
                 :: store[pid]
  }

  /** A row becomes low after a sale exactly when the sale emitted a
      low-stock event, so the list shows the rows the events announced. */
  lemma LowStockAfterSale(store: Inventory.Store, products: Products.Table, v: Viewer, productId: int,
                          quantity: int, userId: int, totalAmount: int)
    requires IsAdmin(v) && ActiveProduct(products, productId)
    requires Inventory.ReduceStock(store, productId, quantity, userId, totalAmount).Ok?
    ensures var o := Inventory.ReduceStock(store, productId, quantity, userId, totalAmount).value;
            productId in GetLowStock(o.store, products, v) <==> |o.events| == 3
  {
  }

  /** `getHistory`: newest first, at most 50, from the viewer's scope. The
      movements are kept in insertion order, so newest first is the
      reverse of that order. */
  function GetHistory(ms: seq<Audit.Movement>, v: Viewer): (r: seq<Audit.Movement>)
    ensures |r| <= HistoryLimit
    ensures var scope := MovementScope(ms, v);
            && |r| == (if |scope| <= HistoryLimit then |scope| else HistoryLimit)
            && forall i :: 0 <= i < |r| ==> r[i] == scope[|scope| - 1 - i]
    ensures !IsAdmin(v) && !IsMerchant(v) ==> forall i :: 0 <= i < |r| ==> r[i].userId == v.id
  {
    Lists.Take(Lists.Reverse(MovementScope(ms, v)), HistoryLimit)
  }
}
