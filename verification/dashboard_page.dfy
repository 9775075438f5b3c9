/** The dashboard page: which dashboard it shows, whether it asks for the
    low-stock list, and which of its queries a server-sent event makes it
    fetch again. */
module DashboardPage {
  import opened Common
  import Text
  import JsValue
  import Products
  import Inventory
  import Dashboard

  /** The signed-in user, with the role names the page compares. */
  type User = Option<Dashboard.Viewer>

  /** Some role, lowercased, is `name`. */
  predicate SomeRoleIs(user: User, name: string) {
    user.Some? && exists i :: 0 <= i < |user.value.roleNames| && Text.Lower(user.value.roleNames[i]) == name
  }

  /** `enabled` of the low-stock query: some role, lowercased, is admin or
      merchant. Without a user the option is `undefined`, which the query
      library treats like an absent option: the query runs. */
  predicate LowStockEnabled(user: User) {
    || user.None?
    || (exists i :: 0 <= i < |user.value.roleNames| &&
          (Text.Lower(user.value.roleNames[i]) == Dashboard.AdminName
           || Text.Lower(user.value.roleNames[i]) == Dashboard.MerchantName))
  }

  /** The page and the service agree on who is admin or merchant. */
  lemma RoleTestsAgreeWithService(user: User)
    requires user.Some?
    ensures SomeRoleIs(user, Dashboard.AdminName) <==> Dashboard.IsAdmin(user.value)
    ensures SomeRoleIs(user, Dashboard.MerchantName) <==> Dashboard.IsMerchant(user.value)
    ensures LowStockEnabled(user) <==> Dashboard.IsAdmin(user.value) || Dashboard.IsMerchant(user.value)
  {
    var lowered := Dashboard.LoweredRoles(user.value);
    if Dashboard.IsAdmin(user.value) {
      var i :| 0 <= i < |lowered| && lowered[i] == Dashboard.AdminName;
      assert Text.Lower(user.value.roleNames[i]) == Dashboard.AdminName;
    }
    if Dashboard.IsMerchant(user.value) {
      var i :| 0 <= i < |lowered| && lowered[i] == Dashboard.MerchantName;
      assert Text.Lower(user.value.roleNames[i]) == Dashboard.MerchantName;
    }
    if SomeRoleIs(user, Dashboard.AdminName) {
      var i :| 0 <= i < |user.value.roleNames| && Text.Lower(user.value.roleNames[i]) == Dashboard.AdminName;
      Dashboard.AdminWhateverTheCase(user.value, i);
    }
    if SomeRoleIs(user, Dashboard.MerchantName) {
      var i :| 0 <= i < |user.value.roleNames| && Text.Lower(user.value.roleNames[i]) == Dashboard.MerchantName;
      assert lowered[i] == Dashboard.MerchantName;
    }
    if LowStockEnabled(user) {
      var i :| 0 <= i < |user.value.roleNames| &&
        (Text.Lower(user.value.roleNames[i]) == Dashboard.AdminName
         || Text.Lower(user.value.roleNames[i]) == Dashboard.MerchantName);
      assert lowered[i] == Text.Lower(user.value.roleNames[i]);
    }
  }

  /** The low-stock list is fetched for admins and merchants, never for a
      signed-in customer, and also while no user is known. */
  lemma LowStockFetchedUnlessCustomer(user: User)
    ensures LowStockEnabled(user) <==>
              user.None? || Dashboard.IsAdmin(user.value) || Dashboard.IsMerchant(user.value)
  {
    if user.Some? {
      RoleTestsAgreeWithService(user);
    }
  }

  datatype View = Loading | LoadFailed | AdminView | MerchantView | CustomerView

  /** What the page renders: the loading text while statistics or history
      load, the failure text without statistics, and then the dashboard of
      the highest role: admin, then merchant, then customer. */
  function Render(user: User, statsLoading: bool, historyLoading: bool, statsLoaded: bool): (v: View)
    ensures v == Loading <==> statsLoading || historyLoading
    ensures v == LoadFailed <==> !statsLoading && !historyLoading && !statsLoaded
    ensures v == AdminView <==>
              !statsLoading && !historyLoading && statsLoaded && SomeRoleIs(user, Dashboard.AdminName)
    ensures v == MerchantView <==>
              !statsLoading && !historyLoading && statsLoaded
              && !SomeRoleIs(user, Dashboard.AdminName) && SomeRoleIs(user, Dashboard.MerchantName)
  {
    if statsLoading || historyLoading then Loading
    else if !statsLoaded then LoadFailed
    else if SomeRoleIs(user, Dashboard.AdminName) then AdminView
    else if SomeRoleIs(user, Dashboard.MerchantName) then MerchantView
    else CustomerView
  }

  /** Once loaded, the customer dashboard shows exactly for the users the
      service treats as customers: their low-stock list is empty and the
      query for it is never sent. */
  lemma CustomerViewMatchesServiceScope(user: User, store: Inventory.Store, products: Products.Table)
    requires user.Some?
    ensures Render(user, false, false, true) == CustomerView <==>
              !Dashboard.IsAdmin(user.value) && !Dashboard.IsMerchant(user.value)
    ensures Render(user, false, false, true) == CustomerView ==>
              !LowStockEnabled(user) && Dashboard.GetLowStock(store, products, user.value) == map[]
  {
    RoleTestsAgreeWithService(user);
  }

  /** The queries an event can make the page fetch again. */
  datatype Query = StatsQuery | HistoryQuery | LowStockQuery

  const AllQueries: set<Query> := {StatsQuery, HistoryQuery, LowStockQuery}

  /** `parsedData.data || parsedData`: a TypeError (`None`) for a message
      that parses to null. */
  function Unwrap(parsed: JsValue.Value): (r: Option<JsValue.Value>)
    ensures r.None? <==> JsValue.Nullish(parsed)
    ensures r.Some? && !JsValue.Truthy(JsValue.Get(parsed, "data")) ==> r.value == parsed
  {
    match JsValue.Member(parsed, "data")
    case None => None
    case Some(d) => Some(if JsValue.Truthy(d) then d else parsed)
  }

  /** The refetches for an event type: a sale, a replenishment or a stock
      change refresh everything, a new product only the statistics, and
      anything else nothing. */
  function Route(eventType: JsValue.Value): (r: set<Query>)
    ensures r == AllQueries <==>
              eventType in {JsValue.Str("product.sold"), JsValue.Str("stock.replenished"), JsValue.Str("stock.changed")}
    ensures r == {StatsQuery} <==> eventType == JsValue.Str("product.created")
    ensures r == {} <==>
              eventType !in {JsValue.Str("product.sold"), JsValue.Str("stock.replenished"),
                             JsValue.Str("stock.changed"), JsValue.Str("product.created")}
  {
    if eventType == JsValue.Str("product.sold") then AllQueries
    else if eventType == JsValue.Str("stock.replenished") then AllQueries
    else if eventType == JsValue.Str("stock.changed") then AllQueries
    else if eventType == JsValue.Str("product.created") then {StatsQuery}
    else {}
  }

  /** `onmessage`: the message text parsed (`None` when `JSON.parse`
      throws), unwrapped, and routed by its `type`; any exception on the
      way is caught and nothing is fetched. */
  function OnMessage(parsed: Option<JsValue.Value>): (r: set<Query>)
    ensures r == {} || r == {StatsQuery} || r == AllQueries
    ensures parsed.None? ==> r == {}
    ensures LowStockQuery in r <==> HistoryQuery in r
  {
    match parsed
    case None => {}
    case Some(p) =>
      match Unwrap(p)
      case None => {}
      case Some(e) => Route(JsValue.Get(e, "type"))
  }

  /** The names of the events the server streams to the page. */
  const StreamedNames: set<string> := {"product.created", "product.sold", "stock.replenished", "stock.changed"}

  /** The object the stream's `data` field carries for an event. */
  function Streamed(name: string, payload: JsValue.Value): (m: JsValue.Value)
    ensures JsValue.Get(m, "type") == JsValue.Str(name)
  {
    JsValue.Obj(map["type" := JsValue.Str(name), "payload" := payload])
  }

  /** The page routes an event the same whether the transport delivers the
      stream's `data` object itself or an envelope holding it under `data`. */
  lemma UnwrapAcceptsBothShapes(name: string, payload: JsValue.Value)
    ensures OnMessage(Some(Streamed(name, payload)))
            == OnMessage(Some(JsValue.Obj(map["data" := Streamed(name, payload)])))
  {
    assert JsValue.Get(Streamed(name, payload), "data") == JsValue.Undefined;
  }

  /** Every inventory event the server streams refreshes the whole
      dashboard; the others never reach the page. */
  lemma InventoryEventsRefreshEverything(e: Inventory.Event, payload: JsValue.Value)
    ensures e.Name() in StreamedNames <==> e.StockChanged? || e.StockReplenished? || e.ProductSold?
    ensures e.Name() in StreamedNames ==> OnMessage(Some(Streamed(e.Name(), payload))) == AllQueries
  {
    assert JsValue.Get(Streamed(e.Name(), payload), "data") == JsValue.Undefined;
  }

  /** A new product refreshes the statistics only. */
  lemma ProductCreatedRefreshesStats(payload: JsValue.Value)
    ensures OnMessage(Some(Streamed("product.created", payload))) == {StatsQuery}
  {
    assert JsValue.Get(Streamed("product.created", payload), "data") == JsValue.Undefined;
  }

  /** Every sale streams an event that refreshes the low-stock list, so a
      row the sale made low shows up on an admin's or merchant's page. */
  lemma SaleRefreshesLowStock(s: Inventory.Store, productId: int, quantity: int, userId: int,
                              totalAmount: int, payload: JsValue.Value)
    requires Inventory.ReduceStock(s, productId, quantity, userId, totalAmount).Ok?
    ensures var events := Inventory.ReduceStock(s, productId, quantity, userId, totalAmount).value.events;
            exists i :: 0 <= i < |events| && events[i].Name() in StreamedNames
                        && LowStockQuery in OnMessage(Some(Streamed(events[i].Name(), payload)))
  {
    var events := Inventory.ReduceStock(s, productId, quantity, userId, totalAmount).value.events;
    assert events[0].ProductSold?;
    InventoryEventsRefreshEverything(events[0], payload);
  }

  /** `setStock` emits nothing the server streams, so an open dashboard
      does not refresh after it. */
  lemma SetStockIsNotStreamed(s: Inventory.Store, productIds: set<int>, productId: int, quantity: int)
    ensures var r := Inventory.SetStock(s, productIds, productId, quantity);
            r.Ok? ==> forall i :: 0 <= i < |r.value.events| ==> r.value.events[i].Name() !in StreamedNames
  {
  }
}
