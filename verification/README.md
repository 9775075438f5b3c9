# Inventory back office — a Dafny model

This project models the core of an e-commerce back office. A NestJS
service keeps products, categories, users with roles, and one inventory
row per product. A React client offers a shop, a product management page,
a categories page, a users page, a profile page and a dashboard that is
refreshed by server-sent events.

Every service operation is a pure function. It takes the tables it reads
and returns either the new tables with what it returns and the events it
emits, or the HTTP exception it throws (`Common.Error`: NotFound,
BadRequest, Conflict, Internal). Every page handler is a pure function
from the page state and its inputs to the next state and the requests it
sends. These inputs are parameters:

- database ids;
- `Math.random`;
- bcrypt hashing and comparison;
- `JSON.parse` and `JSON.stringify`;
- the entity validator;
- the user's answer to `confirm()`.

Modules follow the source files:

| module | models |
|---|---|
| `Inventory` | `inventory.service.ts` |
| `Audit` | `audit.listener.ts`, plus the stock/ledger invariant |
| `Shop` | `shop.service.ts` |
| `Products` | `product.service.ts` |
| `ProductDetails` | `dto/productDetails/index.ts` |
| `Categories` | `category.service.ts` |
| `Users` | `user.service.ts` |
| `Dashboard` | `dashboard.service.ts` |
| `SyncInventory` | `sync-inventory.ts` |
| `JsValue` | JavaScript values, truthiness, `String()`, `getErrorMessage` in `utils.ts`, and the HTTP error shape the client sees |
| `AuthContext` | `AuthContext.tsx` |
| `Layout` | `Layout.tsx` |
| `PageRoles` | the pages' role-id tests |
| `ShopItem` | `Shop.tsx` |
| `ProductsPage` | `admin/Products.tsx` |
| `ProductForm` | `ProductFormDialog.tsx` |
| `CategoriesPage` | `Categories.tsx` |
| `UsersPage` | `Users.tsx` |
| `RoleSelection` | `RoleManagerDialog.tsx` and `CreateUserDialog.tsx` |
| `Profile` | `Profile.tsx` |
| `DashboardPage` | `Dashboard.tsx` and the event stream of `events.controller.ts` |
| `Search` | the search boxes |

`Common`, `Lists` and `Text` hold the helpers: `Result`/`Option`, list
filtering, lowercase, substring search, `parseInt` and number printing.

The central property is the stock ledger (`Audit.LedgerMatchesStock`).
Take any run of replenishments and sales against the inventory service,
and any product whose row existed before the run. Its stock changes by
exactly the IN quantities minus the OUT quantities that the audit
listener records from the emitted events.

A purchase (`Shop`) is proved to be exactly the sequence of its
reductions. It stops at the first failing item. The rollback after a
failure does not undo the earlier reductions, because they are not run
on the transaction's query runner.

## Model

| member | source | states |
|---|---|---|
| Inventory.CheckStockLow | backend/src/api/inventory/services/inventory.service.ts:184-195 | one `product.stock.low` event with the stock and minimum exactly when stock <= minimum (inclusive), none otherwise |
| Inventory.CreateInventory | backend/src/api/inventory/services/inventory.service.ts:48-55 | a new row of stock 0 and minimum 5, with no event; a second row for the same product is rejected by the unique key |
| Inventory.HandleProductCreated | backend/src/api/inventory/services/inventory.service.ts:57-63 | `product.created` gives the product a (0, 5) row and touches no other row |
| Inventory.CreateAndSetStock | backend/src/api/inventory/services/inventory.service.ts:197-210 | a new row holding the quantity with minimum 5 and nothing emitted, exactly when the product exists; otherwise the foreign key fails (Internal) and nothing is written |
| Inventory.SetStock | backend/src/api/inventory/services/inventory.service.ts:65-83 | overwrites only the target's stock. A missing row is created without an event when the product exists, and fails the foreign key (Internal) when it does not. An existing row always succeeds, keeps its minimum and emits `product.stock.updated(old, new)` followed by the low-stock check |
| Inventory.MissingInventory | backend/src/api/inventory/services/inventory.service.ts:88-90 | the text `Inventory for product <id> not found`, whose middle reads back as the product id |
| Inventory.UpdateStock | backend/src/api/inventory/services/inventory.service.ts:85-111 | NotFound with the product's not-found text without a row. BadRequest `Stock cannot be negative` iff the result would be negative, with nothing written. Otherwise only the target row changes by exactly the signed change, then `stock.changed(new, old)` and the low-stock check |
| Inventory.ReplenishStock | backend/src/api/inventory/services/inventory.service.ts:113-144 | adds the quantity to an existing row and emits `stock.replenished` then `stock.changed`. A missing row is created with the quantity and no event when the product exists, and fails the foreign key (Internal) when it does not. Never a low-stock event |
| Inventory.ReduceStock | backend/src/api/inventory/services/inventory.service.ts:146-182 | NotFound with the product's not-found text without a row; BadRequest `Insufficient stock` iff stock < quantity; nothing written on error. On success the stock drops by the quantity and stays >= 0. Emits `product.sold`, `stock.changed`, then `product.stock.low` iff the new stock <= minimum |
| Inventory.GuardedOperationsKeepNonNegative | backend/src/api/inventory/services/inventory.service.ts:85-182 | the two guarded operations keep a table without negative stock free of negative stock |
| Inventory.UpdateStockUndo | backend/src/api/inventory/services/inventory.service.ts:85-111 | applying the opposite change restores the table and row exactly |
| Inventory.ReduceThenReplenishRestores | backend/src/api/inventory/services/inventory.service.ts:113-182 | replenishing what a sale took restores the table and row, with the replenish and change events |
| Inventory.NoRowForMissingProduct | backend/src/api/inventory/services/inventory.service.ts:65-210 | for a product with neither a row nor a product record, `setStock` and `replenishStock` both fail the foreign key |
| Inventory.SetStockIsReadBack | backend/src/api/inventory/services/inventory.service.ts:65-111 | after `setStock` of a non-negative quantity, a zero `updateStock` reads back exactly that stock |
| Inventory.ReduceNegativeQuantityRaisesStock | backend/src/api/inventory/services/inventory.service.ts:159-167 | the guard `stock < quantity` lets a negative quantity through, and the stock rises |
| Audit.SaleReason | backend/src/api/inventory/listeners/audit.listener.ts:46 | the sale reason is `Sale (Total: $` + the amount + `)` |
| Audit.SaleReasonCarriesTotal | backend/src/api/inventory/listeners/audit.listener.ts:46 | the amount can be parsed back out of the reason (inverse of printing) |
| Audit.Record | backend/src/api/inventory/listeners/audit.listener.ts:19-51 | one IN movement for `stock.replenished` with its reason; one OUT movement for `product.sold` with the sale reason; nothing for any other event |
| Audit.ReplenishMatchesLedger | backend/src/api/inventory/listeners/audit.listener.ts:19-34 | a replenishment moves an existing row's stock by exactly the IN quantity the listener records |
| Audit.ReduceMatchesLedger | backend/src/api/inventory/listeners/audit.listener.ts:36-51 | a reduction moves an existing row's stock by exactly minus the OUT quantity recorded; the low-stock event records nothing |
| Audit.ApplyMatchesLedger | backend/src/api/inventory/listeners/audit.listener.ts:19-51 | any single replenish or reduce call keeps stock change == IN - OUT recorded |
| Audit.LedgerMatchesStock | backend/src/api/inventory/listeners/audit.listener.ts:19-51 | over any run of calls, the stock change of a product that had a row equals IN minus OUT of the recorded movements |
| Shop.ReduceAll | backend/src/api/shop/services/shop.service.ts:31-58 | at most one row per item, and every row when nothing failed; no row added or removed; every sale event carries the buyer and total amount 0 |
| Shop.PurchaseProducts | backend/src/api/shop/services/shop.service.ts:20-67 | the runner trace is connect, start, commit, release on success, or connect, start, rollback, release on failure; a success returns one row per item |
| Shop.ReduceAllIsRun | backend/src/api/shop/services/shop.service.ts:31-58 | a loop that went through leaves exactly the table and events of the reductions run one after another |
| Shop.ReduceAllRowAt | backend/src/api/shop/services/shop.service.ts:51-57 | the row returned for item i is that item's reduction on the table left by the items before it |
| Shop.PurchaseSuccessIsSequentialReduction | backend/src/api/shop/services/shop.service.ts:31-61 | a successful purchase equals the sequential run of `reduceStock(id, q, user, 0)` and returns each item's row |
| Shop.PurchaseStopsAtFirstFailure | backend/src/api/shop/services/shop.service.ts:51-64 | a failed purchase has a first failing item k. It leaves the effects of items before k, which the rollback does not undo, and rethrows item k's own error |
| Shop.PurchaseIgnoresItemsAfterFailure | backend/src/api/shop/services/shop.service.ts:31-64 | items after a failing one never affect the outcome |
| Shop.PurchaseLowersStockByOrdered | backend/src/api/shop/services/shop.service.ts:31-61 | after a successful purchase each product's stock is lower by exactly the total quantity ordered of it |
| Shop.RollbackKeepsEarlierReductions | backend/src/api/shop/services/shop.service.ts:62-64 | concrete case: buying 1 of a product with 3, then a product without a row, fails with `Inventory for product 2 not found` and leaves 2 in stock |
| Products.GetProduct | backend/src/api/product/services/product.service.ts:27-37 | the visible (not soft-deleted) row with the id, NotFound iff there is none |
| Products.CreateProduct | backend/src/api/product/services/product.service.ts:39-62 | NotFound iff the category does not exist; otherwise appends an inactive, undeleted row with the given fields, the merchant and the new id, and emits `product.created` |
| Products.UpdateProduct | backend/src/api/product/services/product.service.ts:64-87 | NotFound for a missing product, or for a truthy category id that does not exist; success in every other case. On success only the row `findOne` returns changes: each field the patch gives (title, code, description, category) is copied, each absent one is kept, and its id, activity, merchant, details and live state are kept |
| Products.AddProductDetails | backend/src/api/product/services/product.service.ts:89-107 | writes the whole body (title, code, description, details) onto exactly the rows owned by (id, merchant), keeping their other fields; other rows are untouched; NotFound iff none matched |
| Products.ActivateProduct | backend/src/api/product/services/product.service.ts:109-130 | NotFound for a missing product; Conflict iff the validator reports errors, with nothing written; success exactly when the product exists and validates. Then the owned rows become active, and the id is returned iff some row matched |
| Products.FindAll | backend/src/api/product/services/product.service.ts:144-162 | exactly the rows allowed by the inactive and deleted flags, as a subsequence of the table |
| Products.DeactivateProduct | backend/src/api/product/services/product.service.ts:164-177 | exactly the owned rows become inactive; NotFound iff none matched |
| Products.DeleteProduct | backend/src/api/product/services/product.service.ts:179-190 | exactly the owned rows are soft-deleted; NotFound iff none matched |
| Products.RestoreProduct | backend/src/api/product/services/product.service.ts:192-202 | exactly the owned rows lose the soft-delete mark; NotFound iff none matched |
| Products.RestoreUndoesDelete | backend/src/api/product/services/product.service.ts:179-202 | restore after delete gives back the table when the rows were not deleted before |
| Products.DeleteHidesProduct | backend/src/api/product/services/product.service.ts:144-190 | after a delete no owned row is listed when deleted rows are excluded |
| Products.DeactivateHidesProduct | backend/src/api/product/services/product.service.ts:144-177 | after a deactivation no owned row is in the default listing |
| Products.CreatedProductIsFound | backend/src/api/product/services/product.service.ts:27-62 | a product just created is what `getProduct` returns for its id |
| Products.FindIndexSameVisibility | backend/src/api/product/services/product.service.ts:27-37 | `findOne` picks the same row of two tables that agree on which rows are visible |
| Products.AddedDetailsAreReadBack | backend/src/api/product/services/product.service.ts:89-107 | adding details to a visible product the merchant owns succeeds, and `getProduct` then returns that product with the body's title, code, description and details |
| Products.ActivatedProductIsListed | backend/src/api/product/services/product.service.ts:109-162 | after an activation every non-deleted owned row is in the default listing |
| Products.ReactivateUndoesDeactivate | backend/src/api/product/services/product.service.ts:118-177 | setting the owned rows active again after the deactivation `UPDATE` restores a table whose owned rows were active |
| Products.DeactivateThenActivateRestores | backend/src/api/product/services/product.service.ts:109-177 | deactivating and then activating a product whose owned rows were active, with a validator that accepts it, restores the table and returns the id |
| ProductDetails.DetailsTypeFor | backend/src/api/product/dto/productDetails/index.ts:9-24 | a missing or empty category gives computer details; `Computers` and `Test` give their classes; any other value is a BadRequest |
| ProductDetails.DetailsTypeForCategoryOf | backend/src/api/product/dto/productDetails/index.ts:16-21 | each class is selected by its own category name |
| Categories.Create | backend/src/api/category/services/category.service.ts:18-27 | Conflict iff the id is taken, with the table unchanged; otherwise the category is appended; unique ids are kept |
| Categories.Update | backend/src/api/category/services/category.service.ts:35-42 | NotFound iff the id is unknown; otherwise only that category's name changes |
| Categories.Delete | backend/src/api/category/services/category.service.ts:44-49 | NotFound for an unknown id; a database error (500) iff a product still references the category; otherwise the id is gone, all other rows are kept in order, and the references stay valid |
| Categories.CreateThenDeleteRestores | backend/src/api/category/services/category.service.ts:18-49 | deleting a category just created, which no product references, restores the table |
| Categories.FindAll | backend/src/api/category/services/category.service.ts:29-33 | a permutation of the table, ordered by ascending id |
| Categories.FindAllStrictlyAscending | backend/src/api/category/services/category.service.ts:29-33 | with the primary-key invariant the order is strict |
| Users.SelectRoles | backend/src/api/user/services/user.service.ts:93-95 | exactly the existing roles whose id is requested, in table order |
| Users.FindById | backend/src/api/user/services/user.service.ts:51-62 | the stored user, NotFound iff unknown |
| Users.CreateUser | backend/src/api/user/services/user.service.ts:21-32 | stores the user with the hash of the password and the roles under the new id |
| Users.CreateByAdmin | backend/src/api/user/services/user.service.ts:101-118 | as `createUser`, with exactly the existing roles among the requested ids |
| Users.UpdateRoles | backend/src/api/user/services/user.service.ts:75-99 | NotFound for an unknown user. Conflict iff an admin edits their own account without the admin role id. Otherwise only that user's roles change, to exactly the existing requested ones |
| Users.GuardOnlyForOwnAccount | backend/src/api/user/services/user.service.ts:83-91 | on another user's account the update always succeeds |
| Users.AdminKeepsOwnAdminRole | backend/src/api/user/services/user.service.ts:83-98 | an admin who edits their own roles keeps the admin role |
| Users.ResetPassword | backend/src/api/user/services/user.service.ts:120-127 | NotFound iff unknown; otherwise stores the hash of the new password, with no other check |
| Users.ChangePassword | backend/src/api/user/services/user.service.ts:129-141 | NotFound for an unknown user; Conflict iff the old password does not match the stored hash, with nothing written; otherwise stores the new hash |
| Users.ChangeIsCheckedReset | backend/src/api/user/services/user.service.ts:120-141 | a successful change stores what a reset to the same password stores |
| Users.CreatedUserCanChangePassword | backend/src/api/user/services/user.service.ts:21-62 | a user just created is found by id, and with a comparison that accepts a password against its own hash, the first change with the original password succeeds |
| Users.ChangeAcceptsPasswordJustSet | backend/src/api/user/services/user.service.ts:120-141 | with a comparison that accepts a password against its own hash, the password just set is accepted by the next change |
| Dashboard.LoweredRoles | backend/src/api/dashboard/services/dashboard.service.ts:21 | the role names lowercased, one for one |
| Dashboard.AdminWhateverTheCase | backend/src/api/dashboard/services/dashboard.service.ts:21-23 | a role named admin in any letter case makes the viewer an admin |
| Dashboard.ProductCount | backend/src/api/dashboard/services/dashboard.service.ts:26-36 | the number of products the catalogue lists without deleted rows, with inactive ones counted for admins only |
| Dashboard.MovementScope | backend/src/api/dashboard/services/dashboard.service.ts:45-48 | admins and merchants see every movement; anyone else exactly their own, in order |
| Dashboard.ParseOrZero | backend/src/api/dashboard/services/dashboard.service.ts:58-59 | `parseInt(x, 10) \|\| 0`: the parsed number, or 0 for NULL and for text that does not parse (NaN) |
| Dashboard.SalesQuery | backend/src/api/dashboard/services/dashboard.service.ts:53-56 | the count is always present; the sum is NULL iff no OUT movement is in scope |
| Dashboard.GetStats | backend/src/api/dashboard/services/dashboard.service.ts:20-92 | product count as above, total movements equal to total orders, and the lowered role names |
| Dashboard.StatsCountSales | backend/src/api/dashboard/services/dashboard.service.ts:53-59 | total orders is the number of OUT movements in scope and the sales total their summed quantity, 0 when there are none |
| Dashboard.GetLowStock | backend/src/api/dashboard/services/dashboard.service.ts:95-111 | empty for a customer; otherwise exactly the rows at or below the minimum whose product is active and not deleted |
| Dashboard.LowStockAfterSale | backend/src/api/dashboard/services/dashboard.service.ts:104-110 | after a sale, the product is in an admin's low-stock list iff the sale emitted a low-stock event |
| Dashboard.GetHistory | backend/src/api/dashboard/services/dashboard.service.ts:113-130 | at most 50 movements of the viewer's scope, newest first; a customer sees only their own |
| SyncInventory.ListedIds | backend/src/scripts/sync-inventory.ts:13 | exactly the ids of the products that are not soft-deleted |
| SyncInventory.CreateMissing | backend/src/scripts/sync-inventory.ts:17-27 | every id gets a row. Existing rows are untouched. New rows are (0, 5) and belong to listed ids. With nothing missing the table is unchanged |
| SyncInventory.Bootstrap | backend/src/scripts/sync-inventory.ts:7-31 | every listed product ends with a row; existing rows are untouched; new rows are `createInventory`'s; a run with nothing missing changes nothing |
| JsValue.ResponseMessage | frontend/src/lib/utils.ts:14 | `error?.response?.data?.message`, undefined for anything that is not an object |
| JsValue.ErrorMessage | frontend/src/lib/utils.ts:8-22 | an array message is joined with `, `; a non-empty string message is shown; failing that the error's own message, else `String(error)` |
| JsValue.ServiceErrorShown | frontend/src/lib/utils.ts:14-19 | a service exception is shown as its own message. An empty message falls back to the client's status text. An unhandled error shows `Internal server error` |
| JsValue.ValidationMessagesJoined | frontend/src/lib/utils.ts:15-16 | a list of validation messages is shown joined with a comma and a space |
| AuthContext.InitialUser | frontend/src/context/AuthContext.tsx:5-14 | null without a usable stored user; the parsed user otherwise; an unparsable one gives null and is removed from storage |
| AuthContext.InitialToken | frontend/src/context/AuthContext.tsx:16-18 | the stored token, or null |
| AuthContext.Init | frontend/src/context/AuthContext.tsx:5-18 | the mounted context is the initial user and initial token |
| AuthContext.InitiallyAuthenticatedIffTokenStored | frontend/src/context/AuthContext.tsx:16-47 | right after mounting, signed in iff a non-empty token is stored, whatever the stored user |
| AuthContext.Login | frontend/src/context/AuthContext.tsx:20-31 | both values are set from the response. Each key is written iff its value is truthy. Every other key is kept |
| AuthContext.Logout | frontend/src/context/AuthContext.tsx:33-38 | both values null, both keys removed, every other key kept |
| AuthContext.LoginThenLogoutSignsOut | frontend/src/context/AuthContext.tsx:20-38 | login then logout leaves no key and the next mount is signed out |
| AuthContext.ReloadRestoresLogin | frontend/src/context/AuthContext.tsx:5-31 | a login with a user and a non-empty token survives a reload, given that JSON round-trips the user |
| AuthContext.LoginWithoutUserKeepsStoredUser | frontend/src/context/AuthContext.tsx:20-26 | a login response without a user leaves the earlier stored user, which a reload brings back |
| Layout.Navigation | frontend/src/Layout.tsx:13-46 | no sidebar when not authenticated; otherwise exactly the links the role ids allow, in sidebar order |
| Layout.LinksByRole | frontend/src/Layout.tsx:26-46 | Dashboard and Shop always; Products and Inventory iff admin or merchant; Categories and Users iff admin |
| Layout.AdminLinksImplyManagerLinks | frontend/src/Layout.tsx:31-45 | whoever sees Categories also sees Products and Inventory |
| Layout.TokenWithoutUserGetsBasicLinks | frontend/src/Layout.tsx:13-29 | a token without a stored user gets exactly Dashboard and Shop |
| ShopItem.Increment | frontend/src/pages/Shop.tsx:52 | one more, capped at the stock |
| ShopItem.Decrement | frontend/src/pages/Shop.tsx:53 | one less, never below 1 |
| ShopItem.InputChange | frontend/src/pages/Shop.tsx:55-61 | NaN text is ignored; a value is clamped to [1, stock] |
| ShopItem.QuantityStaysInRange | frontend/src/pages/Shop.tsx:52-61 | every way of changing the quantity keeps it in [1, stock] |
| ShopItem.IncrementDecrementInverse | frontend/src/pages/Shop.tsx:52-53 | plus and minus undo each other inside the range |
| ShopItem.TypingCurrentQuantity | frontend/src/pages/Shop.tsx:55-61 | typing the printed current quantity changes nothing |
| ShopItem.DisabledExactlyWhenNoOp | frontend/src/pages/Shop.tsx:96-114 | inside the range, minus and plus are disabled exactly when pressing them would change nothing |
| ShopItem.HandleBuy | frontend/src/pages/Shop.tsx:37-50 | more than the stock is refused first, then a non-positive quantity; a confirmed valid quantity sends exactly one purchase item |
| ShopItem.InRangeQuantityPassesChecks | frontend/src/pages/Shop.tsx:37-50 | a quantity in range is never refused |
| ShopItem.CardPurchaseSucceeds | frontend/src/pages/Shop.tsx:37-50 | a purchase sent against the stock the card shows succeeds and lowers that stock by the quantity |
| ShopItem.StartPurchase | frontend/src/pages/Shop.tsx:16-20 | the purchase is in flight and the quantity is kept |
| ShopItem.Settle | frontend/src/pages/Shop.tsx:21-34 | in flight no longer; the quantity goes back to 1 on success and is kept on failure |
| ShopItem.NoSecondPurchaseWhileInFlight | frontend/src/pages/Shop.tsx:96-119 | Buy is disabled while a purchase is in flight. After a success the quantity is in range and Buy is enabled again. The controls show iff Buy could be pressed |
| ProductsPage.ShowInactive | frontend/src/pages/admin/Products.tsx:21-28 | the toggle is on only for users who can manage products, and then it is what they set |
| ProductsPage.QueryFlags | frontend/src/pages/admin/Products.tsx:30-34 | no query without a user; otherwise both inclusion flags equal the effective toggle |
| ProductsPage.NonManagersSeeOnlyLiveProducts | frontend/src/pages/admin/Products.tsx:21-34 | with the service's listing, a user who cannot manage products sees only active, non-deleted products |
| ProductsPage.HandleStatusChange | frontend/src/pages/admin/Products.tsx:90-105 | nothing for a deleted product; an active one is deactivated; an inactive one is activated only for managers and refused otherwise |
| ProductsPage.EnabledSwitchFlipsStatus | frontend/src/pages/admin/Products.tsx:174-179 | the switch is enabled exactly when a flip sends a request, and the request flips the active flag |
| ProductsPage.StatusLabel | frontend/src/pages/admin/Products.tsx:159-165 | deleted before active before inactive |
| ProductsPage.RowActions | frontend/src/pages/admin/Products.tsx:181-211 | restore only on deleted rows and only for admins; delete exactly on rows not deleted; never both |
| ProductsPage.DeleteShownOnRowsNotDeleted | frontend/src/pages/admin/Products.tsx:159-211 | the delete button shows exactly on rows whose badge is not `Eliminado` |
| ProductForm.Validate | frontend/src/components/admin/ProductFormDialog.tsx:22-27 | invalid iff title, code or category is empty, with exactly the failing fields' messages; a valid form yields its fields with the category parsed |
| ProductForm.DescriptionText | frontend/src/components/admin/ProductFormDialog.tsx:61 | the description, or empty when there is none |
| ProductForm.Prefill | frontend/src/components/admin/ProductFormDialog.tsx:46-70 | the code is disabled iff editing; a new product starts from the defaults; an edit copies title and code, and the category text parses back to the product's category |
| ProductForm.EmptyFormReportsEveryRequiredField | frontend/src/components/admin/ProductFormDialog.tsx:22-54 | submitting the defaults reports all three required fields, in order |
| ProductForm.PrefillValidates | frontend/src/components/admin/ProductFormDialog.tsx:56-70 | a prefilled form of a product with title and code validates to that product's fields |
| ProductForm.OnSubmit | frontend/src/components/admin/ProductFormDialog.tsx:98-104 | an update of the edited product's id iff editing, otherwise a create, carrying the data |
| ProductForm.ToPatch | frontend/src/components/admin/ProductFormDialog.tsx:72-96 | the update carries the title, code, category and description of the form |
| ProductForm.UnchangedEditKeepsProduct | frontend/src/components/admin/ProductFormDialog.tsx:56-104 | saving an edited product without changes writes back its own fields; only a missing description becomes empty |
| CategoriesPage.Filtered | frontend/src/pages/Categories.tsx:119 | exactly the categories whose name contains the term, ignoring case, in order |
| CategoriesPage.Render | frontend/src/pages/Categories.tsx:119-174 | spinner iff loading; admin controls iff admin; the filtered rows, with the notice iff none |
| CategoriesPage.EmptySearchListsAll | frontend/src/pages/Categories.tsx:119 | an empty search lists every category, and the notice shows iff there are none |
| CategoriesPage.ControlsFollowNavigation | frontend/src/pages/Categories.tsx:85 | the category controls show exactly for the users whose sidebar offers the page |
| Common.IfConfirmed | frontend/src/pages/Categories.tsx:113-117 | the id is sent iff the `confirm()` prompt is confirmed |
| CategoriesPage.ConfirmedDeleteRemovesRow | frontend/src/pages/Categories.tsx:113-117 | a cancelled delete changes nothing; a confirmed one removes an unreferenced category from the list whatever the search, and fails with a server error for a category a product references |
| CategoriesPage.InitialName | frontend/src/pages/Categories.tsx:22 | the edited category's name, or empty |
| CategoriesPage.SubmitPayload | frontend/src/pages/Categories.tsx:40-44 | a rename of the edited id iff editing, otherwise a create with the drawn id; both carry the name |
| CategoriesPage.SaveError | frontend/src/pages/Categories.tsx:33-35 | the response message when truthy, else `Failed to save category` |
| CategoriesPage.CreateOutcome | frontend/src/pages/Categories.tsx:40-44 | a drawn id that is taken shows the service's conflict message; a free one appends the category |
| CategoriesPage.RenameOutcome | frontend/src/pages/Categories.tsx:26-36 | renaming keeps the id and changes the name; a category deleted meanwhile shows the not-found message |
| UsersPage.Filtered | frontend/src/pages/Users.tsx:33-35 | exactly the users whose email contains the term, ignoring case, in order |
| UsersPage.NoMatchText | frontend/src/pages/Users.tsx:142-148 | the no-match text is the fixed prefix, the term, and a closing quote |
| UsersPage.Render | frontend/src/pages/Users.tsx:37-148 | loading before failure before the table; the no-match row iff no user matches |
| UsersPage.EmptySearchListsAll | frontend/src/pages/Users.tsx:33-35 | an empty search lists every user |
| UsersPage.NarrowingSearchKeepsSubset | frontend/src/pages/Users.tsx:33-35 | every user listed for a longer term is listed for its prefix |
| Search.FilterBy | frontend/src/pages/Users.tsx:33-35 | exactly the items whose text contains the term ignoring case, as a sub-list |
| Search.MatchesIffOccurs | frontend/src/pages/Users.tsx:34 | a match means the lowercased term occurs at some position of the lowercased text |
| Search.TermCaseIrrelevant | frontend/src/pages/Categories.tsx:119 | the letter case of the term makes no difference |
| Search.LongerTermMatchesLess | frontend/src/pages/Categories.tsx:119 | what matches a longer term matches its prefix |
| RoleSelection.Toggle | frontend/src/components/RoleManagerDialog.tsx:46-52 | a selected id is removed, every occurrence; an unselected one is appended; other ids are unaffected |
| RoleSelection.ToggleKeepsNoDuplicates | frontend/src/components/RoleManagerDialog.tsx:46-52 | toggling keeps the selection free of duplicates |
| RoleSelection.ToggleTwiceRestores | frontend/src/components/RoleManagerDialog.tsx:46-52 | toggling twice gives back the same ids, and the same list when the id was not selected |
| RoleSelection.RoleIds | frontend/src/components/RoleManagerDialog.tsx:24 | the user's role ids, one per role, in order |
| RoleSelection.SyncSelection | frontend/src/components/RoleManagerDialog.tsx:21-26 | with a user the selection becomes their role ids; otherwise it stays |
| RoleSelection.UntickingOwnAdminRoleIsRefused | frontend/src/components/RoleManagerDialog.tsx:54-56 | an admin who unticks their own admin role and saves is refused with a conflict |
| RoleSelection.Submit | frontend/src/components/CreateUserDialog.tsx:43-47 | the error is cleared and exactly the email, password and role ids are sent |
| RoleSelection.OnCreated | frontend/src/components/CreateUserDialog.tsx:29-35 | the fields are reset and the dialog closes |
| RoleSelection.FailedCreateShowsServiceMessage | frontend/src/components/CreateUserDialog.tsx:36-38 | a service exception shows its own message and nothing else of the form changes |
| RoleSelection.SuccessfulCreateResetsForm | frontend/src/components/CreateUserDialog.tsx:29-47 | after a successful submit the dialog is back to its empty form |
| RoleSelection.CreatedUserHasTickedRoles | frontend/src/components/CreateUserDialog.tsx:43-47 | the created user has the typed email, the hash of the typed password and exactly the existing ticked roles |
| Profile.Submit | frontend/src/pages/Profile.tsx:29-45 | clears error and success. Mismatched passwords are reported first, then a password under 6 characters. A request is sent iff both checks pass, and it carries the old and new passwords |
| Profile.OnChanged | frontend/src/pages/Profile.tsx:18-23 | on success the three fields are cleared and success is shown |
| Profile.SentPasswordsAreConfirmedAndLongEnough | frontend/src/pages/Profile.tsx:34-44 | a sent new password was typed twice and is at least 6 long; a mismatch is reported whatever the length |
| Profile.SubmitAgainstService | frontend/src/pages/Profile.tsx:16-27 | a wrong old password shows the service's conflict message and stores nothing; a right one stores the hash of the new password and shows success |
| DashboardPage.RoleTestsAgreeWithService | frontend/src/pages/dashboard/Dashboard.tsx:90-91 | the page's lowercase role tests and the low-stock gate agree with the service's admin and merchant tests |
| DashboardPage.LowStockFetchedUnlessCustomer | frontend/src/pages/dashboard/Dashboard.tsx:20-27 | the low-stock query runs for admins and merchants and while no user is known; it is off only for a signed-in customer |
| DashboardPage.Render | frontend/src/pages/dashboard/Dashboard.tsx:87-102 | loading first, then failure without statistics, then the dashboard of the highest role: admin, merchant, customer |
| DashboardPage.CustomerViewMatchesServiceScope | frontend/src/pages/dashboard/Dashboard.tsx:20-27 | the customer dashboard shows exactly for the users the service treats as customers; for them the low-stock query is off and the service returns none |
| DashboardPage.Unwrap | frontend/src/pages/dashboard/Dashboard.tsx:47 | `data.data \|\| data`, a TypeError iff the message is null |
| DashboardPage.Route | frontend/src/pages/dashboard/Dashboard.tsx:56-71 | everything is refetched iff the event is a sale, replenishment or stock change; only the statistics iff a product was created; otherwise nothing |
| DashboardPage.OnMessage | frontend/src/pages/dashboard/Dashboard.tsx:41-75 | an unparsable message fetches nothing; the low-stock list is refetched iff the history is |
| DashboardPage.Streamed | backend/src/api/events/controllers/events.controller.ts:10-50 | the streamed object carries the event name as its type |
| DashboardPage.UnwrapAcceptsBothShapes | frontend/src/pages/dashboard/Dashboard.tsx:46-48 | an event routes the same bare or wrapped in a `data` envelope |
| DashboardPage.InventoryEventsRefreshEverything | backend/src/api/events/controllers/events.controller.ts:22-57 | exactly the sale, replenishment and stock-change inventory events are streamed, and each refreshes the whole dashboard |
| DashboardPage.ProductCreatedRefreshesStats | frontend/src/pages/dashboard/Dashboard.tsx:67-71 | a new product refreshes only the statistics |
| DashboardPage.SaleRefreshesLowStock | frontend/src/pages/dashboard/Dashboard.tsx:56-66 | every sale streams an event that refreshes the low-stock list |
| DashboardPage.SetStockIsNotStreamed | backend/src/api/events/controllers/events.controller.ts:52-57 | nothing `setStock` emits is streamed, so the dashboard does not refresh after it |

## Left out

- I/O and presentation are not modelled. That covers toasts, dialogs' open and close animation, icons, charts, and react-query's caching and loading flags. Loading and failure enter as booleans.
- The user's answer to `confirm()` is a boolean input.
- The seven-day sales series of the statistics (dashboard.service.ts:62-82) is left out. Its date arithmetic is outside the model.
- The SSE transport and the rxjs streams are left out. The page receives either the parsed message or a parse failure.
- The event bus is left out: events are returned in emission order, and the listeners are applied by the caller (`Audit.RecordAll`).
- bcrypt hashing and comparison, `JSON.parse`/`JSON.stringify`, the class validator and database-generated ids are parameters. Fresh ids are required to be unused, which is what an auto-increment key gives.
- `Math.random` is a parameter below 100000.
- Transactions and concurrency are not modelled. The query runner is a trace of the calls made on it, and the reductions are not run on it, as in the source.
- JavaScript numbers are integers: there is no NaN, no fractions and no overflow. `parseInt` is base 10; it reads an optional sign and leading digits after leading spaces.
- `toLowerCase` is ASCII-only and string length counts characters, not UTF-16 units.
- The history's `createdAt DESC` order is taken to be the reverse of insertion order.
- `JsValue.Get` does not model prototype properties.
- The HTTP error body is assumed to be NestJS's `{statusCode, message}`. An unhandled error gives `Internal server error`. The client rejects with an Axios error carrying the response.
- The pages test role ids 2 (merchant) and 3 (admin). The service tests role names `admin` and `merchant`. Each side is modelled with its own test.
- The value of the `Computers` category is taken as `"Computers"`. The enum that defines it is not part of this model.
- RoleSelection.UntickingOwnAdminRoleIsRefused assumes the signed-in user's stored record carries their own id.
- The product form does not model the form library's handling of the disabled code field. The values are taken as the fields show them.
- The render gates of the dialogs (CreateUserDialog.tsx:41, Categories.tsx:38) are not modelled. They only decide whether the dialog is mounted.
- Inventory.ReduceStock: a negative quantity passes the guard and raises the stock. This is kept as written, because nothing in the core validates the purchase quantity.
- Products and Users error messages: the services throw the entries of an `errorMessages` table that is not part of this model. Each message stands in by its key (`product.notFound`, `category.notFound`, `product.notFulfilled.message`, `user.notFound`), so only the error kind and which entry is thrown are promised, not the text.
- Products.FindAll: the query has no `ORDER BY`, so the database may return rows in any order. The model returns them in storage order, which is one order it may return.
- Categories.Delete: the foreign-key error is modelled as an Internal error with the database's message. The exact text the database gives is not promised.
- CreateAndSetStock, SetStock, ReplenishStock: the product ids are a parameter. A soft-deleted product still has its row, so it counts as existing for the foreign key.
- Products.AddProductDetails: the body's `about` and `variationType` are not modelled, because the model's product has no such columns. The body's other fields are taken as present, as the client's `ProductDetailsDto` requires them, and the details JSON is a string.
- Products.UpdateProduct: with `categoryId: 0` the model stores 0. In the source the loaded `category` relation is left unchanged, and the row TypeORM's `save` writes may keep the old category. That depends on the ORM's save behaviour, which is not part of this model.
- Users.ChangeIsCheckedReset: `hash` is a function, so it stands for bcrypt with one fixed salt. bcrypt draws a fresh salt on each call, so the two stored strings differ in the source even though both match the new password.
- Products.ActivateProduct: the entity validator is a parameter returning its list of errors. The messages it builds are not modelled.
- Dashboard.GetStats: the chart series fields are not part of the result.
- The inventory page and the widgets of the merchant and customer dashboards are not modelled; they only display what the services return.
