/** The product service: product rows with an active flag and a soft-delete
    mark, scoped by merchant for the write operations.

    The table is a list of rows in storage order. Reads through the entity
    manager's `findOne`/`find` skip soft-deleted rows; the query-builder
    `UPDATE`s, `softDelete` and `restore` match on `(id, merchantId)` alone
    and report how many rows matched. */
module Products {
  import opened Common
  import Lists

  /** The messages the service throws are entries of its `errorMessages`
      table, which is not part of this model; each stands in by its key. */
  const ProductNotFound: string := "product.notFound"
  const CategoryNotFound: string := "category.notFound"
  const NotFulfilled: string := "product.notFulfilled.message"

  datatype Product = Product(
    id: int,
    code: string,
    title: string,
    description: Option<string>,
    categoryId: int,
    merchantId: int,
    isActive: bool,
    deleted: bool,
    details: Option<string>)

  type Table = seq<Product>

  /** `product.created`, emitted after a product is saved. */
  datatype Event = ProductCreated(productId: int, merchantId: int)

  /** The fields a new product is created from. */
  datatype NewProduct = NewProduct(code: string, title: string, description: Option<string>, categoryId: int)

  /** The body of `addProductDetails`: the product columns it carries. */
  datatype DetailsBody = DetailsBody(title: string, code: string, description: string, details: string)

  /** The optional fields of an update; an absent field is left alone. */
  datatype Patch = Patch(code: Option<string>, title: Option<string>, description: Option<string>, categoryId: Option<int>)

  /** A row the write queries of `(id, merchantId)` touch. */
  predicate Owned(p: Product, id: int, merchantId: int) {
    p.id == id && p.merchantId == merchantId
  }

  /** A row `findOne({ where: { id } })` can return. */
  predicate Visible(p: Product, id: int) {
    p.id == id && !p.deleted
  }

  predicate HasId(t: Table, id: int) {
    exists i :: 0 <= i < |t| && t[i].id == id
  }

  /** Number of rows an `UPDATE ... WHERE id AND merchantId` affects. */
  function Affected(t: Table, id: int, merchantId: int): (n: nat)
    ensures n == 0 <==> forall i :: 0 <= i < |t| ==> !Owned(t[i], id, merchantId)
  {
    if |t| == 0 then 0
    else (if Owned(t[0], id, merchantId) then 1 else 0) + Affected(t[1..], id, merchantId)
  }

  /** Index of the first row `findOne({ where: { id } })` returns. */
  function FindIndex(t: Table, id: int): (r: Option<nat>)
    ensures r.None? <==> forall i :: 0 <= i < |t| ==> !Visible(t[i], id)
    ensures r.Some? ==> r.value < |t| && Visible(t[r.value], id)
    ensures r.Some? ==> forall i :: 0 <= i < r.value ==> !Visible(t[i], id)
  {
    if |t| == 0 then None
    else if Visible(t[0], id) then Some(0)
    else match FindIndex(t[1..], id)
      case None => None
      case Some(k) => Some(k + 1)
  }

  /** Applies `f` to every row owned by `(id, merchantId)`. */
  function UpdateOwned(t: Table, id: int, merchantId: int, f: Product -> Product): (r: Table)
    ensures |r| == |t|
    ensures forall i :: 0 <= i < |t| ==> r[i] == if Owned(t[i], id, merchantId) then f(t[i]) else t[i]
  {
    seq(|t|, i requires 0 <= i < |t| => if Owned(t[i], id, merchantId) then f(t[i]) else t[i])
  }

  /** `getProduct`: the visible row with the id, or NotFound. */
  function GetProduct(t: Table, id: int): (r: Result<Product>)
    ensures r.Err? <==> forall i :: 0 <= i < |t| ==> !Visible(t[i], id)
    ensures r.Err? ==> r.error == NotFound(ProductNotFound)
    ensures r.Ok? ==> r.value in t && Visible(r.value, id)
  {
    match FindIndex(t, id)
    case None => Err(NotFound(ProductNotFound))
    case Some(i) => Ok(t[i])
  }

  /** `createProduct`: the category must exist; the new row is saved with
      the database's next id (a parameter), inactive and not deleted, and
      `product.created` is emitted with that id and the merchant. */
  function CreateProduct(t: Table, categories: set<int>, data: NewProduct, merchantId: int, newId: int)
    : (r: Result<(Table, Product, Event)>)
    requires !HasId(t, newId)
    ensures r.Err? <==> data.categoryId !in categories
    ensures r.Err? ==> r.error == NotFound(CategoryNotFound)
    ensures r.Ok? ==>
      var (t', p, e) := r.value;
      && t' == t + [p]
      && p.id == newId && p.merchantId == merchantId && p.categoryId == data.categoryId
      && p.code == data.code && p.title == data.title && p.description == data.description
      && !p.isActive && !p.deleted
      && e == ProductCreated(newId, merchantId)
  {
    if data.categoryId !in categories then Err(NotFound(CategoryNotFound))
    else
      var p := Product(newId, data.code, data.title, data.description, data.categoryId,
                       merchantId, false, false, None);
      Ok((t + [p], p, ProductCreated(newId, merchantId)))
  }

  function ApplyPatch(p: Product, data: Patch): Product {
    p.(code := if data.code.Some? then data.code.value else p.code,
       title := if data.title.Some? then data.title.value else p.title,
       description := if data.description.Some? then data.description else p.description,
       categoryId := if data.categoryId.Some? then data.categoryId.value else p.categoryId)
  }

  /** A category id the update checks: present and truthy (non-zero). */
  predicate ChecksCategory(data: Patch) {
    data.categoryId.Some? && data.categoryId.value != 0
  }

  /** `updateProduct`: NotFound for a missing product; a truthy category id
      must name an existing category, else NotFound and nothing changes;
      otherwise the fields the patch gives are copied onto the row
      `findOne` returns, every other field is kept, and only that row
      changes. A category id of 0 is falsy: it skips the check and is
      still copied. */
  function UpdateProduct(t: Table, categories: set<int>, id: int, data: Patch): (r: Result<(Table, Product)>)
    ensures GetProduct(t, id).Err? ==> r == Err(NotFound(ProductNotFound))
    ensures GetProduct(t, id).Ok? && ChecksCategory(data) && data.categoryId.value !in categories
            ==> r == Err(NotFound(CategoryNotFound))
    ensures r.Ok? <==> GetProduct(t, id).Ok? && !(ChecksCategory(data) && data.categoryId.value !in categories)
    ensures r.Ok? ==>
      var (t', p) := r.value;
      var prev := GetProduct(t, id).value;
      && FindIndex(t, id).Some? && t' == t[FindIndex(t, id).value := p]
      && p.id == id && !p.deleted
      && p.isActive == prev.isActive && p.merchantId == prev.merchantId && p.details == prev.details
      && (data.title.Some? ==> p.title == data.title.value) && (data.title.None? ==> p.title == prev.title)
      && (data.code.Some? ==> p.code == data.code.value) && (data.code.None? ==> p.code == prev.code)
      && (data.description.Some? ==> p.description == data.description)
      && (data.description.None? ==> p.description == prev.description)
      && (data.categoryId.Some? ==> p.categoryId == data.categoryId.value)
      && (data.categoryId.None? ==> p.categoryId == prev.categoryId)
  {
    match FindIndex(t, id)
    case None => Err(NotFound(ProductNotFound))
    case Some(k) =>
      if ChecksCategory(data) && data.categoryId.value !in categories then
        Err(NotFound(CategoryNotFound))
      else
        var p := ApplyPatch(t[k], data);
        Ok((t[k := p], p))
  }

  /** The row after `SET ...body`: every column the body carries is
      overwritten. */
  function WithBody(p: Product, body: DetailsBody): Product {
    p.(title := body.title, code := body.code, description := Some(body.description),
       details := Some(body.details))
  }

  /** `addProductDetails`: writes the whole body (title, code, description
      and details) onto the rows owned by `(id, merchantId)` and returns the
      id, or NotFound when none matched. */
  function AddProductDetails(t: Table, id: int, merchantId: int, body: DetailsBody): (r: Result<(Table, int)>)
    ensures r.Err? <==> Affected(t, id, merchantId) == 0
    ensures r.Err? ==> r.error == NotFound(ProductNotFound)
    ensures r.Ok? ==> r.value.1 == id && |r.value.0| == |t|
    ensures r.Ok? ==> forall i :: 0 <= i < |t| && !Owned(t[i], id, merchantId) ==> r.value.0[i] == t[i]
    ensures r.Ok? ==> forall i :: 0 <= i < |t| && Owned(t[i], id, merchantId) ==>
      var q := r.value.0[i];
      && q.title == body.title && q.code == body.code
      && q.description == Some(body.description) && q.details == Some(body.details)
      && q.id == t[i].id && q.merchantId == t[i].merchantId && q.categoryId == t[i].categoryId
      && q.isActive == t[i].isActive && q.deleted == t[i].deleted
  {
    if Affected(t, id, merchantId) == 0 then Err(NotFound(ProductNotFound))
    else Ok((UpdateOwned(t, id, merchantId, (p: Product) => WithBody(p, body)), id))
  }

  /** `activateProduct`: the product is looked up by id (NotFound if absent)
      and checked by `validate`; any validation error is a Conflict and
      writes nothing. Otherwise the rows owned by `(id, merchantId)` become
      active; the call does not check that any row matched, and returns the
      id of the first updated row when there is one. */
  function ActivateProduct(t: Table, id: int, merchantId: int, validate: Product -> seq<string>)
    : (r: Result<(Table, Option<int>)>)
    ensures GetProduct(t, id).Err? ==> r == Err(NotFound(ProductNotFound))
    ensures GetProduct(t, id).Ok? && |validate(GetProduct(t, id).value)| > 0 ==> r == Err(Conflict(NotFulfilled))
    ensures r.Ok? <==> GetProduct(t, id).Ok? && |validate(GetProduct(t, id).value)| == 0
    ensures r.Ok? ==> |r.value.0| == |t|
    ensures r.Ok? ==> forall i :: 0 <= i < |t| ==>
      r.value.0[i] == if Owned(t[i], id, merchantId) then t[i].(isActive := true) else t[i]
    ensures r.Ok? ==> (r.value.1.Some? <==> Affected(t, id, merchantId) > 0)
  {
    var product :- GetProduct(t, id);
    if |validate(product)| > 0 then Err(Conflict(NotFulfilled))
    else
      var returned := if Affected(t, id, merchantId) > 0 then Some(id) else None;
      Ok((UpdateOwned(t, id, merchantId, (p: Product) => p.(isActive := true)), returned))
  }

  /** Which rows `findAll(includeInactive, includeDeleted)` lists. */
  predicate Listed(p: Product, includeInactive: bool, includeDeleted: bool) {
    (includeDeleted || !p.deleted) && (includeInactive || p.isActive)
  }

  /** `findAll`: without `includeInactive` only active rows, without
      `includeDeleted` no soft-deleted rows; storage order is kept. */
  function FindAll(t: Table, includeInactive: bool, includeDeleted: bool): (r: seq<Product>)
    ensures forall i :: 0 <= i < |r| ==> r[i] in t
    ensures !includeInactive ==> forall i :: 0 <= i < |r| ==> r[i].isActive
    ensures !includeDeleted ==> forall i :: 0 <= i < |r| ==> !r[i].deleted
    ensures forall i :: 0 <= i < |t| && Listed(t[i], includeInactive, includeDeleted) ==> t[i] in r
    ensures Lists.IsSubsequence(r, t)
  {
    Lists.Filter(t, p => Listed(p, includeInactive, includeDeleted))
  }

  /** `deactivateProduct`: the rows owned by `(id, merchantId)` become
      inactive, or NotFound when none matched. */
  function DeactivateProduct(t: Table, id: int, merchantId: int): (r: Result<Table>)
    ensures r.Err? <==> Affected(t, id, merchantId) == 0
    ensures r.Err? ==> r.error == NotFound(ProductNotFound)
    ensures r.Ok? ==> |r.value| == |t|
    ensures r.Ok? ==> forall i :: 0 <= i < |t| ==>
      r.value[i] == if Owned(t[i], id, merchantId) then t[i].(isActive := false) else t[i]
  {
    if Affected(t, id, merchantId) == 0 then Err(NotFound(ProductNotFound))
    else Ok(UpdateOwned(t, id, merchantId, (p: Product) => p.(isActive := false)))
  }

  /** `deleteProduct`: soft-deletes the rows owned by `(id, merchantId)`, or
      NotFound when none matched. */
  function DeleteProduct(t: Table, id: int, merchantId: int): (r: Result<Table>)
    ensures r.Err? <==> Affected(t, id, merchantId) == 0
    ensures r.Err? ==> r.error == NotFound(ProductNotFound)
    ensures r.Ok? ==> |r.value| == |t|
    ensures r.Ok? ==> forall i :: 0 <= i < |t| ==>
      r.value[i] == if Owned(t[i], id, merchantId) then t[i].(deleted := true) else t[i]
  {
    if Affected(t, id, merchantId) == 0 then Err(NotFound(ProductNotFound))
    else Ok(UpdateOwned(t, id, merchantId, (p: Product) => p.(deleted := true)))
  }

  /** `restoreProduct`: clears the soft-delete mark of the rows owned by
      `(id, merchantId)`, or NotFound when none matched. */
  function RestoreProduct(t: Table, id: int, merchantId: int): (r: Result<Table>)
    ensures r.Err? <==> Affected(t, id, merchantId) == 0
    ensures r.Err? ==> r.error == NotFound(ProductNotFound)
    ensures r.Ok? ==> |r.value| == |t|
    ensures r.Ok? ==> forall i :: 0 <= i < |t| ==>
      r.value[i] == if Owned(t[i], id, merchantId) then t[i].(deleted := false) else t[i]
  {
    if Affected(t, id, merchantId) == 0 then Err(NotFound(ProductNotFound))
    else Ok(UpdateOwned(t, id, merchantId, (p: Product) => p.(deleted := false)))
  }

  /** Restoring undoes a delete of rows that were not deleted before. */
  lemma RestoreUndoesDelete(t: Table, id: int, merchantId: int)
    requires forall i :: 0 <= i < |t| && Owned(t[i], id, merchantId) ==> !t[i].deleted
    ensures DeleteProduct(t, id, merchantId).Ok? ==>
      RestoreProduct(DeleteProduct(t, id, merchantId).value, id, merchantId) == Ok(t)
  {
    var d := DeleteProduct(t, id, merchantId);
    if d.Ok? {
      var t' := d.value;
      assert forall i :: 0 <= i < |t| ==> Owned(t'[i], id, merchantId) == Owned(t[i], id, merchantId);
      assert Affected(t', id, merchantId) > 0 by {
        var i :| 0 <= i < |t| && Owned(t[i], id, merchantId);
        assert Owned(t'[i], id, merchantId);
      }
      var r := RestoreProduct(t', id, merchantId);
      assert r.value == t;
    }
  }

  /** After a delete, no owned row is listed by a `findAll` that excludes
      deleted rows, and the other rows are listed as before. */
  lemma DeleteHidesProduct(t: Table, id: int, merchantId: int, includeInactive: bool)
    requires DeleteProduct(t, id, merchantId).Ok?
    ensures forall p | p in FindAll(DeleteProduct(t, id, merchantId).value, includeInactive, false)
              :: !Owned(p, id, merchantId)
  {
    var t' := DeleteProduct(t, id, merchantId).value;
    forall p | p in FindAll(t', includeInactive, false)
      ensures !Owned(p, id, merchantId)
    {
      var i :| 0 <= i < |t'| && t'[i] == p;
      assert !p.deleted;
    }
  }

  /** Deactivating a product hides it from the default listing. */
  lemma DeactivateHidesProduct(t: Table, id: int, merchantId: int)
    requires DeactivateProduct(t, id, merchantId).Ok?
    ensures forall p | p in FindAll(DeactivateProduct(t, id, merchantId).value, false, false)
              :: !Owned(p, id, merchantId)
  {
    var t' := DeactivateProduct(t, id, merchantId).value;
    forall p | p in FindAll(t', false, false)
      ensures !Owned(p, id, merchantId)
    {
      var i :| 0 <= i < |t'| && t'[i] == p;
      assert p.isActive;
    }
  }

  /** A product that was just created is found by id. */
  lemma CreatedProductIsFound(t: Table, categories: set<int>, data: NewProduct, merchantId: int, newId: int)
    requires !HasId(t, newId)
    requires data.categoryId in categories
    ensures var (t', p, _) := CreateProduct(t, categories, data, merchantId, newId).value;
            GetProduct(t', newId) == Ok(p)
  {
    var (t', p, _) := CreateProduct(t, categories, data, merchantId, newId).value;
    assert forall i :: 0 <= i < |t| ==> !Visible(t'[i], newId);
    assert Visible(t'[|t|], newId);
  }

  /** `findOne` picks the same row of two tables whose rows are visible
      under the id at the same places. */
  lemma FindIndexSameVisibility(t: Table, u: Table, id: int)
    requires |t| == |u|
    requires forall i :: 0 <= i < |t| ==> Visible(t[i], id) == Visible(u[i], id)
    ensures FindIndex(t, id) == FindIndex(u, id)
  {
    var a, b := FindIndex(t, id), FindIndex(u, id);
    if a.Some? && b.Some? {
      assert !(a.value < b.value) by { assert Visible(u[a.value], id); }
      assert !(b.value < a.value) by { assert Visible(t[b.value], id); }
    }
  }

  /** The body added to a product its merchant owns is what `getProduct`
      returns afterwards: its title, code, description and details, with
      every other field as before. */
  lemma AddedDetailsAreReadBack(t: Table, id: int, merchantId: int, body: DetailsBody)
    requires GetProduct(t, id).Ok? && GetProduct(t, id).value.merchantId == merchantId
    ensures AddProductDetails(t, id, merchantId, body).Ok?
    ensures var prev := GetProduct(t, id).value;
            GetProduct(AddProductDetails(t, id, merchantId, body).value.0, id)
            == Ok(prev.(title := body.title, code := body.code, description := Some(body.description),
                        details := Some(body.details)))
  {
    var k := FindIndex(t, id).value;
    assert Owned(t[k], id, merchantId);
    var t' := AddProductDetails(t, id, merchantId, body).value.0;
    FindIndexSameVisibility(t, t', id);
  }

  /** After an activation every non-deleted row the merchant owns is in the
      default listing. */
  lemma ActivatedProductIsListed(t: Table, id: int, merchantId: int, validate: Product -> seq<string>)
    requires ActivateProduct(t, id, merchantId, validate).Ok?
    ensures var t' := ActivateProduct(t, id, merchantId, validate).value.0;
            forall i :: 0 <= i < |t'| && Owned(t'[i], id, merchantId) && !t'[i].deleted
              ==> t'[i] in FindAll(t', false, false)
  {
    var t' := ActivateProduct(t, id, merchantId, validate).value.0;
    forall i | 0 <= i < |t'| && Owned(t'[i], id, merchantId) && !t'[i].deleted
      ensures t'[i] in FindAll(t', false, false)
    {
      assert Owned(t[i], id, merchantId);
      assert Listed(t'[i], false, false);
    }
  }

  /** Setting the owned rows inactive and then active again gives back a
      table whose owned rows were all active. */
  lemma ReactivateUndoesDeactivate(t: Table, id: int, merchantId: int)
    requires forall i :: 0 <= i < |t| && Owned(t[i], id, merchantId) ==> t[i].isActive
    ensures UpdateOwned(UpdateOwned(t, id, merchantId, (p: Product) => p.(isActive := false)),
                        id, merchantId, (p: Product) => p.(isActive := true)) == t
  {
    var off := UpdateOwned(t, id, merchantId, (p: Product) => p.(isActive := false));
    var back := UpdateOwned(off, id, merchantId, (p: Product) => p.(isActive := true));
    forall i | 0 <= i < |t| ensures back[i] == t[i] {
      assert Owned(off[i], id, merchantId) == Owned(t[i], id, merchantId);
    }
  }

  /** Deactivating and then activating a product whose owned rows were all
      active, with a validation that accepts the deactivated product,
      restores the table. */
  lemma DeactivateThenActivateRestores(t: Table, id: int, merchantId: int, validate: Product -> seq<string>)
    requires GetProduct(t, id).Ok? && GetProduct(t, id).value.merchantId == merchantId
    requires forall i :: 0 <= i < |t| && Owned(t[i], id, merchantId) ==> t[i].isActive
    requires |validate(GetProduct(t, id).value.(isActive := false))| == 0
    ensures DeactivateProduct(t, id, merchantId).Ok?
    ensures ActivateProduct(DeactivateProduct(t, id, merchantId).value, id, merchantId, validate) == Ok((t, Some(id)))
  {
    var k := FindIndex(t, id).value;
    assert Owned(t[k], id, merchantId);
    var t' := DeactivateProduct(t, id, merchantId).value;
    FindIndexSameVisibility(t, t', id);
    assert GetProduct(t', id) == Ok(t'[k]);
    assert Affected(t', id, merchantId) > 0 by { assert Owned(t'[k], id, merchantId); }
    ReactivateUndoesDeactivate(t, id, merchantId);
  }
}
