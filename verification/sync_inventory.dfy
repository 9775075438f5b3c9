/** The inventory sync script: every listed product without an inventory
    row gets one from `createInventory`. */
module SyncInventory {
  import opened Common
  import Products
  import Inventory

  /** A product that `find()` returns, that is, one not soft-deleted. */
  predicate Listed(products: Products.Table, productId: int) {
    exists i :: 0 <= i < |products| && !products[i].deleted && products[i].id == productId
  }

  /** The ids of the products `find()` returns, in storage order. */
  function ListedIds(products: Products.Table): (ids: seq<int>)
    ensures forall j :: 0 <= j < |ids| ==> Listed(products, ids[j])
    ensures forall i :: 0 <= i < |products| && !products[i].deleted ==> products[i].id in ids
  {
    var listed := Products.FindAll(products, true, false);
    var ids := seq(|listed|, j requires 0 <= j < |listed| => listed[j].id);
    assert forall j :: 0 <= j < |ids| ==> Listed(products, ids[j]) by {
      forall j | 0 <= j < |ids|
        ensures Listed(products, ids[j])
      {
        var i :| 0 <= i < |products| && products[i] == listed[j];
      }
    }
    assert forall i :: 0 <= i < |products| && !products[i].deleted ==> products[i].id in ids by {
      forall i | 0 <= i < |products| && !products[i].deleted
        ensures products[i].id in ids
      {
        var j :| 0 <= j < |listed| && listed[j] == products[i];
        assert ids[j] == products[i].id;
      }
    }
    ids
  }

  /** The loop of `bootstrap` over a list of product ids: create the row
      of each id that has none, leave the others alone. */
  method CreateMissing(s: Inventory.Store, ids: seq<int>) returns (r: Inventory.Store)
    ensures forall pid :: pid in ids ==> pid in r
    ensures forall pid :: pid in s ==> pid in r && r[pid] == s[pid]
    ensures forall pid :: pid in r && pid !in s ==>
              r[pid] == Inventory.Row(0, Inventory.DefaultMinStock) && pid in ids
    ensures (forall pid :: pid in ids ==> pid in s) ==> r == s
  {
    r := s;
    var k := 0;
    while k < |ids|
      invariant 0 <= k <= |ids|
      invariant forall pid :: pid in ids[..k] ==> pid in r
      invariant forall pid :: pid in s ==> pid in r && r[pid] == s[pid]
      invariant forall pid :: pid in r && pid !in s ==>
                  r[pid] == Inventory.Row(0, Inventory.DefaultMinStock) && pid in ids[..k]
      invariant (forall pid :: pid in ids ==> pid in s) ==> r == s
    {
      if ids[k] !in r {
        var created := Inventory.CreateInventory(r, ids[k]);
        r := created.value.store;
      }
      assert ids[..k + 1] == ids[..k] + [ids[k]];
      k := k + 1;
    }
    assert ids[..k] == ids;
  }

  /** `bootstrap`: every listed product ends up with a row; rows that
      existed are untouched; the new rows are `createInventory`'s, and a
      second run changes nothing. */
  method Bootstrap(s: Inventory.Store, products: Products.Table) returns (r: Inventory.Store)
    ensures forall i :: 0 <= i < |products| && !products[i].deleted ==> products[i].id in r
    ensures forall pid :: pid in s ==> pid in r && r[pid] == s[pid]
    ensures forall pid :: pid in r && pid !in s ==>
              r[pid] == Inventory.Row(0, Inventory.DefaultMinStock) && Listed(products, pid)
    ensures (forall i :: 0 <= i < |products| && !products[i].deleted ==> products[i].id in s) ==> r == s
  {
    var ids := ListedIds(products);
    r := CreateMissing(s, ids);
    if forall i :: 0 <= i < |products| && !products[i].deleted ==> products[i].id in s {
      forall pid | pid in ids
        ensures pid in s
      {
        assert Listed(products, pid);
      }
    }
  }
}
