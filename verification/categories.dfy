/** The category service over the category table: its rows in storage
    order, the id being the primary key (so no two rows share one). */
module Categories {
  import opened Common
  import Lists

  datatype Category = Category(id: int, name: string)

  type Table = seq<Category>

  predicate HasId(t: Table, id: int) {
    exists i :: 0 <= i < |t| && t[i].id == id
  }

  /** The primary-key invariant. */
  predicate UniqueIds(t: Table) {
    forall i, j :: 0 <= i < j < |t| ==> t[i].id != t[j].id
  }

  /** A table after a call, with the category the call returns. */
  datatype Saved = Saved(table: Table, category: Category)

  /** `create`: Conflict when the id is taken, and the table is unchanged;
      otherwise the category is inserted and returned. */
  function Create(t: Table, id: int, name: string): (r: Result<Saved>)
    ensures r.Err? <==> HasId(t, id)
    ensures r.Err? ==> r.error == Conflict("Category with this ID already exists")
    ensures r.Ok? ==> r.value.table == t + [Category(id, name)] && r.value.category == Category(id, name)
    ensures r.Ok? && UniqueIds(t) ==> UniqueIds(r.value.table)
  {
    if HasId(t, id) then Err(Conflict("Category with this ID already exists"))
    else Ok(Saved(t + [Category(id, name)], Category(id, name)))
  }

  /** `update`: NotFound for an unknown id; otherwise only the name of that
      category changes. */
  function Update(t: Table, id: int, name: string): (r: Result<Saved>)
    ensures r.Err? <==> !HasId(t, id)
    ensures r.Err? ==> r.error == NotFound("Category not found")
    ensures r.Ok? ==> |r.value.table| == |t| && r.value.category == Category(id, name)
    ensures r.Ok? ==> forall i :: 0 <= i < |t| ==>
              r.value.table[i] == (if t[i].id == id then Category(id, name) else t[i])
    ensures r.Ok? && UniqueIds(t) ==> UniqueIds(r.value.table)
  {
    if !HasId(t, id) then Err(NotFound("Category not found"))
    else
      var t' := seq(|t|, i requires 0 <= i < |t| => if t[i].id == id then Category(id, name) else t[i]);
      Ok(Saved(t', Category(id, name)))
  }

  /** The rows a delete of `id` keeps. */
  function Without(id: int): (keep: Category -> bool)
    ensures forall c :: keep(c) <==> c.id != id
  {
    (c: Category) => c.id != id
  }

  /** The foreign key of `product.categoryId`: every category id a product
      row points to, soft-deleted rows included, names a category. */
  predicate ReferencesExist(t: Table, referenced: set<int>) {
    forall c :: c in referenced ==> HasId(t, c)
  }

  /** `delete`, given the category ids that product rows point to:
      NotFound when no row has the id. The foreign key of
      `product.categoryId` (no action on delete) makes the database refuse
      to remove a category a product still points to; that error is not an
      HTTP exception, so it is answered as an internal error, and nothing
      is removed. Otherwise the rows of every other id are kept, in order,
      and the id is gone. */
  function Delete(t: Table, id: int, referenced: set<int>): (r: Result<Table>)
    ensures r.Err? <==> !HasId(t, id) || id in referenced
    ensures !HasId(t, id) ==> r == Err(NotFound("Category not found"))
    ensures HasId(t, id) && id in referenced ==> r.Err? && r.error.Internal?
    ensures r.Ok? ==> !HasId(r.value, id)
    ensures r.Ok? ==> forall i :: 0 <= i < |t| && t[i].id != id ==> t[i] in r.value
    ensures r.Ok? ==> Lists.IsSubsequence(r.value, t)
    ensures r.Ok? && ReferencesExist(t, referenced) ==> ReferencesExist(r.value, referenced)
  {
    if !HasId(t, id) then Err(NotFound("Category not found"))
    else if id in referenced then
      Err(Internal("update or delete on table \"category\" violates foreign key constraint"))
    else Ok(Lists.Filter(t, Without(id)))
  }

  /** Deleting a category just created restores the table: no product can
      point to it yet. */
  lemma CreateThenDeleteRestores(t: Table, id: int, name: string, referenced: set<int>)
    requires !HasId(t, id)
    requires ReferencesExist(t, referenced)
    ensures Create(t, id, name).Ok?
    ensures Delete(Create(t, id, name).value.table, id, referenced) == Ok(t)
  {
    var keep := Without(id);
    var c := Category(id, name);
    var t' := t + [c];
    assert HasId(t', id) by {
      assert t'[|t|].id == id;
    }
    assert forall i :: 0 <= i < |t| ==> keep(t[i]);
    Lists.FilterAppend(t, [c], keep);
    Lists.FilterKeepsAll(t, keep);
    assert !keep(c);
    Lists.FilterKeepsNone([c], keep);
    assert Lists.Filter(t', keep) == t;
  }

  predicate SortedById(s: seq<Category>) {
    forall i, j :: 0 <= i < j < |s| ==> s[i].id <= s[j].id
  }

  /** `c` placed in front of the first row with a larger-or-equal id. */
  function Insert(c: Category, s: seq<Category>): (r: seq<Category>)
    ensures multiset(r) == multiset(s) + multiset{c}
  {
    if |s| == 0 || c.id <= s[0].id then [c] + s
    else
      assert s == [s[0]] + s[1..];
      [s[0]] + Insert(c, s[1..])
  }

  /** Inserting into a sorted list keeps it sorted. */
  lemma {:induction false} InsertKeepsSorted(c: Category, s: seq<Category>)
    requires SortedById(s)
    ensures SortedById(Insert(c, s))
  {
    if |s| > 0 && c.id > s[0].id {
      var rest := Insert(c, s[1..]);
      InsertKeepsSorted(c, s[1..]);
      forall k | 0 <= k < |rest|
        ensures s[0].id <= rest[k].id
      {
        assert rest[k] in multiset(rest);
        if rest[k] != c {
          assert rest[k] in multiset(s[1..]);
          var j :| 0 <= j < |s[1..]| && s[1..][j] == rest[k];
          assert s[j + 1] == rest[k];
        }
      }
    }
  }

  /** The rows sorted by id (insertion sort). */
  function SortById(s: seq<Category>): (r: seq<Category>)
    ensures multiset(r) == multiset(s)
  {
    if |s| == 0 then []
    else
      assert s == [s[0]] + s[1..];
      Insert(s[0], SortById(s[1..]))
  }

  lemma {:induction false} SortIsSorted(s: seq<Category>)
    ensures SortedById(SortById(s))
  {
    if |s| > 0 {
      SortIsSorted(s[1..]);
      InsertKeepsSorted(s[0], SortById(s[1..]));
    }
  }

  /** Inserting a row whose id is new keeps the ids unique. */
  lemma {:induction false} InsertKeepsUnique(c: Category, s: seq<Category>)
    requires UniqueIds(s)
    requires forall i :: 0 <= i < |s| ==> s[i].id != c.id
    ensures UniqueIds(Insert(c, s))
  {
    if |s| > 0 && c.id > s[0].id {
      InsertKeepsUnique(c, s[1..]);
      var rest := Insert(c, s[1..]);
      forall k | 0 <= k < |rest|
        ensures rest[k].id != s[0].id
      {
        assert rest[k] in multiset(rest);
        if rest[k] != c {
          assert rest[k] in multiset(s[1..]);
          var j :| 0 <= j < |s[1..]| && s[1..][j] == rest[k];
          assert s[j + 1] == rest[k];
        }
      }
    }
  }

  /** Sorting keeps the ids unique. */
  lemma {:induction false} SortKeepsUnique(s: seq<Category>)
    requires UniqueIds(s)
    ensures UniqueIds(SortById(s))
  {
    if |s| > 0 {
      var rest := SortById(s[1..]);
      SortKeepsUnique(s[1..]);
      forall k | 0 <= k < |rest|
        ensures rest[k].id != s[0].id
      {
        assert rest[k] in multiset(rest);
        assert rest[k] in multiset(s[1..]);
        var j :| 0 <= j < |s[1..]| && s[1..][j] == rest[k];
        assert s[j + 1] == rest[k];
      }
      InsertKeepsUnique(s[0], rest);
    }
  }

  /** `findAll`: the categories ordered by ascending id. */
  function FindAll(t: Table): (r: seq<Category>)
    ensures multiset(r) == multiset(t)
    ensures forall i, j :: 0 <= i < j < |r| ==> r[i].id <= r[j].id
  {
    SortIsSorted(t);
    SortById(t)
  }

  /** With unique ids the order is strict. */
  lemma FindAllStrictlyAscending(t: Table)
    requires UniqueIds(t)
    ensures forall i, j :: 0 <= i < j < |FindAll(t)| ==> FindAll(t)[i].id < FindAll(t)[j].id
  {
    SortKeepsUnique(t);
    SortIsSorted(t);
  }
}
