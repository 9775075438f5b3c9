/** The categories page: the searchable list, the admin-only controls, the
    confirmed delete, and the dialog that creates or renames a category. */
module CategoriesPage {
  import opened Common
  import opened PageRoles
  import Lists
  import JsValue
  import Search
  import Categories
  import Layout

  const NoneFoundText: string := "No categories found."
  const SaveFailedText: string := "Failed to save category"

  /** The ids the dialog draws for a new category:
      `Math.floor(Math.random() * 100000)`. */
  const RandomIdBound: int := 100000

  function Name(c: Categories.Category): string {
    c.name
  }

  /** The categories whose name contains the search term, ignoring case. */
  function Filtered(categories: seq<Categories.Category>, term: string): (r: seq<Categories.Category>)
    ensures forall c :: c in r <==> c in categories && Search.Matches(c.name, term)
    ensures Lists.IsSubsequence(r, categories)
  {
    Search.FilterBy(categories, Name, term)
  }

  /** What the page shows: a spinner while loading; otherwise the filtered
      rows (none when the list failed to load), the empty-list notice, and
      whether the create, edit and delete controls are there. */
  datatype View =
    | Spinner
    | Listing(rows: seq<Categories.Category>, noneFound: bool, adminControls: bool)

  function Render(loading: bool, categories: Option<seq<Categories.Category>>, term: string, user: User): (v: View)
    ensures v.Spinner? <==> loading
    ensures v.Listing? ==> (v.adminControls <==> IsAdmin(user))
    ensures v.Listing? && categories.None? ==> v.rows == [] && !v.noneFound
    ensures v.Listing? && categories.Some? ==>
              && (forall c :: c in v.rows <==> c in categories.value && Search.Matches(c.name, term))
              && (v.noneFound <==> v.rows == [])
  {
    if loading then Spinner
    else
      match categories
      case None => Listing([], false, IsAdmin(user))
      case Some(cs) =>
        var rows := Filtered(cs, term);
        Listing(rows, |rows| == 0, IsAdmin(user))
  }

  /** An empty search lists every category, in order, and the empty-list
      notice shows only when there are none. */
  lemma EmptySearchListsAll(categories: seq<Categories.Category>, user: User)
    ensures var v := Render(false, Some(categories), "", user);
            v.rows == categories && (v.noneFound <==> categories == [])
  {
    Search.EmptyTermKeepsAll(categories, Name);
  }

  /** The users who may create, rename and delete categories here are
      exactly those whose sidebar offers the categories page. */
  lemma ControlsFollowNavigation(categories: Option<seq<Categories.Category>>, term: string, user: User)
    ensures Render(false, categories, term, user).adminControls
            <==> Layout.Offered(user, Layout.CategoriesLink)
  {
  }

  /** `handleDelete`: the id is sent only once the prompt is confirmed;
      the service's answer to a sent delete, or the table as it was when
      nothing was sent. `referenced` holds the category ids product rows
      point to. */
  function ApplyDelete(t: Categories.Table, referenced: set<int>, confirmed: bool, id: int)
    : Result<Categories.Table>
  {
    match IfConfirmed(confirmed, id)
    case None => Ok(t)
    case Some(target) => Categories.Delete(t, target, referenced)
  }

  /** A confirmed delete of a listed category that no product points to
      takes it off the list whatever the search; one that a product still
      points to fails as an internal error; a cancelled one changes
      nothing. */
  lemma ConfirmedDeleteRemovesRow(t: Categories.Table, referenced: set<int>, confirmed: bool,
                                  c: Categories.Category, term: string)
    requires c in t
    ensures !confirmed ==> ApplyDelete(t, referenced, confirmed, c.id) == Ok(t)
    ensures confirmed && c.id !in referenced ==>
              ApplyDelete(t, referenced, confirmed, c.id).Ok?
              && c !in Filtered(ApplyDelete(t, referenced, confirmed, c.id).value, term)
    ensures confirmed && c.id in referenced ==>
              ApplyDelete(t, referenced, confirmed, c.id).Err?
              && ApplyDelete(t, referenced, confirmed, c.id).error.Internal?
  {
    if confirmed {
      var i :| 0 <= i < |t| && t[i] == c;
      assert Categories.HasId(t, c.id);
    }
  }

  /** The dialog's name field starts as the edited category's name, or
      empty for a new one. */
  function InitialName(category: Option<Categories.Category>): (name: string)
    ensures category.Some? ==> name == category.value.name
    ensures category.None? ==> name == ""
  {
    if category.Some? then category.value.name else ""
  }

  /** What `handleSubmit` sends: only the name, to the edited category's
      id, when editing; a drawn id with the name when creating. */
  datatype Payload = RenamePayload(id: int, name: string) | CreatePayload(id: int, name: string)

  function SubmitPayload(category: Option<Categories.Category>, name: string, randomId: int): (p: Payload)
    ensures p.RenamePayload? <==> category.Some?
    ensures p.name == name
    ensures p.RenamePayload? ==> p.id == category.value.id
    ensures p.CreatePayload? ==> p.id == randomId
  {
    if category.Some? then RenamePayload(category.value.id, name) else CreatePayload(randomId, name)
  }

  /** The service call the payload makes. */
  function Save(t: Categories.Table, p: Payload): Result<Categories.Saved> {
    match p
    case RenamePayload(id, name) => Categories.Update(t, id, name)
    case CreatePayload(id, name) => Categories.Create(t, id, name)
  }

  /** The dialog's error after a failed save: the response's message when
      it is truthy, else a fixed text. */
  function SaveError(err: JsValue.Value): (shown: JsValue.Value)
    ensures JsValue.Truthy(JsValue.ResponseMessage(err)) ==> shown == JsValue.ResponseMessage(err)
    ensures !JsValue.Truthy(JsValue.ResponseMessage(err)) ==> shown == JsValue.Str(SaveFailedText)
  {
    var m := JsValue.ResponseMessage(err);
    if JsValue.Truthy(m) then m else JsValue.Str(SaveFailedText)
  }

  /** The failure the dialog receives for a service exception. */
  function Failure(e: Error): JsValue.Value {
    JsValue.HttpFailure(JsValue.Status(e), JsValue.ResponseBody(e))
  }

  /** Creating: a drawn id that is already taken is refused with the
      service's conflict message in the dialog; a free one adds the
      category with that id and name. */
  lemma CreateOutcome(t: Categories.Table, name: string, randomId: int)
    requires 0 <= randomId < RandomIdBound
    ensures var r := Save(t, SubmitPayload(None, name, randomId));
            && (Categories.HasId(t, randomId) ==>
                  r.Err? && r.error.Conflict?
                  && SaveError(Failure(r.error)) == JsValue.Str(r.error.message))
            && (!Categories.HasId(t, randomId) ==>
                  r.Ok? && r.value.table == t + [Categories.Category(randomId, name)])
  {
  }

  /** Renaming a category that is still there keeps its id and changes only
      its name; one deleted meanwhile is refused as not found. */
  lemma RenameOutcome(t: Categories.Table, c: Categories.Category, name: string, randomId: int)
    ensures var r := Save(t, SubmitPayload(Some(c), name, randomId));
            && (Categories.HasId(t, c.id) ==> r.Ok? && r.value.category == Categories.Category(c.id, name))
            && (!Categories.HasId(t, c.id) ==>
                  r.Err? && r.error.NotFound?
                  && SaveError(Failure(r.error)) == JsValue.Str(r.error.message))
  {
  }
}
