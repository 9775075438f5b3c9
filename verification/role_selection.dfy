/** The role pickers of the user dialogs: the list of selected role ids
    that ticking a role's box toggles, the role manager that saves it for
    an existing user, and the dialog that creates a user with it. */
module RoleSelection {
  import opened Common
  import Lists
  import JsValue
  import Users

  /** The list holds each id at most once. */
  predicate NoDuplicates(ids: seq<int>) {
    forall i, j :: 0 <= i < j < |ids| ==> ids[i] != ids[j]
  }

  /** The filter that drops `id`. */
  function Other(id: int): (keep: int -> bool)
    ensures forall x :: keep(x) <==> x != id
  {
    (x: int) => x != id
  }

  /** `handleToggleRole`: a selected id is removed, every occurrence of it;
      an unselected one is appended at the end. */
  function Toggle(ids: seq<int>, id: int): (r: seq<int>)
    ensures id in ids ==> id !in r && forall x :: x != id ==> (x in r <==> x in ids)
    ensures id !in ids ==> r == ids + [id]
    ensures Lists.Filter(r, Other(id)) == Lists.Filter(ids, Other(id))
  {
    if id in ids then
      Lists.FilterIdempotent(ids, Other(id));
      Lists.Filter(ids, Other(id))
    else
      Lists.FilterAppend(ids, [id], Other(id));
      assert Lists.Filter([id], Other(id)) == [];
      ids + [id]
  }

  /** Removing elements keeps a list free of duplicates. */
  lemma {:induction false} FilterKeepsNoDuplicates(ids: seq<int>, keep: int -> bool)
    requires NoDuplicates(ids)
    ensures NoDuplicates(Lists.Filter(ids, keep))
  {
    if |ids| > 0 {
      FilterKeepsNoDuplicates(ids[1..], keep);
      var rest := Lists.Filter(ids[1..], keep);
      assert ids[0] !in ids[1..];
      assert ids[0] !in rest;
    }
  }

  /** Toggling keeps a duplicate-free selection duplicate-free. */
  lemma ToggleKeepsNoDuplicates(ids: seq<int>, id: int)
    requires NoDuplicates(ids)
    ensures NoDuplicates(Toggle(ids, id))
  {
    if id in ids {
      FilterKeepsNoDuplicates(ids, Other(id));
    }
  }

  /** Toggling the same id twice gives back the same set of ids, and the
      very same list when the id was not selected. */
  lemma ToggleTwiceRestores(ids: seq<int>, id: int)
    ensures forall x :: x in Toggle(Toggle(ids, id), id) <==> x in ids
    ensures id !in ids ==> Toggle(Toggle(ids, id), id) == ids
  {
    if id !in ids {
      var once := ids + [id];
      Lists.FilterAppend(ids, [id], Other(id));
      assert Lists.Filter([id], Other(id)) == [];
      Lists.FilterKeepsAll(ids, Other(id));
    }
  }

  /** The role ids of a user, in the order of their roles. */
  function RoleIds(user: Users.User): (ids: seq<int>)
    ensures |ids| == |user.roles|
    ensures forall i :: 0 <= i < |ids| ==> ids[i] == user.roles[i].id
  {
    seq(|user.roles|, i requires 0 <= i < |user.roles| => user.roles[i].id)
  }

  /** The role manager's effect on opening or on a change of user: the
      selection becomes the user's role ids; without a user it stays. */
  function SyncSelection(selection: seq<int>, user: Option<Users.User>): (r: seq<int>)
    ensures user.Some? ==> r == RoleIds(user.value)
    ensures user.None? ==> r == selection
  {
    if user.Some? then RoleIds(user.value) else selection
  }

  /** The role manager renders only while open and with a user. */
  predicate ManagerShown(open: bool, user: Option<Users.User>) {
    open && user.Some?
  }

  /** An admin who opens the manager on their own account and unticks the
      admin role is refused: `handleSave` sends the selection as the roles
      update of the user, and the update fails with a conflict. */
  lemma UntickingOwnAdminRoleIsRefused(users: Users.Table, roleTable: seq<Users.Role>, me: int)
    requires me in users && users[me].id == me && Users.HasRole(users[me].roles, Users.AdminRoleId)
    ensures var selection := Toggle(SyncSelection([], Some(users[me])), Users.AdminRoleId);
            var r := Users.UpdateRoles(users, roleTable, users[me].id, selection, me);
            r.Err? && r.error.Conflict?
  {
    var ids := RoleIds(users[me]);
    var i :| 0 <= i < |users[me].roles| && users[me].roles[i].id == Users.AdminRoleId;
    assert ids[i] == Users.AdminRoleId;
  }

  /** The create-user dialog's fields. */
  datatype CreateForm = CreateForm(email: string, password: string, roleIds: seq<int>, error: string)

  /** The form a new dialog starts with. */
  const EmptyForm: CreateForm := CreateForm("", "", [], "")

  /** The request the dialog sends. */
  datatype CreateUserDto = CreateUserDto(email: string, password: string, roleIds: seq<int>)

  /** `handleSubmit`: the error is cleared and exactly the form's email,
      password and role ids are sent. */
  function Submit(f: CreateForm): (r: (CreateForm, CreateUserDto))
    ensures r.0 == f.(error := "")
    ensures r.1.email == f.email && r.1.password == f.password && r.1.roleIds == f.roleIds
  {
    (f.(error := ""), CreateUserDto(f.email, f.password, f.roleIds))
  }

  /** On success the fields are reset and the dialog closes. */
  function OnCreated(f: CreateForm): (r: (CreateForm, bool))
    ensures r.0.email == "" && r.0.password == "" && r.0.roleIds == []
    ensures !r.1
  {
    (f.(email := "", password := "", roleIds := []), false)
  }

  /** On failure the error shows the failure's message. */
  function OnCreateFailed(f: CreateForm, err: JsValue.Value): CreateForm {
    f.(error := JsValue.ErrorMessage(err))
  }

  /** A service exception with a message shows that message in the
      dialog, and nothing else of the form changes. */
  lemma FailedCreateShowsServiceMessage(f: CreateForm, e: Error)
    requires !e.Internal? && e.message != ""
    ensures var r := OnCreateFailed(f, JsValue.HttpFailure(JsValue.Status(e), JsValue.ResponseBody(e)));
            r.error == e.message && r.(error := f.error) == f
  {
    JsValue.ServiceErrorShown(e);
  }

  /** After a submit that succeeds, the dialog is back to its empty form
      (the error was cleared by the submit itself). */
  lemma SuccessfulCreateResetsForm(f: CreateForm)
    ensures OnCreated(Submit(f).0).0 == EmptyForm
  {
  }

  /** The dialog's request, handed to the service, creates a user with
      the hash of the password typed and exactly the existing roles among
      the ticked ones. */
  lemma CreatedUserHasTickedRoles(f: CreateForm, users: Users.Table, roleTable: seq<Users.Role>, newId: int,
                                  hash: string -> string)
    requires newId !in users
    ensures var dto := Submit(f).1;
            var created := Users.CreateByAdmin(users, roleTable, newId, dto.email, dto.password, dto.roleIds, hash).1;
            && created.email == f.email && created.password == hash(f.password)
            && (forall i :: 0 <= i < |created.roles| ==> created.roles[i].id in f.roleIds)
            && (forall i :: 0 <= i < |roleTable| && roleTable[i].id in f.roleIds ==> roleTable[i] in created.roles)
  {
  }
}
