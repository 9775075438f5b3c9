/** The user service: users with their roles, role assignment with the
    guard against an admin removing their own admin role, and password
    handling. Hashing and comparison are bcrypt's and enter as parameters:
    `hash` maps a plaintext to what is stored, `matches(plain, stored)` is
    bcrypt's `compare`. */
module Users {
  import opened Common
  import Lists

  /** The id of the admin role. */
  const AdminRoleId: int := 3

  datatype Role = Role(id: int, name: string)

  datatype User = User(id: int, email: string, password: string, roles: seq<Role>)

  type Table = map<int, User>

  predicate HasRole(roles: seq<Role>, roleId: int) {
    exists i :: 0 <= i < |roles| && roles[i].id == roleId
  }

  /** `find({ where: { id: In(roleIds) } })` on the role table: the
      existing roles whose id is listed, in table order. */
  function SelectRoles(roleTable: seq<Role>, roleIds: seq<int>): (r: seq<Role>)
    ensures forall i :: 0 <= i < |r| ==> r[i] in roleTable && r[i].id in roleIds
    ensures forall i :: 0 <= i < |roleTable| && roleTable[i].id in roleIds ==> roleTable[i] in r
    ensures Lists.IsSubsequence(r, roleTable)
  {
    Lists.Filter(roleTable, (role: Role) => role.id in roleIds)
  }

  /** The message of `errorMessages.user.notFound`; that table is not part
      of this model, so the message stands in by its key. */
  const UserNotFound: string := "user.notFound"

  /** `findById`: NotFound for an unknown id. */
  function FindById(users: Table, id: int): (r: Result<User>)
    ensures r.Ok? <==> id in users
    ensures r.Ok? ==> r.value == users[id]
    ensures r.Err? ==> r.error == NotFound(UserNotFound)
  {
    if id in users then Ok(users[id]) else Err(NotFound(UserNotFound))
  }

  /** `createUser`: stores the hash of the password with the given roles
      under the id the database assigns. */
  function CreateUser(users: Table, newId: int, email: string, password: string, roles: seq<Role>,
                      hash: string -> string): (r: (Table, User))
    requires newId !in users
    ensures r.1 == User(newId, email, hash(password), roles)
    ensures r.0 == users[newId := r.1]
  {
    var user := User(newId, email, hash(password), roles);
    (users[newId := user], user)
  }

  /** `createByAdmin`: like `createUser`, with the existing roles among the
      requested ids. */
  function CreateByAdmin(users: Table, roleTable: seq<Role>, newId: int, email: string, password: string,
                         roleIds: seq<int>, hash: string -> string): (r: (Table, User))
    requires newId !in users
    ensures r.1.id == newId && r.1.email == email && r.1.password == hash(password)
    ensures r.0 == users[newId := r.1]
    ensures forall i :: 0 <= i < |r.1.roles| ==> r.1.roles[i] in roleTable && r.1.roles[i].id in roleIds
    ensures forall i :: 0 <= i < |roleTable| && roleTable[i].id in roleIds ==> roleTable[i] in r.1.roles
  {
    CreateUser(users, newId, email, password, SelectRoles(roleTable, roleIds), hash)
  }

  /** The self-demotion guard: the caller edits their own account, holds
      the admin role, and the new list leaves it out. */
  predicate SelfDemotion(user: User, roleIds: seq<int>, currentUserId: int) {
    user.id == currentUserId && HasRole(user.roles, AdminRoleId) && AdminRoleId !in roleIds
  }

  /** `updateRoles`: NotFound for an unknown user; Conflict, with nothing
      written, when an admin would remove their own admin role; otherwise
      the user's roles become the existing roles among `roleIds`. */
  function UpdateRoles(users: Table, roleTable: seq<Role>, userId: int, roleIds: seq<int>,
                       currentUserId: int): (r: Result<(Table, User)>)
    ensures userId !in users ==> r.Err? && r.error.NotFound?
    ensures userId in users ==>
              (r.Err? <==> userId == currentUserId && HasRole(users[userId].roles, AdminRoleId)
                           && AdminRoleId !in roleIds)
    ensures r.Err? && userId in users ==> r.error.Conflict?
    ensures r.Ok? ==>
      && userId in users
      && r.value.1 == users[userId].(roles := r.value.1.roles)
      && r.value.0 == users[userId := r.value.1]
      && (forall i :: 0 <= i < |r.value.1.roles| ==>
            r.value.1.roles[i] in roleTable && r.value.1.roles[i].id in roleIds)
      && (forall i :: 0 <= i < |roleTable| && roleTable[i].id in roleIds ==> roleTable[i] in r.value.1.roles)
  {
    var user :- FindById(users, userId);
    if userId == currentUserId && HasRole(user.roles, AdminRoleId) && AdminRoleId !in roleIds then
      Err(Conflict("You cannot remove your own Admin role"))
    else
      var updated := user.(roles := SelectRoles(roleTable, roleIds));
      Ok((users[userId := updated], updated))
  }

  /** The guard only concerns the caller's own account: on anyone else's
      account the update always goes through. */
  lemma GuardOnlyForOwnAccount(users: Table, roleTable: seq<Role>, userId: int, roleIds: seq<int>,
                               currentUserId: int)
    requires userId in users && userId != currentUserId
    ensures UpdateRoles(users, roleTable, userId, roleIds, currentUserId).Ok?
  {
  }

  /** An admin who edits their own roles is still an admin afterwards, as
      long as the admin role exists. */
  lemma AdminKeepsOwnAdminRole(users: Table, roleTable: seq<Role>, userId: int, roleIds: seq<int>)
    requires userId in users && HasRole(users[userId].roles, AdminRoleId)
    requires HasRole(roleTable, AdminRoleId)
    requires UpdateRoles(users, roleTable, userId, roleIds, userId).Ok?
    ensures HasRole(UpdateRoles(users, roleTable, userId, roleIds, userId).value.1.roles, AdminRoleId)
  {
    var roles := UpdateRoles(users, roleTable, userId, roleIds, userId).value.1.roles;
    var i :| 0 <= i < |roleTable| && roleTable[i].id == AdminRoleId;
    assert roleTable[i] in roles;
    var j :| 0 <= j < |roles| && roles[j] == roleTable[i];
  }

  /** `resetPassword`: NotFound for an unknown user; otherwise the stored
      password becomes the hash of the new one, with no other check. */
  function ResetPassword(users: Table, userId: int, newPassword: string, hash: string -> string): (r: Result<Table>)
    ensures r.Ok? <==> userId in users
    ensures r.Err? ==> r.error.NotFound?
    ensures r.Ok? ==> r.value == users[userId := users[userId].(password := hash(newPassword))]
  {
    var user :- FindById(users, userId);
    Ok(users[userId := user.(password := hash(newPassword))])
  }

  /** `changePassword`: NotFound for an unknown user; Conflict, with the
      password unchanged, when the old password does not match the stored
      hash; otherwise the stored password becomes the hash of the new one. */
  function ChangePassword(users: Table, userId: int, oldPassword: string, newPassword: string,
                          hash: string -> string, matches: (string, string) -> bool): (r: Result<Table>)
    ensures userId !in users ==> r.Err? && r.error.NotFound?
    ensures userId in users && !matches(oldPassword, users[userId].password) ==> r.Err? && r.error.Conflict?
    ensures r.Ok? <==> userId in users && matches(oldPassword, users[userId].password)
    ensures r.Ok? ==> r.value == users[userId := users[userId].(password := hash(newPassword))]
  {
    var user :- FindById(users, userId);
    if !matches(oldPassword, user.password) then Err(Conflict("Old password does not match"))
    else Ok(users[userId := user.(password := hash(newPassword))])
  }

  /** A successful change stores what a reset to the same password stores. */
  lemma ChangeIsCheckedReset(users: Table, userId: int, oldPassword: string, newPassword: string,
                             hash: string -> string, matches: (string, string) -> bool)
    requires ChangePassword(users, userId, oldPassword, newPassword, hash, matches).Ok?
    ensures ChangePassword(users, userId, oldPassword, newPassword, hash, matches)
            == ResetPassword(users, userId, newPassword, hash)
  {
  }

  /** When `matches` accepts a password against its own hash, as bcrypt
      does, the password just set is the one a later change accepts. */
  lemma ChangeAcceptsPasswordJustSet(users: Table, userId: int, p: string, q: string,
                                     hash: string -> string, matches: (string, string) -> bool)
    requires userId in users
    requires forall x :: matches(x, hash(x))
    ensures ResetPassword(users, userId, p, hash).Ok?
    ensures ChangePassword(ResetPassword(users, userId, p, hash).value, userId, p, q, hash, matches).Ok?
  {
    assert matches(p, hash(p));
  }

  /** A user just created is found by id, and, when `matches` accepts a
      password against its own hash, can change the password they were
      created with. */
  lemma CreatedUserCanChangePassword(users: Table, newId: int, email: string, password: string,
                                     roles: seq<Role>, q: string, hash: string -> string,
                                     matches: (string, string) -> bool)
    requires newId !in users
    requires forall x :: matches(x, hash(x))
    ensures var (users', user) := CreateUser(users, newId, email, password, roles, hash);
            && FindById(users', newId) == Ok(user)
            && ChangePassword(users', newId, password, q, hash, matches).Ok?
  {
    assert matches(password, hash(password));
  }
}
