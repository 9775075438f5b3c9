/** The authentication context: the user and token the pages see, kept in
    browser storage under the keys `user` and `token`. `JSON.parse` and
    `JSON.stringify` are parameters: `parse` answers `None` where the real
    one throws. */
module AuthContext {
  import opened Common
  import JsValue

  type Storage = map<string, string>

  const UserKey: string := "user"
  const TokenKey: string := "token"

  /** The context's state: the user (`Null` when signed out), the token
      (`Null` when signed out), and the storage. */
  datatype Auth = Auth(user: JsValue.Value, token: JsValue.Value, storage: Storage)

  /** The response of a login call. */
  datatype AuthResponse = AuthResponse(user: JsValue.Value, accessToken: JsValue.Value)

  /** The stored user text the initialiser parses: present, not empty and
      not the literal `undefined`. */
  predicate HasStoredUser(storage: Storage) {
    UserKey in storage && storage[UserKey] != "" && storage[UserKey] != "undefined"
  }

  /** The user's initial value: `null` without a stored user; the parsed
      text otherwise; and when the text does not parse, `null` with the
      stored user removed. */
  function InitialUser(storage: Storage, parse: string -> Option<JsValue.Value>): (r: (JsValue.Value, Storage))
    ensures !HasStoredUser(storage) ==> r == (JsValue.Null, storage)
    ensures HasStoredUser(storage) && parse(storage[UserKey]).Some? ==>
              r == (parse(storage[UserKey]).value, storage)
    ensures HasStoredUser(storage) && parse(storage[UserKey]).None? ==>
              r.0 == JsValue.Null && r.1 == storage - {UserKey}
  {
    if !HasStoredUser(storage) then (JsValue.Null, storage)
    else
      match parse(storage[UserKey])
      case Some(v) => (v, storage)
      case None => (JsValue.Null, storage - {UserKey})
  }

  /** The token's initial value: the stored token, or `null`. */
  function InitialToken(storage: Storage): (t: JsValue.Value)
    ensures TokenKey in storage ==> t == JsValue.Str(storage[TokenKey])
    ensures TokenKey !in storage ==> t == JsValue.Null
  {
    if TokenKey in storage then JsValue.Str(storage[TokenKey]) else JsValue.Null
  }

  /** The context as the provider mounts it. */
  function Init(storage: Storage, parse: string -> Option<JsValue.Value>): (a: Auth)
    ensures a.token == InitialToken(storage)
    ensures (a.user, a.storage) == InitialUser(storage, parse)
  {
    var (user, storage') := InitialUser(storage, parse);
    Auth(user, InitialToken(storage), storage')
  }

  /** `isAuthenticated`: `!!token`. */
  predicate IsAuthenticated(a: Auth) {
    JsValue.Truthy(a.token)
  }

  /** Right after mounting, the user counts as signed in exactly when a
      non-empty token is stored; the stored user plays no part. */
  lemma InitiallyAuthenticatedIffTokenStored(storage: Storage, parse: string -> Option<JsValue.Value>)
    ensures IsAuthenticated(Init(storage, parse)) <==> TokenKey in storage && storage[TokenKey] != ""
  {
  }

  /** `login`: both state values are set from the response; each storage
      key is written only when its value is truthy, with the user as JSON
      text and the token converted to a string. */
  function Login(a: Auth, data: AuthResponse, stringify: JsValue.Value -> string): (r: Auth)
    ensures r.user == data.user && r.token == data.accessToken
    ensures JsValue.Truthy(data.user) ==> UserKey in r.storage && r.storage[UserKey] == stringify(data.user)
    ensures !JsValue.Truthy(data.user) ==>
              (UserKey in r.storage <==> UserKey in a.storage)
              && (UserKey in a.storage ==> r.storage[UserKey] == a.storage[UserKey])
    ensures JsValue.Truthy(data.accessToken) ==>
              TokenKey in r.storage && r.storage[TokenKey] == JsValue.ToString(data.accessToken)
    ensures !JsValue.Truthy(data.accessToken) ==>
              (TokenKey in r.storage <==> TokenKey in a.storage)
              && (TokenKey in a.storage ==> r.storage[TokenKey] == a.storage[TokenKey])
    ensures forall k :: k != UserKey && k != TokenKey ==>
              (k in r.storage <==> k in a.storage) && (k in a.storage ==> r.storage[k] == a.storage[k])
  {
    var withUser := if JsValue.Truthy(data.user) then a.storage[UserKey := stringify(data.user)] else a.storage;
    var withToken := if JsValue.Truthy(data.accessToken)
                     then withUser[TokenKey := JsValue.ToString(data.accessToken)]
                     else withUser;
    Auth(data.user, data.accessToken, withToken)
  }

  /** `logout`: both state values become `null` and both keys are removed. */
  function Logout(a: Auth): (r: Auth)
    ensures r.user == JsValue.Null && r.token == JsValue.Null
    ensures UserKey !in r.storage && TokenKey !in r.storage
    ensures forall k :: k != UserKey && k != TokenKey ==>
              (k in r.storage <==> k in a.storage) && (k in a.storage ==> r.storage[k] == a.storage[k])
  {
    Auth(JsValue.Null, JsValue.Null, a.storage - {UserKey, TokenKey})
  }

  /** Logging in and then out leaves neither key in storage, whatever it
      held before, and the next mount starts signed out. */
  lemma LoginThenLogoutSignsOut(a: Auth, data: AuthResponse, stringify: JsValue.Value -> string,
                                parse: string -> Option<JsValue.Value>)
    ensures var r := Logout(Login(a, data, stringify));
            && UserKey !in r.storage && TokenKey !in r.storage
            && !IsAuthenticated(r)
            && Init(r.storage, parse) == Auth(JsValue.Null, JsValue.Null, r.storage)
  {
  }

  /** A login with a user and a non-empty token survives a reload: the next
      mount reads back the same user and token, provided the user's JSON
      text parses back to the user. */
  lemma ReloadRestoresLogin(a: Auth, user: JsValue.Value, token: string,
                            stringify: JsValue.Value -> string, parse: string -> Option<JsValue.Value>)
    requires JsValue.Truthy(user) && token != ""
    requires stringify(user) != "" && stringify(user) != "undefined"
    requires parse(stringify(user)) == Some(user)
    ensures var r := Login(a, AuthResponse(user, JsValue.Str(token)), stringify);
            var reloaded := Init(r.storage, parse);
            && reloaded.user == user && reloaded.token == JsValue.Str(token)
            && reloaded.storage == r.storage && IsAuthenticated(reloaded)
  {
  }

  /** A login response without a user leaves whatever user was stored
      before, so a reload brings back that earlier user. */
  lemma LoginWithoutUserKeepsStoredUser(a: Auth, data: AuthResponse, stringify: JsValue.Value -> string,
                                        parse: string -> Option<JsValue.Value>)
    requires !JsValue.Truthy(data.user)
    ensures Init(Login(a, data, stringify).storage, parse).user == InitialUser(a.storage, parse).0
  {
  }
}
