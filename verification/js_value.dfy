/** JavaScript values as the pages handle them: what `JSON.parse` returns,
    plus `Error` objects such as the ones the HTTP client rejects with.
    Numbers are integers; NaN and fractions do not occur. */
module JsValue {
  import opened Common
  import Text

  datatype Value =
    | Undefined
    | Null
    | Bool(b: bool)
    | Num(n: int)
    | Str(s: string)
    | Arr(items: seq<Value>)
    | Obj(fields: map<string, Value>)
    | ErrorObject(name: string, message: string, fields: map<string, Value>)

  /** JavaScript truthiness: `undefined`, `null`, `false`, `0` and `""` are
      falsy; every array, object and error is truthy, even an empty one. */
  predicate Truthy(v: Value) {
    match v
    case Undefined => false
    case Null => false
    case Bool(b) => b
    case Num(n) => n != 0
    case Str(s) => s != ""
    case _ => true
  }

  predicate Nullish(v: Value) {
    v.Undefined? || v.Null?
  }

  /** `v[key]` on a value that is neither null nor undefined: the own
      fields of objects, `name` and `message` of errors, `undefined` for
      everything else. */
  function Get(v: Value, key: string): (r: Value)
    ensures v.Obj? ==> r == (if key in v.fields then v.fields[key] else Undefined)
    ensures v.ErrorObject? && key == "message" ==> r == Str(v.message)
    ensures !v.Obj? && !v.ErrorObject? ==> r == Undefined
  {
    match v
    case Obj(fields) => if key in fields then fields[key] else Undefined
    case ErrorObject(name, message, fields) =>
      if key == "message" then Str(message)
      else if key == "name" then Str(name)
      else if key in fields then fields[key]
      else Undefined
    case _ => Undefined
  }

  /** `v.key`: a TypeError (`None`) when `v` is null or undefined. */
  function Member(v: Value, key: string): (r: Option<Value>)
    ensures r.None? <==> Nullish(v)
    ensures r.Some? ==> r.value == Get(v, key)
  {
    if Nullish(v) then None else Some(Get(v, key))
  }

  /** `v?.key`: `undefined` instead of a TypeError. */
  function Optional(v: Value, key: string): (r: Value)
    ensures Nullish(v) ==> r == Undefined
    ensures Member(v, key).Some? ==> r == Member(v, key).value
  {
    if Nullish(v) then Undefined else Get(v, key)
  }

  /** `String(v)`. An array joins its elements with commas, writing null
      and undefined elements as empty strings; an error is `name: message`,
      or just its name when the message is empty. */
  function ToString(v: Value): (text: string)
    ensures v.Str? ==> text == v.s
    ensures v.Num? ==> Text.ParseInt(text) == Some(v.n)
    ensures v.Arr? && |v.items| == 0 ==> text == ""
    ensures v.ErrorObject? && v.message != "" ==> text == v.name + ": " + v.message
  {
    match v
    case Undefined => "undefined"
    case Null => "null"
    case Bool(b) => if b then "true" else "false"
    case Num(n) => Text.ParseIntOfIntToString(n); Text.IntToString(n)
    case Str(s) => s
    case Arr(items) =>
      Text.Join(seq(|items|, i requires 0 <= i < |items| =>
                      if Nullish(items[i]) then "" else ToString(items[i])), ",")
    case Obj(_) => "[object Object]"
    case ErrorObject(name, message, _) => if message == "" then name else name + ": " + message
  }

  /** `items.join(sep)` on an array value. */
  function JoinValues(items: seq<Value>, sep: string): (text: string)
    ensures |items| == 1 && items[0].Str? ==> text == items[0].s
    ensures |items| == 0 ==> text == ""
  {
    Text.Join(seq(|items|, i requires 0 <= i < |items| =>
                    if Nullish(items[i]) then "" else ToString(items[i])), sep)
  }

  /** The array value holding each of `ss` as a string. */
  function Strings(ss: seq<string>): (r: Value)
    ensures r.Arr? && |r.items| == |ss|
    ensures forall i :: 0 <= i < |ss| ==> r.items[i] == Str(ss[i])
  {
    Arr(seq(|ss|, i requires 0 <= i < |ss| => Str(ss[i])))
  }

  /** Joining an array of strings is joining the strings. */
  lemma JoinStrings(ss: seq<string>, sep: string)
    ensures JoinValues(Strings(ss).items, sep) == Text.Join(ss, sep)
  {
    var items := Strings(ss).items;
    var texts := seq(|items|, i requires 0 <= i < |items| =>
                       if Nullish(items[i]) then "" else ToString(items[i]));
    assert texts == ss;
  }

  /** `anyError?.response?.data?.message`. */
  function ResponseMessage(error: Value): (m: Value)
    ensures !error.Obj? && !error.ErrorObject? ==> m == Undefined
  {
    Optional(Optional(Optional(error, "response"), "data"), "message")
  }

  /** `getErrorMessage`: a truthy response message wins, an array one
      joined with `", "` and anything else converted with `String`; failing
      that an error's own message, and failing that `String(error)`. */
  function ErrorMessage(error: Value): (text: string)
    ensures ResponseMessage(error).Arr? ==> text == JoinValues(ResponseMessage(error).items, ", ")
    ensures ResponseMessage(error).Str? && ResponseMessage(error).s != "" ==> text == ResponseMessage(error).s
    ensures Truthy(ResponseMessage(error)) && !ResponseMessage(error).Arr? ==> text == ToString(ResponseMessage(error))
    ensures !Truthy(ResponseMessage(error)) && error.ErrorObject? ==> text == error.message
    ensures !Truthy(ResponseMessage(error)) && !error.ErrorObject? ==> text == ToString(error)
  {
    var m := ResponseMessage(error);
    if Truthy(m) then
      if m.Arr? then JoinValues(m.items, ", ") else ToString(m)
    else if error.ErrorObject? then error.message
    else ToString(error)
  }

  /** The HTTP status a service exception is answered with. */
  function Status(e: Error): (code: int)
    ensures 400 <= code <= 500
  {
    match e
    case NotFound(_) => 404
    case BadRequest(_) => 400
    case Conflict(_) => 409
    case Internal(_) => 500
  }

  /** The JSON body the server answers an exception with: the HTTP
      exceptions carry their message; an unhandled error is reported as a
      generic internal server error. */
  function ResponseBody(e: Error): (body: Value)
    ensures body.Obj? && "message" in body.fields && body.fields["message"].Str?
  {
    var message := if e.Internal? then "Internal server error" else e.message;
    Obj(map["statusCode" := Num(Status(e)), "message" := Str(message)])
  }

  /** The error the HTTP client rejects with for a failed request whose
      response carries `body`. */
  function HttpFailure(status: int, body: Value): (err: Value)
    ensures err.ErrorObject? && Optional(Optional(err, "response"), "data") == body
  {
    ErrorObject("AxiosError", "Request failed with status code " + Text.IntToString(status),
                map["response" := Obj(map["status" := Num(status), "data" := body])])
  }

  /** A service exception reaches the user as its own message; an empty
      message falls back to the client's status text, and an unhandled
      error shows as a generic one. */
  lemma ServiceErrorShown(e: Error)
    ensures var text := ErrorMessage(HttpFailure(Status(e), ResponseBody(e)));
            && (e.Internal? ==> text == "Internal server error")
            && (!e.Internal? && e.message != "" ==> text == e.message)
            && (!e.Internal? && e.message == "" ==>
                  text == "Request failed with status code " + Text.IntToString(Status(e)))
  {
  }

  /** A response whose message is a list of validation messages shows them
      joined with a comma and a space. */
  lemma ValidationMessagesJoined(status: int, messages: seq<string>)
    ensures ErrorMessage(HttpFailure(status, Obj(map["message" := Strings(messages)])))
            == Text.Join(messages, ", ")
  {
    JoinStrings(messages, ", ");
  }
}
