/** The profile page's change-password form. */
module Profile {
  import opened Common
  import JsValue
  import Users

  const MismatchMessage: string := "New passwords do not match"
  const TooShortMessage: string := "Password must be at least 6 characters long"

  /** The shortest new password the form accepts. */
  const MinPasswordLength: nat := 6

  datatype Form = Form(oldPassword: string, newPassword: string, confirmPassword: string,
                       error: string, success: bool)

  /** What a submit leads to: the form afterwards, and the
      `(oldPassword, newPassword)` of the change request when one is sent. */
  datatype Submitted = Submitted(form: Form, request: Option<(string, string)>)

  /** `handleSubmit`: error and success are cleared first; mismatching new
      passwords are reported, then a new password under six characters;
      otherwise the change request carries the old and new passwords. */
  function Submit(f: Form): (r: Submitted)
    ensures !r.form.success
    ensures r.form.(error := f.error, success := f.success) == f
    ensures f.newPassword != f.confirmPassword ==> r.form.error == MismatchMessage && r.request.None?
    ensures f.newPassword == f.confirmPassword && |f.newPassword| < MinPasswordLength ==>
              r.form.error == TooShortMessage && r.request.None?
    ensures r.request.Some? <==> f.newPassword == f.confirmPassword && |f.newPassword| >= MinPasswordLength
    ensures r.request.Some? ==> r.form.error == "" && r.request.value == (f.oldPassword, f.newPassword)
  {
    var cleared := f.(error := "", success := false);
    if f.newPassword != f.confirmPassword then Submitted(cleared.(error := MismatchMessage), None)
    else if |f.newPassword| < MinPasswordLength then Submitted(cleared.(error := TooShortMessage), None)
    else Submitted(cleared, Some((f.oldPassword, f.newPassword)))
  }

  /** On success the three fields are cleared and success is shown. */
  function OnChanged(f: Form): (r: Form)
    ensures r.success && r.oldPassword == "" && r.newPassword == "" && r.confirmPassword == ""
    ensures r.error == f.error
  {
    f.(success := true, oldPassword := "", newPassword := "", confirmPassword := "")
  }

  /** On failure the error shows the failure's message. */
  function OnFailed(f: Form, err: JsValue.Value): Form {
    f.(error := JsValue.ErrorMessage(err))
  }

  /** A sent request's new password was typed twice and is at least six
      characters long; mismatched passwords are reported whatever their
      length. */
  lemma SentPasswordsAreConfirmedAndLongEnough(f: Form)
    ensures Submit(f).request.Some? ==>
              f.newPassword == f.confirmPassword && |Submit(f).request.value.1| >= MinPasswordLength
    ensures f.newPassword != f.confirmPassword ==> Submit(f).form.error == MismatchMessage
  {
  }

  /** Submitting against the service: a wrong old password shows the
      service's conflict message and leaves the stored password alone; a
      right one stores the hash of the new password and clears the form. */
  lemma SubmitAgainstService(f: Form, users: Users.Table, me: int, hash: string -> string,
                             matches: (string, string) -> bool)
    requires me in users
    requires Submit(f).request.Some?
    ensures var req := Submit(f).request.value;
            var r := Users.ChangePassword(users, me, req.0, req.1, hash, matches);
            && (!matches(f.oldPassword, users[me].password) ==>
                  r.Err? && r.error.Conflict?
                  && OnFailed(Submit(f).form,
                              JsValue.HttpFailure(JsValue.Status(r.error), JsValue.ResponseBody(r.error))).error
                     == r.error.message)
            && (matches(f.oldPassword, users[me].password) ==>
                  r.Ok? && r.value[me].password == hash(f.newPassword)
                  && OnChanged(Submit(f).form).success)
  {
    var req := Submit(f).request.value;
    var r := Users.ChangePassword(users, me, req.0, req.1, hash, matches);
    if r.Err? {
      assert r.error.message != "";
      JsValue.ServiceErrorShown(r.error);
    }
  }
}
