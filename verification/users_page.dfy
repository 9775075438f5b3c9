/** The user management page: the list of users searched by email. */
module UsersPage {
  import opened Common
  import Lists
  import Search
  import Users

  const LoadFailedText: string := "Failed to load users. Please try again later."
  const NoMatchPrefix: string := "No users found matching \""

  function Email(u: Users.User): string {
    u.email
  }

  /** The users whose email contains the search term, ignoring case. */
  function Filtered(users: seq<Users.User>, term: string): (r: seq<Users.User>)
    ensures forall u :: u in r <==> u in users && Search.Matches(u.email, term)
    ensures Lists.IsSubsequence(r, users)
  {
    Search.FilterBy(users, Email, term)
  }

  /** The text of the row shown when no user matches. */
  function NoMatchText(term: string): (text: string)
    ensures |text| == |NoMatchPrefix| + |term| + 1
    ensures text[..|NoMatchPrefix|] == NoMatchPrefix
    ensures text[|text| - 1] == '"'
    ensures text[|NoMatchPrefix|..|text| - 1] == term
  {
    NoMatchPrefix + term + "\""
  }

  /** What the page shows: a spinner while loading, then the error text
      when loading failed, and otherwise the table's rows with the
      no-match row when there is one. */
  datatype View =
    | Spinner
    | LoadFailed
    | Table(rows: seq<Users.User>, noMatch: Option<string>)

  function Render(loading: bool, failed: bool, users: Option<seq<Users.User>>, term: string): (v: View)
    ensures v.Spinner? <==> loading
    ensures v.LoadFailed? <==> !loading && failed
    ensures v.Table? && users.None? ==> v.rows == [] && v.noMatch.None?
    ensures v.Table? && users.Some? ==>
              && (forall u :: u in v.rows <==> u in users.value && Search.Matches(u.email, term))
              && (v.noMatch.Some? <==> v.rows == [])
              && (v.noMatch.Some? ==> v.noMatch.value == NoMatchText(term))
  {
    if loading then Spinner
    else if failed then LoadFailed
    else
      match users
      case None => Table([], None)
      case Some(us) =>
        var rows := Filtered(us, term);
        Table(rows, if |rows| == 0 then Some(NoMatchText(term)) else None)
  }

  /** An empty search lists every user, in order. */
  lemma EmptySearchListsAll(users: seq<Users.User>)
    ensures Render(false, false, Some(users), "").rows == users
  {
    Search.EmptyTermKeepsAll(users, Email);
  }

  /** Typing more of an email narrows the table: every row listed for the
      longer term is listed for its prefix too. */
  lemma NarrowingSearchKeepsSubset(users: seq<Users.User>, term: string, more: string)
    ensures forall u :: u in Render(false, false, Some(users), term + more).rows
                        ==> u in Render(false, false, Some(users), term).rows
  {
    forall u | u in Render(false, false, Some(users), term + more).rows
      ensures u in Render(false, false, Some(users), term).rows
    {
      Search.LongerTermMatchesLess(u.email, term, more);
    }
  }
}
