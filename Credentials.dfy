/** The per-user AO3 credential table of the web app (`app/ao3.py`): the
    `ao3` table holding one row of credentials per user, the `feed` table
    whose rows are removed with them, and the `/ao3/manage` view that reads
    the form and dispatches to them. */
module Credentials {
  import opened Wrappers
  import opened Text

  /** A value SQLite stores or binds to a `?` placeholder. */
  datatype SqlValue = Null | Integer(i: int) | Text(s: string)

  /** A row of `ao3` (`user_id`, `username`, `password`, `session`). */
  datatype Row = Row(userId: int, username: string, password: string, session: SqlValue)

  /** A row of `feed`: its owner and its other columns. */
  datatype FeedRow = FeedRow(userId: int, columns: seq<SqlValue>)

  /** The logged-in user `g.user`. */
  datatype User = User(id: int, username: string)

  /** The two statuses `abort` is called with, 403 and 404. */
  datatype Status = Forbidden | NotFound

  /** The `HTTPException` that `abort(code, description)` raises. */
  datatype HttpError = HttpError(status: Status, description: string)

  /** What the view answers: a redirect to an endpoint, the rendered
      template, or the 400 Flask gives for a form field that is missing. */
  datatype Response = Redirect(endpoint: string) | Render(template: string) | BadRequest

  const NOT_LOGGED_IN := "Cannot access AO3 credentials if not logged in."
  const MANAGE_TEMPLATE := "ao3/manage.html"
  const REQUIRED := "All fields are required"
  const SET_FAILED := "Error setting AO3 credentials: "
  const DELETED := "AO3 credentials deleted!"
  const UPDATED := "AO3 credentials updated!"

  /** `str(error)` of werkzeug: code, name and description. */
  function Describe(e: HttpError): string
  {
    (match e.status
     case Forbidden => "403 Forbidden"
     case NotFound => "404 Not Found") + ": " + e.description
  }

  /** The table holds at most one row per user: the row of user `k` is at
      key `k`. */
  predicate Keyed(table: map<int, Row>)
  {
    forall k :: k in table ==> table[k].userId == k
  }

  /** `v` bound to `WHERE user_id = ?` selects the row of `userId`; SQL's
      `=` is never true against NULL. A text value is not converted to a
      number here. */
  predicate MatchesUserId(v: SqlValue, userId: int)
  {
    v == Integer(userId)
  }

  /** `get_credentials()` on a table: 403 when nobody is logged in, 404
      when the user has no row, 403 when the row found belongs to someone
      else, and otherwise that row. */
  function GetCredentials(table: map<int, Row>, user: Option<User>): (r: Result<Row, HttpError>)
    ensures r.Ok? ==> user.Some? && r.value.userId == user.value.id
    ensures user.None? ==> r == Err(HttpError(Forbidden, NOT_LOGGED_IN))
    ensures user.Some? && user.value.id !in table ==>
      r == Err(HttpError(NotFound, "AO3 credentials for " + user.value.username + " could not be found."))
  {
    match user
    case None => Err(HttpError(Forbidden, NOT_LOGGED_IN))
    case Some(u) =>
      if u.id !in table then
        Err(HttpError(NotFound, "AO3 credentials for " + u.username + " could not be found."))
      else if table[u.id].userId != u.id then
        Err(HttpError(Forbidden, "User " + u.username + " cannot access requested AO3 credentials"))
      else Ok(table[u.id])
  }

  /** On a keyed table the ownership check of `get_credentials` never
      fails: a logged-in user gets their row, or 404. */
  lemma GetCredentialsOwnRow(table: map<int, Row>, user: User)
    requires Keyed(table)
    ensures user.id in table ==> GetCredentials(table, Some(user)) == Ok(table[user.id])
    ensures user.id !in table ==>
      GetCredentials(table, Some(user)).Err? && GetCredentials(table, Some(user)).error.status == NotFound
  {
  }

  /** `UPDATE ao3 SET username = ?, password = ?, session = ? WHERE
      user_id = ?` with the four values bound in that order. */
  function Update(table: map<int, Row>, username: string, password: string, session: SqlValue,
                  where: SqlValue): (r: map<int, Row>)
    ensures r.Keys == table.Keys
  {
    if where.Integer? && where.i in table then
      table[where.i := table[where.i].(username := username, password := password, session := session)]
    else table
  }

  /** The statement changes the three columns of the one row `where`
      selects and leaves every other row as it was. */
  lemma UpdateRows(table: map<int, Row>, username: string, password: string, session: SqlValue,
                   where: SqlValue, k: int)
    requires k in table
    ensures var r := Update(table, username, password, session, where);
      && (MatchesUserId(where, k) ==> r[k] == Row(table[k].userId, username, password, session))
      && (!MatchesUserId(where, k) ==> r[k] == table[k])
  {
  }

  /** The statement keeps each row with its owner. */
  lemma UpdateKeyed(table: map<int, Row>, username: string, password: string, session: SqlValue,
                    where: SqlValue)
    requires Keyed(table)
    ensures Keyed(Update(table, username, password, session, where))
  {
  }

  /** The UPDATE as `set_credentials` binds it: the user's id goes to the
      `session` placeholder and `session` to `WHERE user_id`. With the
      `session=None` that `manage` passes, no row is selected, so the user's
      new credentials are lost. */
  lemma UpdateAsWrittenLosesChange(table: map<int, Row>, user: User, username: string, password: string)
    requires Keyed(table) && user.id in table
    requires table[user.id].username != username
    ensures Update(table, username, password, Integer(user.id), Null) == table
    ensures Update(table, username, password, Integer(user.id), Null)[user.id].username != username
  {
  }

  /** Bound as written, a `session` that is another user's id overwrites
      that user's row: user 1 setting credentials with `session=2` gives
      user 2 user 1's username and password, with user 1's id as session,
      and user 1's row keeps the old ones. */
  lemma UpdateAsWrittenOverwritesOther(table: map<int, Row>, user: User, username: string, password: string,
                                       other: int)
    requires Keyed(table) && user.id in table && other in table && other != user.id
    ensures var r := Update(table, username, password, Integer(user.id), Integer(other));
      r[other] == Row(other, username, password, Integer(user.id)) && r[user.id] == table[user.id]
  {
  }

  /** The UPDATE with its values bound in the order of the placeholders
      replaces exactly the user's own credentials: together with the INSERT
      this makes `set_credentials` an upsert of the user's row. */
  lemma UpdateIntended(table: map<int, Row>, user: User, username: string, password: string, session: SqlValue)
    requires Keyed(table) && user.id in table
    ensures Update(table, username, password, session, Integer(user.id))
         == table[user.id := Row(user.id, username, password, session)]
  {
  }

  /** `DELETE FROM feed WHERE user_id = ?`: the rows of other users, in
      their order. */
  function DeleteFeeds(feed: seq<FeedRow>, userId: int): (r: seq<FeedRow>)
    ensures forall f :: f in r ==> f in feed && f.userId != userId
  {
    if feed == [] then []
    else if feed[0].userId == userId then DeleteFeeds(feed[1..], userId)
    else [feed[0]] + DeleteFeeds(feed[1..], userId)
  }

  /** The delete removes every row of the user, keeps every other row as
      many times as it was there, and keeps their order. */
  lemma {:induction false} DeleteFeedsExact(feed: seq<FeedRow>, userId: int)
    ensures forall f :: multiset(DeleteFeeds(feed, userId))[f] == if f.userId == userId then 0 else multiset(feed)[f]
    ensures IsSubsequence(DeleteFeeds(feed, userId), feed)
  {
    if feed != [] {
      DeleteFeedsExact(feed[1..], userId);
      assert feed == [feed[0]] + feed[1..];
      var rest := DeleteFeeds(feed[1..], userId);
      if feed[0].userId != userId {
        assert ([feed[0]] + rest)[1..] == rest;
      } else {
        SubsequenceOfTail(rest, feed);
      }
    }
  }

  /** After `delete_credentials` the user's credentials cannot be found. */
  lemma DeletedNotFound(table: map<int, Row>, user: User)
    ensures GetCredentials(table - {user.id}, Some(user)).Err?
    ensures GetCredentials(table - {user.id}, Some(user)).error.status == NotFound
  {
  }

  /** After the intended upsert, or the INSERT of a user without a row,
      `get_credentials` returns exactly what was set. */
  lemma SetThenGet(table: map<int, Row>, user: User, username: string, password: string, session: SqlValue)
    ensures GetCredentials(table[user.id := Row(user.id, username, password, session)], Some(user))
         == Ok(Row(user.id, username, password, session))
  {
  }

  /** The app's database: the `ao3` table, keyed by `user_id`, and the
      `feed` table. */
  class Database {
    var ao3: map<int, Row>
    var feed: seq<FeedRow>

    predicate Valid()
      reads this
    {
      Keyed(ao3)
    }

    /** A database with both tables empty. */
    constructor ()
      ensures Valid() && ao3 == map[] && feed == []
    {
      ao3 := map[];
      feed := [];
    }

    /** `set_credentials(username, password, session)` as written: an
        INSERT when `get_credentials` aborts with 404, the abort re-raised
        for any other status, and otherwise the UPDATE with its values bound
        in the wrong order. */
    method SetCredentials(user: Option<User>, username: string, password: string, session: SqlValue)
      returns (r: Result<(), HttpError>)
      requires Valid()
      modifies this
      ensures Valid() && feed == old(feed)
      ensures r.Err? ==> ao3 == old(ao3)
      ensures user.None? <==> r.Err?
      ensures user.None? ==> r == Err(HttpError(Forbidden, NOT_LOGGED_IN))
      ensures user.Some? && user.value.id !in old(ao3) ==>
        ao3 == old(ao3)[user.value.id := Row(user.value.id, username, password, session)]
      ensures user.Some? && user.value.id in old(ao3) ==>
        ao3 == Update(old(ao3), username, password, Integer(user.value.id), session)
    {
      if user.None? {
        return Err(HttpError(Forbidden, NOT_LOGGED_IN));
      }
      var userId := user.value.id;
      var found := GetCredentials(ao3, user);
      match found {
        case Err(e) =>
          if e.status == NotFound {
            ao3 := ao3[userId := Row(userId, username, password, session)];
            return Ok(());
          }
          return Err(e);
        case Ok(_) =>
      }
      UpdateKeyed(ao3, username, password, Integer(userId), session);
      ao3 := Update(ao3, username, password, Integer(userId), session);
      return Ok(());
    }

    /** `set_credentials` with the UPDATE's values bound in the order of its
        placeholders: the user's row becomes the given credentials, whether
        it existed or not, and no other row changes. */
    method SetCredentialsIntended(user: Option<User>, username: string, password: string, session: SqlValue)
      returns (r: Result<(), HttpError>)
      requires Valid()
      modifies this
      ensures Valid() && feed == old(feed)
      ensures user.None? ==> r == Err(HttpError(Forbidden, NOT_LOGGED_IN)) && ao3 == old(ao3)
      ensures user.Some? ==> r == Ok(()) && ao3 == old(ao3)[user.value.id := Row(user.value.id, username, password, session)]
    {
      if user.None? {
        return Err(HttpError(Forbidden, NOT_LOGGED_IN));
      }
      var userId := user.value.id;
      var found := GetCredentials(ao3, user);
      match found {
        case Err(e) =>
          if e.status == NotFound {
            ao3 := ao3[userId := Row(userId, username, password, session)];
            return Ok(());
          }
          return Err(e);
        case Ok(_) =>
      }
      UpdateIntended(ao3, user.value, username, password, session);
      ao3 := Update(ao3, username, password, session, Integer(userId));
      return Ok(());
    }

    /** `delete_credentials()`: the user's `ao3` row and all of their `feed`
        rows go, and nothing else. */
    method DeleteCredentials(user: Option<User>) returns (r: Result<(), HttpError>)
      requires Valid()
      modifies this
      ensures Valid()
      ensures user.None? ==> r == Err(HttpError(Forbidden, NOT_LOGGED_IN)) && ao3 == old(ao3) && feed == old(feed)
      ensures user.Some? ==>
        r == Ok(()) && ao3 == old(ao3) - {user.value.id} && feed == DeleteFeeds(old(feed), user.value.id)
    {
      if user.None? {
        return Err(HttpError(Forbidden, NOT_LOGGED_IN));
      }
      ao3 := ao3 - {user.value.id};
      feed := DeleteFeeds(feed, user.value.id);
      return Ok(());
    }

    /** `manage()` behind `login_required`, for a request with method
        `httpMethod` and form `form`; `flashed` are the messages it flashes.
        The Delete button deletes without reading the other fields; the
        form is refused only when both fields are empty; `session` is
        always `None`. Through the misbound UPDATE of `set_credentials`,
        new credentials for a user who already has a row change nothing,
        although "updated" is flashed. */
    method Manage(user: Option<User>, httpMethod: string, form: map<string, string>)
      returns (resp: Response, flashed: seq<string>)
      requires Valid()
      modifies this
      ensures Valid()
      ensures user.None? ==> resp == Redirect("auth.login") && flashed == []
      ensures resp.BadRequest? ==> flashed == []
      ensures resp.Render? || resp.BadRequest? ==> ao3 == old(ao3) && feed == old(feed)
      ensures user.Some? && httpMethod != "POST" ==> resp == Render(MANAGE_TEMPLATE) && flashed == []
      ensures user.Some? && httpMethod == "POST" ==>
        if "submit_button" !in form then resp == BadRequest
        else if form["submit_button"] == "Delete" then
          && resp == Redirect("index") && flashed == [DELETED]
          && ao3 == old(ao3) - {user.value.id} && feed == DeleteFeeds(old(feed), user.value.id)
        else if "username" !in form || "password" !in form then resp == BadRequest
        else if form["username"] == "" && form["password"] == "" then
          resp == Render(MANAGE_TEMPLATE) && flashed == [REQUIRED]
        else
          && resp == Redirect("index") && flashed == [UPDATED] && feed == old(feed)
          && (user.value.id !in old(ao3) ==>
                ao3 == old(ao3)[user.value.id := Row(user.value.id, form["username"], form["password"], Null)])
          && (user.value.id in old(ao3) ==> ao3 == old(ao3))
    {
      flashed := [];
      if user.None? {
        return Redirect("auth.login"), flashed;
      }
      if httpMethod == "POST" {
        if "submit_button" !in form {
          return BadRequest, flashed;
        }
        if form["submit_button"] == "Delete" {
          var _ := DeleteCredentials(user);
          flashed := flashed + [DELETED];
          return Redirect("index"), flashed;
        }
        if "username" !in form || "password" !in form {
          return BadRequest, flashed;
        }
        var username := form["username"];
        var password := form["password"];
        var error: Option<string> := None;
        if username == "" && password == "" {
          error := Some(REQUIRED);
        }
        var session := Null;
        if error.None? {
          var r := SetCredentials(user, username, password, session);
          match r {
            case Err(e) =>
              error := Some(SET_FAILED + Describe(e));
            case Ok(_) =>
              flashed := flashed + [UPDATED];
              return Redirect("index"), flashed;
          }
        }
        flashed := flashed + [error.value];
      }
      return Render(MANAGE_TEMPLATE), flashed;
    }
  }
}
