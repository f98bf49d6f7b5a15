/**
 * The user routes of routes/usersRoute.js: create with its email requirement, partial
 * update, delete, and the paginated list with its page count. Removing a user removes all of
 * that user's borrows by the Borrows.userId cascade, open ones included, and no copies are
 * put back.
 */
module Directory {
  import opened Outcomes
  import opened JsNumbers
  import opened Store
  import opened Paging

  /** Some user already has `email`. */
  predicate EmailInUse(users: map<int, User>, email: string) {
    exists id :: id in users && users[id].email == email
  }

  /** A successful create: the new library and the id of the new user. */
  datatype Registered = Registered(library: Library, userId: int)

  /**
   * `POST /api/users`. A missing or empty email is refused by the route; a missing name
   * (Users.name is not null) and an email already in use (Users.email is unique) are refused
   * by the store; otherwise one user is added.
   */
  function CreateUser(s: Library, name: Option<string>, email: Option<string>): (r: Result<Registered>)
    requires Valid(s)
    ensures (email.None? || email.value == "") ==> r == Err(EmailRequired)
    ensures (email.Some? && email.value != "" && (name.None? || EmailInUse(s.users, email.value))) ==>
              r == Err(ConstraintViolated)
    ensures r.Ok? <==> email.Some? && email.value != "" && name.Some? && !EmailInUse(s.users, email.value)
    ensures r.Ok? ==>
              var t, id := r.value.library, r.value.userId;
              && id !in s.users
              && t.users.Keys == s.users.Keys + {id}
              && t.users[id] == User(name.value, email.value)
              && (forall u :: u in s.users ==> t.users[u] == s.users[u])
              && t.books == s.books
              && t.borrows == s.borrows
              && t.nextUserId == id + 1
              && t.nextBookId == s.nextBookId && t.nextBorrowId == s.nextBorrowId
  {
    if email.None? || email.value == "" then Err(EmailRequired)
    else if name.None? || EmailInUse(s.users, email.value) then Err(ConstraintViolated)
    else
      var id := s.nextUserId;
      Ok(Registered(s.(users := s.users[id := User(name.value, email.value)], nextUserId := id + 1), id))
  }

  /**
   * `PUT /api/users/:id`. An unknown id is refused; an email held by another user is refused
   * by the unique constraint. Fields left out of the request keep their value. Unlike create,
   * nothing here refuses an empty email.
   */
  function UpdateUser(s: Library, id: int, name: Option<string>, email: Option<string>): (r: Result<Library>)
    ensures id !in s.users ==> r == Err(UserNotFound)
    ensures (id in s.users && email.Some? && EmailTaken(s.users, email.value, id)) ==> r == Err(ConstraintViolated)
    ensures r.Ok? <==> id in s.users && !(email.Some? && EmailTaken(s.users, email.value, id))
    ensures r.Ok? ==>
              var t := r.value;
              && t.users.Keys == s.users.Keys
              && t.users[id].name == (if name.Some? then name.value else s.users[id].name)
              && t.users[id].email == (if email.Some? then email.value else s.users[id].email)
              && (forall u :: u in s.users && u != id ==> t.users[u] == s.users[u])
              && t.books == s.books
              && t.borrows == s.borrows
              && t.nextBookId == s.nextBookId && t.nextUserId == s.nextUserId && t.nextBorrowId == s.nextBorrowId
  {
    if id !in s.users then Err(UserNotFound)
    else if email.Some? && EmailTaken(s.users, email.value, id) then Err(ConstraintViolated)
    else
      var before := s.users[id];
      var after := User(if name.Some? then name.value else before.name,
                        if email.Some? then email.value else before.email);
      Ok(s.(users := s.users[id := after]))
  }

  /**
   * `DELETE /api/users/:id`. An unknown id is refused; otherwise the user goes, and with it
   * every borrow the user holds or held. No book's copies change.
   */
  function DeleteUser(s: Library, id: int): (r: Result<Library>)
    ensures r.Err? <==> id !in s.users
    ensures r.Err? ==> r.error == UserNotFound
    ensures r.Ok? ==>
              var t := r.value;
              && t.users.Keys == s.users.Keys - {id}
              && (forall u :: u in t.users ==> t.users[u] == s.users[u])
              && (forall k :: k in t.borrows <==> k in s.borrows && s.borrows[k].userId != id)
              && (forall k :: k in t.borrows ==> t.borrows[k] == s.borrows[k])
              && t.books == s.books
              && t.nextBookId == s.nextBookId && t.nextUserId == s.nextUserId && t.nextBorrowId == s.nextBorrowId
  {
    if id !in s.users then Err(UserNotFound)
    else
      var kept := map k | k in s.borrows && s.borrows[k].userId != id :: s.borrows[k];
      Ok(s.(users := s.users - {id}, borrows := kept))
  }

  /** The body of a user-list response. */
  datatype UserPage = UserPage(page: int, limit: int, totalUsers: int, totalPages: int, users: seq<User>)

  /** `parseInt(param) || fallback` for an optional query parameter. */
  function QueryNumber(param: Option<string>, fallback: int): (n: int)
    requires fallback != 0
    ensures n != 0
    ensures param.None? ==> n == fallback
    ensures param.Some? ==>
              var parsed := ParseInt(param.value, 0);
              n == if parsed.Int? && parsed.value != 0 then parsed.value else fallback
  {
    OrDefault(if param.Some? then ParseInt(param.value, 0) else NaN, fallback)
  }

  /**
   * The user list for a parsed, defaulted `page` and `limit`: `limit` users from offset
   * `(page - 1) * limit`, with the total count and the page count. A negative limit or offset
   * is refused by the store.
   */
  function UsersPage(s: Library, page: int, limit: int): (r: Result<UserPage>)
    requires page != 0 && limit != 0
    ensures r.Ok? <==> page >= 1 && limit >= 1
    ensures r.Err? ==> r.error == NegativeWindow
    ensures r.Ok? ==>
              var out, n := r.value, |s.users|;
              && out.page == page
              && out.limit == limit
              && out.totalUsers == n
              && PagesHold(n, limit, out.totalPages)
              && |out.users| <= limit
              && var offset := (page - 1) * limit;
              && offset >= 0
              && ListsFrom(out.users, Rows(s.users), offset)
              && (offset <= n ==> |out.users| == Min(limit, n - offset))
  {
    var offset := (page - 1) * limit;
    WindowAccepted(page, limit);
    if limit < 0 || offset < 0 then Err(NegativeWindow)
    else Ok(UserPageAt(s, page, limit, offset))
  }

  /** The response for a window that the store accepts. */
  function UserPageAt(s: Library, page: int, limit: int, offset: nat): (out: UserPage)
    requires limit >= 1
    ensures out.page == page && out.limit == limit && out.totalUsers == |s.users|
    ensures PagesHold(|s.users|, limit, out.totalPages)
    ensures |out.users| <= limit
    ensures ListsFrom(out.users, Rows(s.users), offset)
    ensures offset <= |s.users| ==> |out.users| == Min(limit, |s.users| - offset)
  {
    var rows := Rows(s.users);
    UserPage(page, limit, |s.users|, PageCount(|s.users|, limit), Window(rows, offset, limit))
  }

  /**
   * `GET /api/users`: `page` and `limit` are parsed with `parseInt` and default to 1 and 10
   * when missing, zero or unparsable.
   */
  function ListUsers(s: Library, pageParam: Option<string>, limitParam: Option<string>): (r: Result<UserPage>)
    ensures r.Ok? ==> r.value.page >= 1 && r.value.limit >= 1
    ensures pageParam.None? && limitParam.None? ==>
              r.Ok? && r.value.page == 1 && r.value.limit == 10 && |r.value.users| == Min(10, |s.users|)
  {
    UsersPage(s, QueryNumber(pageParam, 1), QueryNumber(limitParam, 10))
  }

  // ---------------------------------------------------------------- laws

  lemma CreateUserKeepsValid(s: Library, name: Option<string>, email: Option<string>)
    requires Valid(s) && CreateUser(s, name, email).Ok?
    ensures Valid(CreateUser(s, name, email).value.library)
  {
  }

  lemma UpdateUserKeepsValid(s: Library, id: int, name: Option<string>, email: Option<string>)
    requires Valid(s) && UpdateUser(s, id, name, email).Ok?
    ensures Valid(UpdateUser(s, id, name, email).value)
  {
  }

  lemma DeleteUserKeepsValid(s: Library, id: int)
    requires Valid(s) && DeleteUser(s, id).Ok?
    ensures Valid(DeleteUser(s, id).value)
  {
  }

  /** Deleting a freshly created user gives back the tables the user was added to. */
  lemma DeleteUndoesCreateUser(s: Library, name: Option<string>, email: Option<string>)
    requires Valid(s) && CreateUser(s, name, email).Ok?
    ensures var c := CreateUser(s, name, email).value;
      DeleteUser(c.library, c.userId) == Ok(s.(nextUserId := c.library.nextUserId))
  {
    var c := CreateUser(s, name, email).value;
    var t := DeleteUser(c.library, c.userId).value;
    SameMap(t.users, s.users);
    forall k | k in s.borrows
      ensures k in t.borrows
    {
      assert s.borrows[k].userId in s.users;
    }
    SameMap(t.borrows, s.borrows);
  }

  /** Sending the same update twice has the effect of sending it once. */
  lemma UpdateUserIdempotent(s: Library, id: int, name: Option<string>, email: Option<string>)
    requires UpdateUser(s, id, name, email).Ok?
    ensures UpdateUser(UpdateUser(s, id, name, email).value, id, name, email) == UpdateUser(s, id, name, email)
  {
    var t := UpdateUser(s, id, name, email).value;
    if email.Some? {
      assert !EmailTaken(t.users, email.value, id);
    }
    assert t.users[id := t.users[id]] == t.users;
  }

  /** An empty email is refused on create but accepted on update. */
  lemma EmptyEmailOnlyRefusedOnCreate(s: Library, id: int, name: Option<string>)
    requires Valid(s)
    requires id in s.users && !EmailTaken(s.users, "", id)
    ensures CreateUser(s, name, Some("")) == Err(EmailRequired)
    ensures UpdateUser(s, id, name, Some("")).Ok?
    ensures UpdateUser(s, id, name, Some("")).value.users[id].email == ""
  {
  }

  /** Missing, zero and unparsable page and limit values fall back to page 1 of 10 users. */
  lemma PageDefaults(s: Library, junk: string)
    requires forall i :: 0 <= i < |junk| ==> !('0' <= junk[i] <= '9')
    ensures QueryNumber(None, 1) == 1 && QueryNumber(None, 10) == 10
    ensures QueryNumber(Some("0"), 1) == 1 && QueryNumber(Some("0"), 10) == 10
    ensures QueryNumber(Some(junk), 1) == 1 && QueryNumber(Some(junk), 10) == 10
  {
    NoDigitsIsNaN(junk, 0);
    ParseIntOfDecimalString(0, 0);
    assert DecimalString(0) == "0";
  }

  /** A query value written in decimal reads back as its number, or as the fallback for 0. */
  lemma QueryOfDecimal(n: int, fallback: int)
    requires fallback != 0
    ensures QueryNumber(Some(DecimalString(n)), fallback) == if n != 0 then n else fallback
  {
    ParseIntOfDecimalString(n, 0);
  }

  /** Three users listed two per page: page 1 holds two of them, out of two pages. */
  lemma ThreeUsersTwoPerPage(s: Library)
    requires |s.users| == 3
    ensures var r := ListUsers(s, Some("1"), Some("2"));
      r.Ok? && r.value.page == 1 && r.value.limit == 2 && |r.value.users| == 2
      && r.value.totalUsers == 3 && r.value.totalPages == 2
  {
    QueryOfDecimal(1, 1);
    assert DecimalString(1) == "1";
    QueryOfDecimal(2, 10);
    assert DecimalString(2) == "2";
    var r := UsersPage(s, 1, 2);
    assert r.Ok?;
    assert PageCount(3, 2) == 2;
  }
}
