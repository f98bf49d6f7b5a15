/**
 * The availability ledger of routes/borrowRoute.js: lending a book takes one copy off the
 * shelf and opens a borrow; returning a borrow stamps its return instant, charges late days
 * and puts one copy back. Each operation is one atomic step on the library at instant `now`.
 */
module Lending {
  import opened Outcomes
  import opened Clock
  import opened Store

  /** A successful loan: the new library and the id of the borrow it opened. */
  datatype Lent = Lent(library: Library, borrowId: int)

  /**
   * A successful return: the new library and the late days the route computes.
   * The Borrows table has no lateDays column, so the value is returned, not stored.
   */
  datatype Returned = Returned(library: Library, lateDays: int)

  /**
   * `POST /api/borrow`. The book is looked up first, then the user, then the copies are
   * checked; only then is the borrow created and the book's copies lowered by one.
   * A missing `userId` or `bookId` in the request finds no row, like an unknown id.
   */
  function BorrowBook(s: Library, now: int, userId: int, bookId: int): (r: Result<Lent>)
    requires Valid(s)
    ensures bookId !in s.books ==> r == Err(BookNotFound)
    ensures bookId in s.books && userId !in s.users ==> r == Err(UserNotFound)
    ensures bookId in s.books && userId in s.users && s.books[bookId].copies <= 0 ==>
              r == Err(BookNotAvailable)
    ensures r.Ok? <==> bookId in s.books && userId in s.users && s.books[bookId].copies > 0
    ensures r.Ok? ==>
              var t, id := r.value.library, r.value.borrowId;
              && id !in s.borrows
              && t.borrows.Keys == s.borrows.Keys + {id}
              && t.borrows[id] == Borrow(userId, bookId, now, now + LoanDays * MsPerDay, None)
              && (forall k :: k in s.borrows ==> t.borrows[k] == s.borrows[k])
              && t.books.Keys == s.books.Keys
              && t.books[bookId].copies == s.books[bookId].copies - 1
              && t.books[bookId].(copies := 0) == s.books[bookId].(copies := 0)
              && (forall b :: b in s.books && b != bookId ==> t.books[b] == s.books[b])
              && t.users == s.users
              && t.nextBorrowId == id + 1
              && t.nextBookId == s.nextBookId && t.nextUserId == s.nextUserId
  {
    if bookId !in s.books then Err(BookNotFound)
    else if userId !in s.users then Err(UserNotFound)
    else
      var book := s.books[bookId];
      if book.copies <= 0 then Err(BookNotAvailable)
      else
        var id := s.nextBorrowId;
        var loan := Borrow(userId, bookId, now, DueDate(now), None);
        Ok(Lent(
          s.(borrows := s.borrows[id := loan],
             books := s.books[bookId := book.(copies := book.copies - 1)],
             nextBorrowId := id + 1),
          id))
  }

  /**
   * `POST /api/borrow/return`. The borrow is looked up; it is stamped returned at `now`,
   * late days are computed against its due date, and its book gets one copy back.
   * Nothing checks whether the borrow was already returned.
   */
  function ReturnBook(s: Library, now: int, borrowId: int): (r: Result<Returned>)
    requires Valid(s)
    ensures r.Err? <==> borrowId !in s.borrows
    ensures r.Err? ==> r.error == BorrowNotFound
    ensures r.Ok? ==>
              var t, loan := r.value.library, s.borrows[borrowId];
              && t.borrows.Keys == s.borrows.Keys
              && t.borrows[borrowId] == loan.(returnDate := Some(now))
              && (forall k :: k in s.borrows && k != borrowId ==> t.borrows[k] == s.borrows[k])
              && t.books.Keys == s.books.Keys
              && t.books[loan.bookId].copies == s.books[loan.bookId].copies + 1
              && t.books[loan.bookId].(copies := 0) == s.books[loan.bookId].(copies := 0)
              && (forall b :: b in s.books && b != loan.bookId ==> t.books[b] == s.books[b])
              && t.users == s.users
              && t.nextBookId == s.nextBookId && t.nextUserId == s.nextUserId && t.nextBorrowId == s.nextBorrowId
    ensures r.Ok? ==>
              var late, due := r.value.lateDays, s.borrows[borrowId].dueDate;
              && late >= 0
              && (now <= due ==> late == 0)
              && (now > due ==> late * MsPerDay <= now - due < late * MsPerDay + MsPerDay)
  {
    if borrowId !in s.borrows then Err(BorrowNotFound)
    else
      var loan := s.borrows[borrowId];
      var book := s.books[loan.bookId];
      var late := LateDays(loan.dueDate, now);
      Ok(Returned(
        s.(borrows := s.borrows[borrowId := loan.(returnDate := Some(now))],
           books := s.books[loan.bookId := book.(copies := book.copies + 1)]),
        late))
  }

  /** Lending keeps the store's guarantees. */
  lemma BorrowBookKeepsValid(s: Library, now: int, userId: int, bookId: int)
    requires Valid(s)
    requires BorrowBook(s, now, userId, bookId).Ok?
    ensures Valid(BorrowBook(s, now, userId, bookId).value.library)
  {
    var t := BorrowBook(s, now, userId, bookId).value.library;
    assert forall a :: a in t.books ==> t.books[a].isbn == s.books[a].isbn;
  }

  /** Returning keeps the store's guarantees. */
  lemma ReturnBookKeepsValid(s: Library, now: int, borrowId: int)
    requires Valid(s)
    requires ReturnBook(s, now, borrowId).Ok?
    ensures Valid(ReturnBook(s, now, borrowId).value.library)
  {
    var t := ReturnBook(s, now, borrowId).value.library;
    assert forall a :: a in t.books ==> t.books[a].isbn == s.books[a].isbn;
  }
}
