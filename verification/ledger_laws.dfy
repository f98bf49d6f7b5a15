/**
 * The copies ledger's conservation law and where it breaks. A book's stock, its copies on the
 * shelf plus its open borrows, is kept by lending and by the first return of a borrow. A second
 * return of the same borrow adds a copy that never left, and deleting a user cascades away
 * that user's open borrows without putting their copies back. Updating a book writes `copies`
 * directly, outside the ledger.
 */
module LedgerLaws {
  import opened Outcomes
  import opened Clock
  import opened JsNumbers
  import opened Store
  import opened Lending
  import opened Reports
  import opened Catalogue
  import opened Directory

  // ---------------------------------------------------------------- lending and returning

  /** Lending moves one copy from the shelf to an open borrow: no book's stock changes. */
  lemma BorrowConservesStock(s: Library, now: int, userId: int, bookId: int)
    requires Valid(s) && BorrowBook(s, now, userId, bookId).Ok?
    ensures var t := BorrowBook(s, now, userId, bookId).value.library;
      t.books.Keys == s.books.Keys && forall b :: b in s.books ==> Stock(t, b) == Stock(s, b)
  {
    var t := BorrowBook(s, now, userId, bookId).value.library;
    forall b | b in s.books
      ensures Stock(t, b) == Stock(s, b)
    {
      BorrowKeepsStockOf(s, now, userId, bookId, b);
    }
  }

  lemma BorrowKeepsStockOf(s: Library, now: int, userId: int, bookId: int, b: int)
    requires Valid(s) && BorrowBook(s, now, userId, bookId).Ok? && b in s.books
    ensures Stock(BorrowBook(s, now, userId, bookId).value.library, b) == Stock(s, b)
  {
    var lent := BorrowBook(s, now, userId, bookId).value;
    var t, id := lent.library, lent.borrowId;
    if b == bookId {
      assert OpenBorrows(t, b) == OpenBorrows(s, b) + {id};
      assert id !in OpenBorrows(s, b);
    } else {
      assert OpenBorrows(t, b) == OpenBorrows(s, b);
    }
  }

  /** Lending only lowers copies that were positive, so no book's copies go below zero. */
  lemma BorrowKeepsCopiesNonNegative(s: Library, now: int, userId: int, bookId: int)
    requires Valid(s) && CopiesNonNegative(s)
    ensures var r := BorrowBook(s, now, userId, bookId);
      r.Ok? ==> CopiesNonNegative(r.value.library)
  {
  }

  /** Returning an open borrow moves its copy back to the shelf: no book's stock changes. */
  lemma FirstReturnConservesStock(s: Library, now: int, borrowId: int)
    requires Valid(s) && borrowId in s.borrows && s.borrows[borrowId].IsOpen()
    ensures var r := ReturnBook(s, now, borrowId);
      && r.Ok?
      && r.value.library.books.Keys == s.books.Keys
      && forall b :: b in s.books ==> Stock(r.value.library, b) == Stock(s, b)
  {
    var t := ReturnBook(s, now, borrowId).value.library;
    var loaned := s.borrows[borrowId].bookId;
    forall b | b in s.books
      ensures Stock(t, b) == Stock(s, b)
    {
      if b == loaned {
        assert OpenBorrows(t, b) == OpenBorrows(s, b) - {borrowId};
        assert borrowId in OpenBorrows(s, b);
      } else {
        assert OpenBorrows(t, b) == OpenBorrows(s, b);
      }
    }
  }

  /**
   * Returning a borrow that was already returned still adds a copy: its book's stock grows
   * by one, and the earlier return instant is overwritten.
   */
  lemma RepeatedReturnRaisesStock(s: Library, now: int, borrowId: int)
    requires Valid(s) && borrowId in s.borrows && !s.borrows[borrowId].IsOpen()
    ensures var r, loaned := ReturnBook(s, now, borrowId), s.borrows[borrowId].bookId;
      && r.Ok?
      && Stock(r.value.library, loaned) == Stock(s, loaned) + 1
      && (forall b :: b in s.books && b != loaned ==> Stock(r.value.library, b) == Stock(s, b))
      && r.value.library.borrows[borrowId].returnDate == Some(now)
  {
    var t := ReturnBook(s, now, borrowId).value.library;
    forall b | b in s.books
      ensures OpenBorrows(t, b) == OpenBorrows(s, b)
    {
    }
  }

  /** Returning the same borrow twice leaves its book with one more copy than it ever owned. */
  lemma DoubleReturnBreaksConservation(s: Library, first: int, second: int, borrowId: int)
    requires Valid(s) && borrowId in s.borrows && s.borrows[borrowId].IsOpen()
    ensures var once := ReturnBook(s, first, borrowId);
      && once.Ok?
      && Valid(once.value.library)
      && var twice := ReturnBook(once.value.library, second, borrowId);
      && twice.Ok?
      && var loaned := s.borrows[borrowId].bookId;
      && Stock(twice.value.library, loaned) == Stock(s, loaned) + 1
      && twice.value.library.books[loaned].copies == s.books[loaned].copies + 2
  {
    FirstReturnConservesStock(s, first, borrowId);
    ReturnBookKeepsValid(s, first, borrowId);
    var t := ReturnBook(s, first, borrowId).value.library;
    RepeatedReturnRaisesStock(t, second, borrowId);
  }

  /** Returning the borrow just opened puts the book back as it was, whenever it comes back. */
  lemma ReturnUndoesBorrow(s: Library, now: int, later: int, userId: int, bookId: int)
    requires Valid(s) && BorrowBook(s, now, userId, bookId).Ok?
    ensures var lent := BorrowBook(s, now, userId, bookId).value;
      && Valid(lent.library)
      && var back := ReturnBook(lent.library, later, lent.borrowId);
      && back.Ok?
      && back.value.library.books == s.books
      && back.value.library.users == s.users
      && back.value.library.borrows[lent.borrowId].returnDate == Some(later)
      && (later <= now + LoanDays * MsPerDay ==> back.value.lateDays == 0)
  {
    BorrowBookKeepsValid(s, now, userId, bookId);
    var lent := BorrowBook(s, now, userId, bookId).value;
    var t := ReturnBook(lent.library, later, lent.borrowId).value.library;
    assert t.books[bookId] == s.books[bookId];
  }

  // ---------------------------------------------------------------- outside the ledger

  /** The open borrows of `bookId` held by `userId`. */
  ghost function OpenBorrowsHeld(s: Library, bookId: int, userId: int): set<int> {
    set k | k in OpenBorrows(s, bookId) && s.borrows[k].userId == userId
  }

  /**
   * Deleting a user cascades away the user's open borrows and puts no copy back: each book's
   * stock drops by the number of its copies that user still held.
   */
  lemma DeleteUserLosesStock(s: Library, userId: int)
    requires Valid(s) && userId in s.users
    ensures var r := DeleteUser(s, userId);
      && r.Ok?
      && r.value.books == s.books
      && forall b :: b in s.books ==>
           Stock(r.value, b) == Stock(s, b) - |OpenBorrowsHeld(s, b, userId)|
  {
    var t := DeleteUser(s, userId).value;
    forall b | b in s.books
      ensures Stock(t, b) == Stock(s, b) - |OpenBorrowsHeld(s, b, userId)|
    {
      var held := OpenBorrowsHeld(s, b, userId);
      assert OpenBorrows(t, b) == OpenBorrows(s, b) - held;
      assert held <= OpenBorrows(s, b);
      CardinalityOfDifference(OpenBorrows(s, b), held);
    }
  }

  lemma CardinalityOfDifference(a: set<int>, b: set<int>)
    requires b <= a
    ensures |a - b| == |a| - |b|
  {
    assert a == (a - b) + b;
  }

  /** So deleting a user who holds an open borrow of a book lowers that book's stock. */
  lemma DeletingBorrowerLosesCopies(s: Library, borrowId: int)
    requires Valid(s) && borrowId in s.borrows && s.borrows[borrowId].IsOpen()
    ensures var loan := s.borrows[borrowId];
      var r := DeleteUser(s, loan.userId);
      r.Ok? && Stock(r.value, loan.bookId) < Stock(s, loan.bookId)
  {
    var loan := s.borrows[borrowId];
    DeleteUserLosesStock(s, loan.userId);
    assert borrowId in OpenBorrowsHeld(s, loan.bookId, loan.userId);
  }

  /** An update that sends `copies` sets it to that value, whatever it is, and shifts the stock by as much. */
  lemma UpdateBypassesLedger(s: Library, bookId: int, copies: int)
    requires bookId in s.books
    ensures var f := BookFields(None, None, None, None, None, Some(copies), None);
      var r := UpdateBook(s, DecimalString(bookId), f);
      && r.Ok?
      && r.value.books[bookId].copies == copies
      && Stock(r.value, bookId) == Stock(s, bookId) - s.books[bookId].copies + copies
      && (copies < 0 ==> !CopiesNonNegative(r.value))
  {
    ParseIntOfDecimalString(bookId, 10);
    var f := BookFields(None, None, None, None, None, Some(copies), None);
    var t := PatchBook(s, bookId, f);
    assert UpdateBook(s, DecimalString(bookId), f) == Ok(t);
    assert t.borrows == s.borrows;
    assert OpenBorrows(t, bookId) == OpenBorrows(s, bookId);
  }

  /** Creating a book accepts a negative number of copies: only zero is refused. */
  lemma CreateAcceptsNegativeCopies(s: Library, f: BookFields)
    requires Valid(s) && AllTruthy(f) && !IsbnInUse(s.books, f.isbn.value) && f.copies.value < 0
    ensures var r := CreateBook(s, f);
      r.Ok? && !CopiesNonNegative(r.value.library)
  {
    var c := CreateBook(s, f).value;
    assert c.library.books[c.bookId].copies < 0;
  }

  // ---------------------------------------------------------------- the report and the ledger

  /** Returning a reported borrow at the instant of the report charges its overdue days. */
  lemma ReturnChargesReportedDays(s: Library, now: int, i: int)
    requires Valid(s) && 0 <= i < |OverdueReport(s, now)|
    ensures var r := ReturnBook(s, now, OverdueIds(s, now)[i]);
      r.Ok? && r.value.lateDays == OverdueReport(s, now)[i].overdueDays
  {
    var id := OverdueIds(s, now)[i];
    var entry := OverdueReport(s, now)[i];
    assert Describes(s, now, id, entry);
    var r := ReturnBook(s, now, id);
    WholeDaysUnique(s.borrows[id].dueDate, now, entry.overdueDays);
    WholeDaysUnique(s.borrows[id].dueDate, now, r.value.lateDays);
  }

  /** Once a reported borrow is returned, it drops out of the report. */
  lemma ReturnClearsReport(s: Library, now: int, later: int, borrowId: int)
    requires Valid(s) && borrowId in s.borrows
    ensures var r := ReturnBook(s, now, borrowId);
      r.Ok? && borrowId !in OverdueIds(r.value.library, later)
  {
  }

  // ---------------------------------------------------------------- runs of the ledger

  /** One request to the ledger: lend a book, or take a borrow back. */
  datatype LedgerStep =
    | Lend(at: int, userId: int, bookId: int)
    | Take(at: int, borrowId: int)

  /** The library after one step; a refused step leaves it as it was. */
  function Step(s: Library, step: LedgerStep): (t: Library)
    requires Valid(s)
    ensures Valid(t)
    ensures t.books.Keys == s.books.Keys
  {
    match step
    case Lend(at, userId, bookId) =>
      var r := BorrowBook(s, at, userId, bookId);
      if r.Ok? then BorrowBookKeepsValid(s, at, userId, bookId); r.value.library else s
    case Take(at, borrowId) =>
      var r := ReturnBook(s, at, borrowId);
      if r.Ok? then ReturnBookKeepsValid(s, at, borrowId); r.value.library else s
  }

  /** The library after a sequence of ledger steps, taken in order. */
  function Run(s: Library, steps: seq<LedgerStep>): (t: Library)
    requires Valid(s)
    ensures Valid(t)
    ensures t.books.Keys == s.books.Keys
    decreases |steps|
  {
    if steps == [] then s else Run(Step(s, steps[0]), steps[1..])
  }

  /** No step of the ledger loses a copy: every book's stock stays or grows by one. */
  lemma StepKeepsStock(s: Library, step: LedgerStep)
    requires Valid(s)
    ensures forall b :: b in s.books ==> Stock(s, b) <= Stock(Step(s, step), b) <= Stock(s, b) + 1
  {
    match step
    case Lend(at, userId, bookId) =>
      if BorrowBook(s, at, userId, bookId).Ok? {
        BorrowConservesStock(s, at, userId, bookId);
      }
    case Take(at, borrowId) =>
      if borrowId in s.borrows {
        if s.borrows[borrowId].IsOpen() {
          FirstReturnConservesStock(s, at, borrowId);
        } else {
          RepeatedReturnRaisesStock(s, at, borrowId);
        }
      }
  }

  /** Through lending and returning alone, no book ever has fewer copies in stock than it started with. */
  lemma {:induction false} RunNeverLosesStock(s: Library, steps: seq<LedgerStep>)
    requires Valid(s)
    ensures forall b :: b in s.books ==> Stock(s, b) <= Stock(Run(s, steps), b)
    decreases |steps|
  {
    if steps != [] {
      var next := Step(s, steps[0]);
      StepKeepsStock(s, steps[0]);
      RunNeverLosesStock(next, steps[1..]);
    }
  }

  /** Through lending and returning alone, copies never go below zero. */
  lemma {:induction false} RunKeepsCopiesNonNegative(s: Library, steps: seq<LedgerStep>)
    requires Valid(s) && CopiesNonNegative(s)
    ensures CopiesNonNegative(Run(s, steps))
    decreases |steps|
  {
    if steps != [] {
      if steps[0].Lend? {
        BorrowKeepsCopiesNonNegative(s, steps[0].at, steps[0].userId, steps[0].bookId);
      }
      RunKeepsCopiesNonNegative(Step(s, steps[0]), steps[1..]);
    }
  }

  // ---------------------------------------------------------------- a day at the desk

  /**
   * A book with one copy is lent; a second request for it is refused as unavailable; the
   * copy comes back before it is due, with no late days, and the book has one copy again.
   */
  lemma OneCopyScenario(s: Library, now: int, back: int, bookId: int, first: int, second: int)
    requires Valid(s) && bookId in s.books && s.books[bookId].copies == 1
    requires first in s.users && second in s.users
    requires now <= back <= now + LoanDays * MsPerDay
    ensures var lent := BorrowBook(s, now, first, bookId);
      && lent.Ok?
      && lent.value.library.books[bookId].copies == 0
      && Valid(lent.value.library)
      && BorrowBook(lent.value.library, now, second, bookId) == Err(BookNotAvailable)
      && var returned := ReturnBook(lent.value.library, back, lent.value.borrowId);
      && returned.Ok?
      && returned.value.lateDays == 0
      && returned.value.library.books[bookId].copies == 1
  {
    BorrowBookKeepsValid(s, now, first, bookId);
  }
}
