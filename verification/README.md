# Library loan ledger — a Dafny model

This project models the lending core of a small library service built on Express and
Sequelize. The model covers:

- lending a book (`POST /api/borrow`) and returning it (`POST /api/borrow/return`), which
  together keep each book's `copies` count;
- the overdue report (`GET /api/report`);
- the book and user operations that touch the same tables: create, update and delete of
  books and users, and the two paginated listings.

The library is an immutable value (`Store.Library`). It holds the Books, Users and Borrows
tables as maps keyed by id, plus the next value of each id sequence. Every writing route is
a pure function from a library to a `Result`. The listings and the overdue report only
read the library: `Catalogue.ListBooks` and `Reports.OverdueReport` return plain sequences,
and `Directory.ListUsers` returns a `Result` holding one page. For the writing routes:

- A failure carries the route's error and no new state, so in the model a refused request
  changes nothing. In the store, a create refused by a unique constraint may still use up
  an id (see "Left out").
- Each writing operation states how the id sequences move: a create or a loan advances its
  table's sequence past the new id, and every other operation leaves all three alone.
- The current instant is a parameter `now`, in milliseconds.
- `Store.Valid` states what the database guarantees: issued ids, resolving foreign keys, and
  unique emails and isbns. Every writing operation is proved to keep it.

The central property is the copies ledger. Call a book's *stock* its shelf copies plus its
open borrows (`Store.Stock`). Lending keeps every stock, and so does the first return of a
borrow. The code does not keep it everywhere:

- A borrow can be returned again. Nothing checks `returnDate`, so the book gains a copy it
  never lost.
- Deleting a user cascades away that user's open borrows. Their copies are never put back.
- Updating a book writes `copies` directly, negative values included. Creating a book accepts
  negative `copies`, since only zero is falsy.

`LedgerLaws` proves the ledger law and each of these departures from it. Along any run of
lends and returns, no book's stock ever falls and copies never go negative. Nothing in the
code stops a second return of a borrow, or stops `copies` going negative through create or
update; the model follows the code.

Modules, one file each: `Outcomes` (outcomes.dfy), `Clock` (clock.dfy), `JsNumbers`
(js_numbers.dfy), `Store` (store.dfy), `Lending` (lending.dfy), `Reports` (reports.dfy),
`Paging` (paging.dfy), `Catalogue` (catalogue.dfy), `Directory` (directory.dfy),
`LedgerLaws` (ledger_laws.dfy).

## Model

| member | source | states |
|---|---|---|
| Outcomes.Status | routes/borrowRoute.js:67-75 | not-found failures answer 404, failures raised by the store answer 500, every other refusal answers 400 |
| Clock.DueDate | routes/borrowRoute.js:62-63 | the due date lies after the borrow instant, exactly 14 whole days later |
| Clock.WholeDays | routes/reportRoute.js:83 | `Math.floor(ms / 86400000)`: the days counted are the unique `d` with `d` days ≤ the elapsed time < `d + 1` days |
| Clock.WholeDaysUnique | routes/reportRoute.js:83 | that floor characterisation has exactly one solution |
| Clock.LateDays | routes/borrowRoute.js:157-158 | late days are never negative; zero for a return on or before the due instant; otherwise the floor of the days past due; zero exactly when the return comes less than a day after the due instant |
| Clock.TwentyDaysLate | routes/borrowRoute.js:157-158 | a return 20 days and a fraction of a day after the due instant is charged 20 days |
| JsNumbers.OrDefault | routes/usersRoute.js:225-226 | JavaScript's logical-or default keeps a truthy number and otherwise gives the fallback, so it is never zero when the fallback is nonzero |
| JsNumbers.TrimStart | routes/bookRoute.js:262 | `parseInt` skips exactly the leading white space: what it drops is white space and what remains starts with none |
| JsNumbers.DigitRun | routes/bookRoute.js:262 | `parseInt` reads the longest prefix of radix digits |
| JsNumbers.ParseInt | routes/bookRoute.js:262-266 | `parseInt(s, radix)` yields a number only for a valid radix and a string holding a digit; otherwise NaN, which the route answers with "Invalid ID format" |
| JsNumbers.ParseIntOfDecimalString | routes/bookRoute.js:262 | `parseInt` with radix 10 or with no radix reads back every integer from its decimal form |
| JsNumbers.DigitsValueOfDigits | routes/bookRoute.js:262 | the value of the decimal digits of `n` is `n` |
| JsNumbers.NoDigitsIsNaN | routes/usersRoute.js:225-226 | with radix 10 or with the radix omitted, a value holding no decimal digit parses to NaN, letter-only values such as `abc` included |
| JsNumbers.RelativeIndex | routes/bookRoute.js:386 | a `slice` index lands in `[0, length]`: a non-negative argument is clamped to the length, and a negative one counts from the end, as `max(length + k, 0)` |
| JsNumbers.Slice | routes/bookRoute.js:386 | `slice` returns at most the whole array and only its elements; for `0 ≤ a ≤ b` it is the run from `a` to `b` cut off at the end; for `0 ≤ b ≤ a` it is empty |
| Store.EmptyIsValid | migrations/20250317145604-create-borrow-table.js:24-40 | the freshly migrated, empty database meets the store's guarantees |
| Store.OpenBorrowsMatchQuery | routes/bookRoute.js:318 | the query for a borrow of the book with a null return date finds a row exactly when the book has an open borrow |
| Store.SortedKeys | routes/bookRoute.js:385 | the listing visits every id exactly once, in strictly ascending order |
| Store.RowsOf | routes/bookRoute.js:385 | reading the rows of a list of ids gives one row per id, in the ids' order, each a row of the table |
| Store.Rows | routes/bookRoute.js:385 | `findAll` returns every row once: row `i` is the row of the `i`-th id, and every row belongs to the table |
| Lending.BorrowBook | routes/borrowRoute.js:59-94 | the book is checked first, then the user, then availability (`copies <= 0`); the loan succeeds exactly when all three pass; it opens one new borrow due 14 days later with no return date; it lowers that book's copies by one, advances the borrow id sequence past the new id, and changes nothing else |
| Lending.ReturnBook | routes/borrowRoute.js:147-173 | only an unknown borrow id is refused; otherwise the return instant is overwritten with `now`, open or not; the book gets one copy back and nothing else changes; late days are 0 up to the due instant, then whole days past it |
| Lending.BorrowBookKeepsValid | models/borrow.js:2-8 | lending keeps ids issued, foreign keys resolving and unique constraints intact |
| Lending.ReturnBookKeepsValid | models/borrow.js:2-8 | returning keeps the store's guarantees |
| Reports.OverdueAmong | routes/reportRoute.js:59-65 | filtering keeps exactly the listed borrows that are open with a due date strictly before now, in their order |
| Reports.OverdueIds | routes/reportRoute.js:59-65 | the report covers exactly the open borrows due strictly before now, each once, in id order |
| Reports.EntryFor | routes/reportRoute.js:78-84 | a report line carries the borrower's name and email, the book's title and isbn, and the whole days overdue |
| Reports.OverdueReport | routes/reportRoute.js:57-90 | one line per overdue borrow, in order, each describing its borrow's user, book and overdue days |
| Reports.DueNowIsNotReported | routes/reportRoute.js:63 | a borrow due exactly now is not yet overdue (strict `<`) |
| Reports.ReturnedIsNotReported | routes/reportRoute.js:61 | a returned borrow is never reported |
| Reports.UnderADayOverdueCountsZero | routes/reportRoute.js:83 | a borrow less than a day overdue is listed with 0 overdue days |
| Paging.WindowAccepted | routes/usersRoute.js:229-235 | for a nonzero page and limit, the store accepts the limit and the offset `(page-1)·limit` exactly when both are at least 1 |
| Paging.Window | routes/usersRoute.js:232-235 | `LIMIT limit OFFSET offset` returns at most `limit` rows, the rows from `offset` onwards, and none past the end |
| Paging.PageCount | routes/usersRoute.js:238 | `Math.ceil(count / limit)` pages hold every row, and one page fewer would not |
| Paging.PageCountIsLeast | routes/usersRoute.js:238 | no smaller number of pages holds every row |
| Catalogue.CreateBook | routes/bookRoute.js:67-95 | any falsy field is refused with "All fields are required"; a duplicate isbn is refused by the unique constraint; otherwise exactly one new book is added with the given fields, and the book id sequence moves past its id |
| Catalogue.UpdateBook | routes/bookRoute.js:259-280 | a path id that does not parse is refused first, then an unknown id, then an isbn held by another book; on success the book has every sent field replaced and every other field kept, and nothing else changes |
| Catalogue.UpdateById | routes/bookRoute.js:270-274 | for a parsed id: an unknown id is refused, then an isbn held by another book; otherwise only that book changes, with every sent field replaced and every other field kept, and no table or id sequence else changes |
| Catalogue.DeleteBook | routes/bookRoute.js:306-330 | refusals in order: an unparsable id, an unknown book, a book with an open borrow; on success the book and all its borrows are gone and nothing else changes |
| Catalogue.DeleteById | routes/bookRoute.js:314-324 | for a parsed id: an unknown book is refused, then a book with an open borrow; otherwise that book and exactly the borrows of it go, and nothing else changes |
| Catalogue.ListBooks | routes/bookRoute.js:382-392 | the page holds only books of the library and never more than there are |
| Catalogue.PageOf | routes/bookRoute.js:384-386 | a page of a listing holds only rows of that listing and never more than it has |
| Catalogue.PageIsWindow | routes/bookRoute.js:384-386 | page `p ≥ 1` of size `k ≥ 0` is the run of the listing from `(p-1)·k` to `p·k`, cut off at its end, never more than `k` books |
| Catalogue.PageOfPosition | routes/bookRoute.js:386 | place `j < k` of page `p` holds the book at position `(p-1)·k + j` of the listing, whenever the listing reaches that far |
| Catalogue.BookOnItsPage | routes/bookRoute.js:384-386 | the pages tile the listing: the book at position `i` is listed at place `i % k` of page `i / k + 1` |
| Catalogue.NegativePageSizeIsNotABound | routes/bookRoute.js:386 | a negative page size is passed to `slice` unchecked, so page 1 is the listing without its last `-k` books |
| Catalogue.FirstPageOfTwelveBooks | tests/api.test.js:114-117 | over twelve books the first page of ten holds ten, and omitting `page` and `pageSize` gives that same page |
| Catalogue.CreateBookKeepsValid | models/book.js:7-11 | creating a book keeps the store's guarantees, isbn uniqueness included |
| Catalogue.UpdateBookKeepsValid | models/book.js:7-11 | updating a book keeps the store's guarantees |
| Catalogue.DeleteBookKeepsValid | migrations/20250317145604-create-borrow-table.js:33-40 | deleting a book keeps every remaining borrow's foreign keys resolving |
| Catalogue.DeleteBookDropsOnlyReturnedBorrows | routes/bookRoute.js:318-324 | the cascade of a book delete only ever removes returned borrows |
| Catalogue.DeleteUndoesCreate | tests/api.test.js:87-94 | deleting a newly created book by its decimal id gives back the tables as they were |
| Catalogue.DeleteByIdUndoesCreate | routes/bookRoute.js:314-324 | deleting a newly created book by its id gives back the tables as they were, with only the book id sequence advanced |
| Catalogue.UpdateBookIdempotent | routes/bookRoute.js:274 | sending the same update twice has the effect of sending it once |
| Catalogue.UpdateByIdIdempotent | routes/bookRoute.js:274 | patching a book twice with the same fields has the effect of patching it once |
| Directory.CreateUser | routes/usersRoute.js:46-64 | a missing or empty email is refused by the route; a missing name or an email in use is refused by the store; otherwise exactly one user is added, and the user id sequence moves past its id |
| Directory.UpdateUser | routes/usersRoute.js:114-133 | an unknown id is refused, then an email held by another user; on success every sent field is replaced, every other field kept, and nothing else changes |
| Directory.DeleteUser | routes/usersRoute.js:156-171 | only an unknown id is refused; on success the user and every one of their borrows, open or not, are gone, and no book changes |
| Directory.QueryNumber | routes/usersRoute.js:225-226 | `parseInt(param)` or-defaulted to the fallback is never zero: a missing, zero or unparsable value gives the fallback |
| Directory.UsersPage | routes/usersRoute.js:228-246 | the response echoes page and limit, counts all users, gives the least page count that holds them all, and lists at most `limit` users from offset `(page-1)·limit` in order; a negative limit or offset is refused by the store |
| Directory.UserPageAt | routes/usersRoute.js:232-246 | a response for an accepted window echoes page and limit, counts all users, gives a page count that holds them all and one fewer would not, and lists at most `limit` users from the offset in order |
| Directory.ListUsers | routes/usersRoute.js:222-250 | a successful list always has page and limit at least 1; with no parameters it is page 1 of 10 users |
| Directory.CreateUserKeepsValid | models/user.js:4 | creating a user keeps email uniqueness and the other guarantees |
| Directory.UpdateUserKeepsValid | models/user.js:4 | updating a user keeps the store's guarantees |
| Directory.DeleteUserKeepsValid | migrations/20250317145604-create-borrow-table.js:24-31 | the user-delete cascade leaves every remaining borrow's foreign keys resolving |
| Directory.DeleteUndoesCreateUser | routes/usersRoute.js:156-171 | deleting a newly created user gives back the tables as they were |
| Directory.UpdateUserIdempotent | routes/usersRoute.js:124 | sending the same user update twice has the effect of sending it once |
| Directory.EmptyEmailOnlyRefusedOnCreate | routes/usersRoute.js:51-52 | an empty email is refused on create but stored by an update |
| Directory.PageDefaults | routes/usersRoute.js:225-226 | missing and zero page and limit values, and any value holding no decimal digit (such as `abc`), fall back to 1 and 10 |
| Directory.QueryOfDecimal | routes/usersRoute.js:225-226 | a query value written in decimal reads back as its number, and `0` falls back to the default |
| Directory.ThreeUsersTwoPerPage | tests/api.test.js:155-162 | three users listed two per page: page 1 holds two users, out of two pages |
| LedgerLaws.BorrowConservesStock | routes/borrowRoute.js:79-88 | lending moves a copy from the shelf to an open borrow, so no book's stock changes |
| LedgerLaws.BorrowKeepsStockOf | routes/borrowRoute.js:79-88 | for each book, a loan adds an open borrow exactly where it takes a copy, so that book's stock is unchanged |
| LedgerLaws.BorrowKeepsCopiesNonNegative | routes/borrowRoute.js:74-75 | the availability check keeps copies from going below zero |
| LedgerLaws.FirstReturnConservesStock | routes/borrowRoute.js:161-167 | returning an open borrow puts its copy back, so no book's stock changes |
| LedgerLaws.RepeatedReturnRaisesStock | routes/borrowRoute.js:150-167 | returning an already returned borrow raises its book's stock by one and overwrites the earlier return instant |
| LedgerLaws.DoubleReturnBreaksConservation | routes/borrowRoute.js:150-167 | returning the same borrow twice leaves the book two copies up and one copy more in stock than it owned |
| LedgerLaws.ReturnUndoesBorrow | routes/borrowRoute.js:59-173 | returning the borrow just opened restores the book and user tables, and a return by the due date is charged nothing |
| LedgerLaws.DeleteUserLosesStock | migrations/20250317145604-create-borrow-table.js:31 | deleting a user lowers each book's stock by the number of its open borrows that user held |
| LedgerLaws.DeletingBorrowerLosesCopies | routes/usersRoute.js:165 | deleting a user who holds an open borrow loses that book's copy for good |
| LedgerLaws.UpdateBypassesLedger | routes/bookRoute.js:274 | an update can set `copies` to any value, negative included, shifting the stock by the difference |
| LedgerLaws.CreateAcceptsNegativeCopies | routes/bookRoute.js:72-73 | the all-fields guard lets a negative number of copies through |
| LedgerLaws.ReturnChargesReportedDays | routes/reportRoute.js:83 | returning a reported borrow at the instant of the report charges exactly its reported overdue days |
| LedgerLaws.ReturnClearsReport | routes/borrowRoute.js:161-164 | a returned borrow leaves the overdue report |
| LedgerLaws.Step | routes/borrowRoute.js:59-173 | one lend or return keeps the store's guarantees and the set of books |
| LedgerLaws.Run | routes/borrowRoute.js:59-173 | any sequence of lends and returns keeps the store's guarantees and the set of books |
| LedgerLaws.StepKeepsStock | routes/borrowRoute.js:59-173 | one lend or return never lowers a stock and raises it by at most one |
| LedgerLaws.RunNeverLosesStock | routes/borrowRoute.js:59-173 | along any run of lends and returns no book's stock ever falls |
| LedgerLaws.RunKeepsCopiesNonNegative | routes/borrowRoute.js:74-88 | along any run of lends and returns copies never go below zero |
| LedgerLaws.OneCopyScenario | routes/borrowRoute.js:59-173 | a one-copy book is lent, a second request is refused as unavailable, and a timely return costs nothing and restores the copy |

## Left out

- Express routing, Swagger documentation, request logging and the JSON shape of responses are
  not modelled. Each route is its operation on the library, and the response's status comes
  from `Outcomes.Status`.
- The book search route (`GET /api/books/search`) is not modelled. It does not touch the loan
  ledger.
- The Authors table, its migrations and the seed data are not modelled.
- Store and connection failures other than unique, not-null and negative-window violations
  are not modelled, including the database errors a route turns into a 500. The text of the
  store's own error messages is not modelled either.
- Request fields of the wrong JSON type are not modelled: strings for ids, `null`, fractions,
  booleans. `userId`, `bookId` and `borrowId` are integers, and a missing one is an id that
  finds no row.
- The user path id is an integer: how `findByPk` coerces a non-numeric path string is not
  modelled.
- Book-list `page` and `pageSize` are given after JavaScript's numeric coercion, as an
  integer or NaN. Fractional values, Infinity and string concatenation quirks are not modelled.
- JsNumbers.ParseInt: reads digits into an unbounded integer, with no rounding to a double
  beyond 2^53.
- Catalogue.ListBooks: its own contract only bounds the page. The exact page is stated by
  Catalogue.PageIsWindow, for integer page and size, about the same page of any listing.
- Clock.DueDate: adds 14 fixed days of 86 400 000 ms, where the code adds 14 to the local
  calendar date. The two differ across a daylight-saving change.
- Borrow and due instants come from one `now`; the code reads the clock more than once.
- `rating` is a real number: floating-point rounding is not modelled.
- Tables are read without ORDER BY. The model lists rows in ascending id order.
- Concurrent requests are not modelled. Each operation is one atomic step, whereas the code
  reads, then writes the borrow, then writes the book, with no transaction.
- Lending.ReturnBook: the code passes `lateDays` to `borrow.update`, but the Borrows table has
  no such column. The model returns the value and does not store it.
- Catalogue.CreateBook: a duplicate isbn is refused by the store's unique constraint during
  the INSERT. The store is PostgreSQL: the book search uses `Op.iLike`, and the refusal of a
  negative LIMIT or OFFSET (`Outcomes.NegativeWindow`) is PostgreSQL's. PostgreSQL draws the
  new id from its sequence before checking the constraint, so the book id sequence stays
  advanced after the refusal. The model leaves `nextBookId` unchanged, so after such a refusal
  the next book's id is one lower than the store's.
- Directory.CreateUser: the same holds for an email already in use. The store refuses it by
  the unique constraint during the INSERT, and the model leaves `nextUserId` unchanged. A
  missing name is refused by Sequelize before any INSERT, so no id is drawn there.
- Outcomes.Message: the route's error texts are given as data, with no property stated about
  them.
