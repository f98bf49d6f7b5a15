/**
 * The book routes of routes/bookRoute.js: create with its all-fields guard, partial update,
 * delete refused while a copy is out on loan, and the paginated list. Path ids go through
 * `parseInt(id, 10)`; removing a book removes its borrows by the Borrows.bookId cascade.
 */
module Catalogue {
  import opened Outcomes
  import opened JsNumbers
  import opened Store
  import opened Paging

  /**
   * The body of a create or update request: each field as sent, None when absent.
   * Numbers are typed as the columns are; values of another JSON type are not modelled.
   */
  datatype BookFields = BookFields(
    title: Option<string>,
    isbn: Option<string>,
    publicationYear: Option<int>,
    image: Option<string>,
    rating: Option<real>,
    copies: Option<int>,
    authors: Option<string>)

  /** A truthy string: sent and not empty. */
  predicate Filled(x: Option<string>) {
    x.Some? && x.value != ""
  }

  /** A truthy integer: sent and not zero. */
  predicate NonZero(x: Option<int>) {
    x.Some? && x.value != 0
  }

  /** A truthy real: sent and not zero. */
  predicate NonZeroReal(x: Option<real>) {
    x.Some? && x.value != 0.0
  }

  /** The guard of `POST /api/books`: all seven fields truthy. */
  predicate AllTruthy(f: BookFields) {
    && Filled(f.title)
    && Filled(f.isbn)
    && NonZero(f.publicationYear)
    && Filled(f.image)
    && NonZeroReal(f.rating)
    && NonZero(f.copies)
    && Filled(f.authors)
  }

  /** Some book already has `isbn`. */
  predicate IsbnInUse(books: map<int, Book>, isbn: string) {
    exists id :: id in books && books[id].isbn == isbn
  }

  /** A successful create: the new library and the id of the new book. */
  datatype Created = Created(library: Library, bookId: int)

  /**
   * `POST /api/books`. A falsy field is refused before anything is written; an isbn that is
   * already in use is refused by the unique constraint; otherwise one book is added.
   */
  function CreateBook(s: Library, f: BookFields): (r: Result<Created>)
    requires Valid(s)
    ensures !AllTruthy(f) ==> r == Err(FieldsRequired)
    ensures AllTruthy(f) && IsbnInUse(s.books, f.isbn.value) ==> r == Err(ConstraintViolated)
    ensures r.Ok? <==> AllTruthy(f) && !IsbnInUse(s.books, f.isbn.value)
    ensures r.Ok? ==>
              var t, id := r.value.library, r.value.bookId;
              && id !in s.books
              && t.books.Keys == s.books.Keys + {id}
              && t.books[id] == Book(f.title.value, f.isbn.value, f.publicationYear.value,
                                     f.rating.value, f.copies.value, f.image.value, f.authors.value)
              && (forall b :: b in s.books ==> t.books[b] == s.books[b])
              && t.users == s.users
              && t.borrows == s.borrows
              && t.nextBookId == id + 1
              && t.nextUserId == s.nextUserId && t.nextBorrowId == s.nextBorrowId
  {
    if !AllTruthy(f) then Err(FieldsRequired)
    else if IsbnInUse(s.books, f.isbn.value) then Err(ConstraintViolated)
    else
      var id := s.nextBookId;
      var book := Book(f.title.value, f.isbn.value, f.publicationYear.value,
                       f.rating.value, f.copies.value, f.image.value, f.authors.value);
      Ok(Created(s.(books := s.books[id := book], nextBookId := id + 1), id))
  }

  /** `after` is `before` with every field the request sent replaced, and the others kept. */
  predicate Patched(before: Book, f: BookFields, after: Book) {
    && after.title == (if f.title.Some? then f.title.value else before.title)
    && after.isbn == (if f.isbn.Some? then f.isbn.value else before.isbn)
    && after.publicationYear == (if f.publicationYear.Some? then f.publicationYear.value else before.publicationYear)
    && after.image == (if f.image.Some? then f.image.value else before.image)
    && after.rating == (if f.rating.Some? then f.rating.value else before.rating)
    && after.copies == (if f.copies.Some? then f.copies.value else before.copies)
    && after.authors == (if f.authors.Some? then f.authors.value else before.authors)
  }

  function Patch(before: Book, f: BookFields): (after: Book)
    ensures Patched(before, f, after)
  {
    Book(
      if f.title.Some? then f.title.value else before.title,
      if f.isbn.Some? then f.isbn.value else before.isbn,
      if f.publicationYear.Some? then f.publicationYear.value else before.publicationYear,
      if f.rating.Some? then f.rating.value else before.rating,
      if f.copies.Some? then f.copies.value else before.copies,
      if f.image.Some? then f.image.value else before.image,
      if f.authors.Some? then f.authors.value else before.authors)
  }

  /**
   * `PUT /api/books/:id`. An id that does not parse is refused, then an unknown id; an isbn
   * held by another book is refused by the unique constraint. Fields left out of the request
   * keep their value (undefined values are dropped from the update). Nothing checks the new
   * value of `copies`.
   */
  function UpdateBook(s: Library, rawId: string, f: BookFields): (r: Result<Library>)
    ensures ParseInt(rawId, 10).NaN? ==> r == Err(InvalidIdFormat)
    ensures ParseInt(rawId, 10).Int? && ParseInt(rawId, 10).value !in s.books ==> r == Err(BookNotFound)
    ensures r.Ok? <==>
              var id := ParseInt(rawId, 10);
              && id.Int? && id.value in s.books
              && !(f.isbn.Some? && IsbnTaken(s.books, f.isbn.value, id.value))
    ensures r.Err? && !r.error.InvalidIdFormat? && !r.error.BookNotFound? ==> r == Err(ConstraintViolated)
    ensures r.Ok? ==>
              var t, id := r.value, ParseInt(rawId, 10).value;
              && t.books.Keys == s.books.Keys
              && Patched(s.books[id], f, t.books[id])
              && (forall b :: b in s.books && b != id ==> t.books[b] == s.books[b])
              && t.users == s.users
              && t.borrows == s.borrows
              && t.nextBookId == s.nextBookId && t.nextUserId == s.nextUserId && t.nextBorrowId == s.nextBorrowId
  {
    var parsed := ParseInt(rawId, 10);
    if parsed.NaN? then Err(InvalidIdFormat)
    else UpdateById(s, parsed.value, f)
  }

  /**
   * The update once the path id has parsed to `id`: an unknown id is refused, then an isbn
   * held by another book; otherwise the book is patched and nothing else changes.
   */
  function UpdateById(s: Library, id: int, f: BookFields): (r: Result<Library>)
    ensures id !in s.books ==> r == Err(BookNotFound)
    ensures r.Ok? <==> id in s.books && !(f.isbn.Some? && IsbnTaken(s.books, f.isbn.value, id))
    ensures r.Err? && !r.error.BookNotFound? ==> r == Err(ConstraintViolated)
    ensures r.Ok? ==>
              var t := r.value;
              && t.books.Keys == s.books.Keys
              && Patched(s.books[id], f, t.books[id])
              && (forall b :: b in s.books && b != id ==> t.books[b] == s.books[b])
              && t.users == s.users
              && t.borrows == s.borrows
              && t.nextBookId == s.nextBookId && t.nextUserId == s.nextUserId && t.nextBorrowId == s.nextBorrowId
  {
    if id !in s.books then Err(BookNotFound)
    else if f.isbn.Some? && IsbnTaken(s.books, f.isbn.value, id) then Err(ConstraintViolated)
    else Ok(PatchBook(s, id, f))
  }

  /** The library with book `id` patched by `f`. */
  function PatchBook(s: Library, id: int, f: BookFields): Library
    requires id in s.books
  {
    s.(books := s.books[id := Patch(s.books[id], f)])
  }

  /**
   * `DELETE /api/books/:id`. An id that does not parse is refused, then an unknown id, then a
   * book with an open borrow. Otherwise the book goes, and with it every borrow of it.
   */
  function DeleteBook(s: Library, rawId: string): (r: Result<Library>)
    ensures ParseInt(rawId, 10).NaN? ==> r == Err(InvalidIdFormat)
    ensures ParseInt(rawId, 10).Int? && ParseInt(rawId, 10).value !in s.books ==> r == Err(BookNotFound)
    ensures (ParseInt(rawId, 10).Int? && ParseInt(rawId, 10).value in s.books &&
             HasOpenBorrow(s, ParseInt(rawId, 10).value)) ==> r == Err(CurrentlyBorrowed)
    ensures r.Ok? <==>
              var id := ParseInt(rawId, 10);
              id.Int? && id.value in s.books && !HasOpenBorrow(s, id.value)
    ensures r.Ok? ==>
              var t, id := r.value, ParseInt(rawId, 10).value;
              && t.books.Keys == s.books.Keys - {id}
              && (forall b :: b in t.books ==> t.books[b] == s.books[b])
              && (forall k :: k in t.borrows <==> k in s.borrows && s.borrows[k].bookId != id)
              && (forall k :: k in t.borrows ==> t.borrows[k] == s.borrows[k])
              && t.users == s.users
              && t.nextBookId == s.nextBookId && t.nextUserId == s.nextUserId && t.nextBorrowId == s.nextBorrowId
  {
    var parsed := ParseInt(rawId, 10);
    if parsed.NaN? then Err(InvalidIdFormat)
    else DeleteById(s, parsed.value)
  }

  /**
   * The delete once the path id has parsed to `id`: an unknown id is refused, then a book
   * with an open borrow; otherwise the book and every borrow of it go, and nothing else changes.
   */
  function DeleteById(s: Library, id: int): (r: Result<Library>)
    ensures id !in s.books ==> r == Err(BookNotFound)
    ensures id in s.books && HasOpenBorrow(s, id) ==> r == Err(CurrentlyBorrowed)
    ensures r.Ok? <==> id in s.books && !HasOpenBorrow(s, id)
    ensures r.Ok? ==>
              var t := r.value;
              && t.books.Keys == s.books.Keys - {id}
              && (forall b :: b in t.books ==> t.books[b] == s.books[b])
              && (forall k :: k in t.borrows <==> k in s.borrows && s.borrows[k].bookId != id)
              && (forall k :: k in t.borrows ==> t.borrows[k] == s.borrows[k])
              && t.users == s.users
              && t.nextBookId == s.nextBookId && t.nextUserId == s.nextUserId && t.nextBorrowId == s.nextBorrowId
  {
    if id !in s.books then Err(BookNotFound)
    else if HasOpenBorrow(s, id) then Err(CurrentlyBorrowed)
    else
      var kept := map k | k in s.borrows && s.borrows[k].bookId != id :: s.borrows[k];
      Ok(s.(books := s.books - {id}, borrows := kept))
  }

  /** The `page` and `pageSize` query values after JavaScript's numeric coercion. */
  function PageOrDefault(page: Option<Num>): Num {
    if page.Some? then page.value else Int(1)
  }

  function PageSizeOrDefault(pageSize: Option<Num>): Num {
    if pageSize.Some? then pageSize.value else Int(10)
  }

  /**
   * The page `Array.prototype.slice` cuts from a listing `rows`: from `(page - 1) * pageSize`
   * to `page * pageSize`. An absent `page` is 1 and an absent `pageSize` is 10.
   */
  function PageOf(rows: seq<Book>, page: Option<Num>, pageSize: Option<Num>): (r: seq<Book>)
    ensures |r| <= |rows|
    ensures forall b :: b in r ==> b in rows
  {
    var p, k := PageOrDefault(page), PageSizeOrDefault(pageSize);
    Slice(rows, Times(Minus(p, Int(1)), k), Times(p, k))
  }

  /** `GET /api/books`: every book is read, in id order, and one page of them is returned. */
  function ListBooks(s: Library, page: Option<Num>, pageSize: Option<Num>): (r: seq<Book>)
    ensures |r| <= |s.books|
    ensures forall b :: b in r ==> b in s.books.Values
  {
    PageOf(Rows(s.books), page, pageSize)
  }

  /**
   * For a page `p >= 1` and a page size `k >= 0`, the page is the run of the listing from
   * position `(p - 1) * k` to `p * k`, cut off at its end: never more than `k` books.
   */
  lemma PageIsWindow(rows: seq<Book>, p: int, k: int)
    requires p >= 1 && k >= 0
    ensures var r, n, start := PageOf(rows, Some(Int(p)), Some(Int(k))), |rows|, (p - 1) * k;
      && start >= 0
      && |r| <= k
      && r == rows[Min(start, n)..Min(start + k, n)]
  {
    var a := (p - 1) * k;
    PageWindow(p, k);
    var lo := Times(Minus(Int(p), Int(1)), Int(k));
    assert lo == Int(a);
    var hi := Times(Int(p), Int(k));
    assert hi == Int(a + k);
    assert PageOf(rows, Some(Int(p)), Some(Int(k))) == Slice(rows, lo, hi);
  }

  /** The first page of ten over twelve books holds ten books, and it is the default page. */
  lemma FirstPageOfTwelveBooks(s: Library)
    requires |s.books| == 12
    ensures |ListBooks(s, Some(Int(1)), Some(Int(10)))| == 10
    ensures ListBooks(s, None, None) == ListBooks(s, Some(Int(1)), Some(Int(10)))
  {
    PageIsWindow(Rows(s.books), 1, 10);
  }

  /**
   * Offset `j` of page `p` of size `k` holds the book at position `(p - 1) * k + j` of the
   * listing.
   */
  lemma PageOfPosition(rows: seq<Book>, p: int, k: int, j: int)
    requires p >= 1 && 0 <= j < k && (p - 1) * k + j < |rows|
    ensures var page, start := PageOf(rows, Some(Int(p)), Some(Int(k))), (p - 1) * k;
      start >= 0 && j < |page| && page[j] == rows[start + j]
  {
    PageIsWindow(rows, p, k);
  }

  /** Position `i` is at offset `i % k` of page `i / k + 1`. */
  lemma PositionOnPage(i: int, k: int)
    requires k >= 1 && i >= 0
    ensures i / k + 1 >= 1 && 0 <= i % k < k
    ensures (i / k + 1 - 1) * k + i % k == i
  {
  }

  /** The pages tile the listing: the book at position `i` is at place `i % k` of page `i / k + 1`. */
  lemma BookOnItsPage(rows: seq<Book>, i: int, k: int)
    requires k >= 1 && 0 <= i < |rows|
    ensures var page := PageOf(rows, Some(Int(i / k + 1)), Some(Int(k)));
      i % k < |page| && page[i % k] == rows[i]
  {
    PositionOnPage(i, k);
    PageOfPosition(rows, i / k + 1, k, i % k);
  }

  /** A negative page size is not clamped: page 1 then holds all but the last `-k` books. */
  lemma NegativePageSizeIsNotABound(rows: seq<Book>, k: int)
    requires k < 0 && |rows| + k > 0
    ensures PageOf(rows, Some(Int(1)), Some(Int(k))) == rows[..|rows| + k]
  {
  }

  // ---------------------------------------------------------------- laws

  lemma CreateBookKeepsValid(s: Library, f: BookFields)
    requires Valid(s) && CreateBook(s, f).Ok?
    ensures Valid(CreateBook(s, f).value.library)
  {
  }

  lemma UpdateBookKeepsValid(s: Library, rawId: string, f: BookFields)
    requires Valid(s) && UpdateBook(s, rawId, f).Ok?
    ensures Valid(UpdateBook(s, rawId, f).value)
  {
  }

  lemma DeleteBookKeepsValid(s: Library, rawId: string)
    requires Valid(s) && DeleteBook(s, rawId).Ok?
    ensures Valid(DeleteBook(s, rawId).value)
  {
  }

  /** Deleting a book only ever drops borrows that were already returned. */
  lemma DeleteBookDropsOnlyReturnedBorrows(s: Library, rawId: string, k: int)
    requires DeleteBook(s, rawId).Ok?
    requires k in s.borrows && k !in DeleteBook(s, rawId).value.borrows
    ensures s.borrows[k].returnDate.Some?
  {
  }

  /** Deleting a freshly created book by its decimal id gives back the tables it was added to. */
  lemma DeleteUndoesCreate(s: Library, f: BookFields)
    requires Valid(s) && CreateBook(s, f).Ok?
    ensures var c := CreateBook(s, f).value;
      DeleteBook(c.library, DecimalString(c.bookId)) == Ok(s.(nextBookId := c.library.nextBookId))
  {
    var c := CreateBook(s, f).value;
    ParseIntOfDecimalString(c.bookId, 10);
    DeleteByIdUndoesCreate(s, f);
  }

  /** Deleting a freshly created book by its id gives back the tables it was added to. */
  lemma DeleteByIdUndoesCreate(s: Library, f: BookFields)
    requires Valid(s) && CreateBook(s, f).Ok?
    ensures var c := CreateBook(s, f).value;
      DeleteById(c.library, c.bookId) == Ok(s.(nextBookId := c.library.nextBookId))
  {
    var c := CreateBook(s, f).value;
    assert !HasOpenBorrow(c.library, c.bookId);
    var r := DeleteById(c.library, c.bookId);
    assert r.Ok?;
    var t := r.value;
    SameMap(t.books, s.books);
    forall k | k in s.borrows
      ensures k in t.borrows
    {
      assert s.borrows[k].bookId in s.books;
    }
    SameMap(t.borrows, s.borrows);
  }

  /** Sending the same update twice has the effect of sending it once. */
  lemma UpdateBookIdempotent(s: Library, rawId: string, f: BookFields)
    requires UpdateBook(s, rawId, f).Ok?
    ensures UpdateBook(UpdateBook(s, rawId, f).value, rawId, f) == UpdateBook(s, rawId, f)
  {
    UpdateByIdIdempotent(s, ParseInt(rawId, 10).value, f);
  }

  /** Patching a book twice with the same fields has the effect of patching it once. */
  lemma UpdateByIdIdempotent(s: Library, id: int, f: BookFields)
    requires UpdateById(s, id, f).Ok?
    ensures UpdateById(UpdateById(s, id, f).value, id, f) == UpdateById(s, id, f)
  {
    var t := PatchBook(s, id, f);
    assert UpdateById(s, id, f) == Ok(t);
    if f.isbn.Some? {
      assert !IsbnTaken(t.books, f.isbn.value, id);
    }
    assert Patch(t.books[id], f) == t.books[id];
    assert t.books[id := t.books[id]] == t.books;
    assert PatchBook(t, id, f) == t;
  }
}
