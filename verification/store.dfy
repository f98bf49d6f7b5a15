/**
 * The library's persisted state: the Books, Users and Borrows tables, keyed by id, with the
 * next value of each table's id sequence, and the guarantees the store keeps about them.
 */
module Store {
  import opened Outcomes

  /** A row of Books. `rating` is a real number; floating-point rounding is not modelled. */
  datatype Book = Book(
    title: string,
    isbn: string,
    publicationYear: int,
    rating: real,
    copies: int,
    image: string,
    authors: string)

  /** A row of Users. */
  datatype User = User(name: string, email: string)

  /**
   * A row of Borrows: which user holds which book, since when, until when, and when it came
   * back (None while the loan is outstanding). Instants are in milliseconds.
   */
  datatype Borrow = Borrow(
    userId: int,
    bookId: int,
    borrowDate: int,
    dueDate: int,
    returnDate: Option<int>)
  {
    /** An open borrow: the book has not come back yet. */
    predicate IsOpen() {
      returnDate.None?
    }
  }

  datatype Library = Library(
    books: map<int, Book>,
    users: map<int, User>,
    borrows: map<int, Borrow>,
    nextBookId: int,
    nextUserId: int,
    nextBorrowId: int)

  /** A freshly migrated database: empty tables, every id sequence at 1. */
  const Empty: Library := Library(map[], map[], map[], 1, 1, 1)

  /** Every id in `table` was issued by a sequence that now stands at `next`. */
  ghost predicate Issued<T>(table: map<int, T>, next: int) {
    && 1 <= next
    && forall id :: id in table ==> 1 <= id < next
  }

  /** The foreign keys Borrows.userId and Borrows.bookId point at existing rows. */
  ghost predicate ReferencesResolve(s: Library) {
    forall id :: id in s.borrows ==> s.borrows[id].userId in s.users && s.borrows[id].bookId in s.books
  }

  /** The unique constraint on Users.email. */
  ghost predicate EmailsUnique(users: map<int, User>) {
    forall a, b :: a in users && b in users && a != b ==> users[a].email != users[b].email
  }

  /** The unique constraint on Books.isbn. */
  ghost predicate IsbnsUnique(books: map<int, Book>) {
    forall a, b :: a in books && b in books && a != b ==> books[a].isbn != books[b].isbn
  }

  /** What the store guarantees of every state it holds. */
  ghost predicate Valid(s: Library) {
    && Issued(s.books, s.nextBookId)
    && Issued(s.users, s.nextUserId)
    && Issued(s.borrows, s.nextBorrowId)
    && ReferencesResolve(s)
    && EmailsUnique(s.users)
    && IsbnsUnique(s.books)
  }

  lemma EmptyIsValid()
    ensures Valid(Empty)
  {
  }

  /** Some other user than `except` already has `email`. */
  predicate EmailTaken(users: map<int, User>, email: string, except: int) {
    exists id :: id in users && id != except && users[id].email == email
  }

  /** Some other book than `except` already has `isbn`. */
  predicate IsbnTaken(books: map<int, Book>, isbn: string, except: int) {
    exists id :: id in books && id != except && books[id].isbn == isbn
  }

  /** Some borrow of `bookId` is open: the query `findOne({ bookId, returnDate: null })` finds a row. */
  predicate HasOpenBorrow(s: Library, bookId: int) {
    exists id :: id in s.borrows && s.borrows[id].bookId == bookId && s.borrows[id].IsOpen()
  }

  /** Two tables with the same ids and the same row at every id are the same table. */
  lemma SameMap<T>(a: map<int, T>, b: map<int, T>)
    requires a.Keys == b.Keys
    requires forall k :: k in a ==> a[k] == b[k]
    ensures a == b
  {
    forall k | k in a
      ensures k in b && a[k] == b[k]
    {
      assert k in a.Keys;
    }
    forall k | k in b
      ensures k in a
    {
      assert k in b.Keys;
    }
  }

  // ---------------------------------------------------------------- the copies ledger

  /** The ids of the open borrows of `bookId`. */
  ghost function OpenBorrows(s: Library, bookId: int): set<int> {
    set id | id in s.borrows && s.borrows[id].bookId == bookId && s.borrows[id].IsOpen()
  }

  /**
   * The copies of a book the library owns: those on the shelf plus those out on open loans.
   * The ledger is meant to keep this constant.
   */
  ghost function Stock(s: Library, bookId: int): int
    requires bookId in s.books
  {
    s.books[bookId].copies + |OpenBorrows(s, bookId)|
  }

  ghost predicate CopiesNonNegative(s: Library) {
    forall id :: id in s.books ==> s.books[id].copies >= 0
  }

  lemma OpenBorrowsMatchQuery(s: Library, bookId: int)
    ensures HasOpenBorrow(s, bookId) <==> OpenBorrows(s, bookId) != {}
  {
    if HasOpenBorrow(s, bookId) {
      var id :| id in s.borrows && s.borrows[id].bookId == bookId && s.borrows[id].IsOpen();
      assert id in OpenBorrows(s, bookId);
    }
    if OpenBorrows(s, bookId) != {} {
      HasMember(OpenBorrows(s, bookId));
      var id :| id in OpenBorrows(s, bookId);
      assert s.borrows[id].bookId == bookId && s.borrows[id].IsOpen();
    }
  }

  // ---------------------------------------------------------------- listing order

  lemma HasMember(keys: set<int>)
    requires keys != {}
    ensures exists k :: k in keys
  {
    if forall k :: k !in keys {
      assert false;
    }
  }

  predicate IsLeast(m: int, keys: set<int>) {
    forall k :: k in keys ==> m <= k
  }

  lemma {:induction false} LeastExists(keys: set<int>)
    requires keys != {}
    ensures exists m :: m in keys && IsLeast(m, keys)
    decreases |keys|
  {
    HasMember(keys);
    var x :| x in keys;
    if keys != {x} {
      var rest := keys - {x};
      LeastExists(rest);
      var m :| m in rest && IsLeast(m, rest);
      var least := if x < m then x else m;
      forall k | k in keys
        ensures least <= k
      {
        if k != x {
          assert k in rest;
        }
      }
      assert least in keys && IsLeast(least, keys);
    } else {
      assert IsLeast(x, keys);
    }
  }

  /** Strictly increasing ids: each id once, smallest first. */
  predicate Ascending(ids: seq<int>) {
    forall i, j :: 0 <= i < j < |ids| ==> ids[i] < ids[j]
  }

  /** Putting an id below every id of an ascending sequence in front keeps it ascending. */
  lemma PrependSmaller(m: int, rest: seq<int>)
    requires Ascending(rest)
    requires forall k :: k in rest ==> m < k
    ensures Ascending([m] + rest)
  {
    var ids := [m] + rest;
    forall i, j | 0 <= i < j < |ids|
      ensures ids[i] < ids[j]
    {
      assert ids[j] == rest[j - 1] && rest[j - 1] in rest;
      if i > 0 {
        assert ids[i] == rest[i - 1];
      }
    }
  }

  /**
   * The ids of a table in ascending order. The tables are read without ORDER BY; this
   * model lists rows in id order.
   */
  function SortedKeys(keys: set<int>): (ids: seq<int>)
    ensures |ids| == |keys|
    ensures forall id :: id in ids <==> id in keys
    ensures forall i :: 0 <= i < |ids| ==> ids[i] in keys
    ensures Ascending(ids)
    decreases |keys|
  {
    if keys == {} then []
    else
      LeastExists(keys);
      var m :| m in keys && IsLeast(m, keys);
      var rest := SortedKeys(keys - {m});
      PrependSmaller(m, rest);
      [m] + rest
  }

  /** The rows of `table` with the ids `ids`, in the order of `ids`. */
  function RowsOf<T(==)>(table: map<int, T>, ids: seq<int>): (rows: seq<T>)
    requires forall i :: 0 <= i < |ids| ==> ids[i] in table
    ensures |rows| == |ids|
    ensures forall i :: 0 <= i < |rows| ==> rows[i] == table[ids[i]]
    ensures forall x :: x in rows ==> x in table.Values
  {
    if ids == [] then []
    else [table[ids[0]]] + RowsOf(table, ids[1..])
  }

  /** All rows of a table, in id order. */
  function Rows<T(==)>(table: map<int, T>): (rows: seq<T>)
    ensures |rows| == |table|
    ensures forall i :: 0 <= i < |rows| ==> rows[i] == table[SortedKeys(table.Keys)[i]]
    ensures forall x :: x in rows ==> x in table.Values
  {
    RowsOf(table, SortedKeys(table.Keys))
  }
}
