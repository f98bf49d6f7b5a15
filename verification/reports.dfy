/**
 * The overdue report of routes/reportRoute.js: every open borrow whose due date lies strictly
 * before `now`, joined with its user's name and email and its book's title and isbn, with the
 * whole days it is overdue. The report reads the library and changes nothing.
 */
module Reports {
  import opened Clock
  import opened Store

  /** One line of the report. */
  datatype Entry = Entry(user: string, email: string, bookTitle: string, isbn: string, overdueDays: int)

  /** The filter of the report's query: `returnDate IS NULL AND dueDate < now`. */
  predicate IsOverdue(loan: Borrow, now: int) {
    loan.IsOpen() && loan.dueDate < now
  }

  /** The ids among `ids` of overdue borrows, in the order of `ids`. */
  function OverdueAmong(s: Library, now: int, ids: seq<int>): (r: seq<int>)
    ensures |r| <= |ids|
    ensures forall id :: id in r <==> id in ids && id in s.borrows && IsOverdue(s.borrows[id], now)
    ensures Ascending(ids) ==> Ascending(r)
  {
    if ids == [] then []
    else
      var rest := OverdueAmong(s, now, ids[1..]);
      var head := ids[0];
      if head in s.borrows && IsOverdue(s.borrows[head], now) then
        AscendingCons(ids, rest);
        [head] + rest
      else rest
  }

  /** Keeping the head of an ascending sequence in front of a filtered tail keeps it ascending. */
  lemma AscendingCons(ids: seq<int>, rest: seq<int>)
    requires |ids| > 0
    requires Ascending(ids[1..]) ==> Ascending(rest)
    requires forall k :: k in rest ==> k in ids[1..]
    ensures Ascending(ids) ==> Ascending([ids[0]] + rest)
  {
    if Ascending(ids) {
      assert Ascending(ids[1..]);
      forall k | k in rest
        ensures ids[0] < k
      {
        var j :| 0 <= j < |ids[1..]| && ids[1..][j] == k;
        assert ids[j + 1] == k;
      }
      PrependSmaller(ids[0], rest);
    }
  }

  /** The ids of the borrows the report lists, in id order: each overdue borrow exactly once. */
  function OverdueIds(s: Library, now: int): (ids: seq<int>)
    ensures forall id :: id in ids <==> id in s.borrows && IsOverdue(s.borrows[id], now)
    ensures Ascending(ids)
  {
    OverdueAmong(s, now, SortedKeys(s.borrows.Keys))
  }

  /** `entry` is the report line for borrow `id`. */
  ghost predicate Describes(s: Library, now: int, id: int, entry: Entry)
    requires ReferencesResolve(s)
  {
    && id in s.borrows
    && var loan := s.borrows[id];
    && IsOverdue(loan, now)
    && entry.user == s.users[loan.userId].name
    && entry.email == s.users[loan.userId].email
    && entry.bookTitle == s.books[loan.bookId].title
    && entry.isbn == s.books[loan.bookId].isbn
    && entry.overdueDays >= 0
    && entry.overdueDays * MsPerDay <= now - loan.dueDate < entry.overdueDays * MsPerDay + MsPerDay
  }

  /** The report line for an overdue borrow. */
  function EntryFor(s: Library, now: int, id: int): (entry: Entry)
    requires ReferencesResolve(s)
    requires id in s.borrows && IsOverdue(s.borrows[id], now)
    ensures Describes(s, now, id, entry)
  {
    var loan := s.borrows[id];
    var user := s.users[loan.userId];
    var book := s.books[loan.bookId];
    Entry(user.name, user.email, book.title, book.isbn, WholeDays(loan.dueDate, now))
  }

  /** `GET /api/report`: one line per overdue borrow, in id order. */
  function OverdueReport(s: Library, now: int): (report: seq<Entry>)
    requires ReferencesResolve(s)
    ensures |report| == |OverdueIds(s, now)|
    ensures forall i :: 0 <= i < |report| ==> Describes(s, now, OverdueIds(s, now)[i], report[i])
  {
    var ids := OverdueIds(s, now);
    seq(|ids|, i requires 0 <= i < |ids| => EntryFor(s, now, ids[i]))
  }

  /** A borrow due exactly at `now` is not yet overdue and is not reported. */
  lemma DueNowIsNotReported(s: Library, now: int, id: int)
    requires id in s.borrows && s.borrows[id].dueDate == now
    ensures id !in OverdueIds(s, now)
  {
  }

  /** A returned borrow is never reported, whatever its due date. */
  lemma ReturnedIsNotReported(s: Library, now: int, id: int)
    requires id in s.borrows && s.borrows[id].returnDate.Some?
    ensures id !in OverdueIds(s, now)
  {
  }

  /** A borrow overdue by less than a whole day is reported with zero overdue days. */
  lemma UnderADayOverdueCountsZero(s: Library, now: int, i: int)
    requires ReferencesResolve(s)
    requires 0 <= i < |OverdueReport(s, now)|
    requires now - s.borrows[OverdueIds(s, now)[i]].dueDate < MsPerDay
    ensures OverdueReport(s, now)[i].overdueDays == 0
  {
    var entry := OverdueReport(s, now)[i];
    assert Describes(s, now, OverdueIds(s, now)[i], entry);
  }
}
