/**
 * Time as the routes use it: instants are integer milliseconds, and a day is the fixed
 * 1000 * 60 * 60 * 24 = 86 400 000 ms that the late-day and overdue-day computations divide by.
 */
module Clock {

  const MsPerDay: int := 86_400_000

  /** The loan period, in days, added to the borrow instant to give the due date. */
  const LoanDays: int := 14

  /**
   * The due date of a loan taken at `borrowedAt`. The route adds 14 to the local calendar
   * day of the month; counting 14 fixed days instead ignores daylight-saving shifts.
   */
  function DueDate(borrowedAt: int): (due: int)
    ensures due > borrowedAt
    ensures WholeDays(borrowedAt, due) == LoanDays
  {
    borrowedAt + LoanDays * MsPerDay
  }

  /** `Math.floor((later - earlier) / MsPerDay)`: the whole days from `earlier` to `later`. */
  function WholeDays(earlier: int, later: int): (days: int)
    ensures days * MsPerDay <= later - earlier < days * MsPerDay + MsPerDay
  {
    (later - earlier) / MsPerDay
  }

  /** The floor characterisation of `WholeDays` has one solution only. */
  lemma WholeDaysUnique(earlier: int, later: int, days: int)
    requires days * MsPerDay <= later - earlier < days * MsPerDay + MsPerDay
    ensures days == WholeDays(earlier, later)
  {
  }

  /**
   * The late days charged when a loan due at `due` is returned at `returnedAt`:
   * none when it comes back on or before the due instant, otherwise the whole days past it.
   */
  function LateDays(due: int, returnedAt: int): (days: int)
    ensures days >= 0
    ensures returnedAt <= due ==> days == 0
    ensures returnedAt > due ==> days * MsPerDay <= returnedAt - due < days * MsPerDay + MsPerDay
    ensures days == 0 <==> returnedAt < due + MsPerDay
  {
    if returnedAt > due then WholeDays(due, returnedAt) else 0
  }

  /** A loan returned 20 days and a fraction of a day after its due date is 20 days late. */
  lemma TwentyDaysLate(due: int, extra: int)
    requires 0 <= extra < MsPerDay
    ensures LateDays(due, due + 20 * MsPerDay + extra) == 20
  {
  }
}
