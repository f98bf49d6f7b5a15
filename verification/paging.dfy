/**
 * Page arithmetic shared by the two listing routes: where page `p` of size `k` starts,
 * the rows a LIMIT/OFFSET query returns, and the page count `Math.ceil(count / limit)`.
 */
module Paging {
  import opened JsNumbers

  /** Page `p >= 1` of size `k >= 0` starts at `(p - 1) * k` and ends `k` rows later, at `p * k`. */
  lemma PageWindow(p: int, k: int)
    requires p >= 1 && k >= 0
    ensures 0 <= (p - 1) * k <= p * k == (p - 1) * k + k
  {
    assert p * k == (p - 1) * k + k;
  }

  /**
   * For a nonzero page and size, the store accepts the window (a limit and an offset that are
   * not negative) exactly when the page and the size are both at least 1.
   */
  lemma WindowAccepted(p: int, k: int)
    requires p != 0 && k != 0
    ensures (k >= 0 && (p - 1) * k >= 0) <==> (p >= 1 && k >= 1)
  {
    if p >= 1 && k >= 1 {
      PageWindow(p, k);
    }
  }

  /** `page` lists, in order, the rows of `rows` from position `offset` on. */
  ghost predicate ListsFrom<T>(page: seq<T>, rows: seq<T>, offset: int) {
    forall i :: 0 <= i < |page| ==> 0 <= offset + i < |rows| && page[i] == rows[offset + i]
  }

  /** The rows `LIMIT limit OFFSET offset` returns from `rows`. */
  function Window<T>(rows: seq<T>, offset: nat, limit: nat): (r: seq<T>)
    ensures |r| <= limit
    ensures offset <= |rows| ==> |r| == Min(limit, |rows| - offset)
    ensures offset >= |rows| ==> r == []
    ensures ListsFrom(r, rows, offset)
  {
    rows[Min(offset, |rows|)..Min(offset + limit, |rows|)]
  }

  /** `pages` pages of `limit` rows hold `count` rows, and one page fewer would not. */
  predicate PagesHold(count: int, limit: int, pages: int) {
    (pages - 1) * limit < count <= pages * limit
  }

  /** `Math.ceil(count / limit)` for a positive limit: the number of pages of `limit` rows. */
  function PageCount(count: nat, limit: int): (pages: nat)
    requires limit >= 1
    ensures PagesHold(count, limit, pages)
  {
    var x := count + limit - 1;
    var q := x / limit;
    assert q * limit + x % limit == x;
    assert (q - 1) * limit == q * limit - limit;
    q
  }

  /** The page count is the least number of pages that holds every row. */
  lemma PageCountIsLeast(count: nat, limit: int, pages: int)
    requires limit >= 1
    requires count <= pages * limit
    ensures PageCount(count, limit) <= pages
  {
  }
}
