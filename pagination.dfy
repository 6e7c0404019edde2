/**
 * The pagination both list pages share: a fixed page size of 5, the page count
 * `Math.ceil(n / 5)`, the page shown as `slice((page - 1) * 5, page * 5)`, and when the
 * previous and next buttons are disabled.
 */
module Pagination {
  import opened Js

  const PageSize: nat := 5

  function Min(a: int, b: int): int {
    if a <= b then a else b
  }

  /** `Math.ceil(n / 5)`: the least number of pages of 5 that holds `n` entries. */
  function TotalPages(n: nat): (t: nat)
    ensures t == 0 <==> n == 0
    ensures t > 0 ==> PageSize * (t - 1) < n <= PageSize * t
  {
    (n + PageSize - 1) / PageSize
  }

  /** The page count is the only one with that property. */
  lemma TotalPagesUnique(n: nat, t: nat)
    requires t > 0 && PageSize * (t - 1) < n <= PageSize * t
    ensures t == TotalPages(n)
  {
  }

  /**
   * The entries on page `page`. It never holds more than 5; a page from 1 on is empty exactly
   * when it lies beyond the page count, every page but the last is full, and entry `i` of a page
   * is entry `(page - 1) * 5 + i` of the list.
   */
  function PageOf<T>(s: seq<T>, page: int): (r: seq<T>)
    ensures |r| <= PageSize
    ensures page >= 1 ==> (r == [] <==> page > TotalPages(|s|))
    ensures 1 <= page < TotalPages(|s|) ==> |r| == PageSize
    ensures page >= 1 ==> forall i :: 0 <= i < |r| ==> (page - 1) * PageSize + i < |s| && r[i] == s[(page - 1) * PageSize + i]
  {
    Slice(s, (page - 1) * PageSize, page * PageSize)
  }

  /** A page from 1 on is the stretch of the list from `(page - 1) * 5`, cut at the list's end. */
  lemma PageIsStretch<T>(s: seq<T>, page: nat)
    requires page >= 1 && (page - 1) * PageSize <= |s|
    ensures PageOf(s, page) == s[(page - 1) * PageSize..Min(page * PageSize, |s|)]
  {
  }

  /** Pages 1 to `k`, one after the other. */
  function FirstPages<T>(s: seq<T>, k: nat): seq<T>
    decreases k
  {
    if k == 0 then [] else FirstPages(s, k - 1) + PageOf(s, k)
  }

  lemma {:induction false} FirstPagesPrefix<T>(s: seq<T>, k: nat)
    requires k <= TotalPages(|s|)
    ensures FirstPages(s, k) == s[..Min(k * PageSize, |s|)]
    decreases k
  {
    if k > 0 {
      FirstPagesPrefix(s, k - 1);
      assert (k - 1) * PageSize < |s|;
      PageIsStretch(s, k);
      var a, b := (k - 1) * PageSize, Min(k * PageSize, |s|);
      assert s[..a] + s[a..b] == s[..b];
    }
  }

  /** The pages 1 to `totalPages` put together give back the whole list, each entry once, in order. */
  lemma PagesCoverList<T>(s: seq<T>)
    ensures FirstPages(s, TotalPages(|s|)) == s
  {
    FirstPagesPrefix(s, TotalPages(|s|));
    assert s[..|s|] == s;
  }

  /** Entry `i` of the list is shown on page `i / 5 + 1`, at place `i % 5`. */
  lemma EntryOnPage<T>(s: seq<T>, i: nat)
    requires i < |s|
    ensures 1 <= i / PageSize + 1 <= TotalPages(|s|)
    ensures i % PageSize < |PageOf(s, i / PageSize + 1)|
    ensures PageOf(s, i / PageSize + 1)[i % PageSize] == s[i]
  {
    var p := i / PageSize + 1;
    assert (p - 1) * PageSize + i % PageSize == i;
    PageIsStretch(s, p);
  }

  /** The previous button is disabled on page 1 only. */
  predicate PrevDisabled(page: int) {
    page == 1
  }

  /** The next button is disabled on the last page and when there are no pages. */
  predicate NextDisabled(page: int, total: nat) {
    page == total || total == 0
  }

  /**
   * From a page within `1..totalPages` the buttons never lead outside it. Past the last page
   * (the page is not reset when the list shrinks) next stays enabled whenever there is a page at
   * all, so it leads further away.
   */
  lemma StepsStayInRange(page: int, total: nat)
    requires 1 <= page
    ensures page <= total && !NextDisabled(page, total) ==> page + 1 <= total
    ensures page <= total && !PrevDisabled(page) ==> 1 <= page - 1 <= total
    ensures !NextDisabled(page, total) <==> page < total || (total > 0 && page > total)
  {
  }

  /** The page label `totalPages || 1`: the page count, or 1 when there is no page. */
  function PageLabel(total: nat): (shown: nat)
    ensures shown >= 1
    ensures total > 0 ==> shown == total
    ensures total == 0 ==> shown == 1
  {
    if total != 0 then total else 1
  }

  /** A list page's table body: the rows of the page, or the message that there are none. */
  datatype Body<T> = Message(text: string) | Rows(rows: seq<T>)

  /** The table body for the page shown: the message exactly when the page is empty. */
  function TableBody<T>(visible: seq<T>, message: string): (b: Body<T>)
    ensures b.Message? <==> visible == []
    ensures b.Message? ==> b.text == message
    ensures b.Rows? ==> b.rows == visible
  {
    if |visible| == 0 then Message(message) else Rows(visible)
  }
}
