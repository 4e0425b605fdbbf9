/** The `page` record of src/routes/admin-routes.js and
    src/routes/index-routes.js (each module has its own) and the arithmetic
    of its `previouspage` and `nextpage` handlers. `pagenumber` is a row
    offset, not a page index. */
module Pagination {
  import opened Wrappers
  import Rows

  /** `pageincrement`: rows per page; no handler changes it. */
  const PageIncrement: nat := 10

  /** `Math.ceil(n / pageincrement)` for a non-negative integer `n`: the
      least number of pages that hold `n` rows. */
  function PageCount(n: nat): (r: nat)
    ensures r * PageIncrement >= n
    ensures r > 0 ==> (r - 1) * PageIncrement < n
  {
    (n + PageIncrement - 1) / PageIncrement
  }

  /** The offset `nextpage` moves to, as written: one page on, unless
      `pageamount` equals the number of the page the offset is on. */
  function NextOffset(pagenumber: nat, pageamount: int): nat {
    if pageamount != PageCount(pagenumber + 1) then pagenumber + PageIncrement else pagenumber
  }

  /** The offset of the last of `pageamount` pages (0 when there are none). */
  function LastOffset(pageamount: nat): nat {
    if pageamount == 0 then 0 else (pageamount - 1) * PageIncrement
  }

  /** The page an offset that is a multiple of `pageincrement` lies on,
      counted from 1, is `ceil((pagenumber + 1) / pageincrement)`. */
  lemma PageOfOffset(pagenumber: nat)
    requires pagenumber % PageIncrement == 0
    ensures PageCount(pagenumber + 1) == pagenumber / PageIncrement + 1
  {
  }

  /** The offset after `k` calls of `nextpage` while `pageamount` stays put. */
  ghost function NextClicks(pagenumber: nat, pageamount: int, k: nat): nat {
    if k == 0 then pagenumber else NextOffset(NextClicks(pagenumber, pageamount, k - 1), pageamount)
  }

  /** As written, `nextpage` never stops while `pageamount` is 0 (no events,
      or no listing shown since start-up): every call moves one page further
      past the end of the (empty) listing. */
  lemma {:induction false} NextRunsPastEmptyListing(k: nat)
    ensures NextClicks(0, 0, k) == k * PageIncrement
    ensures k > 0 ==> NextClicks(0, 0, k) > LastOffset(0)
  {
    if k > 0 {
      NextRunsPastEmptyListing(k - 1);
      assert NextClicks(0, 0, k - 1) % PageIncrement == 0;
      PageOfOffset(NextClicks(0, 0, k - 1));
    }
  }

  /** `nextpage` as evidently intended: move on only while the offset is
      before the last counted page. */
  function IntendedNextOffset(pagenumber: nat, pageamount: nat): (r: nat)
    requires pagenumber % PageIncrement == 0
    ensures r % PageIncrement == 0
    ensures r == pagenumber || r == pagenumber + PageIncrement
    ensures pagenumber <= LastOffset(pageamount) ==> r <= LastOffset(pageamount)
    ensures r == pagenumber + PageIncrement <==> pagenumber < LastOffset(pageamount)
  {
    PageOfOffset(pagenumber);
    if PageCount(pagenumber + 1) < pageamount then pagenumber + PageIncrement else pagenumber
  }

  /** On every offset of a non-empty listing the intended step and the
      written one agree; they differ only past the end. */
  lemma IntendedAgreesOnListedPages(pagenumber: nat, pageamount: nat)
    requires pagenumber % PageIncrement == 0
    requires pageamount >= 1 && pagenumber <= LastOffset(pageamount)
    ensures IntendedNextOffset(pagenumber, pageamount) == NextOffset(pagenumber, pageamount)
  {
  }

  /** The rows of pages 1 to `k` listed one after another, each fetched with
      `OFFSET (i - 1) * pageincrement LIMIT pageincrement`. */
  ghost function FirstPages<T>(s: seq<T>, k: nat): seq<T> {
    if k == 0 then []
    else FirstPages(s, k - 1) + Rows.Window(s, (k - 1) * PageIncrement, Some(PageIncrement))
  }

  /** The first `k` pages are the first `k * pageincrement` rows. */
  lemma {:induction false} FirstPagesArePrefix<T>(s: seq<T>, k: nat)
    ensures FirstPages(s, k) == s[..if k * PageIncrement <= |s| then k * PageIncrement else |s|]
  {
    if k > 0 {
      FirstPagesArePrefix(s, k - 1);
      var lo := if (k - 1) * PageIncrement <= |s| then (k - 1) * PageIncrement else |s|;
      var hi := if k * PageIncrement <= |s| then k * PageIncrement else |s|;
      var w := Rows.Window(s, (k - 1) * PageIncrement, Some(PageIncrement));
      assert w == s[lo..hi];
      assert s[..lo] + s[lo..hi] == s[..hi];
    }
  }

  /** The offsets `0, pageincrement, ...` of the `PageCount(|s|)` counted
      pages list every row exactly once, and the last of them is not empty. */
  lemma EveryRowOnOnePage<T>(s: seq<T>)
    ensures FirstPages(s, PageCount(|s|)) == s
    ensures PageCount(|s|) > 0 ==> Rows.Window(s, LastOffset(PageCount(|s|)), Some(PageIncrement)) != []
  {
    FirstPagesArePrefix(s, PageCount(|s|));
  }

  /** A `page` record. */
  class Page {
    var pagenumber: int
    var pageamount: int

    /** The offset is a non-negative multiple of `pageincrement`. */
    ghost predicate Valid()
      reads this
    {
      0 <= pagenumber && pagenumber % PageIncrement == 0 && 0 <= pageamount
    }

    /** The offset is on one of the `pageamount` counted pages. */
    ghost predicate OnListedPage()
      reads this
    {
      pageamount >= 1 && pagenumber <= LastOffset(pageamount)
    }

    /** `{ pagenumber: 0, pageamount: 0, pageincrement: 10 }`. */
    constructor ()
      ensures Valid()
      ensures pagenumber == 0 && pageamount == 0
    {
      pagenumber, pageamount := 0, 0;
    }

    /** `previouspage`: one page back unless already at offset 0. */
    method PreviousPage()
      requires Valid()
      modifies this
      ensures Valid()
      ensures pageamount == old(pageamount)
      ensures pagenumber == if old(pagenumber) == 0 then 0 else old(pagenumber) - PageIncrement
      ensures old(OnListedPage()) ==> OnListedPage()
    {
      if pagenumber != 0 {
        pagenumber := pagenumber - PageIncrement;
      }
    }

    /** `nextpage`: one page on unless `pageamount` equals
        `ceil((pagenumber + 1) / pageincrement)`. */
    method NextPage()
      requires Valid()
      modifies this
      ensures Valid()
      ensures pageamount == old(pageamount)
      ensures pagenumber == NextOffset(old(pagenumber), old(pageamount))
      ensures pagenumber == old(pagenumber) || pagenumber == old(pagenumber) + PageIncrement
      ensures old(OnListedPage()) ==> OnListedPage()
    {
      PageOfOffset(pagenumber);
      if pageamount != PageCount(pagenumber + 1) {
        pagenumber := pagenumber + PageIncrement;
      }
    }

    /** The assignment `page.pageamount = Math.ceil(Number(amount) / page.pageincrement)`. */
    method SetPageAmount(eventCount: nat)
      requires Valid()
      modifies this`pageamount
      ensures Valid()
      ensures pageamount == PageCount(eventCount)
      ensures eventCount > 0 ==> LastOffset(pageamount) < eventCount
    {
      pageamount := PageCount(eventCount);
    }
  }
}
