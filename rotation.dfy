/**
 * The page rotation of the completed-polls grid (static/js/display_completed.js):
 * the list of completed polls is shown four at a time, and a timer moves to
 * the next page, wrapping round after the last one.
 */
module Rotation {
  import opened Common
  import opened Views

  /** `POLLS_PER_PAGE`. */
  const PollsPerPage: nat := 4

  /** Rotation is set up only when the list does not fit on one page. */
  predicate RotationEnabled(n: nat) {
    n > PollsPerPage
  }

  /** The number of pages: the poll count divided by the page size, rounded up. */
  function TotalPages(n: nat): (t: nat)
    ensures t * PollsPerPage >= n
    ensures t > 0 ==> (t - 1) * PollsPerPage < n
    ensures t == 0 <==> n == 0
  {
    (n + PollsPerPage - 1) / PollsPerPage
  }

  /** `startIdx` and `endIdx` of a page: `[page * 4, min(page * 4 + 4, n))`. */
  function PageBounds(n: nat, page: nat): (b: (nat, nat))
    requires page < TotalPages(n)
    ensures b.0 == page * PollsPerPage
    ensures b.0 < b.1 <= n && b.1 - b.0 <= PollsPerPage
    ensures b.1 - b.0 == PollsPerPage || b.1 == n
  {
    var start := page * PollsPerPage;
    (start, if start + PollsPerPage < n then start + PollsPerPage else n)
  }

  /** Poll index `i` lies inside the slice shown for `page`. */
  predicate OnPage(n: nat, page: nat, i: nat) {
    page * PollsPerPage <= i && i < n && i < page * PollsPerPage + PollsPerPage
  }

  /** Every poll index belongs to exactly one page: the page `i / 4`. */
  lemma OnPageExactly(n: nat, page: nat, i: nat)
    requires i < n
    ensures OnPage(n, page, i) <==> page == i / PollsPerPage
    ensures i / PollsPerPage < TotalPages(n)
  {
  }

  /** One card of the grid, labelled with the poll's position in the whole list. */
  datatype Card = Card(index: nat, entry: CompletedEntry)

  /** The cards `rotatePage` puts in the grid for `page`. */
  function PageCards(all: seq<CompletedEntry>, page: nat): (r: seq<Card>)
    requires page < TotalPages(|all|)
    ensures 0 < |r| <= PollsPerPage
    ensures forall k :: 0 <= k < |r| ==> r[k].index == page * PollsPerPage + k
    ensures forall k :: 0 <= k < |r| ==> r[k].index < |all| && r[k].entry == all[r[k].index]
    ensures forall i :: 0 <= i < |all| ==> (OnPage(|all|, page, i) <==> exists k :: 0 <= k < |r| && r[k].index == i)
  {
    var (startIdx, endIdx) := PageBounds(|all|, page);
    var r := seq(endIdx - startIdx, idx requires 0 <= idx < endIdx - startIdx => Card(startIdx + idx, all[startIdx + idx]));
    assert forall i :: 0 <= i < |all| && OnPage(|all|, page, i) ==> r[i - startIdx].index == i;
    r
  }

  /** The page after `page`, wrapping round to the first after the last. */
  function Next(page: nat, totalPages: nat): (r: nat)
    requires page < totalPages
    ensures r < totalPages
    ensures r == if page + 1 < totalPages then page + 1 else 0
  {
    (page + 1) % totalPages
  }

  /** The page shown after `k` rotations starting from `page`. */
  function PageAfter(page: nat, k: nat, totalPages: nat): (r: nat)
    requires page < totalPages
    ensures r < totalPages
  {
    if k == 0 then page else Next(PageAfter(page, k - 1, totalPages), totalPages)
  }

  /** Within one full cycle, rotation walks up from the start page and wraps to 0 once. */
  lemma {:induction false} PageAfterWraps(page: nat, k: nat, totalPages: nat)
    requires page < totalPages && k <= totalPages
    ensures PageAfter(page, k, totalPages)
         == if page + k < totalPages then page + k else page + k - totalPages
  {
    if k > 0 {
      PageAfterWraps(page, k - 1, totalPages);
    }
  }

  /** After `k` rotations from `page`, poll index `i` is in the grid. */
  predicate ShownAtStep(n: nat, page: nat, k: nat, i: nat) {
    page < TotalPages(n) && OnPage(n, PageAfter(page, k, TotalPages(n)), i)
  }

  /**
   * Over `totalPages` consecutive rotations, whatever the starting page, every
   * poll is shown at exactly one of the steps.
   */
  lemma EveryPollOncePerCycle(n: nat, page: nat, i: nat)
    requires i < n && page < TotalPages(n)
    ensures exists k :: 1 <= k <= TotalPages(n) && ShownAtStep(n, page, k, i)
    ensures forall k1, k2 ::
      (1 <= k1 <= TotalPages(n) && 1 <= k2 <= TotalPages(n)
       && ShownAtStep(n, page, k1, i) && ShownAtStep(n, page, k2, i)) ==> k1 == k2
  {
    var t := TotalPages(n);
    OnPageExactly(n, i / PollsPerPage, i);
    var target := i / PollsPerPage;
    var k := if target > page then target - page else target + t - page;
    PageAfterWraps(page, k, t);
    OnPageExactly(n, PageAfter(page, k, t), i);
    assert ShownAtStep(n, page, k, i);
    forall k1, k2 | 1 <= k1 <= t && 1 <= k2 <= t && ShownAtStep(n, page, k1, i) && ShownAtStep(n, page, k2, i)
      ensures k1 == k2
    {
      PageAfterWraps(page, k1, t);
      PageAfterWraps(page, k2, t);
      OnPageExactly(n, PageAfter(page, k1, t), i);
      OnPageExactly(n, PageAfter(page, k2, t), i);
    }
  }

  /** The closure state of the rotation script and what it writes into the page. */
  class Rotator {
    const allPolls: seq<CompletedEntry>
    const totalPages: nat
    var currentPage: nat
    /** The cards in `grid-container`, once the script has written them. */
    var grid: seq<Card>
    /** The text of `current-page`, once the script has written it. */
    var pageIndicator: nat

    ghost predicate Valid()
      reads this
    {
      RotationEnabled(|allPolls|) && totalPages == TotalPages(|allPolls|) && currentPage < totalPages
    }

    /**
     * The script's set-up once rotation is enabled. The first page is the
     * server-rendered grid, which this model leaves untouched.
     */
    constructor (allPolls: seq<CompletedEntry>)
      requires RotationEnabled(|allPolls|)
      ensures Valid() && this.allPolls == allPolls && currentPage == 0
      ensures grid == [] && pageIndicator == 0
    {
      this.allPolls := allPolls;
      totalPages := TotalPages(|allPolls|);
      currentPage := 0;
      grid := [];
      pageIndicator := 0;
    }

    /**
     * `rotatePage()` once its fade-out delay has run: move to the next page,
     * wrapping to the first, show that page's slice with global card indices,
     * and update the page indicator.
     */
    method RotatePage()
      requires Valid()
      modifies this
      ensures Valid()
      ensures currentPage == Next(old(currentPage), totalPages)
      ensures grid == PageCards(allPolls, currentPage)
      ensures pageIndicator == currentPage + 1 && 1 <= pageIndicator <= totalPages
    {
      currentPage := (currentPage + 1) % totalPages;
      grid := PageCards(allPolls, currentPage);
      pageIndicator := currentPage + 1;
    }
  }

  /** The script's early return: with four polls or fewer no rotation is set up. */
  method Start(allPolls: seq<CompletedEntry>) returns (r: Option<Rotator>)
    ensures r.None? <==> !RotationEnabled(|allPolls|)
    ensures r.Some? ==> fresh(r.value) && r.value.Valid() && r.value.allPolls == allPolls
                        && r.value.currentPage == 0
  {
    if !RotationEnabled(|allPolls|) {
      return None;
    }
    var rotator := new Rotator(allPolls);
    r := Some(rotator);
  }

  /** `formatPercent(count_a, count_b)`: the same zero-total guard as the server's percentages. */
  function FormatPercent(countA: nat, countB: nat): (r: (Share, Share))
    ensures r == Percents(countA, countB)
  {
    var total := countA + countB;
    if total == 0 then (Zero, Zero) else (Fraction(countA, total), Fraction(countB, total))
  }
}
