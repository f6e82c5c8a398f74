/**
 * The page-number marker builder `getPaginationPages(current, total, delta)`:
 * pages 1..total are walked in order; the first page, the last page and every page
 * within `current ± delta` become numbered markers, and each run of the other pages
 * collapses into one ellipsis marker.
 */
module Pagination {

  /** One entry of the marker list: a page button or a gap indicator. */
  datatype Marker = Page(n: int) | Ellipsis

  /** The radius callers get when they do not pass one. */
  const DefaultDelta: int := 2

  /** Whether page `i` gets a numbered marker. */
  predicate Shown(i: int, current: int, total: int, delta: int) {
    i == 1 || i == total || (i >= current - delta && i <= current + delta)
  }

  /** The markers pushed once pages 1..k have been handled. */
  function MarkersUpTo(current: int, total: int, delta: int, k: nat): seq<Marker>
  {
    if k == 0 then []
    else
      var pages := MarkersUpTo(current, total, delta, k - 1);
      if Shown(k, current, total, delta) then pages + [Page(k)]
      else if pages != [] && pages[|pages| - 1] == Ellipsis then pages
      else pages + [Ellipsis]
  }

  /** The marker list for the given current page, page count and radius. */
  function PaginationPages(current: int, total: int, delta: int): seq<Marker>
  {
    if total <= 0 then [] else MarkersUpTo(current, total, delta, total)
  }

  /** The loop of getPaginationPages, pushing onto `pages` one page at a time. */
  method GetPaginationPages(current: int, total: int, delta: int) returns (pages: seq<Marker>)
    ensures pages == PaginationPages(current, total, delta)
  {
    pages := [];
    var i := 1;
    while i <= total
      invariant 1 <= i <= if total < 1 then 1 else total + 1
      invariant pages == MarkersUpTo(current, total, delta, i - 1)
    {
      if i == 1 || i == total || (i >= current - delta && i <= current + delta) {
        pages := pages + [Page(i)];
      } else if |pages| == 0 || pages[|pages| - 1] != Ellipsis {
        pages := pages + [Ellipsis];
      }
      i := i + 1;
    }
    if total <= 0 {
      assert i == 1 && pages == MarkersUpTo(current, total, delta, 0);
    } else {
      assert i - 1 == total;
    }
  }

  // ---------------------------------------------------------------------------
  // Shape predicates on marker lists

  /** Page numbers strictly increase from left to right (so none repeats). */
  predicate Increasing(ms: seq<Marker>) {
    forall i, j :: 0 <= i < j < |ms| && ms[i].Page? && ms[j].Page? ==> ms[i].n < ms[j].n
  }

  /** Every page number lies in [lo, hi]. */
  predicate PagesWithin(ms: seq<Marker>, lo: int, hi: int) {
    forall i :: 0 <= i < |ms| && ms[i].Page? ==> lo <= ms[i].n <= hi
  }

  /** No page strictly between lo and hi gets a numbered marker. */
  predicate NoneShownBetween(lo: int, hi: int, current: int, total: int, delta: int) {
    forall p :: lo < p < hi ==> !Shown(p, current, total, delta)
  }

  /** No ellipsis is directly followed by another ellipsis. */
  predicate NoAdjacentEllipses(ms: seq<Marker>) {
    forall i :: 0 <= i < |ms| - 1 && ms[i].Ellipsis? ==> ms[i + 1].Page?
  }

  // ---------------------------------------------------------------------------
  // Facts about the partial lists, by induction on the number of pages handled

  /** After page k the last marker is page k if it is shown, an ellipsis otherwise. */
  lemma MarkersLast(current: int, total: int, delta: int, k: nat)
    requires k >= 1
    ensures var ms := MarkersUpTo(current, total, delta, k);
      ms != [] && ms[|ms| - 1] == if Shown(k, current, total, delta) then Page(k) else Ellipsis
  {
  }

  lemma {:induction false} MarkersFirst(current: int, total: int, delta: int, k: nat)
    requires k >= 1
    ensures var ms := MarkersUpTo(current, total, delta, k); ms != [] && ms[0] == Page(1)
  {
    if k > 1 {
      MarkersFirst(current, total, delta, k - 1);
    }
  }

  lemma {:induction false} MarkersOrdered(current: int, total: int, delta: int, k: nat)
    ensures var ms := MarkersUpTo(current, total, delta, k);
      |ms| <= k && PagesWithin(ms, 1, k) && Increasing(ms)
  {
    if k > 0 {
      MarkersOrdered(current, total, delta, k - 1);
    }
  }

  lemma {:induction false} MarkersNoAdjacentEllipses(current: int, total: int, delta: int, k: nat)
    ensures NoAdjacentEllipses(MarkersUpTo(current, total, delta, k))
  {
    if k > 0 {
      MarkersNoAdjacentEllipses(current, total, delta, k - 1);
    }
  }

  lemma {:induction false} MarkersMembership(current: int, total: int, delta: int, k: nat, p: int)
    ensures Page(p) in MarkersUpTo(current, total, delta, k)
        <==> 1 <= p <= k && Shown(p, current, total, delta)
  {
    if k > 0 {
      MarkersMembership(current, total, delta, k - 1, p);
    }
  }

  /** Two page markers side by side name neighbouring pages. */
  lemma {:induction false} MarkersAdjacentConsecutive(current: int, total: int, delta: int, k: nat)
    ensures var ms := MarkersUpTo(current, total, delta, k);
      forall j :: 0 <= j < |ms| - 1 && ms[j].Page? && ms[j + 1].Page? ==> ms[j + 1].n == ms[j].n + 1
  {
    if k > 1 {
      MarkersAdjacentConsecutive(current, total, delta, k - 1);
      MarkersLast(current, total, delta, k - 1);
    }
  }

  /**
   * Every ellipsis follows a page marker; one with a successor is followed by a page
   * marker at least two further on, and a trailing one follows a page below k.
   */
  lemma {:induction false} MarkersEllipsisGaps(current: int, total: int, delta: int, k: nat)
    ensures var ms := MarkersUpTo(current, total, delta, k);
      forall j :: 0 <= j < |ms| && ms[j].Ellipsis? ==>
        1 <= j && ms[j - 1].Page?
        && (j + 1 < |ms| ==> ms[j + 1].Page? && ms[j + 1].n >= ms[j - 1].n + 2)
        && (j + 1 == |ms| ==> ms[j - 1].n < k)
  {
    if k > 1 {
      MarkersEllipsisGaps(current, total, delta, k - 1);
      MarkersLast(current, total, delta, k - 1);
    }
  }

  // ---------------------------------------------------------------------------
  // Properties of the finished list

  /** The list is empty exactly when there are no pages. */
  lemma EmptyIffNoPages(current: int, total: int, delta: int)
    ensures PaginationPages(current, total, delta) == [] <==> total <= 0
  {
    if total >= 1 {
      MarkersFirst(current, total, delta, total);
    }
  }

  /** With at least one page, the list starts at page 1 and ends at page `total`. */
  lemma FirstAndLastPages(current: int, total: int, delta: int)
    requires total >= 1
    ensures var ms := PaginationPages(current, total, delta);
      ms != [] && ms[0] == Page(1) && ms[|ms| - 1] == Page(total)
  {
    MarkersFirst(current, total, delta, total);
    MarkersLast(current, total, delta, total);
  }

  /** Page numbers are strictly increasing and all lie in [1, total]. */
  lemma PagesIncreasingInRange(current: int, total: int, delta: int)
    ensures var ms := PaginationPages(current, total, delta);
      Increasing(ms) && PagesWithin(ms, 1, total)
  {
    if total >= 1 {
      MarkersOrdered(current, total, delta, total);
    }
  }

  /** The list holds at most one marker per page. */
  lemma LengthAtMostTotal(current: int, total: int, delta: int)
    ensures |PaginationPages(current, total, delta)| <= if total <= 0 then 0 else total
  {
    if total >= 1 {
      MarkersOrdered(current, total, delta, total);
    }
  }

  /** No two ellipses are adjacent. */
  lemma NoTwoEllipsesInARow(current: int, total: int, delta: int)
    ensures NoAdjacentEllipses(PaginationPages(current, total, delta))
  {
    if total >= 1 {
      MarkersNoAdjacentEllipses(current, total, delta, total);
    }
  }

  /** Page p has a marker exactly when it is a page (1..total) that is shown. */
  lemma ShownPagesExactly(current: int, total: int, delta: int, p: int)
    ensures Page(p) in PaginationPages(current, total, delta)
        <==> 1 <= p <= total && Shown(p, current, total, delta)
  {
    if total >= 1 {
      MarkersMembership(current, total, delta, total, p);
    }
  }

  /** Every existing page within `current ± delta` appears as a number. */
  lemma NeighbourhoodShown(current: int, total: int, delta: int)
    ensures forall p :: 1 <= p <= total && current - delta <= p <= current + delta ==>
      Page(p) in PaginationPages(current, total, delta)
  {
    forall p | 1 <= p <= total && current - delta <= p <= current + delta
      ensures Page(p) in PaginationPages(current, total, delta)
    {
      ShownPagesExactly(current, total, delta, p);
    }
  }

  /** An ellipsis of the finished list stands only for pages that are not shown. */
  lemma EllipsisCoversOnlyOmitted(current: int, total: int, delta: int, j: int)
    requires total >= 1
    requires var ms := PaginationPages(current, total, delta);
      0 < j < |ms| - 1 && ms[j].Ellipsis? && ms[j - 1].Page? && ms[j + 1].Page?
    ensures var ms := PaginationPages(current, total, delta);
      NoneShownBetween(ms[j - 1].n, ms[j + 1].n, current, total, delta)
  {
    var ms := PaginationPages(current, total, delta);
    MarkersOrdered(current, total, delta, total);
    forall p | ms[j - 1].n < p < ms[j + 1].n
      ensures !Shown(p, current, total, delta)
    {
      if Shown(p, current, total, delta) {
        MarkersMembership(current, total, delta, total, p);
        var i :| 0 <= i < |ms| && ms[i] == Page(p);
        assert false;
      }
    }
  }

  /**
   * Each ellipsis sits between two page markers at least two apart and stands for
   * exactly the pages between them, none of which is shown; two page markers side by
   * side name neighbouring pages, so no omitted page goes unmarked.
   */
  lemma EllipsisStandsForOmittedPages(current: int, total: int, delta: int)
    ensures var ms := PaginationPages(current, total, delta);
      (forall j :: 0 <= j < |ms| && ms[j].Ellipsis? ==>
        0 < j < |ms| - 1 && ms[j - 1].Page? && ms[j + 1].Page?
        && ms[j + 1].n >= ms[j - 1].n + 2
        && NoneShownBetween(ms[j - 1].n, ms[j + 1].n, current, total, delta))
      && (forall j :: 0 <= j < |ms| - 1 && ms[j].Page? && ms[j + 1].Page? ==> ms[j + 1].n == ms[j].n + 1)
  {
    var ms := PaginationPages(current, total, delta);
    if total >= 1 {
      MarkersEllipsisGaps(current, total, delta, total);
      MarkersAdjacentConsecutive(current, total, delta, total);
      MarkersLast(current, total, delta, total);
      forall j | 0 <= j < |ms| && ms[j].Ellipsis?
        ensures 0 < j < |ms| - 1 && ms[j - 1].Page? && ms[j + 1].Page?
        ensures NoneShownBetween(ms[j - 1].n, ms[j + 1].n, current, total, delta)
      {
        EllipsisCoversOnlyOmitted(current, total, delta, j);
      }
    }
  }

  /** The run 1..n as page markers. */
  function AllPages(n: nat): (ms: seq<Marker>)
    ensures |ms| == n && forall i :: 0 <= i < n ==> ms[i] == Page(i + 1)
  {
    if n == 0 then [] else AllPages(n - 1) + [Page(n)]
  }

  /** When the neighbourhood of an in-range current page covers every page, no ellipsis appears. */
  lemma AllPagesWhenRadiusCoversAll(current: int, total: int, delta: int)
    requires 1 <= current <= total && delta >= total - 1
    ensures PaginationPages(current, total, delta) == AllPages(total)
  {
    var k := 0;
    while k < total
      invariant 0 <= k <= total
      invariant MarkersUpTo(current, total, delta, k) == AllPages(k)
    {
      k := k + 1;
    }
  }

  /** The list is the plain run 1..total exactly when every page passes the shown test. */
  lemma AllPagesIffEveryPageShown(current: int, total: int, delta: int)
    ensures PaginationPages(current, total, delta) == AllPages(if total <= 0 then 0 else total)
        <==> forall p :: 1 <= p <= total ==> Shown(p, current, total, delta)
  {
    if forall p :: 1 <= p <= total ==> Shown(p, current, total, delta) {
      var k := 0;
      while k < total
        invariant 0 <= k <= if total <= 0 then 0 else total
        invariant MarkersUpTo(current, total, delta, k) == AllPages(k)
      {
        k := k + 1;
      }
    } else {
      var p :| 1 <= p <= total && !Shown(p, current, total, delta);
      ShownPagesExactly(current, total, delta, p);
      assert AllPages(total)[p - 1] == Page(p);
    }
  }

  /** A current page just outside 1..total can still get every page listed. */
  lemma NearOutOfRangeShowsAll()
    ensures PaginationPages(0, 5, 4) == [Page(1), Page(2), Page(3), Page(4), Page(5)]
    ensures PaginationPages(6, 5, 4) == [Page(1), Page(2), Page(3), Page(4), Page(5)]
  {
  }

  /** A current page far out of range keeps the list from listing every page, even with a large radius. */
  lemma FarCurrentStillSkips()
    ensures PaginationPages(100, 5, 5) == [Page(1), Ellipsis, Page(5)]
  {
  }

  /** Sample lists for the default radius. */
  lemma SmallExamples()
    ensures PaginationPages(1, 0, DefaultDelta) == []
    ensures PaginationPages(1, 1, DefaultDelta) == [Page(1)]
  {
  }

  lemma FivePageExamples()
    ensures PaginationPages(1, 5, DefaultDelta) == [Page(1), Page(2), Page(3), Ellipsis, Page(5)]
    ensures PaginationPages(3, 5, DefaultDelta) == [Page(1), Page(2), Page(3), Page(4), Page(5)]
  {
  }

  lemma MiddlePageExample()
    ensures PaginationPages(5, 10, DefaultDelta)
      == [Page(1), Ellipsis, Page(3), Page(4), Page(5), Page(6), Page(7), Ellipsis, Page(10)]
  {
  }

  lemma FirstPageExample()
    ensures PaginationPages(1, 10, DefaultDelta) == [Page(1), Page(2), Page(3), Ellipsis, Page(10)]
  {
  }

  lemma LastPageExample()
    ensures PaginationPages(10, 10, DefaultDelta) == [Page(1), Ellipsis, Page(8), Page(9), Page(10)]
  {
  }
}
