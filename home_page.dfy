/**
 * The home page: the submit form with its Enter-key rule, the list body it renders from
 * the `useIdeas` state, and the page-number strip. The strip does not call
 * `getPaginationPages`; it carries its own copy of the rule, written out below.
 */
module HomePage {
  import opened JsStrings
  import opened Options
  import opened Pagination
  import opened UseIdeas

  // ---------------------------------------------------------------------------
  // The inline page-number strip

  /**
   * What the strip renders for one page number: a button for page 1, the last page and
   * the pages within two of the current one; a "..." span for a page exactly three
   * away; nothing for the others.
   */
  function InlineMarker(page: int, currentPage: int, totalPages: int): seq<Marker>
  {
    if page == 1 || page == totalPages || (page >= currentPage - 2 && page <= currentPage + 2) then [Page(page)]
    else if page == currentPage - 3 || page == currentPage + 3 then [Ellipsis]
    else []
  }

  /** The strip's output for pages 1..k. */
  function InlineMarkersUpTo(currentPage: int, totalPages: int, k: nat): (r: seq<Marker>)
    ensures |r| <= k
  {
    if k == 0 then [] else InlineMarkersUpTo(currentPage, totalPages, k - 1) + InlineMarker(k, currentPage, totalPages)
  }

  /** The strip: `Array.from({ length: totalPages }, ...)` mapped page by page. */
  function InlineMarkers(currentPage: int, totalPages: int): (r: seq<Marker>)
    ensures |r| <= if totalPages <= 0 then 0 else totalPages
  {
    if totalPages <= 0 then [] else InlineMarkersUpTo(currentPage, totalPages, totalPages)
  }

  lemma {:induction false} InlineButtonsUpTo(currentPage: int, totalPages: int, k: nat, p: int)
    ensures Page(p) in InlineMarkersUpTo(currentPage, totalPages, k)
        <==> 1 <= p <= k && Shown(p, currentPage, totalPages, 2)
  {
    if k > 0 {
      InlineButtonsUpTo(currentPage, totalPages, k - 1, p);
    }
  }

  /** Page p gets a button exactly when it is page 1, the last page, or within two of the current page. */
  lemma InlineButtons(currentPage: int, totalPages: int, p: int)
    ensures Page(p) in InlineMarkers(currentPage, totalPages)
        <==> 1 <= p <= totalPages && (p == 1 || p == totalPages || currentPage - 2 <= p <= currentPage + 2)
  {
    if totalPages > 0 {
      InlineButtonsUpTo(currentPage, totalPages, totalPages, p);
    }
  }

  lemma {:induction false} InlineEllipsesUpTo(currentPage: int, totalPages: int, k: nat)
    ensures multiset(InlineMarkersUpTo(currentPage, totalPages, k))[Ellipsis]
      <= (if 1 <= currentPage - 3 <= k then 1 else 0) + (if 1 <= currentPage + 3 <= k then 1 else 0)
  {
    if k > 0 {
      InlineEllipsesUpTo(currentPage, totalPages, k - 1);
    }
  }

  /** Only pages currentPage - 3 and currentPage + 3 can become "...", so the strip has at most two. */
  lemma AtMostTwoInlineEllipses(currentPage: int, totalPages: int)
    ensures multiset(InlineMarkers(currentPage, totalPages))[Ellipsis] <= 2
  {
    if totalPages > 0 {
      InlineEllipsesUpTo(currentPage, totalPages, totalPages);
    }
  }

  /**
   * Page by page, the strip lags getPaginationPages by one ellipsis inside the gap left
   * of the current page: the function marks that gap at its first page, the strip at
   * its last (currentPage - 3). Right of the current page both mark the gap at
   * currentPage + 3.
   */
  lemma {:induction false} InlineMatchesUpTo(currentPage: int, totalPages: int, k: nat)
    requires -1 <= currentPage <= totalPages + 2 && k <= totalPages
    ensures MarkersUpTo(currentPage, totalPages, 2, k)
      == InlineMarkersUpTo(currentPage, totalPages, k) + (if 2 <= k <= currentPage - 4 then [Ellipsis] else [])
  {
    if k > 0 {
      InlineMatchesUpTo(currentPage, totalPages, k - 1);
      if k > 1 {
        MarkersLast(currentPage, totalPages, 2, k - 1);
      }
    }
  }

  /**
   * For a current page in range, and up to two pages either side of it, the strip
   * renders exactly what getPaginationPages(currentPage, totalPages, 2) lists.
   */
  lemma InlineAgreesWithPagination(currentPage: int, totalPages: int)
    requires -1 <= currentPage <= totalPages + 2
    ensures InlineMarkers(currentPage, totalPages) == PaginationPages(currentPage, totalPages, DefaultDelta)
  {
    if totalPages > 0 {
      InlineMatchesUpTo(currentPage, totalPages, totalPages);
    }
  }

  /** With one or two pages every page is a button, so the two copies agree whatever the current page. */
  lemma InlineAgreesOnFewPages(currentPage: int, totalPages: int)
    requires totalPages <= 2
    ensures InlineMarkers(currentPage, totalPages) == PaginationPages(currentPage, totalPages, DefaultDelta)
  {
    if totalPages >= 1 {
      assert InlineMarkersUpTo(currentPage, totalPages, 1) == MarkersUpTo(currentPage, totalPages, 2, 1) == [Page(1)];
    }
  }

  lemma {:induction false} FarFromRangeUpTo(currentPage: int, totalPages: int, k: nat)
    requires totalPages >= 3 && (currentPage >= totalPages + 3 || currentPage <= -2) && 1 <= k < totalPages
    ensures InlineMarkersUpTo(currentPage, totalPages, k) == [Page(1)]
    ensures MarkersUpTo(currentPage, totalPages, 2, k) == if k == 1 then [Page(1)] else [Page(1), Ellipsis]
  {
    if k > 1 {
      FarFromRangeUpTo(currentPage, totalPages, k - 1);
    }
  }

  /**
   * With the current page three or more past the last page, the strip puts pages 1
   * and totalPages side by side with no "..." for pages 2..totalPages-1, which
   * getPaginationPages marks with an ellipsis: the two copies disagree.
   */
  lemma InlineDropsEllipsisFarAhead(currentPage: int, totalPages: int)
    requires totalPages >= 3 && currentPage >= totalPages + 3
    ensures InlineMarkers(currentPage, totalPages) == [Page(1), Page(totalPages)]
    ensures PaginationPages(currentPage, totalPages, DefaultDelta) == [Page(1), Ellipsis, Page(totalPages)]
  {
    FarFromRangeUpTo(currentPage, totalPages, totalPages - 1);
  }

  /**
   * The same happens below page 1: from currentPage -2 down, the strip again puts
   * pages 1 and totalPages side by side where getPaginationPages has an ellipsis.
   */
  lemma InlineDropsEllipsisBelowFirst(currentPage: int, totalPages: int)
    requires totalPages >= 3 && currentPage <= -2
    ensures InlineMarkers(currentPage, totalPages) == [Page(1), Page(totalPages)]
    ensures PaginationPages(currentPage, totalPages, DefaultDelta) == [Page(1), Ellipsis, Page(totalPages)]
  {
    FarFromRangeUpTo(currentPage, totalPages, totalPages - 1);
  }

  /** With three or more pages, the two copies agree exactly when the current page lies in -1..totalPages+2. */
  lemma InlineAgreesExactlyNearRange(currentPage: int, totalPages: int)
    requires totalPages >= 3
    ensures InlineMarkers(currentPage, totalPages) == PaginationPages(currentPage, totalPages, DefaultDelta)
        <==> -1 <= currentPage <= totalPages + 2
  {
    if currentPage <= -2 {
      InlineDropsEllipsisBelowFirst(currentPage, totalPages);
    } else if currentPage >= totalPages + 3 {
      InlineDropsEllipsisFarAhead(currentPage, totalPages);
    } else {
      InlineAgreesWithPagination(currentPage, totalPages);
    }
  }

  // ---------------------------------------------------------------------------
  // The list body and its page controls

  /** What the list area shows: loading placeholders, the "no ideas yet" notice, or the cards. */
  datatype ListBody = Skeletons | EmptyNotice | Cards(pageControls: bool)

  function RenderList(isLoading: bool, ideas: seq<Idea>, totalPages: int): (b: ListBody)
    ensures b == Skeletons <==> isLoading
    ensures b == EmptyNotice <==> !isLoading && ideas == []
    ensures b.Cards? ==> (b.pageControls <==> totalPages > 1)
  {
    if isLoading then Skeletons
    else if ideas == [] then EmptyNotice
    else Cards(totalPages > 1)
  }

  /** The count in the list heading: 0 when loaded and empty, the total otherwise. */
  function HeadingCount(isLoading: bool, ideas: seq<Idea>, totalCount: nat): (n: nat)
    ensures n <= totalCount
    ensures n == totalCount <==> isLoading || ideas != [] || totalCount == 0
  {
    if |ideas| == 0 && !isLoading then 0 else totalCount
  }

  predicate PrevDisabled(currentPage: int) {
    currentPage == 1
  }

  predicate NextDisabled(currentPage: int, totalPages: int) {
    currentPage == totalPages
  }

  /**
   * On a page in range, the previous and next buttons are enabled exactly when the page
   * they ask for passes goToPage's guard, and every page button asks for such a page.
   */
  lemma NavigationStaysInRange(currentPage: int, totalPages: int)
    requires 1 <= currentPage <= totalPages
    ensures !PrevDisabled(currentPage) <==> CanGoTo(currentPage - 1, totalPages)
    ensures !NextDisabled(currentPage, totalPages) <==> CanGoTo(currentPage + 1, totalPages)
    ensures forall m :: m in InlineMarkers(currentPage, totalPages) && m.Page? ==> CanGoTo(m.n, totalPages)
  {
    forall m | m in InlineMarkers(currentPage, totalPages) && m.Page?
      ensures CanGoTo(m.n, totalPages)
    {
      InlineButtons(currentPage, totalPages, m.n);
    }
  }

  /**
   * Whenever the page controls are on screen, the list's current page is in range, so
   * the strip agrees with getPaginationPages and every enabled control navigates.
   */
  lemma VisibleControlsAreConsistent(list: IdeaList)
    requires list.Valid()
    requires RenderList(list.isLoading, list.ideas, TotalPages(list.totalCount)) == Cards(true)
    ensures 1 <= list.currentPage <= TotalPages(list.totalCount)
    ensures InlineMarkers(list.currentPage, TotalPages(list.totalCount))
      == PaginationPages(list.currentPage, TotalPages(list.totalCount), DefaultDelta)
  {
    InlineAgreesWithPagination(list.currentPage, TotalPages(list.totalCount));
  }

  /**
   * After deleteIdea removes the only idea of the last page and its reload succeeds,
   * the page shows the "no ideas yet" notice, a heading count of 0 and no page
   * controls, although ideas remain in the table.
   */
  lemma StrandedPageLooksEmpty(db: seq<Idea>)
    requires |db| > ItemsPerPage && |db| % ItemsPerPage == 1
    requires forall k :: 0 <= k < |db| - 1 ==> db[k].id != db[|db| - 1].id
    ensures var page := TotalPages(|db|); var after := Deleted(db, db[|db| - 1].id);
      var shown := Window(after, page);
      |after| > 0
      && RenderList(false, shown, TotalPages(|after|)) == EmptyNotice
      && HeadingCount(false, shown, |after|) == 0
  {
    DeleteStrandsLastPage(db);
  }

  // ---------------------------------------------------------------------------
  // The submit form

  /** The submit guard, which is also the submit button's disabled condition. */
  predicate SubmitBlocked(newIdea: JsString, isSubmitting: bool) {
    IsBlank(newIdea) || isSubmitting
  }

  datatype Key = Enter | OtherKey

  /** Enter submits, unless Shift is held or an input method is composing. */
  predicate SubmitsOnKey(key: Key, shiftKey: bool, isComposing: bool) {
    !isComposing && key == Enter && !shiftKey
  }

  /** The form state: the text being typed and whether a submission is in progress. */
  class HomeForm {
    var newIdea: JsString
    var isSubmitting: bool

    /** The textarea holds at most 1000 code units. */
    ghost predicate Valid()
      reads this
    {
      |newIdea| <= MaxContentLength
    }

    constructor ()
      ensures Valid() && newIdea == [] && !isSubmitting
    {
      newIdea := [];
      isSubmitting := false;
    }

    /** The textarea's onChange; it is disabled while submitting and caps input at 1000 code units. */
    method ChangeText(text: JsString)
      requires Valid() && !isSubmitting && |text| <= MaxContentLength
      modifies this
      ensures Valid() && newIdea == text && isSubmitting == old(isSubmitting)
    {
      newIdea := text;
    }

    /**
     * submitIdea(): nothing happens when the text is blank or a submission is in
     * progress. Otherwise the text is handed to addIdea, whose result is `added`;
     * the text is cleared only if it was added.
     */
    method SubmitIdea(added: bool) returns (submitted: Option<JsString>)
      requires Valid()
      modifies this
      ensures Valid()
      ensures SubmitBlocked(old(newIdea), old(isSubmitting)) ==> submitted == None && unchanged(this)
      ensures !SubmitBlocked(old(newIdea), old(isSubmitting)) ==>
        submitted == Some(old(newIdea)) && !isSubmitting && newIdea == if added then [] else old(newIdea)
      ensures submitted.Some? ==> CheckContent(submitted.value).Accepted?
    {
      if IsBlank(newIdea) || isSubmitting {
        return None;
      }
      isSubmitting := true;
      submitted := Some(newIdea);
      isSubmitting := false;
      if added {
        newIdea := [];
      }
    }

    /** handleKeyDown: Enter without Shift, outside composition, prevents the newline and submits. */
    method HandleKeyDown(key: Key, shiftKey: bool, isComposing: bool, added: bool)
      returns (prevented: bool, submitted: Option<JsString>)
      requires Valid()
      modifies this
      ensures Valid()
      ensures prevented == SubmitsOnKey(key, shiftKey, isComposing)
      ensures !prevented ==> submitted == None && unchanged(this)
      ensures prevented && SubmitBlocked(old(newIdea), old(isSubmitting)) ==> submitted == None && unchanged(this)
      ensures prevented && !SubmitBlocked(old(newIdea), old(isSubmitting)) ==>
        submitted == Some(old(newIdea)) && !isSubmitting && newIdea == if added then [] else old(newIdea)
    {
      if isComposing {
        return false, None;
      }
      prevented := key == Enter && !shiftKey;
      submitted := None;
      if prevented {
        submitted := SubmitIdea(added);
      }
    }
  }
}
