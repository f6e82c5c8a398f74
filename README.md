# Idea collector: page markers, list state and card modes in Dafny

This project models the logic of a small note-taking web app. Users submit short
"ideas", browse them ten to a page (newest first), edit them in place and delete them
after a confirmation. The modelled parts are:

- `pagination.dfy` (module `Pagination`): `getPaginationPages(current, total, delta)`,
  the page-marker builder. `GetPaginationPages` is the loop, pushing at most one marker per page (a hidden page
  right after an ellipsis pushes nothing).
  It is proved equal to the specification function `PaginationPages`. The lemmas then
  state the shape of that list: its bounds, its order, where the ellipses go and which
  pages are shown. A marker is `Page(n)` or `Ellipsis`.
- `home_page.dfy` (module `HomePage`): the home page. It holds the page-number strip,
  which repeats the marker rule inline instead of calling `getPaginationPages`. It also
  holds the previous/next controls, what the list area shows, and the submit form with
  its Enter-key rule (class `HomeForm`).
- `use_ideas.dfy` (module `UseIdeas`): the `useIdeas` hook. It covers the page count,
  the row window of each page, content validation, and the class `IdeaList`. That class
  holds the hook's four state fields and one method per operation: fetch, add, update,
  delete, go to page, refresh.
- `idea_card.dfy` (module `IdeaCard`): the card's view / edit / delete-confirm state
  machine (class `Card`).
- `js_strings.dfy` (module `JsStrings`): JavaScript strings as UTF-16 code units, so that
  `length` is `|s|`. It also defines `String.prototype.trim`, with the whitespace set of
  ECMA-262 (sections 12.2 and 12.3).
- `options.dfy`: the `Option` datatype.

The hosted database is a value `db: seq<Idea>`, newest first. Every operation receives
the table as it stands when the operation runs, plus one flag per remote call saying
whether that call succeeded. Operations that write also return the table afterwards.
The mount effect of the hook is `IdeaList` constructed and then `FetchIdeas(1, ...)`.

Two behaviours of the code are easy to get wrong:

- With current page 1, radius 2 and 5 pages, the list is `[1, 2, 3, …, 5]`: page 4 lies
  outside 1 ± 2. It is not `[1, 2, 3, 4, 5]` (`Pagination.FivePageExamples`).
- A radius of at least `total - 1` removes every ellipsis if the current page is in
  range (`Pagination.AllPagesWhenRadiusCoversAll`). A current page just outside the range
  can still get every page (`(0, 5, 4)` and `(6, 5, 4)` both give `[1, 2, 3, 4, 5]`,
  `Pagination.NearOutOfRangeShowsAll`), but a current page far outside keeps the gap
  (`Pagination.FarCurrentStillSkips`).

The inline strip matches `getPaginationPages(current, total, 2)` whenever
`-1 ≤ current ≤ total + 2` (`HomePage.InlineAgreesWithPagination`), and with
`total ≤ 2` for every current page (`HomePage.InlineAgreesOnFewPages`). With `total ≥ 3`
they differ for every other current page. For `current ≥ total + 3` the strip is
`[1, total]` where the function gives `[1, …, total]`
(`HomePage.InlineDropsEllipsisFarAhead`); `current ≤ -2` gives the same mismatch
(`HomePage.InlineDropsEllipsisBelowFirst`). So for `total ≥ 3` the two agree exactly when
`-1 ≤ current ≤ total + 2` (`HomePage.InlineAgreesExactlyNearRange`). The app never shows
the strip in a mismatching state: the controls appear only while the list shows ideas,
and `IdeaList.Valid()` then keeps the current page in range (`HomePage.VisibleControlsAreConsistent`).

## Model

| member | source | states |
|---|---|---|
| `Pagination.GetPaginationPages` | app/utils/pagination.ts:8-26 | The loop returns exactly the marker list `PaginationPages(current, total, delta)`. |
| `Pagination.EmptyIffNoPages` | app/utils/pagination.ts:15 | The list is empty exactly when `total <= 0`. |
| `Pagination.FirstAndLastPages` | app/utils/pagination.ts:15-18 | With `total >= 1` the list starts with page 1 and ends with page `total`, so an ellipsis is never first or last. |
| `Pagination.PagesIncreasingInRange` | app/utils/pagination.ts:15-18 | Page numbers strictly increase along the list, so none repeats, and all lie in [1, total]. |
| `Pagination.LengthAtMostTotal` | app/utils/pagination.ts:15-23 | The list has at most `total` markers, and none when `total <= 0`. |
| `Pagination.NoTwoEllipsesInARow` | app/utils/pagination.ts:19-21 | An ellipsis is never followed by another ellipsis. |
| `Pagination.ShownPagesExactly` | app/utils/pagination.ts:17-18 | Page p appears exactly when 1 ≤ p ≤ total and p is page 1, page `total` or within `current ± delta`. |
| `Pagination.NeighbourhoodShown` | app/utils/pagination.ts:17 | Every page in [max(1, current-delta), min(total, current+delta)] appears as a number. |
| `Pagination.EllipsisStandsForOmittedPages` | app/utils/pagination.ts:17-21 | Each ellipsis lies between two page markers at least 2 apart, and none of the pages between them is shown. Two page markers side by side are neighbouring pages, so no omitted page goes unmarked. |
| `Pagination.AllPagesWhenRadiusCoversAll` | app/utils/pagination.ts:17 | If 1 ≤ current ≤ total and delta ≥ total - 1, the list is pages 1..total with no ellipsis. |
| `Pagination.AllPagesIffEveryPageShown` | app/utils/pagination.ts:15-23 | The list is the plain run 1..total, with no ellipsis, exactly when every page 1..total passes the shown test. |
| `Pagination.NearOutOfRangeShowsAll` | app/utils/pagination.ts:17 | Current pages 0 and 6 with 5 pages and radius 4 still list `[1, 2, 3, 4, 5]`. |
| `Pagination.FarCurrentStillSkips` | app/utils/pagination.ts:17 | With current 100, 5 pages and radius 5 the list is `[1, …, 5]`: a large radius alone does not remove the ellipsis. |
| `Pagination.SmallExamples` | app/utils/pagination.ts:8-26 | Sample lists: no pages gives an empty list, and one page gives `[1]`. |
| `Pagination.FivePageExamples` | app/utils/pagination.ts:8-26 | Sample lists for 5 pages seen from pages 1 and 3. |
| `Pagination.MiddlePageExample` | app/utils/pagination.ts:8-26 | Page 5 of 10 gives `[1, …, 3, 4, 5, 6, 7, …, 10]`. |
| `Pagination.FirstPageExample` | app/utils/pagination.ts:8-26 | Page 1 of 10 gives `[1, 2, 3, …, 10]`. |
| `Pagination.LastPageExample` | app/utils/pagination.ts:8-26 | Page 10 of 10 gives `[1, …, 8, 9, 10]`. |
| `JsStrings.Trim` | app/hooks/useIdeas.ts:63 | `trim()` is no longer than its input. It is empty exactly when the input is all whitespace. Otherwise it neither starts nor ends with whitespace. |
| `JsStrings.TrimIsSlice` | app/hooks/useIdeas.ts:63 | Trimming removes a whitespace prefix and a whitespace suffix and keeps the middle unchanged. |
| `JsStrings.TrimIdempotent` | app/hooks/useIdeas.ts:93 | Trimming trimmed text changes nothing. |
| `UseIdeas.TotalPages` | app/hooks/useIdeas.ts:17 | The page count is the ceiling of count / 10: the fewest pages of ten that hold every idea. It is 0 exactly when the count is 0. |
| `UseIdeas.RowRange` | app/hooks/useIdeas.ts:25-26 | The inclusive window `from..to` of a page covers exactly 10 rows. |
| `UseIdeas.RowOnExactlyOnePage` | app/hooks/useIdeas.ts:25-26 | Page 1 starts at row 0, and row r falls in the window of page r / 10 + 1 and of no other page. |
| `UseIdeas.Window` | app/hooks/useIdeas.ts:25-33 | A page's query returns at most 10 rows: the table's rows from `from` onwards, in order. |
| `UseIdeas.WindowNonEmptyIffPageExists` | app/hooks/useIdeas.ts:17-33 | A page's query returns rows exactly when 1 ≤ page ≤ TotalPages. |
| `UseIdeas.WindowBetweenPrefixes` | app/hooks/useIdeas.ts:25-33 | Page n's rows are exactly the table's rows from position 10(n−1) up to 10n, cut at the table's end. |
| `UseIdeas.PagesCoverTable` | app/hooks/useIdeas.ts:17-33 | Pages 1..TotalPages, read one after another, give back the whole table in order. |
| `UseIdeas.CheckContent` | app/hooks/useIdeas.ts:50-58 | Whitespace-only text is refused as blank first. Otherwise text longer than 1000 code units before trimming is refused. Otherwise the trimmed text, non-empty and at most 1000 long, is accepted. |
| `UseIdeas.Updated` | app/hooks/useIdeas.ts:91-94 | The update keeps every row in place and gives each row with the id the new content. |
| `UseIdeas.Deleted` | app/hooks/useIdeas.ts:112-115 | The delete keeps exactly the rows whose id differs and never adds rows. |
| `UseIdeas.DeletedCounts` | app/hooks/useIdeas.ts:112-115 | Each row whose id differs survives as many times as it was stored, and every row with that id is removed. |
| `UseIdeas.DeletedKeepsOrder` | app/hooks/useIdeas.ts:112-115 | Deleting from a table split in two deletes from each part and keeps the parts in order, so the surviving rows keep their relative order. |
| `UseIdeas.DeletedOneRow` | app/hooks/useIdeas.ts:112-115 | A single row is dropped when its id matches and kept otherwise; with `DeletedKeepsOrder` this fixes the result completely. |
| `UseIdeas.DeleteStrandsLastPage` | app/hooks/useIdeas.ts:119-121 | Take a table whose last page holds one idea. Once that idea is deleted, the same page has no rows, although ideas remain and the page now lies past the end. |
| `UseIdeas.ClampPage` | app/hooks/useIdeas.ts:119-121 | The corrected reload page: the requested page if it exists, otherwise a page from 1 up to the last one. |
| `UseIdeas.IdeaList.constructor` | app/hooks/useIdeas.ts:10-13 | The list starts empty and loading, on page 1, with count 0. |
| `UseIdeas.IdeaList.FetchIdeas` | app/hooks/useIdeas.ts:20-46 | On success the list takes the page's rows, the count and the page. On failure those three are unchanged. Loading ends false either way, and `Valid()` is kept. |
| `UseIdeas.IdeaList.AddIdea` | app/hooks/useIdeas.ts:49-76 | Rejected text returns false and changes nothing. Accepted text is stored trimmed as the newest row, and page 1 is reloaded. The result is true once the insert worked, even if the reload failed. |
| `UseIdeas.IdeaList.UpdateIdea` | app/hooks/useIdeas.ts:79-107 | Same guards as AddIdea. The trimmed text is written to the rows with that id, and the current page is reloaded. A rejected text or a failed write changes nothing. |
| `UseIdeas.IdeaList.DeleteIdea` | app/hooks/useIdeas.ts:110-129 | On success the rows with that id are gone and the current page is reloaded with no clamping. On failure nothing changes. |
| `UseIdeas.CanGoTo` | app/hooks/useIdeas.ts:133 | Definition of goToPage's guard; `IdeaList.GoToPage` and `HomePage.NavigationStaysInRange` state its property. |
| `UseIdeas.IdeaList.GoToPage` | app/hooks/useIdeas.ts:132-136 | Outside 1..TotalPages nothing happens. Otherwise the page is fetched. |
| `UseIdeas.IdeaList.RefreshIdeas` | app/hooks/useIdeas.ts:154 | The current page is fetched again. |
| `UseIdeas.IdeaList.FetchIdeasInRange` | app/hooks/useIdeas.ts:20-46 | Corrected fetch: a page past the end falls back to the last page. On success the list is empty exactly when the table is. |
| `UseIdeas.IdeaList.DeleteIdeaInRange` | app/hooks/useIdeas.ts:110-129 | Corrected delete: it reloads through the corrected fetch, so the list is empty only when the table is. |
| `HomePage.InlineButtons` | app/page.tsx:153-157 | The strip shows page p as a button exactly when p is page 1, the last page, or within 2 of the current page. |
| `HomePage.AtMostTwoInlineEllipses` | app/page.tsx:172-182 | Only pages current ± 3 can become "...", so the strip holds at most two. |
| `HomePage.InlineMarkers` | app/page.tsx:151-183 | Definition of the strip (with `InlineMarker` for one page and `InlineMarkersUpTo` for pages 1..k): at most one marker per page, none without pages. Its properties are in `InlineButtons`, `AtMostTwoInlineEllipses` and `InlineAgreesWithPagination`. |
| `HomePage.InlineMarkersUpTo` | app/page.tsx:151 | The strip for pages 1..k holds at most k markers. |
| `HomePage.InlineAgreesWithPagination` | app/page.tsx:151-183 | For -1 ≤ current ≤ total + 2 the strip equals `getPaginationPages(current, total, 2)`. |
| `HomePage.InlineAgreesExactlyNearRange` | app/page.tsx:151-183 | With total ≥ 3 the strip equals `getPaginationPages(current, total, 2)` exactly when -1 ≤ current ≤ total + 2. |
| `HomePage.InlineDropsEllipsisFarAhead` | app/page.tsx:172-175 | With total ≥ 3 and current ≥ total + 3 the strip is `[1, total]`, while the function gives `[1, …, total]`. |
| `HomePage.InlineAgreesOnFewPages` | app/page.tsx:150-176 | With at most two pages the strip equals `getPaginationPages(current, total, 2)` for every current page. |
| `HomePage.InlineDropsEllipsisBelowFirst` | app/page.tsx:172-175 | With total ≥ 3 and current ≤ -2 the strip is `[1, total]`, while the function gives `[1, …, total]`. |
| `HomePage.RenderList` | app/page.tsx:114-139 | Definition of the list area: placeholders exactly while loading; the "no ideas yet" notice exactly when loaded with no ideas; otherwise the cards, with page controls exactly when there is more than one page. |
| `HomePage.HeadingCount` | app/page.tsx:111 | Definition of the heading count: never above the total, and equal to it unless the list is loaded and empty; `StrandedPageLooksEmpty` uses it. |
| `HomePage.PrevDisabled` | app/page.tsx:144 | Definition of the previous button's disabled test; `NavigationStaysInRange` states its property. |
| `HomePage.NextDisabled` | app/page.tsx:189 | Definition of the next button's disabled test; `NavigationStaysInRange` states its property. |
| `HomePage.NavigationStaysInRange` | app/page.tsx:141-193 | On a page in range, previous is disabled exactly at page 1 and next exactly at the last page. Every enabled control and every page button asks for a page that passes goToPage's guard. |
| `HomePage.VisibleControlsAreConsistent` | app/page.tsx:114-195 | Whenever the page controls are shown, the current page is in range and the strip equals the function's list. |
| `HomePage.StrandedPageLooksEmpty` | app/page.tsx:111-120 | After the stranded delete, the page shows the "no ideas yet" notice and a heading count of 0 although ideas remain. |
| `HomePage.HomeForm.constructor` | app/page.tsx:9-10 | The form starts with empty text and no submission in progress. |
| `HomePage.HomeForm.ChangeText` | app/page.tsx:75-81 | Typing, disabled while submitting and capped at 1000 code units, replaces the text. |
| `HomePage.SubmitBlocked` | app/page.tsx:26 | Definition of submitIdea's guard, which is also the submit button's disabled test at :99; `HomeForm.SubmitIdea` states its property. |
| `HomePage.SubmitsOnKey` | app/page.tsx:46-50 | Definition of the Enter-key rule; `HomeForm.HandleKeyDown` states its property. |
| `HomePage.HomeForm.SubmitIdea` | app/page.tsx:25-35 | Blank text or a submission in progress means nothing happens. Otherwise the text goes to addIdea and the form ends not submitting. The text is cleared only if it was added. The text handed over always passes addIdea's guards. |
| `HomePage.HomeForm.HandleKeyDown` | app/page.tsx:44-54 | Enter without Shift, outside composition, prevents the newline and submits. Any other key, Shift+Enter, or a key during composition changes nothing. |
| `IdeaCard.SubViews` | app/components/IdeaCard.tsx:52-75 | Each mode renders exactly one of the three sub-views, its own. |
| `IdeaCard.Card.constructor` | app/components/IdeaCard.tsx:18-20 | A card starts in view, with the idea's text as the edit text, not submitting. |
| `IdeaCard.Card.ReceiveIdea` | app/components/IdeaCard.tsx:17-20 | A new copy of the same idea replaces the prop; the card's own state is kept. |
| `IdeaCard.Card.StartEdit` | app/components/IdeaCard.tsx:72 | View goes to edit. |
| `IdeaCard.Card.StartDelete` | app/components/IdeaCard.tsx:73 | View goes to delete-confirm. |
| `IdeaCard.Card.CancelDelete` | app/components/IdeaCard.tsx:66 | Delete-confirm goes back to view. |
| `IdeaCard.Card.ChangeContent` | app/components/IdeaCard.tsx:56 | Typing in edit mode replaces the edit text. |
| `IdeaCard.Card.HandleUpdate` | app/components/IdeaCard.tsx:22-36 | Blank or unchanged text goes back to view, restores the idea's text and calls nothing. Other text goes to the update callback together with the idea's id: on success the card goes to view, on failure it stays in edit with the text kept. Not submitting afterwards. |
| `IdeaCard.Card.HandleDelete` | app/components/IdeaCard.tsx:38-43 | The id goes to the delete callback. The card ends in view, not submitting, whatever the callback reports. |
| `IdeaCard.Card.HandleCancelEdit` | app/components/IdeaCard.tsx:45-48 | Edit goes back to view, and the edit text is reset to the idea's text. |

Every card handler also ensures `Step(old(mode), mode)`: edit and delete-confirm are
entered only from view.

## Left out

- The hosted database client (select with range and count, insert, update, delete) is
  a foreign library. It is replaced by the `db` value, the success flags and the
  `newId` the table assigns. Its order by creation time is the position in `db`.
- A range past the end of the table is modelled as returning no rows with the count. If
  the service answers with an error instead, that is the `fetchOk = false` case. In
  that case the stale list stays on screen.
- The `data || []` and `count || 0` fallbacks: a successful query in the model always
  returns rows and a count.
- Toasts, `console.error`, and React's hooks, effects and `useCallback` wiring.
- Asynchronous interleaving: each handler runs to completion. `isSubmitting` is true
  only inside a handler, so the overlapping-submission cases its guards exist for are
  not exercised. Stale `currentPage` values captured by callbacks are not modelled.
- The view, edit, delete-dialog and skeleton components are presentational, and so is
  the markdown and date rendering. Their "disabled while submitting" conditions appear
  as preconditions on the card handlers. The save button is also disabled for blank
  text, but that is not a precondition: handleUpdate handles blank text itself.
- Styling and the JSX trees, including the highlight of the current page's button.
- JavaScript numbers: the pagination inputs are integers here. Fractional or NaN
  arguments are not modelled.
- `getPaginationPages`'s default radius is the constant `Pagination.DefaultDelta`;
  Dafny callers pass it explicitly.
- The form's `handleSubmit` only prevents the browser's default and then runs
  `SubmitIdea`, so it has no member of its own.

## Findings

| source | as written | input that shows it | evidently intended | confidence | as-written member | corrected member |
|---|---|---|---|---|---|---|
| app/hooks/useIdeas.ts:119-121 | After a delete, the current page is reloaded as it is. The comment claims the fetch copes with a page that has become empty; the fetch at lines 20-46 does not. | With 21 ideas, on page 3, delete the one idea there. Page 3 reloads with no rows while 20 ideas remain. The page shows the "no ideas yet" notice, a count of 0 and no page controls (`UseIdeas.DeleteStrandsLastPage`, `HomePage.StrandedPageLooksEmpty`). | A page that is past the end falls back to the last page, so a non-empty table never shows an empty list. | not executed | `UseIdeas.IdeaList.DeleteIdea` | `UseIdeas.IdeaList.DeleteIdeaInRange` |
