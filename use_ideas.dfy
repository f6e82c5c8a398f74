/**
 * The `useIdeas` hook: the list state of the idea collector. It shows one page of ten
 * ideas at a time, read from a hosted table ordered newest first. Add, update and
 * delete write to the table and then reload a page.
 *
 * The table is a value `db: seq<Idea>`, newest first. Each operation receives the
 * table as it is when the operation runs, plus one flag per remote call saying
 * whether that call succeeded. Operations that write return the table afterwards.
 */
module UseIdeas {
  import opened JsStrings

  const ItemsPerPage: nat := 10
  const MaxContentLength: nat := 1000

  /** A row of the ideas table. */
  datatype Idea = Idea(id: JsString, content: JsString)

  /** `Math.ceil(totalCount / ITEMS_PER_PAGE)`: the fewest pages of ten that hold every idea. */
  function TotalPages(totalCount: nat): (pages: nat)
    ensures totalCount <= pages * ItemsPerPage
    ensures pages > 0 ==> (pages - 1) * ItemsPerPage < totalCount
    ensures pages == 0 <==> totalCount == 0
  {
    (totalCount + ItemsPerPage - 1) / ItemsPerPage
  }

  /** The inclusive row bounds `from..to` that the list query asks for on `page`. */
  function RowRange(page: int): (r: (int, int))
    ensures r.1 - r.0 + 1 == ItemsPerPage
  {
    var from := (page - 1) * ItemsPerPage;
    (from, from + ItemsPerPage - 1)
  }

  /** Page 1 starts at the newest row, and row `row` is asked for by page row / 10 + 1 and by no other page. */
  lemma RowOnExactlyOnePage(row: nat, page: int)
    ensures RowRange(1).0 == 0
    ensures RowRange(page).0 <= row <= RowRange(page).1 <==> page == row / ItemsPerPage + 1
  {
    var q := row / ItemsPerPage;
    assert q * ItemsPerPage <= row < q * ItemsPerPage + ItemsPerPage;
    if page - 1 < q {
      assert (page - 1) * ItemsPerPage + ItemsPerPage <= q * ItemsPerPage;
    } else if page - 1 > q {
      assert (page - 1) * ItemsPerPage >= q * ItemsPerPage + ItemsPerPage;
    }
  }

  function Min(a: int, b: int): int {
    if a <= b then a else b
  }

  /** The rows `.range(from, to)` returns: those of `db` at positions from..to that exist. */
  function Window(db: seq<Idea>, page: int): (rows: seq<Idea>)
    requires page >= 1
    ensures |rows| <= ItemsPerPage
    ensures rows != [] ==> RowRange(page).0 + |rows| <= |db|
    ensures forall k :: 0 <= k < |rows| ==> rows[k] == db[RowRange(page).0 + k]
  {
    var (from, to) := RowRange(page);
    if from >= |db| then [] else db[from..Min(to + 1, |db|)]
  }

  /** A page has rows exactly when it is one of the TotalPages pages. */
  lemma WindowNonEmptyIffPageExists(db: seq<Idea>, page: int)
    requires page >= 1
    ensures Window(db, page) != [] <==> page <= TotalPages(|db|)
  {
    var n := TotalPages(|db|);
    if page <= n {
      assert (page - 1) * ItemsPerPage <= (n - 1) * ItemsPerPage;
    } else {
      assert (page - 1) * ItemsPerPage >= n * ItemsPerPage;
    }
  }

  /** The rows of pages 1..n, one page after another. */
  function PagesUpTo(db: seq<Idea>, n: nat): seq<Idea>
  {
    if n == 0 then [] else PagesUpTo(db, n - 1) + Window(db, n)
  }

  /** Page n is the slice between the prefixes of pages 1..n-1 and 1..n. */
  lemma WindowBetweenPrefixes(db: seq<Idea>, n: nat)
    requires n >= 1
    ensures Min((n - 1) * ItemsPerPage, |db|) <= Min(n * ItemsPerPage, |db|)
    ensures Window(db, n) == db[Min((n - 1) * ItemsPerPage, |db|)..Min(n * ItemsPerPage, |db|)]
  {
    assert n * ItemsPerPage == (n - 1) * ItemsPerPage + ItemsPerPage;
  }

  lemma {:induction false} PagesUpToIsPrefix(db: seq<Idea>, n: nat)
    ensures PagesUpTo(db, n) == db[..Min(n * ItemsPerPage, |db|)]
  {
    if n > 0 {
      PagesUpToIsPrefix(db, n - 1);
      WindowBetweenPrefixes(db, n);
      var a := Min((n - 1) * ItemsPerPage, |db|);
      var b := Min(n * ItemsPerPage, |db|);
      assert db[..b] == db[..a] + db[a..b];
    }
  }

  /** Reading pages 1..TotalPages in turn gives back the whole table, each idea once, in order. */
  lemma PagesCoverTable(db: seq<Idea>)
    ensures PagesUpTo(db, TotalPages(|db|)) == db
  {
    PagesUpToIsPrefix(db, TotalPages(|db|));
    assert db[..|db|] == db;
  }

  /** The outcome of the two guards addIdea and updateIdea run before writing, in their order. */
  datatype ContentCheck = Accepted(text: JsString) | Blank | TooLong

  /**
   * Blank text (empty or whitespace only) is refused first, then text longer than
   * 1000 code units before trimming; otherwise the trimmed text is what gets written.
   */
  function CheckContent(content: JsString): (c: ContentCheck)
    ensures c == Blank <==> AllWhitespace(content)
    ensures c == TooLong <==> !AllWhitespace(content) && |content| > MaxContentLength
    ensures c.Accepted? ==> c.text == Trim(content) && c.text != [] && |c.text| <= MaxContentLength
  {
    if IsBlank(content) then Blank
    else if |content| > MaxContentLength then TooLong
    else Accepted(Trim(content))
  }

  /** `.update({ content }).eq('id', id)`: every row with that id gets the new content. */
  function Updated(db: seq<Idea>, id: JsString, text: JsString): (r: seq<Idea>)
    ensures |r| == |db|
    ensures forall k :: 0 <= k < |db| ==> r[k] == if db[k].id == id then Idea(id, text) else db[k]
  {
    if db == [] then []
    else [if db[0].id == id then Idea(id, text) else db[0]] + Updated(db[1..], id, text)
  }

  /** `.delete().eq('id', id)`: the rows with that id go, the others keep their order. */
  function Deleted(db: seq<Idea>, id: JsString): (r: seq<Idea>)
    ensures |r| <= |db|
    ensures forall x :: x in r <==> x in db && x.id != id
  {
    if db == [] then []
    else (if db[0].id == id then [] else [db[0]]) + Deleted(db[1..], id)
  }

  /**
   * The delete works row by row: on a table made of two parts it deletes from each part
   * and keeps the parts in their order, so the surviving rows keep their relative order.
   */
  lemma {:induction false} DeletedKeepsOrder(a: seq<Idea>, b: seq<Idea>, id: JsString)
    ensures Deleted(a + b, id) == Deleted(a, id) + Deleted(b, id)
  {
    if a == [] {
      assert a + b == b;
    } else {
      var ab := a + b;
      assert ab[0] == a[0] && ab[1..] == a[1..] + b;
      DeletedKeepsOrder(a[1..], b, id);
      var h := if a[0].id == id then [] else [a[0]];
      calc {
        Deleted(ab, id);
        h + Deleted(a[1..] + b, id);
        h + (Deleted(a[1..], id) + Deleted(b, id));
        (h + Deleted(a[1..], id)) + Deleted(b, id);
        Deleted(a, id) + Deleted(b, id);
      }
    }
  }

  /** Every row whose id differs survives as many times as it was stored; rows with that id all go. */
  lemma {:induction false} DeletedCounts(db: seq<Idea>, id: JsString, x: Idea)
    ensures multiset(Deleted(db, id))[x] == if x.id == id then 0 else multiset(db)[x]
  {
    if db != [] {
      DeletedCounts(db[1..], id, x);
      assert db == [db[0]] + db[1..];
    }
  }

  /** On a single row the delete drops the row when its id matches and keeps it otherwise. */
  lemma DeletedOneRow(x: Idea, id: JsString)
    ensures Deleted([x], id) == if x.id == id then [] else [x]
  {
    assert [x][1..] == [];
  }

  lemma {:induction false} DeletedOnlyLast(db: seq<Idea>, x: Idea)
    requires forall k :: 0 <= k < |db| ==> db[k].id != x.id
    ensures Deleted(db + [x], x.id) == db
  {
    if db != [] {
      assert (db + [x])[1..] == db[1..] + [x];
      DeletedOnlyLast(db[1..], x);
    }
  }

  /** goToPage's guard: `page` is one of the existing pages. */
  predicate CanGoTo(page: int, totalPages: int) {
    page >= 1 && page <= totalPages
  }

  /**
   * Deleting the only idea on the last page and reloading that page, as deleteIdea
   * does, reads no rows although ideas remain: the page is now past the end.
   */
  lemma DeleteStrandsLastPage(db: seq<Idea>)
    requires |db| > ItemsPerPage && |db| % ItemsPerPage == 1
    requires forall k :: 0 <= k < |db| - 1 ==> db[k].id != db[|db| - 1].id
    ensures var page := TotalPages(|db|); var after := Deleted(db, db[|db| - 1].id);
      Window(db, page) == [db[|db| - 1]]
      && |after| == |db| - 1 && after != []
      && Window(after, page) == []
      && page > TotalPages(|after|)
  {
    var last := db[|db| - 1];
    assert db == db[..|db| - 1] + [last];
    DeletedOnlyLast(db[..|db| - 1], last);
    var page := TotalPages(|db|);
    assert (page - 1) * ItemsPerPage == |db| - 1;
    WindowNonEmptyIffPageExists(Deleted(db, last.id), page);
  }

  /** Where the corrected fetch lands: the requested page, or the last page if it lies past the end. */
  function ClampPage(page: int, totalCount: nat): (p: int)
    requires page >= 1
    ensures 1 <= p <= page
    ensures totalCount > 0 ==> p <= TotalPages(totalCount)
    ensures CanGoTo(page, TotalPages(totalCount)) ==> p == page
  {
    if totalCount == 0 then 1
    else if page <= TotalPages(totalCount) then page
    else TotalPages(totalCount)
  }

  /** The list state the hook keeps: `ideas`, `isLoading`, `currentPage`, `totalCount`. */
  class IdeaList {
    var ideas: seq<Idea>
    var isLoading: bool
    var currentPage: int
    var totalCount: nat

    /** The page is a real page number, holds at most ten ideas, and is in range whenever it shows any. */
    ghost predicate Valid()
      reads this
    {
      currentPage >= 1 && |ideas| <= ItemsPerPage
      && (ideas != [] ==> currentPage <= TotalPages(totalCount))
    }

    /** The initial state, before the mount effect runs FetchIdeas(1). */
    constructor ()
      ensures Valid()
      ensures ideas == [] && isLoading && currentPage == 1 && totalCount == 0
    {
      ideas := [];
      isLoading := true;
      currentPage := 1;
      totalCount := 0;
    }

    /**
     * fetchIdeas(page): query rows from..to of `db` with an exact count. On success the
     * rows, the count and the page are taken over; on failure all three stay as they
     * were. Loading ends either way.
     */
    method FetchIdeas(page: int, db: seq<Idea>, ok: bool)
      requires Valid() && page >= 1
      modifies this
      ensures Valid() && !isLoading
      ensures ok ==> ideas == Window(db, page) && totalCount == |db| && currentPage == page
      ensures !ok ==> ideas == old(ideas) && totalCount == old(totalCount) && currentPage == old(currentPage)
    {
      isLoading := true;
      if ok {
        WindowNonEmptyIffPageExists(db, page);
        ideas := Window(db, page);
        totalCount := |db|;
        currentPage := page;
      }
      isLoading := false;
    }

    /**
     * addIdea(content): refuse blank or over-long text with no change; otherwise insert
     * the trimmed text as the newest row and, if that worked, reload page 1. The result
     * is true once the insert worked, whether or not the reload did.
     */
    method AddIdea(content: JsString, db: seq<Idea>, newId: JsString, insertOk: bool, fetchOk: bool)
      returns (added: bool, dbAfter: seq<Idea>)
      requires Valid()
      modifies this
      ensures Valid()
      ensures added <==> CheckContent(content).Accepted? && insertOk
      ensures dbAfter == if added then [Idea(newId, Trim(content))] + db else db
      ensures !added ==> unchanged(this)
      ensures added ==> !isLoading
      ensures added && fetchOk ==> ideas == Window(dbAfter, 1) && totalCount == |dbAfter| && currentPage == 1
      ensures added && !fetchOk ==>
        ideas == old(ideas) && totalCount == old(totalCount) && currentPage == old(currentPage)
    {
      match CheckContent(content)
      case Blank =>
        return false, db;
      case TooLong =>
        return false, db;
      case Accepted(text) =>
        if !insertOk {
          return false, db;
        }
        dbAfter := [Idea(newId, text)] + db;
        FetchIdeas(1, dbAfter, fetchOk);
        added := true;
    }

    /**
     * updateIdea(id, content): the same guards as addIdea; otherwise write the trimmed
     * text to the rows with that id and, if that worked, reload the current page.
     */
    method UpdateIdea(id: JsString, content: JsString, db: seq<Idea>, updateOk: bool, fetchOk: bool)
      returns (updated: bool, dbAfter: seq<Idea>)
      requires Valid()
      modifies this
      ensures Valid()
      ensures updated <==> CheckContent(content).Accepted? && updateOk
      ensures dbAfter == if updated then Updated(db, id, Trim(content)) else db
      ensures !updated ==> unchanged(this)
      ensures updated ==> !isLoading
      ensures updated && fetchOk ==>
        ideas == Window(dbAfter, old(currentPage)) && totalCount == |dbAfter| && currentPage == old(currentPage)
      ensures updated && !fetchOk ==>
        ideas == old(ideas) && totalCount == old(totalCount) && currentPage == old(currentPage)
    {
      match CheckContent(content)
      case Blank =>
        return false, db;
      case TooLong =>
        return false, db;
      case Accepted(text) =>
        if !updateOk {
          return false, db;
        }
        dbAfter := Updated(db, id, text);
        FetchIdeas(currentPage, dbAfter, fetchOk);
        updated := true;
    }

    /**
     * deleteIdea(id): remove the rows with that id and, if that worked, reload the
     * current page as it is, with no check that the page still exists.
     */
    method DeleteIdea(id: JsString, db: seq<Idea>, deleteOk: bool, fetchOk: bool)
      returns (deleted: bool, dbAfter: seq<Idea>)
      requires Valid()
      modifies this
      ensures Valid()
      ensures deleted == deleteOk
      ensures dbAfter == if deleted then Deleted(db, id) else db
      ensures !deleted ==> unchanged(this)
      ensures deleted ==> !isLoading
      ensures deleted && fetchOk ==>
        ideas == Window(dbAfter, old(currentPage)) && totalCount == |dbAfter| && currentPage == old(currentPage)
      ensures deleted && !fetchOk ==>
        ideas == old(ideas) && totalCount == old(totalCount) && currentPage == old(currentPage)
    {
      if !deleteOk {
        return false, db;
      }
      dbAfter := Deleted(db, id);
      FetchIdeas(currentPage, dbAfter, fetchOk);
      deleted := true;
    }

    /** goToPage(page): fetch that page if it exists; otherwise do nothing. */
    method GoToPage(page: int, db: seq<Idea>, fetchOk: bool)
      requires Valid()
      modifies this
      ensures Valid()
      ensures !CanGoTo(page, TotalPages(old(totalCount))) ==> unchanged(this)
      ensures CanGoTo(page, TotalPages(old(totalCount))) ==> !isLoading
      ensures CanGoTo(page, TotalPages(old(totalCount))) && fetchOk ==>
        ideas == Window(db, page) && totalCount == |db| && currentPage == page
      ensures CanGoTo(page, TotalPages(old(totalCount))) && !fetchOk ==>
        ideas == old(ideas) && totalCount == old(totalCount) && currentPage == old(currentPage)
    {
      if page >= 1 && page <= TotalPages(totalCount) {
        FetchIdeas(page, db, fetchOk);
      }
    }

    /** refreshIdeas(): reload the current page. */
    method RefreshIdeas(db: seq<Idea>, fetchOk: bool)
      requires Valid()
      modifies this
      ensures Valid() && !isLoading
      ensures fetchOk ==> ideas == Window(db, old(currentPage)) && totalCount == |db| && currentPage == old(currentPage)
      ensures !fetchOk ==> ideas == old(ideas) && totalCount == old(totalCount) && currentPage == old(currentPage)
    {
      FetchIdeas(currentPage, db, fetchOk);
    }

    /**
     * Corrected fetch: when the requested page comes back empty although ideas remain,
     * load the last page instead, so that a non-empty table never shows an empty page.
     */
    method FetchIdeasInRange(page: int, db: seq<Idea>, ok: bool)
      requires Valid() && page >= 1
      modifies this
      ensures Valid() && !isLoading
      ensures ok ==> totalCount == |db| && currentPage == ClampPage(page, |db|) && ideas == Window(db, currentPage)
      ensures ok ==> (ideas == [] <==> db == [])
      ensures !ok ==> ideas == old(ideas) && totalCount == old(totalCount) && currentPage == old(currentPage)
    {
      isLoading := true;
      if ok {
        WindowNonEmptyIffPageExists(db, page);
        var p := page;
        if Window(db, page) == [] && page > 1 {
          p := if |db| == 0 then 1 else TotalPages(|db|);
        }
        WindowNonEmptyIffPageExists(db, p);
        ideas := Window(db, p);
        totalCount := |db|;
        currentPage := p;
      }
      isLoading := false;
    }

    /** Corrected deleteIdea: the reload after a delete goes through FetchIdeasInRange. */
    method DeleteIdeaInRange(id: JsString, db: seq<Idea>, deleteOk: bool, fetchOk: bool)
      returns (deleted: bool, dbAfter: seq<Idea>)
      requires Valid()
      modifies this
      ensures Valid()
      ensures deleted == deleteOk
      ensures dbAfter == if deleted then Deleted(db, id) else db
      ensures !deleted ==> unchanged(this)
      ensures deleted ==> !isLoading
      ensures deleted && fetchOk ==>
        totalCount == |dbAfter| && currentPage == ClampPage(old(currentPage), |dbAfter|)
      ensures deleted && fetchOk ==> ideas == Window(dbAfter, currentPage) && (ideas == [] <==> dbAfter == [])
      ensures deleted && !fetchOk ==>
        ideas == old(ideas) && totalCount == old(totalCount) && currentPage == old(currentPage)
    {
      if !deleteOk {
        return false, db;
      }
      dbAfter := Deleted(db, id);
      FetchIdeasInRange(currentPage, dbAfter, fetchOk);
      deleted := true;
    }
  }
}
