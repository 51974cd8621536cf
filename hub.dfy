/**
 * The catalogue page's state machine: the loaded records, the user's filter,
 * query, sort option and page, and what the page displays for them.
 */
module Hub {
  import opened Records
  import opened Text
  import opened Catalogue

  // The loop invariant of RenderPagination: `pages` is the bar built for the
  // pages `1 .. i - 1`.

  ghost predicate EntriesBelow(pages: seq<PageEntry>, i: int, totalPages: int, currentPage: int)
  {
    forall k :: 0 <= k < |pages| && pages[k].Page? ==>
      1 <= pages[k].number < i && Shown(pages[k].number, totalPages, currentPage)
  }

  ghost predicate ListedBelow(pages: seq<PageEntry>, i: int, totalPages: int, currentPage: int)
  {
    forall j :: 1 <= j < i && Shown(j, totalPages, currentPage) ==> Page(j) in pages
  }

  /** Every marker follows a button; one that is not last precedes a button beyond a gap. */
  ghost predicate EllipsesSoFar(pages: seq<PageEntry>)
  {
    && (forall k :: 0 <= k < |pages| && pages[k].Ellipsis? ==> 0 < k)
    && (forall a, b :: 0 <= a && b == a + 1 && b < |pages| && pages[b].Ellipsis? ==> pages[a].Page?)
    && (forall a, b, c :: 0 <= a && b == a + 1 && c == b + 1 && c < |pages| && pages[b].Ellipsis? ==>
          pages[c].Page? && pages[c].number > pages[a].number + 1)
  }

  ghost predicate BuiltUpTo(pages: seq<PageEntry>, i: int, totalPages: int, currentPage: int)
  {
    && 1 <= i
    && (i == 1 <==> pages == [])
    && (i > 1 ==> pages[0] == Page(1))
    && (i > 1 ==> pages[|pages| - 1] == if Shown(i - 1, totalPages, currentPage) then Page(i - 1) else Ellipsis)
    && EntriesBelow(pages, i, totalPages, currentPage)
    && ListedBelow(pages, i, totalPages, currentPage)
    && Increasing(pages)
    && AdjacentConsecutive(pages)
    && EllipsesSoFar(pages)
  }

  // One step of the loop, one invariant at a time: `e` is appended for page `i`.

  lemma StepEntries(pages: seq<PageEntry>, e: PageEntry, i: int, totalPages: int, currentPage: int)
    requires EntriesBelow(pages, i, totalPages, currentPage)
    requires e.Page? ==> e == Page(i) && 1 <= i && Shown(i, totalPages, currentPage)
    ensures EntriesBelow(pages + [e], i + 1, totalPages, currentPage)
  {
    var q := pages + [e];
    forall k | 0 <= k < |q| && q[k].Page?
      ensures 1 <= q[k].number < i + 1 && Shown(q[k].number, totalPages, currentPage)
    {
      if k < |pages| {
        assert q[k] == pages[k];
      }
    }
  }

  lemma StepListed(pages: seq<PageEntry>, e: PageEntry, i: int, totalPages: int, currentPage: int)
    requires ListedBelow(pages, i, totalPages, currentPage)
    requires Shown(i, totalPages, currentPage) ==> e == Page(i)
    ensures ListedBelow(pages + [e], i + 1, totalPages, currentPage)
  {
    var q := pages + [e];
    forall j | 1 <= j < i + 1 && Shown(j, totalPages, currentPage) ensures Page(j) in q {
      if j < i {
        var k :| 0 <= k < |pages| && pages[k] == Page(j);
        assert q[k] == Page(j);
      } else {
        assert q[|pages|] == Page(j);
      }
    }
  }

  lemma StepIncreasing(pages: seq<PageEntry>, e: PageEntry, i: int, totalPages: int, currentPage: int)
    requires Increasing(pages) && EntriesBelow(pages, i, totalPages, currentPage)
    requires e.Page? ==> e.number == i
    ensures Increasing(pages + [e])
  {
    var q := pages + [e];
    forall a, b | 0 <= a < b < |q| && q[a].Page? && q[b].Page? ensures q[a].number < q[b].number {
      assert q[a] == pages[a];
      if b < |pages| {
        assert q[b] == pages[b];
      }
    }
  }

  lemma StepAdjacent(pages: seq<PageEntry>, e: PageEntry)
    requires AdjacentConsecutive(pages)
    requires e.Page? && |pages| > 0 && pages[|pages| - 1].Page? ==> e.number == pages[|pages| - 1].number + 1
    ensures AdjacentConsecutive(pages + [e])
  {
    var q := pages + [e];
    forall a, b | 0 <= a && b == a + 1 && b < |q| && q[a].Page? && q[b].Page?
      ensures q[b].number == q[a].number + 1
    {
      assert q[a] == pages[a];
      if b < |pages| {
        assert q[b] == pages[b];
      }
    }
  }

  lemma StepEllipses(pages: seq<PageEntry>, e: PageEntry)
    requires EllipsesSoFar(pages)
    requires e.Ellipsis? ==> |pages| > 0 && pages[|pages| - 1].Page?
    requires e.Page? && |pages| >= 2 && pages[|pages| - 1].Ellipsis? ==> e.number > pages[|pages| - 2].number + 1
    ensures EllipsesSoFar(pages + [e])
  {
    var q := pages + [e];
    var n := |pages|;
    forall k | 0 <= k < |q| && q[k].Ellipsis? ensures 0 < k {
      if k < n {
        assert q[k] == pages[k];
      }
    }
    forall a, b | 0 <= a && b == a + 1 && b < |q| && q[b].Ellipsis? ensures q[a].Page? {
      assert q[a] == pages[a];
      if b < n {
        assert q[b] == pages[b];
      }
    }
    forall a, b, c | 0 <= a && b == a + 1 && c == b + 1 && c < |q| && q[b].Ellipsis?
      ensures q[c].Page? && q[c].number > q[a].number + 1
    {
      assert q[a] == pages[a] && q[b] == pages[b];
      if c < n {
        assert q[c] == pages[c];
      } else {
        assert pages[b].Ellipsis? && 0 < b;
      }
    }
  }

  /** Page `i` is to be shown: its button is appended. */
  lemma PushPage(pages: seq<PageEntry>, i: int, totalPages: int, currentPage: int)
    requires BuiltUpTo(pages, i, totalPages, currentPage)
    requires Shown(i, totalPages, currentPage)
    ensures BuiltUpTo(pages + [Page(i)], i + 1, totalPages, currentPage)
  {
    var n := |pages|;
    StepEntries(pages, Page(i), i, totalPages, currentPage);
    StepListed(pages, Page(i), i, totalPages, currentPage);
    StepIncreasing(pages, Page(i), i, totalPages, currentPage);
    StepAdjacent(pages, Page(i));
    if n >= 2 && pages[n - 1].Ellipsis? {
      assert pages[n - 2].Page? && pages[n - 2].number < i;
      assert !Shown(i - 1, totalPages, currentPage);
    }
    StepEllipses(pages, Page(i));
  }

  /** Page `i` is skipped right after a button: a marker is appended. */
  lemma PushEllipsis(pages: seq<PageEntry>, i: int, totalPages: int, currentPage: int)
    requires BuiltUpTo(pages, i, totalPages, currentPage)
    requires !Shown(i, totalPages, currentPage)
    requires |pages| == 0 || pages[|pages| - 1] != Ellipsis
    ensures BuiltUpTo(pages + [Ellipsis], i + 1, totalPages, currentPage)
  {
    StepEntries(pages, Ellipsis, i, totalPages, currentPage);
    StepListed(pages, Ellipsis, i, totalPages, currentPage);
    StepIncreasing(pages, Ellipsis, i, totalPages, currentPage);
    StepAdjacent(pages, Ellipsis);
    StepEllipses(pages, Ellipsis);
  }

  /** Page `i` is skipped right after a marker: nothing is appended. */
  lemma SkipPage(pages: seq<PageEntry>, i: int, totalPages: int, currentPage: int)
    requires BuiltUpTo(pages, i, totalPages, currentPage)
    requires !Shown(i, totalPages, currentPage)
    requires |pages| > 0 && pages[|pages| - 1] == Ellipsis
    ensures BuiltUpTo(pages, i + 1, totalPages, currentPage)
  {
  }

  /** The bar built for all pages is the one `IsPageList` describes. */
  lemma BuiltIsPageList(pages: seq<PageEntry>, totalPages: int, currentPage: int)
    requires totalPages > 1
    requires BuiltUpTo(pages, totalPages + 1, totalPages, currentPage)
    ensures IsPageList(pages, totalPages, currentPage)
  {
    assert pages[|pages| - 1] == Page(totalPages);
    assert |pages| >= 2;
  }

  /** What the loop of `renderPagination` does with page `i`. */
  ghost function Push(pages: seq<PageEntry>, i: int, totalPages: int, currentPage: int): seq<PageEntry>
  {
    if Shown(i, totalPages, currentPage) then pages + [Page(i)]
    else if |pages| == 0 || pages[|pages| - 1] != Ellipsis then pages + [Ellipsis]
    else pages
  }

  /** The entries the loop has pushed once pages `1 .. k` are visited. */
  ghost function PushedUpTo(k: nat, totalPages: int, currentPage: int): seq<PageEntry>
  {
    if k == 0 then [] else Push(PushedUpTo(k - 1, totalPages, currentPage), k, totalPages, currentPage)
  }

  /** Visiting page `i` keeps the bar well formed. */
  lemma PushKeepsBuilt(pages: seq<PageEntry>, i: int, totalPages: int, currentPage: int)
    requires BuiltUpTo(pages, i, totalPages, currentPage)
    ensures BuiltUpTo(Push(pages, i, totalPages, currentPage), i + 1, totalPages, currentPage)
  {
    if Shown(i, totalPages, currentPage) {
      PushPage(pages, i, totalPages, currentPage);
    } else if |pages| == 0 || pages[|pages| - 1] != Ellipsis {
      PushEllipsis(pages, i, totalPages, currentPage);
    } else {
      SkipPage(pages, i, totalPages, currentPage);
    }
  }

  /** Whatever the loop has pushed is a well-formed bar for the pages visited so far. */
  lemma {:induction false} PushedIsBuilt(k: nat, totalPages: int, currentPage: int)
    ensures BuiltUpTo(PushedUpTo(k, totalPages, currentPage), k + 1, totalPages, currentPage)
  {
    if k > 0 {
      PushedIsBuilt(k - 1, totalPages, currentPage);
      PushKeepsBuilt(PushedUpTo(k - 1, totalPages, currentPage), k, totalPages, currentPage);
    }
  }

  /**
   * The entries of the pagination bar for `totalPages` pages with
   * `currentPage` current (`renderPagination`).
   */
  method RenderPagination(totalPages: int, currentPage: int) returns (pages: seq<PageEntry>)
    ensures IsPageList(pages, totalPages, currentPage)
  {
    if totalPages <= 1 {
      return [];
    }
    pages := [];
    var i := 1;
    while i <= totalPages
      invariant 1 <= i <= totalPages + 1
      invariant pages == PushedUpTo(i - 1, totalPages, currentPage)
    {
      if Shown(i, totalPages, currentPage) {
        pages := pages + [Page(i)];
      } else if |pages| == 0 || pages[|pages| - 1] != Ellipsis {
        pages := pages + [Ellipsis];
      }
      i := i + 1;
    }
    PushedIsBuilt(totalPages, totalPages, currentPage);
    BuiltIsPageList(pages, totalPages, currentPage);
  }

  class CursorRulesHub {
    var repositories: seq<Record>
    var filteredRepositories: seq<Record>
    var currentPage: int
    var languageFilter: string
    var sortOption: string
    var searchQuery: string

    // What the page displays: the options appended to the language selector,
    // the cards of the current page and the pagination bar.
    var languageOptions: seq<string>
    var shownRepositories: seq<Record>
    var pagination: seq<PageEntry>

    /** After every handler the display agrees with the filter, query, sort option and page. */
    ghost predicate Valid()
      reads this
    {
      && filteredRepositories == View(repositories, languageFilter, searchQuery, sortOption)
      && shownRepositories == PageSlice(filteredRepositories, currentPage)
      && IsPageList(pagination, TotalPages(|filteredRepositories|), currentPage)
    }

    /** The initial state, before the snapshot is loaded. */
    constructor ()
      ensures Valid()
      ensures repositories == [] && filteredRepositories == []
      ensures currentPage == 1 && languageFilter == "" && sortOption == SortByStars && searchQuery == ""
      ensures languageOptions == [] && shownRepositories == [] && pagination == []
    {
      repositories := [];
      filteredRepositories := [];
      currentPage := 1;
      languageFilter := "";
      sortOption := SortByStars;
      searchQuery := "";
      languageOptions := [];
      shownRepositories := [];
      pagination := [];
    }

    /** `filterAndRenderRepositories`: recompute the filtered list and redraw. */
    method FilterAndRender()
      modifies this
      ensures Valid()
      ensures repositories == old(repositories) && currentPage == old(currentPage)
      ensures languageFilter == old(languageFilter) && sortOption == old(sortOption)
      ensures searchQuery == old(searchQuery) && languageOptions == old(languageOptions)
    {
      var filtered := View(repositories, languageFilter, searchQuery, sortOption);
      var pages := RenderPagination(TotalPages(|filtered|), currentPage);
      filteredRepositories, shownRepositories, pagination := filtered, PageSlice(filtered, currentPage), pages;
    }

    /** The `input` event of the search box. */
    method OnSearchInput(value: string)
      modifies this
      ensures Valid()
      ensures searchQuery == Lower(value) && currentPage == 1
      ensures repositories == old(repositories) && languageFilter == old(languageFilter)
      ensures sortOption == old(sortOption) && languageOptions == old(languageOptions)
    {
      searchQuery := Lower(value);
      currentPage := 1;
      FilterAndRender();
    }

    /** The `change` event of the language selector. */
    method OnLanguageChange(value: string)
      modifies this
      ensures Valid()
      ensures languageFilter == value && currentPage == 1
      ensures repositories == old(repositories) && searchQuery == old(searchQuery)
      ensures sortOption == old(sortOption) && languageOptions == old(languageOptions)
    {
      languageFilter := value;
      currentPage := 1;
      FilterAndRender();
    }

    /** The `change` event of the sort selector. */
    method OnSortChange(value: string)
      modifies this
      ensures Valid()
      ensures sortOption == value && currentPage == 1
      ensures repositories == old(repositories) && searchQuery == old(searchQuery)
      ensures languageFilter == old(languageFilter) && languageOptions == old(languageOptions)
    {
      sortOption := value;
      currentPage := 1;
      FilterAndRender();
    }

    /** A pagination button: move to `page`, keeping filters and the filtered list. */
    method GoToPage(page: int)
      modifies this
      ensures Valid()
      ensures currentPage == page
      ensures repositories == old(repositories) && searchQuery == old(searchQuery)
      ensures languageFilter == old(languageFilter) && sortOption == old(sortOption)
      ensures languageOptions == old(languageOptions)
      ensures old(Valid()) ==> filteredRepositories == old(filteredRepositories)
    {
      currentPage := page;
      FilterAndRender();
    }

    /**
     * `loadData` once the snapshot has been fetched and parsed (`None`: the
     * fetch or the parse failed, and only an error message is shown).
     */
    method LoadData(data: Option<seq<Record>>)
      modifies this
      ensures data.None? ==> unchanged(this)
      ensures data.Some? ==>
        && Valid()
        && repositories == data.value
        && languageOptions == old(languageOptions) + LanguageOptions(data.value)
        && currentPage == old(currentPage) && languageFilter == old(languageFilter)
        && sortOption == old(sortOption) && searchQuery == old(searchQuery)
    {
      if data.Some? {
        repositories := data.value;
        languageOptions := languageOptions + LanguageOptions(repositories);
        FilterAndRender();
      }
    }
  }
}
