/**
 * The pure list and string logic of the browser catalogue: which records a
 * language filter and search query keep, how they are ordered, which of them
 * one page shows, which buttons the pagination bar offers, the icon class of
 * a language, and the options of the language selector.
 */
module Catalogue {
  import opened Records
  import opened Text

  /** Records per page (`itemsPerPage`). */
  const ItemsPerPage: nat := 12

  /** The sort option value that orders by stars; every other value orders by update time. */
  const SortByStars: string := "stars"

  // ---------------------------------------------------------------------
  // Filtering

  /** An empty filter keeps every record; otherwise the language must be exactly the filter. */
  predicate MatchesLanguage(r: Record, languageFilter: string)
  {
    languageFilter == "" || r.language == Some(languageFilter)
  }

  /**
   * An empty query keeps every record; otherwise the lower-cased name or the
   * lower-cased (present, non-empty) description must contain the query,
   * which the input handler has already lower-cased.
   */
  predicate MatchesSearch(r: Record, query: string)
  {
    || query == ""
    || Contains(Lower(r.name), query)
    || (Truthy(r.description) && Contains(Lower(r.description.value), query))
  }

  predicate Matches(r: Record, languageFilter: string, query: string)
  {
    MatchesLanguage(r, languageFilter) && MatchesSearch(r, query)
  }

  /** `repositories.filter(...)`: the matching records, in their original order. */
  function FilterRecords(repos: seq<Record>, languageFilter: string, query: string): (r: seq<Record>)
    ensures |r| <= |repos|
  {
    if repos == [] then []
    else
      var rest := FilterRecords(repos[1..], languageFilter, query);
      if Matches(repos[0], languageFilter, query) then [repos[0]] + rest else rest
  }

  /** The filter keeps every matching record as often as it occurs, and nothing else. */
  lemma {:induction false} FilterRecordsSpec(repos: seq<Record>, languageFilter: string, query: string)
    ensures var r := FilterRecords(repos, languageFilter, query);
      && (forall x :: multiset(r)[x] == if Matches(x, languageFilter, query) then multiset(repos)[x] else 0)
      && (forall i :: 0 <= i < |r| ==> Matches(r[i], languageFilter, query))
  {
    if repos != [] {
      FilterRecordsSpec(repos[1..], languageFilter, query);
      assert repos == [repos[0]] + repos[1..];
    }
  }

  // ---------------------------------------------------------------------
  // Sorting

  /** The key the comparator subtracts: stars when the option is `stars`, otherwise the update instant. */
  function SortKey(r: Record, byStars: bool): int
  {
    if byStars then r.stars else r.updatedAt
  }

  /** Non-increasing in the sort key (the comparator is `b - a`). */
  predicate SortedBy(s: seq<Record>, byStars: bool)
  {
    forall i, j :: 0 <= i < j < |s| ==> SortKey(s[i], byStars) >= SortKey(s[j], byStars)
  }

  /** Puts `x` after every element whose key is at least its own. */
  function Insert(x: Record, s: seq<Record>, byStars: bool): (r: seq<Record>)
    ensures |r| == |s| + 1
  {
    if s == [] then [x]
    else if SortKey(s[0], byStars) >= SortKey(x, byStars) then [s[0]] + Insert(x, s[1..], byStars)
    else [x] + s
  }

  /** Insertion adds `x` and keeps every element of `s`. */
  lemma {:induction false} InsertSpec(x: Record, s: seq<Record>, byStars: bool)
    ensures multiset(Insert(x, s, byStars)) == multiset(s) + multiset{x}
    ensures forall y :: y in Insert(x, s, byStars) ==> y == x || y in s
  {
    if s != [] && SortKey(s[0], byStars) >= SortKey(x, byStars) {
      InsertSpec(x, s[1..], byStars);
      assert s == [s[0]] + s[1..];
    }
  }

  lemma {:induction false} InsertSorted(x: Record, s: seq<Record>, byStars: bool)
    requires SortedBy(s, byStars)
    ensures SortedBy(Insert(x, s, byStars), byStars)
  {
    if s != [] && SortKey(s[0], byStars) >= SortKey(x, byStars) {
      var rest := Insert(x, s[1..], byStars);
      var r := [s[0]] + rest;
      assert Insert(x, s, byStars) == r;
      InsertSorted(x, s[1..], byStars);
      InsertSpec(x, s[1..], byStars);
      forall i, j | 0 <= i < j < |r| ensures SortKey(r[i], byStars) >= SortKey(r[j], byStars) {
        assert r[j] == rest[j - 1];
        if i == 0 {
          assert rest[j - 1] in rest;
          if rest[j - 1] != x {
            var m :| 1 <= m < |s| && s[m] == rest[j - 1];
          }
        } else {
          assert r[i] == rest[i - 1];
        }
      }
    }
  }

  /** The in-place `sort` of the filtered list, as a stable insertion sort. */
  function SortRecords(xs: seq<Record>, byStars: bool): (r: seq<Record>)
    ensures |r| == |xs|
  {
    if xs == [] then []
    else Insert(xs[|xs| - 1], SortRecords(xs[..|xs| - 1], byStars), byStars)
  }

  /** The sort permutes its input. */
  lemma {:induction false} SortRecordsPermutes(xs: seq<Record>, byStars: bool)
    ensures multiset(SortRecords(xs, byStars)) == multiset(xs)
  {
    if xs != [] {
      var init, last := xs[..|xs| - 1], xs[|xs| - 1];
      SortRecordsPermutes(init, byStars);
      InsertSpec(last, SortRecords(init, byStars), byStars);
      assert xs == init + [last];
    }
  }

  /** The sort leaves its result in non-increasing key order. */
  lemma {:induction false} SortRecordsSorted(xs: seq<Record>, byStars: bool)
    ensures SortedBy(SortRecords(xs, byStars), byStars)
  {
    if xs != [] {
      var init, last := xs[..|xs| - 1], xs[|xs| - 1];
      SortRecordsSorted(init, byStars);
      InsertSorted(last, SortRecords(init, byStars), byStars);
    }
  }

  /** The records of `s` whose key is `k`, in their order in `s`. */
  function WithKey(s: seq<Record>, byStars: bool, k: int): seq<Record>
  {
    if s == [] then []
    else (if SortKey(s[0], byStars) == k then [s[0]] else []) + WithKey(s[1..], byStars, k)
  }

  lemma {:induction false} WithKeyAppend(a: seq<Record>, b: seq<Record>, byStars: bool, k: int)
    ensures WithKey(a + b, byStars, k) == WithKey(a, byStars, k) + WithKey(b, byStars, k)
  {
    if a == [] {
      assert a + b == b;
    } else {
      var ab, tail := a + b, a[1..];
      assert ab[0] == a[0];
      assert ab[1..] == tail + b;
      WithKeyAppend(tail, b, byStars, k);
      var h := if SortKey(a[0], byStars) == k then [a[0]] else [];
      assert WithKey(ab, byStars, k) == h + WithKey(tail + b, byStars, k);
      assert WithKey(a, byStars, k) == h + WithKey(tail, byStars, k);
    }
  }

  lemma {:induction false} WithKeyAbsent(s: seq<Record>, byStars: bool, k: int)
    requires forall i :: 0 <= i < |s| ==> SortKey(s[i], byStars) < k
    ensures WithKey(s, byStars, k) == []
  {
    if s != [] {
      WithKeyAbsent(s[1..], byStars, k);
    }
  }

  lemma {:induction false} InsertStable(x: Record, s: seq<Record>, byStars: bool, k: int)
    requires SortedBy(s, byStars)
    ensures WithKey(Insert(x, s, byStars), byStars, k)
         == WithKey(s, byStars, k) + WithKey([x], byStars, k)
  {
    if s == [] {
      assert Insert(x, s, byStars) == [x];
    } else if SortKey(s[0], byStars) >= SortKey(x, byStars) {
      InsertStable(x, s[1..], byStars, k);
      InsertStablePast(x, s, byStars, k);
    } else {
      InsertStableFront(x, s, byStars, k);
    }
  }

  /** The step of InsertStable where `x` goes after the head of `s`. */
  lemma InsertStablePast(x: Record, s: seq<Record>, byStars: bool, k: int)
    requires s != [] && SortKey(s[0], byStars) >= SortKey(x, byStars)
    requires WithKey(Insert(x, s[1..], byStars), byStars, k)
          == WithKey(s[1..], byStars, k) + WithKey([x], byStars, k)
    ensures WithKey(Insert(x, s, byStars), byStars, k)
         == WithKey(s, byStars, k) + WithKey([x], byStars, k)
  {
    var h := if SortKey(s[0], byStars) == k then [s[0]] else [];
    var t, e := WithKey(s[1..], byStars, k), WithKey([x], byStars, k);
    assert WithKey(Insert(x, s, byStars), byStars, k) == h + (t + e) by {
      var rest := Insert(x, s[1..], byStars);
      var r := [s[0]] + rest;
      assert Insert(x, s, byStars) == r;
      assert r[0] == s[0] && r[1..] == rest;
    }
    assert WithKey(s, byStars, k) == h + t;
    assert h + (t + e) == (h + t) + e;
  }

  /** The step of InsertStable where `x` goes in front of `s`. */
  lemma InsertStableFront(x: Record, s: seq<Record>, byStars: bool, k: int)
    requires SortedBy(s, byStars)
    requires s != [] && SortKey(s[0], byStars) < SortKey(x, byStars)
    ensures WithKey(Insert(x, s, byStars), byStars, k)
         == WithKey(s, byStars, k) + WithKey([x], byStars, k)
  {
    assert Insert(x, s, byStars) == [x] + s;
    WithKeyAppend([x], s, byStars, k);
    if SortKey(x, byStars) == k {
      WithKeyAbsent(s, byStars, k);
    } else {
      assert WithKey([x], byStars, k) == [];
    }
  }

  /** The sort is stable: records with equal keys keep their relative order. */
  lemma {:induction false} SortStable(xs: seq<Record>, byStars: bool, k: int)
    ensures WithKey(SortRecords(xs, byStars), byStars, k) == WithKey(xs, byStars, k)
  {
    if xs != [] {
      var init, last := xs[..|xs| - 1], xs[|xs| - 1];
      SortStable(init, byStars, k);
      SortRecordsSorted(init, byStars);
      InsertStable(last, SortRecords(init, byStars), byStars, k);
      WithKeyAppend(init, [last], byStars, k);
      assert init + [last] == xs;
    }
  }

  /** The filter keeps order: the matches of one key come in the order of `repos`. */
  lemma {:induction false} FilterWithKey(repos: seq<Record>, languageFilter: string, query: string, byStars: bool, k: int)
    ensures WithKey(FilterRecords(repos, languageFilter, query), byStars, k)
         == FilterRecords(WithKey(repos, byStars, k), languageFilter, query)
  {
    if repos != [] {
      var head, tail := repos[0], repos[1..];
      FilterWithKey(tail, languageFilter, query, byStars, k);
      var rest := FilterRecords(tail, languageFilter, query);
      var keyed := if SortKey(head, byStars) == k then [head] else [];
      assert WithKey(repos, byStars, k) == keyed + WithKey(tail, byStars, k);
      FilterAppend(keyed, WithKey(tail, byStars, k), languageFilter, query);
      if Matches(head, languageFilter, query) {
        WithKeyAppend([head], rest, byStars, k);
        assert [head][1..] == [];
        assert FilterRecords(keyed, languageFilter, query) == keyed by {
          if keyed != [] { assert keyed[1..] == []; }
        }
      } else {
        assert FilterRecords(keyed, languageFilter, query) == [] by {
          if keyed != [] { assert keyed[1..] == []; }
        }
      }
    }
  }

  /** Filtering distributes over concatenation. */
  lemma {:induction false} FilterAppend(a: seq<Record>, b: seq<Record>, languageFilter: string, query: string)
    ensures FilterRecords(a + b, languageFilter, query)
         == FilterRecords(a, languageFilter, query) + FilterRecords(b, languageFilter, query)
  {
    if a == [] {
      assert a + b == b;
    } else {
      assert (a + b)[0] == a[0] && (a + b)[1..] == a[1..] + b;
      FilterAppend(a[1..], b, languageFilter, query);
    }
  }

  // ---------------------------------------------------------------------
  // The visible list

  /** `filteredRepositories` after `filterAndRenderRepositories`. */
  function View(repos: seq<Record>, languageFilter: string, query: string, sortOption: string): seq<Record>
  {
    SortRecords(FilterRecords(repos, languageFilter, query), sortOption == SortByStars)
  }

  /**
   * Records of equal sort key appear in the visible list in the order they
   * have in `repos`: the stable sort keeps the order the filter keeps.
   */
  lemma ViewStable(repos: seq<Record>, languageFilter: string, query: string, sortOption: string, k: int)
    ensures WithKey(View(repos, languageFilter, query, sortOption), sortOption == SortByStars, k)
         == FilterRecords(WithKey(repos, sortOption == SortByStars, k), languageFilter, query)
  {
    var byStars := sortOption == SortByStars;
    SortStable(FilterRecords(repos, languageFilter, query), byStars, k);
    FilterWithKey(repos, languageFilter, query, byStars, k);
  }

  /** The visible list holds exactly the matching records, each as often as in `repos`. */
  lemma ViewKeepsExactlyMatches(repos: seq<Record>, languageFilter: string, query: string, sortOption: string)
    ensures forall x :: multiset(View(repos, languageFilter, query, sortOption))[x]
                     == if Matches(x, languageFilter, query) then multiset(repos)[x] else 0
    ensures forall x :: x in View(repos, languageFilter, query, sortOption)
                     <==> x in repos && Matches(x, languageFilter, query)
  {
    var filtered := FilterRecords(repos, languageFilter, query);
    FilterRecordsSpec(repos, languageFilter, query);
    SortRecordsPermutes(filtered, sortOption == SortByStars);
  }

  /** With no language filter and no query the visible list is a permutation of all records. */
  lemma ViewUnfilteredIsPermutation(repos: seq<Record>, sortOption: string)
    ensures multiset(View(repos, "", "", sortOption)) == multiset(repos)
  {
    var v := View(repos, "", "", sortOption);
    ViewKeepsExactlyMatches(repos, "", "", sortOption);
    forall x ensures multiset(v)[x] == multiset(repos)[x] {
      assert Matches(x, "", "");
    }
  }

  /** By stars when the option is `stars`, otherwise by update time, newest first. */
  lemma ViewOrder(repos: seq<Record>, languageFilter: string, query: string, sortOption: string)
    ensures var v := View(repos, languageFilter, query, sortOption);
      && (sortOption == SortByStars ==> forall i, j :: 0 <= i < j < |v| ==> v[i].stars >= v[j].stars)
      && (sortOption != SortByStars ==> forall i, j :: 0 <= i < j < |v| ==> v[i].updatedAt >= v[j].updatedAt)
  {
    var v := View(repos, languageFilter, query, sortOption);
    SortRecordsSorted(FilterRecords(repos, languageFilter, query), sortOption == SortByStars);
    assert SortedBy(v, sortOption == SortByStars);
  }

  // ---------------------------------------------------------------------
  // Pages

  /** `Math.ceil(count / itemsPerPage)`. */
  function TotalPages(count: nat): (pages: nat)
    ensures pages * ItemsPerPage >= count
    ensures pages > 0 ==> (pages - 1) * ItemsPerPage < count
  {
    (count + ItemsPerPage - 1) / ItemsPerPage
  }

  /** Where `Array.prototype.slice` takes an index argument: negative counts from the end, then clamped to `[0, len]`. */
  function SliceIndex(k: int, len: nat): (r: nat)
    ensures r <= len
  {
    if k < 0 then (if len + k < 0 then 0 else len + k)
    else if k < len then k
    else len
  }

  /** `s.slice(start, end)`. */
  function Slice<T>(s: seq<T>, start: int, end: int): seq<T>
  {
    var from, to := SliceIndex(start, |s|), SliceIndex(end, |s|);
    if from < to then s[from..to] else []
  }

  function Min(a: int, b: int): int
  {
    if a <= b then a else b
  }

  /**
   * The slice `renderRepositories` shows for `page`: for a page number of at
   * least 1, the elements at indices `[(page-1)*12, page*12)` that exist.
   */
  function PageSlice(s: seq<Record>, page: int): (r: seq<Record>)
    ensures |r| <= ItemsPerPage
    ensures page >= 1 ==>
      var lo := (page - 1) * ItemsPerPage;
      r == if lo < |s| then s[lo..Min(lo + ItemsPerPage, |s|)] else []
  {
    var start := (page - 1) * ItemsPerPage;
    Slice(s, start, start + ItemsPerPage)
  }

  /** Every element is shown on exactly the page its index falls in, at offset `i % 12`. */
  lemma PageHoldsElement(s: seq<Record>, i: nat)
    requires i < |s|
    ensures 1 <= i / ItemsPerPage + 1 <= TotalPages(|s|)
    ensures var page := PageSlice(s, i / ItemsPerPage + 1);
      i % ItemsPerPage < |page| && page[i % ItemsPerPage] == s[i]
  {
    var p := i / ItemsPerPage + 1;
    assert (p - 1) * ItemsPerPage + i % ItemsPerPage == i;
  }

  /** A page past the last one is empty. */
  lemma PageBeyondLastIsEmpty(s: seq<Record>, page: int)
    requires page > TotalPages(|s|)
    ensures PageSlice(s, page) == []
  {
    assert (page - 1) * ItemsPerPage >= TotalPages(|s|) * ItemsPerPage;
  }

  // ---------------------------------------------------------------------
  // Pagination bar

  /** One item of the pagination bar: a page button or the `'...'` marker. */
  datatype PageEntry = Page(number: int) | Ellipsis

  /** The pages that get a button: the first, the last, and the neighbours of the current one. */
  predicate Shown(i: int, totalPages: int, currentPage: int)
  {
    i == 1 || i == totalPages || (currentPage - 1 <= i <= currentPage + 1)
  }

  /** Every button shows a page in range that is to be shown. */
  ghost predicate EntriesInRange(pages: seq<PageEntry>, totalPages: int, currentPage: int)
  {
    forall k :: 0 <= k < |pages| && pages[k].Page? ==>
      1 <= pages[k].number <= totalPages && Shown(pages[k].number, totalPages, currentPage)
  }

  /** Every page in range that is to be shown has a button. */
  ghost predicate ShownListed(pages: seq<PageEntry>, totalPages: int, currentPage: int)
  {
    forall i :: 1 <= i <= totalPages && Shown(i, totalPages, currentPage) ==> Page(i) in pages
  }

  /** Page numbers strictly increase along the bar. */
  ghost predicate Increasing(pages: seq<PageEntry>)
  {
    forall a, b :: 0 <= a < b < |pages| && pages[a].Page? && pages[b].Page? ==> pages[a].number < pages[b].number
  }

  /** Two adjacent buttons are consecutive pages. */
  ghost predicate AdjacentConsecutive(pages: seq<PageEntry>)
  {
    forall a, b :: 0 <= a && b == a + 1 && b < |pages| && pages[a].Page? && pages[b].Page? ==>
      pages[b].number == pages[a].number + 1
  }

  /** A marker stands between two buttons and stands for at least one skipped page. */
  ghost predicate EllipsesMarkGaps(pages: seq<PageEntry>)
  {
    && (forall k :: 0 <= k < |pages| && pages[k].Ellipsis? ==> 0 < k < |pages| - 1)
    && (forall a, b, c :: 0 <= a && b == a + 1 && c == b + 1 && c < |pages| && pages[b].Ellipsis? ==>
          pages[a].Page? && pages[c].Page? && pages[c].number > pages[a].number + 1)
  }

  /**
   * What `renderPagination` displays for `totalPages` pages: nothing when
   * there is at most one page; otherwise a bar from page 1 to the last page
   * with a button for exactly the pages to be shown and one marker per gap.
   */
  ghost predicate IsPageList(pages: seq<PageEntry>, totalPages: int, currentPage: int)
  {
    if totalPages <= 1 then pages == []
    else
      && |pages| >= 2
      && pages[0] == Page(1)
      && pages[|pages| - 1] == Page(totalPages)
      && EntriesInRange(pages, totalPages, currentPage)
      && ShownListed(pages, totalPages, currentPage)
      && Increasing(pages)
      && AdjacentConsecutive(pages)
      && EllipsesMarkGaps(pages)
  }

  /** A bar never holds two markers side by side. */
  lemma NoAdjacentEllipses(pages: seq<PageEntry>, totalPages: int, currentPage: int)
    requires IsPageList(pages, totalPages, currentPage)
    ensures forall a, b :: 0 <= a && b == a + 1 && b < |pages| ==> !(pages[a].Ellipsis? && pages[b].Ellipsis?)
  {
    forall a, b | 0 <= a && b == a + 1 && b < |pages| && pages[a].Ellipsis?
      ensures !pages[b].Ellipsis?
    {
      assert 0 < a < |pages| - 1;
      var z := a - 1;
      assert pages[z].Page? && pages[b].Page? && pages[b].number > pages[z].number + 1;
    }
  }

  // ---------------------------------------------------------------------
  // Language icons

  /** The lower-cased language with `+`, `#` and `.` spelled out, in that order of replacement. */
  function NormalizeLanguage(language: string): string
  {
    ReplaceChar(ReplaceChar(ReplaceChar(Lower(language), '+', "plus"), '#', "sharp"), '.', "dot")
  }

  /** The icon class of a language name. */
  function IconClass(language: string): string
  {
    "si-" + NormalizeLanguage(language)
  }

  /** `getLanguageIcon`: empty for a missing or empty language, an icon element otherwise. */
  function LanguageIcon(language: Option<string>): (html: string)
    ensures html == "" <==> !Truthy(language)
    ensures Truthy(language) ==> html == "<i class=\"" + IconClass(language.value) + "\"></i>"
  {
    if !Truthy(language) then "" else "<i class=\"" + IconClass(language.value) + "\"></i>"
  }

  /** The normalised name has no `+`, `#` or `.` left. */
  lemma NormalizedHasNoSpecials(language: string)
    ensures var n := NormalizeLanguage(language);
      '+' !in n && '#' !in n && '.' !in n
  {
    var l := Lower(language);
    var a := ReplaceChar(l, '+', "plus");
    var b := ReplaceChar(a, '#', "sharp");
    ReplaceCharRemoves(l, '+', "plus");
    ReplaceCharKeepsOut(a, '#', "sharp", '+');
    ReplaceCharRemoves(a, '#', "sharp");
    ReplaceCharKeepsOut(b, '.', "dot", '+');
    ReplaceCharKeepsOut(b, '.', "dot", '#');
    ReplaceCharRemoves(b, '.', "dot");
  }

  /** The normalised name has no upper-case letter. */
  lemma NormalizedIsLowerCase(language: string)
    ensures HasNoUpper(NormalizeLanguage(language))
  {
    var l := Lower(language);
    var a := ReplaceChar(l, '+', "plus");
    var b := ReplaceChar(a, '#', "sharp");
    LowerIdempotent(language);
    ReplaceCharNoUpper(l, '+', "plus");
    ReplaceCharNoUpper(a, '#', "sharp");
    ReplaceCharNoUpper(b, '.', "dot");
  }

  /** What one character of the language name becomes. */
  function NormalizeChar(c: char): string
  {
    if c == '+' then "plus"
    else if c == '#' then "sharp"
    else if c == '.' then "dot"
    else [LowerChar(c)]
  }

  lemma NormalizeOneChar(c: char)
    ensures ReplaceChar(ReplaceChar(ReplaceChar([LowerChar(c)], '+', "plus"), '#', "sharp"), '.', "dot") == NormalizeChar(c)
  {
    var d := LowerChar(c);
    ReplaceCharSingle(d, '+', "plus");
    var a := ReplaceChar([d], '+', "plus");
    if c == '+' {
      ReplaceCharAbsent("plus", '#', "sharp");
      ReplaceCharAbsent("plus", '.', "dot");
    } else {
      ReplaceCharSingle(d, '#', "sharp");
      if c == '#' {
        ReplaceCharAbsent("sharp", '.', "dot");
      } else {
        ReplaceCharSingle(d, '.', "dot");
      }
    }
  }

  /** The normalised name, character by character. */
  function NormalizeEach(s: string): string
  {
    if s == [] then [] else NormalizeChar(s[0]) + NormalizeEach(s[1..])
  }

  /** The three successive replacements act on each character independently. */
  lemma {:induction false} NormalizeIsCharwise(s: string)
    ensures NormalizeLanguage(s) == NormalizeEach(s)
  {
    if s != [] {
      var c, t := s[0], s[1..];
      assert s == [c] + t;
      assert Lower(s) == [LowerChar(c)] + Lower(t);
      var l1, l2 := [LowerChar(c)], Lower(t);
      ReplaceCharAppend(l1, l2, '+', "plus");
      var a1, a2 := ReplaceChar(l1, '+', "plus"), ReplaceChar(l2, '+', "plus");
      ReplaceCharAppend(a1, a2, '#', "sharp");
      var b1, b2 := ReplaceChar(a1, '#', "sharp"), ReplaceChar(a2, '#', "sharp");
      ReplaceCharAppend(b1, b2, '.', "dot");
      NormalizeOneChar(c);
      NormalizeIsCharwise(t);
    }
  }

  /**
   * `C++` gets the icon class `si-cplusplus` and `C#` gets `si-csharp`.
   * The two names are parameters fixed by the precondition: written as
   * literals in the ensures, they make the solver unfold the recursive
   * replace on every call site at once.
   */
  lemma IconClassExamples(cpp: string, cs: string)
    requires cpp == "C++" && cs == "C#"
    ensures IconClass(cpp) == "si-cplusplus"
    ensures IconClass(cs) == "si-csharp"
    ensures LanguageIcon(Some(cpp)) == "<i class=\"si-cplusplus\"></i>"
    ensures LanguageIcon(Some(cs)) == "<i class=\"si-csharp\"></i>"
  {
    assert NormalizeLanguage(cpp) == "cplusplus" by {
      NormalizeIsCharwise(cpp);
      NormalizeEachExamples();
    }
    assert NormalizeLanguage(cs) == "csharp" by {
      NormalizeIsCharwise(cs);
      NormalizeEachExamples();
    }
  }

  lemma NormalizeEachExamples()
    ensures NormalizeEach("C++") == "cplusplus"
    ensures NormalizeEach("C#") == "csharp"
  {
    var plus, sharp := ['+'], ['#'];
    assert plus[1..] == [] && sharp[1..] == [];
    assert NormalizeEach(plus) == "plus";
    assert NormalizeEach(sharp) == "sharp";
    var pp := plus + plus;
    assert pp[0] == '+' && pp[1..] == plus;
    assert NormalizeEach(pp) == "plus" + "plus";
    assert LowerChar('C') == 'c';
    var cpp, cs := ['C'] + pp, ['C'] + sharp;
    assert cpp[0] == 'C' && cpp[1..] == pp;
    assert cs[0] == 'C' && cs[1..] == sharp;
    assert cpp == "C++" && cs == "C#";
  }

  // ---------------------------------------------------------------------
  // Language options

  /** `repositories.map(repo => repo.language).filter(Boolean)`. */
  function PresentLanguages(repos: seq<Record>): (langs: seq<string>)
    ensures forall l :: l in langs <==> l != "" && exists r :: r in repos && r.language == Some(l)
  {
    if repos == [] then []
    else
      assert repos == [repos[0]] + repos[1..];
      (if Truthy(repos[0].language) then [repos[0].language.value] else []) + PresentLanguages(repos[1..])
  }

  predicate NoDuplicates(s: seq<string>)
  {
    forall i, j :: 0 <= i < j < |s| ==> s[i] != s[j]
  }

  /** `[...new Set(xs)]`: first occurrences, in order. */
  function Distinct(xs: seq<string>): (r: seq<string>)
    ensures forall x :: x in r <==> x in xs
    ensures NoDuplicates(r)
  {
    if xs == [] then []
    else
      var d, last := Distinct(xs[..|xs| - 1]), xs[|xs| - 1];
      assert xs == xs[..|xs| - 1] + [last];
      if last in d then d else d + [last]
  }

  predicate StrictlyAscending(s: seq<string>)
  {
    forall i, j :: 0 <= i < j < |s| ==> LexLess(s[i], s[j])
  }

  function InsertString(x: string, s: seq<string>): (r: seq<string>)
    ensures multiset(r) == multiset(s) + multiset{x}
    ensures forall y :: y in r <==> y == x || y in s
  {
    if s == [] || LexLess(x, s[0]) then [x] + s
    else
      assert s == [s[0]] + s[1..];
      [s[0]] + InsertString(x, s[1..])
  }

  /** `languages.sort()`, as an insertion sort. */
  function SortStrings(xs: seq<string>): (r: seq<string>)
    ensures multiset(r) == multiset(xs)
    ensures forall y :: y in r <==> y in xs
  {
    if xs == [] then []
    else
      assert xs == xs[..|xs| - 1] + [xs[|xs| - 1]];
      InsertString(xs[|xs| - 1], SortStrings(xs[..|xs| - 1]))
  }

  lemma {:induction false} InsertStringAscending(x: string, s: seq<string>)
    requires StrictlyAscending(s) && x !in s
    ensures StrictlyAscending(InsertString(x, s))
  {
    if s == [] {
    } else if LexLess(x, s[0]) {
      forall k | 0 <= k < |s| ensures LexLess(x, s[k]) {
        if k > 0 {
          LexLessTransitive(x, s[0], s[k]);
        }
      }
    } else {
      LexLessTotal(x, s[0]);
      InsertStringAscending(x, s[1..]);
      var rest := InsertString(x, s[1..]);
      forall k | 0 <= k < |rest| ensures LexLess(s[0], rest[k]) {
        assert rest[k] in rest;
      }
    }
  }

  lemma {:induction false} SortStringsAscending(xs: seq<string>)
    requires NoDuplicates(xs)
    ensures StrictlyAscending(SortStrings(xs))
  {
    if xs != [] {
      var init, last := xs[..|xs| - 1], xs[|xs| - 1];
      assert NoDuplicates(init);
      SortStringsAscending(init);
      assert last !in init;
      InsertStringAscending(last, SortStrings(init));
    }
  }

  /** The options of the language selector built in `loadData`. */
  function LanguageOptions(repos: seq<Record>): seq<string>
  {
    SortStrings(Distinct(PresentLanguages(repos)))
  }

  /**
   * The options are strictly ascending (so distinct) and are exactly the
   * non-empty languages that some record has.
   */
  lemma LanguageOptionsSpec(repos: seq<Record>)
    ensures StrictlyAscending(LanguageOptions(repos))
    ensures forall l :: l in LanguageOptions(repos) <==> l != "" && exists r :: r in repos && r.language == Some(l)
  {
    SortStringsAscending(Distinct(PresentLanguages(repos)));
  }
}
