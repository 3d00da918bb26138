/** PageScreenFeature.cs: splits the items the page data service reports into pages of
    DISPLAY_ENTRIES_COUNT, moves between them with the previous and next buttons, and
    shows each page from the cache or, on a miss, from a range request. */
module PageScreenFeatures {
  import opened Wrappers
  import opened PageDataServices

  const DISPLAY_ENTRIES_COUNT: nat := 5

  /** A page: where it starts among the items and how many it shows. */
  datatype Page = Page(startIndex: int, entriesCount: int)

  /** PageScreen.PageNavigationState: which buttons the screen offers. */
  datatype PageNavigationState = None | First | Middle | Last

  /** The PageScreen calls the feature makes, in order. */
  datatype ScreenCall<T> =
    | UpdateScreenControls(navigationState: PageNavigationState)
    | SetupScreen(displayEntriesCount: nat)
    | PreformFullPageTransition(slots: seq<Slot<T>>)
    | InitiatePageTransition
    | FinalizePageTransition(slots: seq<Slot<T>>)

  /** The events the feature publishes on the event bus. */
  datatype PageEvent = InitialPageContentReady | SwitchPageContentError | SetupPageContentError

  /** The first `n` pages of the loop in SetupAndLoadFirstPage, each a full page. */
  function FullPages(n: nat): (pages: seq<Page>)
    ensures |pages| == n
    ensures forall i :: 0 <= i < n ==> pages[i] == Page(DISPLAY_ENTRIES_COUNT * i, DISPLAY_ENTRIES_COUNT)
  {
    if n == 0 then [] else FullPages(n - 1) + [Page(DISPLAY_ENTRIES_COUNT * (n - 1), DISPLAY_ENTRIES_COUNT)]
  }

  /** The pages SetupAndLoadFirstPage builds for `count` items: the full pages, then one
      page for the remainder when there is one. */
  function Pages(count: nat): seq<Page> {
    var lastPageEntries := count % DISPLAY_ENTRIES_COUNT;
    FullPages(count / DISPLAY_ENTRIES_COUNT) +
    if lastPageEntries > 0 then [Page(count - lastPageEntries, lastPageEntries)] else []
  }

  /** The pages tile [0, count): page `j` starts at 5j, holds 1 to 5 items, each page
      starts where the previous one ends, the last ends at `count`, and only the last
      may be short. */
  lemma PagesTile(count: nat)
    ensures var pages := Pages(count);
            && |pages| == (count + DISPLAY_ENTRIES_COUNT - 1) / DISPLAY_ENTRIES_COUNT
            && (forall j :: 0 <= j < |pages| ==>
                  && pages[j].startIndex == DISPLAY_ENTRIES_COUNT * j
                  && 1 <= pages[j].entriesCount <= DISPLAY_ENTRIES_COUNT
                  && pages[j].startIndex + pages[j].entriesCount <= count)
            && (forall j :: 0 <= j < |pages| - 1 ==>
                  && pages[j].entriesCount == DISPLAY_ENTRIES_COUNT
                  && pages[j + 1].startIndex == pages[j].startIndex + pages[j].entriesCount)
            && (count > 0 ==> pages[|pages| - 1].startIndex + pages[|pages| - 1].entriesCount == count)
  {
    var pages := Pages(count);
    var full := count / DISPLAY_ENTRIES_COUNT;
    var rest := count % DISPLAY_ENTRIES_COUNT;
    assert count == DISPLAY_ENTRIES_COUNT * full + rest;
    forall j | 0 <= j < |pages|
      ensures pages[j].startIndex == DISPLAY_ENTRIES_COUNT * j
      ensures 1 <= pages[j].entriesCount <= DISPLAY_ENTRIES_COUNT
      ensures pages[j].startIndex + pages[j].entriesCount <= count
    {
      if j < full {
        assert pages[j] == FullPages(full)[j];
      }
    }
  }

  /** Every item lies on page item / 5, so the pages cover [0, count). */
  lemma PageOfItem(count: nat, k: nat)
    requires k < count
    ensures var pages := Pages(count);
            var j := k / DISPLAY_ENTRIES_COUNT;
            j < |pages| && pages[j].startIndex <= k < pages[j].startIndex + pages[j].entriesCount
  {
    PagesTile(count);
  }

  /** There is a page when there are items, and every page lies within the items, so
      the service accepts its range. */
  lemma PagesWithin(count: nat)
    ensures count > 0 ==> |Pages(count)| > 0
    ensures forall j :: 0 <= j < |Pages(count)| ==>
              AccessInRange(count, Pages(count)[j].startIndex, Pages(count)[j].entriesCount)
  {
    PagesTile(count);
  }

  /** DeterminePageState for `pageCount` pages with `current` the current index. */
  function NavigationState(pageCount: nat, current: int): PageNavigationState {
    if pageCount == 0 then PageNavigationState.None
    else if current == 0 then First
    else if current >= pageCount - 1 then Last
    else Middle
  }

  /** For an index within the pages, the state says which buttons move: previous moves
      exactly in Middle and Last, next exactly in Middle and in First when there is a
      second page. */
  lemma NavigationMatchesButtons(pageCount: nat, current: int)
    requires 0 <= current < pageCount
    ensures var state := NavigationState(pageCount, current);
            && state != PageNavigationState.None
            && (current > 0 <==> state in {Middle, Last})
            && (current < pageCount - 1 <==> state == Middle || (state == First && pageCount > 1))
  {
  }

  class PageScreenFeature<S, T> {
    /** The page data service the feature reads from. */
    const service: PageDataService<S, T>
    var pages: seq<Page>
    var currentPageIndex: int
    var totalEntries: int
    /** The calls made on the page screen so far. */
    var screen: seq<ScreenCall<T>>
    /** The events published so far. */
    var published: seq<PageEvent>

    /** The pages are none or those of `totalEntries`, the current index is one of them,
        and while the service knows its count it is the count the pages were built for. */
    ghost predicate Valid()
      reads this`pages, this`currentPageIndex, this`totalEntries, service, service.cache
    {
      && service.Valid()
      && 0 <= currentPageIndex
      && (pages == [] ==> currentPageIndex == 0)
      && (pages != [] ==>
            && currentPageIndex < |pages|
            && totalEntries > 0 && pages == Pages(totalEntries)
            && (forall j :: 0 <= j < |pages| ==> AccessInRange(totalEntries, pages[j].startIndex, pages[j].entriesCount))
            && (service.IsDataAvailableCountValid() ==> service.dataAvailableCount == totalEntries))
    }

    constructor (service: PageDataService<S, T>)
      requires service.Valid()
      ensures Valid() && this.service == service
      ensures pages == [] && currentPageIndex == 0 && totalEntries == 0
      ensures screen == [] && published == []
    {
      this.service := service;
      pages := [];
      currentPageIndex := 0;
      totalEntries := 0;
      screen := [];
      published := [];
    }

    /** GetLastPageIndex (-1 with no pages; the source only logs that case). */
    function GetLastPageIndex(): int
      reads this`pages
    {
      |pages| - 1
    }

    /** DeterminePageState. */
    function DeterminePageState(): PageNavigationState
      reads this`pages, this`currentPageIndex
    {
      NavigationState(|pages|, currentPageIndex)
    }


    /** SetupAndLoadFirstPage, given how the count request and the first page's range
        request end. On a count it shows the pages for it; on a failure it reports the
        setup error. Enabling follows construction or a disable, so there are no pages
        yet. */
    method SetupAndLoadFirstPage(countResponse: Response<int>, pageResponse: Response<seq<T>>)
      requires Valid() && pages == []
      modifies this`pages, this`totalEntries, this`screen, this`published
      modifies service`dataAvailableCount, service`cache
      ensures Valid() && currentPageIndex == 0
      ensures countResponse.Ok? && countResponse.value > 0 ==>
                var count := countResponse.value;
                var outcome := MissOutcome(Pages(count)[0], pageResponse, EmptySlots(count));
                && pages == BuildPages(old(pages), count) && totalEntries == count
                && service.dataAvailableCount == count
                && screen == old(screen) + [SetupScreen(DISPLAY_ENTRIES_COUNT), UpdateScreenControls(First)] + outcome.0
                && published == old(published) + outcome.1 + [InitialPageContentReady]
                && service.cache[..] == outcome.2
      ensures !(countResponse.Ok? && countResponse.value > 0) ==>
                && pages == [] && totalEntries == old(totalEntries) && !service.IsDataAvailableCountValid()
                && screen == old(screen) && published == old(published) + [SetupPageContentError]
    {
      var requested := service.RequestDataAvailableCount(countResponse);
      if requested.Success? {
        ShowPages(requested.value, pageResponse);
      } else {
        published := published + [SetupPageContentError];
      }
    }

    /** The success branch of SetupAndLoadFirstPage: record the count, build its pages,
        set up the screen, go to the first page (a miss on the new cache) and announce
        the content. */
    method ShowPages(count: int, pageResponse: Response<seq<T>>)
      requires service.Valid() && pages == [] && currentPageIndex == 0
      requires count > 0 && service.dataAvailableCount == count && service.cache[..] == EmptySlots(count)
      modifies this`pages, this`totalEntries, this`screen, this`published, service.cache
      ensures Valid()
      ensures var outcome := MissOutcome(Pages(count)[0], pageResponse, EmptySlots(count));
              && pages == Pages(count) && totalEntries == count
              && screen == old(screen) + [SetupScreen(DISPLAY_ENTRIES_COUNT), UpdateScreenControls(First)] + outcome.0
              && published == old(published) + outcome.1 + [InitialPageContentReady]
              && service.cache[..] == outcome.2
    {
      totalEntries := count;
      AddPages(count);
      assert pages == Pages(count) by {
        assert [] + Pages(count) == Pages(count);
      }
      screen := screen + [SetupScreen(DISPLAY_ENTRIES_COUNT)];
      PagesWithin(count);
      EmptySlotsMiss<T>(count, 0, pages[0].entriesCount);
      var shown := GoToPage(0, pageResponse);
      published := published + [if shown.Success? then InitialPageContentReady else SwitchPageContentError];
    }

    /** The two loops of SetupAndLoadFirstPage: append the full pages for `count`
        items, then the page for the remainder. */
    method AddPages(count: nat)
      modifies this`pages
      ensures pages == BuildPages(old(pages), count)
    {
      var lastPageEntries := count % DISPLAY_ENTRIES_COUNT;
      var totalPages := count / DISPLAY_ENTRIES_COUNT;
      var entryIndex := 0;
      var pageIndex := 0;
      while pageIndex < totalPages
        invariant 0 <= pageIndex <= totalPages
        invariant entryIndex == DISPLAY_ENTRIES_COUNT * pageIndex
        invariant pages == old(pages) + FullPages(pageIndex)
      {
        pages := pages + [Page(entryIndex, DISPLAY_ENTRIES_COUNT)];
        entryIndex := entryIndex + DISPLAY_ENTRIES_COUNT;
        pageIndex := pageIndex + 1;
      }
      if lastPageEntries > 0 {
        pages := pages + [Page(count - lastPageEntries, lastPageEntries)];
      }
    }

    /** OnPreviousPageButtonClicked: go back a page unless on the first, and show that
        page as GoToPage does; an exception out of GoToPage is dropped by Forget. */
    method OnPreviousPageButtonClicked(response: Response<seq<T>>)
      requires Valid()
      modifies this`currentPageIndex, this`screen, this`published, service.cache
      ensures Valid() && pages == old(pages)
      ensures currentPageIndex == if old(currentPageIndex) > 0 then old(currentPageIndex) - 1 else old(currentPageIndex)
      ensures old(currentPageIndex) == 0 ==>
                screen == old(screen) && published == old(published) && service.cache[..] == old(service.cache[..])
      ensures old(currentPageIndex) > 0 && service.IsDataAvailableCountValid() ==>
                var outcome := GoToOutcome(DeterminePageState(), pages[currentPageIndex], response, old(service.cache[..]));
                && screen == old(screen) + outcome.0 && published == old(published) + outcome.1
                && service.cache[..] == outcome.2
      ensures old(currentPageIndex) > 0 && !service.IsDataAvailableCountValid() ==>
                && screen == old(screen) + [UpdateScreenControls(DeterminePageState())]
                && published == old(published) && service.cache[..] == old(service.cache[..])
    {
      if currentPageIndex > 0 {
        currentPageIndex := currentPageIndex - 1;
        var shown := GoToPage(currentPageIndex, response);
      }
    }

    /** OnNextPageButtonClicked: go forward a page unless on the last, and show that
        page as GoToPage does; an exception out of GoToPage is dropped by Forget. */
    method OnNextPageButtonClicked(response: Response<seq<T>>)
      requires Valid()
      modifies this`currentPageIndex, this`screen, this`published, service.cache
      ensures Valid() && pages == old(pages)
      ensures currentPageIndex == if old(currentPageIndex) < |pages| - 1 then old(currentPageIndex) + 1 else old(currentPageIndex)
      ensures old(currentPageIndex) >= |pages| - 1 ==>
                screen == old(screen) && published == old(published) && service.cache[..] == old(service.cache[..])
      ensures old(currentPageIndex) < |pages| - 1 && service.IsDataAvailableCountValid() ==>
                var outcome := GoToOutcome(DeterminePageState(), pages[currentPageIndex], response, old(service.cache[..]));
                && screen == old(screen) + outcome.0 && published == old(published) + outcome.1
                && service.cache[..] == outcome.2
      ensures old(currentPageIndex) < |pages| - 1 && !service.IsDataAvailableCountValid() ==>
                && screen == old(screen) + [UpdateScreenControls(DeterminePageState())]
                && published == old(published) && service.cache[..] == old(service.cache[..])
    {
      if currentPageIndex < GetLastPageIndex() {
        currentPageIndex := currentPageIndex + 1;
        var shown := GoToPage(currentPageIndex, response);
      }
    }

    /** OnFeatureDisable with the page list cleared as well, so that the next enable
        starts from no pages. */
    method OnFeatureDisable()
      requires service.Valid()
      modifies this`pages, this`currentPageIndex, this`totalEntries, service`dataAvailableCount, service`cache
      ensures Valid() && pages == [] && currentPageIndex == 0 && totalEntries == 0
      ensures service.dataAvailableCount == INVALID_CACHE && service.cache.Length == 0
    {
      service.InvalidateCache();
      currentPageIndex := 0;
      totalEntries := 0;
      pages := [];
    }

    /** OnFeatureDisable as the source has it: the cache is invalidated and the index and
        total reset, but the pages of the last enable stay in the list. */
    method OnFeatureDisableAsWritten()
      requires service.Valid()
      modifies this`currentPageIndex, this`totalEntries, service`dataAvailableCount, service`cache
      ensures pages == old(pages) && currentPageIndex == 0 && totalEntries == 0
      ensures service.Valid() && service.dataAvailableCount == INVALID_CACHE && service.cache.Length == 0
    {
      service.InvalidateCache();
      currentPageIndex := 0;
      totalEntries := 0;
    }

    /** GoToPage(pageIndex): update the controls, then read the page from the cache; on
        a hit show it whole, on a miss request it. A read without a count throws out of
        GoToPage. */
    method GoToPage(pageIndex: int, response: Response<seq<T>>) returns (r: Result<(), ServiceError>)
      requires Valid() && 0 <= pageIndex < |pages|
      modifies this`screen, this`published, service.cache
      ensures Valid()
      ensures r.Failure? <==> !service.IsDataAvailableCountValid()
      ensures r.Failure? ==>
                && r.error == DataUnavailable
                && screen == old(screen) + [UpdateScreenControls(DeterminePageState())]
                && published == old(published) && service.cache[..] == old(service.cache[..])
      ensures r.Success? ==>
                var page := pages[pageIndex];
                var pageSlots := old(service.cache[page.startIndex..page.startIndex + page.entriesCount]);
                AllValid(pageSlots) ==>
                && screen == old(screen) + [UpdateScreenControls(DeterminePageState()), PreformFullPageTransition(pageSlots)]
                && published == old(published) && service.cache[..] == old(service.cache[..])
      ensures r.Success? ==>
                var page := pages[pageIndex];
                var pageSlots := old(service.cache[page.startIndex..page.startIndex + page.entriesCount]);
                !AllValid(pageSlots) ==>
                var outcome := MissOutcome(page, response, old(service.cache[..]));
                && screen == old(screen) + [UpdateScreenControls(DeterminePageState())] + outcome.0
                && published == old(published) + outcome.1
                && service.cache[..] == outcome.2
    {
      screen := screen + [UpdateScreenControls(DeterminePageState())];
      var page := pages[pageIndex];
      var got := service.TryGetPageData(page.startIndex, page.entriesCount);
      if got.Failure? {
        return Failure(got.error);
      }
      if got.value.0 {
        screen := screen + [PreformFullPageTransition(got.value.1)];
      } else {
        RequestPage(page, response);
      }
      r := Success(());
    }

    /** The miss branch of GoToPage: start the transition, ask the server for the page,
        then finish the transition with the page or report an error unless the request
        was cancelled. */
    method RequestPage(page: Page, response: Response<seq<T>>)
      requires service.Valid() && service.IsDataAvailableCountValid()
      requires AccessInRange(service.dataAvailableCount, page.startIndex, page.entriesCount)
      modifies this`screen, this`published, service.cache
      ensures service.Valid()
      ensures var outcome := MissOutcome(page, response, old(service.cache[..]));
              screen == old(screen) + outcome.0 && published == old(published) + outcome.1 &&
              service.cache[..] == outcome.2
    {
      screen := screen + [InitiatePageTransition];
      var requested := service.TryRequestPageData(page.startIndex, page.entriesCount, response);
      if requested.Success? {
        screen := screen + [FinalizePageTransition(requested.value)];
      } else if requested.error != OperationCanceled {
        published := published + [SwitchPageContentError];
      }
    }
  }

  /** The page list after the loops of SetupAndLoadFirstPage run on `pages`: they
      append the pages for `count` to whatever the list holds. */
  function BuildPages(pages: seq<Page>, count: nat): seq<Page>
  {
    pages + Pages(count)
  }

  /** After OnFeatureDisable as written, re-enabling with 3 items keeps the two pages of
      an earlier enable with 10: page 0 asks for items [0, 5) of 3, and next reaches a
      third page. */
  lemma StalePagesAfterReenable()
    ensures var pages := BuildPages(Pages(10), 3);
            && |pages| == 3 && pages != Pages(3)
            && pages[0] == Page(0, 5) && !AccessInRange(3, pages[0].startIndex, pages[0].entriesCount)
  {
    assert FullPages(2) == [Page(0, 5), Page(5, 5)];
  }

  /** With the list cleared on disable, every enable builds exactly the pages of its own
      count, and they lie within it. */
  lemma ClearedPagesAfterReenable(count: nat)
    ensures BuildPages([], count) == Pages(count)
    ensures forall j :: 0 <= j < |Pages(count)| ==>
              AccessInRange(count, Pages(count)[j].startIndex, Pages(count)[j].entriesCount)
  {
    assert [] + Pages(count) == Pages(count);
    PagesWithin(count);
  }

  /** What GoToPage leaves behind for `page` when the count is known, with `state` the
      navigation state it shows: the controls, then the page at once on a hit, or the
      miss as MissOutcome gives it. */
  function GoToOutcome<T>(state: PageNavigationState, page: Page, response: Response<seq<T>>, before: seq<Slot<T>>)
    : (seq<ScreenCall<T>>, seq<PageEvent>, seq<Slot<T>>)
    requires AccessInRange(|before|, page.startIndex, page.entriesCount)
  {
    var slots := before[page.startIndex..page.startIndex + page.entriesCount];
    if AllValid(slots) then
      ([UpdateScreenControls(state), PreformFullPageTransition(slots)], [], before)
    else
      var miss := MissOutcome(page, response, before);
      ([UpdateScreenControls(state)] + miss.0, miss.1, miss.2)
  }

  /** Coming back to a page that was shown (from the cache, or from a server answer that
      filled it) shows it at once from the cache, with no request, no event and the
      cache unchanged, and it shows the slots the first visit ended on. */
  lemma RevisitHits<T>(state: PageNavigationState, state': PageNavigationState, page: Page,
                       items: seq<T>, response': Response<seq<T>>, before: seq<Slot<T>>)
    requires AccessInRange(|before|, page.startIndex, page.entriesCount)
    requires |items| == page.entriesCount > 0
    ensures var first := GoToOutcome(state, page, Ok(items), before);
            var after := first.2;
            var slots := after[page.startIndex..page.startIndex + page.entriesCount];
            && GoToOutcome(state', page, response', after) == ([UpdateScreenControls(state'), PreformFullPageTransition(slots)], [], after)
            && first.0[|first.0| - 1] == (if AllValid(before[page.startIndex..page.startIndex + page.entriesCount])
                                          then PreformFullPageTransition(slots) else FinalizePageTransition(slots))
  {
    var start, n := page.startIndex, page.entriesCount;
    if !AllValid(before[start..start + n]) {
      FetchedRangeHits(before, start, items);
    }
  }

  /** What a cache miss on `page` leaves behind, given the server's answer and the
      cache before: the new screen calls, the new events and the cache after. A
      non-empty answer that fits is written into the cache and shown; a longer one is
      written up to the page's end and reported; anything else is reported unless it
      was a cancellation, and leaves the cache alone. */
  function MissOutcome<T>(page: Page, response: Response<seq<T>>, before: seq<Slot<T>>)
    : (seq<ScreenCall<T>>, seq<PageEvent>, seq<Slot<T>>)
    requires AccessInRange(|before|, page.startIndex, page.entriesCount)
  {
    var start, n := page.startIndex, page.entriesCount;
    if response.Ok? && 0 < |response.value| <= n then
      var after := Merged(before, start, response.value);
      ([InitiatePageTransition, FinalizePageTransition(after[start..start + n])], [], after)
    else
      ( [InitiatePageTransition],
        if response.Cancelled? then [] else [SwitchPageContentError],
        if response.Ok? && |response.value| > n then Merged(before, start, response.value[..n]) else before)
  }
}
