/** The listing walk shared by both variants of `fetchAllVacanciesForCompany`:
    request pages 0, 1, 2, ... until a page comes back empty or the reported
    page total equals the number of pages consumed, concatenating the mapped
    items in order. How a page is fetched (with or without retries) and how a
    failure is worded differ per variant; they reach this walk already decided,
    as one `PageFetch` per page index. */
module Pagination {
  import opened Vacancy

  /** What the body of the loop got for one page index: the page, or the
      message of the single wrapped error it throws. */
  datatype PageFetch = Fetched(page: Page) | FetchError(message: string)

  /** How the walk ends: the posting list and the number of page requests; a
      wrapped error (no partial list); or, since the script of pages is finite,
      a request for a page index the script does not cover. */
  datatype Walk = Walked(postings: seq<Posting>, requests: nat) | WalkFailed(message: string) | ScriptExhausted

  /** After page `k` the loop goes on to page `k + 1`. */
  predicate Continues(fetched: seq<PageFetch>, k: nat)
    requires k < |fetched|
  {
    fetched[k].Fetched? && |fetched[k].page.items| > 0 && fetched[k].page.pages != k + 1
  }

  predicate AllFetched(fetched: seq<PageFetch>, lo: nat, hi: nat)
    requires lo <= hi <= |fetched|
  {
    forall k :: lo <= k < hi ==> fetched[k].Fetched?
  }

  /** Reference definition: the items of pages `lo .. hi-1`, concatenated in page order. */
  function ItemsBetween(fetched: seq<PageFetch>, lo: nat, hi: nat): seq<RawItem>
    requires lo <= hi <= |fetched| && AllFetched(fetched, lo, hi)
    decreases hi - lo
  {
    if lo == hi then [] else ItemsBetween(fetched, lo, hi - 1) + fetched[hi - 1].page.items
  }

  lemma {:induction false} ItemsBetweenFront(fetched: seq<PageFetch>, lo: nat, hi: nat)
    requires lo < hi <= |fetched| && AllFetched(fetched, lo, hi)
    ensures ItemsBetween(fetched, lo, hi) == fetched[lo].page.items + ItemsBetween(fetched, lo + 1, hi)
    decreases hi - lo
  {
    if lo + 1 < hi {
      ItemsBetweenFront(fetched, lo, hi - 1);
      var head, mid, tail := fetched[lo].page.items, ItemsBetween(fetched, lo + 1, hi - 1), fetched[hi - 1].page.items;
      calc {
        ItemsBetween(fetched, lo, hi);
        ItemsBetween(fetched, lo, hi - 1) + tail;
        (head + mid) + tail;
        { assert (head + mid) + tail == head + (mid + tail); }
        head + (mid + tail);
        head + ItemsBetween(fetched, lo + 1, hi);
      }
    } else {
      assert ItemsBetween(fetched, lo + 1, hi) == [];
      assert ItemsBetween(fetched, lo, hi) == [] + fetched[lo].page.items;
    }
  }

  /** The walk from page index `page` on. */
  function WalkFrom(fetched: seq<PageFetch>, page: nat): (w: Walk)
    requires page <= |fetched|
    ensures w.Walked? ==>
      && page < w.requests <= |fetched|
      && (forall k :: page <= k < w.requests - 1 ==> Continues(fetched, k))
      && fetched[w.requests - 1].Fetched? && !Continues(fetched, w.requests - 1)
      && AllFetched(fetched, page, w.requests)
      && w.postings == MapItems(ItemsBetween(fetched, page, w.requests))
    ensures w.WalkFailed? ==>
      exists k :: page <= k < |fetched| && fetched[k] == FetchError(w.message) &&
        forall j :: page <= j < k ==> Continues(fetched, j)
    ensures w.ScriptExhausted? ==> forall k :: page <= k < |fetched| ==> Continues(fetched, k)
    decreases |fetched| - page
  {
    if page == |fetched| then ScriptExhausted
    else match fetched[page]
      case FetchError(message) => WalkFailed(message)
      case Fetched(pg) =>
        if |pg.items| == 0 then Walked([], page + 1)
        else if pg.pages == page + 1 then Walked(MapItems(pg.items), page + 1)
        else
          var rest := WalkFrom(fetched, page + 1);
          if rest.Walked? then
            ItemsBetweenFront(fetched, page, rest.requests);
            MapItemsAppend(pg.items, ItemsBetween(fetched, page + 1, rest.requests));
            Walked(MapItems(pg.items) + rest.postings, rest.requests)
          else rest
  }

  /** The whole walk, from page 0. */
  function WalkAll(fetched: seq<PageFetch>): (w: Walk)
    ensures w.Walked? ==>
      && 1 <= w.requests <= |fetched|
      && (forall k :: 0 <= k < w.requests - 1 ==> Continues(fetched, k))
      && fetched[w.requests - 1].Fetched? && !Continues(fetched, w.requests - 1)
      && AllFetched(fetched, 0, w.requests)
      && w.postings == MapItems(ItemsBetween(fetched, 0, w.requests))
    ensures w.WalkFailed? ==>
      exists k :: 0 <= k < |fetched| && fetched[k] == FetchError(w.message) &&
        forall j :: 0 <= j < k ==> Continues(fetched, j)
    ensures w.ScriptExhausted? ==> forall k :: 0 <= k < |fetched| ==> Continues(fetched, k)
  {
    WalkFrom(fetched, 0)
  }

  /** Every posting of a finished walk is fresh: title, position and count unset. */
  lemma WalkedPostingsAreFresh(fetched: seq<PageFetch>)
    requires WalkAll(fetched).Walked?
    ensures forall p :: p in WalkAll(fetched).postings ==> Unannotated(p)
  {
  }

  function FullPage(n: nat, pages: int): Page {
    Page(seq(n, i => RawItem(i, "", "", 1, "fullDay", "")), pages)
  }

  /** Pages of 100, 100 and 37 items with a reported total of 3: three requests,
      237 postings. */
  lemma ThreePagesExample()
    ensures var w := WalkAll([Fetched(FullPage(100, 3)), Fetched(FullPage(100, 3)), Fetched(FullPage(37, 3))]);
            w.Walked? && w.requests == 3 && |w.postings| == 237
  {
    var fetched := [Fetched(FullPage(100, 3)), Fetched(FullPage(100, 3)), Fetched(FullPage(37, 3))];
    assert Continues(fetched, 0) && Continues(fetched, 1) && !Continues(fetched, 2);
    assert |ItemsBetween(fetched, 0, 3)| == 237;
  }

  /** An empty first page ends the walk after one request with no postings,
      whatever the page total says. */
  lemma EmptyFirstPage(fetched: seq<PageFetch>)
    requires |fetched| >= 1 && fetched[0].Fetched? && |fetched[0].page.items| == 0
    ensures WalkAll(fetched) == Walked([], 1)
  {
  }
}
