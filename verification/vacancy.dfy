/** The records both pipeline variants pass from stage to stage: the job-board
    items as the listing endpoint returns them, the postings built from them,
    and the search endpoint's answer. */
module Vacancy {
  import opened Wrappers

  /** One element of the listing endpoint's `items[]`, with `id` and `area.id`
      already converted to integers. */
  datatype RawItem = RawItem(
    id: int,
    name: string,
    areaName: string,
    areaId: int,
    scheduleId: string,
    alternateUrl: string)

  /** One page of the listing endpoint: its items and the reported page total. */
  datatype Page = Page(items: seq<RawItem>, pages: int)

  /** One page of the search endpoint: the total match count and the ids of the
      returned postings, most relevant first. */
  datatype SearchPage = SearchPage(found: int, ids: seq<int>)

  /** The `position` field, which the scripts fill with `null`, a rank number
      or a sentinel text. */
  datatype Position = Unset | Rank(rank: int) | Label(text: string)

  /** One vacancy under analysis. `None` stands for JavaScript's `null`. */
  datatype Posting = Posting(
    id: int,
    rawTitle: string,
    normalizedTitle: Option<string>,
    areaName: string,
    areaId: int,
    scheduleId: string,
    url: string,
    position: Position,
    competitorsCount: Option<int>)

  /** A fresh posting: the fields later stages fill in start out as `null`. */
  predicate Unannotated(p: Posting) {
    p.normalizedTitle == None && p.position == Unset && p.competitorsCount == None
  }

  /** The posting `item` becomes: identity and scoping fields are copied. */
  predicate BuiltFrom(p: Posting, item: RawItem) {
    && p.id == item.id
    && p.rawTitle == item.name
    && p.areaName == item.areaName
    && p.areaId == item.areaId
    && p.scheduleId == item.scheduleId
    && p.url == item.alternateUrl
    && Unannotated(p)
  }

  function FromRaw(item: RawItem): (p: Posting)
    ensures BuiltFrom(p, item)
  {
    Posting(item.id, item.name, None, item.areaName, item.areaId, item.scheduleId,
            item.alternateUrl, Unset, None)
  }

  /** The `items.map(v => ({ ... }))` step of the listing walk. */
  function MapItems(items: seq<RawItem>): (ps: seq<Posting>)
    ensures |ps| == |items|
    ensures forall i :: 0 <= i < |items| ==> BuiltFrom(ps[i], items[i])
  {
    seq(|items|, i requires 0 <= i < |items| => FromRaw(items[i]))
  }

  lemma MapItemsAppend(a: seq<RawItem>, b: seq<RawItem>)
    ensures MapItems(a + b) == MapItems(a) + MapItems(b)
  {
    assert forall i :: 0 <= i < |a + b| ==> MapItems(a + b)[i] == (MapItems(a) + MapItems(b))[i];
  }
}
