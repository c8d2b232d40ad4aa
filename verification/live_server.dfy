/** run-live-analysis.js, the HTTP-server variant: every job-board request goes
    through `makeRequestWithRetries` with its defaults (5 attempts, 1000 ms
    base delay); a failed search marks its bucket with Russian sentinels; the
    500 ms pause is taken between groups only. */
module LiveServer {
  import opened Wrappers
  import opened Vacancy
  import opened Retry
  import opened Pagination
  import opened Grouping
  import opened Tracking

  const NotFoundText := "Не найдено в топ-100"
  const SearchFailedText := "Ошибка поиска"
  const FetchFailedMessage := "Не удалось получить вакансии с hh.ru после всех попыток."
  const PacingDelay := 500

  const ServerPolicy := Policy(NotFoundText, MarkFailed(SearchFailedText, 0))

  /** One request with the default retry budget. */
  function Request<R>(script: seq<Outcome<R>>): (run: RetryRun<R>)
    requires |script| >= DefaultRetries
    ensures Explains(script, DefaultRetries, DefaultBaseDelay, run)
  {
    MakeRequestWithRetries(script, DefaultRetries, DefaultBaseDelay)
  }

  /** The body of the listing loop for one page: anything but a returned
      response is caught and replaced by the one fixed wrapped error. */
  function PageFetchOf(script: seq<Outcome<Page>>): (f: PageFetch)
    requires |script| >= DefaultRetries
    ensures f.Fetched? <==> Request(script).result.Returned?
    ensures f.Fetched? ==> f.page == Request(script).result.resp
    ensures f.FetchError? ==> f.message == FetchFailedMessage
  {
    match Request(script).result
    case Returned(page) => Fetched(page)
    case _ => FetchError(FetchFailedMessage)
  }

  /** `fetchAllVacanciesForCompany`: `pageScripts[p]` is what the attempts for
      page `p` get back. */
  function FetchAllVacanciesForCompany(pageScripts: seq<seq<Outcome<Page>>>): (w: Walk)
    requires forall p :: 0 <= p < |pageScripts| ==> |pageScripts[p]| >= DefaultRetries
    ensures w.WalkFailed? ==> w.message == FetchFailedMessage
    ensures w.Walked? ==>
      && w.requests <= |pageScripts|
      && forall p :: 0 <= p < w.requests ==> Request(pageScripts[p]).result.Returned?
    ensures w == WalkAll(seq(|pageScripts|, p requires 0 <= p < |pageScripts| => PageFetchOf(pageScripts[p])))
  {
    var fetched := seq(|pageScripts|, p requires 0 <= p < |pageScripts| => PageFetchOf(pageScripts[p]));
    var w := WalkAll(fetched);
    assert w.Walked? ==> forall p :: 0 <= p < w.requests ==> fetched[p].Fetched? && fetched[p] == PageFetchOf(pageScripts[p]);
    w
  }

  /** A search's answer as the fan-out sees it: `None` when the call threw. */
  function SearchOutcome(script: seq<Outcome<SearchPage>>): (o: Option<SearchPage>)
    requires |script| >= DefaultRetries
    ensures o.Some? <==> Request(script).result.Returned?
    ensures o.Some? ==> o.value == Request(script).result.resp
  {
    match Request(script).result
    case Returned(s) => Some(s)
    case _ => None
  }

  /** `if (groupIndex < groupedVacancies.size) await sleep(500)` over all groups. */
  function Pacing(groups: nat, index: nat): (sleeps: seq<int>)
    requires 1 <= index
    ensures |sleeps| == if index <= groups then groups - index else 0
    ensures forall k :: 0 <= k < |sleeps| ==> sleeps[k] == PacingDelay
    decreases groups - index + 1
  {
    if index > groups then []
    else if index < groups then [PacingDelay] + Pacing(groups, index + 1)
    else Pacing(groups, index + 1)
  }

  /** `trackPositions`: `searches[b]` is what the attempts of bucket `b`'s search get back. */
  function TrackPositions(ps: seq<Posting>, searches: seq<seq<Outcome<SearchPage>>>): (t: Tracked)
    requires |searches| == |Group(ps)|
    requires forall b :: 0 <= b < |searches| ==> |searches[b]| >= DefaultRetries
    ensures |t.postings| == |ps|
    ensures forall i :: 0 <= i < |ps| && !Groupable(ps[i]) ==> t.postings[i] == ps[i]
    ensures forall b, j :: 0 <= b < |Group(ps)| && 0 <= j < |Group(ps)[b].members| ==>
      var m := Group(ps)[b].members[j];
      match Request(searches[b]).result
      case Returned(s) =>
        t.postings[m] == ps[m].(position := RankPosition(s.ids, ps[m].id, NotFoundText),
                                competitorsCount := Some(s.found))
      case _ =>
        t.postings[m] == ps[m].(position := Label(SearchFailedText), competitorsCount := Some(0))
    ensures |t.pacing| == (if |Group(ps)| == 0 then 0 else |Group(ps)| - 1)
    ensures forall k :: 0 <= k < |t.pacing| ==> t.pacing[k] == PacingDelay
  {
    var gs := Group(ps);
    var outcomes := seq(|searches|, b requires 0 <= b < |searches| => SearchOutcome(searches[b]));
    Tracked(Track(ps, outcomes, ServerPolicy), Pacing(|gs|, 1))
  }
}
