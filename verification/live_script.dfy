/** scripts/run-live-analysis.js, the command-line variant: argument parsing
    with `getArg`, one plain request per listing page and per search (no
    retries), English sentinel text, a failed search leaves its bucket as it
    was, and a 500 ms pause follows every group. */
module LiveScript {
  import opened Wrappers
  import opened Vacancy
  import opened Retry
  import opened Pagination
  import opened Grouping
  import opened Tracking

  const NotFoundText := "Not found in top 100"
  const FetchFailedPrefix := "Failed to fetch vacancies from hh.ru: "
  const PacingDelay := 500

  const ScriptPolicy := Policy(NotFoundText, LeaveUntouched)

  // ---- getArg ----

  predicate StartsWith(s: string, prefix: string) {
    |prefix| <= |s| && s[..|prefix|] == prefix
  }

  /** Index of the first `c` in `s`, or `|s|` when there is none. */
  function IndexOf(s: string, c: char): (i: nat)
    ensures i <= |s|
    ensures i < |s| ==> s[i] == c
    ensures forall k :: 0 <= k < i ==> s[k] != c
  {
    if |s| == 0 then 0 else if s[0] == c then 0 else 1 + IndexOf(s[1..], c)
  }

  /** `s.split('=')[1]` for a string holding at least one '='. */
  function SecondField(s: string): string
    requires '=' in s
  {
    var i := IndexOf(s, '=');
    var rest := s[i + 1..];
    rest[..IndexOf(rest, '=')]
  }

  predicate NoEquals(t: string) {
    forall k :: 0 <= k < |t| ==> t[k] != '='
  }

  /** `s[i]` is the first '=' of `s`, and `v` is the text after it, up to the
      next '=' or the end. */
  predicate FieldAfter(s: string, i: nat, v: string) {
    && i < |s| && s[i] == '=' && NoEquals(s[..i])
    && i + 1 + |v| <= |s| && s[i + 1..i + 1 + |v|] == v && NoEquals(v)
    && (i + 1 + |v| == |s| || s[i + 1 + |v|] == '=')
  }

  /** `v` is the second '='-separated field of `s`. */
  ghost predicate IsSecondField(s: string, v: string) {
    exists i :: FieldAfter(s, i, v)
  }

  lemma NoEqualsBeforeFirst(t: string)
    ensures NoEquals(t[..IndexOf(t, '=')])
  {
    var i := IndexOf(t, '=');
    assert forall k :: 0 <= k < i ==> t[..i][k] == t[k];
  }

  lemma FieldOfSplit(s: string, i: nat, j: nat)
    requires i < |s| && s[i] == '=' && NoEquals(s[..i])
    requires i + 1 + j <= |s| && NoEquals(s[i + 1..i + 1 + j])
    requires i + 1 + j == |s| || s[i + 1 + j] == '='
    ensures FieldAfter(s, i, s[i + 1..i + 1 + j])
  {
  }

  lemma SecondFieldIsSecond(s: string)
    requires '=' in s
    ensures FieldAfter(s, IndexOf(s, '='), SecondField(s))
  {
    var i := IndexOf(s, '=');
    var rest := s[i + 1..];
    var j := IndexOf(rest, '=');
    NoEqualsBeforeFirst(s);
    NoEqualsBeforeFirst(rest);
    assert rest[..j] == s[i + 1..i + 1 + j];
    assert j < |rest| ==> s[i + 1 + j] == rest[j];
    FieldOfSplit(s, i, j);
  }

  /** A string has at most one second field. */
  lemma SecondFieldUnique(s: string, i: nat, v: string, j: nat, w: string)
    requires FieldAfter(s, i, v) && FieldAfter(s, j, w)
    ensures i == j && v == w
  {
  }

  /** Index of the first argument that starts with `prefix`, or `|argv|`. */
  function FindArg(argv: seq<string>, prefix: string): (k: nat)
    ensures k <= |argv|
    ensures k < |argv| ==> StartsWith(argv[k], prefix)
    ensures forall j :: 0 <= j < k ==> !StartsWith(argv[j], prefix)
  {
    if |argv| == 0 then 0
    else if StartsWith(argv[0], prefix) then 0
    else 1 + FindArg(argv[1..], prefix)
  }

  /** `getArg(name)`: `None` when no argument starts with `name=`, otherwise the
      second '='-field of the first argument that does. */
  function GetArg(argv: seq<string>, name: string): (r: Option<string>)
    ensures r.None? <==> forall k :: 0 <= k < |argv| ==> !StartsWith(argv[k], name + "=")
    ensures r.Some? ==>
      (exists k :: 0 <= k < |argv| && StartsWith(argv[k], name + "=") &&
         (forall j :: 0 <= j < k ==> !StartsWith(argv[j], name + "=")) &&
         IsSecondField(argv[k], r.value))
  {
    var k := FindArg(argv, name + "=");
    if k == |argv| then None
    else
      var a := argv[k];
      assert a[|name|] == '=';
      SecondFieldIsSecond(a);
      Some(SecondField(a))
  }

  /** For a name without '=' the value ends at the next '=': with arguments
      `--jobId=a=b`, `getArg('--jobId')` is "a". Earlier arguments that do not
      start with `name=` are passed over. */
  lemma GetArgStopsAtSecondEquals(before: seq<string>, name: string, v: string, tail: string)
    requires forall k :: 0 <= k < |before| ==> !StartsWith(before[k], name + "=")
    requires NoEquals(name) && NoEquals(v)
    ensures GetArg(before + [name + "=" + v + "=" + tail], name) == Some(v)
  {
    var argv := before + [name + "=" + v + "=" + tail];
    var a := argv[|before|];
    assert a[..|name + "="|] == name + "=";
    assert FindArg(argv, name + "=") == |before|;
    SecondFieldIsSecond(a);
    assert FieldAfter(a, |name|, v) by {
      assert a[..|name|] == name;
      assert a[|name| + 1..|name| + 1 + |v|] == v;
    }
    SecondFieldUnique(a, IndexOf(a, '='), SecondField(a), |name|, v);
  }

  // ---- fetchAllVacanciesForCompany ----

  /** One plain request for a page; its error is rethrown wrapped, message kept. */
  function PageFetchOf(o: Outcome<Page>): (f: PageFetch)
    ensures f.Fetched? <==> o.Success?
    ensures f.Fetched? ==> f.page == o.resp
    ensures f.FetchError? ==> f.message == FetchFailedPrefix + o.fault.message
  {
    match o
    case Success(page) => Fetched(page)
    case Failed(fault) => FetchError(FetchFailedPrefix + fault.message)
  }

  /** `fetchAllVacanciesForCompany`: `outcomes[p]` is what the request for page `p` gets back. */
  function FetchAllVacanciesForCompany(outcomes: seq<Outcome<Page>>): (w: Walk)
    ensures w.WalkFailed? ==>
      (exists p :: 0 <= p < |outcomes| && outcomes[p].Failed? &&
         w.message == FetchFailedPrefix + outcomes[p].fault.message)
    ensures w.Walked? ==>
      && w.requests <= |outcomes|
      && forall p :: 0 <= p < w.requests ==> outcomes[p].Success?
    ensures w == WalkAll(seq(|outcomes|, p requires 0 <= p < |outcomes| => PageFetchOf(outcomes[p])))
  {
    var fetched := seq(|outcomes|, p requires 0 <= p < |outcomes| => PageFetchOf(outcomes[p]));
    var w := WalkAll(fetched);
    assert forall p :: 0 <= p < |fetched| ==> fetched[p] == PageFetchOf(outcomes[p]);
    w
  }

  // ---- trackPositions ----

  function SearchOutcome(o: Outcome<SearchPage>): (r: Option<SearchPage>)
    ensures r.Some? <==> o.Success?
    ensures r.Some? ==> r.value == o.resp
  {
    match o
    case Success(s) => Some(s)
    case Failed(_) => None
  }

  /** `trackPositions`: `searches[b]` is what bucket `b`'s single search gets back. */
  function TrackPositions(ps: seq<Posting>, searches: seq<Outcome<SearchPage>>): (t: Tracked)
    requires |searches| == |Group(ps)|
    ensures |t.postings| == |ps|
    ensures forall i :: 0 <= i < |ps| && !Groupable(ps[i]) ==> t.postings[i] == ps[i]
    ensures forall b, j :: 0 <= b < |Group(ps)| && 0 <= j < |Group(ps)[b].members| ==>
      var m := Group(ps)[b].members[j];
      match searches[b]
      case Success(s) =>
        t.postings[m] == ps[m].(position := RankPosition(s.ids, ps[m].id, NotFoundText),
                                competitorsCount := Some(s.found))
      case Failed(_) => t.postings[m] == ps[m]
    ensures |t.pacing| == |Group(ps)|
    ensures forall k :: 0 <= k < |t.pacing| ==> t.pacing[k] == PacingDelay
  {
    var gs := Group(ps);
    var outcomes := seq(|searches|, b requires 0 <= b < |searches| => SearchOutcome(searches[b]));
    Tracked(Track(ps, outcomes, ScriptPolicy), seq(|gs|, _ => PacingDelay))
  }
}
