/** The fan-out half of `trackPositions`, shared by both variants: each
    bucket's single search answer is written back to every member. The two
    variants differ only in the "not in the top 100" text and in what a failed
    search does to the bucket, which a `Policy` records. */
module Tracking {
  import opened Wrappers
  import opened Vacancy
  import opened Grouping
  import JsMap

  /** What a failed search does to every member of its bucket: write a
      sentinel position and count, or leave the members as they were. */
  datatype FailurePolicy = MarkFailed(text: string, count: int) | LeaveUntouched

  datatype Policy = Policy(notFound: string, onFailure: FailurePolicy)

  /** `items.map((item, index) => [item.id, index + 1])`. */
  function RankEntries(ids: seq<int>): (entries: seq<(int, int)>)
    ensures |entries| == |ids|
    ensures forall i :: 0 <= i < |ids| ==> entries[i] == (ids[i], i + 1)
  {
    seq(|ids|, i requires 0 <= i < |ids| => (ids[i], i + 1))
  }

  /** `positionMap.get(id) || notFound`. A rank is at least 1, so never falsy:
      the text is used exactly when the id is absent from the result list. A
      repeated id gets the rank of its last occurrence. */
  function RankPosition(ids: seq<int>, id: int, notFound: string): (pos: Position)
    ensures pos.Rank? <==> id in ids
    ensures pos.Rank? ==>
      && 1 <= pos.rank <= |ids|
      && ids[pos.rank - 1] == id
      && forall k :: pos.rank <= k < |ids| ==> ids[k] != id
    ensures !pos.Rank? ==> pos == Label(notFound)
  {
    var m := JsMap.FromEntries(RankEntries(ids));
    RankMapFacts(ids, id, m);
    if id in m then Rank(m[id]) else Label(notFound)
  }

  /** The map holds `id` exactly when the list does, and then keeps the
      1-based index of its last occurrence. */
  lemma RankMapFacts(ids: seq<int>, id: int, m: map<int, int>)
    requires m == JsMap.FromEntries(RankEntries(ids))
    ensures id in m <==> id in ids
    ensures id in m ==> 1 <= m[id] <= |ids| && ids[m[id] - 1] == id
    ensures id in m ==> forall k :: m[id] <= k < |ids| ==> ids[k] != id
  {
    if id in m {
      LastEntryRank(ids, id, m);
    } else {
      AbsentIdHasNoEntry(ids, id, m);
    }
  }

  lemma LastEntryRank(ids: seq<int>, id: int, m: map<int, int>)
    requires m == JsMap.FromEntries(RankEntries(ids)) && id in m
    ensures 1 <= m[id] <= |ids| && ids[m[id] - 1] == id
    ensures forall k :: m[id] <= k < |ids| ==> ids[k] != id
  {
    var entries := RankEntries(ids);
    assert JsMap.IsLastEntry(entries, id, m[id]);
    var j :| 0 <= j < |entries| && entries[j] == (id, m[id]) &&
      forall j' :: j < j' < |entries| ==> entries[j'].0 != id;
    assert m[id] == j + 1;
    assert forall k :: j + 1 <= k < |ids| ==> entries[k].0 == ids[k];
  }

  /** An id without a map entry does not occur in the result list. */
  lemma AbsentIdHasNoEntry(ids: seq<int>, id: int, m: map<int, int>)
    requires m == JsMap.FromEntries(RankEntries(ids)) && id !in m
    ensures id !in ids
  {
    var entries := RankEntries(ids);
    assert forall k :: 0 <= k < |ids| ==> entries[k].0 == ids[k];
  }

  /** What `trackPositions` leaves behind: the annotated postings and the
      pacing pauses taken, in order. */
  datatype Tracked = Tracked(postings: seq<Posting>, pacing: seq<int>)

  /** What the loop body does to one member of a bucket whose search gave
      `outcome` (`None` when the search threw). */
  function Annotate(p: Posting, outcome: Option<SearchPage>, policy: Policy): (r: Posting)
    ensures r == p.(position := r.position, competitorsCount := r.competitorsCount)
    ensures outcome.Some? ==>
      && r.competitorsCount == Some(outcome.value.found)
      && r.position == RankPosition(outcome.value.ids, p.id, policy.notFound)
    ensures outcome.None? && policy.onFailure.MarkFailed? ==>
      r.position == Label(policy.onFailure.text) && r.competitorsCount == Some(policy.onFailure.count)
    ensures outcome.None? && policy.onFailure.LeaveUntouched? ==> r == p
  {
    match outcome
    case Some(s) =>
      p.(position := RankPosition(s.ids, p.id, policy.notFound), competitorsCount := Some(s.found))
    case None =>
      match policy.onFailure
      case MarkFailed(text, count) => p.(position := Label(text), competitorsCount := Some(count))
      case LeaveUntouched => p
  }

  /** Writing the same answer twice leaves what writing it once left. */
  lemma AnnotateIdempotent(p: Posting, outcome: Option<SearchPage>, policy: Policy)
    ensures Annotate(Annotate(p, outcome, policy), outcome, policy) == Annotate(p, outcome, policy)
  {
  }

  /** The inner `for (const vacancy of vacancyGroup)` loop. */
  function UpdateMembers(cur: seq<Posting>, members: seq<nat>, outcome: Option<SearchPage>, policy: Policy): (r: seq<Posting>)
    ensures |r| == |cur|
    ensures forall i :: 0 <= i < |cur| && i in members ==> r[i] == Annotate(cur[i], outcome, policy)
    ensures forall i :: 0 <= i < |cur| && i !in members ==> r[i] == cur[i]
  {
    seq(|cur|, i requires 0 <= i < |cur| =>
      if i in members then Annotate(cur[i], outcome, policy) else cur[i])
  }

  /** Posting `i` once the first `k` buckets of `gs` are processed. */
  function AfterBuckets(ps: seq<Posting>, gs: seq<Bucket>, outcomes: seq<Option<SearchPage>>,
                        policy: Policy, k: nat, i: nat): Posting
    requires |gs| == |outcomes| && i < |ps|
  {
    var b := Owner(gs, i);
    if b < k && b < |outcomes| then Annotate(ps[i], outcomes[b], policy) else ps[i]
  }

  lemma UpdateStep(ps: seq<Posting>, gs: seq<Bucket>, outcomes: seq<Option<SearchPage>>, policy: Policy,
                   k: nat, prev: seq<Posting>)
    requires Grouped(ps, |ps|, gs) && 0 < k <= |gs| == |outcomes|
    requires |prev| == |ps| && forall i :: 0 <= i < |ps| ==> prev[i] == AfterBuckets(ps, gs, outcomes, policy, k - 1, i)
    ensures forall i :: 0 <= i < |ps| ==>
      UpdateMembers(prev, gs[k - 1].members, outcomes[k - 1], policy)[i] == AfterBuckets(ps, gs, outcomes, policy, k, i)
  {
    var r := UpdateMembers(prev, gs[k - 1].members, outcomes[k - 1], policy);
    forall i | 0 <= i < |ps|
      ensures r[i] == AfterBuckets(ps, gs, outcomes, policy, k, i)
    {
      OwnerIsTheBucket(ps, gs, i);
      if i in gs[k - 1].members {
        assert Owner(gs, i) == k - 1 && prev[i] == ps[i];
      } else {
        assert Owner(gs, i) != k - 1;
      }
    }
  }

  /** The postings after the first `k` buckets of `gs` were processed: a member
      of one of them carries its bucket's answer, every other posting is untouched. */
  function FanOut(ps: seq<Posting>, gs: seq<Bucket>, outcomes: seq<Option<SearchPage>>, policy: Policy, k: nat): (r: seq<Posting>)
    requires Grouped(ps, |ps|, gs) && k <= |gs| == |outcomes|
    ensures |r| == |ps|
    ensures forall i :: 0 <= i < |ps| ==> r[i] == AfterBuckets(ps, gs, outcomes, policy, k, i)
    decreases k
  {
    if k == 0 then ps
    else
      var prev := FanOut(ps, gs, outcomes, policy, k - 1);
      UpdateStep(ps, gs, outcomes, policy, k, prev);
      UpdateMembers(prev, gs[k - 1].members, outcomes[k - 1], policy)
  }

  lemma AfterAllBuckets(ps: seq<Posting>, gs: seq<Bucket>, outcomes: seq<Option<SearchPage>>,
                        policy: Policy, r: seq<Posting>)
    requires Grouped(ps, |ps|, gs) && |gs| == |outcomes| && |r| == |ps|
    requires forall i :: 0 <= i < |ps| ==> r[i] == AfterBuckets(ps, gs, outcomes, policy, |gs|, i)
    ensures forall i :: 0 <= i < |ps| && !Groupable(ps[i]) ==> r[i] == ps[i]
    ensures forall b, j :: 0 <= b < |gs| && 0 <= j < |gs[b].members| ==>
      r[gs[b].members[j]] == Annotate(ps[gs[b].members[j]], outcomes[b], policy)
  {
    forall i | 0 <= i < |ps| && !Groupable(ps[i])
      ensures r[i] == ps[i]
    {
      OwnerIsTheBucket(ps, gs, i);
    }
    forall b, j | 0 <= b < |gs| && 0 <= j < |gs[b].members|
      ensures r[gs[b].members[j]] == Annotate(ps[gs[b].members[j]], outcomes[b], policy)
    {
      var i := gs[b].members[j];
      assert i < |ps|;
      OwnerIsTheBucket(ps, gs, i);
      assert i in gs[b].members;
    }
  }

  /** The whole fan-out: every member of bucket `b` carries `outcomes[b]`;
      postings that were skipped by grouping are left unannotated. */
  function Track(ps: seq<Posting>, outcomes: seq<Option<SearchPage>>, policy: Policy): (r: seq<Posting>)
    requires |outcomes| == |Group(ps)|
    ensures |r| == |ps|
    ensures forall i :: 0 <= i < |ps| && !Groupable(ps[i]) ==> r[i] == ps[i]
    ensures forall b, j :: 0 <= b < |Group(ps)| && 0 <= j < |Group(ps)[b].members| ==>
      r[Group(ps)[b].members[j]] == Annotate(ps[Group(ps)[b].members[j]], outcomes[b], policy)
  {
    var gs := Group(ps);
    var r := FanOut(ps, gs, outcomes, policy, |gs|);
    AfterAllBuckets(ps, gs, outcomes, policy, r);
    r
  }

  /** Grouping reads only the title, area and schedule, so lists that agree on
      those fields are grouped alike. */
  lemma {:induction false} GroupReadsKeyFieldsOnly(ps: seq<Posting>, qs: seq<Posting>, n: nat)
    requires |ps| == |qs| && n <= |ps|
    requires forall i :: 0 <= i < |ps| ==>
      ps[i].normalizedTitle == qs[i].normalizedTitle && ps[i].areaId == qs[i].areaId && ps[i].scheduleId == qs[i].scheduleId
    ensures GroupPrefix(ps, n) == GroupPrefix(qs, n)
    decreases n
  {
    if n > 0 {
      GroupReadsKeyFieldsOnly(ps, qs, n - 1);
    }
  }

  /** Tracking an already tracked list with the same answers changes nothing:
      no count accumulates and no position shifts. */
  lemma TrackIdempotent(ps: seq<Posting>, outcomes: seq<Option<SearchPage>>, policy: Policy)
    requires |outcomes| == |Group(ps)|
    ensures |outcomes| == |Group(Track(ps, outcomes, policy))|
    ensures Track(Track(ps, outcomes, policy), outcomes, policy) == Track(ps, outcomes, policy)
  {
    var r := Track(ps, outcomes, policy);
    GroupReadsKeyFieldsOnly(ps, r, |ps|);
    var gs := Group(ps);
    assert Group(r) == gs;
    var r2 := Track(r, outcomes, policy);
    forall i | 0 <= i < |ps|
      ensures r2[i] == r[i]
    {
      OwnerIsTheBucket(ps, gs, i);
      if Groupable(ps[i]) {
        var b := Owner(gs, i);
        var j :| 0 <= j < |gs[b].members| && gs[b].members[j] == i;
        AnnotateIdempotent(ps[i], outcomes[b], policy);
      }
    }
  }

  /** A bucket's answer reaches only its own members: changing the answer of
      bucket `b` leaves every posting outside `b` exactly as it was. */
  lemma FailureIsContained(ps: seq<Posting>, outcomes: seq<Option<SearchPage>>, other: Option<SearchPage>,
                           policy: Policy, b: nat, i: nat)
    requires |outcomes| == |Group(ps)| && b < |outcomes| && i < |ps|
    requires i !in Group(ps)[b].members
    ensures Track(ps, outcomes[b := other], policy)[i] == Track(ps, outcomes, policy)[i]
  {
    var gs := Group(ps);
    OwnerIsTheBucket(ps, gs, i);
    if Groupable(ps[i]) {
      var c := Owner(gs, i);
      var j :| 0 <= j < |gs[c].members| && gs[c].members[j] == i;
    }
  }
}
