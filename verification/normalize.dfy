/** The merge half of `normalizeTitlesForVacancies`, identical in both
    variants: the language model's answer, already parsed into `(id, title)`
    pairs, is turned into a map (the last pair for an id wins) and every
    posting whose id is a key of that map gets its `normalized_title`. */
module Normalize {
  import opened Wrappers
  import opened Vacancy
  import JsMap

  function TitleMap(pairs: seq<(int, string)>): map<int, string> {
    JsMap.FromEntries(pairs)
  }

  /** Some pair in the answer names `id`. */
  predicate Mentions(pairs: seq<(int, string)>, id: int) {
    exists j :: 0 <= j < |pairs| && pairs[j].0 == id
  }

  function Merge(postings: seq<Posting>, pairs: seq<(int, string)>): (r: seq<Posting>)
    ensures |r| == |postings|
    ensures forall i :: 0 <= i < |r| ==>
      r[i] == postings[i].(normalizedTitle := r[i].normalizedTitle)
    ensures forall i :: 0 <= i < |r| && Mentions(pairs, postings[i].id) ==>
      r[i].normalizedTitle.Some? && JsMap.IsLastEntry(pairs, postings[i].id, r[i].normalizedTitle.value)
    ensures forall i :: 0 <= i < |r| && !Mentions(pairs, postings[i].id) ==> r[i] == postings[i]
  {
    var m := TitleMap(pairs);
    seq(|postings|, i requires 0 <= i < |postings| =>
      var v := postings[i];
      if v.id in m then v.(normalizedTitle := Some(m[v.id])) else v)
  }

  /** A pair whose id no posting carries is ignored: merging it in or leaving
      it out gives the same list. */
  lemma {:induction false} UnknownIdsIgnored(postings: seq<Posting>, pairs: seq<(int, string)>, extra: (int, string))
    requires forall i :: 0 <= i < |postings| ==> postings[i].id != extra.0
    ensures Merge(postings, pairs + [extra]) == Merge(postings, pairs)
  {
    var m := TitleMap(pairs);
    var m' := TitleMap(pairs + [extra]);
    forall id | id != extra.0
      ensures id in m' <==> id in m
      ensures id in m ==> m'[id] == m[id]
    {
      assert (pairs + [extra])[..|pairs|] == pairs;
    }
  }

  /** Merging the same answer twice is the same as merging it once. */
  lemma MergeIdempotent(postings: seq<Posting>, pairs: seq<(int, string)>)
    ensures Merge(Merge(postings, pairs), pairs) == Merge(postings, pairs)
  {
  }
}
