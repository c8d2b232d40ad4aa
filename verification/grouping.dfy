/** The grouping half of `trackPositions`, identical in both variants.
    Postings are visited in input order; one whose `normalized_title` is falsy
    (`null` or the empty string) is skipped; every other one is appended to the
    bucket of its key, the bucket being created on first sight. The buckets form
    a JavaScript `Map`, which iterates in key-insertion order. Buckets hold
    posting indices, standing in for the object references the source pushes. */
module Grouping {
  import opened Wrappers
  import opened Vacancy
  import Decimal

  /** JavaScript truthiness of `normalized_title`. */
  predicate Groupable(p: Posting) {
    p.normalizedTitle.Some? && p.normalizedTitle.value != ""
  }

  /** The template string `${title}_${area_id}_${schedule_id}`: the title,
      '_', the area id's decimal text, '_', the schedule. Given the lengths of
      title and schedule, the area id can be read back from the middle. */
  function Key(title: string, areaId: int, scheduleId: string): (k: string)
    ensures |k| >= |title| + |scheduleId| + 3
    ensures k[..|title|] == title && k[|title|] == '_'
    ensures k[|k| - |scheduleId| - 1] == '_' && k[|k| - |scheduleId|..] == scheduleId
    ensures Decimal.ParseInt(k[|title| + 1..|k| - |scheduleId| - 1]) == areaId
  {
    var d := Decimal.IntToString(areaId);
    var k := title + "_" + d + "_" + scheduleId;
    assert k[|title| + 1..|k| - |scheduleId| - 1] == d;
    Decimal.IntToStringRoundTrip(areaId);
    k
  }

  function KeyOf(p: Posting): string
    requires Groupable(p)
  {
    Key(p.normalizedTitle.value, p.areaId, p.scheduleId)
  }

  datatype Bucket = Bucket(key: string, members: seq<nat>)

  ghost predicate NonEmpty(gs: seq<Bucket>) {
    forall b :: 0 <= b < |gs| ==> |gs[b].members| > 0
  }

  ghost predicate DistinctKeys(gs: seq<Bucket>) {
    forall b, c :: 0 <= b < c < |gs| ==> gs[b].key != gs[c].key
  }

  /** Each member is one of the first `n` postings, groupable, with the bucket's key. */
  ghost predicate MembersMatch(ps: seq<Posting>, n: nat, gs: seq<Bucket>)
    requires n <= |ps|
  {
    forall b, j :: 0 <= b < |gs| && 0 <= j < |gs[b].members| ==>
      && gs[b].members[j] < n
      && Groupable(ps[gs[b].members[j]])
      && KeyOf(ps[gs[b].members[j]]) == gs[b].key
  }

  /** Members keep input order. */
  ghost predicate InInputOrder(gs: seq<Bucket>) {
    forall b, j, j' :: 0 <= b < |gs| && 0 <= j < j' < |gs[b].members| ==>
      gs[b].members[j] < gs[b].members[j']
  }

  ghost predicate Covers(ps: seq<Posting>, n: nat, gs: seq<Bucket>)
    requires n <= |ps|
  {
    forall i :: 0 <= i < n && Groupable(ps[i]) ==> exists b :: 0 <= b < |gs| && i in gs[b].members
  }

  /** Buckets come in the order their keys were first seen. */
  ghost predicate InFirstSeenOrder(gs: seq<Bucket>)
    requires NonEmpty(gs)
  {
    forall b, c :: 0 <= b < c < |gs| ==> gs[b].members[0] < gs[c].members[0]
  }

  /** `gs` is what grouping the first `n` postings of `ps` must produce:
      non-empty buckets with distinct keys; each member is a groupable posting
      whose key is the bucket's key; members in input order; every groupable
      posting in some bucket; buckets ordered by their first member. */
  ghost predicate Grouped(ps: seq<Posting>, n: nat, gs: seq<Bucket>)
    requires n <= |ps|
  {
    && NonEmpty(gs)
    && DistinctKeys(gs)
    && MembersMatch(ps, n, gs)
    && InInputOrder(gs)
    && Covers(ps, n, gs)
    && InFirstSeenOrder(gs)
  }

  /** `groupedVacancies.has(key)`: the index of the bucket with that key, or
      `|gs|` when there is none. */
  function FindKey(gs: seq<Bucket>, key: string): (b: nat)
    ensures b <= |gs|
    ensures b < |gs| ==> gs[b].key == key
    ensures forall c :: 0 <= c < b ==> gs[c].key != key
  {
    if |gs| == 0 then 0
    else if gs[0].key == key then 0
    else 1 + FindKey(gs[1..], key)
  }

  /** One step of the loop: posting `i` is appended to its key's bucket, or
      starts a new bucket at the end. */
  function Insert(gs: seq<Bucket>, key: string, i: nat): (r: seq<Bucket>)
    ensures |r| == |gs| || |r| == |gs| + 1
    ensures |r| == |gs| + 1 <==> forall c :: 0 <= c < |gs| ==> gs[c].key != key
    ensures |r| == |gs| + 1 ==> r[|gs|] == Bucket(key, [i])
    ensures forall c :: 0 <= c < |gs| ==>
      && r[c].key == gs[c].key
      && (r[c].members == gs[c].members || (gs[c].key == key && r[c].members == gs[c].members + [i]))
    ensures exists c :: 0 <= c < |r| && r[c].key == key && |r[c].members| > 0 && r[c].members[|r[c].members| - 1] == i
  {
    var b := FindKey(gs, key);
    if b < |gs| then Appended(gs, b, i)
    else gs + [Bucket(key, [i])]
  }

  // Appending posting `n` to the existing bucket `b` of its key keeps each
  // part of `Grouped`; one lemma per part keeps the proofs small.

  function Appended(gs: seq<Bucket>, b: nat, n: nat): (r: seq<Bucket>)
    requires b < |gs|
    ensures |r| == |gs| && r[b].key == gs[b].key && r[b].members == gs[b].members + [n]
    ensures forall c :: 0 <= c < |gs| && c != b ==> r[c] == gs[c]
  {
    gs[b := Bucket(gs[b].key, gs[b].members + [n])]
  }

  lemma AppendedKeys(gs: seq<Bucket>, b: nat, n: nat)
    requires b < |gs| && NonEmpty(gs) && DistinctKeys(gs)
    ensures NonEmpty(Appended(gs, b, n)) && DistinctKeys(Appended(gs, b, n))
  {
    var r := Appended(gs, b, n);
    forall c, d | 0 <= c < d < |r|
      ensures r[c].key != r[d].key
    {
      assert r[c].key == gs[c].key && r[d].key == gs[d].key;
    }
  }

  lemma AppendedMembers(ps: seq<Posting>, n: nat, gs: seq<Bucket>, b: nat)
    requires n < |ps| && Groupable(ps[n]) && b < |gs| && gs[b].key == KeyOf(ps[n])
    requires MembersMatch(ps, n, gs) && InInputOrder(gs)
    ensures MembersMatch(ps, n + 1, Appended(gs, b, n)) && InInputOrder(Appended(gs, b, n))
  {
    var r := Appended(gs, b, n);
    forall c, j | 0 <= c < |r| && 0 <= j < |r[c].members|
      ensures r[c].members[j] < n + 1 && Groupable(ps[r[c].members[j]]) && KeyOf(ps[r[c].members[j]]) == r[c].key
    {
      if c != b || j < |gs[b].members| {
        assert r[c].members[j] == gs[c].members[j];
      } else {
        assert r[c].members[j] == n;
      }
    }
    forall c, j, j' | 0 <= c < |r| && 0 <= j < j' < |r[c].members|
      ensures r[c].members[j] < r[c].members[j']
    {
      if c == b && j' == |gs[b].members| {
        assert r[c].members[j] == gs[b].members[j] < n;
      } else {
        assert r[c].members[j] == gs[c].members[j] && r[c].members[j'] == gs[c].members[j'];
      }
    }
  }

  lemma AppendedCovers(ps: seq<Posting>, n: nat, gs: seq<Bucket>, b: nat)
    requires n < |ps| && b < |gs| && NonEmpty(gs) && Covers(ps, n, gs) && InFirstSeenOrder(gs)
    ensures Covers(ps, n + 1, Appended(gs, b, n))
    ensures NonEmpty(Appended(gs, b, n)) && InFirstSeenOrder(Appended(gs, b, n))
  {
    var r := Appended(gs, b, n);
    forall i | 0 <= i < n + 1 && Groupable(ps[i])
      ensures exists c :: 0 <= c < |r| && i in r[c].members
    {
      if i == n {
        assert r[b].members[|r[b].members| - 1] == n;
      } else {
        var c :| 0 <= c < |gs| && i in gs[c].members;
        if c == b {
          assert i in r[b].members;
        } else {
          assert r[c] == gs[c];
        }
      }
    }
    forall c, d | 0 <= c < d < |r|
      ensures r[c].members[0] < r[d].members[0]
    {
      assert r[c].members[0] == gs[c].members[0] && r[d].members[0] == gs[d].members[0];
    }
  }

  lemma AppendToBucketKeepsGrouped(ps: seq<Posting>, n: nat, gs: seq<Bucket>, b: nat)
    requires n < |ps| && Grouped(ps, n, gs) && Groupable(ps[n])
    requires b < |gs| && gs[b].key == KeyOf(ps[n])
    ensures Grouped(ps, n + 1, Appended(gs, b, n))
  {
    AppendedKeys(gs, b, n);
    AppendedMembers(ps, n, gs, b);
    AppendedCovers(ps, n, gs, b);
  }

  // Opening a new bucket for a key not seen before, likewise.

  lemma NewBucketKeys(gs: seq<Bucket>, key: string, n: nat)
    requires NonEmpty(gs) && DistinctKeys(gs) && forall c :: 0 <= c < |gs| ==> gs[c].key != key
    ensures NonEmpty(gs + [Bucket(key, [n])]) && DistinctKeys(gs + [Bucket(key, [n])])
  {
    var r := gs + [Bucket(key, [n])];
    forall c, d | 0 <= c < d < |r|
      ensures r[c].key != r[d].key
    {
      assert r[c] == gs[c];
    }
  }

  lemma NewBucketMembers(ps: seq<Posting>, n: nat, gs: seq<Bucket>)
    requires n < |ps| && Groupable(ps[n]) && MembersMatch(ps, n, gs) && InInputOrder(gs)
    ensures MembersMatch(ps, n + 1, gs + [Bucket(KeyOf(ps[n]), [n])])
    ensures InInputOrder(gs + [Bucket(KeyOf(ps[n]), [n])])
  {
    var r := gs + [Bucket(KeyOf(ps[n]), [n])];
    forall c, j | 0 <= c < |r| && 0 <= j < |r[c].members|
      ensures r[c].members[j] < n + 1 && Groupable(ps[r[c].members[j]]) && KeyOf(ps[r[c].members[j]]) == r[c].key
    {
      if c < |gs| {
        assert r[c] == gs[c];
      }
    }
    forall c, j, j' | 0 <= c < |r| && 0 <= j < j' < |r[c].members|
      ensures r[c].members[j] < r[c].members[j']
    {
      assert r[c] == gs[c];
    }
  }

  lemma NewBucketCovers(ps: seq<Posting>, n: nat, gs: seq<Bucket>, key: string)
    requires n < |ps| && Covers(ps, n, gs)
    ensures Covers(ps, n + 1, gs + [Bucket(key, [n])])
  {
    var r := gs + [Bucket(key, [n])];
    forall i | 0 <= i < n + 1 && Groupable(ps[i])
      ensures exists c :: 0 <= c < |r| && i in r[c].members
    {
      if i == n {
        assert i in r[|gs|].members;
      } else {
        var c :| 0 <= c < |gs| && i in gs[c].members;
        assert r[c] == gs[c];
      }
    }
  }

  lemma NewBucketOrder(ps: seq<Posting>, n: nat, gs: seq<Bucket>, key: string)
    requires n < |ps| && NonEmpty(gs) && MembersMatch(ps, n, gs) && InFirstSeenOrder(gs)
    ensures NonEmpty(gs + [Bucket(key, [n])]) && InFirstSeenOrder(gs + [Bucket(key, [n])])
  {
    var r := gs + [Bucket(key, [n])];
    forall c, d | 0 <= c < d < |r|
      ensures r[c].members[0] < r[d].members[0]
    {
      assert r[c] == gs[c];
      assert gs[c].members[0] < n;
      if d < |gs| {
        assert r[d] == gs[d];
      }
    }
  }

  lemma NewBucketKeepsGrouped(ps: seq<Posting>, n: nat, gs: seq<Bucket>)
    requires n < |ps| && Grouped(ps, n, gs) && Groupable(ps[n])
    requires forall c :: 0 <= c < |gs| ==> gs[c].key != KeyOf(ps[n])
    ensures Grouped(ps, n + 1, gs + [Bucket(KeyOf(ps[n]), [n])])
  {
    NewBucketKeys(gs, KeyOf(ps[n]), n);
    NewBucketMembers(ps, n, gs);
    NewBucketCovers(ps, n, gs, KeyOf(ps[n]));
    NewBucketOrder(ps, n, gs, KeyOf(ps[n]));
  }

  lemma InsertKeepsGrouped(ps: seq<Posting>, n: nat, gs: seq<Bucket>)
    requires n < |ps| && Grouped(ps, n, gs) && Groupable(ps[n])
    ensures Grouped(ps, n + 1, Insert(gs, KeyOf(ps[n]), n))
  {
    var b := FindKey(gs, KeyOf(ps[n]));
    if b < |gs| {
      AppendToBucketKeepsGrouped(ps, n, gs, b);
    } else {
      NewBucketKeepsGrouped(ps, n, gs);
    }
  }

  /** Grouping of the first `n` postings. */
  function GroupPrefix(ps: seq<Posting>, n: nat): (gs: seq<Bucket>)
    requires n <= |ps|
    ensures Grouped(ps, n, gs)
    decreases n
  {
    if n == 0 then []
    else
      var gs := GroupPrefix(ps, n - 1);
      if !Groupable(ps[n - 1]) then gs
      else
        InsertKeepsGrouped(ps, n - 1, gs);
        Insert(gs, KeyOf(ps[n - 1]), n - 1)
  }

  /** The buckets `trackPositions` builds from the whole posting list. */
  function Group(ps: seq<Posting>): (gs: seq<Bucket>)
    ensures Grouped(ps, |ps|, gs)
  {
    GroupPrefix(ps, |ps|)
  }

  /** Membership is exactly "groupable and carries the bucket's key", so the
      buckets partition the groupable postings and skipped postings are in none. */
  lemma MemberIffKey(ps: seq<Posting>, gs: seq<Bucket>, b: nat, i: nat)
    requires Grouped(ps, |ps|, gs) && b < |gs|
    ensures i in gs[b].members <==> i < |ps| && Groupable(ps[i]) && KeyOf(ps[i]) == gs[b].key
  {
    if i < |ps| && Groupable(ps[i]) && KeyOf(ps[i]) == gs[b].key {
      var c :| 0 <= c < |gs| && i in gs[c].members;
      var j :| 0 <= j < |gs[c].members| && gs[c].members[j] == i;
      assert KeyOf(ps[gs[c].members[j]]) == gs[c].key;
      assert !(b < c || c < b);
    }
    if i in gs[b].members {
      var j :| 0 <= j < |gs[b].members| && gs[b].members[j] == i;
      assert KeyOf(ps[gs[b].members[j]]) == gs[b].key;
    }
  }

  /** The representative (first member) of a bucket is the first posting in the
      input that carries the bucket's key. */
  lemma RepresentativeIsFirst(ps: seq<Posting>, gs: seq<Bucket>, b: nat, i: nat)
    requires Grouped(ps, |ps|, gs) && b < |gs|
    requires i < |ps| && Groupable(ps[i]) && KeyOf(ps[i]) == gs[b].key
    ensures gs[b].members[0] <= i
  {
    MemberIffKey(ps, gs, b, i);
    var j :| 0 <= j < |gs[b].members| && gs[b].members[j] == i;
    assert j == 0 || gs[b].members[0] < gs[b].members[j];
  }

  /** The bucket holding posting `i` (the first one; there is at most one), or
      `|gs|` when no bucket holds it. */
  function Owner(gs: seq<Bucket>, i: nat): (b: nat)
    ensures b <= |gs|
    ensures b < |gs| ==> i in gs[b].members
    ensures forall c :: 0 <= c < b ==> i !in gs[c].members
  {
    if |gs| == 0 then 0
    else if i in gs[0].members then 0
    else 1 + Owner(gs[1..], i)
  }

  /** Every groupable posting has exactly one bucket; a skipped one has none. */
  lemma OwnerIsTheBucket(ps: seq<Posting>, gs: seq<Bucket>, i: nat)
    requires Grouped(ps, |ps|, gs) && i < |ps|
    ensures Owner(gs, i) < |gs| <==> Groupable(ps[i])
    ensures forall b :: 0 <= b < |gs| ==> (i in gs[b].members <==> b == Owner(gs, i))
  {
    forall b | 0 <= b < |gs|
      ensures i in gs[b].members <==> b == Owner(gs, i)
    {
      MemberIffKey(ps, gs, b, i);
      var o := Owner(gs, i);
      if o < |gs| {
        MemberIffKey(ps, gs, o, i);
        assert i in gs[b].members ==> !(b < o || o < b);
      }
    }
    if Groupable(ps[i]) {
      var c :| 0 <= c < |gs| && i in gs[c].members;
    }
  }

  /** Two groupable postings share a bucket exactly when their key strings are equal. */
  lemma SameBucketIffSameKey(ps: seq<Posting>, i: nat, j: nat)
    requires i < |ps| && j < |ps| && Groupable(ps[i]) && Groupable(ps[j])
    ensures Owner(Group(ps), i) == Owner(Group(ps), j) <==> KeyOf(ps[i]) == KeyOf(ps[j])
  {
    var gs := Group(ps);
    OwnerIsTheBucket(ps, gs, i);
    OwnerIsTheBucket(ps, gs, j);
    MemberIffKey(ps, gs, Owner(gs, i), i);
    MemberIffKey(ps, gs, Owner(gs, j), j);
    MemberIffKey(ps, gs, Owner(gs, i), j);
  }

  /** Changing just one of title, area or schedule gives a different key. */
  lemma OneFieldChangeSeparates(t: string, a: int, s: string, t': string, a': int, s': string)
    requires (t != t' && a == a' && s == s') || (t == t' && a != a' && s == s') || (t == t' && a == a' && s != s')
    ensures Key(t, a, s) != Key(t', a', s')
  {
    var d, d' := Decimal.IntToString(a), Decimal.IntToString(a');
    var k, k' := Key(t, a, s), Key(t', a', s');
    assert |k| == |t| + |d| + |s| + 2 && |k'| == |t'| + |d'| + |s'| + 2;
    if t != t' {
      assert k[..|t|] == t && k'[..|t'|] == t';
    } else if a != a' {
      assert k[|t| + 1..|t| + 1 + |d|] == d && k'[|t| + 1..|t| + 1 + |d'|] == d';
      if |d| == |d'| && d == d' {
        Decimal.IntToStringInjective(a, a');
      }
    } else {
      assert k[|k| - |s|..] == s && k'[|k'| - |s'|..] == s';
    }
  }

  /** The key is a string, not a tuple: title "X_1", area 2, schedule "s" and
      title "X", area 1, schedule "2_s" both give "X_1_2_s". */
  lemma KeyCollision()
    ensures Key("X_1", 2, "s") == Key("X", 1, "2_s") == "X_1_2_s"
  {
    assert Decimal.IntToString(2) == "2";
    assert Decimal.IntToString(1) == "1";
  }
}
