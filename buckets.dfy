/** `turnout_buckets`: the vote counts LEFT JOINed onto the denominator
    buckets, and the whole per-election pipeline that produces it. */
module Buckets {
  import opened Common
  import opened SqlStrings
  import opened Tally
  import opened History
  import opened VoterStats
  import opened Voters

  /** A row of `turnout_buckets` (and of `turnout_all`). */
  datatype TurnoutRow = TurnoutRow(key: BucketKey, registered: int, voted: int, rate: Option<real>)

  /** The ON clause: SQL `=` on all seven key columns, so a NULL in any of
      them matches nothing. */
  predicate KeyMatches(d: BucketKey, v: BucketKey) {
    && d.electionDate == v.electionDate
    && SqlEq(d.county, v.county) && SqlEq(d.party, v.party) && SqlEq(d.race, v.race)
    && SqlEq(d.ethnic, v.ethnic) && SqlEq(d.sex, v.sex) && SqlEq(d.ageGroup, v.ageGroup)
  }

  /** A key none of whose columns is NULL. */
  predicate KeyComplete(k: BucketKey) {
    k.county.Some? && k.party.Some? && k.race.Some? && k.ethnic.Some? && k.sex.Some? && k.ageGroup.Some?
  }

  /** Matching keys are equal, complete keys; a complete key matches itself. */
  lemma KeyMatchesMeans(d: BucketKey, v: BucketKey)
    ensures KeyMatches(d, v) <==> KeyComplete(d) && d == v
  {
  }

  function MatchesKey(d: BucketKey): Group<BucketKey> -> bool {
    (g: Group<BucketKey>) => KeyMatches(d, g.key)
  }

  /** The vote-count rows that join to bucket `d`. */
  function MatchesFor(d: BucketKey, counts: seq<Group<BucketKey>>): (m: seq<Group<BucketKey>>)
    ensures forall k :: 0 <= k < |m| ==> KeyMatches(d, m[k].key) && m[k] in counts
    ensures forall g :: g in counts && KeyMatches(d, g.key) ==> g in m
  {
    Where(counts, MatchesKey(d))
  }
  /** The join partners of a bucket: each count row satisfying the ON
      clause as often as it occurs, and no other row. */
  lemma MatchesForCounts(d: BucketKey, counts: seq<Group<BucketKey>>)
    ensures forall g ::
      multiset(MatchesFor(d, counts))[g] == (if KeyMatches(d, g.key) then multiset(counts)[g] else 0)
  {
    WhereCounts(counts, MatchesKey(d));
  }


  /** The CASE of `turnout_rate`: NULL exactly when nobody is registered. */
  function Rate(voted: int, registered: int): (r: Option<real>)
    ensures r.None? <==> registered == 0
    ensures r.Some? ==> r.value * registered as real == voted as real
  {
    if registered == 0 then None else Some(voted as real / registered as real)
  }

  function Bucket(d: Group<BucketKey>, voted: int): (t: TurnoutRow)
    ensures t.key == d.key && t.registered == d.total && t.voted == voted
    ensures t.rate.None? <==> d.total == 0
  {
    TurnoutRow(d.key, d.total, voted, Rate(voted, d.total))
  }

  /** The LEFT JOIN of one bucket: a row per matching count, or a single
      row whose `COALESCE(voted_count, 0)` is 0 when nothing matches. */
  function JoinBucket(d: Group<BucketKey>, counts: seq<Group<BucketKey>>): (rows: seq<TurnoutRow>)
    ensures |rows| >= 1
    ensures forall k :: 0 <= k < |rows| ==>
      rows[k].key == d.key && rows[k].registered == d.total && (rows[k].rate.None? <==> d.total == 0)
    ensures |MatchesFor(d.key, counts)| == 0 ==> rows == [Bucket(d, 0)]
    ensures |MatchesFor(d.key, counts)| > 0 ==>
      |rows| == |MatchesFor(d.key, counts)| &&
      forall k :: 0 <= k < |rows| ==> rows[k].voted == MatchesFor(d.key, counts)[k].total
  {
    var m := MatchesFor(d.key, counts);
    if |m| == 0 then
      [Bucket(d, 0)]
    else
      seq(|m|, k requires 0 <= k < |m| => Bucket(d, m[k].total))
  }

  /** `turnout_buckets`: the LEFT JOIN keeps every denominator bucket. */
  function BucketJoin(den: seq<Group<BucketKey>>, counts: seq<Group<BucketKey>>): (rows: seq<TurnoutRow>)
    ensures |rows| >= |den|
  {
    if |den| == 0 then []
    else
      var n := |den| - 1;
      BucketJoin(den[..n], counts) + JoinBucket(den[n], counts)
  }

  /** The key and registered count of each row, as a bucket. */
  function RowBuckets(rows: seq<TurnoutRow>): (gs: seq<Group<BucketKey>>)
    ensures |gs| == |rows| && forall k :: 0 <= k < |rows| ==> gs[k] == Group(rows[k].key, rows[k].registered)
  {
    seq(|rows|, k requires 0 <= k < |rows| => Group(rows[k].key, rows[k].registered))
  }

  /** Some row carries bucket `d`: its key and its registered count. */
  predicate HasBucketRow(rows: seq<TurnoutRow>, d: Group<BucketKey>) {
    d in RowBuckets(rows)
  }

  lemma HasBucketRowFront(front: seq<TurnoutRow>, last: seq<TurnoutRow>, d: Group<BucketKey>)
    requires HasBucketRow(front, d)
    ensures HasBucketRow(front + last, d)
  {
    var k :| 0 <= k < |front| && RowBuckets(front)[k] == d;
    assert (front + last)[k] == front[k];
    assert RowBuckets(front + last)[k] == d;
  }

  lemma HasBucketRowLast(front: seq<TurnoutRow>, d: Group<BucketKey>, counts: seq<Group<BucketKey>>)
    ensures HasBucketRow(front + JoinBucket(d, counts), d)
  {
    var last := JoinBucket(d, counts);
    assert (front + last)[|front|] == last[0];
    assert RowBuckets(front + last)[|front|] == d;
  }

  /** Every bucket of `den` has a row in `rows`. */
  predicate Covers(rows: seq<TurnoutRow>, den: seq<Group<BucketKey>>) {
    forall i :: 0 <= i < |den| ==> HasBucketRow(rows, den[i])
  }

  lemma CoversStep(front: seq<TurnoutRow>, den: seq<Group<BucketKey>>, counts: seq<Group<BucketKey>>)
    requires |den| > 0 && Covers(front, den[..|den| - 1])
    ensures Covers(front + JoinBucket(den[|den| - 1], counts), den)
  {
    var n := |den| - 1;
    var last := JoinBucket(den[n], counts);
    forall i | 0 <= i < |den|
      ensures HasBucketRow(front + last, den[i])
    {
      if i < n {
        assert den[..n][i] == den[i];
        HasBucketRowFront(front, last, den[i]);
      } else {
        HasBucketRowLast(front, den[n], counts);
      }
    }
  }

  /** The LEFT JOIN loses no bucket: every denominator bucket has a row
      with its key and registered count. */
  lemma {:induction false} BucketJoinKeepsBuckets(den: seq<Group<BucketKey>>, counts: seq<Group<BucketKey>>)
    ensures Covers(BucketJoin(den, counts), den)
  {
    if |den| > 0 {
      var n := |den| - 1;
      BucketJoinKeepsBuckets(den[..n], counts);
      CoversStep(BucketJoin(den[..n], counts), den, counts);
    }
  }

  /** Every row belongs to a bucket of `den`, keeps its registered count,
      and has a NULL rate exactly when that count is 0. */
  predicate FromBuckets(rows: seq<TurnoutRow>, den: seq<Group<BucketKey>>) {
    forall k :: 0 <= k < |rows| ==>
      Group(rows[k].key, rows[k].registered) in den && (rows[k].rate.None? <==> rows[k].registered == 0)
  }

  /** Every row of `turnout_buckets` comes from a denominator bucket. */
  lemma {:induction false} BucketRowsBelong(den: seq<Group<BucketKey>>, counts: seq<Group<BucketKey>>)
    ensures FromBuckets(BucketJoin(den, counts), den)
  {
    if |den| > 0 {
      var n := |den| - 1;
      BucketRowsBelong(den[..n], counts);
      FromBucketsConcat(BucketJoin(den[..n], counts), JoinBucket(den[n], counts), den);
    }
  }

  lemma FromBucketsConcat(front: seq<TurnoutRow>, last: seq<TurnoutRow>, den: seq<Group<BucketKey>>)
    requires |den| > 0 && FromBuckets(front, den[..|den| - 1])
    requires var d := den[|den| - 1];
      forall k :: 0 <= k < |last| ==>
        last[k].key == d.key && last[k].registered == d.total && (last[k].rate.None? <==> d.total == 0)
    ensures FromBuckets(front + last, den)
  {
    var d := den[|den| - 1];
    forall k | 0 <= k < |front + last|
      ensures Group((front + last)[k].key, (front + last)[k].registered) in den
    {
      if k < |front| {
        assert (front + last)[k] == front[k];
        assert forall g :: g in den[..|den| - 1] ==> g in den;
      } else {
        assert (front + last)[k] == last[k - |front|];
        assert Group(d.key, d.total) == d;
      }
    }
  }

  /** Distinct count keys give each bucket at most one match. */
  lemma MatchesAtMostOne(d: BucketKey, counts: seq<Group<BucketKey>>)
    requires Distinct(KeysOf(counts))
    ensures |MatchesFor(d, counts)| <= 1
  {
    var p := MatchesKey(d);
    forall i, j | 0 <= i < j < |counts| && p(counts[i])
      ensures !p(counts[j])
    {
      assert KeysOf(counts)[i] != KeysOf(counts)[j];
    }
    WhereAtMostOne(counts, p);
  }

  /** What the join gives bucket `d`: the count whose key equals it, or 0
      when there is none or the key has a NULL column. */
  function VotedFor(d: BucketKey, counts: seq<Group<BucketKey>>): int {
    if |MatchesFor(d, counts)| == 0 then 0 else MatchesFor(d, counts)[0].total
  }

  /** Row `i` of `rows` is bucket `i` of `den` with its vote count. */
  predicate OnePerBucket(rows: seq<TurnoutRow>, den: seq<Group<BucketKey>>, counts: seq<Group<BucketKey>>) {
    && |rows| == |den|
    && forall i :: 0 <= i < |den| ==> rows[i] == Bucket(den[i], VotedFor(den[i].key, counts))
  }

  /** With distinct count keys the join yields exactly one row per bucket,
      in the denominator's order, with the matching count or 0. */
  lemma {:induction false} BucketJoinOnePerBucket(den: seq<Group<BucketKey>>, counts: seq<Group<BucketKey>>)
    requires Distinct(KeysOf(counts))
    ensures OnePerBucket(BucketJoin(den, counts), den, counts)
  {
    if |den| > 0 {
      var n := |den| - 1;
      BucketJoinOnePerBucket(den[..n], counts);
      JoinBucketSingle(den[n], counts);
      BucketOneMore(BucketJoin(den[..n], counts), JoinBucket(den[n], counts), den, counts);
    }
  }

  /** One more bucket with one row keeps the correspondence. */
  lemma BucketOneMore(
    front: seq<TurnoutRow>, last: seq<TurnoutRow>, den: seq<Group<BucketKey>>, counts: seq<Group<BucketKey>>)
    requires |den| > 0 && OnePerBucket(front, den[..|den| - 1], counts)
    requires last == [Bucket(den[|den| - 1], VotedFor(den[|den| - 1].key, counts))]
    ensures OnePerBucket(front + last, den, counts)
  {
  }

  /** With distinct count keys a bucket joins to exactly one row. */
  lemma JoinBucketSingle(d: Group<BucketKey>, counts: seq<Group<BucketKey>>)
    requires Distinct(KeysOf(counts))
    ensures JoinBucket(d, counts) == [Bucket(d, VotedFor(d.key, counts))]
  {
    MatchesAtMostOne(d.key, counts);
  }

  /** A count row is the join partner of bucket `d` exactly when its key is
      `d`'s key and that key has no NULL column. */
  lemma VotedForIsCount(d: BucketKey, counts: seq<Group<BucketKey>>, g: Group<BucketKey>)
    requires Distinct(KeysOf(counts))
    requires g in counts && g.key == d && KeyComplete(d)
    ensures VotedFor(d, counts) == g.total
  {
    MatchesAtMostOne(d, counts);
    assert g in MatchesFor(d, counts);
  }

  /** A bucket with a NULL column, or with no count of its key, gets 0. */
  lemma VotedForMissing(d: BucketKey, counts: seq<Group<BucketKey>>)
    requires !KeyComplete(d) || d !in KeysOf(counts)
    ensures VotedFor(d, counts) == 0
  {
    if |MatchesFor(d, counts)| > 0 {
      KeyMatchesMeans(d, MatchesFor(d, counts)[0].key);
    }
  }

  // ---------------------------------------------------------------
  // One election, from its inputs to its QA row and buckets
  // ---------------------------------------------------------------

  /** What one election produces: its QA row and its `turnout_buckets`. */
  datatype ElectionOutput = ElectionOutput(qa: QaRow, buckets: seq<TurnoutRow>)

  /** Everything from `voter_stats_denominator` to `turnout_buckets` for one
      election, given its ISO date, its history label, its year, the
      loaded statistics rows, its votes and the registration rows. Every
      bucket row carries the ISO date, and there is exactly one row per
      denominator bucket. */
  function ElectionBuckets(
    script: Script, iso: string, mmddyyyy: string, year: int,
    stats: seq<StatsRow>, votes: seq<ElectionVote>, attrs: seq<AttrRow>): (out: ElectionOutput)
    ensures out.qa.electionIso == iso && out.qa.electionMmddyyyy == mmddyyyy
    ensures |out.buckets| == |Denominator(script, stats, iso, mmddyyyy)|
    ensures forall k :: 0 <= k < |out.buckets| ==> out.buckets[k].key.electionDate == iso
  {
    var den := Denominator(script, stats, iso, mmddyyyy);
    var joined := JoinAttrs(Dedupe(votes), attrs);
    var counts := VoteCount(VotedWithAge(joined, year), iso);
    BucketJoinOnePerBucket(den, counts);
    ElectionOutput(Qa(iso, mmddyyyy, joined), BucketJoin(den, counts))
  }

  /** The voted count of a complete bucket is the number of the election's
      matched voters whose bucket key it is. */
  lemma BucketVotedIsVoterCount(aged: seq<AgedRow>, iso: string, den: seq<Group<BucketKey>>, i: nat)
    requires i < |den| && KeyComplete(den[i].key)
    ensures |BucketJoin(den, VoteCount(aged, iso))| == |den|
    ensures BucketJoin(den, VoteCount(aged, iso))[i].voted == Count(AgedKeys(aged, iso), den[i].key)
  {
    var counts := VoteCount(aged, iso);
    var d := den[i].key;
    BucketJoinOnePerBucket(den, counts);
    if d in KeysOf(counts) {
      var j :| 0 <= j < |counts| && KeysOf(counts)[j] == d;
      VotedForIsCount(d, counts, counts[j]);
    } else {
      VotedForMissing(d, counts);
      CountAbsent(AgedKeys(aged, iso), d);
    }
  }

  /** Row `i` of an election's buckets, end to end: it carries bucket `i`'s
      key, its registered count is the SUM of `total_voters` over the
      statistics rows with that key, its rate is NULL exactly when that sum
      is 0, and for a key with no NULL column its voted count is the number
      of the election's matched voters with that key. */
  lemma ElectionBucketRow(
    script: Script, iso: string, mmddyyyy: string, year: int,
    stats: seq<StatsRow>, votes: seq<ElectionVote>, attrs: seq<AttrRow>, i: nat)
    requires i < |Denominator(script, stats, iso, mmddyyyy)|
    ensures var den := Denominator(script, stats, iso, mmddyyyy);
      var kept := ElectionRows(script, stats, mmddyyyy);
      var row := ElectionBuckets(script, iso, mmddyyyy, year, stats, votes, attrs).buckets[i];
      && row.key == den[i].key
      && row.registered == SumFor(KeysOfRows(kept, iso), VoterCounts(kept), den[i].key)
      && (row.rate.None? <==> row.registered == 0)
      && (KeyComplete(den[i].key) ==>
            row.voted == Count(AgedKeys(VotedWithAge(JoinAttrs(Dedupe(votes), attrs), year), iso), den[i].key))
  {
    var den := Denominator(script, stats, iso, mmddyyyy);
    var aged := VotedWithAge(JoinAttrs(Dedupe(votes), attrs), year);
    var counts := VoteCount(aged, iso);
    DenominatorSums(script, stats, iso, mmddyyyy);
    BucketJoinOnePerBucket(den, counts);
    if KeyComplete(den[i].key) {
      BucketVotedIsVoterCount(aged, iso, den, i);
    }
  }
}
