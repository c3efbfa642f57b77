/** The numerator: the election's deduplicated voters joined to their
    registration attributes, the QA counts of that join, and the votes per
    bucket key. */
module Voters {
  import opened Common
  import opened SqlStrings
  import opened Tally
  import opened AgeBands
  import opened History
  import opened VoterStats

  /** Columns 1, 3 and 26 to 30 of one registration line; NULL where the
      line has no such column. */
  datatype AttrLine = AttrLine(
    countyCol: Option<string>, ncidCol: Option<string>, raceCol: Option<string>,
    ethnicCol: Option<string>, partyCol: Option<string>, sexCol: Option<string>,
    birthCol: Option<string>)

  /** A row of `ncvoter_attrs`. */
  datatype AttrRow = AttrRow(
    ncid: string, regCounty: Option<string>, party: Option<string>,
    race: Option<string>, ethnic: Option<string>, sex: Option<string>,
    birthYear: Option<string>)

  /** The WHERE clause of `ncvoter_attrs`. The all-elections script trims
      the cleaned NCID once more before its length and header tests; the
      single-election script tests the cleaned NCID as it is. */
  predicate AttrLoads(script: Script, l: AttrLine) {
    var ncid := CleanOpt(l.ncidCol);
    if script == AllScript then NcidUsable(ncid)
    else ncid.Some? && |ncid.value| > 0 && !LowerIs(ncid.value, "ncid")
  }

  /** The SELECT list of `ncvoter_attrs`. */
  function AttrRowOf(script: Script, l: AttrLine): AttrRow
    requires AttrLoads(script, l)
  {
    AttrRow(CleanOpt(l.ncidCol).value, CleanUpperOpt(l.countyCol), CleanOpt(l.partyCol),
      CleanOpt(l.raceCol), CleanOpt(l.ethnicCol), CleanOpt(l.sexCol), CleanOpt(l.birthCol))
  }

  /** The registration lines that pass the WHERE clause, in order. */
  function AttrsLoaded(script: Script, lines: seq<AttrLine>): (loaded: seq<AttrLine>)
    ensures forall k :: 0 <= k < |loaded| ==> AttrLoads(script, loaded[k]) && loaded[k] in lines
    ensures forall l :: l in lines && AttrLoads(script, l) ==> l in loaded
  {
    Where(lines, (l: AttrLine) => AttrLoads(script, l))
  }

  /** `ncvoter_attrs`: every kept row has a non-empty NCID that is not the
      header word. */
  function Attrs(script: Script, lines: seq<AttrLine>): (attrs: seq<AttrRow>)
    ensures |attrs| <= |lines|
    ensures forall k :: 0 <= k < |attrs| ==> '"' !in attrs[k].ncid
  {
    var loaded := AttrsLoaded(script, lines);
    seq(|loaded|, k requires 0 <= k < |loaded| => AttrRowOf(script, loaded[k]))
  }

  // ---------------------------------------------------------------
  // voted_joined: voted_ncids LEFT JOIN ncvoter_attrs ON ncid
  // ---------------------------------------------------------------

  /** A row of `voted_joined`; the attribute columns are NULL when the NCID
      has no registration row. */
  datatype JoinedRow = JoinedRow(
    votedCounty: Option<string>, regCounty: Option<string>, ncid: string,
    party: Option<string>, race: Option<string>, ethnic: Option<string>,
    sex: Option<string>, birthYear: Option<string>)

  /** The registration rows of one NCID, in order. */
  function AttrsFor(attrs: seq<AttrRow>, ncid: string): (m: seq<AttrRow>)
    ensures forall k :: 0 <= k < |m| ==> m[k].ncid == ncid && m[k] in attrs
    ensures forall a :: a in attrs && a.ncid == ncid ==> a in m
  {
    Where(attrs, HasNcid(ncid))
  }
  /** The join partners of an NCID: each registration row with that NCID as
      often as it occurs, and no other row. */
  lemma AttrsForCounts(attrs: seq<AttrRow>, ncid: string)
    ensures forall a ::
      multiset(AttrsFor(attrs, ncid))[a] == (if a.ncid == ncid then multiset(attrs)[a] else 0)
  {
    WhereCounts(attrs, HasNcid(ncid));
  }


  function HasNcid(ncid: string): AttrRow -> bool {
    (a: AttrRow) => a.ncid == ncid
  }

  /** The LEFT JOIN of one voter: one row per matching registration row,
      or a single row with NULL attributes when there is none. */
  function JoinOne(v: VotedNcid, attrs: seq<AttrRow>): (rows: seq<JoinedRow>)
    ensures |rows| >= 1
    ensures forall k :: 0 <= k < |rows| ==> rows[k].ncid == v.ncid && rows[k].votedCounty == v.votedCounty
  {
    var m := AttrsFor(attrs, v.ncid);
    if |m| == 0 then
      [JoinedRow(v.votedCounty, None, v.ncid, None, None, None, None, None)]
    else
      seq(|m|, k requires 0 <= k < |m| =>
        JoinedRow(v.votedCounty, m[k].regCounty, v.ncid, m[k].party, m[k].race, m[k].ethnic, m[k].sex, m[k].birthYear))
  }

  /** `voted_joined`: no voter is lost by the LEFT JOIN. */
  function JoinAttrs(voted: seq<VotedNcid>, attrs: seq<AttrRow>): (rows: seq<JoinedRow>)
    ensures |rows| >= |voted|
  {
    if |voted| == 0 then []
    else
      var n := |voted| - 1;
      JoinAttrs(voted[..n], attrs) + JoinOne(voted[n], attrs)
  }

  /** Every row of `voted_joined` belongs to a voter. */
  lemma {:induction false} JoinRowsBelong(voted: seq<VotedNcid>, attrs: seq<AttrRow>)
    ensures forall k :: 0 <= k < |JoinAttrs(voted, attrs)| ==>
      VotedNcid(JoinAttrs(voted, attrs)[k].votedCounty, JoinAttrs(voted, attrs)[k].ncid) in voted
  {
    if |voted| > 0 {
      var n := |voted| - 1;
      var front := JoinAttrs(voted[..n], attrs);
      var last := JoinOne(voted[n], attrs);
      var rows := JoinAttrs(voted, attrs);
      JoinRowsBelong(voted[..n], attrs);
      assert rows == front + last;
      forall k | 0 <= k < |rows|
        ensures VotedNcid(rows[k].votedCounty, rows[k].ncid) in voted
      {
        if k < |front| {
          assert rows[k] == front[k];
          assert VotedNcid(front[k].votedCounty, front[k].ncid) in voted[..n];
        } else {
          assert rows[k] == last[k - |front|];
          assert VotedNcid(rows[k].votedCounty, rows[k].ncid) == voted[n];
        }
      }
    }
  }

  /** At most one registration row per NCID. */
  predicate UniqueNcids(attrs: seq<AttrRow>) {
    forall i, j :: 0 <= i < j < |attrs| ==> attrs[i].ncid != attrs[j].ncid
  }

  /** Row `k` of `rows` is the row of voter `k`, for every voter. */
  predicate FollowsVoters(rows: seq<JoinedRow>, voted: seq<VotedNcid>) {
    && |rows| == |voted|
    && forall k :: 0 <= k < |voted| ==> rows[k].ncid == voted[k].ncid && rows[k].votedCounty == voted[k].votedCounty
  }

  /** With at most one registration row per NCID the join is one-to-one:
      row `i` of `voted_joined` is voter `i`. */
  lemma {:induction false} JoinOneToOne(voted: seq<VotedNcid>, attrs: seq<AttrRow>)
    requires UniqueNcids(attrs)
    ensures FollowsVoters(JoinAttrs(voted, attrs), voted)
  {
    if |voted| > 0 {
      var n := |voted| - 1;
      JoinOneToOne(voted[..n], attrs);
      JoinOneSingle(voted[n], attrs);
      assert voted == voted[..n] + [voted[n]];
      FollowOneMore(JoinAttrs(voted[..n], attrs), JoinOne(voted[n], attrs), voted[..n], voted[n]);
    }
  }

  /** Rows that follow their voters still do after one more voter with one
      row. */
  lemma FollowOneMore(front: seq<JoinedRow>, last: seq<JoinedRow>, voted: seq<VotedNcid>, v: VotedNcid)
    requires FollowsVoters(front, voted)
    requires |last| == 1 && last[0].ncid == v.ncid && last[0].votedCounty == v.votedCounty
    ensures FollowsVoters(front + last, voted + [v])
  {
  }

  /** A voter without registration rows keeps one row of NULL attributes;
      otherwise the voter has one row per registration row, carrying its
      attributes. */
  lemma JoinOneMatches(v: VotedNcid, attrs: seq<AttrRow>)
    ensures |AttrsFor(attrs, v.ncid)| == 0 ==>
      JoinOne(v, attrs) == [JoinedRow(v.votedCounty, None, v.ncid, None, None, None, None, None)]
    ensures var m := AttrsFor(attrs, v.ncid);
      |m| > 0 ==> |JoinOne(v, attrs)| == |m|
    ensures var m := AttrsFor(attrs, v.ncid);
      forall k :: 0 <= k < |m| ==>
        JoinOne(v, attrs)[k] ==
        JoinedRow(v.votedCounty, m[k].regCounty, v.ncid, m[k].party, m[k].race, m[k].ethnic, m[k].sex, m[k].birthYear)
  {
  }

  /** With at most one registration row per NCID a voter joins to exactly
      one row. */
  lemma JoinOneSingle(v: VotedNcid, attrs: seq<AttrRow>)
    requires UniqueNcids(attrs)
    ensures |JoinOne(v, attrs)| == 1
  {
    var p := HasNcid(v.ncid);
    assert forall a :: p(a) == (a.ncid == v.ncid);
    WhereAtMostOne(attrs, p);
    JoinOneMatches(v, attrs);
  }

  // ---------------------------------------------------------------
  // QA counts of the join
  // ---------------------------------------------------------------

  /** `reg_county_desc IS NULL`: the voter has no registration row (or a
      registration row without a county). */
  predicate JoinMismatch(j: JoinedRow) {
    j.regCounty.None?
  }

  /** `reg_county_desc IS NOT NULL AND voted_county_desc != reg_county_desc`;
      a NULL voted county makes `!=` NULL, so the row is not counted. */
  predicate CountyMismatch(j: JoinedRow) {
    j.regCounty.Some? && j.votedCounty.Some? && j.votedCounty.value != j.regCounty.value
  }

  /** One QA row: the ISO date, the history label, and the three counts
      with their rates. */
  datatype QaRow = QaRow(
    electionIso: string, electionMmddyyyy: string,
    totalVoted: nat, joinMismatches: nat, joinMismatchRate: real,
    countyMismatches: nat, countyMismatchRate: real)

  /** A ratio whose zero denominator gives 0.0, as the scripts guard it. */
  function GuardedRatio(num: nat, den: int): (r: real)
    ensures den == 0 ==> r == 0.0
    ensures den != 0 ==> r * den as real == num as real
    ensures 0 <= num <= den ==> 0.0 <= r <= 1.0
  {
    if den != 0 then num as real / den as real else 0.0
  }

  /** The QA query and the rates computed from it. The join and county
      mismatches never overlap, so both rates are fractions. */
  function Qa(iso: string, mmddyyyy: string, joined: seq<JoinedRow>): (qa: QaRow)
    ensures qa.electionIso == iso && qa.electionMmddyyyy == mmddyyyy
    ensures qa.totalVoted == |joined|
    ensures qa.joinMismatches + qa.countyMismatches <= qa.totalVoted
    ensures qa.joinMismatches == CountIf(joined, JoinMismatch)
    ensures qa.countyMismatches == CountIf(joined, CountyMismatch)
    ensures qa.joinMismatchRate == GuardedRatio(qa.joinMismatches, qa.totalVoted)
    ensures qa.countyMismatchRate == GuardedRatio(qa.countyMismatches, qa.totalVoted - qa.joinMismatches)
    ensures 0.0 <= qa.joinMismatchRate <= 1.0 && 0.0 <= qa.countyMismatchRate <= 1.0
  {
    var total := |joined|;
    var jm := |Where(joined, JoinMismatch)|;
    var cm := |Where(joined, CountyMismatch)|;
    WhereDisjoint(joined, JoinMismatch, CountyMismatch);
    WhereCountIf(joined, JoinMismatch);
    WhereCountIf(joined, CountyMismatch);
    QaRow(iso, mmddyyyy, total, jm, GuardedRatio(jm, total), cm, GuardedRatio(cm, total - jm))
  }

  // ---------------------------------------------------------------
  // voted_clean, voted_with_age, voted_aggregated
  // ---------------------------------------------------------------

  /** A row of `voted_with_age`: the county is the registration county. */
  datatype AgedRow = AgedRow(
    county: Option<string>, party: Option<string>, race: Option<string>,
    ethnic: Option<string>, sex: Option<string>, ageGroup: string)

  function Matched(joined: seq<JoinedRow>): (m: seq<JoinedRow>)
    ensures |m| <= |joined|
    ensures forall k :: 0 <= k < |m| ==> m[k].regCounty.Some? && m[k] in joined
  {
    Where(joined, (j: JoinedRow) => j.regCounty.Some?)
  }

  function AgedRowOf(j: JoinedRow, electionYear: int): AgedRow {
    AgedRow(j.regCounty, j.party, j.race, j.ethnic, j.sex, Label(BirthYearBand(j.birthYear, electionYear)))
  }

  /** `voted_clean` then `voted_with_age`: the joined rows with a
      registration county, each given its age label. Exactly the join
      mismatches are dropped. */
  function VotedWithAge(joined: seq<JoinedRow>, electionYear: int): (aged: seq<AgedRow>)
    ensures |aged| + |Where(joined, JoinMismatch)| == |joined|
    ensures forall k :: 0 <= k < |aged| ==> aged[k].county.Some?
    ensures |aged| == |Matched(joined)|
    ensures forall k :: 0 <= k < |aged| ==> var j := Matched(joined)[k];
      && aged[k].county == j.regCounty
      && (aged[k].party, aged[k].race, aged[k].ethnic, aged[k].sex) == (j.party, j.race, j.ethnic, j.sex)
      && aged[k].ageGroup == Label(BirthYearBand(j.birthYear, electionYear))
  {
    var m := Matched(joined);
    WhereComplement(joined);
    seq(|m|, k requires 0 <= k < |m| => AgedRowOf(m[k], electionYear))
  }

  /** The matched rows and the join mismatches split the join. */
  lemma {:induction false} WhereComplement(joined: seq<JoinedRow>)
    ensures |Matched(joined)| + |Where(joined, JoinMismatch)| == |joined|
  {
    if |joined| > 0 {
      WhereCons(joined, (j: JoinedRow) => j.regCounty.Some?);
      WhereCons(joined, JoinMismatch);
      WhereComplement(joined[1..]);
    }
  }

  function AgedKey(a: AgedRow, iso: string): BucketKey {
    BucketKey(iso, a.county, a.party, a.race, a.ethnic, a.sex, Some(a.ageGroup))
  }

  function AgedKeys(aged: seq<AgedRow>, iso: string): (keys: seq<BucketKey>)
    ensures |keys| == |aged| && forall k :: 0 <= k < |aged| ==> keys[k] == AgedKey(aged[k], iso)
  {
    seq(|aged|, k requires 0 <= k < |aged| => AgedKey(aged[k], iso))
  }

  /** `voted_aggregated`: `COUNT(*)` per bucket key. Every count carries the
      ISO date, the keys are distinct, each count is the number of voters
      with that key, and the counts add up to the number of voters. */
  function VoteCount(aged: seq<AgedRow>, iso: string): (counts: seq<Group<BucketKey>>)
    ensures Distinct(KeysOf(counts))
    ensures forall i :: 0 <= i < |counts| ==>
      counts[i].key.electionDate == iso && counts[i].total == Count(AgedKeys(aged, iso), counts[i].key)
    ensures forall key :: key in KeysOf(counts) <==> key in AgedKeys(aged, iso)
    ensures TotalOf(counts) == |aged|
  {
    var keys := AgedKeys(aged, iso);
    var counts := GroupCount(keys);
    GroupCountConserves(keys);
    assert forall i :: 0 <= i < |counts| ==> counts[i].key in keys;
    counts
  }
}
