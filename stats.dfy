/** The denominator: registered voters per demographic bucket, read from
    one voter-statistics file and summed per 7-field key. */
module VoterStats {
  import opened Common
  import opened SqlStrings
  import opened Tally

  /** Which of the two build scripts a rule belongs to, where they differ. */
  datatype Script = SingleScript | AllScript

  /** Columns 0, 1, 2 and 5 to 10 of one voter-statistics line; NULL where
      the line has no such column. */
  datatype StatsLine = StatsLine(
    countyCol: Option<string>, dateCol: Option<string>, typeCol: Option<string>,
    partyCol: Option<string>, raceCol: Option<string>, ethnicCol: Option<string>,
    sexCol: Option<string>, ageCol: Option<string>, totalCol: Option<string>)

  /** A row of `voter_stats_raw`. */
  datatype StatsRow = StatsRow(
    county: Option<string>, electionDateRaw: Option<string>, statsType: Option<string>,
    party: Option<string>, race: Option<string>, ethnic: Option<string>,
    sex: Option<string>, ageGroup: Option<string>, totalVoters: int)

  /** The 7-field bucket key shared by the denominator, the vote counts and
      the output: the election's ISO date, then six demographic fields. */
  datatype BucketKey = BucketKey(
    electionDate: string, county: Option<string>, party: Option<string>,
    race: Option<string>, ethnic: Option<string>, sex: Option<string>,
    ageGroup: Option<string>)

  /** `TRY_CAST(replace(trim(column10), '"', '') AS ...)`: INTEGER in the
      single-election script, BIGINT in the all-elections script. */
  function TotalVoters(script: Script, l: StatsLine): (n: Option<int>)
    ensures n.Some? ==> l.totalCol.Some?
    ensures n.Some? && script == SingleScript ==> IntegerMin <= n.value <= IntegerMax
    ensures n.Some? && script == AllScript ==> BigintMin <= n.value <= BigintMax
  {
    match CleanOpt(l.totalCol)
    case None => None
    case Some(t) => if script == SingleScript then TryCastInteger(t) else TryCastBigint(t)
  }

  /** The WHERE clause of `voter_stats_raw`: the count casts. */
  predicate StatsLoads(script: Script, l: StatsLine) {
    TotalVoters(script, l).Some?
  }

  /** The SELECT list of `voter_stats_raw`. */
  function StatsRowOf(script: Script, l: StatsLine): StatsRow
    requires StatsLoads(script, l)
  {
    StatsRow(CleanUpperOpt(l.countyCol), CleanOpt(l.dateCol), CleanOpt(l.typeCol),
      CleanOpt(l.partyCol), CleanOpt(l.raceCol), CleanOpt(l.ethnicCol),
      CleanOpt(l.sexCol), CleanOpt(l.ageCol), TotalVoters(script, l).value)
  }

  function StatsLoaded(script: Script, lines: seq<StatsLine>): (loaded: seq<StatsLine>)
    ensures forall k :: 0 <= k < |loaded| ==> StatsLoads(script, loaded[k]) && loaded[k] in lines
    ensures forall l :: l in lines && StatsLoads(script, l) ==> l in loaded
  {
    Where(lines, (l: StatsLine) => StatsLoads(script, l))
  }
  /** Loading keeps every line whose total casts, as often as it occurs,
      and no other line. */
  lemma StatsLoadedCounts(script: Script, lines: seq<StatsLine>)
    ensures forall l ::
      multiset(StatsLoaded(script, lines))[l] == (if StatsLoads(script, l) then multiset(lines)[l] else 0)
  {
    WhereCounts(lines, (l: StatsLine) => StatsLoads(script, l));
  }


  /** `voter_stats_raw`: the lines whose count casts, cleaned; no cleaned
      text column keeps a double quote. */
  function StatsRaw(script: Script, lines: seq<StatsLine>): (rows: seq<StatsRow>)
    ensures |rows| <= |lines|
    ensures forall k :: 0 <= k < |rows| ==>
      (rows[k].electionDateRaw.Some? ==> '"' !in rows[k].electionDateRaw.value)
  {
    var loaded := StatsLoaded(script, lines);
    seq(|loaded|, k requires 0 <= k < |loaded| => StatsRowOf(script, loaded[k]))
  }

  /** `replace(x, '"', '')` with NULL passed through. */
  function RemoveQuotesOpt(x: Option<string>): (r: Option<string>)
    ensures x.None? ==> r.None?
    ensures x.Some? && '"' !in x.value ==> r == x
  {
    if x.Some? then Some(RemoveQuotes(x.value)) else None
  }

  /** The WHERE clause of `voter_stats_denominator`: the row belongs to the
      election (the single-election script strips quotes from the date once
      more) and is a count of voters. */
  predicate CountsForElection(script: Script, r: StatsRow, mmddyyyy: string) {
    && SqlEq(if script == SingleScript then RemoveQuotesOpt(r.electionDateRaw) else r.electionDateRaw,
             Some(mmddyyyy))
    && r.statsType.Some? && LowerIs(r.statsType.value, "voter")
  }

  /** On rows of `voter_stats_raw` the extra quote removal of the
      single-election script changes nothing: both scripts select the same
      rows. */
  lemma DateFiltersAgree(r: StatsRow, mmddyyyy: string)
    requires r.electionDateRaw.Some? ==> '"' !in r.electionDateRaw.value
    ensures CountsForElection(SingleScript, r, mmddyyyy) <==> CountsForElection(AllScript, r, mmddyyyy)
  {
  }

  function ElectionRows(script: Script, rows: seq<StatsRow>, mmddyyyy: string): (kept: seq<StatsRow>)
    ensures forall k :: 0 <= k < |kept| ==> CountsForElection(script, kept[k], mmddyyyy) && kept[k] in rows
    ensures forall r :: r in rows && CountsForElection(script, r, mmddyyyy) ==> r in kept
  {
    Where(rows, (r: StatsRow) => CountsForElection(script, r, mmddyyyy))
  }
  /** The rows summed for an election: each of its `voter` rows as often as
      it occurs in `voter_stats_raw`, and no other row. */
  lemma ElectionRowsCounts(script: Script, rows: seq<StatsRow>, mmddyyyy: string)
    ensures forall r ::
      multiset(ElectionRows(script, rows, mmddyyyy))[r] == (if CountsForElection(script, r, mmddyyyy) then multiset(rows)[r] else 0)
  {
    WhereCounts(rows, (r: StatsRow) => CountsForElection(script, r, mmddyyyy));
  }


  function KeyOf(r: StatsRow, iso: string): BucketKey {
    BucketKey(iso, r.county, r.party, r.race, r.ethnic, r.sex, r.ageGroup)
  }

  function KeysOfRows(rows: seq<StatsRow>, iso: string): (keys: seq<BucketKey>)
    ensures |keys| == |rows| && forall k :: 0 <= k < |rows| ==> keys[k] == KeyOf(rows[k], iso)
  {
    seq(|rows|, k requires 0 <= k < |rows| => KeyOf(rows[k], iso))
  }

  function VoterCounts(rows: seq<StatsRow>): (ns: seq<int>)
    ensures |ns| == |rows| && forall k :: 0 <= k < |rows| ==> ns[k] == rows[k].totalVoters
  {
    seq(|rows|, k requires 0 <= k < |rows| => rows[k].totalVoters)
  }

  /** `voter_stats_denominator`: `SUM(total_voters)` per bucket key over
      the election's voter rows. Every bucket carries the ISO date and the
      keys are distinct. */
  function Denominator(script: Script, rows: seq<StatsRow>, iso: string, mmddyyyy: string): (den: seq<Group<BucketKey>>)
    ensures forall i :: 0 <= i < |den| ==> den[i].key.electionDate == iso
    ensures Distinct(KeysOf(den))
  {
    var kept := ElectionRows(script, rows, mmddyyyy);
    var keys := KeysOfRows(kept, iso);
    var den := GroupSum(keys, VoterCounts(kept));
    assert forall i :: 0 <= i < |den| ==> den[i].key in keys;
    den
  }

  /** Every bucket comes from a voter row of the election. */
  lemma DenominatorKeySound(script: Script, rows: seq<StatsRow>, iso: string, mmddyyyy: string, key: BucketKey)
    requires key in KeysOf(Denominator(script, rows, iso, mmddyyyy))
    ensures exists r :: r in rows && CountsForElection(script, r, mmddyyyy) && KeyOf(r, iso) == key
  {
    var kept := ElectionRows(script, rows, mmddyyyy);
    var keys := KeysOfRows(kept, iso);
    assert key in keys;
    var k :| 0 <= k < |keys| && keys[k] == key;
    assert kept[k] in rows && CountsForElection(script, kept[k], mmddyyyy);
  }

  /** Every voter row of the election has its bucket. */
  lemma DenominatorKeyComplete(script: Script, rows: seq<StatsRow>, iso: string, mmddyyyy: string, r: StatsRow)
    requires r in rows && CountsForElection(script, r, mmddyyyy)
    ensures KeyOf(r, iso) in KeysOf(Denominator(script, rows, iso, mmddyyyy))
  {
    var kept := ElectionRows(script, rows, mmddyyyy);
    var keys := KeysOfRows(kept, iso);
    var k :| 0 <= k < |kept| && kept[k] == r;
    assert keys[k] == KeyOf(r, iso);
  }

  /** Each bucket's registered count is the sum of `total_voters` over the
      election's voter rows with that key, and the buckets together hold
      every such voter. */
  lemma DenominatorSums(script: Script, rows: seq<StatsRow>, iso: string, mmddyyyy: string)
    ensures var kept := ElectionRows(script, rows, mmddyyyy);
      var den := Denominator(script, rows, iso, mmddyyyy);
      && (forall i :: 0 <= i < |den| ==>
            den[i].total == SumFor(KeysOfRows(kept, iso), VoterCounts(kept), den[i].key))
      && TotalOf(den) == Sum(VoterCounts(kept))
  {
    var kept := ElectionRows(script, rows, mmddyyyy);
    GroupSumConserves(KeysOfRows(kept, iso), VoterCounts(kept));
  }
}
