/** The voter-history side of the numerator: which history lines count as
    a vote in the target election, and the reduction to one row per voter
    (NCID), as the two build scripts write them in SQL. */
module History {
  import opened Common
  import opened SqlStrings
  import opened TextOrder

  /** Columns 1 (county), 3 (election label) and 10 (NCID) of one history
      line; NULL where the line is too short. */
  datatype HistoryLine = HistoryLine(countyCol: Option<string>, lblCol: Option<string>, ncidCol: Option<string>)

  /** A row of the `ncvhis_raw` table. */
  datatype HistoryRow = HistoryRow(county: Option<string>, lbl: Option<string>, ncid: Option<string>)

  /** A row of the `ncvhis_election` table: a vote in the target election. */
  datatype ElectionVote = ElectionVote(county: Option<string>, lbl: string, ncid: string)

  /** The NCID tests shared by both scripts: present, not blank, and not the
      header word `ncid` in any letter case. */
  predicate NcidUsable(ncid: Option<string>) {
    ncid.Some? && |Trim(ncid.value)| > 0 && !LowerIs(Trim(ncid.value), "ncid")
  }

  // ---------------------------------------------------------------
  // Single-election script: load, then filter to the target label.
  // ---------------------------------------------------------------

  /** The WHERE clause of `ncvhis_raw` in the single-election script. */
  predicate SingleLoads(l: HistoryLine) {
    l.lblCol.Some? && |Trim(l.lblCol.value)| > 0
  }

  /** The SELECT list of `ncvhis_raw` in the single-election script: the
      label is only trimmed, so its quotes stay. */
  function SingleRow(l: HistoryLine): HistoryRow {
    HistoryRow(CleanUpperOpt(l.countyCol), TrimOpt(l.lblCol), CleanOpt(l.ncidCol))
  }

  /** `ncvhis_raw` of the single-election script: lines with a blank label
      are dropped, so every row has a non-empty label. */
  function SingleRaw(lines: seq<HistoryLine>): (rows: seq<HistoryRow>)
    ensures |rows| <= |lines|
    ensures forall k :: 0 <= k < |rows| ==> rows[k].lbl.Some? && |rows[k].lbl.value| > 0
  {
    var loaded := Where(lines, SingleLoads);
    seq(|loaded|, k requires 0 <= k < |loaded| => SingleRow(loaded[k]))
  }

  /** A loaded row is the SELECT of a line whose label is not blank. */
  lemma SingleRawSound(lines: seq<HistoryLine>, r: HistoryRow)
    requires r in SingleRaw(lines)
    ensures exists l :: l in lines && SingleLoads(l) && r == SingleRow(l)
  {
    var loaded := Where(lines, SingleLoads);
    var rows := SingleRaw(lines);
    var k :| 0 <= k < |rows| && rows[k] == r;
    assert loaded[k] in lines && r == SingleRow(loaded[k]);
  }

  /** Every line whose label is not blank is loaded. */
  lemma SingleRawComplete(lines: seq<HistoryLine>, l: HistoryLine)
    requires l in lines && SingleLoads(l)
    ensures SingleRow(l) in SingleRaw(lines)
  {
    var loaded := Where(lines, SingleLoads);
    var i :| 0 <= i < |lines| && lines[i] == l;
    assert l in loaded;
    var k :| 0 <= k < |loaded| && loaded[k] == l;
    assert SingleRaw(lines)[k] == SingleRow(l);
  }

  /** The WHERE clause of `ncvhis_election` in the single-election script. */
  predicate SingleKeeps(row: HistoryRow, target: string) {
    && row.lbl.Some?
    && !LowerIs(RemoveQuotes(row.lbl.value), "election_lbl")
    && RemoveQuotes(row.lbl.value) == target
    && NcidUsable(row.ncid)
  }

  /** The SELECT list of `ncvhis_election`: the label loses its quotes. */
  function SingleVote(row: HistoryRow): ElectionVote
    requires row.lbl.Some? && row.ncid.Some?
  {
    ElectionVote(row.county, RemoveQuotes(row.lbl.value), row.ncid.value)
  }

  /** The history rows that pass the single-election filter, in order. */
  function SingleKept(rows: seq<HistoryRow>, target: string): (kept: seq<HistoryRow>)
    ensures forall k :: 0 <= k < |kept| ==> SingleKeeps(kept[k], target)
  {
    Where(rows, (r: HistoryRow) => SingleKeeps(r, target))
  }

  /** `ncvhis_election` of the single-election script. Every kept vote
      carries the target label, is not the header line and has a usable
      NCID. */
  function SingleElection(rows: seq<HistoryRow>, target: string): (votes: seq<ElectionVote>)
    ensures |votes| <= |rows|
    ensures forall k :: 0 <= k < |votes| ==>
      && votes[k].lbl == target
      && !LowerIs(votes[k].lbl, "election_lbl")
      && |Trim(votes[k].ncid)| > 0 && !LowerIs(Trim(votes[k].ncid), "ncid")
  {
    var kept := SingleKept(rows, target);
    seq(|kept|, k requires 0 <= k < |kept| => SingleVote(kept[k]))
  }

  /** A vote is kept exactly when it is the vote of a history row that
      passes the filter. */
  lemma SingleElectionExact(rows: seq<HistoryRow>, target: string, v: ElectionVote)
    ensures v in SingleElection(rows, target) <==>
      exists r :: r in rows && SingleKeeps(r, target) && v == SingleVote(r)
  {
    if v in SingleElection(rows, target) {
      SingleElectionSound(rows, target, v);
    }
    if exists r :: r in rows && SingleKeeps(r, target) && v == SingleVote(r) {
      var r :| r in rows && SingleKeeps(r, target) && v == SingleVote(r);
      SingleElectionComplete(rows, target, r);
    }
  }

  lemma SingleElectionSound(rows: seq<HistoryRow>, target: string, v: ElectionVote)
    requires v in SingleElection(rows, target)
    ensures exists r :: r in rows && SingleKeeps(r, target) && v == SingleVote(r)
  {
    var kept := SingleKept(rows, target);
    var votes := SingleElection(rows, target);
    var k :| 0 <= k < |votes| && votes[k] == v;
    assert kept[k] in rows;
  }

  lemma SingleElectionComplete(rows: seq<HistoryRow>, target: string, r: HistoryRow)
    requires r in rows && SingleKeeps(r, target)
    ensures SingleVote(r) in SingleElection(rows, target)
  {
    var kept := SingleKept(rows, target);
    assert r in kept;
    var k :| 0 <= k < |kept| && kept[k] == r;
    assert SingleElection(rows, target)[k] == SingleVote(r);
  }

  /** The header test is redundant unless the target itself reads
      `election_lbl`: for a real date label only the equality and the NCID
      tests decide. */
  lemma SingleHeaderTestRedundant(row: HistoryRow, target: string)
    requires !LowerIs(target, "election_lbl")
    ensures SingleKeeps(row, target) <==>
      row.lbl.Some? && RemoveQuotes(row.lbl.value) == target && NcidUsable(row.ncid)
  {
  }

  // ---------------------------------------------------------------
  // All-elections script: filter once on load, then by label per election.
  // ---------------------------------------------------------------

  /** The SELECT list of `ncvhis_raw` in the all-elections script. */
  function AllRow(l: HistoryLine): HistoryRow {
    HistoryRow(CleanUpperOpt(l.countyCol), CleanOpt(l.lblCol), CleanOpt(l.ncidCol))
  }

  /** The WHERE clause of `ncvhis_raw` in the all-elections script, on the
      cleaned label and NCID. */
  predicate AllKeeps(row: HistoryRow) {
    && row.lbl.Some?
    && |Trim(row.lbl.value)| > 0
    && !LowerIs(Trim(row.lbl.value), "election_lbl")
    && NcidUsable(row.ncid)
  }

  /** Every history line with its columns cleaned, before filtering. */
  function AllCleaned(lines: seq<HistoryLine>): (cleaned: seq<HistoryRow>)
    ensures |cleaned| == |lines|
    ensures forall i :: 0 <= i < |lines| ==> cleaned[i] == AllRow(lines[i])
  {
    seq(|lines|, i requires 0 <= i < |lines| => AllRow(lines[i]))
  }

  /** `ncvhis_raw` of the all-elections script, loaded once for every
      election: the cleaned lines that pass the filter. */
  function AllRaw(lines: seq<HistoryLine>): (rows: seq<HistoryRow>)
    ensures |rows| <= |lines|
    ensures forall k :: 0 <= k < |rows| ==> AllKeeps(rows[k])
  {
    Where(AllCleaned(lines), AllKeeps)
  }

  /** The SELECT list of `ncvhis_election` in the all-elections script. */
  function AllVote(row: HistoryRow): ElectionVote
    requires row.lbl.Some? && row.ncid.Some?
  {
    ElectionVote(row.county, row.lbl.value, row.ncid.value)
  }

  /** The loaded rows whose label equals the target, in order. */
  function LabelKept(rows: seq<HistoryRow>, target: string): (kept: seq<HistoryRow>)
    requires forall k :: 0 <= k < |rows| ==> AllKeeps(rows[k])
    ensures forall k :: 0 <= k < |kept| ==> kept[k] in rows && kept[k].lbl == Some(target) && AllKeeps(kept[k])
  {
    Where(rows, (r: HistoryRow) => r.lbl == Some(target))
  }

  /** `ncvhis_election` of the all-elections script: the loaded rows whose
      label equals the target. */
  function AllElection(rows: seq<HistoryRow>, target: string): (votes: seq<ElectionVote>)
    requires forall k :: 0 <= k < |rows| ==> AllKeeps(rows[k])
    ensures |votes| <= |rows|
    ensures forall k :: 0 <= k < |votes| ==> votes[k].lbl == target
  {
    var kept := LabelKept(rows, target);
    seq(|kept|, k requires 0 <= k < |kept| => AllVote(kept[k]))
  }

  /** A vote of the all-elections script is exactly the vote of a history
      line that passes the load filter and carries the target label. */
  lemma AllElectionExact(lines: seq<HistoryLine>, target: string, v: ElectionVote)
    ensures v in AllElection(AllRaw(lines), target) <==>
      exists l :: l in lines && AllKeeps(AllRow(l)) && AllRow(l).lbl == Some(target) && v == AllVote(AllRow(l))
  {
    var rows := AllRaw(lines);
    if v in AllElection(rows, target) {
      AllElectionSound(rows, target, v);
      var r :| r in rows && r.lbl == Some(target) && v == AllVote(r);
      AllRawSound(lines, r);
    }
    if exists l :: l in lines && AllKeeps(AllRow(l)) && AllRow(l).lbl == Some(target) && v == AllVote(AllRow(l)) {
      var l :| l in lines && AllKeeps(AllRow(l)) && AllRow(l).lbl == Some(target) && v == AllVote(AllRow(l));
      AllRawComplete(lines, l);
      AllElectionComplete(rows, target, AllRow(l));
    }
  }

  /** A loaded row is the cleaned form of a line that passes the filter. */
  lemma AllRawSound(lines: seq<HistoryLine>, r: HistoryRow)
    requires r in AllRaw(lines)
    ensures exists l :: l in lines && AllKeeps(AllRow(l)) && r == AllRow(l)
  {
    var cleaned := AllCleaned(lines);
    assert r in cleaned;
    var i :| 0 <= i < |cleaned| && cleaned[i] == r;
    assert lines[i] in lines && r == AllRow(lines[i]);
  }

  /** A line that passes the filter is loaded. */
  lemma AllRawComplete(lines: seq<HistoryLine>, l: HistoryLine)
    requires l in lines && AllKeeps(AllRow(l))
    ensures AllRow(l) in AllRaw(lines)
  {
    var i :| 0 <= i < |lines| && lines[i] == l;
    assert AllCleaned(lines)[i] == AllRow(l);
  }

  /** An election's vote comes from a loaded row with its label. */
  lemma AllElectionSound(rows: seq<HistoryRow>, target: string, v: ElectionVote)
    requires forall k :: 0 <= k < |rows| ==> AllKeeps(rows[k])
    requires v in AllElection(rows, target)
    ensures exists r :: r in rows && r.lbl == Some(target) && AllKeeps(r) && v == AllVote(r)
  {
    var kept := LabelKept(rows, target);
    var votes := AllElection(rows, target);
    var k :| 0 <= k < |votes| && votes[k] == v;
    assert kept[k] in rows && votes[k] == AllVote(kept[k]);
  }

  /** Every loaded row with the election's label gives a vote. */
  lemma AllElectionComplete(rows: seq<HistoryRow>, target: string, r: HistoryRow)
    requires forall k :: 0 <= k < |rows| ==> AllKeeps(rows[k])
    requires r in rows && r.lbl == Some(target) && AllKeeps(r)
    ensures AllVote(r) in AllElection(rows, target)
  {
    var kept := LabelKept(rows, target);
    assert r in kept;
    var k :| 0 <= k < |kept| && kept[k] == r;
    assert AllElection(rows, target)[k] == AllVote(r);
  }

  /** Every vote of the all-elections script has a non-blank label that is
      not the header word, and a usable NCID. */
  lemma AllElectionClean(rows: seq<HistoryRow>, target: string, v: ElectionVote)
    requires forall k :: 0 <= k < |rows| ==> AllKeeps(rows[k])
    requires v in AllElection(rows, target)
    ensures v.lbl == target
    ensures |Trim(v.lbl)| > 0 && !LowerIs(Trim(v.lbl), "election_lbl")
    ensures |Trim(v.ncid)| > 0 && !LowerIs(Trim(v.ncid), "ncid")
  {
    AllElectionSound(rows, target, v);
  }

  // ---------------------------------------------------------------
  // `voted_ncids`: row_number() OVER (PARTITION BY ncid ORDER BY county_desc) = 1
  // ---------------------------------------------------------------

  /** A row of `voted_ncids`. */
  datatype VotedNcid = VotedNcid(votedCounty: Option<string>, ncid: string)

  /** The `ncid` column of a list of votes. */
  function NcidColumn(votes: seq<ElectionVote>): seq<string> {
    Map(votes, (v: ElectionVote) => v.ncid)
  }

  /** The `ncid` column of `voted_ncids`. */
  function VotedNcidColumn(voted: seq<VotedNcid>): seq<string> {
    Map(voted, (v: VotedNcid) => v.ncid)
  }

  /** The county that sorts first (NULLS LAST) among the votes for `id`;
      NULL when there are none. */
  function FirstCounty(votes: seq<ElectionVote>, id: string): Option<string> {
    if |votes| == 0 then None
    else
      var m := FirstCounty(votes[..|votes| - 1], id);
      var last := votes[|votes| - 1];
      if last.ncid == id then NullsLastMin(m, last.county) else m
  }

  lemma {:induction false} NoVotesNoCounty(votes: seq<ElectionVote>, id: string)
    requires forall j :: 0 <= j < |votes| ==> votes[j].ncid != id
    ensures FirstCounty(votes, id) == None
  {
    if |votes| > 0 { NoVotesNoCounty(votes[..|votes| - 1], id); }
  }

  /** `FirstCounty` sorts no later than the county of any vote for `id`,
      and is the county of one of them. */
  lemma {:induction false} FirstCountyIsMinimum(votes: seq<ElectionVote>, id: string)
    requires exists j :: 0 <= j < |votes| && votes[j].ncid == id
    ensures forall j :: 0 <= j < |votes| && votes[j].ncid == id ==>
      NullsLastLe(FirstCounty(votes, id), votes[j].county)
    ensures exists j :: (0 <= j < |votes| && votes[j].ncid == id && votes[j].county == FirstCounty(votes, id))
  {
    var front := votes[..|votes| - 1];
    var last := votes[|votes| - 1];
    var m := FirstCounty(front, id);
    assert forall j :: 0 <= j < |front| ==> front[j] == votes[j];
    if exists j :: 0 <= j < |front| && front[j].ncid == id {
      FirstCountyIsMinimum(front, id);
      if last.ncid == id {
        var r := NullsLastMin(m, last.county);
        forall j | 0 <= j < |votes| && votes[j].ncid == id
          ensures NullsLastLe(r, votes[j].county)
        {
          if j < |front| { NullsLastTransitive(r, m, votes[j].county); }
        }
      }
    } else {
      assert last.ncid == id;
      NoVotesNoCounty(front, id);
      assert NullsLastMin(None, last.county) == last.county;
      NullsLastReflexive(last.county);
    }
  }

  /** `voted_ncids`: one row per NCID of the election's votes, in order of
      first appearance, with the county that sorts first for that NCID. */
  function Dedupe(votes: seq<ElectionVote>): (voted: seq<VotedNcid>)
    ensures Distinct(VotedNcidColumn(voted))
    ensures forall id :: id in VotedNcidColumn(voted) <==> id in NcidColumn(votes)
  {
    var ids := Unique(NcidColumn(votes));
    var voted := seq(|ids|, i requires 0 <= i < |ids| => VotedNcid(FirstCounty(votes, ids[i]), ids[i]));
    assert VotedNcidColumn(voted) == ids;
    voted
  }

  /** Each deduplicated row keeps, for its NCID, the county that sorts
      first among that NCID's votes (NULL only if all are NULL), and that
      county is one actually recorded for the NCID. */
  lemma DedupeKeepsFirstCounty(votes: seq<ElectionVote>, k: nat)
    requires k < |Dedupe(votes)|
    ensures forall j :: 0 <= j < |votes| && votes[j].ncid == Dedupe(votes)[k].ncid ==>
      NullsLastLe(Dedupe(votes)[k].votedCounty, votes[j].county)
    ensures exists j :: (0 <= j < |votes| && votes[j].ncid == Dedupe(votes)[k].ncid &&
      votes[j].county == Dedupe(votes)[k].votedCounty)
  {
    var d := Dedupe(votes)[k];
    assert d.ncid == VotedNcidColumn(Dedupe(votes))[k];
    assert d.ncid in NcidColumn(votes);
    FirstCountyIsMinimum(votes, d.ncid);
  }
}
