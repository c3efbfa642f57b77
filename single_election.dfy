/** `main` of the single-election script: convert the election label, then
    run the pipeline for that one election over its three inputs. */
module SingleBuild {
  import opened Common
  import opened DateLabels
  import opened History
  import opened VoterStats
  import opened Voters
  import opened Buckets

  /** The label conversions happen before any input is read, so a label
      that is not `m/d/y` stops with an unpacking error and one whose year
      is not an integer with a value error; otherwise every bucket row
      carries the label's ISO date, one per denominator bucket. The SQL
      text into which the script pastes the label is not modelled, so a
      label holding a `'` is not stopped here. */
  function BuildSingle(
    mmddyyyy: string, statsLines: seq<StatsLine>, historyLines: seq<HistoryLine>,
    attrLines: seq<AttrLine>): (r: Result<ElectionOutput>)
    ensures MmddyyyyToIso(mmddyyyy).Err? ==> r == Err(UnpackError)
    ensures MmddyyyyToIso(mmddyyyy).Ok? && YearOf(MmddyyyyToIso(mmddyyyy).value).Err? ==>
      r == Err(ValueError)
    ensures MmddyyyyToIso(mmddyyyy).Ok? && YearOf(MmddyyyyToIso(mmddyyyy).value).Ok? ==> r.Ok?
    ensures r.Ok? ==>
      var iso := MmddyyyyToIso(mmddyyyy).value;
      && MmddyyyyToIso(mmddyyyy).Ok? && YearOf(iso).Ok?
      && r.value.qa.electionIso == iso && r.value.qa.electionMmddyyyy == mmddyyyy
      && |r.value.buckets| == |Denominator(SingleScript, StatsRaw(SingleScript, statsLines), iso, mmddyyyy)|
      && forall k :: 0 <= k < |r.value.buckets| ==> r.value.buckets[k].key.electionDate == iso
  {
    match MmddyyyyToIso(mmddyyyy)
    case Err(f) => Err(f)
    case Ok(iso) =>
      match YearOf(iso)
      case Err(f) => Err(f)
      case Ok(year) =>
        var stats := StatsRaw(SingleScript, statsLines);
        var votes := SingleElection(SingleRaw(historyLines), mmddyyyy);
        var attrs := Attrs(SingleScript, attrLines);
        Ok(ElectionBuckets(SingleScript, iso, mmddyyyy, year, stats, votes, attrs))
  }

  /** The default label `11/04/2025` builds the buckets of `2025-11-04`. */
  lemma DefaultLabelBuilds(statsLines: seq<StatsLine>, historyLines: seq<HistoryLine>, attrLines: seq<AttrLine>)
    ensures BuildSingle("11/04/2025", statsLines, historyLines, attrLines).Ok?
    ensures BuildSingle("11/04/2025", statsLines, historyLines, attrLines).value.qa.electionIso == "2025-11-04"
  {
    DefaultLabelYear();
  }

  /** `11/04/2025` converts to `2025-11-04`, whose year reads back. */
  lemma DefaultLabelYear()
    ensures MmddyyyyToIso("11/04/2025") == Ok("2025-11-04")
    ensures YearOf("2025-11-04").Ok?
  {
    var s := "20251104";
    assert Decimal.IsDigits(s);
    FileDateToIso(s);
    assert YyyymmddToMmddyyyy(s) == "11/04/2025";
    assert s[0..4] + "-" + s[4..6] + "-" + s[6..8] == "2025-11-04";
  }
}
