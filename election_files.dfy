/** `main` of the all-elections script: the voter-statistics files are
    walked in sorted path order; a file whose name is not
    `voter_stats_YYYYMMDD.txt` is skipped, and every other one adds one QA
    row and its election's buckets to the accumulated output. */
module ElectionFiles {
  import opened Common
  import opened PyStrings
  import opened TextOrder
  import Decimal
  import opened DateLabels
  import opened History
  import opened VoterStats
  import opened Voters
  import opened Buckets

  /** One voter-statistics file found by the glob: its path and its lines. */
  datatype StatsFile = StatsFile(path: string, lines: seq<StatsLine>)

  // ---------------------------------------------------------------
  // File-name acceptance
  // ---------------------------------------------------------------

  /** `Path(p).name.replace("voter_stats_", "").replace(".txt", "")`. */
  function DateDigits(path: string): (digits: string)
    ensures |digits| <= |PathName(path)|
  {
    RemoveAll(RemoveAll(PathName(path), "voter_stats_"), ".txt")
  }

  /** The file is processed: what is left of its name is eight digits. */
  predicate Accepted(path: string)
    ensures Accepted(path) ==> |PathName(path)| >= 8
  {
    var digits := DateDigits(path);
    |digits| == 8 && Decimal.IsDigits(digits)
  }

  /** A file named `voter_stats_YYYYMMDD.txt`, in any directory, yields
      exactly its eight digits and is accepted. */
  lemma CanonicalNameAccepted(dir: string, yyyymmdd: string)
    requires |yyyymmdd| == 8 && Decimal.IsDigits(yyyymmdd)
    ensures DateDigits(dir + "/voter_stats_" + yyyymmdd + ".txt") == yyyymmdd
    ensures Accepted(dir + "/voter_stats_" + yyyymmdd + ".txt")
  {
    var name := "voter_stats_" + yyyymmdd + ".txt";
    assert dir + "/voter_stats_" + yyyymmdd + ".txt" == dir + "/" + name;
    assert '/' !in name by { NoSlashInName(yyyymmdd); }
    PathNameOfJoin(dir, name);
    StripPrefix(yyyymmdd);
    StripSuffix(yyyymmdd);
  }

  /** A piece of a file name: the prefix, the extension, or a run of
      ASCII digits. */
  predicate NamePiece(w: string) {
    w == "voter_stats_" || w == ".txt" || DigitRun(w)
  }

  /** A `.` in a name made of pieces comes from an extension, so the name
      has at least its four characters. */
  lemma {:induction false} DotNeedsExtension(ws: seq<string>)
    requires forall w :: w in ws ==> NamePiece(w)
    ensures '.' in Concat(ws) ==> |Concat(ws)| >= 4
  {
    if |ws| > 0 {
      DotNeedsExtension(ws[1..]);
      var w := ws[0];
      assert NamePiece(w);
      if w != ".txt" && w != "voter_stats_" {
        forall i | 0 <= i < |w| ensures w[i] != '.' { assert Decimal.IsDigit(w[i]); }
      }
    }
  }

  /** Both `replace` calls remove every occurrence, wherever it stands: a
      file name made of prefixes, extensions and digit runs, in any order,
      yields its digit runs joined in order. */
  lemma DateDigitsOfPieces(dir: string, ws: seq<string>)
    requires forall w :: w in ws ==> NamePiece(w)
    requires |Concat(ws)| > 0
    ensures DateDigits(dir + "/" + Concat(ws)) == Concat(Without(Without(ws, "voter_stats_"), ".txt"))
  {
    var name := Concat(ws);
    forall w | w in ws ensures '/' !in w {
      assert NamePiece(w);
      if w != "voter_stats_" && w != ".txt" {
        forall i | 0 <= i < |w| ensures w[i] != '/' { assert Decimal.IsDigit(w[i]); }
      }
    }
    ConcatLacks(ws, '/');
    DotNeedsExtension(ws);
    assert name != "." by {
      assert |name| == 1 ==> '.' !in name;
    }
    PathNameOfJoin(dir, name);
    forall w | w in ws ensures w == "voter_stats_" || 'v' !in w {
      assert NamePiece(w);
      if w != "voter_stats_" && w != ".txt" {
        forall i | 0 <= i < |w| ensures w[i] != 'v' { assert Decimal.IsDigit(w[i]); }
      }
    }
    RemoveAllPieces(ws, "voter_stats_");
    var ws' := Without(ws, "voter_stats_");
    forall w | w in ws' ensures w == ".txt" || '.' !in w {
      assert NamePiece(w);
      if w != ".txt" {
        forall i | 0 <= i < |w| ensures w[i] != '.' { assert Decimal.IsDigit(w[i]); }
      }
    }
    RemoveAllPieces(ws', ".txt");
  }

  /** Only ASCII digits, possibly none. */
  predicate DigitRun(w: string) {
    forall i :: 0 <= i < |w| ==> Decimal.IsDigit(w[i])
  }

  /** A digit run is neither the prefix nor the extension. */
  lemma DigitRunNotPattern(w: string)
    requires DigitRun(w)
    ensures w != "voter_stats_" && w != ".txt"
  {
    assert "voter_stats_"[0] == 'v' && ".txt"[0] == '.';
    assert |w| > 0 ==> Decimal.IsDigit(w[0]);
  }

  /** The pieces of `voter_stats_<a>.txt<b>` and what both removals leave. */
  lemma StrayPieces(a: string, b: string)
    requires DigitRun(a) && DigitRun(b)
    ensures Concat(["voter_stats_", a, ".txt", b]) == "voter_stats_" + a + ".txt" + b
    ensures Without(Without(["voter_stats_", a, ".txt", b], "voter_stats_"), ".txt") == [a, b]
  {
    ConcatFour("voter_stats_", a, ".txt", b);
    DigitRunNotPattern(a);
    DigitRunNotPattern(b);
    WithoutFour("voter_stats_", a, ".txt", b, "voter_stats_");
    var ws' := Without(["voter_stats_", a, ".txt", b], "voter_stats_");
    assert ws' == [a, ".txt", b];
    WithoutCons(a, [".txt", b], ".txt");
    WithoutCons(".txt", [b], ".txt");
    WithoutCons(b, [], ".txt");
    assert ws' == [a] + ([".txt"] + ([b] + []));
  }

  /** The pieces of `voter_stats_<a>.txt.txt` and what both removals leave. */
  lemma DoublePieces(a: string)
    requires DigitRun(a)
    ensures Concat(["voter_stats_", a, ".txt", ".txt"]) == "voter_stats_" + a + ".txt.txt"
    ensures Without(Without(["voter_stats_", a, ".txt", ".txt"], "voter_stats_"), ".txt") == [a]
  {
    ConcatFour("voter_stats_", a, ".txt", ".txt");
    assert "voter_stats_" + a + ".txt" + ".txt" == "voter_stats_" + a + ".txt.txt";
    DigitRunNotPattern(a);
    WithoutFour("voter_stats_", a, ".txt", ".txt", "voter_stats_");
    var ws' := Without(["voter_stats_", a, ".txt", ".txt"], "voter_stats_");
    assert ws' == [a, ".txt", ".txt"];
    WithoutCons(a, [".txt", ".txt"], ".txt");
    WithoutCons(".txt", [".txt"], ".txt");
    WithoutCons(".txt", [], ".txt");
    assert ws' == [a] + ([".txt"] + ([".txt"] + []));
  }

  /** An extension in the middle of the name is removed too:
      `voter_stats_2025.txt1104` yields `20251104`. */
  lemma DateDigitsStrayExtension(dir: string, a: string, b: string)
    requires DigitRun(a) && DigitRun(b)
    ensures DateDigits(dir + "/voter_stats_" + a + ".txt" + b) == a + b
    ensures |a| + |b| == 8 ==> Accepted(dir + "/voter_stats_" + a + ".txt" + b)
  {
    var ws := ["voter_stats_", a, ".txt", b];
    StrayPieces(a, b);
    assert dir + "/voter_stats_" + a + ".txt" + b == dir + "/" + Concat(ws);
    DigitRunNotPattern(a);
    DigitRunNotPattern(b);
    DateDigitsOfPieces(dir, ws);
    ConcatCons(b, []);
    ConcatCons(a, [b]);
    assert [a] + [b] == [a, b];
    assert DigitRun(a + b) by {
      forall i | 0 <= i < |a + b| ensures Decimal.IsDigit((a + b)[i]) {
        if i < |a| { assert (a + b)[i] == a[i]; } else { assert (a + b)[i] == b[i - |a|]; }
      }
    }
  }

  /** Every extension is removed, not only the first:
      `voter_stats_20251104.txt.txt` yields `20251104`. */
  lemma DateDigitsDoubleExtension(dir: string, a: string)
    requires DigitRun(a)
    ensures DateDigits(dir + "/voter_stats_" + a + ".txt.txt") == a
    ensures |a| == 8 ==> Accepted(dir + "/voter_stats_" + a + ".txt.txt")
  {
    var ws := ["voter_stats_", a, ".txt", ".txt"];
    DoublePieces(a);
    assert dir + "/voter_stats_" + a + ".txt.txt" == dir + "/" + Concat(ws);
    DigitRunNotPattern(a);
    DateDigitsOfPieces(dir, ws);
    ConcatCons(a, []);
    assert [a] + [] == [a];
  }

  lemma NoSlashInName(yyyymmdd: string)
    requires Decimal.IsDigits(yyyymmdd)
    ensures '/' !in "voter_stats_" + yyyymmdd + ".txt"
  {
    assert '/' !in yyyymmdd by {
      forall i | 0 <= i < |yyyymmdd| ensures yyyymmdd[i] != '/' {
        assert Decimal.IsDigit(yyyymmdd[i]);
      }
    }
  }

  /** Removing `voter_stats_` leaves the digits and the extension. */
  lemma StripPrefix(yyyymmdd: string)
    requires Decimal.IsDigits(yyyymmdd)
    ensures RemoveAll("voter_stats_" + yyyymmdd + ".txt", "voter_stats_") == yyyymmdd + ".txt"
  {
    var rest := yyyymmdd + ".txt";
    assert "voter_stats_" + yyyymmdd + ".txt" == "voter_stats_" + rest;
    RemoveAllLeading("voter_stats_", rest);
    assert 'v' !in rest by {
      forall i | 0 <= i < |rest| ensures rest[i] != 'v' {
        if i < |yyyymmdd| { assert Decimal.IsDigit(yyyymmdd[i]); }
      }
    }
    RemoveAllKeeps(rest, "", "voter_stats_");
    assert rest + "" == rest;
  }

  /** Removing `.txt` then leaves the digits alone. */
  lemma StripSuffix(yyyymmdd: string)
    requires Decimal.IsDigits(yyyymmdd)
    ensures RemoveAll(yyyymmdd + ".txt", ".txt") == yyyymmdd
  {
    assert '.' !in yyyymmdd by {
      forall i | 0 <= i < |yyyymmdd| ensures yyyymmdd[i] != '.' {
        assert Decimal.IsDigit(yyyymmdd[i]);
      }
    }
    RemoveAllKeeps(yyyymmdd, ".txt", ".txt");
    RemoveAllLeading(".txt", "");
    assert ".txt" + "" == ".txt";
    assert yyyymmdd + "" == yyyymmdd;
  }

  /** The file date of an accepted file as the loop converts it: the label
      `MM/DD/YYYY`, the ISO date `YYYY-MM-DD` and the year. Both
      conversions succeed on eight digits. */
  function FileLabel(path: string): (mmddyyyy: string)
    requires Accepted(path)
    ensures MmddyyyyToIso(mmddyyyy).Ok?
  {
    FileDateToIso(DateDigits(path));
    YyyymmddToMmddyyyy(DateDigits(path))
  }

  function FileIso(path: string): (iso: string)
    requires Accepted(path)
    ensures YearOf(iso).Ok?
    ensures var d := DateDigits(path); iso == d[0..4] + "-" + d[4..6] + "-" + d[6..8]
  {
    FileDateToIso(DateDigits(path));
    MmddyyyyToIso(FileLabel(path)).value
  }

  function FileYear(path: string): (year: int)
    requires Accepted(path)
    ensures year == Decimal.DigitsValue(DateDigits(path)[0..4])
  {
    FileDateToIso(DateDigits(path));
    YearOf(FileIso(path)).value
  }

  // ---------------------------------------------------------------
  // sorted(glob(...))
  // ---------------------------------------------------------------

  predicate SortedByPath(files: seq<StatsFile>) {
    forall i, j :: 0 <= i < j < |files| ==> LexLe(files[i].path, files[j].path)
  }

  /** Inserts one file before the first path it does not follow. */
  function InsertByPath(f: StatsFile, files: seq<StatsFile>): (r: seq<StatsFile>)
    ensures |r| == |files| + 1
  {
    if |files| == 0 then [f]
    else if LexLe(f.path, files[0].path) then [f] + files
    else [files[0]] + InsertByPath(f, files[1..])
  }

  /** `sorted(files)`: insertion sort on the paths. */
  function SortByPath(files: seq<StatsFile>): (r: seq<StatsFile>)
    ensures |r| == |files|
  {
    if |files| == 0 then []
    else InsertByPath(files[|files| - 1], SortByPath(files[..|files| - 1]))
  }

  lemma {:induction false} InsertByPathPermutes(f: StatsFile, files: seq<StatsFile>)
    ensures multiset(InsertByPath(f, files)) == multiset(files) + multiset{f}
  {
    if |files| > 0 && !LexLe(f.path, files[0].path) {
      InsertByPathPermutes(f, files[1..]);
      assert files == [files[0]] + files[1..];
    }
  }

  lemma {:induction false} InsertByPathSorted(f: StatsFile, files: seq<StatsFile>)
    requires SortedByPath(files)
    ensures SortedByPath(InsertByPath(f, files))
  {
    if |files| > 0 {
      if LexLe(f.path, files[0].path) {
        forall j | 0 <= j < |files| ensures LexLe(f.path, files[j].path) {
          if j > 0 { LexLeTransitive(f.path, files[0].path, files[j].path); }
        }
      } else {
        LexLeTotal(f.path, files[0].path);
        var rest := InsertByPath(f, files[1..]);
        InsertByPathSorted(f, files[1..]);
        InsertByPathPermutes(f, files[1..]);
        forall x | x in rest ensures LexLe(files[0].path, x.path) {
          assert x in multiset(rest);
          if x != f {
            assert x in multiset(files[1..]);
            var j :| 0 <= j < |files[1..]| && files[1..][j] == x;
            assert files[j + 1] == x;
          }
        }
        assert InsertByPath(f, files) == [files[0]] + rest;
      }
    }
  }

  /** The files come out ordered by path. */
  lemma {:induction false} SortByPathSorted(files: seq<StatsFile>)
    ensures SortedByPath(SortByPath(files))
  {
    if |files| > 0 {
      SortByPathSorted(files[..|files| - 1]);
      InsertByPathSorted(files[|files| - 1], SortByPath(files[..|files| - 1]));
    }
  }

  /** Sorting neither loses nor invents a file. */
  lemma {:induction false} SortByPathPermutes(files: seq<StatsFile>)
    ensures multiset(SortByPath(files)) == multiset(files)
  {
    if |files| > 0 {
      var n := |files| - 1;
      SortByPathPermutes(files[..n]);
      InsertByPathPermutes(files[n], SortByPath(files[..n]));
      assert files == files[..n] + [files[n]];
    }
  }

  // ---------------------------------------------------------------
  // The election loop
  // ---------------------------------------------------------------

  /** What one iteration contributes: nothing for a rejected name, else the
      election's QA row and buckets, built from the history and
      registration tables loaded once before the loop. */
  function FileOutput(f: StatsFile, history: seq<HistoryRow>, attrs: seq<AttrRow>): (out: Option<ElectionOutput>)
    requires forall k :: 0 <= k < |history| ==> AllKeeps(history[k])
    ensures out.Some? <==> Accepted(f.path)
    ensures out.Some? ==>
      out.value.qa.electionIso == FileIso(f.path) && out.value.qa.electionMmddyyyy == FileLabel(f.path) &&
      forall k :: 0 <= k < |out.value.buckets| ==> out.value.buckets[k].key.electionDate == FileIso(f.path)
  {
    if !Accepted(f.path) then None
    else
      var mmddyyyy := FileLabel(f.path);
      Some(ElectionBuckets(AllScript, FileIso(f.path), mmddyyyy, FileYear(f.path),
        StatsRaw(AllScript, f.lines), AllElection(history, mmddyyyy), attrs))
  }

  /** What each file contributes, in the order the loop visits them. */
  function Outputs(files: seq<StatsFile>, history: seq<HistoryRow>, attrs: seq<AttrRow>): (outs: seq<Option<ElectionOutput>>)
    requires forall k :: 0 <= k < |history| ==> AllKeeps(history[k])
    ensures |outs| == |files|
    ensures forall k :: 0 <= k < |files| ==> outs[k] == FileOutput(files[k], history, attrs)
  {
    seq(|files|, k requires 0 <= k < |files| => FileOutput(files[k], history, attrs))
  }

  /** `qa_rows` once the loop has produced `outs`. */
  function QaRowsOf(outs: seq<Option<ElectionOutput>>): seq<QaRow> {
    if |outs| == 0 then []
    else
      var n := |outs| - 1;
      QaRowsOf(outs[..n]) + (if outs[n].Some? then [outs[n].value.qa] else [])
  }

  /** `turnout_all` once the loop has produced `outs`. */
  function TurnoutOf(outs: seq<Option<ElectionOutput>>): seq<TurnoutRow> {
    if |outs| == 0 then []
    else
      var n := |outs| - 1;
      TurnoutOf(outs[..n]) + (if outs[n].Some? then outs[n].value.buckets else [])
  }

  /** One more iteration appends what its file contributes. */
  lemma OneMoreOutput(outs: seq<Option<ElectionOutput>>, i: nat)
    requires i < |outs|
    ensures QaRowsOf(outs[..i + 1]) == QaRowsOf(outs[..i]) + (if outs[i].Some? then [outs[i].value.qa] else [])
    ensures TurnoutOf(outs[..i + 1]) == TurnoutOf(outs[..i]) + (if outs[i].Some? then outs[i].value.buckets else [])
  {
    assert outs[..i + 1][..i] == outs[..i];
    assert outs[..i + 1][i] == outs[i];
  }

  /** The two outputs of the all-elections script. */
  datatype AllOutput = AllOutput(qaRows: seq<QaRow>, turnoutAll: seq<TurnoutRow>)

  /** The whole script: an empty glob stops with `SystemExit` before any
      work; otherwise the history and registration tables are loaded once
      and the sorted files are walked, skipping rejected names. */
  method BuildAll(statsFiles: seq<StatsFile>, historyLines: seq<HistoryLine>, attrLines: seq<AttrLine>)
    returns (r: Result<AllOutput>)
    ensures r.Err? <==> |statsFiles| == 0
    ensures r.Err? ==> r.failure == NoVoterStatsFiles
    ensures r.Ok? ==>
      var outs := Outputs(SortByPath(statsFiles), AllRaw(historyLines), Attrs(AllScript, attrLines));
      r.value.qaRows == QaRowsOf(outs) && r.value.turnoutAll == TurnoutOf(outs)
  {
    if |statsFiles| == 0 {
      return Err(NoVoterStatsFiles);
    }
    var qaRows, turnoutAll := WalkFiles(SortByPath(statsFiles), AllRaw(historyLines), Attrs(AllScript, attrLines));
    return Ok(AllOutput(qaRows, turnoutAll));
  }

  /** The loop over the sorted files: `continue` on a rejected name,
      otherwise one QA row appended to `qa_rows` and the election's buckets
      appended to `turnout_all`. */
  method WalkFiles(files: seq<StatsFile>, history: seq<HistoryRow>, attrs: seq<AttrRow>)
    returns (qaRows: seq<QaRow>, turnoutAll: seq<TurnoutRow>)
    requires forall k :: 0 <= k < |history| ==> AllKeeps(history[k])
    ensures qaRows == QaRowsOf(Outputs(files, history, attrs))
    ensures turnoutAll == TurnoutOf(Outputs(files, history, attrs))
  {
    ghost var outs := Outputs(files, history, attrs);
    qaRows := [];
    turnoutAll := [];
    for i := 0 to |files|
      invariant qaRows == QaRowsOf(outs[..i])
      invariant turnoutAll == TurnoutOf(outs[..i])
    {
      OneMoreOutput(outs, i);
      var out := ElectionOfFile(files[i], history, attrs);
      if out.None? {
        continue;
      }
      qaRows := qaRows + [out.value.qa];
      turnoutAll := turnoutAll + out.value.buckets;
    }
    assert outs[..|files|] == outs;
  }

  /** The body of the loop for one file: the name check, the two date
      conversions and the per-election pipeline. */
  method ElectionOfFile(f: StatsFile, history: seq<HistoryRow>, attrs: seq<AttrRow>)
    returns (out: Option<ElectionOutput>)
    requires forall k :: 0 <= k < |history| ==> AllKeeps(history[k])
    ensures out == FileOutput(f, history, attrs)
  {
    var base := PathName(f.path);
    var yyyymmdd := RemoveAll(RemoveAll(base, "voter_stats_"), ".txt");
    if |yyyymmdd| != 8 || !Decimal.IsDigits(yyyymmdd) {
      return None;
    }
    var mmddyyyy := YyyymmddToMmddyyyy(yyyymmdd);
    FileDateToIso(yyyymmdd);
    var iso := MmddyyyyToIso(mmddyyyy).value;
    var year := YearOf(iso).value;
    assert yyyymmdd == DateDigits(f.path);
    return Some(ElectionBuckets(AllScript, iso, mmddyyyy, year,
      StatsRaw(AllScript, f.lines), AllElection(history, mmddyyyy), attrs));
  }

  // ---------------------------------------------------------------
  // What the loop accumulates
  // ---------------------------------------------------------------

  function AcceptedFiles(files: seq<StatsFile>): (acc: seq<StatsFile>)
    ensures forall k :: 0 <= k < |acc| ==> Accepted(acc[k].path)
  {
    if |files| == 0 then []
    else
      var n := |files| - 1;
      AcceptedFiles(files[..n]) + (if Accepted(files[n].path) then [files[n]] else [])
  }

  /** The files the loop keeps are a WHERE on the name test. */
  lemma {:induction false} AcceptedFilesIsWhere(files: seq<StatsFile>)
    ensures AcceptedFiles(files) == Where(files, (f: StatsFile) => Accepted(f.path))
  {
    if |files| > 0 {
      var n := |files| - 1;
      var last := [files[n]];
      AcceptedFilesIsWhere(files[..n]);
      assert files == files[..n] + last;
      WhereAppend(files[..n], last, (f: StatsFile) => Accepted(f.path));
      WhereOne(files[n], (f: StatsFile) => Accepted(f.path));
    }
  }

  /** So the loop keeps the accepted files in their order, each as often
      as it occurs in the list, and as many as pass the name test. */
  lemma AcceptedFilesCounts(files: seq<StatsFile>)
    ensures |AcceptedFiles(files)| == CountIf(files, (f: StatsFile) => Accepted(f.path))
    ensures forall f :: multiset(AcceptedFiles(files))[f] == if Accepted(f.path) then multiset(files)[f] else 0
  {
    AcceptedFilesIsWhere(files);
    WhereCountIf(files, (f: StatsFile) => Accepted(f.path));
    WhereCounts(files, (f: StatsFile) => Accepted(f.path));
  }

  /** File by file, the outputs are there exactly for the accepted files
      and carry that file's dates. */
  predicate Dated(files: seq<StatsFile>, outs: seq<Option<ElectionOutput>>) {
    && |outs| == |files|
    && forall k :: 0 <= k < |files| ==>
      && (outs[k].Some? <==> Accepted(files[k].path))
      && (outs[k].Some? ==>
        && outs[k].value.qa.electionIso == FileIso(files[k].path)
        && outs[k].value.qa.electionMmddyyyy == FileLabel(files[k].path)
        && forall j :: 0 <= j < |outs[k].value.buckets| ==>
          outs[k].value.buckets[j].key.electionDate == FileIso(files[k].path))
  }

  lemma OutputsDated(files: seq<StatsFile>, history: seq<HistoryRow>, attrs: seq<AttrRow>)
    requires forall k :: 0 <= k < |history| ==> AllKeeps(history[k])
    ensures Dated(files, Outputs(files, history, attrs))
  {
  }

  lemma DatedPrefix(files: seq<StatsFile>, outs: seq<Option<ElectionOutput>>, n: nat)
    requires Dated(files, outs) && n <= |files|
    ensures Dated(files[..n], outs[..n])
  {
    assert forall k :: 0 <= k < n ==> files[..n][k] == files[k] && outs[..n][k] == outs[k];
  }

  /** `row` is the QA row of accepted file `f`: it carries that file's ISO
      date and label. */
  predicate DatedAs(row: QaRow, f: StatsFile) {
    Accepted(f.path) && row.electionIso == FileIso(f.path) && row.electionMmddyyyy == FileLabel(f.path)
  }

  /** The QA rows are one per accepted file, in the loop's order, each with
      that file's ISO date and label. */
  lemma {:induction false} QaRowsDated(files: seq<StatsFile>, outs: seq<Option<ElectionOutput>>)
    requires Dated(files, outs)
    ensures Pairwise(QaRowsOf(outs), AcceptedFiles(files), DatedAs)
  {
    if |files| > 0 {
      var n := |files| - 1;
      DatedPrefix(files, outs, n);
      QaRowsDated(files[..n], outs[..n]);
      if Accepted(files[n].path) {
        assert QaRowsOf(outs) == QaRowsOf(outs[..n]) + [outs[n].value.qa];
        assert AcceptedFiles(files) == AcceptedFiles(files[..n]) + [files[n]];
        PairwiseAppend(QaRowsOf(outs[..n]), AcceptedFiles(files[..n]), outs[n].value.qa, files[n], DatedAs);
      } else {
        assert QaRowsOf(outs) == QaRowsOf(outs[..n]);
        assert AcceptedFiles(files) == AcceptedFiles(files[..n]);
      }
    }
  }

  /** Every row of `turnout_all` carries the ISO date of an accepted file. */
  lemma {:induction false} TurnoutDated(files: seq<StatsFile>, outs: seq<Option<ElectionOutput>>)
    requires Dated(files, outs)
    ensures forall t :: t in TurnoutOf(outs) ==>
      exists f :: f in AcceptedFiles(files) && t.key.electionDate == FileIso(f.path)
  {
    if |files| > 0 {
      var n := |files| - 1;
      DatedPrefix(files, outs, n);
      TurnoutDated(files[..n], outs[..n]);
      forall t | t in TurnoutOf(outs)
        ensures exists f :: f in AcceptedFiles(files) && t.key.electionDate == FileIso(f.path)
      {
        if t in TurnoutOf(outs[..n]) {
          var f :| f in AcceptedFiles(files[..n]) && t.key.electionDate == FileIso(f.path);
          assert f in AcceptedFiles(files);
        } else {
          assert outs[n].Some? && t in outs[n].value.buckets;
          assert files[n] in AcceptedFiles(files);
        }
      }
    }
  }

  /** `qa_rows` of the script: one row per accepted file, in sorted path
      order, dated as the file. */
  lemma QaRowPerAcceptedFile(files: seq<StatsFile>, history: seq<HistoryRow>, attrs: seq<AttrRow>)
    requires forall k :: 0 <= k < |history| ==> AllKeeps(history[k])
    ensures var rows := QaRowsOf(Outputs(files, history, attrs));
      && |rows| == |AcceptedFiles(files)|
      && forall k :: 0 <= k < |rows| ==>
        rows[k].electionIso == FileIso(AcceptedFiles(files)[k].path) &&
        rows[k].electionMmddyyyy == FileLabel(AcceptedFiles(files)[k].path)
  {
    OutputsDated(files, history, attrs);
    QaRowsDated(files, Outputs(files, history, attrs));
  }

  /** `turnout_all` of the script holds only buckets of accepted files. */
  lemma TurnoutRowsFromAcceptedFiles(files: seq<StatsFile>, history: seq<HistoryRow>, attrs: seq<AttrRow>)
    requires forall k :: 0 <= k < |history| ==> AllKeeps(history[k])
    ensures forall t :: t in TurnoutOf(Outputs(files, history, attrs)) ==>
      exists f :: f in AcceptedFiles(files) && t.key.electionDate == FileIso(f.path)
  {
    OutputsDated(files, history, attrs);
    TurnoutDated(files, Outputs(files, history, attrs));
  }
}
