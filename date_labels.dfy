/** The election-date spellings used by the build scripts: the file-name
    form `YYYYMMDD`, the voter-history label `MM/DD/YYYY`, and the ISO form
    `YYYY-MM-DD` written into the output tables. */
module DateLabels {
  import opened Common
  import opened PyStrings
  import Decimal

  /** `yyyymmdd_to_mmddyyyy`: reorder by slicing, never failing. When the
      input holds no `/`, the result splits back into the month, day and
      year slices. */
  function YyyymmddToMmddyyyy(s: string): (r: string)
    ensures |s| == 8 ==> r == s[4..6] + "/" + s[6..8] + "/" + s[0..4]
    ensures '/' !in s ==> Split(r, '/') == [Slice(s, 4, 6), Slice(s, 6, 8), Slice(s, 0, 4)]
  {
    SlicesSplitBack(s);
    Slice(s, 4, 6) + "/" + Slice(s, 6, 8) + "/" + Slice(s, 0, 4)
  }

  lemma SlicesSplitBack(s: string)
    ensures var m, d, y := Slice(s, 4, 6), Slice(s, 6, 8), Slice(s, 0, 4);
      '/' !in s ==> Split(m + "/" + d + "/" + y, '/') == [m, d, y]
  {
    var m, d, y := Slice(s, 4, 6), Slice(s, 6, 8), Slice(s, 0, 4);
    if '/' !in s {
      assert forall c :: c in m || c in d || c in y ==> c in s;
      JoinThree(m, d, y, '/');
      SplitJoin([m, d, y], '/');
    }
  }

  /** `mmddyyyy_to_iso`: unpack exactly three `/`-separated fields, else
      the unpacking raises. */
  function MmddyyyyToIso(s: string): (r: Result<string>)
    ensures r.Ok? <==> Occurrences(s, '/') == 2
    ensures r.Err? ==> r.failure == UnpackError
  {
    var parts := Split(s, '/');
    if |parts| != 3 then Err(UnpackError)
    else Ok(parts[2] + "-" + ZFill(parts[0], 2) + "-" + ZFill(parts[1], 2))
  }

  /** For `m/d/y`, the ISO form is `y-mm-dd` with month and day zero-filled. */
  lemma IsoOfFields(m: string, d: string, y: string)
    requires '/' !in m && '/' !in d && '/' !in y
    ensures MmddyyyyToIso(m + "/" + d + "/" + y) == Ok(y + "-" + ZFill(m, 2) + "-" + ZFill(d, 2))
  {
    JoinThree(m, d, y, '/');
    SplitJoin([m, d, y], '/');
  }

  /** Month and day keep their numeric value when zero-filled. */
  lemma ZFillKeepsValue(f: string)
    requires Decimal.IsDigits(f)
    ensures Decimal.IsDigits(ZFill(f, 2)) && Decimal.DigitsValue(ZFill(f, 2)) == Decimal.DigitsValue(f)
  {
    if |f| == 1 {
      assert ZFill(f, 2) == "0" + f;
      Decimal.LeadingZero(f);
    }
  }

  /** A one-digit month and day are zero-filled: `1/4/2025` gives `2025-01-04`. */
  lemma IsoPadsShortFields()
    ensures MmddyyyyToIso("1/4/2025") == Ok("2025-01-04")
  {
    var m, d, y := "1", "4", "2025";
    assert m + "/" + d + "/" + y == "1/4/2025";
    IsoOfFields(m, d, y);
    var zm, zd := ZFill(m, 2), ZFill(d, 2);
    assert zm == "01" && zd == "04";
    assert y + "-" + zm + "-" + zd == "2025-01-04";
  }

  /** Two-digit fields pass through: `11/04/2025` gives `2025-11-04`. */
  lemma IsoKeepsFullFields()
    ensures MmddyyyyToIso("11/04/2025") == Ok("2025-11-04")
  {
    var m, d, y := "11", "04", "2025";
    assert m + "/" + d + "/" + y == "11/04/2025";
    IsoOfFields(m, d, y);
    assert y + "-" + ZFill(m, 2) + "-" + ZFill(d, 2) == "2025-11-04";
  }

  /** `int(iso.split("-")[0])`: the text before the first `-`, as an integer. */
  function YearOf(iso: string): (r: Result<int>)
    ensures r.Err? ==> r.failure == ValueError
  {
    match Decimal.ParseSigned(Split(iso, '-')[0])
    case Some(y) => Ok(y)
    case None => Err(ValueError)
  }

  /** The year read back from an ISO date is the year field of `m/d/y`,
      provided that field holds no `-`. */
  lemma {:induction false} YearIsYearField(m: string, d: string, y: string)
    requires '/' !in m && '/' !in d && '/' !in y && '-' !in y
    ensures MmddyyyyToIso(m + "/" + d + "/" + y).Ok?
    ensures Split(MmddyyyyToIso(m + "/" + d + "/" + y).value, '-')[0] == y
    ensures YearOf(MmddyyyyToIso(m + "/" + d + "/" + y).value) ==
      (if Decimal.ParseSigned(y).Some? then Ok(Decimal.ParseSigned(y).value) else Err(ValueError))
  {
    IsoOfFields(m, d, y);
    var rest := ZFill(m, 2) + "-" + ZFill(d, 2);
    assert y + "-" + ZFill(m, 2) + "-" + ZFill(d, 2) == y + ['-'] + rest;
    SplitFirst(y, '-', rest);
  }

  /** Round trip through both converters: an eight-digit file date becomes
      `YYYY-MM-DD`, and its year reads back as the first four digits. */
  lemma {:induction false} FileDateToIso(s: string)
    requires |s| == 8 && Decimal.IsDigits(s)
    ensures MmddyyyyToIso(YyyymmddToMmddyyyy(s)) == Ok(s[0..4] + "-" + s[4..6] + "-" + s[6..8])
    ensures YearOf(s[0..4] + "-" + s[4..6] + "-" + s[6..8]) == Ok(Decimal.DigitsValue(s[0..4]))
  {
    var y, m, d := s[0..4], s[4..6], s[6..8];
    assert forall c :: c in y || c in m || c in d ==> Decimal.IsDigit(c);
    assert YyyymmddToMmddyyyy(s) == m + "/" + d + "/" + y;
    YearIsYearField(m, d, y);
    assert Decimal.IsDigits(y);
  }
}
