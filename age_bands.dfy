/** The age-group CASE expression of both build scripts: a voter's birth
    year and the election year give one of the five labels that the
    voter-statistics files use. */
module AgeBands {
  import opened Common
  import opened SqlStrings
  import Decimal

  datatype AgeBand = UnderAgeOrInvalid | Age18To25 | Age26To40 | Age41To65 | Over66

  function Label(b: AgeBand): string {
    match b
    case UnderAgeOrInvalid => "Age < 18 Or Invalid Birth Dates"
    case Age18To25 => "Age 18 - 25"
    case Age26To40 => "Age 26 - 40"
    case Age41To65 => "Age 41 - 65"
    case Over66 => "Age Over 66"
  }

  /** Position of a band from youngest to oldest. */
  function Rank(b: AgeBand): nat {
    match b
    case UnderAgeOrInvalid => 0
    case Age18To25 => 1
    case Age26To40 => 2
    case Age41To65 => 3
    case Over66 => 4
  }

  /** The inner CASE: the first WHEN that holds decides; BETWEEN is inclusive. */
  function BandOfAge(age: int): (b: AgeBand)
    ensures b == UnderAgeOrInvalid <==> age < 18
    ensures b == Over66 <==> age >= 66
  {
    if age < 18 then UnderAgeOrInvalid
    else if 18 <= age <= 25 then Age18To25
    else if 26 <= age <= 40 then Age26To40
    else if 41 <= age <= 65 then Age41To65
    else Over66
  }

  /** The birth year as the CASE reads it: NULL, blank and non-integer
      values have no year. */
  function BirthYearValue(birthYear: Option<string>): (y: Option<int>)
    ensures birthYear.None? ==> y.None?
    ensures birthYear.Some? && |Trim(birthYear.value)| == 0 ==> y.None?
    ensures y.Some? ==> IntegerMin <= y.value <= IntegerMax
    ensures y.Some? ==> birthYear.Some? && Decimal.IsLiteral(Trim(birthYear.value))
    ensures birthYear.Some? ==> var t := Trim(birthYear.value);
      Decimal.IsDigits(t) && Decimal.DigitsValue(t) <= IntegerMax ==> y == Some(Decimal.DigitsValue(t))
  {
    if birthYear.None? || |Trim(birthYear.value)| == 0 then None
    else TryCastInteger(Trim(birthYear.value))
  }

  /** The whole CASE: the band of `birth_year` in the given election year. */
  function BirthYearBand(birthYear: Option<string>, electionYear: int): (b: AgeBand)
    ensures BirthYearValue(birthYear).None? ==> b == UnderAgeOrInvalid
    ensures b != UnderAgeOrInvalid ==>
      BirthYearValue(birthYear).Some? && electionYear - BirthYearValue(birthYear).value >= 18
  {
    match BirthYearValue(birthYear)
    case None => UnderAgeOrInvalid
    case Some(y) => BandOfAge(electionYear - y)
  }

  /** Only spaces. */
  predicate AllSpaces(p: string) {
    forall k :: 0 <= k < |p| ==> p[k] == ' '
  }

  /** A birth year written as an integer that fits in 32 bits, with any
      spaces around it, reads as that year and gives the band of the age it
      makes in the election year. */
  lemma BirthYearOfText(before: string, year: int, after: string, electionYear: int)
    requires AllSpaces(before) && AllSpaces(after) && IntegerMin <= year <= IntegerMax
    ensures BirthYearValue(Some(before + Decimal.Show(year) + after)) == Some(year)
    ensures BirthYearBand(Some(before + Decimal.Show(year) + after), electionYear) == BandOfAge(electionYear - year)
  {
    var t := Decimal.Show(year);
    var s := before + t + after;
    assert t[0] != ' ' && t[|t| - 1] != ' ' by {
      assert Decimal.IsDigits(t) || Decimal.IsDigits(t[1..]);
      if !Decimal.IsDigits(t) {
        assert t[|t| - 1] == t[1..][|t| - 2];
      }
    }
    assert s[|before|..|before| + |t|] == t;
    assert forall k :: 0 <= k < |before| ==> s[k] == before[k];
    assert forall k :: |before| + |t| <= k < |s| ==> s[k] == after[k - |before| - |t|];
    assert SpacePadded(s, t, |before|);
    TrimUnique(s, t, |before|);
    TryCastShow(year);
  }

  /** Every age falls in exactly one band, given by its range; 66 is
      already in the top band. */
  lemma BandsPartitionAges(age: int)
    ensures BandOfAge(age) == UnderAgeOrInvalid <==> age < 18
    ensures BandOfAge(age) == Age18To25 <==> 18 <= age <= 25
    ensures BandOfAge(age) == Age26To40 <==> 26 <= age <= 40
    ensures BandOfAge(age) == Age41To65 <==> 41 <= age <= 65
    ensures BandOfAge(age) == Over66 <==> age >= 66
  {
  }

  /** An older voter never lands in a younger band. */
  lemma BandMonotone(age1: int, age2: int)
    requires age1 <= age2
    ensures Rank(BandOfAge(age1)) <= Rank(BandOfAge(age2))
  {
  }

  /** The five labels are pairwise different, so the label determines the band. */
  lemma LabelsDistinct(a: AgeBand, b: AgeBand)
    requires Label(a) == Label(b)
    ensures a == b
  {
  }

  /** A birth year yields a real band exactly when it reads as an integer
      and the age it gives is at least 18; the invalid and under-age cases
      share one label. */
  lemma BirthYearBandCases(birthYear: Option<string>, electionYear: int)
    ensures BirthYearBand(birthYear, electionYear) == UnderAgeOrInvalid <==>
      BirthYearValue(birthYear).None? || electionYear - BirthYearValue(birthYear).value < 18
    ensures BirthYearValue(birthYear).Some? ==>
      BirthYearBand(birthYear, electionYear) == BandOfAge(electionYear - BirthYearValue(birthYear).value)
  {
  }
}
