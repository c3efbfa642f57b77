/** The DuckDB scalar functions the SQL rules use, under simple assumed
    semantics: `trim` strips spaces, `lower`/`upper` fold ASCII letters,
    `replace(x, '"', '')` drops double quotes, and `TRY_CAST(x AS INTEGER)`
    reads an optional sign and digits within the 32-bit range. SQL NULL is
    `None`; every function passes NULL through. */
module SqlStrings {
  import opened Common
  import Decimal

  /** `s` without its leading spaces. */
  function TrimLeft(s: string): (r: string)
    ensures |r| == 0 || r[0] != ' '
    ensures |r| <= |s| && s[|s| - |r|..] == r
    ensures forall i :: 0 <= i < |s| - |r| ==> s[i] == ' '
  {
    if |s| > 0 && s[0] == ' ' then TrimLeft(s[1..]) else s
  }

  /** `s` without its trailing spaces. */
  function TrimRight(s: string): (r: string)
    ensures |r| == 0 || r[|r| - 1] != ' '
    ensures |r| <= |s| && s[..|r|] == r
    ensures forall i :: |r| <= i < |s| ==> s[i] == ' '
  {
    if |s| > 0 && s[|s| - 1] == ' ' then TrimRight(s[..|s| - 1]) else s
  }

  /** `s` is `r` with `i` spaces before it and only spaces after it. */
  predicate SpacePadded(s: string, r: string, i: int) {
    && 0 <= i <= |s| - |r|
    && s[i..i + |r|] == r
    && (forall k :: 0 <= k < i ==> s[k] == ' ')
    && (forall k :: i + |r| <= k < |s| ==> s[k] == ' ')
  }

  /** No space at either end. */
  predicate Unpadded(r: string) {
    |r| == 0 || (r[0] != ' ' && r[|r| - 1] != ' ')
  }

  /** `trim(s)`: `s` without its leading and trailing spaces. */
  function Trim(s: string): (r: string)
    ensures Unpadded(r)
    ensures exists i :: SpacePadded(s, r, i)
  {
    TrimBothPadded(s);
    TrimRight(TrimLeft(s))
  }

  /** Trimming the left, then the right, leaves the leading spaces before
      the result and only spaces after it. */
  lemma TrimBothPadded(s: string)
    ensures Unpadded(TrimRight(TrimLeft(s)))
    ensures SpacePadded(s, TrimRight(TrimLeft(s)), |s| - |TrimLeft(s)|)
  {
    var l := TrimLeft(s);
    var r := TrimRight(l);
    var i := |s| - |l|;
    PaddedInner(s, l, r, i);
    if |r| > 0 {
      assert r[0] == l[0];
    }
  }

  /** `l` is a suffix of `s` after `i` spaces, and `r` is a prefix of `l`
      followed only by spaces, so `s` is `r` padded with spaces. */
  lemma PaddedInner(s: string, l: string, r: string, i: int)
    requires 0 <= i <= |s| && s[i..] == l
    requires forall k :: 0 <= k < i ==> s[k] == ' '
    requires |r| <= |l| && l[..|r|] == r
    requires forall k :: |r| <= k < |l| ==> l[k] == ' '
    ensures SpacePadded(s, r, i)
  {
    assert s[i..i + |r|] == r by {
      assert s[i..i + |r|] == s[i..][..|r|];
    }
    forall k | i + |r| <= k < |s|
      ensures s[k] == ' '
    {
      assert s[k] == l[k - i];
    }
  }

  /** The two clauses of `Trim` pin it down: the only unpadded string that
      `s` is, up to surrounding spaces, is `Trim(s)`. */
  lemma TrimUnique(s: string, r: string, i: int)
    requires Unpadded(r) && SpacePadded(s, r, i)
    ensures Trim(s) == r
  {
    var t := Trim(s);
    var j :| SpacePadded(s, t, j);
    if |r| > 0 && |t| > 0 {
      assert s[i] == r[0] && s[j] == t[0];
      assert s[i + |r| - 1] == r[|r| - 1] && s[j + |t| - 1] == t[|t| - 1];
      assert i == j;
      assert |r| == |t|;
    }
  }

  /** A string that neither starts nor ends with a space is its own trim. */
  lemma TrimFixed(s: string)
    requires |s| == 0 || (s[0] != ' ' && s[|s| - 1] != ' ')
    ensures Trim(s) == s
  {
    TrimLeftFixed(s);
    TrimRightFixed(s);
  }

  lemma TrimLeftFixed(s: string)
    requires |s| == 0 || s[0] != ' '
    ensures TrimLeft(s) == s
  {
  }

  lemma TrimRightFixed(s: string)
    requires |s| == 0 || s[|s| - 1] != ' '
    ensures TrimRight(s) == s
  {
  }

  /** Trimming twice is trimming once. */
  lemma TrimIdempotent(s: string)
    ensures Trim(Trim(s)) == Trim(s)
  {
    TrimFixed(Trim(s));
  }

  function LowerChar(c: char): char {
    if 'A' <= c <= 'Z' then (c as int + 32) as char else c
  }

  function UpperChar(c: char): char {
    if 'a' <= c <= 'z' then (c as int - 32) as char else c
  }

  /** `lower(s)`, ASCII letters only. */
  function Lower(s: string): (r: string)
    ensures |r| == |s|
    ensures forall i :: 0 <= i < |s| ==> !('A' <= r[i] <= 'Z')
    ensures forall i :: 0 <= i < |s| && 'A' <= s[i] <= 'Z' ==> r[i] == (s[i] as int + 32) as char
    ensures forall i :: 0 <= i < |s| && !('A' <= s[i] <= 'Z') ==> r[i] == s[i]
  {
    if |s| == 0 then "" else [LowerChar(s[0])] + Lower(s[1..])
  }

  /** `upper(s)`, ASCII letters only. */
  function Upper(s: string): (r: string)
    ensures |r| == |s|
    ensures forall i :: 0 <= i < |s| ==> !('a' <= r[i] <= 'z')
    ensures forall i :: 0 <= i < |s| && 'a' <= s[i] <= 'z' ==> r[i] == (s[i] as int - 32) as char
    ensures forall i :: 0 <= i < |s| && !('a' <= s[i] <= 'z') ==> r[i] == s[i]
  {
    if |s| == 0 then "" else [UpperChar(s[0])] + Upper(s[1..])
  }

  /** `lower(s) = word`, decided character by character. */
  predicate LowerIs(s: string, word: string) {
    |s| == |word| && (|s| == 0 || (LowerChar(s[0]) == word[0] && LowerIs(s[1..], word[1..])))
  }

  /** `LowerIs` is exactly the comparison of `lower(s)` with the word. */
  lemma {:induction false} LowerIsMeansLower(s: string, word: string)
    ensures LowerIs(s, word) <==> Lower(s) == word
  {
    if |s| > 0 && |word| == |s| {
      LowerIsMeansLower(s[1..], word[1..]);
      assert Lower(s) == [LowerChar(s[0])] + Lower(s[1..]);
      assert word == [word[0]] + word[1..];
      if Lower(s) == word {
        assert Lower(s)[0] == word[0];
        assert Lower(s)[1..] == word[1..];
      }
    }
  }

  /** `replace(s, '"', '')`: `s` with every double quote removed, the other
      characters kept in order. */
  function RemoveQuotes(s: string): (r: string)
    ensures '"' !in r
    ensures '"' !in s ==> r == s
    ensures forall c :: c in r ==> c in s
  {
    if |s| == 0 then ""
    else if s[0] == '"' then RemoveQuotes(s[1..])
    else [s[0]] + RemoveQuotes(s[1..])
  }
  /** Quote removal works character by character: a quote disappears and
      any other character stays. */
  lemma RemoveQuotesChar(c: char)
    ensures RemoveQuotes([c]) == if c == '"' then "" else [c]
  {
    assert [c][1..] == "";
  }

  /** Quote removal distributes over concatenation, so with
      `RemoveQuotesChar` it keeps the other characters in their order. */
  lemma {:induction false} RemoveQuotesAppend(a: string, b: string)
    ensures RemoveQuotes(a + b) == RemoveQuotes(a) + RemoveQuotes(b)
  {
    if |a| > 0 {
      assert (a + b)[0] == a[0];
      assert (a + b)[1..] == a[1..] + b;
      RemoveQuotesAppend(a[1..], b);
    } else {
      assert a + b == b;
    }
  }


  const IntegerMin: int := -0x8000_0000
  const IntegerMax: int := 0x7FFF_FFFF

  /** `TRY_CAST(s AS INTEGER)`: NULL unless `s` is a decimal literal whose
      value fits in 32 bits. */
  function TryCastInteger(s: string): (r: Option<int>)
    ensures r.Some? ==> IntegerMin <= r.value <= IntegerMax
    ensures r.Some? <==> Decimal.IsLiteral(s) && IntegerMin <= Decimal.ParseSigned(s).value <= IntegerMax
    ensures r.Some? ==> r == Decimal.ParseSigned(s)
    ensures Decimal.IsDigits(s) && Decimal.DigitsValue(s) <= IntegerMax ==> r == Some(Decimal.DigitsValue(s))
  {
    match Decimal.ParseSigned(s)
    case Some(v) => if IntegerMin <= v <= IntegerMax then Some(v) else None
    case None => None
  }
  /** Any string of at most nine ASCII digits fits in an INTEGER, so it
      always casts, to its value. */
  lemma ShortDigitsCast(s: string)
    requires Decimal.IsDigits(s) && |s| <= 9
    ensures TryCastInteger(s) == Some(Decimal.DigitsValue(s))
  {
    Decimal.DigitsValueBound(s);
    Decimal.Pow10Monotone(|s|, 9);
    Decimal.Pow10Nine();
  }


  const BigintMin: int := -0x8000_0000_0000_0000
  const BigintMax: int := 0x7FFF_FFFF_FFFF_FFFF

  /** `TRY_CAST(s AS BIGINT)`: NULL unless `s` is a decimal literal whose
      value fits in 64 bits. */
  function TryCastBigint(s: string): (r: Option<int>)
    ensures r.Some? ==> BigintMin <= r.value <= BigintMax
    ensures r.Some? <==> Decimal.IsLiteral(s) && BigintMin <= Decimal.ParseSigned(s).value <= BigintMax
    ensures r.Some? ==> r == Decimal.ParseSigned(s)
    ensures Decimal.IsDigits(s) && Decimal.DigitsValue(s) <= BigintMax ==> r == Some(Decimal.DigitsValue(s))
  {
    match Decimal.ParseSigned(s)
    case Some(v) => if BigintMin <= v <= BigintMax then Some(v) else None
    case None => None
  }

  /** The text of every integer casts back to it when it fits the type,
      and to NULL when it does not. */
  lemma TryCastShow(n: int)
    ensures TryCastInteger(Decimal.Show(n)) == if IntegerMin <= n <= IntegerMax then Some(n) else None
    ensures TryCastBigint(Decimal.Show(n)) == if BigintMin <= n <= BigintMax then Some(n) else None
  {
    Decimal.ParseShow(n);
  }

  /** Every value `TRY_CAST` accepts as INTEGER it also accepts as BIGINT. */
  lemma IntegerIsBigint(s: string)
    requires TryCastInteger(s).Some?
    ensures TryCastBigint(s) == TryCastInteger(s)
  {
  }

  /** NULL-propagating versions of the column clean-ups. */
  function TrimOpt(x: Option<string>): Option<string> {
    if x.Some? then Some(Trim(x.value)) else None
  }

  function CleanOpt(x: Option<string>): (r: Option<string>)
    ensures r.Some? <==> x.Some?
  {
    if x.Some? then Some(RemoveQuotes(Trim(x.value))) else None
  }

  function CleanUpperOpt(x: Option<string>): (r: Option<string>)
    ensures r.Some? <==> x.Some?
  {
    if x.Some? then Some(Upper(RemoveQuotes(Trim(x.value)))) else None
  }

  /** SQL `a = b`: true only when both sides are non-NULL and equal. */
  predicate SqlEq(a: Option<string>, b: Option<string>) {
    a.Some? && b.Some? && a.value == b.value
  }
}
