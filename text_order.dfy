/** Ordering of strings by code point, as used by Python's `sorted` on
    `str` and by DuckDB's default `ORDER BY` on VARCHAR (binary collation). */
module TextOrder {
  import opened Common

  /** `a <= b` lexicographically, comparing characters by code point. */
  predicate LexLe(a: string, b: string) {
    |a| == 0 || (|b| > 0 && (a[0] < b[0] || (a[0] == b[0] && LexLe(a[1..], b[1..]))))
  }

  lemma {:induction false} LexLeReflexive(a: string)
    ensures LexLe(a, a)
  {
    if |a| > 0 { LexLeReflexive(a[1..]); }
  }

  lemma {:induction false} LexLeTotal(a: string, b: string)
    ensures LexLe(a, b) || LexLe(b, a)
  {
    if |a| > 0 && |b| > 0 && a[0] == b[0] { LexLeTotal(a[1..], b[1..]); }
  }

  lemma {:induction false} LexLeAntisymmetric(a: string, b: string)
    requires LexLe(a, b) && LexLe(b, a)
    ensures a == b
  {
    if |a| > 0 && |b| > 0 {
      LexLeAntisymmetric(a[1..], b[1..]);
      assert a == [a[0]] + a[1..] && b == [b[0]] + b[1..];
    }
  }

  lemma {:induction false} LexLeTransitive(a: string, b: string, c: string)
    requires LexLe(a, b) && LexLe(b, c)
    ensures LexLe(a, c)
  {
    if |a| > 0 && a[0] == b[0] && b[0] == c[0] {
      LexLeTransitive(a[1..], b[1..], c[1..]);
    }
  }

  /** DuckDB's default `ORDER BY x` (ascending, NULLS LAST): every string
      sorts before NULL. */
  predicate NullsLastLe(a: Option<string>, b: Option<string>) {
    match (a, b)
    case (_, None) => true
    case (None, Some(_)) => false
    case (Some(x), Some(y)) => LexLe(x, y)
  }

  lemma NullsLastReflexive(a: Option<string>)
    ensures NullsLastLe(a, a)
  {
    if a.Some? { LexLeReflexive(a.value); }
  }

  lemma NullsLastTotal(a: Option<string>, b: Option<string>)
    ensures NullsLastLe(a, b) || NullsLastLe(b, a)
  {
    if a.Some? && b.Some? { LexLeTotal(a.value, b.value); }
  }

  /** The smaller of two values under `NullsLastLe`. */
  function NullsLastMin(a: Option<string>, b: Option<string>): (m: Option<string>)
    ensures m == a || m == b
    ensures NullsLastLe(m, a) && NullsLastLe(m, b)
  {
    if NullsLastLe(a, b) then
      NullsLastReflexive(a); a
    else
      NullsLastTotal(a, b); NullsLastReflexive(b); b
  }

  lemma NullsLastTransitive(a: Option<string>, b: Option<string>, c: Option<string>)
    requires NullsLastLe(a, b) && NullsLastLe(b, c)
    ensures NullsLastLe(a, c)
  {
    if a.Some? && b.Some? && c.Some? { LexLeTransitive(a.value, b.value, c.value); }
  }
}
