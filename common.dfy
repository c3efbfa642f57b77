/** Shared wrappers: SQL NULL is modelled as `None`, Python exceptions as `Err`. */
module Common {

  datatype Option<+T> = None | Some(value: T)

  /** The ways the two build scripts stop early. */
  datatype Failure =
    | UnpackError   // `m, d, y = s.split("/")` with other than three parts
    | ValueError    // `int(...)` of a string that is not an integer literal
    | NoVoterStatsFiles  // `raise SystemExit(...)` when the glob finds nothing

  datatype Result<+T> = Ok(value: T) | Err(failure: Failure)

  /** No element occurs twice. */
  predicate Distinct<T(==)>(s: seq<T>) {
    forall i, j :: 0 <= i < j < |s| ==> s[i] != s[j]
  }

  /** The elements of `xs` without repeats, each at its first occurrence. */
  function Unique<T(==,!new)>(xs: seq<T>): (r: seq<T>)
    ensures Distinct(r)
    ensures forall x :: x in r <==> x in xs
  {
    if |xs| == 0 then []
    else
      var r := Unique(xs[..|xs| - 1]);
      if xs[|xs| - 1] in r then r else r + [xs[|xs| - 1]]
  }

  /** SQL `SELECT f(row)`: one value per row, in order. */
  function Map<T, U>(s: seq<T>, f: T -> U): (r: seq<U>)
    ensures |r| == |s| && forall i :: 0 <= i < |s| ==> r[i] == f(s[i])
  {
    seq(|s|, i requires 0 <= i < |s| => f(s[i]))
  }

  /** SQL `WHERE p`: the elements of `s` that satisfy `p`, in order. */
  function Where<T>(s: seq<T>, p: T -> bool): (r: seq<T>)
    ensures |r| <= |s|
    ensures forall k :: 0 <= k < |r| ==> p(r[k]) && r[k] in s
    ensures forall i :: 0 <= i < |s| && p(s[i]) ==> s[i] in r
  {
    if |s| == 0 then []
    else
      var rest := Where(s[1..], p);
      assert forall i :: 1 <= i < |s| ==> s[i] == s[1..][i - 1];
      (if p(s[0]) then [s[0]] else []) + rest
  }

  /** The elements of `s` that satisfy `p`, with the first one split off. */
  lemma WhereCons<T>(s: seq<T>, p: T -> bool)
    requires |s| > 0
    ensures Where(s, p) == (if p(s[0]) then [s[0]] else []) + Where(s[1..], p)
  {
  }

  /** WHERE on a single row keeps it exactly when it satisfies `p`. */
  lemma WhereOne<T>(x: T, p: T -> bool)
    ensures Where([x], p) == if p(x) then [x] else []
  {
    WhereCons([x], p);
    assert [x][1..] == [];
  }

  /** Two conditions that never hold together select at most `|s|` rows
      between them. */
  lemma {:induction false} WhereDisjoint<T>(s: seq<T>, p: T -> bool, q: T -> bool)
    requires forall x :: x in s ==> !(p(x) && q(x))
    ensures |Where(s, p)| + |Where(s, q)| <= |s|
  {
    if |s| > 0 {
      WhereCons(s, p);
      WhereCons(s, q);
      WhereDisjoint(s[1..], p, q);
    }
  }

  /** WHERE keeps the order of the rows: filtering two stretches of rows
      one after the other is filtering them together. With `WhereCons`
      this pins `Where` down completely. */
  lemma {:induction false} WhereAppend<T>(a: seq<T>, b: seq<T>, p: T -> bool)
    ensures Where(a + b, p) == Where(a, p) + Where(b, p)
  {
    if |a| > 0 {
      WhereCons(a + b, p);
      WhereCons(a, p);
      assert (a + b)[1..] == a[1..] + b;
      WhereAppend(a[1..], b, p);
    } else {
      assert a + b == b;
    }
  }

  /** WHERE keeps duplicates: a row satisfying `p` is selected as many
      times as it occurs, any other row never. */
  lemma {:induction false} WhereCounts<T>(s: seq<T>, p: T -> bool)
    ensures forall x :: multiset(Where(s, p))[x] == if p(x) then multiset(s)[x] else 0
  {
    if |s| > 0 {
      WhereCons(s, p);
      WhereCounts(s[1..], p);
      assert s == [s[0]] + s[1..];
    }
  }

  /** The number of rows of `s` that satisfy `p`, counted position by
      position. */
  function CountIf<T>(s: seq<T>, p: T -> bool): nat {
    if |s| == 0 then 0 else (if p(s[|s| - 1]) then 1 else 0) + CountIf(s[..|s| - 1], p)
  }

  /** WHERE selects exactly as many rows as satisfy its condition. */
  lemma {:induction false} WhereCountIf<T>(s: seq<T>, p: T -> bool)
    ensures |Where(s, p)| == CountIf(s, p)
  {
    if |s| > 0 {
      var n := |s| - 1;
      assert s == s[..n] + [s[n]];
      WhereAppend(s[..n], [s[n]], p);
      WhereCons([s[n]], p);
      assert [s[n]][1..] == [];
      WhereCountIf(s[..n], p);
    }
  }

  /** `xs` and `ys` have the same length and `p` relates them position by
      position. */
  predicate Pairwise<A, B>(xs: seq<A>, ys: seq<B>, p: (A, B) -> bool) {
    |xs| == |ys| && forall k :: 0 <= k < |xs| ==> p(xs[k], ys[k])
  }

  lemma PairwiseAppend<A, B>(xs: seq<A>, ys: seq<B>, x: A, y: B, p: (A, B) -> bool)
    requires Pairwise(xs, ys, p) && p(x, y)
    ensures Pairwise(xs + [x], ys + [y], p)
  {
    forall k | 0 <= k < |xs| + 1
      ensures p((xs + [x])[k], (ys + [y])[k])
    {
      if k < |xs| {
        assert (xs + [x])[k] == xs[k] && (ys + [y])[k] == ys[k];
      }
    }
  }

  /** No row satisfies `p`: nothing is selected. */
  lemma WhereNone<T>(s: seq<T>, p: T -> bool)
    requires forall i :: 0 <= i < |s| ==> !p(s[i])
    ensures Where(s, p) == []
  {
  }

  /** When no two positions both satisfy `p`, at most one row is selected. */
  lemma {:induction false} WhereAtMostOne<T>(s: seq<T>, p: T -> bool)
    requires forall i, j :: 0 <= i < j < |s| && p(s[i]) ==> !p(s[j])
    ensures |Where(s, p)| <= 1
  {
    if |s| > 0 {
      WhereCons(s, p);
      var rest := s[1..];
      if p(s[0]) {
        assert forall j :: 0 <= j < |rest| ==> rest[j] == s[j + 1];
        WhereNone(rest, p);
      } else {
        WhereAtMostOne(rest, p);
      }
    }
  }
}
