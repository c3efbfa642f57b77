/** `GROUP BY` with `SUM(x)` or `COUNT(*)`, as a fold that adds each row
    into the group for its key. NULL key fields are ordinary values here:
    SQL puts all NULLs of a key column into one group, which is exactly
    equality on `Option`. */
module Tally {
  import opened Common

  /** One output row of a GROUP BY: the key and its aggregate. */
  datatype Group<K> = Group(key: K, total: int)

  function KeysOf<K>(groups: seq<Group<K>>): (ks: seq<K>)
    ensures |ks| == |groups|
    ensures forall i :: 0 <= i < |groups| ==> ks[i] == groups[i].key
  {
    seq(|groups|, i requires 0 <= i < |groups| => groups[i].key)
  }

  /** The sum of a column. */
  function Sum(xs: seq<int>): int {
    if |xs| == 0 then 0 else Sum(xs[..|xs| - 1]) + xs[|xs| - 1]
  }

  /** The sum of the aggregates of a grouped table. */
  function TotalOf<K>(groups: seq<Group<K>>): int {
    if |groups| == 0 then 0 else groups[0].total + TotalOf(groups[1..])
  }

  /** What `SUM(weight)` means for the group of key `k`: the weights of the
      rows whose key is `k`, added up. */
  function SumFor<K(==)>(keys: seq<K>, weights: seq<int>, k: K): int
    requires |keys| == |weights|
  {
    if |keys| == 0 then 0
    else
      SumFor(keys[..|keys| - 1], weights[..|weights| - 1], k) +
      (if keys[|keys| - 1] == k then weights[|weights| - 1] else 0)
  }

  /** Where the group of key `k` sits. */
  function KeyIndex<K(==)>(groups: seq<Group<K>>, k: K): (j: nat)
    requires k in KeysOf(groups)
    ensures j < |groups| && groups[j].key == k
  {
    if groups[0].key == k then 0
    else
      assert KeysOf(groups[1..]) == KeysOf(groups)[1..];
      KeyIndex(groups[1..], k) + 1
  }

  /** Adds one row of weight `w` into the group of key `k`, opening a new
      group at the end when there is none yet. */
  function Insert<K(==)>(groups: seq<Group<K>>, k: K, w: int): (r: seq<Group<K>>)
    requires Distinct(KeysOf(groups))
    ensures |r| == if k in KeysOf(groups) then |groups| else |groups| + 1
    ensures forall i :: 0 <= i < |groups| ==> r[i].key == groups[i].key
    ensures forall i :: 0 <= i < |groups| ==>
      r[i].total == groups[i].total + (if groups[i].key == k then w else 0)
    ensures k !in KeysOf(groups) ==> r[|groups|] == Group(k, w)
    ensures Distinct(KeysOf(r))
  {
    if k in KeysOf(groups) then
      var j := KeyIndex(groups, k);
      assert forall i :: 0 <= i < |groups| && i != j ==> KeysOf(groups)[i] != KeysOf(groups)[j];
      var r := groups[j := Group(k, groups[j].total + w)];
      assert KeysOf(r) == KeysOf(groups);
      r
    else
      var r := groups + [Group(k, w)];
      assert KeysOf(r) == KeysOf(groups) + [k];
      r
  }

  /** Insertion keeps the keys in place and appends a new key at the end. */
  lemma InsertKeys<K>(groups: seq<Group<K>>, k: K, w: int)
    requires Distinct(KeysOf(groups))
    ensures KeysOf(Insert(groups, k, w)) ==
      if k in KeysOf(groups) then KeysOf(groups) else KeysOf(groups) + [k]
  {
  }

  /** Replacing one group changes the grand total by the difference. */
  lemma {:induction false} TotalOfUpdate<K>(groups: seq<Group<K>>, j: nat, g: Group<K>)
    requires j < |groups|
    ensures TotalOf(groups[j := g]) == TotalOf(groups) - groups[j].total + g.total
  {
    if j == 0 {
      assert groups[j := g][1..] == groups[1..];
    } else {
      assert groups[j := g][1..] == groups[1..][j - 1 := g];
      TotalOfUpdate(groups[1..], j - 1, g);
    }
  }

  /** Appending a group adds its total to the grand total. */
  lemma {:induction false} TotalOfAppend<K>(groups: seq<Group<K>>, g: Group<K>)
    ensures TotalOf(groups + [g]) == TotalOf(groups) + g.total
  {
    if |groups| > 0 {
      assert (groups + [g])[1..] == groups[1..] + [g];
      TotalOfAppend(groups[1..], g);
    }
  }

  /** Adding a row of weight `w` raises the grand total by `w`. */
  lemma InsertTotal<K>(groups: seq<Group<K>>, k: K, w: int)
    requires Distinct(KeysOf(groups))
    ensures TotalOf(Insert(groups, k, w)) == TotalOf(groups) + w
  {
    if k in KeysOf(groups) {
      var j := KeyIndex(groups, k);
      TotalOfUpdate(groups, j, Group(k, groups[j].total + w));
    } else {
      TotalOfAppend(groups, Group(k, w));
    }
  }

  /** `SELECT key, SUM(weight) ... GROUP BY key`: one group per distinct
      key, in order of first appearance, whose total is the sum of the
      weights of that key's rows. */
  function GroupSum<K(==,!new)>(keys: seq<K>, weights: seq<int>): (groups: seq<Group<K>>)
    requires |keys| == |weights|
    ensures Distinct(KeysOf(groups))
    ensures forall k :: k in KeysOf(groups) <==> k in keys
    ensures forall i :: 0 <= i < |groups| ==> groups[i].total == SumFor(keys, weights, groups[i].key)
  {
    if |keys| == 0 then []
    else
      var n := |keys| - 1;
      var front := GroupSum(keys[..n], weights[..n]);
      var groups := Insert(front, keys[n], weights[n]);
      assert keys == keys[..n] + [keys[n]];
      InsertKeys(front, keys[n], weights[n]);
      forall i | 0 <= i < |groups|
        ensures groups[i].total == SumFor(keys, weights, groups[i].key)
      {
        var k := groups[i].key;
        assert SumFor(keys, weights, k) ==
          SumFor(keys[..n], weights[..n], k) + (if keys[n] == k then weights[n] else 0);
        if i < |front| {
          assert groups[i].total == front[i].total + (if front[i].key == keys[n] then weights[n] else 0);
        } else {
          SumForAbsent(keys[..n], weights[..n], keys[n]);
        }
      }
      groups
  }

  /** A key that no row carries sums to 0. */
  lemma {:induction false} SumForAbsent<K>(keys: seq<K>, weights: seq<int>, k: K)
    requires |keys| == |weights| && k !in keys
    ensures SumFor(keys, weights, k) == 0
  {
    if |keys| > 0 {
      assert k !in keys[..|keys| - 1];
      SumForAbsent(keys[..|keys| - 1], weights[..|weights| - 1], k);
    }
  }

  /** Grouping loses and invents nothing: the group totals add up to the
      total of the rows. */
  lemma {:induction false} GroupSumConserves<K(!new)>(keys: seq<K>, weights: seq<int>)
    requires |keys| == |weights|
    ensures TotalOf(GroupSum(keys, weights)) == Sum(weights)
  {
    if |keys| > 0 {
      var n := |keys| - 1;
      GroupSumConserves(keys[..n], weights[..n]);
      InsertTotal(GroupSum(keys[..n], weights[..n]), keys[n], weights[n]);
    }
  }

  /** `COUNT(*)` is `SUM(1)`. */
  function Ones(n: nat): (xs: seq<int>)
    ensures |xs| == n && forall i :: 0 <= i < n ==> xs[i] == 1
  {
    seq(n, i => 1)
  }

  /** `SELECT key, COUNT(*) ... GROUP BY key`. */
  function GroupCount<K(==,!new)>(keys: seq<K>): (groups: seq<Group<K>>)
    ensures Distinct(KeysOf(groups))
    ensures forall k :: k in KeysOf(groups) <==> k in keys
    ensures forall i :: 0 <= i < |groups| ==> groups[i].total == Count(keys, groups[i].key)
  {
    var groups := GroupSum(keys, Ones(|keys|));
    forall i | 0 <= i < |groups| ensures groups[i].total == Count(keys, groups[i].key) {
      SumForOnes(keys, groups[i].key);
    }
    groups
  }

  /** The number of rows whose key is `k`. */
  function Count<K(==)>(keys: seq<K>, k: K): nat {
    if |keys| == 0 then 0
    else Count(keys[..|keys| - 1], k) + (if keys[|keys| - 1] == k then 1 else 0)
  }

  /** A key that no row carries is counted 0 times. */
  lemma {:induction false} CountAbsent<K>(keys: seq<K>, k: K)
    requires k !in keys
    ensures Count(keys, k) == 0
  {
    if |keys| > 0 {
      assert k !in keys[..|keys| - 1];
      CountAbsent(keys[..|keys| - 1], k);
    }
  }

  lemma {:induction false} SumForOnes<K>(keys: seq<K>, k: K)
    ensures SumFor(keys, Ones(|keys|), k) == Count(keys, k)
  {
    if |keys| > 0 {
      var n := |keys| - 1;
      assert Ones(|keys|)[..n] == Ones(n);
      SumForOnes(keys[..n], k);
    }
  }

  /** The counts of a `COUNT(*)` grouping add up to the number of rows. */
  lemma GroupCountConserves<K(!new)>(keys: seq<K>)
    ensures TotalOf(GroupCount(keys)) == |keys|
  {
    GroupSumConserves(keys, Ones(|keys|));
    SumOnes(|keys|);
  }

  lemma {:induction false} SumOnes(n: nat)
    ensures Sum(Ones(n)) == n
  {
    if n > 0 {
      assert Ones(n)[..n - 1] == Ones(n - 1);
      SumOnes(n - 1);
    }
  }
}
