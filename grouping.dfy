/** `df.groupby(keys).agg({'EmployeeKey': 'count'})` as the gold tables use
    it: rows with a missing key part are dropped, the remaining keys are
    listed once each in ascending order, and each group reports how many of
    its rows have an employee key. */
module Grouping {
  import opened Wrappers
  import opened Frames
  import opened Ordering

  /** One row as the group-by sees it: its group key (None when a key part
      is missing) and whether its employee key is present. */
  datatype Obs<K> = Obs(key: Option<K>, counted: bool)

  /** One row of an aggregated table: the group key and the count. */
  datatype Group<K> = Group(key: K, count: nat)

  function PresentKeys<K>(obs: seq<Obs<K>>): seq<K> {
    if obs == [] then []
    else
      var o := obs[|obs| - 1];
      PresentKeys(obs[..|obs| - 1]) + if o.key.Some? then [o.key.value] else []
  }

  lemma {:induction false} PresentKeysSpec<K>(obs: seq<Obs<K>>)
    ensures forall k :: k in PresentKeys(obs) <==> exists i :: 0 <= i < |obs| && obs[i].key == Some(k)
  {
    if obs != [] {
      var init := obs[..|obs| - 1];
      PresentKeysSpec(init);
      forall k ensures k in PresentKeys(obs) <==> exists i :: 0 <= i < |obs| && obs[i].key == Some(k) {
        if k in PresentKeys(init) {
          var i :| 0 <= i < |init| && init[i].key == Some(k);
          assert obs[i] == init[i];
        }
        if exists i :: 0 <= i < |obs| && obs[i].key == Some(k) {
          var i :| 0 <= i < |obs| && obs[i].key == Some(k);
          if i < |init| {
            assert init[i] == obs[i];
          }
        }
      }
    }
  }

  /** The keys `groupby` forms: each present key once, in ascending order. */
  function Groups<K(==,!new)>(obs: seq<Obs<K>>, lt: (K, K) -> bool): seq<K>
    requires StrictTotalOrder(lt)
  {
    SortDistinct(PresentKeys(obs), lt)
  }

  /** `count` over the rows of group `k`. */
  function CountIn<K(==)>(obs: seq<Obs<K>>, k: K): nat {
    if obs == [] then 0
    else
      var o := obs[|obs| - 1];
      CountIn(obs[..|obs| - 1], k) + if o.key == Some(k) && o.counted then 1 else 0
  }

  /** The aggregated table over the given group keys. */
  function Tally<K(==)>(groups: seq<K>, obs: seq<Obs<K>>): (t: seq<Group<K>>)
    ensures |t| == |groups|
    ensures forall j :: 0 <= j < |t| ==> t[j] == Group(groups[j], CountIn(obs, groups[j]))
  {
    if groups == [] then [] else [Group(groups[0], CountIn(obs, groups[0]))] + Tally(groups[1..], obs)
  }

  /** The sum of a table's count column. */
  function SumCounts<K>(t: seq<Group<K>>): nat {
    if t == [] then 0 else t[0].count + SumCounts(t[1..])
  }

  /** The counted rows whose key is one of `groups`. */
  function CountAmong<K(==)>(obs: seq<Obs<K>>, groups: seq<K>): nat {
    if obs == [] then 0
    else
      var o := obs[|obs| - 1];
      CountAmong(obs[..|obs| - 1], groups) + if o.key.Some? && o.key.value in groups && o.counted then 1 else 0
  }

  /** The counted rows that have a key at all. */
  function CountPresent<K>(obs: seq<Obs<K>>): nat {
    if obs == [] then 0
    else
      var o := obs[|obs| - 1];
      CountPresent(obs[..|obs| - 1]) + if o.key.Some? && o.counted then 1 else 0
  }

  lemma DistinctTail<T>(s: seq<T>)
    requires s != [] && Distinct(s)
    ensures Distinct(s[1..]) && s[0] !in s[1..]
  {
    forall i, j | 0 <= i < j < |s| - 1 ensures s[1..][i] != s[1..][j] {
      assert s[1..][i] == s[i + 1] && s[1..][j] == s[j + 1];
    }
  }

  lemma {:induction false} TallyOfNothing<K>(groups: seq<K>)
    ensures SumCounts(Tally(groups, [])) == 0
  {
    if groups != [] {
      TallyOfNothing(groups[1..]);
    }
  }

  /** One more row adds one to at most one group. */
  lemma {:induction false} TallySnoc<K>(groups: seq<K>, obs: seq<Obs<K>>, o: Obs<K>)
    requires Distinct(groups)
    ensures SumCounts(Tally(groups, obs + [o])) ==
            SumCounts(Tally(groups, obs)) + if o.key.Some? && o.key.value in groups && o.counted then 1 else 0
  {
    if groups != [] {
      DistinctTail(groups);
      TallySnoc(groups[1..], obs, o);
      assert (obs + [o])[..|obs|] == obs;
      assert Tally(groups, obs)[1..] == Tally(groups[1..], obs);
      assert Tally(groups, obs + [o])[1..] == Tally(groups[1..], obs + [o]);
    }
  }

  /** Summing the table counts every counted row whose key is listed. */
  lemma {:induction false} TallyConserves<K>(groups: seq<K>, obs: seq<Obs<K>>)
    requires Distinct(groups)
    ensures SumCounts(Tally(groups, obs)) == CountAmong(obs, groups)
  {
    if obs == [] {
      TallyOfNothing(groups);
    } else {
      var init := obs[..|obs| - 1];
      TallyConserves(groups, init);
      assert obs == init + [obs[|obs| - 1]];
      TallySnoc(groups, init, obs[|obs| - 1]);
    }
  }

  lemma {:induction false} CountAmongCovering<K>(obs: seq<Obs<K>>, groups: seq<K>)
    requires forall i :: 0 <= i < |obs| && obs[i].key.Some? ==> obs[i].key.value in groups
    ensures CountAmong(obs, groups) == CountPresent(obs)
  {
    if obs != [] {
      var init := obs[..|obs| - 1];
      assert forall i :: 0 <= i < |init| ==> init[i] == obs[i];
      CountAmongCovering(init, groups);
    }
  }

  /** The aggregated table lists its groups in ascending key order ... */
  lemma TallyOrdered<K(!new)>(obs: seq<Obs<K>>, lt: (K, K) -> bool)
    requires StrictTotalOrder(lt)
    ensures var t := Tally(Groups(obs, lt), obs);
            forall i, j :: 0 <= i < j < |t| ==> lt(t[i].key, t[j].key)
  {
  }

  /** ... one row for each key some row has ... */
  lemma TallyCovers<K(!new)>(obs: seq<Obs<K>>, lt: (K, K) -> bool)
    requires StrictTotalOrder(lt)
    ensures var t := Tally(Groups(obs, lt), obs);
            forall k :: (exists j :: 0 <= j < |t| && t[j].key == k) <==>
                        (exists i :: 0 <= i < |obs| && obs[i].key == Some(k))
  {
    var groups := Groups(obs, lt);
    var t := Tally(groups, obs);
    PresentKeysSpec(obs);
    forall k ensures (exists j :: 0 <= j < |t| && t[j].key == k) <==> k in groups {
      if k in groups {
        var j :| 0 <= j < |groups| && groups[j] == k;
        assert t[j].key == k;
      }
    }
  }

  /** ... and no counted row is lost or counted twice. */
  lemma TallyTotal<K(!new)>(obs: seq<Obs<K>>, lt: (K, K) -> bool)
    requires StrictTotalOrder(lt)
    ensures SumCounts(Tally(Groups(obs, lt), obs)) == CountPresent(obs)
  {
    var groups := Groups(obs, lt);
    PresentKeysSpec(obs);
    SortedIsDistinct(groups, lt);
    TallyConserves(groups, obs);
    forall i | 0 <= i < |obs| && obs[i].key.Some? ensures obs[i].key.value in groups {
      assert obs[i].key == Some(obs[i].key.value);
    }
    CountAmongCovering(obs, groups);
  }

  // Two-part keys (department first) and the per-department totals.

  /** `table.groupby(first)[count].sum()` looked up at `a`. */
  function OuterTotal<A(==), B>(t: seq<Group<(A, B)>>, a: A): nat {
    if t == [] then 0 else (if t[0].key.0 == a then t[0].count else 0) + OuterTotal(t[1..], a)
  }

  function WithOuter<A(==,!new), B(==,!new)>(groups: seq<(A, B)>, a: A): (r: seq<(A, B)>)
    ensures forall k :: k in r <==> k in groups && k.0 == a
    ensures Distinct(groups) ==> Distinct(r)
  {
    if groups == [] then []
    else
      var rest := WithOuter(groups[1..], a);
      assert forall k :: k in groups <==> k == groups[0] || k in groups[1..];
      assert Distinct(groups) ==> Distinct(groups[1..]) && groups[0] !in groups[1..] by {
        if Distinct(groups) {
          DistinctTail(groups);
        }
      }
      if groups[0].0 == a then [groups[0]] + rest else rest
  }

  /** The counted rows whose key is present and starts with `a`. */
  function CountOuter<A(==), B>(obs: seq<Obs<(A, B)>>, a: A): nat {
    if obs == [] then 0
    else
      var o := obs[|obs| - 1];
      CountOuter(obs[..|obs| - 1], a) + if o.key.Some? && o.key.value.0 == a && o.counted then 1 else 0
  }

  lemma {:induction false} OuterTotalIsTally<A(!new), B(!new)>(groups: seq<(A, B)>, obs: seq<Obs<(A, B)>>, a: A)
    ensures OuterTotal(Tally(groups, obs), a) == SumCounts(Tally(WithOuter(groups, a), obs))
  {
    if groups != [] {
      OuterTotalIsTally(groups[1..], obs, a);
      assert Tally(groups, obs)[1..] == Tally(groups[1..], obs);
      if groups[0].0 == a {
        var w := WithOuter(groups, a);
        assert w[1..] == WithOuter(groups[1..], a);
        assert Tally(w, obs)[1..] == Tally(w[1..], obs);
      }
    }
  }

  lemma {:induction false} CountAmongOuter<A(!new), B(!new)>(obs: seq<Obs<(A, B)>>, groups: seq<(A, B)>, a: A)
    requires forall i :: 0 <= i < |obs| && obs[i].key.Some? ==> obs[i].key.value in groups
    ensures CountAmong(obs, WithOuter(groups, a)) == CountOuter(obs, a)
  {
    if obs != [] {
      var init := obs[..|obs| - 1];
      assert forall i :: 0 <= i < |init| ==> init[i] == obs[i];
      CountAmongOuter(init, groups, a);
    }
  }

  /** The department total the percentages divide by counts exactly the
      counted rows of that department whose whole key is present. */
  lemma OuterTotalConserves<A(!new), B(!new)>(obs: seq<Obs<(A, B)>>, lt: ((A, B), (A, B)) -> bool, a: A)
    requires StrictTotalOrder(lt)
    ensures OuterTotal(Tally(Groups(obs, lt), obs), a) == CountOuter(obs, a)
  {
    var groups := Groups(obs, lt);
    PresentKeysSpec(obs);
    SortedIsDistinct(groups, lt);
    OuterTotalIsTally(groups, obs, a);
    TallyConserves(WithOuter(groups, a), obs);
    forall i | 0 <= i < |obs| && obs[i].key.Some? ensures obs[i].key.value in groups {
      assert obs[i].key == Some(obs[i].key.value);
    }
    CountAmongOuter(obs, groups, a);
  }

  /** A group's count is part of its department's total. */
  lemma {:induction false} WithinOuterTotal<A, B>(t: seq<Group<(A, B)>>, j: nat)
    requires j < |t|
    ensures t[j].count <= OuterTotal(t, t[j].key.0)
  {
    if j > 0 {
      WithinOuterTotal(t[1..], j - 1);
    }
  }
}
