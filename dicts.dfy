/** Python dictionary semantics used by the pipeline: building a dict by
    inserting key/value pairs left to right (`dict(items)`, or a loop of
    `d[k] = v`), and merging dicts by successive `update` calls. In both a
    later write to a key overwrites an earlier one. */
module Dicts {

  // ---------------------------------------------------------------------
  // dict(items)
  // ---------------------------------------------------------------------

  /** `dict(items)`: each pair inserted in turn, so the last pair with a
      given key decides its value. */
  function FromItems<K(==), V>(items: seq<(K, V)>): map<K, V>
  {
    if items == [] then map[]
    else
      var last := items[|items| - 1];
      FromItems(items[..|items| - 1])[last.0 := last.1]
  }

  /** The keys that occur in a list of pairs. */
  ghost function KeysOf<K, V>(items: seq<(K, V)>): set<K>
  {
    set i | 0 <= i < |items| :: items[i].0
  }

  /** No key occurs twice: the shape of `d.items()` for a dict `d`. */
  predicate DistinctKeys<K(==), V>(items: seq<(K, V)>)
  {
    forall i, j :: 0 <= i < j < |items| ==> items[i].0 != items[j].0
  }

  /** The dict has exactly the keys of the pairs. */
  lemma {:induction false} FromItemsKeys<K, V>(items: seq<(K, V)>)
    ensures FromItems(items).Keys == KeysOf(items)
  {
    if items != [] {
      var init := items[..|items| - 1];
      FromItemsKeys(init);
      assert KeysOf(items) == KeysOf(init) + {items[|items| - 1].0} by {
        forall k | k in KeysOf(items) ensures k in KeysOf(init) + {items[|items| - 1].0} {
          var i :| 0 <= i < |items| && items[i].0 == k;
          if i < |items| - 1 {
            assert init[i].0 == k;
          }
        }
        forall k | k in KeysOf(init) ensures k in KeysOf(items) {
          var i :| 0 <= i < |init| && init[i].0 == k;
          assert items[i].0 == k;
        }
      }
    }
  }

  /** Last write wins: a pair that no later pair overrides gives the value of
      its key. */
  lemma {:induction false} FromItemsLastWins<K, V>(items: seq<(K, V)>, i: nat)
    requires i < |items|
    requires forall j :: i < j < |items| ==> items[j].0 != items[i].0
    ensures items[i].0 in FromItems(items)
    ensures FromItems(items)[items[i].0] == items[i].1
  {
    if i < |items| - 1 {
      var init := items[..|items| - 1];
      FromItemsLastWins(init, i);
    }
  }

  /** Every value of the dict comes from some pair with its key, and from the
      last such pair. */
  lemma {:induction false} FromItemsValue<K, V>(items: seq<(K, V)>, k: K)
    requires k in FromItems(items)
    ensures exists i :: 0 <= i < |items| && items[i].0 == k && FromItems(items)[k] == items[i].1
                        && forall j :: i < j < |items| ==> items[j].0 != k
  {
    var n := |items| - 1;
    var last, init := items[n], items[..n];
    assert FromItems(items) == FromItems(init)[last.0 := last.1];
    if last.0 != k {
      FromItemsValue(init, k);
      var i :| 0 <= i < |init| && init[i].0 == k && FromItems(init)[k] == init[i].1
               && forall j :: i < j < |init| ==> init[j].0 != k;
      assert items[i] == init[i];
      assert forall j :: i < j < n ==> items[j] == init[j];
    } else {
      assert items[n].0 == k && FromItems(items)[k] == items[n].1;
    }
  }

  /** Building from two lists in a row is the first dict updated by the second. */
  lemma {:induction false} FromItemsAppend<K, V>(a: seq<(K, V)>, b: seq<(K, V)>)
    ensures FromItems(a + b) == FromItems(a) + FromItems(b)
    decreases |b|
  {
    if b == [] {
      assert a + b == a;
    } else {
      var last := b[|b| - 1];
      var b' := b[..|b| - 1];
      assert (a + b)[..|a + b| - 1] == a + b';
      FromItemsAppend(a, b');
    }
  }

  // ---------------------------------------------------------------------
  // Successive dict.update
  // ---------------------------------------------------------------------

  /** `r = dict(); for p in parts: r.update(p)` */
  function UpdateAll<K(==), V>(parts: seq<map<K, V>>): map<K, V>
  {
    if parts == [] then map[]
    else UpdateAll(parts[..|parts| - 1]) + parts[|parts| - 1]
  }

  /** The key is in some part. */
  ghost predicate InSomePart<K, V>(parts: seq<map<K, V>>, k: K)
  {
    exists i :: 0 <= i < |parts| && k in parts[i]
  }

  /** The union of the parts' keys, exactly. */
  lemma {:induction false} UpdateAllKeys<K, V>(parts: seq<map<K, V>>, k: K)
    ensures k in UpdateAll(parts) <==> InSomePart(parts, k)
  {
    if parts != [] {
      var init := parts[..|parts| - 1];
      UpdateAllKeys(init, k);
      if InSomePart(parts, k) && k !in parts[|parts| - 1] {
        var i :| 0 <= i < |parts| && k in parts[i];
        assert k in init[i];
      }
      if InSomePart(init, k) {
        var i :| 0 <= i < |init| && k in init[i];
        assert k in parts[i];
      }
    }
  }

  /** Last writer wins: a key takes its value from the last part that holds it. */
  lemma {:induction false} UpdateAllLastWins<K, V>(parts: seq<map<K, V>>, i: nat, k: K)
    requires i < |parts| && k in parts[i]
    requires forall j :: i < j < |parts| ==> k !in parts[j]
    ensures k in UpdateAll(parts) && UpdateAll(parts)[k] == parts[i][k]
  {
    if i < |parts| - 1 {
      UpdateAllLastWins(parts[..|parts| - 1], i, k);
    }
  }

  /** No two parts share a key (the per-chunk results of a partition). */
  predicate PairwiseDisjoint<K(==), V>(parts: seq<map<K, V>>)
  {
    forall i, j :: 0 <= i < j < |parts| ==> parts[i].Keys !! parts[j].Keys
  }

  /** With pairwise-disjoint parts, every part agrees with the merge on its keys. */
  lemma UpdateAllDisjoint<K, V>(parts: seq<map<K, V>>, i: nat, k: K)
    requires PairwiseDisjoint(parts)
    requires i < |parts| && k in parts[i]
    ensures k in UpdateAll(parts) && UpdateAll(parts)[k] == parts[i][k]
  {
    forall j | i < j < |parts| ensures k !in parts[j] {
      assert parts[i].Keys !! parts[j].Keys;
    }
    UpdateAllLastWins(parts, i, k);
  }

  /** Order does not matter when the parts are pairwise disjoint: two lists
      holding the same parts merge to the same dict. */
  lemma UpdateAllOrderIndependent<K, V>(ps: seq<map<K, V>>, qs: seq<map<K, V>>)
    requires PairwiseDisjoint(ps) && PairwiseDisjoint(qs)
    requires forall m :: m in ps <==> m in qs
    ensures UpdateAll(ps) == UpdateAll(qs)
  {
    var a, b := UpdateAll(ps), UpdateAll(qs);
    forall k | k in a ensures k in b && a[k] == b[k] {
      UpdateAllKeys(ps, k);
      var i :| 0 <= i < |ps| && k in ps[i];
      assert ps[i] in qs;
      var j :| 0 <= j < |qs| && qs[j] == ps[i];
      UpdateAllDisjoint(ps, i, k);
      UpdateAllDisjoint(qs, j, k);
    }
    forall k | k in b ensures k in a {
      UpdateAllKeys(qs, k);
      var j :| 0 <= j < |qs| && k in qs[j];
      assert qs[j] in ps;
      var i :| 0 <= i < |ps| && ps[i] == qs[j];
      UpdateAllDisjoint(ps, i, k);
    }
    assert a.Keys == b.Keys;
  }

  /** Merging in two runs is merging once. */
  lemma {:induction false} UpdateAllAppend<K, V>(a: seq<map<K, V>>, b: seq<map<K, V>>)
    ensures UpdateAll(a + b) == UpdateAll(a) + UpdateAll(b)
    decreases |b|
  {
    if b == [] {
      assert a + b == a;
    } else {
      var b' := b[..|b| - 1];
      assert (a + b)[..|a + b| - 1] == a + b';
      UpdateAllAppend(a, b');
    }
  }
}
