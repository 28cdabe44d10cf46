/** Writers that overwrite one map in turn: when their order shows. */
module LastWriter {

  /** Each writer's entries over those before it. */
  function Merged<K, V>(base: map<K, V>, writes: seq<map<K, V>>): map<K, V> {
    if writes == [] then base else Merged(base, writes[..|writes| - 1]) + writes[|writes| - 1]
  }

  lemma MergedStep<K, V>(base: map<K, V>, writes: seq<map<K, V>>, i: nat)
    requires i < |writes|
    ensures Merged(base, writes[..i + 1]) == Merged(base, writes[..i]) + writes[i]
  {
    assert writes[..i + 1][..i] == writes[..i];
  }

  lemma {:induction false} MergedOver<K, V>(base: map<K, V>, writes: seq<map<K, V>>)
    ensures Merged(base, writes) == base + Merged(map[], writes)
  {
    if writes == [] {
      assert base + map[] == base;
    } else {
      MergedOver(base, writes[..|writes| - 1]);
    }
  }

  /** No two writers give one key different values. */
  ghost predicate Agree<K(!new), V>(writes: seq<map<K, V>>) {
    forall i, j, k :: 0 <= i < j < |writes| && k in writes[i] && k in writes[j] ==> writes[i][k] == writes[j][k]
  }

  ghost predicate Written<K, V>(writes: seq<map<K, V>>, k: K) {
    exists w :: w in writes && k in w
  }

  lemma {:induction false} MergedAt<K(!new), V>(base: map<K, V>, writes: seq<map<K, V>>, k: K)
    ensures !Written(writes, k) ==> (k in Merged(base, writes) <==> k in base)
    ensures !Written(writes, k) && k in base ==> Merged(base, writes)[k] == base[k]
    ensures Written(writes, k) ==> k in Merged(base, writes)
    ensures Agree(writes) ==> forall w :: w in writes && k in w ==> Merged(base, writes)[k] == w[k]
  {
    if writes != [] {
      var front, last := writes[..|writes| - 1], writes[|writes| - 1];
      MergedAt(base, front, k);
      assert forall w :: w in writes <==> w in front || w == last;
      if Agree(writes) && k in last {
        forall w | w in front && k in w
          ensures w[k] == last[k]
        {
          var i :| 0 <= i < |front| && front[i] == w;
          assert writes[i] == w && writes[|front|] == last;
        }
      }
    }
  }

  lemma AgreeIsUnordered<K(!new), V>(a: seq<map<K, V>>, b: seq<map<K, V>>)
    requires multiset(a) == multiset(b) && Agree(a)
    ensures Agree(b)
  {
    forall i, j, k | 0 <= i < j < |b| && k in b[i] && k in b[j]
      ensures b[i][k] == b[j][k]
    {
      assert b[i] in multiset(b) && b[j] in multiset(b);
      assert b[i] in multiset(a) && b[j] in multiset(a);
      var x :| 0 <= x < |a| && a[x] == b[i];
      var y :| 0 <= y < |a| && a[y] == b[j];
    }
  }

  lemma AgreeingMerge<K(!new), V>(base: map<K, V>, a: seq<map<K, V>>, b: seq<map<K, V>>)
    requires multiset(a) == multiset(b) && Agree(a)
    ensures Merged(base, a) == Merged(base, b)
  {
    AgreeIsUnordered(a, b);
    assert forall w :: w in a <==> w in multiset(a);
    assert forall w :: w in b <==> w in multiset(b);
    forall k
      ensures k in Merged(base, a) <==> k in Merged(base, b)
      ensures k in Merged(base, a) ==> Merged(base, a)[k] == Merged(base, b)[k]
    {
      MergedAt(base, a, k);
      MergedAt(base, b, k);
    }
  }

  /** For each key the last writer that has it wins, and the base where none has. */
  lemma {:induction false} MergedInFull<K, V>(base: map<K, V>, writes: seq<map<K, V>>, k: K)
    ensures (forall i :: 0 <= i < |writes| ==> k !in writes[i]) ==>
              (k in Merged(base, writes) <==> k in base) && (k in base ==> Merged(base, writes)[k] == base[k])
    ensures forall i :: 0 <= i < |writes| && k in writes[i] ==> k in Merged(base, writes)
    ensures forall i :: 0 <= i < |writes| && k in writes[i] && (forall j :: i < j < |writes| ==> k !in writes[j]) ==>
              Merged(base, writes)[k] == writes[i][k]
  {
    if writes != [] {
      MergedInFull(base, writes[..|writes| - 1], k);
    }
  }

  /** The same writers with that one last. */
  function Last<K, V>(writes: seq<map<K, V>>, i: nat): (order: seq<map<K, V>>)
    requires i < |writes|
  {
    writes[..i] + writes[i + 1..] + [writes[i]]
  }

  lemma LastPermutes<K, V>(writes: seq<map<K, V>>, i: nat)
    requires i < |writes|
    ensures multiset(Last(writes, i)) == multiset(writes)
  {
    assert writes == writes[..i] + [writes[i]] + writes[i + 1..];
  }

  lemma LastWins<K, V>(base: map<K, V>, writes: seq<map<K, V>>, i: nat, k: K)
    requires i < |writes| && k in writes[i]
    ensures k in Merged(base, Last(writes, i)) && Merged(base, Last(writes, i))[k] == writes[i][k]
  {
    var order := Last(writes, i);
    assert order[|order| - 1] == writes[i];
  }

  /** Every order of the writers leaves the same map exactly when they agree. */
  lemma OrderIsHiddenExactly<K(!new), V>(base: map<K, V>, writes: seq<map<K, V>>)
    ensures (forall order :: multiset(order) == multiset(writes) ==> Merged(base, order) == Merged(base, writes))
       <==> Agree(writes)
  {
    if Agree(writes) {
      forall order | multiset(order) == multiset(writes)
        ensures Merged(base, order) == Merged(base, writes)
      {
        AgreeingMerge(base, writes, order);
      }
    } else {
      var i, j, k :| 0 <= i < j < |writes| && k in writes[i] && k in writes[j] && writes[i][k] != writes[j][k];
      LastPermutes(writes, i);
      LastPermutes(writes, j);
      LastWins(base, writes, i, k);
      LastWins(base, writes, j, k);
    }
  }
}
