/** Label selectors: exact matching, and the weighted score of a partial match. */
module Selectors {

  type Labels = map<string, string>

  function Weight(key: string): nat {
    if key == "app.kubernetes.io/instance" || key == "app.kubernetes.io/name" then 4
    else if key == "app" then 3
    else if key == "component" || key == "app.kubernetes.io/component" then 2
    else 1
  }

  /** A missing key reads as the empty string. */
  function Lookup(labels: Labels, key: string): string {
    if key in labels then labels[key] else ""
  }

  ghost predicate LabelsMatch(selector: Labels, labels: Labels) {
    selector != map[] && forall k :: k in selector ==> Lookup(labels, k) == selector[k]
  }

  function MatchedKeys(selector: Labels, labels: Labels): set<string> {
    set k | k in selector && k in labels && labels[k] == selector[k]
  }

  function ConflictingKeys(selector: Labels, labels: Labels): set<string> {
    set k | k in selector && k in labels && labels[k] != selector[k]
  }

  ghost function Pick(keys: set<string>): (k: string)
    requires keys != {}
    ensures k in keys
  {
    var k :| k in keys;
    k
  }

  ghost function TotalWeight(keys: set<string>): nat {
    if keys == {} then 0 else Weight(Pick(keys)) + TotalWeight(keys - {Pick(keys)})
  }

  /** The sum does not depend on which key is taken first. */
  lemma {:induction false} TotalWeightTakes(keys: set<string>, k: string)
    requires k in keys
    ensures TotalWeight(keys) == Weight(k) + TotalWeight(keys - {k})
  {
    var first := Pick(keys);
    if first != k {
      TotalWeightTakes(keys - {first}, k);
      TotalWeightTakes(keys - {k}, first);
      assert keys - {first} - {k} == keys - {k} - {first};
    }
  }

  /** More keys weigh more, and strictly so. */
  lemma {:induction false} TotalWeightIsMonotone(a: set<string>, b: set<string>)
    requires a <= b
    ensures TotalWeight(a) <= TotalWeight(b)
    ensures TotalWeight(a) == TotalWeight(b) <==> a == b
  {
    if a != b {
      var k :| k in b && k !in a;
      TotalWeightTakes(b, k);
      TotalWeightIsMonotone(a, b - {k});
    }
  }

  lemma EmptyWeighsNothing()
    ensures TotalWeight({}) == 0
  {
  }

  ghost function Score(selector: Labels, labels: Labels): nat {
    var matched, total := TotalWeight(MatchedKeys(selector, labels)), TotalWeight(selector.Keys);
    if total == 0 || matched == 0 then 0 else matched * 100 / total
  }

  /** The loop ranges over the selector in any order. */
  method SelectorInferenceScore(selector: Labels, labels: Labels)
    returns (score: nat, matched: Labels, conflicts: map<string, (string, string)>)
    ensures score == Score(selector, labels)
    ensures matched == map k | k in MatchedKeys(selector, labels) :: labels[k]
    ensures conflicts == map k | k in ConflictingKeys(selector, labels) :: (selector[k], labels[k])
  {
    EmptyWeighsNothing();
    hide Weight, TotalWeight;
    matched, conflicts := map[], map[];
    var matchedWeight, totalWeight := 0, 0;
    var todo := selector.Keys;
    ghost var toMatch := MatchedKeys(selector, labels);
    while todo != {}
      invariant todo <= selector.Keys && toMatch <= todo
      invariant toMatch == MatchedKeys(selector, labels) * todo
      invariant forall k :: k in matched <==> k in MatchedKeys(selector, labels) && k !in todo
      invariant forall k :: k in matched ==> matched[k] == labels[k]
      invariant forall k :: k in conflicts <==> k in ConflictingKeys(selector, labels) && k !in todo
      invariant forall k :: k in conflicts ==> conflicts[k] == (selector[k], labels[k])
      invariant matchedWeight + TotalWeight(toMatch) == TotalWeight(MatchedKeys(selector, labels))
      invariant totalWeight + TotalWeight(todo) == TotalWeight(selector.Keys)
      decreases todo
    {
      var k :| k in todo;
      TotalWeightTakes(todo, k);
      todo := todo - {k};
      var weight := Weight(k);
      totalWeight := totalWeight + weight;
      if k in labels && labels[k] == selector[k] {
        TotalWeightTakes(toMatch, k);
        toMatch := toMatch - {k};
        matched := matched[k := labels[k]];
        matchedWeight := matchedWeight + weight;
      } else if k in labels {
        conflicts := conflicts[k := (selector[k], labels[k])];
      }
    }
    assert toMatch == {};
    if totalWeight == 0 || matchedWeight == 0 {
      score := 0;
    } else {
      score := matchedWeight * 100 / totalWeight;
    }
  }

  method MatchLabels(selector: Labels, labels: Labels) returns (matches: bool)
    ensures matches <==> LabelsMatch(selector, labels)
  {
    if selector == map[] {
      return false;
    }
    var todo := selector.Keys;
    while todo != {}
      invariant todo <= selector.Keys
      invariant forall k :: k in selector && k !in todo ==> Lookup(labels, k) == selector[k]
      decreases todo
    {
      var k :| k in todo;
      if Lookup(labels, k) != selector[k] {
        return false;
      }
      todo := todo - {k};
    }
    return true;
  }

  lemma Scale(a: nat, b: nat, c: nat)
    requires a <= b
    ensures a * c <= b * c
  {
  }

  lemma QuotientIs(n: nat, d: nat, q: nat)
    requires 0 < d && q * d <= n < q * d + d
    ensures n / d == q
  {
    var p := n / d;
    assert p * d <= n < p * d + d;
    if p < q {
      Scale(p + 1, q, d);
    } else if q < p {
      Scale(q + 1, p, d);
    }
  }

  lemma DivisionIsMonotone(a: nat, b: nat, d: nat)
    requires a <= b && 0 < d
    ensures a / d <= b / d
  {
    if b / d < a / d {
      Scale(b / d + 1, a / d, d);
    }
  }

  lemma PercentOf(part: nat, whole: nat)
    requires 0 < whole && part <= whole
    ensures part * 100 / whole <= 100
    ensures part * 100 / whole == 100 <==> part == whole
  {
    QuotientIs(whole * 100, whole, 100);
    DivisionIsMonotone(part * 100, whole * 100, whole);
    if part < whole {
      var q := part * 100 / whole;
      assert q * whole <= part * 100;
      assert q != 100;
    }
  }

  /** The score is a percentage, and the keys behind it are selector keys of two kinds. */
  lemma ScoreIsPercentage(selector: Labels, labels: Labels)
    ensures Score(selector, labels) <= 100
    ensures MatchedKeys(selector, labels) !! ConflictingKeys(selector, labels)
    ensures MatchedKeys(selector, labels) + ConflictingKeys(selector, labels) == selector.Keys * labels.Keys
  {
    TotalWeightIsMonotone(MatchedKeys(selector, labels), selector.Keys);
    if TotalWeight(selector.Keys) != 0 {
      PercentOf(TotalWeight(MatchedKeys(selector, labels)), TotalWeight(selector.Keys));
    }
  }

  /** Labels that match more of a selector never score less. */
  lemma ScoreIsMonotone(selector: Labels, fewer: Labels, more: Labels)
    requires MatchedKeys(selector, fewer) <= MatchedKeys(selector, more)
    ensures Score(selector, fewer) <= Score(selector, more)
  {
    var a, b := TotalWeight(MatchedKeys(selector, fewer)), TotalWeight(MatchedKeys(selector, more));
    var total := TotalWeight(selector.Keys);
    TotalWeightIsMonotone(MatchedKeys(selector, fewer), MatchedKeys(selector, more));
    if total != 0 {
      DivisionIsMonotone(a * 100, b * 100, total);
    }
  }

  /** A full score is an exact match whose empty-valued keys are really present. */
  lemma FullScoreIsExactMatch(selector: Labels, labels: Labels)
    ensures Score(selector, labels) == 100 <==>
              LabelsMatch(selector, labels) && forall k :: k in selector && selector[k] == "" ==> k in labels
  {
    var matched := MatchedKeys(selector, labels);
    TotalWeightIsMonotone(matched, selector.Keys);
    TotalWeightIsMonotone({}, selector.Keys);
    if selector != map[] {
      assert selector.Keys != {};
      PercentOf(TotalWeight(matched), TotalWeight(selector.Keys));
    }
    assert matched == selector.Keys <==> forall k :: k in selector ==> k in labels && labels[k] == selector[k];
  }

  // ---- The score, in full ------------------------------------------------------------

  function Fours(): set<string> {
    {"app.kubernetes.io/instance", "app.kubernetes.io/name"}
  }

  function Threes(): set<string> {
    {"app"}
  }

  function Twos(): set<string> {
    {"component", "app.kubernetes.io/component"}
  }

  /** Four for instance and name, three for app, two for component and one for any other key. */
  function Weighed(keys: set<string>): nat {
    4 * |keys * Fours()| + 3 * |keys * Threes()| + 2 * |keys * Twos()| + |keys - Fours() - Threes() - Twos()|
  }

  lemma {:induction false} WeighedByClass(keys: set<string>)
    ensures TotalWeight(keys) == Weighed(keys)
  {
    hide Fours, Threes, Twos, Weight;
    if keys == {} {
      EmptyWeighsNothing();
      assert keys * Fours() == {} && keys * Threes() == {} && keys * Twos() == {} && keys - Fours() - Threes() - Twos() == {};
    } else {
      var k :| k in keys;
      WeighedByClass(keys - {k});
      TotalWeightTakes(keys, k);
      hide TotalWeight;
      Takes(keys, k, Fours());
      Takes(keys, k, Threes());
      Takes(keys, k, Twos());
      TakesOther(keys, k, Fours(), Threes(), Twos());
      WeightOf(k);
    }
  }

  lemma WeightOf(k: string)
    ensures Weight(k) == (if k in Fours() then 4 else 0) + (if k in Threes() then 3 else 0) + (if k in Twos() then 2 else 0)
                         + (if k in Fours() || k in Threes() || k in Twos() then 0 else 1)
  {
  }

  lemma TakesOther(keys: set<string>, k: string, a: set<string>, b: set<string>, c: set<string>)
    requires k in keys
    ensures |keys - a - b - c| == |keys - {k} - a - b - c| + if k in a || k in b || k in c then 0 else 1
  {
    if k in a || k in b || k in c {
      assert keys - a - b - c == keys - {k} - a - b - c;
    } else {
      assert keys - a - b - c == (keys - {k} - a - b - c) + {k};
    }
  }

  lemma Takes(keys: set<string>, k: string, some: set<string>)
    requires k in keys
    ensures |keys * some| == |(keys - {k}) * some| + if k in some then 1 else 0
  {
    if k in some {
      assert keys * some == (keys - {k}) * some + {k};
    } else {
      assert keys * some == (keys - {k}) * some;
    }
  }

  function Matches(selector: Labels, labels: Labels): set<string> {
    set k | k in selector && k in labels && labels[k] == selector[k]
  }

  /** How much of the selector the labels match, as a percentage of its weight, rounded down. */
  function Percent(selector: Labels, labels: Labels): nat {
    Share(Weighed(Matches(selector, labels)), Weighed(selector.Keys))
  }

  function Share(part: nat, whole: nat): nat {
    if whole == 0 then 0 else part * 100 / whole
  }

  lemma ScoreIsWeighed(selector: Labels, labels: Labels)
    ensures Score(selector, labels) == Percent(selector, labels)
  {
    WeighedByClass(selector.Keys);
    WeighedByClass(MatchedKeys(selector, labels));
    hide Weighed, TotalWeight;
    assert MatchedKeys(selector, labels) == Matches(selector, labels);
  }
}
