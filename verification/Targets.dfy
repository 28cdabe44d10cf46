/** Where an orphaned Service is led to: the identity labels, the points and the choice of targets, told
    by the labels themselves. */
module Targets {
  import opened Graph
  import opened Order
  import opened Selectors
  import opened Inference
  import opened Text

  // ---- The identity -----------------------------------------------------------------

  const IDENTITY := ["kubechan.io/system", "app.kubernetes.io/part-of", "app.kubernetes.io/instance"]

  predicate IsSet(labels: Labels, key: string) {
    key in labels && labels[key] != ""
  }

  predicate HasSystem(labels: Labels) {
    exists i :: 0 <= i < 3 && IsSet(labels, IDENTITY[i])
  }

  /** That key is the first of the three that is set. */
  predicate FirstSet(labels: Labels, i: int) {
    0 <= i < 3 && IsSet(labels, IDENTITY[i]) && forall k :: 0 <= k < i ==> !IsSet(labels, IDENTITY[k])
  }

  /** Both have their identity in the same label, with the same value. */
  predicate SameSystem(a: Labels, b: Labels) {
    exists i :: 0 <= i < 3 && FirstSet(a, i) && FirstSet(b, i) && a[IDENTITY[i]] == b[IDENTITY[i]]
  }

  lemma IdentityOf(labels: Labels) returns (i: int)
    ensures HasSystem(labels) ==> FirstSet(labels, i) && SystemIdentity(labels) == IDENTITY[i] + "=" + labels[IDENTITY[i]]
    ensures !HasSystem(labels) ==> SystemIdentity(labels) == ""
    ensures forall k :: FirstSet(labels, k) ==> k == i
  {
    i := if IsSet(labels, IDENTITY[0]) then 0 else if IsSet(labels, IDENTITY[1]) then 1 else 2;
  }

  /** Identities are compared by the label they come from and its value. */
  lemma SystemsAgreeExactly(a: Labels, b: Labels)
    ensures SystemIdentity(a) != "" <==> HasSystem(a)
    ensures SystemIdentity(a) != "" && SystemIdentity(a) == SystemIdentity(b) <==> SameSystem(a, b)
  {
    var i := IdentityOf(a);
    var k := IdentityOf(b);
    hide SystemIdentity;
    if HasSystem(a) && HasSystem(b) && SystemIdentity(a) == SystemIdentity(b) {
      NoEquals(i);
      NoEquals(k);
      SplitAtFirst('=', IDENTITY[i], IDENTITY[k], a[IDENTITY[i]], b[IDENTITY[k]]);
      DistinctIdentities(i, k);
    }
  }

  lemma NoEquals(i: int)
    requires 0 <= i < 3
    ensures '=' !in IDENTITY[i]
  {
    assert '=' !in "kubechan.io/system" && '=' !in "app.kubernetes.io/part-of" && '=' !in "app.kubernetes.io/instance";
  }

  lemma DistinctIdentities(i: int, k: int)
    requires 0 <= i < 3 && 0 <= k < 3 && IDENTITY[i] == IDENTITY[k]
    ensures i == k
  {
    assert |"kubechan.io/system"| == 18 && |"app.kubernetes.io/part-of"| == 25 && |"app.kubernetes.io/instance"| == 26;
  }

  // ---- The choice -------------------------------------------------------------------

  /** A workload of the namespace that matches some of the selector, well enough, and belongs to no
      other system. */
  predicate Suits(service: Node, w: Node, p: Policy) {
    var labels := if w.templateLabels == map[] then w.labels else w.templateLabels;
    && w.kind == ResourceNode && w.resource.namespace == service.resource.namespace
    && w.resource.kind in ["Deployment", "StatefulSet", "DaemonSet", "Job", "CronJob"]
    && Percent(service.selector, labels) >= p.possibleThreshold
    && (exists k :: k in service.selector && k in labels && labels[k] == service.selector[k])
    && (HasSystem(service.labels) && HasSystem(w.labels) ==> SameSystem(service.labels, w.labels))
  }

  /** The percentage, a hundred for the name the Service had before and eighty for its system. */
  function Points(service: Node, w: Node): nat {
    var labels := if w.templateLabels == map[] then w.labels else w.templateLabels;
    var key := "kubechan.io/renamed-from";
    Percent(service.selector, labels)
    + (if (if key in service.annotations then service.annotations[key] else "") == w.resource.name then 100 else 0)
    + (if SameSystem(service.labels, w.labels) then 80 else 0)
  }

  lemma SuitsExactly(service: Node, w: Node, p: Policy)
    ensures Eligible(service, w, p) <==> Suits(service, w, p)
    ensures RankScore(service, w) == Points(service, w)
  {
    var labels := WorkloadLabels(w);
    ScoreIsWeighed(service.selector, labels);
    SystemsAgreeExactly(service.labels, w.labels);
    SystemsAgreeExactly(w.labels, service.labels);
    hide Score, Percent, SystemIdentity, HasSystem, SameSystem;
    assert MatchedKeys(service.selector, labels) != {} <==>
           exists k :: k in service.selector && k in labels && labels[k] == service.selector[k] by {
      if k :| k in service.selector && k in labels && labels[k] == service.selector[k] {
        assert k in MatchedKeys(service.selector, labels);
      }
    }
  }

  /** A selecting Service whose selector no Pod of its namespace carries in full. */
  ghost predicate LeadsNowhere(nodes: NodeMap, s: string) {
    && s in nodes && nodes[s].kind == ResourceNode && nodes[s].resource.kind == "Service" && nodes[s].selector != map[]
    && forall q :: q in nodes && nodes[q].resource.kind == "Pod" && nodes[q].resource.namespace == nodes[s].resource.namespace ==>
         exists k :: k in nodes[s].selector && (if k in nodes[q].labels then nodes[q].labels[k] else "") != nodes[s].selector[k]
  }

  lemma LeadsNowhereExactly(nodes: NodeMap, s: string)
    ensures Orphan(nodes, s) <==> LeadsNowhere(nodes, s)
  {
    if s in nodes && IsSelectingService(nodes[s]) {
      forall q | q in nodes && nodes[q].resource.kind == "Pod" && nodes[q].resource.namespace == nodes[s].resource.namespace
        ensures !SelectsPod(nodes[s], nodes[q]) <==>
                exists k :: k in nodes[s].selector && (if k in nodes[q].labels then nodes[q].labels[k] else "") != nodes[s].selector[k]
      {
      }
    }
  }

  ghost function SuitableFor(nodes: NodeMap, s: string, p: Policy): set<string>
    requires s in nodes
  {
    set w | w in nodes && Suits(nodes[s], nodes[w], p)
  }

  /** Higher points, and at equal points the id that comes first. */
  predicate Outranks(points: int, id: string, otherPoints: int, otherId: string) {
    points > otherPoints || (points == otherPoints && Before(id, otherId))
  }

  lemma BetterOutranks(a: Ranked, b: Ranked)
    ensures Better(a, b) <==> Outranks(a.score, a.id, b.score, b.id)
  {
  }

  lemma {:induction false} RankedListExists(all: set<Ranked>) returns (r: seq<Ranked>)
    ensures Arranged(r, Better) && Elements(r) == all && |r| == |all|
  {
    r := [];
    if all != {} {
      var x :| x in all;
      var rest := RankedListExists(all - {x});
      var k := RankOf(rest, x);
      r := rest[..k] + [x] + rest[k..];
      assert rest == rest[..k] + rest[k..];
      assert forall y :: y in r <==> y in rest || y == x;
      hide Better;
      assert forall y :: y in Elements(rest) <==> y in rest;
      assert Elements(r) == all;
    }
  }

  /** Where the candidate belongs in a ranked list. */
  lemma RankOf(rest: seq<Ranked>, x: Ranked) returns (k: nat)
    requires Arranged(rest, Better)
    ensures k <= |rest| && Arranged(rest[..k] + [x] + rest[k..], Better)
  {
    BetterIsStrictWeakOrder();
    hide Better;
    k := 0;
    while k < |rest| && !Better(x, rest[k])
      invariant 0 <= k <= |rest|
      invariant forall i :: 0 <= i < k ==> !Better(x, rest[i])
    {
      k := k + 1;
    }
    forall i | k <= i < |rest|
      ensures Better(x, rest[i])
    {
      assert i > k ==> !Better(rest[i], rest[k]);
    }
    InsertKeepsArranged(rest, k, x, Better);
  }

  /** The chosen candidates outrank the others, and are as many as the limit allows. */
  lemma ChosenOutrank(all: set<Ranked>, p: Policy)
    requires 0 <= p.maxCandidatesPerGap && forall c, d :: c in all && d in all && c.id == d.id ==> c == d
    ensures var chosen := set c | c in all && Chosen(c, all, p);
      && (forall c, d :: c in chosen && d in all - chosen ==> Outranks(c.score, c.id, d.score, d.id))
      && |chosen| == if |all| < p.maxCandidatesPerGap then |all| else p.maxCandidatesPerGap
  {
    var chosen := set c | c in all && Chosen(c, all, p);
    var r := RankedListExists(all);
    DistinctIds(r, all);
    TopAreChosen(r, p);
    var top := if |r| > p.maxCandidatesPerGap then r[..p.maxCandidatesPerGap] else r;
    assert chosen == Elements(r[..|top|]) by {
      assert r[..|top|] == top;
    }
    PrefixSize(r, |top|);
    forall c, d | c in chosen && d in all - chosen
      ensures Outranks(c.score, c.id, d.score, d.id)
    {
      var i :| 0 <= i < |top| && top[i] == c;
      var k :| 0 <= k < |r| && r[k] == d;
      assert k >= |top|;
      assert !Better(r[k], r[i]);
      BeforeIsTotal(c.id, d.id);
    }
  }

  lemma DistinctIds(r: seq<Ranked>, all: set<Ranked>)
    requires Elements(r) == all && |r| == |all| && forall c, d :: c in all && d in all && c.id == d.id ==> c == d
    ensures forall i, j :: 0 <= i < j < |r| ==> r[i].id != r[j].id
  {
    forall i, j | 0 <= i < j < |r|
      ensures r[i].id != r[j].id
    {
      if r[i].id == r[j].id {
        assert r[i] in all && r[j] in all;
        ElementsWithout(r, i, j);
      }
    }
  }

  lemma ElementsWithout(r: seq<Ranked>, i: nat, j: nat)
    requires i < j < |r| && r[i] == r[j]
    ensures |Elements(r)| < |r|
  {
    var rest := r[..j] + r[j + 1..];
    assert r == r[..j] + [r[j]] + r[j + 1..];
    assert r[i] in r[..j];
    assert Elements(r) == Elements(rest);
    ElementsSize(rest);
  }

  lemma {:induction false} ElementsSize(r: seq<Ranked>)
    ensures |Elements(r)| <= |r|
  {
    if r == [] {
      assert Elements(r) == {};
    } else {
      var front, last := r[..|r| - 1], r[|r| - 1];
      ElementsSize(front);
      assert r == front + [last];
      assert Elements(r) == Elements(front) + {last};
    }
  }

  // ---- The edges --------------------------------------------------------------------

  lemma JoinedThree(a: string, b: string, c: string)
    ensures Joined([a, b, c]) == a + "|" + b + "|" + c
  {
    assert [a, b, c][1..] == [b, c] && [b, c][1..] == [c];
    assert Joined([c]) == c;
    assert Joined([b, c]) == b + "|" + c;
    assert a + "|" + (b + "|" + c) == a + "|" + b + "|" + c;
  }

  lemma JoinedFour(a: string, b: string, c: string, d: string)
    ensures Joined([a, b, c, d]) == a + "|" + b + "|" + c + "|" + d
  {
    JoinedThree(b, c, d);
    assert [a, b, c, d][1..] == [b, c, d];
    assert a + "|" + (b + "|" + c + "|" + d) == a + "|" + b + "|" + c + "|" + d;
  }

  /** Strictly ascending, and the non-empty ones of two lists. */
  ghost predicate Merges(ids: seq<string>, a: seq<string>, b: seq<string>) {
    && (forall i, j :: 0 <= i < j < |ids| ==> Before(ids[i], ids[j]))
    && (forall x :: x in ids <==> x != "" && (x in a || x in b))
  }

  /** An observed edge to a Pod that carries the whole selector. */
  ghost predicate Observed(nm: Naming, nodes: NodeMap, e: Edge) {
    && e.from in nodes && nodes[e.from].kind == ResourceNode && nodes[e.from].resource.kind == "Service"
    && nodes[e.from].selector != map[]
    && e.to in nodes && nodes[e.to].resource.kind == "Pod" && nodes[e.to].resource.namespace == nodes[e.from].resource.namespace
    && (forall k :: k in nodes[e.from].selector ==>
          (if k in nodes[e.to].labels then nodes[e.to].labels[k] else "") == nodes[e.from].selector[k])
    && e.id == "edge:" + nm.hash("selects" + "|" + e.from + "|" + e.to)
    && e.kind == "selects" && e.state == "resolved" && !e.inferred && e.score == 0 && !e.strong
    && Merges(e.sourceIds, nm.sources(nodes[e.from].resource, "/selector"), [])
  }

  /** A proposed edge to a suitable workload. */
  ghost predicate Proposed(nm: Naming, nodes: NodeMap, p: Policy, e: Edge) {
    && LeadsNowhere(nodes, e.from) && e.to in nodes && Suits(nodes[e.from], nodes[e.to], p)
    && e.id == "edge:" + nm.hash("inferred" + "|" + "possible_selector_target" + "|" + e.from + "|" + e.to)
    && e.kind == "possible_selector_target" && e.state == "proposed" && e.inferred
    && e.score == Points(nodes[e.from], nodes[e.to]) && (e.strong <==> e.score >= p.strongThreshold)
    && Merges(e.sourceIds, nm.sources(nodes[e.from].resource, "/selector"), nm.sources(nodes[e.to].resource, "/templateLabels"))
  }

  lemma SourcesMerge(a: seq<string>, b: seq<string>, ids: seq<string>)
    ensures Merges(SourceSet(a + b), a, b)
    ensures Merges(ids, a, b) ==> ids == SourceSet(a + b)
  {
    var all := set v | v in a + b && v != "";
    assert Lists(SourceSet(a + b), all);
    if Merges(ids, a, b) {
      assert Lists(ids, all);
      ListsIsUnique(ids, SourceSet(a + b), all);
    }
  }

  /** Exactly the Pods that carry the whole selector get an observed edge. */
  lemma ObservedExactly(nm: Naming, nodes: NodeMap, s: string, e: Edge)
    requires s in nodes
    ensures e in SelectsEdges(nm, nodes, s) <==> e.from == s && Observed(nm, nodes, e)
  {
    var sources := nm.sources(nodes[s].resource, "/selector");
    SourcesMerge(sources, [], e.sourceIds);
    assert sources + [] == sources;
    JoinedThree("selects", s, e.to);
    hide Joined, SourceSet, Merges;
    if e in SelectsEdges(nm, nodes, s) {
      var q :| q in nodes && SelectsPod(nodes[s], nodes[q]) && e == SelectsEdge(nm, nodes, s, q);
      JoinedThree("selects", s, q);
    }
    if e.from == s && Observed(nm, nodes, e) {
      assert SelectsPod(nodes[s], nodes[e.to]);
      assert e == SelectsEdge(nm, nodes, s, e.to);
    }
  }

  lemma InferredIsProposed(nm: Naming, nodes: NodeMap, s: string, p: Policy, c: Ranked)
    requires s in nodes && LeadsNowhere(nodes, s) && c.id in nodes && Suits(nodes[s], nodes[c.id], p)
    requires c.score == Points(nodes[s], nodes[c.id])
    ensures Proposed(nm, nodes, p, InferredEdge(nm, nodes, s, c, p))
  {
    hide LeadsNowhere, Suits, Points;
    SourcesMerge(nm.sources(nodes[s].resource, "/selector"), nm.sources(nodes[c.id].resource, "/templateLabels"), []);
    JoinedFour("inferred", "possible_selector_target", s, c.id);
    hide Joined, SourceSet, Merges;
  }

  /** An orphaned Service gets proposed edges to suitable workloads: as many as the limit allows, and
      those that outrank all that get none. No other Service gets any. */
  lemma TargetsInFull(nm: Naming, nodes: NodeMap, s: string, p: Policy)
    requires s in nodes && 0 <= p.maxCandidatesPerGap
    ensures !LeadsNowhere(nodes, s) ==> InferredEdges(nm, nodes, s, p) == {}
    ensures forall e :: e in InferredEdges(nm, nodes, s, p) ==> e.from == s && Proposed(nm, nodes, p, e)
    ensures forall e, w :: e in InferredEdges(nm, nodes, s, p) && w in SuitableFor(nodes, s, p) ==>
              (exists f :: f in InferredEdges(nm, nodes, s, p) && f.to == w)
              || Outranks(Points(nodes[s], nodes[e.to]), e.to, Points(nodes[s], nodes[w]), w)
    ensures LeadsNowhere(nodes, s) ==>
      var all := |SuitableFor(nodes, s, p)|;
      |InferredEdges(nm, nodes, s, p)| == if all < p.maxCandidatesPerGap then all else p.maxCandidatesPerGap
  {
    LeadsNowhereExactly(nodes, s);
    if Orphan(nodes, s) {
      var all := Candidates(nodes, s, p);
      var chosen := set c | c in all && Chosen(c, all, p);
      assert InferredEdges(nm, nodes, s, p) == EdgesTo(nm, nodes, s, chosen, p);
      hide InferredEdges, Orphan, LeadsNowhere, Suits, Eligible, RankScore, Chosen, Proposed, Points, Outranks, EdgesTo;
      CandidatesSuit(nodes, s, p);
      ChosenOutrank(all, p);
      hide Candidates;
      EdgesSize(nm, nodes, s, chosen, p);
      EdgesAreProposed(nm, nodes, s, p, chosen);
      OthersAreOutranked(nm, nodes, s, p, all, chosen);
    }
  }

  lemma EdgesAreProposed(nm: Naming, nodes: NodeMap, s: string, p: Policy, chosen: set<Ranked>)
    requires s in nodes && LeadsNowhere(nodes, s)
    requires forall c :: c in chosen ==> c.id in SuitableFor(nodes, s, p) && c.score == Points(nodes[s], nodes[c.id])
    ensures forall e :: e in EdgesTo(nm, nodes, s, chosen, p) ==> e.from == s && Proposed(nm, nodes, p, e)
  {
    hide LeadsNowhere, Suits, Points, Proposed;
    forall c | c in chosen
      ensures Proposed(nm, nodes, p, InferredEdge(nm, nodes, s, c, p))
    {
      InferredIsProposed(nm, nodes, s, p, c);
    }
  }

  lemma CandidatesSuit(nodes: NodeMap, s: string, p: Policy)
    requires s in nodes
    ensures forall c :: c in Candidates(nodes, s, p) <==> c.id in SuitableFor(nodes, s, p) && c.score == Points(nodes[s], nodes[c.id])
    ensures |Candidates(nodes, s, p)| == |SuitableFor(nodes, s, p)|
  {
    forall w | w in nodes
      ensures Eligible(nodes[s], nodes[w], p) <==> Suits(nodes[s], nodes[w], p)
      ensures RankScore(nodes[s], nodes[w]) == Points(nodes[s], nodes[w])
    {
      SuitsExactly(nodes[s], nodes[w], p);
    }
    hide Eligible, Suits, RankScore, Points;
    var all, ids := Candidates(nodes, s, p), SuitableFor(nodes, s, p);
    forall id | id in ids
      ensures Ranked(id, Points(nodes[s], nodes[id])) in all
    {
    }
    SameSize(all, ids);
  }

  /** Candidates told apart by their ids are as many as these. */
  lemma {:induction false} SameSize(all: set<Ranked>, ids: set<string>)
    requires forall c, d :: c in all && d in all && c.id == d.id ==> c == d
    requires forall id :: id in ids <==> exists c :: c in all && c.id == id
    ensures |all| == |ids|
  {
    if all != {} {
      var c :| c in all;
      assert c.id in ids;
      forall id
        ensures id in ids - {c.id} <==> exists d :: d in all - {c} && d.id == id
      {
        if id in ids - {c.id} {
          var d :| d in all && d.id == id;
          assert d in all - {c};
        }
      }
      SameSize(all - {c}, ids - {c.id});
    } else {
      assert ids == {};
    }
  }

  /** Edges to different candidates are different. */
  lemma {:induction false} EdgesSize(nm: Naming, nodes: NodeMap, s: string, chosen: set<Ranked>, p: Policy)
    requires s in nodes && forall c :: c in chosen ==> c.id in nodes
    ensures |EdgesTo(nm, nodes, s, chosen, p)| == |chosen|
  {
    if chosen == {} {
      assert EdgesTo(nm, nodes, s, {}, p) == {};
    } else {
      var c :| c in chosen;
      EdgesSize(nm, nodes, s, chosen - {c}, p);
      var e := InferredEdge(nm, nodes, s, c, p);
      assert forall d :: d in chosen && InferredEdge(nm, nodes, s, d, p) == e ==> d.id == c.id && d.score == c.score;
      hide InferredEdge;
      assert EdgesTo(nm, nodes, s, chosen, p) == EdgesTo(nm, nodes, s, chosen - {c}, p) + {e};
      assert e !in EdgesTo(nm, nodes, s, chosen - {c}, p);
    }
  }

  lemma OthersAreOutranked(nm: Naming, nodes: NodeMap, s: string, p: Policy, all: set<Ranked>, chosen: set<Ranked>)
    requires s in nodes && chosen <= all
    requires forall c :: c in all <==> c.id in SuitableFor(nodes, s, p) && c.score == Points(nodes[s], nodes[c.id])
    requires forall c, d :: c in chosen && d in all - chosen ==> Outranks(c.score, c.id, d.score, d.id)
    ensures forall e, w :: e in EdgesTo(nm, nodes, s, chosen, p) && w in SuitableFor(nodes, s, p) ==>
              (exists f :: f in EdgesTo(nm, nodes, s, chosen, p) && f.to == w)
              || Outranks(Points(nodes[s], nodes[e.to]), e.to, Points(nodes[s], nodes[w]), w)
  {
    AllInNodes(nm, nodes, s, p, chosen);
    hide Points, Outranks, SuitableFor, EdgesTo, InferredEdge;
    forall e, w | e in EdgesTo(nm, nodes, s, chosen, p) && w in SuitableFor(nodes, s, p)
      ensures (exists f :: f in EdgesTo(nm, nodes, s, chosen, p) && f.to == w)
              || Outranks(Points(nodes[s], nodes[e.to]), e.to, Points(nodes[s], nodes[w]), w)
    {
      OneIsOutranked(nm, nodes, s, p, all, chosen, e, w);
    }
  }

  lemma OneIsOutranked(nm: Naming, nodes: NodeMap, s: string, p: Policy, all: set<Ranked>, chosen: set<Ranked>, e: Edge, w: string)
    requires s in nodes && chosen <= all && w in nodes && e.to in nodes
    requires forall c :: c in all <==> c.id in SuitableFor(nodes, s, p) && c.score == Points(nodes[s], nodes[c.id])
    requires forall c, d :: c in chosen && d in all - chosen ==> Outranks(c.score, c.id, d.score, d.id)
    requires e in EdgesTo(nm, nodes, s, chosen, p) && w in SuitableFor(nodes, s, p)
    ensures (exists f :: f in EdgesTo(nm, nodes, s, chosen, p) && f.to == w)
            || Outranks(Points(nodes[s], nodes[e.to]), e.to, Points(nodes[s], nodes[w]), w)
  {
    hide Points, Outranks, SuitableFor, EdgesTo, InferredEdge;
    var d := Ranked(w, Points(nodes[s], nodes[w]));
    var c := ChosenFor(nm, nodes, s, chosen, p, e);
    assert d in all && c in all;
    if d in chosen {
      EdgeFor(nm, nodes, s, chosen, p, d);
    }
  }

  lemma AllInNodes(nm: Naming, nodes: NodeMap, s: string, p: Policy, chosen: set<Ranked>)
    requires s in nodes
    ensures forall w :: w in SuitableFor(nodes, s, p) ==> w in nodes
    ensures forall e :: e in EdgesTo(nm, nodes, s, chosen, p) ==> e.to in nodes
  {
  }

  lemma ChosenFor(nm: Naming, nodes: NodeMap, s: string, chosen: set<Ranked>, p: Policy, e: Edge) returns (c: Ranked)
    requires s in nodes && e in EdgesTo(nm, nodes, s, chosen, p)
    ensures c in chosen && e.to == c.id && c.id in nodes
  {
    c :| c in chosen && c.id in nodes && e == InferredEdge(nm, nodes, s, c, p);
  }

  lemma EdgeFor(nm: Naming, nodes: NodeMap, s: string, chosen: set<Ranked>, p: Policy, d: Ranked)
    requires s in nodes && d in chosen && d.id in nodes
    ensures exists f :: f in EdgesTo(nm, nodes, s, chosen, p) && f.to == d.id
  {
    assert InferredEdge(nm, nodes, s, d, p) in EdgesTo(nm, nodes, s, chosen, p);
  }

  /** The whole pass over the maps: Services that lead nowhere are degraded, the observed and inferred
      edges are written under their ids, and everything else stays as it was. */
  lemma PassInFull(nm: Naming, nodes: NodeMap, p: Policy, before: EdgeMap, after: EdgeMap, nodes': NodeMap)
    requires Overlay(after, before, ServiceEdges(nm, nodes, nodes.Keys, p)) && nodes' == Degraded(nodes, nodes.Keys)
    ensures nodes'.Keys == nodes.Keys
    ensures forall s :: s in nodes ==>
              nodes'[s] == nodes[s].(state := if LeadsNowhere(nodes, s) then "degraded" else nodes[s].state)
    ensures forall e :: Observed(nm, nodes, e) ==> e.id in after && after[e.id] == e
    ensures forall s, e :: s in nodes && e in InferredEdges(nm, nodes, s, p) ==> e.id in after && after[e.id] == e
    ensures forall id :: id in before ==> id in after
    ensures forall id :: id in after ==>
              || (id in before && after[id] == before[id])
              || (after[id].id == id && Observed(nm, nodes, after[id]))
              || (after[id].id == id && exists s :: s in nodes && after[id] in InferredEdges(nm, nodes, s, p))
  {
    DegradedInFull(nodes);
    WrittenExactly(nm, nodes, p);
    hide Degraded, LeadsNowhere, ServiceEdges, Observed, InferredEdges;
    forall id | id in after
      ensures || (id in before && after[id] == before[id])
              || (after[id].id == id && Observed(nm, nodes, after[id]))
              || (after[id].id == id && exists s :: s in nodes && after[id] in InferredEdges(nm, nodes, s, p))
    {
    }
  }

  lemma DegradedInFull(nodes: NodeMap)
    ensures Degraded(nodes, nodes.Keys).Keys == nodes.Keys
    ensures forall s :: s in nodes ==>
              Degraded(nodes, nodes.Keys)[s] == nodes[s].(state := if LeadsNowhere(nodes, s) then "degraded" else nodes[s].state)
  {
    forall s
      ensures Orphan(nodes, s) <==> LeadsNowhere(nodes, s)
    {
      LeadsNowhereExactly(nodes, s);
    }
    hide Orphan, LeadsNowhere;
  }

  lemma WrittenExactly(nm: Naming, nodes: NodeMap, p: Policy)
    ensures forall e :: e in ServiceEdges(nm, nodes, nodes.Keys, p) <==>
              Observed(nm, nodes, e) || exists s :: s in nodes && e in InferredEdges(nm, nodes, s, p)
  {
    forall s, e | s in nodes
      ensures e in SelectsEdges(nm, nodes, s) <==> e.from == s && Observed(nm, nodes, e)
    {
      ObservedExactly(nm, nodes, s, e);
    }
    assert forall e :: Observed(nm, nodes, e) ==> e.from in nodes;
    hide SelectsEdges, InferredEdges, Observed;
    forall e
      ensures e in ServiceEdges(nm, nodes, nodes.Keys, p) <==>
              Observed(nm, nodes, e) || exists s :: s in nodes && e in InferredEdges(nm, nodes, s, p)
    {
      if Observed(nm, nodes, e) {
        assert e in SelectsEdges(nm, nodes, e.from) + InferredEdges(nm, nodes, e.from, p);
      }
      if s :| s in nodes && e in InferredEdges(nm, nodes, s, p) {
        assert e in SelectsEdges(nm, nodes, s) + InferredEdges(nm, nodes, s, p);
      }
    }
  }
}
