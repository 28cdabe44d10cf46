/** The validated assessment part by part, told by the request and the model's answer alone: which
    citations survive and as what, which path, which insights, and what is recovered. */
module Vetting {
  import opened Order
  import opened Assessment
  import opened Validation
  import opened Wrappers

  // ---- Citations --------------------------------------------------------------------

  /** The id itself, or what follows its last colon. */
  predicate EndsIn(id: string, cited: string) {
    && ':' !in cited && |cited| <= |id| && id[|id| - |cited|..] == cited
    && (|cited| < |id| ==> id[|id| - |cited| - 1] == ':')
  }

  lemma SuffixExactly(id: string, cited: string)
    ensures Suffix(id) == cited <==> EndsIn(id, cited)
  {
    TailsNest(id, Suffix(id), cited);
    TailsNest(id, cited, Suffix(id));
  }

  lemma TailsNest(id: string, a: string, b: string)
    ensures |a| < |b| <= |id| && id[|id| - |a|..] == a && id[|id| - |b|..] == b ==> id[|id| - |a| - 1] in b
  {
    if |a| < |b| <= |id| && id[|id| - |a|..] == a && id[|id| - |b|..] == b {
      assert b[|b| - |a| - 1] == id[|id| - |a| - 1];
    }
  }

  /** A catalog id stands for itself, and anything else for the only catalog id that ends in it. */
  ghost predicate StandsFor(catalog: set<string>, cited: string, id: string) {
    && id in catalog
    && if cited in catalog then id == cited
       else EndsIn(id, cited) && forall other :: other in catalog && EndsIn(other, cited) ==> other == id
  }

  lemma StandsForExactly(catalog: set<string>, cited: string, id: string)
    ensures ResolvesTo(catalog, cited, id) <==> StandsFor(catalog, cited, id)
  {
    forall other
      ensures other in WithSuffix(catalog, cited) <==> other in catalog && EndsIn(other, cited)
    {
      SuffixExactly(other, cited);
    }
    hide Suffix, EndsIn;
  }

  ghost predicate Invents(catalog: set<string>, c: Citation) {
    forall id :: !StandsFor(catalog, c.sourceId, id)
  }

  /** One citation is kept under the id it stands for, or rejected as it was written. */
  lemma OneCitation(c: Citation, catalog: set<string>)
    ensures Invents(catalog, c) ==> Accepted([c], catalog) == [] && Rejected([c], catalog) == [c.sourceId]
    ensures forall id :: StandsFor(catalog, c.sourceId, id) ==>
              Accepted([c], catalog) == [c.(sourceId := id)] && Rejected([c], catalog) == []
  {
    forall id
      ensures ResolvesTo(catalog, c.sourceId, id) <==> StandsFor(catalog, c.sourceId, id)
    {
      StandsForExactly(catalog, c.sourceId, id);
    }
    assert [c][..0] == [] && Accepted([], catalog) == [] && Rejected([], catalog) == [];
    hide StandsFor;
  }

  /** And lists of citations are checked one by one, in order. */
  lemma {:induction false} CitationsInOrder(a: seq<Citation>, b: seq<Citation>, catalog: set<string>)
    ensures Accepted(a + b, catalog) == Accepted(a, catalog) + Accepted(b, catalog)
    ensures Rejected(a + b, catalog) == Rejected(a, catalog) + Rejected(b, catalog)
  {
    if b == [] {
      assert a + b == a;
    } else {
      assert (a + b)[..|a + b| - 1] == a + b[..|b| - 1];
      CitationsInOrder(a, b[..|b| - 1], catalog);
    }
  }

  // ---- The path ---------------------------------------------------------------------

  /** Some entity of the list has that id, and it is not empty. */
  predicate Lists(entities: seq<Entity>, id: string) {
    id != "" && exists i :: 0 <= i < |entities| && entities[i].id == id
  }

  lemma ListsExactly(entities: seq<Entity>, id: string)
    ensures id in IdsOf(entities) <==> Lists(entities, id)
  {
  }

  /** It starts at the graph's entry, ends in one of its nodes, and every step is at a node and along an
      edge and a candidate of the graph, where it names any. */
  predicate OnGraph(p: CausalPath, entry: Option<string>, nodes: seq<Entity>, edges: seq<Entity>, candidates: seq<Entity>) {
    && entry == Some(p.entryResourceId) && Lists(nodes, p.rootCauseEntityId) && |p.steps| > 0
    && forall i :: 0 <= i < |p.steps| ==>
         && Lists(nodes, p.steps[i].entityId)
         && (p.steps[i].edgeId == "" || Lists(edges, p.steps[i].edgeId))
         && (p.steps[i].candidateId == "" || Lists(candidates, p.steps[i].candidateId))
  }

  /** With a graph a path survives as it is exactly when it is on the graph; without one it always does. */
  lemma PathSurvivesExactly(b: Body, catalog: set<string>, g: Graph)
    ensures Validated(b, catalog, g).path == b.path || Validated(b, catalog, g).path == None
    ensures b.path.Some? ==>
              (Validated(b, catalog, g).path == b.path
               <==> g.NoGraph? || OnGraph(b.path.value, g.entryResourceId, g.nodes, g.edges, g.candidates))
  {
    if b.path.Some? && g.Graph? {
      var p := b.path.value;
      ListsExactly(g.nodes, p.rootCauseEntityId);
      forall i | 0 <= i < |p.steps|
        ensures p.steps[i].entityId in IdsOf(g.nodes) <==> Lists(g.nodes, p.steps[i].entityId)
        ensures p.steps[i].edgeId in IdsOf(g.edges) <==> Lists(g.edges, p.steps[i].edgeId)
        ensures p.steps[i].candidateId in IdsOf(g.candidates) <==> Lists(g.candidates, p.steps[i].candidateId)
      {
        ListsExactly(g.nodes, p.steps[i].entityId);
        ListsExactly(g.edges, p.steps[i].edgeId);
        ListsExactly(g.candidates, p.steps[i].candidateId);
      }
      hide IdsOf, Lists;
    }
  }

  // ---- The report -------------------------------------------------------------------

  function Cited(cs: seq<Claim>): seq<Citation> {
    if cs == [] then [] else Cited(cs[..|cs| - 1]) + cs[|cs| - 1].citations
  }

  function CitedIn(rs: seq<RemediationStep>): seq<Citation> {
    if rs == [] then [] else CitedIn(rs[..|rs| - 1]) + rs[|rs| - 1].citations
  }

  /** Every citation of the answer, in order. */
  function AllCited(b: Body): seq<Citation> {
    Cited(b.claims) + Cited(b.alternatives) + CitedIn(b.remediation)
  }

  ghost function InventedAt(cs: seq<Citation>, catalog: set<string>): set<int> {
    set i | 0 <= i < |cs| && Invents(catalog, cs[i])
  }

  lemma InventedLast(front: seq<Citation>, last: Citation, catalog: set<string>)
    ensures InventedAt(front + [last], catalog) == InventedAt(front, catalog) + if Invents(catalog, last) then {|front|} else {}
    ensures |InventedAt(front + [last], catalog)| == |InventedAt(front, catalog)| + if Invents(catalog, last) then 1 else 0
  {
    hide Invents;
    var cs := front + [last];
    assert cs[|front|] == last && forall i :: 0 <= i < |front| ==> cs[i] == front[i];
    assert |front| !in InventedAt(front, catalog);
  }

  ghost predicate Names(cs: seq<Citation>, steps: set<int>, id: string) {
    exists i :: i in steps && 0 <= i < |cs| && cs[i].sourceId == id
  }

  lemma NamesLast(front: seq<Citation>, last: Citation, steps: set<int>, id: string)
    requires forall i :: i in steps ==> 0 <= i < |front|
    ensures Names(front + [last], steps, id) <==> Names(front, steps, id)
    ensures Names(front + [last], steps + {|front|}, id) <==> Names(front, steps, id) || last.sourceId == id
  {
    var cs := front + [last];
    assert cs[|front|] == last && forall i :: 0 <= i < |front| ==> cs[i] == front[i];
    if last.sourceId == id {
      assert |front| in steps + {|front|};
    }
    if i :| i in steps && 0 <= i < |front| && front[i].sourceId == id {
      assert i in steps + {|front|} && cs[i].sourceId == id;
    }
  }

  lemma {:induction false} RejectedAreInvented(cs: seq<Citation>, catalog: set<string>)
    ensures |Rejected(cs, catalog)| == |InventedAt(cs, catalog)|
    ensures forall id :: id in Rejected(cs, catalog) <==> Names(cs, InventedAt(cs, catalog), id)
  {
    if cs == [] {
      assert InventedAt(cs, catalog) == {};
    } else {
      var front, last := cs[..|cs| - 1], cs[|cs| - 1];
      assert cs == front + [last];
      RejectedAreInvented(front, catalog);
      OneCitation(last, catalog);
      CitationsInOrder(front, [last], catalog);
      InventedLast(front, last, catalog);
      assert Invents(catalog, last) || exists id :: StandsFor(catalog, last.sourceId, id);
      assert forall i :: i in InventedAt(front, catalog) ==> 0 <= i < |front|;
      hide Invents, StandsFor, Rejected, Accepted, InventedAt, Names;
      forall id
        ensures id in Rejected(cs, catalog) <==> Names(cs, InventedAt(cs, catalog), id)
      {
        NamesLast(front, last, InventedAt(front, catalog), id);
      }
    }
  }

  lemma {:induction false} ListsOfClaims(cs: seq<Claim>, catalog: set<string>)
    ensures Count(ClaimLists(cs)) == |Cited(cs)| && RejectedIn(ClaimLists(cs), catalog) == Rejected(Cited(cs), catalog)
  {
    if cs != [] {
      var front := cs[..|cs| - 1];
      ListsOfClaims(front, catalog);
      assert ClaimLists(cs)[..|cs| - 1] == ClaimLists(front);
      CitationsInOrder(Cited(front), cs[|cs| - 1].citations, catalog);
    }
  }

  lemma {:induction false} ListsOfSteps(rs: seq<RemediationStep>, catalog: set<string>)
    ensures Count(StepLists(rs)) == |CitedIn(rs)| && RejectedIn(StepLists(rs), catalog) == Rejected(CitedIn(rs), catalog)
  {
    if rs != [] {
      var front := rs[..|rs| - 1];
      ListsOfSteps(front, catalog);
      assert StepLists(rs)[..|rs| - 1] == StepLists(front);
      CitationsInOrder(CitedIn(front), rs[|rs| - 1].citations, catalog);
    }
  }

  lemma ListsOfBody(b: Body, catalog: set<string>)
    ensures Count(CitationLists(b)) == |AllCited(b)| && InvalidIn(b, catalog) == Rejected(AllCited(b), catalog)
  {
    ListsOfClaims(b.claims, catalog);
    ListsOfClaims(b.alternatives, catalog);
    ListsOfSteps(b.remediation, catalog);
    var x, y, z := ClaimLists(b.claims), ClaimLists(b.alternatives), StepLists(b.remediation);
    CountAdds(x, y);
    CountAdds(x + y, z);
    RejectedAdds(x, y, catalog);
    RejectedAdds(x + y, z, catalog);
    CitationsInOrder(Cited(b.claims), Cited(b.alternatives), catalog);
    CitationsInOrder(Cited(b.claims) + Cited(b.alternatives), CitedIn(b.remediation), catalog);
    hide Count, RejectedIn, Rejected, Accepted, Cited, CitedIn, ClaimLists, StepLists;
  }

  /** The report counts every citation and those that stand for nothing, and lists the latter in byte
      order; one of them caps the confidence at 0.69. */
  lemma ReportInFull(b: Body, catalog: set<string>, g: Graph)
    ensures var r, invented := ReportOf(b, catalog), InventedAt(AllCited(b), catalog);
      && r.total == |AllCited(b)| && r.invalid == |invented| && (r.valid <==> invented == {})
      && StrictlyAscending(r.invalidSourceIds)
      && (forall id :: id in r.invalidSourceIds <==> Names(AllCited(b), invented, id))
      && Validated(b, catalog, g).confidence == if invented != {} && b.confidence > 0.69 then 0.69 else b.confidence
  {
    ListsOfBody(b, catalog);
    RejectedAreInvented(AllCited(b), catalog);
    hide AllCited, Invents, Rejected, CitationLists, RejectedIn, InvalidIn, Count;
    var invalid := InvalidIn(b, catalog);
    assert invalid == [] <==> InventedAt(AllCited(b), catalog) == {};
  }

  // ---- The insights -----------------------------------------------------------------

  /** The first insight for a node of the graph. */
  predicate IsFirst(ns: seq<Insight>, nodes: seq<Entity>, i: int) {
    && 0 <= i < |ns| && Lists(nodes, ns[i].nodeId)
    && forall k :: 0 <= k < i ==> ns[k].nodeId != ns[i].nodeId
  }

  predicate HasClaim(cs: seq<Claim>, id: string) {
    id != "" && exists i :: 0 <= i < |cs| && cs[i].id == id
  }

  /** The insight with only its catalog ids and its known claims, each once and in byte order; relevant
      no longer when nothing is left. */
  ghost predicate Trims(n: Insight, m: Insight, catalog: set<string>, claims: seq<Claim>) {
    && m.nodeId == n.nodeId && m.comment == n.comment
    && m.relevance == (if n.relevance == Relevant && m.sourceIds == [] && m.claimIds == [] then Context else n.relevance)
    && StrictlyAscending(m.sourceIds) && (forall id :: id in m.sourceIds <==> id in n.sourceIds && id in catalog)
    && StrictlyAscending(m.claimIds) && (forall id :: id in m.claimIds <==> id in n.claimIds && HasClaim(claims, id))
  }

  lemma CleanedTrims(n: Insight, catalog: set<string>, claims: seq<Claim>, claimIds: set<string>)
    requires forall id :: id in claimIds <==> HasClaim(claims, id)
    ensures Trims(n, Cleaned(n, catalog, claimIds), catalog, claims)
  {
    hide HasClaim;
  }

  /** The indices of the insights that are kept. */
  ghost predicate Selects(ns: seq<Insight>, nodes: seq<Entity>, at: seq<int>) {
    && (forall a, b :: 0 <= a < b < |at| ==> at[a] < at[b])
    && (forall i :: i in at <==> IsFirst(ns, nodes, i))
  }

  lemma FirstLast(ns: seq<Insight>, nodes: seq<Entity>, i: int)
    requires ns != []
    ensures IsFirst(ns[..|ns| - 1], nodes, i) <==> IsFirst(ns, nodes, i) && i < |ns| - 1
  {
  }

  /** The insights kept are those, in that order and trimmed. */
  ghost predicate Trimmed(ns: seq<Insight>, kept: seq<Insight>, at: seq<int>, catalog: set<string>, claims: seq<Claim>) {
    |kept| == |at| && forall k :: 0 <= k < |at| ==> 0 <= at[k] < |ns| && Trims(ns[at[k]], kept[k], catalog, claims)
  }

  lemma SelectsMore(ns: seq<Insight>, nodes: seq<Entity>, at: seq<int>)
    requires ns != [] && Selects(ns[..|ns| - 1], nodes, at)
    ensures Selects(ns, nodes, if IsFirst(ns, nodes, |ns| - 1) then at + [|ns| - 1] else at)
  {
    var front, n := ns[..|ns| - 1], |ns| - 1;
    forall i
      ensures IsFirst(front, nodes, i) <==> IsFirst(ns, nodes, i) && i < n
    {
      FirstLast(ns, nodes, i);
    }
    assert forall i :: IsFirst(ns, nodes, i) ==> i <= n;
    hide IsFirst;
    forall a | 0 <= a < |at|
      ensures at[a] < n
    {
      assert at[a] in at;
    }
  }

  lemma TrimmedMore(front: seq<Insight>, last: Insight, kept: seq<Insight>, m: Insight, at: seq<int>, catalog: set<string>,
          claims: seq<Claim>)
    requires Trimmed(front, kept, at, catalog, claims)
    ensures Trimmed(front + [last], kept, at, catalog, claims)
    ensures Trims(last, m, catalog, claims) ==> Trimmed(front + [last], kept + [m], at + [|front|], catalog, claims)
  {
    hide Trims;
    var ns := front + [last];
    assert ns[|front|] == last && forall i :: 0 <= i < |front| ==> ns[i] == front[i];
  }

  lemma {:induction false} InsightsSelected(ns: seq<Insight>, nodes: seq<Entity>, catalog: set<string>,
          claims: seq<Claim>, claimIds: set<string>) returns (at: seq<int>)
    requires forall id :: id in claimIds <==> HasClaim(claims, id)
    ensures Selects(ns, nodes, at)
    ensures Trimmed(ns, KeptInsights(ns, IdsOf(nodes), catalog, claimIds), at, catalog, claims)
  {
    NoInsights(nodes, catalog, claims, claimIds);
    hide *;
    at := [];
    if ns != [] {
      var front, n := ns[..|ns| - 1], |ns| - 1;
      at := InsightsSelected(front, nodes, catalog, claims, claimIds);
      var kept, m := KeptInsights(front, IdsOf(nodes), catalog, claimIds), Cleaned(ns[n], catalog, claimIds);
      assert ns == front + [ns[n]];
      KeptAtEnd(front, ns[n], IdsOf(nodes), catalog, claimIds);
      KeptCovers(front, IdsOf(nodes), catalog, claimIds);
      CleanedTrims(ns[n], catalog, claims, claimIds);
      ListsExactly(nodes, ns[n].nodeId);
      LastIsFirst(ns, nodes);
      SelectsMore(ns, nodes, at);
      TrimmedMore(front, ns[n], kept, m, at, catalog, claims);
      if IsFirst(ns, nodes, n) {
        at := at + [n];
      }
    }
  }

  lemma NoInsights(nodes: seq<Entity>, catalog: set<string>, claims: seq<Claim>, claimIds: set<string>)
    ensures Selects([], nodes, []) && Trimmed([], KeptInsights([], IdsOf(nodes), catalog, claimIds), [], catalog, claims)
  {
  }

  lemma KeptCovers(ns: seq<Insight>, graphIds: set<string>, catalog: set<string>, claimIds: set<string>)
    ensures NodeIdsOf(KeptInsights(ns, graphIds, catalog, claimIds)) == NodeIdsOf(ns) * graphIds
  {
    InsightsAreAnchored(ns, graphIds, catalog, claimIds);
  }

  lemma LastIsFirst(ns: seq<Insight>, nodes: seq<Entity>)
    requires ns != []
    ensures var front, n := ns[..|ns| - 1], |ns| - 1;
      IsFirst(ns, nodes, n) <==> Lists(nodes, ns[n].nodeId) && ns[n].nodeId !in NodeIdsOf(front)
  {
    var front, n := ns[..|ns| - 1], |ns| - 1;
    assert ns[n].nodeId in NodeIdsOf(front) <==> exists k :: 0 <= k < n && ns[k].nodeId == ns[n].nodeId by {
      if k :| 0 <= k < n && ns[k].nodeId == ns[n].nodeId {
        assert front[k] in front;
      }
      if ns[n].nodeId in NodeIdsOf(front) {
        var m :| m in front && m.nodeId == ns[n].nodeId;
        var k :| 0 <= k < |front| && front[k] == m;
        assert ns[k].nodeId == ns[n].nodeId;
      }
    }
    hide Lists;
  }

  /** The insights kept are the first ones for each node of the graph, in order and trimmed. */
  lemma InsightsInFull(b: Body, catalog: set<string>, g: Graph) returns (at: seq<int>)
    ensures Selects(b.insights, if g.NoGraph? then [] else g.nodes, at)
    ensures Trimmed(b.insights, Validated(b, catalog, g).insights, at, catalog, b.claims)
  {
    var checked := CheckedAll(b.claims, catalog);
    forall id
      ensures id in ClaimIds(checked) <==> HasClaim(b.claims, id)
    {
      if id in ClaimIds(checked) {
        var i :| 0 <= i < |checked| && checked[i].id == id;
        assert b.claims[i].id == id;
      }
      if HasClaim(b.claims, id) {
        var i :| 0 <= i < |b.claims| && b.claims[i].id == id;
        assert checked[i] in checked;
      }
    }
    at := InsightsSelected(b.insights, Nodes(g), catalog, b.claims, ClaimIds(checked));
  }

  // ---- What is recovered ------------------------------------------------------------

  predicate IsLastEntity(entities: seq<Entity>, id: string, i: int) {
    0 <= i < |entities| && entities[i].id == id && forall k :: i < k < |entities| ==> entities[k].id != id
  }

  /** The last entity of that id has that source. */
  predicate Holds(entities: seq<Entity>, id: string, x: string) {
    id != "" && exists i :: 0 <= i < |entities| && IsLastEntity(entities, id, i) && x in entities[i].sourceIds
  }

  lemma LastEntityOf(front: seq<Entity>, last: Entity, id: string, i: int)
    ensures IsLastEntity(front + [last], id, i) <==> if last.id == id then i == |front| else IsLastEntity(front, id, i)
  {
    var all := front + [last];
    assert all[|front|] == last && forall k :: 0 <= k < |front| ==> all[k] == front[k];
    if IsLastEntity(all, id, i) && i < |front| {
      assert all[|front|].id != id;
    }
  }

  lemma {:induction false} HoldsExactly(entities: seq<Entity>, id: string, x: string)
    ensures x in EvidenceOf(entities, id) <==> Holds(entities, id, x)
  {
    if entities != [] && id != "" {
      var front, last := entities[..|entities| - 1], entities[|entities| - 1];
      HoldsExactly(front, id, x);
      assert entities == front + [last];
      forall i
        ensures IsLastEntity(entities, id, i) <==> if last.id == id then i == |front| else IsLastEntity(front, id, i)
      {
        LastEntityOf(front, last, id, i);
      }
      assert forall i :: IsLastEntity(front, id, i) ==> 0 <= i < |front|;
      hide IsLastEntity;
    }
  }

  /** A catalog id that the node, the edge or the candidate of the step has for evidence. */
  ghost predicate Evidences(st: PathStep, g: Graph, catalog: set<string>, x: string) {
    && x in catalog && g.Graph?
    && (Holds(g.nodes, st.entityId, x) || Holds(g.edges, st.edgeId, x) || Holds(g.candidates, st.candidateId, x))
  }

  lemma EvidencesExactly(st: PathStep, g: Graph, catalog: set<string>, x: string)
    ensures x in Recovered(st, g, catalog) <==> Evidences(st, g, catalog, x)
  {
    HoldsExactly(Nodes(g), st.entityId, x);
    HoldsExactly(Edges(g), st.edgeId, x);
    HoldsExactly(Candidates(g), st.candidateId, x);
    assert forall y :: y in RawEvidence(st, g) <==> y in EvidenceOf(Nodes(g), st.entityId) || y in EvidenceOf(Edges(g), st.edgeId)
                                                    || y in EvidenceOf(Candidates(g), st.candidateId);
    hide EvidenceOf, Holds;
  }

  /** The last claim of that id. */
  predicate IsLastClaim(cs: seq<Claim>, id: string, i: nat) {
    i < |cs| && cs[i].id == id && id != "" && forall k :: i < k < |cs| ==> cs[k].id != id
  }

  lemma {:induction false} LastClaimExactly(cs: seq<Claim>, id: string, i: nat)
    ensures ClaimIndex(cs, id) == Some(i) <==> IsLastClaim(cs, id, i)
  {
    if cs != [] && id != "" && cs[|cs| - 1].id != id {
      LastClaimExactly(cs[..|cs| - 1], id, i);
    }
  }

  /** The step is about that claim and has catalog evidence. */
  ghost predicate Gives(cs: seq<Claim>, st: PathStep, g: Graph, catalog: set<string>, i: nat) {
    IsLastClaim(cs, st.claimId, i) && exists x :: Evidences(st, g, catalog, x)
  }

  /** Exactly the step's catalog evidence, in byte order. */
  ghost predicate Repeats(cs: seq<Citation>, st: PathStep, g: Graph, catalog: set<string>) {
    && (forall a, b :: 0 <= a < b < |cs| ==> Before(cs[a].sourceId, cs[b].sourceId))
    && (forall c :: c in cs ==> c == Citation(c.sourceId, "", "Deterministic graph evidence") && Evidences(st, g, catalog, c.sourceId))
    && (forall x :: Evidences(st, g, catalog, x) ==> Citation(x, "", "Deterministic graph evidence") in cs)
  }

  lemma RecoveredRepeat(st: PathStep, g: Graph, catalog: set<string>)
    ensures Repeats(GraphCitations(Recovered(st, g, catalog)), st, g, catalog)
    ensures Recovered(st, g, catalog) != [] <==> exists x :: Evidences(st, g, catalog, x)
  {
    forall x
      ensures x in Recovered(st, g, catalog) <==> Evidences(st, g, catalog, x)
    {
      EvidencesExactly(st, g, catalog, x);
    }
    var ids := Recovered(st, g, catalog);
    assert StrictlyAscending(ids);
    hide Evidences, Recovered, Before;
    if ids != [] {
      assert ids[0] in ids;
    }
    CitationsRepeat(ids, st, g, catalog);
  }

  lemma CitationsRepeat(ids: seq<string>, st: PathStep, g: Graph, catalog: set<string>)
    requires StrictlyAscending(ids) && forall x :: x in ids <==> Evidences(st, g, catalog, x)
    ensures Repeats(GraphCitations(ids), st, g, catalog)
  {
    hide Evidences, Before;
    var cs := GraphCitations(ids);
    assert forall k :: 0 <= k < |ids| ==> cs[k] == Citation(ids[k], "", "Deterministic graph evidence");
    hide GraphCitations;
    forall c | c in cs
      ensures c == Citation(c.sourceId, "", "Deterministic graph evidence") && Evidences(st, g, catalog, c.sourceId)
    {
      var k :| 0 <= k < |ids| && cs[k] == c;
      assert ids[k] in ids;
    }
    forall x | Evidences(st, g, catalog, x)
      ensures Citation(x, "", "Deterministic graph evidence") in cs
    {
      var k :| 0 <= k < |ids| && ids[k] == x;
      assert cs[k] == Citation(x, "", "Deterministic graph evidence");
    }
  }

  /** What one claim cites after the steps: its own citations if it has any, otherwise what the first
      step that gives it anything has. */
  ghost predicate CitesAfter(cs: seq<Claim>, steps: seq<PathStep>, g: Graph, catalog: set<string>, i: nat, out: seq<Citation>)
    requires i < |cs|
  {
    && (cs[i].citations != [] ==> out == cs[i].citations)
    && (cs[i].citations == [] ==>
          && ((forall k :: 0 <= k < |steps| ==> !Gives(cs, steps[k], g, catalog, i)) ==> out == [])
          && (forall k :: 0 <= k < |steps| && Gives(cs, steps[k], g, catalog, i)
                          && (forall j :: 0 <= j < k ==> !Gives(cs, steps[j], g, catalog, i)) ==>
                Repeats(out, steps[k], g, catalog)))
  }

  lemma GivesNothingOrSome(steps: seq<PathStep>, cs: seq<Claim>, g: Graph, catalog: set<string>, i: nat, out: seq<Citation>)
    requires i < |cs| && cs[i].citations == [] && CitesAfter(cs, steps, g, catalog, i, out)
    ensures out == [] <==> forall k :: 0 <= k < |steps| ==> !Gives(cs, steps[k], g, catalog, i)
  {
    if k :| 0 <= k < |steps| && Gives(cs, steps[k], g, catalog, i) {
      var first := FirstGiving(steps, cs, g, catalog, i, k);
      assert Repeats(out, steps[first], g, catalog);
    }
  }

  lemma {:induction false} FirstGiving(steps: seq<PathStep>, cs: seq<Claim>, g: Graph, catalog: set<string>, i: nat, k: nat)
    returns (first: nat)
    requires k < |steps| && Gives(cs, steps[k], g, catalog, i)
    ensures first <= k && Gives(cs, steps[first], g, catalog, i)
    ensures forall j :: 0 <= j < first ==> !Gives(cs, steps[j], g, catalog, i)
  {
    hide Gives;
    first := k;
    if j: nat :| j < k && Gives(cs, steps[j], g, catalog, i) {
      first := FirstGiving(steps, cs, g, catalog, i, j);
    }
  }

  lemma CitesAfterMore(cs: seq<Claim>, front: seq<PathStep>, st: PathStep, g: Graph, catalog: set<string>, i: nat,
          before: seq<Citation>, out: seq<Citation>)
    requires i < |cs| && CitesAfter(cs, front, g, catalog, i, before)
    requires before != [] || !Gives(cs, st, g, catalog, i) ==> out == before
    requires before == [] && Gives(cs, st, g, catalog, i) ==> Repeats(out, st, g, catalog)
    ensures CitesAfter(cs, front + [st], g, catalog, i, out)
  {
    var steps := front + [st];
    assert steps[|front|] == st && forall k :: 0 <= k < |front| ==> steps[k] == front[k];
    if cs[i].citations == [] {
      GivesNothingOrSome(front, cs, g, catalog, i, before);
      hide Gives, Repeats;
      forall k | 0 <= k < |steps| && Gives(cs, steps[k], g, catalog, i) && (forall j :: 0 <= j < k ==> !Gives(cs, steps[j], g, catalog, i))
        ensures Repeats(out, steps[k], g, catalog)
      {
        if k < |front| {
          assert Gives(cs, front[k], g, catalog, i);
        }
      }
    }
  }

  lemma {:induction false} RecoverCites(cs: seq<Claim>, originals: seq<Verdict>, steps: seq<PathStep>, g: Graph,
          catalog: set<string>, i: nat)
    requires |originals| == |cs| && i < |cs|
    ensures CitesAfter(cs, steps, g, catalog, i, Recover(cs, originals, steps, g, catalog)[i].citations)
  {
    if steps != [] {
      var front, st := steps[..|steps| - 1], steps[|steps| - 1];
      var before := Recover(cs, originals, front, g, catalog);
      RecoverCites(cs, originals, front, g, catalog, i);
      RecoverySpendsSteps(cs, originals, front, g, catalog);
      ClaimIndexById(cs, before, st.claimId);
      LastClaimExactly(cs, st.claimId, i);
      RecoveredRepeat(st, g, catalog);
      var out := Recover(cs, originals, steps, g, catalog)[i].citations;
      assert steps == front + [st];
      assert before[i].citations != [] || !Gives(cs, st, g, catalog, i) ==> out == before[i].citations by {
        hide Recovered, Evidences, IsLastClaim, ClaimIndex, Spent;
      }
      assert before[i].citations == [] && Gives(cs, st, g, catalog, i) ==> out == GraphCitations(Recovered(st, g, catalog)) by {
        hide Recovered, Evidences, IsLastClaim, ClaimIndex, Spent;
      }
      hide *;
      CitesAfterMore(cs, front, st, g, catalog, i, before[i].citations, out);
    }
  }

  /** The last claim of its id that is left without a citation gets the evidence of the first step of the
      surviving path that has any for it; every other claim keeps what was accepted. */
  lemma RecoveryInFull(b: Body, catalog: set<string>, g: Graph, i: nat)
    requires i < |b.claims|
    ensures |Validated(b, catalog, g).claims| == |b.claims|
    ensures var c, out := b.claims[i], Validated(b, catalog, g).claims[i].citations;
      Validated(b, catalog, g).claims[i] == Claim(c.id, c.statement, if out == [] then Unsupported else c.verdict, out)
    ensures var v, kept := Validated(b, catalog, g), Accepted(b.claims[i].citations, catalog);
      var steps, out := if v.path.Some? then v.path.value.steps else [], v.claims[i].citations;
      && (kept != [] ==> out == kept)
      && (kept == [] ==>
            && ((forall k :: 0 <= k < |steps| ==> !Gives(b.claims, steps[k], g, catalog, i)) ==> out == [])
            && (forall k :: 0 <= k < |steps| && Gives(b.claims, steps[k], g, catalog, i)
                            && (forall j :: 0 <= j < k ==> !Gives(b.claims, steps[j], g, catalog, i)) ==>
                  Repeats(out, steps[k], g, catalog)))
  {
    CitationsAreSound(b, catalog, g);
    var checked := CheckedAll(b.claims, catalog);
    var v := Validated(b, catalog, g);
    var steps := if v.path.Some? then v.path.value.steps else [];
    RecoverCites(checked, Verdicts(b.claims), steps, g, catalog, i);
    forall st, k
      ensures IsLastClaim(checked, st, k) <==> IsLastClaim(b.claims, st, k)
    {
    }
    NoStepsNoRecovery(checked, Verdicts(b.claims), g, catalog);
    hide IsLastClaim, Evidences, Accepted, Repeats, Recover, KeptInsights;
  }

  lemma NoStepsNoRecovery(cs: seq<Claim>, originals: seq<Verdict>, g: Graph, catalog: set<string>)
    requires |originals| == |cs|
    ensures Recover(cs, originals, [], g, catalog) == cs
  {
  }

  /** Alternatives and remediation steps keep what was accepted, and all else as it was written, up to
      the verdict of an alternative that cites nothing. */
  lemma OthersInFull(b: Body, catalog: set<string>, g: Graph)
    ensures var v := Validated(b, catalog, g);
      && |v.alternatives| == |b.alternatives| && |v.remediation| == |b.remediation|
      && (forall i :: 0 <= i < |b.alternatives| ==>
            var c, kept := b.alternatives[i], Accepted(b.alternatives[i].citations, catalog);
            v.alternatives[i] == Claim(c.id, c.statement, if kept == [] then Unsupported else c.verdict, kept))
      && (forall i :: 0 <= i < |b.remediation| ==>
            v.remediation[i] == RemediationStep(b.remediation[i].title, Accepted(b.remediation[i].citations, catalog)))
  {
  }
}
