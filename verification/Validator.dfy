/** The gateway's validation as it runs: claims, insights and path are rewritten in place,
    against tables built from the request. */
module Validator {
  import opened Order
  import opened Assessment
  import opened Validation
  import opened Wrappers

  type Suffixes = map<string, seq<string>>

  function Row(t: Suffixes, suffix: string): seq<string> {
    if suffix in t then t[suffix] else []
  }

  /** The catalog ids of that suffix, each once. */
  ghost predicate ListsSuffix(row: seq<string>, suffix: string, catalog: set<string>) {
    && (forall i, j :: 0 <= i < j < |row| ==> row[i] != row[j])
    && (forall id :: id in row <==> id in WithSuffix(catalog, suffix))
  }

  ghost predicate Tabulates(t: Suffixes, catalog: set<string>) {
    forall s :: ListsSuffix(Row(t, s), s, catalog)
  }

  method TabulateSuffixes(catalog: set<string>) returns (t: Suffixes)
    ensures Tabulates(t, catalog)
  {
    t := map[];
    var todo := catalog;
    assert Tabulates(t, catalog - todo);
    hide Suffix, Tabulates, Row;
    while todo != {}
      invariant todo <= catalog && Tabulates(t, catalog - todo)
      decreases todo
    {
      var id :| id in todo;
      AddSuffix(t, catalog - todo, id);
      assert catalog - (todo - {id}) == catalog - todo + {id};
      t := t[Suffix(id) := Row(t, Suffix(id)) + [id]];
      todo := todo - {id};
    }
    assert catalog - todo == catalog;
  }

  lemma AddSuffix(t: Suffixes, catalog: set<string>, id: string)
    requires Tabulates(t, catalog) && id !in catalog
    ensures Tabulates(t[Suffix(id) := Row(t, Suffix(id)) + [id]], catalog + {id})
  {
    hide Suffix;
    var t' := t[Suffix(id) := Row(t, Suffix(id)) + [id]];
    forall s
      ensures ListsSuffix(Row(t', s), s, catalog + {id})
    {
      assert ListsSuffix(Row(t, s), s, catalog);
      if s == Suffix(id) {
        AddToRow(Row(t, s), s, catalog, id);
      } else {
        assert WithSuffix(catalog + {id}, s) == WithSuffix(catalog, s);
      }
    }
  }

  lemma AddToRow(row: seq<string>, suffix: string, catalog: set<string>, id: string)
    requires ListsSuffix(row, suffix, catalog) && id !in catalog && Suffix(id) == suffix
    ensures ListsSuffix(row + [id], suffix, catalog + {id})
  {
    hide Suffix;
    assert id !in row;
    assert WithSuffix(catalog + {id}, suffix) == WithSuffix(catalog, suffix) + {id};
    assert forall x :: x in row + [id] <==> x in row || x == id;
  }

  /** A suffix resolves exactly when its row has a single id. */
  lemma OneSuffix(t: Suffixes, catalog: set<string>, cited: string)
    requires Tabulates(t, catalog) && cited !in catalog
    ensures Resolved(catalog, cited) == if |Row(t, cited)| == 1 then Some(Row(t, cited)[0]) else None
  {
    hide Suffix;
    var row := Row(t, cited);
    assert ListsSuffix(row, cited, catalog);
    if |row| == 1 {
      assert row[0] in row && WithSuffix(catalog, cited) == {row[0]};
      assert ResolvesTo(catalog, cited, row[0]);
    } else if |row| >= 2 {
      assert row[0] in row && row[1] in row && row[0] != row[1];
      assert {row[0], row[1]} <= WithSuffix(catalog, cited);
    }
  }

  method CheckCitations(cs: seq<Citation>, catalog: set<string>, t: Suffixes)
    returns (accepted: seq<Citation>, rejected: seq<string>)
    requires Tabulates(t, catalog)
    ensures accepted == Accepted(cs, catalog) && rejected == Rejected(cs, catalog)
  {
    hide Tabulates, WithSuffix;
    accepted, rejected := [], [];
    for i := 0 to |cs|
      invariant accepted == Accepted(cs[..i], catalog) && rejected == Rejected(cs[..i], catalog)
    {
      assert cs[..i + 1][..i] == cs[..i];
      var cited := cs[i].sourceId;
      if cited in catalog {
        assert ResolvesTo(catalog, cited, cited);
        accepted := accepted + [cs[i]];
      } else {
        OneSuffix(t, catalog, cited);
        if |Row(t, cited)| == 1 {
          accepted := accepted + [cs[i].(sourceId := Row(t, cited)[0])];
        } else {
          rejected := rejected + [cited];
        }
      }
    }
    assert cs[..|cs|] == cs;
  }

  method IndexEvidence(entities: seq<Entity>) returns (t: map<string, seq<string>>)
    ensures "" !in t
    ensures forall id :: EvidenceOf(entities, id) == if id in t then t[id] else []
  {
    t := map[];
    for i := 0 to |entities|
      invariant "" !in t
      invariant forall id :: EvidenceOf(entities[..i], id) == if id in t then t[id] else []
    {
      assert entities[..i + 1][..i] == entities[..i];
      if entities[i].id != "" {
        t := t[entities[i].id := entities[i].sourceIds];
      }
    }
    assert entities[..|entities|] == entities;
  }

  method IndexClaims(cs: seq<Claim>) returns (t: map<string, nat>)
    ensures forall id :: ClaimIndex(cs, id) == if id in t then Some(t[id]) else None
  {
    t := map[];
    for i := 0 to |cs|
      invariant forall id :: ClaimIndex(cs[..i], id) == if id in t then Some(t[id]) else None
    {
      assert cs[..i + 1][..i] == cs[..i];
      if cs[i].id != "" {
        t := t[cs[i].id := i];
      }
    }
    assert cs[..|cs|] == cs;
  }

  method CheckClaims(cs: seq<Claim>, catalog: set<string>, t: Suffixes)
    returns (r: seq<Claim>, total: nat, invalid: seq<string>)
    requires Tabulates(t, catalog)
    ensures r == CheckedAll(cs, catalog)
    ensures total == Count(ClaimLists(cs)) && invalid == RejectedIn(ClaimLists(cs), catalog)
  {
    hide Tabulates, Accepted, Rejected;
    r, total, invalid := [], 0, [];
    ghost var lists := ClaimLists(cs);
    for i := 0 to |cs|
      invariant |r| == i && forall k :: 0 <= k < i ==> r[k] == Checked(cs[k], catalog)
      invariant total == Count(lists[..i]) && invalid == RejectedIn(lists[..i], catalog)
    {
      assert lists[..i + 1][..i] == lists[..i];
      var claim := cs[i];
      total := total + |claim.citations|;
      var accepted, rejected := CheckCitations(claim.citations, catalog, t);
      invalid := invalid + rejected;
      claim := claim.(citations := accepted);
      if accepted == [] && !claim.verdict.Unsupported? {
        claim := claim.(verdict := Unsupported);
      }
      r := r + [claim];
    }
    assert lists[..|cs|] == lists;
  }

  method CheckRemediation(rs: seq<RemediationStep>, catalog: set<string>, t: Suffixes)
    returns (r: seq<RemediationStep>, total: nat, invalid: seq<string>)
    requires Tabulates(t, catalog)
    ensures r == CheckedSteps(rs, catalog)
    ensures total == Count(StepLists(rs)) && invalid == RejectedIn(StepLists(rs), catalog)
  {
    hide Tabulates, Accepted, Rejected;
    r, total, invalid := [], 0, [];
    ghost var lists := StepLists(rs);
    for i := 0 to |rs|
      invariant |r| == i && forall k :: 0 <= k < i ==> r[k] == rs[k].(citations := Accepted(rs[k].citations, catalog))
      invariant total == Count(lists[..i]) && invalid == RejectedIn(lists[..i], catalog)
    {
      assert lists[..i + 1][..i] == lists[..i];
      total := total + |rs[i].citations|;
      var accepted, rejected := CheckCitations(rs[i].citations, catalog, t);
      invalid := invalid + rejected;
      r := r + [rs[i].(citations := accepted)];
    }
    assert lists[..|rs|] == lists;
  }

  /** Evidence and claims by id, as the recovery looks them up. */
  datatype Tables = Tables(nodes: map<string, seq<string>>, edges: map<string, seq<string>>,
                           candidates: map<string, seq<string>>, claims: map<string, nat>)

  ghost predicate Indexes(t: Tables, cs: seq<Claim>, g: Graph) {
    && (forall id :: EvidenceOf(Nodes(g), id) == if id in t.nodes then t.nodes[id] else [])
    && (forall id :: EvidenceOf(Edges(g), id) == if id in t.edges then t.edges[id] else [])
    && (forall id :: EvidenceOf(Candidates(g), id) == if id in t.candidates then t.candidates[id] else [])
    && (forall id :: ClaimIndex(cs, id) == if id in t.claims then Some(t.claims[id]) else None)
  }

  method Index(cs: seq<Claim>, g: Graph) returns (t: Tables)
    ensures Indexes(t, cs, g)
  {
    hide EvidenceOf, ClaimIndex;
    var nodes := IndexEvidence(Nodes(g));
    var edges := IndexEvidence(Edges(g));
    var candidates := IndexEvidence(Candidates(g));
    var claims := IndexClaims(cs);
    t := Tables(nodes, edges, candidates, claims);
  }

  lemma NoIdNoEvidence(entities: seq<Entity>)
    ensures EvidenceOf(entities, "") == []
  {
  }

  method GatherEvidence(st: PathStep, t: Tables, ghost cs: seq<Claim>, g: Graph, catalog: set<string>)
    returns (r: seq<string>)
    requires Indexes(t, cs, g)
    ensures r == Recovered(st, g, catalog)
  {
    NoIdNoEvidence(Edges(g));
    NoIdNoEvidence(Candidates(g));
    hide EvidenceOf, ClaimIndex, SortedSet;
    var found := if st.entityId in t.nodes then t.nodes[st.entityId] else [];
    if st.edgeId != "" {
      found := found + if st.edgeId in t.edges then t.edges[st.edgeId] else [];
    }
    if st.candidateId != "" {
      found := found + if st.candidateId in t.candidates then t.candidates[st.candidateId] else [];
    }
    assert found == RawEvidence(st, g);
    r := Sorted(set id | id in found && id in catalog);
  }

  method RecoverFrom(st: PathStep, t: Tables, cs: seq<Claim>, originals: seq<Verdict>, g: Graph, catalog: set<string>)
    returns (r: seq<Claim>)
    requires Indexes(t, cs, g) && |originals| == |cs|
    ensures r == RecoverStep(cs, originals, st, g, catalog) && Indexes(t, r, g)
  {
    SpentStays(cs, originals, st, st, g, catalog);
    IndexStays(t, cs, RecoverStep(cs, originals, st, g, catalog), g);
    r := cs;
    if st.claimId in t.claims {
      assert ClaimIndex(cs, st.claimId) == Some(t.claims[st.claimId]);
      var k := t.claims[st.claimId];
      if cs[k].citations == [] {
        var recovered := GatherEvidence(st, t, cs, g, catalog);
        if recovered != [] {
          r := cs[k := cs[k].(citations := GraphCitations(recovered), verdict := originals[k])];
        }
      }
    }
  }

  lemma IndexStays(t: Tables, cs: seq<Claim>, cs': seq<Claim>, g: Graph)
    requires Indexes(t, cs, g) && SameIds(cs, cs')
    ensures Indexes(t, cs', g)
  {
    hide EvidenceOf;
    forall id
      ensures ClaimIndex(cs', id) == ClaimIndex(cs, id)
    {
      ClaimIndexById(cs, cs', id);
    }
  }

  /** One request's assessment while it is validated, with the running citation counts. */
  class Draft {
    var claims: seq<Claim>
    var alternatives: seq<Claim>
    var remediation: seq<RemediationStep>
    var insights: seq<Insight>
    var path: Option<CausalPath>
    var confidence: real
    var total: nat
    var invalid: seq<string>

    constructor (b: Body)
      ensures Contents() == b && total == 0 && invalid == []
    {
      claims, alternatives, remediation := b.claims, b.alternatives, b.remediation;
      insights, path, confidence := b.insights, b.path, b.confidence;
      total, invalid := 0, [];
    }

    ghost function Contents(): Body
      reads this
    {
      Body(claims, alternatives, remediation, insights, path, confidence)
    }

    method CheckInsights(graphIds: set<string>, catalog: set<string>)
      modifies `insights
      ensures insights == KeptInsights(old(insights), graphIds, catalog, ClaimIds(claims))
    {
      var claimIds := ClaimIds(claims);
      var kept: seq<Insight> := [];
      var seen: set<string> := {};
      ghost var before := insights;
      for i := 0 to |insights|
        invariant insights == before
        invariant kept == KeptInsights(before[..i], graphIds, catalog, claimIds)
        invariant seen == NodeIdsOf(kept)
      {
        var n := insights[i];
        assert before[..i + 1] == before[..i] + [n];
        KeptAtEnd(before[..i], n, graphIds, catalog, claimIds);
        if n.nodeId in graphIds && n.nodeId !in seen {
          var sources := Sorted(set id | id in n.sourceIds && id in catalog);
          var claimed := Sorted(set id | id in n.claimIds && id in claimIds);
          var cleaned := n.(sourceIds := sources, claimIds := claimed);
          if cleaned.relevance.Relevant? && sources == [] && claimed == [] {
            cleaned := cleaned.(relevance := Context);
          }
          NodeIdsAdd(kept, cleaned);
          seen := seen + {n.nodeId};
          kept := kept + [cleaned];
        }
      }
      assert before[..|before|] == before;
      insights := kept;
    }

    method CheckPath(g: Graph)
      modifies `path
      ensures path == CheckedPath(old(path), g)
    {
      if path.Some? && g.Graph? {
        var nodeIds, edgeIds, candidateIds := IdsOf(g.nodes), IdsOf(g.edges), IdsOf(g.candidates);
        var p := path.value;
        var valid := g.entryResourceId == Some(p.entryResourceId) && p.rootCauseEntityId in nodeIds && p.steps != [];
        ghost var start := valid;
        for i := 0 to |p.steps|
          invariant valid <==> start && forall k :: 0 <= k < i ==> PathStepOk(p.steps[k], g)
        {
          var st := p.steps[i];
          valid := valid && st.entityId in nodeIds;
          valid := valid && (st.edgeId == "" || st.edgeId in edgeIds);
          valid := valid && (st.candidateId == "" || st.candidateId in candidateIds);
        }
        if !valid {
          path := None;
        }
      }
    }

    method RecoverClaims(originals: seq<Verdict>, g: Graph, catalog: set<string>)
      requires |originals| == |claims|
      modifies `claims
      ensures claims == if path.Some? then Recover(old(claims), originals, path.value.steps, g, catalog) else old(claims)
    {
      hide Indexes, RecoverStep;
      if path.Some? {
        var t := Index(claims, g);
        var steps := path.value.steps;
        for i := 0 to |steps|
          invariant claims == Recover(old(claims), originals, steps[..i], g, catalog)
          invariant Indexes(t, claims, g)
        {
          assert steps[..i + 1][..i] == steps[..i];
          claims := RecoverFrom(steps[i], t, claims, originals, g, catalog);
        }
        assert steps[..|steps|] == steps;
      }
    }

    method CheckAllCitations(catalog: set<string>)
      requires total == 0 && invalid == []
      modifies `claims, `alternatives, `remediation, `total, `invalid
      ensures claims == CheckedAll(old(claims), catalog) && alternatives == CheckedAll(old(alternatives), catalog)
      ensures remediation == CheckedSteps(old(remediation), catalog)
      ensures total == Count(CitationLists(old(Contents()))) && invalid == InvalidIn(old(Contents()), catalog)
    {
      ghost var a, b, c := ClaimLists(claims), ClaimLists(alternatives), StepLists(remediation);
      CountAdds(a, b);
      CountAdds(a + b, c);
      RejectedAdds(a, b, catalog);
      RejectedAdds(a + b, c, catalog);
      hide Count, RejectedIn, Tabulates, CheckedAll, CheckedSteps, ClaimLists, StepLists;
      var t := TabulateSuffixes(catalog);
      var n, rejected;
      claims, total, invalid := CheckClaims(claims, catalog, t);
      alternatives, n, rejected := CheckClaims(alternatives, catalog, t);
      total, invalid := total + n, invalid + rejected;
      remediation, n, rejected := CheckRemediation(remediation, catalog, t);
      total, invalid := total + n, invalid + rejected;
    }

    method Validate(catalog: set<string>, g: Graph) returns (report: Report)
      requires total == 0 && invalid == []
      modifies this
      ensures Contents() == Validated(old(Contents()), catalog, g)
      ensures report == ReportOf(old(Contents()), catalog)
    {
      hide Count, CitationLists, InvalidIn, KeptInsights, Recover, CheckedPath, CheckedAll, CheckedSteps, ClaimIds, IdsOf;
      var originals := Verdicts(claims);
      CheckAllCitations(catalog);
      CheckInsights(IdsOf(Nodes(g)), catalog);
      CheckPath(g);
      RecoverClaims(originals, g, catalog);
      var ids := Sorted(set id | id in invalid);
      report := Report(invalid == [], total, |invalid|, ids);
      if invalid != [] {
        confidence := if confidence < 0.69 then confidence else 0.69;
      }
    }
  }
}
