/** Candidates for the missing Services of Ingresses, and when the order of ranging over the
    Ingresses shows in them. */
module IngressBackends {
  import opened LastWriter

  /** What the ranking reads of a Service: the name it was renamed from, whether its selector matches a
      Pod, and its ports. */
  datatype Service = Service(namespace: string, name: string, renamedFrom: string, selectsPod: bool, ports: set<string>)

  datatype Backend = Backend(service: string, port: string)

  /** The backends of all paths, in the order of rules and paths. */
  datatype Ingress = Ingress(id: string, namespace: string, backends: seq<Backend>)

  /** Stands for the hash of the reference's id and the candidate's. */
  datatype CandidateId = CandidateId(namespace: string, missing: string, candidate: string)

  datatype Candidate = Candidate(source: string, score: nat, strong: bool)

  type Candidates = map<CandidateId, Candidate>

  predicate IsMissing(services: map<string, Service>, namespace: string, name: string) {
    forall id :: id in services ==> services[id].namespace != namespace || services[id].name != name
  }

  /** A path without a backend Service is skipped. */
  predicate Breaks(services: map<string, Service>, ing: Ingress, b: Backend) {
    b.service != "" && b.service != "<nil>" && IsMissing(services, ing.namespace, b.service)
  }

  function Score(s: Service, b: Backend): nat {
    (if s.renamedFrom == b.service then 100 else 0) + (if s.selectsPod then 40 else 0) + (if b.port in s.ports then 20 else 0)
  }

  predicate IsCandidate(services: map<string, Service>, ing: Ingress, b: Backend, id: string) {
    id in services && services[id].namespace == ing.namespace && Score(services[id], b) >= 40
  }

  /** What ranking some of the Services for one path writes. */
  function RankedOf(services: map<string, Service>, ids: set<string>, ing: Ingress, b: Backend): Candidates {
    map id | id in ids && IsCandidate(services, ing, b, id) :: KeyOf(ing, b, id) := Found(services[id], ing, b)
  }

  function KeyOf(ing: Ingress, b: Backend, id: string): CandidateId {
    CandidateId(ing.namespace, b.service, id)
  }

  function Found(s: Service, ing: Ingress, b: Backend): Candidate {
    Candidate(ing.id, Score(s, b), Score(s, b) >= 100)
  }

  function Ranked(services: map<string, Service>, ing: Ingress, b: Backend): Candidates {
    RankedOf(services, services.Keys, ing, b)
  }

  function PathWrites(services: map<string, Service>, ing: Ingress): (r: seq<Candidates>)
    ensures |r| == |ing.backends|
  {
    seq(|ing.backends|, i requires 0 <= i < |ing.backends| =>
      if Breaks(services, ing, ing.backends[i]) then Ranked(services, ing, ing.backends[i]) else map[])
  }

  /** All that one Ingress writes; of its paths the last one wins. */
  function Writes(services: map<string, Service>, ing: Ingress): Candidates {
    Merged(map[], PathWrites(services, ing))
  }

  function AllWrites(services: map<string, Service>, ingresses: seq<Ingress>): (r: seq<Candidates>)
    ensures |r| == |ingresses| && forall i :: 0 <= i < |r| ==> r[i] == Writes(services, ingresses[i])
  {
    seq(|ingresses|, i requires 0 <= i < |ingresses| => Writes(services, ingresses[i]))
  }

  lemma RankStep(services: map<string, Service>, ids: set<string>, id: string, ing: Ingress, b: Backend, candidates: Candidates)
    requires id in services && id !in ids
    ensures candidates + RankedOf(services, ids + {id}, ing, b) ==
              if IsCandidate(services, ing, b, id)
              then (candidates + RankedOf(services, ids, ing, b))[KeyOf(ing, b, id) := Found(services[id], ing, b)]
              else candidates + RankedOf(services, ids, ing, b)
  {
    hide IsCandidate, Found;
    var before, after := RankedOf(services, ids, ing, b), RankedOf(services, ids + {id}, ing, b);
    if IsCandidate(services, ing, b, id) {
      assert after == before[KeyOf(ing, b, id) := Found(services[id], ing, b)];
    } else {
      assert after == before;
    }
  }

  lemma RankNone(services: map<string, Service>, ing: Ingress, b: Backend, candidates: Candidates)
    ensures candidates + RankedOf(services, {}, ing, b) == candidates
  {
    assert RankedOf(services, {}, ing, b) == map[];
  }

  /** rankServiceCandidates ranges over the nodes in any order. */
  method RankServiceCandidates(services: map<string, Service>, ing: Ingress, b: Backend, candidates: Candidates)
    returns (r: Candidates)
    ensures r == candidates + Ranked(services, ing, b)
  {
    r := candidates;
    RankNone(services, ing, b, candidates);
    hide RankedOf, KeyOf, Score;
    var todo := services.Keys;
    ghost var done: set<string> := {};
    while todo != {}
      invariant todo !! done && todo + done == services.Keys
      invariant r == candidates + RankedOf(services, done, ing, b)
      decreases todo
    {
      var id :| id in todo;
      var s := services[id];
      RankStep(services, done, id, ing, b, candidates);
      if s.namespace == ing.namespace && Score(s, b) >= 40 {
        r := r[KeyOf(ing, b, id) := Found(s, ing, b)];
      }
      todo, done := todo - {id}, done + {id};
    }
    assert done == services.Keys;
  }

  method ConnectIngress(services: map<string, Service>, ing: Ingress, candidates: Candidates) returns (r: Candidates)
    ensures r == Merged(candidates, PathWrites(services, ing))
  {
    hide Ranked, Breaks;
    r := candidates;
    ghost var paths := PathWrites(services, ing);
    assert Merged(candidates, paths[..0]) == candidates;
    for j := 0 to |ing.backends|
      invariant r == Merged(candidates, paths[..j])
    {
      MergedStep(candidates, paths, j);
      if Breaks(services, ing, ing.backends[j]) {
        r := RankServiceCandidates(services, ing, ing.backends[j], r);
      } else {
        assert r + map[] == r;
      }
    }
    assert paths[..|paths|] == paths;
  }

  /** connectIngressesToServices for the Ingresses in the order that ranging over the nodes gives. */
  method ConnectIngresses(services: map<string, Service>, order: seq<Ingress>, base: Candidates) returns (r: Candidates)
    ensures r == Merged(base, AllWrites(services, order))
  {
    r := base;
    ghost var writes := AllWrites(services, order);
    assert Merged(base, writes[..0]) == base;
    hide Merged, PathWrites;
    for i := 0 to |order|
      invariant r == Merged(base, writes[..i])
    {
      MergedStep(base, writes, i);
      MergedOver(r, PathWrites(services, order[i]));
      r := ConnectIngress(services, order[i], r);
    }
    assert writes[..|order|] == writes;
  }

  /** The Ingress has a path to that missing Service for which that Service is a candidate. */
  ghost predicate Proposes(services: map<string, Service>, ing: Ingress, namespace: string, missing: string, id: string) {
    ing.namespace == namespace &&
    exists b :: b in ing.backends && b.service == missing && Breaks(services, ing, b) && IsCandidate(services, ing, b, id)
  }

  lemma PathProposes(services: map<string, Service>, ing: Ingress, k: CandidateId)
    ensures Written(PathWrites(services, ing), k) <==> Proposes(services, ing, k.namespace, k.missing, k.candidate)
    ensures forall w: Candidates :: w in PathWrites(services, ing) && k in w ==> w[k].source == ing.id
  {
    var paths: seq<Candidates> := PathWrites(services, ing);
    hide Breaks, IsCandidate, Found;
    SourceOfFound(ing);
    forall i: nat | i < |paths|
      ensures k in paths[i] <==> && k.namespace == ing.namespace && k.missing == ing.backends[i].service
                                 && Breaks(services, ing, ing.backends[i]) && k.candidate in services
                                 && IsCandidate(services, ing, ing.backends[i], k.candidate)
      ensures k in paths[i] ==> paths[i][k].source == ing.id
    {
    }
    OnlyOfServices(services, ing);
    if Proposes(services, ing, k.namespace, k.missing, k.candidate) {
      var b :| b in ing.backends && b.service == k.missing && Breaks(services, ing, b) && IsCandidate(services, ing, b, k.candidate);
      var i :| 0 <= i < |ing.backends| && ing.backends[i] == b;
      assert k in paths[i] && paths[i] in paths;
    }
    if Written(paths, k) {
      var w :| w in paths && k in w;
      var i :| 0 <= i < |paths| && paths[i] == w;
      assert ing.backends[i] in ing.backends;
    }
  }

  lemma SourceOfFound(ing: Ingress)
    ensures forall s, b :: Found(s, ing, b).source == ing.id
  {
  }

  lemma OnlyOfServices(services: map<string, Service>, ing: Ingress)
    ensures forall b, id :: IsCandidate(services, ing, b, id) ==> id in services
  {
  }

  lemma {:induction false} WrittenBySource(writes: seq<Candidates>, k: CandidateId, source: string)
    requires forall w: Candidates :: w in writes && k in w ==> w[k].source == source
    ensures k in Merged(map[], writes) <==> Written(writes, k)
    ensures k in Merged(map[], writes) ==> Merged(map[], writes)[k].source == source
  {
    if writes != [] {
      var front, last := writes[..|writes| - 1], writes[|writes| - 1];
      assert forall w :: w in writes <==> w in front || w == last;
      WrittenBySource(front, k, source);
    }
  }

  lemma WritesPropose(services: map<string, Service>, ing: Ingress, k: CandidateId)
    ensures k in Writes(services, ing) <==> Proposes(services, ing, k.namespace, k.missing, k.candidate)
    ensures k in Writes(services, ing) ==> Writes(services, ing)[k].source == ing.id
  {
    PathProposes(services, ing, k);
    WrittenBySource(PathWrites(services, ing), k, ing.id);
  }

  /** The order of ranging over the Ingresses is hidden exactly when no two of them propose one Service
      for one missing Service; in particular when no two share a missing Service. */
  lemma IngressOrderIsHiddenExactly(services: map<string, Service>, ingresses: seq<Ingress>, base: Candidates)
    requires forall i, j :: 0 <= i < j < |ingresses| ==> ingresses[i].id != ingresses[j].id
    ensures (forall order :: multiset(order) == multiset(AllWrites(services, ingresses)) ==>
               Merged(base, order) == Merged(base, AllWrites(services, ingresses)))
       <==> forall i, j, namespace, missing, id :: 0 <= i < j < |ingresses| ==>
              !(Proposes(services, ingresses[i], namespace, missing, id) && Proposes(services, ingresses[j], namespace, missing, id))
  {
    var writes: seq<Candidates> := AllWrites(services, ingresses);
    OrderIsHiddenExactly(base, writes);
    hide Proposes, Writes, Merged;
    forall i: nat, k: CandidateId | i < |ingresses|
      ensures k in writes[i] <==> Proposes(services, ingresses[i], k.namespace, k.missing, k.candidate)
      ensures k in writes[i] ==> writes[i][k].source == ingresses[i].id
    {
      WritesPropose(services, ingresses[i], k);
    }
    if !Agree(writes) {
      var i, j, k :| 0 <= i < j < |writes| && k in writes[i] && k in writes[j] && writes[i][k] != writes[j][k];
      assert Proposes(services, ingresses[i], k.namespace, k.missing, k.candidate);
      assert Proposes(services, ingresses[j], k.namespace, k.missing, k.candidate);
    }
    forall i, j, namespace, missing, id | 0 <= i < j < |ingresses|
      && Proposes(services, ingresses[i], namespace, missing, id) && Proposes(services, ingresses[j], namespace, missing, id)
      ensures !Agree(writes)
    {
      var k := CandidateId(namespace, missing, id);
      assert k in writes[i] && k in writes[j] && writes[i][k] != writes[j][k];
    }
  }

  // ---- What one Ingress writes, in full ----------------------------------------------

  /** A hundred for the name it was renamed from, forty for a selected Pod, twenty for the port. */
  function Points(s: Service, b: Backend): nat {
    if s.renamedFrom == b.service then if s.selectsPod then if b.port in s.ports then 160 else 140 else if b.port in s.ports then 120 else 100
    else if s.selectsPod then if b.port in s.ports then 60 else 40 else if b.port in s.ports then 20 else 0
  }

  /** The path names a Service that its namespace lacks, and that Service of the namespace comes near it. */
  ghost predicate Offers(services: map<string, Service>, ing: Ingress, j: int, k: CandidateId) {
    && 0 <= j < |ing.backends|
    && var b := ing.backends[j];
       && k.missing == b.service && b.service != "" && b.service != "<nil>" && k.namespace == ing.namespace
       && (forall id :: id in services && services[id].namespace == ing.namespace ==> services[id].name != b.service)
       && k.candidate in services && services[k.candidate].namespace == ing.namespace && Points(services[k.candidate], b) >= 40
  }

  lemma PathOffers(services: map<string, Service>, ing: Ingress, j: nat, k: CandidateId)
    requires j < |ing.backends|
    ensures k in PathWrites(services, ing)[j] <==> Offers(services, ing, j, k)
    ensures k in PathWrites(services, ing)[j] ==>
              var points := Points(services[k.candidate], ing.backends[j]);
              PathWrites(services, ing)[j][k] == Candidate(ing.id, points, points >= 100)
  {
    var b := ing.backends[j];
    if Breaks(services, ing, b) {
      RankedOffers(services, ing, b, k);
    }
    assert Breaks(services, ing, b) <==>
             && b.service != "" && b.service != "<nil>"
             && forall id :: id in services && services[id].namespace == ing.namespace ==> services[id].name != b.service;
    hide Breaks, Ranked;
  }

  lemma RankedOffers(services: map<string, Service>, ing: Ingress, b: Backend, k: CandidateId)
    ensures k in Ranked(services, ing, b) <==>
              && k.namespace == ing.namespace && k.missing == b.service && k.candidate in services
              && services[k.candidate].namespace == ing.namespace && Points(services[k.candidate], b) >= 40
    ensures k in Ranked(services, ing, b) ==>
              var points := Points(services[k.candidate], b);
              Ranked(services, ing, b)[k] == Candidate(ing.id, points, points >= 100)
  {
    assert forall s :: Score(s, b) == Points(s, b);
    hide Score, Points;
  }

  /** An Ingress writes a candidate exactly when some path of it offers that, with the points that the
      last such path gives. */
  lemma WritesInFull(services: map<string, Service>, ing: Ingress, k: CandidateId)
    ensures k in Writes(services, ing) <==> exists j :: Offers(services, ing, j, k)
    ensures forall j :: Offers(services, ing, j, k) && (forall i :: j < i < |ing.backends| ==> !Offers(services, ing, i, k)) ==>
              var points := Points(services[k.candidate], ing.backends[j]);
              k in Writes(services, ing) && Writes(services, ing)[k] == Candidate(ing.id, points, points >= 100)
  {
    var paths := PathWrites(services, ing);
    forall j: nat | j < |paths|
      ensures k in paths[j] <==> Offers(services, ing, j, k)
      ensures k in paths[j] ==>
                var points := Points(services[k.candidate], ing.backends[j]);
                paths[j][k] == Candidate(ing.id, points, points >= 100)
    {
      PathOffers(services, ing, j, k);
    }
    hide PathWrites, Points;
    MergedInFull(map[], paths, k);
    assert forall j :: Offers(services, ing, j, k) ==> 0 <= j < |paths|;
    hide Offers, Merged;
  }
}
