/** Finding the workload root of a resource: up the controller owners, and from a Service to
    the one workload behind it. */
module RootFinding {
  import opened Cluster
  import opened Selectors
  import opened Text
  import opened Wrappers

  datatype Owner = Owner(controller: bool, kind: string, name: string)

  /** What the search reads of an object; a Service has a selector, a workload a pod template. */
  datatype Object = Object(owners: seq<Owner>, labels: Labels, selector: Labels, externalName: bool, templateLabels: Labels)

  type Objects = map<ResourceRef, Object>

  /** Kinds the watcher can read. */
  predicate IsKnown(kind: string) {
    kind in {"Pod", "Service", "ReplicaSet", "Deployment", "StatefulSet", "DaemonSet", "Job"}
  }

  predicate Matches(selector: Labels, labels: Labels) {
    forall k :: k in selector ==> k in labels && labels[k] == selector[k]
  }

  /** The first controller among the owners, in the object's own namespace. */
  function Controller(owners: seq<Owner>, namespace: string): Option<ResourceRef> {
    if owners == [] then None
    else if owners[0].controller then Some(ResourceRef(namespace, owners[0].kind, owners[0].name))
    else Controller(owners[1..], namespace)
  }

  /** Where the search goes on from a resource that is not a Service. */
  function Parent(c: Objects, ref: ResourceRef): Option<ResourceRef> {
    if IsKnown(ref.kind) && ref in c then Controller(c[ref].owners, ref.namespace) else None
  }

  /** A Service looks for pods only with a selector and without an external name. */
  predicate Selects(c: Objects, svc: ResourceRef) {
    svc in c && c[svc].selector != map[] && !c[svc].externalName
  }

  function SelectedPods(c: Objects, svc: ResourceRef): set<ResourceRef> {
    set p | p in c && Selects(c, svc) && p.kind == "Pod" && p.namespace == svc.namespace && Matches(c[svc].selector, c[p].labels)
  }

  /** Workloads of the kind whose pod template the Service selects. */
  function SelectedWorkloads(c: Objects, svc: ResourceRef, kind: string): set<ResourceRef> {
    set w | w in c && Selects(c, svc) && w.kind == kind && w.namespace == svc.namespace && Matches(c[svc].selector, c[w].templateLabels)
  }

  /** The rank falls from a resource to its controller, and from a Service to the pods it looks for. */
  ghost predicate Acyclic(c: Objects, rank: ResourceRef -> nat) {
    && (forall ref :: ref in c && ref.kind != "Service" && Parent(c, ref).Some? ==> rank(Parent(c, ref).value) < rank(ref))
    && (forall svc, p :: svc in c && svc.kind == "Service" && p in SelectedPods(c, svc) ==> rank(p) < rank(svc))
  }

  ghost function Root(c: Objects, ref: ResourceRef, rank: ResourceRef -> nat): ResourceRef
    requires Acyclic(c, rank)
    decreases rank(ref), 1
  {
    if ref.kind == "Service" then ServiceRoot(c, ref, rank)
    else if Parent(c, ref).None? then ref
    else Root(c, Parent(c, ref).value, rank)
  }

  /** The roots of the selected pods, less the pods that are their own. */
  ghost function PodRoots(c: Objects, pods: set<ResourceRef>, svc: ResourceRef,
          rank: ResourceRef -> nat): set<ResourceRef>
    requires Acyclic(c, rank) && svc.kind == "Service" && pods <= SelectedPods(c, svc)
    decreases rank(svc), 0, 0
  {
    set p | p in pods && Root(c, p, rank).kind != "Pod" :: Root(c, p, rank)
  }

  function Workloads(c: Objects, svc: ResourceRef): set<ResourceRef> {
    SelectedWorkloads(c, svc, "Deployment") + SelectedWorkloads(c, svc, "StatefulSet") + SelectedWorkloads(c, svc, "DaemonSet")
  }

  ghost function Candidates(c: Objects, svc: ResourceRef, rank: ResourceRef -> nat): set<ResourceRef>
    requires Acyclic(c, rank) && svc.kind == "Service"
    decreases rank(svc), 0, 1
  {
    PodRoots(c, SelectedPods(c, svc), svc, rank) + Workloads(c, svc)
  }

  ghost function ServiceRoot(c: Objects, svc: ResourceRef, rank: ResourceRef -> nat): ResourceRef
    requires Acyclic(c, rank) && svc.kind == "Service"
    decreases rank(svc), 0, 2
  {
    if !Selects(c, svc) then svc
    else if t :| Candidates(c, svc, rank) == {t} then t
    else svc
  }

  // ---- Keys -------------------------------------------------------------------------

  function ResourceKey(ref: ResourceRef): string {
    ref.namespace + "/" + ref.kind + "/" + ref.name
  }

  /** Kinds are plain identifiers. */
  predicate PlainKinds(c: Objects) {
    forall ref :: ref in c ==> '/' !in ref.kind && forall o :: o in c[ref].owners ==> '/' !in o.kind
  }

  lemma KeysIdentifyResources(a: ResourceRef, b: ResourceRef)
    requires a.namespace == b.namespace && '/' !in a.kind && '/' !in b.kind
    ensures ResourceKey(a) == ResourceKey(b) <==> a == b
  {
    if ResourceKey(a) == ResourceKey(b) {
      var n := |a.namespace| + 1;
      assert ResourceKey(a)[n..] == a.kind + "/" + a.name && ResourceKey(b)[n..] == b.kind + "/" + b.name;
      SplitAtFirst('/', a.kind, b.kind, a.name, b.name);
    }
  }

  lemma {:induction false} ControllerIsAnOwner(owners: seq<Owner>, namespace: string)
    ensures var p := Controller(owners, namespace);
            && (p.Some? ==> p.value.namespace == namespace && exists o :: o in owners && o.controller && p.value.kind == o.kind && p.value.name == o.name)
            && (p.None? ==> forall o :: o in owners ==> !o.controller)
  {
    if owners != [] && !owners[0].controller {
      ControllerIsAnOwner(owners[1..], namespace);
    }
  }

  /** A root is in the namespace of what it was found from, and so is every candidate. */
  lemma {:induction false} RootStaysInNamespace(c: Objects, ref: ResourceRef, rank: ResourceRef -> nat)
    requires Acyclic(c, rank) && PlainKinds(c) && '/' !in ref.kind
    ensures Root(c, ref, rank).namespace == ref.namespace && '/' !in Root(c, ref, rank).kind
    decreases rank(ref), 1
  {
    if ref.kind == "Service" {
      CandidatesStayInNamespace(c, ref, rank);
    } else if Parent(c, ref).Some? {
      ControllerIsAnOwner(c[ref].owners, ref.namespace);
      RootStaysInNamespace(c, Parent(c, ref).value, rank);
    }
  }

  ghost predicate Within(found: set<ResourceRef>, namespace: string) {
    forall t :: t in found ==> t.namespace == namespace && '/' !in t.kind
  }

  lemma WorkloadsAreWithin(c: Objects, svc: ResourceRef, kind: string)
    requires PlainKinds(c)
    ensures Within(SelectedWorkloads(c, svc, kind), svc.namespace)
  {
  }

  lemma {:induction false} PodRootsAreWithin(c: Objects, svc: ResourceRef, rank: ResourceRef -> nat)
    requires Acyclic(c, rank) && PlainKinds(c) && svc.kind == "Service"
    ensures Within(PodRoots(c, SelectedPods(c, svc), svc, rank), svc.namespace)
    decreases rank(svc), 0, 0
  {
    forall p | p in SelectedPods(c, svc)
      ensures Root(c, p, rank).namespace == svc.namespace && '/' !in Root(c, p, rank).kind
    {
      RootStaysInNamespace(c, p, rank);
    }
    hide Root, Acyclic, SelectedPods, PlainKinds;
  }

  lemma {:induction false} CandidatesStayInNamespace(c: Objects, svc: ResourceRef, rank: ResourceRef -> nat)
    requires Acyclic(c, rank) && PlainKinds(c) && svc.kind == "Service"
    ensures Within(Candidates(c, svc, rank), svc.namespace)
    decreases rank(svc), 0, 1
  {
    PodRootsAreWithin(c, svc, rank);
    WorkloadsAreWithin(c, svc, "Deployment");
    WorkloadsAreWithin(c, svc, "StatefulSet");
    WorkloadsAreWithin(c, svc, "DaemonSet");
    hide Root, Acyclic, SelectedPods, PlainKinds, PodRoots, SelectedWorkloads;
  }

  // ---- The search -------------------------------------------------------------------

  /** The candidates collected so far, filed under their keys. */
  ghost predicate Files(m: map<string, ResourceRef>, found: set<ResourceRef>) {
    && (forall k :: k in m ==> m[k] in found && ResourceKey(m[k]) == k)
    && (forall t :: t in found ==> ResourceKey(t) in m && m[ResourceKey(t)] == t)
  }

  lemma FileOne(m: map<string, ResourceRef>, found: set<ResourceRef>, t: ResourceRef, namespace: string)
    requires Files(m, found) && Within(found + {t}, namespace)
    ensures Files(m[ResourceKey(t) := t], found + {t})
  {
    forall x | x in found
      ensures ResourceKey(x) == ResourceKey(t) <==> x == t
    {
      assert x in found + {t} && t in found + {t};
      KeysIdentifyResources(x, t);
    }
    hide ResourceKey;
  }

  method FileWorkloads(c: Objects, svc: ResourceRef, kind: string, m: map<string, ResourceRef>,
          ghost found: set<ResourceRef>)
    returns (r: map<string, ResourceRef>)
    requires PlainKinds(c) && Files(m, found) && Within(found, svc.namespace)
    ensures Files(r, found + SelectedWorkloads(c, svc, kind))
  {
    hide Files, ResourceKey;
    r := m;
    var todo := SelectedWorkloads(c, svc, kind);
    ghost var done: set<ResourceRef> := {};
    assert found + done == found;
    while todo != {}
      invariant todo + done == SelectedWorkloads(c, svc, kind) && todo !! done
      invariant Files(r, found + done)
      decreases todo
    {
      var w :| w in todo;
      WorkloadsAreWithin(c, svc, kind);
      FileOne(r, found + done, w, svc.namespace);
      assert found + done + {w} == found + (done + {w});
      r := r[ResourceKey(w) := w];
      todo, done := todo - {w}, done + {w};
    }
    assert done == SelectedWorkloads(c, svc, kind);
  }

  method FileAllWorkloads(c: Objects, svc: ResourceRef, m: map<string, ResourceRef>, ghost found: set<ResourceRef>)
    returns (r: map<string, ResourceRef>)
    requires PlainKinds(c) && Files(m, found) && Within(found, svc.namespace)
    ensures Files(r, found + Workloads(c, svc))
  {
    WorkloadsAreWithin(c, svc, "Deployment");
    WorkloadsAreWithin(c, svc, "StatefulSet");
    hide Files, SelectedWorkloads;
    ghost var a, b := found + SelectedWorkloads(c, svc, "Deployment"), SelectedWorkloads(c, svc, "StatefulSet");
    r := FileWorkloads(c, svc, "Deployment", m, found);
    r := FileWorkloads(c, svc, "StatefulSet", r, a);
    r := FileWorkloads(c, svc, "DaemonSet", r, a + b);
    assert found + Workloads(c, svc) == a + b + SelectedWorkloads(c, svc, "DaemonSet");
  }

  method FindRootResource(c: Objects, ref: ResourceRef, ghost rank: ResourceRef -> nat) returns (root: ResourceRef)
    requires Acyclic(c, rank) && PlainKinds(c) && '/' !in ref.kind
    ensures root == Root(c, ref, rank)
    decreases rank(ref), 2
  {
    if ref.kind == "Service" {
      root := FindServiceRoot(c, ref, rank);
      return;
    }
    if !IsKnown(ref.kind) || ref !in c {
      return ref;
    }
    var owners := c[ref].owners;
    for i := 0 to |owners|
      invariant Controller(owners, ref.namespace) == Controller(owners[i..], ref.namespace)
    {
      if owners[i].controller {
        var parent := ResourceRef(ref.namespace, owners[i].kind, owners[i].name);
        ControllerIsAnOwner(owners, ref.namespace);
        root := FindRootResource(c, parent, rank);
        return;
      }
    }
    root := ref;
  }

  method FilePodRoots(c: Objects, svc: ResourceRef, ghost rank: ResourceRef -> nat)
    returns (r: map<string, ResourceRef>)
    requires Acyclic(c, rank) && PlainKinds(c) && svc.kind == "Service"
    ensures Files(r, PodRoots(c, SelectedPods(c, svc), svc, rank))
    decreases rank(svc), 0
  {
    r := map[];
    var todo := SelectedPods(c, svc);
    ghost var done: set<ResourceRef> := {};
    assert Files(r, PodRoots(c, done, svc, rank));
    hide Files, ResourceKey, Root, PodRoots, Within, SelectedPods, PlainKinds, Acyclic;
    while todo != {}
      invariant todo + done == SelectedPods(c, svc)
      invariant Files(r, PodRoots(c, done, svc, rank))
      decreases todo
    {
      var p :| p in todo;
      RanksFall(c, svc, p, rank);
      var t := FindRootResource(c, p, rank);
      PodRootsAdd(c, svc, rank, done, p);
      if t.kind != "Pod" {
        FileOne(r, PodRoots(c, done, svc, rank), t, svc.namespace);
        r := r[ResourceKey(t) := t];
      }
      todo, done := todo - {p}, done + {p};
    }
    assert done == SelectedPods(c, svc);
  }

  lemma RanksFall(c: Objects, svc: ResourceRef, p: ResourceRef, rank: ResourceRef -> nat)
    requires Acyclic(c, rank) && svc.kind == "Service" && p in SelectedPods(c, svc)
    ensures rank(p) < rank(svc) && p.kind == "Pod"
  {
  }

  lemma PodRootsAdd(c: Objects, svc: ResourceRef, rank: ResourceRef -> nat, pods: set<ResourceRef>, p: ResourceRef)
    requires Acyclic(c, rank) && PlainKinds(c) && svc.kind == "Service" && pods + {p} <= SelectedPods(c, svc)
    ensures Within(PodRoots(c, pods + {p}, svc, rank), svc.namespace)
    ensures PodRoots(c, pods + {p}, svc, rank)
         == if Root(c, p, rank).kind == "Pod" then PodRoots(c, pods, svc, rank) else PodRoots(c, pods, svc, rank) + {Root(c, p, rank)}
  {
    PodRootsAreWithin(c, svc, rank);
    hide Root;
    assert PodRoots(c, pods + {p}, svc, rank) <= PodRoots(c, SelectedPods(c, svc), svc, rank);
  }

  method FindServiceRoot(c: Objects, svc: ResourceRef, ghost rank: ResourceRef -> nat) returns (root: ResourceRef)
    requires Acyclic(c, rank) && PlainKinds(c) && svc.kind == "Service"
    ensures root == ServiceRoot(c, svc, rank)
    decreases rank(svc), 1
  {
    if !Selects(c, svc) {
      return svc;
    }
    hide Files, Root, SelectedPods, Workloads, Within;
    PodRootsAreWithin(c, svc, rank);
    var candidates := FilePodRoots(c, svc, rank);
    candidates := FileAllWorkloads(c, svc, candidates, PodRoots(c, SelectedPods(c, svc), svc, rank));
    OnlyCandidate(candidates, Candidates(c, svc, rank));
    hide PodRoots, Acyclic;
    if |candidates| == 1 {
      var k :| k in candidates;
      return candidates[k];
    }
    root := svc;
  }

  lemma OnlyCandidate(m: map<string, ResourceRef>, found: set<ResourceRef>)
    requires Files(m, found)
    ensures |m| == 1 ==> forall k :: k in m ==> found == {m[k]}
    ensures (exists t :: found == {t}) ==> |m| == 1
  {
    if |m| == 1 {
      var k :| k in m;
      assert |m.Keys - {k}| == 0;
      assert forall x :: x in m ==> x == k;
    }
    if t :| found == {t} {
      assert m.Keys == {ResourceKey(t)};
    }
  }

  // ---- What a root is ---------------------------------------------------------------

  /** Any rank that falls along the owners gives the same roots. */
  lemma {:induction false} RankIsIrrelevant(c: Objects, ref: ResourceRef, rank: ResourceRef -> nat,
          rank': ResourceRef -> nat)
    requires Acyclic(c, rank) && Acyclic(c, rank')
    ensures Root(c, ref, rank) == Root(c, ref, rank')
    decreases rank(ref), 1
  {
    if ref.kind == "Service" {
      forall p | p in SelectedPods(c, ref)
        ensures Root(c, p, rank) == Root(c, p, rank')
      {
        RankIsIrrelevant(c, p, rank, rank');
      }
      assert Candidates(c, ref, rank) == Candidates(c, ref, rank');
    } else if Parent(c, ref).Some? {
      RankIsIrrelevant(c, Parent(c, ref).value, rank, rank');
    }
  }

  /** No Service on the way up. */
  ghost predicate ServiceFree(c: Objects, ref: ResourceRef, rank: ResourceRef -> nat)
    requires Acyclic(c, rank)
    decreases rank(ref)
  {
    ref.kind != "Service" && (Parent(c, ref).Some? ==> ServiceFree(c, Parent(c, ref).value, rank))
  }

  /** Without a Service on the way, the root has no controller of its own, and is its own root. */
  lemma {:induction false} RootIsFixed(c: Objects, ref: ResourceRef, rank: ResourceRef -> nat)
    requires Acyclic(c, rank) && ServiceFree(c, ref, rank)
    ensures Parent(c, Root(c, ref, rank)).None? && Root(c, ref, rank).kind != "Service"
    ensures Root(c, Root(c, ref, rank), rank) == Root(c, ref, rank)
    ensures rank(Root(c, ref, rank)) <= rank(ref)
    decreases rank(ref)
  {
    if Parent(c, ref).Some? {
      RootIsFixed(c, Parent(c, ref).value, rank);
    }
  }

  /** The resource is met on the way up from another. */
  ghost predicate Above(c: Objects, ref: ResourceRef, x: ResourceRef, rank: ResourceRef -> nat)
    requires Acyclic(c, rank)
    decreases rank(ref)
  {
    ref == x || (ref.kind != "Service" && Parent(c, ref).Some? && Above(c, Parent(c, ref).value, x, rank))
  }

  lemma {:induction false} RootOfAncestor(c: Objects, ref: ResourceRef, x: ResourceRef, rank: ResourceRef -> nat)
    requires Acyclic(c, rank) && Above(c, ref, x, rank)
    ensures Root(c, ref, rank) == Root(c, x, rank)
    decreases rank(ref)
  {
    if ref != x {
      RootOfAncestor(c, Parent(c, ref).value, x, rank);
    }
  }

  /** Resources whose ways up meet anywhere share a root. */
  lemma SharedOwnerSharesRoot(c: Objects, a: ResourceRef, b: ResourceRef, owner: ResourceRef, rank: ResourceRef -> nat)
    requires Acyclic(c, rank) && Above(c, a, owner, rank) && Above(c, b, owner, rank)
    ensures Root(c, a, rank) == Root(c, b, rank)
  {
    RootOfAncestor(c, a, owner, rank);
    RootOfAncestor(c, b, owner, rank);
  }

  /** A Service that is a root is never reached from below its own rank. */
  lemma {:induction false} ServiceRootsDescend(c: Objects, ref: ResourceRef, rank: ResourceRef -> nat)
    requires Acyclic(c, rank) && Root(c, ref, rank).kind == "Service"
    ensures rank(Root(c, ref, rank)) <= rank(ref)
    decreases rank(ref), 1
  {
    if ref.kind == "Service" {
      if Root(c, ref, rank) != ref {
        var t := Root(c, ref, rank);
        assert t in Candidates(c, ref, rank) && t !in Workloads(c, ref);
        assert t in PodRoots(c, SelectedPods(c, ref), ref, rank);
        var p :| p in SelectedPods(c, ref) && Root(c, p, rank) == t;
        ServiceRootsDescend(c, p, rank);
      }
    } else if Parent(c, ref).Some? {
      ServiceRootsDescend(c, Parent(c, ref).value, rank);
    }
  }

  lemma NotItsOwnCandidate(c: Objects, svc: ResourceRef, rank: ResourceRef -> nat)
    requires Acyclic(c, rank) && svc.kind == "Service"
    ensures svc !in Candidates(c, svc, rank)
  {
    forall p | p in SelectedPods(c, svc)
      ensures Root(c, p, rank) != svc
    {
      if Root(c, p, rank).kind == "Service" {
        ServiceRootsDescend(c, p, rank);
      }
    }
    hide Root;
  }

  /** A Service resolves away from itself exactly when it selects something and there is one
      candidate: then to that one. */
  lemma ServiceMovesExactly(c: Objects, svc: ResourceRef, rank: ResourceRef -> nat)
    requires Acyclic(c, rank) && svc.kind == "Service"
    ensures Root(c, svc, rank) != svc <==> Selects(c, svc) && |Candidates(c, svc, rank)| == 1
    ensures Root(c, svc, rank) != svc ==> Candidates(c, svc, rank) == {Root(c, svc, rank)}
  {
    NotItsOwnCandidate(c, svc, rank);
    SingletonExists(Candidates(c, svc, rank));
    hide Candidates;
  }

  lemma SingletonExists(s: set<ResourceRef>)
    ensures |s| == 1 <==> exists t :: s == {t}
  {
    if |s| == 1 {
      var t :| t in s;
      assert |s - {t}| == 0;
      assert s == {t};
    }
  }

  /** When a Service moves, it goes where every pod behind it goes that has a root besides itself. */
  lemma ServiceAgreesWithItsPods(c: Objects, svc: ResourceRef, p: ResourceRef, rank: ResourceRef -> nat)
    requires Acyclic(c, rank) && svc.kind == "Service" && p in SelectedPods(c, svc)
    requires Root(c, svc, rank) != svc && Root(c, p, rank).kind != "Pod"
    ensures Root(c, svc, rank) == Root(c, p, rank)
  {
    ServiceMovesExactly(c, svc, rank);
    assert Root(c, p, rank) in Candidates(c, svc, rank);
  }

  /** A workload taken from its pod template is not climbed: the root a Service moves to is a
      fixed point exactly when it has no controller. */
  lemma ServiceRootIsFixedExactly(c: Objects, svc: ResourceRef, rank: ResourceRef -> nat)
    requires Acyclic(c, rank) && svc.kind == "Service" && Root(c, svc, rank) != svc
    requires ServiceFree(c, Root(c, svc, rank), rank)
    ensures var t := Root(c, svc, rank);
            Root(c, t, rank) == t <==> Parent(c, t).None?
  {
    var t := Root(c, svc, rank);
    if Parent(c, t).Some? {
      RootIsFixed(c, Parent(c, t).value, rank);
    }
  }

  /** Such a Service exists: a Deployment that an operator's resource controls, with no pods yet. */
  lemma ServiceRootCanHaveAController(selector: Labels) returns (c: Objects, svc: ResourceRef)
    requires selector != map[]
    ensures svc.kind == "Service"
    ensures exists rank: ResourceRef -> nat ::
              Acyclic(c, rank) && Root(c, svc, rank) != svc && Root(c, Root(c, svc, rank), rank) != Root(c, svc, rank)
  {
    svc := ResourceRef("shop", "Service", "web");
    var deployment, operator := ResourceRef("shop", "Deployment", "web"), Owner(true, "Web", "web");
    c := map[svc := Object([], map[], selector, false, map[]), deployment := Object([operator], map[], map[], false, selector)];
    var rank := (ref: ResourceRef) => if ref == deployment then 1 else 0;
    assert Parent(c, deployment) == Some(ResourceRef("shop", "Web", "web"));
    assert SelectedPods(c, svc) == {};
    assert SelectedWorkloads(c, svc, "Deployment") == {deployment};
    assert SelectedWorkloads(c, svc, "StatefulSet") == {} && SelectedWorkloads(c, svc, "DaemonSet") == {};
    assert Acyclic(c, rank);
    OneWorkloadIsRoot(c, svc, deployment, rank);
    assert Root(c, deployment, rank) == ResourceRef("shop", "Web", "web");
  }

  lemma OneWorkloadIsRoot(c: Objects, svc: ResourceRef, w: ResourceRef, rank: ResourceRef -> nat)
    requires Acyclic(c, rank) && svc.kind == "Service" && Selects(c, svc)
    requires SelectedPods(c, svc) == {} && Workloads(c, svc) == {w}
    ensures Root(c, svc, rank) == w
  {
    assert Candidates(c, svc, rank) == {w};
  }

  // ---- Ownership alone ----------------------------------------------------------------

  ghost predicate OwnersAcyclic(c: Objects, rank: ResourceRef -> nat) {
    forall ref :: ref in c && Parent(c, ref).Some? ==> rank(Parent(c, ref).value) < rank(ref)
  }

  ghost function Highest(refs: set<ResourceRef>, rank: ResourceRef -> nat): (top: nat)
    ensures forall ref :: ref in refs ==> rank(ref) <= top
  {
    if refs == {} then 0
    else
      var x :| x in refs;
      var rest := Highest(refs - {x}, rank);
      if rank(x) > rest then rank(x) else rest
  }

  /** Where no Service controls anything, acyclic ownership is enough for the search to end. */
  lemma OwnershipSuffices(c: Objects, rank: ResourceRef -> nat)
    requires OwnersAcyclic(c, rank)
    requires forall ref :: ref in c && Parent(c, ref).Some? ==> Parent(c, ref).value.kind != "Service"
    ensures exists rank': ResourceRef -> nat :: Acyclic(c, rank')
  {
    var top := Highest(c.Keys, rank);
    var rank': ResourceRef -> nat := (ref: ResourceRef) => if ref.kind == "Service" then top + 1 else rank(ref);
    assert Acyclic(c, rank');
  }

  // ---- The search, in full ------------------------------------------------------------

  /** The first owner of a stored resource of a readable kind that controls it. */
  predicate Controls(c: Objects, ref: ResourceRef, i: int) {
    && ref.kind in ["Pod", "Service", "ReplicaSet", "Deployment", "StatefulSet", "DaemonSet", "Job"] && ref in c
    && 0 <= i < |c[ref].owners| && c[ref].owners[i].controller && forall k :: 0 <= k < i ==> !c[ref].owners[k].controller
  }

  lemma {:induction false} FirstController(owners: seq<Owner>, namespace: string, i: int)
    requires 0 <= i < |owners| && owners[i].controller && forall k :: 0 <= k < i ==> !owners[k].controller
    ensures Controller(owners, namespace) == Some(ResourceRef(namespace, owners[i].kind, owners[i].name))
  {
    if i > 0 {
      FirstController(owners[1..], namespace, i - 1);
    }
  }

  lemma {:induction false} NoController(owners: seq<Owner>, namespace: string)
    requires forall k :: 0 <= k < |owners| ==> !owners[k].controller
    ensures Controller(owners, namespace) == None
  {
    if owners != [] {
      NoController(owners[1..], namespace);
    }
  }

  lemma {:induction false} SomeController(owners: seq<Owner>) returns (i: int)
    requires exists k :: 0 <= k < |owners| && owners[k].controller
    ensures 0 <= i < |owners| && owners[i].controller && forall k :: 0 <= k < i ==> !owners[k].controller
  {
    if owners[0].controller {
      i := 0;
    } else {
      i := SomeController(owners[1..]);
      i := i + 1;
    }
  }

  /** Up the first controller of its namespace, as long as there is one. */
  lemma RootInFull(c: Objects, ref: ResourceRef, rank: ResourceRef -> nat)
    requires Acyclic(c, rank) && ref.kind != "Service"
    ensures forall i :: Controls(c, ref, i) ==>
              Root(c, ref, rank) == Root(c, ResourceRef(ref.namespace, c[ref].owners[i].kind, c[ref].owners[i].name), rank)
    ensures (forall i :: !Controls(c, ref, i)) ==> Root(c, ref, rank) == ref
  {
    forall i | Controls(c, ref, i)
      ensures Parent(c, ref) == Some(ResourceRef(ref.namespace, c[ref].owners[i].kind, c[ref].owners[i].name))
    {
      FirstController(c[ref].owners, ref.namespace, i);
    }
    if forall i :: !Controls(c, ref, i) {
      if ref in c && IsKnown(ref.kind) {
        if exists k :: 0 <= k < |c[ref].owners| && c[ref].owners[k].controller {
          var i := SomeController(c[ref].owners);
          assert Controls(c, ref, i);
        } else {
          NoController(c[ref].owners, ref.namespace);
        }
      }
    }
    hide Controller;
  }

  /** The labels carry every entry of the selector. */
  predicate Carries(selector: Labels, labels: Labels) {
    forall k :: k in selector ==> k in labels && labels[k] == selector[k]
  }

  /** A workload behind a Service: the root of a pod of its namespace that it selects, unless that is a
      pod, or a Deployment, StatefulSet or DaemonSet whose pod template it selects. */
  ghost predicate Behind(c: Objects, svc: ResourceRef, t: ResourceRef, rank: ResourceRef -> nat)
    requires Acyclic(c, rank) && svc in c
  {
    || (t.kind != "Pod"
        && exists p :: p in c && p.kind == "Pod" && p.namespace == svc.namespace && Carries(c[svc].selector, c[p].labels) && Root(c, p, rank) == t)
    || (t in c && t.kind in ["Deployment", "StatefulSet", "DaemonSet"] && t.namespace == svc.namespace
        && Carries(c[svc].selector, c[t].templateLabels))
  }

  /** That and nothing else. */
  ghost predicate OnlyBehind(c: Objects, svc: ResourceRef, t: ResourceRef, rank: ResourceRef -> nat)
    requires Acyclic(c, rank)
  {
    && svc in c && c[svc].selector != map[] && !c[svc].externalName
    && Behind(c, svc, t, rank) && forall u :: Behind(c, svc, u, rank) ==> u == t
  }

  /** A stored Service with a selector and no external name has the one workload behind it for a root,
      if there is exactly one; every other Service is its own. */
  lemma ServiceRootInFull(c: Objects, svc: ResourceRef, rank: ResourceRef -> nat)
    requires Acyclic(c, rank) && svc.kind == "Service"
    ensures forall t :: OnlyBehind(c, svc, t, rank) ==> Root(c, svc, rank) == t
    ensures (forall t :: !OnlyBehind(c, svc, t, rank)) ==> Root(c, svc, rank) == svc
  {
    if svc in c && c[svc].selector != map[] && !c[svc].externalName {
      BehindExactly(c, svc, rank);
      forall t
        ensures OnlyBehind(c, svc, t, rank) <==> Candidates(c, svc, rank) == {t}
      {
        hide Behind, Candidates, Acyclic;
      }
    }
    hide Behind, Candidates, OnlyBehind;
  }

  lemma BehindExactly(c: Objects, svc: ResourceRef, rank: ResourceRef -> nat)
    requires Acyclic(c, rank) && svc.kind == "Service" && svc in c && c[svc].selector != map[] && !c[svc].externalName
    ensures forall t :: t in Candidates(c, svc, rank) <==> Behind(c, svc, t, rank)
  {
    hide Acyclic, Root, Matches, Carries;
    forall a, b
      ensures Matches(a, b) <==> Carries(a, b)
    {
      MatchesCarries(a, b);
    }
  }

  lemma MatchesCarries(a: Labels, b: Labels)
    ensures Matches(a, b) <==> Carries(a, b)
  {
  }
}
