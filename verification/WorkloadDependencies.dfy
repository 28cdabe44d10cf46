/** The nodes that workload dependencies add, and when the order of ranging over the workloads shows
    in them. */
module WorkloadDependencies {
  import opened LastWriter

  datatype Dependency = Dependency(kind: string, name: string, missing: bool, sourceIds: seq<string>)

  datatype Workload = Workload(namespace: string, dependencies: seq<Dependency>)

  /** A node's id: of the resource itself, or of a reference to a missing one. */
  datatype NodeId = Resource(namespace: string, kind: string, name: string) | Reference(namespace: string, kind: string, name: string)

  /** A present dependency is written without sources, a missing one with those of its field. */
  datatype Node = Node(state: string, sourceIds: seq<string>)

  type Nodes = map<NodeId, Node>

  /** Dependencies without a kind or a name are skipped. */
  predicate IsNamed(d: Dependency) {
    d.kind != "" && d.name != "" && d.name != "<nil>"
  }

  /** What one dependency writes over the nodes so far; a present one only if it has no node yet. */
  function Entry(w: Workload, d: Dependency, nodes: Nodes): Nodes {
    if !IsNamed(d) then map[]
    else if d.missing then map[Reference(w.namespace, d.kind, d.name) := Node("missing", d.sourceIds)]
    else if Resource(w.namespace, d.kind, d.name) in nodes then map[]
    else map[Resource(w.namespace, d.kind, d.name) := Node("present", [])]
  }

  /** The entries of one workload over the nodes of the start; of its entries for one id the last wins. */
  function Writes(w: Workload, base: Nodes): Nodes {
    Merged(map[], Entries(w, base))
  }

  function Entries(w: Workload, base: Nodes): (r: seq<Nodes>)
    ensures |r| == |w.dependencies| && forall i :: 0 <= i < |r| ==> r[i] == Entry(w, w.dependencies[i], base)
  {
    seq(|w.dependencies|, i requires 0 <= i < |w.dependencies| => Entry(w, w.dependencies[i], base))
  }

  function AllWrites(ws: seq<Workload>, base: Nodes): (r: seq<Nodes>)
    ensures |r| == |ws| && forall i :: 0 <= i < |r| ==> r[i] == Writes(ws[i], base)
  {
    seq(|ws|, i requires 0 <= i < |ws| => Writes(ws[i], base))
  }

  /** Grown from the base by present nodes and references only. */
  ghost predicate GrownFrom(nodes: Nodes, base: Nodes) {
    && (forall k :: k in base ==> k in nodes)
    && (forall k :: k in base && k.Resource? ==> nodes[k] == base[k])
    && (forall k :: k in nodes && k.Resource? && k !in base ==> nodes[k] == Node("present", []))
  }

  /** Whether a present dependency already has a node need only be asked of the nodes of the start. */
  lemma EntryOverBase(w: Workload, d: Dependency, nodes: Nodes, base: Nodes)
    requires GrownFrom(nodes, base)
    ensures nodes + Entry(w, d, nodes) == nodes + Entry(w, d, base)
    ensures GrownFrom(nodes + Entry(w, d, base), base)
  {
  }

  method ConnectWorkload(w: Workload, nodes: Nodes, ghost base: Nodes) returns (r: Nodes)
    requires GrownFrom(nodes, base)
    ensures r == Merged(nodes, Entries(w, base)) && GrownFrom(r, base)
  {
    hide Entry, GrownFrom;
    r := nodes;
    ghost var entries := Entries(w, base);
    assert Merged(nodes, entries[..0]) == nodes;
    hide Merged;
    for j := 0 to |w.dependencies|
      invariant r == Merged(nodes, entries[..j]) && GrownFrom(r, base)
    {
      MergedStep(nodes, entries, j);
      EntryOverBase(w, w.dependencies[j], r, base);
      r := r + Entry(w, w.dependencies[j], r);
    }
    assert entries[..|entries|] == entries;
  }

  /** connectWorkloadDependencies for the workloads in the order that ranging over the nodes gives. */
  method ConnectWorkloads(order: seq<Workload>, base: Nodes) returns (nodes: Nodes)
    ensures nodes == Merged(base, AllWrites(order, base))
  {
    nodes := base;
    BaseIsGrown(base);
    ghost var writes := AllWrites(order, base);
    assert Merged(base, writes[..0]) == base;
    hide GrownFrom, Entries, Merged;
    for i := 0 to |order|
      invariant nodes == Merged(base, writes[..i]) && GrownFrom(nodes, base)
    {
      MergedStep(base, writes, i);
      MergedOver(nodes, Entries(order[i], base));
      nodes := ConnectWorkload(order[i], nodes, base);
    }
    assert writes[..|order|] == writes;
  }

  lemma BaseIsGrown(base: Nodes)
    ensures GrownFrom(base, base)
  {
  }

  /** The sources of a workload's last missing entry for the resource, if it has one. */
  function MissingSources(ds: seq<Dependency>, kind: string, name: string): (r: seq<seq<string>>)
    ensures |r| <= 1
  {
    if ds == [] then []
    else
      var last := ds[|ds| - 1];
      if Misses(last, kind, name) then [last.sourceIds]
      else MissingSources(ds[..|ds| - 1], kind, name)
  }

  /** The node written under that id, if any, is a missing one with those sources. */
  predicate Holds(m: Nodes, k: NodeId, sources: seq<seq<string>>) {
    (k in m <==> sources != []) && (k in m ==> m[k] == Node("missing", sources[0]))
  }

  predicate Misses(d: Dependency, kind: string, name: string) {
    IsNamed(d) && d.missing && d.kind == kind && d.name == name
  }

  lemma EntryHolds(w: Workload, d: Dependency, base: Nodes, m: Nodes, kind: string, name: string, sources: seq<seq<string>>)
    requires Holds(m, Reference(w.namespace, kind, name), sources)
    ensures Holds(m + Entry(w, d, base), Reference(w.namespace, kind, name), if Misses(d, kind, name) then [d.sourceIds] else sources)
  {
  }

  lemma {:induction false} WritesMissing(w: Workload, base: Nodes, n: nat, kind: string, name: string)
    requires n <= |w.dependencies|
    ensures Holds(Merged(map[], Entries(w, base)[..n]), Reference(w.namespace, kind, name),
                  MissingSources(w.dependencies[..n], kind, name))
  {
    if n > 0 {
      hide *;
      WritesMissing(w, base, n - 1, kind, name);
      MergedStep(map[], Entries(w, base), n - 1);
      MissingStep(w.dependencies, n - 1, kind, name);
      EntryHolds(w, w.dependencies[n - 1], base, Merged(map[], Entries(w, base)[..n - 1]), kind, name,
                 MissingSources(w.dependencies[..n - 1], kind, name));
    }
  }

  lemma MissingStep(ds: seq<Dependency>, i: nat, kind: string, name: string)
    requires i < |ds|
    ensures MissingSources(ds[..i + 1], kind, name) ==
              if Misses(ds[i], kind, name) then [ds[i].sourceIds] else MissingSources(ds[..i], kind, name)
  {
    assert ds[..i + 1][..i] == ds[..i];
  }

  lemma {:induction false} WritesOwn(w: Workload, base: Nodes, n: nat, k: NodeId)
    requires n <= |w.dependencies| && k in Merged(map[], Entries(w, base)[..n])
    ensures k.namespace == w.namespace && (k.Resource? ==> Merged(map[], Entries(w, base)[..n])[k] == Node("present", []))
  {
    if n > 0 {
      var entries := Entries(w, base);
      assert entries[..n][..n - 1] == entries[..n - 1];
      if k !in entries[n - 1] {
        WritesOwn(w, base, n - 1, k);
      }
    }
  }

  /** The two workloads miss one dependency and have the same sources for it, whenever they miss one. */
  predicate SameSources(a: Workload, b: Workload, kind: string, name: string) {
    var x, y := MissingSources(a.dependencies, kind, name), MissingSources(b.dependencies, kind, name);
    a.namespace == b.namespace && x != [] && y != [] ==> x == y
  }

  /** The order of ranging over the workloads is hidden exactly when any two that miss one dependency
      have the same sources for it; in particular when no two share a missing dependency. */
  lemma WorkloadOrderIsHiddenExactly(ws: seq<Workload>, base: Nodes)
    ensures (forall order :: multiset(order) == multiset(AllWrites(ws, base)) ==>
               Merged(base, order) == Merged(base, AllWrites(ws, base)))
       <==> forall i, j, kind, name :: 0 <= i < j < |ws| ==> SameSources(ws[i], ws[j], kind, name)
  {
    var writes: seq<Nodes> := AllWrites(ws, base);
    OrderIsHiddenExactly(base, writes);
    hide Merged, Entry;
    forall i: nat, j: nat, k: NodeId | i < j < |ws| && k in writes[i] && k in writes[j]
      ensures writes[i][k] == writes[j][k] <==> k.Resource? || SameSources(ws[i], ws[j], k.kind, k.name)
    {
      KeyAgrees(ws[i], ws[j], base, k);
    }
    forall i: nat, j: nat, kind: string, name: string | i < j < |ws| && !SameSources(ws[i], ws[j], kind, name)
      ensures !Agree(writes)
    {
      var k := Reference(ws[i].namespace, kind, name);
      BothWrite(ws[i], ws[j], base, kind, name);
      assert k in writes[i] && k in writes[j] && writes[i][k] != writes[j][k];
    }
    if !Agree(writes) {
      var i, j, k :| 0 <= i < j < |writes| && k in writes[i] && k in writes[j] && writes[i][k] != writes[j][k];
      assert !SameSources(ws[i], ws[j], k.kind, k.name);
    }
  }

  lemma WritesInFull(w: Workload, base: Nodes, k: NodeId)
    ensures k in Writes(w, base) ==> k.namespace == w.namespace && (k.Resource? ==> Writes(w, base)[k] == Node("present", []))
    ensures var sources := MissingSources(w.dependencies, k.kind, k.name);
            k.Reference? && k.namespace == w.namespace ==>
              (k in Writes(w, base) <==> sources != []) && (sources != [] ==> Writes(w, base)[k] == Node("missing", sources[0]))
  {
    var n := |w.dependencies|;
    assert Entries(w, base)[..n] == Entries(w, base) && w.dependencies[..n] == w.dependencies;
    WritesMissing(w, base, n, k.kind, k.name);
    if k in Writes(w, base) {
      WritesOwn(w, base, n, k);
    }
  }

  lemma KeyAgrees(a: Workload, b: Workload, base: Nodes, k: NodeId)
    requires k in Writes(a, base) && k in Writes(b, base)
    ensures Writes(a, base)[k] == Writes(b, base)[k] <==> k.Resource? || SameSources(a, b, k.kind, k.name)
  {
    WritesInFull(a, base, k);
    WritesInFull(b, base, k);
    hide Writes, MissingSources;
  }

  lemma BothWrite(a: Workload, b: Workload, base: Nodes, kind: string, name: string)
    requires !SameSources(a, b, kind, name)
    ensures var k := Reference(a.namespace, kind, name);
            k in Writes(a, base) && k in Writes(b, base)
  {
    var k := Reference(a.namespace, kind, name);
    WritesInFull(a, base, k);
    WritesInFull(b, base, k);
    hide Writes, MissingSources;
  }

  // ---- What one workload writes, in full ----------------------------------------------

  /** That dependency of the workload is the one the id stands for. */
  predicate Depends(w: Workload, i: int, k: NodeId) {
    && 0 <= i < |w.dependencies| && k.namespace == w.namespace
    && var d := w.dependencies[i];
       && d.kind != "" && d.name != "" && d.name != "<nil>" && d.kind == k.kind && d.name == k.name && (d.missing <==> k.Reference?)
  }

  lemma EntryInFull(w: Workload, i: nat, base: Nodes, k: NodeId)
    requires i < |w.dependencies|
    ensures k in Entries(w, base)[i] <==> Depends(w, i, k) && (k.Resource? ==> k !in base)
    ensures k in Entries(w, base)[i] ==>
              Entries(w, base)[i][k] == if k.Reference? then Node("missing", w.dependencies[i].sourceIds) else Node("present", [])
  {
  }

  /** A workload writes a present node for each dependency that exists and has none yet, and a missing one
      with the sources of the last field that names it for each that does not. */
  lemma NodesInFull(w: Workload, base: Nodes, k: NodeId)
    ensures k in Writes(w, base) <==> (exists i :: Depends(w, i, k)) && (k.Resource? ==> k !in base)
    ensures k in Writes(w, base) && k.Resource? ==> Writes(w, base)[k] == Node("present", [])
    ensures forall i :: k.Reference? && Depends(w, i, k) && (forall j :: i < j < |w.dependencies| ==> !Depends(w, j, k)) ==>
              k in Writes(w, base) && Writes(w, base)[k] == Node("missing", w.dependencies[i].sourceIds)
  {
    var entries := Entries(w, base);
    forall i: nat | i < |entries|
      ensures k in entries[i] <==> Depends(w, i, k) && (k.Resource? ==> k !in base)
      ensures k in entries[i] ==> entries[i][k] == if k.Reference? then Node("missing", w.dependencies[i].sourceIds) else Node("present", [])
    {
      EntryInFull(w, i, base, k);
    }
    MergedInFull(map[], entries, k);
    assert forall i :: Depends(w, i, k) ==> 0 <= i < |entries|;
    hide Depends, Entry, Entries;
    if k in Writes(w, base) && k.Resource? {
      WritesInFull(w, base, k);
    }
  }
}
