/** The label that identifies the resource of a problem case. */
module CaseLabels {
  import opened Cluster
  import opened Text

  const LIMIT := 63

  function Lower(s: string): (r: string)
    ensures |r| == |s|
  {
    if s == "" then "" else [if 'A' <= s[0] <= 'Z' then (s[0] as int + 32) as char else s[0]] + Lower(s[1..])
  }

  function Namespace(ref: ResourceRef): string {
    if ref.namespace == "" then "cluster" else ref.namespace
  }

  function Joined(ref: ResourceRef): string {
    ref.kind + "." + (Namespace(ref) + "." + ref.name)
  }

  function LabelValue(ref: ResourceRef): string {
    var v := Lower(Joined(ref));
    if |v| > LIMIT then v[..LIMIT] else v
  }

  /** What Kubernetes guarantees of most resources: no dot in kind and namespace, lower-case
      namespace and name. */
  predicate Ordinary(ref: ResourceRef) {
    '.' !in ref.kind && '.' !in ref.namespace && Lower(ref.namespace) == ref.namespace && Lower(ref.name) == ref.name
  }

  lemma {:induction false} LowerAdds(a: string, b: string)
    ensures Lower(a + b) == Lower(a) + Lower(b)
  {
    if a == "" {
      assert a + b == b;
    } else {
      assert (a + b)[1..] == a[1..] + b;
      LowerAdds(a[1..], b);
    }
  }

  lemma {:induction false} LowerAddsNoDot(s: string)
    requires '.' !in s
    ensures '.' !in Lower(s)
  {
    if s != "" {
      LowerAddsNoDot(s[1..]);
    }
  }

  lemma LowerDotted(a: string, b: string)
    ensures Lower(a + "." + b) == Lower(a) + "." + Lower(b)
  {
    LowerAdds(a + ".", b);
    LowerAdds(a, ".");
    assert Lower(".") == ".";
  }

  lemma LowerNamespace(ref: ResourceRef)
    requires Ordinary(ref)
    ensures '.' !in Namespace(ref) && Lower(Namespace(ref)) == Namespace(ref)
  {
    LowerCluster();
  }

  lemma LowerJoined(ref: ResourceRef)
    requires Ordinary(ref)
    ensures '.' !in Lower(ref.kind) && '.' !in Namespace(ref)
    ensures Lower(Joined(ref)) == Lower(ref.kind) + "." + (Namespace(ref) + "." + ref.name)
  {
    LowerAddsNoDot(ref.kind);
    LowerNamespace(ref);
    LowerDotted(Namespace(ref), ref.name);
    hide Lower, Namespace;
    LowerDotted(ref.kind, Namespace(ref) + "." + ref.name);
  }

  lemma LowerCluster()
    ensures Lower("cluster") == "cluster"
  {
    LowerAdds("clu", "ster");
    LowerAdds("cl", "u");
    LowerAdds("st", "er");
    assert "clu" + "ster" == "cluster" && "cl" + "u" == "clu" && "st" + "er" == "ster";
  }

  /** Ordinary resources, one of them untruncated, share a label exactly when they have the same
      name, the same kind up to case, and the same namespace or one of them none and the other
      one called cluster. Only a label that fills the limit needs the other untruncated too. */
  lemma LabelsIdentifyResources(a: ResourceRef, b: ResourceRef)
    requires Ordinary(a) && Ordinary(b)
    requires |Joined(a)| < LIMIT || (|Joined(a)| == LIMIT && |Joined(b)| <= LIMIT)
    ensures LabelValue(a) == LabelValue(b) <==>
              && Lower(a.kind) == Lower(b.kind) && a.name == b.name
              && (a.namespace == b.namespace || {a.namespace, b.namespace} == {"", "cluster"})
  {
    LowerJoined(a);
    LowerJoined(b);
    SameNamespace(a, b);
    hide Lower, Ordinary, Joined, Namespace;
    if LabelValue(a) == LabelValue(b) {
      assert |Joined(b)| <= LIMIT;
      SplitAtFirst('.', Lower(a.kind), Lower(b.kind), Namespace(a) + "." + a.name, Namespace(b) + "." + b.name);
      SplitAtFirst('.', Namespace(a), Namespace(b), a.name, b.name);
    }
  }

  lemma SameNamespace(a: ResourceRef, b: ResourceRef)
    ensures Namespace(a) == Namespace(b) <==> a.namespace == b.namespace || {a.namespace, b.namespace} == {"", "cluster"}
  {
  }

  /** A cluster-wide resource has the label of its namesake in a namespace called "cluster". */
  lemma ClusterNamespaceCollides(kind: string, name: string)
    ensures LabelValue(ResourceRef("", kind, name)) == LabelValue(ResourceRef("cluster", kind, name))
  {
  }

  /** Names that agree up to the limit have one label. */
  lemma LongNamesCollide(namespace: string, kind: string, name: string, a: string, b: string)
    requires |Joined(ResourceRef(namespace, kind, name))| >= LIMIT
    ensures LabelValue(ResourceRef(namespace, kind, name + a)) == LabelValue(ResourceRef(namespace, kind, name + b))
  {
    hide Lower;
    var base := Joined(ResourceRef(namespace, kind, name));
    LowerAdds(base, a);
    LowerAdds(base, b);
    assert Joined(ResourceRef(namespace, kind, name + a)) == base + a;
    assert Joined(ResourceRef(namespace, kind, name + b)) == base + b;
    assert (Lower(base) + Lower(a))[..LIMIT] == Lower(base)[..LIMIT];
    assert (Lower(base) + Lower(b))[..LIMIT] == Lower(base)[..LIMIT];
  }

  /** Kind, namespace and name with dots between, a cluster-wide resource in "cluster", the first 63
      characters of it, with capitals lowered and nothing else changed. */
  lemma LabelInFull(ref: ResourceRef)
    ensures var text := ref.kind + "." + (if ref.namespace == "" then "cluster" else ref.namespace) + "." + ref.name;
      var value := LabelValue(ref);
      && |value| == (if |text| < 63 then |text| else 63)
      && forall i :: 0 <= i < |value| ==> value[i] == if 'A' <= text[i] <= 'Z' then (text[i] as int + 32) as char else text[i]
  {
    var text := ref.kind + "." + (if ref.namespace == "" then "cluster" else ref.namespace) + "." + ref.name;
    assert text == Joined(ref);
    LowerAt(text);
  }

  lemma {:induction false} LowerAt(s: string)
    ensures forall i :: 0 <= i < |s| ==> Lower(s)[i] == if 'A' <= s[i] <= 'Z' then (s[i] as int + 32) as char else s[i]
  {
    if s != "" {
      LowerAt(s[1..]);
      assert forall i :: 0 < i < |s| ==> Lower(s)[i] == Lower(s[1..])[i - 1];
    }
  }
}
