/** The evidence catalog: flattening a resource into one addressable source per leaf, and
    dropping repeated ids. */
module Catalog {
  import opened Decimal
  import opened Order
  import opened Graph
  import opened JsonPointer
  import opened Text
  import opened Wrappers

  /** A hashed id; the hash is injective on the text it is taken of. */
  datatype SourceId = SourceId(kind: string, hashed: string)

  datatype Source = Source(id: SourceId, path: string, value: string)

  function Prefix(kind: string, ref: ResourceRef): string {
    kind + "|" + ref.apiGroup + "|" + ref.kind + "|" + ref.namespace + "|" + ref.name + "|"
  }

  function IdOf(kind: string, ref: ResourceRef, path: string, value: string): SourceId {
    SourceId(kind, Prefix(kind, ref) + (path + "|" + value))
  }

  function FieldSource(ref: ResourceRef, path: string, value: string): Source {
    Source(IdOf("field", ref, path, value), path, value)
  }

  // ---- Flattening -------------------------------------------------------------------

  /** The members of a container in the order they are visited, each under its escaped token. */
  ghost function Children(j: Json): (r: seq<(string, Json)>)
    ensures forall i :: 0 <= i < |r| ==> r[i].1 < j
  {
    match j
    case Leaf(_) => []
    case Arr(items) => seq(|items|, i requires 0 <= i < |items| => (Itoa(i), items[i]))
    case Obj(fields) =>
      var keys := SortedSet(fields.Keys);
      assert forall i :: 0 <= i < |keys| ==> keys[i] in keys;
      seq(|keys|, i requires 0 <= i < |keys| => (Escape(keys[i]), fields[keys[i]]))
  }

  ghost function Flat(ref: ResourceRef, path: string, j: Json): seq<Source>
    decreases j, 1, 0
  {
    if !j.Leaf? then FlatMembers(ref, path, j, |Children(j)|)
    else if path == "" then []
    else [FieldSource(ref, path, j.value)]
  }

  ghost function FlatMembers(ref: ResourceRef, path: string, j: Json, n: nat): seq<Source>
    requires n <= |Children(j)|
    decreases j, 0, n
  {
    if n == 0 then []
    else
      var child := Children(j)[n - 1];
      FlatMembers(ref, path, j, n - 1) + Flat(ref, path + "/" + child.0, child.1)
  }

  // ---- Children are the members that tokens name -------------------------------------

  lemma ChildIsMember(j: Json, i: nat)
    requires i < |Children(j)|
    ensures '/' !in Children(j)[i].0 && Member(j, Children(j)[i].0) == Some(Children(j)[i].1)
  {
    match j {
      case Arr(_) =>
        ItoaRoundTrip(i);
        IndexHasNoSlash(Itoa(i));
      case Obj(fields) =>
        var key := SortedSet(fields.Keys)[i];
        assert key in SortedSet(fields.Keys);
        EscapeRoundTrip(key);
        WellFormedHasNoSlash(Escape(key));
    }
  }

  lemma IndexHasNoSlash(token: string)
    requires IsIndex(token)
    ensures '/' !in token
  {
  }

  lemma MemberIsChild(j: Json, token: string) returns (i: nat)
    requires Member(j, token).Some?
    ensures i < |Children(j)| && Children(j)[i] == (token, Member(j, token).value)
  {
    match j {
      case Arr(_) =>
        i := Value(token);
        IndexRoundTrip(token);
      case Obj(fields) =>
        var key, keys := Unescape(token), SortedSet(fields.Keys);
        assert key in keys;
        i :| 0 <= i < |keys| && keys[i] == key;
        UnescapeRoundTrip(token);
    }
  }

  lemma TokensDiffer(j: Json, i: nat, k: nat)
    requires i < k < |Children(j)|
    ensures Children(j)[i].0 != Children(j)[k].0
  {
    match j {
      case Arr(_) =>
        ItoaRoundTrip(i);
        ItoaRoundTrip(k);
      case Obj(fields) =>
        var keys := SortedSet(fields.Keys);
        BeforeIsTotal(keys[i], keys[k]);
        EscapeRoundTrip(keys[i]);
        EscapeRoundTrip(keys[k]);
    }
  }

  // ---- The round trip ---------------------------------------------------------------

  /** The source addresses that leaf of the tree, from the path on. */
  ghost predicate Addresses(s: Source, ref: ResourceRef, path: string, j: Json, q: string) {
    s == FieldSource(ref, path + q, s.value) && path + q != "" && Evaluate(j, q) == Some(Leaf(s.value))
  }

  lemma EvaluatedIsTail(j: Json, q: string)
    requires Evaluate(j, q).Some?
    ensures IsTail(q)
  {
  }

  lemma AddressesChild(s: Source, ref: ResourceRef, path: string, j: Json, i: nat, q: string)
    requires i < |Children(j)| && Addresses(s, ref, path + "/" + Children(j)[i].0, Children(j)[i].1, q)
    ensures Addresses(s, ref, path, j, "/" + Children(j)[i].0 + q)
  {
    hide Children, Member, Evaluate, FieldSource, IsTail;
    var token, child := Children(j)[i].0, Children(j)[i].1;
    ChildIsMember(j, i);
    EvaluatedIsTail(child, q);
    EvaluateStep(j, token, q);
    assert path + "/" + token + q == path + ("/" + token + q);
  }

  /** Evaluating an emitted path gives back the leaf it was emitted for. */
  lemma {:induction false} EmittedEvaluates(ref: ResourceRef, path: string, j: Json, s: Source) returns (q: string)
    requires s in Flat(ref, path, j)
    ensures Addresses(s, ref, path, j, q)
    decreases j, 1, 0
  {
    if j.Leaf? {
      q := "";
      assert path + q == path;
    } else {
      var i;
      i, q := MemberEmittedEvaluates(ref, path, j, |Children(j)|, s);
    }
  }

  lemma {:induction false} MemberEmittedEvaluates(ref: ResourceRef, path: string, j: Json, n: nat, s: Source)
    returns (i: nat, q: string)
    requires n <= |Children(j)| && s in FlatMembers(ref, path, j, n)
    ensures i < n
    ensures exists t :: q == "/" + Children(j)[i].0 + t && IsTail(t) && Addresses(s, ref, path, j, q)
    decreases j, 0, n
  {
    hide Children, Member, Evaluate, Flat, FieldSource, IsTail;
    var child := Children(j)[n - 1];
    if s in Flat(ref, path + "/" + child.0, child.1) {
      var t := EmittedEvaluates(ref, path + "/" + child.0, child.1, s);
      EvaluatedIsTail(child.1, t);
      AddressesChild(s, ref, path, j, n - 1, t);
      i, q := n - 1, "/" + child.0 + t;
    } else {
      i, q := MemberEmittedEvaluates(ref, path, j, n - 1, s);
    }
  }

  /** Every pointer that evaluates to a leaf is emitted, with that leaf's value. */
  lemma {:induction false} LeavesAreEmitted(ref: ResourceRef, path: string, j: Json, q: string, v: string)
    requires Evaluate(j, q) == Some(Leaf(v)) && path + q != ""
    ensures FieldSource(ref, path + q, v) in Flat(ref, path, j)
    decreases |q|
  {
    hide Flat, FlatMembers, FieldSource, Member, Children;
    if q == "" {
      assert path + q == path;
      LeafIsEmitted(ref, path, v);
    } else {
      var token, rest := FirstToken(j, q);
      hide Evaluate;
      var i := MemberIsChild(j, token);
      assert path + q == path + "/" + token + rest;
      LeavesAreEmitted(ref, path + "/" + token, Member(j, token).value, rest, v);
      MembersInclude(ref, path, j, |Children(j)|, i, FieldSource(ref, path + q, v));
      FlatOfContainer(ref, path, j);
    }
  }

  lemma LeafIsEmitted(ref: ResourceRef, path: string, v: string)
    requires path != ""
    ensures FieldSource(ref, path, v) in Flat(ref, path, Leaf(v))
  {
  }

  lemma FlatOfContainer(ref: ResourceRef, path: string, j: Json)
    requires !j.Leaf?
    ensures Flat(ref, path, j) == FlatMembers(ref, path, j, |Children(j)|)
  {
  }

  lemma FirstToken(j: Json, q: string) returns (token: string, rest: string)
    requires q != "" && Evaluate(j, q).Some?
    ensures q == "/" + token + rest && |rest| < |q| && !j.Leaf?
    ensures Member(j, token).Some? && Evaluate(Member(j, token).value, rest) == Evaluate(j, q)
  {
    hide Member, TokenEnd;
    var n := 1 + TokenEnd(q[1..]);
    token, rest := q[1..n], q[n..];
  }

  lemma {:induction false} MembersInclude(ref: ResourceRef, path: string, j: Json, n: nat, i: nat, s: Source)
    requires i < n <= |Children(j)|
    requires s in Flat(ref, path + "/" + Children(j)[i].0, Children(j)[i].1)
    ensures s in FlatMembers(ref, path, j, n)
    decreases n
  {
    hide Flat, Children;
    if i < n - 1 {
      MembersInclude(ref, path, j, n - 1, i, s);
    }
  }

  // ---- No path twice ----------------------------------------------------------------

  ghost predicate PathsDiffer(sources: seq<Source>) {
    forall i, k :: 0 <= i < k < |sources| ==> sources[i].path != sources[k].path
  }

  lemma BranchesDiffer(path: string, a: string, b: string, t: string, u: string)
    requires '/' !in a && '/' !in b && a != b && IsTail(t) && IsTail(u)
    ensures path + ("/" + a + t) != path + ("/" + b + u)
  {
    TokenEnds(a, t);
    TokenEnds(b, u);
    var p, q := path + ("/" + a + t), path + ("/" + b + u);
    assert p[|path| + 1..] == a + t && q[|path| + 1..] == b + u;
    assert (a + t)[..|a|] == a && (b + u)[..|b|] == b;
  }

  lemma {:induction false} FlatPathsDiffer(ref: ResourceRef, path: string, j: Json)
    ensures PathsDiffer(Flat(ref, path, j))
    decreases j, 1, 0
  {
    if !j.Leaf? {
      MemberPathsDiffer(ref, path, j, |Children(j)|);
    }
  }

  lemma {:induction false} MemberPathsDiffer(ref: ResourceRef, path: string, j: Json, n: nat)
    requires n <= |Children(j)|
    ensures PathsDiffer(FlatMembers(ref, path, j, n))
    decreases j, 0, n
  {
    hide Children, Flat, PathsDiffer;
    if n == 0 {
      NoPaths();
    } else {
      var child := Children(j)[n - 1];
      MemberPathsDiffer(ref, path, j, n - 1);
      FlatPathsDiffer(ref, path + "/" + child.0, child.1);
      var front, last := FlatMembers(ref, path, j, n - 1), Flat(ref, path + "/" + child.0, child.1);
      forall a, b | a in front && b in last
        ensures a.path != b.path
      {
        SiblingPathsDiffer(ref, path, j, n - 1, a, b);
      }
      JoinedPathsDiffer(front, last);
    }
  }

  lemma NoPaths()
    ensures PathsDiffer([])
  {
  }

  lemma JoinedPathsDiffer(a: seq<Source>, b: seq<Source>)
    requires PathsDiffer(a) && PathsDiffer(b) && forall x, y :: x in a && y in b ==> x.path != y.path
    ensures PathsDiffer(a + b)
  {
    forall i, k | 0 <= i < k < |a + b|
      ensures (a + b)[i].path != (a + b)[k].path
    {
      if i < |a| <= k {
        assert a[i] in a && b[k - |a|] in b;
      }
    }
  }

  lemma SiblingPathsDiffer(ref: ResourceRef, path: string, j: Json, n: nat, a: Source, b: Source)
    requires n < |Children(j)| && a in FlatMembers(ref, path, j, n)
    requires b in Flat(ref, path + "/" + Children(j)[n].0, Children(j)[n].1)
    ensures a.path != b.path
  {
    hide Flat, FlatMembers, Member, Children, Evaluate;
    var token, child := Children(j)[n].0, Children(j)[n].1;
    var i, q := MemberEmittedEvaluates(ref, path, j, n, a);
    var u := EmittedEvaluates(ref, path + "/" + token, child, b);
    var t :| q == "/" + Children(j)[i].0 + t && IsTail(t);
    EvaluatedIsTail(child, u);
    ChildIsMember(j, i);
    ChildIsMember(j, n);
    TokensDiffer(j, i, n);
    BranchesDiffer(path, Children(j)[i].0, token, t, u);
    assert path + "/" + token + u == path + ("/" + token + u);
  }

  /** Flattening a tree emits a source for a path and value exactly when that path, as a JSON
      Pointer, evaluates to that leaf; and no path twice. */
  lemma FlatteningRoundTrip(ref: ResourceRef, j: Json)
    ensures PathsDiffer(Flat(ref, "", j))
    ensures forall s :: s in Flat(ref, "", j) ==> s == FieldSource(ref, s.path, s.value)
    ensures forall p, v :: p != "" ==> (FieldSource(ref, p, v) in Flat(ref, "", j) <==> Evaluate(j, p) == Some(Leaf(v)))
  {
    FlatPathsDiffer(ref, "", j);
    forall s | s in Flat(ref, "", j)
      ensures s == FieldSource(ref, s.path, s.value) && Evaluate(j, s.path) == Some(Leaf(s.value))
    {
      var q := EmittedEvaluates(ref, "", j, s);
      assert "" + q == q;
    }
    forall p, v | p != "" && Evaluate(j, p) == Some(Leaf(v))
      ensures FieldSource(ref, p, v) in Flat(ref, "", j)
    {
      assert "" + p == p;
      LeavesAreEmitted(ref, "", j, p, v);
    }
  }

  lemma NoMembers(ref: ResourceRef, path: string, j: Json)
    ensures FlatMembers(ref, path, j, 0) == []
  {
  }

  lemma OneMore(ref: ResourceRef, path: string, j: Json, n: nat)
    requires n < |Children(j)|
    ensures FlatMembers(ref, path, j, n + 1)
         == FlatMembers(ref, path, j, n) + Flat(ref, path + "/" + Children(j)[n].0, Children(j)[n].1)
  {
  }

  // ---- The collector ----------------------------------------------------------------

  /** The slice that flattening appends to. */
  class Collector {
    var out: seq<Source>

    constructor ()
      ensures out == []
    {
      out := [];
    }

    method FlattenFields(ref: ResourceRef, path: string, j: Json)
      modifies this
      ensures out == old(out) + Flat(ref, path, j)
      decreases j
    {
      hide Escape, Itoa, SortedSet, FieldSource, FlatMembers;
      ghost var before := out;
      NoMembers(ref, path, j);
      match j {
        case Obj(fields) =>
          hide Flat;
          FlatOfContainer(ref, path, j);
          var keys := Sorted(fields.Keys);
          assert forall k :: 0 <= k < |keys| ==> keys[k] in keys;
          for i := 0 to |keys|
            invariant out == before + FlatMembers(ref, path, j, i)
          {
            OneMore(ref, path, j, i);
            FlattenFields(ref, path + "/" + Escape(keys[i]), fields[keys[i]]);
          }
        case Arr(items) =>
          hide Flat;
          FlatOfContainer(ref, path, j);
          for i := 0 to |items|
            invariant out == before + FlatMembers(ref, path, j, i)
          {
            OneMore(ref, path, j, i);
            FlattenFields(ref, path + "/" + Itoa(i), items[i]);
          }
        case Leaf(value) =>
          if path != "" {
            out := out + [FieldSource(ref, path, value)];
          }
      }
    }
  }

  // ---- Dropping repeated ids --------------------------------------------------------

  function IdsIn(sources: seq<Source>): set<SourceId> {
    set s | s in sources :: s.id
  }

  /** The first source of each id, in order. */
  function Deduped(sources: seq<Source>): seq<Source> {
    if sources == [] then []
    else
      var front, last := sources[..|sources| - 1], sources[|sources| - 1];
      Deduped(front) + if last.id in IdsIn(front) then [] else [last]
  }

  predicate IdsDiffer(sources: seq<Source>) {
    forall i, k :: 0 <= i < k < |sources| ==> sources[i].id != sources[k].id
  }

  lemma IdsAdd(sources: seq<Source>, s: Source)
    ensures IdsIn(sources + [s]) == IdsIn(sources) + {s.id}
  {
    assert forall x :: x in sources + [s] <==> x in sources || x == s;
  }

  method DedupeSources(sources: seq<Source>) returns (out: seq<Source>)
    ensures out == Deduped(sources)
  {
    var seen: set<SourceId> := {};
    out := [];
    for i := 0 to |sources|
      invariant out == Deduped(sources[..i]) && seen == IdsIn(sources[..i])
    {
      assert sources[..i + 1] == sources[..i] + [sources[i]];
      IdsAdd(sources[..i], sources[i]);
      if sources[i].id !in seen {
        seen := seen + {sources[i].id};
        out := out + [sources[i]];
      }
    }
    assert sources[..|sources|] == sources;
  }

  /** A deduplicated catalog names each of its ids once and loses none; one without
      repetitions is kept whole. */
  lemma {:induction false} DedupedNamesEachOnce(sources: seq<Source>)
    ensures IdsIn(Deduped(sources)) == IdsIn(sources) && IdsDiffer(Deduped(sources))
    ensures IdsDiffer(sources) <==> Deduped(sources) == sources
    ensures |Deduped(sources)| <= |sources|
  {
    if sources != [] {
      var front, last := sources[..|sources| - 1], sources[|sources| - 1];
      assert sources == front + [last];
      DedupedNamesEachOnce(front);
      IdsAdd(front, last);
      IdsAdd(Deduped(front), last);
      OneMoreId(front, last);
      OneMoreId(Deduped(front), last);
    }
  }

  lemma OneMoreId(sources: seq<Source>, s: Source)
    ensures IdsDiffer(sources + [s]) <==> IdsDiffer(sources) && s.id !in IdsIn(sources)
  {
    var all := sources + [s];
    if IdsDiffer(all) {
      forall x | x in sources
        ensures x.id != s.id
      {
        var i :| 0 <= i < |sources| && sources[i] == x;
        assert all[i] == x && all[|sources|] == s;
      }
      forall i, k | 0 <= i < k < |sources|
        ensures sources[i].id != sources[k].id
      {
        assert all[i] == sources[i] && all[k] == sources[k];
      }
    }
  }

  // ---- When deduplication loses a leaf ------------------------------------------------

  /** The id text joins path and value with a bar, so a path that goes on with a bar where
      another stops can take the rest from that one's value. */
  predicate Runs(a: Source, b: Source) {
    |a.path| < |b.path| && b.path[..|a.path|] == a.path && b.path[|a.path|] == '|'
    && a.value == b.path[|a.path| + 1..] + "|" + b.value
  }

  lemma JoinSplits(p: string, v: string, q: string, w: string)
    requires p + "|" + v == q + "|" + w && |p| < |q|
    ensures q[..|p|] == p && q[|p|] == '|' && v == q[|p| + 1..] + "|" + w
  {
    var s := p + "|" + v;
    assert s[..|p|] == p && s[|p|] == '|' && s[|p| + 1..] == v;
    assert s[..|q|] == q && s[|q|..] == "|" + w;
    assert s[|p| + 1..] == s[|p| + 1..|q|] + s[|q|..];
  }

  lemma JoinOfRun(p: string, v: string, q: string, w: string)
    requires |p| < |q| && q[..|p|] == p && q[|p|] == '|' && v == q[|p| + 1..] + "|" + w
    ensures p + "|" + v == q + "|" + w
  {
    assert q == p + "|" + q[|p| + 1..];
  }

  lemma SameIdExactly(ref: ResourceRef, a: Source, b: Source)
    requires a == FieldSource(ref, a.path, a.value) && b == FieldSource(ref, b.path, b.value) && a.path != b.path
    ensures a.id == b.id <==> Runs(a, b) || Runs(b, a)
  {
    var head, x, y := Prefix("field", ref), a.path + "|" + a.value, b.path + "|" + b.value;
    assert (head + x)[|head|..] == x && (head + y)[|head|..] == y;
    assert x[..|a.path|] == a.path && y[..|b.path|] == b.path;
    if x == y {
      if |a.path| < |b.path| {
        JoinSplits(a.path, a.value, b.path, b.value);
      } else if |b.path| < |a.path| {
        JoinSplits(b.path, b.value, a.path, a.value);
      }
    }
    if Runs(a, b) {
      JoinOfRun(a.path, a.value, b.path, b.value);
    } else if Runs(b, a) {
      JoinOfRun(b.path, b.value, a.path, a.value);
    }
  }

  /** No bar in the parts of a resource's name. */
  predicate PlainRef(ref: ResourceRef) {
    '|' !in ref.apiGroup && '|' !in ref.kind && '|' !in ref.namespace && '|' !in ref.name
  }

  lemma PrefixIdentifies(k: string, a: ResourceRef, x: string, m: string, b: ResourceRef, y: string)
    requires '|' !in k && '|' !in m && PlainRef(a) && PlainRef(b) && Prefix(k, a) + x == Prefix(m, b) + y
    ensures k == m && a == b && x == y
  {
    assert Prefix(k, a) + x == k + "|" + (a.apiGroup + "|" + (a.kind + "|" + (a.namespace + "|" + (a.name + "|" + x))));
    assert Prefix(m, b) + y == m + "|" + (b.apiGroup + "|" + (b.kind + "|" + (b.namespace + "|" + (b.name + "|" + y))));
    hide Prefix;
    SplitAtFirst('|', k, m, a.apiGroup + "|" + (a.kind + "|" + (a.namespace + "|" + (a.name + "|" + x))),
                 b.apiGroup + "|" + (b.kind + "|" + (b.namespace + "|" + (b.name + "|" + y))));
    SplitAtFirst('|', a.apiGroup, b.apiGroup, a.kind + "|" + (a.namespace + "|" + (a.name + "|" + x)),
                 b.kind + "|" + (b.namespace + "|" + (b.name + "|" + y)));
    SplitAtFirst('|', a.kind, b.kind, a.namespace + "|" + (a.name + "|" + x), b.namespace + "|" + (b.name + "|" + y));
    SplitAtFirst('|', a.namespace, b.namespace, a.name + "|" + x, b.name + "|" + y);
    SplitAtFirst('|', a.name, b.name, x, y);
  }

  /** Ids of different resources, or of different kinds of evidence, never meet; and where paths are free
      of bars too, an id determines everything it was made of. */
  lemma IdsIdentify(k: string, a: ResourceRef, p: string, v: string, m: string, b: ResourceRef, q: string, w: string)
    requires '|' !in k && '|' !in m && PlainRef(a) && PlainRef(b)
    ensures IdOf(k, a, p, v) == IdOf(m, b, q, w) ==> k == m && a == b
    ensures '|' !in p && '|' !in q ==> (IdOf(k, a, p, v) == IdOf(m, b, q, w) <==> k == m && a == b && p == q && v == w)
  {
    if IdOf(k, a, p, v) == IdOf(m, b, q, w) {
      PrefixIdentifies(k, a, p + "|" + v, m, b, q + "|" + w);
      if '|' !in p && '|' !in q {
        SplitAtFirst('|', p, q, v, w);
      }
    }
  }

  /** Deduplication keeps every leaf of a flattened tree exactly when no leaf's path runs into
      another's. */
  lemma DedupeKeepsLeavesExactly(ref: ResourceRef, j: Json)
    ensures var flat := Flat(ref, "", j);
            Deduped(flat) == flat <==> forall a, b :: a in flat && b in flat ==> !Runs(a, b)
  {
    FlatteningRoundTrip(ref, j);
    var flat := Flat(ref, "", j);
    DedupedNamesEachOnce(flat);
    hide Flat, FieldSource, Runs, Deduped;
    forall i, k | 0 <= i < k < |flat|
      ensures flat[i].id == flat[k].id <==> Runs(flat[i], flat[k]) || Runs(flat[k], flat[i])
    {
      assert flat[i] in flat && flat[k] in flat;
      SameIdExactly(ref, flat[i], flat[k]);
    }
    if !IdsDiffer(flat) {
      var i, k :| 0 <= i < k < |flat| && flat[i].id == flat[k].id;
      assert flat[i] in flat && flat[k] in flat;
    } else {
      forall a, b | a in flat && b in flat
        ensures !Runs(a, b)
      {
        var i :| 0 <= i < |flat| && flat[i] == a;
        var k :| 0 <= k < |flat| && flat[k] == b;
        if i == k {
          NoSelfRun(a);
        }
      }
    }
  }

  lemma NoSelfRun(a: Source)
    ensures !Runs(a, a)
  {
  }

  /** No key of the tree contains a bar. */
  predicate BarFree(j: Json) {
    match j
    case Obj(fields) => forall k :: k in fields ==> '|' !in k && BarFree(fields[k])
    case Arr(items) => forall i :: 0 <= i < |items| ==> BarFree(items[i])
    case Leaf(_) => true
  }

  lemma {:induction false} EscapeAddsNoBar(s: string)
    requires '|' !in s
    ensures '|' !in Escape(s)
  {
    if s != "" {
      EscapeStep(s);
      EscapeAddsNoBar(s[1..]);
    }
  }

  lemma ChildIsBarFree(j: Json, i: nat)
    requires BarFree(j) && i < |Children(j)|
    ensures '|' !in Children(j)[i].0 && BarFree(Children(j)[i].1)
  {
    match j {
      case Arr(_) =>
        ItoaRoundTrip(i);
        assert '|' !in "0123456789";
      case Obj(fields) =>
        var key := SortedSet(fields.Keys)[i];
        assert key in SortedSet(fields.Keys);
        EscapeAddsNoBar(key);
    }
  }

  lemma {:induction false} FlatIsBarFree(ref: ResourceRef, path: string, j: Json, s: Source)
    requires BarFree(j) && '|' !in path && s in Flat(ref, path, j)
    ensures '|' !in s.path
    decreases j, 1, 0
  {
    if !j.Leaf? {
      MembersAreBarFree(ref, path, j, |Children(j)|, s);
    }
  }

  lemma {:induction false} MembersAreBarFree(ref: ResourceRef, path: string, j: Json, n: nat, s: Source)
    requires BarFree(j) && '|' !in path && n <= |Children(j)| && s in FlatMembers(ref, path, j, n)
    ensures '|' !in s.path
    decreases j, 0, n
  {
    hide Children, BarFree, Flat;
    var child := Children(j)[n - 1];
    ChildIsBarFree(j, n - 1);
    if s in Flat(ref, path + "/" + child.0, child.1) {
      FlatIsBarFree(ref, path + "/" + child.0, child.1, s);
    } else {
      MembersAreBarFree(ref, path, j, n - 1, s);
    }
  }

  /** Without a bar in any key every leaf is kept. */
  lemma BarFreeKeepsLeaves(ref: ResourceRef, j: Json)
    requires BarFree(j)
    ensures Deduped(Flat(ref, "", j)) == Flat(ref, "", j)
  {
    DedupeKeepsLeavesExactly(ref, j);
    hide Flat, Deduped, BarFree;
    forall a, b | a in Flat(ref, "", j) && b in Flat(ref, "", j)
      ensures !Runs(a, b)
    {
      FlatIsBarFree(ref, "", j, b);
    }
  }

  /** Whenever a key goes on with a bar where a sibling stops and the values fit, one of the
      two leaves is dropped. */
  lemma BarInKeyDropsLeaf(ref: ResourceRef, fields: map<string, Json>, key: string, more: string, value: string)
    requires '~' !in key + more && '/' !in key + more
    requires key in fields && fields[key] == Leaf(more + "|" + value)
    requires key + "|" + more in fields && fields[key + "|" + more] == Leaf(value)
    ensures Deduped(Flat(ref, "", Obj(fields))) != Flat(ref, "", Obj(fields))
  {
    var long := key + "|" + more;
    var j := Obj(fields);
    BarStaysPlain(key, more);
    hide *;
    MemberIsEmitted(ref, fields, key, more + "|" + value);
    MemberIsEmitted(ref, fields, long, value);
    RunOfBar(ref, key, more, value);
    DedupeKeepsLeavesExactly(ref, j);
  }

  lemma BarStaysPlain(key: string, more: string)
    requires '~' !in key + more && '/' !in key + more
    ensures '~' !in key && '/' !in key && '~' !in key + "|" + more && '/' !in key + "|" + more
  {
    assert forall c :: c in key + more <==> c in key || c in more;
  }

  lemma MemberIsEmitted(ref: ResourceRef, fields: map<string, Json>, key: string, v: string)
    requires '~' !in key && '/' !in key && key in fields && fields[key] == Leaf(v)
    ensures FieldSource(ref, "/" + key, v) in Flat(ref, "", Obj(fields))
  {
    EvaluateKey(fields, key);
    LeavesAreEmitted(ref, "", Obj(fields), "/" + key, v);
    assert "" + ("/" + key) == "/" + key;
  }

  lemma RunOfBar(ref: ResourceRef, key: string, more: string, value: string)
    ensures Runs(FieldSource(ref, "/" + key, more + "|" + value), FieldSource(ref, "/" + (key + "|" + more), value))
  {
    var p, q := "/" + key, "/" + (key + "|" + more);
    assert q[..|p|] == p && q[|p| + 1..] == more;
  }

  lemma DedupeCanDropALeaf(ref: ResourceRef)
    ensures exists j :: Deduped(Flat(ref, "", j)) != Flat(ref, "", j)
  {
    var fields := map["a" := Leaf("b|c"), "a|b" := Leaf("c")];
    assert "a" + "|" + "b" == "a|b" && "b" + "|" + "c" == "b|c";
    hide *;
    BarInKeyDropsLeaf(ref, fields, "a", "b", "c");
  }
}
