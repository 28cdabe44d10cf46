/** The three-pass selection of Services and workloads around a root. */
module Discovery {
  import opened Order
  import opened Selectors

  datatype Service = Service(name: string, selector: Labels)

  /** key is the lower-case kind, a slash, and the name. */
  datatype Workload = Workload(key: string, templateLabels: Labels)

  datatype Selection = Selection(services: set<string>, workloads: set<string>)

  const POSSIBLE_THRESHOLD := 60

  ghost predicate Compatible(s: Service, w: Workload) {
    Score(s.selector, w.templateLabels) >= POSSIBLE_THRESHOLD && MatchedKeys(s.selector, w.templateLabels) != {}
  }

  ghost function Targets(s: Service, workloads: seq<Workload>): set<string> {
    set w | w in workloads && Compatible(s, w) :: w.key
  }

  /** A pod template is compatible when it matches some of the selector and sixty percent of its weight. */
  lemma CompatibleExactly(s: Service, w: Workload)
    ensures Compatible(s, w) <==>
              && Percent(s.selector, w.templateLabels) >= 60
              && exists k :: k in s.selector && k in w.templateLabels && w.templateLabels[k] == s.selector[k]
  {
    ScoreIsWeighed(s.selector, w.templateLabels);
    hide Score, Percent;
    if k :| k in s.selector && k in w.templateLabels && w.templateLabels[k] == s.selector[k] {
      assert k in MatchedKeys(s.selector, w.templateLabels);
    }
  }

  /** One Service: if selected it pulls in its targets, then any selected target pulls it in. */
  ghost function Visit(sel: Selection, s: Service, workloads: seq<Workload>): Selection {
    var ws := if s.name in sel.services then sel.workloads + Targets(s, workloads) else sel.workloads;
    Selection(if Targets(s, workloads) !! ws then sel.services else sel.services + {s.name}, ws)
  }

  ghost function Pass(sel: Selection, services: seq<Service>, workloads: seq<Workload>): Selection {
    if services == [] then sel
    else Visit(Pass(sel, services[..|services| - 1], workloads), services[|services| - 1], workloads)
  }

  ghost function Passes(k: nat, seeds: Selection, services: seq<Service>, workloads: seq<Workload>): Selection {
    if k == 0 then seeds else Pass(Passes(k - 1, seeds, services, workloads), services, workloads)
  }

  /** The selectedServices and selectedWorkloads maps. */
  class Discoverer {
    var selectedServices: set<string>
    var selectedWorkloads: set<string>

    ghost function Selected(): Selection
      reads this
    {
      Selection(selectedServices, selectedWorkloads)
    }

    constructor (seeds: Selection)
      ensures Selected() == seeds
    {
      selectedServices, selectedWorkloads := seeds.services, seeds.workloads;
    }

    method IsCompatible(s: Service, w: Workload) returns (ok: bool)
      ensures ok <==> Compatible(s, w)
    {
      var score, matched, _ := SelectorInferenceScore(s.selector, w.templateLabels);
      assert matched.Keys == MatchedKeys(s.selector, w.templateLabels);
      ok := score >= POSSIBLE_THRESHOLD && matched != map[];
    }

    method VisitService(s: Service, workloads: seq<Workload>)
      modifies this
      ensures Selected() == Visit(old(Selected()), s, workloads)
    {
      hide Compatible;
      if s.name in selectedServices {
        for i := 0 to |workloads|
          invariant selectedServices == old(selectedServices)
          invariant selectedWorkloads == old(selectedWorkloads) + Targets(s, workloads[..i])
        {
          assert workloads[..i + 1] == workloads[..i] + [workloads[i]];
          var ok := IsCompatible(s, workloads[i]);
          if ok {
            selectedWorkloads := selectedWorkloads + {workloads[i].key};
          }
        }
        assert workloads[..|workloads|] == workloads;
      }
      ghost var ws := selectedWorkloads;
      for i := 0 to |workloads|
        invariant selectedWorkloads == ws
        invariant selectedServices == if Targets(s, workloads[..i]) !! ws then old(selectedServices) else old(selectedServices) + {s.name}
      {
        assert workloads[..i + 1] == workloads[..i] + [workloads[i]];
        var ok := IsCompatible(s, workloads[i]);
        if workloads[i].key in selectedWorkloads && ok {
          assert workloads[i].key in Targets(s, workloads[..i + 1]);
          selectedServices := selectedServices + {s.name};
        }
      }
      assert workloads[..|workloads|] == workloads;
    }

    method SelectConnected(services: seq<Service>, workloads: seq<Workload>)
      modifies this
      ensures Selected() == Passes(3, old(Selected()), services, workloads)
    {
      ghost var seeds := Selected();
      for pass := 0 to 3
        invariant Selected() == Passes(pass, seeds, services, workloads)
      {
        ghost var start := Selected();
        for i := 0 to |services|
          invariant Selected() == Pass(start, services[..i], workloads)
        {
          assert services[..i + 1][..i] == services[..i];
          VisitService(services[i], workloads);
        }
        assert services[..|services|] == services;
      }
    }
  }

  // ---- The compatibility graph ------------------------------------------------------

  ghost predicate Within(a: Selection, b: Selection) {
    a.services <= b.services && a.workloads <= b.workloads
  }

  /** Everything one hop away, together with the selection itself. */
  ghost function Grown(sel: Selection, services: seq<Service>, workloads: seq<Workload>): Selection {
    Selection(sel.services + (set s | s in services && !(Targets(s, workloads) !! sel.workloads) :: s.name),
              sel.workloads + (set s, key | s in services && s.name in sel.services && key in Targets(s, workloads) :: key))
  }

  ghost function Ball(k: nat, seeds: Selection, services: seq<Service>, workloads: seq<Workload>): Selection {
    if k == 0 then seeds else Grown(Ball(k - 1, seeds, services, workloads), services, workloads)
  }

  ghost predicate Closed(sel: Selection, services: seq<Service>, workloads: seq<Workload>) {
    forall s :: s in services ==>
      (s.name in sel.services ==> Targets(s, workloads) <= sel.workloads)
      && (s.name in sel.services || Targets(s, workloads) !! sel.workloads)
  }

  ghost predicate LeastClosed(sel: Selection, seeds: Selection, services: seq<Service>, workloads: seq<Workload>) {
    && Within(seeds, sel) && Closed(sel, services, workloads)
    && forall c :: Within(seeds, c) && Closed(c, services, workloads) ==> Within(sel, c)
  }

  /** A pass keeps what is selected and adds at least every neighbour of it. */
  lemma {:induction false} PassReaches(sel: Selection, services: seq<Service>, workloads: seq<Workload>)
    ensures Within(sel, Pass(sel, services, workloads))
    ensures Within(Grown(sel, services, workloads), Pass(sel, services, workloads))
  {
    if services != [] {
      var front, last := services[..|services| - 1], services[|services| - 1];
      assert services == front + [last];
      PassReaches(sel, front, workloads);
    }
  }

  /** A pass stays inside any closed selection. */
  lemma {:induction false} PassStaysInside(sel: Selection, c: Selection, services: seq<Service>,
          workloads: seq<Workload>, k: nat)
    requires Within(sel, c) && Closed(c, services, workloads) && k <= |services|
    ensures Within(Pass(sel, services[..k], workloads), c)
  {
    if k > 0 {
      PassStaysInside(sel, c, services, workloads, k - 1);
      assert services[..k][..k - 1] == services[..k - 1];
      assert services[k - 1] in services;
    }
  }

  /** After k passes the selection contains the k-hop ball around the seeds and lies in
      every closed selection that contains the seeds. */
  lemma {:induction false} PassesAreBetween(k: nat, seeds: Selection, services: seq<Service>, workloads: seq<Workload>)
    ensures Within(seeds, Passes(k, seeds, services, workloads))
    ensures Within(Ball(k, seeds, services, workloads), Passes(k, seeds, services, workloads))
    ensures forall c :: Within(seeds, c) && Closed(c, services, workloads) ==> Within(Passes(k, seeds, services, workloads), c)
  {
    hide Pass, Grown, Within, Closed;
    WithinIsOrder();
    if k > 0 {
      PassesAreBetween(k - 1, seeds, services, workloads);
      var before := Passes(k - 1, seeds, services, workloads);
      PassReaches(before, services, workloads);
      GrownIsMonotone(Ball(k - 1, seeds, services, workloads), before, services, workloads);
      forall c | Within(seeds, c) && Closed(c, services, workloads)
        ensures Within(Passes(k, seeds, services, workloads), c)
      {
        PassStaysInside(before, c, services, workloads, |services|);
        assert services[..|services|] == services;
      }
    }
  }

  lemma WithinIsOrder()
    ensures forall a :: Within(a, a)
    ensures forall a, b, c :: Within(a, b) && Within(b, c) ==> Within(a, c)
  {
  }

  lemma GrownIsMonotone(a: Selection, b: Selection, services: seq<Service>, workloads: seq<Workload>)
    requires Within(a, b)
    ensures Within(Grown(a, services, workloads), Grown(b, services, workloads))
  {
  }

  lemma ClosedIffNotGrown(sel: Selection, services: seq<Service>, workloads: seq<Workload>)
    ensures Closed(sel, services, workloads) <==> Grown(sel, services, workloads) == sel
  {
    if Grown(sel, services, workloads) == sel {
      forall s | s in services
        ensures s.name in sel.services ==> Targets(s, workloads) <= sel.workloads
        ensures s.name in sel.services || Targets(s, workloads) !! sel.workloads
      {
        assert Targets(s, workloads) !! sel.workloads || s.name in Grown(sel, services, workloads).services;
        assert s.name in sel.services ==> forall key :: key in Targets(s, workloads) ==> key in Grown(sel, services, workloads).workloads;
      }
    }
  }

  /** The selection is the least fixed point exactly when one more pass adds nothing. */
  lemma FixedPointIsLeast(k: nat, seeds: Selection, services: seq<Service>, workloads: seq<Workload>)
    ensures Passes(k + 1, seeds, services, workloads) == Passes(k, seeds, services, workloads)
       <==> LeastClosed(Passes(k, seeds, services, workloads), seeds, services, workloads)
  {
    var sel := Passes(k, seeds, services, workloads);
    PassesAreBetween(k, seeds, services, workloads);
    PassReaches(sel, services, workloads);
    ClosedIffNotGrown(sel, services, workloads);
    if Closed(sel, services, workloads) {
      PassStaysInside(sel, sel, services, workloads, |services|);
      assert services[..|services|] == services;
    }
  }

  /** If nothing lies further than k hops from the seeds, k passes select exactly the least fixed
      point, in whatever order. */
  lemma BallIsEnough(k: nat, seeds: Selection, services: seq<Service>, workloads: seq<Workload>)
    requires Ball(k + 1, seeds, services, workloads) == Ball(k, seeds, services, workloads)
    ensures LeastClosed(Passes(k, seeds, services, workloads), seeds, services, workloads)
    ensures Passes(k, seeds, services, workloads) == Ball(k, seeds, services, workloads)
  {
    var ball := Ball(k, seeds, services, workloads);
    ClosedIffNotGrown(ball, services, workloads);
    PassesAreBetween(k, seeds, services, workloads);
    SeedsInBall(k, seeds, services, workloads);
  }

  lemma GrownKeeps(sel: Selection, services: seq<Service>, workloads: seq<Workload>)
    ensures Within(sel, Grown(sel, services, workloads))
  {
  }

  lemma {:induction false} SeedsInBall(k: nat, seeds: Selection, services: seq<Service>, workloads: seq<Workload>)
    ensures Within(seeds, Ball(k, seeds, services, workloads))
  {
    hide Grown;
    if k > 0 {
      SeedsInBall(k - 1, seeds, services, workloads);
      GrownKeeps(Ball(k - 1, seeds, services, workloads), services, workloads);
    }
  }

  // ---- Exactly when the passes are enough ----------------------------------------------

  predicate DistinctNames(services: seq<Service>) {
    forall i, j :: 0 <= i < j < |services| ==> services[i].name != services[j].name
  }

  /** Services outside the selection are listed before those inside it. */
  predicate OutsideFirst(services: seq<Service>, names: set<string>) {
    forall i, j :: 0 <= i < j < |services| && services[i].name in names ==> services[j].name in names
  }

  lemma GrownAdds(sel: Selection, front: seq<Service>, s: Service, workloads: seq<Workload>)
    ensures var grown := Grown(sel, front, workloads);
            Grown(sel, front + [s], workloads) ==
              Selection(if Targets(s, workloads) !! sel.workloads then grown.services else grown.services + {s.name},
                        if s.name in sel.services then grown.workloads + Targets(s, workloads) else grown.workloads)
  {
    hide Targets;
    assert forall x :: x in front + [s] <==> x in front || x == s;
  }

  /** Listed that way, one pass adds the direct neighbours of the selection and no more. */
  lemma {:induction false} PassIsGrown(sel: Selection, services: seq<Service>, workloads: seq<Workload>)
    requires DistinctNames(services) && OutsideFirst(services, sel.services)
    ensures Pass(sel, services, workloads) == Grown(sel, services, workloads)
  {
    hide Targets;
    if services == [] {
      assert Grown(sel, [], workloads) == sel;
    } else {
      var front, last := services[..|services| - 1], services[|services| - 1];
      assert services == front + [last];
      PassIsGrown(sel, front, workloads);
      GrownAdds(sel, front, last, workloads);
      if last.name !in sel.services {
        assert forall s :: s in front ==> s.name !in sel.services && s.name != last.name;
        assert Grown(sel, front, workloads).workloads == sel.workloads;
      }
    }
  }

  function Filter(services: seq<Service>, names: set<string>, inside: bool): seq<Service> {
    if services == [] then []
    else
      var last := services[|services| - 1];
      Filter(services[..|services| - 1], names, inside) + if (last.name in names) == inside then [last] else []
  }

  /** The same Services, those outside moved before those inside. */
  function Apart(services: seq<Service>, names: set<string>): seq<Service> {
    Filter(services, names, false) + Filter(services, names, true)
  }

  lemma {:induction false} FilterKeeps(services: seq<Service>, names: set<string>, inside: bool, more: set<string>)
    ensures forall s :: s in Filter(services, names, inside) <==> s in services && (s.name in names) == inside
    ensures OutsideFirst(services, more) ==> OutsideFirst(Filter(services, names, inside), more)
  {
    if services != [] {
      var front, last := services[..|services| - 1], services[|services| - 1];
      assert services == front + [last];
      FilterKeeps(front, names, inside, more);
      var kept := Filter(front, names, inside);
      if OutsideFirst(services, more) {
        forall i | 0 <= i < |kept| && kept[i].name in more
          ensures last.name in more
        {
          assert kept[i] in front;
          var k :| 0 <= k < |front| && front[k] == kept[i];
        }
      }
    }
  }

  lemma {:induction false} ApartIsPermutation(services: seq<Service>, names: set<string>)
    ensures multiset(Apart(services, names)) == multiset(services)
  {
    if services != [] {
      var front, last := services[..|services| - 1], services[|services| - 1];
      assert services == front + [last];
      ApartIsPermutation(front, names);
    }
  }

  lemma ApartPutsOutsideFirst(services: seq<Service>, names: set<string>, more: set<string>)
    requires names <= more && (names == more || OutsideFirst(services, more))
    ensures OutsideFirst(Apart(services, names), more)
  {
    FilterKeeps(services, names, false, more);
    FilterKeeps(services, names, true, more);
    var out, ins := Filter(services, names, false), Filter(services, names, true);
    forall i | 0 <= i < |ins|
      ensures ins[i].name in names
    {
      assert ins[i] in ins;
    }
    forall i | 0 <= i < |out|
      ensures out[i].name !in names
    {
      assert out[i] in out;
    }
  }

  /** Services listed by falling distance from the seeds, as far as the balls i to k - 1 tell. */
  ghost function Falling(i: nat, k: nat, seeds: Selection, services: seq<Service>, workloads: seq<Workload>): seq<Service>
    requires i <= k
    decreases k - i
  {
    if i == k then services
    else Apart(Falling(i + 1, k, seeds, services, workloads), Ball(i, seeds, services, workloads).services)
  }

  lemma {:induction false} BallsGrow(i: nat, j: nat, seeds: Selection, services: seq<Service>, workloads: seq<Workload>)
    requires i <= j
    ensures Within(Ball(i, seeds, services, workloads), Ball(j, seeds, services, workloads))
  {
    hide Grown;
    if i < j {
      BallsGrow(i, j - 1, seeds, services, workloads);
      GrownKeeps(Ball(j - 1, seeds, services, workloads), services, workloads);
    }
  }

  lemma {:induction false} FallingSeparates(i: nat, k: nat, seeds: Selection, services: seq<Service>, workloads: seq<Workload>)
    requires i <= k
    ensures multiset(Falling(i, k, seeds, services, workloads)) == multiset(services)
    ensures forall j :: i <= j < k ==>
              OutsideFirst(Falling(i, k, seeds, services, workloads), Ball(j, seeds, services, workloads).services)
    decreases k - i
  {
    hide *;
    FallingStep(i, k, seeds, services, workloads);
    if i < k {
      var next, names := Falling(i + 1, k, seeds, services, workloads), Ball(i, seeds, services, workloads).services;
      FallingSeparates(i + 1, k, seeds, services, workloads);
      ApartIsPermutation(next, names);
      ApartSeparates(i, k, seeds, services, workloads, next);
    }
  }

  lemma FallingStep(i: nat, k: nat, seeds: Selection, services: seq<Service>, workloads: seq<Workload>)
    requires i <= k
    ensures Falling(i, k, seeds, services, workloads) ==
              if i == k then services
              else Apart(Falling(i + 1, k, seeds, services, workloads), Ball(i, seeds, services, workloads).services)
  {
  }

  lemma ApartSeparates(i: nat, k: nat, seeds: Selection, services: seq<Service>, workloads: seq<Workload>, next: seq<Service>)
    requires forall j :: i < j < k ==> OutsideFirst(next, Ball(j, seeds, services, workloads).services)
    ensures forall j :: i <= j < k ==>
              OutsideFirst(Apart(next, Ball(i, seeds, services, workloads).services), Ball(j, seeds, services, workloads).services)
  {
    hide Apart, OutsideFirst, Ball;
    forall j | i <= j < k
      ensures OutsideFirst(Apart(next, Ball(i, seeds, services, workloads).services), Ball(j, seeds, services, workloads).services)
    {
      BallsGrow(i, j, seeds, services, workloads);
      ApartPutsOutsideFirst(next, Ball(i, seeds, services, workloads).services, Ball(j, seeds, services, workloads).services);
    }
  }

  lemma GrownIgnoresOrder(sel: Selection, a: seq<Service>, b: seq<Service>, workloads: seq<Workload>)
    requires forall s :: s in a <==> s in b
    ensures Grown(sel, a, workloads) == Grown(sel, b, workloads)
  {
    hide Targets;
    assert Grown(sel, a, workloads).services == Grown(sel, b, workloads).services;
    assert Grown(sel, a, workloads).workloads == Grown(sel, b, workloads).workloads;
  }

  lemma {:induction false} BallIgnoresOrder(k: nat, seeds: Selection, a: seq<Service>, b: seq<Service>, workloads: seq<Workload>)
    requires forall s :: s in a <==> s in b
    ensures Ball(k, seeds, a, workloads) == Ball(k, seeds, b, workloads)
    decreases k
  {
    BallStep(k, seeds, a, workloads);
    BallStep(k, seeds, b, workloads);
    hide *;
    if k > 0 {
      BallIgnoresOrder(k - 1, seeds, a, b, workloads);
      GrownIgnoresOrder(Ball(k - 1, seeds, a, workloads), a, b, workloads);
    }
  }

  lemma BallStep(k: nat, seeds: Selection, services: seq<Service>, workloads: seq<Workload>)
    ensures Ball(k, seeds, services, workloads) ==
              if k == 0 then seeds else Grown(Ball(k - 1, seeds, services, workloads), services, workloads)
  {
  }

  lemma {:induction false} PassesAreBall(k: nat, n: nat, seeds: Selection, services: seq<Service>, workloads: seq<Workload>)
    requires k <= n && DistinctNames(services)
    requires forall j :: 0 <= j < n ==> OutsideFirst(services, Ball(j, seeds, services, workloads).services)
    ensures Passes(k, seeds, services, workloads) == Ball(k, seeds, services, workloads)
  {
    hide Targets, Pass, Grown, OutsideFirst, DistinctNames;
    if k > 0 {
      PassesAreBall(k - 1, n, seeds, services, workloads);
      PassIsGrown(Ball(k - 1, seeds, services, workloads), services, workloads);
    }
  }

  lemma SameElements(a: seq<Service>, b: seq<Service>)
    requires multiset(a) == multiset(b)
    ensures (forall s :: s in a <==> s in b) && (DistinctNames(a) ==> DistinctNames(b))
  {
    assert forall s :: s in a <==> s in multiset(a);
    assert forall s :: s in b <==> s in multiset(b);
    if DistinctNames(a) {
      DistinctKeysSurvive(a, b, (s: Service) => s.name);
    }
  }

  lemma ClosedIgnoresOrder(sel: Selection, seeds: Selection, a: seq<Service>, b: seq<Service>, workloads: seq<Workload>)
    requires forall s :: s in a <==> s in b
    ensures LeastClosed(sel, seeds, a, workloads) <==> LeastClosed(sel, seeds, b, workloads)
  {
    hide Targets;
    assert forall c :: Closed(c, a, workloads) <==> Closed(c, b, workloads);
  }

  /** Some listing order makes k passes select no more than the k-hop ball. */
  lemma WorstOrder(k: nat, seeds: Selection, services: seq<Service>, workloads: seq<Workload>) returns (order: seq<Service>)
    requires DistinctNames(services)
    ensures multiset(order) == multiset(services)
    ensures Passes(k, seeds, order, workloads) == Ball(k, seeds, services, workloads)
  {
    order := Falling(0, k, seeds, services, workloads);
    FallingSeparates(0, k, seeds, services, workloads);
    SameElements(services, order);
    forall j: nat | j <= k
      ensures Ball(j, seeds, order, workloads) == Ball(j, seeds, services, workloads)
    {
      BallIgnoresOrder(j, seeds, order, services, workloads);
    }
    PassesAreBall(k, k, seeds, order, workloads);
  }

  /** k passes reach the least fixed point in every listing order exactly when nothing lies further
      than k hops from the seeds. */
  lemma PassesSufficeExactly(k: nat, seeds: Selection, services: seq<Service>, workloads: seq<Workload>)
    requires DistinctNames(services)
    ensures (forall order :: multiset(order) == multiset(services) ==>
               LeastClosed(Passes(k, seeds, order, workloads), seeds, services, workloads))
       <==> Ball(k + 1, seeds, services, workloads) == Ball(k, seeds, services, workloads)
  {
    if Ball(k + 1, seeds, services, workloads) == Ball(k, seeds, services, workloads) {
      forall order | multiset(order) == multiset(services)
        ensures LeastClosed(Passes(k, seeds, order, workloads), seeds, services, workloads)
      {
        SameElements(services, order);
        BallIgnoresOrder(k, seeds, order, services, workloads);
        BallIgnoresOrder(k + 1, seeds, order, services, workloads);
        BallIsEnough(k, seeds, order, workloads);
        ClosedIgnoresOrder(Passes(k, seeds, order, workloads), seeds, order, services, workloads);
      }
    } else {
      var order := WorstOrder(k, seeds, services, workloads);
      ClosedIffNotGrown(Ball(k, seeds, services, workloads), services, workloads);
    }
  }

  /** Three passes are a fixed point in every listing order exactly when nothing is more than three
      hops away. */
  lemma ThreePassesSufficeExactly(seeds: Selection, services: seq<Service>, workloads: seq<Workload>)
    requires DistinctNames(services)
    ensures (forall order :: multiset(order) == multiset(services) ==>
               LeastClosed(Passes(3, seeds, order, workloads), seeds, services, workloads))
       <==> Ball(4, seeds, services, workloads) == Ball(3, seeds, services, workloads)
  {
    PassesSufficeExactly(3, seeds, services, workloads);
  }

  // ---- Three passes are not always enough --------------------------------------------

  /** A one-label selector is compatible exactly with the workloads that carry its label. */
  lemma OneLabelCompatible(s: Service, key: string, w: Workload)
    requires s.selector == map[key := "1"]
    ensures Compatible(s, w) <==> key in w.templateLabels && w.templateLabels[key] == "1"
  {
    FullScoreIsExactMatch(s.selector, w.templateLabels);
    if key in w.templateLabels && w.templateLabels[key] == "1" {
      assert Lookup(w.templateLabels, key) == "1";
      assert s.selector != map[] by {
        assert key in s.selector;
      }
      assert key in MatchedKeys(s.selector, w.templateLabels);
    }
  }

  lemma PassOverThree(sel: Selection, a: Service, b: Service, c: Service, workloads: seq<Workload>)
    ensures Pass(sel, [a, b, c], workloads) == Visit(Visit(Visit(sel, a, workloads), b, workloads), c, workloads)
  {
    assert [a, b, c][..2] == [a, b] && [a, b][..1] == [a] && [a][..0] == [];
    assert Pass(sel, [a], workloads) == Visit(sel, a, workloads);
    assert Pass(sel, [a, b], workloads) == Visit(Visit(sel, a, workloads), b, workloads);
  }

  /** s1 - w1 - s2 - w2 - s3, listed away from s1. */
  const S1 := Service("s1", map["a" := "1"])
  const S2 := Service("s2", map["b" := "1"])
  const S3 := Service("s3", map["c" := "1"])
  const CHAIN := [Workload("w1", map["a" := "1", "b" := "1"]), Workload("w2", map["b" := "1", "c" := "1"])]

  lemma TargetsOfTwo(s: Service, key: string, x: Workload, y: Workload)
    requires s.selector == map[key := "1"]
    ensures Targets(s, [x, y]) ==
              (if key in x.templateLabels && x.templateLabels[key] == "1" then {x.key} else {}) +
              (if key in y.templateLabels && y.templateLabels[key] == "1" then {y.key} else {})
  {
    OneLabelCompatible(s, key, x);
    OneLabelCompatible(s, key, y);
    hide Compatible;
    var both := [x, y];
    assert both[0] in both && both[1] in both;
    assert forall w :: w in both ==> w == x || w == y;
  }

  lemma ChainTargets()
    ensures Targets(S1, CHAIN) == {"w1"} && Targets(S2, CHAIN) == {"w1", "w2"} && Targets(S3, CHAIN) == {"w2"}
  {
    hide Targets;
    TargetsOfTwo(S1, "a", CHAIN[0], CHAIN[1]);
    TargetsOfTwo(S2, "b", CHAIN[0], CHAIN[1]);
    TargetsOfTwo(S3, "c", CHAIN[0], CHAIN[1]);
    assert CHAIN == [CHAIN[0], CHAIN[1]];
  }

  /** The chain needs a fourth pass to reach its third Service. */
  lemma ThreePassesCanStopShort()
    ensures var seeds := Selection({"s1"}, {});
      "s3" !in Passes(3, seeds, [S3, S2, S1], CHAIN).services && "s3" in Passes(4, seeds, [S3, S2, S1], CHAIN).services
  {
    ChainTargets();
    hide Targets, Pass;
    var seeds := Selection({"s1"}, {});
    var p1, p2, p3 := Selection({"s1"}, {"w1"}), Selection({"s1", "s2"}, {"w1"}), Selection({"s1", "s2"}, {"w1", "w2"});
    ChainPass(seeds, S1, S2, S3, CHAIN);
    assert Passes(0, seeds, [S3, S2, S1], CHAIN) == seeds;
    assert Passes(1, seeds, [S3, S2, S1], CHAIN) == p1;
    ChainPass(p1, S1, S2, S3, CHAIN);
    assert Passes(2, seeds, [S3, S2, S1], CHAIN) == p2;
    ChainPass(p2, S1, S2, S3, CHAIN);
    assert Passes(3, seeds, [S3, S2, S1], CHAIN) == p3;
    ChainPass(p3, S1, S2, S3, CHAIN);
  }

  /** One pass over the chain s3, s2, s1 with the targets of the example. */
  lemma ChainPass(sel: Selection, s1: Service, s2: Service, s3: Service, workloads: seq<Workload>)
    requires s1.name == "s1" && s2.name == "s2" && s3.name == "s3"
    requires Targets(s1, workloads) == {"w1"} && Targets(s2, workloads) == {"w1", "w2"} && Targets(s3, workloads) == {"w2"}
    requires "s3" !in sel.services && "s1" in sel.services
    ensures var a := if "w2" in sel.workloads then sel.(services := sel.services + {"s3"}) else sel;
      var b := if "s2" in a.services then a.(workloads := a.workloads + {"w1", "w2"}) else a;
      var c := if "w1" in b.workloads || "w2" in b.workloads then b.(services := b.services + {"s2"}) else b;
      Pass(sel, [s3, s2, s1], workloads) == Selection(c.services + {"s1"}, c.workloads + {"w1"})
  {
    PassOverThree(sel, s3, s2, s1, workloads);
  }
}
