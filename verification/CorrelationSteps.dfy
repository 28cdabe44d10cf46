/** The correlation controller one API call at a time, interleaved with every other
    writer and restarted after any call. It is single-threaded and its reads are fresh. */
module CorrelationSteps {
  import opened Cluster
  import opened Correlation
  import opened Lifecycle
  import opened Wrappers

  /** What the controller holds between two calls. An Incident in hand carries the
      member list and the active count of the last response. */
  datatype Controller =
    | Idle
    | Searching(c: CaseName, root: ResourceRef)
    | Creating(c: CaseName, root: ResourceRef, searched: nat)
    | Initialising(c: CaseName, n: IncidentName)
    | Reopening(c: CaseName, n: IncidentName)
    | Appending(c: CaseName, n: IncidentName, known: seq<CaseName>)
    | Recounting(c: CaseName, n: IncidentName, known: seq<CaseName>, held: nat, i: nat, active: nat)
    | Labelling(c: CaseName, n: IncidentName)
    | Fetching(n: IncidentName)
    | Evaluating(n: IncidentName, known: seq<CaseName>, held: nat, i: nat, active: nat)

  /** used: every case name ever generated. */
  datatype System = System(store: Store, clock: nat, ctl: Controller, used: set<CaseName>)

  datatype Event =
    | Pick(c: CaseName, root: ResourceRef)
    | Search(found: Option<IncidentName>, reopen: bool)
    | Call
    | Crash
    | NewCase(c: CaseName, affected: string, detector: string)
    | ResolveCase(c: CaseName)
    | DeleteCase(c: CaseName)
    | ResolveIncident(n: IncidentName, at: nat, active: nat)
    | NewManual(id: string)
    | Tick(now: nat)

  // ---- The controller's own calls ---------------------------------------------

  /** Get the queued case and choose the branch; the ownership walk only reads. */
  function Picked(s: Store, c: CaseName, root: ResourceRef): Controller {
    if c !in s.cases then Idle
    else if s.cases[c].state.CaseResolved? then
      match s.cases[c].incident
      case Some(n) => Fetching(n)
      case None => Idle
    else if s.cases[c].incident.Some? then Idle
    else Searching(c, root)
  }

  function Searched(y: System, found: Option<IncidentName>, reopen: bool): Controller
    requires y.ctl.Searching? && (found.Some? ==> found.value in y.store.incidents)
  {
    match found
    case None => Creating(y.ctl.c, y.ctl.root, y.clock)
    case Some(n) => if reopen then Reopening(y.ctl.c, n) else Appending(y.ctl.c, n, y.store.incidents[n].members)
  }

  function SetIncident(s: Store, n: IncidentName, inc: Incident): Store {
    s.(incidents := s.incidents[n := inc])
  }

  /** Create without a status; an existing Incident of the name is fetched and used. */
  function AfterCreate(y: System, window: nat): System
    requires WindowOk(window) && y.ctl.Creating?
  {
    var n := AutoName(y.ctl.root, Bucket(y.clock, window));
    if n in y.store.incidents then
      y.(ctl := Appending(y.ctl.c, n, y.store.incidents[n].members))
    else
      y.(store := SetIncident(y.store, n, Incident(false, Some(y.ctl.root), y.clock, [], Unset, None, 0, 0, 0)),
         ctl := Initialising(y.ctl.c, n))
  }

  /** The spec patch replaces the whole member list by the list in hand plus the case. */
  function AfterAppend(y: System): System
    requires y.ctl.Appending? && y.ctl.n in y.store.incidents
  {
    if y.ctl.c in y.ctl.known then y.(ctl := Labelling(y.ctl.c, y.ctl.n))
    else
      var members := y.ctl.known + [y.ctl.c];
      y.(store := SetIncident(y.store, y.ctl.n, y.store.incidents[y.ctl.n].(members := members)),
         ctl := Recounting(y.ctl.c, y.ctl.n, members, y.store.incidents[y.ctl.n].active, 0, 0))
  }

  function Tally(s: Store, c: CaseName): nat {
    if IsActive(s.cases, c) then 1 else 0
  }

  /** The object a patch goes to still exists. */
  predicate Found(y: System) {
    && (y.ctl.Initialising? || y.ctl.Reopening? || y.ctl.Appending? || y.ctl.Recounting? || y.ctl.Evaluating? ==>
          y.ctl.n in y.store.incidents)
    && (y.ctl.Labelling? ==> y.ctl.c in y.store.cases)
  }

  /** Every other call: a deterministic function of the state. A call that fails ends the reconcile. */
  function AfterCall(y: System, window: nat): System
    requires WindowOk(window)
  {
    if !Found(y) then y.(ctl := Idle) else
    match y.ctl
    case Creating(_, _, _) => AfterCreate(y, window)
    case Initialising(c, n) =>
      var inc := y.store.incidents[n].(state := Open, occurrences := 1, lastOccurrence := UnixSeconds(y.clock));
      y.(store := SetIncident(y.store, n, inc), ctl := Appending(c, n, inc.members))
    case Reopening(c, n) =>
      var inc := Reopened(y.store.incidents[n], y.clock);
      y.(store := SetIncident(y.store, n, inc), ctl := Appending(c, n, inc.members))
    case Appending(_, _, _) => AfterAppend(y)
    case Recounting(c, n, known, held, i, active) =>
      if i < |known| then y.(ctl := Recounting(c, n, known, held, i + 1, active + Tally(y.store, known[i])))
      else y.(store := SetIncident(y.store, n, Counted(y.store.incidents[n], held, active)), ctl := Labelling(c, n))
    case Labelling(c, n) => y.(store := y.store.(cases := Labelled(y.store.cases, c, n)), ctl := Idle)
    case Fetching(n) =>
      if n !in y.store.incidents || y.store.incidents[n].state.Resolved? || y.store.incidents[n].members == [] then
        y.(ctl := Idle)
      else y.(ctl := Evaluating(n, y.store.incidents[n].members, y.store.incidents[n].active, 0, 0))
    case Evaluating(n, known, held, i, active) =>
      if i < |known| then y.(ctl := Evaluating(n, known, held, i + 1, active + Tally(y.store, known[i])))
      else y.(store := SetIncident(y.store, n, Concluded(y.store.incidents[n], held, active, y.clock)), ctl := Idle)
    case Idle => y
    case Searching(_, _) => y
  }

  /** A merge patch carries the count only when it differs from the one in hand. */
  function Counted(inc: Incident, held: nat, active: nat): Incident {
    if active == held then inc else inc.(active := active)
  }

  function Concluded(inc: Incident, held: nat, active: nat, now: nat): Incident {
    var counted := Counted(inc, held, active);
    if active == 0 then counted.(state := Resolved, resolvedAt := Some(UnixSeconds(now))) else counted
  }

  // ---- The whole system -------------------------------------------------------

  /** The other writers: a case is created under a new name, resolved by any controller, or deleted;
      an Incident is resolved by a rule or the user with any time since its creation. */
  ghost predicate Next(y: System, e: Event, window: nat, y': System)
    requires WindowOk(window)
  {
    match e
    case Pick(c, root) => y.ctl.Idle? && y' == y.(ctl := Picked(y.store, c, root))
    case Search(found, reopen) =>
      && y.ctl.Searching? && Reusable(y.store.incidents, y.ctl.root, y.clock, window, found, reopen)
      && y' == y.(ctl := Searched(y, found, reopen))
    case Call => y' == AfterCall(y, window)
    case Crash => y' == y.(ctl := Idle)
    case NewCase(c, affected, detector) =>
      && c !in y.used
      && y' == y.(store := y.store.(cases := y.store.cases[c := Opened(affected, detector, [], y.clock)]), used := y.used + {c})
    case ResolveCase(c) =>
      && c in y.store.cases
      && y' == y.(store := y.store.(cases := y.store.cases[c := y.store.cases[c].(state := CaseResolved)]))
    case DeleteCase(c) => y' == y.(store := y.store.(cases := y.store.cases - {c}))
    case ResolveIncident(n, at, active) =>
      && n in y.store.incidents && UnixSeconds(y.store.incidents[n].createdAt) <= at
      && y' == y.(store := SetIncident(y.store, n, y.store.incidents[n].(state := Resolved, resolvedAt := Some(at), active := active)))
    case NewManual(id) =>
      && ManualName(id) !in y.store.incidents
      && y' == y.(store := SetIncident(y.store, ManualName(id), Incident(true, None, y.clock, [], Open, None, 0, 0, 0)))
    case Tick(now) => y.clock <= now && y' == y.(clock := now)
  }

  ghost predicate Init(y: System) {
    y.store == Store(map[], map[]) && y.ctl.Idle? && y.used == {}
  }

  ghost predicate IsRun(trace: seq<System>, events: seq<Event>, window: nat)
    requires WindowOk(window)
  {
    && |trace| == |events| + 1
    && Init(trace[0])
    && forall i :: 0 <= i < |events| ==> Next(trace[i], events[i], window, trace[i + 1])
  }

  // ---- What every interleaving keeps ------------------------------------------

  ghost predicate LabelImpliesMembership(s: Store) {
    forall c :: c in s.cases && s.cases[c].incident.Some? ==>
      s.cases[c].incident.value in s.incidents && c in s.incidents[s.cases[c].incident.value].members
  }

  ghost predicate Recorded(y: System, window: nat)
    requires WindowOk(window)
  {
    && (forall n :: n in y.store.incidents ==>
          && Named(n, y.store.incidents[n], y.clock, window)
          && Distinct(y.store.incidents[n].members)
          && forall c :: c in y.store.incidents[n].members ==> c in y.used)
    && y.store.cases.Keys <= y.used
  }

  ghost predicate NoOtherUnresolved(s: Store, n: IncidentName) {
    n.AutoName? && forall m :: UnresolvedFor(s.incidents, m, n.root) ==> m == n
  }

  /** Any Incident of the root was created more than a window before the search. */
  ghost predicate LongPast(s: Store, root: ResourceRef, searched: nat, window: nat) {
    forall n :: AutoFor(s.incidents, n, root) ==>
      searched - UnixSeconds(s.incidents[n].createdAt) * SECOND > EffectiveWindow(window)
  }

  ghost predicate NoneActive(s: Store, members: seq<CaseName>) {
    forall c :: c in members ==> !IsActive(s.cases, c)
  }

  /** What the controller knows survives everything the other writers do. */
  ghost predicate Knows(y: System, window: nat) {
    match y.ctl
    case Idle => true
    case Searching(c, root) => Pending(y, c)
    case Creating(c, root, searched) =>
      && Pending(y, c) && searched <= y.clock
      && (forall m :: !UnresolvedFor(y.store.incidents, m, root))
      && LongPast(y.store, root, searched, window)
    case Initialising(c, n) => Pending(y, c) && n in y.store.incidents && NoOtherUnresolved(y.store, n)
    case Reopening(c, n) => Pending(y, c) && n in y.store.incidents && NoOtherUnresolved(y.store, n)
    case Appending(c, n, known) =>
      Pending(y, c) && n in y.store.incidents && y.store.incidents[n].members == known
    case Recounting(c, n, known, held, i, active) =>
      Pending(y, c) && n in y.store.incidents && c in y.store.incidents[n].members
    case Labelling(c, n) => Pending(y, c) && n in y.store.incidents && c in y.store.incidents[n].members
    case Fetching(n) => n in y.store.incidents
    case Evaluating(n, known, held, i, active) =>
      && n in y.store.incidents && y.store.incidents[n].members == known
      && i <= |known| && (active == 0 ==> NoneActive(y.store, known[..i]))
  }

  /** The case in hand has no label yet; it may have been deleted since it was read. */
  predicate Pending(y: System, c: CaseName) {
    c in y.used && (c in y.store.cases ==> y.store.cases[c].incident.None?)
  }

  ghost predicate Consistent(y: System, window: nat)
    requires WindowOk(window)
  {
    && Recorded(y, window)
    && OneUnresolvedPerRoot(y.store.incidents)
    && LabelImpliesMembership(y.store)
    && Knows(y, window)
  }

  /** The call that creates never meets an existing Incident. */
  lemma CreateNeverCollides(y: System, window: nat)
    requires WindowOk(window) && Consistent(y, window) && y.ctl.Creating?
    ensures AutoName(y.ctl.root, Bucket(y.clock, window)) !in y.store.incidents
  {
    var n := AutoName(y.ctl.root, Bucket(y.clock, window));
    if n in y.store.incidents {
      var inc := y.store.incidents[n];
      assert Named(n, inc, y.clock, window) && AutoFor(y.store.incidents, n, y.ctl.root);
      SameBucketWithinWindow(inc.createdAt, y.ctl.searched, y.clock, UnixSeconds(inc.createdAt), window);
      assert false;
    }
  }

  lemma SearchTellsCreate(y: System, window: nat)
    requires WindowOk(window) && Recorded(y, window) && y.ctl.Searching?
    requires Reusable(y.store.incidents, y.ctl.root, y.clock, window, None, false)
    ensures LongPast(y.store, y.ctl.root, y.clock, window)
    ensures forall m :: !UnresolvedFor(y.store.incidents, m, y.ctl.root)
  {
    forall n | AutoFor(y.store.incidents, n, y.ctl.root)
      ensures y.clock - UnixSeconds(y.store.incidents[n].createdAt) * SECOND > EffectiveWindow(window)
    {
      assert Named(n, y.store.incidents[n], y.clock, window);
      assert !UnresolvedFor(y.store.incidents, n, y.ctl.root);
      assert !Recent(y.store.incidents[n], y.clock, window);
    }
  }

  lemma SearchKeepsConsistent(y: System, found: Option<IncidentName>, reopen: bool, window: nat, y': System)
    requires WindowOk(window) && Consistent(y, window)
    requires Next(y, Search(found, reopen), window, y')
    ensures Consistent(y', window)
  {
    if found.None? {
      SearchTellsCreate(y, window);
    } else {
      assert Named(found.value, y.store.incidents[found.value], y.clock, window);
    }
  }

  /** The part of Consistent that does not mention the controller. */
  ghost predicate StoreOk(y: System, window: nat)
    requires WindowOk(window)
  {
    Recorded(y, window) && OneUnresolvedPerRoot(y.store.incidents) && LabelImpliesMembership(y.store)
  }

  /** Rewriting one Incident is harmless when its members only grow by stored cases
      and it becomes unresolved only where no other Incident of its root is. */
  lemma RewriteKeepsStoreOk(y: System, n: IncidentName, window: nat, y': System)
    requires WindowOk(window) && StoreOk(y, window)
    requires n in y'.store.incidents && y'.clock == y.clock && y'.used == y.used
    requires y'.store == SetIncident(y.store, n, y'.store.incidents[n])
    requires Named(n, y'.store.incidents[n], y.clock, window)
    requires Distinct(y'.store.incidents[n].members)
    requires forall c :: c in y'.store.incidents[n].members ==> c in y.used
    requires n in y.store.incidents ==> forall c :: c in y.store.incidents[n].members ==> c in y'.store.incidents[n].members
    requires y'.store.incidents[n].state.Resolved? || n.ManualName? || NoOtherUnresolved(y.store, n)
             || (n in y.store.incidents && !y.store.incidents[n].state.Resolved?)
    ensures StoreOk(y', window)
    ensures OnlyChangesUnresolved(y.store, y'.store, n)
  {
    assert forall m, r :: m != n ==> (UnresolvedFor(y'.store.incidents, m, r) <==> UnresolvedFor(y.store.incidents, m, r));
    RewriteKeepsOneUnresolved(y, n, window, y');
    hide OneUnresolvedPerRoot;
  }

  ghost predicate OnlyChangesUnresolved(s: Store, s': Store, n: IncidentName) {
    forall m, r :: m != n ==> (UnresolvedFor(s'.incidents, m, r) <==> UnresolvedFor(s.incidents, m, r))
  }

  lemma RewriteKeepsOneUnresolved(y: System, n: IncidentName, window: nat, y': System)
    requires WindowOk(window) && Recorded(y, window) && OneUnresolvedPerRoot(y.store.incidents)
    requires n in y'.store.incidents && Named(n, y'.store.incidents[n], y.clock, window)
    requires OnlyChangesUnresolved(y.store, y'.store, n)
    requires y'.store.incidents[n].state.Resolved? || n.ManualName? || NoOtherUnresolved(y.store, n)
             || (n in y.store.incidents && !y.store.incidents[n].state.Resolved?)
    ensures OneUnresolvedPerRoot(y'.store.incidents)
  {
    forall m, r | UnresolvedFor(y'.store.incidents, n, r) && UnresolvedFor(y'.store.incidents, m, r)
      ensures m == n
    {
      assert n.AutoName? && r == n.root;
      if m != n {
        assert UnresolvedFor(y.store.incidents, m, r);
        if n in y.store.incidents && !y.store.incidents[n].state.Resolved? {
          assert Named(n, y.store.incidents[n], y.clock, window);
          assert UnresolvedFor(y.store.incidents, n, r);
        }
      }
    }
  }

  lemma OpeningKeepsConsistent(y: System, window: nat, y': System)
    requires WindowOk(window) && Consistent(y, window)
    requires Next(y, Call, window, y') && (y.ctl.Creating? || y.ctl.Initialising? || y.ctl.Reopening?)
    ensures Consistent(y', window)
  {
    if y.ctl.Creating? {
      CreateNeverCollides(y, window);
    }
    hide OneUnresolvedPerRoot, LabelImpliesMembership, LongPast;
    RewriteKeepsStoreOk(y, y'.ctl.n, window, y');
  }

  lemma AddingKeepsConsistent(y: System, window: nat, y': System)
    requires WindowOk(window) && Consistent(y, window)
    requires Next(y, Call, window, y') && (y.ctl.Appending? || y.ctl.Recounting?)
    ensures Consistent(y', window)
  {
    hide OneUnresolvedPerRoot, LabelImpliesMembership, LongPast;
    if y'.store != y.store {
      RewriteKeepsStoreOk(y, y.ctl.n, window, y');
    }
  }

  lemma EvaluatingKeepsConsistent(y: System, window: nat, y': System)
    requires WindowOk(window) && Consistent(y, window)
    requires Next(y, Call, window, y') && (y.ctl.Fetching? || y.ctl.Evaluating?)
    ensures Consistent(y', window)
  {
    hide OneUnresolvedPerRoot, LabelImpliesMembership, LongPast;
    if y.ctl.Evaluating? && y.ctl.i < |y.ctl.known| {
      assert y.ctl.known[..y.ctl.i + 1] == y.ctl.known[..y.ctl.i] + [y.ctl.known[y.ctl.i]];
    } else if y'.store != y.store {
      RewriteKeepsStoreOk(y, y.ctl.n, window, y');
    }
  }

  lemma LabelKeepsConsistent(y: System, window: nat, y': System)
    requires WindowOk(window) && Consistent(y, window)
    requires Next(y, Call, window, y') && y.ctl.Labelling?
    ensures Consistent(y', window)
  {
  }

  /** The other writers leave the store in order and what the controller knows true. */
  lemma OthersKeepConsistent(y: System, e: Event, window: nat, y': System)
    requires WindowOk(window) && Consistent(y, window)
    requires Next(y, e, window, y') && !e.Search? && !e.Call?
    ensures Consistent(y', window)
  {
    if e.ResolveIncident? {
      RewriteKeepsStoreOk(y, e.n, window, y');
    } else if e.NewManual? {
      RewriteKeepsStoreOk(y, ManualName(e.id), window, y');
    } else {
      CasesAndClockKeepStoreOk(y, e, window, y');
    }
    hide OneUnresolvedPerRoot, LabelImpliesMembership, Recorded;
    OthersKeepKnows(y, e, window, y');
  }

  lemma CasesAndClockKeepStoreOk(y: System, e: Event, window: nat, y': System)
    requires WindowOk(window) && StoreOk(y, window)
    requires Next(y, e, window, y') && (e.Pick? || e.Crash? || e.NewCase? || e.ResolveCase? || e.DeleteCase? || e.Tick?)
    ensures StoreOk(y', window)
  {
  }

  lemma OthersKeepKnows(y: System, e: Event, window: nat, y': System)
    requires WindowOk(window) && Recorded(y, window) && LabelImpliesMembership(y.store) && Knows(y, window)
    requires Next(y, e, window, y') && !e.Search? && !e.Call?
    ensures Knows(y', window)
  {
    assert forall m, r :: UnresolvedFor(y'.store.incidents, m, r) ==> UnresolvedFor(y.store.incidents, m, r);
    assert forall m, r :: AutoFor(y'.store.incidents, m, r) <==> AutoFor(y.store.incidents, m, r);
  }

  lemma NextKeepsConsistent(y: System, e: Event, window: nat, y': System)
    requires WindowOk(window) && Consistent(y, window)
    requires Next(y, e, window, y')
    ensures Consistent(y', window)
  {
    hide Consistent;
    if e.Search? {
      SearchKeepsConsistent(y, e.found, e.reopen, window, y');
    } else if e.Call? {
      match y.ctl
      case Creating(_, _, _) => OpeningKeepsConsistent(y, window, y');
      case Initialising(_, _) => OpeningKeepsConsistent(y, window, y');
      case Reopening(_, _) => OpeningKeepsConsistent(y, window, y');
      case Appending(_, _, _) => AddingKeepsConsistent(y, window, y');
      case Recounting(_, _, _, _, _, _) => AddingKeepsConsistent(y, window, y');
      case Labelling(_, _) => LabelKeepsConsistent(y, window, y');
      case Fetching(_) => EvaluatingKeepsConsistent(y, window, y');
      case Evaluating(_, _, _, _, _) => EvaluatingKeepsConsistent(y, window, y');
      case Idle =>
      case Searching(_, _) =>
    } else {
      OthersKeepConsistent(y, e, window, y');
    }
  }

  /** Crash safety: in every state of every interleaving an auto root has at most
      one unresolved Incident, a label names an Incident that lists the case, and no
      member list repeats a case. */
  lemma {:induction false} CrashSafety(trace: seq<System>, events: seq<Event>, window: nat)
    requires WindowOk(window) && IsRun(trace, events, window)
    ensures forall i :: 0 <= i < |trace| ==> Consistent(trace[i], window)
  {
    if events != [] {
      var k := |events| - 1;
      assert IsRun(trace[..k + 1], events[..k], window);
      CrashSafety(trace[..k + 1], events[..k], window);
      assert trace[..k + 1][k] == trace[k];
      hide Consistent;
      NextKeepsConsistent(trace[k], events[k], window, trace[k + 1]);
      forall i | 0 <= i < |trace|
        ensures Consistent(trace[i], window)
      {
        if i <= k {
          assert trace[..k + 1][i] == trace[i];
        }
      }
    }
  }

  /** A label never changes once written, and a resolved case never reopens. */
  lemma LabelsAreWriteOnce(y: System, e: Event, window: nat, y': System, c: CaseName)
    requires WindowOk(window) && Consistent(y, window) && Next(y, e, window, y')
    requires c in y.store.cases
    ensures c in y'.store.cases <==> e != DeleteCase(c)
    ensures c in y'.store.cases && y.store.cases[c].incident.Some? ==> y'.store.cases[c].incident == y.store.cases[c].incident
    ensures c in y'.store.cases && y.store.cases[c].state.CaseResolved? ==> y'.store.cases[c].state.CaseResolved?
  {
  }

  /** The controller itself resolves an Incident only when no member is active,
      although it counted the members one call at a time. */
  lemma ControllerResolvesOnlyInactive(y: System, window: nat, y': System, n: IncidentName)
    requires WindowOk(window) && Consistent(y, window) && Next(y, Call, window, y')
    requires n in y.store.incidents && !y.store.incidents[n].state.Resolved?
    requires n in y'.store.incidents && y'.store.incidents[n].state.Resolved?
    ensures NoneActive(y'.store, y'.store.incidents[n].members)
  {
    assert y.ctl.Evaluating? && y.ctl.n == n && y.ctl.active == 0;
    assert y.ctl.known[..y.ctl.i] == y.ctl.known;
  }

  /** An active member of a resolved Incident. */
  predicate Clash(s: Store, n: IncidentName, c: CaseName) {
    n in s.incidents && s.incidents[n].state.Resolved? && c in s.incidents[n].members && IsActive(s.cases, c)
  }

  /** With every call a step, such a member appears exactly when the Incident is resolved from outside
      over it, or when its case is appended although the Incident was resolved since it was found. */
  lemma ClashArisesExactly(y: System, e: Event, window: nat, y': System, n: IncidentName, c: CaseName)
    requires WindowOk(window) && Consistent(y, window) && Next(y, e, window, y') && !Clash(y.store, n, c)
    ensures Clash(y'.store, n, c) <==>
              && n in y.store.incidents && IsActive(y.store.cases, c)
              && ((e.ResolveIncident? && e.n == n && c in y.store.incidents[n].members)
                  || (e.Call? && y.ctl.Appending? && y.ctl.n == n && y.ctl.c == c && y.store.incidents[n].state.Resolved?))
  {
    if Clash(y'.store, n, c) && e.Call? && n in y.store.incidents && !y.store.incidents[n].state.Resolved? {
      ControllerResolvesOnlyInactive(y, window, y', n);
    }
    if e.Call? && y.ctl.Appending? && y.ctl.n == n && y.ctl.c == c {
      assert y.store.incidents[n].members == y.ctl.known;
    }
  }

  // ---- What each call writes ---------------------------------------------------------

  /** The call that ends a count of that Incident's members. */
  predicate EndsCount(y: System, n: IncidentName) {
    (y.ctl.Recounting? || y.ctl.Evaluating?) && y.ctl.n == n && y.ctl.i >= |y.ctl.known|
  }

  /** An Incident in the store after a call of the controller, told by what it was. */
  ghost predicate Written(y: System, was: Incident, inc: Incident, n: IncidentName) {
    var opens := (y.ctl.Initialising? || y.ctl.Reopening?) && y.ctl.n == n;
    var resolves := y.ctl.Evaluating? && EndsCount(y, n) && y.ctl.active == 0;
    && inc.manual == was.manual && inc.fingerprint == was.fingerprint && inc.createdAt == was.createdAt
    && inc.members == was.members + (if y.ctl.Appending? && y.ctl.n == n && y.ctl.c !in was.members then [y.ctl.c] else [])
    && inc.state == (if opens then Open else if resolves then Resolved else was.state)
    && inc.resolvedAt == (if y.ctl.Reopening? && y.ctl.n == n then None
                          else if resolves then Some(y.clock / 1_000_000_000) else was.resolvedAt)
    && inc.occurrences == (if !opens then was.occurrences else if y.ctl.Initialising? then 1
                           else if was.occurrences < 1 then 2 else was.occurrences + 1)
    && inc.lastOccurrence == (if opens then y.clock / 1_000_000_000 else was.lastOccurrence)
    && inc.active == (if EndsCount(y, n) && y.ctl.active != y.ctl.held then y.ctl.active else was.active)
  }

  /** A call of the controller writes one label, creates one Incident without a status, or rewrites one
      Incident: its members by one case, its state when it opens or resolves it, its count only when
      that differs from the count it read. It does nothing else, and no other Incident changes. */
  lemma CallsInFull(y: System, window: nat, y': System)
    requires WindowOk(window) && Consistent(y, window) && Next(y, Call, window, y')
    ensures y'.clock == y.clock && y'.used == y.used
    ensures y'.store.cases == if y.ctl.Labelling? && y.ctl.c in y.store.cases
                              then y.store.cases[y.ctl.c := y.store.cases[y.ctl.c].(incident := Some(y.ctl.n))] else y.store.cases
    ensures forall n :: n in y.store.incidents ==> n in y'.store.incidents && Written(y, y.store.incidents[n], y'.store.incidents[n], n)
    ensures forall n :: n in y'.store.incidents && n !in y.store.incidents ==>
              && y.ctl.Creating? && n.AutoName? && n.root == y.ctl.root
              && n.bucket == y.clock / 1_000_000_000 / (if window == 0 then 86_400 else window / 1_000_000_000)
              && y'.store.incidents[n] == Incident(false, Some(y.ctl.root), y.clock, [], Unset, None, 0, 0, 0)
    ensures y.ctl.Creating? ==> exists n :: n in y'.store.incidents && n !in y.store.incidents
  {
    if y.ctl.Creating? {
      CreateNeverCollides(y, window);
    }
    if y.ctl.Creating? || y.ctl.Initialising? || y.ctl.Reopening? {
      OpeningInFull(y, window, y');
    } else {
      CountingInFull(y, window, y');
    }
  }

  lemma MembersStay(inc: Incident)
    ensures inc.members + [] == inc.members
  {
  }

  lemma OpeningInFull(y: System, window: nat, y': System)
    requires WindowOk(window) && Knows(y, window) && Next(y, Call, window, y')
    requires y.ctl.Creating? || y.ctl.Initialising? || y.ctl.Reopening?
    ensures y.ctl.Creating? ==> AutoName(y.ctl.root, Bucket(y.clock, window)) in y'.store.incidents
    ensures forall n :: n in y.store.incidents ==> n in y'.store.incidents && Written(y, y.store.incidents[n], y'.store.incidents[n], n)
    ensures forall n :: n in y'.store.incidents && n !in y.store.incidents ==>
              && y.ctl.Creating? && n == AutoName(y.ctl.root, Bucket(y.clock, window))
              && y'.store.incidents[n] == Incident(false, Some(y.ctl.root), y.clock, [], Unset, None, 0, 0, 0)
    ensures y'.store.cases == y.store.cases && y'.clock == y.clock && y'.used == y.used
  {
    hide LongPast, NoOtherUnresolved, Bucket;
    forall n | n in y.store.incidents
      ensures n in y'.store.incidents && Written(y, y.store.incidents[n], y'.store.incidents[n], n)
    {
      MembersStay(y.store.incidents[n]);
    }
  }

  lemma CountingInFull(y: System, window: nat, y': System)
    requires WindowOk(window) && Knows(y, window) && Next(y, Call, window, y')
    requires !y.ctl.Creating? && !y.ctl.Initialising? && !y.ctl.Reopening?
    ensures y'.store.incidents.Keys == y.store.incidents.Keys
    ensures forall n :: n in y.store.incidents ==> Written(y, y.store.incidents[n], y'.store.incidents[n], n)
    ensures y'.store.cases == if y.ctl.Labelling? && y.ctl.c in y.store.cases
                              then y.store.cases[y.ctl.c := y.store.cases[y.ctl.c].(incident := Some(y.ctl.n))] else y.store.cases
    ensures y'.clock == y.clock && y'.used == y.used
  {
    hide LongPast, NoOtherUnresolved, NoneActive;
    if y.ctl.Appending? {
      AppendingInFull(y, window, y');
    } else {
      hide Reopened;
      forall n | n in y.store.incidents
        ensures Written(y, y.store.incidents[n], y'.store.incidents[n], n)
      {
        MembersStay(y.store.incidents[n]);
      }
    }
  }

  lemma AppendingInFull(y: System, window: nat, y': System)
    requires WindowOk(window) && Knows(y, window) && Next(y, Call, window, y') && y.ctl.Appending?
    ensures y'.store.incidents.Keys == y.store.incidents.Keys && y'.store.cases == y.store.cases
    ensures forall n :: n in y.store.incidents ==> Written(y, y.store.incidents[n], y'.store.incidents[n], n)
    ensures y'.clock == y.clock && y'.used == y.used
  {
    hide LongPast, NoOtherUnresolved, NoneActive, Reopened;
    forall n | n in y.store.incidents
      ensures Written(y, y.store.incidents[n], y'.store.incidents[n], n)
    {
      MembersStay(y.store.incidents[n]);
    }
  }

  // ---- What crash safety does not give ---------------------------------------------

  /** An open Incident without an active member is looked at again by a reconcile of some case
      exactly when a listed case carries its label. */
  lemma RevisitedExactly(y: System, n: IncidentName, root: ResourceRef, window: nat)
    requires WindowOk(window) && Consistent(y, window)
    requires n in y.store.incidents && NoneActive(y.store, y.store.incidents[n].members)
    ensures (exists c :: Picked(y.store, c, root) == Fetching(n))
       <==> exists c :: c in y.store.incidents[n].members && c in y.store.cases && y.store.cases[c].incident == Some(n)
  {
    forall c
      ensures Picked(y.store, c, root) == Fetching(n)
         <==> c in y.store.incidents[n].members && c in y.store.cases && y.store.cases[c].incident == Some(n)
    {
    }
  }

  /** And then that reconcile, if nothing interrupts it, resolves the Incident. */
  lemma RevisitResolves(y: System, n: IncidentName, c: CaseName, root: ResourceRef, window: nat)
    requires WindowOk(window) && Consistent(y, window) && y.ctl.Idle?
    requires n in y.store.incidents && !y.store.incidents[n].state.Resolved?
    requires NoneActive(y.store, y.store.incidents[n].members) && Picked(y.store, c, root) == Fetching(n)
    ensures var s := Finished(y.(ctl := Picked(y.store, c, root)), window).store;
            n in s.incidents && s.incidents[n].state.Resolved?
  {
    UninterruptedWithoutSearch(y, c, root, window);
    ActiveCountZero(y.store.incidents[n].members, y.store.cases);
    assert c in y.store.incidents[n].members;
  }

  /** A crash before the label, followed by the case's resolution, leaves such an Incident with no
      reconcile to come, whenever the label was the only one it would have had. */
  lemma CrashStrandsIncident(y0: System, y1: System, y2: System, root: ResourceRef, window: nat)
    requires WindowOk(window) && Consistent(y0, window) && y0.ctl.Labelling?
    requires !y0.store.incidents[y0.ctl.n].state.Resolved?
    requires ActiveMembers(y0.store.incidents[y0.ctl.n].members, y0.store.cases) <= {y0.ctl.c}
    requires Next(y0, Crash, window, y1) && Next(y1, ResolveCase(y0.ctl.c), window, y2)
    ensures var n := y0.ctl.n;
            && y2.ctl.Idle? && !y2.store.incidents[n].state.Resolved? && NoneActive(y2.store, y2.store.incidents[n].members)
            && ((forall c :: Picked(y2.store, c, root) != Fetching(n))
                <==> forall c :: c in y0.store.incidents[n].members && c in y0.store.cases ==> y0.store.cases[c].incident != Some(n))
  {
    var n := y0.ctl.n;
    forall d | d in y0.store.incidents[n].members && IsActive(y0.store.cases, d)
      ensures d == y0.ctl.c
    {
      assert d in ActiveMembers(y0.store.incidents[n].members, y0.store.cases);
    }
    NextKeepsConsistent(y0, Crash, window, y1);
    NextKeepsConsistent(y1, ResolveCase(y0.ctl.c), window, y2);
    RevisitedExactly(y2, n, root, window);
    assert forall c :: c in y0.store.cases ==> y2.store.cases[c].incident == y0.store.cases[c].incident;
  }

  lemma Extended(trace: seq<System>, events: seq<Event>, e: Event, y: System, window: nat)
    returns (trace': seq<System>, events': seq<Event>)
    requires WindowOk(window) && |trace| > 0 && IsRun(trace, events, window) && Next(trace[|trace| - 1], e, window, y)
    ensures |trace'| > 0 && IsRun(trace', events', window) && trace'[|trace'| - 1] == y
  {
    hide Next;
    trace', events' := trace + [y], events + [e];
    forall i | 0 <= i < |events'|
      ensures Next(trace'[i], events'[i], window, trace'[i + 1])
    {
      if i < |events| {
        assert trace'[i] == trace[i] && trace'[i + 1] == trace[i + 1] && events'[i] == events[i];
      }
    }
  }

  lemma OpenedFirst(y: System, window: nat)
    requires WindowOk(window) && y.ctl.Creating? && y.store.incidents == map[]
    ensures var y' := AfterCall(AfterCall(y, window), window);
            var n := AutoName(y.ctl.root, Bucket(y.clock, window));
            && y'.store.cases == y.store.cases && y'.ctl == Appending(y.ctl.c, n, []) && y'.store.incidents.Keys == {n}
            && !y'.store.incidents[n].state.Resolved? && y'.store.incidents[n].members == []
            && y'.store.incidents[n].createdAt == y.clock
  {
  }

  lemma FirstSearch(c: CaseName, affected: string, detector: string, root: ResourceRef, window: nat)
    requires WindowOk(window)
    ensures var y0 := System(Store(map[], map[]), 0, Idle, {});
            var y1 := y0.(store := Store(map[c := Opened(affected, detector, [], 0)], map[]), used := {c});
            && Next(y0, NewCase(c, affected, detector), window, y1)
            && Next(y1, Pick(c, root), window, y1.(ctl := Searching(c, root)))
            && Next(y1.(ctl := Searching(c, root)), Search(None, false), window, y1.(ctl := Creating(c, root, 0)))
  {
    assert Reusable(map[], root, 0, window, None, false);
  }

  /** From the start to a new Incident that a first case is about to be appended to. */
  lemma OpenRun(c: CaseName, affected: string, detector: string, root: ResourceRef, window: nat)
    returns (trace: seq<System>, events: seq<Event>)
    requires WindowOk(window)
    ensures |trace| > 0 && IsRun(trace, events, window)
    ensures var y, n := trace[|trace| - 1], AutoName(root, Bucket(0, window));
            && y.store.cases == map[c := Opened(affected, detector, [], 0)] && n in y.store.incidents
            && !y.store.incidents[n].state.Resolved? && y.store.incidents[n].members == []
            && y.store.incidents[n].createdAt == 0 && y.ctl == Appending(c, n, [])
  {
    var y0 := System(Store(map[], map[]), 0, Idle, {});
    var y1 := y0.(store := Store(map[c := Opened(affected, detector, [], 0)], map[]), used := {c});
    var y2, y3 := y1.(ctl := Searching(c, root)), y1.(ctl := Creating(c, root, 0));
    OpenedFirst(y3, window);
    var y4 := AfterCall(y3, window);
    FirstSearch(c, affected, detector, root, window);
    assert IsRun([y0], [], window);
    hide AfterCall, IsRun, Opened, Bucket;
    assert Next(y3, Call, window, y4) && Next(y4, Call, window, AfterCall(y4, window));
    hide Next;
    trace, events := [y0], [];
    trace, events := Extended(trace, events, NewCase(c, affected, detector), y1, window);
    trace, events := Extended(trace, events, Pick(c, root), y2, window);
    trace, events := Extended(trace, events, Search(None, false), y3, window);
    trace, events := Extended(trace, events, Call, y4, window);
    trace, events := Extended(trace, events, Call, AfterCall(y4, window), window);
  }

  /** An open Incident that no reconcile of any case will look at again can be reached for every case
      and root: the controller crashes right after the append, and the case recovers. */
  lemma StrandedRun(c: CaseName, affected: string, detector: string, root: ResourceRef, window: nat)
    returns (trace: seq<System>, events: seq<Event>, n: IncidentName)
    requires WindowOk(window)
    ensures |trace| > 0 && IsRun(trace, events, window)
    ensures var y := trace[|trace| - 1];
            && y.ctl.Idle? && n in y.store.incidents && !y.store.incidents[n].state.Resolved?
            && y.store.incidents[n].members == [c] && NoneActive(y.store, [c])
            && forall d, r :: Picked(y.store, d, r) != Fetching(n)
  {
    n := AutoName(root, Bucket(0, window));
    trace, events := OpenRun(c, affected, detector, root, window);
    var y := AfterCall(trace[|trace| - 1], window);
    var y' := y.(ctl := Idle);
    var y'' := y'.(store := y'.store.(cases := y'.store.cases[c := y'.store.cases[c].(state := CaseResolved)]));
    hide IsRun, Bucket;
    trace, events := Extended(trace, events, Call, y, window);
    trace, events := Extended(trace, events, Crash, y', window);
    trace, events := Extended(trace, events, ResolveCase(c), y'', window);
  }

  /** So can an active case in a resolved Incident: the Incident is resolved between search and append. */
  lemma ClashRun(c: CaseName, affected: string, detector: string, root: ResourceRef, window: nat)
    returns (trace: seq<System>, events: seq<Event>, n: IncidentName)
    requires WindowOk(window)
    ensures |trace| > 0 && IsRun(trace, events, window) && Clash(trace[|trace| - 1].store, n, c)
  {
    n := AutoName(root, Bucket(0, window));
    trace, events := OpenRun(c, affected, detector, root, window);
    var y := trace[|trace| - 1];
    var y' := y.(store := SetIncident(y.store, n, y.store.incidents[n].(state := Resolved, resolvedAt := Some(0), active := 0)));
    hide IsRun, Bucket;
    trace, events := Extended(trace, events, ResolveIncident(n, 0, 0), y', window);
    trace, events := Extended(trace, events, Call, AfterCall(y', window), window);
  }

  // ---- An uninterrupted reconcile is the atomic one ------------------------------

  /** Phases of a reconcile, and the calls left in the last one. */
  function Stage(ctl: Controller): nat {
    if ctl.Creating? then 3 else if ctl.Initialising? || ctl.Reopening? || ctl.Fetching? then 2 else 1
  }

  function CallsLeft(ctl: Controller): nat {
    match ctl
    case Appending(_, _, known) => 4 + |known|
    case Recounting(_, _, known, _, i, _) => if i < |known| then 2 + |known| - i else 2
    case Labelling(_, _) => 1
    case Evaluating(_, known, _, i, _) => if i < |known| then 1 + |known| - i else 1
    case _ => 0
  }

  /** The calls that remain, made back to back. */
  function Finished(y: System, window: nat): System
    requires WindowOk(window)
    decreases Stage(y.ctl), CallsLeft(y.ctl)
  {
    if y.ctl.Idle? || y.ctl.Searching? then y else Finished(AfterCall(y, window), window)
  }

  lemma {:induction false} FinishRecount(y: System, window: nat)
    requires WindowOk(window) && y.ctl.Recounting?
    requires y.ctl.n in y.store.incidents && y.ctl.c in y.store.cases && y.ctl.i <= |y.ctl.known|
    requires y.ctl.held == y.store.incidents[y.ctl.n].active
    requires y.ctl.active == ActiveCount(y.ctl.known[..y.ctl.i], y.store.cases)
    ensures var inc := y.store.incidents[y.ctl.n].(active := ActiveCount(y.ctl.known, y.store.cases));
      Finished(y, window) == System(SetIncident(y.store, y.ctl.n, inc).(cases := Labelled(y.store.cases, y.ctl.c, y.ctl.n)), y.clock, Idle, y.used)
    decreases |y.ctl.known| - y.ctl.i
  {
    var i, known := y.ctl.i, y.ctl.known;
    if i < |known| {
      assert known[..i + 1][..i] == known[..i];
      FinishRecount(AfterCall(y, window), window);
    } else {
      assert known[..i] == known;
      var next := AfterCall(y, window);
      assert Finished(next, window) == AfterCall(next, window);
    }
  }

  lemma FinishAppend(y: System, window: nat)
    requires WindowOk(window) && y.ctl.Appending?
    requires y.ctl.n in y.store.incidents && y.store.incidents[y.ctl.n].members == y.ctl.known && y.ctl.c in y.store.cases
    ensures var inc := WithMember(y.store.incidents[y.ctl.n], y.ctl.c, y.store.cases);
      Finished(y, window) == System(SetIncident(y.store, y.ctl.n, inc).(cases := Labelled(y.store.cases, y.ctl.c, y.ctl.n)), y.clock, Idle, y.used)
  {
    var next := AfterCall(y, window);
    if y.ctl.c in y.ctl.known {
      assert SetIncident(y.store, y.ctl.n, y.store.incidents[y.ctl.n]) == y.store;
      assert Finished(next, window) == AfterCall(next, window);
    } else {
      FinishRecount(next, window);
    }
  }

  lemma {:induction false} FinishEvaluation(y: System, window: nat)
    requires WindowOk(window) && y.ctl.Evaluating?
    requires y.ctl.n in y.store.incidents && y.ctl.i <= |y.ctl.known|
    requires y.ctl.held == y.store.incidents[y.ctl.n].active
    requires y.ctl.active == ActiveCount(y.ctl.known[..y.ctl.i], y.store.cases)
    ensures var inc := Concluded(y.store.incidents[y.ctl.n], y.ctl.held, ActiveCount(y.ctl.known, y.store.cases), y.clock);
      Finished(y, window) == System(SetIncident(y.store, y.ctl.n, inc), y.clock, Idle, y.used)
    decreases |y.ctl.known| - y.ctl.i
  {
    var i, known := y.ctl.i, y.ctl.known;
    if i < |known| {
      assert known[..i + 1][..i] == known[..i];
      FinishEvaluation(AfterCall(y, window), window);
    } else {
      assert known[..i] == known;
    }
  }

  /** Picking a case that needs no search, then finishing, is one atomic reconcile. */
  lemma UninterruptedWithoutSearch(y: System, c: CaseName, root: ResourceRef, window: nat)
    requires WindowOk(window) && Consistent(y, window) && y.ctl.Idle?
    requires !Picked(y.store, c, root).Searching?
    ensures Reconciles(y.store, Finished(y.(ctl := Picked(y.store, c, root)), window).store, c, root, y.clock, y.clock, window)
  {
    var p := y.(ctl := Picked(y.store, c, root));
    if p.ctl.Fetching? {
      var f := AfterCall(p, window);
      if f.ctl.Evaluating? {
        FinishEvaluation(f, window);
      }
    }
  }

  lemma FinishAfterCreate(y: System, window: nat)
    requires WindowOk(window) && Consistent(y, window) && y.ctl.Searching? && IsActive(y.store.cases, y.ctl.c)
    requires Reusable(y.store.incidents, y.ctl.root, y.clock, window, None, false)
    ensures Finished(y.(ctl := Searched(y, None, false)), window).store
         == Attached(y.store, y.ctl.c, y.ctl.root, None, false, y.clock, window)
  {
    var s := y.(ctl := Searched(y, None, false));
    assert Consistent(s, window) by {
      SearchKeepsConsistent(y, None, false, window, s);
    }
    CreateNeverCollides(s, window);
    hide Consistent;
    FinishAppend(AfterCall(AfterCall(s, window), window), window);
  }

  lemma FinishAfterFind(y: System, n: IncidentName, reopen: bool, window: nat)
    requires WindowOk(window) && y.ctl.Searching? && n in y.store.incidents && IsActive(y.store.cases, y.ctl.c)
    ensures Finished(y.(ctl := Searched(y, Some(n), reopen)), window).store
         == Attached(y.store, y.ctl.c, y.ctl.root, Some(n), reopen, y.clock, window)
  {
    var s := y.(ctl := Searched(y, Some(n), reopen));
    FinishAppend(if reopen then AfterCall(s, window) else s, window);
  }

  /** Searching, then finishing, is one atomic reconcile. */
  lemma UninterruptedAfterSearch(y: System, found: Option<IncidentName>, reopen: bool, window: nat)
    requires WindowOk(window) && Consistent(y, window) && y.ctl.Searching?
    requires IsActive(y.store.cases, y.ctl.c)
    requires Reusable(y.store.incidents, y.ctl.root, y.clock, window, found, reopen)
    ensures Reconciles(y.store, Finished(y.(ctl := Searched(y, found, reopen)), window).store,
                       y.ctl.c, y.ctl.root, y.clock, y.clock, window)
  {
    if found.None? {
      FinishAfterCreate(y, window);
    } else {
      FinishAfterFind(y, found.value, reopen, window);
    }
    assert y.store.cases[y.ctl.c].incident.None? by {
      SearchedIsUnlabelled(y, window);
    }
    hide Finished, Consistent, Attached;
  }

  lemma SearchedIsUnlabelled(y: System, window: nat)
    requires WindowOk(window) && Consistent(y, window) && y.ctl.Searching? && IsActive(y.store.cases, y.ctl.c)
    ensures y.store.cases[y.ctl.c].incident.None?
  {
  }
}
