/** Exactly which action changes what: every way a ProblemCase or an Incident can differ after a step. */
module Fates {
  import opened Cluster
  import opened Correlation
  import opened Lifecycle
  import opened IncidentProtocol
  import opened Recurrence
  import opened Wrappers

  /** A stored case that is not resolved, of that resource and detector. */
  ghost predicate Watches(w: World, c: CaseName, affected: string, detector: string) {
    && c in w.store.cases && w.store.cases[c].state != CaseResolved
    && w.store.cases[c].affected == affected && w.store.cases[c].detector == detector
  }

  /** An auto Incident that is not resolved and lists the case. */
  ghost predicate Holds(w: World, n: IncidentName, c: CaseName) {
    && n in w.store.incidents && w.store.incidents[n].state != Resolved && !w.store.incidents[n].manual
    && c in w.store.incidents[n].members
  }

  /** An active case that no Incident has. */
  ghost predicate Homeless(w: World, c: CaseName) {
    c in w.store.cases && w.store.cases[c].state != CaseResolved && w.store.cases[c].incident == None
  }

  /** A case appears exactly by a detection that finds none to refresh, open and without a label; it
      disappears exactly by a deletion. */
  lemma CasesComeAndGoExactly(w: World, a: Action, window: nat, w': World, c: CaseName)
    requires WindowOk(window) && Safe(w, window) && Next(w, a, window, w')
    ensures c !in w.store.cases && c in w'.store.cases
       <==> c !in w.store.cases && a.Detect? && a.newName == c && forall d :: !Watches(w, d, a.affected, a.detector)
    ensures c !in w.store.cases && c in w'.store.cases ==>
              w'.store.cases[c] == ProblemCase(a.affected, a.detector, a.symptoms, w.clock / 1_000_000_000, CaseOpen, None)
    ensures c in w.store.cases && c !in w'.store.cases <==> c in w.store.cases && a == DeleteCase(c)
    ensures w'.clock == if a.Tick? then a.now else w.clock
  {
    CasesKept(w, a, window, w');
    hide Safe;
    if a.Detect? {
      assert forall d :: Watches(w, d, a.affected, a.detector) <==> OpenCaseFor(w.store.cases, d, a.affected, a.detector);
    }
  }

  lemma CasesKept(w: World, a: Action, window: nat, w': World)
    requires WindowOk(window) && Safe(w, window) && Next(w, a, window, w')
    ensures a.Correlate? ==> w'.store.cases.Keys == w.store.cases.Keys
  {
  }

  /** A stored case becomes resolved exactly by recovering while open or by the suppression of its
      Incident; it gets a label exactly by its own reconcile; and a detection of its resource and
      detector refreshes it while it is not resolved. Nothing else about it changes. */
  lemma CaseChangesExactly(w: World, a: Action, window: nat, w': World, c: CaseName)
    requires WindowOk(window) && Safe(w, window) && Next(w, a, window, w')
    requires c in w.store.cases && c in w'.store.cases
    ensures var was, pc := w.store.cases[c], w'.store.cases[c];
      && pc.affected == was.affected && pc.detector == was.detector
      && pc.state == (if (a == Clear(c) && was.state == CaseOpen) || (a.Suppress? && Holds(w, a.n, c)) then CaseResolved else was.state)
      && (pc.incident != was.incident <==> a.Correlate? && a.c == c && Homeless(w, c))
      && (was.incident != None ==> pc.incident == was.incident)
      && if a.Detect? && Watches(w, c, a.affected, a.detector)
         then pc.symptoms == a.symptoms && pc.lastSeen == w.clock / 1_000_000_000
         else pc.symptoms == was.symptoms && pc.lastSeen == was.lastSeen
  {
    if a.Correlate? {
      CorrelationWritesOneLabel(w, a, window, w');
      hide Safe, Next;
    } else if a.Detect? {
      assert OneOpenCasePerLabel(w.store.cases);
      assert forall d :: Watches(w, d, a.affected, a.detector) <==> OpenCaseFor(w.store.cases, d, a.affected, a.detector);
      hide Safe;
    } else {
      hide Safe;
    }
  }

  lemma CorrelationWritesOneLabel(w: World, a: Action, window: nat, w': World)
    requires WindowOk(window) && Safe(w, window) && Next(w, a, window, w') && a.Correlate?
    ensures if Homeless(w, a.c) then
              && a.c in w'.store.cases && w'.store.cases[a.c].incident.Some?
              && w'.store.cases == w.store.cases[a.c := w.store.cases[a.c].(incident := w'.store.cases[a.c].incident)]
            else w'.store.cases == w.store.cases
  {
    if Homeless(w, a.c) {
      var n := CorrelationInFull(w, a.c, a.root, a.searched, window, w');
    } else {
      ResolutionInFull(w, a.c, a.root, a.searched, window, w');
    }
    hide *;
  }

  /** The step attaches the case to that Incident. */
  ghost predicate Attaches(w: World, a: Action, w': World, n: IncidentName) {
    && a.Correlate? && Homeless(w, a.c)
    && a.c in w'.store.cases && w'.store.cases[a.c].incident == Some(n)
  }

  /** The reconcile of a resolved case finds no member of its Incident active. */
  ghost predicate Concludes(w: World, a: Action, n: IncidentName) {
    && a.Correlate? && a.c in w.store.cases && w.store.cases[a.c].state == CaseResolved && w.store.cases[a.c].incident == Some(n)
    && n in w.store.incidents && StillActive(w.store.incidents[n].members, w.store.cases) == {}
  }

  /** What happens to an Incident that stays: it is resolved exactly by the user, by its suppression or
      by a reconcile that concludes it, it is reopened exactly by an attachment, and its members grow
      exactly by the attached one. */
  ghost predicate Changes(w: World, a: Action, w': World, n: IncidentName)
    requires n in w.store.incidents && n in w'.store.incidents
  {
    var was, inc := w.store.incidents[n], w'.store.incidents[n];
    && inc.manual == was.manual && inc.fingerprint == was.fingerprint && inc.createdAt == was.createdAt
    && inc.members == was.members + (if Attaches(w, a, w', n) then [a.c] else [])
    && (!was.state.Resolved? ==>
          (inc.state.Resolved? <==> a == UserResolve(n) || (a == Suppress(n) && !was.manual) || Concludes(w, a, n)))
    && (was.state.Resolved? ==> (!inc.state.Resolved? <==> Attaches(w, a, w', n)))
  }

  /** An Incident appears exactly when a case is attached to it or it is filed by hand, none is ever
      removed, and of the rest this is all that happens. */
  lemma IncidentChangesExactly(w: World, a: Action, window: nat, w': World, n: IncidentName)
    requires WindowOk(window) && Safe(w, window) && Next(w, a, window, w')
    ensures n in w.store.incidents ==> n in w'.store.incidents && Changes(w, a, w', n)
    ensures n !in w.store.incidents ==>
              (n in w'.store.incidents <==> Attaches(w, a, w', n) || (a.FileManual? && n == ManualName(a.id)))
  {
    if a.Correlate? {
      if Homeless(w, a.c) {
        var m := CorrelationInFull(w, a.c, a.root, a.searched, window, w');
        hide *;
        AttachingChanges(w, a, window, w', m, n);
      } else {
        RecountingChanges(w, a, window, w', n);
        hide *;
      }
    } else {
      OtherChanges(w, a, window, w', n);
      hide *;
    }
  }

  lemma RecountingChanges(w: World, a: Action, window: nat, w': World, n: IncidentName)
    requires WindowOk(window) && Safe(w, window) && Next(w, a, window, w') && a.Correlate? && !Homeless(w, a.c)
    ensures n in w.store.incidents ==> n in w'.store.incidents && Changes(w, a, w', n)
    ensures n in w'.store.incidents ==> n in w.store.incidents
  {
    ResolutionInFull(w, a.c, a.root, a.searched, window, w');
    hide Safe, Next;
    if n in w.store.incidents {
      assert w.store.incidents[n].members + [] == w.store.incidents[n].members;
    }
  }

  lemma OtherChanges(w: World, a: Action, window: nat, w': World, n: IncidentName)
    requires WindowOk(window) && Next(w, a, window, w') && !a.Correlate?
    ensures n in w.store.incidents ==> n in w'.store.incidents && Changes(w, a, w', n)
    ensures n !in w.store.incidents ==> (n in w'.store.incidents <==> a.FileManual? && n == ManualName(a.id))
  {
    if n in w.store.incidents {
      assert w.store.incidents[n].members + [] == w.store.incidents[n].members;
    }
  }

  lemma AttachingChanges(w: World, a: Action, window: nat, w': World, m: IncidentName, n: IncidentName)
    requires WindowOk(window) && a.Correlate? && Homeless(w, a.c)
    requires w'.store.cases == w.store.cases[a.c := w.store.cases[a.c].(incident := Some(m))]
    requires m in w'.store.incidents && w'.store.incidents == w.store.incidents[m := w'.store.incidents[m]]
    requires w'.store.incidents[m].members == (if m in w.store.incidents then w.store.incidents[m].members else []) + [a.c]
    requires Correlated(w, a.root, a.searched, window, m, w'.store.incidents[m])
    ensures n in w.store.incidents ==> n in w'.store.incidents && Changes(w, a, w', n)
    ensures n !in w.store.incidents ==> (n in w'.store.incidents <==> Attaches(w, a, w', n))
  {
    hide Within, IsOf;
    assert Attaches(w, a, w', n) <==> n == m;
    hide Attaches;
    if n in w.store.incidents {
      assert w.store.incidents[n].members + [] == w.store.incidents[n].members;
    }
  }

  /** The count after the step. */
  ghost predicate Counts(w: World, a: Action, w': World, n: IncidentName)
    requires n in w.store.incidents && n in w'.store.incidents
  {
    var was, inc := w.store.incidents[n], w'.store.incidents[n];
    inc.active ==
      if was.state.Resolved? then if Attaches(w, a, w', n) then |StillActive(inc.members, w.store.cases)| else was.active
      else if a == Suppress(n) && !was.manual then 0
      else if Attaches(w, a, w', n)
              || (a.Correlate? && a.c in w.store.cases && w.store.cases[a.c].state == CaseResolved && w.store.cases[a.c].incident == Some(n))
      then |StillActive(inc.members, w.store.cases)| else was.active
  }

  /** Its count is rewritten exactly by a suppression, to zero, and by a reconcile of a case that is
      attached or is labelled with it, to the number of its active members. */
  lemma CountChangesExactly(w: World, a: Action, window: nat, w': World, n: IncidentName)
    requires WindowOk(window) && Safe(w, window) && Next(w, a, window, w')
    requires n in w.store.incidents && n in w'.store.incidents
    ensures Counts(w, a, w', n)
  {
    if a.Correlate? {
      if Homeless(w, a.c) {
        var m := CorrelationInFull(w, a.c, a.root, a.searched, window, w');
        hide *;
        AttachingCounts(w, a, window, w', m, n);
      } else {
        RecountingCounts(w, a, window, w', n);
        hide *;
      }
    } else {
      OthersCount(w, a, window, w', n);
      hide *;
    }
  }

  lemma AttachingCounts(w: World, a: Action, window: nat, w': World, m: IncidentName, n: IncidentName)
    requires WindowOk(window) && a.Correlate? && Homeless(w, a.c) && n in w.store.incidents
    requires w'.store.cases == w.store.cases[a.c := w.store.cases[a.c].(incident := Some(m))]
    requires m in w'.store.incidents && w'.store.incidents == w.store.incidents[m := w'.store.incidents[m]]
    requires w'.store.incidents[m].active == |StillActive(w'.store.incidents[m].members, w.store.cases)|
    ensures Counts(w, a, w', n)
  {
    hide StillActive;
    assert Attaches(w, a, w', n) <==> n == m;
  }

  lemma RecountingCounts(w: World, a: Action, window: nat, w': World, n: IncidentName)
    requires WindowOk(window) && Safe(w, window) && Next(w, a, window, w') && a.Correlate? && !Homeless(w, a.c)
    requires n in w.store.incidents && n in w'.store.incidents
    ensures Counts(w, a, w', n)
  {
    ResolutionInFull(w, a.c, a.root, a.searched, window, w');
    hide Safe, Next, StillActive;
  }

  lemma OthersCount(w: World, a: Action, window: nat, w': World, n: IncidentName)
    requires WindowOk(window) && Next(w, a, window, w') && !a.Correlate?
    requires n in w.store.incidents && n in w'.store.incidents
    ensures Counts(w, a, w', n)
  {
    hide StillActive;
  }

  /** Whatever changes a case queues it; its own reconcile takes it off unless it wrote the label. */
  lemma QueueChangesExactly(w: World, a: Action, window: nat, w': World, c: CaseName)
    requires WindowOk(window) && Safe(w, window) && Next(w, a, window, w')
    ensures var written :=
        (a.Detect? && c in w'.store.cases && (c !in w.store.cases || Watches(w, c, a.affected, a.detector)))
        || (c in w.store.cases && c in w'.store.cases && w'.store.cases[c].state != w.store.cases[c].state);
      c in w'.queue <==> written || (c in w.queue && a != DeleteCase(c) && !(a.Correlate? && a.c == c && !Homeless(w, c)))
  {
    if a.Correlate? {
      CorrelationWritesOneLabel(w, a, window, w');
    } else if a.Detect? {
      assert OneOpenCasePerLabel(w.store.cases);
      assert forall d :: Watches(w, d, a.affected, a.detector) <==> OpenCaseFor(w.store.cases, d, a.affected, a.detector);
    }
    hide Safe;
  }
}
