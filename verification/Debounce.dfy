/** The key-based debouncer: a lock-guarded map of timers over the runtime's own timers. */
module Debounce {

  datatype Timer = Timer(key: string, deadline: int)

  /** The map of timers, the timers that run, those whose callback waits for the lock, those whose
      callback has let go of it and is about to make the call, and the calls that were made. */
  datatype State = State(timers: map<string, nat>, armed: map<nat, Timer>, fired: map<nat, string>,
                         cleared: map<nat, string>, ran: seq<nat>)

  const EMPTY := State(map[], map[], map[], map[], [])

  /** Timer.Stop: a timer that has already fired is not recalled. */
  function Stopped(s: State, key: string): map<nat, Timer> {
    if key in s.timers then s.armed - {s.timers[key]} else s.armed
  }

  function Debounced(s: State, key: string, id: nat, deadline: int): State {
    s.(timers := s.timers[key := id], armed := Stopped(s, key)[id := Timer(key, deadline)])
  }

  function Cancelled(s: State, key: string): State {
    s.(timers := s.timers - {key}, armed := Stopped(s, key))
  }

  /** The runtime starts the callback. */
  function Expired(s: State, id: nat): State
    requires id in s.armed
  {
    s.(armed := s.armed - {id}, fired := s.fired[id := s.armed[id].key])
  }

  /** The callback takes the lock, deletes its key and lets go of the lock. */
  function Deleted(s: State, id: nat): State
    requires id in s.fired
  {
    s.(timers := s.timers - {s.fired[id]}, fired := s.fired - {id}, cleared := s.cleared[id := s.fired[id]])
  }

  /** Then it makes the call. */
  function Executed(s: State, id: nat): State
    requires id in s.cleared
  {
    s.(cleared := s.cleared - {id}, ran := s.ran + [id])
  }

  /** When a call of that window falls due; a negative window is due at once. */
  function Due(now: int, window: int): int {
    if window < 0 then now else now + window
  }

  /** The debouncer and the runtime under it. */
  class Debouncer {
    var timers: map<string, nat>
    var armed: map<nat, Timer>
    var fired: map<nat, string>
    var cleared: map<nat, string>
    var ran: seq<nat>

    constructor ()
      ensures Contents() == EMPTY
    {
      timers, armed, fired, cleared, ran := map[], map[], map[], map[], [];
    }

    ghost function Contents(): State
      reads this
    {
      State(timers, armed, fired, cleared, ran)
    }

    method Debounce(key: string, id: nat, now: int, window: int)
      modifies this
      ensures Contents() == Debounced(old(Contents()), key, id, now + if window > 0 then window else 0)
    {
      if key in timers {
        armed := armed - {timers[key]};
      }
      armed := armed[id := Timer(key, Due(now, window))];
      timers := timers[key := id];
    }

    method Cancel(key: string)
      modifies this
      ensures Contents() == Cancelled(old(Contents()), key)
    {
      if key in timers {
        armed := armed - {timers[key]};
        timers := timers - {key};
      }
      assert key !in timers ==> timers - {key} == timers;
    }

    method Expire(id: nat)
      requires id in armed
      modifies this
      ensures Contents() == Expired(old(Contents()), id)
    {
      fired := fired[id := armed[id].key];
      armed := armed - {id};
    }

    method Callback(id: nat)
      requires id in fired
      modifies this
      ensures Contents() == Deleted(old(Contents()), id)
    {
      timers := timers - {fired[id]};
      cleared := cleared[id := fired[id]];
      fired := fired - {id};
    }

    method Execute(id: nat)
      requires id in cleared
      modifies this
      ensures Contents() == Executed(old(Contents()), id)
    {
      cleared := cleared - {id};
      ran := ran + [id];
    }
  }
}

/** Expiry and callback as one step: what a debounced call is for. */
module DebounceTimeline {
  import opened Debounce

  datatype Event = Call(key: string, window: int) | Cancel(key: string) | Expire(id: nat)

  datatype Step = Step(time: int, event: Event)

  /** Calls are known by their place in the trace. */
  function Apply(s: State, step: Step, id: nat): State
    requires step.event.Expire? ==> step.event.id in s.armed
  {
    match step.event
    case Call(key, window) => Debounced(s, key, id, Due(step.time, window))
    case Cancel(key) => Cancelled(s, key)
    case Expire(due) => Executed(Deleted(Expired(s, due), due), due)
  }

  /** A timer expires at its deadline, and no step passes over a deadline. */
  predicate Enabled(s: State, step: Step) {
    && (forall id :: id in s.armed ==> step.time <= s.armed[id].deadline)
    && (step.event.Expire? ==> step.event.id in s.armed && s.armed[step.event.id].deadline == step.time)
  }

  predicate IsRun(trace: seq<Step>)
    decreases |trace|, 0
  {
    trace == [] ||
    var front, last := trace[..|trace| - 1], trace[|trace| - 1];
    IsRun(front) && Enabled(After(front), last) && (front != [] ==> front[|front| - 1].time <= last.time)
  }

  function After(trace: seq<Step>): State
    requires IsRun(trace)
    decreases |trace|, 1
  {
    if trace == [] then EMPTY
    else Apply(After(trace[..|trace| - 1]), trace[|trace| - 1], |trace| - 1)
  }

  predicate Touches(step: Step, key: string) {
    !step.event.Expire? && step.event.key == key
  }

  predicate IsCall(trace: seq<Step>, i: nat) {
    i < |trace| && trace[i].event.Call?
  }

  function Deadline(trace: seq<Step>, i: nat): int
    requires IsCall(trace, i)
  {
    Due(trace[i].time, trace[i].event.window)
  }

  /** Nothing later on its key and not yet expired. */
  predicate Pending(trace: seq<Step>, i: nat) {
    && IsCall(trace, i)
    && forall j :: i < j < |trace| ==> !Touches(trace[j], trace[i].event.key) && trace[j].event != Expire(i)
  }

  /** The running timers are the pending calls', set to their deadlines. */
  ghost predicate ArmedArePending(trace: seq<Step>, s: State) {
    && (forall i: nat :: i in s.armed <==> Pending(trace, i))
    && (forall i :: i in s.armed ==> s.armed[i] == Timer(trace[i].event.key, Deadline(trace, i)))
  }

  /** The map lists each running timer under its key, and nothing else. */
  ghost predicate MapListsArmed(s: State) {
    && (forall i :: i in s.armed ==> s.armed[i].key in s.timers && s.timers[s.armed[i].key] == i)
    && (forall k :: k in s.timers ==> s.timers[k] in s.armed && s.armed[s.timers[k]].key == k)
    && s.fired == map[] && s.cleared == map[]
  }

  ghost predicate MapIsPending(trace: seq<Step>, s: State) {
    ArmedArePending(trace, s) && MapListsArmed(s)
  }

  lemma PendingGrows(front: seq<Step>, last: Step, i: nat)
    ensures Pending(front + [last], i) <==>
              (i == |front| && last.event.Call?)
              || (Pending(front, i) && !Touches(last, front[i].event.key) && last.event != Expire(i))
  {
    var trace := front + [last];
    assert forall j :: 0 <= j < |front| ==> trace[j] == front[j];
    assert trace[|front|] == last;
  }

  lemma StepKeepsListing(s: State, step: Step, id: nat)
    requires MapListsArmed(s) && Enabled(s, step) && id !in s.armed
    ensures MapListsArmed(Apply(s, step, id))
  {
  }

  lemma StepKeepsPending(front: seq<Step>, step: Step, s: State)
    requires ArmedArePending(front, s) && MapListsArmed(s) && Enabled(s, step)
    ensures ArmedArePending(front + [step], Apply(s, step, |front|))
  {
    var trace, s' := front + [step], Apply(s, step, |front|);
    forall i: nat
      ensures i in s'.armed <==> Pending(trace, i)
      ensures i in s'.armed ==> s'.armed[i] == Timer(trace[i].event.key, Deadline(trace, i))
    {
      PendingGrows(front, step, i);
      hide Pending;
      assert i < |front| ==> trace[i] == front[i];
    }
  }

  /** The map holds exactly the pending calls, each under its key with its timer running. */
  lemma {:induction false} MapHoldsPendingCalls(trace: seq<Step>)
    requires IsRun(trace)
    ensures MapIsPending(trace, After(trace))
  {
    if trace != [] {
      var front, last := trace[..|trace| - 1], trace[|trace| - 1];
      assert trace == front + [last];
      MapHoldsPendingCalls(front);
      StepKeepsListing(After(front), last, |front|);
      StepKeepsPending(front, last, After(front));
      hide ArmedArePending, MapListsArmed, Enabled;
    }
  }

  /** The call was executed. */
  ghost predicate Ran(trace: seq<Step>, i: nat)
    requires IsRun(trace)
  {
    i in After(trace).ran
  }

  lemma {:induction false} PrefixIsRun(trace: seq<Step>, n: nat)
    requires IsRun(trace) && n <= |trace|
    ensures IsRun(trace[..n])
    ensures n < |trace| ==> Enabled(After(trace[..n]), trace[n])
    ensures forall k :: n <= k < |trace| && n > 0 ==> trace[n - 1].time <= trace[k].time
  {
    if n == |trace| {
      assert trace[..n] == trace;
    } else {
      var front := trace[..|trace| - 1];
      PrefixIsRun(front, n);
      assert front[..n] == trace[..n];
      if n > 0 {
        assert forall k :: n <= k < |front| ==> front[n - 1].time <= front[k].time;
      }
    }
  }

  /** A timer expires at the deadline of a call that is still pending. */
  lemma ExpiryWasPending(trace: seq<Step>, f: nat)
    requires IsRun(trace) && f < |trace| && trace[f].event.Expire?
    ensures var i := trace[f].event.id;
            i < f && Pending(trace[..f], i) && IsCall(trace, i) && trace[f].time == Deadline(trace, i)
  {
    PrefixIsRun(trace, f);
    MapHoldsPendingCalls(trace[..f]);
  }

  lemma {:induction false} RanMeansExpired(trace: seq<Step>, i: nat)
    requires IsRun(trace)
    ensures Ran(trace, i) <==> exists f: nat :: f < |trace| && trace[f].event == Expire(i)
  {
    if trace != [] {
      var n := |trace| - 1;
      var front := trace[..n];
      RanMeansExpired(front, i);
      if f: nat :| f < |trace| && trace[f].event == Expire(i) {
        assert f < n ==> front[f].event == Expire(i);
      }
      if f: nat :| f < |front| && front[f].event == Expire(i) {
        assert trace[f].event == Expire(i);
      }
    }
  }

  lemma {:induction false} RunsAtMostOnce(trace: seq<Step>, i: nat)
    requires IsRun(trace)
    ensures multiset(After(trace).ran)[i] <= 1
  {
    if trace != [] {
      var n := |trace| - 1;
      var front := trace[..n];
      RunsAtMostOnce(front, i);
      if trace[n].event == Expire(i) {
        ExpiryWasPending(trace, n);
        RanMeansExpired(front, i);
        if Ran(front, i) {
          var f: nat :| f < |front| && front[f].event == Expire(i);
          ExpiryWasPending(front, f);
        }
      }
    }
  }

  /** The run has reached that time and nothing is overdue. */
  ghost predicate Reached(trace: seq<Step>, now: int)
    requires IsRun(trace)
  {
    && (forall k :: 0 <= k < |trace| ==> trace[k].time <= now)
    && (forall id :: id in After(trace).armed ==> now < After(trace).armed[id].deadline)
  }

  /** A later call or cancellation of the same key by that time. */
  ghost predicate TouchedBy(trace: seq<Step>, i: nat, time: int)
    requires i < |trace| && !trace[i].event.Expire?
  {
    exists j :: i < j < |trace| && trace[j].time <= time && Touches(trace[j], trace[i].event.key)
  }

  /** An executed call had no later call or cancellation of its key before it ran, at its deadline. */
  lemma RanUntouched(trace: seq<Step>, i: nat) returns (f: nat)
    requires IsRun(trace) && Ran(trace, i)
    ensures i < f < |trace| && trace[f].event == Expire(i) && IsCall(trace, i) && trace[f].time == Deadline(trace, i)
    ensures forall j :: i < j < f ==> !Touches(trace[j], trace[i].event.key)
  {
    RanMeansExpired(trace, i);
    f :| f < |trace| && trace[f].event == Expire(i);
    ExpiryWasPending(trace, f);
    forall j | i < j < f
      ensures !Touches(trace[j], trace[i].event.key)
    {
      assert trace[..f][j] == trace[j];
    }
  }

  /** A call that nothing touches by its deadline is executed once the run is past it. */
  lemma UntouchedRuns(trace: seq<Step>, i: nat, now: int)
    requires IsRun(trace) && Reached(trace, now) && IsCall(trace, i) && Deadline(trace, i) <= now
    requires !TouchedBy(trace, i, Deadline(trace, i))
    ensures Ran(trace, i)
  {
    RanMeansExpired(trace, i);
    if !Ran(trace, i) {
      StaysPending(trace, i, |trace|);
      assert trace[..|trace|] == trace;
      MapHoldsPendingCalls(trace);
    }
  }

  /** No step passes the deadline of a call that is pending before it. */
  lemma PendingBoundsTime(trace: seq<Step>, i: nat, n: nat)
    requires IsRun(trace) && i < n < |trace| && Pending(trace[..n], i)
    ensures IsCall(trace, i) && trace[n].time <= Deadline(trace, i)
  {
    PrefixIsRun(trace, n);
    MapHoldsPendingCalls(trace[..n]);
    hide IsRun, After;
  }

  lemma {:induction false} StaysPending(trace: seq<Step>, i: nat, n: nat)
    requires IsRun(trace) && IsCall(trace, i) && i < n <= |trace| && !TouchedBy(trace, i, Deadline(trace, i))
    requires forall f :: 0 <= f < |trace| ==> trace[f].event != Expire(i)
    ensures Pending(trace[..n], i)
    decreases n
  {
    if n > i + 1 {
      hide IsRun, Pending;
      StaysPending(trace, i, n - 1);
      PendingBoundsTime(trace, i, n - 1);
      assert !Touches(trace[n - 1], trace[i].event.key);
      assert trace[..n] == trace[..n - 1] + [trace[n - 1]];
      PendingGrows(trace[..n - 1], trace[n - 1], i);
    }
  }

  /** With nothing on its key at the very instant of its deadline, a call is executed exactly
      when nothing on its key comes before that. */
  lemma RunsExactlyWhenUntouched(trace: seq<Step>, i: nat, now: int)
    requires IsRun(trace) && Reached(trace, now) && IsCall(trace, i)
    requires forall j :: i < j < |trace| && Touches(trace[j], trace[i].event.key) ==> trace[j].time != Deadline(trace, i)
    ensures Ran(trace, i) <==> Deadline(trace, i) <= now && !TouchedBy(trace, i, Deadline(trace, i))
  {
    if Ran(trace, i) {
      RanMeansOnTime(trace, i, now);
      hide *;
    } else if Deadline(trace, i) <= now && !TouchedBy(trace, i, Deadline(trace, i)) {
      UntouchedRuns(trace, i, now);
    }
  }

  lemma LaterIsLater(trace: seq<Step>, f: nat)
    requires IsRun(trace) && f < |trace|
    ensures forall k :: f < k < |trace| ==> trace[f].time <= trace[k].time
  {
    PrefixIsRun(trace, f + 1);
  }

  lemma NotOverdue(trace: seq<Step>, f: nat, now: int)
    requires IsRun(trace) && Reached(trace, now) && f < |trace|
    ensures trace[f].time <= now
  {
  }

  lemma RanMeansOnTime(trace: seq<Step>, i: nat, now: int)
    requires IsRun(trace) && Reached(trace, now) && IsCall(trace, i) && Ran(trace, i)
    requires forall j :: i < j < |trace| && Touches(trace[j], trace[i].event.key) ==> trace[j].time != Deadline(trace, i)
    ensures Deadline(trace, i) <= now && !TouchedBy(trace, i, Deadline(trace, i))
  {
    var f := RanUntouched(trace, i);
    hide IsRun, After, Ran, Enabled, Touches, Due, Deadline, Reached;
    LaterIsLater(trace, f);
    NotOverdue(trace, f, now);
    forall j | i < j < |trace| && Touches(trace[j], trace[i].event.key)
      ensures trace[j].time > Deadline(trace, i)
    {
      assert j > f;
    }
  }

  // ---- The quiet window -------------------------------------------------------------

  /** The end of the window that the call opens; a negative window is over at once. */
  function QuietUntil(trace: seq<Step>, i: nat): int
    requires i < |trace| && trace[i].event.Call?
  {
    trace[i].time + if trace[i].event.window > 0 then trace[i].event.window else 0
  }

  /** A later call or cancellation of the same key within that window, its end included. */
  predicate Disturbs(trace: seq<Step>, i: nat, j: nat)
    requires i < |trace| && trace[i].event.Call?
  {
    && i < j < |trace| && trace[j].time <= QuietUntil(trace, i)
    && (trace[j].event.Call? || trace[j].event.Cancel?) && trace[j].event.key == trace[i].event.key
  }

  /** Once the run is past a call's window, the call has been made exactly when nothing on its key came
      within it, ties at its very end aside; and then it was made at its end. */
  lemma QuietWindowExactly(trace: seq<Step>, i: nat, late: nat)
    requires IsRun(trace) && i < |trace| && trace[i].event.Call?
    requires late < |trace| && trace[late].time > QuietUntil(trace, i)
    requires forall j: nat :: Disturbs(trace, i, j) ==> trace[j].time < QuietUntil(trace, i)
    ensures i in After(trace).ran <==> forall j: nat :: !Disturbs(trace, i, j)
    ensures forall f: nat :: f < |trace| && trace[f].event == Expire(i) ==> i < f && trace[f].time == QuietUntil(trace, i)
  {
    hide *;
    forall f: nat | f < |trace| && trace[f].event == Expire(i)
      ensures i < f && trace[f].time == QuietUntil(trace, i)
    {
      ExpiredAtEnd(trace, i, f);
    }
    if i in After(trace).ran {
      RanInQuiet(trace, i);
    } else if forall j: nat :: !Disturbs(trace, i, j) {
      QuietHasRun(trace, i, late);
    }
  }

  lemma ExpiredAtEnd(trace: seq<Step>, i: nat, f: nat)
    requires IsRun(trace) && i < |trace| && trace[i].event.Call? && f < |trace| && trace[f].event == Expire(i)
    ensures i < f && trace[f].time == QuietUntil(trace, i)
  {
    ExpiryWasPending(trace, f);
  }

  lemma RanInQuiet(trace: seq<Step>, i: nat)
    requires IsRun(trace) && i < |trace| && trace[i].event.Call? && i in After(trace).ran
    requires forall j: nat :: Disturbs(trace, i, j) ==> trace[j].time < QuietUntil(trace, i)
    ensures forall j: nat :: !Disturbs(trace, i, j)
  {
    assert Ran(trace, i) && IsCall(trace, i);
    hide *;
    DisturbingTouches(trace, i);
    var f := RanUntouched(trace, i);
    LaterIsLater(trace, f);
    AfterExpiryIsLate(trace, i, f);
  }

  /** What comes after the end of the window is not within it. */
  lemma AfterExpiryIsLate(trace: seq<Step>, i: nat, f: nat)
    requires i < f < |trace| && IsCall(trace, i) && trace[f].time == Deadline(trace, i)
    requires forall j :: i < j < f ==> !Touches(trace[j], trace[i].event.key)
    requires forall k :: f < k < |trace| ==> trace[f].time <= trace[k].time
    ensures forall j: nat :: i < j < |trace| && Touches(trace[j], trace[i].event.key) ==> trace[j].time >= Deadline(trace, i)
  {
    hide Touches, Deadline;
  }

  lemma QuietHasRun(trace: seq<Step>, i: nat, late: nat)
    requires IsRun(trace) && i < |trace| && trace[i].event.Call? && late < |trace| && trace[late].time > QuietUntil(trace, i)
    requires forall j: nat :: !Disturbs(trace, i, j)
    ensures i in After(trace).ran
  {
    DisturbingTouches(trace, i);
    if !Ran(trace, i) {
      hide IsRun, After, Disturbs, Touches, QuietUntil;
      PassedWhilePending(trace, i, late);
    }
  }

  lemma DisturbingTouches(trace: seq<Step>, i: nat)
    requires i < |trace| && trace[i].event.Call?
    ensures QuietUntil(trace, i) == Deadline(trace, i)
    ensures forall j: nat :: Disturbs(trace, i, j) <==>
              i < j < |trace| && trace[j].time <= Deadline(trace, i) && Touches(trace[j], trace[i].event.key)
  {
  }

  /** No step comes after the deadline of a call that is never touched and never expires. */
  lemma PassedWhilePending(trace: seq<Step>, i: nat, late: nat)
    requires IsRun(trace) && IsCall(trace, i) && late < |trace|
    requires !TouchedBy(trace, i, Deadline(trace, i)) && !Ran(trace, i)
    ensures trace[late].time <= Deadline(trace, i)
  {
    RanMeansExpired(trace, i);
    if late > i {
      StaysPending(trace, i, late);
      PendingBoundsTime(trace, i, late);
    } else if late < i {
      LaterIsLater(trace, late);
    }
  }

  lemma RanLast(trace: seq<Step>)
    requires IsRun(trace) && trace != []
    ensures var n := |trace| - 1;
      && IsRun(trace[..n])
      && After(trace).ran == After(trace[..n]).ran + if trace[n].event.Expire? then [trace[n].event.id] else []
  {
  }

  /** These calls expired at these steps, in that order, and no others did. */
  ghost predicate ExpiredAt(trace: seq<Step>, calls: seq<nat>, at: seq<int>) {
    && |calls| == |at|
    && (forall a, b :: 0 <= a < b < |at| ==> at[a] < at[b])
    && (forall k :: k in at <==> 0 <= k < |trace| && trace[k].event.Expire?)
    && (forall k :: 0 <= k < |at| ==> 0 <= at[k] < |trace| && trace[at[k]].event == Expire(calls[k]))
  }

  lemma OneMoreStep(front: seq<Step>, last: Step, calls: seq<nat>, at: seq<int>)
    requires ExpiredAt(front, calls, at)
    ensures !last.event.Expire? ==> ExpiredAt(front + [last], calls, at)
    ensures last.event.Expire? ==> ExpiredAt(front + [last], calls + [last.event.id], at + [|front|])
  {
    var trace := front + [last];
    assert trace[|front|] == last && forall k :: 0 <= k < |front| ==> trace[k] == front[k];
    if last.event.Expire? {
      var calls', at' := calls + [last.event.id], at + [|front|];
      assert forall k :: k in at' <==> k in at || k == |front|;
      assert at'[|at|] == |front| && calls'[|at|] == last.event.id;
      assert forall k :: 0 <= k < |at| ==> at'[k] == at[k] && calls'[k] == calls[k];
    }
  }

  /** Calls are made in the order in which their timers expire. */
  lemma {:induction false} RanInOrder(trace: seq<Step>) returns (at: seq<int>)
    requires IsRun(trace)
    ensures ExpiredAt(trace, After(trace).ran, at)
  {
    at := [];
    if trace != [] {
      var n := |trace| - 1;
      at := RanInOrder(trace[..n]);
      RanLast(trace);
      hide IsRun, After, ExpiredAt;
      assert trace == trace[..n] + [trace[n]];
      OneMoreStep(trace[..n], trace[n], After(trace[..n]).ran, at);
      if trace[n].event.Expire? {
        at := at + [n];
      }
    }
  }

  /** In every run the timers that run are those of calls that nothing on their key followed and that did
      not expire, each set to the end of its window. */
  lemma TimersExactly(trace: seq<Step>, i: nat)
    requires IsRun(trace)
    ensures i in After(trace).armed <==>
              && i < |trace| && trace[i].event.Call?
              && forall j :: i < j < |trace| ==>
                   && trace[j].event != Expire(i)
                   && !((trace[j].event.Call? || trace[j].event.Cancel?) && trace[j].event.key == trace[i].event.key)
    ensures i in After(trace).armed ==> After(trace).armed[i] == Timer(trace[i].event.key, QuietUntil(trace, i))
  {
    MapHoldsPendingCalls(trace);
    hide IsRun, After;
  }
}

/** Expiry and callback as two steps, with anything in between them. */
module DebounceRace {
  import opened Debounce

  datatype Event = Call(key: string, deadline: int) | Cancel(key: string) | Expire(id: nat) | Callback(id: nat) | Execute(id: nat)

  predicate Enabled(s: State, e: Event) {
    match e
    case Expire(id) => id in s.armed
    case Callback(id) => id in s.fired
    case Execute(id) => id in s.cleared
    case _ => true
  }

  function Apply(s: State, e: Event, id: nat): State
    requires Enabled(s, e)
  {
    match e
    case Call(key, deadline) => Debounced(s, key, id, deadline)
    case Cancel(key) => Cancelled(s, key)
    case Expire(due) => Expired(s, due)
    case Callback(due) => Deleted(s, due)
    case Execute(due) => Executed(s, due)
  }

  predicate IsRun(trace: seq<Event>)
    decreases |trace|, 0
  {
    trace == [] ||
    var front := trace[..|trace| - 1];
    IsRun(front) && Enabled(After(front), trace[|trace| - 1])
  }

  function After(trace: seq<Event>): State
    requires IsRun(trace)
    decreases |trace|, 1
  {
    if trace == [] then EMPTY
    else Apply(After(trace[..|trace| - 1]), trace[|trace| - 1], |trace| - 1)
  }

  lemma Extend(front: seq<Event>, s: State, e: Event)
    requires IsRun(front) && After(front) == s && Enabled(s, e)
    ensures IsRun(front + [e]) && After(front + [e]) == Apply(s, e, |front|)
  {
    assert (front + [e])[..|front|] == front;
  }

  ghost predicate Consistent(s: State, issued: nat) {
    && (forall id :: id in s.armed ==> id < issued && id !in s.fired && id !in s.cleared && id !in s.ran)
    && (forall id :: id in s.fired ==> id < issued && id !in s.cleared && id !in s.ran)
    && (forall id :: id in s.cleared ==> id < issued && id !in s.ran)
    && (forall id :: id in s.ran ==> id < issued)
    && (forall a, b :: 0 <= a < b < |s.ran| ==> s.ran[a] != s.ran[b])
    && (forall key :: key in s.timers ==>
          var id := s.timers[key];
          (id in s.armed && s.armed[id].key == key) || (id in s.fired && s.fired[id] == key))
  }

  /** Every step from a consistent state leads to one. */
  lemma StepKeepsConsistent(s: State, e: Event, issued: nat)
    requires Consistent(s, issued) && Enabled(s, e)
    ensures Consistent(Apply(s, e, issued), issued + 1)
  {
  }

  /** In every interleaving no call runs twice, and a timer in the map is running or waits for
      the lock: never one whose delete has already run. */
  lemma {:induction false} RunsStayConsistent(trace: seq<Event>)
    requires IsRun(trace)
    ensures Consistent(After(trace), |trace|)
  {
    if trace != [] {
      var front := trace[..|trace| - 1];
      RunsStayConsistent(front);
      StepKeepsConsistent(After(front), trace[|trace| - 1], |front|);
    }
  }

  /** Running calls of a key that the map has lost. */
  predicate Stray(s: State, id: nat) {
    id in s.armed && !(s.armed[id].key in s.timers && s.timers[s.armed[id].key] == id)
  }

  /** Cancel misses exactly the strays of its key. */
  lemma CancelMissesExactlyStrays(s: State, key: string, id: nat, issued: nat)
    requires Consistent(s, issued) && id in s.armed && s.armed[id].key == key
    ensures id in Cancelled(s, key).armed <==> Stray(s, id)
  {
  }

  /** The first stray appears exactly when a callback deletes the entry of a later call. */
  lemma StraysAriseExactly(s: State, e: Event, issued: nat)
    requires Consistent(s, issued) && Enabled(s, e) && forall id :: id in s.armed ==> !Stray(s, id)
    ensures (exists id :: Stray(Apply(s, e, issued), id))
       <==> e.Callback? && s.fired[e.id] in s.timers && s.timers[s.fired[e.id]] in s.armed
  {
    var after := Apply(s, e, issued);
    if e.Callback? && s.fired[e.id] in s.timers && s.timers[s.fired[e.id]] in s.armed {
      assert Stray(after, s.timers[s.fired[e.id]]);
    }
  }

  // ---- What Cancel promises --------------------------------------------------------

  /** A call of the key has expired and is on its way. */
  predicate Underway(s: State, key: string) {
    key in s.fired.Values || key in s.cleared.Values
  }

  ghost predicate HasStray(s: State, key: string) {
    exists id :: Stray(s, id) && s.armed[id].key == key
  }

  ghost predicate HasRunning(s: State, key: string) {
    exists id :: id in s.armed && s.armed[id].key == key
  }

  /** Right after Cancel nothing of the key can still be executed exactly when nothing of it was on
      its way and the map had lost none of its timers. */
  lemma CancelStopsExactly(s: State, key: string, issued: nat)
    requires Consistent(s, issued)
    ensures !HasRunning(Cancelled(s, key), key) && !Underway(Cancelled(s, key), key)
       <==> !Underway(s, key) && !HasStray(s, key)
  {
    forall id | id in s.armed && s.armed[id].key == key
      ensures id in Cancelled(s, key).armed <==> Stray(s, id)
    {
      CancelMissesExactlyStrays(s, key, id, issued);
    }
    assert forall id :: id in Cancelled(s, key).armed ==> id in s.armed && Cancelled(s, key).armed[id] == s.armed[id];
  }

  /** No run through this Cancel makes an earlier call of the key that was not made before it. */
  ghost predicate CancelHolds(trace: seq<Event>, key: string)
    requires IsRun(trace)
  {
    forall more, id ::
      IsRun(trace + [Cancel(key)] + more) && IsCallOf(trace, id, key) ==>
        id in After(trace + [Cancel(key)] + more).ran ==> id in After(trace).ran
  }

  predicate IsCallOf(trace: seq<Event>, id: nat, key: string) {
    id < |trace| && trace[id].Call? && trace[id].key == key
  }

  /** Timers keep the key of the call they were set for. */
  ghost predicate Faithful(trace: seq<Event>, s: State) {
    && (forall id :: id in s.armed ==> IsCallOf(trace, id, s.armed[id].key))
    && (forall id :: id in s.fired ==> IsCallOf(trace, id, s.fired[id]))
    && (forall id :: id in s.cleared ==> IsCallOf(trace, id, s.cleared[id]))
  }

  lemma StepKeepsFaithful(front: seq<Event>, s: State, e: Event)
    requires Faithful(front, s) && Enabled(s, e)
    ensures Faithful(front + [e], Apply(s, e, |front|))
  {
    var trace := front + [e];
    assert forall id: nat, key :: IsCallOf(front, id, key) ==> IsCallOf(trace, id, key);
    assert e.Call? ==> IsCallOf(trace, |front|, e.key);
    hide IsCallOf;
  }

  lemma {:induction false} RunsStayFaithful(trace: seq<Event>)
    requires IsRun(trace)
    ensures Faithful(trace, After(trace))
  {
    if trace != [] {
      var front, last := trace[..|trace| - 1], trace[|trace| - 1];
      assert trace == front + [last];
      RunsStayFaithful(front);
      hide Faithful, Apply;
      StepKeepsFaithful(front, After(front), last);
    }
  }

  /** Nothing of the key that was called before that point is running or on its way. */
  ghost predicate Gone(s: State, before: seq<Event>, key: string) {
    forall id: nat :: IsCallOf(before, id, key) ==> id !in s.armed && id !in s.fired && id !in s.cleared
  }

  lemma StepKeepsGone(s: State, e: Event, issued: nat, before: seq<Event>, key: string)
    requires Gone(s, before, key) && Enabled(s, e) && |before| <= issued
    ensures Gone(Apply(s, e, issued), before, key)
    ensures forall id: nat :: IsCallOf(before, id, key) && id in Apply(s, e, issued).ran ==> id in s.ran
  {
  }

  lemma {:induction false} GoneStaysGone(trace: seq<Event>, more: seq<Event>, before: seq<Event>, key: string)
    requires IsRun(trace) && IsRun(trace + more) && Gone(After(trace), before, key) && |before| <= |trace|
    ensures Gone(After(trace + more), before, key)
    ensures forall id: nat :: IsCallOf(before, id, key) && id in After(trace + more).ran ==> id in After(trace).ran
    decreases |more|
  {
    if more == [] {
      assert trace + more == trace;
    } else {
      var n := |more| - 1;
      assert (trace + more)[..|trace + more| - 1] == trace + more[..n];
      GoneStaysGone(trace, more[..n], before, key);
      StepKeepsGone(After(trace + more[..n]), more[n], |trace + more| - 1, before, key);
      hide Gone, Apply;
    }
  }

  lemma ExtendBy(trace: seq<Event>, more: seq<Event>, s: State, e: Event)
    requires IsRun(trace + more) && After(trace + more) == s && Enabled(s, e)
    ensures IsRun(trace + (more + [e])) && After(trace + (more + [e])) == Apply(s, e, |trace| + |more|)
  {
    hide Apply, Enabled, IsRun, After;
    Extend(trace + more, s, e);
    assert trace + more + [e] == trace + (more + [e]);
  }

  /** The steps that lead a running or expired call to its execution. */
  lemma MakesCall(trace: seq<Event>, s: State, id: nat) returns (more: seq<Event>)
    requires IsRun(trace) && After(trace) == s && (id in s.armed || id in s.fired || id in s.cleared)
    ensures IsRun(trace + more) && id in After(trace + more).ran
  {
    hide IsRun, After;
    more := [];
    assert trace + more == trace;
    var t := s;
    if id in t.armed {
      ExtendBy(trace, more, t, Expire(id));
      t, more := Expired(t, id), more + [Expire(id)];
    }
    if id in t.fired {
      ExtendBy(trace, more, t, Callback(id));
      t, more := Deleted(t, id), more + [Callback(id)];
    }
    ExtendBy(trace, more, t, Execute(id));
    more := more + [Execute(id)];
  }

  /** Cancel keeps every earlier call of its key from being made exactly when none was on its way and
      the map had lost none. */
  lemma CancelHoldsExactly(trace: seq<Event>, key: string)
    requires IsRun(trace)
    ensures CancelHolds(trace, key) <==> !Underway(After(trace), key) && !HasStray(After(trace), key)
  {
    var s, s' := After(trace), Cancelled(After(trace), key);
    var cancelled := trace + [Cancel(key)];
    RunsStayConsistent(trace);
    RunsStayFaithful(trace);
    Extend(trace, s, Cancel(key));
    CancelStopsExactly(s, key, |trace|);
    hide IsRun, After, Underway, HasStray;
    if !HasRunning(s', key) && !Underway(s', key) {
      GoneAfterCancel(trace, s, key);
      forall more, id | IsRun(cancelled + more) && IsCallOf(trace, id, key) && id in After(cancelled + more).ran
        ensures id in s.ran
      {
        GoneStaysGone(cancelled, more, trace, key);
      }
    } else {
      var id := SomethingLeft(trace, s, key);
      var more := MakesCall(cancelled, s', id);
      assert IsRun(cancelled + more) && IsCallOf(trace, id, key) && id in After(cancelled + more).ran && id !in s.ran;
    }
  }

  lemma GoneAfterCancel(trace: seq<Event>, s: State, key: string)
    requires Faithful(trace, s) && !HasRunning(Cancelled(s, key), key) && !Underway(Cancelled(s, key), key)
    ensures Gone(Cancelled(s, key), trace, key)
  {
    var s' := Cancelled(s, key);
    assert forall id :: id in s'.armed ==> s'.armed[id].key != key;
    assert forall id :: id in s'.fired ==> s'.fired[id] in s'.fired.Values;
    assert forall id :: id in s'.cleared ==> s'.cleared[id] in s'.cleared.Values;
  }

  lemma SomethingLeft(trace: seq<Event>, s: State, key: string) returns (id: nat)
    requires Faithful(trace, s) && Consistent(s, |trace|)
    requires HasRunning(Cancelled(s, key), key) || Underway(Cancelled(s, key), key)
    ensures IsCallOf(trace, id, key) && id !in s.ran
    ensures var s' := Cancelled(s, key); id in s'.armed || id in s'.fired || id in s'.cleared
  {
    var s' := Cancelled(s, key);
    if HasRunning(s', key) {
      id :| id in s'.armed && s'.armed[id].key == key;
    } else if key in s'.fired.Values {
      id :| id in s'.fired && s'.fired[id] == key;
    } else {
      id :| id in s'.cleared && s'.cleared[id] == key;
    }
  }

  /** A call of the same key is made while an expired one still waits for the lock. */
  predicate CallsOverExpired(s: State, e: Event) {
    e.Call? && e.key in s.fired.Values
  }

  /** Every running timer is in the map, and no waiting callback will delete another's entry. */
  ghost predicate Listed(s: State) {
    && (forall id :: id in s.armed ==> !Stray(s, id))
    && (forall id :: id in s.fired && s.fired[id] in s.timers ==> s.timers[s.fired[id]] == id)
  }

  lemma StepKeepsListed(s: State, e: Event, issued: nat)
    requires Consistent(s, issued) && Listed(s) && Enabled(s, e) && !CallsOverExpired(s, e)
    ensures Listed(Apply(s, e, issued))
  {
  }

  ghost predicate NeverCallsOverExpired(trace: seq<Event>)
    requires IsRun(trace)
    decreases |trace|
  {
    trace == [] ||
    var front := trace[..|trace| - 1];
    NeverCallsOverExpired(front) && !CallsOverExpired(After(front), trace[|trace| - 1])
  }

  lemma {:induction false} RunsStayListed(trace: seq<Event>)
    requires IsRun(trace) && NeverCallsOverExpired(trace)
    ensures Listed(After(trace))
  {
    if trace != [] {
      var front := trace[..|trace| - 1];
      RunsStayListed(front);
      RunsStayConsistent(front);
      hide Listed, Consistent, CallsOverExpired;
      StepKeepsListed(After(front), trace[|trace| - 1], |front|);
    }
  }

  lemma ListedHasNoStray(s: State, key: string)
    requires Listed(s)
    ensures !HasStray(s, key)
  {
  }

  /** In a run where no call is made over an expired one, Cancel stops every running call of its key,
      and no earlier call of the key is made afterwards exactly when none was on its way. */
  lemma CancelStopsAll(trace: seq<Event>, key: string)
    requires IsRun(trace) && NeverCallsOverExpired(trace)
    ensures !HasRunning(Cancelled(After(trace), key), key)
    ensures CancelHolds(trace, key) <==> !Underway(After(trace), key)
  {
    RunsStayConsistent(trace);
    RunsStayListed(trace);
    ListedHasNoStray(After(trace), key);
    CancelHoldsExactly(trace, key);
    CancelStopsRunning(After(trace), key, |trace|);
    hide *;
  }

  lemma CancelStopsRunning(s: State, key: string, issued: nat)
    requires Consistent(s, issued) && !HasStray(s, key)
    ensures !HasRunning(Cancelled(s, key), key)
  {
    var s' := Cancelled(s, key);
    forall id | id in s'.armed
      ensures s'.armed[id].key != key
    {
      if s.armed[id].key == key {
        CancelMissesExactlyStrays(s, key, id, issued);
      }
    }
  }

  /** A call made while an expired one of its key waits for the lock outlives any later Cancel. */
  lemma CallOverExpiredIsMissed(s: State, due: nat, deadline: int, issued: nat)
    requires Consistent(s, issued) && due in s.fired
    ensures var key := s.fired[due];
            issued in Cancelled(Deleted(Debounced(s, key, issued, deadline), due), key).armed
  {
  }

  /** Such a run exists: the second call of the key is still going to run after its Cancel. */
  lemma CancelCanBeMissed(key: string, deadline: int) returns (trace: seq<Event>)
    ensures IsRun(trace) && trace != [] && trace[|trace| - 1] == Cancel(key)
    ensures exists id :: id in After(trace).armed && After(trace).armed[id].key == key
  {
    var t := Timer(key, deadline);
    trace := [];
    Extend(trace, EMPTY, Call(key, deadline));
    hide IsRun, After;
    trace := trace + [Call(key, deadline)];
    Extend(trace, State(map[key := 0], map[0 := t], map[], map[], []), Expire(0));
    trace := trace + [Expire(0)];
    Extend(trace, State(map[key := 0], map[], map[0 := key], map[], []), Call(key, deadline));
    trace := trace + [Call(key, deadline)];
    Extend(trace, State(map[key := 2], map[2 := t], map[0 := key], map[], []), Callback(0));
    trace := trace + [Callback(0)];
    Extend(trace, State(map[], map[2 := t], map[], map[0 := key], []), Cancel(key));
    trace := trace + [Cancel(key)];
    assert 2 in After(trace).armed;
  }

  /** And without any call over an expired one: a call that has expired is made after its Cancel. */
  lemma ExpiredIsNotCancelled(key: string, deadline: int)
    ensures var trace := [Call(key, deadline)] + [Expire(0)];
            IsRun(trace) && NeverCallsOverExpired(trace) && !CancelHolds(trace, key)
  {
    var first := [] + [Call(key, deadline)];
    Extend([], EMPTY, Call(key, deadline));
    NeverCallsMore([], Call(key, deadline));
    Extend(first, State(map[key := 0], map[0 := Timer(key, deadline)], map[], map[], []), Expire(0));
    NeverCallsMore(first, Expire(0));
    assert first == [Call(key, deadline)];
    var trace := first + [Expire(0)];
    assert After(trace).fired[0] == key;
    assert key in After(trace).fired.Values;
    hide IsRun, After, NeverCallsOverExpired;
    CancelStopsAll(trace, key);
  }

  lemma NeverCallsMore(front: seq<Event>, e: Event)
    requires IsRun(front) && IsRun(front + [e]) && NeverCallsOverExpired(front) && !CallsOverExpired(After(front), e)
    ensures NeverCallsOverExpired(front + [e])
  {
    assert (front + [e])[..|front|] == front;
  }
}
