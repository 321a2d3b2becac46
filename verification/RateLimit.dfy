/** The documented limit of three activations per 24 hours, and exactly when a run keeps it. */
module RateLimit {
  import opened Mode
  import opened ModeRuns
  import opened Wrappers

  /** The documented limit: any four successive activations span at least a day. */
  ghost predicate ThreePerDay(acts: seq<Activation>) {
    forall i :: 0 <= i < |acts| - 3 ==> acts[i + 3].time >= acts[i].time + DAY
  }

  /** The activations of one window that are less than a day old at `time`. */
  ghost function YoungIn(acts: seq<Activation>, window: int, time: nat): set<int> {
    set i | 0 <= i < |acts| && acts[i].window == window && time < acts[i].time + DAY
  }

  /** The window an activation call at `t` falls in. */
  function WindowAt(w: World, t: Readings): int {
    if t.age >= w.s.lastReset + DAY then |w.starts| else |w.starts| - 1
  }

  /** What the documented limit needs before an activation: the counter, plus the activations of the
      window before that are less than a day old, stay below three. The counter counts as it stands
      while the call ends inside its window; otherwise its own activations may have aged too. */
  ghost predicate HasRoom(w: World, t: Readings) {
    var s1 := ResetIfNeeded(w.s, t.age, t.reset);
    var current := if t.expiry < s1.lastReset + DAY then s1.activations
                   else |YoungIn(w.acts, WindowAt(w, t), t.expiry)|;
    current + |YoungIn(w.acts, WindowAt(w, t) - 1, t.expiry)| < MAX_ACTIVATIONS
  }

  /** The activations less than a day old are a suffix of all. */
  lemma YoungSuffix(acts: seq<Activation>, time: nat) returns (k: nat)
    requires forall i, j :: 0 <= i <= j < |acts| ==> acts[i].time <= acts[j].time
    ensures k <= |acts| && forall i :: 0 <= i < |acts| ==> (time < acts[i].time + DAY <==> k <= i)
  {
    k := |acts|;
    while k > 0 && time < acts[k - 1].time + DAY
      invariant k <= |acts| && forall i :: k <= i < |acts| ==> time < acts[i].time + DAY
    {
      k := k - 1;
    }
  }

  /** Young activations fall in the current window and the one before. */
  lemma YoungWindows(acts: seq<Activation>, starts: seq<nat>, clock: nat, count: nat, last: nat, time: nat, i: nat)
    requires StartsOk(starts, clock, last) && ActsOk(acts, starts, clock, count) && clock <= time && i < |acts|
    requires time < acts[i].time + DAY
    ensures acts[i].window == |starts| - 1 || acts[i].window == |starts| - 2
  {
    assert ActOk(acts[i], starts, clock);
    if acts[i].window < |starts| - 2 { StartsSpread(starts, acts[i].window + 2, |starts| - 1); }
  }

  lemma YoungCount(acts: seq<Activation>, starts: seq<nat>, clock: nat, count: nat, last: nat, time: nat, k: nat)
    requires StartsOk(starts, clock, last) && ActsOk(acts, starts, clock, count) && clock <= time && k <= |acts|
    requires forall i :: 0 <= i < |acts| ==> (time < acts[i].time + DAY <==> k <= i)
    ensures |YoungIn(acts, |starts| - 1, time)| + |YoungIn(acts, |starts| - 2, time)| == |acts| - k
  {
    var now, before := YoungIn(acts, |starts| - 1, time), YoungIn(acts, |starts| - 2, time);
    var young := Span(k, |acts| - k);
    SpanSize(k, |acts| - k);
    hide Span, StartsOk, ActsOk;
    forall i | i in young ensures i in now + before { YoungWindows(acts, starts, clock, count, last, time, i); }
    assert now + before == young;
    DisjointSize(now, before);
  }

  lemma DisjointSize(a: set<int>, b: set<int>)
    requires a !! b
    ensures |a + b| == |a| + |b|
  {
  }

  /** While the call ends inside its window, the counter is the number of young activations of it. */
  lemma CounterIsYoung(acts: seq<Activation>, starts: seq<nat>, clock: nat, count: nat, last: nat, time: nat)
    requires StartsOk(starts, clock, last) && ActsOk(acts, starts, clock, count) && time < last + DAY
    ensures |YoungIn(acts, |starts| - 1, time)| == count
  {
    SpanSize(|acts| - count, count);
    hide Span;
    var young, span := YoungIn(acts, |starts| - 1, time), Span(|acts| - count, count);
    forall i | i in span ensures i in young { assert ActOk(acts[i], starts, clock); }
    assert young == span;
  }

  /** Appending one activation keeps the limit exactly when fewer than three are young. */
  lemma AppendThree(acts: seq<Activation>, a: Activation, k: nat)
    requires ThreePerDay(acts) && k <= |acts|
    requires forall i :: 0 <= i < |acts| ==> (a.time < acts[i].time + DAY <==> k <= i)
    ensures ThreePerDay(acts + [a]) <==> |acts| - k < 3
  {
    var n, more := |acts|, acts + [a];
    if n >= 3 { assert more[n - 3 + 3] == a && more[n - 3] == acts[n - 3]; }
  }

  /** A successful activation of a run that kept three per 24 hours so far keeps it exactly when the
      counter and the window before leave room; the code looks at the counter alone. */
  lemma KeepsThreePerDayIff(now: nat, events: seq<Event>, auth: Auth, duration: nat, t: Readings)
    requires TimelyRun(now, events) && ThreePerDay(Run(now, events).acts)
    requires Run(now, events).clock <= t.age <= t.reset <= t.session <= t.expiry
    requires ActivateEmergency(Run(now, events).s, auth, duration, t).1.Ok?
    ensures ThreePerDay(AfterActivation(Run(now, events), auth, duration, t).acts) <==> HasRoom(Run(now, events), t)
  {
    RunKeepsRate(now, events);
    ActivationKeepsThreeIff(Run(now, events), auth, duration, t);
  }

  lemma ActivationKeepsThreeIff(w: World, auth: Auth, duration: nat, t: Readings)
    requires RateInv(w) && ThreePerDay(w.acts) && w.clock <= t.age <= t.reset <= t.session <= t.expiry
    requires ActivateEmergency(w.s, auth, duration, t).1.Ok?
    ensures ThreePerDay(AfterActivation(w, auth, duration, t).acts) <==> HasRoom(w, t)
  {
    ActsInOrder(w);
    hide RateInv, ThreePerDay, HasRoom;
    var k := YoungSuffix(w.acts, t.expiry);
    RoomCount(w, t, k);
    var acts := AfterActivation(w, auth, duration, t).acts;
    hide ActivateEmergency;
    assert acts == w.acts + [acts[|w.acts|]] && acts[|w.acts|].time == t.expiry;
    AppendThree(w.acts, acts[|w.acts|], k);
  }

  /** There is room exactly when fewer than three activations are less than a day old. */
  lemma RoomCount(w: World, t: Readings, k: nat)
    requires RateInv(w) && w.clock <= t.age <= t.reset <= t.expiry && k <= |w.acts|
    requires forall i :: 0 <= i < |w.acts| ==> (t.expiry < w.acts[i].time + DAY <==> k <= i)
    ensures HasRoom(w, t) <==> |w.acts| - k < MAX_ACTIVATIONS
  {
    ResetStage(w, t);
    var s1 := ResetIfNeeded(w.s, t.age, t.reset);
    var starts := if t.age >= w.s.lastReset + DAY then w.starts + [t.reset] else w.starts;
    assert |starts| - 1 == WindowAt(w, t);
    hide ActsOk, StartsOk, RateInv, YoungIn, ResetIfNeeded;
    YoungCount(w.acts, starts, t.expiry, s1.activations, s1.lastReset, t.expiry, k);
    if t.expiry < s1.lastReset + DAY {
      CounterIsYoung(w.acts, starts, t.expiry, s1.activations, s1.lastReset, t.expiry);
    }
  }

  lemma ActsInOrder(w: World)
    requires RateInv(w)
    ensures forall i, j :: 0 <= i <= j < |w.acts| ==> w.acts[i].time <= w.acts[j].time
  {
  }

  /** The readings of a successful activation, if event `k` of the run is one. */
  function ActivatedAt(now: nat, events: seq<Event>, k: nat): Option<Readings>
    requires k < |events|
  {
    var w := Run(now, events[..k]);
    match events[k]
    case EvEmergency(auth, d, t) => if ActivateEmergency(w.s, auth, d, t).1.Ok? then Some(t) else None
    case EvEmergencyDefault(t) =>
      if ActivateEmergency(w.s, PasswordPlusFido2, w.s.duration, t).1.Ok? then Some(t) else None
    case _ => None
  }

  /** Every successful activation of the run found room. */
  ghost predicate AlwaysRoom(now: nat, events: seq<Event>) {
    forall k :: 0 <= k < |events| && ActivatedAt(now, events, k).Some? ==>
      HasRoom(Run(now, events[..k]), ActivatedAt(now, events, k).value)
  }

  lemma RoomBefore(now: nat, events: seq<Event>)
    requires events != []
    ensures AlwaysRoom(now, events) <==>
              && AlwaysRoom(now, events[..|events| - 1])
              && (ActivatedAt(now, events, |events| - 1).Some? ==>
                  HasRoom(Run(now, events[..|events| - 1]), ActivatedAt(now, events, |events| - 1).value))
  {
    hide HasRoom, Run;
    var n := |events| - 1;
    var before := events[..n];
    forall k | 0 <= k < n
      ensures before[..k] == events[..k] && ActivatedAt(now, before, k) == ActivatedAt(now, events, k)
    {
      assert before[..k] == events[..k];
    }
  }

  lemma ThreePerDayPrefix(acts: seq<Activation>, a: Activation)
    requires ThreePerDay(acts + [a])
    ensures ThreePerDay(acts)
  {
    forall i | 0 <= i < |acts| - 3 ensures acts[i + 3].time >= acts[i].time + DAY {
      assert (acts + [a])[i + 3] == acts[i + 3] && (acts + [a])[i] == acts[i];
    }
  }

  /** A run keeps the documented limit exactly when each of its successful activations found room. */
  lemma {:induction false} RunKeepsThreePerDayIff(now: nat, events: seq<Event>)
    requires TimelyRun(now, events)
    ensures ThreePerDay(Run(now, events).acts) <==> AlwaysRoom(now, events)
  {
    if events != [] {
      var n := |events| - 1;
      TimelyPrefix(now, events, n);
      RunKeepsThreePerDayIff(now, events[..n]);
      RoomBefore(now, events);
      LastEvent(now, events);
    }
  }

  lemma LastEvent(now: nat, events: seq<Event>)
    requires TimelyRun(now, events) && events != []
    ensures var w, a := Run(now, events[..|events| - 1]), ActivatedAt(now, events, |events| - 1);
            ThreePerDay(Run(now, events).acts) <==>
              ThreePerDay(w.acts) && (a.Some? ==> HasRoom(w, a.value))
  {
    var n := |events| - 1;
    TimelyPrefix(now, events, n);
    RunKeepsRate(now, events[..n]);
    var w := Run(now, events[..n]);
    assert Timely(w.clock, events[n]);
    hide Run, TimelyRun, RateInv, HasRoom;
    match events[n]
    case EvEmergency(auth, d, t) => ActivationThree(w, auth, d, t);
    case EvEmergencyDefault(t) => ActivationThree(w, PasswordPlusFido2, w.s.duration, t);
    case _ => assert Step(w, events[n]).acts == w.acts;
  }

  lemma ActivationThree(w: World, auth: Auth, duration: nat, t: Readings)
    requires RateInv(w) && w.clock <= t.age <= t.reset <= t.session <= t.expiry
    ensures ThreePerDay(AfterActivation(w, auth, duration, t).acts) <==>
              ThreePerDay(w.acts) && (ActivateEmergency(w.s, auth, duration, t).1.Ok? ==> HasRoom(w, t))
  {
    hide ActivateEmergency, HasRoom, RateInv, ThreePerDay;
    var more := AfterActivation(w, auth, duration, t).acts;
    if ActivateEmergency(w.s, auth, duration, t).1.Ok? {
      var a := more[|w.acts|];
      assert more == w.acts + [a];
      if ThreePerDay(more) { ThreePerDayPrefix(w.acts, a); }
      if ThreePerDay(w.acts) { ActivationKeepsThreeIff(w, auth, duration, t); }
    }
  }

  /** Resets that each come at least a day after the last activation of the window before suffice. */
  lemma SpacedResetsKeepLimit(now: nat, events: seq<Event>)
    requires TimelyRun(now, events)
    requires Spaced(Run(now, events).acts, Run(now, events).starts)
    ensures ThreePerDay(Run(now, events).acts)
  {
    RunKeepsRate(now, events);
    var w := Run(now, events);
    hide Run, TimelyRun, ActsOk, StartsOk, Spaced;
    forall i: nat | i < |w.acts| - 3 ensures w.acts[i + 3].time >= w.acts[i].time + DAY {
      SpacedPair(w.acts, w.starts, w.clock, w.s.activations, w.s.lastReset, i);
    }
  }

  ghost predicate Spaced(acts: seq<Activation>, starts: seq<nat>) {
    forall i :: 0 <= i < |acts| && 0 <= acts[i].window < |starts| - 1 ==>
      acts[i].time + DAY <= starts[acts[i].window + 1]
  }

  lemma SpacedPair(acts: seq<Activation>, starts: seq<nat>, clock: nat, count: nat, last: nat, i: nat)
    requires StartsOk(starts, clock, last) && ActsOk(acts, starts, clock, count) && Spaced(acts, starts)
    requires i + 3 < |acts|
    ensures acts[i + 3].time >= acts[i].time + DAY
  {
    var a, b := acts[i], acts[i + 3];
    assert a.window < b.window && ActOk(a, starts, clock) && ActOk(b, starts, clock);
    StartsSpread(starts, a.window + 1, b.window);
  }
}
