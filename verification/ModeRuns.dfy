/** What holds of the mode machine after every run, including outside calls on its session manager. */
module ModeRuns {
  import opened Mode
  import S = SessionRuns
  import opened Wrappers

  /** `EvOutside` is any call made directly on the public session manager. */
  datatype Event = EvCurrent(now1: nat, now2: nat)
                 | EvHighRisk(activation: HighRiskActivation)
                 | EvStandard
                 | EvEmergency(auth: Auth, duration: nat, t: Readings)
                 | EvEmergencyDefault(t: Readings)
                 | EvSetDuration(duration: nat)
                 | EvOutside(call: S.Call)

  /** A successful activation: when, and in which rate-limit window. */
  datatype Activation = Activation(time: nat, window: int)

  /** The machine, the last clock reading, the starts of its rate-limit windows, its successful
      activations, and the reading that set the current expiry. */
  datatype World = World(s: Modes, clock: nat, starts: seq<nat>, acts: seq<Activation>, setAt: nat)

  function Start(now: nat): World { World(NewModes(now), now, [now], [], now) }

  /** The monotonic clock: readings never go back. */
  ghost predicate Timely(clock: nat, e: Event) {
    match e
    case EvCurrent(a, b) => clock <= a <= b
    case EvEmergency(_, _, t) => clock <= t.age <= t.reset <= t.session <= t.expiry
    case EvEmergencyDefault(t) => clock <= t.age <= t.reset <= t.session <= t.expiry
    case _ => true
  }

  function AfterActivation(w: World, auth: Auth, duration: nat, t: Readings): World {
    var (s', r) := ActivateEmergency(w.s, auth, duration, t);
    var resets := w.s.mode == HighRisk && t.age >= w.s.lastReset + DAY;
    var starts := if resets then w.starts + [t.reset] else w.starts;
    if r.Ok? then World(s', t.expiry, starts, w.acts + [Activation(t.expiry, |starts| - 1)], t.expiry)
    else World(s', t.expiry, starts, w.acts, w.setAt)
  }

  function Step(w: World, e: Event): World {
    match e
    case EvCurrent(a, b) => w.(s := CurrentMode(w.s, a, b).0, clock := b)
    case EvHighRisk(a) => w.(s := ActivateHighRisk(w.s, a).0)
    case EvStandard => w.(s := DeactivateHighRisk(w.s).0)
    case EvEmergency(auth, d, t) => AfterActivation(w, auth, d, t)
    case EvEmergencyDefault(t) => AfterActivation(w, PasswordPlusFido2, w.s.duration, t)
    case EvSetDuration(d) => w.(s := SetDuration(w.s, d))
    case EvOutside(c) => w.(s := w.s.(manager := S.Step(w.s.manager, c)))
  }

  function Run(now: nat, events: seq<Event>): World {
    if events == [] then Start(now) else Step(Run(now, events[..|events| - 1]), events[|events| - 1])
  }

  ghost predicate TimelyRun(now: nat, events: seq<Event>) {
    forall i :: 0 <= i < |events| ==> Timely(Run(now, events[..i]).clock, events[i])
  }

  lemma TimelyPrefix(now: nat, events: seq<Event>, k: nat)
    requires TimelyRun(now, events) && k <= |events|
    ensures TimelyRun(now, events[..k])
  {
    forall i | 0 <= i < k ensures Timely(Run(now, events[..k][..i]).clock, events[..k][i]) {
      assert events[..k][..i] == events[..i];
    }
  }

  // --- The rate limit ------------------------------------------------------------

  ghost predicate StartsOk(starts: seq<nat>, clock: nat, last: nat) {
    && starts != [] && starts[|starts| - 1] == last <= clock
    && forall k :: 0 <= k < |starts| - 1 ==> starts[k] + DAY <= starts[k + 1]
  }

  ghost predicate ActOk(a: Activation, starts: seq<nat>, clock: nat) {
    && 0 <= a.window < |starts| && starts[a.window] <= a.time <= clock
    && (a.window + 1 < |starts| ==> a.time <= starts[a.window + 1])
  }

  ghost predicate ActsOk(acts: seq<Activation>, starts: seq<nat>, clock: nat, count: nat) {
    && count <= MAX_ACTIVATIONS && count <= |acts|
    && (forall i :: 0 <= i < |acts| ==> ActOk(acts[i], starts, clock))
    && (forall i, j :: 0 <= i <= j < |acts| ==> acts[i].window <= acts[j].window && acts[i].time <= acts[j].time)
    && (forall i :: |acts| - count <= i < |acts| ==> acts[i].window == |starts| - 1)
    && (forall i :: 0 <= i < |acts| - count ==> acts[i].window < |starts| - 1)
    && (forall i, j :: 0 <= i && i + MAX_ACTIVATIONS <= j < |acts| ==> acts[i].window < acts[j].window)
  }

  ghost predicate RateInv(w: World) {
    && StartsOk(w.starts, w.clock, w.s.lastReset)
    && ActsOk(w.acts, w.starts, w.clock, w.s.activations)
  }

  lemma ResetKeeps(w: World, t: Readings)
    requires RateInv(w) && w.clock <= t.age <= t.reset && t.age >= w.s.lastReset + DAY
    ensures StartsOk(w.starts + [t.reset], t.reset, t.reset)
    ensures ActsOk(w.acts, w.starts + [t.reset], t.reset, 0)
  {
    var starts := w.starts + [t.reset];
    forall i | 0 <= i < |w.acts| ensures ActOk(w.acts[i], starts, t.reset) {
      assert ActOk(w.acts[i], w.starts, w.clock);
    }
  }

  lemma LaterClock(acts: seq<Activation>, starts: seq<nat>, clock: nat, count: nat, later: nat)
    requires ActsOk(acts, starts, clock, count) && clock <= later
    ensures ActsOk(acts, starts, later, count)
  {
    forall i | 0 <= i < |acts| ensures ActOk(acts[i], starts, later) {
      assert ActOk(acts[i], starts, clock);
    }
  }

  lemma AppendKeeps(acts: seq<Activation>, starts: seq<nat>, clock: nat, count: nat, time: nat)
    requires ActsOk(acts, starts, clock, count) && count < MAX_ACTIVATIONS && clock <= time
    requires starts != [] && starts[|starts| - 1] <= clock
    ensures ActsOk(acts + [Activation(time, |starts| - 1)], starts, time, count + 1)
  {
    var more := acts + [Activation(time, |starts| - 1)];
    LaterClock(acts, starts, clock, count, time);
    forall i | 0 <= i < |more| ensures ActOk(more[i], starts, time) {
      if i < |acts| { assert ActOk(acts[i], starts, time) && ActOk(acts[i], starts, clock); }
    }
    forall i, j | 0 <= i <= j < |more| ensures more[i].window <= more[j].window && more[i].time <= more[j].time {
      assert ActOk(more[i], starts, time);
    }
  }

  lemma ResetStage(w: World, t: Readings)
    requires RateInv(w) && w.clock <= t.age <= t.reset <= t.expiry
    ensures var s1 := ResetIfNeeded(w.s, t.age, t.reset);
            var starts := if t.age >= w.s.lastReset + DAY then w.starts + [t.reset] else w.starts;
            && StartsOk(starts, t.expiry, s1.lastReset) && s1.lastReset <= t.reset
            && ActsOk(w.acts, starts, t.reset, s1.activations) && ActsOk(w.acts, starts, t.expiry, s1.activations)
  {
    var s1 := ResetIfNeeded(w.s, t.age, t.reset);
    var starts := if t.age >= w.s.lastReset + DAY then w.starts + [t.reset] else w.starts;
    if t.age >= w.s.lastReset + DAY {
      ResetKeeps(w, t);
    } else {
      LaterClock(w.acts, w.starts, w.clock, w.s.activations, t.reset);
    }
    hide ActsOk;
    LaterClock(w.acts, starts, t.reset, s1.activations, t.expiry);
  }

  lemma ActivationKeepsRate(w: World, auth: Auth, duration: nat, t: Readings)
    requires RateInv(w) && w.clock <= t.age <= t.reset <= t.session <= t.expiry
    ensures RateInv(AfterActivation(w, auth, duration, t))
  {
    hide ActsOk, Clamp, Activate, StartsOk;
    if w.s.mode != HighRisk {
      LaterClock(w.acts, w.starts, w.clock, w.s.activations, t.expiry);
      LaterStart(w.starts, w.clock, w.s.lastReset, t.expiry);
    } else {
      ResetStage(w, t);
      var s1 := ResetIfNeeded(w.s, t.age, t.reset);
      var starts := if t.age >= w.s.lastReset + DAY then w.starts + [t.reset] else w.starts;
      if s1.activations < MAX_ACTIVATIONS {
        StartsLast(starts, t.expiry, s1.lastReset);
        AppendKeeps(w.acts, starts, t.reset, s1.activations, t.expiry);
      }
    }
  }

  lemma LaterStart(starts: seq<nat>, clock: nat, last: nat, later: nat)
    requires StartsOk(starts, clock, last) && clock <= later
    ensures StartsOk(starts, later, last)
  {
  }

  lemma StartsLast(starts: seq<nat>, clock: nat, last: nat)
    requires StartsOk(starts, clock, last)
    ensures starts != [] && starts[|starts| - 1] == last
  {
  }

  lemma StepKeepsRate(w: World, e: Event)
    requires RateInv(w) && Timely(w.clock, e)
    ensures RateInv(Step(w, e)) && w.clock <= Step(w, e).clock
  {
    hide ActsOk;
    match e
    case EvCurrent(a, b) => LaterClock(w.acts, w.starts, w.clock, w.s.activations, b);
    case EvEmergency(auth, d, t) => ActivationKeepsRate(w, auth, d, t);
    case EvEmergencyDefault(t) => ActivationKeepsRate(w, PasswordPlusFido2, w.s.duration, t);
    case _ =>
  }

  lemma {:induction false} RunKeepsRate(now: nat, events: seq<Event>)
    requires TimelyRun(now, events)
    ensures RateInv(Run(now, events))
  {
    if events == [] {
      StartKeepsRate(now);
    } else {
      var before := events[..|events| - 1];
      TimelyPrefix(now, events, |events| - 1);
      RunKeepsRate(now, before);
      hide Step, RateInv;
      StepKeepsRate(Run(now, before), events[|events| - 1]);
    }
  }

  lemma StartKeepsRate(now: nat)
    ensures RateInv(Start(now))
  {
  }

  lemma StartsSpread(starts: seq<nat>, i: nat, j: nat)
    requires i <= j < |starts| && forall k :: 0 <= k < |starts| - 1 ==> starts[k] + DAY <= starts[k + 1]
    ensures starts[i] <= starts[j]
    decreases j
  {
    if i < j { StartsSpread(starts, i, j - 1); }
  }

  /** In every run, at most three activations fall in one window, windows start at least a day
      apart, and the first and the seventh of any seven activations are at least a day apart. */
  lemma SevenSpanADay(now: nat, events: seq<Event>, i: nat, j: nat)
    requires TimelyRun(now, events) && i < j < |Run(now, events).acts|
    ensures var acts := Run(now, events).acts;
            && (i + 3 <= j ==> acts[i].window < acts[j].window)
            && (i + 6 <= j ==> acts[j].time >= acts[i].time + DAY)
  {
    RunKeepsRate(now, events);
    var w := Run(now, events);
    if i + 6 <= j {
      assert w.acts[i].window < w.acts[i + 3].window < w.acts[j].window;
      assert ActOk(w.acts[i], w.starts, w.clock) && ActOk(w.acts[j], w.starts, w.clock);
      StartsSpread(w.starts, w.acts[i].window + 2, w.acts[j].window);
    }
  }

  /** Four activations inside a day always straddle exactly one reset. */
  lemma FourInADayStraddleAReset(now: nat, events: seq<Event>, i: nat)
    requires TimelyRun(now, events) && i + 3 < |Run(now, events).acts|
    ensures var acts := Run(now, events).acts;
            acts[i + 3].time < acts[i].time + DAY ==> acts[i + 3].window == acts[i].window + 1
  {
    RunKeepsRate(now, events);
    var w := Run(now, events);
    var a, b := w.acts[i], w.acts[i + 3];
    assert ActOk(a, w.starts, w.clock) && ActOk(b, w.starts, w.clock);
    if b.window >= a.window + 2 { StartsSpread(w.starts, a.window + 2, b.window); }
  }

  ghost function InDay(acts: seq<Activation>, from: nat): set<int> {
    set i | 0 <= i < |acts| && from <= acts[i].time < from + DAY
  }

  ghost function Span(a: int, n: nat): set<int> { if n == 0 then {} else Span(a, n - 1) + {a + n - 1} }

  lemma {:induction false} SpanSize(a: int, n: nat)
    ensures |Span(a, n)| == n && forall i :: i in Span(a, n) <==> a <= i < a + n
  {
    if n > 0 { SpanSize(a, n - 1); }
  }

  lemma FirstHit(hit: set<int>, n: nat) returns (a: nat)
    requires forall i :: i in hit ==> 0 <= i < n
    ensures forall i :: i in hit ==> a <= i
    ensures a in hit || hit == {}
  {
    a := 0;
    while a < n && a !in hit
      invariant a <= n && forall i :: 0 <= i < a ==> i !in hit
    {
      a := a + 1;
    }
  }

  lemma FewInDay(acts: seq<Activation>, from: nat)
    requires forall i, j :: 0 <= i && i + 6 <= j < |acts| ==> acts[j].time >= acts[i].time + DAY
    ensures |InDay(acts, from)| <= 6
  {
    var hit := InDay(acts, from);
    var a := FirstHit(hit, |acts|);
    SpanSize(a, 6);
    hide Span;
    forall i | i in hit ensures i in Span(a, 6) {
      assert acts[i].time < from + DAY && from <= acts[a].time;
    }
    SubsetSize(hit, Span(a, 6));
  }

  /** Any half-open interval of 24 hours contains at most six successful activations. */
  lemma AtMostSixPerDay(now: nat, events: seq<Event>, from: nat)
    requires TimelyRun(now, events)
    ensures |InDay(Run(now, events).acts, from)| <= 6
  {
    hide Run, TimelyRun, InDay;
    var acts := Run(now, events).acts;
    forall i, j | 0 <= i && i + 6 <= j < |acts| ensures acts[j].time >= acts[i].time + DAY {
      SevenSpanADay(now, events, i, j);
    }
    FewInDay(acts, from);
  }

  lemma SubsetSize(a: set<int>, b: set<int>)
    requires a <= b
    ensures |a| <= |b|
  {
    assert b == a + (b - a);
  }

  // --- Time-bounded recovery -------------------------------------------------------

  ghost predicate ModeInv(w: World) {
    && (w.s.mode == EmergencyRecovery <==> w.s.expiry.Some?)
    && (w.s.mode == EmergencyRecovery ==>
          w.setAt <= w.clock && w.setAt + MIN_SESSION <= w.s.expiry.value <= w.setAt + MAX_SESSION)
  }

  lemma {:induction false} RunKeepsMode(now: nat, events: seq<Event>)
    requires TimelyRun(now, events)
    ensures ModeInv(Run(now, events))
  {
    if events != [] {
      var before := events[..|events| - 1];
      TimelyPrefix(now, events, |events| - 1);
      RunKeepsMode(now, before);
      StepKeepsMode(Run(now, before), events[|events| - 1]);
    }
  }

  lemma StepKeepsMode(w: World, e: Event)
    requires ModeInv(w) && Timely(w.clock, e)
    ensures ModeInv(Step(w, e))
  {
    hide CheckExpiry, Activate, S.Step;
  }

  /** In every run, whatever outside callers did to the session manager: reading the mode yields
      EmergencyRecovery only before an expiry at most 60 minutes after the reading that set it. */
  lemma RecoveryIsTimeBounded(now: nat, events: seq<Event>, now1: nat, now2: nat)
    requires TimelyRun(now, events)
    ensures var w := Run(now, events);
            CurrentMode(w.s, now1, now2).1 == EmergencyRecovery ==>
              w.s.expiry.Some? && now2 < w.s.expiry.value <= w.setAt + 60 * MINUTE
  {
    RunKeepsMode(now, events);
  }

  lemma StepFromRecovery(w: World, e: Event)
    requires w.s.mode == EmergencyRecovery
    ensures Step(w, e).s.mode != Standard
  {
    hide CheckExpiry, Activate, S.Step;
  }

  /** A run that was in EmergencyRecovery and ends in Standard was in HighRisk in between. */
  lemma {:induction false} RecoveryLeavesThroughHighRisk(now: nat, events: seq<Event>, k: nat) returns (j: nat)
    requires k < |events|
    requires Run(now, events[..k]).s.mode == EmergencyRecovery && Run(now, events).s.mode == Standard
    ensures k < j < |events| && Run(now, events[..j]).s.mode == HighRisk
    decreases |events|
  {
    hide Step;
    var n := |events| - 1;
    var before := events[..n];
    StepToStandard(Run(now, before), events[n]);
    if Run(now, before).s.mode == HighRisk {
      j := n;
      if k == n { assert false; }
    } else {
      if k == n { assert false; }
      assert before[..k] == events[..k];
      j := RecoveryLeavesThroughHighRisk(now, before, k);
      assert before[..j] == events[..j];
    }
  }

  lemma StepToStandard(w: World, e: Event)
    requires Step(w, e).s.mode == Standard
    ensures w.s.mode != EmergencyRecovery
  {
    if w.s.mode == EmergencyRecovery { StepFromRecovery(w, e); }
  }

  // --- Sessions that outlive their mode ----------------------------------------------

  /** One clock reading serves the whole call. */
  ghost predicate OneReading(e: Event) {
    match e
    case EvCurrent(a, b) => a == b
    case EvEmergency(_, _, t) => t.age == t.reset == t.session == t.expiry
    case EvEmergencyDefault(t) => t.age == t.reset == t.session == t.expiry
    case EvOutside(_) => false
    case _ => true
  }

  /** A session is open exactly while the mode is EmergencyRecovery, and both clocks agree. */
  ghost predicate InStep(s: Modes) {
    && (s.manager.current.Some? <==> s.mode == EmergencyRecovery)
    && (s.mode == EmergencyRecovery ==>
          s.manager.current.value.active && s.expiry == Some(s.manager.current.value.expiresAt))
  }

  lemma {:induction false} QuietRunInStep(now: nat, events: seq<Event>)
    requires forall i :: 0 <= i < |events| ==> OneReading(events[i])
    ensures InStep(Run(now, events).s)
  {
    if events != [] {
      QuietRunInStep(now, events[..|events| - 1]);
      hide Step, InStep;
      QuietStep(Run(now, events[..|events| - 1]), events[|events| - 1]);
    }
  }

  lemma QuietStep(w: World, e: Event)
    requires InStep(w.s) && OneReading(e)
    ensures InStep(Step(w, e).s)
  {
    hide S.Step;
  }

  /** With one reading per call and no outside calls, an activation within the rate limit never
      meets a session error. */
  lemma QuietActivationNeverBlocked(now: nat, events: seq<Event>, auth: Auth, duration: nat, t: Readings)
    requires forall i :: 0 <= i < |events| ==> OneReading(events[i])
    ensures !(ActivateEmergency(Run(now, events).s, auth, duration, t).1 == Err(SessionFailed(AlreadyActive)))
    ensures var r := ActivateEmergency(Run(now, events).s, auth, duration, t).1;
            r.Err? ==> r.error == NotInHighRisk || r.error == RateLimitExceeded
  {
    QuietRunInStep(now, events);
  }

  /** Leaving recovery strands the session exactly when the two readings of one `current_mode`
      call fall on either side of the two expiries. */
  lemma StrandedIff(s: Modes, now1: nat, now2: nat)
    requires s.mode == EmergencyRecovery && s.manager.current.Some? && s.manager.current.value.active && s.expiry.Some?
    ensures var s' := CurrentMode(s, now1, now2).0;
            (s'.mode == HighRisk && s'.manager.current.Some?) <==>
              now1 < s.manager.current.value.expiresAt && s.expiry.value <= now2
  {
  }

  /** A stranded session blocks every later activation until someone outside closes it. */
  lemma StrandedBlocks(w: World, e: Event)
    requires w.s.mode != EmergencyRecovery && w.s.manager.current.Some? && !e.EvOutside?
    ensures Step(w, e).s.mode != EmergencyRecovery && Step(w, e).s.manager.current.Some?
    ensures Step(w, e).acts == w.acts
  {
  }

  lemma {:induction false} StrandedForGood(now: nat, events: seq<Event>, k: nat)
    requires k <= |events| && forall i :: k <= i < |events| ==> !events[i].EvOutside?
    requires var s := Run(now, events[..k]).s; s.mode != EmergencyRecovery && s.manager.current.Some?
    ensures var s := Run(now, events).s; s.mode != EmergencyRecovery && s.manager.current.Some?
    ensures Run(now, events).acts == Run(now, events[..k]).acts
  {
    hide Step;
    if k < |events| {
      var before := events[..|events| - 1];
      assert before[..k] == events[..k];
      StrandedForGood(now, before, k);
      StrandedBlocks(Run(now, before), events[|events| - 1]);
    } else {
      assert events[..k] == events;
    }
  }

  /** A run with no outside call that ends stranded: readings two nanoseconds apart suffice. */
  lemma StrandedRun()
    ensures var t := Readings(0, 0, 0, 1);
            var events := [EvHighRisk(Manual), EvEmergency(PasswordPlusFido2, 0, t), EvCurrent(MINUTE - 1, MINUTE + 1)];
            var s := Run(0, events).s;
            TimelyRun(0, events) && s.mode == HighRisk && s.manager.current.Some?
  {
    var t := Readings(0, 0, 0, 1);
    var e1, e2, e3 := EvHighRisk(Manual), EvEmergency(PasswordPlusFido2, 0, t), EvCurrent(MINUTE - 1, MINUTE + 1);
    assert [e1, e2, e3][..2] == [e1, e2] && [e1, e2][..1] == [e1] && [e1][..0] == [];
    assert Run(0, [e1]) == Step(Start(0), e1);
    assert Run(0, [e1, e2]) == Step(Run(0, [e1]), e2);
    assert [e1, e2, e3][..0] == [] && [e1, e2, e3][..1] == [e1];
  }

  // --- Six in a day --------------------------------------------------------------------

  function At(t: nat): Readings { Readings(t, t, t, t) }

  /** Activate at `t`, and read the mode a minute later. */
  function Burst(t: nat): seq<Event> {
    [EvEmergency(PasswordPlusFido2, 0, At(t)), EvCurrent(t + MINUTE, t + MINUTE)]
  }

  ghost predicate Idle(w: World, t: nat) {
    w.s.mode == HighRisk && w.s.manager.current.None? && w.s.expiry.None? && w.clock <= t
  }

  lemma TimelySnoc(now: nat, a: seq<Event>, e: Event)
    requires TimelyRun(now, a) && Timely(Run(now, a).clock, e)
    ensures TimelyRun(now, a + [e])
  {
    var b := a + [e];
    forall i | 0 <= i < |b| ensures Timely(Run(now, b[..i]).clock, b[i]) {
      assert b[..i] == a[..i];
      if i == |a| { assert a[..i] == a; }
    }
  }

  lemma RunConcat(now: nat, a: seq<Event>, e: Event, f: Event)
    ensures Run(now, a + [e, f]) == Step(Step(Run(now, a), e), f)
  {
    var ab := a + [e, f];
    assert ab[..|ab| - 1] == a + [e] && (a + [e])[..|a|] == a;
  }

  lemma RunSnoc(now: nat, a: seq<Event>, e: Event)
    ensures Run(now, a + [e]) == Step(Run(now, a), e)
  {
    assert (a + [e])[..|a|] == a;
  }

  lemma BurstSucceeds(now: nat, events: seq<Event>, t: nat)
    requires TimelyRun(now, events) && Idle(Run(now, events), t)
    requires Run(now, events).s.activations < 3 || t >= Run(now, events).s.lastReset + DAY
    ensures var w, w' := Run(now, events), Run(now, events + Burst(t));
            && TimelyRun(now, events + Burst(t)) && Idle(w', t + MINUTE)
            && |w'.acts| == |w.acts| + 1 && w'.acts[..|w.acts|] == w.acts && w'.acts[|w.acts|].time == t
            && w'.s.activations == (if t >= w.s.lastReset + DAY then 1 else w.s.activations + 1)
            && w'.s.lastReset == (if t >= w.s.lastReset + DAY then t else w.s.lastReset)
  {
    var e, f := Burst(t)[0], Burst(t)[1];
    BurstSteps(Run(now, events), t);
    RunConcat(now, events, e, f);
    RunSnoc(now, events, e);
    assert events + [e] + [f] == events + Burst(t);
    hide Run, Step;
    TimelySnoc(now, events, e);
    TimelySnoc(now, events + [e], f);
  }

  /** Activate from an idle state with room, and let the session expire. */
  lemma BurstSteps(w: World, t: nat)
    requires Idle(w, t) && (w.s.activations < 3 || t >= w.s.lastReset + DAY)
    ensures var w1 := Step(w, Burst(t)[0]);
            var w' := Step(w1, Burst(t)[1]);
            && w1.clock == t && Idle(w', t + MINUTE)
            && |w'.acts| == |w.acts| + 1 && w'.acts[..|w.acts|] == w.acts && w'.acts[|w.acts|].time == t
            && w'.s.activations == (if t >= w.s.lastReset + DAY then 1 else w.s.activations + 1)
            && w'.s.lastReset == (if t >= w.s.lastReset + DAY then t else w.s.lastReset)
  {
    hide S.Step;
  }

  /** The documented "three per 24 hours" is not what the fixed window gives: three activations
      just before a reset and three just after are six within six minutes. */
  lemma SixInSixMinutes() returns (events: seq<Event>)
    ensures TimelyRun(0, events)
    ensures var acts := Run(0, events).acts;
            |acts| == 6 && acts[5].time == acts[0].time + 5 * MINUTE
  {
    var t := DAY - 3 * MINUTE;
    events := [EvHighRisk(Manual)];
    OnlyHighRisk(t);
    hide Run, TimelyRun;
    events := Bursts3(events, t);
    events := Bursts3(events, DAY);
  }

  lemma OnlyHighRisk(t: nat)
    ensures var w := Run(0, [EvHighRisk(Manual)]);
            && TimelyRun(0, [EvHighRisk(Manual)]) && Idle(w, t)
            && w.s.lastReset == 0 && w.s.activations == 0 && w.acts == []
  {
    var events := [EvHighRisk(Manual)];
    assert events[..0] == [];
  }

  lemma Bursts3(events: seq<Event>, t: nat) returns (more: seq<Event>)
    requires TimelyRun(0, events) && Idle(Run(0, events), t) && Run(0, events).s.lastReset == 0
    requires (t + 3 * MINUTE <= DAY && Run(0, events).s.activations == 0) || t == DAY
    ensures var w, w' := Run(0, events), Run(0, more);
            && TimelyRun(0, more) && Idle(w', t + 3 * MINUTE)
            && |w'.acts| == |w.acts| + 3 && w'.acts[..|w.acts|] == w.acts
            && w'.acts[|w.acts|].time == t && w'.acts[|w.acts| + 2].time == t + 2 * MINUTE
            && (t < DAY ==> w'.s.lastReset == 0)
  {
    hide Run, Burst, TimelyRun;
    BurstSucceeds(0, events, t);
    var e1 := events + Burst(t);
    BurstSucceeds(0, e1, t + MINUTE);
    var e2 := e1 + Burst(t + MINUTE);
    BurstSucceeds(0, e2, t + 2 * MINUTE);
    more := e2 + Burst(t + 2 * MINUTE);
    var w, w1, w2, w3 := Run(0, events), Run(0, e1), Run(0, e2), Run(0, more);
    assert w3.acts[..|w2.acts|][..|w1.acts|][..|w.acts|] == w3.acts[..|w.acts|];
  }
}
