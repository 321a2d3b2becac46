/** What each call on the mode manager does, verdict by verdict. Times are in nanoseconds. */
module ModeSteps {
  import opened Mode
  import opened ModeRuns
  import S = SessionRuns
  import opened Wrappers

  // --- Sessions ----------------------------------------------------------------------

  /** `secs` whole seconds have passed from `from` to `now`, none when `now` is earlier. */
  ghost predicate WholeSeconds(from: nat, now: nat, secs: nat) {
    if now < from then secs == 0 else secs * 1_000_000_000 <= now - from < (secs + 1) * 1_000_000_000
  }

  /** The open session has run out. */
  ghost predicate RunOut(m: Manager, now: nat) {
    m.current.Some? && m.current.value.active && m.current.value.expiresAt <= now
  }

  /** The session open in `m` is closed in `m'`: kept for the report, and summarised in the archive. */
  ghost predicate ClosedAt(m: Manager, now: nat, m': Manager) {
    && m.current.Some? && m'.current.None? && m'.last == Some(m.current.value.(active := false))
    && m'.sessionCounter == m.sessionCounter && m'.actionCounter == m.actionCounter
    && |m'.history| == |m.history| + 1 && m.history <= m'.history
    && Summarises(m'.history[|m.history|], m.current.value, now)
  }

  ghost predicate Summarises(y: Summary, s: Session, now: nat) {
    && y.id == s.id && y.actionsCount == |s.actions| && y.auth == s.auth
    && WholeSeconds(s.activatedAt, now, y.durationSecs)
  }

  lemma FinalizeCloses(m: Manager, now: nat)
    ensures m.current.Some? ==> ClosedAt(m, now, Finalize(m, now).0) && Finalize(m, now).1.Some?
    ensures m.current.Some? ==> Summarises(Finalize(m, now).1.value, m.current.value, now)
    ensures m.current.None? ==> Finalize(m, now) == (m, None)
  {
  }

  /** `m'` is `m` with a session opened at `now` that lasts `d`. */
  ghost predicate OpenedAt(m: Manager, auth: Auth, d: nat, now: nat, m': Manager) {
    && m.current.None? && m'.current.Some?
    && m' == m.(sessionCounter := m.sessionCounter + 1, current := m'.current)
    && var s := m'.current.value;
       && s.id == m.sessionCounter + 1 && s.auth == auth && s.actions == [] && s.active
       && s.activatedAt == now && s.duration == d && s.expiresAt == now + d
  }

  /** A session opens exactly when none is open and it lasts from one to sixty minutes; each refusal
      has its own reason and changes nothing. */
  lemma ActivateIff(m: Manager, auth: Auth, d: nat, now: nat)
    ensures var (m', r) := Activate(m, auth, d, now);
            && (r.Ok? <==> m.current.None? && 60_000_000_000 <= d <= 3_600_000_000_000)
            && (r.Ok? ==> r.value == m.sessionCounter + 1 && OpenedAt(m, auth, d, now, m'))
            && (r == Err(AlreadyActive) <==> m.current.Some?)
            && (r == Err(DurationBelowMin) <==> m.current.None? && d < 60_000_000_000)
            && (r == Err(DurationExceedsMax) <==> m.current.None? && d > 3_600_000_000_000)
            && (r.Err? ==> m' == m)
  {
  }

  lemma CheckExpiryIff(m: Manager, now: nat)
    ensures var (m', expired) := CheckExpiry(m, now);
            && (expired <==> RunOut(m, now))
            && (expired ==> ClosedAt(m, now, m'))
            && (!expired ==> m' == m)
  {
    FinalizeCloses(m, now);
  }

  // --- Durations -----------------------------------------------------------------------

  /** Durations from one to sixty minutes are kept; shorter ones become one, longer ones sixty. */
  lemma ClampKeeps(d: nat)
    ensures 60_000_000_000 <= d <= 3_600_000_000_000 ==> Clamp(d) == d
    ensures d < 60_000_000_000 ==> Clamp(d) == 60_000_000_000
    ensures d > 3_600_000_000_000 ==> Clamp(d) == 3_600_000_000_000
  {
  }

  /** A new manager is in Standard mode, with a default of fifteen minutes and no activation used. */
  lemma NewIsStandard(now: nat)
    ensures var s := NewModes(now);
            && s.mode == Standard && s.highRisk.None? && s.expiry.None? && s.duration == 900_000_000_000
            && s.activations == 0 && s.lastReset == now
            && s.manager.current.None? && s.manager.last.None? && s.manager.history == []
            && s.manager.sessionCounter == 0 && s.manager.actionCounter == 0
  {
  }

  // --- Reading the mode ------------------------------------------------------------------

  /** Recovery is over at these two readings: its session has run out, or the mode's own expiry came. */
  ghost predicate RecoveryOver(s: Modes, now1: nat, now2: nat) {
    RunOut(s.manager, now1) || (s.expiry.Some? && s.expiry.value <= now2)
  }

  /** Reading the mode changes nothing outside recovery and nothing while recovery lasts; when it is
      over the mode is High-Risk, and the session is closed exactly if it had run out. */
  lemma CurrentModeIff(s: Modes, now1: nat, now2: nat)
    ensures s.mode != EmergencyRecovery ==> CurrentMode(s, now1, now2) == (s, s.mode)
    ensures s.mode == EmergencyRecovery ==>
              (CurrentMode(s, now1, now2) == (s, EmergencyRecovery) <==> !RecoveryOver(s, now1, now2))
    ensures s.mode == EmergencyRecovery && RecoveryOver(s, now1, now2) ==>
              var (s', m) := CurrentMode(s, now1, now2);
              && m == HighRisk && s' == s.(mode := HighRisk, expiry := None, manager := s'.manager)
              && if RunOut(s.manager, now1) then ClosedAt(s.manager, now1, s'.manager) else s'.manager == s.manager
  {
    CheckExpiryIff(s.manager, now1);
    hide ClosedAt, CheckExpiry;
  }

  // --- Entering and leaving the modes -------------------------------------------------------

  lemma HighRiskIff(s: Modes, a: HighRiskActivation)
    ensures var (s', r) := ActivateHighRisk(s, a);
            && (r.Ok? <==> s.mode != EmergencyRecovery)
            && (r.Ok? ==> s' == s.(mode := HighRisk, highRisk := Some(a)))
            && (r.Err? ==> s' == s && r.error == RecoveryActive)
    ensures var (s', r) := DeactivateHighRisk(s);
            && (r.Ok? <==> s.mode == HighRisk)
            && (r.Ok? ==> s' == s.(mode := Standard, highRisk := None))
            && (r.Err? ==> s' == s && r.error == NotInHighRisk)
  {
  }

  /** The rate-limit window is a day old at the reading `age`. */
  ghost predicate WindowOver(s: Modes, age: nat) { s.lastReset + 86_400_000_000_000 <= age }

  /** Fewer than three activations were used in the window the call falls in. */
  ghost predicate Permitted(s: Modes, age: nat) { WindowOver(s, age) || s.activations < 3 }

  /** An activation succeeds exactly in High-Risk mode, with fewer than three used in the window and
      no session open; each refusal has its own condition. */
  lemma ActivationIff(s: Modes, auth: Auth, d: nat, t: Readings)
    ensures var r := ActivateEmergency(s, auth, d, t).1;
            && (r == Err(NotInHighRisk) <==> s.mode != HighRisk)
            && (r == Err(RateLimitExceeded) <==> s.mode == HighRisk && !Permitted(s, t.age))
            && (r == Err(SessionFailed(AlreadyActive)) <==>
                  s.mode == HighRisk && Permitted(s, t.age) && s.manager.current.Some?)
            && (r.Ok? <==> s.mode == HighRisk && Permitted(s, t.age) && s.manager.current.None?)
  {
  }

  /** The state an activation leaves: a window that was over is restarted in any case; on success the
      session and the mode's expiry are set, each from its own reading, and one activation is counted. */
  lemma ActivationState(s: Modes, auth: Auth, d: nat, t: Readings)
    ensures var (s', r) := ActivateEmergency(s, auth, d, t);
            && (s.mode != HighRisk ==> s' == s)
            && (s.mode == HighRisk && r.Err? ==>
                  s' == if WindowOver(s, t.age) then s.(activations := 0, lastReset := t.reset) else s)
            && (r.Ok? ==>
                  && s'.mode == EmergencyRecovery && s'.highRisk == s.highRisk && s'.duration == s.duration
                  && s'.activations == (if WindowOver(s, t.age) then 1 else s.activations + 1)
                  && s'.lastReset == (if WindowOver(s, t.age) then t.reset else s.lastReset)
                  && s'.manager.current.Some?
                  && OpenedAt(s.manager, auth, s'.manager.current.value.duration, t.session, s'.manager)
                  && s'.expiry == Some(t.expiry + s'.manager.current.value.duration)
                  && (60_000_000_000 <= d <= 3_600_000_000_000 ==> s'.manager.current.value.duration == d)
                  && (d < 60_000_000_000 ==> s'.manager.current.value.duration == 60_000_000_000)
                  && (d > 3_600_000_000_000 ==> s'.manager.current.value.duration == 3_600_000_000_000))
  {
  }

  // --- Recovery lasts as long as was asked ----------------------------------------------------

  /** Recovery activated by readings `t` for `d` is still on. */
  ghost predicate Lasting(s: Modes, t: Readings, d: nat) {
    && s.mode == EmergencyRecovery && s.expiry == Some(t.expiry + d)
    && s.manager.current.Some? && s.manager.current.value.active && s.manager.current.value.expiresAt == t.session + d
  }

  lemma StepLasts(w: World, e: Event, t: Readings, d: nat)
    requires Lasting(w.s, t, d) && Timely(w.clock, e) && !e.EvOutside?
    requires Step(w, e).clock < t.session + d && t.session <= t.expiry
    ensures Lasting(Step(w, e).s, t, d)
  {
    hide Finalize, Activate, Clamp, S.Step;
  }

  lemma ClockGrows(w: World, e: Event)
    requires Timely(w.clock, e)
    ensures w.clock <= Step(w, e).clock
  {
    hide ActivateEmergency, CurrentMode, S.Step;
  }

  lemma {:induction false} StillLasting(now: nat, events: seq<Event>, k: nat, t: Readings, d: nat)
    requires TimelyRun(now, events) && k <= |events| && Lasting(Run(now, events[..k]).s, t, d)
    requires forall i :: k <= i < |events| ==> !events[i].EvOutside?
    requires Run(now, events).clock < t.session + d && t.session <= t.expiry
    ensures Lasting(Run(now, events).s, t, d)
  {
    hide Step, Lasting, Timely;
    if k < |events| {
      var n := |events| - 1;
      var before := events[..n];
      assert before[..k] == events[..k];
      TimelyPrefix(now, events, n);
      ClockGrows(Run(now, before), events[n]);
      StillLasting(now, before, k, t, d);
      StepLasts(Run(now, before), events[n], t, d);
    } else {
      assert events[..k] == events;
    }
  }

  /** After a successful activation for one to sixty minutes, and with no call from outside, every
      reading before that time is up still gives EmergencyRecovery and changes nothing. */
  lemma RecoveryLasts(now: nat, events: seq<Event>, k: nat, now1: nat, now2: nat)
    requires TimelyRun(now, events) && k < |events| && events[k].EvEmergency?
    requires var e := events[k];
             && 60_000_000_000 <= e.duration <= 3_600_000_000_000
             && ActivateEmergency(Run(now, events[..k]).s, e.auth, e.duration, e.t).1.Ok?
             && Run(now, events).clock <= now1 <= now2 < e.t.session + e.duration
    requires forall i :: k < i < |events| ==> !events[i].EvOutside?
    ensures var s := Run(now, events).s; CurrentMode(s, now1, now2) == (s, EmergencyRecovery)
  {
    var e := events[k];
    assert events[..k + 1][..k] == events[..k] && Timely(Run(now, events[..k]).clock, e);
    JustActivated(Run(now, events[..k]), e);
    assert Lasting(Run(now, events[..k + 1]).s, e.t, e.duration) by { hide Step, Lasting; }
    hide Run, Step, TimelyRun, Lasting;
    StillLasting(now, events, k + 1, e.t, e.duration);
    CurrentModeIff(Run(now, events).s, now1, now2);
    LastingNotOver(Run(now, events).s, e.t, e.duration, now1, now2);
  }

  lemma JustActivated(w: World, e: Event)
    requires e.EvEmergency? && 60_000_000_000 <= e.duration <= 3_600_000_000_000
    requires ActivateEmergency(w.s, e.auth, e.duration, e.t).1.Ok?
    ensures Lasting(Step(w, e).s, e.t, e.duration)
  {
    ActivationState(w.s, e.auth, e.duration, e.t);
    hide ActivateEmergency;
  }

  lemma LastingNotOver(s: Modes, t: Readings, d: nat, now1: nat, now2: nat)
    requires Lasting(s, t, d) && t.session <= t.expiry && now1 <= now2
    ensures s.mode == EmergencyRecovery
    ensures RecoveryOver(s, now1, now2) <==> t.session + d <= now1 || t.expiry + d <= now2
  {
  }
}
