/** Operational modes, Emergency Recovery sessions, and the activation rate limit. */
module Mode {
  import opened Wrappers

  // Instants and durations are nanosecond counts of the monotonic clock.
  const SECOND: nat := 1_000_000_000
  const MINUTE: nat := 60 * SECOND
  const DAY: nat := 24 * 60 * MINUTE
  const MIN_SESSION: nat := MINUTE
  const MAX_SESSION: nat := 60 * MINUTE
  const MAX_ACTIVATIONS: nat := 3
  const DEFAULT_DURATION: nat := 15 * MINUTE

  datatype Auth = PasswordPlusFido2 | PasswordPlusTpmPin | PasswordPlusBiometric
  datatype SessionError = AlreadyActive | DurationExceedsMax | DurationBelowMin
  datatype ModeError = RecoveryActive | NotInHighRisk | RateLimitExceeded | SessionFailed(error: SessionError)
  datatype OperationalMode = Standard | HighRisk | EmergencyRecovery
  datatype HighRiskActivation = Manual | Trigger

  datatype Action = Action(id: nat, description: string, source: string)
  datatype Session = Session(id: nat, activatedAt: nat, expiresAt: nat, duration: nat, auth: Auth,
                             actions: seq<Action>, active: bool)
  datatype Summary = Summary(id: nat, durationSecs: nat, actionsCount: nat, auth: Auth)
  datatype Report = Report(id: nat, durationSecs: nat, auth: Auth, totalActions: nat, actions: seq<Action>)

  // --- Session manager ---------------------------------------------------------

  datatype Manager = Manager(current: Option<Session>, sessionCounter: nat, actionCounter: nat,
                             history: seq<Summary>, last: Option<Session>)

  const NEW_MANAGER: Manager := Manager(None, 0, 0, [], None)

  function Activate(m: Manager, auth: Auth, duration: nat, now: nat): (Manager, Result<nat, SessionError>) {
    if m.current.Some? then (m, Err(AlreadyActive))
    else if duration < MIN_SESSION then (m, Err(DurationBelowMin))
    else if duration > MAX_SESSION then (m, Err(DurationExceedsMax))
    else
      var id := m.sessionCounter + 1;
      (m.(sessionCounter := id, current := Some(Session(id, now, now + duration, duration, auth, [], true))), Ok(id))
  }

  function RecordAction(m: Manager, description: string, source: string): (Manager, nat) {
    if m.current.None? || !m.current.value.active then (m, 0)
    else
      var id, s := m.actionCounter + 1, m.current.value;
      (m.(actionCounter := id, current := Some(s.(actions := s.actions + [Action(id, description, source)]))), id)
  }

  /** Whole seconds since `t`, saturating at zero as `Instant::elapsed` does. */
  function ElapsedSecs(t: nat, now: nat): nat { if now < t then 0 else (now - t) / SECOND }

  function Finalize(m: Manager, now: nat): (Manager, Option<Summary>) {
    if m.current.None? then (m, None)
    else
      var s := m.current.value;
      var summary := Summary(s.id, ElapsedSecs(s.activatedAt, now), |s.actions|, s.auth);
      (m.(current := None, history := m.history + [summary], last := Some(s.(active := false))), Some(summary))
  }

  function CheckExpiry(m: Manager, now: nat): (Manager, bool) {
    if m.current.Some? && m.current.value.active && now >= m.current.value.expiresAt
    then (Finalize(m, now).0, true)
    else (m, false)
  }

  function PostRecoveryReport(m: Manager, now: nat): Option<Report> {
    if m.current.Some? || m.last.None? then None
    else
      var s := m.last.value;
      var elapsed := if now < s.activatedAt then 0 else now - s.activatedAt;
      var duration := if elapsed < s.duration then elapsed else s.duration;
      Some(Report(s.id, duration / SECOND, s.auth, |s.actions|, s.actions))
  }

  // --- Mode machine ------------------------------------------------------------

  datatype Modes = Modes(mode: OperationalMode, highRisk: Option<HighRiskActivation>, expiry: Option<nat>,
                         duration: nat, activations: nat, lastReset: nat, manager: Manager)

  function NewModes(now: nat): Modes { Modes(Standard, None, None, DEFAULT_DURATION, 0, now, NEW_MANAGER) }

  /** `current_mode`: the session manager and the legacy expiry each take their own clock reading. */
  function CurrentMode(s: Modes, now1: nat, now2: nat): (Modes, OperationalMode) {
    if s.mode != EmergencyRecovery then (s, s.mode)
    else
      var (m, expired) := CheckExpiry(s.manager, now1);
      var s1 := s.(manager := m);
      if expired || (s.expiry.Some? && now2 >= s.expiry.value) then
        (s1.(mode := HighRisk, expiry := None), HighRisk)
      else (s1, EmergencyRecovery)
  }

  function ActivateHighRisk(s: Modes, a: HighRiskActivation): (Modes, Result<(), ModeError>) {
    if s.mode == EmergencyRecovery then (s, Err(RecoveryActive))
    else (s.(mode := HighRisk, highRisk := Some(a)), Ok(()))
  }

  function DeactivateHighRisk(s: Modes): (Modes, Result<(), ModeError>) {
    if s.mode != HighRisk then (s, Err(NotInHighRisk))
    else (s.(mode := Standard, highRisk := None), Ok(()))
  }

  function Clamp(d: nat): nat { if d < MIN_SESSION then MIN_SESSION else if d > MAX_SESSION then MAX_SESSION else d }

  /** `reset_counter_if_needed`: the age is measured at `now1`, the new window starts at `now2`. */
  function ResetIfNeeded(s: Modes, now1: nat, now2: nat): Modes {
    if now1 >= s.lastReset + DAY then s.(activations := 0, lastReset := now2) else s
  }

  /** The clock readings of one activation call, in order. */
  datatype Readings = Readings(age: nat, reset: nat, session: nat, expiry: nat)

  function ActivateEmergency(s: Modes, auth: Auth, duration: nat, t: Readings): (Modes, Result<(), ModeError>) {
    if s.mode != HighRisk then (s, Err(NotInHighRisk))
    else
      var s1 := ResetIfNeeded(s, t.age, t.reset);
      if s1.activations >= MAX_ACTIVATIONS then (s1, Err(RateLimitExceeded))
      else
        var d := Clamp(duration);
        var (m, r) := Activate(s1.manager, auth, d, t.session);
        match r
        case Err(e) => (s1, Err(SessionFailed(e)))
        case Ok(_) =>
          (s1.(manager := m, activations := s1.activations + 1, expiry := Some(t.expiry + d),
               mode := EmergencyRecovery),
           Ok(()))
  }

  function SetDuration(s: Modes, d: nat): Modes { s.(duration := Clamp(d)) }
}
