/** The mode manager as the agent crate runs it: objects whose methods update their fields. */
module ModeManager {
  import opened Mode
  import opened ModeSteps
  import S = SessionRuns
  import opened Wrappers

  class EmergencyRecoveryManager {
    var current: Option<Session>
    var sessionCounter: nat
    var actionCounter: nat
    var history: seq<Summary>
    var last: Option<Session>

    ghost function View(): Manager
      reads this
    {
      Manager(current, sessionCounter, actionCounter, history, last)
    }

    ghost predicate Valid()
      reads this
    {
      S.SessionInv(View())
    }

    constructor ()
      ensures View() == NEW_MANAGER && Valid()
    {
      current, sessionCounter, actionCounter, history, last := None, 0, 0, [], None;
    }

    method Activate(auth: Auth, duration: nat, now: nat) returns (r: Result<nat, SessionError>)
      requires Valid()
      modifies this
      ensures Valid() && (View(), r) == Mode.Activate(old(View()), auth, duration, now)
      ensures r.Ok? <==> old(current).None? && 60_000_000_000 <= duration <= 3_600_000_000_000
      ensures if r.Ok? then OpenedAt(old(View()), auth, duration, now, View()) else View() == old(View())
    {
      ActivateIff(View(), auth, duration, now);
      S.StepKeeps(View(), S.CallActivate(auth, duration, now));
      if current.Some? {
        return Err(AlreadyActive);
      }
      if duration < MIN_SESSION {
        return Err(DurationBelowMin);
      }
      if duration > MAX_SESSION {
        return Err(DurationExceedsMax);
      }
      sessionCounter := sessionCounter + 1;
      current := Some(Session(sessionCounter, now, now + duration, duration, auth, [], true));
      r := Ok(sessionCounter);
    }

    method RecordAction(description: string, source: string) returns (id: nat)
      requires Valid()
      modifies this
      ensures Valid() && (View(), id) == Mode.RecordAction(old(View()), description, source)
    {
      S.StepKeeps(View(), S.CallRecord(description, source));
      if current.None? || !current.value.active {
        return 0;
      }
      actionCounter := actionCounter + 1;
      id := actionCounter;
      var s := current.value;
      current := Some(s.(actions := s.actions + [Action(id, description, source)]));
    }

    method FinalizeSession(now: nat) returns (r: Option<Summary>)
      requires Valid()
      modifies this
      ensures Valid() && (View(), r) == Finalize(old(View()), now)
    {
      S.StepKeeps(View(), S.CallDeactivate(now));
      if current.None? {
        return None;
      }
      var s := current.value;
      current := None;
      var summary := Summary(s.id, ElapsedSecs(s.activatedAt, now), |s.actions|, s.auth);
      history := history + [summary];
      last := Some(s.(active := false));
      r := Some(summary);
    }

    method CheckExpiry(now: nat) returns (expired: bool)
      requires Valid()
      modifies this
      ensures Valid() && (View(), expired) == Mode.CheckExpiry(old(View()), now)
      ensures expired <==> RunOut(old(View()), now)
      ensures if expired then ClosedAt(old(View()), now, View()) else View() == old(View())
    {
      CheckExpiryIff(View(), now);
      expired := current.Some? && current.value.active && now >= current.value.expiresAt;
      if expired {
        var _ := FinalizeSession(now);
      }
    }

    method Deactivate(now: nat) returns (r: Option<Summary>)
      requires Valid()
      modifies this
      ensures Valid() && (View(), r) == Finalize(old(View()), now)
    {
      if current.None? {
        return None;
      }
      r := FinalizeSession(now);
    }
  }

  class ModeManager {
    var mode: OperationalMode
    var highRisk: Option<HighRiskActivation>
    var expiry: Option<nat>
    var duration: nat
    var activations: nat
    var lastReset: nat
    const manager: EmergencyRecoveryManager

    ghost function View(): Modes
      reads this, manager
    {
      Modes(mode, highRisk, expiry, duration, activations, lastReset, manager.View())
    }

    ghost predicate Valid()
      reads this, manager
    {
      manager.Valid()
    }

    constructor (now: nat)
      ensures Valid() && View() == NewModes(now) && fresh(manager)
    {
      mode, highRisk, expiry, duration, activations, lastReset := Standard, None, None, DEFAULT_DURATION, 0, now;
      manager := new EmergencyRecoveryManager();
    }

    method CurrentMode(now1: nat, now2: nat) returns (m: OperationalMode)
      requires Valid()
      modifies this, manager
      ensures Valid() && (View(), m) == Mode.CurrentMode(old(View()), now1, now2)
      ensures old(mode) != EmergencyRecovery ==> m == mode == old(mode)
      ensures old(mode) == EmergencyRecovery ==>
                m == mode == if RecoveryOver(old(View()), now1, now2) then HighRisk else EmergencyRecovery
      ensures m == old(mode) ==> View() == old(View())
      ensures m != old(mode) ==> View() == old(View()).(mode := HighRisk, expiry := None, manager := manager.View())
      ensures m != old(mode) ==> if RunOut(old(manager.View()), now1)
                                 then ClosedAt(old(manager.View()), now1, manager.View())
                                 else manager.View() == old(manager.View())
    {
      CurrentModeIff(View(), now1, now2);
      if mode == EmergencyRecovery {
        var expired := manager.CheckExpiry(now1);
        var expiredLegacy := expiry.Some? && now2 >= expiry.value;
        if expired || expiredLegacy {
          mode := HighRisk;
          expiry := None;
        }
      }
      m := mode;
    }

    method ActivateHighRisk(a: HighRiskActivation) returns (r: Result<(), ModeError>)
      requires Valid()
      modifies this
      ensures Valid() && (View(), r) == Mode.ActivateHighRisk(old(View()), a)
    {
      if mode == EmergencyRecovery {
        return Err(RecoveryActive);
      }
      mode := HighRisk;
      highRisk := Some(a);
      r := Ok(());
    }

    method DeactivateHighRisk() returns (r: Result<(), ModeError>)
      requires Valid()
      modifies this
      ensures Valid() && (View(), r) == Mode.DeactivateHighRisk(old(View()))
    {
      if mode != HighRisk {
        return Err(NotInHighRisk);
      }
      mode := Standard;
      highRisk := None;
      r := Ok(());
    }

    method ActivateEmergencyRecovery(auth: Auth, d: nat, t: Readings) returns (r: Result<(), ModeError>)
      requires Valid()
      modifies this, manager
      ensures Valid() && (View(), r) == ActivateEmergency(old(View()), auth, d, t)
      ensures r.Ok? <==> old(mode) == HighRisk && Permitted(old(View()), t.age) && old(manager.current).None?
      ensures r.Ok? ==> mode == EmergencyRecovery
      ensures r.Ok? ==> OpenedAt(old(manager.View()), auth, Clamp(d), t.session, manager.View())
    {
      hide OpenedAt, S.SessionInv;
      ActivationIff(View(), auth, d, t);
      ActivationState(View(), auth, d, t);
      if mode != HighRisk {
        return Err(NotInHighRisk);
      }
      if t.age >= lastReset + DAY {
        activations := 0;
        lastReset := t.reset;
      }
      if activations >= MAX_ACTIVATIONS {
        return Err(RateLimitExceeded);
      }
      var clamped := Clamp(d);
      var started := manager.Activate(auth, clamped, t.session);
      match started
      case Err(e) =>
        r := Err(SessionFailed(e));
      case Ok(_) =>
        activations := activations + 1;
        expiry := Some(t.expiry + clamped);
        mode := EmergencyRecovery;
        r := Ok(());
    }

    method ActivateEmergencyRecoveryDefault(t: Readings) returns (r: Result<(), ModeError>)
      requires Valid()
      modifies this, manager
      ensures Valid() && (View(), r) == ActivateEmergency(old(View()), PasswordPlusFido2, old(duration), t)
    {
      r := ActivateEmergencyRecovery(PasswordPlusFido2, duration, t);
    }

    method SetEmergencyDuration(d: nat)
      requires Valid()
      modifies this`duration
      ensures Valid() && View() == SetDuration(old(View()), d)
      ensures 60_000_000_000 <= d <= 3_600_000_000_000 ==> duration == d
      ensures d < 60_000_000_000 ==> duration == 60_000_000_000
      ensures d > 3_600_000_000_000 ==> duration == 3_600_000_000_000
    {
      duration := Clamp(d);
    }
  }
}
