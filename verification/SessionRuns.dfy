/** What holds of the session manager after every run of calls. */
module SessionRuns {
  import opened Mode
  import opened Wrappers

  datatype Call = CallActivate(auth: Auth, duration: nat, now: nat)
                | CallRecord(description: string, source: string)
                | CallExpiry(now: nat)
                | CallDeactivate(now: nat)

  function Step(m: Manager, c: Call): Manager {
    match c
    case CallActivate(a, d, now) => Activate(m, a, d, now).0
    case CallRecord(d, s) => RecordAction(m, d, s).0
    case CallExpiry(now) => CheckExpiry(m, now).0
    case CallDeactivate(now) => Finalize(m, now).0
  }

  function Run(calls: seq<Call>): Manager {
    if calls == [] then NEW_MANAGER else Step(Run(calls[..|calls| - 1]), calls[|calls| - 1])
  }

  function ArchivedActions(history: seq<Summary>): nat {
    if history == [] then 0 else ArchivedActions(history[..|history| - 1]) + history[|history| - 1].actionsCount
  }

  /** The actions carry consecutive ids, the first one after `base`. */
  ghost predicate Consecutive(actions: seq<Action>, base: nat) {
    forall i :: 0 <= i < |actions| ==> actions[i].id == base + i + 1
  }

  ghost predicate SessionInv(m: Manager) {
    && (forall i :: 0 <= i < |m.history| ==> m.history[i].id == i + 1)
    && m.sessionCounter == |m.history| + (if m.current.Some? then 1 else 0)
    && m.actionCounter == ArchivedActions(m.history) + (if m.current.Some? then |m.current.value.actions| else 0)
    && (m.current.Some? ==>
          && m.current.value.active && m.current.value.id == m.sessionCounter
          && MIN_SESSION <= m.current.value.duration <= MAX_SESSION
          && m.current.value.expiresAt == m.current.value.activatedAt + m.current.value.duration
          && Consecutive(m.current.value.actions, ArchivedActions(m.history)))
    && (m.last.Some? <==> m.history != [])
    && (m.last.Some? ==> LastMatches(m.last.value, m.history))
  }

  /** The retained session is the one summarised last, and its actions follow all earlier ones. */
  ghost predicate LastMatches(s: Session, history: seq<Summary>) {
    && history != []
    && s.id == |history| && |s.actions| == history[|history| - 1].actionsCount && !s.active
    && Consecutive(s.actions, ArchivedActions(history) - |s.actions|)
  }

  lemma FinalizeKeeps(m: Manager, now: nat)
    requires SessionInv(m)
    ensures SessionInv(Finalize(m, now).0)
  {
    if m.current.Some? {
      var m' := Finalize(m, now).0;
      assert m'.history[..|m'.history| - 1] == m.history;
    }
  }

  lemma StepKeeps(m: Manager, c: Call)
    requires SessionInv(m)
    ensures SessionInv(Step(m, c))
    ensures m.actionCounter <= Step(m, c).actionCounter && |m.history| <= |Step(m, c).history|
    ensures m.history <= Step(m, c).history
  {
    match c
    case CallActivate(_, _, _) =>
    case CallRecord(d, s) => RecordKeeps(m, d, s);
    case CallExpiry(now) => FinalizeKeeps(m, now);
    case CallDeactivate(now) => FinalizeKeeps(m, now);
  }

  lemma RecordKeeps(m: Manager, description: string, source: string)
    requires SessionInv(m)
    ensures SessionInv(RecordAction(m, description, source).0)
  {
    hide ArchivedActions, LastMatches;
  }

  /** In every run: archived ids are 1, 2, 3, and so on; a current session is active and next in
      line; action ids run on across sessions without a gap, and none is lost or counted twice. */
  lemma {:induction false} RunKeeps(calls: seq<Call>)
    ensures SessionInv(Run(calls))
  {
    if calls != [] {
      RunKeeps(calls[..|calls| - 1]);
      StepKeeps(Run(calls[..|calls| - 1]), calls[|calls| - 1]);
    }
  }

  /** The archive only grows: what a run has archived no later call rewrites. */
  lemma {:induction false} HistoryOnlyGrows(calls: seq<Call>, k: nat)
    requires k <= |calls|
    ensures Run(calls[..k]).history <= Run(calls).history
  {
    if k < |calls| {
      var before := calls[..|calls| - 1];
      HistoryOnlyGrows(before, k);
      assert before[..k] == calls[..k];
      RunKeeps(before);
      StepKeeps(Run(before), calls[|calls| - 1]);
    } else {
      assert calls[..k] == calls;
    }
  }

  lemma {:induction false} CounterOnlyGrows(calls: seq<Call>, k: nat)
    requires k <= |calls|
    ensures Run(calls[..k]).actionCounter <= Run(calls).actionCounter
  {
    if k < |calls| {
      var before := calls[..|calls| - 1];
      CounterOnlyGrows(before, k);
      assert before[..k] == calls[..k];
      RunKeeps(before);
      StepKeeps(Run(before), calls[|calls| - 1]);
    } else {
      assert calls[..k] == calls;
    }
  }

  /** The id that call `i` of a run returned; zero when no session was open. */
  function RecordedId(calls: seq<Call>, i: nat): nat
    requires i < |calls| && calls[i].CallRecord?
  {
    RecordAction(Run(calls[..i]), calls[i].description, calls[i].source).1
  }

  /** `record_action` returns an id exactly while a session is open, and the ids it returns strictly
      increase over the whole run, across sessions. */
  lemma RecordedIdsIncrease(calls: seq<Call>, i: nat, j: nat)
    requires i < j < |calls| && calls[i].CallRecord? && calls[j].CallRecord?
    ensures RecordedId(calls, j) > 0 <==> Run(calls[..j]).current.Some?
    ensures RecordedId(calls, i) > 0 && RecordedId(calls, j) > 0 ==> RecordedId(calls, i) < RecordedId(calls, j)
  {
    RunKeeps(calls[..j]);
    var upto, k := calls[..j], i + 1;
    assert upto[..k] == calls[..k] && calls[..k][..i] == calls[..i];
    CounterOnlyGrows(upto, k);
  }

  /** A session opened, used and closed is reported in full: its id, exactly its actions in order, and
      the whole seconds it lasted, at most as many as it was given. */
  lemma {:induction false} ReportIsComplete(calls: seq<Call>, auth: Auth, duration: nat, t0: nat,
                                            work: seq<(string, string)>, t1: nat, t2: nat)
    requires Run(calls).current.None? && 60_000_000_000 <= duration <= 3_600_000_000_000
    ensures var m := Run(calls);
            var r := PostRecoveryReport(Finalize(Recorded(Activate(m, auth, duration, t0).0, work), t1).0, t2);
            && r.Some? && r.value.id == m.sessionCounter + 1 && r.value.auth == auth
            && r.value.totalActions == |work| == |r.value.actions|
            && (forall i :: 0 <= i < |work| ==>
                  r.value.actions[i] == Action(m.actionCounter + i + 1, work[i].0, work[i].1))
            && var secs := r.value.durationSecs;
               secs * 1_000_000_000 <= Lasted(t0, t2, duration) < (secs + 1) * 1_000_000_000
  {
    var m := Run(calls);
    var m1 := Activate(m, auth, duration, t0).0;
    RecordedActions(m1, work);
    var s := Recorded(m1, work).current.value;
    assert s.duration == duration;
  }

  /** How long a session opened at `t0` for `duration` has lasted by `now`. */
  function Lasted(t0: nat, now: nat, duration: nat): (n: nat)
    ensures n <= duration && (n == 0 || n <= now - t0) && (n == duration || now < t0 || n == now - t0)
  {
    if now < t0 then 0 else if now - t0 < duration then now - t0 else duration
  }

  function Recorded(m: Manager, work: seq<(string, string)>): Manager {
    if work == [] then m
    else
      var (d, s) := work[|work| - 1];
      RecordAction(Recorded(m, work[..|work| - 1]), d, s).0
  }

  lemma {:induction false} RecordedActions(m: Manager, work: seq<(string, string)>)
    requires m.current.Some? && m.current.value.active && m.current.value.actions == []
    ensures var r := Recorded(m, work);
            && r.current.Some? && r.current.value == m.current.value.(actions := r.current.value.actions)
            && r.actionCounter == m.actionCounter + |work| && |r.current.value.actions| == |work|
            && r.history == m.history && r.sessionCounter == m.sessionCounter
            && (forall i :: 0 <= i < |work| ==>
                  r.current.value.actions[i] == Action(m.actionCounter + i + 1, work[i].0, work[i].1))
  {
    if work != [] {
      RecordedActions(m, work[..|work| - 1]);
    }
  }
}
