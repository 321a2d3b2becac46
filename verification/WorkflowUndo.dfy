/** Executed workflows and the inverse workflows that undo them. */
module WorkflowUndo {
  import opened Wrappers

  datatype Action = LaunchApp(app: string, args: seq<string>) | ClassifyFile(path: string)
                  | MoveFile(from: string, to: string) | CopyFile(from: string, to: string)
                  | DeleteFile(path: string) | NetworkRequest(url: string, verb: string)
  datatype Trigger = Manual | FileCreated(directory: string) | SystemEvent(event: string) | Schedule(everySeconds: nat)
  datatype Step = Step(description: string, action: Action)
  datatype Workflow = Workflow(name: string, trigger: Trigger, steps: seq<Step>, enabled: bool)
  datatype WorkflowError = EmptyName | NoSteps | ZeroSchedule | MalformedStep(index: nat)
  datatype StepResult = StepOk | StepFailed | StepSkipped
  datatype StepOutcome = StepOutcome(description: string, action: Action, result: StepResult)
  datatype Report = Report(workflow: string, outcomes: seq<StepOutcome>, completed: bool)

  /** Files by path. */
  type Files = map<string, string>

  // --- Execution -----------------------------------------------------------------

  /** The effect of one action on the files; `None` when its source file is missing. */
  function Exec(fs: Files, a: Action): Option<Files> {
    match a
    case MoveFile(from, to) => if from in fs then Some((fs - {from})[to := fs[from]]) else None
    case CopyFile(from, to) => if from in fs then Some(fs[to := fs[from]]) else None
    case DeleteFile(path) => if path in fs then Some(fs - {path}) else None
    case _ => Some(fs)
  }

  /** A move or a copy needs its source, a deletion its file; nothing else touches the files. Every
      path keeps its contents but the destination, which gets the source's, and what was moved away or
      deleted. */
  lemma ExecIs(fs: Files, a: Action, p: string)
    ensures Exec(fs, a).None? <==>
              || (a.MoveFile? && a.from !in fs) || (a.CopyFile? && a.from !in fs) || (a.DeleteFile? && a.path !in fs)
    ensures Exec(fs, a).Some? ==>
              (var g := Exec(fs, a).value;
               var target := (a.MoveFile? || a.CopyFile?) && p == a.to;
               var gone := (a.MoveFile? && p == a.from && p != a.to) || (a.DeleteFile? && p == a.path);
               && (p in g <==> target || (p in fs && !gone))
               && (p in g ==> g[p] == if target then fs[a.from] else fs[p]))
  {
  }

  predicate IsWellFormed(a: Action) {
    match a
    case LaunchApp(app, _) => app != ""
    case ClassifyFile(p) => p != ""
    case DeleteFile(p) => p != ""
    case MoveFile(from, to) => from != "" && to != ""
    case CopyFile(from, to) => from != "" && to != ""
    case NetworkRequest(url, verb) => url != "" && verb != ""
  }

  function FirstMalformed(steps: seq<Step>, i: nat): Option<nat>
    requires i <= |steps|
    decreases |steps| - i
  {
    if i == |steps| then None
    else if !IsWellFormed(steps[i].action) then Some(i)
    else FirstMalformed(steps, i + 1)
  }

  function Validate(w: Workflow): Option<WorkflowError> {
    if w.name == "" then Some(EmptyName)
    else if w.trigger == Schedule(0) then Some(ZeroSchedule)
    else if w.steps == [] then Some(NoSteps)
    else match FirstMalformed(w.steps, 0) case Some(i) => Some(MalformedStep(i)) case None => None
  }

  /** A field of the action is empty. */
  ghost predicate HasEmptyField(a: Action) {
    || (a.LaunchApp? && a.app == "") || (a.ClassifyFile? && a.path == "") || (a.DeleteFile? && a.path == "")
    || ((a.MoveFile? || a.CopyFile?) && (a.from == "" || a.to == ""))
    || (a.NetworkRequest? && (a.url == "" || a.verb == ""))
  }

  lemma WellFormedIff(a: Action)
    ensures IsWellFormed(a) <==> !HasEmptyField(a)
  {
  }

  lemma {:induction false} FirstMalformedIs(steps: seq<Step>, i: nat, k: nat)
    requires i <= |steps|
    ensures FirstMalformed(steps, i) == Some(k) <==>
              && i <= k < |steps| && HasEmptyField(steps[k].action)
              && forall j :: i <= j < k ==> !HasEmptyField(steps[j].action)
    ensures FirstMalformed(steps, i).None? <==> forall j :: i <= j < |steps| ==> !HasEmptyField(steps[j].action)
    decreases |steps| - i
  {
    if i < |steps| {
      hide IsWellFormed, HasEmptyField;
      WellFormedIff(steps[i].action);
      FirstMalformedIs(steps, i + 1, k);
    }
  }

  /** Each defect is reported exactly when it is the first of: an empty name, a schedule of zero
      seconds, no steps, an action with an empty field, whose least position is given. */
  lemma ValidateIff(w: Workflow, k: nat)
    ensures Validate(w) == Some(EmptyName) <==> w.name == ""
    ensures Validate(w) == Some(ZeroSchedule) <==> w.name != "" && w.trigger == Schedule(0)
    ensures Validate(w) == Some(NoSteps) <==> w.name != "" && w.trigger != Schedule(0) && w.steps == []
    ensures Validate(w) == Some(MalformedStep(k)) <==>
              && w.name != "" && w.trigger != Schedule(0)
              && k < |w.steps| && HasEmptyField(w.steps[k].action)
              && forall j :: 0 <= j < k ==> !HasEmptyField(w.steps[j].action)
    ensures Validate(w).None? <==>
              && w.name != "" && w.trigger != Schedule(0) && w.steps != []
              && forall j :: 0 <= j < |w.steps| ==> !HasEmptyField(w.steps[j].action)
  {
    FirstMalformedIs(w.steps, 0, k);
    hide FirstMalformed, HasEmptyField;
  }

  /** The engine between two steps. */
  datatype Engine = Engine(outcomes: seq<StepOutcome>, fs: Files, failed: bool)

  /** One turn: the `refused` flag is any failure the files do not explain. */
  function Turn(e: Engine, step: Step, failFast: bool, refused: bool): Engine {
    var done := Exec(e.fs, step.action);
    if e.failed && failFast then
      e.(outcomes := e.outcomes + [StepOutcome(step.description, step.action, StepSkipped)])
    else if refused || done.None? then
      Engine(e.outcomes + [StepOutcome(step.description, step.action, StepFailed)], e.fs, true)
    else
      Engine(e.outcomes + [StepOutcome(step.description, step.action, StepOk)], done.value, e.failed)
  }

  /** The engine after the first `n` steps. */
  function Upto(fs: Files, steps: seq<Step>, failFast: bool, refused: nat -> bool, n: nat): (e: Engine)
    requires n <= |steps|
    ensures |e.outcomes| == n
  {
    if n == 0 then Engine([], fs, false)
    else Turn(Upto(fs, steps, failFast, refused, n - 1), steps[n - 1], failFast, refused(n - 1))
  }

  function RunOf(fs: Files, steps: seq<Step>, failFast: bool, refused: nat -> bool): Engine {
    Upto(fs, steps, failFast, refused, |steps|)
  }

  ghost predicate FailedBefore(outcomes: seq<StepOutcome>, i: nat)
    requires i <= |outcomes|
  {
    exists j :: 0 <= j < i && outcomes[j].result == StepFailed
  }

  /** What each step of a run comes to: skipped exactly after a failure when the run fails fast;
      otherwise failed exactly when it is refused or its file is missing; otherwise done. The run has
      failed exactly when some step has. */
  lemma {:induction false} OutcomeIs(fs: Files, steps: seq<Step>, failFast: bool, refused: nat -> bool, n: nat, i: nat)
    requires i < n <= |steps|
    ensures var all, e := Upto(fs, steps, failFast, refused, n), Upto(fs, steps, failFast, refused, i);
            var o := all.outcomes[i];
            && o.description == steps[i].description && o.action == steps[i].action
            && e.outcomes == all.outcomes[..i] && (all.failed <==> FailedBefore(all.outcomes, n))
            && (o.result == StepSkipped <==> failFast && FailedBefore(all.outcomes, i))
            && (o.result == StepFailed <==>
                  !(failFast && FailedBefore(all.outcomes, i)) && (refused(i) || Exec(e.fs, o.action).None?))
  {
    hide Exec;
    FailedIff(fs, steps, failFast, refused, i);
    FailedIff(fs, steps, failFast, refused, n);
    if i < n - 1 { OutcomeIs(fs, steps, failFast, refused, n - 1, i); }
    SameFailures(Upto(fs, steps, failFast, refused, n).outcomes, Upto(fs, steps, failFast, refused, i).outcomes);
  }

  lemma SameFailures(long: seq<StepOutcome>, short: seq<StepOutcome>)
    requires |short| <= |long|
    ensures short == long[..|short|] ==> (FailedBefore(short, |short|) <==> FailedBefore(long, |short|))
  {
  }

  lemma NextFailure(outcomes: seq<StepOutcome>, i: nat)
    requires i < |outcomes|
    ensures FailedBefore(outcomes, i + 1) <==> FailedBefore(outcomes, i) || outcomes[i].result == StepFailed
  {
  }

  lemma {:induction false} FailedIff(fs: Files, steps: seq<Step>, failFast: bool, refused: nat -> bool, n: nat)
    requires n <= |steps|
    ensures var e := Upto(fs, steps, failFast, refused, n); e.failed <==> FailedBefore(e.outcomes, n)
  {
    hide Exec;
    if n > 0 {
      FailedIff(fs, steps, failFast, refused, n - 1);
      var d, e := Upto(fs, steps, failFast, refused, n - 1), Upto(fs, steps, failFast, refused, n);
      assert e.outcomes[..n - 1] == d.outcomes;
      SameFailures(e.outcomes, d.outcomes);
      NextFailure(e.outcomes, n - 1);
      hide FailedBefore;
    }
  }

  /** `WorkflowEngine::run`: a malformed workflow is never run. */
  method Run(fs: Files, w: Workflow, failFast: bool, refused: nat -> bool)
      returns (error: Option<WorkflowError>, report: Report, after: Files)
    ensures error == Validate(w)
    ensures error.Some? ==> after == fs
    ensures error.None? ==>
              (var e := RunOf(fs, w.steps, failFast, refused);
               report == Report(w.name, e.outcomes, !e.failed) && after == e.fs)
  {
    error := Validate(w);
    report, after := Report(w.name, [], false), fs;
    if error.Some? {
      return;
    }
    var outcomes: seq<StepOutcome>, failed := [], false;
    for i := 0 to |w.steps|
      invariant Upto(fs, w.steps, failFast, refused, i) == Engine(outcomes, after, failed)
    {
      var step := w.steps[i];
      var result := StepSkipped;
      if !(failed && failFast) {
        var done := Exec(after, step.action);
        if refused(i) || done.None? {
          failed := true;
          result := StepFailed;
        } else {
          after := done.value;
          result := StepOk;
        }
      }
      outcomes := outcomes + [StepOutcome(step.description, step.action, result)];
    }
    report := Report(w.name, outcomes, !failed);
  }

  // --- Inverses --------------------------------------------------------------------

  predicate IsReversible(a: Action) { a.MoveFile? || a.CopyFile? || a.ClassifyFile? }

  function InverseAction(a: Action): Option<Action> {
    match a
    case MoveFile(from, to) => Some(MoveFile(to, from))
    case CopyFile(_, to) => Some(DeleteFile(to))
    case _ => None
  }

  function UndoLabel(description: string): string { "undo: " + description }

  function InverseOf(o: StepOutcome): seq<Step> {
    if o.result.StepOk? && InverseAction(o.action).Some?
    then [Step(UndoLabel(o.description), InverseAction(o.action).value)]
    else []
  }

  /** The inverses of the executed steps, last step first. */
  function Inverses(outcomes: seq<StepOutcome>): seq<Step> {
    if outcomes == [] then []
    else InverseOf(outcomes[|outcomes| - 1]) + Inverses(outcomes[..|outcomes| - 1])
  }

  lemma InversesSnoc(outcomes: seq<StepOutcome>, i: nat)
    requires i < |outcomes|
    ensures Inverses(outcomes[..i + 1]) == InverseOf(outcomes[i]) + Inverses(outcomes[..i])
  {
    assert outcomes[..i + 1][..i] == outcomes[..i];
  }

  predicate MovesOrCopies(o: StepOutcome) { o.result.StepOk? && (o.action.MoveFile? || o.action.CopyFile?) }

  /** A successful move is undone by the move back, a successful copy by deleting it, nothing else by
      anything. */
  lemma InverseOfIs(o: StepOutcome)
    ensures o.result == StepOk && o.action.MoveFile? ==>
              Inverses([o]) == [Step("undo: " + o.description, MoveFile(o.action.to, o.action.from))]
    ensures o.result == StepOk && o.action.CopyFile? ==>
              Inverses([o]) == [Step("undo: " + o.description, DeleteFile(o.action.to))]
    ensures !MovesOrCopies(o) ==> Inverses([o]) == []
  {
    assert [o][..0] == [] && Inverses([]) == [];
    assert Inverses([o]) == InverseOf(o) + [] == InverseOf(o);
  }

  /** The later part of a run is undone first. */
  lemma {:induction false} InversesConcat(a: seq<StepOutcome>, b: seq<StepOutcome>)
    ensures Inverses(a + b) == Inverses(b) + Inverses(a)
  {
    hide InverseOf;
    if b == [] {
      assert a + b == a && Inverses(b) + Inverses(a) == Inverses(a);
    } else {
      var n := |b| - 1;
      InversesConcat(a, b[..n]);
      assert (a + b)[..|a| + n] == a + b[..n];
      assert Inverses(a + b) == InverseOf(b[n]) + Inverses(a + b[..n]);
    }
  }

  function Reverse<T>(s: seq<T>): (r: seq<T>)
    ensures |r| == |s|
    ensures forall i :: 0 <= i < |s| ==> r[i] == s[|s| - 1 - i]
  {
    if s == [] then [] else Reverse(s[1..]) + [s[0]]
  }

  lemma ReverseSnoc<T>(s: seq<T>, x: T)
    ensures Reverse(s + [x]) == [x] + Reverse(s)
  {
  }

  /** `inverse_workflow`: collect the inverses in order, reverse them, wrap them up. */
  method InverseWorkflow(report: Report) returns (w: Option<Workflow>)
    ensures w == if Inverses(report.outcomes) == [] then None
                 else Some(Workflow("undo:" + report.workflow, Manual, Inverses(report.outcomes), true))
  {
    hide UndoLabel, InverseAction;
    var steps: seq<Step> := [];
    for i := 0 to |report.outcomes|
      invariant Reverse(steps) == Inverses(report.outcomes[..i])
    {
      var o := report.outcomes[i];
      InversesSnoc(report.outcomes, i);
      if o.result.StepOk? {
        var a := InverseAction(o.action);
        if a.Some? {
          var step := Step(UndoLabel(o.description), a.value);
          ReverseSnoc(steps, step);
          steps := steps + [step];
        }
      }
    }
    assert report.outcomes[..|report.outcomes|] == report.outcomes;
    var reversed := Reverse(steps);
    if reversed == [] {
      return None;
    }
    w := Some(Workflow("undo:" + report.workflow, Manual, reversed, true));
  }

  /** There is nothing to undo exactly when no move and no copy succeeded. */
  lemma {:induction false} NoInverseIff(outcomes: seq<StepOutcome>)
    ensures Inverses(outcomes) == [] <==> forall i :: 0 <= i < |outcomes| ==> !MovesOrCopies(outcomes[i])
  {
    hide InverseOf, MovesOrCopies;
    if outcomes != [] {
      var n := |outcomes| - 1;
      var last, rest := InverseOf(outcomes[n]), Inverses(outcomes[..n]);
      NoInverseIff(outcomes[..n]);
      NoInverseOfIff(outcomes[n]);
      assert Inverses(outcomes) == last + rest;
      hide Inverses;
      assert |last + rest| == |last| + |rest|;
    }
  }

  lemma NoInverseOfIff(o: StepOutcome)
    ensures InverseOf(o) == [] <==> !MovesOrCopies(o)
  {
    hide UndoLabel;
  }

  /** A successful deletion, launch or network request cannot be taken back. */
  ghost predicate Final(o: StepOutcome) {
    o.result.StepOk? && (o.action.DeleteFile? || o.action.LaunchApp? || o.action.NetworkRequest?)
  }

  ghost predicate AllReversible(outcomes: seq<StepOutcome>) {
    forall i :: 0 <= i < |outcomes| ==> !Final(outcomes[i])
  }

  lemma ReversibleIff(o: StepOutcome)
    ensures Final(o) <==> o.result.StepOk? && !IsReversible(o.action)
  {
  }

  // --- Undoing a run -----------------------------------------------------------------

  /** All steps in order, each succeeding; `None` if one cannot. */
  function RunAll(fs: Files, steps: seq<Step>): Option<Files>
    decreases |steps|
  {
    if steps == [] then Some(fs)
    else match Exec(fs, steps[0].action) case None => None case Some(f) => RunAll(f, steps[1..])
  }

  /** The action overwrites no file: its destination is free, or it moves a file onto itself. */
  predicate Clean(fs: Files, a: Action) {
    match a
    case MoveFile(from, to) => to !in fs || to == from
    case CopyFile(from, to) => to !in fs
    case _ => true
  }

  /** No successful step of the run overwrote a file. */
  ghost predicate NoClobber(fs: Files, steps: seq<Step>, failFast: bool, refused: nat -> bool, n: nat)
    requires n <= |steps|
  {
    forall i :: 0 <= i < n && Upto(fs, steps, failFast, refused, i + 1).outcomes[i].result.StepOk? ==>
      Clean(Upto(fs, steps, failFast, refused, i).fs, steps[i].action)
  }

  /** One clean, reversible action is undone by its inverse. */
  lemma UndoOne(fs: Files, a: Action)
    requires IsReversible(a) && Exec(fs, a).Some? && Clean(fs, a)
    ensures InverseAction(a).None? ==> Exec(fs, a) == Some(fs)
    ensures InverseAction(a).Some? ==> Exec(Exec(fs, a).value, InverseAction(a).value) == Some(fs)
  {
    match a
    case MoveFile(from, to) =>
      var g := Exec(fs, a).value;
      assert (g - {to})[from := g[to]] == fs;
    case CopyFile(from, to) =>
      assert fs[to := fs[from]] - {to} == fs;
    case ClassifyFile(_) =>
  }

  lemma RunAllCons(fs: Files, s: Step, steps: seq<Step>)
    ensures RunAll(fs, [s] + steps) == match Exec(fs, s.action) case None => None case Some(f) => RunAll(f, steps)
  {
    assert ([s] + steps)[1..] == steps;
  }

  lemma TurnResult(e: Engine, step: Step, failFast: bool, refused: bool)
    ensures var e' := Turn(e, step, failFast, refused);
            var o := e'.outcomes[|e.outcomes|];
            && e'.outcomes[..|e.outcomes|] == e.outcomes && o.action == step.action
            && (if o.result.StepOk? then Exec(e.fs, step.action) == Some(e'.fs) else e'.fs == e.fs)
  {
  }

  ghost predicate ReversibleUpto(fs: Files, steps: seq<Step>, failFast: bool, refused: nat -> bool, n: nat)
    requires n <= |steps|
  {
    AllReversible(Upto(fs, steps, failFast, refused, n).outcomes)
  }

  /** How the last of `n` turns changed the files, and what its inverse is. */
  lemma LastTurn(fs: Files, steps: seq<Step>, failFast: bool, refused: nat -> bool, n: nat)
    requires 0 < n <= |steps|
    ensures var d, e := Upto(fs, steps, failFast, refused, n - 1), Upto(fs, steps, failFast, refused, n);
            var o := e.outcomes[n - 1];
            && e.outcomes[..n - 1] == d.outcomes && o.action == steps[n - 1].action
            && (if o.result.StepOk? then Exec(d.fs, o.action) == Some(e.fs) else e.fs == d.fs)
            && Inverses(e.outcomes) == InverseOf(o) + Inverses(d.outcomes)
  {
    var d, e := Upto(fs, steps, failFast, refused, n - 1), Upto(fs, steps, failFast, refused, n);
    TurnResult(d, steps[n - 1], failFast, refused(n - 1));
    hide Turn, Exec, InverseOf;
    InversesSnoc(e.outcomes, n - 1);
    assert e.outcomes[..n] == e.outcomes;
  }

  lemma PrefixReversible(fs: Files, steps: seq<Step>, failFast: bool, refused: nat -> bool, n: nat)
    requires 0 < n <= |steps| && ReversibleUpto(fs, steps, failFast, refused, n)
    ensures ReversibleUpto(fs, steps, failFast, refused, n - 1)
    ensures var o := Upto(fs, steps, failFast, refused, n).outcomes[n - 1];
            o.result.StepOk? ==> IsReversible(o.action)
  {
    LastTurn(fs, steps, failFast, refused, n);
    hide Upto, IsReversible, Final;
    ReversibleIff(Upto(fs, steps, failFast, refused, n).outcomes[n - 1]);
    var d, e := Upto(fs, steps, failFast, refused, n - 1), Upto(fs, steps, failFast, refused, n);
    forall i | 0 <= i < n - 1 ensures d.outcomes[i] == e.outcomes[i] { assert e.outcomes[..n - 1][i] == e.outcomes[i]; }
  }

  /** The inverse of any reversible run that overwrote nothing brings back the initial files. */
  lemma {:induction false} UndoRestores(fs: Files, steps: seq<Step>, failFast: bool, refused: nat -> bool, n: nat)
    requires n <= |steps| && NoClobber(fs, steps, failFast, refused, n)
    requires ReversibleUpto(fs, steps, failFast, refused, n)
    ensures var e := Upto(fs, steps, failFast, refused, n);
            RunAll(e.fs, Inverses(e.outcomes)) == Some(fs)
  {
    if n > 0 {
      var d, e := Upto(fs, steps, failFast, refused, n - 1), Upto(fs, steps, failFast, refused, n);
      LastTurn(fs, steps, failFast, refused, n);
      PrefixReversible(fs, steps, failFast, refused, n);
      UndoRestores(fs, steps, failFast, refused, n - 1);
      hide Upto, Exec, IsReversible, InverseOf, RunAll, Inverses, ReversibleUpto, Clean;
      UndoTurn(fs, d.fs, e.fs, e.outcomes[n - 1], Inverses(d.outcomes));
    }
  }

  /** Undoing the last turn, then all before it. */
  lemma UndoTurn(fs: Files, before: Files, after: Files, o: StepOutcome, rest: seq<Step>)
    requires RunAll(before, rest) == Some(fs)
    requires o.result.StepOk? ==>
               Exec(before, o.action) == Some(after) && IsReversible(o.action) && Clean(before, o.action)
    requires !o.result.StepOk? ==> after == before
    ensures RunAll(after, InverseOf(o) + rest) == Some(fs)
  {
    hide Exec, IsReversible, InverseAction, UndoLabel, Clean, RunAll;
    if o.result.StepOk? { UndoOne(before, o.action); }
    if InverseOf(o) == [] {
      assert InverseOf(o) + rest == rest;
    } else {
      RunAllCons(after, InverseOf(o)[0], rest);
    }
  }

  // --- Counting files ------------------------------------------------------------------

  /** Copies that succeeded. */
  function Copies(outcomes: seq<StepOutcome>): nat {
    if outcomes == [] then 0
    else Copies(outcomes[..|outcomes| - 1]) + CopyCount(outcomes[|outcomes| - 1])
  }

  function CopyCount(o: StepOutcome): nat { if o.result.StepOk? && o.action.CopyFile? then 1 else 0 }

  ghost function LostAt(fs: Files, steps: seq<Step>, failFast: bool, refused: nat -> bool, n: nat): nat
    requires 0 < n <= |steps|
  {
    var d, e := Upto(fs, steps, failFast, refused, n - 1), Upto(fs, steps, failFast, refused, n);
    if e.outcomes[n - 1].result.StepOk? && !Clean(d.fs, steps[n - 1].action) then 1 else 0
  }

  /** Successful steps that overwrote a file. */
  ghost function Lost(fs: Files, steps: seq<Step>, failFast: bool, refused: nat -> bool, n: nat): nat
    requires n <= |steps|
  {
    if n == 0 then 0
    else Lost(fs, steps, failFast, refused, n - 1) + LostAt(fs, steps, failFast, refused, n)
  }

  lemma SizeAfterPut(fs: Files, p: string, c: string)
    ensures |fs[p := c]| == |fs| + (if p in fs then 0 else 1)
  {
    assert fs[p := c].Keys == fs.Keys + {p};
  }

  lemma ExecSize(fs: Files, a: Action)
    requires IsReversible(a) && Exec(fs, a).Some?
    ensures |Exec(fs, a).value| == |fs| + (if a.CopyFile? then 1 else 0) - (if Clean(fs, a) then 0 else 1)
  {
    match a
    case MoveFile(from, to) =>
      assert fs.Keys == (fs - {from}).Keys + {from};
      SizeAfterPut(fs - {from}, to, fs[from]);
    case CopyFile(from, to) => SizeAfterPut(fs, to, fs[from]);
    case ClassifyFile(_) =>
  }

  lemma InverseSize(fs: Files, a: Action)
    requires a.MoveFile? || a.CopyFile?
    requires Exec(fs, InverseAction(a).value).Some?
    ensures |Exec(fs, InverseAction(a).value).value| <= |fs| - (if a.CopyFile? then 1 else 0)
  {
    match a
    case MoveFile(from, to) => ExecSize(fs, MoveFile(to, from));
    case CopyFile(_, to) => assert fs.Keys == (fs - {to}).Keys + {to};
  }

  lemma CopiesSnoc(outcomes: seq<StepOutcome>, before: seq<StepOutcome>)
    requires outcomes != [] && outcomes[..|outcomes| - 1] == before
    ensures Copies(outcomes) == Copies(before) + CopyCount(outcomes[|outcomes| - 1])
  {
  }

  lemma TurnSize(fs: Files, steps: seq<Step>, failFast: bool, refused: nat -> bool, n: nat)
    requires 0 < n <= |steps| && ReversibleUpto(fs, steps, failFast, refused, n)
    ensures var d, e := Upto(fs, steps, failFast, refused, n - 1), Upto(fs, steps, failFast, refused, n);
            |e.fs| == |d.fs| + CopyCount(e.outcomes[n - 1]) - LostAt(fs, steps, failFast, refused, n)
  {
    LastTurn(fs, steps, failFast, refused, n);
    PrefixReversible(fs, steps, failFast, refused, n);
    hide Upto, Exec, IsReversible, Inverses, InverseOf, Clean, ReversibleUpto;
    var d, e := Upto(fs, steps, failFast, refused, n - 1), Upto(fs, steps, failFast, refused, n);
    if e.outcomes[n - 1].result.StepOk? { ExecSize(d.fs, steps[n - 1].action); }
  }

  /** The step of the induction, in the three counts. */
  lemma TurnCounts(fs: Files, steps: seq<Step>, failFast: bool, refused: nat -> bool, n: nat)
    requires 0 < n <= |steps|
    ensures var d, e := Upto(fs, steps, failFast, refused, n - 1), Upto(fs, steps, failFast, refused, n);
            && Copies(e.outcomes) == Copies(d.outcomes) + CopyCount(e.outcomes[n - 1])
            && Lost(fs, steps, failFast, refused, n) ==
               Lost(fs, steps, failFast, refused, n - 1) + LostAt(fs, steps, failFast, refused, n)
  {
    LastTurn(fs, steps, failFast, refused, n);
    var d, e := Upto(fs, steps, failFast, refused, n - 1), Upto(fs, steps, failFast, refused, n);
    hide Upto, LostAt, CopyCount, Exec, Inverses, InverseOf;
    CopiesSnoc(e.outcomes, d.outcomes);
    hide Copies;
  }

  lemma {:induction false} RunSize(fs: Files, steps: seq<Step>, failFast: bool, refused: nat -> bool, n: nat)
    requires n <= |steps| && ReversibleUpto(fs, steps, failFast, refused, n)
    ensures var e := Upto(fs, steps, failFast, refused, n);
            |e.fs| == |fs| + Copies(e.outcomes) - Lost(fs, steps, failFast, refused, n)
  {
    if n > 0 {
      hide *;
      PrefixReversible(fs, steps, failFast, refused, n);
      RunSize(fs, steps, failFast, refused, n - 1);
      TurnCounts(fs, steps, failFast, refused, n);
      TurnSize(fs, steps, failFast, refused, n);
    }
  }

  lemma {:induction false} UndoSize(outcomes: seq<StepOutcome>, g: Files)
    requires RunAll(g, Inverses(outcomes)).Some?
    ensures |RunAll(g, Inverses(outcomes)).value| <= |g| - Copies(outcomes)
    decreases |outcomes|
  {
    if outcomes != [] {
      var n := |outcomes| - 1;
      var o, rest := outcomes[n], outcomes[..n];
      assert Inverses(outcomes) == InverseOf(o) + Inverses(rest);
      assert Copies(outcomes) == Copies(rest) + CopyCount(o);
      hide Exec, Inverses, UndoLabel, RunAll, Copies;
      if o.result.StepOk? && InverseAction(o.action).Some? {
        RunAllCons(g, InverseOf(o)[0], Inverses(rest));
        InverseSize(g, o.action);
        UndoSize(rest, Exec(g, InverseAction(o.action).value).value);
      } else {
        assert InverseOf(o) + Inverses(rest) == Inverses(rest);
        UndoSize(rest, g);
      }
    }
  }

  lemma {:induction false} LostIff(fs: Files, steps: seq<Step>, failFast: bool, refused: nat -> bool, n: nat)
    requires n <= |steps|
    ensures Lost(fs, steps, failFast, refused, n) == 0 <==> NoClobber(fs, steps, failFast, refused, n)
  {
    hide Upto, Clean;
    if n > 0 { LostIff(fs, steps, failFast, refused, n - 1); }
  }

  /** For every run whose successful steps are all reversible: the inverse steps all succeed and
      restore the initial files exactly when no successful step overwrote a file. */
  lemma UndoRestoresIff(fs: Files, steps: seq<Step>, failFast: bool, refused: nat -> bool)
    requires AllReversible(RunOf(fs, steps, failFast, refused).outcomes)
    ensures var e := RunOf(fs, steps, failFast, refused);
            RunAll(e.fs, Inverses(e.outcomes)) == Some(fs) <==> NoClobber(fs, steps, failFast, refused, |steps|)
  {
    var n := |steps|;
    var e := Upto(fs, steps, failFast, refused, n);
    LostIff(fs, steps, failFast, refused, n);
    RunSize(fs, steps, failFast, refused, n);
    if RunAll(e.fs, Inverses(e.outcomes)) == Some(fs) {
      UndoSize(e.outcomes, e.fs);
    }
    if NoClobber(fs, steps, failFast, refused, n) {
      UndoRestores(fs, steps, failFast, refused, n);
    }
  }

  /** No step is refused. */
  function Never(i: nat): bool { false }

  // --- Replaying the inverse with the engine ------------------------------------------

  /** Run by the engine with nothing refused, a step list completes exactly when every step can. */
  lemma {:induction false} EngineRunsAll(fs: Files, steps: seq<Step>, failFast: bool, n: nat)
    requires n <= |steps|
    ensures var e := Upto(fs, steps, failFast, Never, n);
            && (!e.failed <==> RunAll(fs, steps[..n]).Some?)
            && (!e.failed ==> RunAll(fs, steps[..n]) == Some(e.fs))
  {
    if n > 0 {
      EngineRunsAll(fs, steps, failFast, n - 1);
      RunAllSnoc(fs, steps[..n - 1], steps[n - 1]);
      assert steps[..n - 1] + [steps[n - 1]] == steps[..n];
      hide Exec, RunAll;
    }
  }

  lemma {:induction false} RunAllSnoc(fs: Files, steps: seq<Step>, s: Step)
    ensures RunAll(fs, steps + [s]) ==
            match RunAll(fs, steps) case None => None case Some(f) => Exec(f, s.action)
    decreases |steps|
  {
    if steps == [] {
      assert [] + [s] == [s] && [s][1..] == [];
    } else {
      assert (steps + [s])[1..] == steps[1..] + [s];
      if Exec(fs, steps[0].action).Some? {
        RunAllSnoc(Exec(fs, steps[0].action).value, steps[1..], s);
      }
    }
  }

  /** The inverse of a run of a valid workflow is itself valid, so the engine accepts it. */
  lemma {:induction false} InversesWellFormed(outcomes: seq<StepOutcome>)
    requires forall i :: 0 <= i < |outcomes| ==> IsWellFormed(outcomes[i].action)
    ensures forall i :: 0 <= i < |Inverses(outcomes)| ==> IsWellFormed(Inverses(outcomes)[i].action)
  {
    hide UndoLabel;
    if outcomes != [] {
      InversesWellFormed(outcomes[..|outcomes| - 1]);
    }
  }

  lemma {:induction false} NoneMalformed(steps: seq<Step>, i: nat)
    requires i <= |steps|
    ensures FirstMalformed(steps, i).None? <==> forall j :: i <= j < |steps| ==> IsWellFormed(steps[j].action)
    decreases |steps| - i
  {
    hide IsWellFormed;
    if i < |steps| { NoneMalformed(steps, i + 1); }
  }

  lemma {:induction false} OutcomeActions(fs: Files, steps: seq<Step>, failFast: bool, refused: nat -> bool, n: nat)
    requires n <= |steps|
    ensures forall i :: 0 <= i < n ==> Upto(fs, steps, failFast, refused, n).outcomes[i].action == steps[i].action
  {
    if n > 0 { OutcomeActions(fs, steps, failFast, refused, n - 1); }
  }

  lemma InverseValidates(fs: Files, w: Workflow, failFast: bool, refused: nat -> bool)
    requires Validate(w).None?
    ensures var inv := Inverses(RunOf(fs, w.steps, failFast, refused).outcomes);
            inv != [] ==> Validate(Workflow("undo:" + w.name, Manual, inv, true)).None?
  {
    var outcomes := RunOf(fs, w.steps, failFast, refused).outcomes;
    NoneMalformed(w.steps, 0);
    OutcomeActions(fs, w.steps, failFast, refused, |w.steps|);
    hide Upto, FirstMalformed, IsWellFormed;
    InversesWellFormed(outcomes);
    NoneMalformed(Inverses(outcomes), 0);
  }

  /** End to end: run a valid workflow, whatever fails or is refused; if its successful steps are
      all reversible, replaying the inverse workflow completes and restores the files exactly when
      the run overwrote nothing. */
  lemma ReplayRestoresIff(fs: Files, w: Workflow, failFast: bool, refused: nat -> bool, failFast': bool)
    requires Validate(w).None? && AllReversible(RunOf(fs, w.steps, failFast, refused).outcomes)
    ensures var e := RunOf(fs, w.steps, failFast, refused);
            var undone := RunOf(e.fs, Inverses(e.outcomes), failFast', Never);
            (!undone.failed && undone.fs == fs) <==> NoClobber(fs, w.steps, failFast, refused, |w.steps|)
  {
    UndoRestoresIff(fs, w.steps, failFast, refused);
    var e := RunOf(fs, w.steps, failFast, refused);
    var inv := Inverses(e.outcomes);
    EngineRunsAll(e.fs, inv, failFast', |inv|);
    assert inv[..|inv|] == inv;
    hide Upto, Inverses;
  }

  // --- The undo plan ---------------------------------------------------------------------

  type Bytes = seq<bv8>

  datatype UndoEntry = UndoEntry(actionId: nat, description: string, timestamp: nat, reversible: bool)
  datatype UndoPlan = UndoPlan(entry: UndoEntry, inverse: Option<Workflow>, snapshot: Bytes)

  predicate AllOkReversible(outcomes: seq<StepOutcome>) {
    if outcomes == [] then true
    else
      var o := outcomes[|outcomes| - 1];
      (o.result.StepOk? ==> IsReversible(o.action)) && AllOkReversible(outcomes[..|outcomes| - 1])
  }

  /** `plan_workflow_undo`; `encode` is the canonical encoder, which may fail. */
  method PlanWorkflowUndo(report: Report, actionId: nat, timestamp: nat, encode: Workflow -> Option<Bytes>)
      returns (plan: UndoPlan)
    ensures plan.entry.reversible <==> AllReversible(report.outcomes)
    ensures plan.inverse.None? <==> forall i :: 0 <= i < |report.outcomes| ==> !MovesOrCopies(report.outcomes[i])
    ensures plan.inverse.Some? ==>
              plan.inverse.value == Workflow("undo:" + report.workflow, Manual, Inverses(report.outcomes), true)
    ensures plan.snapshot == if plan.inverse.Some? && encode(plan.inverse.value).Some?
                             then encode(plan.inverse.value).value else []
    ensures plan.entry.actionId == actionId && plan.entry.timestamp == timestamp
    ensures plan.entry.description == "ran workflow '" + report.workflow + "'"
  {
    hide Inverses, IsReversible;
    ReversibleFlag(report.outcomes);
    NoInverseIff(report.outcomes);
    var reversible := AllOkReversible(report.outcomes);
    var inverse := InverseWorkflow(report);
    var snapshot := [];
    if inverse.Some? && encode(inverse.value).Some? {
      snapshot := encode(inverse.value).value;
    }
    var entry := UndoEntry(actionId, "ran workflow '" + report.workflow + "'", timestamp, reversible);
    plan := UndoPlan(entry, inverse, snapshot);
  }

  lemma {:induction false} ReversibleFlag(outcomes: seq<StepOutcome>)
    ensures AllOkReversible(outcomes) <==> AllReversible(outcomes)
  {
    hide IsReversible, Final;
    if outcomes != [] {
      var n := |outcomes| - 1;
      ReversibleFlag(outcomes[..n]);
      ReversibleIff(outcomes[n]);
      assert AllReversible(outcomes) <==> AllReversible(outcomes[..n]) && !Final(outcomes[n]);
    }
  }

  /** A run marked reversible whose undo loses a file: a move onto an existing one. */
  lemma MarkedReversibleButLost()
    ensures var fs := map["/a" := "1", "/b" := "2"];
            var e := RunOf(fs, [Step("tidy", MoveFile("/a", "/b"))], true, Never);
            && AllReversible(e.outcomes)
            && RunAll(e.fs, Inverses(e.outcomes)) == Some(map["/a" := "1"])
  {
    var fs := map["/a" := "1", "/b" := "2"];
    var s := Step("tidy", MoveFile("/a", "/b"));
    var e0 := Upto(fs, [s], true, Never, 0);
    var e := RunOf(fs, [s], true, Never);
    var o := StepOutcome("tidy", MoveFile("/a", "/b"), StepOk);
    assert "/a" in fs && "/a" != "/b";
    assert e == Turn(e0, s, true, false);
    assert e.outcomes == [o];
    assert e.fs == (fs - {"/a"})["/b" := "1"];
    LostByMove(e, fs, o);
  }

  lemma LostByMove(e: Engine, fs: Files, o: StepOutcome)
    requires o == StepOutcome("tidy", MoveFile("/a", "/b"), StepOk) && e.outcomes == [o]
    requires fs == map["/a" := "1", "/b" := "2"] && e.fs == (fs - {"/a"})["/b" := "1"]
    ensures RunAll(e.fs, Inverses(e.outcomes)) == Some(map["/a" := "1"])
  {
    assert [o][..0] == [] && Inverses([]) == [];
    var inv := Step(UndoLabel("tidy"), MoveFile("/b", "/a"));
    assert InverseOf(o) == [inv];
    assert Inverses([o]) == [inv] + [] == [inv];
    RunAllCons(e.fs, inv, []);
    assert "/a" != "/b";
    assert (e.fs - {"/b"})["/a" := "1"] == map["/a" := "1"];
  }
}
