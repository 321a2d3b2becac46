/** The Helper's 30-second undo window. */
module UndoWindow {
  import opened WorkflowUndo
  import opened Wrappers

  // Instants are nanosecond counts of the monotonic clock.
  const UNDO_WINDOW: nat := 30_000_000_000

  datatype Slot = Slot(entry: UndoEntry, at: nat, snapshot: Bytes)

  /** The slots still inside the window at `now`, in order. */
  function Young(slots: seq<Slot>, now: nat): seq<Slot> {
    if slots == [] then []
    else (if now < slots[0].at + UNDO_WINDOW then [slots[0]] else []) + Young(slots[1..], now)
  }

  ghost predicate InOrder(slots: seq<Slot>) {
    forall i, j :: 0 <= i <= j < |slots| ==> slots[i].at <= slots[j].at
  }

  lemma {:induction false} AllYoung(slots: seq<Slot>, now: nat)
    requires InOrder(slots) && (slots != [] ==> now < slots[0].at + UNDO_WINDOW)
    ensures Young(slots, now) == slots
  {
    if slots != [] {
      if |slots| > 1 { assert slots[1..][0] == slots[1] && slots[0].at <= slots[1].at; }
      AllYoung(slots[1..], now);
    }
  }

  lemma {:induction false} NoneYoung(slots: seq<Slot>, now: nat)
    requires InOrder(slots) && (slots != [] ==> now >= slots[|slots| - 1].at + UNDO_WINDOW)
    ensures Young(slots, now) == []
  {
    if slots != [] {
      if |slots| > 1 { assert slots[1..][|slots| - 2] == slots[|slots| - 1]; }
      NoneYoung(slots[1..], now);
    }
  }

  lemma {:induction false} YoungSnoc(slots: seq<Slot>, s: Slot, now: nat)
    ensures Young(slots + [s], now) == Young(slots, now) + (if now < s.at + UNDO_WINDOW then [s] else [])
  {
    var more, tail := slots + [s], if now < s.at + UNDO_WINDOW then [s] else [];
    if slots == [] {
      assert more == [s] && [s][1..] == [];
    } else {
      YoungSnoc(slots[1..], s, now);
      assert more[0] == slots[0] && more[1..] == slots[1..] + [s];
      var head, rest := if now < slots[0].at + UNDO_WINDOW then [slots[0]] else [], Young(slots[1..], now);
      assert Young(slots, now) == head + rest && Young(more, now) == head + Young(more[1..], now);
      hide Young;
      assert head + (rest + tail) == (head + rest) + tail;
    }
  }

  lemma {:induction false} YoungInOrder(slots: seq<Slot>, now: nat)
    requires InOrder(slots)
    ensures InOrder(Young(slots, now)) && forall s :: s in Young(slots, now) ==> s in slots
  {
    if slots != [] {
      YoungInOrder(slots[1..], now);
      var rest := Young(slots[1..], now);
      forall i | 0 <= i < |rest| ensures slots[0].at <= rest[i].at {
        assert rest[i] in slots[1..];
      }
    }
  }

  /** What is left at `now`: the entries from the first that is less than 30 seconds old. */
  ghost predicate DropsExpired(slots: seq<Slot>, now: nat, left: seq<Slot>) {
    && |left| <= |slots| && left == slots[|slots| - |left|..]
    && (forall i :: 0 <= i < |slots| - |left| ==> slots[i].at + 30_000_000_000 <= now)
    && (forall i :: 0 <= i < |left| ==> now < left[i].at + 30_000_000_000)
  }

  lemma {:induction false} YoungDropsExpired(slots: seq<Slot>, now: nat)
    requires InOrder(slots)
    ensures DropsExpired(slots, now, Young(slots, now))
  {
    if slots != [] {
      if now < slots[0].at + UNDO_WINDOW {
        AllYoung(slots, now);
        hide Young;
        forall i | 0 <= i < |slots| ensures now < slots[i].at + UNDO_WINDOW { assert slots[0].at <= slots[i].at; }
      } else {
        YoungDropsExpired(slots[1..], now);
        var left := Young(slots[1..], now);
        assert Young(slots, now) == left;
        hide Young;
        forall i | 0 <= i < |slots| - |left| ensures slots[i].at + UNDO_WINDOW <= now {
          if i > 0 { assert slots[i] == slots[1..][i - 1]; }
        }
      }
    }
  }

  class UndoWindow {
    var slots: seq<Slot>

    ghost predicate Valid()
      reads this
    {
      InOrder(slots)
    }

    constructor ()
      ensures Valid() && slots == []
    {
      slots := [];
    }

    /** `prune_expired` drops only from the front, which removes exactly the expired entries. */
    method PruneExpired(now: nat)
      requires Valid()
      modifies this
      ensures Valid() && slots == Young(old(slots), now) && DropsExpired(old(slots), now, slots)
    {
      hide DropsExpired;
      YoungDropsExpired(slots, now);
      while slots != [] && now >= slots[0].at + UNDO_WINDOW
        invariant InOrder(slots) && Young(slots, now) == Young(old(slots), now)
        decreases |slots|
      {
        slots := slots[1..];
      }
      AllYoung(slots, now);
    }

    method RecordWithSnapshot(entry: UndoEntry, snapshot: Bytes, now: nat)
      requires Valid() && forall s :: s in slots ==> s.at <= now
      modifies this
      ensures Valid() && slots == Young(old(slots), now) + [Slot(entry, now, snapshot)]
    {
      hide DropsExpired;
      YoungInOrder(slots, now);
      PruneExpired(now);
      slots := slots + [Slot(entry, now, snapshot)];
    }

    /** `undo_last_with_snapshot`: the youngest entry, if it is still inside the window. */
    method UndoLast(now: nat) returns (r: Option<Slot>)
      requires Valid()
      modifies this
      ensures Valid()
      ensures r.None? <==> Young(old(slots), now) == []
      ensures r.Some? ==> Young(old(slots), now) == slots + [r.value]
      ensures r.None? ==> slots == []
      ensures r == if old(slots) != [] && now < old(slots)[|old(slots)| - 1].at + 30_000_000_000
                   then Some(old(slots)[|old(slots)| - 1]) else None
    {
      hide DropsExpired;
      if slots != [] {
        var n := |slots| - 1;
        YoungSnoc(slots[..n], slots[n], now);
        assert slots[..n] + [slots[n]] == slots;
        if now >= slots[n].at + UNDO_WINDOW { NoneYoung(slots, now); }
      }
      PruneExpired(now);
      r := None;
      if slots != [] {
        r := Some(slots[|slots| - 1]);
        slots := slots[..|slots| - 1];
      }
    }
  }

  lemma NothingToReplay(fs: Files, failFast: bool)
    ensures RunOf(fs, [], failFast, Never) == Engine([], fs, false)
  {
  }

  /** The steps of the inverse workflow of a run. */
  function InverseOfRun(fs: Files, w: Workflow, failFast: bool, refused: nat -> bool): Workflow {
    Workflow("undo:" + w.name, Manual, Inverses(RunOf(fs, w.steps, failFast, refused).outcomes), true)
  }

  /** Record a run, undo it inside 30 seconds, and replay the snapshot that comes back. If the run
      was marked reversible and its inverse could be encoded, the replay completes with the files as
      they were exactly when the run overwrote nothing; if encoding failed, nothing is undone. */
  method RecordThenUndo(window: UndoWindow, fs: Files, w: Workflow, failFast: bool, refused: nat -> bool,
                        actionId: nat, encode: Workflow -> Option<Bytes>, decode: Bytes -> Option<Workflow>,
                        t0: nat, t1: nat)
      returns (reversible: bool, completed: bool, restored: Files)
    requires window.Valid() && (forall s :: s in window.slots ==> s.at <= t0) && t0 <= t1 < t0 + 30_000_000_000
    requires Validate(w).None?
    requires forall v :: encode(v).Some? ==> encode(v).value != [] && decode(encode(v).value) == Some(v)
    modifies window
    ensures reversible <==> AllReversible(RunOf(fs, w.steps, failFast, refused).outcomes)
    ensures reversible && (encode(InverseOfRun(fs, w, failFast, refused)).Some? ||
                           Inverses(RunOf(fs, w.steps, failFast, refused).outcomes) == []) ==>
              (completed && restored == fs <==> NoClobber(fs, w.steps, failFast, refused, |w.steps|))
    ensures encode(InverseOfRun(fs, w, failFast, refused)).None? ==>
              restored == RunOf(fs, w.steps, failFast, refused).fs
  {
    hide RunOf, Validate, Inverses;
    var error, report, after := Run(fs, w, failFast, refused);
    var plan := PlanWorkflowUndo(report, actionId, 0, encode);
    reversible := plan.entry.reversible;
    window.RecordWithSnapshot(plan.entry, plan.snapshot, t0);
    var slot := window.UndoLast(t1);
    assert slot.value.snapshot == plan.snapshot;
    completed, restored := true, after;
    NoInverseIff(report.outcomes);
    InverseValidates(fs, w, failFast, refused);
    if reversible { ReplayRestoresIff(fs, w, failFast, refused, true); }
    if slot.value.snapshot != [] {
      var inverse := decode(slot.value.snapshot).value;
      var e2, r2, undone := Run(after, inverse, true, Never);
      completed, restored := r2.completed, undone;
    } else {
      NothingToReplay(after, true);
    }
  }
}
