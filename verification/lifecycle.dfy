/** What the device makes of a delta, as the next run of
    rsvp-auto-tunnel-mesh.py reads it back (lines 51-61): a created tunnel
    exists with its comment cleared, a cleared mark is gone, a started mark
    holds `now`, a removed tunnel is gone with its mark. With the read-back
    lemmas `Reconciler.NameMatches`, `Reconciler.NameReadBack` and
    `DeviceState.MarkReadBack`, this is the state a second run starts from,
    and that run plans nothing. */
module Lifecycle {
  import opened Results
  import opened DeviceState
  import opened Reconciler

  /** `names` with every occurrence of `name` removed. */
  function Without(names: seq<string>, name: string): (r: seq<string>)
    ensures forall x :: x in r <==> x in names && x != name
  {
    if |names| == 0 then []
    else
      var last := names[|names| - 1];
      Without(names[..|names| - 1], name) + (if last == name then [] else [last])
  }

  /** The state after the device has taken the statements of one op. */
  function Apply(st: TunnelState, op: Op, now: nat): TunnelState
  {
    match op
    case ClearMark(name) => TunnelState(st.existing, st.marks - {name})
    case Create(name, _) => TunnelState(st.existing + [name], st.marks - {name})
    case StartMark(name) => TunnelState(st.existing, st.marks[name := now])
    case Delete(name) => TunnelState(Without(st.existing, name), st.marks - {name})
  }

  /** The state after the device has taken a whole delta, in order. */
  function ApplyAll(st: TunnelState, ops: seq<Op>, now: nat): TunnelState
  {
    if |ops| == 0 then st else Apply(ApplyAll(st, ops[..|ops| - 1], now), ops[|ops| - 1], now)
  }

  /** What the state says about one name. */
  datatype View = View(present: bool, mark: Option<nat>)

  function ViewOf(st: TunnelState, name: string): View
  {
    View(name in st.existing, if name in st.marks then Some(st.marks[name]) else None)
  }

  /** What an op does to the view of its own name. */
  function Effect(op: Op, v: View, now: nat): View
  {
    match op
    case ClearMark(_) => View(v.present, None)
    case Create(_, _) => View(true, None)
    case StartMark(_) => View(v.present, Some(now))
    case Delete(_) => View(false, None)
  }

  predicate SameKind(a: Op, b: Op)
  {
    (a.ClearMark? && b.ClearMark?) || (a.Create? && b.Create?) ||
    (a.StartMark? && b.StartMark?) || (a.Delete? && b.Delete?)
  }

  /** An op changes the view of its own name only, by its effect. */
  lemma ApplyView(st: TunnelState, op: Op, now: nat, name: string)
    ensures ViewOf(Apply(st, op, now), name) ==
            if op.name == name then Effect(op, ViewOf(st, name), now) else ViewOf(st, name)
  {
  }

  /** A delta that never names `name` leaves its view alone. */
  lemma {:induction false} ApplyAllUntouched(st: TunnelState, ops: seq<Op>, now: nat, name: string)
    requires forall j :: 0 <= j < |ops| ==> ops[j].name != name
    ensures ViewOf(ApplyAll(st, ops, now), name) == ViewOf(st, name)
  {
    if |ops| > 0 {
      var n := |ops| - 1;
      ApplyAllUntouched(st, ops[..n], now, name);
      ApplyView(ApplyAll(st, ops[..n], now), ops[n], now, name);
    }
  }

  /** A delta whose ops on `name` are all of one kind has the effect of one
      such op: each kind of op is idempotent. */
  lemma {:induction false} ApplyAllTouched(st: TunnelState, ops: seq<Op>, now: nat, name: string, op: Op, j0: int)
    requires 0 <= j0 < |ops| && ops[j0].name == name
    requires forall j :: 0 <= j < |ops| && ops[j].name == name ==> SameKind(ops[j], op)
    ensures ViewOf(ApplyAll(st, ops, now), name) == Effect(op, ViewOf(st, name), now)
  {
    var n := |ops| - 1;
    var before := ApplyAll(st, ops[..n], now);
    ApplyView(before, ops[n], now, name);
    if exists j :: 0 <= j < n && ops[j].name == name {
      var j :| 0 <= j < n && ops[j].name == name;
      ApplyAllTouched(st, ops[..n], now, name, op, j);
    } else {
      ApplyAllUntouched(st, ops[..n], now, name);
    }
  }

  // ---------------------------------------------------------------------
  // When a run plans nothing
  // ---------------------------------------------------------------------

  lemma {:induction false} IndexOpsNone(prefix: string, target: string, n: int, st: TunnelState)
    requires forall i :: 0 <= i < n ==> TunnelName(prefix, target, i) in st.existing && TunnelName(prefix, target, i) !in st.marks
    ensures IndexOps(prefix, target, n, st) == []
    decreases n
  {
    if n > 0 {
      IndexOpsNone(prefix, target, n - 1, st);
    }
  }

  /** Lines 66-81 emit nothing once every required tunnel exists unmarked. */
  lemma {:induction false} DesiredOpsNone(prefix: string, count: int, targets: seq<string>, st: TunnelState)
    requires forall name :: name in RequiredNames(prefix, count, targets) ==> name in st.existing && name !in st.marks
    ensures DesiredOps(prefix, count, targets, st) == []
  {
    if |targets| > 0 {
      var n := |targets| - 1;
      var target := targets[n];
      var names := IndexNames(prefix, target, count);
      DesiredOpsNone(prefix, count, targets[..n], st);
      forall i | 0 <= i < count
        ensures TunnelName(prefix, target, i) in st.existing && TunnelName(prefix, target, i) !in st.marks
      {
        assert names[i] == TunnelName(prefix, target, i);
      }
      IndexOpsNone(prefix, target, count, st);
    }
  }

  /** Lines 84-96 emit nothing once every orphan holds a mark that is still
      within its grace time. */
  lemma {:induction false} OrphanOpsNone(names: seq<string>, required: seq<string>, st: TunnelState, now: nat, timeoutMinutes: int)
    requires forall x :: x in names && x !in required ==> x in st.marks && !Expired(now, st.marks[x], timeoutMinutes)
    ensures OrphanOps(names, required, st, now, timeoutMinutes) == []
  {
    if |names| > 0 {
      var n := |names| - 1;
      assert names[n] in names;
      OrphanOpsNone(names[..n], required, st, now, timeoutMinutes);
    }
  }

  // ---------------------------------------------------------------------
  // Idempotence
  // ---------------------------------------------------------------------

  /** After the delta, every required tunnel exists and is unmarked. */
  lemma RequiredAfterApply(prefix: string, count: int, timeoutMinutes: int, targets: seq<string>, st: TunnelState, now: nat, name: string)
    requires forall x :: x in st.marks ==> x in st.existing
    requires name in RequiredNames(prefix, count, targets)
    ensures var after := ApplyAll(st, Plan(prefix, count, timeoutMinutes, targets, st, now), now);
            name in after.existing && name !in after.marks
  {
    var plan := Plan(prefix, count, timeoutMinutes, targets, st, now);
    var after := ApplyAll(st, plan, now);
    if name in st.marks {
      PlanClearMark(prefix, count, timeoutMinutes, targets, st, now, name);
      var j0 :| 0 <= j0 < |plan| && plan[j0] == ClearMark(name);
      forall j | 0 <= j < |plan| && plan[j].name == name ensures SameKind(plan[j], ClearMark(name)) {
        PlanOpCause(prefix, count, timeoutMinutes, targets, st, now, j);
      }
      ApplyAllTouched(st, plan, now, name, ClearMark(name), j0);
    } else if name !in st.existing {
      var k, i := RequiredNameOrigin(prefix, count, targets, name);
      assert IndexNames(prefix, targets[k], count)[i] == name;
      PlanCreate(prefix, count, timeoutMinutes, targets, st, now, name, targets[k]);
      var j0 :| 0 <= j0 < |plan| && plan[j0] == Create(name, targets[k]);
      forall j | 0 <= j < |plan| && plan[j].name == name ensures SameKind(plan[j], Create(name, targets[k])) {
        PlanOpCause(prefix, count, timeoutMinutes, targets, st, now, j);
      }
      ApplyAllTouched(st, plan, now, name, Create(name, targets[k]), j0);
    } else {
      RequiredSettled(prefix, count, timeoutMinutes, targets, st, now, name);
      forall j | 0 <= j < |plan| ensures plan[j].name != name {
        assert plan[j] in plan;
      }
      ApplyAllUntouched(st, plan, now, name);
    }
  }

  /** After the delta, every orphan still present holds a mark within its
      grace time, given a grace time that is not negative. */
  lemma OrphanAfterApply(prefix: string, count: int, timeoutMinutes: int, targets: seq<string>, st: TunnelState, now: nat, name: string)
    requires timeoutMinutes >= 0
    requires name !in RequiredNames(prefix, count, targets)
    ensures var after := ApplyAll(st, Plan(prefix, count, timeoutMinutes, targets, st, now), now);
            name in after.existing ==> name in after.marks && !Expired(now, after.marks[name], timeoutMinutes)
  {
    var plan := Plan(prefix, count, timeoutMinutes, targets, st, now);
    if name in st.existing && name !in st.marks {
      PlanStartMark(prefix, count, timeoutMinutes, targets, st, now, name);
      var j0 :| 0 <= j0 < |plan| && plan[j0] == StartMark(name);
      forall j | 0 <= j < |plan| && plan[j].name == name ensures SameKind(plan[j], StartMark(name)) {
        PlanOpCause(prefix, count, timeoutMinutes, targets, st, now, j);
      }
      ApplyAllTouched(st, plan, now, name, StartMark(name), j0);
    } else if name in st.existing && Expired(now, st.marks[name], timeoutMinutes) {
      PlanDelete(prefix, count, timeoutMinutes, targets, st, now, name);
      var j0 :| 0 <= j0 < |plan| && plan[j0] == Delete(name);
      forall j | 0 <= j < |plan| && plan[j].name == name ensures SameKind(plan[j], Delete(name)) {
        PlanOpCause(prefix, count, timeoutMinutes, targets, st, now, j);
      }
      ApplyAllTouched(st, plan, now, name, Delete(name), j0);
    } else {
      forall j | 0 <= j < |plan| ensures plan[j].name != name {
        PlanOpCause(prefix, count, timeoutMinutes, targets, st, now, j);
      }
      ApplyAllUntouched(st, plan, now, name);
    }
  }

  /** Running the reconcile step again, at the same `now`, on the state the
      delta leaves behind plans nothing, so no request is sent. */
  lemma PlanIdempotent(prefix: string, count: int, timeoutMinutes: int, targets: seq<string>, st: TunnelState, now: nat)
    requires timeoutMinutes >= 0
    requires forall x :: x in st.marks ==> x in st.existing
    ensures var after := ApplyAll(st, Plan(prefix, count, timeoutMinutes, targets, st, now), now);
            Plan(prefix, count, timeoutMinutes, targets, after, now) == []
  {
    var after := ApplyAll(st, Plan(prefix, count, timeoutMinutes, targets, st, now), now);
    var required := RequiredNames(prefix, count, targets);
    forall name | name in required ensures name in after.existing && name !in after.marks {
      RequiredAfterApply(prefix, count, timeoutMinutes, targets, st, now, name);
    }
    DesiredOpsNone(prefix, count, targets, after);
    forall x | x in after.existing && x !in required
      ensures x in after.marks && !Expired(now, after.marks[x], timeoutMinutes)
    {
      OrphanAfterApply(prefix, count, timeoutMinutes, targets, st, now, x);
    }
    OrphanOpsNone(after.existing, required, after, now, timeoutMinutes);
  }
}
