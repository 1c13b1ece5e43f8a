/** The reconcile step of rsvp-auto-tunnel-mesh.py (lines 64-96): from the
    targets, the tunnels already in the mesh and their grace marks, decide
    which configuration statements to send. What is decided is described as a
    plan of `Op`s; the statements and the log messages are renderings of it. */
module Reconciler {
  import opened Strings
  import opened Address
  import opened DeviceState
  import opened PrefixFilter

  /** `opts.prefix + '-' + str(target) + '-' + str(i)` (line 68). */
  function TunnelName(prefix: string, target: string, i: nat): string
  {
    prefix + "-" + target + "-" + NatToString(i)
  }

  /** One decision of the reconcile step. */
  datatype Op =
    | ClearMark(name: string)               // lines 70-73: a required tunnel loses its grace mark
    | Create(name: string, target: string)  // lines 74-81: a required tunnel is missing
    | StartMark(name: string)               // lines 88-91: an orphan gets a grace mark
    | Delete(name: string)                  // lines 93-96: an orphan's grace time is over

  predicate IsDesiredOp(op: Op) { op.ClearMark? || op.Create? }

  // ---------------------------------------------------------------------
  // Required tunnels (lines 66-69)
  // ---------------------------------------------------------------------

  /** `range(n)` is empty for `n <= 0`. */
  function Indices(n: int): nat { if n < 0 then 0 else n }

  /** The names lines 67-69 generate for one target: one per `i` in `range(n)`. */
  function IndexNames(prefix: string, target: string, n: int): (names: seq<string>)
    ensures |names| == Indices(n)
    ensures forall i :: 0 <= i < |names| ==> names[i] == TunnelName(prefix, target, i)
    decreases n
  {
    if n <= 0 then [] else IndexNames(prefix, target, n - 1) + [TunnelName(prefix, target, n - 1)]
  }

  /** `required_tunnels` after lines 66-69. */
  function RequiredNames(prefix: string, count: int, targets: seq<string>): seq<string>
  {
    if |targets| == 0 then []
    else RequiredNames(prefix, count, targets[..|targets| - 1]) + IndexNames(prefix, targets[|targets| - 1], count)
  }

  lemma RequiredNamesStep(prefix: string, count: int, targets: seq<string>, k: int)
    requires 0 <= k < |targets|
    ensures RequiredNames(prefix, count, targets[..k + 1]) ==
            RequiredNames(prefix, count, targets[..k]) + IndexNames(prefix, targets[k], count)
  {
    assert targets[..k + 1][..k] == targets[..k];
  }

  /** Every target contributes `count` names. */
  lemma {:induction false} RequiredNameMember(prefix: string, count: int, targets: seq<string>, k: int, i: int)
    requires 0 <= k < |targets| && 0 <= i < count
    ensures TunnelName(prefix, targets[k], i) in RequiredNames(prefix, count, targets)
  {
    var n := |targets| - 1;
    var names := IndexNames(prefix, targets[n], count);
    if k < n {
      assert targets[..n][k] == targets[k];
      RequiredNameMember(prefix, count, targets[..n], k, i);
    } else {
      assert names[i] == TunnelName(prefix, targets[k], i);
    }
  }

  /** Every required name is `prefix-target-i` for a target and an `i` in `range(count)`. */
  lemma {:induction false} RequiredNameOrigin(prefix: string, count: int, targets: seq<string>, name: string)
    returns (k: int, i: int)
    requires name in RequiredNames(prefix, count, targets)
    ensures 0 <= k < |targets| && 0 <= i < count && name == TunnelName(prefix, targets[k], i)
  {
    var n := |targets| - 1;
    if name in RequiredNames(prefix, count, targets[..n]) {
      k, i := RequiredNameOrigin(prefix, count, targets[..n], name);
      assert targets[..n][k] == targets[k];
    } else {
      var names := IndexNames(prefix, targets[n], count);
      var j :| 0 <= j < |names| && names[j] == name;
      k, i := n, j;
    }
  }

  /** Every generated name, as the key `tunnel <name>`, matches the
      existing-tunnel pattern of line 55, as long as the target is a dotted
      quad and the prefix holds no character the pattern would read as an
      operator. */
  lemma NameMatches(prefix: string, target: string, i: nat)
    requires IsLiteralPattern(prefix) && IsDottedQuad(target)
    ensures IsTunnelKey("tunnel " + TunnelName(prefix, target, i), prefix)
  {
    assert "tunnel " + TunnelName(prefix, target, i) == MeshKey(prefix, target, NatToString(i), false);
    TunnelKeyAccepted(prefix, target, NatToString(i), false);
  }

  /** Line 56 reads every generated name back from its key as the same
      name, as long as the prefix has no space and the target is a dotted
      quad. */
  lemma NameReadBack(prefix: string, target: string, i: nat)
    requires ' ' !in prefix && IsDottedQuad(target)
    ensures TunnelNameOf("tunnel " + TunnelName(prefix, target, i)) == TunnelName(prefix, target, i)
  {
    var digits := NatToString(i);
    var name := TunnelName(prefix, target, i);
    DottedQuadChars(target);
    assert ' ' !in name by {
      assert ' ' !in digits;
      assert name == prefix + ['-'] + target + ['-'] + digits;
    }
    TunnelNameReadBack(name);
  }

  /** Names from targets without `-` are equal exactly when their targets
      and indices are. */
  lemma NameInjective(prefix: string, t1: string, i1: nat, t2: string, i2: nat)
    requires '-' !in t1 && '-' !in t2
    ensures TunnelName(prefix, t1, i1) == TunnelName(prefix, t2, i2) <==> t1 == t2 && i1 == i2
  {
    if TunnelName(prefix, t1, i1) == TunnelName(prefix, t2, i2) {
      var d1, d2 := NatToString(i1), NatToString(i2);
      var head := prefix + "-";
      var r1, r2 := t1 + ['-'] + d1, t2 + ['-'] + d2;
      assert TunnelName(prefix, t1, i1) == head + r1;
      assert TunnelName(prefix, t2, i2) == head + r2;
      assert r1 == (head + r1)[|head|..];
      assert r2 == (head + r2)[|head|..];
      assert r1 == r2;
      assert '-' !in d1 && '-' !in d2;
      SplitAtFirst(t1, '-', d1);
      SplitAtFirst(t2, '-', d2);
      SplitWithoutSeparator(d1, '-');
      SplitWithoutSeparator(d2, '-');
      assert [t1, d1] == Split(r1, '-') == [t2, d2];
      NatToStringInjective(i1, i2);
    }
  }

  // ---------------------------------------------------------------------
  // Desired tunnels (lines 66-81)
  // ---------------------------------------------------------------------

  /** Lines 70-81 for one required name: the mark is cleared when it has
      one, the tunnel is created when it does not exist. */
  function NameOps(name: string, target: string, st: TunnelState): seq<Op>
  {
    (if name in st.marks then [ClearMark(name)] else []) +
    (if name !in st.existing then [Create(name, target)] else [])
  }

  /** Lines 67-81 for one target and the indices in `range(n)`. */
  function IndexOps(prefix: string, target: string, n: int, st: TunnelState): (ops: seq<Op>)
    ensures forall j :: 0 <= j < |ops| ==> IsDesiredOp(ops[j])
    decreases n
  {
    if n <= 0 then []
    else IndexOps(prefix, target, n - 1, st) + NameOps(TunnelName(prefix, target, n - 1), target, st)
  }

  /** Lines 66-81 for every target in order. */
  function DesiredOps(prefix: string, count: int, targets: seq<string>, st: TunnelState): (ops: seq<Op>)
    ensures forall j :: 0 <= j < |ops| ==> IsDesiredOp(ops[j])
  {
    if |targets| == 0 then []
    else DesiredOps(prefix, count, targets[..|targets| - 1], st) + IndexOps(prefix, targets[|targets| - 1], count, st)
  }

  lemma DesiredOpsStep(prefix: string, count: int, targets: seq<string>, st: TunnelState, k: int)
    requires 0 <= k < |targets|
    ensures DesiredOps(prefix, count, targets[..k + 1], st) ==
            DesiredOps(prefix, count, targets[..k], st) + IndexOps(prefix, targets[k], count, st)
  {
    assert targets[..k + 1][..k] == targets[..k];
  }

  /** Each op for a target comes from one of its indices, and for the reason
      lines 70 and 74 test. */
  lemma {:induction false} IndexOpOrigin(prefix: string, target: string, n: int, st: TunnelState, j: int) returns (i: int)
    requires 0 <= j < |IndexOps(prefix, target, n, st)|
    ensures 0 <= i < n
    ensures var op := IndexOps(prefix, target, n, st)[j];
            op.name == TunnelName(prefix, target, i) &&
            (op.ClearMark? ==> op.name in st.marks) &&
            (op.Create? ==> op == Create(op.name, target) && op.name !in st.existing)
    decreases n
  {
    var prev := IndexOps(prefix, target, n - 1, st);
    if j < |prev| {
      i := IndexOpOrigin(prefix, target, n - 1, st, j);
    } else {
      i := n - 1;
    }
  }

  /** Each desired op comes from a target and an index. */
  lemma {:induction false} DesiredOpOrigin(prefix: string, count: int, targets: seq<string>, st: TunnelState, j: int)
    returns (k: int, i: int)
    requires 0 <= j < |DesiredOps(prefix, count, targets, st)|
    ensures 0 <= k < |targets| && 0 <= i < count
    ensures var op := DesiredOps(prefix, count, targets, st)[j];
            op.name == TunnelName(prefix, targets[k], i) &&
            (op.ClearMark? ==> op.name in st.marks) &&
            (op.Create? ==> op == Create(op.name, targets[k]) && op.name !in st.existing)
  {
    var n := |targets| - 1;
    var prev := DesiredOps(prefix, count, targets[..n], st);
    if j < |prev| {
      k, i := DesiredOpOrigin(prefix, count, targets[..n], st, j);
      assert targets[..n][k] == targets[k];
    } else {
      k := n;
      i := IndexOpOrigin(prefix, targets[n], count, st, j - |prev|);
    }
  }

  /** Index `i` of a target contributes the ops `NameOps` gives its name. */
  lemma {:induction false} IndexOpEmitted(prefix: string, target: string, n: int, st: TunnelState, i: int, op: Op)
    requires 0 <= i < n
    requires op in NameOps(TunnelName(prefix, target, i), target, st)
    ensures op in IndexOps(prefix, target, n, st)
    decreases n
  {
    if i < n - 1 {
      IndexOpEmitted(prefix, target, n - 1, st, i, op);
    }
  }

  /** A target contributes the ops of all its indices. */
  lemma {:induction false} DesiredOpEmitted(prefix: string, count: int, targets: seq<string>, st: TunnelState, k: int, op: Op)
    requires 0 <= k < |targets|
    requires op in IndexOps(prefix, targets[k], count, st)
    ensures op in DesiredOps(prefix, count, targets, st)
  {
    var n := |targets| - 1;
    var prev := DesiredOps(prefix, count, targets[..n], st);
    var last := IndexOps(prefix, targets[n], count, st);
    assert DesiredOps(prefix, count, targets, st) == prev + last;
    if k < n {
      assert targets[..n][k] == targets[k];
      DesiredOpEmitted(prefix, count, targets[..n], st, k, op);
      assert op in prev;
    }
  }

  // ---------------------------------------------------------------------
  // Orphaned tunnels (lines 84-96)
  // ---------------------------------------------------------------------

  /** Line 93: the grace time of a mark set at `mark` is over at `now`
      (strictly more than `timeoutMinutes` minutes have passed). */
  predicate Expired(now: int, mark: nat, timeoutMinutes: int)
  {
    now - mark > timeoutMinutes * 60
  }

  /** Lines 85-96 for one existing tunnel. */
  function OrphanOp(name: string, required: seq<string>, st: TunnelState, now: nat, timeoutMinutes: int): seq<Op>
  {
    if name in required then []
    else if name !in st.marks then [StartMark(name)]
    else if Expired(now, st.marks[name], timeoutMinutes) then [Delete(name)]
    else []
  }

  /** Lines 84-96 for the existing tunnels `names`, in order. */
  function OrphanOps(names: seq<string>, required: seq<string>, st: TunnelState, now: nat, timeoutMinutes: int): (ops: seq<Op>)
    ensures forall j :: 0 <= j < |ops| ==> !IsDesiredOp(ops[j])
  {
    if |names| == 0 then []
    else OrphanOps(names[..|names| - 1], required, st, now, timeoutMinutes) + OrphanOp(names[|names| - 1], required, st, now, timeoutMinutes)
  }

  lemma OrphanOpsStep(ops: seq<Op>, names: seq<string>, required: seq<string>, st: TunnelState, now: nat, timeoutMinutes: int, k: int)
    requires 0 <= k < |names|
    ensures ops + OrphanOps(names[..k + 1], required, st, now, timeoutMinutes) ==
            ops + OrphanOps(names[..k], required, st, now, timeoutMinutes) + OrphanOp(names[k], required, st, now, timeoutMinutes)
  {
    assert names[..k + 1][..k] == names[..k];
    var a, b := OrphanOps(names[..k], required, st, now, timeoutMinutes), OrphanOp(names[k], required, st, now, timeoutMinutes);
    assert ops + (a + b) == ops + a + b;
  }

  /** Each orphan op comes from an existing tunnel that is not required,
      for the reason lines 86-93 test. */
  lemma {:induction false} OrphanOpOrigin(names: seq<string>, required: seq<string>, st: TunnelState, now: nat, timeoutMinutes: int, j: int)
    returns (m: int)
    requires 0 <= j < |OrphanOps(names, required, st, now, timeoutMinutes)|
    ensures 0 <= m < |names|
    ensures var op := OrphanOps(names, required, st, now, timeoutMinutes)[j];
            op.name == names[m] && op.name !in required &&
            (op.StartMark? ==> op.name !in st.marks) &&
            (op.Delete? ==> op.name in st.marks && Expired(now, st.marks[op.name], timeoutMinutes))
  {
    var n := |names| - 1;
    var prev := OrphanOps(names[..n], required, st, now, timeoutMinutes);
    if j < |prev| {
      m := OrphanOpOrigin(names[..n], required, st, now, timeoutMinutes, j);
      assert names[..n][m] == names[m];
    } else {
      m := n;
    }
  }

  lemma {:induction false} OrphanOpEmitted(names: seq<string>, required: seq<string>, st: TunnelState, now: nat, timeoutMinutes: int, m: int, op: Op)
    requires 0 <= m < |names|
    requires op in OrphanOp(names[m], required, st, now, timeoutMinutes)
    ensures op in OrphanOps(names, required, st, now, timeoutMinutes)
  {
    var n := |names| - 1;
    if m < n {
      assert names[..n][m] == names[m];
      OrphanOpEmitted(names[..n], required, st, now, timeoutMinutes, m, op);
    }
  }

  // ---------------------------------------------------------------------
  // The whole plan (lines 64-96)
  // ---------------------------------------------------------------------

  /** Every decision of one run: the desired tunnels first, then the orphans. */
  function Plan(prefix: string, count: int, timeoutMinutes: int, targets: seq<string>, st: TunnelState, now: nat): seq<Op>
  {
    DesiredOps(prefix, count, targets, st) +
    OrphanOps(st.existing, RequiredNames(prefix, count, targets), st, now, timeoutMinutes)
  }

  /** Every op of the plan, and why it is there. */
  lemma PlanOpCause(prefix: string, count: int, timeoutMinutes: int, targets: seq<string>, st: TunnelState, now: nat, j: int)
    requires 0 <= j < |Plan(prefix, count, timeoutMinutes, targets, st, now)|
    ensures var op := Plan(prefix, count, timeoutMinutes, targets, st, now)[j];
            var required := RequiredNames(prefix, count, targets);
            (IsDesiredOp(op) <==> op.name in required) &&
            (op.ClearMark? ==> op.name in st.marks) &&
            (op.Create? ==> op.target in targets && op.name !in st.existing) &&
            (op.StartMark? ==> op.name in st.existing && op.name !in st.marks) &&
            (op.Delete? ==> op.name in st.existing && op.name in st.marks &&
                            Expired(now, st.marks[op.name], timeoutMinutes))
  {
    var desired := DesiredOps(prefix, count, targets, st);
    var required := RequiredNames(prefix, count, targets);
    if j < |desired| {
      var k, i := DesiredOpOrigin(prefix, count, targets, st, j);
      RequiredNameMember(prefix, count, targets, k, i);
    } else {
      var m := OrphanOpOrigin(st.existing, required, st, now, timeoutMinutes, j - |desired|);
    }
  }

  /** Lines 70-73: a required tunnel's mark is cleared exactly when it has one. */
  lemma PlanClearMark(prefix: string, count: int, timeoutMinutes: int, targets: seq<string>, st: TunnelState, now: nat, name: string)
    ensures ClearMark(name) in Plan(prefix, count, timeoutMinutes, targets, st, now) <==>
            name in RequiredNames(prefix, count, targets) && name in st.marks
  {
    var plan := Plan(prefix, count, timeoutMinutes, targets, st, now);
    if ClearMark(name) in plan {
      var j :| 0 <= j < |plan| && plan[j] == ClearMark(name);
      PlanOpCause(prefix, count, timeoutMinutes, targets, st, now, j);
    }
    if name in RequiredNames(prefix, count, targets) && name in st.marks {
      var k, i := RequiredNameOrigin(prefix, count, targets, name);
      IndexOpEmitted(prefix, targets[k], count, st, i, ClearMark(name));
      DesiredOpEmitted(prefix, count, targets, st, k, ClearMark(name));
    }
  }

  /** Lines 74-81: a required tunnel is created, towards its own target,
      exactly when it does not exist. */
  lemma PlanCreate(prefix: string, count: int, timeoutMinutes: int, targets: seq<string>, st: TunnelState, now: nat, name: string, target: string)
    ensures Create(name, target) in Plan(prefix, count, timeoutMinutes, targets, st, now) <==>
            target in targets && name in IndexNames(prefix, target, count) && name !in st.existing
  {
    var plan := Plan(prefix, count, timeoutMinutes, targets, st, now);
    if Create(name, target) in plan {
      var j :| 0 <= j < |plan| && plan[j] == Create(name, target);
      var desired := DesiredOps(prefix, count, targets, st);
      assert j < |desired|;
      var k, i := DesiredOpOrigin(prefix, count, targets, st, j);
      assert IndexNames(prefix, target, count)[i] == name;
    }
    if target in targets && name in IndexNames(prefix, target, count) && name !in st.existing {
      var k :| 0 <= k < |targets| && targets[k] == target;
      var names := IndexNames(prefix, target, count);
      var i :| 0 <= i < |names| && names[i] == name;
      IndexOpEmitted(prefix, target, count, st, i, Create(name, target));
      DesiredOpEmitted(prefix, count, targets, st, k, Create(name, target));
    }
  }

  /** Lines 88-91: an orphan gets a grace mark exactly when it has none. */
  lemma PlanStartMark(prefix: string, count: int, timeoutMinutes: int, targets: seq<string>, st: TunnelState, now: nat, name: string)
    ensures StartMark(name) in Plan(prefix, count, timeoutMinutes, targets, st, now) <==>
            name in st.existing && name !in RequiredNames(prefix, count, targets) && name !in st.marks
  {
    var plan := Plan(prefix, count, timeoutMinutes, targets, st, now);
    var required := RequiredNames(prefix, count, targets);
    if StartMark(name) in plan {
      var j :| 0 <= j < |plan| && plan[j] == StartMark(name);
      PlanOpCause(prefix, count, timeoutMinutes, targets, st, now, j);
    }
    if name in st.existing && name !in required && name !in st.marks {
      var m :| 0 <= m < |st.existing| && st.existing[m] == name;
      OrphanOpEmitted(st.existing, required, st, now, timeoutMinutes, m, StartMark(name));
    }
  }

  /** Lines 92-96: a marked orphan is removed exactly when its grace time is over. */
  lemma PlanDelete(prefix: string, count: int, timeoutMinutes: int, targets: seq<string>, st: TunnelState, now: nat, name: string)
    ensures Delete(name) in Plan(prefix, count, timeoutMinutes, targets, st, now) <==>
            name in st.existing && name !in RequiredNames(prefix, count, targets) && name in st.marks &&
            Expired(now, st.marks[name], timeoutMinutes)
  {
    var plan := Plan(prefix, count, timeoutMinutes, targets, st, now);
    var required := RequiredNames(prefix, count, targets);
    if Delete(name) in plan {
      var j :| 0 <= j < |plan| && plan[j] == Delete(name);
      PlanOpCause(prefix, count, timeoutMinutes, targets, st, now, j);
    }
    if name in st.existing && name !in required && name in st.marks && Expired(now, st.marks[name], timeoutMinutes) {
      var m :| 0 <= m < |st.existing| && st.existing[m] == name;
      OrphanOpEmitted(st.existing, required, st, now, timeoutMinutes, m, Delete(name));
    }
  }

  /** A marked orphan whose mark is exactly `timeoutMinutes` minutes old, or
      younger, is left alone: the test at line 93 is strict. */
  lemma GraceBoundary(prefix: string, count: int, timeoutMinutes: int, targets: seq<string>, st: TunnelState, now: nat, name: string)
    requires name !in RequiredNames(prefix, count, targets)
    requires name in st.marks && now - st.marks[name] <= timeoutMinutes * 60
    ensures forall op :: op in Plan(prefix, count, timeoutMinutes, targets, st, now) ==> op.name != name
  {
    var plan := Plan(prefix, count, timeoutMinutes, targets, st, now);
    forall op | op in plan ensures op.name != name {
      var j :| 0 <= j < |plan| && plan[j] == op;
      PlanOpCause(prefix, count, timeoutMinutes, targets, st, now, j);
    }
  }

  /** A required tunnel that exists without a mark is left alone. */
  lemma RequiredSettled(prefix: string, count: int, timeoutMinutes: int, targets: seq<string>, st: TunnelState, now: nat, name: string)
    requires name in RequiredNames(prefix, count, targets)
    requires name in st.existing && name !in st.marks
    ensures forall op :: op in Plan(prefix, count, timeoutMinutes, targets, st, now) ==> op.name != name
  {
    var plan := Plan(prefix, count, timeoutMinutes, targets, st, now);
    forall op | op in plan ensures op.name != name {
      var j :| 0 <= j < |plan| && plan[j] == op;
      PlanOpCause(prefix, count, timeoutMinutes, targets, st, now, j);
    }
  }

  /** All decisions about desired tunnels come before those about orphans. */
  lemma PlanOrdered(prefix: string, count: int, timeoutMinutes: int, targets: seq<string>, st: TunnelState, now: nat)
    ensures var plan := Plan(prefix, count, timeoutMinutes, targets, st, now);
            forall i, j :: 0 <= i < j < |plan| && IsDesiredOp(plan[j]) ==> IsDesiredOp(plan[i])
  {
    var desired := DesiredOps(prefix, count, targets, st);
    var orphans := OrphanOps(st.existing, RequiredNames(prefix, count, targets), st, now, timeoutMinutes);
    var plan := desired + orphans;
    forall j | 0 <= j < |plan| ensures IsDesiredOp(plan[j]) <==> j < |desired| {
      if j < |desired| {
        assert plan[j] == desired[j];
      } else {
        assert plan[j] == orphans[j - |desired|];
      }
    }
  }

  /** No two `Create` ops of `ops` create the same tunnel. */
  predicate CreatesDistinct(ops: seq<Op>)
  {
    forall j1, j2 :: 0 <= j1 < j2 < |ops| && ops[j1].Create? && ops[j2].Create? ==> ops[j1].name != ops[j2].name
  }

  lemma CreatesDistinctConcat(a: seq<Op>, b: seq<Op>)
    requires CreatesDistinct(a) && CreatesDistinct(b)
    requires forall j1, j2 :: 0 <= j1 < |a| && 0 <= j2 < |b| && a[j1].Create? && b[j2].Create? ==> a[j1].name != b[j2].name
    ensures CreatesDistinct(a + b)
  {
    var ab := a + b;
    forall j1, j2 | 0 <= j1 < j2 < |ab| && ab[j1].Create? && ab[j2].Create? ensures ab[j1].name != ab[j2].name {
      if j2 < |a| {
        assert ab[j1] == a[j1] && ab[j2] == a[j2];
      } else if j1 >= |a| {
        assert ab[j1] == b[j1 - |a|] && ab[j2] == b[j2 - |a|];
      } else {
        assert ab[j1] == a[j1] && ab[j2] == b[j2 - |a|];
      }
    }
  }

  /** The indices of one target never create the same tunnel twice. */
  lemma {:induction false} IndexCreatesDistinct(prefix: string, target: string, n: int, st: TunnelState)
    requires '-' !in target
    ensures CreatesDistinct(IndexOps(prefix, target, n, st))
    decreases n
  {
    if n > 0 {
      var a := IndexOps(prefix, target, n - 1, st);
      var name := TunnelName(prefix, target, n - 1);
      var b := NameOps(name, target, st);
      IndexCreatesDistinct(prefix, target, n - 1, st);
      forall j1, j2 | 0 <= j1 < |a| && 0 <= j2 < |b| && a[j1].Create? && b[j2].Create? ensures a[j1].name != b[j2].name {
        var i := IndexOpOrigin(prefix, target, n - 1, st, j1);
        NameInjective(prefix, target, i, target, n - 1);
      }
      CreatesDistinctConcat(a, b);
    }
  }

  /** Distinct targets without `-` never create the same tunnel twice. */
  lemma {:induction false} DesiredCreatesDistinct(prefix: string, count: int, targets: seq<string>, st: TunnelState)
    requires Distinct(targets) && forall k :: 0 <= k < |targets| ==> '-' !in targets[k]
    ensures CreatesDistinct(DesiredOps(prefix, count, targets, st))
  {
    if |targets| > 0 {
      var n := |targets| - 1;
      var a := DesiredOps(prefix, count, targets[..n], st);
      var b := IndexOps(prefix, targets[n], count, st);
      DesiredCreatesDistinct(prefix, count, targets[..n], st);
      IndexCreatesDistinct(prefix, targets[n], count, st);
      forall j1, j2 | 0 <= j1 < |a| && 0 <= j2 < |b| && a[j1].Create? && b[j2].Create? ensures a[j1].name != b[j2].name {
        var k, i1 := DesiredOpOrigin(prefix, count, targets[..n], st, j1);
        var i2 := IndexOpOrigin(prefix, targets[n], count, st, j2);
        assert targets[..n][k] == targets[k] != targets[n];
        NameInjective(prefix, targets[k], i1, targets[n], i2);
      }
      CreatesDistinctConcat(a, b);
    }
  }

  /** No duplicate creates: with distinct targets that are dotted quads (as
      the filter of lines 39-48 yields), a run never creates a tunnel twice. */
  lemma PlanCreatesDistinct(prefix: string, count: int, timeoutMinutes: int, targets: seq<string>, st: TunnelState, now: nat)
    requires Distinct(targets) && forall k :: 0 <= k < |targets| ==> IsDottedQuad(targets[k])
    ensures CreatesDistinct(Plan(prefix, count, timeoutMinutes, targets, st, now))
  {
    forall k | 0 <= k < |targets| ensures '-' !in targets[k] {
      DottedQuadChars(targets[k]);
    }
    DesiredCreatesDistinct(prefix, count, targets, st);
    var orphans := OrphanOps(st.existing, RequiredNames(prefix, count, targets), st, now, timeoutMinutes);
    CreatesDistinctConcat(DesiredOps(prefix, count, targets, st), orphans);
  }

  // ---------------------------------------------------------------------
  // Rendering (lines 71-96)
  // ---------------------------------------------------------------------

  /** The configuration statements of one op, as lines 71-72, 75-80, 89-90
      and 94 append them. */
  function Render(op: Op, template: seq<string>, now: nat): (lines: seq<string>)
    ensures |lines| >= 1
  {
    match op
    case ClearMark(name) => ["tunnel " + name, "comment"]
    case Create(name, target) =>
      ["tunnel " + name] + template + ["comment", "destination ip " + target, "no shutdown", "exit"]
    case StartMark(name) => ["tunnel " + name, "!! timeout: " + NatToString(now)]
    case Delete(name) => ["no tunnel " + name]
  }

  /** `update_config` for a plan: the ops' statements in plan order. */
  function RenderAll(ops: seq<Op>, template: seq<string>, now: nat): (lines: seq<string>)
    ensures |lines| >= |ops|
  {
    if |ops| == 0 then [] else RenderAll(ops[..|ops| - 1], template, now) + Render(ops[|ops| - 1], template, now)
  }

  /** The message logged for one op (lines 73, 81, 91 and 95-96). */
  function Event(op: Op): string
  {
    "RSVP auto-tunnel-mesh: tunnel " + op.name +
    match op
    case ClearMark(_) => " timeout cleared"
    case Create(_, _) => " created"
    case StartMark(_) => " timeout started"
    case Delete(_) => " removed (timeout)"
  }

  function Events(ops: seq<Op>): seq<string>
  {
    if |ops| == 0 then [] else Events(ops[..|ops| - 1]) + [Event(ops[|ops| - 1])]
  }

  lemma RenderAppend(ops: seq<Op>, op: Op, template: seq<string>, now: nat)
    ensures RenderAll(ops + [op], template, now) == RenderAll(ops, template, now) + Render(op, template, now)
    ensures Events(ops + [op]) == Events(ops) + [Event(op)]
  {
    assert (ops + [op])[..|ops|] == ops;
  }

  lemma RenderAllConcatStep(a: seq<Op>, c: seq<Op>, x: Op, template: seq<string>, now: nat)
    requires RenderAll(a + c, template, now) == RenderAll(a, template, now) + RenderAll(c, template, now)
    ensures RenderAll(a + (c + [x]), template, now) == RenderAll(a, template, now) + RenderAll(c + [x], template, now)
  {
    var r, s, t := RenderAll(a, template, now), RenderAll(c, template, now), Render(x, template, now);
    calc {
      RenderAll(a + (c + [x]), template, now);
    == { assert a + (c + [x]) == (a + c) + [x]; }
      RenderAll((a + c) + [x], template, now);
    == { RenderAppend(a + c, x, template, now); }
      (r + s) + t;
    == { SeqAssoc(r, s, t); }
      r + (s + t);
    == { RenderAppend(c, x, template, now); }
      r + RenderAll(c + [x], template, now);
    }
  }

  lemma SeqAssoc(r: seq<string>, s: seq<string>, t: seq<string>)
    ensures (r + s) + t == r + (s + t)
  {
  }

  /** The statements of a concatenation of plans are the concatenation of
      their statements: orphan statements follow all desired-tunnel ones. */
  lemma {:induction false} RenderAllConcat(a: seq<Op>, b: seq<Op>, template: seq<string>, now: nat)
    ensures RenderAll(a + b, template, now) == RenderAll(a, template, now) + RenderAll(b, template, now)
    decreases |b|
  {
    if |b| > 0 {
      var c, x := b[..|b| - 1], b[|b| - 1];
      assert b == c + [x];
      RenderAllConcat(a, c, template, now);
      RenderAllConcatStep(a, c, x, template, now);
    } else {
      assert a + b == a;
    }
  }

  /** The delta is empty exactly when there is nothing to do. */
  lemma RenderAllEmpty(ops: seq<Op>, template: seq<string>, now: nat)
    ensures RenderAll(ops, template, now) == [] <==> ops == []
  {
  }

  // ---------------------------------------------------------------------
  // The loops of lines 64-96
  // ---------------------------------------------------------------------

  lemma IndexStep(ops: seq<Op>, names: seq<string>, prefix: string, target: string, i: nat, st: TunnelState)
    ensures ops + IndexOps(prefix, target, i + 1, st) ==
            ops + IndexOps(prefix, target, i, st) + NameOps(TunnelName(prefix, target, i), target, st)
    ensures names + IndexNames(prefix, target, i + 1) ==
            names + IndexNames(prefix, target, i) + [TunnelName(prefix, target, i)]
  {
    var a, b := IndexOps(prefix, target, i, st), NameOps(TunnelName(prefix, target, i), target, st);
    assert ops + (a + b) == ops + a + b;
    var c := IndexNames(prefix, target, i);
    assert names + (c + [TunnelName(prefix, target, i)]) == names + c + [TunnelName(prefix, target, i)];
  }

  lemma NameOpsParts(ops: seq<Op>, name: string, target: string, st: TunnelState)
    ensures ops + NameOps(name, target, st) ==
            ops + (if name in st.marks then [ClearMark(name)] else []) +
            (if name !in st.existing then [Create(name, target)] else [])
  {
    var a := if name in st.marks then [ClearMark(name)] else [];
    var b := if name !in st.existing then [Create(name, target)] else [];
    assert ops + (a + b) == ops + a + b;
  }

  /** Lines 70-81 for one required name. */
  method ReconcileName(tunnel: string, target: string, st: TunnelState, template: seq<string>, now: nat,
                       update: seq<string>, events: seq<string>, ghost ops: seq<Op>)
    returns (update': seq<string>, events': seq<string>, ghost ops': seq<Op>)
    requires update == RenderAll(ops, template, now) && events == Events(ops)
    ensures ops' == ops + NameOps(tunnel, target, st)
    ensures update' == RenderAll(ops', template, now) && events' == Events(ops')
  {
    update', events', ops' := update, events, ops;
    if tunnel in st.marks {
      var block := ["tunnel " + tunnel, "comment"];
      assert block == Render(ClearMark(tunnel), template, now);
      RenderAppend(ops', ClearMark(tunnel), template, now);
      update' := update' + block;
      events' := events' + ["RSVP auto-tunnel-mesh: tunnel " + tunnel + " timeout cleared"];
      ops' := ops' + [ClearMark(tunnel)];
    }
    if tunnel !in st.existing {
      var block := ["tunnel " + tunnel] + template + ["comment", "destination ip " + target, "no shutdown", "exit"];
      assert block == Render(Create(tunnel, target), template, now);
      RenderAppend(ops', Create(tunnel, target), template, now);
      update' := update' + block;
      events' := events' + ["RSVP auto-tunnel-mesh: tunnel " + tunnel + " created"];
      ops' := ops' + [Create(tunnel, target)];
    }
    NameOpsParts(ops, tunnel, target, st);
  }

  /** Lines 67-81 for one target: its names join `required_tunnels`. */
  method ReconcileTarget(prefix: string, target: string, count: int, st: TunnelState, template: seq<string>, now: nat,
                         required: seq<string>, update: seq<string>, events: seq<string>, ghost ops: seq<Op>)
    returns (required': seq<string>, update': seq<string>, events': seq<string>, ghost ops': seq<Op>)
    requires update == RenderAll(ops, template, now) && events == Events(ops)
    ensures required' == required + IndexNames(prefix, target, count)
    ensures ops' == ops + IndexOps(prefix, target, count, st)
    ensures update' == RenderAll(ops', template, now) && events' == Events(ops')
  {
    required', update', events', ops' := required, update, events, ops;
    for i := 0 to Indices(count)
      invariant required' == required + IndexNames(prefix, target, i)
      invariant ops' == ops + IndexOps(prefix, target, i, st)
      invariant update' == RenderAll(ops', template, now) && events' == Events(ops')
    {
      var tunnel := prefix + "-" + target + "-" + NatToString(i);
      IndexStep(ops, required, prefix, target, i, st);
      required' := required' + [tunnel];
      update', events', ops' := ReconcileName(tunnel, target, st, template, now, update', events', ops');
    }
  }

  /** Lines 85-96 for one existing tunnel. */
  method ReconcileOrphan(tunnel: string, required: seq<string>, st: TunnelState, timeoutMinutes: int,
                         template: seq<string>, now: nat, update: seq<string>, events: seq<string>, ghost ops: seq<Op>)
    returns (update': seq<string>, events': seq<string>, ghost ops': seq<Op>)
    requires update == RenderAll(ops, template, now) && events == Events(ops)
    ensures ops' == ops + OrphanOp(tunnel, required, st, now, timeoutMinutes)
    ensures update' == RenderAll(ops', template, now) && events' == Events(ops')
  {
    update', events', ops' := update, events, ops;
    if tunnel !in required {
      if tunnel !in st.marks {
        var block := ["tunnel " + tunnel, "!! timeout: " + NatToString(now)];
        assert block == Render(StartMark(tunnel), template, now);
        RenderAppend(ops, StartMark(tunnel), template, now);
        update' := update + block;
        events' := events + ["RSVP auto-tunnel-mesh: tunnel " + tunnel + " timeout started"];
        ops' := ops + [StartMark(tunnel)];
      } else if now - st.marks[tunnel] > timeoutMinutes * 60 {
        var block := ["no tunnel " + tunnel];
        assert block == Render(Delete(tunnel), template, now);
        RenderAppend(ops, Delete(tunnel), template, now);
        update' := update + block;
        events' := events + ["RSVP auto-tunnel-mesh: tunnel " + tunnel + " removed (timeout)"];
        ops' := ops + [Delete(tunnel)];
      }
    }
  }

  /** Lines 84-96: every existing tunnel, in order. */
  method ReconcileOrphans(st: TunnelState, required: seq<string>, timeoutMinutes: int, template: seq<string>, now: nat,
                          update: seq<string>, events: seq<string>, ghost ops: seq<Op>)
    returns (update': seq<string>, events': seq<string>, ghost ops': seq<Op>)
    requires update == RenderAll(ops, template, now) && events == Events(ops)
    ensures ops' == ops + OrphanOps(st.existing, required, st, now, timeoutMinutes)
    ensures update' == RenderAll(ops', template, now) && events' == Events(ops')
  {
    update', events', ops' := update, events, ops;
    for k := 0 to |st.existing|
      invariant ops' == ops + OrphanOps(st.existing[..k], required, st, now, timeoutMinutes)
      invariant update' == RenderAll(ops', template, now) && events' == Events(ops')
    {
      OrphanOpsStep(ops, st.existing, required, st, now, timeoutMinutes, k);
      update', events', ops' := ReconcileOrphan(st.existing[k], required, st, timeoutMinutes, template, now, update', events', ops');
    }
    assert st.existing[..|st.existing|] == st.existing;
  }

  /** Lines 64-96: `update_config` and the log messages of one run, with
      `existing_tunnels` and `timeouts` as read from the device. */
  method Reconcile(targets: seq<string>, st: TunnelState, template: seq<string>, prefix: string,
                   count: int, timeoutMinutes: int, now: nat)
    returns (update: seq<string>, events: seq<string>)
    ensures update == RenderAll(Plan(prefix, count, timeoutMinutes, targets, st, now), template, now)
    ensures events == Events(Plan(prefix, count, timeoutMinutes, targets, st, now))
  {
    update, events := [], [];
    ghost var ops: seq<Op> := [];
    var required: seq<string> := [];
    for k := 0 to |targets|
      invariant ops == DesiredOps(prefix, count, targets[..k], st)
      invariant required == RequiredNames(prefix, count, targets[..k])
      invariant update == RenderAll(ops, template, now) && events == Events(ops)
    {
      DesiredOpsStep(prefix, count, targets, st, k);
      RequiredNamesStep(prefix, count, targets, k);
      required, update, events, ops := ReconcileTarget(prefix, targets[k], count, st, template, now, required, update, events, ops);
    }
    assert targets[..|targets|] == targets;
    update, events, ops := ReconcileOrphans(st, required, timeoutMinutes, template, now, update, events, ops);
  }
}
