/** One run of rsvp-auto-tunnel-mesh.py's `main` (lines 26-102), with what
    it reads from the device given as inputs: the keys of the routing table,
    the prefix-list entries, the tunnel items of the running config and the
    template tunnel's commands. The stages run in the script's order. */
module Controller {
  import opened Results
  import opened Address
  import opened DeviceState
  import opened PrefixFilter
  import opened Reconciler
  import opened Emitter

  /** The options of lines 14-17 that the core uses. */
  datatype Options = Options(prefix: string, count: int, timeoutMinutes: int)

  /** The targets of lines 31-48. */
  function Targets(routeKeys: seq<string>, entries: seq<PrefixEntry>): seq<string>
  {
    Classify(Contains, Routes32(routeKeys), entries).targets
  }

  /** What one run sends: `Err` when line 61 raises, otherwise the request
      of lines 99-102 (`None` when nothing is sent). */
  function Outcome(routeKeys: seq<string>, entries: seq<PrefixEntry>, configs: seq<TunnelConfig>,
                   template: seq<string>, opts: Options, now: nat): Result<Option<seq<string>>>
  {
    match TunnelStateOf(configs, opts.prefix)
    case Err(reason) => Err(reason)
    case Ok(st) =>
      var plan := Plan(opts.prefix, opts.count, opts.timeoutMinutes, Targets(routeKeys, entries), st, now);
      Ok(Wrap(RenderAll(plan, template, now)))
  }

  /** Lines 26-102 in order. */
  method Run(routeKeys: seq<string>, entries: seq<PrefixEntry>, configs: seq<TunnelConfig>,
             template: seq<string>, opts: Options, now: nat)
    returns (request: Result<Option<seq<string>>>, events: seq<string>)
    ensures request == Outcome(routeKeys, entries, configs, template, opts, now)
    ensures request.Ok? ==> events == Events(Plan(opts.prefix, opts.count, opts.timeoutMinutes,
                                                  Targets(routeKeys, entries), TunnelStateOf(configs, opts.prefix).value, now))
    ensures request.Err? ==> events == []
  {
    var routes32 := CollectRoutes32(routeKeys);
    var targets := FilterRoutes(Contains, routes32, entries);
    var state := ReadTunnelState(configs, opts.prefix);
    if state.Err? {
      return Err(state.reason), [];
    }
    var update;
    update, events := Reconcile(targets, state.value, template, opts.prefix, opts.count, opts.timeoutMinutes, now);
    request := Ok(Wrap(update));
  }

  /** A run sends nothing exactly when it reads the config and plans nothing. */
  lemma NothingSent(routeKeys: seq<string>, entries: seq<PrefixEntry>, configs: seq<TunnelConfig>,
                    template: seq<string>, opts: Options, now: nat)
    ensures Outcome(routeKeys, entries, configs, template, opts, now) == Ok(None) <==>
            TunnelStateOf(configs, opts.prefix).Ok? &&
            Plan(opts.prefix, opts.count, opts.timeoutMinutes, Targets(routeKeys, entries),
                 TunnelStateOf(configs, opts.prefix).value, now) == []
  {
    if TunnelStateOf(configs, opts.prefix).Ok? {
      var plan := Plan(opts.prefix, opts.count, opts.timeoutMinutes, Targets(routeKeys, entries),
                       TunnelStateOf(configs, opts.prefix).value, now);
      RenderAllEmpty(plan, template, now);
    }
  }

  /** Every target is a /32 route of the routing table, and a dotted quad. */
  lemma TargetIsRoute(routeKeys: seq<string>, entries: seq<PrefixEntry>, target: string)
    requires target in Targets(routeKeys, entries)
    ensures target in Routes32(routeKeys) && IsDottedQuad(target)
  {
    var k := TargetDecider(Contains, Routes32(routeKeys), entries, target);
    var i := CollectedRouteKey(routeKeys, target);
  }

  /** Every tunnel a run creates is recognised by the next run as a tunnel
      of this mesh, under the same name, when the prefix has no space and no
      regular-expression operator. */
  lemma CreatedTunnelReadBack(routeKeys: seq<string>, entries: seq<PrefixEntry>, st: TunnelState,
                              opts: Options, now: nat, name: string, target: string)
    requires ' ' !in opts.prefix && IsLiteralPattern(opts.prefix)
    requires Create(name, target) in Plan(opts.prefix, opts.count, opts.timeoutMinutes, Targets(routeKeys, entries), st, now)
    ensures IsTunnelKey("tunnel " + name, opts.prefix) && TunnelNameOf("tunnel " + name) == name
  {
    var targets := Targets(routeKeys, entries);
    PlanCreate(opts.prefix, opts.count, opts.timeoutMinutes, targets, st, now, name, target);
    TargetIsRoute(routeKeys, entries, target);
    var names := IndexNames(opts.prefix, target, opts.count);
    var i :| 0 <= i < |names| && names[i] == name;
    NameMatches(opts.prefix, target, i);
    NameReadBack(opts.prefix, target, i);
  }

  /** A run never creates the same tunnel twice, as long as no two keys of
      the routing table carry the same /32 route. */
  lemma CreatesOnce(routeKeys: seq<string>, entries: seq<PrefixEntry>, st: TunnelState, opts: Options, now: nat)
    requires Distinct(Routes32(routeKeys))
    ensures CreatesDistinct(Plan(opts.prefix, opts.count, opts.timeoutMinutes, Targets(routeKeys, entries), st, now))
  {
    var targets := Targets(routeKeys, entries);
    TargetsDistinct(Contains, Routes32(routeKeys), entries);
    forall k | 0 <= k < |targets| ensures IsDottedQuad(targets[k]) {
      TargetIsRoute(routeKeys, entries, targets[k]);
    }
    PlanCreatesDistinct(opts.prefix, opts.count, opts.timeoutMinutes, targets, st, now);
  }
}
