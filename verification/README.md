# rsvp-auto-tunnel-mesh, modelled in Dafny

`rsvp-auto-tunnel-mesh.py` keeps a full mesh of RSVP-TE tunnels on an Arista
EOS router in step with the routing table. Each run does the following:

- reads the /32 routes the IGP has learnt;
- keeps the routes a prefix-list permits, which become the targets;
- reads the tunnels of the mesh already configured, and the grace marks
  (`timeout: <seconds>` comments) some of them carry;
- plans the delta:
  - creates `count` tunnels per target that are missing;
  - clears the grace mark of a required tunnel that has one;
  - marks a tunnel that is no longer required;
  - removes a marked tunnel once its grace time has passed;
- sends the delta wrapped in the commands that enter and leave RSVP
  configuration mode, or sends nothing when the delta is empty.

The model follows the script stage by stage, one module per stage:

| module | file | stage |
|---|---|---|
| `Results` | `results.dfy` | `Option` and `Result` |
| `Strings` | `strings.dfy` | `split`, `str` and `int` as the script uses them |
| `Address` | `address.dfy` | `addressInNetwork` and the integer bit operations it uses |
| `PrefixFilter` | `prefix_filter.dfy` | the prefix-list loop, as a method proved against a fold over the entries |
| `DeviceState` | `device_state.dfy` | the route loop and the tunnel/comment loop, as methods proved against folds |
| `Reconciler` | `reconciler.dfy` | the reconcile loops |
| `Lifecycle` | `lifecycle.dfy` | what the device makes of a delta; a second run plans nothing |
| `Emitter` | `emitter.dfy` | the final wrap |
| `Controller` | `controller.dfy` | one whole run, in the script's order |

The regular expressions become predicates:

- `re.match` anchors only at the start of the string (lines 33 and 59).
- Line 55 also anchors at the end with `$`. Python's `$` also matches before
  one final newline.

Reconciling is specified as a plan. A plan is a sequence of `Op`s
(`ClearMark`, `Create`, `StartMark` and `Delete`). The configuration
statements and the log messages are renderings of the plan:

- `Reconcile` is proved to produce exactly `RenderAll(Plan(...))` and
  `Events(Plan(...))`.
- The lemmas about `Plan` state, in both directions, when each kind of op is
  planned.
- `Lifecycle.PlanIdempotent` ties the plan to the device: once the delta is
  applied, a second run at the same `now` plans nothing.

The prefix-list filter is specified for any containment test, through the
function type `PrefixFilter.Test`. The script's test is `PrefixFilter.Contains`,
which is `Address.AddressInNetwork`.

Two details of the tunnel read follow line 61 closely:

- At line 61 `int()` raises when the field after `timeout: ` does not parse
  as a number, which ends the run. The model's `DeviceState.LastMark` gives
  `Err` in that case, and `Controller.Run` returns `Err` and sends nothing.
- When a tunnel has several `timeout:` comments, the last one wins, because
  `timeouts[tunnel]` is overwritten in comment order.

## Model

| member | source | states |
|---|---|---|
| Strings.Split | rsvp-auto-tunnel-mesh.py:56 | `s.split(c)` yields at least one piece and no piece contains the separator |
| Strings.JoinSplit | rsvp-auto-tunnel-mesh.py:56 | gluing the pieces of `s.split(c)` back together with `c` gives `s` |
| Strings.SplitAtFirst | rsvp-auto-tunnel-mesh.py:56 | for `a + c + b` with no `c` in `a`, the first piece is `a` and the remaining pieces are those of `b` |
| Strings.SplitWithoutSeparator | rsvp-auto-tunnel-mesh.py:56 | a string without the separator splits into itself alone |
| Strings.SplitFirstPiece | rsvp-auto-tunnel-mesh.py:34 | the first piece is the prefix of the string up to the first separator, or the whole string when there is none |
| Strings.NatToString | rsvp-auto-tunnel-mesh.py:68 | `str(n)` is a non-empty run of decimal digits with no leading zero |
| Strings.DecValueOfNatToString | rsvp-auto-tunnel-mesh.py:68 | reading `str(n)` back as a decimal numeral gives `n` |
| Strings.NatToStringInjective | rsvp-auto-tunnel-mesh.py:68 | different indices get different `str(i)` |
| Strings.StartsWithIff | rsvp-auto-tunnel-mesh.py:33 | matching a literal at the start means that the string's prefix of the literal's length is the literal |
| Strings.TrimTrailingSpace | rsvp-auto-tunnel-mesh.py:61 | the result is a prefix of the input; everything cut off is whitespace; the result does not end in whitespace |
| Strings.ParseLeadingDigitInt | rsvp-auto-tunnel-mesh.py:61 | `int(field)` succeeds exactly when the field minus trailing whitespace is all digits |
| Strings.ParseNatToString | rsvp-auto-tunnel-mesh.py:61 | `int(str(n)) == n` |
| Address.DottedQuadChars | rsvp-auto-tunnel-mesh.py:33 | a dotted quad holds only digits and dots, so it contains no `/`, `-` or space |
| Address.Octets | rsvp-auto-tunnel-mesh.py:110 | a dotted quad has exactly four octets |
| Address.AddressValueOfIPv4 | rsvp-auto-tunnel-mesh.py:110 | for byte-sized octets, the joined `%02x` value is the big-endian base-256 value of the four octets, below 2^32 |
| Address.HexJoin | rsvp-auto-tunnel-mesh.py:110 | `int(''.join(['%02x' % o for o in os]), 16)`, for octets of any size |
| Address.AddressValue | rsvp-auto-tunnel-mesh.py:110 | the integer line 110 computes for a dotted quad |
| Address.Mask | rsvp-auto-tunnel-mesh.py:113 | `(0xffffffff << (32 - bits)) & 0xffffffff` |
| Address.AddressInNetwork | rsvp-auto-tunnel-mesh.py:109-114 | `addressInNetwork`: the masked address equals the masked network |
| Address.MaskIsLeadingOnes | rsvp-auto-tunnel-mesh.py:113 | the mask is `bits` one bits followed by `32 - bits` zero bits |
| Address.AddressInNetworkIff | rsvp-auto-tunnel-mesh.py:109-114 | address and network are in relation exactly when their leading `bits` bits of the 32 are equal |
| Address.ZeroLengthContainsAll | rsvp-auto-tunnel-mesh.py:109-114 | a /0 prefix contains every address |
| Address.OwnNetworkContains | rsvp-auto-tunnel-mesh.py:109-114 | every prefix contains its own network address |
| Address.FullLengthContainsExactly | rsvp-auto-tunnel-mesh.py:109-114 | a /32 prefix contains an IPv4 address exactly when the two have the same octets |
| Address.ShorterPrefixContains | rsvp-auto-tunnel-mesh.py:109-114 | a match at one length holds at every shorter length |
| PrefixFilter.Contains | rsvp-auto-tunnel-mesh.py:43 | the test of line 43: `addressInNetwork(route, entry['prefix'])` on an entry already split into network and length |
| PrefixFilter.RemoveFirst | rsvp-auto-tunnel-mesh.py:46 | `list.remove(x)`: the first occurrence of `x` is dropped |
| PrefixFilter.Permitted | rsvp-auto-tunnel-mesh.py:42-46 | the routes one entry moves to the targets are exactly the scanned routes it contains, when it is a permit |
| PrefixFilter.Kept | rsvp-auto-tunnel-mesh.py:42-48 | the routes left after one entry are exactly the scanned routes it does not both contain and classify as permit or deny |
| PrefixFilter.RemoveFirstAfter | rsvp-auto-tunnel-mesh.py:46 | `list.remove(x)` drops the first occurrence of `x` and keeps the rest in order |
| PrefixFilter.Classify | rsvp-auto-tunnel-mesh.py:39-48 | the targets so far and the routes no entry has classified yet, after the entries in list order |
| PrefixFilter.FilterRoutes | rsvp-auto-tunnel-mesh.py:39-48 | the loop, scanning a snapshot of the remaining routes per entry and removing classified routes, returns the targets of `Classify` over all entries |
| PrefixFilter.RemainingMembership | rsvp-auto-tunnel-mesh.py:39-48 | a route is still unclassified exactly when it was a route and no entry so far both contains it and is a permit or deny |
| PrefixFilter.TargetDecider | rsvp-auto-tunnel-mesh.py:39-48 | every target is a route whose first deciding entry is a permit |
| PrefixFilter.DeciderTarget | rsvp-auto-tunnel-mesh.py:39-48 | every route whose first deciding entry is a permit is a target |
| PrefixFilter.ClassifyMembership | rsvp-auto-tunnel-mesh.py:39-48 | a route is a target exactly when it is a route and the first entry that contains it and is a permit or deny is a permit |
| PrefixFilter.UnmatchedDropped | rsvp-auto-tunnel-mesh.py:39-48 | a route that no entry contains is never a target |
| PrefixFilter.LaterEntriesOnlyAppend | rsvp-auto-tunnel-mesh.py:39-48 | entries further down the list only append targets; they never reorder or remove earlier ones |
| PrefixFilter.TargetsDistinct | rsvp-auto-tunnel-mesh.py:39-48 | with distinct routes, the targets are distinct routes, and none of them stays among the remaining routes |
| DeviceState.RouteOf | rsvp-auto-tunnel-mesh.py:34 | `key.split('/')[0]` is the key's prefix up to the first `/` (or all of it) and contains no `/` |
| DeviceState.IsRoute32Key | rsvp-auto-tunnel-mesh.py:33 | the `re.match` of line 33: the key starts with a dotted quad followed by `/32`; what follows is not looked at |
| DeviceState.Route32KeyShape | rsvp-auto-tunnel-mesh.py:33-34 | a key the route regex accepts is the kept dotted quad, then `/32`, then anything |
| DeviceState.Route32KeyReadBack | rsvp-auto-tunnel-mesh.py:33-34 | every dotted quad followed by `/32` is accepted and kept as that dotted quad |
| DeviceState.Routes32 | rsvp-auto-tunnel-mesh.py:31-34 | the routes of the accepted keys, in key order; never more routes than keys |
| DeviceState.KeyRouteCollected | rsvp-auto-tunnel-mesh.py:32-34 | every accepted key contributes its route |
| DeviceState.CollectedRouteKey | rsvp-auto-tunnel-mesh.py:32-34 | every collected route comes from an accepted key and is a dotted quad |
| DeviceState.Routes32Membership | rsvp-auto-tunnel-mesh.py:31-34 | a route is collected exactly when some key is accepted and yields it |
| DeviceState.CollectRoutes32 | rsvp-auto-tunnel-mesh.py:31-34 | the loop returns the accepted keys' routes in key order (`Routes32`) |
| DeviceState.DropFinalNewline | rsvp-auto-tunnel-mesh.py:55 | `$` matches at the very end or before one final newline: a final `\n` is dropped and any other string is kept unchanged |
| DeviceState.IsTunnelKey | rsvp-auto-tunnel-mesh.py:55 | the `re.match` of line 55 with the prefix taken literally: `tunnel `, the prefix, `-`, a dotted quad, `-`, digits, then the end or one final newline |
| DeviceState.IsMeshName | rsvp-auto-tunnel-mesh.py:55 | the part of a line-55 key after `tunnel ` |
| DeviceState.IsLiteralPattern | rsvp-auto-tunnel-mesh.py:55 | the prefix holds none of the characters `.^$*+?{}[]\|()` that the pattern would read as operators |
| DeviceState.TunnelKeyShape | rsvp-auto-tunnel-mesh.py:55 | every key line 55 accepts is `tunnel <prefix>-<dotted quad>-<digits>` with at most one final newline |
| DeviceState.TunnelKeyAccepted | rsvp-auto-tunnel-mesh.py:55 | every key of that shape is accepted |
| DeviceState.TunnelKeyIff | rsvp-auto-tunnel-mesh.py:55 | line 55 accepts a key exactly when it has that shape |
| DeviceState.TunnelNameOf | rsvp-auto-tunnel-mesh.py:56 | the name taken from a `tunnel ...` key contains no space |
| DeviceState.TunnelNameReadBack | rsvp-auto-tunnel-mesh.py:56 | for a name without spaces, `('tunnel ' + name).split(' ')[1] == name` |
| DeviceState.IsTimeoutComment | rsvp-auto-tunnel-mesh.py:59 | the `re.match` of line 59: the comment starts with `timeout: ` and a digit |
| DeviceState.MarkField | rsvp-auto-tunnel-mesh.py:59-60 | the field of a `timeout:` comment is the text after `timeout: ` up to the next space; it starts with a digit |
| DeviceState.MarkValue | rsvp-auto-tunnel-mesh.py:60-61 | `int(comment.split(' ')[1])`, with `None` where `int` raises |
| DeviceState.LastMark | rsvp-auto-tunnel-mesh.py:58-61 | a failed read is always the `int()` error |
| DeviceState.LastMarkErr | rsvp-auto-tunnel-mesh.py:58-61 | reading a tunnel's comments fails exactly when some `timeout:` comment does not hold a number |
| DeviceState.LastMarkNone | rsvp-auto-tunnel-mesh.py:58-61 | a tunnel has no mark exactly when it has no `timeout:` comment |
| DeviceState.LastMarkSome | rsvp-auto-tunnel-mesh.py:58-61 | when the read succeeds, the mark is the value of the last `timeout:` comment |
| DeviceState.LastMarkPrefixErr | rsvp-auto-tunnel-mesh.py:58-61 | once the read has failed on some comments, it fails on the whole list |
| DeviceState.MarkReadBack | rsvp-auto-tunnel-mesh.py:58-61 | after the comment `timeout: <now>` is added to a readable list, the mark read back is `now` |
| DeviceState.CollectAll | rsvp-auto-tunnel-mesh.py:51-61 | every tunnel that has a mark is among the existing tunnels |
| DeviceState.TunnelStateOf | rsvp-auto-tunnel-mesh.py:51-61 | `existing_tunnels` and `timeouts` after the loop over the config items, or the `int()` error |
| DeviceState.CollectAllErrIff | rsvp-auto-tunnel-mesh.py:54-61 | the loop fails exactly when some mesh tunnel's comments fail to read |
| DeviceState.MeshCollected | rsvp-auto-tunnel-mesh.py:54-57 | every mesh reading's name is among the existing tunnels |
| DeviceState.CollectedMesh | rsvp-auto-tunnel-mesh.py:54-57 | every existing tunnel comes from a mesh reading |
| DeviceState.MarkedMesh | rsvp-auto-tunnel-mesh.py:58-61 | a tunnel's mark comes from a reading of that name, and every later reading of that name has no mark |
| DeviceState.ExistingMembership | rsvp-auto-tunnel-mesh.py:54-57 | a name is existing exactly when some config key matches the mesh regex and yields that name |
| DeviceState.MarkOrigin | rsvp-auto-tunnel-mesh.py:58-61 | a tunnel's mark is the last mark of a matching config item of that name, and no later item of that name carries a mark |
| DeviceState.StateErr | rsvp-auto-tunnel-mesh.py:58-61 | reading the config fails exactly when some mesh tunnel has an unreadable `timeout:` comment |
| DeviceState.ReadMarks | rsvp-auto-tunnel-mesh.py:58-61 | the comment loop fails exactly when `LastMark` fails; otherwise it sets `timeouts[tunnel]` to the last mark, if there is one, and changes nothing else |
| DeviceState.ReadTunnel | rsvp-auto-tunnel-mesh.py:55-61 | one item of the loop takes the state to `Collect` of that state and the item's reading |
| DeviceState.ReadTunnelState | rsvp-auto-tunnel-mesh.py:51-61 | the loop returns `TunnelStateOf(configs)`: `existing_tunnels` and `timeouts`, or the `int()` error |
| Reconciler.TunnelName | rsvp-auto-tunnel-mesh.py:68 | `prefix + '-' + str(target) + '-' + str(i)` |
| Reconciler.IndexNames | rsvp-auto-tunnel-mesh.py:67-69 | one name per `i` in `range(count)`, and name `i` is `prefix-target-i` |
| Reconciler.RequiredNameMember | rsvp-auto-tunnel-mesh.py:66-69 | `prefix-target-i` is required for every target and every `i` in `range(count)` |
| Reconciler.RequiredNameOrigin | rsvp-auto-tunnel-mesh.py:66-69 | every required name is `prefix-target-i` for some target and some `i` in `range(count)` |
| Reconciler.NameMatches | rsvp-auto-tunnel-mesh.py:55 | when the prefix has no regular-expression operator, the key `tunnel <name>` of a generated name matches the pattern of line 55 |
| Reconciler.NameReadBack | rsvp-auto-tunnel-mesh.py:56 | when the prefix has no space, `split(' ')[1]` of the key `tunnel <name>` is the generated name itself |
| Reconciler.NameInjective | rsvp-auto-tunnel-mesh.py:68 | two generated names are equal exactly when their targets and indices are |
| Reconciler.NameOps | rsvp-auto-tunnel-mesh.py:70-81 | for one required name: clear the mark when there is one, then create the tunnel when it does not exist |
| Reconciler.IndexOps | rsvp-auto-tunnel-mesh.py:67-81 | one target's ops only create tunnels and clear marks |
| Reconciler.DesiredOps | rsvp-auto-tunnel-mesh.py:66-81 | the desired-tunnel loop only creates tunnels and clears marks |
| Reconciler.IndexOpOrigin | rsvp-auto-tunnel-mesh.py:67-81 | each op names `prefix-target-i` for an `i` in `range(n)`; a clear is for a marked name; a create is for a missing one and carries the target |
| Reconciler.DesiredOpOrigin | rsvp-auto-tunnel-mesh.py:66-81 | each desired op names `prefix-target-i` for some target; a clear is for a marked name; a create is for a missing one and carries its target |
| Reconciler.IndexOpEmitted | rsvp-auto-tunnel-mesh.py:67-81 | every op decided for an index in `range(n)` is emitted |
| Reconciler.DesiredOpEmitted | rsvp-auto-tunnel-mesh.py:66-81 | every op decided for a target is emitted |
| Reconciler.OrphanOp | rsvp-auto-tunnel-mesh.py:85-96 | for one existing tunnel: nothing when required; mark it when unmarked; remove it when its grace time is over; otherwise nothing |
| Reconciler.OrphanOps | rsvp-auto-tunnel-mesh.py:84-96 | the orphan loop only marks and removes tunnels |
| Reconciler.OrphanOpOrigin | rsvp-auto-tunnel-mesh.py:84-96 | each orphan op names an existing tunnel that is not required; a mark is for an unmarked tunnel; a removal is for an expired one |
| Reconciler.OrphanOpEmitted | rsvp-auto-tunnel-mesh.py:84-96 | every op decided for an existing tunnel is emitted |
| Reconciler.Plan | rsvp-auto-tunnel-mesh.py:64-96 | the ops of the desired-tunnel loop followed by those of the orphan loop |
| Reconciler.PlanOpCause | rsvp-auto-tunnel-mesh.py:64-96 | an op creates or clears exactly when its name is required, and each kind of op appears only under the condition the script tests for it |
| Reconciler.PlanClearMark | rsvp-auto-tunnel-mesh.py:70-73 | a mark is cleared exactly when the tunnel is required and marked |
| Reconciler.PlanCreate | rsvp-auto-tunnel-mesh.py:74-81 | `prefix-target-i` is created toward `target` exactly when the target is a target, `i` is in `range(count)` and the tunnel does not exist |
| Reconciler.PlanStartMark | rsvp-auto-tunnel-mesh.py:84-91 | a mark is started exactly when the tunnel exists, is not required and has no mark |
| Reconciler.PlanDelete | rsvp-auto-tunnel-mesh.py:84-96 | a tunnel is removed exactly when it exists, is not required, is marked, and more than `timeout * 60` seconds have passed since the mark |
| Reconciler.GraceBoundary | rsvp-auto-tunnel-mesh.py:93 | an orphan whose mark is at most `timeout * 60` seconds old is left alone: no op names it |
| Reconciler.RequiredSettled | rsvp-auto-tunnel-mesh.py:70-81 | a required tunnel that exists and has no mark gets no op, whatever the template holds |
| Reconciler.PlanOrdered | rsvp-auto-tunnel-mesh.py:64-96 | every create and clear comes before every mark and removal |
| Reconciler.IndexCreatesDistinct | rsvp-auto-tunnel-mesh.py:67-81 | one target never creates the same name twice |
| Reconciler.DesiredCreatesDistinct | rsvp-auto-tunnel-mesh.py:66-81 | distinct targets never create the same name twice |
| Reconciler.PlanCreatesDistinct | rsvp-auto-tunnel-mesh.py:64-96 | with distinct dotted-quad targets, no name is created twice |
| Reconciler.Render | rsvp-auto-tunnel-mesh.py:70-94 | every op renders at least one statement |
| Reconciler.RenderAll | rsvp-auto-tunnel-mesh.py:64-96 | a plan renders at least as many statements as it has ops |
| Reconciler.Event | rsvp-auto-tunnel-mesh.py:73-96 | the log message of each op, as lines 73, 81, 91 and 95-96 write it |
| Reconciler.RenderAllConcat | rsvp-auto-tunnel-mesh.py:64-96 | rendering two plans one after the other gives the concatenation of their statements |
| Reconciler.RenderAllEmpty | rsvp-auto-tunnel-mesh.py:99 | the statements are empty exactly when the plan is |
| Reconciler.ReconcileName | rsvp-auto-tunnel-mesh.py:70-81 | one required name appends exactly its ops' statements and log messages |
| Reconciler.ReconcileTarget | rsvp-auto-tunnel-mesh.py:67-81 | one target appends its required names and exactly the statements and messages of its ops |
| Reconciler.ReconcileOrphan | rsvp-auto-tunnel-mesh.py:85-96 | one existing tunnel appends exactly its orphan op's statements and messages |
| Reconciler.ReconcileOrphans | rsvp-auto-tunnel-mesh.py:84-96 | the orphan loop appends exactly the statements and messages of `OrphanOps` |
| Reconciler.Reconcile | rsvp-auto-tunnel-mesh.py:64-96 | the loops produce exactly the statements and log messages of `Plan` |
| Lifecycle.Apply | rsvp-auto-tunnel-mesh.py:64-96 | what the device makes of one op: a clear drops the mark, a create adds an unmarked tunnel, a mark records `now`, a removal drops the tunnel and its mark |
| Lifecycle.Without | rsvp-auto-tunnel-mesh.py:94 | after a removal, the existing tunnels are the earlier ones except the removed name |
| Lifecycle.ApplyView | rsvp-auto-tunnel-mesh.py:64-96 | an op changes what the state says about its own name only |
| Lifecycle.ApplyAllUntouched | rsvp-auto-tunnel-mesh.py:64-96 | a delta that never names a tunnel leaves it as it was |
| Lifecycle.ApplyAllTouched | rsvp-auto-tunnel-mesh.py:64-96 | a delta whose ops on a name are all of one kind has the effect of one such op |
| Lifecycle.IndexOpsNone | rsvp-auto-tunnel-mesh.py:67-81 | a target plans nothing once its tunnels exist unmarked |
| Lifecycle.DesiredOpsNone | rsvp-auto-tunnel-mesh.py:66-81 | the desired-tunnel loop plans nothing once every required tunnel exists unmarked |
| Lifecycle.OrphanOpsNone | rsvp-auto-tunnel-mesh.py:84-96 | the orphan loop plans nothing once every orphan holds a mark within its grace time |
| Lifecycle.RequiredAfterApply | rsvp-auto-tunnel-mesh.py:66-81 | after the delta, every required tunnel exists and has no mark |
| Lifecycle.OrphanAfterApply | rsvp-auto-tunnel-mesh.py:84-96 | after the delta, every orphan still present has a mark within its grace time |
| Lifecycle.PlanIdempotent | rsvp-auto-tunnel-mesh.py:64-96 | a second run at the same `now`, on the state the delta leaves, plans nothing |
| Emitter.Wrap | rsvp-auto-tunnel-mesh.py:99-102 | a request is sent exactly when the delta is not empty |
| Emitter.UnwrapWrap | rsvp-auto-tunnel-mesh.py:99-102 | a request starts with the three mode-entry commands, ends with `end` and `write`, and carries the delta unchanged |
| Controller.Outcome | rsvp-auto-tunnel-mesh.py:26-102 | the request a run sends (`None` for none), or the `int()` error |
| Controller.Run | rsvp-auto-tunnel-mesh.py:26-102 | one run yields the request of `Outcome` and the log messages of the plan, or an error and no messages |
| Controller.NothingSent | rsvp-auto-tunnel-mesh.py:99 | a run sends nothing exactly when the config reads and the plan is empty |
| Controller.TargetIsRoute | rsvp-auto-tunnel-mesh.py:31-48 | every target is a /32 route of the routing table and a dotted quad |
| Controller.CreatedTunnelReadBack | rsvp-auto-tunnel-mesh.py:55-81 | when the prefix has no space and no regular-expression operator, every created tunnel is recognised by the next run under the same name |
| Controller.CreatesOnce | rsvp-auto-tunnel-mesh.py:31-81 | when the routing table yields no route twice, a run never creates the same tunnel twice |

## Left out

- Argument parsing (lines 12-19): the options are a value of `Controller.Options`.
- The JSON-RPC calls to the device (lines 21-23, 30, 38, 102): `Controller.Run` takes the routing table's keys, the prefix-list entries, the tunnel items of the running config and the template's commands as inputs. It returns the request it would send.
- The dictionary navigation in the replies (lines 24, 32, 40, 53): the model starts from the lists found there. Dictionary key order is taken to be the order of those input lists.
- `time.time()` (line 26): `now` is a parameter.
- `syslog` (lines 105-106): the log messages are returned as a list of strings instead.
- Regular-expression operators in the prefix (line 55): `DeviceState.IsTunnelKey` matches the prefix literally, but the script pastes it into its pattern unescaped.
  - With a prefix such as `a+b`, the pattern does not match the script's own names, so the script recreates its tunnels on every run.
  - With a prefix such as `a(`, `re.match` raises.
  - `Reconciler.NameMatches` and `Controller.CreatedTunnelReadBack` therefore require a prefix without such characters (`DeviceState.IsLiteralPattern`). The model does not describe what the script does with any other prefix.
- Prefixes that contain a space: `DeviceState.TunnelNameOf` cuts the name at the first space, so such tunnels are not read back under their own name. `Reconciler.NameReadBack` and `Controller.CreatedTunnelReadBack` require a prefix without spaces.
- PrefixFilter.Contains: an entry's `prefix` field (line 111) is given already split into a network and a length from 0 to 32. The script does other things with other input:
  - A negative length makes the mask of line 113 zero, so the entry contains every route.
  - A length above 32 makes the shift count negative, and the script raises.
  - A field without `/`, or with a part that is not a number, makes the script raise.
  - A network with other than four dot-separated fields still gets a value from the hex-join of line 112, and the script compares with it: `addressInNetwork("0.1.2.3", "0.0.0/8")` is true. `Contains` gives false for such a network instead.
  - Routes are always dotted quads (see `DeviceState.CollectedRouteKey`), so only prefix-list entries are affected.
- `int()` (line 61) is modelled for ASCII digits and ASCII whitespace only. Unicode digits and non-ASCII whitespace are not modelled.
- Octets above 255 are handled by `Address.HexJoin` with the field widths `'%02x'` gives. The lemmas about prefix matching assume dotted quads; `Address.AddressValueOfIPv4` and `Address.FullLengthContainsExactly` assume byte-sized octets.
- Lifecycle.Apply: what the device does with the statements is a modelling assumption, not part of the script. The model assumes:
  - the comment written as `!! timeout: N` is read back as the comment `timeout: N`;
  - `comment` alone clears a tunnel's comments;
  - `no tunnel X` removes the tunnel.
- A negative `count` behaves as `range()` does and yields no names. A negative `timeout` is allowed everywhere, except that `Lifecycle.PlanIdempotent` needs it to be non-negative: with a negative grace time, a freshly marked tunnel is removed on the next run.
- Concurrency between runs, and changes on the device between reading and writing, are not modelled.
