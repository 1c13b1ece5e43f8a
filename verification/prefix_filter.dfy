/** The prefix-list filter (rsvp-auto-tunnel-mesh.py:39-48). Entries are
    walked in list order; each one scans the routes no earlier entry has
    classified. A `permit` match moves the route to the targets, a `deny`
    match drops it, a match by an entry of any other type leaves it for later
    entries, and a route no entry classifies is dropped at the end. */
module PrefixFilter {
  import opened Strings
  import opened Address

  /** One entry of `show ip prefix-list`: its `prefix` field, already split
      at the `/` into network and length, and its `filterType`. */
  datatype PrefixEntry = PrefixEntry(network: string, length: PrefixLength, filterType: string)

  /** `addressInNetwork(route, entry['prefix'])` */
  predicate Contains(e: PrefixEntry, route: string)
  {
    IsDottedQuad(route) && IsDottedQuad(e.network) && AddressInNetwork(route, e.network, e.length)
  }

  predicate IsPermit(e: PrefixEntry) { e.filterType == "permit" }

  /** Entries of any other type never classify a route. */
  predicate Classifies(e: PrefixEntry) { e.filterType == "permit" || e.filterType == "deny" }

  /** A containment test between an entry's network and a route. The
      specification below holds for any such test; the script's is `Contains`. */
  type Test = (PrefixEntry, string) -> bool

  predicate Decides(contains: Test, e: PrefixEntry, route: string) { contains(e, route) && Classifies(e) }

  /** The routes, in order, that one entry moves to the targets. */
  function Permitted(contains: Test, routes: seq<string>, e: PrefixEntry): (r: seq<string>)
    ensures forall x :: x in r <==> x in routes && Decides(contains, e, x) && IsPermit(e)
  {
    if |routes| == 0 then []
    else
      var last := routes[|routes| - 1];
      Permitted(contains, routes[..|routes| - 1], e) + (if contains(e, last) && IsPermit(e) then [last] else [])
  }

  /** The routes, in order, that are still unclassified after one entry. */
  function Kept(contains: Test, routes: seq<string>, e: PrefixEntry): (r: seq<string>)
    ensures forall x :: x in r <==> x in routes && !Decides(contains, e, x)
  {
    if |routes| == 0 then []
    else
      var last := routes[|routes| - 1];
      Kept(contains, routes[..|routes| - 1], e) + (if Decides(contains, e, last) then [] else [last])
  }

  /** Where the filter stands after some entries: the targets so far and the
      routes no entry has classified yet. */
  datatype Partition = Partition(targets: seq<string>, remaining: seq<string>)

  /** The state after `entries`, applied in order to `routes`. */
  function Classify(contains: Test, routes: seq<string>, entries: seq<PrefixEntry>): Partition
  {
    if |entries| == 0 then Partition([], routes)
    else
      var p := Classify(contains, routes, entries[..|entries| - 1]);
      var e := entries[|entries| - 1];
      Partition(p.targets + Permitted(contains, p.remaining, e), Kept(contains, p.remaining, e))
  }

  /** Python's `list.remove(x)`: drops the first occurrence of `x`. */
  function RemoveFirst(s: seq<string>, x: string): seq<string>
    requires x in s
  {
    if s[0] == x then s[1..] else [s[0]] + RemoveFirst(s[1..], x)
  }

  lemma {:induction false} RemoveFirstAfter(a: seq<string>, x: string, b: seq<string>)
    requires x !in a
    ensures RemoveFirst(a + [x] + b, x) == a + b
  {
    var s := a + [x] + b;
    if |a| > 0 {
      assert s[0] == a[0] && s[1..] == a[1..] + [x] + b;
      RemoveFirstAfter(a[1..], x, b);
      assert [a[0]] + a[1..] == a;
    } else {
      assert s[1..] == b;
    }
  }

  /** One route of an entry's scan: `Permitted` and `Kept` grow by that
      route exactly as the script's loop body changes `targets` and `routes`. */
  lemma ScanStep(contains: Test, before: seq<string>, snapshot: seq<string>, j: int, e: PrefixEntry)
    requires 0 <= j < |snapshot|
    ensures contains(e, snapshot[j]) && IsPermit(e) ==>
            before + Permitted(contains, snapshot[..j + 1], e) == before + Permitted(contains, snapshot[..j], e) + [snapshot[j]]
    ensures !(contains(e, snapshot[j]) && IsPermit(e)) ==>
            before + Permitted(contains, snapshot[..j + 1], e) == before + Permitted(contains, snapshot[..j], e)
    ensures Decides(contains, e, snapshot[j]) ==>
            Kept(contains, snapshot[..j + 1], e) + snapshot[j + 1..] ==
            RemoveFirst(Kept(contains, snapshot[..j], e) + snapshot[j..], snapshot[j])
    ensures !Decides(contains, e, snapshot[j]) ==>
            Kept(contains, snapshot[..j + 1], e) + snapshot[j + 1..] == Kept(contains, snapshot[..j], e) + snapshot[j..]
  {
    var route, rest := snapshot[j], snapshot[j + 1..];
    assert snapshot[..j + 1][..j] == snapshot[..j];
    var kept := Kept(contains, snapshot[..j], e);
    assert kept + snapshot[j..] == kept + [route] + rest;
    if Decides(contains, e, route) {
      RemoveFirstAfter(kept, route, rest);
    } else {
      assert Kept(contains, snapshot[..j + 1], e) == kept + [route];
    }
  }

  /** One entry of the filter: `Classify` over one more entry. */
  lemma ClassifyStep(contains: Test, routes: seq<string>, entries: seq<PrefixEntry>, k: int)
    requires 0 <= k < |entries|
    ensures Classify(contains, routes, entries[..k + 1]) ==
            var p := Classify(contains, routes, entries[..k]);
            Partition(p.targets + Permitted(contains, p.remaining, entries[k]), Kept(contains, p.remaining, entries[k]))
  {
    assert entries[..k + 1][..k] == entries[..k];
  }

  /** The scan of one entry, once it has gone over every route. */
  lemma WholeScan(contains: Test, before: seq<string>, snapshot: seq<string>, e: PrefixEntry)
    ensures before + Permitted(contains, snapshot[..|snapshot|], e) == before + Permitted(contains, snapshot, e)
    ensures Kept(contains, snapshot[..|snapshot|], e) + snapshot[|snapshot|..] == Kept(contains, snapshot, e)
  {
    assert snapshot[..|snapshot|] == snapshot;
    assert Kept(contains, snapshot, e) + [] == Kept(contains, snapshot, e);
  }

  /** The filter as the script runs it, with `contains` in the place of
      `addressInNetwork`: `routes` is the working list that `remove` shrinks,
      `snapshot` the copy each entry iterates over. */
  method FilterRoutes(contains: Test, routes32: seq<string>, entries: seq<PrefixEntry>) returns (targets: seq<string>)
    ensures targets == Classify(contains, routes32, entries).targets
  {
    var routes := routes32;
    targets := [];
    for k := 0 to |entries|
      invariant Classify(contains, routes32, entries[..k]) == Partition(targets, routes)
    {
      var entry := entries[k];
      var snapshot := routes;
      ghost var before := targets;
      ClassifyStep(contains, routes32, entries, k);
      for j := 0 to |snapshot|
        invariant targets == before + Permitted(contains, snapshot[..j], entry)
        invariant routes == Kept(contains, snapshot[..j], entry) + snapshot[j..]
      {
        var route := snapshot[j];
        ScanStep(contains, before, snapshot, j, entry);
        if contains(entry, route) {
          if entry.filterType == "permit" {
            targets := targets + [route];
            routes := RemoveFirst(routes, route);
          } else if entry.filterType == "deny" {
            routes := RemoveFirst(routes, route);
          }
        }
      }
      WholeScan(contains, before, snapshot, entry);
    }
    assert entries[..|entries|] == entries;
  }

  /** No entry of `entries` classifies `route`. */
  predicate Undecided(contains: Test, entries: seq<PrefixEntry>, route: string)
  {
    forall k :: 0 <= k < |entries| ==> !Decides(contains, entries[k], route)
  }

  lemma UndecidedSplit(contains: Test, entries: seq<PrefixEntry>, route: string)
    requires |entries| > 0
    ensures Undecided(contains, entries, route) <==>
            Undecided(contains, entries[..|entries| - 1], route) && !Decides(contains, entries[|entries| - 1], route)
  {
    var n := |entries| - 1;
    if Undecided(contains, entries[..n], route) && !Decides(contains, entries[n], route) {
      forall k | 0 <= k < |entries| ensures !Decides(contains, entries[k], route) {
        if k < n {
          assert entries[k] == entries[..n][k];
        }
      }
    }
  }

  /** The entry at `k` is the first that classifies `route`. */
  predicate FirstDecider(contains: Test, entries: seq<PrefixEntry>, route: string, k: int)
  {
    0 <= k < |entries| && Decides(contains, entries[k], route) && Undecided(contains, entries[..k], route)
  }

  /** A route is still unclassified exactly when no entry classifies it. */
  lemma {:induction false} RemainingMembership(contains: Test, routes: seq<string>, entries: seq<PrefixEntry>, route: string)
    ensures route in Classify(contains, routes, entries).remaining <==>
            route in routes && Undecided(contains, entries, route)
  {
    if |entries| > 0 {
      RemainingMembership(contains, routes, entries[..|entries| - 1], route);
      UndecidedSplit(contains, entries, route);
    }
  }

  /** The entry that made a target: the first to classify it, a `permit`. */
  lemma {:induction false} TargetDecider(contains: Test, routes: seq<string>, entries: seq<PrefixEntry>, route: string)
    returns (k: int)
    requires route in Classify(contains, routes, entries).targets
    ensures route in routes && FirstDecider(contains, entries, route, k) && IsPermit(entries[k])
  {
    var n := |entries| - 1;
    var prior, e := entries[..n], entries[n];
    var p := Classify(contains, routes, prior);
    assert Classify(contains, routes, entries).targets == p.targets + Permitted(contains, p.remaining, e);
    if route in p.targets {
      k := TargetDecider(contains, routes, prior, route);
      assert prior[..k] == entries[..k];
    } else {
      RemainingMembership(contains, routes, prior, route);
      k := n;
    }
  }

  /** A route whose first classifying entry is a `permit` becomes a target. */
  lemma {:induction false} DeciderTarget(contains: Test, routes: seq<string>, entries: seq<PrefixEntry>, route: string, k: int)
    requires route in routes && FirstDecider(contains, entries, route, k) && IsPermit(entries[k])
    ensures route in Classify(contains, routes, entries).targets
  {
    var n := |entries| - 1;
    var prior, e := entries[..n], entries[n];
    var p := Classify(contains, routes, prior);
    assert Classify(contains, routes, entries).targets == p.targets + Permitted(contains, p.remaining, e);
    if k < n {
      assert prior[..k] == entries[..k];
      DeciderTarget(contains, routes, prior, route, k);
      assert route in p.targets;
    } else {
      assert prior == entries[..k];
      RemainingMembership(contains, routes, prior, route);
      assert route in p.remaining;
    }
  }

  /** First match wins: a route is a target exactly when it is one of the
      routes and the first entry that classifies it is a `permit`. */
  lemma ClassifyMembership(contains: Test, routes: seq<string>, entries: seq<PrefixEntry>, route: string)
    ensures route in Classify(contains, routes, entries).targets <==>
            route in routes && exists k :: FirstDecider(contains, entries, route, k) && IsPermit(entries[k])
  {
    if route in Classify(contains, routes, entries).targets {
      var k := TargetDecider(contains, routes, entries, route);
    }
    if route in routes && exists k :: FirstDecider(contains, entries, route, k) && IsPermit(entries[k]) {
      var k :| FirstDecider(contains, entries, route, k) && IsPermit(entries[k]);
      DeciderTarget(contains, routes, entries, route, k);
    }
  }

  /** A route that no entry's network contains is never a target. */
  lemma UnmatchedDropped(contains: Test, routes: seq<string>, entries: seq<PrefixEntry>, route: string)
    requires forall k :: 0 <= k < |entries| ==> !contains(entries[k], route)
    ensures route !in Classify(contains, routes, entries).targets
  {
    if route in Classify(contains, routes, entries).targets {
      var k := TargetDecider(contains, routes, entries, route);
    }
  }

  /** Later entries never reconsider a classified route: the targets chosen
      by the first entries stay, in place, whatever entries follow. */
  lemma {:induction false} LaterEntriesOnlyAppend(contains: Test, routes: seq<string>, entries: seq<PrefixEntry>, more: seq<PrefixEntry>)
    ensures Classify(contains, routes, entries).targets <= Classify(contains, routes, entries + more).targets
  {
    if |more| > 0 {
      var m := |more| - 1;
      var all := entries + more;
      LaterEntriesOnlyAppend(contains, routes, entries, more[..m]);
      assert all[..|all| - 1] == entries + more[..m];
      var before := Classify(contains, routes, entries + more[..m]).targets;
      var after := Classify(contains, routes, all).targets;
      assert after == before + Permitted(contains, Classify(contains, routes, entries + more[..m]).remaining, all[|all| - 1]);
      assert before <= after;
    } else {
      assert entries + more == entries;
    }
  }

  predicate Distinct(s: seq<string>)
  {
    forall i, j :: 0 <= i < j < |s| ==> s[i] != s[j]
  }

  lemma DistinctConcat(a: seq<string>, b: seq<string>)
    requires Distinct(a) && Distinct(b)
    requires forall x :: x in b ==> x !in a
    ensures Distinct(a + b)
  {
    forall i, j | 0 <= i < j < |a + b| ensures (a + b)[i] != (a + b)[j] {
      if j < |a| {
        assert (a + b)[i] == a[i] && (a + b)[j] == a[j];
      } else if i >= |a| {
        assert (a + b)[i] == b[i - |a|] && (a + b)[j] == b[j - |a|];
      } else {
        assert (a + b)[i] == a[i] && (a + b)[j] == b[j - |a|];
        assert b[j - |a|] in b;
      }
    }
  }

  lemma {:induction false} PermittedDistinct(contains: Test, routes: seq<string>, e: PrefixEntry)
    requires Distinct(routes)
    ensures Distinct(Permitted(contains, routes, e))
  {
    if |routes| > 0 {
      var n := |routes| - 1;
      PermittedDistinct(contains, routes[..n], e);
      assert routes[n] !in routes[..n];
      DistinctConcat(Permitted(contains, routes[..n], e), if contains(e, routes[n]) && IsPermit(e) then [routes[n]] else []);
    }
  }

  lemma {:induction false} KeptDistinct(contains: Test, routes: seq<string>, e: PrefixEntry)
    requires Distinct(routes)
    ensures Distinct(Kept(contains, routes, e))
  {
    if |routes| > 0 {
      var n := |routes| - 1;
      KeptDistinct(contains, routes[..n], e);
      assert routes[n] !in routes[..n];
      DistinctConcat(Kept(contains, routes[..n], e), if Decides(contains, e, routes[n]) then [] else [routes[n]]);
    }
  }

  /** Without duplicate routes, no route becomes a target twice; the targets
      and the unclassified routes are disjoint parts of the routes. */
  lemma {:induction false} TargetsDistinct(contains: Test, routes: seq<string>, entries: seq<PrefixEntry>)
    requires Distinct(routes)
    ensures Distinct(Classify(contains, routes, entries).targets)
    ensures Distinct(Classify(contains, routes, entries).remaining)
    ensures forall x :: x in Classify(contains, routes, entries).targets ==>
                          x in routes && x !in Classify(contains, routes, entries).remaining
    ensures forall x :: x in Classify(contains, routes, entries).remaining ==> x in routes
  {
    if |entries| > 0 {
      var n := |entries| - 1;
      var p, e := Classify(contains, routes, entries[..n]), entries[n];
      TargetsDistinct(contains, routes, entries[..n]);
      PermittedDistinct(contains, p.remaining, e);
      KeptDistinct(contains, p.remaining, e);
      DistinctConcat(p.targets, Permitted(contains, p.remaining, e));
    }
  }
}
