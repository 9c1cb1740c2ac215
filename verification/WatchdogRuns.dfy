/** What the watchdog guarantees over whole runs: how many down alerts an outage raises, when a
    recovery is announced, and what a stuck alert means. */
module WatchdogRuns {
  import opened Prelude
  import opened Watchdog

  /** All cycles of the run use the threshold t. */
  ghost predicate FixedThreshold(run: seq<Cycle>, t: int) {
    forall i :: 0 <= i < |run| ==> run[i].cfg.downThreshold == t
  }

  predicate IsDown(run: seq<Cycle>, name: string, i: nat)
    requires i < |run|
  {
    UpOf(run[i], name) == 0.0
  }

  /** Whether cycle i raises a down (or a recovery) alert for the node. */
  predicate DownAt(nodes: seq<Node>, run: seq<Cycle>, name: string, i: nat)
    requires i < |run|
  {
    exists a :: a in Alerts(nodes, run[..i + 1]) && a.NodeDown? && a.node == name
  }

  predicate RecoveredAt(nodes: seq<Node>, run: seq<Cycle>, name: string, i: nat)
    requires i < |run|
  {
    NodeRecovered(name) in Alerts(nodes, run[..i + 1])
  }

  lemma AlertsMembers(nodes: seq<Node>, run: seq<Cycle>, a: Alert)
    requires run != [] && !Crashes(nodes, run[|run| - 1]) && !a.BenchmarkStuck?
    ensures a in Alerts(nodes, run) <==> exists j :: 0 <= j < |nodes| && a in AlertsOf(nodes, run, j)
  {
    JoinedMembers(NodeParts(nodes, run, |nodes|), a);
    if j :| 0 <= j < |nodes| && a in AlertsOf(nodes, run, j) {
      assert NodeParts(nodes, run, |nodes|)[j] == AlertsOf(nodes, run, j);
    }
  }

  lemma NodeAlertsMembers(n: Node, c: Cycle, streak: nat, wasDown: bool)
    ensures forall m, s :: NodeDown(m, s) in NodeAlerts(n, c, streak, wasDown)
              <==> m == n.name && s == streak && DownDue(UpOf(c, n.name), streak, c.cfg.downThreshold)
    ensures forall m :: NodeRecovered(m) in NodeAlerts(n, c, streak, wasDown)
              <==> m == n.name && UpOf(c, n.name) == 1.0 && wasDown
  {
  }

  lemma VramAlertsMembers(n: Node, c: Cycle, streak: nat, wasDown: bool)
    ensures forall m, ratio :: VramHigh(m, ratio) in NodeAlerts(n, c, streak, wasDown)
              <==> && m == n.name && n.capacity > 0 && UpOf(c, n.name) == 1.0
                   && ratio == VramOf(c, n.name) / (n.capacity as real) && ratio >= c.cfg.vramThreshold
  {
  }

  /** A memory alert is raised exactly for a node that reads 1.0, has a known capacity, and uses at
      least the configured share of it; the alert names that share. */
  lemma VramIsExact(nodes: seq<Node>, run: seq<Cycle>, i: nat, name: string, ratio: real)
    requires i < |run| && !Crashes(nodes, run[i])
    ensures VramHigh(name, ratio) in Alerts(nodes, run[..i + 1])
            <==> exists j :: 0 <= j < |nodes| && nodes[j].name == name && nodes[j].capacity > 0
                   && name in run[i].gauges && run[i].gauges[name].up == 1.0
                   && ratio == run[i].gauges[name].vramBytes / (nodes[j].capacity as real)
                   && ratio >= run[i].cfg.vramThreshold
  {
    var part := run[..i + 1];
    var a := VramHigh(name, ratio);
    AlertsMembers(nodes, part, a);
    forall j | 0 <= j < |nodes|
      ensures a in AlertsOf(nodes, part, j)
              <==> && nodes[j].name == name && nodes[j].capacity > 0 && UpOf(run[i], name) == 1.0
                   && ratio == VramOf(run[i], name) / (nodes[j].capacity as real) && ratio >= run[i].cfg.vramThreshold
    {
      VramAlertsMembers(nodes[j], run[i], Streak(part, nodes[j].name), WasDown(nodes, part[..i], nodes[j].name));
    }
  }

  lemma DownAtMeaning(nodes: seq<Node>, run: seq<Cycle>, n: Node, i: nat, t: int)
    requires n in nodes && i < |run| && 1 <= t && FixedThreshold(run, t)
    ensures DownAt(nodes, run, n.name, i) <==> IsDown(run, n.name, i) && Streak(run[..i + 1], n.name) % t == 0
  {
    var part := run[..i + 1];
    assert part[|part| - 1] == run[i];
    var streak := Streak(part, n.name);
    if DownAt(nodes, run, n.name, i) {
      var a :| a in Alerts(nodes, part) && a.NodeDown? && a.node == n.name;
      AlertsMembers(nodes, part, a);
      var j :| 0 <= j < |nodes| && a in AlertsOf(nodes, part, j);
      NodeAlertsMembers(nodes[j], run[i], Streak(part, nodes[j].name), WasDown(nodes, part[..|part| - 1], nodes[j].name));
    }
    if IsDown(run, n.name, i) && streak % t == 0 {
      var a := NodeDown(n.name, streak);
      var j :| 0 <= j < |nodes| && nodes[j] == n;
      DivisibleAtLeast(streak, t);
      NodeAlertsMembers(n, run[i], streak, WasDown(nodes, part[..|part| - 1], n.name));
      assert a in AlertsOf(nodes, part, j);
      AlertsMembers(nodes, part, a);
    }
  }

  lemma RecoveredAtMeaning(nodes: seq<Node>, run: seq<Cycle>, n: Node, i: nat, t: int)
    requires n in nodes && i < |run| && 1 <= t && FixedThreshold(run, t)
    ensures RecoveredAt(nodes, run, n.name, i)
            <==> UpOf(run[i], n.name) == 1.0 && i > 0 && Streak(run[..i], n.name) >= t
  {
    var part := run[..i + 1];
    var a := NodeRecovered(n.name);
    assert part[|part| - 1] == run[i] && part[..|part| - 1] == run[..i];
    WasDownMeaning(nodes, run, n.name, i, t);
    AlertsMembers(nodes, part, a);
    if j :| 0 <= j < |nodes| && a in AlertsOf(nodes, part, j) {
      NodeAlertsMembers(nodes[j], run[i], Streak(part, nodes[j].name), WasDown(nodes, run[..i], nodes[j].name));
    }
    var j :| 0 <= j < |nodes| && nodes[j] == n;
    NodeAlertsMembers(n, run[i], Streak(part, n.name), WasDown(nodes, run[..i], n.name));
    assert a in AlertsOf(nodes, part, j) <==> UpOf(run[i], n.name) == 1.0 && WasDown(nodes, run[..i], n.name);
  }

  lemma WasDownMeaning(nodes: seq<Node>, run: seq<Cycle>, name: string, i: nat, t: int)
    requires i <= |run| && 1 <= t && FixedThreshold(run, t)
    ensures WasDown(nodes, run[..i], name) <==> i > 0 && Streak(run[..i], name) >= t
  {
    if i > 0 {
      assert run[..i][i - 1] == run[i - 1];
    }
  }

  lemma DividesItself(t: nat)
    requires 1 <= t
    ensures t % t == 0
  {
  }

  lemma DivisibleAtLeast(n: nat, t: nat)
    requires 1 <= n && 1 <= t && n % t == 0
    ensures n >= t
  {
  }

  /** The node is down in exactly the cycles a..b of the run, and not just before or after them. */
  ghost predicate Outage(run: seq<Cycle>, name: string, a: nat, b: nat) {
    && a < b <= |run|
    && (forall i :: a <= i < b ==> IsDown(run, name, i))
    && (a == 0 || !IsDown(run, name, a - 1))
    && (b == |run| || !IsDown(run, name, b))
  }

  lemma {:induction false} StreakInOutage(run: seq<Cycle>, name: string, a: nat, i: nat)
    requires a <= i <= |run|
    requires forall j :: a <= j < i ==> IsDown(run, name, j)
    requires a == 0 || !IsDown(run, name, a - 1)
    ensures Streak(run[..i], name) == i - a
  {
    if i > 0 {
      assert run[..i][..i - 1] == run[..i - 1] && run[..i][i - 1] == run[i - 1];
    }
    if i > a {
      StreakInOutage(run, name, a, i - 1);
      assert IsDown(run, name, i - 1);
    }
  }

  function CountTrue(flags: seq<bool>): nat {
    if flags == [] then 0 else CountTrue(flags[..|flags| - 1]) + (if flags[|flags| - 1] then 1 else 0)
  }

  /** For each of the cycles a..b whether it raises a down alert for the node. */
  ghost function DownFlags(nodes: seq<Node>, run: seq<Cycle>, name: string, a: nat, b: nat): seq<bool>
    requires a <= b <= |run|
  {
    seq(b - a, i requires 0 <= i < b - a => DownAt(nodes, run, name, a + i))
  }

  lemma DownStepInOutage(nodes: seq<Node>, run: seq<Cycle>, n: Node, a: nat, k: nat, t: int)
    requires n in nodes && a <= k < |run| && 1 <= t && FixedThreshold(run, t)
    requires forall j :: a <= j <= k ==> IsDown(run, n.name, j)
    requires a == 0 || !IsDown(run, n.name, a - 1)
    ensures DownAt(nodes, run, n.name, k) <==> (k + 1 - a) % t == 0
  {
    DownAtMeaning(nodes, run, n, k, t);
    StreakInOutage(run, n.name, a, k + 1);
    assert IsDown(run, n.name, k);
  }

  lemma {:induction false} CountMultiples(flags: seq<bool>, t: nat)
    requires 1 <= t
    requires forall i :: 0 <= i < |flags| ==> (flags[i] <==> (i + 1) % t == 0)
    ensures CountTrue(flags) == |flags| / t
  {
    if flags == [] {
      DivExact(0, t, 0, 0);
    } else {
      CountMultiples(flags[..|flags| - 1], t);
      NextMultiple(|flags| - 1, t);
    }
  }

  lemma NextMultiple(n: nat, t: nat)
    requires 1 <= t
    ensures (n + 1) / t == n / t + (if (n + 1) % t == 0 then 1 else 0)
  {
    var q, r := n / t, n % t;
    assert n == q * t + r;
    if r + 1 == t {
      assert n + 1 == (q + 1) * t;
      DivExact(n + 1, t, q + 1, 0);
    } else {
      DivExact(n + 1, t, q, r + 1);
    }
  }

  lemma MulAtLeast(x: int, t: int)
    requires 1 <= x && 1 <= t
    ensures x * t >= t
  {
  }

  lemma DivExact(n: nat, t: nat, q: nat, r: nat)
    requires 1 <= t && r < t && n == q * t + r
    ensures n / t == q && n % t == r
  {
    var q', r' := n / t, n % t;
    assert n == q' * t + r' && 0 <= r' < t;
    assert (q - q') * t == r' - r && (q' - q) * t == r - r';
    if q' < q {
      MulAtLeast(q - q', t);
    } else if q < q' {
      MulAtLeast(q' - q, t);
    }
  }

  /** An outage of L evaluated cycles raises exactly L div T down alerts. */
  lemma OutageAlertCount(nodes: seq<Node>, run: seq<Cycle>, n: Node, a: nat, b: nat, t: int)
    requires n in nodes && 1 <= t && FixedThreshold(run, t) && Outage(run, n.name, a, b)
    ensures CountTrue(DownFlags(nodes, run, n.name, a, b)) == (b - a) / t
  {
    var flags := DownFlags(nodes, run, n.name, a, b);
    forall i | 0 <= i < |flags| ensures flags[i] <==> (i + 1) % t == 0 {
      DownStepInOutage(nodes, run, n, a, a + i, t);
    }
    CountMultiples(flags, t);
  }

  /** Outside outages no down alert is raised. */
  lemma NoAlertWhileUp(nodes: seq<Node>, run: seq<Cycle>, n: Node, i: nat, t: int)
    requires n in nodes && i < |run| && 1 <= t && FixedThreshold(run, t) && !IsDown(run, n.name, i)
    ensures !DownAt(nodes, run, n.name, i)
  {
    DownAtMeaning(nodes, run, n, i, t);
  }

  lemma {:induction false} StreakIsOutage(run: seq<Cycle>, name: string, i: nat)
    requires i <= |run|
    ensures var l := Streak(run[..i], name);
            && l <= i
            && (forall j :: i - l <= j < i ==> IsDown(run, name, j))
            && (l == i || !IsDown(run, name, i - l - 1))
  {
    if i > 0 {
      StreakIsOutage(run, name, i - 1);
      assert run[..i][..i - 1] == run[..i - 1] && run[..i][i - 1] == run[i - 1];
    }
  }

  /** A recovery alert is raised exactly in a cycle that reads 1.0 right after an outage of at
      least T cycles: not after shorter outages, and not a second time. */
  lemma RecoveryIsExact(nodes: seq<Node>, run: seq<Cycle>, n: Node, i: nat, t: int)
    requires n in nodes && i < |run| && 1 <= t && FixedThreshold(run, t)
    ensures RecoveredAt(nodes, run, n.name, i)
            <==> UpOf(run[i], n.name) == 1.0 && exists a :: 0 <= a <= i - t && Outage(run, n.name, a, i)
  {
    RecoveredAtMeaning(nodes, run, n, i, t);
    StreakIsOutage(run, n.name, i);
    var l := Streak(run[..i], n.name);
    if RecoveredAt(nodes, run, n.name, i) {
      assert Outage(run, n.name, i - l, i);
    }
    if a :| 0 <= a <= i - t && Outage(run, n.name, a, i) {
      StreakInOutage(run, n.name, a, i);
    }
  }

  /** The outage before a recovery, and the down alert it has raised. */
  lemma OutageBeforeRecovery(nodes: seq<Node>, run: seq<Cycle>, n: Node, j: nat, t: int) returns (a: nat)
    requires n in nodes && j < |run| && 1 <= t && FixedThreshold(run, t)
    requires RecoveredAt(nodes, run, n.name, j)
    ensures a + t <= j && Outage(run, n.name, a, j) && DownAt(nodes, run, n.name, a + t - 1)
  {
    RecoveredAtMeaning(nodes, run, n, j, t);
    StreakIsOutage(run, n.name, j);
    a := j - Streak(run[..j], n.name);
    FirstAlert(nodes, run, n, a, t);
  }

  lemma FirstAlert(nodes: seq<Node>, run: seq<Cycle>, n: Node, a: nat, t: int)
    requires n in nodes && 1 <= t && a + t <= |run| && FixedThreshold(run, t)
    requires forall j :: a <= j < a + t ==> IsDown(run, n.name, j)
    requires a == 0 || !IsDown(run, n.name, a - 1)
    ensures DownAt(nodes, run, n.name, a + t - 1)
  {
    DownStepInOutage(nodes, run, n, a, a + t - 1, t);
    hide DownAt, IsDown;
    DividesItself(t);
    assert a + t - 1 + 1 - a == t;
  }

  /** Between two recoveries of a node there is at least one down alert. */
  lemma DownBetweenRecoveries(nodes: seq<Node>, run: seq<Cycle>, n: Node, i: nat, j: nat, t: int)
    requires n in nodes && i < j < |run| && 1 <= t && FixedThreshold(run, t)
    requires RecoveredAt(nodes, run, n.name, i) && RecoveredAt(nodes, run, n.name, j)
    ensures exists k :: i < k < j && DownAt(nodes, run, n.name, k)
  {
    var a := OutageBeforeRecovery(nodes, run, n, j, t);
    RecoveredAtMeaning(nodes, run, n, i, t);
    assert !IsDown(run, n.name, i);
    assert i < a + t - 1 < j;
  }

  // ------------------------------------------------------------ the stuck alert

  /** The active count was the same positive number from cycle a to the end of the run. */
  ghost predicate Frozen(run: seq<Cycle>, a: nat) {
    && a < |run| - 1
    && run[a].active > 0
    && forall j :: a <= j < |run| ==> run[j].active == run[a].active
  }

  ghost predicate ClockMonotone(run: seq<Cycle>) {
    forall i, j :: 0 <= i <= j < |run| ==> run[i].now <= run[j].now
  }

  /** Cycle a began the frozen stretch the run ends in. */
  ghost predicate FrozenFrom(run: seq<Cycle>, a: nat) {
    Frozen(run, a) && (a == 0 || run[a - 1].active != run[a].active)
  }

  lemma FrozenEnds(run: seq<Cycle>)
    ensures forall a: nat :: Frozen(run, a) ==>
              |run| >= 2 && run[|run| - 1].active > 0 && run[|run| - 1].active == run[|run| - 2].active
  {
  }

  lemma FrozenSpan(run: seq<Cycle>, a: nat, s: nat)
    requires Frozen(run, a) && Frozen(run, s)
    ensures a < s ==> run[s - 1].active == run[s].active
  {
  }

  /** The timer shows the clock of the second cycle of the current frozen stretch, and is off when
      there is none. */
  lemma {:induction false} StuckSinceMeaning(run: seq<Cycle>) returns (a: nat)
    requires run != []
    ensures StuckSince(run).Some? ==> FrozenFrom(run, a) && StuckSince(run) == Some(run[a + 1].now)
    ensures StuckSince(run).None? ==> forall b: nat :: !Frozen(run, b)
  {
    a := 0;
    var front, last := run[..|run| - 1], |run| - 1;
    FrozenEnds(run);
    if last > 0 && run[last].active > 0 && run[last].active == run[last - 1].active {
      a := StuckSinceMeaning(front);
      if StuckSince(front).None? {
        a := last - 1;
        assert last > 1 ==> !Frozen(front, last - 2);
      }
      assert FrozenFrom(run, a);
    } else {
      assert forall b: nat :: !Frozen(run, b);
    }
  }

  /** The last cycle of the run raises a stuck alert. */
  ghost predicate StuckAt(nodes: seq<Node>, run: seq<Cycle>)
    requires run != []
  {
    exists a :: a in Alerts(nodes, run) && a.BenchmarkStuck?
  }

  lemma NodesNeverStuck(nodes: seq<Node>, run: seq<Cycle>)
    requires run != []
    ensures forall a :: a in Joined(NodeParts(nodes, run, |nodes|)) ==> !a.BenchmarkStuck?
  {
    forall a | a in Joined(NodeParts(nodes, run, |nodes|)) ensures !a.BenchmarkStuck? {
      JoinedMembers(NodeParts(nodes, run, |nodes|), a);
    }
  }

  lemma StuckAtMeaning(nodes: seq<Node>, run: seq<Cycle>)
    requires run != [] && !Crashes(nodes, run[|run| - 1])
    ensures StuckAt(nodes, run) <==> StuckAlerts(run[|run| - 1], StuckSince(run)) != []
  {
    var found := StuckAlerts(run[|run| - 1], StuckSince(run));
    NodesNeverStuck(nodes, run);
    if found != [] {
      assert found[0] in Alerts(nodes, run);
    }
  }

  /** The active count has been frozen since cycle a, and the configured time has passed since the
      cycle after it. */
  ghost predicate FrozenLongEnough(run: seq<Cycle>, a: nat) {
    Frozen(run, a) && run[|run| - 1].later - run[a + 1].now >= run[|run| - 1].cfg.stuckSeconds
  }

  /** A stuck alert is raised exactly when the active count has been one and the same positive
      number since a cycle whose successor lies at least the configured time back. */
  lemma StuckIsExact(nodes: seq<Node>, run: seq<Cycle>)
    requires run != [] && ClockMonotone(run) && !Crashes(nodes, run[|run| - 1])
    ensures StuckAt(nodes, run) <==> exists a: nat :: FrozenLongEnough(run, a)
  {
    StuckAtMeaning(nodes, run);
    var s := StuckSinceMeaning(run);
    var c := run[|run| - 1];
    if StuckAlerts(c, StuckSince(run)) != [] {
      assert FrozenLongEnough(run, s);
    }
    if a: nat :| FrozenLongEnough(run, a) {
      assert StuckSince(run).Some? && Frozen(run, a);
      FrozenSpan(run, a, s);
      assert run[s + 1].now <= run[a + 1].now;
      assert c.active > 0;
    }
  }
}
