/** The watchdog: once per cycle it reads the gauges of every inference node, updates streak
    counters, and evaluates which alerts are due.

    A run is the sequence of evaluated cycles; what the object holds after a run is given by
    functions on the run, and the alert guarantees are statements about whole runs. */
module Watchdog {
  import opened Prelude

  datatype Node = Node(name: string, capacity: int)

  /** One node's gauges: `up` is 1.0 or 0.0 once the gauge loop has run. */
  datatype Gauges = Gauges(up: real, vramBytes: real)

  datatype Config = Config(downThreshold: int, vramThreshold: real, stuckSeconds: real)

  /** Everything one evaluated cycle reads; the clock is read when the stuck timer may start and
      again when the alerts are evaluated. */
  datatype Cycle = Cycle(gauges: map<string, Gauges>, active: nat, now: real, later: real, cfg: Config)

  datatype Alert =
    | NodeDown(node: string, streak: nat)
    | NodeRecovered(node: string)
    | VramHigh(node: string, ratio: real)
    | BenchmarkStuck(active: nat, elapsed: real)

  const GRACE_CYCLES := 2

  // ------------------------------------------------------------ one cycle

  function UpOf(c: Cycle, name: string): real {
    if name in c.gauges then c.gauges[name].up else 0.0
  }

  function VramOf(c: Cycle, name: string): real {
    if name in c.gauges then c.gauges[name].vramBytes else 0.0
  }

  function NextStreak(streak: nat, up: real): nat { if up == 0.0 then streak + 1 else 0 }

  /** A zero threshold is never reached here: the evaluation has crashed before. */
  predicate DownDue(up: real, streak: nat, threshold: int) {
    up == 0.0 && streak >= threshold && threshold != 0 && streak % threshold == 0
  }

  /** The alerts of one node, in the order they are appended. */
  function NodeAlerts(n: Node, c: Cycle, streak: nat, wasDown: bool): seq<Alert> {
    var up, vram := UpOf(c, n.name), VramOf(c, n.name);
    (if DownDue(up, streak, c.cfg.downThreshold) then [NodeDown(n.name, streak)] else [])
    + (if up == 1.0 && wasDown then [NodeRecovered(n.name)] else [])
    + (if n.capacity > 0 && up == 1.0 && vram / (n.capacity as real) >= c.cfg.vramThreshold
       then [VramHigh(n.name, vram / (n.capacity as real))] else [])
  }

  function StuckAlerts(c: Cycle, stuckSince: Option<real>): seq<Alert> {
    if stuckSince.Some? && c.active > 0 && c.later - stuckSince.value >= c.cfg.stuckSeconds
    then [BenchmarkStuck(c.active, c.later - stuckSince.value)] else []
  }

  /** A zero threshold makes the evaluation divide by zero as soon as a node is down. */
  predicate Crashes(nodes: seq<Node>, c: Cycle) {
    c.cfg.downThreshold == 0 && exists i :: 0 <= i < |nodes| && UpOf(c, nodes[i].name) == 0.0
  }

  // ------------------------------------------------------------ state as a function of the run

  /** Consecutive down cycles of a node at the end of the run. */
  function Streak(run: seq<Cycle>, name: string): nat {
    if run == [] then 0 else NextStreak(Streak(run[..|run| - 1], name), UpOf(run[|run| - 1], name))
  }

  /** The recovery flag: set by the last cycle that did not crash. */
  function WasDown(nodes: seq<Node>, run: seq<Cycle>, name: string): bool {
    if run == [] then false
    else if Crashes(nodes, run[|run| - 1]) then WasDown(nodes, run[..|run| - 1], name)
    else Streak(run, name) >= run[|run| - 1].cfg.downThreshold
  }

  function PrevActive(run: seq<Cycle>): nat { if run == [] then 0 else run[|run| - 1].active }

  /** When the active count froze: set on the second equal positive reading, cleared by a change. */
  function StuckSince(run: seq<Cycle>): Option<real> {
    if run == [] then None
    else
      var front, c := run[..|run| - 1], run[|run| - 1];
      if c.active > 0 && c.active == PrevActive(front)
      then (if StuckSince(front).None? then Some(c.now) else StuckSince(front))
      else None
  }

  /** The alerts of node number j in the last cycle of a run. */
  function AlertsOf(nodes: seq<Node>, run: seq<Cycle>, j: nat): seq<Alert>
    requires run != [] && j < |nodes|
  {
    var name := nodes[j].name;
    NodeAlerts(nodes[j], run[|run| - 1], Streak(run, name), WasDown(nodes, run[..|run| - 1], name))
  }

  /** The alert lists of the first k nodes. */
  function NodeParts(nodes: seq<Node>, run: seq<Cycle>, k: nat): seq<seq<Alert>>
    requires run != [] && k <= |nodes|
  {
    seq(k, j requires 0 <= j < k => AlertsOf(nodes, run, j))
  }

  /** The alerts of the last cycle of a run. */
  function Alerts(nodes: seq<Node>, run: seq<Cycle>): seq<Alert>
    requires run != []
  {
    if Crashes(nodes, run[|run| - 1]) then []
    else Joined(NodeParts(nodes, run, |nodes|)) + StuckAlerts(run[|run| - 1], StuckSince(run))
  }

  // ------------------------------------------------------------ the loop's object

  class Monitor {
    const nodes: seq<Node>
    var cyclesDone: nat
    var downStreaks: map<string, nat>
    var wasDown: map<string, bool>
    var prevActive: nat
    var stuckSince: Option<real>
    ghost var run: seq<Cycle>

    /** The fields are what the run says; names are distinct, as keys of the monitor's tables. */
    ghost predicate Valid()
      reads this
    {
      && (forall i, j :: 0 <= i < j < |nodes| ==> nodes[i].name != nodes[j].name)
      && (forall n :: n in nodes ==> n.name in downStreaks && downStreaks[n.name] == Streak(run, n.name))
      && (forall n :: n in nodes ==> n.name in wasDown && wasDown[n.name] == WasDown(nodes, run, n.name))
      && prevActive == PrevActive(run)
      && stuckSince == StuckSince(run)
    }

    constructor (nodes: seq<Node>)
      requires forall i, j :: 0 <= i < j < |nodes| ==> nodes[i].name != nodes[j].name
      ensures Valid() && run == [] && this.nodes == nodes && cyclesDone == 0
    {
      this.nodes := nodes;
      cyclesDone, prevActive, stuckSince, run := 0, 0, None, [];
      var names := set n | n in nodes :: n.name;
      assert forall n :: n in nodes ==> n.name in names;
      downStreaks := map name | name in names :: 0;
      wasDown := map name | name in names :: false;
    }

    /** One turn of the loop; during the grace period nothing is read or evaluated. */
    method Tick(c: Cycle) returns (alerts: seq<Alert>)
      requires Valid()
      modifies this
      ensures Valid() && cyclesDone == old(cyclesDone) + 1
      ensures cyclesDone <= GRACE_CYCLES ==> alerts == [] && run == old(run)
      ensures cyclesDone > GRACE_CYCLES ==> run == old(run) + [c] && alerts == Alerts(nodes, run)
    {
      cyclesDone := cyclesDone + 1;
      if cyclesDone <= GRACE_CYCLES {
        return [];
      }
      alerts := Evaluate(c);
    }

    method Evaluate(c: Cycle) returns (alerts: seq<Alert>)
      requires Valid()
      modifies this
      ensures Valid() && cyclesDone == old(cyclesDone)
      ensures run == old(run) + [c] && alerts == Alerts(nodes, run)
    {
      hide NodeParts, Joined, StuckAlerts, StuckSince;
      ghost var after := run + [c];
      assert after[..|run|] == run;
      CountStreaks(c);
      UpdateTimer(c);
      run := after;
      var crash, found := CollectAlerts(c);
      if crash {
        return [];
      }
      UpdateRecovery(c.cfg.downThreshold);
      return found;
    }

    /** The timer of a frozen active count. */
    method UpdateTimer(c: Cycle)
      requires prevActive == PrevActive(run) && stuckSince == StuckSince(run)
      modifies this`stuckSince, this`prevActive
      ensures prevActive == PrevActive(run + [c]) && stuckSince == StuckSince(run + [c])
    {
      assert (run + [c])[..|run|] == run;
      if c.active > 0 && c.active == prevActive {
        if stuckSince.None? {
          stuckSince := Some(c.now);
        }
      } else {
        stuckSince := None;
      }
      prevActive := c.active;
    }

    method CountStreaks(c: Cycle)
      requires forall i, j :: 0 <= i < j < |nodes| ==> nodes[i].name != nodes[j].name
      requires forall n :: n in nodes ==> n.name in downStreaks
      modifies this`downStreaks
      ensures forall n :: n in nodes ==>
                n.name in downStreaks && downStreaks[n.name] == NextStreak(old(downStreaks)[n.name], UpOf(c, n.name))
    {
      var i := 0;
      while i < |nodes|
        invariant 0 <= i <= |nodes|
        invariant forall n :: n in nodes ==> n.name in downStreaks
        invariant forall j :: 0 <= j < i ==>
                    downStreaks[nodes[j].name] == NextStreak(old(downStreaks)[nodes[j].name], UpOf(c, nodes[j].name))
        invariant forall j :: i <= j < |nodes| ==> downStreaks[nodes[j].name] == old(downStreaks)[nodes[j].name]
      {
        var name := nodes[i].name;
        downStreaks := downStreaks[name := NextStreak(downStreaks[name], UpOf(c, name))];
        i := i + 1;
      }
    }

    /** The evaluation over all nodes; `crash` stands for the division by zero. */
    method CollectAlerts(c: Cycle) returns (crash: bool, alerts: seq<Alert>)
      requires run != [] && c == run[|run| - 1] && stuckSince == StuckSince(run)
      requires forall n :: n in nodes ==> n.name in downStreaks && downStreaks[n.name] == Streak(run, n.name)
      requires forall n :: n in nodes ==> n.name in wasDown && wasDown[n.name] == WasDown(nodes, run[..|run| - 1], n.name)
      ensures crash == Crashes(nodes, c)
      ensures !crash ==> alerts == Alerts(nodes, run)
    {
      hide NodeAlerts, StuckAlerts, Streak, WasDown, StuckSince;
      alerts := [];
      var i := 0;
      while i < |nodes|
        invariant 0 <= i <= |nodes|
        invariant alerts == Joined(NodeParts(nodes, run, i))
        invariant c.cfg.downThreshold == 0 ==> forall j :: 0 <= j < i ==> UpOf(c, nodes[j].name) != 0.0
      {
        var n := nodes[i];
        if UpOf(c, n.name) == 0.0 && downStreaks[n.name] >= c.cfg.downThreshold && c.cfg.downThreshold == 0 {
          return true, [];
        }
        assert NodeParts(nodes, run, i + 1)[..i] == NodeParts(nodes, run, i);
        alerts := alerts + NodeAlerts(n, c, downStreaks[n.name], wasDown[n.name]);
        i := i + 1;
      }
      return false, alerts + StuckAlerts(c, stuckSince);
    }

    method UpdateRecovery(threshold: int)
      requires forall n :: n in nodes ==> n.name in downStreaks && n.name in wasDown
      modifies this`wasDown
      ensures forall n :: n in nodes ==> n.name in wasDown && wasDown[n.name] == (downStreaks[n.name] >= threshold)
    {
      var i := 0;
      while i < |nodes|
        invariant 0 <= i <= |nodes|
        invariant forall n :: n in nodes ==> n.name in wasDown
        invariant forall j :: 0 <= j < i ==> wasDown[nodes[j].name] == (downStreaks[nodes[j].name] >= threshold)
      {
        wasDown := wasDown[nodes[i].name := downStreaks[nodes[i].name] >= threshold];
        i := i + 1;
      }
    }
  }
}
