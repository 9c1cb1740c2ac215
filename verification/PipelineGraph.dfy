/** The wired request pipeline as a step system: nodes fire one at a time, routers answer freely,
    and the five parallel branches meet in a barrier in front of `precision_slots`. */
module PipelineGraph {
  import opened Prelude

  datatype Node =
    | Guard | PrecisionPreflight | PrecisionMcp | PrecisionRenderer | PrecisionSlots | PrecisionBind
    | Cache | SemanticRouter | Planner | FuzzyRouter
    | Workers | Research | MathNode | Mcp | GraphRag
    | ResearchFallback | Thinking | StrategyReview | HypothesisVerifier
    | Merger | ResolveConflicts | SelfCritique | Critic | QualityGate | ResponseCommit

  const BRANCHES := {Workers, Research, MathNode, Mcp, GraphRag}

  predicate IsBranch(n: Node) { n.Workers? || n.Research? || n.MathNode? || n.Mcp? || n.GraphRag? }

  /** What a node triggers when it has fired: one node, all five branches, or nothing. */
  datatype Trigger = To(target: Node) | ToBranches | Nothing

  function Targets(t: Trigger): set<Node> {
    match t
    case To(n) => {n}
    case ToBranches => BRANCHES
    case Nothing => {}
  }

  /** The wiring: a router may give any of its answers, a plain node has one outcome, and a branch
      triggers nothing but the barrier. */
  predicate MayTrigger(n: Node, t: Trigger) {
    match n
    case Guard => t == To(PrecisionPreflight) || t == To(Merger)
    case PrecisionPreflight => t == To(PrecisionMcp) || t == To(Cache)
    case PrecisionMcp => t == To(PrecisionRenderer)
    case PrecisionRenderer => t == To(PrecisionBind)
    case Cache => t == To(SemanticRouter) || t == To(Merger)
    case SemanticRouter => t == To(Planner)
    case Planner => t == To(FuzzyRouter)
    case FuzzyRouter => t == ToBranches
    case Workers => t == Nothing
    case Research => t == Nothing
    case MathNode => t == Nothing
    case Mcp => t == Nothing
    case GraphRag => t == Nothing
    case PrecisionSlots => t == To(ResearchFallback)
    case ResearchFallback => t == To(Thinking)
    case Thinking => t == To(StrategyReview)
    case StrategyReview => t == To(HypothesisVerifier) || t == To(Merger)
    case HypothesisVerifier => t == To(Merger)
    case Merger => t == To(Planner) || t == To(ResolveConflicts) || t == To(SelfCritique)
    case SelfCritique => t == To(Merger)
    case ResolveConflicts => t == To(Critic)
    case Critic => t == To(PrecisionBind)
    case PrecisionBind => t == To(QualityGate)
    case QualityGate => t == To(ResponseCommit) || t == Nothing
    case ResponseCommit => t == Nothing
  }

  /** The triggered nodes, the branches the barrier has seen, and the nodes fired so far. */
  datatype State = State(pending: set<Node>, arrived: set<Node>, history: seq<Node>)

  const START := State({Guard}, {}, [])

  /** Node n fires with outcome t; the last missing branch opens the barrier and resets it. */
  function Fire(s: State, n: Node, t: Trigger): State {
    var arrived := if IsBranch(n) then s.arrived + {n} else s.arrived;
    if arrived == BRANCHES
    then State(s.pending - {n} + Targets(t) + {PrecisionSlots}, {}, s.history + [n])
    else State(s.pending - {n} + Targets(t), arrived, s.history + [n])
  }

  predicate CanFire(s: State, n: Node, t: Trigger) {
    n in s.pending && MayTrigger(n, t)
  }

  datatype Firing = Firing(node: Node, outcome: Trigger)

  /** A run: a legal firing between every two states, from the start. */
  ghost predicate IsRun(states: seq<State>, firings: seq<Firing>) {
    && |states| == |firings| + 1
    && states[0] == START
    && forall i :: 0 <= i < |firings| ==>
         && CanFire(states[i], firings[i].node, firings[i].outcome)
         && states[i + 1] == Fire(states[i], firings[i].node, firings[i].outcome)
  }

  // ------------------------------------------------------------ the shape of histories

  predicate Precedes(a: Node, b: Node) { MayTrigger(a, To(b)) }

  /** A fuzzy router followed by different branches. */
  predicate IsFan(t: seq<Node>) {
    && t != [] && t[0] == FuzzyRouter
    && (forall k :: 1 <= k < |t| ==> IsBranch(t[k]))
    && Distinct(t)
  }

  /** The last j entries before position i are different branches behind a fuzzy router. */
  predicate FanOut(h: seq<Node>, i: nat, j: nat) {
    j + 1 <= i <= |h| && IsFan(h[i - j - 1..i])
  }

  /** How entry i of a history came about. */
  ghost predicate Explained(h: seq<Node>, i: nat)
    requires i < |h|
  {
    if h[i] == Guard then i == 0
    else if IsBranch(h[i]) then exists j: nat :: FanOut(h, i, j)
    else if h[i] == PrecisionSlots then FanOut(h, i, 5)
    else i > 0 && !IsBranch(h[i - 1]) && Precedes(h[i - 1], h[i])
  }

  ghost predicate History(h: seq<Node>) { forall i :: 0 <= i < |h| ==> Explained(h, i) }

  /** Inside a fan-out: the barrier has seen exactly the branches fired since the fuzzy router. */
  ghost predicate Fanned(s: State) {
    && s.pending != {} && s.pending <= BRANCHES && s.arrived == BRANCHES - s.pending
    && FanOut(s.history, |s.history|, |s.arrived|)
    && (forall k :: |s.history| - |s.arrived| <= k < |s.history| ==> s.history[k] in s.arrived)
  }

  /** Outside a fan-out with a node pending whose turn the history explains. */
  ghost predicate Single(s: State, n: Node) {
    s.arrived == {} && s.pending == {n} && !IsBranch(n) && Explained(s.history + [n], |s.history|)
  }

  ghost predicate Over(s: State) {
    s.arrived == {} && s.pending == {} && s.history != [] && s.history[|s.history| - 1] in {QualityGate, ResponseCommit}
  }

  ghost predicate Inv(s: State) {
    History(s.history) && (Over(s) || Fanned(s) || exists n :: Single(s, n))
  }

  lemma FanIsLocal(h: seq<Node>, more: seq<Node>, i: nat, j: nat)
    requires i <= |h|
    ensures FanOut(h, i, j) <==> FanOut(h + more, i, j)
  {
    if j + 1 <= i {
      assert h[i - j - 1..i] == (h + more)[i - j - 1..i];
    }
  }

  lemma HistoryExtends(h: seq<Node>, n: Node)
    requires History(h) && Explained(h + [n], |h|)
    ensures History(h + [n])
  {
    var g := h + [n];
    forall i | 0 <= i < |g| ensures Explained(g, i) {
      if i < |h| {
        assert Explained(h, i) && g[i] == h[i];
        FanIsLocal(h, [n], i, 5);
        if IsBranch(h[i]) {
          var j: nat :| FanOut(h, i, j);
          FanIsLocal(h, [n], i, j);
        }
      }
    }
  }

  lemma FanGrows(h: seq<Node>, j: nat, n: Node)
    requires FanOut(h, |h|, j) && IsBranch(n) && n !in h[|h| - j..]
    ensures FanOut(h + [n], |h| + 1, j + 1)
  {
    var g := h + [n];
    var t := h[|h| - j - 1..|h|];
    assert g[|g| - (j + 1) - 1..|g|] == t + [n];
    forall k | 1 <= k < |t| ensures t[k] != n {
      assert t[k] == h[|h| - j..][k - 1];
    }
  }

  lemma FireAlone(s: State, n: Node, t: Trigger)
    requires s.arrived == {} && s.pending == {n} && !IsBranch(n)
    ensures Fire(s, n, t) == State(Targets(t), {}, s.history + [n])
  {
    assert Workers in BRANCHES;
    assert s.pending - {n} + Targets(t) == Targets(t);
  }

  lemma OrdinaryTarget(n: Node, m: Node)
    requires MayTrigger(n, To(m))
    ensures !IsBranch(n) && !IsBranch(m) && m != Guard && m != PrecisionSlots
  {
  }

  lemma NextIsExplained(h: seq<Node>, n: Node, m: Node)
    requires MayTrigger(n, To(m))
    ensures Explained(h + [n] + [m], |h + [n]|)
  {
    OrdinaryTarget(n, m);
    var g := h + [n] + [m];
    assert g[|h|] == n && g[|h| + 1] == m;
  }

  lemma SingleSteps(s: State, n: Node, t: Trigger)
    requires History(s.history) && Single(s, n) && MayTrigger(n, t)
    ensures Inv(Fire(s, n, t))
  {
    var s' := Fire(s, n, t);
    HistoryExtends(s.history, n);
    FireAlone(s, n, t);
    match t
    case ToBranches =>
      FanOpens(s.history, n);
      assert BRANCHES - s'.pending == {};
      assert Workers in s'.pending;
      assert Fanned(s');
    case To(m) =>
      NextIsExplained(s.history, n, m);
      OrdinaryTarget(n, m);
      assert Single(s', m);
    case Nothing =>
      assert Over(s');
  }

  lemma FanOpens(h: seq<Node>, n: Node)
    requires n == FuzzyRouter
    ensures FanOut(h + [n], |h + [n]|, 0)
  {
    var g := h + [n];
    assert g[|g| - 1..|g|] == [n];
  }

  lemma NotFiredYet(s: State, n: Node)
    requires Fanned(s) && n in s.pending
    ensures n !in s.arrived && n !in s.history[|s.history| - |s.arrived|..] && IsBranch(n)
  {
    var tail := s.history[|s.history| - |s.arrived|..];
    forall k | 0 <= k < |tail| ensures tail[k] in s.arrived {
      assert tail[k] == s.history[|s.history| - |s.arrived| + k];
    }
    assert n in BRANCHES;
  }

  lemma BranchIsExplained(h: seq<Node>, n: Node, j: nat)
    requires FanOut(h, |h|, j) && IsBranch(n)
    ensures Explained(h + [n], |h|)
  {
    FanIsLocal(h, [n], |h|, j);
  }

  lemma SlotsAreExplained(h: seq<Node>)
    requires FanOut(h, |h|, 5)
    ensures Explained(h + [PrecisionSlots], |h|)
  {
    FanIsLocal(h, [PrecisionSlots], |h|, 5);
  }

  lemma BranchCount()
    ensures |BRANCHES| == 5
    ensures forall n :: n in BRANCHES <==> IsBranch(n)
  {
  }

  lemma AllArrived(arrived: set<Node>, pending: set<Node>, n: Node)
    requires n in pending && pending <= BRANCHES && arrived == BRANCHES - pending
    ensures arrived + {n} == BRANCHES - (pending - {n}) && |arrived + {n}| == |arrived| + 1
    ensures |arrived| <= 4
    ensures arrived + {n} == BRANCHES <==> |arrived| == 4
    ensures pending - {n} == {} <==> |arrived| == 4
  {
    BranchCount();
    SubsetCount(arrived + {n}, BRANCHES);
    if |arrived| == 4 {
      SubsetOfSameSize(arrived + {n}, BRANCHES);
    }
    if pending - {n} == {} {
      assert arrived + {n} == BRANCHES;
    }
  }

  lemma FireOne(s: State, n: Node)
    requires IsBranch(n)
    ensures Fire(s, n, Nothing)
         == if s.arrived + {n} == BRANCHES then State(s.pending - {n} + {PrecisionSlots}, {}, s.history + [n])
            else State(s.pending - {n}, s.arrived + {n}, s.history + [n])
  {
    assert s.pending - {n} + Targets(Nothing) == s.pending - {n};
  }

  lemma FireBranch(s: State, n: Node)
    requires Fanned(s) && n in s.pending && IsBranch(n)
    ensures |s.arrived| == 4 ==> Fire(s, n, Nothing) == State({PrecisionSlots}, {}, s.history + [n])
    ensures |s.arrived| != 4 ==> Fire(s, n, Nothing) == State(s.pending - {n}, s.arrived + {n}, s.history + [n])
  {
    AllArrived(s.arrived, s.pending, n);
    FireOne(s, n);
  }

  lemma StillFanned(s: State, n: Node)
    requires Fanned(s) && n in s.pending && |s.arrived| != 4
    requires FanOut(s.history + [n], |s.history| + 1, |s.arrived| + 1)
    ensures Fanned(State(s.pending - {n}, s.arrived + {n}, s.history + [n]))
  {
    hide IsFan;
    AllArrived(s.arrived, s.pending, n);
  }

  lemma FanCloses(h: seq<Node>)
    requires History(h) && FanOut(h, |h|, 5)
    ensures Inv(State({PrecisionSlots}, {}, h))
  {
    SlotsAreExplained(h);
    assert Single(State({PrecisionSlots}, {}, h), PrecisionSlots);
  }

  lemma FanHistory(s: State, n: Node)
    requires History(s.history) && Fanned(s) && n in s.pending
    ensures IsBranch(n) && History(s.history + [n])
    ensures FanOut(s.history + [n], |s.history + [n]|, |s.arrived| + 1)
  {
    NotFiredYet(s, n);
    BranchIsExplained(s.history, n, |s.arrived|);
    FanGrows(s.history, |s.arrived|, n);
    HistoryExtends(s.history, n);
  }

  lemma BranchTriggersNothing(n: Node, t: Trigger)
    requires IsBranch(n) && MayTrigger(n, t)
    ensures t == Nothing
  {
  }

  lemma FanSteps(s: State, n: Node, t: Trigger)
    requires History(s.history) && Fanned(s) && n in s.pending && MayTrigger(n, t)
    ensures Inv(Fire(s, n, t))
  {
    hide Explained, FanOut, History, Single, Over, Fire, MayTrigger;
    FanHistory(s, n);
    BranchTriggersNothing(n, t);
    FireBranch(s, n);
    if |s.arrived| == 4 {
      FanCloses(s.history + [n]);
    } else {
      StillFanned(s, n);
    }
  }

  lemma Starts()
    ensures Inv(START)
  {
    assert START.history + [Guard] == [Guard];
    assert Single(START, Guard);
  }

  /** Every state of every run satisfies the invariant, for all router answers and all orders in
      which the branches fire. */
  lemma {:induction false} RunsKeepInvariant(states: seq<State>, firings: seq<Firing>, i: nat)
    requires IsRun(states, firings) && i < |states|
    ensures Inv(states[i])
  {
    if i == 0 {
      Starts();
    } else {
      RunsKeepInvariant(states, firings, i - 1);
      var s, f := states[i - 1], firings[i - 1];
      assert CanFire(s, f.node, f.outcome) && states[i] == Fire(s, f.node, f.outcome);
      if Fanned(s) {
        FanSteps(s, f.node, f.outcome);
      } else {
        var n :| Single(s, n);
        SingleSteps(s, n, f.outcome);
      }
    }
  }

  // ------------------------------------------------------------ what histories look like

  lemma FiveBranches(s: seq<Node>)
    requires Distinct(s) && |s| == 5 && forall k :: 0 <= k < |s| ==> IsBranch(s[k])
    ensures forall b :: b in BRANCHES <==> b in s
  {
    MembersCount(s);
    var got := set x | x in s;
    assert |BRANCHES| == 5;
    forall b | b in BRANCHES ensures b in s {
      if b !in s {
        SubsetCount(got + {b}, BRANCHES);
      }
    }
  }

  /** `precision_slots` fires only right after a fuzzy router and exactly one firing of each of the
      five branches, in whatever order. */
  lemma SlotsAfterAllBranches(states: seq<State>, firings: seq<Firing>, k: nat, i: nat)
    requires IsRun(states, firings) && k < |states| && i < |states[k].history|
    requires states[k].history[i] == PrecisionSlots
    ensures i >= 6 && states[k].history[i - 6] == FuzzyRouter
    ensures Distinct(states[k].history[i - 5..i])
    ensures forall b :: b in BRANCHES <==> b in states[k].history[i - 5..i]
  {
    RunsKeepInvariant(states, firings, k);
    var h := states[k].history;
    assert Explained(h, i);
    var fan := h[i - 6..i];
    assert fan[0] == h[i - 6] && fan[1..] == h[i - 5..i];
    FiveBranches(fan[1..]);
  }

  /** What comes directly before the nodes on the way to a commit. */
  predicate OnTheWay(a: Node, b: Node) {
    && (b == ResponseCommit ==> a == QualityGate)
    && (b == QualityGate ==> a == PrecisionBind)
    && (b == PrecisionBind ==> a == PrecisionRenderer || a == Critic)
    && (b == Critic ==> a == ResolveConflicts)
    && (b == ResolveConflicts ==> a == Merger)
    && (b == PrecisionRenderer ==> a == PrecisionMcp)
    && (b == PrecisionMcp ==> a == PrecisionPreflight)
    && (b == PrecisionPreflight ==> a == Guard)
  }

  lemma WayIsWired(a: Node, b: Node)
    requires Precedes(a, b)
    ensures OnTheWay(a, b)
  {
  }

  lemma Predecessor(h: seq<Node>, i: nat)
    requires History(h) && i < |h|
    requires h[i] != Guard && !IsBranch(h[i]) && h[i] != PrecisionSlots
    ensures i > 0 && OnTheWay(h[i - 1], h[i])
  {
    assert Explained(h, i);
    WayIsWired(h[i - 1], h[i]);
  }

  lemma GuardIsFirst(h: seq<Node>, i: nat)
    requires History(h) && i < |h| && h[i] == Guard
    ensures i == 0
  {
    assert Explained(h, i);
  }

  /** The renderer lies on the direct path from the start. */
  lemma RendererHistory(h: seq<Node>, i: nat)
    requires History(h) && i < |h| && h[i] == PrecisionRenderer
    ensures h[..i + 1] == [Guard, PrecisionPreflight, PrecisionMcp, PrecisionRenderer]
  {
    hide History;
    Predecessor(h, i);
    Predecessor(h, i - 1);
    Predecessor(h, i - 2);
    GuardIsFirst(h, i - 3);
  }

  /** The critic is reached only through conflict resolution from the merger. */
  lemma CriticHistory(h: seq<Node>, i: nat)
    requires History(h) && i < |h| && h[i] == Critic
    ensures i >= 2 && h[i - 1] == ResolveConflicts && h[i - 2] == Merger
  {
    hide History;
    Predecessor(h, i);
    Predecessor(h, i - 1);
  }

  lemma BoundDirectly(h: seq<Node>, i: nat)
    requires History(h) && i < |h| && h[i] == PrecisionBind && i > 0 && h[i - 1] == PrecisionRenderer
    ensures h[..i + 1] == [Guard, PrecisionPreflight, PrecisionMcp, PrecisionRenderer, PrecisionBind]
  {
    hide History;
    RendererHistory(h, i - 1);
    assert h[..i + 1] == h[..i] + [PrecisionBind];
  }

  /** The two ways to a quality gate: the direct precision path from the start, or the chain behind
      the merger. */
  lemma GateHistory(h: seq<Node>, i: nat)
    requires History(h) && i < |h| && h[i] == QualityGate
    ensures i >= 2 && h[i - 1] == PrecisionBind
    ensures || h[..i] == [Guard, PrecisionPreflight, PrecisionMcp, PrecisionRenderer, PrecisionBind]
            || (i >= 4 && h[i - 2] == Critic && h[i - 3] == ResolveConflicts && h[i - 4] == Merger)
  {
    hide History;
    Predecessor(h, i);
    Predecessor(h, i - 1);
    if h[i - 2] == PrecisionRenderer {
      BoundDirectly(h, i - 1);
    } else {
      CriticHistory(h, i - 2);
    }
  }

  lemma CommitHistory(h: seq<Node>, i: nat)
    requires History(h) && i < |h| && h[i] == ResponseCommit
    ensures i >= 3 && h[i - 1] == QualityGate && h[i - 2] == PrecisionBind
    ensures Merger in h[..i] ==> i >= 5 && h[i - 3] == Critic && h[i - 4] == ResolveConflicts && h[i - 5] == Merger
  {
    hide History;
    Predecessor(h, i);
    GateHistory(h, i - 1);
    if h[..i - 1] == [Guard, PrecisionPreflight, PrecisionMcp, PrecisionRenderer, PrecisionBind] {
      assert h[..i] == [Guard, PrecisionPreflight, PrecisionMcp, PrecisionRenderer, PrecisionBind, QualityGate];
    }
  }

  /** A response is committed only after `precision_bind` and then `quality_gate`; and when the merger
      has fired, its last firing is followed by conflict resolution and the critic before that. */
  lemma CommitIsGuarded(states: seq<State>, firings: seq<Firing>, k: nat, i: nat)
    requires IsRun(states, firings) && k < |states| && i < |states[k].history|
    requires states[k].history[i] == ResponseCommit
    ensures var h := states[k].history;
            && i >= 3 && h[i - 1] == QualityGate && h[i - 2] == PrecisionBind
            && (Merger in h[..i] ==>
                  i >= 5 && h[i - 3] == Critic && h[i - 4] == ResolveConflicts && h[i - 5] == Merger)
  {
    RunsKeepInvariant(states, firings, k);
    CommitHistory(states[k].history, i);
  }

  /** No run gets stuck: when nothing is pending the last node was the quality gate or the commit. */
  lemma RunsEndAtTheGate(states: seq<State>, firings: seq<Firing>, k: nat)
    requires IsRun(states, firings) && k < |states| && states[k].pending == {}
    ensures states[k].history != []
    ensures states[k].history[|states[k].history| - 1] in {QualityGate, ResponseCommit}
  {
    RunsKeepInvariant(states, firings, k);
  }
}
