/** Team token budgets: a request is checked against the counters before it runs and deducted from
    them when its tokens are known, with any number of other requests in between. */
module TeamBudget {
  import opened Prelude

  /** One row of the budget table; no limit or a limit of zero means unlimited. */
  datatype Budget = Budget(monthlyLimit: Option<int>, dailyLimit: Option<int>, monthlyUsed: int, dailyUsed: int)

  const UNLIMITED := Budget(None, None, 0, 0)

  datatype Verdict = Allowed | MonthlyExhausted | DailyExhausted

  predicate Exceeds(limit: Option<int>, used: int, tokens: int) {
    limit.Some? && limit.value != 0 && used + tokens > limit.value
  }

  function Check(b: Budget, tokens: int): Verdict {
    if Exceeds(b.monthlyLimit, b.monthlyUsed, tokens) then MonthlyExhausted
    else if Exceeds(b.dailyLimit, b.dailyUsed, tokens) then DailyExhausted
    else Allowed
  }

  function Deduct(b: Budget, tokens: int): Budget {
    b.(monthlyUsed := b.monthlyUsed + tokens, dailyUsed := b.dailyUsed + tokens)
  }

  /** The two counters and their limits. */
  datatype Period = Monthly | Daily

  function Limit(b: Budget, p: Period): Option<int> { if p.Monthly? then b.monthlyLimit else b.dailyLimit }

  function Used(b: Budget, p: Period): int { if p.Monthly? then b.monthlyUsed else b.dailyUsed }

  /** A counter is within its limit, or has none. */
  predicate Within(b: Budget, p: Period) {
    Limit(b, p).None? || Limit(b, p).value == 0 || Used(b, p) <= Limit(b, p).value
  }

  class BudgetTable {
    var rows: map<string, Budget>

    constructor ()
      ensures rows == map[]
    {
      rows := map[];
    }

    function Row(team: string): Budget
      reads this
    {
      if team in rows then rows[team] else UNLIMITED
    }

    /** New limits keep the counters of an existing row. */
    method SetTeamBudget(team: string, monthlyLimit: Option<int>, dailyLimit: Option<int>)
      modifies this
      ensures rows == old(rows)[team := old(Row(team)).(monthlyLimit := monthlyLimit, dailyLimit := dailyLimit)]
    {
      var b := Row(team);
      rows := rows[team := b.(monthlyLimit := monthlyLimit, dailyLimit := dailyLimit)];
    }

    /** Deducting from a team without a row changes nothing. */
    method DeductTeamBudget(team: string, tokens: int)
      modifies this
      ensures rows == if team in old(rows) then old(rows)[team := Deduct(old(rows)[team], tokens)] else old(rows)
    {
      if team in rows {
        rows := rows[team := Deduct(rows[team], tokens)];
      }
    }

    /** The verdict tells what deducting these tokens would lead to: allowed exactly if both
        counters stay within their limits, daily exhausted only if the monthly one does. */
    method CheckTeamBudget(team: string, tokens: int) returns (v: Verdict)
      ensures var after := Deduct(Row(team), tokens);
              && (v == Allowed <==> Within(after, Monthly) && Within(after, Daily))
              && (v == MonthlyExhausted <==> !Within(after, Monthly))
              && (v == DailyExhausted <==> Within(after, Monthly) && !Within(after, Daily))
      ensures v == Check(Row(team), tokens)
    {
      var b := Row(team);
      if b.monthlyLimit.Some? && b.monthlyLimit.value != 0 && b.monthlyUsed + tokens > b.monthlyLimit.value {
        return MonthlyExhausted;
      }
      if b.dailyLimit.Some? && b.dailyLimit.value != 0 && b.dailyUsed + tokens > b.dailyLimit.value {
        return DailyExhausted;
      }
      return Allowed;
    }
  }

  // ------------------------------------------------------------ interleavings

  /** A request: the tokens it is checked with and the tokens it turns out to use. */
  datatype Request = Request(checkedWith: int, used: nat)

  /** One team's row together with the requests between their check and their deduction. */
  datatype State = State(budget: Budget, inFlight: seq<Request>)

  datatype Step = Admit(r: Request) | Refuse(refused: Request) | Settle(i: nat)

  /** A request is admitted or refused as the check says; any request in flight may settle next. */
  predicate Enabled(s: State, step: Step) {
    match step
    case Admit(r) => Check(s.budget, r.checkedWith) == Allowed
    case Refuse(r) => Check(s.budget, r.checkedWith) != Allowed
    case Settle(i) => i < |s.inFlight|
  }

  function Next(s: State, step: Step): State
    requires Enabled(s, step)
  {
    match step
    case Admit(r) => s.(inFlight := s.inFlight + [r])
    case Refuse(_) => s
    case Settle(i) => State(Deduct(s.budget, s.inFlight[i].used), s.inFlight[..i] + s.inFlight[i + 1..])
  }

  /** The states of a run, one per step. */
  ghost predicate IsRun(states: seq<State>, steps: seq<Step>) {
    && |states| == |steps| + 1
    && forall i :: 0 <= i < |steps| ==> Enabled(states[i], steps[i]) && states[i + 1] == Next(states[i], steps[i])
  }

  function Tokens(rs: seq<Request>): nat {
    if rs == [] then 0 else rs[0].used + Tokens(rs[1..])
  }

  lemma {:induction false} TokensConcat(a: seq<Request>, b: seq<Request>)
    ensures Tokens(a + b) == Tokens(a) + Tokens(b)
  {
    if a == [] {
      assert a + b == b;
    } else {
      TokensConcat(a[1..], b);
      assert (a + b)[1..] == a[1..] + b;
    }
  }

  lemma MulSucc(n: nat, m: nat)
    ensures (n + 1) * m == n * m + m
  {
  }

  lemma {:induction false} TokensBound(rs: seq<Request>, m: nat)
    requires forall r :: r in rs ==> r.used <= m
    ensures Tokens(rs) <= |rs| * m
  {
    if rs != [] {
      assert rs[0] in rs;
      TokensBound(rs[1..], m);
      MulSucc(|rs| - 1, m);
    }
  }

  /** Tokens spent and tokens that admitted requests are going to spend. */
  function Committed(s: State, p: Period): int { Used(s.budget, p) + Tokens(s.inFlight) }

  /** Every request uses at most m tokens and at most `slack` more than it was checked with. */
  ghost predicate Estimated(steps: seq<Step>, m: nat, slack: nat) {
    forall r :: Admit(r) in steps ==> r.used <= m && r.used <= r.checkedWith + slack
  }

  ghost predicate Small(s: State, m: nat, k: nat) {
    |s.inFlight| <= k && forall r :: r in s.inFlight ==> r.used <= m
  }

  lemma StepKeepsBound(s: State, step: Step, p: Period, m: nat, slack: nat, k: nat)
    requires Enabled(s, step) && Limit(s.budget, p).Some? && Limit(s.budget, p).value != 0
    requires 1 <= k && Small(s, m, k) && |Next(s, step).inFlight| <= k
    requires step.Admit? ==> step.r.used <= m && step.r.used <= step.r.checkedWith + slack
    requires Committed(s, p) <= Limit(s.budget, p).value + (k - 1) * m + slack
    ensures Small(Next(s, step), m, k) && Limit(Next(s, step).budget, p) == Limit(s.budget, p)
    ensures Committed(Next(s, step), p) <= Limit(s.budget, p).value + (k - 1) * m + slack
  {
    match step
    case Refuse(_) =>
    case Admit(r) =>
      TokensConcat(s.inFlight, [r]);
      TokensBound(s.inFlight, m);
      assert |s.inFlight| <= k - 1;
      MulMono(|s.inFlight|, k - 1, m);
    case Settle(i) =>
      var f := s.inFlight;
      assert f == f[..i] + ([f[i]] + f[i + 1..]);
      TokensConcat(f[..i], [f[i]] + f[i + 1..]);
      TokensConcat([f[i]], f[i + 1..]);
      TokensConcat(f[..i], f[i + 1..]);
  }

  lemma MulMono(a: nat, b: nat, m: nat)
    requires a <= b
    ensures a * m <= b * m
  {
  }

  /** Over every interleaving of at most k concurrent requests of at most m tokens each, a counter
      that starts within its limit never has more than `limit + (k - 1) * m` tokens spent or
      committed, plus what a request may use beyond the amount it was checked with. */
  lemma {:induction false} OvershootIsBounded(states: seq<State>, steps: seq<Step>, p: Period, m: nat, slack: nat, k: nat)
    requires IsRun(states, steps) && Estimated(steps, m, slack) && 1 <= k
    requires states[0].inFlight == [] && Limit(states[0].budget, p).Some? && Limit(states[0].budget, p).value != 0
    requires Used(states[0].budget, p) <= Limit(states[0].budget, p).value
    requires forall i :: 0 <= i < |states| ==> |states[i].inFlight| <= k
    ensures forall i :: 0 <= i < |states| ==>
              Committed(states[i], p) <= Limit(states[0].budget, p).value + (k - 1) * m + slack
  {
    var bound := Limit(states[0].budget, p).value + (k - 1) * m + slack;
    var i := 0;
    assert (k - 1) * m >= 0;
    while i < |steps|
      invariant 0 <= i <= |steps|
      invariant Small(states[i], m, k) && Limit(states[i].budget, p) == Limit(states[0].budget, p)
      invariant forall j :: 0 <= j <= i ==> Committed(states[j], p) <= bound
    {
      assert steps[i] in steps;
      assert states[i + 1] == Next(states[i], steps[i]) && |states[i + 1].inFlight| <= k;
      StepKeepsBound(states[i], steps[i], p, m, slack, k);
      i := i + 1;
    }
  }

  /** Requests that are checked with at least what they use, one at a time, never exceed the limit. */
  lemma SequentialNeverExceeds(states: seq<State>, steps: seq<Step>, p: Period, m: nat, i: nat)
    requires IsRun(states, steps) && Estimated(steps, m, 0) && i < |states|
    requires states[0].inFlight == [] && Limit(states[0].budget, p).Some? && Limit(states[0].budget, p).value != 0
    requires Used(states[0].budget, p) <= Limit(states[0].budget, p).value
    requires forall j :: 0 <= j < |states| ==> |states[j].inFlight| <= 1
    ensures Used(states[i].budget, p) <= Limit(states[0].budget, p).value
  {
    OvershootIsBounded(states, steps, p, m, 0, 1);
    assert Committed(states[i], p) <= Limit(states[0].budget, p).value;
  }

  // ------------------------------------------------------------ the bound is reached

  function Copies(r: Request, n: nat): seq<Request> { seq(n, _ => r) }

  lemma {:induction false} TokensOfCopies(r: Request, n: nat)
    ensures Tokens(Copies(r, n)) == n * r.used
  {
    if n > 0 {
      assert Copies(r, n)[1..] == Copies(r, n - 1);
      TokensOfCopies(r, n - 1);
    }
  }

  /** Admitting the same request n times over without settling any. */
  lemma {:induction false} AdmitMany(s: State, r: Request, n: nat) returns (states: seq<State>, steps: seq<Step>)
    requires Check(s.budget, r.checkedWith) == Allowed && s.inFlight == []
    ensures IsRun(states, steps) && states[0] == s && |steps| == n
    ensures forall i :: 0 <= i < n ==> steps[i] == Admit(r)
    ensures forall i :: 0 <= i <= n ==> states[i] == State(s.budget, Copies(r, i))
  {
    if n == 0 {
      states, steps := [s], [];
    } else {
      states, steps := AdmitMany(s, r, n - 1);
      assert Copies(r, n - 1) + [r] == Copies(r, n);
      states := states + [State(s.budget, Copies(r, n))];
      steps := steps + [Admit(r)];
    }
  }

  /** The bound is sharp: from a counter with exactly the checked amount left, k requests admitted
      together commit `limit + (k - 1) * m + slack` tokens, whether they are checked with their real
      size (slack 0) or, as the caller in the request path does, with zero (slack m). */
  lemma OvershootIsReached(limit: int, m: nat, slack: nat, k: nat)
    returns (states: seq<State>, steps: seq<Step>)
    requires limit != 0 && slack <= m && limit >= m - slack && 1 <= k
    ensures IsRun(states, steps) && Estimated(steps, m, slack) && states[0].inFlight == []
    ensures states[0].budget.monthlyUsed >= 0
    ensures Limit(states[0].budget, Monthly) == Some(limit) && Used(states[0].budget, Monthly) <= limit
    ensures forall i :: 0 <= i < |states| ==> |states[i].inFlight| <= k
    ensures Committed(states[|states| - 1], Monthly) == limit + (k - 1) * m + slack
  {
    var b := Budget(Some(limit), None, limit - (m - slack), 0);
    var r := Request(m - slack, m);
    states, steps := AdmitMany(State(b, []), r, k);
    TokensOfCopies(r, k);
    assert states[k] == State(b, Copies(r, k));
    MulSucc(k - 1, m);
  }
}
