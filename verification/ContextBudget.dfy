/** Splitting a model's context window between input and output, and sizing the web-research blocks
    that go into it. */
module ContextBudget {
  import opened Prelude

  const CHARS_PER_TOKEN := 4
  const MERGER_FIXED_TOKENS := 3500
  const MERGER_HEADROOM_TOKENS := 2000
  const MIN_WEB_CHARS := 1200
  const DEFAULT_WEB_CHARS := 4000
  const WEB_BUDGET_FRACTION := 0.55

  /** `int(x)`: towards zero. */
  function Trunc(x: real): int { if x >= 0.0 then x.Floor else -((-x).Floor) }

  lemma TruncMeaning(x: real)
    ensures x >= 0.0 ==> Trunc(x) as real <= x < Trunc(x) as real + 1.0
    ensures x < 0.0 ==> Trunc(x) as real - 1.0 < x <= Trunc(x) as real
  {
  }

  // ------------------------------------------------------------ input and output

  datatype Split = Split(maxOutput: int, availInput: int, availChars: int, overflow: bool)

  datatype Wishes = Wishes(ctx: int, desired: int, overhead: int, charsPerToken: int, safety: int,
                           minOutput: int, minInputRatio: real)

  /** The input share that the first stage protects. */
  function ProtectedInput(w: Wishes): int { Min(w.desired, Trunc(w.ctx as real * w.minInputRatio)) }

  /** It is the desired output, or the share of the window in whole tokens if that is less. */
  lemma ProtectedShare(w: Wishes)
    requires w.ctx as real * w.minInputRatio >= 0.0
    ensures ProtectedInput(w) <= w.desired && ProtectedInput(w) as real <= w.ctx as real * w.minInputRatio
    ensures ProtectedInput(w) == w.desired || ProtectedInput(w) as real > w.ctx as real * w.minInputRatio - 1.0
  {
    TruncMeaning(w.ctx as real * w.minInputRatio);
  }

  method ResolveIoBudget(w: Wishes) returns (r: Split)
    ensures w.ctx <= 0 ==> r == Split(w.desired, 0, 0, false)
    ensures w.ctx > 0 ==>
              && r.overflow == (w.overhead + r.maxOutput + w.safety > w.ctx)
              && r.overflow == EstimateOverflow(w.overhead, r.maxOutput, w.ctx, w.safety)
              && r.availInput >= 0 && r.availChars == r.availInput * w.charsPerToken
              && (if r.overflow then r.availInput == 0
                  else r.maxOutput + r.availInput + w.safety + w.overhead == w.ctx)
              && (w.minOutput > 0 ==> r.maxOutput >= w.minOutput)
              && (r.maxOutput <= w.desired || r.maxOutput == w.minOutput)
    ensures w.ctx > 0 ==>
              var room := w.ctx - ProtectedInput(w) - w.safety;
              var capped := if 0 < room < w.desired then room else w.desired;
              r.maxOutput == if w.minOutput > 0 then Max(w.minOutput, capped) else capped
    ensures w.ctx > 0 && w.ctx - ProtectedInput(w) - w.safety > 0
            && (w.minOutput <= 0 || w.minOutput <= Min(w.desired, w.ctx - ProtectedInput(w) - w.safety)) ==>
              w.ctx - r.maxOutput - w.safety >= ProtectedInput(w)
  {
    hide ProtectedInput;
    if w.ctx <= 0 {
      return Split(w.desired, 0, 0, false);
    }
    var maxAllowed := w.ctx - ProtectedInput(w) - w.safety;
    var output := w.desired;
    if maxAllowed > 0 && output > maxAllowed {
      output := maxAllowed;
    }
    var input := w.ctx - output - w.safety - w.overhead;
    var overflow := input < 0;
    input := Max(0, input);
    if w.minOutput > 0 && output < w.minOutput {
      output := w.minOutput;
      input := w.ctx - output - w.safety - w.overhead;
      overflow := input < 0;
      input := Max(0, input);
    }
    return Split(output, input, input * w.charsPerToken, overflow);
  }

  function EstimateOverflow(input: int, output: int, ctx: int, safety: int): bool {
    ctx > 0 && input + output + safety > ctx
  }

  // ------------------------------------------------------------ web research

  function TokensFor(chars: nat): nat { (chars + CHARS_PER_TOKEN - 1) / CHARS_PER_TOKEN }

  /** The fewest tokens of four characters each that hold the text. */
  lemma TokensHoldText(chars: nat)
    ensures 4 * TokensFor(chars) >= chars && forall t: nat :: 4 * t >= chars ==> TokensFor(chars) <= t
  {
  }

  /** What is left of the window for web text. */
  function Remaining(ctx: int, queryChars: nat, graphChars: nat): int {
    ctx - MERGER_FIXED_TOKENS - MERGER_HEADROOM_TOKENS - TokensFor(queryChars) - TokensFor(graphChars)
  }

  function WebChars(remaining: int): int {
    Max(MIN_WEB_CHARS / CHARS_PER_TOKEN, Trunc(remaining as real * WEB_BUDGET_FRACTION)) * CHARS_PER_TOKEN
  }

  /** Number of blocks and characters per block. */
  function WebResearchBudget(ctx: int, queryChars: nat, graphChars: nat): (int, int) {
    if ctx <= 0 then (5, DEFAULT_WEB_CHARS / 5)
    else
      var chars := WebChars(Remaining(ctx, queryChars, graphChars));
      if chars >= 8000 then (7, 1200)
      else if chars >= 4000 then (5, 900)
      else if chars >= 2000 then (3, 700)
      else (2, Max(MIN_WEB_CHARS / 2, chars / 2))
  }

  /** The blocks by the tokens left in a known window: more and longer ones in three steps, and below
      them two blocks that share what is there, or the guaranteed minimum. */
  lemma WebBudgetSteps(ctx: int, queryChars: nat, graphChars: nat)
    requires ctx > 0
    ensures var r := Remaining(ctx, queryChars, graphChars);
            WebResearchBudget(ctx, queryChars, graphChars)
              == if r >= 3637 then (7, 1200)
                 else if r >= 1819 then (5, 900)
                 else if r >= 910 then (3, 700)
                 else (2, 2 * Max(300, Trunc(r as real * 0.55)))
  {
    var r := Remaining(ctx, queryChars, graphChars);
    var share := r as real * 0.55;
    assert WEB_BUDGET_FRACTION == 0.55;
    assert Trunc(share) >= 2000 <==> r >= 3637;
    assert Trunc(share) >= 1000 <==> r >= 1819;
    assert Trunc(share) >= 500 <==> r >= 910;
  }

  /** A larger window never gets fewer blocks or fewer characters in all. */
  lemma WebBudgetGrows(ctx: int, larger: int, queryChars: nat, graphChars: nat)
    requires 0 < ctx <= larger
    ensures var (blocks, size) := WebResearchBudget(ctx, queryChars, graphChars);
            var (blocks', size') := WebResearchBudget(larger, queryChars, graphChars);
            blocks <= blocks' && blocks * size <= blocks' * size'
  {
    WebBudgetSteps(ctx, queryChars, graphChars);
    WebBudgetSteps(larger, queryChars, graphChars);
    hide WebResearchBudget, Trunc;
    var r, r' := Remaining(ctx, queryChars, graphChars), Remaining(larger, queryChars, graphChars);
    ShareGrows(r, r');
  }

  lemma ShareGrows(r: int, r': int)
    requires r <= r'
    ensures Trunc(r as real * 0.55) <= Trunc(r' as real * 0.55)
    ensures r < 910 ==> Trunc(r as real * 0.55) <= 500
  {
    assert r as real * 0.55 <= r' as real * 0.55;
    assert r < 910 ==> r as real * 0.55 < 500.5;
  }

  /** The blocks fit what is left of the window exactly when at least 300 tokens are left: the
      rounded block sizes never overdraw a window that can hold the guaranteed minimum, and the
      fixed sizes for an unknown window (zero or less) never fit it. */
  lemma WebBlocksFit(ctx: int, queryChars: nat, graphChars: nat)
    ensures var (blocks, size) := WebResearchBudget(ctx, queryChars, graphChars);
            blocks * size <= Remaining(ctx, queryChars, graphChars) * CHARS_PER_TOKEN
            <==> Remaining(ctx, queryChars, graphChars) >= 300
  {
    var r := Remaining(ctx, queryChars, graphChars);
    var share := r as real * WEB_BUDGET_FRACTION;
    assert WEB_BUDGET_FRACTION == 0.55;
    if r >= 0 {
      assert share.Floor as real <= share;
      assert Trunc(share) as real <= 0.55 * r as real;
    } else {
      assert share <= 0.0;
    }
  }
}
