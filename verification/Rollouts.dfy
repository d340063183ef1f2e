/** The gradual rollout of a feature flag with monitoring and rollback.  The answers of the outside
  world (whether the k-th flag write succeeds, what the k-th poll of the metrics returns) are given
  in advance as functions; the percentages the deployment tries to write are recorded in order. */
module Rollouts {

  datatype Config = Config(initial: int, max: int, increment: int, threshold: real)

  /** A poll of the metrics: none came back, a pair of counts, or something that makes the arithmetic
      raise. */
  datatype Sample = Unavailable | Counts(errors: int, executions: int) | Malformed

  datatype Result = Succeeded | Failed | Raised

  function Min(a: int, b: int): int { if a < b then a else b }

  function ErrorRate(errors: int, executions: int): real
    requires executions > 0
  {
    (errors as real) / (executions as real) * 100.0
  }

  /** A stage goes well when its write is accepted, its poll does not raise, and whatever it counts stays
      within the threshold, which is in percent. */
  predicate Clean(c: Config, written: bool, s: Sample)
  {
    && written && !s.Malformed?
    && (s.Counts? && s.executions > 0 ==> 100.0 * s.errors as real <= c.threshold * s.executions as real)
  }

  lemma RateWithin(errors: int, executions: int, threshold: real)
    requires executions > 0
    ensures ErrorRate(errors, executions) <= threshold <==> 100.0 * errors as real <= threshold * executions as real
  {
    var n := executions as real;
    var q := errors as real / n;
    assert q * n == errors as real;
    assert 100.0 * errors as real == (q * 100.0) * n;
    if q * 100.0 <= threshold {
      assert (threshold - q * 100.0) * n >= 0.0;
    } else {
      assert (q * 100.0 - threshold) * n > 0.0;
    }
  }

  lemma CleanByRate(c: Config, s: Sample)
    ensures s.Counts? && s.executions > 0 ==>
              (Clean(c, true, s) <==> !(ErrorRate(s.errors, s.executions) > c.threshold))
    ensures s.Unavailable? || (s.Counts? && s.executions <= 0) ==> Clean(c, true, s)
    ensures s.Malformed? ==> !Clean(c, true, s)
  {
    if s.Counts? && s.executions > 0 { RateWithin(s.errors, s.executions, c.threshold); }
  }

  /** In other words: the write is refused, the poll raises, or the share of errors among the executions,
      in percent, exceeds the threshold; without executions there is no share. */
  lemma NotCleanExactly(c: Config, written: bool, s: Sample)
    ensures !Clean(c, written, s) <==>
            || !written || s == Malformed
            || (exists errors, executions :: s == Counts(errors, executions) && executions > 0 &&
                  errors as real / executions as real * 100.0 > c.threshold)
  {
    if s.Counts? && s.executions > 0 { RateWithin(s.errors, s.executions, c.threshold); }
  }

  // ---------------------------------------------------------------------------------------------
  // The plan: which percentages a rollout goes through
  // ---------------------------------------------------------------------------------------------

  /** The percentage of stage `k`. */
  function Percentage(c: Config, k: nat): int
  {
    Min(c.initial + k * c.increment, c.max)
  }

  /** The smallest integer not below the quotient. */
  function CeilDiv(a: nat, b: int): nat
    requires b > 0
  {
    (a + b - 1) / b
  }

  /** The plan is finite: it starts at the maximum or above, or it climbs. */
  predicate Finite(c: Config)
  {
    c.initial >= c.max || c.increment > 0
  }

  /** How many stages there are: one, and one for each started increment of the remaining way. */
  function Stages(c: Config): nat
    requires Finite(c)
  {
    if c.initial > c.max then 0
    else if c.initial == c.max then 1
    else 1 + CeilDiv(c.max - c.initial, c.increment)
  }

  lemma MulBelow(a: nat, b: nat, inc: int)
    requires inc > 0 && a < b
    ensures a * inc + inc <= b * inc
  {
    assert (b - a - 1) * inc >= 0;
    assert (b - a - 1) * inc == b * inc - a * inc - inc;
  }

  lemma CeilDivBounds(a: nat, b: int)
    requires b > 0 && a > 0
    ensures CeilDiv(a, b) > 0 && (CeilDiv(a, b) - 1) * b < a <= CeilDiv(a, b) * b
  {
  }

  /** The plan climbs strictly and reaches the maximum at its last stage, not before. */
  lemma PlanClimbs(c: Config, k: nat)
    requires c.initial < c.max && c.increment > 0 && k < Stages(c)
    ensures Percentage(c, k) <= c.max
    ensures Percentage(c, k) == c.max <==> k == Stages(c) - 1
    ensures k + 1 < Stages(c) ==> Percentage(c, k) < Percentage(c, k + 1)
    ensures k + 1 < Stages(c) ==> Percentage(c, k + 1) == Min(Percentage(c, k) + c.increment, c.max)
  {
    var n := CeilDiv(c.max - c.initial, c.increment);
    CeilDivBounds(c.max - c.initial, c.increment);
    if k < n - 1 { MulBelow(k, n - 1, c.increment); }
    assert (k + 1) * c.increment == k * c.increment + c.increment;
  }

  /** Repeating the loop's update, wherever it leads. */
  function Iterate(c: Config, k: nat): int
  {
    if k == 0 then c.initial else Min(Iterate(c, k - 1) + c.increment, c.max)
  }

  lemma {:induction false} NeverClimbs(c: Config, k: nat)
    requires !Finite(c)
    ensures Iterate(c, k) < c.max && Iterate(c, k) == Percentage(c, k)
  {
    if k == 0 {
    } else {
      NeverClimbs(c, k - 1);
    }
  }

  lemma {:induction false} IterateIsPercentage(c: Config, k: nat)
    requires c.initial < c.max && c.increment > 0 && k < Stages(c)
    ensures Iterate(c, k) == Percentage(c, k)
  {
    if k == 0 {
    } else {
      IterateIsPercentage(c, k - 1);
      PlanClimbs(c, k - 1);
    }
  }

  /** The loop gets to its exit, when nothing fails, exactly if it starts there or the increment is
      positive. */
  lemma TerminatesExactly(c: Config)
    ensures (exists k: nat :: Iterate(c, k) >= c.max) <==> Finite(c)
  {
    if c.initial >= c.max {
      assert Iterate(c, 0) >= c.max;
    } else if c.increment > 0 {
      CeilDivBounds(c.max - c.initial, c.increment);
      IterateIsPercentage(c, Stages(c) - 1);
      PlanClimbs(c, Stages(c) - 1);
      assert Iterate(c, Stages(c) - 1) >= c.max;
    } else {
      forall k: nat ensures Iterate(c, k) < c.max { NeverClimbs(c, k); }
    }
  }

  predicate FailsAt(c: Config, writeSucceeds: nat -> bool, samples: nat -> Sample, k: nat)
  {
    !Clean(c, writeSucceeds(k), samples(k))
  }

  /** The loop leaves at stage `k`: the maximum is reached, or the stage does not succeed. */
  predicate Leaves(c: Config, writeSucceeds: nat -> bool, samples: nat -> Sample, k: nat)
  {
    Iterate(c, k) >= c.max || FailsAt(c, writeSucceeds, samples, k)
  }

  /** With failures included, the loop ends exactly if the plan is finite or some stage fails. */
  lemma EndsExactly(c: Config, writeSucceeds: nat -> bool, samples: nat -> Sample)
    ensures (exists k: nat :: Leaves(c, writeSucceeds, samples, k)) <==>
            Finite(c) || exists k: nat :: FailsAt(c, writeSucceeds, samples, k)
  {
    if Finite(c) {
      TerminatesExactly(c);
      var k: nat :| Iterate(c, k) >= c.max;
      assert Leaves(c, writeSucceeds, samples, k);
    } else {
      forall k: nat ensures Iterate(c, k) < c.max { NeverClimbs(c, k); }
    }
    if k: nat :| FailsAt(c, writeSucceeds, samples, k) {
      assert Leaves(c, writeSucceeds, samples, k);
    }
  }

  /** From a stage below the maximum the loop goes on to the next percentage, of which a finite plan has
      one; an infinite plan stays below the maximum. */
  lemma NextStage(c: Config, k: nat)
    requires Finite(c) ==> k < Stages(c)
    ensures Percentage(c, k) < c.max ==>
              && Percentage(c, k + 1) == Min(Percentage(c, k) + c.increment, c.max)
              && (Finite(c) ==> k + 1 < Stages(c) && Percentage(c, k + 1) > Percentage(c, k))
    ensures Percentage(c, k) >= c.max ==> Finite(c) && k + 1 == Stages(c)
    ensures Percentage(c, k) <= c.max
  {
    assert (k + 1) * c.increment == k * c.increment + c.increment;
    if !Finite(c) {
      NeverClimbs(c, k);
    } else if c.initial < c.max {
      PlanClimbs(c, k);
    }
  }

  // ---------------------------------------------------------------------------------------------
  // The orchestrator
  // ---------------------------------------------------------------------------------------------

  function Writes(c: Config, n: nat): seq<int>
  {
    seq(n, k requires 0 <= k => Percentage(c, k))
  }

  class DeploymentOrchestrator {
    const config: Config
    const writeSucceeds: nat -> bool
    const samples: nat -> Sample
    var flagWrites: seq<int>  // every percentage a write was attempted for, in order
    var polls: nat

    constructor (config: Config, writeSucceeds: nat -> bool, samples: nat -> Sample)
      ensures this.config == config && this.writeSucceeds == writeSucceeds && this.samples == samples
      ensures flagWrites == [] && polls == 0
    {
      this.config, this.writeSucceeds, this.samples := config, writeSucceeds, samples;
      flagWrites, polls := [], 0;
    }

    method UpdateFeatureFlag(percentage: int) returns (ok: bool)
      modifies this`flagWrites
      ensures flagWrites == old(flagWrites) + [percentage] && ok == writeSucceeds(old(|flagWrites|))
    {
      ok := writeSucceeds(|flagWrites|);
      flagWrites := flagWrites + [percentage];
    }

    method GetExecutionMetrics() returns (s: Sample)
      modifies this`polls
      ensures polls == old(polls) + 1 && s == samples(old(polls))
    {
      s := samples(polls);
      polls := polls + 1;
    }

    /** Stage `k` of a rollout that starts now would go well. */
    predicate CleanAt(k: nat)
      reads this
    {
      Clean(config, writeSucceeds(|flagWrites| + k), samples(polls + k))
    }

    /** It would raise: its write is accepted and its poll cannot be used. */
    predicate RaisesAt(k: nat)
      reads this
    {
      writeSucceeds(|flagWrites| + k) && samples(polls + k).Malformed?
    }

    /** A rollout that starts now ends: its plan is finite, or some stage fails. */
    ghost predicate Ends()
      reads this
    {
      Finite(config) || exists k: nat :: !CleanAt(k)
    }

    /** The stages are written in order up to the first that does not succeed; all of them, up to the
        maximum, when every one succeeds. */
    method RunGradualRollout() returns (r: Result)
      requires Ends()
      modifies this`flagWrites, this`polls
      ensures var n := |flagWrites| - |old(flagWrites)|;
              && 0 <= n && flagWrites == old(flagWrites) + Writes(config, n)
              && (Finite(config) ==> n <= Stages(config))
              && (forall k: nat :: k < n - 1 ==> old(CleanAt(k)))
              && (r == Succeeded ==> Finite(config) && n == Stages(config) && (n > 0 ==> old(CleanAt(n - 1))))
              && (r != Succeeded ==> n > 0 && !old(CleanAt(n - 1)))
              && (r == Raised <==> n > 0 && old(RaisesAt(n - 1)))
    {
      var current := config.initial;
      ghost var n := 0;
      ghost var failing: nat := if Finite(config) then 0 else var k: nat :| !CleanAt(k); k;
      while current <= config.max
        invariant current <= config.max ==> (Finite(config) ==> n < Stages(config)) && current == Percentage(config, n)
        invariant current > config.max ==> Finite(config) && n == Stages(config) == 0
        invariant flagWrites == old(flagWrites) + Writes(config, n) && polls == old(polls) + n
        invariant forall k: nat :: k < n ==> old(CleanAt(k))
        invariant !Finite(config) ==> n <= failing && current < config.max
        decreases if Finite(config) then config.max - current else failing - n
      {
        NextStage(config, n);
        var ok := UpdateFeatureFlag(current);
        assert flagWrites == old(flagWrites) + Writes(config, n + 1);
        if !ok { return Failed; }
        var s := GetExecutionMetrics();
        CleanByRate(config, s);
        if s.Malformed? { return Raised; }
        if s.Counts? && s.executions > 0 {
          if ErrorRate(s.errors, s.executions) > config.threshold { return Failed; }
        }
        assert old(CleanAt(n));
        n := n + 1;
        if current >= config.max { break; }
        current := Min(current + config.increment, config.max);
      }
      return Succeeded;
    }

    method RunRollback() returns (ok: bool)
      modifies this`flagWrites
      ensures flagWrites == old(flagWrites) + [0] && ok == writeSucceeds(old(|flagWrites|))
    {
      ok := UpdateFeatureFlag(0);
    }

    /** A deployment succeeds when both checks pass and every stage of the rollout does.  A failed
        check attempts no write; whenever the rollout has begun or anything raises, failure makes zero
        the last percentage attempted. */
    method Deploy(checks: Result, migrations: Result) returns (success: bool)
      requires checks == Succeeded && migrations == Succeeded ==> Ends()
      modifies this`flagWrites, this`polls
      ensures success <==>
                checks == Succeeded && migrations == Succeeded && Finite(config) &&
                forall k: nat :: k < Stages(config) ==> old(CleanAt(k))
      ensures success ==> flagWrites == old(flagWrites) + Writes(config, Stages(config))
      ensures checks == Failed || (checks == Succeeded && migrations == Failed) ==>
                flagWrites == old(flagWrites)
      ensures checks == Raised || (checks == Succeeded && migrations == Raised) ==>
                flagWrites == old(flagWrites) + [0]
      ensures checks == Succeeded && migrations == Succeeded && !success ==>
                exists n: nat :: n > 0 && (Finite(config) ==> n <= Stages(config))
                  && flagWrites == old(flagWrites) + Writes(config, n) + [0]
                  && !old(CleanAt(n - 1))
                  && forall k: nat :: k < n - 1 ==> old(CleanAt(k))
    {
      if checks == Failed { return false; }
      if checks == Raised { var _ := RunRollback(); return false; }
      if migrations == Failed { return false; }
      if migrations == Raised { var _ := RunRollback(); return false; }
      var r := RunGradualRollout();
      if r != Succeeded {
        var _ := RunRollback();
        return false;
      }
      return true;
    }
  }

  /** A successful rollout ends at the maximum, climbing strictly. */
  lemma SuccessfulWrites(c: Config)
    requires c.initial <= c.max && Finite(c)
    ensures var w := Writes(c, Stages(c));
            && |w| == 1 + (if c.initial == c.max then 0 else CeilDiv(c.max - c.initial, c.increment))
            && w[0] == c.initial && w[|w| - 1] == c.max
            && forall i, j :: 0 <= i < j < |w| ==> w[i] < w[j]
  {
    if c.initial < c.max {
      CeilDivBounds(c.max - c.initial, c.increment);
      PlanClimbs(c, Stages(c) - 1);
      var w := Writes(c, Stages(c));
      forall i, j | 0 <= i < j < |w| ensures w[i] < w[j] { Climb(c, i, j); }
    }
  }

  lemma {:induction false} Climb(c: Config, i: nat, j: nat)
    requires c.initial < c.max && c.increment > 0 && i < j < Stages(c)
    ensures Percentage(c, i) < Percentage(c, j)
    decreases j
  {
    PlanClimbs(c, j - 1);
    if i == j - 1 {
    } else {
      Climb(c, i, j - 1);
    }
  }
}
