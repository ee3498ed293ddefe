/** The exploration and scheduling bookkeeping of the actor-critic training
    script with pathwise (deterministic policy gradient) updates: the two
    annealed thresholds, the three-way choice of action source, the
    process-wide step counter, the gradient clamp before each optimiser step
    and the gates of the training loop. Networks, losses and the market
    environment are outside the model: their outputs arrive as inputs. */
module PathwiseExplore {
  import opened Vectors
  import opened Replay

  const BatchSize: nat := 256
  const EpsStartLow: real := 0.45
  const EpsStartHig: real := 0.55
  const EpsEndLow: real := 0.1
  const EpsEndHig: real := 0.9
  const GradClip: real := 10.0

  /** `decay(t)` stands for exp(-t / EPS_DECAY): one at t = 0, in (0, 1]
      everywhere, non-increasing in t, and eventually below any positive
      bound. */
  ghost predicate IsExpDecay(decay: nat -> real)
  {
    && decay(0) == 1.0
    && (forall t :: 0.0 < decay(t) <= 1.0)
    && (forall t1, t2 :: t1 <= t2 ==> decay(t2) <= decay(t1))
    && (forall e: real :: 0.0 < e ==> EventuallyBelow(decay, e))
  }

  ghost predicate EventuallyBelow(decay: nat -> real, e: real)
  {
    exists t: nat :: decay(t) < e
  }

  /** eps_threshold_low, for the decay factor f = exp(-steps_done / EPS_DECAY). */
  function ThresholdLow(f: real): (low: real)
    ensures 0.0 < f <= 1.0 ==> EpsEndLow < low <= EpsStartLow
    ensures f == 1.0 ==> low == EpsStartLow
  {
    EpsEndLow + (EpsStartLow - EpsEndLow) * f
  }

  /** eps_threshold_hig, for the same decay factor. */
  function ThresholdHigh(f: real): (high: real)
    ensures 0.0 < f <= 1.0 ==> EpsStartHig <= high < EpsEndHig
    ensures f == 1.0 ==> high == EpsStartHig
  {
    EpsEndHig - (EpsEndHig - EpsStartHig) * f
  }

  /** The low threshold stays below the high one, so the policy band is never
      empty; as steps accumulate the band only widens. */
  lemma ThresholdsOrdered(decay: nat -> real, t1: nat, t2: nat)
    requires IsExpDecay(decay) && t1 <= t2
    ensures ThresholdLow(decay(t1)) < ThresholdHigh(decay(t1))
    ensures ThresholdLow(decay(t2)) <= ThresholdLow(decay(t1))
    ensures ThresholdHigh(decay(t1)) <= ThresholdHigh(decay(t2))
    ensures ThresholdLow(decay(0)) == EpsStartLow && ThresholdHigh(decay(0)) == EpsStartHig
  {
  }

  /** Annealing: the thresholds tend to EPS_END_LOW = 0.1 and EPS_END_HIG =
      0.9. For every margin e > 0 there is a step count from which on the low
      threshold stays within e of 0.1 and the high one within e of 0.9. */
  lemma ThresholdsAnneal(decay: nat -> real, e: real)
    requires IsExpDecay(decay) && 0.0 < e
    ensures exists n: nat :: AnnealedFrom(decay, n, e)
  {
    assert EventuallyBelow(decay, e / 0.35);
    var n: nat :| decay(n) < e / 0.35;
    forall t: nat | n <= t
      ensures ThresholdLow(decay(t)) < EpsEndLow + e && EpsEndHig - e < ThresholdHigh(decay(t))
    {
      assert decay(t) <= decay(n);
    }
    assert AnnealedFrom(decay, n, e);
  }

  /** From step count n on, both thresholds are within e of their end values. */
  ghost predicate AnnealedFrom(decay: nat -> real, n: nat, e: real)
  {
    forall t: nat :: n <= t ==>
      ThresholdLow(decay(t)) < EpsEndLow + e && EpsEndHig - e < ThresholdHigh(decay(t))
  }

  /** Where select_action takes its action from. */
  datatype Source = PolicyAction | HoldRate | RandomOneHot

  /** The branch structure of select_action for a uniform draw u. */
  function Decide(u: real, low: real, high: real): (s: Source)
    ensures s == PolicyAction <==> low < u < high
    ensures s == HoldRate <==> high < u
    ensures low < high ==> (s == RandomOneHot <==> u <= low || u == high)
  {
    if low < u < high then PolicyAction
    else if u > high then HoldRate
    else RandomOneHot
  }

  /** The "random" action: all of the allocation on asset i. */
  function OneHot(n: nat, i: nat): (v: seq<real>)
    requires i < n
    ensures |v| == n && IsAllocation(v)
    ensures v[i] == 1.0 && forall j :: 0 <= j < n && j != i ==> v[j] == 0.0
  {
    var v := seq(n, j requires 0 <= j < n => if j == i then 1.0 else 0.0);
    SumOfSingleNonZero(v, i);
    v
  }

  /** The inputs of one select_action call: the uniform draw, the actor's
      output for the current state, the environment's hold rate and the index
      np.random.randint would return. */
  datatype Draw = Draw(u: real, policyAction: seq<real>, holdRate: seq<real>, randomIndex: nat)

  /** The action select_action returns when the decay factor is f. */
  function ChosenAction(d: Draw, f: real, nActions: nat): (a: seq<real>)
    requires d.randomIndex < nActions
    ensures a == d.policyAction || a == d.holdRate || a == OneHot(nActions, d.randomIndex)
    ensures Decide(d.u, ThresholdLow(f), ThresholdHigh(f)) == PolicyAction ==> a == d.policyAction
    ensures Decide(d.u, ThresholdLow(f), ThresholdHigh(f)) == HoldRate ==> a == d.holdRate
    ensures Decide(d.u, ThresholdLow(f), ThresholdHigh(f)) == RandomOneHot ==> a == OneHot(nActions, d.randomIndex)
    ensures Decide(d.u, ThresholdLow(f), ThresholdHigh(f)) == RandomOneHot ==> IsAllocation(a) && |a| == nActions
    ensures 0.0 < f <= 1.0 && d.u < ThresholdLow(f) ==> a == OneHot(nActions, d.randomIndex)
    ensures 0.0 < f <= 1.0 && ThresholdHigh(f) < d.u ==> a == d.holdRate
  {
    match Decide(d.u, ThresholdLow(f), ThresholdHigh(f))
    case PolicyAction => d.policyAction
    case HoldRate => d.holdRate
    case RandomOneHot => OneHot(nActions, d.randomIndex)
  }

  /** At the start of training (steps_done = 0) the policy is used exactly for
      draws strictly between 0.45 and 0.55. */
  lemma FirstChoice(d: Draw, decay: nat -> real, nActions: nat)
    requires IsExpDecay(decay) && d.randomIndex < nActions
    ensures Decide(d.u, ThresholdLow(decay(0)), ThresholdHigh(decay(0))) == PolicyAction <==> 0.45 < d.u < 0.55
    ensures Decide(d.u, ThresholdLow(decay(0)), ThresholdHigh(decay(0))) == HoldRate <==> 0.55 < d.u
    ensures Decide(d.u, ThresholdLow(decay(0)), ThresholdHigh(decay(0))) == RandomOneHot <==> d.u <= 0.45 || d.u == 0.55
  {
  }

  /** The process-wide `steps_done` counter behind select_action. */
  class Explorer {
    var stepsDone: nat

    constructor ()
      ensures stepsDone == 0
    {
      stepsDone := 0;
    }

    /** select_action: the thresholds use the count before this call, and the
        count goes up by one whichever branch is taken. */
    method SelectAction(d: Draw, decay: nat -> real, nActions: nat) returns (action: seq<real>, source: Source)
      requires d.randomIndex < nActions
      modifies this
      ensures stepsDone == old(stepsDone) + 1
      ensures source == Decide(d.u, ThresholdLow(decay(old(stepsDone))), ThresholdHigh(decay(old(stepsDone))))
      ensures action == ChosenAction(d, decay(old(stepsDone)), nActions)
      ensures source == PolicyAction ==> action == d.policyAction
      ensures source == HoldRate ==> action == d.holdRate
      ensures source == RandomOneHot ==> action == OneHot(nActions, d.randomIndex)
    {
      var f := decay(stepsDone);
      var low := EpsEndLow + (EpsStartLow - EpsEndLow) * f;
      var high := EpsEndHig - (EpsEndHig - EpsStartHig) * f;
      stepsDone := stepsDone + 1;
      if low < d.u < high {
        action, source := d.policyAction, PolicyAction;
      } else if d.u > high {
        action, source := d.holdRate, HoldRate;
      } else {
        var ratio := new real[nActions](_ => 0.0);
        ratio[d.randomIndex] := 1.0;
        action, source := ratio[..], RandomOneHot;
      }
    }
  }

  /** param.grad.data.clamp_(-10, 10) on one parameter's gradient. */
  method ClampInPlace(g: array<real>)
    modifies g
    ensures g[..] == ClampAll(old(g[..]), -GradClip, GradClip)
  {
    for i := 0 to g.Length
      invariant forall k :: 0 <= k < i ==> g[k] == Clamp(old(g[k]), -GradClip, GradClip)
      invariant forall k :: i <= k < g.Length ==> g[k] == old(g[k])
    {
      g[i] := Clamp(g[i], -GradClip, GradClip);
    }
  }

  predicate DistinctArrays(gs: seq<array<real>>)
  {
    forall a, b :: 0 <= a < b < |gs| ==> gs[a] != gs[b]
  }

  /** The loop over a network's parameters clamping every gradient. */
  method ClampGradients(grads: seq<array<real>>)
    requires DistinctArrays(grads)
    modifies set g | g in grads
    ensures forall k :: 0 <= k < |grads| ==> grads[k][..] == ClampAll(old(grads[k][..]), -GradClip, GradClip)
  {
    for k := 0 to |grads|
      invariant forall q :: 0 <= q < k ==> grads[q][..] == ClampAll(old(grads[q][..]), -GradClip, GradClip)
      invariant forall q :: k <= q < |grads| ==> grads[q][..] == old(grads[q][..])
    {
      ClampInPlace(grads[k]);
    }
  }

  /** A stored transition: state, chosen action, next state and reward. The
      state pair (market observation, account observation) is abstract. */
  datatype Transition<S> = Transition(state: S, action: seq<real>, nextState: S, reward: real)

  /** optimize_model, without the networks: sample a batch, then clamp the
      critic's gradients, then the actor's (each produced by the external
      backward pass), before the respective optimiser steps. */
  method OptimizeModel<S>(memory: ReplayMemory<Transition<S>>, draw: nat -> nat,
                          criticGrads: seq<array<real>>, actorGrads: seq<array<real>>)
    returns (batch: Result<seq<Transition<S>>>, slots: seq<nat>)
    requires DistinctArrays(criticGrads + actorGrads)
    modifies set g | g in criticGrads + actorGrads
    ensures batch.Ok? <==> BatchSize <= |memory.memory|
    ensures batch.Ok? ==> |batch.value| == BatchSize && |slots| == BatchSize && Distinct(slots)
    ensures batch.Ok? ==> forall k :: 0 <= k < BatchSize ==>
              slots[k] < |memory.memory| && batch.value[k] == memory.memory[slots[k]]
    ensures batch.Ok? ==> forall k :: 0 <= k < |criticGrads| ==>
              criticGrads[k][..] == ClampAll(old(criticGrads[k][..]), -GradClip, GradClip)
    ensures batch.Ok? ==> forall k :: 0 <= k < |actorGrads| ==>
              actorGrads[k][..] == ClampAll(old(actorGrads[k][..]), -GradClip, GradClip)
    ensures batch.Err? ==> forall g :: g in criticGrads + actorGrads ==> g[..] == old(g[..])
  {
    batch, slots := memory.Sample(BatchSize, draw);
    if batch.Err? {
      return;
    }
    assert DistinctArrays(criticGrads) by {
      forall a, b | 0 <= a < b < |criticGrads| ensures criticGrads[a] != criticGrads[b] {
        assert criticGrads[a] == (criticGrads + actorGrads)[a];
        assert criticGrads[b] == (criticGrads + actorGrads)[b];
      }
    }
    assert DistinctArrays(actorGrads) by {
      forall a, b | 0 <= a < b < |actorGrads| ensures actorGrads[a] != actorGrads[b] {
        assert actorGrads[a] == (criticGrads + actorGrads)[|criticGrads| + a];
        assert actorGrads[b] == (criticGrads + actorGrads)[|criticGrads| + b];
      }
    }
    ClampGradients(criticGrads);
    ghost var afterCritic := set g | g in criticGrads;
    forall k | 0 <= k < |actorGrads| ensures actorGrads[k] !in afterCritic {
      forall q | 0 <= q < |criticGrads| ensures actorGrads[k] != criticGrads[q] {
        assert actorGrads[k] == (criticGrads + actorGrads)[|criticGrads| + k];
        assert criticGrads[q] == (criticGrads + actorGrads)[q];
      }
    }
    ClampGradients(actorGrads);
  }
}
