/** The policy-gradient training script: each episode fills a fresh replay
    buffer with (log-probability, reward) transitions while select_action
    samples allocations from the policy's normal distribution, and after the
    episode one batch of 64 is sampled and its rewards are discounted.
    Sampling, log-probabilities and the environment are inputs. */
module PolicyGradient {
  import opened Vectors
  import opened Replay

  const Capacity: nat := 3000
  const BatchSize: nat := 64
  /** The default `gamma` of discount_reward: an annual rate of 4% over 250
      trading days. */
  const DefaultGamma: real := 0.04 / 250.0
  const EpsStart: real := 0.99
  const EpsEnd: real := 0.05
  const NumEpisodes: nat := 100

  datatype Option<T> = None | Some(value: T)

  /** Transition = namedtuple('Transition', ('log_prob', 'reward')). */
  datatype Transition = Transition(logProb: real, reward: real)

  // ---------------------------------------------------------------------
  // discount_reward

  /** The discounted returns of `rs`: each entry is its reward plus gamma
      times the entry after it, the last being its own reward. */
  function Discounted(rs: seq<real>, gamma: real): (out: seq<real>)
    ensures |out| == |rs|
  {
    if rs == [] then []
    else
      var rest := Discounted(rs[1..], gamma);
      [(if rest == [] then 0.0 else rest[0]) * gamma + rs[0]] + rest
  }

  /** An independent reference: the present value sum over k of gamma^k * rs[k]. */
  function Pow(g: real, k: nat): real
  {
    if k == 0 then 1.0 else g * Pow(g, k - 1)
  }

  /** The sum over k < n of gamma^k * rs[k]. */
  function PresentValueUpTo(rs: seq<real>, gamma: real, n: nat): real
    requires n <= |rs|
  {
    if n == 0 then 0.0
    else PresentValueUpTo(rs, gamma, n - 1) + Pow(gamma, n - 1) * rs[n - 1]
  }

  function PresentValue(rs: seq<real>, gamma: real): real
  {
    PresentValueUpTo(rs, gamma, |rs|)
  }

  /** The present value splits into the first reward plus gamma times the
      present value of the rest. */
  lemma PresentValueHead(rs: seq<real>, gamma: real)
    requires rs != []
    ensures PresentValue(rs, gamma) == rs[0] + gamma * PresentValue(rs[1..], gamma)
  {
    PresentValueUpToHead(rs, gamma, |rs|);
  }

  /** The head split of the first n terms of the present value. */
  ghost predicate HeadSplit(rs: seq<real>, gamma: real, n: nat)
    requires 1 <= n <= |rs|
  {
    PresentValueUpTo(rs, gamma, n) == rs[0] + gamma * PresentValueUpTo(rs[1..], gamma, n - 1)
  }

  lemma {:induction false} PresentValueUpToHead(rs: seq<real>, gamma: real, n: nat)
    requires 1 <= n <= |rs|
    ensures HeadSplit(rs, gamma, n)
  {
    if n == 1 {
      PresentValueUpToOne(rs, gamma);
    } else {
      PresentValueUpToHead(rs, gamma, n - 1);
      var tail := rs[1..];
      assert tail[n - 2] == rs[n - 1];
      PresentValueUpToLast(rs, gamma, n);
      PresentValueUpToLast(tail, gamma, n - 1);
      Regroup(PresentValueUpTo(rs, gamma, n), PresentValueUpTo(rs, gamma, n - 1),
              PresentValueUpTo(rs[1..], gamma, n - 1), rs[0], gamma,
              PresentValueUpTo(rs[1..], gamma, n - 2), Pow(gamma, n - 2), rs[n - 1], Pow(gamma, n - 1));
    }
  }

  lemma PresentValueUpToOne(rs: seq<real>, gamma: real)
    requires rs != []
    ensures HeadSplit(rs, gamma, 1)
  {
    assert PresentValueUpTo(rs, gamma, 1) == rs[0];
    assert PresentValueUpTo(rs[1..], gamma, 0) == 0.0;
  }

  /** The last of the first n terms split off. */
  ghost predicate LastSplit(rs: seq<real>, gamma: real, n: nat)
    requires 1 <= n <= |rs|
  {
    PresentValueUpTo(rs, gamma, n) == PresentValueUpTo(rs, gamma, n - 1) + Pow(gamma, n - 1) * rs[n - 1]
  }

  lemma PresentValueUpToLast(rs: seq<real>, gamma: real, n: nat)
    requires 1 <= n <= |rs|
    ensures LastSplit(rs, gamma, n)
    ensures n >= 2 ==> Pow(gamma, n - 1) == gamma * Pow(gamma, n - 2)
  {
  }

  /** The algebra behind PresentValueHead. */
  lemma Regroup(whole: real, init: real, tail: real, first: real, g: real, a: real, p: real, z: real, gp: real)
    requires tail == a + p * z && init == first + g * a
    requires whole == init + gp * z && gp == g * p
    ensures whole == first + g * tail
  {
    assert g * (a + p * z) == g * a + (g * p) * z;
  }

  /** Entry t of the discounted returns only depends on rewards t onwards. */
  lemma {:induction false} DiscountedSuffix(rs: seq<real>, gamma: real, t: nat)
    requires t < |rs|
    ensures Discounted(rs, gamma)[t] == Discounted(rs[t..], gamma)[0]
  {
    if t > 0 {
      DiscountedSuffix(rs[1..], gamma, t - 1);
      assert rs[1..][t - 1..] == rs[t..];
    }
  }

  lemma {:induction false} DiscountedHeadIsPresentValue(rs: seq<real>, gamma: real)
    requires rs != []
    ensures Discounted(rs, gamma)[0] == PresentValue(rs, gamma)
  {
    PresentValueHead(rs, gamma);
    if |rs| > 1 {
      DiscountedHeadIsPresentValue(rs[1..], gamma);
    }
  }

  /** Every entry of discount_reward's output is the present value of the
      rewards from that step to the end. */
  lemma DiscountedIsPresentValue(rs: seq<real>, gamma: real)
    ensures forall t :: 0 <= t < |rs| ==> Discounted(rs, gamma)[t] == PresentValue(rs[t..], gamma)
  {
    forall t | 0 <= t < |rs| ensures Discounted(rs, gamma)[t] == PresentValue(rs[t..], gamma) {
      DiscountedSuffix(rs, gamma, t);
      DiscountedHeadIsPresentValue(rs[t..], gamma);
    }
  }

  /** The last entry of the discounted returns is the last reward. */
  lemma {:induction false} DiscountedLast(rs: seq<real>, gamma: real)
    requires rs != []
    ensures Discounted(rs, gamma)[|rs| - 1] == rs[|rs| - 1]
  {
    if |rs| > 1 {
      DiscountedLast(rs[1..], gamma);
      assert Discounted(rs, gamma)[1..] == Discounted(rs[1..], gamma);
    }
  }

  /** Every earlier entry is the next entry times gamma plus its own reward. */
  lemma DiscountedRecurrence(rs: seq<real>, gamma: real, t: nat)
    requires t + 1 < |rs|
    ensures Discounted(rs, gamma)[t] == Discounted(rs, gamma)[t + 1] * gamma + rs[t]
  {
    DiscountedSuffix(rs, gamma, t);
    DiscountedSuffix(rs, gamma, t + 1);
    assert rs[t..][1..] == rs[t + 1..];
  }

  /** discount_reward([1, 2, 3], gamma = 0.5) == [2.75, 3.5, 3.0]. */
  lemma DiscountedExample()
    ensures Discounted([1.0, 2.0, 3.0], 0.5) == [2.75, 3.5, 3.0]
  {
    assert [1.0, 2.0, 3.0][1..] == [2.0, 3.0];
    assert [2.0, 3.0][1..] == [3.0];
    assert [3.0][1..] == [];
    assert Discounted([3.0], 0.5) == [3.0];
    assert Discounted([2.0, 3.0], 0.5) == [3.5, 3.0];
  }

  /** discount_reward: a backward loop over the rewards that carries the
      running sum and writes each entry of a zero-initialised array. */
  method DiscountReward(rewards: seq<real>, gamma: real) returns (out: seq<real>)
    ensures out == Discounted(rewards, gamma)
  {
    var n := |rewards|;
    var d := new real[n](_ => 0.0);
    var runningAdd := 0.0;
    var t := n;
    while t > 0
      invariant 0 <= t <= n
      invariant d[t..] == Discounted(rewards[t..], gamma)
      invariant runningAdd == if t == n then 0.0 else d[t]
    {
      t := t - 1;
      ghost var later := d[t + 1..];
      ghost var rs := rewards[t..];
      assert rs[1..] == rewards[t + 1..];
      assert Discounted(rs, gamma)[0] == (if later == [] then 0.0 else later[0]) * gamma + rewards[t];
      runningAdd := runningAdd * gamma + rewards[t];
      d[t] := runningAdd;
      assert d[t + 1..] == later;
      assert d[t..][1..] == Discounted(rs, gamma)[1..];
      SameHeadAndTail(d[t..], Discounted(rs, gamma));
    }
    assert rewards[0..] == rewards;
    out := d[..];
  }

  lemma SameHeadAndTail(a: seq<real>, b: seq<real>)
    requires |a| == |b| && 0 < |a| && a[0] == b[0] && a[1..] == b[1..]
    ensures a == b
  {
    assert forall i :: 0 < i < |a| ==> a[i] == a[1..][i - 1] && b[i] == b[1..][i - 1];
  }

  // ---------------------------------------------------------------------
  // select_action

  /** eps_threshold for the decay factor f = exp(-steps_done / EPS_DECAY). */
  function EpsThreshold(f: real): (eps: real)
    ensures 0.0 < f <= 1.0 ==> EpsEnd < eps <= EpsStart
  {
    EpsEnd + (EpsStart - EpsEnd) * f
  }

  /** torch.all(action < 0): the condition that rejects a draw. It holds of
      the empty vector, so an empty draw is never accepted. */
  predicate AllNegative(v: seq<real>)
  {
    forall i :: 0 <= i < |v| ==> v[i] < 0.0
  }

  /** The index of the first draw the rejection loop accepts, if any of these
      finitely many draws is accepted. */
  function FirstAccepted(draws: seq<seq<real>>): (r: Option<nat>)
    ensures r.Some? ==> r.value < |draws| && !AllNegative(draws[r.value])
    ensures r.Some? ==> forall j :: 0 <= j < r.value ==> AllNegative(draws[j])
    ensures r.None? <==> forall j :: 0 <= j < |draws| ==> AllNegative(draws[j])
  {
    if draws == [] then None
    else if !AllNegative(draws[0]) then Some(0)
    else
      match FirstAccepted(draws[1..])
      case None => None
      case Some(k) => Some(k + 1)
  }

  /** What dividing the clamped action by its sum produces: an allocation,
      or NaN in every coordinate when the clamped sum is zero. */
  datatype Normalised = Allocation(ratio: seq<real>) | ZeroSum

  /** action / torch.sum(action) for a non-negative vector of positive sum. */
  function Normalise(c: seq<real>): (r: seq<real>)
    requires NonNegative(c) && 0.0 < Sum(c)
    ensures |r| == |c| && IsAllocation(r)
    ensures forall i :: 0 <= i < |c| ==> r[i] == c[i] / Sum(c)
  {
    var s := Sum(c);
    var r := seq(|c|, i requires 0 <= i < |c| => c[i] / s);
    SumDivided(c, r, s);
    DivSelf(s);
    assert forall i :: 0 <= i < |c| ==> 0.0 <= r[i] by {
      forall i | 0 <= i < |c| ensures 0.0 <= r[i] {
        DivNonNegative(c[i], s);
      }
    }
    r
  }

  lemma DivSelf(s: real)
    requires s != 0.0
    ensures s / s == 1.0
  {
  }

  lemma DivNonNegative(x: real, s: real)
    requires 0.0 <= x && 0.0 < s
    ensures 0.0 <= x / s
  {
  }

  /** Clamping to [0, 1] leaves a positive coordinate exactly where the
      draw had one. */
  lemma PositiveAfterClamp(a: seq<real>)
    ensures var c := ClampAll(a, 0.0, 1.0);
            (exists i :: 0 <= i < |c| && 0.0 < c[i]) <==> (exists i :: 0 <= i < |a| && 0.0 < a[i])
  {
    var c := ClampAll(a, 0.0, 1.0);
    if exists i :: 0 <= i < |a| && 0.0 < a[i] {
      var i :| 0 <= i < |a| && 0.0 < a[i];
      assert 0.0 < c[i];
    }
  }

  /** torch.clamp(action, 0, 1) followed by the division by the sum. The
      result is an allocation exactly when the draw has a positive
      coordinate, proportional to the clamped draw. */
  function PostProcess(a: seq<real>): (r: Normalised)
    ensures r.Allocation? <==> exists i :: 0 <= i < |a| && 0.0 < a[i]
    ensures r.Allocation? ==> |r.ratio| == |a| && IsAllocation(r.ratio)
    ensures r.Allocation? ==> forall i :: 0 <= i < |a| ==> 0.0 <= r.ratio[i] <= 1.0
    ensures r.Allocation? ==> 0.0 < Sum(ClampAll(a, 0.0, 1.0)) && forall i :: 0 <= i < |a| ==>
              r.ratio[i] == ClampAll(a, 0.0, 1.0)[i] / Sum(ClampAll(a, 0.0, 1.0))
  {
    var c := ClampAll(a, 0.0, 1.0);
    SumNonNegative(c);
    PositiveAfterClamp(a);
    if Sum(c) == 0.0 then ZeroSum
    else
      var r := Normalise(c);
      AllocationBounded(r);
      Allocation(r)
  }

  /** No coordinate of an allocation exceeds one. */
  lemma {:induction false} AllocationBounded(r: seq<real>)
    requires IsAllocation(r)
    ensures forall i :: 0 <= i < |r| ==> r[i] <= 1.0
  {
    forall i | 0 <= i < |r| ensures r[i] <= 1.0 {
      RestNonNegative(r, i);
    }
  }

  /** One coordinate of a non-negative vector is at most its sum. */
  lemma {:induction false} RestNonNegative(r: seq<real>, i: nat)
    requires NonNegative(r) && i < |r|
    ensures r[i] <= Sum(r)
  {
    assert NonNegative(r[1..]) by {
      forall j | 0 <= j < |r[1..]| ensures 0.0 <= r[1..][j] {
        assert r[1..][j] == r[j + 1];
      }
    }
    if i == 0 {
      SumNonNegative(r[1..]);
    } else {
      RestNonNegative(r[1..], i - 1);
    }
  }

  /** The rejection loop lets [0, -1] through, yet its clamped sum is zero,
      so the division yields NaN rather than an allocation. */
  lemma ZeroSumAfterAcceptance()
    ensures !AllNegative([0.0, -1.0])
    ensures PostProcess([0.0, -1.0]) == ZeroSum
  {
    var a := [0.0, -1.0];
    assert !(0.0 < a[0]) && !(0.0 < a[1]);
  }

  /** What select_action returns: a processed sample taken from draw `index`,
      the hold rate, or nothing when none of the given draws is accepted (the
      source keeps sampling). */
  datatype Action = FromPolicy(index: nat, result: Normalised) | HoldRate(rate: seq<real>) | NoAcceptedDraw

  /** The outcome of sampling from the policy with these successive draws. */
  function SampledAction(draws: seq<seq<real>>): (a: Action)
    ensures a.NoAcceptedDraw? <==> forall j :: 0 <= j < |draws| ==> AllNegative(draws[j])
    ensures a.FromPolicy? ==> a.index < |draws| && !AllNegative(draws[a.index])
    ensures a.FromPolicy? ==> a.result == PostProcess(draws[a.index])
    ensures !a.HoldRate?
  {
    match FirstAccepted(draws)
    case None => NoAcceptedDraw
    case Some(k) => FromPolicy(k, PostProcess(draws[k]))
  }

  /** The sampling branch: draw until a draw is not all negative, then clamp
      and renormalise. */
  method SampleFromPolicy(draws: seq<seq<real>>) returns (a: Action)
    ensures a == SampledAction(draws)
  {
    var k := 0;
    while k < |draws| && AllNegative(draws[k])
      invariant k <= |draws|
      invariant forall j :: 0 <= j < k ==> AllNegative(draws[j])
    {
      k := k + 1;
    }
    if k == |draws| {
      return NoAcceptedDraw;
    }
    a := FromPolicy(k, PostProcess(draws[k]));
  }

  /** select_action(state1, state2, hold_rate, train). `draws` are the
      successive dist.sample() results, `u` is random.random() and `f` the
      decay factor for the current steps_done. Both with train and without,
      the action comes from the policy: when train holds, the condition
      `sample > eps_threshold or train` is true, so the hold rate is never
      returned. */
  method SelectAction(draws: seq<seq<real>>, holdRate: seq<real>, u: real, f: real, train: bool)
    returns (a: Action)
    ensures a == SampledAction(draws)
    ensures !a.HoldRate?
  {
    if !train {
      a := SampleFromPolicy(draws);
    } else {
      var sample := u;
      var epsThreshold := EpsThreshold(f);
      if sample > epsThreshold || train {
        a := SampleFromPolicy(draws);
      } else {
        a := HoldRate(holdRate);
      }
    }
  }

  // ---------------------------------------------------------------------
  // interactivate

  /** What one step of an episode draws on: the policy's samples, the
      uniform draw, the environment's hold rate, the log-probability of the
      chosen action, and the reward and done flag env.step returns. */
  datatype StepInput = StepInput(draws: seq<seq<real>>, u: real, holdRate: seq<real>,
                                 logProb: real, reward: real, done: bool)

  /** The step at which env.step first reports done. */
  function FirstDone(steps: seq<StepInput>): (k: nat)
    requires exists t :: 0 <= t < |steps| && steps[t].done
    ensures k < |steps| && steps[k].done
    ensures forall j :: 0 <= j < k ==> !steps[j].done
  {
    if steps[0].done then 0
    else
      assert exists t :: 0 <= t < |steps[1..]| && steps[1..][t].done by {
        var t :| 0 <= t < |steps| && steps[t].done;
        assert steps[1..][t - 1] == steps[t];
      }
      FirstDone(steps[1..]) + 1
  }

  /** An episode the loop can run: it ends, and at each of its steps some
      draw passes the rejection loop. */
  predicate WellFormedEpisode(steps: seq<StepInput>)
  {
    && (exists t :: 0 <= t < |steps| && steps[t].done)
    && forall t :: 0 <= t < |steps| ==> FirstAccepted(steps[t].draws).Some?
  }

  /** The number of steps, and of pushes, in an episode. */
  function EpisodeLength(steps: seq<StepInput>): (n: nat)
    requires WellFormedEpisode(steps)
    ensures 1 <= n <= |steps|
  {
    FirstDone(steps) + 1
  }

  function StepTransitions(steps: seq<StepInput>): (ts: seq<Transition>)
    ensures |ts| == |steps|
    ensures forall t :: 0 <= t < |steps| ==> ts[t] == Transition(steps[t].logProb, steps[t].reward)
  {
    seq(|steps|, t requires 0 <= t < |steps| => Transition(steps[t].logProb, steps[t].reward))
  }

  /** The episode after its first t steps: the buffer saw exactly their
      transitions and the actions are select_action's outcomes. */
  ghost predicate InteractSoFar(steps: seq<StepInput>, t: nat, pushed: seq<Transition>, actions: seq<Action>)
  {
    && t <= |steps|
    && pushed == StepTransitions(steps[..t])
    && |actions| == t
    && forall j :: 0 <= j < t ==> actions[j] == SampledAction(steps[j].draws)
  }

  /** One more step keeps InteractSoFar. */
  lemma InteractStep(steps: seq<StepInput>, t: nat, pushed: seq<Transition>, actions: seq<Action>, action: Action)
    requires t < |steps| && InteractSoFar(steps, t, pushed, actions)
    requires action == SampledAction(steps[t].draws)
    ensures InteractSoFar(steps, t + 1, pushed + [Transition(steps[t].logProb, steps[t].reward)], actions + [action])
  {
    assert steps[..t + 1] == steps[..t] + [steps[t]];
    assert StepTransitions(steps[..t + 1]) == StepTransitions(steps[..t]) + [Transition(steps[t].logProb, steps[t].reward)];
    assert forall j :: 0 <= j < t ==> (actions + [action])[j] == actions[j];
  }

  /** The loop body of interactivate: select an action, push the transition. */
  method Interact(steps: seq<StepInput>, t: nat, memory: ReplayMemory<Transition>, f: real, ghost actions: seq<Action>)
    returns (action: Action)
    requires t < |steps| && memory.Valid() && InteractSoFar(steps, t, memory.Pushed, actions)
    modifies memory
    ensures memory.Valid()
    ensures action == SampledAction(steps[t].draws)
    ensures memory.Pushed == old(memory.Pushed) + [Transition(steps[t].logProb, steps[t].reward)]
    ensures InteractSoFar(steps, t + 1, memory.Pushed, actions + [action])
  {
    action := SelectAction(steps[t].draws, steps[t].holdRate, steps[t].u, f, true);
    ghost var pushed := memory.Pushed;
    memory.Push(Transition(steps[t].logProb, steps[t].reward));
    InteractStep(steps, t, pushed, actions, action);
  }

  /** interactivate(env): one episode into a fresh ReplayMemory(3000), one
      push per step up to and including the step that reports done. */
  method Interactivate(steps: seq<StepInput>, f: real) returns (memory: ReplayMemory<Transition>, actions: seq<Action>)
    requires WellFormedEpisode(steps)
    ensures fresh(memory) && memory.Valid() && memory.capacity == Capacity
    ensures InteractSoFar(steps, EpisodeLength(steps), memory.Pushed, actions)
    ensures |memory.memory| == Min(EpisodeLength(steps), Capacity)
  {
    memory := new ReplayMemory(Capacity);
    actions := [];
    var t := 0;
    assert steps[..0] == [];
    while true
      invariant fresh(memory) && memory.Valid() && memory.capacity == Capacity
      invariant t <= FirstDone(steps)
      invariant InteractSoFar(steps, t, memory.Pushed, actions)
      decreases |steps| - t
    {
      var action := Interact(steps, t, memory, f, actions);
      actions := actions + [action];
      if steps[t].done {
        break;
      }
      t := t + 1;
    }
  }

  /** What an episode leaves in its buffer: the last min(N, 3000) of its N
      transitions, and every action came from the policy. */
  lemma InteractivateStores(steps: seq<StepInput>)
    requires WellFormedEpisode(steps)
    ensures var n := EpisodeLength(steps);
            var pushed := StepTransitions(steps[..n]);
            multiset(Fill(pushed, Capacity).slots) == multiset(pushed[n - Min(n, Capacity)..])
    ensures forall t :: 0 <= t < EpisodeLength(steps) ==> SampledAction(steps[t].draws).FromPolicy?
  {
    StoredAreLastPushes(StepTransitions(steps[..EpisodeLength(steps)]), Capacity);
  }

  // ---------------------------------------------------------------------
  // optimize_model and the main loop

  function Rewards(ts: seq<Transition>): (rs: seq<real>)
    ensures |rs| == |ts|
    ensures forall i :: 0 <= i < |ts| ==> rs[i] == ts[i].reward
  {
    seq(|ts|, i requires 0 <= i < |ts| => ts[i].reward)
  }

  /** optimize_model(memory, batch_size) up to the loss: sample a batch (the
      ValueError of random.sample when the buffer holds fewer), then discount
      the batch's rewards in sampled order with the default gamma. */
  method OptimizeModel(memory: ReplayMemory<Transition>, batchSize: nat, draw: nat -> nat)
    returns (batch: Result<seq<Transition>>, slots: seq<nat>, discounted: seq<real>)
    ensures batch.Ok? <==> batchSize <= |memory.memory|
    ensures batch.Ok? ==> |batch.value| == batchSize && |slots| == batchSize && Distinct(slots)
    ensures batch.Ok? ==> forall k :: 0 <= k < batchSize ==>
              slots[k] < |memory.memory| && batch.value[k] == memory.memory[slots[k]]
    ensures batch.Ok? ==> discounted == Discounted(Rewards(batch.value), DefaultGamma)
  {
    batch, slots := memory.Sample(batchSize, draw);
    if batch.Err? {
      return batch, slots, [];
    }
    discounted := DiscountReward(Rewards(batch.value), DefaultGamma);
  }

  /** One iteration of the main loop: a fresh buffer filled by interactivate,
      then optimize_model on it. The sample fails exactly when the episode was
      shorter than the batch; otherwise it reads 64 distinct slots of the
      ring this episode's transitions fill. */
  method TrainEpisode(steps: seq<StepInput>, f: real, draw: nat -> nat)
    returns (batch: Result<seq<Transition>>, slots: seq<nat>, discounted: seq<real>)
    requires WellFormedEpisode(steps)
    ensures batch.Ok? <==> BatchSize <= EpisodeLength(steps)
    ensures batch.Ok? ==> |batch.value| == BatchSize && |discounted| == BatchSize
    ensures batch.Ok? ==> |slots| == BatchSize && Distinct(slots)
    ensures batch.Ok? ==>
              var stored := Fill(StepTransitions(steps[..EpisodeLength(steps)]), Capacity).slots;
              forall k :: 0 <= k < BatchSize ==> slots[k] < |stored| && batch.value[k] == stored[slots[k]]
    ensures batch.Ok? ==> discounted == Discounted(Rewards(batch.value), DefaultGamma)
  {
    var memory, _ := Interactivate(steps, f);
    batch, slots, discounted := OptimizeModel(memory, BatchSize, draw);
  }

  /** The length of every episode of a run. */
  function EpisodeLengths(episodes: seq<seq<StepInput>>): (ls: seq<nat>)
    requires forall i :: 0 <= i < |episodes| ==> WellFormedEpisode(episodes[i])
    ensures |ls| == |episodes|
    ensures forall i :: 0 <= i < |episodes| ==> ls[i] == EpisodeLength(episodes[i])
  {
    seq(|episodes|, i requires 0 <= i < |episodes| => EpisodeLength(episodes[i]))
  }

  /** The main loop after i episodes of lengths ls: each was counted in
      steps_done, each stored at least a batch and each yielded a batch of
      discounted rewards. */
  ghost predicate TrainSoFar(ls: seq<nat>, i: nat, stepsDone: nat, discounts: seq<seq<real>>)
  {
    && i <= |ls| && stepsDone == i && |discounts| == i
    && (forall j :: 0 <= j < i ==> BatchSize <= ls[j])
    && (forall j :: 0 <= j < i ==> |discounts[j]| == BatchSize)
  }

  /** One more successful episode keeps TrainSoFar. */
  lemma TrainStep(ls: seq<nat>, i: nat, stepsDone: nat, discounts: seq<seq<real>>, d: seq<real>)
    requires TrainSoFar(ls, i, stepsDone, discounts) && i < |ls|
    requires BatchSize <= ls[i] && |d| == BatchSize
    ensures TrainSoFar(ls, i + 1, stepsDone + 1, discounts + [d])
  {
    assert forall j :: 0 <= j < i ==> (discounts + [d])[j] == discounts[j];
  }

  /** How the run ends: all episodes done, or random.sample's ValueError
      after an episode that stored fewer than 64 transitions. */
  datatype RunOutcome = Completed | SampleTooLarge(episode: nat)

  /** The main loop: interactivate, count the episode in steps_done, then
      optimise on a batch of 64. `decay(s)` stands for exp(-s / EPS_DECAY)
      and `sampleDraws(i)` for the randomness of episode i's sample. */
  method Train(episodes: seq<seq<StepInput>>, decay: nat -> real, sampleDraws: nat -> nat -> nat)
    returns (stepsDone: nat, discounts: seq<seq<real>>, outcome: RunOutcome)
    requires |episodes| == NumEpisodes
    requires forall i :: 0 <= i < |episodes| ==> WellFormedEpisode(episodes[i])
    ensures var ls := EpisodeLengths(episodes);
            outcome.Completed? <==> forall i :: 0 <= i < |episodes| ==> BatchSize <= ls[i]
    ensures outcome.Completed? ==> stepsDone == |episodes|
    ensures var ls := EpisodeLengths(episodes);
            outcome.SampleTooLarge? ==>
              && outcome.episode < |episodes|
              && ls[outcome.episode] < BatchSize
              && (forall j :: 0 <= j < outcome.episode ==> BatchSize <= ls[j])
              && stepsDone == outcome.episode + 1
    ensures |discounts| == (if outcome.Completed? then |episodes| else outcome.episode)
    ensures forall i :: 0 <= i < |discounts| ==> |discounts[i]| == BatchSize
  {
    ghost var ls := EpisodeLengths(episodes);
    stepsDone := 0;
    discounts := [];
    for i := 0 to |episodes|
      invariant TrainSoFar(ls, i, stepsDone, discounts)
    {
      var batch, slots, discounted := TrainEpisode(episodes[i], decay(stepsDone), sampleDraws(i));
      if batch.Err? {
        return stepsDone + 1, discounts, SampleTooLarge(i);
      }
      TrainStep(ls, i, stepsDone, discounts, discounted);
      stepsDone := stepsDone + 1;
      discounts := discounts + [discounted];
    }
    outcome := Completed;
  }
}
