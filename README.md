# Portfolio-policy training bookkeeping, verified

This project models the deterministic bookkeeping inside two PyTorch
training scripts for a portfolio-allocation agent. The model draws on
`algorithm/Pathwise_Derivative_Explore.py`, an actor-critic with pathwise
gradients, and `algorithm/PolicyGradient.py`, a REINFORCE-style policy
gradient. The networks, the market environment and the random number
generators are outside the model. Their outputs come in as parameters:
uniform draws, sampled action vectors, rewards, done flags, log-probabilities
and gradient arrays.

Modules:

- `Vectors` (`vectors.dfy`): coordinate sums, element-wise clamping, and
  what an allocation is (non-negative ratios summing to one).
- `Replay` (`replay.dfy`): the ring replay buffer `ReplayMemory`, which both
  scripts define with the same code.
  - The pure specification is `Fill`: the ring state that a sequence of
    pushes leaves behind.
  - The class `ReplayMemory` keeps the source's `memory` list and `position`
    cursor as fields. A ghost history of pushes ties them to `Fill`.
  - `Sample` draws without replacement; the random choices are a parameter.
- `PathwiseExplore` (`pathwise.dfy`): parts of the actor-critic script.
  - the two annealed exploration thresholds and the three-way choice of
    action source;
  - the process-wide `steps_done` counter, as the class `Explorer`;
  - the one-hot "random" allocation;
  - the in-place clamp of every gradient to [-10, 10];
  - `optimize_model` without its networks.
- `PathwiseTraining` (`pathwise_training.dfy`): the actor-critic main loop.
  - `RunTraining` builds one buffer of capacity 30000 and one step counter,
    and both live for the whole run of 50 episodes.
  - Each step selects an action and pushes the transition.
  - Two occupancy gates decide when to optimise and when to sync the
    target networks.
  - A checkpoint follows every second episode.
- `PolicyGradient` (`policy_gradient.dfy`): the policy-gradient script.
  - `discount_reward`, as an array loop proved equal to a recursive
    definition and to the present-value sum.
  - the rejection loop of `select_action`, with clamping and renormalising.
  - the train-mode branch of `select_action`, which always samples.
  - `interactivate`: one fresh `ReplayMemory(3000)` per episode.
  - the main loop, in which `steps_done` counts episodes.

The exponential decay `exp(-steps_done / EPS_DECAY)` is an abstract factor. In
`PathwiseExplore` it is a function `decay` with the properties of that
exponential (`IsExpDecay`: one at zero, in (0, 1], non-increasing, and
eventually below any positive bound). Real
numbers stand in for float tensors.

## Model

| member | source | states |
|---|---|---|
| Replay.ReplayMemory.constructor | algorithm/PolicyGradient.py:44-47 | a new buffer is empty, with the cursor at 0 and the given capacity |
| Replay.ReplayMemory.Push | algorithm/Pathwise_Derivative_Explore.py:49-54 | occupancy becomes min(old + 1, capacity) and the cursor (old + 1) mod capacity; the transition lands at the old cursor, every other slot is unchanged, and the buffer stays the ring image of all pushes |
| Replay.ReplayMemory.Len | algorithm/Pathwise_Derivative_Explore.py:59-60 | the length is min(number of pushes, capacity), so never above capacity |
| Replay.ReplayMemory.Sample | algorithm/Pathwise_Derivative_Explore.py:56-57 | succeeds exactly when batch_size <= len (otherwise random.sample's ValueError); returns batch_size transitions read from batch_size distinct in-range slots |
| Replay.PushRing | algorithm/Pathwise_Derivative_Explore.py:49-54 | the pure `push`: grow by one slot while below capacity, write the transition at the cursor, advance the cursor modulo capacity (its properties are PushRingFacts) |
| Replay.PushRingFacts | algorithm/PolicyGradient.py:49-54 | one push keeps occupancy <= capacity and the cursor in [0, capacity), writes only the old cursor slot, and grows the list only while below capacity |
| Replay.Fill | algorithm/PolicyGradient.py:49-54 | after N pushes into a fresh buffer: occupancy min(N, capacity), cursor N mod capacity, cursor at the end while filling |
| Replay.RingOverwrite | algorithm/Pathwise_Derivative_Explore.py:49-54 | each of the last min(N, capacity) pushes sits in slot (push index mod capacity) |
| Replay.FillingInOrder | algorithm/Pathwise_Derivative_Explore.py:51-53 | until the buffer is full, its slots are the pushes in order |
| Replay.FullSlot | algorithm/Pathwise_Derivative_Explore.py:53-54 | in a full buffer, slot i holds a given one of the last capacity pushes, read off relative to the cursor |
| Replay.StoredRotation | algorithm/Pathwise_Derivative_Explore.py:49-54 | a full buffer is the last capacity pushes rotated so that the cursor points at the oldest |
| Replay.StoredWhenFull | algorithm/PolicyGradient.py:49-54 | a full buffer holds exactly the last capacity pushes, as a multiset |
| Replay.StoredAreLastPushes | algorithm/PolicyGradient.py:49-54 | after N pushes the buffer holds exactly the last min(N, capacity) pushed transitions, as a multiset |
| Vectors.Clamp | algorithm/Pathwise_Derivative_Explore.py:117 | the result lies in [lo, hi], equals x when x is already inside, and is the nearer bound otherwise |
| Vectors.ClampAll | algorithm/PolicyGradient.py:71 | same length; every coordinate in [lo, hi]; in-range coordinates unchanged; the others set to the bound they crossed |
| Vectors.ClampAllIdempotent | algorithm/PolicyGradient.py:71 | clamping an already clamped vector changes nothing |
| Vectors.SumNonNegative | algorithm/PolicyGradient.py:72 | a non-negative vector has a non-negative sum, which is positive exactly when some coordinate is |
| PathwiseExplore.ThresholdLow | algorithm/Pathwise_Derivative_Explore.py:76 | for a decay factor in (0, 1] the low threshold lies in (0.1, 0.45], and is 0.45 at factor 1 |
| PathwiseExplore.ThresholdHigh | algorithm/Pathwise_Derivative_Explore.py:77 | for a decay factor in (0, 1] the high threshold lies in [0.55, 0.9), and is 0.55 at factor 1 |
| PathwiseExplore.ThresholdsOrdered | algorithm/Pathwise_Derivative_Explore.py:65-69 | low < high at every step count; as steps accumulate low never rises and high never falls; at steps_done = 0 they are 0.45 and 0.55 |
| PathwiseExplore.ThresholdsAnneal | algorithm/Pathwise_Derivative_Explore.py:76-77 | for every e > 0 there is a step count from which on the low threshold stays below 0.1 + e and the high one above 0.9 - e, so they anneal to EPS_END_LOW and EPS_END_HIG |
| PathwiseExplore.Decide | algorithm/Pathwise_Derivative_Explore.py:79-89 | policy exactly when low < u < high, hold rate exactly when u > high, and (given low < high) one-hot exactly when u <= low or u == high |
| PathwiseExplore.OneHot | algorithm/Pathwise_Derivative_Explore.py:85-89 | a vector of length n_actions with a single 1 at the drawn index and 0 elsewhere, hence an allocation |
| PathwiseExplore.ChosenAction | algorithm/Pathwise_Derivative_Explore.py:73-89 | the action is the actor's output exactly in the branch Decide calls PolicyAction (low < u < high), the hold rate in the HoldRate branch and the one-hot allocation in the RandomOneHot branch (including u == low and u == high); below the low threshold it is the one-hot vector, above the high one the hold rate |
| PathwiseExplore.FirstChoice | algorithm/Pathwise_Derivative_Explore.py:76-84 | at steps_done = 0 the policy is used exactly for 0.45 < u < 0.55, the hold rate for u > 0.55, the one-hot vector otherwise |
| PathwiseExplore.Explorer.constructor | algorithm/Pathwise_Derivative_Explore.py:70 | the counter starts at 0 |
| PathwiseExplore.Explorer.SelectAction | algorithm/Pathwise_Derivative_Explore.py:73-89 | thresholds use the count before the call; the count rises by exactly 1 whichever branch is taken; the action and its source are those of Decide and ChosenAction |
| PathwiseExplore.ClampInPlace | algorithm/Pathwise_Derivative_Explore.py:116-117 | the gradient array becomes its element-wise clamp to [-10, 10] |
| PathwiseExplore.ClampGradients | algorithm/Pathwise_Derivative_Explore.py:122-123 | every gradient array of the network is replaced by its clamp to [-10, 10] |
| PathwiseExplore.OptimizeModel | algorithm/Pathwise_Derivative_Explore.py:93-124 | the sample of 256 succeeds exactly when the buffer holds 256; then the batch is read from 256 distinct in-range slots of the buffer and both networks' gradients are clamped; on failure no gradient changes |
| PathwiseTraining.OptimizeDue | algorithm/Pathwise_Derivative_Explore.py:179 | the optimisation gate: occupancy at least 5 * BATCH_SIZE and t divisible by 3 |
| PathwiseTraining.SyncDue | algorithm/Pathwise_Derivative_Explore.py:181 | the target-sync gate: occupancy at least 5 * BATCH_SIZE and t divisible by 100 |
| PathwiseTraining.CheckpointDue | algorithm/Pathwise_Derivative_Explore.py:189 | the checkpoint gate: (episode + 1) divisible by TARGET_UPDATE = 2 |
| PathwiseTraining.GateStep | algorithm/Pathwise_Derivative_Explore.py:179-183 | optimisation exactly when len >= 5 * 256 and t % 3 == 0; target sync exactly when len >= 5 * 256 and t % 100 == 0; when optimisation happens the buffer holds at least 256 transitions, so its sample succeeds |
| PathwiseTraining.OptimizeInEpisode | algorithm/Pathwise_Derivative_Explore.py:179-180 | an episode optimises at step t exactly when t is one of its steps and the occupancy after push t passes the gate |
| PathwiseTraining.SyncInEpisode | algorithm/Pathwise_Derivative_Explore.py:181-183 | an episode syncs the targets at step t exactly when t is one of its steps and the gate opens |
| PathwiseTraining.NoCheckpointInEpisode | algorithm/Pathwise_Derivative_Explore.py:184-189 | no checkpoint is taken inside an episode's steps |
| PathwiseTraining.EpisodeGates | algorithm/Pathwise_Derivative_Explore.py:179-183 | the per-episode optimise/sync gates, for all steps, in both directions |
| PathwiseTraining.NoEventsBeforeWarmUp | algorithm/Pathwise_Derivative_Explore.py:179-181 | while the buffer holds fewer than 1280 transitions, neither optimisation nor sync happens |
| PathwiseTraining.TwoShortEpisodes | algorithm/Pathwise_Derivative_Explore.py:176-181 | on a fresh buffer of capacity 50 and a fresh counter, two ten-step episodes leave 10 then 20 transitions and produce no optimise or sync events |
| PathwiseTraining.EpisodeStep | algorithm/Pathwise_Derivative_Explore.py:168-183 | one more step extends the taken actions, the pushed transitions, the counter and the gate events consistently |
| PathwiseTraining.Step | algorithm/Pathwise_Derivative_Explore.py:169-183 | select, then push (state, action, next state, reward), then the gates; counter + 1, one transition appended |
| PathwiseTraining.RunEpisode | algorithm/Pathwise_Derivative_Explore.py:168-187 | after the episode, the actions are select_action's choices with consecutive counter values, the buffer saw exactly the episode's transitions appended, and the gates fired as EpisodeEvents says |
| PathwiseTraining.RunGates | algorithm/Pathwise_Derivative_Explore.py:165-189 | episode i optimises and syncs exactly at its gated steps, counting the pushes of all earlier episodes, and checkpoints exactly when (i + 1) % 2 == 0 |
| PathwiseTraining.Train | algorithm/Pathwise_Derivative_Explore.py:165-192 | after the run, pushes and counter grew by the total number of steps, and episode i's log is EpisodeLog i |
| PathwiseTraining.RunTraining | algorithm/Pathwise_Derivative_Explore.py:160-192 | 50 episodes on one fresh buffer of capacity 30000 and one fresh counter: occupancy ends at min(total steps, 30000), the counter at the total steps, and each episode's log is EpisodeLog from an empty buffer |
| PolicyGradient.Discounted | algorithm/PolicyGradient.py:111-113 | the recursive definition of the discounted returns, one entry per reward (its properties are DiscountedLast, DiscountedRecurrence and DiscountedIsPresentValue) |
| PolicyGradient.DiscountReward | algorithm/PolicyGradient.py:107-114 | the backward array loop returns exactly the discounted returns |
| PolicyGradient.DiscountedLast | algorithm/PolicyGradient.py:110-113 | the last discounted return is the last reward |
| PolicyGradient.DiscountedRecurrence | algorithm/PolicyGradient.py:111-113 | every earlier entry is the next entry times gamma plus its own reward |
| PolicyGradient.DiscountedIsPresentValue | algorithm/PolicyGradient.py:107-114 | entry t is the sum over k of gamma^k times reward t + k |
| PolicyGradient.PresentValueHead | algorithm/PolicyGradient.py:112 | the present value is the first reward plus gamma times the present value of the rest |
| PolicyGradient.DiscountedExample | algorithm/PolicyGradient.py:111-113 | discount_reward([1, 2, 3], 0.5) is [2.75, 3.5, 3.0] |
| PolicyGradient.EpsThreshold | algorithm/PolicyGradient.py:76 | for a decay factor in (0, 1], eps_threshold lies in (0.05, 0.99] |
| PolicyGradient.AllNegative | algorithm/PolicyGradient.py:69 | `torch.all(action < 0)`: every coordinate strictly negative, so the draw is rejected (true of the empty vector) |
| PolicyGradient.FirstAccepted | algorithm/PolicyGradient.py:79-80 | the accepted draw is the first that is not all strictly negative; none is accepted exactly when all are |
| PolicyGradient.Normalise | algorithm/PolicyGradient.py:82 | dividing a non-negative vector of positive sum by its sum gives coordinates c[i] / sum that form an allocation |
| PolicyGradient.PostProcess | algorithm/PolicyGradient.py:81-82 | clamp then divide gives an allocation exactly when the draw has a positive coordinate; it has every coordinate in [0, 1] and is proportional to the clamped draw; otherwise the sum is zero (NaN) |
| PolicyGradient.ZeroSumAfterAcceptance | algorithm/PolicyGradient.py:79-82 | the draw [0, -1] passes the rejection test yet its clamped sum is zero |
| PolicyGradient.SampledAction | algorithm/PolicyGradient.py:78-82 | the result is the post-processed first accepted draw, never the hold rate, and none exactly when every draw is rejected |
| PolicyGradient.SampleFromPolicy | algorithm/PolicyGradient.py:68-72 | the while loop returns SampledAction of the draws |
| PolicyGradient.SelectAction | algorithm/PolicyGradient.py:63-85 | with and without train the result is SampledAction; the hold rate is never returned |
| PolicyGradient.Interact | algorithm/PolicyGradient.py:95-100 | one step selects the sampled action and appends exactly its (log_prob, reward) |
| PolicyGradient.Interactivate | algorithm/PolicyGradient.py:88-104 | a fresh buffer of capacity 3000 receives one push per step up to and including the first done step; it holds min(episode length, 3000) transitions and every action is the sampled one |
| PolicyGradient.InteractivateStores | algorithm/PolicyGradient.py:90-102 | the episode's buffer holds exactly its last min(N, 3000) transitions, and every action came from the policy |
| PolicyGradient.OptimizeModel | algorithm/PolicyGradient.py:117-123 | the sample succeeds exactly when the buffer holds batch_size; the batch is read from batch_size distinct in-range slots and its rewards are discounted with gamma 0.04 / 250 |
| PolicyGradient.TrainEpisode | algorithm/PolicyGradient.py:146-148 | optimisation after an episode succeeds exactly when the episode lasted at least 64 steps; the batch is then 64 transitions read from distinct slots of the ring that this episode's own transitions fill in a fresh buffer of 3000, and its rewards are discounted |
| PolicyGradient.Train | algorithm/PolicyGradient.py:144-148 | over its 100 episodes, the run completes exactly when every episode lasts at least 64 steps, otherwise it stops at the first shorter one; steps_done counts episodes, one per episode |

## Left out

- Networks, optimisers, `backward`, the loss formulas and `smooth_l1_loss`.
  These are floating-point library calls. Also left out is the operation
  order `(Q_target + r) * GAMMA` in the critic's target. Gradients enter
  `OptimizeModel` as arrays that the backward pass has already produced.
- `MultivariateNormal`, its covariance construction (an element-wise
  product) and `log_prob`. The samples and log-probabilities are inputs.
- `math.exp`, `random.random`, `np.random.randint` and `random.sample`'s
  internal algorithm. They are abstract factors, draw parameters and a pool
  algorithm with the same without-replacement guarantee.
- `df_preprocess`, `MarketEnv` (`reset`, `step`, `render`, `next_rate`),
  `test_interact`, `torch.save`, plotting and printing. These are I/O and
  the external environment.
- IEEE float rounding. Reals are used throughout. The NaN produced by
  dividing a zero clamped sum is the explicit outcome `ZeroSum`. It is
  possible because the rejection loop tests `< 0` and not `<= 0`, and the
  model follows that code.
- PolicyGradient.SampleFromPolicy: sampling until a draw is accepted is
  modelled over a finite sequence of draws. When none is accepted the
  result is `NoAcceptedDraw`, where the source would keep sampling.
  `WellFormedEpisode` therefore asks that every step has an accepted draw.
- PolicyGradient.Interactivate: an episode is a finite sequence of step
  inputs that contains a done step; an environment that never reports done
  is not modelled.
- PolicyGradient.Train: the discounted batches are stated only by their
  length; their content is stated per episode by TrainEpisode. The loss on
  them is not modelled.
- PolicyGradient.TrainEpisode: `steps_done += 1` sits between
  `interactivate` and `optimize_model` in the source; Train increments it
  after TrainEpisode. optimize_model does not read it, so the states agree.
- PathwiseTraining.Train: its contract gives the total pushes and the
  per-episode logs; the content of each episode's pushes is stated by
  RunEpisode.
- `EPS_DECAY` and the actor-critic's `GAMMA` are not constants of the model:
  the first only enters through the abstract `decay`, the second only
  through the loss, which is left out.
- Replay.ReplayMemory.constructor: a capacity of zero is excluded. The
  source fails on the first push in that case.
