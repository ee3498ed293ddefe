/** The training loop of the actor-critic script: for every episode, step
    until the environment reports done, pushing each transition into the one
    replay buffer of the run; optimise and sync the target networks at the
    steps the occupancy gates allow; save and evaluate after every second
    episode. */
module PathwiseTraining {
  import opened Replay
  import opened PathwiseExplore

  const MemoryCapacity: nat := 30000
  const NumEpisodes: nat := 50
  const TargetUpdate: nat := 2
  /** Occupancy the buffer needs before any optimisation or target sync:
      5 * BATCH_SIZE = 5 * 256. */
  const WarmUp: nat := 1280
  const OptimizeEvery: nat := 3
  const SyncEvery: nat := 100

  /** What the training loop triggers besides pushing transitions. */
  datatype Event = Optimize(episode: nat, t: nat) | SyncTargets(episode: nat, t: nat) | Checkpoint(episode: nat)

  /** The warm-up occupancy is five batches, as `BATCH_SIZE * 5` in the gates.
      (The literal keeps the gate proofs linear.) */
  lemma WarmUpIsFiveBatches()
    ensures WarmUp == 5 * BatchSize
  {
  }

  /** The gate in front of optimize_model at step t of an episode. */
  predicate OptimizeDue(occupancy: nat, t: nat)
  {
    occupancy >= WarmUp && t % OptimizeEvery == 0
  }

  /** The gate in front of the hard copy into the target networks. */
  predicate SyncDue(occupancy: nat, t: nat)
  {
    occupancy >= WarmUp && t % SyncEvery == 0
  }

  /** The gate in front of saving and evaluating after an episode. */
  predicate CheckpointDue(episode: nat)
  {
    (episode + 1) % TargetUpdate == 0
  }

  /** The events of step t, once the push has brought the buffer to `occupancy`. */
  function StepEvents(episode: nat, t: nat, occupancy: nat): seq<Event>
  {
    (if OptimizeDue(occupancy, t) then [Optimize(episode, t)] else [])
    + (if SyncDue(occupancy, t) then [SyncTargets(episode, t)] else [])
  }

  /** The events of the first `steps` steps of an episode that starts after
      `before` earlier pushes into a buffer of this capacity. */
  function EpisodeEvents(episode: nat, before: nat, capacity: nat, steps: nat): seq<Event>
  {
    if steps == 0 then []
    else EpisodeEvents(episode, before, capacity, steps - 1)
         + StepEvents(episode, steps - 1, Min(before + steps, capacity))
  }

  lemma EpisodeEventsStep(episode: nat, before: nat, capacity: nat, t: nat)
    ensures EpisodeEvents(episode, before, capacity, t + 1) ==
            EpisodeEvents(episode, before, capacity, t) + StepEvents(episode, t, Min(before + t + 1, capacity))
  {
  }

  /** The single-event facts behind EpisodeGates. */
  lemma {:induction false} OptimizeInEpisode(episode: nat, before: nat, capacity: nat, steps: nat, k: nat, t: nat)
    ensures Optimize(k, t) in EpisodeEvents(episode, before, capacity, steps) <==>
              k == episode && t < steps && OptimizeDue(Min(before + t + 1, capacity), t)
  {
    if steps > 0 {
      OptimizeInEpisode(episode, before, capacity, steps - 1, k, t);
    }
  }

  lemma {:induction false} SyncInEpisode(episode: nat, before: nat, capacity: nat, steps: nat, k: nat, t: nat)
    ensures SyncTargets(k, t) in EpisodeEvents(episode, before, capacity, steps) <==>
              k == episode && t < steps && SyncDue(Min(before + t + 1, capacity), t)
  {
    if steps > 0 {
      SyncInEpisode(episode, before, capacity, steps - 1, k, t);
    }
  }

  lemma {:induction false} NoCheckpointInEpisode(episode: nat, before: nat, capacity: nat, steps: nat, k: nat)
    ensures Checkpoint(k) !in EpisodeEvents(episode, before, capacity, steps)
  {
    if steps > 0 {
      NoCheckpointInEpisode(episode, before, capacity, steps - 1, k);
    }
  }

  /** Optimisation runs at step t exactly when the buffer, after that step's
      push, holds at least 5 * 256 transitions and t is a multiple of 3; the
      target sync likewise with 100; no checkpoint happens inside an episode. */
  lemma EpisodeGates(episode: nat, before: nat, capacity: nat, steps: nat)
    ensures forall t: nat :: Optimize(episode, t) in EpisodeEvents(episode, before, capacity, steps) <==>
              t < steps && OptimizeDue(Min(before + t + 1, capacity), t)
    ensures forall t: nat :: SyncTargets(episode, t) in EpisodeEvents(episode, before, capacity, steps) <==>
              t < steps && SyncDue(Min(before + t + 1, capacity), t)
    ensures forall k: nat :: Checkpoint(k) !in EpisodeEvents(episode, before, capacity, steps)
  {
    forall t: nat ensures Optimize(episode, t) in EpisodeEvents(episode, before, capacity, steps) <==>
        t < steps && OptimizeDue(Min(before + t + 1, capacity), t) {
      OptimizeInEpisode(episode, before, capacity, steps, episode, t);
    }
    forall t: nat ensures SyncTargets(episode, t) in EpisodeEvents(episode, before, capacity, steps) <==>
        t < steps && SyncDue(Min(before + t + 1, capacity), t) {
      SyncInEpisode(episode, before, capacity, steps, episode, t);
    }
    forall k: nat ensures Checkpoint(k) !in EpisodeEvents(episode, before, capacity, steps) {
      NoCheckpointInEpisode(episode, before, capacity, steps, k);
    }
  }

  /** While the buffer is below 5 * 256 transitions nothing but pushing happens. */
  lemma {:induction false} NoEventsBeforeWarmUp(episode: nat, before: nat, capacity: nat, steps: nat)
    requires before + steps < WarmUp || capacity < WarmUp
    ensures EpisodeEvents(episode, before, capacity, steps) == []
  {
    if steps > 0 {
      NoEventsBeforeWarmUp(episode, before, capacity, steps - 1);
    }
  }

  /** What the environment and the networks supply during one episode:
      states[t] is the state at step t (states[t + 1] the one env.step
      returns), draws[t] the inputs of select_action, rewards[t] the reward.
      The episode ends (done) after the last draw. */
  datatype EpisodeInput<S> = EpisodeInput(states: seq<S>, draws: seq<Draw>, rewards: seq<real>)

  predicate WellFormedEpisode<S>(e: EpisodeInput<S>, nActions: nat)
  {
    && 1 <= |e.draws|
    && |e.states| == |e.draws| + 1
    && |e.rewards| == |e.draws|
    && forall t :: 0 <= t < |e.draws| ==> e.draws[t].randomIndex < nActions
  }

  /** The transitions an episode pushes, given the action taken at each step. */
  function EpisodeTransitions<S>(e: EpisodeInput<S>, actions: seq<seq<real>>): (ts: seq<Transition<S>>)
    requires |actions| < |e.states| && |actions| <= |e.rewards|
    ensures |ts| == |actions|
    ensures forall t :: 0 <= t < |actions| ==> ts[t] == Transition(e.states[t], actions[t], e.states[t + 1], e.rewards[t])
  {
    seq(|actions|, t requires 0 <= t < |actions| => Transition(e.states[t], actions[t], e.states[t + 1], e.rewards[t]))
  }

  /** Taking one more action appends its transition. */
  lemma TransitionsAppend<S>(e: EpisodeInput<S>, actions: seq<seq<real>>, action: seq<real>)
    requires |actions| + 1 < |e.states| && |actions| < |e.rewards|
    ensures EpisodeTransitions(e, actions + [action]) ==
            EpisodeTransitions(e, actions) + [Transition(e.states[|actions|], action, e.states[|actions| + 1], e.rewards[|actions|])]
  {
  }

  /** The two gates after the push at step t. A gated optimisation starts by
      sampling a full batch, which the gate guarantees is available.
      `sampleDraw` is the randomness of that sample. */
  method GateStep<S>(episode: nat, t: nat, memory: ReplayMemory<Transition<S>>, sampleDraw: nat -> nat)
    returns (events: seq<Event>)
    requires memory.Valid()
    ensures events == StepEvents(episode, t, memory.Len())
    ensures Optimize(episode, t) in events <==> memory.Len() >= WarmUp && t % OptimizeEvery == 0
    ensures SyncTargets(episode, t) in events <==> memory.Len() >= WarmUp && t % SyncEvery == 0
    ensures Optimize(episode, t) in events ==> BatchSize <= memory.Len()
  {
    events := [];
    if memory.Len() >= WarmUp && t % OptimizeEvery == 0 {
      var batch, _ := memory.Sample(BatchSize, sampleDraw);
      assert batch.Ok?;
      events := events + [Optimize(episode, t)];
    }
    if memory.Len() >= WarmUp && t % SyncEvery == 0 {
      events := events + [SyncTargets(episode, t)];
    }
  }

  /** The state of an episode after its first t steps: the actions taken so
      far are select_action's choices with the counter at steps0 + k, the
      buffer saw pushed0 and then exactly those transitions, the counter grew
      by t, and the gates fired as EpisodeEvents says. */
  ghost predicate EpisodeSoFar<S>(e: EpisodeInput<S>, decay: nat -> real, nActions: nat, episode: nat,
                                  pushed0: seq<Transition<S>>, steps0: nat, capacity: nat, t: nat,
                                  pushed: seq<Transition<S>>, stepsDone: nat, actions: seq<seq<real>>, events: seq<Event>)
    requires WellFormedEpisode(e, nActions)
  {
    && t <= |e.draws|
    && |actions| == t
    && (forall k :: 0 <= k < t ==> actions[k] == ChosenAction(e.draws[k], decay(steps0 + k), nActions))
    && pushed == pushed0 + EpisodeTransitions(e, actions)
    && stepsDone == steps0 + t
    && events == EpisodeEvents(episode, |pushed0|, capacity, t)
  }

  /** One more step keeps EpisodeSoFar. */
  lemma EpisodeStep<S>(e: EpisodeInput<S>, decay: nat -> real, nActions: nat, episode: nat,
                       pushed0: seq<Transition<S>>, steps0: nat, capacity: nat, t: nat,
                       pushed: seq<Transition<S>>, stepsDone: nat, actions: seq<seq<real>>, events: seq<Event>,
                       action: seq<real>, stepEvents: seq<Event>)
    requires WellFormedEpisode(e, nActions) && t < |e.draws|
    requires EpisodeSoFar(e, decay, nActions, episode, pushed0, steps0, capacity, t, pushed, stepsDone, actions, events)
    requires action == ChosenAction(e.draws[t], decay(stepsDone), nActions)
    requires stepEvents == StepEvents(episode, t, Min(|pushed| + 1, capacity))
    ensures EpisodeSoFar(e, decay, nActions, episode, pushed0, steps0, capacity, t + 1,
                         pushed + [Transition(e.states[t], action, e.states[t + 1], e.rewards[t])],
                         stepsDone + 1, actions + [action], events + stepEvents)
  {
    var actions' := actions + [action];
    var tr := Transition(e.states[t], action, e.states[t + 1], e.rewards[t]);
    TransitionsAppend(e, actions, action);
    assert pushed + [tr] == pushed0 + (EpisodeTransitions(e, actions) + [tr]);
    assert forall k :: 0 <= k < t ==> actions'[k] == actions[k];
    assert |pushed| == |pushed0| + t;
    EpisodeEventsStep(episode, |pushed0|, capacity, t);
  }

  /** Step t of an episode: select an action in the current state, push the
      transition to the state env.step returned, then the two gates. The
      ghost parameters carry the episode so far. */
  method Step<S>(episode: nat, e: EpisodeInput<S>, t: nat, memory: ReplayMemory<Transition<S>>, explorer: Explorer,
                 decay: nat -> real, nActions: nat, sampleDraw: nat -> nat,
                 ghost pushed0: seq<Transition<S>>, ghost steps0: nat, actions: seq<seq<real>>, events: seq<Event>)
    returns (action: seq<real>, stepEvents: seq<Event>)
    requires WellFormedEpisode(e, nActions) && t < |e.draws| && memory.Valid()
    requires EpisodeSoFar(e, decay, nActions, episode, pushed0, steps0, memory.capacity, t,
                          memory.Pushed, explorer.stepsDone, actions, events)
    modifies memory, explorer
    ensures memory.Valid()
    ensures action == ChosenAction(e.draws[t], decay(old(explorer.stepsDone)), nActions)
    ensures memory.Pushed == old(memory.Pushed) + [Transition(e.states[t], action, e.states[t + 1], e.rewards[t])]
    ensures explorer.stepsDone == old(explorer.stepsDone) + 1
    ensures stepEvents == StepEvents(episode, t, Min(|old(memory.Pushed)| + 1, memory.capacity))
    ensures EpisodeSoFar(e, decay, nActions, episode, pushed0, steps0, memory.capacity, t + 1,
                         memory.Pushed, explorer.stepsDone, actions + [action], events + stepEvents)
  {
    ghost var pushed, stepsDone := memory.Pushed, explorer.stepsDone;
    var source;
    action, source := explorer.SelectAction(e.draws[t], decay, nActions);
    memory.Push(Transition(e.states[t], action, e.states[t + 1], e.rewards[t]));
    stepEvents := GateStep(episode, t, memory, sampleDraw);
    assert memory.Len() == Min(|pushed| + 1, memory.capacity);
    EpisodeStep(e, decay, nActions, episode, pushed0, steps0, memory.capacity, t,
                pushed, stepsDone, actions, events, action, stepEvents);
  }

  /** The body of `for t in count()` until done. `sampleDraws(t)` is the
      randomness of the sample taken at step t; `actions[t]` is what
      select_action returned at step t. */
  method RunEpisode<S>(episode: nat, e: EpisodeInput<S>, memory: ReplayMemory<Transition<S>>, explorer: Explorer,
                       decay: nat -> real, nActions: nat, sampleDraws: nat -> nat -> nat)
    returns (actions: seq<seq<real>>, events: seq<Event>)
    requires WellFormedEpisode(e, nActions) && memory.Valid()
    modifies memory, explorer
    ensures memory.Valid()
    ensures EpisodeSoFar(e, decay, nActions, episode, old(memory.Pushed), old(explorer.stepsDone), memory.capacity, |e.draws|,
                         memory.Pushed, explorer.stepsDone, actions, events)
  {
    ghost var pushed0 := memory.Pushed;
    ghost var steps0 := explorer.stepsDone;
    actions := [];
    events := [];
    for t := 0 to |e.draws|
      invariant memory.Valid()
      invariant EpisodeSoFar(e, decay, nActions, episode, pushed0, steps0, memory.capacity, t,
                             memory.Pushed, explorer.stepsDone, actions, events)
    {
      var action, stepEvents := Step(episode, e, t, memory, explorer, decay, nActions, sampleDraws(t),
                                     pushed0, steps0, actions, events);
      actions := actions + [action];
      events := events + stepEvents;
    }
  }

  /** The total number of steps of episodes of these lengths. */
  function Total(lengths: seq<nat>): nat
  {
    if lengths == [] then 0 else Total(lengths[..|lengths| - 1]) + lengths[|lengths| - 1]
  }

  function Lengths<S>(episodes: seq<EpisodeInput<S>>): (ls: seq<nat>)
    ensures |ls| == |episodes|
    ensures forall i :: 0 <= i < |episodes| ==> ls[i] == |episodes[i].draws|
  {
    seq(|episodes|, i requires 0 <= i < |episodes| => |episodes[i].draws|)
  }

  /** What episode i of a run logs, when the buffer already saw `before`
      pushes when the run started: its gated steps, then a checkpoint if
      (i + 1) % 2 == 0. The buffer lives for the whole run, so the occupancy
      counts the pushes of all earlier episodes too. */
  function EpisodeLog(lengths: seq<nat>, before: nat, capacity: nat, i: nat): seq<Event>
    requires i < |lengths|
  {
    EpisodeEvents(i, before + Total(lengths[..i]), capacity, lengths[i])
    + (if CheckpointDue(i) then [Checkpoint(i)] else [])
  }

  /** Episode i of a run optimises and syncs exactly at the steps whose gates
      open, and it ends with a checkpoint exactly when (i + 1) % 2 == 0. */
  lemma RunGates(lengths: seq<nat>, before: nat, capacity: nat, i: nat)
    requires i < |lengths|
    ensures forall k: nat, t: nat :: Optimize(k, t) in EpisodeLog(lengths, before, capacity, i) <==>
              k == i && t < lengths[i] && OptimizeDue(Min(before + Total(lengths[..i]) + t + 1, capacity), t)
    ensures forall k: nat, t: nat :: SyncTargets(k, t) in EpisodeLog(lengths, before, capacity, i) <==>
              k == i && t < lengths[i] && SyncDue(Min(before + Total(lengths[..i]) + t + 1, capacity), t)
    ensures forall k: nat :: Checkpoint(k) in EpisodeLog(lengths, before, capacity, i) <==>
              k == i && CheckpointDue(i)
  {
    var start := before + Total(lengths[..i]);
    var b := EpisodeEvents(i, start, capacity, lengths[i]);
    var c := if CheckpointDue(i) then [Checkpoint(i)] else [];
    forall k: nat, t: nat ensures Optimize(k, t) in b + c <==>
        k == i && t < lengths[i] && OptimizeDue(Min(start + t + 1, capacity), t) {
      OptimizeInEpisode(i, start, capacity, lengths[i], k, t);
    }
    forall k: nat, t: nat ensures SyncTargets(k, t) in b + c <==>
        k == i && t < lengths[i] && SyncDue(Min(start + t + 1, capacity), t) {
      SyncInEpisode(i, start, capacity, lengths[i], k, t);
    }
    forall k: nat ensures Checkpoint(k) in b + c <==> k == i && CheckpointDue(i) {
      NoCheckpointInEpisode(i, start, capacity, lengths[i], k);
    }
  }

  /** The state of a run after its first i episodes. */
  ghost predicate RunSoFar(lengths: seq<nat>, n0: nat, s0: nat, capacity: nat, i: nat,
                           pushed: nat, stepsDone: nat, logs: seq<seq<Event>>)
  {
    && i <= |lengths|
    && pushed == n0 + Total(lengths[..i])
    && stepsDone == s0 + Total(lengths[..i])
    && |logs| == i
    && forall k :: 0 <= k < i ==> logs[k] == EpisodeLog(lengths, n0, capacity, k)
  }

  /** One more episode keeps RunSoFar. */
  lemma RunStep(lengths: seq<nat>, n0: nat, s0: nat, capacity: nat, i: nat,
                pushed: nat, stepsDone: nat, logs: seq<seq<Event>>, events: seq<Event>)
    requires i < |lengths| && RunSoFar(lengths, n0, s0, capacity, i, pushed, stepsDone, logs)
    requires events == EpisodeEvents(i, pushed, capacity, lengths[i])
    ensures RunSoFar(lengths, n0, s0, capacity, i + 1, pushed + lengths[i], stepsDone + lengths[i],
                     logs + [events + (if CheckpointDue(i) then [Checkpoint(i)] else [])])
  {
    var prefix := lengths[..i + 1];
    assert prefix[..|prefix| - 1] == lengths[..i];
    assert Total(prefix) == Total(lengths[..i]) + lengths[i];
    var logs' := logs + [events + (if CheckpointDue(i) then [Checkpoint(i)] else [])];
    assert logs'[i] == EpisodeLog(lengths, n0, capacity, i);
    forall k | 0 <= k < i
      ensures logs'[k] == EpisodeLog(lengths, n0, capacity, k)
    {
      assert logs'[k] == logs[k];
    }
  }

  /** The main loop: run every episode, then save and evaluate after every
      second one. The buffer and the step counter live for the whole run;
      `logs[i]` is what episode i triggered and `sampleDraws(i)` the
      randomness of episode i's samples. */
  method Train<S>(episodes: seq<EpisodeInput<S>>, memory: ReplayMemory<Transition<S>>, explorer: Explorer,
                  decay: nat -> real, nActions: nat, sampleDraws: nat -> nat -> nat -> nat)
    returns (logs: seq<seq<Event>>)
    requires forall i :: 0 <= i < |episodes| ==> WellFormedEpisode(episodes[i], nActions)
    requires memory.Valid()
    modifies memory, explorer
    ensures memory.Valid()
    ensures RunSoFar(Lengths(episodes), |old(memory.Pushed)|, old(explorer.stepsDone), memory.capacity, |episodes|,
                     |memory.Pushed|, explorer.stepsDone, logs)
  {
    ghost var n0 := |memory.Pushed|;
    ghost var s0 := explorer.stepsDone;
    ghost var ls := Lengths(episodes);
    logs := [];
    for i := 0 to |episodes|
      invariant memory.Valid()
      invariant RunSoFar(ls, n0, s0, memory.capacity, i, |memory.Pushed|, explorer.stepsDone, logs)
    {
      ghost var pushed, stepsDone := |memory.Pushed|, explorer.stepsDone;
      var _, events := RunEpisode(i, episodes[i], memory, explorer, decay, nActions, sampleDraws(i));
      RunStep(ls, n0, s0, memory.capacity, i, pushed, stepsDone, logs, events);
      if (i + 1) % TargetUpdate == 0 {
        events := events + [Checkpoint(i)];
      }
      logs := logs + [events];
    }
  }

  /** The script's run: a fresh ReplayMemory(30000), steps_done = 0, then the
      main loop over the 50 episodes. Returns the final occupancy and step
      count. */
  method RunTraining<S>(episodes: seq<EpisodeInput<S>>, decay: nat -> real, nActions: nat,
                        sampleDraws: nat -> nat -> nat -> nat)
    returns (occupancy: nat, stepsDone: nat, logs: seq<seq<Event>>)
    requires |episodes| == NumEpisodes
    requires forall i :: 0 <= i < |episodes| ==> WellFormedEpisode(episodes[i], nActions)
    ensures var total := Total(Lengths(episodes));
            occupancy == Min(total, MemoryCapacity) && stepsDone == total
    ensures |logs| == NumEpisodes
    ensures forall i :: 0 <= i < NumEpisodes ==> logs[i] == EpisodeLog(Lengths(episodes), 0, MemoryCapacity, i)
  {
    var memory := new ReplayMemory<Transition<S>>(MemoryCapacity);
    var explorer := new Explorer();
    logs := Train(episodes, memory, explorer, decay, nActions, sampleDraws);
    occupancy, stepsDone := memory.Len(), explorer.stepsDone;
    ghost var ls := Lengths(episodes);
    assert ls[..|ls|] == ls;
  }

  /** Two episodes of ten steps into a fresh buffer of capacity 50: after them
      the buffer holds 10 and then 20 transitions, and neither episode
      optimises or syncs. */
  method TwoShortEpisodes<S>(e1: EpisodeInput<S>, e2: EpisodeInput<S>, decay: nat -> real, nActions: nat,
                             sampleDraws: nat -> nat -> nat)
    returns (len1: nat, len2: nat, events1: seq<Event>, events2: seq<Event>)
    requires WellFormedEpisode(e1, nActions) && |e1.draws| == 10
    requires WellFormedEpisode(e2, nActions) && |e2.draws| == 10
    ensures len1 == 10 && len2 == 20
    ensures events1 == [] && events2 == []
  {
    var memory := new ReplayMemory<Transition<S>>(50);
    var explorer := new Explorer();
    var actions1, actions2;
    actions1, events1 := RunEpisode(0, e1, memory, explorer, decay, nActions, sampleDraws);
    len1 := memory.Len();
    actions2, events2 := RunEpisode(1, e2, memory, explorer, decay, nActions, sampleDraws);
    len2 := memory.Len();
    NoEventsBeforeWarmUp(0, 0, 50, 10);
    NoEventsBeforeWarmUp(1, 10, 50, 10);
  }
}
