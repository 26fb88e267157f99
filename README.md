# Jam/fold self-play learner (3p.cc), modelled in Dafny

`3p.cc` learns a jam/fold strategy for a multi-seat poker abstraction by self-play.
Each seat holds a hidden value in `[0, 1]`, where lower is stronger. In turn, seats either fold (`'0'`) or jam (`'1'`).

- **History.** Every non-terminal action string owns a `History`. It holds two `Target` estimators:
  - the *value threshold*, below which a seat jams for value;
  - the *bluff threshold*, at or above which a seat may bluff-jam while everyone before it has folded.
- **Target.** A `Target` takes a decaying step, clamps the result to its bounds, and keeps a running average. The policy reads the average.
- **GameState.** A `GameState` carries:
  - the action string;
  - for each seat, a representative value of its remaining range and the length of that range.
- **Learning.** `learn_spot` probes both continuations of a spot with the acting seat's true value moved to a threshold. It feeds the payoff difference (the regret) to the estimators, then restores the true value.
- **Driver.** `simulate_game` deals a hand and plays it out. At each step it computes the real transition first, then learns at the current spot. At the showdown it accumulates the payouts.

The project has these modules:

- `Params` (params.dfy) holds the constants: `NP = MAX_PLAYERS = 4`, `SPR = 1`, `learn_offset = 1`.
- `Targets` (target.dfy) models `Target`:
  - a value view `TargetView` and the pure learning step `Learned`;
  - a run of steps `LearnedAll`, whose average is the running mean of the estimates it produced (`FreshTargetMean`);
  - the class `Target`, whose `Learn` method updates its fields in place and is proved equal to `Learned`.
- `Histories` (history.dfy) models `History`:
  - the class holds two distinct `Target` objects;
  - the value view `HistoryView` carries `LearnValue`/`LearnBluff`.
- `GameStates` (game_state.dfy) covers the state machine and range bookkeeping:
  - the pure tests `get_player`, `showdown()` and `can_bluff`;
  - the range bookkeeping of `take_action` as the function `Taken`;
  - the class `GameState`, whose `TakeAction` appends to its action string and rewrites its range sequences.
- `Tree` (tree.dfy) covers the action-string tree `initialize` walks:
  - which strings are reachable, which are decision nodes, and which are terminal;
  - bounds on their lengths;
  - the subtree below a node.
- `Resolver` (showdown.dfy) covers `showdown(state)`:
  - the winner is the earliest strict minimum among the eligible actions;
  - the pot grows by `SPR` for each jam;
  - each seat's base reward is set by its last action;
  - the rewards total.
- `Play` (policy.dfy) is the value-level specification of the driver:
  - the threshold policy `Next` and the rollout `Final`/`Playout`;
  - the two probes of `learn_spot` and their combined effect `LearnSpotSpec`;
  - a whole hand, `Hand`, with its properties.
- `Engines` (engine.dfy) holds the class `Engine`:
  - the global arrays `vals`, `rewards` and `cumulative_rewards`;
  - the map `model` from action strings to `History` objects;
  - the procedures of 3p.cc as methods:
    - `Showdown`, `Rollout` (the loop of `get_value`), `PlayHand` (the loop of `simulate_game`), `DealHand` and `Accumulate` keep the source's loops, with invariants;
    - the registry method `Initialize` (recursive, like the source) is specified by `Tree.Below` and `Tree.Subtree`; `CreateHistory` adds exactly its key;
    - `NextState`, `GetValue`, `LearnSpot`, `Turn` and `SimulateGame` are proved equal to the `Play`/`Resolver` functions.

Two facts of the code shape the model:

- **The payout is not zero-sum.** The pot starts at 1 and no seat posts that ante, so a finished hand's rewards total exactly 1 (`Resolver.TerminalRewardsTotalOne`).
- **The bluff probe reads the updated value threshold.** It uses the value threshold *after* `learn_value` has updated it at line 207. `Play.BluffProbeOffset` states the resulting offset.

Some lemmas are only proof steps, which spell out a definition for the solver and have no row below. They include `Play.LearnSpotValueStage`, `Play.LearnSpotBluffStage`, `Play.ValueProbeAtThreshold`, `Play.OverwriteTwice`, `Play.ShiftedProbe`, `Targets.Convex`, `Targets.SignOfProduct`, `Targets.SignOfFactor`, `Targets.LearnedAverage`, `Targets.StepWeighs`, `Targets.StepMean`, `Targets.FromScratch`, `Resolver.StakesStep`, `Resolver.JamsStep`, `Resolver.JamsSlide` and `Play.HandStep`. What they serve is stated by `Targets.AverageBetween`, `Targets.LearnedAllMean`, `Targets.FreshTargetMean`, `Play.LearnSpotStep`, `Play.BluffProbeOffset`, `Play.LearnSpotRestores`, `Play.HandPlaysPreLearningPolicy`, `Engines.Engine.LearnSpot`, `Engines.Engine.Showdown` and `Engines.Engine.PlayHand`.

## Model

| member | source | states |
|---|---|---|
| Targets.Moved | 3p.cc:35 | defined as: the estimate plus `data` divided by `sqrt(count + learn_offset)` |
| Targets.Clamp | 3p.cc:36-37 | the clamped value lies in `[lower, upper]`; it is unchanged inside the interval, and equals the bound that was crossed outside it |
| Targets.Mean | 3p.cc:38 | defined as: the old average weighted by `count`, plus the new estimate, over `count + learn_offset` |
| Targets.Learned | 3p.cc:34-40 | one learning step keeps `lower` and `upper`, adds exactly one to `count`, and sets `value` to the clamped step; the new `avg` is stated by `LearnedAllMean` and `FreshTargetMean` |
| Targets.AverageBetween | 3p.cc:38 | with `learn_offset = 1`, the new average lies between the old average and the new value |
| Targets.LearnKeepsValid | 3p.cc:34-40 | a step from a valid target (value and average within the bounds) gives a valid target |
| Targets.LearnedAll | 3p.cc:34-40 | defined as: `Target::learn` applied to each datum in turn; the count grows by the number of data |
| Targets.Estimates | 3p.cc:35-37 | defined as: the clamped estimate after each step of such a run, one per datum |
| Targets.LearnedAllMean | 3p.cc:34-40 | after any run of steps, average times count equals the starting average times the starting count plus the total of the run's estimates |
| Targets.FreshTargetMean | 3p.cc:31-40 | a target that starts with count 0 and learns n > 0 times holds as `avg` the arithmetic mean of the n estimates it produced, which is what `value()`/`bluff()` return |
| Targets.Target.constructor | 3p.cc:31-32 | value and average start at `init`, count at 0, and the bounds are the given ones |
| Targets.Target.Learn | 3p.cc:34-40 | the object's new fields are exactly one learning step applied to its old fields |
| Histories.HistoryView.LearnValue | 3p.cc:50-52 | `learn_value` steps only the value threshold; the bluff threshold is unchanged and the step count goes up by one |
| Histories.HistoryView.LearnBluff | 3p.cc:54-56 | `learn_bluff` steps only the bluff threshold, on the negated regret; the value threshold is unchanged |
| Histories.ThresholdRanges | 3p.cc:48-60 | in a valid history, `0 <= value() <= 0.5 <= bluff() <= 1` |
| Histories.LearningKeepsValid | 3p.cc:50-56 | both learning steps keep a history valid |
| Histories.History.constructor | 3p.cc:48 | a new history has value threshold 0 in `[0, .5]`, bluff threshold 1 in `[.5, 1]`, and two fresh estimator objects |
| Histories.History.Value | 3p.cc:58 | `value()` is the value threshold's average |
| Histories.History.Bluff | 3p.cc:60 | `bluff()` is the bluff threshold's average |
| Histories.History.LearnValue | 3p.cc:50-52 | changes only the value-threshold object, as `HistoryView.LearnValue` does, and keeps the history valid |
| Histories.History.LearnBluff | 3p.cc:54-56 | changes only the bluff-threshold object, as `HistoryView.LearnBluff` does, and keeps the history valid |
| GameStates.IsShowdown | 3p.cc:93-97 | defined as: the seat to act jammed (so it has acted before), or exactly one round of folds has been played |
| GameStates.ShowdownAfterRound | 3p.cc:93-97 | no hand ends before every seat has acted; the all-fold round of length `NP` ends it |
| GameStates.CanBluff | 3p.cc:99-101 | defined as: every action so far is a fold |
| GameStates.CanBluffNoJam | 3p.cc:99-101 | on an action string, `can_bluff()` holds exactly when nobody has jammed |
| GameStates.Quot | 3p.cc:81-89 | true division whenever the divisor is nonzero; 0 stands in for a zero divisor (see Left out) |
| GameStates.Player | 3p.cc:68-70 | the seat to act is below `NP`; it equals the string length during the first round |
| GameStates.Len1 | 3p.cc:75 | for a valid history, the jam fraction `value + 1 - bluff` lies in `[0, 1]` |
| GameStates.Len0 | 3p.cc:76 | for a valid history, the fold fraction `bluff - value` lies in `[0, 1]`, and it sums with the jam fraction to 1 |
| GameStates.Taken | 3p.cc:72-91 | `take_action` appends exactly the one action and leaves every other seat's range value and length unchanged |
| GameStates.RangeLenShrinks | 3p.cc:79-88 | the acting seat's length is scaled by `len1` on a jam and by `len0` on a fold, so a non-negative length never grows |
| GameStates.EmptyFoldBand | 3p.cc:76-89 | when `value() == bluff()`, `len0` is 0 and a fold leaves the seat the stand-in 0 |
| GameStates.FoldTrace | 3p.cc:87-90 | consider value .3, bluff .7 and range value .2: a fold scales the length by .4 and moves the range value to -0.25 |
| GameStates.GameState.Empty | 3p.cc:276-277 | a fresh state has the empty action string |
| GameStates.GameState.Copy | 3p.cc:153 | a copy holds exactly the given action string and range sequences |
| GameStates.GameState.TakeAction | 3p.cc:72-91 | the object's new state is `Taken` of its old state, with the history's thresholds at the time of the call |
| Tree.FirstJam | 3p.cc:94 | the position of the first jam, where every earlier action is a fold |
| Tree.NoShowdownBefore | 3p.cc:93-97 | no prefix is terminal if it is shorter than `NP`, or shorter than the first first-round jam plus `NP` |
| Tree.JamComesRound | 3p.cc:94 | the prefix ending one full round after a first-round jam is terminal |
| Tree.FirstRoundJam | 3p.cc:93-97 | every reachable string of length at least `NP`, other than the all-fold round, has a jam in its first round |
| Tree.NodeShape | 3p.cc:93-97 | decision nodes are exactly the binary strings shorter than `NP`, or shorter than the first jam plus `NP` when that jam is in round one |
| Tree.TerminalShape | 3p.cc:93-97 | reachable showdowns are exactly the all-fold string of length `NP`, and the strings of length "first jam + `NP`" whose first jam is in round one |
| Tree.NodeLength | 3p.cc:93-97 | a decision node has length at most `2·NP - 2` |
| Tree.TerminalLength | 3p.cc:93-97 | a reachable showdown has length between `NP` and `2·NP - 1`, and exactly `NP` when every action folds |
| Tree.ReachableLength | 3p.cc:93-97 | no reachable string is longer than `2·NP - 1` |
| Tree.ChildReachable | 3p.cc:268-272 | both children of a decision node are reachable |
| Tree.PrefixReachable | 3p.cc:93-97 | every prefix of a reachable string is reachable |
| Tree.Folds | 3p.cc:95 | `string(n, '0')` has length n and holds only folds |
| Tree.FoldPath | 3p.cc:95 | each fold prefix up to `NP` is reachable; it is terminal exactly at length `NP` |
| Tree.BelowSplit | 3p.cc:268-272 | the strings below a decision node are the node itself, those below its fold, and those below its jam |
| Tree.BelowShowdown | 3p.cc:260 | nothing lies below a terminal string |
| Tree.Subtree | 3p.cc:259-273 | defined as: nothing at a showdown; otherwise the node itself and the enumerations from its fold and from its jam |
| Tree.SubtreeIsBelow | 3p.cc:259-273 | the subtree `initialize` walks from a reachable string holds exactly the strings below it |
| Tree.SubtreeKeys | 3p.cc:259-273 | a registry that grew by exactly the strings below `a` grew by exactly `Subtree(a)` |
| Tree.SubtreeOfRoot | 3p.cc:259-273 | the subtree from `""` holds exactly the decision nodes |
| Resolver.HasAggressor | 3p.cc:108 | defined as: more than one round of actions, or the first seat jammed |
| Resolver.Eligible | 3p.cc:117 | defined as: any action competes when there is no aggressor, otherwise only jams |
| Resolver.LeadVal | 3p.cc:111-119 | defined as: `win_val` for a leading position, the value of its seat, or 2 when there is none |
| Resolver.LeadPlayer | 3p.cc:110-118 | the provisional winner is always a seat below `NP` |
| Resolver.LeadPos | 3p.cc:113-120 | the leading position after n actions, if any, is one of those n |
| Resolver.LeadPosSound | 3p.cc:110-120 | a leading position is an earliest strict minimum below 2 among the eligible actions; there is none exactly when no eligible value is below 2 |
| Resolver.EarliestMinUnique | 3p.cc:117-119 | at most one position is the earliest strict minimum |
| Resolver.LeadPosIsEarliestMin | 3p.cc:110-120 | the scan leads with position j exactly when j is the earliest strict minimum (ties go to the earliest) |
| Resolver.Winner | 3p.cc:128 | the seat paid the pot is below `NP` |
| Resolver.Jams | 3p.cc:121-122 | the jam count is zero exactly when the string holds no `'1'` |
| Resolver.LastPos | 3p.cc:121-126 | a seat's last action among the first n lies in the final round, and no later action is that seat's |
| Resolver.BaseStep | 3p.cc:121-126 | one more action sets the acting seat's base reward to its stake (`-SPR` for a jam, 0 for a fold) and leaves the others' alone |
| Resolver.Stake | 3p.cc:121-126 | defined as: `-SPR` for a jam, 0 for a fold |
| Resolver.Bases | 3p.cc:121-126 | each seat's base reward is set by its last action; a seat that has not acted keeps its old reward |
| Resolver.BasesStep | 3p.cc:121-126 | one more action updates exactly the acting seat's entry of the base rewards |
| Resolver.Pot | 3p.cc:112-122 | defined as: the ante of 1 plus `SPR` for each jam |
| Resolver.PotAtLeastAnte | 3p.cc:112-122 | the pot is at least 1, and exactly 1 when nobody jams |
| Resolver.Resolved | 3p.cc:107-128 | defined as: the base rewards, with the pot added to the winner's entry |
| Resolver.WinnerJammed | 3p.cc:108-128 | when a jam takes a contested pot, that jam was the winner's last action: the winner ends with the pot minus its own stake |
| Resolver.FoldRoundPays | 3p.cc:108-128 | when everybody folds, the winner is paid the ante of 1 and every other seat 0 |
| Resolver.AggressorIffJam | 3p.cc:108 | on a reachable showdown, `has_aggressor` holds exactly when some seat jammed |
| Resolver.StakesSum | 3p.cc:121-126 | the base rewards of the final round total `-SPR` times the jams in that round |
| Resolver.RewardsTotal | 3p.cc:107-128 | the payout totals the starting pot of 1, plus `SPR` for each jam made before the final round |
| Resolver.TerminalRewardsTotalOne | 3p.cc:107-128 | on every reachable showdown the payout totals exactly 1, the starting pot |
| Play.Decision | 3p.cc:156-163 | the policy always returns a fold or a jam |
| Play.DecisionBands | 3p.cc:157-163 | jam iff `rv < value()` once someone has jammed; while all have folded, fold iff `value() <= rv < bluff()`; always jam below `value()` |
| Play.DecisionMonotone | 3p.cc:157-163 | at a fixed node, a value jam remains a jam for any lower range value |
| Play.Next | 3p.cc:152-165 | `next_state` appends exactly the policy's action to a copy of the state |
| Play.Final | 3p.cc:168-171 | the rollout from a reachable state ends at a reachable showdown that extends the state's action string |
| Play.FinalAgree | 3p.cc:168-171 | the rollout depends only on the thresholds at nodes at least as deep as the start |
| Play.Playout | 3p.cc:168-173 | defined as: the payout `Resolved` gives at the showdown `Final` reaches from the state |
| Play.PlayoutTotal | 3p.cc:168-173 | the rewards of every rollout total 1 |
| Play.ResolvedIgnoresPrev | 3p.cc:121-128 | once every seat has acted, the payout does not depend on what `rewards` held before |
| Play.ProbeAt | 3p.cc:194-203 | a probe leaves a payout that totals 1 |
| Play.ProbeCompares | 3p.cc:194-203 | a probe's regret is the seat's payoff after a forced jam minus its payoff after a forced fold, both from range value x; `rewards` keeps the fold's payout |
| Play.AtThreshold | 3p.cc:190-191 | moving the seat's value to the point x of its range keeps the range's offset and changes no other seat |
| Play.ValueVals | 3p.cc:190-191 | defined as: the true values with the acting seat's value moved to the value threshold's point of its range |
| Play.ValueProbe | 3p.cc:188-203 | the value probe leaves a payout that totals 1 |
| Play.BluffProbe | 3p.cc:209-229 | the bluff probe leaves a payout that totals 1 |
| Play.AfterValue | 3p.cc:207 | defined as: the node's history after `learn_value` on the value probe's regret |
| Play.Shifted | 3p.cc:211 | defined as: the acting seat's value raised by the gap between `bluff()` and `value()`, times its range length |
| Play.BluffProbeOffset | 3p.cc:207-211 | after `learn_value`, the bluff probe's seat value is the bluff point of the range, shifted by how far the value threshold just moved |
| Play.LearnSpotSpec | 3p.cc:179-233 | learning at a spot keeps the registry's keys |
| Play.LearnSpotRestores | 3p.cc:232 | restoring `old_val` undoes both probe shifts, so `vals` returns to its entry value |
| Play.LearnSpotStep | 3p.cc:179-233 | only the spot's own history changes; it gets one value step on the value regret; with `can_bluff()` one bluff step on the bluff regret, otherwise its bluff threshold is untouched |
| Play.LearnSpotKeepsValid | 3p.cc:207-229 | learning at a spot keeps every history valid |
| Play.UpdateKeepsValid | 3p.cc:207-229 | putting a valid history into a valid registry keeps it valid |
| Play.LearnSpotRewardsTotal | 3p.cc:179-233 | the payout left by learning at a spot totals 1 |
| Play.Hand | 3p.cc:245-253 | playing a hand keeps the registry's keys |
| Play.HandPlaysPreLearningPolicy | 3p.cc:245-253 | the hand's final payout equals a rollout under the thresholds as they stood before the hand's own learning |
| Play.HandKeepsValid | 3p.cc:245-251 | a whole hand keeps every history valid |
| Play.Deal | 3p.cc:236-243 | a dealt hand starts at the root: the empty, reachable action string with one range entry per seat |
| Play.Add | 3p.cc:254-255 | accumulation is entrywise and keeps the number of seats |
| Play.SumAdd | 3p.cc:254-255 | the total of an entrywise sum is the sum of the totals |
| Play.HandAddsOne | 3p.cc:253-256 | each simulated hand adds exactly 1 to the total of `cumulative_rewards` |
| Engines.GrowthChain | 3p.cc:268-272 | registering a node, then the subtrees of its fold and jam children, registers exactly the strings below it |
| Engines.ProbeStart | 3p.cc:194-196 | a probe's start is a fresh copy of the state, with the seat's range value set to x and the action taken |
| Engines.Engine.constructor | 3p.cc:16-19 | an empty registry, the chosen square root, fresh per-seat arrays, and zero cumulative rewards |
| Engines.Engine.CreateHistory | 3p.cc:144-150 | adds exactly the given key; an existing entry keeps its object and thresholds; a new one starts at the initial thresholds |
| Engines.Engine.AddNode | 3p.cc:147-148 | the registry gains exactly the new node's entry |
| Engines.Engine.Initialize | 3p.cc:259-273 | adds exactly the strings below the state, which are the enumeration `Subtree` of the state; keeps existing entries; every new entry starts at the initial thresholds |
| Engines.Engine.InitializeRoot | 3p.cc:276-278 | after `initialize("")`, the registry holds exactly the decision nodes, all at initial thresholds |
| Engines.Engine.InitializeChildren | 3p.cc:268-272 | the two recursive calls add exactly the strings below the node's two children |
| Engines.Engine.InitializeChild | 3p.cc:268-272 | a recursive call adds exactly the strings below one child |
| Engines.Engine.ReadyComplete | 3p.cc:155 | once initialised, every decision node has an entry, so the lookups at lines 155 and 185 always hit |
| Engines.Engine.NextState | 3p.cc:152-165 | returns a fresh state equal to `Next` under the node's current thresholds |
| Engines.Engine.Showdown | 3p.cc:107-128 | `rewards` becomes the resolver's payout on the true values; only `rewards` changes |
| Engines.Engine.Rollout | 3p.cc:169-171 | the loop reaches the rollout's terminal state without changing the thresholds |
| Engines.Engine.GetValue | 3p.cc:168-173 | `rewards` becomes the payout of the rollout from the state |
| Engines.Engine.ProbeBranch | 3p.cc:194-197 | one forced continuation leaves the payout of its rollout in `rewards` |
| Engines.Engine.ProbeRegret | 3p.cc:193-203 | the regret computed equals the probe's jam-minus-fold payoff, and `rewards` holds its fold payout |
| Engines.Engine.LearnValueAt | 3p.cc:207 | steps only the spot's value threshold; `vals` and `rewards` are unchanged |
| Engines.Engine.LearnBluffAt | 3p.cc:229 | steps only the spot's bluff threshold; `vals` and `rewards` are unchanged |
| Engines.Engine.LearnValueSpot | 3p.cc:190-207 | moves the seat's value to the value point, runs the value probe, and steps the value threshold on its regret |
| Engines.Engine.LearnBluffSpot | 3p.cc:209-229 | shifts the seat's value to the bluff point, runs the bluff probe, and steps the bluff threshold on its regret |
| Engines.Engine.LearnHalves | 3p.cc:190-230 | the two halves together have the effect of `LearnSpotSpec`; only the acting seat's `vals` entry moves |
| Engines.Engine.LearnBothHalves | 3p.cc:190-230 | with `can_bluff()`, the value half followed by the bluff half has the effect of `LearnSpotSpec` |
| Engines.Engine.RestoreVal | 3p.cc:232 | `vals[p]` is set back, and nothing else changes |
| Engines.Engine.LearnSpot | 3p.cc:179-233 | `vals` is restored to its entry value; the thresholds and `rewards` end as `LearnSpotSpec` says |
| Engines.Engine.DealHand | 3p.cc:236-243 | the true values are the draws, and the state is the dealt state |
| Engines.Engine.Turn | 3p.cc:245-250 | the next state is taken with the thresholds from *before* `learn_spot`; the learning then happens as `LearnSpotSpec` says |
| Engines.Engine.Accumulate | 3p.cc:254-256 | `cumulative_rewards` gains `rewards` entrywise |
| Engines.Engine.SimulateGame | 3p.cc:235-257 | one hand: the values are dealt, the thresholds, `rewards` and `cumulative_rewards` end as `Hand` and `Add` say |
| Engines.Engine.PlayHand | 3p.cc:245-253 | the loop with its final showdown has exactly the effect of `Hand` on the thresholds and `rewards` |

## Left out

- **`sqrt` (3p.cc:35) is a parameter.** The model takes any function of type `real -> PosReal`, so the clamp and average properties hold for every positive step size.
- **Floating point.** `float` is modelled as `real`. Rounding, precision loss and `setprecision` are not modelled.
- GameStates.Quot: yields 0 for a zero divisor, where IEEE arithmetic gives inf or NaN. The real numbers have no NaN, so the model cannot follow the program there. The cases, by which fraction is zero:
  - **`len1 == 0`** (value 0, bluff 1, as at the start). A jam divides by zero: the jam probe at 3p.cc:196 computes 0/0. A jammer never acts again before the showdown, and `showdown` reads `vals`, not the range values. So no rollout reads the result, and nothing the model states depends on the 0.
  - **`len0 == 0` (`value() == bluff()`, both clamped at .5) on the hand's own path.** The hand never folds at an all-fold node with these thresholds: `next_state` jams below `value()` and at or above `bluff()`. A fold at a node where someone has jammed is that seat's last action. So here too the result is never read.
  - **`len0 == 0` in a probe.** This case does change results. At an all-fold node whose thresholds are both .5, the forced-fold probes (3p.cc:199-202 and 220-223) give the acting seat `(x - .5) / 0` with `x == .5`: NaN in C++, 0 in the model (`GameStates.EmptyFoldBand`).
    - When that seat acts again in the second round, for example at node `"0100"`, C++ folds: `NaN < value()` is false and `!can_bluff()` holds (3p.cc:157-160).
    - `Play.Decision` jams with the stand-in 0 whenever that node's `value()` is above 0.
    - In this case the rollout of the fold probe differs from the program's. So do the seat's fold payoff and the regret fed to `learn_value`/`learn_bluff`. The members involved are `Play.Final`, `Play.Playout`, `Play.ProbeAt`, `Play.ValueProbe`, `Play.BluffProbe`, `Play.LearnSpotSpec` and `Play.Hand`, and the methods proved equal to them: `Engines.Engine.GetValue`, `ProbeRegret`, `LearnValueSpot`, `LearnBluffSpot`, `LearnSpot`, `Turn`, `PlayHand` and `SimulateGame`.
    - Some of their properties never read a range value: payouts totalling 1, which node learns, the restore of `vals[p]`, and validity of the thresholds. Those properties do not depend on the stand-in. Their exact regrets describe the program only where no probe meets `value() == bluff()`.
- **Randomness.** For `mt19937` and `uniform_real_distribution` (3p.cc:175-176, 239), `Engines.Engine.SimulateGame` takes the drawn values as its parameter `draws`.
- **`main` (3p.cc:275-299).** These are left out:
  - the `ITERS` loop;
  - the second `initialize(state, true)`, with its `prnt` output (3p.cc:263-266);
  - the averages `cumulative_rewards[i] / ITERS` that it prints.

  One hand is `SimulateGame`, and `HandAddsOne` states what each hand adds.
- **Uninitialised range arrays (3p.cc:276-278).** C++ leaves `range_vals`/`range_lens` of the `GameState` passed to `initialize` uninitialised. `GameState.Empty` uses zeros instead; `initialize` only depends on the action strings.
- **Integer widths.** `int count` and `int ITERS` overflow only after 2^31 steps; counts are unbounded `nat`.
- **Unused global.** The global `range_vals` (3p.cc:17) is never used and has no counterpart.
- **avl.cc** is included by 3p.cc but is not part of this model; nothing on the learning path uses it.
- **Value semantics of `GameState`.** `GameState` is copied by value in C++. The model gives each copy its own object (`GameState.Copy`, `NextState`, `ProbeStart`), and its arrays are value sequences, so copies never alias.
- **Convergence.** The learner's equilibrium and any statistical claims are not modelled.
