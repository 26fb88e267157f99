/** The policy, the rollouts and the regret probes of the learner, on values
    (`next_state`, `get_value`, `learn_spot`, `simulate_game`: 3p.cc:152-257). */
module Play {
  import opened Params
  import opened Targets
  import opened Histories
  import opened GameStates
  import opened Tree
  import opened Resolver

  /** A snapshot of `model`: the thresholds held at each action string. */
  type Model = map<string, HistoryView>

  /** Every decision node has an entry, as after `initialize("")`. */
  ghost predicate Complete(m: Model) {
    forall b {:trigger Node(b)} :: Node(b) ==> b in m
  }

  /** Every entry's thresholds lie within their bounds. */
  ghost predicate AllValid(m: Model) {
    forall b :: b in m ==> m[b].Valid()
  }

  /** The range value of the seat to act. */
  function RangeVal(s: RangeState): real
    requires s.WellFormed()
  {
    s.rangeVals[Player(s.actions)]
  }

  /** The choice `next_state` makes at a node with thresholds `h`. */
  function Decision(s: RangeState, h: HistoryView): (d: char)
    requires s.WellFormed()
    ensures IsAction(d)
  {
    if RangeVal(s) < h.Value() then '1'
    else if !CanBluff(s.actions) || RangeVal(s) < h.Bluff() then '0'
    else '1'
  }

  /** The policy is a threshold rule: below the value threshold the seat jams; once somebody
      has jammed it jams only there; while everyone has folded it also jams at or above the
      bluff threshold, and folds exactly in between. */
  lemma DecisionBands(s: RangeState, h: HistoryView)
    requires s.WellFormed()
    ensures !CanBluff(s.actions) ==> (Decision(s, h) == '1' <==> RangeVal(s) < h.Value())
    ensures CanBluff(s.actions) ==>
      (Decision(s, h) == '0' <==> h.Value() <= RangeVal(s) < h.Bluff())
    ensures RangeVal(s) < h.Value() ==> Decision(s, h) == '1'
  {
  }

  /** A seat that jams with a lower range value than another seat at the same node
      would also have jammed, unless the other seat's jam was a bluff. */
  lemma DecisionMonotone(s: RangeState, t: RangeState, h: HistoryView)
    requires s.WellFormed() && t.WellFormed() && s.actions == t.actions
    requires RangeVal(t) <= RangeVal(s) && Decision(s, h) == '1'
    requires !(CanBluff(s.actions) && h.Bluff() <= RangeVal(s))
    ensures Decision(t, h) == '1'
  {
  }

  /** `next_state`: the copy after the policy's action. */
  function Next(s: RangeState, h: HistoryView): (r: RangeState)
    requires s.WellFormed()
    ensures r.WellFormed() && r.actions == s.actions + [Decision(s, h)]
  {
    Taken(s, Decision(s, h), h)
  }

  /** The state `get_value` reaches: follow the policy of `m` until the showdown. */
  function Final(m: Model, s: RangeState): (f: RangeState)
    requires s.WellFormed() && Reachable(s.actions) && Complete(m)
    ensures f.WellFormed() && Reachable(f.actions) && IsShowdown(f.actions)
    ensures |s.actions| <= |f.actions| && f.actions[..|s.actions|] == s.actions
    decreases 2 * NP - |s.actions|
  {
    if IsShowdown(s.actions) then s
    else
      NodeLength(s.actions);
      assert Node(s.actions);
      var d := Decision(s, m[s.actions]);
      ChildReachable(s.actions, d);
      var f := Final(m, Next(s, m[s.actions]));
      assert f.actions[..|s.actions|] == f.actions[..|s.actions| + 1][..|s.actions|];
      f
  }

  /** A rollout from `s` reads the thresholds only at nodes at least as long as `s`'s actions. */
  lemma {:induction false} FinalAgree(m1: Model, m2: Model, s: RangeState)
    requires s.WellFormed() && Reachable(s.actions) && Complete(m1) && Complete(m2)
    requires forall b :: Node(b) && |s.actions| <= |b| ==> m1[b] == m2[b]
    ensures Final(m1, s) == Final(m2, s)
    decreases 2 * NP - |s.actions|
  {
    if !IsShowdown(s.actions) {
      NodeLength(s.actions);
      assert Node(s.actions);
      var h := m1[s.actions];
      ChildReachable(s.actions, Decision(s, h));
      FinalAgree(m1, m2, Next(s, h));
    }
  }

  /** `get_value(s)`: the rewards after resolving the rollout's showdown. */
  function Playout(m: Model, s: RangeState, vals: seq<real>, prev: seq<real>): (r: seq<real>)
    requires s.WellFormed() && Reachable(s.actions) && Complete(m)
    requires |vals| == MAX_PLAYERS && |prev| == MAX_PLAYERS
    ensures |r| == MAX_PLAYERS
  {
    Resolved(prev, Final(m, s).actions, vals)
  }

  /** Every rollout pays out exactly the ante pot of 1 in total. */
  lemma PlayoutTotal(m: Model, s: RangeState, vals: seq<real>, prev: seq<real>)
    requires s.WellFormed() && Reachable(s.actions) && Complete(m)
    requires |vals| == MAX_PLAYERS && |prev| == MAX_PLAYERS
    ensures Sum(Playout(m, s, vals, prev)) == 1.0
  {
    TerminalRewardsTotalOne(prev, Final(m, s).actions, vals);
  }

  /** Once every seat has acted, the earlier contents of `rewards` are all overwritten. */
  lemma ResolvedIgnoresPrev(p1: seq<real>, p2: seq<real>, a: string, vals: seq<real>)
    requires |p1| == MAX_PLAYERS && |p2| == MAX_PLAYERS && |vals| == MAX_PLAYERS
    requires |a| >= NP
    ensures Resolved(p1, a, vals) == Resolved(p2, a, vals)
  {
    assert Bases(p1, a) == Bases(p2, a);
  }

  /** The outcome of one pair of probes in `learn_spot`: jam, then fold, with the seat's
      range value set to `x`. */
  datatype Probed = Probed(regret: real, rewards: seq<real>)

  /** Probe jam and fold at `x` with thresholds `h` at the node; the regret is the seat's
      reward for jamming less its reward for folding, and `rewards` is left as the fold
      rollout wrote it, a complete payout of the ante. */
  function ProbeAt(m: Model, s: RangeState, x: real, h: HistoryView, vals: seq<real>, prev: seq<real>): (r: Probed)
    requires s.WellFormed() && Node(s.actions) && Complete(m)
    requires |vals| == MAX_PLAYERS && |prev| == MAX_PLAYERS
    ensures |r.rewards| == MAX_PLAYERS && Sum(r.rewards) == 1.0
  {
    var p := Player(s.actions);
    var t := s.(rangeVals := s.rangeVals[p := x]);
    ChildReachable(s.actions, '1');
    ChildReachable(s.actions, '0');
    var jam := Playout(m, Taken(t, '1', h), vals, prev);
    var fold := Playout(m, Taken(t, '0', h), vals, jam);
    PlayoutTotal(m, Taken(t, '0', h), vals, jam);
    Probed(0.0 + jam[p] - fold[p], fold)
  }

  /** The two rollouts of a probe are independent: the regret compares the seat's payoff
      on the showdowns reached by leaving the node with a jam and with a fold, whatever
      `rewards` held before. */
  lemma ProbeCompares(m: Model, s: RangeState, x: real, h: HistoryView, vals: seq<real>, prev: seq<real>)
    requires s.WellFormed() && Node(s.actions) && Complete(m)
    requires |vals| == MAX_PLAYERS && |prev| == MAX_PLAYERS
    ensures var p := Player(s.actions);
      var t := s.(rangeVals := s.rangeVals[p := x]);
      Reachable(s.actions + ['1']) && Reachable(s.actions + ['0']) &&
      var jam := Resolved(prev, Final(m, Taken(t, '1', h)).actions, vals);
      var fold := Resolved(prev, Final(m, Taken(t, '0', h)).actions, vals);
      ProbeAt(m, s, x, h, vals, prev) == Probed(jam[p] - fold[p], fold)
  {
    var p := Player(s.actions);
    var t := s.(rangeVals := s.rangeVals[p := x]);
    ChildReachable(s.actions, '1');
    ChildReachable(s.actions, '0');
    var jam := Playout(m, Taken(t, '1', h), vals, prev);
    var ft := Final(m, Taken(t, '0', h)).actions;
    TerminalLength(ft);
    ResolvedIgnoresPrev(jam, prev, ft, vals);
  }

  /** The seat's true value moved to the point `x` of its current range: the range's
      offset `vals[p] - rv * rl` is kept and `x * rl` added back. */
  function AtThreshold(vals: seq<real>, p: nat, rv: real, x: real, rl: real): (r: seq<real>)
    requires p < |vals|
    ensures |r| == |vals| && forall q :: 0 <= q < |vals| && q != p ==> r[q] == vals[q]
    ensures r[p] - x * rl == vals[p] - rv * rl
  {
    vals[p := vals[p] - rv * rl + x * rl]
  }

  /** The true values during the value probe. */
  function ValueVals(m: Model, s: RangeState, vals: seq<real>): (r: seq<real>)
    requires s.WellFormed() && s.actions in m && |vals| == MAX_PLAYERS
    ensures |r| == MAX_PLAYERS
  {
    var p := Player(s.actions);
    AtThreshold(vals, p, s.rangeVals[p], m[s.actions].Value(), s.rangeLens[p])
  }

  /** The value probe: the seat's range value set to the node's value threshold. */
  function ValueProbe(m: Model, s: RangeState, vals: seq<real>, prev: seq<real>): (r: Probed)
    requires s.WellFormed() && Node(s.actions) && Complete(m)
    requires |vals| == MAX_PLAYERS && |prev| == MAX_PLAYERS
    ensures |r.rewards| == MAX_PLAYERS && Sum(r.rewards) == 1.0
  {
    var h := m[s.actions];
    ProbeAt(m, s, h.Value(), h, ValueVals(m, s, vals), prev)
  }

  /** The node after `learn_value`. */
  function AfterValue(m: Model, s: RangeState, vals: seq<real>, prev: seq<real>, sqrt: real -> PosReal): (h1: HistoryView)
    requires s.WellFormed() && Node(s.actions) && Complete(m)
    requires |vals| == MAX_PLAYERS && |prev| == MAX_PLAYERS
  {
    m[s.actions].LearnValue(ValueProbe(m, s, vals, prev).regret, sqrt)
  }

  /** The true values of a bluff probe taken with the thresholds `m`: the acting seat's
      value moves up by the gap between the node's bluff and value thresholds, scaled by
      its range length. */
  function Shifted(m: Model, s: RangeState, vals: seq<real>): (r: seq<real>)
    requires s.WellFormed() && s.actions in m && |vals| == MAX_PLAYERS
    ensures |r| == MAX_PLAYERS
  {
    var p := Player(s.actions);
    var h := m[s.actions];
    vals[p := vals[p] + (h.Bluff() - h.Value()) * s.rangeLens[p]]
  }

  /** The bluff probe: the seat's range value set to the bluff threshold, with the node as
      `learn_value` left it. */
  function BluffProbe(m: Model, s: RangeState, vals: seq<real>, prev: seq<real>, sqrt: real -> PosReal): (r: Probed)
    requires s.WellFormed() && Node(s.actions) && Complete(m)
    requires |vals| == MAX_PLAYERS && |prev| == MAX_PLAYERS
    ensures |r.rewards| == MAX_PLAYERS && Sum(r.rewards) == 1.0
  {
    var a := s.actions;
    var m1 := m[a := AfterValue(m, s, vals, prev, sqrt)];
    ProbeAt(m1, s, m1[a].Bluff(), m1[a], Shifted(m1, s, ValueVals(m, s, vals)),
            ValueProbe(m, s, vals, prev).rewards)
  }

  /** The result of `learn_spot`: the new model and the contents of `rewards`. */
  datatype Spot = Spot(model: Model, rewards: seq<real>)

  /** `learn_spot(s)` with the thresholds `m`, the true values `vals` and the previous
      `rewards` contents `prev`; `vals` is restored afterwards. */
  function LearnSpotSpec(m: Model, s: RangeState, vals: seq<real>, prev: seq<real>, sqrt: real -> PosReal): (r: Spot)
    requires s.WellFormed() && Node(s.actions) && Complete(m)
    requires |vals| == MAX_PLAYERS && |prev| == MAX_PLAYERS
    ensures r.model.Keys == m.Keys && |r.rewards| == MAX_PLAYERS
  {
    var a := s.actions;
    var m1 := m[a := AfterValue(m, s, vals, prev, sqrt)];
    if CanBluff(a) then
      var pr2 := BluffProbe(m, s, vals, prev, sqrt);
      Spot(m1[a := m1[a].LearnBluff(pr2.regret, sqrt)], pr2.rewards)
    else
      Spot(m1, ValueProbe(m, s, vals, prev).rewards)
  }

  /** The value half of `learn_spot`: afterwards the node holds `AfterValue` and `rewards`
      the value probe's payout, which is all of `learn_spot` when no bluff half follows. */
  lemma LearnSpotValueStage(m: Model, s: RangeState, vals: seq<real>, prev: seq<real>, sqrt: real -> PosReal)
    requires s.WellFormed() && Node(s.actions) && Complete(m)
    requires |vals| == MAX_PLAYERS && |prev| == MAX_PLAYERS
    ensures Complete(m[s.actions := AfterValue(m, s, vals, prev, sqrt)])
    ensures !CanBluff(s.actions) ==>
      LearnSpotSpec(m, s, vals, prev, sqrt) ==
        Spot(m[s.actions := AfterValue(m, s, vals, prev, sqrt)], ValueProbe(m, s, vals, prev).rewards)
  {
  }

  /** The bluff half of `learn_spot`, when taken, probes and learns from the state the
      value half left. */
  lemma LearnSpotBluffStage(m: Model, s: RangeState, vals: seq<real>, prev: seq<real>, sqrt: real -> PosReal)
    requires s.WellFormed() && Node(s.actions) && Complete(m) && CanBluff(s.actions)
    requires |vals| == MAX_PLAYERS && |prev| == MAX_PLAYERS
    ensures var a := s.actions;
      var m1 := m[a := AfterValue(m, s, vals, prev, sqrt)];
      var pr := ProbeAt(m1, s, m1[a].Bluff(), m1[a], Shifted(m1, s, ValueVals(m, s, vals)),
                        ValueProbe(m, s, vals, prev).rewards);
      LearnSpotSpec(m, s, vals, prev, sqrt) == Spot(m1[a := m1[a].LearnBluff(pr.regret, sqrt)], pr.rewards)
  {
  }

  /** Restoring the seat's true value undoes the shifts of both probes. */
  lemma LearnSpotRestores(m: Model, s: RangeState, vals: seq<real>, m1: Model)
    requires s.WellFormed() && s.actions in m && s.actions in m1 && |vals| == MAX_PLAYERS
    ensures var p := Player(s.actions);
      ValueVals(m, s, vals)[p := vals[p]] == vals &&
      Shifted(m1, s, ValueVals(m, s, vals))[p := vals[p]] == vals
  {
    var p := Player(s.actions);
    var v1 := ValueVals(m, s, vals);
    assert v1[p := vals[p]] == vals;
    assert Shifted(m1, s, v1)[p := vals[p]] == vals;
  }

  /** `learn_spot` changes the thresholds at its own node and at no other; the value
      estimator takes one learning step on the regret of the value probe; the bluff
      estimator takes one on the regret of the bluff probe exactly when nobody has jammed
      yet, and is left alone otherwise. */
  lemma LearnSpotStep(m: Model, s: RangeState, vals: seq<real>, prev: seq<real>, sqrt: real -> PosReal)
    requires s.WellFormed() && Node(s.actions) && Complete(m)
    requires |vals| == MAX_PLAYERS && |prev| == MAX_PLAYERS
    ensures var r := LearnSpotSpec(m, s, vals, prev, sqrt);
      r.model == m[s.actions := r.model[s.actions]]
    ensures LearnSpotSpec(m, s, vals, prev, sqrt).model[s.actions].valueT ==
      Learned(m[s.actions].valueT, ValueProbe(m, s, vals, prev).regret, sqrt)
    ensures CanBluff(s.actions) ==>
      LearnSpotSpec(m, s, vals, prev, sqrt).model[s.actions].bluffT ==
        Learned(m[s.actions].bluffT, -BluffProbe(m, s, vals, prev, sqrt).regret, sqrt)
    ensures !CanBluff(s.actions) ==> LearnSpotSpec(m, s, vals, prev, sqrt).model[s.actions].bluffT == m[s.actions].bluffT
  {
    var a := s.actions;
    if CanBluff(a) {
      OverwriteTwice(m, a, AfterValue(m, s, vals, prev, sqrt), LearnSpotSpec(m, s, vals, prev, sqrt).model[a]);
    }
  }

  /** Writing a node twice leaves only the second write. */
  lemma OverwriteTwice(m: Model, a: string, h1: HistoryView, h2: HistoryView)
    ensures m[a := h1][a := h2] == m[a := h2]
  {
  }

  /** The value probe moves the seat's true value to the value threshold of its range. */
  lemma ValueProbeAtThreshold(m: Model, s: RangeState, vals: seq<real>)
    requires s.WellFormed() && s.actions in m && |vals| == MAX_PLAYERS
    ensures var p := Player(s.actions);
      var rl := s.rangeLens[p];
      ValueVals(m, s, vals)[p] == vals[p] - s.rangeVals[p] * rl + m[s.actions].Value() * rl
  {
  }

  /** The bluff probe moves the seat's true value by the gap between the thresholds as
      `learn_value` left them (`h1`, whatever that step produced), so it lands on the bluff
      threshold of its range shifted by the distance the value threshold has just moved. */
  lemma BluffProbeOffset(m: Model, s: RangeState, vals: seq<real>, h1: HistoryView)
    requires s.WellFormed() && s.actions in m && |vals| == MAX_PLAYERS
    ensures var p := Player(s.actions);
      var rl := s.rangeLens[p];
      Shifted(m[s.actions := h1], s, ValueVals(m, s, vals))[p] ==
        vals[p] - s.rangeVals[p] * rl + h1.Bluff() * rl + (m[s.actions].Value() - h1.Value()) * rl
  {
    var p := Player(s.actions);
    var rl := s.rangeLens[p];
    ValueProbeAtThreshold(m, s, vals);
    ShiftedProbe(vals[p] - s.rangeVals[p] * rl, m[s.actions].Value(), h1.Bluff(), h1.Value(), rl);
  }

  lemma ShiftedProbe(base: real, v0: real, b1: real, w1: real, rl: real)
    ensures base + v0 * rl + (b1 - w1) * rl == base + b1 * rl + (v0 - w1) * rl
  {
  }

  /** `learn_spot` keeps every threshold within its bounds. */
  lemma LearnSpotKeepsValid(m: Model, s: RangeState, vals: seq<real>, prev: seq<real>, sqrt: real -> PosReal)
    requires s.WellFormed() && Node(s.actions) && Complete(m) && AllValid(m)
    requires |vals| == MAX_PLAYERS && |prev| == MAX_PLAYERS
    ensures AllValid(LearnSpotSpec(m, s, vals, prev, sqrt).model)
  {
    var a := s.actions;
    var r := LearnSpotSpec(m, s, vals, prev, sqrt);
    LearnSpotStep(m, s, vals, prev, sqrt);
    var h1 := AfterValue(m, s, vals, prev, sqrt);
    LearningKeepsValid(m[a], ValueProbe(m, s, vals, prev).regret, sqrt);
    if CanBluff(a) {
      LearningKeepsValid(h1, BluffProbe(m, s, vals, prev, sqrt).regret, sqrt);
    }
    assert r.model[a].Valid();
    UpdateKeepsValid(m, a, r.model[a]);
  }

  /** Replacing one node by a valid one keeps every node valid. */
  lemma UpdateKeepsValid(m: Model, a: string, h: HistoryView)
    requires AllValid(m) && h.Valid()
    ensures AllValid(m[a := h])
  {
  }

  /** After `learn_spot` the rewards array holds a complete showdown payout, totalling 1. */
  lemma LearnSpotRewardsTotal(m: Model, s: RangeState, vals: seq<real>, prev: seq<real>, sqrt: real -> PosReal)
    requires s.WellFormed() && Node(s.actions) && Complete(m)
    requires |vals| == MAX_PLAYERS && |prev| == MAX_PLAYERS
    ensures Sum(LearnSpotSpec(m, s, vals, prev, sqrt).rewards) == 1.0
  {
  }

  /** The loop of `simulate_game` from `s`: the move is chosen with the thresholds as they
      were before `learn_spot` updates the node, then play continues from it. */
  function Hand(m: Model, s: RangeState, vals: seq<real>, prev: seq<real>, sqrt: real -> PosReal): (r: Spot)
    requires s.WellFormed() && Reachable(s.actions) && Complete(m)
    requires |vals| == MAX_PLAYERS && |prev| == MAX_PLAYERS
    ensures r.model.Keys == m.Keys && |r.rewards| == MAX_PLAYERS
    decreases 2 * NP - |s.actions|
  {
    if IsShowdown(s.actions) then Spot(m, Resolved(prev, s.actions, vals))
    else
      assert Node(s.actions);
      var n := Next(s, m[s.actions]);
      var spot := LearnSpotSpec(m, s, vals, prev, sqrt);
      NodeLength(s.actions);
      ChildReachable(s.actions, Decision(s, m[s.actions]));
      Hand(spot.model, n, vals, spot.rewards, sqrt)
  }

  /** One turn of the hand: the move is taken with the node as it was, then the hand goes
      on with the thresholds and `rewards` that `learn_spot` left. */
  lemma HandStep(m: Model, s: RangeState, vals: seq<real>, prev: seq<real>, sqrt: real -> PosReal)
    requires s.WellFormed() && Node(s.actions) && Complete(m)
    requires |vals| == MAX_PLAYERS && |prev| == MAX_PLAYERS
    ensures Reachable(Next(s, m[s.actions]).actions) && |Next(s, m[s.actions]).actions| == |s.actions| + 1
    ensures var spot := LearnSpotSpec(m, s, vals, prev, sqrt);
      Complete(spot.model) &&
      Hand(m, s, vals, prev, sqrt) == Hand(spot.model, Next(s, m[s.actions]), vals, spot.rewards, sqrt)
  {
    NodeLength(s.actions);
    ChildReachable(s.actions, Decision(s, m[s.actions]));
    LearnSpotStep(m, s, vals, prev, sqrt);
  }

  /** Learning during the hand does not change how it is played: the hand ends at the
      showdown the policy held at the start of the hand reaches, and pays what that
      showdown pays. Each `learn_spot` only changes the node being left, which no later
      decision of the hand consults. */
  lemma {:induction false} HandPlaysPreLearningPolicy(m: Model, s: RangeState, vals: seq<real>, prev: seq<real>, sqrt: real -> PosReal)
    requires s.WellFormed() && Reachable(s.actions) && Complete(m)
    requires |vals| == MAX_PLAYERS && |prev| == MAX_PLAYERS
    ensures Hand(m, s, vals, prev, sqrt).rewards == Playout(m, s, vals, prev)
    decreases 2 * NP - |s.actions|
  {
    if !IsShowdown(s.actions) {
      var a := s.actions;
      assert Node(a);
      var n := Next(s, m[a]);
      var spot := LearnSpotSpec(m, s, vals, prev, sqrt);
      NodeLength(a);
      ChildReachable(a, Decision(s, m[a]));
      LearnSpotStep(m, s, vals, prev, sqrt);
      assert Complete(spot.model);
      HandPlaysPreLearningPolicy(spot.model, n, vals, spot.rewards, sqrt);
      forall b | Node(b) && |n.actions| <= |b|
        ensures spot.model[b] == m[b]
      {
        assert b != a;
      }
      FinalAgree(spot.model, m, n);
      var f := Final(m, n).actions;
      TerminalLength(f);
      ResolvedIgnoresPrev(spot.rewards, prev, f, vals);
    }
  }

  /** A hand keeps every threshold within its bounds and creates no node. */
  lemma {:induction false} HandKeepsValid(m: Model, s: RangeState, vals: seq<real>, prev: seq<real>, sqrt: real -> PosReal)
    requires s.WellFormed() && Reachable(s.actions) && Complete(m) && AllValid(m)
    requires |vals| == MAX_PLAYERS && |prev| == MAX_PLAYERS
    ensures AllValid(Hand(m, s, vals, prev, sqrt).model)
    decreases 2 * NP - |s.actions|
  {
    if !IsShowdown(s.actions) {
      var a := s.actions;
      assert Node(a);
      var spot := LearnSpotSpec(m, s, vals, prev, sqrt);
      NodeLength(a);
      ChildReachable(a, Decision(s, m[a]));
      LearnSpotKeepsValid(m, s, vals, prev, sqrt);
      HandKeepsValid(spot.model, Next(s, m[a]), vals, spot.rewards, sqrt);
    }
  }

  /** The state `simulate_game` deals: the drawn values as range values, full ranges. */
  function Deal(draws: seq<real>): (s: RangeState)
    requires |draws| == MAX_PLAYERS
    ensures s.WellFormed() && s.actions == "" && Reachable(s.actions)
  {
    RangeState("", draws, seq(MAX_PLAYERS, _ => 1.0))
  }

  /** Element-wise sum: `cumulative_rewards[i] += rewards[i]`. */
  function Add(x: seq<real>, y: seq<real>): (r: seq<real>)
    requires |x| == |y|
    ensures |r| == |x|
  {
    seq(|x|, i requires 0 <= i < |x| => x[i] + y[i])
  }

  lemma {:induction false} SumAdd(x: seq<real>, y: seq<real>)
    requires |x| == |y|
    ensures Sum(Add(x, y)) == Sum(x) + Sum(y)
  {
    if |x| > 0 {
      var n := |x| - 1;
      assert Add(x, y)[..n] == Add(x[..n], y[..n]);
      SumAdd(x[..n], y[..n]);
    }
  }

  /** One simulated hand adds exactly 1 to the players' combined cumulative reward. */
  lemma HandAddsOne(m: Model, draws: seq<real>, prev: seq<real>, cumulative: seq<real>, sqrt: real -> PosReal)
    requires |draws| == MAX_PLAYERS && |prev| == MAX_PLAYERS && |cumulative| == MAX_PLAYERS
    requires Complete(m)
    ensures Sum(Add(cumulative, Hand(m, Deal(draws), draws, prev, sqrt).rewards)) == Sum(cumulative) + 1.0
  {
    var s := Deal(draws);
    HandPlaysPreLearningPolicy(m, s, draws, prev, sqrt);
    PlayoutTotal(m, s, draws, prev);
    SumAdd(cumulative, Hand(m, s, draws, prev, sqrt).rewards);
  }
}
