/** The learner's global state and the procedures that drive it: `vals`, `rewards`,
    `cumulative_rewards` and `model` (3p.cc:16-19, 104), `showdown`, `create_history`,
    `next_state`, `get_value`, `learn_spot`, `simulate_game` and `initialize`
    (3p.cc:107-273). */
module Engines {
  import opened Params
  import opened Targets
  import opened Histories
  import opened GameStates
  import opened Tree
  import opened Resolver
  import opened Play

  /** The keys `initialize` adds at a decision node: the node, then those below its fold,
      then those below its jam, are those below the node. */
  lemma GrowthChain(m0: map<string, History>, m1: map<string, History>, m2: map<string, History>, a: string)
    requires Node(a)
    requires forall b :: b in m1 <==> b in m0 || b == a
    requires forall b :: b in m2 <==> b in m1 || Below(a + ['0'], b) || Below(a + ['1'], b)
    ensures forall b :: b in m2 <==> b in m0 || Below(a, b)
  {
    forall b
      ensures b in m2 <==> b in m0 || Below(a, b)
    {
      BelowSplit(a, b);
    }
  }

  /** The start of one probe: `temp = state`, the acting seat's range value set to `x`,
      then `temp.take_action(d, his)`. */
  method ProbeStart(s: RangeState, x: real, d: char, his: History) returns (temp: GameState)
    requires s.WellFormed()
    ensures fresh(temp) && temp.Valid()
    ensures temp.View() == Taken(s.(rangeVals := s.rangeVals[Player(s.actions) := x]), d, his.View())
  {
    temp := new GameState.Copy(s);
    temp.rangeVals := temp.rangeVals[Player(temp.actions) := x];
    temp.TakeAction(d, his);
  }

  class Engine {
    /** The true values of the current hand. */
    const vals: array<real>
    /** The payout of the last showdown resolved. */
    const rewards: array<real>
    const cumulativeRewards: array<real>
    /** The node objects, keyed by action string. */
    var model: map<string, History>
    /** The square root used by the learning rule. */
    const sqrt: real -> PosReal

    /** The node each threshold object belongs to. */
    ghost var owner: map<Target, string>
    /** The threshold objects of all nodes. */
    ghost var Repr: set<object>

    /** The arrays have one entry per seat and are distinct; every node is valid, and its
        two threshold objects belong to it and to no other node. */
    ghost predicate Valid()
      reads this, Repr
    {
      vals.Length == MAX_PLAYERS && rewards.Length == MAX_PLAYERS &&
      cumulativeRewards.Length == MAX_PLAYERS &&
      vals != rewards && vals != cumulativeRewards && rewards != cumulativeRewards &&
      this !in Repr && vals !in Repr && rewards !in Repr && cumulativeRewards !in Repr &&
      (forall t :: t in owner ==> t in Repr) &&
      forall b :: b in model ==> Owned(b) && model[b].Valid()
    }

    ghost predicate Owned(b: string)
      reads this
      requires b in model
    {
      model[b].valueThresh in owner && owner[model[b].valueThresh] == b &&
      model[b].bluffThresh in owner && owner[model[b].bluffThresh] == b
    }

    /** No two nodes share a threshold object. */
    lemma Disjoint(b: string, c: string)
      requires Valid() && b in model && c in model && b != c
      ensures Separate(model[b], model[c])
    {
      assert Owned(b) && Owned(c);
    }

    /** The thresholds held at each node. */
    function Snapshot(): (r: Model)
      requires Valid()
      reads this, Repr
      ensures r.Keys == model.Keys
    {
      map b | b in model :: assert Owned(b); model[b].View()
    }

    /** A step that leaves this object and every threshold object alone leaves the
        thresholds as they were. */
    twostate lemma Unmoved()
      requires old(Ready()) && unchanged(this) && unchanged(old(Repr))
      ensures Ready() && Snapshot() == old(Snapshot())
    {
    }

    /** Valid, with a node for every decision point of the game. */
    ghost predicate Ready()
      reads this, Repr
    {
      Valid() && forall b {:trigger Node(b)} :: Node(b) ==> b in model
    }

    /** The globals as the program starts: zeroed arrays and an empty model. */
    constructor (sqrt: real -> PosReal)
      ensures Valid() && model == map[] && this.sqrt == sqrt
      ensures fresh(vals) && fresh(rewards) && fresh(cumulativeRewards)
      ensures forall q :: 0 <= q < MAX_PLAYERS ==> cumulativeRewards[q] == 0.0
    {
      vals := new real[MAX_PLAYERS](_ => 0.0);
      rewards := new real[MAX_PLAYERS](_ => 0.0);
      cumulativeRewards := new real[MAX_PLAYERS](_ => 0.0);
      model := map[];
      owner := map[];
      Repr := {};
      this.sqrt := sqrt;
    }

    /** `create_history`: add a fresh node at `actions` unless one is there already. */
    method CreateHistory(actions: string)
      requires Valid()
      modifies this
      ensures Valid()
      ensures forall b :: b in model <==> b in old(model) || b == actions
      ensures forall b :: b in old(model) ==> model[b] == old(model[b])
      ensures forall b :: b in old(model) ==> model[b].View() == old(model[b].View())
      ensures forall b :: b in model && b !in old(model) ==> model[b].View() == InitialHistory
    {
      if actions !in model {
        label Before:
        var h := new History();
        forall b | b in model
          ensures model[b].View() == old@Before(model[b].View())
        {
        }
        AddNode(actions, h);
      }
    }

    /** Store the new node `h` at `actions` and record its two threshold objects. */
    method AddNode(actions: string, h: History)
      requires Valid() && actions !in model && h.Valid()
      requires h.valueThresh !in Repr && h.bluffThresh !in Repr
      modifies this
      ensures Valid() && model == old(model)[actions := h]
    {
      assert forall b :: b in model ==> Owned(b);
      ghost var o0 := owner;
      model := model[actions := h];
      owner := owner[h.valueThresh := actions][h.bluffThresh := actions];
      Repr := Repr + {h.valueThresh, h.bluffThresh};
      forall b | b in model
        ensures Owned(b) && model[b].Valid()
      {
        if b != actions {
          assert model[b].valueThresh in o0 && model[b].bluffThresh in o0;
        }
      }
    }

    /** `initialize(state)`: create a node at every decision point at or below `state`,
        keeping the nodes that exist. */
    method Initialize(state: GameState)
      requires Valid() && state.Valid() && Reachable(state.actions)
      modifies this
      ensures Valid()
      ensures forall b :: b in model <==> b in old(model) || Below(state.actions, b)
      ensures model.Keys == old(model).Keys + Subtree(state.actions)
      ensures forall b :: b in old(model) ==> model[b] == old(model[b]) && model[b].View() == old(model[b].View())
      ensures forall b :: b in model && b !in old(model) ==> model[b].View() == InitialHistory
      decreases 2 * NP - |state.actions|, 2
    {
      ghost var a := state.actions;
      if IsShowdown(state.actions) {
        forall b
          ensures !Below(a, b)
        {
          BelowShowdown(a, b);
        }
      } else {
        CreateHistory(state.actions);
        var his := model[state.actions];
        label Created:
        InitializeChildren(state, his);
        GrowthChain(old(model), old@Created(model), model, a);
        forall b | b in model && b !in old(model)
          ensures model[b].View() == InitialHistory
        {
          if b in old@Created(model) {
            assert model[b].View() == old@Created(model[b].View());
          }
        }
      }
      SubtreeKeys(old(model).Keys, model.Keys, a);
    }

    /** `initialize` from the empty action string on an empty model, as the program
        starts: afterwards the model holds a fresh node at exactly the decision points of
        the game. */
    method InitializeRoot()
      requires Valid() && model == map[]
      modifies this
      ensures Ready() && forall b :: b in model <==> Node(b)
      ensures forall b :: b in model ==> model[b].View() == InitialHistory
    {
      var state := new GameState.Empty();
      Initialize(state);
      forall b
        ensures b in model <==> Node(b)
      {
        assert b[..0] == "";
      }
    }

    /** The two recursive calls of `initialize` at a decision node: below the fold, then
        below the jam. */
    method InitializeChildren(state: GameState, his: History)
      requires Valid() && state.Valid() && Node(state.actions)
      modifies this
      ensures Valid()
      ensures forall b :: b in model <==> b in old(model) || Below(state.actions + ['0'], b) || Below(state.actions + ['1'], b)
      ensures forall b :: b in old(model) ==> model[b] == old(model[b]) && model[b].View() == old(model[b].View())
      ensures forall b :: b in model && b !in old(model) ==> model[b].View() == InitialHistory
      decreases 2 * NP - |state.actions|, 1
    {
      ChildReachable(state.actions, '0');
      ChildReachable(state.actions, '1');
      var temp := new GameState.Copy(state.View());
      InitializeChild(state, '0', his);
      label Folded:
      InitializeChild(temp, '1', his);
      forall b | b in model && b !in old(model)
        ensures model[b].View() == InitialHistory
      {
        if b in old@Folded(model) {
          assert model[b].View() == old@Folded(model[b].View());
        }
      }
    }

    /** One recursive call of `initialize`: take action `d` on a copy of `state` and
        initialize below it. */
    method InitializeChild(state: GameState, d: char, his: History)
      requires Valid() && state.Valid() && Node(state.actions) && Reachable(state.actions + [d])
      modifies this
      ensures Valid()
      ensures forall b :: b in model <==> b in old(model) || Below(state.actions + [d], b)
      ensures forall b :: b in old(model) ==> model[b] == old(model[b]) && model[b].View() == old(model[b].View())
      ensures forall b :: b in model && b !in old(model) ==> model[b].View() == InitialHistory
      decreases 2 * NP - |state.actions|, 0
    {
      NodeLength(state.actions);
      var child := new GameState.Copy(state.View());
      child.TakeAction(d, his);
      Initialize(child);
    }

    /** With every decision node present, the snapshot is a complete model. */
    lemma ReadyComplete()
      requires Ready()
      ensures Complete(Snapshot())
    {
    }

    /** `next_state`: a copy of `state` after the action the node's thresholds choose;
        nothing else changes. */
    method NextState(state: GameState) returns (ret: GameState)
      requires Ready() && state.Valid() && Node(state.actions)
      ensures fresh(ret) && ret.Valid()
      ensures ret.View() == Next(state.View(), Snapshot()[state.actions])
    {
      ret := new GameState.Copy(state.View());
      var player := Player(ret.actions);
      var his := model[ret.actions];
      assert Owned(ret.actions);
      if ret.rangeVals[player] < his.Value() {
        ret.TakeAction('1', his);
      } else if !CanBluff(ret.actions) || ret.rangeVals[player] < his.Bluff() {
        ret.TakeAction('0', his);
      } else {
        ret.TakeAction('1', his);
      }
    }

    /** `showdown(state)`: resolve the hand on the true values and write the payout to
        `rewards`. */
    method Showdown(state: GameState)
      requires Valid()
      modifies rewards
      ensures rewards[..] == Resolved(old(rewards[..]), state.actions, vals[..])
    {
      var a := state.actions;
      ghost var v, prev := vals[..], rewards[..];
      var hasAggressor := |a| > NP || (if 0 < |a| then a[0] else '\0') == '1';
      assert hasAggressor == HasAggressor(a);
      var winner: nat := 0;
      var winVal := 2.0;
      var pot := 1.0;
      var i := 0;
      while i < |a|
        invariant 0 <= i <= |a|
        invariant winner == LeadPlayer(LeadPos(a, v, i))
        invariant winVal == LeadVal(v, LeadPos(a, v, i))
        invariant pot == 1.0 + SPR * Jams(a[..i]) as real
        invariant rewards[..] == Bases(prev, a[..i])
      {
        var p := i % NP;
        var curVal := vals[p];
        assert curVal == v[p];
        var curState := a[i];
        ghost var w := LeadPos(a, v, i);
        assert LeadPos(a, v, i + 1) == if Eligible(a, i) && v[p] < LeadVal(v, w) then Some(i) else w;
        JamsStep(a, i);
        BasesStep(prev, a, i);
        if curVal < winVal && (!hasAggressor || curState == '1') {
          winner := p;
          winVal := curVal;
        }
        if curState == '1' {
          pot := pot + SPR;
          rewards[p] := -SPR;
        } else {
          rewards[p] := 0.0;
        }
        i := i + 1;
      }
      assert a[..i] == a;
      ghost var base := rewards[..];
      assert base == Bases(prev, a) && winner == Winner(a, v) && pot == Pot(a);
      rewards[winner] := rewards[winner] + pot;
      assert rewards[..] == base[winner := base[winner] + pot];
      assert vals[..] == v;
    }

    /** The loop of `get_value`: follow the current thresholds from `state` until the
        hand reaches a showdown. */
    method Rollout(state: GameState) returns (st: GameState)
      requires Ready() && state.Valid() && Reachable(state.actions)
      ensures st.Valid() && st.View() == Final(Snapshot(), state.View())
    {
      ReadyComplete();
      ghost var m := Snapshot();
      ghost var s0 := state.View();
      st := state;
      while !IsShowdown(st.actions)
        invariant st.Valid() && Reachable(st.actions)
        invariant Final(m, st.View()) == Final(m, s0)
        decreases 2 * NP - |st.actions|
      {
        NodeLength(st.actions);
        assert Node(st.actions);
        ChildReachable(st.actions, Decision(st.View(), m[st.actions]));
        st := NextState(st);
      }
    }

    /** `get_value(state)`: play on from `state` by the current thresholds and resolve
        the showdown reached. */
    method GetValue(state: GameState)
      requires Ready() && state.Valid() && Reachable(state.actions)
      modifies rewards
      ensures rewards[..] == Playout(old(Snapshot()), state.View(), old(vals[..]), old(rewards[..]))
    {
      var st := Rollout(state);
      Showdown(st);
    }

    /** One half of a probe in `learn_spot`: a copy of the state `s` with the acting
        seat's range value set to `x` takes the action `d` and is played out. */
    method ProbeBranch(s: RangeState, x: real, his: History, d: char)
      requires Ready() && s.WellFormed() && Node(s.actions) && IsAction(d)
      requires s.actions in model && his == model[s.actions]
      modifies rewards
      ensures var t := s.(rangeVals := s.rangeVals[Player(s.actions) := x]);
        Reachable(s.actions + [d]) &&
        rewards[..] == Playout(old(Snapshot()), Taken(t, d, old(Snapshot())[s.actions]),
                               old(vals[..]), old(rewards[..]))
    {
      ChildReachable(s.actions, d);
      assert Owned(s.actions);
      label Start:
      var temp := ProbeStart(s, x, d, his);
      Unmoved@Start();
      GetValue(temp);
    }

    /** A probe of `learn_spot`: the regret `regret` is the acting seat's payoff after a
        jam less its payoff after a fold, both from the range value `x`; `rewards` is left
        as the fold's rollout set it. */
    method ProbeRegret(s: RangeState, x: real, his: History) returns (regret: real)
      requires Ready() && s.WellFormed() && Node(s.actions)
      requires s.actions in model && his == model[s.actions]
      modifies rewards
      ensures Probed(regret, rewards[..]) ==
        ProbeAt(old(Snapshot()), s, x, old(Snapshot())[s.actions], old(vals[..]), old(rewards[..]))
    {
      ReadyComplete();
      ghost var m, v, prev := Snapshot(), vals[..], rewards[..];
      var p := Player(s.actions);
      ghost var t := s.(rangeVals := s.rangeVals[p := x]);
      label Start:
      ProbeBranch(s, x, his, '1');
      Unmoved@Start();
      ghost var jam := rewards[..];
      assert jam == Playout(m, Taken(t, '1', m[s.actions]), v, prev);
      regret := 0.0 + rewards[p];
      assert vals[..] == v;
      label Jammed:
      ProbeBranch(s, x, his, '0');
      Unmoved@Jammed();
      assert rewards[..] == Playout(m, Taken(t, '0', m[s.actions]), v, jam);
      regret := regret - rewards[p];
    }

    /** `his.learn_value(regret)` at the node `a`: that node's value estimator takes a
        learning step and every other node keeps its thresholds. */
    method LearnValueAt(a: string, regret: real)
      requires Ready() && a in model
      modifies model[a].valueThresh
      ensures Ready()
      ensures unchanged(vals) && unchanged(rewards)
      ensures Snapshot() == old(Snapshot())[a := old(Snapshot())[a].LearnValue(regret, sqrt)]
    {
      assert Owned(a);
      ghost var m := Snapshot();
      label Before:
      model[a].LearnValue(regret, sqrt);
      forall b | b in model && b != a
        ensures model[b].View() == old@Before(model[b].View())
      {
        Disjoint(a, b);
      }
      ghost var r := m[a := m[a].LearnValue(regret, sqrt)];
      assert Valid();
      assert forall b :: b in model ==> Snapshot()[b] == r[b];
    }

    /** `his.learn_bluff(regret)` at the node `a`: that node's bluff estimator takes a
        learning step on the negated regret and every other node keeps its thresholds. */
    method LearnBluffAt(a: string, regret: real)
      requires Ready() && a in model
      modifies model[a].bluffThresh
      ensures Ready()
      ensures unchanged(vals) && unchanged(rewards)
      ensures Snapshot() == old(Snapshot())[a := old(Snapshot())[a].LearnBluff(regret, sqrt)]
    {
      assert Owned(a);
      ghost var m := Snapshot();
      label Before:
      model[a].LearnBluff(regret, sqrt);
      forall b | b in model && b != a
        ensures model[b].View() == old@Before(model[b].View())
      {
        Disjoint(a, b);
      }
      ghost var r := m[a := m[a].LearnBluff(regret, sqrt)];
      assert Valid();
      assert forall b :: b in model ==> Snapshot()[b] == r[b];
    }

    /** The first half of `learn_spot`: the seat's true value moved to the node's value
        threshold, the value probe, and `his.learn_value(regret)`. */
    method LearnValueSpot(s: RangeState, his: History)
      requires Ready() && s.WellFormed() && Node(s.actions)
      requires s.actions in model && his == model[s.actions]
      modifies vals, rewards, his.valueThresh
      ensures Ready() && Complete(old(Snapshot()))
      ensures vals[..] == ValueVals(old(Snapshot()), s, old(vals[..]))
      ensures rewards[..] == ValueProbe(old(Snapshot()), s, old(vals[..]), old(rewards[..])).rewards
      ensures var m := old(Snapshot());
        Snapshot() == m[s.actions := AfterValue(m, s, old(vals[..]), old(rewards[..]), sqrt)]
    {
      ReadyComplete();
      assert Owned(s.actions);
      ghost var m, v0, prev := Snapshot(), vals[..], rewards[..];
      var p := Player(s.actions);
      var rl := s.rangeLens[p];
      var value := his.Value();
      assert value == m[s.actions].Value();
      ghost var v := ValueVals(m, s, v0);
      label Start:
      vals[p] := vals[p] - s.rangeVals[p] * rl;
      vals[p] := vals[p] + value * rl;
      assert vals[p] == v[p];
      assert forall i :: 0 <= i < MAX_PLAYERS && i != p ==> vals[i] == v[i];
      assert vals[..] == v;
      Unmoved@Start();
      label Probing:
      var regret := ProbeRegret(s, value, his);
      Unmoved@Probing();
      ghost var pr := ValueProbe(m, s, v0, prev);
      assert regret == pr.regret && rewards[..] == pr.rewards;
      LearnValueAt(s.actions, regret);
      assert vals[..] == v && rewards[..] == pr.rewards;
    }

    /** The second half of `learn_spot`, taken while nobody has jammed: the seat's true
        value shifted by the gap between the two thresholds as they now stand, the bluff
        probe, and `his.learn_bluff(regret)`. */
    method LearnBluffSpot(s: RangeState, his: History)
      requires Ready() && s.WellFormed() && Node(s.actions)
      requires s.actions in model && his == model[s.actions]
      modifies vals, rewards, his.bluffThresh
      ensures Ready() && Complete(old(Snapshot()))
      ensures vals[..] == Shifted(old(Snapshot()), s, old(vals[..]))
      ensures var m := old(Snapshot());
        rewards[..] == ProbeAt(m, s, m[s.actions].Bluff(), m[s.actions],
                               Shifted(m, s, old(vals[..])), old(rewards[..])).rewards
      ensures var m := old(Snapshot());
        var pr := ProbeAt(m, s, m[s.actions].Bluff(), m[s.actions],
                          Shifted(m, s, old(vals[..])), old(rewards[..]));
        Snapshot() == m[s.actions := m[s.actions].LearnBluff(pr.regret, sqrt)]
    {
      ReadyComplete();
      assert Owned(s.actions);
      ghost var m, v0, prev := Snapshot(), vals[..], rewards[..];
      ghost var h := m[s.actions];
      var p := Player(s.actions);
      var bluff, value := his.Bluff(), his.Value();
      assert bluff == h.Bluff() && value == h.Value();
      ghost var v := Shifted(m, s, v0);
      label Start:
      vals[p] := vals[p] + (bluff - value) * s.rangeLens[p];
      assert vals[p] == v[p];
      assert forall i :: 0 <= i < MAX_PLAYERS && i != p ==> vals[i] == v[i];
      assert vals[..] == v;
      Unmoved@Start();
      label Probing:
      var regret := ProbeRegret(s, bluff, his);
      Unmoved@Probing();
      ghost var pr := ProbeAt(m, s, h.Bluff(), h, v, prev);
      assert regret == pr.regret && rewards[..] == pr.rewards;
      LearnBluffAt(s.actions, regret);
      assert vals[..] == v && rewards[..] == pr.rewards;
    }

    /** `learn_spot(state)`: probe the node's value threshold and learn from the regret,
        then, while nobody has jammed, probe the bluff threshold as `learn_value` left it
        and learn from that regret; the seat's true value is restored at the end. */
    method LearnSpot(state: GameState)
      requires Ready() && state.Valid() && Node(state.actions)
      modifies vals, rewards, model[state.actions].valueThresh, model[state.actions].bluffThresh
      ensures Ready() && Complete(old(Snapshot()))
      ensures vals[..] == old(vals[..])
      ensures Snapshot() == LearnSpotSpec(old(Snapshot()), old(state.View()), old(vals[..]), old(rewards[..]), sqrt).model
      ensures rewards[..] == LearnSpotSpec(old(Snapshot()), old(state.View()), old(vals[..]), old(rewards[..]), sqrt).rewards
    {
      var s := state.View();
      var p := Player(s.actions);
      var oldVal := vals[p];
      LearnHalves(s, model[s.actions]);
      RestoreVal(p, oldVal);
    }

    /** The two halves of `learn_spot`, before the seat's true value is restored: only
        that seat's entry of `vals` is left moved. */
    method LearnHalves(s: RangeState, his: History)
      requires Ready() && s.WellFormed() && Node(s.actions)
      requires s.actions in model && his == model[s.actions]
      modifies vals, rewards, his.valueThresh, his.bluffThresh
      ensures Ready() && Complete(old(Snapshot()))
      ensures vals[..][Player(s.actions) := old(vals[..])[Player(s.actions)]] == old(vals[..])
      ensures Snapshot() == LearnSpotSpec(old(Snapshot()), s, old(vals[..]), old(rewards[..]), sqrt).model
      ensures rewards[..] == LearnSpotSpec(old(Snapshot()), s, old(vals[..]), old(rewards[..]), sqrt).rewards
    {
      if CanBluff(s.actions) {
        LearnBothHalves(s, his);
      } else {
        ReadyComplete();
        ghost var m := Snapshot();
        LearnSpotValueStage(m, s, vals[..], rewards[..], sqrt);
        LearnSpotRestores(m, s, vals[..], m[s.actions := AfterValue(m, s, vals[..], rewards[..], sqrt)]);
        LearnValueSpot(s, his);
      }
    }

    /** Both halves of `learn_spot`, taken when nobody has jammed yet. */
    method LearnBothHalves(s: RangeState, his: History)
      requires Ready() && s.WellFormed() && Node(s.actions) && CanBluff(s.actions)
      requires s.actions in model && his == model[s.actions]
      modifies vals, rewards, his.valueThresh, his.bluffThresh
      ensures Ready() && Complete(old(Snapshot()))
      ensures vals[..][Player(s.actions) := old(vals[..])[Player(s.actions)]] == old(vals[..])
      ensures Snapshot() == LearnSpotSpec(old(Snapshot()), s, old(vals[..]), old(rewards[..]), sqrt).model
      ensures rewards[..] == LearnSpotSpec(old(Snapshot()), s, old(vals[..]), old(rewards[..]), sqrt).rewards
    {
      ReadyComplete();
      ghost var m, v0, prev := Snapshot(), vals[..], rewards[..];
      ghost var a, p := s.actions, Player(s.actions);
      ghost var m1 := m[a := AfterValue(m, s, v0, prev, sqrt)];
      ghost var v1 := ValueVals(m, s, v0);
      ghost var r1 := ValueProbe(m, s, v0, prev).rewards;
      LearnSpotRestores(m, s, v0, m1);
      LearnSpotBluffStage(m, s, v0, prev, sqrt);
      LearnValueSpot(s, his);
      assert Snapshot() == m1 && vals[..] == v1 && rewards[..] == r1;
      LearnBluffSpot(s, his);
      ghost var pr := ProbeAt(m1, s, m1[a].Bluff(), m1[a], Shifted(m1, s, v1), r1);
      assert Snapshot() == m1[a := m1[a].LearnBluff(pr.regret, sqrt)];
      assert rewards[..] == pr.rewards && vals[..] == Shifted(m1, s, v1);
    }

    /** `vals[p] = x`, which leaves the thresholds alone. */
    method RestoreVal(p: nat, x: real)
      requires Ready() && p < MAX_PLAYERS
      modifies vals
      ensures Ready() && Snapshot() == old(Snapshot())
      ensures vals[..] == old(vals[..])[p := x] && rewards[..] == old(rewards[..])
    {
      vals[p] := x;
      Unmoved();
    }

    /** The deal of `simulate_game`: the drawn values `draws` (the random draws) become
        the true values and the range values, and every range is full. */
    method DealHand(draws: seq<real>) returns (state: GameState)
      requires Ready() && |draws| == NP
      modifies vals
      ensures Ready() && Snapshot() == old(Snapshot()) && rewards[..] == old(rewards[..])
      ensures fresh(state) && state.Valid() && vals[..] == draws && state.View() == Deal(draws)
    {
      label Start:
      state := new GameState.Empty();
      for i := 0 to NP
        invariant state.Valid() && state.actions == ""
        invariant forall q :: 0 <= q < i ==> vals[q] == draws[q]
        invariant forall q :: 0 <= q < i ==> state.rangeVals[q] == draws[q] && state.rangeLens[q] == 1.0
        invariant unchanged(this) && unchanged(Repr) && unchanged(rewards)
      {
        vals[i] := draws[i];
        state.rangeVals := state.rangeVals[i := vals[i]];
        state.rangeLens := state.rangeLens[i := 1.0];
      }
      assert vals[..] == draws;
      assert state.View() == Deal(draws);
      Unmoved@Start();
    }

    /** One turn of `simulate_game`'s loop: `nstate = next_state(state)` with the thresholds
        as they stand, then `learn_spot(state)`, then `state = nstate`. */
    method Turn(state: GameState) returns (nstate: GameState)
      requires Ready() && state.Valid() && Node(state.actions)
      modifies vals, rewards, model[state.actions].valueThresh, model[state.actions].bluffThresh
      ensures Ready() && vals[..] == old(vals[..])
      ensures fresh(nstate) && nstate.Valid()
      ensures nstate.View() == Next(old(state.View()), old(Snapshot())[old(state.actions)])
      ensures Snapshot() == LearnSpotSpec(old(Snapshot()), old(state.View()), old(vals[..]), old(rewards[..]), sqrt).model
      ensures rewards[..] == LearnSpotSpec(old(Snapshot()), old(state.View()), old(vals[..]), old(rewards[..]), sqrt).rewards
    {
      ghost var m, s, v, prev := Snapshot(), state.View(), vals[..], rewards[..];
      label Start:
      var next := NextState(state);
      Unmoved@Start();
      assert state.View() == s && vals[..] == v && rewards[..] == prev;
      var n := next.View();
      LearnSpot(state);
      ghost var spot := LearnSpotSpec(m, s, v, prev, sqrt);
      assert Snapshot() == spot.model && rewards[..] == spot.rewards;
      label Learned:
      nstate := new GameState.Copy(n);
      Unmoved@Learned();
    }

    /** `cumulative_rewards[i] += rewards[i]` for every seat. */
    method Accumulate()
      requires Ready()
      modifies cumulativeRewards
      ensures Ready() && Snapshot() == old(Snapshot())
      ensures rewards[..] == old(rewards[..]) && vals[..] == old(vals[..])
      ensures cumulativeRewards[..] == Add(old(cumulativeRewards[..]), rewards[..])
    {
      label Start:
      for i := 0 to NP
        invariant forall q :: 0 <= q < i ==> cumulativeRewards[q] == old(cumulativeRewards[q]) + rewards[q]
        invariant forall q :: i <= q < MAX_PLAYERS ==> cumulativeRewards[q] == old(cumulativeRewards[q])
        invariant unchanged(this) && unchanged(Repr) && unchanged(rewards) && unchanged(vals)
      {
        cumulativeRewards[i] := cumulativeRewards[i] + rewards[i];
      }
      assert cumulativeRewards[..] == Add(old(cumulativeRewards[..]), rewards[..]);
      Unmoved@Start();
    }

    /** `simulate_game` on the drawn values `draws`: play the hand, learning at every node
        it passes, resolve its showdown and add the payout to `cumulative_rewards`. */
    method SimulateGame(draws: seq<real>)
      requires Ready() && |draws| == NP
      modifies vals, rewards, cumulativeRewards, Repr
      ensures Ready() && vals[..] == draws
      ensures Snapshot() == Hand(old(Snapshot()), Deal(draws), draws, old(rewards[..]), sqrt).model
      ensures rewards[..] == Hand(old(Snapshot()), Deal(draws), draws, old(rewards[..]), sqrt).rewards
      ensures cumulativeRewards[..] == Add(old(cumulativeRewards[..]), rewards[..])
    {
      var state := DealHand(draws);
      PlayHand(state);
      Accumulate();
    }

    /** The loop of `simulate_game` and the final `showdown(state)`. */
    method PlayHand(state: GameState)
      requires Ready() && state.Valid() && Reachable(state.actions)
      modifies vals, rewards, Repr
      ensures Ready() && vals[..] == old(vals[..])
      ensures var h := Hand(old(Snapshot()), old(state.View()), old(vals[..]), old(rewards[..]), sqrt);
        Snapshot() == h.model && rewards[..] == h.rewards
    {
      ReadyComplete();
      ghost var v := vals[..];
      ghost var goal := Hand(Snapshot(), state.View(), v, rewards[..], sqrt);
      var st := state;
      while !IsShowdown(st.actions)
        invariant Ready() && st.Valid() && Reachable(st.actions) && vals[..] == v
        invariant Hand(Snapshot(), st.View(), v, rewards[..], sqrt) == goal
        decreases 2 * NP - |st.actions|
      {
        NodeLength(st.actions);
        assert Node(st.actions);
        assert Owned(st.actions);
        assert model[st.actions].valueThresh in Repr && model[st.actions].bluffThresh in Repr;
        HandStep(Snapshot(), st.View(), v, rewards[..], sqrt);
        st := Turn(st);
      }
      ghost var m := Snapshot();
      assert goal == Spot(m, Resolved(rewards[..], st.actions, v));
      label Resolving:
      Showdown(st);
      Unmoved@Resolving();
    }
  }
}
