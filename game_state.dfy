/** The action string and the per-player ranges of one hand (`GameState`, 3p.cc:63-102). */
module GameStates {
  import opened Params
  import opened Histories

  /** `'0'` is a fold and `'1'` a jam. */
  predicate IsAction(c: char) {
    c == '0' || c == '1'
  }

  predicate Binary(a: string) {
    forall i :: 0 <= i < |a| ==> IsAction(a[i])
  }

  /** Every action so far is a fold: the comparison with `string(n, '0')` (3p.cc:95, 100). */
  predicate AllFolds(a: string) {
    forall i :: 0 <= i < |a| ==> a[i] == '0'
  }

  /** `get_player`: the seat to act is the number of actions so far modulo `NP`. */
  function Player(a: string): (p: nat)
    ensures p < NP
    ensures |a| < NP ==> p == |a|
  {
    |a| % NP
  }

  /** `GameState::showdown`: action has come back round to a seat that jammed in the
      first round, or exactly one round of folds has been played. */
  predicate IsShowdown(a: string) {
    (|a| >= NP && a[Player(a)] == '1') || (|a| == NP && AllFolds(a))
  }

  /** `can_bluff`: nobody has jammed yet. */
  predicate CanBluff(a: string) {
    AllFolds(a)
  }

  /** No hand ends before every seat has acted once, and one round of folds ends it. */
  lemma ShowdownAfterRound(a: string)
    ensures IsShowdown(a) ==> NP <= |a|
    ensures |a| == NP && AllFolds(a) ==> IsShowdown(a)
  {
  }

  /** On an action string, `can_bluff` holds exactly when nobody has jammed. */
  lemma CanBluffNoJam(a: string)
    requires Binary(a)
    ensures CanBluff(a) <==> forall i :: 0 <= i < |a| ==> a[i] != '1'
  {
  }

  /** A value copy of a `GameState`: actions, and per player a range value and a range length. */
  datatype RangeState = RangeState(actions: string, rangeVals: seq<real>, rangeLens: seq<real>)
  {
    ghost predicate WellFormed() {
      |rangeVals| == MAX_PLAYERS && |rangeLens| == MAX_PLAYERS
    }
  }

  /** Real division, with 0.0 standing in for the infinity or NaN that floating point
      gives when the interval fraction is zero. */
  function Quot(x: real, y: real): (r: real)
    ensures y != 0.0 ==> r * y == x
    ensures y == 0.0 ==> r == 0.0
  {
    if y == 0.0 then 0.0 else x / y
  }

  /** `len1`: the share of a range that jams (below `value()` or at or above `bluff()`). */
  function Len1(h: HistoryView): (r: real)
    ensures h.Valid() ==> 0.0 <= r <= 1.0
  {
    h.Value() + 1.0 - h.Bluff()
  }

  /** `len0`: the share of a range that folds (from `value()` up to `bluff()`). */
  function Len0(h: HistoryView): (r: real)
    ensures h.Valid() ==> 0.0 <= r <= 1.0
    ensures r + Len1(h) == 1.0
  {
    h.Bluff() - h.Value()
  }

  /** A range length after keeping the share `share` of it. */
  function Scaled(len: real, share: real): real {
    len * share
  }

  /** `take_action(d, his)` on a copy: append `d` and condition the acting player's range on it. */
  function Taken(s: RangeState, d: char, h: HistoryView): (r: RangeState)
    requires s.WellFormed()
    ensures r.WellFormed()
    ensures r.actions == s.actions + [d]
    ensures forall q :: 0 <= q < MAX_PLAYERS && q != Player(s.actions) ==>
      r.rangeVals[q] == s.rangeVals[q] && r.rangeLens[q] == s.rangeLens[q]
  {
    var p := Player(s.actions);
    var rv := s.rangeVals[p];
    if d == '1' then
      var nv :=
        if rv < h.Value() then Quot(rv, Len1(h))
        else if rv < h.Bluff() then Quot(h.Value(), Len1(h))
        else Quot(h.Value() + rv, Len1(h));
      RangeState(s.actions + [d], s.rangeVals[p := nv], s.rangeLens[p := Scaled(s.rangeLens[p], Len1(h))])
    else
      RangeState(s.actions + [d], s.rangeVals[p := Quot(rv - h.Value(), Len0(h))],
                 s.rangeLens[p := Scaled(s.rangeLens[p], Len0(h))])
  }

  /** A jam scales the acting player's range length by `len1`, any other action by `len0`;
      from a valid node a non-negative length therefore never grows. */
  lemma RangeLenShrinks(s: RangeState, d: char, h: HistoryView)
    requires s.WellFormed() && h.Valid()
    requires s.rangeLens[Player(s.actions)] >= 0.0
    ensures var p := Player(s.actions);
      var r := Taken(s, d, h);
      r.rangeLens[p] == Scaled(s.rangeLens[p], if d == '1' then Len1(h) else Len0(h)) &&
      0.0 <= r.rangeLens[p] <= s.rangeLens[p]
  {
    var p := Player(s.actions);
    var f := if d == '1' then Len1(h) else Len0(h);
    var len := s.rangeLens[p];
    assert 0.0 <= f <= 1.0;
    assert len - Scaled(len, f) == len * (1.0 - f);
    assert len * (1.0 - f) >= 0.0;
  }

  /** Where the two thresholds meet, the fold band is empty: `len0` is zero, and a fold
      leaves the acting seat the stand-in 0 where floating point gives inf or NaN. */
  lemma EmptyFoldBand(s: RangeState, h: HistoryView)
    requires s.WellFormed() && h.Value() == h.Bluff()
    ensures Len0(h) == 0.0
    ensures Taken(s, '0', h).rangeVals[Player(s.actions)] == 0.0
  {
  }

  /** The fold trace: value .3, bluff .7, range value .2 scales the length by .4 and
      moves the range value to (.2 - .3) / .4 = -.25. */
  lemma FoldTrace(s: RangeState, h: HistoryView)
    requires s.WellFormed() && s.actions == "" && s.rangeVals[0] == 0.2
    requires h.Value() == 0.3 && h.Bluff() == 0.7
    ensures Taken(s, '0', h).rangeLens[0] == 0.4 * s.rangeLens[0]
    ensures Taken(s, '0', h).rangeVals[0] == -0.25
  {
  }

  class GameState {
    var actions: string
    var rangeVals: seq<real>
    var rangeLens: seq<real>

    ghost predicate Valid()
      reads this
    {
      View().WellFormed()
    }

    function View(): RangeState
      reads this
    {
      RangeState(actions, rangeVals, rangeLens)
    }

    /** A fresh `GameState` with `actions = ""`; the source leaves the ranges
        uninitialised, the model starts them at zero. */
    constructor Empty()
      ensures Valid() && actions == ""
    {
      actions := "";
      rangeVals := seq(MAX_PLAYERS, _ => 0.0);
      rangeLens := seq(MAX_PLAYERS, _ => 0.0);
    }

    /** The struct copy `GameState ret = state`, from the copied state's value. */
    constructor Copy(s: RangeState)
      ensures View() == s
    {
      actions := s.actions;
      rangeVals := s.rangeVals;
      rangeLens := s.rangeLens;
    }

    /** `GameState::take_action`. */
    method TakeAction(d: char, his: History)
      requires Valid()
      modifies this
      ensures Valid()
      ensures View() == Taken(old(View()), d, his.View())
    {
      var player := Player(actions);
      var rv := rangeVals[player];
      var len1 := Len1(his.View());
      var len0 := Len0(his.View());
      actions := actions + [d];
      if d == '1' {
        rangeLens := rangeLens[player := rangeLens[player] * len1];
        assert rangeLens[player] == Scaled(old(rangeLens)[player], len1);
        if rv < his.Value() {
          rangeVals := rangeVals[player := Quot(rv, len1)];
        } else if rv < his.Bluff() {
          rangeVals := rangeVals[player := Quot(his.Value(), len1)];
        } else {
          rangeVals := rangeVals[player := Quot(his.Value() + rv, len1)];
        }
      } else {
        rangeLens := rangeLens[player := rangeLens[player] * len0];
        assert rangeLens[player] == Scaled(old(rangeLens)[player], len0);
        rangeVals := rangeVals[player := Quot(rv - his.Value(), len0)];
      }
    }
  }
}
