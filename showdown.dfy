/** The showdown resolver: who wins the hand and what every seat is paid (3p.cc:106-140). */
module Resolver {
  import opened Params
  import opened Targets
  import opened GameStates
  import opened Tree

  datatype Option<T> = None | Some(value: T)

  /** `has_aggressor`; on an empty string `actions[0]` reads the terminating NUL, not a jam. */
  predicate HasAggressor(a: string) {
    |a| > NP || (|a| > 0 && a[0] == '1')
  }

  /** The action at position `i` competes for the pot: any action when nobody is an
      aggressor, otherwise only jams. */
  predicate Eligible(a: string, i: nat)
    requires i < |a|
  {
    !HasAggressor(a) || a[i] == '1'
  }

  /** `win_val` for a leading position (2 before anyone qualifies). */
  function LeadVal(vals: seq<real>, w: Option<nat>): real
    requires |vals| == MAX_PLAYERS
  {
    match w
    case None => 2.0
    case Some(j) => vals[j % NP]
  }

  /** `winner` for a leading position (seat 0 before anyone qualifies). */
  function LeadPlayer(w: Option<nat>): (p: nat)
    ensures p < NP
  {
    match w
    case None => 0
    case Some(j) => j % NP
  }

  /** The leading position after the first `n` actions of the scan at 3p.cc:113-120. */
  function LeadPos(a: string, vals: seq<real>, n: nat): (w: Option<nat>)
    requires n <= |a| && |vals| == MAX_PLAYERS
    ensures w.Some? ==> w.value < n
  {
    if n == 0 then None
    else
      var prev := LeadPos(a, vals, n - 1);
      if Eligible(a, n - 1) && vals[(n - 1) % NP] < LeadVal(vals, prev) then Some(n - 1) else prev
  }

  /** Position `j` holds the strictly lowest value below 2 among the eligible actions
      of the first `n`, and no earlier eligible action ties it. */
  ghost predicate EarliestMin(a: string, vals: seq<real>, n: nat, j: nat)
    requires n <= |a| && |vals| == MAX_PLAYERS
  {
    j < n && Eligible(a, j) && vals[j % NP] < 2.0 &&
    (forall i :: 0 <= i < n && Eligible(a, i) ==> vals[j % NP] <= vals[i % NP]) &&
    (forall i :: 0 <= i < j && Eligible(a, i) ==> vals[j % NP] < vals[i % NP])
  }

  /** The scan's leader is the earliest eligible minimum; there is none exactly when no
      eligible action has a value below 2. */
  lemma {:induction false} LeadPosSound(a: string, vals: seq<real>, n: nat)
    requires n <= |a| && |vals| == MAX_PLAYERS
    ensures LeadPos(a, vals, n).Some? ==> EarliestMin(a, vals, n, LeadPos(a, vals, n).value)
    ensures LeadPos(a, vals, n).None? <==> forall i :: 0 <= i < n && Eligible(a, i) ==> vals[i % NP] >= 2.0
  {
    if n > 0 {
      LeadPosSound(a, vals, n - 1);
    }
  }

  /** At most one position is the earliest eligible minimum. */
  lemma EarliestMinUnique(a: string, vals: seq<real>, n: nat, j: nat, k: nat)
    requires n <= |a| && |vals| == MAX_PLAYERS
    requires EarliestMin(a, vals, n, j) && EarliestMin(a, vals, n, k)
    ensures j == k
  {
  }

  /** The winner found by the scan is exactly the earliest eligible minimum (ties go to the
      earliest position). */
  lemma LeadPosIsEarliestMin(a: string, vals: seq<real>, n: nat, j: nat)
    requires n <= |a| && |vals| == MAX_PLAYERS
    ensures LeadPos(a, vals, n) == Some(j) <==> EarliestMin(a, vals, n, j)
  {
    LeadPosSound(a, vals, n);
    if EarliestMin(a, vals, n, j) {
      var w := LeadPos(a, vals, n);
      EarliestMinUnique(a, vals, n, j, w.value);
    }
  }

  /** The seat that collects the pot. */
  function Winner(a: string, vals: seq<real>): (p: nat)
    requires |vals| == MAX_PLAYERS
    ensures p < NP
  {
    LeadPlayer(LeadPos(a, vals, |a|))
  }

  /** Number of jams. */
  function Jams(a: string): (c: nat)
    ensures c == 0 <==> forall i :: 0 <= i < |a| ==> a[i] != '1'
  {
    if |a| == 0 then 0 else Jams(a[..|a| - 1]) + (if a[|a| - 1] == '1' then 1 else 0)
  }

  /** The pot: the ante of 1 plus `SPR` per jam. */
  function Pot(a: string): real {
    1.0 + SPR * Jams(a) as real
  }

  /** The pot is at least the ante, and exactly the ante when nobody jams. */
  lemma PotAtLeastAnte(a: string)
    ensures Pot(a) >= 1.0
    ensures Pot(a) == 1.0 <==> forall i :: 0 <= i < |a| ==> a[i] != '1'
  {
  }

  /** What an action costs its seat: `-SPR` for a jam, nothing for a fold. */
  function Stake(c: char): real {
    if c == '1' then -SPR else 0.0
  }

  /** The position of seat `q`'s last action among the first `n`. */
  function LastPos(n: nat, q: nat): (i: nat)
    requires q < NP && q < n
    ensures i < n && i % NP == q && n <= i + NP
    ensures forall k :: i < k < n ==> k % NP != q
  {
    if (n - 1) % NP == q then n - 1 else LastPos(n - 1, q)
  }

  /** A seat's reward before the pot is added: set by its last action, or left as it was
      when the seat has not acted. */
  function Base(prev: seq<real>, a: string, q: nat): real
    requires |prev| == MAX_PLAYERS && q < MAX_PLAYERS
  {
    if q < NP && q < |a| then Stake(a[LastPos(|a|, q)]) else prev[q]
  }

  /** Scanning one more action: it sets its own seat's reward and leaves the others. */
  lemma BaseStep(prev: seq<real>, a: string, i: nat, q: nat)
    requires |prev| == MAX_PLAYERS && q < MAX_PLAYERS && i < |a|
    ensures Base(prev, a[..i + 1], q) == if q == i % NP then Stake(a[i]) else Base(prev, a[..i], q)
  {
  }

  /** Every seat's reward before the pot is added. */
  function Bases(prev: seq<real>, a: string): (r: seq<real>)
    requires |prev| == MAX_PLAYERS
    ensures |r| == MAX_PLAYERS && forall q :: 0 <= q < MAX_PLAYERS ==> r[q] == Base(prev, a, q)
  {
    seq(MAX_PLAYERS, q requires 0 <= q < MAX_PLAYERS => Base(prev, a, q))
  }

  /** Scanning one more action sets its own seat's entry of `Bases` and no other. */
  lemma BasesStep(prev: seq<real>, a: string, i: nat)
    requires |prev| == MAX_PLAYERS && i < |a|
    ensures Bases(prev, a[..i + 1]) == Bases(prev, a[..i])[i % NP := Stake(a[i])]
  {
    forall q | 0 <= q < MAX_PLAYERS
      ensures Base(prev, a[..i + 1], q) == if q == i % NP then Stake(a[i]) else Base(prev, a[..i], q)
    {
      BaseStep(prev, a, i, q);
    }
  }

  /** Scanning one more action adds it to the count of jams. */
  lemma JamsStep(a: string, i: nat)
    requires i < |a|
    ensures Jams(a[..i + 1]) == Jams(a[..i]) + if a[i] == '1' then 1 else 0
  {
    assert a[..i + 1][..i] == a[..i];
  }

  /** The `rewards` array after `showdown(state)`, from its previous contents `prev`. */
  function Resolved(prev: seq<real>, a: string, vals: seq<real>): (r: seq<real>)
    requires |prev| == MAX_PLAYERS && |vals| == MAX_PLAYERS
    ensures |r| == MAX_PLAYERS
  {
    var base := Bases(prev, a);
    base[Winner(a, vals) := base[Winner(a, vals)] + Pot(a)]
  }

  /** When somebody jammed and a jam took the pot, the winner's own last action was that
      jam: it pays its stake and collects the whole pot. */
  lemma WinnerJammed(prev: seq<real>, a: string, vals: seq<real>)
    requires |prev| == MAX_PLAYERS && |vals| == MAX_PLAYERS
    requires Reachable(a) && IsShowdown(a) && HasAggressor(a) && LeadPos(a, vals, |a|).Some?
    ensures Resolved(prev, a, vals)[Winner(a, vals)] == Pot(a) - SPR
  {
    var f := FirstJam(a);
    assert Binary(a) && f < NP && |a| == f + NP by {
      TerminalShape(a);
    }
    var j := LeadPos(a, vals, |a|).value;
    assert a[j] == '1' by {
      LeadPosSound(a, vals, |a|);
    }
    var w := Winner(a, vals);
    assert w == j % NP;
    var i := LastPos(|a|, w);
    assert i == j by {
      assert f <= j <= i;
      assert (i - j) % NP == 0 && 0 <= i - j < NP;
    }
    assert Base(prev, a, w) == -SPR;
  }

  /** When everybody folded, every seat is paid nothing but the winner, who takes the ante. */
  lemma FoldRoundPays(prev: seq<real>, a: string, vals: seq<real>)
    requires |prev| == MAX_PLAYERS && |vals| == MAX_PLAYERS
    requires Reachable(a) && IsShowdown(a) && !HasAggressor(a)
    ensures forall q :: 0 <= q < MAX_PLAYERS ==>
      Resolved(prev, a, vals)[q] == if q == Winner(a, vals) then 1.0 else 0.0
  {
    TerminalShape(a);
    assert AllFolds(a);
    forall q | 0 <= q < MAX_PLAYERS
      ensures Base(prev, a, q) == 0.0
    {
      assert a[LastPos(|a|, q)] == '0';
    }
    assert Jams(a) == 0;
  }

  /** On a reachable showdown there is an aggressor exactly when somebody jammed. */
  lemma AggressorIffJam(a: string)
    requires Reachable(a) && IsShowdown(a)
    ensures HasAggressor(a) <==> exists i :: 0 <= i < |a| && a[i] == '1'
  {
    TerminalShape(a);
    var f := FirstJam(a);
    if f < |a| {
      assert a[f] == '1';
    }
  }

  lemma {:induction false} SumUpdate(s: seq<real>, i: nat, v: real)
    requires i < |s|
    ensures Sum(s[i := v]) == Sum(s) - s[i] + v
  {
    var t := s[i := v];
    if i == |s| - 1 {
      assert t[..|t| - 1] == s[..|s| - 1];
    } else {
      assert t[..|t| - 1] == s[..|s| - 1][i := v];
      SumUpdate(s[..|s| - 1], i, v);
    }
  }

  lemma {:induction false} JamsConcat(x: string, y: string)
    ensures Jams(x + y) == Jams(x) + Jams(y)
  {
    if |y| > 0 {
      assert (x + y)[..|x + y| - 1] == x + y[..|y| - 1];
      JamsConcat(x, y[..|y| - 1]);
    } else {
      assert x + y == x;
    }
  }

  /** The stakes of the seats' last actions, seat by seat. */
  function Stakes(a: string): (s: seq<real>)
    requires |a| >= NP
    ensures |s| == NP
  {
    seq(NP, q requires 0 <= q < NP => Stake(a[LastPos(|a|, q)]))
  }

  lemma {:induction false} StakesOfRound(x: string)
    ensures Sum(seq(|x|, i requires 0 <= i < |x| => Stake(x[i]))) == -SPR * Jams(x) as real
  {
    var s := seq(|x|, i requires 0 <= i < |x| => Stake(x[i]));
    if |x| > 0 {
      var y := x[..|x| - 1];
      assert s[..|s| - 1] == seq(|y|, i requires 0 <= i < |y| => Stake(y[i]));
      StakesOfRound(y);
    }
  }

  /** One more action replaces the stake of the seat that acted `NP` positions earlier. */
  lemma StakesStep(a: string)
    requires |a| > NP
    ensures Sum(Stakes(a)) == Sum(Stakes(a[..|a| - 1])) - Stake(a[|a| - 1 - NP]) + Stake(a[|a| - 1])
  {
    var n := |a|;
    var b := a[..n - 1];
    var m := (n - 1) % NP;
    assert LastPos(n - 1, m) == n - 1 - NP;
    assert Stakes(a) == Stakes(b)[m := Stake(a[n - 1])];
    SumUpdate(Stakes(b), m, Stake(a[n - 1]));
  }

  /** Sliding the window of the last `NP` actions by one. */
  lemma JamsSlide(a: string)
    requires |a| > NP
    ensures var b := a[..|a| - 1];
      Jams(a[|a| - NP..]) == Jams(b[|b| - NP..]) - (if a[|a| - 1 - NP] == '1' then 1 else 0)
        + (if a[|a| - 1] == '1' then 1 else 0)
  {
    var n := |a|;
    var b := a[..n - 1];
    var mid := a[n - NP..n - 1];
    assert b[|b| - NP..] == [a[n - 1 - NP]] + mid;
    assert a[n - NP..] == mid + [a[n - 1]];
    JamsConcat([a[n - 1 - NP]], mid);
    JamsConcat(mid, [a[n - 1]]);
  }

  /** The last actions of the seats are the last `NP` actions, so their stakes total
      `-SPR` times the jams among those. */
  lemma {:induction false} StakesSum(a: string)
    requires |a| >= NP
    ensures Sum(Stakes(a)) == -SPR * Jams(a[|a| - NP..]) as real
  {
    if |a| == NP {
      assert Stakes(a) == seq(|a|, i requires 0 <= i < |a| => Stake(a[i]));
      StakesOfRound(a);
      assert a[|a| - NP..] == a;
    } else {
      StakesSum(a[..|a| - 1]);
      StakesStep(a);
      JamsSlide(a);
    }
  }

  /** Once every seat has acted the rewards total the ante plus `SPR` for each jam made
      before the last round of `NP` actions. */
  lemma RewardsTotal(prev: seq<real>, a: string, vals: seq<real>)
    requires |prev| == MAX_PLAYERS && |vals| == MAX_PLAYERS && |a| >= NP
    ensures Sum(Resolved(prev, a, vals)) == 1.0 + SPR * Jams(a[..|a| - NP]) as real
  {
    var w := Winner(a, vals);
    var base := Bases(prev, a);
    var head, tail := a[..|a| - NP], a[|a| - NP..];
    assert base == Stakes(a);
    SumUpdate(base, w, base[w] + Pot(a));
    assert Sum(Resolved(prev, a, vals)) == Sum(base) + Pot(a);
    StakesSum(a);
    assert a == head + tail;
    JamsConcat(head, tail);
    assert Pot(a) == 1.0 + SPR * Jams(head) as real + SPR * Jams(tail) as real;
  }

  /** At every showdown play can reach, the rewards total exactly 1, the starting pot:
      jammers pay what the winner collects beyond the ante. */
  lemma TerminalRewardsTotalOne(prev: seq<real>, a: string, vals: seq<real>)
    requires |prev| == MAX_PLAYERS && |vals| == MAX_PLAYERS
    requires Reachable(a) && IsShowdown(a)
    ensures Sum(Resolved(prev, a, vals)) == 1.0
  {
    TerminalShape(a);
    RewardsTotal(prev, a, vals);
    var head := a[..|a| - NP];
    assert forall i :: 0 <= i < |head| ==> head[i] == a[i];
  }
}
