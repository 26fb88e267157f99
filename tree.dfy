/** Which action strings a hand can pass through (3p.cc:93-97, 259-273). */
module Tree {
  import opened Params
  import opened GameStates

  /** Index of the first jam, or `|a|` when nobody has jammed. */
  function FirstJam(a: string): (f: nat)
    ensures f <= |a|
    ensures forall i :: 0 <= i < f ==> a[i] != '1'
    ensures f < |a| ==> a[f] == '1'
  {
    if |a| == 0 || a[0] == '1' then 0 else 1 + FirstJam(a[1..])
  }

  /** A string of actions that play can produce from `""`: no proper prefix is a showdown. */
  ghost predicate Reachable(a: string) {
    Binary(a) && forall k :: 0 <= k < |a| ==> !IsShowdown(a[..k])
  }

  /** A decision node: reachable and not yet a showdown. */
  ghost predicate Node(a: string) {
    Reachable(a) && !IsShowdown(a)
  }

  /** A prefix of length `k` is no showdown while `k < NP`, or while the first jam lies
      in the first round and action has not come back round to the jammer. */
  lemma {:induction false} NoShowdownBefore(a: string, k: nat)
    requires Binary(a) && k <= |a|
    requires k < NP || (FirstJam(a) < NP && k < FirstJam(a) + NP)
    ensures !IsShowdown(a[..k])
  {
    var b := a[..k];
    if k >= NP {
      var f := FirstJam(a);
      assert Player(b) == k - NP;
      assert b[k - NP] == a[k - NP] != '1';
      assert b[f] == a[f] == '1';
    }
  }

  /** A first-round jam at `f` makes the prefix of length `f + NP` a showdown. */
  lemma JamComesRound(a: string, f: nat)
    requires f < NP && f + NP <= |a| && a[f] == '1'
    ensures IsShowdown(a[..f + NP])
  {
    var c := a[..f + NP];
    assert Player(c) == f && c[f] == a[f];
  }

  /** A reachable string that reaches `NP` actions holds a jam within its first round. */
  lemma {:induction false} FirstRoundJam(a: string)
    requires Reachable(a) && |a| >= NP && !(|a| == NP && AllFolds(a))
    ensures FirstJam(a) < NP
  {
    var b := a[..NP];
    assert !AllFolds(b) by {
      if |a| == NP {
        assert b == a;
      } else {
        assert !IsShowdown(a[..NP]);
      }
    }
    var i :| 0 <= i < NP && b[i] != '0';
    assert a[i] == b[i];
  }

  /** The decision nodes are exactly the binary strings shorter than `NP`, or shorter than
      the first jam's index plus `NP` when that jam came in the first round. */
  lemma {:induction false} NodeShape(a: string)
    ensures Node(a) <==> Binary(a) && (|a| < NP || (FirstJam(a) < NP && |a| < FirstJam(a) + NP))
  {
    var f := FirstJam(a);
    if Node(a) && |a| >= NP {
      FirstRoundJam(a);
      if |a| >= f + NP {
        JamComesRound(a, f);
      }
    }
    if Binary(a) && (|a| < NP || (f < NP && |a| < f + NP)) {
      forall k | 0 <= k <= |a|
        ensures !IsShowdown(a[..k])
      {
        NoShowdownBefore(a, k);
      }
      assert a[..|a|] == a;
    }
  }

  /** A hand ends either after exactly one round of folds, or when action comes back
      round to the first jammer, `NP` actions after that jam. */
  lemma {:induction false} TerminalShape(a: string)
    ensures Reachable(a) && IsShowdown(a) <==>
      Binary(a) && ((|a| == NP && AllFolds(a)) || (FirstJam(a) < NP && |a| == FirstJam(a) + NP))
  {
    var f := FirstJam(a);
    if Reachable(a) && IsShowdown(a) && !(|a| == NP && AllFolds(a)) {
      FirstRoundJam(a);
      if |a| > f + NP {
        JamComesRound(a, f);
      }
    }
    if Binary(a) && ((|a| == NP && AllFolds(a)) || (f < NP && |a| == f + NP)) {
      forall k | 0 <= k < |a|
        ensures !IsShowdown(a[..k])
      {
        NoShowdownBefore(a, k);
      }
      if f < NP && |a| == f + NP {
        assert Player(a) == f;
      }
    }
  }

  /** Every decision node is shorter than `2 * NP - 1`. */
  lemma NodeLength(a: string)
    requires Node(a)
    ensures |a| <= 2 * NP - 2
  {
    NodeShape(a);
  }

  /** A showdown is first reached at a length between `NP` and `2 * NP - 1`; the all-fold
      string ends the hand at exactly `NP`. */
  lemma TerminalLength(a: string)
    requires Reachable(a) && IsShowdown(a)
    ensures NP <= |a| <= 2 * NP - 1
    ensures AllFolds(a) ==> |a| == NP
  {
    TerminalShape(a);
  }

  /** No reachable string is longer than `2 * NP - 1`. */
  lemma ReachableLength(a: string)
    requires Reachable(a)
    ensures |a| <= 2 * NP - 1
  {
    if IsShowdown(a) {
      TerminalLength(a);
    } else {
      NodeLength(a);
    }
  }

  /** Either action at a decision node gives a reachable string. */
  lemma ChildReachable(a: string, d: char)
    requires Node(a) && IsAction(d)
    ensures Reachable(a + [d])
  {
    var c := a + [d];
    forall k | 0 <= k < |c|
      ensures !IsShowdown(c[..k])
    {
      assert c[..k] == a[..k];
      if k == |a| {
        assert a[..k] == a;
      }
    }
  }

  /** Prefixes of reachable strings are reachable. */
  lemma PrefixReachable(b: string, k: nat)
    requires Reachable(b) && k <= |b|
    ensures Reachable(b[..k])
  {
    var c := b[..k];
    forall j | 0 <= j < k
      ensures !IsShowdown(c[..j])
    {
      assert c[..j] == b[..j];
    }
  }

  function Folds(n: nat): (a: string)
    ensures |a| == n && AllFolds(a)
  {
    seq(n, _ => '0')
  }

  /** Folding round from `""`: every fold string up to length `NP` is reachable, and only
      the one of length `NP` is a showdown. */
  lemma FoldPath(n: nat)
    requires n <= NP
    ensures Reachable(Folds(n))
    ensures IsShowdown(Folds(n)) <==> n == NP
  {
    var a := Folds(n);
    assert FirstJam(a) == n;
    if n < NP {
      NodeShape(a);
    } else {
      TerminalShape(a);
    }
  }

  /** `b` is a decision node at or below `a` in the game tree. */
  ghost predicate Below(a: string, b: string) {
    |a| <= |b| && b[..|a|] == a && Node(b)
  }

  /** The decision nodes at or below a decision node are that node and those below its two children. */
  lemma BelowSplit(a: string, b: string)
    requires Node(a)
    ensures Below(a, b) <==> b == a || Below(a + ['0'], b) || Below(a + ['1'], b)
  {
    if Below(a, b) && b != a {
      var c := b[|a|];
      assert b[..|a| + 1] == a + [c];
      assert IsAction(c);
    }
    if b == a {
      assert b[..|a|] == a;
    }
    if Below(a + ['0'], b) {
      assert b[..|a|] == b[..|a| + 1][..|a|];
    }
    if Below(a + ['1'], b) {
      assert b[..|a|] == b[..|a| + 1][..|a|];
    }
  }

  /** Nothing lies below a showdown. */
  lemma BelowShowdown(a: string, b: string)
    requires IsShowdown(a)
    ensures !Below(a, b)
  {
  }

  /** The decision nodes `initialize` creates from `a`: none at a showdown, otherwise `a`
      itself and those created from its fold and from its jam (3p.cc:259-273). */
  function Subtree(a: string): set<string>
    requires Reachable(a)
    decreases 2 * NP - |a|
  {
    if IsShowdown(a) then {}
    else
      NodeLength(a);
      ChildReachable(a, '0');
      ChildReachable(a, '1');
      {a} + Subtree(a + ['0']) + Subtree(a + ['1'])
  }

  /** The enumeration visits exactly the decision nodes below its starting point. */
  lemma {:induction false} SubtreeIsBelow(a: string, b: string)
    requires Reachable(a)
    ensures b in Subtree(a) <==> Below(a, b)
    decreases 2 * NP - |a|
  {
    if IsShowdown(a) {
      BelowShowdown(a, b);
    } else {
      NodeLength(a);
      ChildReachable(a, '0');
      ChildReachable(a, '1');
      BelowSplit(a, b);
      SubtreeIsBelow(a + ['0'], b);
      SubtreeIsBelow(a + ['1'], b);
    }
  }

  /** A set of keys that grew by exactly the strings below `a` grew by `Subtree(a)`. */
  lemma SubtreeKeys(k0: set<string>, k: set<string>, a: string)
    requires Reachable(a)
    requires forall b :: b in k <==> b in k0 || Below(a, b)
    ensures k == k0 + Subtree(a)
  {
    forall b
      ensures b in k <==> b in k0 + Subtree(a)
    {
      SubtreeIsBelow(a, b);
    }
  }

  /** Enumerating from the empty action string creates every decision node and nothing else. */
  lemma SubtreeOfRoot(b: string)
    ensures b in Subtree("") <==> Node(b)
  {
    assert Reachable("");
    SubtreeIsBelow("", b);
    assert b[..0] == "";
  }
}
