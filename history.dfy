/** The two thresholds learned at one decision node (`History`, 3p.cc:43-61). */
module Histories {
  import opened Targets

  /** The state of a `History`: the value threshold and the bluff threshold. */
  datatype HistoryView = HistoryView(valueT: TargetView, bluffT: TargetView)
  {
    /** `value()`: the running average of the value threshold. */
    function Value(): real { valueT.avg }

    /** `bluff()`: the running average of the bluff threshold. */
    function Bluff(): real { bluffT.avg }

    /** Each estimator is within its own bounds, which are the ones the constructor fixes. */
    ghost predicate Valid() {
      valueT.Valid() && bluffT.Valid() &&
      valueT.lower == 0.0 && valueT.upper == 0.5 &&
      bluffT.lower == 0.5 && bluffT.upper == 1.0
    }

    /** `learn_value`: the regret goes unchanged to the value threshold only. */
    function LearnValue(regret: real, sqrt: real -> PosReal): (r: HistoryView)
      ensures r.bluffT == bluffT
      ensures r.valueT.count == valueT.count + 1
    {
      HistoryView(Learned(valueT, regret, sqrt), bluffT)
    }

    /** `learn_bluff`: the negated regret goes to the bluff threshold only. */
    function LearnBluff(regret: real, sqrt: real -> PosReal): (r: HistoryView)
      ensures r.valueT == valueT
      ensures r.bluffT.count == bluffT.count + 1
    {
      HistoryView(valueT, Learned(bluffT, -regret, sqrt))
    }
  }

  /** What `History()` builds: value threshold 0 in [0, .5], bluff threshold 1 in [.5, 1]. */
  const InitialHistory: HistoryView :=
    HistoryView(TargetView(0.0, 0.0, 0, 0.0, 0.5), TargetView(1.0, 1.0, 0, 0.5, 1.0))

  /** A valid node keeps its value threshold in [0, .5] and its bluff threshold in [.5, 1]. */
  lemma ThresholdRanges(h: HistoryView)
    requires h.Valid()
    ensures 0.0 <= h.Value() <= 0.5 <= h.Bluff() <= 1.0
  {
  }

  /** Both learning entry points keep a valid node valid. */
  lemma {:induction false} LearningKeepsValid(h: HistoryView, regret: real, sqrt: real -> PosReal)
    requires h.Valid()
    ensures h.LearnValue(regret, sqrt).Valid()
    ensures h.LearnBluff(regret, sqrt).Valid()
  {
    LearnKeepsValid(h.valueT, regret, sqrt);
    LearnKeepsValid(h.bluffT, -regret, sqrt);
  }

  /** Two nodes never share a threshold object. */
  predicate Separate(h1: History, h2: History) {
    h1.valueThresh != h2.valueThresh && h1.valueThresh != h2.bluffThresh &&
    h1.bluffThresh != h2.valueThresh && h1.bluffThresh != h2.bluffThresh
  }

  class History {
    const valueThresh: Target
    const bluffThresh: Target

    constructor ()
      ensures fresh(valueThresh) && fresh(bluffThresh)
      ensures Valid() && View() == InitialHistory
    {
      valueThresh := new Target(0.0, 0.0, 0.5);
      bluffThresh := new Target(1.0, 0.5, 1.0);
    }

    function View(): HistoryView
      reads valueThresh, bluffThresh
    {
      HistoryView(valueThresh.View(), bluffThresh.View())
    }

    ghost predicate Valid()
      reads valueThresh, bluffThresh
    {
      valueThresh != bluffThresh && View().Valid()
    }

    function Value(): (r: real)
      reads valueThresh, bluffThresh
      ensures r == View().Value()
    {
      valueThresh.avg
    }

    function Bluff(): (r: real)
      reads valueThresh, bluffThresh
      ensures r == View().Bluff()
    {
      bluffThresh.avg
    }

    method LearnValue(regret: real, sqrt: real -> PosReal)
      requires Valid()
      modifies valueThresh
      ensures Valid()
      ensures View() == old(View()).LearnValue(regret, sqrt)
    {
      LearningKeepsValid(View(), regret, sqrt);
      valueThresh.Learn(regret, sqrt);
    }

    method LearnBluff(regret: real, sqrt: real -> PosReal)
      requires Valid()
      modifies bluffThresh
      ensures Valid()
      ensures View() == old(View()).LearnBluff(regret, sqrt)
    {
      LearningKeepsValid(View(), regret, sqrt);
      bluffThresh.Learn(-regret, sqrt);
    }
  }
}
