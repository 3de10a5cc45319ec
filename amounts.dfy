/**
  Checks (4) and (5) of the validators over Java `double` amounts, reduced
  to the two kinds of value that matter here: finite whole amounts and NaN.
  Every comparison with NaN is false, and a sum with NaN in it is NaN.
  The rest of the model keeps amounts as `int`, which is the corrected rule
  below: the two agree on finite amounts, and the corrected rule rejects NaN.
 */
module Amounts {
  import opened Ledger

  datatype Amount = Finite(v: int) | NaN

  /** Java's `+` on these values. */
  function Plus(x: Amount, y: Amount): (r: Amount)
    ensures r.NaN? <==> x.NaN? || y.NaN?
    ensures r.Finite? ==> r.v == x.v + y.v
  {
    if x.NaN? || y.NaN? then NaN else Finite(x.v + y.v)
  }

  /** Java's `<` on these values: false once either operand is NaN. */
  predicate LessThan(x: Amount, y: Amount)
  {
    x.Finite? && y.Finite? && x.v < y.v
  }

  /** The running sum of the output loop, accumulated in output order. */
  function AmountSum(outs: seq<Amount>): (r: Amount)
    ensures r.NaN? <==> exists i :: 0 <= i < |outs| && outs[i].NaN?
    decreases |outs|
  {
    if outs == [] then Finite(0)
    else
      var r := Plus(AmountSum(outs[..|outs| - 1]), outs[|outs| - 1]);
      assert forall i :: 0 <= i < |outs| - 1 ==> outs[..|outs| - 1][i] == outs[i];
      r
  }

  /** Checks (4) and (5) as the three validators write them: no output is
      `< 0`, and the input sum is not `<` the output sum. */
  ghost predicate PassesAsWritten(outs: seq<Amount>, sumIn: Amount)
  {
    && (forall i :: 0 <= i < |outs| ==> !LessThan(outs[i], Finite(0)))
    && !LessThan(sumIn, AmountSum(outs))
  }

  /** An output of NaN passes both checks, with a second output worth more
      than all the inputs. */
  lemma NaNOutputPasses(sumIn: int, x: int)
    requires 0 <= sumIn < x
    ensures PassesAsWritten([NaN, Finite(x)], Finite(sumIn))
  {
    assert AmountSum([NaN, Finite(x)]).NaN? by {
      assert [NaN, Finite(x)][0].NaN?;
    }
  }

  /** Spending a UTXO worth NaN passes both checks whatever the outputs are
      worth. */
  lemma NaNInputPasses(outs: seq<Amount>)
    requires forall i :: 0 <= i < |outs| ==> outs[i].Finite? && outs[i].v >= 0
    ensures PassesAsWritten(outs, NaN)
  {
  }

  /** The checks as intended: every amount is a number, no output is
      negative, and the outputs are worth no more than the inputs. */
  ghost predicate PassesCorrected(outs: seq<Amount>, sumIn: Amount)
  {
    && sumIn.Finite?
    && (forall i :: 0 <= i < |outs| ==> outs[i].Finite? && outs[i].v >= 0)
    && AmountSum(outs).Finite? && AmountSum(outs).v <= sumIn.v
  }

  /** On numbers, the checks as written and as intended agree. */
  lemma {:induction false} AsWrittenOnNumbers(outs: seq<Amount>, sumIn: Amount)
    requires sumIn.Finite? && forall i :: 0 <= i < |outs| ==> outs[i].Finite?
    ensures PassesAsWritten(outs, sumIn) <==> PassesCorrected(outs, sumIn)
  {
    assert AmountSum(outs).Finite?;
  }

  /** The corrected checks reject a NaN anywhere. */
  lemma CorrectedRejectsNaN(outs: seq<Amount>, sumIn: Amount)
    requires sumIn.NaN? || exists i :: 0 <= i < |outs| && outs[i].NaN?
    ensures !PassesCorrected(outs, sumIn)
  {
  }

  /** The output values of a transaction as amounts. */
  function Lift(outs: seq<Output>): (r: seq<Amount>)
    ensures |r| == |outs|
    ensures forall i :: 0 <= i < |outs| ==> r[i] == Finite(outs[i].value)
  {
    seq(|outs|, i requires 0 <= i < |outs| => Finite(outs[i].value))
  }

  lemma {:induction false} LiftSum(outs: seq<Output>)
    ensures AmountSum(Lift(outs)) == Finite(OutputValue(outs))
    decreases |outs|
  {
    if outs != [] {
      var n := |outs| - 1;
      LiftSum(outs[..n]);
      assert Lift(outs)[..n] == Lift(outs[..n]);
    }
  }

  /** The corrected checks are exactly conditions (4) and (5) of the rest of
      the model, on the transaction's outputs and its pooled input value. */
  lemma CorrectedIsLedgerRule(p: PoolMap, tx: Transaction)
    ensures PassesCorrected(Lift(tx.outputs), Finite(InputValue(p, tx.inputs)))
        <==> OutputsNonNegative(tx) && Balanced(p, tx)
  {
    LiftSum(tx.outputs);
  }
}
