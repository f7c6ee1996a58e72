/**
 * Bitcoin inscriptions (packages/coin-bitcoin/src/inscribe.ts): one commit transaction with an output for each
 * reveal transaction, computed once by the inscription tool and once more for signing by several parties.
 * Sizes and weights are parameters; the fee rates are reals.
 */
module Inscribe {
  import opened Wrappers
  import opened Amounts

  const DEFAULT_REVEAL_OUT_VALUE := 546
  const DEFAULT_MIN_CHANGE_VALUE := 546
  const MAX_STANDARD_TX_WEIGHT := 400000

  /** One inscription: sizes of its unsigned reveal transaction and of its witness, and the final weight. */
  datatype Item = Item(byteLength: nat, vectorSize: nat, weight: nat)

  /** `inputs` are the amounts to spend; `vsize` and `vsizeWithoutChange` are the sizes of the signed commit
      transaction. */
  datatype Request = Request(inputs: seq<int>, items: seq<Item>, revealOutValue: int, minChangeValue: int,
                             revealFeeRate: real, commitFeeRate: real, vsize: nat, vsizeWithoutChange: nat)

  /** Number of inputs, and output values. */
  datatype Tx = Tx(ins: nat, outs: seq<int>)

  /** A reveal fee of `None` is not a number: the tool subtracted from a value it never recorded. */
  datatype Outcome =
    | Inscribed(commitTx: Tx, revealTxs: seq<int>, commitTxFee: int, revealTxFees: seq<Option<int>>)
    | Quoted(mustCommitTxFee: int, mustRevealTxFees: seq<int>)
    | TooHeavy(index: nat)
    | InsufficientBalance

  function OutValue(r: Request): int {
    if r.revealOutValue != 0 then r.revealOutValue else DEFAULT_REVEAL_OUT_VALUE
  }

  function MinChange(r: Request): int {
    if r.minChangeValue != 0 then r.minChangeValue else DEFAULT_MIN_CHANGE_VALUE
  }

  function RevealFee(item: Item, rate: real): int {
    Fee(item.byteLength + (item.vectorSize + 2 + 3) / 4, rate)
  }

  /** The estimated fees of the reveal transactions. */
  function RevealFees(items: seq<Item>, rate: real): (fees: seq<int>)
    ensures |fees| == |items|
  {
    seq(|items|, i requires 0 <= i < |items| => RevealFee(items[i], rate))
  }

  /** `value` on top of every amount. */
  function Raised(fees: seq<int>, value: int): (s: seq<int>)
    ensures |s| == |fees|
  {
    seq(|fees|, i requires 0 <= i < |fees| => value + fees[i])
  }

  /** The values of the commit outputs that the reveal transactions spend. */
  function Prevs(r: Request): (s: seq<int>)
    ensures |s| == |r.items|
  {
    Raised(RevealFees(r.items, r.revealFeeRate), OutValue(r))
  }

  /** What is left for the commit fee and change. */
  function Left(r: Request): int {
    Sum(r.inputs) - Sum(Prevs(r))
  }

  function Estimate(r: Request): int {
    Fee(r.vsize, r.commitFeeRate)
  }

  function EstimateWithoutChange(r: Request): int {
    Fee(r.vsizeWithoutChange, r.commitFeeRate)
  }

  predicate HasChange(r: Request) {
    Left(r) - Estimate(r) >= MinChange(r)
  }

  predicate Sufficient(r: Request) {
    HasChange(r) || Left(r) >= EstimateWithoutChange(r)
  }

  /** The change outputs: one or none. */
  function Change(r: Request): seq<int> {
    if HasChange(r) then [Left(r) - Estimate(r)] else []
  }

  function Values(n: nat, value: int): (s: seq<int>)
    ensures |s| == n
  {
    seq(n, _ => value)
  }

  /** `calculateFee` for the reveal transaction `i` of a list. */
  function Paid(fetched: seq<int>, outs: seq<int>, i: nat): Option<int>
    requires i < |outs|
  {
    if i < |fetched| then Some(fetched[i] - outs[i]) else None
  }

  class InscriptionTool {
    var items: seq<Item>
    /** Value spent by each reveal transaction. */
    var revealTxPrevOutput: seq<int>
    /** Value of the one output of each reveal transaction. */
    var revealTxs: seq<int>
    var commitTx: Tx
    var commitTxPrevOutputFetcher: seq<int>
    var revealTxPrevOutputFetcher: seq<int>
    var mustCommitTxFee: int
    var mustRevealTxFees: seq<int>

    constructor (items0: seq<Item>)
      ensures items == items0 && revealTxs == [] && commitTx == Tx(0, []) && mustCommitTxFee == 0
      ensures commitTxPrevOutputFetcher == [] && revealTxPrevOutputFetcher == [] && mustRevealTxFees == []
    {
      items, revealTxPrevOutput, revealTxs, commitTx := items0, seq(|items0|, _ => 0), [], Tx(0, []);
      commitTxPrevOutputFetcher, revealTxPrevOutputFetcher, mustCommitTxFee, mustRevealTxFees := [], [], 0, [];
    }

    method BuildEmptyRevealTx(revealOutValue: int, revealFeeRate: real) returns (totalPrevOutputValue: int)
      modifies this`revealTxPrevOutput, this`revealTxs, this`mustRevealTxFees
      ensures mustRevealTxFees == RevealFees(items, revealFeeRate)
      ensures revealTxPrevOutput == Raised(mustRevealTxFees, revealOutValue)
      ensures revealTxs == Values(|items|, revealOutValue)
      ensures totalPrevOutputValue == Sum(revealTxPrevOutput)
    {
      ghost var all := Raised(RevealFees(items, revealFeeRate), revealOutValue);
      totalPrevOutputValue := 0;
      var txs: seq<int>, fees: seq<int>, prevs: seq<int> := [], [], [];
      for i := 0 to |items|
        invariant |txs| == |fees| == i && prevs == all[..i] && totalPrevOutputValue == Sum(all[..i])
        invariant forall k :: 0 <= k < i ==> txs[k] == revealOutValue && fees[k] == RevealFee(items[k], revealFeeRate)
      {
        var fee := RevealFee(items[i], revealFeeRate);
        var prevOutputValue := revealOutValue + fee;
        prevs := prevs + [prevOutputValue];
        SumUpTo(all, i);
        totalPrevOutputValue := totalPrevOutputValue + prevOutputValue;
        txs := txs + [revealOutValue];
        fees := fees + [fee];
      }
      assert all[..|items|] == all;
      revealTxs, mustRevealTxFees, revealTxPrevOutput := txs, fees, prevs;
    }

    /** `true` stands for insufficient funds. */
    method BuildCommitTx(inputs: seq<int>, totalRevealPrevOutputValue: int, commitFeeRate: real, vsize: nat,
                         vsizeWithoutChange: nat, minChangeValue: int) returns (insufficient: bool)
      modifies this`commitTxPrevOutputFetcher, this`commitTx, this`mustCommitTxFee
      ensures commitTxPrevOutputFetcher == old(commitTxPrevOutputFetcher) + inputs
      ensures var spare := Sum(inputs) - totalRevealPrevOutputValue; var fee := Fee(vsize, commitFeeRate);
        insufficient <==> spare - fee < minChangeValue && spare < Fee(vsizeWithoutChange, commitFeeRate)
      ensures insufficient ==> commitTx == old(commitTx) && mustCommitTxFee == Fee(vsize, commitFeeRate)
      ensures var change := Sum(inputs) - totalRevealPrevOutputValue - Fee(vsize, commitFeeRate);
        !insufficient ==>
          && mustCommitTxFee == old(mustCommitTxFee)
          && commitTx == Tx(|inputs|, revealTxPrevOutput + (if change >= minChangeValue then [change] else []))
    {
      var totalSenderAmount, known := 0, commitTxPrevOutputFetcher;
      var tx := Tx(0, []);
      for k := 0 to |inputs|
        modifies this`commitTxPrevOutputFetcher
        invariant totalSenderAmount == Sum(inputs[..k]) && commitTxPrevOutputFetcher == known + inputs[..k]
        invariant tx == Tx(k, [])
      {
        tx := tx.(ins := tx.ins + 1);
        commitTxPrevOutputFetcher := commitTxPrevOutputFetcher + [inputs[k]];
        totalSenderAmount := totalSenderAmount + inputs[k];
        SumUpTo(inputs, k);
        assert inputs[..k + 1] == inputs[..k] + [inputs[k]];
      }
      assert inputs[..|inputs|] == inputs;
      for k := 0 to |revealTxPrevOutput|
        invariant tx == Tx(|inputs|, revealTxPrevOutput[..k])
      {
        tx := tx.(outs := tx.outs + [revealTxPrevOutput[k]]);
      }
      assert revealTxPrevOutput[..|revealTxPrevOutput|] == revealTxPrevOutput;
      tx := tx.(outs := tx.outs + [0]);
      var fee := Fee(vsize, commitFeeRate);
      var changeAmount := totalSenderAmount - totalRevealPrevOutputValue - fee;
      if changeAmount >= minChangeValue {
        tx := tx.(outs := tx.outs[|tx.outs| - 1 := changeAmount]);
        assert tx.outs == revealTxPrevOutput + [changeAmount];
      } else {
        tx := tx.(outs := tx.outs[..|tx.outs| - 1]);
        assert tx.outs == revealTxPrevOutput + [];
        var feeWithoutChange := Fee(vsizeWithoutChange, commitFeeRate);
        if totalSenderAmount - totalRevealPrevOutputValue - feeWithoutChange < 0 {
          mustCommitTxFee := fee;
          return true;
        }
      }
      commitTx := tx;
      return false;
    }

    /** `None`, or the index of the first reveal transaction above the standard weight. */
    method CompleteRevealTx() returns (heavy: Option<nat>)
      requires |revealTxPrevOutput| == |revealTxs| == |items|
      modifies this`revealTxPrevOutputFetcher
      ensures heavy == FirstHeavy(items)
      ensures heavy.None? ==> revealTxPrevOutputFetcher == old(revealTxPrevOutputFetcher) + revealTxPrevOutput
    {
      var known := revealTxPrevOutputFetcher;
      assert items[0..] == items;
      for i := 0 to |revealTxs|
        invariant revealTxPrevOutputFetcher == known + revealTxPrevOutput[..i]
        invariant FirstHeavy(items) == Later(FirstHeavy(items[i..]), i)
      {
        revealTxPrevOutputFetcher := revealTxPrevOutputFetcher + [revealTxPrevOutput[i]];
        assert revealTxPrevOutput[..i + 1] == revealTxPrevOutput[..i] + [revealTxPrevOutput[i]];
        assert items[i..][0] == items[i] && items[i..][1..] == items[i + 1..];
        if items[i].weight > MAX_STANDARD_TX_WEIGHT {
          return Some(i);
        }
      }
      assert items[|items|..] == [] && revealTxPrevOutput[..|revealTxs|] == revealTxPrevOutput;
      return None;
    }

    method CalculateFee() returns (commitTxFee: int, revealTxFees: seq<Option<int>>)
      requires commitTx.ins <= |commitTxPrevOutputFetcher|
      ensures commitTxFee == Sum(commitTxPrevOutputFetcher[..commitTx.ins]) - Sum(commitTx.outs)
      ensures |revealTxFees| == |revealTxs|
      ensures forall k :: 0 <= k < |revealTxs| ==> revealTxFees[k] == Paid(revealTxPrevOutputFetcher, revealTxs, k)
    {
      commitTxFee := 0;
      for i := 0 to commitTx.ins
        invariant commitTxFee == Sum(commitTxPrevOutputFetcher[..i])
      {
        commitTxFee := commitTxFee + commitTxPrevOutputFetcher[i];
        SumUpTo(commitTxPrevOutputFetcher, i);
      }
      for i := 0 to |commitTx.outs|
        invariant commitTxFee == Sum(commitTxPrevOutputFetcher[..commitTx.ins]) - Sum(commitTx.outs[..i])
      {
        commitTxFee := commitTxFee - commitTx.outs[i];
        SumUpTo(commitTx.outs, i);
      }
      assert commitTx.outs[..|commitTx.outs|] == commitTx.outs;
      revealTxFees := [];
      for i := 0 to |revealTxs|
        invariant |revealTxFees| == i
        invariant forall k :: 0 <= k < i ==> revealTxFees[k] == Paid(revealTxPrevOutputFetcher, revealTxs, k)
      {
        revealTxFees := revealTxFees + [Paid(revealTxPrevOutputFetcher, revealTxs, i)];
      }
    }
  }

  function Later(r: Option<nat>, i: nat): Option<nat> {
    if r.None? then None else Some(r.value + i)
  }

  function FirstHeavy(items: seq<Item>): Option<nat>
    decreases |items|
  {
    if items == [] then None
    else if items[0].weight > MAX_STANDARD_TX_WEIGHT then Some(0)
    else Later(FirstHeavy(items[1..]), 1)
  }

  /** The numbers, none of them missing. */
  function Known(s: seq<int>): (r: seq<Option<int>>)
    ensures |r| == |s|
  {
    seq(|s|, k requires 0 <= k < |s| => Some(s[k]))
  }

  /** The outcome for a request with sufficient funds. */
  function Built(r: Request): Outcome {
    Inscribed(Tx(|r.inputs|, Prevs(r) + Change(r)), Values(|r.items|, OutValue(r)),
              if HasChange(r) then Estimate(r) else Left(r), Known(RevealFees(r.items, r.revealFeeRate)))
  }

  /** What is handed out if the funds are insufficient and the estimate is not positive: an empty commit
      transaction, and fees that are not numbers. */
  function Hollow(r: Request): Outcome {
    Inscribed(Tx(0, []), Values(|r.items|, OutValue(r)), 0, seq(|r.items|, _ => None))
  }

  /** Built, or quoted with the fees that would be needed. */
  function InscribeOutcome(r: Request): Outcome {
    if Sufficient(r) then
      (if FirstHeavy(r.items).None? then Built(r) else TooHeavy(FirstHeavy(r.items).value))
    else if Estimate(r) > 0 then Quoted(Estimate(r), RevealFees(r.items, r.revealFeeRate))
    else Hollow(r)
  }

  /** Built, or an exception. */
  function MpcOutcome(r: Request): Outcome {
    if Sufficient(r) then Built(r) else InsufficientBalance
  }

  /** `inscribe`. The key of the first input signs. */
  method InscribeRequest(r: Request) returns (o: Outcome)
    requires r.inputs != []
    ensures o == InscribeOutcome(r)
  {
    hide Sum, Fee, RevealFees, Raised, FirstHeavy;
    var tool := new InscriptionTool(r.items);
    var total := tool.BuildEmptyRevealTx(OutValue(r), r.revealFeeRate);
    ghost var prevs := tool.revealTxPrevOutput;
    assert prevs == Prevs(r);
    var insufficient := tool.BuildCommitTx(r.inputs, total, r.commitFeeRate, r.vsize, r.vsizeWithoutChange, MinChange(r));
    assert insufficient <==> !Sufficient(r);
    assert [] + r.inputs == r.inputs && [] + prevs == prevs && r.inputs[..|r.inputs|] == r.inputs;
    if !insufficient {
      assert tool.commitTx == Tx(|r.inputs|, prevs + Change(r));
      var heavy := tool.CompleteRevealTx();
      if heavy.Some? {
        return TooHeavy(heavy.value);
      }
      CommitFee(r);
    }
    if tool.mustCommitTxFee > 0 {
      return Quoted(tool.mustCommitTxFee, tool.mustRevealTxFees);
    }
    var commitTxFee, revealTxFees := tool.CalculateFee();
    if insufficient {
      EmptySums(r);
      assert revealTxFees == seq(|r.items|, _ => None);
    } else {
      RevealsPaid(r, revealTxFees);
    }
    return Inscribed(tool.commitTx, tool.revealTxs, commitTxFee, revealTxFees);
  }

  lemma EmptySums(r: Request)
    ensures Sum(r.inputs[..0]) == 0 && Sum([]) == 0
  {
  }

  /** What the commit transaction pays: exactly the estimate with change, and all that is left without. */
  lemma {:induction false} CommitFee(r: Request)
    ensures Sum(r.inputs) - Sum(Prevs(r) + Change(r)) == if HasChange(r) then Estimate(r) else Left(r)
  {
    hide Fee, Prevs;
    SumConcat(Prevs(r), Change(r));
    if HasChange(r) {
      SumOne(Change(r)[0]);
    } else {
      assert Sum([]) == 0;
    }
  }

  /** Every reveal transaction pays exactly its estimate. */
  lemma {:induction false} RevealsPaid(r: Request, fees: seq<Option<int>>)
    requires var outs := Values(|r.items|, OutValue(r));
      |fees| == |outs| && forall k :: 0 <= k < |outs| ==> fees[k] == Paid(Prevs(r), outs, k)
    ensures fees == Known(RevealFees(r.items, r.revealFeeRate))
  {
    hide OutValue;
    assert forall k :: 0 <= k < |fees| ==> Prevs(r)[k] == OutValue(r) + RevealFees(r.items, r.revealFeeRate)[k];
  }

  /** `inscribeForMPCUnsigned`, which computes the same amounts with variables of its own. */
  method InscribeForMPCUnsigned(r: Request) returns (o: Outcome)
    requires r.inputs != []
    ensures o == MpcOutcome(r)
  {
    hide Sum, Fee;
    ghost var prevs := Prevs(r);
    var revealOutValue := if r.revealOutValue != 0 then r.revealOutValue else DEFAULT_REVEAL_OUT_VALUE;
    var totalRevealInValue: int, revealTxList: seq<int>, spent: seq<int> := 0, [], [];
    assert Sum(prevs[..0]) == 0 && Sum(r.inputs[..0]) == 0 by { EmptySums(r); EmptySums(r.(inputs := prevs)); }
    for i := 0 to |r.items|
      invariant revealTxList == Values(i, revealOutValue) && spent == prevs[..i] && totalRevealInValue == Sum(spent)
    {
      var revealFee := RevealFee(r.items[i], r.revealFeeRate);
      var revealInValue := revealOutValue + revealFee;
      revealTxList := revealTxList + [revealOutValue];
      SumUpTo(prevs, i);
      assert revealInValue == prevs[i];
      spent := spent + [revealInValue];
      totalRevealInValue := totalRevealInValue + revealInValue;
    }
    assert spent == prevs;
    var totalCommitInValue, ins: nat := 0, 0;
    for i := 0 to |r.inputs|
      invariant totalCommitInValue == Sum(r.inputs[..i]) && ins == i
    {
      SumUpTo(r.inputs, i);
      ins := ins + 1;
      totalCommitInValue := totalCommitInValue + r.inputs[i];
    }
    assert r.inputs[..|r.inputs|] == r.inputs;
    var outs := spent + [0];
    var fee := Fee(r.vsize, r.commitFeeRate);
    var changeValue := totalCommitInValue - totalRevealInValue - fee;
    if changeValue >= (if r.minChangeValue != 0 then r.minChangeValue else DEFAULT_MIN_CHANGE_VALUE) {
      outs := outs[|outs| - 1 := changeValue];
      assert outs == prevs + Change(r);
    } else {
      outs := outs[..|outs| - 1];
      assert outs == prevs + Change(r);
      var feeWithoutChange := Fee(r.vsizeWithoutChange, r.commitFeeRate);
      if totalCommitInValue - totalRevealInValue - feeWithoutChange < 0 {
        return InsufficientBalance;
      }
    }
    var commitTxFee, revealTxFees := FeesOf(Tx(ins, outs), r.inputs, spent, revealTxList);
    CommitFee(r);
    RevealsPaid(r, revealTxFees);
    return Inscribed(Tx(ins, outs), revealTxList, commitTxFee, revealTxFees);
  }

  /** The fees at the end of `inscribeForMPCUnsigned`. */
  method FeesOf(tx: Tx, inputs: seq<int>, spent: seq<int>, outs: seq<int>)
    returns (commitTxFee: int, revealTxFees: seq<Option<int>>)
    requires tx.ins == |inputs| && |spent| == |outs|
    ensures commitTxFee == Sum(inputs) - Sum(tx.outs)
    ensures |revealTxFees| == |outs| && forall k :: 0 <= k < |outs| ==> revealTxFees[k] == Paid(spent, outs, k)
  {
    commitTxFee := 0;
    for i := 0 to tx.ins
      invariant commitTxFee == Sum(inputs[..i])
    {
      SumUpTo(inputs, i);
      commitTxFee := commitTxFee + inputs[i];
    }
    assert inputs[..|inputs|] == inputs;
    for i := 0 to |tx.outs|
      invariant commitTxFee == Sum(inputs) - Sum(tx.outs[..i])
    {
      SumUpTo(tx.outs, i);
      commitTxFee := commitTxFee - tx.outs[i];
    }
    assert tx.outs[..|tx.outs|] == tx.outs;
    revealTxFees := [];
    for i := 0 to |outs|
      invariant |revealTxFees| == i && forall k :: 0 <= k < i ==> revealTxFees[k] == Paid(spent, outs, k)
    {
      revealTxFees := revealTxFees + [Some(spent[i] - outs[i])];
    }
  }

  // ---- what that means

  lemma {:induction false} RaisedSum(fees: seq<int>, value: int)
    ensures Sum(Raised(fees, value)) == |fees| * value + Sum(fees)
    decreases |fees|
  {
    if fees != [] {
      RaisedSum(fees[1..], value);
      assert Raised(fees, value)[1..] == Raised(fees[1..], value);
    }
  }

  lemma {:induction false} ValuesSum(n: nat, value: int)
    ensures Sum(Values(n, value)) == n * value
    decreases n
  {
    if n > 0 {
      ValuesSum(n - 1, value);
      assert Values(n, value)[1..] == Values(n - 1, value);
    }
  }

  /** Conservation: what goes in is left in the reveal outputs and in the change, or paid as a fee; the commit
      fee is within its bounds. */
  lemma {:induction false} Conserves(r: Request)
    requires Sufficient(r)
    ensures var o := Built(r); var change := Sum(Change(r));
      && Sum(r.inputs) == Sum(Prevs(r)) + change + o.commitTxFee
      && Sum(r.inputs) == Sum(o.revealTxs) + Sum(RevealFees(r.items, r.revealFeeRate)) + change + o.commitTxFee
      && Sum(r.inputs) - Sum(o.commitTx.outs) == o.commitTxFee
    ensures HasChange(r) ==> Built(r).commitTxFee == Estimate(r) && Change(r)[0] >= MinChange(r)
    ensures !HasChange(r) ==> EstimateWithoutChange(r) <= Built(r).commitTxFee < Estimate(r) + MinChange(r)
    ensures |Built(r).commitTx.outs| == |r.items| + |Change(r)| && Built(r).commitTx.ins == |r.inputs|
    ensures forall i :: 0 <= i < |r.items| ==>
      Built(r).commitTx.outs[i] - Built(r).revealTxs[i] == RevealFees(r.items, r.revealFeeRate)[i]
  {
    hide Fee;
    var fees := RevealFees(r.items, r.revealFeeRate);
    RaisedSum(fees, OutValue(r));
    ValuesSum(|r.items|, OutValue(r));
    CommitFee(r);
    SumConcat(Prevs(r), Change(r));
    if HasChange(r) {
      SumOne(Change(r)[0]);
    }
  }

  /** A change output only makes the transaction larger, so funds are insufficient exactly when they do not
      cover the reveal transactions and the commit without change. */
  lemma {:induction false} InsufficientExactly(r: Request)
    requires r.vsizeWithoutChange <= r.vsize && r.commitFeeRate >= 0.0 && r.minChangeValue >= 0
    ensures Sufficient(r) <==> Sum(r.inputs) >= Sum(Prevs(r)) + EstimateWithoutChange(r)
  {
    hide Sum, Fee, Prevs;
    FeeMono(r.vsizeWithoutChange, r.vsize, r.commitFeeRate);
  }

  /** The two computations agree: both build the same, or one quotes fees where the other throws. */
  predicate Agree(r: Request) {
    if MpcOutcome(r).Inscribed? then InscribeOutcome(r) == MpcOutcome(r) else InscribeOutcome(r).Quoted?
  }

  /** They do exactly when no reveal transaction to be built is above the standard weight, which only the tool
      checks, and the estimate that a refusal quotes is at least 1. */
  lemma {:induction false} AgreeExactly(r: Request)
    ensures Agree(r)
            <==> && (Sufficient(r) ==> forall i :: 0 <= i < |r.items| ==> r.items[i].weight <= MAX_STANDARD_TX_WEIGHT)
                 && (!Sufficient(r) ==> r.vsize as real * r.commitFeeRate >= 1.0)
  {
    hide Sufficient, FirstHeavy, Sum, RevealFees;
    HeavyExactly(r.items);
  }

  lemma {:induction false} HeavyExactly(items: seq<Item>)
    ensures FirstHeavy(items).None? <==> forall i :: 0 <= i < |items| ==> items[i].weight <= MAX_STANDARD_TX_WEIGHT
    decreases |items|
  {
    if items != [] {
      HeavyExactly(items[1..]);
      assert items == [items[0]] + items[1..];
    }
  }

  /** A request without funds, at positive rates, that is answered with an empty commit transaction. */
  lemma {:induction false} HollowAnswer()
    ensures var r := Request([100], [Item(100, 100, 100)], 0, 0, 0.001, 0.001, 200, 150);
      !Sufficient(r) && InscribeOutcome(r) == Hollow(r) && Hollow(r).commitTx.outs == []
  {
    var r := Request([100], [Item(100, 100, 100)], 0, 0, 0.001, 0.001, 200, 150);
    SumOne(100);
    assert Prevs(r) == [546];
    SumOne(546);
  }
}
