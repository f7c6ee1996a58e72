/**
 * The chain of transactions of a Dogecoin inscription (packages/coin-bitcoin/src/doginals.ts): a commit
 * transaction and one reveal per script, each spending the two first outputs of its predecessor. Byte
 * lengths are parameters; the fee rates are non-negative reals.
 */
module DoginalChain {
  import opened Wrappers
  import opened Amounts

  class DogInscriptionTool {
    /** Output values of each reveal transaction. */
    var revealTxs: seq<seq<int>>
    var mustRevealTxFees: seq<int>
    /** Value recorded as spent by each reveal. */
    var revealTxPrevOutput: seq<int>
    var revealTxPrevOutputFetcher: seq<int>
    /** Input and output values of the commit transaction. */
    var commitTxPrevOutputFetcher: seq<int>
    var commitTx: seq<int>
    var mustCommitTxFee: int

    constructor ()
      ensures revealTxs == [] && mustRevealTxFees == [] && commitTx == [] && mustCommitTxFee == 0
      ensures revealTxPrevOutputFetcher == [] && commitTxPrevOutputFetcher == [] && revealTxPrevOutput == []
    {
      revealTxs, mustRevealTxFees, revealTxPrevOutput, revealTxPrevOutputFetcher := [], [], [], [];
      commitTxPrevOutputFetcher, commitTx, mustCommitTxFee := [], [], 0;
    }

    /** Every reveal pays `revealOutValue` on, and what all later ones will cost. Built from the last to the
        first and then reversed by swapping. */
    method BuildEmptyRevealTxs(sizes: seq<nat>, revealOutValue: int, revealFeeRate: real) returns (total: int)
      modifies this`revealTxs, this`mustRevealTxFees, this`revealTxPrevOutput
      ensures mustRevealTxFees == Fees(sizes, revealFeeRate) == revealTxPrevOutput
      ensures revealTxs == Reveals(mustRevealTxFees, revealOutValue)
      ensures total == revealOutValue + Sum(mustRevealTxFees)
    {
      var n := |sizes|;
      var txs: seq<seq<int>>, fees: seq<int>, prev: seq<int> := [], [], seq(n, _ => 0);
      ghost var all := Fees(sizes, revealFeeRate);
      var left := 0;
      total := 0;
      var i := n - 1;
      while i > -1
        invariant -1 <= i < n && |txs| == |fees| == n - 1 - i && |prev| == n
        invariant left == total == Sum(all[i + 1..])
        invariant forall k :: 0 <= k < |fees| ==> fees[k] == all[n - 1 - k]
        invariant forall k :: 0 <= k < |txs| ==> txs[k] == Outs(all, revealOutValue, n - 1 - k)
        invariant forall k :: i < k < n ==> prev[k] == all[k]
      {
        var tx := if i != n - 1 then [revealOutValue, left] else [revealOutValue];
        var fee := Fee(sizes[i] + 62, revealFeeRate);
        SumTail(all, i);
        left := left + fee;
        prev := prev[i := fee];
        total := total + fee;
        txs := txs + [tx];
        fees := fees + [fee];
        i := i - 1;
      }
      assert all[0..] == all;
      txs := SwapReverse(txs);
      fees := SwapReverse(fees);
      revealTxs := txs;
      mustRevealTxFees := fees;
      revealTxPrevOutput := prev;
      total := total + revealOutValue;
    }

    /** `true` stands for insufficient funds. */
    method BuildCommitTx(inputs: seq<int>, totalRevealPrevOutputValue: int, revealOutValue: int, commitFeeRate: real,
                         size: nat, sizeWithoutChange: nat, minChangeValue: int) returns (insufficient: bool)
      modifies this`commitTxPrevOutputFetcher, this`commitTx, this`mustCommitTxFee
      ensures commitTxPrevOutputFetcher == old(commitTxPrevOutputFetcher) + inputs
      ensures var change := Sum(inputs) - totalRevealPrevOutputValue - Fee(size + 62, commitFeeRate);
        insufficient <==> change < minChangeValue
                          && Sum(inputs) - totalRevealPrevOutputValue < Fee(sizeWithoutChange, commitFeeRate)
      ensures insufficient ==> commitTx == old(commitTx) && mustCommitTxFee == Fee(size + 62, commitFeeRate)
      ensures var change := Sum(inputs) - totalRevealPrevOutputValue - Fee(size + 62, commitFeeRate);
        !insufficient ==>
          && mustCommitTxFee == old(mustCommitTxFee)
          && commitTx == [revealOutValue, totalRevealPrevOutputValue] + (if change >= minChangeValue then [change] else [])
    {
      var totalSenderAmount := 0;
      var known := commitTxPrevOutputFetcher;
      for k := 0 to |inputs|
        modifies this`commitTxPrevOutputFetcher
        invariant totalSenderAmount == Sum(inputs[..k]) && commitTxPrevOutputFetcher == known + inputs[..k]
      {
        commitTxPrevOutputFetcher := commitTxPrevOutputFetcher + [inputs[k]];
        totalSenderAmount := totalSenderAmount + inputs[k];
        SumUpTo(inputs, k);
        assert inputs[..k + 1] == inputs[..k] + [inputs[k]];
      }
      assert inputs[..|inputs|] == inputs;
      var outs := [revealOutValue, totalRevealPrevOutputValue, 0];
      var fee := Fee(size + 62, commitFeeRate);
      var changeAmount := totalSenderAmount - totalRevealPrevOutputValue - fee;
      if changeAmount >= minChangeValue {
        outs := outs[|outs| - 1 := changeAmount];
        assert outs == [revealOutValue, totalRevealPrevOutputValue] + [changeAmount];
      } else {
        outs := outs[..|outs| - 1];
        assert outs == [revealOutValue, totalRevealPrevOutputValue] + [];
        var feeWithoutChange := Fee(sizeWithoutChange, commitFeeRate);
        if totalSenderAmount - totalRevealPrevOutputValue - feeWithoutChange < 0 {
          mustCommitTxFee := fee;
          return true;
        }
      }
      commitTx := outs;
      return false;
    }

    method CompleteRevealTx()
      requires |revealTxPrevOutput| == |revealTxs|
      modifies this`revealTxPrevOutputFetcher
      ensures revealTxPrevOutputFetcher == old(revealTxPrevOutputFetcher) + revealTxPrevOutput
    {
      var known := revealTxPrevOutputFetcher;
      for i := 0 to |revealTxs|
        invariant revealTxPrevOutputFetcher == known + revealTxPrevOutput[..i]
      {
        revealTxPrevOutputFetcher := revealTxPrevOutputFetcher + [revealTxPrevOutput[i]];
        assert revealTxPrevOutput[..i + 1] == revealTxPrevOutput[..i] + [revealTxPrevOutput[i]];
      }
      assert revealTxPrevOutput[..|revealTxs|] == revealTxPrevOutput;
    }

    /** The fees that are reported. */
    method CalculateFee() returns (commitTxFee: int, revealTxFees: seq<int>)
      requires |revealTxs| <= |revealTxPrevOutputFetcher|
      ensures commitTxFee == Sum(commitTxPrevOutputFetcher) - Sum(commitTx)
      ensures revealTxFees == revealTxPrevOutputFetcher[..|revealTxs|]
    {
      commitTxFee := 0;
      for i := 0 to |commitTxPrevOutputFetcher|
        invariant commitTxFee == Sum(commitTxPrevOutputFetcher[..i])
      {
        commitTxFee := commitTxFee + commitTxPrevOutputFetcher[i];
        SumUpTo(commitTxPrevOutputFetcher, i);
      }
      assert commitTxPrevOutputFetcher[..|commitTxPrevOutputFetcher|] == commitTxPrevOutputFetcher;
      for i := 0 to |commitTx|
        invariant commitTxFee == Sum(commitTxPrevOutputFetcher) - Sum(commitTx[..i])
      {
        commitTxFee := commitTxFee - commitTx[i];
        SumUpTo(commitTx, i);
      }
      assert commitTx[..|commitTx|] == commitTx;
      revealTxFees := [];
      for i := 0 to |revealTxs|
        invariant revealTxFees == revealTxPrevOutputFetcher[..i]
      {
        revealTxFees := revealTxFees + [revealTxPrevOutputFetcher[i]];
      }
    }
  }

  /** Reversal by swapping ends. */
  method SwapReverse<T>(s: seq<T>) returns (r: seq<T>)
    ensures |r| == |s| && forall k :: 0 <= k < |s| ==> r[k] == s[|s| - 1 - k]
  {
    r := s;
    var i, j := 0, |s| - 1;
    while i < j
      invariant |r| == |s| && 0 <= i && i + j == |s| - 1 && j >= i - 1
      invariant forall k :: 0 <= k < i || j < k < |s| ==> r[k] == s[|s| - 1 - k]
      invariant forall k :: i <= k <= j ==> r[k] == s[k]
    {
      r := r[i := r[j]][j := r[i]];
      i, j := i + 1, j - 1;
    }
  }

  // ---- what is built

  function Fees(sizes: seq<nat>, rate: real): (fees: seq<int>)
    ensures |fees| == |sizes|
  {
    seq(|sizes|, i requires 0 <= i < |sizes| => Fee(sizes[i] + 62, rate))
  }

  /** Outputs of reveal `i`: the inscription, and the cost of all later reveal transactions. */
  function Outs(fees: seq<int>, revealOutValue: int, i: nat): seq<int>
    requires i < |fees|
  {
    if i == |fees| - 1 then [revealOutValue] else [revealOutValue, Sum(fees[i + 1..])]
  }

  function Reveals(fees: seq<int>, revealOutValue: int): seq<seq<int>> {
    seq(|fees|, i requires 0 <= i < |fees| => Outs(fees, revealOutValue, i))
  }

  // ---- the chain

  /** What transaction `i` of the chain really pays: it spends the first two outputs of its predecessor. */
  function Pays(commitTx: seq<int>, chain: seq<seq<int>>, i: nat): int
    requires i < |chain| && |commitTx| >= 2 && (i > 0 ==> |chain[i - 1]| >= 2)
  {
    var prev := if i == 0 then commitTx else chain[i - 1];
    prev[0] + prev[1] - Sum(chain[i])
  }

  /** Every reveal but the first pays exactly its estimate; the first pays `revealOutValue` more. */
  lemma {:induction false} RevealPays(fees: seq<int>, revealOutValue: int, change: seq<int>, i: nat)
    requires i < |fees|
    ensures i > 0 ==> |Reveals(fees, revealOutValue)[i - 1]| == 2
    ensures var commitTx := [revealOutValue, revealOutValue + Sum(fees)] + change;
      Pays(commitTx, Reveals(fees, revealOutValue), i) == fees[i] + (if i == 0 then revealOutValue else 0)
  {
    var tx := Outs(fees, revealOutValue, i);
    SumTail(fees, i);
    assert fees[0..] == fees;
    if i == |fees| - 1 {
      SumOne(revealOutValue);
    } else {
      assert tx == [revealOutValue] + [Sum(fees[i + 1..])];
      SumConcat([revealOutValue], [Sum(fees[i + 1..])]);
      SumOne(revealOutValue);
      SumOne(Sum(fees[i + 1..]));
    }
  }

  /** What the reveal transactions pay together, from number `i` on. */
  function PaysFrom(commitTx: seq<int>, chain: seq<seq<int>>, i: nat): int
    requires i <= |chain| && |commitTx| >= 2 && forall k :: 0 <= k < |chain| - 1 ==> |chain[k]| >= 2
    decreases |chain| - i
  {
    if i == |chain| then 0 else Pays(commitTx, chain, i) + PaysFrom(commitTx, chain, i + 1)
  }

  lemma {:induction false} PaysFromSum(fees: seq<int>, revealOutValue: int, change: seq<int>, i: nat)
    requires i <= |fees| && fees != []
    requires forall k :: 0 <= k < |fees| - 1 ==> |Reveals(fees, revealOutValue)[k]| == 2
    ensures var commitTx := [revealOutValue, revealOutValue + Sum(fees)] + change;
      PaysFrom(commitTx, Reveals(fees, revealOutValue), i)
      == Sum(fees[i..]) + (if i == 0 then revealOutValue else 0)
    decreases |fees| - i
  {
    if i < |fees| {
      RevealPays(fees, revealOutValue, change, i);
      PaysFromSum(fees, revealOutValue, change, i + 1);
      SumTail(fees, i);
    }
  }

  /** Conservation: over the commit and all reveal transactions, everything that goes in is paid as fees but for the change
      and the one `revealOutValue` that the last reveal leaves. */
  lemma {:induction false} ChainConserves(inputs: seq<int>, fees: seq<int>, revealOutValue: int, change: seq<int>)
    requires fees != []
    ensures forall k :: 0 <= k < |fees| - 1 ==> |Reveals(fees, revealOutValue)[k]| == 2
    ensures var commitTx := [revealOutValue, revealOutValue + Sum(fees)] + change;
      (Sum(inputs) - Sum(commitTx)) + PaysFrom(commitTx, Reveals(fees, revealOutValue), 0)
      == Sum(inputs) - Sum(change) - revealOutValue
  {
    PaysFromSum(fees, revealOutValue, change, 0);
    assert fees[0..] == fees;
    CommitSum(revealOutValue, revealOutValue + Sum(fees), change);
  }

  lemma {:induction false} CommitSum(x: int, y: int, change: seq<int>)
    ensures Sum([x, y] + change) == x + y + Sum(change)
  {
    SumConcat([x, y], change);
    assert [x, y] == [x] + [y];
    SumConcat([x], [y]);
    SumOne(x);
    SumOne(y);
  }

  /** What the second commit output holds: the inscription and the fees of all reveal transactions. */
  function Total(sizes: seq<nat>, revealOutValue: int, revealFeeRate: real): int {
    revealOutValue + Sum(Fees(sizes, revealFeeRate))
  }

  /** What the amount check leaves over beside the estimate `fee`. */
  function Slack(inputs: seq<int>, total: int, fee: int): int {
    Sum(inputs) - total - fee
  }

  /** Every transaction first pays `revealOutValue`, and then what all later reveals cost; the last reveal pays no
      more. */
  predicate IsChain(commitTx: seq<int>, chain: seq<seq<int>>, fees: seq<int>, revealOutValue: int) {
    && |chain| == |fees| > 0
    && |commitTx| >= 2 && commitTx[0] == revealOutValue && commitTx[1] == revealOutValue + Sum(fees)
    && (forall k :: 0 <= k < |chain| ==> |chain[k]| == (if k == |chain| - 1 then 1 else 2) && chain[k][0] == revealOutValue)
    && forall k :: 0 <= k < |chain| - 1 ==> chain[k][1] == Sum(fees[k + 1..])
  }

  /** The fees are those of the sizes and 62 bytes more, rounded down. */
  predicate AreFloors(fees: seq<int>, sizes: seq<nat>, rate: real) {
    && |fees| == |sizes|
    && forall k :: 0 <= k < |fees| ==> fees[k] as real <= (sizes[k] + 62) as real * rate < fees[k] as real + 1.0
  }

  lemma {:induction false} ChainIs(sizes: seq<nat>, rate: real, fees: seq<int>, revealOutValue: int, change: seq<int>)
    requires fees == Fees(sizes, rate) && sizes != []
    ensures IsChain([revealOutValue, revealOutValue + Sum(fees)] + change, Reveals(fees, revealOutValue), fees, revealOutValue)
    ensures AreFloors(fees, sizes, rate)
  {
    hide Sum;
  }

  /** A request that is not refused builds a chain that conserves amounts, and reports as fees what the commit
      leaves and the estimates for the others. The amount check leaves out the first commit output, so the
      reported commit fee is negative, and the commit spends more than its inputs, unless that output is covered:
      by the estimate if there is change, and by what is left beside the total if there is none. */
  method Inscribe(sizes: seq<nat>, inputs: seq<int>, revealOutValue: int, revealFeeRate: real, commitFeeRate: real,
                  size: nat, sizeWithoutChange: nat, minChangeValue: int)
    returns (tool: DogInscriptionTool, insufficient: bool, commitTxFee: int, revealTxFees: seq<int>)
    requires sizes != []
    ensures var total := Total(sizes, revealOutValue, revealFeeRate);
      insufficient <==>
        && Slack(inputs, total, Fee(size + 62, commitFeeRate)) < minChangeValue
        && Slack(inputs, total, Fee(sizeWithoutChange, commitFeeRate)) < 0
    ensures !insufficient ==>
      && |tool.commitTx| >= 2 && (forall k :: 0 <= k < |tool.revealTxs| - 1 ==> |tool.revealTxs[k]| >= 2)
      && commitTxFee + PaysFrom(tool.commitTx, tool.revealTxs, 0) == Sum(inputs) - Sum(tool.commitTx[2..]) - revealOutValue
      && revealTxFees == Fees(sizes, revealFeeRate) == tool.mustRevealTxFees
      && commitTxFee == Sum(inputs) - Sum(tool.commitTx)
    ensures var total := Total(sizes, revealOutValue, revealFeeRate); var fee := Fee(size + 62, commitFeeRate);
      !insufficient ==>
        (commitTxFee >= 0 <==> revealOutValue <= if Slack(inputs, total, fee) >= minChangeValue then fee else Slack(inputs, total, 0))
    ensures !insufficient ==> IsChain(tool.commitTx, tool.revealTxs, revealTxFees, revealOutValue)
    ensures !insufficient ==> AreFloors(revealTxFees, sizes, revealFeeRate)
  {
    hide IsChain, AreFloors;
    tool := new DogInscriptionTool();
    var total := tool.BuildEmptyRevealTxs(sizes, revealOutValue, revealFeeRate);
    insufficient := tool.BuildCommitTx(inputs, total, revealOutValue, commitFeeRate, size, sizeWithoutChange, minChangeValue);
    commitTxFee, revealTxFees := 0, [];
    if insufficient {
      return;
    }
    tool.CompleteRevealTx();
    ghost var fees := tool.mustRevealTxFees;
    assert [] + inputs == inputs && [] + fees == fees && fees[..|fees|] == fees;
    commitTxFee, revealTxFees := tool.CalculateFee();
    ghost var change := tool.commitTx[2..];
    ChainConserves(inputs, fees, revealOutValue, change);
    ChainIs(sizes, revealFeeRate, fees, revealOutValue, change);
    CommitCovered(inputs, sizes, revealOutValue, revealFeeRate, Fee(size + 62, commitFeeRate), minChangeValue);
    assert tool.commitTx == [revealOutValue, total] + change;
  }

  /** The commit transaction of an accepted request spends no more than it has exactly when the first output is
      covered. */
  lemma {:induction false} CommitCovered(inputs: seq<int>, sizes: seq<nat>, revealOutValue: int, revealFeeRate: real,
                                         fee: int, minChangeValue: int)
    ensures var total := Total(sizes, revealOutValue, revealFeeRate);
      var slack := Slack(inputs, total, fee);
      var change := if slack >= minChangeValue then [slack] else [];
      Sum([revealOutValue, total] + change) <= Sum(inputs)
      <==> revealOutValue <= if slack >= minChangeValue then fee else Slack(inputs, total, 0)
  {
    var total := Total(sizes, revealOutValue, revealFeeRate);
    var slack := Slack(inputs, total, fee);
    CommitSum(revealOutValue, total, if slack >= minChangeValue then [slack] else []);
    SumOne(slack);
  }

  /** Such a request, with ordinary sizes and rates: it is accepted, and its commit transaction would create
      money. */
  method Overspent() returns (tool: DogInscriptionTool, insufficient: bool, commitTxFee: int)
    ensures !insufficient && commitTxFee == 300000 - Sum(tool.commitTx) < 0
  {
    var sizes := [1700];
    assert Fees(sizes, 1.0) == [1762];
    SumOne(1762);
    SumOne(300000);
    var revealTxFees;
    tool, insufficient, commitTxFee, revealTxFees := Inscribe(sizes, [300000], 100000, 1.0, 1.0, 230, 200, 100000);
  }
}
