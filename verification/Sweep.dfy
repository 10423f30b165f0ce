/**
 Splitting a sweep into transactions that stay below the mass limit.

 Inputs are collected until one more would break the limit; the transaction is then closed and a
 new one begun behind the UTXO that broke it.  Amounts are 64-bit and wrap around.
 */
module Sweep {
  import opened Basics
  import opened TxMass

  const EXTRA_MASS := 7000
  const MAXIMUM_STANDARD_TRANSACTION_MASS := 100_000

  datatype Utxo = Utxo(outpoint: Outpoint, amount: uint64)

  datatype Result<T> = Ok(value: T) | SingleInputTooHeavy

  /** The parameters that stay the same throughout a sweep. */
  datatype Plan = Plan(calculator: Calculator, script: seq<nat>, feePerInput: nat)

  function InputOf(utxo: Utxo): Input {
    Input(utxo.outpoint, utxo.amount, [], 1)
  }

  function InputsOf(utxos: seq<Utxo>): (inputs: seq<Input>)
    ensures |inputs| == |utxos|
  {
    seq(|utxos|, i requires 0 <= i < |utxos| => InputOf(utxos[i]))
  }

  function SumOf(utxos: seq<Utxo>): nat {
    if |utxos| == 0 then 0 else SumOf(utxos[..|utxos| - 1]) + utxos[|utxos| - 1].amount
  }

  /** The output value as computed in 64 bits: the sum less one fee for every input. */
  function OutputValue(plan: Plan, utxos: seq<Utxo>): uint64 {
    (SumOf(utxos) - |utxos| * plan.feePerInput) % TWO_64
  }

  /** The transaction that spends the given UTXOs to one output. */
  function TransactionOf(plan: Plan, utxos: seq<Utxo>): Transaction {
    Transaction(InputsOf(utxos), [Output(OutputValue(plan, utxos), plan.script)], false, [])
  }

  /** A transaction with `n` inputs stays below the limit, with room for signatures. */
  predicate Fits(plan: Plan, n: nat) {
    BaseMass(plan.calculator, |plan.script|) + n * MassPerInput(plan.calculator) + EXTRA_MASS < MAXIMUM_STANDARD_TRANSACTION_MASS
  }

  /** The greatest number of inputs, at most `n`, that fits. */
  function Capacity(plan: Plan, n: nat): (k: nat)
    ensures k <= n && (k > 0 ==> Fits(plan, k))
    ensures forall m :: k < m <= n ==> !Fits(plan, m)
  {
    if n == 0 || Fits(plan, n) then n else Capacity(plan, n - 1)
  }

  /** The specification of the splitting loop. */
  function Split(plan: Plan, utxos: seq<Utxo>): Result<seq<Transaction>>
    decreases |utxos|
  {
    if |utxos| == 0 then Ok([])
    else
      var k := Capacity(plan, |utxos|);
      if k == 0 then SingleInputTooHeavy
      else if k == |utxos| then Ok([TransactionOf(plan, utxos)])
      else Prepend(TransactionOf(plan, utxos[..k]), Split(plan, utxos[k + 1..]))
  }

  function Prepend(tx: Transaction, rest: Result<seq<Transaction>>): Result<seq<Transaction>> {
    if rest.Ok? then Ok([tx] + rest.value) else rest
  }

  /** The transactions already closed, in front of the rest. */
  function After(closed: seq<Transaction>, rest: Result<seq<Transaction>>): Result<seq<Transaction>> {
    if rest.Ok? then Ok(closed + rest.value) else rest
  }

  lemma FitsIsMonotone(plan: Plan, m: nat, n: nat)
    requires m <= n && Fits(plan, n)
    ensures Fits(plan, m)
  {
    assert m * MassPerInput(plan.calculator) <= n * MassPerInput(plan.calculator);
  }

  /** The loop tests the mass of the transaction itself. */
  lemma MassDecides(plan: Plan, utxos: seq<Utxo>)
    ensures Mass(plan.calculator, TransactionOf(plan, utxos)) + EXTRA_MASS < MAXIMUM_STANDARD_TRANSACTION_MASS <==> Fits(plan, |utxos|)
  {
    MassIsLinear(plan.calculator, TransactionOf(plan, utxos));
  }

  /** Where the first UTXO that does not fit closes the transaction. */
  lemma CapacityIs(plan: Plan, k: nat, n: nat)
    requires k < n && (k > 0 ==> Fits(plan, k)) && !Fits(plan, k + 1)
    ensures Capacity(plan, n) == k
  {
    var c := Capacity(plan, n);
    if c > k {
      FitsIsMonotone(plan, k + 1, c);
    }
  }

  lemma SumOfSnoc(utxos: seq<Utxo>, u: Utxo)
    ensures SumOf(utxos + [u]) == SumOf(utxos) + u.amount
    ensures SumOf(utxos + [u]) % TWO_64 == (SumOf(utxos) % TWO_64 + u.amount) % TWO_64
  {
    assert (utxos + [u])[..|utxos|] == utxos;
    WrappedSum(SumOf(utxos), u.amount);
  }

  lemma WrappedSum(sum: nat, amount: nat)
    ensures (sum % 0x1_0000_0000_0000_0000 + amount) % 0x1_0000_0000_0000_0000 == (sum + amount) % 0x1_0000_0000_0000_0000
  {
  }

  /** The fees of `n` inputs, as computed in 64 bits. */
  function FeesOf(plan: Plan, n: nat): uint64 {
    (n * plan.feePerInput) % TWO_64
  }

  /** What the loop computes step by step is the transaction of the collected UTXOs. */
  lemma WrappedValue(plan: Plan, utxos: seq<Utxo>, total: uint64)
    requires total == SumOf(utxos) % TWO_64
    ensures (total - FeesOf(plan, |utxos|)) % TWO_64 == OutputValue(plan, utxos)
  {
    hide SumOf;
    WrappedDifference(SumOf(utxos), |utxos| * plan.feePerInput);
  }

  lemma WrappedDifference(sum: nat, fee: nat)
    ensures (sum % 0x1_0000_0000_0000_0000 - fee % 0x1_0000_0000_0000_0000) % 0x1_0000_0000_0000_0000
            == (sum - fee) % 0x1_0000_0000_0000_0000
  {
  }

  /** The transaction is closed in front of the first UTXO that does not fit. */
  lemma SplitCuts(plan: Plan, closed: seq<Transaction>, rest: seq<Utxo>, k: nat)
    requires 0 < k < |rest| && Fits(plan, k) && !Fits(plan, k + 1)
    ensures After(closed, Split(plan, rest)) == After(closed + [TransactionOf(plan, rest[..k])], Split(plan, rest[k + 1..]))
  {
    hide Fits, TransactionOf;
    CapacityIs(plan, k, |rest|);
    var tx, tail := TransactionOf(plan, rest[..k]), Split(plan, rest[k + 1..]);
    if tail.Ok? {
      assert closed + ([tx] + tail.value) == closed + [tx] + tail.value;
    }
  }

  lemma SplitFails(plan: Plan, closed: seq<Transaction>, rest: seq<Utxo>)
    requires |rest| > 0 && !Fits(plan, 1)
    ensures After(closed, Split(plan, rest)) == SingleInputTooHeavy
  {
    hide Fits;
    CapacityIs(plan, 0, |rest|);
  }

  lemma SplitEnds(plan: Plan, closed: seq<Transaction>, rest: seq<Utxo>)
    requires |rest| == 0 || Fits(plan, |rest|)
    ensures After(closed, Split(plan, rest)) == Ok(if |rest| == 0 then closed else closed + [TransactionOf(plan, rest)])
  {
    hide Fits, TransactionOf;
    assert closed + [] == closed;
  }

  method CreateSplitTransactions(plan: Plan, selectedUTXOs: seq<Utxo>) returns (r: Result<seq<Transaction>>)
    ensures r == Split(plan, selectedUTXOs)
  {
    hide Mass, OutputValue, FeesOf, SumOf, Fits, Split, After, Capacity;
    var splitTransactions: seq<Transaction> := [];
    var totalSplitAmount: uint64 := 0;
    var lastValidTx := Transaction([], [], false, []);
    var currentTx := Transaction([], [], false, []);
    ghost var start := 0;
    assert selectedUTXOs[0..] == selectedUTXOs;
    SumOfNothing();
    NoneClosed(Split(plan, selectedUTXOs));
    for i := 0 to |selectedUTXOs|
      invariant 0 <= start <= i
      invariant Split(plan, selectedUTXOs) == After(splitTransactions, Split(plan, selectedUTXOs[start..]))
      invariant currentTx.inputs == InputsOf(selectedUTXOs[start..i]) && !currentTx.isCoinbase && currentTx.payload == []
      invariant totalSplitAmount == SumOf(selectedUTXOs[start..i]) % TWO_64
      invariant start < i ==> Fits(plan, i - start) && lastValidTx == TransactionOf(plan, selectedUTXOs[start..i])
      invariant i == |selectedUTXOs| ==> start == i
    {
      var currentUTXO := selectedUTXOs[i];
      ghost var run := selectedUTXOs[start..i + 1];
      assert run == selectedUTXOs[start..i] + [currentUTXO];
      SumOfSnoc(selectedUTXOs[start..i], currentUTXO);
      totalSplitAmount := (totalSplitAmount + currentUTXO.amount) % TWO_64;
      currentTx := currentTx.(inputs := currentTx.inputs + [InputOf(currentUTXO)]);
      WrappedValue(plan, run, totalSplitAmount);
      var fees := FeesOf(plan, |currentTx.inputs|);
      currentTx := currentTx.(outputs := [Output((totalSplitAmount - fees) % TWO_64, plan.script)]);
      assert currentTx == TransactionOf(plan, run);
      MassDecides(plan, run);
      var mass := CalculateTransactionMass(plan.calculator, currentTx);
      ghost var rest := selectedUTXOs[start..];
      if mass + EXTRA_MASS >= MAXIMUM_STANDARD_TRANSACTION_MASS {
        if |currentTx.inputs| == 1 {
          SplitFails(plan, splitTransactions, rest);
          return SingleInputTooHeavy;
        }
        SplitCuts(plan, splitTransactions, rest, i - start);
        assert rest[..i - start] == selectedUTXOs[start..i] && rest[i - start + 1..] == selectedUTXOs[i + 1..];
        splitTransactions := splitTransactions + [lastValidTx];
        totalSplitAmount := 0;
        lastValidTx := Transaction([], [], false, []);
        currentTx := Transaction([], [], false, []);
        start := i + 1;
        assert selectedUTXOs[start..i + 1] == [];
      } else if i == |selectedUTXOs| - 1 {
        assert rest == run;
        SplitEnds(plan, splitTransactions, rest);
        splitTransactions := splitTransactions + [currentTx];
        return Ok(splitTransactions);
      } else {
        lastValidTx := currentTx;
      }
    }
    SplitEnds(plan, splitTransactions, []);
    r := Ok(splitTransactions);
  }

  lemma SumOfNothing()
    ensures SumOf([]) == 0
  {
  }

  lemma NoneClosed(rest: Result<seq<Transaction>>)
    ensures After([], rest) == rest
  {
    if rest.Ok? {
      assert [] + rest.value == rest.value;
    }
  }

  // ---------------------------------------------------------------------------------------
  // What a split guarantees
  // ---------------------------------------------------------------------------------------

  /** The split fails exactly when there is something to sweep and not even one input fits. */
  lemma {:induction false} FailsExactlyWhenOneInputIsTooHeavy(plan: Plan, utxos: seq<Utxo>)
    ensures Split(plan, utxos).SingleInputTooHeavy? <==> |utxos| > 0 && !Fits(plan, 1)
    decreases |utxos|
  {
    if |utxos| > 0 {
      var k := Capacity(plan, |utxos|);
      if k > 0 {
        FitsIsMonotone(plan, 1, k);
        if k < |utxos| {
          FailsExactlyWhenOneInputIsTooHeavy(plan, utxos[k + 1..]);
        }
      }
    }
  }

  /** The runs of UTXOs that become transactions, in order. */
  function Runs(plan: Plan, utxos: seq<Utxo>): seq<seq<Utxo>>
    requires Fits(plan, 1)
    decreases |utxos|
  {
    var k := Capacity(plan, |utxos|);
    if |utxos| == 0 then []
    else if k == |utxos| then [utxos]
    else [utxos[..k]] + Runs(plan, utxos[k + 1..])
  }

  /** The UTXOs that closed a transaction and are spent by none. */
  function LeftOut(plan: Plan, utxos: seq<Utxo>): seq<Utxo>
    requires Fits(plan, 1)
    decreases |utxos|
  {
    var k := Capacity(plan, |utxos|);
    if k == |utxos| then [] else [utxos[k]] + LeftOut(plan, utxos[k + 1..])
  }

  /** The runs with the left-out UTXOs put back between them. */
  function Woven(runs: seq<seq<Utxo>>, leftOut: seq<Utxo>): seq<Utxo> {
    if |runs| == 0 then []
    else if |leftOut| == 0 then runs[0] + Woven(runs[1..], [])
    else runs[0] + [leftOut[0]] + Woven(runs[1..], leftOut[1..])
  }

  /** A transaction for every run, and one run in front of every left-out UTXO. */
  lemma {:induction false} RunsBecomeTransactions(plan: Plan, utxos: seq<Utxo>)
    requires Fits(plan, 1)
    ensures |LeftOut(plan, utxos)| <= |Runs(plan, utxos)| <= |LeftOut(plan, utxos)| + 1
    ensures Split(plan, utxos).Ok? && |Split(plan, utxos).value| == |Runs(plan, utxos)|
    ensures forall i :: 0 <= i < |Runs(plan, utxos)| ==> Split(plan, utxos).value[i] == TransactionOf(plan, Runs(plan, utxos)[i])
    decreases |utxos|
  {
    hide Fits, TransactionOf;
    FitsCapacity(plan, |utxos|);
    if |utxos| > 0 && Capacity(plan, |utxos|) < |utxos| {
      RunsBecomeTransactions(plan, utxos[Capacity(plan, |utxos|) + 1..]);
    }
  }

  lemma FitsCapacity(plan: Plan, n: nat)
    requires Fits(plan, 1)
    ensures n > 0 ==> Capacity(plan, n) > 0
  {
    hide Fits;
  }

  /**
   The transactions spend disjoint runs of the UTXOs in order, separated by exactly one UTXO
   that is left out, and nothing else is left out.
   */
  lemma {:induction false} RunsPartition(plan: Plan, utxos: seq<Utxo>)
    requires Fits(plan, 1)
    ensures Woven(Runs(plan, utxos), LeftOut(plan, utxos)) == utxos
    decreases |utxos|
  {
    hide Fits;
    var k := Capacity(plan, |utxos|);
    if |utxos| > 0 && k == |utxos| {
      assert Runs(plan, utxos)[1..] == [] && Woven([], []) == [];
    } else if |utxos| > 0 {
      var rest := utxos[k + 1..];
      RunsPartition(plan, rest);
      assert Runs(plan, utxos)[1..] == Runs(plan, rest) && LeftOut(plan, utxos)[1..] == LeftOut(plan, rest);
      assert utxos == utxos[..k] + [utxos[k]] + rest;
    }
  }

  /**
   Every run fits; and every run closed by a left-out UTXO has the same length, the greatest that
   fits.
   */
  lemma {:induction false} RunsAreMaximal(plan: Plan, utxos: seq<Utxo>, i: nat)
    requires Fits(plan, 1) && i < |Runs(plan, utxos)|
    ensures var n := |Runs(plan, utxos)[i]|;
            n > 0 && Fits(plan, n) && (i < |LeftOut(plan, utxos)| ==> !Fits(plan, n + 1))
    decreases |utxos|
  {
    var k := Capacity(plan, |utxos|);
    if i > 0 {
      RunsAreMaximal(plan, utxos[k + 1..], i - 1);
    }
  }

  lemma ClosedRunsHaveOneLength(plan: Plan, utxos: seq<Utxo>, i: nat, j: nat)
    requires Fits(plan, 1) && i < |LeftOut(plan, utxos)| && j < |LeftOut(plan, utxos)|
    ensures i < |Runs(plan, utxos)| && j < |Runs(plan, utxos)| && |Runs(plan, utxos)[i]| == |Runs(plan, utxos)[j]|
  {
    RunsBecomeTransactions(plan, utxos);
    RunsAreMaximal(plan, utxos, i);
    RunsAreMaximal(plan, utxos, j);
    var m, n := |Runs(plan, utxos)[i]|, |Runs(plan, utxos)[j]|;
    if m < n {
      FitsIsMonotone(plan, m + 1, n);
    } else if n < m {
      FitsIsMonotone(plan, n + 1, m);
    }
  }

  /** Everything is swept exactly when all UTXOs fit into one transaction. */
  lemma SweepsAllExactlyWhenOneTransactionSuffices(plan: Plan, utxos: seq<Utxo>)
    requires Fits(plan, 1)
    ensures LeftOut(plan, utxos) == [] <==> |utxos| == 0 || Fits(plan, |utxos|)
  {
  }

  /** Transaction `i` spends exactly the outputs of its run, in order, to one output with the given script. */
  lemma SpendsItsRun(plan: Plan, utxos: seq<Utxo>, i: nat)
    requires Fits(plan, 1) && i < |Runs(plan, utxos)|
    ensures Split(plan, utxos).Ok? && i < |Split(plan, utxos).value|
    ensures var tx, run := Split(plan, utxos).value[i], Runs(plan, utxos)[i];
            && |tx.inputs| == |run| && |tx.outputs| == 1 && tx.outputs[0].script == plan.script
            && !tx.isCoinbase && tx.payload == []
            && forall j :: 0 <= j < |run| ==>
                 && tx.inputs[j].previousOutpoint == run[j].outpoint && tx.inputs[j].amount == run[j].amount
                 && tx.inputs[j].signatureScript == [] && tx.inputs[j].sigOpCount == 1
  {
    hide Fits, OutputValue;
    RunsBecomeTransactions(plan, utxos);
  }

  /** Where run `i` begins. */
  function Offset(plan: Plan, utxos: seq<Utxo>, i: nat): nat
    requires Fits(plan, 1) && i < |Runs(plan, utxos)|
    decreases |utxos|
  {
    if i == 0 then 0
    else
      var k := Capacity(plan, |utxos|);
      k + 1 + Offset(plan, utxos[k + 1..], i - 1)
  }

  /** Every run is a stretch of the selection, and later runs lie behind it. */
  lemma {:induction false} RunsAreStretches(plan: Plan, utxos: seq<Utxo>, i: nat, later: nat)
    requires Fits(plan, 1) && i < |Runs(plan, utxos)| && i < later < |Runs(plan, utxos)|
    ensures var from, n := Offset(plan, utxos, i), |Runs(plan, utxos)[i]|;
            && from + n < Offset(plan, utxos, later)
    decreases |utxos|
  {
    hide Fits;
    if i > 0 {
      RunsAreStretches(plan, utxos[Capacity(plan, |utxos|) + 1..], i - 1, later - 1);
    }
  }

  lemma {:induction false} RunIsAt(plan: Plan, utxos: seq<Utxo>, i: nat)
    requires Fits(plan, 1) && i < |Runs(plan, utxos)|
    ensures var from, n := Offset(plan, utxos, i), |Runs(plan, utxos)[i]|;
            from + n <= |utxos| && Runs(plan, utxos)[i] == utxos[from..from + n]
    decreases |utxos|
  {
    hide Fits;
    if i > 0 {
      RunIsAt(plan, utxos[Capacity(plan, |utxos|) + 1..], i - 1);
    }
  }

  /** If the selected outputs are distinct, no output is spent twice, within one transaction or by two. */
  lemma NothingIsSpentTwice(plan: Plan, utxos: seq<Utxo>, i: nat, j: nat, i': nat, j': nat)
    requires Fits(plan, 1) && forall a, b :: 0 <= a < b < |utxos| ==> utxos[a].outpoint != utxos[b].outpoint
    requires Split(plan, utxos).Ok? && i < |Split(plan, utxos).value| && i' < |Split(plan, utxos).value|
    requires j < |Split(plan, utxos).value[i].inputs| && j' < |Split(plan, utxos).value[i'].inputs|
    requires Split(plan, utxos).value[i].inputs[j].previousOutpoint == Split(plan, utxos).value[i'].inputs[j'].previousOutpoint
    ensures i == i' && j == j'
  {
    hide Fits, Split, Runs, Offset;
    RunsBecomeTransactions(plan, utxos);
    SpendsItsRun(plan, utxos, i);
    SpendsItsRun(plan, utxos, i');
    RunIsAt(plan, utxos, i);
    RunIsAt(plan, utxos, i');
    assert utxos[Offset(plan, utxos, i) + j].outpoint == utxos[Offset(plan, utxos, i') + j'].outpoint;
    if i < i' {
      RunsAreStretches(plan, utxos, i, i');
    } else if i' < i {
      RunsAreStretches(plan, utxos, i', i);
    }
  }

  /** The mass of every transaction leaves room for its signatures. */
  lemma EveryTransactionIsLight(plan: Plan, utxos: seq<Utxo>, i: nat)
    requires Split(plan, utxos).Ok? && i < |Split(plan, utxos).value|
    ensures Mass(plan.calculator, Split(plan, utxos).value[i]) + EXTRA_MASS < MAXIMUM_STANDARD_TRANSACTION_MASS
  {
    hide Mass, Fits;
    FailsExactlyWhenOneInputIsTooHeavy(plan, utxos);
    RunsBecomeTransactions(plan, utxos);
    RunsAreMaximal(plan, utxos, i);
    MassDecides(plan, Runs(plan, utxos)[i]);
  }

  /** Every amount covers the fee of its input. */
  predicate Covered(plan: Plan, utxos: seq<Utxo>) {
    forall i :: 0 <= i < |utxos| ==> plan.feePerInput <= utxos[i].amount
  }

  lemma {:induction false} CoveredSum(plan: Plan, utxos: seq<Utxo>)
    requires Covered(plan, utxos)
    ensures |utxos| * plan.feePerInput <= SumOf(utxos)
    decreases |utxos|
  {
    if |utxos| > 0 {
      CoveredSum(plan, utxos[..|utxos| - 1]);
      assert |utxos| * plan.feePerInput == (|utxos| - 1) * plan.feePerInput + plan.feePerInput;
    }
  }

  lemma {:induction false} SumOfAppend(a: seq<Utxo>, b: seq<Utxo>)
    ensures SumOf(a + b) == SumOf(a) + SumOf(b)
    decreases |b|
  {
    if |b| == 0 {
      assert a + b == a;
    } else {
      SumOfAppend(a, b[..|b| - 1]);
      assert (a + b)[..|a + b| - 1] == a + b[..|b| - 1];
    }
  }

  /** The values of all outputs, and the fees of all inputs. */
  function TotalOutput(txs: seq<Transaction>): nat {
    if |txs| == 0 then 0 else (if |txs[0].outputs| > 0 then txs[0].outputs[0].value else 0) + TotalOutput(txs[1..])
  }

  function TotalInputs(txs: seq<Transaction>): nat {
    if |txs| == 0 then 0 else |txs[0].inputs| + TotalInputs(txs[1..])
  }

  function Fees(plan: Plan, txs: seq<Transaction>): nat {
    TotalInputs(txs) * plan.feePerInput
  }

  /** The fees of the inputs do not exceed what they bring in. */
  predicate IsAffordable(plan: Plan, run: seq<Utxo>) {
    |run| * plan.feePerInput <= SumOf(run)
  }

  predicate AllAffordable(plan: Plan, runs: seq<seq<Utxo>>) {
    forall i :: 0 <= i < |runs| ==> IsAffordable(plan, runs[i])
  }

  /** What a run pays out and in fees. */
  function Spent(plan: Plan, run: seq<Utxo>): nat {
    OutputValue(plan, run) + |run| * plan.feePerInput
  }

  /** Output and fees are never less than the inputs, and more exactly when the value has wrapped around. */
  lemma ValueAndFees(plan: Plan, run: seq<Utxo>)
    requires SumOf(run) < TWO_64
    ensures SumOf(run) <= Spent(plan, run)
    ensures Spent(plan, run) == SumOf(run) <==> IsAffordable(plan, run)
  {
    hide SumOf;
    var difference := SumOf(run) - |run| * plan.feePerInput;
    assert difference < 0 ==> difference % TWO_64 >= 0;
  }

  /** A run holds no more than what was selected, and its amounts cover the fees if all do. */
  lemma {:induction false} RunsAreParts(plan: Plan, utxos: seq<Utxo>, i: nat)
    requires Fits(plan, 1) && i < |Runs(plan, utxos)|
    ensures SumOf(Runs(plan, utxos)[i]) <= SumOf(utxos)
    ensures Covered(plan, utxos) ==> Covered(plan, Runs(plan, utxos)[i])
    decreases |utxos|
  {
    hide Fits, SumOf;
    var k := Capacity(plan, |utxos|);
    if k < |utxos| {
      var rest := utxos[k + 1..];
      SumAround(utxos, k);
      if i > 0 {
        RunsAreParts(plan, rest, i - 1);
      }
    }
  }

  /**
   Every transaction pays out the sum of its inputs less one fee for each, if and only if these
   fees do not exceed the sum; so all of them do when every amount covers its fee.
   */
  lemma PaysExactlyWhenAffordable(plan: Plan, utxos: seq<Utxo>, i: nat)
    requires Fits(plan, 1) && SumOf(utxos) < TWO_64 && i < |Runs(plan, utxos)|
    ensures Split(plan, utxos).Ok? && i < |Split(plan, utxos).value| && |Split(plan, utxos).value[i].outputs| == 1
    ensures var run, paid := Runs(plan, utxos)[i], Split(plan, utxos).value[i].outputs[0].value;
            && (paid == SumOf(run) - |run| * plan.feePerInput <==> |run| * plan.feePerInput <= SumOf(run))
            && (Covered(plan, utxos) ==> paid == SumOf(run) - |run| * plan.feePerInput)
  {
    hide Fits, SumOf, OutputValue;
    RunsBecomeTransactions(plan, utxos);
    RunsAreParts(plan, utxos, i);
    var run := Runs(plan, utxos)[i];
    ValueAndFees(plan, run);
    if Covered(plan, utxos) {
      CoveredSum(plan, run);
    }
  }

  /** What the split pays out, pays in fees and leaves out. */
  function Accounted(plan: Plan, utxos: seq<Utxo>): nat
    requires Fits(plan, 1) && Split(plan, utxos).Ok?
  {
    var txs := Split(plan, utxos).value;
    TotalOutput(txs) + Fees(plan, txs) + SumOf(LeftOut(plan, utxos))
  }

  /**
   Conservation: when all amounts together fit in 64 bits, what is paid out, what is paid in fees
   and what is left out add up to what was there, if and only if no run costs more than it brings
   in.  Otherwise they add up to more.
   */
  lemma {:induction false} ConservesExactlyWhenAffordable(plan: Plan, utxos: seq<Utxo>)
    requires Fits(plan, 1) && SumOf(utxos) < TWO_64
    ensures Split(plan, utxos).Ok? && SumOf(utxos) <= Accounted(plan, utxos)
    ensures Accounted(plan, utxos) == SumOf(utxos) <==> AllAffordable(plan, Runs(plan, utxos))
    decreases |utxos|
  {
    hide Fits, SumOf, Split, Accounted, IsAffordable, Spent, LeftOut;
    FailsExactlyWhenOneInputIsTooHeavy(plan, utxos);
    FitsCapacity(plan, |utxos|);
    var k := Capacity(plan, |utxos|);
    if k == |utxos| {
      AccountedAtEnd(plan, utxos);
      ValueAndFees(plan, utxos);
      AffordableRuns(plan, utxos, []);
      assert [utxos] + [] == [utxos];
    } else {
      AccountedAtCut(plan, utxos, k);
      ValueAndFees(plan, utxos[..k]);
      ConservesExactlyWhenAffordable(plan, utxos[k + 1..]);
      AffordableRuns(plan, utxos[..k], Runs(plan, utxos[k + 1..]));
    }
  }

  lemma AccountedAtEnd(plan: Plan, utxos: seq<Utxo>)
    requires Fits(plan, 1) && Capacity(plan, |utxos|) == |utxos|
    ensures Split(plan, utxos).Ok? && Accounted(plan, utxos) == if |utxos| == 0 then 0 else Spent(plan, utxos)
    ensures |utxos| == 0 ==> SumOf(utxos) == 0
  {
    hide Fits, SumOf, TotalOutput, Fees, TransactionOf, OutputValue, Spent;
    SumOfNothing();
    NothingSpent(plan);
    if |utxos| > 0 {
      ConservationStep(plan, utxos, []);
      assert [TransactionOf(plan, utxos)] + [] == [TransactionOf(plan, utxos)];
    } else {
      assert utxos == [];
    }
  }

  lemma SplitAtCut(plan: Plan, utxos: seq<Utxo>, k: nat)
    requires Fits(plan, 1) && 0 < k < |utxos| && k == Capacity(plan, |utxos|) && Split(plan, utxos).Ok?
    ensures Split(plan, utxos[k + 1..]).Ok?
    ensures Split(plan, utxos).value == [TransactionOf(plan, utxos[..k])] + Split(plan, utxos[k + 1..]).value
    ensures LeftOut(plan, utxos) == [utxos[k]] + LeftOut(plan, utxos[k + 1..])
  {
    hide Fits, TransactionOf;
  }

  lemma SumAround(utxos: seq<Utxo>, k: nat)
    requires k < |utxos|
    ensures SumOf(utxos) == SumOf(utxos[..k]) + utxos[k].amount + SumOf(utxos[k + 1..])
  {
    hide SumOf;
    assert utxos == utxos[..k] + [utxos[k]] + utxos[k + 1..];
    SumOfAppend(utxos[..k] + [utxos[k]], utxos[k + 1..]);
    SumOfSnoc(utxos[..k], utxos[k]);
  }

  lemma AccountedAtCut(plan: Plan, utxos: seq<Utxo>, k: nat)
    requires Fits(plan, 1) && 0 < k < |utxos| && k == Capacity(plan, |utxos|) && Split(plan, utxos).Ok?
    ensures Split(plan, utxos[k + 1..]).Ok?
    ensures Accounted(plan, utxos) == Spent(plan, utxos[..k]) + utxos[k].amount + Accounted(plan, utxos[k + 1..])
    ensures SumOf(utxos) == SumOf(utxos[..k]) + utxos[k].amount + SumOf(utxos[k + 1..])
  {
    hide Fits, SumOf, TotalOutput, Fees, TransactionOf, Spent, Split, LeftOut;
    SumAround(utxos, k);
    SplitAtCut(plan, utxos, k);
    SumAround(LeftOut(plan, utxos), 0);
    SumOfNothing();
    assert LeftOut(plan, utxos)[..0] == [] && LeftOut(plan, utxos)[1..] == LeftOut(plan, utxos[k + 1..]);
    ConservationStep(plan, utxos[..k], Split(plan, utxos[k + 1..]).value);
  }

  lemma AffordableRuns(plan: Plan, run: seq<Utxo>, runs: seq<seq<Utxo>>)
    ensures AllAffordable(plan, [run] + runs) <==> IsAffordable(plan, run) && AllAffordable(plan, runs)
  {
    hide IsAffordable;
    var all := [run] + runs;
    assert all[0] == run && forall i :: 0 <= i < |runs| ==> all[i + 1] == runs[i];
  }

  /** Nothing is lost or made when every amount covers its fee. */
  lemma Conservation(plan: Plan, utxos: seq<Utxo>)
    requires Fits(plan, 1) && Covered(plan, utxos) && SumOf(utxos) < TWO_64
    ensures Split(plan, utxos).Ok? && Accounted(plan, utxos) == SumOf(utxos)
  {
    hide Fits, SumOf, Accounted;
    ConservesExactlyWhenAffordable(plan, utxos);
    forall i | 0 <= i < |Runs(plan, utxos)|
      ensures IsAffordable(plan, Runs(plan, utxos)[i])
    {
      RunsAreParts(plan, utxos, i);
      CoveredSum(plan, Runs(plan, utxos)[i]);
    }
  }

  /** With the mass parameters of the network 87 inputs fit, and every larger selection leaves something out. */
  lemma LargeSelectionsLoseUtxos(utxos: seq<Utxo>)
    requires |utxos| >= 88
    ensures var plan := Plan(Calculator(1, 10, 1000), seq(34, _ => 0), 10000);
            Fits(plan, 1) && Fits(plan, 87) && !Fits(plan, 88) && LeftOut(plan, utxos) != []
  {
    var plan := Plan(Calculator(1, 10, 1000), seq(34, _ => 0), 10000);
    assert BaseMass(plan.calculator, 34) == 506 && MassPerInput(plan.calculator) == 1052;
    SweepsAllExactlyWhenOneTransactionSuffices(plan, utxos);
  }

  /** A UTXO of 5000 swept at the fee of 10000 is paid out as 2^64 - 5000. */
  lemma UncoveredFeeWrapsAround()
    ensures var plan := Plan(Calculator(1, 10, 1000), seq(34, _ => 0), 10000);
            var utxos := [Utxo(Outpoint(0, 0), 5000)];
            && Fits(plan, 1) && Split(plan, utxos) == Ok([TransactionOf(plan, utxos)])
            && TransactionOf(plan, utxos).outputs[0].value == 0x1_0000_0000_0000_0000 - 5000
  {
    var plan := Plan(Calculator(1, 10, 1000), seq(34, _ => 0), 10000);
    var utxos := [Utxo(Outpoint(0, 0), 5000)];
    assert utxos[..0] == [] && SumOf(utxos[..0]) == 0 && SumOf(utxos) == 5000;
    assert BaseMass(plan.calculator, 34) < 1000 && MassPerInput(plan.calculator) == 1052;
    assert Capacity(plan, 1) == 1;
  }

  lemma NothingSpent(plan: Plan)
    ensures TotalOutput([]) == 0 && Fees(plan, []) == 0
  {
  }

  lemma ConservationStep(plan: Plan, spent: seq<Utxo>, rest: seq<Transaction>)
    ensures var txs := [TransactionOf(plan, spent)] + rest;
            TotalOutput(txs) + Fees(plan, txs) == Spent(plan, spent) + TotalOutput(rest) + Fees(plan, rest)
  {
    hide OutputValue;
    var txs := [TransactionOf(plan, spent)] + rest;
    assert txs[1..] == rest;
    assert (|spent| + TotalInputs(rest)) * plan.feePerInput == |spent| * plan.feePerInput + TotalInputs(rest) * plan.feePerInput;
  }
}
