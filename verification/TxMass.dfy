/** The mass of a transaction: its estimated size, its output scripts and its signature operations. */
module TxMass {
  import opened Basics
  import opened HashSerialization

  const DOMAIN_SUBNETWORK_ID_SIZE := 20

  datatype Outpoint = Outpoint(transactionID: nat, index: nat)

  /** Scripts count by their bytes only. */
  datatype Input = Input(previousOutpoint: Outpoint, amount: uint64, signatureScript: seq<nat>, sigOpCount: nat)

  datatype Output = Output(value: uint64, script: seq<nat>)

  datatype Transaction = Transaction(inputs: seq<Input>, outputs: seq<Output>, isCoinbase: bool, payload: seq<nat>)

  datatype Calculator = Calculator(massPerTxByte: nat, massPerScriptPubKeyByte: nat, massPerSigOp: nat)

  function OutpointSize(): nat {
    DOMAIN_HASH_SIZE + 4
  }

  function InputSize(input: Input): nat {
    OutpointSize() + 8 + |input.signatureScript| + 8
  }

  function OutputSize(output: Output): nat {
    8 + 2 + 8 + |output.script|
  }

  function InputsSize(inputs: seq<Input>): nat {
    if |inputs| == 0 then 0 else InputsSize(inputs[..|inputs| - 1]) + InputSize(inputs[|inputs| - 1])
  }

  function OutputsSize(outputs: seq<Output>): nat {
    if |outputs| == 0 then 0 else OutputsSize(outputs[..|outputs| - 1]) + OutputSize(outputs[|outputs| - 1])
  }

  function ScriptsSize(outputs: seq<Output>): nat {
    if |outputs| == 0 then 0 else ScriptsSize(outputs[..|outputs| - 1]) + 2 + |outputs[|outputs| - 1].script|
  }

  function SigOps(inputs: seq<Input>): nat {
    if |inputs| == 0 then 0 else SigOps(inputs[..|inputs| - 1]) + inputs[|inputs| - 1].sigOpCount
  }

  /** What a transaction weighs without inputs, outputs and payload: version, counts, lock time, ids and lengths. */
  const EMPTY_SIZE: nat := 2 + 8 + 8 + 8 + DOMAIN_SUBNETWORK_ID_SIZE + 8 + DOMAIN_HASH_SIZE + 8

  function Size(tx: Transaction): nat {
    if tx.isCoinbase then 0 else EMPTY_SIZE + InputsSize(tx.inputs) + OutputsSize(tx.outputs) + |tx.payload|
  }

  function Mass(c: Calculator, tx: Transaction): nat {
    if tx.isCoinbase then 0
    else Size(tx) * c.massPerTxByte + ScriptsSize(tx.outputs) * c.massPerScriptPubKeyByte + SigOps(tx.inputs) * c.massPerSigOp
  }

  method TransactionEstimatedSerializedSize(tx: Transaction) returns (size: nat)
    ensures size == Size(tx)
  {
    if tx.isCoinbase {
      return 0;
    }
    size := 0;
    size := size + 2;
    size := size + 8;
    for i := 0 to |tx.inputs|
      invariant size == 10 + InputsSize(tx.inputs[..i])
    {
      assert tx.inputs[..i + 1][..i] == tx.inputs[..i];
      size := size + InputSize(tx.inputs[i]);
    }
    assert tx.inputs[..|tx.inputs|] == tx.inputs;
    size := size + 8;
    for i := 0 to |tx.outputs|
      invariant size == 18 + InputsSize(tx.inputs) + OutputsSize(tx.outputs[..i])
    {
      assert tx.outputs[..i + 1][..i] == tx.outputs[..i];
      size := size + OutputSize(tx.outputs[i]);
    }
    assert tx.outputs[..|tx.outputs|] == tx.outputs;
    size := size + 8;
    size := size + DOMAIN_SUBNETWORK_ID_SIZE;
    size := size + 8;
    size := size + DOMAIN_HASH_SIZE;
    size := size + 8;
    size := size + |tx.payload|;
  }

  method TotalScriptPubKeySize(outputs: seq<Output>) returns (size: nat)
    ensures size == ScriptsSize(outputs)
  {
    size := 0;
    for i := 0 to |outputs|
      invariant size == ScriptsSize(outputs[..i])
    {
      assert outputs[..i + 1][..i] == outputs[..i];
      size := size + 2;
      size := size + |outputs[i].script|;
    }
    assert outputs[..|outputs|] == outputs;
  }

  method TotalSigOpCount(inputs: seq<Input>) returns (count: nat)
    ensures count == SigOps(inputs)
  {
    count := 0;
    for i := 0 to |inputs|
      invariant count == SigOps(inputs[..i])
    {
      assert inputs[..i + 1][..i] == inputs[..i];
      count := count + inputs[i].sigOpCount;
    }
    assert inputs[..|inputs|] == inputs;
  }

  method CalculateTransactionMass(c: Calculator, tx: Transaction) returns (mass: nat)
    ensures mass == Mass(c, tx)
  {
    hide Size, ScriptsSize, SigOps;
    if tx.isCoinbase {
      return 0;
    }
    var size := TransactionEstimatedSerializedSize(tx);
    var massForSize := size * c.massPerTxByte;
    var totalScriptPubKeySize := TotalScriptPubKeySize(tx.outputs);
    var massForScriptPubKey := totalScriptPubKeySize * c.massPerScriptPubKeyByte;
    var totalSigOpCount := TotalSigOpCount(tx.inputs);
    var massForSigOps := totalSigOpCount * c.massPerSigOp;
    mass := massForSize + massForScriptPubKey + massForSigOps;
  }

  /** An input that carries no signature script yet and counts one signature operation. */
  predicate IsUnsigned(input: Input) {
    input.signatureScript == [] && input.sigOpCount == 1
  }

  lemma {:induction false} UnsignedInputs(inputs: seq<Input>)
    requires forall i :: 0 <= i < |inputs| ==> IsUnsigned(inputs[i])
    ensures InputsSize(inputs) == 52 * |inputs| && SigOps(inputs) == |inputs|
    decreases |inputs|
  {
    if |inputs| > 0 {
      UnsignedInputs(inputs[..|inputs| - 1]);
    }
  }

  /** What every unsigned input adds to the mass. */
  function MassPerInput(c: Calculator): nat {
    52 * c.massPerTxByte + c.massPerSigOp
  }

  /** The mass of a transaction with one output and no inputs. */
  function BaseMass(c: Calculator, scriptLength: nat): nat {
    (EMPTY_SIZE + 18 + scriptLength) * c.massPerTxByte + (2 + scriptLength) * c.massPerScriptPubKeyByte
  }

  /** With unsigned inputs and one output, mass is linear in the number of inputs. */
  lemma MassIsLinear(c: Calculator, tx: Transaction)
    requires !tx.isCoinbase && tx.payload == [] && |tx.outputs| == 1
    requires forall i :: 0 <= i < |tx.inputs| ==> IsUnsigned(tx.inputs[i])
    ensures Mass(c, tx) == BaseMass(c, |tx.outputs[0].script|) + |tx.inputs| * MassPerInput(c)
  {
    UnsignedInputs(tx.inputs);
    var n, length := |tx.inputs|, |tx.outputs[0].script|;
    assert tx.outputs[..0] == [] && OutputsSize(tx.outputs[..0]) == 0 && ScriptsSize(tx.outputs[..0]) == 0;
    assert OutputsSize(tx.outputs) == 18 + length && ScriptsSize(tx.outputs) == 2 + length;
    assert Size(tx) == EMPTY_SIZE + 18 + length + 52 * n;
    assert Size(tx) * c.massPerTxByte == (EMPTY_SIZE + 18 + length) * c.massPerTxByte + n * (52 * c.massPerTxByte);
  }

  // ---------------------------------------------------------------------------------------
  // The size is that of an encoding
  // ---------------------------------------------------------------------------------------

  /** The fields of a transaction that its mass does not depend on. */
  datatype Unweighed = Unweighed(
    version: nat,
    sequences: nat -> nat,
    scriptVersions: nat -> nat,
    lockTime: nat,
    subnetworkID: nat,
    gas: nat,
    payloadHash: nat)

  function EncodeInput(input: Input, sequence: nat): seq<nat> {
    LittleEndian(input.previousOutpoint.transactionID, 32) + LittleEndian(input.previousOutpoint.index, 4) +
    LittleEndian(|input.signatureScript|, 8) + input.signatureScript + LittleEndian(sequence, 8)
  }

  function EncodeOutput(output: Output, scriptVersion: nat): seq<nat> {
    LittleEndian(output.value, 8) + LittleEndian(scriptVersion, 2) + LittleEndian(|output.script|, 8) + output.script
  }

  function EncodeInputs(inputs: seq<Input>, sequences: nat -> nat): seq<nat> {
    if |inputs| == 0 then []
    else EncodeInputs(inputs[..|inputs| - 1], sequences) + EncodeInput(inputs[|inputs| - 1], sequences(|inputs| - 1))
  }

  function EncodeOutputs(outputs: seq<Output>, scriptVersions: nat -> nat): seq<nat> {
    if |outputs| == 0 then []
    else EncodeOutputs(outputs[..|outputs| - 1], scriptVersions) + EncodeOutput(outputs[|outputs| - 1], scriptVersions(|outputs| - 1))
  }

  /** A transaction written out: every field, with the number of inputs and outputs and the lengths of scripts and payload. */
  function Encode(tx: Transaction, rest: Unweighed): seq<nat> {
    LittleEndian(rest.version, 2) +
    LittleEndian(|tx.inputs|, 8) + EncodeInputs(tx.inputs, rest.sequences) +
    LittleEndian(|tx.outputs|, 8) + EncodeOutputs(tx.outputs, rest.scriptVersions) +
    LittleEndian(rest.lockTime, 8) + LittleEndian(rest.subnetworkID, 20) + LittleEndian(rest.gas, 8) +
    LittleEndian(rest.payloadHash, 32) + LittleEndian(|tx.payload|, 8) + tx.payload
  }

  lemma {:induction false} InputsLength(inputs: seq<Input>, sequences: nat -> nat)
    ensures |EncodeInputs(inputs, sequences)| == InputsSize(inputs)
    decreases |inputs|
  {
    hide LittleEndian;
    if |inputs| > 0 {
      InputsLength(inputs[..|inputs| - 1], sequences);
    }
  }

  lemma {:induction false} OutputsLength(outputs: seq<Output>, scriptVersions: nat -> nat)
    ensures |EncodeOutputs(outputs, scriptVersions)| == OutputsSize(outputs)
    decreases |outputs|
  {
    hide LittleEndian;
    if |outputs| > 0 {
      OutputsLength(outputs[..|outputs| - 1], scriptVersions);
    }
  }

  /** The estimated size of a transaction is the length of its encoding, whatever its other fields; a coinbase weighs nothing. */
  lemma SizeIsEncodedLength(tx: Transaction, rest: Unweighed, c: Calculator)
    ensures Size(tx) == if tx.isCoinbase then 0 else |Encode(tx, rest)|
    ensures tx.isCoinbase ==> Mass(c, tx) == 0
  {
    hide LittleEndian, InputsSize, OutputsSize, EncodeInputs, EncodeOutputs;
    InputsLength(tx.inputs, rest.sequences);
    OutputsLength(tx.outputs, rest.scriptVersions);
  }

  /** What one more input, with its signature script and signature operations, adds to the mass. */
  lemma MassOfInput(c: Calculator, tx: Transaction, input: Input)
    requires !tx.isCoinbase
    ensures Mass(c, tx.(inputs := tx.inputs + [input])) ==
            Mass(c, tx) + (52 + |input.signatureScript|) * c.massPerTxByte + input.sigOpCount * c.massPerSigOp
  {
    var inputs := tx.inputs + [input];
    assert inputs[..|inputs| - 1] == tx.inputs;
    assert Size(tx.(inputs := inputs)) == Size(tx) + (52 + |input.signatureScript|);
    Distributes(Size(tx), 52 + |input.signatureScript|, c.massPerTxByte);
    Distributes(SigOps(tx.inputs), input.sigOpCount, c.massPerSigOp);
  }

  /** What one more output adds to the mass. */
  lemma MassOfOutput(c: Calculator, tx: Transaction, output: Output)
    requires !tx.isCoinbase
    ensures Mass(c, tx.(outputs := tx.outputs + [output])) ==
            Mass(c, tx) + (18 + |output.script|) * c.massPerTxByte + (2 + |output.script|) * c.massPerScriptPubKeyByte
  {
    var outputs := tx.outputs + [output];
    assert outputs[..|outputs| - 1] == tx.outputs;
    assert Size(tx.(outputs := outputs)) == Size(tx) + (18 + |output.script|);
    Distributes(Size(tx), 18 + |output.script|, c.massPerTxByte);
    Distributes(ScriptsSize(tx.outputs), 2 + |output.script|, c.massPerScriptPubKeyByte);
  }

  lemma Distributes(a: nat, b: nat, price: nat)
    ensures (a + b) * price == a * price + b * price
  {
  }
}
