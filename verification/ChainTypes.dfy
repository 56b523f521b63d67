/** The records shared by the node (include/transaction.h, include/block.h). Strings are the
    bytes std::string holds. */
module ChainTypes {
  import opened ByteStrings

  type Bytes32 = s: Bytes | |s| == 32 witness Zeros(32)

  datatype TxInput = TxInput(prevTxHash: Bytes, outputIndex: int)

  datatype TxOutput = TxOutput(value: U64, address: Bytes)

  datatype Transaction = Transaction(
    chainId: U64,
    nonce: U64,
    maxPriorityFeePerGas: U64,
    maxFeePerGas: U64,
    gasLimit: U64,
    toAddress: Bytes,
    value: U64,
    data: Bytes,
    inputs: seq<TxInput>,
    outputs: seq<TxOutput>,
    v: U64,
    r: Bytes32,
    s: Bytes32,
    txHash: Bytes)

  datatype Block = Block(
    previousHash: Bytes,
    data: Bytes,
    difficulty: nat,
    minerAddress: Bytes,
    timestamp: U64,
    nonce: U64,
    reward: U64,
    baseFee: U64,
    gasUsed: U64,
    gasLimit: U64,
    hash: Bytes,
    signature: Bytes,
    transactions: seq<Transaction>)

  predicate NoRepeat(inputs: seq<TxInput>) {
    forall i, j :: 0 <= i < j < |inputs| ==> inputs[i] != inputs[j]
  }

  /** The outpoints a list of inputs names. */
  function InputSet(inputs: seq<TxInput>): set<TxInput> {
    set i | 0 <= i < |inputs| :: inputs[i]
  }

  lemma InputSetStep(inputs: seq<TxInput>)
    requires inputs != []
    ensures InputSet(inputs) == {inputs[0]} + InputSet(inputs[1..])
  {
    forall o | o in InputSet(inputs)
      ensures o in {inputs[0]} + InputSet(inputs[1..])
    {
      var i :| 0 <= i < |inputs| && inputs[i] == o;
      if i > 0 {
        assert inputs[1..][i - 1] == o;
      }
    }
    forall o | o in InputSet(inputs[1..])
      ensures o in InputSet(inputs)
    {
      var i :| 0 <= i < |inputs[1..]| && inputs[1..][i] == o;
      assert inputs[i + 1] == o;
    }
  }
}
