/** The ledger behind addBlock (src/blockchain.cpp): reward clamping, transaction checks, application
    and rollback of a block. Sums are 64-bit and wrap where the source lets them. */
module LedgerState {
  import opened Wrappers
  import opened ByteStrings
  import opened ChainTypes

  datatype Utxo = Utxo(value: U64, address: Bytes, blockHeight: nat, isCoinbase: bool)

  type Utxos = map<TxInput, Utxo>
  type Balances = map<Bytes, U64>

  datatype Config = Config(
    ownerAddress: Bytes,
    treasuryAddress: Bytes,
    maxSupply: U64,
    initialMedor: nat,
    targetGasPerBlock: U64,
    rewardSchedule: seq<(U64, U64)>)

  /** Decisions taken outside this file: when an unspent output may be spent at a height, and
      whether a signature recovers to an address. */
  datatype Rules = Rules(spendable: (Utxo, nat) -> bool, recovers: (Transaction, Bytes) -> bool)

  datatype Ledger = Ledger(chain: seq<Block>, totalSupply: U64, baseFee: U64, balances: Balances, utxos: Utxos)

  /** What one call meets: three clock readings, the coinbase hash, the mined nonce and hash,
      and whether the block database accepted the block. */
  datatype Env = Env(
    rewardClock: U64,
    checkClock: U64,
    blockClock: U64,
    coinbaseHash: Option<Bytes>,
    mined: Option<(U64, Bytes)>,
    written: bool)

  const U64_MAX: U64 := 0xFFFF_FFFF_FFFF_FFFF

  function Min(a: nat, b: nat): nat {
    if a < b then a else b
  }

  // ---------------------------------------------------------------- rewards

  function ScheduledReward(schedule: seq<(U64, U64)>, elapsed: nat): U64
    requires schedule != []
  {
    if elapsed < schedule[0].0 || |schedule| == 1 then schedule[0].1 else ScheduledReward(schedule[1..], elapsed)
  }

  function Reward(cfg: Config, chain: seq<Block>, now: U64): U64
    requires chain == [] || cfg.rewardSchedule != []
  {
    if chain == [] then (if cfg.rewardSchedule == [] then 0 else cfg.rewardSchedule[0].1)
    else
      var genesisTime := chain[0].timestamp;
      ScheduledReward(cfg.rewardSchedule, if now >= genesisTime then now - genesisTime else 0)
  }

  /** maxSupply - totalSupply in 64-bit arithmetic. */
  function Remaining(cfg: Config, st: Ledger): U64 {
    (cfg.maxSupply - st.totalSupply) % U64_LIMIT
  }

  function Allowed(cfg: Config, st: Ledger, now: U64): U64
    requires st.chain == [] || cfg.rewardSchedule != []
  {
    Min(Reward(cfg, st.chain, now), Remaining(cfg, st))
  }

  function Coinbase(cfg: Config, miner: Bytes, reward: U64, hash: Bytes): Transaction {
    var minerValue := reward * 90 % U64_LIMIT / 100;
    Transaction(0, 0, 0, 0, 0, [], 0, [], [],
                [TxOutput(minerValue, miner), TxOutput(reward - minerValue, cfg.ownerAddress)],
                0, Zeros(32), Zeros(32), hash)
  }

  // ---------------------------------------------------------------- transaction checks

  function OutputSum(outputs: seq<TxOutput>): nat {
    if outputs == [] then 0 else OutputSum(outputs[..|outputs| - 1]) + outputs[|outputs| - 1].value
  }

  /** A repeated non-empty hash among the transactions. */
  predicate HasDuplicate(txs: seq<Transaction>) {
    exists i, j :: 0 <= i < j < |txs| && txs[i].txHash != [] && txs[i].txHash == txs[j].txHash
  }

  predicate SignatureFine(rules: Rules, tx: Transaction, address: Bytes) {
    (tx.r == Zeros(32) && tx.s == Zeros(32)) || rules.recovers(tx, address)
  }

  /** The input loop: the wrapped sum of the values and the outpoints now marked spent. */
  function CheckedInputs(rules: Rules, utxos: Utxos, tx: Transaction, inputs: seq<TxInput>, spent: set<TxInput>,
                         sum: U64)
    : Option<(U64, set<TxInput>)>
    decreases inputs
  {
    if inputs == [] then Some((sum, spent))
    else
      var o := inputs[0];
      if o in spent || o !in utxos || !SignatureFine(rules, tx, utxos[o].address) then None
      else CheckedInputs(rules, utxos, tx, inputs[1..], spent + {o}, (sum + utxos[o].value) % U64_LIMIT)
  }

  /** The checks of every transaction after the first. */
  predicate CheckedRest(rules: Rules, utxos: Utxos, txs: seq<Transaction>, spent: set<TxInput>)
    decreases txs
  {
    txs == [] ||
    var tx := txs[0];
    var checked := CheckedInputs(rules, utxos, tx, tx.inputs, spent, 0);
    && |tx.txHash| == 64
    && checked.Some?
    && OutputSum(tx.outputs) % U64_LIMIT <= checked.value.0
    && CheckedRest(rules, utxos, txs[1..], checked.value.1)
  }

  predicate ValidTransactions(cfg: Config, rules: Rules, st: Ledger, txs: seq<Transaction>, now: U64)
    requires st.chain == [] || cfg.rewardSchedule != []
  {
    txs == [] ||
    (&& !HasDuplicate(txs)
     && OutputSum(txs[0].outputs) % U64_LIMIT <= Allowed(cfg, st, now)
     && CheckedRest(rules, st.utxos, txs[1..], {}))
  }

  // ---------------------------------------------------------------- application and rollback

  function BalanceOf(balances: Balances, a: Bytes): U64 {
    if a in balances then balances[a] else 0
  }

  /** addBalance, which leaves the balances alone when it fails. */
  function Credit(balances: Balances, a: Bytes, amount: U64): Balances {
    if a == [] || amount > U64_MAX - BalanceOf(balances, a) then balances
    else balances[a := BalanceOf(balances, a) + amount]
  }

  function NetworkFee(value: U64): U64 {
    if value <= 1000 then 9 else value * 2 % U64_LIMIT / 100
  }

  /** Credit the recipient, then move the network fee to the treasury. */
  function PayOutput(cfg: Config, balances: Balances, out: TxOutput, isCoinbase: bool): Balances {
    var credited := Credit(balances, out.address, out.value);
    var fee := Min(NetworkFee(out.value), out.value);
    if isCoinbase || cfg.treasuryAddress == [] || fee == 0 || out.address == []
       || fee > BalanceOf(credited, out.address)
    then credited
    else Credit(credited[out.address := BalanceOf(credited, out.address) - fee], cfg.treasuryAddress, fee)
  }

  datatype Applied = Applied(utxos: Utxos, balances: Balances, ok: bool)

  function SpendInputs(rules: Rules, utxos: Utxos, inputs: seq<TxInput>, height: nat): (Utxos, bool)
    decreases inputs
  {
    if inputs == [] then (utxos, true)
    else if inputs[0] in utxos && rules.spendable(utxos[inputs[0]], height) then
      SpendInputs(rules, utxos - {inputs[0]}, inputs[1..], height)
    else (utxos, false)
  }

  function AddOutputs(cfg: Config, utxos: Utxos, balances: Balances, tx: Transaction, i: nat, height: nat,
                      isCoinbase: bool)
    : Applied
    requires i <= |tx.outputs|
    decreases |tx.outputs| - i
  {
    if i == |tx.outputs| then Applied(utxos, balances, true)
    else
      var o, out := TxInput(tx.txHash, i), tx.outputs[i];
      if o in utxos then Applied(utxos, balances, false)
      else AddOutputs(cfg, utxos[o := Utxo(out.value, out.address, height, isCoinbase)],
                      PayOutput(cfg, balances, out, isCoinbase), tx, i + 1, height, isCoinbase)
  }

  function ApplyTxs(cfg: Config, rules: Rules, utxos: Utxos, balances: Balances, txs: seq<Transaction>, height: nat,
                    isCoinbase: bool): Applied
    decreases txs
  {
    if txs == [] then Applied(utxos, balances, true)
    else
      var (spent, spentOk) := SpendInputs(rules, utxos, txs[0].inputs, height);
      if !spentOk then Applied(spent, balances, false)
      else
        var added := AddOutputs(cfg, spent, balances, txs[0], 0, height, isCoinbase);
        if !added.ok then added
        else ApplyTxs(cfg, rules, added.utxos, added.balances, txs[1..], height, false)
  }

  /** Spend the outputs of one transaction at the greatest height, ignoring failures. */
  function RemoveOutputs(rules: Rules, utxos: Utxos, tx: Transaction, i: nat): Utxos
    requires i <= |tx.outputs|
    decreases |tx.outputs| - i
  {
    if i == |tx.outputs| then utxos
    else RemoveOutputs(rules, SpendInputs(rules, utxos, [TxInput(tx.txHash, i)], U64_MAX).0, tx, i + 1)
  }

  function RolledBack(rules: Rules, utxos: Utxos, txs: seq<Transaction>): Utxos
    decreases txs
  {
    if txs == [] then utxos
    else RolledBack(rules, RemoveOutputs(rules, utxos, txs[|txs| - 1], 0), txs[..|txs| - 1])
  }

  function AdjustedBaseFee(current: U64, gasUsed: U64, gasLimit: U64): U64 {
    if gasLimit == 0 then current
    else
      var delta := if current / 8 > 1 then current / 8 else 1;
      var next := if gasUsed * 2 % U64_LIMIT > gasLimit then (current + delta) % U64_LIMIT
                  else if current > delta then current - delta else 1;
      if next > 1 then next else 1
  }

  // ---------------------------------------------------------------- addBlock

  const BLOCK_DATA: Bytes := [77, 101, 100, 111, 114, 67, 111, 105, 110, 32, 66, 108, 111, 99, 107]
  const GENESIS_DATA: Bytes := [71, 101, 110, 101, 115, 105, 115, 32, 66, 108, 111, 99, 107]
  const MAX_DIFFICULTY: nat := 64

  /** The transactions of the block: a coinbase goes first when there is a reward. */
  function WithCoinbase(cfg: Config, miner: Bytes, reward: U64, hash: Option<Bytes>, txs: seq<Transaction>)
    : seq<Transaction>
    requires reward > 0 ==> hash.Some?
  {
    if reward > 0 then [Coinbase(cfg, miner, reward, hash.value)] + txs else txs
  }

  function NewBlock(cfg: Config, st: Ledger, env: Env, miner: Bytes, reward: U64, txs: seq<Transaction>): Block
    requires env.mined.Some?
  {
    Block(if st.chain == [] then [] else st.chain[|st.chain| - 1].hash,
          if st.chain == [] then GENESIS_DATA else BLOCK_DATA,
          Min(cfg.initialMedor, MAX_DIFFICULTY), miner, env.blockClock, env.mined.value.0, reward, st.baseFee,
          0, 30_000_000, env.mined.value.1, [], txs)
  }

  function AddBlock(cfg: Config, rules: Rules, st: Ledger, env: Env, miner: Bytes, txs: seq<Transaction>): (Ledger,
                    bool)
    requires st.chain == [] || cfg.rewardSchedule != []
  {
    var reward := Allowed(cfg, st, env.rewardClock);
    if miner == [] || (reward > 0 && env.coinbaseHash.None?) then (st, false)
    else
      var all := WithCoinbase(cfg, miner, reward, env.coinbaseHash, txs);
      if !ValidTransactions(cfg, rules, st, all, env.checkClock) || env.mined.None? || !env.written then (st, false)
      else
        var a := ApplyTxs(cfg, rules, st.utxos, st.balances, all, |st.chain|, true);
        if !a.ok then (st.(utxos := RolledBack(rules, a.utxos, all), balances := a.balances), false)
        else
          (Ledger(st.chain + [NewBlock(cfg, st, env, miner, reward, all)],
                  (st.totalSupply + reward) % U64_LIMIT,
                  AdjustedBaseFee(st.baseFee, 0, cfg.targetGasPerBlock),
                  a.balances, a.utxos), true)
  }
}
