/** What an accepted addBlock means: signatures, payments, the new block
    (src/blockchain.cpp:29-34, 245-527). */
module LedgerEffects {
  import opened Wrappers
  import opened ByteStrings
  import opened ChainTypes
  import opened LedgerState
  import opened SupplyBound
  import opened LedgerRuns
  import opened LedgerFailures

  // ---------------------------------------------------------------- signatures

  /** A transaction that carries a signature is signed for every outpoint it names. */
  ghost predicate SignedFor(rules: Rules, utxos: Utxos, tx: Transaction, inputs: seq<TxInput>) {
    tx.r != Zeros(32) || tx.s != Zeros(32) ==>
      forall k :: 0 <= k < |inputs| ==> inputs[k] in utxos && rules.recovers(tx, utxos[inputs[k]].address)
  }

  lemma {:induction false} InputsAreSigned(rules: Rules, utxos: Utxos, tx: Transaction, inputs: seq<TxInput>,
                                          spent: set<TxInput>, sum: U64)
    requires CheckedInputs(rules, utxos, tx, inputs, spent, sum).Some?
    ensures SignedFor(rules, utxos, tx, inputs)
    decreases inputs
  {
    if inputs != [] {
      var o, rest := inputs[0], inputs[1..];
      InputsAreSigned(rules, utxos, tx, rest, spent + {o}, (sum + utxos[o].value) % U64_LIMIT);
      assert forall k :: 0 < k < |inputs| ==> inputs[k] == rest[k - 1];
    }
  }

  lemma {:induction false} RestIsSigned(rules: Rules, utxos: Utxos, txs: seq<Transaction>, spent: set<TxInput>)
    requires CheckedRest(rules, utxos, txs, spent)
    ensures forall i :: 0 <= i < |txs| ==> SignedFor(rules, utxos, txs[i], txs[i].inputs)
    decreases txs
  {
    hide SignedFor, CheckedInputs;
    if txs != [] {
      var tx, rest := txs[0], txs[1..];
      InputsAreSigned(rules, utxos, tx, tx.inputs, spent, 0);
      RestIsSigned(rules, utxos, rest, CheckedInputs(rules, utxos, tx, tx.inputs, spent, 0).value.1);
      assert forall i :: 0 < i < |txs| ==> txs[i] == rest[i - 1];
    }
  }

  /** The transactions of the block a call with these answers would add. */
  function BlockTxs(cfg: Config, st: Ledger, env: Env, miner: Bytes, txs: seq<Transaction>): seq<Transaction>
    requires Ready(cfg, st) && (Allowed(cfg, st, env.rewardClock) > 0 ==> env.coinbaseHash.Some?)
  {
    WithCoinbase(cfg, miner, Allowed(cfg, st, env.rewardClock), env.coinbaseHash, txs)
  }

  /** What acceptance takes, with the parts named. */
  lemma AcceptedParts(cfg: Config, rules: Rules, st: Ledger, env: Env, miner: Bytes, txs: seq<Transaction>)
    requires Ready(cfg, st) && AddBlock(cfg, rules, st, env, miner, txs).1
    ensures miner != [] && (Allowed(cfg, st, env.rewardClock) > 0 ==> env.coinbaseHash.Some?)
    ensures env.mined.Some? && env.written
    ensures var all := BlockTxs(cfg, st, env, miner, txs);
            var a := ApplyTxs(cfg, rules, st.utxos, st.balances, all, |st.chain|, true);
            var after := AddBlock(cfg, rules, st, env, miner, txs).0;
            && ValidTransactions(cfg, rules, st, all, env.checkClock) && a.ok
            && after.utxos == a.utxos && after.balances == a.balances
            && after.chain == st.chain + [NewBlock(cfg, st, env, miner, Allowed(cfg, st, env.rewardClock), all)]
  {
    hide ValidTransactions, ApplyTxs, NewBlock, Coinbase, Reward, RolledBack;
  }

  /** A call without a miner, without a coinbase hash for a reward, that fails the checks, is not
      mined or not stored, leaves everything as it was. */
  lemma RefusedUntouched(cfg: Config, rules: Rules, st: Ledger, env: Env, miner: Bytes, txs: seq<Transaction>)
    requires Ready(cfg, st)
    requires || miner == [] || (Allowed(cfg, st, env.rewardClock) > 0 && env.coinbaseHash.None?)
             || env.mined.None? || !env.written
             || !ValidTransactions(cfg, rules, st, BlockTxs(cfg, st, env, miner, txs), env.checkClock)
    ensures AddBlock(cfg, rules, st, env, miner, txs) == (st, false)
  {
    hide ValidTransactions, ApplyTxs, NewBlock, Coinbase, Reward, RolledBack;
  }

  /** If addBlock answers true, every signed transaction of the block after the first was signed
      for the address of each output it spends. */
  lemma AcceptedIsSigned(cfg: Config, rules: Rules, st: Ledger, env: Env, miner: Bytes, txs: seq<Transaction>)
    requires Ready(cfg, st) && AddBlock(cfg, rules, st, env, miner, txs).1
    ensures var block := AddBlock(cfg, rules, st, env, miner, txs).0.chain[|st.chain|];
            forall i, k :: 0 < i < |block.transactions| && 0 <= k < |block.transactions[i].inputs| ==>
              var tx := block.transactions[i];
              && tx.inputs[k] in st.utxos
              && (tx.r != Zeros(32) || tx.s != Zeros(32) ==> rules.recovers(tx, st.utxos[tx.inputs[k]].address))
  {
    hide ApplyTxs, AddBlock, Coinbase, Allowed, HasDuplicate;
    AcceptedParts(cfg, rules, st, env, miner, txs);
    var all := BlockTxs(cfg, st, env, miner, txs);
    if all != [] {
      RestIsSigned(rules, st.utxos, all[1..], {});
      RestIsNew(rules, st.utxos, all[1..], {});
      forall i, k | 0 < i < |all| && 0 <= k < |all[i].inputs|
        ensures all[i].inputs[k] in st.utxos && SignedFor(rules, st.utxos, all[i], all[i].inputs)
      {
        assert all[1..][i - 1] == all[i];
        assert all[1..][i - 1].inputs[k] in AllInputs(all[1..]);
      }
    }
  }

  // ---------------------------------------------------------------- the unspent outputs afterwards

  /** The record an output of the block gets. */
  ghost predicate Recorded(utxos: Utxos, txs: seq<Transaction>, height: nat, first: bool) {
    forall i, k :: 0 <= i < |txs| && 0 <= k < |txs[i].outputs| ==>
      var o, out := TxInput(txs[i].txHash, k), txs[i].outputs[k];
      o in utxos && utxos[o] == Utxo(out.value, out.address, height, first && i == 0)
  }

  lemma {:induction false} OutputsRecorded(cfg: Config, utxos: Utxos, balances: Balances, tx: Transaction, i: nat,
                                          height: nat, isCoinbase: bool)
    requires i <= |tx.outputs| && AddOutputs(cfg, utxos, balances, tx, i, height, isCoinbase).ok
    ensures var a := AddOutputs(cfg, utxos, balances, tx, i, height, isCoinbase);
            forall k :: i <= k < |tx.outputs| ==>
              var o := TxInput(tx.txHash, k);
              o in a.utxos && a.utxos[o] == Utxo(tx.outputs[k].value, tx.outputs[k].address, height, isCoinbase)
    decreases |tx.outputs| - i
  {
    hide PayOutput;
    if i < |tx.outputs| {
      var o, out := TxInput(tx.txHash, i), tx.outputs[i];
      var next := utxos[o := Utxo(out.value, out.address, height, isCoinbase)];
      var paid := PayOutput(cfg, balances, out, isCoinbase);
      OutputsRecorded(cfg, next, paid, tx, i + 1, height, isCoinbase);
      AddOutputsKeys(cfg, next, paid, tx, i + 1, height, isCoinbase);
    }
  }

  lemma {:induction false} SpentAllThere(rules: Rules, utxos: Utxos, inputs: seq<TxInput>, height: nat)
    requires SpendInputs(rules, utxos, inputs, height).1
    ensures InputSet(inputs) <= utxos.Keys
    ensures forall o :: o in InputSet(inputs) ==> rules.spendable(utxos[o], height)
    decreases inputs
  {
    if inputs != [] {
      InputSetStep(inputs);
      SpentAllThere(rules, utxos - {inputs[0]}, inputs[1..], height);
    }
  }

  /** One transaction: its inputs go, its outputs come, with their records, and the rest stays. */
  lemma OneEffect(cfg: Config, rules: Rules, utxos: Utxos, balances: Balances, tx: Transaction, height: nat,
                  isCoinbase: bool)
    requires SpendInputs(rules, utxos, tx.inputs, height).1
    requires AddOutputs(cfg, SpendInputs(rules, utxos, tx.inputs, height).0, balances, tx, 0, height, isCoinbase).ok
    ensures var spent := SpendInputs(rules, utxos, tx.inputs, height).0;
            var a := AddOutputs(cfg, spent, balances, tx, 0, height, isCoinbase);
            && InputSet(tx.inputs) <= utxos.Keys
            && (forall o :: o in a.utxos <==> (o in utxos && o !in InputSet(tx.inputs)) || IsOutputFrom(o, tx, 0))
            && (forall o :: o in a.utxos && !IsOutputFrom(o, tx, 0) ==> a.utxos[o] == utxos[o])
            && (forall k :: 0 <= k < |tx.outputs| ==>
                  var o := TxInput(tx.txHash, k);
                  a.utxos[o] == Utxo(tx.outputs[k].value, tx.outputs[k].address, height, isCoinbase))
  {
    hide AddOutputs, SpendInputs, InputSet;
    var spent := SpendInputs(rules, utxos, tx.inputs, height).0;
    SpendMeaning(rules, utxos, tx.inputs, height);
    SpentAllThere(rules, utxos, tx.inputs, height);
    AddOutputsKeys(cfg, spent, balances, tx, 0, height, isCoinbase);
    OutputsRecorded(cfg, spent, balances, tx, 0, height, isCoinbase);
    forall o | IsOutputFrom(o, tx, 0)
      ensures o in AddOutputs(cfg, spent, balances, tx, 0, height, isCoinbase).utxos
    {
      assert o == TxInput(tx.txHash, o.outputIndex);
    }
  }

  lemma OutputOfFirst(o: TxInput, txs: seq<Transaction>)
    requires txs != []
    ensures IsOutputOf(o, txs) <==> IsOutputFrom(o, txs[0], 0) || IsOutputOf(o, txs[1..])
  {
    assert forall k :: 0 < k < |txs| ==> txs[k] == txs[1..][k - 1];
  }

  lemma OnlyOneMakes(o: TxInput, txs: seq<Transaction>)
    requires txs != [] && DistinctHashes(txs) && IsOutputFrom(o, txs[0], 0)
    ensures !IsOutputOf(o, txs[1..])
  {
    assert forall k :: 0 < k < |txs| ==> txs[k] == txs[1..][k - 1];
  }

  /** No transaction spends what an earlier one makes. */
  ghost predicate SpendsNoEarlier(txs: seq<Transaction>) {
    forall i, j, o :: 0 <= i < j < |txs| && o in InputSet(txs[j].inputs) ==> !IsOutputFrom(o, txs[i], 0)
  }

  lemma SpendsNoEarlierStep(txs: seq<Transaction>)
    requires txs != [] && SpendsNoEarlier(txs)
    ensures SpendsNoEarlier(txs[1..])
    ensures forall o :: IsOutputFrom(o, txs[0], 0) ==> o !in AllInputs(txs[1..])
  {
    hide IsOutputFrom;
    assert forall i :: 0 <= i < |txs[1..]| ==> txs[1..][i] == txs[i + 1];
  }

  /** The whole list: every outpoint that stays, every one that comes, and their records. */
  lemma {:induction false} AppliedEffect(cfg: Config, rules: Rules, utxos: Utxos, balances: Balances,
                                        txs: seq<Transaction>, height: nat, first: bool)
    requires DistinctHashes(txs) && SpendsNoEarlier(txs)
    requires ApplyTxs(cfg, rules, utxos, balances, txs, height, first).ok
    ensures var a := ApplyTxs(cfg, rules, utxos, balances, txs, height, first);
            && (forall o :: o in a.utxos <==> (o in utxos && o !in AllInputs(txs)) || IsOutputOf(o, txs))
            && (forall o :: o in a.utxos && !IsOutputOf(o, txs) ==> a.utxos[o] == utxos[o])
            && Recorded(a.utxos, txs, height, first)
    decreases txs
  {
    hide AddOutputs, SpendInputs, IsOutputOf, IsOutputFrom, InputSet, DistinctHashes, AllInputs, SpendsNoEarlier;
    if txs == [] {
      NoTxsNoOutputs();
    } else {
      var tx, rest := txs[0], txs[1..];
      var spent := SpendInputs(rules, utxos, tx.inputs, height).0;
      var one := AddOutputs(cfg, spent, balances, tx, 0, height, first);
      OneEffect(cfg, rules, utxos, balances, tx, height, first);
      AllInputsStep(txs);
      RestDistinct(txs);
      SpendsNoEarlierStep(txs);
      forall o
        ensures IsOutputOf(o, txs) <==> IsOutputFrom(o, tx, 0) || IsOutputOf(o, rest)
        ensures IsOutputFrom(o, tx, 0) ==> !IsOutputOf(o, rest)
      {
        OutputOfFirst(o, txs);
        if IsOutputFrom(o, tx, 0) {
          OnlyOneMakes(o, txs);
        }
      }
      AppliedEffect(cfg, rules, one.utxos, one.balances, rest, height, false);
      RecordedStep(ApplyTxs(cfg, rules, one.utxos, one.balances, rest, height, false).utxos, one.utxos, txs, height,
                   first);
    }
  }

  lemma NoTxsNoOutputs()
    ensures AllInputs([]) == {} && forall o :: !IsOutputOf(o, [])
  {
  }

  lemma RestDistinct(txs: seq<Transaction>)
    requires txs != [] && DistinctHashes(txs)
    ensures DistinctHashes(txs[1..])
  {
    assert forall k :: 0 <= k < |txs[1..]| ==> txs[1..][k] == txs[k + 1];
  }

  lemma RecordedStep(after: Utxos, one: Utxos, txs: seq<Transaction>, height: nat, first: bool)
    requires txs != [] && Recorded(after, txs[1..], height, false)
    requires forall o :: IsOutputFrom(o, txs[0], 0) ==> o in after && o in one && after[o] == one[o]
    requires forall k :: 0 <= k < |txs[0].outputs| ==>
               var o := TxInput(txs[0].txHash, k);
               o in one ==> one[o] == Utxo(txs[0].outputs[k].value, txs[0].outputs[k].address, height, first)
    ensures Recorded(after, txs, height, first)
  {
    forall i, k | 0 <= i < |txs| && 0 <= k < |txs[i].outputs|
      ensures var o, out := TxInput(txs[i].txHash, k), txs[i].outputs[k];
              o in after && after[o] == Utxo(out.value, out.address, height, first && i == 0)
    {
      if i == 0 {
        assert IsOutputFrom(TxInput(txs[0].txHash, k), txs[0], 0);
      } else {
        assert txs[1..][i - 1] == txs[i];
      }
    }
  }

  // ---------------------------------------------------------------- the coinbase

  /** The miner's share is nine tenths, rounded down, exactly while 90 times the reward fits 64
      bits; the owner gets the rest in any case. */
  lemma CoinbaseShares(cfg: Config, miner: Bytes, reward: U64, hash: Bytes)
    ensures var outs := Coinbase(cfg, miner, reward, hash).outputs;
            && |outs| == 2 && outs[0].address == miner && outs[1].address == cfg.ownerAddress
            && outs[0].value + outs[1].value == reward
            && (10 * outs[0].value <= 9 * reward < 10 * outs[0].value + 10 <==> 90 * reward < U64_LIMIT)
  {
    var share := Coinbase(cfg, miner, reward, hash).outputs[0].value;
    assert share == reward * 90 % U64_LIMIT / 100;
    if 90 * reward >= U64_LIMIT {
      assert reward * 90 % U64_LIMIT <= reward * 90 - U64_LIMIT;
    }
  }

  // ---------------------------------------------------------------- fees and balances

  /** Up to 1000 the fee is 9; above, it is two per cent rounded down exactly below 2^63, where
      doubling the value still fits. */
  lemma NetworkFeeExact(value: U64)
    ensures value <= 1000 ==> NetworkFee(value) == 9
    ensures value > 1000 ==>
              (100 * NetworkFee(value) <= 2 * value < 100 * NetworkFee(value) + 100 <==> value < 0x8000_0000_0000_0000)
  {
    if value >= 0x8000_0000_0000_0000 {
      assert value * 2 % U64_LIMIT == value * 2 - U64_LIMIT;
    }
  }

  /** Who gains what from one output. A coinbase output pays no fee, nor does any without a treasury. */
  lemma PaidTo(cfg: Config, balances: Balances, out: TxOutput, isCoinbase: bool, who: Bytes)
    requires out.address != [] && cfg.treasuryAddress != out.address
    requires BalanceOf(balances, out.address) + out.value <= U64_MAX
    requires BalanceOf(balances, cfg.treasuryAddress) + out.value <= U64_MAX
    ensures var fee := if isCoinbase || cfg.treasuryAddress == [] then 0 else Min(NetworkFee(out.value), out.value);
            BalanceOf(PayOutput(cfg, balances, out, isCoinbase), who) ==
            BalanceOf(balances, who) + (if who == out.address then out.value - fee
                                        else if who == cfg.treasuryAddress then fee else 0)
  {
    hide NetworkFee;
  }

  /** A payment that would overflow the recipient's balance is refused, but its fee is taken all the
      same: the recipient ends with less than before. */
  lemma RefusedPaymentCharged(cfg: Config, balances: Balances, out: TxOutput, who: Bytes)
    requires out.address != [] && cfg.treasuryAddress != [] && cfg.treasuryAddress != out.address
    requires BalanceOf(balances, out.address) + out.value > U64_MAX
    requires BalanceOf(balances, cfg.treasuryAddress) + out.value <= U64_MAX
    ensures var fee := Min(NetworkFee(out.value), out.value);
            BalanceOf(balances, out.address) >= fee ==>
              BalanceOf(PayOutput(cfg, balances, out, false), who) ==
              BalanceOf(balances, who) + (if who == cfg.treasuryAddress then fee else 0)
                                       - (if who == out.address then fee else 0)
  {
    hide NetworkFee;
  }

  /** A failed call keeps what it credited: the miner and the owner of the block that was refused
      stay paid. */
  lemma FailedBlockStillPays(cfg: Config, rules: Rules, st: Ledger, env: Env, miner: Bytes, hash: Bytes, ripe: TxInput,
                             unripe: TxInput)
    requires Ready(cfg, st) && AllSpendableAtEnd(rules) && miner != [] && env.mined.Some? && env.written
    requires |hash| == 64 && ripe != unripe && ripe in st.utxos && unripe in st.utxos
    requires rules.spendable(st.utxos[ripe], |st.chain|) && !rules.spendable(st.utxos[unripe], |st.chain|)
    requires 0 < Allowed(cfg, st, env.rewardClock) <= Allowed(cfg, st, env.checkClock)
    requires env.coinbaseHash.Some? && env.coinbaseHash.value != hash && NewHash(st.utxos, env.coinbaseHash.value)
    requires cfg.ownerAddress != [] && Held(st.balances) + Allowed(cfg, st, env.rewardClock) <= U64_MAX
    ensures var (after, ok) := AddBlock(cfg, rules, st, env, miner, [Spending(hash, [ripe, unripe])]);
            && !ok && Held(after.balances) == Held(st.balances) + Allowed(cfg, st, env.rewardClock)
  {
    hide AddBlock, Allowed, Coinbase, Held, AddOutputs, Spending, NewHash;
    var reward, h := Allowed(cfg, st, env.rewardClock), env.coinbaseHash.value;
    var first := Coinbase(cfg, miner, reward, h);
    SpentInputLost(cfg, rules, st, env, miner, hash, ripe, unripe);
    CoinbaseShares(cfg, miner, reward, h);
    CoinbaseIsPlain(cfg, miner, reward, h);
    SumFromFront(first.outputs, 0);
    NewKeysFree(st.utxos, first);
    AddOutputsKeys(cfg, st.utxos, st.balances, first, 0, |st.chain|, true);
    OutputsPaid(cfg, st.utxos, st.balances, first, 0, |st.chain|, true);
  }

  lemma NewKeysFree(utxos: Utxos, tx: Transaction)
    requires NewHash(utxos, tx.txHash)
    ensures forall o :: o in utxos ==> !IsOutputFrom(o, tx, 0)
  {
  }

  // ---------------------------------------------------------------- the new block

  /** Every block names the hash of the one before it. */
  ghost predicate Linked(chain: seq<Block>) {
    && (chain != [] ==> chain[0].previousHash == [])
    && forall i :: 0 < i < |chain| ==> chain[i].previousHash == chain[i - 1].hash
  }

  /** The bytes of a text. */
  predicate Spells(s: Bytes, text: string) {
    |s| == |text| && forall i :: 0 <= i < |s| ==> s[i] == text[i] as int
  }

  /** What the block of an accepted call records; a refused call adds none. */
  lemma BlockRecord(cfg: Config, rules: Rules, st: Ledger, env: Env, miner: Bytes, txs: seq<Transaction>)
    requires Ready(cfg, st) && Linked(st.chain)
    ensures var (after, ok) := AddBlock(cfg, rules, st, env, miner, txs);
            && Linked(after.chain)
            && (!ok ==> after.chain == st.chain)
            && (ok ==>
                  var b := after.chain[|st.chain|];
                  && |after.chain| == |st.chain| + 1 && after.chain[..|st.chain|] == st.chain
                  && Spells(b.data, if st.chain == [] then "Genesis Block" else "MedorCoin Block")
                  && b.minerAddress == miner && b.timestamp == env.blockClock && Some((b.nonce, b.hash)) == env.mined
                  && b.reward == Allowed(cfg, st, env.rewardClock) && b.baseFee == st.baseFee
                  && b.gasUsed == 0 && b.gasLimit == 30_000_000
                  && b.difficulty <= 64 && (cfg.initialMedor <= 64 ==> b.difficulty == cfg.initialMedor)
                  && txs <= b.transactions[|b.transactions| - |txs|..]
                  && |b.transactions| == |txs| + (if b.reward > 0 then 1 else 0))
  {
    hide ApplyTxs, RolledBack, ValidTransactions, Coinbase, Allowed, AdjustedBaseFee, Linked, Spells;
    DataSpelled();
    if AddBlock(cfg, rules, st, env, miner, txs).1 {
      LinkedPush(st.chain, AddBlock(cfg, rules, st, env, miner, txs).0.chain[|st.chain|]);
    }
  }

  lemma LinkedPush(chain: seq<Block>, b: Block)
    requires Linked(chain) && b.previousHash == if chain == [] then [] else chain[|chain| - 1].hash
    ensures Linked(chain + [b])
  {
  }

  lemma DataSpelled()
    ensures Spells(GENESIS_DATA, "Genesis Block") && Spells(BLOCK_DATA, "MedorCoin Block")
  {
  }

  lemma {:induction false} RunKeepsLinked(cfg: Config, rules: Rules, st: Ledger, calls: seq<Call>)
    requires cfg.rewardSchedule != [] && Linked(st.chain)
    ensures Linked(Run(cfg, rules, st, calls).chain)
  {
    hide AddBlock, Linked;
    if calls != [] {
      var init, last := calls[..|calls| - 1], calls[|calls| - 1];
      RunKeepsLinked(cfg, rules, st, init);
      BlockRecord(cfg, rules, Run(cfg, rules, st, init), last.env, last.miner, last.txs);
    }
  }

  /** The reward by the first threshold not yet reached since the first block, or the last entry. */
  lemma RewardSelects(cfg: Config, chain: seq<Block>, now: U64, i: nat)
    requires i < |cfg.rewardSchedule|
    requires var elapsed := if chain != [] && now >= chain[0].timestamp then now - chain[0].timestamp else 0;
             && (forall k :: 0 <= k < i ==> cfg.rewardSchedule[k].0 <= elapsed)
             && (elapsed < cfg.rewardSchedule[i].0 || i == |cfg.rewardSchedule| - 1)
    ensures chain != [] ==> Reward(cfg, chain, now) == cfg.rewardSchedule[i].1
    ensures chain == [] ==> Reward(cfg, chain, now) == cfg.rewardSchedule[0].1
  {
    hide ScheduledReward;
    var elapsed := if chain != [] && now >= chain[0].timestamp then now - chain[0].timestamp else 0;
    SelectedIs(cfg.rewardSchedule, elapsed, 0, i);
    SelectedPays(cfg.rewardSchedule, elapsed, 0);
    assert cfg.rewardSchedule[0..] == cfg.rewardSchedule;
  }

  /** The base fee moves by an eighth, rounded down but at least by one: up when more than half of
      the limit was used, down otherwise and never below one. */
  lemma BaseFeeStep(current: U64, gasUsed: U64, gasLimit: U64)
    requires current >= 1 && current + current / 8 + 1 < U64_LIMIT
    ensures var next := AdjustedBaseFee(current, gasUsed, gasLimit);
            var moved := if next > current then next - current else current - next;
            && next >= 1
            && (next > current <==> gasLimit > 0 && gasUsed * 2 % U64_LIMIT > gasLimit)
            && (next == current <==> gasLimit == 0 || (current == 1 && gasUsed * 2 % U64_LIMIT <= gasLimit))
            && (next != current ==> (8 * moved <= current < 8 * moved + 8 || (moved == 1 && current < 8)))
  {
    var eighth := current / 8;
    assert 8 * eighth <= current < 8 * eighth + 8;
    if gasLimit > 0 && gasUsed * 2 % U64_LIMIT > gasLimit {
      assert current + (if eighth > 1 then eighth else 1) < U64_LIMIT;
    }
  }

  /** The reward is the scheduled one, or what is left under the maximum when that is less. */
  lemma RewardClamped(cfg: Config, st: Ledger, now: U64)
    requires Ready(cfg, st) && Bounded(cfg, st)
    ensures var scheduled, left := Reward(cfg, st.chain, now), cfg.maxSupply - st.totalSupply;
            Allowed(cfg, st, now) == if scheduled <= left then scheduled else left
  {
    hide Reward, Unspent;
  }

  // ---------------------------------------------------------------- what the treasury collects

  function FeeOf(out: TxOutput): nat {
    Min(NetworkFee(out.value), out.value)
  }

  function FeesFrom(outputs: seq<TxOutput>, i: nat): nat
    requires i <= |outputs|
    decreases |outputs| - i
  {
    if i == |outputs| then 0 else FeeOf(outputs[i]) + FeesFrom(outputs, i + 1)
  }

  /** The fees of a list of transactions; a coinbase, the first, pays none. */
  function FeesOf(txs: seq<Transaction>, first: bool): nat {
    if txs == [] then 0 else (if first then 0 else FeesFrom(txs[0].outputs, 0)) + FeesOf(txs[1..], false)
  }

  lemma {:induction false} TreasuryOfOutputs(cfg: Config, utxos: Utxos, balances: Balances, tx: Transaction, i: nat,
                                            height: nat, isCoinbase: bool)
    requires i <= |tx.outputs| && cfg.treasuryAddress != []
    requires forall out <- tx.outputs :: out.address != [] && out.address != cfg.treasuryAddress
    requires Held(balances) + OutputSumFrom(tx.outputs, i) <= U64_MAX
    requires AddOutputs(cfg, utxos, balances, tx, i, height, isCoinbase).ok
    ensures BalanceOf(AddOutputs(cfg, utxos, balances, tx, i, height, isCoinbase).balances, cfg.treasuryAddress)
         == BalanceOf(balances, cfg.treasuryAddress) + if isCoinbase then 0 else FeesFrom(tx.outputs, i)
    decreases |tx.outputs| - i
  {
    hide Held, PayOutput, NetworkFee, BalanceOf;
    if i < |tx.outputs| {
      var out := tx.outputs[i];
      assert out in tx.outputs;
      SetBalance(balances, out.address, 0);
      SetBalance(balances, cfg.treasuryAddress, 0);
      PaidTo(cfg, balances, out, isCoinbase, cfg.treasuryAddress);
      PaymentIsExact(cfg, balances, out, isCoinbase);
      TreasuryOfOutputs(cfg, utxos[TxInput(tx.txHash, i) := Utxo(out.value, out.address, height, isCoinbase)],
                        PayOutput(cfg, balances, out, isCoinbase), tx, i + 1, height, isCoinbase);
    }
  }

  /** An applied block pays the treasury the fee of every output of every transaction after the
      first, and nothing for the first. */
  lemma {:induction false} TreasuryCollects(cfg: Config, rules: Rules, utxos: Utxos, balances: Balances,
                                           txs: seq<Transaction>, height: nat, first: bool)
    requires cfg.treasuryAddress != []
    requires forall tx <- txs, out <- tx.outputs :: out.address != [] && out.address != cfg.treasuryAddress
    requires Held(balances) + PaidOut(txs) <= U64_MAX
    requires ApplyTxs(cfg, rules, utxos, balances, txs, height, first).ok
    ensures BalanceOf(ApplyTxs(cfg, rules, utxos, balances, txs, height, first).balances, cfg.treasuryAddress)
         == BalanceOf(balances, cfg.treasuryAddress) + FeesOf(txs, first)
    decreases txs
  {
    hide Held, AddOutputs, SpendInputs, OutputSumFrom, BalanceOf, FeesFrom;
    if txs != [] {
      assert txs[0] in txs;
      var spent := SpendInputs(rules, utxos, txs[0].inputs, height).0;
      OutputsPaid(cfg, spent, balances, txs[0], 0, height, first);
      TreasuryOfOutputs(cfg, spent, balances, txs[0], 0, height, first);
      var a := AddOutputs(cfg, spent, balances, txs[0], 0, height, first);
      TreasuryCollects(cfg, rules, a.utxos, a.balances, txs[1..], height, false);
    }
  }
}
