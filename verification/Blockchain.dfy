/** The Blockchain object (src/blockchain.cpp): its fields change in place, and each method is
    proved against the ledger functions of LedgerState, about which SupplyBound, LedgerRuns
    and LedgerFailures say what the object keeps. */
module Blockchain {
  import opened Wrappers
  import opened ByteStrings
  import opened ChainTypes
  import opened LedgerState
  import opened SupplyBound

  class Blockchain {
    const cfg: Config
    const rules: Rules
    var chain: seq<Block>
    var totalSupply: U64
    var baseFee: U64
    var balances: Balances
    var utxos: Utxos

    function State(): Ledger
      reads this
    {
      Ledger(chain, totalSupply, baseFee, balances, utxos)
    }

    constructor (cfg: Config, rules: Rules, initialBaseFee: U64)
      ensures this.cfg == cfg && this.rules == rules
      ensures State() == Ledger([], 0, initialBaseFee, map[], map[])
    {
      this.cfg, this.rules := cfg, rules;
      chain, totalSupply, baseFee, balances, utxos := [], 0, initialBaseFee, map[], map[];
    }

    method CalculateReward(now: U64) returns (r: U64)
      requires chain == [] || cfg.rewardSchedule != []
      ensures r == Reward(cfg, chain, now)
    {
      var schedule := cfg.rewardSchedule;
      if chain == [] {
        return if schedule == [] then 0 else schedule[0].1;
      }
      var genesisTime := chain[0].timestamp;
      var elapsed: U64 := if now >= genesisTime then now - genesisTime else 0;
      for i := 0 to |schedule|
        invariant Reward(cfg, chain, now) ==
                  if i < |schedule| then ScheduledReward(schedule[i..], elapsed) else schedule[|schedule| - 1].1
      {
        if elapsed < schedule[i].0 {
          return schedule[i].1;
        }
        assert schedule[i..][1..] == schedule[i + 1..];
      }
      r := schedule[|schedule| - 1].1;
    }

    method HasDuplicateTx(txs: seq<Transaction>) returns (duplicate: bool)
      ensures duplicate == HasDuplicate(txs)
    {
      var seen: set<Bytes> := {};
      for i := 0 to |txs|
        invariant forall h :: h in seen <==> exists k :: 0 <= k < i && txs[k].txHash != [] && txs[k].txHash == h
        invariant !HasDuplicate(txs[..i])
      {
        if txs[i].txHash == [] {
          DuplicateStep(txs, i);
          continue;
        }
        if txs[i].txHash in seen {
          return true;
        }
        DuplicateStep(txs, i);
        seen := seen + {txs[i].txHash};
      }
      assert txs[..|txs|] == txs;
      duplicate := false;
    }

    /** The wrapped sum of the outputs, as both checks compute it. */
    method SumOutputs(outputs: seq<TxOutput>) returns (sum: U64)
      ensures sum == OutputSum(outputs) % U64_LIMIT
    {
      sum := 0;
      for i := 0 to |outputs|
        invariant sum == OutputSum(outputs[..i]) % U64_LIMIT
      {
        assert outputs[..i + 1][..i] == outputs[..i];
        sum := (sum + outputs[i].value) % U64_LIMIT;
      }
      assert outputs[..|outputs|] == outputs;
    }

    method CheckInputs(tx: Transaction, spent: set<TxInput>) returns (checked: Option<(U64, set<TxInput>)>)
      ensures checked == CheckedInputs(rules, utxos, tx, tx.inputs, spent, 0)
    {
      var sum: U64, marked := 0, spent;
      for i := 0 to |tx.inputs|
        invariant CheckedInputs(rules, utxos, tx, tx.inputs, spent, 0)
               == CheckedInputs(rules, utxos, tx, tx.inputs[i..], marked, sum)
      {
        var o := tx.inputs[i];
        assert tx.inputs[i..][0] == o && tx.inputs[i..][1..] == tx.inputs[i + 1..];
        if o in marked || o !in utxos || !SignatureFine(rules, tx, utxos[o].address) {
          return None;
        }
        marked := marked + {o};
        sum := (sum + utxos[o].value) % U64_LIMIT;
      }
      checked := Some((sum, marked));
    }

    method ValidateTransactions(txs: seq<Transaction>, now: U64) returns (ok: bool)
      requires chain == [] || cfg.rewardSchedule != []
      ensures ok == ValidTransactions(cfg, rules, State(), txs, now)
    {
      hide HasDuplicate, OutputSum, CheckedInputs, Reward;
      if txs == [] {
        return true;
      }
      var duplicate := HasDuplicateTx(txs);
      if duplicate {
        return false;
      }
      var cbValue := SumOutputs(txs[0].outputs);
      var expected := CalculateReward(now);
      var remaining := (cfg.maxSupply - totalSupply) % U64_LIMIT;
      if cbValue > Min(expected, remaining) {
        return false;
      }
      var spent: set<TxInput> := {};
      for i := 1 to |txs|
        invariant CheckedRest(rules, utxos, txs[1..], {}) == CheckedRest(rules, utxos, txs[i..], spent)
      {
        var tx := txs[i];
        assert txs[i..][0] == tx && txs[i..][1..] == txs[i + 1..];
        if |tx.txHash| != 64 {
          return false;
        }
        var checked := CheckInputs(tx, spent);
        if checked.None? {
          return false;
        }
        var outputSum := SumOutputs(tx.outputs);
        if outputSum > checked.value.0 {
          return false;
        }
        spent := checked.value.1;
      }
      ok := true;
    }

    method AddBalance(a: Bytes, amount: U64) returns (ok: bool)
      modifies this`balances
      ensures ok == (a != [] && amount <= U64_MAX - BalanceOf(old(balances), a))
      ensures balances == Credit(old(balances), a, amount)
    {
      if a == [] {
        return false;
      }
      var current := BalanceOf(balances, a);
      if amount > U64_MAX - current {
        return false;
      }
      balances := balances[a := current + amount];
      ok := true;
    }

    method DeductBalance(a: Bytes, amount: U64) returns (ok: bool)
      modifies this`balances
      ensures ok == (a != [] && amount <= BalanceOf(old(balances), a))
      ensures balances == if ok then old(balances)[a := BalanceOf(old(balances), a) - amount] else old(balances)
    {
      if a == [] {
        return false;
      }
      var current := BalanceOf(balances, a);
      if amount > current {
        return false;
      }
      balances := balances[a := current - amount];
      ok := true;
    }

    /** UTXOSet::spendUTXO: remove a present, spendable output or refuse. */
    method SpendUtxo(o: TxInput, height: nat) returns (ok: bool)
      modifies this`utxos
      ensures (utxos, ok) == SpendInputs(rules, old(utxos), [o], height)
    {
      assert [o][1..] == [];
      ok := o in utxos && rules.spendable(utxos[o], height);
      if ok {
        utxos := utxos - {o};
      }
    }

    /** UTXOSet::addUTXO: add an absent output or refuse. */
    method AddUtxo(o: TxInput, u: Utxo) returns (ok: bool)
      modifies this`utxos
      ensures ok == (o !in old(utxos))
      ensures utxos == if ok then old(utxos)[o := u] else old(utxos)
    {
      ok := o !in utxos;
      if ok {
        utxos := utxos[o := u];
      }
    }

    method SpendAll(inputs: seq<TxInput>, height: nat) returns (ok: bool)
      modifies this`utxos
      ensures (utxos, ok) == SpendInputs(rules, old(utxos), inputs, height)
    {
      for i := 0 to |inputs|
        invariant SpendInputs(rules, old(utxos), inputs, height) == SpendInputs(rules, utxos, inputs[i..], height)
      {
        SpendStep(rules, utxos, inputs[i..], height);
        assert inputs[i..][0] == inputs[i] && inputs[i..][1..] == inputs[i + 1..];
        var spent := SpendUtxo(inputs[i], height);
        if !spent {
          return false;
        }
      }
      ok := true;
    }

    /** Credit one output and collect the network fee. */
    method CreditOutput(out: TxOutput, isCoinbase: bool)
      modifies this`balances
      ensures balances == PayOutput(cfg, old(balances), out, isCoinbase)
    {
      var _ := AddBalance(out.address, out.value);
      if !isCoinbase && cfg.treasuryAddress != [] {
        var fee := Min(NetworkFee(out.value), out.value);
        if fee > 0 {
          var deducted := DeductBalance(out.address, fee);
          if deducted {
            var _ := AddBalance(cfg.treasuryAddress, fee);
          }
        }
      }
    }

    method AddAllOutputs(tx: Transaction, height: nat, isCoinbase: bool) returns (ok: bool)
      modifies this`utxos, this`balances
      ensures Applied(utxos, balances, ok) == AddOutputs(cfg, old(utxos), old(balances), tx, 0, height, isCoinbase)
    {
      hide PayOutput;
      for i := 0 to |tx.outputs|
        invariant AddOutputs(cfg, old(utxos), old(balances), tx, 0, height, isCoinbase)
               == AddOutputs(cfg, utxos, balances, tx, i, height, isCoinbase)
      {
        var out := tx.outputs[i];
        var added := AddUtxo(TxInput(tx.txHash, i), Utxo(out.value, out.address, height, isCoinbase));
        if !added {
          return false;
        }
        CreditOutput(out, isCoinbase);
      }
      ok := true;
    }

    method ApplyBlockToState(txs: seq<Transaction>, height: nat) returns (ok: bool)
      modifies this`utxos, this`balances
      ensures Applied(utxos, balances, ok) == ApplyTxs(cfg, rules, old(utxos), old(balances), txs, height, true)
    {
      hide SpendInputs, AddOutputs;
      for i := 0 to |txs|
        invariant ApplyTxs(cfg, rules, old(utxos), old(balances), txs, height, true)
               == ApplyTxs(cfg, rules, utxos, balances, txs[i..], height, i == 0)
      {
        assert txs[i..][0] == txs[i] && txs[i..][1..] == txs[i + 1..];
        var spent := SpendAll(txs[i].inputs, height);
        if !spent {
          return false;
        }
        var added := AddAllOutputs(txs[i], height, i == 0);
        if !added {
          return false;
        }
      }
      ok := true;
    }

    method RollbackBlockFromState(txs: seq<Transaction>)
      modifies this`utxos
      ensures utxos == RolledBack(rules, old(utxos), txs)
    {
      hide SpendInputs;
      assert txs[..|txs|] == txs;
      for k := |txs| downto 0
        invariant RolledBack(rules, old(utxos), txs) == RolledBack(rules, utxos, txs[..k])
      {
        var tx, before := txs[k], utxos;
        assert txs[..k + 1][k] == tx && txs[..k + 1][..k] == txs[..k];
        for i := 0 to |tx.outputs|
          invariant RemoveOutputs(rules, before, tx, 0) == RemoveOutputs(rules, utxos, tx, i)
        {
          var _ := SpendUtxo(TxInput(tx.txHash, i), U64_MAX);
        }
      }
    }

    method AdjustBaseFee(gasUsed: U64, gasLimit: U64)
      modifies this`baseFee
      ensures baseFee == AdjustedBaseFee(old(baseFee), gasUsed, gasLimit)
    {
      if gasLimit == 0 {
        return;
      }
      var current, next := baseFee, baseFee;
      var delta: U64 := if current / 8 > 1 then current / 8 else 1;
      if gasUsed * 2 % U64_LIMIT > gasLimit {
        next := (current + delta) % U64_LIMIT;
      } else {
        next := if current > delta then current - delta else 1;
      }
      baseFee := if next > 1 then next else 1;
    }

    /** addBlock, with the outside decisions of the call given by env. A bounded ledger stays
        bounded under the conditions of SupplyBound. */
    method AddBlock(env: Env, miner: Bytes, txs: seq<Transaction>) returns (ok: bool)
      requires chain == [] || cfg.rewardSchedule != []
      modifies this
      ensures (State(), ok) == LedgerState.AddBlock(cfg, rules, old(State()), env, miner, txs)
      ensures (Bounded(cfg, old(State())) && AllSpendableAtEnd(rules) && OutputsFit(txs)
               && LateRewardFits(cfg, old(State()), env)) ==> Bounded(cfg, State())
    {
      hide ApplyTxs, RolledBack, ValidTransactions, Reward, AdjustedBaseFee, Bounded, AllSpendableAtEnd, OutputsFit,
           Coinbase;
      ghost var before := State();
      if Bounded(cfg, before) && AllSpendableAtEnd(rules) && OutputsFit(txs) && LateRewardFits(cfg, before, env) {
        AddBlockKeepsBound(cfg, rules, before, env, miner, txs);
      }
      if miner == [] {
        return false;
      }
      var height := |chain|;
      var reward := CalculateReward(env.rewardClock);
      reward := Min(reward, (cfg.maxSupply - totalSupply) % U64_LIMIT);
      var all := txs;
      if reward > 0 {
        if env.coinbaseHash.None? {
          return false;
        }
        all := [Coinbase(cfg, miner, reward, env.coinbaseHash.value)] + txs;
      }
      var valid := ValidateTransactions(all, env.checkClock);
      if !valid || env.mined.None? || !env.written {
        return false;
      }
      var newBlock := NewBlock(cfg, State(), env, miner, reward, all);
      var applied := ApplyBlockToState(all, height);
      if !applied {
        RollbackBlockFromState(all);
        return false;
      }
      chain := chain + [newBlock];
      totalSupply := (totalSupply + reward) % U64_LIMIT;
      AdjustBaseFee(newBlock.gasUsed, cfg.targetGasPerBlock);
      ok := true;
    }
  }

  lemma SpendStep(rules: Rules, utxos: Utxos, inputs: seq<TxInput>, height: nat)
    requires inputs != []
    ensures var one := SpendInputs(rules, utxos, [inputs[0]], height);
            SpendInputs(rules, utxos, inputs, height) ==
            if one.1 then SpendInputs(rules, one.0, inputs[1..], height) else (one.0, false)
  {
    assert [inputs[0]][1..] == [];
  }

  lemma DuplicateStep(txs: seq<Transaction>, i: nat)
    requires i < |txs| && !HasDuplicate(txs[..i])
    requires txs[i].txHash == [] || forall k :: 0 <= k < i ==> txs[k].txHash != txs[i].txHash
    ensures !HasDuplicate(txs[..i + 1])
  {
    assert forall k :: 0 <= k < i ==> txs[..i + 1][k] == txs[..i][k];
  }
}
