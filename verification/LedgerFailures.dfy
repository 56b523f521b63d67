/** What a failed addBlock costs: rollback takes the block's outputs away and puts nothing back
    (src/blockchain.cpp:385-449, 512-517). */
module LedgerFailures {
  import opened Wrappers
  import opened ByteStrings
  import opened ChainTypes
  import opened LedgerState
  import opened SupplyBound

  // ---------------------------------------------------------------- when nothing is lost

  /** The first input the transactions name, in order. */
  function FirstInput(txs: seq<Transaction>): Option<TxInput> {
    if txs == [] then None
    else if txs[0].inputs != [] then Some(txs[0].inputs[0])
    else FirstInput(txs[1..])
  }

  predicate Refused(rules: Rules, utxos: Utxos, o: TxInput, height: nat) {
    o !in utxos || !rules.spendable(utxos[o], height)
  }

  ghost predicate Extends(utxos: Utxos, base: Utxos) {
    forall o :: o in base ==> o in utxos && utxos[o] == base[o]
  }

  ghost predicate DistinctHashes(txs: seq<Transaction>) {
    forall i, j :: 0 <= i < j < |txs| ==> txs[i].txHash != txs[j].txHash
  }

  /** If the first input named is refused, nothing was spent before. */
  lemma {:induction false} NothingSpent(cfg: Config, rules: Rules, utxos: Utxos, base: Utxos, balances: Balances,
                                       txs: seq<Transaction>, height: nat, isCoinbase: bool)
    requires Extends(utxos, base)
    requires FirstInput(txs).Some? ==> Refused(rules, utxos, FirstInput(txs).value, height)
    requires FirstInput(txs).Some? && txs[0].inputs == [] ==> FirstInput(txs).value in base
    ensures Extends(ApplyTxs(cfg, rules, utxos, balances, txs, height, isCoinbase).utxos, base)
    decreases txs
  {
    hide AddOutputs;
    if txs != [] && txs[0].inputs == [] {
      assert SpendInputs(rules, utxos, txs[0].inputs, height) == (utxos, true);
      AddOutputsKeys(cfg, utxos, balances, txs[0], 0, height, isCoinbase);
      var a := AddOutputs(cfg, utxos, balances, txs[0], 0, height, isCoinbase);
      if a.ok {
        NothingSpent(cfg, rules, a.utxos, base, a.balances, txs[1..], height, false);
      }
    }
  }

  lemma FirstSpent(rules: Rules, utxos: Utxos, inputs: seq<TxInput>, height: nat)
    requires inputs != [] && !Refused(rules, utxos, inputs[0], height)
    ensures inputs[0] !in SpendInputs(rules, utxos, inputs, height).0
    ensures forall o :: o in SpendInputs(rules, utxos, inputs, height).0 ==>
              o in utxos && SpendInputs(rules, utxos, inputs, height).0[o] == utxos[o]
  {
    SpendMeaning(rules, utxos - {inputs[0]}, inputs[1..], height);
  }

  /** An outpoint that is gone and is no output of the block stays gone. */
  lemma StaysGone(cfg: Config, rules: Rules, utxos: Utxos, balances: Balances, txs: seq<Transaction>, height: nat,
                  isCoinbase: bool, all: seq<Transaction>, o: TxInput)
    requires o !in utxos && !IsOutputOf(o, all) && forall tx <- txs :: tx in all
    ensures o !in ApplyTxs(cfg, rules, utxos, balances, txs, height, isCoinbase).utxos
  {
    hide ApplyTxs, IsOutputOf;
    AppliedMadeFrom(cfg, rules, utxos, balances, txs, height, isCoinbase, utxos, all);
  }

  lemma GoneAfterOutputs(cfg: Config, utxos: Utxos, balances: Balances, tx: Transaction, height: nat, isCoinbase: bool,
                         all: seq<Transaction>, o: TxInput)
    requires o !in utxos && !IsOutputOf(o, all) && tx in all
    ensures o !in AddOutputs(cfg, utxos, balances, tx, 0, height, isCoinbase).utxos
  {
    hide AddOutputs, IsOutputOf;
    OutputsMadeFrom(cfg, utxos, balances, tx, 0, height, isCoinbase, utxos, all);
  }

  /** If the first input named can be spent and no key of the outputs is taken, it is spent. */
  lemma {:induction false} FirstInputGoes(cfg: Config, rules: Rules, utxos: Utxos, balances: Balances,
                                         txs: seq<Transaction>, height: nat, isCoinbase: bool, all: seq<Transaction>)
    requires DistinctHashes(txs) && (forall tx <- txs :: tx in all)
    requires forall o :: o in utxos ==> !IsOutputOf(o, txs)
    requires FirstInput(txs).Some? && !Refused(rules, utxos, FirstInput(txs).value, height)
    requires !IsOutputOf(FirstInput(txs).value, all)
    ensures FirstInput(txs).value !in ApplyTxs(cfg, rules, utxos, balances, txs, height, isCoinbase).utxos
    decreases txs
  {
    hide AddOutputs, SpendInputs, IsOutputOf;
    var tx, rest, o := txs[0], txs[1..], FirstInput(txs).value;
    assert tx in all && forall t <- rest :: t in all;
    var (spent, ok) := SpendInputs(rules, utxos, tx.inputs, height);
    if tx.inputs != [] {
      FirstSpent(rules, utxos, tx.inputs, height);
      if ok {
        GoneAfterOutputs(cfg, spent, balances, tx, height, isCoinbase, all, o);
        var a := AddOutputs(cfg, spent, balances, tx, 0, height, isCoinbase);
        if a.ok {
          StaysGone(cfg, rules, a.utxos, a.balances, rest, height, false, all, o);
        }
      }
    } else {
      NoInputsToSpend(rules, utxos, height);
      FirstOutputsAdded(cfg, utxos, balances, txs, height, isCoinbase);
      var a := AddOutputs(cfg, utxos, balances, tx, 0, height, isCoinbase);
      FirstInputGoes(cfg, rules, a.utxos, a.balances, rest, height, false, all);
    }
  }

  lemma NoInputsToSpend(rules: Rules, utxos: Utxos, height: nat)
    ensures SpendInputs(rules, utxos, [], height) == (utxos, true)
  {
  }

  /** With distinct hashes and no key taken, the first transaction's outputs all go in and take
      no later one's key. */
  lemma FirstOutputsAdded(cfg: Config, utxos: Utxos, balances: Balances, txs: seq<Transaction>, height: nat,
                          isCoinbase: bool)
    requires txs != [] && DistinctHashes(txs) && forall o :: o in utxos ==> !IsOutputOf(o, txs)
    ensures var a := AddOutputs(cfg, utxos, balances, txs[0], 0, height, isCoinbase);
            && a.ok && Extends(a.utxos, utxos) && DistinctHashes(txs[1..])
            && forall o :: o in a.utxos ==> !IsOutputOf(o, txs[1..])
  {
    hide AddOutputs;
    var tx, rest := txs[0], txs[1..];
    AddOutputsKeys(cfg, utxos, balances, tx, 0, height, isCoinbase);
    var a := AddOutputs(cfg, utxos, balances, tx, 0, height, isCoinbase);
    assert forall k :: 0 <= k < |rest| ==> rest[k] == txs[k + 1];
    forall o | o in utxos
      ensures !IsOutputFrom(o, tx, 0) && !IsOutputOf(o, rest)
    {
      assert !IsOutputOf(o, txs);
    }
    forall o | IsOutputFrom(o, tx, 0)
      ensures !IsOutputOf(o, rest)
    {
      assert forall k :: 0 < k < |txs| ==> txs[k].txHash != tx.txHash;
    }
  }

  /** A checked block has distinct hashes, and only its first transaction can name an input that
      is not there. */
  lemma CheckedHashes(rules: Rules, utxos: Utxos, all: seq<Transaction>)
    requires all != [] && !HasDuplicate(all) && CheckedRest(rules, utxos, all[1..], {})
    ensures DistinctHashes(all)
    ensures FirstInput(all).Some? && all[0].inputs == [] ==> FirstInput(all).value in utxos
  {
    hide CheckedInputs;
    RestHashes(rules, utxos, all[1..], {});
    forall i, j | 0 <= i < j < |all|
      ensures all[i].txHash != all[j].txHash
    {
      assert all[1..][j - 1] == all[j];
    }
  }

  lemma {:induction false} RestHashes(rules: Rules, utxos: Utxos, txs: seq<Transaction>, spent: set<TxInput>)
    requires CheckedRest(rules, utxos, txs, spent)
    ensures forall k :: 0 <= k < |txs| ==> |txs[k].txHash| == 64
    ensures FirstInput(txs).Some? ==> FirstInput(txs).value in utxos
    decreases txs
  {
    hide CheckedInputs;
    if txs != [] {
      var tx, rest := txs[0], txs[1..];
      RestHashes(rules, utxos, rest, CheckedInputs(rules, utxos, tx, tx.inputs, spent, 0).value.1);
      assert forall k :: 0 < k < |txs| ==> txs[k] == rest[k - 1];
      if tx.inputs != [] {
        FirstIsThere(rules, utxos, tx, spent);
      }
    }
  }

  lemma FirstIsThere(rules: Rules, utxos: Utxos, tx: Transaction, spent: set<TxInput>)
    requires tx.inputs != [] && CheckedInputs(rules, utxos, tx, tx.inputs, spent, 0).Some?
    ensures tx.inputs[0] in utxos
  {
  }

  /** Rolling back the application of a checked block restores the UTXO set exactly when no key
      of the block's outputs was taken and the first input the block names is refused. */
  lemma RollbackRestoresIff(cfg: Config, rules: Rules, utxos: Utxos, balances: Balances, all: seq<Transaction>,
                            height: nat)
    requires AllSpendableAtEnd(rules) && !HasDuplicate(all)
    requires all != [] ==> CheckedRest(rules, utxos, all[1..], {})
    ensures RolledBack(rules, ApplyTxs(cfg, rules, utxos, balances, all, height, true).utxos, all) == utxos <==>
            && (forall o :: o in utxos ==> !IsOutputOf(o, all))
            && (FirstInput(all).Some? ==> Refused(rules, utxos, FirstInput(all).value, height))
  {
    hide ApplyTxs, RolledBack, IsOutputOf, CheckedRest, HasDuplicate, FirstInput, DistinctHashes;
    var a := ApplyTxs(cfg, rules, utxos, balances, all, height, true);
    AppliedMadeFrom(cfg, rules, utxos, balances, all, height, true, utxos, all);
    RollbackMeaning(rules, a.utxos, all);
    if all == [] {
      NothingToApply(cfg, rules, utxos, balances, height);
    } else {
      CheckedHashes(rules, utxos, all);
      if FirstInput(all).Some? && !Refused(rules, utxos, FirstInput(all).value, height) {
        if forall o :: o in utxos ==> !IsOutputOf(o, all) {
          FirstInputGoes(cfg, rules, utxos, balances, all, height, true, all);
        }
      } else {
        NothingSpent(cfg, rules, utxos, utxos, balances, all, height, true);
      }
    }
  }

  lemma NothingToApply(cfg: Config, rules: Rules, utxos: Utxos, balances: Balances, height: nat)
    ensures FirstInput([]).None?
    ensures ApplyTxs(cfg, rules, utxos, balances, [], height, true).utxos == utxos
  {
  }

  // ---------------------------------------------------------------- what is lost

  /** A coinbase whose hash equals that of an earlier, still unspent one makes the block fail,
      and the rollback then erases the earlier outputs. */
  lemma RepeatedCoinbaseErases(cfg: Config, rules: Rules, st: Ledger, env: Env, miner: Bytes, txs: seq<Transaction>,
                               k: nat)
    requires Ready(cfg, st) && AllSpendableAtEnd(rules)
    requires Allowed(cfg, st, env.rewardClock) > 0 && env.coinbaseHash.Some? && miner != []
    requires var all := WithCoinbase(cfg, miner, Allowed(cfg, st, env.rewardClock), env.coinbaseHash, txs);
             ValidTransactions(cfg, rules, st, all, env.checkClock)
    requires env.mined.Some? && env.written
    requires k < 2 && TxInput(env.coinbaseHash.value, k) in st.utxos
    ensures var (after, ok) := AddBlock(cfg, rules, st, env, miner, txs);
            !ok && TxInput(env.coinbaseHash.value, k) !in after.utxos && Unspent(after.utxos) <= Unspent(st.utxos)
  {
    hide RolledBack, ValidTransactions, Reward, Unspent, NewBlock, AdjustedBaseFee, PayOutput, CheckedRest;
    var h := env.coinbaseHash.value;
    var all := WithCoinbase(cfg, miner, Allowed(cfg, st, env.rewardClock), env.coinbaseHash, txs);
    CoinbaseBlocked(cfg, rules, st.utxos, st.balances, all, |st.chain|, h, k);
    FailureDestroysOnly(cfg, rules, st.utxos, st.balances, all, |st.chain|);
    RollbackMeaning(rules, ApplyTxs(cfg, rules, st.utxos, st.balances, all, |st.chain|, true).utxos, all);
    assert IsOutputOf(TxInput(h, k), all) by {
      assert all[0].txHash == h;
    }
  }

  lemma CoinbaseBlocked(cfg: Config, rules: Rules, utxos: Utxos, balances: Balances, all: seq<Transaction>, height: nat,
                        h: Bytes, k: nat)
    requires all != [] && all[0].txHash == h && all[0].inputs == [] && |all[0].outputs| == 2
    requires k < 2 && TxInput(h, k) in utxos
    ensures !ApplyTxs(cfg, rules, utxos, balances, all, height, true).ok
  {
    hide PayOutput;
    var tx := all[0];
    assert SpendInputs(rules, utxos, tx.inputs, height) == (utxos, true);
    if TxInput(h, 0) !in utxos {
      var u := Utxo(tx.outputs[0].value, tx.outputs[0].address, height, true);
      var paid := PayOutput(cfg, balances, tx.outputs[0], true);
      assert !AddOutputs(cfg, utxos[TxInput(h, 0) := u], paid, tx, 1, height, true).ok;
    }
    assert !AddOutputs(cfg, utxos, balances, tx, 0, height, true).ok;
  }

  function Spending(hash: Bytes, inputs: seq<TxInput>): Transaction {
    Transaction(0, 0, 0, 0, 0, [], 0, [], inputs, [], 0, Zeros(32), Zeros(32), hash)
  }

  /** A transaction whose second input is not spendable yet passes the checks, fails when it is
      applied, and leaves its first input spent for good and the coinbase credited, if there was
      one. */
  lemma SpentInputLost(cfg: Config, rules: Rules, st: Ledger, env: Env, miner: Bytes, hash: Bytes, ripe: TxInput,
                       unripe: TxInput)
    requires Ready(cfg, st) && AllSpendableAtEnd(rules) && miner != [] && env.mined.Some? && env.written
    requires |hash| == 64 && ripe != unripe && ripe in st.utxos && unripe in st.utxos
    requires rules.spendable(st.utxos[ripe], |st.chain|) && !rules.spendable(st.utxos[unripe], |st.chain|)
    requires var reward := Allowed(cfg, st, env.rewardClock);
             reward > 0 ==> && reward <= Allowed(cfg, st, env.checkClock) && env.coinbaseHash.Some?
                            && env.coinbaseHash.value != hash && NewHash(st.utxos, env.coinbaseHash.value)
    ensures var (after, ok) := AddBlock(cfg, rules, st, env, miner, [Spending(hash, [ripe, unripe])]);
            && !ok && after.utxos == st.utxos - {ripe}
            && after.balances ==
               var reward := Allowed(cfg, st, env.rewardClock);
               if reward == 0 then st.balances
               else AddOutputs(cfg, st.utxos, st.balances, Coinbase(cfg, miner, reward, env.coinbaseHash.value), 0,
                               |st.chain|, true).balances
  {
    hide Allowed, NewBlock, AdjustedBaseFee, Coinbase, RolledBack, ValidTransactions, ApplyTxs, NewHash, Spending;
    var reward := Allowed(cfg, st, env.rewardClock);
    var txs := [Spending(hash, [ripe, unripe])];
    var all := WithCoinbase(cfg, miner, reward, env.coinbaseHash, txs);
    SpendingAccepted(cfg, rules, st, miner, reward, env.coinbaseHash, hash, ripe, unripe, env.checkClock);
    if reward > 0 {
      var first := Coinbase(cfg, miner, reward, env.coinbaseHash.value);
      assert all == [first] + txs;
      CoinbaseIsPlain(cfg, miner, reward, env.coinbaseHash.value);
      HalfSpentAfter(cfg, rules, st.utxos, st.balances, first, hash, ripe, unripe, |st.chain|);
    } else {
      HalfSpent(cfg, rules, st.utxos, st.balances, hash, ripe, unripe, |st.chain|, true);
      HalfSpentBack(rules, st.utxos, txs, hash, ripe, unripe);
    }
  }

  lemma CoinbaseIsPlain(cfg: Config, miner: Bytes, reward: U64, hash: Bytes)
    ensures var first := Coinbase(cfg, miner, reward, hash);
            first.inputs == [] && first.txHash == hash && OutputSum(first.outputs) == reward
  {
    CoinbaseSum(cfg, miner, reward, hash);
  }

  lemma SpendingAccepted(cfg: Config, rules: Rules, st: Ledger, miner: Bytes, reward: U64, cbHash: Option<Bytes>,
                         hash: Bytes, ripe: TxInput, unripe: TxInput, now: U64)
    requires Ready(cfg, st) && |hash| == 64 && ripe != unripe && ripe in st.utxos && unripe in st.utxos
    requires reward > 0 ==> reward <= Allowed(cfg, st, now) && cbHash.Some? && cbHash.value != hash
    ensures ValidTransactions(cfg, rules, st,
                              WithCoinbase(cfg, miner, reward, cbHash, [Spending(hash, [ripe, unripe])]), now)
  {
    hide Allowed, Coinbase;
    var tx := Spending(hash, [ripe, unripe]);
    var all := WithCoinbase(cfg, miner, reward, cbHash, [tx]);
    SpendingChecked(rules, st.utxos, hash, ripe, unripe);
    assert CheckedRest(rules, st.utxos, [], {});
    if reward > 0 {
      CoinbaseIsPlain(cfg, miner, reward, cbHash.value);
      assert all[1..] == [tx];
    } else {
      assert all[1..] == [] && OutputSum(tx.outputs) == 0;
    }
  }

  lemma SpendingChecked(rules: Rules, utxos: Utxos, hash: Bytes, ripe: TxInput, unripe: TxInput)
    requires |hash| == 64 && ripe != unripe && ripe in utxos && unripe in utxos
    ensures CheckedRest(rules, utxos, [Spending(hash, [ripe, unripe])], {})
  {
    var tx := Spending(hash, [ripe, unripe]);
    var sum: U64 := utxos[ripe].value % U64_LIMIT;
    assert tx.inputs[1..] == [unripe] && tx.inputs[1..][1..] == [];
    assert CheckedInputs(rules, utxos, tx, [unripe], {ripe}, sum).Some?;
    assert CheckedInputs(rules, utxos, tx, tx.inputs, {}, 0)
        == CheckedInputs(rules, utxos, tx, tx.inputs[1..], {} + {ripe}, (0 + utxos[ripe].value) % U64_LIMIT);
    assert {} + {ripe} == {ripe};
    assert [tx][1..] == [] && OutputSum(tx.outputs) == 0;
  }

  lemma HalfSpent(cfg: Config, rules: Rules, utxos: Utxos, balances: Balances, hash: Bytes, ripe: TxInput,
                  unripe: TxInput, height: nat, isCoinbase: bool)
    requires ripe != unripe && ripe in utxos && unripe in utxos
    requires rules.spendable(utxos[ripe], height) && !rules.spendable(utxos[unripe], height)
    ensures ApplyTxs(cfg, rules, utxos, balances, [Spending(hash, [ripe, unripe])], height, isCoinbase)
         == Applied(utxos - {ripe}, balances, false)
  {
    var tx := Spending(hash, [ripe, unripe]);
    assert tx.inputs[1..] == [unripe];
    assert SpendInputs(rules, utxos - {ripe}, [unripe], height) == (utxos - {ripe}, false);
    assert SpendInputs(rules, utxos, tx.inputs, height) == (utxos - {ripe}, false);
  }

  lemma HalfSpentBack(rules: Rules, utxos: Utxos, txs: seq<Transaction>, hash: Bytes, ripe: TxInput, unripe: TxInput)
    requires AllSpendableAtEnd(rules) && txs == [Spending(hash, [ripe, unripe])]
    ensures RolledBack(rules, utxos - {ripe}, txs) == utxos - {ripe}
  {
    hide RolledBack;
    RollbackMeaning(rules, utxos - {ripe}, txs);
    assert forall o :: !IsOutputOf(o, txs);
  }

  lemma HalfSpentAfter(cfg: Config, rules: Rules, utxos: Utxos, balances: Balances, first: Transaction, hash: Bytes,
                       ripe: TxInput, unripe: TxInput, height: nat)
    requires AllSpendableAtEnd(rules) && first.inputs == [] && NewHash(utxos, first.txHash)
    requires ripe != unripe && ripe in utxos && unripe in utxos
    requires rules.spendable(utxos[ripe], height) && !rules.spendable(utxos[unripe], height)
    ensures var all := [first] + [Spending(hash, [ripe, unripe])];
            var a := ApplyTxs(cfg, rules, utxos, balances, all, height, true);
            && !a.ok && RolledBack(rules, a.utxos, all) == utxos - {ripe}
            && a.balances == AddOutputs(cfg, utxos, balances, first, 0, height, true).balances
  {
    hide AddOutputs, RolledBack, Spending, IsOutputOf;
    var txs := [Spending(hash, [ripe, unripe])];
    var all := [first] + txs;
    assert all[1..] == txs;
    NoInputsToSpend(rules, utxos, height);
    AddOutputsKeys(cfg, utxos, balances, first, 0, height, true);
    var added := AddOutputs(cfg, utxos, balances, first, 0, height, true);
    HalfSpent(cfg, rules, added.utxos, added.balances, hash, ripe, unripe, height, false);
    RollbackMeaning(rules, added.utxos - {ripe}, all);
    forall o
      ensures IsOutputOf(o, all) <==> IsOutputFrom(o, first, 0)
    {
      OnlyFirstPays(o, first, hash, ripe, unripe);
    }
  }

  lemma OnlyFirstPays(o: TxInput, first: Transaction, hash: Bytes, ripe: TxInput, unripe: TxInput)
    ensures IsOutputOf(o, [first] + [Spending(hash, [ripe, unripe])]) <==> IsOutputFrom(o, first, 0)
  {
    var all := [first] + [Spending(hash, [ripe, unripe])];
    assert all[0] == first && |all[1].outputs| == 0;
  }
}
