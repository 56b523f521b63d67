/** Where unspent outputs come from (src/blockchain.cpp:385-527). */
module LedgerProvenance {
  import opened Wrappers
  import opened ByteStrings
  import opened ChainTypes
  import opened LedgerState
  import opened SupplyBound
  import opened LedgerRuns
  import opened LedgerEffects

  /** The entry is the record of an output of the transaction. */
  ghost predicate MadeBy(o: TxInput, u: Utxo, tx: Transaction, height: nat, first: bool) {
    && o.prevTxHash == tx.txHash && 0 <= o.outputIndex < |tx.outputs|
    && u == Utxo(tx.outputs[o.outputIndex].value, tx.outputs[o.outputIndex].address, height, first)
  }

  ghost predicate MadeIn(o: TxInput, u: Utxo, txs: seq<Transaction>, height: nat) {
    exists i :: 0 <= i < |txs| && MadeBy(o, u, txs[i], height, i == 0)
  }

  /** Every entry is one of before, unchanged, or the record of an output of the block. */
  ghost predicate Grown(utxos: Utxos, before: Utxos, all: seq<Transaction>, height: nat) {
    forall o :: o in utxos ==> (o in before && utxos[o] == before[o]) || MadeIn(o, utxos[o], all, height)
  }

  lemma {:induction false} OutputsGrow(cfg: Config, utxos: Utxos, balances: Balances, all: seq<Transaction>, i: nat,
                                      k: nat, height: nat, before: Utxos)
    requires i < |all| && k <= |all[i].outputs| && Grown(utxos, before, all, height)
    ensures Grown(AddOutputs(cfg, utxos, balances, all[i], k, height, i == 0).utxos, before, all, height)
    decreases |all[i].outputs| - k
  {
    hide PayOutput;
    var tx := all[i];
    if k < |tx.outputs| && TxInput(tx.txHash, k) !in utxos {
      var o, out := TxInput(tx.txHash, k), tx.outputs[k];
      var u := Utxo(out.value, out.address, height, i == 0);
      assert MadeBy(o, u, all[i], height, i == 0);
      OutputsGrow(cfg, utxos[o := u], PayOutput(cfg, balances, out, i == 0), all, i, k + 1, height, before);
    }
  }

  lemma {:induction false} BlockGrows(cfg: Config, rules: Rules, utxos: Utxos, balances: Balances,
                                     all: seq<Transaction>, i: nat, height: nat, before: Utxos)
    requires i <= |all| && Grown(utxos, before, all, height)
    ensures Grown(ApplyTxs(cfg, rules, utxos, balances, all[i..], height, i == 0).utxos, before, all, height)
    decreases |all| - i
  {
    hide AddOutputs, SpendInputs, MadeIn;
    if i < |all| {
      var spent := SpendInputs(rules, utxos, all[i].inputs, height).0;
      SpendMeaning(rules, utxos, all[i].inputs, height);
      OutputsGrow(cfg, spent, balances, all, i, 0, height, before);
      var a := AddOutputs(cfg, spent, balances, all[i], 0, height, i == 0);
      assert all[i..][1..] == all[i + 1..];
      BlockGrows(cfg, rules, a.utxos, a.balances, all, i + 1, height, before);
    }
  }

  /** Each unspent output stands in the block its height names. */
  ghost predicate Rooted(st: Ledger) {
    forall o :: o in st.utxos ==>
      var h := st.utxos[o].blockHeight;
      h < |st.chain| && MadeIn(o, st.utxos[o], st.chain[h].transactions, h)
  }

  lemma CallKeepsRooted(cfg: Config, rules: Rules, st: Ledger, env: Env, miner: Bytes, txs: seq<Transaction>)
    requires Ready(cfg, st) && AllSpendableAtEnd(rules) && Rooted(st)
    ensures Rooted(AddBlock(cfg, rules, st, env, miner, txs).0)
  {
    hide ApplyTxs, RolledBack, ValidTransactions, Coinbase, Allowed, MadeIn, AllSpendableAtEnd;
    if Allowed(cfg, st, env.rewardClock) > 0 ==> env.coinbaseHash.Some? {
      var all := BlockTxs(cfg, st, env, miner, txs);
      assert all[0..] == all;
      FailureDestroysOnly(cfg, rules, st.utxos, st.balances, all, |st.chain|);
      if AddBlock(cfg, rules, st, env, miner, txs).1 {
        AcceptedParts(cfg, rules, st, env, miner, txs);
        BlockGrows(cfg, rules, st.utxos, st.balances, all, 0, |st.chain|, st.utxos);
        BlockRooted(st, AddBlock(cfg, rules, st, env, miner, txs).0);
      }
    }
  }

  lemma BlockRooted(st: Ledger, after: Ledger)
    requires Rooted(st) && |after.chain| == |st.chain| + 1 && after.chain[..|st.chain|] == st.chain
    requires Grown(after.utxos, st.utxos, after.chain[|st.chain|].transactions, |st.chain|)
    ensures Rooted(after)
  {
    hide MadeIn;
    assert forall h :: 0 <= h < |st.chain| ==> after.chain[..|st.chain|][h] == after.chain[h];
    forall o | o in after.utxos
      ensures var h := after.utxos[o].blockHeight;
              h < |after.chain| && MadeIn(o, after.utxos[o], after.chain[h].transactions, h)
    {
      if !(o in st.utxos && after.utxos[o] == st.utxos[o]) {
        MadeAt(o, after.utxos[o], after.chain[|st.chain|].transactions, |st.chain|);
      }
    }
  }

  lemma MadeAt(o: TxInput, u: Utxo, txs: seq<Transaction>, height: nat)
    requires MadeIn(o, u, txs, height)
    ensures u.blockHeight == height
  {
  }

  /** From an empty UTXO set, or any rooted one, after every list of accepted and failed calls each
      unspent output is the one the chain records: its block, transaction, place, value, owner
      and whether it was the coinbase's. */
  lemma {:induction false} RunKeepsRooted(cfg: Config, rules: Rules, st: Ledger, calls: seq<Call>)
    requires cfg.rewardSchedule != [] && AllSpendableAtEnd(rules) && (st.utxos == map[] || Rooted(st))
    ensures Rooted(Run(cfg, rules, st, calls))
  {
    hide AddBlock, AllSpendableAtEnd;
    if calls != [] {
      var init, last := calls[..|calls| - 1], calls[|calls| - 1];
      RunKeepsRooted(cfg, rules, st, init);
      CallKeepsRooted(cfg, rules, Run(cfg, rules, st, init), last.env, last.miner, last.txs);
    }
  }
}
