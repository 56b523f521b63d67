/** The ledger over whole runs of addBlock calls, the exact reach of its checks, and what the
    rollback and the account balances really do. */
module LedgerRuns {
  import opened Wrappers
  import opened ByteStrings
  import opened ChainTypes
  import opened MapSums
  import opened LedgerState
  import opened SupplyBound

  // ---------------------------------------------------------------- runs

  datatype Call = Call(env: Env, miner: Bytes, txs: seq<Transaction>)

  /** The ledger after a list of calls, whatever each of them answers. */
  function Run(cfg: Config, rules: Rules, st: Ledger, calls: seq<Call>): Ledger
    requires cfg.rewardSchedule != []
  {
    if calls == [] then st
    else
      var last := calls[|calls| - 1];
      AddBlock(cfg, rules, Run(cfg, rules, st, calls[..|calls| - 1]), last.env, last.miner, last.txs).0
  }

  /** The entries some elapsed time selects: the last, and those above every earlier threshold. */
  predicate Reached(schedule: seq<(U64, U64)>, i: nat)
    requires i < |schedule|
  {
    i == |schedule| - 1 || (schedule[i].0 > 0 && forall k :: 0 <= k < i ==> schedule[k].0 < schedule[i].0)
  }

  /** Once a schedule pays nothing it never pays again. */
  ghost predicate NoRevival(schedule: seq<(U64, U64)>) {
    forall i, j :: 0 <= i < j < |schedule| && Reached(schedule, i) && Reached(schedule, j) && schedule[i].1 == 0 ==>
      schedule[j].1 == 0
  }

  /** The entry calculateReward stops at. */
  function Selected(schedule: seq<(U64, U64)>, elapsed: nat, i: nat): (r: nat)
    requires i < |schedule|
    ensures i <= r < |schedule|
    decreases |schedule| - i
  {
    if elapsed < schedule[i].0 || i == |schedule| - 1 then i else Selected(schedule, elapsed, i + 1)
  }

  lemma {:induction false} SelectedPays(schedule: seq<(U64, U64)>, elapsed: nat, i: nat)
    requires i < |schedule|
    ensures ScheduledReward(schedule[i..], elapsed) == schedule[Selected(schedule, elapsed, i)].1
    decreases |schedule| - i
  {
    if !(elapsed < schedule[i].0 || i == |schedule| - 1) {
      assert schedule[i..][1..] == schedule[i + 1..];
      SelectedPays(schedule, elapsed, i + 1);
    }
  }

  lemma {:induction false} SelectedIs(schedule: seq<(U64, U64)>, elapsed: nat, i: nat, r: nat)
    requires i <= r < |schedule|
    ensures Selected(schedule, elapsed, i) == r <==>
            (forall k :: i <= k < r ==> schedule[k].0 <= elapsed) && (elapsed < schedule[r].0 || r == |schedule| - 1)
    decreases |schedule| - i
  {
    if !(elapsed < schedule[i].0 || i == |schedule| - 1) && i < r {
      SelectedIs(schedule, elapsed, i + 1, r);
    }
  }

  lemma SelectedIsReached(schedule: seq<(U64, U64)>, elapsed: nat)
    requires schedule != []
    ensures Reached(schedule, Selected(schedule, elapsed, 0))
  {
    SelectedIs(schedule, elapsed, 0, Selected(schedule, elapsed, 0));
  }

  lemma SelectedMovesOn(schedule: seq<(U64, U64)>, earlier: nat, later: nat)
    requires schedule != [] && earlier <= later
    ensures Selected(schedule, earlier, 0) <= Selected(schedule, later, 0)
  {
    SelectedIs(schedule, earlier, 0, Selected(schedule, earlier, 0));
    SelectedIs(schedule, later, 0, Selected(schedule, later, 0));
  }

  /** A time that selects a reached entry. */
  function TimeFor(schedule: seq<(U64, U64)>, i: nat): U64
    requires i < |schedule| && Reached(schedule, i)
  {
    if i == |schedule| - 1 then U64_MAX else schedule[i].0 - 1
  }

  /** The condition on the entries is exact: it holds precisely when no passing of time brings a
      reward back. */
  lemma ScheduleExact(schedule: seq<(U64, U64)>)
    requires schedule != []
    ensures NoRevival(schedule) <==>
            forall earlier: U64, later: U64 :: earlier <= later && ScheduledReward(schedule, earlier) == 0 ==>
              ScheduledReward(schedule, later) == 0
  {
    hide ScheduledReward;
    assert schedule[0..] == schedule;
    if NoRevival(schedule) {
      forall earlier: U64, later: U64 | earlier <= later && ScheduledReward(schedule, earlier) == 0
        ensures ScheduledReward(schedule, later) == 0
      {
        ScheduleStaysDry(schedule, earlier, later);
      }
    } else {
      var i, j :| 0 <= i < j < |schedule| && Reached(schedule, i) && Reached(schedule, j)
                  && schedule[i].1 == 0 && schedule[j].1 != 0;
      var earlier, later := TimeFor(schedule, i), TimeFor(schedule, j);
      SelectedIs(schedule, earlier, 0, i);
      SelectedIs(schedule, later, 0, j);
      SelectedPays(schedule, earlier, 0);
      SelectedPays(schedule, later, 0);
      assert earlier <= later;
    }
  }

  lemma ScheduleStaysDry(schedule: seq<(U64, U64)>, earlier: nat, later: nat)
    requires schedule != [] && NoRevival(schedule) && earlier <= later
    requires ScheduledReward(schedule, earlier) == 0
    ensures ScheduledReward(schedule, later) == 0
  {
    hide ScheduledReward, Reached;
    assert schedule[0..] == schedule;
    SelectedPays(schedule, earlier, 0);
    SelectedPays(schedule, later, 0);
    SelectedIsReached(schedule, earlier);
    SelectedIsReached(schedule, later);
    SelectedMovesOn(schedule, earlier, later);
  }

  /** With such a schedule no reward is late. */
  lemma RewardNeverRevives(cfg: Config, st: Ledger, env: Env)
    requires Ready(cfg, st) && Bounded(cfg, st)
    requires NoRevival(cfg.rewardSchedule) && env.rewardClock <= env.checkClock
    ensures LateRewardFits(cfg, st, env)
  {
    hide ScheduledReward, NoRevival, Unspent;
    if st.chain != [] && Reward(cfg, st.chain, env.rewardClock) == 0 {
      var genesis := st.chain[0].timestamp;
      ScheduleStaysDry(cfg.rewardSchedule,
                       if env.rewardClock >= genesis then env.rewardClock - genesis else 0,
                       if env.checkClock >= genesis then env.checkClock - genesis else 0);
    }
  }

  /** Every call of the run meets the two conditions of the bound in the ledger it finds. */
  ghost predicate SafeRun(cfg: Config, rules: Rules, st: Ledger, calls: seq<Call>)
    requires cfg.rewardSchedule != []
  {
    calls == [] ||
    var init, last := calls[..|calls| - 1], calls[|calls| - 1];
    && SafeRun(cfg, rules, st, init)
    && OutputsFit(last.txs)
    && LateRewardFits(cfg, Run(cfg, rules, st, init), last.env)
  }

  /** A node that has just started, with a restored supply or none, is bounded exactly when that
      supply is within the maximum: its UTXO set is empty. */
  lemma StartIsBounded(cfg: Config, st: Ledger)
    requires st.utxos == map[]
    ensures Bounded(cfg, st) <==> st.totalSupply <= cfg.maxSupply
  {
    assert Values(st.utxos) == map[];
  }

  /** Safety over every run: every ledger reached by accepted and failed calls is bounded, and
      the supply only grows. */
  lemma {:induction false} RunKeepsBound(cfg: Config, rules: Rules, st: Ledger, calls: seq<Call>)
    requires cfg.rewardSchedule != [] && AllSpendableAtEnd(rules)
    requires Bounded(cfg, st) && SafeRun(cfg, rules, st, calls)
    ensures Bounded(cfg, Run(cfg, rules, st, calls))
    ensures Remaining(cfg, Run(cfg, rules, st, calls)) == cfg.maxSupply - Run(cfg, rules, st, calls).totalSupply
    ensures st.totalSupply <= Run(cfg, rules, st, calls).totalSupply
  {
    hide AddBlock, Unspent, OutputsFit, LateRewardFits, Allowed;
    if calls != [] {
      var init, last := calls[..|calls| - 1], calls[|calls| - 1];
      RunKeepsBound(cfg, rules, st, init);
      var before := Run(cfg, rules, st, init);
      AddBlockKeepsBound(cfg, rules, before, last.env, last.miner, last.txs);
      SupplyGrows(cfg, rules, before, last.env, last.miner, last.txs);
    }
  }

  ghost predicate Proper(c: Call) {
    c.env.rewardClock <= c.env.checkClock && OutputsFit(c.txs)
  }

  /** What can be checked before the run: a schedule that does not revive, a clock that does not
      go back, and sums that fit. */
  lemma {:induction false} ScheduleMakesRunsSafe(cfg: Config, rules: Rules, st: Ledger, calls: seq<Call>)
    requires cfg.rewardSchedule != [] && NoRevival(cfg.rewardSchedule) && AllSpendableAtEnd(rules)
    requires Bounded(cfg, st) && forall c <- calls :: Proper(c)
    ensures SafeRun(cfg, rules, st, calls)
  {
    hide Run, AddBlock, Unspent, OutputsFit, NoRevival, LateRewardFits, Bounded;
    if calls != [] {
      var init, last := calls[..|calls| - 1], calls[|calls| - 1];
      ScheduleMakesRunsSafe(cfg, rules, st, init);
      RunKeepsBound(cfg, rules, st, init);
      assert last in calls && Proper(last);
      RewardNeverRevives(cfg, Run(cfg, rules, st, init), last.env);
    }
  }

  /** A call issues exactly its reward or nothing, one block or none. */
  lemma SupplyGrows(cfg: Config, rules: Rules, st: Ledger, env: Env, miner: Bytes, txs: seq<Transaction>)
    requires Ready(cfg, st) && Bounded(cfg, st)
    ensures var (after, ok) := AddBlock(cfg, rules, st, env, miner, txs);
            && after.totalSupply == st.totalSupply + (if ok then Allowed(cfg, st, env.rewardClock) else 0)
            && |after.chain| == |st.chain| + (if ok then 1 else 0)
            && after.chain[..|st.chain|] == st.chain
  {
    hide ApplyTxs, RolledBack, CheckedRest, Coinbase, HasDuplicate, Unspent, OutputSum, NewBlock, AdjustedBaseFee,
         Reward;
  }

  /** The chain accounts for the supply: what was issued is the sum of the block rewards. */
  function Issued(chain: seq<Block>): nat {
    if chain == [] then 0 else Issued(chain[..|chain| - 1]) + chain[|chain| - 1].reward
  }

  lemma SupplyIsIssued(cfg: Config, rules: Rules, st: Ledger, env: Env, miner: Bytes, txs: seq<Transaction>)
    requires Ready(cfg, st) && Bounded(cfg, st) && st.totalSupply == Issued(st.chain)
    ensures var after := AddBlock(cfg, rules, st, env, miner, txs).0;
            after.totalSupply == Issued(after.chain)
  {
    hide ApplyTxs, RolledBack, CheckedRest, Coinbase, HasDuplicate, Unspent, OutputSum, AdjustedBaseFee, Reward, Issued;
    SupplyGrows(cfg, rules, st, env, miner, txs);
    var (after, ok) := AddBlock(cfg, rules, st, env, miner, txs);
    if ok {
      IssuedStep(after.chain);
    }
  }

  lemma IssuedStep(chain: seq<Block>)
    requires chain != []
    ensures Issued(chain) == Issued(chain[..|chain| - 1]) + chain[|chain| - 1].reward
  {
  }

  // ---------------------------------------------------------------- where the checks stop short

  function Paying(hash: Bytes, values: seq<U64>): Transaction {
    Transaction(0, 0, 0, 0, 0, [], 0, [], [], seq(|values|, i requires 0 <= i < |values| => TxOutput(values[i], [])),
                0, Zeros(32), Zeros(32), hash)
  }

  lemma OnePaid(cfg: Config, rules: Rules, utxos: Utxos, balances: Balances, hash: Bytes, value: U64, height: nat)
    requires TxInput(hash, 0) !in utxos
    ensures OutputSum(Paying(hash, [value]).outputs) == value
    ensures var a := ApplyTxs(cfg, rules, utxos, balances, [Paying(hash, [value])], height, true);
            a.ok && Unspent(a.utxos) == Unspent(utxos) + value
  {
    hide PayOutput;
    var tx := Paying(hash, [value]);
    assert tx.outputs[..0] == [] && [tx][1..] == [];
    var u := Utxo(value, [], height, true);
    UnspentAdd(utxos, TxInput(hash, 0), u);
    var paid := PayOutput(cfg, balances, tx.outputs[0], true);
    var added := Applied(utxos[TxInput(hash, 0) := u], paid, true);
    assert AddOutputs(cfg, utxos, balances, tx, 0, height, true) == added;
    assert ApplyTxs(cfg, rules, added.utxos, paid, [], height, false) == added;
  }

  /** The reward clock is read twice. A call is safe for all transaction lists exactly when a
      reward that appears at the second reading only still fits under the supply. */
  lemma LateRewardExact(cfg: Config, rules: Rules, st: Ledger, env: Env, miner: Bytes, newHash: Bytes)
    requires Ready(cfg, st) && Bounded(cfg, st) && AllSpendableAtEnd(rules)
    requires TxInput(newHash, 0) !in st.utxos
    requires miner != [] && env.mined.Some? && env.written
    ensures LateRewardFits(cfg, st, env) <==>
            forall txs :: OutputsFit(txs) ==> Bounded(cfg, AddBlock(cfg, rules, st, env, miner, txs).0)
  {
    hide Unspent, AddBlock, Allowed;
    if LateRewardFits(cfg, st, env) {
      forall txs | OutputsFit(txs)
        ensures Bounded(cfg, AddBlock(cfg, rules, st, env, miner, txs).0)
      {
        AddBlockKeepsBound(cfg, rules, st, env, miner, txs);
      }
    } else {
      LateRewardMints(cfg, rules, st, env, miner, newHash);
    }
  }

  /** The whole late reward, claimed by a first transaction that nobody checks for inputs. */
  lemma LateRewardMints(cfg: Config, rules: Rules, st: Ledger, env: Env, miner: Bytes, newHash: Bytes)
    requires Ready(cfg, st) && Bounded(cfg, st) && TxInput(newHash, 0) !in st.utxos
    requires miner != [] && env.mined.Some? && env.written && !LateRewardFits(cfg, st, env)
    ensures var txs := [Paying(newHash, [Allowed(cfg, st, env.checkClock)])];
            OutputsFit(txs) && !Bounded(cfg, AddBlock(cfg, rules, st, env, miner, txs).0)
  {
    hide ApplyTxs, Reward, Unspent, OutputSum, NewBlock, AdjustedBaseFee, Coinbase, RolledBack;
    var late := Allowed(cfg, st, env.checkClock);
    var txs := [Paying(newHash, [late])];
    OnePaid(cfg, rules, st.utxos, st.balances, newHash, late, |st.chain|);
    assert !HasDuplicate(txs) && txs[1..] == [];
    assert ValidTransactions(cfg, rules, st, txs, env.checkClock);
    assert WithCoinbase(cfg, miner, 0, env.coinbaseHash, txs) == txs;
  }

  const HALF: U64 := 0x8000_0000_0000_0000

  function Halves(hash: Bytes): Transaction {
    Paying(hash, [HALF, HALF])
  }

  /** A list of transactions whose second one in the block pays 2^63 twice without any input. */
  function Overflowing(reward: U64, hash: Bytes): seq<Transaction> {
    if reward > 0 then [Halves(hash)] else [Paying([], []), Halves(hash)]
  }

  /** Without the assumption on the sums the bound fails, whether or not a reward is due: outputs
      that add up to zero in 64 bits pass the check of a transaction that spends nothing. */
  lemma OverflowMints(cfg: Config, rules: Rules, st: Ledger, env: Env, miner: Bytes, hash: Bytes)
    requires Ready(cfg, st) && Bounded(cfg, st) && Allowed(cfg, st, env.rewardClock) <= Allowed(cfg, st, env.checkClock)
    requires |hash| == 64 && NewHash(st.utxos, hash)
    requires Allowed(cfg, st, env.rewardClock) > 0 ==>
               env.coinbaseHash.Some? && env.coinbaseHash.value != hash && NewHash(st.utxos, env.coinbaseHash.value)
    requires miner != [] && env.mined.Some? && env.written
    ensures var txs := Overflowing(Allowed(cfg, st, env.rewardClock), hash);
            var (after, ok) := AddBlock(cfg, rules, st, env, miner, txs);
            ok && !Bounded(cfg, after)
  {
    hide Reward, Unspent, NewBlock, AdjustedBaseFee, Coinbase, RolledBack, ValidTransactions, ApplyTxs, NewHash, Halves;
    var reward := Allowed(cfg, st, env.rewardClock);
    var all := WithCoinbase(cfg, miner, reward, env.coinbaseHash, Overflowing(reward, hash));
    var first := if reward > 0 then Coinbase(cfg, miner, reward, env.coinbaseHash.value) else Paying([], []);
    assert all == [first, Halves(hash)];
    FirstShape(cfg, miner, reward, env.coinbaseHash);
    HalvesAccepted(cfg, rules, st, first, hash, env.checkClock);
    HalvesApplied(cfg, rules, st.utxos, st.balances, first, hash, |st.chain|);
  }

  lemma FirstShape(cfg: Config, miner: Bytes, reward: U64, hash: Option<Bytes>)
    requires reward > 0 ==> hash.Some?
    ensures var first := if reward > 0 then Coinbase(cfg, miner, reward, hash.value) else Paying([], []);
            && first.inputs == [] && OutputSum(first.outputs) == reward
            && first.txHash == (if reward > 0 then hash.value else [])
            && (reward == 0 ==> first.outputs == [])
  {
    if reward > 0 {
      CoinbaseSum(cfg, miner, reward, hash.value);
    }
  }

  lemma HalvesSum(hash: Bytes)
    ensures OutputSum(Halves(hash).outputs) == U64_LIMIT
  {
    var outs := Halves(hash).outputs;
    assert outs[..1][..0] == [] && outs[..1][0] == outs[0];
    assert OutputSum(outs[..1]) == HALF;
  }

  lemma HalvesAccepted(cfg: Config, rules: Rules, st: Ledger, first: Transaction, hash: Bytes, now: U64)
    requires Ready(cfg, st) && |hash| == 64 && first.txHash != hash
    requires OutputSum(first.outputs) <= Allowed(cfg, st, now)
    ensures ValidTransactions(cfg, rules, st, [first, Halves(hash)], now)
  {
    hide Allowed, OutputSum;
    var txs := [first, Halves(hash)];
    HalvesSum(hash);
    assert txs[1..] == [txs[1]] && txs[1..][1..] == [];
    assert CheckedRest(rules, st.utxos, [], {});
    assert CheckedRest(rules, st.utxos, txs[1..], {});
  }

  lemma HalvesApplied(cfg: Config, rules: Rules, utxos: Utxos, balances: Balances, first: Transaction, hash: Bytes,
                      height: nat)
    requires first.inputs == [] && first.txHash != hash && NewHash(utxos, hash)
    requires first.outputs != [] ==> NewHash(utxos, first.txHash)
    ensures var a := ApplyTxs(cfg, rules, utxos, balances, [first, Halves(hash)], height, true);
            a.ok && Unspent(a.utxos) >= U64_LIMIT
  {
    hide AddOutputs, Unspent, Halves;
    var txs := [first, Halves(hash)];
    assert txs[1..] == [Halves(hash)];
    assert SpendInputs(rules, utxos, first.inputs, height) == (utxos, true);
    AddOutputsKeys(cfg, utxos, balances, first, 0, height, true);
    var a := AddOutputs(cfg, utxos, balances, first, 0, height, true);
    HalvesAlone(cfg, rules, a.utxos, a.balances, hash, height);
  }

  lemma HalvesAlone(cfg: Config, rules: Rules, utxos: Utxos, balances: Balances, hash: Bytes, height: nat)
    requires TxInput(hash, 0) !in utxos && TxInput(hash, 1) !in utxos
    ensures var a := ApplyTxs(cfg, rules, utxos, balances, [Halves(hash)], height, false);
            a.ok && Unspent(a.utxos) == Unspent(utxos) + U64_LIMIT
  {
    hide PayOutput, Unspent;
    var tx := Halves(hash);
    var o0, o1, u := TxInput(hash, 0), TxInput(hash, 1), Utxo(HALF, [], height, false);
    assert [tx][1..] == [];
    UnspentAdd(utxos, o0, u);
    UnspentAdd(utxos[o0 := u], o1, u);
    var paid := PayOutput(cfg, balances, tx.outputs[0], false);
    var twice := PayOutput(cfg, paid, tx.outputs[1], false);
    var end := Applied(utxos[o0 := u][o1 := u], twice, true);
    assert AddOutputs(cfg, end.utxos, twice, tx, 2, height, false) == end;
    assert AddOutputs(cfg, utxos[o0 := u], paid, tx, 1, height, false) == end;
    assert AddOutputs(cfg, utxos, balances, tx, 0, height, false) == end;
    assert ApplyTxs(cfg, rules, end.utxos, twice, [], height, false) == end;
  }

  // ---------------------------------------------------------------- account balances

  ghost function Held(balances: Balances): nat {
    Total(Amounts(balances))
  }

  ghost function Amounts(balances: Balances): (r: map<Bytes, nat>)
    ensures r.Keys == balances.Keys && forall a :: a in balances ==> r[a] == balances[a]
  {
    map a | a in balances :: balances[a] as nat
  }

  lemma SetBalance(balances: Balances, a: Bytes, amount: U64)
    ensures Held(balances[a := amount]) == Held(balances) - BalanceOf(balances, a) + amount
    ensures BalanceOf(balances, a) <= Held(balances)
  {
    var m := Amounts(balances);
    assert Amounts(balances[a := amount]) == m[a := amount as nat];
    if a in m {
      TotalUpdate(m, a, amount);
      ValueWithinTotal(m, a);
    } else {
      TotalInsert(m, a, amount);
    }
  }

  /** A payment raises the balances by the output's value exactly: the fee only moves, also
      when the recipient is the treasury or cannot pay it. */
  lemma PaymentIsExact(cfg: Config, balances: Balances, out: TxOutput, isCoinbase: bool)
    requires out.address != [] && Held(balances) + out.value <= U64_MAX
    ensures Held(PayOutput(cfg, balances, out, isCoinbase)) == Held(balances) + out.value
  {
    hide Held, NetworkFee;
    var credited := Credit(balances, out.address, out.value);
    SetBalance(balances, out.address, 0);
    CreditIsExact(balances, out.address, out.value);
    var fee := Min(NetworkFee(out.value), out.value);
    var held := BalanceOf(credited, out.address);
    if fee <= held {
      SetBalance(credited, out.address, held - fee);
      var debited := credited[out.address := held - fee];
      CreditIsExact(debited, cfg.treasuryAddress, fee);
    }
  }

  lemma CreditIsExact(balances: Balances, a: Bytes, amount: U64)
    requires Held(balances) + amount <= U64_MAX
    ensures Held(Credit(balances, a, amount)) == Held(balances) + if a == [] then 0 else amount
  {
    hide Held;
    SetBalance(balances, a, 0);
    if a != [] {
      SetBalance(balances, a, BalanceOf(balances, a) + amount);
    }
  }

  function PaidOut(txs: seq<Transaction>): nat {
    if txs == [] then 0 else OutputSumFrom(txs[0].outputs, 0) + PaidOut(txs[1..])
  }

  lemma {:induction false} OutputsPaid(cfg: Config, utxos: Utxos, balances: Balances, tx: Transaction, i: nat,
                                      height: nat, isCoinbase: bool)
    requires i <= |tx.outputs| && forall out <- tx.outputs :: out.address != []
    requires Held(balances) + OutputSumFrom(tx.outputs, i) <= U64_MAX
    ensures var a := AddOutputs(cfg, utxos, balances, tx, i, height, isCoinbase);
            a.ok ==> Held(a.balances) == Held(balances) + OutputSumFrom(tx.outputs, i)
    decreases |tx.outputs| - i
  {
    hide Held, PayOutput;
    if i < |tx.outputs| && TxInput(tx.txHash, i) !in utxos {
      var out := tx.outputs[i];
      assert out in tx.outputs;
      PaymentIsExact(cfg, balances, out, isCoinbase);
      OutputsPaid(cfg, utxos[TxInput(tx.txHash, i) := Utxo(out.value, out.address, height, isCoinbase)],
                  PayOutput(cfg, balances, out, isCoinbase), tx, i + 1, height, isCoinbase);
    }
  }

  /** Balances are credited for outputs and never debited for inputs: an applied block raises
      their total by everything its transactions pay, whatever they spend. */
  lemma {:induction false} BalancesCountEveryOutput(cfg: Config, rules: Rules, utxos: Utxos, balances: Balances,
                                                   txs: seq<Transaction>, height: nat, isCoinbase: bool)
    requires forall tx <- txs, out <- tx.outputs :: out.address != []
    requires Held(balances) + PaidOut(txs) <= U64_MAX
    ensures var a := ApplyTxs(cfg, rules, utxos, balances, txs, height, isCoinbase);
            a.ok ==> Held(a.balances) == Held(balances) + PaidOut(txs)
    decreases txs
  {
    hide Held, AddOutputs, SpendInputs, OutputSumFrom;
    if txs != [] {
      assert txs[0] in txs;
      var spent := SpendInputs(rules, utxos, txs[0].inputs, height).0;
      OutputsPaid(cfg, spent, balances, txs[0], 0, height, isCoinbase);
      var a := AddOutputs(cfg, spent, balances, txs[0], 0, height, isCoinbase);
      if a.ok {
        BalancesCountEveryOutput(cfg, rules, a.utxos, a.balances, txs[1..], height, false);
      }
    }
  }

  // ---------------------------------------------------------------- base fee

  /** addBlock never sets the gas a block used, so the base fee it adjusts can only fall. */
  lemma BaseFeeOnlyFalls(cfg: Config, rules: Rules, st: Ledger, env: Env, miner: Bytes, txs: seq<Transaction>)
    requires Ready(cfg, st) && st.baseFee >= 1
    ensures var (after, ok) := AddBlock(cfg, rules, st, env, miner, txs);
            && 1 <= after.baseFee <= st.baseFee
            && (after.baseFee == st.baseFee <==> !ok || st.baseFee == 1 || cfg.targetGasPerBlock == 0)
  {
    hide ApplyTxs, RolledBack, ValidTransactions, Coinbase, Reward, NewBlock;
  }
}
