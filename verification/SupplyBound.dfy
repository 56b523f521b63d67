/** What addBlock keeps: the unspent value never exceeds the supply, nor the supply its maximum
    (src/blockchain.cpp:292-527). */
module SupplyBound {
  import opened Wrappers
  import opened ByteStrings
  import opened ChainTypes
  import opened MapSums
  import opened LedgerState

  // ---------------------------------------------------------------- unspent value

  ghost function Values(utxos: Utxos): (r: map<TxInput, nat>)
    ensures r.Keys == utxos.Keys && forall o :: o in utxos ==> r[o] == utxos[o].value
  {
    map o | o in utxos :: utxos[o].value as nat
  }

  /** The total unspent value. */
  ghost function Unspent(utxos: Utxos): nat {
    Total(Values(utxos))
  }

  lemma UnspentAdd(utxos: Utxos, o: TxInput, u: Utxo)
    requires o !in utxos
    ensures Unspent(utxos[o := u]) == Unspent(utxos) + u.value
  {
    TotalInsert(Values(utxos), o, u.value);
    assert Values(utxos[o := u]) == Values(utxos)[o := u.value as nat];
  }

  lemma UnspentPart(part: Utxos, whole: Utxos)
    requires forall o :: o in part ==> o in whole && part[o] == whole[o]
    ensures Unspent(part) <= Unspent(whole)
  {
    TotalPart(Values(part), Values(whole));
  }

  function Restrict(utxos: Utxos, outpoints: set<TxInput>): (r: Utxos)
    ensures r.Keys == utxos.Keys * outpoints && forall o :: o in r ==> r[o] == utxos[o]
  {
    map o | o in utxos && o in outpoints :: utxos[o]
  }

  /** The value some outpoints had when the block was checked. */
  ghost function ValueOf(utxos: Utxos, outpoints: set<TxInput>): nat {
    Unspent(Restrict(utxos, outpoints))
  }

  lemma ValueOfAdd(utxos: Utxos, s: set<TxInput>, o: TxInput)
    requires o in utxos && o !in s
    ensures ValueOf(utxos, s + {o}) == ValueOf(utxos, s) + utxos[o].value
  {
    UnspentAdd(Restrict(utxos, s), o, utxos[o]);
    assert Restrict(utxos, s)[o := utxos[o]] == Restrict(utxos, s + {o});
  }

  lemma ValueOfNothing(utxos: Utxos)
    ensures ValueOf(utxos, {}) == 0
  {
    assert Values(Restrict(utxos, {})).Keys == {};
  }

  // ---------------------------------------------------------------- what a checked block promises

  function AllInputs(txs: seq<Transaction>): set<TxInput> {
    set i, k | 0 <= i < |txs| && 0 <= k < |txs[i].inputs| :: txs[i].inputs[k]
  }

  lemma AllInputsStep(txs: seq<Transaction>)
    requires txs != []
    ensures AllInputs(txs) == InputSet(txs[0].inputs) + AllInputs(txs[1..])
  {
    var a, b := AllInputs(txs), InputSet(txs[0].inputs) + AllInputs(txs[1..]);
    forall o | o in a
      ensures o in b
    {
      var i, k :| 0 <= i < |txs| && 0 <= k < |txs[i].inputs| && txs[i].inputs[k] == o;
      if i > 0 {
        assert txs[1..][i - 1].inputs[k] == o;
      }
    }
    forall o | o in b
      ensures o in a
    {
      if o !in InputSet(txs[0].inputs) {
        var i, k :| 0 <= i < |txs[1..]| && 0 <= k < |txs[1..][i].inputs| && txs[1..][i].inputs[k] == o;
        assert txs[i + 1].inputs[k] == o;
      }
    }
  }

  /** Checked inputs are present and new, and their wrapped sum is their value. */
  lemma {:induction false} CheckedInputsMeaning(rules: Rules, utxos: Utxos, tx: Transaction, inputs: seq<TxInput>,
                                               spent: set<TxInput>, sum: U64)
    requires CheckedInputs(rules, utxos, tx, inputs, spent, sum).Some?
    ensures var (total, marked) := CheckedInputs(rules, utxos, tx, inputs, spent, sum).value;
            && InputSet(inputs) <= utxos.Keys && InputSet(inputs) !! spent
            && marked == spent + InputSet(inputs)
            && total == (sum + ValueOf(utxos, InputSet(inputs))) % U64_LIMIT
    decreases inputs
  {
    hide ValueOf, SignatureFine;
    if inputs == [] {
      assert InputSet(inputs) == {};
      ValueOfNothing(utxos);
    } else {
      hide InputSet;
      var o, tail := inputs[0], InputSet(inputs[1..]);
      CheckedInputsMeaning(rules, utxos, tx, inputs[1..], spent + {o}, (sum + utxos[o].value) % U64_LIMIT);
      InputSetStep(inputs);
      ValueOfAdd(utxos, tail, o);
      assert tail + {o} == InputSet(inputs);
      WrapTwice(sum + utxos[o].value, ValueOf(utxos, tail));
    }
  }

  lemma WrapTwice(a: nat, b: nat)
    ensures (a % U64_LIMIT + b) % U64_LIMIT == (a + b) % U64_LIMIT
  {
  }

  /** The 64-bit value check of an accepted transaction means what it says exactly when the sum
      of its outputs fits 64 bits. */
  lemma ValueCheckExact(rules: Rules, utxos: Utxos, tx: Transaction, spent: set<TxInput>)
    requires Unspent(utxos) < U64_LIMIT
    requires CheckedInputs(rules, utxos, tx, tx.inputs, spent, 0).Some?
    requires OutputSum(tx.outputs) % U64_LIMIT <= CheckedInputs(rules, utxos, tx, tx.inputs, spent, 0).value.0
    ensures OutputSum(tx.outputs) <= ValueOf(utxos, InputSet(tx.inputs)) <==> OutputSum(tx.outputs) < U64_LIMIT
  {
    hide SignatureFine, InputSet, CheckedInputs;
    CheckedInputsMeaning(rules, utxos, tx, tx.inputs, spent, 0);
    UnspentPart(Restrict(utxos, InputSet(tx.inputs)), utxos);
  }

  ghost predicate OutputsFit(txs: seq<Transaction>) {
    forall i :: 0 <= i < |txs| ==> OutputSum(txs[i].outputs) < U64_LIMIT
  }

  // ---------------------------------------------------------------- application and value

  lemma {:induction false} SpendMeaning(rules: Rules, utxos: Utxos, inputs: seq<TxInput>, height: nat)
    ensures var (left, ok) := SpendInputs(rules, utxos, inputs, height);
            && (ok ==> left == utxos - InputSet(inputs))
            && (forall o :: o in left ==> o in utxos && left[o] == utxos[o])
    decreases inputs
  {
    if inputs == [] {
      assert utxos - InputSet(inputs) == utxos;
    } else if inputs[0] in utxos && rules.spendable(utxos[inputs[0]], height) {
      SpendMeaning(rules, utxos - {inputs[0]}, inputs[1..], height);
      InputSetStep(inputs);
      assert utxos - {inputs[0]} - InputSet(inputs[1..]) == utxos - InputSet(inputs);
    }
  }

  /** The sum of the outputs from i on. */
  function OutputSumFrom(outputs: seq<TxOutput>, i: nat): nat
    requires i <= |outputs|
    decreases |outputs| - i
  {
    if i == |outputs| then 0 else outputs[i].value + OutputSumFrom(outputs, i + 1)
  }

  lemma {:induction false} SumFromFront(outputs: seq<TxOutput>, i: nat)
    requires i <= |outputs|
    ensures OutputSum(outputs[..i]) + OutputSumFrom(outputs, i) == OutputSum(outputs)
    decreases |outputs| - i
  {
    if i == |outputs| {
      assert outputs[..i] == outputs;
    } else {
      SumFromFront(outputs, i + 1);
      assert outputs[..i + 1][..i] == outputs[..i];
    }
  }

  /** Adding outputs raises the value outside any set of outpoints by at most their sum. */
  lemma {:induction false} AddMeaning(cfg: Config, utxos: Utxos, balances: Balances, tx: Transaction, i: nat,
                                     height: nat, isCoinbase: bool, ignored: set<TxInput>)
    requires i <= |tx.outputs|
    ensures var a := AddOutputs(cfg, utxos, balances, tx, i, height, isCoinbase);
            a.ok ==> Unspent(a.utxos - ignored) <= Unspent(utxos - ignored) + OutputSumFrom(tx.outputs, i)
    decreases |tx.outputs| - i
  {
    hide PayOutput;
    if i < |tx.outputs| {
      var o, out := TxInput(tx.txHash, i), tx.outputs[i];
      if o !in utxos {
        var u := Utxo(out.value, out.address, height, isCoinbase);
        AddMeaning(cfg, utxos[o := u], PayOutput(cfg, balances, out, isCoinbase), tx, i + 1, height, isCoinbase,
                   ignored);
        if o in ignored {
          assert utxos[o := u] - ignored == utxos - ignored;
        } else {
          UnspentAdd(utxos - ignored, o, u);
          assert utxos[o := u] - ignored == (utxos - ignored)[o := u];
        }
      }
    }
  }

  /** Spending a transaction's inputs and adding its outputs, seen from outside the inputs still
      to be spent. */
  lemma ApplyOneMeaning(cfg: Config, rules: Rules, utxos: Utxos, balances: Balances, tx: Transaction, height: nat,
                        isCoinbase: bool, pending: set<TxInput>)
    requires SpendInputs(rules, utxos, tx.inputs, height).1
    ensures var spent := SpendInputs(rules, utxos, tx.inputs, height).0;
            var a := AddOutputs(cfg, spent, balances, tx, 0, height, isCoinbase);
            a.ok ==> Unspent(a.utxos - pending)
                     <= Unspent(utxos - (InputSet(tx.inputs) + pending)) + OutputSum(tx.outputs)
  {
    var spent := SpendInputs(rules, utxos, tx.inputs, height).0;
    SpendMeaning(rules, utxos, tx.inputs, height);
    AddMeaning(cfg, spent, balances, tx, 0, height, isCoinbase, pending);
    SumFromFront(tx.outputs, 0);
    assert utxos - InputSet(tx.inputs) - pending == utxos - (InputSet(tx.inputs) + pending);
  }

  lemma {:induction false} ValueOfUnion(utxos: Utxos, inputs: seq<TxInput>, rest: set<TxInput>, rules: Rules,
                                       tx: Transaction, spent: set<TxInput>, sum: U64)
    requires CheckedInputs(rules, utxos, tx, inputs, spent, sum).Some? && InputSet(inputs) !! rest
    ensures ValueOf(utxos, InputSet(inputs) + rest) == ValueOf(utxos, InputSet(inputs)) + ValueOf(utxos, rest)
    decreases inputs
  {
    hide ValueOf, SignatureFine;
    if inputs == [] {
      ValueOfNothing(utxos);
      assert InputSet(inputs) == {} && InputSet(inputs) + rest == rest;
    } else {
      var o, tail := inputs[0], InputSet(inputs[1..]);
      InputSetStep(inputs);
      CheckedInputsMeaning(rules, utxos, tx, inputs[1..], spent + {o}, (sum + utxos[o].value) % U64_LIMIT);
      ValueOfUnion(utxos, inputs[1..], rest, rules, tx, spent + {o}, (sum + utxos[o].value) % U64_LIMIT);
      ValueOfAdd(utxos, tail, o);
      ValueOfAdd(utxos, tail + rest, o);
      assert tail + {o} == InputSet(inputs) && tail + rest + {o} == InputSet(inputs) + rest;
    }
  }

  lemma {:induction false} RestIsNew(rules: Rules, utxos: Utxos, txs: seq<Transaction>, spent: set<TxInput>)
    requires CheckedRest(rules, utxos, txs, spent)
    ensures AllInputs(txs) !! spent && AllInputs(txs) <= utxos.Keys
    decreases txs
  {
    if txs != [] {
      var tx := txs[0];
      CheckedInputsMeaning(rules, utxos, tx, tx.inputs, spent, 0);
      RestIsNew(rules, utxos, txs[1..], spent + InputSet(tx.inputs));
      AllInputsStep(txs);
    }
  }

  /** The heart of the bound. Count every input still to be spent at the value it was checked
      with, and everything else at its present value: applying checked transactions never
      raises that sum, even if an outpoint is re-created with another value on the way. */
  lemma {:induction false} ApplyKeepsValue(cfg: Config, rules: Rules, checked: Utxos, utxos: Utxos, balances: Balances,
                                          txs: seq<Transaction>, spent: set<TxInput>, height: nat)
    requires CheckedRest(rules, checked, txs, spent) && OutputsFit(txs) && Unspent(checked) < U64_LIMIT
    ensures var a := ApplyTxs(cfg, rules, utxos, balances, txs, height, false);
            a.ok ==> Unspent(a.utxos) <= Unspent(utxos - AllInputs(txs)) + ValueOf(checked, AllInputs(txs))
    decreases txs
  {
    if txs == [] {
      assert utxos - AllInputs(txs) == utxos;
    } else {
      var tx, rest := txs[0], txs[1..];
      var s := SpendInputs(rules, utxos, tx.inputs, height);
      var a := AddOutputs(cfg, s.0, balances, tx, 0, height, false);
      if s.1 && a.ok {
        var marked := CheckedInputs(rules, checked, tx, tx.inputs, spent, 0).value.1;
        CheckedInputsMeaning(rules, checked, tx, tx.inputs, spent, 0);
        RestIsNew(rules, checked, rest, marked);
        ApplyKeepsValue(cfg, rules, checked, a.utxos, a.balances, rest, marked, height);
        ApplyOneMeaning(cfg, rules, utxos, balances, tx, height, false, AllInputs(rest));
        ValueOfUnion(checked, tx.inputs, AllInputs(rest), rules, tx, spent, 0);
        ValueCheckExact(rules, checked, tx, spent);
        AllInputsStep(txs);
      }
    }
  }

  // ---------------------------------------------------------------- rollback

  ghost predicate IsOutputOf(o: TxInput, txs: seq<Transaction>) {
    exists k :: 0 <= k < |txs| && o.prevTxHash == txs[k].txHash && 0 <= o.outputIndex < |txs[k].outputs|
  }

  /** Every entry is untouched or an output of the block. */
  ghost predicate MadeFrom(utxos: Utxos, before: Utxos, txs: seq<Transaction>) {
    forall o :: o in utxos ==> (o in before && utxos[o] == before[o]) || IsOutputOf(o, txs)
  }

  lemma {:induction false} OutputsMadeFrom(cfg: Config, utxos: Utxos, balances: Balances, tx: Transaction, i: nat,
                                          height: nat, isCoinbase: bool, before: Utxos, all: seq<Transaction>)
    requires i <= |tx.outputs| && tx in all && MadeFrom(utxos, before, all)
    ensures MadeFrom(AddOutputs(cfg, utxos, balances, tx, i, height, isCoinbase).utxos, before, all)
    decreases |tx.outputs| - i
  {
    hide PayOutput;
    if i < |tx.outputs| && TxInput(tx.txHash, i) !in utxos {
      var o, out := TxInput(tx.txHash, i), tx.outputs[i];
      assert IsOutputOf(o, all);
      var next := utxos[o := Utxo(out.value, out.address, height, isCoinbase)];
      assert MadeFrom(next, before, all);
      OutputsMadeFrom(cfg, next, PayOutput(cfg, balances, out, isCoinbase), tx, i + 1, height, isCoinbase, before, all);
    }
  }

  lemma {:induction false} AppliedMadeFrom(cfg: Config, rules: Rules, utxos: Utxos, balances: Balances,
                                          txs: seq<Transaction>, height: nat, isCoinbase: bool, before: Utxos,
                                          all: seq<Transaction>)
    requires MadeFrom(utxos, before, all) && forall tx <- txs :: tx in all
    ensures MadeFrom(ApplyTxs(cfg, rules, utxos, balances, txs, height, isCoinbase).utxos, before, all)
    decreases txs
  {
    hide AddOutputs, SpendInputs, IsOutputOf;
    if txs != [] {
      var spent := SpendInputs(rules, utxos, txs[0].inputs, height).0;
      SpendMeaning(rules, utxos, txs[0].inputs, height);
      assert txs[0] in all;
      OutputsMadeFrom(cfg, spent, balances, txs[0], 0, height, isCoinbase, before, all);
      var a := AddOutputs(cfg, spent, balances, txs[0], 0, height, isCoinbase);
      AppliedMadeFrom(cfg, rules, a.utxos, a.balances, txs[1..], height, false, before, all);
    }
  }

  /** Rollback relies on this: at the greatest height nothing is held back. */
  ghost predicate AllSpendableAtEnd(rules: Rules) {
    forall u :: rules.spendable(u, U64_MAX)
  }

  ghost predicate IsOutputFrom(o: TxInput, tx: Transaction, i: nat) {
    o.prevTxHash == tx.txHash && i <= o.outputIndex < |tx.outputs|
  }

  lemma {:induction false} RemoveMeaning(rules: Rules, utxos: Utxos, tx: Transaction, i: nat)
    requires AllSpendableAtEnd(rules) && i <= |tx.outputs|
    ensures var left := RemoveOutputs(rules, utxos, tx, i);
            && (forall o :: o in left <==> o in utxos && !IsOutputFrom(o, tx, i))
            && (forall o :: o in left ==> left[o] == utxos[o])
    decreases |tx.outputs| - i
  {
    if i < |tx.outputs| {
      var o := TxInput(tx.txHash, i);
      var next := SpendInputs(rules, utxos, [o], U64_MAX).0;
      assert [o][1..] == [] && (o !in utxos ==> utxos - {o} == utxos);
      assert SpendInputs(rules, utxos - {o}, [], U64_MAX).0 == utxos - {o};
      assert next == utxos - {o} by {
        assert o in utxos ==> rules.spendable(utxos[o], U64_MAX);
      }
      RemoveMeaning(rules, next, tx, i + 1);
      assert forall p :: IsOutputFrom(p, tx, i) <==> p == o || IsOutputFrom(p, tx, i + 1);
    }
  }

  /** Outputs are added exactly when none of their keys is taken, and nothing else changes. */
  lemma {:induction false} AddOutputsKeys(cfg: Config, utxos: Utxos, balances: Balances, tx: Transaction, i: nat,
                                         height: nat, isCoinbase: bool)
    requires i <= |tx.outputs|
    ensures var a := AddOutputs(cfg, utxos, balances, tx, i, height, isCoinbase);
            && (a.ok <==> forall o :: o in utxos ==> !IsOutputFrom(o, tx, i))
            && (forall o :: o in utxos ==> o in a.utxos && a.utxos[o] == utxos[o])
            && (forall o :: o in a.utxos ==> o in utxos || IsOutputFrom(o, tx, i))
    decreases |tx.outputs| - i
  {
    hide PayOutput;
    if i < |tx.outputs| {
      var o, out := TxInput(tx.txHash, i), tx.outputs[i];
      assert IsOutputFrom(o, tx, i);
      assert forall p :: IsOutputFrom(p, tx, i) <==> p == o || IsOutputFrom(p, tx, i + 1);
      if o !in utxos {
        AddOutputsKeys(cfg, utxos[o := Utxo(out.value, out.address, height, isCoinbase)],
                       PayOutput(cfg, balances, out, isCoinbase), tx, i + 1, height, isCoinbase);
      }
    }
  }

  lemma OutputOfLast(o: TxInput, txs: seq<Transaction>)
    requires txs != []
    ensures IsOutputOf(o, txs) <==> IsOutputOf(o, txs[..|txs| - 1]) || IsOutputFrom(o, txs[|txs| - 1], 0)
  {
    var init, last := txs[..|txs| - 1], |txs| - 1;
    if IsOutputOf(o, txs) && !IsOutputFrom(o, txs[last], 0) {
      var k :| 0 <= k < |txs| && o.prevTxHash == txs[k].txHash && 0 <= o.outputIndex < |txs[k].outputs|;
      assert init[k] == txs[k];
    }
    if IsOutputOf(o, init) {
      var k :| 0 <= k < |init| && o.prevTxHash == init[k].txHash && 0 <= o.outputIndex < |init[k].outputs|;
      assert txs[k] == init[k];
    }
  }

  lemma NoOutputs()
    ensures forall o :: !IsOutputOf(o, [])
  {
  }

  /** Rolling a block back takes away its outputs and nothing else. */
  lemma {:induction false} RollbackMeaning(rules: Rules, utxos: Utxos, txs: seq<Transaction>)
    requires AllSpendableAtEnd(rules)
    ensures var left := RolledBack(rules, utxos, txs);
            && (forall o :: o in left <==> o in utxos && !IsOutputOf(o, txs))
            && (forall o :: o in left ==> left[o] == utxos[o])
    decreases txs
  {
    hide RemoveOutputs, IsOutputOf, IsOutputFrom;
    if txs == [] {
      NoOutputs();
    } else {
      var init, tx := txs[..|txs| - 1], txs[|txs| - 1];
      var next := RemoveOutputs(rules, utxos, tx, 0);
      RemoveMeaning(rules, utxos, tx, 0);
      RollbackMeaning(rules, next, init);
      forall o
        ensures IsOutputOf(o, txs) <==> IsOutputOf(o, init) || IsOutputFrom(o, tx, 0)
      {
        OutputOfLast(o, txs);
      }
    }
  }

  /** A failed application leaves, after rollback, at most what was there before. The spent
      inputs are not put back. */
  lemma FailureDestroysOnly(cfg: Config, rules: Rules, utxos: Utxos, balances: Balances, all: seq<Transaction>,
                            height: nat)
    requires AllSpendableAtEnd(rules)
    ensures var left := RolledBack(rules, ApplyTxs(cfg, rules, utxos, balances, all, height, true).utxos, all);
            && (forall o :: o in left ==> o in utxos && left[o] == utxos[o])
            && Unspent(left) <= Unspent(utxos)
  {
    hide ApplyTxs, RolledBack, IsOutputOf;
    var a := ApplyTxs(cfg, rules, utxos, balances, all, height, true);
    AppliedMadeFrom(cfg, rules, utxos, balances, all, height, true, utxos, all);
    RollbackMeaning(rules, a.utxos, all);
    UnspentPart(RolledBack(rules, a.utxos, all), utxos);
  }

  // ---------------------------------------------------------------- the supply bound

  ghost predicate Bounded(cfg: Config, st: Ledger) {
    Unspent(st.utxos) <= st.totalSupply <= cfg.maxSupply
  }

  ghost predicate Ready(cfg: Config, st: Ledger) {
    st.chain == [] || cfg.rewardSchedule != []
  }

  /** A reward that appears only at the second clock reading, when there is no coinbase, still
      fits between the unspent value and the supply. */
  ghost predicate LateRewardFits(cfg: Config, st: Ledger, env: Env)
    requires Ready(cfg, st)
  {
    Allowed(cfg, st, env.rewardClock) > 0
    || Unspent(st.utxos) + Allowed(cfg, st, env.checkClock) <= st.totalSupply
  }

  /** No unspent output was made by a transaction with this hash. */
  ghost predicate NewHash(utxos: Utxos, hash: Bytes) {
    forall o :: o in utxos ==> o.prevTxHash != hash
  }

  lemma CoinbaseSum(cfg: Config, miner: Bytes, reward: U64, hash: Bytes)
    ensures OutputSum(Coinbase(cfg, miner, reward, hash).outputs) == reward
  {
    var outs := Coinbase(cfg, miner, reward, hash).outputs;
    assert outs[..1] == [outs[0]] && outs[..1][..0] == [];
    assert OutputSum(outs[..1]) == OutputSum([]) + outs[0].value;
  }

  /** Applying a whole checked block raises the unspent value by at most its first
      transaction's outputs. */
  lemma ApplyBlockValue(cfg: Config, rules: Rules, st: Ledger, all: seq<Transaction>, height: nat)
    requires all != [] && CheckedRest(rules, st.utxos, all[1..], {}) && OutputsFit(all) && Unspent(st.utxos) < U64_LIMIT
    ensures var a := ApplyTxs(cfg, rules, st.utxos, st.balances, all, height, true);
            a.ok ==> Unspent(a.utxos) <= Unspent(st.utxos) + OutputSum(all[0].outputs)
  {
    hide AddOutputs, SpendInputs;
    var tx, rest := all[0], all[1..];
    var s := SpendInputs(rules, st.utxos, tx.inputs, height);
    var a := AddOutputs(cfg, s.0, st.balances, tx, 0, height, true);
    if s.1 && a.ok {
      var pending := AllInputs(rest);
      ApplyKeepsValue(cfg, rules, st.utxos, a.utxos, a.balances, rest, {}, height);
      ApplyOneMeaning(cfg, rules, st.utxos, st.balances, tx, height, true, pending);
      SplitValue(st.utxos, pending);
      UnspentPart(st.utxos - (InputSet(tx.inputs) + pending), st.utxos - pending);
    }
  }

  lemma SplitValue(utxos: Utxos, s: set<TxInput>)
    ensures Unspent(utxos - s) + ValueOf(utxos, s) == Unspent(utxos)
  {
    var values := Values(utxos);
    TotalSplit(values, s);
    assert Values(utxos - s) == values - s;
    assert Values(Restrict(utxos, s)) == map o | o in values && o in s :: values[o];
  }

  /** Accepted or failed, a call keeps unspent value <= supply <= maximum, so the subtraction
      in the reward clamp never wraps. */
  lemma AddBlockKeepsBound(cfg: Config, rules: Rules, st: Ledger, env: Env, miner: Bytes, txs: seq<Transaction>)
    requires Ready(cfg, st) && Bounded(cfg, st) && AllSpendableAtEnd(rules)
    requires OutputsFit(txs) && LateRewardFits(cfg, st, env)
    ensures Remaining(cfg, st) == cfg.maxSupply - st.totalSupply
    ensures Bounded(cfg, AddBlock(cfg, rules, st, env, miner, txs).0)
  {
    hide ApplyTxs, RolledBack, CheckedRest, Coinbase, HasDuplicate, Unspent, OutputsFit, NewBlock, AdjustedBaseFee,
         OutputSum;
    var reward := Allowed(cfg, st, env.rewardClock);
    if miner != [] && (reward > 0 ==> env.coinbaseHash.Some?) {
      var all := WithCoinbase(cfg, miner, reward, env.coinbaseHash, txs);
      if ValidTransactions(cfg, rules, st, all, env.checkClock) {
        FailureDestroysOnly(cfg, rules, st.utxos, st.balances, all, |st.chain|);
        SuccessWithinReward(cfg, rules, st, env, miner, txs, all);
      }
    }
  }

  lemma SuccessWithinReward(cfg: Config, rules: Rules, st: Ledger, env: Env, miner: Bytes, txs: seq<Transaction>,
                            all: seq<Transaction>)
    requires Ready(cfg, st) && Bounded(cfg, st) && OutputsFit(txs) && LateRewardFits(cfg, st, env)
    requires Allowed(cfg, st, env.rewardClock) > 0 ==> env.coinbaseHash.Some?
    requires all == WithCoinbase(cfg, miner, Allowed(cfg, st, env.rewardClock), env.coinbaseHash, txs)
    requires ValidTransactions(cfg, rules, st, all, env.checkClock)
    ensures var a := ApplyTxs(cfg, rules, st.utxos, st.balances, all, |st.chain|, true);
            a.ok ==> Unspent(a.utxos) <= st.totalSupply + Allowed(cfg, st, env.rewardClock)
  {
    hide ApplyTxs, CheckedRest, Coinbase, HasDuplicate, Unspent, OutputSum;
    if all == [] {
      NothingApplied(cfg, rules, st, |st.chain|);
    } else {
      FirstFits(cfg, st, env, miner, txs, all);
      ApplyBlockValue(cfg, rules, st, all, |st.chain|);
    }
  }

  lemma NothingApplied(cfg: Config, rules: Rules, st: Ledger, height: nat)
    ensures ApplyTxs(cfg, rules, st.utxos, st.balances, [], height, true) == Applied(st.utxos, st.balances, true)
  {
  }

  /** The first transaction of an accepted block pays the reward, or, when there was none at the
      first clock reading, at most what is allowed at the second. */
  lemma FirstFits(cfg: Config, st: Ledger, env: Env, miner: Bytes, txs: seq<Transaction>, all: seq<Transaction>)
    requires Ready(cfg, st) && OutputsFit(txs) && all != []
    requires Allowed(cfg, st, env.rewardClock) > 0 ==> env.coinbaseHash.Some?
    requires all == WithCoinbase(cfg, miner, Allowed(cfg, st, env.rewardClock), env.coinbaseHash, txs)
    requires OutputSum(all[0].outputs) % U64_LIMIT <= Allowed(cfg, st, env.checkClock)
    ensures OutputsFit(all)
    ensures var reward := Allowed(cfg, st, env.rewardClock);
            if reward > 0 then OutputSum(all[0].outputs) == reward
            else OutputSum(all[0].outputs) <= Allowed(cfg, st, env.checkClock)
  {
    hide Coinbase;
    var reward := Allowed(cfg, st, env.rewardClock);
    if reward > 0 {
      CoinbaseSum(cfg, miner, reward, env.coinbaseHash.value);
    }
  }
}
