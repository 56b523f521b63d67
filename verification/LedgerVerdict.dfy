/** Exactly which calls addBlock accepts, and the outputs afterwards
    (src/blockchain.cpp:292-527). */
module LedgerVerdict {
  import opened Wrappers
  import opened ByteStrings
  import opened ChainTypes
  import opened LedgerState
  import opened SupplyBound
  import opened LedgerFailures
  import opened LedgerEffects

  /** The inputs of all transactions, in order. */
  function Named(txs: seq<Transaction>): seq<TxInput> {
    if txs == [] then [] else txs[0].inputs + Named(txs[1..])
  }

  lemma {:induction false} NamedInputs(txs: seq<Transaction>)
    ensures InputSet(Named(txs)) == AllInputs(txs)
  {
    hide InputSet, AllInputs;
    if txs == [] {
      NoTxsNoOutputs();
      NobodyNamed();
    } else {
      NamedInputs(txs[1..]);
      AllInputsStep(txs);
      Apart(txs[0].inputs, Named(txs[1..]), {});
    }
  }

  lemma NobodyNamed()
    ensures InputSet([]) == {} && NoRepeat([])
  {
  }

  /** Two lists one after the other, against outpoints already taken. */
  lemma Apart(a: seq<TxInput>, b: seq<TxInput>, taken: set<TxInput>)
    ensures InputSet(a + b) == InputSet(a) + InputSet(b)
    ensures NoRepeat(a + b) && InputSet(a + b) !! taken <==>
            NoRepeat(a) && InputSet(a) !! taken && NoRepeat(b) && InputSet(b) !! taken + InputSet(a)
  {
    var s := a + b;
    forall o
      ensures o in InputSet(s) <==> o in InputSet(a) || o in InputSet(b)
    {
      if i :| 0 <= i < |a| && a[i] == o {
        assert s[i] == o;
      }
      if i :| 0 <= i < |b| && b[i] == o {
        assert s[|a| + i] == o;
      }
    }
    RepeatsWithin(a, b);
  }

  lemma RepeatsWithin(a: seq<TxInput>, b: seq<TxInput>)
    ensures NoRepeat(a + b) <==> NoRepeat(a) && NoRepeat(b) && InputSet(a) !! InputSet(b)
  {
    var s := a + b;
    if NoRepeat(s) {
      assert forall i :: 0 <= i < |a| ==> a[i] == s[i];
      forall i, j | 0 <= i < j < |b|
        ensures b[i] != b[j]
      {
        assert s[|a| + i] == b[i] && s[|a| + j] == b[j];
      }
      forall i, j | 0 <= i < |a| && 0 <= j < |b|
        ensures a[i] != b[j]
      {
        assert s[i] == a[i] && s[|a| + j] == b[j];
      }
    }
    if NoRepeat(a) && NoRepeat(b) && InputSet(a) !! InputSet(b) {
      forall i, j | 0 <= i < j < |s|
        ensures s[i] != s[j]
      {
        assert i < |a| ==> s[i] in InputSet(a);
        assert |a| <= j ==> s[j] in InputSet(b);
      }
    }
  }

  // ---------------------------------------------------------------- the checks

  /** An input the checks let through: it exists, and a signed transaction is signed for it. */
  ghost predicate InputFine(rules: Rules, utxos: Utxos, tx: Transaction, o: TxInput) {
    o in utxos && (tx.r != Zeros(32) || tx.s != Zeros(32) ==> rules.recovers(tx, utxos[o].address))
  }

  lemma {:induction false} InputsExactly(rules: Rules, utxos: Utxos, tx: Transaction, inputs: seq<TxInput>,
                                        taken: set<TxInput>, sum: U64)
    ensures CheckedInputs(rules, utxos, tx, inputs, taken, sum).Some? <==>
            && NoRepeat(inputs) && InputSet(inputs) !! taken
            && forall o :: o in InputSet(inputs) ==> InputFine(rules, utxos, tx, o)
    decreases inputs
  {
    hide InputSet, NoRepeat;
    if inputs == [] {
      NobodyNamed();
    } else {
      var o, rest := inputs[0], inputs[1..];
      assert inputs == [o] + rest;
      Apart([o], rest, taken);
      OneInput(o);
      if o in utxos {
        InputsExactly(rules, utxos, tx, rest, taken + {o}, (sum + utxos[o].value) % U64_LIMIT);
      }
    }
  }

  lemma OneInput(o: TxInput)
    ensures NoRepeat([o]) && InputSet([o]) == {o}
  {
    assert [o][0] == o;
  }

  /** What each transaction after the first has to meet by itself. */
  ghost predicate Fine(rules: Rules, utxos: Utxos, tx: Transaction) {
    && |tx.txHash| == 64
    && (forall o :: o in InputSet(tx.inputs) ==> InputFine(rules, utxos, tx, o))
    && OutputSum(tx.outputs) % U64_LIMIT <= ValueOf(utxos, InputSet(tx.inputs)) % U64_LIMIT
  }

  lemma OneExactly(rules: Rules, utxos: Utxos, tx: Transaction, taken: set<TxInput>)
    ensures var checked := CheckedInputs(rules, utxos, tx, tx.inputs, taken, 0);
            && (|tx.txHash| == 64 && checked.Some? && OutputSum(tx.outputs) % U64_LIMIT <= checked.value.0 <==>
                  Fine(rules, utxos, tx) && NoRepeat(tx.inputs) && InputSet(tx.inputs) !! taken)
            && (checked.Some? ==> checked.value.1 == taken + InputSet(tx.inputs))
  {
    hide InputSet, NoRepeat, CheckedInputs, ValueOf, InputFine, OutputSum;
    InputsExactly(rules, utxos, tx, tx.inputs, taken, 0);
    if CheckedInputs(rules, utxos, tx, tx.inputs, taken, 0).Some? {
      CheckedInputsMeaning(rules, utxos, tx, tx.inputs, taken, 0);
    }
  }

  /** The checks pass exactly when every transaction is fine and no outpoint is named twice, by one
      transaction or by two. */
  lemma {:induction false} RestExactly(rules: Rules, utxos: Utxos, txs: seq<Transaction>, taken: set<TxInput>)
    ensures CheckedRest(rules, utxos, txs, taken) <==>
            && NoRepeat(Named(txs)) && InputSet(Named(txs)) !! taken
            && forall i :: 0 <= i < |txs| ==> Fine(rules, utxos, txs[i])
    decreases txs
  {
    hide InputSet, NoRepeat, CheckedInputs, Fine, OutputSum;
    if txs == [] {
      NobodyNamed();
    } else {
      var tx, rest := txs[0], txs[1..];
      OneExactly(rules, utxos, tx, taken);
      Apart(tx.inputs, Named(rest), taken);
      RestExactly(rules, utxos, rest, taken + InputSet(tx.inputs));
      assert forall i :: 0 < i < |txs| ==> txs[i] == rest[i - 1];
    }
  }

  // ---------------------------------------------------------------- the application

  lemma {:induction false} SpendExactly(rules: Rules, utxos: Utxos, inputs: seq<TxInput>, height: nat)
    ensures SpendInputs(rules, utxos, inputs, height).1 <==>
            NoRepeat(inputs) && Spendable(rules, utxos, InputSet(inputs), height)
    decreases inputs
  {
    hide InputSet, NoRepeat;
    if inputs == [] {
      NobodyNamed();
    } else {
      var o, rest := inputs[0], inputs[1..];
      assert inputs == [o] + rest;
      Apart([o], rest, {});
      OneInput(o);
      SpendExactly(rules, utxos - {o}, rest, height);
    }
  }

  ghost predicate Spendable(rules: Rules, utxos: Utxos, outpoints: set<TxInput>, height: nat) {
    forall o :: o in outpoints ==> o in utxos && rules.spendable(utxos[o], height)
  }

  /** The key of an output is free, or its holder is spent by the same or an earlier transaction. */
  ghost predicate KeyFree(utxos: Utxos, txs: seq<Transaction>, i: nat, k: nat)
    requires i < |txs|
  {
    TxInput(txs[i].txHash, k) in utxos ==> TxInput(txs[i].txHash, k) in AllInputs(txs[..i + 1])
  }

  ghost predicate KeysFree(utxos: Utxos, txs: seq<Transaction>) {
    forall i, k :: 0 <= i < |txs| && 0 <= k < |txs[i].outputs| ==> KeyFree(utxos, txs, i, k)
  }

  /** The outpoints after the first transaction, and what that does to the later keys. */
  ghost predicate FirstDone(utxos: Utxos, after: Utxos, tx: Transaction) {
    forall o :: o in after <==> (o in utxos && o !in InputSet(tx.inputs)) || IsOutputFrom(o, tx, 0)
  }

  lemma KeyFreeLater(utxos: Utxos, after: Utxos, txs: seq<Transaction>, i: nat, k: nat)
    requires 0 < i < |txs| && DistinctHashes(txs) && FirstDone(utxos, after, txs[0])
    ensures KeyFree(utxos, txs, i, k) <==> KeyFree(after, txs[1..], i - 1, k)
  {
    hide InputSet, AllInputs;
    AllInputsStep(txs[..i + 1]);
    assert txs[..i + 1][1..] == txs[1..][..i] && txs[1..][i - 1] == txs[i];
    assert !IsOutputFrom(TxInput(txs[i].txHash, k), txs[0], 0);
  }

  lemma KeyFreeFirst(utxos: Utxos, txs: seq<Transaction>, k: nat)
    requires txs != []
    ensures KeyFree(utxos, txs, 0, k) <==>
            (TxInput(txs[0].txHash, k) in utxos ==> TxInput(txs[0].txHash, k) in InputSet(txs[0].inputs))
  {
    hide InputSet, AllInputs;
    AllInputsStep(txs[..1]);
    NoTxsNoOutputs();
    assert txs[..1][1..] == [];
  }

  ghost predicate FirstFree(utxos: Utxos, tx: Transaction) {
    forall o :: o in utxos && IsOutputFrom(o, tx, 0) ==> o in InputSet(tx.inputs)
  }

  lemma KeysFreeStep(utxos: Utxos, after: Utxos, txs: seq<Transaction>)
    requires txs != [] && DistinctHashes(txs) && FirstDone(utxos, after, txs[0])
    ensures KeysFree(utxos, txs) <==> FirstFree(utxos, txs[0]) && KeysFree(after, txs[1..])
  {
    hide InputSet, AllInputs, KeyFree, FirstDone, DistinctHashes;
    var rest := txs[1..];
    assert forall i :: 0 <= i < |rest| ==> rest[i] == txs[i + 1];
    forall k: nat
      ensures KeyFree(utxos, txs, 0, k) <==>
              (TxInput(txs[0].txHash, k) in utxos ==> TxInput(txs[0].txHash, k) in InputSet(txs[0].inputs))
    {
      KeyFreeFirst(utxos, txs, k);
    }
    forall i: nat, k: nat | 0 < i < |txs|
      ensures KeyFree(utxos, txs, i, k) <==> KeyFree(after, rest, i - 1, k)
    {
      KeyFreeLater(utxos, after, txs, i, k);
    }
    if KeysFree(utxos, txs) {
      forall o | o in utxos && IsOutputFrom(o, txs[0], 0)
        ensures o in InputSet(txs[0].inputs)
      {
        assert o == TxInput(txs[0].txHash, o.outputIndex) && KeyFree(utxos, txs, 0, o.outputIndex);
      }
      forall i, k | 0 <= i < |rest| && 0 <= k < |rest[i].outputs|
        ensures KeyFree(after, rest, i, k)
      {
        assert KeyFree(utxos, txs, i + 1, k);
      }
    }
    if FirstFree(utxos, txs[0]) && KeysFree(after, rest) {
      forall i, k | 0 <= i < |txs| && 0 <= k < |txs[i].outputs|
        ensures KeyFree(utxos, txs, i, k)
      {
        if i == 0 {
          assert IsOutputFrom(TxInput(txs[0].txHash, k), txs[0], 0);
        } else {
          assert rest[i - 1] == txs[i] && KeyFree(after, rest, i - 1, k);
        }
      }
    }
  }

  /** When all inputs are there and none is named twice, the application goes through exactly when
      they are spendable and the output keys are free. */
  lemma {:induction false} ApplyExactly(cfg: Config, rules: Rules, utxos: Utxos, balances: Balances,
                                       txs: seq<Transaction>, height: nat, first: bool)
    requires DistinctHashes(txs) && NoRepeat(Named(txs)) && AllInputs(txs) <= utxos.Keys
    ensures ApplyTxs(cfg, rules, utxos, balances, txs, height, first).ok <==>
            Spendable(rules, utxos, AllInputs(txs), height) && KeysFree(utxos, txs)
    decreases txs
  {
    hide InputSet, AllInputs, NoRepeat, KeysFree, FirstFree, FirstDone, AddOutputs, SpendInputs, DistinctHashes,
         IsOutputFrom;
    if txs == [] {
      NoTxsNoOutputs();
      NoKeysTaken(utxos);
    } else {
      var tx, rest := txs[0], txs[1..];
      var (spent, ok) := SpendInputs(rules, utxos, tx.inputs, height);
      NamedInputs(txs);
      NamedInputs(rest);
      Apart(tx.inputs, Named(rest), {});
      SpendExactly(rules, utxos, tx.inputs, height);
      AllInputsStep(txs);
      if ok {
        FirstExactly(cfg, rules, utxos, balances, tx, height, first);
        var added := AddOutputs(cfg, spent, balances, tx, 0, height, first);
        if added.ok {
          RestDistinct(txs);
          KeysFreeStep(utxos, added.utxos, txs);
          ApplyExactly(cfg, rules, added.utxos, added.balances, rest, height, false);
        } else {
          FirstTaken(utxos, txs);
        }
      }
    }
  }

  lemma NoKeysTaken(utxos: Utxos)
    ensures KeysFree(utxos, [])
  {
  }

  lemma FirstTaken(utxos: Utxos, txs: seq<Transaction>)
    requires txs != [] && !FirstFree(utxos, txs[0])
    ensures !KeysFree(utxos, txs)
  {
    hide AllInputs, InputSet, KeyFree;
    var o :| o in utxos && IsOutputFrom(o, txs[0], 0) && o !in InputSet(txs[0].inputs);
    KeyFreeFirst(utxos, txs, o.outputIndex);
    assert o == TxInput(txs[0].txHash, o.outputIndex);
  }

  /** The first transaction's outputs go in exactly when their keys are free once its inputs are
      spent, and other outpoints keep what they were. */
  lemma FirstExactly(cfg: Config, rules: Rules, utxos: Utxos, balances: Balances, tx: Transaction, height: nat,
                     first: bool)
    requires SpendInputs(rules, utxos, tx.inputs, height).1
    ensures var spent := SpendInputs(rules, utxos, tx.inputs, height).0;
            var added := AddOutputs(cfg, spent, balances, tx, 0, height, first);
            && (added.ok <==> FirstFree(utxos, tx))
            && (added.ok ==> FirstDone(utxos, added.utxos, tx))
            && (added.ok ==> forall o :: o in utxos && o !in InputSet(tx.inputs) ==>
                                o in added.utxos && added.utxos[o] == utxos[o])
  {
    hide InputSet, AddOutputs, SpendInputs;
    var spent := SpendInputs(rules, utxos, tx.inputs, height).0;
    SpendMeaning(rules, utxos, tx.inputs, height);
    AddOutputsKeys(cfg, spent, balances, tx, 0, height, first);
    if AddOutputs(cfg, spent, balances, tx, 0, height, first).ok {
      OneEffect(cfg, rules, utxos, balances, tx, height, first);
    }
  }

  /** A missing input that the block does not make is missing when its turn comes. */
  lemma {:induction false} MissingFails(cfg: Config, rules: Rules, utxos: Utxos, balances: Balances,
                                       txs: seq<Transaction>, height: nat, first: bool, o: TxInput)
    requires o in AllInputs(txs) && o !in utxos && !IsOutputOf(o, txs)
    ensures !ApplyTxs(cfg, rules, utxos, balances, txs, height, first).ok
    decreases txs
  {
    hide InputSet, AllInputs, AddOutputs, SpendInputs, IsOutputOf, IsOutputFrom, FirstFree, NoRepeat;
    if txs == [] {
      NoTxsNoOutputs();
    } else {
      var tx := txs[0];
      AllInputsStep(txs);
      OutputOfFirst(o, txs);
      SpendExactly(rules, utxos, tx.inputs, height);
      if SpendInputs(rules, utxos, tx.inputs, height).1 {
        FirstExactly(cfg, rules, utxos, balances, tx, height, first);
        var added := AddOutputs(cfg, SpendInputs(rules, utxos, tx.inputs, height).0, balances, tx, 0, height, first);
        if added.ok {
          MissingFails(cfg, rules, added.utxos, added.balances, txs[1..], height, false, o);
        }
      }
    }
  }

  /** The same without asking anything of the first transaction, whose inputs nobody checks, but
      that none of them is an output of the block. */
  lemma AppliesExactly(cfg: Config, rules: Rules, utxos: Utxos, balances: Balances, txs: seq<Transaction>, height: nat)
    requires txs != [] && DistinctHashes(txs)
    requires NoRepeat(Named(txs[1..])) && AllInputs(txs[1..]) <= utxos.Keys
    requires forall o :: o in InputSet(txs[0].inputs) ==> !IsOutputOf(o, txs)
    ensures ApplyTxs(cfg, rules, utxos, balances, txs, height, true).ok <==>
            NoRepeat(Named(txs)) && Spendable(rules, utxos, AllInputs(txs), height) && KeysFree(utxos, txs)
  {
    hide InputSet, AllInputs, NoRepeat, KeysFree, FirstFree, IsOutputOf, IsOutputFrom, AddOutputs, SpendInputs,
         DistinctHashes;
    var tx, rest := txs[0], txs[1..];
    AllInputsStep(txs);
    NamedInputs(rest);
    Apart(tx.inputs, Named(rest), {});
    SpendExactly(rules, utxos, tx.inputs, height);
    if SpendInputs(rules, utxos, tx.inputs, height).1 {
      if NoRepeat(Named(txs)) {
        ApplyExactly(cfg, rules, utxos, balances, txs, height, true);
      } else {
        var o :| o in InputSet(tx.inputs) && o in AllInputs(rest);
        FirstExactly(cfg, rules, utxos, balances, tx, height, true);
        OutputOfFirst(o, txs);
        var added := AddOutputs(cfg, SpendInputs(rules, utxos, tx.inputs, height).0, balances, tx, 0, height, true);
        if added.ok {
          MissingFails(cfg, rules, added.utxos, added.balances, rest, height, false, o);
        }
      }
    }
  }

  // ---------------------------------------------------------------- addBlock

  /** The block's checks, spelled out. */
  ghost predicate Passes(cfg: Config, rules: Rules, st: Ledger, all: seq<Transaction>, now: U64)
    requires Ready(cfg, st)
  {
    && (forall i, j :: 0 <= i < j < |all| && all[i].txHash != [] ==> all[i].txHash != all[j].txHash)
    && (all != [] ==> OutputSum(all[0].outputs) % U64_LIMIT <= Allowed(cfg, st, now))
    && (forall i :: 0 < i < |all| ==> Fine(rules, st.utxos, all[i]))
  }

  lemma ChecksExactly(cfg: Config, rules: Rules, st: Ledger, all: seq<Transaction>, now: U64)
    requires Ready(cfg, st)
    ensures ValidTransactions(cfg, rules, st, all, now) <==>
            Passes(cfg, rules, st, all, now) && (all != [] ==> NoRepeat(Named(all[1..])))
  {
    hide Fine, NoRepeat, CheckedRest, Allowed, OutputSum;
    if all != [] {
      RestExactly(rules, st.utxos, all[1..], {});
      assert forall i :: 0 < i < |all| ==> all[i] == all[1..][i - 1];
    }
  }

  /** No input of the first transaction is an output of the block. A coinbase has no inputs. */
  ghost predicate FirstApart(all: seq<Transaction>) {
    all != [] ==> forall o :: o in InputSet(all[0].inputs) ==> !IsOutputOf(o, all)
  }

  /** addBlock answers true exactly when there is a miner, mining and storing succeed, hashes are
      distinct, the first transaction pays no more than the reward of the second clock reading, the
      others are fine, no outpoint is named twice, every input is spendable, and every output key is
      free or spent by then. */
  lemma AcceptedExactly(cfg: Config, rules: Rules, st: Ledger, env: Env, miner: Bytes, txs: seq<Transaction>)
    requires Ready(cfg, st) && (Allowed(cfg, st, env.rewardClock) > 0 ==> env.coinbaseHash.Some?)
    requires FirstApart(BlockTxs(cfg, st, env, miner, txs))
    ensures var all := BlockTxs(cfg, st, env, miner, txs);
            AddBlock(cfg, rules, st, env, miner, txs).1 <==>
            && miner != [] && env.mined.Some? && env.written
            && Passes(cfg, rules, st, all, env.checkClock)
            && NoRepeat(Named(all)) && Spendable(rules, st.utxos, AllInputs(all), |st.chain|)
            && KeysFree(st.utxos, all)
  {
    hide InputSet, AllInputs, NoRepeat, KeysFree, IsOutputOf, Passes, Spendable, ApplyTxs, CheckedRest, HasDuplicate,
         Coinbase, Allowed, OutputSum, DistinctHashes, FirstInput, RolledBack, NewBlock;
    var all := BlockTxs(cfg, st, env, miner, txs);
    ChecksExactly(cfg, rules, st, all, env.checkClock);
    if all == [] {
      NothingToDo(cfg, rules, st.utxos, st.balances, |st.chain|);
    } else {
      Apart(all[0].inputs, Named(all[1..]), {});
      if ValidTransactions(cfg, rules, st, all, env.checkClock) {
        CheckedHashes(rules, st.utxos, all);
        RestIsNew(rules, st.utxos, all[1..], {});
        AppliesExactly(cfg, rules, st.utxos, st.balances, all, |st.chain|);
      }
    }
  }

  lemma NothingToDo(cfg: Config, rules: Rules, utxos: Utxos, balances: Balances, height: nat)
    ensures ApplyTxs(cfg, rules, utxos, balances, [], height, true).ok
    ensures Named([]) == [] && NoRepeat([]) && Spendable(rules, utxos, AllInputs([]), height) && KeysFree(utxos, [])
  {
  }

  // ---------------------------------------------------------------- the unspent outputs afterwards

  lemma {:induction false} NamedSplit(txs: seq<Transaction>, k: nat)
    requires k <= |txs|
    ensures Named(txs) == Named(txs[..k]) + Named(txs[k..])
  {
    if k > 0 {
      NamedSplit(txs[1..], k - 1);
      assert txs[1..][..k - 1] == txs[..k][1..] && txs[1..][k - 1..] == txs[k..];
    } else {
      assert txs[0..] == txs;
    }
  }

  lemma InputOfLater(txs: seq<Transaction>, k: nat, j: nat)
    requires k <= j < |txs|
    ensures InputSet(txs[j].inputs) <= AllInputs(txs[k..])
  {
    assert txs[k..][j - k] == txs[j];
  }

  lemma HolderIsSpent(utxos: Utxos, txs: seq<Transaction>, i: nat, o: TxInput)
    requires i < |txs| && KeysFree(utxos, txs)
    ensures o in utxos && IsOutputFrom(o, txs[i], 0) ==> o in AllInputs(txs[..i + 1])
  {
    hide AllInputs;
    if IsOutputFrom(o, txs[i], 0) {
      assert o == TxInput(txs[i].txHash, o.outputIndex) && KeyFree(utxos, txs, i, o.outputIndex);
    }
  }

  /** When no outpoint is named twice and keys are free, no transaction spends what an earlier one
      makes. */
  lemma FreeKeysApart(utxos: Utxos, txs: seq<Transaction>)
    requires NoRepeat(Named(txs)) && AllInputs(txs) <= utxos.Keys && KeysFree(utxos, txs)
    ensures SpendsNoEarlier(txs)
  {
    hide InputSet, AllInputs, NoRepeat, Named;
    forall i, j, o | 0 <= i < j < |txs| && o in InputSet(txs[j].inputs)
      ensures !IsOutputFrom(o, txs[i], 0)
    {
      InputOfLater(txs, 0, j);
      InputOfLater(txs, i + 1, j);
      assert txs[0..] == txs;
      NamedSplit(txs, i + 1);
      NamedInputs(txs[..i + 1]);
      NamedInputs(txs[i + 1..]);
      RepeatsWithin(Named(txs[..i + 1]), Named(txs[i + 1..]));
      HolderIsSpent(utxos, txs, i, o);
    }
  }

  /** After an accepted call the UTXO set is exactly what it was, less the inputs of the block and
      plus its outputs, each with its value, owner and height. */
  lemma AcceptedEffect(cfg: Config, rules: Rules, st: Ledger, env: Env, miner: Bytes, txs: seq<Transaction>)
    requires Ready(cfg, st) && AddBlock(cfg, rules, st, env, miner, txs).1
    requires FirstApart(AddBlock(cfg, rules, st, env, miner, txs).0.chain[|st.chain|].transactions)
    ensures var after := AddBlock(cfg, rules, st, env, miner, txs).0;
            var all := after.chain[|st.chain|].transactions;
            && AllInputs(all) <= st.utxos.Keys
            && (forall o :: o in after.utxos <==> (o in st.utxos && o !in AllInputs(all)) || IsOutputOf(o, all))
            && (forall o :: o in after.utxos && !IsOutputOf(o, all) ==> after.utxos[o] == st.utxos[o])
            && Recorded(after.utxos, all, |st.chain|, true)
  {
    hide ApplyTxs, AddBlock, Coinbase, Allowed, HasDuplicate, IsOutputOf, CheckedRest, AllInputs, DistinctHashes,
         FirstInput, FirstApart, InputSet, NoRepeat, KeysFree, Passes, Recorded, OutputSum, SpendsNoEarlier;
    AcceptedParts(cfg, rules, st, env, miner, txs);
    AcceptedExactly(cfg, rules, st, env, miner, txs);
    var all := BlockTxs(cfg, st, env, miner, txs);
    FreeKeysApart(st.utxos, all);
    if all == [] {
      NothingIsDistinct();
    } else {
      CheckedHashes(rules, st.utxos, all);
    }
    AppliedEffect(cfg, rules, st.utxos, st.balances, all, |st.chain|, true);
  }

  lemma NothingIsDistinct()
    ensures DistinctHashes([])
  {
  }

  /** An accepted call with a reward leaves the miner and the owner their coinbase outputs. */
  lemma CoinbasePaid(cfg: Config, rules: Rules, st: Ledger, env: Env, miner: Bytes, txs: seq<Transaction>)
    requires Ready(cfg, st) && AddBlock(cfg, rules, st, env, miner, txs).1 && Allowed(cfg, st, env.rewardClock) > 0
    ensures env.coinbaseHash.Some?
    ensures var after, h := AddBlock(cfg, rules, st, env, miner, txs).0, env.coinbaseHash.value;
            && TxInput(h, 0) in after.utxos && TxInput(h, 1) in after.utxos
            && after.utxos[TxInput(h, 0)].address == miner && after.utxos[TxInput(h, 1)].address == cfg.ownerAddress
            && after.utxos[TxInput(h, 0)].isCoinbase && after.utxos[TxInput(h, 0)].blockHeight == |st.chain|
            && after.utxos[TxInput(h, 0)].value + after.utxos[TxInput(h, 1)].value == Allowed(cfg, st, env.rewardClock)
  {
    hide AddBlock, Coinbase, Allowed, IsOutputOf, AllInputs, ApplyTxs, ValidTransactions;
    AcceptedParts(cfg, rules, st, env, miner, txs);
    var h, reward := env.coinbaseHash.value, Allowed(cfg, st, env.rewardClock);
    CoinbaseShares(cfg, miner, reward, h);
    CoinbaseIsPlain(cfg, miner, reward, h);
    AcceptedEffect(cfg, rules, st, env, miner, txs);
    var all := BlockTxs(cfg, st, env, miner, txs);
    assert all[0] == Coinbase(cfg, miner, reward, h);
    assert TxInput(all[0].txHash, 0) == TxInput(h, 0) && TxInput(all[0].txHash, 1) == TxInput(h, 1);
  }
}
