/** The Mempool object (src/mempool/mempool.cpp): its collections change in place, and each
    method is proved against the pool functions. */
module Mempool {
  import opened Wrappers
  import opened ByteStrings
  import opened ChainTypes
  import opened LedgerState
  import opened SupplyBound
  import opened MempoolState
  import opened MempoolLocks
  import opened MempoolRuns
  import opened FeeRanking

  class Mempool {
    const cfg: Limits
    const stripe: Stripe
    var entries: map<Bytes, Entry>
    var orphans: map<Bytes, Entry>
    var spent: set<TxInput>
    var totalBytes: U64
    /** The stripes held by the call in progress and by calls that wait for ever. */
    var held: set<nat>

    function State(): Pool
      reads this
    {
      Pool(entries, orphans, spent, totalBytes)
    }

    ghost predicate Valid()
      reads this
    {
      Sound(cfg, State())
    }

    constructor (cfg: Limits, stripe: Stripe)
      ensures this.cfg == cfg && this.stripe == stripe && State() == EMPTY && held == {} && Valid()
    {
      this.cfg, this.stripe := cfg, stripe;
      entries, orphans, spent, totalBytes, held := map[], map[], {}, 0, {};
      new;
      EmptyIsSound(cfg);
    }

    /** What a call leaves behind, and its answer; None when it waits for ever. */
    ghost predicate Ends(o: Outcome, before: set<nat>, answer: Option<bool>)
      reads this
    {
      match o
      case Finished(q, ok) => answer == Some(ok) && State() == q && held == before
      case Blocked(q, h) => answer == None && State() == q && held == h
    }

    // -------------------------------------------------------------- checks

    method ValidateTx(utxos: Utxos, tx: Transaction, baseFee: U64) returns (ok: bool)
      ensures ok == ValidTx(cfg, utxos, tx, baseFee)
    {
      hide EffectiveFee;
      var fee := ComputeFee(tx, baseFee);
      if |tx.txHash| != 64 || tx.toAddress == [] || fee < cfg.minFeePerGas {
        return false;
      }
      if tx.inputs == [] {
        return true;
      }
      var inSum: U64, outSum: U64 := 0, 0;
      for i := 0 to |tx.inputs|
        invariant forall k :: 0 <= k < i ==> tx.inputs[k] in utxos
        invariant inSum == InputSum(utxos, tx.inputs[..i])
      {
        if tx.inputs[i] !in utxos {
          return false;
        }
        InputPrefix(utxos, tx.inputs, i + 1);
        assert tx.inputs[..i + 1][..i] == tx.inputs[..i];
        var value := utxos[tx.inputs[i]].value;
        if value > U64_MAX - inSum {
          return false;
        }
        inSum := inSum + value;
      }
      assert tx.inputs[..|tx.inputs|] == tx.inputs;
      for i := 0 to |tx.outputs|
        invariant outSum == OutputSum(tx.outputs[..i])
      {
        SumFromFront(tx.outputs, i + 1);
        assert tx.outputs[..i + 1][..i] == tx.outputs[..i];
        if tx.outputs[i].value > U64_MAX - outSum {
          return false;
        }
        outSum := outSum + tx.outputs[i].value;
      }
      assert tx.outputs[..|tx.outputs|] == tx.outputs;
      ok := outSum <= inSum;
    }

    method FindDoubleSpend(tx: Transaction) returns (found: bool)
      ensures found == IsDoubleSpend(spent, tx)
    {
      for i := 0 to |tx.inputs|
        invariant forall k :: 0 <= k < i ==> tx.inputs[k] !in spent
      {
        if tx.inputs[i] in spent {
          return true;
        }
      }
      found := false;
    }

    method CheckNonceOrdering(tx: Transaction) returns (ok: bool)
      ensures ok == NonceIsNext(entries, tx)
    {
      var maxNonce: U64, found, rest := 0, false, entries.Keys;
      while rest != {}
        invariant rest <= entries.Keys
        invariant forall h :: h in entries && h !in rest && entries[h].tx.toAddress == tx.toAddress ==>
                    found && entries[h].tx.nonce <= maxNonce
        invariant found ==>
                  exists h :: h in entries && entries[h].tx.nonce == maxNonce && entries[h].tx.toAddress == tx.toAddress
      {
        var h :| h in rest;
        var other := entries[h].tx;
        if other.toAddress == tx.toAddress && (!found || other.nonce > maxNonce) {
          maxNonce, found := other.nonce, true;
        }
        rest := rest - {h};
      }
      ok := !(found && tx.nonce <= maxNonce);
    }

    // -------------------------------------------------------------- admission

    /** The checks before the stripe, the stripe, and its release when the call returns. */
    method AddTransaction(world: World, tx: Transaction, baseFee: U64) returns (answer: Option<bool>)
      requires Valid() && Walks(world.scan)
      modifies this
      ensures Valid()
      ensures Ends(AddLocked(cfg, world, stripe, old(held), old(State()), tx, baseFee), old(held), answer)
      ensures answer.Some? ==> (State(), answer.value) == Add(cfg, world, old(State()), tx, baseFee)
      ensures (tx.txHash !in old(orphans) && Apart(stripe, old(held), old(orphans).Keys + {tx.txHash})) ==> answer.Some?
      decreases Room(cfg, State()), 0, 1
    {
      hide ValidTx, Walks, EstimatedBytes, Sound, AddWithStripe, Add, Apart;
      if tx.txHash !in orphans && Apart(stripe, held, orphans.Keys + {tx.txHash}) {
        DistinctStripesFinish(cfg, world, stripe, held, State(), tx, baseFee);
      }
      FinishedIsAdd(cfg, world, stripe, held, State(), tx, baseFee);
      UnderStripe(cfg, world, stripe, held, State(), tx, baseFee);
      var valid := ValidateTx(world.utxos, tx, baseFee);
      if !valid {
        return Some(false);
      }
      var txBytes := EstimateTxBytes(tx);
      if txBytes > U64_MAX - totalBytes {
        return Some(false);
      }
      if stripe(tx.txHash) in held {
        return None;
      }
      ghost var before := held;
      held := held + {stripe(tx.txHash)};
      answer := AddHoldingStripe(world, tx, txBytes, baseFee);
      if answer.Some? {
        held := held - {stripe(tx.txHash)};
        assert held == before;
      }
    }

    /** The part of addTransaction that runs with its stripe held. */
    method AddHoldingStripe(world: World, tx: Transaction, txBytes: nat, baseFee: U64) returns (answer: Option<bool>)
      requires Valid() && Walks(world.scan)
      requires !RefusedEarly(cfg, world.utxos, State(), tx, baseFee) && txBytes == EstimatedBytes(tx)
      modifies this
      ensures Valid()
      ensures Ends(AddWithStripe(cfg, world, stripe, old(held), old(State()), tx, baseFee), old(held), answer)
      decreases Room(cfg, State()), 0, 0
    {
      hide ValidTx, IsDoubleSpend, NonceIsNext, Insert, Walks, EstimatedBytes, PromoteLocked, Sound, AddOrphan;
      ghost var before := State();
      if tx.txHash in entries {
        return Some(false);
      }
      var doubleSpend := FindDoubleSpend(tx);
      if doubleSpend {
        return Some(false);
      }
      var ordered := CheckNonceOrdering(tx);
      if !ordered {
        AddOrphanKeeps(cfg, world, before, tx);
        AddOrphanLocked(world, tx);
        return Some(false);
      }
      var room := MakeRoom(txBytes, baseFee);
      if !room {
        return Some(false);
      }
      RoomShrinks(cfg, world, before, tx, baseFee);
      InsertKeeps(cfg, world, before, tx, baseFee);
      InsertEntry(world, tx, txBytes, baseFee);
      answer := PromoteOrphans(world, tx.txHash, baseFee);
    }

    /** Whether the entry fits, after trimming if it does not; a valid pool has nothing to trim. */
    method MakeRoom(txBytes: nat, baseFee: U64) returns (room: bool)
      requires Valid()
      modifies this
      ensures State() == old(State()) && held == old(held)
      ensures room <==> |entries| < cfg.maxTxCount && (totalBytes + txBytes) % U64_LIMIT <= cfg.maxTotalBytes
    {
      hide Agrees, Sound;
      SoundFits(cfg, State());
      room := |entries| < cfg.maxTxCount && (totalBytes + txBytes) % U64_LIMIT <= cfg.maxTotalBytes;
      if !room {
        TrimToCapacity(baseFee);
        room := |entries| < cfg.maxTxCount && (totalBytes + txBytes) % U64_LIMIT <= cfg.maxTotalBytes;
      }
    }

    method InsertEntry(world: World, tx: Transaction, txBytes: nat, baseFee: U64)
      requires txBytes == EstimatedBytes(tx)
      modifies this`entries, this`spent, this`totalBytes
      ensures State() == Insert(old(State()), tx, baseFee, world.now)
    {
      hide InputSet, EstimatedBytes, EffectiveFee;
      var fee := ComputeFee(tx, baseFee);
      spent := spent + InputSet(tx.inputs);
      entries := entries[tx.txHash := Entry(tx, world.now, fee, txBytes)];
      totalBytes := (totalBytes + txBytes) % U64_LIMIT;
    }

    /** Take out the orphans waiting for the hash and offer each of them again. */
    method PromoteOrphans(world: World, hash: Bytes, baseFee: U64) returns (answer: Option<bool>)
      requires Valid() && Walks(world.scan)
      modifies this
      ensures Valid()
      ensures Ends(PromoteLocked(cfg, world, stripe, old(held), old(State()), hash, baseFee), old(held), answer)
      decreases Room(cfg, State()), 2, 0
    {
      hide Walks, Agrees, DependsOn, AddLocked, Add;
      ghost var before, stripes := State(), held;
      PromotionKeeps(cfg, before, hash);
      var toPromote := TakeDependents(world, hash);
      assert State() == before.(orphans := Independent(before.orphans, hash));
      for i := 0 to |toPromote|
        invariant Valid() && |before.entries| <= |entries| && held == stripes
        invariant PromoteLocked(cfg, world, stripe, stripes, before, hash, baseFee)
               == AddAllLocked(cfg, world, stripe, stripes, State(), toPromote[i..], baseFee)
      {
        assert toPromote[i..][0] == toPromote[i] && toPromote[i..][1..] == toPromote[i + 1..];
        var one := AddTransaction(world, toPromote[i], baseFee);
        if one.None? {
          return None;
        }
      }
      answer := Some(true);
    }

    method TakeDependents(world: World, hash: Bytes) returns (toPromote: seq<Transaction>)
      requires Walks(world.scan)
      modifies this`orphans
      ensures toPromote == Dependents(old(orphans), world.scan(old(State())), hash)
      ensures orphans == Independent(old(orphans), hash)
    {
      hide DependsOn, Dependents, Walks;
      var keys := world.scan(State());
      ghost var before := orphans;
      WalkFacts(world.scan, State());
      NoDependents(before, hash);
      toPromote := [];
      for i := 0 to |keys|
        invariant toPromote == Dependents(before, keys[..i], hash)
        invariant forall h :: h in orphans <==> h in before && (h in keys[..i] ==> !DependsOn(before[h].tx, hash))
        invariant forall h :: h in orphans ==> orphans[h] == before[h]
      {
        DependentsStep(before, keys, i, hash);
        assert keys[..i + 1] == keys[..i] + [keys[i]] && keys[i] !in keys[..i];
        var waiting := orphans[keys[i]].tx;
        if DependsOn(waiting, hash) {
          toPromote := toPromote + [waiting];
          orphans := orphans - {keys[i]};
        }
      }
      assert keys[..|keys|] == keys;
    }

    method AddOrphanLocked(world: World, tx: Transaction)
      modifies this`orphans
      ensures State() == AddOrphan(cfg, world, old(State()), tx)
    {
      if |orphans| >= cfg.orphanMaxCount {
        var oldest := FindOldest(world.scan(State()));
        if oldest.Some? {
          orphans := orphans - {oldest.value};
        }
      }
      var txBytes := EstimateTxBytes(tx);
      if tx.txHash !in orphans {
        orphans := orphans[tx.txHash := Entry(tx, world.now, 0, txBytes)];
      }
    }

    /** std::min_element over the orphans in walking order. */
    method FindOldest(keys: seq<Bytes>) returns (oldest: Option<Bytes>)
      ensures oldest == Oldest(orphans, keys)
    {
      oldest := None;
      for i := 0 to |keys|
        invariant oldest == Oldest(orphans, keys[..i])
      {
        assert keys[..i + 1][..i] == keys[..i];
        if keys[i] in orphans && (oldest.None? || orphans[keys[i]].addedAt < orphans[oldest.value].addedAt) {
          oldest := Some(keys[i]);
        }
      }
      assert keys[..|keys|] == keys;
    }

    // -------------------------------------------------------------- removal

    /** Frees the outpoints of the removed entry and no others. */
    method RemoveTransaction(hash: Bytes)
      requires Agrees(State())
      modifies this
      ensures State() == Remove(old(State()), hash)
      ensures Agrees(State()) && held == old(held)
      ensures old(Valid()) ==> Valid()
      ensures forall h :: h in entries ==> InputSet(entries[h].tx.inputs) <= spent
    {
      hide EstimatedBytes, InputSet, NoSharedOutpoint, NoSharedNonce, Keyed;
      RemoveKeeps(cfg, State(), hash);
      SpentCovers(Remove(State(), hash));
      if hash !in entries {
        return;
      }
      var e := entries[hash];
      spent := spent - InputSet(e.tx.inputs);
      entries := entries - {hash};
      totalBytes := (totalBytes - e.txBytes) % U64_LIMIT;
    }

    method RemoveConfirmed(block: seq<Transaction>)
      requires Valid()
      modifies this
      ensures Valid() && held == old(held)
      ensures State() == RemoveEach(old(State()), Hashes(block))
      ensures State() == Rebuilt(old(entries) - KeySet(Hashes(block)), old(orphans))
    {
      hide Sound, Agrees, Remove, Rebuilt, KeySet;
      ghost var hashes := Hashes(block);
      RemovalIsRebuild(State(), hashes) by {
        SoundAgrees(cfg, State());
      }
      for i := 0 to |block|
        invariant Valid() && held == old(held)
        invariant State() == RemoveEach(old(State()), hashes[..i])
      {
        assert hashes[..i + 1][..i] == hashes[..i];
        SoundAgrees(cfg, State());
        RemoveTransaction(block[i].txHash);
      }
      assert hashes[..|block|] == hashes;
    }

    /** None when one of the offers waits for ever. */
    method ReorgRestore(world: World, reorgedOut: seq<Transaction>) returns (answer: Option<bool>)
      requires Valid() && Walks(world.scan)
      modifies this
      ensures Valid()
      ensures var o := MempoolLocks.ReorgRestore(cfg, world, stripe, old(held), old(State()), reorgedOut);
              match o
              case Finished(q, _) => answer == Some(true) && State() == q && held == old(held)
              case Blocked(q, h) => answer == None && State() == q && held == h
    {
      hide Sound, Walks, AddLocked, Add;
      for i := 0 to |reorgedOut|
        invariant Valid() && held == old(held)
        invariant MempoolLocks.ReorgRestore(cfg, world, stripe, old(held), old(State()), reorgedOut[..i]).Finished?
        invariant State()
               == MempoolLocks.ReorgRestore(cfg, world, stripe, old(held), old(State()), reorgedOut[..i]).pool
      {
        assert reorgedOut[..i + 1][..i] == reorgedOut[..i];
        if reorgedOut[i].txHash in entries {
          continue;
        }
        var one := AddTransaction(world, reorgedOut[i], cfg.minFeePerGas);
        if one.None? {
          ReorgStuck(cfg, world, stripe, old(held), old(State()), reorgedOut, i + 1);
          return None;
        }
      }
      assert reorgedOut[..|reorgedOut|] == reorgedOut;
      answer := Some(true);
    }

    // -------------------------------------------------------------- maintenance

    method RemoveHashes(toRemove: seq<Bytes>)
      requires Agrees(State())
      modifies this
      ensures Agrees(State()) && held == old(held)
      ensures State() == Rebuilt(old(entries) - KeySet(toRemove), old(orphans))
    {
      hide Agrees, Remove, Rebuilt, KeySet;
      RemovalIsRebuild(State(), toRemove);
      for i := 0 to |toRemove|
        invariant Agrees(State()) && held == old(held)
        invariant State() == RemoveEach(old(State()), toRemove[..i])
      {
        assert toRemove[..i + 1][..i] == toRemove[..i];
        RemoveTransaction(toRemove[i]);
      }
      assert toRemove[..|toRemove|] == toRemove;
    }

    /** Two clock readings: one for the entries, one for the orphans. */
    method EvictStale(now: U64, later: U64)
      requires Valid()
      modifies this
      ensures Valid() && held == old(held)
      ensures State() == MempoolState.EvictStale(cfg, old(State()), now, later)
    {
      hide Agrees, SpentBy, Sizes, WithinLimits;
      ghost var before := State();
      StaleKeeps(cfg, before, now, later);
      var cutoff := Cutoff(now, cfg.maxTxAgeSeconds);
      var toRemove, rest := [], entries.Keys;
      while rest != {}
        invariant rest <= entries.Keys
        invariant State() == before && held == old(held)
        invariant forall h :: h in KeySet(toRemove) <==>
                    h in entries && h !in rest && IsStale(entries[h].addedAt, cutoff)
      {
        var h :| h in rest;
        if IsStale(entries[h].addedAt, cutoff) {
          KeySetStep(toRemove + [h]);
          assert (toRemove + [h])[..|toRemove|] == toRemove;
          toRemove := toRemove + [h];
        }
        rest := rest - {h};
      }
      assert entries - KeySet(toRemove) == KeepFresh(entries, cutoff);
      SoundAgrees(cfg, before);
      RemoveHashes(toRemove);
      EvictStaleOrphans(later);
    }

    method EvictStaleOrphans(now: U64)
      modifies this`orphans
      ensures orphans == KeepFresh(old(orphans), Cutoff(now, cfg.orphanMaxAgeSecs))
    {
      var cutoff := Cutoff(now, cfg.orphanMaxAgeSecs);
      var rest := orphans.Keys;
      while rest != {}
        invariant rest <= orphans.Keys
        invariant forall h :: h in orphans <==>
                    h in old(orphans) && (h in rest || !IsStale(old(orphans)[h].addedAt, cutoff))
        invariant forall h :: h in orphans ==> orphans[h] == old(orphans)[h]
      {
        var h :| h in rest;
        if IsStale(orphans[h].addedAt, cutoff) {
          orphans := orphans - {h};
        }
        rest := rest - {h};
      }
    }

    method EvictLowFee(newBaseFee: U64)
      requires Valid()
      modifies this
      ensures Valid() && held == old(held)
      ensures State() == MempoolState.EvictLowFee(cfg, old(State()), newBaseFee)
    {
      hide Agrees, SpentBy, Sizes, WithinLimits, EffectiveFee;
      ghost var before := State();
      LowFeeKeeps(cfg, before, newBaseFee);
      var toRemove, rest := [], entries.Keys;
      while rest != {}
        invariant rest <= entries.Keys
        invariant State() == before && held == old(held)
        invariant forall h :: h in KeySet(toRemove) <==>
                    h in entries && h !in rest && EffectiveFee(entries[h].tx, newBaseFee) < cfg.minFeePerGas
      {
        var h :| h in rest;
        var fee := ComputeFee(entries[h].tx, newBaseFee);
        if fee < cfg.minFeePerGas {
          KeySetStep(toRemove + [h]);
          assert (toRemove + [h])[..|toRemove|] == toRemove;
          toRemove := toRemove + [h];
        }
        rest := rest - {h};
      }
      assert entries - KeySet(toRemove) == MempoolState.EvictLowFee(cfg, State(), newBaseFee).entries;
      SoundAgrees(cfg, before);
      RemoveHashes(toRemove);
    }

    /** std::sort of the (fee, hash) pairs. */
    method RankEntries(baseFee: U64) returns (ranked: seq<Ranked>)
      ensures IsRanking(ranked, entries, baseFee)
    {
      hide EffectiveFee, Sorted, InsertPair;
      ranked := [];
      assert Sorted(ranked) by {
        NothingToSort();
      }
      var rest := entries.Keys;
      while rest != {}
        invariant rest <= entries.Keys && |ranked| == |entries| - |rest|
        invariant Sorted(ranked)
        invariant forall i :: 0 <= i < |ranked| ==>
                    ranked[i].1 in entries && ranked[i].1 !in rest
                           && ranked[i].0 == EffectiveFee(entries[ranked[i].1].tx, baseFee)
        invariant forall h :: h in entries && h !in rest ==> (EffectiveFee(entries[h].tx, baseFee), h) in ranked
      {
        var h :| h in rest;
        var fee := ComputeFee(entries[h].tx, baseFee);
        InsertPairSorted(ranked, (fee, h));
        InsertPairElements(ranked, (fee, h));
        var next := InsertPair(ranked, (fee, h));
        assert forall i :: 0 <= i < |next| ==> next[i] in next;
        ranked := next;
        rest := rest - {h};
      }
    }

    /** Evicts the cheapest entries until both limits hold, and not one more. On a valid pool it
        does nothing. */
    method TrimToCapacity(baseFee: U64)
      requires Agrees(State())
      modifies this
      ensures Agrees(State()) && Fits(cfg, State()) && held == old(held)
      ensures Fits(cfg, old(State())) ==> State() == old(State())
      ensures exists ranked, k :: Trimmed(cfg, old(State()), State(), baseFee, ranked, k)
    {
      hide Agrees, IsRanking, RemoveEach, HashesOf;
      ghost var before := State();
      var ranked := RankEntries(baseFee);
      NothingRemoved(before);
      if Fits(cfg, State()) {
        assert Trimmed(cfg, before, State(), baseFee, ranked, 0);
        return;
      }
      AllGoneFits(cfg, before, ranked, baseFee);
      for i := 0 to |ranked|
        invariant Agrees(State()) && held == old(held)
        invariant State() == RemoveEach(before, HashesOf(ranked[..i]))
        invariant forall j :: 0 <= j < i ==> !Fits(cfg, RemoveEach(before, HashesOf(ranked[..j])))
      {
        if Fits(cfg, State()) {
          assert Trimmed(cfg, before, State(), baseFee, ranked, i);
          return;
        }
        RemoveNext(before, ranked, i);
        RemoveTransaction(ranked[i].1);
      }
      assert ranked[..|ranked|] == ranked;
      assert Trimmed(cfg, before, State(), baseFee, ranked, |ranked|);
    }

    /** The best-paying transactions, dearest first. */
    method GetSortedByFee(maxCount: nat, baseFee: U64) returns (result: seq<Transaction>)
      requires Valid()
      ensures |result| == Min(maxCount, |entries|)
      ensures forall i :: 0 <= i < |result| ==> result[i].txHash in entries && entries[result[i].txHash].tx == result[i]
      ensures forall i, j :: 0 <= i < j < |result| ==>
                result[i].txHash != result[j].txHash
                       && EffectiveFee(result[i], baseFee) >= EffectiveFee(result[j], baseFee)
      ensures forall h, i :: h in entries && 0 <= i < |result| && (forall j :: 0 <= j < |result| ==>
          result[j].txHash != h) ==>
                EffectiveFee(entries[h].tx, baseFee) <= EffectiveFee(result[i], baseFee)
    {
      hide EffectiveFee, EstimatedBytes, NoSharedOutpoint, NoSharedNonce, SpentBy, Sizes, Keyed, Sorted, WithinLimits;
      var ranked := RankEntries(baseFee);
      var n := Min(maxCount, |ranked|);
      result := [];
      for i := 0 to n
        invariant |result| == i
        invariant forall k :: 0 <= k < i ==> result[k] == entries[ranked[|ranked| - 1 - k].1].tx
      {
        result := result + [entries[ranked[|ranked| - 1 - i].1].tx];
      }
      RankingAnswers(ranked, entries, baseFee, result);
    }
  }

  // ---------------------------------------------------------------- static helpers

  method EstimateTxBytes(tx: Transaction) returns (s: nat)
    ensures s == EstimatedBytes(tx)
  {
    s := 8 + 8 + 8 + 8 + 8 + 8 + 8;
    s := s + 4 + |tx.toAddress|;
    s := s + 4 + |tx.txHash|;
    s := s + 4 + |tx.data|;
    s := s + |tx.r| + |tx.s|;
    s := s + 4;
    ghost var fixedPart := s;
    for i := 0 to |tx.inputs|
      invariant s == fixedPart + InputBytes(tx.inputs[..i])
    {
      assert tx.inputs[..i + 1][..i] == tx.inputs[..i];
      s := s + 4 + |tx.inputs[i].prevTxHash| + 4;
    }
    assert tx.inputs[..|tx.inputs|] == tx.inputs;
    s := s + 4;
    ghost var withInputs := s;
    for i := 0 to |tx.outputs|
      invariant s == withInputs + OutputBytes(tx.outputs[..i])
    {
      assert tx.outputs[..i + 1][..i] == tx.outputs[..i];
      s := s + 4 + |tx.outputs[i].address| + 8;
    }
    assert tx.outputs[..|tx.outputs|] == tx.outputs;
    s := s + 64;
  }

  method ComputeFee(tx: Transaction, baseFee: U64) returns (fee: U64)
    ensures fee == EffectiveFee(tx, baseFee)
  {
    var sum := if tx.maxPriorityFeePerGas > U64_MAX - baseFee then U64_MAX else baseFee + tx.maxPriorityFeePerGas;
    fee := Min(tx.maxFeePerGas, sum);
  }

  lemma {:induction false} InputPrefix(utxos: Utxos, inputs: seq<TxInput>, i: nat)
    requires i <= |inputs| && forall k :: 0 <= k < i ==> inputs[k] in utxos
    ensures (forall k :: 0 <= k < |inputs| ==> inputs[k] in utxos) ==>
              InputSum(utxos, inputs[..i]) <= InputSum(utxos, inputs)
    decreases |inputs| - i
  {
    if i == |inputs| {
      assert inputs[..i] == inputs;
    } else if inputs[i] in utxos {
      InputPrefix(utxos, inputs, i + 1);
      assert inputs[..i + 1][..i] == inputs[..i];
    }
  }

  /** What runs with the stripe held, and how addTransaction uses it. */
  ghost function AddWithStripe(cfg: Limits, world: World, stripe: Stripe, held: set<nat>, p: Pool, tx: Transaction,
                               baseFee: U64): Outcome
  {
    match Judge(cfg, world.utxos, p, tx, baseFee)
    case Rejected => Finished(p, false)
    case Orphaned => Finished(AddOrphan(cfg, world, p, tx), false)
    case Admitted => PromoteLocked(cfg, world, stripe, held, Insert(p, tx, baseFee, world.now), tx.txHash, baseFee)
  }

  lemma UnderStripe(cfg: Limits, world: World, stripe: Stripe, held: set<nat>, p: Pool, tx: Transaction, baseFee: U64)
    ensures AddLocked(cfg, world, stripe, held, p, tx, baseFee) ==
            if RefusedEarly(cfg, world.utxos, p, tx, baseFee) then Finished(p, false)
            else if stripe(tx.txHash) in held then Blocked(p, held)
            else AddWithStripe(cfg, world, stripe, held + {stripe(tx.txHash)}, p, tx, baseFee)
  {
  }

  lemma {:induction false} ReorgStuck(cfg: Limits, world: World, stripe: Stripe, held: set<nat>, p: Pool,
                                     txs: seq<Transaction>, k: nat)
    requires k <= |txs| && MempoolLocks.ReorgRestore(cfg, world, stripe, held, p, txs[..k]).Blocked?
    ensures MempoolLocks.ReorgRestore(cfg, world, stripe, held, p, txs)
         == MempoolLocks.ReorgRestore(cfg, world, stripe, held, p, txs[..k])
    decreases |txs|
  {
    if k == |txs| {
      assert txs[..k] == txs;
    } else {
      assert txs[..|txs| - 1][..k] == txs[..k];
      ReorgStuck(cfg, world, stripe, held, p, txs[..|txs| - 1], k);
    }
  }

  lemma SoundAgrees(cfg: Limits, p: Pool)
    requires Sound(cfg, p)
    ensures Agrees(p)
  {
    hide Agrees, WithinLimits;
  }

  lemma SoundFits(cfg: Limits, p: Pool)
    requires Sound(cfg, p)
    ensures Agrees(p) && Fits(cfg, p)
  {
    hide Agrees;
  }

  lemma SpentCovers(p: Pool)
    requires Agrees(p)
    ensures forall h :: h in p.entries ==> InputSet(p.entries[h].tx.inputs) <= p.spent
  {
    hide InputSet, EstimatedBytes, NoSharedOutpoint, NoSharedNonce, Keyed;
  }

  lemma WalkFacts(scan: Pool -> seq<Bytes>, p: Pool)
    requires Walks(scan)
    ensures Enumerates(scan(p), p.orphans.Keys)
  {
  }

  lemma NoDependents(orphans: map<Bytes, Entry>, hash: Bytes)
    ensures Dependents(orphans, [], hash) == []
  {
  }

  lemma NothingToSort()
    ensures Sorted([])
  {
  }

  lemma NothingRemoved(p: Pool)
    ensures RemoveEach(p, HashesOf([])) == p
  {
  }

  lemma RemoveNext(p: Pool, r: seq<Ranked>, i: nat)
    requires i < |r|
    ensures RemoveEach(p, HashesOf(r[..i + 1])) == Remove(RemoveEach(p, HashesOf(r[..i])), r[i].1)
  {
    hide Remove;
    var hashes := HashesOf(r[..i + 1]);
    assert hashes[..i] == HashesOf(r[..i]) && hashes[i] == r[i].1;
  }

  ghost predicate TailOf(r: seq<Ranked>, baseFee: U64, result: seq<Transaction>) {
    && |result| <= |r|
    && forall k :: 0 <= k < |result| ==>
         result[k].txHash == r[|r| - 1 - k].1 && EffectiveFee(result[k], baseFee) == r[|r| - 1 - k].0
  }

  lemma TailDescends(r: seq<Ranked>, entries: map<Bytes, Entry>, baseFee: U64, result: seq<Transaction>, i: nat, j: nat)
    requires IsRanking(r, entries, baseFee) && TailOf(r, baseFee, result) && i < j < |result|
    ensures result[i].txHash != result[j].txHash && EffectiveFee(result[i], baseFee) >= EffectiveFee(result[j], baseFee)
  {
    hide EffectiveFee, LexLess;
    var n := |r|;
    assert Before(r[n - 1 - j], r[n - 1 - i]);
    NotBeforeItself(r[n - 1 - i]);
  }

  lemma OthersPayLess(r: seq<Ranked>, entries: map<Bytes, Entry>, baseFee: U64, result: seq<Transaction>, h: Bytes,
                      i: nat)
    requires IsRanking(r, entries, baseFee) && TailOf(r, baseFee, result)
    requires h in entries && i < |result| && forall j :: 0 <= j < |result| ==> result[j].txHash != h
    ensures EffectiveFee(entries[h].tx, baseFee) <= EffectiveFee(result[i], baseFee)
  {
    hide EffectiveFee, LexLess;
    var n := |r|;
    forall q | n - |result| <= q < n
      ensures r[q].1 != h
    {
      assert result[n - 1 - q].txHash == r[q].1;
    }
    var m :| 0 <= m < n && r[m] == (EffectiveFee(entries[h].tx, baseFee), h);
    assert Before(r[m], r[n - 1 - i]);
  }

  /** The tail of a ranking, reversed, lists the best-paying entries. */
  lemma RankingAnswers(r: seq<Ranked>, entries: map<Bytes, Entry>, baseFee: U64, result: seq<Transaction>)
    requires IsRanking(r, entries, baseFee) && Keyed(entries) && |result| <= |r|
    requires forall k :: 0 <= k < |result| ==> result[k] == entries[r[|r| - 1 - k].1].tx
    ensures forall i :: 0 <= i < |result| ==> result[i].txHash in entries && entries[result[i].txHash].tx == result[i]
    ensures forall i, j :: 0 <= i < j < |result| ==>
              result[i].txHash != result[j].txHash
                     && EffectiveFee(result[i], baseFee) >= EffectiveFee(result[j], baseFee)
    ensures forall h, i :: h in entries && 0 <= i < |result| && (forall j :: 0 <= j < |result| ==>
        result[j].txHash != h) ==>
              EffectiveFee(entries[h].tx, baseFee) <= EffectiveFee(result[i], baseFee)
  {
    hide EffectiveFee, EstimatedBytes, Sorted;
    assert TailOf(r, baseFee, result);
    forall i, j | 0 <= i < j < |result|
      ensures result[i].txHash != result[j].txHash
             && EffectiveFee(result[i], baseFee) >= EffectiveFee(result[j], baseFee)
    {
      TailDescends(r, entries, baseFee, result, i, j);
    }
    forall h, i | h in entries && 0 <= i < |result| && (forall j :: 0 <= j < |result| ==> result[j].txHash != h)
      ensures EffectiveFee(entries[h].tx, baseFee) <= EffectiveFee(result[i], baseFee)
    {
      OthersPayLess(r, entries, baseFee, result, h, i);
    }
  }

  lemma NotBeforeItself(x: Ranked)
    ensures !Before(x, x)
  {
    NotLessThanItself(x.1);
  }

  lemma {:induction false} NotLessThanItself(a: Bytes)
    ensures !LexLess(a, a)
  {
    if a != [] {
      NotLessThanItself(a[1..]);
    }
  }
}
