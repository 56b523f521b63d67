/** Exactly which offers the pool admits, in terms of its entries, and what the size estimate
    measures (src/mempool/mempool.cpp:95-256). */
module MempoolVerdict {
  import opened ByteStrings
  import opened ChainTypes
  import opened LedgerState
  import opened MempoolState
  import opened MempoolLocks
  import opened MempoolRuns
  import MessageCodec
  import ProofOfWork

  /** An offer to a sound pool is admitted exactly when it is well formed, its sender's cap and
      the base fee with the tip reach the minimum, its inputs exist and cover its outputs, no entry
      spends one of them or has its nonce or a later one at the same address, and there is room. */
  lemma AdmittedExactly(cfg: Limits, world: World, p: Pool, tx: Transaction, baseFee: U64)
    requires Sound(cfg, p)
    ensures Add(cfg, world, p, tx, baseFee).1 <==>
            && |tx.txHash| == 64 && tx.toAddress != []
            && tx.maxFeePerGas >= cfg.minFeePerGas && baseFee + tx.maxPriorityFeePerGas >= cfg.minFeePerGas
            && (tx.inputs != [] ==> Covered(world.utxos, tx))
            && tx.txHash !in p.entries
            && (forall h, k :: h in p.entries && 0 <= k < |tx.inputs| ==> tx.inputs[k] !in p.entries[h].tx.inputs)
            && (forall h :: h in p.entries && p.entries[h].tx.toAddress == tx.toAddress ==>
                  p.entries[h].tx.nonce < tx.nonce)
            && |p.entries| < cfg.maxTxCount && p.totalBytes + EstimatedBytes(tx) <= cfg.maxTotalBytes
  {
    hide Promote, AddOrphan, Insert, EffectiveFee, EstimatedBytes, Covered, Keyed, NoSharedNonce, NoSharedOutpoint;
    FeeReaches(tx, baseFee, cfg.minFeePerGas);
    SpentByEntries(p, tx);
  }

  /** An offer to a sound pool is kept for later exactly when it is well formed, covered, new and free
      of double spends and an entry to its address has its nonce or a later one. All other
      refusals leave the pool as it was. */
  lemma OrphanedExactly(cfg: Limits, world: World, p: Pool, tx: Transaction, baseFee: U64)
    requires Sound(cfg, p)
    ensures var (q, ok) := Add(cfg, world, p, tx, baseFee);
            if && |tx.txHash| == 64 && tx.toAddress != []
               && tx.maxFeePerGas >= cfg.minFeePerGas && baseFee + tx.maxPriorityFeePerGas >= cfg.minFeePerGas
               && (tx.inputs != [] ==> Covered(world.utxos, tx)) && p.totalBytes + EstimatedBytes(tx) <= U64_MAX
               && tx.txHash !in p.entries
               && (forall h, k :: h in p.entries && 0 <= k < |tx.inputs| ==> tx.inputs[k] !in p.entries[h].tx.inputs)
               && exists h :: h in p.entries && p.entries[h].tx.toAddress == tx.toAddress
                              && p.entries[h].tx.nonce >= tx.nonce
            then !ok && tx.txHash in q.orphans && q == p.(orphans := q.orphans)
            else !ok ==> q == p
  {
    hide Promote, RoomFor, Insert, EffectiveFee, EstimatedBytes, Covered, Keyed, NoSharedNonce, NoSharedOutpoint;
    FeeReaches(tx, baseFee, cfg.minFeePerGas);
    SpentByEntries(p, tx);
  }

  lemma SpentByEntries(p: Pool, tx: Transaction)
    requires p.spent == SpentBy(p.entries)
    ensures IsDoubleSpend(p.spent, tx) <==>
            exists h, k :: h in p.entries && 0 <= k < |tx.inputs| && tx.inputs[k] in p.entries[h].tx.inputs
  {
    if IsDoubleSpend(p.spent, tx) {
      var k :| 0 <= k < |tx.inputs| && tx.inputs[k] in p.spent;
      var h :| h in p.entries && tx.inputs[k] in InputSet(p.entries[h].tx.inputs);
      assert tx.inputs[k] in p.entries[h].tx.inputs;
    }
    if h, k :| h in p.entries && 0 <= k < |tx.inputs| && tx.inputs[k] in p.entries[h].tx.inputs {
      assert tx.inputs[k] in InputSet(p.entries[h].tx.inputs);
    }
  }

  /** A sender's cap below the minimum is refused without a trace. */
  lemma CapBelowMinimum(cfg: Limits, world: World, p: Pool, tx: Transaction, baseFee: U64)
    requires tx.maxFeePerGas < cfg.minFeePerGas
    ensures Add(cfg, world, p, tx, baseFee) == (p, false)
  {
    hide EffectiveFee, Promote, AddOrphan;
    FeeReaches(tx, baseFee, cfg.minFeePerGas);
  }

  /** The only orphan waiting for an admitted transaction is admitted with it, if its turn finds it
      admissible. */
  lemma OnlyWaiterPromoted(cfg: Limits, world: World, p: Pool, tx: Transaction, baseFee: U64, w: Transaction)
    requires Judge(cfg, world.utxos, p, tx, baseFee) == Admitted && OfferedAfter(world, p, tx, baseFee) == [w]
    requires Judge(cfg, world.utxos, PoolAfter(world, p, tx, baseFee), w, baseFee) == Admitted
    ensures var q := Add(cfg, world, p, tx, baseFee).0;
            w.txHash in q.entries && q.entries[w.txHash].tx == w
  {
    hide Judge, PoolAfter, OfferedAfter, Add;
    var start := PoolAfter(world, p, tx, baseFee);
    AdmittedCall(cfg, world, _ => 0, {}, p, tx, baseFee);
    AddAnswer(cfg, world, start, w, baseFee);
    assert [w][1..] == [];
    var q := Add(cfg, world, start, w, baseFee).0;
    assert AddAll(cfg, world, q, [], baseFee) == q;
  }

  // ---------------------------------------------------------------- the size estimate

  function Hashes(inputs: seq<TxInput>): (r: seq<Bytes>)
    ensures |r| == |inputs| && forall i :: 0 <= i < |r| ==> r[i] == inputs[i].prevTxHash
  {
    seq(|inputs|, i requires 0 <= i < |inputs| => inputs[i].prevTxHash)
  }

  function Addresses(outputs: seq<TxOutput>): (r: seq<Bytes>)
    ensures |r| == |outputs| && forall i :: 0 <= i < |r| ==> r[i] == outputs[i].address
  {
    seq(|outputs|, i requires 0 <= i < |outputs| => outputs[i].address)
  }

  lemma JoinedPush(parts: seq<Bytes>, last: Bytes)
    ensures |Joined(parts + [last])| == |Joined(parts)| + |last|
  {
    ProofOfWork.JoinedConcat(parts, [last]);
    assert [last][1..] == [];
  }

  lemma {:induction false} InputEstimate(inputs: seq<TxInput>)
    ensures InputBytes(inputs) == 8 * |inputs| + |Joined(Hashes(inputs))|
  {
    if inputs != [] {
      var init, last := inputs[..|inputs| - 1], inputs[|inputs| - 1];
      InputEstimate(init);
      assert Hashes(inputs) == Hashes(init) + [last.prevTxHash];
      JoinedPush(Hashes(init), last.prevTxHash);
    }
  }

  lemma {:induction false} OutputEstimate(outputs: seq<TxOutput>)
    ensures OutputBytes(outputs) == 12 * |outputs| + |Joined(Addresses(outputs))|
  {
    if outputs != [] {
      var init, last := outputs[..|outputs| - 1], outputs[|outputs| - 1];
      OutputEstimate(init);
      assert Addresses(outputs) == Addresses(init) + [last.address];
      JoinedPush(Addresses(init), last.address);
    }
  }

  /** The estimate against the wire encoding: the encoded fields, 8 bytes and the hash for an
      input, 12 bytes and the address for an output, two counts and 64 bytes of overhead. */
  lemma EstimateMeasuresWire(tx: Transaction)
    ensures EstimatedBytes(tx) ==
            |MessageCodec.TxBytes(tx)| + (4 + 8 * |tx.inputs| + |Joined(Hashes(tx.inputs))|)
            + (4 + 12 * |tx.outputs| + |Joined(Addresses(tx.outputs))|) + 64
  {
    hide MessageCodec.TxBytes;
    InputEstimate(tx.inputs);
    OutputEstimate(tx.outputs);
    MessageCodec.WireLength(tx);
  }

  // ---------------------------------------------------------------- eviction and restoring

  /** With a clock at least as old as the maximum ages, evictStale keeps exactly what is no older
      than its maximum, entries and orphans by their own reading. */
  lemma StaleExactly(cfg: Limits, p: Pool, now: U64, later: U64, h: Bytes)
    requires now >= cfg.maxTxAgeSeconds && later >= cfg.orphanMaxAgeSecs
    ensures var q := EvictStale(cfg, p, now, later);
            && (h in q.entries <==> h in p.entries && now - p.entries[h].addedAt <= cfg.maxTxAgeSeconds)
            && (h in q.orphans <==> h in p.orphans && later - p.orphans[h].addedAt <= cfg.orphanMaxAgeSecs)
            && (h in q.entries ==> q.entries[h] == p.entries[h])
            && (h in q.orphans ==> q.orphans[h] == p.orphans[h])
  {
    hide SpentBy, Sizes;
  }

  /** evictLowFee keeps exactly the entries whose cap, and whose tip over the new base fee, reach
      the minimum. */
  lemma LowFeeExactly(cfg: Limits, p: Pool, newBaseFee: U64, h: Bytes)
    ensures var q := EvictLowFee(cfg, p, newBaseFee);
            && q.orphans == p.orphans
            && (h in q.entries <==>
                  && h in p.entries && p.entries[h].tx.maxFeePerGas >= cfg.minFeePerGas
                  && newBaseFee + p.entries[h].tx.maxPriorityFeePerGas >= cfg.minFeePerGas)
            && (h in q.entries ==> q.entries[h] == p.entries[h])
  {
    hide EffectiveFee, SpentBy, Sizes;
    if h in p.entries {
      FeeReaches(p.entries[h].tx, newBaseFee, cfg.minFeePerGas);
    }
  }

  /** A transaction taken back from an abandoned block is refused for its fee exactly when its cap
      is below the minimum: it is offered at a base fee of the minimum itself. */
  lemma RestoredForFee(cfg: Limits, world: World, stripe: Stripe, p: Pool, tx: Transaction)
    requires Sound(cfg, p) && p.orphans == map[] && |tx.txHash| == 64 && tx.toAddress != []
    requires tx.inputs == [] && tx.txHash !in p.entries && NonceIsNext(p.entries, tx)
    requires |p.entries| < cfg.maxTxCount && p.totalBytes + EstimatedBytes(tx) <= cfg.maxTotalBytes
    ensures var o := ReorgRestore(cfg, world, stripe, {}, p, [tx]);
            && o.Finished?
            && (tx.txHash in o.pool.entries <==> tx.maxFeePerGas >= cfg.minFeePerGas)
  {
    hide EstimatedBytes, EffectiveFee, Sound, PoolAfter, OfferedAfter, Covered;
    assert [tx][..0] == [];
    FeeReaches(tx, cfg.minFeePerGas, cfg.minFeePerGas);
    SoundTotals(cfg, p);
    if Judge(cfg, world.utxos, p, tx, cfg.minFeePerGas) == Admitted {
      AdmittedCall(cfg, world, stripe, {}, p, tx, cfg.minFeePerGas);
      NobodyOffered(world, p, tx, cfg.minFeePerGas);
      NothingToOffer(cfg, world, stripe, {} + {stripe(tx.txHash)}, PoolAfter(world, p, tx, cfg.minFeePerGas),
                     cfg.minFeePerGas);
      AddAnswer(cfg, world, p, tx, cfg.minFeePerGas);
      FinishedIsAdd(cfg, world, stripe, {}, p, tx, cfg.minFeePerGas);
    }
  }

  lemma SoundTotals(cfg: Limits, p: Pool)
    requires Sound(cfg, p)
    ensures p.totalBytes <= cfg.maxTotalBytes
  {
    hide Agrees;
  }
}
