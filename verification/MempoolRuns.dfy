/** The pool over every run of its operations, and what its checks promise the ledger. */
module MempoolRuns {
  import opened Wrappers
  import opened ByteStrings
  import opened ChainTypes
  import opened MapSums
  import opened LedgerState
  import opened SupplyBound
  import opened MempoolState
  import opened MempoolLocks

  // ---------------------------------------------------------------- removal in any order

  lemma RemoveEntries(p: Pool, hash: Bytes)
    ensures Remove(p, hash).entries == p.entries - {hash} && Remove(p, hash).orphans == p.orphans
  {
  }

  lemma RemoveAgrees(p: Pool, hash: Bytes)
    requires Agrees(p)
    ensures Agrees(Remove(p, hash))
  {
    hide Agrees, WithinLimits, Remove;
    RemoveKeeps(Limits(0, 0, 0, 0, 0, 0), p, hash);
  }

  lemma {:induction false} RemoveEachEntries(p: Pool, hashes: seq<Bytes>)
    requires Agrees(p)
    ensures var q := RemoveEach(p, hashes);
            Agrees(q) && q.entries == p.entries - KeySet(hashes) && q.orphans == p.orphans
  {
    hide Agrees, Remove, KeySet;
    if hashes == [] {
      NoKeys();
      assert p.entries - KeySet(hashes) == p.entries;
    } else {
      var init, last := hashes[..|hashes| - 1], hashes[|hashes| - 1];
      var q := RemoveEach(p, init);
      RemoveEachEntries(p, init);
      RemoveAgrees(q, last);
      RemoveEntries(q, last);
      KeySetStep(hashes);
      assert p.entries - KeySet(init) - {last} == p.entries - KeySet(hashes);
    }
  }

  /** Removing some hashes, in whatever order and however often, leaves the pool rebuilt from
      the other entries. */
  lemma RemovalIsRebuild(p: Pool, hashes: seq<Bytes>)
    requires Agrees(p)
    ensures RemoveEach(p, hashes) == Rebuilt(p.entries - KeySet(hashes), p.orphans)
    ensures Agrees(RemoveEach(p, hashes))
  {
    hide Agrees, SpentBy, Total, Sizes;
    RemoveEachEntries(p, hashes);
    AgreedIsRebuilt(RemoveEach(p, hashes));
  }

  lemma AgreedIsRebuilt(p: Pool)
    requires Agrees(p)
    ensures p == Rebuilt(p.entries, p.orphans)
  {
    hide SpentBy, Total, Sizes, Keyed, NoSharedOutpoint, NoSharedNonce;
  }

  ghost predicate PartOf(part: map<Bytes, Entry>, whole: map<Bytes, Entry>) {
    forall h :: h in part ==> h in whole && part[h] == whole[h]
  }

  lemma PartSharesNothing(part: map<Bytes, Entry>, whole: map<Bytes, Entry>)
    requires PartOf(part, whole)
    ensures Keyed(whole) ==> Keyed(part)
    ensures NoSharedNonce(whole) ==> NoSharedNonce(part)
    ensures NoSharedOutpoint(whole) ==> NoSharedOutpoint(part)
  {
    hide EstimatedBytes, InputSet;
  }

  lemma PartIsLighter(part: map<Bytes, Entry>, whole: map<Bytes, Entry>)
    requires PartOf(part, whole)
    ensures |part| <= |whole| && Total(Sizes(part)) <= Total(Sizes(whole))
  {
    PartIsSmaller(part, whole);
    TotalPart(Sizes(part), Sizes(whole));
  }

  /** A sound pool rebuilt from part of its entries and part of its orphans is sound. */
  lemma PartIsSound(cfg: Limits, p: Pool, entries: map<Bytes, Entry>, orphans: map<Bytes, Entry>)
    requires Sound(cfg, p)
    requires PartOf(entries, p.entries) && PartOf(orphans, p.orphans)
    ensures Sound(cfg, Rebuilt(entries, orphans))
  {
    hide Total, Sizes, SpentBy, Keyed, NoSharedOutpoint, NoSharedNonce;
    PartSharesNothing(entries, p.entries);
    PartSharesNothing(orphans, p.orphans);
    PartIsLighter(entries, p.entries);
    PartIsLighter(orphans, p.orphans);
  }

  // ---------------------------------------------------------------- runs

  datatype Op =
    | AddTx(tx: Transaction, baseFee: U64)
    | RemoveTx(hash: Bytes)
    | Confirm(block: seq<Transaction>)
    | Reorg(reorgedOut: seq<Transaction>)
    | DropStale(later: U64)
    | DropLowFee(newBaseFee: U64)

  datatype Move = Move(op: Op, world: World)

  /** The pool, and the stripes of the calls that wait for ever. */
  datatype Node = Node(pool: Pool, stuck: set<nat>)

  function After(o: Outcome, n: Node): Node {
    match o
    case Finished(q, _) => n.(pool := q)
    case Blocked(q, held) => Node(q, held)
  }

  ghost function Apply(cfg: Limits, stripe: Stripe, n: Node, m: Move): Node {
    var p := n.pool;
    match m.op
    case AddTx(tx, baseFee) => After(AddLocked(cfg, m.world, stripe, n.stuck, p, tx, baseFee), n)
    case RemoveTx(hash) => n.(pool := Remove(p, hash))
    case Confirm(block) => n.(pool := RemoveEach(p, Hashes(block)))
    case Reorg(reorgedOut) => After(ReorgRestore(cfg, m.world, stripe, n.stuck, p, reorgedOut), n)
    case DropStale(later) => n.(pool := EvictStale(cfg, p, m.world.now, later))
    case DropLowFee(newBaseFee) => n.(pool := EvictLowFee(cfg, p, newBaseFee))
  }

  ghost function Run(cfg: Limits, stripe: Stripe, moves: seq<Move>): Node {
    if moves == [] then Node(EMPTY, {})
    else Apply(cfg, stripe, Run(cfg, stripe, moves[..|moves| - 1]), moves[|moves| - 1])
  }

  lemma StaleKeeps(cfg: Limits, p: Pool, now: U64, later: U64)
    requires Sound(cfg, p)
    ensures Sound(cfg, EvictStale(cfg, p, now, later))
  {
    hide Sound, SpentBy, Total, Sizes, Cutoff;
    PartIsSound(cfg, p, KeepFresh(p.entries, Cutoff(now, cfg.maxTxAgeSeconds)),
                KeepFresh(p.orphans, Cutoff(later, cfg.orphanMaxAgeSecs)));
  }

  lemma LowFeeKeeps(cfg: Limits, p: Pool, newBaseFee: U64)
    requires Sound(cfg, p)
    ensures Sound(cfg, EvictLowFee(cfg, p, newBaseFee))
  {
    hide Sound, SpentBy, Total, Sizes, EffectiveFee;
    PartIsSound(cfg, p, EvictLowFee(cfg, p, newBaseFee).entries, p.orphans);
  }

  lemma ConfirmKeeps(cfg: Limits, p: Pool, hashes: seq<Bytes>)
    requires Sound(cfg, p)
    ensures Sound(cfg, RemoveEach(p, hashes))
  {
    hide Agrees, WithinLimits, SpentBy, Total, Sizes;
    RemovalIsRebuild(p, hashes);
    PartIsSound(cfg, p, p.entries - KeySet(hashes), p.orphans);
  }

  lemma ApplyKeeps(cfg: Limits, stripe: Stripe, n: Node, m: Move)
    requires Sound(cfg, n.pool) && Walks(m.world.scan)
    ensures Sound(cfg, Apply(cfg, stripe, n, m).pool)
  {
    hide Walks, Agrees, WithinLimits, AddLocked, ReorgRestore, EvictStale, EvictLowFee, Remove;
    var p := n.pool;
    match m.op
    case AddTx(tx, baseFee) => LockedKeeps(cfg, m.world, stripe, n.stuck, p, tx, baseFee);
    case RemoveTx(hash) => RemoveKeeps(cfg, p, hash);
    case Confirm(block) => ConfirmKeeps(cfg, p, Hashes(block));
    case Reorg(reorgedOut) => ReorgKeeps(cfg, m.world, stripe, n.stuck, p, reorgedOut);
    case DropStale(later) => StaleKeeps(cfg, p, m.world.now, later);
    case DropLowFee(newBaseFee) => LowFeeKeeps(cfg, p, newBaseFee);
  }

  /** Safety over every run, through calls that return and calls that wait for ever: in each
      reachable pool the spent outpoints are exactly those of the entries, no two entries share an
      outpoint or an (address, nonce) pair, the byte counter is the sum of the entry sizes and
      every limit holds. */
  lemma {:induction false} RunKeeps(cfg: Limits, stripe: Stripe, moves: seq<Move>)
    requires forall i :: 0 <= i < |moves| ==> Walks(moves[i].world.scan)
    ensures Sound(cfg, Run(cfg, stripe, moves).pool)
  {
    hide Walks, Apply, Sound;
    if moves == [] {
      EmptyIsSound(cfg);
    } else {
      RunKeeps(cfg, stripe, moves[..|moves| - 1]);
      ApplyKeeps(cfg, stripe, Run(cfg, stripe, moves[..|moves| - 1]), moves[|moves| - 1]);
    }
  }

  // ---------------------------------------------------------------- what one admission does

  ghost function OrphanTxs(p: Pool): set<Transaction> {
    set h | h in p.orphans :: p.orphans[h].tx
  }

  /** q keeps every entry of base, and whatever else it holds is one of the given transactions. */
  ghost predicate GrownFrom(q: Pool, base: Pool, txs: set<Transaction>) {
    && (forall h :: h in base.entries ==> h in q.entries && q.entries[h] == base.entries[h])
    && (forall h :: h in q.entries ==> h in base.entries || q.entries[h].tx in txs)
    && (forall h :: h in q.orphans ==> q.orphans[h].tx in txs)
  }

  lemma {:induction false} DependentsAreOrphans(orphans: map<Bytes, Entry>, keys: seq<Bytes>, hash: Bytes,
                                                txs: set<Transaction>)
    requires forall h :: h in orphans ==> orphans[h].tx in txs
    ensures forall i :: 0 <= i < |Dependents(orphans, keys, hash)| ==> Dependents(orphans, keys, hash)[i] in txs
  {
    hide DependsOn;
    if keys != [] {
      DependentsAreOrphans(orphans, keys[..|keys| - 1], hash, txs);
    }
  }

  /** One more key walked. */
  lemma DependentsStep(orphans: map<Bytes, Entry>, keys: seq<Bytes>, i: nat, hash: Bytes)
    requires i < |keys|
    ensures Dependents(orphans, keys[..i + 1], hash) == Dependents(orphans, keys[..i], hash) +
              (if keys[i] in orphans && DependsOn(orphans[keys[i]].tx, hash) then [orphans[keys[i]].tx] else [])
  {
    assert keys[..i + 1][..i] == keys[..i];
  }

  lemma {:induction false} AddGrows(cfg: Limits, world: World, base: Pool, p: Pool, tx: Transaction, baseFee: U64,
                                   txs: set<Transaction>)
    requires GrownFrom(p, base, txs) && tx in txs
    ensures GrownFrom(Add(cfg, world, p, tx, baseFee).0, base, txs)
    decreases Room(cfg, p), 0, 0
  {
    hide Judge, AddOrphan, Insert, Dependents, Independent, GrownFrom;
    match Judge(cfg, world.utxos, p, tx, baseFee)
    case Rejected =>
    case Orphaned => OrphanGrows(cfg, world, base, p, tx, txs);
    case Admitted =>
      var q := Insert(p, tx, baseFee, world.now);
      RoomShrinks(cfg, world, p, tx, baseFee);
      NotYetHeld(cfg, world, p, tx, baseFee);
      InsertGrows(base, p, tx, baseFee, world.now, world.scan(q), txs);
      AddAllGrows(cfg, world, base, q.(orphans := Independent(q.orphans, tx.txHash)),
                  Dependents(q.orphans, world.scan(q), tx.txHash), baseFee, txs);
  }

  lemma OrphanGrows(cfg: Limits, world: World, base: Pool, p: Pool, tx: Transaction, txs: set<Transaction>)
    requires GrownFrom(p, base, txs) && tx in txs
    ensures GrownFrom(AddOrphan(cfg, world, p, tx), base, txs)
  {
    hide RoomFor, EstimatedBytes;
    RoomForIsPart(cfg, world, p);
  }

  lemma InsertGrows(base: Pool, p: Pool, tx: Transaction, baseFee: U64, now: U64, keys: seq<Bytes>,
                    txs: set<Transaction>)
    requires GrownFrom(p, base, txs) && tx in txs && tx.txHash !in p.entries
    ensures var q := Insert(p, tx, baseFee, now);
            && GrownFrom(q.(orphans := Independent(q.orphans, tx.txHash)), base, txs)
            && (forall i :: 0 <= i < |Dependents(q.orphans, keys, tx.txHash)| ==>
                Dependents(q.orphans, keys, tx.txHash)[i] in txs)
  {
    hide Dependents, DependsOn, EstimatedBytes, EffectiveFee;
    DependentsAreOrphans(p.orphans, keys, tx.txHash, txs);
  }

  lemma NotYetHeld(cfg: Limits, world: World, p: Pool, tx: Transaction, baseFee: U64)
    requires Judge(cfg, world.utxos, p, tx, baseFee) == Admitted
    ensures tx.txHash !in p.entries
  {
  }

  lemma {:induction false} AddAllGrows(cfg: Limits, world: World, base: Pool, p: Pool, list: seq<Transaction>,
                                       baseFee: U64,
                                      txs: set<Transaction>)
    requires GrownFrom(p, base, txs) && forall i :: 0 <= i < |list| ==> list[i] in txs
    ensures GrownFrom(AddAll(cfg, world, p, list, baseFee), base, txs)
    decreases Room(cfg, p), 1, |list|
  {
    hide GrownFrom, Add;
    if list != [] {
      AddGrows(cfg, world, base, p, list[0], baseFee, txs);
      AddAllGrows(cfg, world, base, Add(cfg, world, p, list[0], baseFee).0, list[1..], baseFee, txs);
    }
  }

  /** The answer is the verdict; an admitted transaction stays with the fee and size it was
      judged by; no entry is displaced, and nothing appears but the transaction and old orphans. */
  lemma AddAnswer(cfg: Limits, world: World, p: Pool, tx: Transaction, baseFee: U64)
    ensures var (q, ok) := Add(cfg, world, p, tx, baseFee);
            && GrownFrom(q, p, OrphanTxs(p) + {tx})
            && match Judge(cfg, world.utxos, p, tx, baseFee)
               case Rejected => !ok && q == p
               case Orphaned =>
                 && !ok && q == p.(orphans := q.orphans) && tx.txHash in q.orphans
                 && (tx.txHash !in p.orphans ==> q.orphans[tx.txHash] == Entry(tx, world.now, 0, EstimatedBytes(tx)))
               case Admitted =>
                 && ok && tx.txHash in q.entries
                 && q.entries[tx.txHash]
                    == Entry(tx, world.now, EffectiveFee(tx, baseFee), EstimatedBytes(tx))
  {
    hide Judge, RoomFor, Dependents, DependsOn, EstimatedBytes, EffectiveFee, Independent;
    var txs := OrphanTxs(p) + {tx};
    AddGrows(cfg, world, p, p, tx, baseFee, txs);
    RoomForIsPart(cfg, world, p);
    if Judge(cfg, world.utxos, p, tx, baseFee) == Admitted {
      AdmittedStays(cfg, world, p, tx, baseFee, txs);
    }
  }

  lemma AdmittedStays(cfg: Limits, world: World, p: Pool, tx: Transaction, baseFee: U64, txs: set<Transaction>)
    requires Judge(cfg, world.utxos, p, tx, baseFee) == Admitted && GrownFrom(p, p, txs)
    ensures var q := Add(cfg, world, p, tx, baseFee).0;
            && tx.txHash in q.entries
            && q.entries[tx.txHash] == Entry(tx, world.now, EffectiveFee(tx, baseFee), EstimatedBytes(tx))
  {
    hide Judge, Dependents, DependsOn, EstimatedBytes, EffectiveFee;
    var q := Insert(p, tx, baseFee, world.now);
    DependentsAreOrphans(q.orphans, world.scan(q), tx.txHash, txs);
    AddAllGrows(cfg, world, q, q.(orphans := Independent(q.orphans, tx.txHash)),
                Dependents(q.orphans, world.scan(q), tx.txHash), baseFee, txs);
  }

  // ---------------------------------------------------------------- what the cascade leaves

  /** Every orphan that waits for the hash has a nonce the pool has already reached. */
  ghost predicate Settled(p: Pool, hash: Bytes) {
    forall h :: h in p.orphans && DependsOn(p.orphans[h].tx, hash) ==> !NonceIsNext(p.entries, p.orphans[h].tx)
  }

  lemma NonceStaysReached(p: Pool, tx: Transaction, baseFee: U64, now: U64, other: Transaction)
    requires tx.txHash !in p.entries && !NonceIsNext(p.entries, other)
    ensures !NonceIsNext(Insert(p, tx, baseFee, now).entries, other)
  {
    hide EffectiveFee, EstimatedBytes;
    var h :| h in p.entries && p.entries[h].tx.toAddress == other.toAddress && p.entries[h].tx.nonce >= other.nonce;
    assert Insert(p, tx, baseFee, now).entries[h] == p.entries[h];
  }

  lemma InsertSettled(p: Pool, tx: Transaction, baseFee: U64, now: U64, hash: Bytes)
    requires tx.txHash !in p.entries && Settled(p, hash)
    ensures Settled(Insert(p, tx, baseFee, now), hash)
  {
    hide EffectiveFee, EstimatedBytes, DependsOn, NonceIsNext;
    forall h | h in p.orphans && DependsOn(p.orphans[h].tx, hash)
      ensures !NonceIsNext(Insert(p, tx, baseFee, now).entries, p.orphans[h].tx)
    {
      NonceStaysReached(p, tx, baseFee, now, p.orphans[h].tx);
    }
  }

  lemma OrphanedIsLate(cfg: Limits, utxos: Utxos, p: Pool, tx: Transaction, baseFee: U64)
    requires Judge(cfg, utxos, p, tx, baseFee) == Orphaned
    ensures !NonceIsNext(p.entries, tx)
  {
  }

  lemma {:induction false} AddSettled(cfg: Limits, world: World, p: Pool, tx: Transaction, baseFee: U64, hash: Bytes)
    requires Settled(p, hash)
    ensures Settled(Add(cfg, world, p, tx, baseFee).0, hash)
    decreases Room(cfg, p), 0, 0
  {
    hide Judge, RoomFor, Dependents, DependsOn, EstimatedBytes, NonceIsNext;
    match Judge(cfg, world.utxos, p, tx, baseFee)
    case Rejected =>
    case Orphaned =>
      RoomForIsPart(cfg, world, p);
      OrphanedIsLate(cfg, world.utxos, p, tx, baseFee);
    case Admitted =>
      var q := Insert(p, tx, baseFee, world.now);
      RoomShrinks(cfg, world, p, tx, baseFee);
      NotYetHeld(cfg, world, p, tx, baseFee);
      InsertSettled(p, tx, baseFee, world.now, hash);
      AddAllSettled(cfg, world, q.(orphans := Independent(q.orphans, tx.txHash)),
                    Dependents(q.orphans, world.scan(q), tx.txHash), baseFee, hash);
  }

  lemma {:induction false} AddAllSettled(cfg: Limits, world: World, p: Pool, list: seq<Transaction>, baseFee: U64,
                                         hash: Bytes)
    requires Settled(p, hash)
    ensures Settled(AddAll(cfg, world, p, list, baseFee), hash)
    decreases Room(cfg, p), 1, |list|
  {
    hide Settled, Add;
    if list != [] {
      AddSettled(cfg, world, p, list[0], baseFee, hash);
      AddAllSettled(cfg, world, Add(cfg, world, p, list[0], baseFee).0, list[1..], baseFee, hash);
    }
  }

  /** After an admission no orphan waiting for the transaction could still be admitted by its
      nonce, in whatever order the orphans were offered again. */
  lemma AdmissionSettles(cfg: Limits, world: World, p: Pool, tx: Transaction, baseFee: U64)
    requires Judge(cfg, world.utxos, p, tx, baseFee) == Admitted
    ensures Settled(Add(cfg, world, p, tx, baseFee).0, tx.txHash)
  {
    hide Judge, Dependents, DependsOn, NonceIsNext, Insert;
    var q := Insert(p, tx, baseFee, world.now);
    var start := q.(orphans := Independent(q.orphans, tx.txHash));
    assert Settled(start, tx.txHash);
    AddAllSettled(cfg, world, start, Dependents(q.orphans, world.scan(q), tx.txHash), baseFee, tx.txHash);
  }

  // ---------------------------------------------------------------- fees and ages

  /** The wrapped cutoff evicts exactly what is older than the maximum age precisely when the
      clock has run for at least that long. */
  lemma CutoffExact(now: U64, maxAge: U64)
    ensures now >= maxAge <==> forall added: U64 :: added <= now ==>
        (IsStale(added, Cutoff(now, maxAge)) <==> now - added > maxAge)
  {
    if now < maxAge {
      assert IsStale(now, Cutoff(now, maxAge));
    }
  }

  /** Before that, everything is evicted. */
  lemma EarlyClockEvictsAll(now: U64, maxAge: U64, added: U64)
    requires now < maxAge && added <= now
    ensures IsStale(added, Cutoff(now, maxAge)) && now - added < maxAge
  {
  }

  lemma FeeGrowsWithBase(tx: Transaction, low: U64, high: U64)
    requires low <= high
    ensures EffectiveFee(tx, low) <= EffectiveFee(tx, high)
  {
  }

  /** evictLowFee can only bite when the base fee has fallen: an entry admitted at some base fee
      survives at any higher one. */
  lemma HigherBaseEvictsNothing(cfg: Limits, p: Pool, baseFee: U64, newBaseFee: U64)
    requires Sound(cfg, p) && baseFee <= newBaseFee
    requires forall h :: h in p.entries ==> p.entries[h].effectiveFee == EffectiveFee(p.entries[h].tx, baseFee)
    ensures EvictLowFee(cfg, p, newBaseFee) == p
  {
    hide EffectiveFee, EstimatedBytes, Total, SpentBy;
    forall h | h in p.entries
      ensures EffectiveFee(p.entries[h].tx, newBaseFee) >= cfg.minFeePerGas
    {
      FeeGrowsWithBase(p.entries[h].tx, baseFee, newBaseFee);
    }
    assert EvictLowFee(cfg, p, newBaseFee).entries == p.entries;
  }

  // ---------------------------------------------------------------- what the ledger can rely on

  /** Validation bounds the outputs of a transaction exactly when it has inputs: without inputs
      the outputs are not looked at. */
  lemma OutputsBoundedIffInputs(cfg: Limits, utxos: Utxos, tx: Transaction, baseFee: U64)
    requires ValidTx(cfg, utxos, tx, baseFee)
    ensures tx.inputs != [] <==>
            forall outputs :: ValidTx(cfg, utxos, tx.(outputs := outputs), baseFee) ==> OutputSum(outputs) < U64_LIMIT
  {
    if tx.inputs == [] {
      var outputs := [TxOutput(U64_MAX, []), TxOutput(1, [])];
      assert outputs[..1] == [outputs[0]] && outputs[..1][..0] == [];
      assert OutputSum(outputs[..1]) == U64_MAX;
      assert ValidTx(cfg, utxos, tx.(outputs := outputs), baseFee);
    }
  }

  lemma {:induction false} InputSumFront(utxos: Utxos, inputs: seq<TxInput>)
    requires inputs != [] && forall k :: 0 <= k < |inputs| ==> inputs[k] in utxos
    ensures InputSum(utxos, inputs) == utxos[inputs[0]].value + InputSum(utxos, inputs[1..])
  {
    if |inputs| == 1 {
      assert inputs[..0] == inputs[1..] == [];
    } else {
      var init := inputs[..|inputs| - 1];
      InputSumFront(utxos, init);
      assert init[1..] == inputs[1..][..|inputs| - 2];
    }
  }

  /** The ledger's input loop passes exactly when no input repeats or is already spent, and then
      computes the plain sum. */
  lemma {:induction false} LedgerInputLoop(rules: Rules, utxos: Utxos, tx: Transaction, inputs: seq<TxInput>,
                                          spent: set<TxInput>, sum: U64)
    requires forall k :: 0 <= k < |inputs| ==> inputs[k] in utxos && SignatureFine(rules, tx, utxos[inputs[k]].address)
    requires sum + InputSum(utxos, inputs) <= U64_MAX
    ensures var checked := CheckedInputs(rules, utxos, tx, inputs, spent, sum);
            && (checked.Some? <==> NoRepeat(inputs) && forall k :: 0 <= k < |inputs| ==> inputs[k] !in spent)
            && (checked.Some? ==> checked.value == (sum + InputSum(utxos, inputs), spent + InputSet(inputs)))
    decreases inputs
  {
    hide SignatureFine, NoRepeat, InputSum, InputSet;
    if inputs == [] {
      NothingRepeats(utxos);
      assert spent + InputSet(inputs) == spent;
    } else {
      var o, rest := inputs[0], inputs[1..];
      assert forall k :: 0 <= k < |rest| ==> rest[k] == inputs[k + 1];
      InputSumFront(utxos, inputs);
      InputSetStep(inputs);
      NoRepeatStep(inputs, spent);
      if o !in spent {
        LedgerInputLoop(rules, utxos, tx, rest, spent + {o}, sum + utxos[o].value);
        assert spent + {o} + InputSet(rest) == spent + InputSet(inputs);
      }
    }
  }

  lemma NothingRepeats(utxos: Utxos)
    ensures NoRepeat([]) && InputSum(utxos, []) == 0 && InputSet([]) == {}
  {
  }

  lemma NoRepeatStep(inputs: seq<TxInput>, spent: set<TxInput>)
    requires inputs != []
    ensures (NoRepeat(inputs) && forall k :: 0 <= k < |inputs| ==> inputs[k] !in spent) <==>
            (inputs[0] !in spent && NoRepeat(inputs[1..])
             && forall k :: 0 <= k < |inputs[1..]| ==> inputs[1..][k] !in spent + {inputs[0]})
  {
    var rest := inputs[1..];
    assert forall k :: 0 < k < |inputs| ==> inputs[k] == rest[k - 1];
  }

  /** Transactions the pool would pass, whose outpoints are pairwise apart, are accepted by the
      ledger's transaction checks exactly when none of them names an input twice, a case the
      pool does not look for. */
  lemma {:induction false} ApartIsAccepted(rules: Rules, utxos: Utxos, txs: seq<Transaction>, spent: set<TxInput>)
    requires forall i :: 0 <= i < |txs| ==> Offered(rules, utxos, txs[i]) && InputSet(txs[i].inputs) !! spent
    requires forall i, j :: 0 <= i < j < |txs| ==> InputSet(txs[i].inputs) !! InputSet(txs[j].inputs)
    ensures CheckedRest(rules, utxos, txs, spent) <==> forall i :: 0 <= i < |txs| ==> NoRepeat(txs[i].inputs)
    decreases txs
  {
    hide NoRepeat, CheckedInputs;
    if txs != [] {
      var tx, rest := txs[0], txs[1..];
      OneAccepted(rules, utxos, tx, spent);
      assert forall i :: 0 < i < |txs| ==> txs[i] == rest[i - 1];
      ApartIsAccepted(rules, utxos, rest, spent + InputSet(tx.inputs));
    }
  }

  /** A transaction the pool has validated against these outputs, signed for each of them. */
  ghost predicate Offered(rules: Rules, utxos: Utxos, tx: Transaction) {
    && |tx.txHash| == 64 && tx.inputs != [] && Covered(utxos, tx)
    && forall k :: 0 <= k < |tx.inputs| && tx.inputs[k] in utxos ==>
         (tx.r == Zeros(32) && tx.s == Zeros(32)) || rules.recovers(tx, utxos[tx.inputs[k]].address)
  }

  lemma OneAccepted(rules: Rules, utxos: Utxos, tx: Transaction, spent: set<TxInput>)
    requires Offered(rules, utxos, tx) && InputSet(tx.inputs) !! spent
    ensures var checked := CheckedInputs(rules, utxos, tx, tx.inputs, spent, 0);
            && (checked.Some? <==> NoRepeat(tx.inputs))
            && (checked.Some? ==> OutputSum(tx.outputs) % U64_LIMIT <= checked.value.0
                                  && checked.value.1 == spent + InputSet(tx.inputs))
  {
    hide NoRepeat, CheckedInputs;
    LedgerInputLoop(rules, utxos, tx, tx.inputs, spent, 0);
    assert forall k :: 0 <= k < |tx.inputs| ==> tx.inputs[k] in InputSet(tx.inputs);
  }

  /** From the pool to the block: any list of distinct entries still covered and signed passes
      the ledger's duplicate and transaction checks, up to inputs repeated inside one
      transaction. */
  lemma PendingBlockAccepted(rules: Rules, utxos: Utxos, p: Pool, hashes: seq<Bytes>)
    requires Agrees(p)
    requires forall i :: 0 <= i < |hashes| ==> hashes[i] in p.entries && Offered(rules, utxos, p.entries[hashes[i]].tx)
    requires forall i, j :: 0 <= i < j < |hashes| ==> hashes[i] != hashes[j]
    ensures var txs := seq(|hashes|, i requires 0 <= i < |hashes| => p.entries[hashes[i]].tx);
            && !HasDuplicate(txs)
            && (CheckedRest(rules, utxos, txs, {}) <==> forall i :: 0 <= i < |txs| ==> NoRepeat(txs[i].inputs))
  {
    hide NoRepeat, Offered, EstimatedBytes, Total, SpentBy, CheckedRest;
    var txs := seq(|hashes|, i requires 0 <= i < |hashes| => p.entries[hashes[i]].tx);
    assert forall i :: 0 <= i < |txs| ==> txs[i].txHash == hashes[i];
    assert forall i, j :: 0 <= i < j < |txs| ==> InputSet(txs[i].inputs) !! InputSet(txs[j].inputs);
    ApartIsAccepted(rules, utxos, txs, {});
  }

  // ---------------------------------------------------------------- a repeated input

  lemma {:induction false} SpentAreThere(rules: Rules, utxos: Utxos, inputs: seq<TxInput>, height: nat)
    requires SpendInputs(rules, utxos, inputs, height).1
    ensures NoRepeat(inputs) && forall k :: 0 <= k < |inputs| ==> inputs[k] in utxos
    decreases inputs
  {
    if inputs != [] {
      var rest := inputs[1..];
      SpentAreThere(rules, utxos - {inputs[0]}, rest, height);
      assert forall k :: 0 < k < |inputs| ==> inputs[k] == rest[k - 1];
    }
  }

  /** No block is ever applied in which a transaction names an input twice. */
  lemma {:induction false} AppliedNamesInputsOnce(cfg: Config, rules: Rules, utxos: Utxos, balances: Balances,
                                                 txs: seq<Transaction>, height: nat, isCoinbase: bool)
    requires ApplyTxs(cfg, rules, utxos, balances, txs, height, isCoinbase).ok
    ensures forall i :: 0 <= i < |txs| ==> NoRepeat(txs[i].inputs)
    decreases txs
  {
    hide AddOutputs, SpendInputs, NoRepeat;
    if txs != [] {
      var spent := SpendInputs(rules, utxos, txs[0].inputs, height).0;
      SpentAreThere(rules, utxos, txs[0].inputs, height);
      var a := AddOutputs(cfg, spent, balances, txs[0], 0, height, isCoinbase);
      AppliedNamesInputsOnce(cfg, rules, a.utxos, a.balances, txs[1..], height, false);
      assert forall i :: 0 < i < |txs| ==> txs[i] == txs[1..][i - 1];
    }
  }

  const ROOMY: Limits := Limits(10, 100_000, 0, 3600, 10, 300)

  function Sample(hash: Bytes, to: Bytes, nonce: U64, inputs: seq<TxInput>): Transaction {
    Transaction(0, nonce, 0, 0, 0, to, 0, [], inputs, [], 0, Zeros(32), Zeros(32), hash)
  }

  /** The pool admits such a transaction all the same. */
  lemma RepeatedInputAdmitted(hash: Bytes, o: TxInput)
    requires |hash| == 64 && |o.prevTxHash| == 64
    ensures var tx := Sample(hash, [1], 0, [o, o]);
            !NoRepeat(tx.inputs) && Judge(ROOMY, map[o := Utxo(1, [], 0, false)], EMPTY, tx, 0) == Admitted
  {
    var tx := Sample(hash, [1], 0, [o, o]);
    var utxos := map[o := Utxo(1, [], 0, false)];
    assert tx.inputs[0] == tx.inputs[1];
    TwiceSums(utxos, o);
  }

  lemma TwiceSums(utxos: Utxos, o: TxInput)
    requires o in utxos && |o.prevTxHash| == 64
    ensures InputSum(utxos, [o, o]) == 2 * utxos[o].value && InputBytes([o, o]) == 144
  {
    var one, two := [o], [o, o];
    assert two[..1] == one && two[1] == o && one[..0] == [] && one[0] == o;
    assert InputSum(utxos, one) == InputSum(utxos, []) + utxos[o].value;
    assert InputSum(utxos, two) == InputSum(utxos, two[..1]) + utxos[o].value;
    assert InputBytes(one) == InputBytes([]) + 72 && InputBytes(two) == InputBytes(two[..1]) + 72;
  }

  // ---------------------------------------------------------------- a call that never returns

  /** An entry to one address, an orphan to it that waits for the hash h, and a transaction with
      that hash to another address. */
  function Ahead(e: Bytes): Transaction {
    Sample(e, [1], 5, [])
  }

  function Waiting(o: Bytes, h: Bytes): Transaction {
    Sample(o, [1], 3, [TxInput(h, 0)])
  }

  function Awaited(h: Bytes): Transaction {
    Sample(h, [2], 0, [])
  }

  function WorldOf(h: Bytes, scan: Pool -> seq<Bytes>): World {
    World(map[TxInput(h, 0) := Utxo(1, [], 0, false)], 0, scan)
  }

  ghost function PoolAhead(e: Bytes): Pool {
    Pool(map[e := Entry(Ahead(e), 0, 0, 269)], map[], {}, 269)
  }

  lemma AheadJudged(e: Bytes, h: Bytes, scan: Pool -> seq<Bytes>)
    requires |e| == 64
    ensures Judge(ROOMY, WorldOf(h, scan).utxos, EMPTY, Ahead(e), 0) == Admitted
    ensures Insert(EMPTY, Ahead(e), 0, 0) == PoolAhead(e)
  {
    assert EstimatedBytes(Ahead(e)) == 269 && InputSet([]) == {};
    hide EstimatedBytes, InputSet;
  }

  lemma AheadAdmitted(e: Bytes, h: Bytes, scan: Pool -> seq<Bytes>, stripe: Stripe)
    requires |e| == 64
    ensures AddLocked(ROOMY, WorldOf(h, scan), stripe, {}, EMPTY, Ahead(e), 0) == Finished(PoolAhead(e), true)
  {
    hide Judge, Insert, AddLocked, AddAllLocked, AddAll, Add, OfferedAfter, Independent, DependsOn;
    var world := WorldOf(h, scan);
    AheadJudged(e, h, scan);
    AdmittedCall(ROOMY, world, stripe, {}, EMPTY, Ahead(e), 0);
    NobodyOffered(world, EMPTY, Ahead(e), 0);
    NothingToOffer(ROOMY, world, stripe, {} + {stripe(e)}, PoolAfter(world, EMPTY, Ahead(e), 0), 0);
  }

  ghost function PoolWaiting(e: Bytes, o: Bytes, h: Bytes): Pool {
    Pool(map[e := Entry(Ahead(e), 0, 0, 269)], map[o := Entry(Waiting(o, h), 0, 0, 341)], {}, 269)
  }

  lemma WaitingValid(o: Bytes, h: Bytes, scan: Pool -> seq<Bytes>)
    requires |o| == 64 && |h| == 64
    ensures ValidTx(ROOMY, WorldOf(h, scan).utxos, Waiting(o, h), 0) && EstimatedBytes(Waiting(o, h)) == 341
  {
    var inputs := Waiting(o, h).inputs;
    assert inputs[..0] == [];
    assert InputSum(WorldOf(h, scan).utxos, inputs) == 1 && InputBytes(inputs) == 72;
  }

  lemma WaitingOrphaned(e: Bytes, o: Bytes, h: Bytes, scan: Pool -> seq<Bytes>, stripe: Stripe)
    requires |e| == 64 && |o| == 64 && |h| == 64 && e != o
    ensures AddLocked(ROOMY, WorldOf(h, scan), stripe, {}, PoolAhead(e),
                      Waiting(o, h), 0) == Finished(PoolWaiting(e, o, h), false)
  {
    hide ValidTx, EstimatedBytes, PromoteLocked, Oldest;
    var p := PoolAhead(e);
    WaitingValid(o, h, scan);
    assert p.entries[e].tx.nonce > Waiting(o, h).nonce;
    assert Judge(ROOMY, WorldOf(h, scan).utxos, p, Waiting(o, h), 0) == Orphaned;
  }

  /** Two ordinary offers lead to a pool in which a third, though it would be admitted, never
      returns: an orphan waiting for it lies on its stripe. The orphan may even carry the same
      hash, and then every assignment of stripes will do. */
  lemma StuckCallIsReachable(stripe: Stripe, scan: Pool -> seq<Bytes>, e: Bytes, o: Bytes, h: Bytes)
    requires |e| == 64 && |o| == 64 && |h| == 64 && e != o && e != h && Walks(scan) && stripe(o) == stripe(h)
    ensures var world := WorldOf(h, scan);
            var n := Run(ROOMY, stripe, [Move(AddTx(Ahead(e), 0), world), Move(AddTx(Waiting(o, h), 0), world)]);
            && n.stuck == {}
            && Add(ROOMY, world, n.pool, Awaited(h), 0).1
            && AddLocked(ROOMY, world, stripe, n.stuck, n.pool, Awaited(h), 0).Blocked?
  {
    hide AddLocked, Add, Walks, ValidTx, EstimatedBytes;
    var world := WorldOf(h, scan);
    var first, second := Move(AddTx(Ahead(e), 0), world), Move(AddTx(Waiting(o, h), 0), world);
    assert [first, second][..1] == [first] && [first][..0] == [];
    AheadAdmitted(e, h, scan, stripe);
    WaitingOrphaned(e, o, h, scan, stripe);
    assert Run(ROOMY, stripe, [first]) == Node(PoolAhead(e), {});
    assert Run(ROOMY, stripe, [first, second]) == Node(PoolWaiting(e, o, h), {});
    RunKeeps(ROOMY, stripe, [first, second]);
    AwaitedAdmitted(e, o, h, scan);
    AdmittedCall(ROOMY, world, stripe, {}, PoolWaiting(e, o, h), Awaited(h), 0);
    WaitingValid(o, h, scan);
    assert Waiting(o, h).inputs[0].prevTxHash == h;
    WaitingOnHeldStripe(ROOMY, world, stripe, {}, PoolWaiting(e, o, h), Awaited(h), 0, o);
  }

  lemma AwaitedAdmitted(e: Bytes, o: Bytes, h: Bytes, scan: Pool -> seq<Bytes>)
    requires |e| == 64 && |o| == 64 && |h| == 64 && e != h
    ensures Judge(ROOMY, WorldOf(h, scan).utxos, PoolWaiting(e, o, h), Awaited(h), 0) == Admitted
  {
    assert EstimatedBytes(Awaited(h)) == 269;
  }
}
