/** addTransaction with its stripe mutexes, kept by nested calls
    (src/mempool/mempool.cpp:197-279, 472-494). */
module MempoolLocks {
  import opened ByteStrings
  import opened ChainTypes
  import opened LedgerState
  import opened MempoolState

  /** The stripe of a hash: std::hash modulo the number of stripes. */
  type Stripe = Bytes -> nat

  /** How a call ends: it returns, or it waits for ever and leaves the pool as it is, with the
      stripes held by then. */
  datatype Outcome = Finished(pool: Pool, ok: bool) | Blocked(pool: Pool, held: set<nat>)

  /** The checks made before the stripe is asked for. */
  predicate RefusedEarly(cfg: Limits, utxos: Utxos, p: Pool, tx: Transaction, baseFee: U64) {
    !ValidTx(cfg, utxos, tx, baseFee) || EstimatedBytes(tx) > U64_MAX - p.totalBytes
  }

  function AddLocked(cfg: Limits, world: World, stripe: Stripe, held: set<nat>, p: Pool, tx: Transaction,
                     baseFee: U64): (r: Outcome)
    ensures |p.entries| <= |r.pool.entries|
    decreases Room(cfg, p), 0, 0
  {
    if RefusedEarly(cfg, world.utxos, p, tx, baseFee) then Finished(p, false)
    else if stripe(tx.txHash) in held then Blocked(p, held)
    else
      match Judge(cfg, world.utxos, p, tx, baseFee)
      case Rejected => Finished(p, false)
      case Orphaned => Finished(AddOrphan(cfg, world, p, tx), false)
      case Admitted =>
        PromoteLocked(cfg, world, stripe, held + {stripe(tx.txHash)}, Insert(p, tx, baseFee, world.now), tx.txHash,
                      baseFee)
  }

  function PromoteLocked(cfg: Limits, world: World, stripe: Stripe, held: set<nat>, p: Pool, hash: Bytes,
                         baseFee: U64): (r: Outcome)
    ensures |p.entries| <= |r.pool.entries|
    decreases Room(cfg, p), 2, 0
  {
    AddAllLocked(cfg, world, stripe, held, p.(orphans := Independent(p.orphans, hash)),
                 Dependents(p.orphans, world.scan(p), hash), baseFee)
  }

  function AddAllLocked(cfg: Limits, world: World, stripe: Stripe, held: set<nat>, p: Pool, txs: seq<Transaction>,
                        baseFee: U64): (r: Outcome)
    ensures |p.entries| <= |r.pool.entries|
    decreases Room(cfg, p), 1, |txs|
  {
    if txs == [] then Finished(p, true)
    else
      match AddLocked(cfg, world, stripe, held, p, txs[0], baseFee)
      case Blocked(q, h) => Blocked(q, h)
      case Finished(q, _) => AddAllLocked(cfg, world, stripe, held, q, txs[1..], baseFee)
  }

  function ReorgRestore(cfg: Limits, world: World, stripe: Stripe, held: set<nat>, p: Pool,
                        reorgedOut: seq<Transaction>): Outcome
  {
    if reorgedOut == [] then Finished(p, true)
    else
      var last := reorgedOut[|reorgedOut| - 1];
      match ReorgRestore(cfg, world, stripe, held, p, reorgedOut[..|reorgedOut| - 1])
      case Blocked(q, h) => Blocked(q, h)
      case Finished(q, _) =>
        if last.txHash in q.entries then Finished(q, true)
        else AddLocked(cfg, world, stripe, held, q, last, cfg.minFeePerGas)
  }

  // ---------------------------------------------------------------- calls that return

  lemma EarlyIsRejected(cfg: Limits, utxos: Utxos, p: Pool, tx: Transaction, baseFee: U64)
    ensures RefusedEarly(cfg, utxos, p, tx, baseFee) ==> Judge(cfg, utxos, p, tx, baseFee) == Rejected
  {
  }

  /** A call that returns has done exactly what the cascade does without locks. */
  lemma {:induction false} FinishedIsAdd(cfg: Limits, world: World, stripe: Stripe, held: set<nat>, p: Pool,
                                        tx: Transaction, baseFee: U64)
    ensures var r := AddLocked(cfg, world, stripe, held, p, tx, baseFee);
            r.Finished? ==> (r.pool, r.ok) == Add(cfg, world, p, tx, baseFee)
    decreases Room(cfg, p), 0, 0
  {
    hide Judge, RefusedEarly, AddOrphan, Insert, Dependents, Independent;
    EarlyIsRejected(cfg, world.utxos, p, tx, baseFee);
    if Judge(cfg, world.utxos, p, tx, baseFee) == Admitted {
      var q := Insert(p, tx, baseFee, world.now);
      RoomShrinks(cfg, world, p, tx, baseFee);
      FinishedIsAddAll(cfg, world, stripe, held + {stripe(tx.txHash)}, q.(orphans := Independent(q.orphans, tx.txHash)),
                       Dependents(q.orphans, world.scan(q), tx.txHash), baseFee);
    }
  }

  lemma {:induction false} FinishedIsAddAll(cfg: Limits, world: World, stripe: Stripe, held: set<nat>, p: Pool,
                                           txs: seq<Transaction>, baseFee: U64)
    ensures var r := AddAllLocked(cfg, world, stripe, held, p, txs, baseFee);
            r.Finished? ==> r == Finished(AddAll(cfg, world, p, txs, baseFee), true)
    decreases Room(cfg, p), 1, |txs|
  {
    hide AddLocked, Add;
    if txs != [] {
      FinishedIsAdd(cfg, world, stripe, held, p, txs[0], baseFee);
      var r := AddLocked(cfg, world, stripe, held, p, txs[0], baseFee);
      FinishedIsAddAll(cfg, world, stripe, held, r.pool, txs[1..], baseFee);
    }
  }

  /** Whether a call returns or not, the pool it leaves is sound. */
  lemma {:induction false} LockedKeeps(cfg: Limits, world: World, stripe: Stripe, held: set<nat>, p: Pool,
                                      tx: Transaction, baseFee: U64)
    requires Sound(cfg, p) && Walks(world.scan)
    ensures Sound(cfg, AddLocked(cfg, world, stripe, held, p, tx, baseFee).pool)
    decreases Room(cfg, p), 0, 0
  {
    hide Sound, Judge, RefusedEarly, AddOrphan, Insert, Dependents, Independent;
    match Judge(cfg, world.utxos, p, tx, baseFee)
    case Rejected =>
    case Orphaned => AddOrphanKeeps(cfg, world, p, tx);
    case Admitted =>
      var q := Insert(p, tx, baseFee, world.now);
      InsertKeeps(cfg, world, p, tx, baseFee);
      RoomShrinks(cfg, world, p, tx, baseFee);
      PromotionKeeps(cfg, q, tx.txHash);
      AllLockedKeeps(cfg, world, stripe, held + {stripe(tx.txHash)}, q.(orphans := Independent(q.orphans, tx.txHash)),
                     Dependents(q.orphans, world.scan(q), tx.txHash), baseFee);
  }

  lemma {:induction false} AllLockedKeeps(cfg: Limits, world: World, stripe: Stripe, held: set<nat>, p: Pool,
                                         txs: seq<Transaction>, baseFee: U64)
    requires Sound(cfg, p) && Walks(world.scan)
    ensures Sound(cfg, AddAllLocked(cfg, world, stripe, held, p, txs, baseFee).pool)
    decreases Room(cfg, p), 1, |txs|
  {
    hide Sound, AddLocked, Walks;
    if txs != [] {
      LockedKeeps(cfg, world, stripe, held, p, txs[0], baseFee);
      var r := AddLocked(cfg, world, stripe, held, p, txs[0], baseFee);
      AllLockedKeeps(cfg, world, stripe, held, r.pool, txs[1..], baseFee);
    }
  }

  lemma {:induction false} ReorgKeeps(cfg: Limits, world: World, stripe: Stripe, held: set<nat>, p: Pool,
                                     reorgedOut: seq<Transaction>)
    requires Sound(cfg, p) && Walks(world.scan)
    ensures Sound(cfg, ReorgRestore(cfg, world, stripe, held, p, reorgedOut).pool)
  {
    hide Sound, Walks, AddLocked;
    if reorgedOut != [] {
      var init := reorgedOut[..|reorgedOut| - 1];
      ReorgKeeps(cfg, world, stripe, held, p, init);
      LockedKeeps(cfg, world, stripe, held, ReorgRestore(cfg, world, stripe, held, p, init).pool,
                  reorgedOut[|reorgedOut| - 1], cfg.minFeePerGas);
    }
  }

  // ---------------------------------------------------------------- exactly when a call waits for ever

  /** The stacks of hashes whose stripes the cascade without locks would hold each time it asks
      for another: the calls in progress, the asking one last. */
  function Requests(cfg: Limits, world: World, p: Pool, tx: Transaction, baseFee: U64, path: seq<Bytes>)
    : set<seq<Bytes>>
    decreases Room(cfg, p), 0, 0
  {
    if RefusedEarly(cfg, world.utxos, p, tx, baseFee) then {}
    else
      var here := path + [tx.txHash];
      if Judge(cfg, world.utxos, p, tx, baseFee) == Admitted then
        var q := Insert(p, tx, baseFee, world.now);
        {here} + RequestsAll(cfg, world, q.(orphans := Independent(q.orphans, tx.txHash)),
                             Dependents(q.orphans, world.scan(q), tx.txHash), baseFee, here)
      else {here}
  }

  function RequestsAll(cfg: Limits, world: World, p: Pool, txs: seq<Transaction>, baseFee: U64, path: seq<Bytes>)
    : set<seq<Bytes>>
    decreases Room(cfg, p), 1, |txs|
  {
    if txs == [] then {}
    else
      Requests(cfg, world, p, txs[0], baseFee, path)
      + RequestsAll(cfg, world, Add(cfg, world, p, txs[0], baseFee).0, txs[1..], baseFee, path)
  }

  function HeldBy(stripe: Stripe, path: seq<Bytes>): set<nat> {
    set i | 0 <= i < |path| :: stripe(path[i])
  }

  /** The last call of the stack asks for a stripe an earlier one holds. */
  predicate Collides(stripe: Stripe, stack: seq<Bytes>) {
    stack != [] && stripe(stack[|stack| - 1]) in HeldBy(stripe, stack[..|stack| - 1])
  }

  ghost predicate SomeCollides(stripe: Stripe, stacks: set<seq<Bytes>>) {
    exists s :: s in stacks && Collides(stripe, s)
  }

  lemma PushHeld(stripe: Stripe, path: seq<Bytes>, hash: Bytes)
    ensures HeldBy(stripe, path + [hash]) == HeldBy(stripe, path) + {stripe(hash)}
    ensures Collides(stripe, path + [hash]) <==> stripe(hash) in HeldBy(stripe, path)
  {
    var longer := path + [hash];
    assert longer[..|path|] == path;
    assert longer[|path|] == hash && forall i :: 0 <= i < |path| ==> longer[i] == path[i];
    forall x | x in HeldBy(stripe, path)
      ensures x in HeldBy(stripe, longer)
    {
      var i :| 0 <= i < |path| && x == stripe(path[i]);
      assert x == stripe(longer[i]);
    }
  }

  lemma CollidesInEither(stripe: Stripe, a: set<seq<Bytes>>, b: set<seq<Bytes>>)
    ensures SomeCollides(stripe, a + b) <==> SomeCollides(stripe, a) || SomeCollides(stripe, b)
  {
    hide Collides;
  }

  lemma CollidesAlone(stripe: Stripe, s: seq<Bytes>)
    ensures SomeCollides(stripe, {s}) <==> Collides(stripe, s)
    ensures !SomeCollides(stripe, {})
  {
    hide Collides;
    assert s in {s};
  }

  /** A call waits for ever exactly when, in the cascade without locks, some stack of nested calls
      names one stripe twice. */
  lemma {:induction false} BlockedExact(cfg: Limits, world: World, stripe: Stripe, p: Pool, tx: Transaction,
                                       baseFee: U64, path: seq<Bytes>)
    ensures AddLocked(cfg, world, stripe, HeldBy(stripe, path), p, tx, baseFee).Blocked? <==>
            SomeCollides(stripe, Requests(cfg, world, p, tx, baseFee, path))
    decreases Room(cfg, p), 0, 0
  {
    hide Judge, RefusedEarly, AddOrphan, Insert, Dependents, Independent, HeldBy, Collides, SomeCollides;
    var here := path + [tx.txHash];
    EarlyIsRejected(cfg, world.utxos, p, tx, baseFee);
    PushHeld(stripe, path, tx.txHash);
    CollidesAlone(stripe, here);
    if Judge(cfg, world.utxos, p, tx, baseFee) == Admitted {
      var q := Insert(p, tx, baseFee, world.now);
      var start := q.(orphans := Independent(q.orphans, tx.txHash));
      var txs := Dependents(q.orphans, world.scan(q), tx.txHash);
      RoomShrinks(cfg, world, p, tx, baseFee);
      AllBlockedExact(cfg, world, stripe, start, txs, baseFee, here);
      CollidesInEither(stripe, {here}, RequestsAll(cfg, world, start, txs, baseFee, here));
    }
  }

  lemma {:induction false} AllBlockedExact(cfg: Limits, world: World, stripe: Stripe, p: Pool, txs: seq<Transaction>,
                                          baseFee: U64, path: seq<Bytes>)
    ensures AddAllLocked(cfg, world, stripe, HeldBy(stripe, path), p, txs, baseFee).Blocked? <==>
            SomeCollides(stripe, RequestsAll(cfg, world, p, txs, baseFee, path))
    decreases Room(cfg, p), 1, |txs|
  {
    hide AddLocked, Add, Requests, HeldBy, Collides, SomeCollides;
    if txs == [] {
      CollidesAlone(stripe, []);
    } else {
      var q := Add(cfg, world, p, txs[0], baseFee).0;
      BlockedExact(cfg, world, stripe, p, txs[0], baseFee, path);
      FinishedIsAdd(cfg, world, stripe, HeldBy(stripe, path), p, txs[0], baseFee);
      AllBlockedExact(cfg, world, stripe, q, txs[1..], baseFee, path);
      CollidesInEither(stripe, Requests(cfg, world, p, txs[0], baseFee, path),
                       RequestsAll(cfg, world, q, txs[1..], baseFee, path));
    }
  }

  // ---------------------------------------------------------------- what can be checked beforehand

  /** Among the hashes no stripe is held yet and no two share one. */
  ghost predicate Apart(stripe: Stripe, held: set<nat>, hashes: set<Bytes>) {
    && (forall h :: h in hashes ==> stripe(h) !in held)
    && (forall g, h :: g in hashes && h in hashes && g != h ==> stripe(g) != stripe(h))
  }

  ghost predicate DistinctTxs(txs: seq<Transaction>) {
    forall i, j :: 0 <= i < j < |txs| ==> txs[i].txHash != txs[j].txHash
  }

  lemma PushDistinct(txs: seq<Transaction>, t: Transaction)
    requires DistinctTxs(txs) && forall x :: x in txs ==> x.txHash != t.txHash
    ensures DistinctTxs(txs + [t])
  {
    assert forall i :: 0 <= i < |txs| ==> txs[i] in txs;
  }

  /** The list names distinct hashes, none of them an orphan's. */
  ghost predicate TakenOut(p: Pool, txs: seq<Transaction>) {
    && DistinctTxs(txs)
    && (forall i :: 0 <= i < |txs| ==> txs[i].txHash !in p.orphans)
  }

  lemma NoTxs()
    ensures DistinctTxs([])
  {
  }

  /** What the walk takes out: orphans that wait for the hash, each once. */
  lemma {:induction false} DependentsMeaning(orphans: map<Bytes, Entry>, keys: seq<Bytes>, hash: Bytes)
    requires Keyed(orphans) && forall i, j :: 0 <= i < j < |keys| ==> keys[i] != keys[j]
    ensures forall t :: t in Dependents(orphans, keys, hash) ==>
              t.txHash in keys && t.txHash in orphans && orphans[t.txHash].tx == t
    ensures DistinctTxs(Dependents(orphans, keys, hash))
    ensures forall h :: h in keys && h in orphans && DependsOn(orphans[h].tx, hash) ==>
              orphans[h].tx in Dependents(orphans, keys, hash)
    decreases |keys|
  {
    hide DependsOn, EstimatedBytes, DistinctTxs;
    if keys == [] {
      NoTxs();
    } else {
      var init, last := keys[..|keys| - 1], keys[|keys| - 1];
      DependentsMeaning(orphans, init, hash);
      assert keys == init + [last] && last !in init;
      if last in orphans && DependsOn(orphans[last].tx, hash) {
        PushDistinct(Dependents(orphans, init, hash), orphans[last].tx);
      }
    }
  }

  lemma WalkedDependents(scan: Pool -> seq<Bytes>, p: Pool, hash: Bytes)
    requires Walks(scan) && Keyed(p.orphans)
    ensures var txs := Dependents(p.orphans, scan(p), hash);
            var start := p.(orphans := Independent(p.orphans, hash));
            && TakenOut(start, txs)
            && start.orphans.Keys + KeySet(Hashes(txs)) == p.orphans.Keys
            && (forall i :: 0 <= i < |txs| ==> txs[i].txHash in p.orphans && p.orphans[txs[i].txHash].tx == txs[i])
            && (forall h :: h in p.orphans && DependsOn(p.orphans[h].tx, hash) ==> p.orphans[h].tx in txs)
  {
    hide DependsOn, EstimatedBytes, Dependents, DistinctTxs;
    var keys := scan(p);
    assert Enumerates(keys, p.orphans.Keys);
    DependentsMeaning(p.orphans, keys, hash);
    var txs := Dependents(p.orphans, keys, hash);
    assert forall i :: 0 <= i < |txs| ==> Hashes(txs)[i] == txs[i].txHash;
    forall h | h in p.orphans && DependsOn(p.orphans[h].tx, hash)
      ensures h in KeySet(Hashes(txs))
    {
      var i :| 0 <= i < |txs| && txs[i] == p.orphans[h].tx;
      assert Hashes(txs)[i] == h;
    }
  }

  /** The pool in which an admitted transaction's orphans are offered again, and their list. */
  function PoolAfter(world: World, p: Pool, tx: Transaction, baseFee: U64): Pool {
    var q := Insert(p, tx, baseFee, world.now);
    q.(orphans := Independent(q.orphans, tx.txHash))
  }

  function OfferedAfter(world: World, p: Pool, tx: Transaction, baseFee: U64): seq<Transaction> {
    var q := Insert(p, tx, baseFee, world.now);
    Dependents(q.orphans, world.scan(q), tx.txHash)
  }

  lemma AdmittedCall(cfg: Limits, world: World, stripe: Stripe, held: set<nat>, p: Pool, tx: Transaction, baseFee: U64)
    requires Judge(cfg, world.utxos, p, tx, baseFee) == Admitted
    ensures var start, txs := PoolAfter(world, p, tx, baseFee), OfferedAfter(world, p, tx, baseFee);
            && |p.entries| < |start.entries| <= cfg.maxTxCount
            && Add(cfg, world, p, tx, baseFee) == (AddAll(cfg, world, start, txs, baseFee), true)
            && AddLocked(cfg, world, stripe, held, p, tx, baseFee) ==
               if stripe(tx.txHash) in held then Blocked(p, held)
               else AddAllLocked(cfg, world, stripe, held + {stripe(tx.txHash)}, start, txs, baseFee)
  {
    hide Judge, RefusedEarly, Insert, Independent, Dependents, AddAll, AddAllLocked;
    EarlyIsRejected(cfg, world.utxos, p, tx, baseFee);
    RoomShrinks(cfg, world, p, tx, baseFee);
  }

  lemma AdmittedFacts(cfg: Limits, world: World, p: Pool, tx: Transaction, baseFee: U64)
    requires Sound(cfg, p) && Walks(world.scan) && Judge(cfg, world.utxos, p, tx, baseFee) == Admitted
    ensures var start, txs := PoolAfter(world, p, tx, baseFee), OfferedAfter(world, p, tx, baseFee);
            && Sound(cfg, start) && TakenOut(start, txs)
            && start.orphans == Independent(p.orphans, tx.txHash)
            && start.orphans.Keys + KeySet(Hashes(txs)) == p.orphans.Keys
  {
    hide Sound, Judge, Insert, Independent, Dependents, DependsOn, Walks, KeySet, Keyed, TakenOut;
    var q := Insert(p, tx, baseFee, world.now);
    InsertKeeps(cfg, world, p, tx, baseFee);
    InsertLeavesOrphans(p, tx, baseFee, world.now);
    PromotionKeeps(cfg, q, tx.txHash);
    OrphansAreKeyed(cfg, q);
    WalkedDependents(world.scan, q, tx.txHash);
  }

  /** The list is made of the orphans that wait for the transaction, all of them. */
  lemma AdmittedList(cfg: Limits, world: World, p: Pool, tx: Transaction, baseFee: U64)
    requires Sound(cfg, p) && Walks(world.scan)
    ensures var txs := OfferedAfter(world, p, tx, baseFee);
            && (forall i :: 0 <= i < |txs| ==>
                  && txs[i].txHash in p.orphans && p.orphans[txs[i].txHash].tx == txs[i]
                  && DependsOn(txs[i], tx.txHash))
            && (forall h :: h in p.orphans && DependsOn(p.orphans[h].tx, tx.txHash) ==> p.orphans[h].tx in txs)
  {
    hide Sound, Insert, Dependents, DependsOn, Walks, KeySet, Keyed, TakenOut, Independent;
    var q := Insert(p, tx, baseFee, world.now);
    InsertLeavesOrphans(p, tx, baseFee, world.now);
    OrphansAreKeyed(cfg, p);
    WalkedDependents(world.scan, q, tx.txHash);
    WalkedDepend(q.orphans, world.scan(q), tx.txHash);
  }

  lemma WalkedDepend(orphans: map<Bytes, Entry>, keys: seq<Bytes>, hash: Bytes)
    ensures forall i :: 0 <= i < |Dependents(orphans, keys, hash)| ==>
        DependsOn(Dependents(orphans, keys, hash)[i], hash)
  {
  }

  /** An offer can only put its own transaction among the orphans. */
  lemma {:induction false} OrphansWithin(cfg: Limits, world: World, p: Pool, tx: Transaction, baseFee: U64)
    requires Sound(cfg, p) && Walks(world.scan)
    ensures Add(cfg, world, p, tx, baseFee).0.orphans.Keys <= p.orphans.Keys + {tx.txHash}
    decreases Room(cfg, p), 0, 0
  {
    hide Sound, Judge, AddOrphan, PoolAfter, OfferedAfter, TakenOut, KeySet, Walks, Promote, AddAll, Independent,
         Insert;
    match Judge(cfg, world.utxos, p, tx, baseFee)
    case Rejected =>
    case Orphaned => OrphanKeys(cfg, world, p, tx);
    case Admitted =>
      AdmittedCall(cfg, world, _ => 0, {}, p, tx, baseFee);
      AdmittedFacts(cfg, world, p, tx, baseFee);
      AllOrphansWithin(cfg, world, PoolAfter(world, p, tx, baseFee), OfferedAfter(world, p, tx, baseFee), baseFee);
  }

  lemma OrphanKeys(cfg: Limits, world: World, p: Pool, tx: Transaction)
    ensures AddOrphan(cfg, world, p, tx).orphans.Keys <= p.orphans.Keys + {tx.txHash}
  {
    hide RoomFor, EstimatedBytes;
    RoomForIsPart(cfg, world, p);
  }

  lemma {:induction false} AllOrphansWithin(cfg: Limits, world: World, p: Pool, txs: seq<Transaction>, baseFee: U64)
    requires Sound(cfg, p) && Walks(world.scan)
    ensures AddAll(cfg, world, p, txs, baseFee).orphans.Keys <= p.orphans.Keys + KeySet(Hashes(txs))
    decreases Room(cfg, p), 1, |txs|
  {
    hide Sound, Walks, Add, KeySet;
    if txs != [] {
      HashesFront(txs);
      AddKeeps(cfg, world, p, txs[0], baseFee);
      OrphansWithin(cfg, world, p, txs[0], baseFee);
      AllOrphansWithin(cfg, world, Add(cfg, world, p, txs[0], baseFee).0, txs[1..], baseFee);
    }
  }

  lemma HashesFront(txs: seq<Transaction>)
    requires txs != []
    ensures KeySet(Hashes(txs)) == {txs[0].txHash} + KeySet(Hashes(txs[1..]))
  {
    var all, rest := Hashes(txs), Hashes(txs[1..]);
    assert all[0] == txs[0].txHash && forall i :: 0 <= i < |rest| ==> rest[i] == all[i + 1];
    forall h | h in KeySet(all)
      ensures h in {txs[0].txHash} + KeySet(rest)
    {
      var i :| 0 <= i < |all| && all[i] == h;
      assert i > 0 ==> rest[i - 1] == h;
    }
    forall h | h in KeySet(rest)
      ensures h in KeySet(all)
    {
      var i :| 0 <= i < |rest| && rest[i] == h;
      assert all[i + 1] == h;
    }
  }

  lemma InsertLeavesOrphans(p: Pool, tx: Transaction, baseFee: U64, now: U64)
    ensures Insert(p, tx, baseFee, now).orphans == p.orphans
  {
  }

  lemma OrphansAreKeyed(cfg: Limits, p: Pool)
    requires Sound(cfg, p)
    ensures Keyed(p.orphans)
  {
    hide Keyed, NoSharedOutpoint, NoSharedNonce, SpentBy, Sizes;
  }

  lemma ApartInside(stripe: Stripe, held: set<nat>, hashes: set<Bytes>, h: Bytes)
    requires h !in hashes && Apart(stripe, held, hashes + {h})
    ensures stripe(h) !in held && Apart(stripe, held + {stripe(h)}, hashes)
  {
  }

  /** If the transaction and the orphans lie on distinct stripes, none of them held, the call
      returns. */
  lemma {:induction false} DistinctStripesFinish(cfg: Limits, world: World, stripe: Stripe, held: set<nat>, p: Pool,
                                                tx: Transaction, baseFee: U64)
    requires Sound(cfg, p) && Walks(world.scan)
    requires tx.txHash !in p.orphans && Apart(stripe, held, p.orphans.Keys + {tx.txHash})
    ensures AddLocked(cfg, world, stripe, held, p, tx, baseFee).Finished?
    decreases Room(cfg, p), 0, 0
  {
    hide Sound, Judge, RefusedEarly, AddOrphan, PoolAfter, OfferedAfter, TakenOut, Apart, KeySet, Independent, Walks,
         PromoteLocked, AddAllLocked, Insert;
    ApartInside(stripe, held, p.orphans.Keys, tx.txHash);
    if Judge(cfg, world.utxos, p, tx, baseFee) == Admitted {
      AdmittedCall(cfg, world, stripe, held, p, tx, baseFee);
      AdmittedFacts(cfg, world, p, tx, baseFee);
      DistinctListFinishes(cfg, world, stripe, held + {stripe(tx.txHash)}, PoolAfter(world, p, tx, baseFee),
                           OfferedAfter(world, p, tx, baseFee), baseFee);
    }
  }

  lemma {:induction false} DistinctListFinishes(cfg: Limits, world: World, stripe: Stripe, held: set<nat>, p: Pool,
                                               txs: seq<Transaction>, baseFee: U64)
    requires Sound(cfg, p) && Walks(world.scan)
    requires TakenOut(p, txs) && Apart(stripe, held, p.orphans.Keys + KeySet(Hashes(txs)))
    ensures AddAllLocked(cfg, world, stripe, held, p, txs, baseFee).Finished?
    decreases Room(cfg, p), 1, |txs|
  {
    hide Sound, Walks, Add, AddLocked, KeySet, Apart, TakenOut;
    if txs != [] {
      var tx, rest := txs[0], txs[1..];
      var q := Add(cfg, world, p, tx, baseFee).0;
      HashesFront(txs);
      ApartPart(stripe, held, p.orphans.Keys + KeySet(Hashes(txs)), p.orphans.Keys + {tx.txHash});
      TakenOutNext(p, txs, q);
      DistinctStripesFinish(cfg, world, stripe, held, p, tx, baseFee);
      FinishedIsAdd(cfg, world, stripe, held, p, tx, baseFee);
      AddKeeps(cfg, world, p, tx, baseFee);
      OrphansWithin(cfg, world, p, tx, baseFee);
      ApartPart(stripe, held, p.orphans.Keys + KeySet(Hashes(txs)), q.orphans.Keys + KeySet(Hashes(rest)));
      DistinctListFinishes(cfg, world, stripe, held, q, rest, baseFee);
    }
  }

  lemma ApartPart(stripe: Stripe, held: set<nat>, whole: set<Bytes>, part: set<Bytes>)
    requires Apart(stripe, held, whole)
    ensures part <= whole ==> Apart(stripe, held, part)
  {
  }

  lemma TakenOutNext(p: Pool, txs: seq<Transaction>, q: Pool)
    requires txs != [] && TakenOut(p, txs)
    ensures txs[0].txHash !in p.orphans
    ensures q.orphans.Keys <= p.orphans.Keys + {txs[0].txHash} ==> TakenOut(q, txs[1..])
  {
    assert forall i :: 0 <= i < |txs[1..]| ==> txs[1..][i] == txs[i + 1];
  }

  /** A stored transaction the early checks let through whatever the pool holds by then. */
  predicate Passes(cfg: Limits, utxos: Utxos, tx: Transaction, baseFee: U64) {
    ValidTx(cfg, utxos, tx, baseFee) && EstimatedBytes(tx) <= U64_MAX - cfg.maxTotalBytes
  }

  lemma PassesInside(cfg: Limits, utxos: Utxos, p: Pool, tx: Transaction, baseFee: U64)
    requires Sound(cfg, p) && Passes(cfg, utxos, tx, baseFee)
    ensures !RefusedEarly(cfg, utxos, p, tx, baseFee)
  {
    hide Agrees, ValidTx;
  }

  lemma HeldStripeBlocksOne(cfg: Limits, world: World, stripe: Stripe, held: set<nat>, p: Pool, tx: Transaction,
                            baseFee: U64)
    requires Sound(cfg, p) && Passes(cfg, world.utxos, tx, baseFee) && stripe(tx.txHash) in held
    ensures AddLocked(cfg, world, stripe, held, p, tx, baseFee).Blocked?
  {
    hide Sound, Passes, RefusedEarly, Judge;
    PassesInside(cfg, world.utxos, p, tx, baseFee);
  }

  lemma {:induction false} HeldStripeBlocks(cfg: Limits, world: World, stripe: Stripe, held: set<nat>, p: Pool,
                                           txs: seq<Transaction>, baseFee: U64, d: nat)
    requires Sound(cfg, p) && Walks(world.scan) && d < |txs|
    requires Passes(cfg, world.utxos, txs[d], baseFee) && stripe(txs[d].txHash) in held
    ensures AddAllLocked(cfg, world, stripe, held, p, txs, baseFee).Blocked?
    decreases |txs|
  {
    hide Sound, Walks, Passes, AddLocked;
    if d == 0 {
      HeldStripeBlocksOne(cfg, world, stripe, held, p, txs[0], baseFee);
    } else {
      LockedKeeps(cfg, world, stripe, held, p, txs[0], baseFee);
      var r := AddLocked(cfg, world, stripe, held, p, txs[0], baseFee);
      HeldStripeBlocks(cfg, world, stripe, held, r.pool, txs[1..], baseFee, d - 1);
    }
  }

  /** One valid orphan waiting for an admitted transaction on a stripe its call holds is enough
      for the call never to return, whatever else the cascade does. */
  lemma WaitingOnHeldStripe(cfg: Limits, world: World, stripe: Stripe, held: set<nat>, p: Pool, tx: Transaction,
                            baseFee: U64, h: Bytes)
    requires Sound(cfg, p) && Walks(world.scan) && Judge(cfg, world.utxos, p, tx, baseFee) == Admitted
    requires h in p.orphans && DependsOn(p.orphans[h].tx, tx.txHash)
    requires Passes(cfg, world.utxos, p.orphans[h].tx, baseFee) && stripe(h) in held + {stripe(tx.txHash)}
    ensures AddLocked(cfg, world, stripe, held, p, tx, baseFee).Blocked?
  {
    hide Sound, Judge, PoolAfter, OfferedAfter, TakenOut, DependsOn, Passes, Walks, KeySet, Keyed, AddAllLocked,
         AddLocked;
    AdmittedCall(cfg, world, stripe, held, p, tx, baseFee);
    AdmittedFacts(cfg, world, p, tx, baseFee);
    AdmittedList(cfg, world, p, tx, baseFee);
    OrphansAreKeyed(cfg, p);
    OrphanHash(p, h);
    var txs := OfferedAfter(world, p, tx, baseFee);
    var d :| 0 <= d < |txs| && txs[d] == p.orphans[h].tx;
    HeldStripeBlocks(cfg, world, stripe, held + {stripe(tx.txHash)}, PoolAfter(world, p, tx, baseFee), txs, baseFee, d);
  }

  lemma OrphanHash(p: Pool, h: Bytes)
    requires Keyed(p.orphans) && h in p.orphans
    ensures p.orphans[h].tx.txHash == h
  {
  }

  /** No orphan waits for an orphan. */
  ghost predicate Flat(orphans: map<Bytes, Entry>) {
    forall g, h :: g in orphans && h in orphans ==> !DependsOn(orphans[g].tx, h)
  }

  /** When no orphan waits for another, the answer can be read off the pool before the call: it
      waits for ever exactly when its own stripe is held, or it is admitted and some valid orphan
      waiting for it lies on a stripe that is held or its own. */
  lemma FlatExact(cfg: Limits, world: World, stripe: Stripe, held: set<nat>, p: Pool, tx: Transaction, baseFee: U64)
    requires Sound(cfg, p) && Walks(world.scan) && Flat(p.orphans)
    requires forall h :: h in p.orphans ==> EstimatedBytes(p.orphans[h].tx) <= U64_MAX - cfg.maxTotalBytes
    ensures AddLocked(cfg, world, stripe, held, p, tx, baseFee).Blocked? <==>
            && !RefusedEarly(cfg, world.utxos, p, tx, baseFee)
            && (stripe(tx.txHash) in held
                || (Judge(cfg, world.utxos, p, tx, baseFee) == Admitted
                    && exists h :: h in p.orphans && DependsOn(p.orphans[h].tx, tx.txHash)
                                   && ValidTx(cfg, world.utxos, p.orphans[h].tx, baseFee)
                                   && stripe(h) in held + {stripe(tx.txHash)}))
  {
    hide Sound, Judge, RefusedEarly, Dependents, DependsOn, Insert, ValidTx, AddOrphan, EstimatedBytes, Keyed,
         Independent;
    if Judge(cfg, world.utxos, p, tx, baseFee) == Admitted && stripe(tx.txHash) !in held {
      EarlyIsRejected(cfg, world.utxos, p, tx, baseFee);
      if h :| h in p.orphans && DependsOn(p.orphans[h].tx, tx.txHash)
              && ValidTx(cfg, world.utxos, p.orphans[h].tx, baseFee) && stripe(h) in held + {stripe(tx.txHash)} {
        WaitingOnHeldStripe(cfg, world, stripe, held, p, tx, baseFee, h);
      } else {
        FlatFinishes(cfg, world, stripe, held, p, tx, baseFee);
      }
    }
  }

  lemma FlatFinishes(cfg: Limits, world: World, stripe: Stripe, held: set<nat>, p: Pool, tx: Transaction, baseFee: U64)
    requires Sound(cfg, p) && Walks(world.scan) && Flat(p.orphans)
    requires Judge(cfg, world.utxos, p, tx, baseFee) == Admitted && stripe(tx.txHash) !in held
    requires forall h :: (h in p.orphans && DependsOn(p.orphans[h].tx, tx.txHash)
                          && ValidTx(cfg, world.utxos, p.orphans[h].tx, baseFee)) ==>
               stripe(h) !in held + {stripe(tx.txHash)}
    ensures AddLocked(cfg, world, stripe, held, p, tx, baseFee).Finished?
  {
    hide Sound, Judge, PoolAfter, OfferedAfter, DependsOn, ValidTx, Walks, AddAllLocked, AddLocked, Flat, FromFlat;
    AdmittedCall(cfg, world, stripe, held, p, tx, baseFee);
    FlatStart(cfg, world, p, tx, baseFee);
    AdmittedList(cfg, world, p, tx, baseFee);
    FlatListFinishes(cfg, world, stripe, held + {stripe(tx.txHash)}, PoolAfter(world, p, tx, baseFee),
                     OfferedAfter(world, p, tx, baseFee), baseFee, p.orphans);
  }

  lemma FlatStart(cfg: Limits, world: World, p: Pool, tx: Transaction, baseFee: U64)
    requires Sound(cfg, p) && Walks(world.scan) && Judge(cfg, world.utxos, p, tx, baseFee) == Admitted
    ensures FromFlat(PoolAfter(world, p, tx, baseFee), OfferedAfter(world, p, tx, baseFee), p.orphans)
  {
    hide Sound, Judge, PoolAfter, OfferedAfter, TakenOut, DependsOn, Walks, KeySet;
    AdmittedFacts(cfg, world, p, tx, baseFee);
    AdmittedList(cfg, world, p, tx, baseFee);
  }

  /** The orphans and the list come from a flat pool, so a promotion finds nobody waiting. */
  ghost predicate FromFlat(p: Pool, txs: seq<Transaction>, base: map<Bytes, Entry>) {
    && (forall h :: h in p.orphans ==> h in base && p.orphans[h].tx == base[h].tx)
    && (forall i :: 0 <= i < |txs| ==> txs[i].txHash in base && base[txs[i].txHash].tx == txs[i])
  }

  lemma NobodyWaits(world: World, p: Pool, hash: Bytes)
    requires forall h :: h in p.orphans ==> !DependsOn(p.orphans[h].tx, hash)
    ensures Dependents(p.orphans, world.scan(p), hash) == []
    ensures Independent(p.orphans, hash) == p.orphans
  {
    NobodyWaitsIn(p.orphans, world.scan(p), hash);
  }

  lemma {:induction false} NobodyWaitsIn(orphans: map<Bytes, Entry>, keys: seq<Bytes>, hash: Bytes)
    requires forall h :: h in orphans ==> !DependsOn(orphans[h].tx, hash)
    ensures Dependents(orphans, keys, hash) == []
    decreases |keys|
  {
    hide DependsOn;
    if keys != [] {
      NobodyWaitsIn(orphans, keys[..|keys| - 1], hash);
    }
  }

  lemma FlatOffer(cfg: Limits, world: World, stripe: Stripe, held: set<nat>, p: Pool, txs: seq<Transaction>,
                  baseFee: U64,
                  base: map<Bytes, Entry>)
    requires txs != [] && FromFlat(p, txs, base) && Flat(base)
    requires ValidTx(cfg, world.utxos, txs[0], baseFee) ==> stripe(txs[0].txHash) !in held
    ensures var r := AddLocked(cfg, world, stripe, held, p, txs[0], baseFee);
            r.Finished? && FromFlat(r.pool, txs[1..], base)
  {
    hide Judge, DependsOn, ValidTx, EstimatedBytes, EffectiveFee, RoomFor, Independent, PoolAfter, OfferedAfter,
         Dependents,
         Insert, AddAllLocked;
    var tx, rest := txs[0], txs[1..];
    assert forall i :: 0 <= i < |rest| ==> rest[i] == txs[i + 1];
    match Judge(cfg, world.utxos, p, tx, baseFee)
    case Rejected =>
    case Orphaned => RoomForIsPart(cfg, world, p);
    case Admitted =>
      AdmittedCall(cfg, world, stripe, held, p, tx, baseFee);
      NobodyOffered(world, p, tx, baseFee);
      NothingToOffer(cfg, world, stripe, held + {stripe(tx.txHash)}, PoolAfter(world, p, tx, baseFee), baseFee);
  }

  lemma NobodyOffered(world: World, p: Pool, tx: Transaction, baseFee: U64)
    requires forall h :: h in p.orphans ==> !DependsOn(p.orphans[h].tx, tx.txHash)
    ensures OfferedAfter(world, p, tx, baseFee) == [] && PoolAfter(world, p, tx, baseFee).orphans == p.orphans
  {
    hide DependsOn;
    InsertLeavesOrphans(p, tx, baseFee, world.now);
    NobodyWaits(world, Insert(p, tx, baseFee, world.now), tx.txHash);
  }

  lemma NothingToOffer(cfg: Limits, world: World, stripe: Stripe, held: set<nat>, p: Pool, baseFee: U64)
    ensures AddAllLocked(cfg, world, stripe, held, p, [], baseFee) == Finished(p, true)
  {
  }

  lemma {:induction false} FlatListFinishes(cfg: Limits, world: World, stripe: Stripe, held: set<nat>, p: Pool,
                                           txs: seq<Transaction>, baseFee: U64, base: map<Bytes, Entry>)
    requires FromFlat(p, txs, base) && Flat(base)
    requires forall i :: 0 <= i < |txs| ==> ValidTx(cfg, world.utxos, txs[i], baseFee) ==>
        stripe(txs[i].txHash) !in held
    ensures AddAllLocked(cfg, world, stripe, held, p, txs, baseFee).Finished?
    decreases |txs|
  {
    hide AddLocked, ValidTx, FromFlat, Flat;
    if txs != [] {
      FlatOffer(cfg, world, stripe, held, p, txs, baseFee, base);
      FlatListFinishes(cfg, world, stripe, held, AddLocked(cfg, world, stripe, held, p, txs[0], baseFee).pool, txs[1..],
                       baseFee, base);
    }
  }

  // ---------------------------------------------------------------- what a call that never returns leaves

  lemma {:induction false} LockedKeepsEntries(cfg: Limits, world: World, stripe: Stripe, held: set<nat>, p: Pool,
                                             tx: Transaction, baseFee: U64)
    ensures p.entries.Keys <= AddLocked(cfg, world, stripe, held, p, tx, baseFee).pool.entries.Keys
    decreases Room(cfg, p), 0, 0
  {
    hide Judge, RefusedEarly, RoomFor, EstimatedBytes, EffectiveFee, Dependents, Independent;
    if Judge(cfg, world.utxos, p, tx, baseFee) == Admitted {
      AdmittedCall(cfg, world, stripe, held, p, tx, baseFee);
      AllLockedKeepsEntries(cfg, world, stripe, held + {stripe(tx.txHash)}, PoolAfter(world, p, tx, baseFee),
                            OfferedAfter(world, p, tx, baseFee), baseFee);
    }
  }

  lemma {:induction false} AllLockedKeepsEntries(cfg: Limits, world: World, stripe: Stripe, held: set<nat>, p: Pool,
                                                txs: seq<Transaction>, baseFee: U64)
    ensures p.entries.Keys <= AddAllLocked(cfg, world, stripe, held, p, txs, baseFee).pool.entries.Keys
    decreases Room(cfg, p), 1, |txs|
  {
    hide AddLocked;
    if txs != [] {
      LockedKeepsEntries(cfg, world, stripe, held, p, txs[0], baseFee);
      AllLockedKeepsEntries(cfg, world, stripe, held, AddLocked(cfg, world, stripe, held, p, txs[0], baseFee).pool,
                            txs[1..], baseFee);
    }
  }

  /** A call that got its own stripe and still waits for ever has admitted its transaction. */
  lemma BlockedAfterAdmission(cfg: Limits, world: World, stripe: Stripe, held: set<nat>, p: Pool, tx: Transaction,
                              baseFee: U64)
    requires stripe(tx.txHash) !in held && AddLocked(cfg, world, stripe, held, p, tx, baseFee).Blocked?
    ensures Judge(cfg, world.utxos, p, tx, baseFee) == Admitted
    ensures tx.txHash in AddLocked(cfg, world, stripe, held, p, tx, baseFee).pool.entries
  {
    hide Judge, RefusedEarly, EstimatedBytes, EffectiveFee, Dependents, Independent, AddOrphan;
    if Judge(cfg, world.utxos, p, tx, baseFee) == Admitted {
      AdmittedCall(cfg, world, stripe, held, p, tx, baseFee);
      AllLockedKeepsEntries(cfg, world, stripe, held + {stripe(tx.txHash)}, PoolAfter(world, p, tx, baseFee),
                            OfferedAfter(world, p, tx, baseFee), baseFee);
    }
  }
}
