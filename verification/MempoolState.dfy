/** The pool of pending transactions as a value; operations are atomic
    (src/mempool/mempool.cpp). */
module MempoolState {
  import opened Wrappers
  import opened ByteStrings
  import opened ChainTypes
  import opened MapSums
  import opened LedgerState
  import opened SupplyBound

  datatype Entry = Entry(tx: Transaction, addedAt: U64, effectiveFee: U64, txBytes: nat)

  datatype Limits = Limits(
    maxTxCount: nat,
    maxTotalBytes: U64,
    minFeePerGas: U64,
    maxTxAgeSeconds: U64,
    orphanMaxCount: nat,
    orphanMaxAgeSecs: U64)

  datatype Pool = Pool(
    entries: map<Bytes, Entry>,
    orphans: map<Bytes, Entry>,
    spent: set<TxInput>,
    totalBytes: nat)

  const EMPTY: Pool := Pool(map[], map[], {}, 0)

  /** What a call meets: the unspent outputs, the clock, and the order in which the hash table
      of orphans would be walked in each state. */
  datatype World = World(utxos: Utxos, now: U64, scan: Pool -> seq<Bytes>)

  ghost predicate Enumerates(keys: seq<Bytes>, all: set<Bytes>) {
    && (forall i :: 0 <= i < |keys| ==> keys[i] in all)
    && (forall h :: h in all ==> h in keys)
    && (forall i, j :: 0 <= i < j < |keys| ==> keys[i] != keys[j])
  }

  ghost predicate Walks(scan: Pool -> seq<Bytes>) {
    forall p :: Enumerates(scan(p), p.orphans.Keys)
  }

  // ---------------------------------------------------------------- sizes and fees

  function InputBytes(inputs: seq<TxInput>): nat {
    if inputs == [] then 0
    else InputBytes(inputs[..|inputs| - 1]) + 4 + |inputs[|inputs| - 1].prevTxHash| + 4
  }

  function OutputBytes(outputs: seq<TxOutput>): nat {
    if outputs == [] then 0
    else OutputBytes(outputs[..|outputs| - 1]) + 4 + |outputs[|outputs| - 1].address| + 8
  }

  function EstimatedBytes(tx: Transaction): nat {
    7 * 8 + (4 + |tx.toAddress|) + (4 + |tx.txHash|) + (4 + |tx.data|) + 32 + 32
    + 4 + InputBytes(tx.inputs) + 4 + OutputBytes(tx.outputs) + 64
  }

  /** min(maxFeePerGas, baseFee + tip), the sum saturating. */
  function EffectiveFee(tx: Transaction, baseFee: U64): U64 {
    Min(tx.maxFeePerGas, Min(baseFee + tx.maxPriorityFeePerGas, U64_MAX))
  }

  /** The fee reaches a level exactly when the sender's cap does and base fee and tip together do. */
  lemma FeeReaches(tx: Transaction, baseFee: U64, level: U64)
    ensures EffectiveFee(tx, baseFee) >= level <==>
            tx.maxFeePerGas >= level && baseFee + tx.maxPriorityFeePerGas >= level
  {
  }

  // ---------------------------------------------------------------- admission

  function InputSum(utxos: Utxos, inputs: seq<TxInput>): nat
    requires forall k :: 0 <= k < |inputs| ==> inputs[k] in utxos
  {
    if inputs == [] then 0 else InputSum(utxos, inputs[..|inputs| - 1]) + utxos[inputs[|inputs| - 1]].value
  }

  predicate WellFormed(cfg: Limits, tx: Transaction, baseFee: U64) {
    |tx.txHash| == 64 && tx.toAddress != [] && EffectiveFee(tx, baseFee) >= cfg.minFeePerGas
  }

  /** All inputs exist, neither sum overflows and the outputs are covered. */
  predicate Covered(utxos: Utxos, tx: Transaction) {
    && (forall k :: 0 <= k < |tx.inputs| ==> tx.inputs[k] in utxos)
    && OutputSum(tx.outputs) <= InputSum(utxos, tx.inputs) <= U64_MAX
  }

  predicate ValidTx(cfg: Limits, utxos: Utxos, tx: Transaction, baseFee: U64) {
    WellFormed(cfg, tx, baseFee) && (tx.inputs != [] ==> Covered(utxos, tx))
  }

  predicate IsDoubleSpend(spent: set<TxInput>, tx: Transaction) {
    exists k :: 0 <= k < |tx.inputs| && tx.inputs[k] in spent
  }

  /** No pending transaction to the same address has this nonce or a later one. */
  predicate NonceIsNext(entries: map<Bytes, Entry>, tx: Transaction) {
    forall h :: h in entries && entries[h].tx.toAddress == tx.toAddress ==> entries[h].tx.nonce < tx.nonce
  }

  datatype Verdict = Rejected | Orphaned | Admitted

  function Judge(cfg: Limits, utxos: Utxos, p: Pool, tx: Transaction, baseFee: U64): Verdict {
    var bytes := EstimatedBytes(tx);
    if !ValidTx(cfg, utxos, tx, baseFee) || bytes > U64_MAX - p.totalBytes then Rejected
    else if tx.txHash in p.entries || IsDoubleSpend(p.spent, tx) then Rejected
    else if !NonceIsNext(p.entries, tx) then Orphaned
    else if |p.entries| >= cfg.maxTxCount || (p.totalBytes + bytes) % U64_LIMIT > cfg.maxTotalBytes then Rejected
    else Admitted
  }

  function Insert(p: Pool, tx: Transaction, baseFee: U64, now: U64): Pool {
    var bytes := EstimatedBytes(tx);
    Pool(p.entries[tx.txHash := Entry(tx, now, EffectiveFee(tx, baseFee), bytes)], p.orphans,
         p.spent + InputSet(tx.inputs), (p.totalBytes + bytes) % U64_LIMIT)
  }

  // ---------------------------------------------------------------- orphans

  /** The first of the keys with the smallest arrival time. */
  function Oldest(orphans: map<Bytes, Entry>, keys: seq<Bytes>): (r: Option<Bytes>)
    ensures r.Some? ==> r.value in orphans
  {
    if keys == [] then None
    else
      var best, last := Oldest(orphans, keys[..|keys| - 1]), keys[|keys| - 1];
      if last !in orphans || (best.Some? && orphans[best.value].addedAt <= orphans[last].addedAt) then best
      else Some(last)
  }

  /** The orphans once a full pool has given up its oldest. */
  function RoomFor(cfg: Limits, world: World, p: Pool): map<Bytes, Entry> {
    var oldest := if |p.orphans| >= cfg.orphanMaxCount then Oldest(p.orphans, world.scan(p)) else None;
    if oldest.Some? then p.orphans - {oldest.value} else p.orphans
  }

  function AddOrphan(cfg: Limits, world: World, p: Pool, tx: Transaction): Pool {
    var kept := RoomFor(cfg, world, p);
    p.(orphans := if tx.txHash in kept then kept else kept[tx.txHash := Entry(tx, world.now, 0, EstimatedBytes(tx))])
  }

  predicate DependsOn(tx: Transaction, hash: Bytes) {
    exists k :: 0 <= k < |tx.inputs| && tx.inputs[k].prevTxHash == hash
  }

  /** The orphans waiting for a transaction, in walking order. */
  function Dependents(orphans: map<Bytes, Entry>, keys: seq<Bytes>, hash: Bytes): (r: seq<Transaction>)
    ensures forall i :: 0 <= i < |r| ==> DependsOn(r[i], hash)
  {
    if keys == [] then []
    else
      var init, last := Dependents(orphans, keys[..|keys| - 1], hash), keys[|keys| - 1];
      if last in orphans && DependsOn(orphans[last].tx, hash) then init + [orphans[last].tx] else init
  }

  function Independent(orphans: map<Bytes, Entry>, hash: Bytes): map<Bytes, Entry> {
    map h | h in orphans && !DependsOn(orphans[h].tx, hash) :: orphans[h]
  }

  // ---------------------------------------------------------------- the cascade

  function Room(cfg: Limits, p: Pool): nat {
    if |p.entries| < cfg.maxTxCount then cfg.maxTxCount - |p.entries| else 0
  }

  /** addTransaction. The measure is the room left: every nested promotion follows an insertion. */
  function Add(cfg: Limits, world: World, p: Pool, tx: Transaction, baseFee: U64): (r: (Pool, bool))
    ensures |p.entries| <= |r.0.entries|
    decreases Room(cfg, p), 0, 0
  {
    match Judge(cfg, world.utxos, p, tx, baseFee)
    case Rejected => (p, false)
    case Orphaned => (AddOrphan(cfg, world, p, tx), false)
    case Admitted => (Promote(cfg, world, Insert(p, tx, baseFee, world.now), tx.txHash, baseFee), true)
  }

  function Promote(cfg: Limits, world: World, p: Pool, hash: Bytes, baseFee: U64): (r: Pool)
    ensures |p.entries| <= |r.entries|
    decreases Room(cfg, p), 2, 0
  {
    AddAll(cfg, world, p.(orphans := Independent(p.orphans, hash)), Dependents(p.orphans, world.scan(p), hash), baseFee)
  }

  function AddAll(cfg: Limits, world: World, p: Pool, txs: seq<Transaction>, baseFee: U64): (r: Pool)
    ensures |p.entries| <= |r.entries|
    decreases Room(cfg, p), 1, |txs|
  {
    if txs == [] then p else AddAll(cfg, world, Add(cfg, world, p, txs[0], baseFee).0, txs[1..], baseFee)
  }

  // ---------------------------------------------------------------- removal

  function Remove(p: Pool, hash: Bytes): Pool {
    if hash !in p.entries then p
    else
      var e := p.entries[hash];
      Pool(p.entries - {hash}, p.orphans, p.spent - InputSet(e.tx.inputs), (p.totalBytes - e.txBytes) % U64_LIMIT)
  }

  function RemoveEach(p: Pool, hashes: seq<Bytes>): Pool {
    if hashes == [] then p else Remove(RemoveEach(p, hashes[..|hashes| - 1]), hashes[|hashes| - 1])
  }

  function Hashes(txs: seq<Transaction>): seq<Bytes> {
    seq(|txs|, i requires 0 <= i < |txs| => txs[i].txHash)
  }

  function KeySet(hashes: seq<Bytes>): set<Bytes> {
    set i | 0 <= i < |hashes| :: hashes[i]
  }

  lemma KeySetStep(hashes: seq<Bytes>)
    requires hashes != []
    ensures KeySet(hashes) == KeySet(hashes[..|hashes| - 1]) + {hashes[|hashes| - 1]}
  {
    var init := hashes[..|hashes| - 1];
    forall h | h in KeySet(init)
      ensures h in KeySet(hashes)
    {
      var i :| 0 <= i < |init| && init[i] == h;
      assert hashes[i] == h;
    }
    forall h | h in KeySet(hashes)
      ensures h in KeySet(init) + {hashes[|hashes| - 1]}
    {
      var i :| 0 <= i < |hashes| && hashes[i] == h;
      if i < |init| {
        assert init[i] == h;
      }
    }
  }

  lemma NoKeys()
    ensures KeySet([]) == {}
  {
  }

  // ---------------------------------------------------------------- eviction

  /** now - maxAge in 64-bit arithmetic: an earlier arrival is stale. */
  function Cutoff(now: U64, maxAge: U64): U64 {
    (now - maxAge) % U64_LIMIT
  }

  predicate IsStale(addedAt: U64, cutoff: U64) {
    addedAt < cutoff
  }

  ghost function KeepFresh(m: map<Bytes, Entry>, cutoff: U64): map<Bytes, Entry> {
    map h | h in m && !IsStale(m[h].addedAt, cutoff) :: m[h]
  }

  /** The clock is read once for the entries and again for the orphans. */
  ghost function EvictStale(cfg: Limits, p: Pool, now: U64, later: U64): Pool {
    Rebuilt(KeepFresh(p.entries, Cutoff(now, cfg.maxTxAgeSeconds)),
            KeepFresh(p.orphans, Cutoff(later, cfg.orphanMaxAgeSecs)))
  }

  ghost function EvictLowFee(cfg: Limits, p: Pool, newBaseFee: U64): Pool {
    Rebuilt(map h | h in p.entries
           && EffectiveFee(p.entries[h].tx, newBaseFee) >= cfg.minFeePerGas :: p.entries[h], p.orphans)
  }

  /** What the collections derived from the entries must be. */
  ghost function Rebuilt(entries: map<Bytes, Entry>, orphans: map<Bytes, Entry>): Pool {
    Pool(entries, orphans, SpentBy(entries), Total(Sizes(entries)))
  }

  // ---------------------------------------------------------------- agreement

  ghost function SpentBy(entries: map<Bytes, Entry>): set<TxInput> {
    set h, o | h in entries && o in InputSet(entries[h].tx.inputs) :: o
  }

  ghost function Sizes(entries: map<Bytes, Entry>): (r: map<Bytes, nat>)
    ensures r.Keys == entries.Keys && forall h :: h in entries ==> r[h] == entries[h].txBytes
  {
    map h | h in entries :: entries[h].txBytes
  }

  ghost predicate Keyed(m: map<Bytes, Entry>) {
    forall h :: h in m ==> m[h].tx.txHash == h && m[h].txBytes == EstimatedBytes(m[h].tx)
  }

  ghost predicate NoSharedOutpoint(entries: map<Bytes, Entry>) {
    forall g, h :: g in entries && h in entries && g != h ==>
      InputSet(entries[g].tx.inputs) !! InputSet(entries[h].tx.inputs)
  }

  ghost predicate NoSharedNonce(entries: map<Bytes, Entry>) {
    forall g, h :: g in entries && h in entries && g != h && entries[g].tx.toAddress == entries[h].tx.toAddress ==>
      entries[g].tx.nonce != entries[h].tx.nonce
  }

  /** The four collections agree. */
  ghost predicate Agrees(p: Pool) {
    && Keyed(p.entries) && Keyed(p.orphans)
    && NoSharedOutpoint(p.entries) && NoSharedNonce(p.entries)
    && p.spent == SpentBy(p.entries)
    && p.totalBytes == Total(Sizes(p.entries)) <= U64_MAX
  }

  /** The entry pays the pool's minimum and no more than its sender's cap, and is addressed. */
  ghost predicate Priced(cfg: Limits, e: Entry) {
    cfg.minFeePerGas <= e.effectiveFee <= e.tx.maxFeePerGas && |e.tx.txHash| == 64 && e.tx.toAddress != []
  }

  ghost predicate WithinLimits(cfg: Limits, p: Pool) {
    && |p.entries| <= cfg.maxTxCount && p.totalBytes <= cfg.maxTotalBytes
    && |p.orphans| <= (if cfg.orphanMaxCount > 1 then cfg.orphanMaxCount else 1)
    && (forall h :: h in p.entries ==> Priced(cfg, p.entries[h]))
  }

  ghost predicate Sound(cfg: Limits, p: Pool) {
    Agrees(p) && WithinLimits(cfg, p)
  }

  lemma EmptyIsSound(cfg: Limits)
    ensures Sound(cfg, EMPTY)
  {
  }

  // ---------------------------------------------------------------- insertion and removal

  lemma SpentByInsert(entries: map<Bytes, Entry>, h: Bytes, e: Entry)
    requires h !in entries
    ensures SpentBy(entries[h := e]) == SpentBy(entries) + InputSet(e.tx.inputs)
  {
    hide InputSet;
    var after := entries[h := e];
    forall o | o in SpentBy(entries) + InputSet(e.tx.inputs)
      ensures o in SpentBy(after)
    {
      if o in SpentBy(entries) {
        var g :| g in entries && o in InputSet(entries[g].tx.inputs);
        assert after[g] == entries[g];
      } else {
        assert after[h] == e;
      }
    }
  }

  lemma SpentByRemove(entries: map<Bytes, Entry>, h: Bytes)
    requires h in entries && NoSharedOutpoint(entries)
    ensures SpentBy(entries - {h}) == SpentBy(entries) - InputSet(entries[h].tx.inputs)
  {
    hide InputSet;
    var before := entries - {h};
    assert entries == before[h := entries[h]];
    SpentByInsert(before, h, entries[h]);
    forall o | o in SpentBy(before)
      ensures o !in InputSet(entries[h].tx.inputs)
    {
      var g :| g in before && o in InputSet(before[g].tx.inputs);
      assert before[g] == entries[g] && g != h;
    }
  }

  lemma InsertSums(p: Pool, tx: Transaction, baseFee: U64, now: U64)
    requires tx.txHash !in p.entries && p.spent == SpentBy(p.entries)
    requires p.totalBytes == Total(Sizes(p.entries)) && p.totalBytes + EstimatedBytes(tx) <= U64_MAX
    ensures var q := Insert(p, tx, baseFee, now);
            q.spent == SpentBy(q.entries)
                   && q.totalBytes == Total(Sizes(q.entries)) == p.totalBytes + EstimatedBytes(tx)
  {
    hide InputSet, EstimatedBytes, SpentBy, Total, EffectiveFee;
    var q := Insert(p, tx, baseFee, now);
    var e := q.entries[tx.txHash];
    SpentByInsert(p.entries, tx.txHash, e);
    TotalInsert(Sizes(p.entries), tx.txHash, e.txBytes);
    assert Sizes(q.entries) == Sizes(p.entries)[tx.txHash := e.txBytes];
  }

  /** An admitted transaction keeps the collections in agreement and the limits. */
  lemma InsertKeeps(cfg: Limits, world: World, p: Pool, tx: Transaction, baseFee: U64)
    requires Sound(cfg, p) && Judge(cfg, world.utxos, p, tx, baseFee) == Admitted
    ensures Sound(cfg, Insert(p, tx, baseFee, world.now))
  {
    hide InputSet, EstimatedBytes, SpentBy, Sizes, Total, EffectiveFee, Covered, NoSharedNonce, NoSharedOutpoint,
         NonceIsNext, IsDoubleSpend;
    FeeReaches(tx, baseFee, EffectiveFee(tx, baseFee));
    InsertSums(p, tx, baseFee, world.now);
    InsertKeepsApart(p, tx, Insert(p, tx, baseFee, world.now).entries[tx.txHash]);
  }

  lemma InsertKeepsApart(p: Pool, tx: Transaction, e: Entry)
    requires Agrees(p) && e.tx == tx && !IsDoubleSpend(p.spent, tx) && NonceIsNext(p.entries, tx)
    ensures NoSharedOutpoint(p.entries[tx.txHash := e]) && NoSharedNonce(p.entries[tx.txHash := e])
  {
    hide Total, EstimatedBytes;
    forall g | g in p.entries
      ensures InputSet(p.entries[g].tx.inputs) !! InputSet(tx.inputs)
    {
      forall o | o in InputSet(p.entries[g].tx.inputs)
        ensures o !in InputSet(tx.inputs)
      {
        assert o in SpentBy(p.entries);
      }
    }
  }

  /** Removal keeps the agreement: it frees its own outpoints and no others. */
  lemma RemoveKeeps(cfg: Limits, p: Pool, hash: Bytes)
    requires Agrees(p)
    ensures Agrees(Remove(p, hash))
    ensures WithinLimits(cfg, p) ==> WithinLimits(cfg, Remove(p, hash))
    ensures hash in p.entries ==>
      forall h :: h in p.entries && h != hash ==> InputSet(p.entries[h].tx.inputs) <= Remove(p, hash).spent
  {
    hide InputSet, EstimatedBytes, Total;
    if hash in p.entries {
      var q := Remove(p, hash);
      SpentByRemove(p.entries, hash);
      TotalRemove(Sizes(p.entries), hash);
      assert Sizes(q.entries) == Sizes(p.entries) - {hash};
    }
  }

  /** Admission and removal undo each other. */
  lemma RemoveUndoesInsert(cfg: Limits, world: World, p: Pool, tx: Transaction, baseFee: U64)
    requires Sound(cfg, p) && Judge(cfg, world.utxos, p, tx, baseFee) == Admitted
    ensures Remove(Insert(p, tx, baseFee, world.now), tx.txHash) == p
  {
    hide EstimatedBytes, Total, EffectiveFee, Covered, NoSharedNonce, NoSharedOutpoint, NonceIsNext, Keyed, SpentBy,
         Sizes;
    var q := Insert(p, tx, baseFee, world.now);
    assert q.entries - {tx.txHash} == p.entries;
    assert q.spent - InputSet(tx.inputs) == p.spent;
    WrapBack(p.totalBytes, EstimatedBytes(tx));
  }

  lemma WrapBack(a: nat, b: nat)
    requires a < U64_LIMIT
    ensures ((a + b) % U64_LIMIT - b) % U64_LIMIT == a
  {
  }

  // ---------------------------------------------------------------- orphans keep the limits

  lemma {:induction false} OldestIsMin(orphans: map<Bytes, Entry>, keys: seq<Bytes>)
    requires forall i :: 0 <= i < |keys| ==> keys[i] in orphans
    ensures Oldest(orphans, keys).None? <==> keys == []
    ensures var r := Oldest(orphans, keys);
            r.Some? ==> forall i :: 0 <= i < |keys| ==> orphans[r.value].addedAt <= orphans[keys[i]].addedAt
  {
    if keys != [] {
      OldestIsMin(orphans, keys[..|keys| - 1]);
    }
  }

  /** Only a full pool gives up an orphan, and only one that is no younger than any other. */
  lemma RoomForMeaning(cfg: Limits, world: World, p: Pool)
    requires Walks(world.scan)
    ensures var kept := RoomFor(cfg, world, p);
            if |p.orphans| < cfg.orphanMaxCount || p.orphans == map[] then kept == p.orphans
            else exists h :: h in p.orphans && kept == p.orphans - {h}
                             && forall g :: g in p.orphans ==> p.orphans[h].addedAt <= p.orphans[g].addedAt
  {
    var keys := world.scan(p);
    assert Enumerates(keys, p.orphans.Keys);
    OldestIsMin(p.orphans, keys);
    var oldest := Oldest(p.orphans, keys);
    if oldest.Some? {
      var h := oldest.value;
      forall g | g in p.orphans
        ensures p.orphans[h].addedAt <= p.orphans[g].addedAt
      {
        assert g in keys;
      }
    } else {
      assert keys == [] && forall h :: h in p.orphans ==> h in keys;
      assert p.orphans == map[];
    }
  }

  lemma RemoveOne(m: map<Bytes, Entry>, h: Bytes)
    requires h in m
    ensures |m - {h}| == |m| - 1
  {
    assert (m - {h}).Keys == m.Keys - {h};
  }

  lemma OrphanCount(cfg: Limits, world: World, p: Pool, tx: Transaction)
    requires Walks(world.scan)
    ensures var q := AddOrphan(cfg, world, p, tx).orphans;
            tx.txHash in q && (|q| <= |p.orphans| || |q| <= cfg.orphanMaxCount || |q| <= 1)
  {
    hide Walks, Oldest, EstimatedBytes, RoomFor;
    RoomForMeaning(cfg, world, p);
    var kept := RoomFor(cfg, world, p);
    if !(|p.orphans| < cfg.orphanMaxCount || p.orphans == map[]) {
      var h :| h in p.orphans && kept == p.orphans - {h};
      RemoveOne(p.orphans, h);
    }
    GrowsByOne(kept, tx.txHash, Entry(tx, world.now, 0, EstimatedBytes(tx)));
  }

  lemma GrowsByOne(m: map<Bytes, Entry>, h: Bytes, e: Entry)
    ensures |m[h := e]| <= |m| + 1
  {
    assert m[h := e].Keys == m.Keys + {h};
  }

  lemma RoomForIsPart(cfg: Limits, world: World, p: Pool)
    ensures forall h :: h in RoomFor(cfg, world, p) ==> h in p.orphans && RoomFor(cfg, world, p)[h] == p.orphans[h]
  {
    hide Oldest;
  }

  lemma AddOrphanKeeps(cfg: Limits, world: World, p: Pool, tx: Transaction)
    requires Sound(cfg, p) && Walks(world.scan)
    ensures Sound(cfg, AddOrphan(cfg, world, p, tx))
  {
    hide EstimatedBytes, NoSharedOutpoint, NoSharedNonce, SpentBy, Total, Walks, RoomFor;
    OrphanCount(cfg, world, p, tx);
    RoomForIsPart(cfg, world, p);
    var q := AddOrphan(cfg, world, p, tx);
    assert Keyed(q.orphans);
  }

  // ---------------------------------------------------------------- the cascade keeps everything

  lemma {:induction false} AddKeeps(cfg: Limits, world: World, p: Pool, tx: Transaction, baseFee: U64)
    requires Sound(cfg, p) && Walks(world.scan)
    ensures Sound(cfg, Add(cfg, world, p, tx, baseFee).0)
    decreases Room(cfg, p), 0, 0
  {
    hide Sound, Judge, AddOrphan, Insert, Dependents;
    match Judge(cfg, world.utxos, p, tx, baseFee)
    case Rejected =>
    case Orphaned => AddOrphanKeeps(cfg, world, p, tx);
    case Admitted =>
      var q := Insert(p, tx, baseFee, world.now);
      InsertKeeps(cfg, world, p, tx, baseFee);
      RoomShrinks(cfg, world, p, tx, baseFee);
      PromotionKeeps(cfg, q, tx.txHash);
      AddAllKeeps(cfg, world, q.(orphans := Independent(q.orphans, tx.txHash)),
                  Dependents(q.orphans, world.scan(q), tx.txHash), baseFee);
  }

  lemma RoomShrinks(cfg: Limits, world: World, p: Pool, tx: Transaction, baseFee: U64)
    requires Judge(cfg, world.utxos, p, tx, baseFee) == Admitted
    ensures |p.entries| < |Insert(p, tx, baseFee, world.now).entries| <= cfg.maxTxCount
  {
  }

  lemma PromotionKeeps(cfg: Limits, p: Pool, hash: Bytes)
    requires Sound(cfg, p)
    ensures Sound(cfg, p.(orphans := Independent(p.orphans, hash)))
  {
    hide DependsOn, EstimatedBytes, NoSharedOutpoint, NoSharedNonce, SpentBy, Total;
    PartIsSmaller(Independent(p.orphans, hash), p.orphans);
  }

  lemma PartIsSmaller(part: map<Bytes, Entry>, whole: map<Bytes, Entry>)
    requires part.Keys <= whole.Keys
    ensures |part| <= |whole|
  {
    SubsetSize(part.Keys, whole.Keys);
  }

  lemma {:induction false} SubsetSize(a: set<Bytes>, b: set<Bytes>)
    requires a <= b
    ensures |a| <= |b|
  {
    if a != {} {
      var x :| x in a;
      SubsetSize(a - {x}, b - {x});
    }
  }

  lemma {:induction false} AddAllKeeps(cfg: Limits, world: World, p: Pool, txs: seq<Transaction>, baseFee: U64)
    requires Sound(cfg, p) && Walks(world.scan)
    ensures Sound(cfg, AddAll(cfg, world, p, txs, baseFee))
    decreases Room(cfg, p), 1, |txs|
  {
    hide Agrees, Add, Walks;
    if txs != [] {
      AddKeeps(cfg, world, p, txs[0], baseFee);
      AddAllKeeps(cfg, world, Add(cfg, world, p, txs[0], baseFee).0, txs[1..], baseFee);
    }
  }
}
