/** mineParallel (src/proof_of_work.cpp:369-532): worker steps cut at
    atomic accesses, in any interleaving. */
module ParallelMining {
  import opened Arithmetic
  import opened ByteStrings
  import opened ChainTypes
  import opened ProofOfWork

  /** What the call fixes: the block, the digest, the nonce range and the number of threads. */
  datatype Job = Job(keccak: Keccak, block: Block, maxNonce: U64, threads: nat)
  {
    predicate Valid() {
      threads > 0
    }

    function Range(): nat
      requires Valid()
    {
      maxNonce / threads
    }

    /** The first nonce of worker t. */
    function Start(t: nat): nat
      requires Valid()
    {
      t * Range()
    }

    /** One past the last nonce of worker t; the last worker takes the remainder. */
    function End(t: nat): nat
      requires Valid()
    {
      if t == threads - 1 then maxNonce else (t + 1) * Range()
    }

    /** The hash of the spliced buffer. */
    function HashOf(nonce: nat): (r: Bytes)
      ensures |r| == 64
    {
      Hex(keccak(Joined(PreNonceParts(block)) + ToBE(nonce, 8) + Joined(PostNonceParts(block))))
    }

    predicate Meets(nonce: nat) {
      MeetsTarget(HashOf(nonce), block.difficulty)
    }
  }

  datatype Pc = LoopHead | ReadAbort | ReadFound | TryHash | Elect | StoreNonce | StoreHash | Report | Stop
              | AddHashes | Done

  datatype Worker = Worker(pc: Pc, nonce: nat, localHashes: nat)

  /** The shared variables, the workers, and two history flags: whether some worker left on
      abort, and whether the progress callback asked to stop. An empty foundHash is []. */
  datatype State = State(
    found: bool, foundNonce: nat, foundHash: Bytes, totalHashes: nat,
    workers: seq<Worker>, aborted: bool, stopped: bool)

  // ---------------------------------------------------------------- steps

  ghost predicate Init(j: Job, s: State)
    requires j.Valid()
  {
    && !s.found && s.foundNonce == 0 && s.foundHash == [] && s.totalHashes == 0 && !s.aborted && !s.stopped
    && |s.workers| == j.threads
    && forall t :: 0 <= t < j.threads ==> s.workers[t] == Worker(LoopHead, j.Start(t), 0)
  }

  /** Worker t goes from w to w' and the shared variables from s to s'. The relaxed load of the
      found flag may miss a store already made; the other accesses to it are the compare-and-swap,
      which sees the latest value, and a store. The abort flag and the progress callback are
      answers of the environment. */
  ghost predicate Local(j: Job, s: State, s': State, w: Worker, w': Worker, t: nat)
    requires j.Valid()
  {
    var same := s.(workers := s'.workers);
    match w.pc
    case LoopHead => s' == same && w' == w.(pc := if w.nonce < j.End(t) then ReadAbort else AddHashes)
    case ReadAbort => (s' == same && w' == w.(pc := ReadFound)) || (s' == same.(aborted := true)
           && w' == w.(pc := Done))
    case ReadFound => s' == same && (w' == w.(pc := TryHash) || (s.found && w' == w.(pc := Done)))
    case TryHash => s' == same
           && w' == w.(localHashes := w.localHashes + 1, pc := if j.Meets(w.nonce) then Elect else Report)
    case Elect => s' == same.(found := true) && w' == w.(pc := if s.found then AddHashes else StoreNonce)
    case StoreNonce => s' == same.(foundNonce := w.nonce) && w' == w.(pc := StoreHash)
    case StoreHash => s' == same.(foundHash := j.HashOf(w.nonce)) && w' == w.(pc := AddHashes)
    case Report =>
      || (s' == same && w' == w.(nonce := w.nonce + 1, pc := LoopHead))
      || (t == 0 && s' == same.(stopped := true) && w' == w.(pc := Stop))
    case Stop => s' == same.(found := true) && w' == w.(pc := AddHashes)
    case AddHashes => s' == same.(totalHashes := s.totalHashes + w.localHashes) && w' == w.(pc := Done)
    case Done => false
  }

  /** Worker t takes one step. */
  ghost predicate Step(j: Job, s: State, s': State, t: nat)
    requires j.Valid()
  {
    && t < |s.workers| == |s'.workers| == j.threads
    && s'.workers == s.workers[t := s'.workers[t]]
    && Local(j, s, s', s.workers[t], s'.workers[t], t)
  }

  ghost predicate StepOfSome(j: Job, s: State, s': State)
    requires j.Valid()
  {
    exists t: nat :: Step(j, s, s', t)
  }

  /** Any number of steps, by any workers in any order. */
  ghost predicate Run(j: Job, states: seq<State>)
    requires j.Valid()
  {
    && states != [] && Init(j, states[0])
    && forall i :: 0 <= i < |states| - 1 ==> StepOfSome(j, states[i], states[i + 1])
  }

  ghost predicate AllDone(s: State) {
    forall t :: 0 <= t < |s.workers| ==> s.workers[t].pc == Done
  }

  // ---------------------------------------------------------------- the invariant

  /** The winner of the election, between winning and publishing its hash. */
  ghost predicate Publishing(w: Worker) {
    w.pc == StoreNonce || w.pc == StoreHash
  }

  /** Where a worker is in its range: every nonce it has left behind missed the target. */
  ghost predicate Scanned(j: Job, w: Worker, t: nat)
    requires j.Valid()
  {
    && j.Start(t) <= w.nonce <= j.End(t)
    && (forall n :: j.Start(t) <= n < w.nonce ==> !j.Meets(n))
    && (w.pc in {ReadAbort, ReadFound, TryHash, Report, Stop} ==> w.nonce < j.End(t))
    && (w.pc == Elect || Publishing(w) ==> w.nonce < j.End(t) && j.Meets(w.nonce))
    && (w.pc in {Report, Stop} ==> !j.Meets(w.nonce))
  }

  /** What a worker's position says of its counter and of the shared variables. */
  ghost predicate Standing(j: Job, s: State, w: Worker, t: nat)
    requires j.Valid()
  {
    && (w.pc == Stop ==> s.stopped)
    && (w.pc in {LoopHead, ReadAbort, ReadFound, TryHash} ==> w.localHashes == w.nonce - j.Start(t))
    && (w.pc == Report ==> w.localHashes == w.nonce + 1 - j.Start(t))
    && (w.pc == StoreHash ==> s.foundNonce == w.nonce)
    && (w.pc in {AddHashes, Done} ==>
         s.found || s.aborted || (w.nonce == j.End(t) && w.localHashes == w.nonce - j.Start(t)))
  }

  ghost predicate WorkerInv(j: Job, s: State, t: nat)
    requires j.Valid() && t < |s.workers|
  {
    Scanned(j, s.workers[t], t) && Standing(j, s, s.workers[t], t)
  }

  ghost predicate OnePublisher(s: State) {
    forall t, u :: 0 <= t < u < |s.workers| ==> !(Publishing(s.workers[t]) && Publishing(s.workers[u]))
  }

  ghost predicate PublisherHoldsFlag(s: State) {
    forall t :: 0 <= t < |s.workers| && Publishing(s.workers[t]) ==> s.found && s.foundHash == []
  }

  ghost predicate PublishedIsGood(j: Job, s: State) {
    s.foundHash != [] ==>
      s.found && s.foundHash == j.HashOf(s.foundNonce) && j.Meets(s.foundNonce) && s.foundNonce < j.maxNonce
  }

  ghost predicate FlagHasOwner(s: State) {
    s.found && !s.stopped && s.foundHash == [] ==> exists t :: 0 <= t < |s.workers| && Publishing(s.workers[t])
  }

  /** At most one worker publishes, and only while nothing is published. */
  ghost predicate ElectionInv(j: Job, s: State) {
    OnePublisher(s) && PublisherHoldsFlag(s) && PublishedIsGood(j, s) && FlagHasOwner(s)
  }

  ghost predicate Inv(j: Job, s: State)
    requires j.Valid()
  {
    && |s.workers| == j.threads
    && (forall t :: 0 <= t < j.threads ==> WorkerInv(j, s, t))
    && ElectionInv(j, s)
  }

  lemma RangesFit(j: Job, t: nat)
    requires j.Valid() && t < j.threads
    ensures j.Start(t) <= j.End(t) <= j.maxNonce
    ensures t + 1 < j.threads ==> j.End(t) == j.Start(t + 1)
  {
    var r := j.Range();
    assert j.threads * r <= j.maxNonce;
    MultiplesOrdered(t, j.threads, r);
    if t < j.threads - 1 {
      MultiplesOrdered(t, t + 1, r);
      MultiplesOrdered(t + 1, j.threads, r);
    }
  }

  lemma MultiplesOrdered(a: nat, b: nat, r: nat)
    requires a <= b
    ensures a * r <= b * r
  {
    assert b * r == a * r + (b - a) * r;
  }

  lemma InitInv(j: Job, s: State)
    requires j.Valid() && Init(j, s)
    ensures Inv(j, s)
  {
    forall t | 0 <= t < j.threads
      ensures WorkerInv(j, s, t)
    {
      RangesFit(j, t);
    }
  }

  /** A step touches no other worker, and raised flags stay raised. */
  lemma StepFrame(j: Job, s: State, s': State, t: nat)
    requires j.Valid() && Step(j, s, s', t)
    ensures |s'.workers| == |s.workers| == j.threads
    ensures forall u :: 0 <= u < j.threads && u != t ==> s'.workers[u] == s.workers[u]
    ensures (s.found ==> s'.found) && (s.stopped ==> s'.stopped) && (s.aborted ==> s'.aborted)
    ensures s'.foundNonce == s.foundNonce || Publishing(s.workers[t])
    ensures s'.foundHash == s.foundHash || Publishing(s.workers[t])
  {
    hide Job.Start, Job.End, Job.HashOf, Job.Meets;
  }

  /** What the steps around an election take from the invariant. */
  lemma PublisherReady(j: Job, s: State, t: nat)
    requires j.Valid() && Inv(j, s) && t < j.threads
    ensures ElectionInv(j, s)
    ensures var w := s.workers[t];
            && (Publishing(w) ==> w.nonce < j.maxNonce && j.Meets(w.nonce))
            && (w.pc == StoreHash ==> s.foundNonce == w.nonce)
            && (w.pc == Stop ==> s.stopped)
  {
    assert WorkerInv(j, s, t);
    RangesFit(j, t);
  }

  /** How a worker enters the publishing phase. */
  lemma StepPublishes(j: Job, s: State, s': State, t: nat)
    requires j.Valid() && Step(j, s, s', t)
    ensures Publishing(s'.workers[t]) ==>
              s'.foundHash == s.foundHash && (Publishing(s.workers[t]) || (!s.found && s'.found))
  {
    hide Job.Start, Job.End, Job.HashOf, Job.Meets;
  }

  lemma StepKeepsOnePublisher(j: Job, s: State, s': State, t: nat)
    requires j.Valid() && Step(j, s, s', t) && OnePublisher(s) && PublisherHoldsFlag(s)
    requires s.foundHash != [] ==> s.found
    ensures OnePublisher(s') && PublisherHoldsFlag(s')
  {
    hide Job.Start, Job.End, Job.HashOf, Job.Meets, Local, Publishing;
    StepFrame(j, s, s', t);
    StepPublishes(j, s, s', t);
    assert Publishing(s.workers[t]) ==> s.found && s.foundHash == [];
    forall u | 0 <= u < |s'.workers| && u != t && Publishing(s'.workers[u])
      ensures !Publishing(s.workers[t]) && !Publishing(s'.workers[t]) && s'.found && s'.foundHash == []
    {
      assert Publishing(s.workers[u]);
    }
  }

  lemma StepKeepsPublished(j: Job, s: State, s': State, t: nat)
    requires j.Valid() && Inv(j, s) && Step(j, s, s', t)
    ensures PublishedIsGood(j, s')
  {
    hide Job.Start, Job.End, Job.HashOf, Job.Meets, Inv, OnePublisher, FlagHasOwner;
    PublisherReady(j, s, t);
    StepFrame(j, s, s', t);
    assert PublisherHoldsFlag(s) && PublishedIsGood(j, s);
  }

  lemma StepKeepsOwner(j: Job, s: State, s': State, t: nat)
    requires j.Valid() && Inv(j, s) && Step(j, s, s', t)
    ensures FlagHasOwner(s')
  {
    hide Job.Start, Job.End, Job.HashOf, Job.Meets, Inv, OnePublisher, PublishedIsGood;
    PublisherReady(j, s, t);
    StepFrame(j, s, s', t);
    if s'.found && !s'.stopped && s'.foundHash == [] && !Publishing(s'.workers[t]) {
      var u :| 0 <= u < |s.workers| && Publishing(s.workers[u]);
      assert u != t;
      assert Publishing(s'.workers[u]);
    }
  }

  lemma StepKeepsElection(j: Job, s: State, s': State, t: nat)
    requires j.Valid() && Inv(j, s) && Step(j, s, s', t)
    ensures ElectionInv(j, s')
  {
    hide Inv, Step, OnePublisher, PublisherHoldsFlag, PublishedIsGood, FlagHasOwner;
    StepIsOfWorker(j, s, s', t);
    PublisherReady(j, s, t);
    assert s.foundHash != [] ==> s.found by {
      PublishedHasFlag(j, s);
    }
    StepKeepsOnePublisher(j, s, s', t);
    StepKeepsPublished(j, s, s', t);
    StepKeepsOwner(j, s, s', t);
  }

  lemma PublishedHasFlag(j: Job, s: State)
    requires PublishedIsGood(j, s)
    ensures s.foundHash != [] ==> s.found
  {
  }

  lemma StepIsOfWorker(j: Job, s: State, s': State, t: nat)
    requires j.Valid() && Step(j, s, s', t)
    ensures t < j.threads
  {
  }

  lemma StepKeepsOther(j: Job, s: State, s': State, t: nat, u: nat)
    requires j.Valid() && u < |s'.workers| == j.threads && u != t
    requires Inv(j, s) && Step(j, s, s', t)
    ensures WorkerInv(j, s', u)
  {
    StepFrame(j, s, s', t);
    assert WorkerInv(j, s, u);
    assert !(Publishing(s.workers[t]) && Publishing(s.workers[u]));
    hide Job.Start, Job.End, Job.HashOf, Job.Meets, Step, Scanned;
  }

  lemma StepKeepsScanned(j: Job, s: State, s': State, t: nat)
    requires j.Valid() && t < |s'.workers| == j.threads
    requires Inv(j, s) && Step(j, s, s', t)
    ensures Scanned(j, s'.workers[t], t)
  {
    hide Job.Start, Job.End, Job.HashOf, Job.Meets, ElectionInv, Standing;
    assert WorkerInv(j, s, t);
  }

  lemma StepKeepsStanding(j: Job, s: State, s': State, t: nat)
    requires j.Valid() && t < |s'.workers| == j.threads
    requires Inv(j, s) && Step(j, s, s', t)
    ensures Standing(j, s', s'.workers[t], t)
  {
    hide Job.Start, Job.End, Job.HashOf, Job.Meets;
    assert WorkerInv(j, s, t);
  }

  lemma StepKeepsInv(j: Job, s: State, s': State, t: nat)
    requires j.Valid() && Inv(j, s) && Step(j, s, s', t)
    ensures Inv(j, s')
  {
    StepFrame(j, s, s', t);
    assert t < j.threads;
    hide Scanned, Standing, ElectionInv, Step;
    StepKeepsElection(j, s, s', t);
    StepKeepsScanned(j, s, s', t);
    StepKeepsStanding(j, s, s', t);
    forall u | 0 <= u < j.threads && u != t
      ensures WorkerInv(j, s', u)
    {
      StepKeepsOther(j, s, s', t, u);
    }
  }

  lemma {:induction false} RunKeepsInv(j: Job, states: seq<State>)
    requires j.Valid() && Run(j, states)
    ensures Inv(j, states[|states| - 1])
    decreases |states|
  {
    hide Inv, Step, Init;
    if |states| == 1 {
      InitInv(j, states[0]);
    } else {
      var before := states[..|states| - 1];
      RunKeepsInv(j, before);
      var s, s' := before[|before| - 1], states[|states| - 1];
      assert StepOfSome(j, states[|states| - 2], states[|states| - 2 + 1]);
      var t: nat :| Step(j, s, s', t);
      StepKeepsInv(j, s, s', t);
    }
  }

  // ---------------------------------------------------------------- the result

  datatype Result = Result(found: bool, nonce: nat, hash: Bytes, hashesComputed: nat)

  /** What mineParallel returns once every worker has been joined. */
  function ResultOf(s: State): Result {
    if s.found && s.foundHash != [] then Result(true, s.foundNonce, s.foundHash, s.totalHashes)
    else Result(false, 0, [], s.totalHashes)
  }

  /** The block after the call. */
  function Updated(b: Block, r: Result): Block
    requires r.nonce < U64_LIMIT
  {
    if r.found then b.(nonce := r.nonce, hash := r.hash) else b
  }

  /** Over every interleaving: a reported nonce and hash come from one attempt, which met the
      target, and the updated block passes the hash check exactly when its difficulty is not 0. */
  lemma FoundIsValid(j: Job, states: seq<State>)
    requires j.Valid() && Run(j, states) && AllDone(states[|states| - 1])
    requires ResultOf(states[|states| - 1]).found
    ensures var r := ResultOf(states[|states| - 1]);
            && r.nonce < j.maxNonce && j.Meets(r.nonce) && r.hash == j.HashOf(r.nonce)
            && ComputedHash(j.keccak, Updated(j.block, r)) == r.hash
            && (ValidHash(j.keccak, Updated(j.block, r)) <==> j.block.difficulty != 0)
  {
    hide Hex, MeetsTarget, Serialized, Joined, ToBE;
    var r := ResultOf(states[|states| - 1]);
    RunKeepsInv(j, states);
    Splice(j.block, r.nonce);
    SerializedIgnoresHash(j.block.(nonce := r.nonce), r.hash);
  }

  function Lone(pc: Pc, localHashes: nat, found: bool, foundHash: Bytes, totalHashes: nat): State {
    State(found, 0, foundHash, totalHashes, [Worker(pc, 0, localHashes)], false, false)
  }

  /** One thread that wins with its first nonce. */
  ghost function FirstNonceWins(j: Job): seq<State> {
    var hash := j.HashOf(0);
    [Lone(LoopHead, 0, false, [], 0), Lone(ReadAbort, 0, false, [], 0), Lone(ReadFound, 0, false, [], 0),
     Lone(TryHash, 0, false, [], 0), Lone(Elect, 1, false, [], 0), Lone(StoreNonce, 1, true, [], 0),
     Lone(StoreHash, 1, true, [], 0), Lone(AddHashes, 1, true, hash, 0), Lone(Done, 1, true, hash, 1)]
  }

  lemma LoneStep(j: Job, s: State, s': State)
    requires j.threads == 1 && |s.workers| == |s'.workers| == 1
    requires Local(j, s, s', s.workers[0], s'.workers[0], 0)
    ensures StepOfSome(j, s, s')
  {
    hide Local;
    assert s'.workers == s.workers[0 := s'.workers[0]];
    assert Step(j, s, s', 0);
  }

  lemma FirstNonceRuns(j: Job)
    requires j.threads == 1 && j.maxNonce > 0 && j.Meets(0)
    ensures Run(j, FirstNonceWins(j))
  {
    hide Job.HashOf, Job.Meets, StepOfSome;
    var states := FirstNonceWins(j);
    assert j.Start(0) == 0 && j.End(0) == j.maxNonce;
    forall i | 0 <= i < |states| - 1
      ensures StepOfSome(j, states[i], states[i + 1])
    {
      LoneStep(j, states[i], states[i + 1]);
    }
  }

  /** At difficulty 0 a block really is reported that its own validation refuses. */
  lemma ZeroDifficultyReported(j: Job) returns (states: seq<State>)
    requires j.threads == 1 && j.maxNonce > 0 && j.block.difficulty == 0
    ensures Run(j, states) && AllDone(states[|states| - 1])
    ensures var r := ResultOf(states[|states| - 1]);
            r.found && r.nonce < U64_LIMIT && !ValidHash(j.keccak, Updated(j.block, r))
  {
    states := FirstNonceWins(j);
    MeetsZero(j.HashOf(0));
    FirstNonceRuns(j);
    hide Job.HashOf, Run, ComputedHash, MeetsTarget;
  }

  // ---------------------------------------------------------------- the hash count

  function Reported(w: Worker): nat {
    if w.pc == Done then w.localHashes else 0
  }

  function ReportedBy(workers: seq<Worker>): (r: seq<nat>)
    ensures |r| == |workers| && forall t :: 0 <= t < |workers| ==> r[t] == Reported(workers[t])
  {
    seq(|workers|, t requires 0 <= t < |workers| => Reported(workers[t]))
  }

  /** Until somebody wins, stops or aborts, the shared counter holds what the finished workers
      counted. */
  ghost predicate CountInv(s: State) {
    !s.found && !s.aborted ==> s.totalHashes == Sum(ReportedBy(s.workers))
  }

  lemma {:induction false} NobodyReported(workers: seq<Worker>)
    requires forall t :: 0 <= t < |workers| ==> workers[t].pc != Done
    ensures Sum(ReportedBy(workers)) == 0
  {
    if workers != [] {
      var init := workers[..|workers| - 1];
      assert ReportedBy(workers)[..|init|] == ReportedBy(init);
      NobodyReported(init);
    }
  }

  lemma StepKeepsCount(j: Job, s: State, s': State, t: nat)
    requires j.Valid() && Step(j, s, s', t) && CountInv(s)
    ensures CountInv(s')
  {
    StepFrame(j, s, s', t);
    assert ReportedBy(s'.workers) == ReportedBy(s.workers)[t := Reported(s'.workers[t])];
    SumUpdate(ReportedBy(s.workers), t, Reported(s'.workers[t]));
  }

  lemma {:induction false} RunKeepsCount(j: Job, states: seq<State>)
    requires j.Valid() && Run(j, states)
    ensures CountInv(states[|states| - 1])
    decreases |states|
  {
    hide Step, CountInv;
    if |states| == 1 {
      NobodyReported(states[0].workers);
      InitialCount(j, states[0]);
    } else {
      var before := states[..|states| - 1];
      RunKeepsCount(j, before);
      assert StepOfSome(j, states[|states| - 2], states[|states| - 2 + 1]);
      var t: nat :| Step(j, before[|before| - 1], states[|states| - 1], t);
      StepKeepsCount(j, before[|before| - 1], states[|states| - 1], t);
    }
  }

  lemma InitialCount(j: Job, s: State)
    requires j.Valid() && Init(j, s)
    ensures CountInv(s)
  {
    NobodyReported(s.workers);
  }

  lemma {:induction false} RangesAddUp(j: Job, counts: seq<nat>)
    requires j.Valid() && counts != [] && |counts| <= j.threads
    requires forall t :: 0 <= t < |counts| ==> j.Start(t) <= j.End(t) && counts[t] == j.End(t) - j.Start(t)
    ensures Sum(counts) == j.End(|counts| - 1)
  {
    var k := |counts| - 1;
    if k > 0 {
      RangesAddUp(j, counts[..k]);
      RangesFit(j, k - 1);
    }
  }

  /** Over every interleaving: if nothing is reported, nobody aborted and the callback did not
      stop the search, then no nonce of the whole range meets the target, and the hash count
      is the size of the range. */
  lemma NotFoundIsExhaustive(j: Job, states: seq<State>)
    requires j.Valid() && Run(j, states) && AllDone(states[|states| - 1])
    requires !ResultOf(states[|states| - 1]).found
    requires !states[|states| - 1].aborted && !states[|states| - 1].stopped
    ensures forall n :: 0 <= n < j.maxNonce ==> !j.Meets(n)
    ensures ResultOf(states[|states| - 1]).hashesComputed == j.maxNonce
  {
    hide Job.Meets, Job.HashOf, Job.Start, Job.End;
    var s := states[|states| - 1];
    RunKeepsInv(j, states);
    RunKeepsCount(j, states);
    forall n | 0 <= n < j.maxNonce
      ensures !j.Meets(n)
    {
      var t := Owner(j, n);
      assert WorkerInv(j, s, t);
    }
    forall t | 0 <= t < j.threads
      ensures j.Start(t) <= j.End(t) && ReportedBy(s.workers)[t] == j.End(t) - j.Start(t)
    {
      assert WorkerInv(j, s, t);
    }
    RangesAddUp(j, ReportedBy(s.workers));
    LastEnd(j);
  }

  lemma LastEnd(j: Job)
    requires j.Valid()
    ensures j.End(j.threads - 1) == j.maxNonce
  {
  }

  /** The ranges cover every nonce. */
  lemma Owner(j: Job, n: nat) returns (t: nat)
    requires j.Valid() && n < j.maxNonce
    ensures t < j.threads && j.Start(t) <= n < j.End(t)
  {
    t := 0;
    while n >= j.End(t)
      invariant t < j.threads && j.Start(t) <= n
      decreases j.threads - t
    {
      RangesFit(j, t);
      t := t + 1;
    }
  }

  // ---------------------------------------------------------------- every run ends

  function Rank(pc: Pc): nat {
    match pc
    case LoopHead => 10
    case ReadAbort => 9
    case ReadFound => 8
    case TryHash => 7
    case Elect => 6
    case Report => 6
    case StoreNonce => 5
    case StoreHash => 4
    case Stop => 3
    case AddHashes => 2
    case Done => 0
  }

  /** The steps worker t can still take, at most. */
  function Remaining(j: Job, w: Worker, t: nat): nat
    requires j.Valid()
  {
    (if w.nonce < j.End(t) then 12 * (j.End(t) - w.nonce) else 0) + Rank(w.pc)
  }

  function RemainingOf(j: Job, workers: seq<Worker>): (r: seq<nat>)
    requires j.Valid()
    ensures |r| == |workers| && forall t :: 0 <= t < |workers| ==> r[t] == Remaining(j, workers[t], t)
  {
    seq(|workers|, t requires 0 <= t < |workers| => Remaining(j, workers[t], t))
  }

  lemma StepDecreases(j: Job, s: State, s': State, t: nat)
    requires j.Valid() && Inv(j, s) && Step(j, s, s', t)
    ensures Sum(RemainingOf(j, s'.workers)) < Sum(RemainingOf(j, s.workers))
  {
    hide Job.Start, Job.End, Job.HashOf, Job.Meets;
    assert WorkerInv(j, s, t);
    StepFrame(j, s, s', t);
    OneStepLess(j, s, s', t);
    hide Step, Inv, Remaining;
    assert RemainingOf(j, s'.workers) == RemainingOf(j, s.workers)[t := Remaining(j, s'.workers[t], t)];
    SumUpdate(RemainingOf(j, s.workers), t, Remaining(j, s'.workers[t], t));
  }

  lemma OneStepLess(j: Job, s: State, s': State, t: nat)
    requires j.Valid() && t < |s.workers| == |s'.workers| == j.threads
    requires Scanned(j, s.workers[t], t) && Step(j, s, s', t)
    ensures Remaining(j, s'.workers[t], t) < Remaining(j, s.workers[t], t)
  {
    hide Job.Start, Job.End, Job.HashOf, Job.Meets;
  }

  /** No schedule goes on for ever: a run has no more steps than its first state allows. */
  lemma {:induction false} RunIsBounded(j: Job, states: seq<State>)
    requires j.Valid() && Run(j, states)
    ensures |states| - 1 + Sum(RemainingOf(j, states[|states| - 1].workers)) <= Sum(RemainingOf(j, states[0].workers))
    decreases |states|
  {
    hide Inv, Step, Init, RemainingOf;
    if |states| > 1 {
      var before := states[..|states| - 1];
      RunIsBounded(j, before);
      RunKeepsInv(j, before);
      assert StepOfSome(j, states[|states| - 2], states[|states| - 2 + 1]);
      var t: nat :| Step(j, before[|before| - 1], states[|states| - 1], t);
      StepDecreases(j, before[|before| - 1], states[|states| - 1], t);
    }
  }

  /** And no worker is ever stuck: until all are done, some step is possible. */
  lemma NeverStuck(j: Job, s: State) returns (s': State)
    requires j.Valid() && Inv(j, s) && !AllDone(s)
    ensures StepOfSome(j, s, s')
  {
    assert |s.workers| == j.threads;
    hide Inv, Job.Meets, Job.HashOf, Job.Start, Job.End;
    var t: nat :| t < |s.workers| && s.workers[t].pc != Done;
    var w := s.workers[t];
    var w' := match w.pc
      case LoopHead => w.(pc := if w.nonce < j.End(t) then ReadAbort else AddHashes)
      case ReadAbort => w.(pc := ReadFound)
      case ReadFound => w.(pc := TryHash)
      case TryHash => w.(localHashes := w.localHashes + 1, pc := if j.Meets(w.nonce) then Elect else Report)
      case Elect => w.(pc := if s.found then AddHashes else StoreNonce)
      case StoreNonce => w.(pc := StoreHash)
      case Report => w.(nonce := w.nonce + 1, pc := LoopHead)
      case AddHashes => w.(pc := Done)
      case _ => w.(pc := AddHashes);
    var same := s.(workers := s.workers[t := w']);
    s' := match w.pc
      case Elect => same.(found := true)
      case StoreNonce => same.(foundNonce := w.nonce)
      case StoreHash => same.(foundHash := j.HashOf(w.nonce))
      case Stop => same.(found := true)
      case AddHashes => same.(totalHashes := s.totalHashes + w.localHashes)
      case _ => same;
    assert Local(j, s, s', w, w', t);
    hide Local;
    assert Step(j, s, s', t);
  }
}
