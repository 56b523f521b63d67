/** The token-bucket rate limiter (src/rate_limiter.cpp): credit in nanoseconds, buckets in
    shards, and a janitor that evicts idle buckets. Clock readings are inputs. */
module RateLimiter {
  import opened Arithmetic
  import opened Wrappers

  datatype Config = Config(requestsPerSecond: nat, burstSize: nat, idleTimeoutMs: nat, shardCount: nat)

  datatype Bucket = Bucket(creditNs: int, lastSeen: int)

  type Buckets = map<string, Bucket>

  // ---------------------------------------------------------------- the constructor's constants

  /** Bitwise and of two unsigned numbers. */
  function And(a: nat, b: nat): nat {
    if a == 0 || b == 0 then 0 else (if a % 2 == 1 && b % 2 == 1 then 1 else 0) + 2 * And(a / 2, b / 2)
  }

  predicate IsPowerOfTwo(n: nat) {
    n == 1 || (n > 1 && n % 2 == 0 && IsPowerOfTwo(n / 2))
  }

  /** The bit test of the constructor accepts exactly the powers of two. */
  lemma {:induction false} PowerOfTwoTest(n: nat)
    requires n > 0
    ensures And(n, n - 1) == 0 <==> IsPowerOfTwo(n)
  {
    if n > 1 {
      if n % 2 == 0 {
        PowerOfTwoTest(n / 2);
        assert (n - 1) / 2 == n / 2 - 1;
      } else {
        assert And(n / 2, (n - 1) / 2) == And(n / 2, n / 2);
        AndSelf(n / 2);
      }
    }
  }

  lemma {:induction false} AndSelf(n: nat)
    ensures And(n, n) == n
  {
    if n > 0 {
      AndSelf(n / 2);
    }
  }

  lemma AndOdd(h: nat, k: nat)
    ensures And(h, 2 * k + 1) == h % 2 + 2 * And(h / 2, k)
  {
  }

  /** Masking with a power of two minus one is the remainder. */
  lemma {:induction false} MaskIsRemainder(h: nat, n: nat)
    requires IsPowerOfTwo(n)
    ensures And(h, n - 1) == h % n
    decreases n
  {
    if n > 1 {
      var m := n / 2;
      assert n == 2 * m && IsPowerOfTwo(m);
      hide And, IsPowerOfTwo;
      MaskIsRemainder(h / 2, m);
      AndOdd(h, m - 1);
      RemainderHalves(h, m);
    }
  }

  lemma RemainderHalves(h: nat, m: nat)
    requires m > 0
    ensures h % (2 * m) == 2 * (h / 2 % m) + h % 2
  {
    var q, r := h / 2 / m, h / 2 % m;
    assert h / 2 == m * q + r;
    assert h == q * (2 * m) + (2 * r + h % 2);
    QuotientOf(q, 2 * r + h % 2, 2 * m);
  }

  const NS_PER_SECOND: nat := 1_000_000_000

  /** What the constructor derives from a configuration. */
  datatype Params = Params(burst: nat, nsPerToken: nat, idleNs: nat, shardCount: nat)
  {
    function MaxCredit(): nat {
      burst * nsPerToken
    }
  }

  function Derived(cfg: Config): (p: Params)
    ensures p.burst >= 1 && p.shardCount >= 1 && IsPowerOfTwo(p.shardCount)
  {
    var rps := if cfg.requestsPerSecond == 0 then 1 else cfg.requestsPerSecond;
    var burst := if cfg.burstSize < rps then rps else cfg.burstSize;
    var shards := if cfg.shardCount == 0 || And(cfg.shardCount, cfg.shardCount - 1) != 0 then 16 else cfg.shardCount;
    assert IsPowerOfTwo(shards) by {
      assert IsPowerOfTwo(4) && IsPowerOfTwo(16);
      if cfg.shardCount > 0 {
        PowerOfTwoTest(cfg.shardCount);
      }
    }
    Params(burst, NS_PER_SECOND / rps, cfg.idleTimeoutMs * 1_000_000, shards)
  }

  /** Above a billion requests per second a token costs nothing. */
  lemma TokenCost(cfg: Config)
    ensures Derived(cfg).nsPerToken == 0 <==> cfg.requestsPerSecond > NS_PER_SECOND
  {
    if cfg.requestsPerSecond > NS_PER_SECOND {
      QuotientOf(0, NS_PER_SECOND, cfg.requestsPerSecond);
    } else if cfg.requestsPerSecond > 0 {
      var q, r := NS_PER_SECOND / cfg.requestsPerSecond, NS_PER_SECOND % cfg.requestsPerSecond;
      assert NS_PER_SECOND == cfg.requestsPerSecond * q + r;
    }
  }

  /** What the constructor makes of a configuration: it keeps what is admissible, a burst no smaller
      than the rate and a power of two, and the token price is the rate's reciprocal, rounded down. */
  lemma DerivedMeaning(cfg: Config)
    ensures var p, rps := Derived(cfg), if cfg.requestsPerSecond == 0 then 1 else cfg.requestsPerSecond;
            && p.burst >= rps && p.burst >= cfg.burstSize && (p.burst == rps || p.burst == cfg.burstSize)
            && p.shardCount == (if IsPowerOfTwo(cfg.shardCount) then cfg.shardCount else 16)
            && p.nsPerToken * rps <= 1_000_000_000 < (p.nsPerToken + 1) * rps
            && p.idleNs == 1_000_000 * cfg.idleTimeoutMs
  {
    hide And;
    var rps := if cfg.requestsPerSecond == 0 then 1 else cfg.requestsPerSecond;
    var q, r := NS_PER_SECOND / rps, NS_PER_SECOND % rps;
    assert NS_PER_SECOND == rps * q + r;
    if cfg.shardCount > 0 {
      PowerOfTwoTest(cfg.shardCount);
    }
  }

  // ---------------------------------------------------------------- one bucket

  /** The bucket of a key after credit has accrued; a bucket never seen starts full. */
  function Accrued(p: Params, b: Option<Bucket>, now: int): Bucket {
    if b.None? || b.value.lastSeen == 0 then Bucket(p.MaxCredit(), now)
    else
      var elapsed := now - b.value.lastSeen;
      var grown := if elapsed > 0 then b.value.creditNs + elapsed else b.value.creditNs;
      Bucket(if elapsed > 0 && grown > p.MaxCredit() then p.MaxCredit() else grown, now)
  }

  function Spend(p: Params, b: Bucket): (Bucket, bool) {
    if b.creditNs < p.nsPerToken then (b, false) else (b.(creditNs := b.creditNs - p.nsPerToken), true)
  }

  function AllowBucket(p: Params, b: Option<Bucket>, now: int): (Bucket, bool) {
    Spend(p, Accrued(p, b, now))
  }

  function Get(m: Buckets, key: string): Option<Bucket> {
    if key in m then Some(m[key]) else None
  }

  /** Credit is earned one to one with time up to the ceiling, a request costs one token and is
      permitted exactly when the credit covers it; a bucket never seen is full. */
  lemma AllowMeaning(p: Params, b: Option<Bucket>, now: int)
    requires b.Some? ==> 0 < b.value.lastSeen <= now && 0 <= b.value.creditNs <= p.MaxCredit()
    ensures var earned := if b.None? then p.MaxCredit() else b.value.creditNs + (now - b.value.lastSeen);
            var available := if earned < p.MaxCredit() then earned else p.MaxCredit();
            var (after, ok) := AllowBucket(p, b, now);
            && (ok <==> available >= p.nsPerToken)
            && after.creditNs == available - (if ok then p.nsPerToken else 0) && after.lastSeen == now
  {
  }

  /** The clock must not go back: a reading one token's worth earlier makes the bucket earn the same
      time twice, so that a request denied at a moment is permitted at that very moment. */
  lemma BackwardClockEarnsTwice(p: Params, t: int)
    requires p.burst >= 1 && p.nsPerToken > 0 && t > p.nsPerToken
    ensures var empty := Bucket(0, t);
            var (back, first) := AllowBucket(p, Some(empty), t - p.nsPerToken);
            && !AllowBucket(p, Some(empty), t).1 && !first && AllowBucket(p, Some(back), t).1
  {
    MultipleGrows(p.nsPerToken, p.burst);
  }

  /** A clock reading of zero makes the limiter forget the key: its next request finds it new. */
  lemma ZeroReadingForgets(p: Params, b: Option<Bucket>, now: int)
    ensures AllowBucket(p, Some(AllowBucket(p, b, 0).0), now) == AllowBucket(p, None, now)
  {
  }

  // ---------------------------------------------------------------- the reference: one map, no eviction

  function AllowFlat(p: Params, m: Buckets, key: string, now: int): (Buckets, bool) {
    if key == "" then (m, false) else
    var (b, ok) := AllowBucket(p, Get(m, key), now);
    (m[key := b], ok)
  }

  // ---------------------------------------------------------------- the limiter: shards and a janitor

  type Shards = seq<Buckets>
  type ShardFor = string -> nat

  ghost predicate Routes(f: ShardFor, shards: Shards) {
    forall key :: f(key) < |shards|
  }

  function AllowSharded(p: Params, f: ShardFor, shards: Shards, key: string, now: int): (r: (Shards, bool))
    requires Routes(f, shards)
    ensures Routes(f, r.0)
  {
    if key == "" then (shards, false) else
    var i := f(key);
    var (b, ok) := AllowBucket(p, Get(shards[i], key), now);
    (shards[i := shards[i][key := b]], ok)
  }

  /** The buckets a janitor pass at time now leaves in one shard. */
  function Kept(p: Params, m: Buckets, now: int): (r: Buckets)
    ensures forall key :: key in r <==> key in m && m[key].lastSeen >= now - p.idleNs
    ensures forall key :: key in r ==> r[key] == m[key]
  {
    map key | key in m && m[key].lastSeen >= now - p.idleNs :: m[key]
  }

  function Swept(p: Params, shards: Shards, now: int): (r: Shards)
    ensures |r| == |shards| && forall i :: 0 <= i < |shards| ==> r[i] == Kept(p, shards[i], now)
  {
    seq(|shards|, i requires 0 <= i < |shards| => Kept(p, shards[i], now))
  }

  // ---------------------------------------------------------------- runs

  datatype Event = Request(key: string, at: int) | Pass(at: int)

  /** Positive clock readings that never go back, between two moments. */
  predicate Timely(events: seq<Event>, from: int, to: int) {
    if events == [] then 0 < from <= to
    else 0 < from <= events[0].at && Timely(events[1..], events[0].at, to)
  }

  /** The answers of the reference to a run; a janitor pass has no answer and no effect. */
  function AnswersFlat(p: Params, m: Buckets, events: seq<Event>): (r: seq<bool>)
    ensures |r| == |events|
    decreases events
  {
    if events == [] then [] else
    match events[0]
    case Pass(_) => [false] + AnswersFlat(p, m, events[1..])
    case Request(key, at) =>
      var (m', ok) := AllowFlat(p, m, key, at);
      [ok] + AnswersFlat(p, m', events[1..])
  }

  function AfterEvent(p: Params, f: ShardFor, shards: Shards, e: Event): (r: (Shards, bool))
    requires Routes(f, shards)
    ensures Routes(f, r.0)
  {
    match e
    case Pass(at) => (Swept(p, shards, at), false)
    case Request(key, at) => AllowSharded(p, f, shards, key, at)
  }

  function Answers(p: Params, f: ShardFor, shards: Shards, events: seq<Event>): (r: seq<bool>)
    requires Routes(f, shards)
    ensures |r| == |events|
    decreases events
  {
    if events == [] then [] else
    var (shards', ok) := AfterEvent(p, f, shards, events[0]);
    [ok] + Answers(p, f, shards', events[1..])
  }

  function Empty(n: nat): (r: Shards)
    ensures |r| == n && forall i :: 0 <= i < n ==> r[i] == map[]
  {
    seq(n, i => map[])
  }

  // ---------------------------------------------------------------- janitor transparency

  /** A bucket as it stands at a moment: seen in the past, its credit within bounds. */
  ghost predicate Sound(p: Params, b: Bucket, now: int) {
    0 < b.lastSeen <= now && 0 <= b.creditNs <= p.MaxCredit()
  }

  /** What the limiter knows of a key against the reference: the same bucket, or nothing while
      the reference holds one that would by now be full again. */
  ghost predicate AgreeOn(p: Params, known: Option<Bucket>, reference: Option<Bucket>, now: int) {
    && (reference.Some? ==> Sound(p, reference.value, now))
    && (known == reference
        || (known.None? && reference.value.creditNs + (now - reference.value.lastSeen) >= p.MaxCredit()))
  }

  ghost predicate Agree(p: Params, f: ShardFor, shards: Shards, m: Buckets, now: int)
    requires Routes(f, shards)
  {
    forall key :: AgreeOn(p, Get(shards[f(key)], key), Get(m, key), now)
  }

  lemma SoundAfter(p: Params, b: Option<Bucket>, now: int)
    requires now > 0 && (b.Some? ==> Sound(p, b.value, now))
    ensures Sound(p, AllowBucket(p, b, now).0, now)
  {
    assert p.MaxCredit() >= 0;
  }

  lemma AgreeRequest(p: Params, f: ShardFor, shards: Shards, m: Buckets, before: int, key: string, now: int)
    requires Routes(f, shards) && Agree(p, f, shards, m, before) && 0 < before <= now
    ensures AllowSharded(p, f, shards, key, now).1 == AllowFlat(p, m, key, now).1
    ensures Agree(p, f, AllowSharded(p, f, shards, key, now).0, AllowFlat(p, m, key, now).0, now)
  {
    if key != "" {
      var known, reference := Get(shards[f(key)], key), Get(m, key);
      assert AgreeOn(p, known, reference, before);
      assert AllowBucket(p, known, now) == AllowBucket(p, reference, now);
      SoundAfter(p, reference, now);
    }
    var shards', m' := AllowSharded(p, f, shards, key, now).0, AllowFlat(p, m, key, now).0;
    forall k
      ensures AgreeOn(p, Get(shards'[f(k)], k), Get(m', k), now)
    {
      assert AgreeOn(p, Get(shards[f(k)], k), Get(m, k), before);
    }
  }

  lemma AgreePass(p: Params, f: ShardFor, shards: Shards, m: Buckets, before: int, now: int)
    requires Routes(f, shards) && Agree(p, f, shards, m, before) && 0 < before <= now
    requires p.idleNs + 1 >= p.MaxCredit()
    ensures Agree(p, f, Swept(p, shards, now), m, now)
  {
    forall k
      ensures AgreeOn(p, Get(Swept(p, shards, now)[f(k)], k), Get(m, k), now)
    {
      assert AgreeOn(p, Get(shards[f(k)], k), Get(m, k), before);
    }
  }

  lemma {:induction false} SameAnswers(p: Params, f: ShardFor, shards: Shards, m: Buckets, now: int,
                                       events: seq<Event>, to: int)
    requires Routes(f, shards) && Agree(p, f, shards, m, now) && Timely(events, now, to)
    requires p.idleNs + 1 >= p.MaxCredit()
    ensures Answers(p, f, shards, events) == AnswersFlat(p, m, events)
    decreases events
  {
    hide Agree, AllowSharded, AllowFlat;
    if events != [] {
      match events[0]
      case Pass(at) =>
        AgreePass(p, f, shards, m, now, at);
        SameAnswers(p, f, Swept(p, shards, at), m, at, events[1..], to);
      case Request(key, at) =>
        AgreeRequest(p, f, shards, m, now, key, at);
        SameAnswers(p, f, AllowSharded(p, f, shards, key, at).0, AllowFlat(p, m, key, at).0, at, events[1..], to);
    }
  }

  // ---------------------------------------------------------------- the rate bound

  /** How many requests for a key were permitted. */
  function Permits(key: string, events: seq<Event>, answers: seq<bool>): nat
    requires |events| == |answers|
  {
    if events == [] then 0
    else (if events[0].Request? && events[0].key == key && answers[0] then 1 else 0)
         + Permits(key, events[1..], answers[1..])
  }

  /** The empty key is never permitted. */
  lemma {:induction false} EmptyKeyDenied(p: Params, f: ShardFor, shards: Shards, events: seq<Event>)
    requires Routes(f, shards)
    ensures Permits("", events, Answers(p, f, shards, events)) == 0
    decreases events
  {
    hide AllowBucket, Swept;
    if events != [] {
      EmptyKeyDenied(p, f, AfterEvent(p, f, shards, events[0]).0, events[1..]);
    }
  }

  ghost predicate SoundMap(p: Params, m: Buckets, now: int) {
    forall key :: key in m ==> Sound(p, m[key], now)
  }

  function Available(p: Params, m: Buckets, key: string, now: int): int {
    Accrued(p, Get(m, key), now).creditNs
  }

  lemma RequestKeepsSound(p: Params, m: Buckets, before: int, key: string, now: int)
    requires SoundMap(p, m, before) && 0 < before <= now
    ensures SoundMap(p, AllowFlat(p, m, key, now).0, now)
  {
    SoundAfter(p, Get(m, key), now);
  }

  /** Between two moments a key gains at most the time that passed, less what it spent. */
  lemma AvailableAfter(p: Params, m: Buckets, before: int, key: string, k: string, now: int)
    requires SoundMap(p, m, before) && 0 < before <= now
    ensures var (m', ok) := AllowFlat(p, m, k, now);
            Available(p, m', key, now) + (if k == key && ok then p.nsPerToken else 0)
            <= Available(p, m, key, before) + (now - before)
    ensures Available(p, m, key, now) <= Available(p, m, key, before) + (now - before)
  {
  }

  lemma {:induction false} SpendingBound(p: Params, m: Buckets, key: string, events: seq<Event>, from: int, to: int)
    requires SoundMap(p, m, from) && Timely(events, from, to)
    ensures p.nsPerToken * Permits(key, events, AnswersFlat(p, m, events)) <= Available(p, m, key, from) + (to - from)
    decreases events
  {
    hide Accrued, AllowFlat, Sound;
    if events == [] {
      AvailableNonnegative(p, m, key, from);
    } else {
      match events[0]
      case Pass(at) =>
        AvailableAfter(p, m, from, key, "", at);
        LaterIsSound(p, m, from, at);
        SpendingBound(p, m, key, events[1..], at, to);
      case Request(k, at) =>
        var m' := AllowFlat(p, m, k, at).0;
        AvailableAfter(p, m, from, key, k, at);
        RequestKeepsSound(p, m, from, k, at);
        SpendingBound(p, m', key, events[1..], at, to);
        OneMore(p.nsPerToken, Permits(key, events[1..], AnswersFlat(p, m', events[1..])));
    }
  }

  lemma OneMore(ns: nat, k: nat)
    ensures ns * (k + 1) == ns + ns * k
  {
  }

  lemma AvailableNonnegative(p: Params, m: Buckets, key: string, now: int)
    requires SoundMap(p, m, now)
    ensures 0 <= Available(p, m, key, now) <= p.MaxCredit()
  {
    assert p.MaxCredit() >= 0;
  }

  lemma LaterIsSound(p: Params, m: Buckets, before: int, now: int)
    requires SoundMap(p, m, before) && before <= now
    ensures SoundMap(p, m, now)
  {
  }

  function AfterFlat(p: Params, m: Buckets, events: seq<Event>): Buckets
    decreases events
  {
    if events == [] then m else
    match events[0]
    case Pass(_) => AfterFlat(p, m, events[1..])
    case Request(key, at) => AfterFlat(p, AllowFlat(p, m, key, at).0, events[1..])
  }

  lemma {:induction false} RunSplits(p: Params, m: Buckets, prefix: seq<Event>, window: seq<Event>, start: int,
                                     from: int)
    requires SoundMap(p, m, start) && Timely(prefix, start, from)
    ensures SoundMap(p, AfterFlat(p, m, prefix), from)
    ensures AnswersFlat(p, m, prefix + window)
            == AnswersFlat(p, m, prefix) + AnswersFlat(p, AfterFlat(p, m, prefix), window)
    decreases prefix
  {
    hide AllowFlat, Sound;
    if prefix == [] {
      assert prefix + window == window;
      LaterIsSound(p, m, start, from);
    } else {
      assert (prefix + window)[1..] == prefix[1..] + window;
      match prefix[0]
      case Pass(at) =>
        LaterIsSound(p, m, start, at);
        RunSplits(p, m, prefix[1..], window, at, from);
      case Request(key, at) =>
        RequestKeepsSound(p, m, start, key, at);
        RunSplits(p, AllowFlat(p, m, key, at).0, prefix[1..], window, at, from);
    }
  }

  lemma {:induction false} TimelyConcat(prefix: seq<Event>, window: seq<Event>, start: int, from: int, to: int)
    requires Timely(prefix, start, from) && Timely(window, from, to)
    ensures Timely(prefix + window, start, to)
    decreases prefix
  {
    if prefix == [] {
      assert prefix + window == window;
    } else {
      assert (prefix + window)[1..] == prefix[1..] + window;
      TimelyConcat(prefix[1..], window, prefix[0].at, from, to);
    }
  }

  /** The reference bounds every window of every run. */
  lemma FlatBound(p: Params, prefix: seq<Event>, window: seq<Event>, key: string, start: int, from: int, to: int)
    requires Timely(prefix, start, from) && Timely(window, from, to)
    ensures p.nsPerToken * Permits(key, window, AnswersFlat(p, map[], prefix + window)[|prefix|..])
            <= p.MaxCredit() + (to - from)
  {
    hide Available, Timely, AnswersFlat;
    var m := AfterFlat(p, map[], prefix);
    RunSplits(p, map[], prefix, window, start, from);
    SpendingBound(p, m, key, window, from, to);
    AvailableNonnegative(p, m, key, from);
    assert AnswersFlat(p, map[], prefix + window)[|prefix|..] == AnswersFlat(p, m, window);
  }

  lemma EmptyAgree(p: Params, f: ShardFor, n: nat, now: int)
    requires Routes(f, Empty(n))
    ensures Agree(p, f, Empty(n), map[], now)
  {
  }

  /** In any window of length T at most burst + T / nsPerToken requests of a key are permitted. */
  lemma RateBound(p: Params, f: ShardFor, n: nat, prefix: seq<Event>, window: seq<Event>, key: string,
                  start: int, from: int, to: int)
    requires Routes(f, Empty(n)) && p.idleNs + 1 >= p.MaxCredit() && p.nsPerToken > 0
    requires Timely(prefix, start, from) && Timely(window, from, to)
    ensures from <= to
    ensures Permits(key, window, Answers(p, f, Empty(n), prefix + window)[|prefix|..])
            <= p.burst + (to - from) / p.nsPerToken
  {
    TimelyOrder(window, from, to);
    TimelyConcat(prefix, window, start, from, to);
    TimelyPositive(prefix, start, from);
    EmptyAgree(p, f, n, start);
    hide Timely, Answers, AnswersFlat, Agree;
    SameAnswers(p, f, Empty(n), map[], start, prefix + window, to);
    FlatBound(p, prefix, window, key, start, from, to);
    WholeTokens(p.nsPerToken, p.burst, to - from,
                Permits(key, window, Answers(p, f, Empty(n), prefix + window)[|prefix|..]));
  }

  lemma {:induction false} TimelyOrder(events: seq<Event>, from: int, to: int)
    requires Timely(events, from, to)
    ensures from <= to
    decreases events
  {
    if events != [] {
      TimelyOrder(events[1..], events[0].at, to);
    }
  }

  lemma TimelyPositive(events: seq<Event>, from: int, to: int)
    requires Timely(events, from, to)
    ensures 0 < from
  {
  }

  lemma WholeTokens(ns: nat, burst: nat, t: nat, k: nat)
    requires ns > 0 && ns * k <= burst * ns + t
    ensures k <= burst + t / ns
  {
    var q, r := t / ns, t % ns;
    assert t == ns * q + r;
    assert ns * (k - burst - q) <= r by {
      assert ns * (k - burst - q) == ns * k - ns * burst - ns * q;
    }
    MultipleGrows(ns, k - burst - q);
  }

  // ---------------------------------------------------------------- a spaced caller

  /** Requests for key are at least nsPerToken apart; last is the previous one. */
  predicate Spaced(p: Params, key: string, events: seq<Event>, last: Option<int>)
    decreases events
  {
    if events == [] then true
    else if events[0].Request? && events[0].key == key then
      (last.None? || events[0].at - last.value >= p.nsPerToken) && Spaced(p, key, events[1..], Some(events[0].at))
    else Spaced(p, key, events[1..], last)
  }

  predicate AllPermitted(key: string, events: seq<Event>, answers: seq<bool>)
    requires |events| == |answers|
  {
    forall i :: 0 <= i < |events| && events[i].Request? && events[i].key == key ==> answers[i]
  }

  /** What the limiter may know of a key whose last request was at a given time. */
  ghost predicate KnownSince(p: Params, b: Option<Bucket>, last: Option<int>, now: int) {
    b.Some? ==> Sound(p, b.value, now) && last == Some(b.value.lastSeen)
  }

  lemma SpacedStep(p: Params, b: Option<Bucket>, last: Option<int>, before: int, now: int)
    requires p.burst >= 1 && 0 < before <= now && KnownSince(p, b, last, before)
    requires last.None? || now - last.value >= p.nsPerToken
    ensures AllowBucket(p, b, now).1
    ensures KnownSince(p, Some(AllowBucket(p, b, now).0), Some(now), now)
  {
    assert p.MaxCredit() >= p.nsPerToken by {
      assert p.burst * p.nsPerToken == p.nsPerToken + (p.burst - 1) * p.nsPerToken;
    }
    SoundAfter(p, b, now);
  }

  /** A caller that waits nsPerToken between requests is never denied, whatever other callers
      and the janitor do. */
  lemma {:induction false} SpacedCallerNeverDenied(p: Params, f: ShardFor, shards: Shards, key: string,
                                                   events: seq<Event>, last: Option<int>, now: int, to: int)
    requires p.burst >= 1 && key != "" && Routes(f, shards) && Timely(events, now, to)
    requires Spaced(p, key, events, last) && KnownSince(p, Get(shards[f(key)], key), last, now)
    ensures AllPermitted(key, events, Answers(p, f, shards, events))
    decreases events
  {
    if events != [] {
      var at := events[0].at;
      var (shards', ok) := AfterEvent(p, f, shards, events[0]);
      var known := Get(shards[f(key)], key);
      if events[0].Request? && events[0].key == key {
        SpacedStep(p, known, last, now, at);
        SpacedCallerNeverDenied(p, f, shards', key, events[1..], Some(at), at, to);
      } else {
        assert Get(shards'[f(key)], key) == known || Get(shards'[f(key)], key) == None;
        SpacedCallerNeverDenied(p, f, shards', key, events[1..], last, at, to);
      }
    }
  }

  // ---------------------------------------------------------------- the idle timeout must cover a refill

  const CALLER := "k"

  function Burst(k: nat, at: int): (r: seq<Event>)
    ensures |r| == k && forall i :: 0 <= i < k ==> r[i] == Request(CALLER, at)
  {
    seq(k, i => Request(CALLER, at))
  }

  lemma OnePermitted(p: Params, f: ShardFor, shards: Shards, at: int)
    requires Routes(f, shards) && at > 0
    requires Accrued(p, Get(shards[f(CALLER)], CALLER), at).creditNs >= p.nsPerToken
    ensures var (next, ok) := AllowSharded(p, f, shards, CALLER, at);
            && ok
            && Get(next[f(CALLER)], CALLER).Some? && next[f(CALLER)][CALLER].lastSeen == at
            && Accrued(p, Get(next[f(CALLER)], CALLER), at).creditNs
               == Accrued(p, Get(shards[f(CALLER)], CALLER), at).creditNs - p.nsPerToken
  {
  }

  /** A bucket with credit for k requests permits k at once. */
  lemma {:induction false} BurstPermitted(p: Params, f: ShardFor, shards: Shards, at: int, k: nat, rest: seq<Event>)
    returns (shards': Shards)
    requires Routes(f, shards) && at > 0
    requires Accrued(p, Get(shards[f(CALLER)], CALLER), at).creditNs >= k * p.nsPerToken
    ensures Routes(f, shards')
    ensures Answers(p, f, shards, Burst(k, at) + rest) == seq(k, i => true) + Answers(p, f, shards', rest)
    ensures k == 0 ==> shards' == shards
    ensures k > 0 ==> Get(shards'[f(CALLER)], CALLER).Some? && shards'[f(CALLER)][CALLER].lastSeen == at
    decreases k
  {
    if k == 0 {
      shards' := shards;
      assert Burst(k, at) + rest == rest;
    } else {
      MoreThanOne(p.nsPerToken, k);
      OnePermitted(p, f, shards, at);
      hide Accrued, AllowSharded, Get;
      assert (Burst(k, at) + rest)[1..] == Burst(k - 1, at) + rest;
      var next := AllowSharded(p, f, shards, CALLER, at).0;
      shards' := BurstPermitted(p, f, next, at, k - 1, rest);
      assert [true] + seq(k - 1, i => true) == seq(k, i => true);
    }
  }

  /** A key never seen gets its whole burst at once. */
  lemma FreshBurst(p: Params, f: ShardFor, n: nat, at: int)
    requires Routes(f, Empty(n)) && at > 0
    ensures Answers(p, f, Empty(n), Burst(p.burst, at)) == seq(p.burst, i => true)
  {
    hide Answers;
    var none: seq<Event> := [];
    var after := BurstPermitted(p, f, Empty(n), at, p.burst, none);
    assert Burst(p.burst, at) + none == Burst(p.burst, at);
    assert Answers(p, f, after, none) == [];
    assert seq(p.burst, i => true) + [] == seq(p.burst, i => true);
  }

  lemma MoreThanOne(ns: nat, k: nat)
    requires k > 0
    ensures k * ns == ns + (k - 1) * ns && k * ns >= ns
  {
  }

  /** Two full bursts with a janitor pass between them. */
  function TwoBursts(p: Params): seq<Event> {
    Burst(p.burst, 1) + [Pass(p.idleNs + 2)] + Burst(p.burst, p.idleNs + 2)
  }

  lemma {:induction false} BurstTimely(k: nat, at: int, rest: seq<Event>, to: int)
    requires Timely(rest, at, to)
    ensures Timely(Burst(k, at) + rest, at, to)
  {
    if k == 0 {
      assert Burst(0, at) + rest == rest;
    } else {
      BurstTimely(k - 1, at, rest, to);
      assert (Burst(k, at) + rest)[1..] == Burst(k - 1, at) + rest;
      TimelyPositive(rest, at, to);
    }
  }

  lemma TwoBurstsTimely(p: Params)
    ensures Timely(TwoBursts(p), 1, p.idleNs + 2)
  {
    var at := p.idleNs + 2;
    var pass, second := [Pass(at)], Burst(p.burst, at);
    BurstTimely(p.burst, at, [], at);
    assert second + [] == second;
    assert (pass + second)[1..] == second;
    assert Timely(pass + second, 1, at);
    BurstTimely(p.burst, 1, pass + second, at);
    assert TwoBursts(p) == Burst(p.burst, 1) + (pass + second);
  }

  lemma {:induction false} AllPermits(key: string, events: seq<Event>, answers: seq<bool>)
    requires |events| == |answers|
    requires forall i :: 0 <= i < |events| ==> events[i].Request? && events[i].key == key && answers[i]
    ensures Permits(key, events, answers) == |events|
  {
    if events != [] {
      AllPermits(key, events[1..], answers[1..]);
    }
  }

  lemma {:induction false} PermitsConcat(key: string, a: seq<Event>, x: seq<bool>, b: seq<Event>, y: seq<bool>)
    requires |a| == |x| && |b| == |y|
    ensures Permits(key, a + b, x + y) == Permits(key, a, x) + Permits(key, b, y)
  {
    if a == [] {
      assert a + b == b && x + y == y;
    } else {
      assert (a + b)[1..] == a[1..] + b && (x + y)[1..] == x[1..] + y;
      PermitsConcat(key, a[1..], x[1..], b, y);
    }
  }

  /** The janitor forgets the empty bucket after idleNs + 1 nanoseconds, and the whole burst is
      there again. */
  lemma TwoBurstsPermitted(p: Params, f: ShardFor, n: nat)
    requires Routes(f, Empty(n))
    ensures Permits(CALLER, TwoBursts(p), Answers(p, f, Empty(n), TwoBursts(p))) == 2 * p.burst
  {
    hide Timely, Permits;
    var at := p.idleNs + 2;
    var first, pass, second := Burst(p.burst, 1), [Pass(at)], Burst(p.burst, at);
    var trues := seq(p.burst, i => true);
    var s1 := BurstPermitted(p, f, Empty(n), 1, p.burst, pass + second);
    assert (pass + second)[1..] == second;
    var s2 := Swept(p, s1, at);
    assert Get(s2[f(CALLER)], CALLER) == None;
    var s3 := BurstPermitted(p, f, s2, at, p.burst, []);
    assert second + [] == second;
    assert Answers(p, f, s3, []) == [];
    assert Answers(p, f, s2, second) == trues + [] == trues;
    assert Answers(p, f, s1, pass + second) == [false] + trues;
    assert TwoBursts(p) == first + (pass + second);
    AllPermits(CALLER, first, trues);
    AllPermits(CALLER, second, trues);
    PermitsConcat(CALLER, first, trues, pass + second, [false] + trues);
    PermitsConcat(CALLER, pass, [false], second, trues);
    PassPermitsNothing(at);
  }

  lemma PassPermitsNothing(at: int)
    ensures Permits(CALLER, [Pass(at)], [false]) == 0
  {
  }

  /** The janitor changes no answer of any run. */
  ghost predicate Transparent(p: Params, f: ShardFor, n: nat)
    requires Routes(f, Empty(n))
  {
    forall events, from, to :: Timely(events, from, to) ==>
        Answers(p, f, Empty(n), events) == AnswersFlat(p, map[], events)
  }

  /** No window of any run lets a key spend more than a burst and the time that passed. */
  ghost predicate Bounded(p: Params, f: ShardFor, n: nat)
    requires Routes(f, Empty(n))
  {
    forall prefix, window, key, start, from, to :: Timely(prefix, start, from) && Timely(window, from, to) ==>
      p.nsPerToken * Permits(key, window, Answers(p, f, Empty(n), prefix + window)[|prefix|..])
      <= p.MaxCredit() + (to - from)
  }

  lemma TooSoon(p: Params, f: ShardFor, n: nat)
    requires Routes(f, Empty(n)) && Bounded(p, f, n)
    ensures p.idleNs + 1 >= p.MaxCredit()
  {
    hide Answers, Permits;
    var window, at := TwoBursts(p), p.idleNs + 2;
    TwoBurstsTimely(p);
    TwoBurstsPermitted(p, f, n);
    var none: seq<Event> := [];
    assert Timely(none, 1, 1) && none + window == window;
    var answers := Answers(p, f, Empty(n), none + window);
    assert answers[|none|..] == answers;
    assert p.nsPerToken * Permits(CALLER, window, answers[|none|..]) <= p.MaxCredit() + (at - 1);
    assert p.nsPerToken * (2 * p.burst) == 2 * p.MaxCredit();
  }

  lemma TransparentIsBounded(p: Params, f: ShardFor, n: nat)
    requires Routes(f, Empty(n)) && Transparent(p, f, n)
    ensures Bounded(p, f, n)
  {
    hide Answers, AnswersFlat, Permits, Timely;
    forall prefix, window, key, start, from, to | Timely(prefix, start, from) && Timely(window, from, to)
      ensures p.nsPerToken * Permits(key, window, Answers(p, f, Empty(n), prefix + window)[|prefix|..])
              <= p.MaxCredit() + (to - from)
    {
      TimelyConcat(prefix, window, start, from, to);
      FlatBound(p, prefix, window, key, start, from, to);
    }
  }

  /** The janitor is invisible on every run, and the rate bound holds on every window of every
      run, exactly when a bucket is not forgotten before it would be full again. */
  lemma IdleTimeoutExact(p: Params, f: ShardFor, n: nat)
    requires Routes(f, Empty(n))
    ensures Transparent(p, f, n) <==> p.idleNs + 1 >= p.MaxCredit()
    ensures Bounded(p, f, n) <==> p.idleNs + 1 >= p.MaxCredit()
  {
    hide Answers, AnswersFlat, Permits, Timely, Bounded;
    if p.idleNs + 1 >= p.MaxCredit() {
      forall events, from, to | Timely(events, from, to)
        ensures Answers(p, f, Empty(n), events) == AnswersFlat(p, map[], events)
      {
        EmptyAgree(p, f, n, from);
        SameAnswers(p, f, Empty(n), map[], from, events, to);
      }
    }
    if Transparent(p, f, n) {
      TransparentIsBounded(p, f, n);
    }
    if Bounded(p, f, n) {
      TooSoon(p, f, n);
    }
  }

  // ---------------------------------------------------------------- the class

  class Limiter {
    const p: Params
    const hash: string -> nat
    var shards: Shards

    ghost predicate Valid()
      reads this
    {
      IsPowerOfTwo(p.shardCount) && |shards| == p.shardCount
    }

    constructor (cfg: Config, hash: string -> nat)
      ensures Valid() && p == Derived(cfg) && this.hash == hash && shards == Empty(p.shardCount)
    {
      var derived := Derived(cfg);
      p := derived;
      this.hash := hash;
      shards := Empty(derived.shardCount);
    }

    /** The mask of shardFor. */
    function Shard(key: string): (i: nat)
      requires IsPowerOfTwo(p.shardCount)
      ensures i == And(hash(key), p.shardCount - 1) && i < p.shardCount
    {
      MaskIsRemainder(hash(key), p.shardCount);
      And(hash(key), p.shardCount - 1)
    }

    ghost function Routing(): (f: ShardFor)
      requires IsPowerOfTwo(p.shardCount)
      ensures forall key :: f(key) == Shard(key)
    {
      key => And(hash(key), p.shardCount - 1)
    }

    method Allow(key: string, now: int) returns (ok: bool)
      requires Valid()
      modifies this`shards
      ensures Valid()
      ensures Routes(Routing(), old(shards))
      ensures (shards, ok) == AllowSharded(p, Routing(), old(shards), key, now)
    {
      if key == "" {
        return false;
      }
      var i := Shard(key);
      var bucket := if key in shards[i] then shards[i][key] else Bucket(0, 0);
      if bucket.lastSeen == 0 {
        bucket := Bucket(p.MaxCredit(), now);
      } else {
        var elapsed := now - bucket.lastSeen;
        if elapsed > 0 {
          bucket := bucket.(creditNs := bucket.creditNs + elapsed);
          if bucket.creditNs > p.MaxCredit() {
            bucket := bucket.(creditNs := p.MaxCredit());
          }
        }
        bucket := bucket.(lastSeen := now);
      }
      if bucket.creditNs < p.nsPerToken {
        shards := shards[i := shards[i][key := bucket]];
        return false;
      }
      bucket := bucket.(creditNs := bucket.creditNs - p.nsPerToken);
      shards := shards[i := shards[i][key := bucket]];
      return true;
    }

    method Evict(key: string)
      requires Valid()
      modifies this`shards
      ensures Valid()
      ensures shards == if key == "" then old(shards)
                        else old(shards)[Shard(key) := old(shards)[Shard(key)] - {key}]
    {
      if key == "" {
        return;
      }
      var i := Shard(key);
      shards := shards[i := shards[i] - {key}];
    }

    method Clear()
      requires Valid()
      modifies this`shards
      ensures Valid() && shards == Empty(p.shardCount)
    {
      for i := 0 to |shards|
        invariant Valid()
        invariant forall j :: 0 <= j < i ==> shards[j] == map[]
      {
        shards := shards[i := map[]];
      }
      assert shards == Empty(p.shardCount);
    }

    /** One pass of runJanitor over every shard. */
    method JanitorPass(now: int)
      requires Valid()
      modifies this`shards
      ensures Valid() && shards == Swept(p, old(shards), now)
    {
      var cutoffNs := now - p.idleNs;
      for i := 0 to |shards|
        invariant Valid()
        invariant forall j :: 0 <= j < i ==> shards[j] == Kept(p, old(shards)[j], now)
        invariant forall j :: i <= j < |shards| ==> shards[j] == old(shards)[j]
      {
        var kept := SweepShard(shards[i], cutoffNs);
        assert kept == Kept(p, shards[i], now);
        shards := shards[i := kept];
      }
      assert shards == Swept(p, old(shards), now);
    }

    static method SweepShard(shard: Buckets, cutoffNs: int) returns (kept: Buckets)
      ensures kept == map key | key in shard && shard[key].lastSeen >= cutoffNs :: shard[key]
    {
      kept := shard;
      var todo := shard.Keys;
      while todo != {}
        invariant todo <= shard.Keys
        invariant forall key :: key in kept <==> key in shard && (key in todo || shard[key].lastSeen >= cutoffNs)
        invariant forall key :: key in kept ==> kept[key] == shard[key]
        decreases todo
      {
        var key :| key in todo;
        if shard[key].lastSeen < cutoffNs {
          kept := kept - {key};
        }
        todo := todo - {key};
      }
    }
  }
}
