/** The order in which trimToCapacity evicts: by effective fee, then by hash as std::string
    compares it (src/mempool/mempool.cpp:422-447). The same order, read backwards, serves
    getSortedByFee. */
module FeeRanking {
  import opened ByteStrings
  import opened ChainTypes
  import opened MempoolState
  import opened MempoolRuns

  type Ranked = (U64, Bytes)

  predicate LexLess(a: Bytes, b: Bytes) {
    b != [] && (a == [] || a[0] < b[0] || (a[0] == b[0] && LexLess(a[1..], b[1..])))
  }

  lemma {:induction false} LexTotal(a: Bytes, b: Bytes)
    requires a != b
    ensures LexLess(a, b) || LexLess(b, a)
  {
    if a != [] && b != [] && a[0] == b[0] {
      assert a == [a[0]] + a[1..] && b == [b[0]] + b[1..];
      LexTotal(a[1..], b[1..]);
    }
  }

  lemma {:induction false} LexTransitive(a: Bytes, b: Bytes, c: Bytes)
    requires LexLess(a, b) && LexLess(b, c)
    ensures LexLess(a, c)
  {
    if a != [] && a[0] == b[0] == c[0] {
      LexTransitive(a[1..], b[1..], c[1..]);
    }
  }

  predicate Before(x: Ranked, y: Ranked) {
    x.0 < y.0 || (x.0 == y.0 && LexLess(x.1, y.1))
  }

  lemma BeforeTransitive(x: Ranked, y: Ranked, z: Ranked)
    requires Before(x, y) && Before(y, z)
    ensures Before(x, z)
  {
    if x.0 == z.0 {
      LexTransitive(x.1, y.1, z.1);
    }
  }

  ghost predicate Sorted(r: seq<Ranked>) {
    forall i, j :: 0 <= i < j < |r| ==> Before(r[i], r[j])
  }

  /** Insert a pair at its place. */
  function InsertPair(r: seq<Ranked>, x: Ranked): seq<Ranked> {
    if r == [] || Before(x, r[0]) then [x] + r else [r[0]] + InsertPair(r[1..], x)
  }

  lemma {:induction false} InsertPairElements(r: seq<Ranked>, x: Ranked)
    ensures |InsertPair(r, x)| == |r| + 1
    ensures forall y :: y in InsertPair(r, x) <==> y in r || y == x
  {
    hide Before;
    if !(r == [] || Before(x, r[0])) {
      InsertPairElements(r[1..], x);
      assert r == [r[0]] + r[1..];
    }
  }

  lemma {:induction false} InsertPairSorted(r: seq<Ranked>, x: Ranked)
    requires Sorted(r) && forall y :: y in r ==> y.1 != x.1
    ensures Sorted(InsertPair(r, x))
  {
    hide Before;
    if r != [] {
      var rest := r[1..];
      assert forall i :: 0 <= i < |rest| ==> rest[i] == r[i + 1];
      if Before(x, r[0]) {
        forall i | 0 < i < |r|
          ensures Before(x, r[i])
        {
          BeforeTransitive(x, r[0], r[i]);
        }
      } else {
        assert Before(r[0], x) by {
          assert r[0] in r;
          OneComesFirst(x, r[0]);
        }
        InsertPairSorted(rest, x);
        InsertPairElements(rest, x);
        var t := InsertPair(rest, x);
        forall i | 0 <= i < |t|
          ensures Before(r[0], t[i])
        {
          assert t[i] in t;
        }
      }
    }
  }

  lemma OneComesFirst(x: Ranked, y: Ranked)
    requires x.1 != y.1
    ensures Before(x, y) || Before(y, x)
  {
    LexTotal(x.1, y.1);
  }

  /** Every entry once, in the order of eviction. */
  ghost predicate IsRanking(r: seq<Ranked>, entries: map<Bytes, Entry>, baseFee: U64) {
    && Sorted(r)
    && |r| == |entries|
    && (forall i :: 0 <= i < |r| ==> r[i].1 in entries && r[i].0 == EffectiveFee(entries[r[i].1].tx, baseFee))
    && (forall h :: h in entries ==> (EffectiveFee(entries[h].tx, baseFee), h) in r)
  }

  function HashesOf(r: seq<Ranked>): seq<Bytes> {
    seq(|r|, i requires 0 <= i < |r| => r[i].1)
  }

  predicate Fits(cfg: Limits, p: Pool) {
    |p.entries| <= cfg.maxTxCount && p.totalBytes <= cfg.maxTotalBytes
  }

  /** The pool lost the first k entries of the ranking, and no fewer would have done. */
  ghost predicate Trimmed(cfg: Limits, before: Pool, after: Pool, baseFee: U64, r: seq<Ranked>, k: nat) {
    && IsRanking(r, before.entries, baseFee) && k <= |r|
    && after == RemoveEach(before, HashesOf(r[..k]))
    && forall j :: 0 <= j < k ==> !Fits(cfg, RemoveEach(before, HashesOf(r[..j])))
  }

  /** Once every ranked entry is gone the pool is empty and fits. */
  lemma AllGoneFits(cfg: Limits, p: Pool, r: seq<Ranked>, baseFee: U64)
    requires Agrees(p) && IsRanking(r, p.entries, baseFee)
    ensures Fits(cfg, RemoveEach(p, HashesOf(r)))
  {
    hide Sorted, Agrees, SpentBy;
    RemovalIsRebuild(p, HashesOf(r));
    var hashes := HashesOf(r);
    forall h | h in p.entries
      ensures h in KeySet(hashes)
    {
      var i :| 0 <= i < |r| && r[i] == (EffectiveFee(p.entries[h].tx, baseFee), h);
      assert hashes[i] == h;
    }
    assert p.entries - KeySet(hashes) == map[];
    assert Sizes(map[]) == map[];
  }

  /** The string order: at the first difference the smaller byte wins, and a proper prefix comes
      first. */
  lemma {:induction false} LexFirstDifference(a: Bytes, b: Bytes)
    ensures LexLess(a, b) <==>
            exists k :: 0 <= k <= |a| && k < |b| && a[..k] == b[..k] && (k == |a| || a[k] < b[k])
  {
    if a != [] && b != [] && a[0] == b[0] {
      var x, y := a[1..], b[1..];
      LexFirstDifference(x, y);
      if LexLess(x, y) {
        var k :| 0 <= k <= |x| && k < |y| && x[..k] == y[..k] && (k == |x| || x[k] < y[k]);
        assert a[..k + 1] == [a[0]] + x[..k] && b[..k + 1] == [b[0]] + y[..k];
      }
      if k :| 0 <= k <= |a| && k < |b| && a[..k] == b[..k] && (k == |a| || a[k] < b[k]) {
        assert k > 0 && x[..k - 1] == a[..k][1..] && y[..k - 1] == b[..k][1..];
      }
    } else if b != [] && (a == [] || a[0] < b[0]) {
      assert a[..0] == b[..0];
    } else {
      assert forall k :: 0 < k <= |a| && k < |b| ==> a[..k][0] == a[0] && b[..k][0] == b[0];
    }
  }
}
