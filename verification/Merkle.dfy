/** The Merkle tree and its proofs (src/merkle.cpp). The 64-byte double
    hash is a parameter h. */
module Merkle {
  import opened Arithmetic
  import opened Wrappers
  import opened ChainTypes

  type UInt256 = Bytes32
  type Combine = (UInt256, UInt256) -> UInt256

  const PARALLEL_THRESHOLD: nat := 1024

  // ---------------------------------------------------------------- the tree

  type Pair = (UInt256, UInt256)

  /** The two nodes hashed together at position q; the last of an odd level stands twice. */
  function PairAt(layer: seq<UInt256>, q: nat): Pair
    requires 2 * q < |layer|
  {
    (layer[2 * q], if 2 * q + 1 < |layer| then layer[2 * q + 1] else layer[2 * q])
  }

  function PairHash(h: Combine, layer: seq<UInt256>, q: nat): UInt256
    requires 2 * q < |layer|
  {
    var pair := PairAt(layer, q);
    h(pair.0, pair.1)
  }

  function NextLevel(h: Combine, layer: seq<UInt256>): (r: seq<UInt256>)
    ensures |r| == (|layer| + 1) / 2
  {
    seq((|layer| + 1) / 2, q requires 0 <= 2 * q < |layer| => PairHash(h, layer, q))
  }

  function Root(h: Combine, layer: seq<UInt256>): UInt256
    requires layer != []
    decreases |layer|
  {
    if |layer| == 1 then layer[0] else Root(h, NextLevel(h, layer))
  }

  function Sibling(layer: seq<UInt256>, index: nat): UInt256
    requires index < |layer|
  {
    var pairIndex := if index % 2 == 0 then index + 1 else index - 1;
    if pairIndex < |layer| then layer[pairIndex] else layer[index]
  }

  function Proof(h: Combine, layer: seq<UInt256>, index: nat): seq<UInt256>
    requires index < |layer|
    decreases |layer|
  {
    if |layer| == 1 then [] else [Sibling(layer, index)] + Proof(h, NextLevel(h, layer), index / 2)
  }

  /** A node and its sibling on the sides the index bit says. */
  function Ordered(node: UInt256, sibling: UInt256, index: nat): Pair {
    if index % 2 == 0 then (node, sibling) else (sibling, node)
  }

  /** What a verifier computes: the index bits say on which side each sibling stands. */
  function FoldProof(h: Combine, leaf: UInt256, proof: seq<UInt256>, index: nat): UInt256
    decreases |proof|
  {
    if proof == [] then leaf
    else
      var pair := Ordered(leaf, proof[0], index);
      FoldProof(h, h(pair.0, pair.1), proof[1..], index / 2)
  }

  predicate VerifyProof(h: Combine, leaf: UInt256, proof: seq<UInt256>, root: UInt256, index: nat) {
    FoldProof(h, leaf, proof, index) == root
  }

  /** The number of levels above the leaves. */
  function Height(n: nat): nat {
    if n <= 1 then 0 else 1 + Height((n + 1) / 2)
  }

  function LevelPairs(layer: seq<UInt256>): set<Pair> {
    set q | 0 <= q < (|layer| + 1) / 2 :: PairAt(layer, q)
  }

  /** All pairs hashed on the way to the root. */
  function TreePairs(h: Combine, layer: seq<UInt256>): set<Pair>
    decreases |layer|
  {
    if |layer| <= 1 then {} else LevelPairs(layer) + TreePairs(h, NextLevel(h, layer))
  }

  /** All pairs a verifier hashes. */
  function FoldPairs(h: Combine, leaf: UInt256, proof: seq<UInt256>, index: nat): set<Pair>
    decreases |proof|
  {
    if proof == [] then {}
    else
      var pair := Ordered(leaf, proof[0], index);
      {pair} + FoldPairs(h, h(pair.0, pair.1), proof[1..], index / 2)
  }

  /** The hash tells the given pairs apart. No hash can tell all pairs apart, so the lemmas ask
      this of the pairs that were hashed. */
  ghost predicate NoCollision(h: Combine, pairs: set<Pair>) {
    forall a, b :: a in pairs && b in pairs && h(a.0, a.1) == h(b.0, b.1) ==> a == b
  }

  // ---------------------------------------------------------------- proofs

  /** Every proof getProof gives is accepted against the root computeIterative gives. */
  lemma {:induction false} ProofComplete(h: Combine, leaves: seq<UInt256>, index: nat)
    requires index < |leaves|
    ensures VerifyProof(h, leaves[index], Proof(h, leaves, index), Root(h, leaves), index)
    ensures |Proof(h, leaves, index)| == Height(|leaves|)
    decreases |leaves|
  {
    if |leaves| > 1 {
      PairAtIndex(h, leaves, index);
      hide NextLevel, Sibling, PairAt;
      ProofComplete(h, NextLevel(h, leaves), index / 2);
    }
  }

  /** A node and its sibling, on the sides the index bit says, hash to the parent. */
  lemma PairAtIndex(h: Combine, layer: seq<UInt256>, index: nat)
    requires index < |layer|
    ensures PairAt(layer, index / 2) == Ordered(layer[index], Sibling(layer, index), index)
    ensures NextLevel(h, layer)[index / 2] == PairHash(h, layer, index / 2)
  {
  }

  /** Two proofs of one length accepted for the same root and index are one proof of one leaf,
      or two of the pairs hashed collide. */
  lemma {:induction false} ProofUnique(h: Combine, x: UInt256, p: seq<UInt256>, y: UInt256, q: seq<UInt256>, index: nat,
                                      pairs: set<Pair>)
    requires NoCollision(h, pairs) && FoldPairs(h, x, p, index) <= pairs && FoldPairs(h, y, q, index) <= pairs
    requires |p| == |q| && FoldProof(h, x, p, index) == FoldProof(h, y, q, index)
    ensures x == y && p == q
    decreases |p|
  {
    if p != [] {
      var a, b := Ordered(x, p[0], index), Ordered(y, q[0], index);
      ProofUnique(h, h(a.0, a.1), p[1..], h(b.0, b.1), q[1..], index / 2, pairs);
      assert p == [p[0]] + p[1..] && q == [q[0]] + q[1..];
      assert a in FoldPairs(h, x, p, index) && b in FoldPairs(h, y, q, index);
    }
  }

  /** The pairs a verifier hashes for a genuine proof are pairs of the tree. */
  lemma {:induction false} GenuinePairs(h: Combine, leaves: seq<UInt256>, index: nat)
    requires index < |leaves|
    ensures FoldPairs(h, leaves[index], Proof(h, leaves, index), index) <= TreePairs(h, leaves)
    decreases |leaves|
  {
    if |leaves| > 1 {
      PairAtIndex(h, leaves, index);
      assert index / 2 < (|leaves| + 1) / 2;
      hide NextLevel, Sibling, PairAt;
      GenuinePairs(h, NextLevel(h, leaves), index / 2);
    }
  }

  /** A proof of full length is accepted for a position exactly when it is the genuine proof of
      the genuine leaf, unless two of the pairs hashed by tree and verifier collide. */
  lemma AcceptedIsGenuine(h: Combine, leaves: seq<UInt256>, leaf: UInt256, proof: seq<UInt256>, index: nat)
    requires index < |leaves| && |proof| == Height(|leaves|)
    requires NoCollision(h, TreePairs(h, leaves) + FoldPairs(h, leaf, proof, index))
    ensures VerifyProof(h, leaf, proof, Root(h, leaves), index)
            <==> leaf == leaves[index] && proof == Proof(h, leaves, index)
  {
    ProofComplete(h, leaves, index);
    if VerifyProof(h, leaf, proof, Root(h, leaves), index) {
      GenuinePairs(h, leaves, index);
      ProofUnique(h, leaf, proof, leaves[index], Proof(h, leaves, index), index,
                  TreePairs(h, leaves) + FoldPairs(h, leaf, proof, index));
    }
  }

  // ---------------------------------------------------------------- which lists share a root

  /** Among lists of one length the root determines the leaves. */
  lemma {:induction false} RootInjective(h: Combine, xs: seq<UInt256>, ys: seq<UInt256>, pairs: set<Pair>)
    requires NoCollision(h, pairs) && TreePairs(h, xs) <= pairs && TreePairs(h, ys) <= pairs
    requires |xs| == |ys| > 0 && Root(h, xs) == Root(h, ys)
    ensures xs == ys
    decreases |xs|
  {
    hide NextLevel, NoCollision, PairAt;
    if |xs| > 1 {
      RootInjective(h, NextLevel(h, xs), NextLevel(h, ys), pairs);
      assert forall q :: 0 <= q < (|xs| + 1) / 2 ==> PairAt(xs, q) in TreePairs(h, xs);
      assert forall q :: 0 <= q < (|xs| + 1) / 2 ==> PairAt(ys, q) in TreePairs(h, ys);
      LevelInjective(h, xs, ys, pairs);
    }
  }

  lemma LevelInjective(h: Combine, xs: seq<UInt256>, ys: seq<UInt256>, pairs: set<Pair>)
    requires NoCollision(h, pairs) && |xs| == |ys| && NextLevel(h, xs) == NextLevel(h, ys)
    requires forall q :: 0 <= q < (|xs| + 1) / 2 ==> PairAt(xs, q) in pairs && PairAt(ys, q) in pairs
    ensures xs == ys
  {
    forall i | 0 <= i < |xs|
      ensures xs[i] == ys[i]
    {
      var q := i / 2;
      assert PairHash(h, xs, q) == NextLevel(h, xs)[q] == NextLevel(h, ys)[q] == PairHash(h, ys, q);
      assert PairAt(xs, q) == PairAt(ys, q);
    }
  }

  /** The leaf that stands at position i of the full tree of height k once odd levels have
      repeated their last node. */
  function Source(n: nat, k: nat, i: nat): (r: nat)
    requires n > 0 && k == Height(n) && i < Pow2(k)
    ensures r < n
    decreases k
  {
    if k == 0 then 0 else
    var child := 2 * Source((n + 1) / 2, k - 1, i / 2) + i % 2;
    if child < n then child else child - 1
  }

  /** The leaves of the full tree. */
  function Padded(xs: seq<UInt256>): (r: seq<UInt256>)
    requires xs != []
    ensures |r| == Pow2(Height(|xs|))
  {
    seq(Pow2(Height(|xs|)), i requires 0 <= i < Pow2(Height(|xs|)) => xs[Source(|xs|, Height(|xs|), i)])
  }

  lemma SourceOfChildren(n: nat, q: nat)
    requires n > 1 && q < Pow2(Height(n) - 1)
    ensures var parent := Source((n + 1) / 2, Height(n) - 1, q);
            && Source(n, Height(n), 2 * q) == 2 * parent
            && Source(n, Height(n), 2 * q + 1) == if 2 * parent + 1 < n then 2 * parent + 1 else 2 * parent
  {
    assert 2 * q / 2 == q && (2 * q + 1) / 2 == q && 2 * q % 2 == 0 && (2 * q + 1) % 2 == 1;
    assert Pow2(Height(n)) == 2 * Pow2(Height(n) - 1);
    hide Pow2, Height;
  }

  lemma PaddedPair(xs: seq<UInt256>, q: nat)
    requires |xs| > 1 && q < Pow2(Height(|xs|) - 1)
    ensures var parent := Source((|xs| + 1) / 2, Height(|xs|) - 1, q);
            PairAt(Padded(xs), q) == PairAt(xs, parent)
  {
    hide Source, Padded;
    SourceOfChildren(|xs|, q);
    PaddedAt(xs, 2 * q);
    PaddedAt(xs, 2 * q + 1);
  }

  lemma PaddedLevelPairs(xs: seq<UInt256>)
    requires |xs| > 1
    ensures LevelPairs(Padded(xs)) <= LevelPairs(xs)
  {
    hide Source, PairAt, Padded;
    forall q | 0 <= q < (|Padded(xs)| + 1) / 2
      ensures PairAt(Padded(xs), q) in LevelPairs(xs)
    {
      PaddedPair(xs, q);
      assert PairAt(Padded(xs), q) == PairAt(xs, Source((|xs| + 1) / 2, Height(|xs|) - 1, q));
    }
  }

  /** Padding makes the fold hash no new pair. */
  lemma {:induction false} PaddedPairs(h: Combine, xs: seq<UInt256>)
    requires xs != []
    ensures TreePairs(h, Padded(xs)) <= TreePairs(h, xs)
    decreases |xs|
  {
    hide Source, LevelPairs, NextLevel, Padded;
    if |xs| > 1 {
      PaddedLevelPairs(xs);
      PaddedNext(h, xs);
      PaddedPairs(h, NextLevel(h, xs));
    }
  }

  lemma PaddedAt(xs: seq<UInt256>, i: nat)
    requires xs != [] && i < Pow2(Height(|xs|))
    ensures Padded(xs)[i] == xs[Source(|xs|, Height(|xs|), i)]
  {
  }

  lemma PaddedNext(h: Combine, xs: seq<UInt256>)
    requires |xs| > 1
    ensures NextLevel(h, Padded(xs)) == Padded(NextLevel(h, xs))
  {
    hide Source, PairAt, Padded;
    var padded, next := Padded(xs), Padded(NextLevel(h, xs));
    forall q | 0 <= q < Pow2(Height(|xs|) - 1)
      ensures NextLevel(h, padded)[q] == next[q]
    {
      PaddedPair(xs, q);
      PaddedAt(NextLevel(h, xs), q);
      assert NextLevel(h, padded)[q] == PairHash(h, padded, q);
    }
  }

  /** Repeating the last node level by level is folding the padded list. */
  lemma {:induction false} RootOfPadded(h: Combine, xs: seq<UInt256>)
    requires xs != []
    ensures Root(h, Padded(xs)) == Root(h, xs)
    decreases |xs|
  {
    if |xs| > 1 {
      hide Source, PairHash, NextLevel, Padded;
      PaddedNext(h, xs);
      RootOfPadded(h, NextLevel(h, xs));
    } else {
      PaddedAt(xs, 0);
    }
  }

  /** Two lists of the same tree height have the same root exactly when they pad to the same
      full tree, unless two of the pairs hashed collide. */
  lemma EqualHeightCollision(h: Combine, xs: seq<UInt256>, ys: seq<UInt256>, pairs: set<Pair>)
    requires xs != [] && ys != [] && Height(|xs|) == Height(|ys|)
    requires NoCollision(h, pairs) && TreePairs(h, xs) <= pairs && TreePairs(h, ys) <= pairs
    ensures Root(h, xs) == Root(h, ys) <==> Padded(xs) == Padded(ys)
  {
    RootOfPadded(h, xs);
    RootOfPadded(h, ys);
    if Root(h, xs) == Root(h, ys) {
      PaddedPairs(h, xs);
      PaddedPairs(h, ys);
      RootInjective(h, Padded(xs), Padded(ys), pairs);
    }
  }

  /** The n-th level of the tree, counted from the leaves. */
  function Level(h: Combine, layer: seq<UInt256>, n: nat): (r: seq<UInt256>)
    decreases n
  {
    if n == 0 then layer else Level(h, NextLevel(h, layer), n - 1)
  }

  lemma {:induction false} LevelKeepsRoot(h: Combine, layer: seq<UInt256>, n: nat)
    requires layer != [] && n <= Height(|layer|)
    ensures var level := Level(h, layer, n);
            && level != [] && Height(|level|) == Height(|layer|) - n
            && Root(h, level) == Root(h, layer) && TreePairs(h, level) <= TreePairs(h, layer)
    decreases n
  {
    hide LevelPairs, NextLevel;
    if n > 0 {
      LevelKeepsRoot(h, NextLevel(h, layer), n - 1);
    }
  }

  /** Two lists share a root exactly when the shorter one and the level of its height in the
      taller one's tree pad to the same full tree, unless two of the pairs hashed collide: leaves
      and inner nodes are not told apart. */
  lemma RootCollision(h: Combine, xs: seq<UInt256>, ys: seq<UInt256>)
    requires xs != [] && ys != [] && Height(|ys|) <= Height(|xs|)
    requires NoCollision(h, TreePairs(h, xs) + TreePairs(h, ys))
    ensures var level := Level(h, xs, Height(|xs|) - Height(|ys|));
            level != [] && (Root(h, xs) == Root(h, ys) <==> Padded(level) == Padded(ys))
  {
    hide Root, Height, TreePairs, NoCollision, Level, Padded;
    var n := Height(|xs|) - Height(|ys|);
    LevelKeepsRoot(h, xs, n);
    EqualHeightCollision(h, Level(h, xs, n), ys, TreePairs(h, xs) + TreePairs(h, ys));
  }

  /** A node passes for a leaf: a one-leaf list shares the root of a two-leaf list. */
  lemma NodePassesForLeaf(h: Combine, a: UInt256, b: UInt256)
    ensures Root(h, [h(a, b)]) == Root(h, [a, b])
  {
    assert NextLevel(h, [a, b])[0] == PairHash(h, [a, b], 0);
    assert NextLevel(h, [a, b]) == [h(a, b)];
  }

  /** So repeating the last leaf of an odd list goes unnoticed, whatever the hash. */
  lemma RepeatedLastLeaf(h: Combine, xs: seq<UInt256>)
    requires |xs| > 1 && |xs| % 2 == 1
    ensures Root(h, xs + [xs[|xs| - 1]]) == Root(h, xs)
  {
    var ys := xs + [xs[|xs| - 1]];
    SameNextLevel(h, xs, ys);
    hide NextLevel;
  }

  lemma SameNextLevel(h: Combine, xs: seq<UInt256>, ys: seq<UInt256>)
    requires |xs| % 2 == 1 && ys == xs + [xs[|xs| - 1]]
    ensures NextLevel(h, ys) == NextLevel(h, xs)
  {
    forall q | 0 <= q < (|xs| + 1) / 2
      ensures PairHash(h, ys, q) == PairHash(h, xs, q)
    {
      assert 2 * q < |xs|;
    }
  }

  // ---------------------------------------------------------------- the loops

  /** getProof; None stands for the exception thrown on an index out of bounds. */
  method GetProof(h: Combine, leaves: seq<UInt256>, leafIndex: nat) returns (r: Option<seq<UInt256>>)
    ensures r == if leafIndex < |leaves| then Some(Proof(h, leaves, leafIndex)) else None
  {
    if leafIndex >= |leaves| {
      return None;
    }
    hide Proof, NextLevel;
    var proof: seq<UInt256> := [];
    var currentLevel, index: nat := leaves, leafIndex;
    while |currentLevel| > 1
      invariant index < |currentLevel|
      invariant proof + Proof(h, currentLevel, index) == Proof(h, leaves, leafIndex)
      decreases |currentLevel|
    {
      var pairIndex := if index % 2 == 0 then index + 1 else index - 1;
      ProofStep(h, proof, currentLevel, index);
      if pairIndex < |currentLevel| {
        proof := proof + [currentLevel[pairIndex]];
      } else {
        proof := proof + [currentLevel[index]];
      }
      index := index / 2;
      currentLevel := FoldLayer(h, currentLevel);
    }
    NoProofLeft(h, proof, currentLevel, index);
    return Some(proof);
  }

  lemma ProofStep(h: Combine, done: seq<UInt256>, layer: seq<UInt256>, index: nat)
    requires |layer| > 1 && index < |layer|
    ensures done + Proof(h, layer, index)
            == done + [Sibling(layer, index)] + Proof(h, NextLevel(h, layer), index / 2)
  {
    hide NextLevel, Sibling;
    var s, rest := [Sibling(layer, index)], Proof(h, NextLevel(h, layer), index / 2);
    assert done + (s + rest) == done + s + rest;
  }

  lemma NoProofLeft(h: Combine, done: seq<UInt256>, layer: seq<UInt256>, index: nat)
    requires |layer| == 1 && index == 0
    ensures done + Proof(h, layer, index) == done
  {
  }

  /** The serial path over one level. */
  method FoldLayer(h: Combine, layer: seq<UInt256>) returns (nextLayer: seq<UInt256>)
    ensures nextLayer == NextLevel(h, layer)
  {
    nextLayer := [];
    var i := 0;
    while i < |layer|
      invariant i % 2 == 0 && i <= |layer| + 1 && |nextLayer| == i / 2
      invariant forall q :: 0 <= q < i / 2 ==> nextLayer[q] == PairHash(h, layer, q)
    {
      var left := layer[i];
      var right := if i + 1 < |layer| then layer[i + 1] else left;
      assert PairHash(h, layer, i / 2) == h(left, right);
      nextLayer := nextLayer + [h(left, right)];
      i := i + 2;
    }
  }

  /** An order in which a thread pool may run the tasks of a level: each pair once. */
  ghost predicate IsSchedule(order: seq<nat>, tasks: nat) {
    && (forall q :: 0 <= q < tasks ==> q in order)
    && (forall t :: 0 <= t < |order| ==> order[t] < tasks)
    && (forall i, j :: 0 <= i < j < |order| ==> order[i] != order[j])
  }

  /** The parallel path: each task writes its own slot of the next level. */
  method FoldLayerParallel(h: Combine, layer: seq<UInt256>, order: seq<nat>) returns (nextLayer: array<UInt256>)
    requires IsSchedule(order, (|layer| + 1) / 2)
    ensures nextLayer[..] == NextLevel(h, layer)
  {
    nextLayer := new UInt256[(|layer| + 1) / 2];
    for done := 0 to |order|
      invariant forall t :: 0 <= t < done ==> nextLayer[order[t]] == PairHash(h, layer, order[t])
    {
      var i := 2 * order[done];
      var left := layer[i];
      var right := if i + 1 < |layer| then layer[i + 1] else left;
      nextLayer[i / 2] := h(left, right);
    }
    forall q | 0 <= q < nextLayer.Length
      ensures nextLayer[q] == PairHash(h, layer, q)
    {
      assert q in order;
      var t :| 0 <= t < |order| && order[t] == q;
    }
  }

  /** computeIterative, with or without a pool; schedule(n) is the order in which the pool
      happens to run n tasks. */
  method ComputeIterative(h: Combine, leaves: seq<UInt256>, pool: bool, schedule: nat -> seq<nat>)
    returns (root: UInt256)
    requires leaves != []
    requires forall n :: IsSchedule(schedule(n), n)
    ensures root == Root(h, leaves)
  {
    var layer := leaves;
    while |layer| > 1
      invariant layer != [] && Root(h, layer) == Root(h, leaves)
      decreases |layer|
    {
      if pool && |layer| > PARALLEL_THRESHOLD {
        var slots := FoldLayerParallel(h, layer, schedule((|layer| + 1) / 2));
        layer := slots[..];
      } else {
        layer := FoldLayer(h, layer);
      }
    }
    return layer[0];
  }
}
