/** Proof of work (src/proof_of_work.cpp): header serialisation, the leading-zeros target, and the
    single-threaded search. Keccak-256 is a parameter that does not fail. */
module ProofOfWork {
  import opened Arithmetic
  import opened ByteStrings
  import opened ChainTypes

  type Keccak = Bytes -> Bytes32

  // ---------------------------------------------------------------- headers

  function PreNonceParts(b: Block): seq<Bytes> {
    [StringBytes(b.previousHash), StringBytes(b.data), ToBE(b.difficulty, 4), StringBytes(b.minerAddress),
     ToBE(b.timestamp, 8)]
  }

  function PostNonceParts(b: Block): seq<Bytes> {
    [ToBE(b.reward, 8), ToBE(b.baseFee, 8), ToBE(b.gasUsed, 8)]
  }

  function HeaderParts(b: Block): seq<Bytes> {
    PreNonceParts(b) + [ToBE(b.nonce, 8)] + PostNonceParts(b)
  }

  function Serialized(b: Block): Bytes {
    Joined(HeaderParts(b))
  }

  lemma {:induction false} JoinedConcat(a: seq<Bytes>, b: seq<Bytes>)
    ensures Joined(a + b) == Joined(a) + Joined(b)
  {
    if a == [] {
      assert a + b == b;
    } else {
      assert (a + b)[1..] == a[1..] + b;
      JoinedConcat(a[1..], b);
    }
  }

  /** The worker's buffer, a nonce between two prepared halves, is the header of the block with
      that nonce. */
  lemma Splice(b: Block, nonce: U64)
    ensures Joined(PreNonceParts(b)) + ToBE(nonce, 8) + Joined(PostNonceParts(b)) == Serialized(b.(nonce := nonce))
  {
    hide StringBytes, ToBE;
    var pre, mid, post := PreNonceParts(b), [ToBE(nonce, 8)], PostNonceParts(b);
    JoinedConcat(pre + mid, post);
    JoinedConcat(pre, mid);
    assert Joined(mid) == ToBE(nonce, 8) by { assert mid[1..] == []; }
    assert HeaderParts(b.(nonce := nonce)) == pre + mid + post;
  }

  method WritePreNonce(out: Buffer, b: Block)
    modifies out
    ensures out.data == old(out.data) + Joined(PreNonceParts(b))
  {
    hide Joined, StringBytes, ToBE;
    ghost var parts := PreNonceParts(b);
    assert parts[0..] == parts;
    AppendPart(out.data, parts, 0);
    WriteStr(out, b.previousHash);
    AppendPart(out.data, parts, 1);
    WriteStr(out, b.data);
    AppendPart(out.data, parts, 2);
    WriteInt(out, b.difficulty, 4);
    AppendPart(out.data, parts, 3);
    WriteStr(out, b.minerAddress);
    AppendPart(out.data, parts, 4);
    WriteInt(out, b.timestamp, 8);
    NothingToAppend(out.data, parts);
  }

  method WritePostNonce(out: Buffer, b: Block)
    modifies out
    ensures out.data == old(out.data) + Joined(PostNonceParts(b))
  {
    hide Joined, StringBytes, ToBE;
    ghost var parts := PostNonceParts(b);
    assert parts[0..] == parts;
    AppendPart(out.data, parts, 0);
    WriteInt(out, b.reward, 8);
    AppendPart(out.data, parts, 1);
    WriteInt(out, b.baseFee, 8);
    AppendPart(out.data, parts, 2);
    WriteInt(out, b.gasUsed, 8);
    NothingToAppend(out.data, parts);
  }

  method SerializeHeader(b: Block) returns (buf: Bytes)
    ensures buf == Serialized(b)
  {
    hide Joined, ToBE, Serialized;
    var out := new Buffer();
    WritePreNonce(out, b);
    WriteInt(out, b.nonce, 8);
    WritePostNonce(out, b);
    ghost var pre := Joined(PreNonceParts(b));
    assert [] + pre == pre;
    Splice(b, b.nonce);
    assert b.(nonce := b.nonce) == b;
    return out.data;
  }

  method WriteInt(out: Buffer, v: nat, width: nat)
    modifies out
    ensures out.data == old(out.data) + ToBE(v, width)
  {
    var bytes := WriteBE(v, width);
    out.Append(bytes);
  }

  method WriteStr(out: Buffer, s: Bytes)
    modifies out
    ensures out.data == old(out.data) + StringBytes(s)
  {
    WriteInt(out, |s|, 4);
    out.Append(s);
    assert old(out.data) + ToBE(|s|, 4) + s == old(out.data) + (ToBE(|s|, 4) + s);
  }

  // ---------------------------------------------------------------- hashes and the target

  const ZERO_CHAR: Byte := 48

  function HexDigit(n: nat): Byte
    requires n < 16
  {
    if n < 10 then ZERO_CHAR + n else 87 + n
  }

  /** digestToHex: two characters a byte, high half first. */
  function Hex(s: Bytes): (r: Bytes)
    ensures |r| == 2 * |s|
  {
    if s == [] then [] else [HexDigit(s[0] / 16), HexDigit(s[0] % 16)] + Hex(s[1..])
  }

  function ComputedHash(keccak: Keccak, b: Block): (r: Bytes)
    ensures |r| == 64
  {
    Hex(keccak(Serialized(b)))
  }

  predicate MeetsTarget(hash: Bytes, difficulty: nat) {
    difficulty <= |hash| && forall i :: 0 <= i < difficulty ==> hash[i] == ZERO_CHAR
  }

  method HashMeetsTarget(hash: Bytes, difficulty: nat) returns (r: bool)
    ensures r == MeetsTarget(hash, difficulty)
  {
    if |hash| < difficulty {
      return false;
    }
    for i := 0 to difficulty
      invariant forall j :: 0 <= j < i ==> hash[j] == ZERO_CHAR
    {
      if hash[i] != ZERO_CHAR {
        return false;
      }
    }
    return true;
  }

  predicate ValidHash(keccak: Keccak, b: Block) {
    b.hash != [] && b.difficulty != 0 && ComputedHash(keccak, b) == b.hash && MeetsTarget(b.hash, b.difficulty)
  }

  lemma {:induction false} FirstByteValue(s: Bytes)
    requires s != []
    ensures FromBE(s) == s[0] * Pow256(|s| - 1) + FromBE(s[1..])
  {
    var last, init := s[|s| - 1], s[..|s| - 1];
    if |s| == 1 {
      assert init == [] && s[1..] == [];
    } else {
      FirstByteValue(init);
      assert init[1..] == s[1..][..|s| - 2];
      var p := Pow256(|s| - 2);
      assert s[0] * (256 * p) == s[0] * p * 256;
    }
  }

  lemma Pow2Sixteen(n: nat)
    ensures Pow2(n + 4) == 16 * Pow2(n)
  {
    assert Pow2(n + 2) == 4 * Pow2(n);
  }

  lemma {:induction false} PowersAgree(k: nat)
    ensures Pow256(k) == Pow2(8 * k)
  {
    if k > 0 {
      PowersAgree(k - 1);
      Pow2Sixteen(8 * k - 8);
      Pow2Sixteen(8 * k - 4);
    }
  }

  /** The target in numbers: d leading zero characters is a digest below 2^(256 - 4 * d). */
  lemma {:induction false} TargetIsNumeric(s: Bytes, difficulty: nat)
    requires difficulty <= 2 * |s|
    ensures MeetsTarget(Hex(s), difficulty) <==> FromBE(s) < Pow2(8 * |s| - 4 * difficulty)
    decreases s
  {
    hide Hex, MeetsTarget, Pow2, FromBE;
    if difficulty == 0 {
      MeetsZero(Hex(s));
      PowersAgree(|s|);
      FromBEBound(s);
    } else {
      var rest, p := s[1..], Pow256(|s| - 1);
      FirstByteValue(s);
      FromBEBound(rest);
      PowersAgree(|rest|);
      HexFirst(s, difficulty);
      if difficulty == 1 {
        Pow2Sixteen(8 * |rest|);
        FirstByteBound(s[0], p, FromBE(rest), 16);
      } else {
        Pow2Monotone(8 * |s| - 4 * difficulty, 8 * |rest|);
        FirstByteBound(s[0], p, FromBE(rest), 1);
        TargetIsNumeric(rest, difficulty - 2);
      }
    }
  }

  lemma MeetsZero(hash: Bytes)
    ensures MeetsTarget(hash, 0)
  {
  }

  lemma HexFirst(s: Bytes, difficulty: nat)
    requires 0 < difficulty <= 2 * |s|
    ensures MeetsTarget(Hex(s), difficulty)
            <==> if difficulty == 1 then s[0] < 16 else s[0] == 0 && MeetsTarget(Hex(s[1..]), difficulty - 2)
  {
    var high, low := s[0] / 16, s[0] % 16;
    HexDigitZero(high);
    HexDigitZero(low);
    assert Hex(s) == [HexDigit(high), HexDigit(low)] + Hex(s[1..]);
    hide Hex, HexDigit;
    MeetsAfterTwo(HexDigit(high), HexDigit(low), Hex(s[1..]), difficulty);
  }

  lemma HexDigitZero(n: nat)
    requires n < 16
    ensures HexDigit(n) == ZERO_CHAR <==> n == 0
  {
  }

  lemma MeetsAfterTwo(x: Byte, y: Byte, rest: Bytes, difficulty: nat)
    requires difficulty > 0
    ensures MeetsTarget([x, y] + rest, difficulty)
            <==> x == ZERO_CHAR && (difficulty == 1 || (y == ZERO_CHAR && MeetsTarget(rest, difficulty - 2)))
  {
    var all := [x, y] + rest;
    assert all[0] == x && all[1] == y;
    assert forall i :: 0 <= i < |rest| ==> rest[i] == all[i + 2];
    assert forall i :: 2 <= i < |all| ==> all[i] == rest[i - 2];
  }

  lemma FirstByteBound(b: Byte, p: nat, r: nat, limit: nat)
    requires r < p
    ensures b * p + r < limit * p <==> b < limit
  {
    if b < limit {
      assert limit * p == b * p + (limit - b) * p;
      MultipleGrows(p, limit - b);
    } else {
      assert b * p == limit * p + (b - limit) * p;
    }
  }

  lemma {:induction false} Pow2Monotone(j: nat, k: nat)
    requires j <= k
    ensures Pow2(j) <= Pow2(k)
  {
    if j < k {
      Pow2Monotone(j, k - 1);
    }
  }

  // ---------------------------------------------------------------- the single-threaded search

  /** The nonce of attempt i: a 64-bit counter from the stored start. */
  function Tried(start: U64, i: nat): U64 {
    (start + i) % U64_LIMIT
  }

  predicate Attempt(keccak: Keccak, b: Block, nonce: U64) {
    MeetsTarget(ComputedHash(keccak, b.(nonce := nonce)), b.difficulty)
  }

  datatype MineResult = MineResult(found: bool, nonce: U64, hash: Bytes, hashesComputed: nat)

  /** mine: abort(i) and stop(i) are the environment's answers around attempt i. The block is
      passed and returned. The first success is the one reported; without interference the
      search ends at the first counter value, after the first attempt, not below maxNonce. */
  method Mine(keccak: Keccak, b: Block, start: U64, maxNonce: U64, abort: nat -> bool, stop: nat -> bool)
    returns (r: MineResult, after: Block)
    ensures r.found ==>
              && r.hashesComputed > 0 && r.nonce == Tried(start, r.hashesComputed - 1)
              && Attempt(keccak, b, r.nonce)
              && (forall i :: 0 <= i < r.hashesComputed - 1 ==> !Attempt(keccak, b, Tried(start, i)))
              && after == b.(nonce := r.nonce, hash := r.hash)
              && (ValidHash(keccak, after) <==> b.difficulty != 0)
    ensures !r.found ==> forall i :: 0 <= i < r.hashesComputed ==> !Attempt(keccak, b, Tried(start, i))
    ensures !r.found && (forall i :: !abort(i) && !stop(i)) ==>
              && r.hashesComputed > 0 && Tried(start, r.hashesComputed) >= maxNonce
              && forall i :: 0 < i < r.hashesComputed ==> Tried(start, i) < maxNonce
  {
    hide ComputedHash, MeetsTarget, Tried;
    TriedFirst(start);
    after := b;
    var nonce: U64 := start;
    var hashCount := 0;
    while !abort(hashCount)
      invariant nonce == Tried(start, hashCount)
      invariant after == b.(nonce := after.nonce)
      invariant forall i :: 0 <= i < hashCount ==> !Attempt(keccak, b, Tried(start, i))
      invariant forall i :: 0 < i <= hashCount ==> Tried(start, i) < maxNonce
      decreases if nonce >= maxNonce then U64_LIMIT + 1 else maxNonce - nonce
    {
      after := after.(nonce := nonce);
      assert after == b.(nonce := nonce);
      var header := SerializeHeader(after);
      var hash := Hex(keccak(header));
      hashCount := hashCount + 1;
      var met := HashMeetsTarget(hash, b.difficulty);
      FreshHash(keccak, after, hash);
      if met {
        after := after.(hash := hash);
        return MineResult(true, nonce, hash, hashCount), after;
      }
      TriedNext(start, hashCount - 1);
      nonce := (nonce + 1) % U64_LIMIT;
      if nonce >= maxNonce {
        break;
      }
      if stop(hashCount) {
        break;
      }
    }
    return MineResult(false, 0, [], hashCount), after;
  }

  lemma TriedFirst(start: U64)
    ensures Tried(start, 0) == start
  {
  }

  lemma TriedNext(start: U64, i: nat)
    ensures Tried(start, i + 1) == (Tried(start, i) + 1) % U64_LIMIT
  {
  }

  /** Storing the hash in the block does not change what is hashed. */
  lemma FreshHash(keccak: Keccak, b: Block, hash: Bytes)
    requires hash == Hex(keccak(Serialized(b)))
    ensures |hash| == 64 && hash == ComputedHash(keccak, b) == ComputedHash(keccak, b.(hash := hash))
  {
    hide Hex, Serialized;
    SerializedIgnoresHash(b, hash);
  }

  lemma SerializedIgnoresHash(b: Block, hash: Bytes)
    ensures Serialized(b.(hash := hash)) == Serialized(b)
  {
  }
}
