/** BIP-39 mnemonics (src/bip39.cpp:242-293 and 406-437): cutting entropy and checksum into 11-bit
    windows, and packing word indices back bit by bit. Bits are read most significant first. SHA-256
    is a parameter, and so is the word list. */
module Mnemonic {
  import opened Arithmetic
  import opened Wrappers
  import opened ByteStrings
  import opened ChainTypes

  type Sha256 = Bytes -> Bytes32

  // ---------------------------------------------------------------- bits

  /** The k lowest bits of n, most significant first. */
  function HighBits(n: nat, k: nat): (r: seq<bool>)
    ensures |r| == k
  {
    if k == 0 then [] else HighBits(n / 2, k - 1) + [n % 2 == 1]
  }

  /** The number bits denote, most significant first. */
  function Number(bits: seq<bool>): nat {
    if bits == [] then 0 else 2 * Number(bits[..|bits| - 1]) + (if bits[|bits| - 1] then 1 else 0)
  }

  function BitsOf(bytes: Bytes): (r: seq<bool>)
    ensures |r| == 8 * |bytes|
  {
    if bytes == [] then [] else HighBits(bytes[0], 8) + BitsOf(bytes[1..])
  }

  function BytesFrom(bits: seq<bool>): (r: Bytes)
    requires |bits| % 8 == 0
    ensures 8 * |r| == |bits|
  {
    if bits == [] then [] else
    NumberBound(bits[..8]);
    assert Pow2(4) == 16 && Pow2(8) == 256;
    [Number(bits[..8])] + BytesFrom(bits[8..])
  }

  function Falses(k: nat): (r: seq<bool>)
    ensures |r| == k && forall i :: 0 <= i < k ==> !r[i]
  {
    seq(k, i => false)
  }

  lemma {:induction false} NumberBound(bits: seq<bool>)
    ensures Number(bits) < Pow2(|bits|)
  {
    if bits != [] {
      NumberBound(bits[..|bits| - 1]);
    }
  }

  lemma {:induction false} NumberOfHighBits(n: nat, k: nat)
    requires n < Pow2(k)
    ensures Number(HighBits(n, k)) == n
  {
    if k > 0 {
      NumberOfHighBits(n / 2, k - 1);
      assert HighBits(n, k)[..k - 1] == HighBits(n / 2, k - 1);
    }
  }

  lemma {:induction false} HighBitsOfNumber(bits: seq<bool>)
    ensures HighBits(Number(bits), |bits|) == bits
  {
    if bits != [] {
      HighBitsOfNumber(bits[..|bits| - 1]);
      assert bits == bits[..|bits| - 1] + [bits[|bits| - 1]];
    }
  }

  lemma {:induction false} NumberConcat(a: seq<bool>, b: seq<bool>)
    ensures Number(a + b) == Number(a) * Pow2(|b|) + Number(b)
  {
    if b == [] {
      assert a + b == a;
    } else {
      var init := b[..|b| - 1];
      NumberConcat(a, init);
      assert (a + b)[..|a + b| - 1] == a + init;
      assert Number(a) * Pow2(|b|) == 2 * (Number(a) * Pow2(|init|));
    }
  }

  lemma {:induction false} BytesOfBits(bytes: Bytes)
    ensures BytesFrom(BitsOf(bytes)) == bytes
  {
    if bytes != [] {
      var bits := BitsOf(bytes);
      assert bits[..8] == HighBits(bytes[0], 8) && bits[8..] == BitsOf(bytes[1..]);
      assert Pow2(4) == 16 && Pow2(8) == 256;
      NumberOfHighBits(bytes[0], 8);
      BytesOfBits(bytes[1..]);
    }
  }

  lemma {:induction false} BitsOfBytes(bits: seq<bool>)
    requires |bits| % 8 == 0
    ensures BitsOf(BytesFrom(bits)) == bits
  {
    if bits != [] {
      HighBitsOfNumber(bits[..8]);
      BitsOfBytes(bits[8..]);
      assert bits == bits[..8] + bits[8..];
    }
  }

  lemma {:induction false} BitsSlice(bytes: Bytes, a: nat, b: nat)
    requires a <= b <= |bytes|
    ensures BitsOf(bytes)[8 * a..8 * b] == BitsOf(bytes[a..b])
  {
    if a > 0 {
      var bits := BitsOf(bytes);
      BitsSlice(bytes[1..], a - 1, b - 1);
      SliceOfDrop(bytes, 1, a - 1, b - 1);
      SliceOfDrop(bits, 8, 8 * (a - 1), 8 * (b - 1));
      assert bits[8..] == BitsOf(bytes[1..]);
    } else if b > 0 {
      BitsSlice(bytes[1..], 0, b - 1);
      assert bytes[..b][1..] == bytes[1..][..b - 1];
      assert BitsOf(bytes)[..8 * b] == HighBits(bytes[0], 8) + BitsOf(bytes[1..])[..8 * (b - 1)];
    }
  }

  /** A shift and a mask take a run of bits out of a number. */
  lemma Extract(bits: seq<bool>, a: nat, b: nat)
    requires a <= b <= |bits|
    ensures Number(bits) / Pow2(|bits| - b) % Pow2(b - a) == Number(bits[a..b])
  {
    var high, mid, low := bits[..a], bits[a..b], bits[b..];
    assert bits == bits[..b] + low && bits[..b] == high + mid;
    NumberConcat(bits[..b], low);
    NumberConcat(high, mid);
    NumberBound(low);
    NumberBound(mid);
    QuotientOf(Number(bits[..b]), Number(low), Pow2(|low|));
    QuotientOf(Number(high), Number(mid), Pow2(|mid|));
  }

  lemma {:induction false} BitOfNumber(n: nat, k: nat, j: nat)
    requires j < k
    ensures HighBits(n, k)[j] == (n / Pow2(k - 1 - j) % 2 == 1)
  {
    if j < k - 1 {
      BitOfNumber(n / 2, k - 1, j);
      DivTwice(n, Pow2(k - 2 - j));
    }
  }

  // ---------------------------------------------------------------- windows of eleven bits

  predicate Below(indices: seq<nat>, n: nat) {
    forall i :: 0 <= i < |indices| ==> indices[i] < n
  }

  function Chunks(bits: seq<bool>): (r: seq<nat>)
    requires |bits| % 11 == 0
    ensures 11 * |r| == |bits|
    ensures Below(r, 2048)
  {
    if bits == [] then [] else
    NumberBound(bits[..11]);
    assert Pow2(5) == 32 && Pow2(11) == 64 * Pow2(5);
    [Number(bits[..11])] + Chunks(bits[11..])
  }

  /** The eleven low bits of each index, one after the other. */
  function Unchunk(indices: seq<nat>): (r: seq<bool>)
    ensures |r| == 11 * |indices|
  {
    if indices == [] then [] else HighBits(indices[0], 11) + Unchunk(indices[1..])
  }

  lemma {:induction false} UnchunkChunks(bits: seq<bool>)
    requires |bits| % 11 == 0
    ensures Unchunk(Chunks(bits)) == bits
  {
    if bits != [] {
      HighBitsOfNumber(bits[..11]);
      UnchunkChunks(bits[11..]);
      assert bits == bits[..11] + bits[11..];
    }
  }

  lemma {:induction false} ChunksUnchunk(indices: seq<nat>)
    requires Below(indices, 2048)
    ensures Chunks(Unchunk(indices)) == indices
  {
    if indices != [] {
      var bits := Unchunk(indices);
      assert bits[..11] == HighBits(indices[0], 11) && bits[11..] == Unchunk(indices[1..]);
      assert Pow2(5) == 32 && Pow2(11) == 64 * Pow2(5);
      NumberOfHighBits(indices[0], 11);
      ChunksUnchunk(indices[1..]);
    }
  }

  lemma {:induction false} ChunkAt(bits: seq<bool>, i: nat)
    requires |bits| % 11 == 0 && 11 * i + 11 <= |bits|
    ensures Chunks(bits)[i] == Number(bits[11 * i..11 * i + 11])
  {
    if i > 0 {
      ChunkAt(bits[11..], i - 1);
      SliceOfDrop(bits, 11, 11 * (i - 1), 11 * i);
    }
  }

  // ---------------------------------------------------------------- words

  /** std::find: the first index of a word. */
  function Find(words: seq<string>, w: string): (r: Option<nat>)
    ensures r.Some? ==> r.value < |words| && words[r.value] == w && w !in words[..r.value]
    ensures r.None? ==> w !in words
  {
    if words == [] then None
    else if words[0] == w then Some(0)
    else
      var i :- Find(words[1..], w);
      assert words[..i + 1] == [words[0]] + words[1..][..i];
      Some(i + 1)
  }

  function FindAll(words: seq<string>, tokens: seq<string>): (r: Option<seq<nat>>)
    ensures r.Some? ==> |r.value| == |tokens|
  {
    if tokens == [] then Some([]) else
    var i :- Find(words, tokens[0]);
    var others :- FindAll(words, tokens[1..]);
    Some([i] + others)
  }

  function WordsAt(words: seq<string>, indices: seq<nat>): (r: seq<string>)
    requires Below(indices, |words|)
    ensures |r| == |indices|
  {
    seq(|indices|, i requires 0 <= i < |indices| => words[indices[i]])
  }

  // ---------------------------------------------------------------- the two directions

  /** The five word counts of BIP-39 and their entropy sizes in bytes. */
  function EntropyBytes(wordCount: nat): Option<nat> {
    match wordCount
    case 12 => Some(16)
    case 15 => Some(20)
    case 18 => Some(24)
    case 21 => Some(28)
    case 24 => Some(32)
    case _ => None
  }

  /** Entropy followed by the first bits of its hash, one per 32 bits of entropy. */
  function Sealed(sha: Sha256, entropy: Bytes): (r: seq<bool>)
    requires |entropy| <= 32 && |entropy| % 4 == 0
    ensures |r| == 33 * (|entropy| / 4)
  {
    BitsOf(entropy) + BitsOf(sha(entropy))[..|entropy| / 4]
  }

  /** The mnemonic of some entropy; None stands for the exception on a missing word. */
  function Generated(words: seq<string>, sha: Sha256, entropy: Bytes): Option<seq<string>>
    requires |entropy| <= 32 && |entropy| % 4 == 0
  {
    var indices := Chunks(Sealed(sha, entropy));
    if Below(indices, |words|) then Some(WordsAt(words, indices)) else None
  }

  /** verifyChecksum on the tokens of a mnemonic. */
  predicate Verified(words: seq<string>, sha: Sha256, tokens: seq<string>) {
    && EntropyBytes(|tokens|).Some?
    && FindAll(words, tokens).Some?
    && var n := EntropyBytes(|tokens|).value;
       var bits := Unchunk(FindAll(words, tokens).value);
       BitsOf(sha(BytesFrom(bits[..8 * n])))[..n / 4] == bits[8 * n..]
  }

  // ---------------------------------------------------------------- what is accepted

  /** The first 2048 words are there and are distinct: what an 11-bit index relies on. */
  ghost predicate GoodList(words: seq<string>) {
    |words| >= 2048 && forall i, j :: 0 <= i < j < 2048 ==> words[i] != words[j]
  }

  lemma {:induction false} FindGenerated(words: seq<string>, indices: seq<nat>)
    requires GoodList(words) && Below(indices, 2048)
    ensures FindAll(words, WordsAt(words, indices)) == Some(indices)
  {
    hide Find;
    if indices != [] {
      FindFirst(words, indices[0]);
      var tokens := WordsAt(words, indices);
      assert tokens[0] == words[indices[0]] && tokens[1..] == WordsAt(words, indices[1..]);
      FindGenerated(words, indices[1..]);
      assert indices == [indices[0]] + indices[1..];
    }
  }

  lemma FindFirst(words: seq<string>, v: nat)
    requires GoodList(words) && v < 2048
    ensures Find(words, words[v]) == Some(v)
  {
    hide Find;
    var f := Find(words, words[v]);
    assert words[v] in words;
    assert forall i :: 0 <= i < f.value ==> words[..f.value][i] == words[i];
  }

  /** On a good list the generator's self-check cannot fail, whatever the entropy and the hash. */
  lemma GeneratedIsVerified(words: seq<string>, sha: Sha256, entropy: Bytes)
    requires GoodList(words) && 16 <= |entropy| <= 32 && |entropy| % 4 == 0
    ensures Generated(words, sha, entropy).Some?
    ensures Verified(words, sha, Generated(words, sha, entropy).value)
  {
    hide HighBits, Find, FindAll, Falses;
    var bits := Sealed(sha, entropy);
    var n := |entropy|;
    FindGenerated(words, Chunks(bits));
    UnchunkChunks(bits);
    BytesOfBits(entropy);
    assert bits[..8 * n] == BitsOf(entropy) && bits[8 * n..] == BitsOf(sha(entropy))[..n / 4];
  }

  lemma {:induction false} WordsFound(words: seq<string>, tokens: seq<string>)
    requires FindAll(words, tokens).Some?
    ensures var indices := FindAll(words, tokens).value;
            Below(indices, |words|) && WordsAt(words, indices) == tokens
  {
    hide Find;
    if tokens != [] {
      WordsFound(words, tokens[1..]);
      var others := FindAll(words, tokens[1..]).value;
      assert WordsAt(words, others) == tokens[1..];
      assert tokens == [tokens[0]] + tokens[1..];
    }
  }

  /** With a list of 2048 words the verifier accepts only what the generator can produce: an
      accepted mnemonic is the mnemonic of the entropy it packs back to. */
  lemma VerifiedIsGenerated(words: seq<string>, sha: Sha256, tokens: seq<string>) returns (entropy: Bytes)
    requires |words| <= 2048 && Verified(words, sha, tokens)
    ensures Some(|entropy|) == EntropyBytes(|tokens|)
    ensures Generated(words, sha, entropy) == Some(tokens)
  {
    hide Find, FindAll, HighBits;
    var indices := FindAll(words, tokens).value;
    var bits := Unchunk(indices);
    var n := EntropyBytes(|tokens|).value;
    entropy := BytesFrom(bits[..8 * n]);
    WordsFound(words, tokens);
    BitsOfBytes(bits[..8 * n]);
    assert bits == bits[..8 * n] + bits[8 * n..];
    assert Sealed(sha, entropy) == bits;
    ChunksUnchunk(indices);
  }

  // ---------------------------------------------------------------- the condition is exact

  lemma {:induction false} ZeroWords(k: nat)
    ensures Unchunk(seq(k, i => 0)) == Falses(11 * k)
  {
    if k > 0 {
      ZeroWords(k - 1);
      assert seq(k, i => 0)[1..] == seq(k - 1, i => 0);
      FalseBits(11);
      assert Falses(11) + Falses(11 * (k - 1)) == Falses(11 * k);
    }
  }

  lemma {:induction false} FalseBits(k: nat)
    ensures HighBits(0, k) == Falses(k)
  {
    if k > 0 {
      FalseBits(k - 1);
    }
  }

  lemma {:induction false} ZeroBytes(k: nat)
    ensures BitsOf(Zeros(k)) == Falses(8 * k)
  {
    if k > 0 {
      ZeroBytes(k - 1);
      assert Zeros(k)[1..] == Zeros(k - 1);
      FalseBits(8);
      assert Falses(8) + Falses(8 * (k - 1)) == Falses(8 * k);
    }
  }

  /** Sixteen bytes whose first eleven bits are v and whose other bits are zero. */
  ghost function EntropyFor(v: nat): (r: Bytes)
    ensures |r| == 16 && BitsOf(r) == HighBits(v, 11) + Falses(117)
  {
    BitsOfBytes(HighBits(v, 11) + Falses(117));
    BytesFrom(HighBits(v, 11) + Falses(117))
  }

  /** Hashes one message to zeros and every other one to ones. */
  ghost function Separating(message: Bytes): Sha256 {
    (m: Bytes) => if m == message then Zeros(32) else seq(32, i => 255)
  }

  ghost function FirstThenZeros(v: nat): seq<nat> {
    [v] + seq(11, i => 0)
  }

  lemma SealedFor(v: nat)
    requires v < 2048
    ensures Sealed(Separating(EntropyFor(v)), EntropyFor(v)) == HighBits(v, 11) + Falses(121)
    ensures Unchunk(FirstThenZeros(v)) == HighBits(v, 11) + Falses(121)
    ensures Chunks(HighBits(v, 11) + Falses(121)) == FirstThenZeros(v)
  {
    hide HighBits;
    ZeroBytes(32);
    assert Falses(117) + Falses(256)[..4] == Falses(121);
    ZeroWords(11);
    assert FirstThenZeros(v)[1..] == seq(11, i => 0);
    ChunksUnchunk(FirstThenZeros(v));
  }

  lemma HighBitsInjective(v: nat, w: nat)
    requires v < 2048 && w < 2048 && HighBits(v, 11) == HighBits(w, 11)
    ensures v == w
  {
    assert Pow2(5) == 32 && Pow2(11) == 64 * Pow2(5);
    NumberOfHighBits(v, 11);
    NumberOfHighBits(w, 11);
  }

  /** The first bit of a byte 255. */
  lemma OnesAreOnes()
    ensures BitsOf(seq(32, i => 255))[0]
  {
    BitOfNumber(255, 8, 0);
    assert Pow2(4) == 16 && Pow2(7) == 128;
  }

  lemma {:induction false} FindZeros(words: seq<string>, k: nat)
    requires words != []
    ensures FindAll(words, WordsAt(words, seq(k, i => 0))) == Some(seq(k, i => 0))
  {
    if k > 0 {
      FindZeros(words, k - 1);
      var tokens := WordsAt(words, seq(k, i => 0));
      assert tokens[0] == words[0] && tokens[1..] == WordsAt(words, seq(k - 1, i => 0));
      assert [0] + seq(k - 1, i => 0) == seq(k, i => 0);
    }
  }

  /** On any other list some entropy and some hash make the generator throw: a word is missing,
      or two equal words send the verifier to the wrong index. */
  lemma OtherListsFail(words: seq<string>) returns (sha: Sha256, entropy: Bytes)
    requires !GoodList(words)
    ensures |entropy| == 16
    ensures var g := Generated(words, sha, entropy);
            g.None? || !Verified(words, sha, g.value)
  {
    hide Verified, HighBits, BitsOf, Chunks, Unchunk;
    if |words| < 2048 {
      entropy := EntropyFor(2047);
      sha := Separating(entropy);
      SealedFor(2047);
      assert FirstThenZeros(2047)[0] == 2047;
    } else {
      var i, j :| 0 <= i < j < 2048 && words[i] == words[j];
      entropy := EntropyFor(j);
      sha := Separating(entropy);
      SealedFor(j);
      var tokens := WordsAt(words, FirstThenZeros(j));
      var f := Find(words, words[j]).value;
      assert forall k :: 0 <= k < f ==> words[..f][k] == words[k];
      WrongEntropy(words, j, f, tokens);
    }
  }

  lemma WrongEntropy(words: seq<string>, j: nat, f: nat, tokens: seq<string>)
    requires f < j < 2048 <= |words| && Find(words, words[j]) == Some(f)
    requires tokens == WordsAt(words, FirstThenZeros(j))
    ensures !Verified(words, Separating(EntropyFor(j)), tokens)
  {
    hide Find, HighBits;
    var zeros := seq(11, i => 0);
    FindZeros(words, 11);
    assert tokens[0] == words[j] && tokens[1..] == WordsAt(words, zeros);
    assert FindAll(words, tokens) == Some(FirstThenZeros(f));
    SealedFor(f);
    var bits := HighBits(f, 11) + Falses(121);
    assert bits[..128] == HighBits(f, 11) + Falses(117);
    BytesOfBits(EntropyFor(f));
    if EntropyFor(f) == EntropyFor(j) {
      assert BitsOf(EntropyFor(f))[..11] == HighBits(f, 11) && BitsOf(EntropyFor(j))[..11] == HighBits(j, 11);
      HighBitsInjective(f, j);
    }
    OnesAreOnes();
    assert !bits[128..][0];
  }

  // ---------------------------------------------------------------- the words as one number

  /** Indices as the digits of a number, the first most significant. */
  function Base2048(indices: seq<nat>): nat {
    if indices == [] then 0 else 2048 * Base2048(indices[..|indices| - 1]) + indices[|indices| - 1]
  }

  lemma {:induction false} NumberOfWords(indices: seq<nat>)
    requires Below(indices, 2048)
    ensures Number(Unchunk(indices)) == Base2048(indices)
  {
    hide HighBits, Number, Unchunk;
    if indices == [] {
      NothingChunked();
    } else {
      var init, last := indices[..|indices| - 1], indices[|indices| - 1];
      NumberOfWords(init);
      assert indices == init + [last];
      UnchunkPush(init, last);
      assert Pow2(5) == 32 && Pow2(11) == 64 * Pow2(5);
      NumberConcat(Unchunk(init), HighBits(last, 11));
      NumberOfHighBits(last, 11);
    }
  }

  lemma NothingChunked()
    ensures Number(Unchunk([])) == 0
  {
  }

  lemma {:induction false} NumberOfBytes(bytes: Bytes)
    ensures Number(BitsOf(bytes)) == FromBE(bytes)
  {
    hide HighBits, Number, BitsOf;
    if bytes == [] {
      NoBits();
    } else {
      var n := |bytes| - 1;
      var init, bits := bytes[..n], BitsOf(bytes);
      NumberOfBytes(init);
      BitsSlice(bytes, 0, n);
      BitsSlice(bytes, n, n + 1);
      assert bytes[0..n] == init && bytes[n..n + 1] == [bytes[n]];
      assert bits == bits[8 * 0..8 * n] + bits[8 * n..8 * (n + 1)];
      OneByte(bytes[n]);
      NumberConcat(BitsOf(init), BitsOf([bytes[n]]));
    }
  }

  lemma NoBits()
    ensures Number(BitsOf([])) == 0
  {
  }

  lemma OneByte(b: Byte)
    ensures Number(BitsOf([b])) == b && Pow2(8) == 256
  {
    hide HighBits;
    assert BitsOf([b]) == HighBits(b, 8) + BitsOf([]);
    assert BitsOf([b]) == HighBits(b, 8);
    assert Pow2(4) == 16;
    NumberOfHighBits(b, 8);
  }

  lemma TopBits(b: Byte, c: nat)
    requires c <= 8
    ensures Number(BitsOf([b])[..c]) == b / Pow2(8 - c)
  {
    hide HighBits, Number, BitsOf;
    var bits := BitsOf([b]);
    var high, low := bits[..c], bits[c..];
    assert bits == high + low;
    NumberConcat(high, low);
    NumberBound(low);
    OneByte(b);
    QuotientOf(Number(high), Number(low), Pow2(|low|));
  }

  lemma FirstHashBits(hash: Bytes32, c: nat)
    requires c <= 8
    ensures BitsOf(hash)[..c] == BitsOf([hash[0]])[..c]
  {
    hide BitsOf;
    BitsSlice(hash, 0, 1);
    assert hash[0..1] == [hash[0]] && BitsOf(hash)[8 * 0..8 * 1] == BitsOf([hash[0]]);
  }

  lemma SealedNumber(sha: Sha256, entropy: Bytes)
    requires |entropy| <= 32 && |entropy| % 4 == 0
    ensures var c := |entropy| / 4;
            Number(Sealed(sha, entropy)) == FromBE(entropy) * Pow2(c) + sha(entropy)[0] / Pow2(8 - c)
  {
    var c, b := |entropy| / 4, sha(entropy)[0];
    FirstHashBits(sha(entropy), c);
    assert Sealed(sha, entropy) == BitsOf(entropy) + BitsOf([b])[..c];
    hide Number, BitsOf, Pow2, FromBE, Sealed, HighBits;
    NumberConcat(BitsOf(entropy), BitsOf([b])[..c]);
    NumberOfBytes(entropy);
    TopBits(b, c);
  }

  lemma SameIndices(words: seq<string>, a: seq<nat>, b: seq<nat>)
    requires GoodList(words) && Below(a, 2048) && Below(b, 2048) && WordsAt(words, a) == WordsAt(words, b)
    ensures a == b
  {
    assert |a| == |b|;
    forall i | 0 <= i < |a|
      ensures a[i] == b[i]
    {
      assert words[a[i]] == WordsAt(words, a)[i] == WordsAt(words, b)[i] == words[b[i]];
    }
  }

  lemma WordsAreChunks(words: seq<string>, sha: Sha256, entropy: Bytes, indices: seq<nat>)
    requires GoodList(words) && |entropy| <= 32 && |entropy| % 4 == 0 && Below(indices, 2048)
    requires Generated(words, sha, entropy) == Some(WordsAt(words, indices))
    ensures indices == Chunks(Sealed(sha, entropy))
    ensures Unchunk(indices) == Sealed(sha, entropy)
  {
    var sealed := Sealed(sha, entropy);
    var chunks := Chunks(sealed);
    hide Sealed, Chunks, Unchunk, GoodList, WordsAt, Generated;
    UnchunkChunks(sealed);
    SameIndices(words, chunks, indices);
  }

  /** Read in base 2048, the positions of the words are the entropy followed by the first bits of its
      hash, whatever positions in the list are taken. */
  lemma WordsDenoteEntropy(words: seq<string>, sha: Sha256, entropy: Bytes, indices: seq<nat>)
    requires GoodList(words) && |entropy| <= 32 && |entropy| % 4 == 0 && Below(indices, 2048)
    requires Generated(words, sha, entropy) == Some(WordsAt(words, indices))
    ensures var c := |entropy| / 4;
            && |indices| == 3 * c
            && Base2048(indices) == FromBE(entropy) * Pow2(c) + sha(entropy)[0] / Pow2(8 - c)
  {
    hide Base2048, Number, FromBE, Unchunk, Chunks, Sealed, Pow2, GoodList, Generated, WordsAt;
    WordsAreChunks(words, sha, entropy, indices);
    NumberOfWords(indices);
    SealedNumber(sha, entropy);
  }

  // ---------------------------------------------------------------- the mnemonic as a string

  predicate IsSpace(c: char) {
    c == ' ' || ('\t' <= c <= '\r')
  }

  /** What `stream >> word` can read: a non-empty run without white space. */
  predicate IsToken(w: string) {
    w != "" && forall i :: 0 <= i < |w| ==> !IsSpace(w[i])
  }

  ghost predicate IsWordList(words: seq<string>) {
    forall i :: 0 <= i < |words| ==> IsToken(words[i])
  }

  /** The tokens of a string whose current token already holds cur. */
  function Tokens(s: string, cur: string): seq<string> {
    if s == "" then (if cur == "" then [] else [cur])
    else if IsSpace(s[0]) then (if cur == "" then [] else [cur]) + Tokens(s[1..], "")
    else Tokens(s[1..], cur + [s[0]])
  }

  function Phrase(tokens: seq<string>): string {
    if tokens == [] then ""
    else if |tokens| == 1 then tokens[0]
    else tokens[0] + " " + Phrase(tokens[1..])
  }

  lemma {:induction false} TokensOfWord(w: string, rest: string, cur: string)
    requires forall i :: 0 <= i < |w| ==> !IsSpace(w[i])
    ensures Tokens(w + rest, cur) == Tokens(rest, cur + w)
    decreases w
  {
    if w == "" {
      assert w + rest == rest && cur + w == cur;
    } else {
      assert (w + rest)[1..] == w[1..] + rest;
      assert cur + [w[0]] + w[1..] == cur + w;
      TokensOfWord(w[1..], rest, cur + [w[0]]);
    }
  }

  lemma {:induction false} TokensOfJoined(tokens: seq<string>)
    requires IsWordList(tokens)
    ensures Tokens(Phrase(tokens), "") == tokens
  {
    if |tokens| == 1 {
      TokensOfWord(tokens[0], "", "");
      assert tokens[0] + "" == tokens[0] && "" + tokens[0] == tokens[0];
    } else if |tokens| > 1 {
      var w, rest := tokens[0], Phrase(tokens[1..]);
      hide Phrase;
      assert w + " " + rest == w + (" " + rest) && "" + w == w && (" " + rest)[1..] == rest;
      TokensOfWord(w, " " + rest, "");
      TokensOfJoined(tokens[1..]);
      assert tokens == [w] + tokens[1..];
    }
  }

  /** Blank, tab, line feed, vertical tab, form feed and carriage return end a word, and may lead
      or repeat. */
  lemma WhiteSpaceSeparates(w: string, c: char, rest: string)
    requires IsToken(w) && (c as int == 32 || 9 <= c as int <= 13)
    ensures Tokens(w + [c] + rest, "") == [w] + Tokens(rest, "")
    ensures Tokens([c] + rest, "") == Tokens(rest, "")
  {
    TokensOfWord(w, [c] + rest, "");
    assert w + [c] + rest == w + ([c] + rest) && "" + w == w;
    assert ([c] + rest)[1..] == rest && ([c] + rest)[0] == c;
  }

  // ---------------------------------------------------------------- the loops

  /** The 11-bit window starting at bit 11 * i, by shift and mask over three bytes. */
  function WindowValue(bits: Bytes, i: nat): nat
    requires |bits| == 17 && i < 12
  {
    var byteIdx, bitPos := i * 11 / 8, i * 11 % 8;
    var third := if byteIdx + 2 < 17 then bits[byteIdx + 2] as int else 0;
    ((bits[byteIdx] as int) * 65536 + (bits[byteIdx + 1] as int) * 256 + third) / Pow2(13 - bitPos) % 2048
  }

  lemma WindowIsChunk(bits: Bytes, i: nat)
    requires |bits| == 17 && i < 12
    ensures WindowValue(bits, i) == Number(BitsOf(bits)[11 * i..11 * i + 11])
  {
    hide BitsOf, HighBits, Number;
    var byteIdx, bitPos := i * 11 / 8, i * 11 % 8;
    var third: Byte := if byteIdx + 2 < 17 then bits[byteIdx + 2] else 0;
    var b0, b1 := bits[byteIdx], bits[byteIdx + 1];
    var window := HighBits(b0, 8) + HighBits(b1, 8) + HighBits(third, 8);
    ThreeBytes(b0, b1, third);
    Extract(window, bitPos, bitPos + 11);
    assert Pow2(11) == 2048 by { assert Pow2(5) == 32 && Pow2(11) == 64 * Pow2(5); }
    WindowBits(bits, i, third);
  }

  lemma ThreeBytes(a: Byte, b: Byte, c: Byte)
    ensures Number(HighBits(a, 8) + HighBits(b, 8) + HighBits(c, 8)) == (a as int) * 65536 + (b as int) * 256 + c
  {
    hide HighBits, Number;
    assert Pow2(8) == 256 by { assert Pow2(4) == 16; }
    NumberOfHighBits(a, 8);
    NumberOfHighBits(b, 8);
    NumberOfHighBits(c, 8);
    NumberConcat(HighBits(a, 8), HighBits(b, 8));
    NumberConcat(HighBits(a, 8) + HighBits(b, 8), HighBits(c, 8));
  }

  lemma WindowBits(bits: Bytes, i: nat, third: Byte)
    requires |bits| == 17 && i < 12
    requires i * 11 / 8 + 2 < 17 ==> third == bits[i * 11 / 8 + 2]
    ensures var byteIdx, bitPos := i * 11 / 8, i * 11 % 8;
            var window := HighBits(bits[byteIdx], 8) + HighBits(bits[byteIdx + 1], 8) + HighBits(third, 8);
            window[bitPos..bitPos + 11] == BitsOf(bits)[11 * i..11 * i + 11]
  {
    hide BitsOf, HighBits;
    var k, bitPos := i * 11 / 8, i * 11 % 8;
    assert 11 * i == 8 * k + bitPos;
    if k + 2 < 17 {
      LongWindow(bits, k, bitPos);
    } else {
      assert bitPos + 11 <= 16;
      ShortWindow(bits, k, bitPos, third);
    }
  }

  lemma LongWindow(bits: Bytes, k: nat, bitPos: nat)
    requires k + 2 < |bits| && bitPos < 8
    ensures var window := HighBits(bits[k], 8) + HighBits(bits[k + 1], 8) + HighBits(bits[k + 2], 8);
            window[bitPos..bitPos + 11] == BitsOf(bits)[8 * k + bitPos..8 * k + bitPos + 11]
  {
    hide BitsOf, HighBits;
    var x, y, z := HighBits(bits[k], 8), HighBits(bits[k + 1], 8), HighBits(bits[k + 2], 8);
    TwoBytesAt(bits, k);
    assert BitsOf(bits)[8 * k + 8..8 * k + 24] == y + z by {
      TwoBytesAt(bits, k + 1);
    }
    InsideThree(BitsOf(bits), 8 * k, x, y, z, bitPos);
  }

  lemma InsideThree(all: seq<bool>, at: nat, x: seq<bool>, y: seq<bool>, z: seq<bool>, from: nat)
    requires |x| == |y| == |z| == 8 && at + 24 <= |all| && from < 8
    requires all[at..at + 16] == x + y && all[at + 8..at + 24] == y + z
    ensures (x + y + z)[from..from + 11] == all[at + from..at + from + 11]
  {
    ThreeInARow(all, at, x, y, z);
    SliceOfSlice(all, at, at + 24, from, from + 11);
  }

  lemma ShortWindow(bits: Bytes, k: nat, bitPos: nat, third: Byte)
    requires k + 1 < |bits| && bitPos + 11 <= 16
    ensures var window := HighBits(bits[k], 8) + HighBits(bits[k + 1], 8) + HighBits(third, 8);
            window[bitPos..bitPos + 11] == BitsOf(bits)[8 * k + bitPos..8 * k + bitPos + 11]
  {
    hide BitsOf, HighBits;
    var two := HighBits(bits[k], 8) + HighBits(bits[k + 1], 8);
    TwoBytesAt(bits, k);
    assert (two + HighBits(third, 8))[bitPos..bitPos + 11] == two[bitPos..bitPos + 11];
    SliceOfSlice(BitsOf(bits), 8 * k, 8 * k + 16, bitPos, bitPos + 11);
  }

  lemma TwoBytesAt(bits: Bytes, k: nat)
    requires k + 2 <= |bits|
    ensures BitsOf(bits)[8 * k..8 * k + 16] == HighBits(bits[k], 8) + HighBits(bits[k + 1], 8)
  {
    hide BitsOf, HighBits;
    BitsOfTwo(bits[k..k + 2]);
    BitsSlice(bits, k, k + 2);
  }

  lemma ThreeInARow(all: seq<bool>, at: nat, x: seq<bool>, y: seq<bool>, z: seq<bool>)
    requires |x| == |y| == |z| == 8 && at + 24 <= |all|
    requires all[at..at + 16] == x + y && all[at + 8..at + 24] == y + z
    ensures all[at..at + 24] == x + y + z
  {
    assert all[at + 8..at + 24][8..] == z;
    assert all[at..at + 24] == all[at..at + 16] + all[at + 8..at + 24][8..];
  }

  lemma BitsOfTwo(bytes: Bytes)
    requires |bytes| == 2
    ensures BitsOf(bytes) == HighBits(bytes[0], 8) + HighBits(bytes[1], 8)
  {
    assert bytes[1..][1..] == [];
  }

  /** Bit p of a byte string, counted from the most significant bit of the first byte. */
  lemma {:induction false} BitAt(bytes: Bytes, p: nat)
    requires p < 8 * |bytes|
    ensures BitsOf(bytes)[p] == HighBits(bytes[p / 8], 8)[p % 8]
  {
    hide HighBits;
    if p >= 8 {
      BitAt(bytes[1..], p - 8);
      assert bytes[1..][(p - 8) / 8] == bytes[p / 8];
    }
  }

  /** bits[p / 8] >> (7 - p % 8) & 1 */
  function TestBit(bytes: Bytes, p: nat): (r: bool)
    requires p < 8 * |bytes|
    ensures r == BitsOf(bytes)[p]
  {
    BitAt(bytes, p);
    BitOfNumber(bytes[p / 8], 8, p % 8);
    bytes[p / 8] / Pow2(7 - p % 8) % 2 == 1
  }

  /** bits[p / 8] |= 1 << (7 - p % 8) */
  function SetBit(bytes: Bytes, p: nat): (r: Bytes)
    requires p < 8 * |bytes|
    ensures |r| == |bytes| && BitsOf(r) == BitsOf(bytes)[p := true]
  {
    var byte := HighBits(bytes[p / 8], 8)[p % 8 := true];
    NumberBound(byte);
    assert Pow2(4) == 16 && Pow2(8) == 256;
    SetBitBits(bytes, p, Number(byte));
    bytes[p / 8 := Number(byte)]
  }

  lemma {:induction false} SetBitBits(bytes: Bytes, p: nat, byte: Byte)
    requires p < 8 * |bytes| && byte == Number(HighBits(bytes[p / 8], 8)[p % 8 := true])
    ensures BitsOf(bytes[p / 8 := byte]) == BitsOf(bytes)[p := true]
  {
    hide HighBits, Number;
    var first, rest := HighBits(bytes[0], 8), BitsOf(bytes[1..]);
    if p < 8 {
      HighBitsOfNumber(first[p := true]);
      assert bytes[0 := byte][1..] == bytes[1..];
      assert (first + rest)[p := true] == first[p := true] + rest;
    } else {
      SetBitBits(bytes[1..], p - 8, byte);
      assert bytes[p / 8 := byte][1..] == bytes[1..][p / 8 - 1 := byte];
      assert (first + rest)[p := true] == first + rest[p - 8 := true];
    }
  }

  /** The verifier's inner loop: the eleven low bits of one word index, from the top. */
  method PackIndex(before: Bytes, i: nat, idx: nat) returns (bits: Bytes)
    requires 11 * i + 11 <= 8 * |before|
    requires BitsOf(before)[11 * i..] == Falses(8 * |before| - 11 * i)
    ensures |bits| == |before|
    ensures BitsOf(bits) == BitsOf(before)[..11 * i] + HighBits(idx, 11) + Falses(8 * |before| - 11 * i - 11)
  {
    hide BitsOf, HighBits;
    bits := before;
    ghost var head, word := BitsOf(before)[..11 * i], HighBits(idx, 11);
    assert BitsOf(before) == head + word[..0] + Falses(8 * |before| - 11 * i);
    for k := 0 to 11
      invariant |bits| == |before|
      invariant BitsOf(bits) == head + word[..k] + Falses(8 * |before| - 11 * i - k)
    {
      var b := 10 - k;
      var bitPos := i * 11 + (10 - b);
      BitOfNumber(idx, 11, k);
      PushBit(head, word, k, 8 * |before| - 11 * i - k);
      if idx / Pow2(b) % 2 == 1 {
        bits := SetBit(bits, bitPos);
      }
    }
    assert word[..11] == word;
  }

  lemma PushBit(head: seq<bool>, word: seq<bool>, k: nat, room: nat)
    requires k < |word| && room > 0
    ensures var was := head + word[..k] + Falses(room);
            head + word[..k + 1] + Falses(room - 1) == if word[k] then was[|head| + k := true] else was
  {
  }

  lemma {:induction false} UnchunkPush(indices: seq<nat>, v: nat)
    ensures Unchunk(indices + [v]) == Unchunk(indices) + HighBits(v, 11)
  {
    hide HighBits;
    if indices == [] {
      assert indices + [v] == [v] && [v][1..] == [];
    } else {
      UnchunkPush(indices[1..], v);
      assert (indices + [v])[1..] == indices[1..] + [v];
    }
  }

  /** The verifier's outer loop; None when a token is not in the list. */
  method PackWords(words: seq<string>, tokens: seq<string>) returns (r: Option<Bytes>)
    ensures r.Some? <==> FindAll(words, tokens).Some?
    ensures r.Some? ==> |r.value| == (11 * |tokens| + 7) / 8
                        && BitsOf(r.value)[..11 * |tokens|] == Unchunk(FindAll(words, tokens).value)
  {
    hide BitsOf, HighBits, Find, FindAll, Unchunk;
    var bits := Zeros((11 * |tokens| + 7) / 8);
    ghost var indices: seq<nat> := [];
    ZeroBytes(|bits|);
    NothingFound(words, tokens);
    assert Falses(8 * |bits|) == [] + Falses(8 * |bits|);
    for i := 0 to |tokens|
      invariant |bits| == (11 * |tokens| + 7) / 8 && |indices| == i
      invariant BitsOf(bits) == Unchunk(indices) + Falses(8 * |bits| - 11 * i)
      invariant FindAll(words, tokens) == AfterFound(indices, FindAll(words, tokens[i..]))
    {
      FindNext(words, tokens, indices, i);
      var found := Find(words, tokens[i]);
      if found.None? {
        return None;
      }
      UnchunkPush(indices, found.value);
      assert BitsOf(bits)[11 * i..] == Falses(8 * |bits| - 11 * i);
      assert BitsOf(bits)[..11 * i] == Unchunk(indices);
      bits := PackIndex(bits, i, found.value);
      indices := indices + [found.value];
    }
    NothingLeftToFind(words, tokens, indices);
    return Some(bits);
  }

  ghost function AfterFound(done: seq<nat>, rest: Option<seq<nat>>): Option<seq<nat>> {
    if rest.None? then None else Some(done + rest.value)
  }

  lemma NothingFound(words: seq<string>, tokens: seq<string>)
    ensures Unchunk([]) == [] && FindAll(words, tokens) == AfterFound([], FindAll(words, tokens[0..]))
  {
    assert tokens[0..] == tokens;
    assert forall s: seq<nat> :: [] + s == s;
  }

  lemma FindNext(words: seq<string>, tokens: seq<string>, done: seq<nat>, i: nat)
    requires i < |tokens|
    ensures var found := Find(words, tokens[i]);
            AfterFound(done, FindAll(words, tokens[i..]))
            == if found.None? then None else AfterFound(done + [found.value], FindAll(words, tokens[i + 1..]))
  {
    hide Find;
    assert tokens[i..][1..] == tokens[i + 1..];
    var found, rest := Find(words, tokens[i]), FindAll(words, tokens[i + 1..]);
    if found.Some? && rest.Some? {
      assert done + ([found.value] + rest.value) == done + [found.value] + rest.value;
    }
  }

  lemma NothingLeftToFind(words: seq<string>, tokens: seq<string>, done: seq<nat>)
    ensures AfterFound(done, FindAll(words, tokens[|tokens|..])) == Some(done)
  {
    assert done + [] == done;
  }

  method VerifyChecksum(words: seq<string>, sha: Sha256, mnemonic: string) returns (valid: bool)
    ensures valid <==> Verified(words, sha, Tokens(mnemonic, ""))
  {
    hide BitsOf, FindAll, Unchunk, Tokens;
    var tokens := Tokens(mnemonic, "");
    var size := EntropyBytes(|tokens|);
    if size.None? {
      return false;
    }
    var entropyBytes := size.value;
    var checksumBits := entropyBytes / 4;
    var packed := PackWords(words, tokens);
    if packed.None? {
      return false;
    }
    var bits := packed.value;
    var hash := sha(bits[..entropyBytes]);
    PackedEntropy(bits, entropyBytes, Unchunk(FindAll(words, tokens).value));
    valid := ChecksumMatches(hash, bits, entropyBytes, checksumBits);
  }

  /** The bit-by-bit comparison of the stored checksum with the hash. */
  method ChecksumMatches(hash: Bytes32, bits: Bytes, entropyBytes: nat, checksumBits: nat) returns (valid: bool)
    requires checksumBits <= 8 && 8 * entropyBytes + checksumBits <= 8 * |bits|
    ensures valid <==> BitsOf(hash)[..checksumBits] == BitsOf(bits)[8 * entropyBytes..8 * entropyBytes + checksumBits]
  {
    hide BitsOf;
    ghost var wanted := BitsOf(hash)[..checksumBits];
    ghost var stored := BitsOf(bits)[8 * entropyBytes..8 * entropyBytes + checksumBits];
    for i := 0 to checksumBits
      invariant forall j :: 0 <= j < i ==> wanted[j] == stored[j]
    {
      var expected := TestBit(hash, i);
      var actual := TestBit(bits, entropyBytes * 8 + i);
      assert expected == wanted[i] && actual == stored[i];
      if expected != actual {
        return false;
      }
    }
    return true;
  }

  lemma PackedEntropy(bits: Bytes, n: nat, packed: seq<bool>)
    requires n <= |bits| && 8 * n <= |packed| <= 8 * |bits| && BitsOf(bits)[..|packed|] == packed
    ensures BytesFrom(packed[..8 * n]) == bits[..n]
    ensures BitsOf(bits)[8 * n..|packed|] == packed[8 * n..]
  {
    BitsSlice(bits, 0, n);
    assert packed[..8 * n] == BitsOf(bits)[8 * 0..8 * n];
    assert bits[0..n] == bits[..n];
    BytesOfBits(bits[..n]);
  }

  /** generateMnemonic for one outcome of the random generator; None stands for its exceptions. */
  method GenerateMnemonic(words: seq<string>, sha: Sha256, entropy: Bytes) returns (r: Option<string>)
    requires IsWordList(words) && |entropy| == 16
    ensures var g := Generated(words, sha, entropy);
            r == if g.Some? && Verified(words, sha, g.value) then Some(Phrase(g.value)) else None
  {
    hide Phrase, Tokens, Verified, HighBits, BitsOf;
    var bits: Bytes := entropy + [sha(entropy)[0]];
    var tokens: seq<string> := [];
    ghost var indices := Chunks(Sealed(sha, entropy));
    for i := 0 to 12
      invariant |tokens| == i
      invariant forall j :: 0 <= j < i ==> indices[j] < |words| && tokens[j] == words[indices[j]]
    {
      var value := WindowValue(bits, i);
      SealedWindow(sha, entropy, bits, i);
      if value >= |words| {
        return None;
      }
      tokens := tokens + [words[value]];
    }
    assert tokens == WordsAt(words, indices);
    var mnemonic := Phrase(tokens);
    TokensOfJoined(tokens);
    var ok := VerifyChecksum(words, sha, mnemonic);
    if !ok {
      return None;
    }
    return Some(mnemonic);
  }

  lemma SealedWindow(sha: Sha256, entropy: Bytes, bits: Bytes, i: nat)
    requires |entropy| == 16 && bits == entropy + [sha(entropy)[0]] && i < 12
    ensures WindowValue(bits, i) == Chunks(Sealed(sha, entropy))[i]
  {
    hide HighBits, Number, WindowValue;
    var hash := sha(entropy);
    WindowIsChunk(bits, i);
    ChunkAt(Sealed(sha, entropy), i);
    BitsSlice(bits, 0, 16);
    BitsSlice(bits, 16, 17);
    BitsSlice(hash, 0, 1);
    assert bits[0..16] == entropy && bits[16..17] == [hash[0]] == hash[0..1];
    assert BitsOf(bits) == BitsOf(entropy) + BitsOf(hash)[0..8];
    assert BitsOf(bits)[..132] == Sealed(sha, entropy);
    assert BitsOf(bits)[11 * i..11 * i + 11] == Sealed(sha, entropy)[11 * i..11 * i + 11];
  }
}
