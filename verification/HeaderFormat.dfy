/** The block header as a reader of the documented format sees it, and what a valid hash binds
    (src/proof_of_work.cpp:19-28, 97-168). */
module HeaderFormat {
  import opened Arithmetic
  import opened Wrappers
  import opened ByteStrings
  import opened ChainTypes
  import opened ProofOfWork

  /** The nine fields, in the order the source documents. */
  datatype Fields = Fields(
    previousHash: Bytes,
    data: Bytes,
    difficulty: nat,
    minerAddress: Bytes,
    timestamp: nat,
    nonce: nat,
    reward: nat,
    baseFee: nat,
    gasUsed: nat)

  function FieldsOf(b: Block): Fields {
    Fields(b.previousHash, b.data, b.difficulty, b.minerAddress, b.timestamp, b.nonce, b.reward, b.baseFee, b.gasUsed)
  }

  // ---------------------------------------------------------------- a reader

  function NumberAt(buf: Bytes, pos: nat, width: nat): Option<nat> {
    if pos + width > |buf| then None else Some(FromBE(buf[pos..pos + width]))
  }

  function TextAt(buf: Bytes, pos: nat): (r: Option<Bytes>)
    ensures r.Some? ==> pos + 4 + |r.value| <= |buf|
  {
    var len :- NumberAt(buf, pos, 4);
    if pos + 4 + len > |buf| then None else Some(buf[pos + 4..pos + 4 + len])
  }

  function ReadHeader(buf: Bytes): Option<Fields> {
    var previousHash :- TextAt(buf, 0);
    var p := 4 + |previousHash|;
    var data :- TextAt(buf, p);
    var q := p + 4 + |data|;
    var difficulty :- NumberAt(buf, q, 4);
    var minerAddress :- TextAt(buf, q + 4);
    var t := q + 8 + |minerAddress|;
    var timestamp :- NumberAt(buf, t, 8);
    var nonce :- NumberAt(buf, t + 8, 8);
    var reward :- NumberAt(buf, t + 16, 8);
    var baseFee :- NumberAt(buf, t + 24, 8);
    var gasUsed :- NumberAt(buf, t + 32, 8);
    Some(Fields(previousHash, data, difficulty, minerAddress, timestamp, nonce, reward, baseFee, gasUsed))
  }

  lemma NumberStands(n: nat, buf: Bytes, pos: nat, width: nat)
    requires n < Pow256(width) && StandsAt(ToBE(n, width), buf, pos)
    ensures NumberAt(buf, pos, width) == Some(n)
  {
    FromToBE(n, width);
  }

  lemma TextStands(s: Bytes, buf: Bytes, pos: nat)
    requires |s| < U32_LIMIT && StandsAt(StringBytes(s), buf, pos)
    ensures TextAt(buf, pos) == Some(s)
  {
    hide FromBE, ToBE;
    WidthLimits();
    StandsAtParts(ToBE(|s|, 4), s, buf, pos);
    NumberStands(|s|, buf, pos, 4);
  }

  /** Where each field of a header stands. */
  lemma FieldsStand(b: Block)
    ensures var buf := Serialized(b);
            var p := 4 + |b.previousHash|;
            var q := p + 4 + |b.data|;
            var t := q + 8 + |b.minerAddress|;
            && StandsAt(StringBytes(b.previousHash), buf, 0) && StandsAt(StringBytes(b.data), buf, p)
            && StandsAt(ToBE(b.difficulty, 4), buf, q) && StandsAt(StringBytes(b.minerAddress), buf, q + 4)
            && StandsAt(ToBE(b.timestamp, 8), buf, t) && StandsAt(ToBE(b.nonce, 8), buf, t + 8)
            && StandsAt(ToBE(b.reward, 8), buf, t + 16) && StandsAt(ToBE(b.baseFee, 8), buf, t + 24)
            && StandsAt(ToBE(b.gasUsed, 8), buf, t + 32)
  {
    var buf, parts := Serialized(b), HeaderParts(b);
    assert buf[0..|buf|] == buf;
    assert StandsAt(Joined(parts), buf, 0);
    hide StandsAt, ToBE, StringBytes, Joined, Serialized;
    TextsStand(b, parts, buf);
    NumbersStand(b, parts, buf, 16 + |b.previousHash| + |b.data| + |b.minerAddress|);
  }

  lemma TextsStand(b: Block, parts: seq<Bytes>, buf: Bytes)
    requires parts == HeaderParts(b) && StandsAt(Joined(parts), buf, 0)
    ensures var q := 8 + |b.previousHash| + |b.data|;
            && StandsAt(StringBytes(b.previousHash), buf, 0)
            && StandsAt(StringBytes(b.data), buf, 4 + |b.previousHash|)
            && StandsAt(ToBE(b.difficulty, 4), buf, q) && StandsAt(StringBytes(b.minerAddress), buf, q + 4)
            && StandsAt(Joined(parts[4..]), buf, q + 8 + |b.minerAddress|)
  {
    hide StandsAt, ToBE, StringBytes, Joined;
    assert parts[0..] == parts;
    NextPart(parts, 0, buf, 0);
    NextPart(parts, 1, buf, 4 + |b.previousHash|);
    NextPart(parts, 2, buf, 8 + |b.previousHash| + |b.data|);
    NextPart(parts, 3, buf, 12 + |b.previousHash| + |b.data|);
  }

  lemma NumbersStand(b: Block, parts: seq<Bytes>, buf: Bytes, t: nat)
    requires parts == HeaderParts(b) && StandsAt(Joined(parts[4..]), buf, t)
    ensures && StandsAt(ToBE(b.timestamp, 8), buf, t) && StandsAt(ToBE(b.nonce, 8), buf, t + 8)
            && StandsAt(ToBE(b.reward, 8), buf, t + 16) && StandsAt(ToBE(b.baseFee, 8), buf, t + 24)
            && StandsAt(ToBE(b.gasUsed, 8), buf, t + 32)
  {
    hide StandsAt, ToBE, StringBytes, Joined;
    NextPart(parts, 4, buf, t);
    NextPart(parts, 5, buf, t + 8);
    NextPart(parts, 6, buf, t + 16);
    NextPart(parts, 7, buf, t + 24);
    NextPart(parts, 8, buf, t + 32);
  }

  /** Reading a serialised header gives its nine fields exactly when the three lengths and the
      difficulty fit the 32 bits they are cut to. */
  lemma HeaderReadsBack(b: Block)
    ensures ReadHeader(Serialized(b)) == Some(FieldsOf(b)) <==>
            && |b.previousHash| < U32_LIMIT && |b.data| < U32_LIMIT && |b.minerAddress| < U32_LIMIT
            && b.difficulty < U32_LIMIT
  {
    hide Serialized, StandsAt, ToBE, StringBytes, FromBE, Pow256;
    var buf := Serialized(b);
    WidthLimits();
    if |b.previousHash| < U32_LIMIT && |b.data| < U32_LIMIT && |b.minerAddress| < U32_LIMIT
       && b.difficulty < U32_LIMIT {
      HeaderReads(b);
    }
    if ReadHeader(buf) == Some(FieldsOf(b)) {
      var p := 4 + |b.previousHash|;
      var q := p + 4 + |b.data|;
      TextIsShort(buf, 0);
      TextIsShort(buf, p);
      TextIsShort(buf, q + 4);
      FromBEBound(buf[q..q + 4]);
    }
  }

  lemma TextIsShort(buf: Bytes, pos: nat)
    ensures TextAt(buf, pos).Some? ==> |TextAt(buf, pos).value| < U32_LIMIT
  {
    hide FromBE;
    WidthLimits();
    if pos + 4 <= |buf| {
      FromBEBound(buf[pos..pos + 4]);
    }
  }

  lemma HeaderReads(b: Block)
    requires |b.previousHash| < U32_LIMIT && |b.data| < U32_LIMIT && |b.minerAddress| < U32_LIMIT
    requires b.difficulty < U32_LIMIT
    ensures ReadHeader(Serialized(b)) == Some(FieldsOf(b))
  {
    hide Serialized, StandsAt, ToBE, StringBytes, FromBE, Pow256, NumberAt, TextAt;
    var buf := Serialized(b);
    var q := 8 + |b.previousHash| + |b.data|;
    var t := q + 8 + |b.minerAddress|;
    WidthLimits();
    FieldsStand(b);
    TextStands(b.previousHash, buf, 0);
    TextStands(b.data, buf, 4 + |b.previousHash|);
    NumberStands(b.difficulty, buf, q, 4);
    TextStands(b.minerAddress, buf, q + 4);
    NumberStands(b.timestamp, buf, t, 8);
    NumberStands(b.nonce, buf, t + 8, 8);
    NumberStands(b.reward, buf, t + 16, 8);
    NumberStands(b.baseFee, buf, t + 24, 8);
    NumberStands(b.gasUsed, buf, t + 32, 8);
  }

  // ---------------------------------------------------------------- what a hash binds

  /** The value of a hexadecimal character, lower case. */
  function HexValue(c: Byte): Option<nat> {
    if '0' as int <= c <= '9' as int then Some(c - '0' as int)
    else if 'a' as int <= c <= 'f' as int then Some(10 + c - 'a' as int)
    else None
  }

  /** Two characters a byte, the high half first. */
  function Unhex(s: Bytes): Option<Bytes> {
    if s == [] then Some([])
    else if |s| == 1 then None
    else
      var high :- HexValue(s[0]);
      var low :- HexValue(s[1]);
      var rest :- Unhex(s[2..]);
      Some([16 * high + low] + rest)
  }

  lemma {:induction false} HexReadsBack(s: Bytes)
    ensures Unhex(Hex(s)) == Some(s)
  {
    if s != [] {
      HexReadsBack(s[1..]);
      assert Hex(s)[2..] == Hex(s[1..]);
      assert s == [s[0]] + s[1..];
    }
  }

  /** A valid block hash is the digest of the header in hexadecimal, and the digest lies below the
      target its difficulty sets. */
  lemma ValidHashExact(keccak: Keccak, b: Block)
    ensures ValidHash(keccak, b) <==>
            && 0 < b.difficulty <= 64
            && Unhex(b.hash) == Some(keccak(Serialized(b))) && b.hash == Hex(keccak(Serialized(b)))
            && FromBE(keccak(Serialized(b))) < Pow2(256 - 4 * b.difficulty)
  {
    hide Serialized, Hex, Unhex, FromBE, Pow2;
    var digest := keccak(Serialized(b));
    HexReadsBack(digest);
    if b.difficulty <= 64 {
      TargetIsNumeric(digest, b.difficulty);
    }
  }

  /** Two blocks valid under one hash agree in all nine fields, unless the digest collides on their
      headers or a length is cut. */
  lemma HashBindsFields(keccak: Keccak, b: Block, c: Block)
    requires ValidHash(keccak, b) && ValidHash(keccak, c) && b.hash == c.hash
    requires keccak(Serialized(b)) == keccak(Serialized(c)) ==> Serialized(b) == Serialized(c)
    requires |b.previousHash| < U32_LIMIT && |b.data| < U32_LIMIT && |b.minerAddress| < U32_LIMIT
    requires |c.previousHash| < U32_LIMIT && |c.data| < U32_LIMIT && |c.minerAddress| < U32_LIMIT
    ensures FieldsOf(b) == FieldsOf(c)
  {
    hide Serialized, Hex, Unhex, FromBE, Pow2, ReadHeader;
    ValidHashExact(keccak, b);
    ValidHashExact(keccak, c);
    HeaderReadsBack(b);
    HeaderReadsBack(c);
  }
}
