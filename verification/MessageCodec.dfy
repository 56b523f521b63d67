/** Framing and serialisation of the P2P protocol (src/message_codec.cpp). */
module MessageCodec {
  import opened Wrappers
  import opened ByteStrings
  import opened ChainTypes
  import Crc32c

  const MAGIC: nat := 0x4D44_524F
  const HEADER_BYTES: nat := 13
  const MAX_FRAME_BYTES: nat := 8 * 1024 * 1024
  const MAX_GAS_LIMIT: U64 := 30_000_000
  const MAX_TX_COUNT: nat := 100_000

  datatype MessageType = TransactionMsg | BlockMsg | Ping | Pong | GetPeers | Peers | TransactionBatch

  datatype Frame = Frame(kind: MessageType, payload: Bytes)

  datatype DecodeError = BadMagic | UnknownType | FrameTooLarge | CrcMismatch

  datatype DecodeResult = Success(frame: Frame, bytesConsumed: nat) | Incomplete | Failure(error: DecodeError)

  // ---------------------------------------------------------------- frames

  function TypeByte(kind: MessageType): Byte {
    match kind
    case TransactionMsg => 1
    case BlockMsg => 2
    case Ping => 3
    case Pong => 4
    case GetPeers => 5
    case Peers => 6
    case TransactionBatch => 7
  }

  function TypeOf(raw: Byte): Option<MessageType> {
    match raw
    case 1 => Some(TransactionMsg)
    case 2 => Some(BlockMsg)
    case 3 => Some(Ping)
    case 4 => Some(Pong)
    case 5 => Some(GetPeers)
    case 6 => Some(Peers)
    case 7 => Some(TransactionBatch)
    case _ => None
  }

  /** The header fields in wire order; the stored checksum is a parameter. */
  function HeaderBytes(kind: MessageType, length: nat, crc: bv32): (r: Bytes)
    ensures |r| == HEADER_BYTES
  {
    ToBE(MAGIC, 4) + [TypeByte(kind)] + ToBE(length, 4) + ToBE(crc as int, 4)
  }

  function FrameBytes(f: Frame): Bytes {
    HeaderBytes(f.kind, |f.payload|, Crc32c.Checksum(f.payload)) + f.payload
  }

  function ParsedFrame(buf: Bytes): DecodeResult {
    if |buf| < HEADER_BYTES then Incomplete
    else if FromBE(buf[0..4]) != MAGIC then Failure(BadMagic)
    else if TypeOf(buf[4]).None? then Failure(UnknownType)
    else
      var payLen := FromBE(buf[5..9]);
      if payLen > MAX_FRAME_BYTES then Failure(FrameTooLarge)
      else if |buf| < HEADER_BYTES + payLen then Incomplete
      else
        var payload := buf[HEADER_BYTES..HEADER_BYTES + payLen];
        if Crc32c.Checksum(payload) as int != FromBE(buf[9..13]) then Failure(CrcMismatch)
        else Success(Frame(TypeOf(buf[4]).value, payload), HEADER_BYTES + payLen)
  }

  lemma HeaderFields(kind: MessageType, length: nat, crc: bv32)
    requires length < U32_LIMIT
    ensures var h := HeaderBytes(kind, length, crc);
            && FromBE(h[0..4]) == MAGIC && TypeOf(h[4]) == Some(kind)
            && FromBE(h[5..9]) == length && FromBE(h[9..13]) == crc as int
  {
    hide TypeOf, TypeByte, FromBE, ToBE;
    var h := HeaderBytes(kind, length, crc);
    assert h[0..4] == ToBE(MAGIC, 4) && h[5..9] == ToBE(length, 4) && h[9..13] == ToBE(crc as int, 4);
    WidthLimits();
    FromToBE(MAGIC, 4);
    FromToBE(length, 4);
    FromToBE(crc as int, 4);
    TypeRoundTrip(kind, h[4]);
  }

  lemma TypeRoundTrip(kind: MessageType, raw: Byte)
    ensures TypeOf(raw) == Some(kind) <==> TypeByte(kind) == raw
  {
  }

  lemma CrcAsIntInjective(a: bv32, b: bv32)
    ensures a as int == b as int <==> a == b
  {
    assert (a as int) as bv32 == a && (b as int) as bv32 == b;
  }

  /** A header that declares the length of what follows it, whatever checksum it stores. */
  lemma HeaderThenPayload(kind: MessageType, crc: bv32, payload: Bytes, rest: Bytes)
    requires |payload| <= MAX_FRAME_BYTES
    ensures ParsedFrame(HeaderBytes(kind, |payload|, crc) + payload + rest) ==
            if crc == Crc32c.Checksum(payload) then Success(Frame(kind, payload), HEADER_BYTES + |payload|)
            else Failure(CrcMismatch)
  {
    hide TypeOf, FromBE, HeaderBytes, Crc32c.Checksum;
    var header := HeaderBytes(kind, |payload|, crc);
    var buf := header + payload + rest;
    HeaderFields(kind, |payload|, crc);
    assert buf[0..4] == header[0..4] && buf[5..9] == header[5..9] && buf[9..13] == header[9..13];
    assert buf[4] == header[4];
    assert buf[13..13 + |payload|] == payload;
    CrcAsIntInjective(crc, Crc32c.Checksum(payload));
  }

  /** decodeFrame succeeds on exactly the buffers that start with an encoded frame. */
  lemma FrameRoundTrip(f: Frame, rest: Bytes)
    requires |f.payload| <= MAX_FRAME_BYTES
    ensures ParsedFrame(FrameBytes(f) + rest) == Success(f, |FrameBytes(f)|)
  {
    HeaderThenPayload(f.kind, Crc32c.Checksum(f.payload), f.payload, rest);
  }

  lemma AcceptedFrameIsEncoded(buf: Bytes)
    requires ParsedFrame(buf).Success?
    ensures var Success(f, n) := ParsedFrame(buf);
            && |f.payload| <= MAX_FRAME_BYTES
            && HEADER_BYTES <= n == |FrameBytes(f)| <= |buf|
            && buf[..n] == FrameBytes(f)
  {
    hide FromBE, ToBE, Crc32c.Checksum;
    var Success(f, n) := ParsedFrame(buf);
    ToFromBE(buf[0..4]);
    ToFromBE(buf[5..9]);
    ToFromBE(buf[9..13]);
    TypeRoundTrip(f.kind, buf[4]);
    assert buf[..n] == buf[0..4] + [buf[4]] + buf[5..9] + buf[9..13] + buf[13..n];
  }

  /** Until the last byte of a frame has arrived the answer is to wait: never an error, never
      another frame. */
  lemma ProperPrefixIncomplete(f: Frame, k: nat)
    requires |f.payload| <= MAX_FRAME_BYTES && k < |FrameBytes(f)|
    ensures ParsedFrame(FrameBytes(f)[..k]) == Incomplete
  {
    hide FromBE, HeaderBytes, Crc32c.Checksum;
    var header := HeaderBytes(f.kind, |f.payload|, Crc32c.Checksum(f.payload));
    var buf := FrameBytes(f)[..k];
    if k >= HEADER_BYTES {
      HeaderFields(f.kind, |f.payload|, Crc32c.Checksum(f.payload));
      assert buf[0..4] == header[0..4] && buf[5..9] == header[5..9] && buf[4] == header[4];
    }
  }

  /** A frame whose payload was damaged inside 32 consecutive bits is rejected by its checksum,
      for every payload length and position. */
  lemma BurstRejected(f: Frame, damaged: Bytes, p: nat, rest: Bytes)
    requires |f.payload| <= MAX_FRAME_BYTES
    requires Crc32c.DifferOnlyInBurst(f.payload, damaged, p) && f.payload != damaged
    ensures ParsedFrame(HeaderBytes(f.kind, |f.payload|, Crc32c.Checksum(f.payload)) + damaged + rest)
            == Failure(CrcMismatch)
  {
    Crc32c.BurstDetected(f.payload, damaged, p);
    HeaderThenPayload(f.kind, Crc32c.Checksum(f.payload), damaged, rest);
  }

  // ---------------------------------------------------------------- streams of frames

  /** A verdict other than "wait" does not change when more bytes arrive. */
  lemma VerdictIsStable(buf: Bytes, more: Bytes)
    requires ParsedFrame(buf) != Incomplete
    ensures ParsedFrame(buf + more) == ParsedFrame(buf)
  {
    hide FromBE, Crc32c.Checksum, TypeOf;
    var longer := buf + more;
    assert longer[0..4] == buf[0..4] && longer[4] == buf[4];
    assert longer[5..9] == buf[5..9] && longer[9..13] == buf[9..13];
    var payLen := FromBE(buf[5..9]);
    if HEADER_BYTES + payLen <= |buf| {
      assert longer[13..13 + payLen] == buf[13..13 + payLen];
    }
  }

  /** Decode, drop bytesConsumed, and again, until the buffer holds no complete frame. */
  function Stream(buf: Bytes): (r: (seq<Frame>, Bytes))
    decreases |buf|
  {
    match ParsedFrame(buf)
    case Success(f, n) =>
      AcceptedFrameIsEncoded(buf);
      var (frames, rest) := Stream(buf[n..]);
      ([f] + frames, rest)
    case _ => ([], buf)
  }

  function FramesBytes(frames: seq<Frame>): Bytes {
    if frames == [] then [] else FrameBytes(frames[0]) + FramesBytes(frames[1..])
  }

  lemma {:induction false} StreamRoundTrip(frames: seq<Frame>, tail: Bytes)
    requires forall f <- frames :: |f.payload| <= MAX_FRAME_BYTES
    requires !ParsedFrame(tail).Success?
    ensures Stream(FramesBytes(frames) + tail) == (frames, tail)
  {
    hide FrameBytes, ParsedFrame;
    if frames == [] {
      assert FramesBytes(frames) + tail == tail;
      assert Stream(tail) == ([], tail);
    } else {
      var f, others := frames[0], frames[1..];
      var buf := FramesBytes(frames) + tail;
      var after := FramesBytes(others) + tail;
      assert buf == FrameBytes(f) + after;
      FrameRoundTrip(f, after);
      assert buf[|FrameBytes(f)|..] == after;
      assert Stream(buf) == ([f] + Stream(after).0, Stream(after).1);
      StreamRoundTrip(others, tail);
      assert frames == [f] + others;
    }
  }

  /** How the bytes were cut into reads does not matter: decoding what is there, keeping the
      remainder and going on when more arrives yields the frames of the whole. */
  lemma {:induction false} ChunkingIsIrrelevant(a: Bytes, b: Bytes)
    ensures var (first, rest) := Stream(a);
            var (second, end) := Stream(rest + b);
            Stream(a + b) == (first + second, end)
    decreases |a|
  {
    hide ParsedFrame, FrameBytes;
    match ParsedFrame(a)
    case Success(f, n) =>
      AcceptedFrameIsEncoded(a);
      VerdictIsStable(a, b);
      assert (a + b)[n..] == a[n..] + b;
      ChunkingIsIrrelevant(a[n..], b);
      var (first, rest) := Stream(a[n..]);
      var (second, _) := Stream(rest + b);
      assert [f] + (first + second) == [f] + first + second;
    case _ =>
      var (second, _) := Stream(a + b);
      assert [] + second == second;
  }

  // ---------------------------------------------------------------- the frame functions

  lemma FilledHeader(start: Bytes, m: Bytes, t: Bytes, l: Bytes, c: Bytes)
    requires |m| == 4 && |t| == 1 && |l| == 4 && |c| == 4
    ensures var one := Patched(start + Zeros(HEADER_BYTES), |start|, m);
            var two := Patched(one, |start| + 4, t);
            var three := Patched(two, |start| + 5, l);
            Patched(three, |start| + 9, c) == start + (m + t + l + c)
  {
    hide Patched, Zeros;
    PatchGap(start, 13, m);
    PatchGap(start + m, 9, t);
    PatchGap(start + m + t, 8, l);
    PatchGap(start + m + t + l, 4, c);
    assert start + m + t + l + c + Zeros(0) == start + (m + t + l + c);
  }

  method AppendHeader(kind: MessageType, length: nat, crc: bv32, out: Buffer)
    modifies out
    ensures out.data == old(out.data) + HeaderBytes(kind, length, crc)
  {
    hide ToBE, Patched, Zeros;
    var hdr := |out.data|;
    var magicBytes := WriteBE(MAGIC, 4);
    var lengthBytes := WriteBE(length, 4);
    var crcBytes := WriteBE(crc as int, 4);
    FilledHeader(out.data, magicBytes, [TypeByte(kind)], lengthBytes, crcBytes);
    out.Grow(HEADER_BYTES);
    out.Patch(hdr, magicBytes);
    out.Patch(hdr + 4, [TypeByte(kind)]);
    out.Patch(hdr + 5, lengthBytes);
    out.Patch(hdr + 9, crcBytes);
  }

  method EncodeFrame(f: Frame, out: Buffer) returns (ok: bool)
    modifies out
    ensures ok <==> |f.payload| <= MAX_FRAME_BYTES
    ensures out.data == old(out.data) + (if ok then FrameBytes(f) else [])
  {
    hide HeaderBytes, Crc32c.Checksum;
    if |f.payload| > MAX_FRAME_BYTES {
      return false;
    }
    var checksum := Crc32c.Compute(f.payload);
    ghost var header := HeaderBytes(f.kind, |f.payload|, checksum);
    AppendHeader(f.kind, |f.payload|, checksum, out);
    out.Append(f.payload);
    assert old(out.data) + header + f.payload == old(out.data) + (header + f.payload);
    return true;
  }

  method DecodeFrame(buf: Bytes) returns (r: DecodeResult)
    ensures r == ParsedFrame(buf)
  {
    if |buf| < HEADER_BYTES {
      return Incomplete;
    }
    var magic := ReadBE(buf[0..4]);
    if magic != MAGIC {
      return Failure(BadMagic);
    }
    var kind := TypeOf(buf[4]);
    if kind.None? {
      return Failure(UnknownType);
    }
    var payLen := ReadBE(buf[5..9]);
    if payLen > MAX_FRAME_BYTES {
      return Failure(FrameTooLarge);
    }
    if |buf| < HEADER_BYTES + payLen {
      return Incomplete;
    }
    var storedCrc := ReadBE(buf[9..13]);
    var payload := buf[HEADER_BYTES..HEADER_BYTES + payLen];
    var computedCrc := Crc32c.Compute(payload);
    if computedCrc as int != storedCrc {
      return Failure(CrcMismatch);
    }
    return Success(Frame(kind.value, payload), HEADER_BYTES + payLen);
  }

  // ---------------------------------------------------------------- transactions

  /** The encoded fields in wire order. Inputs and outputs are not among them. */
  function TxParts(tx: Transaction): seq<Bytes> {
    [ToBE(tx.chainId, 8), ToBE(tx.nonce, 8), ToBE(tx.maxPriorityFeePerGas, 8), ToBE(tx.maxFeePerGas, 8),
     ToBE(tx.gasLimit, 8), ToBE(tx.value, 8), ToBE(tx.v, 8),
     StringBytes(tx.toAddress), StringBytes(tx.txHash), tx.r, tx.s, StringBytes(tx.data)]
  }

  function TxBytes(tx: Transaction): Bytes {
    Joined(TxParts(tx))
  }

  /** What of a transaction is on the wire. */
  function TxOnWire(tx: Transaction): Transaction {
    tx.(inputs := [], outputs := [])
  }

  predicate TxEncodable(tx: Transaction) {
    |tx.toAddress| <= MAX_FRAME_BYTES && |tx.txHash| <= MAX_FRAME_BYTES && |tx.data| <= MAX_FRAME_BYTES
  }

  function U64At(buf: Bytes, pos: nat): Option<U64> {
    if pos + 8 > |buf| then None else
    WidthLimits();
    FromBEBound(buf[pos..pos + 8]);
    Some(FromBE(buf[pos..pos + 8]))
  }

  function StringAt(buf: Bytes, pos: nat): (r: Option<Bytes>)
    ensures r.Some? ==> pos + 4 + |r.value| <= |buf|
  {
    if pos + 4 > |buf| then None else
    var len := FromBE(buf[pos..pos + 4]);
    if len > MAX_FRAME_BYTES || pos + 4 + len > |buf| then None
    else Some(buf[pos + 4..pos + 4 + len])
  }

  function ParsedTx(buf: Bytes): Option<Transaction> {
    if |buf| < 60 then None else
    var chainId :- U64At(buf, 0);
    var nonce :- U64At(buf, 8);
    var maxPriorityFeePerGas :- U64At(buf, 16);
    var maxFeePerGas :- U64At(buf, 24);
    var gasLimit :- U64At(buf, 32);
    var value :- U64At(buf, 40);
    var v :- U64At(buf, 48);
    var toAddress :- StringAt(buf, 56);
    var p := 60 + |toAddress|;
    var txHash :- StringAt(buf, p);
    var q := p + 4 + |txHash|;
    if q + 64 > |buf| then None else
    var r: Bytes32 := buf[q..q + 32];
    var s: Bytes32 := buf[q + 32..q + 64];
    var data :- StringAt(buf, q + 64);
    Some(Transaction(chainId, nonce, maxPriorityFeePerGas, maxFeePerGas, gasLimit, toAddress, value, data,
                     [], [], v, r, s, txHash))
  }

  lemma U64Stands(v: U64, buf: Bytes, pos: nat)
    ensures StandsAt(ToBE(v, 8), buf, pos) <==> U64At(buf, pos) == Some(v)
  {
    WidthLimits();
    FromToBE(v, 8);
    if pos + 8 <= |buf| {
      ToFromBE(buf[pos..pos + 8]);
    }
  }

  lemma StringStands(s: Bytes, buf: Bytes, pos: nat)
    ensures StringAt(buf, pos) == Some(s) <==> StandsAt(StringBytes(s), buf, pos) && |s| <= MAX_FRAME_BYTES
  {
    WidthLimits();
    if pos + 4 <= |buf| {
      ToFromBE(buf[pos..pos + 4]);
    }
    if StandsAt(StringBytes(s), buf, pos) && |s| <= MAX_FRAME_BYTES {
      FromToBE(|s|, 4);
      StandsAtParts(ToBE(|s|, 4), s, buf, pos);
    }
    if StringAt(buf, pos) == Some(s) {
      assert buf[pos..pos + 4 + |s|] == buf[pos..pos + 4] + buf[pos + 4..pos + 4 + |s|];
    }
  }

  /** Where each field of an encoded transaction stands. */
  lemma TxFieldsStand(tx: Transaction, buf: Bytes)
    ensures var p := 60 + |tx.toAddress|;
            var q := p + 4 + |tx.txHash|;
            StandsAt(TxBytes(tx), buf, 0)
            <==> && StandsAt(ToBE(tx.chainId, 8), buf, 0) && StandsAt(ToBE(tx.nonce, 8), buf, 8)
                 && StandsAt(ToBE(tx.maxPriorityFeePerGas, 8), buf, 16) && StandsAt(ToBE(tx.maxFeePerGas, 8), buf, 24)
                 && StandsAt(ToBE(tx.gasLimit, 8), buf, 32) && StandsAt(ToBE(tx.value, 8), buf, 40)
                 && StandsAt(ToBE(tx.v, 8), buf, 48) && StandsAt(StringBytes(tx.toAddress), buf, 56)
                 && StandsAt(StringBytes(tx.txHash), buf, p) && StandsAt(tx.r, buf, q)
                 && StandsAt(tx.s, buf, q + 32) && StandsAt(StringBytes(tx.data), buf, q + 64)
  {
    hide StandsAt, ToBE, StringBytes, Joined;
    var parts := TxParts(tx);
    var q := 64 + |tx.toAddress| + |tx.txHash|;
    assert parts[0..] == parts;
    NextPart(parts, 0, buf, 0);
    NextPart(parts, 1, buf, 8);
    NextPart(parts, 2, buf, 16);
    NextPart(parts, 3, buf, 24);
    NextPart(parts, 4, buf, 32);
    NextPart(parts, 5, buf, 40);
    NextPart(parts, 6, buf, 48);
    NextPart(parts, 7, buf, 56);
    NextPart(parts, 8, buf, 60 + |tx.toAddress|);
    NextPart(parts, 9, buf, q);
    NextPart(parts, 10, buf, q + 32);
    NextPart(parts, 11, buf, q + 64);
    assert parts[12..] == [];
    NothingStands(buf, q + 68 + |tx.data|);
    if StandsAt(StringBytes(tx.data), buf, q + 64) {
      StandsInside(StringBytes(tx.data), buf, q + 64);
    }
  }

  lemma NothingStands(buf: Bytes, pos: nat)
    ensures StandsAt(Joined([]), buf, pos) <==> pos <= |buf|
  {
  }

  lemma StandsInside(s: Bytes, buf: Bytes, pos: nat)
    requires StandsAt(s, buf, pos)
    ensures pos + |s| <= |buf|
  {
  }

  lemma WireLength(tx: Transaction)
    ensures |TxBytes(tx)| == 132 + |tx.toAddress| + |tx.txHash| + |tx.data|
  {
    hide ToBE, Joined, StringBytes;
    var parts := TxParts(tx);
    assert parts[0..] == parts;
    WireTail(tx, parts);
    EightEach(parts, 7);
  }

  lemma {:induction false} EightEach(parts: seq<Bytes>, k: nat)
    requires k <= |parts| && forall i :: 0 <= i < k ==> |parts[i]| == 8
    ensures |Joined(parts)| == 8 * k + |Joined(parts[k..])|
  {
    hide Joined;
    if k == 0 {
      assert parts[0..] == parts;
    } else {
      EightEach(parts, k - 1);
      JoinedNext(parts, k - 1);
    }
  }

  lemma WireTail(tx: Transaction, parts: seq<Bytes>)
    requires parts == TxParts(tx)
    ensures |Joined(parts[7..])| == 76 + |tx.toAddress| + |tx.txHash| + |tx.data|
  {
    hide ToBE, Joined, StringBytes;
    NothingToAppend([], parts);
    JoinedNext(parts, 11);
    JoinedNext(parts, 10);
    JoinedNext(parts, 9);
    JoinedNext(parts, 8);
    JoinedNext(parts, 7);
  }

  lemma JoinedNext(parts: seq<Bytes>, k: nat)
    requires k < |parts|
    ensures |Joined(parts[k..])| == |parts[k]| + |Joined(parts[k + 1..])|
  {
    assert parts[k..][1..] == parts[k + 1..];
  }

  /** decodeTransaction accepts exactly the buffers that start with the encoding of a
      transaction whose strings are within the cap, and returns what of it is on the wire. */
  lemma TxAccepted(tx: Transaction, buf: Bytes)
    ensures ParsedTx(buf) == Some(tx)
            <==> StandsAt(TxBytes(tx), buf, 0) && TxEncodable(tx) && tx == TxOnWire(tx)
  {
    hide TxBytes, U64At, StringAt, StringBytes, ToBE;
    TxFieldsStand(tx, buf);
    U64Stands(tx.chainId, buf, 0);
    U64Stands(tx.nonce, buf, 8);
    U64Stands(tx.maxPriorityFeePerGas, buf, 16);
    U64Stands(tx.maxFeePerGas, buf, 24);
    U64Stands(tx.gasLimit, buf, 32);
    U64Stands(tx.value, buf, 40);
    U64Stands(tx.v, buf, 48);
    StringStands(tx.toAddress, buf, 56);
    StringStands(tx.txHash, buf, 60 + |tx.toAddress|);
    StringStands(tx.data, buf, 128 + |tx.toAddress| + |tx.txHash|);
  }

  /** A transaction survives the wire, without its inputs and outputs, exactly when its three
      strings are within the cap. */
  lemma TxRoundTrip(tx: Transaction, rest: Bytes)
    ensures ParsedTx(TxBytes(tx) + rest) == Some(TxOnWire(tx)) <==> TxEncodable(tx)
  {
    var buf := TxBytes(tx) + rest;
    assert TxBytes(TxOnWire(tx)) == TxBytes(tx);
    assert buf[0..|TxBytes(tx)|] == TxBytes(tx);
    hide TxBytes;
    TxAccepted(TxOnWire(tx), buf);
  }

  // ---------------------------------------------------------------- blocks

  function TxsBytes(txs: seq<Transaction>): Bytes {
    if txs == [] then [] else ToBE(|TxBytes(txs[0])|, 4) + TxBytes(txs[0]) + TxsBytes(txs[1..])
  }

  function BlockParts(b: Block): seq<Bytes> {
    [StringBytes(b.hash), StringBytes(b.previousHash), ToBE(b.timestamp, 8), ToBE(b.reward, 8),
     ToBE(b.baseFee, 8), ToBE(|b.transactions|, 4), TxsBytes(b.transactions)]
  }

  function BlockBytes(b: Block): Bytes {
    Joined(BlockParts(b))
  }

  function TxsOnWire(txs: seq<Transaction>): (r: seq<Transaction>)
    ensures |r| == |txs|
  {
    if txs == [] then [] else [TxOnWire(txs[0])] + TxsOnWire(txs[1..])
  }

  /** What of a block is on the wire; the other fields come back as Block() sets them. */
  function BlockOnWire(b: Block): Block {
    Block(b.previousHash, [], 0, [], b.timestamp, 0, b.reward, b.baseFee, 0, MAX_GAS_LIMIT, b.hash, [],
          TxsOnWire(b.transactions))
  }

  predicate BlockEncodable(b: Block) {
    && |b.hash| <= MAX_FRAME_BYTES && |b.previousHash| <= MAX_FRAME_BYTES
    && |b.transactions| <= MAX_TX_COUNT
    && forall tx <- b.transactions :: |TxBytes(tx)| <= MAX_FRAME_BYTES
  }

  function ParsedTxs(buf: Bytes, pos: nat, count: nat): (r: Option<seq<Transaction>>)
    ensures r.Some? ==> |r.value| == count
    decreases count
  {
    if count == 0 then Some([])
    else if pos + 4 > |buf| then None
    else
      var tlen := FromBE(buf[pos..pos + 4]);
      if tlen > MAX_FRAME_BYTES || pos + 4 + tlen > |buf| then None else
      var tx :- ParsedTx(buf[pos + 4..pos + 4 + tlen]);
      var others :- ParsedTxs(buf, pos + 4 + tlen, count - 1);
      Some([tx] + others)
  }

  function ParsedBlock(buf: Bytes): Option<Block> {
    if |buf| < 16 then None else
    var hash :- StringAt(buf, 0);
    var p := 4 + |hash|;
    var previousHash :- StringAt(buf, p);
    var q := p + 4 + |previousHash|;
    var timestamp :- U64At(buf, q);
    var reward :- U64At(buf, q + 8);
    var baseFee :- U64At(buf, q + 16);
    if q + 28 > |buf| then None else
    var txCount := FromBE(buf[q + 24..q + 28]);
    if txCount > MAX_TX_COUNT then None else
    var transactions :- ParsedTxs(buf, q + 28, txCount);
    Some(Block(previousHash, [], 0, [], timestamp, 0, reward, baseFee, 0, MAX_GAS_LIMIT, hash, [], transactions))
  }

  lemma {:induction false} TxsRoundTrip(txs: seq<Transaction>, buf: Bytes, pos: nat)
    requires forall tx <- txs :: |TxBytes(tx)| <= MAX_FRAME_BYTES
    requires StandsAt(TxsBytes(txs), buf, pos)
    ensures ParsedTxs(buf, pos, |txs|) == Some(TxsOnWire(txs))
    decreases txs
  {
    hide TxBytes, ParsedTx, TxOnWire, ToBE, FromBE;
    if txs != [] {
      var body := TxBytes(txs[0]);
      var prefix := ToBE(|body|, 4);
      StandsAtParts(prefix + body, TxsBytes(txs[1..]), buf, pos);
      StandsAtParts(prefix, body, buf, pos);
      WidthLimits();
      FromToBE(|body|, 4);
      TxFits(txs[0]);
      TxRoundTrip(txs[0], []);
      assert body + [] == body;
      TxsRoundTrip(txs[1..], buf, pos + 4 + |body|);
    }
  }

  /** A transaction within the frame cap has its strings within it too. */
  lemma TxFits(tx: Transaction)
    requires |TxBytes(tx)| <= MAX_FRAME_BYTES
    ensures TxEncodable(tx)
  {
    TxFieldsStand(tx, TxBytes(tx));
    StandsInside(StringBytes(tx.toAddress), TxBytes(tx), 56);
    StandsInside(StringBytes(tx.txHash), TxBytes(tx), 60 + |tx.toAddress|);
    StandsInside(StringBytes(tx.data), TxBytes(tx), 128 + |tx.toAddress| + |tx.txHash|);
  }

  lemma {:induction false} ParsedTxsRange(buf: Bytes, pos: nat, count: nat)
    requires ParsedTxs(buf, pos, count).Some?
    ensures forall tx <- ParsedTxs(buf, pos, count).value :: |TxBytes(tx)| <= MAX_FRAME_BYTES
    decreases count
  {
    hide TxBytes, ParsedTx, FromBE;
    if count > 0 {
      var tlen := FromBE(buf[pos..pos + 4]);
      var window := buf[pos + 4..pos + 4 + tlen];
      TxAccepted(ParsedTx(window).value, window);
      ParsedTxsRange(buf, pos + 4 + tlen, count - 1);
    }
  }

  /** Whatever decodeBlock returns, its strings, count and transactions are within the caps. */
  lemma ParsedBlockRange(buf: Bytes)
    requires ParsedBlock(buf).Some?
    ensures BlockEncodable(ParsedBlock(buf).value)
  {
    hide FromBE, TxBytes;
    var hash := StringAt(buf, 0).value;
    var previousHash := StringAt(buf, 4 + |hash|).value;
    var q := 8 + |hash| + |previousHash|;
    StringStands(hash, buf, 0);
    StringStands(previousHash, buf, 4 + |hash|);
    ParsedTxsRange(buf, q + 28, FromBE(buf[q + 24..q + 28]));
  }

  lemma BlockFieldsStand(b: Block, buf: Bytes)
    requires StandsAt(BlockBytes(b), buf, 0)
    ensures var p := 4 + |b.hash|;
            var q := p + 4 + |b.previousHash|;
            && StandsAt(StringBytes(b.hash), buf, 0) && StandsAt(StringBytes(b.previousHash), buf, p)
            && StandsAt(ToBE(b.timestamp, 8), buf, q) && StandsAt(ToBE(b.reward, 8), buf, q + 8)
            && StandsAt(ToBE(b.baseFee, 8), buf, q + 16) && StandsAt(ToBE(|b.transactions|, 4), buf, q + 24)
            && StandsAt(TxsBytes(b.transactions), buf, q + 28)
  {
    hide StandsAt, ToBE, StringBytes, Joined, TxsBytes;
    var parts := BlockParts(b);
    var q := 8 + |b.hash| + |b.previousHash|;
    assert parts[0..] == parts;
    NextPart(parts, 0, buf, 0);
    NextPart(parts, 1, buf, 4 + |b.hash|);
    NextPart(parts, 2, buf, q);
    NextPart(parts, 3, buf, q + 8);
    NextPart(parts, 4, buf, q + 16);
    NextPart(parts, 5, buf, q + 24);
    NextPart(parts, 6, buf, q + 28);
  }

  lemma BlockDecodes(b: Block, buf: Bytes)
    requires BlockEncodable(b) && StandsAt(BlockBytes(b), buf, 0)
    ensures ParsedBlock(buf) == Some(BlockOnWire(b))
  {
    hide BlockBytes, U64At, StringAt, StringBytes, ToBE, FromBE, TxBytes, TxsBytes, TxsOnWire, ParsedTxs;
    var q := 8 + |b.hash| + |b.previousHash|;
    BlockFieldsStand(b, buf);
    StringStands(b.hash, buf, 0);
    StringStands(b.previousHash, buf, 4 + |b.hash|);
    U64Stands(b.timestamp, buf, q);
    U64Stands(b.reward, buf, q + 8);
    U64Stands(b.baseFee, buf, q + 16);
    WidthLimits();
    FromToBE(|b.transactions|, 4);
    TxsRoundTrip(b.transactions, buf, q + 28);
  }

  lemma {:induction false} TxsOnWireBytes(txs: seq<Transaction>)
    ensures forall i :: 0 <= i < |txs| ==> TxBytes(TxsOnWire(txs)[i]) == TxBytes(txs[i])
  {
    if txs != [] {
      assert TxBytes(TxOnWire(txs[0])) == TxBytes(txs[0]);
      hide TxBytes;
      TxsOnWireBytes(txs[1..]);
    }
  }

  /** A block survives the wire, reduced to its encoded fields, exactly when its strings and
      every encoded transaction are within the frame cap and the count within its own. */
  lemma BlockRoundTrip(b: Block)
    ensures ParsedBlock(BlockBytes(b)) == Some(BlockOnWire(b)) <==> BlockEncodable(b)
  {
    hide BlockBytes, ParsedBlock, TxBytes;
    var buf := BlockBytes(b);
    if BlockEncodable(b) {
      assert buf[0..|buf|] == buf;
      BlockDecodes(b, buf);
    }
    if ParsedBlock(buf) == Some(BlockOnWire(b)) {
      ParsedBlockRange(buf);
      TxsOnWireBytes(b.transactions);
      forall tx <- b.transactions
        ensures |TxBytes(tx)| <= MAX_FRAME_BYTES
      {
        var i :| 0 <= i < |b.transactions| && b.transactions[i] == tx;
        assert TxsOnWire(b.transactions)[i] in BlockOnWire(b).transactions;
      }
    }
  }

  // ---------------------------------------------------------------- the encoders

  method AppendUint64(out: Buffer, v: U64)
    modifies out
    ensures out.data == old(out.data) + ToBE(v, 8)
  {
    hide ToBE, Patched, Zeros;
    var pos := |out.data|;
    var bytes := WriteBE(v, 8);
    PatchGap(out.data, 8, bytes);
    out.Grow(8);
    out.Patch(pos, bytes);
    assert old(out.data) + bytes + Zeros(0) == old(out.data) + bytes;
  }

  method AppendString(out: Buffer, s: Bytes)
    modifies out
    ensures out.data == old(out.data) + StringBytes(s)
  {
    hide ToBE, Patched, Zeros;
    var pos := |out.data|;
    var prefix := WriteBE(|s|, 4);
    PatchGap(out.data, 4 + |s|, prefix);
    PatchGap(out.data + prefix, |s|, s);
    out.Grow(4 + |s|);
    out.Patch(pos, prefix);
    if s != [] {
      out.Patch(pos + 4, s);
    }
    assert old(out.data) + prefix + s + Zeros(0) == old(out.data) + (prefix + s);
  }

  method EncodeTransaction(tx: Transaction, out: Buffer)
    modifies out
    ensures out.data == old(out.data) + TxBytes(tx)
  {
    hide Joined, ToBE, StringBytes;
    ghost var parts := TxParts(tx);
    assert parts[0..] == parts;
    AppendPart(out.data, parts, 0);
    AppendUint64(out, tx.chainId);
    AppendPart(out.data, parts, 1);
    AppendUint64(out, tx.nonce);
    AppendPart(out.data, parts, 2);
    AppendUint64(out, tx.maxPriorityFeePerGas);
    AppendPart(out.data, parts, 3);
    AppendUint64(out, tx.maxFeePerGas);
    AppendPart(out.data, parts, 4);
    AppendUint64(out, tx.gasLimit);
    AppendPart(out.data, parts, 5);
    AppendUint64(out, tx.value);
    AppendPart(out.data, parts, 6);
    AppendUint64(out, tx.v);
    AppendPart(out.data, parts, 7);
    AppendString(out, tx.toAddress);
    AppendPart(out.data, parts, 8);
    AppendString(out, tx.txHash);
    AppendPart(out.data, parts, 9);
    out.Append(tx.r);
    AppendPart(out.data, parts, 10);
    out.Append(tx.s);
    AppendPart(out.data, parts, 11);
    AppendString(out, tx.data);
    NothingToAppend(out.data, parts);
  }

  /** One turn of encodeBlock's loop: a placeholder, the transaction, then the length patched
      back over the placeholder. */
  method AppendTransaction(tx: Transaction, out: Buffer)
    modifies out
    ensures out.data == old(out.data) + (ToBE(|TxBytes(tx)|, 4) + TxBytes(tx))
  {
    hide TxBytes, ToBE;
    var beforeTx := |out.data|;
    out.Grow(4);
    EncodeTransaction(tx, out);
    var tlen := WriteBE(|out.data| - beforeTx - 4, 4);
    out.Patch(beforeTx, tlen);
  }

  method EncodeBlock(b: Block, out: Buffer)
    modifies out
    ensures out.data == old(out.data) + BlockBytes(b)
  {
    hide Joined, ToBE, StringBytes, TxBytes, TxsBytes;
    ghost var parts := BlockParts(b);
    assert parts[0..] == parts;
    AppendPart(out.data, parts, 0);
    AppendString(out, b.hash);
    AppendPart(out.data, parts, 1);
    AppendString(out, b.previousHash);
    AppendPart(out.data, parts, 2);
    AppendUint64(out, b.timestamp);
    AppendPart(out.data, parts, 3);
    AppendUint64(out, b.reward);
    AppendPart(out.data, parts, 4);
    AppendUint64(out, b.baseFee);
    AppendPart(out.data, parts, 5);
    var txCount := WriteBE(|b.transactions|, 4);
    out.Append(txCount);
    AppendPart(out.data, parts, 6);
    AppendTransactions(b.transactions, out);
    NothingToAppend(out.data, parts);
  }

  method AppendTransactions(txs: seq<Transaction>, out: Buffer)
    modifies out
    ensures out.data == old(out.data) + TxsBytes(txs)
  {
    hide ToBE, TxBytes, TxsBytes;
    for i := 0 to |txs|
      invariant out.data + TxsBytes(txs[i..]) == old(out.data) + TxsBytes(txs)
    {
      NextTx(out.data, txs, i);
      AppendTransaction(txs[i], out);
    }
    NoTxLeft(out.data, txs);
  }

  lemma NextTx(done: Bytes, txs: seq<Transaction>, i: nat)
    requires i < |txs|
    ensures done + TxsBytes(txs[i..])
            == done + (ToBE(|TxBytes(txs[i])|, 4) + TxBytes(txs[i])) + TxsBytes(txs[i + 1..])
  {
    hide ToBE, TxBytes;
    assert txs[i..][1..] == txs[i + 1..];
  }

  lemma NoTxLeft(done: Bytes, txs: seq<Transaction>)
    ensures done + TxsBytes(txs[|txs|..]) == done
  {
  }

  // ---------------------------------------------------------------- the decoders

  method ReadUint64Safe(buf: Bytes, pos: nat) returns (r: Option<U64>)
    ensures r == U64At(buf, pos)
  {
    if pos + 8 > |buf| {
      return None;
    }
    var v := ReadBE(buf[pos..pos + 8]);
    WidthLimits();
    FromBEBound(buf[pos..pos + 8]);
    return Some(v);
  }

  method ReadStringSafe(buf: Bytes, pos: nat) returns (r: Option<Bytes>)
    ensures r == StringAt(buf, pos)
  {
    if pos + 4 > |buf| {
      return None;
    }
    var len := ReadBE(buf[pos..pos + 4]);
    var at := pos + 4;
    if len > MAX_FRAME_BYTES {
      return None;
    }
    if at + len > |buf| {
      return None;
    }
    return Some(buf[at..at + len]);
  }

  method DecodeTransaction(buf: Bytes) returns (r: Option<Transaction>)
    ensures r == ParsedTx(buf)
  {
    hide U64At, StringAt;
    if |buf| < 60 {
      return None;
    }
    var pos := 0;
    var chainId :- ReadUint64Safe(buf, pos);
    pos := pos + 8;
    var nonce :- ReadUint64Safe(buf, pos);
    pos := pos + 8;
    var maxPriorityFeePerGas :- ReadUint64Safe(buf, pos);
    pos := pos + 8;
    var maxFeePerGas :- ReadUint64Safe(buf, pos);
    pos := pos + 8;
    var gasLimit :- ReadUint64Safe(buf, pos);
    pos := pos + 8;
    var value :- ReadUint64Safe(buf, pos);
    pos := pos + 8;
    var v :- ReadUint64Safe(buf, pos);
    pos := pos + 8;
    var toAddress :- ReadStringSafe(buf, pos);
    pos := pos + 4 + |toAddress|;
    var txHash :- ReadStringSafe(buf, pos);
    pos := pos + 4 + |txHash|;
    if pos + 64 > |buf| {
      return None;
    }
    var sigR: Bytes32, sigS: Bytes32 := buf[pos..pos + 32], buf[pos + 32..pos + 64];
    pos := pos + 64;
    var data :- ReadStringSafe(buf, pos);
    return Some(Transaction(chainId, nonce, maxPriorityFeePerGas, maxFeePerGas, gasLimit, toAddress, value, data,
                            [], [], v, sigR, sigS, txHash));
  }

  method DecodeBlock(buf: Bytes) returns (r: Option<Block>)
    ensures r == ParsedBlock(buf)
  {
    hide U64At, StringAt, ParsedTxs;
    if |buf| < 16 {
      return None;
    }
    var pos := 0;
    var hash :- ReadStringSafe(buf, pos);
    pos := pos + 4 + |hash|;
    var previousHash :- ReadStringSafe(buf, pos);
    pos := pos + 4 + |previousHash|;
    var timestamp :- ReadUint64Safe(buf, pos);
    pos := pos + 8;
    var reward :- ReadUint64Safe(buf, pos);
    pos := pos + 8;
    var baseFee :- ReadUint64Safe(buf, pos);
    pos := pos + 8;
    if pos + 4 > |buf| {
      return None;
    }
    var txCount := ReadBE(buf[pos..pos + 4]);
    pos := pos + 4;
    if txCount > MAX_TX_COUNT {
      return None;
    }
    var transactions :- DecodeTransactions(buf, pos, txCount);
    return Some(Block(previousHash, [], 0, [], timestamp, 0, reward, baseFee, 0, MAX_GAS_LIMIT, hash, [],
                      transactions));
  }

  /** decodeBlock's loop over the announced count. */
  method DecodeTransactions(buf: Bytes, start: nat, txCount: nat) returns (r: Option<seq<Transaction>>)
    ensures r == ParsedTxs(buf, start, txCount)
  {
    hide ParsedTx;
    var pos: nat := start;
    var txs: seq<Transaction> := [];
    assert forall s: seq<Transaction> :: [] + s == s;
    for i := 0 to txCount
      invariant ParsedTxs(buf, start, txCount) == Prepend(txs, ParsedTxs(buf, pos, txCount - i))
    {
      if pos + 4 > |buf| {
        return None;
      }
      var tlen := ReadBE(buf[pos..pos + 4]);
      pos := pos + 4;
      if tlen > MAX_FRAME_BYTES || pos + tlen > |buf| {
        return None;
      }
      var txOpt := DecodeTransaction(buf[pos..pos + tlen]);
      if txOpt.None? {
        return None;
      }
      PrependPush(txs, txOpt.value, ParsedTxs(buf, pos + tlen, txCount - i - 1));
      txs := txs + [txOpt.value];
      pos := pos + tlen;
    }
    assert txs + [] == txs;
    return Some(txs);
  }

  ghost function Prepend(done: seq<Transaction>, rest: Option<seq<Transaction>>): Option<seq<Transaction>> {
    if rest.None? then None else Some(done + rest.value)
  }

  lemma PrependPush(done: seq<Transaction>, tx: Transaction, rest: Option<seq<Transaction>>)
    ensures rest.Some? ==> Prepend(done, Some([tx] + rest.value)) == Prepend(done + [tx], rest)
  {
    if rest.Some? {
      assert done + ([tx] + rest.value) == done + [tx] + rest.value;
    }
  }
}
