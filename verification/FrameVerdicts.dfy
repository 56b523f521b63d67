/** Which bytes decodeFrame waits on, refuses or takes, and the layout of a frame
    (src/message_codec.cpp:107-202, include/message_codec.h:10-14, 49-62). */
module FrameVerdicts {
  import opened Wrappers
  import opened ByteStrings
  import opened ChainTypes
  import opened MessageCodec
  import Crc32c

  /** A frame header with any four bytes in the place of the checksum. */
  function HeaderWith(kind: MessageType, length: nat, stored: Bytes): Bytes {
    ToBE(MAGIC, 4) + [TypeByte(kind)] + ToBE(length, 4) + stored
  }

  lemma MagicBytes(s: Bytes)
    requires |s| == 4
    ensures FromBE(s) == MAGIC <==> s == [0x4D, 0x44, 0x52, 0x4F]
    ensures ToBE(MAGIC, 4) == [0x4D, 0x44, 0x52, 0x4F]
  {
    var letters: Bytes := [0x4D, 0x44, 0x52, 0x4F];
    assert letters[..3] == [0x4D, 0x44, 0x52] && letters[..3][..2] == [0x4D, 0x44] && letters[..3][..2][..1] == [0x4D];
    assert FromBE([0x4D]) == 0x4D by { assert [0x4D][..0] == []; }
    assert FromBE([0x4D, 0x44]) == 0x4D44;
    assert FromBE(letters[..3]) == 0x4D_4452;
    ToFromBE(s);
    ToFromBE(letters);
  }

  /** The type bytes of the protocol. */
  lemma TypeCodes(raw: Byte)
    ensures TypeByte(TransactionMsg) == 1 && TypeByte(BlockMsg) == 2 && TypeByte(Ping) == 3 && TypeByte(Pong) == 4
    ensures TypeByte(GetPeers) == 5 && TypeByte(Peers) == 6 && TypeByte(TransactionBatch) == 7
    ensures TypeOf(raw).Some? <==> 1 <= raw <= 7
    ensures TypeOf(raw).Some? ==> TypeByte(TypeOf(raw).value) == raw
  {
  }

  /** The caps of the wire format. */
  lemma CapValues(b: Block)
    ensures MAX_FRAME_BYTES == 8 * 1024 * 1024 && HEADER_BYTES == 13
    ensures BlockEncodable(b) ==> |b.transactions| <= 100_000
    ensures (&& |b.transactions| <= 100_000 && |b.hash| <= 8_388_608 && |b.previousHash| <= 8_388_608
             && forall tx <- b.transactions :: |TxBytes(tx)| <= 8_388_608) ==> BlockEncodable(b)
  {
  }

  /** What stands where in an encoded frame. */
  lemma FrameLayout(f: Frame)
    requires |f.payload| < U32_LIMIT
    ensures var buf := FrameBytes(f);
            && |buf| == 13 + |f.payload|
            && buf[0..4] == [0x4D, 0x44, 0x52, 0x4F] && TypeOf(buf[4]) == Some(f.kind)
            && FromBE(buf[5..9]) == |f.payload| && FromBE(buf[9..13]) == Crc32c.Checksum(f.payload) as int
            && buf[13..] == f.payload
  {
    hide FromBE, ToBE, Crc32c.Checksum, HeaderBytes;
    var crc := Crc32c.Checksum(f.payload);
    HeaderFields(f.kind, |f.payload|, crc);
    var header := HeaderBytes(f.kind, |f.payload|, crc);
    var buf := FrameBytes(f);
    assert buf == header + f.payload;
    assert buf[0..4] == header[0..4] && buf[4] == header[4] && buf[5..9] == header[5..9] && buf[9..13] == header[9..13];
    MagicBytes(buf[0..4]);
  }

  /** The verdict on a header: each of the three early errors for exactly these thirteen bytes, and
      waiting only for a payload within the cap that is not all there. */
  lemma HeaderVerdict(buf: Bytes)
    requires |buf| >= 13
    ensures var magic, known, len := buf[0..4] == [0x4D, 0x44, 0x52, 0x4F], 1 <= buf[4] <= 7, FromBE(buf[5..9]);
            && (ParsedFrame(buf) == Failure(BadMagic) <==> !magic)
            && (ParsedFrame(buf) == Failure(UnknownType) <==> magic && !known)
            && (ParsedFrame(buf) == Failure(FrameTooLarge) <==> magic && known && len > 8 * 1024 * 1024)
            && (ParsedFrame(buf) == Incomplete <==> magic && known && len <= 8 * 1024 * 1024 && |buf| < 13 + len)
            && (ParsedFrame(buf) == Failure(CrcMismatch) <==>
                  && magic && known && len <= 8 * 1024 * 1024 && |buf| >= 13 + len
                  && Crc32c.Checksum(buf[13..13 + len]) as int != FromBE(buf[9..13]))
  {
    hide FromBE, ToBE, Crc32c.Checksum, TypeOf;
    MagicBytes(buf[0..4]);
    TypeCodes(buf[4]);
  }

  /** Fewer than thirteen bytes are always waited on. */
  lemma ShortIsIncomplete(buf: Bytes)
    requires |buf| < 13
    ensures ParsedFrame(buf) == Incomplete
  {
  }

  /** No peer is waited on for ever: a full buffer gets a verdict, whatever it holds. */
  lemma WaitingEnds(buf: Bytes)
    requires |buf| >= HEADER_BYTES + MAX_FRAME_BYTES
    ensures ParsedFrame(buf) != Incomplete
  {
    hide FromBE, Crc32c.Checksum;
    HeaderVerdict(buf);
  }

  /** From the thirteenth byte on, waiting means that the bytes begin a frame of admissible type
      and length and are not all of it. */
  lemma IncompleteExactly(buf: Bytes)
    requires |buf| >= 13
    ensures ParsedFrame(buf) == Incomplete <==>
            exists kind: MessageType, stored: Bytes, payload: Bytes ::
              Begins(buf, kind, stored, payload)
  {
    hide FromBE, ToBE, Crc32c.Checksum, TypeOf, TypeByte;
    if ParsedFrame(buf) == Incomplete {
      HeaderVerdict(buf);
      var len := FromBE(buf[5..9]);
      TypeCodes(buf[4]);
      var kind := TypeOf(buf[4]).value;
      var payload := buf[13..] + Zeros(13 + len - |buf|);
      MagicBytes(buf[0..4]);
      ToFromBE(buf[5..9]);
      assert buf == buf[0..4] + [buf[4]] + buf[5..9] + buf[9..13] + buf[13..];
      assert HeaderWith(kind, |payload|, buf[9..13]) + payload == buf + Zeros(13 + len - |buf|);
      assert Begins(buf, kind, buf[9..13], payload);
    }
    if kind: MessageType, stored: Bytes, payload: Bytes :| Begins(buf, kind, stored, payload) {
      BeginningWaits(buf, kind, stored, payload);
    }
  }

  /** buf is a proper prefix of a header for the payload followed by the payload. */
  ghost predicate Begins(buf: Bytes, kind: MessageType, stored: Bytes, payload: Bytes) {
    && |stored| == 4 && |payload| <= MAX_FRAME_BYTES
    && buf < HeaderWith(kind, |payload|, stored) + payload
  }

  lemma BeginningWaits(buf: Bytes, kind: MessageType, stored: Bytes, payload: Bytes)
    requires |buf| >= 13 && Begins(buf, kind, stored, payload)
    ensures ParsedFrame(buf) == Incomplete
  {
    hide FromBE, ToBE, Crc32c.Checksum, TypeOf, TypeByte;
    var whole := HeaderWith(kind, |payload|, stored) + payload;
    assert buf == whole[..|buf|];
    assert buf[0..4] == ToBE(MAGIC, 4) && buf[4] == TypeByte(kind) && buf[5..9] == ToBE(|payload|, 4);
    WidthLimits();
    FromToBE(|payload|, 4);
    MagicBytes(buf[0..4]);
    KindCode(kind);
    HeaderVerdict(buf);
  }

  lemma KindCode(kind: MessageType)
    ensures 1 <= TypeByte(kind) <= 7
  {
  }
}
