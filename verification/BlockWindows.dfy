/** Exactly what decodeBlock accepts (src/message_codec.cpp:372-405): the head of a block, then each
    transaction in a window that may be longer than its encoding, and anything after the last. The
    encoder leaves no padding. */
module BlockWindows {
  import opened Wrappers
  import opened ByteStrings
  import opened ChainTypes
  import opened MessageCodec

  /** Transactions in windows, each filled up with some padding. */
  function Windows(txs: seq<Transaction>, pads: seq<Bytes>): Bytes
    requires |txs| == |pads|
  {
    if txs == [] then []
    else ToBE(|TxBytes(txs[0]) + pads[0]|, 4) + (TxBytes(txs[0]) + pads[0]) + Windows(txs[1..], pads[1..])
  }

  /** The windows are within the cap and the transactions are as the wire has them. */
  ghost predicate Fitting(txs: seq<Transaction>, pads: seq<Bytes>) {
    && |txs| == |pads|
    && forall i :: 0 <= i < |txs| ==> |TxBytes(txs[i]) + pads[i]| <= MAX_FRAME_BYTES && txs[i] == TxOnWire(txs[i])
  }

  lemma FittingRest(txs: seq<Transaction>, pads: seq<Bytes>)
    requires txs != [] && Fitting(txs, pads)
    ensures Fitting(txs[1..], pads[1..])
  {
    hide TxBytes, TxOnWire;
    assert forall i :: 0 <= i < |txs[1..]| ==> txs[1..][i] == txs[i + 1] && pads[1..][i] == pads[i + 1];
  }

  lemma WindowParses(tx: Transaction, pad: Bytes)
    requires |TxBytes(tx) + pad| <= MAX_FRAME_BYTES && tx == TxOnWire(tx)
    ensures ParsedTx(TxBytes(tx) + pad) == Some(tx)
  {
    hide TxBytes, ParsedTx;
    TxFits(tx);
    TxRoundTrip(tx, pad);
  }

  lemma {:induction false} WindowsTaken(txs: seq<Transaction>, pads: seq<Bytes>, buf: Bytes, pos: nat)
    requires Fitting(txs, pads) && StandsAt(Windows(txs, pads), buf, pos)
    ensures ParsedTxs(buf, pos, |txs|) == Some(txs)
    decreases txs
  {
    hide TxBytes, ParsedTx, TxOnWire, ToBE, FromBE, Fitting;
    if txs != [] {
      FirstFitting(txs, pads);
      var window := TxBytes(txs[0]) + pads[0];
      FittingRest(txs, pads);
      StandsAtParts(ToBE(|window|, 4) + window, Windows(txs[1..], pads[1..]), buf, pos);
      StandsAtParts(ToBE(|window|, 4), window, buf, pos);
      WidthLimits();
      FromToBE(|window|, 4);
      WindowParses(txs[0], pads[0]);
      WindowsTaken(txs[1..], pads[1..], buf, pos + 4 + |window|);
      assert txs == [txs[0]] + txs[1..];
    }
  }

  lemma SameLength(txs: seq<Transaction>, pads: seq<Bytes>)
    requires Fitting(txs, pads)
    ensures |txs| == |pads|
  {
    hide TxBytes, TxOnWire;
  }

  lemma FirstFitting(txs: seq<Transaction>, pads: seq<Bytes>)
    requires txs != [] && Fitting(txs, pads)
    ensures |pads| == |txs| && |TxBytes(txs[0]) + pads[0]| <= MAX_FRAME_BYTES && txs[0] == TxOnWire(txs[0])
  {
    hide TxBytes, TxOnWire;
  }

  lemma {:induction false} TakenWindows(buf: Bytes, pos: nat, count: nat) returns (pads: seq<Bytes>)
    requires pos <= |buf| && ParsedTxs(buf, pos, count).Some?
    ensures var txs := ParsedTxs(buf, pos, count).value;
            Fitting(txs, pads) && StandsAt(Windows(txs, pads), buf, pos)
    decreases count
  {
    hide TxBytes, ParsedTx, TxOnWire, FromBE, ToBE;
    pads := [];
    if count > 0 {
      var tlen := FromBE(buf[pos..pos + 4]);
      var window := buf[pos + 4..pos + 4 + tlen];
      var tx := ParsedTx(window).value;
      TxAccepted(tx, window);
      var pad := window[|TxBytes(tx)|..];
      assert window == TxBytes(tx) + pad;
      var rest := TakenWindows(buf, pos + 4 + tlen, count - 1);
      var others := ParsedTxs(buf, pos + 4 + tlen, count - 1).value;
      pads := [pad] + rest;
      PushWindow(tx, pad, others, rest);
      ToFromBE(buf[pos..pos + 4]);
      StandsAtParts(ToBE(tlen, 4), window, buf, pos);
      StandsAtParts(ToBE(tlen, 4) + window, Windows(others, rest), buf, pos);
    }
  }

  lemma PushWindow(tx: Transaction, pad: Bytes, others: seq<Transaction>, rest: seq<Bytes>)
    requires Fitting(others, rest) && |TxBytes(tx) + pad| <= MAX_FRAME_BYTES && tx == TxOnWire(tx)
    ensures var txs, pads := [tx] + others, [pad] + rest;
            && Fitting(txs, pads)
            && Windows(txs, pads) == ToBE(|TxBytes(tx) + pad|, 4) + (TxBytes(tx) + pad) + Windows(others, rest)
  {
    hide TxBytes, TxOnWire, ToBE;
    var txs, pads := [tx] + others, [pad] + rest;
    assert txs[1..] == others && pads[1..] == rest;
    assert forall i :: 0 < i < |txs| ==> txs[i] == others[i - 1] && pads[i] == rest[i - 1];
  }

  /** The fields of a block up to its count of transactions, in wire order. */
  function BlockHead(b: Block): seq<Bytes> {
    [StringBytes(b.hash), StringBytes(b.previousHash), ToBE(b.timestamp, 8), ToBE(b.reward, 8), ToBE(b.baseFee, 8),
     ToBE(|b.transactions|, 4)]
  }

  /** The buffer begins with the block, its transactions in windows padded by pads. */
  ghost predicate BeginsWithBlock(b: Block, pads: seq<Bytes>, buf: Bytes) {
    && Fitting(b.transactions, pads)
    && StandsAt(Joined(BlockHead(b) + [Windows(b.transactions, pads)]), buf, 0)
  }

  lemma HeadStands(b: Block, w: Bytes, buf: Bytes)
    ensures var q := 8 + |b.hash| + |b.previousHash|;
            StandsAt(Joined(BlockHead(b) + [w]), buf, 0) <==>
            && StandsAt(StringBytes(b.hash), buf, 0) && StandsAt(StringBytes(b.previousHash), buf, 4 + |b.hash|)
            && StandsAt(ToBE(b.timestamp, 8), buf, q) && StandsAt(ToBE(b.reward, 8), buf, q + 8)
            && StandsAt(ToBE(b.baseFee, 8), buf, q + 16) && StandsAt(ToBE(|b.transactions|, 4), buf, q + 24)
            && StandsAt(w, buf, q + 28)
  {
    hide StandsAt, ToBE, StringBytes, Joined;
    var parts := BlockHead(b) + [w];
    var q := 8 + |b.hash| + |b.previousHash|;
    assert parts[0..] == parts;
    NextPart(parts, 0, buf, 0);
    NextPart(parts, 1, buf, 4 + |b.hash|);
    NextPart(parts, 2, buf, q);
    NextPart(parts, 3, buf, q + 8);
    NextPart(parts, 4, buf, q + 16);
    NextPart(parts, 5, buf, q + 24);
    NextPart(parts, 6, buf, q + 28);
    assert parts[7..] == [];
    NothingStands(buf, q + 28 + |w|);
    if StandsAt(w, buf, q + 28) {
      StandsInside(w, buf, q + 28);
    }
  }

  lemma BlockTaken(b: Block, pads: seq<Bytes>, buf: Bytes)
    requires BeginsWithBlock(b, pads, buf) && b == BlockOnWire(b)
    requires |b.hash| <= MAX_FRAME_BYTES && |b.previousHash| <= MAX_FRAME_BYTES && |b.transactions| <= MAX_TX_COUNT
    ensures ParsedBlock(buf) == Some(b)
  {
    hide U64At, StringAt, StringBytes, ToBE, FromBE, TxBytes, Windows, TxsOnWire, ParsedTxs, Joined, Fitting, BlockHead;
    var q := 8 + |b.hash| + |b.previousHash|;
    SameLength(b.transactions, pads);
    HeadStands(b, Windows(b.transactions, pads), buf);
    StringStands(b.hash, buf, 0);
    StringStands(b.previousHash, buf, 4 + |b.hash|);
    U64Stands(b.timestamp, buf, q);
    U64Stands(b.reward, buf, q + 8);
    U64Stands(b.baseFee, buf, q + 16);
    WidthLimits();
    FromToBE(|b.transactions|, 4);
    WindowsTaken(b.transactions, pads, buf, q + 28);
  }

  lemma {:induction false} AllOnWire(txs: seq<Transaction>)
    ensures (forall i :: 0 <= i < |txs| ==> txs[i] == TxOnWire(txs[i])) ==> TxsOnWire(txs) == txs
  {
    hide TxOnWire;
    if txs != [] {
      AllOnWire(txs[1..]);
      assert forall i :: 0 <= i < |txs[1..]| ==> txs[1..][i] == txs[i + 1];
      assert txs == [txs[0]] + txs[1..];
    }
  }

  lemma TakenBlock(buf: Bytes) returns (pads: seq<Bytes>)
    requires ParsedBlock(buf).Some?
    ensures var b := ParsedBlock(buf).value;
            && BeginsWithBlock(b, pads, buf) && b == BlockOnWire(b)
            && |b.hash| <= MAX_FRAME_BYTES && |b.previousHash| <= MAX_FRAME_BYTES && |b.transactions| <= MAX_TX_COUNT
  {
    hide StringBytes, ToBE, FromBE, TxBytes, Windows, ParsedTxs, Joined, BlockHead, TxOnWire, TxsOnWire, StringAt,
         U64At;
    var b := ParsedBlock(buf).value;
    var q := 8 + |b.hash| + |b.previousHash|;
    pads := TakenWindows(buf, q + 28, |b.transactions|);
    AllOnWire(b.transactions);
    StringStands(b.hash, buf, 0);
    StringStands(b.previousHash, buf, 4 + |b.hash|);
    U64Stands(b.timestamp, buf, q);
    U64Stands(b.reward, buf, q + 8);
    U64Stands(b.baseFee, buf, q + 16);
    ToFromBE(buf[q + 24..q + 28]);
    HeadStands(b, Windows(b.transactions, pads), buf);
  }

  /** decodeBlock answers a block exactly when the buffer begins with its head and its transactions
      in windows within the cap, whatever pads the windows and follows the last. */
  lemma BlockAccepted(b: Block, buf: Bytes)
    ensures ParsedBlock(buf) == Some(b) <==>
            && b == BlockOnWire(b) && (exists pads :: BeginsWithBlock(b, pads, buf))
            && |b.hash| <= MAX_FRAME_BYTES && |b.previousHash| <= MAX_FRAME_BYTES && |b.transactions| <= MAX_TX_COUNT
  {
    hide ParsedBlock, BeginsWithBlock, BlockOnWire;
    if ParsedBlock(buf) == Some(b) {
      var pads := TakenBlock(buf);
    }
    if pads :| BeginsWithBlock(b, pads, buf) {
      if b == BlockOnWire(b) && |b.hash| <= MAX_FRAME_BYTES && |b.previousHash| <= MAX_FRAME_BYTES
         && |b.transactions| <= MAX_TX_COUNT {
        BlockTaken(b, pads, buf);
      }
    }
  }
}
