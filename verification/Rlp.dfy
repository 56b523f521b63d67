/** The RLP codec (src/crypto/rlp.cpp), Appendix B of the Ethereum Yellow Paper. The decoder accepts
    more than the encoder produces; the lemmas say exactly how much more. */
module Rlp {
  import opened ByteStrings

  datatype Value = Str(bytes: Bytes) | List(items: seq<Value>)

  datatype Error = OutOfRange | TruncatedLength | NonCanonicalLength | InvalidPrefix | WrongKind
                 | PayloadOverrun | NegativeRange | NoProgress | NotConsumed | IntegerTooWide | LeadingZero

  /** What a decode function returns: its value and nextOffset, or the exception it throws. */
  datatype Decoded<+T> = Got(value: T, next: nat) | Fail(error: Error)

  const STRING_BASE: Byte := 0x80
  const LIST_BASE: Byte := 0xC0

  // ---------------------------------------------------------------- what is encoded

  /** The length prefix; the first byte is cast to eight bits as in the source. */
  function Header(len: nat, base: Byte): Bytes {
    if len < 56 then [(base + len) % 256]
    else [(base + 55 + |MinBE(len)|) % 256] + MinBE(len)
  }

  function EncodedString(s: Bytes): (r: Bytes)
    ensures |s| <= |r|
  {
    if |s| == 1 && s[0] < 0x80 then s else Header(|s|, STRING_BASE) + s
  }

  function Encoded(v: Value): (r: Bytes)
    ensures r != []
    decreases v
  {
    match v
    case Str(s) => EncodedString(s)
    case List(items) => Header(|EncodedAll(items)|, LIST_BASE) + EncodedAll(items)
  }

  function EncodedAll(items: seq<Value>): Bytes
    decreases items
  {
    if items == [] then [] else Encoded(items[0]) + EncodedAll(items[1..])
  }

  /** The payload has a length that fits size_t. */
  predicate Fits(v: Value) {
    match v
    case Str(s) => |s| < U64_LIMIT
    case List(items) => |EncodedAll(items)| < U64_LIMIT
  }

  // ---------------------------------------------------------------- what is decoded

  /** decodeLength: the start of the payload, with its length as the value. */
  function ParsedHeader(data: Bytes, offset: nat, base: Byte): (r: Decoded<nat>)
    requires base <= 200
    ensures r.Got? ==> offset < r.next <= |data|
  {
    if offset >= |data| then Fail(OutOfRange) else
    var prefix := data[offset];
    if base <= prefix <= base + 55 then Got(prefix - base, offset + 1)
    else if prefix > base + 55 then
      var lol := prefix - (base + 55);
      if offset + 1 + lol > |data| then Fail(TruncatedLength) else
      var len := FromBE(data[offset + 1..offset + 1 + lol]);
      if len < 56 then Fail(NonCanonicalLength) else Got(len, offset + 1 + lol)
    else Fail(InvalidPrefix)
  }

  /** How a payload past the input is refused. The source adds start and length in 64 bits; a sum
      that wraps back inside the input lies before its start and fails there. */
  function Overrun(start: nat, len: nat, size: nat, wrapped: Error): Error {
    if (start + len) % U64_LIMIT > size then PayloadOverrun else wrapped
  }

  function ParsedString(data: Bytes, offset: nat): (r: Decoded<Bytes>)
    ensures r.Got? ==> offset < r.next <= |data|
  {
    if offset >= |data| then Fail(OutOfRange) else
    var prefix := data[offset];
    if prefix < 0x80 then Got([prefix], offset + 1)
    else if prefix > 0xBF then Fail(WrongKind) else
    match ParsedHeader(data, offset, STRING_BASE)
    case Fail(e) => Fail(e)
    case Got(len, start) =>
      if start + len > |data| then Fail(Overrun(start, len, |data|, NegativeRange))
      else Got(data[start..start + len], start + len)
  }

  function ParsedList(data: Bytes, offset: nat): (r: Decoded<seq<Value>>)
    ensures r.Got? ==> offset < r.next <= |data|
    decreases |data| - offset, 1
  {
    if offset >= |data| then Fail(OutOfRange) else
    if data[offset] < 0xC0 then Fail(WrongKind) else
    match ParsedHeader(data, offset, LIST_BASE)
    case Fail(e) => Fail(e)
    case Got(len, start) =>
      if start + len > |data| then Fail(Overrun(start, len, |data|, NotConsumed))
      else ParsedItems(data, start, start + len)
  }

  /** The rest of decodeList's loop from position pos. */
  function ParsedItems(data: Bytes, pos: nat, end: nat): (r: Decoded<seq<Value>>)
    requires end <= |data|
    ensures r.Got? ==> pos <= r.next == end
    decreases |data| - pos, 3
  {
    if pos == end then Got([], end)
    else if pos > end then Fail(NotConsumed)
    else
      match Parsed(data, pos)
      case Fail(e) => Fail(e)
      case Got(child, childNext) =>
        if childNext <= pos then Fail(NoProgress)
        else
          match ParsedItems(data, childNext, end)
          case Fail(e) => Fail(e)
          case Got(rest, next) => Got([child] + rest, next)
  }

  function Parsed(data: Bytes, offset: nat): (r: Decoded<Value>)
    ensures r.Got? ==> offset < r.next <= |data|
    decreases |data| - offset, 2
  {
    if offset >= |data| then Fail(OutOfRange)
    else if data[offset] >= 0xC0 then
      match ParsedList(data, offset)
      case Fail(e) => Fail(e)
      case Got(items, next) => Got(List(items), next)
    else
      match ParsedString(data, offset)
      case Fail(e) => Fail(e)
      case Got(s, next) => Got(Str(s), next)
  }

  // ---------------------------------------------------------------- round trip

  lemma LengthTaken(be: Bytes, base: Byte, data: Bytes, offset: nat)
    requires base == STRING_BASE || base == LIST_BASE
    requires 1 <= |be| <= 8 && FromBE(be) >= 56
    requires offset < |data| && data[offset] == base + 55 + |be| && StandsAt(be, data, offset + 1)
    ensures ParsedHeader(data, offset, base) == Got(FromBE(be), offset + 1 + |be|)
  {
    hide FromBE;
  }

  lemma FirstByteStands(first: Byte, rest: Bytes, data: Bytes, offset: nat)
    requires StandsAt([first] + rest, data, offset)
    ensures offset < |data| && data[offset] == first && StandsAt(rest, data, offset + 1)
  {
    StandsAtParts([first], rest, data, offset);
    assert data[offset] == data[offset..offset + 1][0];
  }

  lemma LongHeaderRoundTrip(len: nat, base: Byte, data: Bytes, offset: nat)
    requires base == STRING_BASE || base == LIST_BASE
    requires 56 <= len < U64_LIMIT && StandsAt(Header(len, base), data, offset)
    ensures ParsedHeader(data, offset, base) == Got(len, offset + |Header(len, base)|)
    ensures base + 55 < data[offset] <= base + 63
  {
    hide MinBE, FromBE, ParsedHeader, StandsAt;
    var be := MinBE(len);
    LengthBytes(len);
    FirstByteStands(base + 55 + |be|, be, data, offset);
    LengthTaken(be, base, data, offset);
  }

  lemma LengthBytes(len: nat)
    requires 0 < len < U64_LIMIT
    ensures 1 <= |MinBE(len)| <= 8 && FromBE(MinBE(len)) == len
  {
    WidthLimits();
    MinBEWidth(len, 8);
    FromMinBE(len);
  }

  lemma HeaderRoundTrip(len: nat, base: Byte, data: Bytes, offset: nat)
    requires base == STRING_BASE || base == LIST_BASE
    requires len < U64_LIMIT && StandsAt(Header(len, base), data, offset)
    ensures ParsedHeader(data, offset, base) == Got(len, offset + |Header(len, base)|)
    ensures base <= data[offset] <= base + 63
  {
    if len < 56 {
      assert data[offset] == data[offset..offset + 1][0];
    } else {
      LongHeaderRoundTrip(len, base, data, offset);
    }
  }

  lemma {:induction false} RoundTrip(v: Value, data: Bytes, offset: nat)
    requires Fits(v) && StandsAt(Encoded(v), data, offset)
    ensures Parsed(data, offset) == Got(v, offset + |Encoded(v)|)
    decreases v, 1
  {
    hide ParsedHeader, Header, MinBE, FromBE;
    assert data[offset] == data[offset..offset + |Encoded(v)|][0];
    match v
    case Str(s) =>
      if |s| == 1 && s[0] < 0x80 {
        assert s == [s[0]];
      } else {
        StandsAtParts(Header(|s|, STRING_BASE), s, data, offset);
        HeaderRoundTrip(|s|, STRING_BASE, data, offset);
      }
    case List(items) =>
      var payload := EncodedAll(items);
      StandsAtParts(Header(|payload|, LIST_BASE), payload, data, offset);
      HeaderRoundTrip(|payload|, LIST_BASE, data, offset);
      ItemsRoundTrip(items, data, offset + |Header(|payload|, LIST_BASE)|);
  }

  lemma FirstFits(items: seq<Value>)
    requires items != [] && |EncodedAll(items)| < U64_LIMIT
    ensures Fits(items[0])
  {
  }

  lemma {:induction false} ItemsRoundTrip(items: seq<Value>, data: Bytes, pos: nat)
    requires |EncodedAll(items)| < U64_LIMIT && StandsAt(EncodedAll(items), data, pos)
    ensures ParsedItems(data, pos, pos + |EncodedAll(items)|) == Got(items, pos + |EncodedAll(items)|)
    decreases items, 0
  {
    hide ParsedHeader, Header, EncodedString, ParsedString, ParsedList, Parsed, Encoded;
    hide Fits;
    if items != [] {
      var v, rest := items[0], items[1..];
      StandsAtParts(Encoded(v), EncodedAll(rest), data, pos);
      FirstFits(items);
      RoundTrip(v, data, pos);
      ItemsRoundTrip(rest, data, pos + |Encoded(v)|);
      assert items == [v] + rest;
    }
  }

  /** The round trip in context, between any prefix and any suffix. */
  lemma DecodeEncodeInContext(before: Bytes, v: Value, after: Bytes)
    requires Fits(v)
    ensures Parsed(before + Encoded(v) + after, |before|) == Got(v, |before| + |Encoded(v)|)
  {
    RoundTrip(v, before + Encoded(v) + after, |before|);
  }

  lemma PrefixFree(v: Value, w: Value, after: Bytes)
    requires Fits(v) && Fits(w)
    requires Encoded(v) + after == Encoded(w)
    ensures v == w && after == []
  {
    hide Parsed, Encoded, Fits;
    DecodeEncodeInContext([], v, after);
    DecodeEncodeInContext([], w, []);
    assert [] + Encoded(v) + after == [] + Encoded(w) + [];
  }

  // ---------------------------------------------------------------- normalisation

  /** No header of the item at offset, or of an item inside it, uses the two liberties the
      decoder grants: 0x81 before a byte below 0x80, and a leading zero in a length. */
  ghost predicate MinimalAt(data: Bytes, offset: nat)
    requires Parsed(data, offset).Got?
    decreases |data| - offset, 2
  {
    var prefix := data[offset];
    if prefix < 0x80 then true
    else if prefix <= 0xB7 then !(prefix == 0x81 && data[offset + 1] < 0x80)
    else if prefix <= 0xBF then data[offset + 1] != 0
    else
      assert ParsedList(data, offset).Got?;
      var header := ParsedHeader(data, offset, LIST_BASE);
      && (prefix > 0xF7 ==> data[offset + 1] != 0)
      && ItemsMinimalAt(data, header.next, header.next + header.value)
  }

  ghost predicate ItemsMinimalAt(data: Bytes, pos: nat, end: nat)
    requires end <= |data| && ParsedItems(data, pos, end).Got?
    decreases |data| - pos, 3
  {
    pos == end || (MinimalAt(data, pos) && ItemsMinimalAt(data, Parsed(data, pos).next, end))
  }

  /** What re-encoding the decoded item gives: the bytes consumed, or a strictly shorter
      string when some header was not minimal. */
  ghost predicate Normalised(e: Bytes, data: Bytes, offset: nat, next: nat, minimal: bool)
    requires offset <= next <= |data|
  {
    && |e| <= next - offset
    && (|e| == next - offset <==> minimal)
    && (e == data[offset..next] <==> minimal)
  }

  lemma LongHeaderNormal(data: Bytes, offset: nat, base: Byte)
    requires base == STRING_BASE || base == LIST_BASE
    requires ParsedHeader(data, offset, base).Got? && base + 55 < data[offset] <= base + 63
    ensures var Got(len, start) := ParsedHeader(data, offset, base);
            && 56 <= len < U64_LIMIT
            && |Header(len, base)| <= start - offset
            && (|Header(len, base)| == start - offset <==> data[offset + 1] != 0)
            && (Header(len, base) == data[offset..start] <==> data[offset + 1] != 0)
  {
    hide FromBE, MinBE;
    var Got(len, start) := ParsedHeader(data, offset, base);
    var be := data[offset + 1..start];
    WidthLimits();
    FromBEBound(be);
    PowMonotone(|be|, 8);
    MinBEShortest(be);
    assert be[0] == data[offset + 1];
    assert data[offset..start] == [data[offset]] + be;
    assert Header(len, base) == [(base + 55 + |MinBE(len)|) % 256] + MinBE(len);
    if data[offset + 1] != 0 {
      assert MinBE(len) == be;
    } else {
      assert |Header(len, base)| < start - offset == |data[offset..start]|;
    }
  }

  lemma HeaderNormal(data: Bytes, offset: nat, base: Byte)
    requires base == STRING_BASE || base == LIST_BASE
    requires ParsedHeader(data, offset, base).Got? && data[offset] <= base + 63
    ensures var Got(len, start) := ParsedHeader(data, offset, base);
            && len < U64_LIMIT
            && Normalised(Header(len, base), data, offset, start, data[offset] <= base + 55 || data[offset + 1] != 0)
  {
    hide FromBE, MinBE;
    if data[offset] > base + 55 {
      LongHeaderNormal(data, offset, base);
    }
  }

  lemma ConcatEqual(a: Bytes, b: Bytes, c: Bytes, d: Bytes)
    requires |a| == |c|
    ensures a + b == c + d <==> a == c && b == d
  {
    assert (a + b)[..|a|] == a && (a + b)[|a|..] == b;
    assert (c + d)[..|c|] == c && (c + d)[|c|..] == d;
  }

  lemma NormalisedConcat(e: Bytes, f: Bytes, data: Bytes, offset: nat, mid: nat, next: nat, m: bool, n: bool)
    requires offset <= mid <= next <= |data|
    requires Normalised(e, data, offset, mid, m) && Normalised(f, data, mid, next, n)
    ensures Normalised(e + f, data, offset, next, m && n)
  {
    assert data[offset..next] == data[offset..mid] + data[mid..next];
    if |e| == mid - offset {
      ConcatEqual(e, f, data[offset..mid], data[mid..next]);
    }
  }

  lemma {:induction false} StringNormal(data: Bytes, offset: nat)
    requires ParsedString(data, offset).Got?
    ensures var Got(s, next) := ParsedString(data, offset);
            && |s| < U64_LIMIT
            && Normalised(EncodedString(s), data, offset, next, MinimalAt(data, offset))
  {
    var Got(s, next) := ParsedString(data, offset);
    if data[offset] < 0x80 {
      assert data[offset..next] == s;
    } else {
      HeaderNormal(data, offset, STRING_BASE);
      var Got(len, start) := ParsedHeader(data, offset, STRING_BASE);
      if |s| == 1 && s[0] < 0x80 {
        assert data[offset + 1] == s[0];
      } else {
        assert data[start..next] == s;
        assert |s| == 1 ==> s[0] == data[start];
        NormalisedConcat(Header(len, STRING_BASE), s, data, offset, start, next, MinimalAt(data, offset), true);
      }
    }
  }

  lemma {:induction false} Normalisation(data: Bytes, offset: nat)
    requires Parsed(data, offset).Got?
    ensures var Got(v, next) := Parsed(data, offset);
            Fits(v) && Normalised(Encoded(v), data, offset, next, MinimalAt(data, offset))
    decreases |data| - offset, 2
  {
    if data[offset] < 0xC0 {
      StringNormal(data, offset);
    } else {
      HeaderNormal(data, offset, LIST_BASE);
      var Got(len, start) := ParsedHeader(data, offset, LIST_BASE);
      ItemsNormalisation(data, start, start + len);
      var items := ParsedItems(data, start, start + len).value;
      var e := EncodedAll(items);
      ListNormal(e, data, offset, start, len, ItemsMinimalAt(data, start, start + len));
    }
  }

  /** A list header keeps its payload's verdict: a shorter payload never needs a longer header. */
  lemma ListNormal(e: Bytes, data: Bytes, offset: nat, start: nat, len: nat, minimal: bool)
    requires ParsedHeader(data, offset, LIST_BASE) == Got(len, start) && start + len <= |data|
    requires Normalised(e, data, start, start + len, minimal)
    ensures |e| < U64_LIMIT
    ensures Normalised(Header(|e|, LIST_BASE) + e, data, offset, start + len,
                       minimal && (data[offset] > 0xF7 ==> data[offset + 1] != 0))
  {
    HeaderNormal(data, offset, LIST_BASE);
    if |e| == len {
      NormalisedConcat(Header(len, LIST_BASE), e, data, offset, start, start + len,
                       data[offset] <= 0xF7 || data[offset + 1] != 0, minimal);
    } else {
      HeaderMonotone(|e|, len, LIST_BASE);
    }
  }

  lemma HeaderMonotone(j: nat, k: nat, base: Byte)
    requires j <= k
    ensures |Header(j, base)| <= |Header(k, base)|
  {
    if j >= 56 {
      FromMinBE(k);
      FromBEBound(MinBE(k));
      MinBEWidth(j, |MinBE(k)|);
    }
  }

  lemma {:induction false} ItemsNormalisation(data: Bytes, pos: nat, end: nat)
    requires end <= |data| && ParsedItems(data, pos, end).Got?
    ensures pos <= end
    ensures Normalised(EncodedAll(ParsedItems(data, pos, end).value), data, pos, end, ItemsMinimalAt(data, pos, end))
    decreases |data| - pos, 3
  {
    if pos < end {
      var Got(v, mid) := Parsed(data, pos);
      Normalisation(data, pos);
      ItemsNormalisation(data, mid, end);
      var rest := ParsedItems(data, mid, end).value;
      assert ([v] + rest)[1..] == rest;
      NormalisedConcat(Encoded(v), EncodedAll(rest), data, pos, mid, end,
                       MinimalAt(data, pos), ItemsMinimalAt(data, mid, end));
    }
  }

  /** Whatever the decoder accepts, the re-encoded value decodes to itself; and a value
      survives the round trip exactly when its payload length fits size_t. */
  lemma AcceptedIsEncodable(v: Value)
    ensures Parsed(Encoded(v), 0) == Got(v, |Encoded(v)|) <==> Fits(v)
  {
    if Fits(v) {
      DecodeEncodeInContext([], v, []);
      assert [] + Encoded(v) + [] == Encoded(v);
    } else if Parsed(Encoded(v), 0) == Got(v, |Encoded(v)|) {
      Normalisation(Encoded(v), 0);
    }
  }

  /** Two accepted spellings of one value: the decoder is not injective on its input. */
  lemma NonMinimalFormAccepted()
    ensures Parsed([0x81, 0x05], 0) == Got(Str([0x05]), 2)
    ensures Parsed([0x05], 0) == Got(Str([0x05]), 1)
    ensures !MinimalAt([0x81, 0x05], 0)
  {
    var data: Bytes := [0x81, 0x05];
    assert ParsedHeader(data, 0, STRING_BASE) == Got(1, 1);
    assert data[1..2] == [0x05];
    assert ParsedString(data, 0) == Got([0x05], 2);
    var single: Bytes := [0x05];
    assert ParsedString(single, 0) == Got(single, 1);
  }

  // ---------------------------------------------------------------- windowing

  /** The verdict depends only on the bytes consumed: any other buffer that holds the same
      bytes, at any offset, gives the same value. */
  lemma {:induction false} Windowing(data: Bytes, offset: nat, other: Bytes, offset': nat)
    requires Parsed(data, offset).Got?
    requires StandsAt(data[offset..Parsed(data, offset).next], other, offset')
    ensures var Got(v, next) := Parsed(data, offset);
            Parsed(other, offset') == Got(v, offset' + (next - offset))
    decreases |data| - offset, 2
  {
    hide ParsedHeader, ParsedItems;
    var next := Parsed(data, offset).next;
    SubWindow(data, offset, next, other, offset', offset, offset + 1);
    assert data[offset..offset + 1][0] == other[offset'..offset' + 1][0];
    if data[offset] >= 0x80 {
      var base := if data[offset] >= 0xC0 then LIST_BASE else STRING_BASE;
      var start := ParsedHeader(data, offset, base).next;
      HeaderWindowing(data, offset, base, other, offset', next);
      SubWindow(data, offset, next, other, offset', start, next);
      if data[offset] >= 0xC0 {
        ItemsWindowing(data, start, next, other, offset' + (start - offset));
      }
    }
  }

  lemma SubWindow(data: Bytes, offset: nat, next: nat, other: Bytes, offset': nat, a: nat, b: nat)
    requires offset <= a <= b <= next <= |data| && StandsAt(data[offset..next], other, offset')
    ensures StandsAt(data[a..b], other, offset' + (a - offset))
  {
    SliceOfSlice(data, offset, next, a - offset, b - offset);
    SliceOfSlice(other, offset', offset' + (next - offset), a - offset, b - offset);
  }

  lemma HeaderWindowing(data: Bytes, offset: nat, base: Byte, other: Bytes, offset': nat, next: nat)
    requires base <= 200 && ParsedHeader(data, offset, base).Got?
    requires ParsedHeader(data, offset, base).next <= next <= |data|
    requires StandsAt(data[offset..next], other, offset')
    ensures var Got(len, start) := ParsedHeader(data, offset, base);
            ParsedHeader(other, offset', base) == Got(len, offset' + (start - offset))
  {
    hide FromBE;
    var start := ParsedHeader(data, offset, base).next;
    SubWindow(data, offset, next, other, offset', offset, offset + 1);
    assert data[offset..offset + 1][0] == other[offset'..offset' + 1][0];
    SubWindow(data, offset, next, other, offset', offset + 1, start);
  }

  lemma {:induction false} ItemsWindowing(data: Bytes, pos: nat, end: nat, other: Bytes, pos': nat)
    requires pos <= end <= |data| && ParsedItems(data, pos, end).Got?
    requires StandsAt(data[pos..end], other, pos')
    ensures var Got(items, _) := ParsedItems(data, pos, end);
            ParsedItems(other, pos', pos' + (end - pos)) == Got(items, pos' + (end - pos))
    decreases |data| - pos, 3
  {
    hide Parsed;
    if pos < end {
      var mid := Parsed(data, pos).next;
      var mid' := pos' + (mid - pos);
      assert mid <= end;
      SubWindow(data, pos, end, other, pos', pos, mid);
      SubWindow(data, pos, end, other, pos', mid, end);
      Windowing(data, pos, other, pos');
      ItemsWindowing(data, mid, end, other, mid');
    }
  }

  /** The children of an accepted list tile its payload: consecutive cut points, each child
      decoded between two of them, from the header to nextOffset. */
  lemma {:induction false} ItemsTile(data: Bytes, pos: nat, end: nat) returns (cuts: seq<nat>)
    requires end <= |data| && ParsedItems(data, pos, end).Got?
    ensures var items := ParsedItems(data, pos, end).value;
            && |cuts| == |items| + 1 && cuts[0] == pos && cuts[|items|] == end
            && forall i :: 0 <= i < |items| ==> Parsed(data, cuts[i]) == Got(items[i], cuts[i + 1])
    decreases |data| - pos
  {
    if pos == end {
      cuts := [end];
    } else {
      var tail := ItemsTile(data, Parsed(data, pos).next, end);
      cuts := [pos] + tail;
    }
  }

  /** The exception that guards the loop against a decoder that stands still is never thrown. */
  lemma {:induction false} AlwaysProgresses(data: Bytes, offset: nat)
    ensures Parsed(data, offset) != Fail(NoProgress)
    decreases |data| - offset, 2
  {
    if offset < |data| && data[offset] >= 0xC0 {
      var header := ParsedHeader(data, offset, LIST_BASE);
      if header.Got? && header.next + header.value <= |data| {
        ItemsAlwaysProgress(data, header.next, header.next + header.value);
      }
    }
  }

  lemma {:induction false} ItemsAlwaysProgress(data: Bytes, pos: nat, end: nat)
    requires end <= |data|
    ensures ParsedItems(data, pos, end) != Fail(NoProgress)
    decreases |data| - pos, 3
  {
    if pos < end {
      AlwaysProgresses(data, pos);
      if Parsed(data, pos).Got? {
        ItemsAlwaysProgress(data, Parsed(data, pos).next, end);
      }
    }
  }

  // ---------------------------------------------------------------- integers

  /** decodeUInt64 (width 8) and decodeUInt256 (width 32), as numbers. */
  function ParsedUInt(data: Bytes, offset: nat, width: nat): Decoded<nat> {
    match ParsedString(data, offset)
    case Fail(e) => Fail(e)
    case Got(s, next) =>
      if |s| > width then Fail(IntegerTooWide)
      else if |s| > 1 && s[0] == 0 then Fail(LeadingZero)
      else Got(FromBE(s), next)
  }

  lemma UIntRoundTrip(before: Bytes, n: nat, after: Bytes, width: nat)
    requires width < 56 && n < Pow256(width)
    ensures var e := EncodedString(MinBE(n));
            ParsedUInt(before + e + after, |before|, width) == Got(n, |before| + |e|)
  {
    var s := MinBE(n);
    MinBEWidth(n, width);
    FromMinBE(n);
    DecodeEncodeInContext(before, Str(s), after);
  }

  /** An accepted integer fits its width; it was written as the encoder writes it exactly when
      its header is minimal and it is not the byte 0x00, a second spelling of zero. */
  lemma UIntAccepted(data: Bytes, offset: nat, width: nat)
    requires ParsedUInt(data, offset, width).Got?
    ensures var Got(n, next) := ParsedUInt(data, offset, width);
            && n < Pow256(width)
            && (data[offset..next] == EncodedString(MinBE(n)) <==> (MinimalAt(data, offset) && data[offset] != 0))
  {
    var Got(s, next) := ParsedString(data, offset);
    StringNormal(data, offset);
    FromBEBound(s);
    PowMonotone(|s|, width);
    if |s| == 1 && s[0] == 0 {
      assert FromBE(s) == 0 by { assert FromBE(s[..0]) == 0; }
      if data[offset] == 0 {
        assert data[offset..next][0] == 0;
      } else {
        assert !MinimalAt(data, offset);
        assert |data[offset..next]| == 2;
      }
    } else {
      MinFromBE(s);
    }
  }

  // ---------------------------------------------------------------- the encoders

  /** The byte loop of encodeLength and encodeUInt: least significant byte first, then
      reversed. */
  method MinimalBytes(n: U64) returns (s: Bytes)
    ensures s == MinBE(n) && |s| <= 8
  {
    hide MinBE;
    var buf: Bytes := [];
    var t: nat := n;
    while t > 0
      invariant MinBE(n) == MinBE(t) + Reversed(buf)
    {
      PushDigit(n, t, buf);
      buf := buf + [t % 256];
      t := t / 256;
    }
    MinBEUnfold(0);
    WidthLimits();
    MinBEWidth(n, 8);
    s := Reversed(buf);
  }

  method EncodeLength(len: U64, base: Byte, out: Buffer)
    requires base == STRING_BASE || base == LIST_BASE
    modifies out
    ensures out.data == old(out.data) + Header(len, base)
  {
    hide MinBE;
    if len < 56 {
      out.PushBack(base + len);
      return;
    }
    var lenBuf := MinimalBytes(len);
    out.PushBack(base + 55 + |lenBuf|);
    out.Append(lenBuf);
  }

  method EncodeBytes(s: Bytes, out: Buffer)
    requires |s| < U64_LIMIT
    modifies out
    ensures out.data == old(out.data) + EncodedString(s)
  {
    if |s| == 1 && s[0] < 0x80 {
      out.PushBack(s[0]);
      return;
    }
    EncodeLength(|s|, STRING_BASE, out);
    out.Append(s);
  }

  method EncodeUInt(value: U64, out: Buffer)
    modifies out
    ensures out.data == old(out.data) + EncodedString(MinBE(value))
  {
    if value == 0 {
      out.PushBack(0x80);
      return;
    }
    var buf := MinimalBytes(value);
    EncodeBytes(buf, out);
  }

  method EncodeUInt256(value: Bytes, out: Buffer)
    requires |value| == 32
    modifies out
    ensures out.data == old(out.data) + EncodedString(MinBE(FromBE(value)))
  {
    var start := 0;
    while start < 32 && value[start] == 0
      invariant 0 <= start <= 32 && value[..start] == Zeros(start)
    {
      start := start + 1;
    }
    assert value == Zeros(start) + value[start..];
    LeadingZeros(start, value[start..]);
    MinFromBE(value[start..]);
    if start == 32 {
      out.PushBack(0x80);
      return;
    }
    EncodeBytes(value[start..], out);
  }

  /** encodeList: the items come already encoded. */
  method EncodeList(encodedItems: seq<Bytes>, out: Buffer)
    requires |Joined(encodedItems)| < U64_LIMIT
    modifies out
    ensures out.data == old(out.data) + Header(|Joined(encodedItems)|, LIST_BASE) + Joined(encodedItems)
  {
    var payloadSize := 0;
    for i := 0 to |encodedItems|
      invariant payloadSize + |Joined(encodedItems[i..])| == |Joined(encodedItems)|
    {
      payloadSize := payloadSize + |encodedItems[i]|;
    }
    EncodeLength(payloadSize, LIST_BASE, out);
    ghost var start := out.data;
    for i := 0 to |encodedItems|
      invariant out.data + Joined(encodedItems[i..]) == start + Joined(encodedItems)
    {
      out.Append(encodedItems[i]);
    }
  }

  /** Joining the encodings of values is the payload encodeValue builds, so both list encoders
      agree. */
  lemma {:induction false} JoinedEncodings(items: seq<Value>)
    ensures Joined(seq(|items|, i requires 0 <= i < |items| => Encoded(items[i]))) == EncodedAll(items)
  {
    if items != [] {
      var parts := seq(|items|, i requires 0 <= i < |items| => Encoded(items[i]));
      JoinedEncodings(items[1..]);
      assert parts[1..] == seq(|items[1..]|, i requires 0 <= i < |items[1..]| => Encoded(items[1..][i]));
    }
  }

  lemma AppendStep(done: Bytes, items: seq<Value>, i: nat)
    requires i < |items|
    ensures done + EncodedAll(items[i..]) == done + Encoded(items[i]) + EncodedAll(items[i + 1..])
  {
    hide Encoded;
    assert items[i..][1..] == items[i + 1..];
  }

  lemma NothingLeft(items: seq<Value>)
    ensures EncodedAll(items[|items|..]) == []
  {
  }

  method EncodeValue(v: Value, out: Buffer)
    requires |Encoded(v)| < U64_LIMIT
    modifies out
    ensures out.data == old(out.data) + Encoded(v)
    decreases v
  {
    hide Header, EncodedAll;
    if v.Str? {
      EncodeBytes(v.bytes, out);
      return;
    }
    var payload := new Buffer();
    for i := 0 to |v.items|
      invariant payload.data + EncodedAll(v.items[i..]) == EncodedAll(v.items)
      invariant unchanged(out) && fresh(payload)
    {
      AppendStep(payload.data, v.items, i);
      EncodeValue(v.items[i], payload);
    }
    NothingLeft(v.items);
    EncodeLength(|payload.data|, LIST_BASE, out);
    out.Append(payload.data);
  }

  // ---------------------------------------------------------------- the decoders

  method DecodeLength(data: Bytes, offset: nat, base: Byte) returns (r: Decoded<nat>)
    requires base == STRING_BASE || base == LIST_BASE
    ensures r == ParsedHeader(data, offset, base)
  {
    if offset >= |data| {
      return Fail(OutOfRange);
    }
    var prefix := data[offset];
    var shortLimit := base + 55;
    if base <= prefix <= shortLimit {
      return Got(prefix - base, offset + 1);
    }
    if prefix > shortLimit {
      var lol := prefix - shortLimit;
      if offset + 1 + lol > |data| {
        return Fail(TruncatedLength);
      }
      var decodedLen := ReadBE(data[offset + 1..offset + 1 + lol]);
      if decodedLen < 56 {
        return Fail(NonCanonicalLength);
      }
      return Got(decodedLen, offset + 1 + lol);
    }
    return Fail(InvalidPrefix);
  }

  /** No object spans more bytes than a signed 64-bit difference can express. */
  const MAX_OBJECT_SIZE: nat := 0x8000_0000_0000_0000

  lemma LengthFits(data: Bytes, offset: nat, base: Byte)
    requires base <= 200 && offset < |data| && data[offset] <= base + 63
    ensures ParsedHeader(data, offset, base).Got? ==> ParsedHeader(data, offset, base).value < U64_LIMIT
  {
    hide FromBE, Pow256;
    var lol := data[offset] - (base + 55);
    if 0 < lol && offset + 1 + lol <= |data| {
      FromBEBound(data[offset + 1..offset + 1 + lol]);
      PowMonotone(lol, 8);
      WidthLimits();
    }
  }

  /** The wrapped sum accepts exactly the payloads the true sum accepts: wrapping always lands
      before the payload's own start. */
  lemma SumIsExact(start: nat, len: nat, size: nat)
    requires start <= size < MAX_OBJECT_SIZE && len < U64_LIMIT
    ensures start + len <= size <==> start <= (start + len) % U64_LIMIT <= size
    ensures start + len <= size ==> (start + len) % U64_LIMIT == start + len
  {
  }

  method DecodeBytes(data: Bytes, offset: nat) returns (r: Decoded<Bytes>)
    requires |data| < MAX_OBJECT_SIZE
    ensures r == ParsedString(data, offset)
  {
    if offset >= |data| {
      return Fail(OutOfRange);
    }
    var prefix := data[offset];
    if prefix < 0x80 {
      return Got([prefix], offset + 1);
    }
    if prefix > 0xBF {
      return Fail(WrongKind);
    }
    var header := DecodeLength(data, offset, STRING_BASE);
    if header.Fail? {
      return Fail(header.error);
    }
    var Got(payloadLen, dataStart) := header;
    LengthFits(data, offset, STRING_BASE);
    SumIsExact(dataStart, payloadLen, |data|);
    var dataEnd := (dataStart + payloadLen) % U64_LIMIT;
    if dataEnd > |data| {
      return Fail(PayloadOverrun);
    }
    if dataEnd < dataStart {
      return Fail(NegativeRange);
    }
    return Got(data[dataStart..dataEnd], dataEnd);
  }

  method DecodeUInt64(data: Bytes, offset: nat) returns (r: Decoded<nat>)
    requires |data| < MAX_OBJECT_SIZE
    ensures r == ParsedUInt(data, offset, 8)
  {
    var s := DecodeBytes(data, offset);
    if s.Fail? {
      return Fail(s.error);
    }
    var bytes := s.value;
    if |bytes| > 8 {
      return Fail(IntegerTooWide);
    }
    if |bytes| > 1 && bytes[0] == 0 {
      return Fail(LeadingZero);
    }
    var value := ReadBE(bytes);
    return Got(value, s.next);
  }

  method DecodeUInt256(data: Bytes, offset: nat) returns (r: Decoded<Bytes>)
    requires |data| < MAX_OBJECT_SIZE
    ensures match ParsedUInt(data, offset, 32)
            case Fail(e) => r == Fail(e)
            case Got(n, next) => r == Got(ToBE(n, 32), next)
  {
    var s := DecodeBytes(data, offset);
    if s.Fail? {
      return Fail(s.error);
    }
    var bytes := s.value;
    if |bytes| > 32 {
      return Fail(IntegerTooWide);
    }
    if |bytes| > 1 && bytes[0] == 0 {
      return Fail(LeadingZero);
    }
    var pad := 32 - |bytes|;
    LeadingZeros(pad, bytes);
    ToFromBE(Zeros(pad) + bytes);
    return Got(Zeros(pad) + bytes, s.next);
  }

  /** The loop's answer once some items are already decoded. */
  ghost function Resume(done: seq<Value>, rest: Decoded<seq<Value>>): Decoded<seq<Value>> {
    match rest
    case Fail(e) => Fail(e)
    case Got(items, next) => Got(done + items, next)
  }

  lemma ResumeStep(data: Bytes, done: seq<Value>, pos: nat, end: nat)
    requires pos < end <= |data| && Parsed(data, pos).Got?
    ensures var Got(child, next) := Parsed(data, pos);
            Resume(done, ParsedItems(data, pos, end)) == Resume(done + [child], ParsedItems(data, next, end))
  {
    var Got(child, next) := Parsed(data, pos);
    var rest := ParsedItems(data, next, end);
    if rest.Got? {
      assert done + ([child] + rest.value) == done + [child] + rest.value;
    }
  }

  method DecodeList(data: Bytes, offset: nat) returns (r: Decoded<seq<Value>>)
    requires |data| < MAX_OBJECT_SIZE
    ensures r == ParsedList(data, offset)
    decreases |data| - offset, 1
  {
    if offset >= |data| {
      return Fail(OutOfRange);
    }
    if data[offset] < 0xC0 {
      return Fail(WrongKind);
    }
    var header := DecodeLength(data, offset, LIST_BASE);
    if header.Fail? {
      return Fail(header.error);
    }
    var Got(payloadLen, listStart) := header;
    LengthFits(data, offset, LIST_BASE);
    SumIsExact(listStart, payloadLen, |data|);
    var end := (listStart + payloadLen) % U64_LIMIT;
    if end > |data| {
      return Fail(PayloadOverrun);
    }
    var items: seq<Value> := [];
    var pos := listStart;
    assert forall rest: seq<Value> :: [] + rest == rest;
    while pos < end
      invariant listStart <= pos
      invariant ParsedItems(data, listStart, end) == Resume(items, ParsedItems(data, pos, end))
      decreases |data| - pos
    {
      var child := DecodeValue(data, pos);
      if child.Fail? {
        return Fail(child.error);
      }
      if child.next <= pos {
        assert false;  // AlwaysProgresses
      }
      ResumeStep(data, items, pos, end);
      items := items + [child.value];
      pos := child.next;
    }
    if pos != end {
      return Fail(NotConsumed);
    }
    assert items + [] == items;
    return Got(items, end);
  }

  method DecodeValue(data: Bytes, offset: nat) returns (r: Decoded<Value>)
    requires |data| < MAX_OBJECT_SIZE
    ensures r == Parsed(data, offset)
    decreases |data| - offset, 2
  {
    if offset >= |data| {
      return Fail(OutOfRange);
    }
    if data[offset] >= 0xC0 {
      var list := DecodeList(data, offset);
      return if list.Got? then Got(List(list.value), list.next) else Fail(list.error);
    }
    var s := DecodeBytes(data, offset);
    return if s.Got? then Got(Str(s.value), s.next) else Fail(s.error);
  }
}
