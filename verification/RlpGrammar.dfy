/** The byte strings decodeValue takes, as a grammar: the encoder's forms and every redundant length
    it tolerates (src/crypto/rlp.cpp:58-368). */
module RlpGrammar {
  import opened ByteStrings
  import opened Rlp

  // ---------------------------------------------------------------- spellings

  /** A length prefix for len bytes: one byte up to 55, above that a count of one to eight length
      bytes, of which the first may be zero. */
  predicate HeaderOf(h: Bytes, len: nat, base: Byte) {
    || (len <= 55 && h == [base + len])
    || (len >= 56 && 2 <= |h| <= 9 && h[0] == base + 54 + |h| && FromBE(h[1..]) == len)
  }

  predicate SpellsString(s: Bytes, e: Bytes) {
    || (|s| == 1 && s[0] < 0x80 && e == s)
    || (|e| > |s| && e[|e| - |s|..] == s && HeaderOf(e[..|e| - |s|], |s|, 0x80))
  }

  ghost predicate Spells(v: Value, e: Bytes)
    decreases v
  {
    match v
    case Str(s) => SpellsString(s, e)
    case List(items) => exists k :: 0 <= k <= |e| && HeaderOf(e[..k], |e| - k, 0xC0) && SpellsAll(items, e[k..])
  }

  ghost predicate SpellsAll(items: seq<Value>, e: Bytes)
    decreases items
  {
    if items == [] then e == []
    else exists k :: 0 < k <= |e| && Spells(items[0], e[..k]) && SpellsAll(items[1..], e[k..])
  }

  // ---------------------------------------------------------------- what is spelled is taken

  lemma HeaderTaken(data: Bytes, offset: nat, mid: nat, len: nat, base: Byte)
    requires base == 0x80 || base == 0xC0
    requires offset <= mid <= |data| && HeaderOf(data[offset..mid], len, base)
    ensures offset < mid && base <= data[offset] <= base + 63 && ParsedHeader(data, offset, base) == Got(len, mid)
  {
    hide FromBE;
    var h := data[offset..mid];
    assert data[offset] == h[0];
    SliceOfSlice(data, offset, mid, 1, |h|);
    assert h[1..|h|] == h[1..];
  }

  lemma CutAt(data: Bytes, offset: nat, mid: nat, next: nat)
    requires offset <= mid <= next <= |data|
    ensures var e, k := data[offset..next], mid - offset;
            e[..k] == data[offset..mid] && e[k..] == data[mid..next]
  {
    var e, k := data[offset..next], mid - offset;
    SliceOfSlice(data, offset, next, 0, k);
    SliceOfSlice(data, offset, next, k, |e|);
    assert e[..k] == e[0..k] && e[k..] == e[k..|e|];
  }

  lemma SpelledStringIsTaken(s: Bytes, data: Bytes, offset: nat, next: nat)
    requires offset <= next <= |data| && SpellsString(s, data[offset..next])
    ensures offset < next && Parsed(data, offset) == Got(Str(s), next)
  {
    hide ParsedHeader, HeaderOf, FromBE;
    var e := data[offset..next];
    if |s| == 1 && s[0] < 0x80 && e == s {
      assert data[offset] == e[0] && e == [e[0]];
    } else {
      CutAt(data, offset, next - |s|, next);
      HeaderTaken(data, offset, next - |s|, |s|, 0x80);
    }
  }

  lemma ListIsTaken(items: seq<Value>, data: Bytes, offset: nat, mid: nat, next: nat)
    requires offset <= mid <= next <= |data| && HeaderOf(data[offset..mid], next - mid, 0xC0)
    requires ParsedItems(data, mid, next) == Got(items, next)
    ensures offset < next && Parsed(data, offset) == Got(List(items), next)
  {
    hide ParsedHeader, ParsedItems, HeaderOf;
    HeaderTaken(data, offset, mid, next - mid, 0xC0);
  }

  lemma {:induction false} SpelledIsTaken(v: Value, data: Bytes, offset: nat, next: nat)
    requires offset <= next <= |data| && Spells(v, data[offset..next])
    ensures offset < next && Parsed(data, offset) == Got(v, next)
    decreases v, 1
  {
    hide Parsed, ParsedItems, HeaderOf, SpellsString, SpellsAll;
    match v
    case Str(s) => SpelledStringIsTaken(s, data, offset, next);
    case List(items) =>
      var e := data[offset..next];
      var k :| 0 <= k <= |e| && HeaderOf(e[..k], |e| - k, 0xC0) && SpellsAll(items, e[k..]);
      CutAt(data, offset, offset + k, next);
      SpelledAreTaken(items, data, offset + k, next);
      ListIsTaken(items, data, offset, offset + k, next);
  }

  lemma {:induction false} SpelledAreTaken(items: seq<Value>, data: Bytes, pos: nat, end: nat)
    requires pos <= end <= |data| && SpellsAll(items, data[pos..end])
    ensures ParsedItems(data, pos, end) == Got(items, end)
    decreases items, 0
  {
    hide Parsed, Spells;
    var e := data[pos..end];
    if items != [] {
      var k :| 0 < k <= |e| && Spells(items[0], e[..k]) && SpellsAll(items[1..], e[k..]);
      CutAt(data, pos, pos + k, end);
      SpelledIsTaken(items[0], data, pos, pos + k);
      SpelledAreTaken(items[1..], data, pos + k, end);
      assert items == [items[0]] + items[1..];
    }
  }

  // ---------------------------------------------------------------- what is taken is spelled

  lemma TakenHeader(data: Bytes, offset: nat, base: Byte)
    requires base == 0x80 || base == 0xC0
    requires ParsedHeader(data, offset, base).Got? && data[offset] <= base + 63
    ensures var Got(len, mid) := ParsedHeader(data, offset, base);
            HeaderOf(data[offset..mid], len, base)
  {
    hide FromBE;
    var Got(len, mid) := ParsedHeader(data, offset, base);
    var h := data[offset..mid];
    assert h[0] == data[offset];
    SliceOfSlice(data, offset, mid, 1, |h|);
    assert h[1..|h|] == h[1..];
  }

  lemma {:induction false} TakenIsSpelled(data: Bytes, offset: nat)
    requires Parsed(data, offset).Got?
    ensures var Got(v, next) := Parsed(data, offset);
            Spells(v, data[offset..next])
    decreases |data| - offset, 2
  {
    hide ParsedHeader, HeaderOf, FromBE, ParsedItems;
    var Got(v, next) := Parsed(data, offset);
    var e := data[offset..next];
    if data[offset] < 0x80 {
      assert e == [data[offset]];
    } else if data[offset] < 0xC0 {
      var Got(len, mid) := ParsedHeader(data, offset, 0x80);
      TakenHeader(data, offset, 0x80);
      CutAt(data, offset, mid, next);
    } else {
      var Got(len, mid) := ParsedHeader(data, offset, 0xC0);
      TakenHeader(data, offset, 0xC0);
      TakenAreSpelled(data, mid, mid + len);
      var k := mid - offset;
      CutAt(data, offset, mid, next);
      assert HeaderOf(e[..k], |e| - k, 0xC0) && SpellsAll(v.items, e[k..]);
    }
  }

  lemma {:induction false} TakenAreSpelled(data: Bytes, pos: nat, end: nat)
    requires end <= |data| && ParsedItems(data, pos, end).Got?
    ensures pos <= end && SpellsAll(ParsedItems(data, pos, end).value, data[pos..end])
    decreases |data| - pos, 3
  {
    hide Parsed, Spells;
    if pos < end {
      var Got(child, mid) := Parsed(data, pos);
      TakenIsSpelled(data, pos);
      TakenAreSpelled(data, mid, end);
      var items, rest := ParsedItems(data, pos, end).value, ParsedItems(data, mid, end).value;
      var e, k := data[pos..end], mid - pos;
      CutAt(data, pos, pos + k, end);
      assert items[0] == child && items[1..] == rest;
      assert 0 < k <= |e| && Spells(items[0], e[..k]) && SpellsAll(items[1..], e[k..]);
    }
  }

  /** The decoder takes exactly the spellings: it gives a value and an end if and only if the bytes
      in between spell the value. */
  lemma DecoderTakesSpellings(data: Bytes, offset: nat, v: Value, next: nat)
    ensures Parsed(data, offset) == Got(v, next) <==> offset <= next <= |data| && Spells(v, data[offset..next])
  {
    hide Parsed, Spells;
    if Parsed(data, offset) == Got(v, next) {
      TakenIsSpelled(data, offset);
    }
    if offset <= next <= |data| && Spells(v, data[offset..next]) {
      SpelledIsTaken(v, data, offset, next);
    }
  }

  // ---------------------------------------------------------------- examples

  /** A length may carry leading zeros: 56 bytes under 0xB9 0x00 0x38. */
  lemma LeadingZeroLength(s: Bytes)
    requires |s| == 56
    ensures Parsed([0xB9, 0x00, 0x38] + s, 0) == Got(Str(s), 59)
    ensures Encoded(Str(s)) == [0xB8, 0x38] + s
  {
    var h: Bytes := [0xB9, 0x00, 0x38];
    var data := h + s;
    assert FromBE(h[1..]) == 0x38 by {
      assert h[1..] == [0x00, 0x38] && [0x00, 0x38][..1] == [0x00] && [0x00][..0] == [];
      assert FromBE([0x00]) == 0;
    }
    assert data[0..59] == data && data[..3] == h && data[3..] == s;
    SpelledIsTaken(Str(s), data, 0, 59);
    assert MinBE(56) == [56] by {
      assert MinBE(0) == [];
    }
  }

  /** Examples of the format: "dog", ["cat", "dog"], the empty string and list, 15 and 1024. */
  lemma KnownEncodings()
    ensures Encoded(Str([0x64, 0x6F, 0x67])) == [0x83, 0x64, 0x6F, 0x67]
    ensures Encoded(List([Str([0x63, 0x61, 0x74]), Str([0x64, 0x6F, 0x67])]))
         == [0xC8, 0x83, 0x63, 0x61, 0x74, 0x83, 0x64, 0x6F, 0x67]
    ensures Encoded(Str([])) == [0x80] && Encoded(List([])) == [0xC0]
  {
    var cat, dog := Str([0x63, 0x61, 0x74]), Str([0x64, 0x6F, 0x67]);
    assert Encoded(cat) == [0x83, 0x63, 0x61, 0x74] && Encoded(dog) == [0x83, 0x64, 0x6F, 0x67];
    EncodedPair(cat, dog);
  }

  lemma KnownIntegers()
    ensures EncodedString(MinBE(0)) == [0x80] && EncodedString(MinBE(15)) == [0x0F]
    ensures EncodedString(MinBE(1024)) == [0x82, 0x04, 0x00]
  {
    assert MinBE(0) == [] && MinBE(4) == [4] && MinBE(15) == [15];
  }

  /** And the set-theoretic three, [ [], [[]], [ [], [[]] ] ]. */
  lemma KnownNesting()
    ensures Encoded(List([List([]), List([List([])]), List([List([]), List([List([])])])]))
         == [0xC7, 0xC0, 0xC1, 0xC0, 0xC3, 0xC0, 0xC1, 0xC0]
  {
    var nil := List([]);
    var one, two := List([nil]), List([nil, List([nil])]);
    EncodedSingle(nil);
    assert Encoded(nil) == [0xC0] && Encoded(one) == [0xC1, 0xC0];
    EncodedPair(nil, one);
    assert Encoded(two) == [0xC3, 0xC0, 0xC1, 0xC0];
    EncodedPair(one, two);
    EncodedFirst([nil, one, two]);
  }

  lemma EncodedFirst(items: seq<Value>)
    requires |items| == 3
    ensures EncodedAll(items) == Encoded(items[0]) + EncodedAll([items[1], items[2]])
  {
    hide Encoded;
    assert items[1..] == [items[1], items[2]];
  }

  lemma EncodedSingle(a: Value)
    ensures EncodedAll([a]) == Encoded(a)
  {
    hide Encoded;
    assert [a][1..] == [];
  }

  lemma EncodedPair(a: Value, b: Value)
    ensures EncodedAll([a, b]) == Encoded(a) + Encoded(b)
  {
    hide Encoded;
    assert [a, b][1..] == [b];
    EncodedSingle(b);
  }
}
