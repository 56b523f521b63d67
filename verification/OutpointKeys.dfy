/** The string key "hash:index" under which blockchain.cpp and mempool.cpp record an outpoint.
    Distinct outpoints have distinct keys, whatever characters the hash holds, so sets of keys
    are modelled as sets of outpoints. */
module OutpointKeys {
  import opened ByteStrings
  import opened ChainTypes

  const COLON: Byte := 58
  const MINUS: Byte := 45
  const ZERO: Byte := 48

  function Decimal(n: nat): Bytes {
    if n < 10 then [ZERO + n] else Decimal(n / 10) + [ZERO + n % 10]
  }

  /** std::to_string of a signed integer. */
  function ToString(i: int): Bytes {
    if i < 0 then [MINUS] + Decimal(-i) else Decimal(i)
  }

  function OutpointKey(o: TxInput): Bytes {
    o.prevTxHash + [COLON] + ToString(o.outputIndex)
  }

  function Parsed(s: Bytes): int {
    if s == [] then 0 else Parsed(s[..|s| - 1]) * 10 + s[|s| - 1] - ZERO
  }

  lemma {:induction false} DecimalParses(n: nat)
    ensures Parsed(Decimal(n)) == n && Decimal(n) != []
    ensures forall k :: 0 <= k < |Decimal(n)| ==> 48 <= Decimal(n)[k] < 58
  {
    if n < 10 {
      assert [ZERO + n][..0] == [];
    } else {
      DecimalParses(n / 10);
      assert Decimal(n)[..|Decimal(n)| - 1] == Decimal(n / 10);
    }
  }

  lemma ToStringFacts(i: int)
    ensures forall k :: 0 <= k < |ToString(i)| ==> ToString(i)[k] != COLON
    ensures i < 0 ==> ToString(i)[0] == MINUS && ToString(i)[1..] == Decimal(-i)
    ensures i >= 0 ==> ToString(i) == Decimal(i) && |Decimal(i)| > 0 && Decimal(i)[0] != MINUS
  {
    DecimalParses(if i < 0 then -i else i);
  }

  lemma ToStringInjective(i: int, j: int)
    requires ToString(i) == ToString(j)
    ensures i == j
  {
    ToStringFacts(i);
    ToStringFacts(j);
    DecimalParses(if i < 0 then -i else i);
    DecimalParses(if j < 0 then -j else j);
  }

  lemma OutpointKeyInjective(o: TxInput, p: TxInput)
    ensures OutpointKey(o) == OutpointKey(p) <==> o == p
  {
    if OutpointKey(o) == OutpointKey(p) {
      hide ToString;
      ToStringFacts(o.outputIndex);
      ToStringFacts(p.outputIndex);
      NoLaterColon(o.prevTxHash, ToString(o.outputIndex), p.prevTxHash, ToString(p.outputIndex));
      NoLaterColon(p.prevTxHash, ToString(p.outputIndex), o.prevTxHash, ToString(o.outputIndex));
      SameSplit(o.prevTxHash, ToString(o.outputIndex), p.prevTxHash, ToString(p.outputIndex));
      ToStringInjective(o.outputIndex, p.outputIndex);
    }
  }

  lemma NoLaterColon(a: Bytes, x: Bytes, b: Bytes, y: Bytes)
    requires a + [COLON] + x == b + [COLON] + y
    requires forall k :: 0 <= k < |y| ==> y[k] != COLON
    ensures |a| <= |b|
  {
    var s := a + [COLON] + x;
    assert s[|a|] == COLON;
    assert forall k :: |b| < k < |s| ==> s[k] == y[k - |b| - 1];
  }

  lemma SameSplit(a: Bytes, x: Bytes, b: Bytes, y: Bytes)
    requires a + [COLON] + x == b + [COLON] + y && |a| == |b|
    ensures a == b && x == y
  {
    assert a == (a + [COLON] + x)[..|a|] && b == (b + [COLON] + y)[..|b|];
    assert x == (a + [COLON] + x)[|a| + 1..] && y == (b + [COLON] + y)[|b| + 1..];
  }
}
