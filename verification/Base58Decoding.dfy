/** Addresses (src/bip39.cpp:199-240) as a standard Base58Check decoder reads them: leading '1's are
    zero bytes, the rest is a big-endian number in base 58, and the last four bytes are the double
    SHA-256 of those before. */
module Base58Decoding {
  import opened Wrappers
  import opened ByteStrings
  import opened Base58

  /** The digit a character stands for: 1-9, then the capitals without I and O, then the small
      letters without l. */
  function DigitOf(c: char): Option<Digit> {
    var n := c as int;
    if '1' <= c <= '9' then Some(n - 49)
    else if 'A' <= c <= 'H' then Some(n - 56)
    else if 'J' <= c <= 'N' then Some(n - 57)
    else if 'P' <= c <= 'Z' then Some(n - 58)
    else if 'a' <= c <= 'k' then Some(n - 64)
    else if 'm' <= c <= 'z' then Some(n - 65)
    else None
  }

  function Number(s: string): Option<nat> {
    if s == [] then Some(0)
    else
      var init :- Number(s[..|s| - 1]);
      var digit :- DigitOf(s[|s| - 1]);
      Some(58 * init + digit)
  }

  function LeadingOnes(s: string): (r: nat)
    ensures r <= |s| && (forall i :: 0 <= i < r ==> s[i] == '1') && (r < |s| ==> s[r] != '1')
  {
    if s == [] || s[0] != '1' then 0
    else
      assert s == [s[0]] + s[1..];
      1 + LeadingOnes(s[1..])
  }

  function Decoded(s: string): Option<Bytes> {
    var z := LeadingOnes(s);
    var n :- Number(s[z..]);
    Some(Zeros(z) + MinBE(n))
  }

  function CheckDecoded(sha: Sha256, s: string): Option<Bytes> {
    var full :- Decoded(s);
    if |full| < 4 then None
    else
      var payload := full[..|full| - 4];
      if sha(sha(payload))[..4] == full[|full| - 4..] then Some(payload) else None
  }

  // ---------------------------------------------------------------- the alphabet

  lemma AlphabetReadsBack(d: Digit, c: char)
    ensures DigitOf(Base58Char(d)) == Some(d)
    ensures DigitOf(c).Some? ==> Base58Char(DigitOf(c).value) == c
  {
  }

  // ---------------------------------------------------------------- the number

  lemma {:induction false} NumberOfDigits(digits: seq<Digit>)
    ensures Number(Chars(Flipped(digits))) == Some(Value(digits))
  {
    hide Base58Char, DigitOf;
    var s := Chars(Flipped(digits));
    if digits != [] {
      NumberOfDigits(digits[1..]);
      assert s[..|s| - 1] == Chars(Flipped(digits[1..]));
      assert s[|s| - 1] == Base58Char(digits[0]);
      AlphabetReadsBack(digits[0], '1');
    }
  }

  lemma OnlyZeroIsOne(d: Digit)
    ensures Base58Char(d) == '1' <==> d == 0
  {
  }

  /** How many '1's lead the string, and what follows them. */
  lemma Leading(z: nat, digits: seq<Digit>)
    requires Canonical(digits)
    ensures var s := Chars(ZeroDigits(z) + Flipped(digits));
            if digits == [0] then LeadingOnes(s) == z + 1 == |s|
            else LeadingOnes(s) == z && s[z..] == Chars(Flipped(digits))
  {
    hide Base58Char, LeadingOnes;
    var w := ZeroDigits(z) + Flipped(digits);
    var s := Chars(w);
    FirstNonzero(z, digits);
    forall i | 0 <= i < |w|
      ensures s[i] == '1' <==> w[i] == 0
    {
      OnlyZeroIsOne(w[i]);
    }
    if digits != [0] {
      assert s[z..] == Chars(Flipped(digits));
    }
  }

  // ---------------------------------------------------------------- the round trip

  /** What the decoder makes of an address before it looks at the checksum. */
  lemma DecodedAddress(sha: Sha256, p: Bytes)
    ensures var v := FromBE(Full(sha, p));
            Decoded(Address(sha, p)) == Some(Zeros(LeadingZeroBytes(p) + if v == 0 then 1 else 0) + MinBE(v))
  {
    hide Chars, Flipped, DigitsOf, LeadingOnes, Full, ZeroDigits, MinBE, FromBE;
    var digits := DigitsOf(Full(sha, p));
    DigitsValue(Full(sha, p));
    Leading(LeadingZeroBytes(p), digits);
    NumberOfDigits(digits);
    ZeroValue(digits);
    assert Value([0]) == 0;
    var s := Address(sha, p);
    if digits == [0] {
      assert s[|s|..] == [];
    }
  }

  /** The payload has only zero bytes and the checksum begins with one. */
  predicate ZerosRunOn(sha: Sha256, p: Bytes) {
    p == Zeros(|p|) && sha(sha(p))[0] == 0
  }

  lemma FullBytes(sha: Sha256, p: Bytes)
    ensures var v, z := FromBE(Full(sha, p)), LeadingZeroBytes(p);
            if ZerosRunOn(sha, p) then |MinBE(v)| + (if v == 0 then 1 else 0) < 4 && z == |p|
            else v != 0 && Zeros(z) + MinBE(v) == Full(sha, p)
  {
    var c := sha(sha(p))[..4];
    var z, v := LeadingZeroBytes(p), FromBE(p + c);
    FullShape(p, c);
    WidthLimits();
    if p == Zeros(|p|) {
      LeadingZeros(|p|, c);
      MinBEShortest(c);
    } else {
      hide MinBE;
      NotAllZero(p);
    }
  }

  lemma NotAllZero(p: Bytes)
    requires p != Zeros(|p|)
    ensures LeadingZeroBytes(p) < |p|
    ensures forall c: Bytes :: |c| == 4 ==> FromBE(p + c) >= U32_LIMIT
  {
    assert p[..|p|] == p;
    forall c: Bytes | |c| == 4
      ensures FromBE(p + c) >= U32_LIMIT
    {
      FullShape(p, c);
    }
  }

  /** A standard decoder gives the payload back exactly unless the payload is all zero bytes and
      its checksum goes on with one: only the payload's zeros are written as '1's. */
  lemma AddressReadsBack(sha: Sha256, p: Bytes)
    ensures CheckDecoded(sha, Address(sha, p)) == Some(p) <==> !ZerosRunOn(sha, p)
  {
    hide FromBE, MinBE, Address, Decoded;
    DecodedAddress(sha, p);
    FullBytes(sha, p);
    var full := Full(sha, p);
    assert full[..|full| - 4] == p && full[|full| - 4..] == sha(sha(p))[..4];
  }
}
