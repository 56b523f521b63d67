/** Base58Check addresses (src/bip39.cpp:199-240): base 256 to base 58 by a carry loop over
    little-endian digits, a '1' for each leading zero byte, and four bytes of double
    SHA-256 as a checksum. SHA-256 is a parameter. */
module Base58 {
  import opened Wrappers
  import opened ByteStrings
  import opened ChainTypes

  type Sha256 = Bytes -> Bytes32
  type Digit = x: int | 0 <= x < 58

  /** The alphabet 1-9 A-H J-N P-Z a-k m-z. */
  function Base58Char(d: Digit): char {
    if d < 9 then '1' + d as char
    else if d < 17 then 'A' + (d - 9) as char
    else if d < 22 then 'J' + (d - 17) as char
    else if d < 33 then 'P' + (d - 22) as char
    else if d < 44 then 'a' + (d - 33) as char
    else 'm' + (d - 44) as char
  }

  // ---------------------------------------------------------------- digits and values

  /** The number little-endian base-58 digits denote. */
  function Value(digits: seq<Digit>): nat {
    if digits == [] then 0 else digits[0] + 58 * Value(digits[1..])
  }

  /** The digits a remaining carry adds. */
  function CarryDigits(carry: nat): seq<Digit> {
    if carry == 0 then [] else [carry % 58] + CarryDigits(carry / 58)
  }

  /** The digits of 256 times a number plus a carry. */
  function MulAdd(digits: seq<Digit>, carry: nat): seq<Digit> {
    if digits == [] then CarryDigits(carry)
    else
      var c: nat := carry + (digits[0] as int) * 256;
      [c % 58] + MulAdd(digits[1..], c / 58)
  }

  function DigitsOf(bytes: Bytes): seq<Digit> {
    if bytes == [] then [0] else MulAdd(DigitsOf(bytes[..|bytes| - 1]), bytes[|bytes| - 1])
  }

  /** No leading zero digit, except that zero itself is one zero digit. */
  predicate Canonical(digits: seq<Digit>) {
    digits == [0] || (digits != [] && digits[|digits| - 1] != 0)
  }

  lemma {:induction false} CarryValue(carry: nat)
    ensures Value(CarryDigits(carry)) == carry
    ensures carry > 0 ==> CarryDigits(carry) != [] && CarryDigits(carry)[|CarryDigits(carry)| - 1] != 0
  {
    if carry > 0 {
      CarryValue(carry / 58);
      assert CarryDigits(carry)[1..] == CarryDigits(carry / 58);
    }
  }

  lemma {:induction false} MulAddValue(digits: seq<Digit>, carry: nat)
    ensures Value(MulAdd(digits, carry)) == 256 * Value(digits) + carry
    decreases digits
  {
    if digits == [] {
      CarryValue(carry);
    } else {
      var c: nat := carry + (digits[0] as int) * 256;
      MulAddValue(digits[1..], c / 58);
      assert MulAdd(digits, carry)[1..] == MulAdd(digits[1..], c / 58);
      assert c == 58 * (c / 58) + c % 58;
    }
  }

  lemma {:induction false} MulAddTop(digits: seq<Digit>, carry: nat)
    requires digits != [] && digits[|digits| - 1] != 0
    ensures var r := MulAdd(digits, carry); r != [] && r[|r| - 1] != 0
    decreases digits
  {
    var c: nat := carry + (digits[0] as int) * 256;
    var rest := MulAdd(digits[1..], c / 58);
    assert MulAdd(digits, carry) == [c % 58] + rest;
    if |digits| == 1 {
      CarryValue(c / 58);
    } else {
      MulAddTop(digits[1..], c / 58);
    }
  }

  /** The conversion keeps the value and never writes a leading zero digit. */
  lemma {:induction false} DigitsValue(bytes: Bytes)
    ensures Value(DigitsOf(bytes)) == FromBE(bytes)
    ensures Canonical(DigitsOf(bytes))
  {
    if bytes != [] {
      var init, last := bytes[..|bytes| - 1], bytes[|bytes| - 1];
      DigitsValue(init);
      MulAddValue(DigitsOf(init), last);
      if DigitsOf(init) == [0] {
        assert MulAdd([0], last) == [last % 58] + CarryDigits(last / 58);
        CarryValue(last / 58);
      } else {
        MulAddTop(DigitsOf(init), last);
      }
    }
  }

  lemma {:induction false} ZeroValue(digits: seq<Digit>)
    requires Canonical(digits)
    ensures Value(digits) == 0 <==> digits == [0]
    decreases digits
  {
    if |digits| > 1 {
      var rest := digits[1..];
      assert rest[|rest| - 1] == digits[|digits| - 1];
      if rest == [0] {
      } else {
        ZeroValue(rest);
      }
    }
  }

  // ---------------------------------------------------------------- the string

  function LeadingZeroBytes(payload: Bytes): (r: nat)
    ensures r <= |payload| && payload[..r] == Zeros(r)
    ensures r < |payload| ==> payload[r] != 0
  {
    if payload == [] || payload[0] != 0 then 0 else
    assert payload == [payload[0]] + payload[1..];
    1 + LeadingZeroBytes(payload[1..])
  }

  function Full(sha: Sha256, payload: Bytes): Bytes {
    payload + sha(sha(payload))[..4]
  }

  /** The digits written, most significant first, after one zero digit per leading zero byte. */
  function Written(sha: Sha256, payload: Bytes): seq<Digit> {
    ZeroDigits(LeadingZeroBytes(payload)) + Flipped(DigitsOf(Full(sha, payload)))
  }

  function ZeroDigits(k: nat): (r: seq<Digit>)
    ensures |r| == k && forall i :: 0 <= i < k ==> r[i] == 0
  {
    seq(k, i => 0)
  }

  function Flipped(digits: seq<Digit>): (r: seq<Digit>)
    ensures |r| == |digits| && forall i :: 0 <= i < |digits| ==> r[i] == digits[|digits| - 1 - i]
  {
    seq(|digits|, i requires 0 <= i < |digits| => digits[|digits| - 1 - i])
  }

  function Chars(digits: seq<Digit>): (r: string)
    ensures |r| == |digits| && forall i :: 0 <= i < |digits| ==> r[i] == Base58Char(digits[i])
  {
    seq(|digits|, i requires 0 <= i < |digits| => Base58Char(digits[i]))
  }

  function Address(sha: Sha256, payload: Bytes): string {
    Chars(Written(sha, payload))
  }

  lemma CharsInjective(a: seq<Digit>, b: seq<Digit>)
    requires Chars(a) == Chars(b)
    ensures a == b
  {
    forall i | 0 <= i < |a|
      ensures a[i] == b[i]
    {
      assert Base58Char(a[i]) == Chars(a)[i] == Chars(b)[i] == Base58Char(b[i]);
      AlphabetInjective(a[i], b[i]);
    }
  }

  lemma AlphabetInjective(x: Digit, y: Digit)
    requires Base58Char(x) == Base58Char(y)
    ensures x == y
  {
  }

  lemma FirstNonzero(z: nat, d: seq<Digit>)
    requires Canonical(d)
    ensures var w := ZeroDigits(z) + Flipped(d);
            && (forall i :: 0 <= i < z ==> w[i] == 0)
            && (w[z] == 0 <==> d == [0])
            && (d == [0] ==> |w| == z + 1)
  {
    assert (ZeroDigits(z) + Flipped(d))[z] == d[|d| - 1];
  }

  /** The digits written tell how many zero bytes led the payload and what number followed. */
  lemma WrittenInjective(z: nat, d: seq<Digit>, z': nat, d': seq<Digit>)
    requires Canonical(d) && Canonical(d')
    requires ZeroDigits(z) + Flipped(d) == ZeroDigits(z') + Flipped(d')
    ensures z == z' && d == d'
  {
    hide ZeroDigits, Flipped;
    FirstNonzero(z, d);
    FirstNonzero(z', d');
    if z == z' {
      FlippedInjective(z, d, d');
    }
  }

  lemma FlippedInjective(z: nat, d: seq<Digit>, d': seq<Digit>)
    requires ZeroDigits(z) + Flipped(d) == ZeroDigits(z) + Flipped(d')
    ensures d == d'
  {
    var w := ZeroDigits(z) + Flipped(d);
    assert w[z..] == Flipped(d) && w[z..] == Flipped(d');
    assert d == Flipped(Flipped(d)) && d' == Flipped(Flipped(d'));
  }

  // ---------------------------------------------------------------- the string determines the payload

  /** The value is below 2^32 exactly when the payload is all zeros; otherwise the value is
      what follows the leading zeros, in minimal form. */
  lemma FullShape(payload: Bytes, checksum: Bytes)
    requires |checksum| == 4
    ensures var z, v := LeadingZeroBytes(payload), FromBE(payload + checksum);
            if v < U32_LIMIT then payload == Zeros(z) else payload + checksum == Zeros(z) + MinBE(v)
  {
    var z := LeadingZeroBytes(payload);
    var tail := payload[z..] + checksum;
    assert payload + checksum == Zeros(z) + tail;
    LeadingZeros(z, tail);
    WidthLimits();
    if z < |payload| {
      assert tail[0] == payload[z];
      MinFromBE(tail);
      MinBEWidth(FromBE(tail), 4);
    } else {
      FromBEBound(checksum);
      assert tail == checksum;
    }
  }

  /** No two payloads, of whatever lengths, have the same address. */
  lemma AddressInjective(sha: Sha256, p: Bytes, q: Bytes)
    requires Address(sha, p) == Address(sha, q)
    ensures p == q
  {
    hide DigitsOf, Canonical, FromBE, MinBE;
    CharsInjective(Written(sha, p), Written(sha, q));
    DigitsValue(Full(sha, p));
    DigitsValue(Full(sha, q));
    WrittenInjective(LeadingZeroBytes(p), DigitsOf(Full(sha, p)), LeadingZeroBytes(q), DigitsOf(Full(sha, q)));
    FullShape(p, sha(sha(p))[..4]);
    FullShape(q, sha(sha(q))[..4]);
    if FromBE(Full(sha, p)) >= U32_LIMIT {
      assert Full(sha, p) == Full(sha, q);
      assert p == Full(sha, p)[..|p|] && q == Full(sha, q)[..|q|];
    }
  }

  // ---------------------------------------------------------------- the loops

  /** One digit of the inner loop. */
  lemma MulAddStep(done: seq<Digit>, digits: seq<Digit>, carry: nat)
    requires digits != []
    ensures var c: nat := carry + (digits[0] as int) * 256;
            done + MulAdd(digits, carry) == done + [c % 58] + MulAdd(digits[1..], c / 58)
  {
    var c: nat := carry + (digits[0] as int) * 256;
    assert done + ([c % 58] + MulAdd(digits[1..], c / 58)) == done + [c % 58] + MulAdd(digits[1..], c / 58);
  }

  lemma CarryStep(done: seq<Digit>, carry: nat)
    requires carry > 0
    ensures done + CarryDigits(carry) == done + [carry % 58] + CarryDigits(carry / 58)
  {
  }

  /** The inner loop: multiply the digits by 256 and add one byte. Between digits the carry
      never exceeds a byte. */
  method AddByte(digits: seq<Digit>, b: Byte) returns (r: seq<Digit>)
    ensures r == MulAdd(digits, b)
  {
    hide MulAdd, CarryDigits;
    r := digits;
    var carry: nat := b;
    for j := 0 to |digits|
      invariant |r| == |digits| && r[j..] == digits[j..]
      invariant carry <= 255
      invariant MulAdd(digits, b) == r[..j] + MulAdd(r[j..], carry)
    {
      MulAddStep(r[..j], r[j..], carry);
      carry := carry + (r[j] as int) * 256;
      assert r[j..][1..] == r[j + 1..];
      ghost var before := r;
      r := r[j := carry % 58];
      assert r[j + 1..] == before[j + 1..] && r[..j + 1] == before[..j] + [carry % 58];
      carry := carry / 58;
    }
    NoDigitsLeft(carry);
    assert r[..|r|] == r && r[|r|..] == [];
    while carry > 0
      invariant MulAdd(digits, b) == r + CarryDigits(carry)
    {
      CarryStep(r, carry);
      r := r + [carry % 58];
      carry := carry / 58;
    }
    NoDigitsLeft(0);
    assert r + [] == r;
  }

  lemma NoDigitsLeft(carry: nat)
    ensures MulAdd([], carry) == CarryDigits(carry) && CarryDigits(0) == []
  {
  }

  /** base58check; None stands for the exception on an empty payload. */
  method Base58Check(sha: Sha256, payload: Bytes) returns (r: Option<string>)
    ensures r == if payload == [] then None else Some(Address(sha, payload))
  {
    hide MulAdd;
    if payload == [] {
      return None;
    }
    var h2 := sha(sha(payload));
    var full := payload + h2[..4];
    var leadingZeros := CountLeadingZeros(payload);
    var digits: seq<Digit> := [0];
    for i := 0 to |full|
      invariant digits == DigitsOf(full[..i])
    {
      assert full[..i + 1][..i] == full[..i];
      digits := AddByte(digits, full[i]);
    }
    assert full[..|full|] == full;
    var result := WriteDigits(leadingZeros, digits);
    return Some(result);
  }

  method CountLeadingZeros(payload: Bytes) returns (leadingZeros: nat)
    ensures leadingZeros == LeadingZeroBytes(payload)
  {
    leadingZeros := 0;
    for i := 0 to |payload|
      invariant leadingZeros == i && LeadingZeroBytes(payload) == i + LeadingZeroBytes(payload[i..])
    {
      if payload[i] != 0 {
        break;
      }
      leadingZeros := leadingZeros + 1;
      assert payload[i..][1..] == payload[i + 1..];
    }
  }

  method WriteDigits(leadingZeros: nat, digits: seq<Digit>) returns (result: string)
    ensures result == Chars(ZeroDigits(leadingZeros) + Flipped(digits))
  {
    result := "";
    for i := 0 to leadingZeros
      invariant result == Chars(ZeroDigits(i))
    {
      assert Base58Char(0) == '1';
      result := result + "1";
    }
    assert ZeroDigits(leadingZeros) + Flipped(digits)[..0] == ZeroDigits(leadingZeros);
    for i := |digits| downto 0
      invariant result == Chars(ZeroDigits(leadingZeros) + Flipped(digits)[..|digits| - i])
    {
      result := result + [Base58Char(digits[i])];
    }
    assert Flipped(digits)[..|digits|] == Flipped(digits);
  }
}
