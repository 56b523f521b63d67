/** Bytes, big-endian numbers of fixed and of minimal width, and the growing byte buffer
    that every encoder of the node appends to. Positions inside a larger buffer are
    expressed by StandsAt, patched placeholders by Patched. */
module ByteStrings {

  type Byte = x: int | 0 <= x < 256

  type Bytes = seq<Byte>

  /** An unsigned 64-bit value, also a size. */
  type U64 = x: int | 0 <= x < 0x1_0000_0000_0000_0000

  const U32_LIMIT: nat := 0x1_0000_0000
  const U64_LIMIT: nat := 0x1_0000_0000_0000_0000

  function Pow256(k: nat): (r: nat)
    ensures r > 0
  {
    if k == 0 then 1 else 256 * Pow256(k - 1)
  }

  /** The number a byte string denotes, most significant byte first. */
  function FromBE(s: Bytes): nat {
    if s == [] then 0 else FromBE(s[..|s| - 1]) * 256 + s[|s| - 1]
  }

  /** The low k bytes of n, most significant first. */
  function ToBE(n: nat, k: nat): (s: Bytes)
    ensures |s| == k
  {
    if k == 0 then [] else ToBE(n / 256, k - 1) + [n % 256]
  }

  /** The shortest byte string that denotes n; zero is the empty string. */
  function MinBE(n: nat): Bytes {
    if n == 0 then [] else MinBE(n / 256) + [n % 256]
  }

  function Zeros(k: nat): (s: Bytes)
    ensures |s| == k && forall i :: 0 <= i < k ==> s[i] == 0
  {
    seq(k, i => 0)
  }

  function Reversed(s: Bytes): (r: Bytes)
    ensures |r| == |s|
  {
    if s == [] then [] else [s[|s| - 1]] + Reversed(s[..|s| - 1])
  }

  lemma WidthLimits()
    ensures Pow256(4) == U32_LIMIT && Pow256(8) == U64_LIMIT
  {
    assert Pow256(2) == 65536;
    assert Pow256(4) == U32_LIMIT;
    assert Pow256(6) == 65536 * U32_LIMIT;
  }

  lemma {:induction false} PowMonotone(j: nat, k: nat)
    requires j <= k
    ensures Pow256(j) <= Pow256(k)
  {
    if j < k {
      PowMonotone(j, k - 1);
    }
  }

  lemma {:induction false} FromBEBound(s: Bytes)
    ensures FromBE(s) < Pow256(|s|)
  {
    if s != [] {
      FromBEBound(s[..|s| - 1]);
    }
  }

  lemma {:induction false} FromToBE(n: nat, k: nat)
    requires n < Pow256(k)
    ensures FromBE(ToBE(n, k)) == n
  {
    if k > 0 {
      FromToBE(n / 256, k - 1);
      assert ToBE(n, k)[..k - 1] == ToBE(n / 256, k - 1);
    }
  }

  lemma {:induction false} ToFromBE(s: Bytes)
    ensures ToBE(FromBE(s), |s|) == s
  {
    if s != [] {
      ToFromBE(s[..|s| - 1]);
      assert s == s[..|s| - 1] + [s[|s| - 1]];
    }
  }

  lemma {:induction false} FromMinBE(n: nat)
    ensures FromBE(MinBE(n)) == n
    ensures n > 0 ==> MinBE(n) != [] && MinBE(n)[0] != 0
  {
    if n > 0 {
      FromMinBE(n / 256);
      assert MinBE(n)[..|MinBE(n)| - 1] == MinBE(n / 256);
    }
  }

  lemma MinBEUnfold(n: nat)
    ensures n > 0 ==> MinBE(n) == MinBE(n / 256) + [n % 256]
    ensures n == 0 ==> MinBE(n) == []
  {
  }

  lemma ReversedPush(s: Bytes, b: Byte)
    ensures Reversed(s + [b]) == [b] + Reversed(s)
  {
    assert (s + [b])[..|s|] == s;
  }

  /** One turn of a loop that takes the lowest byte off t and collects it. */
  lemma PushDigit(n: nat, t: nat, buf: Bytes)
    requires t > 0 && MinBE(n) == MinBE(t) + Reversed(buf)
    ensures MinBE(n) == MinBE(t / 256) + Reversed(buf + [t % 256])
  {
    hide MinBE, Reversed;
    var high, d := MinBE(t / 256), [t % 256];
    MinBEUnfold(t);
    ReversedPush(buf, t % 256);
    assert high + d + Reversed(buf) == high + (d + Reversed(buf));
  }

  /** A byte string without a leading zero is the minimal form of its own value. */
  lemma {:induction false} MinFromBE(s: Bytes)
    requires s == [] || s[0] != 0
    ensures MinBE(FromBE(s)) == s
    ensures s != [] ==> FromBE(s) > 0
  {
    if s != [] {
      var init, last := s[..|s| - 1], s[|s| - 1];
      MinFromBE(init);
      assert s == init + [last];
      var n := FromBE(s);
      assert n == FromBE(init) * 256 + last;
      assert n / 256 == FromBE(init) && n % 256 == last;
      assert init == [] ==> last == s[0];
      MinBEUnfold(n);
    }
  }

  lemma {:induction false} LeadingZeros(k: nat, s: Bytes)
    ensures FromBE(Zeros(k) + s) == FromBE(s)
  {
    if s != [] {
      LeadingZeros(k, s[..|s| - 1]);
      assert (Zeros(k) + s)[..k + |s| - 1] == Zeros(k) + s[..|s| - 1];
    } else if k > 0 {
      LeadingZeros(k - 1, s);
      assert (Zeros(k) + s)[..k - 1] == Zeros(k - 1) + s;
    }
  }

  /** The minimal form is no longer than any other byte string of the same value, and of the
      same length only when it is that string. */
  lemma {:induction false} MinBEShortest(s: Bytes)
    ensures |MinBE(FromBE(s))| <= |s|
    ensures |MinBE(FromBE(s))| == |s| <==> (s == [] || s[0] != 0)
    ensures MinBE(FromBE(s)) == s <==> (s == [] || s[0] != 0)
  {
    if s == [] || s[0] != 0 {
      MinFromBE(s);
    } else {
      LeadingZeros(1, s[1..]);
      assert s == Zeros(1) + s[1..];
      MinBEShortest(s[1..]);
    }
  }

  lemma {:induction false} MinBEWidth(n: nat, k: nat)
    ensures |MinBE(n)| <= k <==> n < Pow256(k)
  {
    if n < Pow256(k) {
      FromToBE(n, k);
      MinBEShortest(ToBE(n, k));
    } else {
      FromMinBE(n);
      FromBEBound(MinBE(n));
      if |MinBE(n)| <= k {
        PowMonotone(|MinBE(n)|, k);
      }
    }
  }

  /** The bytes s stand in data at offset. */
  ghost predicate StandsAt(s: Bytes, data: Bytes, offset: nat) {
    offset + |s| <= |data| && data[offset..offset + |s|] == s
  }

  lemma StandsAtParts(s: Bytes, t: Bytes, data: Bytes, offset: nat)
    ensures StandsAt(s + t, data, offset) <==> StandsAt(s, data, offset) && StandsAt(t, data, offset + |s|)
  {
    var mid, end := offset + |s|, offset + |s + t|;
    if end <= |data| {
      assert data[offset..end] == data[offset..mid] + data[mid..end];
      assert (data[offset..mid] + data[mid..end])[..|s|] == data[offset..mid];
      assert (data[offset..mid] + data[mid..end])[|s|..] == data[mid..end];
      assert (s + t)[..|s|] == s && (s + t)[|s|..] == t;
    }
  }

  lemma SliceOfSlice<T>(s: seq<T>, from: nat, to: nat, a: nat, b: nat)
    requires from <= to <= |s| && a <= b <= to - from
    ensures s[from..to][a..b] == s[from + a..from + b]
  {
    var t := s[from..to];
    forall i | 0 <= i < b - a
      ensures t[a..b][i] == s[from + a..from + b][i]
    {
      assert t[a..b][i] == t[a + i] == s[from + a + i];
    }
  }

  lemma SliceOfDrop<T>(s: seq<T>, from: nat, a: nat, b: nat)
    requires from <= |s| && a <= b <= |s| - from
    ensures s[from..][a..b] == s[from + a..from + b]
  {
    assert s[from..] == s[from..|s|];
    SliceOfSlice(s, from, |s|, a, b);
  }

  /** Byte strings one after the other. */
  function Joined(parts: seq<Bytes>): Bytes {
    if parts == [] then [] else parts[0] + Joined(parts[1..])
  }

  /** Appending the next part of a list of parts. */
  lemma AppendPart(done: Bytes, parts: seq<Bytes>, k: nat)
    requires k < |parts|
    ensures done + Joined(parts[k..]) == done + parts[k] + Joined(parts[k + 1..])
  {
    assert parts[k..][1..] == parts[k + 1..];
  }

  lemma NothingToAppend(done: Bytes, parts: seq<Bytes>)
    ensures done + Joined(parts[|parts|..]) == done
  {
  }

  /** Reading the next part of a list of parts. */
  lemma NextPart(parts: seq<Bytes>, k: nat, data: Bytes, offset: nat)
    requires k < |parts|
    ensures StandsAt(Joined(parts[k..]), data, offset)
            <==> StandsAt(parts[k], data, offset) && StandsAt(Joined(parts[k + 1..]), data, offset + |parts[k]|)
  {
    assert parts[k..][1..] == parts[k + 1..];
    StandsAtParts(parts[k], Joined(parts[k + 1..]), data, offset);
  }

  /** The byte loops of the big-endian writers. */
  method WriteBE(n: nat, k: nat) returns (s: Bytes)
    ensures s == ToBE(n, k)
  {
    s := [];
    var v := n;
    for i := 0 to k
      invariant ToBE(n, k) == ToBE(v, k - i) + s
    {
      assert ToBE(v, k - i) == ToBE(v / 256, k - i - 1) + [v % 256];
      assert ToBE(v / 256, k - i - 1) + [v % 256] + s == ToBE(v / 256, k - i - 1) + ([v % 256] + s);
      s := [v % 256] + s;
      v := v / 256;
    }
  }

  /** The byte loops of the big-endian readers. */
  method ReadBE(s: Bytes) returns (n: nat)
    ensures n == FromBE(s)
  {
    n := 0;
    for i := 0 to |s|
      invariant n == FromBE(s[..i])
    {
      assert s[..i + 1][..i] == s[..i];
      n := n * 256 + s[i];
    }
    assert s[..|s|] == s;
  }

  /** A string with its length prefix; the length is cast to 32 bits as in the source. */
  function StringBytes(s: Bytes): (r: Bytes)
    ensures |r| == 4 + |s|
  {
    ToBE(|s|, 4) + s
  }

  /** data with the bytes from pos on overwritten by s. */
  function Patched(data: Bytes, pos: nat, s: Bytes): (r: Bytes)
    requires pos + |s| <= |data|
    ensures |r| == |data|
  {
    data[..pos] + s + data[pos + |s|..]
  }

  /** Filling the front of a zeroed gap. */
  lemma PatchGap(done: Bytes, gap: nat, s: Bytes)
    requires |s| <= gap
    ensures Patched(done + Zeros(gap), |done|, s) == done + s + Zeros(gap - |s|)
  {
  }

  /** std::vector<uint8_t> as the encoders use it. */
  class Buffer {
    var data: Bytes

    constructor ()
      ensures data == []
    {
      data := [];
    }

    method PushBack(b: Byte)
      modifies this
      ensures data == old(data) + [b]
    {
      data := data + [b];
    }

    method Append(s: Bytes)
      modifies this
      ensures data == old(data) + s
    {
      data := data + s;
    }

    /** resize to a larger size: the new bytes are zero. */
    method Grow(k: nat)
      modifies this
      ensures data == old(data) + Zeros(k)
    {
      data := data + Zeros(k);
    }

    /** Overwrite the bytes at pos. */
    method Patch(pos: nat, s: Bytes)
      requires pos + |s| <= |data|
      modifies this
      ensures data == Patched(old(data), pos, s)
    {
      data := Patched(data, pos, s);
    }
  }
}
