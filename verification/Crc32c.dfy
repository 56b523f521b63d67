/** CRC32C (src/message_codec.cpp:49-101) with the polynomial of section 12.1 of RFC 3720. */
module Crc32c {
  import opened Arithmetic
  import opened ByteStrings

  const POLY: bv32 := 0x82F6_3B78
  const ALL_ONES: bv32 := 0xFFFF_FFFF

  // ---------------------------------------------------------------- the reference register

  /** The k lowest bits of n, least significant first. */
  function LowBits(n: nat, k: nat): (r: seq<bool>)
    ensures |r| == k
  {
    if k == 0 then [] else [n % 2 == 1] + LowBits(n / 2, k - 1)
  }

  /** The bits of a byte in transmission order. */
  function ReflectedBits(b: Byte): (r: seq<bool>)
    ensures |r| == 8
  {
    LowBits(b, 8)
  }

  function Bits(s: Bytes): (r: seq<bool>)
    ensures |r| == 8 * |s|
  {
    if s == [] then [] else ReflectedBits(s[0]) + Bits(s[1..])
  }

  /** One message bit enters the reflected register: the feedback is the register's low bit
      against the message bit. */
  function FeedBit(r: bv32, bit: bool): bv32 {
    if (r & 1 == 1) != bit then (r >> 1) ^ POLY else r >> 1
  }

  function FeedBits(r: bv32, bits: seq<bool>): bv32
    decreases bits
  {
    if bits == [] then r else FeedBits(FeedBit(r, bits[0]), bits[1..])
  }

  /** The checksum of a byte string, by its definition on message bits. */
  function Checksum(s: Bytes): bv32 {
    FeedBits(ALL_ONES, Bits(s)) ^ ALL_ONES
  }

  // ---------------------------------------------------------------- the table

  function Xor(a: bv32, b: bv32): bv32 {
    a ^ b
  }

  /** The inner step of buildCrcTable, with a mask in place of a branch. */
  function Step(r: bv32): bv32 {
    Xor(r >> 1, Feedback(r & 1))
  }

  function Feedback(low: bv32): bv32 {
    POLY & (0 - low)
  }

  function Steps(r: bv32, n: nat): bv32
    decreases n
  {
    if n == 0 then r else Steps(Step(r), n - 1)
  }

  predicate IsTable(table: seq<bv32>) {
    |table| == 256 && forall i :: 0 <= i < 256 ==> table[i] == Steps(i as bv32, 8)
  }

  method BuildCrcTable() returns (table: seq<bv32>)
    ensures IsTable(table)
  {
    hide Step;
    table := [];
    for i := 0 to 256
      invariant |table| == i && forall j :: 0 <= j < i ==> table[j] == Steps(j as bv32, 8)
    {
      var crc := i as bv32;
      for b := 0 to 8
        invariant Steps(crc, 8 - b) == Steps(i as bv32, 8)
      {
        crc := Step(crc);
      }
      table := table + [crc];
    }
  }

  /** A byte promoted to a 32-bit word. */
  function Promote(b: Byte): bv32 {
    Word(ReflectedBits(b))
  }

  /** The table slot a register and a byte select. */
  function Slot(r: bv32, b: Byte): bv32 {
    Xor(r, Promote(b)) & 0xFF
  }

  method Compute(data: Bytes) returns (crc: bv32)
    ensures crc == Checksum(data)
  {
    hide FeedBits, Steps, ReflectedBits, Word, Xor, Fold;
    var table := BuildCrcTable();
    crc := ALL_ONES;
    for i := 0 to |data|
      invariant FeedBits(crc, Bits(data[i..])) == FeedBits(ALL_ONES, Bits(data))
    {
      TableStep(crc, data[i]);
      FeedConcat(crc, ReflectedBits(data[i]), Bits(data[i + 1..]));
      assert data[i..][1..] == data[i + 1..];
      crc := Fold(crc, table[Slot(crc, data[i]) as int]);
    }
    FeedNothing(crc);
    crc := crc ^ ALL_ONES;
  }

  function Fold(r: bv32, entry: bv32): bv32 {
    Xor(r >> 8, entry)
  }

  lemma FeedNothing(r: bv32)
    ensures FeedBits(r, Bits([])) == r
  {
  }

  // ---------------------------------------------------------------- xor-linearity

  function Low(bit: bool): bv32 {
    if bit then 1 else 0
  }

  /** Message bits as a word, the first one lowest. */
  function Word(bits: seq<bool>): bv32 {
    if bits == [] then 0 else Push(Low(bits[0]), Word(bits[1..]))
  }

  function Push(low: bv32, rest: bv32): bv32 {
    Xor(low, rest << 1)
  }

  function Double(v: bv32): bv32 {
    v << 1
  }

  /** The n lowest bits set. */
  function Mask(n: nat): bv32 {
    if n == 0 then 0 else Grown(Mask(n - 1))
  }

  function Grown(mask: bv32): bv32 {
    (mask << 1) | 1
  }

  predicate Inside(w: bv32, mask: bv32) {
    w & mask == w
  }

  predicate TopClear(w: bv32) {
    w & 0x8000_0000 == 0
  }

  lemma PushInside(w: bv32, mask: bv32)
    requires Inside(w, mask)
    ensures forall bit :: Inside(Push(Low(bit), w), Grown(mask))
  {
  }

  lemma {:induction false} WordInside(bits: seq<bool>)
    ensures Inside(Word(bits), Mask(|bits|))
  {
    hide Inside, Push, Low;
    if bits != [] {
      WordInside(bits[1..]);
      PushInside(Word(bits[1..]), Mask(|bits| - 1));
    } else {
      ZeroInside();
    }
  }

  lemma ZeroInside()
    ensures Inside(0, 0)
  {
  }

  lemma MaskValues()
    ensures Mask(8) == 0xFF && Mask(31) == 0x7FFF_FFFF
  {
    assert Mask(2) == 0x3 && Mask(4) == 0xF && Mask(6) == 0x3F && Mask(8) == 0xFF;
    assert Mask(10) == 0x3FF && Mask(12) == 0xFFF && Mask(14) == 0x3FFF && Mask(16) == 0xFFFF;
    assert Mask(18) == 0x3_FFFF && Mask(20) == 0xF_FFFF && Mask(22) == 0x3F_FFFF && Mask(24) == 0xFF_FFFF;
    assert Mask(26) == 0x3FF_FFFF && Mask(28) == 0xFFF_FFFF && Mask(30) == 0x3FFF_FFFF;
  }

  lemma ShiftInside(w: bv32, mask: bv32)
    requires Inside(w, mask)
    ensures Inside(Grown(w), Grown(mask))
  {
  }

  lemma AnyInside(mask: bv32)
    ensures Inside(0, mask)
  {
  }

  lemma {:induction false} MaskInside(m: nat, n: nat)
    requires m <= n
    ensures Inside(Mask(m), Mask(n))
  {
    hide Inside;
    if m == 0 {
      AnyInside(Mask(n));
    } else {
      MaskInside(m - 1, n - 1);
      ShiftInside(Mask(m - 1), Mask(n - 1));
    }
  }

  lemma InsideTopClear(w: bv32, mask: bv32, top: bv32)
    requires Inside(w, mask) && Inside(mask, top) && top == 0x7FFF_FFFF
    ensures TopClear(w)
  {
  }

  /** Fewer than 32 message bits leave the top bit of their word clear. */
  lemma WordTopClear(bits: seq<bool>)
    requires |bits| < 32
    ensures TopClear(Word(bits))
  {
    hide Inside, TopClear, Word, Mask;
    MaskValues();
    MaskInside(|bits|, 31);
    WordInside(bits);
    InsideTopClear(Word(bits), Mask(|bits|), Mask(31));
  }

  lemma FeedbackValues()
    ensures Feedback(0) == 0 && Feedback(1) == POLY
  {
  }

  lemma LowBit(r: bv32)
    ensures r & 1 == 0 || r & 1 == 1
  {
  }

  /** Flipping the low bit of a word flips what is masked out and nothing of what is shifted. */
  lemma FlipLow(r: bv32)
    ensures (r ^ 1) >> 1 == r >> 1 && (r ^ 1) & 1 == (r & 1) ^ 1
  {
  }

  lemma MessageBit(r: bv32, bit: bool)
    ensures Xor(r, Low(bit)) >> 1 == r >> 1
    ensures Xor(r, Low(bit)) & 1 == if (r & 1 == 1) != bit then 1 else 0
  {
    LowBit(r);
    if bit {
      FlipLow(r);
      FlippedBit(r);
    } else {
      XorZero(r);
    }
  }

  lemma FlippedBit(r: bv32)
    ensures (r & 1) ^ 1 == if r & 1 == 1 then 0 else 1
  {
    LowBit(r);
  }

  lemma XorWith(x: bv32, y: bv32)
    ensures Xor(x, y) == x ^ y
  {
  }

  lemma FeedIsStep(r: bv32, bit: bool)
    ensures FeedBit(r, bit) == Step(Xor(r, Low(bit)))
  {
    hide Feedback, Xor, Low;
    MessageBit(r, bit);
    FeedbackValues();
    XorZero(r >> 1);
    XorWith(r >> 1, POLY);
  }

  /** The step is linear: xoring into the register before it is xoring, shifted, after it. */
  lemma StepShift(x: bv32, y: bv32, v: bv32)
    requires y & 1 == 0 && y >> 1 == v
    ensures Step(Xor(x, y)) == Xor(Step(x), v)
  {
    hide Feedback, Xor;
    XorShift(x, y);
    XorSwap(x >> 1, v, Feedback(x & 1));
  }

  lemma XorShift(x: bv32, y: bv32)
    requires y & 1 == 0
    ensures Xor(x, y) >> 1 == Xor(x >> 1, y >> 1) && Xor(x, y) & 1 == x & 1
  {
    calc {
      Xor(x, y) >> 1;
      (x ^ y) >> 1;
      { XorHalf(x, y); }
      (x >> 1) ^ (y >> 1);
      Xor(x >> 1, y >> 1);
    }
    calc {
      Xor(x, y) & 1;
      (x ^ y) & 1;
      { XorHalf(x, y); }
      x & 1;
    }
  }

  lemma XorHalf(x: bv32, y: bv32)
    requires y & 1 == 0
    ensures (x ^ y) >> 1 == (x >> 1) ^ (y >> 1) && (x ^ y) & 1 == x & 1
  {
  }

  lemma ShiftBack(v: bv32)
    requires TopClear(v)
    ensures (v << 1) & 1 == 0 && (v << 1) >> 1 == v
  {
  }

  lemma DoubleHalf(v: bv32)
    requires TopClear(v)
    ensures Double(v) & 1 == 0 && Double(v) >> 1 == v
  {
    ShiftBack(v);
  }

  lemma XorAssociates(a: bv32, b: bv32, c: bv32)
    ensures Xor(Xor(a, b), c) == Xor(a, Xor(b, c))
  {
  }

  lemma XorCommutes(a: bv32, b: bv32)
    ensures Xor(a, b) == Xor(b, a)
  {
  }

  lemma XorSwap(a: bv32, b: bv32, c: bv32)
    ensures Xor(Xor(a, b), c) == Xor(Xor(a, c), b)
  {
    hide Xor;
    XorAssociates(a, b, c);
    XorCommutes(b, c);
    XorAssociates(a, c, b);
  }

  lemma StepLinear(r: bv32, low: bv32, rest: bv32)
    requires TopClear(rest)
    ensures Xor(Step(Xor(r, low)), rest) == Step(Xor(r, Push(low, rest)))
  {
    hide Step, TopClear, Xor;
    ShiftBack(rest);
    StepShift(Xor(r, low), rest << 1, rest);
    XorAssociates(r, low, rest << 1);
  }

  lemma XorZero(r: bv32)
    ensures Xor(r, 0) == r
  {
  }

  /** Feeding up to 32 bits is folding them in as one word and stepping the register. */
  lemma {:induction false} FeedAsWord(r: bv32, bits: seq<bool>)
    requires |bits| <= 32
    ensures FeedBits(r, bits) == Steps(Xor(r, Word(bits)), |bits|)
    decreases bits
  {
    hide Xor, Step, Push, Low, FeedBit, TopClear;
    if bits == [] {
      XorZero(r);
    } else {
      FeedIsStep(r, bits[0]);
      FeedAsWord(FeedBit(r, bits[0]), bits[1..]);
      WordTopClear(bits[1..]);
      StepLinear(r, Low(bits[0]), Word(bits[1..]));
    }
  }

  /** One table look-up does the work of eight register steps. */
  lemma TableStep(r: bv32, b: Byte)
    ensures FeedBits(r, ReflectedBits(b)) == Fold(r, Steps(Slot(r, b), 8))
  {
    hide FeedBits, Word, Steps, ReflectedBits, Inside, Xor, Fold;
    FeedAsWord(r, ReflectedBits(b));
    MaskValues();
    WordInside(ReflectedBits(b));
    EightSteps(r, Promote(b), Mask(8));
  }

  lemma EightSteps(r: bv32, w: bv32, mask: bv32)
    requires Inside(w, mask) && mask == 0xFF
    ensures Steps(Xor(r, w), 8) == Fold(r, Steps(Xor(r, w) & 0xFF, 8))
  {
    hide Steps, Step, Shifted, Xor, Fits;
    HighAndLow(r, w);
    ByteSteps(Xor(r, w) & 0xFF, r >> 8);
    XorCommutes(Steps(Xor(r, w) & 0xFF, 8), r >> 8);
  }

  lemma ByteSteps(low: bv32, high: bv32)
    requires high & 0xFF00_0000 == 0
    ensures Steps(Xor(low, high << 8), 8) == Xor(Steps(low, 8), high)
  {
    hide Steps, Xor, Shifted, Fits;
    ShiftedByte(high);
    StepsShift(low, high, 8);
  }

  lemma HighAndLow(r: bv32, w: bv32)
    requires w & 0xFF == w
    ensures Xor(r, w) == Xor(Xor(r, w) & 0xFF, (r >> 8) << 8)
    ensures (r >> 8) & 0xFF00_0000 == 0
  {
  }

  /** v shifted left by n bits, one at a time. */
  function Shifted(v: bv32, n: nat): bv32 {
    if n == 0 then v else Double(Shifted(v, n - 1))
  }

  /** No bit is lost on the way. */
  ghost predicate Fits(v: bv32, n: nat) {
    forall k :: 0 <= k < n ==> TopClear(Shifted(v, k))
  }

  lemma EightDoublings(v: bv32)
    ensures Double(Double(Double(Double(Double(Double(Double(Double(v)))))))) == v << 8
  {
  }

  lemma ShiftedUnfold(v: bv32, n: nat)
    ensures Shifted(v, 0) == v && Shifted(v, n + 1) == Double(Shifted(v, n))
  {
  }

  lemma MaskStep(n: nat)
    ensures Mask(n + 1) == Grown(Mask(n))
  {
  }

  lemma DoubledInside(w: bv32, mask: bv32)
    requires Inside(w, mask)
    ensures Inside(Double(w), Grown(mask))
  {
  }

  lemma {:induction false} ShiftedInside(v: bv32, m: nat, n: nat)
    requires Inside(v, Mask(m))
    ensures Inside(Shifted(v, n), Mask(m + n))
  {
    hide Inside, Shifted, Mask, Double, Grown;
    if n == 0 {
      ShiftedUnfold(v, 0);
    } else {
      ShiftedInside(v, m, n - 1);
      ShiftedUnfold(v, n - 1);
      MaskStep(m + n - 1);
      DoubledInside(Shifted(v, n - 1), Mask(m + n - 1));
    }
  }

  lemma ShiftedFits(v: bv32)
    requires Inside(v, Mask(24))
    ensures Fits(v, 8)
  {
    hide Inside, TopClear, Mask;
    MaskValues();
    forall k | 0 <= k < 8
      ensures TopClear(Shifted(v, k))
    {
      ShiftedInside(v, 24, k);
      MaskInside(24 + k, 31);
      InsideTopClear(Shifted(v, k), Mask(24 + k), Mask(31));
    }
  }

  lemma HighByteInside(v: bv32)
    requires v & 0xFF00_0000 == 0
    ensures Inside(v, Mask(24))
  {
    assert Mask(6) == 0x3F;
    assert Mask(12) == 0xFFF;
    assert Mask(18) == 0x3_FFFF;
    assert Mask(24) == 0x00FF_FFFF;
  }

  lemma ShiftedByte(v: bv32)
    requires v & 0xFF00_0000 == 0
    ensures Shifted(v, 8) == v << 8 && Fits(v, 8)
  {
    hide Inside, TopClear, Mask, Fits, Shifted, Double;
    HighByteInside(v);
    ShiftedFits(v);
    EightDoublings(v);
    ShiftedUnfold(v, 0);
    ShiftedUnfold(v, 1);
    ShiftedUnfold(v, 2);
    ShiftedUnfold(v, 3);
    ShiftedUnfold(v, 4);
    ShiftedUnfold(v, 5);
    ShiftedUnfold(v, 6);
    ShiftedUnfold(v, 7);
  }

  /** What was xored in n bits higher comes out unshifted after n steps. */
  lemma {:induction false} StepsShift(x: bv32, v: bv32, n: nat)
    requires Fits(v, n)
    ensures Steps(Xor(x, Shifted(v, n)), n) == Xor(Steps(x, n), v)
    decreases n
  {
    hide Step, Steps, Xor, TopClear, Shifted, Double, Fits;
    if n == 0 {
      ShiftedUnfold(v, 0);
      StepsUnfold(x, 0);
      StepsUnfold(Xor(x, v), 0);
    } else {
      var low := Shifted(v, n - 1);
      ShiftedUnfold(v, n - 1);
      FitsBelow(v, n);
      DoubleHalf(low);
      StepShift(x, Double(low), low);
      StepsUnfold(Xor(x, Double(low)), n - 1);
      StepsUnfold(x, n - 1);
      StepsShift(Step(x), v, n - 1);
    }
  }

  lemma StepsUnfold(x: bv32, n: nat)
    ensures Steps(x, 0) == x && Steps(x, n + 1) == Steps(Step(x), n)
  {
  }

  lemma FitsBelow(v: bv32, n: nat)
    requires Fits(v, n) && n > 0
    ensures TopClear(Shifted(v, n - 1)) && Fits(v, n - 1)
  {
    hide TopClear, Shifted;
  }

  lemma {:induction false} FeedConcat(r: bv32, a: seq<bool>, b: seq<bool>)
    ensures FeedBits(r, a + b) == FeedBits(FeedBits(r, a), b)
    decreases a
  {
    hide FeedBit;
    if a == [] {
      assert a + b == b;
    } else {
      assert (a + b)[1..] == a[1..] + b;
      FeedConcat(FeedBit(r, a[0]), a[1..], b);
    }
  }

  // ---------------------------------------------------------------- burst detection

  lemma StepInjective(r: bv32, s: bv32)
    requires Step(r) == Step(s)
    ensures r == s
  {
  }

  lemma {:induction false} StepsInjective(r: bv32, s: bv32, n: nat)
    requires Steps(r, n) == Steps(s, n)
    ensures r == s
    decreases n
  {
    hide Step;
    if n > 0 {
      StepsInjective(Step(r), Step(s), n - 1);
      StepInjective(r, s);
    }
  }

  lemma XorCancel(a: bv32, b: bv32, c: bv32)
    ensures Xor(a, c) == Xor(b, c) ==> a == b
    ensures Xor(c, a) == Xor(c, b) ==> a == b
  {
  }

  /** The same bits keep two different registers apart. */
  lemma {:induction false} FeedInjectiveInRegister(r: bv32, s: bv32, bits: seq<bool>)
    requires FeedBits(r, bits) == FeedBits(s, bits)
    ensures r == s
    decreases bits
  {
    hide FeedBit, Step, Xor, Low;
    if bits != [] {
      var low := Low(bits[0]);
      FeedInjectiveInRegister(FeedBit(r, bits[0]), FeedBit(s, bits[0]), bits[1..]);
      FeedIsStep(r, bits[0]);
      FeedIsStep(s, bits[0]);
      StepInjective(Xor(r, low), Xor(s, low));
      XorCancel(r, s, low);
    }
  }

  lemma PushInjective(bit: bool, bit': bool, a: bv32, b: bv32)
    requires TopClear(a) && TopClear(b) && Push(Low(bit), a) == Push(Low(bit'), b)
    ensures bit == bit' && a == b
  {
  }

  lemma {:induction false} WordInjective(a: seq<bool>, b: seq<bool>)
    requires |a| == |b| <= 32 && Word(a) == Word(b)
    ensures a == b
    decreases a
  {
    hide Push, Low, TopClear;
    if a != [] {
      WordTopClear(a[1..]);
      WordTopClear(b[1..]);
      PushInjective(a[0], b[0], Word(a[1..]), Word(b[1..]));
      WordInjective(a[1..], b[1..]);
      assert a == [a[0]] + a[1..] && b == [b[0]] + b[1..];
    }
  }

  lemma {:induction false} BitsInjective(s: Bytes, t: Bytes)
    requires |s| == |t| && Bits(s) == Bits(t)
    ensures s == t
  {
    hide ReflectedBits;
    if s != [] {
      assert ReflectedBits(s[0]) == Bits(s)[..8] && ReflectedBits(t[0]) == Bits(t)[..8];
      assert Bits(s[1..]) == Bits(s)[8..] && Bits(t[1..]) == Bits(t)[8..];
      BitsInjective(s[1..], t[1..]);
      ByteInjective(s[0], t[0]);
      assert s == [s[0]] + s[1..] && t == [t[0]] + t[1..];
    }
  }

  lemma {:induction false} LowBitsInjective(m: nat, n: nat, k: nat)
    requires m < Pow2(k) && n < Pow2(k) && LowBits(m, k) == LowBits(n, k)
    ensures m == n
    decreases k
  {
    if k > 0 {
      var x, y := LowBits(m, k), LowBits(n, k);
      assert x[0] == y[0] && x[1..] == LowBits(m / 2, k - 1) && y[1..] == LowBits(n / 2, k - 1);
      LowBitsInjective(m / 2, n / 2, k - 1);
    }
  }

  lemma ByteInjective(b: Byte, c: Byte)
    requires ReflectedBits(b) == ReflectedBits(c)
    ensures b == c
  {
    assert Pow2(4) == 16 && Pow2(8) == 256;
    LowBitsInjective(b, c, 8);
  }

  /** Same length, and the same message bits outside a window of 32 from bit p on. */
  ghost predicate DifferOnlyInBurst(s: Bytes, t: Bytes, p: nat) {
    && |s| == |t|
    && forall i :: 0 <= i < 8 * |s| && !(p <= i < p + 32) ==> Bits(s)[i] == Bits(t)[i]
  }

  /** Damage confined to 32 consecutive bits always changes the checksum, whatever the length
      of the message and wherever the burst starts. */
  lemma BurstDetected(s: Bytes, t: Bytes, p: nat)
    requires DifferOnlyInBurst(s, t, p) && s != t
    ensures Checksum(s) != Checksum(t)
  {
    hide FeedBits, Bits;
    if Checksum(s) == Checksum(t) {
      var a, b := Bits(s), Bits(t);
      XorCancel(FeedBits(ALL_ONES, a), FeedBits(ALL_ONES, b), ALL_ONES);
      BurstOfBits(a, b, p);
      BitsInjective(s, t);
    }
  }

  lemma BurstOfBits(a: seq<bool>, b: seq<bool>, p: nat)
    requires |a| == |b| && forall i :: 0 <= i < |a| && !(p <= i < p + 32) ==> a[i] == b[i]
    requires FeedBits(ALL_ONES, a) == FeedBits(ALL_ONES, b)
    ensures a == b
  {
    hide FeedBits;
    var from := if p <= |a| then p else |a|;
    var to := if from + 32 <= |a| then from + 32 else |a|;
    CutInThree(a, from, to);
    CutInThree(b, from, to);
    SameSlice(a, b, 0, from);
    SameSlice(a, b, to, |a|);
    assert a[0..from] == a[..from] && b[0..from] == b[..from];
    assert a[to..|a|] == a[to..] && b[to..|a|] == b[to..];
    WindowInjective(FeedBits(ALL_ONES, a[..from]), a[from..to], b[from..to], a[to..], a[..from]);
  }

  lemma CutInThree(s: seq<bool>, from: nat, to: nat)
    requires from <= to <= |s|
    ensures s == s[..from] + (s[from..to] + s[to..])
  {
  }

  lemma SameSlice(a: seq<bool>, b: seq<bool>, from: nat, to: nat)
    requires from <= to <= |a| == |b| && forall i :: from <= i < to ==> a[i] == b[i]
    ensures a[from..to] == b[from..to]
  {
  }

  lemma WindowInjective(r: bv32, v: seq<bool>, w: seq<bool>, tail: seq<bool>, head: seq<bool>)
    requires |v| == |w| <= 32 && r == FeedBits(ALL_ONES, head)
    requires FeedBits(ALL_ONES, head + (v + tail)) == FeedBits(ALL_ONES, head + (w + tail))
    ensures v == w
  {
    hide FeedBits, Steps, Word, Xor;
    FeedConcat(ALL_ONES, head, v + tail);
    FeedConcat(ALL_ONES, head, w + tail);
    FeedConcat(r, v, tail);
    FeedConcat(r, w, tail);
    FeedInjectiveInRegister(FeedBits(r, v), FeedBits(r, w), tail);
    FeedAsWord(r, v);
    FeedAsWord(r, w);
    StepsInjective(Xor(r, Word(v)), Xor(r, Word(w)), |v|);
    XorCancel(Word(v), Word(w), r);
    WordInjective(v, w);
  }

  lemma {:induction false} BitsAt(s: Bytes, i: nat)
    requires i < 8 * |s|
    ensures Bits(s)[i] == ReflectedBits(s[i / 8])[i % 8]
  {
    if i >= 8 {
      BitsAt(s[1..], i - 8);
    }
  }

  /** Any four consecutive bytes are such a window. */
  lemma FourBytesAreABurst(s: Bytes, t: Bytes, at: nat)
    requires |s| == |t|
    requires forall i :: 0 <= i < |s| && !(at <= i < at + 4) ==> s[i] == t[i]
    ensures DifferOnlyInBurst(s, t, 8 * at)
  {
    forall i | 0 <= i < 8 * |s| && !(8 * at <= i < 8 * at + 32)
      ensures Bits(s)[i] == Bits(t)[i]
    {
      BitsAt(s, i);
      BitsAt(t, i);
      assert !(at <= i / 8 < at + 4);
    }
  }

  // ---------------------------------------------------------------- the bytes themselves

  lemma {:induction false} LowBitAt(n: nat, k: nat, j: nat)
    requires j < k
    ensures LowBits(n, k)[j] == (n / Pow2(j) % 2 == 1)
  {
    if j > 0 {
      LowBitAt(n / 2, k - 1, j - 1);
      DivTwice(n, Pow2(j - 1));
    }
  }

  /** Bytes go in order, and each byte's bits least significant first. */
  lemma BitOrder(s: Bytes, i: nat, k: nat)
    requires i < |s| && k < 8
    ensures Bits(s)[8 * i + k] == (s[i] / Pow2(k) % 2 == 1)
  {
    hide Bits, Pow2;
    assert (8 * i + k) / 8 == i && (8 * i + k) % 8 == k;
    BitsAt(s, 8 * i + k);
    LowBitAt(s[i], 8, k);
  }

  /** The number a word of bits denotes, the first bit lowest. */
  function Denoted(bits: seq<bool>): nat {
    if bits == [] then 0 else (if bits[0] then 1 else 0) + 2 * Denoted(bits[1..])
  }

  lemma RawPush(v: bv32)
    requires v & 0x8000_0000 == 0
    ensures (1 ^ (v << 1)) as int == 2 * (v as int) + 1 && (0 ^ (v << 1)) as int == 2 * (v as int)
  {
  }

  lemma PushedWords(v: bv32)
    ensures Push(Low(true), v) == 1 ^ (v << 1) && Push(Low(false), v) == 0 ^ (v << 1)
  {
  }

  lemma PushAsInt(bit: bool, v: bv32)
    requires TopClear(v)
    ensures Push(Low(bit), v) as int == (if bit then 1 else 0) + 2 * (v as int)
  {
    RawPush(v);
    hide Push, Low, TopClear;
    PushedWords(v);
    if bit {
      assert Push(Low(true), v) as int == 2 * (v as int) + 1;
    } else {
      assert Push(Low(false), v) as int == 2 * (v as int);
    }
  }

  lemma {:induction false} WordDenotes(bits: seq<bool>)
    requires |bits| <= 32
    ensures Word(bits) as int == Denoted(bits)
  {
    hide Push, Low, TopClear;
    if bits != [] {
      WordDenotes(bits[1..]);
      WordTopClear(bits[1..]);
      PushAsInt(bits[0], Word(bits[1..]));
    }
  }

  lemma {:induction false} LowBitsDenote(n: nat, k: nat)
    requires n < Pow2(k)
    ensures Denoted(LowBits(n, k)) == n
  {
    if k > 0 {
      LowBitsDenote(n / 2, k - 1);
      assert LowBits(n, k)[1..] == LowBits(n / 2, k - 1);
    }
  }

  /** The word promoted from a byte is the byte, so the table is indexed by (crc ^ byte) & 0xFF. */
  lemma PromoteIsByte(b: Byte)
    ensures Promote(b) as int == b
  {
    hide Word, LowBits;
    assert Pow2(8) == 256 by { assert Pow2(4) == 16; }
    WordDenotes(ReflectedBits(b));
    LowBitsDenote(b, 8);
  }

  lemma BitsOfA()
    ensures ReflectedBits(0x61) == [true, false, false, false, false, true, true, false]
  {
    var bits := ReflectedBits(0x61);
    assert Pow2(4) == 16 && Pow2(5) == 32 && Pow2(6) == 64 && Pow2(7) == 128;
    forall k: nat | k < 8
      ensures bits[k] == (0x61 / Pow2(k) % 2 == 1)
    {
      LowBitAt(0x61, 8, k);
    }
  }

  lemma FeedNext(r: bv32, bits: seq<bool>, k: nat)
    requires k < |bits|
    ensures FeedBits(r, bits[k..]) == FeedBits(FeedBit(r, bits[k]), bits[k + 1..])
  {
    assert bits[k..][1..] == bits[k + 1..];
  }

  /** A published value of CRC32C: the checksum of the one letter "a". */
  lemma CheckValue()
    ensures Checksum([0x61]) == 0xC1D0_4330
  {
    hide ReflectedBits, FeedBits;
    BitsOfA();
    var bits := ReflectedBits(0x61);
    assert Bits([0x61]) == bits by {
      assert [0x61][1..] == [] && Bits([]) == [];
    }
    assert bits[0..] == bits;
    FeedNext(0xFFFF_FFFF, bits, 0);
    assert FeedBit(0xFFFF_FFFF, true) == 0x7FFF_FFFF;
    FeedNext(0x7FFF_FFFF, bits, 1);
    assert FeedBit(0x7FFF_FFFF, false) == 0xBD09_C487;
    FeedNext(0xBD09_C487, bits, 2);
    assert FeedBit(0xBD09_C487, false) == 0xDC72_D93B;
    FeedNext(0xDC72_D93B, bits, 3);
    assert FeedBit(0xDC72_D93B, false) == 0xECCF_57E5;
    FeedNext(0xECCF_57E5, bits, 4);
    assert FeedBit(0xECCF_57E5, false) == 0xF491_908A;
    FeedNext(0xF491_908A, bits, 5);
    assert FeedBit(0xF491_908A, true) == 0xF8BE_F33D;
    FeedNext(0xF8BE_F33D, bits, 6);
    assert FeedBit(0xF8BE_F33D, true) == 0x7C5F_799E;
    FeedNext(0x7C5F_799E, bits, 7);
    assert FeedBit(0x7C5F_799E, false) == 0x3E2F_BCCF;
    FedNothing(0x3E2F_BCCF, bits);
  }

  lemma FedNothing(r: bv32, bits: seq<bool>)
    ensures FeedBits(r, bits[|bits|..]) == r
  {
  }
}
