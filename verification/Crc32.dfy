/** The bitwise CRC-32 of the icon codec, and the corruptions it is certain to notice. */
module Crc32 {
  import opened Bytes

  // ----- The algorithm -----

  function Xor(a: bv32, b: bv32): bv32 {
    a ^ b
  }

  function Half(v: bv32): bv32 {
    v >> 1
  }

  function Fold(v: bv32): bv32 {
    0xedb88320 & -(v & 1)
  }

  /** One turn of the inner loop: shift right and fold the dropped bit back in. */
  function Shift(v: bv32): bv32 {
    Xor(Half(v), Fold(v))
  }

  function Shifts(n: nat, v: bv32): bv32 {
    if n == 0 then v else Shifts(n - 1, Shift(v))
  }

  function Update(v: bv32, b: Byte): bv32 {
    Shifts(8, Xor(v, Word(ByteBits(b))))
  }

  function Register(v: bv32, bytes: seq<Byte>): bv32
    decreases |bytes|
  {
    if bytes == [] then v else Register(Update(v, bytes[0]), bytes[1..])
  }

  function Checksum(bytes: seq<Byte>): bv32 {
    Xor(Register(0xffffffff, bytes), 0xffffffff)
  }

  /** The checksum as the unsigned integer a chunk stores. */
  function ChecksumValue(bytes: seq<Byte>): nat {
    Value(LowBits(32, Checksum(bytes)))
  }

  method ComputeChecksum(bytes: seq<Byte>) returns (crc: bv32)
    ensures crc == Checksum(bytes)
  {
    hide Shift, Xor;
    var value: bv32 := 0xffffffff;
    for i := 0 to |bytes|
      invariant Register(value, bytes[i..]) == Register(0xffffffff, bytes)
    {
      ghost var next := Update(value, bytes[i]);
      value := Xor(value, Word(ByteBits(bytes[i])));
      for bit := 0 to 8
        invariant Shifts(8 - bit, value) == next
      {
        ShiftsStep(8 - bit, value);
        value := Xor(value >> 1, 0xedb88320 & -(value & 1));
      }
    }
    crc := Xor(value, 0xffffffff);
  }

  lemma ShiftsStep(n: nat, v: bv32)
    requires n > 0
    ensures Shifts(n, v) == Shifts(n - 1, Xor(v >> 1, 0xedb88320 & -(v & 1)))
  {
    hide Half, Fold, Xor;
    PartsOfShift(v);
  }

  lemma PartsOfShift(v: bv32)
    ensures Half(v) == v >> 1 && Fold(v) == 0xedb88320 & -(v & 1)
  {
  }

  // ----- Words and their bits, least significant first -----

  function Bit(b: bool): bv32 {
    if b then 1 else 0
  }

  predicate Odd(w: bv32) {
    w & 1 != 0
  }

  /** The word whose low bit is `b`, above it the bits of `w`. */
  function Push(b: bool, w: bv32): bv32 {
    if b then (w << 1) | 1 else w << 1
  }

  function Word(bits: seq<bool>): bv32 {
    if bits == [] then 0 else Push(bits[0], Word(bits[1..]))
  }

  function LowBits(n: nat, w: bv32): (bits: seq<bool>)
    ensures |bits| == n
  {
    if n == 0 then [] else [Odd(w)] + LowBits(n - 1, Half(w))
  }

  function Halves(n: nat, w: bv32): bv32 {
    if n == 0 then w else Halves(n - 1, Half(w))
  }

  /** The bits of a byte in the order the register meets them. */
  function ByteBits(b: Byte): (bits: seq<bool>)
    ensures |bits| == 8
  {
    Digits(8, b)
  }

  function Bits(bytes: seq<Byte>): (bits: seq<bool>)
    ensures |bits| == 8 * |bytes|
  {
    if bytes == [] then [] else ByteBits(bytes[0]) + Bits(bytes[1..])
  }

  predicate ClearTop(w: bv32) {
    w & 0x8000_0000 == 0
  }

  predicate Within(w: bv32, mask: bv32) {
    w & mask == w
  }

  lemma PushOdd(b: bool, w: bv32)
    ensures Odd(Push(b, w)) == b
  {
  }

  lemma PushHalf(b: bool, w: bv32)
    requires ClearTop(w)
    ensures Half(Push(b, w)) == w
    ensures Push(b, w) == 0 ==> !b && w == 0
  {
    if b {
    } else {
    }
  }

  lemma EvenWithin(w: bv32, m: bv32, d: bv32, q: bv32)
    requires Within(w, m) && d == w << 1 && q == (m << 1) | 1
    ensures Within(d, q)
  {
  }

  lemma OddWithin(w: bv32, m: bv32, d: bv32, q: bv32)
    requires Within(w, m) && d == (w << 1) | 1 && q == (m << 1) | 1
    ensures Within(d, q)
  {
  }

  lemma PushWithin(b: bool, w: bv32, m: bv32)
    requires Within(w, m)
    ensures Within(Push(b, w), Push(true, m))
  {
    hide Within;
    if b {
      OddWithin(w, m, Push(b, w), Push(true, m));
    } else {
      EvenWithin(w, m, Push(b, w), Push(true, m));
    }
  }

  lemma WithinClearTop(w: bv32, m: bv32)
    requires Within(w, m) && m == 0x7fff_ffff
    ensures ClearTop(w)
  {
  }

  lemma HalfLaws(v: bv32, w: bv32, m: bv32)
    ensures Half(v) == Half(w) && Odd(v) == Odd(w) ==> v == w
    ensures Within(w, Push(true, m)) && ClearTop(m) ==> Within(Half(w), m)
    ensures Within(w, 0) ==> w == 0
    ensures Within(w, 0xffff_ffff)
  {
  }

  /** The lowest `n` positions. */
  function Mask(n: nat): bv32 {
    if n == 0 then 0 else Push(true, Mask(n - 1))
  }

  lemma Mask31()
    ensures Mask(31) == 0x7fff_ffff && Mask(32) == 0xffff_ffff
  {
    assert Mask(4) == 0xf && Mask(8) == 0xff && Mask(12) == 0xfff && Mask(16) == 0xffff;
    assert Mask(20) == 0xf_ffff && Mask(24) == 0xff_ffff && Mask(28) == 0xfff_ffff;
  }

  lemma {:induction false} WordWithinMask(bits: seq<bool>, n: nat)
    requires |bits| <= n
    ensures Within(Word(bits), Mask(n))
  {
    hide Push;
    if bits == [] {
      assert Word(bits) == 0;
    } else {
      hide Within;
      WordWithinMask(bits[1..], n - 1);
      PushWithin(bits[0], Word(bits[1..]), Mask(n - 1));
    }
  }

  lemma ShortWordFits(bits: seq<bool>)
    requires |bits| <= 31
    ensures ClearTop(Word(bits))
  {
    hide Word, Mask, Within, ClearTop;
    WordWithinMask(bits, 31);
    Mask31();
    WithinClearTop(Word(bits), Mask(31));
  }

  lemma {:induction false} BitsOfWord(bits: seq<bool>)
    requires |bits| <= 31
    ensures LowBits(|bits|, Word(bits)) == bits
    ensures Halves(|bits|, Word(bits)) == 0
  {
    hide Push, Odd, Half, ClearTop;
    if bits != [] {
      BitsOfWord(bits[1..]);
      ShortWordFits(bits[1..]);
      PushOdd(bits[0], Word(bits[1..]));
      PushHalf(bits[0], Word(bits[1..]));
    }
  }

  lemma {:induction false} MaskedRunsOut(n: nat, w: bv32)
    requires n <= 32 && Within(w, Mask(n))
    ensures Halves(n, w) == 0
  {
    hide Push, Half, Within, ClearTop;
    if n == 0 {
      HalfLaws(0, w, 0);
    } else {
      ShortMaskFits(n - 1);
      HalfLaws(0, w, Mask(n - 1));
      MaskedRunsOut(n - 1, Half(w));
    }
  }

  lemma {:induction false} ShortMaskFits(n: nat)
    requires n <= 31
    ensures ClearTop(Mask(n))
  {
    hide ClearTop;
    MaskIsWord(n);
    ShortWordFits(seq(n, _ => true));
  }

  lemma {:induction false} MaskIsWord(n: nat)
    ensures Mask(n) == Word(seq(n, _ => true))
  {
    hide Push;
    if n != 0 {
      MaskIsWord(n - 1);
      assert seq(n, _ => true)[1..] == seq(n - 1, _ => true);
    }
  }

  lemma {:induction false} LowBitsInjective(n: nat, a: bv32, b: bv32)
    requires LowBits(n, a) == LowBits(n, b) && Halves(n, a) == Halves(n, b)
    ensures a == b
  {
    hide Half, Odd;
    if n != 0 {
      assert LowBits(n, a)[1..] == LowBits(n - 1, Half(a)) && LowBits(n, b)[1..] == LowBits(n - 1, Half(b));
      LowBitsInjective(n - 1, Half(a), Half(b));
      assert LowBits(n, a)[0] == LowBits(n, b)[0];
      HalfLaws(a, b, 0);
    }
  }

  /** Stored checksum integers agree exactly when the checksums do, and fit 32 bits. */
  lemma ChecksumValueFaithful(x: seq<Byte>, y: seq<Byte>)
    ensures ChecksumValue(x) < TWO_TO_THE_32
    ensures ChecksumValue(x) == ChecksumValue(y) <==> Checksum(x) == Checksum(y)
  {
    hide Checksum, LowBits, Halves, Mask, Within, Value, Pow2;
    var a, b := Checksum(x), Checksum(y);
    ValueBelow(LowBits(32, a));
    PowersOf2();
    if ChecksumValue(x) == ChecksumValue(y) {
      ValueInjective(LowBits(32, a), LowBits(32, b));
      Mask31();
      HalfLaws(0, a, 0);
      HalfLaws(0, b, 0);
      MaskedRunsOut(32, a);
      MaskedRunsOut(32, b);
      LowBitsInjective(32, a, b);
    }
  }

  // ----- Linearity -----

  lemma FoldIsLinear(a: bv32, b: bv32)
    ensures Fold(Xor(a, b)) == Xor(Fold(a), Fold(b))
  {
    assert (a ^ b) & 1 == (a & 1) ^ (b & 1);
    assert -((a & 1) ^ (b & 1)) == -(a & 1) ^ -(b & 1);
  }

  lemma HalfIsLinear(a: bv32, b: bv32)
    ensures Half(Xor(a, b)) == Xor(Half(a), Half(b))
  {
  }

  lemma XorAssociative(a: bv32, b: bv32, c: bv32)
    ensures Xor(a, Xor(b, c)) == Xor(Xor(a, b), c)
  {
  }

  lemma XorLaws(a: bv32, b: bv32)
    ensures Xor(a, b) == Xor(b, a)
    ensures Xor(a, 0) == a
    ensures Xor(a, a) == 0
    ensures Xor(Xor(a, b), b) == a
  {
  }

  lemma XorRegroup(a: bv32, p: bv32, b: bv32, q: bv32)
    ensures Xor(Xor(a, p), Xor(b, q)) == Xor(Xor(a, b), Xor(p, q))
  {
    hide Xor;
    XorAssociative(a, p, Xor(b, q));
    XorAssociative(p, b, q);
    XorAssociative(b, p, q);
    XorLaws(p, b);
    XorAssociative(a, b, Xor(p, q));
  }

  lemma ShiftIsLinear(a: bv32, b: bv32)
    ensures Shift(Xor(a, b)) == Xor(Shift(a), Shift(b))
  {
    hide Xor, Half, Fold;
    HalfIsLinear(a, b);
    FoldIsLinear(a, b);
    XorRegroup(Half(a), Fold(a), Half(b), Fold(b));
  }

  // ----- The register as a machine that consumes one bit at a time -----

  function Step(v: bv32, b: bool): bv32 {
    Shift(Xor(v, Bit(b)))
  }

  function Feed(v: bv32, bits: seq<bool>): bv32
    decreases |bits|
  {
    if bits == [] then v else Feed(Step(v, bits[0]), bits[1..])
  }

  /** A word without its lowest bit. */
  function Even(w: bv32): bv32 {
    w & 0xffff_fffe
  }

  lemma SplitLowBit(w: bv32)
    ensures w == Xor(Bit(Odd(w)), Even(w))
    ensures Half(Even(w)) == Half(w)
    ensures Fold(Even(w)) == 0
  {
  }

  /** Adding a word before a shift feeds its low bit and leaves the rest one place lower. */
  lemma PeelBit(v: bv32, w: bv32)
    ensures Shift(Xor(v, w)) == Xor(Step(v, Odd(w)), Half(w))
  {
    hide Xor, Half, Fold, Even, Bit, Odd;
    SplitLowBit(w);
    XorAssociative(v, Bit(Odd(w)), Even(w));
    ShiftIsLinear(Xor(v, Bit(Odd(w))), Even(w));
    XorLaws(Half(w), 0);
  }

  lemma {:induction false} ShiftsFeedLowBits(n: nat, v: bv32, w: bv32)
    ensures Shifts(n, Xor(v, w)) == Xor(Feed(v, LowBits(n, w)), Halves(n, w))
  {
    hide Shift, Step, Xor, Half, Odd;
    if n != 0 {
      PeelBit(v, w);
      ShiftsFeedLowBits(n - 1, Step(v, Odd(w)), Half(w));
    }
  }

  lemma UpdateFeedsByte(v: bv32, b: Byte)
    ensures Update(v, b) == Feed(v, ByteBits(b))
  {
    hide Feed, Shifts, LowBits, Halves, Xor, Word, ByteBits;
    ShiftsFeedLowBits(8, v, Word(ByteBits(b)));
    BitsOfWord(ByteBits(b));
    XorLaws(Feed(v, ByteBits(b)), 0);
  }

  lemma {:induction false} FeedAppend(v: bv32, s: seq<bool>, t: seq<bool>)
    ensures Feed(v, s + t) == Feed(Feed(v, s), t)
    decreases |s|
  {
    hide Step;
    if s == [] {
      assert s + t == t;
    } else {
      assert (s + t)[1..] == s[1..] + t;
      FeedAppend(Step(v, s[0]), s[1..], t);
    }
  }

  lemma {:induction false} RegisterFeedsBits(v: bv32, bytes: seq<Byte>)
    ensures Register(v, bytes) == Feed(v, Bits(bytes))
    decreases |bytes|
  {
    hide Step, Update, ByteBits;
    if bytes != [] {
      UpdateFeedsByte(v, bytes[0]);
      RegisterFeedsBits(Update(v, bytes[0]), bytes[1..]);
      FeedAppend(v, ByteBits(bytes[0]), Bits(bytes[1..]));
    }
  }

  // ----- Error patterns -----

  function Difference(x: seq<bool>, y: seq<bool>): (e: seq<bool>)
    requires |x| == |y|
    ensures |e| == |x|
  {
    seq(|x|, k requires 0 <= k < |x| => x[k] != y[k])
  }

  lemma XorOfBits(p: bool, q: bool)
    ensures Xor(Bit(p), Bit(q)) == Bit(p != q)
  {
  }

  lemma StepDifference(u: bv32, p: bool, v: bv32, q: bool)
    ensures Xor(Step(u, p), Step(v, q)) == Step(Xor(u, v), p != q)
  {
    hide Shift, Bit, Xor;
    ShiftIsLinear(Xor(u, Bit(p)), Xor(v, Bit(q)));
    XorRegroup(u, Bit(p), v, Bit(q));
    XorOfBits(p, q);
  }

  /** Two runs of the register differ exactly as the register fed with the error pattern alone. */
  lemma {:induction false} FeedDifference(u: bv32, x: seq<bool>, v: bv32, y: seq<bool>)
    requires |x| == |y|
    ensures Xor(Feed(u, x), Feed(v, y)) == Feed(Xor(u, v), Difference(x, y))
    decreases |x|
  {
    hide Step, Xor;
    if x != [] {
      StepDifference(u, x[0], v, y[0]);
      FeedDifference(Step(u, x[0]), x[1..], Step(v, y[0]), y[1..]);
      assert Difference(x, y)[1..] == Difference(x[1..], y[1..]);
    }
  }

  function Twice(w: bv32): bv32 {
    w << 1
  }

  lemma FoldOfEven(u: bv32)
    requires u & 1 == 0
    ensures Fold(u) == 0 && Twice(Half(u)) == u
  {
    assert 0xedb88320 & -(0 as bv32) == 0;
  }

  lemma FoldOfOdd(u: bv32)
    requires u & 1 == 1
    ensures Fold(u) == 0xedb88320
  {
    assert 0xedb88320 & -(1 as bv32) == 0xedb88320;
  }

  lemma FoldSetsTop(u: bv32)
    ensures ClearTop(Half(u)) && !ClearTop(Xor(Half(u), 0xedb88320))
  {
  }

  lemma BesideEven(h: bv32)
    ensures (h << 1) | 1 == Xor(Twice(h), 1)
  {
  }

  /** A shift that leaves the top position clear has only moved the register: its low bit was clear. */
  lemma ClearShift(u: bv32)
    requires ClearTop(Shift(u))
    ensures Half(u) == Shift(u) && Twice(Shift(u)) == u
  {
    hide Half, Fold, ClearTop, Xor, Twice;
    if u & 1 == 1 {
      FoldOfOdd(u);
      FoldSetsTop(u);
    } else {
      FoldOfEven(u);
      XorLaws(Half(u), 0);
    }
  }

  lemma PushIs(b: bool, w: bv32)
    ensures Push(b, w) == Xor(Twice(w), Bit(b))
  {
    if b {
      BesideEven(w);
      hide Twice, Xor;
    } else {
      XorLaws(Twice(w), 0);
      hide Xor;
    }
  }

  /** So a step can be undone whenever its result leaves the top position clear. */
  lemma StepUndone(v: bv32, b: bool)
    ensures ClearTop(Step(v, b)) ==> v == Push(b, Step(v, b))
  {
    hide Shift, ClearTop, Xor, Bit, Push, Twice;
    if ClearTop(Step(v, b)) {
      ClearShift(Xor(v, Bit(b)));
      PushIs(b, Step(v, b));
      XorLaws(v, Bit(b));
    }
  }

  /** And it loses nothing: only zero is stepped to zero. */
  lemma StepKeepsZero(v: bv32)
    ensures Step(v, false) == 0 <==> v == 0
  {
    XorLaws(v, 0);
    assert Bit(false) == 0;
    hide Shift, ClearTop, Xor, Bit, Twice;
    if Step(v, false) == 0 {
      ClearShift(Xor(v, Bit(false)));
    }
  }

  ghost predicate AllZero(e: seq<bool>) {
    forall k :: 0 <= k < |e| ==> !e[k]
  }

  lemma {:induction false} ZerosKeepZeroness(v: bv32, e: seq<bool>)
    requires AllZero(e)
    ensures Feed(v, e) == 0 <==> v == 0
    decreases |e|
  {
    hide Step;
    if e != [] {
      StepKeepsZero(v);
      ZerosKeepZeroness(Step(v, false), e[1..]);
    }
  }

  /** At most 32 fed bits bring the register to zero only if it held exactly those bits. */
  lemma {:induction false} ZeroedOnlyByOwnBits(v: bv32, e: seq<bool>)
    requires |e| <= 32 && Feed(v, e) == 0
    ensures v == Word(e)
    decreases |e|
  {
    hide Step, Push, ClearTop;
    if e != [] {
      ZeroedOnlyByOwnBits(Step(v, e[0]), e[1..]);
      ShortWordFits(e[1..]);
      StepUndone(v, e[0]);
    }
  }

  lemma {:induction false} ZeroWord(e: seq<bool>)
    requires |e| <= 32 && Word(e) == 0
    ensures AllZero(e)
  {
    hide Push, ClearTop;
    if e != [] {
      ShortWordFits(e[1..]);
      PushHalf(e[0], Word(e[1..]));
      ZeroWord(e[1..]);
      assert forall k :: 1 <= k < |e| ==> e[k] == e[1..][k - 1];
    }
  }

  /** An error pattern confined to 32 consecutive bits leaves a nonzero register unless it is empty. */
  lemma BurstLeavesTrace(e: seq<bool>, at: nat)
    requires at <= |e|
    requires forall k :: 0 <= k < |e| && e[k] ==> at <= k < at + 32
    ensures Feed(0, e) == 0 ==> AllZero(e)
  {
    hide Step;
    var end := if at + 32 < |e| then at + 32 else |e|;
    var before, burst, after := e[..at], e[at..end], e[end..];
    assert e == before + (burst + after);
    FeedAppend(0, before, burst + after);
    ZerosKeepZeroness(0, before);
    FeedAppend(0, burst, after);
    ZerosKeepZeroness(Feed(0, burst), after);
    if Feed(0, burst) == 0 {
      ZeroedOnlyByOwnBits(0, burst);
      ZeroWord(burst);
    }
  }

  // ----- What the checksum detects -----

  lemma {:induction false} BitsAt(bytes: seq<Byte>, i: nat)
    requires i < |bytes|
    ensures Bits(bytes)[8 * i..8 * i + 8] == ByteBits(bytes[i])
  {
    hide ByteBits;
    var head, tail := ByteBits(bytes[0]), Bits(bytes[1..]);
    if i != 0 {
      BitsAt(bytes[1..], i - 1);
      assert (head + tail)[8 * i..8 * i + 8] == tail[8 * (i - 1)..8 * (i - 1) + 8];
    }
  }

  lemma BitsInjective(x: seq<Byte>, y: seq<Byte>)
    requires Bits(x) == Bits(y)
    ensures x == y
  {
    hide Bits;
    forall i | 0 <= i < |x|
      ensures x[i] == y[i]
    {
      BitsAt(x, i);
      BitsAt(y, i);
      PowersOf2();
      ValueOfDigits(8, x[i]);
      ValueOfDigits(8, y[i]);
    }
  }

  /** Equal-length messages whose bits differ only inside 32 consecutive positions share a checksum only if equal. */
  lemma ShortBurstDetected(x: seq<Byte>, y: seq<Byte>, at: nat)
    requires |x| == |y|
    requires forall k :: 0 <= k < 8 * |x| && Bits(x)[k] != Bits(y)[k] ==> at <= k < at + 32
    ensures Checksum(x) == Checksum(y) <==> x == y
  {
    hide Step, Update, Xor;
    if Checksum(x) == Checksum(y) {
      var e := Difference(Bits(x), Bits(y));
      RegisterFeedsBits(0xffffffff, x);
      RegisterFeedsBits(0xffffffff, y);
      FeedDifference(0xffffffff, Bits(x), 0xffffffff, Bits(y));
      XorLaws(0xffffffff, 0);
      SameChecksumSameRegister(Register(0xffffffff, x), Register(0xffffffff, y));
      BurstLeavesTrace(e, if at <= |e| then at else |e|);
      assert forall k :: 0 <= k < |e| ==> (e[k] <==> Bits(x)[k] != Bits(y)[k]);
      BitsInjective(x, y);
    }
  }

  lemma SameChecksumSameRegister(a: bv32, b: bv32)
    requires Xor(a, 0xffffffff) == Xor(b, 0xffffffff)
    ensures Xor(a, b) == 0
  {
  }

  /** The byte-aligned case: corrupting up to four neighbouring bytes is always noticed. */
  lemma FourByteCorruptionDetected(x: seq<Byte>, y: seq<Byte>, at: nat)
    requires |x| == |y|
    requires forall i :: 0 <= i < |x| && x[i] != y[i] ==> at <= i < at + 4
    ensures Checksum(x) == Checksum(y) <==> x == y
  {
    hide ByteBits, Checksum;
    forall k | 0 <= k < 8 * |x| && Bits(x)[k] != Bits(y)[k]
      ensures 8 * at <= k < 8 * at + 32
    {
      var i := k / 8;
      BitsAt(x, i);
      BitsAt(y, i);
      assert Bits(x)[8 * i..8 * i + 8][k - 8 * i] == Bits(x)[k];
      assert Bits(y)[8 * i..8 * i + 8][k - 8 * i] == Bits(y)[k];
    }
    ShortBurstDetected(x, y, 8 * at);
  }
}
