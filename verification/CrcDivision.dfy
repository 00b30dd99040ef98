/** What the CRC-32 of a message is: the remainder of a division, with the values RFC 2083 relies on. */
module CrcDivision {
  import opened Bytes
  import opened Crc32

  // ----- Polynomials -----

  /** The powers in the generator of ISO 3309, which section 3.4 of RFC 2083 prescribes. */
  const EXPONENTS := {32, 26, 23, 22, 16, 12, 11, 10, 8, 7, 5, 4, 2, 1, 0}

  /** A polynomial over the field of two elements, its highest coefficient first. */
  function Generator(): (g: seq<bool>)
    ensures |g| == 33 && g[0]
  {
    seq(33, k requires 0 <= k < 33 => 32 - k in EXPONENTS)
  }

  /** A polynomial times the generator. */
  function Product(q: seq<bool>): (p: seq<bool>)
    ensures |p| == |q| + 32
  {
    if q == [] then seq(32, _ => false) else Added(q[0], Product(q[1..]))
  }

  /** A product, with the generator at its head added if the next coefficient is set. */
  function Added(t: bool, p: seq<bool>): (sum: seq<bool>)
    ensures |sum| == |p| + 1
  {
    seq(|p| + 1, k requires 0 <= k < |p| + 1 => (t && k <= 32 && Generator()[k]) != (k > 0 && p[k - 1]))
  }

  /** Dividing leaves the remainder `r` and the quotient `q`. */
  ghost predicate Remains(dividend: seq<bool>, q: seq<bool>, r: seq<bool>) {
    && |dividend| == |q| + 32 && |r| == 32
    && forall k :: 0 <= k < |dividend| ==> dividend[k] == (Product(q)[k] != (k >= |q| && r[k - |q|]))
  }

  /** A message with 32 zeros behind it, a word added to its first 32 bits. */
  function Loaded(v: bv32, bits: seq<bool>): (d: seq<bool>)
    ensures |d| == |bits| + 32
  {
    seq(|bits| + 32, k requires 0 <= k < |bits| + 32 => (k < |bits| && bits[k]) != (k < 32 && LowBits(32, v)[k]))
  }

  lemma {:induction false} LowBitAt(n: nat, w: bv32, i: nat)
    requires i < n
    ensures LowBits(n, w)[i] == Odd(Halves(i, w))
  {
    hide Odd, Half;
    if i > 0 {
      LowBitAt(n - 1, Half(w), i - 1);
    }
  }

  lemma AllHalved(w: bv32)
    ensures Halves(32, w) == 0
  {
    hide Mask, Within, Halves;
    Mask31();
    HalfLaws(0, w, 0);
    MaskedRunsOut(32, w);
  }

  lemma OddLaws(a: bv32, b: bv32)
    ensures Odd(Xor(a, b)) == (Odd(a) != Odd(b))
    ensures !Odd(0) && Half(0) == 0
  {
  }

  lemma BitLaws(b: bool)
    ensures Odd(Bit(b)) == b && Half(Bit(b)) == 0
  {
  }

  lemma {:induction false} HalvesOfXor(n: nat, a: bv32, b: bv32)
    ensures Halves(n, Xor(a, b)) == Xor(Halves(n, a), Halves(n, b))
  {
    hide Xor, Half;
    if n > 0 {
      HalfIsLinear(a, b);
      HalvesOfXor(n - 1, Half(a), Half(b));
    }
  }

  lemma {:induction false} HalvesOfZero(n: nat)
    ensures Halves(n, 0) == 0
  {
    if n > 0 {
      OddLaws(0, 0);
      hide Half;
      HalvesOfZero(n - 1);
    }
  }

  lemma {:induction false} LowBitsSplit(m: nat, n: nat, w: bv32)
    ensures LowBits(m + n, w) == LowBits(m, w) + LowBits(n, Halves(m, w))
  {
    hide Odd, Half;
    if m > 0 {
      LowBitsSplit(m - 1, n, Half(w));
    }
  }

  /** Bit `k` of the shifted register: the one above it, and the fold when the low bit is set. */
  lemma StepBits(v: bv32, b: bool, k: nat)
    requires 1 <= k <= 32
    ensures LowBits(32, Step(v, b))[k - 1]
         == ((k < 32 && LowBits(32, v)[k]) != ((b != Odd(v)) && LowBits(32, 0xedb88320)[k - 1]))
  {
    var u := Xor(v, Bit(b));
    OddLaws(v, Bit(b));
    BitLaws(b);
    FoldByOdd(u);
    hide Xor, Half, Fold, Odd, Bit, LowBits;
    LowBitAt(32, Step(v, b), k - 1);
    HalvesOfXor(k - 1, Half(u), Fold(u));
    OddLaws(Halves(k - 1, Half(u)), Halves(k - 1, Fold(u)));
    LowBitAt(32, 0xedb88320, k - 1);
    HalvesOfZero(k - 1);
    OddLaws(0, 0);
    assert Halves(k - 1, Half(u)) == Halves(k, u);
    HalvesOfXor(k, v, Bit(b));
    assert Halves(k, Bit(b)) == Halves(k - 1, 0) == 0;
    XorLaws(Halves(k, v), 0);
    if k < 32 {
      LowBitAt(32, v, k);
    } else {
      AllHalved(v);
    }
  }

  lemma FoldByOdd(u: bv32)
    ensures Fold(u) == if Odd(u) then 0xedb88320 else 0
  {
    if u & 1 == 1 {
      FoldOfOdd(u);
    } else {
      assert u & 1 == 0;
      FoldOfEven(u);
    }
  }

  lemma LastNibble(w: bv32)
    ensures LowBits(4, w) == [Odd(w), Odd(Half(w)), Odd(Half(Half(w))), Odd(Half(Half(Half(w))))]
    ensures Halves(4, w) == Half(Half(Half(Half(w))))
  {
    hide Odd, Half;
    assert LowBits(1, Half(Half(Half(w)))) == [Odd(Half(Half(Half(w))))] + LowBits(0, Half(Half(Half(Half(w)))));
    assert LowBits(2, Half(Half(w))) == [Odd(Half(Half(w)))] + LowBits(1, Half(Half(Half(w))));
    assert LowBits(3, Half(w)) == [Odd(Half(w))] + LowBits(2, Half(Half(w)));
    assert Halves(1, Half(Half(Half(w)))) == Half(Half(Half(Half(w))));
    assert Halves(2, Half(Half(w))) == Halves(1, Half(Half(Half(w))));
    assert Halves(3, Half(w)) == Halves(2, Half(Half(w)));
  }

  /** Four bits of the generator's word, and what is left of it. */
  lemma NibbleOf(w: bv32, b0: bool, b1: bool, b2: bool, b3: bool, rest: bv32)
    requires rest == w >> 4 && b0 == (w & 1 != 0) && b1 == (w & 2 != 0) && b2 == (w & 4 != 0) && b3 == (w & 8 != 0)
    ensures LowBits(4, w) == [b0, b1, b2, b3] && Halves(4, w) == rest
  {
    LastNibble(w);
  }

  const LOW_HALF := [false, false, false, false, false, true, false, false, true, true, false, false, false, false, false, true]
  const HIGH_HALF := [false, false, false, true, true, true, false, true, true, false, true, true, false, true, true, true]

  lemma GeneratorBits()
    ensures LowBits(32, 0xedb88320) == Generator()[1..]
  {
    hide LowBits;
    WordBits();
    forall k | 1 <= k < 33 ensures Generator()[k] == (LOW_HALF + HIGH_HALF)[k - 1] {
    }
  }

  lemma WordBits()
    ensures LowBits(32, 0xedb88320) == LOW_HALF + HIGH_HALF
  {
    hide Odd, Half;
    LowWordBits();
    HighWordBits();
    LowBitsSplit(16, 16, 0xedb88320);
  }

  lemma LowWordBits()
    ensures LowBits(16, 0xedb88320) == LOW_HALF && Halves(16, 0xedb88320) == 0xedb8
  {
    NibbleOf(0xedb88320, false, false, false, false, 0xedb8832);
    NibbleOf(0xedb8832, false, true, false, false, 0xedb883);
    NibbleOf(0xedb883, true, true, false, false, 0xedb88);
    NibbleOf(0xedb88, false, false, false, true, 0xedb8);
    hide Odd, Half;
    LowBitsSplit(4, 12, 0xedb88320);
    HalvesSplit(4, 12, 0xedb88320);
    LowBitsSplit(4, 8, 0xedb8832);
    HalvesSplit(4, 8, 0xedb8832);
    LowBitsSplit(4, 4, 0xedb883);
    HalvesSplit(4, 4, 0xedb883);
  }

  lemma HighWordBits()
    ensures LowBits(16, 0xedb8) == HIGH_HALF && Halves(16, 0xedb8) == 0x0
  {
    NibbleOf(0xedb8, false, false, false, true, 0xedb);
    NibbleOf(0xedb, true, true, false, true, 0xed);
    NibbleOf(0xed, true, false, true, true, 0xe);
    NibbleOf(0xe, false, true, true, true, 0x0);
    hide Odd, Half;
    LowBitsSplit(4, 12, 0xedb8);
    HalvesSplit(4, 12, 0xedb8);
    LowBitsSplit(4, 8, 0xedb);
    HalvesSplit(4, 8, 0xedb);
    LowBitsSplit(4, 4, 0xed);
    HalvesSplit(4, 4, 0xed);
  }

  lemma {:induction false} HalvesSplit(m: nat, n: nat, w: bv32)
    ensures Halves(m + n, w) == Halves(n, Halves(m, w))
  {
    hide Half;
    if m > 0 {
      HalvesSplit(m - 1, n, Half(w));
    }
  }

  /** Feeding a register divides: the message loaded with the first register leaves the last one. */
  lemma {:induction false} FeedDivides(v: bv32, bits: seq<bool>) returns (q: seq<bool>)
    ensures |q| == |bits| && Remains(Loaded(v, bits), q, LowBits(32, Feed(v, bits)))
    decreases |bits|
  {
    hide Step, Odd, Feed, LowBits;
    FeedOne(v, bits);
    if bits == [] {
      q := [];
    } else {
      var rest := FeedDivides(Step(v, bits[0]), bits[1..]);
      q := [bits[0] != Odd(v)] + rest;
      hide Loaded, Product, Remains;
      DivisionSteps(v, bits, rest);
    }
  }

  lemma DivisionSteps(v: bv32, bits: seq<bool>, rest: seq<bool>)
    requires bits != [] && |rest| == |bits| - 1
    requires var next := Step(v, bits[0]);
             Remains(Loaded(next, bits[1..]), rest, LowBits(32, Feed(next, bits[1..])))
    ensures Remains(Loaded(v, bits), [bits[0] != Odd(v)] + rest, LowBits(32, Feed(Step(v, bits[0]), bits[1..])))
  {
    hide Step, Odd, Feed, LowBits, Loaded, Product;
    var q, r := [bits[0] != Odd(v)] + rest, LowBits(32, Feed(Step(v, bits[0]), bits[1..]));
    forall k | 0 <= k < |bits| + 32
      ensures Loaded(v, bits)[k] == (Product(q)[k] != (k >= |q| && r[k - |q|]))
    {
      DivisionStep(v, bits, rest, k);
    }
  }

  lemma FeedOne(v: bv32, bits: seq<bool>)
    ensures Feed(v, bits) == if bits == [] then v else Feed(Step(v, bits[0]), bits[1..])
  {
  }

  lemma AddedAt(t: bool, p: seq<bool>, k: nat)
    requires |p| >= 32 && k <= |p|
    ensures Added(t, p)[k] == ((t && k <= 32 && Generator()[k]) != (k > 0 && p[k - 1]))
  {
    hide Generator;
  }

  lemma ProductAt(t: bool, rest: seq<bool>, k: nat)
    requires k <= |rest| + 32
    ensures Product([t] + rest)[k] == ((t && k <= 32 && Generator()[k]) != (k > 0 && Product(rest)[k - 1]))
  {
    hide Generator, Product, Added;
    ProductIs(t, rest);
    AddedAt(t, Product(rest), k);
  }

  lemma ProductIs(t: bool, rest: seq<bool>)
    ensures Product([t] + rest) == Added(t, Product(rest))
  {
    assert ([t] + rest)[1..] == rest;
    hide Added;
  }

  lemma LowestBit(v: bv32)
    ensures LowBits(32, v)[0] == Odd(v)
  {
  }

  /** One coefficient of the dividend, by those of the quotient without its first. */
  lemma DivisionStep(v: bv32, bits: seq<bool>, rest: seq<bool>, k: nat)
    requires bits != [] && |rest| == |bits| - 1 && k < |bits| + 32
    requires var next := Step(v, bits[0]);
             Remains(Loaded(next, bits[1..]), rest, LowBits(32, Feed(next, bits[1..])))
    ensures var q := [bits[0] != Odd(v)] + rest;
            Loaded(v, bits)[k] ==
            (Product(q)[k] != (k >= |q| && LowBits(32, Feed(Step(v, bits[0]), bits[1..]))[k - |q|]))
  {
    hide Step, Odd, Feed, LowBits, Product;
    ProductAt(bits[0] != Odd(v), rest, k);
    if k == 0 {
      LowestBit(v);
    } else {
      if k <= 32 {
        StepBits(v, bits[0], k);
        GeneratorBits();
      }
      hide Generator;
      assert Loaded(Step(v, bits[0]), bits[1..])[k - 1]
          == (Product(rest)[k - 1] != (k - 1 >= |rest| && LowBits(32, Feed(Step(v, bits[0]), bits[1..]))[k - 1 - |rest|]));
    }
  }

  lemma {:induction false} QuotientUnique(p: seq<bool>, q: seq<bool>)
    requires |p| == |q| && forall k :: 0 <= k < |p| ==> Product(p)[k] == Product(q)[k]
    ensures p == q
  {
    if p != [] {
      hide Product;
      assert p == [p[0]] + p[1..] && q == [q[0]] + q[1..];
      ProductAt(p[0], p[1..], 0);
      ProductAt(q[0], q[1..], 0);
      assert Product(p)[0] == Product(q)[0];
      forall k | 0 <= k < |p| - 1 ensures Product(p[1..])[k] == Product(q[1..])[k] {
        ProductAt(p[0], p[1..], k + 1);
        ProductAt(q[0], q[1..], k + 1);
        assert Product(p)[k + 1] == Product(q)[k + 1];
      }
      QuotientUnique(p[1..], q[1..]);
    }
  }

  /** A message with 32 zeros behind it, its first 32 bits (those zeros, if it is shorter) inverted. */
  function Dividend(bits: seq<bool>): (d: seq<bool>)
    ensures |d| == |bits| + 32
  {
    seq(|bits| + 32, k requires 0 <= k < |bits| + 32 => (k < |bits| && bits[k]) != (k < 32))
  }

  function Complement(bits: seq<bool>): (c: seq<bool>)
    ensures |c| == |bits|
  {
    seq(|bits|, k requires 0 <= k < |bits| => !bits[k])
  }

  lemma SixteenOnes()
    ensures LowBits(16, 0xffff) == seq(16, _ => true)
  {
    NibbleOf(0xffff, true, true, true, true, 0xfff);
    NibbleOf(0xfff, true, true, true, true, 0xff);
    NibbleOf(0xff, true, true, true, true, 0xf);
    NibbleOf(0xf, true, true, true, true, 0x0);
    hide Odd, Half;
    LowBitsSplit(4, 12, 0xffff);
    LowBitsSplit(4, 8, 0xfff);
    LowBitsSplit(4, 4, 0xff);
    LowBitsSplit(4, 0, 0xf);
    assert LowBits(0, 0) == [];
  }

  lemma AllOnes()
    ensures LowBits(32, 0xffffffff) == seq(32, _ => true)
  {
    NibbleOf(0xffffffff, true, true, true, true, 0xfffffff);
    NibbleOf(0xfffffff, true, true, true, true, 0xffffff);
    NibbleOf(0xffffff, true, true, true, true, 0xfffff);
    NibbleOf(0xfffff, true, true, true, true, 0xffff);
    SixteenOnes();
    hide Odd, Half, LowBits;
    LowBitsSplit(4, 28, 0xffffffff);
    LowBitsSplit(4, 24, 0xfffffff);
    LowBitsSplit(4, 20, 0xffffff);
    LowBitsSplit(4, 16, 0xfffff);
  }

  lemma ComplementBits(w: bv32)
    ensures LowBits(32, Xor(w, 0xffffffff)) == Complement(LowBits(32, w))
  {
    hide Xor, Odd, Half, LowBits;
    forall i | 0 <= i < 32 ensures LowBits(32, Xor(w, 0xffffffff))[i] == !LowBits(32, w)[i] {
      LowBitAt(32, Xor(w, 0xffffffff), i);
      LowBitAt(32, w, i);
      LowBitAt(32, 0xffffffff, i);
      HalvesOfXor(i, w, 0xffffffff);
      OddLaws(Halves(i, w), Halves(i, 0xffffffff));
      AllOnes();
    }
  }

  /**
   * The checksum is the complement of the remainder that division by the generator leaves of the message
   * with its first 32 bits inverted: section 3.4 of RFC 2083, with no register.
   */
  lemma ChecksumIsRemainder(bytes: seq<Byte>, c: bv32)
    ensures c == Checksum(bytes) <==>
      exists q :: |q| == 8 * |bytes| && Remains(Dividend(Bits(bytes)), q, Complement(LowBits(32, c)))
  {
    hide LowBits, Checksum, Remains, Dividend, Complement;
    var q := ChecksumRemains(bytes);
    if p :| |p| == 8 * |bytes| && Remains(Dividend(Bits(bytes)), p, Complement(LowBits(32, c))) {
      RemainderUnique(Dividend(Bits(bytes)), p, Complement(LowBits(32, c)), q, Complement(LowBits(32, Checksum(bytes))));
      ComplementTwice(LowBits(32, c));
      ComplementTwice(LowBits(32, Checksum(bytes)));
      AllHalved(c);
      AllHalved(Checksum(bytes));
      LowBitsInjective(32, c, Checksum(bytes));
    }
  }

  lemma ChecksumRemains(bytes: seq<Byte>) returns (q: seq<bool>)
    ensures |q| == 8 * |bytes| && Remains(Dividend(Bits(bytes)), q, Complement(LowBits(32, Checksum(bytes))))
  {
    hide Feed, LowBits, Xor, Register, Bits, Remains, Complement;
    var bits, register := Bits(bytes), Register(0xffffffff, bytes);
    q := FeedDivides(0xffffffff, bits);
    RegisterFeedsBits(0xffffffff, bytes);
    LoadedOnes(bits);
    ComplementBits(Checksum(bytes));
    XorLaws(register, 0xffffffff);
  }

  lemma LoadedOnes(bits: seq<bool>)
    ensures Loaded(0xffffffff, bits) == Dividend(bits)
  {
    hide LowBits;
    AllOnes();
  }

  lemma ComplementTwice(bits: seq<bool>)
    ensures Complement(Complement(bits)) == bits
  {
  }

  lemma RemainderUnique(dividend: seq<bool>, p: seq<bool>, r: seq<bool>, q: seq<bool>, s: seq<bool>)
    requires Remains(dividend, p, r) && Remains(dividend, q, s)
    ensures p == q && r == s
  {
    hide Product;
    QuotientUnique(p, q);
    forall i | 0 <= i < 32 ensures r[i] == s[i] {
      assert dividend[|p| + i] == (Product(p)[|p| + i] != r[i]) == (Product(q)[|q| + i] != s[i]);
    }
  }

  /** The bits of a message are those of its bytes, each from its lowest to its highest. */
  lemma BitOrder(bytes: seq<Byte>, i: nat, j: nat)
    requires i < |bytes| && j < 8
    ensures Bits(bytes)[8 * i + j] == (bytes[i] / Pow2(j) % 2 == 1)
  {
    hide Bits, Digits, Pow2;
    BitsAt(bytes, i);
    assert Bits(bytes)[8 * i + j] == Bits(bytes)[8 * i..8 * i + 8][j];
    DigitAt(8, bytes[i], j);
  }

  lemma DigitsOfByte(b: Byte)
    ensures ByteBits(b) == [b % 2 == 1, b / 2 % 2 == 1, b / 4 % 2 == 1, b / 8 % 2 == 1,
                            b / 16 % 2 == 1, b / 32 % 2 == 1, b / 64 % 2 == 1, b / 128 % 2 == 1]
  {
    hide ByteBits, Pow2;
    SmallPowers();
    ByteBitAt(b, 0);
    ByteBitAt(b, 1);
    ByteBitAt(b, 2);
    ByteBitAt(b, 3);
    ByteBitAt(b, 4);
    ByteBitAt(b, 5);
    ByteBitAt(b, 6);
    ByteBitAt(b, 7);
  }

  lemma SmallPowers()
    ensures Pow2(0) == 1 && Pow2(1) == 2 && Pow2(2) == 4 && Pow2(3) == 8 && Pow2(4) == 16
    ensures Pow2(5) == 32 && Pow2(6) == 64 && Pow2(7) == 128
  {
    assert Pow2(4) == 16;
  }

  lemma ByteBitAt(b: Byte, j: nat)
    requires j < 8
    ensures ByteBits(b)[j] == (b / Pow2(j) % 2 == 1)
  {
    DigitAt(8, b, j);
  }

  lemma FourOnto<T>(x0: T, x1: T, x2: T, x3: T, rest: seq<T>)
    ensures [x0, x1, x2, x3] + rest == [x0] + ([x1] + ([x2] + ([x3] + rest)))
  {
  }

  lemma WordOfOne(b: bool, rest: seq<bool>)
    ensures Word([b] + rest) == Push(b, Word(rest))
  {
    hide Push;
    assert ([b] + rest)[1..] == rest;
  }

  lemma WordOfFour(b0: bool, b1: bool, b2: bool, b3: bool, rest: seq<bool>)
    ensures Word([b0, b1, b2, b3] + rest) == Push(b0, Push(b1, Push(b2, Push(b3, Word(rest)))))
  {
    hide Push, Word;
    FourOnto(b0, b1, b2, b3, rest);
    WordOfOne(b3, rest);
    WordOfOne(b2, [b3] + rest);
    WordOfOne(b1, [b2] + ([b3] + rest));
    WordOfOne(b0, [b1] + ([b2] + ([b3] + rest)));
  }

  lemma WordOfEight(b0: bool, b1: bool, b2: bool, b3: bool, b4: bool, b5: bool, b6: bool, b7: bool)
    ensures Word([b0, b1, b2, b3, b4, b5, b6, b7])
         == Push(b0, Push(b1, Push(b2, Push(b3, Push(b4, Push(b5, Push(b6, Push(b7, 0))))))))
  {
    assert Word([]) == 0;
    hide Push, Word;
    WordOfFour(b4, b5, b6, b7, []);
    WordOfFour(b0, b1, b2, b3, [b4, b5, b6, b7]);
    assert [b4, b5, b6, b7] + [] == [b4, b5, b6, b7];
    assert [b0, b1, b2, b3] + [b4, b5, b6, b7] == [b0, b1, b2, b3, b4, b5, b6, b7];
  }

  lemma EndWords()
    ensures Word(ByteBits(73)) == 73 && Word(ByteBits(69)) == 69
    ensures Word(ByteBits(78)) == 78 && Word(ByteBits(68)) == 68
  {
    hide ByteBits, Word;
    DigitsOfByte(73);
    DigitsOfByte(69);
    DigitsOfByte(78);
    DigitsOfByte(68);
    WordOfEight(true, false, false, true, false, false, true, false);
    WordOfEight(true, false, true, false, false, false, true, false);
    WordOfEight(false, true, true, true, false, false, true, false);
    WordOfEight(false, false, true, false, false, false, true, false);
  }

  lemma EndShifts()
    ensures Shifts(8, 0xffffffb6) == 0x22fde946
    ensures Shifts(8, 0x22fde903) == 0x992bac53
    ensures Shifts(8, 0x992bac1d) == 0x639f4775
    ensures Shifts(8, 0x639f4731) == 0x51bd9f7d
  {
  }

  lemma EndXors()
    ensures Xor(0xffffffff, 73) == 0xffffffb6
    ensures Xor(0x22fde946, 69) == 0x22fde903
    ensures Xor(0x992bac53, 78) == 0x992bac1d
    ensures Xor(0x639f4775, 68) == 0x639f4731
    ensures Xor(0x51bd9f7d, 0xffffffff) == 0xae426082
  {
  }

  lemma EndRegister()
    ensures Checksum([73, 69, 78, 68]) == 0xae426082
  {
    EndWords();
    EndShifts();
    EndXors();
    hide Shifts, Xor, Word, ByteBits;
    var end: seq<Byte> := [73, 69, 78, 68];
    assert end[1..] == [69, 78, 68] && end[1..][1..] == [78, 68] && end[1..][1..][1..] == [68];
    assert end[1..][1..][1..][1..] == [];
  }

  lemma ValueOfNibble(n: nat, w: bv32, digit: nat, rest: bv32)
    requires rest == w >> 4
    requires digit == (if w & 1 != 0 then 1 else 0) + (if w & 2 != 0 then 2 else 0)
                    + (if w & 4 != 0 then 4 else 0) + (if w & 8 != 0 then 8 else 0)
    ensures Value(LowBits(n + 4, w)) == digit + 16 * Value(LowBits(n, rest))
  {
    var b0, b1, b2, b3 := w & 1 != 0, w & 2 != 0, w & 4 != 0, w & 8 != 0;
    NibbleOf(w, b0, b1, b2, b3, rest);
    LowBitsSplit(4, n, w);
    hide LowBits, Halves;
    ValueOfFour(b0, b1, b2, b3, LowBits(n, rest));
  }

  lemma ValueOfOne(b: bool, rest: seq<bool>)
    ensures Value([b] + rest) == (if b then 1 else 0) + 2 * Value(rest)
  {
    assert ([b] + rest)[1..] == rest;
  }

  lemma ValueOfFour(b0: bool, b1: bool, b2: bool, b3: bool, rest: seq<bool>)
    ensures Value([b0, b1, b2, b3] + rest) ==
            (if b0 then 1 else 0) + (if b1 then 2 else 0) + (if b2 then 4 else 0) + (if b3 then 8 else 0) + 16 * Value(rest)
  {
    hide Value;
    FourOnto(b0, b1, b2, b3, rest);
    ValueOfOne(b3, rest);
    ValueOfOne(b2, [b3] + rest);
    ValueOfOne(b1, [b2] + ([b3] + rest));
    ValueOfOne(b0, [b1] + ([b2] + ([b3] + rest)));
  }

  lemma NoBits()
    ensures Value(LowBits(0, 0)) == 0
  {
  }

  lemma EndValue()
    ensures Value(LowBits(32, 0xae426082)) == 0xae426082
  {
    hide LowBits, Value;
    ValueOfNibble(28, 0xae426082, 2, 0xae42608);
    ValueOfNibble(24, 0xae42608, 8, 0xae4260);
    ValueOfNibble(20, 0xae4260, 0, 0xae426);
    ValueOfNibble(16, 0xae426, 6, 0xae42);
    ValueOfNibble(12, 0xae42, 2, 0xae4);
    ValueOfNibble(8, 0xae4, 4, 0xae);
    ValueOfNibble(4, 0xae, 14, 0xa);
    ValueOfNibble(0, 0xa, 10, 0x0);
    NoBits();
  }

  lemma {:induction false} ZeroValue(n: nat)
    ensures Value(LowBits(n, 0)) == 0
  {
    if n > 0 {
      OddLaws(0, 0);
      hide Odd, Half;
      ZeroValue(n - 1);
    }
  }

  /** The checksum of nothing is 0, and the one that ends every PNG file is AE 42 60 82. */
  lemma KnownChecksums()
    ensures ChecksumValue([]) == 0
    ensures ChecksumValue([73, 69, 78, 68]) == 0xae426082
  {
    EndRegister();
    EndValue();
    ZeroValue(32);
    XorLaws(0xffffffff, 0);
    hide Value, LowBits, Xor;
  }
}
