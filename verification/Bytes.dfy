/** Bytes, their binary digits, and the fixed-width integers that container formats store in them. */
module Bytes {
  type Byte = b: int | 0 <= b < 256

  datatype Result<+T, +E> = Ok(value: T) | Err(error: E)

  datatype Option<+T> = None | Some(value: T)

  const TWO_TO_THE_32: int := 0x1_0000_0000

  // ----- Fixed-width integers -----

  /** The four bytes of an unsigned 32-bit integer, least significant first. */
  function Le32(n: nat): (bytes: seq<Byte>)
    requires n < TWO_TO_THE_32
    ensures |bytes| == 4 && FromLe32(bytes) == n
  {
    var high := n / 0x100 / 0x100;
    [n % 0x100, n / 0x100 % 0x100, high % 0x100, high / 0x100]
  }

  function FromLe32(bytes: seq<Byte>): (n: nat)
    requires |bytes| == 4
    ensures n < TWO_TO_THE_32
  {
    var b0: int, b1: int, b2: int, b3: int := bytes[0], bytes[1], bytes[2], bytes[3];
    b0 + 0x100 * (b1 + 0x100 * (b2 + 0x100 * b3))
  }

  /** The same, most significant first. */
  function Be32(n: nat): (bytes: seq<Byte>)
    requires n < TWO_TO_THE_32
    ensures |bytes| == 4 && FromBe32(bytes) == n
  {
    var le := Le32(n);
    [le[3], le[2], le[1], le[0]]
  }

  function FromBe32(bytes: seq<Byte>): (n: nat)
    requires |bytes| == 4
    ensures n < TWO_TO_THE_32
  {
    FromLe32([bytes[3], bytes[2], bytes[1], bytes[0]])
  }

  /** Four digits to the base 256, the first of most weight. */
  function Quad(b3: int, b2: int, b1: int, b0: int): int {
    0x100_0000 * b3 + 0x1_0000 * b2 + 0x100 * b1 + b0
  }

  lemma BigEndian(bytes: seq<Byte>)
    requires |bytes| == 4
    ensures FromBe32(bytes) == Quad(bytes[0], bytes[1], bytes[2], bytes[3])
    ensures Be32(FromBe32(bytes)) == bytes
  {
    LittleEndian([bytes[3], bytes[2], bytes[1], bytes[0]]);
  }

  lemma LittleEndian(bytes: seq<Byte>)
    requires |bytes| == 4
    ensures FromLe32(bytes) == Quad(bytes[3], bytes[2], bytes[1], bytes[0])
    ensures Le32(FromLe32(bytes)) == bytes
  {
    var n := FromLe32(bytes);
    var b0: int, b1: int, b2: int, b3: int := bytes[0], bytes[1], bytes[2], bytes[3];
    assert n == b0 + 0x100 * (b1 + 0x100 * (b2 + 0x100 * b3));
    assert n / 0x100 == b1 + 0x100 * (b2 + 0x100 * b3);
    assert n / 0x100 / 0x100 == b2 + 0x100 * b3;
  }

  function Le16(n: nat): (bytes: seq<Byte>)
    requires n < 0x1_0000
    ensures |bytes| == 2 && FromLe16(bytes) == n
  {
    [n % 0x100, n / 0x100]
  }

  function FromLe16(bytes: seq<Byte>): (n: nat)
    requires |bytes| == 2
    ensures n < 0x1_0000
  {
    var b0: int, b1: int := bytes[0], bytes[1];
    b0 + 0x100 * b1
  }

  /** `now` is `before` with `bytes` written at `at`. */
  predicate PlacedAt(before: seq<Byte>, now: seq<Byte>, at: nat, bytes: seq<Byte>) {
    at + |bytes| <= |before| && now == before[..at] + bytes + before[at + |bytes|..]
  }

  /** Neighbouring writes are one write. */
  lemma PlacedTwice(a: seq<Byte>, b: seq<Byte>, c: seq<Byte>, at: nat, x: seq<Byte>, y: seq<Byte>)
    requires PlacedAt(a, b, at, x) && PlacedAt(b, c, at + |x|, y)
    ensures PlacedAt(a, c, at, x + y)
  {
    assert |b| == |a| && |c| == |b|;
    forall k | 0 <= k < |c| ensures c[k] == (a[..at] + (x + y) + a[at + |x + y|..])[k] {
    }
  }

  lemma PlacedWhole(before: seq<Byte>, now: seq<Byte>, bytes: seq<Byte>)
    requires PlacedAt(before, now, 0, bytes) && |bytes| == |before|
    ensures now == bytes
  {
  }

  /** `Buffer.copy` and the fixed-width writes. */
  method CopyInto(source: seq<Byte>, target: array<Byte>, at: nat)
    requires at + |source| <= target.Length
    modifies target
    ensures PlacedAt(old(target[..]), target[..], at, source)
  {
    for i := 0 to |source|
      invariant forall k :: 0 <= k < target.Length ==>
        target[k] == if at <= k < at + i then source[k - at] else old(target[k])
    {
      target[at + i] := source[i];
    }
  }

  method Write16(n: nat, target: array<Byte>, at: nat)
    requires n < 0x1_0000 && at + 2 <= target.Length
    modifies target
    ensures PlacedAt(old(target[..]), target[..], at, Le16(n))
  {
    hide Le16;
    CopyInto(Le16(n), target, at);
  }

  method Write32(n: nat, target: array<Byte>, at: nat)
    requires n < TWO_TO_THE_32 && at + 4 <= target.Length
    modifies target
    ensures PlacedAt(old(target[..]), target[..], at, Le32(n))
  {
    hide Le32;
    CopyInto(Le32(n), target, at);
  }

  function Zeros(n: nat): (zeros: seq<Byte>)
    ensures |zeros| == n && forall i :: 0 <= i < n ==> zeros[i] == 0
  {
    seq(n, _ => 0)
  }

  // ----- Binary digits, least significant first -----

  function Pow2(n: nat): (p: nat)
    ensures p > 0
  {
    if n == 0 then 1 else 2 * Pow2(n - 1)
  }

  function Digits(n: nat, k: nat): (bits: seq<bool>)
    ensures |bits| == n
  {
    if n == 0 then [] else [k % 2 == 1] + Digits(n - 1, k / 2)
  }

  function Value(bits: seq<bool>): nat {
    if bits == [] then 0 else (if bits[0] then 1 else 0) + 2 * Value(bits[1..])
  }

  lemma {:induction false} ValueOfDigits(n: nat, k: nat)
    requires k < Pow2(n)
    ensures Value(Digits(n, k)) == k
  {
    if n != 0 {
      ValueOfDigits(n - 1, k / 2);
    }
  }

  lemma {:induction false} DigitAt(n: nat, k: nat, j: nat)
    requires j < n
    ensures Digits(n, k)[j] == (k / Pow2(j) % 2 == 1)
    decreases n
  {
    if j != 0 {
      var rest := Digits(n - 1, k / 2);
      assert Digits(n, k)[j] == rest[j - 1];
      DigitAt(n - 1, k / 2, j - 1);
      HalvedFirst(k, Pow2(j - 1));
      hide Digits;
      assert Pow2(j) == 2 * Pow2(j - 1);
    }
  }

  lemma HalvedFirst(k: nat, p: nat)
    requires p > 0
    ensures k / 2 / p == k / (2 * p)
  {
    var h, q := k / 2, k / 2 / p;
    assert h == q * p + h % p;
    assert 2 * p * q == 2 * (q * p) && 2 * p * (q + 1) == 2 * (q * p) + 2 * p;
    QuotientIs(k, 2 * p, q);
  }

  lemma QuotientIs(k: nat, n: nat, q: nat)
    requires n > 0 && n * q <= k < n * (q + 1)
    ensures k / n == q
  {
    var m := k / n;
    assert k == m * n + k % n;
    assert m < q ==> (m + 1) * n <= q * n;
    assert m > q ==> (q + 1) * n <= m * n;
  }

  lemma {:induction false} ValueBelow(bits: seq<bool>)
    ensures Value(bits) < Pow2(|bits|)
  {
    if bits != [] {
      ValueBelow(bits[1..]);
    }
  }

  lemma {:induction false} ValueInjective(a: seq<bool>, b: seq<bool>)
    requires |a| == |b| && Value(a) == Value(b)
    ensures a == b
  {
    if a != [] {
      ValueInjective(a[1..], b[1..]);
      assert a == [a[0]] + a[1..] && b == [b[0]] + b[1..];
    }
  }

  lemma PowersOf2()
    ensures Pow2(8) == 0x100 && Pow2(32) == TWO_TO_THE_32
  {
    assert Pow2(4) == 0x10 && Pow2(12) == 0x1000 && Pow2(16) == 0x1_0000;
    assert Pow2(20) == 0x10_0000 && Pow2(24) == 0x100_0000 && Pow2(28) == 0x1000_0000;
  }
}
