/**
 * Area downsampling of square RGBA images. Coordinates are multiplied by the target size, so that a source
 * pixel is `size` wide, a target pixel is `width` wide, and every overlap is an integer: the program's own
 * weights are these divided by `size * size`, and its alphas are ours divided by 255.
 */
module Resize {
  import opened Bytes
  import opened Sums
  import opened Png

  const CHANNELS := 4

  datatype ResizeError = NotADownsample | ShortBuffer

  // ----- One dimension: `size` target cells of width `width` over `width` source cells of width `size` -----

  function Min(a: int, b: int): int {
    if a < b then a else b
  }

  function Max(a: int, b: int): int {
    if a < b then b else a
  }

  /** First source cell that target cell `t` touches. */
  function First(width: nat, size: nat, t: int): int
    requires 0 < size
  {
    t * width / size
  }

  /** One past the last source cell that target cell `t` touches: a ceiling division. */
  function Limit(width: nat, size: nat, t: int): int
    requires 0 < size
  {
    ((t + 1) * width + size - 1) / size
  }

  /** How much of target cell `t` is covered by source cell `s`; not positive when they do not overlap. */
  function Weight(width: nat, size: nat, t: int, s: int): int {
    Min((t + 1) * width, (s + 1) * size) - Max(t * width, s * size)
  }

  /** What source cell `s` contributes to target cell `t`, visited or not. */
  function Share(width: nat, size: nat, t: int, s: int): nat {
    Max(0, Weight(width, size, t, s))
  }

  function Weighted(width: nat, size: nat, t: int, f: int -> int): int -> int {
    s => Weight(width, size, t, s) * f(s)
  }

  function Shared(width: nat, size: nat, t: int, f: int -> int): int -> int {
    s => Share(width, size, t, s) * f(s)
  }

  /** The weighted sum over the cells that the loop visits. */
  function Mix(width: nat, size: nat, t: int, f: int -> int): int
    requires 0 < size
  {
    Sum(First(width, size, t), Limit(width, size, t), Weighted(width, size, t, f))
  }

  lemma FloorLaw(a: int, n: int, s: int)
    requires 0 < n
    ensures a / n <= s <==> a < (s + 1) * n
  {
    var q := a / n;
    assert q * n + a % n == a;
    assert (q + 1) * n == q * n + n;
    Monotone(q + 1, s + 1, n);
    Monotone(s + 1, q, n);
  }

  lemma Monotone(i: int, j: int, n: int)
    requires 0 < n
    ensures i <= j ==> i * n <= j * n
  {
  }

  lemma CeilingLaw(b: int, n: int, s: int)
    requires 0 < n
    ensures s < (b + n - 1) / n <==> s * n < b
  {
    FloorLaw(b + n - 1, n, s);
    assert (s + 1) * n == s * n + n;
  }

  /** Where the loop starts and stops, without divisions. */
  lemma VisitedLaw(width: nat, size: nat, t: int, s: int)
    requires 0 < size
    ensures First(width, size, t) <= s <==> t * width < (s + 1) * size
    ensures s < Limit(width, size, t) <==> s * size < (t + 1) * width
  {
    FloorLaw(t * width, size, s);
    CeilingLaw((t + 1) * width, size, s);
  }

  lemma WeightLaw(width: nat, size: nat, t: int, s: int)
    requires 0 < size && 0 < width
    ensures Weight(width, size, t, s) > 0 <==> t * width < (s + 1) * size && s * size < (t + 1) * width
  {
    assert (t + 1) * width == t * width + width && (s + 1) * size == s * size + size;
  }

  /** The visited cells are exactly those with a positive overlap. */
  lemma VisitsOverlaps(width: nat, size: nat, t: int, s: int)
    requires 0 < size && 0 < width
    ensures First(width, size, t) <= s < Limit(width, size, t) <==> Weight(width, size, t, s) > 0
    ensures Share(width, size, t, s)
         == if First(width, size, t) <= s < Limit(width, size, t) then Weight(width, size, t, s) else 0
  {
    hide First, Limit, Weight;
    WeightLaw(width, size, t, s);
    VisitedLaw(width, size, t, s);
  }

  /** Every target cell visits some source cell, and only source cells that exist. */
  lemma VisitsExist(width: nat, size: nat, t: int)
    requires 0 < width && 0 <= t < size
    ensures 0 <= First(width, size, t) < Limit(width, size, t) <= width
  {
    hide First, Limit;
    TargetInside(width, size, t);
    var first := First(width, size, t);
    VisitedLaw(width, size, t, first - 1);
    VisitedLaw(width, size, t, first);
    VisitedLaw(width, size, t, width);
    VisitedLaw(width, size, t, -1);
    assert first * size <= t * width;
  }

  lemma TargetInside(width: nat, size: nat, t: int)
    requires 0 <= t < size
    ensures 0 <= t * width && t * width + width == (t + 1) * width <= width * size
  {
    assert (t + 1) * width <= size * width;
  }

  /** A position moved into target cell `t`. */
  function Clamped(width: nat, size: nat, t: int, p: int): int {
    Max(t * width, Min(p, (t + 1) * width))
  }

  /** An overlap is the distance between the clamped ends of either cell. */
  lemma ShareIsClampedLength(width: nat, size: nat, t: int, s: int)
    requires 0 < size && 0 < width
    ensures Share(width, size, t, s)
         == Clamped(width, size, t, (s + 1) * size) - Clamped(width, size, t, s * size)
    ensures Share(width, size, t, s) == Share(size, width, s, t)
  {
    assert (t + 1) * width == t * width + width && (s + 1) * size == s * size + size;
  }

  lemma MixOverAll(width: nat, size: nat, t: int, f: int -> int)
    requires 0 < size && 0 < width && 0 <= t < size
    ensures Mix(width, size, t, f) == Sum(0, width, Shared(width, size, t, f))
  {
    var lo, hi := First(width, size, t), Limit(width, size, t);
    hide First, Limit, Weight, Share;
    VisitsExist(width, size, t);
    forall s
      ensures lo <= s < hi ==> Shared(width, size, t, f)(s) == Weighted(width, size, t, f)(s)
      ensures !(lo <= s < hi) ==> Shared(width, size, t, f)(s) == 0
    {
      VisitsOverlaps(width, size, t, s);
    }
    SumWidens(0, lo, hi, width, Shared(width, size, t, f));
    SumSame(lo, hi, Shared(width, size, t, f), Weighted(width, size, t, f));
  }

  /** The shares of a target cell add up to its whole width. */
  lemma SharesFillTarget(width: nat, size: nat, t: int, shares: int -> int)
    requires 0 < size && 0 < width && 0 <= t < size
    requires forall s :: 0 <= s < width ==> shares(s) == Share(width, size, t, s)
    ensures Sum(0, width, shares) == width
  {
    var ends := (s: int) => Clamped(width, size, t, s * size);
    forall s
      ensures Share(width, size, t, s) == ends(s + 1) - ends(s)
    {
      ShareIsClampedLength(width, size, t, s);
    }
    hide Share, Clamped;
    SumTelescopes(0, width, shares, ends);
    ClampedEnds(width, size, t);
  }

  lemma ClampedEnds(width: nat, size: nat, t: int)
    requires 0 < size && 0 < width && 0 <= t < size
    ensures Clamped(width, size, t, 0 * size) == t * width
    ensures Clamped(width, size, t, width * size) == t * width + width
  {
    assert (t + 1) * width == t * width + width && 0 <= t * width && (t + 1) * width <= size * width;
  }

  /** And the shares of a source cell, over all targets, to its own. */
  lemma SharesFillSource(width: nat, size: nat, s: int, shares: int -> int)
    requires 0 < size && 0 < width && 0 <= s < width
    requires forall t :: 0 <= t < size ==> shares(t) == Share(width, size, t, s)
    ensures Sum(0, size, shares) == size
  {
    forall t
      ensures Share(width, size, t, s) == Share(size, width, s, t)
    {
      ShareIsClampedLength(width, size, t, s);
    }
    hide Share;
    SharesFillTarget(size, width, s, shares);
  }

  lemma MixOfConstant(width: nat, size: nat, t: int, c: int, f: int -> int)
    requires 0 < size && 0 < width && 0 <= t < size
    requires forall s :: 0 <= s < width ==> f(s) == c
    ensures Mix(width, size, t, f) == c * width
  {
    hide Share, Mix;
    var shares := s => Share(width, size, t, s);
    MixOverAll(width, size, t, f);
    SumScales(0, width, c, shares, Shared(width, size, t, f));
    SharesFillTarget(width, size, t, shares);
  }

  /** Mixing loses and invents nothing: over all targets, every source value counts `size` times. */
  lemma MixConserves(width: nat, size: nat, f: int -> int, mixes: int -> int)
    requires 0 < size && 0 < width
    requires forall t :: 0 <= t < size ==> mixes(t) == Mix(width, size, t, f)
    ensures Sum(0, size, mixes) == size * Sum(0, width, f)
  {
    hide Share, Mix;
    forall t | 0 <= t < size
      ensures mixes(t) == Sum(0, width, Shared(width, size, t, f))
    {
      MixOverAll(width, size, t, f);
    }
    var column := (s: int) => (t: int) => Share(width, size, t, s) * f(s);
    var columns := s => size * f(s);
    forall s | 0 <= s < width
      ensures columns(s) == Sum(0, size, column(s))
    {
      var shares := t => Share(width, size, t, s);
      SumScales(0, size, f(s), shares, column(s));
      SharesFillSource(width, size, s, shares);
    }
    SumSwaps(0, size, 0, width, t => Shared(width, size, t, f), column, mixes, columns);
    SumScales(0, width, size, f, columns);
  }

  lemma MixBounded(width: nat, size: nat, t: int, f: int -> int, g: int -> int)
    requires 0 < size && 0 < width
    requires forall s :: First(width, size, t) <= s < Limit(width, size, t) ==> f(s) <= g(s)
    ensures Mix(width, size, t, f) <= Mix(width, size, t, g)
  {
    hide Weight, First, Limit;
    forall s | First(width, size, t) <= s < Limit(width, size, t)
      ensures Weighted(width, size, t, f)(s) <= Weighted(width, size, t, g)(s)
    {
      VisitsOverlaps(width, size, t, s);
      assert Weight(width, size, t, s) * f(s) <= Weight(width, size, t, s) * g(s);
    }
    SumMonotone(First(width, size, t), Limit(width, size, t), Weighted(width, size, t, f), Weighted(width, size, t, g));
  }

  lemma MixScales(width: nat, size: nat, t: int, c: int, f: int -> int, g: int -> int)
    requires 0 < size && forall s :: g(s) == c * f(s)
    ensures Mix(width, size, t, g) == c * Mix(width, size, t, f)
  {
    hide Weight, First, Limit;
    forall s
      ensures Weighted(width, size, t, g)(s) == c * Weighted(width, size, t, f)(s)
    {
      assert Weight(width, size, t, s) * (c * f(s)) == c * (Weight(width, size, t, s) * f(s));
    }
    SumScales(First(width, size, t), Limit(width, size, t), c, Weighted(width, size, t, f), Weighted(width, size, t, g));
  }

  lemma MixAdds(width: nat, size: nat, t: int, f: int -> int, g: int -> int, h: int -> int)
    requires 0 < size && forall s :: h(s) == f(s) + g(s)
    ensures Mix(width, size, t, h) == Mix(width, size, t, f) + Mix(width, size, t, g)
  {
    hide Weight, First, Limit;
    SumAdds(First(width, size, t), Limit(width, size, t),
      Weighted(width, size, t, f), Weighted(width, size, t, g), Weighted(width, size, t, h));
  }

  // ----- Two dimensions -----

  /** A value per source row and column. */
  type Grid = int -> int -> int

  /** A row of `g` mixed into target column `tx`. */
  function RowMix(width: nat, size: nat, tx: int, g: Grid): int -> int
    requires 0 < size
  {
    y => Mix(width, size, tx, g(y))
  }

  /** The weighted sum over the source pixels under target pixel `(ty, tx)`. */
  function Blend(width: nat, size: nat, ty: int, tx: int, g: Grid): int
    requires 0 < size
  {
    Mix(width, size, ty, RowMix(width, size, tx, g))
  }

  /** Every target pixel's weights sum to the scale squared. */
  lemma WeightsOfTarget(width: nat, size: nat, ty: int, tx: int, ones: Grid)
    requires 0 < size && 0 < width && 0 <= ty < size && 0 <= tx < size
    requires forall y, x :: ones(y)(x) == 1
    ensures Blend(width, size, ty, tx, ones) == width * width
  {
    hide Mix;
    forall y
      ensures RowMix(width, size, tx, ones)(y) == width
    {
      MixOfConstant(width, size, tx, 1, ones(y));
    }
    MixOfConstant(width, size, ty, width, RowMix(width, size, tx, ones));
  }

  /** Blending conserves every quantity: summed over the target image it is the source total, `size` squared times. */
  lemma BlendConserves(width: nat, size: nat, g: Grid, rowTotals: int -> int, targetRows: int -> int, blends: Grid)
    requires 0 < size && 0 < width
    requires forall y :: rowTotals(y) == Sum(0, width, g(y))
    requires forall ty, tx :: 0 <= ty < size && 0 <= tx < size ==> blends(ty)(tx) == Blend(width, size, ty, tx, g)
    requires forall ty :: 0 <= ty < size ==> targetRows(ty) == Sum(0, size, blends(ty))
    ensures Sum(0, size, targetRows) == size * (size * Sum(0, width, rowTotals))
  {
    hide Share, Mix;
    var scaled := y => size * rowTotals(y);
    forall ty | 0 <= ty < size
      ensures targetRows(ty) == Mix(width, size, ty, scaled)
    {
      RowOfBlends(width, size, ty, g, rowTotals, scaled, blends(ty));
    }
    MixConserves(width, size, scaled, targetRows);
    SumScales(0, width, size, rowTotals, scaled);
  }

  /** The mixes of one source row into every target column. */
  function RowMixes(width: nat, size: nat, f: int -> int): int -> int
    requires 0 < size
  {
    tx => Mix(width, size, tx, f)
  }

  /** Those mixes, summed over the first `k` target columns. */
  function FirstColumns(width: nat, size: nat, k: nat, g: Grid): int -> int
    requires 0 < size
  {
    y => Sum(0, k, RowMixes(width, size, g(y)))
  }

  lemma MixOfColumns(width: nat, size: nat, ty: int, k: nat, g: Grid)
    requires 0 < size
    ensures Mix(width, size, ty, FirstColumns(width, size, 0, g)) == 0
    ensures Mix(width, size, ty, FirstColumns(width, size, k + 1, g))
         == Mix(width, size, ty, FirstColumns(width, size, k, g)) + Blend(width, size, ty, k, g)
  {
    hide Mix;
    var none, fewer, more := FirstColumns(width, size, 0, g), FirstColumns(width, size, k, g), FirstColumns(width, size, k + 1, g);
    forall y
      ensures none(y) == 0 && more(y) == fewer(y) + RowMix(width, size, k, g)(y)
    {
      var row := RowMixes(width, size, g(y));
      assert Sum(0, 0, row) == 0 && Sum(0, k + 1, row) == Sum(0, k, row) + row(k);
    }
    MixScales(width, size, ty, 0, none, none);
    MixAdds(width, size, ty, fewer, RowMix(width, size, k, g), more);
  }

  lemma {:induction false} BlendsAddUp(width: nat, size: nat, ty: int, g: Grid, blends: int -> int, k: nat)
    requires 0 < size && k <= size
    requires forall tx :: 0 <= tx < size ==> blends(tx) == Blend(width, size, ty, tx, g)
    ensures Sum(0, k, blends) == Mix(width, size, ty, FirstColumns(width, size, k, g))
  {
    hide Mix, Blend, FirstColumns;
    if k == 0 {
      MixOfColumns(width, size, ty, 0, g);
    } else {
      BlendsAddUp(width, size, ty, g, blends, k - 1);
      MixOfColumns(width, size, ty, k - 1, g);
    }
  }

  lemma RowOfBlends(
      width: nat, size: nat, ty: int, g: Grid, rowTotals: int -> int, scaled: int -> int, blends: int -> int)
    requires 0 < size && 0 < width && 0 <= ty < size
    requires forall y :: rowTotals(y) == Sum(0, width, g(y))
    requires forall y :: scaled(y) == size * rowTotals(y)
    requires forall tx :: 0 <= tx < size ==> blends(tx) == Blend(width, size, ty, tx, g)
    ensures Sum(0, size, blends) == Mix(width, size, ty, scaled)
  {
    hide Mix;
    forall y
      ensures FirstColumns(width, size, size, g)(y) == 1 * scaled(y)
    {
      MixConserves(width, size, g(y), RowMixes(width, size, g(y)));
    }
    BlendsAddUp(width, size, ty, g, blends, size);
    MixScales(width, size, ty, 1, scaled, FirstColumns(width, size, size, g));
  }

  /** Source pixel `(y, x)` lies under target pixel `(ty, tx)`. */
  predicate Under(width: nat, size: nat, ty: int, tx: int, y: int, x: int)
    requires 0 < size
  {
    && First(width, size, ty) <= y < Limit(width, size, ty)
    && First(width, size, tx) <= x < Limit(width, size, tx)
  }

  lemma BlendBounded(width: nat, size: nat, ty: int, tx: int, c: int, f: Grid, g: Grid)
    requires 0 < size && 0 < width
    requires forall y, x :: Under(width, size, ty, tx, y, x) ==> c * f(y)(x) <= g(y)(x)
    ensures c * Blend(width, size, ty, tx, f) <= Blend(width, size, ty, tx, g)
  {
    hide Mix, First, Limit;
    var scaled := y => c * Mix(width, size, tx, f(y));
    forall y | First(width, size, ty) <= y < Limit(width, size, ty)
      ensures scaled(y) <= RowMix(width, size, tx, g)(y)
    {
      var row := x => c * f(y)(x);
      MixScales(width, size, tx, c, f(y), row);
      MixBounded(width, size, tx, row, g(y));
    }
    MixScales(width, size, ty, c, RowMix(width, size, tx, f), scaled);
    MixBounded(width, size, ty, scaled, RowMix(width, size, tx, g));
  }

  // ----- Images -----

  function Sample(source: RgbaImage, channel: nat): Grid {
    y => x =>
      var i := (y * source.width + x) * CHANNELS + channel;
      if 0 <= i < |source.data| then source.data[i] else 0
  }

  function Alphas(source: RgbaImage): Grid {
    Sample(source, 3)
  }

  function Premultiplied(source: RgbaImage, channel: nat): Grid {
    y => x => Alphas(source)(y)(x) * Sample(source, channel)(y)(x)
  }

  function Ones(): Grid {
    y => x => 1
  }

  /** `Math.round(p / q)`: the nearest integer, halves upwards. */
  function Rounded(p: int, q: int): int
    requires q != 0
  {
    (2 * p + q) / (2 * q)
  }

  lemma RoundedIsNearest(p: int, q: int, lo: int, hi: int)
    requires 0 < q
    ensures -q < 2 * (Rounded(p, q) * q - p) <= q
    ensures lo * q <= p <= hi * q ==> lo <= Rounded(p, q) <= hi
  {
    var r := Rounded(p, q);
    DoubledLaw(p, q, r);
    DoubledLaw(p, q, r - 1);
    DoubledLaw(p, q, lo - 1);
    DoubledLaw(p, q, hi);
  }

  lemma DoubledLaw(p: int, q: int, s: int)
    requires 0 < q
    ensures Rounded(p, q) <= s <==> 2 * p + q < 2 * (s * q) + 2 * q
    ensures (s + 1) * q == s * q + q
  {
    FloorLaw(2 * p + q, 2 * q, s);
    assert (s + 1) * (2 * q) == 2 * (s * q) + 2 * q;
  }

  /** Channel `channel` of a target pixel. */
  function Resized(source: RgbaImage, size: nat, ty: int, tx: int, channel: nat): int
    requires 0 < size && 0 < source.width && 0 <= ty < size && 0 <= tx < size
  {
    var alpha := Blend(source.width, size, ty, tx, Alphas(source));
    WeightsOfTarget(source.width, size, ty, tx, Ones());
    if channel == 3 then Rounded(alpha, Blend(source.width, size, ty, tx, Ones()))
    else if alpha == 0 then 0
    else Rounded(Blend(source.width, size, ty, tx, Premultiplied(source, channel)), alpha)
  }

  /** The bounds that the pixels under a target pixel keep; for a colour only those that are not transparent. */
  ghost predicate SourcesWithin(source: RgbaImage, size: nat, ty: int, tx: int, channel: nat, lo: int, hi: int)
    requires 0 < size
  {
    forall y, x :: Under(source.width, size, ty, tx, y, x) && (channel == 3 || Alphas(source)(y)(x) != 0) ==>
      lo <= Sample(source, channel)(y)(x) <= hi
  }

  /** A resized channel lies between the least and the greatest value it was mixed from. */
  lemma ResizedBetweenSources(source: RgbaImage, size: nat, ty: int, tx: int, channel: nat, lo: int, hi: int)
    requires 0 < size && 0 < source.width && 0 <= ty < size && 0 <= tx < size
    requires SourcesWithin(source, size, ty, tx, channel, lo, hi)
    ensures Blend(source.width, size, ty, tx, Alphas(source)) >= 0
    ensures channel == 3 || Blend(source.width, size, ty, tx, Alphas(source)) != 0 ==>
      lo <= Resized(source, size, ty, tx, channel) <= hi
  {
    var width, alphas := source.width, Alphas(source);
    hide Blend, Under, Rounded;
    var alpha := Blend(width, size, ty, tx, alphas);
    BlendBounded(width, size, ty, tx, 0, alphas, alphas);
    WeightsOfTarget(width, size, ty, tx, Ones());
    var value := if channel == 3 then alphas else Premultiplied(source, channel);
    var weight := if channel == 3 then Ones() else alphas;
    forall y, x | Under(width, size, ty, tx, y, x)
      ensures lo * weight(y)(x) <= value(y)(x) <= hi * weight(y)(x)
    {
      ScaledWithin(alphas(y)(x), Sample(source, channel)(y)(x), lo, hi);
    }
    BlendBounded(width, size, ty, tx, lo, weight, value);
    BlendBoundedAbove(width, size, ty, tx, hi, weight, value);
    var total := Blend(width, size, ty, tx, weight);
    if total > 0 {
      RoundedIsNearest(Blend(width, size, ty, tx, value), total, lo, hi);
    }
  }

  lemma ScaledWithin(alpha: int, value: int, lo: int, hi: int)
    requires 0 <= alpha && (alpha != 0 ==> lo <= value <= hi)
    ensures lo * alpha <= alpha * value <= hi * alpha
  {
  }

  lemma BlendBoundedAbove(width: nat, size: nat, ty: int, tx: int, c: int, f: Grid, g: Grid)
    requires 0 < size && 0 < width
    requires forall y, x :: Under(width, size, ty, tx, y, x) ==> g(y)(x) <= c * f(y)(x)
    ensures Blend(width, size, ty, tx, g) <= c * Blend(width, size, ty, tx, f)
  {
    hide Mix, First, Limit;
    var scaled := y => c * Mix(width, size, tx, f(y));
    forall y | First(width, size, ty) <= y < Limit(width, size, ty)
      ensures RowMix(width, size, tx, g)(y) <= scaled(y)
    {
      var row := x => c * f(y)(x);
      MixScales(width, size, tx, c, f(y), row);
      MixBounded(width, size, tx, g(y), row);
    }
    MixScales(width, size, ty, c, RowMix(width, size, tx, f), scaled);
    MixBounded(width, size, ty, RowMix(width, size, tx, g), scaled);
  }

  /** Pre-rounding alpha is conserved: over the target image it totals the source alpha, `size` squared times. */
  lemma AlphaConserved(source: RgbaImage, size: nat, rowTotals: int -> int, targetRows: int -> int, blends: Grid)
    requires 0 < size && 0 < source.width
    requires forall y :: rowTotals(y) == Sum(0, source.width, Alphas(source)(y))
    requires forall ty, tx :: 0 <= ty < size && 0 <= tx < size ==>
      blends(ty)(tx) == Blend(source.width, size, ty, tx, Alphas(source))
    requires forall ty :: 0 <= ty < size ==> targetRows(ty) == Sum(0, size, blends(ty))
    ensures Sum(0, size, targetRows) == size * (size * Sum(0, source.width, rowTotals))
  {
    hide Blend, Alphas;
    BlendConserves(source.width, size, Alphas(source), rowTotals, targetRows, blends);
  }

  // ----- The loops -----

  /** A blend in progress: the finished rows, and the finished part of row `y`. */
  function PartialBlend(width: nat, size: nat, ty: int, tx: int, g: Grid, y: int, x: int): int
    requires 0 < size
  {
    Sum(First(width, size, ty), y, Weighted(width, size, ty, RowMix(width, size, tx, g)))
    + Weight(width, size, ty, y) * Sum(First(width, size, tx), x, Weighted(width, size, tx, g(y)))
  }

  function PixelWeight(width: nat, size: nat, ty: int, tx: int, y: int, x: int): int {
    Weight(width, size, tx, x) * Weight(width, size, ty, y)
  }

  lemma PartialBlendSteps(width: nat, size: nat, ty: int, tx: int, g: Grid, y: int, x: int)
    requires 0 < size && 0 < width && 0 <= tx < size && 0 <= ty < size
    ensures PartialBlend(width, size, ty, tx, g, First(width, size, ty), First(width, size, tx)) == 0
    ensures First(width, size, tx) <= x ==>
      PartialBlend(width, size, ty, tx, g, y, x + 1)
      == PartialBlend(width, size, ty, tx, g, y, x) + PixelWeight(width, size, ty, tx, y, x) * g(y)(x)
    ensures First(width, size, ty) <= y ==>
      PartialBlend(width, size, ty, tx, g, y, Limit(width, size, tx))
      == PartialBlend(width, size, ty, tx, g, y + 1, First(width, size, tx))
    ensures PartialBlend(width, size, ty, tx, g, Limit(width, size, ty), First(width, size, tx))
      == Blend(width, size, ty, tx, g)
  {
    hide First, Limit, Weight;
    var wy, wx, v := Weight(width, size, ty, y), Weight(width, size, tx, x), g(y)(x);
    var row := Sum(First(width, size, tx), x, Weighted(width, size, tx, g(y)));
    assert wy * (row + wx * v) == wy * row + wx * wy * v;
  }

  /** The loop's five running sums. */
  datatype Totals = Totals(alpha: int, area: int, red: int, green: int, blue: int) {
    /** `+=` for each of them. */
    function Plus(weight: int, pixel: Totals): Totals {
      Totals(alpha + weight * pixel.alpha, area + weight * pixel.area,
        red + weight * pixel.red, green + weight * pixel.green, blue + weight * pixel.blue)
    }
  }

  function PixelTotals(source: RgbaImage, y: int, x: int): Totals {
    Totals(Alphas(source)(y)(x), Ones()(y)(x),
      Premultiplied(source, 0)(y)(x), Premultiplied(source, 1)(y)(x), Premultiplied(source, 2)(y)(x))
  }

  function PartialTotals(source: RgbaImage, size: nat, ty: int, tx: int, y: int, x: int): Totals
    requires 0 < size
  {
    Totals(
      PartialBlend(source.width, size, ty, tx, Alphas(source), y, x),
      PartialBlend(source.width, size, ty, tx, Ones(), y, x),
      PartialBlend(source.width, size, ty, tx, Premultiplied(source, 0), y, x),
      PartialBlend(source.width, size, ty, tx, Premultiplied(source, 1), y, x),
      PartialBlend(source.width, size, ty, tx, Premultiplied(source, 2), y, x))
  }

  function BlendTotals(source: RgbaImage, size: nat, ty: int, tx: int): Totals
    requires 0 < size
  {
    Totals(
      Blend(source.width, size, ty, tx, Alphas(source)),
      Blend(source.width, size, ty, tx, Ones()),
      Blend(source.width, size, ty, tx, Premultiplied(source, 0)),
      Blend(source.width, size, ty, tx, Premultiplied(source, 1)),
      Blend(source.width, size, ty, tx, Premultiplied(source, 2)))
  }

  /** How the sums start, grow by a pixel, move to the next row, and end. */
  lemma TotalsStep(source: RgbaImage, size: nat, ty: int, tx: int, y: int, x: int)
    requires 0 < size && 0 < source.width && 0 <= tx < size && 0 <= ty < size
    ensures var top, left := First(source.width, size, ty), First(source.width, size, tx);
      var bottom, right := Limit(source.width, size, ty), Limit(source.width, size, tx);
      var before := PartialTotals(source, size, ty, tx, y, x);
      && PartialTotals(source, size, ty, tx, top, left) == Totals(0, 0, 0, 0, 0)
      && (left <= x ==>
            PartialTotals(source, size, ty, tx, y, x + 1)
            == before.Plus(PixelWeight(source.width, size, ty, tx, y, x), PixelTotals(source, y, x)))
      && (top <= y ==>
            PartialTotals(source, size, ty, tx, y, right) == PartialTotals(source, size, ty, tx, y + 1, left))
      && PartialTotals(source, size, ty, tx, bottom, left) == BlendTotals(source, size, ty, tx)
  {
    hide PartialBlend, Blend, First, Limit, PixelWeight, Alphas, Ones, Premultiplied;
    PartialBlendSteps(source.width, size, ty, tx, Alphas(source), y, x);
    PartialBlendSteps(source.width, size, ty, tx, Ones(), y, x);
    PartialBlendSteps(source.width, size, ty, tx, Premultiplied(source, 0), y, x);
    PartialBlendSteps(source.width, size, ty, tx, Premultiplied(source, 1), y, x);
    PartialBlendSteps(source.width, size, ty, tx, Premultiplied(source, 2), y, x);
  }

  /** The buffer reaches as far as pixel `(y, x)`. */
  predicate InBuffer(source: RgbaImage, y: int, x: int) {
    (y * source.width + x) * CHANNELS + 3 < |source.data|
  }

  /** The reads of one source pixel; alpha is read first, so it is what a short buffer misses. */
  method ReadPixel(source: RgbaImage, y: int, x: int) returns (pixel: Option<Totals>)
    requires 0 <= y < source.width && 0 <= x < source.width
    ensures pixel == if InBuffer(source, y, x) then Some(PixelTotals(source, y, x)) else None
  {
    SampleInside(source.width, y, x);
    var offset := (y * source.width + x) * CHANNELS;
    if offset + 3 >= |source.data| {
      return None;
    }
    var alpha: int, red: int := source.data[offset + 3], source.data[offset];
    var green: int, blue: int := source.data[offset + 1], source.data[offset + 2];
    pixel := Some(Totals(alpha, 1, alpha * red, alpha * green, alpha * blue));
  }

  /** The last pixel is the farthest. */
  lemma LastIsFarthest(source: RgbaImage, y: int, x: int)
    requires 0 <= y < source.width && 0 <= x < source.width
    ensures InBuffer(source, source.width - 1, source.width - 1) <==> |source.data| >= source.width * source.width * CHANNELS
    ensures |source.data| >= source.width * source.width * CHANNELS ==> InBuffer(source, y, x)
  {
    SampleInside(source.width, y, x);
    assert (source.width - 1) * source.width == source.width * source.width - source.width;
  }

  /** The last target cell touches the last source cell. */
  lemma LastIsTouched(width: nat, size: nat)
    requires 0 < width && 0 < size
    ensures First(width, size, size - 1) < Limit(width, size, size - 1) == width
  {
    VisitsExist(width, size, size - 1);
    VisitedLaw(width, size, size - 1, width - 1);
    assert (width - 1) * size == size * width - size;
  }

  lemma SampleInside(width: nat, y: int, x: int)
    requires 0 <= y < width && 0 <= x < width
    ensures 0 <= y * width + x < width * width
  {
    assert 0 <= y * width && (y + 1) * width == y * width + width;
    assert (y + 1) * width <= width * width;
  }

  /** The two inner loops; they fail when a read does. */
  method BlendPixel(source: RgbaImage, size: nat, ty: nat, tx: nat) returns (blended: Option<Totals>)
    requires 0 < source.width && ty < size && tx < size
    ensures blended.Some? ==> blended.value == BlendTotals(source, size, ty, tx)
    ensures blended.Some? ==> InBuffer(source, Limit(source.width, size, ty) - 1, Limit(source.width, size, tx) - 1)
    ensures blended.None? ==> |source.data| < source.width * source.width * CHANNELS
  {
    hide InBuffer, First, Limit, PartialTotals, BlendTotals, PixelTotals, PixelWeight;
    var top, left := First(source.width, size, ty), First(source.width, size, tx);
    var bottom, right := Limit(source.width, size, ty), Limit(source.width, size, tx);
    VisitsExist(source.width, size, ty);
    VisitsExist(source.width, size, tx);
    var sums := Totals(0, 0, 0, 0, 0);
    TotalsStep(source, size, ty, tx, top, left);
    for y := top to bottom
      invariant sums == PartialTotals(source, size, ty, tx, y, left)
      invariant y > top ==> InBuffer(source, y - 1, right - 1)
    {
      for x := left to right
        invariant sums == PartialTotals(source, size, ty, tx, y, x)
        invariant x > left ==> InBuffer(source, y, x - 1)
      {
        TotalsStep(source, size, ty, tx, y, x);
        var pixel := ReadPixel(source, y, x);
        if pixel.None? {
          LastIsFarthest(source, y, x);
          return None;
        }
        sums := sums.Plus(PixelWeight(source.width, size, ty, tx, y, x), pixel.value);
      }
      TotalsStep(source, size, ty, tx, y, left);
    }
    blended := Some(sums);
  }

  lemma ResizedIsByte(source: RgbaImage, size: nat, ty: int, tx: int, channel: nat)
    requires 0 < size && 0 < source.width && 0 <= ty < size && 0 <= tx < size
    ensures 0 <= Resized(source, size, ty, tx, channel) < 256
    ensures Blend(source.width, size, ty, tx, Ones()) > 0
  {
    hide Blend, Rounded;
    WeightsOfTarget(source.width, size, ty, tx, Ones());
    if channel == 3 || Blend(source.width, size, ty, tx, Alphas(source)) != 0 {
      ResizedBetweenSources(source, size, ty, tx, channel, 0, 255);
    }
  }

  function Offset(size: nat, ty: nat, tx: nat): nat {
    (ty * size + tx) * CHANNELS
  }

  lemma OffsetsApart(size: nat, ty: nat, tx: nat, y: nat, x: nat)
    requires ty < size && tx < size && x < size && (y < ty || (y == ty && x < tx))
    ensures Offset(size, y, x) + CHANNELS <= Offset(size, ty, tx)
  {
    Monotone(y + 1, ty, size);
    assert (y + 1) * size == y * size + size;
  }

  lemma OffsetInside(size: nat, ty: nat, tx: nat)
    requires ty < size && tx < size
    ensures Offset(size, ty, tx) + CHANNELS <= size * size * CHANNELS
  {
    SampleInside(size, ty, tx);
  }

  /** The buffer holds a resized channel where it belongs. */
  ghost predicate Holds(source: RgbaImage, size: nat, data: seq<Byte>, ty: nat, tx: nat, channel: nat)
    requires 0 < size && 0 < source.width && ty < size && tx < size
  {
    && Offset(size, ty, tx) + channel < |data|
    && data[Offset(size, ty, tx) + channel] == Resized(source, size, ty, tx, channel)
  }

  /** The target pixels before `(ty, tx)` in row order are done. */
  ghost predicate Filled(source: RgbaImage, size: nat, data: seq<Byte>, ty: nat, tx: nat)
    requires 0 < size && 0 < source.width
  {
    forall y: nat, x: nat, c: nat ::
      y < size && x < size && c < CHANNELS && (y < ty || (y == ty && x < tx)) ==> Holds(source, size, data, y, x, c)
  }

  /**
   * Refuses what is no downsample of a square, fails when the buffer is too short for the source's pixels,
   * and otherwise fills every channel of every target pixel.
   */
  method ResizeSquare(source: RgbaImage, size: int) returns (r: Result<RgbaImage, ResizeError>)
    ensures r == Err(NotADownsample) <==> source.width != source.height || size <= 0 || size > source.width
    ensures r == Err(ShortBuffer) <==>
      source.width == source.height && 0 < size <= source.width && |source.data| < source.width * source.width * CHANNELS
    ensures r.Ok? ==>
      && r.value.width == r.value.height == size && |r.value.data| == size * size * CHANNELS
      && Filled(source, size, r.value.data, size, 0)
  {
    if source.width != source.height || size <= 0 || size > source.width {
      return Err(NotADownsample);
    }
    var n: nat := size;
    var target := new Byte[n * n * CHANNELS](_ => 0);
    LastIsTouched(source.width, n);
    LastIsFarthest(source, source.width - 1, source.width - 1);
    hide Holds, Filled, InBuffer, Limit;
    for ty := 0 to n
      invariant Filled(source, n, target[..], ty, 0)
      invariant ty == n ==> InBuffer(source, source.width - 1, source.width - 1)
    {
      for tx := 0 to n
        invariant Filled(source, n, target[..], ty, tx)
        invariant ty == n - 1 && tx == n ==> InBuffer(source, source.width - 1, source.width - 1)
      {
        var written := WritePixel(source, n, target, ty, tx);
        if !written {
          return Err(ShortBuffer);
        }
      }
    }
    r := Ok(RgbaImage(target[..], n, n));
  }

  /** The body of the two outer loops: one pixel is stored, and no other byte changes. */
  method WritePixel(source: RgbaImage, size: nat, target: array<Byte>, ty: nat, tx: nat) returns (written: bool)
    requires 0 < size && 0 < source.width && ty < size && tx < size
    requires target.Length == size * size * CHANNELS && Filled(source, size, target[..], ty, tx)
    modifies target
    ensures written ==> Filled(source, size, target[..], ty, tx + 1)
    ensures written ==> InBuffer(source, Limit(source.width, size, ty) - 1, Limit(source.width, size, tx) - 1)
    ensures !written ==> |source.data| < source.width * source.width * CHANNELS
    ensures forall k :: 0 <= k < target.Length && !(Offset(size, ty, tx) <= k < Offset(size, ty, tx) + CHANNELS) ==>
      target[k] == old(target[k])
  {
    hide Blend, Rounded, InBuffer, Limit;
    var blended := BlendPixel(source, size, ty, tx);
    if blended.None? {
      return false;
    }
    var sums := blended.value;
    OffsetInside(size, ty, tx);
    ResizedIsByte(source, size, ty, tx, 0);
    ResizedIsByte(source, size, ty, tx, 1);
    ResizedIsByte(source, size, ty, tx, 2);
    ResizedIsByte(source, size, ty, tx, 3);
    var offset := Offset(size, ty, tx);
    ghost var before := target[..];
    target[offset] := if sums.alpha == 0 then 0 else Rounded(sums.red, sums.alpha);
    target[offset + 1] := if sums.alpha == 0 then 0 else Rounded(sums.green, sums.alpha);
    target[offset + 2] := if sums.alpha == 0 then 0 else Rounded(sums.blue, sums.alpha);
    target[offset + 3] := Rounded(sums.alpha, sums.area);
    hide Offset, Resized;
    forall y: nat, x: nat, c: nat | y < size && x < size && c < CHANNELS && (y < ty || (y == ty && x < tx + 1))
      ensures Holds(source, size, target[..], y, x, c)
    {
      if y < ty || x < tx {
        OffsetsApart(size, ty, tx, y, x);
        assert Holds(source, size, before, y, x, c);
      } else {
        assert y == ty && x == tx;
      }
    }
    written := true;
  }

  // ----- What is stored -----

  /** Stored is the integer nearest to the mean: of alpha over the area, of a colour over the alpha; halves go upwards. */
  lemma StoredIsNearest(source: RgbaImage, size: nat, ty: int, tx: int, channel: nat)
    requires 0 < size && 0 < source.width && 0 <= ty < size && 0 <= tx < size && channel < CHANNELS
    ensures var stored, alpha := Resized(source, size, ty, tx, channel), Blend(source.width, size, ty, tx, Alphas(source));
            var colour, area := Blend(source.width, size, ty, tx, Premultiplied(source, channel)), source.width * source.width;
      && 0 <= alpha && 0 < area
      && (channel == 3 ==> -area < 2 * (stored * area - alpha) <= area)
      && (channel < 3 && alpha == 0 ==> stored == 0)
      && (channel < 3 && alpha > 0 ==> -alpha < 2 * (stored * alpha - colour) <= alpha)
  {
    hide Blend, Rounded, Premultiplied, Alphas;
    var alpha := Blend(source.width, size, ty, tx, Alphas(source));
    AlphaNotNegative(source, size, ty, tx);
    WeightsOfTarget(source.width, size, ty, tx, Ones());
    RoundedIsNearest(alpha, source.width * source.width, 0, 0);
    if alpha > 0 {
      RoundedIsNearest(Blend(source.width, size, ty, tx, Premultiplied(source, channel)), alpha, 0, 0);
    }
  }

  lemma AlphaNotNegative(source: RgbaImage, size: nat, ty: int, tx: int)
    requires 0 < size && 0 < source.width && 0 <= ty < size && 0 <= tx < size
    ensures Blend(source.width, size, ty, tx, Alphas(source)) >= 0
    ensures source.width * source.width > 0
  {
    hide Blend, Under;
    BlendBounded(source.width, size, ty, tx, 0, Alphas(source), Alphas(source));
  }

  // ----- At its own size -----

  lemma OwnCell(width: nat, t: int)
    requires 0 < width
    ensures First(width, width, t) == t && Limit(width, width, t) == t + 1 && Weight(width, width, t, t) == width
  {
    assert (t + 1) * width == t * width + width && (t - 1 + 1) * width == t * width && (t + 2) * width == t * width + 2 * width;
    VisitedLaw(width, width, t, t);
    VisitedLaw(width, width, t, t - 1);
    VisitedLaw(width, width, t, t + 1);
  }

  lemma OwnMix(width: nat, t: int, f: int -> int)
    requires 0 < width
    ensures Mix(width, width, t, f) == width * f(t)
  {
    OwnCell(width, t);
    hide First, Limit, Weight;
    var weighted := Weighted(width, width, t, f);
    assert Sum(t, t + 1, weighted) == Sum(t, t, weighted) + weighted(t) == weighted(t);
  }

  lemma OwnBlend(width: nat, ty: int, tx: int, g: Grid)
    requires 0 < width
    ensures Blend(width, width, ty, tx, g) == width * (width * g(ty)(tx))
  {
    hide Mix;
    OwnMix(width, tx, g(ty));
    OwnMix(width, ty, RowMix(width, width, tx, g));
  }

  lemma RoundedWhole(p: int, q: int, n: int)
    requires 0 < q && p == n * q
    ensures Rounded(p, q) == n
  {
    hide Rounded;
    RoundedIsNearest(p, q, n, n);
  }

  lemma OwnTotals(source: RgbaImage, y: int, x: int, channel: nat)
    requires 0 <= y < source.width && 0 <= x < source.width
    ensures var w, alpha, value := source.width, Alphas(source)(y)(x), Sample(source, channel)(y)(x);
      && Blend(w, w, y, x, Alphas(source)) == w * (w * alpha)
      && Blend(w, w, y, x, Premultiplied(source, channel)) == w * (w * (alpha * value))
  {
    hide Blend;
    OwnBlend(source.width, y, x, Alphas(source));
    OwnBlend(source.width, y, x, Premultiplied(source, channel));
    PremultipliedIs(source, channel, y, x);
    hide Premultiplied;
  }

  lemma OwnResized(source: RgbaImage, y: int, x: int, channel: nat)
    requires 0 <= y < source.width && 0 <= x < source.width
    ensures var alpha := Alphas(source)(y)(x);
      Resized(source, source.width, y, x, channel)
      == if channel == 3 then alpha else if alpha == 0 then 0 else Sample(source, channel)(y)(x)
  {
    hide Blend, Rounded, Premultiplied, Alphas, Sample;
    var w, alpha, value := source.width, Alphas(source)(y)(x), Sample(source, channel)(y)(x);
    OwnTotals(source, y, x, channel);
    WeightsOfTarget(w, w, y, x, Ones());
    SampleIsByte(source, y, x, channel);
    OwnQuotients(w, alpha, value);
    RoundedWhole(w * (w * alpha), w * w, alpha);
    if alpha != 0 {
      RoundedWhole(w * (w * (alpha * value)), w * (w * alpha), value);
    }
  }

  lemma SampleIsByte(source: RgbaImage, y: int, x: int, channel: nat)
    ensures Alphas(source)(y)(x) >= 0 && Sample(source, channel)(y)(x) >= 0
  {
  }

  lemma OwnPixel(source: RgbaImage, y: nat, x: nat, channel: nat)
    requires y < source.width && x < source.width && channel < CHANNELS && |source.data| == source.width * source.width * CHANNELS
    ensures var at := (y * source.width + x) * CHANNELS;
      && 0 <= at && at + 3 < |source.data|
      && Resized(source, source.width, y, x, channel) == (if source.data[at + 3] == 0 then 0 else source.data[at + channel])
  {
    SampleAt(source, y, x, channel);
    SampleAt(source, y, x, 3);
    hide Resized, Sample;
    OwnResized(source, y, x, channel);
  }

  lemma SampleAt(source: RgbaImage, y: nat, x: nat, channel: nat)
    requires y < source.width && x < source.width && channel < CHANNELS && |source.data| == source.width * source.width * CHANNELS
    ensures var at := (y * source.width + x) * CHANNELS;
      0 <= at && at + 3 < |source.data| && Sample(source, channel)(y)(x) == source.data[at + channel]
  {
    SampleInside(source.width, y, x);
  }

  lemma PremultipliedIs(source: RgbaImage, channel: nat, y: int, x: int)
    ensures Premultiplied(source, channel)(y)(x) == Alphas(source)(y)(x) * Sample(source, channel)(y)(x)
  {
  }

  lemma OwnQuotients(w: int, alpha: int, value: int)
    requires 0 < w && 0 <= alpha
    ensures 0 < w * w && w * (w * alpha) == alpha * (w * w) && w * (w * (alpha * value)) == value * (w * (w * alpha))
    ensures w * (w * alpha) == 0 <==> alpha == 0
    ensures alpha > 0 ==> w * (w * alpha) > 0
  {
    assert w * (w * (alpha * value)) == w * ((w * alpha) * value) == (w * (w * alpha)) * value;
    assert alpha > 0 ==> w * alpha > 0;
  }

  /** Resized to its own size an image stays what it is, byte by byte, where it is not wholly transparent. */
  lemma OwnSizeKeeps(source: RgbaImage, data: seq<Byte>, k: nat)
    requires 0 < source.width && |source.data| == |data| == source.width * source.width * CHANNELS && k < |data|
    requires Filled(source, source.width, data, source.width, 0)
    ensures k - k % 4 + 3 < |source.data| && data[k] == if source.data[k - k % 4 + 3] == 0 then 0 else source.data[k]
  {
    var w: nat, p: nat := source.width, k / 4;
    var y, x := p / w, p % w;
    assert p < w * w && p == y * w + x;
    PixelInside(w, p);
    hide Filled, Resized;
    OwnPixel(source, y, x, k % 4);
    FilledHolds(source, w, data, y, x, k % 4);
  }

  lemma PixelInside(w: nat, p: nat)
    requires 0 < w && p < w * w
    ensures p / w < w && p % w < w && p == p / w * w + p % w
  {
    FloorLaw(p, w, w - 1);
  }

  lemma FilledHolds(source: RgbaImage, size: nat, data: seq<Byte>, y: nat, x: nat, c: nat)
    requires 0 < size && 0 < source.width && y < size && x < size && c < CHANNELS && Filled(source, size, data, size, 0)
    ensures Offset(size, y, x) + c < |data| && data[Offset(size, y, x) + c] == Resized(source, size, y, x, c)
  {
    hide Resized;
    assert Holds(source, size, data, y, x, c);
  }
}
