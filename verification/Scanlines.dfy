/** PNG scanline filters (section 6 of RFC 2083) and their in-place reconstruction. */
module Scanlines {
  import opened Bytes

  const CHANNELS := 4

  datatype FilterError = UnsupportedFilter

  function Distance(a: int, b: int): nat {
    if a < b then b - a else a - b
  }

  function Paeth(left: Byte, above: Byte, upperLeft: Byte): Byte {
    var estimate := left + above - upperLeft;
    var leftDistance := Distance(estimate, left);
    var aboveDistance := Distance(estimate, above);
    var upperLeftDistance := Distance(estimate, upperLeft);
    if leftDistance <= aboveDistance && leftDistance <= upperLeftDistance then left
    else if aboveDistance <= upperLeftDistance then above
    else upperLeft
  }

  /** The predictor is a neighbour at least distance from the estimate; ties go to left, then above. */
  lemma PaethIsNearest(left: Byte, above: Byte, upperLeft: Byte)
    ensures var estimate := left + above - upperLeft;
            var best := Distance(estimate, Paeth(left, above, upperLeft));
      && Paeth(left, above, upperLeft) in {left, above, upperLeft}
      && (forall n :: n in {left, above, upperLeft} ==> best <= Distance(estimate, n))
      && (Distance(estimate, left) == best ==> Paeth(left, above, upperLeft) == left)
      && (Distance(estimate, left) > best == Distance(estimate, above) ==> Paeth(left, above, upperLeft) == above)
  {
  }

  // ----- Positions: image byte `t` lies in row `t / stride`, and each row has a filter byte before it -----

  function Area(a: nat, b: nat): nat {
    a * b
  }

  function Row(t: nat, stride: nat): nat
    requires 0 < stride
  {
    t / stride
  }

  function Column(t: nat, stride: nat): nat
    requires 0 < stride
  {
    t % stride
  }

  lemma RowAndColumn(y: nat, x: nat, stride: nat)
    requires x < stride
    ensures Row(Area(y, stride) + x, stride) == y && Column(Area(y, stride) + x, stride) == x
  {
    var t := y * stride + x;
    var k := t / stride - y;
    assert t == t / stride * stride + t % stride;
    assert k * stride == x - t % stride;
    assert k >= 1 ==> k * stride >= stride;
    assert k <= -1 ==> k * stride + stride <= 0;
  }

  lemma SplitPosition(t: nat, stride: nat)
    requires 0 < stride
    ensures Area(Row(t, stride), stride) + Column(t, stride) == t && Column(t, stride) < stride
  {
  }

  lemma RowStarts(y: nat, stride: nat, height: nat)
    ensures Area(0, stride) == 0 && Area(y + 1, stride) == Area(y, stride) + stride
    ensures Area(y, stride + 1) == Area(y, stride) + y
    ensures y <= height ==> Area(y, stride) <= Area(height, stride)
    ensures stride == 0 ==> Area(height, stride) == 0
  {
    if y <= height {
      assert y * stride <= height * stride;
    }
  }

  lemma Position(t: nat, stride: nat, height: nat)
    requires t < Area(height, stride)
    ensures 0 < stride && Row(t, stride) < height && Column(t, stride) < stride
    ensures Area(Row(t, stride), stride) + Column(t, stride) == t
    ensures t + Row(t, stride) + 1 < Area(height, stride + 1)
    ensures Area(Row(t, stride), stride + 1) == t - Column(t, stride) + Row(t, stride)
  {
    RowStarts(height, stride, height);
    var y := Row(t, stride);
    SplitPosition(t, stride);
    RowStarts(height, stride, y);
    RowStarts(y, stride, height);
    hide Area, Row, Column;
  }

  // ----- Reconstruction -----

  /** What a filter predicts for byte `t`, from bytes before it; missing neighbours count as 0. */
  function Prediction(filter: Byte, pixels: seq<Byte>, stride: nat, t: nat): Byte
    requires 0 < stride && t <= |pixels|
  {
    var column := Column(t, stride);
    assert column <= t;
    var left := if column >= CHANNELS then pixels[t - CHANNELS] else 0;
    var above := if t >= stride then pixels[t - stride] else 0;
    assert column < stride;
    var upperLeft := if t >= stride && column >= CHANNELS then Corner(t, stride); pixels[t - stride - CHANNELS] else 0;
    Predicted(filter, left, above, upperLeft)
  }

  function Predicted(filter: Byte, left: Byte, above: Byte, upperLeft: Byte): Byte {
    match filter
    case 0 => 0
    case 1 => left
    case 2 => above
    case 3 => (left + above) / 2
    case _ => Paeth(left, above, upperLeft)
  }

  lemma Corner(t: nat, stride: nat)
    requires 0 < stride <= t
    ensures Column(t, stride) <= t - stride
  {
    assert t == t / stride * stride + t % stride && t / stride >= 1;
    assert stride <= t / stride * stride;
  }

  /** The first `n` bytes of the image held by the scanlines. */
  function Unfilter(scanlines: seq<Byte>, stride: nat, height: nat, n: nat): (r: Result<seq<Byte>, FilterError>)
    requires |scanlines| == Area(height, stride + 1) && n <= Area(height, stride)
    ensures r.Ok? ==> |r.value| == n
    ensures r.Err? ==> r == Err(UnsupportedFilter)
  {
    if n == 0 then Ok([]) else
    var t := n - 1;
    var prior := Unfilter(scanlines, stride, height, t);
    Position(t, stride, height);
    var filter := scanlines[t - Column(t, stride) + Row(t, stride)];
    if prior.Err? then prior
    else if filter > 4 then Err(UnsupportedFilter)
    else Ok(prior.value + [(scanlines[t + Row(t, stride) + 1] + Prediction(filter, prior.value, stride, t)) % 256])
  }

  lemma {:induction false} ErrorPersists(scanlines: seq<Byte>, stride: nat, height: nat, m: nat, n: nat)
    requires |scanlines| == Area(height, stride + 1) && m <= n <= Area(height, stride)
    requires Unfilter(scanlines, stride, height, m).Err?
    ensures Unfilter(scanlines, stride, height, n) == Err(UnsupportedFilter)
    decreases n
  {
    hide Area, Row, Column, Prediction;
    if m < n {
      ErrorPersists(scanlines, stride, height, m, n - 1);
    }
  }

  lemma PredictionFromNeighbours(
      filter: Byte, done: seq<Byte>, stride: nat, y: nat, x: nat, left: Byte, above: Byte, upperLeft: Byte)
    requires x < stride && |done| == Area(y, stride) + x
    requires left == if x >= CHANNELS then done[|done| - CHANNELS] else 0
    requires y > 0 ==> stride <= |done| && above == done[|done| - stride]
    requires y > 0 && x >= CHANNELS ==> stride + CHANNELS <= |done| && upperLeft == done[|done| - stride - CHANNELS]
    requires (y == 0 ==> above == 0) && (y == 0 || x < CHANNELS ==> upperLeft == 0)
    ensures Prediction(filter, done, stride, |done|) == Predicted(filter, left, above, upperLeft)
  {
    RowAndColumn(y, x, stride);
    RowStarts(1, stride, y);
    RowStarts(0, stride, y);
    hide Area, Row, Column, Predicted;
    assert y > 0 <==> |done| >= stride;
  }

  lemma UnfilterStep(scanlines: seq<Byte>, stride: nat, height: nat, y: nat, x: nat, done: seq<Byte>)
    requires |scanlines| == Area(height, stride + 1) && y < height && x < stride
    requires |done| == Area(y, stride) + x < Area(height, stride)
    requires Unfilter(scanlines, stride, height, |done|) == Ok(done)
    ensures Area(y, stride + 1) + 1 + x < |scanlines|
    ensures y > 0 ==> stride <= Area(y, stride)
    ensures var filter, raw := scanlines[Area(y, stride + 1)], scanlines[Area(y, stride + 1) + 1 + x];
      Unfilter(scanlines, stride, height, |done| + 1)
        == if filter > 4 then Err(UnsupportedFilter)
           else Ok(done + [(raw + Prediction(filter, done, stride, |done|)) % 256])
  {
    hide Area, Row, Column, Prediction;
    RowAndColumn(y, x, stride);
    RowStarts(1, stride, y);
    RowStarts(0, stride, y);
    Position(|done|, stride, height);
  }

  /** One turn of the inner loop; false stands for the thrown error. */
  method ReconstructByte(scanlines: seq<Byte>, stride: nat, height: nat, pixels: array<Byte>, y: nat, x: nat)
    returns (supported: bool)
    requires |scanlines| == Area(height, stride + 1) && pixels.Length == Area(height, stride)
    requires y < height && x < stride && Area(y, stride) + x < pixels.Length
    requires Unfilter(scanlines, stride, height, Area(y, stride) + x) == Ok(pixels[..Area(y, stride) + x])
    modifies pixels
    ensures Unfilter(scanlines, stride, height, Area(y, stride) + x + 1)
         == if supported then Ok(pixels[..Area(y, stride) + x + 1]) else Err(UnsupportedFilter)
  {
    hide Area, Row, Column, Paeth, Prediction, Unfilter;
    var source, target := Area(y, stride + 1), Area(y, stride) + x;
    ghost var done := pixels[..target];
    UnfilterStep(scanlines, stride, height, y, x, done);
    var filter := scanlines[source];
    var raw: int := scanlines[source + 1 + x];
    var left: int := if x >= CHANNELS then pixels[target - CHANNELS] else 0;
    var above: int := if y > 0 then pixels[target - stride] else 0;
    var upperLeft := if y > 0 && x >= CHANNELS then pixels[target - stride - CHANNELS] else 0;
    PredictionFromNeighbours(filter, done, stride, y, x, left, above, upperLeft);
    var predicted: int;
    if filter == 0 {
      predicted := 0;
    } else if filter == 1 {
      predicted := left;
    } else if filter == 2 {
      predicted := above;
    } else if filter == 3 {
      predicted := (left + above) / 2;
    } else if filter == 4 {
      predicted := Paeth(left, above, upperLeft);
    } else {
      return false;
    }
    assert predicted == Prediction(filter, done, stride, target);
    pixels[target] := (raw + predicted) % 256;
    assert pixels[..target + 1] == done + [pixels[target]];
    supported := true;
  }

  method Reconstruct(scanlines: seq<Byte>, stride: nat, height: nat) returns (r: Result<seq<Byte>, FilterError>)
    requires |scanlines| == Area(height, stride + 1)
    ensures r == Unfilter(scanlines, stride, height, Area(height, stride))
  {
    hide Area, Row, Column, Prediction;
    var pixels := new Byte[Area(height, stride)](_ => 0);
    RowStarts(0, stride, height);
    for y := 0 to height
      invariant Area(y, stride) <= Area(height, stride)
      invariant Unfilter(scanlines, stride, height, Area(y, stride)) == Ok(pixels[..Area(y, stride)])
    {
      RowStarts(y, stride, height);
      RowStarts(y + 1, stride, height);
      hide Unfilter;
      for x := 0 to stride
        invariant Unfilter(scanlines, stride, height, Area(y, stride) + x) == Ok(pixels[..Area(y, stride) + x])
      {
        var supported := ReconstructByte(scanlines, stride, height, pixels, y, x);
        if !supported {
          ErrorPersists(scanlines, stride, height, Area(y, stride) + x + 1, Area(height, stride));
          return Err(UnsupportedFilter);
        }
      }
    }
    assert pixels[..Area(height, stride)] == pixels[..];
    r := Ok(pixels[..]);
  }

  // ----- Filtering, the encoder's side of section 6 -----

  ghost predicate RowFilters(filters: seq<Byte>, image: seq<Byte>, stride: nat) {
    && |image| == Area(|filters|, stride)
    && forall y :: 0 <= y < |filters| ==> filters[y] <= 4
  }

  function FilteredByte(filters: seq<Byte>, image: seq<Byte>, stride: nat, k: nat): Byte
    requires |image| == Area(|filters|, stride) && k < Area(|filters|, stride + 1)
  {
    var y := Row(k, stride + 1);
    FilteredPosition(k, stride, |filters|);
    if Column(k, stride + 1) == 0 then filters[y]
    else
      var t := k - y - 1;
      (image[t] - Prediction(filters[y], image, stride, t)) % 256
  }

  lemma FilteredPosition(k: nat, stride: nat, height: nat)
    requires k < Area(height, stride + 1)
    ensures Row(k, stride + 1) < height
    ensures Column(k, stride + 1) == 0 ==> k == Area(Row(k, stride + 1), stride + 1)
    ensures Column(k, stride + 1) != 0 ==>
      && 0 < stride && 0 <= k - Row(k, stride + 1) - 1 < Area(height, stride)
      && Row(k - Row(k, stride + 1) - 1, stride) == Row(k, stride + 1)
  {
    var y, c := Row(k, stride + 1), Column(k, stride + 1);
    SplitPosition(k, stride + 1);
    RowStarts(y, stride, height);
    RowStarts(y + 1, stride, height);
    RowStarts(height, stride + 1, y);
    hide Area, Row, Column;
    if c != 0 {
      RowAndColumn(y, c - 1, stride);
    }
  }

  /** Every row behind its filter type, each byte as its difference from the prediction. */
  function Filtered(filters: seq<Byte>, image: seq<Byte>, stride: nat): (scanlines: seq<Byte>)
    requires |image| == Area(|filters|, stride)
    ensures |scanlines| == Area(|filters|, stride + 1)
  {
    seq(Area(|filters|, stride + 1), k requires 0 <= k < Area(|filters|, stride + 1) => FilteredByte(filters, image, stride, k))
  }

  /** Where the row's filter type and byte `t` itself are found among the scanlines. */
  lemma FilteredAt(filters: seq<Byte>, image: seq<Byte>, stride: nat, t: nat)
    requires |image| == Area(|filters|, stride) && t < |image|
    ensures 0 < stride && Row(t, stride) < |filters|
    ensures 0 <= t - Column(t, stride) + Row(t, stride) <= t + Row(t, stride) + 1 < Area(|filters|, stride + 1)
    ensures Filtered(filters, image, stride)[t - Column(t, stride) + Row(t, stride)] == filters[Row(t, stride)]
    ensures Filtered(filters, image, stride)[t + Row(t, stride) + 1]
         == (image[t] - Prediction(filters[Row(t, stride)], image, stride, t)) % 256
  {
    hide Area, Row, Column, Prediction;
    Position(t, stride, |filters|);
    RowAndColumn(Row(t, stride), 0, stride + 1);
    RowAndColumn(Row(t, stride), Column(t, stride) + 1, stride + 1);
  }

  /** A row of scanlines begins with its filter type. */
  lemma FilterStored(filters: seq<Byte>, image: seq<Byte>, stride: nat, y: nat)
    requires |image| == Area(|filters|, stride) && y < |filters|
    ensures Area(y, stride + 1) < Area(|filters|, stride + 1)
    ensures Filtered(filters, image, stride)[Area(y, stride + 1)] == filters[y]
  {
    RowAndColumn(y, 0, stride + 1);
    hide Area, Row, Column, Prediction;
  }

  lemma PlainPixel(filters: seq<Byte>, image: seq<Byte>, stride: nat, y: nat, i: nat)
    requires |image| == Area(|filters|, stride) && y < |filters| && filters[y] == 0 && i < stride
    ensures Area(y, stride + 1) + i + 1 < Area(|filters|, stride + 1) && Area(y, stride) + i < |image|
    ensures Filtered(filters, image, stride)[Area(y, stride + 1) + i + 1] == image[Area(y, stride) + i]
  {
    RowStarts(y, stride, |filters|);
    RowStarts(y + 1, stride, |filters|);
    RowAndColumn(y, i, stride);
    hide Area, Row, Column, Filtered, Paeth;
    FilteredAt(filters, image, stride, Area(y, stride) + i);
  }

  lemma PlainByte(filters: seq<Byte>, image: seq<Byte>, stride: nat, y: nat, i: nat)
    requires |image| == Area(|filters|, stride) && y < |filters| && filters[y] == 0 && i <= stride
    ensures Area(y, stride + 1) + i < Area(|filters|, stride + 1)
    ensures i > 0 ==> Area(y, stride) + i <= |image|
    ensures Filtered(filters, image, stride)[Area(y, stride + 1) + i]
         == if i == 0 then 0 else image[Area(y, stride) + i - 1]
  {
    hide Area, Filtered;
    if i == 0 {
      FilterStored(filters, image, stride, y);
    } else {
      PlainPixel(filters, image, stride, y, i - 1);
    }
  }

  /** A row of filter type 0 is stored as it is, behind its filter type. */
  lemma PlainRow(filters: seq<Byte>, image: seq<Byte>, stride: nat, y: nat)
    requires |image| == Area(|filters|, stride) && y < |filters| && filters[y] == 0
    ensures Area(y, stride) + stride <= |image|
    ensures Area(y + 1, stride + 1) == Area(y, stride + 1) + stride + 1 <= Area(|filters|, stride + 1)
    ensures Filtered(filters, image, stride)[Area(y, stride + 1)..Area(y + 1, stride + 1)]
         == [0] + image[Area(y, stride)..Area(y, stride) + stride]
  {
    RowStarts(y, stride + 1, |filters|);
    PlainByte(filters, image, stride, y, stride);
    hide Area, Filtered;
    var start := Area(y, stride + 1);
    var row := Filtered(filters, image, stride)[start..start + stride + 1];
    forall i | 0 <= i < stride + 1
      ensures row[i] == if i == 0 then 0 else image[Area(y, stride) + i - 1]
    {
      PlainByte(filters, image, stride, y, i);
      assert row[i] == Filtered(filters, image, stride)[start + i];
    }
  }

  lemma PredictionLooksBack(filter: Byte, image: seq<Byte>, stride: nat, n: nat, t: nat)
    requires 0 < stride && t <= n <= |image|
    ensures Prediction(filter, image[..n], stride, t) == Prediction(filter, image, stride, t)
  {
    if t >= stride {
      Corner(t, stride);
    }
  }

  /** Whatever filter each row used, reconstruction gives the image back. */
  lemma {:induction false} UnfilterFiltered(filters: seq<Byte>, image: seq<Byte>, stride: nat, n: nat)
    requires RowFilters(filters, image, stride) && n <= |image|
    ensures Unfilter(Filtered(filters, image, stride), stride, |filters|, n) == Ok(image[..n])
  {
    hide Area, Row, Column, Prediction, Filtered;
    if n != 0 {
      var t := n - 1;
      UnfilterFiltered(filters, image, stride, t);
      FilteredAt(filters, image, stride, t);
      PredictionLooksBack(filters[Row(t, stride)], image, stride, t, t);
      assert image[..n] == image[..t] + [image[t]];
    }
  }

  function FilterTypes(scanlines: seq<Byte>, stride: nat, height: nat): (filters: seq<Byte>)
    requires |scanlines| == Area(height, stride + 1)
    ensures |filters| == height
  {
    seq(height, y requires 0 <= y < height =>scanlines[Area(y, stride + 1)])
  }

  predicate AllSupported(scanlines: seq<Byte>, stride: nat, height: nat)
    requires |scanlines| == Area(height, stride + 1)
  {
    forall filter :: filter in FilterTypes(scanlines, stride, height) ==> filter <= 4
  }

  ghost predicate PixelFollows(scanlines: seq<Byte>, stride: nat, height: nat, image: seq<Byte>, t: nat)
    requires |scanlines| == Area(height, stride + 1) && t < |image| <= Area(height, stride)
  {
    Position(t, stride, height);
    var filter := FilterTypes(scanlines, stride, height)[Row(t, stride)];
    filter <= 4 && image[t] == (scanlines[t + Row(t, stride) + 1] + Prediction(filter, image, stride, t)) % 256
  }

  lemma {:induction false} PixelsOfScanlines(scanlines: seq<Byte>, stride: nat, height: nat, n: nat, t: nat)
    requires |scanlines| == Area(height, stride + 1) && t < n <= Area(height, stride)
    requires Unfilter(scanlines, stride, height, n).Ok?
    ensures PixelFollows(scanlines, stride, height, Unfilter(scanlines, stride, height, n).value, t)
  {
    hide Area, Row, Column, Prediction;
    Position(t, stride, height);
    var image := Unfilter(scanlines, stride, height, n).value;
    var filter := FilterTypes(scanlines, stride, height)[Row(t, stride)];
    assert image[..n - 1] == Unfilter(scanlines, stride, height, n - 1).value;
    PredictionLooksBack(filter, image, stride, n - 1, t);
    if t < n - 1 {
      PixelsOfScanlines(scanlines, stride, height, n - 1, t);
    }
  }

  lemma {:induction false} SupportedUnfilters(scanlines: seq<Byte>, stride: nat, height: nat, n: nat)
    requires |scanlines| == Area(height, stride + 1) && n <= Area(height, stride)
    requires AllSupported(scanlines, stride, height)
    ensures Unfilter(scanlines, stride, height, n).Ok?
    decreases n
  {
    hide Area, Row, Column, Prediction;
    if n > 0 {
      SupportedUnfilters(scanlines, stride, height, n - 1);
      Position(n - 1, stride, height);
      assert FilterTypes(scanlines, stride, height)[Row(n - 1, stride)] in FilterTypes(scanlines, stride, height);
    }
  }

  /** And nothing else decodes: accepted scanlines are exactly the filtering of the image they hold. */
  lemma FilteredUnfilter(scanlines: seq<Byte>, stride: nat, height: nat)
    requires 0 < stride && |scanlines| == Area(height, stride + 1)
    requires Unfilter(scanlines, stride, height, Area(height, stride)).Ok?
    ensures var filters := FilterTypes(scanlines, stride, height);
            var image := Unfilter(scanlines, stride, height, Area(height, stride)).value;
      RowFilters(filters, image, stride) && Filtered(filters, image, stride) == scanlines
  {
    hide Area, Row, Column, Prediction, Unfilter;
    var filters := FilterTypes(scanlines, stride, height);
    var image := Unfilter(scanlines, stride, height, Area(height, stride)).value;
    forall y | 0 <= y < height
      ensures filters[y] <= 4
    {
      RowStarts(y, stride, height);
      RowStarts(y + 1, stride, height);
      RowAndColumn(y, 0, stride);
      PixelsOfScanlines(scanlines, stride, height, Area(height, stride), Area(y, stride));
    }
    forall k | 0 <= k < |scanlines|
      ensures FilteredByte(filters, image, stride, k) == scanlines[k]
    {
      FilteredPosition(k, stride, height);
      if Column(k, stride + 1) != 0 {
        PixelsOfScanlines(scanlines, stride, height, Area(height, stride), k - Row(k, stride + 1) - 1);
      }
    }
  }

  /** Where rows have pixels, reconstruction fails exactly when some row's filter type is not supported. */
  lemma UnfiltersExactly(scanlines: seq<Byte>, stride: nat, height: nat)
    requires 0 < stride && |scanlines| == Area(height, stride + 1)
    ensures Unfilter(scanlines, stride, height, Area(height, stride)).Ok? <==> AllSupported(scanlines, stride, height)
  {
    hide Area, Unfilter;
    if AllSupported(scanlines, stride, height) {
      SupportedUnfilters(scanlines, stride, height, Area(height, stride));
    }
    if Unfilter(scanlines, stride, height, Area(height, stride)).Ok? {
      FilteredUnfilter(scanlines, stride, height);
    }
  }

  // ----- What the filter types mean -----

  /** The byte in row `y` and column `x` of an image; outside of it 0. */
  function ByteAt(image: seq<Byte>, stride: nat, y: int, x: int): Byte {
    if y >= 0 && x >= 0 && Area(y, stride) + x < |image| then image[Area(y, stride) + x] else 0
  }

  /** `p` is a neighbour at least distance from `left + above - upperLeft`; of equals the first counts. */
  ghost predicate Nearest(left: Byte, above: Byte, upperLeft: Byte, p: Byte) {
    var estimate := left + above - upperLeft;
    && p in {left, above, upperLeft}
    && (forall n :: n in {left, above, upperLeft} ==> Distance(estimate, p) <= Distance(estimate, n))
    && (Distance(estimate, left) == Distance(estimate, p) ==> p == left)
    && (Distance(estimate, left) > Distance(estimate, above) == Distance(estimate, p) ==> p == above)
  }

  /** A stored byte is what section 6 of RFC 2083 makes of a pixel byte and the three bytes around it. */
  ghost predicate Stores(filter: Byte, stored: Byte, pixel: Byte, left: Byte, above: Byte, upperLeft: Byte) {
    match filter
    case 0 => stored == pixel
    case 1 => stored == (pixel - left) % 256
    case 2 => stored == (pixel - above) % 256
    case 3 => exists mean: Byte :: 2 * mean <= left + above < 2 * mean + 2 && stored == (pixel - mean) % 256
    case 4 => exists p: Byte :: Nearest(left, above, upperLeft, p) && stored == (pixel - p) % 256
    case _ => false
  }

  lemma PredictedStores(filter: Byte, stored: Byte, pixel: Byte, left: Byte, above: Byte, upperLeft: Byte)
    requires filter <= 4 && pixel == (stored + Predicted(filter, left, above, upperLeft)) % 256
    ensures Stores(filter, stored, pixel, left, above, upperLeft)
  {
    var p := Predicted(filter, left, above, upperLeft);
    assert stored == (pixel - p) % 256;
    if filter == 3 {
      assert 2 * p <= left + above < 2 * p + 2;
    } else if filter == 4 {
      PaethIsNearest(left, above, upperLeft);
      assert Nearest(left, above, upperLeft, p);
    }
  }

  lemma NeighboursPredict(filter: Byte, image: seq<Byte>, stride: nat, y: nat, x: nat)
    requires x < stride && Area(y, stride) + x <= |image|
    ensures Prediction(filter, image, stride, Area(y, stride) + x)
         == Predicted(filter, ByteAt(image, stride, y, x - CHANNELS), ByteAt(image, stride, y - 1, x),
                      ByteAt(image, stride, y - 1, x - CHANNELS))
  {
    RowAndColumn(y, x, stride);
    RowStarts(1, stride, y);
    RowStarts(0, stride, y);
    if y > 0 {
      RowStarts(y - 1, stride, y);
    }
    hide Area, Row, Column, Predicted;
    assert y > 0 <==> Area(y, stride) + x >= stride;
  }

  lemma ByteInside(stride: nat, height: nat, y: nat, x: nat)
    requires y < height && x < stride
    ensures Area(y, stride) + x < Area(height, stride) && Area(y, stride + 1) + 1 + x < Area(height, stride + 1)
    ensures Row(Area(y, stride) + x, stride) == y && Area(y, stride + 1) == Area(y, stride) + y
  {
    RowStarts(y, stride, height);
    RowStarts(y + 1, stride, height);
    RowStarts(y + 1, stride + 1, height);
    RowStarts(y, stride + 1, height);
    RowAndColumn(y, x, stride);
    hide Area, Row, Column;
  }

  /** Every row of accepted scanlines holds its pixels as its filter type says, by bytes of the decoded image. */
  lemma FiltersAsSpecified(scanlines: seq<Byte>, stride: nat, height: nat, y: nat, x: nat)
    requires |scanlines| == Area(height, stride + 1) && y < height && x < stride
    requires Unfilter(scanlines, stride, height, Area(height, stride)).Ok?
    ensures var image := Unfilter(scanlines, stride, height, Area(height, stride)).value;
            && Area(y, stride) + x < |image| && Area(y, stride + 1) + 1 + x < |scanlines|
            && Stores(scanlines[Area(y, stride + 1)], scanlines[Area(y, stride + 1) + 1 + x], image[Area(y, stride) + x],
                      ByteAt(image, stride, y, x - CHANNELS), ByteAt(image, stride, y - 1, x),
                      ByteAt(image, stride, y - 1, x - CHANNELS))
  {
    ByteInside(stride, height, y, x);
    hide Area, Row, Column, Prediction, Predicted, Unfilter, Stores, ByteAt;
    var image, t := Unfilter(scanlines, stride, height, Area(height, stride)).value, Area(y, stride) + x;
    PixelsOfScanlines(scanlines, stride, height, Area(height, stride), t);
    var filter := scanlines[Area(y, stride + 1)];
    NeighboursPredict(filter, image, stride, y, x);
    PredictedStores(filter, scanlines[Area(y, stride + 1) + 1 + x], image[t], ByteAt(image, stride, y, x - CHANNELS),
      ByteAt(image, stride, y - 1, x), ByteAt(image, stride, y - 1, x - CHANNELS));
  }
}
