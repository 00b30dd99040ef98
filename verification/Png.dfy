/** The PNG container of the icon pipeline: chunk writer, chunk reader, encoder and decoder. */
module Png {
  import opened Bytes
  import Crc32
  import CrcDivision
  import Scanlines

  datatype RgbaImage = RgbaImage(data: seq<Byte>, height: nat, width: nat)

  /** One error per thrown message; `OutOfRange` is Node's own for a read or a number that does not fit. */
  datatype PngError =
    | DimensionMismatch | OutOfRange
    | NoSignature | InvalidCrc | UnsupportedFormat | MissingData | InflateFailed | ScanlineLength | UnsupportedFilter

  /** zlib as a pair of parameters: inflating may throw, and undoes deflating. */
  type Deflate = seq<Byte> -> seq<Byte>
  type Inflate = seq<Byte> -> Option<seq<Byte>>

  ghost predicate Inverse(deflate: Deflate, inflate: Inflate) {
    forall s :: inflate(deflate(s)) == Some(s)
  }

  const SIGNATURE: seq<Byte> := [137, 80, 78, 71, 13, 10, 26, 10]
  const IHDR: seq<Byte> := [73, 72, 68, 82]
  const SRGB: seq<Byte> := [115, 82, 71, 66]
  const IDAT: seq<Byte> := [73, 68, 65, 84]
  const IEND: seq<Byte> := [73, 69, 78, 68]

  // ----- Chunks -----

  datatype Chunk = Chunk(name: seq<Byte>, data: seq<Byte>) {
    predicate Storable() {
      |name| == 4 && |data| < TWO_TO_THE_32
    }
  }

  function Serialized(c: Chunk): (bytes: seq<Byte>)
    requires c.Storable()
    ensures |bytes| == 12 + |c.data|
  {
    Crc32.ChecksumValueFaithful(c.name + c.data, []);
    Be32(|c.data|) + c.name + c.data + Be32(Crc32.ChecksumValue(c.name + c.data))
  }

  function SerializedAll(chunks: seq<Chunk>): seq<Byte>
    requires forall c :: c in chunks ==> c.Storable()
  {
    if chunks == [] then [] else Serialized(chunks[0]) + SerializedAll(chunks[1..])
  }

  /** `Buffer.toString('ascii')` drops the high bit of every byte before the name is compared. */
  predicate IsNamed(name: seq<Byte>, expected: seq<Byte>) {
    |name| == |expected| && forall i :: 0 <= i < |name| ==> name[i] % 128 == expected[i]
  }

  // ----- Reading chunks -----

  datatype Header = Header(width: nat, height: nat, compressed: seq<seq<Byte>>)

  const NO_HEADER := Header(0, 0, [])

  /** What the reader does with one chunk whose checksum is right. */
  function Accept(c: Chunk, h: Header): Result<Header, PngError> {
    if IsNamed(c.name, IHDR) then
      if |c.data| < 8 then Err(OutOfRange)
      else if |c.data| < 13 || c.data[8] != 8 || c.data[9] != 6 || c.data[12] != 0 then Err(UnsupportedFormat)
      else Ok(h.(width := FromBe32(c.data[..4]), height := FromBe32(c.data[4..8])))
    else if IsNamed(c.name, IDAT) then Ok(h.(compressed := h.compressed + [c.data]))
    else Ok(h)
  }

  function AcceptAll(chunks: seq<Chunk>, h: Header): Result<Header, PngError>
    decreases |chunks|
  {
    if chunks == [] then Ok(h) else
    var next := Accept(chunks[0], h);
    if next.Err? then next else AcceptAll(chunks[1..], next.value)
  }

  /** The chunk at an offset: its content when the file is long enough and the checksum is right. */
  function ReadChunk(png: seq<Byte>, offset: nat): (r: Result<Chunk, PngError>)
    ensures r.Ok? ==> r.value.Storable() && offset + 12 + |r.value.data| <= |png|
  {
    if offset + 4 > |png| then Err(OutOfRange) else
    var crcAt := offset + 8 + FromBe32(png[offset..offset + 4]);
    if crcAt + 4 > |png| then Err(OutOfRange)
    else if Crc32.ChecksumValue(png[offset + 4..crcAt]) != FromBe32(png[crcAt..crcAt + 4]) then Err(InvalidCrc)
    else Ok(Chunk(png[offset + 4..offset + 8], png[offset + 8..crcAt]))
  }

  function ReadChunks(png: seq<Byte>, offset: nat, h: Header): Result<Header, PngError>
    decreases |png| - offset
  {
    if offset >= |png| then Ok(h) else
    var chunk := ReadChunk(png, offset);
    if chunk.Err? then Err(chunk.error) else
    var next := Accept(chunk.value, h);
    if next.Err? then next else ReadChunks(png, offset + 12 + |chunk.value.data|, next.value)
  }

  method ParseChunks(png: seq<Byte>) returns (r: Result<Header, PngError>)
    requires |png| >= 8
    ensures r == ReadChunks(png, 8, NO_HEADER)
  {
    hide Be32, FromBe32, Crc32.Checksum, Crc32.LowBits, Value, IsNamed;
    var width, height := 0, 0;
    var compressed: seq<seq<Byte>> := [];
    var offset := 8;
    while offset < |png|
      invariant ReadChunks(png, offset, Header(width, height, compressed)) == ReadChunks(png, 8, NO_HEADER)
      decreases |png| - offset
    {
      if offset + 4 > |png| {
        return Err(OutOfRange);
      }
      var length := FromBe32(png[offset..offset + 4]);
      if offset + 8 + length + 4 > |png| {
        return Err(OutOfRange);
      }
      var name := png[offset + 4..offset + 8];
      var data := png[offset + 8..offset + 8 + length];
      var expectedCrc := FromBe32(png[offset + 8 + length..offset + 8 + length + 4]);
      var actual := Crc32.ComputeChecksum(png[offset + 4..offset + 8 + length]);
      if Value(Crc32.LowBits(32, actual)) != expectedCrc {
        return Err(InvalidCrc);
      }
      if IsNamed(name, IHDR) {
        if |data| < 8 {
          return Err(OutOfRange);
        }
        width, height := FromBe32(data[..4]), FromBe32(data[4..8]);
        if |data| < 13 || data[8] != 8 || data[9] != 6 || data[12] != 0 {
          return Err(UnsupportedFormat);
        }
      } else if IsNamed(name, IDAT) {
        compressed := compressed + [data];
      }
      offset := offset + 12 + length;
    }
    r := Ok(Header(width, height, compressed));
  }

  // ----- Decoding -----

  function Concat(parts: seq<seq<Byte>>): seq<Byte> {
    if parts == [] then [] else parts[0] + Concat(parts[1..])
  }

  function Pixels(h: Header, inflate: Inflate): Result<RgbaImage, PngError> {
    if h.width == 0 || h.height == 0 || h.compressed == [] then Err(MissingData) else
    var stride := h.width * Scanlines.CHANNELS;
    var inflated := inflate(Concat(h.compressed));
    if inflated.None? then Err(InflateFailed)
    else if |inflated.value| != Scanlines.Area(h.height, stride + 1) then Err(ScanlineLength)
    else
      var pixels := Scanlines.Unfilter(inflated.value, stride, h.height, Scanlines.Area(h.height, stride));
      if pixels.Err? then Err(UnsupportedFilter) else Ok(RgbaImage(pixels.value, h.height, h.width))
  }

  function Decode(png: seq<Byte>, inflate: Inflate): Result<RgbaImage, PngError> {
    if !(SIGNATURE <= png) then Err(NoSignature) else
    var h := ReadChunks(png, 8, NO_HEADER);
    if h.Err? then Err(h.error) else Pixels(h.value, inflate)
  }

  method DecodePng(png: seq<Byte>, inflate: Inflate) returns (r: Result<RgbaImage, PngError>)
    ensures r == Decode(png, inflate)
  {
    hide ReadChunks, Concat, Scanlines.Area, Scanlines.Unfilter;
    if !(SIGNATURE <= png) {
      return Err(NoSignature);
    }
    var parsed := ParseChunks(png);
    if parsed.Err? {
      return Err(parsed.error);
    }
    var Header(width, height, compressed) := parsed.value;
    if width == 0 || height == 0 || compressed == [] {
      return Err(MissingData);
    }
    var stride := width * Scanlines.CHANNELS;
    var inflated := inflate(Concat(compressed));
    if inflated.None? {
      return Err(InflateFailed);
    }
    if |inflated.value| != Scanlines.Area(height, stride + 1) {
      return Err(ScanlineLength);
    }
    var pixels := Scanlines.Reconstruct(inflated.value, stride, height);
    r := if pixels.Err? then Err(UnsupportedFilter) else Ok(RgbaImage(pixels.value, height, width));
  }

  // ----- Encoding -----

  function HeaderData(width: nat, height: nat): (data: seq<Byte>)
    requires width < TWO_TO_THE_32 && height < TWO_TO_THE_32
    ensures |data| == 13
  {
    Be32(width) + Be32(height) + [8, 6, 0, 0, 0]
  }

  /** Filter type 0 for every row. */
  function NoFilters(height: nat): (filters: seq<Byte>)
    ensures |filters| == height && forall y :: 0 <= y < height ==> filters[y] == 0
  {
    seq(height, _ => 0)
  }

  function Unfiltered(image: RgbaImage): seq<Byte>
    requires |image.data| == Scanlines.Area(image.height, image.width * Scanlines.CHANNELS)
  {
    Scanlines.Filtered(NoFilters(image.height), image.data, image.width * Scanlines.CHANNELS)
  }

  function Encode(image: RgbaImage, deflate: Deflate): Result<seq<Byte>, PngError> {
    if |image.data| != Scanlines.Area(image.height, image.width * Scanlines.CHANNELS) then Err(DimensionMismatch)
    else if image.width >= TWO_TO_THE_32 || image.height >= TWO_TO_THE_32 then Err(OutOfRange)
    else
      var compressed := deflate(Unfiltered(image));
      if |compressed| >= TWO_TO_THE_32 then Err(OutOfRange)
      else Ok(SIGNATURE
        + Serialized(Chunk(IHDR, HeaderData(image.width, image.height)))
        + Serialized(Chunk(SRGB, [0]))
        + Serialized(Chunk(IDAT, compressed))
        + Serialized(Chunk(IEND, [])))
  }

  method PngChunk(name: seq<Byte>, data: seq<Byte>) returns (bytes: seq<Byte>)
    requires Chunk(name, data).Storable()
    ensures bytes == Serialized(Chunk(name, data))
  {
    hide Be32, Crc32.Checksum, Crc32.LowBits, Value, PlacedAt;
    var chunk := new Byte[12 + |data|](_ => 0);
    ghost var zeros := chunk[..];
    CopyInto(Be32(|data|), chunk, 0);
    ghost var h1 := chunk[..];
    CopyInto(name, chunk, 4);
    PlacedTwice(zeros, h1, chunk[..], 0, Be32(|data|), name);
    ghost var h2 := chunk[..];
    CopyInto(data, chunk, 8);
    PlacedTwice(zeros, h2, chunk[..], 0, Be32(|data|) + name, data);
    var crc := Crc32.ComputeChecksum(name + data);
    Crc32.ChecksumValueFaithful(name + data, []);
    ghost var h3 := chunk[..];
    CopyInto(Be32(Value(Crc32.LowBits(32, crc))), chunk, 8 + |data|);
    PlacedTwice(zeros, h3, chunk[..], 0, Be32(|data|) + name + data, Be32(Value(Crc32.LowBits(32, crc))));
    PlacedWhole(zeros, chunk[..], Be32(|data|) + name + data + Be32(Value(Crc32.LowBits(32, crc))));
    bytes := chunk[..];
  }

  method EncodePng(image: RgbaImage, deflate: Deflate) returns (r: Result<seq<Byte>, PngError>)
    ensures r == Encode(image, deflate)
  {
    var stride := image.width * Scanlines.CHANNELS;
    hide Scanlines.Area, Unfiltered, Serialized, HeaderData;
    if |image.data| != Scanlines.Area(image.height, stride) {
      return Err(DimensionMismatch);
    }
    if image.width >= TWO_TO_THE_32 || image.height >= TWO_TO_THE_32 {
      return Err(OutOfRange);
    }
    var ihdr := HeaderData(image.width, image.height);
    var scanlines := BuildScanlines(image);
    var compressed := deflate(scanlines);
    if |compressed| >= TWO_TO_THE_32 {
      return Err(OutOfRange);
    }
    var header := PngChunk(IHDR, ihdr);
    var srgb := PngChunk(SRGB, [0]);
    var idat := PngChunk(IDAT, compressed);
    var iend := PngChunk(IEND, []);
    r := Ok(SIGNATURE + header + srgb + idat + iend);
  }

  /** The first `at` bytes are written, and the rest are zeros still. */
  ghost predicate Written(whole: seq<Byte>, now: seq<Byte>, at: nat) {
    |now| == |whole| && at <= |whole| && forall k :: 0 <= k < |whole| ==> now[k] == if k < at then whole[k] else 0
  }

  /** Writing a row one byte into the zeros behind `at` completes the next scanline. */
  lemma RowPlaced(whole: seq<Byte>, before: seq<Byte>, at: nat, row: seq<Byte>, now: seq<Byte>)
    requires Written(whole, before, at) && at + 1 + |row| <= |whole|
    requires whole[at..at + 1 + |row|] == [0] + row
    requires PlacedAt(before, now, at + 1, row)
    ensures Written(whole, now, at + 1 + |row|)
  {
    var end := at + 1 + |row|;
    forall k | 0 <= k < |whole| ensures now[k] == if k < end then whole[k] else 0 {
      if at <= k < end {
        assert whole[k] == whole[at..end][k - at] == ([0] + row)[k - at];
      }
    }
  }

  lemma AllWritten(image: RgbaImage, now: seq<Byte>)
    requires |image.data| == Scanlines.Area(image.height, image.width * Scanlines.CHANNELS)
    requires Written(Unfiltered(image), now, Scanlines.Area(image.height, image.width * Scanlines.CHANNELS + 1))
    ensures now == Unfiltered(image)
  {
    hide Scanlines.Area, Scanlines.Filtered;
  }

  method BuildScanlines(image: RgbaImage) returns (bytes: seq<Byte>)
    requires |image.data| == Scanlines.Area(image.height, image.width * Scanlines.CHANNELS)
    ensures bytes == Unfiltered(image)
  {
    hide Scanlines.Area, Unfiltered, Written, PlacedAt;
    var stride := image.width * Scanlines.CHANNELS;
    var scanlines := new Byte[Scanlines.Area(image.height, stride + 1)](_ => 0);
    NothingWritten(image, scanlines[..]);
    for y := 0 to image.height
      invariant Written(Unfiltered(image), scanlines[..], Scanlines.Area(y, stride + 1))
    {
      RowFits(image, y);
      var source, target := Scanlines.Area(y, stride), Scanlines.Area(y, stride + 1);
      var row := image.data[source..source + stride];
      ghost var before := scanlines[..];
      CopyInto(row, scanlines, target + 1);
      RowWritten(image, y, before, scanlines[..]);
    }
    bytes := scanlines[..];
    AllWritten(image, bytes);
  }

  lemma RowFits(image: RgbaImage, y: nat)
    requires |image.data| == Scanlines.Area(image.height, image.width * Scanlines.CHANNELS) && y < image.height
    ensures var stride := image.width * Scanlines.CHANNELS;
            && Scanlines.Area(y, stride) + stride <= |image.data|
            && Scanlines.Area(y, stride + 1) + 1 + stride <= Scanlines.Area(image.height, stride + 1)
  {
    hide Scanlines.Area, Scanlines.Filtered;
    RowOf(image, y);
  }

  lemma NothingWritten(image: RgbaImage, zeros: seq<Byte>)
    requires |image.data| == Scanlines.Area(image.height, image.width * Scanlines.CHANNELS)
    requires |zeros| == Scanlines.Area(image.height, image.width * Scanlines.CHANNELS + 1)
    requires forall k :: 0 <= k < |zeros| ==> zeros[k] == 0
    ensures Written(Unfiltered(image), zeros, Scanlines.Area(0, image.width * Scanlines.CHANNELS + 1))
  {
    hide Scanlines.Filtered;
  }

  /** The loop body: row `y` of the image, placed behind its filter byte, completes scanline `y`. */
  lemma RowWritten(image: RgbaImage, y: nat, before: seq<Byte>, now: seq<Byte>)
    requires |image.data| == Scanlines.Area(image.height, image.width * Scanlines.CHANNELS) && y < image.height
    requires var stride := image.width * Scanlines.CHANNELS;
             && Written(Unfiltered(image), before, Scanlines.Area(y, stride + 1))
             && Scanlines.Area(y, stride) + stride <= |image.data|
             && PlacedAt(before, now, Scanlines.Area(y, stride + 1) + 1,
                         image.data[Scanlines.Area(y, stride)..Scanlines.Area(y, stride) + stride])
    ensures Written(Unfiltered(image), now, Scanlines.Area(y + 1, image.width * Scanlines.CHANNELS + 1))
  {
    hide Scanlines.Area, Unfiltered, Written, PlacedAt;
    var stride := image.width * Scanlines.CHANNELS;
    RowOf(image, y);
    var row := image.data[Scanlines.Area(y, stride)..Scanlines.Area(y, stride) + stride];
    RowPlaced(Unfiltered(image), before, Scanlines.Area(y, stride + 1), row, now);
  }

  lemma RowOf(image: RgbaImage, y: nat)
    requires |image.data| == Scanlines.Area(image.height, image.width * Scanlines.CHANNELS) && y < image.height
    ensures var stride := image.width * Scanlines.CHANNELS;
            var source, target := Scanlines.Area(y, stride), Scanlines.Area(y, stride + 1);
            && source + stride <= |image.data| && target + 1 + stride <= |Unfiltered(image)|
            && Scanlines.Area(y + 1, stride + 1) == target + 1 + stride
            && Unfiltered(image)[target..target + 1 + stride] == [0] + image.data[source..source + stride]
  {
    hide Scanlines.Area, Scanlines.Filtered;
    Scanlines.PlainRow(NoFilters(image.height), image.data, image.width * Scanlines.CHANNELS, y);
  }

  // ----- The chunk reader inverts the chunk writer -----

  lemma ReadSerialized(before: seq<Byte>, c: Chunk, after: seq<Byte>)
    requires c.Storable()
    ensures ReadChunk(before + Serialized(c) + after, |before|) == Ok(c)
  {
    hide Be32, FromBe32, Crc32.ChecksumValue;
    var png := before + Serialized(c) + after;
    var offset := |before|;
    var crcAt := offset + 8 + |c.data|;
    assert png[offset..offset + 4] == Be32(|c.data|);
    assert png[offset + 4..crcAt] == c.name + c.data;
    assert png[offset + 4..offset + 8] == c.name && png[offset + 8..crcAt] == c.data;
    Crc32.ChecksumValueFaithful(c.name + c.data, []);
    assert png[crcAt..crcAt + 4] == Be32(Crc32.ChecksumValue(c.name + c.data));
  }

  lemma {:induction false} ReadSerializedAll(before: seq<Byte>, chunks: seq<Chunk>, h: Header)
    requires forall c :: c in chunks ==> c.Storable()
    ensures ReadChunks(before + SerializedAll(chunks), |before|, h) == AcceptAll(chunks, h)
    decreases |chunks|
  {
    hide ReadChunk, Accept, Serialized;
    if chunks == [] {
      assert before + SerializedAll(chunks) == before;
    } else {
      var first := Serialized(chunks[0]);
      var png := before + SerializedAll(chunks);
      assert png == before + first + SerializedAll(chunks[1..]);
      ReadSerialized(before, chunks[0], SerializedAll(chunks[1..]));
      var next := Accept(chunks[0], h);
      if next.Ok? {
        ReadSerializedAll(before + first, chunks[1..], next.value);
      }
    }
  }

  // ----- Exactly what decodes -----

  function IdatParts(chunks: seq<Chunk>): seq<seq<Byte>> {
    if chunks == [] then []
    else (if IsNamed(chunks[0].name, IDAT) then [chunks[0].data] else []) + IdatParts(chunks[1..])
  }

  /** An IHDR chunk the reader supports: eight bits a channel, colour type 6, not interlaced. */
  predicate Supported(c: Chunk) {
    |c.data| >= 13 && c.data[8] == 8 && c.data[9] == 6 && c.data[12] == 0
  }

  /** The sizes an IHDR chunk gives, each in four bytes of falling weight. */
  predicate Gives(c: Chunk, width: nat, height: nat) {
    && |c.data| >= 8
    && width == Quad(c.data[0], c.data[1], c.data[2], c.data[3])
    && height == Quad(c.data[4], c.data[5], c.data[6], c.data[7])
  }

  /** The last IHDR chunk gives the sizes. */
  ghost predicate Sized(chunks: seq<Chunk>, width: nat, height: nat) {
    exists i :: 0 <= i < |chunks| && SizedAt(chunks, i, width, height)
  }

  ghost predicate SizedAt(chunks: seq<Chunk>, i: nat, width: nat, height: nat)
    requires i < |chunks|
  {
    && IsNamed(chunks[i].name, IHDR) && Gives(chunks[i], width, height)
    && forall j :: i < j < |chunks| ==> !IsNamed(chunks[j].name, IHDR)
  }

  ghost predicate NoHeader(chunks: seq<Chunk>) {
    forall c :: c in chunks ==> !IsNamed(c.name, IHDR)
  }

  ghost predicate HeadersSupported(chunks: seq<Chunk>) {
    forall c :: c in chunks && IsNamed(c.name, IHDR) ==> Supported(c)
  }

  lemma AcceptOne(c: Chunk, h: Header)
    ensures Accept(c, h).Ok? <==> (IsNamed(c.name, IHDR) ==> Supported(c))
    ensures Accept(c, h).Ok? ==>
      && Accept(c, h).value.compressed == h.compressed + (if IsNamed(c.name, IDAT) then [c.data] else [])
      && (if IsNamed(c.name, IHDR) then Gives(c, Accept(c, h).value.width, Accept(c, h).value.height)
          else Accept(c, h).value.width == h.width && Accept(c, h).value.height == h.height)
  {
    assert IHDR[1] != IDAT[1];
    assert IsNamed(c.name, IHDR) ==> c.name[1] % 128 == IHDR[1];
    assert IsNamed(c.name, IDAT) ==> c.name[1] % 128 == IDAT[1];
    hide FromBe32, IsNamed;
    assert h.compressed + [] == h.compressed;
    if |c.data| >= 8 {
      BigEndian(c.data[..4]);
      BigEndian(c.data[4..8]);
    }
  }

  lemma SizedByRest(c: Chunk, rest: seq<Chunk>, width: nat, height: nat)
    ensures Sized([c] + rest, width, height) <==>
      Sized(rest, width, height) || (NoHeader(rest) && IsNamed(c.name, IHDR) && Gives(c, width, height))
  {
    hide IsNamed, Gives;
    var chunks := [c] + rest;
    assert forall j :: 1 <= j < |chunks| ==> chunks[j] == rest[j - 1];
    assert forall j :: 0 <= j < |rest| ==> rest[j] == chunks[j + 1];
    if i :| 0 <= i < |rest| && SizedAt(rest, i, width, height) {
      assert SizedAt(chunks, i + 1, width, height);
    }
    if i :| 0 <= i < |chunks| && SizedAt(chunks, i, width, height) {
      if i > 0 {
        assert SizedAt(rest, i - 1, width, height);
      } else {
        assert NoHeader(rest);
      }
    }
    if NoHeader(rest) && IsNamed(c.name, IHDR) && Gives(c, width, height) {
      assert SizedAt(chunks, 0, width, height);
    }
  }

  /** The chunks are accepted exactly when their headers are supported; the last header counts. */
  lemma {:induction false} AcceptAllExactly(chunks: seq<Chunk>, h: Header)
    ensures AcceptAll(chunks, h).Ok? <==> HeadersSupported(chunks)
    ensures AcceptAll(chunks, h).Ok? ==>
      var r := AcceptAll(chunks, h).value;
      && r.compressed == h.compressed + IdatParts(chunks)
      && (if NoHeader(chunks) then r.width == h.width && r.height == h.height else Sized(chunks, r.width, r.height))
    decreases |chunks|
  {
    hide IsNamed, Accept, Supported, Gives, Sized;
    if chunks == [] {
      assert h.compressed + [] == h.compressed;
    } else {
      assert chunks == [chunks[0]] + chunks[1..];
      AcceptOne(chunks[0], h);
      var next := Accept(chunks[0], h);
      if next.Ok? {
        AcceptAllExactly(chunks[1..], next.value);
        var mine := if IsNamed(chunks[0].name, IDAT) then [chunks[0].data] else [];
        assert h.compressed + mine + IdatParts(chunks[1..]) == h.compressed + (mine + IdatParts(chunks[1..]));
        if AcceptAll(chunks, h).Ok? {
          var r := AcceptAll(chunks, h).value;
          SizedByRest(chunks[0], chunks[1..], r.width, r.height);
        }
      }
    }
  }

  lemma {:induction false} SizedOnce(chunks: seq<Chunk>, width: nat, height: nat, width': nat, height': nat)
    requires Sized(chunks, width, height) && Sized(chunks, width', height')
    ensures width == width' && height == height' && !NoHeader(chunks)
  {
    hide IsNamed;
    var i :| 0 <= i < |chunks| && SizedAt(chunks, i, width, height);
    var j :| 0 <= j < |chunks| && SizedAt(chunks, j, width', height');
    assert i == j && chunks[i] in chunks;
  }

  lemma InParts(s: seq<Byte>, a: nat, b: nat, c: nat)
    requires a <= b <= c <= |s|
    ensures s[a..c] == s[a..b] + s[b..c]
  {
  }

  /** A chunk that was read is there as it would be written. */
  lemma ReadIsSerialized(png: seq<Byte>, offset: nat)
    requires ReadChunk(png, offset).Ok?
    ensures var c := ReadChunk(png, offset).value;
            png[offset..offset + 12 + |c.data|] == Serialized(c)
  {
    hide Be32, FromBe32, Crc32.ChecksumValue;
    var c := ReadChunk(png, offset).value;
    var crcAt := offset + 8 + |c.data|;
    BigEndian(png[offset..offset + 4]);
    BigEndian(png[crcAt..crcAt + 4]);
    InParts(png, offset + 4, offset + 8, crcAt);
    InParts(png, offset, offset + 4, crcAt);
    InParts(png, offset, crcAt, crcAt + 4);
    var size, crc := png[offset..offset + 4], png[crcAt..crcAt + 4];
    assert size + (c.name + c.data) + crc == size + c.name + c.data + crc;
  }

  lemma {:induction false} ChunksRead(png: seq<Byte>, offset: nat, h: Header) returns (chunks: seq<Chunk>)
    requires offset <= |png| && ReadChunks(png, offset, h).Ok?
    ensures forall c :: c in chunks ==> c.Storable()
    ensures png[offset..] == SerializedAll(chunks) && AcceptAll(chunks, h) == ReadChunks(png, offset, h)
    decreases |png| - offset
  {
    hide ReadChunk, Accept, Serialized;
    if offset == |png| {
      chunks := [];
    } else {
      var c := ReadChunk(png, offset).value;
      var next := offset + 12 + |c.data|;
      var rest := ChunksRead(png, next, Accept(c, h).value);
      ReadIsSerialized(png, offset);
      chunks := [c] + rest;
      assert chunks[1..] == rest;
      assert png[offset..] == png[offset..next] + png[next..];
    }
  }

  /** The chunks hold the image: supported headers, the last of them with its sizes, and filtered rows in the IDAT chunks. */
  ghost predicate Carries(chunks: seq<Chunk>, image: RgbaImage, inflate: Inflate) {
    && HeadersSupported(chunks) && Sized(chunks, image.width, image.height) && IdatParts(chunks) != []
    && 0 < image.width && 0 < image.height && inflate(Concat(IdatParts(chunks))).Some?
    && HoldsRows(inflate(Concat(IdatParts(chunks))).value, image)
  }

  ghost predicate HoldsRows(scanlines: seq<Byte>, image: RgbaImage) {
    exists filters :: FilteredBy(filters, scanlines, image)
  }

  ghost predicate FilteredBy(filters: seq<Byte>, scanlines: seq<Byte>, image: RgbaImage) {
    var stride := image.width * Scanlines.CHANNELS;
    && |filters| == image.height && Scanlines.RowFilters(filters, image.data, stride)
    && scanlines == Scanlines.Filtered(filters, image.data, stride)
  }

  ghost predicate IsStreamOf(png: seq<Byte>, chunks: seq<Chunk>) {
    (forall c :: c in chunks ==> c.Storable()) && png == SIGNATURE + SerializedAll(chunks)
  }

  lemma RowsExactly(scanlines: seq<Byte>, image: RgbaImage)
    requires image.width > 0
    ensures var stride := image.width * Scanlines.CHANNELS;
            HoldsRows(scanlines, image) <==>
            && |scanlines| == Scanlines.Area(image.height, stride + 1)
            && Scanlines.Unfilter(scanlines, stride, image.height, Scanlines.Area(image.height, stride)) == Ok(image.data)
  {
    hide Scanlines.Area, Scanlines.Unfilter, Scanlines.Filtered;
    var stride := image.width * Scanlines.CHANNELS;
    if filters :| FilteredBy(filters, scanlines, image) {
      Scanlines.UnfilterFiltered(filters, image.data, stride, |image.data|);
      assert image.data[..|image.data|] == image.data;
    }
    if |scanlines| == Scanlines.Area(image.height, stride + 1)
       && Scanlines.Unfilter(scanlines, stride, image.height, Scanlines.Area(image.height, stride)) == Ok(image.data) {
      Scanlines.FilteredUnfilter(scanlines, stride, image.height);
      assert FilteredBy(Scanlines.FilterTypes(scanlines, stride, image.height), scanlines, image);
    }
  }

  lemma PixelsExactly(h: Header, inflate: Inflate, image: RgbaImage)
    ensures Pixels(h, inflate) == Ok(image) <==>
      && h.width == image.width > 0 && h.height == image.height > 0 && h.compressed != []
      && inflate(Concat(h.compressed)).Some? && HoldsRows(inflate(Concat(h.compressed)).value, image)
  {
    hide Scanlines.Area, Scanlines.Unfilter, HoldsRows, Concat;
    if h.width == image.width > 0 && h.height == image.height && inflate(Concat(h.compressed)).Some? {
      RowsExactly(inflate(Concat(h.compressed)).value, image);
    }
    if Pixels(h, inflate) == Ok(image) {
      RowsExactly(inflate(Concat(h.compressed)).value, image);
    }
  }

  lemma StreamDecodes(chunks: seq<Chunk>, png: seq<Byte>, inflate: Inflate, image: RgbaImage)
    requires IsStreamOf(png, chunks)
    ensures Decode(png, inflate) == Ok(image) <==> Carries(chunks, image, inflate)
  {
    hide ReadChunks, Pixels, SerializedAll, HoldsRows, HeadersSupported, Sized, NoHeader, Concat;
    ReadSerializedAll(SIGNATURE, chunks, NO_HEADER);
    AcceptAllExactly(chunks, NO_HEADER);
    if HeadersSupported(chunks) {
      var h := AcceptAll(chunks, NO_HEADER).value;
      assert [] + IdatParts(chunks) == IdatParts(chunks);
      PixelsExactly(h, inflate, image);
      if Sized(chunks, image.width, image.height) {
        SizedOnce(chunks, image.width, image.height, image.width, image.height);
        SizedOnce(chunks, image.width, image.height, h.width, h.height);
      }
    }
  }

  /** A file decodes to an image exactly when it is a stream of chunks that carries the image. */
  lemma DecodesExactly(png: seq<Byte>, inflate: Inflate, image: RgbaImage)
    ensures Decode(png, inflate) == Ok(image) <==>
      exists chunks :: IsStreamOf(png, chunks) && Carries(chunks, image, inflate)
  {
    hide ReadChunks, Pixels, SerializedAll, Carries;
    if Decode(png, inflate) == Ok(image) {
      var chunks := ChunksRead(png, 8, NO_HEADER);
      assert png == SIGNATURE + png[8..];
      StreamDecodes(chunks, png, inflate, image);
    }
    if chunks :| IsStreamOf(png, chunks) && Carries(chunks, image, inflate) {
      StreamDecodes(chunks, png, inflate, image);
    }
  }

  // ----- What the encoder writes -----

  /** The encoder refuses exactly what does not fit: the buffer its sizes, a size or the packed rows 32 bits. */
  lemma EncodesExactly(image: RgbaImage, deflate: Deflate)
    ensures Encode(image, deflate).Ok? <==>
      && |image.data| == image.height * (image.width * 4) && image.width < TWO_TO_THE_32 && image.height < TWO_TO_THE_32
      && |deflate(Unfiltered(image))| < TWO_TO_THE_32
  {
    hide Scanlines.Filtered, Serialized, HeaderData;
    assert Scanlines.Area(image.height, image.width * 4) == image.height * (image.width * 4);
  }

  lemma HeaderOf(width: nat, height: nat)
    requires width < TWO_TO_THE_32 && height < TWO_TO_THE_32
    ensures var c := Chunk(IHDR, HeaderData(width, height));
            IsNamed(c.name, IHDR) && Supported(c) && Gives(c, width, height)
  {
    hide Be32, FromBe32;
    var data := HeaderData(width, height);
    assert data[..4] == Be32(width) && data[4..8] == Be32(height);
    BigEndian(data[..4]);
    BigEndian(data[4..8]);
  }

  lemma EncodedCarries(header: Chunk, body: seq<Chunk>, width: nat, height: nat)
    requires IsNamed(header.name, IHDR) && Supported(header) && Gives(header, width, height) && NoHeader(body)
    ensures HeadersSupported([header] + body) && Sized([header] + body, width, height)
    ensures IdatParts([header] + body) == IdatParts(body)
  {
    assert IHDR[1] != IDAT[1];
    assert header.name[1] % 128 == IHDR[1];
    assert ([header] + body)[1..] == body && [] + IdatParts(body) == IdatParts(body);
    hide IsNamed, Gives, Supported;
    SizedByRest(header, body, width, height);
  }

  /** Decoding an encoded image gives it back; only an image without pixels is refused. */
  lemma DecodeEncoded(image: RgbaImage, deflate: Deflate, inflate: Inflate)
    requires Inverse(deflate, inflate)
    requires Encode(image, deflate).Ok?
    ensures Decode(Encode(image, deflate).value, inflate)
         == if image.width == 0 || image.height == 0 then Err(MissingData) else Ok(image)
  {
    hide ReadChunks, HeaderData, Concat, IdatParts, Serialized, SerializedAll, IsNamed, Sized, Supported, Gives;
    hide Scanlines.Area, Scanlines.Filtered, NoFilters, Scanlines.Unfilter, HeadersSupported, NoHeader;
    var compressed := deflate(Unfiltered(image));
    var body := [Chunk(SRGB, [0]), Chunk(IDAT, compressed), Chunk(IEND, [])];
    EncodedIsStream(image, deflate, body);
    var header := Chunk(IHDR, HeaderData(image.width, image.height));
    HeaderOf(image.width, image.height);
    EncodedCarries(header, body, image.width, image.height);
    IdatOfBody(compressed);
    var png := Encode(image, deflate).value;
    hide Encode;
    ReadSerializedAll(SIGNATURE, [header] + body, NO_HEADER);
    AcceptAllExactly([header] + body, NO_HEADER);
    var h := AcceptAll([header] + body, NO_HEADER).value;
    SizedOnce([header] + body, image.width, image.height, image.width, image.height);
    SizedOnce([header] + body, image.width, image.height, h.width, h.height);
    assert [] + [compressed] == [compressed];
    if image.width > 0 && image.height > 0 {
      assert FilteredBy(NoFilters(image.height), Unfiltered(image), image);
      PixelsExactly(h, inflate, image);
    }
  }

  lemma IdatOfBody(compressed: seq<Byte>)
    ensures IdatParts([Chunk(SRGB, [0]), Chunk(IDAT, compressed), Chunk(IEND, [])]) == [compressed]
    ensures Concat([compressed]) == compressed
  {
    assert SRGB[0] != IDAT[0] && IEND[1] != IDAT[1];
    MiddleIdat(Chunk(SRGB, [0]), Chunk(IDAT, compressed), Chunk(IEND, []));
    assert Concat([]) == [];
  }

  lemma MiddleIdat(c1: Chunk, c2: Chunk, c3: Chunk)
    requires !IsNamed(c1.name, IDAT) && IsNamed(c2.name, IDAT) && !IsNamed(c3.name, IDAT)
    ensures IdatParts([c1, c2, c3]) == [c2.data]
  {
    hide IsNamed;
    assert [c1, c2, c3][1..] == [c2, c3] && [c2, c3][1..] == [c3] && [c3][1..] == [];
    assert IdatParts([c3]) == [];
    assert IdatParts([c2, c3]) == [c2.data];
  }

  lemma EncodedIsStream(image: RgbaImage, deflate: Deflate, body: seq<Chunk>)
    requires Encode(image, deflate).Ok?
    requires body == [Chunk(SRGB, [0]), Chunk(IDAT, deflate(Unfiltered(image))), Chunk(IEND, [])]
    ensures image.width < TWO_TO_THE_32 && image.height < TWO_TO_THE_32 && NoHeader(body)
    ensures var chunks := [Chunk(IHDR, HeaderData(image.width, image.height))] + body;
      && (forall c :: c in chunks ==> c.Storable())
      && Encode(image, deflate).value == SIGNATURE + SerializedAll(chunks)
  {
    hide HeaderData, Serialized, SerializedAll, Scanlines.Area, Scanlines.Filtered, Unfiltered;
    var header := Chunk(IHDR, HeaderData(image.width, image.height));
    assert SRGB[0] != IHDR[0] && IDAT[1] != IHDR[1] && IEND[1] != IHDR[1];
    FourChunks(header, body[0], body[1], body[2]);
    assert [header] + body == [header, body[0], body[1], body[2]];
  }

  lemma FourChunks(c0: Chunk, c1: Chunk, c2: Chunk, c3: Chunk)
    requires c0.Storable() && c1.Storable() && c2.Storable() && c3.Storable()
    ensures SerializedAll([c0, c1, c2, c3]) == Serialized(c0) + Serialized(c1) + Serialized(c2) + Serialized(c3)
  {
    hide Serialized;
    assert [c0, c1, c2, c3][1..] == [c1, c2, c3] && [c1, c2, c3][1..] == [c2, c3] && [c2, c3][1..] == [c3];
    assert SerializedAll([c3]) == Serialized(c3);
    assert SerializedAll([c2, c3]) == Serialized(c2) + Serialized(c3);
    assert SerializedAll([c1, c2, c3]) == Serialized(c1) + (Serialized(c2) + Serialized(c3));
  }

  /** A chunk stands at `at`: its length, its name, its data, and their checksum. */
  ghost predicate Laid(file: seq<Byte>, at: nat, name: seq<Byte>, data: seq<Byte>) {
    && at + 12 + |data| <= |file| && |name| == 4
    && QuadAt(file, at) == |data|
    && file[at + 4..at + 8] == name && file[at + 8..at + 8 + |data|] == data
    && QuadAt(file, at + 8 + |data|) == Crc32.ChecksumValue(name + data)
  }

  function QuadAt(file: seq<Byte>, at: nat): int
    requires at + 4 <= |file|
  {
    Quad(file[at], file[at + 1], file[at + 2], file[at + 3])
  }

  lemma FieldsLaid(before: seq<Byte>, length: seq<Byte>, name: seq<Byte>, data: seq<Byte>, crc: seq<Byte>, after: seq<Byte>)
    requires |length| == |name| == |crc| == 4
    ensures var file := before + (length + name + data + crc) + after;
            var at := |before|;
            var crcAt := at + 8 + |data|;
            && crcAt + 4 <= |file| && file[at..at + 4] == length && file[at + 4..at + 8] == name
            && file[at + 8..crcAt] == data && file[crcAt..crcAt + 4] == crc
  {
  }

  lemma QuadIs(file: seq<Byte>, at: nat, n: nat)
    requires at + 4 <= |file| && n < TWO_TO_THE_32 && file[at..at + 4] == Be32(n)
    ensures QuadAt(file, at) == n
  {
    BigEndian(file[at..at + 4]);
    hide Be32, FromBe32;
    assert FromBe32(Be32(n)) == n;
  }

  lemma ChunkLaid(before: seq<Byte>, c: Chunk, after: seq<Byte>)
    requires c.Storable()
    ensures Laid(before + Serialized(c) + after, |before|, c.name, c.data)
  {
    hide Be32, FromBe32, Crc32.ChecksumValue, QuadAt;
    Crc32.ChecksumValueFaithful(c.name + c.data, []);
    var length, crc := Be32(|c.data|), Be32(Crc32.ChecksumValue(c.name + c.data));
    assert Serialized(c) == length + c.name + c.data + crc;
    hide Serialized;
    var file := before + Serialized(c) + after;
    FieldsLaid(before, length, c.name, c.data, crc, after);
    QuadIs(file, |before|, |c.data|);
    QuadIs(file, |before| + 8 + |c.data|, Crc32.ChecksumValue(c.name + c.data));
  }

  /** Sizes, then 8 bits a channel, colour type 6, and zeros. */
  ghost predicate IsHeaderData(data: seq<Byte>, width: nat, height: nat) {
    && |data| == 13 && QuadAt(data, 0) == width && QuadAt(data, 4) == height && data[8..] == [8, 6, 0, 0, 0]
  }

  lemma HeaderDataLaid(width: nat, height: nat)
    requires width < TWO_TO_THE_32 && height < TWO_TO_THE_32
    ensures IsHeaderData(HeaderData(width, height), width, height)
  {
    hide Be32, FromBe32;
    var data := HeaderData(width, height);
    assert data[..4] == Be32(width) && data[4..8] == Be32(height);
    BigEndian(data[..4]);
    BigEndian(data[4..8]);
  }

  /** The file: the signature and the chunks IHDR, sRGB, IDAT and IEND, byte by byte. */
  lemma EncodedLayout(image: RgbaImage, deflate: Deflate) returns (header: seq<Byte>)
    requires Encode(image, deflate).Ok?
    ensures var file, packed := Encode(image, deflate).value, deflate(Unfiltered(image));
            && |file| == 70 + |packed| && file[..8] == [137, 80, 78, 71, 13, 10, 26, 10]
            && IsHeaderData(header, image.width, image.height) && Laid(file, 8, [73, 72, 68, 82], header)
            && Laid(file, 33, [115, 82, 71, 66], [0]) && Laid(file, 46, [73, 68, 65, 84], packed)
            && file[58 + |packed|..] == [0, 0, 0, 0, 73, 69, 78, 68, 0xae, 0x42, 0x60, 0x82]
  {
    hide HeaderData, Serialized, Unfiltered, Scanlines.Area, Laid, IsHeaderData;
    header := HeaderData(image.width, image.height);
    HeaderDataLaid(image.width, image.height);
    var packed := deflate(Unfiltered(image));
    var c0, c1 := Chunk(IHDR, header), Chunk(SRGB, [0]);
    var c2, c3 := Chunk(IDAT, packed), Chunk(IEND, []);
    var s0, s1, s2, s3 := Serialized(c0), Serialized(c1), Serialized(c2), Serialized(c3);
    var file := Encode(image, deflate).value;
    assert file == SIGNATURE + s0 + s1 + s2 + s3;
    FourParts(SIGNATURE, s0, s1, s2, s3);
    ChunkLaid(SIGNATURE, c0, s1 + s2 + s3);
    ChunkLaid(SIGNATURE + s0, c1, s2 + s3);
    ChunkLaid(SIGNATURE + s0 + s1, c2, s3);
    EndChunk();
  }

  lemma FourParts(s: seq<Byte>, s0: seq<Byte>, s1: seq<Byte>, s2: seq<Byte>, s3: seq<Byte>)
    ensures var file := s + s0 + s1 + s2 + s3;
            && file == s + s0 + (s1 + s2 + s3) && file == s + s0 + s1 + (s2 + s3)
            && file[..|s|] == s && file[|s| + |s0| + |s1| + |s2|..] == s3
  {
  }

  lemma EndChunk()
    ensures Serialized(Chunk(IEND, [])) == [0, 0, 0, 0, 73, 69, 78, 68, 0xae, 0x42, 0x60, 0x82]
  {
    hide Crc32.ChecksumValue;
    CrcDivision.KnownChecksums();
    assert IEND + [] == IEND == [73, 69, 78, 68];
    assert Be32(0xae426082) == [0xae, 0x42, 0x60, 0x82] && Be32(0) == [0, 0, 0, 0];
  }

  /** The data of IDAT chunks, and of no others, is put together in the order of the chunks. */
  lemma IdatInOrder(c: Chunk, rest: seq<Chunk>)
    ensures Concat(IdatParts([])) == []
    ensures Concat(IdatParts([c] + rest)) == (if IsNamed(c.name, IDAT) then c.data else []) + Concat(IdatParts(rest))
  {
    assert ([c] + rest)[1..] == rest;
    hide IsNamed;
    ConcatOne(if IsNamed(c.name, IDAT) then [c.data] else [], IdatParts(rest));
  }

  lemma ConcatOne(first: seq<seq<Byte>>, rest: seq<seq<Byte>>)
    requires |first| <= 1
    ensures Concat(first + rest) == (if first == [] then [] else first[0]) + Concat(rest)
  {
    if first == [] {
      assert first + rest == rest;
    } else {
      assert (first + rest)[1..] == rest;
    }
  }

  // ----- Corrupted streams -----

  /** Reading chunk after chunk from `from` arrives at `offset`. */
  ghost predicate Arrives(png: seq<Byte>, from: nat, offset: nat)
    decreases |png| - from
  {
    from == offset
    || (from < |png| && ReadChunk(png, from).Ok?
        && Arrives(png, from + 12 + |ReadChunk(png, from).value.data|, offset))
  }

  /** `bad` differs from `png`, but only in four neighbouring bytes of the name and data of the chunk at `offset`. */
  ghost predicate CorruptsChunk(png: seq<Byte>, bad: seq<Byte>, offset: nat, at: nat) {
    && bad != png && |bad| == |png|
    && offset < |png| && ReadChunk(png, offset).Ok?
    && forall i :: 0 <= i < |png| && bad[i] != png[i] ==>
         offset + 4 <= i < offset + 8 + |ReadChunk(png, offset).value.data| && at <= i < at + 4
  }

  lemma CorruptChunkRejected(png: seq<Byte>, bad: seq<Byte>, offset: nat, at: nat)
    requires CorruptsChunk(png, bad, offset, at)
    ensures ReadChunk(bad, offset) == Err(InvalidCrc)
  {
    hide FromBe32, Crc32.ChecksumValue;
    assert bad[offset..offset + 4] == png[offset..offset + 4];
    var crcAt := offset + 8 + FromBe32(png[offset..offset + 4]);
    assert bad[crcAt..crcAt + 4] == png[crcAt..crcAt + 4];
    var good, wrong := png[offset + 4..crcAt], bad[offset + 4..crcAt];
    var i :| 0 <= i < |png| && bad[i] != png[i];
    assert offset + 4 <= i < crcAt;
    assert png[i] == good[i - (offset + 4)];
    assert bad[i] == wrong[i - (offset + 4)];
    Crc32.FourByteCorruptionDetected(good, wrong, if at >= offset + 4 then at - offset - 4 else 0);
    Crc32.ChecksumValueFaithful(good, wrong);
  }

  lemma SameChunk(png: seq<Byte>, bad: seq<Byte>, from: nat)
    requires |bad| == |png| && ReadChunk(png, from).Ok?
    requires forall i :: from <= i < from + 12 + |ReadChunk(png, from).value.data| ==> bad[i] == png[i]
    ensures ReadChunk(bad, from) == ReadChunk(png, from)
  {
    hide FromBe32, Crc32.ChecksumValue;
    var next := from + 12 + |ReadChunk(png, from).value.data|;
    assert bad[from..from + 4] == png[from..from + 4] && bad[next - 4..next] == png[next - 4..next];
    assert bad[from + 4..next - 4] == png[from + 4..next - 4];
    assert bad[from + 4..from + 8] == png[from + 4..from + 8] && bad[from + 8..next - 4] == png[from + 8..next - 4];
  }

  lemma {:induction false} CorruptionRejectedFrom(
      png: seq<Byte>, bad: seq<Byte>, from: nat, offset: nat, at: nat, h: Header)
    requires CorruptsChunk(png, bad, offset, at) && Arrives(png, from, offset)
    requires ReadChunks(png, from, h).Ok?
    ensures ReadChunks(bad, from, h) == Err(InvalidCrc)
    decreases |png| - from
  {
    hide Accept, ReadChunk;
    if from == offset {
      CorruptChunkRejected(png, bad, offset, at);
    } else {
      var next := from + 12 + |ReadChunk(png, from).value.data|;
      ArrivesLater(png, next, offset);
      SameChunk(png, bad, from);
      CorruptionRejectedFrom(png, bad, next, offset, at, Accept(ReadChunk(png, from).value, h).value);
    }
  }

  lemma {:induction false} ArrivesLater(png: seq<Byte>, from: nat, offset: nat)
    requires Arrives(png, from, offset)
    ensures from <= offset
    decreases |png| - from
  {
    hide ReadChunk;
    if from != offset {
      ArrivesLater(png, from + 12 + |ReadChunk(png, from).value.data|, offset);
    }
  }

  /** A decodable file in which up to four neighbouring bytes of one chunk's name and data go wrong is refused. */
  lemma CorruptionRejected(png: seq<Byte>, bad: seq<Byte>, offset: nat, at: nat, inflate: Inflate)
    requires Decode(png, inflate).Ok?
    requires Arrives(png, 8, offset) && CorruptsChunk(png, bad, offset, at)
    ensures Decode(bad, inflate) == Err(InvalidCrc)
  {
    hide ReadChunk, ReadChunks, Pixels;
    ArrivesLater(png, 8, offset);
    CorruptionRejectedFrom(png, bad, 8, offset, at, NO_HEADER);
    assert forall i :: 0 <= i < 8 ==> bad[i] == png[i];
  }
}
