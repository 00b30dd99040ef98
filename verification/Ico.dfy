/** The ICO container that packages PNG icon frames. */
module Ico {
  import opened Bytes

  datatype Frame = Frame(png: seq<Byte>, size: int)

  datatype IcoError = FrameSize | OutOfRange | NotAnIcon | NotSquare | OutsideContainer

  // ----- Encoding -----

  function HeaderSize(count: nat): nat {
    6 + count * 16
  }

  function Entry(frame: Frame, offset: nat): (bytes: seq<Byte>)
    requires 1 <= frame.size <= 256 && |frame.png| < TWO_TO_THE_32 && offset < TWO_TO_THE_32
    ensures |bytes| == 16
  {
    var side := if frame.size == 256 then 0 else frame.size;
    [side, side, 0, 0] + Le16(1) + Le16(32) + Le32(|frame.png|) + Le32(offset)
  }

  predicate Storable(frame: Frame, offset: nat) {
    1 <= frame.size <= 256 && |frame.png| < TWO_TO_THE_32 && offset < TWO_TO_THE_32
  }

  function CheckedEntry(frame: Frame, offset: nat): (r: Result<seq<Byte>, IcoError>)
    ensures r.Ok? ==> |r.value| == 16
  {
    if frame.size <= 0 || frame.size > 256 then Err(FrameSize)
    else if |frame.png| >= TWO_TO_THE_32 || offset >= TWO_TO_THE_32 then Err(OutOfRange)
    else Ok(Entry(frame, offset))
  }

  /** The directory of `frames`, the first of which is stored at `offset`. */
  function Directory(frames: seq<Frame>, offset: nat): (r: Result<seq<Byte>, IcoError>)
    ensures r.Ok? ==> |r.value| == 16 * |frames|
    decreases |frames|
  {
    if frames == [] then Ok([]) else
    var first := CheckedEntry(frames[0], offset);
    if first.Err? then first else
    Behind(first.value, Directory(frames[1..], offset + |frames[0].png|))
  }

  function Payload(frames: seq<Frame>): seq<Byte> {
    if frames == [] then [] else frames[0].png + Payload(frames[1..])
  }

  function Encode(frames: seq<Frame>): Result<seq<Byte>, IcoError> {
    if |frames| >= 0x1_0000 then Err(OutOfRange) else
    var directory := Directory(frames, HeaderSize(|frames|));
    if directory.Err? then directory
    else Ok([0, 0] + Le16(1) + Le16(|frames|) + directory.value + Payload(frames))
  }

  /** The callback run for each frame; bytes 2 and 3 of the entry stay as allocated. */
  method WriteEntry(header: array<Byte>, frame: Frame, entry: nat, offset: nat) returns (error: Option<IcoError>)
    requires entry + 16 <= header.Length && header[entry + 2] == header[entry + 3] == 0
    modifies header
    ensures error.Some? ==> CheckedEntry(frame, offset) == Err(error.value)
    ensures error.None? ==>
      CheckedEntry(frame, offset).Ok? && PlacedAt(old(header[..]), header[..], entry, CheckedEntry(frame, offset).value)
  {
    hide Le16, Le32, PlacedAt, Entry;
    ghost var before := header[..];
    if frame.size <= 0 || frame.size > 256 {
      return Some(FrameSize);
    }
    header[entry] := if frame.size == 256 then 0 else frame.size;
    header[entry + 1] := if frame.size == 256 then 0 else frame.size;
    SidesPlaced(before, header[..], entry, frame);
    ghost var h1 := header[..];
    Write16(1, header, entry + 4);
    ghost var h2 := header[..];
    Write16(32, header, entry + 6);
    ghost var h3 := header[..];
    if |frame.png| >= TWO_TO_THE_32 {
      return Some(OutOfRange);
    }
    Write32(|frame.png|, header, entry + 8);
    ghost var h4 := header[..];
    if offset >= TWO_TO_THE_32 {
      return Some(OutOfRange);
    }
    Write32(offset, header, entry + 12);
    EntryPlaced(before, h1, h2, h3, h4, header[..], entry, frame, offset);
    error := None;
  }

  /** The five writes of an entry, one behind the other. */
  lemma EntryPlaced(h0: seq<Byte>, h1: seq<Byte>, h2: seq<Byte>, h3: seq<Byte>, h4: seq<Byte>, h5: seq<Byte>,
      entry: nat, frame: Frame, offset: nat)
    requires Storable(frame, offset)
    requires PlacedAt(h0, h1, entry, Sides(frame)) && PlacedAt(h1, h2, entry + 4, Le16(1))
    requires PlacedAt(h2, h3, entry + 6, Le16(32)) && PlacedAt(h3, h4, entry + 8, Le32(|frame.png|))
    requires PlacedAt(h4, h5, entry + 12, Le32(offset))
    ensures PlacedAt(h0, h5, entry, Entry(frame, offset))
  {
    EntryIs(frame, offset);
    hide Le16, Le32, PlacedAt, Entry, Sides, Storable;
    var b2 := Sides(frame) + Le16(1);
    PlacedTwice(h0, h1, h2, entry, Sides(frame), Le16(1));
    PlacedTwice(h0, h2, h3, entry, b2, Le16(32));
    PlacedTwice(h0, h3, h4, entry, b2 + Le16(32), Le32(|frame.png|));
    PlacedTwice(h0, h4, h5, entry, b2 + Le16(32) + Le32(|frame.png|), Le32(offset));
  }

  function Sides(frame: Frame): (sides: seq<Byte>)
    requires 1 <= frame.size <= 256
    ensures |sides| == 4
  {
    var side: Byte := if frame.size == 256 then 0 else frame.size;
    [side, side, 0, 0]
  }

  lemma EntryIs(frame: Frame, offset: nat)
    requires Storable(frame, offset)
    ensures Entry(frame, offset) == Sides(frame) + Le16(1) + Le16(32) + Le32(|frame.png|) + Le32(offset)
  {
    hide Le16, Le32;
  }

  lemma SidesPlaced(before: seq<Byte>, now: seq<Byte>, entry: nat, frame: Frame)
    requires entry + 16 <= |before| && before[entry + 2] == before[entry + 3] == 0 && 1 <= frame.size <= 256
    requires now == before[entry := Sides(frame)[0]][entry + 1 := Sides(frame)[1]]
    ensures PlacedAt(before, now, entry, Sides(frame))
  {
    forall k | 0 <= k < |now| ensures now[k] == (before[..entry] + Sides(frame) + before[entry + 4..])[k] {
    }
  }

  function Behind(written: seq<Byte>, rest: Result<seq<Byte>, IcoError>): Result<seq<Byte>, IcoError> {
    if rest.Err? then rest else Ok(written + rest.value)
  }

  lemma BehindEntry(written: seq<Byte>, first: Result<seq<Byte>, IcoError>, rest: Result<seq<Byte>, IcoError>)
    ensures first.Ok? ==> Behind(written, Behind(first.value, rest)) == Behind(written + first.value, rest)
    ensures Behind([], rest) == rest
    ensures rest.Err? ==> Behind(written, rest) == rest
  {
    if first.Ok? && rest.Ok? {
      assert written + (first.value + rest.value) == written + first.value + rest.value;
    }
    if rest.Ok? {
      assert [] + rest.value == rest.value;
    }
  }

  lemma DirectoryUnfolds(frames: seq<Frame>, i: nat, offset: nat, written: seq<Byte>)
    ensures i < |frames| ==>
      var first := CheckedEntry(frames[i], offset);
      && (first.Err? ==> Directory(frames[i..], offset) == first)
      && (first.Ok? ==>
           Behind(written, Directory(frames[i..], offset))
           == Behind(written + first.value, Directory(frames[i + 1..], offset + |frames[i].png|)))
    ensures i == |frames| ==> Behind(written, Directory(frames[i..], offset)) == Ok(written)
  {
    hide CheckedEntry;
    if i < |frames| {
      assert frames[i..][1..] == frames[i + 1..];
      BehindEntry(written, CheckedEntry(frames[i], offset), Directory(frames[i + 1..], offset + |frames[i].png|));
    } else if i == |frames| {
      assert frames[i..] == [] && written + [] == written;
    }
  }

  /** The header so far: `done`, then zeros. */
  ghost predicate FilledTo(header: seq<Byte>, done: seq<Byte>) {
    |done| <= |header| && header[..|done|] == done && header[|done|..] == Zeros(|header| - |done|)
  }

  lemma EntryFilled(before: seq<Byte>, done: seq<Byte>, entry: seq<Byte>, now: seq<Byte>)
    requires FilledTo(before, done) && |entry| == 16 && |done| + 16 <= |before|
    requires PlacedAt(before, now, |done|, entry)
    ensures FilledTo(now, done + entry)
  {
    assert before[|done| + 16..] == before[|done|..][16..];
    assert now[|done + entry|..] == before[|done| + 16..];
  }

  /** The loop over the frames: all of the header behind its first six bytes. */
  method WriteDirectory(header: array<Byte>, frames: seq<Frame>) returns (error: Option<IcoError>)
    requires header.Length == HeaderSize(|frames|) && header[6..] == Zeros(16 * |frames|)
    modifies header
    ensures error.Some? ==> Directory(frames, HeaderSize(|frames|)) == Err(error.value)
    ensures error.None? ==>
      && Directory(frames, HeaderSize(|frames|)).Ok?
      && header[..] == old(header[..6]) + Directory(frames, HeaderSize(|frames|)).value
  {
    hide Le16, Le32, CheckedEntry, Directory, Behind, PlacedAt;
    var offset: nat := HeaderSize(|frames|);
    ghost var fixed := header[..6];
    ghost var whole, done := Behind(fixed, Directory(frames, offset)), fixed;
    assert frames[0..] == frames;
    assert FilledTo(header[..], done);
    hide FilledTo;
    for index := 0 to |frames|
      invariant |done| == 6 + 16 * index && FilledTo(header[..], done)
      invariant whole == Behind(done, Directory(frames[index..], offset))
    {
      ghost var checked, before := CheckedEntry(frames[index], offset), header[..];
      DirectoryUnfolds(frames, index, offset, done);
      BehindEntry(done, checked, checked);
      error := WriteEntry(header, frames[index], 6 + index * 16, offset);
      if error.Some? {
        BehindOnly(fixed, Directory(frames, HeaderSize(|frames|)));
        return;
      }
      EntryFilled(before, done, checked.value, header[..]);
      done := done + checked.value;
      offset := offset + |frames[index].png|;
    }
    DirectoryUnfolds(frames, |frames|, offset, done);
    BehindOnly(fixed, Directory(frames, HeaderSize(|frames|)));
    error := None;
  }

  lemma BehindOnly(fixed: seq<Byte>, rest: Result<seq<Byte>, IcoError>)
    ensures Behind(fixed, rest).Err? ==> rest == Behind(fixed, rest)
    ensures Behind(fixed, rest).Ok? ==> rest.Ok? && Behind(fixed, rest).value == fixed + rest.value
  {
  }

  method EncodeIco(frames: seq<Frame>) returns (r: Result<seq<Byte>, IcoError>)
    ensures r == Encode(frames)
  {
    hide Le16, Payload, Directory, PlacedAt;
    var header := new Byte[HeaderSize(|frames|)](_ => 0);
    ghost var zeros := header[..];
    Write16(1, header, 2);
    if |frames| >= 0x1_0000 {
      return Err(OutOfRange);
    }
    ghost var once := header[..];
    Write16(|frames|, header, 4);
    PlacedTwice(zeros, once, header[..], 2, Le16(1), Le16(|frames|));
    HeaderStart(zeros, header[..], Le16(1) + Le16(|frames|), 16 * |frames|);
    assert header[..][..6] == header[..6] && header[..][6..] == header[6..];
    assert [0, 0] + Le16(1) + Le16(|frames|) == [0, 0] + (Le16(1) + Le16(|frames|));
    var error := WriteDirectory(header, frames);
    if error.Some? {
      return Err(error.value);
    }
    r := Ok(header[..] + Payload(frames));
  }

  lemma HeaderStart(zeros: seq<Byte>, now: seq<Byte>, bytes: seq<Byte>, n: nat)
    requires |zeros| == 6 + n && (forall k :: 0 <= k < |zeros| ==> zeros[k] == 0) && |bytes| == 4
    requires PlacedAt(zeros, now, 2, bytes)
    ensures now[..6] == [0, 0] + bytes && now[6..] == Zeros(n)
  {
  }

  // ----- Decoding -----

  function Side(b: Byte): int {
    if b == 0 then 256 else b
  }

  function DecodeFrame(ico: seq<Byte>, count: nat, index: nat): Result<Frame, IcoError> {
    var entry := 6 + index * 16;
    if entry >= |ico| then Err(OutOfRange) else
    var size := Side(ico[entry]);
    if entry + 1 >= |ico| then Err(OutOfRange)
    else if Side(ico[entry + 1]) != size then Err(NotSquare)
    else if entry + 16 > |ico| then Err(OutOfRange)
    else
      var length, offset := FromLe32(ico[entry + 8..entry + 12]), FromLe32(ico[entry + 12..entry + 16]);
      if offset < 6 + count * 16 || offset + length > |ico| then Err(OutsideContainer)
      else Ok(Frame(ico[offset..offset + length], size))
  }

  function DecodeFrames(ico: seq<Byte>, count: nat, index: nat): Result<seq<Frame>, IcoError>
    requires index <= count
    decreases count - index
  {
    if index == count then Ok([]) else
    var frame := DecodeFrame(ico, count, index);
    if frame.Err? then Err(frame.error) else
    var rest := DecodeFrames(ico, count, index + 1);
    if rest.Err? then rest else Ok([frame.value] + rest.value)
  }

  function Decode(ico: seq<Byte>): Result<seq<Frame>, IcoError> {
    if |ico| < 2 then Err(OutOfRange)
    else if FromLe16(ico[..2]) != 0 then Err(NotAnIcon)
    else if |ico| < 4 then Err(OutOfRange)
    else if FromLe16(ico[2..4]) != 1 then Err(NotAnIcon)
    else if |ico| < 6 then Err(OutOfRange)
    else DecodeFrames(ico, FromLe16(ico[4..6]), 0)
  }

  // ----- Layout -----

  /** Where frame `i` starts when the first one starts at `offset`. */
  function Start(frames: seq<Frame>, offset: nat, i: nat): nat
    requires i <= |frames|
  {
    if i == 0 then offset else Start(frames[1..], offset + |frames[0].png|, i - 1)
  }

  lemma {:induction false} StartsAreContiguous(frames: seq<Frame>, offset: nat, i: nat)
    requires i < |frames|
    ensures Start(frames, offset, i + 1) == Start(frames, offset, i) + |frames[i].png|
    ensures Start(frames, offset, i) >= offset
  {
    if i != 0 {
      StartsAreContiguous(frames[1..], offset + |frames[0].png|, i - 1);
    }
  }

  lemma {:induction false} PayloadAt(before: seq<Byte>, frames: seq<Frame>, i: nat)
    requires i < |frames|
    ensures var start := Start(frames, |before|, i);
      && start + |frames[i].png| <= |before + Payload(frames)|
      && (before + Payload(frames))[start..start + |frames[i].png|] == frames[i].png
    decreases i
  {
    assert before + Payload(frames) == before + frames[0].png + Payload(frames[1..]);
    if i != 0 {
      PayloadAt(before + frames[0].png, frames[1..], i - 1);
    }
  }

  lemma {:induction false} PayloadEnds(frames: seq<Frame>, offset: nat)
    ensures Start(frames, offset, |frames|) == offset + |Payload(frames)|
  {
    if frames != [] {
      PayloadEnds(frames[1..], offset + |frames[0].png|);
    }
  }

  lemma {:induction false} DirectoryAt(frames: seq<Frame>, offset: nat, i: nat)
    requires Directory(frames, offset).Ok? && i < |frames|
    ensures 1 <= frames[i].size <= 256 && |frames[i].png| < TWO_TO_THE_32
    ensures Start(frames, offset, i) < TWO_TO_THE_32
    ensures Directory(frames, offset).value[16 * i..16 * i + 16] == Entry(frames[i], Start(frames, offset, i))
  {
    hide Entry;
    if i != 0 {
      var rest := Directory(frames[1..], offset + |frames[0].png|).value;
      DirectoryAt(frames[1..], offset + |frames[0].png|, i - 1);
      assert Directory(frames, offset).value[16 * i..16 * i + 16] == rest[16 * (i - 1)..16 * (i - 1) + 16];
    }
  }

  /** Frames lie one after the other from the end of the directory to the end of the container. */
  lemma EncodedLayout(frames: seq<Frame>, i: nat)
    requires Encode(frames).Ok? && i < |frames|
    ensures var ico := Encode(frames).value;
            var start := Start(frames, HeaderSize(|frames|), i);
      && HeaderSize(|frames|) <= start
      && Start(frames, HeaderSize(|frames|), 0) == HeaderSize(|frames|)
      && Start(frames, HeaderSize(|frames|), i + 1) == start + |frames[i].png| <= |ico|
      && Start(frames, HeaderSize(|frames|), |frames|) == |ico|
      && ico[start..start + |frames[i].png|] == frames[i].png
  {
    hide Directory, Payload, Le16;
    var header := [0, 0] + Le16(1) + Le16(|frames|) + Directory(frames, HeaderSize(|frames|)).value;
    StartsAreContiguous(frames, |header|, i);
    PayloadAt(header, frames, i);
    PayloadEnds(frames, |header|);
  }

  /** Where a field of an entry stands in the container. */
  lemma FieldInside(ico: seq<Byte>, directory: seq<Byte>, i: nat, entry: seq<Byte>, at: nat, field: seq<Byte>)
    requires 6 + |directory| <= |ico| && ico[6..6 + |directory|] == directory
    requires 16 * i + 16 <= |directory| && directory[16 * i..16 * i + 16] == entry
    requires at + |field| <= 16 && entry[at..at + |field|] == field
    ensures 6 + i * 16 + at + |field| <= |ico|
    ensures ico[6 + i * 16 + at..6 + i * 16 + at + |field|] == field
  {
    forall k | 0 <= k < |field| ensures ico[6 + i * 16 + at + k] == field[k] {
      assert ico[6 + i * 16 + at + k] == ico[6..6 + |directory|][16 * i + at + k];
      assert directory[16 * i + at + k] == directory[16 * i..16 * i + 16][at + k];
      assert entry[at + k] == entry[at..at + |field|][k];
    }
  }

  lemma EntryFields(frame: Frame, offset: nat)
    requires 1 <= frame.size <= 256 && |frame.png| < TWO_TO_THE_32 && offset < TWO_TO_THE_32
    ensures var side: Byte := if frame.size == 256 then 0 else frame.size;
            var entry := Entry(frame, offset);
            && |entry| == 16 && entry[0..2] == [side, side]
            && entry[8..12] == Le32(|frame.png|) && entry[12..16] == Le32(offset)
  {
    hide Le16, Le32;
  }

  /** The four fields of an entry that are read back, as they stand in the container. */
  ghost predicate HasFields(ico: seq<Byte>, entry: nat, frame: Frame, offset: nat)
    requires entry + 16 <= |ico| && |frame.png| < TWO_TO_THE_32 && offset < TWO_TO_THE_32
  {
    && ico[entry..entry + 2] == [if frame.size == 256 then 0 else frame.size, if frame.size == 256 then 0 else frame.size]
    && ico[entry + 8..entry + 12] == Le32(|frame.png|) && ico[entry + 12..entry + 16] == Le32(offset)
  }

  lemma EntryHasFields(frames: seq<Frame>, i: nat)
    requires Encode(frames).Ok? && i < |frames|
    ensures 6 + i * 16 + 16 <= 6 + 16 * |frames| <= |Encode(frames).value|
    ensures Storable(frames[i], Start(frames, HeaderSize(|frames|), i))
    ensures HasFields(Encode(frames).value, 6 + i * 16, frames[i], Start(frames, HeaderSize(|frames|), i))
  {
    var ico, start := Encode(frames).value, Start(frames, HeaderSize(|frames|), i);
    var directory := Directory(frames, HeaderSize(|frames|)).value;
    DirectoryAt(frames, HeaderSize(|frames|), i);
    EntryFields(frames[i], start);
    hide Directory, Le32, Start, Entry, Encode;
    var side: Byte := if frames[i].size == 256 then 0 else frames[i].size;
    FieldsInside(ico, directory, i, Entry(frames[i], start), [side, side], Le32(|frames[i].png|), Le32(start));
  }

  lemma FieldsInside(
      ico: seq<Byte>, directory: seq<Byte>, i: nat, entry: seq<Byte>, sides: seq<Byte>, length: seq<Byte>, offset: seq<Byte>)
    requires 6 + |directory| <= |ico| && ico[6..6 + |directory|] == directory
    requires |entry| == 16 && 16 * i + 16 <= |directory| && directory[16 * i..16 * i + 16] == entry
    requires |sides| == 2 && |length| == |offset| == 4
    requires entry[0..2] == sides && entry[8..12] == length && entry[12..16] == offset
    ensures 6 + i * 16 + 16 <= |ico|
    ensures ico[6 + i * 16..6 + i * 16 + 2] == sides
    ensures ico[6 + i * 16 + 8..6 + i * 16 + 12] == length && ico[6 + i * 16 + 12..6 + i * 16 + 16] == offset
  {
    FieldInside(ico, directory, i, entry, 0, sides);
    FieldInside(ico, directory, i, entry, 8, length);
    FieldInside(ico, directory, i, entry, 12, offset);
  }

  lemma DecodedFrom(ico: seq<Byte>, count: nat, i: nat, frame: Frame, offset: nat)
    requires 6 + i * 16 + 16 <= |ico| && Storable(frame, offset) && HasFields(ico, 6 + i * 16, frame, offset)
    requires 6 + count * 16 <= offset && offset + |frame.png| <= |ico| && ico[offset..offset + |frame.png|] == frame.png
    ensures DecodeFrame(ico, count, i) == Ok(frame)
  {
    hide Le32, FromLe32;
    var entry := 6 + i * 16;
    assert ico[entry] == ico[entry..entry + 2][0] && ico[entry + 1] == ico[entry..entry + 2][1];
  }

  lemma EncodedEntry(frames: seq<Frame>, i: nat)
    requires Encode(frames).Ok? && i < |frames|
    ensures DecodeFrame(Encode(frames).value, |frames|, i) == Ok(frames[i])
  {
    hide Encode, DecodeFrame, Storable, HasFields, Start;
    EncodedLayout(frames, i);
    EntryHasFields(frames, i);
    DecodedFrom(Encode(frames).value, |frames|, i, frames[i], Start(frames, HeaderSize(|frames|), i));
  }

  lemma {:induction false} DecodeFramesEncoded(frames: seq<Frame>, index: nat)
    requires Encode(frames).Ok? && index <= |frames|
    ensures DecodeFrames(Encode(frames).value, |frames|, index) == Ok(frames[index..])
    decreases |frames| - index
  {
    hide Encode, DecodeFrame;
    if index == |frames| {
      assert frames[index..] == [];
    } else {
      EncodedEntry(frames, index);
      DecodeFramesEncoded(frames, index + 1);
      assert frames[index..] == [frames[index]] + frames[index + 1..];
    }
  }

  /** Decoding what was encoded gives the frames back. */
  lemma DecodeEncoded(frames: seq<Frame>)
    requires Encode(frames).Ok?
    ensures Decode(Encode(frames).value) == Ok(frames)
  {
    hide Directory, Payload, DecodeFrames;
    var ico := Encode(frames).value;
    DecodeFramesEncoded(frames, 0);
    assert ico[..2] == [0, 0] && ico[2..4] == Le16(1) && ico[4..6] == Le16(|frames|);
  }

  ghost predicate AllStorable(frames: seq<Frame>, offset: nat) {
    forall i :: 0 <= i < |frames| ==> Storable(frames[i], Start(frames, offset, i))
  }

  lemma FirstAndRest(frames: seq<Frame>, offset: nat)
    requires frames != []
    ensures AllStorable(frames, offset) <==>
      Storable(frames[0], offset) && AllStorable(frames[1..], offset + |frames[0].png|)
  {
    hide Storable;
    var rest, next := frames[1..], offset + |frames[0].png|;
    forall i | 0 <= i < |rest| ensures rest[i] == frames[i + 1] && Start(rest, next, i) == Start(frames, offset, i + 1) {
    }
    assert Start(frames, offset, 0) == offset;
    if Storable(frames[0], offset) && AllStorable(rest, next) {
      forall i | 0 <= i < |frames| ensures Storable(frames[i], Start(frames, offset, i)) {
        assert i > 0 ==> Storable(rest[i - 1], Start(rest, next, i - 1));
      }
    }
    if AllStorable(frames, offset) {
      assert Storable(frames[0], Start(frames, offset, 0));
      forall i | 0 <= i < |rest| ensures Storable(rest[i], Start(rest, next, i)) {
        assert Storable(frames[i + 1], Start(frames, offset, i + 1));
      }
    }
  }

  /** Exactly which frame lists the container can hold. */
  lemma {:induction false} DirectoryFits(frames: seq<Frame>, offset: nat)
    ensures Directory(frames, offset).Ok? <==> AllStorable(frames, offset)
    decreases |frames|
  {
    if frames == [] {
    } else {
      hide AllStorable, Entry;
      FirstAndRest(frames, offset);
      DirectoryFits(frames[1..], offset + |frames[0].png|);
    }
  }

  // ----- The format -----

  function WordAt(ico: seq<Byte>, at: nat): int
    requires at + 4 <= |ico|
  {
    Quad(ico[at + 3], ico[at + 2], ico[at + 1], ico[at])
  }

  function ShortAt(ico: seq<Byte>, at: nat): int
    requires at + 2 <= |ico|
  {
    var high: int, low: int := ico[at + 1], ico[at];
    0x100 * high + low
  }

  /** Exactly which frame lists are packaged, the first frame standing behind 16 bytes for each and 6 more. */
  lemma EncodesExactly(frames: seq<Frame>)
    ensures Encode(frames).Ok? <==>
      && |frames| < 0x1_0000
      && forall i :: 0 <= i < |frames| ==>
           1 <= frames[i].size <= 256 && |frames[i].png| < TWO_TO_THE_32 && Start(frames, 6 + 16 * |frames|, i) < TWO_TO_THE_32
  {
    hide Directory, Payload, Le16;
    DirectoryFits(frames, 6 + 16 * |frames|);
  }

  lemma EntryBytes(frame: Frame, offset: nat)
    requires 1 <= frame.size <= 256 && |frame.png| < TWO_TO_THE_32 && offset < TWO_TO_THE_32
    ensures var side: Byte := if frame.size == 256 then 0 else frame.size;
            Entry(frame, offset)[..8] == [side, side, 0, 0, 1, 0, 32, 0]
  {
    assert Le16(1) == [1, 0] && Le16(32) == [32, 0];
    hide Le16, Le32;
  }

  /** The directory entry of a frame, byte by byte: one colour plane and 32 bits a pixel. */
  ghost predicate Describes(ico: seq<Byte>, entry: nat, frame: Frame, start: nat) {
    && entry + 16 <= |ico| && 1 <= frame.size <= 256
    && ico[entry..entry + 8] == [frame.size % 256, frame.size % 256, 0, 0, 1, 0, 32, 0]
    && WordAt(ico, entry + 8) == |frame.png| && WordAt(ico, entry + 12) == start
  }

  lemma EncodedFields(frames: seq<Frame>)
    requires Encode(frames).Ok?
    ensures var ico := Encode(frames).value;
            && |ico| >= 6 && ico[..4] == [0, 0, 1, 0] && ShortAt(ico, 4) == |frames|
            && forall i :: 0 <= i < |frames| ==> Describes(ico, 6 + 16 * i, frames[i], Start(frames, 6 + 16 * |frames|, i))
  {
    HeaderBytes(frames);
    forall i | 0 <= i < |frames|
      ensures Describes(Encode(frames).value, 6 + 16 * i, frames[i], Start(frames, 6 + 16 * |frames|, i))
    {
      EntryDescribes(frames, i);
    }
  }

  lemma HeaderBytes(frames: seq<Frame>)
    requires Encode(frames).Ok?
    ensures var ico := Encode(frames).value;
            |ico| >= 6 && ico[..4] == [0, 0, 1, 0] && ShortAt(ico, 4) == |frames|
  {
    hide Directory, Payload;
    assert Le16(1) == [1, 0];
  }

  lemma WordIs(ico: seq<Byte>, at: nat, n: nat)
    requires at + 4 <= |ico| && n < TWO_TO_THE_32 && ico[at..at + 4] == Le32(n)
    ensures WordAt(ico, at) == n
  {
    LittleEndian(ico[at..at + 4]);
    hide Le32, FromLe32;
    assert FromLe32(Le32(n)) == n;
  }

  lemma EntryDescribes(frames: seq<Frame>, i: nat)
    requires Encode(frames).Ok? && i < |frames|
    ensures Describes(Encode(frames).value, 6 + 16 * i, frames[i], Start(frames, 6 + 16 * |frames|, i))
  {
    hide Encode, Start, Le32, WordAt;
    var ico, frame, start := Encode(frames).value, frames[i], Start(frames, HeaderSize(|frames|), i);
    EntryHasFields(frames, i);
    WordIs(ico, 6 + i * 16 + 8, |frame.png|);
    WordIs(ico, 6 + i * 16 + 12, start);
    EntryStart(frames, i);
  }

  lemma DirectoryInside(frames: seq<Frame>)
    requires Encode(frames).Ok?
    ensures var directory := Directory(frames, HeaderSize(|frames|));
            && directory.Ok? && |directory.value| == 16 * |frames|
            && 6 + |directory.value| <= |Encode(frames).value|
            && Encode(frames).value[6..6 + |directory.value|] == directory.value
  {
    hide Directory, Payload, Le16;
  }

  lemma EntryStart(frames: seq<Frame>, i: nat)
    requires Encode(frames).Ok? && i < |frames|
    ensures 6 + 16 * i + 16 <= |Encode(frames).value| && 1 <= frames[i].size <= 256
    ensures Encode(frames).value[6 + 16 * i..6 + 16 * i + 8] == [frames[i].size % 256, frames[i].size % 256, 0, 0, 1, 0, 32, 0]
  {
    hide Directory, Start, Entry, Encode;
    var start := Start(frames, HeaderSize(|frames|), i);
    DirectoryInside(frames);
    DirectoryAt(frames, HeaderSize(|frames|), i);
    var directory := Directory(frames, HeaderSize(|frames|)).value;
    EntryBytes(frames[i], start);
    FieldInside(Encode(frames).value, directory, i, Entry(frames[i], start), 0, Entry(frames[i], start)[..8]);
  }

  /** An entry that is read: a square frame inside the container, behind the directory. */
  ghost predicate Reads(ico: seq<Byte>, count: nat, i: nat, frame: Frame) {
    var entry := 6 + 16 * i;
    && entry + 16 <= |ico| && ico[entry] == ico[entry + 1] == frame.size % 256 && 1 <= frame.size <= 256
    && 6 + 16 * count <= WordAt(ico, entry + 12) && WordAt(ico, entry + 12) + |frame.png| <= |ico|
    && WordAt(ico, entry + 8) == |frame.png|
    && frame.png == ico[WordAt(ico, entry + 12)..WordAt(ico, entry + 12) + |frame.png|]
  }

  lemma SideIs(b: Byte, size: int)
    ensures Side(b) == size <==> b == size % 256 && 1 <= size <= 256
  {
  }

  lemma ReadsExactly(ico: seq<Byte>, count: nat, i: nat, frame: Frame)
    ensures DecodeFrame(ico, count, i) == Ok(frame) <==> Reads(ico, count, i, frame)
  {
    if 6 + i * 16 + 16 <= |ico| {
      hide DecodeFrame, WordAt, Side;
      DecodeFrameIs(ico, count, i);
      SideIs(ico[6 + i * 16], frame.size);
      SideIs(ico[6 + i * 16 + 1], frame.size);
    }
  }

  lemma WordRead(ico: seq<Byte>, at: nat)
    requires at + 4 <= |ico|
    ensures FromLe32(ico[at..at + 4]) == WordAt(ico, at) >= 0
  {
    LittleEndian(ico[at..at + 4]);
    hide FromLe32;
  }

  /** A whole entry, by its words. */
  lemma DecodeFrameIs(ico: seq<Byte>, count: nat, i: nat)
    requires 6 + i * 16 + 16 <= |ico|
    ensures var entry := 6 + i * 16;
            var length, offset := WordAt(ico, entry + 8), WordAt(ico, entry + 12);
            0 <= length && 0 <= offset &&
            DecodeFrame(ico, count, i) ==
            if Side(ico[entry + 1]) != Side(ico[entry]) then Err(NotSquare)
            else if offset < 6 + count * 16 || offset + length > |ico| then Err(OutsideContainer)
            else Ok(Frame(ico[offset..offset + length], Side(ico[entry])))
  {
    hide FromLe32, WordAt, Side;
    WordRead(ico, 6 + i * 16 + 8);
    WordRead(ico, 6 + i * 16 + 12);
  }

  lemma {:induction false} DecodesFrom(ico: seq<Byte>, count: nat, index: nat, frames: seq<Frame>)
    requires index <= count
    ensures DecodeFrames(ico, count, index) == Ok(frames) <==>
      |frames| == count - index && forall i :: 0 <= i < |frames| ==> Reads(ico, count, index + i, frames[i])
    decreases count - index
  {
    hide DecodeFrame, Reads;
    if index < count && frames != [] {
      ReadsExactly(ico, count, index, frames[0]);
      DecodesFrom(ico, count, index + 1, frames[1..]);
      assert frames == [frames[0]] + frames[1..];
      assert forall i :: 1 <= i < |frames| ==> frames[i] == frames[1..][i - 1];
      assert forall i :: 0 <= i < |frames| - 1 ==> frames[1..][i] == frames[i + 1];
    }
  }

  /** A container is read exactly when its header and every entry are in order, and then as these frames. */
  lemma DecodesExactly(ico: seq<Byte>, frames: seq<Frame>)
    ensures Decode(ico) == Ok(frames) <==>
      && |ico| >= 6 && ico[..4] == [0, 0, 1, 0] && |frames| == ShortAt(ico, 4)
      && forall i :: 0 <= i < |frames| ==> Reads(ico, |frames|, i, frames[i])
  {
    hide DecodeFrames, Reads;
    if |ico| >= 6 {
      assert ico[..2] == [ico[0], ico[1]] && ico[2..4] == [ico[2], ico[3]] && ico[4..6] == [ico[4], ico[5]];
      DecodesFrom(ico, FromLe16(ico[4..6]), 0, frames);
    }
  }
}
