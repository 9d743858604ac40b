/** Reading the metadata of a JPEG image from its header, without decoding
    any pixels: SOI, then an APP0 (JFIF) or APP1 (EXIF) segment whose marker
    selects the container, then for JFIF the frame header (section B.2.2 of
    ITU-T T.81) and for EXIF the identifier check that precedes the
    unfinished EXIF reader. */
module Jpeg {
  import opened Types
  import opened ByteStream
  import opened Markers
  import opened Scanner

  /** Image size. A height of 0 means the height is given later by a DNL
      segment, which is not read; it is passed through as 0. */
  datatype Dimensions = Dimensions(width: u16, height: u16)

  datatype Metadata = Metadata(
    dimensions: Dimensions,
    samplePrecision: byte,
    codingProcess: CodingProcess,
    entropyCoding: EntropyCoding,
    baseline: bool,
    differential: bool)

  /** Result of loading: the metadata and the cursor after the frame
      header, a failure, or the point where the EXIF reader stops
      (`unimplemented!()` in the reader) after a valid identifier. */
  datatype Outcome =
    | Loaded(metadata: Metadata, next: nat)
    | Failed(error: Error)
    | ExifUnimplemented(next: nat)

  /** The APPn marker that follows SOI and its segment length. */
  datatype AppHeader = AppHeader(marker: byte, length: u16)

  /** "Exif" followed by two NUL bytes. */
  const EXIF_IDENTIFIER: seq<byte> := [0x45, 0x78, 0x69, 0x66, 0x00, 0x00]

  /** `id` spells the ASCII characters "Exif" and then two zero bytes. */
  predicate SpellsExif(id: seq<byte>)
  {
    && |id| == 6
    && (forall i | 0 <= i < 4 :: id[i] as int == "Exif"[i] as int)
    && id[4] == 0 && id[5] == 0
  }

  /** The frame classification recorded in `md` is one some SOF code produces. */
  predicate Consistent(md: Metadata)
  {
    ConsistentClassification(md.codingProcess, md.entropyCoding, md.baseline, md.differential)
  }

  /** The nine bytes before `q` are a frame header that `md` describes:
      0xFF and a SOF code, a length above 8, then precision P, height Y and
      width X, the two dimensions big-endian; the code is the one whose
      classification `md` records. */
  predicate FrameHeaderBefore(s: seq<byte>, q: nat, md: Metadata)
  {
    && 9 <= q <= |s|
    && s[q - 9] == 0xFF
    && IsSofMarker(s[q - 8])
    && BigEndian(s[q - 7], s[q - 6]) > 8
    && md.samplePrecision == s[q - 5]
    && BigEndianBytes(md.dimensions.height) == s[q - 4..q - 2]
    && BigEndianBytes(md.dimensions.width) == s[q - 2..q]
    && Consistent(md)
    && SofCodeFor(md.codingProcess, md.entropyCoding, md.baseline, md.differential) == s[q - 8]
  }

  /** Somewhere in the first `end` bytes of `s` stands an SOI marker. */
  predicate SoiWithin(s: seq<byte>, end: nat)
  {
    exists i | 0 <= i && i + 2 <= end && end <= |s| :: s[i] == 0xFF && s[i + 1] == 0xD8
  }

  /** The four bytes before `q` are 0xFF, a code `isCode` accepts, and a
      big-endian length field holding `length`. */
  predicate LengthAfterMarker(s: seq<byte>, q: nat, isCode: byte -> bool, length: int)
  {
    && 4 <= q <= |s|
    && s[q - 4] == 0xFF
    && isCode(s[q - 3])
    && BigEndian(s[q - 2], s[q - 1]) == length
  }

  /** Reads SOI, the first APP0/APP1 marker after it and that segment's
      length, which must exceed 8. The cursor is left after the length. */
  function ReadAppHeader(s: seq<byte>): (r: Result<Parsed<AppHeader>>)
    ensures r.Ok? ==>
      && 6 <= r.value.next <= |s|
      && SoiWithin(s, r.value.next - 4)
      && s[r.value.next - 4] == 0xFF
      && s[r.value.next - 3] == r.value.value.marker
      && IsAppMarker(r.value.value.marker)
      && BigEndianBytes(r.value.value.length) == s[r.value.next - 2..r.value.next]
      && r.value.value.length > 8
    ensures r.Err? && r.error.InvalidFormat? ==>
      r.error.problem.BadAppHeaderLength? && r.error.problem.length <= 8
    ensures r.Err? && r.error.UnexpectedEndOfStream? ==>
      r.error.during in {SearchingFor(Soi), SearchingFor(App), MarkerType, AppHeaderSize}
  {
    var soi :- FindMarker(s, 0, Soi, IsSoiMarker);
    var app :- FindMarker(s, soi.next, App, IsAppMarker);
    var length :- ReadU16(s, app.next, AppHeaderSize);
    if length.value <= 8 then Err(InvalidFormat(BadAppHeaderLength(length.value)))
    else Ok(Parsed(AppHeader(app.value, length.value), length.next))
  }

  /** A format error from reading the APP header is a length of at most 8
      that was really read: an SOI marker, then 0xFF, an APP code and the
      big-endian length field. */
  lemma ReadAppHeaderFormatError(s: seq<byte>)
    requires ReadAppHeader(s).Err? && ReadAppHeader(s).error.InvalidFormat?
    ensures exists q: nat | 4 <= q ::
      SoiWithin(s, q - 4) && LengthAfterMarker(s, q, IsAppMarker, ReadAppHeader(s).error.problem.length)
  {
    var soi := FindMarker(s, 0, Soi, IsSoiMarker).value;
    var app := FindMarker(s, soi.next, App, IsAppMarker).value;
    var length := ReadU16(s, app.next, AppHeaderSize).value;
    BigEndianEncodeDecode(length.value);
    var q := app.next + 2;
    assert SoiWithin(s, q - 4) by {
      assert s[soi.next - 2] == 0xFF && s[soi.next - 1] == 0xD8;
    }
    assert LengthAfterMarker(s, q, IsAppMarker, length.value);
  }

  /** The JFIF path: finds the next SOF marker, checks the frame header
      length and reads precision, height and width; the classification
      comes from the SOF code. Nothing after the width is read. */
  function LoadJfif(s: seq<byte>, pos: nat): (r: Result<Parsed<Metadata>>)
    requires pos <= |s|
    ensures r.Ok? ==> pos + 9 <= r.value.next && FrameHeaderBefore(s, r.value.next, r.value.value)
    ensures r.Ok? ==> r.value.value.baseline == (s[r.value.next - 8] == 0xC0)
    ensures r.Err? && r.error.InvalidFormat? ==>
      && r.error.problem.BadFrameHeaderSize? && r.error.problem.size <= 8
      && exists q | pos + 4 <= q :: LengthAfterMarker(s, q, IsSofMarker, r.error.problem.size)
    ensures r.Err? && r.error.UnexpectedEndOfStream? ==>
      r.error.during in {SearchingFor(Sof), MarkerType, FrameHeaderSize, SamplePrecision, FrameHeight, FrameWidth}
  {
    var marker :- FindMarker(s, pos, Sof, IsSofMarker);
    var size :- ReadU16(s, marker.next, FrameHeaderSize);
    BigEndianEncodeDecode(size.value);
    assert LengthAfterMarker(s, size.next, IsSofMarker, size.value);
    if size.value <= 8 then Err(InvalidFormat(BadFrameHeaderSize(size.value)))
    else
      var precision :- ReadU8(s, size.next, SamplePrecision);
      var height :- ReadU16(s, precision.next, FrameHeight);
      var width :- ReadU16(s, height.next, FrameWidth);
      var m := marker.value;
      SofCodeRoundTrip(m);
      BaselineClassification(m);
      BigEndianDecodeEncode(s[marker.next], s[marker.next + 1]);
      var md := Metadata(
        Dimensions(width.value, height.value),
        precision.value,
        CodingProcessFromMarker(m).value,
        EntropyCodingFromMarker(m).value,
        IsBaseline(m),
        DifferentialFromMarker(m).value);
      Ok(Parsed(md, width.next))
  }

  /** The EXIF path up to where the reader stops: the six identifier bytes
      must be "Exif" and two NULs. */
  function LoadExif(s: seq<byte>, pos: nat): (o: Outcome)
    requires pos <= |s|
    ensures !o.Loaded?
    ensures o.ExifUnimplemented? <==> pos + 6 <= |s| && SpellsExif(s[pos..pos + 6])
    ensures o.ExifUnimplemented? ==> o.next == pos + 6
    ensures o.Failed? ==>
      o.error == if pos + 6 <= |s| then InvalidFormat(NotExif) else UnexpectedEndOfStream(ExifIdentifier)
  {
    if pos + 6 > |s| then Failed(UnexpectedEndOfStream(ExifIdentifier))
    else if s[pos..pos + 6] != EXIF_IDENTIFIER then Failed(InvalidFormat(NotExif))
    else ExifUnimplemented(pos + 6)
  }

  /** Loads the metadata of the image held in `s`. */
  function Load(s: seq<byte>): (o: Outcome)
    ensures o.Failed? ==> o.error != InvalidFormat(NeitherJfifNorExif)
    ensures o.Failed? ==> ReadAppHeader(s).Err? || o.error.UnexpectedEndOfStream? ||
                          o.error.problem.BadFrameHeaderSize? || o.error.problem.NotExif?
    ensures ReadAppHeader(s).Err? ==> o == Failed(ReadAppHeader(s).error)
    ensures o.Loaded? ==>
      && ReadAppHeader(s).Ok? && ReadAppHeader(s).value.value.marker == 0xE0
      && ReadAppHeader(s).value.next + 9 <= o.next
      && FrameHeaderBefore(s, o.next, o.metadata)
    ensures o.ExifUnimplemented? ==>
      && ReadAppHeader(s).Ok? && ReadAppHeader(s).value.value.marker == 0xE1
      && o.next == ReadAppHeader(s).value.next + 6 <= |s|
      && SpellsExif(s[o.next - 6..o.next])
  {
    match ReadAppHeader(s)
    case Err(e) => Failed(e)
    case Ok(header) =>
      match ContainerTypeFromAppMarker(header.value.marker)
      case Err(e) => Failed(e)
      case Ok(Jfif) =>
        (match LoadJfif(s, header.next)
         case Ok(frame) => Loaded(frame.value, frame.next)
         case Err(e) => Failed(e))
      case Ok(Exif) => LoadExif(s, header.next)
  }
}
