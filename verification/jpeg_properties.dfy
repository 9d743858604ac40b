/** Properties of the header reader that relate several calls: it decodes
    the header it is given, routes by the APPn marker, reports malformed
    lengths before anything else, and reads nothing past the frame header. */
module JpegProperties {
  import opened Types
  import opened ByteStream
  import opened Markers
  import opened Scanner
  import opened Jpeg

  /** No byte of `data` is 0xFF, so a scan passes over all of it. */
  predicate NoMarkerPrefix(data: seq<byte>)
  {
    forall i | 0 <= i < |data| :: data[i] != 0xFF
  }

  /** The frame header segment for `md`: its SOF code, the length field,
      precision, height and width (section B.2.2 of ITU-T T.81). */
  function FrameHeader(md: Metadata, length: u16): (bytes: seq<byte>)
    ensures |bytes| == 9
  {
    [0xFF, SofCodeFor(md.codingProcess, md.entropyCoding, md.baseline, md.differential)]
      + BigEndianBytes(length)
      + [md.samplePrecision]
      + BigEndianBytes(md.dimensions.height)
      + BigEndianBytes(md.dimensions.width)
  }

  /** A JFIF stream: SOI, APP0 with the given length field and payload,
      then the frame header for `md`. */
  function JfifStream(appLength: u16, appPayload: seq<byte>, md: Metadata, frameLength: u16): seq<byte>
  {
    [0xFF, 0xD8, 0xFF, 0xE0] + BigEndianBytes(appLength) + appPayload + FrameHeader(md, frameLength)
  }

  /** A 16-bit read returns the word whose encoding sits at the cursor. */
  lemma ReadU16At(s: seq<byte>, pos: nat, v: u16, during: Reading)
    requires pos + 2 <= |s|
    requires s[pos] == BigEndianBytes(v)[0] && s[pos + 1] == BigEndianBytes(v)[1]
    ensures ReadU16(s, pos, during) == Ok(Parsed(v, pos + 2))
  {
    BigEndianEncodeDecode(v);
    BigEndianDecodeEncode(s[pos], s[pos + 1]);
  }

  /** SOI then an APPn marker with its length at the start of the stream:
      the header is read, or rejected when the length is 8 or less. */
  lemma ReadAppHeaderAt(s: seq<byte>, marker: byte, appLength: u16)
    requires 6 <= |s|
    requires s[0] == 0xFF && s[1] == 0xD8 && s[2] == 0xFF && s[3] == marker
    requires s[4] == BigEndianBytes(appLength)[0] && s[5] == BigEndianBytes(appLength)[1]
    requires IsAppMarker(marker)
    ensures ReadAppHeader(s) ==
      if appLength <= 8 then Err(InvalidFormat(BadAppHeaderLength(appLength)))
      else Ok(Parsed(AppHeader(marker, appLength), 6))
  {
  }

  /** The frame header for consistent metadata, reached after a stretch
      without 0xFF, is decoded back to that metadata. */
  lemma LoadJfifAt(s: seq<byte>, pos: nat, j: nat, md: Metadata, frameLength: u16)
    requires pos <= j && j + 9 <= |s|
    requires forall i | pos <= i < j :: s[i] != 0xFF
    requires s[j..j + 9] == FrameHeader(md, frameLength)
    requires frameLength > 8 && Consistent(md)
    ensures LoadJfif(s, pos) == Ok(Parsed(md, j + 9))
  {
    var header := FrameHeader(md, frameLength);
    var code := header[1];
    SofCodeForClassifies(md.codingProcess, md.entropyCoding, md.baseline, md.differential);
    assert s[j] == header[0] == 0xFF;
    assert s[j + 1] == code;
    FindMarkerFirst(s, pos, j, Sof, IsSofMarker);
    assert FindMarker(s, pos, Sof, IsSofMarker) == Ok(Parsed(code, j + 2));
    assert s[j + 2] == header[2] && s[j + 3] == header[3];
    ReadU16At(s, j + 2, frameLength, FrameHeaderSize);
    assert s[j + 4] == header[4] == md.samplePrecision;
    assert ReadU8(s, j + 4, SamplePrecision) == Ok(Parsed(md.samplePrecision, j + 5));
    assert s[j + 5] == header[5] && s[j + 6] == header[6];
    ReadU16At(s, j + 5, md.dimensions.height, FrameHeight);
    assert s[j + 7] == header[7] && s[j + 8] == header[8];
    ReadU16At(s, j + 7, md.dimensions.width, FrameWidth);
    assert md == Metadata(md.dimensions, md.samplePrecision,
      CodingProcessFromMarker(code).value, EntropyCodingFromMarker(code).value,
      IsBaseline(code), DifferentialFromMarker(code).value);
  }

  /** Round trip: a JFIF stream built from consistent metadata loads back
      as that metadata, with the cursor right after the frame header,
      whatever follows. The APP0 payload is scanned, not skipped, so it
      must hold no 0xFF. */
  lemma LoadJfifStream(appLength: u16, appPayload: seq<byte>, md: Metadata, frameLength: u16, rest: seq<byte>)
    requires appLength > 8 && frameLength > 8
    requires NoMarkerPrefix(appPayload)
    requires Consistent(md)
    ensures Load(JfifStream(appLength, appPayload, md, frameLength) + rest) ==
      Loaded(md, |JfifStream(appLength, appPayload, md, frameLength)|)
  {
    var s := JfifStream(appLength, appPayload, md, frameLength) + rest;
    var p := |appPayload|;
    ReadAppHeaderAt(s, 0xE0, appLength);
    forall i | 6 <= i < 6 + p
      ensures s[i] != 0xFF
    {
      assert s[i] == appPayload[i - 6];
    }
    assert s[6 + p..15 + p] == FrameHeader(md, frameLength);
    LoadJfifAt(s, 6, 6 + p, md, frameLength);
  }

  /** Once the APP header is read, APP0 selects the JFIF path and APP1 the
      EXIF path, both starting right after the APP length field. */
  lemma LoadRoutesByAppMarker(s: seq<byte>)
    requires ReadAppHeader(s).Ok?
    ensures var header := ReadAppHeader(s).value;
      && (header.value.marker == 0xE0 ==>
            Load(s) == match LoadJfif(s, header.next)
                       case Ok(frame) => Loaded(frame.value, frame.next)
                       case Err(e) => Failed(e))
      && (header.value.marker == 0xE1 ==> Load(s) == LoadExif(s, header.next))
  {
  }

  /** A minimal APP0 payload: "JFIF" and NUL, version 1.1, no density
      units, a 1:1 density and no thumbnail. */
  function JfifApp0Payload(): seq<byte>
  {
    [0x4A, 0x46, 0x49, 0x46, 0x00, 0x01, 0x01, 0x00, 0x00, 0x01, 0x00, 0x01, 0x00, 0x00]
  }

  lemma JfifApp0PayloadHasNoMarker()
    ensures |JfifApp0Payload()| == 14 && NoMarkerPrefix(JfifApp0Payload())
  {
    var payload := JfifApp0Payload();
    forall i | 0 <= i < |payload|
      ensures payload[i] != 0xFF
    {
      assert payload[i] in {0x00, 0x01, 0x46, 0x49, 0x4A};
    }
  }

  /** SOI, APP0 of length 16 with the minimal payload, and an SOF0 frame
      header of length 11 with precision 8, height 100 and width 200 load
      as an 8-bit baseline image of 200 by 100, whatever follows. */
  lemma LoadBaselineExample(rest: seq<byte>)
    ensures var md := Metadata(Dimensions(200, 100), 8, DctSequential, Huffman, true, false);
      && FrameHeader(md, 11)[1] == 0xC0
      && Load(JfifStream(16, JfifApp0Payload(), md, 11) + rest) == Loaded(md, 29)
  {
    var md := Metadata(Dimensions(200, 100), 8, DctSequential, Huffman, true, false);
    JfifApp0PayloadHasNoMarker();
    assert SofCodeFor(DctSequential, Huffman, true, false) == 0xC0;
    LoadJfifStream(16, JfifApp0Payload(), md, 11, rest);
  }

  /** An APP1 segment routes to the EXIF path: a valid identifier reaches
      the unimplemented EXIF reader, any other six bytes are a format error. */
  lemma LoadExifStream(appLength: u16, id: seq<byte>, rest: seq<byte>)
    requires appLength > 8 && |id| == 6
    ensures Load([0xFF, 0xD8, 0xFF, 0xE1] + BigEndianBytes(appLength) + id + rest) ==
      if SpellsExif(id) then ExifUnimplemented(12) else Failed(InvalidFormat(NotExif))
  {
    var s := [0xFF, 0xD8, 0xFF, 0xE1] + BigEndianBytes(appLength) + id + rest;
    ReadAppHeaderAt(s, 0xE1, appLength);
    assert s[6..12] == id;
  }

  /** An APP length of 8 or less is rejected with that length, whichever of
      APP0 and APP1 carries it: the check comes before the container is
      chosen. */
  lemma LoadRejectsShortAppHeader(marker: byte, appLength: u16, rest: seq<byte>)
    requires IsAppMarker(marker) && appLength <= 8
    ensures Load([0xFF, 0xD8, 0xFF, marker] + BigEndianBytes(appLength) + rest) ==
      Failed(InvalidFormat(BadAppHeaderLength(appLength)))
  {
    var s := [0xFF, 0xD8, 0xFF, marker] + BigEndianBytes(appLength) + rest;
    ReadAppHeaderAt(s, marker, appLength);
  }

  /** A frame header length of 8 or less is rejected with that length. */
  lemma LoadJfifRejectsShortFrameHeader(s: seq<byte>, pos: nat, j: nat)
    requires pos <= j && j + 4 <= |s|
    requires forall i | pos <= i < j :: s[i] != 0xFF
    requires s[j] == 0xFF && IsSofMarker(s[j + 1])
    requires BigEndian(s[j + 2], s[j + 3]) <= 8
    ensures LoadJfif(s, pos) == Err(InvalidFormat(BadFrameHeaderSize(BigEndian(s[j + 2], s[j + 3]))))
  {
    FindMarkerFirst(s, pos, j, Sof, IsSofMarker);
    BigEndianDecodeEncode(s[j + 2], s[j + 3]);
    ReadU16At(s, j + 2, BigEndian(s[j + 2], s[j + 3]), FrameHeaderSize);
  }

  /** SOI must be present: a stream with no 0xFF 0xD8 pair anywhere fails,
      whatever else it holds. */
  lemma LoadNeedsSoi(s: seq<byte>)
    requires forall i | 0 <= i < |s| - 1 :: !(s[i] == 0xFF && s[i + 1] == 0xD8)
    ensures Load(s).Failed?
  {
  }

  /** A stream that ends right after SOI fails for lack of input while
      searching for the APP marker, not with a format error. */
  lemma LoadTruncatedAfterSoi(data: seq<byte>)
    requires NoMarkerPrefix(data)
    ensures Load(data + [0xFF, 0xD8]) == Failed(UnexpectedEndOfStream(SearchingFor(App)))
  {
    var s := data + [0xFF, 0xD8];
    FindMarkerFirst(s, 0, |data|, Soi, IsSoiMarker);
    FindMarkerExhausted(s, |s|, App, IsAppMarker);
  }

  /** Reading the APP header never looks past the length field. */
  lemma ReadAppHeaderIgnoresSuffix(s: seq<byte>, t: seq<byte>)
    requires ReadAppHeader(s).Ok?
    ensures ReadAppHeader(s + t) == ReadAppHeader(s)
  {
    var soi := FindMarker(s, 0, Soi, IsSoiMarker);
    FindMarkerIgnoresSuffix(s, t, 0, Soi, IsSoiMarker);
    var app := FindMarker(s, soi.value.next, App, IsAppMarker);
    FindMarkerIgnoresSuffix(s, t, soi.value.next, App, IsAppMarker);
    ReadsIgnoreSuffix(s, t, app.value.next, AppHeaderSize);
  }

  /** The JFIF path never looks past the frame width. */
  lemma LoadJfifIgnoresSuffix(s: seq<byte>, t: seq<byte>, pos: nat)
    requires pos <= |s|
    requires LoadJfif(s, pos).Ok?
    ensures LoadJfif(s + t, pos) == LoadJfif(s, pos)
  {
    FindMarkerIgnoresSuffix(s, t, pos, Sof, IsSofMarker);
    var f := FindMarker(s, pos, Sof, IsSofMarker).value.next;
    ReadsIgnoreSuffix(s, t, f, FrameHeaderSize);
    ReadsIgnoreSuffix(s, t, f + 2, SamplePrecision);
    ReadsIgnoreSuffix(s, t, f + 3, FrameHeight);
    ReadsIgnoreSuffix(s, t, f + 5, FrameWidth);
  }

  /** Reading stops at the frame header or the EXIF identifier: bytes
      appended to a stream that did not fail change nothing. */
  lemma LoadIgnoresTrailingBytes(s: seq<byte>, t: seq<byte>)
    requires !Load(s).Failed?
    ensures Load(s + t) == Load(s)
  {
    ReadAppHeaderIgnoresSuffix(s, t);
    var header := ReadAppHeader(s).value;
    var p := header.next;
    if header.value.marker == 0xE0 {
      LoadJfifIgnoresSuffix(s, t, p);
    } else {
      assert (s + t)[p..p + 6] == s[p..p + 6];
    }
  }
}
