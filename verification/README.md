# JPEG header metadata, modelled in Dafny

This project models the JPEG metadata reader of the `immeta` crate
(`src/formats/jpeg.rs`). The reader takes a JPEG stream and extracts the image
dimensions, the sample precision, the coding process, the entropy coding and
the baseline and differential flags. It decodes no pixels. It makes one
forward pass:

1. find the SOI marker (0xD8);
2. find the first APP0 or APP1 marker (0xE0 / 0xE1) and read its big-endian
   length, which must exceed 8;
3. choose the container by that marker byte: APP0 means JFIF and APP1 means
   EXIF;
4. JFIF: find the next SOF marker, check the frame header length (also
   above 8), and read precision P, height Y and width X in the order of
   section B.2.2 of ITU-T T.81. The coding process, entropy coding and flags
   come from the SOFn code (Table B.1 of ITU-T T.81);
5. EXIF: check that the next six bytes are "Exif" and two NULs, then stop
   where the reader is unfinished.

The stream is a `seq<bv8>` plus a cursor. Every read returns a `Result` that
holds either the value and the next cursor, or one of two errors:
`UnexpectedEndOfStream` (with a label naming the read that ran out) and
`InvalidFormat` (with the problem and, for length checks, the offending
length). `Load` is a pure function of the bytes, so two loads of the same
bytes always agree.

Modules:

- `Types` (`types.dfy`): bytes, `u16`, errors, `Result`, `Parsed`.
- `ByteStream` (`bytestream.dfy`): the reader primitives. These are
  skip-through-0xFF, read one byte and read a big-endian `u16`, plus the
  big-endian encoding used to state round trips.
- `Markers` (`markers.dfy`): the marker predicates and the SOF-code
  classifiers. It also holds the inverse `SofCodeFor`, which is built from
  the bit layout of Table B.1.
- `Scanner` (`scanner.dfy`): `find_marker`.
- `Jpeg` (`jpeg.dfy`): `Metadata`, the APP header, the JFIF and EXIF paths,
  and `load`.
- `JpegProperties` (`jpeg_properties.dfy`): properties relating several
  calls, such as round trips, routing, error paths and ignoring trailing
  bytes.

Two behaviours of the code, as written, are worth knowing:

- The container is chosen by the APPn marker byte. The identifier inside the
  segment is not consulted. On the JFIF path the APP0 payload is never
  skipped either: the SOF search scans through it. `LoadJfifStream` therefore
  assumes the payload contains no 0xFF.
- The scanner takes the byte after every 0xFF as a marker type, even when
  that byte is another 0xFF. Section B.1.1.2 of ITU-T T.81 allows 0xFF fill
  bytes before a marker, and an odd number of fill bytes makes this scanner
  pass over the marker behind it (`FindMarkerFillByteHidesMarker` shows one).

## Model

| member | source | states |
|---|---|---|
| `Scanner.FindMarker` | src/formats/jpeg.rs:93-107 | On success the returned type byte satisfies the matcher and is not 0x00, so a stuffed 0xFF 0x00 pair is never a marker. It sits right after a 0xFF, at the new cursor minus one, and the cursor has advanced by at least two. Every failure is an end-of-stream error: either while searching, or while reading the marker type. |
| `Scanner.FindMarkerDiscardsPair` | src/formats/jpeg.rs:100-106 | A 0xFF followed by 0x00 (stuffing), or by a type the matcher rejects, is consumed as a pair. Scanning resumes right after the pair. |
| `Scanner.FindMarkerSkipsData` | src/formats/jpeg.rs:97 | Bytes other than 0xFF before the next 0xFF do not affect the scan. |
| `Scanner.FindMarkerFirst` | src/formats/jpeg.rs:96-105 | After a stretch with no 0xFF, the first marker is returned when the matcher accepts it, with the cursor just past its type byte. |
| `Scanner.FindMarkerExhausted` | src/formats/jpeg.rs:97-100 | With no 0xFF left before the last byte, the scan fails for lack of input, never with a format error. It fails while searching when nothing was left, and while reading the marker type otherwise. |
| `Scanner.FindMarkerIgnoresSuffix` | src/formats/jpeg.rs:96-106 | A successful scan reads nothing past the marker it returns. Appending bytes does not change the result. |
| `Scanner.FindMarkerFillByteHidesMarker` | src/formats/jpeg.rs:97-106 | The input 0xFF 0xFF 0xD8 yields no SOI. The second 0xFF is consumed as a marker type, and the scan then runs out of input. |
| `ByteStream.SkipUntil` | src/formats/jpeg.rs:97 | The skip stops just after the first 0xFF at or after the cursor, or at the end of input. No earlier skipped byte is 0xFF. The count is zero exactly when no input was left. |
| `ByteStream.ReadU8` | src/formats/jpeg.rs:100 | A byte read succeeds exactly when input remains. It returns the byte under the cursor and advances by one. Otherwise it fails with the given end-of-stream label. |
| `ByteStream.ReadU16` | src/formats/jpeg.rs:158-159 | A 16-bit read succeeds exactly when two bytes remain. The big-endian encoding of the returned word is exactly those two bytes. Otherwise it fails with the given end-of-stream label. |
| `ByteStream.BigEndianEncodeDecode` | src/formats/jpeg.rs:120 | Decoding the big-endian bytes of a word gives back the word. |
| `ByteStream.BigEndianDecodeEncode` | src/formats/jpeg.rs:120 | Encoding a decoded word gives back its two bytes. |
| `ByteStream.SkipUntilIgnoresSuffix` | src/formats/jpeg.rs:97 | A skip that stopped on 0xFF stops at the same place when bytes are appended. |
| `ByteStream.ReadsIgnoreSuffix` | src/formats/jpeg.rs:155-159 | A successful one- or two-byte read is unchanged by appended bytes. |
| `Markers.CodingProcessFromMarker` | src/formats/jpeg.rs:35-42 | The result is `Some` exactly for the SOF codes. This is why the `unwrap` at line 172 cannot fail. |
| `Markers.EntropyCodingFromMarker` | src/formats/jpeg.rs:64-70 | The result is `Some` exactly for the SOF codes. This is why the `unwrap` at line 173 cannot fail. |
| `Markers.DifferentialFromMarker` | src/formats/jpeg.rs:165-169 | The differential match is defined exactly on the SOF codes, so the `unreachable!()` arm is never taken after `is_sof_marker`. On a SOF code the flag is bit 2 of the code (Table B.1 of ITU-T T.81). |
| `Markers.ContainerTypeFromAppMarker` | src/formats/jpeg.rs:223-230 | The result is `Ok` exactly for the bytes `is_app_marker` accepts. It is JFIF exactly for 0xE0, and any other byte is the "neither JFIF nor EXIF" format error. |
| `Markers.IsSoiMarker` | src/formats/jpeg.rs:113 | The SOI code 0xD8 is neither an APP nor a SOF code, so the SOI, APP and SOF searches accept disjoint sets of bytes. |
| `Markers.IsSofMarker` | src/formats/jpeg.rs:202-209 | A byte is a SOF code iff its high nibble is 0xC and its low two bits are non-zero or it is 0xC0. This is the bit layout of Table B.1 of ITU-T T.81, checked against the thirteen listed codes. |
| `Markers.IsAppMarker` | src/formats/jpeg.rs:211-217 | A byte is accepted iff it equals 0xE0 in every bit but bit 0, that is APP0 or APP1. No accepted byte is a SOF code. |
| `Markers.IsBaseline` | src/formats/jpeg.rs:162-163 | Baseline holds iff the byte is a SOF code with a zero low nibble, so 0xC0 is the only baseline marker. |
| `Markers.SofCodeSpace` | src/formats/jpeg.rs:202-209 | 0xC4 (DHT), 0xC8 (JPG) and 0xCC (DAC) are rejected, and every SOF code lies in 0xC0..0xCF. |
| `Markers.SofCodeCount` | src/formats/jpeg.rs:202-209 | Exactly 13 of the 256 byte values are SOF codes. |
| `Markers.SofCodeValue` | src/formats/jpeg.rs:204-206 | The per-value step of `SofCodeCount`: a byte value in 0..255 is a SOF code exactly when it is in the integer set of the thirteen codes. |
| `Markers.SofFieldsByBits` | src/formats/jpeg.rs:35-70 | On every SOF code, the coding process is given by the low two bits (2 progressive, 3 lossless, otherwise sequential), and the entropy coding by bit 3 (set means arithmetic). This matches Table B.1. |
| `Markers.DifferentialCodes` | src/formats/jpeg.rs:165-169 | Differential is true exactly for C5, C6, C7, CD, CE and CF. It is false exactly for C0, C1, C2, C3, C9, CA and CB. |
| `Markers.BaselineClassification` | src/formats/jpeg.rs:162-173 | The baseline code 0xC0 classifies as sequential DCT, Huffman and non-differential. Every SOF code yields a consistent classification: only that combination can be baseline. |
| `Markers.SofCodeRoundTrip` | src/formats/jpeg.rs:162-173 | The four derived fields determine the SOF code: re-encoding them gives back the marker. |
| `Markers.SofCodeForClassifies` | src/formats/jpeg.rs:162-173 | Every consistent classification is produced by exactly the SOF code built for it. Together with `SofCodeRoundTrip`, which gives the other direction, the 13 codes and the 13 consistent classifications are in one-to-one correspondence. |
| `Jpeg.ReadAppHeader` | src/formats/jpeg.rs:111-123 | On success an SOI marker (0xFF 0xD8) stands before the APP marker, and it returns an APP0/APP1 marker preceded by 0xFF, with a length above 8 whose big-endian bytes sit just before the cursor. A format error always names a length of at most 8 (`ReadAppHeaderFormatError` shows that this length was read from the stream). End-of-stream errors come only from the SOI/APP searches, the marker type or the length read. |
| `Jpeg.ReadAppHeaderFormatError` | src/formats/jpeg.rs:112-122 | A format error is raised only after an SOI marker, then 0xFF and an APP code, whose big-endian length field holds the length at most 8 that the error names. A truncated stream never yields it. |
| `Jpeg.LoadJfif` | src/formats/jpeg.rs:140-183 | On success the nine bytes before the cursor are a frame header that the metadata describes: 0xFF, a SOF code, a length above 8, P, then Y and X big-endian. A height of 0 is passed through. The classification is the one the code announces, and baseline holds iff the code is 0xC0. A format error is only a frame length of at most 8 that was read after 0xFF and a SOF code at or after the starting cursor, so a truncated stream never yields one. End-of-stream errors carry the label of one of the JFIF path's reads: the SOF search, the marker type, the size, the precision, the height or the width. |
| `Jpeg.LoadExif` | src/formats/jpeg.rs:184-198 | The unimplemented EXIF reader is reached exactly when six bytes remain and they spell "Exif" and two NULs. Other six bytes give a format error, and a shorter input an end-of-stream error. It never yields metadata. |
| `Jpeg.Load` | src/formats/jpeg.rs:111-136 | The "neither JFIF nor EXIF" error is unreachable. APP header failures are passed on unchanged. Metadata comes only through APP0, followed by a frame header it describes. The EXIF stop comes only through APP1 and a valid identifier right after the APP length. |
| `JpegProperties.ReadAppHeaderAt` | src/formats/jpeg.rs:113-123 | SOI, APPn and a length at the start of the stream give that header, or the format error naming the length when it is 8 or less. |
| `JpegProperties.LoadJfifAt` | src/formats/jpeg.rs:140-183 | The frame header built from consistent metadata, reached after a stretch with no 0xFF, decodes back to that metadata. |
| `JpegProperties.LoadRoutesByAppMarker` | src/formats/jpeg.rs:130-134 | Once the APP header is read, 0xE0 continues on the JFIF path and 0xE1 on the EXIF path, both right after the length field. |
| `JpegProperties.LoadJfifStream` | src/formats/jpeg.rs:111-183 | Round trip: SOI, APP0 with a length above 8 and a payload with no 0xFF, then the frame header for consistent metadata, loads back as exactly that metadata. The cursor ends right after the frame header, whatever follows. |
| `JpegProperties.LoadBaselineExample` | src/formats/jpeg.rs:111-183 | A minimal stream (APP0 of length 16, SOF0 of length 11, precision 8, height 100, width 200) loads as 200 by 100, 8-bit, sequential DCT, Huffman, baseline, non-differential, whatever bytes follow. |
| `JpegProperties.LoadExifStream` | src/formats/jpeg.rs:130-134 | With APP1 and a length above 8, an "Exif\0\0" identifier reaches the unimplemented EXIF reader after 12 bytes. Any other six bytes give the "not EXIF" format error. |
| `JpegProperties.LoadRejectsShortAppHeader` | src/formats/jpeg.rs:120-123 | An APP length of 8 or less gives the format error naming that length. This holds for APP0 and APP1 alike, so the check precedes the container choice. |
| `JpegProperties.LoadJfifRejectsShortFrameHeader` | src/formats/jpeg.rs:145-148 | A SOF length of 8 or less gives the format error naming that length. |
| `JpegProperties.LoadNeedsSoi` | src/formats/jpeg.rs:112-113 | A stream with no 0xFF 0xD8 pair anywhere fails to load, whatever else it holds. |
| `JpegProperties.LoadTruncatedAfterSoi` | src/formats/jpeg.rs:113-118 | A stream that ends right after SOI fails with end-of-stream while searching for the APP marker, not with a format error. |
| `JpegProperties.ReadAppHeaderIgnoresSuffix` | src/formats/jpeg.rs:111-123 | Reading the APP header looks at nothing past its length field. |
| `JpegProperties.LoadJfifIgnoresSuffix` | src/formats/jpeg.rs:140-183 | The JFIF path looks at nothing past the frame width. |
| `JpegProperties.LoadIgnoresTrailingBytes` | src/formats/jpeg.rs:111-136 | A load that did not fail gives the same outcome whatever bytes are appended. Scan data and later segments are never read. |

## Left out

- `Scanner.FindMarker`: its own contract does not say that the marker returned is the first one the matcher accepts. `FindMarkerDiscardsPair`, `FindMarkerSkipsData` and `FindMarkerFirst` state this step by step.
- The EXIF path after the identifier: the reader stops at `unimplemented!()`, and `load_exif_with_endianness` is an incomplete declaration. Both are represented by the outcome `ExifUnimplemented`.
- The EXIF identifier read uses `read_exact` with a plain `try!`. Its short-read error goes through an I/O error conversion that is not part of this model. It is modelled as `UnexpectedEndOfStream(ExifIdentifier)`.
- I/O errors other than end of input: a byte sequence cannot fail to be read.
- The `skip_until` helper is modelled abstractly as `SkipUntil`, with the usual read-until meaning: consume through the first delimiter or to the end, and report how many bytes were consumed.
- A 16-bit read that finds only one byte may consume that byte. The parse aborts with an error either way, so the model does not track it.
- The text of error messages. Errors carry a label for the read that ran out, or the problem and offending length.
- The `Display` implementations for `CodingProcess` and `EntropyCoding`, which only format text.
- The `Dimensions` type is modelled abstractly as a (width, height) pair of `u16`.
- Matchers are modelled as pure functions (`byte -> bool`), as all three matchers the reader passes are pure.
- Resolving a height of 0 through a DNL segment, skipping APPn payloads by their length, and decoding scan data: the code does none of these.
- Classifying the container by the identifier string inside the APPn segment: the code keys on the marker byte (0xE0 or 0xE1) and never reads it.
