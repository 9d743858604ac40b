/** Marker codes of the JPEG header: which bytes are SOI, APPn and SOFn
    markers, and what a SOFn code says about the frame (Table B.1 of
    ITU-T T.81: the low two bits of n select the coding process, bit 2 the
    differential mode and bit 3 arithmetic entropy coding; n = 4, 8 and 12
    are DHT, JPG and DAC, not frame headers). */
module Markers {
  import opened Types

  /** Coding process used in an image. */
  datatype CodingProcess = DctSequential | DctProgressive | Lossless

  /** Entropy coding method used in an image. */
  datatype EntropyCoding = Huffman | Arithmetic

  /** The container convention, chosen by the APPn marker that follows SOI. */
  datatype ContainerType = Jfif | Exif

  /** Start of image. Its code is neither an APPn nor a SOFn code, so the
      three marker searches accept disjoint sets of bytes. */
  predicate IsSoiMarker(value: byte)
    ensures IsSoiMarker(value) ==> !IsAppMarker(value) && !IsSofMarker(value)
  {
    value == 0xD8
  }

  /** The thirteen start-of-frame codes; 0xC4, 0xC8 and 0xCC are not among
      them. In terms of the bit layout: high nibble 0xC, low two bits
      non-zero except for SOF0 itself. */
  predicate IsSofMarker(value: byte)
    ensures IsSofMarker(value) <==> (value & 0xF0 == 0xC0 && (value & 0x03 != 0 || value == 0xC0))
  {
    value in {0xC0, 0xC1, 0xC2, 0xC3, 0xC5, 0xC6, 0xC7, 0xC9, 0xCA, 0xCB, 0xCD, 0xCE, 0xCF}
  }

  /** APP0 (JFIF) and APP1 (EXIF) are the only application markers accepted:
      the two codes that differ from 0xE0 at most in bit 0. No SOF code is
      one of them. */
  predicate IsAppMarker(value: byte)
    ensures IsAppMarker(value) <==> value & 0xFE == 0xE0
    ensures IsAppMarker(value) ==> !IsSofMarker(value)
  {
    value == 0xE0 || value == 0xE1
  }

  function CodingProcessFromMarker(marker: byte): (r: Option<CodingProcess>)
    ensures r.Some? <==> IsSofMarker(marker)
  {
    if marker in {0xC0, 0xC1, 0xC5, 0xC9, 0xCD} then Some(DctSequential)
    else if marker in {0xC2, 0xC6, 0xCA, 0xCE} then Some(DctProgressive)
    else if marker in {0xC3, 0xC7, 0xCB, 0xCF} then Some(Lossless)
    else None
  }

  function EntropyCodingFromMarker(marker: byte): (r: Option<EntropyCoding>)
    ensures r.Some? <==> IsSofMarker(marker)
  {
    if marker in {0xC0, 0xC1, 0xC2, 0xC3, 0xC5, 0xC6, 0xC7} then Some(Huffman)
    else if marker in {0xC9, 0xCA, 0xCB, 0xCD, 0xCE, 0xCF} then Some(Arithmetic)
    else None
  }

  /** Whether a SOF code announces differential coding; `None` is the arm
      the frame-header reader declares unreachable. */
  function DifferentialFromMarker(marker: byte): (r: Option<bool>)
    ensures r.Some? <==> IsSofMarker(marker)
    ensures r.Some? ==> r.value == (marker & 4 != 0)
  {
    if marker in {0xC0, 0xC1, 0xC2, 0xC3, 0xC9, 0xCA, 0xCB} then Some(false)
    else if marker in {0xC5, 0xC6, 0xC7, 0xCD, 0xCE, 0xCF} then Some(true)
    else None
  }

  /** There is exactly one baseline DCT marker, SOF0: the only SOF code
      whose low nibble is zero. */
  predicate IsBaseline(marker: byte)
    ensures IsBaseline(marker) <==> IsSofMarker(marker) && marker & 0x0F == 0
  {
    marker == 0xC0
  }

  function ContainerTypeFromAppMarker(marker: byte): (r: Result<ContainerType>)
    ensures r.Ok? <==> IsAppMarker(marker)
    ensures r.Ok? ==> (r.value == Jfif <==> marker == 0xE0)
    ensures r.Err? ==> r.error == InvalidFormat(NeitherJfifNorExif)
  {
    if marker == 0xE0 then Ok(Jfif)
    else if marker == 0xE1 then Ok(Exif)
    else Err(InvalidFormat(NeitherJfifNorExif))
  }

  /** The SOFn code of a frame with the given classification: the inverse of
      the four derivations above, built from the bit layout of Table B.1. */
  function SofCodeFor(process: CodingProcess, entropy: EntropyCoding, baseline: bool, differential: bool): byte
  {
    var low: byte := match process
      case DctSequential => if baseline then 0 else 1
      case DctProgressive => 2
      case Lossless => 3;
    0xC0 | low | (if differential then 4 else 0) | (if entropy == Arithmetic then 8 else 0)
  }

  /** A classification that some SOF code produces: only the sequential,
      Huffman, non-differential frame can be baseline. */
  predicate ConsistentClassification(process: CodingProcess, entropy: EntropyCoding, baseline: bool, differential: bool)
  {
    baseline ==> process == DctSequential && entropy == Huffman && !differential
  }

  /** The SOF code space: DHT (0xC4), JPG (0xC8) and DAC (0xCC) are
      rejected, and every SOF code lies in 0xC0..0xCF. */
  lemma SofCodeSpace(b: byte)
    ensures IsSofMarker(b) ==> 0xC0 <= b <= 0xCF
    ensures !IsSofMarker(0xC4) && !IsSofMarker(0xC8) && !IsSofMarker(0xCC)
  {
  }

  /** The integer values of the SOF codes, as listed in Table B.1. */
  function SofCodeValues(): (codes: set<int>)
    ensures |codes| == 13
  {
    {0xC0, 0xC1, 0xC2, 0xC3, 0xC5, 0xC6, 0xC7, 0xC9, 0xCA, 0xCB, 0xCD, 0xCE, 0xCF}
  }

  lemma SofCodeValue(n: int)
    requires 0 <= n < 256
    ensures IsSofMarker(ByteOf(n)) <==> n in SofCodeValues()
  {
  }

  /** Exactly thirteen byte values are SOF codes. */
  lemma SofCodeCount()
    ensures |set n: int | 0 <= n < 256 && IsSofMarker(ByteOf(n))| == 13
  {
    var sof := set n: int | 0 <= n < 256 && IsSofMarker(ByteOf(n));
    assert sof <= SofCodeValues() by {
      forall n | n in sof
        ensures n in SofCodeValues()
      {
        SofCodeValue(n);
      }
    }
    assert SofCodeValues() <= sof by {
      forall n | n in SofCodeValues()
        ensures n in sof
      {
        SofCodeValue(n);
      }
    }
    assert sof == SofCodeValues();
  }

  /** Each derivation agrees with the bit layout of Table B.1 on every SOF code. */
  lemma SofFieldsByBits(b: byte)
    requires IsSofMarker(b)
    ensures CodingProcessFromMarker(b) ==
      Some(if b & 3 == 2 then DctProgressive else if b & 3 == 3 then Lossless else DctSequential)
    ensures EntropyCodingFromMarker(b) == Some(if b & 8 == 0 then Huffman else Arithmetic)
    ensures DifferentialFromMarker(b) == Some(b & 4 != 0)
  {
  }

  /** Differential coding is announced by exactly C5, C6, C7, CD, CE and CF. */
  lemma DifferentialCodes(b: byte)
    ensures DifferentialFromMarker(b) == Some(true) <==> b in {0xC5, 0xC6, 0xC7, 0xCD, 0xCE, 0xCF}
    ensures DifferentialFromMarker(b) == Some(false) <==> b in {0xC0, 0xC1, 0xC2, 0xC3, 0xC9, 0xCA, 0xCB}
  {
  }

  /** SOF0 is the baseline code and classifies as sequential DCT, Huffman,
      non-differential. */
  lemma BaselineClassification(b: byte)
    requires IsSofMarker(b)
    ensures IsBaseline(b) ==> CodingProcessFromMarker(b) == Some(DctSequential)
    ensures IsBaseline(b) ==> EntropyCodingFromMarker(b) == Some(Huffman)
    ensures IsBaseline(b) ==> DifferentialFromMarker(b) == Some(false)
    ensures ConsistentClassification(CodingProcessFromMarker(b).value, EntropyCodingFromMarker(b).value,
                                     IsBaseline(b), DifferentialFromMarker(b).value)
  {
  }

  /** The classification of a SOF code determines the code. */
  lemma SofCodeRoundTrip(b: byte)
    requires IsSofMarker(b)
    ensures SofCodeFor(CodingProcessFromMarker(b).value, EntropyCodingFromMarker(b).value,
                       IsBaseline(b), DifferentialFromMarker(b).value) == b
  {
  }

  /** Every consistent classification is produced by the SOF code built for it. */
  lemma SofCodeForClassifies(process: CodingProcess, entropy: EntropyCoding, baseline: bool, differential: bool)
    requires ConsistentClassification(process, entropy, baseline, differential)
    ensures IsSofMarker(SofCodeFor(process, entropy, baseline, differential))
    ensures var b := SofCodeFor(process, entropy, baseline, differential);
      && CodingProcessFromMarker(b) == Some(process)
      && EntropyCodingFromMarker(b) == Some(entropy)
      && IsBaseline(b) == baseline
      && DifferentialFromMarker(b) == Some(differential)
  {
  }
}
