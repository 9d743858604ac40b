/** The forward-only byte source the JPEG reader consumes: a byte sequence and
    a cursor into it. Models the buffered-reader primitives the reader uses:
    skip through a delimiter, read one byte, read a big-endian 16-bit word. */
module ByteStream {
  import opened Types

  /** Value of the big-endian word whose high byte is `hi` and low byte `lo`. */
  function BigEndian(hi: byte, lo: byte): u16
  {
    hi as int * 256 + lo as int
  }

  /** The two bytes a big-endian 16-bit field holding `v` occupies. */
  function BigEndianBytes(v: u16): (bytes: seq<byte>)
    ensures |bytes| == 2
  {
    [ByteOf(v / 256), ByteOf(v % 256)]
  }

  /** Skips bytes up to and including the first `delim` at or after `pos`,
      or to the end of the input when there is none. The number of bytes
      skipped is `next - pos`; it is zero only when no input was left. */
  function SkipUntil(s: seq<byte>, pos: nat, delim: byte): (next: nat)
    requires pos <= |s|
    ensures pos <= next <= |s|
    ensures next == pos <==> pos == |s|
    ensures forall i | pos <= i < next - 1 :: s[i] != delim
    ensures next < |s| ==> s[next - 1] == delim
    decreases |s| - pos
  {
    if pos == |s| then pos
    else if s[pos] == delim then pos + 1
    else SkipUntil(s, pos + 1, delim)
  }

  /** Reads one byte; `during` labels the end-of-stream error. */
  function ReadU8(s: seq<byte>, pos: nat, during: Reading): (r: Result<Parsed<byte>>)
    requires pos <= |s|
    ensures r.Ok? <==> pos < |s|
    ensures r.Ok? ==> r.value.next == pos + 1 && r.value.value == s[pos]
    ensures r.Err? ==> r.error == UnexpectedEndOfStream(during)
  {
    if pos < |s| then Ok(Parsed(s[pos], pos + 1))
    else Err(UnexpectedEndOfStream(during))
  }

  /** Reads a big-endian 16-bit word; `during` labels the end-of-stream error. */
  function ReadU16(s: seq<byte>, pos: nat, during: Reading): (r: Result<Parsed<u16>>)
    requires pos <= |s|
    ensures r.Ok? <==> pos + 2 <= |s|
    ensures r.Ok? ==> r.value.next == pos + 2 && BigEndianBytes(r.value.value) == s[pos..pos + 2]
    ensures r.Err? ==> r.error == UnexpectedEndOfStream(during)
  {
    if pos + 2 <= |s| then
      BigEndianDecodeEncode(s[pos], s[pos + 1]);
      Ok(Parsed(BigEndian(s[pos], s[pos + 1]), pos + 2))
    else Err(UnexpectedEndOfStream(during))
  }

  /** Reading back the two bytes of a big-endian word gives the word. */
  lemma BigEndianEncodeDecode(v: u16)
    ensures BigEndian(BigEndianBytes(v)[0], BigEndianBytes(v)[1]) == v
  {
    assert (v / 256) * 256 + v % 256 == v;
  }

  /** Writing a decoded word gives back the two bytes it was read from. */
  lemma BigEndianDecodeEncode(hi: byte, lo: byte)
    ensures BigEndianBytes(BigEndian(hi, lo)) == [hi, lo]
  {
    var v := BigEndian(hi, lo);
    assert v / 256 == hi as int;
    assert v % 256 == lo as int;
  }

  /** Bytes appended after the end do not change where a skip stops, as long
      as the skip stopped on the delimiter. */
  lemma {:induction false} SkipUntilIgnoresSuffix(s: seq<byte>, t: seq<byte>, pos: nat, delim: byte)
    requires pos <= |s|
    requires pos < SkipUntil(s, pos, delim)
    requires s[SkipUntil(s, pos, delim) - 1] == delim
    ensures SkipUntil(s + t, pos, delim) == SkipUntil(s, pos, delim)
    decreases |s| - pos
  {
    assert (s + t)[pos] == s[pos];
    if s[pos] != delim {
      SkipUntilIgnoresSuffix(s, t, pos + 1, delim);
    }
  }

  /** A read that succeeds is unaffected by bytes appended after it. */
  lemma ReadsIgnoreSuffix(s: seq<byte>, t: seq<byte>, pos: nat, during: Reading)
    requires pos <= |s|
    ensures ReadU8(s, pos, during).Ok? ==> ReadU8(s + t, pos, during) == ReadU8(s, pos, during)
    ensures ReadU16(s, pos, during).Ok? ==> ReadU16(s + t, pos, during) == ReadU16(s, pos, during)
  {
    if pos + 2 <= |s| {
      assert (s + t)[pos] == s[pos] && (s + t)[pos + 1] == s[pos + 1];
    }
    if pos < |s| {
      assert (s + t)[pos] == s[pos];
    }
  }
}
