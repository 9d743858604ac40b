/** The marker scanner: finds the next marker whose type byte satisfies a
    predicate. A marker is a 0xFF byte followed by a type byte; a type byte
    of 0x00 is a stuffed data byte (section B.1.1.5 and F.1.2.3 of
    ITU-T T.81), not a marker. Rejected markers' payloads are not skipped:
    the scan simply resumes after the type byte. */
module Scanner {
  import opened Types
  import opened ByteStream

  /** Scans from `pos` for the first marker accepted by `matcher`, returning
      its type byte and the cursor just after it. `name` labels the error
      raised when the input ends before the next 0xFF. */
  function FindMarker(s: seq<byte>, pos: nat, name: MarkerName, matcher: byte -> bool): (r: Result<Parsed<byte>>)
    requires pos <= |s|
    ensures r.Ok? ==>
      && pos + 2 <= r.value.next <= |s|
      && s[r.value.next - 2] == 0xFF
      && s[r.value.next - 1] == r.value.value
      && r.value.value != 0
      && matcher(r.value.value)
    ensures r.Err? ==>
      r.error == UnexpectedEndOfStream(SearchingFor(name)) || r.error == UnexpectedEndOfStream(MarkerType)
    decreases |s| - pos
  {
    var next := SkipUntil(s, pos, 0xFF);
    if next == pos then Err(UnexpectedEndOfStream(SearchingFor(name)))
    else
      var markerType :- ReadU8(s, next, MarkerType);
      if markerType.value == 0 then FindMarker(s, markerType.next, name, matcher)
      else if matcher(markerType.value) then Ok(markerType)
      else FindMarker(s, markerType.next, name, matcher)
  }

  /** A 0xFF and the byte after it are consumed together: a stuffed 0xFF 0x00
      pair, or a marker the matcher rejects, leaves the scan where it would
      start after the pair. */
  lemma FindMarkerDiscardsPair(s: seq<byte>, pos: nat, name: MarkerName, matcher: byte -> bool)
    requires pos + 2 <= |s|
    requires s[pos] == 0xFF
    requires s[pos + 1] == 0x00 || !matcher(s[pos + 1])
    ensures FindMarker(s, pos, name, matcher) == FindMarker(s, pos + 2, name, matcher)
  {
  }

  /** Bytes other than 0xFF before the next 0xFF are passed over. */
  lemma FindMarkerSkipsData(s: seq<byte>, pos: nat, j: nat, name: MarkerName, matcher: byte -> bool)
    requires pos <= j < |s|
    requires s[j] == 0xFF
    requires forall i | pos <= i < j :: s[i] != 0xFF
    ensures FindMarker(s, pos, name, matcher) == FindMarker(s, j, name, matcher)
  {
    assert SkipUntil(s, pos, 0xFF) == j + 1 == SkipUntil(s, j, 0xFF);
  }

  /** The first marker after a stretch of data is found when the matcher
      accepts it. */
  lemma FindMarkerFirst(s: seq<byte>, pos: nat, j: nat, name: MarkerName, matcher: byte -> bool)
    requires pos <= j && j + 2 <= |s|
    requires forall i | pos <= i < j :: s[i] != 0xFF
    requires s[j] == 0xFF && s[j + 1] != 0 && matcher(s[j + 1])
    ensures FindMarker(s, pos, name, matcher) == Ok(Parsed(s[j + 1], j + 2))
  {
    FindMarkerSkipsData(s, pos, j, name, matcher);
  }

  /** With no 0xFF left before the last byte, the scan fails for lack of
      input: while searching when nothing was left, otherwise while reading
      the marker type. It never reports a format error. */
  lemma FindMarkerExhausted(s: seq<byte>, pos: nat, name: MarkerName, matcher: byte -> bool)
    requires pos <= |s|
    requires forall i | pos <= i < |s| - 1 :: s[i] != 0xFF
    ensures FindMarker(s, pos, name, matcher) ==
      Err(UnexpectedEndOfStream(if pos == |s| then SearchingFor(name) else MarkerType))
  {
  }

  /** The scanner never looks past the marker it returns: appending bytes
      to the input does not change a successful result. */
  lemma {:induction false} FindMarkerIgnoresSuffix(s: seq<byte>, t: seq<byte>, pos: nat, name: MarkerName, matcher: byte -> bool)
    requires pos <= |s|
    requires FindMarker(s, pos, name, matcher).Ok?
    ensures FindMarker(s + t, pos, name, matcher) == FindMarker(s, pos, name, matcher)
    decreases |s| - pos
  {
    var next := SkipUntil(s, pos, 0xFF);
    assert next > pos && next < |s|;
    SkipUntilIgnoresSuffix(s, t, pos, 0xFF);
    assert (s + t)[next] == s[next];
    if s[next] == 0 || !matcher(s[next]) {
      FindMarkerIgnoresSuffix(s, t, next + 1, name, matcher);
    }
  }

  /** A 0xFF taken as the type byte of a marker is not itself the start of
      one: an odd number of fill bytes before a marker (section B.1.1.2 of
      ITU-T T.81) makes this scanner pass over the marker that follows. */
  lemma FindMarkerFillByteHidesMarker()
    ensures FindMarker([0xFF, 0xFF, 0xD8], 0, Soi, m => m == 0xD8) == Err(UnexpectedEndOfStream(MarkerType))
  {
    var s: seq<byte> := [0xFF, 0xFF, 0xD8];
    FindMarkerDiscardsPair(s, 0, Soi, m => m == 0xD8);
    FindMarkerExhausted(s, 2, Soi, m => m == 0xD8);
  }
}
