/** The header arithmetic of `streamVideo` (server/controllers/videoController.js,
    lines 119-158): a single `bytes=start-end` or `bytes=start-` range of
    RFC 7233 (section 2.1) answered with 206 Partial Content (section 4.1) and a
    `Content-Range` of the form of section 4.2, or the whole file with 200. The
    range is not checked against the file size and there is no 416 response;
    a range the file stream refuses surfaces as the route's 500. */
module RangeRequest {
  import opened Wrappers
  import opened Text
  import opened VideoModel

  /** `Number.MAX_SAFE_INTEGER`, the largest position the file stream takes. */
  const MaxSafeInteger: int := 9007199254740991

  /** The text removed (first occurrence only) before the range is split. */
  const BytesUnit: string := "bytes="

  /** The `Content-Type` of every streamed response. */
  const VideoContentType: string := "video/mp4"

  /** The `Accept-Ranges` value of a 206 response (RFC 7233, section 2.3). */
  const AcceptRangesBytes: string := "bytes"

  const VideoNotFound: string := "Video not found"
  const StreamServerError: string := "Server Error streaming video"

  /** What the route answers. */
  datatype StreamResponse =
    | WholeFile(contentLength: nat)
    | PartialContent(start: nat, end: nat, contentLength: nat, contentRange: string)
    | JsonError(status: nat, message: string)

  /** The status line of a response. */
  function StatusCode(r: StreamResponse): nat {
    match r
    case WholeFile(_) => 200
    case PartialContent(_, _, _, _) => 206
    case JsonError(status, _) => status
  }

  /** The headers `writeHead` sends with a streamed response, in order: a
      JSON error sends none of them, and every streamed response ends with the
      video `Content-Type`. */
  function Headers(r: StreamResponse): (h: seq<(string, string)>)
    ensures h == [] <==> r.JsonError?
    ensures h != [] ==> h[|h| - 1] == ("Content-Type", VideoContentType)
  {
    match r
    case WholeFile(n) =>
      [("Content-Length", NatToString(n)), ("Content-Type", VideoContentType)]
    case PartialContent(_, _, n, range) =>
      [("Content-Range", range), ("Accept-Ranges", AcceptRangesBytes),
       ("Content-Length", NatToString(n)), ("Content-Type", VideoContentType)]
    case JsonError(_, _) => []
  }

  /** `bytes ${start}-${end}/${fileSize}`. */
  function ContentRange(start: nat, end: nat, fileSize: nat): string {
    "bytes " + NatToString(start) + "-" + NatToString(end) + "/" + NatToString(fileSize)
  }

  /** The two positions read from a Range header; `None` is `NaN`. */
  datatype Bounds = Bounds(start: Option<int>, end: Option<int>)

  /** Reads the pieces of the range: `parseInt` of the first, and of the
      second when it is present and not empty; otherwise the end is the last
      byte position `fileSize - 1`. */
  function PartsBounds(parts: seq<string>, fileSize: nat): Bounds
    requires |parts| >= 1
  {
    var start := ParseInt(parts[0]);
    var end := if |parts| >= 2 && parts[1] != [] then ParseInt(parts[1]) else Some(fileSize - 1);
    Bounds(start, end)
  }

  /** The pieces of a Range header: the first `bytes=` dropped, split at `-`. */
  function RangeParts(header: string): (parts: seq<string>)
    ensures |parts| >= 1
  {
    Split(ReplaceFirst(header, BytesUnit, ""), '-')
  }

  /** The positions a Range header asks for. */
  function RangeBounds(header: string, fileSize: nat): Bounds {
    PartsBounds(RangeParts(header), fileSize)
  }

  /** A header that starts with `bytes=` is split after it. */
  lemma RangePartsAfterUnit(spec: string)
    ensures RangeParts(BytesUnit + spec) == Split(spec, '-')
  {
    ReplaceFirstAtStart(BytesUnit, spec);
  }

  /** What the file stream accepts for `{ start, end }`: two safe non-negative
      integers with `start <= end`; anything else makes it throw. */
  predicate StreamAccepts(b: Bounds) {
    && b.start.Some? && b.end.Some?
    && 0 <= b.start.value <= b.end.value <= MaxSafeInteger
  }

  /** The response for the Range header `range` (absent or empty: none) on a
      file of `fileSize` bytes. */
  function RangeResponse(range: Option<string>, fileSize: nat): StreamResponse {
    if range.None? || range.value == [] then WholeFile(fileSize)
    else
      var b := RangeBounds(range.value, fileSize);
      if StreamAccepts(b) then
        var start: nat := b.start.value;
        var end: nat := b.end.value;
        PartialContent(start, end, end - start + 1, ContentRange(start, end, fileSize))
      else JsonError(500, StreamServerError)
  }

  /** Without a Range header the whole file is sent. With one, the answer is
      206 exactly when the file stream accepts the positions read from it, for
      `end - start + 1` bytes and the matching `Content-Range`; otherwise it
      is the route's 500. */
  lemma RangeResponseCases(range: Option<string>, fileSize: nat)
    ensures var r := RangeResponse(range, fileSize);
      && (range.None? || range.value == [] ==> r == WholeFile(fileSize))
      && (r.PartialContent? ==>
        && range.Some? && range.value != []
        && RangeBounds(range.value, fileSize) == Bounds(Some(r.start), Some(r.end))
        && r.start <= r.end <= MaxSafeInteger
        && r.contentLength == r.end - r.start + 1 >= 1
        && r.contentRange == ContentRange(r.start, r.end, fileSize))
      && (r.JsonError? <==>
        range.Some? && range.value != [] && !StreamAccepts(RangeBounds(range.value, fileSize)))
      && (r.JsonError? ==> r == JsonError(500, StreamServerError))
  {
  }

  /** `streamVideo`: 404 when no record has the id, 500 when the file cannot
      be examined (`stat` is `None`), otherwise the range response on the
      file's size. */
  function StreamVideo(video: Option<VideoRecord>, stat: Option<nat>, range: Option<string>): (r: StreamResponse)
    ensures video.None? ==> r == JsonError(404, VideoNotFound)
    ensures video.Some? && stat.None? ==> r == JsonError(500, StreamServerError)
    ensures video.Some? && stat.Some? ==> r == RangeResponse(range, stat.value)
    ensures StatusCode(r) in {200, 206, 404, 500}
  {
    if video.None? then JsonError(404, VideoNotFound)
    else if stat.None? then JsonError(500, StreamServerError)
    else RangeResponse(range, stat.value)
  }

  /** The pieces of `bytes=<s>-<e><rest>` when `s` and `e` hold no `-`. */
  lemma ClosedRangeParts(header: string, s: string, e: string, rest: string)
    requires '-' !in s && '-' !in e
    requires header == BytesUnit + (s + ['-'] + (e + rest))
    ensures |RangeParts(header)| >= 2
    ensures RangeParts(header)[0] == s
    ensures RangeParts(header)[1] == e + Split(rest, '-')[0]
  {
    RangePartsAfterUnit(s + ['-'] + (e + rest));
    SplitAtFirst(s, '-', e + rest);
    SplitFirstPiece(e, rest, '-');
  }

  /** Decimal text holds no `-`. */
  lemma NoDashInNumber(n: nat)
    ensures '-' !in NatToString(n)
  {
    assert !IsDigit('-');
  }

  /** Two pieces that print `start` and `end`, the second followed by text
      that does not continue its digits, read as those two positions. */
  lemma PartsBoundsOf(parts: seq<string>, start: nat, end: nat, tail: string, fileSize: nat)
    requires |parts| >= 2
    requires parts[0] == NatToString(start)
    requires parts[1] == NatToString(end) + tail
    requires tail == [] || !IsDigit(tail[0])
    ensures PartsBounds(parts, fileSize) == Bounds(Some(start), Some(end))
  {
    ParseIntOfNatToString(start);
    ParseIntOfDigits(NatToString(end), tail);
  }

  /** A header `bytes=<start>-<end>` followed by text that does not continue
      the end's digits reads back as those two positions: a second range
      after a comma is ignored. */
  lemma RangeBoundsOf(header: string, start: nat, end: nat, rest: string, fileSize: nat)
    requires rest == [] || !IsDigit(rest[0])
    requires header == BytesUnit + NatToString(start) + "-" + NatToString(end) + rest
    ensures RangeBounds(header, fileSize) == Bounds(Some(start), Some(end))
  {
    var s := NatToString(start);
    var e := NatToString(end);
    Regroup(BytesUnit, s, "-", e, rest);
    NoDashInNumber(start);
    NoDashInNumber(end);
    ClosedRangeParts(header, s, e, rest);
    var tail := Split(rest, '-')[0];
    assert tail == [] || tail[0] == rest[0];
    PartsBoundsOf(RangeParts(header), start, end, tail, fileSize);
  }

  /** Concatenation regrouped to the right. */
  lemma Regroup(a: string, b: string, c: string, d: string, e: string)
    ensures a + b + c + d + e == a + (b + c + (d + e))
  {
  }

  /** A range whose positions the file stream accepts is answered with 206. */
  lemma AcceptedBoundsResponse(header: string, start: nat, end: nat, fileSize: nat)
    requires header != []
    requires RangeBounds(header, fileSize) == Bounds(Some(start), Some(end))
    requires start <= end <= MaxSafeInteger
    ensures RangeResponse(Some(header), fileSize)
         == PartialContent(start, end, end - start + 1, ContentRange(start, end, fileSize))
  {
    var b := RangeBounds(header, fileSize);
    assert b.start == Some(start) && b.end == Some(end);
    assert StreamAccepts(b);
  }

  /** A well-formed range within the safe integers is answered with 206, the
      length `end - start + 1` and `Content-Range: bytes start-end/size`, even
      when it reaches past the end of the file. */
  lemma ClosedRangeResponse(header: string, start: nat, end: nat, rest: string, fileSize: nat)
    requires start <= end <= MaxSafeInteger
    requires rest == [] || !IsDigit(rest[0])
    requires header == BytesUnit + NatToString(start) + "-" + NatToString(end) + rest
    ensures RangeResponse(Some(header), fileSize)
         == PartialContent(start, end, end - start + 1, ContentRange(start, end, fileSize))
  {
    RangeBoundsOf(header, start, end, rest, fileSize);
    assert |header| >= |BytesUnit|;
    AcceptedBoundsResponse(header, start, end, fileSize);
  }

  /** A range that starts after it ends is refused by the file stream: 500,
      not the 416 of RFC 7233. */
  lemma ReversedRangeFails(header: string, start: nat, end: nat, fileSize: nat)
    requires end < start
    requires header == BytesUnit + NatToString(start) + "-" + NatToString(end)
    ensures RangeResponse(Some(header), fileSize) == JsonError(500, StreamServerError)
  {
    assert header == BytesUnit + NatToString(start) + "-" + NatToString(end) + [];
    RangeBoundsOf(header, start, end, [], fileSize);
  }

  /** The pieces of `bytes=<s>-` when `s` holds no `-`. */
  lemma OpenRangeParts(header: string, s: string)
    requires '-' !in s
    requires header == BytesUnit + (s + ['-'] + [])
    ensures RangeParts(header) == [s, []]
  {
    RangePartsAfterUnit(s + ['-'] + []);
    SplitAtFirst(s, '-', []);
  }

  /** `bytes=<start>-` reads as the start and the last byte position. */
  lemma OpenRangeBounds(header: string, start: nat, fileSize: nat)
    requires header == BytesUnit + NatToString(start) + "-"
    ensures header != [] && RangeBounds(header, fileSize) == Bounds(Some(start), Some(fileSize - 1))
  {
    assert header == BytesUnit + (NatToString(start) + ['-'] + []);
    NoDashInNumber(start);
    OpenRangeParts(header, NatToString(start));
    ParseIntOfNatToString(start);
  }

  /** An open range that reads as `start` and the last byte position of a
      non-empty file is answered with the rest of the file. */
  lemma ToLastByteResponse(header: string, start: nat, fileSize: nat)
    requires start < fileSize <= MaxSafeInteger + 1
    requires header != [] && RangeBounds(header, fileSize) == Bounds(Some(start), Some(fileSize - 1))
    ensures RangeResponse(Some(header), fileSize)
         == PartialContent(start, fileSize - 1, fileSize - start, ContentRange(start, fileSize - 1, fileSize))
  {
    AcceptedBoundsResponse(header, start, fileSize - 1, fileSize);
  }

  /** `bytes=<start>-` runs to the last byte of the file. */
  lemma OpenEndedRangeResponse(header: string, start: nat, fileSize: nat)
    requires start < fileSize <= MaxSafeInteger + 1
    requires header == BytesUnit + NatToString(start) + "-"
    ensures RangeResponse(Some(header), fileSize)
         == PartialContent(start, fileSize - 1, fileSize - start, ContentRange(start, fileSize - 1, fileSize))
  {
    OpenRangeBounds(header, start, fileSize);
    ToLastByteResponse(header, start, fileSize);
  }

  /** On an empty file an open-ended range has the end `-1`, which the file
      stream refuses. */
  lemma EmptyFileOpenRangeFails(header: string, start: nat)
    requires header == BytesUnit + NatToString(start) + "-"
    ensures RangeResponse(Some(header), 0) == JsonError(500, StreamServerError)
  {
    OpenRangeBounds(header, start, 0);
  }

  /** The suffix form `bytes=-<n>` of RFC 7233 has no start position: the
      start reads as `NaN` and the route answers 500. */
  lemma SuffixRangeFails(header: string, n: nat, fileSize: nat)
    requires header == BytesUnit + "-" + NatToString(n)
    ensures RangeResponse(Some(header), fileSize) == JsonError(500, StreamServerError)
  {
    var spec := [] + ['-'] + NatToString(n);
    assert header == BytesUnit + spec;
    RangePartsAfterUnit(spec);
    SplitAtFirst([], '-', NatToString(n));
    assert RangeParts(header)[0] == [];
    assert TrimStart([]) == [];
  }

  /** `<s>-<e>/<z>` splits at `/` into `<s>-<e>` and `<z>`, and the first
      piece at `-` into `<s>` and `<e>`, when the three hold neither. */
  lemma SplitRangeText(x: string, s: string, e: string, z: string)
    requires '-' !in s && '-' !in e && '/' !in s && '/' !in e && '/' !in z
    requires x == s + ['-'] + e + ['/'] + z
    ensures Split(x, '/') == [s + ['-'] + e, z]
    ensures Split(s + ['-'] + e, '-') == [s, e]
  {
    var body := s + ['-'] + e;
    assert '/' !in body by {
      assert forall ch | ch in body :: ch in s || ch == '-' || ch in e;
    }
    SplitInTwo(x, body, '/', z);
    SplitInTwo(body, s, '-', e);
  }

  /** The three numbers of a `Content-Range` value read back with `split`
      and `parseInt`. */
  lemma ContentRangeReadsBack(c: string, start: nat, end: nat, fileSize: nat)
    requires c == ContentRange(start, end, fileSize)
    ensures |c| > 6 && c[..6] == "bytes "
    ensures var pieces := Split(c[6..], '/');
      && |pieces| == 2 && ParseInt(pieces[1]) == Some(fileSize)
      && var ends := Split(pieces[0], '-');
      && |ends| == 2 && ParseInt(ends[0]) == Some(start) && ParseInt(ends[1]) == Some(end)
  {
    var s := NatToString(start);
    var e := NatToString(end);
    var z := NatToString(fileSize);
    var unit := "bytes ";
    assert c == unit + (s + ['-'] + e + ['/'] + z);
    assert c[..6] == unit && c[6..] == s + ['-'] + e + ['/'] + z;
    assert !IsDigit('/') && !IsDigit('-');
    SplitRangeText(c[6..], s, e, z);
    ParseIntOfNatToString(start);
    ParseIntOfNatToString(end);
    ParseIntOfNatToString(fileSize);
  }

  /** `Range: bytes=0-99` on a 1000-byte file: 206 with `Content-Length: 100`
      and `Content-Range: bytes 0-99/1000`. */
  lemma FirstHundredBytes(header: string, fileSize: nat)
    requires header == "bytes=0-99" && fileSize == 1000
    ensures RangeResponse(Some(header), fileSize) == PartialContent(0, 99, 100, "bytes 0-99/1000")
  {
    var zero, ninetyNine := NatToString(0), NatToString(99);
    assert zero == "0" && ninetyNine == "99";
    assert header == BytesUnit + zero + "-" + ninetyNine + [];
    ClosedRangeResponse(header, 0, 99, [], fileSize);
    FirstHundredBytesContentRange();
  }

  /** The `Content-Range` text of the example above. */
  lemma FirstHundredBytesContentRange()
    ensures ContentRange(0, 99, 1000) == "bytes 0-99/1000"
  {
    assert NatToString(0) == "0" && NatToString(99) == "99" && NatToString(1000) == "1000";
  }
}
