/**
 JSON-RPC framing over standard input and output: Content-Length headers or one message a
 line. Message texts are kept as the bytes they decode from.
 */
module McpFraming {
  import opened Wrappers
  import opened ByteStrings

  datatype Framing = ContentLength | Line
  datatype Frame = Frame(body: Bytes, framing: Framing)

  const MAX_FRAME_BYTES := 1024 * 1024
  const MAX_HEADER_BYTES := 8192
  const LF: Byte := 10
  const CR: Byte := 13
  const CRLFCRLF: Bytes := [13, 10, 13, 10]
  const LFLF: Bytes := [10, 10]

  // ---------------------------------------------------------------------------
  // Byte searching and trimming
  // ---------------------------------------------------------------------------

  predicate MatchesAt(s: Bytes, pattern: Bytes, i: nat) {
    i + |pattern| <= |s| && s[i..i + |pattern|] == pattern
  }

  /** `Buffer.indexOf`: the first occurrence at or after `from`. */
  function Find(s: Bytes, pattern: Bytes, from: nat := 0): (i: Option<nat>)
    ensures i.Some? ==> from <= i.value && MatchesAt(s, pattern, i.value)
    ensures i.Some? ==> forall k :: from <= k < i.value ==> !MatchesAt(s, pattern, k)
    ensures i.None? ==> forall k :: from <= k ==> !MatchesAt(s, pattern, k)
    decreases |s| - from
  {
    if from + |pattern| > |s| then None
    else if MatchesAt(s, pattern, from) then Some(from)
    else if from == |s| then None
    else Find(s, pattern, from + 1)
  }

  predicate IsBlank(b: Byte) {
    b == 9 || b == 10 || b == 13 || b == 32
  }

  function SkipBlank(s: Bytes): (t: Bytes)
    ensures |t| <= |s| && t == s[|s| - |t|..]
    ensures t != [] ==> !IsBlank(t[0])
    ensures s != [] && !IsBlank(s[0]) ==> t == s
  {
    if s != [] && IsBlank(s[0]) then SkipBlank(s[1..]) else s
  }

  // The UTF-8 encodings of the characters `String.trim` removes, by length.

  predicate White1(a: Byte) {
    9 <= a <= 13 || a == 32
  }

  predicate White2(a: Byte, b: Byte) {
    a == 0xC2 && b == 0xA0
  }

  predicate White3(a: Byte, b: Byte, c: Byte) {
    || (a == 0xE2 && b == 0x80 && (0x80 <= c <= 0x8A || c == 0xA8 || c == 0xA9 || c == 0xAF))
    || (a == 0xE1 && b == 0x9A && c == 0x80)
    || (a == 0xE2 && b == 0x81 && c == 0x9F)
    || (a == 0xE3 && b == 0x80 && c == 0x80)
    || (a == 0xEF && b == 0xBB && c == 0xBF)
  }

  function WhitePrefix(s: Bytes): (n: nat)
    ensures n <= |s|
  {
    if |s| >= 1 && White1(s[0]) then 1
    else if |s| >= 2 && White2(s[0], s[1]) then 2
    else if |s| >= 3 && White3(s[0], s[1], s[2]) then 3
    else 0
  }

  function WhiteSuffix(s: Bytes): (n: nat)
    ensures n <= |s|
  {
    var k := |s|;
    if k >= 1 && White1(s[k - 1]) then 1
    else if k >= 2 && White2(s[k - 2], s[k - 1]) then 2
    else if k >= 3 && White3(s[k - 3], s[k - 2], s[k - 1]) then 3
    else 0
  }

  function TrimStart(s: Bytes): (t: Bytes)
    ensures WhitePrefix(t) == 0
    ensures |t| <= |s|
    decreases |s|
  {
    if WhitePrefix(s) == 0 then s else TrimStart(s[WhitePrefix(s)..])
  }

  function TrimEnd(s: Bytes): (t: Bytes)
    ensures WhiteSuffix(t) == 0
    ensures |t| <= |s| && t == s[..|t|]
    decreases |s|
  {
    if WhiteSuffix(s) == 0 then s else TrimEnd(s[..|s| - WhiteSuffix(s)])
  }

  function Trim(s: Bytes): Bytes {
    TrimEnd(TrimStart(s))
  }

  lemma TrimmedStaysTrimmed(s: Bytes)
    ensures Trim(Trim(s)) == Trim(s)
    ensures Trim(s) != [] ==> !IsBlank(Trim(s)[0])
  {
  }

  // ---------------------------------------------------------------------------
  // The Content-Length header
  // ---------------------------------------------------------------------------

  /** Decoding as ASCII clears the high bit. */
  function Ascii(s: Bytes): (t: Bytes)
    ensures |t| == |s| && forall i :: 0 <= i < |s| ==> t[i] == s[i] % 128
  {
    seq(|s|, i requires 0 <= i < |s| => s[i] % 128)
  }

  function Lower(b: Byte): Byte {
    if 65 <= b <= 90 then b + 32 else b
  }

  /** "content-length:" */
  const CONTENT_LENGTH: Bytes := [99, 111, 110, 116, 101, 110, 116, 45, 108, 101, 110, 103, 116, 104, 58]

  predicate IsHeader(s: Bytes) {
    |s| >= 15 && forall i :: 0 <= i < 15 ==> Lower(s[i] % 128) == CONTENT_LENGTH[i]
  }

  /** Splitting at line feeds, each with the carriage return before it. */
  function SplitLines(s: Bytes): (lines: seq<Bytes>)
    decreases |s|
  {
    var i := Find(s, [LF]);
    if i.None? then [s]
    else
      var end := if i.value > 0 && s[i.value - 1] == CR then i.value - 1 else i.value;
      [s[..end]] + SplitLines(s[i.value + 1..])
  }

  function HeaderLines(lines: seq<Bytes>): seq<Bytes> {
    if lines == [] then []
    else if IsHeader(lines[0]) then [lines[0]] + HeaderLines(lines[1..])
    else HeaderLines(lines[1..])
  }

  predicate IsDigit(b: Byte) {
    48 <= b <= 57
  }

  predicate AllDigits(digits: Bytes) {
    forall i :: 0 <= i < |digits| ==> IsDigit(digits[i])
  }

  function DecimalValue(digits: Bytes): nat
    requires AllDigits(digits)
  {
    if digits == [] then 0 else DecimalValue(digits[..|digits| - 1]) * 10 + (digits[|digits| - 1] - 48) as int
  }

  /** The announced body length; `None` stands for the thrown error. */
  function ParseLength(header: Bytes): (n: Option<nat>)
    ensures n.Some? ==> n.value <= MAX_FRAME_BYTES
  {
    var lengths := HeaderLines(SplitLines(Ascii(header)));
    if |lengths| != 1 || |lengths[0]| < 15 then None
    else
      var value := Trim(lengths[0][15..]);
      if value == [] || !AllDigits(value) || DecimalValue(value) > MAX_FRAME_BYTES
      then None else Some(DecimalValue(value))
  }

  // ---------------------------------------------------------------------------
  // Extraction
  // ---------------------------------------------------------------------------

  datatype Step = Throw | Stop | Emit(frame: Option<Frame>, consumed: nat)

  /** Where the header block ends and how long its separator is. */
  function HeaderEnd(s: Bytes): (end: Option<(nat, nat)>)
    ensures end.Some? ==> end.value.1 > 0 && end.value.0 + end.value.1 <= |s|
  {
    var crlf := Find(s, CRLFCRLF);
    if crlf.Some? then Some((crlf.value, 4))
    else
      var lf := Find(s, LFLF);
      if lf.Some? then Some((lf.value, 2)) else None
  }

  /** One round of the extraction loop on input that starts with no blank. */
  function NextFrame(s: Bytes, endOfInput: bool): (step: Step)
    requires s != []
    ensures step.Emit? ==> 0 < step.consumed <= |s|
  {
    if IsHeader(s) then
      var end := HeaderEnd(s);
      if end.None? then (if |s| > MAX_HEADER_BYTES then Throw else Stop)
      else if end.value.0 > MAX_HEADER_BYTES then Throw
      else
        var length := ParseLength(s[..end.value.0]);
        if length.None? then Throw
        else
          var bodyStart := end.value.0 + end.value.1;
          var bodyEnd := bodyStart + length.value;
          if |s| < bodyEnd then Stop
          else Emit(Some(Frame(s[bodyStart..bodyEnd], ContentLength)), bodyEnd)
    else
      var lineEnd := Find(s, [LF]);
      var end := if lineEnd.None? then |s| else lineEnd.value;
      if end > MAX_FRAME_BYTES then Throw
      else if lineEnd.None? && !endOfInput then Stop
      else
        var body := Trim(s[..end]);
        Emit(if body != [] then Some(Frame(body, Line)) else None, if lineEnd.None? then end else end + 1)
  }

  datatype Extraction = Thrown | Extracted(frames: seq<Frame>, remaining: Bytes)

  function Prepend(frames: seq<Frame>, e: Extraction): Extraction {
    if e.Thrown? then Thrown else Extracted(frames + e.frames, e.remaining)
  }

  function ToSeq<T>(o: Option<T>): seq<T> {
    if o.Some? then [o.value] else []
  }

  /** All frames that are complete in `s`, and the bytes that are not consumed. */
  function Extract(s: Bytes, endOfInput: bool): (e: Extraction)
    decreases |s|
  {
    var t := SkipBlank(s);
    if t == [] then Extracted([], [])
    else
      match NextFrame(t, endOfInput)
      case Throw => Thrown
      case Stop => Extracted([], t)
      case Emit(frame, consumed) => Prepend(ToSeq(frame), Extract(t[consumed..], endOfInput))
  }

  /** `Extract`, one blank or one round at a time. */
  lemma ExtractAfterBlanks(s: Bytes, endOfInput: bool)
    ensures Extract(s, endOfInput) == Extract(SkipBlank(s), endOfInput)
    ensures s == [] ==> Extract(s, endOfInput) == Extracted([], [])
    ensures s != [] && !IsBlank(s[0]) ==>
      var step := NextFrame(s, endOfInput);
      Extract(s, endOfInput) == if step.Throw? then Thrown
                                else if step.Stop? then Extracted([], s)
                                else Prepend(ToSeq(step.frame), Extract(s[step.consumed..], endOfInput))
  {
    hide NextFrame;
    assert SkipBlank(SkipBlank(s)) == SkipBlank(s);
  }

  lemma PrependTwice(a: seq<Frame>, b: seq<Frame>, e: Extraction)
    ensures Prepend(a, Prepend(b, e)) == Prepend(a + b, e)
  {
  }

  lemma PrependNone(e: Extraction)
    ensures Prepend([], e) == e
  {
  }

  lemma PrependStop(frames: seq<Frame>, remaining: Bytes)
    ensures Prepend(frames, Extracted([], remaining)) == Extracted(frames, remaining)
    ensures Prepend(frames, Thrown) == Thrown
  {
  }

  method SkipBlanks(s: Bytes) returns (t: Bytes)
    ensures t == SkipBlank(s)
  {
    t := s;
    while |t| > 0 && IsBlank(t[0])
      invariant SkipBlank(s) == SkipBlank(t)
      decreases |t|
    {
      t := t[1..];
    }
  }

  /** One round of the loop, with `frames` found so far. */
  lemma ExtractRound(frames: seq<Frame>, s: Bytes, endOfInput: bool)
    ensures SkipBlank(s) == [] ==> Prepend(frames, Extract(s, endOfInput)) == Extracted(frames, [])
    ensures SkipBlank(s) != [] ==>
      var t := SkipBlank(s);
      var step := NextFrame(t, endOfInput);
      Prepend(frames, Extract(s, endOfInput)) == if step.Throw? then Thrown
                                                 else if step.Stop? then Extracted(frames, t)
                                                 else Prepend(frames + ToSeq(step.frame), Extract(t[step.consumed..], endOfInput))
  {
    hide NextFrame, Extract, Prepend, IsBlank, ToSeq, SkipBlank;
    var t := SkipBlank(s);
    ExtractAfterBlanks(s, endOfInput);
    ExtractAfterBlanks(t, endOfInput);
    PrependStop(frames, t);
    if t != [] && NextFrame(t, endOfInput).Emit? {
      var step := NextFrame(t, endOfInput);
      PrependTwice(frames, ToSeq(step.frame), Extract(t[step.consumed..], endOfInput));
    }
  }

  /** The source's loop, proved against `Extract`. */
  method ExtractMcpFrames(buffer: Bytes, endOfInput: bool) returns (e: Extraction)
    ensures e == Extract(buffer, endOfInput)
  {
    hide NextFrame, Extract, Prepend, SkipBlank, IsBlank, ToSeq;
    var frames: seq<Frame> := [];
    var remaining := buffer;
    PrependNone(Extract(buffer, endOfInput));
    while |remaining| > 0
      invariant Extract(buffer, endOfInput) == Prepend(frames, Extract(remaining, endOfInput))
      decreases |remaining|
    {
      ExtractRound(frames, remaining, endOfInput);
      remaining := SkipBlanks(remaining);
      if |remaining| == 0 {
        return Extracted(frames, remaining);
      }
      var step := NextFrame(remaining, endOfInput);
      if step.Throw? {
        return Thrown;
      }
      if step.Stop? {
        return Extracted(frames, remaining);
      }
      frames := frames + ToSeq(step.frame);
      remaining := remaining[step.consumed..];
    }
    ExtractAfterBlanks([], endOfInput);
    PrependStop(frames, []);
    e := Extracted(frames, remaining);
  }

  // ---------------------------------------------------------------------------
  // The buffering loop
  // ---------------------------------------------------------------------------

  datatype Served = Failed(forwarded: seq<Frame>) | Serving(forwarded: seq<Frame>, buffer: Bytes)

  function Forwarding(frames: seq<Frame>, s: Served): Served {
    s.(forwarded := frames + s.forwarded)
  }

  /** What is forwarded while the chunks arrive, starting with `buffer` pending. */
  function Feed(buffer: Bytes, chunks: seq<Bytes>): Served
    decreases |chunks|
  {
    if chunks == [] then Serving([], buffer)
    else
      match Extract(buffer + chunks[0], false)
      case Thrown => Failed([])
      case Extracted(frames, remaining) => Forwarding(frames, Feed(remaining, chunks[1..]))
  }

  /** The end of input: an unterminated last line is a message, an unfinished header block is an error. */
  function Finish(s: Served): (seq<Frame>, bool) {
    match s
    case Failed(frames) => (frames, false)
    case Serving(frames, buffer) =>
      match Extract(buffer, true)
      case Thrown => (frames, false)
      case Extracted(more, remaining) => (frames + more, Trim(remaining) == [])
  }

  /** One chunk more, with `forwarded` out already. */
  lemma FeedRound(forwarded: seq<Frame>, buffer: Bytes, chunks: seq<Bytes>)
    ensures chunks == [] ==> Forwarding(forwarded, Feed(buffer, chunks)) == Serving(forwarded, buffer)
    ensures chunks != [] ==>
      var e := Extract(buffer + chunks[0], false);
      Forwarding(forwarded, Feed(buffer, chunks)) == if e.Thrown? then Failed(forwarded)
                                                     else Forwarding(forwarded + e.frames, Feed(e.remaining, chunks[1..]))
  {
    hide Extract;
    assert forwarded + [] == forwarded;
    if chunks != [] && Extract(buffer + chunks[0], false).Extracted? {
      var e := Extract(buffer + chunks[0], false);
      var rest := Feed(e.remaining, chunks[1..]);
      assert forwarded + (e.frames + rest.forwarded) == forwarded + e.frames + rest.forwarded;
    }
  }

  /** `serveMcpStdio`: the forwarded frames, and whether it ends without an error. */
  method ServeMcpStdio(chunks: seq<Bytes>) returns (forwarded: seq<Frame>, clean: bool)
    ensures (forwarded, clean) == Finish(Feed([], chunks))
  {
    hide Extract, Trim, Feed;
    var buffer: Bytes := [];
    forwarded := [];
    assert Forwarding([], Feed([], chunks)) == Feed([], chunks);
    for i := 0 to |chunks|
      invariant Feed([], chunks) == Forwarding(forwarded, Feed(buffer, chunks[i..]))
    {
      FeedRound(forwarded, buffer, chunks[i..]);
      assert chunks[i..][1..] == chunks[i + 1..];
      var parsed := ExtractMcpFrames(buffer + chunks[i], false);
      if parsed.Thrown? {
        return forwarded, false;
      }
      forwarded, buffer := forwarded + parsed.frames, parsed.remaining;
    }
    FeedRound(forwarded, buffer, []);
    var last := ExtractMcpFrames(buffer, true);
    if last.Thrown? {
      return forwarded, false;
    }
    forwarded, clean := forwarded + last.frames, Trim(last.remaining) == [];
  }
}
