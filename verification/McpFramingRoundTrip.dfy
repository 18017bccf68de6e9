/** The framing writer, and the proof that the parser reads back what it writes. */
module McpFramingRoundTrip {
  import opened Wrappers
  import opened ByteStrings
  import opened Sequences
  import opened McpFraming
  import opened McpFramingProofs

  /** "Content-Length: " */
  const HEADER_TEXT: Bytes := [67, 111, 110, 116, 101, 110, 116, 45, 76, 101, 110, 103, 116, 104, 58, 32]

  function Decimal(n: nat): Bytes {
    if n < 10 then [(48 + n) as Byte] else Decimal(n / 10) + [(48 + n % 10) as Byte]
  }

  function HeaderText(n: nat): Bytes {
    HEADER_TEXT + Decimal(n)
  }

  /** `writeMcpFrame`: what goes to the output stream. */
  function Write(framing: Framing, body: Bytes): Bytes {
    var text := Trim(body);
    match framing
    case ContentLength => HeaderText(|text|) + CRLFCRLF + text
    case Line => text + [LF]
  }

  /** A body either framing can carry; JSON-RPC texts start with a brace and qualify. */
  predicate Writable(framing: Framing, body: Bytes) {
    var text := Trim(body);
    && |text| <= MAX_FRAME_BYTES
    && (framing.Line? ==> text != [] && LF !in text && !IsHeader(text))
  }

  // ---------------------------------------------------------------------------
  // Decimal lengths
  // ---------------------------------------------------------------------------

  lemma {:induction false} DecimalRoundTrip(n: nat)
    ensures Decimal(n) != [] && AllDigits(Decimal(n)) && DecimalValue(Decimal(n)) == n
  {
    if n < 10 {
      assert Decimal(n)[..0] == [];
    } else {
      DecimalRoundTrip(n / 10);
      assert Decimal(n)[..|Decimal(n)| - 1] == Decimal(n / 10);
    }
  }

  function Pow10(k: nat): nat {
    if k == 0 then 1 else 10 * Pow10(k - 1)
  }

  lemma {:induction false} DecimalLength(n: nat, k: nat)
    requires 1 <= k && n < Pow10(k)
    ensures |Decimal(n)| <= k
  {
    if n >= 10 {
      DecimalLength(n / 10, k - 1);
    }
  }

  lemma TrimOfPaddedDigits(digits: Bytes)
    requires digits != [] && AllDigits(digits)
    ensures Trim([32] + digits) == digits
  {
    var s := [32] + digits;
    assert s[1..] == digits;
    assert WhitePrefix(digits) == 0 && WhiteSuffix(digits) == 0;
    assert TrimStart(s) == TrimStart(digits) == digits;
  }

  /** Every byte of a written header is plain text. */
  lemma HeaderTextBytes(n: nat)
    ensures |HeaderText(n)| == 16 + |Decimal(n)|
    ensures forall i :: 0 <= i < |HeaderText(n)| ==> 32 <= HeaderText(n)[i] < 128
    ensures IsHeader(HeaderText(n))
  {
    DecimalRoundTrip(n);
    var h := HeaderText(n);
    forall i | 0 <= i < |h| ensures 32 <= h[i] < 128 {
      assert i >= 16 ==> h[i] == Decimal(n)[i - 16] && IsDigit(h[i]);
    }
  }

  lemma WrittenLengthParses(n: nat)
    requires n <= MAX_FRAME_BYTES
    ensures ParseLength(HeaderText(n)) == Some(n)
  {
    var h := HeaderText(n);
    HeaderTextBytes(n);
    assert Ascii(h) == h;
    assert Find(h, [LF]).None? by {
      forall k | 0 <= k < |h| ensures !MatchesAt(h, [LF], k) {
        MatchStarts(h, [LF], k);
      }
    }
    assert SplitLines(h) == [h];
    assert HeaderLines([h]) == [h] by {
      var lines: seq<Bytes> := [h];
      assert lines[1..] == [];
    }
    HeaderLineParses(h, n);
  }

  /** A block whose one Content-Length line is the written one announces the written length. */
  lemma HeaderLineParses(block: Bytes, n: nat)
    requires n <= MAX_FRAME_BYTES && HeaderLines(SplitLines(Ascii(block))) == [HeaderText(n)]
    ensures ParseLength(block) == Some(n)
  {
    hide SplitLines, HeaderLines, Trim;
    HeaderTextBytes(n);
    assert HeaderText(n)[15..] == [32] + Decimal(n);
    DecimalRoundTrip(n);
    TrimOfPaddedDigits(Decimal(n));
  }

  // ---------------------------------------------------------------------------
  // One frame
  // ---------------------------------------------------------------------------

  /** The separator of a written header is found at once and meets the header conditions. */
  lemma WrittenHeaderEnds(n: nat, rest: Bytes)
    requires n <= MAX_FRAME_BYTES
    ensures var s := HeaderText(n) + CRLFCRLF + rest;
      IsHeader(s) && HeaderSound(s) && HeaderEnd(s) == Some((|HeaderText(n)|, 4)) && |HeaderText(n)| <= MAX_HEADER_BYTES - 3
  {
    var h := HeaderText(n);
    var s := h + CRLFCRLF + rest;
    HeaderTextBytes(n);
    assert Pow10(7) == 10_000_000;
    DecimalLength(n, 7);
    KindExtends(h, CRLFCRLF + rest);
    assert s == h + (CRLFCRLF + rest);
    assert s[|h|..|h| + 4] == CRLFCRLF;
    assert MatchesAt(s, CRLFCRLF, |h|);
    forall k | 0 <= k < |h| ensures !MatchesAt(s, CRLFCRLF, k) && !MatchesAt(s, LFLF, k) {
      assert s[k] == h[k];
      MatchStarts(s, CRLFCRLF, k);
      MatchStarts(s, LFLF, k);
    }
    assert s[|h|] == CR;
    MatchStarts(s, LFLF, |h|);
  }

  lemma ContentLengthFrameParses(body: Bytes, rest: Bytes, endOfInput: bool)
    requires Writable(ContentLength, body)
    ensures var w := Write(ContentLength, body);
      && w != [] && !IsBlank(w[0])
      && (IsHeader(w + rest) ==> HeaderSound(w + rest))
      && NextFrame(w + rest, endOfInput) == Emit(Some(Frame(Trim(body), ContentLength)), |w|)
  {
    hide Trim, HeaderSound, IsHeader, HeaderEnd, ParseLength;
    var text := Trim(body);
    var h, w := HeaderText(|text|), Write(ContentLength, body);
    var s := w + rest;
    assert s == h + CRLFCRLF + (text + rest);
    WrittenHeaderEnds(|text|, text + rest);
    WrittenLengthParses(|text|);
    assert s[..|h|] == h;
    assert s[|h| + 4..|h| + 4 + |text|] == text;
  }

  lemma LineFrameParses(body: Bytes, rest: Bytes, endOfInput: bool)
    requires Writable(Line, body)
    ensures var w := Write(Line, body);
      && w != [] && !IsBlank(w[0])
      && !IsHeader(w + rest)
      && NextFrame(w + rest, endOfInput) == Emit(Some(Frame(Trim(body), Line)), |w|)
  {
    hide Trim, IsHeader;
    var text := Trim(body);
    var w := Write(Line, body);
    var s := w + rest;
    TrimmedStaysTrimmed(body);
    assert s == text + ([LF] + rest);
    assert w[|text|] == LF;
    KindExtends(w, rest);
    LineIsNoHeader(text);
    assert Find(s, [LF]) == Some(|text|) by {
      assert s[|text|..|text| + 1] == [LF];
      assert MatchesAt(s, [LF], |text|);
      forall k | 0 <= k < |text| ensures !MatchesAt(s, [LF], k) {
        MatchStarts(s, [LF], k);
        assert s[k] == text[k];
      }
    }
    assert s[..|text|] == text;
  }

  lemma LineIsNoHeader(text: Bytes)
    requires !IsHeader(text) && LF !in text
    ensures !IsHeader(text + [LF])
  {
    if |text| < 15 {
      assert (text + [LF])[|text|] == LF;
    } else {
      KindExtends(text, [LF]);
    }
  }

  // ---------------------------------------------------------------------------
  // All frames
  // ---------------------------------------------------------------------------

  datatype Message = Message(framing: Framing, body: Bytes)

  function WriteAll(messages: seq<Message>): Bytes {
    if messages == [] then []
    else Write(messages[0].framing, messages[0].body) + WriteAll(messages[1..])
  }

  function FramesOf(messages: seq<Message>): seq<Frame> {
    if messages == [] then []
    else [Frame(Trim(messages[0].body), messages[0].framing)] + FramesOf(messages[1..])
  }

  ghost predicate AllWritable(messages: seq<Message>) {
    forall m :: m in messages ==> Writable(m.framing, m.body)
  }

  /** Written frames in front of any regular stream are read first. */
  lemma {:induction false} FramesThenRest(messages: seq<Message>, rest: Bytes, endOfInput: bool)
    requires AllWritable(messages) && Regular(rest)
    ensures Regular(WriteAll(messages) + rest)
    ensures Extract(WriteAll(messages) + rest, endOfInput) == Prepend(FramesOf(messages), Extract(rest, endOfInput))
  {
    hide Trim, Write, Writable, Extract, Regular, Prepend;
    if messages == [] {
      assert [] + rest == rest;
      PrependNone(Extract(rest, endOfInput));
    } else {
      var m, more := messages[0], WriteAll(messages[1..]) + rest;
      FramesThenRest(messages[1..], rest, endOfInput);
      FrameThenRest(m, more, endOfInput);
      assert WriteAll(messages) + rest == Write(m.framing, m.body) + more;
      PrependTwice([Frame(Trim(m.body), m.framing)], FramesOf(messages[1..]), Extract(rest, endOfInput));
    }
  }

  /**
   Main result: parsing the concatenated output of the writer gives back the trimmed bodies
   and their framings in order, and leaves nothing. The output is a regular stream.
   */
  lemma {:induction false} RoundTrip(messages: seq<Message>, endOfInput: bool)
    requires AllWritable(messages)
    ensures Extract(WriteAll(messages), endOfInput) == Extracted(FramesOf(messages), [])
    ensures Regular(WriteAll(messages))
  {
    hide Trim, Write, Writable, Extract, Regular;
    if messages == [] {
      EmptyIsRegular();
      ExtractAfterBlanks([], endOfInput);
    } else {
      var m := messages[0];
      RoundTrip(messages[1..], endOfInput);
      FrameThenRest(m, WriteAll(messages[1..]), endOfInput);
    }
  }

  /** A line that the end of input ends is a message as well, and not before. */
  lemma LastLineIsRead(text: Bytes)
    requires text != [] && !IsBlank(text[0]) && LF !in text && !IsHeader(text) && |text| <= MAX_FRAME_BYTES
    ensures Regular(text) && Extract(text, false) == Extracted([], text)
    ensures Extract(text, true) == Extracted(if Trim(text) == [] then [] else [Frame(Trim(text), Line)], [])
  {
    hide Trim, IsHeader, Extract, IsBlank, Find, Prepend;
    NoLineFeed(text);
    ExtractAfterBlanks(text, true);
    ExtractAfterBlanks(text, false);
    ExtractAfterBlanks([], true);
    assert text[..|text|] == text && text[|text|..] == [];
    PrependStop(if Trim(text) == [] then [] else [Frame(Trim(text), Line)], []);
    assert NextFrame(text, false) == Stop;
    assert SkipBlank(text) == text;
  }

  lemma FrameThenRest(m: Message, rest: Bytes, endOfInput: bool)
    requires Writable(m.framing, m.body) && Regular(rest)
    ensures var s := Write(m.framing, m.body) + rest;
      Regular(s) && Extract(s, endOfInput) == Prepend([Frame(Trim(m.body), m.framing)], Extract(rest, endOfInput))
  {
    hide Trim, Write, Writable, NextFrame, HeaderSound, IsHeader, IsBlank, Extract, Regular, Prepend;
    FrameParses(m, rest, endOfInput);
    FrameParses(m, rest, false);
    var w := Write(m.framing, m.body);
    var s := w + rest;
    assert s[0] == w[0] && s[|w|..] == rest;
    RegularFromRound(s);
    ExtractAfterBlanks(s, endOfInput);
  }

  lemma FrameParses(m: Message, rest: Bytes, endOfInput: bool)
    requires Writable(m.framing, m.body)
    ensures var w := Write(m.framing, m.body);
      && w != [] && !IsBlank(w[0])
      && (IsHeader(w + rest) ==> HeaderSound(w + rest))
      && NextFrame(w + rest, endOfInput) == Emit(Some(Frame(Trim(m.body), m.framing)), |w|)
  {
    hide *;
    match m.framing
    case ContentLength => ContentLengthFrameParses(m.body, rest, endOfInput);
    case Line => LineFrameParses(m.body, rest, endOfInput);
  }

  lemma EmptyIsRegular()
    ensures Regular([])
  {
  }

  lemma RegularFromRound(s: Bytes)
    requires s != [] && !IsBlank(s[0]) && (IsHeader(s) ==> HeaderSound(s)) && NextFrame(s, false).Emit?
    requires Regular(s[NextFrame(s, false).consumed..])
    ensures Regular(s)
  {
  }

  lemma TrimOfNothing()
    ensures Trim([]) == []
  {
  }

  lemma NothingServed()
    ensures Finish(Feed([], [])) == ([], true) && Extract([], true) == Extracted([], [])
  {
    hide *;
    ExtractAfterBlanks([], true);
    TrimOfNothing();
    FeedNothing();
    FinishClean([]);
  }

  lemma FeedNothing()
    ensures Feed([], []) == Serving([], [])
  {
  }

  lemma FinishClean(frames: seq<Frame>)
    requires Extract([], true) == Extracted([], []) && Trim([]) == []
    ensures Finish(Serving(frames, [])) == (frames, true)
  {
    hide Extract, Trim;
    assert frames + [] == frames;
  }

  /**
   Main result: the same with a last message that has no line feed: cut into any chunks, it is
   forwarded behind the others when the input ends.
   */
  lemma PipeWithLastLine(messages: seq<Message>, body: Bytes, chunks: seq<Bytes>)
    requires AllWritable(messages) && Writable(Line, body) && Concat(chunks) == WriteAll(messages) + Trim(body)
    ensures Finish(Feed([], chunks)) == (FramesOf(messages) + [Frame(Trim(body), Line)], true)
  {
    hide Extract, Regular, FramesOf, WriteAll, Feed, Trim, Finish, IsHeader, Prepend;
    var text := Trim(body);
    TrimmedStaysTrimmed(body);
    LastLineIsRead(text);
    FramesThenRest(messages, text, true);
    PrependStop(FramesOf(messages), []);
    PrependExtracted(FramesOf(messages), Extract(text, true));
    TrimOfNothing();
    assert chunks != [];
    ServingIsOnePass(chunks);
  }

  /** The whole pipe: written frames, cut into any chunks, are forwarded one for one. */
  lemma PipeRoundTrip(messages: seq<Message>, chunks: seq<Bytes>)
    requires AllWritable(messages) && Concat(chunks) == WriteAll(messages)
    ensures Finish(Feed([], chunks)) == (FramesOf(messages), true)
  {
    hide Extract, Regular, FramesOf, WriteAll, Feed, Trim, Writable, Finish;
    RoundTrip(messages, true);
    TrimOfNothing();
    if chunks == [] {
      NothingServed();
    } else {
      ServingIsOnePass(chunks);
    }
  }

  // ---------------------------------------------------------------------------
  // Where chunking can be observed
  // ---------------------------------------------------------------------------

  /**
   For an input that begins with a complete frame, exactly: with CR LF CR LF first, the header
   block and three more bytes fit the limit; with LF LF alone, the block and one more byte do;
   with LF LF first and CR LF CR LF behind it, the block that LF LF ends announces a body
   that reaches beyond the byte before the end of CR LF CR LF.
   */
  lemma CompleteFrameCuts(s: Bytes)
    requires s != [] && IsHeader(s) && NextFrame(s, false).Emit?
    ensures var (crlf, lf) := (Find(s, CRLFCRLF), Find(s, LFLF));
      && (crlf.Some? && (lf.Some? ==> crlf.value < lf.value) ==>
            (CutsAgree(s) <==> crlf.value + 3 <= MAX_HEADER_BYTES))
      && (crlf.None? ==>
            lf.Some? && (CutsAgree(s) <==> lf.value + 1 <= MAX_HEADER_BYTES))
      && (crlf.Some? && lf.Some? && lf.value <= crlf.value ==>
            lf.value <= |s| &&
            var length := ParseLength(s[..lf.value]);
            CutsAgree(s) <==> length.Some? && crlf.value + 3 < lf.value + 2 + length.value)
  {
    hide CutsAgree, ParseLength, Find, IsHeader;
    CutsAgreeIsExact(s);
    if Find(s, CRLFCRLF).Some? && Find(s, LFLF).Some? {
      SeparatorsOverlap(s, Find(s, CRLFCRLF).value, Find(s, LFLF).value);
    }
  }

  /** ASCII text of one line that does not look like a Content-Length header. */
  predicate IsPlain(text: Bytes) {
    (forall i :: 0 <= i < |text| ==> 32 <= text[i] < 128) && !IsHeader(text)
  }

  /** A frame whose block ends in LF LF, and what follows when it was meant to end in CR LF CR LF. */
  function ShortBlock(x: Bytes): Bytes {
    HeaderText(|x|) + LFLF + x
  }

  /**
   Mixed separators, on a whole family of streams: the same bytes forward one message when
   they arrive cut behind `x`, and another when they arrive together.
   */
  lemma SeparatorDependsOnTheCut(x: Bytes, y: Bytes)
    requires IsPlain(x) && |x| == |y| && |ShortBlock(x)| <= MAX_HEADER_BYTES && x != y
    ensures var (a, b) := (ShortBlock(x), CRLFCRLF + y);
      && Feed([], [a, b]).forwarded != [] && Feed([], [a, b]).forwarded[0] == Frame(x, ContentLength)
      && Feed([], [a + b]) == Serving([Frame(y, ContentLength)], [])
  {
    hide Extract, ShortBlock;
    var (a, b) := (ShortBlock(x), CRLFCRLF + y);
    EarlyBlock(x);
    LateBlock(x, y);
    assert [] + a == a && [] + (a + b) == a + b;
    assert [a, b][1..] == [b] && [a + b][1..] == [];
  }

  lemma ShortBlockBytes(x: Bytes)
    requires IsPlain(x) && |ShortBlock(x)| <= MAX_HEADER_BYTES
    ensures var (a, n) := (ShortBlock(x), |HeaderText(|x|)|);
      && |a| == n + 2 + |x| && a[..n] == HeaderText(|x|) && a[n..n + 2] == LFLF && a[n + 2..] == x
      && 15 <= n && IsHeader(a) && !IsBlank(a[0])
      && (forall i :: 0 <= i < |a| ==> a[i] < 128 && a[i] != CR && (a[i] == LF <==> n <= i < n + 2))
  {
    hide HeaderText;
    HeaderTextBytes(|x|);
    var a, h := ShortBlock(x), HeaderText(|x|);
    forall i | 0 <= i < |a| ensures a[i] < 128 && a[i] != CR && (a[i] == LF <==> |h| <= i < |h| + 2) {
      assert a[i] == if i < |h| then h[i] else if i < |h| + 2 then LF else x[i - |h| - 2];
    }
    assert forall i :: 0 <= i < 15 ==> a[i] == h[i];
  }

  /** Alone, the short block carries `x`. */
  lemma EarlyBlock(x: Bytes)
    requires IsPlain(x) && |ShortBlock(x)| <= MAX_HEADER_BYTES
    ensures Extract(ShortBlock(x), false) == Extracted([Frame(x, ContentLength)], [])
  {
    hide Extract, Find, IsHeader, IsBlank, ParseLength, HeaderText, ShortBlock, IsPlain;
    var a, n := ShortBlock(x), |HeaderText(|x|)|;
    ShortBlockBytes(x);
    NotFound(a, CRLFCRLF, CR);
    FoundAt(a, LFLF, n);
    WrittenLengthParses(|x|);
    assert a[n + 2..n + 2 + |x|] == a[n + 2..] == x;
    LoneFrame(a, x);
  }

  /** With CR LF CR LF behind it, it is all header, and carries `y`. */
  lemma LateBlock(x: Bytes, y: Bytes)
    requires IsPlain(x) && |x| == |y| && |ShortBlock(x)| <= MAX_HEADER_BYTES
    ensures Extract(ShortBlock(x) + (CRLFCRLF + y), false) == Extracted([Frame(y, ContentLength)], [])
  {
    hide Extract, Find, IsHeader, IsBlank, ParseLength, HeaderText, ShortBlock, IsPlain;
    var a := ShortBlock(x);
    var s := a + (CRLFCRLF + y);
    ShortBlockBytes(x);
    KindExtends(a, CRLFCRLF + y);
    assert s[0] == a[0];
    assert s[|a|..|a| + 4] == CRLFCRLF && s[..|a|] == a && s[|a| + 4..|a| + 4 + |y|] == y;
    assert forall i :: 0 <= i < |a| ==> s[i] == a[i];
    FoundAt(s, CRLFCRLF, |a|);
    ShortBlockParses(x);
    LoneFrame(s, y);
  }

  /** An input that is one frame. */
  lemma LoneFrame(s: Bytes, body: Bytes)
    requires s != [] && !IsBlank(s[0]) && NextFrame(s, false) == Emit(Some(Frame(body, ContentLength)), |s|)
    ensures Extract(s, false) == Extracted([Frame(body, ContentLength)], [])
  {
    hide Extract, NextFrame, IsBlank, Prepend;
    ExtractAfterBlanks(s, false);
    assert s[|s|..] == [];
    ExtractAfterBlanks([], false);
    PrependStop([Frame(body, ContentLength)], []);
  }

  lemma NotFound(s: Bytes, pattern: Bytes, first: Byte)
    requires pattern != [] && pattern[0] == first && first !in s
    ensures Find(s, pattern).None?
  {
    hide Find;
    if Find(s, pattern).Some? {
      MatchReads(s, pattern, Find(s, pattern).value, 0);
    }
  }

  lemma FoundAt(s: Bytes, pattern: Bytes, k: nat)
    requires pattern != [] && MatchesAt(s, pattern, k)
    requires forall i :: 0 <= i < k ==> s[i] != pattern[0]
    ensures Find(s, pattern) == Some(k)
  {
    hide Find;
    if Find(s, pattern).Some? && Find(s, pattern).value < k {
      MatchReads(s, pattern, Find(s, pattern).value, 0);
    }
  }

  lemma EmptyIsNoHeader()
    ensures !IsHeader([])
  {
  }

  lemma OneHeaderLine(h: Bytes, x: Bytes)
    requires IsHeader(h) && !IsHeader(x)
    ensures HeaderLines([h, [], x]) == [h]
  {
    hide IsHeader;
    var none: Bytes := [];
    assert !IsHeader(none) by { EmptyIsNoHeader(); }
    assert [h, none, x][1..] == [none, x] && [none, x][1..] == [x] && [x][1..] == [];
    assert HeaderLines([x]) == [];
    assert HeaderLines([none, x]) == HeaderLines([x]);
  }

  /** Read as a header block, a short block has one Content-Length line. */
  lemma ShortBlockParses(x: Bytes)
    requires IsPlain(x) && |ShortBlock(x)| <= MAX_HEADER_BYTES
    ensures ParseLength(ShortBlock(x)) == Some(|x|)
  {
    hide Find, IsHeader, HeaderText, ShortBlock, Trim;
    var a, h := ShortBlock(x), HeaderText(|x|);
    ShortBlockBytes(x);
    HeaderTextBytes(|x|);
    assert !IsHeader(x);
    assert Ascii(a) == a;
    FoundAt(a, [LF], |h|);
    var tail := a[|h| + 1..];
    assert tail == [LF] + x;
    FoundAt(tail, [LF], 0);
    assert tail[1..] == x;
    NoLineFeed(x);
    assert SplitLines(x) == [x];
    assert SplitLines(a) == [h, [], x];
    OneHeaderLine(h, x);
    HeaderLineParses(a, |x|);
  }
}
