/**
 Streams as clients may write them, not only as the writer here does: header blocks of several
 lines in any case, padded lines, blank bytes between messages, and a last line without a line
 feed. What the parser makes of each is stated on the bytes.
 */
module McpFramingForms {
  import opened Wrappers
  import opened ByteStrings
  import opened Sequences
  import opened McpFraming
  import opened McpFramingProofs
  import opened McpFramingRoundTrip

  // ---------------------------------------------------------------------------
  // Header blocks
  // ---------------------------------------------------------------------------

  /** A line of a header block and, unless it is the last one, its end: CR LF or LF. */
  datatype HeaderLine = HeaderLine(text: Bytes, cr: bool)

  function LineEnd(cr: bool): Bytes {
    if cr then [13, 10] else [10]
  }

  function Block(lines: seq<HeaderLine>): Bytes
    requires lines != []
  {
    if |lines| == 1 then lines[0].text else lines[0].text + LineEnd(lines[0].cr) + Block(lines[1..])
  }

  /** Printable ASCII and tabs. */
  predicate IsText(text: Bytes) {
    text != [] && forall i :: 0 <= i < |text| ==> 32 <= text[i] < 127 || text[i] == 9
  }

  /** "content-length:" and "CONTENT-LENGTH:", byte for byte. */
  const LOWER_NAME: Bytes := [99, 111, 110, 116, 101, 110, 116, 45, 108, 101, 110, 103, 116, 104, 58]
  const UPPER_NAME: Bytes := [67, 79, 78, 84, 69, 78, 84, 45, 76, 69, 78, 71, 84, 72, 58]

  predicate IsLengthLine(text: Bytes) {
    |text| >= 15 && forall i :: 0 <= i < 15 ==> text[i] == LOWER_NAME[i] || text[i] == UPPER_NAME[i]
  }

  /** A block as the parser recognises one: its first line gives the length. */
  ghost predicate IsBlock(lines: seq<HeaderLine>) {
    lines != [] && IsLengthLine(lines[0].text) && forall l :: l in lines ==> IsText(l.text)
  }

  /** The announced length; none when it is given twice, is no decimal number, or exceeds 1 MiB. */
  function Announced(lines: seq<HeaderLine>): Option<nat>
    requires lines != [] && |lines[0].text| >= 15
  {
    var value := Trim(lines[0].text[15..]);
    if (exists i :: 1 <= i < |lines| && IsLengthLine(lines[i].text)) || value == [] || !AllDigits(value) then None
    else if DecimalValue(value) > 1_048_576 then None
    else Some(DecimalValue(value))
  }

  function Texts(lines: seq<HeaderLine>): seq<Bytes> {
    if lines == [] then [] else [lines[0].text] + Texts(lines[1..])
  }

  /** In a block a CR is part of a line end with text behind it, and so is an LF. */
  predicate IsDense(b: Bytes) {
    && b != [] && b[0] != 10 && b[0] != 13
    && forall k :: 0 <= k < |b| ==> IsDenseAt(b, k)
  }

  predicate IsDenseAt(b: Bytes, k: nat)
    requires k < |b|
  {
    b[k] < 127 && (b[k] == 13 ==> k + 2 < |b| && b[k + 2] != 13) && (b[k] == 10 ==> k + 1 < |b| && b[k + 1] != 10)
  }

  lemma {:induction false} BlockIsDense(lines: seq<HeaderLine>)
    requires lines != [] && forall l :: l in lines ==> IsText(l.text)
    ensures IsDense(Block(lines))
    ensures |lines[0].text| <= |Block(lines)| && Block(lines)[..|lines[0].text|] == lines[0].text
  {
    hide IsDense, IsText;
    assert lines[0] in lines;
    TextIsDense(lines[0].text);
    if |lines| > 1 {
      BlockIsDense(lines[1..]);
      DenseExtends(lines[0].text, lines[0].cr, Block(lines[1..]));
    }
  }

  lemma TextIsDense(text: Bytes)
    requires IsText(text)
    ensures IsDense(text)
  {
  }

  lemma DenseExtends(text: Bytes, cr: bool, rest: Bytes)
    requires IsText(text) && IsDense(rest)
    ensures IsDense(text + LineEnd(cr) + rest)
  {
    var n := |text| + |LineEnd(cr)|;
    var b := text + LineEnd(cr) + rest;
    assert b[|b| - |rest|..] == rest;
    forall k | 0 <= k < |b| ensures IsDenseAt(b, k) {
      if k >= n {
        DenseBehind(b, rest, k);
      } else {
        assert b[n] == b[n..][0] == rest[0];
        assert k < |text| ==> b[k] == text[k];
        assert k >= |text| ==> b[k] == LineEnd(cr)[k - |text|];
        assert k == n - 1 ==> b[k] == 10;
        assert cr && k == n - 2 ==> b[k] == 13;
      }
    }
  }

  lemma DenseBehind(b: Bytes, rest: Bytes, k: nat)
    requires IsDense(rest) && |rest| <= |b| && b[|b| - |rest|..] == rest && |b| - |rest| <= k < |b|
    ensures IsDenseAt(b, k)
  {
    var i := k - (|b| - |rest|);
    assert IsDenseAt(rest, i);
    assert forall j :: 0 <= j < |rest| ==> b[|b| - |rest| + j] == rest[j];
  }

  /** Where the block ends is found, and no LF LF in front of it. */
  lemma BlockEnds(b: Bytes, tail: Bytes)
    requires IsDense(b)
    ensures var s := b + CRLFCRLF + tail;
      && Find(s, CRLFCRLF) == Some(|b|)
      && (Find(s, LFLF).Some? ==> |b| < Find(s, LFLF).value)
  {
    hide Find;
    var s := b + CRLFCRLF + tail;
    var (crlf, lf) := (Find(s, CRLFCRLF), Find(s, LFLF));
    assert s[|b|..|b| + 4] == CRLFCRLF && MatchesAt(s, CRLFCRLF, |b|);
    assert forall k :: 0 <= k < |b| ==> s[k] == b[k];
    assert s[|b|] == 13;
    MatchStarts(s, LFLF, |b|);
    forall k | 0 <= k < |b| ensures !MatchesAt(s, CRLFCRLF, k) && !MatchesAt(s, LFLF, k) {
      NoSeparatorIn(b, s, k);
    }
  }

  lemma NoSeparatorIn(b: Bytes, s: Bytes, k: nat)
    requires IsDense(b) && k < |b| <= |s| && forall i :: 0 <= i < |b| ==> s[i] == b[i]
    ensures !MatchesAt(s, CRLFCRLF, k) && !MatchesAt(s, LFLF, k)
  {
    assert IsDenseAt(b, k);
  }

  lemma {:induction false} BlockSplits(lines: seq<HeaderLine>)
    requires lines != [] && forall l :: l in lines ==> IsText(l.text)
    ensures SplitLines(Block(lines)) == Texts(lines)
  {
    hide SplitLines, IsText;
    assert lines[0] in lines;
    if |lines| == 1 {
      LastLineSplits(lines[0].text);
      assert Texts(lines[1..]) == [];
    } else {
      LineSplits(lines[0].text, lines[0].cr, Block(lines[1..]));
      BlockSplits(lines[1..]);
    }
  }

  lemma LastLineSplits(text: Bytes)
    requires IsText(text)
    ensures SplitLines(text) == [text]
  {
    hide Find;
    NoLineFeed(text);
  }

  lemma LineSplits(text: Bytes, cr: bool, rest: Bytes)
    requires IsText(text)
    ensures SplitLines(text + LineEnd(cr) + rest) == [text] + SplitLines(rest)
  {
    hide Find;
    var b, at := text + LineEnd(cr) + rest, |text| + |LineEnd(cr)| - 1;
    assert b[at..at + 1] == [LF] && b[at + 1..] == rest && b[..|text|] == text;
    assert forall i :: 0 <= i < |text| ==> b[i] == text[i];
    FoundAt(b, [LF], at);
  }

  lemma LengthLineIsHeader(text: Bytes)
    requires IsText(text)
    ensures IsHeader(text) <==> IsLengthLine(text)
  {
  }

  lemma {:induction false} NoMoreLengths(lines: seq<HeaderLine>)
    requires forall l :: l in lines ==> IsText(l.text)
    ensures HeaderLines(Texts(lines)) == [] <==> forall i :: 0 <= i < |lines| ==> !IsLengthLine(lines[i].text)
  {
    hide IsHeader, IsLengthLine, IsText;
    if lines != [] {
      assert lines[0] in lines;
      LengthLineIsHeader(lines[0].text);
      NoMoreLengths(lines[1..]);
      assert Texts(lines)[1..] == Texts(lines[1..]);
      assert forall i :: 0 <= i < |lines| - 1 ==> lines[1..][i] == lines[i + 1];
      assert (forall i :: 0 <= i < |lines| ==> !IsLengthLine(lines[i].text))
        <==> !IsLengthLine(lines[0].text) && forall i :: 0 <= i < |lines| - 1 ==> !IsLengthLine(lines[1..][i].text);
    }
  }

  /** The block announces what its lines say. */
  lemma BlockAnnounces(lines: seq<HeaderLine>)
    requires IsBlock(lines)
    ensures ParseLength(Block(lines)) == Announced(lines)
  {
    hide IsHeader, IsLengthLine, IsText, Trim, DecimalValue, AllDigits, SplitLines, HeaderLines, Texts, Block;
    BlockIsDense(lines);
    assert Ascii(Block(lines)) == Block(lines) by { DenseIsAscii(Block(lines)); }
    BlockSplits(lines);
    FirstLength(lines);
    assert |lines[0].text| >= 15 by { LengthLineIsLong(lines[0].text); }
  }

  lemma LengthLineIsLong(text: Bytes)
    requires IsLengthLine(text)
    ensures |text| >= 15
  {
  }

  lemma DenseIsAscii(b: Bytes)
    requires IsDense(b)
    ensures Ascii(b) == b
  {
    forall k | 0 <= k < |b| ensures b[k] < 127 {
      assert IsDenseAt(b, k);
    }
  }

  lemma FirstLength(lines: seq<HeaderLine>)
    requires IsBlock(lines)
    ensures var lengths := HeaderLines(Texts(lines));
      && lengths != [] && lengths[0] == lines[0].text
      && (|lengths| == 1 <==> forall i :: 1 <= i < |lines| ==> !IsLengthLine(lines[i].text))
  {
    hide IsHeader, IsLengthLine, IsText;
    assert lines[0] in lines;
    LengthLineIsHeader(lines[0].text);
    NoMoreLengths(lines[1..]);
    assert Texts(lines)[1..] == Texts(lines[1..]);
    assert forall i :: 1 <= i < |lines| ==> lines[i] == lines[1..][i - 1];
    assert forall i :: 0 <= i < |lines| - 1 ==> lines[1..][i] == lines[i + 1];
  }

  /**
   Main result: what the parser does at any header block that ends in CR LF CR LF. It refuses a
   block of more than 8192 bytes or a bad length, waits for the rest of the body, or takes the
   announced bytes behind the separator as the message.
   */
  lemma BlockIsRead(lines: seq<HeaderLine>, tail: Bytes, endOfInput: bool)
    requires IsBlock(lines)
    ensures var b := Block(lines); var s := b + [13, 10, 13, 10] + tail;
      && IsHeader(s) && (|b| <= 8189 ==> HeaderSound(s))
      && NextFrame(s, endOfInput)
           == if |b| > 8192 || Announced(lines).None? then Throw
              else if |tail| < Announced(lines).value then Stop
              else Emit(Some(Frame(tail[..Announced(lines).value], ContentLength)), |b| + 4 + Announced(lines).value)
  {
    hide IsText, Trim, Find, ParseLength, Block, Announced;
    var b := Block(lines);
    var s := b + CRLFCRLF + tail;
    BlockIsDense(lines);
    BlockEnds(b, tail);
    BlockAnnounces(lines);
    assert s[..|b|] == b;
    assert IsHeader(s) by { BlockIsHeader(lines, s); }
    if Announced(lines).Some? {
      var n := Announced(lines).value;
      assert n <= |tail| ==> s[|b| + 4..|b| + 4 + n] == tail[..n];
    }
  }

  lemma BlockIsHeader(lines: seq<HeaderLine>, s: Bytes)
    requires IsBlock(lines) && Block(lines) <= s
    ensures IsHeader(s)
  {
    BlockIsDense(lines);
    LengthLineIsHeader(lines[0].text);
    assert forall i :: 0 <= i < 15 ==> s[i] == Block(lines)[i] == lines[0].text[i];
  }

  // ---------------------------------------------------------------------------
  // Lines
  // ---------------------------------------------------------------------------

  function LineFrame(text: Bytes): Option<Frame> {
    if Trim(text) == [] then None else Some(Frame(Trim(text), Line))
  }

  /** A line of more than 1 MiB is refused; any other is the message that trimming leaves of it, if it leaves one. */
  lemma LineIsRead(text: Bytes, rest: Bytes, endOfInput: bool)
    requires LF !in text && !IsHeader(text)
    ensures var s := text + [10] + rest;
      && !IsHeader(s)
      && NextFrame(s, endOfInput) == if |text| > 1_048_576 then Throw else Emit(LineFrame(text), |text| + 1)
  {
    hide IsHeader, Trim, Find;
    var s := text + [LF] + rest;
    LineIsNoHeader(text);
    KindExtends(text + [LF], rest);
    assert s[|text|..|text| + 1] == [LF] && s[..|text|] == text;
    assert forall i :: 0 <= i < |text| ==> s[i] == text[i];
    FoundAt(s, [LF], |text|);
  }

  /** Without a line feed it waits for more, and is read when the input ends; over 1 MiB it is refused at once. */
  lemma LastLineIsExact(text: Bytes, endOfInput: bool)
    requires text != [] && LF !in text && !IsHeader(text)
    ensures NextFrame(text, endOfInput)
         == if |text| > 1_048_576 then Throw else if endOfInput then Emit(LineFrame(text), |text|) else Stop
  {
    hide IsHeader, Trim, Find;
    NoLineFeed(text);
    assert text[..|text|] == text;
  }

  // ---------------------------------------------------------------------------
  // Streams
  // ---------------------------------------------------------------------------

  /** What a client writes, behind any blank bytes: a line, or a header block with its body. */
  datatype Wire =
    | LineWire(blanks: Bytes, text: Bytes)
    | BlockWire(blanks: Bytes, lines: seq<HeaderLine>, body: Bytes)

  predicate AreBlanks(blanks: Bytes) {
    forall i :: 0 <= i < |blanks| ==> blanks[i] == 9 || blanks[i] == 10 || blanks[i] == 13 || blanks[i] == 32
  }

  predicate IsLine(text: Bytes) {
    text != [] && text[0] !in {9, 10, 13, 32} && LF !in text && !IsHeader(text) && |text| <= 1_048_576
  }

  ghost predicate IsWire(w: Wire) {
    && AreBlanks(w.blanks)
    && match w
       case LineWire(_, text) => IsLine(text)
       case BlockWire(_, lines, body) => IsBlock(lines) && |Block(lines)| <= 8189 && Announced(lines) == Some(|body|)
  }

  function WriteWire(w: Wire): Bytes
    requires w.BlockWire? ==> w.lines != []
  {
    match w
    case LineWire(blanks, text) => blanks + (text + [10])
    case BlockWire(blanks, lines, body) => blanks + (Block(lines) + [13, 10, 13, 10] + body)
  }

  function WriteWires(wires: seq<Wire>): Bytes
    requires forall w :: w in wires && w.BlockWire? ==> w.lines != []
  {
    if wires == [] then [] else WriteWire(wires[0]) + WriteWires(wires[1..])
  }

  /** Bodies behind a header come as they are, lines trimmed, blank lines not at all. */
  function FrameOf(w: Wire): seq<Frame> {
    match w
    case LineWire(_, text) => ToSeq(LineFrame(text))
    case BlockWire(_, _, body) => [Frame(body, ContentLength)]
  }

  function FramesOfWires(wires: seq<Wire>): seq<Frame> {
    if wires == [] then [] else FrameOf(wires[0]) + FramesOfWires(wires[1..])
  }

  lemma BlanksAreSkipped(blanks: Bytes, s: Bytes, endOfInput: bool)
    requires AreBlanks(blanks)
    ensures Extract(blanks + s, endOfInput) == Extract(s, endOfInput) && Regular(blanks + s) == Regular(s)
  {
    hide *;
    BlanksVanish(blanks, s);
    SameBehindBlanks(blanks + s, s, endOfInput);
  }

  lemma BlanksVanish(blanks: Bytes, s: Bytes)
    requires AreBlanks(blanks)
    ensures SkipBlank(blanks + s) == SkipBlank(s)
  {
    hide AreBlanks, SkipBlank;
    AllBlank(blanks);
    SkipBlankExtends(blanks, s);
  }

  lemma SameBehindBlanks(s: Bytes, t: Bytes, endOfInput: bool)
    requires SkipBlank(s) == SkipBlank(t)
    ensures Extract(s, endOfInput) == Extract(t, endOfInput) && Regular(s) == Regular(t)
  {
    hide *;
    ExtractAfterBlanks(s, endOfInput);
    ExtractAfterBlanks(t, endOfInput);
    RegularAfterBlanks(s, t);
  }

  lemma {:induction false} AllBlank(blanks: Bytes)
    requires AreBlanks(blanks)
    ensures SkipBlank(blanks) == []
  {
    if blanks != [] {
      AllBlank(blanks[1..]);
    }
  }

  /** One round in front of a regular stream. */
  lemma RoundOff(w: Bytes, rest: Bytes, frame: Option<Frame>, endOfInput: bool)
    requires w != [] && !IsBlank(w[0]) && Regular(rest) && (IsHeader(w + rest) ==> HeaderSound(w + rest))
    requires NextFrame(w + rest, false) == Emit(frame, |w|) && NextFrame(w + rest, endOfInput) == Emit(frame, |w|)
    ensures Regular(w + rest) && Extract(w + rest, endOfInput) == Prepend(ToSeq(frame), Extract(rest, endOfInput))
  {
    hide NextFrame, HeaderSound, IsHeader, IsBlank, Extract, Regular, Prepend;
    var s := w + rest;
    assert s[0] == w[0] && s[|w|..] == rest;
    RegularFromRound(s);
    ExtractAfterBlanks(s, endOfInput);
  }

  lemma WireThenRest(w: Wire, rest: Bytes, endOfInput: bool)
    requires IsWire(w) && Regular(rest)
    ensures Regular(WriteWire(w) + rest)
    ensures Extract(WriteWire(w) + rest, endOfInput) == Prepend(FrameOf(w), Extract(rest, endOfInput))
  {
    hide Extract, Regular, NextFrame, IsHeader, HeaderSound, IsBlock, IsLine, Block, Announced, Prepend, AreBlanks, LineFrame;
    match w {
      case LineWire(blanks, text) =>
        assert text != [] && LF !in text && !IsHeader(text) && |text| <= 1_048_576 && !IsBlank(text[0]) by { LineFacts(text); }
        LineIsRead(text, rest, endOfInput);
        LineIsRead(text, rest, false);
        RoundOff(text + [10], rest, LineFrame(text), endOfInput);
        BlanksAreSkipped(blanks, text + [10] + rest, endOfInput);
        assert WriteWire(w) + rest == blanks + (text + [10] + rest);
      case BlockWire(blanks, lines, body) =>
        assert lines != [] by { BlockHasLines(lines); }
        var b := Block(lines) + [13, 10, 13, 10] + body;
        var s := Block(lines) + [13, 10, 13, 10] + (body + rest);
        assert b + rest == s && (body + rest)[..|body|] == body;
        BlockIsRead(lines, body + rest, endOfInput);
        BlockIsRead(lines, body + rest, false);
        assert |Block(lines)| > 0 && !IsBlank(Block(lines)[0]) by { BlockFacts(lines); }
        RoundOff(b, rest, Some(Frame(body, ContentLength)), endOfInput);
        BlanksAreSkipped(blanks, s, endOfInput);
        assert WriteWire(w) + rest == blanks + s;
    }
  }

  lemma LineFacts(text: Bytes)
    requires IsLine(text)
    ensures text != [] && LF !in text && !IsHeader(text) && |text| <= 1_048_576 && !IsBlank(text[0])
  {
  }

  lemma BlockHasLines(lines: seq<HeaderLine>)
    requires IsBlock(lines)
    ensures lines != []
  {
  }

  lemma BlockFacts(lines: seq<HeaderLine>)
    requires IsBlock(lines)
    ensures |Block(lines)| > 0 && !IsBlank(Block(lines)[0])
  {
    BlockIsDense(lines);
    assert Block(lines)[0] == Block(lines)[..|lines[0].text|][0] == lines[0].text[0];
  }

  lemma {:induction false} WiresThenRest(wires: seq<Wire>, rest: Bytes, endOfInput: bool)
    requires (forall w :: w in wires ==> IsWire(w)) && Regular(rest)
    ensures forall w :: w in wires && w.BlockWire? ==> w.lines != []
    ensures Regular(WriteWires(wires) + rest)
    ensures Extract(WriteWires(wires) + rest, endOfInput) == Prepend(FramesOfWires(wires), Extract(rest, endOfInput))
  {
    hide Extract, Regular, Prepend, WriteWire, FrameOf, IsWire;
    WiresHaveLines(wires);
    if wires == [] {
      assert [] + rest == rest;
      PrependNone(Extract(rest, endOfInput));
    } else {
      var w := wires[0];
      assert w in wires;
      var more := WriteWires(wires[1..]) + rest;
      WiresThenRest(wires[1..], rest, endOfInput);
      WireThenRest(w, more, endOfInput);
      assert WriteWires(wires) + rest == WriteWire(w) + more;
      PrependTwice(FrameOf(w), FramesOfWires(wires[1..]), Extract(rest, endOfInput));
    }
  }

  lemma WiresHaveLines(wires: seq<Wire>)
    requires forall w :: w in wires ==> IsWire(w)
    ensures forall w :: w in wires && w.BlockWire? ==> w.lines != []
  {
    hide Block, Announced;
  }

  /** What is left at the end: blank bytes and perhaps a line without a line feed. */
  lemma EndIsRead(blanks: Bytes, last: Bytes)
    requires AreBlanks(blanks) && (last == [] || IsLine(last))
    ensures Regular(blanks + last) && Extract(blanks + last, true) == Extracted(ToSeq(LineFrame(last)), [])
  {
    hide Extract, Regular, IsLine, Trim, AreBlanks;
    BlanksAreSkipped(blanks, last, true);
    if last == [] {
      EmptyIsRegular();
      ExtractAfterBlanks([], true);
      TrimOfNothing();
    } else {
      assert last != [] && LF !in last && !IsHeader(last) && |last| <= 1_048_576 && !IsBlank(last[0]) by { LineFacts(last); }
      LastLineIsRead(last);
    }
  }

  /**
   Main result: any such stream, in any chunks, is forwarded message by message: bodies behind
   headers as they are, lines trimmed, a last line without its line feed included, and the
   input ends cleanly.
   */
  lemma EveryFormIsServed(wires: seq<Wire>, blanks: Bytes, last: Bytes, chunks: seq<Bytes>)
    requires (forall w :: w in wires ==> IsWire(w)) && AreBlanks(blanks) && (last == [] || IsLine(last))
    requires forall w :: w in wires && w.BlockWire? ==> w.lines != []
    requires Concat(chunks) == WriteWires(wires) + (blanks + last)
    ensures Finish(Feed([], chunks)) == (FramesOfWires(wires) + ToSeq(LineFrame(last)), true)
  {
    hide Extract, Regular, Feed, Finish, Trim, IsWire, IsLine, AreBlanks, WriteWires, FramesOfWires, Prepend, LineFrame;
    EndIsRead(blanks, last);
    WiresThenRest(wires, blanks + last, true);
    PrependExtracted(FramesOfWires(wires), Extract(blanks + last, true));
    TrimOfNothing();
    if chunks == [] {
      NothingServed();
      assert WriteWires(wires) + (blanks + last) == [];
    } else {
      ServingIsOnePass(chunks);
    }
  }

  /** A header block at the end, with some of its body missing. */
  lemma UnfinishedIsLeft(lines: seq<HeaderLine>, tail: Bytes)
    requires IsBlock(lines) && |Block(lines)| <= 8189 && Announced(lines).Some? && |tail| < Announced(lines).value
    ensures var s := Block(lines) + [13, 10, 13, 10] + tail;
      Regular(s) && Extract(s, true) == Extracted([], s) && Trim(s) != []
  {
    hide Extract, NextFrame, IsHeader, HeaderSound, IsLengthLine, IsText, Block, Announced, Trim;
    var s := Block(lines) + [13, 10, 13, 10] + tail;
    BlockIsRead(lines, tail, true);
    BlockIsRead(lines, tail, false);
    assert |Block(lines)| > 0 && 65 <= Block(lines)[0] <= 122 by { BlockStarts(lines); }
    assert s[0] == Block(lines)[0];
    ExtractAfterBlanks(s, true);
    LetterStays(s);
  }

  lemma BlockStarts(lines: seq<HeaderLine>)
    requires IsBlock(lines)
    ensures |Block(lines)| > 0 && 65 <= Block(lines)[0] <= 122
  {
    BlockFacts(lines);
    BlockIsDense(lines);
    assert Block(lines)[0] == Block(lines)[..|lines[0].text|][0] == lines[0].text[0];
  }

  lemma LetterStays(s: Bytes)
    requires s != [] && 65 <= s[0] <= 122
    ensures Trim(s) != []
  {
    assert WhitePrefix(s) == 0 && TrimStart(s) == s;
    LetterStaysFirst(s);
  }

  lemma {:induction false} LetterStaysFirst(s: Bytes)
    requires s != [] && 65 <= s[0] <= 122
    ensures TrimEnd(s) != []
    decreases |s|
  {
    if WhiteSuffix(s) > 0 {
      LetterStaysFirst(s[..|s| - WhiteSuffix(s)]);
    }
  }

  /** Behind any such stream it is an error, and the messages before it are forwarded all the same. */
  lemma UnfinishedIsReported(wires: seq<Wire>, lines: seq<HeaderLine>, tail: Bytes, chunks: seq<Bytes>)
    requires forall w :: w in wires ==> IsWire(w)
    requires forall w :: w in wires && w.BlockWire? ==> w.lines != []
    requires IsBlock(lines) && |Block(lines)| <= 8189 && Announced(lines).Some? && |tail| < Announced(lines).value
    requires Concat(chunks) == WriteWires(wires) + (Block(lines) + [13, 10, 13, 10] + tail)
    ensures Finish(Feed([], chunks)) == (FramesOfWires(wires), false)
  {
    hide Extract, Regular, Feed, Finish, Trim, IsWire, IsLengthLine, IsText, Announced, WriteWires, FramesOfWires, Prepend;
    var s := Block(lines) + [13, 10, 13, 10] + tail;
    UnfinishedIsLeft(lines, tail);
    WiresThenRest(wires, s, true);
    PrependExtracted(FramesOfWires(wires), Extract(s, true));
    assert FramesOfWires(wires) + [] == FramesOfWires(wires);
    assert chunks != [];
    ServingIsOnePass(chunks);
  }

  // ---------------------------------------------------------------------------
  // What trimming removes
  // ---------------------------------------------------------------------------

  /** The white space and line terminators of section 12 of ECMA-262, in UTF-8. */
  predicate IsWhite(w: Bytes) {
    || w == [9] || w == [10] || w == [11] || w == [12] || w == [13] || w == [32]
    || w == [0xC2, 0xA0] || w == [0xE1, 0x9A, 0x80] || w == [0xE3, 0x80, 0x80] || w == [0xEF, 0xBB, 0xBF]
    || w == [0xE2, 0x80, 0xA8] || w == [0xE2, 0x80, 0xA9] || w == [0xE2, 0x80, 0xAF] || w == [0xE2, 0x81, 0x9F]
    || (|w| == 3 && w[0] == 0xE2 && w[1] == 0x80 && 0x80 <= w[2] <= 0x8A)
  }

  ghost predicate AllWhite(ws: seq<Bytes>) {
    forall w :: w in ws ==> IsWhite(w)
  }

  /** No white space at either end. */
  ghost predicate IsCore(core: Bytes) {
    core != [] && forall w :: IsWhite(w) ==> !(w <= core) && !(|w| <= |core| && core[|core| - |w|..] == w)
  }

  lemma WhiteIsPrefix(w: Bytes, rest: Bytes)
    requires IsWhite(w)
    ensures WhitePrefix(w + rest) == |w| && 0 < |w|
  {
    assert (w + rest)[0] == w[0];
    assert |w| > 1 ==> (w + rest)[1] == w[1];
    assert |w| > 2 ==> (w + rest)[2] == w[2];
  }

  lemma WhiteIsSuffix(rest: Bytes, w: Bytes)
    requires IsWhite(w)
    ensures WhiteSuffix(rest + w) == |w| && 0 < |w|
  {
    var s, n, k := rest + w, |rest|, |w|;
    assert s[n + k - 1] == w[k - 1];
    assert k > 1 ==> s[n + k - 2] == w[k - 2];
    assert k > 2 ==> s[n + k - 3] == w[k - 3];
  }

  /** What counts as white space at either end is white space. */
  lemma EndsAreWhite(s: Bytes)
    ensures WhitePrefix(s) > 0 ==> IsWhite(s[..WhitePrefix(s)])
    ensures WhiteSuffix(s) > 0 ==> IsWhite(s[|s| - WhiteSuffix(s)..])
  {
  }

  lemma CoreHasNoWhite(core: Bytes)
    requires IsCore(core)
    ensures WhitePrefix(core) == 0 && WhiteSuffix(core) == 0
  {
    hide IsWhite, WhitePrefix, WhiteSuffix;
    EndsAreWhite(core);
    assert core[..WhitePrefix(core)] <= core;
  }

  /** White space begins with a control, a space or the first byte of a character. */
  lemma WhiteStarts(w: Bytes)
    requires IsWhite(w)
    ensures w != [] && (9 <= w[0] <= 13 || w[0] in {32, 0xC2, 0xE1, 0xE2, 0xE3, 0xEF})
  {
  }

  /** White space behind the core does not complete its bytes to white space. */
  lemma CoreStaysCore(core: Bytes, after: seq<Bytes>)
    requires IsCore(core) && AllWhite(after)
    ensures WhitePrefix(core + Concat(after)) == 0
  {
    hide IsWhite;
    var tail := Concat(after);
    assert core != [] && WhitePrefix(core) == 0 by { CoreHasNoWhite(core); }
    hide IsCore;
    if after != [] {
      WhiteStarts(after[0]);
      assert tail[0] == after[0][0];
    }
    var s := core + tail;
    assert s[0] == core[0];
    assert |s| >= 2 ==> s[1] == if |core| >= 2 then core[1] else tail[0];
    assert |s| >= 3 && |core| >= 2 ==> s[2] == if |core| >= 3 then core[2] else tail[0];
  }

  lemma {:induction false} StartIsTrimmed(before: seq<Bytes>, rest: Bytes)
    requires AllWhite(before)
    ensures TrimStart(Concat(before) + rest) == TrimStart(rest)
  {
    hide WhitePrefix;
    if before == [] {
      assert [] + rest == rest;
    } else {
      var w, more := before[0], Concat(before[1..]) + rest;
      assert w in before && Concat(before) + rest == w + more;
      WhiteIsPrefix(w, more);
      assert (w + more)[|w|..] == more;
      StartIsTrimmed(before[1..], rest);
    }
  }

  lemma {:induction false} EndIsTrimmed(rest: Bytes, after: seq<Bytes>)
    requires AllWhite(after)
    ensures TrimEnd(rest + Concat(after)) == TrimEnd(rest)
    decreases |after|
  {
    hide WhiteSuffix;
    if after == [] {
      assert rest + [] == rest;
    } else {
      var front, w := after[..|after| - 1], after[|after| - 1];
      assert after == front + [w] && w in after;
      ConcatMore(front, w);
      assert rest + Concat(after) == (rest + Concat(front)) + w;
      WhiteIsSuffix(rest + Concat(front), w);
      assert (rest + Concat(front) + w)[..|rest + Concat(front)|] == rest + Concat(front);
      EndIsTrimmed(rest, front);
    }
  }

  /** Trimming takes the white space off both ends of a text, and nothing else; of white space alone it leaves nothing. */
  lemma TrimIsExact(before: seq<Bytes>, core: Bytes, after: seq<Bytes>)
    requires AllWhite(before) && AllWhite(after) && (core == [] || IsCore(core))
    ensures Trim(Concat(before) + (core + Concat(after))) == core
  {
    hide IsWhite, WhitePrefix, WhiteSuffix;
    StartIsTrimmed(before, core + Concat(after));
    if core == [] {
      StartIsTrimmed(after, []);
      assert core + Concat(after) == Concat(after) + [];
      TrimOfNothing();
    } else {
      CoreStaysCore(core, after);
      CoreHasNoWhite(core);
      EndIsTrimmed(core, after);
    }
  }
}
