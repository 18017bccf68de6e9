/**
 Event streams as servers may write them: lines end in LF or CR LF, the space behind a field
 name is optional, data takes several lines, and lines that are no known field say nothing.
 */
module ServerEventForms {
  import opened Wrappers
  import opened JsText
  import opened Sequences
  import opened ServerEvents

  /** A line of a frame. `spaced` puts a space behind the field name, `cr` a carriage return before the line feed. */
  datatype WireLine =
    | EventName(value: Text, spaced: bool, cr: bool)
    | Data(value: Text, spaced: bool, cr: bool)
    | Foreign(value: Text, cr: bool)

  /** Its text without the line end: "event:" or "data:", and the value. */
  function Content(l: WireLine): Text {
    match l
    case EventName(value, spaced, _) => [101, 118, 101, 110, 116, 58] + (if spaced then [32] else []) + value
    case Data(value, spaced, _) => [100, 97, 116, 97, 58] + (if spaced then [32] else []) + value
    case Foreign(value, _) => value
  }

  /**
   What each form cannot say: a line feed, a carriage return at the end of a line that has none
   of its own, a first space in a value written without one, and a foreign line that is blank or
   begins like a field.
   */
  predicate IsWireLine(l: WireLine) {
    var content := Content(l);
    && 10 !in content && (!l.cr && content != [] ==> content[|content| - 1] != 13)
    && (!l.Foreign? && !l.spaced && l.value != [] ==> l.value[0] != 32)
    && (l.Foreign? ==> l.value != [] && !([101, 118, 101, 110, 116, 58] <= l.value) && !([100, 97, 116, 97, 58] <= l.value))
  }

  function LineEnd(cr: bool): Text {
    if cr then [13, 10] else [10]
  }

  function WriteLines(lines: seq<WireLine>): Text {
    if lines == [] then [] else Content(lines[0]) + LineEnd(lines[0].cr) + WriteLines(lines[1..])
  }

  /** Lines up to a blank one. */
  datatype Frame = Frame(lines: seq<WireLine>, cr: bool)

  function WriteFrame(f: Frame): Text {
    WriteLines(f.lines) + LineEnd(f.cr)
  }

  function WriteFrames(frames: seq<Frame>): Text {
    if frames == [] then [] else WriteFrame(frames[0]) + WriteFrames(frames[1..])
  }

  ghost predicate AreFrames(frames: seq<Frame>) {
    forall f, l :: f in frames && l in f.lines ==> IsWireLine(l)
  }

  /** The last name given, or "message". */
  function NameOf(lines: seq<WireLine>): Text {
    if lines == [] then [109, 101, 115, 115, 97, 103, 101]
    else if lines[|lines| - 1].EventName? then lines[|lines| - 1].value
    else NameOf(lines[..|lines| - 1])
  }

  function DataOf(lines: seq<WireLine>): seq<Text> {
    if lines == [] then []
    else DataOf(lines[..|lines| - 1]) + if lines[|lines| - 1].Data? then [lines[|lines| - 1].value] else []
  }

  /** The data lines with line feeds between them. */
  function WithLineFeeds(data: seq<Text>): Text {
    if data == [] then []
    else if |data| == 1 then data[0]
    else WithLineFeeds(data[..|data| - 1]) + [10] + data[|data| - 1]
  }

  /** A frame without data is no event. */
  function EventOf(f: Frame): seq<ServerEvent> {
    if DataOf(f.lines) == [] then [] else [ServerEvent(NameOf(f.lines), WithLineFeeds(DataOf(f.lines)))]
  }

  function EventsOf(frames: seq<Frame>): seq<ServerEvent> {
    if frames == [] then [] else EventOf(frames[0]) + EventsOf(frames[1..])
  }

  // ---------------------------------------------------------------------------
  // Reading
  // ---------------------------------------------------------------------------

  /** The decoder after one line. */
  function After(d: Decoder, l: WireLine): Decoder {
    match l
    case EventName(value, _, _) => d.(event := value)
    case Data(value, _, _) => d.(data := d.data + [value])
    case Foreign(_, _) => d
  }

  lemma LineIsTaken(d: Decoder, l: WireLine)
    requires IsWireLine(l)
    ensures TakeLine(d, Content(l) + if l.cr then [13] else []) == ([], After(d, l))
  {
    var raw := Content(l) + if l.cr then [13] else [];
    if l.cr {
      assert raw[|raw| - 1] == 13 && raw[..|raw| - 1] == Content(l);
    } else {
      assert raw == Content(l);
    }
    assert DropCr(raw) == Content(l);
    FieldIsRead(d, l);
  }

  lemma FieldIsRead(d: Decoder, l: WireLine)
    requires IsWireLine(l)
    ensures var line := Content(l);
      && line != []
      && (HasField(line, EVENT_FIELD) <==> l.EventName?) && (l.EventName? ==> DropSpace(line[6..]) == l.value)
      && (HasField(line, DATA_FIELD) <==> l.Data?) && (l.Data? ==> DropSpace(line[5..]) == l.value)
  {
    var line := Content(l);
    if l.EventName? {
      assert line[0] == 101 && line[6..] == (if l.spaced then [32] else []) + l.value;
    } else if l.Data? {
      assert line[0] == 100 && line[5..] == (if l.spaced then [32] else []) + l.value;
    }
  }

  /** The decoder in the middle of a frame. */
  function Midway(lines: seq<WireLine>, buffer: Text): Decoder {
    Decoder(buffer, NameOf(lines), DataOf(lines))
  }

  lemma {:induction false} LinesAreDrained(lines: seq<WireLine>, k: nat, tail: Text)
    requires k <= |lines| && forall l :: l in lines ==> IsWireLine(l)
    ensures Drain(Midway(lines[..k], WriteLines(lines[k..]) + tail)) == Drain(Midway(lines, tail))
    decreases |lines| - k
  {
    hide Drain, TakeLine, Content, IsWireLine;
    if k == |lines| {
      assert lines[..k] == lines && WriteLines(lines[k..]) + tail == tail;
    } else {
      var l, more := lines[k], WriteLines(lines[k + 1..]) + tail;
      var d := Midway(lines[..k], WriteLines(lines[k..]) + tail);
      assert lines[k..][1..] == lines[k + 1..] && lines[..k + 1][..k] == lines[..k];
      var raw := Content(l) + if l.cr then [13] else [];
      assert d.buffer == raw + [LF] + more;
      NoLineFeedIn(l);
      DrainLine(d, raw, more);
      LineIsTaken(d.(buffer := more), l);
      assert After(d.(buffer := more), l) == Midway(lines[..k + 1], more);
      LinesAreDrained(lines, k + 1, tail);
      assert [] + Drain(Midway(lines, tail)).0 == Drain(Midway(lines, tail)).0;
    }
  }

  lemma NoLineFeedIn(l: WireLine)
    requires IsWireLine(l)
    ensures LF !in Content(l) + if l.cr then [13] else []
  {
  }

  lemma {:induction false} JoinLinesMore(lines: seq<Text>, last: Text)
    requires lines != []
    ensures JoinLines(lines + [last]) == JoinLines(lines) + [10] + last
  {
    if |lines| == 1 {
      assert (lines + [last])[1..] == [last];
    } else {
      assert (lines + [last])[1..] == lines[1..] + [last];
      JoinLinesMore(lines[1..], last);
    }
  }

  lemma {:induction false} JoinedByLineFeeds(data: seq<Text>)
    ensures JoinLines(data) == WithLineFeeds(data)
  {
    if |data| >= 2 {
      JoinedByLineFeeds(data[..|data| - 1]);
      JoinLinesMore(data[..|data| - 1], data[|data| - 1]);
      assert data == data[..|data| - 1] + [data[|data| - 1]];
    }
  }

  /** A frame in any form, in front of any text. */
  lemma FrameReads(f: Frame, tail: Text)
    requires forall l :: l in f.lines ==> IsWireLine(l)
    ensures Drain(START.(buffer := WriteFrame(f) + tail))
         == (EventOf(f) + Drain(START.(buffer := tail)).0, Drain(START.(buffer := tail)).1)
  {
    hide Drain, IsWireLine;
    var rest := LineEnd(f.cr) + tail;
    LinesAreDrained(f.lines, 0, rest);
    assert f.lines[..0] == [] && f.lines[0..] == f.lines && WriteFrame(f) + tail == WriteLines(f.lines) + rest;
    var d := Midway(f.lines, rest);
    var raw := if f.cr then [13] else [];
    assert rest == raw + [LF] + tail;
    DrainLine(d, raw, tail);
    JoinedByLineFeeds(DataOf(f.lines));
  }

  lemma {:induction false} FramesRead(frames: seq<Frame>, rest: Text)
    requires AreFrames(frames) && LF !in rest
    ensures Drain(START.(buffer := WriteFrames(frames) + rest)) == (EventsOf(frames), START.(buffer := rest))
  {
    hide WriteFrame, EventOf, TakeLine, IsWireLine;
    if frames == [] {
      assert WriteFrames(frames) + rest == rest;
    } else {
      assert frames[0] in frames;
      var more := WriteFrames(frames[1..]) + rest;
      assert WriteFrames(frames) + rest == WriteFrame(frames[0]) + more;
      FrameReads(frames[0], more);
      FramesRead(frames[1..], rest);
    }
  }

  /**
   Main result: frames in any of these forms, with an unfinished line behind them, cut into any
   chunks the decoder takes, give one event for each frame with data, under the last name it
   gives and with its data lines joined by line feeds; the unfinished line is pending.
   */
  lemma EveryFormReads(frames: seq<Frame>, rest: Text, chunks: seq<Text>)
    requires AreFrames(frames) && LF !in rest
    requires Concat(chunks) == WriteFrames(frames) + rest && ReceiveAll(START, chunks).Some?
    ensures ReceiveAll(START, chunks) == Some((EventsOf(frames), START.(buffer := rest)))
  {
    ChunksDoNotMatter(START, chunks);
    assert [] + Concat(chunks) == Concat(chunks);
    FramesRead(frames, rest);
  }

  lemma {:induction false} SizeOfData(data: seq<Text>)
    ensures DataSize(data) == |Concat(data)|
  {
    if data != [] {
      SizeOfData(data[1..]);
    }
  }

  /** A chunk is refused exactly when the unfinished line with it and the data before it exceed 1 MiB. */
  lemma OversizeIsExact(d: Decoder, chunk: Text)
    ensures Receive(d, chunk).None? <==> |d.buffer + chunk| + |Concat(d.data)| > 1_048_576
  {
    SizeOfData(d.data);
  }

  /** What the printer writes: the name, then the data, spaced and with plain line feeds. */
  lemma PrinterForm(e: ServerEvent)
    ensures FormatSse(e) == WriteFrame(Frame([EventName(e.event, true, false), Data(e.data, true, false)], false))
  {
    var lines := [EventName(e.event, true, false), Data(e.data, true, false)];
    assert lines[1..] == [lines[1]] && lines[1..][1..] == [];
    assert WriteLines([]) == [];
    assert WriteLines([lines[1]]) == Content(lines[1]) + [10] + [];
    assert WriteLines(lines) == Content(lines[0]) + [10] + WriteLines([lines[1]]);
  }
}
