/** The bounded decoder of server-sent events and the printer on the other side. */
module ServerEvents {
  import opened Wrappers
  import opened JsText
  import opened Sequences

  datatype ServerEvent = ServerEvent(event: Text, data: Text)

  const LF: CodeUnit := 10
  const CR: CodeUnit := 13
  const SPACE: CodeUnit := 32
  const MAX_FRAME := 1024 * 1024
  /** "message" */
  const MESSAGE: Text := [109, 101, 115, 115, 97, 103, 101]
  /** "event:" and "data:" */
  const EVENT_FIELD: Text := [101, 118, 101, 110, 116, 58]
  const DATA_FIELD: Text := [100, 97, 116, 97, 58]

  // ---------------------------------------------------------------------------
  // Decoding
  // ---------------------------------------------------------------------------

  /** What the decoder remembers between chunks: the unfinished line and the unfinished event. */
  datatype Decoder = Decoder(buffer: Text, event: Text, data: seq<Text>)

  const START := Decoder([], MESSAGE, [])

  function DropCr(line: Text): Text {
    if line != [] && line[|line| - 1] == CR then line[..|line| - 1] else line
  }

  function DropSpace(value: Text): Text {
    if value != [] && value[0] == SPACE then value[1..] else value
  }

  predicate HasField(line: Text, field: Text) {
    field <= line
  }

  function JoinLines(lines: seq<Text>): Text {
    if lines == [] then []
    else if |lines| == 1 then lines[0]
    else lines[0] + [LF] + JoinLines(lines[1..])
  }

  function DataSize(data: seq<Text>): nat {
    if data == [] then 0 else |data[0]| + DataSize(data[1..])
  }

  /** One complete line, without its line feed; a blank line ends the event. */
  function TakeLine(d: Decoder, raw: Text): (seq<ServerEvent>, Decoder) {
    var line := DropCr(raw);
    if line == [] then
      (if d.data != [] then [ServerEvent(d.event, JoinLines(d.data))] else [], d.(event := MESSAGE, data := []))
    else
      var event := if HasField(line, EVENT_FIELD) then DropSpace(line[6..]) else d.event;
      var data := if HasField(line, DATA_FIELD) then d.data + [DropSpace(line[5..])] else d.data;
      ([], d.(event := event, data := data))
  }

  /** Consumes every complete line of the buffer. */
  function Drain(d: Decoder): (seq<ServerEvent>, Decoder)
    decreases |d.buffer|
  {
    var end := IndexOf(d.buffer, LF);
    if end.None? then ([], d)
    else
      var (first, next) := TakeLine(d.(buffer := d.buffer[end.value + 1..]), d.buffer[..end.value]);
      var (more, last) := Drain(next);
      (first + more, last)
  }

  predicate Fits(d: Decoder) {
    |d.buffer| + DataSize(d.data) <= MAX_FRAME
  }

  /** One chunk; `None` is the error of an oversized frame. */
  function Receive(d: Decoder, chunk: Text): Option<(seq<ServerEvent>, Decoder)> {
    var grown := d.(buffer := d.buffer + chunk);
    if Fits(grown) then Some(Drain(grown)) else None
  }

  function ReceiveAll(d: Decoder, chunks: seq<Text>): Option<(seq<ServerEvent>, Decoder)>
    decreases |chunks|
  {
    if chunks == [] then Some(([], d))
    else
      var first := Receive(d, chunks[0]);
      if first.None? then None
      else
        var rest := ReceiveAll(first.value.1, chunks[1..]);
        if rest.None? then None else Some((first.value.0 + rest.value.0, rest.value.1))
  }

  /** `readServerEvents`: the generator's variables as fields, one call for each chunk read. */
  class ServerEventReader {
    var buffer: Text
    var event: Text
    var data: seq<Text>

    constructor ()
      ensures State() == START
    {
      buffer, event, data := [], MESSAGE, [];
    }

    ghost function State(): Decoder
      reads this
    {
      Decoder(buffer, event, data)
    }

    /** One chunk read: every line it completes is handled. */
    method Read(chunk: Text) returns (events: seq<ServerEvent>, ok: bool)
      modifies this
      ensures ok <==> Receive(old(State()), chunk).Some?
      ensures ok ==> (events, State()) == Receive(old(State()), chunk).value
    {
      hide TakeLine;
      buffer := buffer + chunk;
      if |buffer| + DataSize(data) > MAX_FRAME {
        return [], false;
      }
      events := [];
      ghost var start := State();
      assert [] + Drain(start).0 == Drain(start).0;
      var end := IndexOf(buffer, LF);
      while end.Some?
        invariant end == IndexOf(buffer, LF)
        invariant Drain(start) == (events + Drain(State()).0, Drain(State()).1)
        decreases |buffer|
      {
        ghost var before, done := State(), events;
        var line := buffer[..end.value];
        buffer := buffer[end.value + 1..];
        TakeLineKeepsBuffer(State(), line, buffer);
        var yielded := HandleLine(line);
        events := events + yielded;
        assert done + (yielded + Drain(State()).0) == events + Drain(State()).0;
        end := IndexOf(buffer, LF);
      }
      assert Drain(State()).0 == [] && events + [] == events;
      ok := true;
    }

    method HandleLine(raw: Text) returns (yielded: seq<ServerEvent>)
      modifies this
      ensures (yielded, State()) == TakeLine(old(State()), raw)
    {
      yielded := [];
      var line := DropCr(raw);
      if line == [] {
        if data != [] {
          yielded := [ServerEvent(event, JoinLines(data))];
        }
        event, data := MESSAGE, [];
        return;
      }
      if HasField(line, EVENT_FIELD) {
        event := DropSpace(line[6..]);
      }
      if HasField(line, DATA_FIELD) {
        data := data + [DropSpace(line[5..])];
      }
    }
  }

  // ---------------------------------------------------------------------------
  // Printing
  // ---------------------------------------------------------------------------

  /** `formatSseEvent`, with the data already serialised. */
  function FormatSse(e: ServerEvent): Text {
    EVENT_FIELD + [SPACE] + e.event + [LF] + DATA_FIELD + [SPACE] + e.data + [LF, LF]
  }

  function FormatAll(events: seq<ServerEvent>): Text {
    if events == [] then [] else FormatSse(events[0]) + FormatAll(events[1..])
  }

  /** One line on the wire: event names and JSON texts are. */
  predicate IsLine(s: Text) {
    LF !in s && DropCr(s) == s
  }

  ghost predicate AllLines(events: seq<ServerEvent>) {
    forall e :: e in events ==> IsLine(e.event) && IsLine(e.data)
  }

  // ---------------------------------------------------------------------------
  // Chunks do not matter
  // ---------------------------------------------------------------------------

  lemma IndexOfExtends(a: Text, b: Text, c: CodeUnit)
    ensures IndexOf(a, c).Some? ==> IndexOf(a + b, c) == IndexOf(a, c)
  {
    var i, j := IndexOf(a, c), IndexOf(a + b, c);
    if i.Some? {
      assert (a + b)[i.value] == c;
      assert forall k :: 0 <= k < i.value ==> (a + b)[k] == a[k];
    }
  }

  lemma TakeLineKeepsBuffer(d: Decoder, raw: Text, buffer: Text)
    ensures TakeLine(d, raw).1.buffer == d.buffer
    ensures TakeLine(d.(buffer := buffer), raw) == (TakeLine(d, raw).0, TakeLine(d, raw).1.(buffer := buffer))
  {
  }

  /** Draining, one line taken off. */
  lemma DrainOnce(d: Decoder)
    ensures var end := IndexOf(d.buffer, LF);
      if end.None? then Drain(d) == ([], d)
      else
        var (first, next) := TakeLine(d.(buffer := d.buffer[end.value + 1..]), d.buffer[..end.value]);
        Drain(d) == (first + Drain(next).0, Drain(next).1)
  {
  }

  /** Draining in two goes. */
  lemma {:induction false} DrainExtends(d: Decoder, more: Text)
    ensures var (events, rest) := Drain(d);
      var (later, last) := Drain(rest.(buffer := rest.buffer + more));
      Drain(d.(buffer := d.buffer + more)) == (events + later, last)
    decreases |d.buffer|
  {
    hide TakeLine, Drain, IndexOf;
    var end := IndexOf(d.buffer, LF);
    var all := d.buffer + more;
    IndexOfExtends(d.buffer, more, LF);
    DrainOnce(d);
    DrainOnce(d.(buffer := all));
    if end.Some? {
      var line, tail := d.buffer[..end.value], d.buffer[end.value + 1..];
      assert all[..end.value] == line && all[end.value + 1..] == tail + more;
      TakeLineKeepsBuffer(d.(buffer := tail), line, tail + more);
      var (first, next) := TakeLine(d.(buffer := tail), line);
      DrainExtends(next, more);
      var (middle, rest) := Drain(next);
      var (later, last) := Drain(rest.(buffer := rest.buffer + more));
      assert first + (middle + later) == (first + middle) + later;
    } else {
      var (later, last) := Drain(d.(buffer := all));
      assert [] + later == later;
    }
  }

  /** However a text is cut, if every read fits, the events are those of the whole text. */
  lemma {:induction false} ChunksDoNotMatter(d: Decoder, chunks: seq<Text>)
    requires ReceiveAll(d, chunks).Some? && IndexOf(d.buffer, LF).None?
    ensures ReceiveAll(d, chunks) == Some(Drain(d.(buffer := d.buffer + Concat(chunks))))
    decreases |chunks|
  {
    hide Drain, IndexOf;
    if chunks == [] {
      DrainOnce(d);
      assert d.buffer + [] == d.buffer;
    } else {
      var grown := d.(buffer := d.buffer + chunks[0]);
      var (events, next) := Drain(grown);
      DrainedHasNoLine(grown);
      ChunksDoNotMatter(next, chunks[1..]);
      DrainExtends(grown, Concat(chunks[1..]));
      assert d.buffer + Concat(chunks) == grown.buffer + Concat(chunks[1..]);
    }
  }

  lemma {:induction false} DrainedHasNoLine(d: Decoder)
    ensures IndexOf(Drain(d).1.buffer, LF).None?
    decreases |d.buffer|
  {
    hide TakeLine;
    var end := IndexOf(d.buffer, LF);
    if end.Some? {
      var line, tail := d.buffer[..end.value], d.buffer[end.value + 1..];
      TakeLineKeepsBuffer(d.(buffer := tail), line, tail);
      DrainedHasNoLine(TakeLine(d.(buffer := tail), line).1);
    }
  }

  // ---------------------------------------------------------------------------
  // Round trip
  // ---------------------------------------------------------------------------

  /** Draining a buffer whose first line is known. */
  lemma DrainLine(d: Decoder, line: Text, tail: Text)
    requires d.buffer == line + [LF] + tail && LF !in line
    ensures Drain(d) == (var (first, next) := TakeLine(d.(buffer := tail), line);
                         var (more, last) := Drain(next);
                         (first + more, last))
  {
    hide TakeLine;
    var end := IndexOf(d.buffer, LF);
    assert d.buffer[|line|] == LF;
    assert forall k :: 0 <= k < |line| ==> d.buffer[k] == line[k];
    assert d.buffer[..|line|] == line && d.buffer[|line| + 1..] == tail;
  }

  lemma EventLine(d: Decoder, event: Text)
    requires IsLine(event)
    ensures TakeLine(d, EVENT_FIELD + [SPACE] + event) == ([], d.(event := event))
  {
  }

  lemma DataLine(d: Decoder, data: Text)
    requires IsLine(data)
    ensures TakeLine(d, DATA_FIELD + [SPACE] + data) == ([], d.(data := d.data + [data]))
  {
  }

  /** One printed event is read as that event, and the decoder is back where it started. */
  lemma FormattedReads(e: ServerEvent, tail: Text)
    requires IsLine(e.event) && IsLine(e.data)
    ensures Drain(START.(buffer := FormatSse(e) + tail))
         == (var (more, last) := Drain(START.(buffer := tail)); ([e] + more, last))
  {
    hide TakeLine, Drain, IsLine;
    var eventLine, dataLine := EVENT_FIELD + [SPACE] + e.event, DATA_FIELD + [SPACE] + e.data;
    var s0 := START.(buffer := FormatSse(e) + tail);
    var t2 := [LF] + tail;
    var t1 := dataLine + [LF] + t2;
    assert s0.buffer == eventLine + [LF] + t1;
    NoLineFeed(e);
    DrainLine(s0, eventLine, t1);
    EventLine(s0.(buffer := t1), e.event);
    var s1 := s0.(buffer := t1, event := e.event);
    DrainLine(s1, dataLine, t2);
    DataLine(s1.(buffer := t2), e.data);
    var s2 := s1.(buffer := t2, data := [] + [e.data]);
    assert t2 == [] + [LF] + tail;
    DrainLine(s2, [], tail);
    BlankLine(s2.(buffer := tail), e.data);
    var (more, last) := Drain(START.(buffer := tail));
    assert [] + ([] + ([e] + more)) == [e] + more;
  }

  lemma NoLineFeed(e: ServerEvent)
    requires IsLine(e.event) && IsLine(e.data)
    ensures LF !in EVENT_FIELD + [SPACE] + e.event && LF !in DATA_FIELD + [SPACE] + e.data
  {
  }

  lemma BlankLine(d: Decoder, data: Text)
    requires d.data == [data]
    ensures TakeLine(d, []) == ([ServerEvent(d.event, data)], Decoder(d.buffer, MESSAGE, []))
  {
  }

  lemma {:induction false} AllFormattedRead(events: seq<ServerEvent>)
    requires AllLines(events)
    ensures Drain(START.(buffer := FormatAll(events))) == (events, START)
  {
    hide Drain, FormatSse;
    if events == [] {
      NothingToDrain();
    } else {
      FormattedReads(events[0], FormatAll(events[1..]));
      AllFormattedRead(events[1..]);
      assert events == [events[0]] + events[1..];
    }
  }

  lemma NothingToDrain()
    ensures Drain(START) == ([], START)
  {
  }

  /** Printed events, cut into any chunks the decoder takes, are read back, and nothing is left pending. */
  lemma FittingReadsRoundTrip(events: seq<ServerEvent>, chunks: seq<Text>)
    requires AllLines(events) && Concat(chunks) == FormatAll(events) && ReceiveAll(START, chunks).Some?
    ensures ReceiveAll(START, chunks) == Some((events, START))
  {
    ChunksDoNotMatter(START, chunks);
    assert [] + Concat(chunks) == Concat(chunks);
    AllFormattedRead(events);
  }

  // ---------------------------------------------------------------------------
  // Which reads fit
  // ---------------------------------------------------------------------------

  /** What the decoder counts against its limit. */
  function Pending(d: Decoder): nat {
    |d.buffer| + DataSize(d.data)
  }

  lemma {:induction false} DataSizeMore(data: seq<Text>, last: Text)
    ensures DataSize(data + [last]) == DataSize(data) + |last|
  {
    if data != [] {
      assert (data + [last])[1..] == data[1..] + [last];
      DataSizeMore(data[1..], last);
    }
  }

  lemma TakeLineGrows(d: Decoder, raw: Text)
    ensures Pending(TakeLine(d, raw).1) <= Pending(d) + |raw|
  {
    hide DataSize;
    var line := DropCr(raw);
    if HasField(line, DATA_FIELD) {
      DataSizeMore(d.data, DropSpace(line[5..]));
    }
    NoData();
  }

  lemma NoData()
    ensures DataSize([]) == 0
  {
  }

  lemma {:induction false} DrainShrinks(d: Decoder)
    ensures Pending(Drain(d).1) <= Pending(d)
    decreases |d.buffer|
  {
    hide TakeLine, DataSize;
    var end := IndexOf(d.buffer, LF);
    if end.Some? {
      var line, tail := d.buffer[..end.value], d.buffer[end.value + 1..];
      TakeLineGrows(d.(buffer := tail), line);
      TakeLineKeepsBuffer(d.(buffer := tail), line, tail);
      DrainShrinks(TakeLine(d.(buffer := tail), line).1);
    }
  }

  ghost predicate EventsWithin(events: seq<ServerEvent>, limit: nat) {
    forall e :: e in events ==> |FormatSse(e)| <= limit
  }

  /** In the middle of printed events no more is pending than one of them is long. */
  lemma {:induction false} OneEventPending(events: seq<ServerEvent>, text: Text, rest: Text, limit: nat)
    requires AllLines(events) && EventsWithin(events, limit) && text + rest == FormatAll(events)
    ensures Pending(Drain(START.(buffer := text)).1) <= limit
  {
    hide Drain, FormatSse;
    if events == [] {
      NothingToDrain();
    } else {
      var first := FormatSse(events[0]);
      DrainShrinks(START.(buffer := text));
      if |text| >= |first| {
        assert (text + rest)[..|first|] == first == text[..|first|];
        var tail := text[|first|..];
        assert tail + rest == (text + rest)[|first|..] == FormatAll(events[1..]);
        assert text == first + tail;
        FormattedReads(events[0], tail);
        OneEventPending(events[1..], tail, rest, limit);
      }
    }
  }

  lemma {:induction false} SmallReadsFit(events: seq<ServerEvent>, read: Text, chunks: seq<Text>, limit: nat)
    requires AllLines(events) && EventsWithin(events, limit) && read + Concat(chunks) == FormatAll(events)
    requires forall chunk :: chunk in chunks ==> |chunk| + limit <= MAX_FRAME
    ensures ReceiveAll(Drain(START.(buffer := read)).1, chunks).Some?
    decreases |chunks|
  {
    hide Drain, FormatAll, FormatSse;
    if chunks != [] {
      var d := Drain(START.(buffer := read)).1;
      OneEventPending(events, read, Concat(chunks), limit);
      DrainExtends(START.(buffer := read), chunks[0]);
      assert read + Concat(chunks) == read + chunks[0] + Concat(chunks[1..]);
      SmallReadsFit(events, read + chunks[0], chunks[1..], limit);
    }
  }

  /**
   Main result: printed events of at most `limit` characters each, cut into any chunks that
   leave room for one of them, are read back one for one and in order, and nothing is left
   pending.
   */
  lemma SseRoundTrip(events: seq<ServerEvent>, chunks: seq<Text>, limit: nat)
    requires AllLines(events) && Concat(chunks) == FormatAll(events)
    requires EventsWithin(events, limit) && forall chunk :: chunk in chunks ==> |chunk| + limit <= MAX_FRAME
    ensures ReceiveAll(START, chunks) == Some((events, START))
  {
    hide Drain, FormatAll, ReceiveAll, FormatSse;
    NothingToDrain();
    assert [] + Concat(chunks) == Concat(chunks);
    SmallReadsFit(events, [], chunks, limit);
    FittingReadsRoundTrip(events, chunks);
  }
}
