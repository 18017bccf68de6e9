/**
 Which inputs can be cut anywhere without changing the next frame, and chunk-split invariance
 of the framing parser on streams of such inputs.
 */
module McpFramingProofs {
  import opened Wrappers
  import opened ByteStrings
  import opened Sequences
  import opened McpFraming

  predicate IsSuffix(t: Bytes, s: Bytes) {
    |t| <= |s| && t == s[|s| - |t|..]
  }

  lemma SuffixOfSuffix(u: Bytes, t: Bytes, s: Bytes)
    requires IsSuffix(u, t) && IsSuffix(t, s)
    ensures IsSuffix(u, s)
  {
  }

  lemma EmptyIsSuffix(s: Bytes)
    ensures IsSuffix([], s)
  {
  }

  lemma RestIsSuffix(s: Bytes, k: nat)
    requires k <= |s|
    ensures IsSuffix(s[k..], s)
  {
  }

  lemma BlanksLeaveSuffix(s: Bytes)
    ensures IsSuffix(SkipBlank(s), s)
  {
  }

  /**
   What is not consumed is the tail of the input, and at the end of input only an
   unfinished Content-Length message can be left over.
   */
  lemma {:induction false} RemainderIsTail(s: Bytes, endOfInput: bool)
    ensures var e := Extract(s, endOfInput);
      e.Extracted? ==> IsSuffix(e.remaining, s) && (endOfInput && e.remaining != [] ==> IsHeader(e.remaining))
    decreases |s|
  {
    hide NextFrame, Extract, SkipBlank, IsBlank, IsHeader, Prepend, ToSeq, IsSuffix;
    var t := SkipBlank(s);
    BlanksLeaveSuffix(s);
    EmptyIsSuffix(s);
    ExtractRound([], s, endOfInput);
    PrependNone(Extract(s, endOfInput));
    if t != [] {
      var step := NextFrame(t, endOfInput);
      if step.Emit? {
        var rest := t[step.consumed..];
        RestIsSuffix(t, step.consumed);
        RemainderIsTail(rest, endOfInput);
        var e := Extract(rest, endOfInput);
        PrependExtracted([] + ToSeq(step.frame), e);
        if e.Extracted? {
          SuffixOfSuffix(e.remaining, rest, t);
          SuffixOfSuffix(e.remaining, t, s);
        }
      } else if step.Stop? && endOfInput {
        OnlyHeadersStop(t);
      }
    }
  }

  lemma OnlyHeadersStop(s: Bytes)
    requires s != [] && NextFrame(s, true).Stop?
    ensures IsHeader(s)
  {
  }

  // ---------------------------------------------------------------------------
  // More input never changes a frame that is already complete
  // ---------------------------------------------------------------------------

  lemma MatchStarts(s: Bytes, pattern: Bytes, k: nat)
    requires pattern != []
    ensures MatchesAt(s, pattern, k) ==> s[k] == pattern[0]
  {
  }

  lemma MatchExtends(a: Bytes, b: Bytes, pattern: Bytes, k: nat)
    requires k + |pattern| <= |a|
    ensures MatchesAt(a + b, pattern, k) == MatchesAt(a, pattern, k)
  {
  }

  lemma FindExtends(a: Bytes, b: Bytes, pattern: Bytes)
    ensures Find(a, pattern).Some? ==> Find(a + b, pattern) == Find(a, pattern)
    ensures Find(a, pattern).None? && Find(a + b, pattern).Some? ==> Find(a + b, pattern).value + |pattern| > |a|
  {
    hide Find;
    var i, j := Find(a, pattern), Find(a + b, pattern);
    if i.Some? {
      MatchExtends(a, b, pattern, i.value);
      if j.Some? && j.value < i.value {
        MatchExtends(a, b, pattern, j.value);
      }
    } else if j.Some? && j.value + |pattern| <= |a| {
      MatchExtends(a, b, pattern, j.value);
    }
  }

  /**
   The header condition at one frame position, with `h` and `j` the first CR LF CR LF and the
   first LF LF. A block must not pass the limit before its separator is complete, unless it is
   refused in the end too. Where LF LF comes first, the block it ends must be refused like the
   longer one, or announce a body that reaches beyond the byte before the end of CR LF CR LF.
   */
  predicate HeaderSound(s: Bytes) {
    match (Find(s, CRLFCRLF), Find(s, LFLF))
    case (Some(h), Some(j)) => if h < j then WithinLimit(s, h, 3) else MixedSound(s, j, h)
    case (Some(h), None) => WithinLimit(s, h, 3)
    case (None, Some(j)) => WithinLimit(s, j, 1)
    case (None, None) => true
  }

  /** A header block of `end` bytes with all but the last byte of its separator, or one that is refused anyway. */
  predicate WithinLimit(s: Bytes, end: nat, most: nat)
    requires end <= |s|
  {
    end + most <= MAX_HEADER_BYTES || Refused(s, end)
  }

  predicate Refused(s: Bytes, end: nat)
    requires end <= |s|
  {
    end > MAX_HEADER_BYTES || ParseLength(s[..end]).None?
  }

  predicate MixedSound(s: Bytes, j: nat, h: nat)
    requires j <= |s| && h <= |s|
  {
    if Refused(s, j) then Refused(s, h) else h + 3 < j + 2 + ParseLength(s[..j]).value
  }

  /** The header conditions at every frame position of a stream. */
  predicate Regular(s: Bytes)
    decreases |s|
  {
    var t := SkipBlank(s);
    t != [] ==>
      && (IsHeader(t) ==> HeaderSound(t))
      && var step := NextFrame(t, false); (step.Emit? ==> Regular(t[step.consumed..]))
  }

  /** Whether input is a header or a line does not change once a line feed is in sight. */
  lemma KindExtends(a: Bytes, b: Bytes)
    requires IsHeader(a) || |a| >= 15 || LF in a
    ensures IsHeader(a + b) == IsHeader(a)
  {
    if |a| >= 15 {
      assert forall i :: 0 <= i < 15 ==> (a + b)[i] == a[i];
    } else {
      var i :| 0 <= i < |a| && a[i] == LF;
      assert (a + b)[i] == LF && Lower(LF % 128) != CONTENT_LENGTH[i];
    }
  }

  lemma LineExtends(a: Bytes, b: Bytes)
    requires a != [] && !IsHeader(a) && NextFrame(a, false) != Stop
    ensures NextFrame(a + b, false) == NextFrame(a, false)
    ensures NextFrame(a + b, true) == NextFrame(a, false)
  {
    FindExtends(a, b, [LF]);
    var i := Find(a, [LF]);
    if i.Some? {
      assert a[i.value..i.value + 1][0] == LF;
      assert (a + b)[..i.value] == a[..i.value];
    }
    KindExtends(a, b);
  }

  /** Two overlapping or adjacent separators: LF LF begins behind the CR LF CR LF's last CR, or ends before it. */
  lemma SeparatorsOverlap(s: Bytes, h: nat, j: nat)
    requires MatchesAt(s, CRLFCRLF, h) && MatchesAt(s, LFLF, j)
    ensures h <= j ==> h + 3 <= j
    ensures j < h ==> j + 2 <= h
  {
    MatchReads(s, CRLFCRLF, h, 0);
    MatchReads(s, CRLFCRLF, h, 2);
    MatchReads(s, LFLF, j, 0);
    MatchReads(s, LFLF, j, 1);
  }

  lemma MatchReads(s: Bytes, pattern: Bytes, k: nat, i: nat)
    requires MatchesAt(s, pattern, k) && i < |pattern|
    ensures s[k + i] == pattern[i]
  {
  }

  /** A separator is found in a cut input when all of it has arrived. */
  lemma FindCut(s: Bytes, k: nat, pattern: Bytes)
    requires k <= |s|
    ensures var i := Find(s, pattern);
      Find(s[..k], pattern) == if i.Some? && i.value + |pattern| <= k then i else None
  {
    hide Find;
    assert s == s[..k] + s[k..];
    FindExtends(s[..k], s[k..], pattern);
  }

  // ---------------------------------------------------------------------------
  // Where a header can be cut
  // ---------------------------------------------------------------------------

  /** What a round does when the first `k` bytes are there and the block of `end` bytes is found to be complete. */
  function BlockStep(s: Bytes, k: nat, end: nat, separator: nat): Step
    requires end <= |s| && k <= |s| && 0 < separator
  {
    if Refused(s, end) then Throw
    else
      var start := end + separator;
      var stop := start + ParseLength(s[..end]).value;
      if k < stop then Stop else Emit(Some(Frame(s[start..stop], ContentLength)), stop)
  }

  /** The header end found in a cut input. */
  function CutEnd(s: Bytes, k: nat): Option<(nat, nat)> {
    var (crlf, lf) := (Find(s, CRLFCRLF), Find(s, LFLF));
    if crlf.Some? && crlf.value + 4 <= k then Some((crlf.value, 4))
    else if lf.Some? && lf.value + 2 <= k then Some((lf.value, 2))
    else None
  }

  lemma HeaderEndCut(s: Bytes, k: nat)
    requires k <= |s|
    ensures HeaderEnd(s[..k]) == CutEnd(s, k)
  {
    hide Find;
    FindCut(s, k, CRLFCRLF);
    FindCut(s, k, LFLF);
  }

  lemma CutStep(s: Bytes, k: nat)
    requires IsHeader(s) && 15 <= k <= |s|
    ensures NextFrame(s[..k], false)
         == match CutEnd(s, k)
            case Some((end, separator)) => BlockStep(s, k, end, separator)
            case None => if k > MAX_HEADER_BYTES then Throw else Stop
  {
    hide HeaderEnd, CutEnd, ParseLength;
    HeaderEndCut(s, k);
    assert IsHeader(s[..k]);
    var end := HeaderEnd(s[..k]);
    if end.Some? {
      var (e, separator) := end.value;
      assert s[..k][..e] == s[..e];
      if !Refused(s, e) {
        var stop := e + separator + ParseLength(s[..e]).value;
        assert stop <= k ==> s[..k][e + separator..stop] == s[e + separator..stop];
      }
    }
  }

  /** The first bytes of a header wait for more. */
  lemma ShortCut(s: Bytes, k: nat)
    requires IsHeader(s) && 0 < k < 15
    ensures NextFrame(s[..k], false) == Stop
  {
    hide Find;
    assert forall i :: 0 <= i < k ==> s[..k][i] == s[i] && s[i] != LF;
    NoLineFeed(s[..k]);
  }

  lemma NoLineFeed(s: Bytes)
    requires LF !in s
    ensures Find(s, [LF]).None?
  {
    hide Find;
    if Find(s, [LF]).Some? {
      MatchReads(s, [LF], Find(s, [LF]).value, 0);
    }
  }

  /** Cut anywhere, the input waits or does what the whole of it does. */
  ghost predicate CutsAgree(s: Bytes)
    requires s != []
  {
    forall k :: 0 < k <= |s| ==> NextFrame(s[..k], false) in {Stop, NextFrame(s, false)}
  }

  lemma SoundHeaderCuts(s: Bytes, k: nat)
    requires IsHeader(s) && HeaderSound(s) && 0 < k <= |s|
    ensures NextFrame(s[..k], false) in {Stop, NextFrame(s, false)}
  {
    hide NextFrame, IsHeader, Find, Refused;
    assert s[..|s|] == s;
    HeaderIsLong(s);
    CutStep(s, |s|);
    if k < 15 {
      ShortCut(s, k);
    } else {
      CutStep(s, k);
      var (crlf, lf) := (Find(s, CRLFCRLF), Find(s, LFLF));
      if crlf.Some? && lf.Some? {
        SeparatorsOverlap(s, crlf.value, lf.value);
      }
      SeparatorFits(s, CRLFCRLF);
      SeparatorFits(s, LFLF);
      LongIsRefused(s);
    }
  }

  lemma HeaderIsLong(s: Bytes)
    requires IsHeader(s)
    ensures |s| >= 15
  {
  }

  lemma SeparatorFits(s: Bytes, pattern: Bytes)
    ensures Find(s, pattern).Some? ==> Find(s, pattern).value + |pattern| <= |s|
  {
  }

  lemma LongIsRefused(s: Bytes)
    ensures forall end: nat :: MAX_HEADER_BYTES < end <= |s| ==> Refused(s, end)
  {
  }

  /** The cut that shows an unsound header. */
  function BadCut(s: Bytes): nat {
    match (Find(s, CRLFCRLF), Find(s, LFLF))
    case (Some(h), Some(j)) => if h < j then h + 3 else if Refused(s, j) then j + 2 else h + 3
    case (Some(h), None) => h + 3
    case (None, Some(j)) => j + 1
    case (None, None) => 0
  }

  lemma UnsoundHeaderCut(s: Bytes)
    requires IsHeader(s) && !HeaderSound(s)
    ensures var k := BadCut(s);
      0 < k <= |s| && NextFrame(s[..k], false) !in {Stop, NextFrame(s, false)}
  {
    hide NextFrame, IsHeader, Find, Refused, BlockStep;
    assert s[..|s|] == s;
    HeaderIsLong(s);
    CutStep(s, |s|);
    var (crlf, lf) := (Find(s, CRLFCRLF), Find(s, LFLF));
    if crlf.Some? && lf.Some? {
      SeparatorsOverlap(s, crlf.value, lf.value);
    }
    SeparatorFits(s, CRLFCRLF);
    SeparatorFits(s, LFLF);
    LongIsRefused(s);
    SeparatorsAreLate(s);
    var k := BadCut(s);
    CutStep(s, k);
    match (crlf, lf)
    case (Some(h), Some(j)) =>
      BlockSteps(s, |s|, h, 4);
      BlockSteps(s, k, j, 2);
    case (Some(h), None) => BlockSteps(s, |s|, h, 4);
    case (None, Some(j)) => BlockSteps(s, |s|, j, 2);
    case (None, None) =>
  }

  lemma BlockSteps(s: Bytes, k: nat, end: nat, separator: nat)
    requires end <= |s| && k <= |s| && 0 < separator
    ensures var step := BlockStep(s, k, end, separator);
      && (step == Throw <==> Refused(s, end))
      && (!Refused(s, end) ==>
            var stop := end + separator + ParseLength(s[..end]).value;
            end + separator <= stop && if k < stop then step == Stop else step.Emit? && step.consumed == stop)
  {
    hide ParseLength;
  }

  /** No separator begins within the header's name. */
  lemma SeparatorsAreLate(s: Bytes)
    requires IsHeader(s)
    ensures Find(s, CRLFCRLF).Some? ==> 15 <= Find(s, CRLFCRLF).value
    ensures Find(s, LFLF).Some? ==> 15 <= Find(s, LFLF).value
  {
    hide Find;
    if Find(s, CRLFCRLF).Some? {
      MatchReads(s, CRLFCRLF, Find(s, CRLFCRLF).value, 0);
    }
    if Find(s, LFLF).Some? {
      MatchReads(s, LFLF, Find(s, LFLF).value, 0);
    }
  }

  /** Main result: an input can be cut anywhere without changing its first frame if and only if it is sound. */
  lemma CutsAgreeIsExact(s: Bytes)
    requires s != []
    ensures CutsAgree(s) <==> (IsHeader(s) ==> HeaderSound(s))
  {
    hide NextFrame, HeaderSound, IsHeader, BadCut;
    if !IsHeader(s) {
      forall k | 0 < k <= |s| ensures NextFrame(s[..k], false) in {Stop, NextFrame(s, false)} {
        assert s == s[..k] + s[k..];
        if NextFrame(s[..k], false) != Stop {
          LineKind(s[..k], s[k..]);
          LineExtends(s[..k], s[k..]);
        }
      }
    } else if HeaderSound(s) {
      forall k | 0 < k <= |s| ensures NextFrame(s[..k], false) in {Stop, NextFrame(s, false)} {
        SoundHeaderCuts(s, k);
      }
    } else {
      UnsoundHeaderCut(s);
    }
  }

  lemma LineKind(a: Bytes, b: Bytes)
    requires !IsHeader(a + b)
    ensures !IsHeader(a)
  {
    if IsHeader(a) {
      KindExtends(a, b);
    }
  }

  /** A header's step does not depend on the end of input. */
  lemma HeaderIgnoresEnd(s: Bytes, endOfInput: bool)
    requires s != [] && IsHeader(s)
    ensures NextFrame(s, endOfInput) == NextFrame(s, false)
  {
  }

  lemma StepExtends(a: Bytes, b: Bytes, endOfInput: bool)
    requires a != [] && (IsHeader(a + b) ==> HeaderSound(a + b)) && NextFrame(a, false) != Stop
    ensures NextFrame(a + b, endOfInput) == NextFrame(a, false)
  {
    hide NextFrame, HeaderSound, IsHeader;
    if IsHeader(a + b) {
      assert (a + b)[..|a|] == a;
      SoundHeaderCuts(a + b, |a|);
      HeaderIgnoresEnd(a + b, endOfInput);
    } else {
      LineKind(a, b);
      LineExtends(a, b);
    }
  }

  lemma {:induction false} SkipBlankExtends(a: Bytes, b: Bytes)
    ensures SkipBlank(a) != [] ==> SkipBlank(a + b) == SkipBlank(a) + b
    ensures SkipBlank(a) == [] ==> SkipBlank(a + b) == SkipBlank(b)
    decreases |a|
  {
    hide IsBlank;
    if a == [] {
      assert a + b == b;
    } else {
      assert (a + b)[0] == a[0];
      if IsBlank(a[0]) {
        assert (a + b)[1..] == a[1..] + b;
        SkipBlankExtends(a[1..], b);
      }
    }
  }

  /**
   Parsing a regular stream in two goes: what the first part yields is final, and its
   remainder is all the parser needs to remember.
   */
  lemma {:induction false} ExtractExtends(a: Bytes, b: Bytes, endOfInput: bool)
    requires Regular(a + b)
    ensures var e := Extract(a, false);
      && (e.Thrown? ==> Extract(a + b, endOfInput).Thrown?)
      && (e.Extracted? ==>
            && Regular(e.remaining + b)
            && Extract(a + b, endOfInput) == Prepend(e.frames, Extract(e.remaining + b, endOfInput)))
    decreases |a|, 1
  {
    hide NextFrame, HeaderSound, Prepend, SkipBlank, IsHeader, IsBlank, Extract, Regular;
    var t := SkipBlank(a);
    SkipBlankExtends(a, b);
    ExtractAfterBlanks(a, false);
    ExtractAfterBlanks(a + b, endOfInput);
    if t == [] {
      assert [] + b == b;
      ExtractAfterBlanks([], false);
      ExtractAfterBlanks(b, endOfInput);
      PrependNone(Extract(b, endOfInput));
      RegularAfterBlanks(a + b, b);
    } else {
      RegularAfterBlanks(a + b, t + b);
      TrimmedExtends(t, b, endOfInput);
    }
  }

  lemma RegularAfterBlanks(s: Bytes, t: Bytes)
    requires SkipBlank(s) == SkipBlank(t)
    ensures Regular(s) == Regular(t)
  {
  }

  /** A regular stream stays regular behind a frame. */
  lemma RegularRound(s: Bytes)
    requires s != [] && !IsBlank(s[0]) && Regular(s)
    ensures IsHeader(s) ==> HeaderSound(s)
    ensures var step := NextFrame(s, false); (step.Emit? ==> Regular(s[step.consumed..]))
  {
  }

  lemma {:induction false} TrimmedExtends(t: Bytes, b: Bytes, endOfInput: bool)
    requires Regular(t + b) && t != [] && !IsBlank(t[0])
    ensures var e := Extract(t, false);
      && (e.Thrown? ==> Extract(t + b, endOfInput).Thrown?)
      && (e.Extracted? ==>
            && Regular(e.remaining + b)
            && Extract(t + b, endOfInput) == Prepend(e.frames, Extract(e.remaining + b, endOfInput)))
    decreases |t|, 0
  {
    hide NextFrame, HeaderSound, Prepend, SkipBlank, IsHeader, IsBlank, Extract, Regular;
    ExtractAfterBlanks(t, false);
    ExtractAfterBlanks(t + b, endOfInput);
    RegularRound(t + b);
    PrependNone(Extract(t + b, endOfInput));
    var step := NextFrame(t, false);
    if step != Stop {
      StepExtends(t, b, endOfInput);
      StepExtends(t, b, false);
      if step.Emit? {
        var rest := t[step.consumed..];
        assert (t + b)[step.consumed..] == rest + b;
        ExtractExtends(rest, b, endOfInput);
        var e := Extract(rest, false);
        PrependExtracted(ToSeq(step.frame), e);
        if e.Extracted? {
          PrependTwice(ToSeq(step.frame), e.frames, Extract(e.remaining + b, endOfInput));
        }
        PrependStop(ToSeq(step.frame), []);
      }
    }
  }

  lemma PrependExtracted(frames: seq<Frame>, e: Extraction)
    ensures Prepend(frames, e).Thrown? == e.Thrown?
    ensures e.Extracted? ==> Prepend(frames, e) == Extracted(frames + e.frames, e.remaining)
  {
  }

  /**
   Main result: whatever chunks a regular stream arrives in, the buffering loop forwards the
   frames, and keeps the remainder, of parsing the whole stream at once; and it fails exactly
   when that does.
   */
  lemma {:induction false} ChunksDoNotMatter(buffer: Bytes, chunks: seq<Bytes>)
    requires Regular(buffer + Concat(chunks)) && chunks != []
    ensures var fed, whole := Feed(buffer, chunks), Extract(buffer + Concat(chunks), false);
      match whole
      case Thrown => fed.Failed?
      case Extracted(frames, remaining) => fed == Serving(frames, remaining)
    decreases |chunks|
  {
    hide Extract, Regular;
    var first, rest := buffer + chunks[0], Concat(chunks[1..]);
    assert buffer + Concat(chunks) == first + rest;
    ExtractExtends(first, rest, false);
    var e := Extract(first, false);
    if e.Extracted? {
      if chunks[1..] == [] {
        assert first + rest == first;
        assert e.frames + [] == e.frames;
      } else {
        ChunksDoNotMatter(e.remaining, chunks[1..]);
      }
    }
  }

  /** With the end of input included: one pass over the whole stream forwards the same frames. */
  lemma ServingIsOnePass(chunks: seq<Bytes>)
    requires Regular(Concat(chunks)) && chunks != []
    ensures var (forwarded, clean), whole := Finish(Feed([], chunks)), Extract(Concat(chunks), true);
      && (whole.Extracted? ==> forwarded == whole.frames)
      && (clean <==> whole.Extracted? && Trim(whole.remaining) == [])
  {
    hide Extract, Regular, Trim;
    var s := Concat(chunks);
    assert [] + s == s && s + [] == s;
    ChunksDoNotMatter([], chunks);
    ExtractExtends(s, [], true);
    var e := Extract(s, false);
    if e.Extracted? {
      assert e.remaining + [] == e.remaining;
    }
  }
}
