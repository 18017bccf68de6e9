/**
 The callers over the in-memory store, with its `claim` in two steps: `get` is awaited before
 the claims are looked at. The promise is settled by then, so only jobs that are queued already
 can run in between; the model lets anything happen there. Everything else is as in the protocol
 of atomic claims.
 */
module IdempotencyAwait {
  import opened Wrappers
  import opened IdempotencyStore
  import opened IdempotencyRefinement
  import opened IdempotencyProtocol

  /** A caller whose `get` has found no record. */
  datatype Waiting = Waiting(principal: string, requestHash: string, ttlMs: int)

  datatype World = World(s: State, waiting: map<nat, Waiting>)

  datatype Move =
    | Act(action: Action)
    | Look(id: nat, principal: string, requestHash: string, ttlMs: int)
    | Resume(id: nat, token: Token)

  function Memory(w: World): MemoryCell
    requires w.s.store.InMemory?
  {
    w.s.store.memory
  }

  /** The claim call of a waiting caller, as one atomic step. */
  function BeginOf(w: World, m: Move): Action
    requires m.Resume? && m.id in w.waiting
  {
    var p := w.waiting[m.id];
    Begin(m.id, p.principal, p.requestHash, p.ttlMs, m.token)
  }

  predicate CanMove(w: World, m: Move) {
    && w.s.store.InMemory?
    && match m
       case Act(a) => !a.Begin? && Enabled(w.s, a)
       case Look(id, _, _, ttlMs) => id !in w.s.callers && id !in w.waiting && 1 <= ttlMs
       case Resume(id, _) => id in w.waiting && Enabled(w.s, BeginOf(w, m))
  }

  /** The record found, or the wait for the claims. */
  function LookAt(w: World, m: Move): World
    requires CanMove(w, m) && m.Look?
  {
    var c := MemoryGet(Memory(w), w.s.now);
    var s := w.s.(store := InMemory(c));
    if c.entry.Some? then
      var outcome := if c.entry.value.requestHash == m.requestHash then Replay(c.entry.value) else Conflict;
      World(s.(callers := s.callers[m.id := Refused(m.principal, m.requestHash, outcome)]), w.waiting)
    else World(s, w.waiting[m.id := Waiting(m.principal, m.requestHash, m.ttlMs)])
  }

  function ResumeAt(w: World, m: Move): World
    requires CanMove(w, m) && m.Resume?
  {
    var a := BeginOf(w, m);
    var (c, outcome) := ResumeClaim(Memory(w), w.s.now, a.requestHash, a.ttlMs, a.token);
    World(w.s.(store := InMemory(c), callers := w.s.callers[m.id := Begun(w.s, a, outcome)]), w.waiting - {m.id})
  }

  function MoveOn(w: World, m: Move): World
    requires CanMove(w, m)
  {
    match m
    case Act(a) => World(Perform(w.s, a), w.waiting)
    case Look(_, _, _, _) => LookAt(w, m)
    case Resume(_, _) => ResumeAt(w, m)
  }

  function Play(w: World, moves: seq<Move>): Option<World>
    decreases |moves|
  {
    if moves == [] then Some(w)
    else if CanMove(w, moves[0]) then Play(MoveOn(w, moves[0]), moves[1..])
    else None
  }

  // ---------------------------------------------------------------------------
  // What every move keeps
  // ---------------------------------------------------------------------------

  /** Some execution that was not given up was claimed less than its TTL ago. */
  predicate Recent(s: State) {
    exists id :: id in s.callers && Retained(s.callers[id]) && Deadline(s.callers[id].attempt, s.now)
  }

  /** A claim in the map is the attempt's own and expires with it; without one, the record outlives the attempt. */
  predicate Covers(c: MemoryCell, a: Attempt) {
    if c.claim.Some? then c.claim.value.token == a.token && c.claim.value.expiresAt == a.claimedAt + a.ttlMs
    else c.entry.Some? && a.claimedAt + a.ttlMs <= c.entry.value.expiresAt
  }

  ghost predicate Covered(s: State)
    requires s.store.InMemory?
  {
    forall id :: id in s.callers && Retained(s.callers[id]) && Deadline(s.callers[id].attempt, s.now) ==>
      Covers(s.store.memory, s.callers[id].attempt)
  }

  /** Unlike the protocol's invariant this one survives a claim beside a live record. */
  ghost predicate Sound(w: World) {
    w.s.store.InMemory? && AttemptsSound(w.s) && TokensDistinct(w.s) && Separated(w.s) && Covered(w.s)
  }

  lemma ActKeeps(w: World, a: Action)
    requires Sound(w) && CanMove(w, Act(a))
    ensures Sound(MoveOn(w, Act(a)))
  {
    hide StoreComplete, StoreRelease, StoreClaim, Covers, Apart, RecordOf;
    match a
    case Release(_, _) => ReleaseCovers(w, a);
    case Complete(_, _) => CompleteCovers(w, a);
    case InvokeThrows(id) => PhaseKeeps(w, id, RollingBack(w.s.callers[id].attempt));
    case InvokeReturns(id, result) => PhaseKeeps(w, id, Committing(w.s.callers[id].attempt, result));
    case TransactionEnds(id, threw) => PhaseKeeps(w, id, AfterTransaction(w.s.callers[id], threw));
    case _ =>
  }

  /** A caller that goes on with its attempt, without the store. */
  lemma PhaseKeeps(w: World, id: nat, p: Phase)
    requires Sound(w) && id in w.s.callers && HasAttempt(w.s.callers[id]) && HasAttempt(p)
    requires p.attempt == w.s.callers[id].attempt && (Retained(p) ==> Retained(w.s.callers[id]))
    ensures Sound(World(w.s.(callers := w.s.callers[id := p]), w.waiting))
  {
    hide Covers, Apart;
  }

  lemma ReleaseCovers(w: World, a: Action)
    requires Sound(w) && CanMove(w, Act(a)) && a.Release?
    ensures Sound(MoveOn(w, Act(a)))
  {
  }

  lemma CompleteCovers(w: World, a: Action)
    requires Sound(w) && CanMove(w, Act(a)) && a.Complete?
    ensures Sound(MoveOn(w, Act(a)))
  {
  }

  lemma LookKeeps(w: World, m: Move)
    requires Sound(w) && CanMove(w, m) && m.Look?
    ensures Sound(LookAt(w, m))
  {
  }

  /** The moment at which a resumed claim does harm: a record, no live claim, and an execution whose TTL is not over. */
  predicate Breaks(w: World)
    requires w.s.store.InMemory?
  {
    RecordLive(Memory(w), w.s.now) && !ClaimLive(Memory(w), w.s.now) && Recent(w.s)
  }

  /** Without a live claim, what was claimed less than its TTL ago is covered by a live record. */
  lemma RecentIsRecorded(w: World)
    requires Sound(w) && Recent(w.s) && !ClaimLive(Memory(w), w.s.now)
    ensures RecordLive(Memory(w), w.s.now)
  {
    var id :| id in w.s.callers && Retained(w.s.callers[id]) && Deadline(w.s.callers[id].attempt, w.s.now);
    assert Covers(Memory(w), w.s.callers[id].attempt);
  }

  lemma ResumeKeeps(w: World, m: Move)
    requires Sound(w) && CanMove(w, m) && m.Resume? && !Breaks(w)
    ensures Sound(ResumeAt(w, m))
  {
    if !ClaimLive(Memory(w), w.s.now) && Recent(w.s) {
      RecentIsRecorded(w);
    }
  }

  lemma ResumeBreaks(w: World, m: Move)
    requires Sound(w) && CanMove(w, m) && m.Resume? && Breaks(w)
    ensures !Separated(ResumeAt(w, m).s)
  {
    var t := ResumeAt(w, m).s;
    var id :| id in w.s.callers && Retained(w.s.callers[id]) && Deadline(w.s.callers[id].attempt, w.s.now);
    assert t.callers[id] == w.s.callers[id] && t.callers[m.id].attempt.claimedAt == w.s.now;
    assert !Apart(t.callers[id].attempt, t.callers[m.id].attempt);
  }

  /** One resumed claim, exactly. */
  lemma ResumeIsExact(w: World, m: Move)
    requires Sound(w) && CanMove(w, m) && m.Resume?
    ensures Separated(ResumeAt(w, m).s) <==> !Breaks(w)
  {
    if Breaks(w) {
      ResumeBreaks(w, m);
    } else {
      ResumeKeeps(w, m);
    }
  }

  // ---------------------------------------------------------------------------
  // Whole runs
  // ---------------------------------------------------------------------------

  /** No claim is resumed at a moment at which that does harm. */
  predicate Harmless(w: World, moves: seq<Move>)
    decreases |moves|
  {
    moves != [] && CanMove(w, moves[0]) ==>
      && (moves[0].Resume? ==> !Breaks(w))
      && Harmless(MoveOn(w, moves[0]), moves[1..])
  }

  /** At every moment of the run the executions that were not given up are a TTL apart. */
  ghost predicate AlwaysApart(w: World, moves: seq<Move>)
    decreases |moves|
  {
    Separated(w.s) && (moves != [] && CanMove(w, moves[0]) ==> AlwaysApart(MoveOn(w, moves[0]), moves[1..]))
  }

  lemma {:induction false} SoundRuns(w: World, moves: seq<Move>)
    requires Sound(w) && Play(w, moves).Some?
    ensures AlwaysApart(w, moves) <==> Harmless(w, moves)
    ensures Harmless(w, moves) ==> Sound(Play(w, moves).value)
    decreases |moves|
  {
    hide Perform, LookAt, ResumeAt, Breaks, AttemptsSound, TokensDistinct, Separated, Covered;
    if moves != [] {
      var next := MoveOn(w, moves[0]);
      match moves[0] {
        case Act(a) => ActKeeps(w, a);
        case Look(_, _, _, _) => LookKeeps(w, moves[0]);
        case Resume(_, _) =>
          if Breaks(w) {
            ResumeBreaks(w, moves[0]);
            ApartAtFirst(next, moves[1..]);
          } else {
            ResumeKeeps(w, moves[0]);
          }
      }
      if !(moves[0].Resume? && Breaks(w)) {
        SoundRuns(next, moves[1..]);
      }
    }
  }

  lemma ApartAtFirst(w: World, moves: seq<Move>)
    ensures AlwaysApart(w, moves) ==> Separated(w.s)
  {
  }

  predicate Fresh(w: World) {
    w.s.callers == map[] && w.waiting == map[] && w.s.store == InMemory(EMPTY_MEMORY)
  }

  /**
   Main result: over every run with the claim in its two steps, executions that succeeded, may
   have succeeded or still run are at every moment claimed at least the earlier claim's TTL
   apart if and only if no claim is ever resumed while a record is live, no claim is, and the
   TTL of some execution that was not given up is not over.
   */
  lemma ApartIsExact(w: World, moves: seq<Move>)
    requires Fresh(w) && Play(w, moves).Some?
    ensures AlwaysApart(w, moves) <==> Harmless(w, moves)
  {
    SoundRuns(w, moves);
  }

  /** A condition the store can check by itself: no claim is resumed while a record is live. */
  predicate Undisturbed(w: World, moves: seq<Move>)
    decreases |moves|
  {
    moves != [] && CanMove(w, moves[0]) ==>
      && (moves[0].Resume? ==> !RecordLive(Memory(w), w.s.now))
      && Undisturbed(MoveOn(w, moves[0]), moves[1..])
  }

  lemma {:induction false} UndisturbedIsHarmless(w: World, moves: seq<Move>)
    requires Undisturbed(w, moves)
    ensures Harmless(w, moves)
    decreases |moves|
  {
    hide MoveOn;
    if moves != [] && CanMove(w, moves[0]) {
      UndisturbedIsHarmless(MoveOn(w, moves[0]), moves[1..]);
    }
  }

  /** So looking for a record once more when a claim is resumed is enough. */
  lemma AtMostOnceUndisturbed(w: World, moves: seq<Move>, i: nat, j: nat)
    requires Fresh(w) && Play(w, moves).Some? && Undisturbed(w, moves)
    requires var callers := Play(w, moves).value.s.callers;
      i in callers && j in callers && i != j && Retained(callers[i]) && Retained(callers[j])
    ensures var callers := Play(w, moves).value.s.callers;
      Apart(callers[i].attempt, callers[j].attempt)
  {
    UndisturbedIsHarmless(w, moves);
    SoundRuns(w, moves);
  }

  // ---------------------------------------------------------------------------
  // A run that does harm
  // ---------------------------------------------------------------------------

  /** The second caller looks when the first one's transaction has ended, in the last job before it is completed. */
  function Slip(requestHash: string, ttlMs: int, result: ToolResult): seq<Move> {
    FirstOf(requestHash, ttlMs, result) + Execution(1, "b", result)
  }

  function FirstOf(requestHash: string, ttlMs: int, result: ToolResult): seq<Move> {
    [Look(0, "p", requestHash, ttlMs), Resume(0, "a"), Act(InvokeReturns(0, result)), Act(TransactionEnds(0, false)),
     Look(1, "p", requestHash, ttlMs), Act(Complete(0, true))]
  }

  /** From the second half of a claim to the stored result. */
  function Execution(id: nat, token: Token, result: ToolResult): seq<Move> {
    [Resume(id, token), Act(InvokeReturns(id, result)), Act(TransactionEnds(id, false)), Act(Complete(id, true))]
  }

  lemma {:induction false} PlayConcat(w: World, first: seq<Move>, rest: seq<Move>)
    ensures Play(w, first + rest) == if Play(w, first).Some? then Play(Play(w, first).value, rest) else None
    decreases |first|
  {
    hide CanMove, MoveOn;
    if first == [] {
      assert first + rest == rest;
    } else {
      assert (first + rest)[1..] == first[1..] + rest;
      if CanMove(w, first[0]) {
        PlayConcat(MoveOn(w, first[0]), first[1..], rest);
      }
    }
  }

  /** A waiting caller that meets no live claim succeeds, whatever record is there. */
  lemma ExecutionSucceeds(w: World, id: nat, token: Token, result: ToolResult)
    requires CanMove(w, Resume(id, token)) && Memory(w).claim.None? && result.Success?
    ensures var (end, p) := (Play(w, Execution(id, token, result)), w.waiting[id]);
      && end.Some? && end.value.s.store.InMemory? && end.value.s.now == w.s.now
      && Memory(end.value).claim.None? && end.value.waiting == w.waiting - {id}
      && end.value.s.callers.Keys == w.s.callers.Keys + {id}
      && (forall other :: other in w.s.callers && other != id ==> end.value.s.callers[other] == w.s.callers[other])
      && var q := end.value.s.callers[id];
         q.Finished? && q.end.Recorded? && q.end.result == result
         && q.attempt == Attempt(p.principal, p.requestHash, token, w.s.now, p.ttlMs)
  {
    var moves := Execution(id, token, result);
    var w1 := MoveOn(w, moves[0]);
    var w2 := MoveOn(w1, moves[1]);
    var w3 := MoveOn(w2, moves[2]);
    var w4 := MoveOn(w3, moves[3]);
    assert moves[1..][1..] == moves[2..] && moves[2..][1..] == moves[3..] && moves[3..][1..] == [];
    assert Play(w3, moves[3..]) == Play(w4, []);
    assert Play(w2, moves[2..]) == Play(w3, moves[3..]);
    assert Play(w1, moves[1..]) == Play(w2, moves[2..]);
  }

  /** The first caller succeeds, and the second has looked in time. */
  lemma FirstSucceeds(w: World, requestHash: string, ttlMs: int, result: ToolResult) returns (next: World)
    requires Fresh(w) && 1 <= ttlMs && result.Success?
    ensures Play(w, FirstOf(requestHash, ttlMs, result)) == Some(next)
    ensures next.s.store.InMemory? && Memory(next).claim.None? && next.s.now == w.s.now
    ensures next.waiting == map[1 := Waiting("p", requestHash, ttlMs)] && next.s.callers.Keys == {0}
    ensures var p := next.s.callers[0];
      p.Finished? && p.end.Recorded? && p.end.result == result && p.attempt == Attempt("p", requestHash, "a", w.s.now, ttlMs)
  {
    var moves := FirstOf(requestHash, ttlMs, result);
    var w4 := FirstCommits(w, requestHash, ttlMs, result);
    var w5 := MoveOn(w4, moves[4]);
    assert w5.s.callers == w4.s.callers && Memory(w5) == Memory(w4);
    next := MoveOn(w5, moves[5]);
    hide MoveOn, CanMove;
    PlayAt(w4, moves, 4);
    PlayAt(w5, moves, 5);
    assert moves[6..] == [];
  }

  lemma FirstCommits(w: World, requestHash: string, ttlMs: int, result: ToolResult) returns (next: World)
    requires Fresh(w) && 1 <= ttlMs && result.Success?
    ensures var moves := FirstOf(requestHash, ttlMs, result); Play(w, moves) == Play(next, moves[4..])
    ensures next.s.store.InMemory? && next.s.now == w.s.now && next.waiting == map[]
    ensures Memory(next) == MemoryCell(None, Some(PendingClaim(requestHash, "a", w.s.now + ttlMs)))
    ensures next.s.callers == map[0 := Completing(Attempt("p", requestHash, "a", w.s.now, ttlMs), result)]
  {
    var moves := FirstOf(requestHash, ttlMs, result);
    var w2 := FirstClaims(w, requestHash, ttlMs, result);
    var w3 := MoveOn(w2, moves[2]);
    next := MoveOn(w3, moves[3]);
    hide MoveOn, CanMove;
    PlayAt(w2, moves, 2);
    PlayAt(w3, moves, 3);
  }

  lemma FirstClaims(w: World, requestHash: string, ttlMs: int, result: ToolResult) returns (next: World)
    requires Fresh(w) && 1 <= ttlMs
    ensures var moves := FirstOf(requestHash, ttlMs, result); Play(w, moves) == Play(next, moves[2..])
    ensures next.s.store.InMemory? && next.s.now == w.s.now && next.waiting == map[]
    ensures Memory(next) == MemoryCell(None, Some(PendingClaim(requestHash, "a", w.s.now + ttlMs)))
    ensures next.s.callers == map[0 := Invoking(Attempt("p", requestHash, "a", w.s.now, ttlMs))]
  {
    var moves := FirstOf(requestHash, ttlMs, result);
    var w1 := MoveOn(w, moves[0]);
    assert w1.s == w.s && w1.waiting == map[0 := Waiting("p", requestHash, ttlMs)];
    next := MoveOn(w1, moves[1]);
    hide MoveOn, CanMove;
    PlayAt(w, moves, 0);
    PlayAt(w1, moves, 1);
    assert moves[0..] == moves;
  }

  lemma PlayAt(w: World, moves: seq<Move>, k: nat)
    requires k < |moves| && CanMove(w, moves[k])
    ensures Play(w, moves[k..]) == Play(MoveOn(w, moves[k]), moves[k + 1..])
  {
    assert moves[k..][1..] == moves[k + 1..];
  }

  /**
   Such a run, for every request, TTL and successful result: two executions of one request
   succeed at the same moment.
   */
  lemma SlipSucceedsTwice(w: World, requestHash: string, ttlMs: int, result: ToolResult)
    requires Fresh(w) && 1 <= ttlMs && result.Success?
    ensures var end := Play(w, Slip(requestHash, ttlMs, result));
      && end.Some? && 0 in end.value.s.callers && 1 in end.value.s.callers
      && (forall id :: id in end.value.s.callers ==>
            var p := end.value.s.callers[id]; p.Finished? && p.end.Recorded? && p.end.result == result)
      && !Apart(end.value.s.callers[0].attempt, end.value.s.callers[1].attempt)
  {
    hide Play, Execution, FirstOf, MoveOn;
    var next := FirstSucceeds(w, requestHash, ttlMs, result);
    ExecutionSucceeds(next, 1, "b", result);
    PlayConcat(w, FirstOf(requestHash, ttlMs, result), Execution(1, "b", result));
  }
}
