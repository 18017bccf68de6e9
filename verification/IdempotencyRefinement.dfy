/**
 Both stores implement one cell that is free, held by a claim, or done. The views below
 read that cell off either store at a given time; the lemmas show that every operation
 commutes with the view, step by step and over whole runs.
 */
module IdempotencyRefinement {
  import opened Wrappers
  import opened IdempotencyStore

  function MemoryView(c: MemoryCell, now: Time): Cell {
    if RecordLive(c, now) then Done(c.entry.value.requestHash, c.entry.value, c.entry.value.expiresAt)
    else if ClaimLive(c, now) then Held(c.claim.value.requestHash, c.claim.value.token, c.claim.value.expiresAt)
    else Free
  }

  /** A live record leaves no claim behind. */
  predicate MemoryInv(c: MemoryCell, now: Time) {
    RecordLive(c, now) ==> c.claim.None?
  }

  function RedisView(c: RedisCell, now: Time): Cell
    requires RedisInv(c, now)
  {
    if Live(c.result, now).Some? then Done(c.hash.value.value, c.result.value.value, c.result.value.expiresAt)
    else if Live(c.claim, now).Some? then Held(c.hash.value.value, c.claim.value.value, c.claim.value.expiresAt)
    else Free
  }

  /**
   The hash key is live exactly when the result key or the claim key is, with the same
   expiry, and result and claim are never both live.
   */
  predicate RedisInv(c: RedisCell, now: Time) {
    && (Live(c.hash, now).Some? <==> Live(c.result, now).Some? || Live(c.claim, now).Some?)
    && (Live(c.result, now).Some? ==> c.hash.value.expiresAt == c.result.value.expiresAt)
    && (Live(c.claim, now).Some? ==> c.hash.value.expiresAt == c.claim.value.expiresAt)
    && !(Live(c.result, now).Some? && Live(c.claim, now).Some?)
  }

  // ---------------------------------------------------------------------------
  // Single operations
  // ---------------------------------------------------------------------------

  lemma TimePasses(m: MemoryCell, r: RedisCell, now: Time, later: Time)
    requires now <= later && MemoryInv(m, now) && RedisInv(r, now)
    ensures MemoryInv(m, later) && MemoryView(m, later) == Expire(MemoryView(m, now), later)
    ensures RedisInv(r, later) && RedisView(r, later) == Expire(RedisView(r, now), later)
  {
  }

  lemma MemoryClaimRefines(c: MemoryCell, now: Time, requestHash: string, ttlMs: int, token: Token)
    requires MemoryInv(c, now) && 1 <= ttlMs
    ensures var (d, outcome) := MemoryClaim(c, now, requestHash, ttlMs, token);
      MemoryInv(d, now) && (MemoryView(d, now), outcome) == SpecClaim(MemoryView(c, now), now, requestHash, ttlMs, token)
  {
  }

  lemma RedisClaimRefines(c: RedisCell, now: Time, requestHash: string, ttlMs: int, token: Token)
    requires RedisInv(c, now) && 1 <= ttlMs
    ensures var (d, outcome) := RedisClaim(c, now, requestHash, ttlMs, token);
      && RedisInv(d, now)
      && (RedisView(d, now), outcome) == SpecClaim(RedisView(c, now), now, requestHash, ttlMs, token)
      && (outcome.Claimed? <==> Live(c.result, now).None? && Live(c.hash, now).None? && Live(c.claim, now).None?)
  {
  }

  lemma RedisCompleteRefines(c: RedisCell, now: Time, token: Token, record: Record)
    requires RedisInv(c, now) && now < record.expiresAt
    ensures var (d, completed) := RedisComplete(c, now, token, record);
      RedisInv(d, now) && (RedisView(d, now), completed) == SpecComplete(RedisView(c, now), token, record)
  {
  }

  /** The invariant survives even a completion whose record has already expired. */
  lemma RedisInvPreserved(c: RedisCell, now: Time, requestHash: string, ttlMs: int, token: Token, record: Record)
    requires RedisInv(c, now)
    ensures RedisInv(EMPTY_REDIS, now)
    ensures RedisInv(RedisClaim(c, now, requestHash, ttlMs, token).0, now)
    ensures RedisInv(RedisComplete(c, now, token, record).0, now)
    ensures RedisInv(RedisRelease(c, now, token), now)
  {
  }

  /** Release needs no promptness: a stale in-memory claim is invisible to the view. */
  lemma ReleaseRefines(m: MemoryCell, r: RedisCell, now: Time, token: Token)
    requires MemoryInv(m, now) && RedisInv(r, now)
    ensures MemoryInv(MemoryRelease(m, token), now) && RedisInv(RedisRelease(r, now, token), now)
    ensures MemoryView(MemoryRelease(m, token), now) == SpecRelease(MemoryView(m, now), token)
    ensures RedisView(RedisRelease(r, now, token), now) == SpecRelease(RedisView(r, now), token)
  {
  }

  /** A completion by the holder of an expired claim that nobody replaced. */
  predicate LateCompletion(m: MemoryCell, now: Time, token: Token) {
    MemoryOwns(m, token) && m.claim.value.expiresAt <= now
  }

  /**
   Two stores showing the same cell disagree on a completion exactly when it is late;
   then the in-memory store accepts it and Redis refuses.
   */
  lemma CompletionsAgreeUnlessLate(m: MemoryCell, r: RedisCell, now: Time, token: Token, record: Record)
    requires MemoryInv(m, now) && RedisInv(r, now) && MemoryView(m, now) == RedisView(r, now)
    requires now < record.expiresAt
    ensures MemoryComplete(m, token, record).1 == RedisComplete(r, now, token, record).1 <==> !LateCompletion(m, now, token)
    ensures LateCompletion(m, now, token) ==> MemoryComplete(m, token, record).1
  {
  }

  lemma MemoryCompleteRefines(c: MemoryCell, now: Time, token: Token, record: Record)
    requires MemoryInv(c, now) && !LateCompletion(c, now, token) && now < record.expiresAt
    requires MemoryOwns(c, token) ==> record.requestHash == c.claim.value.requestHash
    ensures var (d, completed) := MemoryComplete(c, token, record);
      MemoryInv(d, now) && (MemoryView(d, now), completed) == SpecComplete(MemoryView(c, now), token, record)
  {
  }

  /** The in-memory claim after its `await`, when `get` had found no record. */
  function ResumeClaim(c: MemoryCell, now: Time, requestHash: string, ttlMs: int, token: Token): (MemoryCell, Outcome) {
    if ClaimLive(c, now) then
      (c, if c.claim.value.requestHash == requestHash then InProgress else Conflict)
    else
      (c.(claim := Some(PendingClaim(requestHash, token, now + ttlMs))), Claimed(token))
  }

  /**
   Claiming is atomic in the model. In the source a completion can slip in at the `await`;
   a claim resumed after one is granted although the call is done, and that is the only way
   its answer can differ from the atomic claim's.
   */
  lemma AwaitedClaimAgreesUnlessCompleted(c: MemoryCell, now: Time, requestHash: string, ttlMs: int, token: Token)
    requires MemoryInv(c, now)
    ensures ResumeClaim(c, now, requestHash, ttlMs, token).1 == MemoryClaim(c, now, requestHash, ttlMs, token).1
       <==> !RecordLive(c, now)
    ensures RecordLive(c, now) ==> ResumeClaim(c, now, requestHash, ttlMs, token).1 == Claimed(token)
  {
  }

  /**
   After a completion the in-memory store compares requests with the record's hash, Redis with
   the claimed one. So the stores answer a later claim alike if and only if its request equals
   both hashes or neither.
   */
  lemma RecordHashIsExact(m: MemoryCell, r: RedisCell, now: Time, token: Token, record: Record,
                          later: Time, requestHash: string, ttlMs: int, next: Token)
    requires MemoryInv(m, now) && RedisInv(r, now) && MemoryView(m, now) == RedisView(r, now)
    requires MemoryView(m, now).Held? && MemoryView(m, now).token == token
    requires now <= later < record.expiresAt
    ensures var claimed := MemoryView(m, now).requestHash;
      var memoryAnswer := MemoryClaim(MemoryComplete(m, token, record).0, later, requestHash, ttlMs, next).1;
      var redisAnswer := RedisClaim(RedisComplete(r, now, token, record).0, later, requestHash, ttlMs, next).1;
      memoryAnswer == redisAnswer <==> (requestHash == record.requestHash <==> requestHash == claimed)
  {
  }

  /** A record whose hash is not the claimed one turns every in-memory retry into a conflict, but no Redis retry. */
  lemma RecordHashMatters(now: Time, requestHash: string, ttlMs: int, token: Token, record: Record, next: Token)
    requires 1 <= ttlMs && now < record.expiresAt && record.requestHash != requestHash
    ensures var m := MemoryComplete(MemoryClaim(EMPTY_MEMORY, now, requestHash, ttlMs, token).0, token, record).0;
      MemoryClaim(m, now, requestHash, ttlMs, next).1 == Conflict
    ensures var r := RedisComplete(RedisClaim(EMPTY_REDIS, now, requestHash, ttlMs, token).0, now, token, record).0;
      RedisClaim(r, now, requestHash, ttlMs, next).1 == Replay(record)
  {
  }

  // ---------------------------------------------------------------------------
  // Runs
  // ---------------------------------------------------------------------------

  datatype Call =
    | ClaimCall(requestHash: string, ttlMs: int, claimToken: Token)
    | CompleteCall(token: Token, record: Record)
    | ReleaseCall(token: Token)

  datatype Event = Event(now: Time, call: Call)

  datatype Reply = ClaimReply(outcome: Outcome) | CompleteReply(completed: bool) | ReleaseReply

  function MemoryStep(c: MemoryCell, e: Event): (MemoryCell, Reply) {
    match e.call
    case ClaimCall(h, ttlMs, token) => var (d, o) := MemoryClaim(c, e.now, h, ttlMs, token); (d, ClaimReply(o))
    case CompleteCall(token, record) => var (d, b) := MemoryComplete(c, token, record); (d, CompleteReply(b))
    case ReleaseCall(token) => (MemoryRelease(c, token), ReleaseReply)
  }

  function RedisStep(c: RedisCell, e: Event): (RedisCell, Reply) {
    match e.call
    case ClaimCall(h, ttlMs, token) => var (d, o) := RedisClaim(c, e.now, h, ttlMs, token); (d, ClaimReply(o))
    case CompleteCall(token, record) => var (d, b) := RedisComplete(c, e.now, token, record); (d, CompleteReply(b))
    case ReleaseCall(token) => (RedisRelease(c, e.now, token), ReleaseReply)
  }

  function SpecStep(c: Cell, e: Event): (Cell, Reply) {
    var c := Expire(c, e.now);
    match e.call
    case ClaimCall(h, ttlMs, token) => var (d, o) := SpecClaim(c, e.now, h, ttlMs, token); (d, ClaimReply(o))
    case CompleteCall(token, record) => var (d, b) := SpecComplete(c, token, record); (d, CompleteReply(b))
    case ReleaseCall(token) => (SpecRelease(c, token), ReleaseReply)
  }

  /** The cell and the replies after the whole run, starting from an empty store. */
  function MemoryRun(run: seq<Event>): (r: (MemoryCell, seq<Reply>))
    ensures |r.1| == |run|
  {
    if run == [] then (EMPTY_MEMORY, [])
    else
      var (c, replies) := MemoryRun(run[..|run| - 1]);
      var (d, reply) := MemoryStep(c, run[|run| - 1]);
      (d, replies + [reply])
  }

  function RedisRun(run: seq<Event>): (r: (RedisCell, seq<Reply>))
    ensures |r.1| == |run|
  {
    if run == [] then (EMPTY_REDIS, [])
    else
      var (c, replies) := RedisRun(run[..|run| - 1]);
      var (d, reply) := RedisStep(c, run[|run| - 1]);
      (d, replies + [reply])
  }

  function SpecRun(run: seq<Event>): (r: (Cell, seq<Reply>))
    ensures |r.1| == |run|
  {
    if run == [] then (Free, [])
    else
      var (c, replies) := SpecRun(run[..|run| - 1]);
      var (d, reply) := SpecStep(c, run[|run| - 1]);
      (d, replies + [reply])
  }

  ghost predicate Ordered(run: seq<Event>) {
    forall i, j :: 0 <= i < j < |run| ==> run[i].now <= run[j].now
  }

  /** Every claim asks for at least a millisecond, every stored record outlives its completion. */
  ghost predicate PositiveTtls(run: seq<Event>) {
    forall i :: 0 <= i < |run| ==>
      && (run[i].call.ClaimCall? ==> 1 <= run[i].call.ttlMs)
      && (run[i].call.CompleteCall? ==> run[i].now < run[i].call.record.expiresAt)
  }

  /** `done` completes the claim made by `claim` in time and for the same request. */
  predicate CompletesInTime(claim: Event, done: Event)
    requires claim.call.ClaimCall? && done.call.CompleteCall?
  {
    done.now < claim.now + claim.call.ttlMs && done.call.record.requestHash == claim.call.requestHash
  }

  ghost predicate Prompt(run: seq<Event>) {
    forall i, j ::
      (0 <= i < j < |run| && run[i].call.ClaimCall? && run[j].call.CompleteCall? && run[i].call.claimToken == run[j].call.token)
      ==> CompletesInTime(run[i], run[j])
  }

  predicate MadeBy(claim: PendingClaim, e: Event) {
    e.call.ClaimCall? && claim == PendingClaim(e.call.requestHash, e.call.claimToken, e.now + e.call.ttlMs)
  }

  /** The in-memory claim always stems from some claim call of the run. */
  lemma {:induction false} ClaimHasOrigin(run: seq<Event>)
    ensures MemoryRun(run).0.claim.Some? ==> exists e :: e in run && MadeBy(MemoryRun(run).0.claim.value, e)
  {
    if run != [] {
      ClaimHasOrigin(run[..|run| - 1]);
      var c, d, last := MemoryRun(run[..|run| - 1]).0, MemoryRun(run).0, run[|run| - 1];
      if d.claim.Some? && d.claim != c.claim {
        assert last in run && MadeBy(d.claim.value, last);
      }
    }
  }

  ghost predicate MemoryShows(m: MemoryCell, c: Cell, now: Time) {
    MemoryInv(m, now) && MemoryView(m, now) == c
  }

  ghost predicate RedisShows(r: RedisCell, c: Cell, now: Time) {
    RedisInv(r, now) && RedisView(r, now) == c
  }

  /** One event on the in-memory store, from the abstract cell to the abstract cell, with its reply. */
  lemma MemoryStepShows(m: MemoryCell, c: Cell, e: Event)
    requires MemoryShows(m, Expire(c, e.now), e.now) && PositiveTtls([e])
    requires e.call.CompleteCall? && MemoryOwns(m, e.call.token) ==>
      e.now < m.claim.value.expiresAt && e.call.record.requestHash == m.claim.value.requestHash
    ensures MemoryStep(m, e).1 == SpecStep(c, e).1 && MemoryShows(MemoryStep(m, e).0, SpecStep(c, e).0, e.now)
  {
    assert e == [e][0];
    match e.call
    case ClaimCall(h, ttlMs, token) => MemoryClaimRefines(m, e.now, h, ttlMs, token);
    case CompleteCall(token, record) => MemoryCompleteRefines(m, e.now, token, record);
    case ReleaseCall(token) => ReleaseRefines(m, EMPTY_REDIS, e.now, token);
  }

  /** One event on the Redis store. */
  lemma RedisStepShows(r: RedisCell, c: Cell, e: Event)
    requires RedisShows(r, Expire(c, e.now), e.now) && PositiveTtls([e])
    ensures RedisStep(r, e).1 == SpecStep(c, e).1 && RedisShows(RedisStep(r, e).0, SpecStep(c, e).0, e.now)
  {
    assert e == [e][0];
    match e.call
    case ClaimCall(h, ttlMs, token) => RedisClaimRefines(r, e.now, h, ttlMs, token);
    case CompleteCall(token, record) => RedisCompleteRefines(r, e.now, token, record);
    case ReleaseCall(token) => ReleaseRefines(EMPTY_MEMORY, r, e.now, token);
  }

  /** A prompt run completes the claim it finds in time. */
  lemma PromptCompletion(before: seq<Event>, e: Event)
    requires Prompt(before + [e]) && e.call.CompleteCall? && MemoryOwns(MemoryRun(before).0, e.call.token)
    ensures var claim := MemoryRun(before).0.claim.value;
      e.now < claim.expiresAt && e.call.record.requestHash == claim.requestHash
  {
    ClaimHasOrigin(before);
    var run, claim := before + [e], MemoryRun(before).0.claim.value;
    var o :| o in before && MadeBy(claim, o);
    var i :| 0 <= i < |before| && before[i] == o;
    assert run[i] == o && run[|before|] == e;
    assert CompletesInTime(run[i], run[|before|]);
  }

  /** What the conditions on a run say about its prefix and its last event. */
  lemma SplitConditions(before: seq<Event>, e: Event)
    requires Ordered(before + [e]) && PositiveTtls(before + [e])
    ensures Ordered(before) && PositiveTtls(before) && PositiveTtls([e])
    ensures before != [] ==> before[|before| - 1].now <= e.now
    ensures Prompt(before + [e]) ==> Prompt(before)
  {
    var run := before + [e];
    assert run[|before|] == e;
    assert forall i :: 0 <= i < |before| ==> run[i] == before[i];
  }

  /** The run of one more event. */
  lemma RunsExtend(before: seq<Event>, e: Event)
    ensures MemoryRun(before + [e]) == (var (c, rs) := MemoryRun(before); var (d, r) := MemoryStep(c, e); (d, rs + [r]))
    ensures RedisRun(before + [e]) == (var (c, rs) := RedisRun(before); var (d, r) := RedisStep(c, e); (d, rs + [r]))
    ensures SpecRun(before + [e]) == (var (c, rs) := SpecRun(before); var (d, r) := SpecStep(c, e); (d, rs + [r]))
  {
  }

  lemma EmptyStoresShow(now: Time)
    ensures RedisRun([]) == (EMPTY_REDIS, []) && RedisShows(EMPTY_REDIS, Expire(SpecRun([]).0, now), now)
    ensures MemoryRun([]) == (EMPTY_MEMORY, []) && MemoryShows(EMPTY_MEMORY, Expire(SpecRun([]).0, now), now)
    ensures SpecRun([]).1 == []
  {
  }

  lemma RedisShowsLater(r: RedisCell, c: Cell, now: Time, later: Time)
    requires now <= later && RedisShows(r, c, now)
    ensures RedisShows(r, Expire(c, later), later)
  {
    TimePasses(EMPTY_MEMORY, r, now, later);
  }

  lemma MemoryShowsLater(m: MemoryCell, c: Cell, now: Time, later: Time)
    requires now <= later && MemoryShows(m, c, now)
    ensures MemoryShows(m, Expire(c, later), later)
  {
    TimePasses(m, EMPTY_REDIS, now, later);
  }

  /** Main result: on every run the Redis store gives the replies of the abstract cell and shows that cell. */
  lemma {:induction false} RedisRefinesTheCell(run: seq<Event>, now: Time)
    requires Ordered(run) && PositiveTtls(run)
    requires run != [] ==> run[|run| - 1].now <= now
    ensures RedisRun(run).1 == SpecRun(run).1 && RedisShows(RedisRun(run).0, Expire(SpecRun(run).0, now), now)
  {
    hide *;
    if run == [] {
      EmptyStoresShow(now);
    } else {
      var before, e := run[..|run| - 1], run[|run| - 1];
      assert run == before + [e];
      SplitConditions(before, e);
      RedisRefinesTheCell(before, e.now);
      RunsExtend(before, e);
      RedisStepShows(RedisRun(before).0, SpecRun(before).0, e);
      RedisShowsLater(RedisRun(run).0, SpecRun(run).0, e.now, now);
    }
  }

  /** Main result: on every run whose completions are prompt so does the in-memory store. */
  lemma {:induction false} MemoryRefinesTheCell(run: seq<Event>, now: Time)
    requires Ordered(run) && PositiveTtls(run) && Prompt(run)
    requires run != [] ==> run[|run| - 1].now <= now
    ensures MemoryRun(run).1 == SpecRun(run).1 && MemoryShows(MemoryRun(run).0, Expire(SpecRun(run).0, now), now)
  {
    hide *;
    if run == [] {
      EmptyStoresShow(now);
    } else {
      var before, e := run[..|run| - 1], run[|run| - 1];
      assert run == before + [e];
      SplitConditions(before, e);
      MemoryRefinesTheCell(before, e.now);
      RunsExtend(before, e);
      if e.call.CompleteCall? && MemoryOwns(MemoryRun(before).0, e.call.token) {
        PromptCompletion(before, e);
      }
      MemoryStepShows(MemoryRun(before).0, SpecRun(before).0, e);
      MemoryShowsLater(MemoryRun(run).0, SpecRun(run).0, e.now, now);
    }
  }

  /** So on prompt runs the two stores cannot be told apart, and show the same cell. */
  lemma StoresAgree(run: seq<Event>, now: Time)
    requires Ordered(run) && PositiveTtls(run) && Prompt(run)
    requires run != [] ==> run[|run| - 1].now <= now
    ensures MemoryRun(run).1 == RedisRun(run).1
    ensures RedisInv(RedisRun(run).0, now) && MemoryView(MemoryRun(run).0, now) == RedisView(RedisRun(run).0, now)
  {
    MemoryRefinesTheCell(run, now);
    RedisRefinesTheCell(run, now);
  }

  /** In every reachable state of the Redis store the three keys are consistent, promptness or not. */
  lemma {:induction false} RedisKeysConsistent(run: seq<Event>, now: Time)
    requires Ordered(run)
    requires run != [] ==> run[|run| - 1].now <= now
    ensures RedisInv(RedisRun(run).0, now)
  {
    if run != [] {
      var before, e := run[..|run| - 1], run[|run| - 1];
      RedisKeysConsistent(before, e.now);
      var r, s := RedisRun(before).0, RedisRun(run).0;
      var record := if e.call.CompleteCall? then e.call.record else Record(Success("", false), None, 200, "", 0);
      match e.call
      case ClaimCall(h, ttlMs, token) => RedisInvPreserved(r, e.now, h, ttlMs, token, record);
      case CompleteCall(token, rec) => RedisInvPreserved(r, e.now, "", 1, token, rec);
      case ReleaseCall(token) => RedisInvPreserved(r, e.now, "", 1, token, record);
      TimePasses(EMPTY_MEMORY, s, e.now, now);
    }
  }

  // ---------------------------------------------------------------------------
  // Finished calls stay finished, on each store
  // ---------------------------------------------------------------------------

  /** The claim that a live claim key stands for, and that the hash key holds its request. */
  predicate Claims(c: RedisCell, e: Event) {
    e.call.ClaimCall? && c.claim.Some? && c.hash.Some?
    && c.claim.value.value == e.call.claimToken && c.hash.value.value == e.call.requestHash
  }

  lemma {:induction false} RedisClaimHasOrigin(run: seq<Event>, now: Time)
    requires Ordered(run)
    requires run != [] ==> run[|run| - 1].now <= now
    ensures Live(RedisRun(run).0.claim, now).Some? ==> exists e :: e in run && Claims(RedisRun(run).0, e)
  {
    if run != [] {
      var before, last := run[..|run| - 1], run[|run| - 1];
      RedisClaimHasOrigin(before, last.now);
      RedisKeysConsistent(before, last.now);
      var c, d := RedisRun(before).0, RedisRun(run).0;
      if Live(d.claim, now).Some? {
        if d == c {
          var e :| e in before && Claims(c, e);
          assert e in run && Claims(d, e);
        } else {
          assert last in run && Claims(d, last);
        }
      }
    }
  }

  /** What a Redis completion leaves behind. */
  predicate RedisDone(c: RedisCell, record: Record) {
    && c.result == Some(Slot(record, record.expiresAt))
    && c.hash.Some? && c.hash.value.expiresAt == record.expiresAt && c.claim.None?
  }

  /** Once completed, the three keys stay as they are, whatever is called, until the record expires. */
  lemma {:induction false} RedisDoneUntilExpiry(run: seq<Event>, i: nat, k: nat)
    requires Ordered(run) && i < k <= |run|
    requires run[i].call.CompleteCall? && RedisRun(run[..i + 1]).1[i] == CompleteReply(true)
    requires run[k - 1].now < run[i].call.record.expiresAt
    ensures RedisRun(run[..k]).0 == RedisRun(run[..i + 1]).0 && RedisDone(RedisRun(run[..k]).0, run[i].call.record)
    ensures exists e :: e in run[..i] && e.call.ClaimCall? && e.call.claimToken == run[i].call.token
                     && RedisRun(run[..k]).0.hash.value.value == e.call.requestHash
    decreases k
  {
    assert run[..k][..k - 1] == run[..k - 1];
    if k == i + 1 {
      RedisCompletionOrigin(run, i);
    } else {
      RedisDoneUntilExpiry(run, i, k - 1);
    }
  }

  lemma RedisCompletionOrigin(run: seq<Event>, i: nat)
    requires Ordered(run) && i < |run|
    requires run[i].call.CompleteCall? && RedisRun(run[..i + 1]).1[i] == CompleteReply(true)
    requires run[i].now < run[i].call.record.expiresAt
    ensures RedisDone(RedisRun(run[..i + 1]).0, run[i].call.record)
    ensures exists e :: e in run[..i] && e.call.ClaimCall? && e.call.claimToken == run[i].call.token
                     && RedisRun(run[..i + 1]).0.hash.value.value == e.call.requestHash
  {
    assert run[..i + 1][..i] == run[..i];
    var c := RedisRun(run[..i]).0;
    RedisClaimHasOrigin(run[..i], run[i].now);
    RedisKeysConsistent(run[..i], run[i].now);
    var e :| e in run[..i] && Claims(c, e);
    assert e.call.claimToken == run[i].call.token;
  }

  /**
   Main result: on every run, after a completed call every claim up to the record's expiry
   replays the record, if it makes the request that was claimed, and otherwise conflicts.
   */
  lemma RedisRetriesReplay(run: seq<Event>, i: nat, j: nat)
    requires Ordered(run) && i < j < |run|
    requires run[i].call.CompleteCall? && RedisRun(run[..i + 1]).1[i] == CompleteReply(true)
    requires run[j].call.ClaimCall? && run[j].now < run[i].call.record.expiresAt
    ensures exists e :: (
      && e in run[..i] && e.call.ClaimCall? && e.call.claimToken == run[i].call.token
      && RedisRun(run[..j + 1]).1[j]
           == ClaimReply(if run[j].call.requestHash == e.call.requestHash then Replay(run[i].call.record) else Conflict))
  {
    RedisDoneUntilExpiry(run, i, j);
    assert run[..j + 1][..j] == run[..j];
  }

  /** The in-memory store, late completions included. */
  lemma {:induction false} MemoryDoneUntilExpiry(run: seq<Event>, i: nat, k: nat)
    requires Ordered(run) && i < k <= |run|
    requires run[i].call.CompleteCall? && MemoryRun(run[..i + 1]).1[i] == CompleteReply(true)
    requires run[k - 1].now < run[i].call.record.expiresAt
    ensures MemoryRun(run[..k]).0 == MemoryCell(Some(run[i].call.record), None)
    decreases k
  {
    assert run[..k][..k - 1] == run[..k - 1];
    if k > i + 1 {
      MemoryDoneUntilExpiry(run, i, k - 1);
    }
  }

  lemma MemoryRetriesReplay(run: seq<Event>, i: nat, j: nat)
    requires Ordered(run) && i < j < |run|
    requires run[i].call.CompleteCall? && MemoryRun(run[..i + 1]).1[i] == CompleteReply(true)
    requires run[j].call.ClaimCall? && run[j].now < run[i].call.record.expiresAt
    ensures var record := run[i].call.record;
      MemoryRun(run[..j + 1]).1[j]
        == ClaimReply(if run[j].call.requestHash == record.requestHash then Replay(record) else Conflict)
  {
    MemoryDoneUntilExpiry(run, i, j);
    assert run[..j + 1][..j] == run[..j];
  }
}
