/**
 Any number of callers executing tool calls under one storage key, interleaved in any
 order, over either store. One action is one await of a caller or a tick of the clock; a
 caller that crashes takes no further action.
 */
module IdempotencyProtocol {
  import opened Wrappers
  import opened IdempotencyStore
  import opened IdempotencyRefinement

  datatype Store = InMemory(memory: MemoryCell) | Redis(redis: RedisCell)

  /** A won claim: whose it is, for what request, under which token, since when, and for how long. */
  datatype Attempt = Attempt(principal: string, requestHash: string, token: Token, claimedAt: Time, ttlMs: int)

  datatype Phase =
    | Refused(principal: string, requestHash: string, outcome: Outcome)
    | Invoking(attempt: Attempt)
    | RollingBack(attempt: Attempt)
    | Committing(attempt: Attempt, result: ToolResult)
    | Releasing(attempt: Attempt, reply: Option<ToolResult>)
    | Completing(attempt: Attempt, result: ToolResult)
    | Finished(attempt: Attempt, end: End)

  /**
   `Released` tells whether the release reached the store, and without a reply rethrows the
   tool's error; `Recorded` keeps the record that reached the store, if it did; `Uncertain` is
   a commit or rollback that threw.
   */
  datatype End = Released(reply: Option<ToolResult>, applied: bool) | Recorded(result: ToolResult, stored: Option<Record>) | Uncertain

  /** `redact` is what the tool's definition makes of a result before it is stored. */
  datatype State = State(now: Time, store: Store, callers: map<nat, Phase>, redact: ToolResult -> ToolResult)

  datatype Action =
    | Tick(now: Time)
    | Begin(id: nat, principal: string, requestHash: string, ttlMs: int, token: Token)
    | InvokeThrows(id: nat)
    | InvokeReturns(id: nat, result: ToolResult)
    | TransactionEnds(id: nat, threw: bool)
    | Release(id: nat, applied: bool)
    | Complete(id: nat, applied: bool)

  // ---------------------------------------------------------------------------
  // The store, seen through its view
  // ---------------------------------------------------------------------------

  predicate StoreInv(s: Store, now: Time) {
    match s
    case InMemory(m) => MemoryInv(m, now)
    case Redis(r) => RedisInv(r, now)
  }

  function View(s: Store, now: Time): Cell
    requires StoreInv(s, now)
  {
    match s
    case InMemory(m) => MemoryView(m, now)
    case Redis(r) => RedisView(r, now)
  }

  function StoreClaim(s: Store, now: Time, requestHash: string, ttlMs: int, token: Token): (Store, Outcome) {
    match s
    case InMemory(m) => var (d, o) := MemoryClaim(m, now, requestHash, ttlMs, token); (InMemory(d), o)
    case Redis(r) => var (d, o) := RedisClaim(r, now, requestHash, ttlMs, token); (Redis(d), o)
  }

  function StoreComplete(s: Store, now: Time, token: Token, record: Record): (Store, bool) {
    match s
    case InMemory(m) => var (d, b) := MemoryComplete(m, token, record); (InMemory(d), b)
    case Redis(r) => var (d, b) := RedisComplete(r, now, token, record); (Redis(d), b)
  }

  function StoreRelease(s: Store, now: Time, token: Token): Store {
    match s
    case InMemory(m) => InMemory(MemoryRelease(m, token))
    case Redis(r) => Redis(RedisRelease(r, now, token))
  }

  lemma StoreAges(s: Store, now: Time, later: Time)
    requires now <= later && StoreInv(s, now)
    ensures StoreInv(s, later) && View(s, later) == Expire(View(s, now), later)
  {
  }

  lemma StoreClaimView(s: Store, now: Time, requestHash: string, ttlMs: int, token: Token)
    requires StoreInv(s, now) && 1 <= ttlMs
    ensures var (d, outcome) := StoreClaim(s, now, requestHash, ttlMs, token);
      StoreInv(d, now) && (View(d, now), outcome) == SpecClaim(View(s, now), now, requestHash, ttlMs, token)
  {
  }

  lemma StoreReleaseView(s: Store, now: Time, token: Token)
    requires StoreInv(s, now)
    ensures var d := StoreRelease(s, now, token);
      StoreInv(d, now) && View(d, now) == SpecRelease(View(s, now), token)
  {
  }

  predicate Records(cell: Cell, record: Record) {
    cell.Done? && cell.record == record && cell.expiresAt == record.expiresAt
  }

  /** A completion is accepted from the holder, or from a late holder of a free cell, and otherwise changes nothing. */
  lemma StoreCompleteView(s: Store, now: Time, token: Token, record: Record)
    requires StoreInv(s, now) && now < record.expiresAt
    ensures var c, (d, completed) := View(s, now), StoreComplete(s, now, token, record);
      && StoreInv(d, now)
      && (!completed ==> View(d, now) == c)
      && (completed ==> (c == Free || (c.Held? && c.token == token)) && Records(View(d, now), record))
      && (completed && (c.Held? ==> c.requestHash == record.requestHash) ==> View(d, now).requestHash == record.requestHash)
  {
  }

  // ---------------------------------------------------------------------------
  // The callers
  // ---------------------------------------------------------------------------

  predicate HasAttempt(p: Phase) {
    !p.Refused?
  }

  predicate Enabled(s: State, a: Action) {
    match a
    case Tick(now) => s.now <= now
    case Begin(id, _, _, ttlMs, token) =>
      && id !in s.callers && 1 <= ttlMs
      && forall other :: other in s.callers && HasAttempt(s.callers[other]) ==> s.callers[other].attempt.token != token
    case InvokeThrows(id) => id in s.callers && s.callers[id].Invoking?
    case InvokeReturns(id, _) => id in s.callers && s.callers[id].Invoking?
    case TransactionEnds(id, _) => id in s.callers && (s.callers[id].RollingBack? || s.callers[id].Committing?)
    case Release(id, _) => id in s.callers && s.callers[id].Releasing?
    case Complete(id, _) => id in s.callers && s.callers[id].Completing?
  }

  function StatusCode(result: ToolResult): int {
    match result
    case Success(_, pending) => if pending then 202 else 200
    case Failure(statusCode, _) => statusCode
  }

  /** The record a completing caller stores. */
  function RecordOf(s: State, a: Attempt, result: ToolResult): Record {
    Record(s.redact(result), Some(a.principal), StatusCode(result), a.requestHash, s.now + a.ttlMs)
  }

  /**
   `applied` tells whether a release or a completion reached the store: the source swallows
   a failed completion, and a failed release only replaces the error it rethrows.
   */
  function Perform(s: State, a: Action): State
    requires Enabled(s, a)
  {
    match a
    case Tick(now) => s.(now := now)
    case Begin(id, principal, requestHash, ttlMs, token) =>
      var (store, outcome) := StoreClaim(s.store, s.now, requestHash, ttlMs, token);
      s.(store := store, callers := s.callers[id := Begun(s, a, outcome)])
    case InvokeThrows(id) =>
      s.(callers := s.callers[id := RollingBack(s.callers[id].attempt)])
    case InvokeReturns(id, result) =>
      s.(callers := s.callers[id := Committing(s.callers[id].attempt, result)])
    case TransactionEnds(id, threw) =>
      s.(callers := s.callers[id := AfterTransaction(s.callers[id], threw)])
    case Release(id, applied) =>
      var p := s.callers[id];
      s.(store := if applied then StoreRelease(s.store, s.now, p.attempt.token) else s.store,
         callers := s.callers[id := Finished(p.attempt, Released(p.reply, applied))])
    case Complete(id, applied) =>
      var p := s.callers[id];
      var record := RecordOf(s, p.attempt, p.result);
      var (store, completed) := if applied then StoreComplete(s.store, s.now, p.attempt.token, record) else (s.store, false);
      s.(store := store,
         callers := s.callers[id := Finished(p.attempt, Recorded(p.result, if completed then Some(record) else None))])
  }

  /** What the answer to its claim makes of a caller. */
  function Begun(s: State, a: Action, outcome: Outcome): Phase
    requires a.Begin?
  {
    if outcome.Claimed? then Invoking(Attempt(a.principal, a.requestHash, a.token, s.now, a.ttlMs))
    else Refused(a.principal, a.requestHash, outcome)
  }

  function AfterTransaction(p: Phase, threw: bool): Phase
    requires p.RollingBack? || p.Committing?
  {
    if threw then Finished(p.attempt, Uncertain)
    else if p.RollingBack? then Releasing(p.attempt, None)
    else if IsPersistable(p.result) then Completing(p.attempt, p.result)
    else Releasing(p.attempt, Some(p.result))
  }

  predicate Initial(s: State) {
    s.callers == map[] && (s.store == InMemory(EMPTY_MEMORY) || s.store == Redis(EMPTY_REDIS))
  }

  /** The state after a run, or `None` when some action was not enabled. */
  function Run(s: State, actions: seq<Action>): Option<State> {
    if actions == [] then Some(s)
    else
      var before := Run(s, actions[..|actions| - 1]);
      if before.Some? && Enabled(before.value, actions[|actions| - 1])
      then Some(Perform(before.value, actions[|actions| - 1]))
      else None
  }

  // ---------------------------------------------------------------------------
  // What every reachable state satisfies
  // ---------------------------------------------------------------------------

  /** An execution whose claim has not been given up: running, recorded, or uncertain. */
  predicate Retained(p: Phase) {
    HasAttempt(p) && !p.Releasing? && !(p.Finished? && p.end.Released?)
  }

  predicate Deadline(a: Attempt, now: Time) {
    now < a.claimedAt + a.ttlMs
  }

  /** Until its TTL is over, a retained attempt keeps everyone else out. */
  predicate Guards(cell: Cell, a: Attempt) {
    match cell
    case Free => false
    case Held(_, token, expiresAt) => token == a.token && expiresAt == a.claimedAt + a.ttlMs
    case Done(_, _, expiresAt) => a.claimedAt + a.ttlMs <= expiresAt
  }

  predicate Apart(a: Attempt, b: Attempt) {
    a.claimedAt + a.ttlMs <= b.claimedAt || b.claimedAt + b.ttlMs <= a.claimedAt
  }

  ghost predicate AttemptsSound(s: State) {
    forall id :: id in s.callers && HasAttempt(s.callers[id]) ==>
      s.callers[id].attempt.claimedAt <= s.now && 1 <= s.callers[id].attempt.ttlMs
  }

  ghost predicate TokensDistinct(s: State) {
    forall i, j :: i in s.callers && j in s.callers && i != j && HasAttempt(s.callers[i]) && HasAttempt(s.callers[j]) ==>
      s.callers[i].attempt.token != s.callers[j].attempt.token
  }

  ghost predicate Guarded(s: State)
    requires StoreInv(s.store, s.now)
  {
    forall id :: id in s.callers && Retained(s.callers[id]) && Deadline(s.callers[id].attempt, s.now) ==>
      Guards(View(s.store, s.now), s.callers[id].attempt)
  }

  ghost predicate Separated(s: State) {
    forall i, j :: i in s.callers && j in s.callers && i != j && Retained(s.callers[i]) && Retained(s.callers[j]) ==>
      Apart(s.callers[i].attempt, s.callers[j].attempt)
  }

  /** Nothing is given up that may have succeeded, and nothing is recorded that may not be replayed. */
  ghost predicate RepliesSound(s: State) {
    forall id :: id in s.callers ==>
      match s.callers[id]
      case Releasing(_, reply) => reply.Some? ==> !IsPersistable(reply.value)
      case Finished(_, Released(reply, _)) => reply.Some? ==> !IsPersistable(reply.value)
      case Completing(_, result) => IsPersistable(result)
      case Finished(_, Recorded(result, _)) => IsPersistable(result)
      case _ => true
  }

  ghost predicate Inv(s: State) {
    StoreInv(s.store, s.now) && AttemptsSound(s) && TokensDistinct(s) && Guarded(s) && Separated(s) && RepliesSound(s)
  }

  lemma TickKeeps(s: State, now: Time)
    requires Inv(s) && s.now <= now
    ensures Inv(s.(now := now))
  {
    StoreAges(s.store, s.now, now);
  }

  lemma BeginKeeps(s: State, a: Action)
    requires Inv(s) && a.Begin? && Enabled(s, a)
    ensures Inv(Perform(s, a))
  {
    hide StoreClaim, View, StoreInv, RedisClaim, MemoryClaim;
    StoreClaimView(s.store, s.now, a.requestHash, a.ttlMs, a.token);
  }

  /** Steps that leave the store alone and change one caller's phase, not its attempt. */
  lemma CallerKeeps(s: State, id: nat, p: Phase)
    requires Inv(s) && id in s.callers && HasAttempt(s.callers[id]) && HasAttempt(p) && p.attempt == s.callers[id].attempt
    requires Retained(p) ==> Retained(s.callers[id])
    requires RepliesSound(s.(callers := map[id := p]))
    ensures Inv(s.(callers := s.callers[id := p]))
  {
    assert id in map[id := p];
  }

  lemma ReleaseKeeps(s: State, a: Action)
    requires Inv(s) && a.Release? && Enabled(s, a)
    ensures Inv(Perform(s, a))
  {
    StoreReleaseView(s.store, s.now, s.callers[a.id].attempt.token);
  }

  lemma CompleteKeeps(s: State, a: Action)
    requires Inv(s) && a.Complete? && Enabled(s, a)
    ensures Inv(Perform(s, a))
  {
    var p := s.callers[a.id];
    StoreCompleteView(s.store, s.now, p.attempt.token, RecordOf(s, p.attempt, p.result));
  }

  lemma StepKeeps(s: State, a: Action)
    requires Inv(s) && Enabled(s, a)
    ensures Inv(Perform(s, a))
  {
    match a
    case Tick(now) => TickKeeps(s, now);
    case Begin(_, _, _, _, _) => BeginKeeps(s, a);
    case InvokeThrows(id) => CallerKeeps(s, id, RollingBack(s.callers[id].attempt));
    case InvokeReturns(id, result) => CallerKeeps(s, id, Committing(s.callers[id].attempt, result));
    case TransactionEnds(id, threw) => CallerKeeps(s, id, AfterTransaction(s.callers[id], threw));
    case Release(_, _) => ReleaseKeeps(s, a);
    case Complete(_, _) => CompleteKeeps(s, a);
  }

  lemma {:induction false} ReachableInv(s: State, actions: seq<Action>)
    requires Initial(s) && Run(s, actions).Some?
    ensures Inv(Run(s, actions).value)
  {
    if actions != [] {
      ReachableInv(s, actions[..|actions| - 1]);
      StepKeeps(Run(s, actions[..|actions| - 1]).value, actions[|actions| - 1]);
    }
  }

  // ---------------------------------------------------------------------------
  // Replays
  // ---------------------------------------------------------------------------

  /** The caller executed the tool, and this is what it stored of the result. */
  predicate Stored(s: State, p: Phase, record: Record) {
    && p.Finished? && p.end.Recorded? && p.end.stored == Some(record) && IsPersistable(p.end.result)
    && record.result == s.redact(p.end.result) && record.principalFingerprint == Some(p.attempt.principal)
    && record.requestHash == p.attempt.requestHash
  }

  /** Some caller with the same request is where the record comes from. */
  ghost predicate Originates(s: State, record: Record) {
    exists id :: id in s.callers && Stored(s, s.callers[id], record)
  }

  /** A claim holds the hash of the attempt that made it. */
  ghost predicate HashesBound(cell: Cell, callers: map<nat, Phase>) {
    cell.Held? ==> forall id :: id in callers && HasAttempt(callers[id]) && callers[id].attempt.token == cell.token ==>
      callers[id].attempt.requestHash == cell.requestHash
  }

  /** A stored record belongs to its hash and comes from a caller. */
  ghost predicate RecordBound(cell: Cell, s: State) {
    cell.Done? ==> cell.requestHash == cell.record.requestHash && Originates(s, cell.record)
  }

  ghost predicate RepliesBound(s: State) {
    forall id :: id in s.callers && s.callers[id].Refused? && s.callers[id].outcome.Replay? ==>
      && s.callers[id].requestHash == s.callers[id].outcome.record.requestHash
      && Originates(s, s.callers[id].outcome.record)
  }

  ghost predicate ReplayInv(s: State)
    requires StoreInv(s.store, s.now)
  {
    var cell := View(s.store, s.now);
    HashesBound(cell, s.callers) && RecordBound(cell, s) && RepliesBound(s)
  }

  /** A step that overwrites no finished caller keeps every origin. */
  lemma OriginsStay(s: State, t: State, id: nat, p: Phase)
    requires (id in s.callers ==> !s.callers[id].Finished?) && t.callers == s.callers[id := p] && t.redact == s.redact
    ensures forall record :: Originates(s, record) ==> Originates(t, record)
  {
    forall record | Originates(s, record) ensures Originates(t, record) {
      var o :| o in s.callers && Stored(s, s.callers[o], record);
      assert t.callers[o] == s.callers[o] && Stored(t, t.callers[o], record);
    }
  }

  lemma ReplayBeginKeeps(s: State, a: Action)
    requires Inv(s) && ReplayInv(s) && a.Begin? && Enabled(s, a) && Inv(Perform(s, a))
    ensures ReplayInv(Perform(s, a))
  {
    hide Inv, Originates, StoreClaim, View;
    assert StoreInv(s.store, s.now) by { InvStore(s); }
    StoreClaimView(s.store, s.now, a.requestHash, a.ttlMs, a.token);
    OriginsStay(s, Perform(s, a), a.id, Perform(s, a).callers[a.id]);
  }

  lemma InvStore(s: State)
    requires Inv(s)
    ensures StoreInv(s.store, s.now)
  {
  }

  /** Steps that give one caller a new phase with its old attempt, over a cell that only lost information. */
  lemma ReplayCallerKeeps(cell: Cell, next: Cell, s: State, t: State, id: nat, p: Phase)
    requires HashesBound(cell, s.callers) && RecordBound(cell, s) && RepliesBound(s)
    requires next == cell || next == Free
    requires id in s.callers && HasAttempt(s.callers[id]) && !s.callers[id].Finished?
    requires HasAttempt(p) && p.attempt == s.callers[id].attempt
    requires t.callers == s.callers[id := p] && t.redact == s.redact
    ensures HashesBound(next, t.callers) && RecordBound(next, t) && RepliesBound(t)
  {
    hide Originates;
    OriginsStay(s, t, id, p);
  }

  lemma ReplayCompleteKeeps(s: State, a: Action)
    requires Inv(s) && ReplayInv(s) && a.Complete? && Enabled(s, a) && Inv(Perform(s, a))
    ensures ReplayInv(Perform(s, a))
  {
    hide StoreComplete, View, StoreInv, HashesBound, RecordBound, RepliesBound, AttemptsSound, TokensDistinct, Guarded, Separated;
    var p, t := s.callers[a.id], Perform(s, a);
    var record := RecordOf(s, p.attempt, p.result);
    ReplayCallerKeeps(View(s.store, s.now), View(s.store, s.now), s, t, a.id, t.callers[a.id]);
    if a.applied {
      assert StoreInv(s.store, s.now) && 1 <= p.attempt.ttlMs by { InvAttempt(s, a.id); }
      StoreCompleteView(s.store, s.now, p.attempt.token, record);
      if t.callers[a.id].end.stored.Some? {
        CompletionBound(View(s.store, s.now), View(t.store, t.now), s, t, a.id, record);
      }
    }
  }

  /** A completing caller is the origin of the record it stores. */
  lemma CompletionBound(cell: Cell, next: Cell, s: State, t: State, id: nat, record: Record)
    requires HashesBound(cell, s.callers) && id in s.callers && HasAttempt(s.callers[id])
    requires cell == Free || (cell.Held? && cell.token == s.callers[id].attempt.token)
    requires Records(next, record)
    requires (cell.Held? ==> cell.requestHash == record.requestHash) ==> next.requestHash == record.requestHash
    requires id in t.callers && Stored(t, t.callers[id], record) && t.callers[id].attempt == s.callers[id].attempt
    ensures HashesBound(next, t.callers) && RecordBound(next, t)
  {
  }

  lemma InvAttempt(s: State, id: nat)
    requires Inv(s) && id in s.callers && HasAttempt(s.callers[id])
    ensures StoreInv(s.store, s.now) && 1 <= s.callers[id].attempt.ttlMs
  {
  }

  lemma ReplayStepKeeps(s: State, a: Action)
    requires Inv(s) && ReplayInv(s) && Enabled(s, a) && Inv(Perform(s, a))
    ensures ReplayInv(Perform(s, a))
  {
    hide Inv, Originates, HashesBound, RecordBound, RepliesBound, StoreInv, View;
    InvStore(s);
    InvStore(Perform(s, a));
    match a
    case Tick(now) =>
      StoreAges(s.store, s.now, now);
      ExpiredStaysBound(View(s.store, s.now), View(s.store, now), s, Perform(s, a));
    case Begin(_, _, _, _, _) => ReplayBeginKeeps(s, a);
    case Complete(_, _) => ReplayCompleteKeeps(s, a);
    case Release(_, _) =>
      var p, t := s.callers[a.id], Perform(s, a);
      StoreReleaseView(s.store, s.now, p.attempt.token);
      ReplayCallerKeeps(View(s.store, s.now), View(t.store, t.now), s, t, a.id, t.callers[a.id]);
    case _ =>
      var p, t := s.callers[a.id], Perform(s, a);
      ReplayCallerKeeps(View(s.store, s.now), View(t.store, t.now), s, t, a.id, t.callers[a.id]);
  }

  lemma ExpiredStaysBound(cell: Cell, next: Cell, s: State, t: State)
    requires HashesBound(cell, s.callers) && RecordBound(cell, s) && RepliesBound(s) && (next == cell || next == Free)
    requires t.callers == s.callers && t.redact == s.redact
    ensures HashesBound(next, t.callers) && RecordBound(next, t) && RepliesBound(t)
  {
    hide Stored;
    assert forall record :: Originates(s, record) ==> Originates(t, record) by {
      SameOrigins(s, t);
    }
  }

  lemma SameOrigins(s: State, t: State)
    requires t.callers == s.callers && t.redact == s.redact
    ensures forall record :: Originates(s, record) ==> Originates(t, record)
  {
    forall record | Originates(s, record) ensures Originates(t, record) {
      var o :| o in s.callers && Stored(s, s.callers[o], record);
      assert Stored(t, t.callers[o], record);
    }
  }

  lemma {:induction false} ReachableReplayInv(s: State, actions: seq<Action>)
    requires Initial(s) && Run(s, actions).Some?
    ensures Inv(Run(s, actions).value) && ReplayInv(Run(s, actions).value) && Run(s, actions).value.redact == s.redact
  {
    ReachableInv(s, actions);
    if actions != [] {
      var before := actions[..|actions| - 1];
      ReachableReplayInv(s, before);
      ReplayStepKeeps(Run(s, before).value, actions[|actions| - 1]);
    }
  }

  const FORBIDDEN := Failure(403, "The operation was not repeated.")

  /** `authorizeIdempotentReplay`, with the verdict of the current policy. */
  function AuthorizedReplay(principal: string, record: Record, allowed: bool): ToolResult {
    if !allowed then FORBIDDEN
    else if record.principalFingerprint != Some(principal) then FORBIDDEN
    else record.result
  }

  /**
   Main result: a replay is genuine. Over every run, a caller that finds a stored record made
   the same request as some caller that executed the tool and stored it; and it is answered
   with that caller's redacted result if the policy still allows it and the principals are
   the same, and refused otherwise.
   */
  lemma ReplaysAreGenuine(s: State, actions: seq<Action>, id: nat, allowed: bool)
    requires Initial(s) && Run(s, actions).Some? && id in Run(s, actions).value.callers
    requires var p := Run(s, actions).value.callers[id]; p.Refused? && p.outcome.Replay?
    ensures var t := Run(s, actions).value; var p := t.callers[id];
      exists o :: (
        && o in t.callers && t.callers[o].Finished? && t.callers[o].end.Recorded? && IsPersistable(t.callers[o].end.result)
        && t.callers[o].attempt.requestHash == p.requestHash
        && AuthorizedReplay(p.principal, p.outcome.record, allowed)
             == if allowed && t.callers[o].attempt.principal == p.principal then s.redact(t.callers[o].end.result) else FORBIDDEN)
  {
    ReachableReplayInv(s, actions);
    var t := Run(s, actions).value;
    var record := t.callers[id].outcome.record;
    assert Originates(t, record);
    var o :| o in t.callers && Stored(t, t.callers[o], record);
    assert t.callers[o].attempt.requestHash == t.callers[id].requestHash;
  }

  // ---------------------------------------------------------------------------
  // At most one success per window
  // ---------------------------------------------------------------------------

  /**
   Main result: over every interleaving of any number of callers, two executions that may
   have succeeded were claimed at least the earlier claim's TTL apart. The same holds for
   executions that are still running.
   */
  lemma AtMostOncePerWindow(s: State, actions: seq<Action>, i: nat, j: nat)
    requires Initial(s) && Run(s, actions).Some?
    requires var callers := Run(s, actions).value.callers;
      i in callers && j in callers && i != j && Retained(callers[i]) && Retained(callers[j])
    ensures var callers := Run(s, actions).value.callers;
      Apart(callers[i].attempt, callers[j].attempt)
  {
    ReachableInv(s, actions);
  }

  /** What a caller that gives its claim up answers; `None` is the tool's own error, thrown on behind a rollback. */
  function GivenUp(p: Phase): Option<ToolResult>
    requires HasAttempt(p) && !Retained(p)
  {
    if p.Releasing? then p.reply else p.end.reply
  }

  /** A claim is only given up behind a completed rollback or for a failed result that is not stored, never behind a success. */
  lemma {:induction false} SuccessesAreRetained(s: State, actions: seq<Action>, id: nat)
    requires Initial(s) && Run(s, actions).Some? && id in Run(s, actions).value.callers
    ensures var p := Run(s, actions).value.callers[id];
      HasAttempt(p) && !Retained(p) ==>
        GivenUp(p).None? || (GivenUp(p).value.Failure? && !IsPersistable(GivenUp(p).value))
  {
    ReachableInv(s, actions);
  }

  /** A claim kept by a crashed or uncertain caller still blocks every other caller until its TTL is over. */
  lemma KeptClaimBlocks(s: State, actions: seq<Action>, id: nat, a: Action)
    requires Initial(s) && Run(s, actions).Some? && a.Begin?
    requires var t := Run(s, actions).value;
      Enabled(t, a) && id in t.callers && Retained(t.callers[id]) && Deadline(t.callers[id].attempt, t.now)
    ensures Perform(Run(s, actions).value, a).callers[a.id].Refused?
  {
    ReachableInv(s, actions);
    var t := Run(s, actions).value;
    StoreClaimView(t.store, t.now, a.requestHash, a.ttlMs, a.token);
  }
}
