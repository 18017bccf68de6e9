/**
 What a caller is answered, over every run: the answer to a claim is read off what the other
 callers have done with theirs. A claim that was given up or has run out is free again, and a
 recorded result is replayed until its own expiry.
 */
module IdempotencyAnswers {
  import opened Wrappers
  import opened IdempotencyStore
  import opened IdempotencyRefinement
  import opened IdempotencyProtocol

  /** The record a caller has stored, if it got that far. */
  function RecordIn(p: Phase): Option<Record> {
    if p.Finished? && p.end.Recorded? then p.end.stored else None
  }

  /** The caller's release reached the store. */
  predicate GaveUp(p: Phase) {
    p.Finished? && p.end.Released? && p.end.applied
  }

  /** A caller keeps the key while its record lives, or else while its claim is neither given up nor over. */
  predicate Blocks(p: Phase, now: Time) {
    && HasAttempt(p)
    && if RecordIn(p).Some? then now < RecordIn(p).value.expiresAt
       else !GaveUp(p) && now < p.attempt.claimedAt + p.attempt.ttlMs
  }

  /** What the store shows while a caller keeps the key. */
  function Shown(p: Phase): Cell
    requires HasAttempt(p)
  {
    if RecordIn(p).Some? then Done(RecordIn(p).value.requestHash, RecordIn(p).value, RecordIn(p).value.expiresAt)
    else Held(p.attempt.requestHash, p.attempt.token, p.attempt.claimedAt + p.attempt.ttlMs)
  }

  ghost predicate Shows(s: State)
    requires StoreInv(s.store, s.now)
  {
    forall id :: id in s.callers && Blocks(s.callers[id], s.now) ==> View(s.store, s.now) == Shown(s.callers[id])
  }

  ghost predicate Owned(s: State)
    requires StoreInv(s.store, s.now)
  {
    View(s.store, s.now) != Free ==> exists id :: id in s.callers && Blocks(s.callers[id], s.now)
  }

  /** A stored record belongs to the request its caller made. */
  ghost predicate RecordsBound(s: State) {
    forall id :: id in s.callers && RecordIn(s.callers[id]).Some? ==>
      RecordIn(s.callers[id]).value.requestHash == s.callers[id].attempt.requestHash
  }

  ghost predicate AnswerInv(s: State) {
    Inv(s) && Shows(s) && Owned(s) && RecordsBound(s)
  }

  /** What a completion does to the cell, accepted or not. */
  lemma CompletionIsExact(s: Store, now: Time, token: Token, record: Record)
    requires StoreInv(s, now) && now < record.expiresAt
    requires View(s, now).Held? && View(s, now).token == token ==> View(s, now).requestHash == record.requestHash
    ensures var c, (d, completed) := View(s, now), StoreComplete(s, now, token, record);
      && StoreInv(d, now)
      && (c.Held? && c.token == token ==> completed)
      && (completed ==> c == Free || (c.Held? && c.token == token))
      && View(d, now) == if completed then Done(record.requestHash, record, record.expiresAt) else c
  {
  }

  lemma TickAnswers(s: State, now: Time)
    requires AnswerInv(s) && s.now <= now
    ensures AnswerInv(s.(now := now))
  {
    StoreAges(s.store, s.now, now);
    TickKeeps(s, now);
  }

  lemma BeginAnswers(s: State, a: Action)
    requires AnswerInv(s) && a.Begin? && Enabled(s, a)
    ensures AnswerInv(Perform(s, a))
  {
    hide Guarded, Separated, RepliesSound, StoreClaim, View, StoreInv, RedisClaim, MemoryClaim;
    StoreClaimView(s.store, s.now, a.requestHash, a.ttlMs, a.token);
    BeginKeeps(s, a);
    BlockersStay(s, Perform(s, a), a.id);
    assert a.id in Perform(s, a).callers;
  }

  /** A step of one caller leaves the others where they are. */
  lemma BlockersStay(s: State, t: State, moved: nat)
    requires t.now == s.now && t.callers.Keys == s.callers.Keys + {moved}
    requires forall id :: id in s.callers && id != moved ==> t.callers[id] == s.callers[id]
    requires moved in s.callers && Blocks(s.callers[moved], s.now) ==> Blocks(t.callers[moved], t.now)
    ensures (exists id :: id in s.callers && Blocks(s.callers[id], s.now)) ==> exists id :: id in t.callers && Blocks(t.callers[id], t.now)
  {
    if id :| id in s.callers && Blocks(s.callers[id], s.now) {
      assert id in t.callers && Blocks(t.callers[id], t.now);
    }
  }

  lemma ReleaseAnswers(s: State, a: Action)
    requires AnswerInv(s) && a.Release? && Enabled(s, a)
    ensures AnswerInv(Perform(s, a))
  {
    hide Guarded, Separated, RepliesSound, StoreRelease, View, StoreInv;
    StoreReleaseView(s.store, s.now, s.callers[a.id].attempt.token);
    ReleaseKeeps(s, a);
    if View(Perform(s, a).store, s.now) != Free {
      BlockersStay(s, Perform(s, a), a.id);
    }
  }

  lemma CompleteAnswers(s: State, a: Action)
    requires AnswerInv(s) && a.Complete? && Enabled(s, a)
    ensures AnswerInv(Perform(s, a))
  {
    hide Guarded, Separated, RepliesSound, StoreComplete, View, StoreInv;
    var p := s.callers[a.id];
    CompletionIsExact(s.store, s.now, p.attempt.token, RecordOf(s, p.attempt, p.result));
    CompleteKeeps(s, a);
    BlockersStay(s, Perform(s, a), a.id);
  }

  /** Steps between a claim and its end leave what the caller keeps as it is. */
  lemma PhaseAnswers(s: State, id: nat, p: Phase)
    requires AnswerInv(s) && id in s.callers && HasAttempt(s.callers[id]) && HasAttempt(p)
    requires p.attempt == s.callers[id].attempt && Inv(s.(callers := s.callers[id := p]))
    requires !s.callers[id].Finished? && (p.Finished? ==> p.end.Uncertain?)
    ensures AnswerInv(s.(callers := s.callers[id := p]))
  {
    hide AttemptsSound, TokensDistinct, Guarded, Separated, RepliesSound, View, StoreInv;
    BlockersStay(s, s.(callers := s.callers[id := p]), id);
  }

  lemma AnswerStep(s: State, a: Action)
    requires AnswerInv(s) && Enabled(s, a)
    ensures AnswerInv(Perform(s, a))
  {
    hide AnswerInv, Inv;
    assert Inv(Perform(s, a)) by {
      assert Inv(s) by { AnswerInvHolds(s); }
      StepKeeps(s, a);
    }
    match a
    case Tick(now) => TickAnswers(s, now);
    case Begin(_, _, _, _, _) => BeginAnswers(s, a);
    case InvokeThrows(id) => PhaseAnswers(s, id, RollingBack(s.callers[id].attempt));
    case InvokeReturns(id, result) => PhaseAnswers(s, id, Committing(s.callers[id].attempt, result));
    case TransactionEnds(id, threw) => PhaseAnswers(s, id, AfterTransaction(s.callers[id], threw));
    case Release(_, _) => ReleaseAnswers(s, a);
    case Complete(_, _) => CompleteAnswers(s, a);
  }

  lemma AnswerInvHolds(s: State)
    requires AnswerInv(s)
    ensures Inv(s)
  {
  }

  lemma {:induction false} ReachableAnswers(s: State, actions: seq<Action>)
    requires Initial(s) && Run(s, actions).Some?
    ensures AnswerInv(Run(s, actions).value)
  {
    if actions != [] {
      ReachableAnswers(s, actions[..|actions| - 1]);
      AnswerStep(Run(s, actions[..|actions| - 1]).value, actions[|actions| - 1]);
    }
  }

  // ---------------------------------------------------------------------------
  // The answer to a claim
  // ---------------------------------------------------------------------------

  /** The refusal of a later caller, told from what the blocking one has done. */
  function RefusedBy(p: Phase, b: Action): Phase
    requires HasAttempt(p) && b.Begin?
  {
    Refused(b.principal, b.requestHash,
            if b.requestHash != p.attempt.requestHash then Conflict
            else if RecordIn(p).Some? then Replay(RecordIn(p).value)
            else InProgress)
  }

  function Granted(b: Action, now: Time): Phase
    requires b.Begin?
  {
    Invoking(Attempt(b.principal, b.requestHash, b.token, now, b.ttlMs))
  }

  lemma AnswerIsExact(s: State, b: Action)
    requires AnswerInv(s) && b.Begin? && Enabled(s, b)
    ensures (forall id :: id in s.callers ==> !Blocks(s.callers[id], s.now)) ==> Perform(s, b).callers[b.id] == Granted(b, s.now)
    ensures forall id :: id in s.callers && Blocks(s.callers[id], s.now) ==> Perform(s, b).callers[b.id] == RefusedBy(s.callers[id], b)
  {
    hide StoreClaim, View, StoreInv;
    StoreClaimView(s.store, s.now, b.requestHash, b.ttlMs, b.token);
  }

  /**
   Main result: over every run and either store, a claim is granted if and only if no other
   caller keeps the key; and the caller that keeps it decides the refusal: a conflict for
   another request, a replay of its record, or "in progress".
   */
  lemma BeginIsExact(s: State, actions: seq<Action>, b: Action)
    requires Initial(s) && Run(s, actions).Some? && b.Begin? && Enabled(Run(s, actions).value, b)
    ensures var t := Run(s, actions).value; var answer := Perform(t, b).callers[b.id];
      && (answer == Granted(b, t.now) <==> forall id :: id in t.callers ==> !Blocks(t.callers[id], t.now))
      && (forall id :: id in t.callers && Blocks(t.callers[id], t.now) ==> answer == RefusedBy(t.callers[id], b))
  {
    ReachableAnswers(s, actions);
    AnswerIsExact(Run(s, actions).value, b);
  }

  lemma RunExtends(s: State, actions: seq<Action>, a: Action)
    ensures Run(s, actions + [a])
         == if Run(s, actions).Some? && Enabled(Run(s, actions).value, a) then Some(Perform(Run(s, actions).value, a)) else None
  {
    assert (actions + [a])[..|actions|] == actions;
  }

  /** A finished caller stays as it is. */
  lemma {:induction false} FinishedStays(s: State, actions: seq<Action>, more: seq<Action>, id: nat)
    requires Run(s, actions + more).Some?
    ensures Run(s, actions).Some?
    ensures var t, u := Run(s, actions).value, Run(s, actions + more).value;
      && t.now <= u.now
      && (id in t.callers && t.callers[id].Finished? ==> id in u.callers && u.callers[id] == t.callers[id])
  {
    if more == [] {
      assert actions + more == actions;
    } else {
      var rest, last := more[..|more| - 1], more[|more| - 1];
      assert actions + more == (actions + rest) + [last];
      RunExtends(s, actions + rest, last);
      FinishedStays(s, actions, rest, id);
    }
  }

  /** In time, the caller with the claim is alone. */
  lemma HolderIsAlone(s: State, id: nat, other: nat)
    requires AnswerInv(s) && id in s.callers && other in s.callers && id != other
    requires HasAttempt(s.callers[id]) && !s.callers[id].Finished? && Deadline(s.callers[id].attempt, s.now)
    ensures !Blocks(s.callers[other], s.now)
  {
    assert Blocks(s.callers[id], s.now);
    assert View(s.store, s.now) == Shown(s.callers[id]);
  }

  /** Where a run leaves a caller, if the run is possible. */
  function PhaseAfter(s: State, actions: seq<Action>, id: nat): Option<Phase> {
    if Run(s, actions).Some? && id in Run(s, actions).value.callers then Some(Run(s, actions).value.callers[id]) else None
  }

  /** A caller that has won its claim and is in time. */
  predicate InTime(s: State, actions: seq<Action>, id: nat) {
    && PhaseAfter(s, actions, id).Some? && HasAttempt(PhaseAfter(s, actions, id).value)
    && Deadline(PhaseAfter(s, actions, id).value.attempt, Run(s, actions).value.now)
  }

  /** The last step of a caller in time, the clock, and the next claim. */
  lemma FinishThenBegin(s: State, actions: seq<Action>, id: nat, a: Action, later: Time, b: Action)
    requires Initial(s) && InTime(s, actions, id) && !PhaseAfter(s, actions, id).value.Finished?
    requires a == Release(id, true) || a == Complete(id, true) || a == TransactionEnds(id, true)
    requires b.Begin? && Enabled(Run(s, actions).value, a) && Enabled(Run(s, actions).value, b)
    requires Run(s, actions).value.now <= later
    ensures var p := Perform(Run(s, actions).value, a).callers[id]; var run := actions + [a, Tick(later), b];
      && p.Finished? && p.attempt == PhaseAfter(s, actions, id).value.attempt && PhaseAfter(s, run, id) == Some(p)
      && PhaseAfter(s, run, b.id) == Some(if Blocks(p, later) then RefusedBy(p, b) else Granted(b, later))
  {
    hide Blocks, RefusedBy, AnswerInv, StoreRelease, StoreComplete, StoreInv;
    var t := Run(s, actions).value;
    var u := Perform(t, a);
    ReachableAnswers(s, actions);
    AnswerStep(t, a);
    AnswerStep(u, Tick(later));
    var v := Perform(u, Tick(later));
    forall other | other in v.callers && other != id ensures !Blocks(v.callers[other], later) {
      HolderIsAlone(t, id, other);
      BlocksLess(t.callers[other], t.now, later);
    }
    AnswerIsExact(v, b);
    RunExtends(s, actions, a);
    RunExtends(s, actions + [a], Tick(later));
    RunExtends(s, actions + [a] + [Tick(later)], b);
    assert actions + [a] + [Tick(later)] + [b] == actions + [a, Tick(later), b];
  }

  lemma BlocksLess(p: Phase, now: Time, later: Time)
    requires now <= later
    ensures Blocks(p, later) ==> Blocks(p, now)
  {
  }

  // ---------------------------------------------------------------------------
  // Whole calls
  // ---------------------------------------------------------------------------

  /** A release that reaches the store frees the key at once. */
  lemma ReleaseFrees(s: State, actions: seq<Action>, id: nat, later: Time, b: Action)
    requires Initial(s) && InTime(s, actions, id) && PhaseAfter(s, actions, id).value.Releasing?
    requires b.Begin? && Enabled(Run(s, actions).value, b) && Run(s, actions).value.now <= later
    ensures PhaseAfter(s, actions + [Release(id, true), Tick(later), b], b.id) == Some(Granted(b, later))
  {
    FinishThenBegin(s, actions, id, Release(id, true), later, b);
  }

  /** A completion in time is accepted. */
  lemma CompletionIsStored(s: State, id: nat)
    requires AnswerInv(s) && id in s.callers && s.callers[id].Completing? && Deadline(s.callers[id].attempt, s.now)
    ensures var p := s.callers[id];
      Perform(s, Complete(id, true)).callers[id]
        == Finished(p.attempt, Recorded(p.result, Some(RecordOf(s, p.attempt, p.result))))
  {
    hide TokensDistinct, Guarded, Separated, RepliesSound, View, StoreInv, StoreComplete;
    var p := s.callers[id];
    assert Blocks(p, s.now);
    CompletionIsExact(s.store, s.now, p.attempt.token, RecordOf(s, p.attempt, p.result));
  }

  /**
   A completion that reaches the store in time is replayed: whatever happens in between, a
   claim for the same request made before the record's expiry is answered with the record.
   */
  lemma CompletionReplays(s: State, actions: seq<Action>, id: nat, more: seq<Action>, b: Action)
    requires Initial(s) && InTime(s, actions, id) && PhaseAfter(s, actions, id).value.Completing?
    requires var run := actions + [Complete(id, true)] + more;
      b.Begin? && Run(s, run).Some? && Enabled(Run(s, run).value, b)
    ensures var t, p, run := Run(s, actions).value, PhaseAfter(s, actions, id).value, actions + [Complete(id, true)] + more;
      Run(s, run).value.now < t.now + p.attempt.ttlMs ==>
        PhaseAfter(s, run + [b], b.id)
          == Some(Refused(b.principal, b.requestHash,
                          if b.requestHash == p.attempt.requestHash then Replay(RecordOf(t, p.attempt, p.result)) else Conflict))
  {
    hide StoreInv, StoreComplete, StoreClaim, AnswerInv;
    var t, run := Run(s, actions).value, actions + [Complete(id, true)];
    var p := t.callers[id];
    var record := RecordOf(t, p.attempt, p.result);
    ReachableAnswers(s, actions);
    CompletionIsStored(t, id);
    RunExtends(s, actions, Complete(id, true));
    FinishedStays(s, run, more, id);
    RunExtends(s, run + more, b);
    if Run(s, run + more).value.now < t.now + p.attempt.ttlMs {
      BeginIsExact(s, run + more, b);
      assert Blocks(Run(s, run + more).value.callers[id], Run(s, run + more).value.now);
    }
  }

  /** A completion in time, the clock, and the next claim. */
  lemma CompleteThenBegin(s: State, actions: seq<Action>, id: nat, later: Time, b: Action)
    requires Initial(s) && InTime(s, actions, id) && PhaseAfter(s, actions, id).value.Completing?
    requires b.Begin? && Enabled(Run(s, actions).value, b) && Run(s, actions).value.now <= later
    ensures var t, p := Run(s, actions).value, PhaseAfter(s, actions, id).value;
      var record := RecordOf(t, p.attempt, p.result);
      PhaseAfter(s, actions + [Complete(id, true), Tick(later), b], b.id)
        == Some(if later < record.expiresAt
                then Refused(b.principal, b.requestHash, if b.requestHash == p.attempt.requestHash then Replay(record) else Conflict)
                else Granted(b, later))
  {
    hide AnswerInv;
    ReachableAnswers(s, actions);
    CompletionIsStored(Run(s, actions).value, id);
    FinishThenBegin(s, actions, id, Complete(id, true), later, b);
  }

  /** Where a caller stands when its tool has returned and its transaction has ended. */
  lemma ReturnedPhase(s: State, actions: seq<Action>, id: nat, result: ToolResult, b: Action)
    requires InTime(s, actions, id) && PhaseAfter(s, actions, id).value.Invoking?
    requires b.Begin? && Enabled(Run(s, actions).value, b)
    ensures var t, run := Run(s, actions).value, actions + [InvokeReturns(id, result), TransactionEnds(id, false)];
      var a := PhaseAfter(s, actions, id).value.attempt;
      && Run(s, run).Some? && Run(s, run).value.now == t.now && Run(s, run).value.redact == t.redact
      && PhaseAfter(s, run, id) == Some(if IsPersistable(result) then Completing(a, result) else Releasing(a, Some(result)))
      && InTime(s, run, id) && Enabled(Run(s, run).value, b)
      && Enabled(Run(s, run).value, if IsPersistable(result) then Complete(id, true) else Release(id, true))
  {
    RunExtends(s, actions, InvokeReturns(id, result));
    RunExtends(s, actions + [InvokeReturns(id, result)], TransactionEnds(id, false));
    assert actions + [InvokeReturns(id, result)] + [TransactionEnds(id, false)]
        == actions + [InvokeReturns(id, result), TransactionEnds(id, false)];
  }

  /**
   Main result: how a call that returned decides the next one. Behind a committed success, and
   a failure below 500 other than 401, 403, 408 and 429, the same request is answered with the
   redacted result and its status for a whole TTL, another request conflicts, and then the key
   is free. Behind any other failure it is free at once.
   */
  lemma ReturnedCallIsAnswered(s: State, actions: seq<Action>, id: nat, result: ToolResult, later: Time, b: Action)
    requires Initial(s) && InTime(s, actions, id) && PhaseAfter(s, actions, id).value.Invoking?
    requires b.Begin? && Enabled(Run(s, actions).value, b) && Run(s, actions).value.now <= later
    ensures var t, a := Run(s, actions).value, PhaseAfter(s, actions, id).value.attempt;
      var kept := result.Success? || (result.statusCode < 500 && result.statusCode !in {401, 403, 408, 429});
      var status := if result.Success? then (if result.pending then 202 else 200) else result.statusCode;
      var record := Record(s.redact(result), Some(a.principal), status, a.requestHash, t.now + a.ttlMs);
      var end := if kept then Complete(id, true) else Release(id, true);
      PhaseAfter(s, actions + [InvokeReturns(id, result), TransactionEnds(id, false), end, Tick(later), b], b.id)
        == Some(if kept && later < t.now + a.ttlMs
                then Refused(b.principal, b.requestHash, if b.requestHash == a.requestHash then Replay(record) else Conflict)
                else Granted(b, later))
  {
    hide Perform, Run, Enabled, Initial;
    ReachableReplayInv(s, actions);
    var steps := [InvokeReturns(id, result), TransactionEnds(id, false)];
    ReturnedPhase(s, actions, id, result, b);
    if IsPersistable(result) {
      CompleteThenBegin(s, actions + steps, id, later, b);
      assert actions + steps + [Complete(id, true), Tick(later), b]
          == actions + [InvokeReturns(id, result), TransactionEnds(id, false), Complete(id, true), Tick(later), b];
    } else {
      ReleaseFrees(s, actions + steps, id, later, b);
      assert actions + steps + [Release(id, true), Tick(later), b]
          == actions + [InvokeReturns(id, result), TransactionEnds(id, false), Release(id, true), Tick(later), b];
    }
  }

  /** A call that threw is rolled back and its key is free at once. */
  lemma ThrownCallFrees(s: State, actions: seq<Action>, id: nat, later: Time, b: Action)
    requires Initial(s) && InTime(s, actions, id) && PhaseAfter(s, actions, id).value.Invoking?
    requires b.Begin? && Enabled(Run(s, actions).value, b) && Run(s, actions).value.now <= later
    ensures var run := actions + [InvokeThrows(id), TransactionEnds(id, false), Release(id, true), Tick(later), b];
      PhaseAfter(s, run, b.id) == Some(Granted(b, later))
  {
    hide StoreInv, StoreComplete, StoreRelease, StoreClaim, AnswerInv, Initial;
    var steps := [InvokeThrows(id), TransactionEnds(id, false)];
    RunExtends(s, actions, steps[0]);
    RunExtends(s, actions + [steps[0]], steps[1]);
    assert actions + [steps[0]] + [steps[1]] == actions + steps;
    FinishThenBegin(s, actions + steps, id, Release(id, true), later, b);
    assert actions + steps + [Release(id, true), Tick(later), b]
        == actions + [InvokeThrows(id), TransactionEnds(id, false), Release(id, true), Tick(later), b];
  }

  /** A commit or rollback that threw keeps the key for the rest of the claim's TTL, and no longer. */
  lemma UncertainCallBlocks(s: State, actions: seq<Action>, id: nat, ended: Action, later: Time, b: Action)
    requires Initial(s) && InTime(s, actions, id) && PhaseAfter(s, actions, id).value.Invoking?
    requires ended == InvokeThrows(id) || (ended.InvokeReturns? && ended.id == id)
    requires b.Begin? && Enabled(Run(s, actions).value, b) && Run(s, actions).value.now <= later
    ensures var a := PhaseAfter(s, actions, id).value.attempt;
      PhaseAfter(s, actions + [ended, TransactionEnds(id, true), Tick(later), b], b.id)
        == Some(if later < a.claimedAt + a.ttlMs
                then Refused(b.principal, b.requestHash, if b.requestHash == a.requestHash then InProgress else Conflict)
                else Granted(b, later))
  {
    RunExtends(s, actions, ended);
    FinishThenBegin(s, actions + [ended], id, TransactionEnds(id, true), later, b);
    assert actions + [ended] + [TransactionEnds(id, true), Tick(later), b]
        == actions + [ended, TransactionEnds(id, true), Tick(later), b];
  }
}
