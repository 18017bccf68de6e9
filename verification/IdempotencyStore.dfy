/**
 The two idempotency stores. Everything a store does happens at one storage key, so
 each store is specified by functions on the state it keeps for one key (its "cell").
 Time is in milliseconds since the epoch; `complete` returns `false` where the source
 throws because the claim's ownership was lost.
 */
module IdempotencyStore {
  import opened Wrappers

  type Time = int
  type Token = string

  datatype ToolResult =
    | Success(output: string, pending: bool)
    | Failure(statusCode: int, message: string)

  /** Which results may be replayed. */
  predicate IsPersistable(result: ToolResult) {
    result.Success? || (result.statusCode < 500 && result.statusCode !in {401, 403, 408, 429})
  }

  datatype Record = Record(result: ToolResult, principalFingerprint: Option<string>,
                           statusCode: int, requestHash: string, expiresAt: Time)

  datatype Outcome = Claimed(token: Token) | InProgress | Replay(record: Record) | Conflict

  function Max(x: int, y: int): int {
    if x < y then y else x
  }

  // ---------------------------------------------------------------------------
  // The abstract cell both stores implement
  // ---------------------------------------------------------------------------

  datatype Cell =
    | Free
    | Held(requestHash: string, token: Token, expiresAt: Time)
    | Done(requestHash: string, record: Record, expiresAt: Time)

  /** What is left of a cell once the clock shows `now`. */
  function Expire(cell: Cell, now: Time): Cell {
    if cell != Free && cell.expiresAt <= now then Free else cell
  }

  function SpecClaim(cell: Cell, now: Time, requestHash: string, ttlMs: int, token: Token): (Cell, Outcome) {
    match cell
    case Free => (Held(requestHash, token, now + ttlMs), Claimed(token))
    case Held(h, _, _) => (cell, if h == requestHash then InProgress else Conflict)
    case Done(h, record, _) => (cell, if h == requestHash then Replay(record) else Conflict)
  }

  function SpecComplete(cell: Cell, token: Token, record: Record): (Cell, bool) {
    if cell.Held? && cell.token == token
    then (Done(cell.requestHash, record, record.expiresAt), true)
    else (cell, false)
  }

  function SpecRelease(cell: Cell, token: Token): Cell {
    if cell.Held? && cell.token == token then Free else cell
  }

  // ---------------------------------------------------------------------------
  // The process-local store: one Map of records, one Map of claims
  // ---------------------------------------------------------------------------

  datatype PendingClaim = PendingClaim(requestHash: string, token: Token, expiresAt: Time)

  datatype MemoryCell = MemoryCell(entry: Option<Record>, claim: Option<PendingClaim>)

  const EMPTY_MEMORY := MemoryCell(None, None)

  predicate RecordLive(c: MemoryCell, now: Time) {
    c.entry.Some? && now < c.entry.value.expiresAt
  }

  predicate ClaimLive(c: MemoryCell, now: Time) {
    c.claim.Some? && now < c.claim.value.expiresAt
  }

  /** `get` drops an expired record. */
  function MemoryGet(c: MemoryCell, now: Time): MemoryCell {
    if RecordLive(c, now) then c else c.(entry := None)
  }

  function MemoryClaim(c: MemoryCell, now: Time, requestHash: string, ttlMs: int, token: Token): (MemoryCell, Outcome) {
    var d := MemoryGet(c, now);
    if d.entry.Some? then
      (d, if d.entry.value.requestHash == requestHash then Replay(d.entry.value) else Conflict)
    else if ClaimLive(d, now) then
      (d, if d.claim.value.requestHash == requestHash then InProgress else Conflict)
    else
      (d.(claim := Some(PendingClaim(requestHash, token, now + ttlMs))), Claimed(token))
  }

  predicate MemoryOwns(c: MemoryCell, token: Token) {
    c.claim.Some? && c.claim.value.token == token
  }

  /** Ownership is decided by the token alone: an expired claim nobody replaced still counts. */
  function MemoryComplete(c: MemoryCell, token: Token, record: Record): (MemoryCell, bool) {
    if MemoryOwns(c, token) then (MemoryCell(Some(record), None), true) else (c, false)
  }

  function MemoryRelease(c: MemoryCell, token: Token): MemoryCell {
    if MemoryOwns(c, token) then c.(claim := None) else c
  }

  function Find<T>(m: map<string, T>, key: string): Option<T> {
    if key in m then Some(m[key]) else None
  }

  class InMemoryIdempotencyStore {
    var entries: map<string, Record>
    var claims: map<string, PendingClaim>

    constructor ()
      ensures forall key :: Cell(key) == EMPTY_MEMORY
    {
      entries, claims := map[], map[];
    }

    ghost function Cell(key: string): MemoryCell
      reads this
    {
      MemoryCell(Find(entries, key), Find(claims, key))
    }

    method Get(key: string, now: Time) returns (record: Option<Record>)
      modifies this
      ensures Cell(key) == MemoryGet(old(Cell(key)), now)
      ensures record == Cell(key).entry
      ensures forall other :: other != key ==> Cell(other) == old(Cell(other))
    {
      record := Find(entries, key);
      if record.Some? && record.value.expiresAt <= now {
        entries := entries - {key};
        record := None;
      }
    }

    /** One atomic step: the source awaits `get` before it looks at the claims. */
    method Claim(key: string, requestHash: string, ttlMs: int, now: Time, token: Token) returns (outcome: Outcome)
      modifies this
      ensures (Cell(key), outcome) == MemoryClaim(old(Cell(key)), now, requestHash, ttlMs, token)
      ensures forall other :: other != key ==> Cell(other) == old(Cell(other))
    {
      var record := Get(key, now);
      if record.Some? {
        return if record.value.requestHash == requestHash then Replay(record.value) else Conflict;
      }
      var existing := Find(claims, key);
      if existing.Some? && existing.value.expiresAt > now {
        return if existing.value.requestHash == requestHash then InProgress else Conflict;
      }
      claims := claims[key := PendingClaim(requestHash, token, now + ttlMs)];
      outcome := Claimed(token);
    }

    method Complete(key: string, token: Token, record: Record) returns (completed: bool)
      modifies this
      ensures (Cell(key), completed) == MemoryComplete(old(Cell(key)), token, record)
      ensures forall other :: other != key ==> Cell(other) == old(Cell(other))
    {
      if key !in claims || claims[key].token != token {
        return false;
      }
      entries := entries[key := record];
      claims := claims - {key};
      completed := true;
    }

    method Release(key: string, token: Token)
      modifies this
      ensures Cell(key) == MemoryRelease(old(Cell(key)), token)
      ensures forall other :: other != key ==> Cell(other) == old(Cell(other))
    {
      if key in claims && claims[key].token == token {
        claims := claims - {key};
      }
    }
  }

  // ---------------------------------------------------------------------------
  // The Redis store: three keys with independent expiries, three atomic scripts
  // ---------------------------------------------------------------------------

  datatype Slot<T> = Slot(value: T, expiresAt: Time)

  datatype RedisCell = RedisCell(result: Option<Slot<Record>>, hash: Option<Slot<string>>, claim: Option<Slot<Token>>)

  const EMPTY_REDIS := RedisCell(None, None, None)

  /** GET: an expired key reads as absent. */
  function Live<T>(slot: Option<Slot<T>>, now: Time): Option<T> {
    if slot.Some? && now < slot.value.expiresAt then Some(slot.value.value) else None
  }

  /** PEXPIRE: moves the expiry of a key that exists. */
  function PExpire<T>(slot: Option<Slot<T>>, now: Time, px: int): Option<Slot<T>> {
    if Live(slot, now).Some? then Some(Slot(slot.value.value, now + px)) else slot
  }

  function RedisClaim(c: RedisCell, now: Time, requestHash: string, ttlMs: int, token: Token): (RedisCell, Outcome) {
    var px := Max(1, ttlMs);
    var result, storedHash := Live(c.result, now), Live(c.hash, now);
    if result.Some? then
      (c, if storedHash == Some(requestHash) then Replay(result.value) else Conflict)
    else if storedHash.Some? && storedHash.value != requestHash then
      (c, Conflict)
    else
      var d := if storedHash.None? then c.(hash := Some(Slot(requestHash, now + px))) else c;
      if Live(d.claim, now).None?
      then (d.(claim := Some(Slot(token, now + px))), Claimed(token))
      else (d, InProgress)
  }

  function RedisComplete(c: RedisCell, now: Time, token: Token, record: Record): (RedisCell, bool) {
    var px := Max(1, record.expiresAt - now);
    if Live(c.claim, now) != Some(token) then
      (c, false)
    else
      (RedisCell(Some(Slot(record, now + px)), PExpire(c.hash, now, px), None), true)
  }

  function RedisRelease(c: RedisCell, now: Time, token: Token): RedisCell {
    if Live(c.claim, now) != Some(token) then c else EMPTY_REDIS
  }

  /** The key names are one injective function of the storage key per kind, so each kind is a map. */
  class RedisIdempotencyStore {
    var results: map<string, Slot<Record>>
    var hashes: map<string, Slot<string>>
    var claims: map<string, Slot<Token>>

    constructor ()
      ensures forall key :: Cell(key) == EMPTY_REDIS
    {
      results, hashes, claims := map[], map[], map[];
    }

    ghost function Cell(key: string): RedisCell
      reads this
    {
      RedisCell(Find(results, key), Find(hashes, key), Find(claims, key))
    }

    method Claim(key: string, requestHash: string, ttlMs: int, now: Time, token: Token) returns (outcome: Outcome)
      modifies this
      ensures (Cell(key), outcome) == RedisClaim(old(Cell(key)), now, requestHash, ttlMs, token)
      ensures forall other :: other != key ==> Cell(other) == old(Cell(other))
    {
      var px := Max(1, ttlMs);
      var result := Live(Find(results, key), now);
      var storedHash := Live(Find(hashes, key), now);
      if result.Some? {
        return if storedHash == Some(requestHash) then Replay(result.value) else Conflict;
      }
      if storedHash.Some? && storedHash.value != requestHash {
        return Conflict;
      }
      if storedHash.None? {
        hashes := hashes[key := Slot(requestHash, now + px)];
      }
      if Live(Find(claims, key), now).Some? {
        return InProgress;
      }
      claims := claims[key := Slot(token, now + px)];
      outcome := Claimed(token);
    }

    method Complete(key: string, token: Token, record: Record, now: Time) returns (completed: bool)
      modifies this
      ensures (Cell(key), completed) == RedisComplete(old(Cell(key)), now, token, record)
      ensures forall other :: other != key ==> Cell(other) == old(Cell(other))
    {
      var px := Max(1, record.expiresAt - now);
      if Live(Find(claims, key), now) != Some(token) {
        return false;
      }
      results := results[key := Slot(record, now + px)];
      if Live(Find(hashes, key), now).Some? {
        hashes := hashes[key := Slot(hashes[key].value, now + px)];
      }
      claims := claims - {key};
      completed := true;
    }

    method Release(key: string, token: Token, now: Time)
      modifies this
      ensures Cell(key) == RedisRelease(old(Cell(key)), now, token)
      ensures forall other :: other != key ==> Cell(other) == old(Cell(other))
    {
      if Live(Find(claims, key), now) == Some(token) {
        results, hashes, claims := results - {key}, hashes - {key}, claims - {key};
      }
    }
  }
}
