/** The HTTP retry policy and the multipart upload plan. */
module Transfers {
  import opened Wrappers
  import opened ByteStrings
  import opened Sequences

  // ---------------------------------------------------------------------------
  // Retries
  // ---------------------------------------------------------------------------

  /** A `Retry-After` header: blank or absent, delta-seconds, a date (as epoch milliseconds), or neither. */
  datatype RetryAfter = Absent | Seconds(n: nat) | HttpDate(at: int) | Unreadable

  /** What one attempt meets: a response, or a failure to get one. */
  datatype Reply = Response(status: nat, retryAfter: RetryAfter) | NetworkFailure

  datatype SendOptions = SendOptions(idempotent: bool, retryServerErrors: bool)

  const MAX_RETRIES := 3
  const BASE_BACKOFF_MS := 500
  const MAX_RETRY_AFTER_MS := 60_000

  function IsRetryableStatus(status: nat, options: SendOptions): bool {
    status == 429 || (options.idempotent && (status == 503 || (options.retryServerErrors && status in {500, 502, 504})))
  }

  function RetryAfterMs(header: RetryAfter, now: int): Option<nat> {
    match header
    case Seconds(n) => Some(n * 1000)
    case HttpDate(at) => Some(if at > now then at - now else 0)
    case _ => None
  }

  function Pow2(n: nat): (p: nat)
    ensures p >= 1
  {
    if n == 0 then 1 else 2 * Pow2(n - 1)
  }

  function BackoffMs(attempt: nat, jitter: nat): nat {
    BASE_BACKOFF_MS * Pow2(attempt) + jitter
  }

  /** What the outside world does: the reply to each attempt, the clock then, and the random jitter. */
  datatype World = World(reply: nat -> Reply, now: nat -> int, jitter: nat -> nat)

  ghost predicate IsWorld(w: World) {
    forall i :: w.jitter(i) < 250
  }

  /** Whether the attempt is followed by another, and after how long. */
  function Pause(attempt: nat, w: World, options: SendOptions): Option<nat> {
    if attempt >= MAX_RETRIES then None
    else
      match w.reply(attempt)
      case NetworkFailure => if options.idempotent then Some(BackoffMs(attempt, w.jitter(attempt))) else None
      case Response(status, header) =>
        var wait := RetryAfterMs(header, w.now(attempt));
        if !IsRetryableStatus(status, options) then None
        else if wait.None? then Some(BackoffMs(attempt, w.jitter(attempt)))
        else if wait.value > MAX_RETRY_AFTER_MS then None
        else wait
  }

  /** A server does not process what it answers with 429; anything else it may have processed. */
  predicate MayHaveProcessed(r: Reply) {
    r.Response? ==> r.status != 429
  }

  /**
   `send`: the reply it ends with and the sleeps before. Every attempt but the last one asked
   for another; there are at most four of them, and no sleep is longer than a minute. Of a
   request that is not idempotent, only the last attempt can have been processed.
   */
  method Send(w: World, options: SendOptions) returns (last: Reply, sleeps: seq<nat>)
    requires IsWorld(w)
    ensures |sleeps| <= 3 && last == w.reply(|sleeps|) && Pause(|sleeps|, w, options).None?
    ensures forall i :: 0 <= i < |sleeps| ==> Pause(i, w, options) == Some(sleeps[i]) && sleeps[i] <= 60_000
    ensures !options.idempotent ==> forall i :: 0 <= i < |sleeps| ==> !MayHaveProcessed(w.reply(i))
  {
    sleeps := [];
    while true
      invariant |sleeps| <= MAX_RETRIES
      invariant !options.idempotent ==> forall i :: 0 <= i < |sleeps| ==> !MayHaveProcessed(w.reply(i))
      invariant forall i :: 0 <= i < |sleeps| ==> Pause(i, w, options) == Some(sleeps[i]) && sleeps[i] <= MAX_RETRY_AFTER_MS
      decreases MAX_RETRIES - |sleeps|
    {
      var attempt := |sleeps|;
      var reply := w.reply(attempt);
      ShortBackoff(attempt);
      if reply.NetworkFailure? {
        if !options.idempotent || attempt >= MAX_RETRIES {
          return reply, sleeps;
        }
        sleeps := sleeps + [BackoffMs(attempt, w.jitter(attempt))];
        continue;
      }
      if attempt >= MAX_RETRIES || !IsRetryableStatus(reply.status, options) {
        return reply, sleeps;
      }
      var wait := RetryAfterMs(reply.retryAfter, w.now(attempt));
      if wait.Some? && wait.value > MAX_RETRY_AFTER_MS {
        return reply, sleeps;
      }
      sleeps := sleeps + [if wait.Some? then wait.value else BackoffMs(attempt, w.jitter(attempt))];
    }
  }

  /** The replies that are answered by another attempt, if there is one left. */
  predicate AsksAgain(r: Reply, options: SendOptions) {
    match r
    case NetworkFailure => options.idempotent
    case Response(status, _) =>
      || status == 429
      || (status == 503 && options.idempotent)
      || ((status == 500 || status == 502 || status == 504) && options.idempotent && options.retryServerErrors)
  }

  /** The time the server asks for, in milliseconds, or else half a second, one, or two, and the jitter. */
  predicate IsWait(r: Reply, attempt: nat, now: int, jitter: nat, ms: int) {
    if r.Response? && r.retryAfter.Seconds? then ms == 1000 * r.retryAfter.n
    else if r.Response? && r.retryAfter.HttpDate? then (ms == r.retryAfter.at - now && ms > 0) || (ms == 0 && r.retryAfter.at <= now)
    else ms == (if attempt == 0 then 500 else if attempt == 1 then 1000 else 2000) + jitter
  }

  /** Which attempts are followed by another one, and after how long: a longer wait than a minute is not made. */
  lemma PauseIsExact(attempt: nat, w: World, options: SendOptions, ms: nat)
    requires IsWorld(w)
    ensures Pause(attempt, w, options) == Some(ms)
       <==> && attempt < 3 && AsksAgain(w.reply(attempt), options) && ms <= 60_000
            && IsWait(w.reply(attempt), attempt, w.now(attempt), w.jitter(attempt), ms)
  {
    if attempt < 3 {
      assert Pow2(0) == 1 && Pow2(1) == 2 && Pow2(2) == 4;
      assert attempt == 0 || attempt == 1 || attempt == 2;
    }
  }

  lemma ShortBackoff(attempt: nat)
    ensures attempt < MAX_RETRIES ==> BASE_BACKOFF_MS * Pow2(attempt) <= 2000
  {
  }

  // ---------------------------------------------------------------------------
  // Multipart uploads
  // ---------------------------------------------------------------------------

  datatype Plan = Plan(uploadId: string, partSize: int, partCount: int, partUrls: seq<string>)

  datatype UploadError = InvalidPlan | NoETag

  datatype Part = Part(partNumber: nat, etag: string)

  function CeilDiv(n: nat, d: nat): nat
    requires d > 0
  {
    (n + d - 1) / d
  }

  predicate IsValidPlan(p: Plan, fileSize: nat) {
    && p.uploadId != "" && 0 < p.partSize <= MAX_SAFE_INTEGER && 1 <= p.partCount <= 10_000
    && p.partCount == CeilDiv(fileSize, p.partSize) && |p.partUrls| == p.partCount
  }

  /** `Blob.slice`: both ends are clamped to the file. */
  function Slice(file: Bytes, from: nat, to: nat): Bytes
    requires from <= to
  {
    var n := |file|;
    file[if from < n then from else n..if to < n then to else n]
  }

  /** The first bytes of the file, all of them if there are fewer. */
  function Prefix(file: Bytes, to: nat): Bytes {
    file[..if to < |file| then to else |file|]
  }

  lemma PrefixGrows(file: Bytes, from: nat, to: nat)
    requires from <= to
    ensures Prefix(file, from) + Slice(file, from, to) == Prefix(file, to)
    ensures from < to && from < |file| ==> |Slice(file, from, to)| == to - from || (|file| < to && 0 < |Slice(file, from, to)| < to - from)
    ensures Prefix(file, to) <= file
    ensures |file| <= to ==> Prefix(file, to) == file
  {
  }

  /** The part count is the least number of parts that covers the file. */
  lemma CeilDivCovers(n: nat, d: nat)
    requires d > 0
    ensures n <= CeilDiv(n, d) * d && (n > 0 ==> (CeilDiv(n, d) - 1) * d < n)
  {
  }

  lemma SmallerMultiple(i: nat, k: nat, d: nat)
    requires i <= k
    ensures i * d <= k * d && (i + 1) * d == i * d + d
  {
  }

  /** The plans that are accepted: the parts reach the end of the file, and all but the last stay within it. */
  lemma PlanIsExact(p: Plan, fileSize: nat)
    ensures IsValidPlan(p, fileSize)
       <==> && p.uploadId != "" && 1 <= p.partSize <= 9_007_199_254_740_991 && 1 <= p.partCount <= 10_000 && |p.partUrls| == p.partCount
            && (p.partCount - 1) * p.partSize < fileSize <= p.partCount * p.partSize
  {
    hide CeilDiv;
    if 1 <= p.partSize && 1 <= p.partCount {
      var k := CeilDiv(fileSize, p.partSize);
      CeilDivCovers(fileSize, p.partSize);
      NoParts(p.partSize);
      if k < p.partCount {
        SmallerMultiple(k, p.partCount - 1, p.partSize);
      } else if p.partCount < k {
        SmallerMultiple(p.partCount, k - 1, p.partSize);
      }
    }
  }

  /** Under a valid plan each part begins inside the file, and the last one reaches its end. */
  lemma PartsCover(plan: Plan, fileSize: nat, i: nat)
    requires IsValidPlan(plan, fileSize) && i < plan.partCount
    ensures 0 <= i * plan.partSize < (i + 1) * plan.partSize && i * plan.partSize < fileSize <= plan.partCount * plan.partSize
    ensures (i + 1) * plan.partSize == i * plan.partSize + plan.partSize && (i < plan.partCount - 1 ==> (i + 1) * plan.partSize < fileSize)
  {
    hide IsValidPlan;
    PlanIsExact(plan, fileSize);
    SmallerMultiple(0, i, plan.partSize);
    SmallerMultiple(i, plan.partCount - 1, plan.partSize);
    assert (i + 1) * plan.partSize == i * plan.partSize + plan.partSize;
    if i < plan.partCount - 1 {
      SmallerMultiple(i + 1, plan.partCount - 1, plan.partSize);
    }
  }

  lemma NoParts(d: nat)
    requires d > 0
    ensures CeilDiv(0, d) == 0
  {
  }

  /**
   The part loop. Invalid plans are refused; under a valid one the bodies sent are of the part
   size, a shorter last one aside, they are the whole file in order, and each part is reported
   with its number and its tag. What is sent before a tag is missing is where the file begins.
   */
  method UploadParts(file: Bytes, plan: Plan, etag: nat -> Option<string>)
      returns (r: Result<seq<Part>, UploadError>, ghost sent: seq<Bytes>)
    ensures r == Err(InvalidPlan) <==> !IsValidPlan(plan, |file|)
    ensures Concat(sent) <= file && forall i :: 0 <= i < |sent| ==> |sent[i]| == plan.partSize || (i == |sent| - 1 && 0 < |sent[i]| < plan.partSize)
    ensures r.Ok? ==> |r.value| == |sent| == plan.partCount && Concat(sent) == file
    ensures r.Ok? ==> forall i :: 0 <= i < |sent| ==> etag(i) == Some(r.value[i].etag) && r.value[i].etag != "" && r.value[i].partNumber == i + 1
    ensures r == Err(NoETag) ==> sent != [] && etag(|sent| - 1) in {None, Some("")}
  {
    hide IsValidPlan, CeilDiv, Slice, Prefix, Concat;
    sent := [];
    StartsEmpty(file);
    if !IsValidPlan(plan, |file|) {
      return Err(InvalidPlan), sent;
    }
    var size, count := plan.partSize, plan.partCount;
    ValidPlan(plan, |file|);
    var parts: seq<Part> := [];
    for i := 0 to count
      invariant |parts| == |sent| == i && 0 <= i * size && Concat(sent) == Prefix(file, i * size)
      invariant forall k :: 0 <= k < i ==> |sent[k]| == size || (k == count - 1 && 0 < |sent[k]| < size)
      invariant forall k :: 0 <= k < i ==> etag(k) == Some(parts[k].etag) && parts[k].etag != "" && parts[k].partNumber == k + 1
    {
      PartsCover(plan, |file|, i);
      PrefixGrows(file, i * size, (i + 1) * size);
      var body := Slice(file, i * size, (i + 1) * size);
      ConcatMore(sent, body);
      sent := sent + [body];
      var tag := etag(i);
      if tag.None? || tag.value == "" {
        return Err(NoETag), sent;
      }
      parts := parts + [Part(i + 1, tag.value)];
    }
    PartsCover(plan, |file|, 0);
    PrefixGrows(file, 0, count * size);
    r := Ok(parts);
  }

  lemma ValidPlan(plan: Plan, fileSize: nat)
    requires IsValidPlan(plan, fileSize)
    ensures 0 < plan.partSize && 1 <= plan.partCount
  {
  }

  lemma StartsEmpty(file: Bytes)
    ensures Concat([]) == Prefix(file, 0) && Concat<Byte>([]) <= file
  {
  }
}
