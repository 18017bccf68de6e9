# Verification of the Helix protocols, codecs and parsers

A Dafny model of the parts of Helix whose correctness is an argument over whole runs or over
all inputs, with proofs. `dafny verify dfyconfig.toml` checks everything.

- **Idempotent tool calls** (`IdempotencyStore`, `IdempotencyRefinement`, `IdempotencyProtocol`,
  `IdempotencyAnswers`, `IdempotencyAwait`).
  The process-local store and the Redis store are classes over the maps and keys the source
  keeps; both refine one abstract cell (free, held, done). On top of either store, any number
  of callers claim, invoke, commit or roll back, release and complete in any interleaving, with
  a clock: successes on one key are claimed at least a TTL apart, and a replayed result always
  comes from a caller that made the same request; and the answer to every claim is read off what
  the other callers have done with theirs. The `await` inside the in-memory claim is
  modelled beside it: exactly when it breaks the result, and a run that shows it.
- **MCP stdio framing** (`McpFraming`, `McpFramingProofs`, `McpFramingRoundTrip`,
  `McpFramingForms`). The
  incremental parser of Content-Length and line framing, its writer, and the buffering loop:
  for which inputs exactly no cut changes the next frame, that chunks do not matter then, and that
  what is written is read back, by the writer here or by any client.
- **Canonical JSON** (`CanonicalJson`, `CanonicalJsonProofs`, `JsonReader`). The printer behind request hashes
  and the audit log: equal texts exactly for equal values, and texts any JSON reader reads.
- **JSON Schema to Zod** (`SchemaCompiler`, `SchemaCompilerProofs`, `SchemaReading`). What the
  compiled validator accepts is read off every schema. It
  never refuses a valid instance on a stated class of schemas and is exact on a smaller one;
  where it goes wrong outside, on alternatives and described items, is characterised.
- **Calendar wall times** (`CivilTime`, `CivilCalendar`, `CalendarTime`, `CalendarTimeProofs`). Civil date
  arithmetic (section 21.4.1 of ECMA-262) and the inversion of an arbitrary offset function by
  sampling it every six hours.
- **Plugin resolution** (`PluginLoader`). The recursive depth-first sort with its mutable sets:
  it succeeds exactly on loadable plugins, and every error names a real defect.
- **Live events** (`ServerEvents`, `ServerEventForms`, `EventsWatch`). The bounded decoder of server-sent events and
  the durable cursor protocol over crashes and restarts.
- **Header codec** (`HeaderCodec`), **metadata walk** (`ChatMetadata`), **retries and multipart
  plans** (`Transfers`), **command-line options** (`CliOptions`).

`Wrappers`, `Sequences`, `ByteStrings` and `JsText` hold what is shared: `Option` and `Result`,
joining and searching, byte strings, and JavaScript strings as sequences of UTF-16 code units. Code that changes state in
the source is a class or a method with a loop here, proved against a specification function;
the properties are lemmas about those functions. Clocks, randomness, the network, storage
replies, time-zone data and number parsing are parameters.

## Model

| member | source | states |
|---|---|---|
| IdempotencyStore.InMemoryIdempotencyStore.Get | apps/helix/src/api/idempotency.ts:118-128 | An expired record is dropped and reads as absent; no other key changes. |
| IdempotencyStore.InMemoryIdempotencyStore.Claim | apps/helix/src/api/idempotency.ts:134-152 | The outcome and both maps' entries at the key after a claim: replay, conflict, in progress, or a new claim with its expiry; no other key changes. |
| IdempotencyStore.InMemoryIdempotencyStore.Complete | apps/helix/src/api/idempotency.ts:154-161 | Only the holder of the stored token completes, expired or not; the record replaces the claim; no other key changes. |
| IdempotencyStore.InMemoryIdempotencyStore.Release | apps/helix/src/api/idempotency.ts:163-167 | Only the holder's claim is removed, and nothing else. |
| IdempotencyStore.RedisIdempotencyStore.Claim | apps/helix/src/api/idempotency.ts:170-190 | The claim script's answer and the three keys with their expiries afterwards, including the hash key it may set before it finds a live claim; no other storage key changes. |
| IdempotencyStore.RedisIdempotencyStore.Complete | apps/helix/src/api/idempotency.ts:192-200 | Only a live claim with this token completes; result stored, hash expiry moved, claim deleted; no other storage key changes. |
| IdempotencyStore.RedisIdempotencyStore.Release | apps/helix/src/api/idempotency.ts:202-208 | Only a live claim with this token is released, and then all three keys go. |
| IdempotencyRefinement.MemoryClaimRefines | apps/helix/src/api/idempotency.ts:134-152 | The in-memory claim answers and moves as the abstract cell does, at every time. |
| IdempotencyRefinement.RedisClaimRefines | apps/helix/src/api/idempotency.ts:170-190 | The claim script answers and moves as the abstract cell does, and answers "claimed" exactly when all three keys are absent. |
| IdempotencyRefinement.MemoryCompleteRefines | apps/helix/src/api/idempotency.ts:154-161 | A completion that is not late and carries the claimed hash is the abstract one. |
| IdempotencyRefinement.RedisCompleteRefines | apps/helix/src/api/idempotency.ts:192-200 | The completion script is the abstract completion, ownership lost included. |
| IdempotencyRefinement.ReleaseRefines | apps/helix/src/api/idempotency.ts:163-167 | Release on both stores is the abstract release, whether or not the claim has expired. |
| IdempotencyRefinement.RedisInvPreserved | apps/helix/src/api/idempotency.ts:170-208 | Every script keeps the three keys consistent, even a completion whose record has already expired. |
| IdempotencyRefinement.RedisKeysConsistent | apps/helix/src/api/idempotency.ts:170-208 | In every reachable state, at any later time, the hash key is live exactly when the result or the claim key is, with the same expiry, and result and claim are never both live. |
| IdempotencyRefinement.CompletionsAgreeUnlessLate | apps/helix/src/api/idempotency.ts:154-161 | Two stores showing the same cell disagree on a completion if and only if it is late (its claim expired and nobody replaced it); then only the in-memory store accepts it. |
| IdempotencyRefinement.AwaitedClaimAgreesUnlessCompleted | apps/helix/src/api/idempotency.ts:134-152 | A claim resumed behind its `await` answers like the atomic claim if and only if no record appeared meanwhile; otherwise it is wrongly granted. |
| IdempotencyRefinement.RecordHashIsExact | apps/helix/src/api/idempotency.ts:134-138 | After a completion the two stores answer a later claim alike if and only if its request equals both the record's hash and the claimed one, or neither. |
| IdempotencyRefinement.RecordHashMatters | apps/helix/src/api/idempotency.ts:171-178 | So a record stored under another hash turns a retry of the claimed request into a conflict in memory, while Redis replays it. |
| IdempotencyRefinement.RedisRefinesTheCell | apps/helix/src/api/idempotency.ts:170-208 | Main result: on every ordered run, late and foreign completions included, the Redis store gives exactly the abstract cell's replies and shows it at any later time. |
| IdempotencyRefinement.MemoryRefinesTheCell | apps/helix/src/api/idempotency.ts:109-168 | Main result: so does the in-memory store, on every run whose completions are in time and for the claimed request. |
| IdempotencyRefinement.StoresAgree | apps/helix/src/api/idempotency.ts:109-208 | On those runs the two stores cannot be told apart. |
| IdempotencyRefinement.RedisDoneUntilExpiry | apps/helix/src/api/idempotency.ts:170-208 | Over every run: once a completion was accepted, no call changes any of the three keys until the record expires, and the hash key still holds the request of the claim that was completed. |
| IdempotencyRefinement.MemoryDoneUntilExpiry | apps/helix/src/api/idempotency.ts:134-167 | Over every run, late completions included: the record stays, without a claim beside it, until it expires. |
| IdempotencyRefinement.RedisRetriesReplay | apps/helix/src/api/idempotency.ts:170-181 | Main result, on every run: after an accepted completion every claim before the record's expiry replays it if it makes the request of the completed claim, and conflicts otherwise; a retry of a finished call is never a conflict. |
| IdempotencyRefinement.MemoryRetriesReplay | apps/helix/src/api/idempotency.ts:135-138 | The same in memory, by the record's own hash. |
| IdempotencyProtocol.StepKeeps | apps/helix/src/api/mcp-tools.ts:283-330 | Every step of every caller over either store keeps the invariant: a retained claim keeps everyone else out until its TTL ends, and retained claims are a TTL apart. |
| IdempotencyProtocol.AtMostOncePerWindow | apps/helix/src/api/mcp-tools.ts:301-330 | Main result: over every interleaving of any number of callers, two executions that succeeded, may have succeeded or still run were claimed at least the earlier claim's TTL apart. |
| IdempotencyProtocol.SuccessesAreRetained | apps/helix/src/api/mcp-tools.ts:303-313 | Over every run: a caller that gives its claim up has rolled back, or answers a failure that may not be stored; so the claims that are kept cover every possible success. |
| IdempotencyProtocol.KeptClaimBlocks | apps/helix/src/api/mcp-tools.ts:309-310 | A claim kept by a crashed caller or after a failed commit refuses every other caller until its TTL is over. |
| IdempotencyProtocol.ReplaysAreGenuine | apps/helix/src/api/mcp-tools.ts:290-326 | Main result: a caller that finds a record made the same request as some caller that executed the tool and stored it; it is answered with that caller's redacted result if the policy allows it and the principals are the same, and refused otherwise. |
| IdempotencyAnswers.BeginIsExact | apps/helix/src/api/mcp-tools.ts:283-299 | Main result, over every run and either store: a claim is granted if and only if no caller keeps the key by an unexpired record, or by a claim in time that no release has given up; otherwise the answer is a conflict for another request, the record's replay, or "in progress". |
| IdempotencyAnswers.ReleaseFrees | apps/helix/src/api/mcp-tools.ts:304-313 | A release in time that reaches the store frees the key at once: the next claim is granted, whatever its request. |
| IdempotencyAnswers.CompletionReplays | apps/helix/src/api/mcp-tools.ts:315-326 | Whatever happens behind a completion in time, the same request is answered with its record until that expires, and another one conflicts. |
| IdempotencyAnswers.ReturnedCallIsAnswered | apps/helix/src/api/mcp-tools.ts:301-330 | Main result, for a call that returned and committed: a success, and a failure below 500 other than 401, 403, 408 and 429, is replayed redacted with status 200, 202 or its own for one TTL and then frees the key; any other failure frees it at once. |
| IdempotencyAnswers.ThrownCallFrees | apps/helix/src/api/mcp-tools.ts:304-308 | Behind a tool that threw and was rolled back, the next claim is granted. |
| IdempotencyAnswers.UncertainCallBlocks | apps/helix/src/api/mcp-tools.ts:305-310 | Behind a commit or rollback that threw, claims are refused exactly until the TTL of the kept claim is over. |
| IdempotencyAwait.ApartIsExact | apps/helix/src/api/idempotency.ts:134-161 | Main result, with the in-memory claim in its two steps, over every run: executions that succeeded, may have succeeded or still run are at every moment a TTL apart if and only if no claim is ever resumed while a record is live, no claim is, and the TTL of some execution that kept its claim is not over. |
| IdempotencyAwait.AtMostOnceUndisturbed | apps/helix/src/api/idempotency.ts:134-152 | So it is enough that no claim is resumed over a live record, which the store itself could check. |
| IdempotencyAwait.ResumeIsExact | apps/helix/src/api/idempotency.ts:135-146 | The same for one resumed claim, in any state a harmless run reaches. |
| IdempotencyAwait.SlipSucceedsTwice | apps/helix/src/api/idempotency.ts:134-161 | A run that does harm, for every request, TTL and successful result: a second caller looks between the end of the first one's transaction and its completion, resumes behind the completion, and succeeds at the same moment. |
| McpFraming.Find | packages/cli/src/runner.ts:614-619 | The first occurrence of a separator, and `None` only when there is none. |
| McpFraming.ExtractMcpFrames | packages/cli/src/runner.ts:603-659 | The in-place loop yields the frames and the remainder of the recursive reading of the bytes, or throws with it. |
| McpFraming.ServeMcpStdio | packages/cli/src/runner.ts:480-498 | The buffering loop forwards what feeding the chunks one by one and finishing yields, and reports an unfinished message. |
| McpFramingProofs.RemainderIsTail | packages/cli/src/runner.ts:609-658 | What is not consumed is exactly the tail of the input; at the end of input only an unfinished Content-Length message can be left. |
| McpFramingProofs.CutsAgreeIsExact | packages/cli/src/runner.ts:613-646 | Main result: an input can be cut anywhere without changing its first frame or error if and only if it is a line or a sound header; the condition covers both separators, the limit, and LF LF in front of CR LF CR LF. |
| McpFramingProofs.StepExtends | packages/cli/src/runner.ts:613-656 | More input never changes the outcome of a round that did not wait for it: same frame, same bytes consumed, or the same error. |
| McpFramingProofs.ExtractExtends | packages/cli/src/runner.ts:603-659 | Parsing in two goes: the first part's frames are final and its remainder is all the parser must remember. |
| McpFramingProofs.ChunksDoNotMatter | packages/cli/src/runner.ts:480-488 | Main result: for any partition of a stream that is sound at every frame, the loop forwards the frames and keeps the remainder of parsing the stream at once, and fails exactly when that fails. |
| McpFramingProofs.ServingIsOnePass | packages/cli/src/runner.ts:480-498 | The same with the end of input: frames forwarded and final error are those of one pass over the whole stream. |
| McpFramingRoundTrip.DecimalRoundTrip | packages/cli/src/runner.ts:630-632 | A printed length consists of digits and reads back as the length. |
| McpFramingRoundTrip.WrittenLengthParses | packages/cli/src/runner.ts:625-639 | The header the writer prints announces exactly the length it was given, under the parser's own checks. |
| McpFramingRoundTrip.RoundTrip | packages/cli/src/runner.ts:603-672 | Main result: any list of bodies within the size limit, each in either framing, is read back in order, trimmed, with nothing left; and the written stream meets the header conditions. |
| McpFramingRoundTrip.PipeRoundTrip | packages/cli/src/runner.ts:480-498 | Main result: the same through the buffering loop for every way of cutting the written bytes into chunks. |
| McpFramingRoundTrip.PipeWithLastLine | packages/cli/src/runner.ts:490-498 | Main result: a last message without a line feed is forwarded behind all others when the input ends, for every way of cutting the bytes, and the input ends cleanly. |
| McpFramingForms.BlockIsRead | packages/cli/src/runner.ts:613-646 | Main result, for any block of header lines, in any case, with foreign lines and both line ends, before CR LF CR LF: refused if longer than 8192 bytes, if the length comes twice, is no decimal number or exceeds 1 MiB; otherwise the announced bytes are the message once they are there. |
| McpFramingForms.LineIsRead | packages/cli/src/runner.ts:648-656 | A line of more than 1 MiB is refused; any other is trimmed, and dropped if nothing is left. |
| McpFramingForms.LastLineIsExact | packages/cli/src/runner.ts:648-656 | A line without its line feed waits for more, or is read at the end of input; over 1 MiB it is refused at once. |
| McpFramingForms.TrimIsExact | packages/cli/src/runner.ts:654 | Trimming takes the UTF-8 forms of JavaScript's white space off both ends of a text, and nothing else. |
| McpFramingForms.EveryFormIsServed | packages/cli/src/runner.ts:480-498 | Main result: any mixture of such blocks and lines, blank bytes between them and a last line without a line feed, in any chunks, is forwarded message by message and ends cleanly. |
| McpFramingForms.UnfinishedIsReported | packages/cli/src/runner.ts:490-496 | A header block at the end with part of its body missing is an error, behind all the messages before it. |
| McpFramingRoundTrip.CompleteFrameCuts | packages/cli/src/runner.ts:614-646 | A complete frame survives every cut if and only if: 8189 bytes of header at most before CR LF CR LF; 8191 before LF LF; and with LF LF first, a body that reaches beyond the byte before the end of CR LF CR LF. |
| McpFramingRoundTrip.SeparatorDependsOnTheCut | packages/cli/src/runner.ts:614-619 | A family of failing streams: the same bytes forward one message when cut behind its text, and another when they arrive together. |
| CanonicalJsonProofs.CanonicalReads | apps/helix/src/api/mcp-tools.ts:254-264 | A canonical text determines the value it came from up to key order, even with other text behind it, and where it ends. |
| CanonicalJsonProofs.SameMeaningSameText | apps/helix/src/api/mcp-tools.ts:256-261 | Values that differ only in member order, undefined members or the sign of zero print the same text. |
| CanonicalJsonProofs.CanonicalIsExact | apps/helix/src/api/mcp-tools.ts:254-264 | Main result: equal canonical texts if and only if equal values, with objects unordered. |
| CanonicalJsonProofs.RequestTextIsExact | apps/helix/src/api/mcp-tools.ts:280-282 | The hashed request texts agree if and only if the tools are the same and the arguments mean the same. |
| CanonicalJsonProofs.DerivedTextIsExact | apps/helix/src/api/mcp-tools.ts:231-252 | Two calls have the same derived-key text if and only if they agree in organisation, actor, credential, session, tool and request id, its absence included, and their arguments mean the same; the inner digest must tell those two argument texts apart. |
| CanonicalJsonProofs.AuditAgrees | apps/helix/src/platform/audit.ts:1-13 | The audit printer gives the same text as the request printer on every value without `undefined`. |
| JsonReader.CanonicalIsJson | apps/helix/src/api/mcp-tools.ts:254-264 | Main result: a canonical text is JSON. A reader after RFC 8259 finds in it, exactly where it ends, a value of the same meaning whose objects name their members in ascending order. |
| JsonReader.LessIsPrecedes | apps/helix/src/api/mcp-tools.ts:257-258 | The order of the keys is by code units: the first difference decides, and a proper beginning comes first. |
| SchemaCompilerProofs.EnumAccepts | apps/helix/src/api/json-schema-zod.ts:110-122 | An enumeration's validator accepts exactly those members that are scalars. |
| SchemaCompilerProofs.UnionAccepts | apps/helix/src/api/json-schema-zod.ts:124-135 | A non-empty list of alternatives is accepted exactly where one of them accepts, a single one included. |
| SchemaCompilerProofs.ObjectAccepts | apps/helix/src/api/json-schema-zod.ts:74-100 | An object validator asks each property separately and refuses unknown members exactly under `additionalProperties: false`. |
| SchemaCompilerProofs.PropertyAccepts | apps/helix/src/api/json-schema-zod.ts:94-95 | A present member is asked of its validator; a missing one passes if and only if it is optional under a name no JavaScript object inherits, or its schema allows a missing member. |
| SchemaCompilerProofs.InheritedNameIsRefused | apps/helix/src/api/json-schema-zod.ts:88-98 | A property named like an inherited function, whose schema asks for a value, refuses every object without the member, optional or not. |
| SchemaCompilerProofs.InheritedNameHidesValid | apps/helix/src/api/json-schema-zod.ts:88-98 | So one optional string under any such name makes the validator refuse the empty object, which is valid. |
| SchemaCompilerProofs.ValidIsAccepted | apps/helix/src/api/json-schema-zod.ts:17-135 | Main result: with scalar enums and constants, object alternatives, no pattern or prefix keywords where they clash, and no optional property that an inherited function would fail, every valid instance is accepted, whatever the ignored keywords say. |
| SchemaCompilerProofs.AcceptedIsValid | apps/helix/src/api/json-schema-zod.ts:17-135 | Main result: on schemas of handled keywords, one alternative each, accepted and valid are the same; constants and enumerations may stand beside types and anything else but alternatives. |
| SchemaReading.ReadingIsExact | apps/helix/src/api/json-schema-zod.ts:17-135 | Main result, for every schema and every input: what is accepted, read off the schema without the compiler. Constants and enumerations restrict whatever stands beside them, before alternatives, those before types; integers are whole numbers; required and strict objects as stated. |
| SchemaCompilerProofs.OneListedType | apps/helix/src/api/json-schema-zod.ts:33-39 | Recompiling a copy of the schema with one of its listed types is compiling it at that type. |
| SchemaCompilerProofs.ConstIsAcceptedIfScalar | apps/helix/src/api/json-schema-zod.ts:18-20 | A constant is accepted by its own validator if and only if it is a scalar. |
| SchemaCompilerProofs.AlternativesAccept | apps/helix/src/api/json-schema-zod.ts:124-135 | Any list of alternatives, mixed with anything: accepted where some alternative that is an object is, and everywhere if none is an object. |
| SchemaCompilerProofs.AnyOfIsExactUnless | apps/helix/src/api/json-schema-zod.ts:24-26 | With exact object alternatives, `anyOf` is right at a value if and only if: there are objects, and nothing beside them but `false` or one of them allows the value; or there are none, and something is not `false`. |
| SchemaCompilerProofs.OneOfIsExactUnless | apps/helix/src/api/json-schema-zod.ts:27-29 | With exact alternatives, `oneOf` goes wrong at a value exactly when two of them allow it. |
| SchemaCompilerProofs.TrueAlternativeIsLost | apps/helix/src/api/json-schema-zod.ts:124-134 | Whatever an object refuses is valid and refused when `true` stands beside it. |
| SchemaCompilerProofs.MissingIsExact | apps/helix/src/api/json-schema-zod.ts:94-95 | Which validators let a missing member pass, read as `undefined` or as an inherited function, can be read off the schema: no constant or enumeration, no known type, and the same for some alternative. |
| SchemaCompilerProofs.UnlistedMemberIsRefused | apps/helix/src/api/json-schema-zod.ts:98-99 | A strict object refuses every member without a property schema, whatever the rest of its schema says. |
| SchemaCompilerProofs.PatternMemberIsRefused | apps/helix/src/api/json-schema-zod.ts:99 | So it refuses valid members that one of its patterns describes, for every pattern, key and value. |
| SchemaCompilerProofs.ArrayAccepts | apps/helix/src/api/json-schema-zod.ts:102-107 | An array is accepted exactly when each of its items is accepted by the item schema, described ones included. |
| SchemaCompilerProofs.PrefixItemIsRefused | apps/helix/src/api/json-schema-zod.ts:102-107 | With an exact item validator, a valid array is refused if and only if the item schema does not allow some item that `prefixItems` describes. |
| SchemaCompilerProofs.UnlistedRequiredIsIgnored | apps/helix/src/api/json-schema-zod.ts:82-96 | A required name without a property schema is never enforced: removing the member keeps the object accepted and makes it invalid. |
| CivilTime.MakeDateOfFields | packages/contracts/src/calendar-time.ts:82-91 | Reading the UTC fields of any instant and making a date of them drops only the milliseconds. |
| CivilTime.FieldsOfMakeDate | packages/contracts/src/calendar-time.ts:82-91 | Making a date of civil fields and reading them gives them back. |
| CivilTime.SameFields | packages/contracts/src/calendar-time.ts:125-134 | Two instants show the same fields if and only if they lie in the same second. |
| CivilTime.UtcCheckIsExact | packages/contracts/src/calendar-time.ts:82-94 | The parser's comparison succeeds exactly on civil date-times outside the years 0 to 99. |
| CivilCalendar.CivilIsCalendar | packages/contracts/src/calendar-time.ts:82-94 | Civil date-times by the calendar: months of 30 and 31 days by name, February by the leap rule, hours to 23, minutes and seconds to 59. |
| CivilCalendar.FirstDay | packages/contracts/src/calendar-time.ts:86-91 | The instants of the first day are 1 January 1970 with their hour, minute and second. |
| CivilCalendar.DatesAreCounted | packages/contracts/src/calendar-time.ts:86-91 | Main result: so many days of milliseconds on from any instant, the date is the one that counting by the month lengths reaches, at the same time of day. |
| CalendarTime.LocalDateTimeToInstant | packages/contracts/src/calendar-time.ts:23-52 | The probing loop returns the earliest instant that was considered and shows the wanted fields, and throws when there is none or the text does not parse. |
| CalendarTimeProofs.ParseIsExact | packages/contracts/src/calendar-time.ts:71-96 | A text parses if and only if it has the pattern, names a civil date-time, and its year is at least 100. |
| CalendarTimeProofs.FormatParses | packages/contracts/src/calendar-time.ts:19 | What is printed for years 100 to 9999 parses to the same fields. |
| CalendarTimeProofs.FormatChars | packages/contracts/src/calendar-time.ts:19 | What is printed, character by character: four digits of the year, two of every other field, and the separators. |
| CalendarTimeProofs.DigitsAreDecimal | packages/contracts/src/calendar-time.ts:136-138 | The digits are those of "0123456789", printed and read. |
| CalendarTimeProofs.ParsedFormats | packages/contracts/src/calendar-time.ts:71-80 | Printing what was parsed gives the text back with its seconds spelled out. |
| CalendarTimeProofs.ShowsWhen | packages/contracts/src/calendar-time.ts:125-134 | An instant shows civil fields exactly when its local time lies in the second they name. |
| CalendarTimeProofs.SolutionIsCandidate | packages/contracts/src/calendar-time.ts:34-45 | Near a steady stretch of offsets the probes miss no instant that shows the wall time. |
| CalendarTimeProofs.ResolutionIsExact | packages/contracts/src/calendar-time.ts:23-52 | Main result: where constant-offset stretches last six hours and offsets stay within thirty, the earliest instant that shows the wall time is returned, and the error comes exactly when no instant does. |
| CalendarTimeProofs.CandidateIsSeen | packages/contracts/src/calendar-time.ts:34-45 | In a sane zone, steady or not, exactly the whole seconds are kept that show the wall time and whose offset holds, in a local year from 100 on, at one of the hours -36, -30, up to 36 from it. |
| CalendarTimeProofs.FoundWhenProbed | packages/contracts/src/calendar-time.ts:34-47 | So the earliest solution is returned if and only if its offset is seen at one of these hours. |
| CalendarTimeProofs.DatesStayValid | packages/contracts/src/calendar-time.ts:26-44 | For every text that parses, the wall clock, the probes and all instants considered lie within the range of `Date`. |
| CalendarTimeProofs.ResolvedPrintsBack | packages/contracts/src/calendar-time.ts:15-20 | Printing a resolved instant gives the requested text, normalised, in every zone. |
| CalendarTimeProofs.PrintedResolvesBack | packages/contracts/src/calendar-time.ts:15-52 | Resolving a printed whole-second instant gives an instant not after it, and itself if and only if no earlier instant shows the same local time. |
| CalendarTimeProofs.FirstHoursAreMissed | packages/contracts/src/calendar-time.ts:35-42 | Why the resolver's theorem leaves out the first six hours of the year 100, on a made-up steady zone: an existing wall time is reported missing, its offset being seen only through a remapped year. |
| PluginLoader.RegisterAll | packages/sdk-web/src/plugin-loader.ts:50-57 | The first loop builds the registry exactly when every manifest is valid and no id repeats; an error names such a manifest or id. |
| PluginLoader.Resolver.Visit | packages/sdk-web/src/plugin-loader.ts:63-83 | Visiting keeps the order sound, resolves the plugin, restores the ids in progress, and reports only real missing dependencies and real chains that return; it terminates on every graph. |
| PluginLoader.DiscoverWebPlugins | packages/sdk-web/src/plugin-loader.ts:47-90 | Main result: success if and only if manifests are valid, ids distinct, requirements present and acyclic; then a permutation with every requirement earlier, the list itself if it had that order; otherwise an error that is true of the input. |
| PluginLoader.OrderShowsAcyclic | packages/sdk-web/src/plugin-loader.ts:59-89 | An order with every requirement earlier shows that no chain of requirements returns. |
| PluginLoader.WitnessRefutes | packages/sdk-web/src/plugin-loader.ts:51-77 | No input that could be loaded is ever blamed: a true error refutes loadability. |
| PluginLoader.RequiredIds | packages/sdk-web/src/plugin-loader.ts:157-161 | The required ids are those of the dependencies not marked optional, bare names included. |
| PluginLoader.OptionalIsExact | packages/sdk-web/src/plugin-loader.ts:157-161 | Only a dependency described with `optional: true` is not required. |
| PluginLoader.ValidateIsExact | packages/sdk-web/src/plugin-loader.ts:34-45 | A manifest is valid if and only if id, name and version are not empty; the error names the first that is. |
| ServerEvents.ServerEventReader.Read | packages/sdk/src/live.ts:20-38 | One chunk: the events yielded and the decoder's whole state afterwards, or the error for an oversized frame. |
| ServerEvents.DrainExtends | packages/sdk/src/live.ts:26-38 | Decoding in two goes yields the same events and the same pending line and fields as at once. |
| ServerEvents.ChunksDoNotMatter | packages/sdk/src/live.ts:20-39 | However a text is cut into reads that fit, the events and the pending state are those of the whole text. |
| ServerEvents.FormattedReads | apps/helix/src/api/mcp.ts:417-419 | A printed event in front of any text is read as that event, and the decoder is back at its start. |
| ServerEvents.OneEventPending | packages/sdk/src/live.ts:24-25 | In the middle of printed events, what the decoder counts against its limit is at most the length of one event. |
| ServerEvents.FittingReadsRoundTrip | packages/sdk/src/live.ts:11-44 | Printed events, cut into any reads the decoder takes, come back one for one and in order, with nothing pending. |
| ServerEvents.SseRoundTrip | packages/sdk/src/live.ts:11-44 | Main result: the decoder takes every cut whose chunks leave room for one printed event within 1 MiB, and the events come back. |
| ServerEventForms.EveryFormReads | packages/sdk/src/live.ts:20-38 | Main result, for frames in every form (LF or CR LF, with or without a space, several data lines, foreign lines) and an unfinished line behind them, in any reads the decoder takes: one event for each frame with data, under its last name or "message", its data lines joined by line feeds. |
| ServerEventForms.OversizeIsExact | packages/sdk/src/live.ts:24-25 | A read is refused exactly when the unfinished line with it and the data before it exceed 1 MiB. |
| ServerEventForms.PrinterForm | apps/helix/src/api/mcp.ts:417-419 | What the printer writes: the name line, the data line, a blank line, each with a space behind the field name and a plain line feed. |
| EventsWatch.Listener.HandlePage | packages/cli/src/events.ts:112-158 | One page: exactly the selected events up to the first failing handler are handled in order, and the checkpoint moves only when none fails. |
| EventsWatch.PageIsExact | packages/cli/src/events.ts:106-150 | A page is handled up to the first wanted event whose handler fails: exactly the events of the four types (or all) before it, in order; it is complete when there is none. |
| EventsWatch.PositionsAscend | packages/cli/src/events.ts:118 | The events of a page are handled in the order of their positions. |
| EventsWatch.PageRunsAsLoop | packages/cli/src/events.ts:118-158 | The steps of a process on one page do what the loop over the page does: same events handled, same checkpoint, and the process goes on exactly when the loop gets through. |
| EventsWatch.StepKeeps | packages/cli/src/events.ts:63-158 | Every step, crashes and manual lock removal included, keeps: one listener at most, working from the checkpoint, with everything up to it handled. |
| EventsWatch.AtLeastOnce | packages/cli/src/events.ts:82-158 | Main result, over every run that reaches a checkpoint: some start got the lock without a checkpoint there and its listener wrote the first one; every event of the four types above the `--after` of that start (0 without one), up to the persisted cursor, has been handled; every event at all if all listeners asked for all. |
| EventsWatch.HandledIsReal | packages/cli/src/events.ts:118-150 | Nothing counts as handled but an event a handler has succeeded on at its place in a page. |
| EventsWatch.StartIsExact | packages/cli/src/events.ts:67-104 | A start gets going if and only if the lock is free and there is no checkpoint, or one of its identity and no `--after`; it works on from the checkpoint or `--after`, and changes nothing otherwise. |
| EventsWatch.RestartIsExact | packages/cli/src/events.ts:159-165 | Behind a listener that ended in any way but a crash the next one gets going at once; behind a crash once the lock file is removed. |
| EventsWatch.CursorNeverMovesBack | packages/sdk/src/live.ts:91-93 | Over every run the persisted cursor, once written, never decreases and never changes its identity. |
| EventsWatch.OneListener | packages/cli/src/events.ts:67-71 | No two listeners run on one cursor file at the same time. |
| HeaderCodec.Base64RoundTrip | packages/cli/src/client.ts:203 | Decoding encoded bytes gives them back, for every length (section 4 of RFC 4648). |
| HeaderCodec.DecodersExist | apps/helix/src/api/mcp-modern.ts:66-68 | The one assumption on the base64 decoder, that it reads back what the encoder writes, can be met. |
| HeaderCodec.Utf8RoundTrip | apps/helix/src/api/mcp-modern.ts:70 | Encoding and decoding a text replaces its lone surrogates and does nothing else (section 3 of RFC 3629). |
| HeaderCodec.ReplacesOnlyLoneSurrogates | packages/cli/src/client.ts:203 | The replacement changes exactly the texts that are not well-formed Unicode. |
| HeaderCodec.HeaderDecodes | apps/helix/src/api/mcp-modern.ts:61-74 | What the server reads for any name at all: the name itself, or its repaired text without a byte order mark. |
| HeaderCodec.HeaderRoundTripIsExact | packages/cli/src/client.ts:197-203 | Main result: the server reads the client's name back if and only if it is well-formed Unicode and does not start with a byte order mark; names that look encoded are covered. |
| HeaderCodec.PlainNamesAreExact | packages/cli/src/client.ts:197-203 | A name goes out unencoded if and only if it is printable ASCII without outer spaces and does not look encoded. |
| HeaderCodec.TakenHeadersAreCanonical | apps/helix/src/api/mcp-modern.ts:61-74 | A header the server takes has only printable characters and inner tabs, and in the encoded form it is the one encoding of its bytes. |
| HeaderCodec.AlphabetIsExact | packages/cli/src/client.ts:203 | The base64 alphabet, by its runs (table 1 of RFC 4648). |
| HeaderCodec.Utf8Vectors | packages/cli/src/client.ts:203 | The examples of section 7 of RFC 3629 and the last code point. |
| JsText.TailWellFormed | packages/contracts/src/chat.ts:489-501 | A text is well formed exactly when its first pair or unit is and the rest is. |
| ChatMetadata.HasWellFormedUnicode | packages/contracts/src/chat.ts:489-501 | The two-step scan accepts exactly the texts in which every surrogate is half of a pair. |
| ChatMetadata.Walker.Validate | packages/contracts/src/chat.ts:517-550 | On success `seen` is restored and the depth bounds every chain below; on an error there is a chain that is bad. |
| ChatMetadata.ValidateJsonMetadata | packages/contracts/src/chat.ts:517-550 | Main result, on arbitrary object graphs: the walk returns if and only if no cycle is reachable and every reachable key, leaf and object kind is valid, and then returns the length of the longest chain of containers. |
| ChatMetadata.GoodAbove | packages/contracts/src/chat.ts:547 | One more than the deepest entry bounds every chain from a container. |
| ChatMetadata.BadBelow | packages/contracts/src/chat.ts:530-546 | A fault below an entry is a fault of the container. |
| Transfers.Send | packages/cli/src/http.ts:89-118 | At most four attempts, at most three sleeps, each at most a minute; of a request that is not idempotent only the last attempt can have been processed by a server that does not process what it answers with 429. |
| Transfers.PauseIsExact | packages/cli/src/http.ts:102-137 | Which attempts are followed by another, and after how long: the first three, on 429, and of idempotent requests on network failures, 503 and on demand 500, 502 and 504; after the server's seconds or until its date, if that is within a minute, or else half a second, one or two, and the jitter. |
| Transfers.UploadParts | packages/cli/src/upload.ts:129-156 | Invalid plans are refused and only they; under a valid one the bodies sent are of the part size, a shorter last one aside, and are the file in order, and each part is reported with its number and tag. |
| Transfers.PlanIsExact | packages/cli/src/upload.ts:131-146 | A plan is valid if and only if it has an upload id, a positive safe part size, 1 to 10,000 parts with as many addresses, and the file ends within the last part. |
| Transfers.CeilDivCovers | packages/cli/src/upload.ts:142 | The checked part count is the least that covers the file. |
| CliOptions.ParseTypedOptions | packages/cli/src/parser.ts:2378-2436 | The index loop reads the flags as the left-to-right recursive reading does, usage errors included. |
| CliOptions.ListRoundTrip | packages/cli/src/parser.ts:738-743 | Trimmed non-empty entries without commas, joined by commas, are read back in order, attendees as records. |
| CliOptions.OptionsRoundTrip | packages/cli/src/parser.ts:2378-2436 | Main result: settings that fit the specification, repeated ones included, printed as flags, are read back as the record they add up to if and only if no value begins with `--`; otherwise they are refused. |
| CliOptions.ListsAddUp | packages/cli/src/parser.ts:2402-2411 | The lists of one field, whatever flags they come from, are appended in order. |
| CliOptions.LastValueCounts | packages/cli/src/parser.ts:2413-2429 | Of other values for one field the last one counts. |
| CliOptions.RefusalIsExact | packages/cli/src/parser.ts:2386-2433 | Any flags are refused if and only if one is unknown, lacks its value or has one that begins with `--`, lies outside its enumeration, or is no positive safe integer. |
| CliOptions.TypedListReads | packages/cli/src/parser.ts:738-743 | A list as it is typed, with white space around its entries and empty ones among them, is read as its entries in order. |
| CliOptions.SplitAtJson | packages/cli/src/json-input.ts:31-42 | `--json` is found, with its text or without, wherever it stands among any arguments; the rest keeps its order, and a second one is an error. |
| CliOptions.JsonFlagMoves | packages/cli/src/json-input.ts:31-52 | Main result: `--json`, with its text or without, means the same wherever it stands among any arguments as at their end, usage errors included. |
| CliOptions.FlagsOverrideJson | packages/cli/src/json-input.ts:55-63 | So an object keeps the members that no flag around it names. |
| CliOptions.JsonInputIsExact | packages/cli/src/runner.ts:674-702 | Main result, for any arguments with `--json`: the fields of the flags on top of its object, from the text or standard input, on top of nothing if that is blank; an error if it is malformed, or no object and there are flags. |
| CliOptions.SettingsOverrideJson | packages/cli/src/parser.ts:2378-2436 | Settings printed on both sides of the JSON text are read back as one record on top of its object. |
| CliOptions.ParsedIsFlagRecord | packages/cli/src/parser.ts:745-751 | Whatever flags are read, the record holds only what JSON carries: positive safe integers, texts, lists and `true`. |
| CliOptions.FlagsAlone | packages/cli/src/runner.ts:674-702 | Without `--json` the record that any flags are read as is the whole input. |

## Left out

Contracts that state less than the source's surroundings allow, and why:

- IdempotencyStore.InMemoryIdempotencyStore.Claim: one atomic step, although the source awaits `get` first; `IdempotencyAwait` has the two steps.
- IdempotencyRefinement.MemoryRefinesTheCell: only for runs whose completions are in time and carry the claimed hash, because the stores really differ otherwise (`CompletionsAgreeUnlessLate`, `RecordHashIsExact`); TTLs are positive, and one clock serves the stores and the callers.
- IdempotencyProtocol.AtMostOncePerWindow: claims are atomic; over the in-memory store `IdempotencyAwait.ApartIsExact` has the `await`. TTLs are at least a millisecond, claim tokens are fresh, and each store call reads the clock once.
- IdempotencyAwait.ApartIsExact: any move may come at the `await`; that only jobs queued by then can run is not modelled, so some of the runs it covers cannot happen.
- McpFramingProofs.ChunksDoNotMatter: for streams that are sound at every frame position; at any other position some cut changes the next frame (`CutsAgreeIsExact`), which the bytes behind it may or may not make visible in the end (`SeparatorDependsOnTheCut`).
- McpFramingForms.EveryFormIsServed: header blocks of at most 8189 bytes that end in CR LF CR LF; `CutsAgreeIsExact` says when longer ones and those that end in LF LF are cut safely.
- JsonReader.CanonicalIsJson: a numeral is read as its text; which of two escapes a character gets is left to the reader.
- McpFramingRoundTrip.RoundTrip: a body in line framing has no line feed, is not blank and does not look like a Content-Length header; bodies come back trimmed, as the writer sends them.
- SchemaCompilerProofs.ValidIsAccepted: on the stated class; outside it `EnumAccepts`, `AnyOfIsExactUnless`, `UnlistedMemberIsRefused`, `PrefixItemIsRefused` and `InheritedNameIsRefused` say keyword by keyword when a valid instance is refused, but whole schemas that break a condition and still lose nothing are not characterised. The property name `__proto__`, which the compiler's own record cannot hold, is not modelled.
- SchemaCompilerProofs.AcceptedIsValid: schemas outside the exact class that happen to agree are not characterised; `OneOfIsExactUnless` and `UnlistedRequiredIsIgnored` say what goes wrong there. `__proto__` is not modelled.
- SchemaReading.ReadingIsExact: which names every JavaScript object inherits is the same list in the reading as in the model; `__proto__` is not modelled.
- CalendarTimeProofs.ResolutionIsExact: offsets are whole seconds and start with a second; wall times start six hours into the year 100 (`FirstHoursAreMissed`); `CandidateIsSeen` and `FoundWhenProbed` need neither steadiness nor those six hours.
- CalendarTime.LocalDateTimeToInstant: instants are integers; `DatesStayValid` shows that the range limit of `Date` is never met in zones within thirty hours.
- ServerEvents.SseRoundTrip: event names and data are single lines, as JSON text is (`ServerEventForms.EveryFormReads` has every other form); chunks that leave less room are covered by `FittingReadsRoundTrip` when the decoder takes them.
- EventsWatch.AtLeastOnce: pages of the server are contiguous and a position is never filled after its page was sent; a lock file is removed by hand only when its process is gone.
- HeaderCodec.HeaderRoundTripIsExact: the base64 decoder is a parameter that reads back what was encoded for this name; how leniently it treats other texts does not matter, as the server compares the re-encoded bytes.
- Transfers.UploadParts: the fields of a plan have their types, the file is in memory, and a part whose transfer fails counts as one without a tag; rounding of `Math.ceil` on huge quotients is not modelled.
- CliOptions.OptionsRoundTrip: numbers are positive safe integers with numerals the number parser reads back.

What the repository does and this model does not:

- The raw `set` and Redis `get` of the stores, JSON serialisation of stored records, and malformed Redis responses.
- SHA-256, UUIDs and key names: hashes and tokens are the texts they stand for, tokens are fresh, key names are injective.
- How the policy decides, what goes into a principal's fingerprint, and what redaction removes: a verdict, a text and a function.
- Forwarding of frames, subscriptions and their cancellation, and back-pressure of the output stream.
- Decoding of frame bodies from UTF-8: bodies stay bytes, so replacement of invalid sequences is not modelled.
- Numerals of numbers, and `JSON.stringify` of functions, symbols, big integers and `toJSON` methods.
- Zod beyond acceptance: error messages and output values.
- Keywords of JSON Schema the compiler ignores: their verdict is an arbitrary function.
- Time-zone names, eras and years before 1 in printed local times, and floating all-day times. Midnight is taken to be printed as hour 0: the source asks for it twice, with `hour12: false` and `hourCycle: "h23"`, and an engine in which the first overrides the second and prints 24 would never match it.
- Loading, enabling and registering plugins after they are resolved.
- Connection handling of live events: authorisation errors, content types, page validation, cursor resets and reconnect delays. They end the process or leave its cursor where it was.
- UTF-8 decoding across chunks of an event stream: the decoder is modelled on the decoded text.
- Limits of the engine in the metadata walk: very wide clean values, whose depths are spread into one call, and very deep ones make it throw.
- `validateMetadata` around the walk, with its byte limit and its depth limit, sparse arrays, and getters.
- Time limits of requests, the mapping of network errors, and presigned upload headers; uploads in one part.
- Command dispatch, usage texts, and the reading of standard input, which is a parameter; a terminal there is an error in the source.
