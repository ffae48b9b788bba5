# Verified model of the replay library

A Dafny model of six cores of the repository and proofs of what they promise for every input, every run and every
interleaving. `dafny verify dfyconfig.toml` checks it.

- **Canonical identity codec** (`Text`, `Sorting`, `Json`, `Canonical`, `Meaning`, `Tagging`, `Decoder`, `Trace`,
  `TraceMeaning`, `TraceAcceptance`). Every identity is a hash of a text, so the text must determine its meaning. The
  specification is a parser for sections 2 to 7 of RFC 8259 that undoes the printer whatever follows; from it come
  injectivity up to set order, field order and integer spelling, and the exact exception: a record that imitates a
  set.
- **ITF codec** (`Itf`, `Reading`, `Agreement`, `ItfDocument`, `ItfAcceptance`). The raw dialect's canonical text
  round trips, what each reader accepts is exact, and decoding is reading and keeping; and it agrees with the first
  codec but for blank record names, which `Itf.read` accepts and the encoder refuses: decoding such a document raises
  an exception instead of reporting a finding, and so does a status that cannot be read as text. The theorem says
  exactly when.
- **Replay engine** (`Comparison`, `ComparisonVerdict`, `DivergencePath`, `Replay`, `ReplayLaws`,
  `ReplayCancellation`, `EngineComparison`, `PureReplay`). A driver may answer anything, as a function of the calls it
  has received; either token may be cancelled at any poll.
- **Lease, fence, commit and outbox** (`Protocol`, `StoreSpec`, `ProtocolStore`, `StoreSystem`, `StoreInvariant`,
  `StoreSafety`, `StoreAnswers`, `StoreLedger`, `Refinement`). The mutable store as a class proved against functions
  on its abstract value; workers that claim, read, pause and commit in any order; an inductive invariant; and a
  forward simulation into the independently written protocol, whose `safe` is proved for every enabled sequence of
  operations.
- **Custody pool** (`Custody`). Sixteen slots, concurrent invocations, sessions that any claimer may release.
- **Correction planning and resolution** (`Correction`, `Resolver`), with the fixed tables lifted into parameters.
- **Claim-generation gate** (`ClaimGeneration`, `ClaimComments`): who holds an item, until when a verdict stands, what
  a sweep may change.

Mutable code is modelled as classes and loops whose contracts equate the new state with a function of the old; the laws
are then proved about those functions. A text is a sequence of UTF-16 code units. SHA-256 is an uninterpreted function
into 64 lowercase hexadecimal digits. Exceptions and error results are values.

Where the code does not meet a stated promise, the code is kept and the exact condition is proved:
`Tagging.TextDecides` (imitated sets), `ItfDocument.RaisesExactly` (blank record names and an unreadable status),
`Protocol.GuardIsExact` (operations without a guard), `StoreSafety.OutboxOfRun` and
`Refinement.SafeUnlessAcknowledgedTwice` (an action acknowledged when already gone), `Correction.TruncationNeedsEpoch`
(an epoch of zero as the mark of truncation), `Correction.BeliefsIncreaseExactly` (events before the inserted one),
`Resolver.TransitionSplices` (jumps to an ancestor), `ClaimGeneration.DeadlineIsTight` (the documentation says the
verdict can first change at the published expiry; the code changes it one second later), `ClaimGeneration.FairIsExact`
(only the winner's own lapse is said to move the generation; renewing a lapsed marker with a lower id does too), and
`ClaimGeneration.RevokesOnly` (the documentation says that no pull request's failure can end the sweep; publishing
that takes too long does, and leaves the later checks standing).

## Model

| member | source | states |
|---|---|---|
| Canonical.EscapeJsonLoop | src/FsQuint/QuintReplay.fs:46-64 | the loop over the string builder returns a JSON string that an RFC 8259 parser reads back as the argument, for every UTF-16 string and whatever text follows |
| Canonical.Append | src/FsQuint/QuintReplay.fs:51-62 | one round of that loop appends the escape of the one character |
| Canonical.ParseEscapeJson | src/FsQuint/QuintReplay.fs:46-64 | `escapeJson` is undone by the string parser with any trailing text, for strings with lone surrogates and control characters too |
| Canonical.EscapeShortest | src/FsQuint/QuintReplay.fs:46-64 | no JSON string that reads as the text is shorter than `escapeJson` of it |
| Canonical.EscapeLowerCase | src/FsQuint/QuintReplay.fs:58-61 | the escapes of control characters have lower-case digits |
| Text.LessMeans | src/FsQuint/QuintReplay.fs:112 | `String.CompareOrdinal` below zero: a proper first part, or the lesser unit at the first difference |
| Text.ValidUnicodeMeans | src/FsQuint/QuintReplay.fs:18-24 | a text is well-formed exactly when no surrogate in it is alone |
| Text.CanonicalIntegerSpec | src/FsQuint/QuintReplay.fs:66-81 | `canonicalInteger` accepts exactly an optional sign and decimal digits, and gives the one shortest spelling of that integer |
| Text.IntTextInjective | src/FsQuint/QuintReplay.fs:79 | two integers with one spelling are equal |
| Json.ParsePrintValue | src/FsQuint/QuintReplay.fs:83-160 | an RFC 8259 parser applied to any printed tree followed by any text (after a number, one that cannot continue it) consumes exactly the printed tree and returns it; for every quoting the parser undoes |
| Json.PrintInjective | src/FsQuint/QuintReplay.fs:83-160 | two printable trees with one text are equal |
| Canonical.EncodeIsPrint | src/FsQuint/QuintReplay.fs:83-178 | whatever `encodeAt` accepts, its text is the printed form of a well-formed JSON tree |
| Meaning.ParseEncoded | src/FsQuint/QuintReplay.fs:83-178 | parsing an accepted value's text consumes exactly that text and returns its tree, whatever follows, if only nothing that continues a number follows an integer |
| Meaning.TextIsIdentity | src/FsQuint/QuintReplay.fs:83-178 | two accepted values without a record that imitates a set share a text if and only if they are the same value up to set order, field order and integer spelling |
| Tagging.TextDecides | src/FsQuint/QuintReplay.fs:105-160 | exact condition: the text of an accepted value decides the value among tag-free ones if and only if no record in it has the single key `#set` over a sequence in set order |
| Tagging.UntagText | src/FsQuint/QuintReplay.fs:105-160 | turning every such record into the set it imitates keeps the text |
| Tagging.TextMeans | src/FsQuint/QuintReplay.fs:83-178 | of all accepted values: two share a text if and only if they are the same once every imitating record is read as the set it imitates |
| Tagging.EncoderAcceptsExactly | src/FsQuint/QuintReplay.fs:83-178 | of all values, imitations included: `encodeAt` accepts exactly base-10 integers, well-formed text, records with distinct, non-blank, well-formed names, and sets no two of whose members are the same once imitations are read as sets |
| Tagging.SetAccepted | src/FsQuint/QuintReplay.fs:105-124 | of sets without a record that imitates a set: one is accepted if and only if its members are and no two of them are the same value, however spelled |
| Tagging.Collision | src/FsQuint/QuintReplay.fs:105-160 | the collision: an empty set and a record with the one key `#set` over an empty sequence are accepted, share a text and differ |
| Decoder.DecodedClean | src/FsQuint/QuintReplay.fs:311-370 | the schema-v1 decoder never yields a record with a `#` key |
| Decoder.DecodeUndoesEncode | src/FsQuint/QuintReplay.fs:311-370 | decoding the parsed text of an accepted value gives the same value if and only if its integers fit in 64 bits and no record name starts with `#` |
| Reading.CarriedExactly | src/FsQuint/QuintReplay.fs:311-370 | the schema-v1 decoder accepts exactly: bare integers of 64 bits, any base-10 text under a sole `#bigint`, arrays and a sole `#set` over an array of accepted trees, objects of accepted trees without `#` names, and every null, boolean and string |
| Itf.ReadIsReadable | src/FsQuint/Itf.fs:98-177 | every value `read` produces has distinct, `#`-free, well-formed record names and unique set members and map keys |
| Reading.LegibleExactly | src/FsQuint/Itf.fs:122-177 | `value` accepts exactly: well-formed strings, integers bare or under a sole `#bigint`, `#tup`, `#set` without two members of one canonical text, `#map` of pairs without two keys of one canonical text, and objects without other `#` names |
| Itf.RawReadBack | src/FsQuint/Itf.fs:49-177 | parsing the canonical text of a readable value and reading the tree gives the value with sets, maps and records in ordinal order, which has the same canonical text |
| Itf.RawIdentity | src/FsQuint/Itf.fs:49-75 | two readable values share a canonical text if and only if they are equal up to those orders |
| Agreement.TwoCodecsAgree | src/FsQuint/Itf.fs:98-177 | a tree both readers accept decodes to a value that `encodeAt` accepts if and only if no record in it has a blank name; so uniqueness of raw texts is enough for uniqueness of canonical ones |
| Agreement.SameRaw | src/FsQuint/Itf.fs:131-135 | two trees whose decoded values mean the same have one raw canonical text |
| Reading.DecodesAsRead | src/FsQuint/QuintReplay.fs:311-370 | decoding a tree that `Itf.read` accepts is reading it and keeping the replay value of what is read: the two give the same value, except that the decoder refuses tuples, maps and bare numbers outside 64 bits, and nothing else |
| ItfDocument.Check | src/FsQuint/Itf.fs:98-120 | the recursive check, with its set of names, holds exactly when every object has distinct names, which reading them needs to be well-formed, and every collection is within the limit; string values are not looked at |
| ItfDocument.CheckMembers | src/FsQuint/Itf.fs:100-112 | the loop over one object's fields passes exactly when no name is repeated or ill-formed, reading an ill-formed one being an error, and every field's value passes the check |
| Reading.CheckedMeans | src/FsQuint/Itf.fs:98-120 | the check passes exactly when every collection anywhere in the tree is within the limit and every object anywhere in it has distinct, well-formed names |
| ItfAcceptance.ReadsExactly | src/FsQuint/Itf.fs:176-266 | `Itf.read` accepts exactly the documents that pass the check, whose root has some distinct variables and one to the limit of states, with metadata of format ITF if any, and whose states bind exactly the variables to trees the reader accepts, with their index if they have metadata; and it gives the variables and, state by state, their values in the declared order |
| ItfDocument.DecodeItf | src/FsQuint/QuintReplay.fs:528-702 | decoding an accepted document, with findings accumulated state by state, computes the specified trace, findings or exception |
| ItfDocument.DecodeEach | src/FsQuint/QuintReplay.fs:600-651 | the loop over the states decodes each in turn and stops at the first without an encoding |
| ItfDocument.RaisesExactly | src/FsQuint/QuintReplay.fs:541-651 | for every document `Itf.read` accepts, decoding raises an exception if and only if the metadata's status is a string with an unpaired surrogate, which is read there for the first time, or some variable of some state has a value with a blank record name, where `invalidOp` is reached |
| ItfDocument.BlankNameRaises | src/FsQuint/QuintReplay.fs:645-651 | a concrete accepted document of the second kind |
| ItfDocument.UnreadableStatusRaises | src/FsQuint/QuintReplay.fs:541-543 | a concrete accepted document of the first kind |
| ItfDocument.DecodedMeans | src/FsQuint/QuintReplay.fs:600-700 | a document that decodes gives a trace that validates, with all its states in order, each binding exactly the declared variables to their decoded values, and the consumer's steps |
| ItfAcceptance.DecodesExactly | src/FsQuint/QuintReplay.fs:528-702 | of the documents `Itf.read` accepts, a trace is given for exactly those whose metadata has the four fields and the status `ok`, whose states have an index and variables the decoder accepts, without a blank record name, and whose context has a good environment and one good binding per transition, in order |
| Trace.ValidStateSpec | src/FsQuint/QuintReplay.fs:372-392 | a state is valid exactly when it encodes and its identity is the digest of its text |
| Trace.ValidIffFingerprint | src/FsQuint/QuintReplay.fs:416-526 | `validateTrace t` is empty if and only if `traceFingerprint t` is Ok of the identity `t` carries; and the digest it returns always makes the trace valid |
| TraceAcceptance.TraceAccepted | src/FsQuint/QuintReplay.fs:416-502 | `validateTrace` is empty exactly for schema version 1, an environment with a non-blank seed, lowercase digests and distinct, non-blank, non-negative bounds, states that encode and carry the digest of their text, steps numbered from 1 with a non-blank action and a positive source position, and an identity that is the digest of the trace's text |
| TraceAcceptance.FindingsExactly | src/FsQuint/QuintReplay.fs:372-502 | each diagnostic code is reported exactly when its fault is there, in the environment, a source, a state or a step; the trace's digest is compared only when nothing else is wrong |
| TraceMeaning.TraceTextIsIdentity | src/FsQuint/QuintReplay.fs:223-266 | two traces with valid contents and no record that imitates a set share a text if and only if they have the same environment, initial state and steps up to bound and binding order and what values ignore; the parser recovers the tree |
| Comparison.FirstEquivalent | src/FsQuint/QuintReplay.fs:751-826 | the comparator says Equivalent exactly when there are as many observations as steps and each matches its step in index, action, source and state |
| Comparison.FirstByState | src/FsQuint/QuintReplay.fs:774-824 | when only states can differ, the verdict is the divergence at the least step whose state does |
| Comparison.StateMatchesSpec | src/FsQuint/QuintReplay.fs:808-813 | for valid states the two tests are one, and for states without imitations it is equality of meaning |
| ComparisonVerdict.ComparedExactly | src/FsQuint/QuintReplay.fs:704-750 | inputs are compared exactly when the trace is valid and every observation bears its place, a non-blank action, a good source and a state that encodes and carries its digest |
| ComparisonVerdict.FirstDifference | src/FsQuint/QuintReplay.fs:751-826 | the verdict is decided by the first place where steps and observations do not match, and says which way: a missing observation, one too many, or a pair differing first in index, action, source or state, with that step's action, source and states |
| DivergencePath.PointerRoundTrip | src/FsQuint/Replay.fs:104 | the escaping of the path is undone by section 4 of RFC 6901, for every name |
| DivergencePath.PathNamesLeastDifference | src/FsQuint/Replay.fs:86-105 | whenever two states encode differently, the path names the least binding, in ordinal order, whose encoding differs; the fallback is never used |
| DivergencePath.PathOfAlike | src/FsQuint/Replay.fs:86-105 | for states all of whose bindings encode alike the path is the root |
| Replay.Engine.constructor | src/FsQuint/Replay.fs:59-65 | a run starts with nothing called, nothing applied and an Equivalent outcome |
| Replay.Engine.ObserveState | src/FsQuint/Replay.fs:72-109 | the observation step, with its polls, call and four-way match, changes the run as the specification function says |
| Replay.Engine.ApplyStep | src/FsQuint/Replay.fs:126-136 | one round of the step loop changes the run as the specification function says |
| Replay.Engine.ApplySteps | src/FsQuint/Replay.fs:125-136 | the step loop equals the fold of rounds over the steps, an exception ending it |
| Replay.Engine.InitializeDriver | src/FsQuint/Replay.fs:115-122 | the token check and the call to Initialize change the run as specified |
| Replay.Engine.Handle | src/FsQuint/Replay.fs:137-141 | the exception handlers set the outcome as specified |
| Replay.Engine.CleanUp | src/FsQuint/Replay.fs:143-153 | cleanup is called when the runtime exists, and only its failure is recorded |
| Replay.Engine.RunTrace | src/FsQuint/Replay.fs:41-161 | the report and the calls made are those of the specified run |
| ReplayLaws.Lifecycle | src/FsQuint/Replay.fs:111-136 | for every driver, every exception and every cancellation point: the calls made are a first part of Initialize, Observe, Apply s1, Observe, ..., so steps are applied in order without repeats and their number is the one reported; every call but the last was answered well, so nothing follows a failure; Equivalent is reported only after the whole trace agreed |
| ReplayLaws.CleanupOnce | src/FsQuint/Replay.fs:143-160 | Cleanup is the last call and is made exactly when Initialize succeeded; its failure is reported exactly when it fails |
| ReplayLaws.CleanupIgnored | src/FsQuint/Replay.fs:143-160 | whatever Cleanup answers, the outcome and the number of steps applied are the same |
| ReplayLaws.StopsAtFirstFailure | src/FsQuint/Replay.fs:72-141 | without cancellation, the run stops at the first call that does not pass and reports that failure or divergence; it is Equivalent if and only if all pass |
| ReplayLaws.CancellationHasACause | src/FsQuint/Replay.fs:138-140 | Cancelled is reported only if the caller cancelled, TimedOut only if the deadline passed |
| ReplayLaws.Reported | src/FsQuint/Replay.fs:155-160 | the report gives the outcome, the number of Apply calls made, and what cleanup came to |
| ReplayCancellation.CancelledExactly | src/FsQuint/Replay.fs:137-141 | exactly when: a run of a valid trace is Cancelled if and only if its last poll found a token cancelled or its last call was answered so, and the caller has cancelled; TimedOut if and only if so and not the caller but the deadline has; stopped so with neither, it is a driver failure |
| ReplayCancellation.StoppedAtPoll | src/FsQuint/Replay.fs:137-141 | with tokens that stay cancelled, a run stopped at a poll is Cancelled or TimedOut, never blamed on the driver |
| ReplayCancellation.CancelledAtOnce | src/FsQuint/Replay.fs:115-122 | cancelled from the first poll on, a run calls nothing, applies nothing, cleans nothing up and is Cancelled |
| ReplayCancellation.NoCallsAfterCancellation | src/FsQuint/Replay.fs:72-136 | a token cancelled at the k-th poll leaves at most k / 2 + 1 calls, none for the first poll; and a run of n calls is Equivalent only if none of the 2n - 1 polls around them found one cancelled |
| ReplayCancellation.InvalidExactly | src/FsQuint/Replay.fs:111-114 | InvalidTrace is reported exactly when validation finds something, with those findings, and then the driver is never called |
| EngineComparison.EngineRefinesComparator | src/FsQuint/Replay.fs:72-136 | for a driver that neither fails nor is cancelled and returns valid states: the engine is Equivalent if and only if the initial observation matches and `compare` is; it diverges at step 0 if and only if the initial one does not match; otherwise it diverges at the step, action, source and states of `compare`, whose reason is then the state |
| EngineComparison.EngineOutcome | src/FsQuint/Replay.fs:82-107 | such a run diverges at the first observation that does not encode as expected, or is Equivalent |
| PureReplay.PureDriver.constructor | examples/Shared/PureReplay.fs:17-18 | the cell starts empty |
| PureReplay.PureDriver.Initialize | examples/Shared/PureReplay.fs:18 | the cell holds what the calls so far put there, and the answer is that of the driver seen as a function of its calls |
| PureReplay.PureDriver.Apply | examples/Shared/PureReplay.fs:19-22 | the same for Apply, which overwrites the cell on success only |
| PureReplay.PureDriver.Observe | examples/Shared/PureReplay.fs:23 | the same for Observe, which leaves the cell alone |
| PureReplay.PureDriver.CleanUp | examples/Shared/PureReplay.fs:24 | the same for Cleanup |
| PureReplay.CheckBindings | examples/Shared/PureReplay.fs:12-15 | the argument check passes exactly when the inputs are bound one to one, in order, to the steps' indices and actions |
| PureReplay.RunPure | examples/Shared/PureReplay.fs:11-26 | an argument exception exactly when the bindings do not fit; otherwise the engine's report on the pure driver |
| PureReplay.EquivalentMeansEveryPrefix | examples/Shared/PureReplay.fs:11-26 | Equivalent implies that every prefix fold of the reducer succeeds and projects to the state the trace expects; unless the deadline passes, the converse holds too |
| PureReplay.CleanupGetsTheFold | examples/Shared/PureReplay.fs:24 | after an Equivalent run cleanup is given what the whole fold reached, and its failure is what is reported |
| Protocol.SafeAlways | examples/AutomataReplay/protocol.qnt:17-69 | `safe` holds after every enabled operation sequence of any length, over any number of entities |
| Protocol.GuardedKeepsCore | examples/AutomataReplay/protocol.qnt:17-45 | each operation within its enabling condition is defined and keeps the inductive strengthening of `safe` |
| Protocol.KeepsBase | examples/AutomataReplay/protocol.qnt:25 | an acknowledgment of an absent message spoils the count of acknowledgments and nothing else |
| Protocol.GuardIsExact | examples/AutomataReplay/protocol.qnt:25-43 | in every state of the invariant, an operation leaves the protocol safe under all enabled continuations if and only if it is within its enabling condition: not Expire, Fail or Reject of a done command, not Ack of an absent one |
| Protocol.EnabledKeepsFifo | examples/AutomataReplay/protocol.qnt:28-43 | when only leased commands are expired, failed or rejected, the predecessors of every command that has left the ready state stay final |
| Protocol.UnguardedExpireBreaksSafe | examples/AutomataReplay/protocol.qnt:33-38 | a concrete run: submit, claim, commit, expire, claim and commit put one command in the history twice |
| ProtocolStore.TestStore.constructor | examples/AutomataReplay/ProtocolStore.fs:13-22 | a new store is empty |
| ProtocolStore.TestStore.Submit | examples/AutomataReplay/ProtocolStore.fs:47-57 | an existing entity and key give the existing id and no change; otherwise one Ready row is added with the next id and the entity's next sequence |
| ProtocolStore.TestStore.Claim | examples/AutomataReplay/ProtocolStore.fs:58-69 | the eligible rows, computed before any is leased and cut to the batch, are leased one after another with fresh tokens |
| ProtocolStore.TestStore.LeaseRow | examples/AutomataReplay/ProtocolStore.fs:66-69 | one lease draws the next token and changes its row and the counter only |
| ProtocolStore.TestStore.Reschedule | examples/AutomataReplay/ProtocolStore.fs:70-75 | the owner's row is Ready with one more attempt; anyone else gets LeaseLost and no change |
| ProtocolStore.TestStore.Expire | examples/AutomataReplay/ProtocolStore.fs:33-36 | every leased row is Ready again, no action is leased, nothing else changes |
| ProtocolStore.TestStore.BeginCommit | examples/AutomataReplay/ProtocolStore.fs:83-86 | the arguments are remembered before the pause, and nothing else changes |
| ProtocolStore.TestStore.Commit | examples/AutomataReplay/ProtocolStore.fs:87-109 | after the pause: already finalized, fenced, conflict, injected failure or the write, each with its whole effect on the store |
| ProtocolStore.TestStore.Finalize | examples/AutomataReplay/ProtocolStore.fs:97-109 | the write: history, snapshot, row, pending actions and the lost response |
| ProtocolStore.TestStore.Reject | examples/AutomataReplay/ProtocolStore.fs:110-113 | the owner's row is Rejected; anyone else gets LeaseLost and no change |
| ProtocolStore.TestStore.DeadLetter | examples/AutomataReplay/ProtocolStore.fs:114-117 | the owner's row is DeadLettered; anyone else gets LeaseLost and no change |
| ProtocolStore.TestStore.ClaimActions | examples/AutomataReplay/ProtocolStore.fs:123-128 | the pending actions no one has leased, cut to the batch, are leased with tokens from the same counter |
| ProtocolStore.TestStore.Complete | examples/AutomataReplay/ProtocolStore.fs:129-138 | a lost acknowledgment frees the action only; otherwise it leaves the pending list and one acknowledgment is counted, even if it was already gone |
| ProtocolStore.TestStore.RescheduleAction | examples/AutomataReplay/ProtocolStore.fs:139 | the action is free to be leased again |
| ProtocolStore.TestStore.Abandon | examples/AutomataReplay/ProtocolStore.fs:140 | the action leaves the pending list, uncounted |
| ProtocolStore.Destination.Handle | examples/AutomataReplay/Protocol.fs:95-98 | a delivery is always an attempt and has an effect only the first time its key is seen |
| StoreInvariant.NextSound | examples/AutomataReplay/ProtocolStore.fs:46-121 | every call by any worker, in any interleaving, keeps ids, sequences, keys, order, tokens, books and every worker's claim to its row |
| StoreInvariant.NeverConflict | examples/AutomataReplay/ProtocolStore.fs:87-94 | a worker that read after its claim and still owns its row expects the entity's very epoch, so its commit is not a conflict |
| StoreSafety.InvAlways | examples/AutomataReplay/ProtocolStore.fs:33-140 | the whole invariant, outbox and effects included, holds after every sequence of calls |
| StoreSafety.ExactlyOnce | examples/AutomataReplay/ProtocolStore.fs:33-121 | in every reachable state an entity's state is the 32-bit sum of the payloads of its Succeeded commands and its epoch their number, its k-th transition has epoch k and starts where the one before ended, no command is in the history twice, and those in it are the Succeeded ones |
| StoreSafety.FirstInFirstOut | examples/AutomataReplay/ProtocolStore.fs:51-117 | in every reachable state a leased or finished command's predecessors by sequence are final, at most one command per entity is leased, and an entity's commits are in sequence order |
| StoreSafety.LeaseSerialises | examples/AutomataReplay/ProtocolStore.fs:26-94 | in every reachable state, a worker that read after claiming never gets Conflict, whatever ran between its claim, its read and its commit |
| StoreSafety.FinalForEver | examples/AutomataReplay/ProtocolStore.fs:24-117 | the row of a finished command is never touched again, over any run |
| StoreSafety.NeverWedged | examples/AutomataReplay/ProtocolStore.fs:33-69 | for a single machine with an unfinished command, Expire then Claim with a batch of at least one hands out at least one command |
| StoreSafety.OutboxConserved | examples/AutomataReplay/ProtocolStore.fs:103-140 | in every reachable state pending keys are distinct and pending plus acknowledged plus abandoned equals the actions committed plus the acknowledgments of actions already gone |
| StoreSafety.OutboxOfRun | examples/AutomataReplay/ProtocolStore.fs:129-140 | for a run that abandons no action still pending, pending plus acknowledged is never less than the actions committed, and equals it if and only if every acknowledged completion was of an action still pending |
| StoreSafety.EffectsAreKeysDelivered | examples/AutomataReplay/Protocol.fs:95-98 | the destination's effects are as many as the distinct keys ever delivered, and its attempts as many as the deliveries, under any loss and redelivery |
| StoreAnswers.SubmitIsIdempotent | examples/AutomataReplay/ProtocolStore.fs:47-57 | whatever happens in between, submitting an entity and key again, even with another payload, answers with the id first accepted and changes nothing |
| StoreLedger.SubmitStores | examples/AutomataReplay/ProtocolStore.fs:47-57 | a submission under a new entity and key adds one row with that machine, entity, key and payload, ready, without attempts, token or deliveries; under a known one it changes nothing and answers with the id of the row that has it |
| StoreLedger.RowsAreSubmissions | examples/AutomataReplay/ProtocolStore.fs:47-57 | after any run the rows are the first submissions of the run, in order, with the machine, entity, key and payload submitted |
| StoreLedger.StateIsSubmitted | examples/AutomataReplay/ProtocolStore.fs:47-109 | after any run an entity's state is the 32-bit sum of the payloads first submitted under the keys of its committed commands |
| StoreLedger.PendingIsSourced | examples/AutomataReplay/ProtocolStore.fs:103-105 | after any run every pending action is one of a committed transition, with its machine, entity, command, epoch and name |
| StoreAnswers.ClaimHandsOut | examples/AutomataReplay/ProtocolStore.fs:58-69 | a claim hands out the first commands, up to the batch, that are the machine's, ready and behind no unfinished command of their entity, each with its own fresh token and raised delivery count, and touches no other row |
| StoreAnswers.CommitAnswers | examples/AutomataReplay/ProtocolStore.fs:87-109 | Finalized is answered exactly by the commit that enters the command into the history, with the epoch it got; AlreadyFinalized only for one already there; LeaseLost only counts; and an unavailable store has committed or done nothing |
| StoreAnswers.WhichAnswer | examples/AutomataReplay/ProtocolStore.fs:87-109 | which answer a commit gets, exactly, by who owns the row and which faults are switched on; and it is written exactly when the worker owns the row and the store does not fail before |
| StoreAnswers.StaleIsConflict | examples/AutomataReplay/ProtocolStore.fs:94 | an owner that expects another epoch than the entity's gets Conflict, and nothing changes |
| StoreAnswers.OwnerCommits | examples/AutomataReplay/ProtocolStore.fs:87-109 | an owner whose payload is accepted commits by reading and committing, and adds that payload to the state |
| StoreAnswers.ProgressIsPossible | examples/AutomataReplay/ProtocolStore.fs:33-109 | in every reachable state with one machine and an unfinished command, expiring, claiming, reading and committing commits one more command, unless the store is made to fail or a payload is refused |
| StoreAnswers.GivenBack | examples/AutomataReplay/ProtocolStore.fs:70-117 | Reschedule, Reject and DeadLetter by the owner give the row one attempt more or a final status and change nothing else; by anyone else they answer LeaseLost and change nothing |
| StoreAnswers.UnknownCommand | examples/AutomataReplay/ProtocolStore.fs:23-117 | for an id never submitted every such call is an exception and changes nothing |
| StoreAnswers.RetryIsIdempotent | examples/AutomataReplay/ProtocolStore.fs:90-91 | once a commit is written, even if its response was lost, the same commit again, after whatever else has happened, says AlreadyFinalized and changes nothing |
| StoreAnswers.ActionLeasesExclusive | examples/AutomataReplay/ProtocolStore.fs:123-128 | a claim of actions hands out pending ones that no one has leased, each once with its own token, and changes nothing else |
| StoreAnswers.ActionsInOrder | examples/AutomataReplay/ProtocolStore.fs:123-128 | a claim of actions hands out the first pending ones that no one has leased, in order, as many as the batch allows |
| StoreAnswers.ActionsComeBack | examples/AutomataReplay/ProtocolStore.fs:129-140 | a pending action whose lease expires, whose acknowledgment is lost or which is rescheduled is handed out again; one acknowledged or abandoned is not |
| StoreSystem.WrapAdd | examples/AutomataReplay/Protocol.fs:22 | wrapping at every 32-bit addition or once at the end is the same |
| Refinement.StepRefines | examples/AutomataReplay/ProtocolStore.fs:46-140 | forward simulation: from matching states every call but an Abandon of an action still pending is matched by zero or more protocol operations that lead to matching states; action claims only advance the serial; a Submit is matched by nothing for a known key and by a Submit of that very entity and payload otherwise; all but acknowledgments are within their enabling conditions |
| Refinement.AbandonMatchedExactly | examples/AutomataReplay/protocol.qnt:17-45 | from matching states, an Abandon is matched by protocol operations if and only if its action is no longer pending, for no operation drops a message uncounted |
| Refinement.StoreRefinesProtocol | examples/AutomataReplay/protocol.qnt:17-61 | what the store's metrics and the handler's counters show after any run is what `observe` shows after some run of the protocol, amounts wrapped to 32 bits |
| Refinement.SafeUnlessAcknowledgedTwice | examples/AutomataReplay/protocol.qnt:62-67 | the protocol state a run of the store reaches satisfies `safe` if and only if every acknowledged completion was of an action still pending |
| Refinement.FailsUntilDead | examples/AutomataReplay/protocol.qnt:39-42 | dead-lettering is matched by the failures left before the abstract command dies |
| Custody.Pool.constructor | src/FsQuint.Tooling/Tooling.fs:64 | sixteen vacant slots |
| Custody.Pool.ReleaseSlot | src/FsQuint.Tooling/Tooling.fs:68-85 | the slot is emptied exactly when the session accepts and the slot still holds that very session; otherwise the pool is unchanged |
| Custody.Pool.ClaimSlot | src/FsQuint.Tooling/Tooling.fs:87-98 | the sweep and the search leave the pool and the answer the specified ones |
| Custody.Pool.Register | src/FsQuint.Tooling/Tooling.fs:188 | the claimed slot retains the session, no other changes |
| Custody.Pool.Vacate | src/FsQuint.Tooling/Tooling.fs:274 | the slot is vacant, no other changes |
| Custody.ClaimMeans | src/FsQuint.Tooling/Tooling.fs:87-98 | a claim fails exactly when every slot is claimed or holds a session that does not accept; otherwise it takes the first other slot, and other slots change only where a session accepts |
| Custody.ReleaseMeans | src/FsQuint.Tooling/Tooling.fs:68-85 | a release answers whether the session accepted; if it did, the session is in the slot no longer and the slot is vacated if it was its; otherwise, and in every other slot, nothing changes |
| Custody.ExactCustody | src/FsQuint.Tooling/Tooling.fs:57-98 | under every interleaving each claimed slot belongs to exactly one invocation between claim and registration, each registered session that has not accepted release is in exactly one slot, and nothing else is retained |
| Custody.OthersSlotsUntouched | src/FsQuint.Tooling/Tooling.fs:68-85 | a release or cleanup alters no slot but one its invocation holds or that still retains its session; a slot emptied by another claimer and taken since is left alone |
| Custody.NothingLeaks | src/FsQuint.Tooling/Tooling.fs:270-274 | when every invocation has finished no slot is claimed, and each slot that is not vacant holds a session yet to accept release |
| Custody.AdmissionBound | src/FsQuint.Tooling/Tooling.fs:62-64 | sessions not yet released plus slots claimed never exceed sixteen |
| Custody.ClaimFailsOnlyWhenFull | src/FsQuint.Tooling/Tooling.fs:87-130 | in every reachable state a claim fails if and only if each of the sixteen slots is claimed or holds a session that refuses, and such slots are not changed by it |
| Correction.OrderedSorts | examples/AutomataReplay/correction.qnt:21-23 | the insertion order is a sorted permutation of the history |
| Correction.OrderedIsTheSort | examples/AutomataReplay/correction.qnt:21-23 | with distinct keys it is the only one, so it does not depend on how the history was listed |
| Correction.TiesAreReversed | examples/AutomataReplay/correction.qnt:21-23 | without distinct keys it does: two events with one key change places |
| Correction.FoldMeans | examples/AutomataReplay/correction.qnt:41-50 | the fold replays the events up to the first that cannot be replayed and is left as that one leaves it: unknown version, divergence or truncation; and replays all when there is none |
| Correction.PlannedMeans | examples/AutomataReplay/correction.qnt:32-56 | every plan replays a first part of the ordered history under the recorded versions, complete exactly when it is not truncated, with no effects, and its last belief attributed to the correction |
| Correction.TruncationNeedsEpoch | examples/AutomataReplay/correction.qnt:42-45 | under the truncating policy a diverging event ends the replay, whatever follows, if and only if its epoch is not zero |
| Correction.BeliefsIncreaseExactly | examples/AutomataReplay/correction.qnt:29-63 | belief instants strictly increase if and only if no replayed event is earlier than the inserted one |
| Correction.AsOfSurvivesCompaction | examples/AutomataReplay/correction.qnt:24-49 | at every instant the belief in force carries the amount that folding all events up to that instant gives; before the inserted event there is none |
| Correction.PlanAsOf | examples/AutomataReplay/correction.qnt:32-56 | the same for the beliefs of a whole plan, with increasing instants and the last belief the correction's own |
| Correction.PlanIsSafe | examples/AutomataReplay/correction.qnt:60-65 | for any history: no effects are proposed, a refused plan asserts no beliefs, and a plan's last belief bears the correction's epoch, version and command |
| Correction.OutcomeExactly | examples/AutomataReplay/correction.qnt:32-50 | which outcome a plan has, exactly: refused by the budget, the current version or the inserted event; refused by the first event that cannot be replayed, for its version or, unless truncating, for diverging, with that event's epoch; otherwise planned; a refusal proposes nothing |
| Correction.AmountInClosedForm | examples/AutomataReplay/correction.qnt:24-26 | the folded amount is the start and every credit, 10 under version 2 and 1 otherwise, each doubled as often as a doubling follows it |
| Resolver.DeepestFirst | examples/AutomataReplay/resolver.qnt:34-43 | the rule considered is the first declared of those matching the deepest state of the path that has one; none exactly when no state has one |
| Resolver.AgreeingIsCommon | examples/AutomataReplay/resolver.qnt:52 | counting agreeing positions is the longest common prefix, for any two paths of a tree |
| Resolver.TransitionSplices | examples/AutomataReplay/resolver.qnt:50-61 | for any tree and rule, the old path without the exits and with the entries is the new leaf's path if and only if the rule does not jump to an ancestor or its leaf is under the parent of the target; effects are ordered exits from the leaf up, rule, entries |
| Resolver.TransitionDefined | examples/AutomataReplay/resolver.qnt:50-61 | when a transition has a value: its leaf is a state, and a jump to an ancestor does not slice past the end of the new path |
| Resolver.HandledPath | examples/AutomataReplay/resolver.qnt:34-63 | in every well-formed chart, handling an event leaves exactly the path of the new leaf, and the handler is a state of the old path |
| Resolver.ResolveMeans | examples/AutomataReplay/resolver.qnt:34-63 | resolution in full, in every well-formed chart: InvalidTerminal, Unhandled, or decided by the first declared rule of the deepest state that has a matching one: GuardFailed, Rejected and TargetMismatch exactly under its conditions, and otherwise handled by its owner, to its leaf or the old one, with its own effect |
| Resolver.LeavesNoMore | examples/AutomataReplay/resolver.qnt:50-61 | a jump to a state on the path leaves up to that state, a transition to the leaf itself up to the rule's owner, and any other leaves and enters no state twice |
| ClaimGeneration.ReadClaimState | scripts/check-claim-generation.py:706-819 | the loop that sorts the comments into live and lapsed claims, with its early exit, computes the specified state |
| ClaimGeneration.WhoHolds | scripts/check-claim-generation.py:795-819 | held exactly by the live claim with the lowest id; expired, with the claim that lapsed last, exactly when there are claims and none is live; released exactly when there is none |
| ClaimComments.ReadingMeans | scripts/check-claim-generation.py:733-795 | every comment with a claim marker and a numeric id is a claim with that id and worker, whatever its lease field says, and no other comment is; its lease, expiry and age follow from its fields and timestamp; reading fails exactly when not even the fallback gives an expiry |
| ClaimComments.CommentsDecide | scripts/check-claim-generation.py:733-819 | of the comments alone: held by the lowest id among the markers whose time since their update does not exceed their lease; expired, naming the marker whose lease ran out last, when every marker's has; released when there is none |
| ClaimGeneration.LeaseAndExpiry | scripts/check-claim-generation.py:432-496 | a claim runs under the operator's lease if given, else the marker's own when positive and representable, else the fallback; the expiry published is that of the lease reported |
| ClaimGeneration.LowestIsFirst | scripts/check-claim-generation.py:802-803 | of several claims with the lowest id, the first holds |
| ClaimGeneration.LapsesAfterExpiry | scripts/check-claim-generation.py:773-801 | under a lease of zero or more a claim lapses exactly one second after the expiry it publishes, its age being cut to whole seconds; no claim lapses sooner, and one without a readable timestamp never does |
| ClaimGeneration.LapsesExactly | scripts/check-claim-generation.py:773-801 | a claim has lapsed exactly from one instant on: a second after its expiry, or, under an operator's negative lease, as soon as its age is not negative and exceeds the lease |
| ClaimGeneration.GenerationStands | scripts/check-claim-generation.py:733-819 | from a held state, after any sequence of waiting short of the winner's lapse, new claims with larger ids, edits and removals of other markers that make no claim with a lower id live, and renewals of the winner, the same generation is held; under every lease, and with or without a readable timestamp |
| ClaimGeneration.FairIsExact | scripts/check-claim-generation.py:733-819 | exact condition: a comment posted, edited or removed leaves the item held under the generation up to the winner's lapse if and only if it makes no claim with a lower id live and neither removes nor cuts short the winner |
| ClaimGeneration.RenewalDisplaces | scripts/check-claim-generation.py:523-550 | a concrete input: renewing a lapsed marker with a lower id moves the generation while the winner's lease still runs |
| ClaimGeneration.DeadlineIsTight | scripts/check-claim-generation.py:796-803 | if only time passes, the generation is held if and only if the winner has not lapsed: under a lease of zero or more, if and only if less than a second has passed since the deadline |
| ClaimGeneration.PassMeans | scripts/check-claim-generation.py:835-928 | a verdict passes if and only if the body has exactly one authorization, complete, of version 1, naming this head and this item, and its generation is the id of the live claim with the lowest id; no two states with different holders pass the same body |
| ClaimGeneration.PassStands | scripts/check-claim-generation.py:822-928 | a verdict that passes goes on passing until the winner lapses, so at least up to its published deadline, through every change that `FairIsExact` allows |
| ClaimComments.VerdictsExactly | scripts/check-claim-generation.py:822-928 | each of the six verdicts, and exactly when it is given |
| ClaimGeneration.SweepAll | scripts/check-claim-generation.py:1103-1221 | the sweep's loop revokes the specified checks and reports the specified tally, or none when an exception ends it: one that is not caught, of publishing, such as its taking too long, or of reading the standing check |
| ClaimGeneration.RevokesOnly | scripts/check-claim-generation.py:1142-1210 | a check is revoked if and only if it stood at success, its own pull request was judged not to pass, it is no dry run, its publishing succeeds, and no earlier pull request ended the sweep with an uncaught exception |
| ClaimGeneration.FailuresAreIsolated | scripts/check-claim-generation.py:1120-1160 | a pull request whose judging crashes or fails to read, or whose standing check cannot be read, changes no other's revocation |
| ClaimGeneration.SlowPublicationEndsTheSweep | scripts/check-claim-generation.py:381-401 | a concrete input: two revocations due and the first too slow to publish; the second check stays at success and there is no tally, though it would have been revoked had the first been done or refused |
| ClaimGeneration.TallyAddsUp | scripts/check-claim-generation.py:1104-1214 | a tally is reported if and only if no pull request ends the sweep; then what is changed or skipped was looked at, crashes are among the skipped, and outside a dry run the changes are the revocations |
| ClaimGeneration.TallyCounts | scripts/check-claim-generation.py:1104-1214 | what each number of the tally counts |

## Left out

- Null strings: .NET strings and lists are never null in the model, so the diagnostics for null are not there.
- Diagnostics are sets of codes, or just a refusal; their paths, messages and order are not modelled.
- BigInteger parsing: that .NET's `TryParse` tolerates trailing NUL characters is not modelled.
- UTF-8 decoding, the nesting and byte limits of `Itf.read`, and JSON lexing are library code; `JsonSerializer` quoting is
  any function that a JSON string parser undoes.
- SHA-256: only that it is a function into lowercase hexadecimal digits; two texts with one digest are not excluded, so
  identities determine texts only up to collisions.
- Canonical.EncodeIsPrint: a record's fields are encoded and then sorted, where the source sorts and then encodes; the
  text and the refusals are the same.
- Replay.Engine.RunTrace: the check of the timeout argument, the runtime value and the tokens themselves are not modelled;
  that a token once cancelled stays cancelled is not assumed.
- PureReplay.RunPure: the five-second deadline is any cancellation behaviour of the deadline token.
- StoreSafety.ExactlyOnce: lease tokens, ids, sequences and epochs are unbounded integers; the wrap-around of `int64` and
  `uint64` counters after 2^63 steps is not modelled. The state's 32-bit wrap-around is.
- ProtocolStore.TestStore.Commit: a row's chart version, kind, visibility, times and audit, and the instance status, are
  carried along unread by the source and are not modelled; nor are the two mutation flags, both taken as false.
- ProtocolStore.TestStore.Claim: the lease duration and the expiry time handed out are not modelled; expiry is the
  explicit `Expire`.
- StoreSafety.LeaseSerialises: a worker's draft is built by the chart's reducer from a snapshot read after its claim, for its own
  row's entity; the Automata processor that does so is not part of this model, nor are `ExtendLease`, `TryGet`, `TryFind`
  and `TryGetResult`, which change nothing.
- Refinement.StepRefines: does not cover an Abandon of an action still pending, which `Refinement.AbandonMatchedExactly`
  shows no operation of the protocol matches, nor actions beyond the first of a command, which the reducer never makes.
- Refinement.StoreRefinesProtocol: the metrics' conversion of tokens and epochs to 32-bit integers is not modelled.
- Custody.ExactCustody: that a session which has accepted release accepts it again is assumed of the sessions; process
  execution, observation, budgets, clocks and text capture are not modelled, only when they end.
- Correction.PlannedMeans: the planner of the Automata library is not part of this model; under the truncating policy epochs
  are assumed not to be zero, as `Correction.TruncationNeedsEpoch` shows they must be.
- Resolver.TransitionDefined: without a path for a state the original has no value; the model's result is then empty.
- ClaimGeneration.ReadClaimState: fetching, paging and matching comments against the marker's pattern are inputs; instants
  are exact microseconds, where the source's ages pass through floating point.
- ClaimGeneration.GenerationStands: that comment ids are never repeated is assumed of GitHub; that they only grow is not,
  since a new claim with a lower id is among the changes `ClaimGeneration.FairIsExact` excludes.
- ClaimGeneration.SweepAll: whether publishing that raised an exception, such as taking too long, reached the server all the
  same is not modelled; the check is then counted as not revoked.
- ClaimGeneration.PassMeans: the patterns of the generation and item fields are inputs or digit checks; letter case of the
  head is settled before.
- Approval, turnstile, bounded queue and pipeline models: finite or small, settled by case analysis.
- GitHub and git calls, retries, argument parsing, printed diagnostics, archive checks, fixtures and shell scripts.
