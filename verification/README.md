# Verified model of microagent's state machines

microagent gives AI agents workspaces in micro virtual machines. This project models, in
Dafny, the parts of it whose correctness ranges over all interleavings, all chunkings and
all byte strings, and proves what those parts promise. `dafny verify dfyconfig.toml` checks
everything.

- **Idempotency store of the MCP server** (`IdempotencySpec`, `IdempotencyRuns`,
  `IdempotencyLifetime`, `IdempotencyStore`, `IdempotencyService`, `IdempotencyKeys`,
  `McpEnvelope`). `Do` is a step system: its two lock regions are atomic steps, callers
  interleave arbitrarily, and the clock never goes back. `IdempotencyLifetime` says what that
  means in completion times: when a retry joins and when it starts anew. The store itself is a
  class on the heap, and `IdempotencyService` shows that its methods carry out those steps. The
  envelope module is about aliasing: which maps a stamped response shares with the cached one.
- **Console input filter** (`ConsoleTokens`, `ConsoleKeys`, `ConsoleInput`, `ConsoleDetach`,
  `ConsolePaste`). The tokenizer for legacy control bytes and CSI-u key events, the detach
  automaton, the loop of reads and timer flushes, and the paste markers that the console
  channel takes out. The automaton is proved for every lexer that is lawful and never revises a
  decision; the program's lexer is shown to be one, and to read exactly the key events that
  `ConsoleKeys` describes.
- **Command suggestion** (`EditDistance`, `SuggestionRule`). The two-row loop against explicit
  edit scripts, and the suggestion against its documented rule.
- **Console control protocol** (`ConsoleProtocol`). Resize frames inside a byte stream.
- **Rotating audit log** (`AuditLog`). Rotation over a directory of record sequences.
- **Process 1 in the guest** (`Reaper`, `ReaperObject`, `Shutdown`). Two interleaving protocols,
  as step systems, with the classes that carry their state.
- **Bounded output** (`OutputCapture`), **DNS record stripping** (`DnsStrip`), **argument
  reordering** and what a FlagSet makes of it (`ArgReorder`, `FlagReading`, `GuestCommand`,
  `GuestReading`), and **MCP header framing** (`McpFraming`, `McpHeaders`, `McpServer`).

`Basics` and `ByteStrings` hold what several of them use.

## Where the code and its comments part

The model follows the code.

- A suggestion by prefix is documented as needing a unique prefix; the code takes the first
  command the input starts. `SuggestionRule.OutsideRuleIff` and
  `SuggestionRule.AnswersUnqualifiedIff` say exactly when that breaks the rule.
- The guest command is documented as the first positional when `--image` is present. When
  the flag comes after the first positional and before the second, the code finds no guest
  command and reorders the whole line (`GuestCommand.ScanFindsDocumented`).
- A value flag typed last without its value takes the first positional once it is hoisted
  (`ArgReorder.ItemsKeptIff`).
- Reordering is there so that a FlagSet reads flags typed after positionals. A recognised
  `-name=value` is left where it stands, so after the image it is not read and reaches the
  guest (`GuestReading.AttachedAfterImage`), and before the same flag typed apart it wins
  although it was typed first (`FlagReading.EarlierValueWins`). Flags typed after a `--` are
  hoisted. `FlagReading.AllFlagsReadIff` and `FlagReading.FinalValueKeptIff` are the exact
  conditions.
- The reaper is documented as never taking a status that other code waits for. Init starts
  two children that it waits for without recording them, `udhcpc`
  (`cmd/microagent-guestinit/main.go:914`) and `update-ca-certificates`
  (`cmd/microagent-guestinit/cacert.go:108`), after the reaper has been started, and the
  reaper may take either (`Reaper.PlainChildIsStolen`). With every awaited child tracked and
  fresh process ids it is safe. With reuse it is unsafe in two windows, between `isTracked`
  and `Wait4` and between a child's collection and its `untrack`. `Reaper.RunTheftIff` is the
  exact condition.
- The buffered and the streamed writer agree only because the limit is made positive
  (`OutputCapture.AgreeIffPositive`).
- A joiner is documented to get the cached envelope of the execution. When the execution
  returned none, as `workspace.exec` does for missing arguments
  (`cmd/microagent/mcp.go:632-638`), the executing caller is given an error envelope and the
  joiner an empty one (`McpEnvelope.ResponsesAgreeIff`).
- Paste markers are taken out write by write, so one that a write boundary cuts in two stays
  (`ConsolePaste.ConsoleChannelIff`).
- An empty message can be written but not read in header framing
  (`McpFraming.FrameReadsBack`).

## Model

| member | source | states |
|---|---|---|
| `IdempotencyRuns.AtMostOnce` | cmd/microagent/mcp_idempotency.go:66-125 | over every interleaving, a second execution for one cache key starts only after the first one completed and its entry was then removed from the table, expired or as the oldest completed entry of a full table |
| `IdempotencyRuns.JoinerGetsTheReply` | cmd/microagent/mcp_idempotency.go:83-123 | every joiner gets the reply of the execution that created its entry, with the same error and the same envelope, an empty one for nil; that execution had the same key and digest and completed before the join, and the two replies are equal exactly when the envelope was not nil |
| `IdempotencyRuns.RunInv` | cmd/microagent/mcp_idempotency.go:83-157 | in every state of every run the table is within its limit, every running entry is still in it, and callers and entries agree on what is running |
| `IdempotencyRuns.CapacityErrorIff` | cmd/microagent/mcp_idempotency.go:85-102 | over every run a call is refused exactly when, expired entries aside, its key has no entry and the limit is not positive or the table is full of running entries |
| `IdempotencyRuns.NextPreserves` | cmd/microagent/mcp_idempotency.go:66-125 | each step of `Do` keeps that invariant |
| `IdempotencyRuns.StaysOrDropped` | cmd/microagent/mcp_idempotency.go:127-157 | a key keeps its entry across a step unless that entry is completed and either expired or the oldest of a full table |
| `IdempotencyRuns.EvictedIsOldest` | cmd/microagent/mcp_idempotency.go:135-157 | from a table within its limit an eviction removes one entry only, from a full table, completed and with the least completion time |
| `IdempotencyRuns.OriginOf` | cmd/microagent/mcp_idempotency.go:102-110 | every entry of every reachable state stems from a start step that fixed its key and digest, and is completed only by that step's caller |
| `IdempotencyLifetime.SecondStart` | cmd/microagent/mcp_idempotency.go:66-157 | over every interleaving, a second execution for one cache key starts only when the first completed at least the lifetime earlier, or after its entry was evicted from a full table as one that completed no later than any other |
| `IdempotencyLifetime.LeavesOnlyWhen` | cmd/microagent/mcp_idempotency.go:127-157 | an entry leaves the table for no other reason than those two |
| `IdempotencyLifetime.RetryJoins` | cmd/microagent/mcp_idempotency.go:83-98 | a retry within the lifetime of an entry that has not been evicted waits on the first execution's entry when its digest is the same and conflicts when not |
| `IdempotencyLifetime.LateRetryStartsAnew` | cmd/microagent/mcp_idempotency.go:83-133 | a retry at or after the end of the lifetime never waits on that entry, which is gone after it; with the entry still held it starts an execution or is refused for want of room |
| `IdempotencyLifetime.RefusedIff` | cmd/microagent/mcp_idempotency.go:85-102 | the capacity error in completion times: no entry for the key within its lifetime, and no positive limit or as many running entries as the limit |
| `IdempotencyLifetime.CompletionTime` | cmd/microagent/mcp_idempotency.go:115-123 | the entry of an execution that completed stays completed, at the time of that step |
| `IdempotencySpec.MakesRoomEffect` | cmd/microagent/mcp_idempotency.go:135-157 | making room removes only completed entries and changes no other |
| `IdempotencySpec.RoomIff` | cmd/microagent/mcp_idempotency.go:135-157 | room is there after success, refusal means no positive limit or a table full of running entries, and a table below its limit is left alone |
| `IdempotencySpec.CapacityIff` | cmd/microagent/mcp_idempotency.go:99-102 | within its limit, the capacity error arises exactly when the limit is not positive or all of the full table is running; at most one entry is evicted |
| `IdempotencyStore.Store.constructor` | cmd/microagent/mcp_idempotency.go:57-64 | a new store is empty |
| `IdempotencyStore.Store.PruneExpired` | cmd/microagent/mcp_idempotency.go:127-133 | the loop leaves exactly the entries that are running or whose expiry is later than now |
| `IdempotencyStore.Store.FindOldest` | cmd/microagent/mcp_idempotency.go:137-150 | the inner loop finds a completed entry with the least completion time, or none when all are running |
| `IdempotencyStore.Store.MakeRoom` | cmd/microagent/mcp_idempotency.go:135-157 | the eviction loop ends and does what the specification relation MakesRoom allows; every key that stays keeps its own entry object |
| `IdempotencyStore.Store.Begin` | cmd/microagent/mcp_idempotency.go:83-111 | the first lock region on the heap: conflict, wait on the entry, refuse or start, with the new table; it starts or refuses exactly when the key has no entry that is running or expires later than now; every key that stays keeps its own entry object |
| `IdempotencyStore.Store.Complete` | cmd/microagent/mcp_idempotency.go:115-123 | the second lock region puts a clone of the reply into the caller's own entry, whether or not the table still holds it, closes `ready`, and leaves the others alone |
| `IdempotencyService.SharedStore.Begin` | cmd/microagent/mcp_idempotency.go:83-111 | run on the heap by any caller, the first lock region is a Begin step of the step system under the numbering of entry objects, the caller is told what that step says, and the store's history grows by it |
| `IdempotencyService.SharedStore.Complete` | cmd/microagent/mcp_idempotency.go:115-124 | the second lock region of a caller that executes is its Complete step |
| `IdempotencyService.SharedStore.Join` | cmd/microagent/mcp_idempotency.go:91-95 | a waiting caller whose entry is ready takes the Join step and gets a clone of that entry's reply |
| `IdempotencyService.SharedStore.AtMostOnce` | cmd/microagent/mcp_idempotency.go:66-125 | at-most-once of the store in memory, over the history of all calls made on it |
| `IdempotencyService.SharedStore.SecondStart` | cmd/microagent/mcp_idempotency.go:66-157 | the same with its lifetime: a second start is at least the lifetime after the first completed, or follows its eviction from a full table |
| `IdempotencyService.SharedStore.Bounded` | cmd/microagent/mcp_idempotency.go:99-111 | after any calls the map in memory is within its limit and holds every entry object that is running |
| `IdempotencyKeys.MeetIff` | cmd/microagent/mcp_idempotency.go:72-81 | two calls share an entry exactly when they name one mutating tool and agree on a non-empty `idempotency_key` and on the trimmed claims `workload_identity`, `delegated_authority` and `purpose` of their principal |
| `IdempotencyKeys.ConflictIff` | cmd/microagent/mcp_idempotency.go:159-185 | the argument digests differ exactly when some argument other than the key and the principal differs |
| `IdempotencyKeys.ScopeIff` | cmd/microagent/mcp_idempotency.go:159-178 | the scopes agree exactly when the tool and those three claims do |
| `IdempotencyKeys.Identity` | cmd/microagent/mcp_idempotency.go:159-185 | the digested scope and arguments |
| `IdempotencyKeys.CopyArguments` | cmd/microagent/mcp_idempotency.go:163-171 | the copying loop drops exactly the key and the principal |
| `IdempotencyKeys.PrincipalContextArg` | cmd/microagent/mcp_idempotency.go:204-219 | the loop keeps exactly the claims among `workload_identity`, `delegated_authority`, `purpose` and `correlation_id` that have text, trimmed |
| `McpEnvelope.CloneMcpMap` | cmd/microagent/mcp_response.go:148-154 | a new map with the same items, sharing nested maps; empty for nil |
| `McpEnvelope.MarkReplay` | cmd/microagent/mcp_response.go:108-117 | a new envelope with a new metadata map that carries the flag; nothing that existed is written |
| `McpEnvelope.MarkReplayForArgs` | cmd/microagent/mcp_response.go:119-125 | the same with the caller's principal |
| `McpEnvelope.StampShows` | cmd/microagent/mcp_response.go:108-125 | a stamped response shows the flag as `true` or `false` and the principal in its metadata, and every other metadata entry and every other field as it was |
| `McpEnvelope.Replayed` | cmd/microagent/mcp_idempotency.go:91-95 | a joiner's stamped clone shows the cached contents and leaves the cached envelope as it was |
| `McpEnvelope.RespondAll` | cmd/microagent/mcp_invoke.go:19-25 | the response to the execution shows what was executed, or the error envelope in place of a nil one, and those to any number of joiners what was cached, each with its own stamp, and none is changed by a later one |
| `McpEnvelope.CacheAndReplay` | cmd/microagent/mcp_invoke.go:19-25 | through the execution's response and all replays the cached envelope shows what was executed, nothing for a nil envelope: no stamp reaches it through shared maps |
| `McpEnvelope.Respond` | cmd/microagent/mcp_invoke.go:19-25 | one caller's response, with the error envelope in place of a nil map |
| `McpEnvelope.ResponsesAgreeIff` | cmd/microagent/mcp_invoke.go:19-25 | the responses of the executing caller and of a joiner agree up to their stamps exactly when the execution returned an envelope; with a nil one, as `cmd/microagent/mcp.go:632-638` returns, only the first shows the error |
| `ConsoleInput.ChunkIndependence` | cmd/microagent/console.go:136-177 | for every cutting of the bytes into chunks, total output, detach verdict and final state are those of one call on the whole |
| `ConsoleInput.DetachLanguage` | cmd/microagent/console.go:155-173 | the automaton detaches exactly when the tokens contain Ctrl-], or a Ctrl-P press followed only by P releases and then Ctrl-Q; otherwise it holds back exactly an open Ctrl-P run |
| `ConsoleInput.FilterDetachLanguage` | cmd/microagent/console.go:136-177 | the same for the bytes under any chunking |
| `ConsoleInput.OutputAtDetach` | cmd/microagent/console.go:155-173 | what has been passed on at detach: everything before the Ctrl-], or before the Ctrl-P that the Ctrl-Q completes |
| `ConsoleInput.ByteConservation` | cmd/microagent/console.go:98-127 | over every run of reads and timer flushes, bytes written, then the detach prefix, then the undecided bytes are the bytes read, fewer than 64 undecided; at detach a prefix has been written |
| `ConsoleInput.FilterAccounts` | cmd/microagent/console.go:136-177 | the same for one chunk |
| `ConsoleInput.FilterAppend` | cmd/microagent/console.go:136-177 | filtering two chunks in turn is filtering their concatenation |
| `ConsoleInput.ConsoleFilter` | cmd/microagent/console.go:136-211 | chunk independence and the detach language for the program's own lexer |
| `ConsoleDetach.CopyDetachLanguage` | cmd/microagent/console.go:98-177 | over every run of reads and timer flushes the copy detaches exactly when some stretch of bytes between two flushes contains a shortcut |
| `ConsoleDetach.ConsoleDetaches` | cmd/microagent/console.go:98-211 | the same for the program's own lexer |
| `ConsolePaste.ConsoleChannelIff` | cmd/microagent/console.go:98-127 | over every run of reads and flushes the console channel gets all bytes with paste markers out and line feeds turned exactly when every write boundary is clear |
| `ConsolePaste.ConsoleOutputIff` | cmd/microagent/console.go:290-310 | the same for any list of writes |
| `ConsolePaste.StripApartIff` | cmd/microagent/console.go:306-310 | two writes stripped apart leave no less than stripped together, and the same exactly when no start marker straddles the boundary and no end marker does once the start markers are out |
| `ConsolePaste.CutMarkerSurvives` | cmd/microagent/console.go:306-310 | two writes that leave an end marker behind, and nothing when written as one |
| `ConsolePaste.PasteWrittenOut` | cmd/microagent/console.go:306-310 | a paste between the bytes of ESC[200~ and ESC[201~ loses those and nothing else |
| `ConsoleInput.ConsoleInputState.TakeToken` | cmd/microagent/console.go:155-173 | one token's effect on the held prefix |
| `ConsoleInput.ConsoleInputState.FilterConsoleInput` | cmd/microagent/console.go:136-177 | the loop computes the specified output, verdict and state |
| `ConsoleInput.ConsoleInputState.Flush` | cmd/microagent/console.go:179-186 | all held bytes come out in order and the state is reset |
| `ConsoleInput.CopyShellInput` | cmd/microagent/console.go:43-127 | the copy loop writes every byte read unless the user detached, and then a prefix |
| `ConsoleTokens.DecidedStable` | cmd/microagent/console.go:195-211 | a decided token stays decided and the same under any extension of the input |
| `ConsoleTokens.RejectionStable` | cmd/microagent/console.go:213-288 | bytes that are no key event, complete or incomplete, stay so under any extension |
| `ConsoleTokens.KittyStable` | cmd/microagent/console.go:245-288 | a recognised key event is recognised alike whatever follows |
| `ConsoleTokens.NextTokenLawful` | cmd/microagent/console.go:195-239 | tokens are non-empty prefixes, undecided input is shorter than 64 bytes, and decisions are final |
| `ConsoleTokens.KeyEventRecognised` | cmd/microagent/console.go:240-288 | every printed CSI-u key event of at most 64 bytes is read back as one token with its key, Ctrl bit and release flag |
| `ConsoleKeys.EventRecognised` | cmd/microagent/console.go:241-288 | every spelling of a key event of at most 64 bytes, with further parts and fields, is one token with its key, Ctrl exactly when the modifiers less one have a four in them and it is no release, whatever follows |
| `ConsoleKeys.LongTokenIsEvent` | cmd/microagent/console.go:195-211 | conversely, every token of more than one byte is such a spelling |
| `ConsoleKeys.UndecidedIff` | cmd/microagent/console.go:213-239 | input is undecided exactly when it is empty or shorter than 64 bytes and an escape, then `[`, then digits, colons and semicolons |
| `ConsoleKeys.LegacyBytes` | cmd/microagent/console.go:195-203 | the bytes 0x1d, 0x10 and 0x11 are Ctrl presses of `]`, `p` and `q`, and every other byte but an escape is a token of its own with no key, whatever follows |
| `ConsoleKeys.ControlBitIff` | cmd/microagent/console.go:287 | the Ctrl bit is set exactly when the modifiers are one more than eights, a four and less than four |
| `ConsoleKeys.BracketDetaches` | cmd/microagent/console.go:136-211 | Ctrl-] detaches with nothing passed on, as its legacy byte or as any key event for it, whatever follows |
| `ConsoleKeys.PrefixSuffixDetaches` | cmd/microagent/console.go:136-211 | so do Ctrl-P and then Ctrl-Q, each in either form |
| `ConsoleKeys.LegacyWrittenOut` | cmd/microagent/console.go:136-203 | the filter detaches on the byte 0x1d and on the bytes 0x10 0x11 |
| `ConsoleKeys.BracketWrittenOut` | cmd/microagent/console.go:241-288 | and on the bytes of ESC[93;5u |
| `ConsoleKeys.PrefixSuffixWrittenOut` | cmd/microagent/console.go:241-288 | and on those of ESC[112;5u ESC[113;5u |
| `EditDistance.LevIsLeastEdits` | cmd/microagent/command_registry.go:279-297 | the recursion is the least length of any script of single-byte insertions, deletions and substitutions |
| `EditDistance.LevLowerBound` | cmd/microagent/command_registry.go:279-297 | no script of any order is shorter |
| `EditDistance.LevAchieved` | cmd/microagent/command_registry.go:279-297 | a script of that length exists |
| `EditDistance.LevOneEdit` | cmd/microagent/command_registry.go:279-297 | one edit anywhere lowers the distance by at most one |
| `EditDistance.LevSymmetric` | cmd/microagent/command_registry.go:279-297 | the distance is symmetric |
| `EditDistance.LevZeroIffEqual` | cmd/microagent/command_registry.go:279-297 | it is zero exactly on equal texts |
| `EditDistance.LevTriangle` | cmd/microagent/command_registry.go:279-297 | it obeys the triangle inequality |
| `EditDistance.NextRow` | cmd/microagent/command_registry.go:284-295 | one pass fills the next row of the table of prefix distances |
| `EditDistance.CommandEditDistance` | cmd/microagent/command_registry.go:279-297 | the two-row loop returns the least number of edits |
| `EditDistance.NearestCommandName` | cmd/microagent/command_registry.go:260-277 | the loops return the first candidate of least score, or the empty text when every score is at least 3 |
| `EditDistance.CandidatesAppend` | cmd/microagent/command_registry.go:270-275 | the candidates are each command's name followed by its aliases, in registry order |
| `EditDistance.SuggestionExtends` | cmd/microagent/command_registry.go:262-269 | one more candidate replaces the suggestion exactly when it scores strictly less |
| `EditDistance.SuggestionUnique` | cmd/microagent/command_registry.go:260-277 | the suggestion is determined by its definition |
| `EditDistance.EmptySuggestionIff` | cmd/microagent/command_registry.go:260-277 | for non-empty names the answer is empty exactly when every score is at least 3 |
| `SuggestionRule.OutsideRuleIff` | cmd/microagent/command_registry.go:255-277 | for every registry the answer breaks the documented rule exactly when the first candidate that the input starts is three or more bytes longer, some other candidate is started too, nothing before it is within one edit, and the input is no candidate |
| `SuggestionRule.AnswersUnqualifiedIff` | cmd/microagent/command_registry.go:255-277 | the code answers though no candidate qualifies exactly when none is within two edits and two different ones are started by the input |
| `SuggestionRule.AnswersIff` | cmd/microagent/command_registry.go:260-277 | the code answers exactly when some candidate is within two edits or is started by the input, so whenever one qualifies |
| `SuggestionRule.LevExtension` | cmd/microagent/command_registry.go:279-297 | a text is as far from one that it starts as that one is longer |
| `SuggestionRule.AmbiguousPrefixTakesFirst` | cmd/microagent/command_registry.go:265-269 | the two-command family: the first is the answer and neither qualifies |
| `ConsoleProtocol.RoundTrip` | internal/consoleproto/protocol.go:31-105 | for every interleaving of encoded sizes with user bytes that hold no unfinished and no valid frame, as all bytes without a marker do, the copier writes exactly the user's bytes and reports exactly the sizes, in order |
| `ConsoleProtocol.CopyRemovesOnlyValidFrames` | internal/consoleproto/protocol.go:44-105 | for arbitrary input the output is the input with only disjoint valid frames taken out, and the sizes reported are theirs |
| `ConsoleProtocol.SingleByteCorruptionDetected` | internal/consoleproto/protocol.go:107-123 | changing any one byte of a valid frame makes it invalid |
| `ConsoleProtocol.ChecksumUpdate` | internal/consoleproto/protocol.go:117-123 | replacing a byte moves the checksum by the exclusive-or of old and new |
| `ConsoleProtocol.FrameChecksum` | internal/consoleproto/protocol.go:117-123 | the loop computes the exclusive-or of the bytes |
| `ConsoleProtocol.FrameIsValid` | internal/consoleproto/protocol.go:31-40 | what the encoder emits validates and carries the sizes |
| `ConsoleProtocol.FrameWritten` | internal/consoleproto/protocol.go:31-40 | the frame byte by byte: eleven bytes, 0xff M A C 1 1, rows and columns with the high byte first, and a last byte that is the exclusive-or of the ten before it |
| `ConsoleProtocol.ValidIffEncoded` | internal/consoleproto/protocol.go:107-115 | a frame is valid exactly when the encoder emits it for some sizes from 1 to 65535 |
| `ConsoleProtocol.EncodeResize` | internal/consoleproto/protocol.go:31-40 | it succeeds exactly for sizes from 1 to 65535, with a valid frame that carries them |
| `ConsoleProtocol.CopyInput` | internal/consoleproto/protocol.go:44-105 | the read loop's output, sizes and count, stopping at a refused size |
| `ConsoleProtocol.CopyPassesClean` | internal/consoleproto/protocol.go:44-105 | such bytes pass through unchanged, whatever follows |
| `ConsoleProtocol.MarkerFreeIsClean` | internal/consoleproto/protocol.go:57-64 | bytes without a marker are such bytes |
| `ConsoleProtocol.FrameRecognisedIff` | internal/consoleproto/protocol.go:44-105 | a frame sent after any bytes is taken out and reported, and the bytes are treated as on their own, exactly when every marker among them that the copier meets has ten more of them after it |
| `ConsoleProtocol.CopyAligned` | internal/consoleproto/protocol.go:44-105 | bytes of that kind are copied on their own, whatever follows |
| `ConsoleProtocol.MarkerByteSwallowsFrame` | internal/consoleproto/protocol.go:52-99 | a marker typed just before a frame makes the frame pass as user bytes |
| `AuditLog.RotationKeepsSuffix` | internal/egress/audit.go:147-201 | after any calls, oldest backup to active file reads as an unbroken suffix of all accepted records, whole and in order |
| `AuditLog.LogChain` | internal/egress/audit.go:147-172 | one call appends its record and drops, exactly when it rotates, the oldest file as a whole |
| `AuditLog.LosesOnlyWhenFull` | internal/egress/audit.go:147-172 | a call loses exactly the oldest file when there is a positive cap, the active file is not empty and its bytes with the new record exceed the cap, and otherwise nothing |
| `AuditLog.LogFits` | internal/egress/audit.go:147-172 | when the record fits or there is no cap, the active file grows by it and every other file stays |
| `AuditLog.LogRotates` | internal/egress/audit.go:147-201 | when it does not, every file moves up by one and the new active file, if it can be opened, holds the record alone |
| `AuditLog.FittingRunKeepsAll` | internal/egress/audit.go:147-172 | a run whose records fit under the cap together with the starting active file leaves them all at its end, in order, and changes no backup |
| `AuditLog.RotationDropsOldest` | internal/egress/audit.go:178-201 | a rotation loses exactly the oldest file |
| `AuditLog.AllAccepted` | internal/egress/audit.go:147-172 | while reopening succeeds every record is accepted |
| `AuditLog.UnboundedKeepsAll` | internal/egress/audit.go:147-172 | without a positive cap nothing is ever dropped |
| `AuditLog.FootprintStaysBounded` | internal/egress/audit.go:147-201 | with records and starting files within the cap, total size stays at most the cap times backups plus one; larger records bound it by their own size |
| `AuditLog.LogBounded` | internal/egress/audit.go:147-172 | one call keeps every file within the bound |
| `AuditLog.RotatingFileLogger.constructor` | internal/egress/audit.go:128-145 | opening seeds the size from the existing active file |
| `AuditLog.RotatingFileLogger.Log` | internal/egress/audit.go:147-172 | the new directory, size and open flag, as the members about one call describe them |
| `AuditLog.RotatingFileLogger.ShiftBackups` | internal/egress/audit.go:186-190 | the descending loop moves every backup up by one, losing none |
| `AuditLog.RotatingFileLogger.Rotate` | internal/egress/audit.go:178-201 | the rotated directory |
| `Reaper.RunTheftIff` | cmd/microagent-guestinit/reaper.go:42-92 | after any run of init whose starts were safe, nothing has been stolen, and the next step opens the way to a theft by safe steps alone exactly when it starts an awaited child untracked, or tracked with an id still recorded or already chosen |
| `Reaper.TheftIff` | cmd/microagent-guestinit/reaper.go:42-92 | the same from any state that satisfies the invariant |
| `Reaper.FreshPidsNeverSteal` | cmd/microagent-guestinit/reaper.go:42-92 | in every interleaving with fresh process ids in which every awaited child is started tracked, no exit status that some code waits for is taken |
| `Reaper.NeverSteals` | cmd/microagent-guestinit/reaper.go:42-92 | the same whenever every awaited child is started tracked with an id that is neither recorded nor chosen |
| `Reaper.ReuseOfChosenSteals` | cmd/microagent-guestinit/reaper.go:82-92 | a tracked start with the chosen id opens the way to a theft by safe steps alone |
| `Reaper.ReuseOfPendingSteals` | cmd/microagent-guestinit/reaper.go:72-92 | so does one with an id that its former owner has yet to untrack, wherever the reaper is in its pass |
| `Reaper.PlainChildIsStolen` | cmd/microagent-guestinit/cacert.go:108 | so does starting a child that is waited for but never recorded, wherever the reaper is |
| `Reaper.FreshPlainChildIsStolen` | cmd/microagent-guestinit/main.go:914 | one such child with a fresh id, at the start of init, is enough |
| `Reaper.ReusedPidIsStolen` | cmd/microagent-guestinit/reaper.go:42-92 | with every child tracked, reuse of an id just untracked is enough |
| `Reaper.OwnerFindsChild` | cmd/microagent-guestinit/reaper.go:70-78 | on every safe run an awaited child keeps its place in the kernel's table until its own owner's wait collects it |
| `ReaperObject.RoundIsRun` | cmd/microagent-guestinit/reaper.go:82-92 | one call of reapOrphans, with any steps of others between any two of its own, is a run of the protocol, and steals nothing when its starts are safe |
| `ReaperObject.QuietRound` | cmd/microagent-guestinit/reaper.go:82-92 | left to itself it collects exactly the unrecorded zombies among the entries of /proc and changes nothing else |
| `ReaperObject.ChildReaper.StartTracked` | cmd/microagent-guestinit/reaper.go:47-55 | a failed start records nothing; a started child can be taken by the reaper exactly when its id was still recorded or already chosen |
| `ReaperObject.ChildReaper.ReapOrphans` | cmd/microagent-guestinit/reaper.go:82-92 | the loop, with others' steps before each check and each wait, computes the specified round |
| `ReaperObject.ChildReaper.ZombieChildren` | cmd/microagent-guestinit/reaper.go:107-125 | the scan loop, with others' steps before each read |
| `Shutdown.EveryRun` | cmd/microagent-guestinit/main.go:110-141 | in every interleaving a power-off result is the last message the host gets, and no message stems from an exit that followed the stop signal |
| `Shutdown.PowerOffWins` | cmd/microagent-guestinit/main.go:110-141 | the invariant behind it holds after every run |
| `Shutdown.NothingAfterPowerOff` | cmd/microagent-guestinit/main.go:132-141 | once the power-off emission is over the host gets nothing more |
| `Shutdown.PowerOffIsLast` | cmd/microagent-guestinit/main.go:164-174 | sent on a real port it is the last message; on port zero none is sent |
| `Shutdown.PowerOffDeliveredIff` | cmd/microagent-guestinit/main.go:110-174 | in every run the host's last message is the power-off result exactly when its send was delivered and the port last stored before the power signal is not zero |
| `Shutdown.CommandResultIff` | cmd/microagent-guestinit/main.go:117-125 | in every run a command result is sent exactly when its sender looked at the flag, under the lock, before the power handler set it, and suppressed exactly when it looked after |
| `Shutdown.ShutdownCoordinator.EmitCommandResult` | cmd/microagent-guestinit/main.go:117-125 | sent unless powering off |
| `Shutdown.ShutdownCoordinator.EmitPowerOffResult` | cmd/microagent-guestinit/main.go:132-141 | the flag is set and a marked result with an exit time is sent |
| `Shutdown.ActiveWorkload.Track` | cmd/microagent-guestinit/workload_signal.go:25-31 | the workload becomes the active one with a new handle |
| `Shutdown.ActiveWorkload.Untrack` | cmd/microagent-guestinit/workload_signal.go:31-40 | only the handle that is still current clears the workload |
| `OutputCapture.StreamRefinesBuffer` | cmd/microagent-guestinit/exec_service.go:367-393 | for every interleaving of writes, the chunks of each kind assemble to what the buffer holds, and both report truncation alike |
| `OutputCapture.AgreeIffPositive` | cmd/microagent-guestinit/exec_service.go:367-411 | they agree on every run exactly when the limit is positive |
| `OutputCapture.BufferedIsPrefix` | cmd/microagent-guestinit/exec_service.go:548-567 | the buffer holds everything written while that is within the limit, else its first bytes up to the limit, and is truncated exactly when more came |
| `OutputCapture.StreamedIsPrefix` | cmd/microagent-guestinit/exec_service.go:367-393 | so do the chunks sent |
| `OutputCapture.OutputLimit` | cmd/microagent-guestinit/exec_service.go:406-411 | the limit used is the requested one when that is positive, and 10485760 bytes otherwise |
| `OutputCapture.BoundedExecBuffer.Write` | cmd/microagent-guestinit/exec_service.go:548-567 | one write's effect; it always reports all bytes as written |
| `OutputCapture.ExecStreamWriter.Write` | cmd/microagent-guestinit/exec_service.go:367-393 | one write's effect and the frame sent; a failed send is reported, sends nothing and counts nothing as written |
| `DnsStrip.StripEchRecords` | internal/egress/dns.go:114-160 | all or nothing: every section loses exactly its service-binding records, or the response is returned as it came, and exactly when |
| `DnsStrip.StripIdempotent` | internal/egress/dns.go:114-160 | stripping twice is stripping once |
| `DnsStrip.StripKeepsPuts` | internal/egress/dns.go:210-246 | from the stripped response the name cache gets the same puts in the same order: names, addresses and lifetimes |
| `DnsStrip.KeptHasNoBinding` | internal/egress/dns.go:174-187 | no SVCB or HTTPS record stays |
| `DnsStrip.KeptInOrder` | internal/egress/dns.go:174-187 | the records that stay are an order-preserving selection that leaves out only service bindings |
| `DnsStrip.ContainsServiceBinding` | internal/egress/dns.go:162-169 | true exactly when one is present |
| `DnsStrip.ReaddResource` | internal/egress/dns.go:193-208 | known kinds that the builder accepts are added |
| `DnsStrip.RebuildSection` | internal/egress/dns.go:174-187 | the section without service bindings, or failure exactly when some other record cannot be put back |
| `DnsStrip.CacheDnsAnswers` | internal/egress/dns.go:210-246 | the puts are an order-preserving selection of exactly the answers of types 1 and 28, each with the queried name, that answer's own address and its own lifetime |
| `ArgReorder.ItemsKeptIff` | cmd/microagent/cli_request.go:225-256 | under the reorder's own classification the reordered line has the same flags with their own values and then the same positionals, in order, exactly when the line does not end in a value flag without a value or has no positional |
| `ArgReorder.CompleteLineKeepsItems` | cmd/microagent/cli_request.go:225-256 | the good half, with the items that result |
| `ArgReorder.DanglingLineReads` | cmd/microagent/cli_request.go:249-254 | what the other lines read as: the last flag takes the first positional |
| `ArgReorder.TrailingFlagTakesPositional` | cmd/microagent/cli_request.go:249-254 | a family of such lines |
| `ArgReorder.ReorderIdempotent` | cmd/microagent/cli_request.go:225-256 | reordering a reordered line changes nothing |
| `ArgReorder.ReorderLength` | cmd/microagent/cli_request.go:225-256 | no argument is added or lost |
| `ArgReorder.ReadArg` | cmd/microagent/cli_request.go:229-248 | how one argument is classified |
| `ArgReorder.ClassifyIff` | cmd/microagent/cli_request.go:229-248 | an argument is taken as a flag exactly when it is a known name without an equals sign, with one dash or two, and takes a value exactly when that name does |
| `ArgReorder.ReorderArgs` | cmd/microagent/cli_request.go:225-256 | the loop puts all flags with their values first and the positionals after, each in order |
| `FlagReading.AllFlagsReadIff` | cmd/microagent/cli_request.go:220-256 | a FlagSet reads exactly the recognised flags of a line from the reordered one if and only if the line does not end in a value flag without a value, no flag is typed after a `--`, and every recognised `-name=value` before it comes before the first other positional, which is no flag |
| `FlagReading.FinalValueKeptIff` | cmd/microagent/cli_request.go:220-256 | when all are read, a flag that keeps its last value ends up with the meant one unless it is set last by a hoisted flag and before that by an attached value that differs |
| `FlagReading.EarlierValueWins` | cmd/microagent/cli_request.go:242-254 | the family of lines on which the earlier, attached value wins |
| `FlagReading.ParseFlags` | cmd/microagent/cli_request.go:249-256 | a FlagSet reads every hoisted flag with its own value, whatever follows |
| `FlagReading.ParseHead` | cmd/microagent/cli_request.go:249-256 | how a FlagSet reads the flag at the head of a line, with one dash or two: a value after an equals sign, a value in the next argument, or none |
| `FlagReading.ParseWords` | cmd/microagent/cli_request.go:242-245 | of the positionals it reads a first part of the flags with attached values, and all of them exactly when they come first |
| `GuestCommand.ReorderArgsStopAtGuestCommand` | cmd/microagent/cli_request.go:269-301 | the loop reorders what comes before the guest command and appends the rest |
| `GuestCommand.NamesImageIff` | cmd/microagent/cli_request.go:282-292 | the image flag is `-image` or `--image`, alone or followed by an equals sign and any value |
| `GuestCommand.TailVerbatim` | cmd/microagent/cli_request.go:269-301 | from the guest command on every argument keeps its index and text |
| `GuestCommand.GuestLineKeepsItems` | cmd/microagent/cli_request.go:258-301 | under the same classification no hoisted flag takes an argument from the guest: the line has the flags and positionals before it and then the guest's own items |
| `GuestCommand.GuestIsBoundary` | cmd/microagent/cli_request.go:272-297 | the guest command is a positional that no flag before it takes as a value |
| `GuestCommand.ScanFindsDocumented` | cmd/microagent/cli_request.go:264-297 | the scan finds the documented guest command exactly when no image flag comes first between the first and the second positional; then it finds none |
| `GuestCommand.LateImageLosesTail` | cmd/microagent/cli_request.go:264-297 | a family of lines whose guest flags are hoisted for that reason |
| `GuestReading.GuestFlagsReadIff` | cmd/microagent/cli_request.go:258-301 | the FlagSet reads exactly the recognised flags typed before the guest command if and only if none is typed after a `--` and every recognised `-name=value` comes before the image |
| `GuestReading.GuestLineIsLeft` | cmd/microagent/cli_request.go:258-301 | what the FlagSet leaves is a last part of the positionals before the guest command and then the guest's line as typed |
| `GuestReading.AttachedAfterImage` | cmd/microagent/cli_request.go:242-245 | the family of lines on which a `-name=value` typed after the image is not read and is handed to the guest |
| `McpFraming.FramesReadBack` | cmd/microagent/mcp.go:202-246 | any list of messages is read back as written, with nothing left over, exactly when each has a length from 1 to the largest 64-bit integer |
| `McpFraming.FrameReadsBack` | cmd/microagent/mcp.go:202-246 | the same for one message and any bytes after it; the empty message reads as a missing length |
| `McpFraming.DigitsAtoi` | cmd/microagent/mcp.go:231-235 | decimal printing is undone by parsing, up to the integer range |
| `McpFraming.HeaderLineReads` | cmd/microagent/mcp.go:226-236 | the length is read under any letter case of the header name and any white space around it |
| `McpHeaders.BlockReads` | cmd/microagent/mcp.go:216-237 | over any block of header lines, each with its own line ending, the last Content-Length line counts, in any letter case and with blanks around name and value, and every other line leaves the length alone |
| `McpHeaders.LengthAnywhere` | cmd/microagent/mcp.go:216-246 | with one such line anywhere among other headers, exactly that many bytes are the message and the rest is left |
| `McpHeaders.HeaderReads` | cmd/microagent/mcp.go:226-236 | one line: a length line sets the length, any other line with a colon leaves it |
| `McpHeaders.FoldIff` | cmd/microagent/mcp.go:230 | a name is taken as Content-Length exactly when it is its bytes in some letter case |
| `McpHeaders.BadLineRefused` | cmd/microagent/mcp.go:226-229 | after any good headers, a line without a colon is refused |
| `McpHeaders.NegativeRefused` | cmd/microagent/mcp.go:230-235 | and so is a negative length |
| `McpHeaders.HelloWritten` | cmd/microagent/mcp.go:259-270 | the bytes written for one message, spelled out |
| `McpFraming.FrameStable` | cmd/microagent/mcp.go:202-246 | a message that has been read stays the same however the input goes on |
| `McpServer.Exchange` | cmd/microagent/mcp.go:162-185 | requests sent as frames are answered in order, the exchange ends at the end of the input, and the replies read back exactly when all are sendable |
| `McpServer.ServedFrames` | cmd/microagent/mcp.go:162-185 | the bytes written are the frames of the replies |
| `McpServer.McpStdioServer.ReadMessage` | cmd/microagent/mcp.go:202-246 | the message or error, the framing chosen and the input left |
| `McpServer.McpStdioServer.ReadHeaderBlock` | cmd/microagent/mcp.go:216-237 | the header loop |
| `McpServer.McpStdioServer.WriteMessage` | cmd/microagent/mcp.go:259-270 | the bytes appended in either framing |
| `McpServer.McpStdioServer.Serve` | cmd/microagent/mcp.go:162-185 | everything written for the input, and what ended the loop |

## Left out

- System calls, sockets, process and signal delivery: they appear as steps that the environment may take, or as parameters.
- Real time: clocks are non-decreasing integers and timers are steps that may come at any point.
- `Do` with an empty key: it calls `execute` without touching the store; `IdempotencyKeys.MeetIff` says when that is.
- JSON encoding, SHA-256 and hexadecimal text: digests are abstract functions without collisions, envelopes and arguments abstract values; an encoding error from `json.Marshal` is not modelled.
- DnsStrip.CacheDnsAnswers: asks, like `DnsStrip.StripKeepsPuts`, that a record's type code fits its body, as the parser guarantees for address records.
- IdempotencyStore.Store.Complete: asks that the entry is still running, which `IdempotencyRuns.RunInv` shows for every caller that executes.
- IdempotencyKeys.MeetIff: asks that tool names hold no NUL, because the tool catalogue that `mcpMutationTool` consults is not part of this model.
- Raw JSON framing: `json.Decoder` is not part of this model, so `McpServer` only records that the input is handed to it.
- Cancellation of the MCP server's loop by its context, and write errors of its output.
- Errors and short writes of the console's destination, and of the copier's output in the control protocol.
- AuditLog.RotatingFileLogger.Rotate: file operations other than reopening succeed; renames that fail are not modelled, nor is the JSON form of a record.
- DNS wire format and name compression: responses are parsed messages, or bytes whose answers can be read only in part; whether the builder takes a record is an abstract predicate, and starting a section and finishing the message succeed.
- The name cache's own bound and expiry: only the sequence of puts is modelled.
- FlagReading.AllFlagsReadIff: takes the FlagSet to know exactly the flags that were passed to the reorder, and leaves out whether a value can be converted to its flag's type.
- ArgReorder.ItemsKeptIff: asks that flag names have one leading dash and at least one more character that is no dash, as in the flag tables of the callers; with a name such as `--x` in a table a hoisted flag could read differently the second time.
- EditDistance.EmptySuggestionIff: asks that no command name is empty, as none is in the registry.
- The leaf cache, TLS, policy evaluation, and the command handlers and tables of the command line: they would only add easy members.
