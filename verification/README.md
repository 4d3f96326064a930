# Verified models of Akashic's local store and protocol

This project models four parts of Akashic in Dafny and proves what they promise.

- **JSON and the local protocol.** The dialect that `src/json.rs` accepts is a grammar of trees with every spelling
  choice written down (`JsonGrammar`). The parser, a class that advances a position, reads exactly that dialect
  (`JsonReading`, `JsonParser`, `JsonTheorems`), which is set beside RFC 8259 (`JsonRfc`); the scanner of truncated texts
  agrees with it (`JsonPrefix`); strings are printed and read back (`JsonQuote`), and so are values laid out the way the
  program's format strings lay out its messages (`JsonPrinter`). Above it are version numbers (`Semver`), the frame
  reader (`Utf8`, `Frames`), the messages of daemon and client (`Protocol`, `ProtocolTheorems`, `Exchange`, `Framing`) and
  one client connection from its first octet to its last response (`Connection`). `Requests` says which lines are
  requests that succeed and how all others are refused, and `Responses` which responses the client accepts.
- **The recovery ledger.** `Ledger` has the four append-only tables with their triggers and constraints, `Reconciliation`
  the runs and discrepancies that open them, `Recovery` guarded recovery as small steps of many calls with crashes and
  outside edits between any two of them, `RecoveryFiles` what those runs do to the files, `RecoveryFingerprint` which
  requests they take for repetitions. `RecoveryCalls` has a call that is alone, `RecoveryOutcomes` what it commits,
  records and answers, and `RecoveryStore` the method as one call runs it. `LedgerGuards` has the guards by the tables
  they let through, `ReconciliationResults` and `ReconciliationStore` what a reconciliation reports and its method.
- **The versioned store.** `Lineage` has imports and rejections over five tables and the relations that reopening checks,
  `LineageImports` when a request is accepted and what is stored or recorded of it, `LineageFingerprint` the text that
  identifies a request, `LineageStore` the store as its methods change it, and `Migration` the upgrade of version-0
  stores.
- **The event log.** `Replay`, `ReplayTheorems`, `ReplayResults` and `ReplayStore` have the log, its projections, and
  playbacks. `Encoding` has the octets fed to the digests, and `Decoding` readers that get back what was encoded.

Tables are maps and sequences. Digests are function parameters of which nothing is assumed; where a theorem needs that
they tell two inputs apart, it says so for those inputs. What the world answers (files, database failures, reads of a
socket, the shared identifier counter) is a parameter too, and the theorems hold for every answer. Methods that change
state are proved equal to functions of the old state, and the theorems are about those functions, over all runs. Where a
theorem says what an operation accepts, stores, answers or reports, it is stated of the request, the rows and the files
alone, and not in terms of the functions that compute it.

## What the proofs found

- A retry of an accepted import is idempotent exactly when the request names its artifact or has no file. With a file and
  no artifact it carries the fingerprint of the request that names the source as its artifact, but it is refused before
  the operation is looked up (`Lineage.RetryIdempotentExactly`, with the input in `Lineage.ImplicitRetryIsRefused`).
- The text that identifies an import joins actor and source with a separator that both may contain. Another actor and
  source have the same text exactly when one of the two contains the separator (`LineageFingerprint.PartsTellExactly`);
  the other actor's request is then answered as a retry and not as a conflict (`LineageFingerprint.ConfusedIsRetry`, with
  the input in `LineageFingerprint.TwoActorsOneVersion`).
- The two outcome rows of a recovery are accepted exactly when the observation number of its discrepancy is not negative;
  the table of discrepancies has no such check, so the failure would come after the file was written
  (`Recovery.TwoMoreRows`). No recovery of a run that reconciliation opened ever fails that way, however much later it
  is made (`Reconciliation.ReconciledRecoveryConcludes`).
- A recovery can be bound to a reconciliation exactly when the file could not be observed at all under its recorded
  identity. A file rewritten in place is reported, but never recoverable (`Reconciliation.RecoverableExactly`).
- The file effect goes on exactly when the target's name is free (`RecoveryFiles.CreateGoesOnExactly`). A crash behind it
  leaves the name taken, and until someone removes the file no call that writes it ever commits
  (`RecoveryFiles.TakenNameNeverCommits`, with the run in `RecoveryFiles.CrashTakesTheName`). Calls at the checkpoints
  that leave the file alone, before the effect or with an unknown one, still commit.
- A reconciliation that is told a surface that does not exist is blocked without any discrepancy row
  (`Reconciliation.BlockedWithoutDiscrepancy`).
- The upgrade of a version-0 store accepts histories that no run of imports builds, such as a version that is its own
  parent (`Migration.SelfParentIsAccepted`). The upgraded histories are linear exactly when each old row names the latest
  earlier row of its artifact (`Migration.LinearExactlyForChains`), and no later import changes that
  (`Migration.UpgradedRuns`).
- `new_id` has the shape of a UUID exactly below 2^48 (`Protocol.NewIdIsUuid`).
- Lengths are cut to 32 bits before they are digested: for every recovery request there are two different pairs of
  authorization and scope, with texts of 2^32 octets and more, that give it the same octets
  (`Encoding.LongTextsCollide`). Below that bound
  the octets tell requests apart (`Encoding.RecoveryInjective`), and the ledger then takes exactly the requests that were
  committed before for repetitions (`RecoveryFingerprint.BeginsExactly`).
- The JSON dialect is not RFC 8259, and the code is followed. A text of the RFC is refused exactly when a string in it
  holds a raw DEL or C1 control character or half of a surrogate pair, or an object repeats a key
  (`JsonRfc.RfcAccepted`, with `JsonRfc.RawControls`, `JsonRfc.LoneSurrogates` and `JsonRfc.RepeatedKeys`). The other way
  round the dialect has exponents with both signs and `\u` with a sign and three digits (`JsonRfc.SignsOfExponent`,
  `JsonRfc.SignOfUnit`); both take a text exactly when one tree that spells it meets the rules of both
  (`JsonRfc.BothAccept`).

## Model

| member | source | states |
|---|---|---|
| JsonTheorems.ParseIsTheDialect | src/json.rs:26-301 | parsing yields a value if and only if the text spells that value in the dialect, with any white space between tokens |
| JsonTheorems.Complete | src/json.rs:128-301 | every spelling of a tree is parsed to its meaning: escapes, numbers, nesting, spaces, distinct keys |
| JsonTheorems.Sound | src/json.rs:128-301 | whatever parses is the spelling of some tree of the dialect |
| JsonTheorems.BodyIsRead | src/json.rs:192-248 | any mix of raw characters, short escapes, `\u` units and surrogate pairs is read back as the characters it stands for |
| JsonTheorems.NumberIsRead | src/json.rs:250-301 | a numeral is read to its end if and only if what follows could not continue it: no further digit, and no point or exponent where one may start |
| JsonRfc.RfcAccepted | src/json.rs:128-301 | a text of RFC 8259 is accepted, with the value it spells, if and only if no string in it holds a raw DEL or C1 control or half of a surrogate pair and no object repeats a key |
| JsonRfc.DeviatesExactly | src/json.rs:142-248 | an RFC 8259 tree is one of the dialect if and only if it has none of the three: a raw DEL or C1 control, half of a surrogate pair, two members of one object with the same name, however spelled |
| JsonRfc.BothAccept | src/json.rs:26-301 | the code and RFC 8259 both take a text if and only if one tree that spells it meets the rules of both |
| JsonRfc.SignsOfExponent | src/json.rs:283-288 | `1e+-1` is read and is not RFC 8259 |
| JsonRfc.SignOfUnit | src/json.rs:224-233 | `"\u+041"` is read as the letter A and is not RFC 8259 |
| JsonRfc.RawControls | src/json.rs:215-217 | a raw DEL or C1 control in a string is RFC 8259 and is refused, for each of them |
| JsonRfc.LoneSurrogates | src/json.rs:224-248 | half of a surrogate pair in a string is RFC 8259 and is refused, for each of them |
| JsonRfc.RepeatedKeys | src/json.rs:150-154 | an object that repeats a key is RFC 8259 and is refused |
| JsonRfc.EscapesAreRead | src/json.rs:198-210 | each of the eight short escapes of RFC 8259 is read as the code point that the RFC gives it |
| JsonRfc.UnitIsRead | src/json.rs:224-248 | `\u` and four hexadecimal digits are read as the character they name |
| JsonRfc.CharactersAreRfc | src/json.rs:313-320 | white space, digits and hexadecimal digits are those of RFC 8259, by code point |
| JsonRfc.NumeralsAreRfc | src/json.rs:250-301 | the numerals of both grammars, but for the second sign, are those of RFC 8259 section 6 |
| JsonGrammar.Combine | src/json.rs:224-248 | a surrogate pair names a scalar value between 0x10000 and 0x10FFFF, and the pair can be computed back from it |
| JsonParser.Parser.Value | src/json.rs:128-140 | the method returns what the specification reads at its position and moves past it |
| JsonParser.Parser.Object | src/json.rs:142-169 | the loop over members is the specification's, with a repeated name refused |
| JsonParser.Parser.Array | src/json.rs:171-190 | the loop over elements is the specification's, with a trailing comma refused |
| JsonParser.Parser.String | src/json.rs:192-222 | the loop over characters and escapes is the specification's |
| JsonParser.Parser.UnicodeEscape | src/json.rs:224-248 | a `\u` escape yields one scalar value, or fails for a lone surrogate |
| JsonParser.Parser.Number | src/json.rs:250-301 | the parts of a number are consumed in order and the text between is returned |
| JsonParser.Parse | src/json.rs:26-31 | the method returns a value exactly for the texts of the dialect |
| JsonParser.TopLevelStringPrefix | src/json.rs:58-84 | the scanning method is the specification's scan |
| JsonPrefix.ScanIsStable | src/json.rs:58-84 | what is found in a prefix is found in every extension of it |
| JsonPrefix.ScanAgrees | src/json.rs:58-119 | where the whole text parses to an object, scanning yields its string field |
| JsonPrefix.PrefixFieldIsTheField | src/json.rs:58-119 | a field read from a prefix is the field of every line that starts with it and parses |
| JsonQuote.QuoteIsRead | src/main.rs:114-132 | parsing a quoted string returns the string, for every string |
| JsonQuote.JsonQuote | src/main.rs:114-132 | the printing loop yields the quoted string, and it parses to its argument |
| JsonQuote.PieceFor | src/main.rs:118-128 | each character is printed as a piece of the dialect that stands for it |
| JsonPrinter.PrintedIsRead | src/main.rs:106-112 | any value laid out as the format strings lay out messages, quoted strings and nothing between tokens, parses to itself, whatever space surrounds it |
| JsonPrinter.ReadIsPrintable | src/json.rs:142-301 | every value that parsing yields has numerals for numbers and distinct keys at every depth, so that it can be laid out again and parses to itself |
| Utf8.EncodedIsDecoded | src/main.rs:334-356 | well-formed UTF-8 decodes to the text it encodes |
| Utf8.DecodedIsEncoded | src/main.rs:334-356 | only the encoding of a text is accepted as UTF-8 |
| Utf8.OctetsAreRfc | src/main.rs:334-356 | the octets of a character are those of RFC 3629, section 3: their number, their marks and the code point they spell |
| Semver.SemverIsTheGrammar | src/main.rs:579-619 | the splitting check accepts exactly the version numbers of the Semantic Versioning 2.0.0 grammar |
| Semver.IdentifiersAreSemver | src/main.rs:579-619 | numbers, build and pre-release identifiers are those of Semantic Versioning 2.0.0, by code point |
| Frames.FirstLineExactly | src/main.rs:309-361 | a line is handed out whole if it is UTF-8 within the limit, cut to the limit if it is longer, refused otherwise; what follows is split by itself |
| Frames.LastPartExactly | src/main.rs:309-361 | what follows the last newline is one frame that ends the stream, or nothing |
| Frames.FrameReader.NextFrame | src/main.rs:309-361 | one call of the reader is the specification's step, and its buffer never exceeds the limit |
| Frames.NextRefines | src/main.rs:309-361 | one call hands out the next frame of the stream and leaves the rest ahead; a pending one leaves everything |
| Frames.ReaderIsSplitter | src/main.rs:294-362 | for every stream without hard read errors and every placement of timeouts the frames are those of the line splitter |
| Frames.NothingIsLost | src/main.rs:294-362 | where no line is refused the frames hold the stream octet by octet |
| Protocol.NewIdIsUuid | src/main.rs:563-577 | an identifier has the shape of a UUID if and only if the counter is below 2^48 |
| Protocol.NewIdsDiffer | src/main.rs:563-566 | different counter values make different identifiers |
| Exchange.HandshakeIsAccepted | src/main.rs:438-537 | the client's handshake is answered with a handshake response to its identifier and completes the handshake |
| Exchange.HealthIsAccepted | src/main.rs:538-551 | after the handshake the client's health request is answered with a health response to its identifier |
| Exchange.HandshakeResponseMatches | src/main.rs:699-769 | the client accepts every handshake response of a daemon with a UUID as an answer to what it names |
| Exchange.HealthResponseMatches | src/main.rs:699-769 | the same for health responses |
| Exchange.ErrorDecodes | src/main.rs:554-697 | an error response decodes to its own code exactly when the code is in the client's table and locked as not retryable, for any message and any correlation |
| Exchange.EveryAnswerIsUnderstood | src/main.rs:438-769 | the answer to any line of octets is one the client understands, as an answer to the line's own identifier if it has a valid one, to the one its beginning shows if it cannot be read, and to a new one otherwise |
| Exchange.PeerRefusalIsUnderstood | src/main.rs:200-206 | the refusal of a foreign peer decodes to its own code |
| Framing.RequestsFit | src/main.rs:817-837 | the client's requests are single lines of at most 1024 octets |
| Framing.AnswerIsOneLine | src/main.rs:438-561 | every answer is one line, whatever the request contains and whatever the daemon is called |
| Framing.OneLineIsOneFrame | src/main.rs:309-361 | a line within the limit makes exactly one complete frame |
| Connection.HandleClient | src/main.rs:380-436 | the loop writes the replies to the frames the reader hands out, all of them without a stop or a failing write, the first of them otherwise |
| Connection.TimingDoesNotMatter | src/main.rs:380-436 | without hard read errors the replies depend on the octets that arrive and not on when they arrive |
| Connection.OneReplyPerFrame | src/main.rs:380-436 | there is exactly one response for each frame of the stream but its end |
| Connection.RespondKind | src/main.rs:438-552 | a response completes the handshake exactly when it is a handshake response, and only once; health only after it |
| Connection.RepliesAreInOrder | src/main.rs:380-552 | on every connection at most one handshake response and no health response before it |
| Connection.ResponseIsUnderstood | src/main.rs:364-378 | the response to a frame of any kind, cut off, unfinished or not UTF-8 included, is one the client understands as an answer to what the frame is known by |
| Connection.EveryReplyIsUnderstood | src/main.rs:380-769 | on every connection the client understands every response, each as an answer to its frame |
| Connection.SessionSucceeds | src/main.rs:380-837 | a handshake and any number of health requests are all answered in order with responses the client accepts, at every line limit from 1024 to 1048576 |
| Connection.PrefixNamesTheLine | src/main.rs:621-627 | an identifier read from the beginning of a line is the one every readable line beginning like that names itself by |
| Requests.HandshakeExactly | src/main.rs:438-537 | a line of octets completes the handshake if and only if none was completed and it spells exactly the fields of a handshake request in this protocol and version, each with its value rule |
| Requests.AnsweredExactly | src/main.rs:438-561 | for every line: a handshake or health response exactly for the request that is due, `protocol.unsupported_version` exactly for a well-formed message of another protocol or version, `protocol.malformed` for all else |
| Requests.FramesAreRefused | src/main.rs:364-378 | a line that is too long is refused as oversized, one that is cut off or no text as malformed |
| Requests.NamedExactly | src/main.rs:457-469 | the identifier that an answer refers to is the line's own exactly if its fields are those of a message and it is a UUID |
| Requests.UuidIsFiveGroups | src/main.rs:568-577 | an identifier is valid if and only if it is five groups of 8, 4, 4, 4 and 12 hexadecimal digits with hyphens between |
| Requests.ResponsesAreDistinct | src/main.rs:380-566 | no two responses of a connection carry the same identifier while the counter does not repeat itself |
| Requests.ResponsesSay | src/main.rs:520-549 | the fields of the two response bodies |
| Responses.MatchesExactly | src/main.rs:699-769 | the client accepts a text as a response if and only if it spells an answer of that kind to its request with exactly the fields of its body |
| Responses.ErrorExactly | src/main.rs:629-697 | the client reads a text as an error if and only if it spells an error answer with one of the twelve codes, marked as the table says |
| Ledger.EveryRunKeepsInvariant | src/artifacts/schema.rs:2051-2091 | every sequence of inserts, accepted or aborted, keeps the invariant of the ledger |
| Ledger.ReachableHistories | src/artifacts/schema.rs:2080-2091 | in every reachable state each action's outcomes are numbered from 1 without gaps, each supersedes its predecessor, and effect, terminal result and corrections fit together |
| Ledger.AcceptedExactly | src/artifacts/schema.rs:2083-2091 | in a reachable state the triggers accept exactly the outcomes that continue the history of their action |
| Ledger.NoCycles | src/artifacts/schema.rs:2076-2079 | no discrepancy is reached again by following corrections |
| Ledger.ChainsEnd | src/artifacts/schema.rs:2076-2079 | corrections are acyclic: from a discrepancy there are at most as many steps to what is corrected as there are earlier rows |
| Ledger.NoBranches | src/artifacts/schema.rs:2076-2079 | corrections do not branch: two discrepancies that lead to the same one in as many steps are the same |
| Ledger.CorrectionsClimb | src/artifacts/schema.rs:2083-2091 | each correction of an action cites a discrepancy exactly as many corrections away from the action's own as corrections have been made |
| Ledger.SameGrounds | src/artifacts/schema.rs:2083-2091 | two actions about the same discrepancy are corrected on the same grounds |
| Ledger.TablesOnlyGrow | src/artifacts/schema.rs:2051-2091 | rows are never changed or removed |
| LedgerGuards.RunAcceptedExactly | src/artifacts/schema.rs:2051 | a run is let in if and only if identifiers and the numbers in its scope stay unique |
| LedgerGuards.DiscrepancyAcceptedExactly | src/artifacts/schema.rs:2076-2079 | a discrepancy is let in if and only if its run is there and the chains of corrections stay chains with it |
| LedgerGuards.ActionAcceptedExactly | src/artifacts/schema.rs:2053 | an action is let in if and only if its run and discrepancy are there and identifiers, operations and fingerprints stay unique |
| LedgerGuards.FirstAcceptedExactly | src/artifacts/schema.rs:2080-2091 | the first row of an action is let in if and only if it is an effect with the states that the effect must know |
| LedgerGuards.SecondAcceptedExactly | src/artifacts/schema.rs:2080-2091 | the second row is let in if and only if it supersedes the first with one of the results that may conclude it |
| LedgerGuards.CorrectionAcceptedExactly | src/artifacts/schema.rs:2083-2091 | a later row is let in if and only if it supersedes the last one and rests on a correction of what that one rested on |
| ReconciliationStore.Reconciler.ReconcileOwned | src/artifacts/recovery.rs:456-611 | the method leaves the ledger and the result of the specification, leaves the ledger alone when a guard aborts, and reports exactly the checks that fail and a file that is not intact |
| ReconciliationResults.CleanExactly | src/artifacts/recovery.rs:497-526 | a reconciliation is clean and authoritative if and only if events, projections and Git are in order and the file is readable, the recorded one, and holds the recorded bytes; each surface is listed if and only if its own check fails |
| ReconciliationResults.NamedSurfaceBlocks | src/artifacts/recovery.rs:514-547 | a named surface is the only one listed, and gets a row if it exists |
| ReconciliationResults.EverySurfaceIsReported | src/artifacts/recovery.rs:526-567 | behind every listed surface stands a row of the new run that says where; nothing else changes |
| Reconciliation.ReconcileCommits | src/artifacts/recovery.rs:526-567 | a reconciliation always commits one run, with a row behind exactly the surfaces listed |
| Reconciliation.RunsAreNumbered | src/artifacts/recovery.rs:528-534 | the runs of a scope are numbered without gaps |
| Reconciliation.BlockedWithoutDiscrepancy | src/artifacts/recovery.rs:514-565 | a blocked run has no discrepancy exactly when the caller names a surface that does not exist |
| Reconciliation.RecoverableExactly | src/artifacts/recovery.rs:540-663 | a recovery is bound to a reconciliation exactly when only the file differs, it was not observed, and the request names its unchanged target |
| RecoveryOutcomes.BindsExactly | src/artifacts/recovery.rs:625-719 | a request may be bound to a run if and only if the run is blocked by the file alone, the ledger holds its discrepancy as claimed, and the request is complete, authorized and for the target it is about; the binding repeats the discrepancy, the target and what is there |
| Reconciliation.ReconciledRecoveryConcludes | src/artifacts/recovery.rs:561-925 | in every later state, after any calls, crashes and edits, a recovery of a reconciliation's run that has come to its commit adds its action with both outcome rows |
| Recovery.RunKeeps | src/artifacts/recovery.rs:797-930 | any interleaving of calls, crashes and outside edits keeps the invariant: each committed action has its effect row and the matching terminal row |
| Recovery.OneActionEach | src/artifacts/schema.rs:2053 | each fingerprint and each operation has at most one committed action |
| Recovery.TwoMoreRows | src/artifacts/recovery.rs:909-923 | the triggers accept both outcome rows of a call if and only if its observation number is not negative |
| Recovery.CommitAdds | src/artifacts/recovery.rs:856-923 | a commit adds the action with exactly its effect and the matching terminal outcome |
| RecoveryFiles.FilesAreNeverOverwritten | src/artifacts/recovery.rs:882-895 | the bytes of an existing file never change by a recovery, in any interleaving |
| RecoveryFiles.CreatedAtMostOnce | src/artifacts/recovery.rs:882-888 | over any run the calls create a target at most once more than others remove it, and one time less if it was there at the start |
| RecoveryFiles.CreateGoesOnExactly | src/artifacts/recovery.rs:882-888 | the file effect goes on if and only if the name is free, and a call that ends there leaves ledger and files as they were |
| RecoveryFiles.TakenNameNeverCommits | src/artifacts/recovery.rs:882-925 | from a state in which a name is taken and no call has come to its effect on it, and as long as nobody removes the file: in every state of every run no call that writes it is ready to commit, and its commit changes nothing |
| RecoveryFiles.CrashTakesTheName | src/artifacts/recovery.rs:856-925 | a run with a crash behind the file effect: the name is taken, the same request leaves no row when it is to write the file, and commits when its checkpoint comes before the effect |
| RecoveryFiles.CheckGoesOnExactly | src/artifacts/recovery.rs:895-899 | a call is ready to commit if and only if what is under its name by then has the intended digest |
| RecoveryOutcomes.CallEnds | src/artifacts/recovery.rs:797-930 | a call commits if and only if it is bound, new, grounded, its observation number is not negative, and, where its checkpoint comes after the file, the name is free and nothing goes wrong; the ledger and the files it leaves, column by column |
| RecoveryOutcomes.AppliedExactlyIfWritten | src/artifacts/recovery.rs:867-914 | a committed call records and answers applied if and only if its file was not there before and holds the replacement now |
| RecoveryOutcomes.FreeNameIsWritten | src/artifacts/recovery.rs:787-930 | the production path with a free name and nothing going wrong: applied, with the replacement under the name |
| RecoveryOutcomes.CommitTells | src/artifacts/recovery.rs:867-923 | in any interleaving a commit records exactly the two rows that belong to its checkpoint: applied behind the file, blocked before the effect, unknown where it is lost sight of |
| RecoveryOutcomes.RepeatedExactly | src/artifacts/recovery.rs:825-853 | a recorded operation is answered if and only if target, replacement, authorization and scopes are those recorded, with the result in its second row |
| RecoveryOutcomes.CorrectionJoins | src/artifacts/schema.rs:2083-2091 | a correction that the triggers let in is made between the steps of any calls while no one writes, joins its action's history, and changes no answer to a repeated request |
| RecoveryFingerprint.FingerprintsTell | src/artifacts/recovery.rs:246-283 | if the digest tells two encodings apart, fingerprints are equal exactly for equal bindings |
| RecoveryFingerprint.CommittedOnce | src/artifacts/schema.rs:2053 | in any interleaving each bound request is committed at most once, and the ledger's fingerprints are those of the committed ones in order |
| RecoveryFingerprint.BeginsExactly | src/artifacts/recovery.rs:683-862 | if the digest tells the encodings at hand apart, a call gets past its first insert exactly when its operation is new, its discrepancy is there and nothing bound like it was committed |
| Recovery.RecordIsForever | src/artifacts/schema.rs:2053-2091 | a recorded operation keeps its action and its terminal result in every later state |
| Recovery.RetryReturnsFirstStatus | src/artifacts/recovery.rs:806-853 | repeating a committed request returns the first status in every later state with the same target |
| RecoveryStore.Store.Recover | src/artifacts/recovery.rs:797-930 | the method is one call's steps with nothing between them; it answers with a status exactly when the call may commit, the one in the second row it recorded; a recorded operation changes nothing |
| RecoveryStore.Store.WriteTarget | src/artifacts/recovery.rs:880-903 | the file effect creates the target if it is absent, as far as it gets, and succeeds only when it reads back |
| Lineage.RunsKeepCore | src/artifacts/lineage.rs:174-439 | every run of imports, whatever it is answered, keeps every relation that reopening checks |
| Lineage.ImportKeepsCore | src/artifacts/schema.rs:992-1068 | one import, accepted, rejected, repeated or rolled back, keeps those relations |
| Lineage.FreshRuns | src/artifacts/lineage.rs:232-363 | from a fresh store every artifact is one linear chain with one owner and source and one logical path or none, in a store that reopens |
| Lineage.ProceedContinues | src/artifacts/lineage.rs:232-308 | what the checks let through continues the artifact's chain and its binding to a file or to none |
| Lineage.RetryIdempotentExactly | src/artifacts/lineage.rs:174-231 | a retry of an accepted operation returns its version and changes nothing if and only if the artifact is named or there is no file |
| Lineage.ImplicitRetryIsRefused | src/artifacts/lineage.rs:174-190 | a file imported under its source's name, and the same request with the artifact left open: one fingerprint, and a conflict |
| Lineage.AcceptedForever | src/artifacts/lineage.rs:189-231 | an accepted operation returns the identical version after any further imports |
| Lineage.RejectedForever | src/artifacts/lineage.rs:189-231 | a recorded rejection is repeated with its original class and changes nothing, after any further imports |
| Lineage.ReusedOperation | src/artifacts/lineage.rs:216-224 | an operation reused for another request is a conflict that adds no version and at most one discrepancy |
| Lineage.OneVersionPerSuccess | src/artifacts/lineage.rs:321-364 | versions change only by one more with a success |
| LineageImports.AcceptedExactly | src/artifacts/lineage.rs:174-365 | a new request is accepted if and only if the database works, owner, binding, recorded file, parent, hash and content agree, its keys are free, and its file is the same afterwards |
| LineageImports.ImportStores | src/artifacts/lineage.rs:321-381 | an accepted import adds one version with the content it was given, its digest and every other field of the request, and answers with them |
| LineageImports.ContentIsForever | src/artifacts/lineage.rs:189-231 | the same request is answered with the same content after any further imports |
| LineageImports.RefusedExactly | src/artifacts/lineage.rs:174-439 | how a new request is refused, on which ground, and the row that records it, column by column |
| LineageImports.KnownExactly | src/artifacts/lineage.rs:174-231 | a known operation is answered with its version or its rejection if the request is the recorded one and names its artifact or has no file, and as a conflict otherwise, explained once, with what is recorded of it |
| LineageImports.CoreExactly | src/artifacts/schema.rs:992-1068 | the relations that reopening checks are exactly: versions agree with artifacts and parents, versions, accepted operations and edges stand for each other, rejections are explained |
| LineageFingerprint.PartsTellExactly | src/artifacts/lineage.rs:35-47 | the text of a request is that of no other one if and only if neither its actor nor its source contains the separator between them |
| LineageFingerprint.ConfusedIsRetry | src/artifacts/lineage.rs:189-231 | in every valid store a request of another actor and source that are joined to the same text is answered like a retry of the accepted one |
| LineageFingerprint.TwoActorsOneVersion | src/artifacts/lineage.rs:174-231 | two such imports into a fresh store: both succeed, with one version |
| LineageStore.Store.Import | src/artifacts/lineage.rs:174-365 | the method leaves the tables and the answer of the specification, on every path; a new request is accepted exactly when nothing stands against it, and stored as it was given |
| LineageStore.Store.Transact | src/artifacts/lineage.rs:321-364 | the transaction adds all its rows or none |
| LineageStore.Store.Check | src/artifacts/lineage.rs:232-320 | the checks before the transaction, in order, with what each rejection records |
| LineageStore.Store.Reject | src/artifacts/lineage.rs:383-439 | a rejection keeps a known operation and the first discrepancy of an operation |
| LineageStore.Store.History | src/artifacts/lineage.rs:252-268 | the latest version and the first logical path of an artifact |
| LineageStore.Store.Find | src/artifacts/lineage.rs:367-381 | the version with an identifier |
| Migration.Migrate | src/artifacts/schema.rs:1502-1558 | the upgrade is made exactly when every row is acceptable, and leaves the specification's tables |
| Migration.AcceptsExactlyTheValid | src/artifacts/schema.rs:1502-1535 | the upgrade accepts exactly the stores whose upgraded rows satisfy what reopening checks, with no empty name |
| Migration.LegacyRetry | src/artifacts/lineage.rs:206-231 | importing a legacy version again without a file returns it and adds no row, also after further imports |
| Migration.LinearExactlyForChains | src/artifacts/schema.rs:1502-1558 | an accepted old store is upgraded to linear histories if and only if each of its rows names the latest earlier row of its artifact, and the first ones none |
| Migration.UpgradedRuns | src/artifacts/schema.rs:1502-1558 | after any imports into the upgraded store it is valid, and its histories are linear if and only if the old rows were such chains |
| Migration.SelfParentIsAccepted | src/artifacts/schema.rs:1502 | a version that is its own parent passes the row checks |
| Replay.QueryIsAppendOrder | src/artifacts/replay.rs:55-66 | whatever order the query sorts into, it is the order of the appends |
| Replay.RunsKeep | src/artifacts/replay.rs:55-308 | every run keeps the log increasing and extends it, and keeps both status tables in agreement |
| Replay.Select | src/artifacts/replay.rs:227-231 | the shortest history of a generation, if there is one |
| ReplayTheorems.AuthoritativeIsCurrent | src/artifacts/replay.rs:161-193 | an authoritative read has the payload and the generation of the present log |
| ReplayTheorems.CompleteUntilAppend | src/artifacts/replay.rs:69-193 | after a successful rebuild every read and every status check is complete until the next append |
| ReplayTheorems.NoAuthorityAfterAppend | src/artifacts/replay.rs:55-193 | after an append no read is authoritative until a rebuild succeeds, if the digest tells the log's beginnings apart |
| ReplayTheorems.TablesAgree | src/artifacts/replay.rs:98-158 | where a projection row exists both status tables agree, after every run |
| ReplayTheorems.GenerationsDiffer | src/artifacts/replay.rs:327-343 | a digest that tells encodings apart gives the log's beginnings different generations |
| ReplayTheorems.ExactPlaybackIff | src/artifacts/replay.rs:218-256 | a playback is exact exactly when its generation is that of a beginning of the log which the claim repeats, every outcome derived again |
| ReplayTheorems.RecordedInputsMatch | src/artifacts/replay.rs:196-216 | with recorded inputs a playback is exact exactly when transitions and outcomes match |
| ReplayTheorems.EvidenceIsDurable | src/artifacts/replay.rs:218-308 | after any later run evidence is there exactly if the playback was exact, whether or not generations collide |
| ReplayTheorems.SimulationsNeverCount | src/artifacts/replay.rs:280-308 | whatever is simulated during a run, the log, the projections, the playbacks and all evidence are those of the run without it |
| ReplayResults.AppendsExactly | src/artifacts/replay.rs:55-66 | an event is taken if and only if its number is greater than the last one and its name is new |
| ReplayResults.PayloadIsLines | src/artifacts/replay.rs:69-119 | a rebuild succeeds if and only if the schema is this version's and every transition is known; its payload is the outputs of the events, line by line |
| ReplayResults.PayloadGrows | src/artifacts/replay.rs:84-92 | each further event adds a line end and its output |
| ReplayResults.RebuildLeaves | src/artifacts/replay.rs:94-106 | both status tables and the log of rebuilds after a rebuild, with the reason of a failed one |
| ReplayResults.StaleAfterAppend | src/artifacts/replay.rs:122-193 | after an append a rebuilt projection is read as stale, with its old payload and no authority |
| ReplayResults.FailingAfterFailure | src/artifacts/replay.rs:122-193 | after a failed rebuild it is failing, for the reason recorded, whatever is appended |
| ReplayResults.PlaybackExactly | src/artifacts/replay.rs:218-277 | a playback is exact if and only if its claim repeats the history of its generation event by event; otherwise it says whether an outcome on record is contradicted |
| ReplayResults.CaptureIsForever | src/artifacts/replay.rs:280-290 | a captured outcome stays under its name, whatever comes after, and nothing else is captured under it |
| ReplayStore.Store.AppendEvent | src/artifacts/replay.rs:55-66 | only a later sequence number and a new name are appended |
| ReplayStore.Store.RebuildProjection | src/artifacts/replay.rs:69-119 | the rows that a rebuild leaves, complete or failed; it succeeds exactly on known transitions, with the lines of their outputs as payload |
| ReplayStore.Store.ProjectionStatus | src/artifacts/replay.rs:122-149 | the status of a projection and the marks that finding it leaves |
| ReplayStore.Store.MarkStatus | src/artifacts/replay.rs:151-158 | both tables lose authority together |
| ReplayStore.Store.Projection | src/artifacts/replay.rs:161-193 | a read marks what lost its worth and hands it out without authority |
| ReplayStore.Store.PlaybackWithInputs | src/artifacts/replay.rs:218-277 | the search, the comparisons and the recorded result; a second use of a name changes nothing |
| ReplayStore.Store.PlaybackRecorded | src/artifacts/replay.rs:196-216 | a playback with the inputs of the selected history |
| ReplayStore.Store.SimulateCapturedOutcome | src/artifacts/replay.rs:280-290 | a simulation is recorded once under its name and touches nothing else |
| ReplayStore.Store.ExactPlaybackEvidence | src/artifacts/replay.rs:293-308 | the search for a history of the recorded generation |
| Decoding.BigEndianSpells | src/artifacts/recovery.rs:260-272 | the octets of a length spell it, most significant first |
| Decoding.RecoveryIsDecoded | src/artifacts/recovery.rs:246-283 | a recovery request is read back from the octets that are digested for it |
| Decoding.DecisionIsDecoded | src/artifacts/schema.rs:1824-1846 | a decision is read back from its octets |
| Decoding.HistoryIsDecoded | src/artifacts/replay.rs:327-348 | an event history is read back from its octets |
| Encoding.HistoryInjective | src/artifacts/replay.rs:327-348 | event histories with the same octets are the same, whatever their lengths |
| Encoding.HistoryBytes | src/artifacts/replay.rs:327-343 | the hashing loop feeds exactly the octets of the history |
| Encoding.RecoveryInjective | src/artifacts/recovery.rs:246-283 | recovery requests with the same octets are the same while no text reaches the marker of absence |
| Encoding.RecoveryBuffer | src/artifacts/recovery.rs:246-283 | the buffer is filled with exactly those octets |
| Encoding.LongTextsCollide | src/artifacts/recovery.rs:260-282 | without the bound there are, for every request, two different pairs of authorization and scope, none of them empty, that give it the same octets |
| Encoding.DecisionInjective | src/artifacts/schema.rs:1824-1846 | decisions with the same octets are the same while lengths fit into 32 bits |
| Encoding.DecisionBuffer | src/artifacts/schema.rs:1824-1841 | the buffer is filled with exactly those octets |

## Left out

- The text of the schema, catalogue comparisons and pragmas: only the rules that tables and triggers enforce on rows are modelled.
- INSERT OR REPLACE, affinity conversions and disabled constraints: rows are inserted plainly with columns of their declared types; the provenance identifier of an outcome is an integer as the guards compare it.
- `versions_observation_guard`: it fires for schema version 3 only, and imports write version 1.
- SHA-256: digests are parameters. `Recovery` takes the fingerprint as a function of the bound fields, and `RecoveryFingerprint` as a digest of their octets.
- The printing of optional texts with `{:?}`: in `LineageFingerprint` it is a function that prints no NUL and tells texts apart.
- Reading and resolving files and directories: observations and path normalisation are answers of the world, and recovery runs over an abstract file map with create-if-absent, where writing may stop at any octet.
- The errors of the database are one error, and a failing one is an answer: which statement failed is not distinguished, since the transaction takes back all of them.
- Concurrent imports on one store: each import runs to its end before the next one; the file may change between any two observations.
- Upper-casing of event inputs: a function on texts.
- The stack: the parser is recursive, and a line of nested brackets may be deep enough to exhaust the stack of the thread that reads it. The model's recursion is unbounded, so that what is said of every line supposes a stack that suffices.
- Hard read errors in the middle of a stream: the connection ends there, with the replies written so far.
- Positions in JSON texts count characters, not octets; the texts are the same.
- Identifiers drawn by other connections: the values a connection draws are an arbitrary function, so a fresh identifier is only as distinct as the counter's values.
- Threads, signals, sockets, the start and stop of the daemon, configuration and arguments: the stop flag and failing writes are given turn by turn.
- `tui`, `doctor` and `jsonl` beyond the messages they send and what they make of the answers.
- The lookup of the version that a reconciliation is about, and how the event and projection surfaces are compared: their answers are inputs of the model.
- The upgrade to later schema versions, which adds tables without changing the rows modelled here.
- The reconciliation with fixed inputs: a four-way comparison that has no hard property.
