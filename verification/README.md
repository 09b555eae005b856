# LoopOS: models of the loop's codecs, machines and stores

LoopOS runs agents in bounded loops. This project models the parts of it that are hard to get right by reading:
two printers and parsers that have to undo each other, two state machines with an audit log, the command runner
between them, the crash behaviour of the run store, and the order-theoretic decisions about providers and authority.

| files | part of LoopOS |
|---|---|
| `Text`, `Numbers`, `FloatLaws`, `NumberSpellings` | Python strings, `int`, `float` and their texts |
| `CompactFloats`, `Shlex`, `ShlexLaws`, `ShlexMeaning`, `Lail`, `Codec`, `CodecLaws`, `CodecMeaning`, `NormalForm` | the compact line form of LAIL messages |
| `Router` | recipients of a message, before and after the codec |
| `Distance` | textual retelling distance |
| `Patch`, `PatchLaws`, `PatchPieces`, `Repair` | the fallback patch applier and the repair proposals it applies |
| `Ali`, `AliLaws`, `AliStates`, `Consumption` | the agent loop machine, its log, and the consumption of command results |
| `Runner`, `Outcomes` | the command runner, and its results fed into the machine |
| `LoopEngine`, `LoopAnswers` | the bounded step loop |
| `RunStore` | append-only logs and atomically replaced snapshots under crashes |
| `Providers`, `Freedom` | provider binding; budgets and the capability boundary |

Conventions. What LoopOS computes step by step is a method or a class, proved equal to a specification function; the
lemmas are about those functions. Exceptions and error returns are values. A float is its shortest decimal (sign, digits,
exponent, or a special value), which is how Python prints and reads it. Collaborators that LoopOS injects (policy
engine, syscall router, gate, planner, executor, evaluator, JSON parser, regular expressions) are arbitrary functions.

Where a property does not hold for all inputs, the exact condition is proved as an if-and-only-if:
`CodecLaws.DecodeEncode`, `NormalForm.RoundTripExact`, `NormalForm.NormalFormExact`, `Router.RouteSurvives`,
`PatchPieces.AllOrNothingExactly`, `PatchPieces.FalseIsReportedApplied`, `Repair.RepairApplies`, `Consumption.AtomicIff`,
`AliLaws.CapKeptExactly`, `AliLaws.RunWithinCapExactly`, `Providers.FirstMatchDependsOnOrder`,
`Providers.GuaranteedExactly`, `RunnerLaws.DryModeBlockedExactly`.

Where code and documentation differ, the model follows the code:

- `loopos/communication_distance.py:132-135` and its module text promise that distant handoffs are flagged; `plan`
  compares a payload with itself and flags nothing (`Distance.MakePlan`).
- `loopos/executors/patch_applier.py:104-107` says ambiguous patches are refused; an ambiguous block is replaced at its
  first occurrence, and an answer of False is reported as applied (`PatchPieces.FalseIsReportedApplied`).
- `loopos/ali/models.py:172-175` enforces `max_events` when a session is built; `apply` does not
  look at it (`AliLaws.CapKeptExactly`, `AliLaws.EventsExceedAnyCap`).
- `loopos/aci/runner.py:208-210` calls a dry-run mode without the flag honoured but discouraged; the issue it records
  blocks the command, unless it is a `provider_select` that is run and allowed, which is carried out as if it were not dry
  (`RunnerLaws.DryModeBlockedExactly`, `RunnerLaws.DryModeCompletes`).
- `loopos/ali/aci_consumption.py:122-126` says blocks by validation carry codes of their own; a run passes the default code
  `policy_denied`, so that such a block is recorded as a policy denial (`RunnerOutcomes.TurnedAwayEvent`).
- `loopos/aci/provider_models.py` describes `local_only` and `preferred_kind` as filters; a hint for a local
  profile ignores the capabilities and the kind, and a hint for an id ignores all three (`Providers.GuaranteedExactly`).
- `loopos/checkpoint_store.py:149-151` says a bad append does not poison the log; it also costs the record appended
  directly after it, and two torn appends at the end can read as a record nobody wrote.

## Model

| member | source | states |
|---|---|---|
| `Numbers.IntRoundTrip` | loopos/agent_language/codec.py:157-158 | `int(str(n)) == n` for every integer, with the spellings that `int` accepts (sign, underscores, surrounding spaces) |
| `FloatLaws.FloatRoundTrip` | loopos/agent_language/codec.py:161-162 | `float(str(x)) == x` for every float given by its shortest decimal, including signed zero, infinities, nan and both notations of `repr` |
| `FloatLaws.FloatTextIsNoInt` | loopos/agent_language/codec.py:154-164 | the text of a float is never taken for an integer or a truth value, so a printed float is coerced to a float |
| `CompactFloats.CompactShape` | loopos/agent_language/codec.py:149-151 | zero-stripping never removes an integer digit: the integer part is printed in full, followed by at most four decimals |
| `CompactFloats.CompactRead` | loopos/agent_language/codec.py:91 | reading the four-decimal text gives the value rounded half-even to four decimals (or the special value), never an error |
| `CompactFloats.CompactAgain` | loopos/agent_language/codec.py:149-151 | printing the value read back gives the same text again |
| `CompactFloats.QuantisedExact` | loopos/agent_language/codec.py:149-151 | a float survives four-decimal printing if and only if it has at most four decimals |
| `CompactFloats.CompactError` | loopos/agent_language/codec.py:149-151 | printing and reading back is off by at most 1/20000 |
| `CompactFloats.UnitIntervalKept` | loopos/agent_language/codec.py:34 | a confidence in [0, 1] is still in [0, 1] after the codec, so decoding never rejects it |
| `NumberSpellings.ParseIntExactly` | loopos/agent_language/codec.py:157-160 | a text is read as an integer exactly if, stripped, it is an optional sign and digits with single underscores between them, and then as the number they denote |
| `NumberSpellings.ParseFloatExactly` | loopos/agent_language/codec.py:161-164 | a text is read as a float exactly if, stripped and without its sign, it is infinity or nan in any case, or a numeral |
| `NumberSpellings.NumeralExponent` | loopos/agent_language/codec.py:161-164 | a numeral with an exponent mark of either case is its mantissa scaled by the signed grouped digits behind the mark, and nothing else is a numeral |
| `NumberSpellings.MantissaPoint` | loopos/agent_language/codec.py:161-164 | a mantissa with a point has grouped digits on at least one side of it and nothing else on the other; the digits behind it scale it down |
| `NumberSpellings.IntTextShape` | loopos/agent_language/codec.py:145-146 | an integer is printed without plus sign and leading zeros |
| `NumberSpellings.NotationExactly` | loopos/agent_language/codec.py:145-146 | a float is printed in scientific notation exactly below 0.0001 and from 10^16 on |
| `NumberSpellings.ScientificForm` | loopos/agent_language/codec.py:145-146 | the scientific form: one digit before the point, no bare point, a signed exponent of at least two digits |
| `NumberSpellings.FixedForm` | loopos/agent_language/codec.py:145-146 | the fixed form: all digits written out, at least one on either side of the point |
| `NumberSpellings.TiesToEven` | loopos/agent_language/codec.py:149-151 | rounding to four decimals goes to the nearest value, and to the even one in a tie |
| `Shlex.RunQuote` | loopos/agent_language/codec.py:145-146 | the five-state POSIX tokeniser reads a quoted value, whatever its characters, back as the value itself (IEEE Std 1003.1, Shell Command Language, section 2.2) |
| `ShlexLaws.SplitExact` | loopos/agent_language/codec.py:24-60 | splitting `head key=quoted ...` gives exactly the `head`, `key=value` words if and only if the bare head is non-empty and it and all keys are free of blanks, quotes and backslashes |
| `ShlexMeaning.SplitMeaning` | loopos/agent_language/codec.py:60 | a line of words in any mixture of bare, single-quoted, double-quoted and escaped stretches, with any blanks between them, splits into the meanings of the words |
| `ShlexMeaning.OpenLineFails` | loopos/agent_language/codec.py:60 | a line that ends in an open quotation or behind a backslash does not split |
| `ShlexMeaning.QuoteExactly` | loopos/agent_language/codec.py:145-146 | a text is printed bare exactly if it is not empty and has only safe characters; otherwise it stands in single quotes, with each single quote in it double-quoted between two quotations |
| `ShlexMeaning.SafeExactly` | loopos/agent_language/codec.py:145-146 | the characters that need no quoting |
| `Codec.HeaderParts` | loopos/agent_language/codec.py:27-46 | the part list grown field by field is the signal type followed by the quoted header fields that are present, in order |
| `Codec.MessageToCompact` | loopos/agent_language/codec.py:24-54 | the grown part list joined by spaces is `Encode` of the message: header, then core payload keys in their fixed order, then the others sorted, scalar values only |
| `Codec.CompactToMessage` | loopos/agent_language/codec.py:57-98 | the two dictionaries filled token by token give `Decode` of the line, including the errors for bad quoting, an empty line, unknown roles and bad numbers; a decoded message satisfies the invariants of `AgentMessage` |
| `CodecMeaning.CoerceExactly` | loopos/agent_language/codec.py:154-164 | a value is a boolean exactly for `true` and `false`, else an integer if `int` reads it, else a float if `float` does, else the text itself |
| `CodecMeaning.PrintedExactly` | loopos/agent_language/codec.py:29-54 | booleans print as `True` and `False`, integers in decimal, texts and iteration names as they are |
| `CodecMeaning.CollectLast` | loopos/agent_language/codec.py:64-73 | each field and each payload key has the value of the last word that sets it, payload values coerced; a word without an equals sign sets nothing |
| `CodecMeaning.DecodedSays` | loopos/agent_language/codec.py:57-98 | whatever line decodes: the signal is its first word, each field is read from the last word that sets it or from its default, and the payload has exactly the other keys, each coerced from its last value |
| `CodecMeaning.DecodeFailsExactly` | loopos/agent_language/codec.py:57-98 | which lines fail to decode, and in which order: open quotation, no word, unknown role, unreadable number, unknown actionability, value or payload key that the message model rejects |
| `CodecMeaning.ReservedExactly` | loopos/agent_language/codec.py:70 | the twelve names that are fields |
| `CodecMeaning.ForbiddenExactly` | loopos/agent_language/message.py:27-38 | the ten payload keys that are forbidden in any case |
| `CodecMeaning.LeakedExactly` | loopos/agent_language/message.py:89-100 | no key is found in a value exactly if no dictionary anywhere in it has a forbidden key |
| `CodecMeaning.PayloadOrderExactly` | loopos/agent_language/codec.py:48-49 | payload keys are printed once each, the eight core keys in their fixed order before all others in code-point order |
| `CodecLaws.CollectKeys` | loopos/agent_language/codec.py:66-73 | decoded payload keys never contain `=` and are never one of the twelve field names |
| `CodecLaws.EncodeSplits` | loopos/agent_language/codec.py:24-60 | the encoded line of a message splits into exactly the printed words if and only if its signal type is non-empty and it and the printed payload keys are free of blanks, quotes and backslashes |
| `CodecLaws.DecodeEncode` | loopos/agent_language/codec.py:24-98 | for every valid, lexically clean message, decoding its line never raises and gives exactly `Survivor` (same signal, trace, ids, sender, recipients, actionability; texts of the iteration, evidence pieces, coerced scalars, quantised floats) if and only if no printed key contains `=` or is a field name |
| `NormalForm.RoundTripExact` | loopos/agent_language/codec.py:24-98 | for every valid message whose printed payload keys are free of blanks, quotes and backslashes: decode(encode(m)) == m if and only if the signal type is non-empty and free of them too, no printed key contains `=` or is a field name, the iteration is a text, a recipient list does not have exactly one role, floats have four decimals, evidence items are non-empty and comma-free, the commitment flag matches the actionability, and every payload value is a number or a text that is not read as a number or truth value |
| `NormalForm.EncodeInjective` | loopos/agent_language/codec.py:24-54 | two well-formed messages with the same line have the same signal type and the same printed pairs in the same order |
| `NormalForm.SortedFilter` | loopos/agent_language/codec.py:49 | sorting the keys that survive is filtering the sorted keys, so dropping entries never reorders the others |
| `NormalForm.PayloadKeysFilter` | loopos/agent_language/codec.py:48-49 | the printed order (core keys first, then the rest sorted) of the remaining keys is unaffected by entries that are dropped |
| `NormalForm.NormalFormExact` | loopos/agent_language/codec.py:24-98 | for every well-formed message: encode(decode(encode(m))) == encode(m) if and only if no evidence item has an empty comma-piece and no text payload is `true`, `false` or a number in another spelling than Python prints |
| `NormalForm.TrueIsUnstable` | loopos/agent_language/codec.py:154-156 | counterexample to the unconditional normal form: the text `true` is decoded to a boolean |
| `Router.RouteConserves` | loopos/agent_language/router.py:69-90 | recipients never repeat, recipient_count + redundant_context_avoided is the number of roles, and broadcast_count is 1 exactly when every role is a recipient |
| `Router.RouteSurvives` | loopos/agent_language/router.py:69-90 | a well-formed message is routed to the same recipients after encode and decode if and only if it carries no `target_role` whose truth value the codec changes |
| `Router.RouteExactly` | loopos/agent_language/router.py:69-90 | the recipients are the target role of compiled memory context alone, which is an error if it names no role; else the configured roles of the signal, else the addressees, without repetitions |
| `Router.IndexExactly` | loopos/agent_language/router.py:66-67 | the last subscription for a signal counts |
| `Router.DefaultSubscriptions` | loopos/agent_language/router.py:66-67 | a router without subscriptions takes the nine default ones |
| `Router.FalsyExactly` | loopos/agent_language/router.py:84-86 | which values of the target role count as absent |
| `Router.DistinctByOne` | loopos/agent_language/router.py:87-90 | repeated roles are dropped behind their first occurrence |
| `Distance.Tokenize` | loopos/communication_distance.py:71-85 | the character loop computes exactly the set of maximal alphanumeric runs of length at least two of the lower-cased text |
| `Distance.TokensConcat` | loopos/communication_distance.py:71-85 | tokenising x + separator + y gives the union of the two token sets, for any separator character that is not alphanumeric |
| `Distance.TokensSeparated` | loopos/communication_distance.py:71-85 | the same for any separator that is not empty and contains no alphanumeric character |
| `Distance.DistanceIsMetric` | loopos/communication_distance.py:88-107 | range [0, 1], symmetry, zero exactly for equal token sets, and the triangle inequality for any three texts, with the empty-set conventions |
| `Distance.TokensExactly` | loopos/communication_distance.py:71-85 | the tokens are exactly the words of at least two ASCII letters and digits that are not part of a longer one, in lower case |
| `Distance.CaseIgnored` | loopos/communication_distance.py:75 | texts that differ in case only have the same tokens |
| `Distance.DistanceExactly` | loopos/communication_distance.py:88-107 | for texts with tokens the distance is the share of their tokens that only one of them has; a text without tokens is at distance one from all others and zero from its like |
| `Distance.FirstRunExactly` | loopos/communication_distance.py:172-173 | the plan carries the first run id that is not empty |
| `Distance.MakePlan` | loopos/communication_distance.py:165-185 | every handoff is accepted in order and none is ever flagged, whatever the threshold, because a payload is compared with itself |
| `Distance.AverageDistance` | loopos/communication_distance.py:211-224 | the mean of the distances, which stays between any bounds of them; 0 for none |
| `Patch.Applier.Flush` | loopos/executors/patch_applier.py:114-137 | one flush is `Flushed`: nothing to do, a refusal that changes nothing, or one replacement in the current file |
| `Patch.Applier.ApplyPatch` | loopos/executors/patch_applier.py:101-157 | the line-by-line loop is `Applied`: files afterwards and None, False or True; a `@@` line does not flush |
| `Patch.ChangedFilesFromPatch` | loopos/executors/patch_applier.py:84-98 | the list is the target paths in order of appearance, without repetition, `/dev/null` and empty targets |
| `PatchLaws.RewriteReplacesFirst` | loopos/executors/patch_applier.py:123-133 | a hunk applies exactly if the text that was read contains its old block, and then replaces the first occurrence of that block and nothing else |
| `PatchLaws.WithoutPrefixExactly` | loopos/executors/patch_applier.py:94-95 | a leading `b/` is dropped, every other target is taken as it is |
| `PatchLaws.BareHeaderTarget` | loopos/executors/patch_applier.py:140-145 | a header without the prefix is read back as its path, too |
| `PatchLaws.TargetsExactly` | loopos/executors/patch_applier.py:84-98 | a path is listed exactly if it is not empty and some `+++` line other than `/dev/null` names it |
| `PatchLaws.TargetsInOrder` | loopos/executors/patch_applier.py:84-98 | the list is in the order of first appearance |
| `PatchLaws.ReadLineText` | loopos/executors/patch_applier.py:123 | reading a file turns each of the three line ends into a newline and changes nothing else |
| `PatchLaws.CrlfNeverHelps` | loopos/executors/patch_applier.py:126-131 | the second attempt with CRLF line ends never succeeds where the first failed, because reading has already normalised the line ends |
| `PatchLaws.ChangedFilesAgree` | loopos/executors/patch_applier.py:84-157 | for any patch, applied or refused, every file changed by the fallback is in the list of changed files (or is `/dev/null` or the empty path); all other files keep their content and none appears or disappears |
| `PatchLaws.SingleFileAtomic` | loopos/executors/patch_applier.py:139-157 | a patch with at most one `+++` line that is refused has changed nothing |
| `PatchLaws.TwoFilesNotAtomic` | loopos/executors/patch_applier.py:139-157 | counterexample to all-or-nothing application: with two one-line hunks of which the first applies and the second does not, the patch is refused with the first file rewritten |
| `PatchPieces.PatchIsPieces` | loopos/executors/patch_applier.py:109-157 | for any files and any patch the fallback applies the (path, before, after) pieces that the patch lists, read without looking at a file, in order, stopping at the first that does not fit; it answers None if it stopped, else whether there was a piece |
| `PatchPieces.LinesArePieces` | loopos/executors/patch_applier.py:139-157 | the same from any state of the line loop, with its half-collected hunk |
| `PatchPieces.PieceReplacesFirst` | loopos/executors/patch_applier.py:123-133 | each piece that is applied replaces exactly the first occurrence of its old text |
| `PatchPieces.InTurnOutcome` | loopos/executors/patch_applier.py:101-157 | every file is changed by its own pieces alone: the applier stops at the first piece that does not fit its original file as the earlier pieces for that file leave it, and each file then holds its original content after its own pieces up to there |
| `PatchPieces.AllOrNothingExactly` | loopos/executors/patch_applier.py:101-157 | any patch is all-or-nothing if and only if every piece fits in that sense, or the pieces before the first that does not leave every one of their files as it was |
| `PatchPieces.AllOrNothingDistinct` | loopos/executors/patch_applier.py:101-157 | where the pieces name distinct files: if and only if every piece fits the original files, or every piece before the first that does not leaves its file as it was |
| `PatchPieces.FalseIsReportedApplied` | loopos/executors/patch_applier.py:46-60 | the answer is False if and only if no removed, added or context line comes after a `+++` line; then no file is written, and the status is `applied` all the same |
| `Repair.LinesConcat` | loopos/executors/loop_adapter.py:206-212 | splitting printed lines again gives the lines back |
| `Repair.MatchInLine` | loopos/executors/loop_adapter.py:216-226 | the first match of a one-line pattern in a text is its first match in the first line that contains it |
| `Repair.NoEarlierBlock` | loopos/executors/patch_applier.py:126-133 | an earlier occurrence of the old block would contain an earlier match of the repair pattern, so there is none |
| `Repair.RepairApplies` | loopos/executors/loop_adapter.py:194-226 | applying the printed one-hunk diff (up to three context lines) with the fallback gives exactly `_repair_text(text)` in the file if and only if the changed line ends in a line break and does not start with `-- ` or `++ `; and then nothing else changes and the answer is True |
| `Repair.RepairTextExactly` | loopos/executors/loop_adapter.py:216-226 | the first of the four patterns that the text contains is replaced where it occurs first; other texts are unchanged |
| `Repair.RepairsExactly` | loopos/executors/loop_adapter.py:216-226 | a text is changed if and only if it contains one of the four patterns |
| `Repair.NoRepairNoDiff` | loopos/executors/loop_adapter.py:194-213 | a text that is not repaired has no diff |
| `Repair.HunkContext` | loopos/executors/loop_adapter.py:206-212 | the hunk has the lines right before and right behind the changed one, three of each where there are three |
| `Repair.DiffText` | loopos/executors/loop_adapter.py:206-212 | the printed diff, line by line |
| `Repair.RepairedFile` | loopos/executors/loop_adapter.py:194-226 | in the end, where the diff travels, the file holds the text with `return a - b` turned into `return a + b`, or else the next of the four replacements, where it occurred first; no other file has changed |
| `Ali.AgentLoopSession.AttachAciResult` | loopos/ali/models.py:185-215 | appends the reference and changes nothing else |
| `Ali.AgentLoopFSM.constructor` | loopos/ali/fsm.py:291-296 | the dictionary built row by row is the index of the table |
| `Ali.AgentLoopFSM.Apply` | loopos/ali/fsm.py:307-343 | appends one numbered record and moves the state, or raises one of the three errors and changes nothing |
| `AliLaws.IndexIsLastMatch` | loopos/ali/fsm.py:291-302 | for any table the index agrees with a last-match scan of the row list |
| `AliLaws.RecordedIff` | loopos/ali/fsm.py:307-343 | for any table an attempt is recorded if and only if the event is known, the session is not halted, a row matches and its payload keys are there; then the record is that row, otherwise the session is unchanged |
| `AliLaws.LogExplainsState` | loopos/ali/fsm.py:307-343 | for any table and any sequence of attempts on a fresh session: sequence numbers 0 to n-1, every record is the row of the state before it and its event, no record follows a halted state, and replaying the log from CREATED gives the current state |
| `AliLaws.RepairIsUnknown` | loopos/ali/fsm.py:272-316 | `convergence_repair` is in no row, so every engine refuses it as unknown in every state |
| `AliLaws.BooksBalance` | loopos/ali/fsm.py:31-255 | any explained log of the default table keeps the books of submitted goals, submitted commands and departures that go with its final state |
| `AliLaws.CommandsConserved` | loopos/ali/fsm.py:31-343 | after any attempts on the default table: while RUNNING or WAITING_APPROVAL, `command_submitted` occurred exactly once more than the session left RUNNING for REPAIRING, REPLANNING or ASKING_USER; `goal_submitted` occurred exactly once, as the first event |
| `AliLaws.CapKeptExactly` | loopos/ali/fsm.py:307-343 | for every table, session within a cap, event and payload: `apply` keeps the session within the cap if and only if there is room for one more event or the attempt is refused |
| `AliLaws.RunWithinCapExactly` | loopos/ali/fsm.py:307-343 | a run stays within a cap if and only if each of its attempts has room or is refused |
| `AliLaws.EventsExceedAnyCap` | loopos/ali/fsm.py:307-343 | for every cap there is a run of the default table that exceeds it, so `apply` does not enforce `max_events` |
| `AliStates.DefaultAnswer` | loopos/ali/fsm.py:31-343 | with the default table each event is recorded in exactly its states, with its reason code and target; otherwise `convergence_repair` is unknown, a halted session closed, and any other transition invalid |
| `AliStates.RefusedExactly` | loopos/ali/fsm.py:315-333 | for any table, which error an attempt is refused with |
| `AliStates.StateTellsLastEvent` | loopos/ali/fsm.py:31-343 | after any attempts on the default table the state is read off the last record: HALTED_SUCCESS exactly after convergence_halt_success, HALTED_FAILURE exactly after convergence_halt_failure, HALTED_BLOCKED exactly after policy_denied or convergence_halt_blocked, WAITING_APPROVAL after approval_required, ASKING_USER after convergence_ask, REPAIRING after a first and REPLANNING after a second syscall_failed or convergence_replan, RUNNING after the others, READY after the goal, CREATED with an empty log |
| `Consumption.ConsumeAciResult` | loopos/ali/aci_consumption.py:230-318 | the loop over the filtered events is `Consumed`: session afterwards, and the records or the first error |
| `Consumption.AtomicIff` | loopos/ali/aci_consumption.py:205-318 | for any table whose rows are known events without required keys: consumption is atomic on events for every session and result (all filtered events recorded, or an error with state and log unchanged) if and only if recording progress never loses a follow-up that was valid before |
| `Consumption.SelfLoopsKeep` | loopos/ali/aci_consumption.py:205-227 | tables whose `progress_updated` rows are self-loops have that property |
| `Consumption.DefaultTableIsAtomic` | loopos/ali/aci_consumption.py:205-318 | consumption with the default table is atomic on events |
| `Consumption.ReferenceStays` | loopos/ali/aci_consumption.py:275-300 | the reference is attached exactly once even when the call then raises, except for a session that is halted |
| `ConsumptionOutcomes.ConsumedRecords` | loopos/ali/aci_consumption.py:136-318 | what a running session holds after consuming any result: the reference, progress where the status reports it, and the follow-up event of the status, each with reason code, target state and payload keys |
| `ConsumptionOutcomes.ConsumedElsewhere` | loopos/ali/aci_consumption.py:205-318 | in every other open state the follow-up alone is recorded if it has a row there, and the transition is invalid otherwise |
| `ConsumptionOutcomes.PolicyDenialExactly` | loopos/ali/aci_consumption.py:119-133 | a block counts as a denial by the policy engine exactly with its summary or one of six reason codes |
| `ConsumptionOutcomes.ReferenceSays` | loopos/ali/aci_consumption.py:284-300 | the reference names the command, the status as it is spelled, and the success flag |
| `RunnerLaws.ConstructedIssues` | loopos/aci/runner.py:183-211 | for a command that its constructor accepted, validation only ever objects to a dry-run mode without the dry-run flag |
| `RunnerLaws.InvalidBlockedExactly` | loopos/aci/runner.py:215-349 | a command to which validation objects is blocked if and only if it is not a `provider_select` that is run and allowed; that one is never validated |
| `RunnerLaws.DryModeBlockedExactly` | loopos/aci/runner.py:208-210 | a dry-run mode without the dry-run flag, said to be honoured, blocks the command if and only if it is not a `provider_select` that is run and allowed |
| `RunnerLaws.DryModeCompletes` | loopos/aci/runner.py:454-498 | the input on which it does not: selecting a registered provider in dry-run mode without the flag is reported `completed` and records `syscall_completed` |
| `RunnerLaws.SuccessExactly` | loopos/aci/runner.py:278-349 | success is reported if and only if the status is `completed`, or `dry_run` outside an explanation |
| `RunnerLaws.DispatchExactly` | loopos/aci/runner.py:320-349 | a run dispatches at most once, and exactly if it is not an explanation, the command is valid, its hint (if any) is honoured, and its kind has a syscall that the wired router knows; the call carries the dry-run flag and the approval of the command |
| `RunnerLaws.DenialStillDispatches` | loopos/aci/runner.py:320-349 | the decision of the policy engine does not influence what is dispatched |
| `RunnerLaws.RunIsAccepted` | loopos/ali/aci_consumption.py:136-187 | for every command, policy decision and router answer, a RUNNING session accepts the result, records every event it asks for, and ends in RUNNING (completed, dry_run), WAITING_APPROVAL (approval_required), HALTED_BLOCKED (blocked) or HALTED_FAILURE (unsupported, failed) |
| `RunnerLaws.CompletedWithoutDispatch` | loopos/aci/runner.py:643-665 | `syscall_completed` is recorded without any dispatch exactly for a valid `provider_select` that is only explained (hint honoured or not), for an allowed one that is run, not dry, and whose hint is honoured, and for any other allowed valid command that is run, not dry, and whose hint is honoured when no router is wired |
| `RunnerLaws.ExplainedUnresolved` | loopos/aci/runner.py:254-266 | an allowed `provider_select` whose hint cannot be honoured is reported `completed` when it is explained and `failed` when it is run |
| `RunnerLaws.NeverRepairs` | loopos/aci/runner.py:500-665 | over any sequence of commands whose results one session consumes, from whatever state, the session keeps its state or goes to RUNNING, WAITING_APPROVAL, HALTED_BLOCKED or HALTED_FAILURE, so it is never sent to repair, replan or ask and never halts with success; command and departure counts do not change |
| `RunnerLaws.CompletionsWereDispatched` | loopos/aci/runner.py:278-349 | over any sequence of commands without `provider_select` and with a router wired, a session never records more `syscall_completed` events than calls were dispatched |
| `RunnerOutcomes.IssuesExactly` | loopos/aci/runner.py:183-211 | each issue is recorded exactly in its case |
| `RunnerOutcomes.SyscallOfKind` | loopos/aci/runner.py:85-94 | the syscall of each kind that has one |
| `RunnerOutcomes.CallCarriesCommand` | loopos/aci/runner.py:426-452 | the dispatched call carries the id, text, dry-run flag and approval of the command |
| `RunnerOutcomes.DispatchReports` | loopos/aci/runner.py:500-583 | a dispatched command succeeds exactly if the router says so; its status, dry-run flag and reason codes follow from the answer of the router and, for a failure without approval, the policy decision |
| `RunnerOutcomes.ExplanationReports` | loopos/aci/runner.py:215-274 | what an explanation reports |
| `RunnerOutcomes.RunReports` | loopos/aci/runner.py:278-349 | what a run without dispatch reports, by what kept the command from being dispatched |
| `RunnerOutcomes.FirstCodeExactly` | loopos/aci/result_builders.py:43-60 | the code of a blocked command is the first that is not empty, in either list, or the default |
| `RunnerOutcomes.PolicyCodesOfOne` | loopos/aci/runner.py:536-543 | a refused syscall passes on exactly the codes with one of six prefixes |
| `RunnerOutcomes.KeysOfRun` | loopos/ali/aci_consumption.py:79-116 | which optional keys the audit payload of a run has |
| `RunnerOutcomes.DispatchMovesSession` | loopos/aci/runner.py:500-583 | end to end: after a dispatched command a running session stays running exactly if the router reports success, records the completed syscall exactly if that was no dry run, and otherwise waits for approval or is halted as the router and the policy engine answer |
| `RunnerOutcomes.TurnedAwayEvent` | loopos/aci/runner.py:585-604 | an invalid command is recorded as `policy_denied` unless the policy engine allows it and gives a first code that is none of its denials |
| `Providers.ResolveProviderHint` | loopos/aci/provider_binding.py:64-153 | the branches, with collecting, de-duplicating, filtering and sorting candidates, compute `Resolve`, whose capability branch is stated on sets |
| `Providers.CapabilityPicksSmallest` | loopos/aci/provider_binding.py:118-143 | a capability hint is resolved if and only if no required capability is blank and some profile of the preferred kind offers one; the answer is the one with the smallest provider_id |
| `Providers.CapabilityOrderIrrelevant` | loopos/aci/provider_binding.py:118-143 | the answer is unchanged by permuting or repeating the required capabilities and by reordering the registry |
| `Providers.MoreCapabilitiesLowerId` | loopos/aci/provider_binding.py:118-143 | further required capabilities keep a resolution if and only if none of them is blank, and then can only lower the chosen id |
| `Providers.ExactAnswer` | loopos/aci/provider_binding.py:92-103 | a hint for an id is answered by the profile with that id, under its name or an alias, and by nothing else |
| `Providers.AnswerExactly` | loopos/aci/provider_binding.py:105-163 | each branch answers with its source, or fails with its reason |
| `Providers.FirstMatchIsFirst` | loopos/aci/provider_binding.py:106-157 | the local and the kind branch answer with the first match in the order of registration |
| `Providers.FirstMatchDependsOnOrder` | loopos/aci/provider_binding.py:106-157 | in the local and the kind branch the answer is the same for every order of registration if and only if at most one registered profile matches |
| `Providers.GuaranteedExactly` | loopos/aci/provider_binding.py:92-157 | a resolved profile is guaranteed to offer a required capability, to be of the preferred kind and to be local if demanded, if and only if the hint asks neither for an id nor for a local profile, or requires neither capability nor kind and does not ask for both an id and a local profile |
| `LoopEngine.LoopState.Apply` | loopos/core/state.py:81-122 | one step as `Applied`, with the reference list extended while it is read |
| `LoopEngine.LoopEngine.TakeStep` | loopos/core/loop_engine.py:193-237 | the loop body stores the planned instruction, observation and evaluation and applies them |
| `LoopEngine.LoopEngine.Run` | loopos/core/loop_engine.py:177-244 | the loop computes the final state, log and saved snapshots of `Whole`; a step limit that is not positive is refused with nothing stored |
| `LoopEngine.ExtendedKeeps` | loopos/core/state.py:93 | extending the memory references adds exactly the new ones behind the old ones and never repeats one |
| `LoopEngine.RunKeeps` | loopos/core/loop_engine.py:177-244 | whatever the collaborators answer: the run ends within `max_steps` in a terminal status, the log is run_started (instruction_planned observation evaluation)^k run_finished with k = step_index = length of tool_history, the log alone rebuilds the final state, progress stays in [0, 1] and is 1 on success, memory references never repeat, and the last saved state is the final one |
| `LoopEngine.SimpleRuns` | loopos/core/loop_engine.py:72-94 | with `SimpleEvaluator` an instruction that was not executed is the last one and the run fails or is blocked; the run succeeds if and only if its last instruction is an executed TERMINATE that reports success without a refusal |
| `LoopAnswers.ExecutedExactly` | loopos/core/loop_engine.py:193-228 | an instruction reaches the executor if and only if it can be converted, the policy engine denies none of its scopes (instruction, terminal for EXEC_TERMINAL, tool for CALL_TOOL), it has the argument and approval metadata it needs, and the gate does not forbid it |
| `LoopAnswers.ObservationSays` | loopos/core/loop_engine.py:193-333 | what is observed, by what stopped the instruction |
| `LoopAnswers.UnexecutedIgnoresExecutor` | loopos/core/loop_engine.py:196-228 | the executor has no part in the observation of an instruction that does not reach it |
| `LoopAnswers.IssuesExactly` | loopos/core/isa.py:109-127 | the validation issues, each in its case |
| `LoopAnswers.AppliedSays` | loopos/core/state.py:81-122 | one step counts once, moves progress by its delta within [0, 1], takes its status from the verdict, and adds one history entry and at most one error |
| `LoopAnswers.LimitExactly` | loopos/core/loop_engine.py:193-244 | a run is ended by the step limit if and only if every evaluation said to continue; its last error then says so |
| `LoopAnswers.SimpleJudges` | loopos/core/loop_engine.py:72-94 | the verdict and score of every step: a refusal blocks, a TERMINATE ends the run as it reports, any other failure ends it, and every other step goes on with half a point |
| `LoopAnswers.SimpleRunEnds` | loopos/core/loop_engine.py:72-94 | with `SimpleEvaluator` a step that the policy engine denies is the last one and ends the run as blocked; the run is blocked exactly if its last observation carries a refusal, and reaches the step limit exactly if its last step was an ordinary success |
| `LoopAnswers.SimpleProgress` | loopos/core/loop_engine.py:72-94 | `SimpleEvaluator` scores half a point for every step that goes on, up to one, a full point for a TERMINATE that is not blocked, and nothing for other ends |
| `RunStore.RunStore.AppendJsonl` | loopos/checkpoint_store.py:124-130 | a log that holds any history of appends then holds that history and this append, as far as the crash lets it through; other files are untouched |
| `RunStoreLaws.LogIsItsAppends` | loopos/checkpoint_store.py:124-130 | after any run of the store, with crashes and failed writes anywhere, a log holds exactly what its own appends have written, in order |
| `RunStore.RunStore.AtomicWriteJson` | loopos/checkpoint_store.py:100-121 | temporary file, rename and clean-up: only a completed write changes the target, to the complete text |
| `RunStore.RunStore.ReadJsonl` | loopos/checkpoint_store.py:138-153 | the reading loop returns the accepted stripped lines, in order |
| `RunStoreLaws.JoinedIsNoJson` | loopos/checkpoint_store.py:146-152 | torn text of a record followed by a whole record is never a JSON text (shown on a scan that counts brackets outside strings) |
| `RunStoreLaws.ReadAfterCrashes` | loopos/checkpoint_store.py:124-153 | over any history of appends, each cut anywhere: reading gives in order exactly all records except the torn ones and those directly after a torn one (a last record that lacks only its newline is kept), plus the joined text of the torn tail if the last two appends are both torn and the parser accepts that text |
| `RunStoreLaws.NoPhantomAfterWhole` | loopos/checkpoint_store.py:124-153 | once a further append is whole, exactly the surviving records are read |
| `RunStoreLaws.PhantomOfTwo` | loopos/checkpoint_store.py:138-153 | two torn appends at the end of a log do make up a record whenever the parser accepts their joined text |
| `RunStoreLaws.PhantomExample` | loopos/checkpoint_store.py:138-153 | the concrete input: `{"a":"b"}` torn after six and `{"}":1}` torn after three characters are records, and their log reads as the one record `{"a":"{"}` |
| `RunStoreLaws.ClosesExample` | loopos/checkpoint_store.py:138-153 | the three texts of that input close all their brackets outside strings, so a parser that accepts them exists |
| `RunStoreLaws.SnapshotIsComplete` | loopos/checkpoint_store.py:100-121 | over any run of the store with crashes and failed writes anywhere, a snapshot is the complete text of its last completed overwrite, or absent |
| `RunStoreLaws.LogReadsSurvivors` | loopos/checkpoint_store.py:124-153 | in any such run every log reads as the survivors of its own appends, whatever happens to the other files |
| `Freedom.WithLevel` | loopos/freedom/models.py:79-133 | lowering the dumped entries one after the other gives `AtLevel` |
| `Freedom.AtLevelIsMeet` | loopos/freedom/models.py:79-133 | the result is the greatest budget that loosens no cap of the given one and stays within the ceilings of the level, and keeps `max_steps >= 1` |
| `Freedom.CeilingsGrow` | loopos/freedom/models.py:87-126 | a higher level never has a lower ceiling, and a level applied around a lower one changes nothing |
| `Freedom.LevelsAreLowest` | loopos/freedom/models.py:79-133 | applying `with_level` over any list of levels equals applying the lowest one |
| `Freedom.AuthorityIsMonotone` | loopos/freedom/boundary.py:131-328 | a higher context level together with a policy of more authority (level, flags, write cap, fewer human approvals, wider allowlists) never turns an allowed request into a denied one, nor makes it wait for a human |
| `Freedom.FirstRootRestricts` | loopos/freedom/boundary.py:330-340 | an empty list of roots allows every path, so adding the first root denies every read outside of it |
| `Freedom.FullAuthorityAllows` | loopos/freedom/boundary.py:156-328 | with all authority granted only an empty terminal command is denied |
| `Freedom.CheckExactly` | loopos/freedom/boundary.py:131-328 | a request is allowed exactly if no flag, level, size or list stands against it, and is otherwise refused for the first ground that does; when a human is asked |
| `Freedom.CeilingsExactly` | loopos/freedom/models.py:87-126 | the ceilings of the six levels |
| `Freedom.LevelsInOrder` | loopos/freedom/models.py:41-46 | the levels are in order |

## Left out

- Binary floating point: values are decimals, and distances and progress are reals.
- CompactFloats.CompactShape: the digits printed are those of the decimal; Python prints those of the binary value behind it, which for floats such as 1e23 are other integer digits.
- CompactFloats.CompactRead: rounding inside `f"{value:.4f}"` is half-even on the decimal instead of on the binary value behind it, so decimal ties can go the other way.
- NormalForm.RoundTripExact: `created_at` is not part of a message, and nan counts as equal to itself; what becomes of a message with blanks, quotes or backslashes in a payload key is not characterised beyond `CodecLaws.EncodeSplits`.
- NormalForm.NormalFormExact: a numeral longer than the precision of a float, such as the text `0.1000000000000000055`, keeps its spelling here, while Python prints `0.1`; so does one beyond the range of a float, such as `1e+400`, which Python reads as `inf`.
- Router.RouteSurvives: a numeral too small for a float, such as the text `1e-400`, is truthy here after decoding, while Python reads `0.0`.
- Ali.AgentLoopSession.AttachAciResult: a reference keeps the command id, status and success flag; goal id, blocked reason, approval flag and metadata are copied through by the source and not modelled.
- Integers with more digits than Python's conversion limit, Unicode digits, Unicode whitespace and case folding: the alphabet of digits, blanks and letters is ASCII.
- `json_to_compact` and `compact_to_json`: wrappers around the two functions modelled, and JSON text.
- `created_at`, generated ids and other timestamps of messages, records, results and sessions.
- `token_cost_estimate`: needs the length of a message's JSON text.
- Patch.Applier.ApplyPatch: paths are names of existing files; directories, aliases of one file, decoding errors, `git apply`, and line separators of `splitlines` other than `\n` are not modelled.
- Repair.RepairApplies: the diff is the single-hunk form with up to three context lines around the one changed line; difflib may align repetitive text differently, and the search of the repository for a file to repair is not modelled.
- Ali.AgentLoopFSM.Apply: a record keeps which payload keys it has, not their values.
- Consumption.ConsumeAciResult: references keep the command id, status and success flag; payload values are not modelled.
- Consumption.AtomicIff: speaks of tables whose rows require no payload keys, since the keys of a result's payload are fixed by the code and not by the table.
- RunnerLaws.DispatchExactly: policy engine and router are arbitrary functions of the command and the call, so nothing is said about what they decide; the arguments of a call besides its text, dry-run flag and approval are not modelled.
- Runner messages, observations and resolved providers in a result, apart from the payload keys they give rise to.
- Providers.ResolveProviderHint: the registry is valid (distinct ids, as `register` enforces), aliases are a map, and diagnostic messages are not modelled.
- LoopEngine.LoopEngine.Run: time is not modelled (`timeout_seconds` is a payload of the first event); memory proposals, context compilation and the repository index are not modelled; collaborators do not change the state they are shown.
- RunStore.RunStore.AppendJsonl: a crash cuts between characters; a cut inside a multi-byte character makes the reader raise a decoding error, and loss of power behind the operating system's back (`fsync`) is not modelled.
- RunStore.RunStore.ReadJsonl: values are identified with the texts that the parser accepts; the parser is any function that accepts only texts whose brackets close outside strings.
- Freedom.AuthorityIsMonotone: regular expressions and path resolution are arbitrary functions; the terminal allowlist is a list of texts.
- The capability boundary's reason arguments and safety levels.
- Command-line tools, adapters, the agent bus, the kernel package, candidate scoring, the context compiler, the data guard and the convergence engine: single-branch or table look-up code.
