# WatchBPF, verified

A Dafny 4.11 model of the userspace core of WatchBPF, the eBPF agent that learns what is normal on
a host, sends what is new to an LLM for scoring, and may pause or kill a process on the answer.
`dafny verify dfyconfig.toml` checks the whole project.

## What is modelled

| files | part of the agent |
|---|---|
| `Lines`, `AuditEntry`, `HashChain`, `AuditLog`, `AuditHistory`, `AuditLogger` | the hash-chained audit log: one record, the chain, the verifier, the logger object, and whole histories of restarts, writes and lost writes |
| `Policy` | the tier engine and its in-place sliding-window limiter |
| `Escalation` | the fixed-window limiter in front of the LLM |
| `Normalizer`, `Baseline` | the `\b\d+\b` normaliser, the allowlist store and its file |
| `Connect` | the CONNECT record from the kernel probe's C layout to the printed detail |
| `Pipeline`, `PipelineHistory`, `PipelineCounts`, `PipelineLimits`, `PipelineSafety`, `PipelineDecisions`, `PipelineAudit` | `handleEvent` and `processLLM` of all events at once, as a transition system |
| `Agent` | the same sections as methods of an object holding the program's globals |
| `Text`, `Utf8`, `Disk`, `Consistency` | byte strings and numerals, RFC 3629 validity, files, and functions that meet the assumed laws |

Strings are byte strings, one character per byte. Time is an integer of nanoseconds supplied to
each step that reads the clock. The two limiters read it under two mutexes, so the readings of each
are ordered and those of one are not ordered against the other's; the escalation limiter reads it up
to twice in one locked section, so each of its calls carries ordered readings.

Foreign code enters as function values, never as axioms:

* SHA-256 is an arbitrary function to 64 hexadecimal digits. No theorem assumes that it has no
  collisions; each ends in "or here are two different texts that were hashed to the same digest".
* JSON is a pair of functions of which `AuditLog.Lawful` and `Baseline.LawfulList` say what is
  used: an encoded entry is one non-empty line (section 7 of RFC 8259), and valid UTF-8 decodes to
  itself. `Consistency` exhibits functions that satisfy these laws.
* `fmt`'s `%q`, `net.IP`'s IPv6 text, timestamps, the LLM's answers and the outcome of every write
  are parameters.

A list of steps is one interleaving of the reader and LLM goroutines; a step that is not enabled
changes nothing. So a statement about `Exec(cfg, Initial(loaded, start), steps)` for all `steps` is a
statement about every interleaving.

## What turned out not to hold

* The README of the agent promises that any tampering with the audit log is detectable by
  verification. It is not, in three ways.
  * `VerifyChain` is not told where the log ends. A log cut at any line boundary still verifies
    (`AuditLog.AcceptedPrefix`), and from any such cut, even the very beginning, there is an accepted
    file that goes on with any calls whatsoever (`AuditHistory.ForgedTailVerifies`). An alteration
    passes exactly when the new records are what a logger going on from the last record kept would
    have written for some calls (`AuditHistory.AlterationPassesExactly`).
  * Someone who remembers the last hash is protected against both, up to digest collisions: it pins
    down the number of records and every hash input (`AuditLog.FilesBoundByLastHash`). It pins down
    the entries if and only if none of them holds a `|` in a text field
    (`AuditLog.LastHashPinsExactly`), because the fields are joined with `|`: an entry with one can be
    replaced by another with the same links and hashes (`AuditLog.DelimiterHidesChange`).
  * A lost write shows exactly when a later call of the same process reaches the file, unless the
    digest collides (`AuditHistory.GapIsDetected`, `AuditHistory.GapFreeHistoryVerifies`,
    `AuditHistory.GapMeaning`); a restart in between hides it
    (`AuditHistory.RestartForgetsLoss`). An agent that never opens its log leaves none, on which
    verification returns an error (`PipelineAudit.AbsentFileIsUnreadable`); so verification succeeds
    exactly when the file was there or some call opened it, and no call landed after a lost one
    (`PipelineAudit.AuditFileVerifiesExactly`). Whether a process is killed does not depend on its
    audit entry being written (`PipelineDecisions.EnforcedExactly`).
* Normalising makes every IPv4 `address:port` the same text, so one learned connection silences all
  IPv4 connections of processes with that name (`PipelineSafety.OneConnectionSilencesAll`).
* The text handed to the firewall is the destination of the connect() call if and only if the probe
  took the call for IPv4 and its second read of user memory gave the four address bytes as they are
  in the call's sockaddr (`PipelineSafety.IsolatedIsDestinationExactly`). For IPv6 it never is
  (`Connect.FirstPieceIsAddressExactly`): the detail is cut inside its brackets, or keeps them when
  the address is IPv4-mapped and printed without a colon. When the second read fails, the probe
  goes on with zeros and 0.0.0.0 is isolated (`Connect.FailedReadPrintsZero`).
* An allowlist key pins down type, process name and normalised path if and only if none of the three
  holds a `|` (`Baseline.KeyPinsExactly`). Among events of delimiter-free types, as the agent's are,
  it is ambiguous exactly when the path holds a `|`, or the name holds one with no digit-only word
  behind it (`Baseline.KeyPinsTypedExactly`); among those with names of at most 15 bytes, as a task's
  are, the `|` in the path must be so near its beginning that the name and what precedes it make such
  a name (`Baseline.KeyPinsNamedExactly`).
* The literal text `<NUM>` normalises like a numeral (`Normalizer.LiteralLooksLikeNumeral`);
  `Normalizer.NormalizeKernelExactly` says for all texts which ones normalise alike.
* The README of the agent says that protected processes and rate-limited events become Alert
  regardless of score. For a protected process, or when the action limiter has no room, the tier is
  Alert if and only if the score reaches one of the three thresholds (`Policy.AlertExactly`); with a
  score of 10 and the default thresholds it is Log (`Policy.LowScoreIsNotAlert`). An event refused by
  the escalation limiter gets no tier at all: it is recorded as `rate_limited` and nothing more
  (`PipelineDecisions.RefusedIsOnlyRecorded`).

## Model

| member | source | states |
|---|---|---|
| `HashChain.ChainBinding` | internal/audit/audit.go:110-116 | two chains that end in the same value hashed the same texts in the same order, or the hashed texts contain a collision |
| `HashChain.ChainNeverRepeats` | internal/audit/audit.go:88-93 | chain values never repeat along one chain, unless its texts contain a collision |
| `AuditEntry.HashInputText` | internal/audit/audit.go:110-113 | the hashed text is the ten values of the format string in its order, decimal PID before decimal score, with delimiters between |
| `AuditEntry.HashInputInjective` | internal/audit/audit.go:110-113 | a delimiter-free entry is the only one with its hash input, PID and negative scores included |
| `AuditEntry.DelimiterMakesTwin` | internal/audit/audit.go:110-113 | an entry with the delimiter in a caller's text shares hash input, previous hash and hash with a different entry, valid UTF-8 if it was |
| `AuditEntry.HashInputBindsExactly` | internal/audit/audit.go:110-113 | the hash input pins down an entry if and only if no text field holds the delimiter |
| `Lines.SplitLines` | internal/audit/audit.go:158-171 | no line holds a newline, and joining the lines rebuilds the data up to one final newline |
| `Lines.ScanLastRecord` | internal/audit/audit.go:49-61 | the one-pass scan ends with the last non-empty line that splitting would give |
| `AuditLog.VerifyLines` | internal/audit/audit.go:126-155 | the count is the length of the longest verified prefix of non-empty lines; the verdict is Valid exactly when that is all of them; each failure says what is wrong with the next record |
| `AuditLog.VerifyChain` | internal/audit/audit.go:119-156 | the same for a file, which is accepted exactly when every record links; an absent file is unreadable |
| `AuditLog.FirstRecordNamesGenesis` | internal/audit/audit.go:126-150 | the first record links exactly when it names the word genesis and carries its own hash |
| `AuditLog.AcceptedPrefix` | internal/audit/audit.go:125-155 | every line-boundary prefix of an accepted file is accepted |
| `AuditLog.VerifiedIsChain` | internal/audit/audit.go:129-153 | a verified file is a hash chain over its records' texts, and the verifier's last value is the chain's |
| `AuditLog.FilesBoundByLastHash` | internal/audit/audit.go:110-156 | accepted files with the same last hash have the same number of records and the same hash input at every position, or contain a collision |
| `AuditLog.EntriesBoundByLastHash` | internal/audit/audit.go:110-156 | when no entry of one holds the delimiter in a caller's text, they decode to the same entries, or contain a collision |
| `AuditLog.DelimiterHidesChange` | internal/audit/audit.go:110-156 | an accepted file with the delimiter in a text of a record can be rewritten in that record alone, into another entry, and is accepted with the same last hash and the same hash inputs |
| `AuditLog.LastHashPinsExactly` | internal/audit/audit.go:110-156 | without collisions, the last hash of an accepted file pins down its decoded entries if and only if none holds the delimiter |
| `AuditHistory.ResumeIsChainEnd` | internal/audit/audit.go:43-71 | on verified records a new logger starts from the verifier's final chain value |
| `AuditHistory.ResumeExactly` | internal/audit/audit.go:43-71 | on any file a new logger starts from the hash of the last non-empty line if that decodes and has one, and from the word genesis otherwise |
| `AuditHistory.WriteAddsBeginning` | internal/audit/audit.go:100-107 | a write adds a beginning of the line and its newline, all of it exactly when it landed whole |
| `AuditHistory.GapFreeHistoryVerifies` | internal/audit/audit.go:35-108 | after any history of starts, whole writes and lost writes in which no write lands after a loss in the same process, the only verdict is success with initial records plus landed calls as its count, once the file exists: it was there or some call opened it; else the file is unreadable |
| `AuditHistory.HistoryReadsBack` | internal/audit/audit.go:74-108 | such a file reads back as the initial records followed by the landed calls, in order and field by field |
| `AuditHistory.GapIsDetected` | internal/audit/audit.go:88-107 | after a write that lands behind a loss in the same process, the only verdict is a broken link with the records before the gap as its count, however the history goes on, unless the hashed texts contain a collision |
| `AuditHistory.GapMeaning` | internal/audit/audit.go:91-107 | the monitor counts the landed calls, sees a gap exactly when some call lands after a loss with no start in between, and reports how many calls landed before the first that did |
| `AuditHistory.RestartForgetsLoss` | internal/audit/audit.go:35-71 | a loss followed by a restart leaves a file that verifies without the lost record |
| `AuditHistory.ForgedTailVerifies` | internal/audit/audit.go:119-156 | from any line boundary of an accepted file there is an accepted file that goes on with exactly the given calls, for all valid calls |
| `AuditHistory.AlterationPassesExactly` | internal/audit/audit.go:125-155 | verified records followed by new ones verify if and only if the new ones decode to what a logger going on from there would have made of some calls |
| `AuditLogger.Logger.constructor` | internal/audit/audit.go:35-39 | a new logger is in the started state of its file; on an accepted file its hash is the verifier's final value |
| `AuditLogger.Logger.LoadLastHash` | internal/audit/audit.go:43-71 | the hash of the last record that is there and decodes, else genesis |
| `AuditLogger.Logger.Log` | internal/audit/audit.go:74-108 | file and chain value after one call, for every outcome of the write; the chain value advances in all of them |
| `AuditLogger.LogAll` | internal/audit/audit.go:35-108 | a restarted logger given any calls with whole writes keeps the file accepted, one record more per call; only without a file and without a call is there none |
| `Policy.AskRefinesHistory` | internal/policy/policy.go:98-120 | the answer from the pruned timestamps is the answer from the full history: fewer than the maximum in (now - 1 minute, now] |
| `Policy.AnswerFromHistory` | internal/policy/policy.go:98-120 | the same for the last question of any whole sequence of questions on a non-decreasing clock |
| `Policy.SlidingWindowBound` | internal/policy/policy.go:98-120 | any window (x, x + 1 minute] holds at most max(0, maximum) grants |
| `Policy.DryRunExactly` | cmd/watchbpf-agent/main.go:360 | the reason's prefix marks exactly the dry runs, whatever the process name |
| `Policy.ActionExactly` | internal/policy/policy.go:62-95 | a hard or soft action goes ahead if and only if the score is in its band, the process is unprotected, enforcement is live and the limiter grants |
| `Policy.ReasonExactly` | internal/policy/policy.go:62-95 | the reason of every ruling, word for word, from the inputs |
| `Policy.Engine.Compact` | internal/policy/policy.go:105-112 | the in-place compaction keeps exactly the timestamps after the cutoff, in order |
| `Policy.Engine.Append` | internal/policy/policy.go:118 | the timestamp is added at the end, in the buffer or a larger copy |
| `Policy.Engine.AllowAction` | internal/policy/policy.go:98-120 | timestamps and answer are those of the limiter's specification |
| `Policy.Engine.Evaluate` | internal/policy/policy.go:62-95 | decision and timestamps are those of the rule, guardrails in the source's order |
| `Escalation.EscalationLimiter.Count` | cmd/watchbpf-agent/main.go:301-308 | window and count after one pass through the locked section, and whether it is over the limit |
| `Escalation.WindowFromReadings` | cmd/watchbpf-agent/main.go:301-308 | window start and count told from the readings: the second reading of the latest pass more than a minute after the window before it, and the passes since |
| `Escalation.FixedWindowBound` | cmd/watchbpf-agent/main.go:299-317 | at most 50 escalations pass between two resets and at most 100 in any closed minute, on any non-decreasing clock |
| `Escalation.HundredPass` | cmd/watchbpf-agent/main.go:301-308 | a run attains 100 in one closed minute |
| `Normalizer.NormalizeIsReplacement` | internal/baseline/baseline.go:10-16 | the word scanner computes the leftmost non-overlapping replacement of the pattern, defined by boundary conditions |
| `Normalizer.NumberIsReplaced` | internal/baseline/baseline.go:10-16 | a number between two separators becomes the text <NUM>, the rest normalised on both sides |
| `Normalizer.ProcessesLookAlike` | internal/baseline/baseline.go:12-16 | the paths of one file of all processes are one path |
| `Normalizer.NormalizeIdempotent` | internal/baseline/baseline.go:14-16 | normalising twice is normalising once |
| `Normalizer.NormalizeKernelExactly` | internal/baseline/baseline.go:10-16 | any two texts normalise alike exactly when their words and separators agree up to digit-only words, a literal placeholder counting as one |
| `Normalizer.NormalizeKernel` | internal/baseline/baseline.go:10-16 | texts without the literal placeholder normalise alike exactly when their words and separators agree up to digit-only words |
| `Normalizer.LiteralLooksLikeNumeral` | internal/baseline/baseline.go:14-16 | the literal placeholder normalises like every numeral without being similar to one |
| `Normalizer.NormalizeSeparates` | internal/baseline/baseline.go:14-16 | the two sides of a separator are normalised independently |
| `Baseline.KeysEqualExactly` | internal/baseline/baseline.go:35-37 | with delimiter-free type and name, keys are equal exactly when type, name and normalised path are |
| `Baseline.DelimiterMakesKeyAmbiguous` | internal/baseline/baseline.go:35-37 | a delimiter in type, name or path gives the key to a different event as well |
| `Baseline.KeyPinsExactly` | internal/baseline/baseline.go:35-37 | a key pins down type, name and normalised path of every event that has it, if and only if none of the three parts holds the delimiter |
| `Baseline.KeyPinsTypedExactly` | internal/baseline/baseline.go:35-37 | the same among events of delimiter-free types: if and only if the path holds no delimiter and no delimiter of the name stands before a normalised text |
| `Baseline.KeyPinsNamedExactly` | internal/baseline/baseline.go:35-37 | the same among events of delimiter-free types with names of at most 15 bytes: if and only if no delimiter of the name stands before a normalised text and none of the path leaves room for what precedes it in the name |
| `Baseline.KeyIsValidUtf8` | internal/baseline/baseline.go:35-37 | keys of valid UTF-8 texts are valid UTF-8 |
| `Utf8.HeadExactly` | internal/baseline/baseline.go:70-73 | the texts the JSON round trips are claimed for: well-formed characters are the encodings of Unicode scalar values |
| `Baseline.SavedLoadsBack` | internal/baseline/baseline.go:61-94 | saving and loading returns the same set for every order of the keys |
| `Baseline.Store.constructor` | internal/baseline/baseline.go:26-33 | a new store knows exactly the keys in its file |
| `Baseline.Store.Load` | internal/baseline/baseline.go:78-94 | the file's keys are added; an absent or unreadable file adds none |
| `Baseline.Store.IsKnown` | internal/baseline/baseline.go:40-44 | true exactly when the event's key is known |
| `Baseline.Store.Learn` | internal/baseline/baseline.go:47-51 | adds exactly the event's key |
| `Baseline.ListKeys` | internal/baseline/baseline.go:65-68 | lists every key exactly once, in an arbitrary order |
| `Baseline.Store.Save` | internal/baseline/baseline.go:61-75 | on success the file holds exactly the known keys |
| `Connect.HandleConnect` | bpf/connect.bpf.c:25-67 | a record exactly when space is reserved and the first read gave family 2 or 10, every field at its offset in its byte order; a failed second read leaves zeros, and the two reads may differ |
| `Connect.FillHeader` | bpf/connect.bpf.c:45-47 | pid, uid and comm at their offsets, the rest untouched |
| `Connect.FillAddress` | bpf/connect.bpf.c:49-63 | address bytes as they were read, port in host byte order, family flag; zeros after a failed read |
| `Connect.ByteOrders` | bpf/connect.bpf.c:49-63 | words low byte first, the port high byte first in user memory, families 2 and 10 |
| `Connect.RecordRoundTrip` | cmd/watchbpf-agent/main.go:252-266 | reading the written record returns pid, uid, comm, address, and as port 256 times the third address byte plus the fourth |
| `Connect.CstrExactly` | cmd/watchbpf-agent/main.go:394-400 | the text of a name is its bytes up to the first zero byte, at most 15 for a name that ends in one |
| `Connect.IPv4DetailRoundTrip` | cmd/watchbpf-agent/main.go:257-266 | the printed IPv4 detail is the four address bytes in decimal with dots, a colon and the port, high byte first, as the probe read them; its first piece at the colon is the dotted quad |
| `Connect.IPv4DetailIsCallExactly` | cmd/watchbpf-agent/main.go:257-266 | that piece is the address in the call's sockaddr if and only if those four bytes were recorded as they are there |
| `Connect.IPv6DetailRoundTrip` | cmd/watchbpf-agent/main.go:257-266 | the printed IPv6 detail is the sixteen address bytes in brackets, a colon and the port |
| `Connect.FailedReadPrintsZero` | bpf/connect.bpf.c:49-55 | after a failed second read the record of an IPv4 call prints 0.0.0.0:0 |
| `Connect.FirstPieceIsAddressExactly` | cmd/watchbpf-agent/main.go:373 | the text before the first colon of the detail is the destination address if and only if the connection is not IPv6, however IPv6 is rendered |
| `Connect.IPv4DetailsCollapse` | internal/baseline/baseline.go:14-16 | all IPv4 details normalise to one text |
| `Connect.IPv4DestinationsShareKey` | internal/baseline/baseline.go:35-37 | all IPv4 destinations of a process name have one key |
| `Pipeline.GuardsExactly` | cmd/watchbpf-agent/main.go:73-77 | the self guard, the answer check, the pid guard and the key of an event, with the source's own names and numbers |
| `Pipeline.EnabledExactly` | cmd/watchbpf-agent/main.go:274-392 | which phase, clock reading and free slot each step takes |
| `Pipeline.SlotsHoldArrivals` | cmd/watchbpf-agent/main.go:274-279 | in every interleaving the slots hold the events that arrived, in order and unchanged |
| `PipelineHistory.TrailsHold` | cmd/watchbpf-agent/main.go:274-392 | in every interleaving each event has been seen doing exactly what its phase says, in order |
| `PipelineHistory.SaneHolds` | cmd/watchbpf-agent/main.go:274-392 | in every interleaving each phase is sound: exclusion, mode, novelty, validated score, justified decision; and the store agrees with the events |
| `PipelineCounts.EventsConserved` | cmd/watchbpf-agent/main.go:296-357 | at most 3 events inside processLLM; escalated = limiting + rate-limited + waiting + inside + failed + decided; audit calls = rate-limited + decided once no event is mid-step |
| `PipelineLimits.RatesBounded` | cmd/watchbpf-agent/main.go:299-317 | in the trace of every interleaving at most 50 escalations pass between two resets, at most 100 in any closed minute, and grants keep the sliding-window bound |
| `PipelineLimits.AnsweredHolds` | internal/policy/policy.go:98-120 | in every interleaving the action limiter grants exactly when the trace has fewer than the maximum of grants in the minute up to the question |
| `PipelineLimits.SignalsPerMinuteBounded` | internal/policy/policy.go:87-119 | at most max(0, maximum) events are signalled on grants from any one minute |
| `PipelineSafety.SignalsAreJustified` | cmd/watchbpf-agent/main.go:333-392 | a signal goes only to an event's own process, unprotected, not named ollama, llama-server or watchbpf-agent, pid not 0, 1 or the agent, in live mode, in the right score band, and its history is exactly escalated, admitted, slot, scored, one grant, handed to the audit log |
| `PipelineSafety.AtMostOneSignal` | cmd/watchbpf-agent/main.go:362-391 | no event is signalled twice |
| `PipelineSafety.ExcludedExactly` | cmd/watchbpf-agent/main.go:274-279 | in every interleaving an event is excluded if and only if its pid is the agent's or its name is ollama, llama-server or watchbpf-agent, and then nothing is seen of it |
| `PipelineSafety.IsolationsAreJustified` | cmd/watchbpf-agent/main.go:372-379 | an address is isolated only for a CONNECT event in the hard tier under the same conditions, and it is the detail's first piece |
| `PipelineSafety.IsolatedIsDestinationExactly` | cmd/watchbpf-agent/main.go:372-379 | what is isolated for a connect() call is its destination if and only if the probe took it for IPv4 and read the four address bytes as they are in the call's sockaddr |
| `PipelineDecisions.TierExactly` | internal/policy/policy.go:62-95 | in every interleaving a decision's tier is the score's, except that an action is lowered to Alert exactly for a protected process and for an event that asked when the last minute's grants were used up |
| `PipelineDecisions.EnforcedExactly` | cmd/watchbpf-agent/main.go:359-391 | in every interleaving an event that was acted on got its process killed, or paused, if and only if the score calls for it, enforcement is live, the name is unprotected, the pid may be signalled and it did not ask in vain |
| `PipelineDecisions.IsolatedExactly` | cmd/watchbpf-agent/main.go:372-379 | in every interleaving an event that was acted on got an address isolated if and only if it is a CONNECT event, the score is at or above hard, enforcement is live, the name is unprotected and it did not ask in vain, whatever the pid; the address is the detail's first piece |
| `PipelineDecisions.ScoredIsEnforcedExactly` | cmd/watchbpf-agent/main.go:349-391 | from every reachable state a scored event can be acted on at any later reading, and is then enforced exactly when the policy calls for it and there is room |
| `PipelineDecisions.RefusedIsOnlyRecorded` | cmd/watchbpf-agent/main.go:310-317 | an event refused by the escalation limiter is recorded with its own fields, the score -1 and the tier rate_limited, which is no tier's name, and nothing else is seen of it |
| `PipelineSafety.KnownIsLoadedPlusLearned` | cmd/watchbpf-agent/main.go:281-289 | the known set is the loaded keys plus the learned events' keys, in every interleaving |
| `PipelineSafety.LoadedNeverEscalates` | cmd/watchbpf-agent/main.go:291-297 | an event whose key was loaded is never escalated |
| `PipelineSafety.FilterKnowsExactly` | cmd/watchbpf-agent/main.go:291-297 | an event a filter run has looked up is let go exactly when its key was loaded and escalated exactly when it was not |
| `PipelineSafety.LearnThenFilter` | cmd/watchbpf-agent/main.go:281-294 | what a learn phase dealt with and saved, and anything like it up to digit-only words and literal placeholders, is never escalated by a filter phase on that file |
| `PipelineSafety.LearnThenFilterSimilar` | internal/baseline/baseline.go:12-16 | the same for paths that differ only in digit-only words |
| `PipelineSafety.LearnedExactly` | cmd/watchbpf-agent/main.go:281-294 | with delimiter-free types and names, a filter phase lets go exactly the events whose key was there before and those like one the learn phase dealt with |
| `PipelineSafety.OneConnectionSilencesAll` | cmd/watchbpf-agent/main.go:281-294 | one learned IPv4 connection silences all IPv4 connections of that process name |
| `PipelineAudit.CallsAreSeen` | cmd/watchbpf-agent/main.go:313-357 | in every interleaving the audit logger's calls are those the events were seen making, in order |
| `PipelineAudit.LoggedExactly` | cmd/watchbpf-agent/main.go:310-357 | an audit call is seen of an event if and only if it is rate-limited or decided, and the call has its type, name, detail and pid with the decision's score, tier name and reason, or -1 and rate_limited |
| `PipelineAudit.EventIsOnRecord` | cmd/watchbpf-agent/main.go:313-357 | while no call lands after a lost one, every event whose audit write landed has a record in the file that decodes to its fields and to what became of it |
| `PipelineAudit.AuditFileReadsBack` | internal/audit/audit.go:74-108 | while no audit call lands after a lost one, the file reads back as the initial records and every landed call, and the only verdict is success, once the file exists |
| `PipelineAudit.AuditGapIsReported` | internal/audit/audit.go:138-140 | once a call has landed behind a lost one, verification reports a broken link, counting the records before the first such call |
| `PipelineAudit.AuditFileVerifiesExactly` | cmd/watchbpf-agent/main.go:313-357 | after any interleaving with any lost writes verification succeeds if and only if the file was there or some call opened it, and no call landed after a lost one, unless the digest collides; once no event is mid-step there was one call per rate-limited and decided event |
| `PipelineAudit.AbsentFileIsUnreadable` | internal/audit/audit.go:119-123 | without a file at the start and a call that opens it, verification returns an error |
| `Agent.Agent.constructor` | cmd/watchbpf-agent/main.go:66-88 | the globals start in the system's initial state, the audit logger resumed on its file |
| `Agent.Agent.HandleEvent` | cmd/watchbpf-agent/main.go:274-279 | the system's arrival step |
| `Agent.Agent.LookupEvent` | cmd/watchbpf-agent/main.go:281-294 | the system's lookup step |
| `Agent.Agent.LearnEvent` | cmd/watchbpf-agent/main.go:283-288 | the system's learning step |
| `Agent.Agent.CountEscalation` | cmd/watchbpf-agent/main.go:296-297 | the system's escalation step |
| `Agent.Agent.LimitEscalation` | cmd/watchbpf-agent/main.go:301-310 | the system's limiter step |
| `Agent.Agent.Audit` | cmd/watchbpf-agent/main.go:313-357 | a call of the audit logger takes the log to where this call leads, for every outcome of the write |
| `Agent.Agent.RecordRefusal` | cmd/watchbpf-agent/main.go:310-317 | the system's step for a rate-limited event, its entry handed to the logger |
| `Agent.Agent.AcquireSlot` | cmd/watchbpf-agent/main.go:326-329 | the system's semaphore step |
| `Agent.Agent.ReceiveAnswer` | internal/llm/ollama.go:86-107 | the system's answer step: anything but a score in 0..100 with a known action is an error |
| `Agent.Agent.EvaluateEvent` | cmd/watchbpf-agent/main.go:349-351 | the system's decision step |
| `Agent.Agent.RecordDecision` | cmd/watchbpf-agent/main.go:353-357 | the system's audit step, its entry handed to the logger; a failed write is reported and nothing more |
| `Agent.Agent.Perform` | cmd/watchbpf-agent/main.go:359-391 | the signals and isolations of a decision |
| `Agent.Agent.TakeAction` | cmd/watchbpf-agent/main.go:359-391 | the system's action step |
| `Agent.Agent.ReleaseSlot` | cmd/watchbpf-agent/main.go:326-330 | the system's release step |
| `Agent.Agent.Take` | cmd/watchbpf-agent/main.go:274-392 | any enabled step of the system, by the method that takes it |
| `Agent.Run` | cmd/watchbpf-agent/main.go:190-330 | a run of the agent from its start is the system's run of the same steps |
| `Agent.RunAndVerify` | internal/audit/audit.go:119-156 | after any run of the agent, verification of its audit file succeeds exactly when the audit theorem says so |

## Left out

- Loading and attaching the eBPF programs, ring-buffer reads, signal handling, the save ticker and flag parsing: library and kernel plumbing.
- The HTTP clients, prompts, configuration file and the internals of JSON, YAML and SHA-256: foreign code, entering as parameters.
- EXEC and OPEN record decoding: packed layouts whose fields need no padding, byte order or address text.
- Texts that are not valid UTF-8 in audit records and keys: the JSON encoder replaces the bad bytes, so the round trips do not hold for them.
- AuditHistory.GapFreeHistoryVerifies: excludes writes that land in part, because the next record would then continue a torn line; `AuditLogger.Logger.Log` models them.
- AuditHistory.GapIsDetected: excludes writes that land in part, for the same reason.
- PipelineAudit.AuditFileVerifiesExactly: excludes writes that land in part, for the same reason.
- Normalizer.NormalizeKernel: excludes texts holding the literal placeholder, because it normalises like a numeral; `Normalizer.NormalizeKernelExactly` covers them.
- Baseline.KeysEqualExactly: excludes a delimiter in type or name, because keys are then ambiguous; `Baseline.KeyPinsExactly` says exactly when.
- The effect of `kill` and `nft` beyond the pid guard, and the time between a grant and its signal: the bounds are about decision times.
- Go's counter width: `escalationCount` and the metrics are unbounded here; they would need 2^63 events in one window to wrap.
- A nil `auditLogger` or `llmClient`: neither occurs in filter mode, since `NewLogger` never fails and a client is always chosen.
- The engine's mutex and the store's read-write lock appear only as the atomicity of the steps.
