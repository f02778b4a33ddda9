# ratelimit in Dafny

A model of the core of the Go package `ratelimit`, a per-key request limiter
driven by a policy text such as `1r/s,spam:2,block:15d`:

- **Policy parser** (`pattern_parser.dfy`). `parse` splits the text on commas.
  It reads the rate segment `<count>r/<unit>`. It then applies the `spam:<n>`
  and `block:<n><unit>` modifiers left to right, updating the options in place
  and returning the first error. `getDuration` turns a block value into a
  duration. The Go library calls it relies on are modelled in
  `go_strings.dfy`: `strings.Split`, `strings.ToLower` and `strconv.Atoi` with
  its error discarded.
- **Limiter** (`rate_limit.dfy`). `CreateLimit` parses the policy and builds
  a `Limit`. `Limit.Hit` admits a key while its hit count is below
  `MaxRequests` and raises the count (`RateLimit.Hit`). Otherwise it reports the
  count and drives the escalation:
  - the spammer counts one more offense;
  - the blocker takes the key once its offense count reaches `MaxSpam`.

  `Limit` is a class with those fields, and `Hit` updates them in place. It is
  proved against the pure function `Admit` on a `Tracker` value. The lemmas
  about `Admit` state what the limiter guarantees.
- **Cleaner** (`cleaner.dfy`). The job that `RunLimitCleaner` schedules once
  per interval drains every record: a count above the allowance loses the
  allowance, and any other positive count becomes 0. `Sweep` is that job as a
  loop over the table, proved against the function `DecayAll`.
- **Scenarios** (`scenarios.dfy`). These drive the imperative operations
  through the repository's own test sequences: a rejection after the
  allowance, then admission again after the interval.

Durations are whole seconds: s = 1, m = 60, h = 3600, d = 86400. The parser
checks `Max` for being at least 1 before cutting it to 32 bits. So a count
that is a multiple of 2^32 (and below 2^63, beyond which Go's `Atoi`
saturates; see `GoStrings.Atoi` under "Left out") is accepted with an
allowance of 0, and every check is then rejected
(`PatternParser.RateCountWraps`). Because `Hit` never raises
a count above `MaxRequests`, a limiter that starts empty never holds a count
above its allowance (`RateLimit.AdmitKeepsConsistent`). The cleaner's
"above the allowance" branch is therefore reached only by a limiter whose
table was filled some other way. `Cleaner.Sweep` keeps that branch and does
not require the invariant.

Two inputs make the Go parser fail with an out-of-range index rather than
return an error:
- a rate segment with no `r/` whose count reads 1 or more (a count below 1
  is reported as an invalid maximum first);
- an empty block value (`block:`).

The model gives them the error values `RateUnitMissing` and
`BlockValueEmpty`.

The Go source assigns `op.Max` (a `uint32`) to `Limit.MaxRequests` (an
`int`) without a conversion. The model treats both as natural numbers.

## Model

| member | source | states |
|---|---|---|
| GoStrings.Split | pattern_parser.go:20 | `strings.Split` always returns at least one piece; `JoinSplit`, `SplitJoin`, `SplitPrefix`, `SplitAbsent`, `SplitPairPrefix`, `SplitPieces` and `SplitCount` state where it cuts |
| GoStrings.JoinSplit | pattern_parser.go:20 | joining the pieces of `strings.Split` with the separator gives back the original text, so splitting loses nothing |
| GoStrings.SplitPrefix | pattern_parser.go:22 | a piece that does not hold the separator's first character is cut off exactly at the separator after it |
| GoStrings.SplitWhole | pattern_parser.go:22 | text that does not hold the separator's first character is a single piece |
| GoStrings.SplitAbsent | pattern_parser.go:22 | text in which the separator does not occur is a single piece |
| GoStrings.SplitPairPrefix | pattern_parser.go:22 | with a separator of two different characters such as `r/`, a count in which `r/` does not occur is cut off exactly at the `r/` that follows it, even if it holds an `r` |
| GoStrings.SplitPieces | pattern_parser.go:22-29 | more than one piece means the separator occurs in the text |
| GoStrings.SplitJoin | pattern_parser.go:20 | splitting a comma-joined list gives back its parts when no part holds a comma |
| GoStrings.SplitCount | pattern_parser.go:48-49 | splitting on ':' gives one more piece than the text has colons |
| GoStrings.ToLower | pattern_parser.go:31 | lowering keeps the length; `LowerLetter` states which units lower to s, m, h, d |
| GoStrings.LowerLetter | pattern_parser.go:31 | a one-character unit lowers to a given letter exactly when it is that letter in either case |
| GoStrings.Atoi | pattern_parser.go:24 | only text starting with '-' reads as a negative number; `AtoiDecimal` and `AtoiNonNumeric` state the values read |
| GoStrings.AtoiDecimal | pattern_parser.go:24 | `Atoi` with the error ignored reads back every signed decimal number |
| GoStrings.AtoiNonNumeric | pattern_parser.go:24 | text holding a character that is neither a digit nor a leading sign reads as 0 |
| PatternParser.Uint32 | pattern_parser.go:44 | the `uint32` conversion is below 2^32 and keeps every value already in range |
| PatternParser.GetDuration | pattern_parser.go:77-90 | the result is the count times one of s, m, h, d, and any unit other than d, h, m counts seconds; `DurationScales` and `BlockUnitsMatchRateUnits` relate it to the rate units |
| PatternParser.ParseRate | pattern_parser.go:22-45 | an accepted segment holds `r/`, has one of the four intervals, a `Max` below 2^32, and spam and block off; the `Rate*` lemmas state each accepted and rejected form |
| PatternParser.ApplyModifier | pattern_parser.go:48-72 | an accepted modifier keeps `Max` and `Per` and keeps `MaxToSpam` below 2^32; the `Modifier*` lemmas state each accepted and rejected form |
| PatternParser.ApplyModifiers | pattern_parser.go:47-73 | an accepted modifier list never changes `Max` or `Per` and keeps `MaxToSpam` below 2^32; `ModifiersCompose`, `FirstErrorWins` and `LastModifierDecidesBlock` state the order |
| PatternParser.Parsed | pattern_parser.go:17-75 | every accepted policy has one of the four intervals and `Max` and `MaxToSpam` below 2^32; `ParsedParts` splits it into rate segment and modifiers |
| PatternParser.DurationScales | pattern_parser.go:77-90 | a duration is the count times one unit's length; the unit is one of s, m, h, d; any unit other than d, h, m counts seconds |
| PatternParser.Parse | pattern_parser.go:17-75 | the in-place loop returns exactly what the specification `Parsed` gives: the rate segment, then the modifiers left to right, stopping at the first error |
| PatternParser.RateAccepted | pattern_parser.go:22-45 | `<n>r/<u>` with n >= 1 and u one of s, m, h, d in either case is accepted; `Max` is n cut to 32 bits, `Per` is the unit's length, spam and block are off |
| PatternParser.RateInvalidMax | pattern_parser.go:24-27 | a count without `r/` in it that reads below 1, including non-numeric text read as 0, is rejected with the value read, whatever follows the first `r/` |
| PatternParser.RateInvalidUnit | pattern_parser.go:29-42 | after a valid count, a unit without `r/` in it that does not lower to s, m, h or d is rejected, reported as written |
| PatternParser.RateWithoutSeparator | pattern_parser.go:22-29 | a segment without `r/` whose count reads 1 or more has no unit to read, an error |
| PatternParser.RateCountWraps | pattern_parser.go:24-44 | a count that is a multiple of 2^32 passes the "at least 1" check and yields an allowance of 0 |
| PatternParser.BlockUnitsMatchRateUnits | pattern_parser.go:77-90 | `getDuration` gives each of s, m, h, d the same length the rate segment gives it |
| PatternParser.ModifierMalformed | pattern_parser.go:48-51 | a modifier is rejected as unparsable exactly when it does not hold exactly one ':' |
| PatternParser.ModifierUnsupported | pattern_parser.go:52-54 | a modifier named neither spam nor block is rejected by name |
| PatternParser.ModifierSpam | pattern_parser.go:55-72 | `spam:<v>` is rejected with the value read when that value is below 1; otherwise it sets `MaxToSpam` (cut to 32 bits) and resets `Block` to 0, leaving `Max` and `Per` alone |
| PatternParser.ModifierBlock | pattern_parser.go:62-69 | `block:<v>` with an empty v is an error; a last character other than lower-case d, h, m, s is rejected and reported; otherwise `Block` becomes the count times that unit and nothing else changes |
| PatternParser.ModifierBlockIgnoresState | pattern_parser.go:55-72 | whether a modifier succeeds, and the `Block` it leaves, do not depend on the options it is applied to |
| PatternParser.ModifiersCompose | pattern_parser.go:47-73 | the modifier list runs left to right: a prefix's result feeds the rest, and a prefix's error is the whole result |
| PatternParser.LastModifierDecidesBlock | pattern_parser.go:62-72 | after all modifiers succeed, `Block` is what the last modifier alone gives |
| PatternParser.FirstErrorWins | pattern_parser.go:47-73 | the first failing modifier's error is the result, whatever follows it |
| PatternParser.ParsedParts | pattern_parser.go:17-47 | a policy is its rate segment and its modifiers joined by commas; a rate error is final, otherwise the modifiers are applied to the rate's options |
| PatternParser.ParsedRateOnly | parser_pattern_test.go:10-32 | a bare rate `<n>r/<u>` is accepted with `Max` n cut to 32 bits, `Per` the unit's length, and spam and block off |
| PatternParser.SpamValue | pattern_parser.go:55-61 | `spam:<n>` with n >= 1 sets `MaxToSpam` to n cut to 32 bits and `Block` to 0 |
| PatternParser.BlockValue | parser_pattern_test.go:68-77 | `block:<n><c>` with c one of d, h, m, s sets `Block` to n times that unit |
| PatternParser.ParsedTwoModifiers | pattern_parser.go:17-74 | a rate segment and two accepted modifiers parse to the options the second modifier leaves |
| PatternParser.RatePerSecond | parser_pattern_test.go:10-14 | `<n>r/s` gives `Max` n cut to 32 bits and `Per` one second |
| PatternParser.PolicySpamThenBlock | parser_pattern_test.go:34-42 | `<n>r/s,spam:<k>,block:<d>d` sets all four fields: n cut to 32 bits, one second, d days, k cut to 32 bits |
| PatternParser.PolicyBlockThenSpam | pattern_parser.go:55-72 | in `<n>r/s,block:<d>d,spam:<k>` the later spam modifier turns blocking off again |
| PatternParser.PolicyBadCount | rate_limit_test.go:12-20 | `1t/s` is rejected because its count reads as 0 |
| PatternParser.PolicyBadUnit | rate_limit_test.go:22-30 | `1r/q` is rejected, reporting the unit `q` |
| PatternParser.PolicyLongUnit | pattern_parser.go:29-41 | `1r/hour` is rejected, reporting the whole unit `hour`, although it holds an `r` |
| PatternParser.PolicyCountWithR | pattern_parser.go:22-27 | `1rr/s` is cut at its first `r/`; its count `1r` reads as 0 and is rejected as an invalid maximum |
| RateLimit.Escalate | rate_limit.go:71-79 | a rejection's escalation leaves the counts alone, raises the key's offense count by one or not at all, and adds at most the key to the blocked set, and only once its offense count has reached `MaxSpam` |
| RateLimit.Admit | rate_limit.go:63-87 | a check is admitted exactly when the key's count is below `MaxRequests`, and the key has a record afterwards |
| RateLimit.AdmitKeepsConsistent | rate_limit.go:63-87 | a check keeps every count within the allowance, keeps collaborator state only for keys seen and only for collaborators that exist, and blocks a key only once its offense count reaches `MaxSpam` |
| RateLimit.AdmitOnlyTouchesKey | rate_limit.go:63-87 | a check on one key leaves every other key's count, offense count and blocked status as they were |
| RateLimit.AdmitOutcome | rate_limit.go:70-86 | admission raises the count by exactly one and leaves the collaborators alone; rejection reports the current count and keeps it |
| RateLimit.RejectionEscalates | rate_limit.go:71-79 | on a rejection the offense count goes up by one exactly when the spammer exists; the key is blocked afterwards exactly when it already was, or both collaborators exist and the new offense count has reached `MaxSpam` |
| RateLimit.BlockIdempotent | rate_limit.go:75-79 | adding a key the blocker already holds changes nothing |
| RateLimit.BurstAdmitted | rate_limit.go:84-91 | while the allowance lasts every check is admitted, each adds one hit, and the collaborators are untouched |
| RateLimit.FreshKeyBurst | rate_limit_test.go:67-84 | from a key with no hits, `MaxRequests` checks are admitted and the next is rejected reporting `MaxRequests` |
| RateLimit.EscalationScenario | rate_limit.go:71-79 | with one request allowed, spam threshold 2 and blocking on: admitted, rejected, rejected; the key is blocked after the second rejection and not before, and a further rejection leaves the blocked set unchanged |
| RateLimit.Limit.constructor | rate_limit.go:34-52 | a new limiter carries the options' values, has no records, and has a spammer exactly when `MaxSpam` is not 0 and a blocker exactly when `Block` is not 0 |
| RateLimit.Limit.Hit | rate_limit.go:63-91 | the in-place check changes the table and the collaborators exactly as `Admit` does and returns its result, keeping the limiter's invariant |
| RateLimit.CreateLimit | rate_limit.go:28-55 | fails exactly when the policy does not parse, with the parser's error; otherwise returns a new valid limiter with the parsed values and no records |
| Cleaner.Decayed | cleaner.go:18-22 | a drained count is never larger, and is 0 exactly when the count was within the allowance |
| Cleaner.DecayAll | cleaner.go:14-24 | a sweep keeps every key, never raises a count, and zeroes exactly the counts within the allowance |
| Cleaner.DecayedIsClampedSubtraction | cleaner.go:18-22 | the three branches of the drain compute max(0, hits - MaxRequests), so a count never grows |
| Cleaner.DecayAllPerRecord | cleaner.go:14-24 | a sweep keeps every key, never raises a count, and gives each key a count that depends only on its own old count |
| Cleaner.DecayClearsBounded | cleaner.go:18-22 | counts within the allowance are all 0 after one sweep |
| Cleaner.DecayKeepsConsistent | cleaner.go:14-24 | a sweep keeps the limiter's invariant |
| Cleaner.Sweep | cleaner.go:13-25 | the in-place loop leaves every record drained as `DecayAll` says, leaves the collaborators alone, and keeps a valid limiter valid |
| Cleaner.SweepReadmits | cleaner.go:18-22 | after a sweep, with an allowance of at least one, the next check on a key whose count was within the allowance is admitted and leaves it with one hit |
| Cleaner.BurstSweepBurst | rate_limit_test.go:86-103 | a fresh key's full allowance is admitted, the next check is rejected, and after a sweep the key is admitted again with one hit |
| Cleaner.RepeatKeepsConsistent | rate_limit.go:63-87 | any number of checks in a row keep the limiter's invariant |
| Scenarios.OnePerSecond | rate_limit_test.go:86-103 | on a limiter built from `1r/s`: admitted, rejected reporting 1, a sweep, admitted again with one hit |
| Scenarios.HitRepeatedly | rate_limit_test.go:105-115 | checks in a row within the allowance are all admitted, each adding one hit, and keep the limiter valid |
| Scenarios.ThreePerMinute | rate_limit_test.go:105-126 | on a limiter built from `3r/m`: three checks admitted and three hits held; after a sweep the next check is admitted with one hit |

## Left out

- Scheduling: `RunLimitCleaner` registers the drain with the `gocron` scheduler every `Per` and starts it; the model runs the drain as an explicit `Cleaner.Sweep` call, and the scheduler's failure path (a panic) is not modelled.
- Concurrency: the global mutex and the interleaving of `Hit` with the cleaning goroutine are not modelled; every operation is atomic.
- Logging: the warning `Hit` logs and `log.Fatal` in `CreateLimit` have no counterpart.
- Time: `RateLimit.ExpiredAt` (set from `time.Now` in `createKey`, never read by the core) is not modelled; durations are whole seconds rather than `time.Duration` nanoseconds, so their 64-bit overflow is not modelled.
- RateLimit.Limit.Hit: the source returns a formatted error text naming the key and the count; the model returns `Rejected(count)`, which carries the same count but not the text.
- RateLimit.Limit.Hit: per-key records are values in a map rather than shared `*RateLimit` pointers, so aliasing of a record outside the table is not modelled.
- Spammer and blocker: only what `Hit` relies on is modelled, an offense count per key and a set of blocked keys; their own files, including the block duration and expiry, are not part of this model.
- PatternParser.Parse: on an error the source also returns the partly filled `Options`; the model returns the error alone, and the error texts are error values.
- RateLimit.CreateLimit: the source panics on a policy that does not parse; the model returns the parser's error instead.
- GoStrings.Atoi: Go's saturation of out-of-range values to the 64-bit limits with a range error is not modelled; numbers are unbounded.
- GoStrings.ToLower: only ASCII letters are lowered; no other character lowers to s, m, h or d, so the unit decision is unaffected.
- PatternParser.ApplyModifier: Go slices the block value by bytes; the model slices it by characters, which differ only when the last character is not ASCII.
