# ssh_stress: verified model of the load-test core

`ssh_stress.py` load-tests an SSH server. It opens many SFTP or SSH
connections at a configured rate and keeps at most `max_concurrent_tasks`
of them outstanding. It repeats this for a number of rounds and reduces the
measured authentication and connection times to per-round statistics.
This project models the sequential logic of that tool in Dafny and proves
what it promises.

* **Admission-control loop** (`SSHstress._hammer`): `Stress.StressTester.Hammer`
  runs `AdmissionLoop`, a `while` loop over the launch counter `count`, the outstanding attempts
  `tasks` (a map from id to the arguments the attempt was launched with) and
  the result map `perf_times`.
  * Each iteration (`Pass`) reaps completed attempts (`Reap`), then refills
    (`Refill`).
  * The asyncio scheduler is a parameter, `completes`. From the number of
    attempts launched and the ids outstanding it gives the ids the wait
    reports as done, which must be a non-empty subset (`Scheduler`). No
    state of a round occurs twice (`AdmissionStatesDistinct`), so every
    completion order is given by some such function. Every property below
    holds for every scheduler.
  * What an attempt reports is an abstract function from its launch
    arguments to an `Outcome`.
  * The pacing sleeps and the admission trace are ghost outputs, so the
    contract can speak about them. The trace lists, after each wait and
    each launch, how many attempts have been launched and which ids are
    still outstanding.
  * The trace is the specification function `AdmissionTrace` of the
    scheduler, the connection count and the ceiling. It runs the loop on
    ids alone: `Reaped` for the wait, `RefillTo` and `Opened` for the
    refill, and `Rest` for the states still to come. `Reap` and
    `Replenish` record exactly the states the loop passes through, and the
    loop keeps `trace + Rest(count, tasks.Keys) == AdmissionTrace(...)` as
    an invariant.
  * `AdmissionTraceIsRun` proves that this trace is an admission run
    (`AdmissionRun`) within the ceiling that ends with everything launched
    and nothing outstanding.
* **Round runner with the user cycle** (`stress_sftp`, `stress_ssh`,
  `itertools.cycle` in `__init__`): `Stress.StressTester` owns the cycle.
  * The cycle is a `cursor` field, together with a ghost count `drawn` of
    users handed out over the object's life.
  * `PlayRounds` runs the rounds. It re-keys each round in ascending id
    order (`Ordering.ByAscendingId`) and files it as `round_<n>`
    (`RoundNames.RoundName`).
  * `RunRounds`, `StressSftp` and `StressSsh` then reduce the rounds to a
    report.
* **Statistics** (`_calculate_stats`): `Stats.CalculateStats` and
  `Stats.SummarizeRound` are the accumulator loops. They are proved against
  the specification functions `Successes`, `Failures`, `Total`, `Peak`,
  `Least` and `Average`.
  * The `float('inf')` that a minimum starts from is the explicit
    `Bound.Infinity`.
* **User list parsing** (`validate_names`): `Names.ValidateNames`, built on
  `Split` (Python's `str.split(",")`) and `NonBlank`. Blankness follows
  `str.strip()`, using the full set of characters Python's `str.isspace`
  accepts.

An attempt's record (`Records.Record`) carries its id and an `Outcome`. The
outcome is either `Succeeded(authTime, connTime, results)` or
`Failed(error)`. The two timing fields therefore exist exactly when the
attempt succeeded, as in the two dictionary shapes `_sftp` and `_ssh`
return.

Two errors escape a run. Both are modelled as `Failure` results:
* `DivisionByZero`: `1/conns_per_sec` with a zero rate.
* `UserCycleExhausted`: `next` on a cycle over an empty user list. Inside
  the coroutine Python turns this `StopIteration` into a `RuntimeError`.

A failing round ends the whole run, as the exception does in the source.

## Model

| member | source | states |
|---|---|---|
| Records.Ids | ssh_stress.py:277-296 | the ids a round of n connections launches are exactly 1..n (none when n < 1) |
| Stress.StressTester.constructor | ssh_stress.py:85-109 | the cycle starts at the first user of the list it was given, with nothing drawn yet, and the concurrency ceiling is the one given |
| Stress.StressTester.NextUser | ssh_stress.py:103 | `next(self.user)`: after k draws over the object's life the user handed out is `users[k mod |users|]` and the draw count advances by one; on an empty list it is the exhausted-cycle error and nothing advances |
| Stress.CyclePos | ssh_stress.py:103 | where the cycle stands after k draws is always a valid index of the user list |
| Stress.CyclePosStep | ssh_stress.py:103 | one draw moves the cycle one place on, wrapping to the first user after the last |
| Stress.CyclePosIsModulo | ssh_stress.py:103 | after k draws the cycle stands at k modulo the number of users |
| Stress.StressTester.Dealt | ssh_stress.py:287-292 | a round launches exactly count calls |
| Stress.StressTester.DealtAt | ssh_stress.py:287-292 | launch j (from 0) gets id j + 1, so ids are issued once each in increasing order, and it gets the user handed out j draws after the round began |
| Stress.Pauses | ssh_stress.py:294-295 | n launches are followed by exactly n pacing sleeps |
| Stress.PausesAt | ssh_stress.py:271-295 | every pacing sleep lasts `1/conns_per_sec` |
| Stress.FiledAt | ssh_stress.py:283-285 | once all launched attempts are filed, the result map has a key for each id 1..count and for no other, and each key holds the record of the attempt launched with that id |
| Stress.FileResults | ssh_stress.py:283-285 | filing the completed attempts adds exactly their ids to the result map, each with that attempt's record, and leaves the earlier entries as they were |
| Stress.ReapShrinks | ssh_stress.py:282 | completing a non-empty set of outstanding attempts strictly lowers the number outstanding |
| Stress.StressTester.Reap | ssh_stress.py:281-285 | with nothing outstanding nothing changes; otherwise the outstanding ids lose exactly what the scheduler reports done, a strict subset remains, and the completed records are filed with the bookkeeping invariant kept; the trace gains exactly the state the wait leaves, and nothing when there was no wait |
| Stress.WaitAdmitted | ssh_stress.py:282 | completing a non-empty subset of the outstanding attempts is an admission step |
| Stress.StressTester.Pass | ssh_stress.py:280-295 | one iteration of the loop keeps the bookkeeping invariant and the ceiling, keeps the trace recorded so far followed by the states still to come equal to the round's AdmissionTrace, and strictly lowers 2 * (conns - count) + outstanding; an exhausted cycle is reported only at the start of a round, with the trace holding only the start state |
| Stress.StressTester.ReapKeepsInFlight | ssh_stress.py:281-285 | moving completed attempts from the outstanding set into the result map keeps the two disjoint, keeps their union equal to 1..count, and keeps every filed record equal to what its attempt returned |
| Stress.StressTester.LaunchKeepsInFlight | ssh_stress.py:287-292 | launching attempt count + 1 with the next user adds an id that was neither outstanding nor filed, and keeps the bookkeeping invariant |
| Stress.StressTester.LaunchesKeepInFlight | ssh_stress.py:287-295 | a run of launches keeps the invariant, and each launch adds exactly one outstanding attempt |
| Stress.StressTester.Refill | ssh_stress.py:287-295 | launches the next ids with the next users of the cycle and one pacing sleep each, never exceeding the ceiling, until conns are launched or the ceiling is reached; an empty user list is reported before anything is launched |
| Stress.StressTester.LaunchedKeys | ssh_stress.py:287-292 | the ids outstanding after a run of launches are those outstanding before plus the newly issued ids |
| Stress.StressTester.Replenish | ssh_stress.py:287-295 | the refill step keeps the bookkeeping invariant and the ceiling, adds exactly one outstanding attempt per launch, launches at least one when nothing was outstanding and launches remain, stops at the launch count RefillTo gives, leaves the ids before plus the new ones outstanding, and extends the trace by exactly `Launches`, one state per launch; an empty user list is reported with nothing launched and the trace unchanged |
| Stress.RefillTo | ssh_stress.py:287 | the refill stops at a launch count no lower than where it started; when it launches, it passes neither conns nor the ceiling; it stops only when conns are launched or the ceiling is reached |
| Stress.RefillToStops | ssh_stress.py:287-295 | any launch count that passed neither conns nor the ceiling on the way, and at which the refill condition fails, is the one RefillTo gives |
| Stress.LoopStep | ssh_stress.py:280-295 | a pass of the loop never lowers the launch count |
| Stress.StepProgresses | ssh_stress.py:280-295 | with a ceiling of at least one, each pass of the loop either launches at least one attempt without passing conns, or completes at least one |
| Stress.RestAdmitted | ssh_stress.py:280-295 | whatever the scheduler does, the states still to come continue an admission run within the ceiling, ending with max(count, conns) launched and nothing outstanding |
| Stress.AdmissionTraceIsRun | ssh_stress.py:280-296 | a round's trace is an admission run within the ceiling, from nothing launched or outstanding to conns launched and none outstanding |
| Stress.RestUnfolds | ssh_stress.py:280-295 | one wait followed by one refill moves exactly their states from the states still to come to the states recorded |
| Stress.AdmissionStatesDistinct | ssh_stress.py:280-295 | in an admission run a later state has more launches, or as many launches and strictly fewer outstanding ids, so no state occurs twice |
| Stress.AdmissionRunSnoc | ssh_stress.py:280-295 | a step of the loop that stays within the ceiling extends an admission run |
| Stress.AdmitLaunch | ssh_stress.py:287-292 | launching the next id while fewer than max_concurrent_tasks are outstanding extends an admission run |
| Stress.OpenedFresh | ssh_stress.py:287-292 | a run of launches adds one new outstanding id per launch, none larger than the launch count |
| Stress.Launches | ssh_stress.py:287-295 | a run of launches is one trace step per launch |
| Stress.LaunchesAdmitted | ssh_stress.py:287-295 | launches that keep the outstanding count within the ceiling extend an admission run, ending with the launch count reached and the new ids outstanding |
| Stress.OutstandingLaunched | ssh_stress.py:280-295 | at every point of an admission run the outstanding ids are ids already launched, between 1 and the launch count |
| Stress.LaunchesInOrder | ssh_stress.py:280-295 | along an admission run the launch count never decreases and rises by at most one per step |
| Stress.StressTester.FinishedRound | ssh_stress.py:280-296 | when every attempt has been launched and none is outstanding, the result map is exactly the records of calls 1..conns |
| Stress.StressTester.Hammer | ssh_stress.py:270-296 | a zero rate is a division error; an empty user list with a connection to make is the exhausted-cycle error, and a failure leaves the trace at its start state; with users or no connections it returns a map keyed exactly by 1..conns whose entry for id is the record of the attempt launched with id and the id-th next user of the cycle; conns pacing sleeps of 1/conns_per_sec; the cycle advances by conns; the trace is the round's AdmissionTrace under the given scheduler, so it never holds more than max_concurrent_tasks outstanding and ends with conns launched and none outstanding |
| Stress.StressTester.AdmissionLoop | ssh_stress.py:280-296 | the loop terminates; it reports an exhausted cycle only for an empty user list with a connection to make, with the trace at its start state; otherwise the result map is the records of calls 1..conns, with conns pacing sleeps, and the trace is exactly the round's AdmissionTrace |
| Stress.RoundsByName | ssh_stress.py:300-306 | the runner's dictionary has one entry per round played |
| Stress.RoundsByNameAt | ssh_stress.py:305-306 | entry i is round i + 1, filed as `round_<i+1>` with its records re-keyed in ascending id order |
| Stress.RoundsByNameSnoc | ssh_stress.py:301-306 | playing one more round appends exactly one entry, under the next round name |
| Stress.RoundsByNameNameAt | ssh_stress.py:306 | entry i is named after round i + 1 |
| Stress.RoundsByNameDistinct | ssh_stress.py:306 | no two rounds share a name, so no round overwrites another in the dictionary |
| Stress.NumberedNamesDistinct | ssh_stress.py:306 | entries named after their positions have pairwise distinct names |
| Stress.RoundOffsetIsProduct | ssh_stress.py:301-306 | i rounds of n connections draw i * n users from the cycle |
| Stress.StressTester.RoundKeys | ssh_stress.py:305 | a round's result is keyed by exactly 1..conns, and re-keyed it lists ids 1, 2, ..., conns in order, each with its own record |
| Stress.StressTester.RoundsRanAt | ssh_stress.py:301-306 | round i + 1 of a run draws its users from draw number start + i * conns on, so the rotation carries on across rounds instead of restarting |
| Stress.StressTester.HammeredRound | ssh_stress.py:302-304 | what `_hammer` returns for a round is that round's records, with id k using the (k-1)-th user drawn in that round |
| Stress.StressTester.RoundsRanSnoc | ssh_stress.py:301-306 | a round run from where the earlier rounds left the cycle extends the run |
| Stress.StressTester.PlayRound | ssh_stress.py:302-304 | one round, whose waits follow that round's scheduler: the error cases of `_hammer`, or the run extended by that round with the cycle advanced by conns |
| Stress.StressTester.PlayRounds | ssh_stress.py:300-318 | exactly max(rounds, 0) rounds, each the next conns users of the cycle, filed `round_1`..`round_N` in order with ascending ids; a division error or an exhausted cycle escapes the whole run and leaves the cycle where it was |
| Stress.StressTester.RunRounds | ssh_stress.py:299-308 | the report is the statistics of the rounds played, and the cycle has advanced by rounds * conns |
| Stress.StressTester.StressSftp | ssh_stress.py:299-308 | `stress_sftp`: SFTP rounds listing `path`, reported with type "SFTP" |
| Stress.StressTester.StressSsh | ssh_stress.py:311-320 | `stress_ssh`: SSH command rounds, reported with type "SSH" |
| Ordering.ByAscendingIdEntries | ssh_stress.py:305 | every entry of the re-keyed round is a key of the round with the value it had |
| Ordering.ByAscendingIdCovers | ssh_stress.py:305 | every key of the round appears in the re-keyed round, and nothing else does |
| Ordering.ByAscendingIdAscending | ssh_stress.py:305 | the re-keyed round lists its ids in strictly ascending order |
| Ordering.ByAscendingIdLookup | ssh_stress.py:305 | each (id, record) pair of the round is an entry of the re-keyed round |
| Ordering.ByAscendingIdOfIds | ssh_stress.py:305 | a round keyed by 1..n re-keys to ids 1, 2, ..., n in that order |
| Ordering.EntriesOfAscending | ssh_stress.py:305 | iterating the keys in sorted order lists them strictly ascending |
| Ordering.EntriesOfCovers | ssh_stress.py:305 | iterating the sorted keys visits every key and nothing else, with as many entries as keys, so each key exactly once |
| RoundNames.Decimal | ssh_stress.py:306 | the rendering of a round number is a non-empty string of decimal digits |
| RoundNames.ParseDecimalOfDecimal | ssh_stress.py:306 | reading the rendered digits back gives the number |
| RoundNames.RoundNameInjective | ssh_stress.py:306 | `round_a` and `round_b` are the same name exactly when a = b |
| RoundNames.RoundNamesDiffer | ssh_stress.py:306 | different rounds get different names |
| Stats.Min | ssh_stress.py:138 | `min` against a start of +inf gives a finite value no larger than either argument and equal to one of them |
| Stats.Max | ssh_stress.py:137 | `max` is at least both arguments and equal to one of them |
| Stats.SuccessesAndFailures | ssh_stress.py:130-146 | successes plus failures is the round's record count |
| Stats.FailuresCountsFailed | ssh_stress.py:145-146 | the failure count is the number of records whose success is false |
| Stats.PeakIsMaximum | ssh_stress.py:126-142 | the maximum is never negative and is 0 with no success; otherwise it bounds every successful record's time and equals one of them |
| Stats.LeastIsMinimum | ssh_stress.py:128-143 | the minimum stays +inf exactly when no record succeeded; otherwise it is at most every successful record's time and equals one of them |
| Stats.TotalBetweenExtrema | ssh_stress.py:136-143 | the sum over k successes lies between k times the minimum and k times the maximum |
| Stats.QuotientBetween | ssh_stress.py:148-149 | a sum of k values between lo and hi, divided by k, lies between lo and hi |
| Stats.AverageBetweenExtrema | ssh_stress.py:124-153 | with at least one success, min <= average <= max for each metric |
| Stats.SummarizeRound | ssh_stress.py:123-164 | the accumulator loop computes the round's statistics: with no success both averages and maxima are 0 and both minima +inf, with no error; otherwise min <= avg <= max for both times; the failure count plus the successes is the record count; `conn_data` is the round unchanged |
| Stats.CalculateStats | ssh_stress.py:111-170 | the header holds the run's parameters with total_conns = conns * rounds; one summary per round, under its name, in order, with `conn_data` unchanged and failed_conns at most the round's record count |
| Stats.MixedRoundExample | ssh_stress.py:133-153 | a round with one failure among auth times 0.1, 0.2, 0.3 averages 0.2 with one failed connection |
| Names.Split | ssh_stress.py:326 | `split(",")` always returns at least one piece |
| Names.SplitHasNoCommas | ssh_stress.py:326 | no piece of the split contains a comma |
| Names.JoinSplit | ssh_stress.py:326 | joining the pieces with commas gives back the input, so the split loses and reorders nothing |
| Names.SplitJoin | ssh_stress.py:326 | splitting comma-free pieces joined by commas gives back those pieces |
| Names.NonBlank | ssh_stress.py:326 | the filter keeps exactly the non-blank pieces and never adds one |
| Names.NonBlankAppend | ssh_stress.py:326 | filtering two lists one after the other is filtering each and concatenating, so the survivors keep their order |
| Names.NonBlankSingle | ssh_stress.py:326 | a single piece survives exactly when it is not blank |
| Names.NonBlankCons | ssh_stress.py:326 | the first piece survives in front of the filtered rest exactly when it is not blank |
| Names.NonBlankCounts | ssh_stress.py:326 | each non-blank piece survives as often as it occurs, so duplicate user names stay in the rotation as often as given, and no blank piece survives |
| Names.ValidateNames | ssh_stress.py:324-327 | every name returned is non-blank and contains no comma |
| Names.ValidateNamesIsNonBlankPieces | ssh_stress.py:324-327 | both branches agree: the result is the non-blank pieces of the split, in input order |
| Names.ValidateNamesKeepsNonBlank | ssh_stress.py:326 | a piece is returned exactly when it is a piece of the input and not blank |
| Names.ValidateNamesWithoutComma | ssh_stress.py:327 | without a comma the result is `[names]` when it is not blank, and `[]` when it is |
| Names.ValidateNamesDropsEmpty | ssh_stress.py:326 | `a,,b` with non-blank comma-free a and b gives `[a, b]` |
| Names.ValidateNamesKeepsPadding | ssh_stress.py:326 | surviving pieces keep their whitespace: `" a, "` gives `[" a"]` |

## Left out

- The bodies of `_sftp` and `_ssh` (ssh_stress.py:173-267): connecting, authenticating, listing or running a command, and the clock readings. They are calls into an SSH library. An attempt's outcome is an abstract function of its launch arguments. The runner supplies a per-round function `env(round, call)`. The record's id is the id the attempt was launched with, and its durations are any non-negative values.
- The attempt's payload (directory listing, command output, error text) is an opaque string.
- Exceptions other than the ones `_sftp`/`_ssh` catch, which would escape through `task.result()`: every attempt is assumed to return a record.
- `drop_all_timer`, the global `wait` flag and the `global_wait` argument's effect. That is a background thread and real-time sleeps. `global_wait` is only carried into the report.
- Wall-clock time: `asyncio.sleep(loop_speed)` is recorded as a ghost list of pacing durations rather than performed.
- The asyncio scheduler: which attempts a wait reports as done is given by a scheduler function of the state, one per round. Interleavings inside attempts are not modelled.
- Default arguments: `target_users=['root']` and `max_concurrent_tasks=10000` (ssh_stress.py:88, 93). The constructor takes both explicitly. The command line at ssh_stress.py:365 relies on the default ceiling of 10000.
- `gen_graph` and the `graph` parameter of `_calculate_stats`, `stress_sftp` and `stress_ssh`: matplotlib plotting.
- The SSH key and password check in `__init__` with its `sys.exit`, and the host, port, key, password and timeout fields, which only the attempt bodies use.
- Argument parsing, JSON input and output (ssh_stress.py:329 onwards), and printing, including the progress messages at ssh_stress.py:78, 81, 174, 205, 217, 223, 253, 265, 303 and 315. `validate_names` is modelled on its own.
- IEEE floating point: durations and rates are `real`s, and the `float('inf')` start of a minimum is the explicit `Bound.Infinity`. Rounding of sums and averages is not modelled.
- Stress.StressTester.constructor: requires `max_concurrent_tasks >= 1`, which the source does not check. With a ceiling of 0 or less and at least one connection, `_hammer` never launches anything and loops forever without awaiting, so there is no result to model (see "## Findings").
- Stats.CalculateStats: requires distinct round names. The source's argument is a dictionary, which guarantees that. The runner establishes it through `RoundsByNameDistinct`.

## Findings

| source | as written | input that shows it | evidently intended | confidence | as-written member | corrected member |
|---|---|---|---|---|---|---|
| ssh_stress.py:280-295 | `max_concurrent_tasks` is never checked, and the loop only awaits inside the wait and the pacing sleep | `max_concurrent_tasks = 0` and `conns >= 1`: nothing is outstanding, so there is no wait; the refill condition `len(tasks) < 0` fails at once, so there is no launch and no sleep; the loop condition `count < conns` still holds, so `_hammer` spins forever without yielding | a ceiling below one is rejected, and every pass then launches or completes an attempt, so the loop ends | high, not executed | Stress.ZeroCeilingSpins | Stress.StepProgresses |
