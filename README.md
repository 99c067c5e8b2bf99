# Nest AC troubleshooter — a verified model of its monitoring core

The Nest AC troubleshooter (a single Go file, `nest.go`) watches one Nest
thermostat. At every poll it reads the ambient temperature, the HVAC mode
and whether the unit is cooling, and writes one row to a tab-separated log.
It keeps the previous sample as a baseline. When both the baseline and the
new sample are cooling and the temperature still rose, it assumes the air
conditioner is stuck. It then restarts the system: it writes mode `off`
until the device confirms `off`, then writes the mode the triggering sample
had until the device confirms that mode. The sample that confirms the
restart becomes the new baseline. Before the loop starts, `main` reads
command-line options in (name, value) pairs, may merge a JSON config file
over the defaults, and validates the result.

This project models that core in Dafny:

- `Thermostat` holds the sample `NestData`. A device read or write is a
  `Reading`: a sample or an error text. A failed call leaves Go's zero sample
  behind (`Received`).
- `Navigation` models the part of `nestGet` that walks the decoded response
  through `devices`, `thermostats` and the thermostat id, then extracts the
  three fields. It is a loop over an abstract JSON datatype.
- `CommandLine` models the argument loop of `main`, as a stepping loop
  (`ParseArgs`) proved equal to a recursive definition (`ArgMap`), plus
  lemmas about what that map holds.
- `Configuration` models `processConfig`, the override and validation
  block of `main`, and `main` up to the start of the loop (`Startup`).
- `Detector` holds the baseline and the fault predicate.
- `Recovery` gives the meaning of a poll tick and of the confirmed off/on
  writes as functions (`TickSpec`, `Recover`, `RunSpec`) and proves the
  stated properties about them.
- `PollLoop.Monitor` is the poll loop as an object. Its fields are:
  - the baseline (`lastIsCooling`, `lastTemp`);
  - the log;
  - the responses the write endpoint will still give;
  - the modes requested so far.

  `Confirm` is the retry loop, `Tick` is one iteration of the poll loop and
  `RunTicks` is a run of iterations. Each is proved against the `Recovery`
  functions.

The device write endpoint (`nestPut`) is an oracle: a sequence of
responses consumed front to back. Each call also records the mode it asked
for. A device read (`nestGet`) that returns is a `Reading` passed to `Tick`.
`strconv.Atoi`, `url.ParseRequestURI` and reading the config file are
function parameters of `Startup` and `ApplyOverrides`. A log row is a tuple
without its timestamp: the header, a (cooling, temperature) sample, or a
note.

Edge cases the model keeps from the code:

- A write that returns an error leaves the zero sample, whose mode is
  `""`. So if the wanted mode is `""`, such an error ends the loop.
- Both retry loops start from the placeholder mode `unrestarted`. A
  triggering sample whose mode is `unrestarted` makes no turn-on call. The
  baseline then becomes the placeholder's (not cooling, 0).
- An unpaired trailing argument is silently ignored
  (`CommandLine.TrailingArgumentIgnored`).
- Only command-line webhook URLs are validated; those from the config
  file are taken as they are.

## Model

| member | source | states |
|---|---|---|
| Navigation.Navigate | nest.go:338-352 | navigation yields a sample exactly when the response is an object, every key of `devices/thermostats/<id>` names an object, and the device has a number `ambient_temperature_f` and string `hvac_mode` and `hvac_state`; otherwise it panics; the sample's temperature and mode are those fields, and it is cooling exactly when `hvac_state` is `"cooling"` |
| Navigation.WalkDevicePath | nest.go:339-345 | reaching the device object succeeds exactly when `devices`, `thermostats` and the id are each present and each name an object, and then yields the id's object |
| CommandLine.ParseArgs | nest.go:75-83 | the stepping loop over pairs from index 1 returns exactly the map of the recursive pair definition, or none when some visited name is rejected |
| CommandLine.Collect | nest.go:75-82 | the map after n pairs holds only settings some option names, and holds the setting of the latest pair |
| CommandLine.ArgMap | nest.go:75-83 | the parse fails exactly when some visited name is not accepted; a successful map holds only settings some option names |
| CommandLine.CollectKeys | nest.go:76-82 | a setting is in the map after n pairs exactly when one of those pairs names it |
| CommandLine.CollectLastWins | nest.go:82 | a setting holds the value of the last pair that names it: a later duplicate overwrites an earlier one |
| CommandLine.ArgMapMeaning | nest.go:76-83 | on success the map's keys are exactly the settings named by some pair, and each holds the value after the last pair naming it |
| CommandLine.RejectsUnexpected | nest.go:77-81 | any visited name that is a help word or absent from the option table makes the parse fail |
| CommandLine.CollectPrefix | nest.go:76-82 | the map after n pairs depends only on the first 2n+1 arguments |
| CommandLine.TrailingArgumentIgnored | nest.go:76 | with an even number of arguments, the unpaired last one changes nothing |
| Configuration.ProcessConfig | nest.go:170-190 | a read or decode error is returned as is; otherwise minutes below 1, an empty output and an empty last output are replaced by the given config's values, every other field comes from the file, and minutes ≥ 1 and non-empty outputs hold whenever the given config has them |
| Configuration.OverrideError | nest.go:92-133 | no error exactly when every override check passes; otherwise the first failing check in the order id, token, minutes not a number, minutes below 1, webhook-post URL, webhook-get URL |
| Configuration.ApplyOverrides | nest.go:92-134 | the overrides succeed exactly when an id and a token are each given or configured, given minutes parse to at least 1 and given webhook URLs parse; on failure the error is the first failing check in the order `main` makes them (a missing id exactly when both are empty, a missing token next likewise, minutes below 1 only for a parsed number below 1); on success each non-empty command-line value replaces the configured one (minutes by its parsed value), last output and debug stay, and the id and token are non-empty |
| Configuration.StartConfig | nest.go:84-91 | without a config file the settings start from the defaults; with one, a read or decode error is that file's error, and otherwise the file's settings patched from the defaults, so minutes ≥ 1 and both output names are non-empty |
| Configuration.Startup | nest.go:50-135 | no arguments is an error; a single argument gives help exactly when it is a help word (case-insensitively) and otherwise an error; longer lists are rejected exactly when the pair parse fails; after a successful parse, a failing config file aborts with its error, a failing override check aborts with the first failing check, and otherwise the loop runs with the command-line overrides applied over the start settings; the loop runs exactly when the parse, the config file and every override check succeed; a started loop has minutes ≥ 1, a non-empty id and token, and the command-line id, token, minutes, output and webhook URLs where given; without a config file the last output and debug flag stay at their defaults |
| Detector.IsFault | nest.go:216-217 | a fault needs both the baseline and the new sample to be cooling; `Recovery.RestartIff` proves a restart happens exactly under the full condition |
| Detector.SeedIsNeverFault | nest.go:200-217 | the seed baseline (not cooling, 0) is never a fault against any sample |
| Thermostat.Received | nest.go:304-372 | an error leaves the zero sample, so a sample showing a non-empty mode always comes from a successful call and is its value |
| Recovery.Note | nest.go:247-268 | one attempt's note is the confirmation exactly when the call succeeded with the wanted mode, and the phase's error text with the message when the call failed |
| Recovery.Confirmed | nest.go:245-269 | the sample a confirmed write ends with always shows the wanted mode |
| Recovery.FirstMatch | nest.go:245-258 | the index of the first response whose received sample shows the wanted mode: it matches and every earlier one does not |
| Recovery.Attempts | nest.go:243-269 | a confirmed write makes no more calls than there are responses; the exact count is proved in `Recovery.ConfirmCount` and `Recovery.ConfirmAlreadyThere` |
| Recovery.Recover | nest.go:218-271 | the recovery consumes no more responses than it is given; its requests, notes and new baseline are proved in `Recovery.RecoveryConfirms` |
| Recovery.TickSpec | nest.go:207-279 | one tick consumes no more write responses than it is given; its rows, writes and baseline are proved in `Recovery.RestartIff`, `Recovery.QuietTickAdvances` and `Recovery.FailedReadKeepsBaseline` |
| Recovery.RunSpec | nest.go:202-284 | a run of ticks consumes no more write responses than it is given; its log is proved in `Recovery.RunLogsEachRead` |
| Recovery.RunLogsEachRead | nest.go:202-279 | a run logs at least one row per read and begins with the first read's sample or error row; a run that never writes to the device logs exactly one such row per read, in the order of the reads |
| Recovery.ConfirmCount | nest.go:243-269 | N responses without the wanted mode and then one with it give N + 1 calls; the result is the last response's sample; the first N notes are waits (or the error texts) and the last is the confirmation (or the error whose zero sample matched) |
| Recovery.ConfirmAlreadyThere | nest.go:257-258 | a loop whose start already shows the wanted mode makes no call and keeps the start |
| Recovery.RecoveryConfirms | nest.go:243-271 | a recovery first asks for `off` until a response shows `off` (at least one call), then asks only for the triggering mode until a response shows it; one note per call after the restart note; the new baseline is the confirming sample's cooling flag and temperature (the placeholder's when no turn-on call is needed, which happens exactly for the mode `unrestarted`) |
| Recovery.RestartIff | nest.go:207-220 | every successful read logs first exactly its sample's cooling flag and temperature, and a failed read logs only its error; a tick writes to the device, and logs more than that first row, exactly when the read succeeded, both samples are cooling and the temperature rose; then its second row is the restart note |
| Recovery.FirstTickIsQuiet | nest.go:200-217 | the first tick, from the seed, never writes to the device and logs one row |
| Recovery.QuietTickAdvances | nest.go:272-279 | a successful tick without fault logs the sample and makes its cooling flag and temperature the baseline, with no write |
| Recovery.FailedReadKeepsBaseline | nest.go:207-210 | a failed read keeps the baseline and logs exactly one row, holding the error |
| Recovery.ScenarioRestart | nest.go:216-271 | baseline (cooling, 70), sample (cooling, 72, `cool`), both writes confirmed at once: two calls, `off` then `cool`, and the baseline from the turn-on sample |
| Recovery.ScenarioNoRestart | nest.go:216-278 | baseline (cooling, 72), sample (cooling, 70): no write, and the baseline becomes (cooling, 70) |
| PollLoop.Monitor.constructor | nest.go:197-201 | the loop starts with the header row in the log and the seed baseline |
| PollLoop.Monitor.Confirm | nest.go:243-269 | the retry loop makes exactly the calls of the confirmed-write definition, requesting the wanted mode each time, consumes those responses, appends one note per call, ends with a sample showing the wanted mode, and leaves the baseline alone |
| PollLoop.Monitor.Tick | nest.go:207-279 | one iteration changes the baseline, the log, the requests and the remaining responses exactly as the tick definition says |
| PollLoop.Monitor.RunTicks | nest.go:202-284 | a sequence of iterations changes the state exactly as the run definition says |

## Left out

- HTTP, the redirect policy, status-code checks and the one-minute sleep of `nestClient`, `nestGet`, `nestPut` and `webhook` (nest.go:292-387) are network I/O. A read is a `Reading` argument and the write endpoint is a response sequence.
- The error texts `nestGet` and `nestPut` build are not modelled; an error is an arbitrary string.
- A write whose request fails without any response is not represented. In `nestPut` the deferred `resp.Body.Close()` (nest.go:364) is evaluated before the error check (nest.go:365). A failure that leaves `resp` nil, such as a network failure, therefore dereferences a nil response and crashes the program instead of returning an error; `webhook` does the same (nest.go:381-382). An `Err` response stands only for what `nestPut` does return: a request that cannot be built, the redirect limit of `nestClient` (nest.go:294-300, where the client still hands back a response, so nest.go:365-366 reports it), a non-200 status, or an error from the confirming `nestGet`.
- PollLoop.Monitor.Tick: its read, and each response `Confirm` consumes, covers only a `nestGet` that returns. A response whose device path or fields are missing or mistyped makes the type assertions panic (nest.go:338-350, `Panic` of `Navigation.Navigate`), which ends the program both at the poll read (nest.go:207) and at the confirming read inside `nestPut` (nest.go:372); that outcome is not connected to the poll loop.
- The webhook goroutine (nest.go:221-242) is fire-and-forget concurrency with no effect on the baseline or the retry loops. It also appends `webhook-post performed` and `webhook-get performed` rows to the same log at unspecified times (nest.go:227-229, 237-239); the modelled log never holds them.
- Creating, reopening, syncing and closing the output file, the debug dump and the sleep between polls (nest.go:193-206, 281-283, 324-332) are file I/O and timing. The log is a sequence of rows, and a failed open is not modelled.
- Timestamps (nest.go:287-290) depend on the clock, so a row carries no time.
- Console output: the help text, `printError` and its messages (nest.go:138-168).
- JSON decoding of the response body and of the config file (nest.go:176, 334) is a library call. The decoded value is an input.
- Navigation.Navigate: temperatures are integers already; the `float64` to `int` truncation of `ambient_temperature_f` (nest.go:349) is floating-point behaviour.
- Navigation.Navigate: the `nil` check at nest.go:345 is not modelled as a graceful error, because a missing key or a non-object value already panics in the type assertion at nest.go:342. Both come out as `Panic`.
- `strconv.Atoi` and `url.ParseRequestURI` (nest.go:105, 120, 128) are library parsers, so they are the parameters `atoi` and `isRequestURI`. Their error texts are not carried.
- Reading the config file (nest.go:172) is an input of `Startup`. Its error text is carried as given.
- CommandLine.Lower: only ASCII letters are lower-cased, while Go's `strings.ToLower` also folds other Unicode letters.
- PollLoop.Monitor.Confirm: requires that some remaining response shows the wanted mode. Without a match the program retries forever, and that non-termination is not modelled.
- PollLoop.Monitor.RunTicks: the poll loop never ends (nest.go:202). The model covers any finite number of iterations, each of whose recoveries ends.
