/**
 * The meaning of one poll tick and of the confirmed off/on sequence, as
 * functions of the baseline, the read result and the responses the
 * device write will give. The class in PollLoop is proved against these.
 */
module Recovery {
  import opened Wrappers
  import opened Thermostat
  import opened Detector

  /** One row of the observation log. */
  datatype Row =
    | Header
    | SampleRow(cooling: bool, temp: int)
    | NoteRow(note: string)

  /** The two confirmed writes of a recovery. */
  datatype Phase = TurnOff | TurnOn

  /** The placeholder shutoffData and restartData start from. */
  const UNRESTARTED := NestData(0, "unrestarted", false)

  const RESTARTING_NOTE := "RESTARTING SYSTEM"

  function ErrorText(phase: Phase, message: string): (text: string)
    ensures |text| > 0 && text[0] == 'E'
  {
    (if phase == TurnOff then "Error turning system off:\n" else "Error turning system back on:\n") + message
  }

  function WaitingText(phase: Phase): string {
    if phase == TurnOff then "RESTART: waiting on turn off" else "RESTART: waiting on turn on"
  }

  function DoneText(phase: Phase): string {
    if phase == TurnOff then "RESTART: system turned off" else "RESTART: system turned on"
  }

  /**
   * The note one write attempt appends: its error, a wait, or the
   * confirmation, which is appended exactly when the call succeeded with
   * the wanted mode.
   */
  function Note(phase: Phase, wanted: string, response: Reading): (note: Row)
    ensures note == NoteRow(DoneText(phase)) <==> response.Ok? && response.value.hvacMode == wanted
    ensures response.Err? ==> note == NoteRow(ErrorText(phase, response.error))
  {
    match response
    case Err(message) => NoteRow(ErrorText(phase, message))
    case Ok(d) => if d.hvacMode != wanted then NoteRow(WaitingText(phase)) else NoteRow(DoneText(phase))
  }

  /** The notes of a run of write attempts, one per attempt. */
  function Notes(phase: Phase, wanted: string, responses: seq<Reading>): seq<Row> {
    seq(|responses|, i requires 0 <= i < |responses| => Note(phase, wanted, responses[i]))
  }

  /** `n` requests of the same mode. */
  function Repeat(mode: string, n: nat): seq<string> {
    seq(n, _ => mode)
  }

  /** Some response leaves the wanted mode in the sample the loop tests. */
  predicate HasMatch(wanted: string, responses: seq<Reading>)
    decreases |responses|
  {
    responses != [] && (Received(responses[0]).hvacMode == wanted || HasMatch(wanted, responses[1..]))
  }

  /** The index of the first matching response. */
  function FirstMatch(wanted: string, responses: seq<Reading>): (k: nat)
    requires HasMatch(wanted, responses)
    ensures k < |responses| && Received(responses[k]).hvacMode == wanted
    ensures forall j :: 0 <= j < k ==> Received(responses[j]).hvacMode != wanted
    decreases |responses|
  {
    if Received(responses[0]).hvacMode == wanted then 0 else FirstMatch(wanted, responses[1..]) + 1
  }

  /** The confirmed-write loop, started from `start`, ends. */
  predicate Settles(start: NestData, wanted: string, responses: seq<Reading>) {
    start.hvacMode == wanted || HasMatch(wanted, responses)
  }

  /** How many write calls the confirmed-write loop makes. */
  function Attempts(start: NestData, wanted: string, responses: seq<Reading>): (n: nat)
    requires Settles(start, wanted, responses)
    ensures n <= |responses|
  {
    if start.hvacMode == wanted then 0 else FirstMatch(wanted, responses) + 1
  }

  /** The sample the confirmed-write loop ends with. */
  function Confirmed(start: NestData, wanted: string, responses: seq<Reading>): (data: NestData)
    requires Settles(start, wanted, responses)
    ensures data.hvacMode == wanted
  {
    var n := Attempts(start, wanted, responses);
    if n == 0 then start else Received(responses[n - 1])
  }

  /** What one tick, or a run of ticks, does. */
  datatype Outcome = Outcome(baseline: Baseline, rows: seq<Row>, sent: seq<string>, used: nat)

  /** Both confirmed writes of a recovery for the triggering mode `mode` end. */
  predicate RecoveryEnds(mode: string, responses: seq<Reading>) {
    && Settles(UNRESTARTED, "off", responses)
    && Settles(UNRESTARTED, mode, responses[Attempts(UNRESTARTED, "off", responses)..])
  }

  /** The recovery sequence: turn off until confirmed, then back to `mode` until confirmed. */
  function Recover(mode: string, responses: seq<Reading>): (o: Outcome)
    requires RecoveryEnds(mode, responses)
    ensures o.used <= |responses|
  {
    var n := Attempts(UNRESTARTED, "off", responses);
    var rest := responses[n..];
    var m := Attempts(UNRESTARTED, mode, rest);
    Outcome(
      BaselineOf(Confirmed(UNRESTARTED, mode, rest)),
      [NoteRow(RESTARTING_NOTE)] + Notes(TurnOff, "off", responses[..n]) + Notes(TurnOn, mode, rest[..m]),
      Repeat("off", n) + Repeat(mode, m),
      n + m)
  }

  /** The tick can complete: a fault is followed by a recovery that ends. */
  predicate TickEnds(last: Baseline, read: Reading, responses: seq<Reading>) {
    read.Ok? && IsFault(last, read.value) ==> RecoveryEnds(read.value.hvacMode, responses)
  }

  /** One tick of the poll loop. */
  function TickSpec(last: Baseline, read: Reading, responses: seq<Reading>): (o: Outcome)
    requires TickEnds(last, read, responses)
    ensures o.used <= |responses|
  {
    match read
    case Err(message) => Outcome(last, [NoteRow(message)], [], 0)
    case Ok(d) =>
      var sampleRow := SampleRow(d.isCooling, d.currentTemperature);
      if IsFault(last, d) then
        var o := Recover(d.hvacMode, responses);
        o.(rows := [sampleRow] + o.rows)
      else
        Outcome(BaselineOf(d), [sampleRow], [], 0)
  }

  /** Every tick of a run of polled can complete. */
  predicate RunEnds(last: Baseline, polled: seq<Reading>, responses: seq<Reading>)
    decreases |polled|
  {
    polled != [] ==>
      && TickEnds(last, polled[0], responses)
      && var o := TickSpec(last, polled[0], responses);
         RunEnds(o.baseline, polled[1..], responses[o.used..])
  }

  /** A run of ticks, one per read. */
  function RunSpec(last: Baseline, polled: seq<Reading>, responses: seq<Reading>): (o: Outcome)
    requires RunEnds(last, polled, responses)
    ensures o.used <= |responses|
    decreases |polled|
  {
    if polled == [] then Outcome(last, [], [], 0)
    else
      var first := TickSpec(last, polled[0], responses);
      Then(first, RunSpec(first.baseline, polled[1..], responses[first.used..]))
  }

  /** What `first` and then `rest` do together. */
  function Then(first: Outcome, rest: Outcome): Outcome {
    Outcome(rest.baseline, first.rows + rest.rows, first.sent + rest.sent, first.used + rest.used)
  }

  /** Splitting off the first tick of a run keeps what has been done and what remains in step. */
  lemma RunAdvance(whole: Outcome, done: Outcome, last: Baseline, polled: seq<Reading>, responses: seq<Reading>)
    requires polled != [] && RunEnds(last, polled, responses)
    requires whole == Then(done, RunSpec(last, polled, responses))
    ensures TickEnds(last, polled[0], responses)
    ensures var o := TickSpec(last, polled[0], responses);
      && RunEnds(o.baseline, polled[1..], responses[o.used..])
      && whole == Then(Then(done, o), RunSpec(o.baseline, polled[1..], responses[o.used..]))
  {
    var o := TickSpec(last, polled[0], responses);
    ThenAssociative(done, o, RunSpec(o.baseline, polled[1..], responses[o.used..]));
  }

  /** Once no read remains, the run is what has been done. */
  lemma RunFinished(whole: Outcome, done: Outcome, last: Baseline, responses: seq<Reading>)
    requires whole == Then(done, RunSpec(last, [], responses))
    ensures whole == Outcome(last, done.rows, done.sent, done.used)
  {
    assert done.rows + [] == done.rows && done.sent + [] == done.sent;
  }

  lemma AppendAssociative<T>(a: seq<T>, b: seq<T>, c: seq<T>)
    ensures a + b + c == a + (b + c)
  {
  }

  lemma DropTwice<T>(s: seq<T>, a: nat, b: nat)
    requires a + b <= |s|
    ensures s[a..][b..] == s[a + b..]
  {
  }

  /** The notes of one more attempt are the earlier notes and one note more. */
  lemma NotesExtend(phase: Phase, wanted: string, responses: seq<Reading>, k: nat)
    requires k < |responses|
    ensures Notes(phase, wanted, responses[..k + 1]) == Notes(phase, wanted, responses[..k]) + [Note(phase, wanted, responses[k])]
  {
    assert responses[..k + 1] == responses[..k] + [responses[k]];
  }

  /** One more request of the same mode. */
  lemma RepeatExtend(mode: string, k: nat)
    ensures Repeat(mode, k) + [mode] == Repeat(mode, k + 1)
  {
  }

  lemma ThenAssociative(a: Outcome, b: Outcome, c: Outcome)
    ensures Then(Then(a, b), c) == Then(a, Then(b, c))
  {
    AppendAssociative(a.rows, b.rows, c.rows);
    AppendAssociative(a.sent, b.sent, c.sent);
  }

  /** A run of attempts with a matching response at index k has a match. */
  lemma {:induction false} HasMatchAt(wanted: string, responses: seq<Reading>, k: nat)
    requires k < |responses| && Received(responses[k]).hvacMode == wanted
    ensures HasMatch(wanted, responses)
    decreases k
  {
    if k > 0 && Received(responses[0]).hvacMode != wanted {
      HasMatchAt(wanted, responses[1..], k - 1);
    }
  }

  /**
   * N responses that leave another mode, then one that leaves the wanted
   * mode: N + 1 write calls, N notes that are waits or errors, and a last
   * note that confirms (or reports the error whose zero sample matched).
   */
  lemma ConfirmCount(phase: Phase, wanted: string, start: NestData, responses: seq<Reading>, n: nat)
    requires start.hvacMode != wanted
    requires n < |responses|
    requires forall j :: 0 <= j < n ==> Received(responses[j]).hvacMode != wanted
    requires Received(responses[n]).hvacMode == wanted
    ensures Settles(start, wanted, responses)
    ensures Attempts(start, wanted, responses) == n + 1
    ensures Confirmed(start, wanted, responses) == Received(responses[n])
    ensures var notes := Notes(phase, wanted, responses[..n + 1]);
      && |notes| == n + 1
      && (forall j :: 0 <= j < n && responses[j].Ok? ==> notes[j] == NoteRow(WaitingText(phase)))
      && (forall j :: 0 <= j < n && responses[j].Err? ==> notes[j] == NoteRow(ErrorText(phase, responses[j].error)))
      && (responses[n].Ok? ==> notes[n] == NoteRow(DoneText(phase)))
      && (responses[n].Err? ==> notes[n] == NoteRow(ErrorText(phase, responses[n].error)))
  {
    HasMatchAt(wanted, responses, n);
    var k := FirstMatch(wanted, responses);
    assert k == n;
  }

  /** A start that already shows the wanted mode makes no write call at all. */
  lemma ConfirmAlreadyThere(start: NestData, wanted: string, responses: seq<Reading>)
    requires start.hvacMode == wanted
    ensures Settles(start, wanted, responses)
    ensures Attempts(start, wanted, responses) == 0 && Confirmed(start, wanted, responses) == start
  {
  }

  /**
   * A recovery turns the device off first, confirmed by an off response,
   * then requests only the triggering mode until a response shows it; one
   * note per call; the new baseline is the last response's sample.
   */
  lemma RecoveryConfirms(mode: string, responses: seq<Reading>)
    requires RecoveryEnds(mode, responses)
    ensures var o := Recover(mode, responses); var n := Attempts(UNRESTARTED, "off", responses);
      && 1 <= n <= o.used
      && Received(responses[n - 1]).hvacMode == "off"
      && |o.sent| == o.used && |o.rows| == o.used + 1
      && o.rows[0] == NoteRow(RESTARTING_NOTE)
      && (forall i :: 0 <= i < n ==> o.sent[i] == "off")
      && (forall i :: n <= i < o.used ==> o.sent[i] == mode)
      && (n < o.used ==> Received(responses[o.used - 1]).hvacMode == mode)
      && (n < o.used ==> o.baseline == BaselineOf(Received(responses[o.used - 1])))
      && (n == o.used <==> mode == UNRESTARTED.hvacMode)
      && (n == o.used ==> o.baseline == Baseline(false, 0))
  {
    var n := Attempts(UNRESTARTED, "off", responses);
    var rest := responses[n..];
    var m := Attempts(UNRESTARTED, mode, rest);
    if m > 0 {
      assert rest[m - 1] == responses[n + m - 1];
    }
  }

  /** A restart is entered exactly when both samples cool and the temperature rose. */
  lemma RestartIff(last: Baseline, read: Reading, responses: seq<Reading>)
    requires TickEnds(last, read, responses)
    ensures var o := TickSpec(last, read, responses);
      var fault := read.Ok? && last.isCooling && read.value.isCooling && last.temp < read.value.currentTemperature;
      && |o.rows| >= 1
      && (read.Ok? ==> o.rows[0] == SampleRow(read.value.isCooling, read.value.currentTemperature))
      && (read.Err? ==> o.rows == [NoteRow(read.error)])
      && (o.used > 0 <==> fault)
      && (|o.rows| > 1 <==> fault)
      && (fault ==> o.rows[1] == NoteRow(RESTARTING_NOTE))
  {
    if read.Ok? && IsFault(last, read.value) {
      RecoveryConfirms(read.value.hvacMode, responses);
    }
  }

  /** The row a read logs first: its sample, or its error text. */
  function ReadRow(read: Reading): Row {
    match read
    case Err(message) => NoteRow(message)
    case Ok(d) => SampleRow(d.isCooling, d.currentTemperature)
  }

  /** The rows of a run in which no read triggers a restart: one per read, in order. */
  function ReadRows(polled: seq<Reading>): seq<Row> {
    seq(|polled|, i requires 0 <= i < |polled| => ReadRow(polled[i]))
  }

  /**
   * A run logs at least one row per read and starts with the first read's
   * row; a run that never writes to the device logs exactly one row per
   * read, in the order of the reads.
   */
  lemma {:induction false} RunLogsEachRead(last: Baseline, polled: seq<Reading>, responses: seq<Reading>)
    requires RunEnds(last, polled, responses)
    ensures var o := RunSpec(last, polled, responses);
      && |o.rows| >= |polled|
      && (polled != [] ==> o.rows[0] == ReadRow(polled[0]))
      && (o.used == 0 ==> o.rows == ReadRows(polled))
    decreases |polled|
  {
    if polled != [] {
      var first := TickSpec(last, polled[0], responses);
      var rest := RunSpec(first.baseline, polled[1..], responses[first.used..]);
      RestartIff(last, polled[0], responses);
      RunLogsEachRead(first.baseline, polled[1..], responses[first.used..]);
      if first.used + rest.used == 0 {
        assert first.rows == [ReadRow(polled[0])];
        assert ReadRows(polled) == [ReadRow(polled[0])] + ReadRows(polled[1..]);
      }
    }
  }

  /** The first tick starts from the seed and so never enters a restart. */
  lemma FirstTickIsQuiet(read: Reading, responses: seq<Reading>)
    ensures TickEnds(SEED, read, responses)
    ensures var o := TickSpec(SEED, read, responses);
      o.used == 0 && o.sent == [] && |o.rows| == 1
  {
    if read.Ok? {
      SeedIsNeverFault(read.value);
    }
  }

  /** A successful tick without fault logs the sample and makes it the baseline. */
  lemma QuietTickAdvances(last: Baseline, read: Reading, responses: seq<Reading>)
    requires read.Ok? && !IsFault(last, read.value)
    ensures TickEnds(last, read, responses)
    ensures var o := TickSpec(last, read, responses);
      && o.baseline.isCooling == read.value.isCooling
      && o.baseline.temp == read.value.currentTemperature
      && o.rows == [SampleRow(read.value.isCooling, read.value.currentTemperature)]
      && o.used == 0 && o.sent == []
  {
  }

  /** A failed read keeps the baseline and logs one row with the error. */
  lemma FailedReadKeepsBaseline(last: Baseline, read: Reading, responses: seq<Reading>)
    requires read.Err?
    ensures TickEnds(last, read, responses)
    ensures var o := TickSpec(last, read, responses);
      o.baseline == last && o.rows == [NoteRow(read.error)] && o.used == 0 && o.sent == []
  {
  }

  /** Baseline (cooling, 70), sample (cooling, 72), both writes confirmed at once: two calls. */
  lemma ScenarioRestart(offData: NestData, onData: NestData)
    requires offData.hvacMode == "off" && onData.hvacMode == "cool"
    ensures var read: Reading := Ok(NestData(72, "cool", true));
      var responses: seq<Reading> := [Ok(offData), Ok(onData)];
      && TickEnds(Baseline(true, 70), read, responses)
      && var o := TickSpec(Baseline(true, 70), read, responses);
      && o.used == 2 && o.sent == ["off", "cool"]
      && o.baseline == BaselineOf(onData)
  {
    var responses: seq<Reading> := [Ok(offData), Ok(onData)];
    ConfirmCount(TurnOff, "off", UNRESTARTED, responses, 0);
    assert responses[1..] == [Ok(onData)];
    ConfirmCount(TurnOn, "cool", UNRESTARTED, responses[1..], 0);
  }

  /** Baseline (cooling, 72), sample (cooling, 70): no recovery, the sample becomes the baseline. */
  lemma ScenarioNoRestart(responses: seq<Reading>)
    ensures var read: Reading := Ok(NestData(70, "cool", true));
      && TickEnds(Baseline(true, 72), read, responses)
      && TickSpec(Baseline(true, 72), read, responses).used == 0
      && TickSpec(Baseline(true, 72), read, responses).baseline == Baseline(true, 70)
  {
  }
}
