/**
 * The poll loop as a stateful object: the baseline it carries across
 * ticks, the observation log it appends to, and the device write
 * endpoint, modelled as the sequence of responses it will still give
 * together with the modes requested of it so far.
 */
module PollLoop {
  import opened Wrappers
  import opened Thermostat
  import opened Detector
  import opened Recovery

  class Monitor {
    var lastIsCooling: bool
    var lastTemp: int
    /** The observation log, oldest row first. */
    var log: seq<Row>
    /** The responses the write endpoint will give, in order. */
    var responses: seq<Reading>
    /** The modes requested of the write endpoint, in order. */
    var sent: seq<string>

    function Current(): Baseline
      reads this
    {
      Baseline(lastIsCooling, lastTemp)
    }

    /** The start of the loop: the log holds its header and the baseline is the seed. */
    constructor (writeResponses: seq<Reading>)
      ensures Current() == SEED
      ensures log == [Header] && responses == writeResponses && sent == []
    {
      lastIsCooling, lastTemp := false, 0;
      log := [Header];
      responses := writeResponses;
      sent := [];
    }

    /** One confirmed write: request `wanted` until the sample received shows it. */
    method Confirm(phase: Phase, wanted: string) returns (data: NestData)
      requires Settles(UNRESTARTED, wanted, responses)
      modifies this
      ensures var n := Attempts(UNRESTARTED, wanted, old(responses));
        && data == Confirmed(UNRESTARTED, wanted, old(responses))
        && responses == old(responses)[n..]
        && log == old(log) + Notes(phase, wanted, old(responses)[..n])
        && sent == old(sent) + Repeat(wanted, n)
      ensures data.hvacMode == wanted
      ensures Current() == old(Current())
    {
      ghost var all := responses;
      ghost var n := Attempts(UNRESTARTED, wanted, all);
      ghost var k := 0;
      data := UNRESTARTED;
      while data.hvacMode != wanted
        invariant k <= n
        invariant (data.hvacMode != wanted) <==> k < n
        invariant k == 0 ==> data == UNRESTARTED
        invariant k > 0 ==> data == Received(all[k - 1])
        invariant responses == all[k..]
        invariant log == old(log) + Notes(phase, wanted, all[..k])
        invariant sent == old(sent) + Repeat(wanted, k)
        invariant Current() == old(Current())
        decreases n - k
      {
        var response := responses[0];
        responses := responses[1..];
        sent := sent + [wanted];
        data := Received(response);
        var note: Row;
        match response {
          case Err(message) =>
            note := NoteRow(ErrorText(phase, message));
          case Ok(d) =>
            if d.hvacMode != wanted {
              note := NoteRow(WaitingText(phase));
            } else {
              note := NoteRow(DoneText(phase));
            }
        }
        assert note == Note(phase, wanted, all[k]);
        log := log + [note];
        assert (data.hvacMode == wanted) <==> k + 1 == n;
        NotesExtend(phase, wanted, all, k);
        AppendAssociative(old(log), Notes(phase, wanted, all[..k]), [Note(phase, wanted, all[k])]);
        AppendAssociative(old(sent), Repeat(wanted, k), [wanted]);
        RepeatExtend(wanted, k);
        k := k + 1;
      }
    }

    /** One tick: log the read, then either advance the baseline or run the recovery. */
    method Tick(read: Reading) returns (ghost o: Outcome)
      requires TickEnds(Current(), read, responses)
      modifies this
      ensures o == TickSpec(old(Current()), read, old(responses))
      ensures Current() == o.baseline
      ensures log == old(log) + o.rows
      ensures sent == old(sent) + o.sent
      ensures responses == old(responses)[o.used..]
    {
      o := TickSpec(Current(), read, responses);
      match read
      case Err(message) =>
        log := log + [NoteRow(message)];
      case Ok(thermostatData) =>
        log := log + [SampleRow(thermostatData.isCooling, thermostatData.currentTemperature)];
        if lastIsCooling && thermostatData.isCooling {
          if lastTemp < thermostatData.currentTemperature {
            log := log + [NoteRow(RESTARTING_NOTE)];
            var shutoffData := Confirm(TurnOff, "off");
            var restartData := Confirm(TurnOn, thermostatData.hvacMode);
            lastIsCooling, lastTemp := restartData.isCooling, restartData.currentTemperature;
            ghost var n := Attempts(UNRESTARTED, "off", old(responses));
            ghost var m := Attempts(UNRESTARTED, thermostatData.hvacMode, old(responses)[n..]);
            DropTwice(old(responses), n, m);
            ghost var sampleRow := SampleRow(thermostatData.isCooling, thermostatData.currentTemperature);
            ghost var offNotes := Notes(TurnOff, "off", old(responses)[..n]);
            ghost var onNotes := Notes(TurnOn, thermostatData.hvacMode, old(responses)[n..][..m]);
            AppendAssociative(old(log) + [sampleRow] + [NoteRow(RESTARTING_NOTE)], offNotes, onNotes);
            AppendAssociative(old(log) + [sampleRow], [NoteRow(RESTARTING_NOTE)], offNotes + onNotes);
            AppendAssociative(old(log), [sampleRow], [NoteRow(RESTARTING_NOTE)] + (offNotes + onNotes));
            AppendAssociative([NoteRow(RESTARTING_NOTE)], offNotes, onNotes);
            AppendAssociative(old(sent), Repeat("off", n), Repeat(thermostatData.hvacMode, m));
          } else {
            lastIsCooling, lastTemp := thermostatData.isCooling, thermostatData.currentTemperature;
          }
        } else {
          lastIsCooling, lastTemp := thermostatData.isCooling, thermostatData.currentTemperature;
        }
    }

    /** The first |polled| ticks of the never-ending poll loop, one read result per tick. */
    method RunTicks(polled: seq<Reading>)
      requires RunEnds(Current(), polled, responses)
      modifies this
      ensures var o := RunSpec(old(Current()), polled, old(responses));
        && Current() == o.baseline
        && log == old(log) + o.rows
        && sent == old(sent) + o.sent
        && responses == old(responses)[o.used..]
    {
      ghost var whole := RunSpec(Current(), polled, responses);
      assert whole == RunSpec(old(Current()), polled, old(responses));
      ghost var all := responses;
      ghost var done := Outcome(Current(), [], [], 0);
      var remaining := polled;
      while remaining != []
        invariant done.used <= |all| && responses == all[done.used..]
        invariant log == old(log) + done.rows && sent == old(sent) + done.sent
        invariant RunEnds(Current(), remaining, responses)
        invariant whole == Then(done, RunSpec(Current(), remaining, responses))
        decreases |remaining|
      {
        var read := remaining[0];
        ghost var before := responses;
        RunAdvance(whole, done, Current(), remaining, before);
        ghost var o := Tick(read);
        DropTwice(all, done.used, o.used);
        AppendAssociative(old(log), done.rows, o.rows);
        AppendAssociative(old(sent), done.sent, o.sent);
        done := Then(done, o);
        remaining := remaining[1..];
      }
      RunFinished(whole, done, Current(), responses);
    }
  }
}
