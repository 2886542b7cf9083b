/**
 * The monitor loop of battstatus. Each poll either fails (an error line, no
 * state change) or yields a power status. In verbose mode the whole record is
 * shown whenever any field differs from the last one shown. Otherwise a
 * battery-saver notice is written when Reserved1 changes (Windows 10 and
 * later), and one status line is written when battery presence, the charging
 * bit or the percentage changed. The only state is `prev`, the last status
 * written out.
 */
module Monitor {
  import opened Common
  import opened Labels
  import opened PowerStatus
  import opened StatusLines

  /** Settings fixed at start-up: the number of -v options, and the OS major version. */
  datatype Config = Config(verbose: nat, osMajorVersion: nat)

  /** One iteration's inputs: the power-status query (None when it fails) and the battery-rate query. */
  datatype Poll = Poll(status: Option<SystemPowerStatus>, rate: RateQuery)

  /** A verbose dump of the whole record (with the battery rate), or a status line. */
  datatype Line = Dump(status: SystemPowerStatus, milliwatts: int) | StatusLine(message: Message)

  /** What one iteration writes: an error for a failed query, or an optional
      battery-saver notice and an optional line. */
  datatype Tick = StatusQueryFailed | Observed(saverNotice: Option<string>, line: Option<Line>)

  datatype StepResult = StepResult(tick: Tick, prev: SystemPowerStatus)

  predicate HasLine(t: Tick) {
    t.Observed? && t.line.Some?
  }

  predicate HasNotice(t: Tick) {
    t.Observed? && t.saverNotice.Some?
  }

  /**
   * The status line category, first match wins: no battery, then charging,
   * then an unknown lifetime (fully charged only at 100% with a zero rate),
   * then the time remaining. Each category is stated below by its own
   * condition, so the conditions are exclusive and cover every status.
   */
  function SelectMessage(s: SystemPowerStatus, rate: RateQuery): (m: Message)
    ensures m.NoBatteryDetected? <==> NoBattery(s)
    ensures m.Available? <==> !NoBattery(s) && Charging(s)
    ensures m.FullyCharged? <==>
      !NoBattery(s) && !Charging(s) && s.batteryLifeTime == UnknownLifeTime
      && s.batteryLifePercent == 100 && GetBatteryMilliwatts(rate) == 0
    ensures m.PercentRemaining? <==>
      !NoBattery(s) && !Charging(s) && s.batteryLifeTime == UnknownLifeTime
      && !(s.batteryLifePercent == 100 && GetBatteryMilliwatts(rate) == 0)
    ensures m.TimeRemaining? <==>
      !NoBattery(s) && !Charging(s) && s.batteryLifeTime != UnknownLifeTime
    ensures !m.NoBatteryDetected? ==> m.percent == s.batteryLifePercent
    ensures m.Available? ==> (m.pluggedIn <==> s.acLineStatus == 1)
    ensures m.TimeRemaining? ==> m.lifeTime == s.batteryLifeTime
  {
    if NoBattery(s) then NoBatteryDetected
    else if Charging(s) then Available(s.batteryLifePercent, s.acLineStatus == 1)
    else if s.batteryLifeTime == UnknownLifeTime then
      if s.batteryLifePercent == 100 && GetBatteryMilliwatts(rate) == 0 then FullyCharged(s.batteryLifePercent)
      else PercentRemaining(s.batteryLifePercent)
    else TimeRemaining(s.batteryLifeTime, s.batteryLifePercent)
  }

  /** What the non-verbose check compares: battery presence, the charging bit and the percentage. */
  predicate SameSummary(a: SystemPowerStatus, b: SystemPowerStatus) {
    NoBattery(a) == NoBattery(b) && Charging(a) == Charging(b)
    && a.batteryLifePercent == b.batteryLifePercent
  }

  /** The battery-saver notice, written on Windows 10 and later when Reserved1 changed as a bool. */
  function SaverNotice(config: Config, prev: SystemPowerStatus, s: SystemPowerStatus): (notice: Option<string>)
    ensures notice.Some? <==> config.osMajorVersion >= 10 && BatterySaver(s) != BatterySaver(prev)
    ensures notice.Some? ==> notice.value == SystemStatusFlagStr(s.reserved1)
  {
    if config.osMajorVersion >= 10 && BatterySaver(s) != BatterySaver(prev)
    then Some(SystemStatusFlagStr(s.reserved1)) else None
  }

  /**
   * One iteration of the monitor loop. A failed query changes nothing; in
   * verbose mode a line is written exactly when some field changed; otherwise
   * exactly when presence, charging or percentage changed. `prev` becomes the
   * new status exactly when a line is written.
   */
  function Step(config: Config, prev: SystemPowerStatus, poll: Poll): (r: StepResult)
    ensures poll.status.None? ==> r == StepResult(StatusQueryFailed, prev)
    ensures poll.status.Some? ==> r.tick.Observed?
    ensures poll.status.Some? ==> r.prev == if r.tick.line.Some? then poll.status.value else prev
    ensures poll.status.Some? && config.verbose > 0 ==>
      r.tick.saverNotice.None? && (r.tick.line.Some? <==> poll.status.value != prev)
    ensures poll.status.Some? && config.verbose > 0 && r.tick.line.Some? ==>
      r.tick.line.value == Dump(poll.status.value, GetBatteryMilliwatts(poll.rate))
    ensures poll.status.Some? && config.verbose == 0 ==>
      r.tick.saverNotice == SaverNotice(config, prev, poll.status.value)
      && (r.tick.line.Some? <==> !SameSummary(prev, poll.status.value))
    ensures poll.status.Some? && config.verbose == 0 && r.tick.line.Some? ==>
      r.tick.line.value == StatusLine(SelectMessage(poll.status.value, poll.rate))
  {
    match poll.status
    case None => StepResult(StatusQueryFailed, prev)
    case Some(s) =>
      if config.verbose > 0 then
        if ComparePowerStatus(prev, s) == CpsEqual then StepResult(Observed(None, None), prev)
        else StepResult(Observed(None, Some(Dump(s, GetBatteryMilliwatts(poll.rate)))), s)
      else
        var notice := SaverNotice(config, prev, s);
        if SameSummary(prev, s) then StepResult(Observed(notice, None), prev)
        else StepResult(Observed(notice, Some(StatusLine(SelectMessage(s, poll.rate)))), s)
  }

  /** The ticks written for a run of polls and the `prev` status after them, from the zero record. */
  datatype RunState = RunState(ticks: seq<Tick>, prev: SystemPowerStatus)

  function Replay(config: Config, polls: seq<Poll>): (r: RunState)
    ensures |r.ticks| == |polls|
  {
    if polls == [] then RunState([], ZeroStatus)
    else
      var before := Replay(config, polls[..|polls| - 1]);
      var step := Step(config, before.prev, polls[|polls| - 1]);
      RunState(before.ticks + [step.tick], step.prev)
  }

  /** The polling loop of `main`, over a finite run of polls. */
  method MonitorLoop(config: Config, polls: seq<Poll>) returns (ticks: seq<Tick>, prev: SystemPowerStatus)
    ensures RunState(ticks, prev) == Replay(config, polls)
  {
    prev := ZeroStatus;
    ticks := [];
    var i := 0;
    while i < |polls|
      invariant 0 <= i <= |polls|
      invariant RunState(ticks, prev) == Replay(config, polls[..i])
    {
      var poll := polls[i];
      i := i + 1;
      assert polls[..i][..i - 1] == polls[..i - 1];

      if poll.status.None? {
        ticks := ticks + [StatusQueryFailed];
        continue;
      }
      var status := poll.status.value;

      if config.verbose > 0 {
        if ComparePowerStatus(prev, status) == CpsEqual {
          ticks := ticks + [Observed(None, None)];
          continue;
        }
        var mw := GetBatteryMilliwatts(poll.rate);
        ticks := ticks + [Observed(None, Some(Dump(status, mw)))];
        prev := status;
        continue;
      }

      var nobatt := NoBattery(status);
      var prevNobatt := NoBattery(prev);
      var battsaver := BatterySaver(status);
      var prevBattsaver := BatterySaver(prev);
      var charging := Charging(status);
      var prevCharging := Charging(prev);

      var notice: Option<string> := None;
      if config.osMajorVersion >= 10 && battsaver != prevBattsaver {
        notice := Some(SystemStatusFlagStr(status.reserved1));
      }

      if nobatt == prevNobatt && charging == prevCharging
        && status.batteryLifePercent == prev.batteryLifePercent
      {
        ticks := ticks + [Observed(notice, None)];
        continue;
      }

      var message: Message;
      if nobatt {
        message := NoBatteryDetected;
      } else if charging {
        message := Available(status.batteryLifePercent, status.acLineStatus == 1);
      } else if status.batteryLifeTime == UnknownLifeTime {
        if status.batteryLifePercent == 100 && GetBatteryMilliwatts(poll.rate) == 0 {
          message := FullyCharged(status.batteryLifePercent);
        } else {
          message := PercentRemaining(status.batteryLifePercent);
        }
      } else {
        message := TimeRemaining(status.batteryLifeTime, status.batteryLifePercent);
      }
      ticks := ticks + [Observed(notice, Some(StatusLine(message)))];
      prev := status;
    }
    assert polls[..|polls|] == polls;
  }

  /** Non-verbose: a change confined to the AC line status, the two lifetimes and Reserved1 writes no status line and keeps `prev`. */
  lemma VolatileFieldsPrintNoLine(config: Config, prev: SystemPowerStatus, poll: Poll,
                                  ac: Byte, lifeTime: DWord, fullLifeTime: DWord, saver: Byte)
    requires config.verbose == 0
    requires poll.status == Some(prev.(acLineStatus := ac, batteryLifeTime := lifeTime,
                                       batteryFullLifeTime := fullLifeTime, reserved1 := saver))
    ensures Step(config, prev, poll).tick.Observed?
    ensures Step(config, prev, poll).tick.line.None?
    ensures Step(config, prev, poll).prev == prev
  {
  }

  /** Polling the same status twice in a row: the second iteration writes no line, in either mode. */
  lemma RepeatedStatusPrintsNoLine(config: Config, prev: SystemPowerStatus, poll: Poll)
    requires poll.status.Some?
    ensures !HasLine(Step(config, Step(config, prev, poll).prev, poll).tick)
  {
  }

  /**
   * After any run, `prev` is the status of the last iteration that wrote a
   * line, or the zero record when no iteration did.
   */
  lemma {:induction false} PrevIsLastPrinted(config: Config, polls: seq<Poll>)
    ensures (forall i | 0 <= i < |polls| :: !HasLine(Replay(config, polls).ticks[i]))
            ==> Replay(config, polls).prev == ZeroStatus
    ensures forall i | 0 <= i < |polls| && HasLine(Replay(config, polls).ticks[i])
                       && (forall j | i < j < |polls| :: !HasLine(Replay(config, polls).ticks[j])) ::
              polls[i].status == Some(Replay(config, polls).prev)
  {
    if polls != [] {
      var n := |polls| - 1;
      var init := polls[..n];
      PrevIsLastPrinted(config, init);
      var before := Replay(config, init);
      var step := Step(config, before.prev, polls[n]);
      var r := Replay(config, polls);
      assert r.ticks == before.ticks + [step.tick];
      assert r.prev == step.prev;
      assert forall i | 0 <= i < n :: r.ticks[i] == before.ticks[i] && polls[i] == init[i];
      assert r.ticks[n] == step.tick;
      if !HasLine(step.tick) {
        assert step.prev == before.prev;
      } else {
        assert polls[n].status == Some(step.prev);
      }
    }
  }

  /** Battery-saver notice as written: `prev` is not updated when only Reserved1 changed. */
  const Plugged := ZeroStatus.(batteryLifePercent := 80, batteryLifeTime := 7200)
  const PluggedSaver := Plugged.(reserved1 := 1)
  const SaverPolls := [Poll(Some(Plugged), QueryFailed), Poll(Some(PluggedSaver), QueryFailed),
                       Poll(Some(PluggedSaver), QueryFailed), Poll(Some(PluggedSaver), QueryFailed)]

  /**
   * Turning battery saver on while nothing else changes makes every later
   * iteration repeat the notice: the status line is written once, then
   * "Battery saver is on" appears on each of the three following polls.
   */
  lemma SaverNoticeRepeats()
    ensures Replay(Config(0, 10), SaverPolls).ticks ==
      [Observed(None, Some(StatusLine(TimeRemaining(7200, 80)))),
       Observed(Some("Battery saver is on"), None),
       Observed(Some("Battery saver is on"), None),
       Observed(Some("Battery saver is on"), None)]
  {
    var c := Config(0, 10);
    var p0, p1 := Poll(Some(Plugged), QueryFailed), Poll(Some(PluggedSaver), QueryFailed);
    var s0: seq<Poll> := [];
    var s1 := s0 + [p0];
    var s2 := s1 + [p1];
    var s3 := s2 + [p1];
    var s4 := s3 + [p1];
    ReplaySnoc(c, s0, p0);
    assert Replay(c, s1).prev == Plugged;
    ReplaySnoc(c, s1, p1);
    assert Replay(c, s2).prev == Plugged;
    ReplaySnoc(c, s2, p1);
    assert Replay(c, s3).prev == Plugged;
    ReplaySnoc(c, s3, p1);
    assert SaverPolls == s4;
  }

  /** Unfolds one iteration of `Replay`. */
  lemma ReplaySnoc(config: Config, polls: seq<Poll>, poll: Poll)
    ensures Replay(config, polls + [poll]) ==
      RunState(Replay(config, polls).ticks + [Step(config, Replay(config, polls).prev, poll).tick],
               Step(config, Replay(config, polls).prev, poll).prev)
  {
    assert (polls + [poll])[..|polls|] == polls;
  }

  /** Unfolds one iteration of `CorrectedReplay`. */
  lemma CorrectedReplaySnoc(config: Config, polls: seq<Poll>, poll: Poll)
    ensures CorrectedReplay(config, polls + [poll]) ==
      RunState(CorrectedReplay(config, polls).ticks + [CorrectedStep(config, CorrectedReplay(config, polls).prev, poll).tick],
               CorrectedStep(config, CorrectedReplay(config, polls).prev, poll).prev)
  {
    assert (polls + [poll])[..|polls|] == polls;
  }

  /** The evident fix: when the notice is written without a line, `prev` records the new Reserved1. */
  function CorrectedStep(config: Config, prev: SystemPowerStatus, poll: Poll): (r: StepResult)
    ensures r.tick == Step(config, prev, poll).tick
    ensures r.prev == if r.tick.Observed? && r.tick.saverNotice.Some? && r.tick.line.None?
                      then prev.(reserved1 := poll.status.value.reserved1)
                      else Step(config, prev, poll).prev
  {
    var step := Step(config, prev, poll);
    match step.tick
    case Observed(Some(_), None) => StepResult(step.tick, prev.(reserved1 := poll.status.value.reserved1))
    case _ => step
  }

  /** With the fix, polling the same status again writes neither a notice nor a line. */
  lemma CorrectedNoticeOnce(config: Config, prev: SystemPowerStatus, poll: Poll)
    requires poll.status.Some?
    ensures CorrectedStep(config, CorrectedStep(config, prev, poll).prev, poll).tick == Observed(None, None)
  {
  }

  function CorrectedReplay(config: Config, polls: seq<Poll>): (r: RunState)
    ensures |r.ticks| == |polls|
  {
    if polls == [] then RunState([], ZeroStatus)
    else
      var before := CorrectedReplay(config, polls[..|polls| - 1]);
      var step := CorrectedStep(config, before.prev, polls[|polls| - 1]);
      RunState(before.ticks + [step.tick], step.prev)
  }

  /** The battery-saver state of the last poll that returned a status, or of the zero record when none did. */
  function LastSaver(polls: seq<Poll>): bool {
    if polls == [] then BatterySaver(ZeroStatus)
    else if polls[|polls| - 1].status.Some? then BatterySaver(polls[|polls| - 1].status.value)
    else LastSaver(polls[..|polls| - 1])
  }

  /** With the fix, the `prev` a successful poll leaves behind has that poll's battery-saver state
      (in verbose mode this holds as written too, since `prev` then becomes every new status). */
  lemma CorrectedPrevTracksSaver(config: Config, prev: SystemPowerStatus, poll: Poll)
    requires poll.status.Some? && (config.verbose > 0 || config.osMajorVersion >= 10)
    ensures BatterySaver(CorrectedStep(config, prev, poll).prev) == BatterySaver(poll.status.value)
  {
  }

  /**
   * With the fix, one notice per change: poll i writes the battery-saver
   * notice exactly when its battery-saver state differs from that of the last
   * successful poll before it, or from the zero record when there is none.
   */
  lemma {:induction false} CorrectedNoticePerChange(config: Config, polls: seq<Poll>)
    ensures (config.verbose > 0 || config.osMajorVersion >= 10) ==>
      BatterySaver(CorrectedReplay(config, polls).prev) == LastSaver(polls)
    ensures forall i | 0 <= i < |polls| && polls[i].status.Some? ::
      HasNotice(CorrectedReplay(config, polls).ticks[i]) <==>
        config.verbose == 0 && config.osMajorVersion >= 10
        && BatterySaver(polls[i].status.value) != LastSaver(polls[..i])
  {
    if polls != [] {
      var n := |polls| - 1;
      var init := polls[..n];
      CorrectedNoticePerChange(config, init);
      assert polls == init + [polls[n]];
      CorrectedReplaySnoc(config, init, polls[n]);
      var before := CorrectedReplay(config, init);
      var r := CorrectedReplay(config, polls);
      forall i | 0 <= i < n
        ensures r.ticks[i] == before.ticks[i] && polls[i] == init[i] && polls[..i] == init[..i]
      {
      }
      if polls[n].status.Some? {
        if config.verbose > 0 || config.osMajorVersion >= 10 {
          CorrectedPrevTracksSaver(config, before.prev, polls[n]);
        }
        assert r.ticks[n] == CorrectedStep(config, before.prev, polls[n]).tick;
      }
    }
  }

  /** `c` is a corrected-loop `prev` that stands in for the as-written `a`. */
  predicate Tracks(config: Config, c: SystemPowerStatus, a: SystemPowerStatus) {
    c == a.(reserved1 := c.reserved1) && (config.verbose > 0 ==> c == a)
  }

  lemma CorrectedStepKeepsLine(config: Config, c: SystemPowerStatus, a: SystemPowerStatus, poll: Poll)
    requires Tracks(config, c, a)
    ensures CorrectedStep(config, c, poll).tick.Observed? == Step(config, a, poll).tick.Observed?
    ensures Step(config, a, poll).tick.Observed? ==>
      CorrectedStep(config, c, poll).tick.line == Step(config, a, poll).tick.line
    ensures Tracks(config, CorrectedStep(config, c, poll).prev, Step(config, a, poll).prev)
  {
    assert SameSummary(a, c) == true;
  }

  /** The fix changes only the notices: every iteration fails or writes a line exactly as before. */
  lemma {:induction false} CorrectedReplayKeepsLines(config: Config, polls: seq<Poll>)
    ensures forall i | 0 <= i < |polls| ::
      CorrectedReplay(config, polls).ticks[i].Observed? == Replay(config, polls).ticks[i].Observed?
    ensures forall i | 0 <= i < |polls| && Replay(config, polls).ticks[i].Observed? ::
      CorrectedReplay(config, polls).ticks[i].line == Replay(config, polls).ticks[i].line
    ensures Tracks(config, CorrectedReplay(config, polls).prev, Replay(config, polls).prev)
  {
    if polls != [] {
      var n := |polls| - 1;
      var init := polls[..n];
      CorrectedReplayKeepsLines(config, init);
      assert polls == init + [polls[n]];
      ReplaySnoc(config, init, polls[n]);
      CorrectedReplaySnoc(config, init, polls[n]);
      CorrectedStepKeepsLine(config, CorrectedReplay(config, init).prev, Replay(config, init).prev, polls[n]);
    }
  }

  /** The fixed notice run: the status line, then the notice once. */
  lemma CorrectedSaverNoticeOnce()
    ensures CorrectedReplay(Config(0, 10), SaverPolls).ticks ==
      [Observed(None, Some(StatusLine(TimeRemaining(7200, 80)))),
       Observed(Some("Battery saver is on"), None),
       Observed(None, None),
       Observed(None, None)]
  {
    var c := Config(0, 10);
    var p0, p1 := Poll(Some(Plugged), QueryFailed), Poll(Some(PluggedSaver), QueryFailed);
    var s0: seq<Poll> := [];
    var s1 := s0 + [p0];
    var s2 := s1 + [p1];
    var s3 := s2 + [p1];
    var s4 := s3 + [p1];
    CorrectedReplaySnoc(c, s0, p0);
    assert CorrectedReplay(c, s1).prev == Plugged;
    CorrectedReplaySnoc(c, s1, p1);
    assert CorrectedReplay(c, s2).prev == PluggedSaver;
    CorrectedReplaySnoc(c, s2, p1);
    assert CorrectedReplay(c, s3).prev == PluggedSaver;
    CorrectedReplaySnoc(c, s3, p1);
    assert SaverPolls == s4;
  }
}
