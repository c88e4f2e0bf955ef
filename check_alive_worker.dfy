/**
 * One run of the periodic background check on the device: gate on the
 * monitoring switch, detect new activity (screen on, a stamp newer than the
 * last synced point, or a step-counter increase), send one heartbeat when
 * there is some, advance the synced point only on an acknowledged heartbeat,
 * and raise the local warning when the elapsed time falls in the band just
 * before the timeout.
 */
module CheckAlive {
  import opened Wrappers
  import opened ActivityStore

  /** How the heartbeat request ended: an HTTP status, or an exception before any response. */
  datatype HeartbeatResult = HttpResponse(code: int) | Exception {
    /** Retrofit's `isSuccessful`: a 2xx status. */
    predicate IsSuccessful() {
      HttpResponse? && 200 <= code <= 299
    }
  }

  /**
   * What the tick reads from outside the activity record: the clock, the
   * screen's interactive flag, the step counter (absent when no sensor or no
   * reading in time), the UUID drawn if the device id is still unset, and the
   * result of the heartbeat request if one is sent.
   */
  datatype TickInput = TickInput(
    now: int,
    interactive: bool,
    stepSample: Option<nat>,
    generatedId: string,
    heartbeat: HeartbeatResult)

  /** What the tick did outside the activity record. */
  datatype TickReport = TickReport(heartbeatSent: bool, warningShown: bool)

  datatype TickOutcome = TickOutcome(prefs: Prefs, report: TickReport)

  const MILLIS_PER_MINUTE: int := 60_000

  /** A step reading is activity only above a positive stored count. */
  predicate StepIncrease(lastSteps: nat, sample: Option<nat>) {
    sample.Some? && lastSteps > 0 && sample.value > lastSteps
  }

  /** Strictly inside the advance-warning window that ends at the timeout. */
  predicate InWarningBand(diff: int, timeoutMillis: int, advanceWarningMinutes: int) {
    timeoutMillis - advanceWarningMinutes * MILLIS_PER_MINUTE < diff < timeoutMillis
  }

  /** The last-active value the tick reads after the screen check: the one its warning uses. */
  function ActivePoint(p: Prefs, input: TickInput): int {
    if input.interactive then input.now else p.LastActiveTime(input.now)
  }

  /** Whether the tick sends a heartbeat, by the source's two detection rules. */
  predicate DetectsActivity(p: Prefs, input: TickInput) {
    p.IsEnabled()
    && (ActivePoint(p, input) > p.LastSyncedTimestamp() || StepIncrease(p.LastStepCount(), input.stepSample))
  }

  /** The heartbeat step: record the outcome, advancing the synced point only on a 2xx. */
  function Sync(p: Prefs, input: TickInput): (r: Prefs)
    // The synced point becomes the last-active point on a 2xx, and stays otherwise.
    ensures r.lastSynced == if input.heartbeat.IsSuccessful() then Some(p.LastActiveTime(input.now)) else p.lastSynced
    // The log records which of the three outcomes happened, stamped now.
    ensures input.heartbeat.IsSuccessful() ==> r.lastSyncLog == Some(SyncSucceeded(input.now))
    ensures input.heartbeat.HttpResponse? && !input.heartbeat.IsSuccessful() ==>
              r.lastSyncLog == Some(SyncRejected(input.now, input.heartbeat.code))
    ensures input.heartbeat.Exception? ==> r.lastSyncLog == Some(NetworkFailed(input.now))
    // The request carries the device id, drawn and stored first if unset.
    ensures r.deviceId == if p.deviceId.Some? then p.deviceId else Some(input.generatedId)
    // Nothing else is written.
    ensures r == p.(lastSynced := r.lastSynced, lastSyncLog := r.lastSyncLog, deviceId := r.deviceId)
  {
    var updatedLastActive := p.LastActiveTime(input.now);
    var (p1, _) := InitDeviceId(p, input.generatedId);
    match input.heartbeat
    case HttpResponse(code) =>
      if input.heartbeat.IsSuccessful() then
        p1.(lastSynced := Some(updatedLastActive), lastSyncLog := Some(SyncSucceeded(input.now)))
      else
        p1.(lastSyncLog := Some(SyncRejected(input.now, code)))
    case Exception =>
      p1.(lastSyncLog := Some(NetworkFailed(input.now)))
  }

  /** The whole tick as a function of the stored record and the inputs. */
  function Tick(p: Prefs, cfg: AppConfig, input: TickInput): (r: TickOutcome)
    // Monitoring off: nothing is read, written or sent.
    ensures !p.IsEnabled() ==> r == TickOutcome(p, TickReport(false, false))
    // A heartbeat goes out exactly when one of the two detection rules fires.
    ensures r.report.heartbeatSent <==> DetectsActivity(p, input)
    // The stored step count is overwritten by every sample, up or down.
    ensures p.IsEnabled() && input.stepSample.Some? ==> r.prefs.lastStepCount == Some(input.stepSample.value)
    ensures input.stepSample.None? ==> r.prefs.lastStepCount == p.lastStepCount
    // Last-active is restamped by a lit screen or by a step increase the timestamps missed.
    ensures r.prefs.lastActive ==
              if p.IsEnabled() && (input.interactive
                                   || (ActivePoint(p, input) <= p.LastSyncedTimestamp()
                                       && StepIncrease(p.LastStepCount(), input.stepSample)))
              then Some(input.now) else p.lastActive
    // The synced point moves only on an acknowledged heartbeat, and then to the last-active point.
    ensures r.prefs.lastSynced ==
              if r.report.heartbeatSent && input.heartbeat.IsSuccessful()
              then Some(r.prefs.LastActiveTime(input.now)) else p.lastSynced
    // Only a heartbeat attempt writes the log; either way the warning is still evaluated.
    ensures !r.report.heartbeatSent ==> r.prefs.lastSyncLog == p.lastSyncLog && r.prefs.deviceId == p.deviceId
    ensures r.report.heartbeatSent && p.deviceId.None? ==> r.prefs.deviceId == Some(input.generatedId)
    ensures p.deviceId.Some? ==> r.prefs.deviceId == p.deviceId
    // The log names the heartbeat's outcome.
    ensures r.report.heartbeatSent && input.heartbeat.IsSuccessful() ==>
              r.prefs.lastSyncLog == Some(SyncSucceeded(input.now))
    ensures r.report.heartbeatSent && input.heartbeat.HttpResponse? && !input.heartbeat.IsSuccessful() ==>
              r.prefs.lastSyncLog == Some(SyncRejected(input.now, input.heartbeat.code))
    ensures r.report.heartbeatSent && input.heartbeat.Exception? ==>
              r.prefs.lastSyncLog == Some(NetworkFailed(input.now))
    // The warning uses the last-active value read before any step restamp.
    ensures r.report.warningShown <==>
              p.IsEnabled()
              && InWarningBand(input.now - ActivePoint(p, input), p.TimeoutMillis(cfg), cfg.advanceWarningMinutes)
    // The settings are never written by a tick.
    ensures r.prefs.timeoutHours == p.timeoutHours && r.prefs.emergencyEmail == p.emergencyEmail
    ensures r.prefs.isEnabled == p.isEnabled && r.prefs.userName == p.userName
    ensures r.prefs.serverUrl == p.serverUrl
  {
    if !p.IsEnabled() then TickOutcome(p, TickReport(false, false))
    else
      var now := input.now;
      var p1 := if input.interactive then p.(lastActive := Some(now)) else p;
      var lastActive := p1.LastActiveTime(now);
      var byTime := lastActive > p1.LastSyncedTimestamp();
      var bySteps := !byTime && StepIncrease(p1.LastStepCount(), input.stepSample);
      var p2 := if bySteps then p1.(lastActive := Some(now)) else p1;
      var p3 := if input.stepSample.Some? then p2.(lastStepCount := Some(input.stepSample.value)) else p2;
      var detected := byTime || bySteps;
      var p4 := if detected then Sync(p3, input) else p3;
      var warn := InWarningBand(now - lastActive, p4.TimeoutMillis(cfg), cfg.advanceWarningMinutes);
      TickOutcome(p4, TickReport(detected, warn))
  }

  /**
   * A tick keeps the synced point at or before the last-active point, and
   * never moves last-active past the clock, provided the stored record
   * already satisfied both.
   */
  lemma TickKeepsSyncedNotAhead(p: Prefs, cfg: AppConfig, input: TickInput)
    requires p.SyncedNotAhead(input.now) && p.StampNotAfter(input.now)
    ensures var q := Tick(p, cfg, input).prefs;
            q.SyncedNotAhead(input.now) && q.StampNotAfter(input.now)
            && q.LastActiveTime(input.now) >= p.LastActiveTime(input.now)
  {
  }

  /** The invariant survives the passage of time between ticks. */
  lemma SyncedNotAheadLater(p: Prefs, now: int, later: int)
    requires p.SyncedNotAhead(now) && p.StampNotAfter(now) && now <= later
    ensures p.SyncedNotAhead(later) && p.StampNotAfter(later)
  {
  }

  /**
   * Any two ticks in clock order keep the client invariant: it holds between
   * ticks, when the clock has moved on, as well as across each tick.
   */
  lemma TwoTicksKeepSyncedNotAhead(p: Prefs, cfg: AppConfig, first: TickInput, second: TickInput)
    requires p.SyncedNotAhead(first.now) && p.StampNotAfter(first.now) && first.now <= second.now
    ensures var q := Tick(Tick(p, cfg, first).prefs, cfg, second).prefs;
            q.SyncedNotAhead(second.now) && q.StampNotAfter(second.now)
  {
    var q1 := Tick(p, cfg, first).prefs;
    TickKeepsSyncedNotAhead(p, cfg, first);
    SyncedNotAheadLater(q1, first.now, second.now);
    TickKeepsSyncedNotAhead(q1, cfg, second);
  }

  /**
   * Idempotence: after an acknowledged heartbeat, a tick that sees no screen
   * and no step increase sends nothing, so a stale activity point is never
   * reported twice.
   */
  lemma NoSecondHeartbeat(p: Prefs, cfg: AppConfig, first: TickInput, second: TickInput)
    requires Tick(p, cfg, first).report.heartbeatSent && first.heartbeat.IsSuccessful()
    requires Tick(p, cfg, first).prefs.lastActive.Some?
    requires !second.interactive
    requires !StepIncrease(Tick(p, cfg, first).prefs.LastStepCount(), second.stepSample)
    ensures !Tick(Tick(p, cfg, first).prefs, cfg, second).report.heartbeatSent
  {
    var q := Tick(p, cfg, first).prefs;
    assert q.LastSyncedTimestamp() == q.LastActiveTime(first.now) == q.LastActiveTime(second.now);
  }

  /**
   * Retry: a heartbeat that was sent and not acknowledged, whichever activity
   * triggered it, is sent again by the next tick, whatever that tick observes.
   */
  lemma FailedHeartbeatIsRetried(p: Prefs, cfg: AppConfig, first: TickInput, second: TickInput)
    requires Tick(p, cfg, first).report.heartbeatSent && !first.heartbeat.IsSuccessful()
    requires p.StampNotAfter(first.now) && first.now <= second.now
    requires p.LastSyncedTimestamp() < first.now
    ensures Tick(p, cfg, first).prefs.lastSynced == p.lastSynced
    ensures Tick(Tick(p, cfg, first).prefs, cfg, second).report.heartbeatSent
  {
  }

  /**
   * An activity point later than the synced one, from the stored stamp or from
   * the screen, triggers a heartbeat; if it is not acknowledged, the next tick
   * sends again.
   */
  lemma ActivePointFailureIsRetried(p: Prefs, cfg: AppConfig, first: TickInput, second: TickInput)
    requires p.IsEnabled() && ActivePoint(p, first) > p.LastSyncedTimestamp()
    requires !first.heartbeat.IsSuccessful()
    requires p.StampNotAfter(first.now) && first.now <= second.now
    ensures Tick(p, cfg, first).report.heartbeatSent
    ensures Tick(p, cfg, first).prefs.lastSynced == p.lastSynced
    ensures Tick(Tick(p, cfg, first).prefs, cfg, second).report.heartbeatSent
  {
    FailedHeartbeatIsRetried(p, cfg, first, second);
  }

  /** With an unset last-active key the getter answers "now", so every such tick reports again. */
  lemma UnsetStampResends(p: Prefs, cfg: AppConfig, first: TickInput, second: TickInput)
    requires p.IsEnabled() && p.lastActive.None?
    requires !first.interactive && !second.interactive && first.now < second.now
    requires first.heartbeat.IsSuccessful() && p.LastSyncedTimestamp() < first.now
    ensures Tick(p, cfg, first).report.heartbeatSent
    ensures Tick(Tick(p, cfg, first).prefs, cfg, second).report.heartbeatSent
  {
  }

  /** Equal stamps mean the activity point was already reported: no heartbeat. */
  lemma EqualStampsSendNothing(p: Prefs, cfg: AppConfig, input: TickInput, t: int)
    requires p.IsEnabled() && p.lastActive == Some(t) && p.lastSynced == Some(t)
    requires !input.interactive && input.stepSample.None?
    ensures Tick(p, cfg, input) == TickOutcome(p, Tick(p, cfg, input).report)
    ensures !Tick(p, cfg, input).report.heartbeatSent
  {
  }

  /** Steps 100 to 105 with the stamps in sync: activity, and last-active moves to the tick time. */
  lemma StepIncreaseScenario(p: Prefs, cfg: AppConfig, input: TickInput, t: int)
    requires p.IsEnabled() && p.lastActive == Some(t) && p.lastSynced == Some(t)
    requires p.lastStepCount == Some(100) && input.stepSample == Some(105)
    requires !input.interactive
    ensures Tick(p, cfg, input).report.heartbeatSent
    ensures Tick(p, cfg, input).prefs.lastActive == Some(input.now)
    ensures Tick(p, cfg, input).prefs.lastStepCount == Some(105)
  {
  }

  /** With no stored step count, the first reading is only recorded, never activity. */
  lemma FirstStepReadingIsNotActivity(p: Prefs, cfg: AppConfig, input: TickInput, steps: nat)
    requires p.IsEnabled() && p.lastStepCount.None? && input.stepSample == Some(steps)
    requires !input.interactive && ActivePoint(p, input) <= p.LastSyncedTimestamp()
    ensures !Tick(p, cfg, input).report.heartbeatSent
    ensures Tick(p, cfg, input).prefs.lastStepCount == Some(steps)
  {
  }

  /**
   * `doWork`, step by step through the manager.  Every path ends in
   * `Result.success()`, so the method returns only what it did.
   */
  method DoWork(m: UserActivityManager, input: TickInput) returns (report: TickReport)
    modifies m
    ensures TickOutcome(m.prefs, report) == Tick(old(m.prefs), m.config, input)
  {
    if !m.prefs.IsEnabled() {
      return TickReport(false, false);
    }
    if input.interactive {
      m.UpdateLastActiveTime(input.now);
    }
    var lastActive := m.prefs.LastActiveTime(input.now);
    var lastSynced := m.prefs.LastSyncedTimestamp();
    var now := input.now;

    var activityDetected := false;
    if lastActive > lastSynced {
      activityDetected := true;
    }

    var currentSteps := input.stepSample;
    if currentSteps.Some? {
      var lastSteps := m.prefs.LastStepCount();
      if !activityDetected && lastSteps > 0 && currentSteps.value > lastSteps {
        activityDetected := true;
        m.UpdateLastActiveTime(now);
      }
      m.SetLastStepCount(currentSteps.value);
    }

    if activityDetected {
      var updatedLastActive := m.prefs.LastActiveTime(now);
      var deviceId := m.DeviceId(input.generatedId);
      match input.heartbeat {
        case HttpResponse(code) =>
          if input.heartbeat.IsSuccessful() {
            m.SetLastSyncedTimestamp(updatedLastActive);
            m.SetLastSyncLog(SyncSucceeded(now));
          } else {
            m.SetLastSyncLog(SyncRejected(now, code));
          }
        case Exception =>
          m.SetLastSyncLog(NetworkFailed(now));
      }
    }

    var timeoutMillis := m.prefs.TimeoutMillis(m.config);
    var diff := now - lastActive;
    var warningThreshold := timeoutMillis - m.config.advanceWarningMinutes * MILLIS_PER_MINUTE;
    report := TickReport(activityDetected, diff > warningThreshold && diff < timeoutMillis);
  }
}
