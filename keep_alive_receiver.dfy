/**
 * The broadcast receiver: an unlock or a screen-on stamps activity at once
 * (whether or not monitoring is on) and, when monitoring is on, asks for an
 * immediate one-off check; boot completion restarts the periodic check and
 * the foreground listener when monitoring is on.
 */
module KeepAlive {
  import opened Wrappers
  import opened ActivityStore
  import opened CheckAlive

  /** The broadcast action; any action the receiver does not list is `OtherAction`. */
  datatype Action = UserPresent | ScreenOn | BootCompleted | OtherAction

  /** The scheduling requests the receiver makes. */
  datatype ReceiveEffect = ReceiveEffect(
    immediateCheck: bool,      // one-off check enqueued
    restartMonitoring: bool)   // periodic check re-enqueued and foreground listener started

  datatype ReceiveOutcome = ReceiveOutcome(prefs: Prefs, effect: ReceiveEffect)

  predicate IsScreenEvent(action: Action) {
    action == UserPresent || action == ScreenOn
  }

  function EventName(action: Action): ScreenEvent {
    if action == UserPresent then Unlocked else ScreenLit
  }

  function Receive(p: Prefs, action: Action, now: int): (r: ReceiveOutcome)
    ensures IsScreenEvent(action) ==>
              r.prefs == p.(lastActive := Some(now), lastSyncLog := Some(LocalActive(now, EventName(action))))
    ensures !IsScreenEvent(action) ==> r.prefs == p
    ensures r.effect.immediateCheck <==> IsScreenEvent(action) && p.IsEnabled()
    ensures r.effect.restartMonitoring <==> action == BootCompleted && p.IsEnabled()
  {
    match action
    case UserPresent | ScreenOn =>
      var q := p.(lastActive := Some(now)).(lastSyncLog := Some(LocalActive(now, EventName(action))));
      ReceiveOutcome(q, ReceiveEffect(p.IsEnabled(), false))
    case BootCompleted =>
      ReceiveOutcome(p, ReceiveEffect(false, p.IsEnabled()))
    case OtherAction =>
      ReceiveOutcome(p, ReceiveEffect(false, false))
  }

  /** The receiver's stamp keeps the client invariant when the clock has not run backwards. */
  lemma ReceiveKeepsSyncedNotAhead(p: Prefs, action: Action, now: int)
    requires p.SyncedNotAhead(now) && p.StampNotAfter(now)
    ensures Receive(p, action, now).prefs.SyncedNotAhead(now)
    ensures Receive(p, action, now).prefs.StampNotAfter(now)
  {
  }

  /**
   * An unlock after the last synced point is reported by the next check, even
   * if that check sees the screen off and no steps.
   */
  lemma UnlockIsReportedByNextCheck(p: Prefs, cfg: AppConfig, t: int, input: TickInput)
    requires p.IsEnabled() && p.LastSyncedTimestamp() < t <= input.now
    ensures Receive(p, UserPresent, t).effect.immediateCheck
    ensures Tick(Receive(p, UserPresent, t).prefs, cfg, input).report.heartbeatSent
  {
    var q := Receive(p, UserPresent, t).prefs;
    assert q.LastSyncedTimestamp() == p.LastSyncedTimestamp();
    assert ActivePoint(q, input) >= t;
  }

  /** A stamp while monitoring is off is kept but starts nothing. */
  lemma DisabledStampSchedulesNothing(p: Prefs, action: Action, now: int)
    requires !p.IsEnabled()
    ensures Receive(p, action, now).effect == ReceiveEffect(false, false)
  {
  }

  /** `onReceive`, for one broadcast. */
  method OnReceive(m: UserActivityManager, action: Action, now: int) returns (effect: ReceiveEffect)
    modifies m
    ensures ReceiveOutcome(m.prefs, effect) == Receive(old(m.prefs), action, now)
  {
    effect := ReceiveEffect(false, false);
    match action {
      case UserPresent | ScreenOn =>
        m.UpdateLastActiveTime(now);
        m.UpdateSyncLogByEvent(EventName(action), now);
        if m.prefs.IsEnabled() {
          effect := effect.(immediateCheck := true);
        }
      case BootCompleted =>
        if m.prefs.IsEnabled() {
          effect := effect.(restartMonitoring := true);
        }
      case OtherAction =>
    }
  }
}
