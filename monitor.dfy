/**
 * The server's periodic sweep over all user records: the Live/Alerting state
 * machine whose Live-to-Alerting edge needs a delivered alert email and whose
 * Alerting-to-Live fallback edge needs a delivered resolved email; the email
 * sender's guard and template choice; and the monitor's status report.
 */
module Monitor {
  import opened Wrappers
  import opened UserRecords

  // ---------------------------------------------------------------------------
  // The email sender
  // ---------------------------------------------------------------------------

  datatype MailKind = AlertMail | ResolvedMail

  /** The message chosen for a send: the alert text carries the whole hours of inactivity. */
  datatype Template = AlertTemplate(hoursInactive: int) | ResolvedTemplate

  /**
   * What the sender depends on outside the record: whether the system
   * account's address and password are configured, whether a device's stored
   * contact decrypts (a corrupt or foreign ciphertext throws), and whether the
   * mail transport accepts a message.
   */
  datatype MailEnv = MailEnv(
    systemCredentials: bool,
    decrypts: string -> bool,
    delivers: (string, Template) -> bool)

  /** `sendEmail` returns a flag, or an exception escapes it. */
  datatype SendResult = Returned(ok: bool) | Threw

  /** The elapsed whole hours, `Math.floor(diffMs / 3600000)`. */
  function HoursInactive(diffMs: int): (h: int)
    ensures h * MILLIS_PER_HOUR <= diffMs < (h + 1) * MILLIS_PER_HOUR
  {
    diffMs / MILLIS_PER_HOUR
  }

  function ChooseTemplate(kind: MailKind, diffMs: int): (t: Template)
    ensures t.ResolvedTemplate? <==> kind == ResolvedMail
    ensures t.AlertTemplate? ==> t.hoursInactive == HoursInactive(diffMs)
  {
    match kind
    case AlertMail => AlertTemplate(HoursInactive(diffMs))
    case ResolvedMail => ResolvedTemplate
  }

  /** A usable destination: a non-empty decrypted contact. */
  predicate HasDestination(u: UserRecord) {
    u.emergencyContact.Some? && u.emergencyContact.value != ""
  }

  /**
   * `sendEmail`: refuses without system credentials or without a destination,
   * otherwise reports whether the transport delivered.  The contact is
   * decrypted outside the sender's own error handling, so a failed decryption
   * escapes as an exception.
   */
  function SendEmail(env: MailEnv, u: UserRecord, kind: MailKind, diffMs: int): (r: SendResult)
    ensures !env.systemCredentials ==> r == Returned(false)
    ensures r == Threw <==> env.systemCredentials && u.emergencyContact.Some? && !env.decrypts(u.deviceId)
    ensures r == Returned(true) <==>
              env.systemCredentials && HasDestination(u) && env.decrypts(u.deviceId)
              && env.delivers(u.deviceId, ChooseTemplate(kind, diffMs))
  {
    if !env.systemCredentials then Returned(false)
    else if u.emergencyContact.Some? && !env.decrypts(u.deviceId) then Threw
    else if !HasDestination(u) then Returned(false)
    else Returned(env.delivers(u.deviceId, ChooseTemplate(kind, diffMs)))
  }

  // ---------------------------------------------------------------------------
  // One record's decision
  // ---------------------------------------------------------------------------

  /** What the sweep depends on besides mail: whether loading all rows and saving one row succeed. */
  datatype SweepEnv = SweepEnv(mail: MailEnv, loads: bool, saves: string -> bool)

  /**
   * The outcome for one record: the record as stored afterwards, the email it
   * attempted, and whether an exception (from the sender or from saving) ended
   * the processing of that record.
   */
  datatype UserStep = UserStep(user: UserRecord, mailed: Option<MailKind>, threw: bool)

  /** Everything the sweep never writes. */
  predicate SameIdentity(u: UserRecord, v: UserRecord) {
    v.deviceId == u.deviceId && v.userName == u.userName && v.timeoutHours == u.timeoutHours
    && v.lastHeartbeat == u.lastHeartbeat && v.emergencyContact == u.emergencyContact
  }

  /** Flip `isAlerting` to `alerting` after a delivered email, if the save goes through. */
  function AfterSend(u: UserRecord, kind: MailKind, sent: SendResult, flipped: UserRecord, env: SweepEnv): UserStep {
    match sent
    case Threw => UserStep(u, Some(kind), true)
    case Returned(ok) =>
      if !ok then UserStep(u, Some(kind), false)
      else if env.saves(u.deviceId) then UserStep(flipped, Some(kind), false)
      else UserStep(u, Some(kind), true)
  }

  function CheckUser(u: UserRecord, now: int, env: SweepEnv): (r: UserStep)
    ensures SameIdentity(u, r.user)
    ensures r.threw ==> r.user == u
    // The record's processing throws exactly when the sender throws, or when
    // a delivered email's save is rejected.
    ensures r.threw <==>
              r.mailed.Some?
              && (SendEmail(env.mail, u, r.mailed.value, u.Elapsed(now)) == Threw
                  || (SendEmail(env.mail, u, r.mailed.value, u.Elapsed(now)) == Returned(true)
                      && !env.saves(u.deviceId)))
    // A rejected save leaves the stored record as it was.
    ensures !env.saves(u.deviceId) ==> r.user == u
    // An email is attempted exactly on the two state-machine edges.
    ensures r.mailed == Some(AlertMail) <==> u.Overdue(now) && !u.isAlerting
    ensures r.mailed == Some(ResolvedMail) <==> !u.Overdue(now) && u.isAlerting
    // Live to Alerting only when overdue and the alert was delivered; the alert time is the sweep time.
    ensures !u.isAlerting && r.user.isAlerting ==>
              u.Overdue(now) && SendEmail(env.mail, u, AlertMail, u.Elapsed(now)) == Returned(true)
              && r.user.lastAlertTime == Some(now)
    ensures u.Overdue(now) && !u.isAlerting && SendEmail(env.mail, u, AlertMail, u.Elapsed(now)) == Returned(true)
              && env.saves(u.deviceId) ==>
              r.user == u.(isAlerting := true, lastAlertTime := Some(now))
    // Alerting to Live only when no longer overdue and the resolved email was delivered.
    ensures u.isAlerting && !r.user.isAlerting ==>
              !u.Overdue(now) && SendEmail(env.mail, u, ResolvedMail, u.Elapsed(now)) == Returned(true)
    ensures !u.Overdue(now) && u.isAlerting && SendEmail(env.mail, u, ResolvedMail, u.Elapsed(now)) == Returned(true)
              && env.saves(u.deviceId) ==>
              r.user == u.(isAlerting := false)
    // A send that reports failure changes nothing, so the next sweep tries again.
    ensures r.mailed.Some? && SendEmail(env.mail, u, r.mailed.value, u.Elapsed(now)) == Returned(false) ==>
              r == UserStep(u, r.mailed, false)
    // Already alerting and still overdue: no second alert.
    ensures u.Overdue(now) && u.isAlerting ==> r == UserStep(u, None, false)
    ensures !u.Overdue(now) && !u.isAlerting ==> r == UserStep(u, None, false)
    ensures r.user.lastAlertTime != u.lastAlertTime ==> r.user.lastAlertTime == Some(now)
  {
    var diff := u.Elapsed(now);
    if diff > u.TimeoutMillis() then
      if !u.isAlerting then
        AfterSend(u, AlertMail, SendEmail(env.mail, u, AlertMail, diff),
                  u.(isAlerting := true, lastAlertTime := Some(now)), env)
      else
        UserStep(u, None, false)
    else if u.isAlerting then
      AfterSend(u, ResolvedMail, SendEmail(env.mail, u, ResolvedMail, diff), u.(isAlerting := false), env)
    else
      UserStep(u, None, false)
  }

  /** One record's decision keeps its alerting state justified. */
  lemma CheckUserKeepsAlertJustified(u: UserRecord, now: int, env: SweepEnv)
    requires u.AlertJustified()
    ensures CheckUser(u, now, env).user.AlertJustified()
  {
  }

  // ---------------------------------------------------------------------------
  // The sweep
  // ---------------------------------------------------------------------------

  /**
   * The sweep with every record processed on its own: a record whose
   * processing throws keeps its stored state and the sweep goes on.
   */
  function SweepEach(rows: seq<UserRecord>, now: int, env: SweepEnv): (r: seq<UserRecord>)
    ensures |r| == |rows|
    ensures forall i :: 0 <= i < |rows| ==> r[i] == CheckUser(rows[i], now, env).user
  {
    if rows == [] then []
    else [CheckUser(rows[0], now, env).user] + SweepEach(rows[1..], now, env)
  }

  /**
   * A sweep: when the rows load, each ends as its own step leaves it; when
   * loading fails, the error is caught and nothing changes.
   */
  function Sweep(rows: seq<UserRecord>, now: int, env: SweepEnv): (r: seq<UserRecord>)
    ensures |r| == |rows|
    ensures forall i :: 0 <= i < |rows| ==>
              r[i] == if env.loads then CheckUser(rows[i], now, env).user else rows[i]
  {
    if env.loads then SweepEach(rows, now, env) else rows
  }

  /**
   * No record's outcome depends on any other record: each row ends as if it
   * had been swept alone.
   */
  lemma SweepIsolatesRecords(rows: seq<UserRecord>, now: int, env: SweepEnv, i: nat)
    requires i < |rows| && env.loads
    ensures Sweep(rows, now, env)[i] == Sweep([rows[i]], now, env)[0]
  {
  }

  /** The sweep never writes heartbeat, timeout, name or contact, and keeps ids, so keys stay unique. */
  lemma SweepKeepsIdentity(rows: seq<UserRecord>, now: int, env: SweepEnv)
    ensures |Sweep(rows, now, env)| == |rows|
    ensures forall i :: 0 <= i < |rows| ==> SameIdentity(rows[i], Sweep(rows, now, env)[i])
    ensures UniqueIds(rows) ==> UniqueIds(Sweep(rows, now, env))
  {
    var r := Sweep(rows, now, env);
    if UniqueIds(rows) {
      SameIdsKeepUnique(rows, r);
    }
  }

  /** Every record whose alerting state was justified still has a justified one after a sweep. */
  lemma SweepKeepsAlertJustified(rows: seq<UserRecord>, now: int, env: SweepEnv)
    requires forall i :: 0 <= i < |rows| ==> rows[i].AlertJustified()
    ensures forall i :: 0 <= i < |rows| ==> Sweep(rows, now, env)[i].AlertJustified()
  {
    forall i | 0 <= i < |rows|
      ensures Sweep(rows, now, env)[i].AlertJustified()
    {
      CheckUserKeepsAlertJustified(rows[i], now, env);
    }
  }

  /** The scenario: 24-hour timeout, last heartbeat 25 hours ago, delivered alert. */
  lemma AlertScenario(u: UserRecord, now: int, env: SweepEnv)
    requires u.timeoutHours == 24 && u.lastHeartbeat == now - 25 * MILLIS_PER_HOUR && !u.isAlerting
    requires env.mail.systemCredentials && HasDestination(u) && env.mail.decrypts(u.deviceId)
    requires env.mail.delivers(u.deviceId, AlertTemplate(25)) && env.saves(u.deviceId)
    ensures CheckUser(u, now, env).user == u.(isAlerting := true, lastAlertTime := Some(now))
  {
    assert ChooseTemplate(AlertMail, u.Elapsed(now)) == AlertTemplate(25);
  }

  /** An undelivered alert leaves the record Live, and the next sweep, later, sends again. */
  lemma FailedAlertIsRetried(u: UserRecord, now: int, later: int, env: SweepEnv)
    requires u.Overdue(now) && !u.isAlerting && now <= later
    requires SendEmail(env.mail, u, AlertMail, u.Elapsed(now)) == Returned(false)
    ensures CheckUser(u, now, env) == UserStep(u, Some(AlertMail), false)
    ensures CheckUser(CheckUser(u, now, env).user, later, env).mailed == Some(AlertMail)
  {
  }

  // ---------------------------------------------------------------------------
  // The sweep as written: one exception ends it
  // ---------------------------------------------------------------------------

  /**
   * The loop as the source writes it: its only `try` surrounds the whole
   * loop, so the first record whose processing throws stops the sweep, and
   * every later record is left as it was.
   */
  function SweepAsWritten(rows: seq<UserRecord>, now: int, env: SweepEnv): (r: seq<UserRecord>)
    ensures |r| == |rows|
    ensures !env.loads ==> r == rows
  {
    if !env.loads || rows == [] then rows
    else
      var step := CheckUser(rows[0], now, env);
      if step.threw then rows
      else [step.user] + SweepAsWritten(rows[1..], now, env)
  }

  /** No record among the first `i` throws. */
  predicate NoThrowBefore(rows: seq<UserRecord>, i: nat, now: int, env: SweepEnv)
    requires i <= |rows|
  {
    forall j :: 0 <= j < i ==> !CheckUser(rows[j], now, env).threw
  }

  /**
   * Row `i` after the as-written sweep: processed if no earlier record threw,
   * untouched otherwise.
   */
  lemma {:induction false} SweepAsWrittenAt(rows: seq<UserRecord>, now: int, env: SweepEnv, i: nat)
    requires i < |rows| && env.loads
    ensures SweepAsWritten(rows, now, env)[i] ==
              if NoThrowBefore(rows, i, now, env) then CheckUser(rows[i], now, env).user else rows[i]
  {
    var step := CheckUser(rows[0], now, env);
    if i > 0 && !step.threw {
      SweepAsWrittenAt(rows[1..], now, env, i - 1);
      assert NoThrowBefore(rows, i, now, env) <==> NoThrowBefore(rows[1..], i - 1, now, env) by {
        assert forall j :: 0 < j < i ==> rows[j] == rows[1..][j - 1];
        assert forall j :: 0 <= j < i - 1 ==> rows[1..][j] == rows[j + 1];
      }
    }
  }

  /** As written, too, a sweep keeps ids, heartbeats, timeouts, names and contacts, so keys stay unique. */
  lemma SweepAsWrittenKeepsIdentity(rows: seq<UserRecord>, now: int, env: SweepEnv)
    ensures forall i :: 0 <= i < |rows| ==> SameIdentity(rows[i], SweepAsWritten(rows, now, env)[i])
    ensures UniqueIds(rows) ==> UniqueIds(SweepAsWritten(rows, now, env))
  {
    var r := SweepAsWritten(rows, now, env);
    forall i | 0 <= i < |rows|
      ensures SameIdentity(rows[i], r[i])
    {
      if env.loads {
        SweepAsWrittenAt(rows, now, env, i);
      }
    }
    if UniqueIds(rows) {
      SameIdsKeepUnique(rows, r);
    }
  }

  /** As written, too, a sweep keeps every justified alerting state justified. */
  lemma SweepAsWrittenKeepsAlertJustified(rows: seq<UserRecord>, now: int, env: SweepEnv)
    requires forall i :: 0 <= i < |rows| ==> rows[i].AlertJustified()
    ensures forall i :: 0 <= i < |rows| ==> SweepAsWritten(rows, now, env)[i].AlertJustified()
  {
    forall i | 0 <= i < |rows|
      ensures SweepAsWritten(rows, now, env)[i].AlertJustified()
    {
      if env.loads {
        SweepAsWrittenAt(rows, now, env, i);
        CheckUserKeepsAlertJustified(rows[i], now, env);
      }
    }
  }

  /**
   * A first record whose contact does not decrypt freezes the whole table, and
   * does so again on every later sweep: while it stays that way, no other user
   * is ever alerted.
   */
  lemma ThrowingRecordStarvesLaterUsers(rows: seq<UserRecord>, now: int, later: int, env: SweepEnv)
    requires |rows| > 0 && rows[0].Overdue(now) && !rows[0].isAlerting && now <= later
    requires env.mail.systemCredentials && rows[0].emergencyContact.Some? && !env.mail.decrypts(rows[0].deviceId)
    ensures SweepAsWritten(rows, now, env) == rows
    ensures SweepAsWritten(rows, later, env) == rows
  {
    assert rows[0].Overdue(later);
  }

  /**
   * The discrepancy on two records: the first is overdue with a contact that
   * does not decrypt, the second is overdue with a deliverable contact.  As
   * written, the second is not alerted; with per-record isolation it is.
   */
  lemma AbortSkipsLaterUser(a: UserRecord, b: UserRecord, now: int, env: SweepEnv)
    requires env.loads && env.mail.systemCredentials
    requires a.Overdue(now) && !a.isAlerting && a.emergencyContact.Some? && !env.mail.decrypts(a.deviceId)
    requires b.Overdue(now) && !b.isAlerting && HasDestination(b) && env.mail.decrypts(b.deviceId)
    requires env.mail.delivers(b.deviceId, AlertTemplate(HoursInactive(b.Elapsed(now)))) && env.saves(b.deviceId)
    ensures !SweepAsWritten([a, b], now, env)[1].isAlerting
    ensures Sweep([a, b], now, env)[1].isAlerting
  {
    assert [a, b][1..] == [b];
  }

  // ---------------------------------------------------------------------------
  // The monitor
  // ---------------------------------------------------------------------------

  datatype LastRun = Never | RanAt(time: int)

  datatype MonitorStatus = MonitorStatus(isActive: bool, lastRun: LastRun, timestamp: int)

  class RecordMonitor {
    /** Start time of the most recent sweep. */
    var lastRun: Option<int>

    constructor ()
      ensures lastRun.None?
    {
      lastRun := None;
    }

    /** `getMonitorStatus`: the status the ping endpoint reports. */
    function GetMonitorStatus(now: int): (r: MonitorStatus)
      reads this
      ensures r.isActive && r.timestamp == now
      ensures r.lastRun == Never <==> lastRun.None?
      ensures lastRun.Some? ==> r.lastRun == RanAt(lastRun.value)
    {
      MonitorStatus(true, if lastRun.Some? then RanAt(lastRun.value) else Never, now)
    }

    /**
     * `checkTimeouts`, with every record processed on its own.  `startedAt`
     * is the time recorded as the last run; `now` the time the records are
     * judged against.
     */
    method CheckTimeouts(db: UserTable, startedAt: int, now: int, env: SweepEnv)
      requires db.Valid()
      modifies this, db
      ensures lastRun == Some(startedAt)
      ensures db.rows == Sweep(old(db.rows), now, env)
      ensures db.Valid()
    {
      lastRun := Some(startedAt);
      SweepKeepsIdentity(db.rows, now, env);
      if !env.loads {
        return;
      }
      var users := db.rows;
      var i := 0;
      while i < |users|
        modifies db
        invariant 0 <= i <= |users| && |db.rows| == |users|
        invariant forall k :: 0 <= k < i ==> db.rows[k] == CheckUser(users[k], now, env).user
        invariant forall k :: i <= k < |users| ==> db.rows[k] == users[k]
      {
        var user := users[i];
        var diff := now - user.lastHeartbeat;
        var timeoutMs := user.timeoutHours * MILLIS_PER_HOUR;
        if diff > timeoutMs {
          if !user.isAlerting {
            var sent := SendEmail(env.mail, user, AlertMail, diff);
            if sent == Returned(true) {
              user := user.(isAlerting := true, lastAlertTime := Some(now));
              if env.saves(user.deviceId) {
                db.rows := db.rows[i := user];
              }
            }
          }
        } else if user.isAlerting {
          var sent := SendEmail(env.mail, user, ResolvedMail, diff);
          if sent == Returned(true) {
            user := user.(isAlerting := false);
            if env.saves(user.deviceId) {
              db.rows := db.rows[i := user];
            }
          }
        }
        assert db.rows[i] == CheckUser(users[i], now, env).user;
        i := i + 1;
      }
      assert forall k :: 0 <= k < |users| ==> db.rows[k] == Sweep(users, now, env)[k];
    }
  }
}
