/**
 * The two request handlers that write user records: registration upserts a
 * record and restarts its heartbeat clock; a heartbeat refreshes the clock and
 * clears the alerting state unconditionally, asking for a resolved email when
 * the device was alerting.
 */
module Server {
  import opened Wrappers
  import opened UserRecords
  import opened Monitor

  /** A request field tested for truthiness: absent, null and "" are all false. */
  predicate Given(s: Option<string>) {
    s.Some? && s.value != ""
  }

  datatype RegisterRequest = RegisterRequest(
    deviceId: Option<string>,
    userName: Option<string>,
    timeoutHours: Option<int>,
    emergencyEmail: Option<string>)

  datatype HeartbeatRequest = HeartbeatRequest(deviceId: Option<string>)

  datatype RegisterResponse = Configured | RegisterBadRequest | RegisterServerError {
    function Status(): int {
      match this
      case Configured => 200
      case RegisterBadRequest => 400
      case RegisterServerError => 500
    }
  }

  datatype HeartbeatResponse = Alive(lastHeartbeat: int, wasAlerting: bool) | BadRequest | NotRegistered | ServerError {
    function Status(): int {
      match this
      case Alive(_, _) => 200
      case BadRequest => 400
      case NotRegistered => 404
      case ServerError => 500
    }
  }

  /** The response, and whether a resolved email was dispatched; nothing waits for that email. */
  datatype HeartbeatReply = HeartbeatReply(response: HeartbeatResponse, resolvedEmailSent: bool)

  /** `timeoutHours || 24`: an absent or zero timeout becomes the default. */
  function EffectiveTimeout(given: Option<int>): (h: int)
    ensures given.Some? && given.value != 0 ==> h == given.value
    ensures h != 0
    ensures given.None? || given.value == 0 ==> h == DEFAULT_TIMEOUT_HOURS
  {
    if given.Some? && given.value != 0 then given.value else DEFAULT_TIMEOUT_HOURS
  }

  /** The registration's field updates on a found or newly built record. */
  function Configure(u: UserRecord, req: RegisterRequest, now: int): (r: UserRecord)
    ensures r.deviceId == u.deviceId && r.lastHeartbeat == now
    ensures r.timeoutHours == EffectiveTimeout(req.timeoutHours)
    // An omitted name or email keeps what is stored.
    ensures !Given(req.userName) ==> r.userName == u.userName
    ensures Given(req.userName) ==> r.userName == req.userName.value
    ensures !Given(req.emergencyEmail) ==> r.emergencyContact == u.emergencyContact
    ensures Given(req.emergencyEmail) ==> r.emergencyContact == req.emergencyEmail
    // Registration never touches the alerting state.
    ensures r.isAlerting == u.isAlerting && r.lastAlertTime == u.lastAlertTime
  {
    var name := if Given(req.userName) then req.userName.value else u.userName;
    var v := u.(userName := name, timeoutHours := EffectiveTimeout(req.timeoutHours), lastHeartbeat := now);
    if Given(req.emergencyEmail) then v.(emergencyContact := req.emergencyEmail) else v
  }

  /** The heartbeat's field updates. */
  function Beat(u: UserRecord, now: int): (r: UserRecord)
    ensures !r.isAlerting && r.lastHeartbeat == now && r.AlertJustified()
    ensures r.deviceId == u.deviceId && r.userName == u.userName && r.timeoutHours == u.timeoutHours
    ensures r.emergencyContact == u.emergencyContact && r.lastAlertTime == u.lastAlertTime
  {
    u.(lastHeartbeat := now, isAlerting := false)
  }

  /** `POST /api/register`.  `saveOk` says whether the store accepts the write. */
  method HandleRegister(db: UserTable, req: RegisterRequest, now: int, saveOk: bool) returns (resp: RegisterResponse)
    requires db.Valid()
    modifies db
    ensures db.Valid()
    ensures resp == RegisterBadRequest <==> !Given(req.deviceId)
    ensures resp == Configured <==> Given(req.deviceId) && saveOk
    ensures resp != Configured ==> db.rows == old(db.rows)
    ensures resp == Configured && FindByPk(old(db.rows), req.deviceId.value).Some? ==>
              var i := FindByPk(old(db.rows), req.deviceId.value).value;
              db.rows == old(db.rows)[i := Configure(old(db.rows)[i], req, now)]
    ensures resp == Configured && FindByPk(old(db.rows), req.deviceId.value).None? ==>
              db.rows == old(db.rows) + [Configure(NewRecord(req.deviceId.value, now), req, now)]
  {
    if !Given(req.deviceId) {
      return RegisterBadRequest;
    }
    var id := req.deviceId.value;
    var found := FindByPk(db.rows, id);
    var user := if found.Some? then db.rows[found.value] else NewRecord(id, now);
    user := Configure(user, req, now);
    if !saveOk {
      return RegisterServerError;
    }
    if found.Some? {
      SameIdsKeepUnique(db.rows, db.rows[found.value := user]);
      db.rows := db.rows[found.value := user];
    } else {
      db.rows := db.rows + [user];
    }
    resp := Configured;
  }

  /** `POST /api/heartbeat`.  `saveOk` says whether the store accepts the write. */
  method HandleHeartbeat(db: UserTable, req: HeartbeatRequest, now: int, saveOk: bool) returns (reply: HeartbeatReply)
    requires db.Valid()
    modifies db
    ensures db.Valid()
    ensures !Given(req.deviceId) ==> reply == HeartbeatReply(BadRequest, false)
    ensures Given(req.deviceId) && FindByPk(old(db.rows), req.deviceId.value).None? ==>
              reply == HeartbeatReply(NotRegistered, false)
    // A rejected save is answered with a server error.
    ensures Given(req.deviceId) && FindByPk(old(db.rows), req.deviceId.value).Some? && !saveOk ==>
              reply == HeartbeatReply(ServerError, false)
    ensures !reply.response.Alive? ==> db.rows == old(db.rows) && !reply.resolvedEmailSent
    ensures reply.response.Alive? <==>
              Given(req.deviceId) && FindByPk(old(db.rows), req.deviceId.value).Some? && saveOk
    ensures reply.response.Alive? ==>
              var i := FindByPk(old(db.rows), req.deviceId.value).value;
              db.rows == old(db.rows)[i := Beat(old(db.rows)[i], now)]
              && reply.response == Alive(now, old(db.rows)[i].isAlerting)
              && reply.resolvedEmailSent == old(db.rows)[i].isAlerting
  {
    if !Given(req.deviceId) {
      return HeartbeatReply(BadRequest, false);
    }
    var found := FindByPk(db.rows, req.deviceId.value);
    if found.None? {
      return HeartbeatReply(NotRegistered, false);
    }
    var user := db.rows[found.value];
    var wasAlerting := user.isAlerting;
    user := user.(lastHeartbeat := now);
    user := user.(isAlerting := false);
    if !saveOk {
      return HeartbeatReply(ServerError, false);
    }
    SameIdsKeepUnique(db.rows, db.rows[found.value := user]);
    db.rows := db.rows[found.value := user];
    reply := HeartbeatReply(Alive(user.lastHeartbeat, wasAlerting), wasAlerting);
  }

  // ---------------------------------------------------------------------------
  // How the handlers and the sweep meet
  // ---------------------------------------------------------------------------

  /** After a heartbeat, sweeps within the timeout neither mail nor change the record. */
  lemma HeartbeatThenSweepStaysLive(u: UserRecord, now: int, later: int, env: SweepEnv)
    requires u.timeoutHours >= 0 && now <= later <= now + u.TimeoutMillis()
    ensures CheckUser(Beat(u, now), later, env) == UserStep(Beat(u, now), None, false)
  {
  }

  /** Silence past the timeout after a heartbeat makes the next sweep with a delivered alert flip to Alerting. */
  lemma SilenceAfterHeartbeatAlerts(u: UserRecord, now: int, later: int, env: SweepEnv)
    requires later - now > u.TimeoutMillis()
    requires SendEmail(env.mail, Beat(u, now), AlertMail, later - now) == Returned(true)
    requires env.saves(u.deviceId)
    ensures CheckUser(Beat(u, now), later, env).user.isAlerting
    ensures CheckUser(Beat(u, now), later, env).user.lastAlertTime == Some(later)
  {
  }

  /**
   * Registering an alerting device refreshes its heartbeat but keeps it
   * alerting; the next sweep within the timeout takes the fallback path and
   * clears it once the resolved email is delivered.
   */
  lemma RegisterAlertingIsResolvedBySweep(u: UserRecord, req: RegisterRequest, now: int, later: int, env: SweepEnv)
    requires u.isAlerting
    requires EffectiveTimeout(req.timeoutHours) >= 0
    requires now <= later <= now + EffectiveTimeout(req.timeoutHours) * MILLIS_PER_HOUR
    requires SendEmail(env.mail, Configure(u, req, now), ResolvedMail, later - now) == Returned(true)
    requires env.saves(u.deviceId)
    ensures Configure(u, req, now).isAlerting
    ensures CheckUser(Configure(u, req, now), later, env) ==
              UserStep(Configure(u, req, now).(isAlerting := false), Some(ResolvedMail), false)
  {
  }

  /** The handlers' scenario: a heartbeat for a device id the table does not hold is a 404 and changes nothing. */
  method UnknownDeviceScenario(now: int) returns (reply: HeartbeatReply)
    ensures reply.response.Status() == 404
  {
    var db := new UserTable();
    var reg := HandleRegister(db, RegisterRequest(Some("Y"), None, None, None), now, true);
    assert db.rows == [Configure(NewRecord("Y", now), RegisterRequest(Some("Y"), None, None, None), now)];
    assert FindByPk(db.rows, "X").None?;
    reply := HandleHeartbeat(db, HeartbeatRequest(Some("X")), now, true);
  }
}
