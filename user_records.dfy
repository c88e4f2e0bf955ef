/**
 * The server's per-device record and the table that holds one record per
 * device id, with the column defaults a newly built record takes.
 */
module UserRecords {
  import opened Wrappers

  const MILLIS_PER_HOUR: int := 3_600_000
  const DEFAULT_USER_NAME: string := "User"
  const DEFAULT_TIMEOUT_HOURS: int := 24

  /**
   * One row.  The emergency contact is stored encrypted; here it is the
   * plain text it decrypts to, `None` for a null column.
   */
  datatype UserRecord = UserRecord(
    deviceId: string,
    userName: string,
    timeoutHours: int,
    lastHeartbeat: int,
    emergencyContact: Option<string>,
    isAlerting: bool,
    lastAlertTime: Option<int>)
  {
    function TimeoutMillis(): int { timeoutHours * MILLIS_PER_HOUR }

    function Elapsed(now: int): int { now - lastHeartbeat }

    /** Strictly past the timeout: the sweep's alert condition. */
    predicate Overdue(now: int) { Elapsed(now) > TimeoutMillis() }

    /**
     * The alerting state is backed by an alert sent while the heartbeat was
     * overdue.
     */
    predicate AlertJustified() {
      isAlerting ==> lastAlertTime.Some? && lastAlertTime.value - lastHeartbeat > TimeoutMillis()
    }
  }

  /** A record built for a device id the table does not hold yet, before the handler fills it in. */
  function NewRecord(deviceId: string, now: int): (r: UserRecord)
    ensures r.deviceId == deviceId && r.userName == DEFAULT_USER_NAME
    ensures r.timeoutHours == DEFAULT_TIMEOUT_HOURS && r.lastHeartbeat == now
    ensures r.emergencyContact.None? && !r.isAlerting && r.lastAlertTime.None?
  {
    UserRecord(deviceId, DEFAULT_USER_NAME, DEFAULT_TIMEOUT_HOURS, now, None, false, None)
  }

  /** The table is keyed by device id. */
  predicate UniqueIds(rows: seq<UserRecord>) {
    forall i, j :: 0 <= i < j < |rows| ==> rows[i].deviceId != rows[j].deviceId
  }

  /** Primary-key lookup: the position of the row with that device id. */
  function FindByPk(rows: seq<UserRecord>, id: string): (r: Option<nat>)
    ensures r.Some? ==> r.value < |rows| && rows[r.value].deviceId == id
    ensures r.None? <==> forall i :: 0 <= i < |rows| ==> rows[i].deviceId != id
    ensures r.Some? ==> forall i :: 0 <= i < r.value ==> rows[i].deviceId != id
  {
    if rows == [] then None
    else if rows[0].deviceId == id then Some(0)
    else
      match FindByPk(rows[1..], id)
      case Some(i) => Some(i + 1)
      case None => None
  }

  /** Under unique keys the lookup finds the one row with that id. */
  lemma FindByPkUnique(rows: seq<UserRecord>, i: nat)
    requires UniqueIds(rows) && i < |rows|
    ensures FindByPk(rows, rows[i].deviceId) == Some(i)
  {
  }

  /** Rewriting records without touching their ids keeps the keys unique. */
  lemma SameIdsKeepUnique(rows: seq<UserRecord>, rows': seq<UserRecord>)
    requires UniqueIds(rows) && |rows'| == |rows|
    requires forall i :: 0 <= i < |rows| ==> rows'[i].deviceId == rows[i].deviceId
    ensures UniqueIds(rows')
  {
  }

  /** The users table. */
  class UserTable {
    var rows: seq<UserRecord>

    ghost predicate Valid()
      reads this
    {
      UniqueIds(rows)
    }

    constructor ()
      ensures Valid() && rows == []
    {
      rows := [];
    }
  }
}
