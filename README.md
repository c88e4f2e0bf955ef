# AreYouAlive liveness model

A Dafny model of the liveness-timeout logic in the "Are You Alive"
dead-man's-switch application, with proofs about it. The model has two halves.

**Device side.**
- The activity record is the preferences store that `UserActivityManager` wraps. It holds the last-active time, the last-synced time, the last step count, the monitoring switch, the timeout hours, the device id, the contact list and the sync log. An unset key reads as its default.
- The periodic check (`CheckAliveWorker.doWork`) does the following, in order:
  - It does nothing while monitoring is off.
  - It stamps activity when the screen is interactive.
  - It counts as new activity a last-active stamp strictly later than the last synced point, or a step-counter increase.
  - It sends one heartbeat when there is new activity, and advances the synced point only when the server acknowledges that heartbeat.
  - Whatever the heartbeat's outcome, it raises the local warning when the elapsed time falls strictly inside the band just before the timeout.
- The broadcast receiver stamps activity on unlock or screen-on, and asks for an immediate check when monitoring is on.

**Server side.**
- Each device has one user record.
- The periodic sweep (`checkTimeouts`) is a Live/Alerting state machine. A record goes Live to Alerting only after an alert email is delivered. It goes back to Live through the sweep only after a resolved email is delivered.
- The heartbeat handler always clears Alerting. It asks for a resolved email, whose outcome nothing waits for.
- The register handler upserts the record and restarts its heartbeat clock. It does not touch the alerting state.

Modules (one per source file):

| module | file | models |
|---|---|---|
| `Wrappers` | wrappers.dfy | `Option` |
| `ActivityStore` | activity_store.dfy | `UserActivityManager.kt` |
| `CheckAlive` | check_alive_worker.dfy | `CheckAliveWorker.kt` |
| `KeepAlive` | keep_alive_receiver.dfy | `KeepAliveReceiver.kt` |
| `UserRecords` | user_records.dfy | the user record, its column defaults (`database.js`), primary-key lookup |
| `Monitor` | monitor.dfy | `monitor.js` |
| `Server` | server.dfy | the register and heartbeat handlers of `server.js` |

These are inputs to the operations rather than modelled code:
- the clock (`now`);
- the screen's interactive flag;
- the step-counter sample, absent when there is none;
- the UUID drawn for a new device id;
- the heartbeat's HTTP outcome (a status code or an exception);
- whether the system mail credentials are set;
- whether a stored contact decrypts;
- whether the mail transport delivers;
- whether the store loads and saves.

The application constants (default timeout hours, advance-warning minutes, default server URL) are defined in a file that is not part of this model. They are a parameter, `AppConfig`.

Behaviours of the code that the model keeps:
- The warning band is exclusive at both ends (`CheckAliveWorker.kt:111`).
- `sendEmail` can throw: the contact is decrypted outside its `try`.
- The sweep has no per-record isolation. This is reported below as a finding. The imperative sweep, `CheckTimeouts`, models the corrected per-record behaviour. The loop as written is modelled by `SweepAsWritten`.

## Model

| member | source | states |
|---|---|---|
| `ActivityStore.MulInt` | android/app/src/main/java/com/example/areyoualive/UserActivityManager.kt:118 | Kotlin `Int` multiplication is the exact product whenever that fits in 32 bits |
| `ActivityStore.TimeoutMillisFor` | android/app/src/main/java/com/example/areyoualive/UserActivityManager.kt:117-119 | the timeout in milliseconds is `hours * 3600000` for every timeout of at most 596523 hours either way, despite the two 32-bit products |
| `ActivityStore.TimeoutMillisOverflows` | android/app/src/main/java/com/example/areyoualive/UserActivityManager.kt:117-119 | the bound is tight: at 596524 hours the `Int` product wraps and the timeout comes out negative |
| `ActivityStore.WhitespaceChars` | android/app/src/main/java/com/example/areyoualive/UserActivityManager.kt:60 | `trim` removes spaces and the ASCII control whitespace, and never a letter, a digit, `@`, `.`, `-`, `_`, `+` or the `,` separator |
| `ActivityStore.Trim` | android/app/src/main/java/com/example/areyoualive/UserActivityManager.kt:60 | the trimmed string has no whitespace at either end, and a string already trimmed is returned unchanged |
| `ActivityStore.TrimStartDropsWhitespace` | android/app/src/main/java/com/example/areyoualive/UserActivityManager.kt:60 | the prefix that trimming the start drops is all whitespace |
| `ActivityStore.TrimEndDropsWhitespace` | android/app/src/main/java/com/example/areyoualive/UserActivityManager.kt:60 | the suffix that trimming the end drops is all whitespace |
| `ActivityStore.TrimRemovesOnlyEnds` | android/app/src/main/java/com/example/areyoualive/UserActivityManager.kt:60 | the trimmed string is an infix of the input, and everything before and after that infix is whitespace, so only leading and trailing whitespace is removed |
| `ActivityStore.Split` | android/app/src/main/java/com/example/areyoualive/UserActivityManager.kt:59 | splitting on the separator gives at least one piece, and no piece contains the separator |
| `ActivityStore.JoinSplit` | android/app/src/main/java/com/example/areyoualive/UserActivityManager.kt:59-63 | joining the pieces of a split gives back the string that was split |
| `ActivityStore.SplitAppend` | android/app/src/main/java/com/example/areyoualive/UserActivityManager.kt:59 | splitting `a + sep + b` gives the pieces of `a` followed by the pieces of `b` |
| `ActivityStore.Join` | android/app/src/main/java/com/example/areyoualive/UserActivityManager.kt:63 | the comma join starts with the first piece; `JoinSplit` and `SplitJoin` make it the inverse of the split |
| `ActivityStore.SplitJoin` | android/app/src/main/java/com/example/areyoualive/UserActivityManager.kt:59-63 | splitting a join of separator-free pieces gives back exactly those pieces |
| `ActivityStore.CleanEntries` | android/app/src/main/java/com/example/areyoualive/UserActivityManager.kt:60-61 | trimming and dropping empties never lengthens the list |
| `ActivityStore.CleanEntriesAreClean` | android/app/src/main/java/com/example/areyoualive/UserActivityManager.kt:60-61 | only non-empty trimmed entries are left, and they are comma-free if the pieces were |
| `ActivityStore.CleanEntriesMembers` | android/app/src/main/java/com/example/areyoualive/UserActivityManager.kt:60-61 | an entry survives iff it is non-empty and is the trim of some piece, so no non-blank piece is lost |
| `ActivityStore.CleanEntriesAppend` | android/app/src/main/java/com/example/areyoualive/UserActivityManager.kt:60-61 | the trim-and-filter works piece by piece: cleaning `a + b` is cleaning `a` followed by cleaning `b`, so order is kept |
| `ActivityStore.CleanEntriesKeepsClean` | android/app/src/main/java/com/example/areyoualive/UserActivityManager.kt:60-61 | a list of non-empty trimmed entries passes the trim-and-filter untouched |
| `ActivityStore.EmailList` | android/app/src/main/java/com/example/areyoualive/UserActivityManager.kt:58-61 | the contact-list getter never yields an empty, untrimmed or comma-holding entry |
| `ActivityStore.EmailListMembers` | android/app/src/main/java/com/example/areyoualive/UserActivityManager.kt:58-61 | a contact is listed iff it is non-empty and is the trim of some comma-separated piece of the stored string |
| `ActivityStore.EmailListAppend` | android/app/src/main/java/com/example/areyoualive/UserActivityManager.kt:58-61 | the list read from `a + "," + b` is the list read from `a` followed by the list read from `b` |
| `ActivityStore.EmailListRoundTrip` | android/app/src/main/java/com/example/areyoualive/UserActivityManager.kt:58-64 | storing a list of non-empty, trimmed, comma-free entries and reading it back gives the same list, the empty list included |
| `ActivityStore.EmailListNormalizes` | android/app/src/main/java/com/example/areyoualive/UserActivityManager.kt:58-64 | what the getter returns survives being stored and read again unchanged |
| `ActivityStore.Prefs.LastActiveTime` | android/app/src/main/java/com/example/areyoualive/UserActivityManager.kt:40-43 | the stored last-active time, or the current time while the key is unset |
| `ActivityStore.Prefs.TimeoutHours` | android/app/src/main/java/com/example/areyoualive/UserActivityManager.kt:48-49 | the stored timeout, or the configured default while unset |
| `ActivityStore.Prefs.EmergencyEmail` | android/app/src/main/java/com/example/areyoualive/UserActivityManager.kt:53-54 | the stored raw contact string, or empty while unset |
| `ActivityStore.Prefs.EmergencyEmailList` | android/app/src/main/java/com/example/areyoualive/UserActivityManager.kt:58-61 | the list read from the raw contact string holds only clean entries |
| `ActivityStore.Prefs.UserName` | android/app/src/main/java/com/example/areyoualive/UserActivityManager.kt:67-68 | the stored name, or empty while unset |
| `ActivityStore.Prefs.ServerUrl` | android/app/src/main/java/com/example/areyoualive/UserActivityManager.kt:72-73 | the stored server URL, or the configured default while unset |
| `ActivityStore.Prefs.IsEnabled` | android/app/src/main/java/com/example/areyoualive/UserActivityManager.kt:88-89 | the stored switch, or off while unset |
| `ActivityStore.Prefs.LastStepCount` | android/app/src/main/java/com/example/areyoualive/UserActivityManager.kt:93-94 | the stored step count, or 0 while unset |
| `ActivityStore.Prefs.LastSyncLog` | android/app/src/main/java/com/example/areyoualive/UserActivityManager.kt:98-99 | the stored sync log, or "no record" while unset |
| `ActivityStore.Prefs.LastSyncedTimestamp` | android/app/src/main/java/com/example/areyoualive/UserActivityManager.kt:103-104 | the stored last-synced time, or 0 while unset |
| `ActivityStore.Prefs.TimeoutMillis` | android/app/src/main/java/com/example/areyoualive/UserActivityManager.kt:117-119 | the stored or default timeout in milliseconds, exactly `hours * 3600000` within the safe bound |
| `ActivityStore.InitDeviceId` | android/app/src/main/java/com/example/areyoualive/UserActivityManager.kt:77-85 | after the read a device id is stored; an existing id is returned with nothing written; otherwise the fresh id is stored and returned |
| `ActivityStore.DeviceIdStable` | android/app/src/main/java/com/example/areyoualive/UserActivityManager.kt:77-85 | a second read of the device id returns the first id and writes nothing |
| `ActivityStore.Defaults` | android/app/src/main/java/com/example/areyoualive/UserActivityManager.kt:40-105 | with nothing stored: last-active reads as now, last-synced 0, step count 0, monitoring off, sync log "no record", timeout and server URL from the configuration, empty name and empty contact list |
| `ActivityStore.UserActivityManager.constructor` | android/app/src/main/java/com/example/areyoualive/UserActivityManager.kt:10-12 | the manager opens the store with whatever it holds |
| `ActivityStore.UserActivityManager.UpdateLastActiveTime` | android/app/src/main/java/com/example/areyoualive/UserActivityManager.kt:33-35 | only the last-active key changes, and it becomes now |
| `ActivityStore.UserActivityManager.SetTimeoutHours` | android/app/src/main/java/com/example/areyoualive/UserActivityManager.kt:48-50 | only the timeout key changes |
| `ActivityStore.UserActivityManager.SetEmergencyEmail` | android/app/src/main/java/com/example/areyoualive/UserActivityManager.kt:53-55 | only the raw contact key changes |
| `ActivityStore.UserActivityManager.SetEmergencyEmailList` | android/app/src/main/java/com/example/areyoualive/UserActivityManager.kt:62-64 | stores the comma-joined list; a list of clean entries then reads back as itself |
| `ActivityStore.UserActivityManager.SetUserName` | android/app/src/main/java/com/example/areyoualive/UserActivityManager.kt:67-69 | only the name key changes |
| `ActivityStore.UserActivityManager.SetServerUrl` | android/app/src/main/java/com/example/areyoualive/UserActivityManager.kt:72-74 | only the server URL key changes |
| `ActivityStore.UserActivityManager.DeviceId` | android/app/src/main/java/com/example/areyoualive/UserActivityManager.kt:77-85 | lazy initialisation: a stored id is returned with the store unchanged; otherwise the generated id is stored and returned |
| `ActivityStore.UserActivityManager.SetEnabled` | android/app/src/main/java/com/example/areyoualive/UserActivityManager.kt:88-90 | only the monitoring switch changes |
| `ActivityStore.UserActivityManager.SetLastStepCount` | android/app/src/main/java/com/example/areyoualive/UserActivityManager.kt:93-95 | only the step-count key changes |
| `ActivityStore.UserActivityManager.SetLastSyncLog` | android/app/src/main/java/com/example/areyoualive/UserActivityManager.kt:98-100 | only the sync-log key changes |
| `ActivityStore.UserActivityManager.SetLastSyncedTimestamp` | android/app/src/main/java/com/example/areyoualive/UserActivityManager.kt:103-105 | only the last-synced key changes |
| `ActivityStore.UserActivityManager.UpdateSyncLogByEvent` | android/app/src/main/java/com/example/areyoualive/UserActivityManager.kt:110-114 | the sync log records a local activity event at now, and nothing else changes |
| `CheckAlive.Sync` | android/app/src/main/java/com/example/areyoualive/CheckAliveWorker.kt:71-96 | the heartbeat step stores the device id (drawing it if unset). The synced point becomes the last-active point on a 2xx and stays otherwise. The log records success, the rejected status code, or a network failure, stamped now. Nothing else is written |
| `CheckAlive.Tick` | android/app/src/main/java/com/example/areyoualive/CheckAliveWorker.kt:26-153 | monitoring off changes and sends nothing. A heartbeat is sent iff the stamp read after the screen check is strictly later than the last synced point, or a step sample exceeds a positive stored count. Every sample overwrites the stored step count. Last-active is restamped only by a lit screen or by a step increase the timestamps missed. Last-synced moves only on a 2xx, and then to the last-active point. A failed heartbeat only writes the log. When a heartbeat is sent, the log names its outcome and an unset id becomes the drawn one. The warning fires iff the elapsed time from the pre-restamp stamp is strictly inside the band. Settings are never written |
| `CheckAlive.DoWork` | android/app/src/main/java/com/example/areyoualive/CheckAliveWorker.kt:26-152 | the step-by-step tick through the manager leaves exactly the store and report that `Tick` describes |
| `CheckAlive.TickKeepsSyncedNotAhead` | android/app/src/main/java/com/example/areyoualive/CheckAliveWorker.kt:72-86 | a tick preserves `lastSynced <= lastActive`, and keeps the stored stamp at or before the clock, never moving it back |
| `CheckAlive.TwoTicksKeepSyncedNotAhead` | android/app/src/main/java/com/example/areyoualive/CheckAliveWorker.kt:39-96 | two ticks in clock order keep `lastSynced <= lastActive`; the invariant also survives the time between ticks |
| `CheckAlive.NoSecondHeartbeat` | android/app/src/main/java/com/example/areyoualive/CheckAliveWorker.kt:47-54 | after an acknowledged heartbeat, when the last-active stamp is stored, a tick with the screen off and no step increase sends nothing |
| `CheckAlive.FailedHeartbeatIsRetried` | android/app/src/main/java/com/example/areyoualive/CheckAliveWorker.kt:40-96 | a heartbeat that was sent and not acknowledged, whether a stamp or a step increase triggered it, leaves last-synced unchanged, and the next tick in clock order sends again |
| `CheckAlive.ActivePointFailureIsRetried` | android/app/src/main/java/com/example/areyoualive/CheckAliveWorker.kt:40-96 | an activity point later than the synced point, whether it is the stored last-active stamp or the screen's current time, triggers a heartbeat; if that one is not acknowledged the next tick sends again |
| `CheckAlive.UnsetStampResends` | android/app/src/main/java/com/example/areyoualive/CheckAliveWorker.kt:39-54 | while the last-active key is unset, its "now" default makes every tick send, even after a successful sync |
| `CheckAlive.EqualStampsSendNothing` | android/app/src/main/java/com/example/areyoualive/CheckAliveWorker.kt:51-54 | equal last-active and last-synced stamps, with no screen and no sample, send nothing and change nothing |
| `CheckAlive.StepIncreaseScenario` | android/app/src/main/java/com/example/areyoualive/CheckAliveWorker.kt:57-67 | steps 100 to 105 with the stamps in sync produce a heartbeat, and last-active becomes the tick time |
| `CheckAlive.FirstStepReadingIsNotActivity` | android/app/src/main/java/com/example/areyoualive/CheckAliveWorker.kt:58-67 | with no stored count, a first sample is stored but is not activity |
| `KeepAlive.Receive` | android/app/src/main/java/com/example/areyoualive/KeepAliveReceiver.kt:16-56 | unlock and screen-on always stamp last-active and the log, even when monitoring is off. An immediate check is requested iff such an event comes while monitoring is on. Boot completion writes nothing and restarts monitoring iff it is on. Any other action does nothing |
| `KeepAlive.OnReceive` | android/app/src/main/java/com/example/areyoualive/KeepAliveReceiver.kt:13-57 | the receiver's steps leave exactly the store and scheduling requests that `Receive` describes |
| `KeepAlive.ReceiveKeepsSyncedNotAhead` | android/app/src/main/java/com/example/areyoualive/KeepAliveReceiver.kt:17-22 | the receiver's stamp preserves `lastSynced <= lastActive` when the clock has not gone back |
| `KeepAlive.UnlockIsReportedByNextCheck` | android/app/src/main/java/com/example/areyoualive/KeepAliveReceiver.kt:17-31 | an unlock after the last synced point requests a check, and the next check sends a heartbeat whatever it observes |
| `KeepAlive.DisabledStampSchedulesNothing` | android/app/src/main/java/com/example/areyoualive/KeepAliveReceiver.kt:25-35 | with monitoring off, no action schedules any work |
| `UserRecords.NewRecord` | server/src/database.js:46-78 | a newly built record has name "User", a 24-hour timeout, heartbeat at now, no contact, not alerting and no alert time |
| `UserRecords.FindByPk` | server/src/server.js:34 | the lookup returns the position of the first row with that id, and none iff no row has it |
| `UserRecords.FindByPkUnique` | server/src/server.js:34 | with unique ids the lookup finds the one row with that id |
| `Monitor.HoursInactive` | server/src/monitor.js:87 | the alert's hour count is the floor of the elapsed milliseconds over 3600000 |
| `Monitor.ChooseTemplate` | server/src/monitor.js:85-93 | the alert template carries the elapsed whole hours; the resolved template is chosen iff the kind is resolved |
| `Monitor.SendEmail` | server/src/monitor.js:72-109 | without system credentials nothing is sent and the result is false. The sender throws iff a contact is stored that does not decrypt. It reports true iff credentials and a non-empty destination exist and the transport delivers |
| `Monitor.CheckUser` | server/src/monitor.js:32-59 | the sweep never writes heartbeat, timeout, name or contact. An alert is attempted iff overdue and Live; a resolved email iff not overdue and Alerting. Live becomes Alerting, with alert time now, only on a delivered alert. Alerting becomes Live only on a delivered resolved email. A send reporting failure changes nothing. An overdue Alerting record is not mailed again. A Live record within its timeout is left alone. Processing throws exactly when the sender throws or a delivered email's save is rejected, and a rejected save leaves the record as stored |
| `Monitor.CheckUserKeepsAlertJustified` | server/src/monitor.js:38-58 | a sweep step keeps "alerting implies an alert was sent while the heartbeat was overdue" |
| `Monitor.SweepEach` | server/src/monitor.js:32-60 | with per-record isolation, every row ends as its own state-machine step leaves it |
| `Monitor.Sweep` | server/src/monitor.js:28-63 | when the rows load, each ends as its own step leaves it; when loading fails, the error is caught and no row changes |
| `Monitor.SweepIsolatesRecords` | server/src/monitor.js:32-60 | with per-record isolation, no row's outcome depends on the other rows |
| `Monitor.SweepKeepsIdentity` | server/src/monitor.js:32-59 | a sweep keeps the row count and each row's id, name, timeout, heartbeat and contact, so keys stay unique |
| `Monitor.SweepKeepsAlertJustified` | server/src/monitor.js:32-59 | a sweep keeps every justified alerting state justified |
| `Monitor.AlertScenario` | server/src/monitor.js:38-47 | 24-hour timeout, heartbeat 25 hours ago, Live, alert delivered: the record becomes Alerting with alert time now |
| `Monitor.FailedAlertIsRetried` | server/src/monitor.js:41-48 | an undelivered alert leaves the record unchanged, and a later sweep attempts the alert again |
| `Monitor.SweepAsWritten` | server/src/monitor.js:26-64 | the loop as written keeps the row count, and a failed load leaves every row as it was; it stops at the first record that throws |
| `Monitor.SweepAsWrittenAt` | server/src/monitor.js:28-63 | as written, a row is processed iff no earlier row threw, and otherwise left as it was |
| `Monitor.SweepAsWrittenKeepsIdentity` | server/src/monitor.js:28-63 | as written, too, a sweep never writes id, name, timeout, heartbeat or contact, so keys stay unique |
| `Monitor.SweepAsWrittenKeepsAlertJustified` | server/src/monitor.js:28-63 | as written, too, a sweep keeps every justified alerting state justified |
| `Monitor.ThrowingRecordStarvesLaterUsers` | server/src/monitor.js:28-63 | as written, an overdue Live first record whose contact does not decrypt freezes the whole table on this sweep, and on every later one while the rows and the environment stay that way |
| `Monitor.AbortSkipsLaterUser` | server/src/monitor.js:28-63 | as written, a deliverable overdue user after such a record is not alerted; with isolation it is |
| `Monitor.RecordMonitor.constructor` | server/src/monitor.js:6 | before the first sweep there is no last run |
| `Monitor.RecordMonitor.GetMonitorStatus` | server/src/monitor.js:116-122 | the status is active and stamped now; it reports "never" iff no sweep has started, and otherwise the last start time |
| `Monitor.RecordMonitor.CheckTimeouts` | server/src/monitor.js:26-64 | every sweep records its start time. Rows are left alone when loading fails; otherwise each row ends as `SweepEach` says. Ids stay unique |
| `Server.EffectiveTimeout` | server/src/server.js:40 | an absent or zero timeout becomes 24, any other given value is kept, and the result is never zero |
| `Server.Configure` | server/src/server.js:39-47 | registration restarts the heartbeat and sets the effective timeout. It keeps the stored name and contact when none is given, and replaces each with the given one when a non-empty one is given. It never touches the alerting state or the alert time |
| `Server.Beat` | server/src/server.js:67-71 | a heartbeat sets the heartbeat to now and clears Alerting, leaving every other field unchanged |
| `Server.HandleRegister` | server/src/server.js:28-56 | a missing id gives 400 with no change. A failed save gives 500 with no change. Otherwise the found record is reconfigured in place, or a new record is appended, and ids stay unique |
| `Server.HandleHeartbeat` | server/src/server.js:59-90 | a missing id gives 400 and an unknown id gives 404, with no change and no email. A rejected save gives 500, with no change and no email. A valid heartbeat stores the beat, reports now and the prior alerting flag, and asks for a resolved email iff the device was alerting |
| `Server.HeartbeatThenSweepStaysLive` | server/src/server.js:67-71 | after a heartbeat, no sweep within the timeout mails or changes the record |
| `Server.SilenceAfterHeartbeatAlerts` | server/src/server.js:67-71 | silence past the timeout after a heartbeat makes a sweep with a delivered alert set Alerting, with the sweep's time |
| `Server.RegisterAlertingIsResolvedBySweep` | server/src/server.js:39-49 | registering an alerting device keeps it alerting; a sweep within the new timeout whose resolved email is delivered then clears it |
| `Server.UnknownDeviceScenario` | server/src/server.js:64-65 | a heartbeat for an id the table does not hold is answered 404 |

## Findings

| source | as written | input that shows it | evidently intended | confidence | as-written member | corrected member |
|---|---|---|---|---|---|---|
| server/src/monitor.js:28-63 | the only `try` surrounds the whole loop, so an exception while processing one record ends the sweep for every later record. The exception can come from decrypting the contact, which `sendEmail` does outside its own `try` at line 78, or from `save()` | two overdue, Live users; the first one's stored contact does not decrypt, the second's is deliverable. The second is not alerted on this sweep, nor on any later one while the first record stays overdue, Live and undecryptable and the environment stays the same | each record processed on its own: one record's failure is logged and the sweep goes on with the rest | not executed; medium | `Monitor.SweepAsWritten` | `Monitor.SweepEach` |

The as-written behaviour is proved by `Monitor.SweepAsWrittenAt`, `Monitor.ThrowingRecordStarvesLaterUsers` and `Monitor.AbortSkipsLaterUser`. The corrected behaviour is proved by `Monitor.SweepIsolatesRecords` and the second half of `Monitor.AbortSkipsLaterUser`. `Monitor.RecordMonitor.CheckTimeouts` is the corrected loop.

## Left out

- Log text, console output and `logActivity`. The sync log is modelled as a datatype. Its timestamp stands for the formatted date text. Email subjects and bodies are reduced to the template choice and the hour count.
- The UI activities, notification building, vibration and the foreground service. The warning is the boolean in the tick's report.
- Scheduling: WorkManager requests, `setInterval`, `startMonitoring`. The receiver reports the scheduling requests it makes.
- Concurrency: races between the receiver and the worker, and between the sweep and a heartbeat. The un-awaited resolved email in the heartbeat handler is reduced to the flag saying it was dispatched. Each operation is one sequential step.
- The step sensor, its registration and its 3-second deadline: the sample is an input. Step counts are natural numbers rather than floats, because only comparisons use them.
- Time: all clock reads within one device tick are one `now`. The sweep separates the time it records as its last run from the time it judges against.
- Long overflow on the device and JavaScript number precision on the server: these integers are unbounded. The 32-bit products in the timeout conversion are modelled exactly. The minutes-to-milliseconds conversion is modelled without `TimeUnit`'s saturation.
- Encryption: contacts are stored as their plain text, and whether a stored contact decrypts is an input. The sender email and password columns are not modelled. `sendEmail` decrypts them along with the contact (`getDecryptedCredentials`), but their only writer is `setCredentials`, which registration always calls with null for both (`server.js:46`), and `encrypt` stores null for null. So they are always null. `decrypt` returns null for null without throwing (`database.js:28-29`), and their values are never used.
- Request bodies carry only absent, empty-string or zero values as JavaScript falsy values. Other JSON types are not modelled.
- Server storage failures: only a failed save, giving 500, is modelled for the handlers. A failing primary-key lookup is not modelled separately.
- The ping endpoint's process uptime and ISO date text.
- The application constants file is not part of this model: its values are the `AppConfig` parameter.
- The unused sender email and password preference keys.
- The retrofit client, the DTO classes and the emergency activity: the heartbeat's result is an input. The emergency confirmation stamps last-active through `UpdateLastActiveTime` and sends a heartbeat of its own (`EmergencyActivity.kt:69-74`), but never writes the last-synced stamp, so the next tick sends again.
