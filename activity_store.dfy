/**
 * The client's activity record: the typed key-value store (Android shared
 * preferences) that UserActivityManager reads and writes, with the default
 * each getter returns for an unset key, the comma-joined contact list and the
 * timeout conversion.
 */
module ActivityStore {
  import opened Wrappers

  // ---------------------------------------------------------------------------
  // Configuration constants and Kotlin integer widths
  // ---------------------------------------------------------------------------

  /**
   * The application's compile-time constants.  Their values are defined
   * outside the modelled files, so every operation that needs them takes them
   * as a parameter.
   */
  datatype AppConfig = AppConfig(
    defaultTimeoutHours: Int32,
    advanceWarningMinutes: int,
    defaultServerUrl: string)

  const INT_MIN: int := -0x8000_0000
  const INT_MAX: int := 0x7FFF_FFFF

  /** A Kotlin `Int`. */
  type Int32 = x: int | INT_MIN <= x <= INT_MAX

  /** Two's-complement wrap of an exact integer into 32 bits. */
  function Wrap32(x: int): (r: Int32)
    ensures INT_MIN <= x <= INT_MAX ==> r == x
    ensures (x - r) % 0x1_0000_0000 == 0
  {
    (x - INT_MIN) % 0x1_0000_0000 + INT_MIN
  }

  /** Kotlin `Int * Int`: the product wraps on overflow. */
  function MulInt(a: Int32, b: Int32): (r: Int32)
    ensures INT_MIN <= a * b <= INT_MAX ==> r == a * b
  {
    Wrap32(a * b)
  }

  const MILLIS_PER_HOUR: int := 3_600_000

  /** The largest timeout, in hours, whose conversion does not overflow. */
  const MAX_SAFE_TIMEOUT_HOURS: int := 596_523

  /**
   * `timeoutHours * 60 * 60 * 1000L`: the first two products are `Int`
   * products and wrap; only the last one is widened to `Long`.
   */
  function TimeoutMillisFor(hours: Int32): (r: int)
    ensures -MAX_SAFE_TIMEOUT_HOURS <= hours <= MAX_SAFE_TIMEOUT_HOURS ==> r == hours * MILLIS_PER_HOUR
    ensures r % 1000 == 0
  {
    MulInt(MulInt(hours, 60), 60) * 1000
  }

  /** The bound is tight: one hour more and the `Int` product wraps negative. */
  lemma TimeoutMillisOverflows()
    ensures TimeoutMillisFor(MAX_SAFE_TIMEOUT_HOURS + 1) < 0
  {
  }

  // ---------------------------------------------------------------------------
  // String helpers: Kotlin split, trim and joinToString
  // ---------------------------------------------------------------------------

  /** Kotlin `Char.isWhitespace()`: Java whitespace or a Unicode space separator. */
  predicate IsWhitespace(c: char) {
    var n := c as int;
    (0x09 <= n <= 0x0D) || (0x1C <= n <= 0x20) || n == 0xA0 || n == 0x1680
    || (0x2000 <= n <= 0x200A) || n == 0x2028 || n == 0x2029 || n == 0x202F
    || n == 0x205F || n == 0x3000
  }

  /**
   * Spaces and the ASCII control whitespace are trimmed, but never a letter,
   * a digit, or a character of an address or of the list separator.
   */
  lemma WhitespaceChars(c: char)
    ensures c == ' ' || '\t' <= c <= '\r' ==> IsWhitespace(c)
    ensures 'a' <= c <= 'z' || 'A' <= c <= 'Z' || '0' <= c <= '9' ==> !IsWhitespace(c)
    ensures c == '@' || c == '.' || c == ',' || c == '-' || c == '_' || c == '+' ==> !IsWhitespace(c)
  {
  }

  /** No whitespace at either end. */
  predicate IsTrimmed(s: string) {
    s == [] || (!IsWhitespace(s[0]) && !IsWhitespace(s[|s| - 1]))
  }

  function TrimStart(s: string): (r: string)
    ensures |r| <= |s| && r == s[|s| - |r|..]
    ensures r == [] || !IsWhitespace(r[0])
    ensures s == [] || !IsWhitespace(s[0]) ==> r == s
  {
    if s != [] && IsWhitespace(s[0]) then TrimStart(s[1..]) else s
  }

  function TrimEnd(s: string): (r: string)
    ensures |r| <= |s| && r == s[..|r|]
    ensures r == [] || !IsWhitespace(r[|r| - 1])
    ensures s == [] || !IsWhitespace(s[|s| - 1]) ==> r == s
  {
    if s != [] && IsWhitespace(s[|s| - 1]) then TrimEnd(s[..|s| - 1]) else s
  }

  /** `TrimStart` drops only whitespace. */
  lemma {:induction false} TrimStartDropsWhitespace(s: string)
    ensures forall i :: 0 <= i < |s| - |TrimStart(s)| ==> IsWhitespace(s[i])
  {
    if s != [] && IsWhitespace(s[0]) {
      TrimStartDropsWhitespace(s[1..]);
      assert forall i :: 1 <= i < |s| ==> s[i] == s[1..][i - 1];
    }
  }

  /** `TrimEnd` drops only whitespace. */
  lemma {:induction false} TrimEndDropsWhitespace(s: string)
    ensures forall i :: |TrimEnd(s)| <= i < |s| ==> IsWhitespace(s[i])
  {
    if s != [] && IsWhitespace(s[|s| - 1]) {
      TrimEndDropsWhitespace(s[..|s| - 1]);
      assert forall i :: 0 <= i < |s| - 1 ==> s[i] == s[..|s| - 1][i];
    }
  }

  /** Kotlin `String.trim()`; `TrimRemovesOnlyEnds` says what it removes. */
  function Trim(s: string): (r: string)
    ensures IsTrimmed(r)
    ensures IsTrimmed(s) ==> r == s
  {
    TrimEnd(TrimStart(s))
  }

  /**
   * Exactly the leading and trailing whitespace is removed: the result is the
   * infix of `s` that starts at `|s| - |TrimStart(s)|`, and everything outside
   * that infix is whitespace.
   */
  lemma TrimRemovesOnlyEnds(s: string)
    ensures var r := Trim(s);
            var i := |s| - |TrimStart(s)|;
            0 <= i && i + |r| <= |s| && (forall k :: 0 <= k < |r| ==> r[k] == s[i + k])
            && (forall k :: 0 <= k < i ==> IsWhitespace(s[k]))
            && (forall k :: i + |r| <= k < |s| ==> IsWhitespace(s[k]))
  {
    TrimStartDropsWhitespace(s);
    TrimEndDropsWhitespace(TrimStart(s));
    TrimInfix(s, TrimStart(s), Trim(s));
  }

  lemma TrimInfix(s: string, t: string, r: string)
    requires |t| <= |s| && t == s[|s| - |t|..] && forall k :: 0 <= k < |s| - |t| ==> IsWhitespace(s[k])
    requires |r| <= |t| && r == t[..|r|] && forall k :: |r| <= k < |t| ==> IsWhitespace(t[k])
    ensures var i := |s| - |t|;
            0 <= i && i + |r| <= |s| && (forall k :: 0 <= k < |r| ==> r[k] == s[i + k])
            && (forall k :: 0 <= k < i ==> IsWhitespace(s[k]))
            && (forall k :: i + |r| <= k < |s| ==> IsWhitespace(s[k]))
  {
    var i := |s| - |t|;
    InfixOfSlices(s, t, r);
    forall k | i + |r| <= k < |s|
      ensures IsWhitespace(s[k])
    {
      assert s[k] == t[k - i];
      assert |r| <= k - i < |t|;
    }
  }

  lemma InfixOfSlices(s: string, t: string, r: string)
    requires |t| <= |s| && t == s[|s| - |t|..] && |r| <= |t| && r == t[..|r|]
    ensures forall k :: 0 <= k < |r| ==> r[k] == s[|s| - |t| + k]
  {
    forall k | 0 <= k < |r|
      ensures r[k] == s[|s| - |t| + k]
    {
      assert r[k] == t[k];
    }
  }

  /** Kotlin `split(sep)`: every piece, empty ones included, in order. */
  function Split(s: string, sep: char): (r: seq<string>)
    ensures |r| >= 1
    ensures forall i :: 0 <= i < |r| ==> sep !in r[i]
  {
    if s == [] then [[]]
    else
      var rest := Split(s[1..], sep);
      if s[0] == sep then
        [[]] + rest
      else
        [[s[0]] + rest[0]] + rest[1..]
  }

  /** Joining the pieces gives back the string that was split. */
  lemma {:induction false} JoinSplit(s: string, sep: char)
    ensures Join(Split(s, sep), sep) == s
  {
    if s != [] {
      JoinSplit(s[1..], sep);
      var rest := Split(s[1..], sep);
      if s[0] != sep && |rest| > 1 {
        var r := [[s[0]] + rest[0]] + rest[1..];
        assert r[1..] == rest[1..];
        assert Join(r, sep) == [s[0]] + (rest[0] + [sep] + Join(rest[1..], sep));
      }
    }
  }

  /**
   * Kotlin `joinToString(sep)`: the pieces in order with one separator between
   * neighbours; `SplitJoin` is its inverse.
   */
  function Join(parts: seq<string>, sep: char): (r: string)
    ensures |parts| >= 1 ==> parts[0] <= r
  {
    if |parts| == 0 then []
    else if |parts| == 1 then parts[0]
    else parts[0] + [sep] + Join(parts[1..], sep)
  }

  lemma {:induction false} SplitNoSeparator(a: string, sep: char)
    requires sep !in a
    ensures Split(a, sep) == [a]
  {
    if a != [] {
      SplitNoSeparator(a[1..], sep);
      assert [a[0]] + a[1..] == a;
    }
  }

  lemma {:induction false} SplitAfterPiece(a: string, b: string, sep: char)
    requires sep !in a
    ensures Split(a + [sep] + b, sep) == [a] + Split(b, sep)
  {
    var s := a + [sep] + b;
    if a == [] {
      assert s[1..] == b;
    } else {
      assert s[1..] == a[1..] + [sep] + b;
      SplitAfterPiece(a[1..], b, sep);
      assert [a[0]] + a[1..] == a;
    }
  }

  /** Splitting undoes joining when no piece holds the separator. */
  lemma {:induction false} SplitJoin(parts: seq<string>, sep: char)
    requires |parts| >= 1
    requires forall i :: 0 <= i < |parts| ==> sep !in parts[i]
    ensures Split(Join(parts, sep), sep) == parts
  {
    if |parts| == 1 {
      SplitNoSeparator(parts[0], sep);
    } else {
      SplitJoin(parts[1..], sep);
      SplitAfterPiece(parts[0], Join(parts[1..], sep), sep);
      assert [parts[0]] + parts[1..] == parts;
    }
  }

  /** `.map { it.trim() }.filter { it.isNotEmpty() }`. */
  function CleanEntries(parts: seq<string>): (r: seq<string>)
    ensures |r| <= |parts|
  {
    if parts == [] then []
    else
      var t := Trim(parts[0]);
      (if t == [] then [] else [t]) + CleanEntries(parts[1..])
  }

  /** Trimming only removes characters, so a character absent before is absent after. */
  lemma TrimKeepsOut(s: string, c: char)
    requires c !in s
    ensures c !in Trim(s)
  {
    var u := TrimStart(s);
    SliceKeepsOut(s, c, |s| - |u|, |s|);
    SliceKeepsOut(u, c, 0, |TrimEnd(u)|);
  }

  lemma SliceKeepsOut(s: string, c: char, lo: int, hi: int)
    requires c !in s && 0 <= lo <= hi <= |s|
    ensures c !in s[lo..hi]
  {
    forall k | 0 <= k < hi - lo
      ensures s[lo..hi][k] != c
    {
      assert s[lo..hi][k] == s[lo + k];
    }
  }

  /** What one piece contributes: its trim, unless that is empty. */
  function CleanPiece(p: string): seq<string> {
    var t := Trim(p);
    if t == [] then [] else [t]
  }

  lemma CleanEntriesUnfold(parts: seq<string>)
    requires parts != []
    ensures CleanEntries(parts) == CleanPiece(parts[0]) + CleanEntries(parts[1..])
  {
  }

  /** The trim-and-filter works piece by piece, so it keeps the pieces' order. */
  lemma {:induction false} CleanEntriesAppend(a: seq<string>, b: seq<string>)
    ensures CleanEntries(a + b) == CleanEntries(a) + CleanEntries(b)
  {
    if a == [] {
      assert a + b == b;
    } else {
      var ab := a + b;
      assert ab[0] == a[0] && ab[1..] == a[1..] + b;
      CleanEntriesUnfold(ab);
      CleanEntriesUnfold(a);
      CleanEntriesAppend(a[1..], b);
      SeqAssoc(CleanPiece(a[0]), CleanEntries(a[1..]), CleanEntries(b));
    }
  }

  lemma SeqAssoc<T>(x: seq<T>, y: seq<T>, z: seq<T>)
    ensures x + (y + z) == (x + y) + z
  {
  }

  /** `e` is what trimming some piece gives. */
  predicate TrimOfSomePiece(parts: seq<string>, e: string) {
    exists j :: 0 <= j < |parts| && Trim(parts[j]) == e
  }

  /** The entries are exactly the non-empty trims of the pieces. */
  lemma {:induction false} CleanEntriesMembers(parts: seq<string>, e: string)
    ensures e in CleanEntries(parts) <==> e != [] && TrimOfSomePiece(parts, e)
  {
    if parts != [] {
      CleanEntriesMembers(parts[1..], e);
      var t := Trim(parts[0]);
      var head: seq<string> := if t == [] then [] else [t];
      assert CleanEntries(parts) == head + CleanEntries(parts[1..]);
      if e != [] && exists j :: 0 <= j < |parts| && Trim(parts[j]) == e {
        var j :| 0 <= j < |parts| && Trim(parts[j]) == e;
        if j > 0 {
          assert parts[1..][j - 1] == parts[j];
        }
      }
      if e in CleanEntries(parts[1..]) {
        var j :| 0 <= j < |parts[1..]| && Trim(parts[1..][j]) == e;
        assert parts[j + 1] == parts[1..][j];
      }
    }
  }

  /** Only non-empty trimmed entries are left, and comma-free ones if the pieces were. */
  lemma CleanEntriesAreClean(parts: seq<string>)
    ensures forall i :: 0 <= i < |CleanEntries(parts)| ==>
              CleanEntries(parts)[i] != [] && IsTrimmed(CleanEntries(parts)[i])
    ensures (forall j :: 0 <= j < |parts| ==> ',' !in parts[j]) ==>
              forall i :: 0 <= i < |CleanEntries(parts)| ==> ',' !in CleanEntries(parts)[i]
  {
    var r := CleanEntries(parts);
    forall i | 0 <= i < |r|
      ensures r[i] != [] && IsTrimmed(r[i])
      ensures (forall j :: 0 <= j < |parts| ==> ',' !in parts[j]) ==> ',' !in r[i]
    {
      CleanEntriesMembers(parts, r[i]);
      var j :| 0 <= j < |parts| && Trim(parts[j]) == r[i];
      if ',' !in parts[j] {
        TrimKeepsOut(parts[j], ',');
      }
    }
  }

  lemma {:induction false} CleanEntriesKeepsClean(parts: seq<string>)
    requires forall i :: 0 <= i < |parts| ==> parts[i] != [] && IsTrimmed(parts[i])
    ensures CleanEntries(parts) == parts
  {
    if parts != [] {
      CleanEntriesKeepsClean(parts[1..]);
      assert [parts[0]] + parts[1..] == parts;
    }
  }

  /** An entry the contact-list getter can return. */
  predicate IsCleanEntry(e: string) {
    e != [] && IsTrimmed(e) && ',' !in e
  }

  /** The `emergencyEmailList` getter applied to the stored raw string. */
  function EmailList(raw: string): (r: seq<string>)
    ensures forall i :: 0 <= i < |r| ==> IsCleanEntry(r[i])
  {
    var parts := Split(raw, ',');
    CleanEntriesAreClean(parts);
    CleanEntries(parts)
  }

  /** Every non-blank comma-separated piece of the stored string appears, trimmed, and nothing else does. */
  lemma EmailListMembers(raw: string, e: string)
    ensures e in EmailList(raw) <==> e != [] && TrimOfSomePiece(Split(raw, ','), e)
  {
    CleanEntriesMembers(Split(raw, ','), e);
  }

  /** Splitting at one separator splits the two sides independently. */
  lemma {:induction false} SplitAppend(a: string, b: string, sep: char)
    ensures Split(a + [sep] + b, sep) == Split(a, sep) + Split(b, sep)
  {
    var s := a + [sep] + b;
    if a == [] {
      assert s[1..] == b;
    } else {
      assert s[1..] == a[1..] + [sep] + b;
      SplitAppend(a[1..], b, sep);
    }
  }

  /** A comma splits the contact list in two, in order. */
  lemma EmailListAppend(a: string, b: string)
    ensures EmailList(a + [','] + b) == EmailList(a) + EmailList(b)
  {
    SplitAppend(a, b, ',');
    CleanEntriesAppend(Split(a, ','), Split(b, ','));
  }

  /** The `emergencyEmailList` setter: the raw string it stores. */
  function EmailListRaw(list: seq<string>): string {
    Join(list, ',')
  }

  /** Storing a list of clean entries and reading it back gives the same list. */
  lemma EmailListRoundTrip(list: seq<string>)
    requires forall i :: 0 <= i < |list| ==> IsCleanEntry(list[i])
    ensures EmailList(EmailListRaw(list)) == list
  {
    if list == [] {
      assert Split([], ',') == [[]];
    } else {
      SplitJoin(list, ',');
      CleanEntriesKeepsClean(list);
    }
  }

  /** Reading, storing back and reading again changes nothing more. */
  lemma EmailListNormalizes(raw: string)
    ensures EmailList(EmailListRaw(EmailList(raw))) == EmailList(raw)
  {
    EmailListRoundTrip(EmailList(raw));
  }

  // ---------------------------------------------------------------------------
  // The stored record
  // ---------------------------------------------------------------------------

  /** What a local activity event wrote into the sync log. */
  datatype ScreenEvent = Unlocked | ScreenLit

  /**
   * The human-readable last-sync status.  The source stores a string whose
   * timestamp text is formatted for display; here `at` stands for that text.
   */
  datatype SyncLog =
    | NoRecord
    | LocalActive(at: int, event: ScreenEvent)
    | SyncSucceeded(at: int)
    | SyncRejected(at: int, code: int)
    | NetworkFailed(at: int)

  /**
   * The shared-preferences file: every key is either stored or unset.
   * The getters below return the source's default for an unset key.
   */
  datatype Prefs = Prefs(
    lastActive: Option<int>,
    timeoutHours: Option<Int32>,
    emergencyEmail: Option<string>,
    isEnabled: Option<bool>,
    userName: Option<string>,
    serverUrl: Option<string>,
    deviceId: Option<string>,
    lastStepCount: Option<nat>,
    lastSyncLog: Option<SyncLog>,
    lastSynced: Option<int>)
  {
    /** Unset means "now": a fresh install must not look overdue. */
    function LastActiveTime(now: int): (t: int)
      ensures lastActive.Some? ==> t == lastActive.value
      ensures lastActive.None? ==> t == now
    {
      lastActive.GetOr(now)
    }

    function TimeoutHours(cfg: AppConfig): (h: Int32)
      ensures timeoutHours.Some? ==> h == timeoutHours.value
      ensures timeoutHours.None? ==> h == cfg.defaultTimeoutHours
    {
      timeoutHours.GetOr(cfg.defaultTimeoutHours)
    }

    /** The raw comma-separated contact string; unset reads as empty. */
    function EmergencyEmail(): (e: string)
      ensures emergencyEmail.Some? ==> e == emergencyEmail.value
      ensures emergencyEmail.None? ==> e == ""
    {
      emergencyEmail.GetOr("")
    }

    /** The contact list as the settings screen sees it: only clean entries (none while unset, by `Defaults`). */
    function EmergencyEmailList(): (list: seq<string>)
      ensures forall i :: 0 <= i < |list| ==> IsCleanEntry(list[i])
    {
      EmailList(EmergencyEmail())
    }

    function UserName(): (name: string)
      ensures userName.Some? ==> name == userName.value
      ensures userName.None? ==> name == ""
    {
      userName.GetOr("")
    }

    function ServerUrl(cfg: AppConfig): (url: string)
      ensures serverUrl.Some? ==> url == serverUrl.value
      ensures serverUrl.None? ==> url == cfg.defaultServerUrl
    {
      serverUrl.GetOr(cfg.defaultServerUrl)
    }

    /** Monitoring is off until switched on. */
    function IsEnabled(): (on: bool)
      ensures isEnabled.Some? ==> on == isEnabled.value
      ensures isEnabled.None? ==> !on
    {
      isEnabled.GetOr(false)
    }

    /** No stored count reads as 0, which the step rule treats as "no reading yet". */
    function LastStepCount(): (n: nat)
      ensures lastStepCount.Some? ==> n == lastStepCount.value
      ensures lastStepCount.None? ==> n == 0
    {
      lastStepCount.GetOr(0)
    }

    function LastSyncLog(): (log: SyncLog)
      ensures lastSyncLog.Some? ==> log == lastSyncLog.value
      ensures lastSyncLog.None? ==> log == NoRecord
    {
      lastSyncLog.GetOr(NoRecord)
    }

    /** Never synced reads as 0, so any activity stamp after the epoch counts as new. */
    function LastSyncedTimestamp(): (t: int)
      ensures lastSynced.Some? ==> t == lastSynced.value
      ensures lastSynced.None? ==> t == 0
    {
      lastSynced.GetOr(0)
    }

    /** The timeout in milliseconds, exact for every timeout within the safe bound. */
    function TimeoutMillis(cfg: AppConfig): (ms: int)
      ensures -MAX_SAFE_TIMEOUT_HOURS <= TimeoutHours(cfg) <= MAX_SAFE_TIMEOUT_HOURS ==>
                ms == TimeoutHours(cfg) * MILLIS_PER_HOUR
    {
      TimeoutMillisFor(TimeoutHours(cfg))
    }

    /**
     * The client's central invariant: the last reported activity point is not
     * later than the last known activity.
     */
    predicate SyncedNotAhead(now: int) {
      LastSyncedTimestamp() <= LastActiveTime(now)
    }

    /** No stored activity stamp lies in the future of `now`. */
    predicate StampNotAfter(now: int) {
      lastActive.Some? ==> lastActive.value <= now
    }
  }

  /** A freshly installed application: nothing stored. */
  const EmptyPrefs: Prefs := Prefs(None, None, None, None, None, None, None, None, None, None)

  function InitDeviceId(p: Prefs, generated: string): (r: (Prefs, string))
    ensures r.0.deviceId == Some(r.1)
    ensures p.deviceId.Some? ==> r == (p, p.deviceId.value)
    ensures p.deviceId.None? ==> r == (p.(deviceId := Some(generated)), generated)
  {
    match p.deviceId
    case Some(id) => (p, id)
    case None => (p.(deviceId := Some(generated)), generated)
  }

  /** The device id is generated at most once: a second read returns the first id and stores nothing. */
  lemma DeviceIdStable(p: Prefs, first: string, second: string)
    ensures var (p1, id1) := InitDeviceId(p, first);
            InitDeviceId(p1, second) == (p1, id1)
  {
  }

  /** The getters' defaults for keys that were never written. */
  lemma Defaults(cfg: AppConfig, now: int)
    ensures EmptyPrefs.LastActiveTime(now) == now
    ensures EmptyPrefs.LastSyncedTimestamp() == 0
    ensures EmptyPrefs.LastStepCount() == 0
    ensures !EmptyPrefs.IsEnabled()
    ensures EmptyPrefs.LastSyncLog() == NoRecord
    ensures EmptyPrefs.TimeoutHours(cfg) == cfg.defaultTimeoutHours
    ensures EmptyPrefs.ServerUrl(cfg) == cfg.defaultServerUrl
    ensures EmptyPrefs.UserName() == ""
    ensures EmptyPrefs.EmergencyEmailList() == []
    ensures EmptyPrefs.SyncedNotAhead(now) <==> 0 <= now
  {
    assert Split("", ',') == [[]];
  }

  // ---------------------------------------------------------------------------
  // The manager: every accessor writes one key and leaves the others alone
  // ---------------------------------------------------------------------------

  class UserActivityManager {
    const config: AppConfig
    var prefs: Prefs

    /** Opens the preferences file with whatever it holds. */
    constructor (config: AppConfig, stored: Prefs)
      ensures this.config == config && prefs == stored
    {
      this.config := config;
      prefs := stored;
    }

    /** Stamps the last-active key with the current time. */
    method UpdateLastActiveTime(now: int)
      modifies this
      ensures prefs == old(prefs).(lastActive := Some(now))
      ensures prefs.LastActiveTime(now) == now
    {
      prefs := prefs.(lastActive := Some(now));
    }

    method SetTimeoutHours(hours: Int32)
      modifies this
      ensures prefs == old(prefs).(timeoutHours := Some(hours))
    {
      prefs := prefs.(timeoutHours := Some(hours));
    }

    method SetEmergencyEmail(raw: string)
      modifies this
      ensures prefs == old(prefs).(emergencyEmail := Some(raw))
    {
      prefs := prefs.(emergencyEmail := Some(raw));
    }

    /** Stores the list comma-joined; a list of clean entries reads back unchanged. */
    method SetEmergencyEmailList(list: seq<string>)
      modifies this
      ensures prefs == old(prefs).(emergencyEmail := Some(EmailListRaw(list)))
      ensures (forall i :: 0 <= i < |list| ==> IsCleanEntry(list[i])) ==> prefs.EmergencyEmailList() == list
    {
      SetEmergencyEmail(EmailListRaw(list));
      if forall i :: 0 <= i < |list| ==> IsCleanEntry(list[i]) {
        EmailListRoundTrip(list);
      }
    }

    method SetUserName(name: string)
      modifies this
      ensures prefs == old(prefs).(userName := Some(name))
    {
      prefs := prefs.(userName := Some(name));
    }

    method SetServerUrl(url: string)
      modifies this
      ensures prefs == old(prefs).(serverUrl := Some(url))
    {
      prefs := prefs.(serverUrl := Some(url));
    }

    /** The lazily generated device id; `generated` is the random UUID the source would draw. */
    method DeviceId(generated: string) returns (id: string)
      modifies this
      ensures (prefs, id) == InitDeviceId(old(prefs), generated)
      ensures old(prefs.deviceId).Some? ==> id == old(prefs.deviceId.value) && prefs == old(prefs)
    {
      var stored := prefs.deviceId;
      if stored.None? {
        id := generated;
        prefs := prefs.(deviceId := Some(id));
      } else {
        id := stored.value;
      }
    }

    method SetEnabled(enabled: bool)
      modifies this
      ensures prefs == old(prefs).(isEnabled := Some(enabled))
    {
      prefs := prefs.(isEnabled := Some(enabled));
    }

    method SetLastStepCount(steps: nat)
      modifies this
      ensures prefs == old(prefs).(lastStepCount := Some(steps))
    {
      prefs := prefs.(lastStepCount := Some(steps));
    }

    method SetLastSyncLog(log: SyncLog)
      modifies this
      ensures prefs == old(prefs).(lastSyncLog := Some(log))
    {
      prefs := prefs.(lastSyncLog := Some(log));
    }

    method SetLastSyncedTimestamp(t: int)
      modifies this
      ensures prefs == old(prefs).(lastSynced := Some(t))
    {
      prefs := prefs.(lastSynced := Some(t));
    }

    /** Records a local activity event in the sync log. */
    method UpdateSyncLogByEvent(event: ScreenEvent, now: int)
      modifies this
      ensures prefs == old(prefs).(lastSyncLog := Some(LocalActive(now, event)))
    {
      SetLastSyncLog(LocalActive(now, event));
    }
  }
}
