/** The `/mute <player> [duration] [reason]` command: the duration is looked up in the
    period table and turned into an expiration, the mute is refused while one is in force,
    and otherwise one punishment and one "MUTE" audit entry are written. The clock is read
    anew by each step; each reading is a parameter here. */
module MuteCommand {
  import opened Wrappers
  import opened Text
  import opened Punishments
  import opened AuditLogs
  import opened TimeTable
  import opened DurationFormat
  import opened DatabaseManager
  import Lite = SqliteStore

  const InvalidDurationFormat: string := "Invalid duration format"
  const InvalidTimeUnit: string := "Invalid time unit"

  /** `TimeUnit.X.toMillis(1)` for the unit letters `parseDuration` knows (lower case). */
  function UnitMillis(c: char): (r: Option<int>)
    ensures r.Some? <==> c in "smhd"
    ensures r.Some? ==> r.value > 0
  {
    if c == 's' then Some(MillisPerSecond)
    else if c == 'm' then Some(MillisPerMinute)
    else if c == 'h' then Some(MillisPerHour)
    else if c == 'd' then Some(MillisPerDay)
    else None
  }

  /** `parseDuration(duration)` at clock reading `now`: None for "permanent", else the amount
      before the last character, times the unit that character names (either case), after
      `now`; the two error messages stand for the two exceptions. */
  function ParseDuration(duration: string, now: int): Result<Option<int>> {
    if duration == "permanent" then Ok(None)
    else
      match ParseLong(DropLast(duration))
      case None => Err(InvalidDurationFormat)
      case Some(amount) =>
        match UnitMillis(LowerChar(duration[|duration| - 1]))
        case None => Err(InvalidTimeUnit)
        case Some(millis) => Ok(Some(amount * millis + now))
  }

  function UnitOf(duration: string): Option<int> {
    if duration == [] then None else UnitMillis(LowerChar(duration[|duration| - 1]))
  }

  /** What parseDuration accepts: "permanent", or an amount `toLongOrNull` reads followed
      by a unit letter; the first failure decides the message. */
  lemma ParseDurationOutcome(duration: string, now: int)
    ensures ParseDuration(duration, now).Ok? <==>
              duration == "permanent" || (ParseLong(DropLast(duration)).Some? && UnitOf(duration).Some?)
    ensures ParseDuration(duration, now) == Ok(None) <==> duration == "permanent"
    ensures ParseDuration(duration, now) == Err(InvalidDurationFormat) <==>
              duration != "permanent" && ParseLong(DropLast(duration)).None?
    ensures ParseDuration(duration, now) == Err(InvalidTimeUnit) <==>
              duration != "permanent" && ParseLong(DropLast(duration)).Some? && UnitOf(duration).None?
  {
  }

  /** `<n><unit>` reads as n units after `now`, for any integer n and a unit letter in
      either case. */
  lemma ParseAmountAndUnit(n: int, u: char, now: int)
    requires UnitMillis(LowerChar(u)).Some?
    ensures ParseDuration(IntToString(n) + [u], now) == Ok(Some(n * UnitMillis(LowerChar(u)).value + now))
  {
    var d := IntToString(n) + [u];
    assert d[|d| - 1] == u;
    assert d != "permanent" by {
      assert "permanent"[8] == 't';
    }
    assert DropLast(d) == IntToString(n);
    ParseLongOfInt(n);
  }

  /** A negative amount is accepted and gives an instant already past. */
  lemma NegativeAmountIsPast(now: int)
    ensures ParseDuration("-5m", now) == Ok(Some(now - 5 * MillisPerMinute))
  {
    ParseAmountAndUnit(-5, 'm', now);
    assert IntToString(-5) + ['m'] == "-5m";
  }

  /** The expiration a period sets when issued at `now`. */
  function PeriodExpiration(t: Time, now: int): Option<int> {
    if t == Permanent then None
    else Some(Amount(t) * UnitMillis(Unit(t)).value + now)
  }

  /** Every period of the table parses, to its own length after `now`. */
  lemma ParsePeriod(t: Time, now: int)
    ensures ParseDuration(Duration(t), now) == Ok(PeriodExpiration(t, now))
  {
    if t != Permanent {
      DurationShape(t);
      assert LowerChar(Unit(t)) == Unit(t);
      ParseAmountAndUnit(Amount(t), Unit(t), now);
    }
  }

  /** `Time.fromString` of the optional duration argument. */
  function PeriodOf(duration: Option<string>): (r: Option<Time>)
    ensures r.Some? <==> duration.Some? && FromString(duration.value).Some?
  {
    if duration.None? then None else FromString(duration.value)
  }

  /** `createPunishment`: a MUTE of the target by the issuer, with the id placeholder 0.
      The clock is read twice: `parseNow` by parseDuration, which adds the period to it, and
      `issueNow` for the issue instant. The duration goes through the table lookup first, so
      parseDuration only ever sees a period's text, which it always parses. */
  function CreatePunishment(target: Uuid, duration: Option<string>, reason: Option<string>,
                            issuer: string, parseNow: int, issueNow: int): (p: Punishment)
    ensures p.id == 0 && p.playerUuid == target && p.kind == Mute
    ensures p.reason == reason && p.issuer == issuer && p.issuedAt == issueNow
    ensures p.expiration == if PeriodOf(duration).None? then None else PeriodExpiration(PeriodOf(duration).value, parseNow)
  {
    var period := PeriodOf(duration);
    var expiration := if period.None? then None else ParsedExpiration(period.value, parseNow);
    Punishment(0, target, Mute, reason, expiration, issuer, issueNow)
  }

  /** `parseDuration(period.duration)`, which cannot throw for a period of the table. */
  function ParsedExpiration(t: Time, now: int): (e: Option<int>)
    ensures e == PeriodExpiration(t, now)
  {
    ParsePeriod(t, now);
    ParseDuration(Duration(t), now).value
  }

  /** An omitted duration, or one the table does not list, mutes permanently. */
  lemma UnlistedDurationIsPermanent(target: Uuid, duration: Option<string>, reason: Option<string>, issuer: string,
                                    parseNow: int, issueNow: int)
    requires duration.None? || FromString(duration.value).None?
    ensures CreatePunishment(target, duration, reason, issuer, parseNow, issueNow).expiration.None?
  {
  }

  /** A listed period other than "permanent" expires its length after the parse reading. */
  lemma ListedDurationExpires(target: Uuid, t: Time, reason: Option<string>, issuer: string, parseNow: int, issueNow: int)
    ensures CreatePunishment(target, Some(Duration(t)), reason, issuer, parseNow, issueNow).expiration ==
            PeriodExpiration(t, parseNow)
    ensures t != Permanent ==>
              CreatePunishment(target, Some(Duration(t)), reason, issuer, parseNow, issueNow).expiration.value > parseNow
  {
    assert FromString(Duration(t)) == Some(t);
    if t != Permanent {
      PeriodLengthPositive(t);
    }
  }

  lemma PeriodLengthPositive(t: Time)
    requires t != Permanent
    ensures Amount(t) * UnitMillis(Unit(t)).value > 0
  {
    var n := Amount(t);
    if Unit(t) == 'm' {
      assert n * UnitMillis(Unit(t)).value == n * MillisPerMinute;
    } else if Unit(t) == 'h' {
      assert n * UnitMillis(Unit(t)).value == n * MillisPerHour;
    } else {
      assert n * UnitMillis(Unit(t)).value == n * MillisPerDay;
    }
  }

  /** `formatDurationString(expiration)` at clock reading `now`. */
  function FormatDurationString(expiration: Option<int>, now: int): string {
    match expiration
    case None => "permanently"
    case Some(e) => "for " + FormatDuration(e - now)
  }

  /** The details text of the audit entry. */
  function AuditDetails(punishmentId: int, reason: Option<string>, durationText: string): string {
    "ID: " + IntToString(punishmentId) + ", Reason: " + reason.GetOr("None") + ", Duration: " + durationText
  }

  /** The entry logAuditEntry hands to the store. The clock is read twice: `formatNow` by
      formatDurationString, `logNow` for the entry's timestamp. */
  function MuteEntry(moderator: string, targetName: string, p: Punishment, punishmentId: int,
                     formatNow: int, logNow: int): AuditLog {
    AuditLog(0, "MUTE", moderator, targetName,
             AuditDetails(punishmentId, p.reason, FormatDurationString(p.expiration, formatNow)), logNow)
  }

  /** The word for a unit letter of the period table, with the space before it. */
  function UnitWord(u: char): string {
    if u == 'm' then " minutes" else if u == 'h' then " hours" else " days"
  }

  /** The duration text as written: measured from the audit step's own clock reading, which
      comes after parseDuration's and after the database insert. Once the clock has moved on
      by 1 to 1000 ms, a period of whole minutes is reported a minute short, plus 59 seconds,
      whenever the punishment's issue instant was read. */
  lemma LateClockDropsAMinute(target: Uuid, t: Time, reason: Option<string>, issuer: string,
                              parseNow: int, issueNow: int, formatNow: int)
    requires t == FiveMinutes || t == FifteenMinutes || t == ThirtyMinutes
    requires parseNow < formatNow <= parseNow + MillisPerSecond
    ensures FormatDurationString(CreatePunishment(target, Some(Duration(t)), reason, issuer, parseNow, issueNow).expiration,
                                 formatNow) ==
            "for " + (NatToString(Amount(t) - 1) + " minutes 59 seconds")
  {
    ListedDurationExpires(target, t, reason, issuer, parseNow, issueNow);
    LateMinutesText(Amount(t), parseNow, formatNow);
  }

  lemma LateMinutesText(n: nat, now: int, later: int)
    requires 2 <= n < 60 && now < later <= now + MillisPerSecond
    ensures FormatDurationString(Some(n * MillisPerMinute + now), later) ==
            "for " + (NatToString(n - 1) + " minutes 59 seconds")
  {
    var e := n * MillisPerMinute + now;
    ForRemaining(e, later);
    SameLengthSameText(e - later, n * MillisPerMinute - (later - now));
    FormatMinutesLessASecond(n, later - now);
  }

  /** Corrected: the duration text of the period the moderator chose, measured from the
      very clock reading parseDuration added the period to rather than from a later one. */
  function FormatGrantedDuration(expiration: Option<int>, parseNow: int): string {
    FormatDurationString(expiration, parseNow)
  }

  /** For every period of the table the corrected text names the period: "for 5 minutes",
      "for 1 hours", "for 30 days", or "permanently", whenever the issue instant was read. */
  lemma GrantedDurationText(target: Uuid, t: Time, reason: Option<string>, issuer: string, parseNow: int, issueNow: int)
    ensures FormatGrantedDuration(CreatePunishment(target, Some(Duration(t)), reason, issuer, parseNow, issueNow).expiration,
                                  parseNow) ==
            if t == Permanent then "permanently" else "for " + (NatToString(Amount(t)) + UnitWord(Unit(t)))
  {
    ListedDurationExpires(target, t, reason, issuer, parseNow, issueNow);
    GrantedText(PeriodExpiration(t, parseNow), parseNow, t);
  }

  lemma GrantedText(expiration: Option<int>, parseNow: int, t: Time)
    requires expiration == PeriodExpiration(t, parseNow)
    ensures FormatGrantedDuration(expiration, parseNow) ==
            if t == Permanent then "permanently" else "for " + (NatToString(Amount(t)) + UnitWord(Unit(t)))
  {
    if t != Permanent {
      var n, u := Amount(t), Unit(t);
      assert expiration == Some(n * UnitMillis(u).value + parseNow);
      assert u == 'm' ==> n < 60;
      assert u == 'h' ==> n < 24;
      WholePeriodText(n, u, parseNow);
    } else {
      assert expiration == None;
    }
  }

  lemma WholePeriodText(n: nat, u: char, now: int)
    requires 0 < n && u in "mhd"
    requires u == 'm' ==> n < 60
    requires u == 'h' ==> n < 24
    ensures FormatDurationString(Some(n * UnitMillis(u).value + now), now) == "for " + (NatToString(n) + UnitWord(u))
  {
    var e := n * UnitMillis(u).value + now;
    ForRemaining(e, now);
    WholeText(n, u, e - now);
  }

  lemma WholeText(n: nat, u: char, d: int)
    requires 0 < n && u in "mhd"
    requires u == 'm' ==> n < 60
    requires u == 'h' ==> n < 24
    requires d == n * UnitMillis(u).value
    ensures FormatDuration(d) == NatToString(n) + UnitWord(u)
  {
    if u == 'm' {
      assert d == n * MillisPerMinute;
      FormatWholeMinutes(n);
    } else if u == 'h' {
      assert d == n * MillisPerHour;
      FormatWholeHours(n);
    } else {
      assert d == n * MillisPerDay;
      FormatWholeDays(n);
    }
  }

  lemma ForRemaining(e: int, now: int)
    ensures FormatDurationString(Some(e), now) == "for " + FormatDuration(e - now)
  {
    match Some(e) {
      case Some(x) => assert x == e;
    }
  }

  lemma SameLengthSameText(a: int, b: int)
    requires a == b
    ensures FormatDuration(a) == FormatDuration(b)
  {
  }

  datatype MuteOutcome =
    | AlreadyMuted(existingId: int)
    | Muted(punishmentId: int, punishment: Punishment)

  /** `onMute` against the SQLite store, with each clock reading its own parameter:
      `checkNow` when the existing mute is looked up, `parseNow` and `issueNow` in
      createPunishment, `formatNow` when the audit entry's duration text is made and
      `logNow` for its timestamp. */
  method OnMute(store: Lite.DataManager, moderator: string, targetUuid: Uuid, targetName: string,
                duration: Option<string>, reason: Option<string>,
                checkNow: int, parseNow: int, issueNow: int, formatNow: int, logNow: int) returns (outcome: MuteOutcome)
    requires store.Valid()
    modifies store`punishments, store`nextPunishmentId, store`auditLog, store`nextAuditId
    ensures store.Valid()
    ensures old(Lite.ActivePunishment(store.punishments, targetUuid, Mute, checkNow)).Some? ==>
              && outcome == AlreadyMuted(old(Lite.ActivePunishment(store.punishments, targetUuid, Mute, checkNow)).value.id)
              && store.punishments == old(store.punishments) && store.auditLog == old(store.auditLog)
              && store.nextPunishmentId == old(store.nextPunishmentId) && store.nextAuditId == old(store.nextAuditId)
    ensures old(Lite.ActivePunishment(store.punishments, targetUuid, Mute, checkNow)).None? ==>
              var p := CreatePunishment(targetUuid, duration, reason, moderator, parseNow, issueNow);
              var id := old(store.nextPunishmentId);
              && outcome == Muted(id, p)
              && store.punishments == old(store.punishments) + [Lite.ToRow(p, id)]
              && store.auditLog == old(store.auditLog) +
                   [MuteEntry(moderator, targetName, p, id, formatNow, logNow).(id := old(store.nextAuditId))]
  {
    var existing := store.GetActivePunishment(targetUuid, Mute, checkNow);
    if existing.Some? {
      return AlreadyMuted(existing.value.id);
    }
    var punishment := CreatePunishment(targetUuid, duration, reason, moderator, parseNow, issueNow);
    var punishmentId := store.AddPunishment(punishment);
    var _ := store.AddAuditLogEntry(MuteEntry(moderator, targetName, punishment, punishmentId, formatNow, logNow));
    outcome := Muted(punishmentId, punishment);
  }

  /** Once muted, the player is the one getActivePunishment finds for MUTE, at any instant
      the mute is in force and no other was: parsed at a non-negative clock reading, the new
      mute's expiration never collides with the store's "permanent" sentinel. */
  lemma MuteIsEnforced(rows: seq<Lite.Row>, target: Uuid, duration: Option<string>, reason: Option<string>,
                       issuer: string, parseNow: int, issueNow: int, id: int, at: int)
    requires parseNow >= 0
    requires Lite.ActivePunishment(rows, target, Mute, at).None?
    requires ActiveAt(CreatePunishment(target, duration, reason, issuer, parseNow, issueNow).expiration, at)
    ensures var p := CreatePunishment(target, duration, reason, issuer, parseNow, issueNow);
      Lite.ActivePunishment(rows + [Lite.ToRow(p, id)], target, Mute, at) == Some(p.WithId(id))
  {
    var p := CreatePunishment(target, duration, reason, issuer, parseNow, issueNow);
    var period := PeriodOf(duration);
    if period.Some? {
      PeriodExpirationNotSentinel(period.value, parseNow);
    }
    Lite.AddedIsActive(rows, p, id, at);
  }

  /** A listed period from a non-negative clock reading never expires at the sentinel -1. */
  lemma PeriodExpirationNotSentinel(t: Time, now: int)
    requires now >= 0
    ensures PeriodExpiration(t, now) != Some(Lite.PermanentSentinel)
  {
    if t != Permanent {
      var m := UnitMillis(Unit(t)).value;
      assert Amount(t) * m >= 0;
    }
  }
}
