/** The `/rollback <moderator> <period> [type]` command: the period must be a period of the
    table that names minutes, hours or days; the type, when given, must name a kind or ALL;
    then every punishment the moderator issued within the period (of that kind) is
    deleted and reported. */
module RollbackCommand {
  import opened Wrappers
  import opened Text
  import opened Tables
  import opened Punishments
  import opened TimeTable
  import opened DatabaseManager
  import Mute = MuteCommand
  import Lite = SqliteStore

  const InvalidPeriodMessage: string := "Invalid period format. Use values from the Time enum."
  const InvalidTypeMessage: string := "Invalid punishment type. Use MUTE, BAN, KICK, or ALL."
  const NothingFoundMessage: string := "No punishments found to rollback."

  /** The unit letters this parser knows (lower case): those of the mute parser but seconds. */
  function WindowUnitMillis(c: char): (r: Option<int>)
    ensures r.Some? <==> c in "mhd"
  {
    if c == 's' then None else Mute.UnitMillis(c)
  }

  /** `parseDuration(period)`: the length in milliseconds, or None where the source
      returns null. */
  function ParseDuration(period: string): Option<int> {
    match ParseLong(DropLast(period))
    case None => None
    case Some(amount) =>
      match WindowUnitMillis(LowerChar(period[|period| - 1]))
      case None => None
      case Some(millis) => Some(amount * millis)
  }

  /** Apart from "permanent" and the seconds unit, this parser reads what the mute parser
      reads, as a length rather than an instant. */
  lemma ParseAgreesWithMute(period: string, now: int)
    requires period != "permanent"
    requires period != [] ==> LowerChar(period[|period| - 1]) != 's'
    ensures ParseDuration(period).Some? <==> Mute.ParseDuration(period, now).Ok?
    ensures ParseDuration(period).Some? ==> Mute.ParseDuration(period, now) == Ok(Some(ParseDuration(period).value + now))
  {
  }

  /** Seconds are not accepted, though the mute parser takes them. */
  lemma SecondsRejected(now: int)
    ensures ParseDuration("30s") == None
    ensures Mute.ParseDuration("30s", now) == Ok(Some(30 * 1000 + now))
  {
    Mute.ParseAmountAndUnit(30, 's', now);
    assert IntToString(30) + ['s'] == "30s" by {
      assert NatToString(30) == NatToString(3) + [DigitChar(0)];
    }
    assert DropLast("30s") == IntToString(30);
    ParseLongOfInt(30);
  }

  /** Every period of the table but PERMANENT parses to its length. */
  lemma ParsePeriod(t: Time)
    ensures t == Permanent ==> ParseDuration(Duration(t)).None?
    ensures t != Permanent ==> ParseDuration(Duration(t)) == Some(Amount(t) * Mute.UnitMillis(Unit(t)).value)
  {
    if t == Permanent {
      assert DropLast("permanent") == "permanen";
      assert !IsDigit("permanen"[0]);
    } else {
      DurationShape(t);
      var d := Duration(t);
      assert d[|d| - 1] == Unit(t) && LowerChar(Unit(t)) == Unit(t);
      assert DropLast(d) == NatToString(Amount(t));
      ParseLongOfInt(Amount(t));
    }
  }

  /** The type argument (lines 55-65 of `onRollback`). */
  function ParseType(kind: Option<string>): Result<Option<PunishmentType>> {
    match kind
    case None => Ok(None)
    case Some(s) =>
      match TypeValueOf(Upper(s))
      case Some(t) => Ok(Some(t))
      case None => if Upper(s) != "ALL" then Err(InvalidTypeMessage) else Ok(None)
  }

  /** A kind is picked by its name in any case; ALL in any case, or no argument, picks every
      kind; anything else is refused. */
  lemma ParseTypeCases(kind: Option<string>)
    ensures kind.None? ==> ParseType(kind) == Ok(None)
    ensures kind.Some? ==> forall t :: ParseType(kind) == Ok(Some(t)) <==> Upper(kind.value) == TypeName(t)
    ensures kind.Some? ==> (ParseType(kind) == Ok(None) <==> Upper(kind.value) == "ALL")
    ensures ParseType(kind).Err? <==> kind.Some? && Upper(kind.value) != "ALL" && TypeValueOf(Upper(kind.value)).None?
    ensures ParseType(kind).Err? ==> ParseType(kind).error == InvalidTypeMessage
  {
  }

  datatype RollbackOutcome =
    | InvalidPeriod
    | InvalidType
    | RolledBack(punishments: seq<Punishment>)

  /** The first line the sender reads. */
  function Report(outcome: RollbackOutcome): string {
    match outcome
    case InvalidPeriod => InvalidPeriodMessage
    case InvalidType => InvalidTypeMessage
    case RolledBack(ps) =>
      if ps == [] then NothingFoundMessage else "Rolled back " + NatToString(|ps|) + " punishments:"
  }

  /** The report counts exactly the punishments rolled back. */
  lemma ReportCounts(ps: seq<Punishment>)
    ensures ps == [] ==> Report(RolledBack(ps)) == NothingFoundMessage
    ensures ps != [] ==> Report(RolledBack(ps))[..12] == "Rolled back " &&
                         DigitsValue(Report(RolledBack(ps))[12..12 + |NatToString(|ps|)|]) == |ps|
  {
    if ps != [] {
      var r := Report(RolledBack(ps));
      assert r[12..12 + |NatToString(|ps|)|] == NatToString(|ps|);
      DigitsValueOfNat(|ps|);
    }
  }

  /** `parseDuration(timePeriod.duration)` for a period of the table: every period but
      PERMANENT parses, to its own length. */
  function PeriodLength(t: Time): (r: Option<int>)
    ensures r == if t == Permanent then None else Some(Amount(t) * Mute.UnitMillis(Unit(t)).value)
  {
    ParsePeriod(t);
    ParseDuration(Duration(t))
  }

  /** Lines 43-53 and 67 of `onRollback`: the period must be listed in the table and its
      text must parse; the window then opens at `now` minus its length. */
  function WindowStart(period: string, now: int): Option<int> {
    match FromString(period)
    case None => None
    case Some(timePeriod) =>
      match PeriodLength(timePeriod)
      case None => None
      case Some(duration) => Some(now - duration)
  }

  /** Only PERMANENT among the periods of the table is refused; every other opens the
      window its length before `now`. */
  lemma WindowStartCases(period: string, now: int)
    ensures WindowStart(period, now).None? <==> FromString(period).None? || FromString(period) == Some(Permanent)
    ensures WindowStart(period, now).Some? ==>
              var t := FromString(period).value;
              WindowStart(period, now).value == now - Amount(t) * Mute.UnitMillis(Unit(t)).value
  {
  }

  /** `onRollback` against the SQLite store at clock reading `now`. */
  method OnRollback(store: Lite.DataManager, moderator: string, period: string, kind: Option<string>, now: int)
    returns (outcome: RollbackOutcome)
    requires store.Valid()
    modifies store`punishments
    ensures store.Valid()
    ensures WindowStart(period, now).None? ==> outcome == InvalidPeriod && store.punishments == old(store.punishments)
    ensures WindowStart(period, now).Some? ==> RolledBackSince(store, moderator, WindowStart(period, now).value, kind, outcome)
  {
    var rollbackTime := WindowStart(period, now);
    if rollbackTime.None? {
      return InvalidPeriod;
    }
    outcome := RollbackSince(store, moderator, rollbackTime.value, kind);
  }

  /** The rest of the command once the window opens at `since`: a bad type argument changes
      nothing; otherwise the moderator's punishments of the chosen kinds issued at or after
      `since` are deleted, and exactly those are reported. */
  twostate predicate RolledBackSince(store: Lite.DataManager, moderator: string, since: int, kind: Option<string>,
                                     outcome: RollbackOutcome)
    reads store
  {
    match ParseType(kind)
    case Err(_) => outcome == InvalidType && store.punishments == old(store.punishments)
    case Ok(filter) =>
      && outcome == RolledBack(Map(Filter(old(store.punishments), Lite.RollbackRow(moderator, since, filter)), Lite.ToPunishment))
      && store.punishments == Filter(old(store.punishments), Not(Lite.RollbackRow(moderator, since, filter)))
  }

  /** Lines 55-68 of `onRollback`: the type check, then the store call. */
  method RollbackSince(store: Lite.DataManager, moderator: string, since: int, kind: Option<string>)
    returns (outcome: RollbackOutcome)
    requires store.Valid()
    modifies store`punishments
    ensures store.Valid()
    ensures RolledBackSince(store, moderator, since, kind, outcome)
  {
    var punishmentType := ParseType(kind);
    if punishmentType.Err? {
      return InvalidType;
    }
    var rolledBackPunishments := store.RollbackPunishments(moderator, since, punishmentType.value);
    outcome := RolledBack(rolledBackPunishments);
  }

  /** What a rollback reports is the moderator's, issued inside the window and of the chosen
      kind; what it leaves is every other row; together they are the whole table. */
  lemma RollbackSplitsTable(rows: seq<Lite.Row>, moderator: string, since: int, filter: Option<PunishmentType>)
    ensures forall p :: p in Map(Filter(rows, Lite.RollbackRow(moderator, since, filter)), Lite.ToPunishment) ==>
              p.issuer == moderator && p.issuedAt >= since && (filter.Some? ==> p.kind == filter.value)
    ensures forall r :: r in Filter(rows, Not(Lite.RollbackRow(moderator, since, filter))) <==>
              r in rows && !RollbackMatch(r.issuer, r.issuedAt, r.kind, moderator, since, filter)
    ensures |Map(Filter(rows, Lite.RollbackRow(moderator, since, filter)), Lite.ToPunishment)| +
            |Filter(rows, Not(Lite.RollbackRow(moderator, since, filter)))| == |rows|
  {
    var selected := Filter(rows, Lite.RollbackRow(moderator, since, filter));
    var reported := Map(selected, Lite.ToPunishment);
    forall p | p in reported
      ensures p.issuer == moderator && p.issuedAt >= since && (filter.Some? ==> p.kind == filter.value)
    {
      var k :| 0 <= k < |reported| && reported[k] == p;
      assert Lite.RollbackRow(moderator, since, filter)(selected[k]);
    }
    FilterMember(rows, Not(Lite.RollbackRow(moderator, since, filter)));
    FilterSplit(rows, Lite.RollbackRow(moderator, since, filter));
  }
}
