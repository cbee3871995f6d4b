/** The SQLite store the plugin runs on. Its punishments table has no NULL expirations:
    a permanent punishment is written with the sentinel -1 and read back as permanent. */
module SqliteStore {
  import opened Wrappers
  import opened Text
  import opened Tables
  import opened Punishments
  import opened AuditLogs
  import opened DatabaseManager

  /** The expiration stored for a permanent punishment. */
  const PermanentSentinel: int := -1

  /** Reading the column back (`takeIf { it != -1 }`). */
  function DecodeExpiration(stored: int): (e: Option<int>)
    ensures e.None? <==> stored == PermanentSentinel
    ensures e.Some? ==> e.value == stored
  {
    if stored != PermanentSentinel then Some(stored) else None
  }

  /** Writing the column (`expiration ?: -1`). The sentinel round-trips every expiration
      except the instant -1 itself, which reads back as permanent. */
  function EncodeExpiration(e: Option<int>): (stored: int)
    ensures DecodeExpiration(stored) == e <==> e != Some(PermanentSentinel)
  {
    match e
    case Some(v) => v
    case None => PermanentSentinel
  }

  /** A row of the punishments table. */
  datatype Row = Row(
    id: int,
    playerUuid: Uuid,
    kind: PunishmentType,
    reason: Option<string>,
    expiration: int,
    issuer: string,
    issuedAt: int)

  function RowId(r: Row): int { r.id }

  function RowIssuedAt(r: Row): int { r.issuedAt }

  /** The row an INSERT writes for a punishment under the generated id. */
  function ToRow(p: Punishment, id: int): (r: Row)
    ensures r.id == id && r.playerUuid == p.playerUuid && r.kind == p.kind && r.issuedAt == p.issuedAt
  {
    Row(id, p.playerUuid, p.kind, p.reason, EncodeExpiration(p.expiration), p.issuer, p.issuedAt)
  }

  /** The punishment a SELECT builds from a row. */
  function ToPunishment(r: Row): (p: Punishment)
    ensures p.id == r.id && p.playerUuid == r.playerUuid && p.kind == r.kind && p.issuer == r.issuer
    ensures p.issuedAt == r.issuedAt && p.reason == r.reason
  {
    Punishment(r.id, r.playerUuid, r.kind, r.reason, DecodeExpiration(r.expiration), r.issuer, r.issuedAt)
  }

  /** A punishment read back is the one written, under its new id, unless it expires at -1. */
  lemma RowRoundTrip(p: Punishment, id: int)
    ensures ToPunishment(ToRow(p, id)) == p.WithId(id) <==> p.expiration != Some(PermanentSentinel)
  {
    if ToPunishment(ToRow(p, id)) == p.WithId(id) {
      assert DecodeExpiration(EncodeExpiration(p.expiration)) == p.expiration;
    }
  }

  /** `expiration > ? OR expiration = -1`: means exactly "active" of the punishment read back. */
  predicate RowActive(r: Row, now: int)
    ensures RowActive(r, now) <==> ActiveAt(ToPunishment(r).expiration, now)
  {
    r.expiration > now || r.expiration == PermanentSentinel
  }

  /** `expiration > 0 AND expiration <= ?`: the sweep only deletes positive expirations, so it
      agrees with "expired" of the punishment read back exactly when the stored value is
      positive or the sentinel. */
  predicate RowExpired(r: Row, now: int)
    ensures RowExpired(r, now) ==> ExpiredAt(ToPunishment(r).expiration, now)
    ensures r.expiration > 0 || r.expiration == PermanentSentinel ==>
              (RowExpired(r, now) <==> ExpiredAt(ToPunishment(r).expiration, now))
  {
    r.expiration > 0 && r.expiration <= now
  }

  function InForceRow(player: Uuid, kind: PunishmentType, now: int): Row -> bool {
    (r: Row) => r.playerUuid == player && r.kind == kind && RowActive(r, now)
  }

  function ActiveRow(now: int): Row -> bool {
    (r: Row) => RowActive(r, now)
  }

  function ExpiredRow(now: int): Row -> bool {
    (r: Row) => RowExpired(r, now)
  }

  function RollbackRow(moderator: string, since: int, filter: Option<PunishmentType>): Row -> bool {
    (r: Row) => RollbackMatch(r.issuer, r.issuedAt, r.kind, moderator, since, filter)
  }

  /** getActivePunishment over a table: the first row in force for the player and kind,
      read back as a punishment. */
  function ActivePunishment(rows: seq<Row>, player: Uuid, kind: PunishmentType, now: int): (r: Option<Punishment>)
    ensures r.Some? ==> InForce(r.value, player, kind, now)
    ensures r.Some? ==> exists row :: row in rows && ToPunishment(row) == r.value
    ensures r.None? <==> forall k :: 0 <= k < |rows| ==> !InForce(ToPunishment(rows[k]), player, kind, now)
  {
    match FirstWhere(rows, InForceRow(player, kind, now))
    case Some(row) => Some(ToPunishment(row))
    case None => None
  }

  /** getActivePunishmentIds over a table: the ids of the active rows, in table order. */
  function ActiveIds(rows: seq<Row>, now: int): (r: seq<int>)
    ensures forall id :: id in r <==> exists row :: row in rows && row.id == id && RowActive(row, now)
  {
    var kept := Filter(rows, ActiveRow(now));
    FilterMember(rows, ActiveRow(now));
    var r := Map(kept, RowId);
    forall id | id in r ensures exists row :: row in kept && row.id == id {
      var k :| 0 <= k < |r| && r[k] == id;
      assert kept[k] in kept;
    }
    forall row | row in kept ensures row.id in r {
      var k :| 0 <= k < |kept| && kept[k] == row;
      assert r[k] == row.id;
    }
    r
  }

  function RowIdText(row: Row): string { IntToString(row.id) }

  /** getRecentPunishmentIds over a table: the ids, as text, of `limit` rows (all of them
      when there are fewer), latest issued first, and no row left out was issued after a
      row listed. */
  function RecentIds(rows: seq<Row>, limit: nat): (r: seq<string>)
    ensures |r| == Min(limit, |rows|)
    ensures exists xs :: TopRows(xs, rows, limit, RowIssuedAt) && r == Map(xs, RowIdText)
  {
    TopPage(rows, limit, RowIssuedAt);
    Map(Page(SortDesc(rows, RowIssuedAt), limit, 0), RowIdText)
  }

  /** A punishment added while none is in force for its player and kind is the one
      getActivePunishment finds from then on, for as long as it stays active. */
  lemma AddedIsActive(rows: seq<Row>, p: Punishment, id: int, now: int)
    requires ActivePunishment(rows, p.playerUuid, p.kind, now).None?
    requires ActiveAt(p.expiration, now) && p.expiration != Some(PermanentSentinel)
    ensures ActivePunishment(rows + [ToRow(p, id)], p.playerUuid, p.kind, now) == Some(p.WithId(id))
  {
    var f := InForceRow(p.playerUuid, p.kind, now);
    FirstWhereAppend(rows, [ToRow(p, id)], f);
    RowRoundTrip(p, id);
  }

  /** After removePunishment nothing is in force for that player and kind. */
  lemma RemovedIsInactive(rows: seq<Row>, player: Uuid, kind: PunishmentType, now: int)
    ensures ActivePunishment(Filter(rows, Not(InForceRow(player, kind, now))), player, kind, now).None?
  {
  }

  /** After the sweep every row left is active, or holds an expiration at or below zero
      other than the sentinel: such a row is never swept and never active. */
  lemma SweepLeavesActive(rows: seq<Row>, now: int)
    ensures forall k :: 0 <= k < |Filter(rows, Not(ExpiredRow(now)))| ==>
      var r := Filter(rows, Not(ExpiredRow(now)))[k];
      RowActive(r, now) || (r.expiration <= 0 && r.expiration != PermanentSentinel)
  {
  }

  /** The stuck row: a punishment that expires at instant 0 is, once `now` has passed it,
      neither active nor swept. */
  lemma ZeroExpirationIsStuck(p: Punishment, id: int, now: int)
    requires p.expiration == Some(0) && now >= 0
    ensures !RowActive(ToRow(p, id), now) && !RowExpired(ToRow(p, id), now)
    ensures ExpiredAt(ToPunishment(ToRow(p, id)).expiration, now)
  {
  }

  /** The SQLite database, one sequence per table. The `next...Id` counters are the
      AUTOINCREMENT sequences: an id is never handed out twice, even after its row is deleted. */
  class DataManager {
    var punishments: seq<Row>
    var evidence: seq<Evidence>
    var auditLog: seq<AuditLog>
    var nextPunishmentId: int
    var nextEvidenceId: int
    var nextAuditId: int

    ghost predicate Valid()
      reads this
    {
      && KeysBelow(punishments, RowId, nextPunishmentId)
      && KeysBelow(evidence, EvidenceId, nextEvidenceId)
      && KeysBelow(auditLog, AuditId, nextAuditId)
    }

    /** A fresh database after initTables: three empty tables. */
    constructor ()
      ensures Valid()
      ensures punishments == [] && evidence == [] && auditLog == []
      ensures nextPunishmentId == 1 && nextEvidenceId == 1 && nextAuditId == 1
    {
      punishments, evidence, auditLog := [], [], [];
      nextPunishmentId, nextEvidenceId, nextAuditId := 1, 1, 1;
    }

    /** Inserts the punishment under the next generated key and returns that key; the id
        inside the argument is ignored. */
    method AddPunishment(p: Punishment) returns (id: int)
      requires Valid()
      modifies this`punishments, this`nextPunishmentId
      ensures Valid()
      ensures id == old(nextPunishmentId) && nextPunishmentId == id + 1
      ensures punishments == old(punishments) + [ToRow(p, id)]
    {
      id := nextPunishmentId;
      AppendKeysBelow(punishments, RowId, nextPunishmentId, ToRow(p, id));
      punishments := punishments + [ToRow(p, id)];
      nextPunishmentId := nextPunishmentId + 1;
    }

    /** Deletes every row in force for the player and kind; true when there was one. */
    method RemovePunishment(player: Uuid, kind: PunishmentType, now: int) returns (removed: bool)
      requires Valid()
      modifies this`punishments
      ensures Valid()
      ensures punishments == Filter(old(punishments), Not(InForceRow(player, kind, now)))
      ensures removed <==> ActivePunishment(old(punishments), player, kind, now).Some?
    {
      var deleted := Filter(punishments, InForceRow(player, kind, now));
      FilterSplit(punishments, InForceRow(player, kind, now));
      FirstWhereIsFilterHead(punishments, InForceRow(player, kind, now));
      FilterKeysBelow(punishments, RowId, nextPunishmentId, Not(InForceRow(player, kind, now)));
      punishments := Filter(punishments, Not(InForceRow(player, kind, now)));
      removed := |deleted| > 0;
    }

    method GetActivePunishment(player: Uuid, kind: PunishmentType, now: int) returns (r: Option<Punishment>)
      ensures r == ActivePunishment(punishments, player, kind, now)
    {
      r := ActivePunishment(punishments, player, kind, now);
    }

    /** The hourly sweep; returns the number of rows it deleted (the count it logs). */
    method CleanExpiredPunishments(now: int) returns (deletedCount: nat)
      requires Valid()
      modifies this`punishments
      ensures Valid()
      ensures punishments == Filter(old(punishments), Not(ExpiredRow(now)))
      ensures deletedCount == |old(punishments)| - |punishments|
    {
      FilterSplit(punishments, ExpiredRow(now));
      FilterKeysBelow(punishments, RowId, nextPunishmentId, Not(ExpiredRow(now)));
      var kept := Filter(punishments, Not(ExpiredRow(now)));
      deletedCount := |punishments| - |kept|;
      punishments := kept;
    }

    /** Selects the moderator's punishments issued at or after `since` (of one kind when
        given), reading them one row at a time, then deletes the same rows. Returns exactly
        the deleted punishments, in table order. */
    method RollbackPunishments(moderator: string, since: int, filter: Option<PunishmentType>)
      returns (rolledBack: seq<Punishment>)
      requires Valid()
      modifies this`punishments
      ensures Valid()
      ensures rolledBack == Map(Filter(old(punishments), RollbackRow(moderator, since, filter)), ToPunishment)
      ensures punishments == Filter(old(punishments), Not(RollbackRow(moderator, since, filter)))
      ensures |rolledBack| + |punishments| == |old(punishments)|
    {
      var selected := Filter(punishments, RollbackRow(moderator, since, filter));
      rolledBack := ReadPunishments(selected);
      FilterSplit(punishments, RollbackRow(moderator, since, filter));
      FilterKeysBelow(punishments, RowId, nextPunishmentId, Not(RollbackRow(moderator, since, filter)));
      punishments := Filter(punishments, Not(RollbackRow(moderator, since, filter)));
    }

    /** The `while (rs.next())` loop over a result set: one punishment per row, in order. */
    static method ReadPunishments(resultSet: seq<Row>) returns (read: seq<Punishment>)
      ensures read == Map(resultSet, ToPunishment)
    {
      read := [];
      var i := 0;
      while i < |resultSet|
        invariant 0 <= i <= |resultSet|
        invariant read == Map(resultSet[..i], ToPunishment)
      {
        read := read + [ToPunishment(resultSet[i])];
        i := i + 1;
      }
      assert resultSet[..i] == resultSet;
    }

    /** Attaches a piece of evidence. The foreign key is not enforced by SQLite without its
        pragma, so the insert succeeds whether or not the punishment exists. */
    method AddEvidence(punishmentId: int, text: string) returns (added: bool)
      requires Valid()
      modifies this`evidence, this`nextEvidenceId
      ensures Valid()
      ensures added
      ensures evidence == old(evidence) + [Evidence(old(nextEvidenceId), punishmentId, text)]
      ensures nextEvidenceId == old(nextEvidenceId) + 1
    {
      AppendKeysBelow(evidence, EvidenceId, nextEvidenceId, Evidence(nextEvidenceId, punishmentId, text));
      evidence := evidence + [Evidence(nextEvidenceId, punishmentId, text)];
      nextEvidenceId := nextEvidenceId + 1;
      added := true;
    }

    /** Deletes the evidence row with this id, if it belongs to this punishment. */
    method RemoveEvidence(punishmentId: int, evidenceId: int) returns (removed: bool)
      requires Valid()
      modifies this`evidence
      ensures Valid()
      ensures evidence == Filter(old(evidence), Not(EvidenceIs(evidenceId, punishmentId)))
      ensures removed <==> exists e :: e in old(evidence) && e.id == evidenceId && e.punishmentId == punishmentId
    {
      var deleted := Filter(evidence, EvidenceIs(evidenceId, punishmentId));
      FilterMember(evidence, EvidenceIs(evidenceId, punishmentId));
      FilterKeysBelow(evidence, EvidenceId, nextEvidenceId, Not(EvidenceIs(evidenceId, punishmentId)));
      if deleted != [] {
        assert deleted[0] in deleted;
      }
      evidence := Filter(evidence, Not(EvidenceIs(evidenceId, punishmentId)));
      removed := |deleted| > 0;
    }

    method GetEvidenceForPunishment(punishmentId: int) returns (r: seq<(int, string)>)
      ensures r == EvidenceList(evidence, punishmentId)
    {
      r := EvidenceList(evidence, punishmentId);
    }

    /** Inserts the entry under the next generated key (its own id is ignored) and returns
        the update count of the INSERT. */
    method AddAuditLogEntry(entry: AuditLog) returns (updated: int)
      requires Valid()
      modifies this`auditLog, this`nextAuditId
      ensures Valid()
      ensures updated == 1
      ensures auditLog == old(auditLog) + [entry.(id := old(nextAuditId))]
      ensures nextAuditId == old(nextAuditId) + 1
    {
      AppendKeysBelow(auditLog, AuditId, nextAuditId, entry.(id := nextAuditId));
      auditLog := auditLog + [entry.(id := nextAuditId)];
      nextAuditId := nextAuditId + 1;
      updated := 1;
    }

    method GetAuditLog(limit: nat, offset: nat) returns (r: seq<AuditLog>)
      ensures r == AuditPage(auditLog, limit, offset)
    {
      r := AuditPage(auditLog, limit, offset);
    }

    method GetAuditLogForPlayer(playerName: string, limit: nat, offset: nat) returns (r: seq<AuditLog>)
      ensures r == PlayerAuditPage(auditLog, playerName, limit, offset)
    {
      r := PlayerAuditPage(auditLog, playerName, limit, offset);
    }

    /** The entry with this id; ids are unique, so it is the only one. */
    method GetAuditLogEntry(id: int) returns (r: Option<AuditLog>)
      requires Valid()
      ensures r == FirstWhere(auditLog, AuditIdIs(id))
      ensures r.Some? ==> r.value.id == id && r.value in auditLog
      ensures r.None? <==> forall k :: 0 <= k < |auditLog| ==> auditLog[k].id != id
      ensures r.Some? ==> forall k :: 0 <= k < |auditLog| && auditLog[k].id == id ==> auditLog[k] == r.value
    {
      r := FirstWhere(auditLog, AuditIdIs(id));
    }

    method GetRecentPunishmentIds(limit: nat) returns (r: seq<string>)
      ensures r == RecentIds(punishments, limit)
    {
      r := RecentIds(punishments, limit);
    }

    method GetActivePunishmentIds(now: int) returns (r: seq<int>)
      ensures r == ActiveIds(punishments, now)
    {
      r := ActiveIds(punishments, now);
    }
  }

  /** The sweep deletes exactly the rows with `0 < expiration <= now`; in particular it never
      deletes a permanent row. */
  lemma SweepSelects(rows: seq<Row>, now: int)
    ensures forall r :: r in Filter(rows, Not(ExpiredRow(now))) <==> r in rows && !(0 < r.expiration <= now)
    ensures forall r :: r in rows && r.expiration == PermanentSentinel ==> r in Filter(rows, Not(ExpiredRow(now)))
  {
    FilterMember(rows, Not(ExpiredRow(now)));
  }

  /** Sweeping twice at the same instant deletes nothing more. */
  lemma SweepIdempotent(rows: seq<Row>, now: int)
    ensures Filter(Filter(rows, Not(ExpiredRow(now))), Not(ExpiredRow(now))) == Filter(rows, Not(ExpiredRow(now)))
  {
    FilterIdempotent(rows, Not(ExpiredRow(now)));
  }

  /** After the sweep, every row left that is permanent or has a positive expiration is
      listed by getActivePunishmentIds at the same instant. */
  lemma SweptRowsAreListed(rows: seq<Row>, now: int)
    ensures forall r :: r in Filter(rows, Not(ExpiredRow(now))) && (r.expiration > 0 || r.expiration == PermanentSentinel)
              ==> r.id in ActiveIds(Filter(rows, Not(ExpiredRow(now))), now)
  {
    var kept := Filter(rows, Not(ExpiredRow(now)));
    forall r | r in kept && (r.expiration > 0 || r.expiration == PermanentSentinel)
      ensures r.id in ActiveIds(kept, now)
    {
      FilterMember(rows, Not(ExpiredRow(now)));
      assert RowActive(r, now);
    }
  }
}
