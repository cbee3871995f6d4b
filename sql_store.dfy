/** The pooled SQL store behind a JDBC connection string. Its punishments table stores a
    permanent punishment's expiration as NULL, so rows are punishments as they are. */
module SqlStore {
  import opened Wrappers
  import opened Text
  import opened Tables
  import opened Punishments
  import opened AuditLogs
  import opened DatabaseManager

  function PunishmentId(p: Punishment): int { p.id }

  function IssuedAt(p: Punishment): int { p.issuedAt }

  /** `player_uuid = ? AND type = ? AND (expiration > ? OR expiration IS NULL)` */
  function InForceRow(player: Uuid, kind: PunishmentType, now: int): Punishment -> bool {
    (p: Punishment) => InForce(p, player, kind, now)
  }

  /** `expiration > ? OR expiration IS NULL` */
  function ActiveRow(now: int): Punishment -> bool {
    (p: Punishment) => ActiveAt(p.expiration, now)
  }

  /** `expiration IS NOT NULL AND expiration <= ?` */
  function ExpiredRow(now: int): Punishment -> bool {
    (p: Punishment) => ExpiredAt(p.expiration, now)
  }

  /** `issuer = ? AND issued_at >= ? [AND type = ?]` */
  function RollbackRow(moderator: string, since: int, filter: Option<PunishmentType>): Punishment -> bool {
    (p: Punishment) => RollbackMatch(p.issuer, p.issuedAt, p.kind, moderator, since, filter)
  }

  /** getActivePunishment over a table: the first punishment in force for player and kind. */
  function ActivePunishment(rows: seq<Punishment>, player: Uuid, kind: PunishmentType, now: int): (r: Option<Punishment>)
    ensures r.Some? ==> r.value in rows && InForce(r.value, player, kind, now)
    ensures r.None? <==> forall k :: 0 <= k < |rows| ==> !InForce(rows[k], player, kind, now)
  {
    FirstWhere(rows, InForceRow(player, kind, now))
  }

  /** getActivePunishmentIds over a table. */
  function ActiveIds(rows: seq<Punishment>, now: int): (r: seq<int>)
    ensures |r| <= |rows|
    ensures forall id :: id in r <==> exists p :: p in rows && p.id == id && ActiveAt(p.expiration, now)
  {
    var kept := Filter(rows, ActiveRow(now));
    FilterMember(rows, ActiveRow(now));
    var r := Map(kept, PunishmentId);
    forall id | id in r ensures exists p :: p in kept && p.id == id {
      var k :| 0 <= k < |r| && r[k] == id;
      assert kept[k] in kept;
    }
    forall p | p in kept ensures p.id in r {
      var k :| 0 <= k < |kept| && kept[k] == p;
      assert r[k] == p.id;
    }
    r
  }

  function IdText(p: Punishment): string { IntToString(p.id) }

  /** getRecentPunishmentIds over a table: the ids, as text, of `limit` rows (all of them
      when there are fewer), latest issued first, and no row left out was issued after a
      row listed. */
  function RecentIds(rows: seq<Punishment>, limit: nat): (r: seq<string>)
    ensures |r| == Min(limit, |rows|)
    ensures exists xs :: TopRows(xs, rows, limit, IssuedAt) && r == Map(xs, IdText)
  {
    TopPage(rows, limit, IssuedAt);
    Map(Page(SortDesc(rows, IssuedAt), limit, 0), IdText)
  }

  /** With NULL for "permanent" the sweep and the activity test are exact complements:
      after the sweep every punishment left is active. */
  lemma SweepLeavesOnlyActive(rows: seq<Punishment>, now: int)
    ensures forall k :: 0 <= k < |Filter(rows, Not(ExpiredRow(now)))| ==>
              ActiveAt(Filter(rows, Not(ExpiredRow(now)))[k].expiration, now)
    ensures Filter(Filter(rows, Not(ExpiredRow(now))), ActiveRow(now)) == Filter(rows, Not(ExpiredRow(now)))
  {
    var kept := Filter(rows, Not(ExpiredRow(now)));
    FilterAll(kept, ActiveRow(now));
  }

  /** A punishment added while none is in force for its player and kind is the one found. */
  lemma AddedIsActive(rows: seq<Punishment>, p: Punishment, id: int, now: int)
    requires ActivePunishment(rows, p.playerUuid, p.kind, now).None?
    requires ActiveAt(p.expiration, now)
    ensures ActivePunishment(rows + [p.WithId(id)], p.playerUuid, p.kind, now) == Some(p.WithId(id))
  {
    FirstWhereAppend(rows, [p.WithId(id)], InForceRow(p.playerUuid, p.kind, now));
  }

  /** `FOREIGN KEY (punishment_id) REFERENCES punishments(id)`: every evidence row names a
      punishment that exists. */
  predicate KeysResolve(evidence: seq<Evidence>, rows: seq<Punishment>) {
    forall e :: e in evidence ==> exists p :: p in rows && p.id == e.punishmentId
  }

  /** Some evidence row references one of `rows`, so the engine refuses to delete them. */
  predicate Referenced(evidence: seq<Evidence>, rows: seq<Punishment>) {
    exists e, p :: e in evidence && p in rows && e.punishmentId == p.id
  }

  const ChildRowRefused := "Cannot add or update a child row: a foreign key constraint fails"
  const ParentRowRefused := "Cannot delete or update a parent row: a foreign key constraint fails"

  /** A DELETE the key lets through keeps every evidence row's punishment. */
  lemma DeleteKeepsKeys(evidence: seq<Evidence>, rows: seq<Punishment>, f: Punishment -> bool)
    requires KeysResolve(evidence, rows)
    requires !Referenced(evidence, Filter(rows, f))
    ensures KeysResolve(evidence, Filter(rows, Not(f)))
  {
    FilterMember(rows, f);
    FilterMember(rows, Not(f));
    forall e | e in evidence ensures exists p :: p in Filter(rows, Not(f)) && p.id == e.punishmentId {
      var p :| p in rows && p.id == e.punishmentId;
      assert p !in Filter(rows, f);
    }
  }

  /** The pooled SQL database, one sequence per table, with AUTO_INCREMENT counters. The
      engine (MySQL's InnoDB) enforces the evidence table's foreign key. */
  class SqlManager {
    var punishments: seq<Punishment>
    var evidence: seq<Evidence>
    var auditLog: seq<AuditLog>
    var nextPunishmentId: int
    var nextEvidenceId: int
    var nextAuditId: int
    /** Whether the connection pool has been shut down. */
    var closed: bool

    ghost predicate Valid()
      reads this
    {
      && KeysBelow(punishments, PunishmentId, nextPunishmentId)
      && KeysBelow(evidence, EvidenceId, nextEvidenceId)
      && KeysBelow(auditLog, AuditId, nextAuditId)
      && KeysResolve(evidence, punishments)
    }

    /** A fresh database after initTables, with an open pool. */
    constructor ()
      ensures Valid() && !closed
      ensures punishments == [] && evidence == [] && auditLog == []
      ensures nextPunishmentId == 1 && nextEvidenceId == 1 && nextAuditId == 1
    {
      punishments, evidence, auditLog := [], [], [];
      nextPunishmentId, nextEvidenceId, nextAuditId := 1, 1, 1;
      closed := false;
    }

    method AddPunishment(p: Punishment) returns (id: int)
      requires Valid()
      modifies this`punishments, this`nextPunishmentId
      ensures Valid()
      ensures id == old(nextPunishmentId) && nextPunishmentId == id + 1
      ensures punishments == old(punishments) + [p.WithId(id)]
    {
      id := nextPunishmentId;
      AppendKeysBelow(punishments, PunishmentId, nextPunishmentId, p.WithId(id));
      punishments := punishments + [p.WithId(id)];
      nextPunishmentId := nextPunishmentId + 1;
    }

    /** The DELETE of the rows in force; refused, changing nothing, when evidence names one. */
    method RemovePunishment(player: Uuid, kind: PunishmentType, now: int) returns (r: Result<bool>)
      requires Valid()
      modifies this`punishments
      ensures Valid()
      ensures Referenced(evidence, Filter(old(punishments), InForceRow(player, kind, now)))
              ==> r == Err(ParentRowRefused) && punishments == old(punishments)
      ensures !Referenced(evidence, Filter(old(punishments), InForceRow(player, kind, now))) ==>
              && punishments == Filter(old(punishments), Not(InForceRow(player, kind, now)))
              && r.Ok? && (r.value <==> ActivePunishment(old(punishments), player, kind, now).Some?)
    {
      var deleted := Filter(punishments, InForceRow(player, kind, now));
      if Referenced(evidence, deleted) {
        return Err(ParentRowRefused);
      }
      FirstWhereIsFilterHead(punishments, InForceRow(player, kind, now));
      FilterKeysBelow(punishments, PunishmentId, nextPunishmentId, Not(InForceRow(player, kind, now)));
      DeleteKeepsKeys(evidence, punishments, InForceRow(player, kind, now));
      punishments := Filter(punishments, Not(InForceRow(player, kind, now)));
      r := Ok(|deleted| > 0);
    }

    method GetActivePunishment(player: Uuid, kind: PunishmentType, now: int) returns (r: Option<Punishment>)
      ensures r == ActivePunishment(punishments, player, kind, now)
    {
      r := ActivePunishment(punishments, player, kind, now);
    }

    /** The sweep; refused, changing nothing, when evidence names an expired row. */
    method CleanExpiredPunishments(now: int) returns (r: Result<nat>)
      requires Valid()
      modifies this`punishments
      ensures Valid()
      ensures Referenced(evidence, Filter(old(punishments), ExpiredRow(now)))
              ==> r == Err(ParentRowRefused) && punishments == old(punishments)
      ensures !Referenced(evidence, Filter(old(punishments), ExpiredRow(now))) ==>
              && punishments == Filter(old(punishments), Not(ExpiredRow(now)))
              && r == Ok(|old(punishments)| - |punishments|)
    {
      if Referenced(evidence, Filter(punishments, ExpiredRow(now))) {
        return Err(ParentRowRefused);
      }
      FilterSplit(punishments, ExpiredRow(now));
      FilterKeysBelow(punishments, PunishmentId, nextPunishmentId, Not(ExpiredRow(now)));
      DeleteKeepsKeys(evidence, punishments, ExpiredRow(now));
      var kept := Filter(punishments, Not(ExpiredRow(now)));
      r := Ok(|punishments| - |kept|);
      punishments := kept;
    }

    /** The select, then the delete under the same condition; when evidence names a selected
        row the delete is refused and the exception discards what was read. */
    method RollbackPunishments(moderator: string, since: int, filter: Option<PunishmentType>)
      returns (r: Result<seq<Punishment>>)
      requires Valid()
      modifies this`punishments
      ensures Valid()
      ensures Referenced(evidence, Filter(old(punishments), RollbackRow(moderator, since, filter)))
              ==> r == Err(ParentRowRefused) && punishments == old(punishments)
      ensures !Referenced(evidence, Filter(old(punishments), RollbackRow(moderator, since, filter))) ==>
              && r == Ok(Filter(old(punishments), RollbackRow(moderator, since, filter)))
              && punishments == Filter(old(punishments), Not(RollbackRow(moderator, since, filter)))
              && multiset(r.value) + multiset(punishments) == multiset(old(punishments))
    {
      var selected := Filter(punishments, RollbackRow(moderator, since, filter));
      var rolledBack := ReadPunishments(selected);
      if Referenced(evidence, selected) {
        return Err(ParentRowRefused);
      }
      FilterSplit(punishments, RollbackRow(moderator, since, filter));
      FilterKeysBelow(punishments, PunishmentId, nextPunishmentId, Not(RollbackRow(moderator, since, filter)));
      DeleteKeepsKeys(evidence, punishments, RollbackRow(moderator, since, filter));
      punishments := Filter(punishments, Not(RollbackRow(moderator, since, filter)));
      r := Ok(rolledBack);
    }

    /** The `while (rs.next())` loop: the result set's punishments, in order. */
    static method ReadPunishments(resultSet: seq<Punishment>) returns (read: seq<Punishment>)
      ensures read == resultSet
    {
      read := [];
      var i := 0;
      while i < |resultSet|
        invariant 0 <= i <= |resultSet|
        invariant read == resultSet[..i]
      {
        read := read + [resultSet[i]];
        i := i + 1;
      }
    }

    /** The insert under the next key; refused, changing nothing, when no punishment has
        `punishmentId`. */
    method AddEvidence(punishmentId: int, text: string) returns (r: Result<bool>)
      requires Valid()
      modifies this`evidence, this`nextEvidenceId
      ensures Valid()
      ensures r.Ok? <==> exists p :: p in punishments && p.id == punishmentId
      ensures r.Err? ==> r.error == ChildRowRefused && evidence == old(evidence) && nextEvidenceId == old(nextEvidenceId)
      ensures r.Ok? ==> && r.value
                        && evidence == old(evidence) + [Evidence(old(nextEvidenceId), punishmentId, text)]
                        && nextEvidenceId == old(nextEvidenceId) + 1
    {
      if !exists p :: p in punishments && p.id == punishmentId {
        return Err(ChildRowRefused);
      }
      AppendKeysBelow(evidence, EvidenceId, nextEvidenceId, Evidence(nextEvidenceId, punishmentId, text));
      evidence := evidence + [Evidence(nextEvidenceId, punishmentId, text)];
      nextEvidenceId := nextEvidenceId + 1;
      r := Ok(true);
    }

    method RemoveEvidence(punishmentId: int, evidenceId: int) returns (removed: bool)
      requires Valid()
      modifies this`evidence
      ensures Valid()
      ensures evidence == Filter(old(evidence), Not(EvidenceIs(evidenceId, punishmentId)))
      ensures removed <==> exists e :: e in old(evidence) && e.id == evidenceId && e.punishmentId == punishmentId
    {
      var deleted := Filter(evidence, EvidenceIs(evidenceId, punishmentId));
      FilterMember(evidence, EvidenceIs(evidenceId, punishmentId));
      FilterMember(evidence, Not(EvidenceIs(evidenceId, punishmentId)));
      FilterKeysBelow(evidence, EvidenceId, nextEvidenceId, Not(EvidenceIs(evidenceId, punishmentId)));
      if deleted != [] {
        assert deleted[0] in deleted;
      }
      evidence := Filter(evidence, Not(EvidenceIs(evidenceId, punishmentId)));
      removed := |deleted| > 0;
    }

    method GetEvidenceForPunishment(punishmentId: int) returns (r: seq<(int, string)>)
      ensures r == EvidenceList(evidence, punishmentId)
    {
      r := EvidenceList(evidence, punishmentId);
    }

    /** Inserts the entry under the next generated key; true, as one row is inserted. */
    method AddAuditLogEntry(entry: AuditLog) returns (added: bool)
      requires Valid()
      modifies this`auditLog, this`nextAuditId
      ensures Valid()
      ensures added
      ensures auditLog == old(auditLog) + [entry.(id := old(nextAuditId))]
      ensures nextAuditId == old(nextAuditId) + 1
    {
      AppendKeysBelow(auditLog, AuditId, nextAuditId, entry.(id := nextAuditId));
      auditLog := auditLog + [entry.(id := nextAuditId)];
      nextAuditId := nextAuditId + 1;
      added := true;
    }

    method GetAuditLog(limit: nat, offset: nat) returns (r: seq<AuditLog>)
      ensures r == AuditPage(auditLog, limit, offset)
    {
      r := AuditPage(auditLog, limit, offset);
    }

    method GetAuditLogForPlayer(playerName: string, limit: nat, offset: nat) returns (r: seq<AuditLog>)
      ensures r == PlayerAuditPage(auditLog, playerName, limit, offset)
    {
      r := PlayerAuditPage(auditLog, playerName, limit, offset);
    }

    method GetAuditLogEntry(id: int) returns (r: Option<AuditLog>)
      ensures r == FirstWhere(auditLog, AuditIdIs(id))
      ensures r.Some? ==> r.value.id == id && r.value in auditLog
      ensures r.None? <==> forall k :: 0 <= k < |auditLog| ==> auditLog[k].id != id
    {
      r := FirstWhere(auditLog, AuditIdIs(id));
    }

    method GetRecentPunishmentIds(limit: nat) returns (r: seq<string>)
      ensures r == RecentIds(punishments, limit)
    {
      r := RecentIds(punishments, limit);
    }

    method GetActivePunishmentIds(now: int) returns (r: seq<int>)
      ensures r == ActiveIds(punishments, now)
    {
      r := ActiveIds(punishments, now);
    }

    /** Shuts the pool down unless it already is; closing twice is closing once. */
    method Close()
      modifies this`closed
      ensures closed
    {
      if !closed {
        closed := true;
      }
    }
  }

  /** The sweep deletes exactly the punishments with an expiration at or before `now`. */
  lemma SweepSelects(rows: seq<Punishment>, now: int)
    ensures forall p :: p in Filter(rows, Not(ExpiredRow(now))) <==> p in rows && !ExpiredAt(p.expiration, now)
  {
    FilterMember(rows, Not(ExpiredRow(now)));
  }

  /** Sweeping twice at the same instant deletes nothing more. */
  lemma SweepIdempotent(rows: seq<Punishment>, now: int)
    ensures Filter(Filter(rows, Not(ExpiredRow(now))), Not(ExpiredRow(now))) == Filter(rows, Not(ExpiredRow(now)))
  {
    FilterIdempotent(rows, Not(ExpiredRow(now)));
  }
}
