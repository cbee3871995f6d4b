/** What every store means by its queries: the record filters of the punishment,
    evidence and audit-log tables, and the audit-log page. The three stores phrase these in
    SQL or Mongo filters over their own encodings; each store module proves that its
    phrasing agrees with these definitions. */
module DatabaseManager {
  import opened Wrappers
  import opened Punishments
  import opened AuditLogs
  import opened Tables

  /** Default page of the audit-log queries (`limit = 10, offset = 0`). */
  const DefaultLimit: nat := 10
  const DefaultOffset: nat := 0

  /** A punishment is in force at `now` when it is permanent or expires after `now`. */
  predicate ActiveAt(expiration: Option<int>, now: int) {
    expiration.None? || expiration.value > now
  }

  /** A punishment is due for the sweep when it has an expiration at or before `now`. */
  predicate ExpiredAt(expiration: Option<int>, now: int)
    ensures ExpiredAt(expiration, now) <==> !ActiveAt(expiration, now)
  {
    expiration.Some? && expiration.value <= now
  }

  /** The player, kind and activity condition of removePunishment and getActivePunishment. */
  predicate InForce(p: Punishment, player: Uuid, kind: PunishmentType, now: int) {
    p.playerUuid == player && p.kind == kind && ActiveAt(p.expiration, now)
  }

  /** The rollback condition: issued by the moderator at or after `since`, and of the given
      kind when one is given. */
  predicate RollbackMatch(issuer: string, issuedAt: int, kind: PunishmentType,
                          moderator: string, since: int, filter: Option<PunishmentType>) {
    issuer == moderator && issuedAt >= since && (filter.Some? ==> kind == filter.value)
  }

  /** A row of the evidence table (the Mongo store keys its rows differently). */
  datatype Evidence = Evidence(id: int, punishmentId: int, text: string)

  function EvidenceId(e: Evidence): int { e.id }

  function EvidenceOf(punishmentId: int): Evidence -> bool {
    (e: Evidence) => e.punishmentId == punishmentId
  }

  /** The evidence row a removeEvidence call names. */
  function EvidenceIs(evidenceId: int, punishmentId: int): Evidence -> bool {
    (e: Evidence) => e.id == evidenceId && e.punishmentId == punishmentId
  }

  function EvidencePair(e: Evidence): (int, string) { (e.id, e.text) }

  /** getEvidenceForPunishment over a SQL evidence table: (id, text) of every row attached
      to the punishment, in table order. */
  function EvidenceList(rows: seq<Evidence>, punishmentId: int): (r: seq<(int, string)>)
    ensures forall x :: x in r <==> exists e :: e in rows && e.punishmentId == punishmentId && x == (e.id, e.text)
  {
    var kept := Filter(rows, EvidenceOf(punishmentId));
    FilterMember(rows, EvidenceOf(punishmentId));
    var r := Map(kept, EvidencePair);
    assert forall x :: x in r ==> exists e :: e in kept && x == EvidencePair(e);
    assert forall e :: e in kept ==> EvidencePair(e) in r by {
      forall e | e in kept ensures EvidencePair(e) in r {
        var k :| 0 <= k < |kept| && kept[k] == e;
        assert r[k] == EvidencePair(e);
      }
    }
    r
  }

  function AuditIdIs(id: int): AuditLog -> bool {
    (e: AuditLog) => e.id == id
  }

  /** `ORDER BY timestamp DESC LIMIT limit OFFSET offset` over the whole log. */
  function AuditPage(log: seq<AuditLog>, limit: nat, offset: nat): (r: seq<AuditLog>)
    ensures |r| <= limit
  {
    Page(SortDesc(log, Timestamp), limit, offset)
  }

  /** The same page over the entries that target one player. */
  function PlayerAuditPage(log: seq<AuditLog>, playerName: string, limit: nat, offset: nat): (r: seq<AuditLog>)
    ensures |r| <= limit
  {
    AuditPage(Filter(log, TargetIs(playerName)), limit, offset)
  }

  /** An audit page lists log entries, newest first. */
  lemma AuditPageNewestFirst(log: seq<AuditLog>, limit: nat, offset: nat)
    ensures SortedDesc(AuditPage(log, limit, offset), Timestamp)
    ensures multiset(AuditPage(log, limit, offset)) <= multiset(log)
    ensures offset == 0 ==> TopRows(AuditPage(log, limit, 0), log, limit, Timestamp)
  {
    TopPage(log, limit, Timestamp);
    SortDescSorted(log, Timestamp);
    SortDescPermutation(log, Timestamp);
    PageIsSlice(SortDesc(log, Timestamp), limit, offset, Timestamp);
  }

  /** A player's page is the page of the full newest-first log restricted to that player:
      filtering before or after the sort gives the same entries in the same order. */
  lemma PlayerAuditPageIsRestriction(log: seq<AuditLog>, playerName: string, limit: nat, offset: nat)
    ensures PlayerAuditPage(log, playerName, limit, offset) ==
            Page(Filter(SortDesc(log, Timestamp), TargetIs(playerName)), limit, offset)
    ensures forall k :: 0 <= k < |PlayerAuditPage(log, playerName, limit, offset)| ==>
              PlayerAuditPage(log, playerName, limit, offset)[k].target == playerName
  {
    FilterSortDescCommute(log, Timestamp, TargetIs(playerName));
  }

  /** With the default page and at most ten entries, the page is the whole log, newest first. */
  lemma DefaultPageIsWholeLog(log: seq<AuditLog>)
    requires |log| <= DefaultLimit
    ensures multiset(AuditPage(log, DefaultLimit, DefaultOffset)) == multiset(log)
  {
    SortDescPermutation(log, Timestamp);
    PageAll(SortDesc(log, Timestamp), DefaultLimit);
  }

  /** An entry appended under the next key is the one getAuditLogEntry finds by that key,
      with its stored fields unchanged. */
  lemma AddedEntryIsFound(log: seq<AuditLog>, next: int, entry: AuditLog)
    requires KeysBelow(log, AuditId, next)
    ensures FirstWhere(log + [entry.(id := next)], AuditIdIs(next)) == Some(entry.(id := next))
  {
    FirstWhereAppend(log, [entry.(id := next)], AuditIdIs(next));
  }
}
