/** How the three stores compare. The SQLite table writes a permanent expiration as -1, the
    pooled SQL table as NULL and the Mongo collection as a null field; read back, their rows
    are punishments, and on those the stores' queries mostly agree. The SQLite sweep is the
    exception: it skips expirations at or below zero, which the others delete. */
module BackendAgreement {
  import opened Wrappers
  import opened Tables
  import opened Punishments
  import opened DatabaseManager
  import Lite = SqliteStore
  import Sql = SqlStore
  import Mongo = MongoStore

  /** getActivePunishment: the SQLite table answers what the SQL table holding the same
      punishments answers. */
  lemma ActiveAgreesSqliteSql(rows: seq<Lite.Row>, player: Uuid, kind: PunishmentType, now: int)
    ensures Lite.ActivePunishment(rows, player, kind, now) ==
            Sql.ActivePunishment(Map(rows, Lite.ToPunishment), player, kind, now)
  {
    FirstWhereMap(rows, Lite.ToPunishment, Sql.InForceRow(player, kind, now), Lite.InForceRow(player, kind, now));
  }

  /** getActivePunishment: a Mongo collection answers what the SQL table holding its
      documents read back answers. */
  lemma ActiveAgreesMongoSql(docs: seq<Mongo.PunishmentDocument>, player: Uuid, kind: PunishmentType, now: int)
    ensures Mongo.ActivePunishment(docs, player, kind, now) ==
            Sql.ActivePunishment(Map(docs, Mongo.DocumentToPunishment), player, kind, now)
  {
    FirstWhereMap(docs, Mongo.DocumentToPunishment, Sql.InForceRow(player, kind, now), Mongo.InForceDoc(player, kind, now));
  }

  /** getActivePunishmentIds: the same ids from the SQLite table and the SQL table. */
  lemma ActiveIdsAgreeSqliteSql(rows: seq<Lite.Row>, now: int)
    ensures Lite.ActiveIds(rows, now) == Sql.ActiveIds(Map(rows, Lite.ToPunishment), now)
  {
    FilterMap(rows, Lite.ToPunishment, Sql.ActiveRow(now), Lite.ActiveRow(now));
    var kept := Filter(rows, Lite.ActiveRow(now));
    assert Map(kept, Lite.RowId) == Map(Map(kept, Lite.ToPunishment), Sql.PunishmentId);
  }

  /** rollbackPunishments: the same punishments are selected, in table order, by all stores. */
  lemma RollbackAgreesSqliteSql(rows: seq<Lite.Row>, moderator: string, since: int, filter: Option<PunishmentType>)
    ensures Map(Filter(rows, Lite.RollbackRow(moderator, since, filter)), Lite.ToPunishment) ==
            Filter(Map(rows, Lite.ToPunishment), Sql.RollbackRow(moderator, since, filter))
  {
    FilterMap(rows, Lite.ToPunishment, Sql.RollbackRow(moderator, since, filter), Lite.RollbackRow(moderator, since, filter));
  }

  lemma RollbackAgreesMongoSql(docs: seq<Mongo.PunishmentDocument>, moderator: string, since: int, filter: Option<PunishmentType>)
    ensures Map(Filter(docs, Mongo.RollbackDoc(moderator, since, filter)), Mongo.DocumentToPunishment) ==
            Filter(Map(docs, Mongo.DocumentToPunishment), Sql.RollbackRow(moderator, since, filter))
  {
    FilterMap(docs, Mongo.DocumentToPunishment, Sql.RollbackRow(moderator, since, filter), Mongo.RollbackDoc(moderator, since, filter));
  }

  /** cleanExpiredPunishments: when every stored expiration is positive or the sentinel,
      the SQLite sweep keeps what the SQL sweep keeps. */
  lemma SweepAgreesSqliteSql(rows: seq<Lite.Row>, now: int)
    requires forall k :: 0 <= k < |rows| ==> rows[k].expiration > 0 || rows[k].expiration == Lite.PermanentSentinel
    ensures Map(Filter(rows, Not(Lite.ExpiredRow(now))), Lite.ToPunishment) ==
            Filter(Map(rows, Lite.ToPunishment), Not(Sql.ExpiredRow(now)))
  {
    FilterMap(rows, Lite.ToPunishment, Not(Sql.ExpiredRow(now)), Not(Lite.ExpiredRow(now)));
  }

  /** ... and the condition is needed: a punishment that expires at instant 0 survives the
      SQLite sweep but not the SQL one. */
  lemma SweepDisagreesAtZero(p: Punishment, id: int, now: int)
    requires p.expiration == Some(0) && now >= 0
    ensures Filter([Lite.ToRow(p, id)], Not(Lite.ExpiredRow(now))) == [Lite.ToRow(p, id)]
    ensures Filter(Map([Lite.ToRow(p, id)], Lite.ToPunishment), Not(Sql.ExpiredRow(now))) == []
  {
    Lite.ZeroExpirationIsStuck(p, id, now);
    FilterOne(Lite.ToRow(p, id), Not(Lite.ExpiredRow(now)));
    assert Map([Lite.ToRow(p, id)], Lite.ToPunishment) == [Lite.ToPunishment(Lite.ToRow(p, id))];
    FilterOne(Lite.ToPunishment(Lite.ToRow(p, id)), Not(Sql.ExpiredRow(now)));
  }

  /** The Mongo sweep keeps what the SQL sweep keeps, with no condition. */
  lemma SweepAgreesMongoSql(docs: seq<Mongo.PunishmentDocument>, now: int)
    ensures Map(Filter(docs, Not(Mongo.ExpiredDoc(now))), Mongo.DocumentToPunishment) ==
            Filter(Map(docs, Mongo.DocumentToPunishment), Not(Sql.ExpiredRow(now)))
  {
    FilterMap(docs, Mongo.DocumentToPunishment, Not(Sql.ExpiredRow(now)), Not(Mongo.ExpiredDoc(now)));
  }

  /** getRecentPunishmentIds with a limit of 0: nothing from SQL, everything from Mongo. */
  lemma RecentIdsLimitZero(rows: seq<Punishment>, docs: seq<Mongo.PunishmentDocument>)
    ensures Sql.RecentIds(rows, 0) == []
    ensures |Mongo.RecentIds(docs, 0)| == |docs|
  {
  }
}
