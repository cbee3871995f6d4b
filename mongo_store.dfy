/** The MongoDB store. Documents are keyed by ObjectIds; the integer ids it hands out are
    the Java `hashCode` of the ObjectId's hexadecimal text. */
module MongoStore {
  import opened Wrappers
  import opened Text
  import opened Tables
  import opened Punishments
  import opened AuditLogs
  import opened DatabaseManager

  // ----- ObjectIds and their text -----

  /** A 12-byte ObjectId, as the number its 24 hexadecimal digits spell. */
  datatype ObjectId = ObjectId(value: nat)

  const ObjectIdDigits: nat := 24

  predicate IsHexChar(c: char) { '0' <= c <= '9' || 'a' <= c <= 'f' || 'A' <= c <= 'F' }

  function HexChar(d: nat): (c: char)
    requires d < 16
    ensures IsHexChar(c)
  {
    if d < 10 then ('0' as int + d) as char else ('a' as int + d - 10) as char
  }

  function HexCharValue(c: char): (d: nat)
    requires IsHexChar(c)
    ensures d < 16
  {
    if '0' <= c <= '9' then c as int - '0' as int
    else if 'a' <= c <= 'f' then c as int - 'a' as int + 10
    else c as int - 'A' as int + 10
  }

  /** The last `width` hexadecimal digits of v, most significant first, zero-padded. */
  function Hex(v: nat, width: nat): (s: string)
    ensures |s| == width && forall i :: 0 <= i < |s| ==> IsHexChar(s[i])
  {
    if width == 0 then "" else Hex(v / 16, width - 1) + [HexChar(v % 16)]
  }

  function HexValue(s: string): nat
    requires forall i :: 0 <= i < |s| ==> IsHexChar(s[i])
  {
    if s == [] then 0 else HexValue(s[..|s| - 1]) * 16 + HexCharValue(s[|s| - 1])
  }

  /** `ObjectId.toString()` / `toHexString()`: 24 lowercase hexadecimal digits. */
  function HexString(oid: ObjectId): (s: string)
    ensures |s| == ObjectIdDigits
  {
    Hex(oid.value, ObjectIdDigits)
  }

  /** The `ObjectId(String)` constructor: 24 hexadecimal digits, or it throws. */
  function ObjectIdFromString(s: string): (r: Result<ObjectId>)
    ensures r.Ok? <==> |s| == ObjectIdDigits && forall i :: 0 <= i < |s| ==> IsHexChar(s[i])
  {
    if |s| == ObjectIdDigits && forall i :: 0 <= i < |s| ==> IsHexChar(s[i]) then Ok(ObjectId(HexValue(s)))
    else Err("invalid hexadecimal representation of an ObjectId: [" + s + "]")
  }

  /** An ObjectId built from the text of a 32-bit integer always throws: that text has at most
      eleven characters. */
  lemma IntTextIsNoObjectId(i: int)
    requires IntMin <= i <= IntMax
    ensures ObjectIdFromString(IntToString(i)).Err?
  {
    IntToStringShort(i);
  }

  const TwoTo32: int := 0x1_0000_0000

  /** Java's `String.hashCode` before the cast to int: h = 31 * h + c over the characters,
      modulo 2^32. */
  function HashBits(s: string): (h: nat)
    ensures h < TwoTo32
  {
    if s == [] then 0 else (HashBits(s[..|s| - 1]) * 31 + s[|s| - 1] as int) % TwoTo32
  }

  /** Java's `String.hashCode`, a signed 32-bit value. */
  function HashCode(s: string): (h: int)
    ensures IntMin <= h <= IntMax
    ensures (h - HashBits(s)) % TwoTo32 == 0
  {
    var b := HashBits(s);
    if b > IntMax then b - TwoTo32 else b
  }

  /** The integer id the store reports for a document. */
  function IdOf(oid: ObjectId): int { HashCode(HexString(oid)) }

  // ----- documents -----

  datatype PunishmentDocument = PunishmentDocument(
    oid: ObjectId,
    playerUuid: Uuid,
    kind: PunishmentType,
    reason: Option<string>,
    expiration: Option<int>,
    issuer: string,
    issuedAt: int)

  datatype EvidenceDocument = EvidenceDocument(oid: ObjectId, punishmentId: int, text: string)

  datatype AuditDocument = AuditDocument(
    oid: ObjectId,
    action: string,
    moderator: string,
    target: string,
    details: string,
    timestamp: int)

  function PunishmentKey(d: PunishmentDocument): int { d.oid.value }
  function EvidenceKey(d: EvidenceDocument): int { d.oid.value }
  function AuditKey(d: AuditDocument): int { d.oid.value }
  function DocIssuedAt(d: PunishmentDocument): int { d.issuedAt }
  function DocTimestamp(d: AuditDocument): int { d.timestamp }

  function ToDocument(p: Punishment, oid: ObjectId): PunishmentDocument {
    PunishmentDocument(oid, p.playerUuid, p.kind, p.reason, p.expiration, p.issuer, p.issuedAt)
  }

  /** documentToPunishment: every field as stored, the id replaced by the ObjectId's hash. */
  function DocumentToPunishment(d: PunishmentDocument): (p: Punishment)
    ensures p == Punishment(IdOf(d.oid), d.playerUuid, d.kind, d.reason, d.expiration, d.issuer, d.issuedAt)
  {
    Punishment(IdOf(d.oid), d.playerUuid, d.kind, d.reason, d.expiration, d.issuer, d.issuedAt)
  }

  function DocumentToAuditLog(d: AuditDocument): AuditLog {
    AuditLog(IdOf(d.oid), d.action, d.moderator, d.target, d.details, d.timestamp)
  }

  /** A punishment written and read back is itself under its hash id. */
  lemma DocumentRoundTrip(p: Punishment, oid: ObjectId)
    ensures DocumentToPunishment(ToDocument(p, oid)) == p.WithId(IdOf(oid))
  {
  }

  // ----- filters -----

  /** `and(eq player_uuid, eq type, or(gt expiration now, eq expiration null))` */
  function InForceDoc(player: Uuid, kind: PunishmentType, now: int): PunishmentDocument -> bool {
    (d: PunishmentDocument) => d.playerUuid == player && d.kind == kind && ActiveAt(d.expiration, now)
  }

  function ActiveDoc(now: int): PunishmentDocument -> bool {
    (d: PunishmentDocument) => ActiveAt(d.expiration, now)
  }

  /** `and(ne expiration null, lte expiration now)` */
  function ExpiredDoc(now: int): PunishmentDocument -> bool {
    (d: PunishmentDocument) => ExpiredAt(d.expiration, now)
  }

  function RollbackDoc(moderator: string, since: int, filter: Option<PunishmentType>): PunishmentDocument -> bool {
    (d: PunishmentDocument) => RollbackMatch(d.issuer, d.issuedAt, d.kind, moderator, since, filter)
  }

  function EvidenceDocOf(punishmentId: int): EvidenceDocument -> bool {
    (d: EvidenceDocument) => d.punishmentId == punishmentId
  }

  function EvidenceDocIs(oid: ObjectId, punishmentId: int): EvidenceDocument -> bool {
    (d: EvidenceDocument) => d.oid == oid && d.punishmentId == punishmentId
  }

  function AuditDocTargets(playerName: string): AuditDocument -> bool {
    (d: AuditDocument) => d.target == playerName
  }

  function EvidencePairOf(d: EvidenceDocument): (int, string) { (IdOf(d.oid), d.text) }

  // ----- queries over collections -----

  /** getActivePunishment over a collection: `find(...).first()`. */
  function ActivePunishment(docs: seq<PunishmentDocument>, player: Uuid, kind: PunishmentType, now: int): (r: Option<Punishment>)
    ensures r.Some? ==> InForce(r.value, player, kind, now)
    ensures r.None? <==> forall k :: 0 <= k < |docs| ==> !InForceDoc(player, kind, now)(docs[k])
  {
    MapOption(FirstWhere(docs, InForceDoc(player, kind, now)), DocumentToPunishment)
  }

  /** Mongo's `limit(limit)` over a collection of `size` documents: 0 places no limit. */
  function EffectiveLimit(limit: nat, size: nat): (n: nat)
    ensures limit > 0 ==> n == limit
    ensures limit == 0 ==> n == size
  {
    if limit == 0 then size else limit
  }

  /** The audit page `sort(descending timestamp).skip(offset).limit(limit)`. It is the page
      the SQL stores compute over the documents read as entries, with a limit of 0 placing
      no limit. */
  function AuditDocPage(docs: seq<AuditDocument>, limit: nat, offset: nat): (r: seq<AuditLog>)
    ensures r == AuditPage(Map(docs, DocumentToAuditLog), EffectiveLimit(limit, |docs|), offset)
  {
    var sorted := SortDesc(docs, DocTimestamp);
    MapSortDesc(docs, DocumentToAuditLog, DocTimestamp, Timestamp);
    MapPage(sorted, DocumentToAuditLog, EffectiveLimit(limit, |docs|), offset);
    PageWhole(sorted, |docs|, offset);
    Map(SkipLimit(sorted, limit, offset), DocumentToAuditLog)
  }

  /** A Mongo audit page lists stored entries, newest first, at most `limit` of them unless
      the limit is 0. */
  lemma AuditDocPageNewestFirst(docs: seq<AuditDocument>, limit: nat, offset: nat)
    ensures SortedDesc(AuditDocPage(docs, limit, offset), Timestamp)
    ensures multiset(AuditDocPage(docs, limit, offset)) <= multiset(Map(docs, DocumentToAuditLog))
    ensures limit > 0 ==> |AuditDocPage(docs, limit, offset)| <= limit
  {
    AuditPageNewestFirst(Map(docs, DocumentToAuditLog), EffectiveLimit(limit, |docs|), offset);
  }

  function DocIdText(d: PunishmentDocument): string { HexString(d.oid) }

  /** getRecentPunishmentIds over a collection: the ObjectId texts of `limit` documents (all
      of them when there are fewer, or when the limit is 0), latest issued first, and no
      document left out was issued after one listed. */
  function RecentIds(docs: seq<PunishmentDocument>, limit: nat): (r: seq<string>)
    ensures limit == 0 ==> |r| == |docs|
    ensures limit > 0 ==> |r| == Min(limit, |docs|)
    ensures exists xs :: TopRows(xs, docs, EffectiveLimit(limit, |docs|), DocIssuedAt) && r == Map(xs, DocIdText)
  {
    var sorted := SortDesc(docs, DocIssuedAt);
    TopPage(docs, EffectiveLimit(limit, |docs|), DocIssuedAt);
    PageWhole(sorted, |docs|, 0);
    Map(SkipLimit(sorted, limit, 0), DocIdText)
  }

  function ActiveIds(docs: seq<PunishmentDocument>, now: int): (r: seq<int>)
    ensures |r| <= |docs|
    ensures forall id :: id in r <==> exists d :: d in docs && IdOf(d.oid) == id && ActiveAt(d.expiration, now)
  {
    var kept := Filter(docs, ActiveDoc(now));
    FilterMember(docs, ActiveDoc(now));
    var r := Map(kept, (d: PunishmentDocument) => IdOf(d.oid));
    forall id | id in r ensures exists d :: d in kept && IdOf(d.oid) == id {
      var k :| 0 <= k < |r| && r[k] == id;
      assert kept[k] in kept;
    }
    forall d | d in kept ensures IdOf(d.oid) in r {
      var k :| 0 <= k < |kept| && kept[k] == d;
      assert r[k] == IdOf(d.oid);
    }
    r
  }

  /** deleteOne removes just one document in force: with two in force for the same player
      and kind, getActivePunishment still finds the second after removePunishment. */
  lemma RemoveLeavesSecond(docs: seq<PunishmentDocument>, player: Uuid, kind: PunishmentType, now: int)
    requires |Filter(docs, InForceDoc(player, kind, now))| >= 2
    ensures ActivePunishment(RemoveFirst(docs, InForceDoc(player, kind, now)), player, kind, now) ==
            Some(DocumentToPunishment(Filter(docs, InForceDoc(player, kind, now))[1]))
  {
    var f := InForceDoc(player, kind, now);
    RemoveFirstHits(docs, f);
    FirstWhereIsFilterHead(RemoveFirst(docs, f), f);
  }

  /** With at most one document in force, deleteOne deletes what the SQL stores' DELETE does. */
  lemma RemoveAgreesWhenUnique(docs: seq<PunishmentDocument>, player: Uuid, kind: PunishmentType, now: int)
    requires |Filter(docs, InForceDoc(player, kind, now))| <= 1
    ensures RemoveFirst(docs, InForceDoc(player, kind, now)) == Filter(docs, Not(InForceDoc(player, kind, now)))
  {
    RemoveFirstIsFilterWhenUnique(docs, InForceDoc(player, kind, now), Not(InForceDoc(player, kind, now)));
  }

  /** After the sweep every document left is active. */
  lemma SweepLeavesOnlyActive(docs: seq<PunishmentDocument>, now: int)
    ensures forall k :: 0 <= k < |Filter(docs, Not(ExpiredDoc(now)))| ==>
              ActiveAt(Filter(docs, Not(ExpiredDoc(now)))[k].expiration, now)
  {
  }

  /** The first audit document whose reported id is `id`: the lookup an id handed out by
      this store can reach. */
  function AuditByReportedId(docs: seq<AuditDocument>, id: int): (r: Option<AuditLog>)
    ensures r.Some? ==> r.value.id == id
    ensures r.None? <==> forall k :: 0 <= k < |docs| ==> IdOf(docs[k].oid) != id
  {
    MapOption(FirstWhere(docs, (d: AuditDocument) => IdOf(d.oid) == id), DocumentToAuditLog)
  }

  /** Every entry the store lists can be looked up again by the id it was listed with: the
      lookup finds the first document with that id, which is the listed one unless an
      earlier document's ObjectId text has the same hash. */
  lemma ListedEntryIsFound(docs: seq<AuditDocument>, k: nat)
    requires k < |docs|
    ensures var id := DocumentToAuditLog(docs[k]).id;
            exists j :: 0 <= j <= k && IdOf(docs[j].oid) == id && FirstReportedAt(docs, id, j) &&
                        AuditByReportedId(docs, id) == Some(DocumentToAuditLog(docs[j]))
    ensures FirstReportedAt(docs, DocumentToAuditLog(docs[k]).id, k) ==>
              AuditByReportedId(docs, DocumentToAuditLog(docs[k]).id) == Some(DocumentToAuditLog(docs[k]))
  {
    var id := DocumentToAuditLog(docs[k]).id;
    FirstReported(docs, id, k);
  }

  /** No document before position j reports the id. */
  predicate FirstReportedAt(docs: seq<AuditDocument>, id: int, j: nat) {
    forall i :: 0 <= i < j && i < |docs| ==> IdOf(docs[i].oid) != id
  }

  lemma {:induction false} FirstReported(docs: seq<AuditDocument>, id: int, k: nat)
    requires k < |docs| && IdOf(docs[k].oid) == id
    ensures exists j :: 0 <= j <= k && IdOf(docs[j].oid) == id && FirstReportedAt(docs, id, j) &&
                        AuditByReportedId(docs, id) == Some(DocumentToAuditLog(docs[j]))
    ensures FirstReportedAt(docs, id, k) ==> AuditByReportedId(docs, id) == Some(DocumentToAuditLog(docs[k]))
  {
    if IdOf(docs[0].oid) == id {
      assert FirstReportedAt(docs, id, 0);
      assert AuditByReportedId(docs, id) == Some(DocumentToAuditLog(docs[0]));
    } else {
      FirstReported(docs[1..], id, k - 1);
      var j :| 0 <= j <= k - 1 && IdOf(docs[1..][j].oid) == id && FirstReportedAt(docs[1..], id, j) &&
               AuditByReportedId(docs[1..], id) == Some(DocumentToAuditLog(docs[1..][j]));
      assert docs[1..][j] == docs[j + 1];
      assert AuditByReportedId(docs, id) == AuditByReportedId(docs[1..], id);
      assert FirstReportedAt(docs, id, j + 1) by {
        forall i | 0 <= i < j + 1 && i < |docs| ensures IdOf(docs[i].oid) != id {
          if i > 0 {
            assert docs[i] == docs[1..][i - 1];
          }
        }
      }
      if FirstReportedAt(docs, id, k) {
        assert FirstReportedAt(docs[1..], id, k - 1) by {
          forall i | 0 <= i < k - 1 && i < |docs[1..]| ensures IdOf(docs[1..][i].oid) != id {
            assert docs[1..][i] == docs[i + 1];
          }
        }
      }
    }
  }

  /** The MongoDB database: one sequence of documents per collection. ObjectIds come from
      one counter, so no two documents share one. */
  class MongoManager {
    var punishments: seq<PunishmentDocument>
    var evidence: seq<EvidenceDocument>
    var auditLog: seq<AuditDocument>
    var nextOid: int
    /** Whether the client has been closed. */
    var closed: bool

    ghost predicate Valid()
      reads this
    {
      && KeysBelow(punishments, PunishmentKey, nextOid)
      && KeysBelow(evidence, EvidenceKey, nextOid)
      && KeysBelow(auditLog, AuditKey, nextOid)
    }

    constructor ()
      ensures Valid() && !closed
      ensures punishments == [] && evidence == [] && auditLog == [] && nextOid == 1
    {
      punishments, evidence, auditLog := [], [], [];
      nextOid := 1;
      closed := false;
    }

    /** insertOne under a fresh ObjectId; returns that id's hash. */
    method AddPunishment(p: Punishment) returns (id: int)
      requires Valid()
      modifies this`punishments, this`nextOid
      ensures Valid()
      ensures nextOid == old(nextOid) + 1
      ensures punishments == old(punishments) + [ToDocument(p, ObjectId(old(nextOid)))]
      ensures id == IdOf(ObjectId(old(nextOid)))
    {
      var oid := ObjectId(nextOid);
      AppendKeysBelow(punishments, PunishmentKey, nextOid, ToDocument(p, oid));
      KeysBelowGrow(evidence, EvidenceKey, nextOid);
      KeysBelowGrow(auditLog, AuditKey, nextOid);
      punishments := punishments + [ToDocument(p, oid)];
      nextOid := nextOid + 1;
      id := IdOf(oid);
    }

    /** deleteOne: removes the first document in force for the player and kind. */
    method RemovePunishment(player: Uuid, kind: PunishmentType, now: int) returns (removed: bool)
      requires Valid()
      modifies this`punishments
      ensures Valid()
      ensures punishments == RemoveFirst(old(punishments), InForceDoc(player, kind, now))
      ensures removed <==> ActivePunishment(old(punishments), player, kind, now).Some?
    {
      RemoveFirstKeysBelow(punishments, PunishmentKey, nextOid, InForceDoc(player, kind, now));
      removed := FirstWhere(punishments, InForceDoc(player, kind, now)).Some?;
      punishments := RemoveFirst(punishments, InForceDoc(player, kind, now));
    }

    method GetActivePunishment(player: Uuid, kind: PunishmentType, now: int) returns (r: Option<Punishment>)
      ensures r == ActivePunishment(punishments, player, kind, now)
    {
      r := ActivePunishment(punishments, player, kind, now);
    }

    method CleanExpiredPunishments(now: int) returns (deletedCount: nat)
      requires Valid()
      modifies this`punishments
      ensures Valid()
      ensures punishments == Filter(old(punishments), Not(ExpiredDoc(now)))
      ensures deletedCount == |old(punishments)| - |punishments|
    {
      FilterSplit(punishments, ExpiredDoc(now));
      FilterKeysBelow(punishments, PunishmentKey, nextOid, Not(ExpiredDoc(now)));
      var kept := Filter(punishments, Not(ExpiredDoc(now)));
      deletedCount := |punishments| - |kept|;
      punishments := kept;
    }

    /** One filter for both the find and the deleteMany: returns exactly what it deletes. */
    method RollbackPunishments(moderator: string, since: int, filter: Option<PunishmentType>)
      returns (rolledBack: seq<Punishment>)
      requires Valid()
      modifies this`punishments
      ensures Valid()
      ensures rolledBack == Map(Filter(old(punishments), RollbackDoc(moderator, since, filter)), DocumentToPunishment)
      ensures punishments == Filter(old(punishments), Not(RollbackDoc(moderator, since, filter)))
      ensures |rolledBack| + |punishments| == |old(punishments)|
    {
      rolledBack := Map(Filter(punishments, RollbackDoc(moderator, since, filter)), DocumentToPunishment);
      FilterSplit(punishments, RollbackDoc(moderator, since, filter));
      FilterKeysBelow(punishments, PunishmentKey, nextOid, Not(RollbackDoc(moderator, since, filter)));
      punishments := Filter(punishments, Not(RollbackDoc(moderator, since, filter)));
    }

    /** insertOne; an acknowledged write reports true. */
    method AddEvidence(punishmentId: int, text: string) returns (added: bool)
      requires Valid()
      modifies this`evidence, this`nextOid
      ensures Valid()
      ensures added
      ensures nextOid == old(nextOid) + 1
      ensures evidence == old(evidence) + [EvidenceDocument(ObjectId(old(nextOid)), punishmentId, text)]
    {
      var d := EvidenceDocument(ObjectId(nextOid), punishmentId, text);
      AppendKeysBelow(evidence, EvidenceKey, nextOid, d);
      KeysBelowGrow(punishments, PunishmentKey, nextOid);
      KeysBelowGrow(auditLog, AuditKey, nextOid);
      evidence := evidence + [d];
      nextOid := nextOid + 1;
      added := true;
    }

    /** As written: the filter's ObjectId is built from the decimal text of the evidence id,
        which is never 24 hexadecimal digits, so the call throws before deleting anything. */
    method RemoveEvidence(punishmentId: int, evidenceId: int) returns (r: Result<bool>)
      requires Valid()
      requires IntMin <= evidenceId <= IntMax
      modifies this`evidence
      ensures Valid()
      ensures r.Err? && evidence == old(evidence)
    {
      IntTextIsNoObjectId(evidenceId);
      r := Err(ObjectIdFromString(IntToString(evidenceId)).error);
    }

    /** Corrected: deletes the first evidence document of the punishment whose reported id
        (the hash getEvidenceForPunishment lists) is `evidenceId`. */
    method RemoveEvidenceByReportedId(punishmentId: int, evidenceId: int) returns (removed: bool)
      requires Valid()
      modifies this`evidence
      ensures Valid()
      ensures removed <==> exists k :: 0 <= k < |old(evidence)| && EvidencePairOf(old(evidence)[k]).0 == evidenceId
                                         && old(evidence)[k].punishmentId == punishmentId
      ensures evidence == RemoveFirst(old(evidence), (d: EvidenceDocument) => IdOf(d.oid) == evidenceId && d.punishmentId == punishmentId)
    {
      var f := (d: EvidenceDocument) => IdOf(d.oid) == evidenceId && d.punishmentId == punishmentId;
      RemoveFirstKeysBelow(evidence, EvidenceKey, nextOid, f);
      removed := FirstWhere(evidence, f).Some?;
      evidence := RemoveFirst(evidence, f);
    }

    method GetEvidenceForPunishment(punishmentId: int) returns (r: seq<(int, string)>)
      ensures r == Map(Filter(evidence, EvidenceDocOf(punishmentId)), EvidencePairOf)
      ensures forall x :: x in r <==> exists d :: d in evidence && d.punishmentId == punishmentId && x == EvidencePairOf(d)
    {
      var kept := Filter(evidence, EvidenceDocOf(punishmentId));
      FilterMember(evidence, EvidenceDocOf(punishmentId));
      r := Map(kept, EvidencePairOf);
      forall x | x in r ensures exists d :: d in kept && x == EvidencePairOf(d) {
        var k :| 0 <= k < |r| && r[k] == x;
        assert kept[k] in kept;
      }
      forall d | d in kept ensures EvidencePairOf(d) in r {
        var k :| 0 <= k < |kept| && kept[k] == d;
        assert r[k] == EvidencePairOf(d);
      }
    }

    method AddAuditLogEntry(entry: AuditLog) returns (added: bool)
      requires Valid()
      modifies this`auditLog, this`nextOid
      ensures Valid()
      ensures added
      ensures nextOid == old(nextOid) + 1
      ensures auditLog == old(auditLog) + [AuditDocument(ObjectId(old(nextOid)), entry.action,
                                          entry.moderator, entry.target, entry.details, entry.timestamp)]
    {
      var d := AuditDocument(ObjectId(nextOid), entry.action, entry.moderator, entry.target, entry.details, entry.timestamp);
      AppendKeysBelow(auditLog, AuditKey, nextOid, d);
      KeysBelowGrow(punishments, PunishmentKey, nextOid);
      KeysBelowGrow(evidence, EvidenceKey, nextOid);
      auditLog := auditLog + [d];
      nextOid := nextOid + 1;
      added := true;
    }

    /** The page of the whole log, as the SQL stores compute it over the stored entries. */
    method GetAuditLog(limit: nat, offset: nat) returns (r: seq<AuditLog>)
      ensures r == AuditDocPage(auditLog, limit, offset)
      ensures r == AuditPage(Map(auditLog, DocumentToAuditLog), EffectiveLimit(limit, |auditLog|), offset)
      ensures SortedDesc(r, Timestamp) && multiset(r) <= multiset(Map(auditLog, DocumentToAuditLog))
    {
      r := AuditDocPage(auditLog, limit, offset);
      AuditDocPageNewestFirst(auditLog, limit, offset);
    }

    /** The page of the player's entries, as the SQL stores compute it over the stored
        entries. */
    method GetAuditLogForPlayer(playerName: string, limit: nat, offset: nat) returns (r: seq<AuditLog>)
      ensures r == AuditDocPage(Filter(auditLog, AuditDocTargets(playerName)), limit, offset)
      ensures r == PlayerAuditPage(Map(auditLog, DocumentToAuditLog), playerName,
                                   EffectiveLimit(limit, |Filter(auditLog, AuditDocTargets(playerName))|), offset)
      ensures forall k :: 0 <= k < |r| ==> r[k].target == playerName
    {
      var mine := Filter(auditLog, AuditDocTargets(playerName));
      r := AuditDocPage(mine, limit, offset);
      FilterMap(auditLog, DocumentToAuditLog, TargetIs(playerName), AuditDocTargets(playerName));
      PlayerAuditPageIsRestriction(Map(auditLog, DocumentToAuditLog), playerName,
                                   EffectiveLimit(limit, |mine|), offset);
    }

    /** As written: the ObjectId is built from the decimal text of the id, so the lookup
        always throws. */
    method GetAuditLogEntry(id: int) returns (r: Result<Option<AuditLog>>)
      requires IntMin <= id <= IntMax
      ensures r.Err?
    {
      IntTextIsNoObjectId(id);
      r := Err(ObjectIdFromString(IntToString(id)).error);
    }

    /** Corrected: the entry whose reported id is `id`. */
    method GetAuditLogEntryByReportedId(id: int) returns (r: Option<AuditLog>)
      ensures r == AuditByReportedId(auditLog, id)
    {
      r := AuditByReportedId(auditLog, id);
    }

    method GetRecentPunishmentIds(limit: nat) returns (r: seq<string>)
      ensures r == RecentIds(punishments, limit)
    {
      r := RecentIds(punishments, limit);
    }

    method GetActivePunishmentIds(now: int) returns (r: seq<int>)
      ensures r == ActiveIds(punishments, now)
    {
      r := ActiveIds(punishments, now);
    }

    /** Closes the client, whether or not it was already closed. */
    method Close()
      modifies this`closed
      ensures closed
    {
      closed := true;
    }
  }

  /** Sweeping twice at the same instant deletes nothing more. */
  lemma SweepIdempotent(docs: seq<PunishmentDocument>, now: int)
    ensures Filter(Filter(docs, Not(ExpiredDoc(now))), Not(ExpiredDoc(now))) == Filter(docs, Not(ExpiredDoc(now)))
  {
    FilterIdempotent(docs, Not(ExpiredDoc(now)));
  }
}
