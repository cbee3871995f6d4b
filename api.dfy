/** The HTTP API: four contexts under `/api/v1/`, each guarded by the API key. A request
    without the key gets 401 and touches nothing; a method a context does not answer gets
    405; otherwise the context's handler reads or changes the SQLite store. */
module Api {
  import opened Wrappers
  import opened Text
  import opened Tables
  import opened Punishments
  import opened AuditLogs
  import opened DatabaseManager
  import opened QueryString
  import Lite = SqliteStore

  /** The contexts `setupEndpoints` creates. */
  datatype Context = PunishmentsContext | AuditLogContext | EvidenceContext | CommandsContext

  function ContextPath(c: Context): string {
    match c
    case PunishmentsContext => "/api/v1/punishments"
    case AuditLogContext => "/api/v1/auditlog"
    case EvidenceContext => "/api/v1/evidence"
    case CommandsContext => "/api/v1/commands"
  }

  /** The request methods each context dispatches on. */
  function AllowedMethods(c: Context): set<string> {
    match c
    case PunishmentsContext => {"GET", "POST", "DELETE"}
    case AuditLogContext => {"GET"}
    case EvidenceContext => {"GET", "POST"}
    case CommandsContext => {"POST"}
  }

  /** The JSON documents the handlers answer with, before Gson writes them out. */
  datatype Json =
    | ErrorJson(error: string)
    | MessageJson(message: string)
    | AddedJson(message: string, id: int)
    | CommandJson(message: string, command: string)
    | PunishmentsJson(punishments: seq<Punishment>)
    | AuditLogJson(entries: seq<AuditLog>)
    | EvidenceJson(evidence: seq<(int, string)>)

  /** A response, or an exception thrown out of the handler before it responds. */
  datatype Reply = Respond(status: int, body: Json) | Thrown

  const Unauthorized: Reply := Respond(401, ErrorJson("Unauthorized"))
  const MethodNotAllowed: Reply := Respond(405, ErrorJson("Method Not Allowed"))

  function BadRequest(error: string): Reply {
    Respond(400, ErrorJson(error))
  }

  /** The request bodies as Gson reads them into each request class; a field missing from
      the JSON reads as None. */
  datatype EvidenceRequest = EvidenceRequest(punishmentId: Option<int>, evidence: Option<string>)
  datatype CommandRequest = CommandRequest(command: Option<string>)

  /** A punishment body as Gson reads it. Gson builds the object without running its
      constructor, so a field missing from the JSON is null even where the class declares it
      non-null, and a missing `issuedAt` is 0 rather than the constructor's clock default. */
  datatype PunishmentBody = PunishmentBody(id: int, playerUuid: Option<Uuid>, kind: Option<PunishmentType>,
                                           reason: Option<string>, expiration: Option<int>,
                                           issuer: Option<string>, issuedAt: int)

  /** The body read as each context's request class. `fromJson` gives null (None here) for an
      empty body or the JSON literal `null`, and every handler then dereferences it and throws. */
  datatype RequestBody = RequestBody(punishment: Option<PunishmentBody>, evidenceRequest: Option<EvidenceRequest>,
                                     commandRequest: Option<CommandRequest>)

  /** The punishment addPunishment can store from a body, or None where it throws before
      anything is written: `playerUUID.toString()` or `type.name` on null, or the NOT NULL
      constraint on `issuer`, which `withConnection` rethrows. */
  function BodyPunishment(b: PunishmentBody): (r: Option<Punishment>)
    ensures r.None? <==> b.playerUuid.None? || b.kind.None? || b.issuer.None?
    ensures r.Some? ==> && r.value.id == b.id && r.value.reason == b.reason && r.value.expiration == b.expiration
                        && r.value.issuedAt == b.issuedAt && Some(r.value.playerUuid) == b.playerUuid
                        && Some(r.value.kind) == b.kind && Some(r.value.issuer) == b.issuer
  {
    if b.playerUuid.None? || b.kind.None? || b.issuer.None? then None
    else Some(Punishment(b.id, b.playerUuid.value, b.kind.value, b.reason, b.expiration, b.issuer.value, b.issuedAt))
  }

  /** `authorize`: the first Authorization header must equal the key; a missing header
      never does. */
  predicate Authorized(header: Option<string>, apiKey: string) {
    header == Some(apiKey)
  }

  /** `requestURI.query?.parseQueryString()?.get(name)`: Err where the parse throws. */
  function QueryParam(query: Option<string>, name: string): Result<Option<string>> {
    match query
    case None => Ok(None)
    case Some(q) =>
      match ParseQueryString(q)
      case None => Err("malformed query")
      case Some(params) => Ok(if name in params then Some(params[name]) else None)
  }

  /** A parameter is read from the last piece that names it; the lookup throws exactly when
      some piece of the query has no `=`. */
  lemma QueryParamCases(query: string, name: string)
    ensures QueryParam(Some(query), name).Err? <==> SomePieceLacksEquals(Split(query, '&'))
    ensures QueryParam(Some(query), name).Ok? ==>
              (QueryParam(Some(query), name).value.Some? <==> SomePieceNames(Split(query, '&'), name))
    ensures QueryParam(Some(query), name).Ok? && QueryParam(Some(query), name).value.Some? ==>
              forall k | LastPieceNaming(Split(query, '&'), name, k) ::
                KeyValue(Split(query, '&')[k]) == Some((name, QueryParam(Some(query), name).value.value))
  {
    var pieces := Split(query, '&');
    assert ParseQueryString(query) == Associate(pieces);
    LookupCases(pieces, name);
    var r := QueryParam(Some(query), name);
    if Associate(pieces).None? {
      assert r == Err("malformed query");
    } else {
      var params := Associate(pieces).value;
      assert r == Ok(if name in params then Some(params[name]) else None);
    }
  }

  // ----- GET /api/v1/punishments -----

  /** The placeholder listing: one lookup per active id, each for a random player's mute;
      `randomUuid(k)` is the k-th UUID drawn. */
  function RandomLookups(rows: seq<Lite.Row>, n: nat, randomUuid: nat -> Uuid, now: int): (r: seq<Punishment>)
    ensures |r| <= n
  {
    if n == 0 then [] else RandomLookups(rows, n - 1, randomUuid, now) + Listed(rows, randomUuid(n - 1), now)
  }

  /** `getActivePunishment(player, MUTE)?.let { listOf(it) } ?: emptyList()` */
  function Listed(rows: seq<Lite.Row>, player: Uuid, now: int): seq<Punishment> {
    match Lite.ActivePunishment(rows, player, Mute, now)
    case Some(p) => [p]
    case None => []
  }

  /** The placeholder lists only mutes in force for the random players. */
  lemma {:induction false} RandomLookupsFindRandomMutes(rows: seq<Lite.Row>, n: nat, randomUuid: nat -> Uuid, now: int)
    ensures forall p :: p in RandomLookups(rows, n, randomUuid, now) ==>
              exists k :: 0 <= k < n && InForce(p, randomUuid(k), Mute, now)
  {
    if n > 0 {
      RandomLookupsFindRandomMutes(rows, n - 1, randomUuid, now);
    }
  }

  /** It lists nothing at all when none of the random players has a row. */
  lemma {:induction false} RandomLookupsEmpty(rows: seq<Lite.Row>, n: nat, randomUuid: nat -> Uuid, now: int)
    requires forall k, r :: 0 <= k < n && r in rows ==> r.playerUuid != randomUuid(k)
    ensures RandomLookups(rows, n, randomUuid, now) == []
  {
    if n > 0 {
      RandomLookupsEmpty(rows, n - 1, randomUuid, now);
      forall j | 0 <= j < |rows| ensures !InForce(Lite.ToPunishment(rows[j]), randomUuid(n - 1), Mute, now) {
        assert rows[j] in rows;
      }
    }
  }

  /** The listing: with `playerId`, that player's mute in force, if any. */
  function PunishmentsListing(rows: seq<Lite.Row>, query: Option<string>, now: int, randomUuid: nat -> Uuid): Reply {
    match QueryParam(query, "playerId")
    case Err(_) => Thrown
    case Ok(None) => Respond(200, PunishmentsJson(RandomLookups(rows, |Lite.ActiveIds(rows, now)|, randomUuid, now)))
    case Ok(Some(player)) =>
      Respond(200, PunishmentsJson(Listed(rows, player, now)))
  }

  /** Unless the query throws, the listing answers 200; for a player it lists that player's
      mute in force, or nothing exactly when none is in force. */
  lemma PunishmentsListingCases(rows: seq<Lite.Row>, query: Option<string>, now: int, randomUuid: nat -> Uuid)
    ensures PunishmentsListing(rows, query, now, randomUuid) == Thrown <==> QueryParam(query, "playerId").Err?
    ensures PunishmentsListing(rows, query, now, randomUuid).Respond? ==>
              PunishmentsListing(rows, query, now, randomUuid).status == 200
    ensures QueryParam(query, "playerId").Ok? && QueryParam(query, "playerId").value.Some? ==>
              var player := QueryParam(query, "playerId").value.value;
              var listed := PunishmentsListing(rows, query, now, randomUuid).body.punishments;
              && |listed| <= 1
              && (forall p :: p in listed ==> InForce(p, player, Mute, now))
              && (listed == [] <==> forall k :: 0 <= k < |rows| ==> !InForce(Lite.ToPunishment(rows[k]), player, Mute, now))
  {
  }

  method HandleGetPunishments(store: Lite.DataManager, query: Option<string>, now: int, randomUuid: nat -> Uuid)
    returns (reply: Reply)
    ensures reply == PunishmentsListing(store.punishments, query, now, randomUuid)
  {
    var playerId := QueryParam(query, "playerId");
    if playerId.Err? {
      return Thrown;
    }
    var punishments: seq<Punishment>;
    if playerId.value.Some? {
      punishments := LookUp(store, playerId.value.value, now);
    } else {
      var ids := store.GetActivePunishmentIds(now);
      punishments := LookUpRandomPlayers(store, ids, now, randomUuid);
    }
    reply := Respond(200, PunishmentsJson(punishments));
  }

  /** `ids.mapNotNull { getActivePunishment(UUID.randomUUID(), MUTE) }` */
  method LookUpRandomPlayers(store: Lite.DataManager, ids: seq<int>, now: int, randomUuid: nat -> Uuid)
    returns (punishments: seq<Punishment>)
    ensures punishments == RandomLookups(store.punishments, |ids|, randomUuid, now)
  {
    punishments := [];
    for k := 0 to |ids|
      invariant punishments == RandomLookups(store.punishments, k, randomUuid, now)
    {
      var listed := LookUp(store, randomUuid(k), now);
      punishments := punishments + listed;
    }
  }

  method LookUp(store: Lite.DataManager, player: Uuid, now: int) returns (listed: seq<Punishment>)
    ensures listed == Listed(store.punishments, player, now)
  {
    var found := store.GetActivePunishment(player, Mute, now);
    listed := if found.Some? then [found.value] else [];
  }

  // ----- POST and DELETE /api/v1/punishments -----

  /** Nothing in the tables an API handler may change has changed. */
  twostate predicate Unchanged(store: Lite.DataManager)
    reads store
  {
    && store.punishments == old(store.punishments) && store.nextPunishmentId == old(store.nextPunishmentId)
    && store.evidence == old(store.evidence) && store.nextEvidenceId == old(store.nextEvidenceId)
  }

  /** A null body, or one lacking a player, a type or an issuer, throws and changes nothing;
      any other punishment is stored as it came, under the next key, which the reply carries. */
  twostate predicate PunishmentAdded(store: Lite.DataManager, body: Option<PunishmentBody>, reply: Reply)
    reads store
  {
    match if body.Some? then BodyPunishment(body.value) else None
    case None => reply == Thrown && Unchanged(store)
    case Some(p) =>
      && store.punishments == old(store.punishments) + [Lite.ToRow(p, old(store.nextPunishmentId))]
      && store.nextPunishmentId == old(store.nextPunishmentId) + 1
      && store.evidence == old(store.evidence) && store.nextEvidenceId == old(store.nextEvidenceId)
      && reply == Respond(201, AddedJson("Punishment added.", old(store.nextPunishmentId)))
  }

  method HandlePostPunishment(store: Lite.DataManager, body: Option<PunishmentBody>) returns (reply: Reply)
    requires store.Valid()
    modifies store`punishments, store`nextPunishmentId
    ensures store.Valid()
    ensures PunishmentAdded(store, body, reply)
  {
    if body.None? {
      return Thrown;
    }
    var punishment := BodyPunishment(body.value);
    if punishment.None? {
      return Thrown;
    }
    var id := store.AddPunishment(punishment.value);
    reply := Respond(201, AddedJson("Punishment added.", id));
  }

  function RemovalReply(removed: bool): Reply {
    if removed then Respond(200, MessageJson("Punishment removed."))
    else Respond(404, MessageJson("Punishment not found."))
  }

  /** Without `playerId` nothing changes and the answer is 400; with it, the player's mutes
      in force are deleted (no other kind, no other player), and the answer says whether
      there was one. */
  twostate predicate PunishmentDeleted(store: Lite.DataManager, query: Option<string>, now: int, reply: Reply)
    reads store
  {
    match QueryParam(query, "playerId")
    case Err(_) => reply == Thrown && Unchanged(store)
    case Ok(None) => reply == BadRequest("Missing playerId") && Unchanged(store)
    case Ok(Some(player)) =>
      && store.punishments == Filter(old(store.punishments), Not(Lite.InForceRow(player, Mute, now)))
      && store.nextPunishmentId == old(store.nextPunishmentId)
      && store.evidence == old(store.evidence) && store.nextEvidenceId == old(store.nextEvidenceId)
      && reply == RemovalReply(Lite.ActivePunishment(old(store.punishments), player, Mute, now).Some?)
  }

  method HandleDeletePunishment(store: Lite.DataManager, query: Option<string>, now: int) returns (reply: Reply)
    requires store.Valid()
    modifies store`punishments
    ensures store.Valid()
    ensures PunishmentDeleted(store, query, now, reply)
  {
    var playerId := QueryParam(query, "playerId");
    if playerId.Err? {
      return Thrown;
    }
    if playerId.value.Some? {
      var result := store.RemovePunishment(playerId.value.value, Mute, now);
      reply := RemovalReply(result);
    } else {
      reply := BadRequest("Missing playerId");
    }
  }

  /** A DELETE spares every row that is not a mute of the named player in force, and leaves
      no such mute behind. */
  lemma DeleteSparesOthers(rows: seq<Lite.Row>, player: Uuid, now: int)
    ensures forall r :: r in Filter(rows, Not(Lite.InForceRow(player, Mute, now))) <==>
              r in rows && !(r.playerUuid == player && r.kind == Mute && Lite.RowActive(r, now))
    ensures Lite.ActivePunishment(Filter(rows, Not(Lite.InForceRow(player, Mute, now))), player, Mute, now).None?
  {
    FilterMember(rows, Not(Lite.InForceRow(player, Mute, now)));
    Lite.RemovedIsInactive(rows, player, Mute, now);
  }

  // ----- GET /api/v1/auditlog -----

  /** With `player`, that player's default page; otherwise the default page of the whole log. */
  function AuditLogReply(log: seq<AuditLog>, query: Option<string>): Reply {
    match QueryParam(query, "player")
    case Err(_) => Thrown
    case Ok(None) => Respond(200, AuditLogJson(AuditPage(log, DefaultLimit, DefaultOffset)))
    case Ok(Some(player)) => Respond(200, AuditLogJson(PlayerAuditPage(log, player, DefaultLimit, DefaultOffset)))
  }

  /** The audit log answers at most ten entries, newest first, all about the player when one
      is named. */
  lemma AuditLogReplyPage(log: seq<AuditLog>, query: Option<string>)
    ensures AuditLogReply(log, query) == Thrown <==> QueryParam(query, "player").Err?
    ensures AuditLogReply(log, query).Respond? ==>
              var entries := AuditLogReply(log, query).body.entries;
              && AuditLogReply(log, query).status == 200
              && |entries| <= 10
              && SortedDesc(entries, Timestamp)
              && multiset(entries) <= multiset(log)
    ensures QueryParam(query, "player").Ok? && QueryParam(query, "player").value.Some? ==>
              forall e :: e in AuditLogReply(log, query).body.entries ==> e.target == QueryParam(query, "player").value.value
  {
    match QueryParam(query, "player")
    case Err(_) =>
    case Ok(None) =>
      AuditPageNewestFirst(log, DefaultLimit, DefaultOffset);
    case Ok(Some(player)) =>
      AuditPageNewestFirst(Filter(log, TargetIs(player)), DefaultLimit, DefaultOffset);
      FilterSplit(log, TargetIs(player));
      PlayerAuditPageIsRestriction(log, player, DefaultLimit, DefaultOffset);
  }

  method HandleAuditLog(store: Lite.DataManager, query: Option<string>) returns (reply: Reply)
    ensures reply == AuditLogReply(store.auditLog, query)
  {
    var player := QueryParam(query, "player");
    if player.Err? {
      return Thrown;
    }
    var entries: seq<AuditLog>;
    if player.value.Some? {
      entries := store.GetAuditLogForPlayer(player.value.value, DefaultLimit, DefaultOffset);
    } else {
      entries := store.GetAuditLog(DefaultLimit, DefaultOffset);
    }
    reply := Respond(200, AuditLogJson(entries));
  }

  // ----- GET and POST /api/v1/evidence -----

  const InvalidPunishmentId: string := "Invalid or missing punishmentId"

  /** `punishmentId` must be present and read as an Int. */
  function EvidenceReply(rows: seq<Evidence>, query: Option<string>): Reply {
    match QueryParam(query, "punishmentId")
    case Err(_) => Thrown
    case Ok(None) => BadRequest(InvalidPunishmentId)
    case Ok(Some(text)) =>
      match ParseInt(text)
      case None => BadRequest(InvalidPunishmentId)
      case Some(id) => Respond(200, EvidenceJson(EvidenceList(rows, id)))
  }

  /** The evidence list answers 200 exactly when the id reads as an Int, and lists exactly
      the evidence attached to that punishment. */
  lemma EvidenceReplyCases(rows: seq<Evidence>, query: Option<string>)
    ensures EvidenceReply(rows, query).Respond? && EvidenceReply(rows, query).status == 200 <==>
              QueryParam(query, "punishmentId").Ok? && QueryParam(query, "punishmentId").value.Some? &&
              ParseInt(QueryParam(query, "punishmentId").value.value).Some?
    ensures EvidenceReply(rows, query).Respond? && EvidenceReply(rows, query).status == 200 ==>
              var id := ParseInt(QueryParam(query, "punishmentId").value.value).value;
              IntMin <= id <= IntMax &&
              forall x :: x in EvidenceReply(rows, query).body.evidence <==>
                exists e :: e in rows && e.punishmentId == id && x == (e.id, e.text)
  {
  }

  method HandleGetEvidence(store: Lite.DataManager, query: Option<string>) returns (reply: Reply)
    ensures reply == EvidenceReply(store.evidence, query)
  {
    var punishmentId := QueryParam(query, "punishmentId");
    if punishmentId.Err? {
      return Thrown;
    }
    var id := if punishmentId.value.Some? then ParseInt(punishmentId.value.value) else None;
    if id.Some? {
      var evidence := store.GetEvidenceForPunishment(id.value);
      reply := Respond(200, EvidenceJson(evidence));
    } else {
      reply := BadRequest(InvalidPunishmentId);
    }
  }

  /** With both fields the evidence is attached under the next key and the answer is 201
      (the SQLite store never reports a missing punishment, so the 404 branch is never
      taken); without either nothing changes and the answer is 400. A null body throws at
      `evidenceRequest.punishmentId` and changes nothing. */
  twostate predicate EvidencePosted(store: Lite.DataManager, body: Option<EvidenceRequest>, reply: Reply)
    reads store
  {
    if body.None? then reply == Thrown && Unchanged(store)
    else
    var request := body.value;
    if request.punishmentId.Some? && request.evidence.Some? then
      && store.evidence == old(store.evidence) +
                             [Evidence(old(store.nextEvidenceId), request.punishmentId.value, request.evidence.value)]
      && store.nextEvidenceId == old(store.nextEvidenceId) + 1
      && store.punishments == old(store.punishments) && store.nextPunishmentId == old(store.nextPunishmentId)
      && reply == Respond(201, MessageJson("Evidence added."))
    else
      reply == BadRequest("Missing punishmentId or evidence") && Unchanged(store)
  }

  method HandlePostEvidence(store: Lite.DataManager, body: Option<EvidenceRequest>) returns (reply: Reply)
    requires store.Valid()
    modifies store`evidence, store`nextEvidenceId
    ensures store.Valid()
    ensures EvidencePosted(store, body, reply)
  {
    if body.None? {
      return Thrown;
    }
    var request := body.value;
    if request.punishmentId.Some? && request.evidence.Some? {
      var result := store.AddEvidence(request.punishmentId.value, request.evidence.value);
      reply := if result then Respond(201, MessageJson("Evidence added."))
               else Respond(404, MessageJson("Punishment not found."));
    } else {
      reply := BadRequest("Missing punishmentId or evidence");
    }
  }

  // ----- POST /api/v1/commands -----

  /** The command a body names; a null body names none. */
  function RequestedCommand(body: Option<CommandRequest>): Option<string> {
    if body.Some? then body.value.command else None
  }

  /** A null body throws at `commandRequest.command`; otherwise 200 with the command, or 400. */
  function CommandReply(body: Option<CommandRequest>): Reply {
    match body
    case None => Thrown
    case Some(request) =>
      match request.command
      case Some(command) => Respond(200, CommandJson("Command executed", command))
      case None => BadRequest("Missing command")
  }

  // ----- dispatch -----

  /** What an authorized request with a method its context answers does. */
  twostate predicate Served(store: Lite.DataManager, context: Context, requestMethod: string, query: Option<string>,
                            body: RequestBody, now: int, randomUuid: nat -> Uuid, reply: Reply)
    reads store
  {
    match context
    case PunishmentsContext =>
      if requestMethod == "GET" then reply == PunishmentsListing(old(store.punishments), query, now, randomUuid) && Unchanged(store)
      else if requestMethod == "POST" then PunishmentAdded(store, body.punishment, reply)
      else PunishmentDeleted(store, query, now, reply)
    case AuditLogContext => reply == AuditLogReply(store.auditLog, query) && Unchanged(store)
    case EvidenceContext =>
      if requestMethod == "GET" then reply == EvidenceReply(old(store.evidence), query) && Unchanged(store)
      else EvidencePosted(store, body.evidenceRequest, reply)
    case CommandsContext => reply == CommandReply(body.commandRequest) && Unchanged(store)
  }

  /** One request to a context. `now` is the clock reading of every store call; `dispatched`
      is the command handed to the server's console, if any. */
  method Handle(store: Lite.DataManager, apiKey: string, context: Context, requestMethod: string,
                authorization: Option<string>, query: Option<string>, body: RequestBody,
                now: int, randomUuid: nat -> Uuid)
    returns (reply: Reply, dispatched: Option<string>)
    requires store.Valid()
    modifies store`punishments, store`nextPunishmentId, store`evidence, store`nextEvidenceId
    ensures store.Valid()
    ensures !Authorized(authorization, apiKey) ==> reply == Unauthorized && Unchanged(store)
    ensures Authorized(authorization, apiKey) && requestMethod !in AllowedMethods(context) ==>
              reply == MethodNotAllowed && Unchanged(store)
    ensures Authorized(authorization, apiKey) && requestMethod in AllowedMethods(context) ==>
              Served(store, context, requestMethod, query, body, now, randomUuid, reply)
    ensures dispatched == if Authorized(authorization, apiKey) && context == CommandsContext && requestMethod == "POST"
                          then RequestedCommand(body.commandRequest) else None
  {
    dispatched := None;
    if authorization != Some(apiKey) {
      return Unauthorized, None;
    }
    match context
    case PunishmentsContext =>
      if requestMethod == "GET" {
        reply := HandleGetPunishments(store, query, now, randomUuid);
      } else if requestMethod == "POST" {
        reply := HandlePostPunishment(store, body.punishment);
      } else if requestMethod == "DELETE" {
        reply := HandleDeletePunishment(store, query, now);
      } else {
        reply := MethodNotAllowed;
      }
    case AuditLogContext =>
      if requestMethod == "GET" {
        reply := HandleAuditLog(store, query);
      } else {
        reply := MethodNotAllowed;
      }
    case EvidenceContext =>
      if requestMethod == "GET" {
        reply := HandleGetEvidence(store, query);
      } else if requestMethod == "POST" {
        reply := HandlePostEvidence(store, body.evidenceRequest);
      } else {
        reply := MethodNotAllowed;
      }
    case CommandsContext =>
      if requestMethod == "POST" {
        dispatched := RequestedCommand(body.commandRequest);
        reply := CommandReply(body.commandRequest);
      } else {
        reply := MethodNotAllowed;
      }
  }
}
