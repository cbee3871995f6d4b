/** The `/auditlog [player]` and `/auditlog details <id>` commands. Neither changes the store.
    Both read the punishment id, duration and reason back out of an entry's free-text details
    with three patterns; the details a mute writes read back as written, under the conditions
    the lemmas below name. */
module AuditLogCommand {
  import opened Wrappers
  import opened Text
  import opened Tables
  import opened AuditLogs
  import opened DatabaseManager
  import opened PatternFind
  import DurationFormat
  import Mute = MuteCommand
  import Lite = SqliteStore

  const IdKey: string := "ID: "
  const DurationKey: string := "Duration: "
  const ReasonKey: string := "Reason: "

  /** The three groups `extractPunishmentDetails` returns, each absent when its pattern does
      not match. */
  datatype Slots = Slots(punishmentId: Option<string>, duration: Option<string>, reason: Option<string>)

  /** `extractPunishmentDetails`: `ID: (\d+)`, `Duration: ([^,]+)` and `Reason: ([^,]+)`,
      each found independently of the others. */
  function ExtractPunishmentDetails(details: string): Slots {
    Slots(Find(details, IdKey, Digit), Find(details, DurationKey, NotComma), Find(details, ReasonKey, NotComma))
  }

  /** Lower-case ASCII letters, digits and spaces: the alphabet of every duration text. */
  predicate PlainChar(c: char) {
    ('a' <= c <= 'z') || IsDigit(c) || c == ' '
  }

  predicate Plain(s: string) {
    forall i :: 0 <= i < |s| ==> PlainChar(s[i])
  }

  lemma PlainAppend(a: string, b: string)
    requires Plain(a) && Plain(b)
    ensures Plain(a + b)
  {
    forall i | 0 <= i < |a + b| ensures PlainChar((a + b)[i]) {
      if i < |a| {
        assert (a + b)[i] == a[i];
      } else {
        assert (a + b)[i] == b[i - |a|];
      }
    }
  }

  lemma {:induction false} JoinPlain(parts: seq<string>, sep: string)
    requires Plain(sep)
    requires forall k :: 0 <= k < |parts| ==> Plain(parts[k])
    ensures Plain(Join(parts, sep))
    decreases |parts|
  {
    if |parts| > 1 {
      JoinPlain(parts[1..], sep);
      PlainAppend(parts[0], sep);
      PlainAppend(parts[0] + sep, Join(parts[1..], sep));
    }
  }

  lemma PartPlain(n: int, word: string)
    requires Plain(word)
    ensures forall k :: 0 <= k < |DurationFormat.Part(n, word)| ==> Plain(DurationFormat.Part(n, word)[k])
  {
    if n > 0 {
      assert Plain(NatToString(n));
      PlainAppend(NatToString(n), " ");
      PlainAppend(NatToString(n) + " ", word);
    }
  }

  lemma PartsPlain(d: int)
    ensures forall k :: 0 <= k < |DurationFormat.Parts(d)| ==> Plain(DurationFormat.Parts(d)[k])
  {
    DurationFormat.PartsSpelled(d);
    FourPartsPlain(DurationFormat.Days(d), DurationFormat.Hours(d), DurationFormat.Minutes(d), DurationFormat.Seconds(d));
  }

  lemma FourPartsPlain(days: int, hours: int, minutes: int, seconds: int)
    ensures var parts := DurationFormat.Part(days, "days") + DurationFormat.Part(hours, "hours") +
                         DurationFormat.Part(minutes, "minutes") + DurationFormat.Part(seconds, "seconds");
            forall k :: 0 <= k < |parts| ==> Plain(parts[k])
  {
    PartPlain(days, "days");
    PartPlain(hours, "hours");
    PartPlain(minutes, "minutes");
    PartPlain(seconds, "seconds");
  }

  /** A formatted length is plain. */
  lemma FormatDurationPlain(d: int)
    ensures Plain(DurationFormat.FormatDuration(d))
  {
    DurationFormat.FormatDurationIsJoin(d);
    PartsPlain(d);
    JoinPlain(DurationFormat.Parts(d), " ");
  }

  /** Every duration text a mute writes is non-empty and plain: no comma, colon or capital
      can occur in it. */
  lemma DurationTextPlain(expiration: Option<int>, now: int)
    ensures Mute.FormatDurationString(expiration, now) != []
    ensures Plain(Mute.FormatDurationString(expiration, now))
  {
    if expiration.Some? {
      ForDurationPlain(expiration.value - now);
    } else {
      assert Mute.FormatDurationString(expiration, now) == "permanently";
      PermanentlyPlain();
    }
  }

  lemma ForDurationPlain(d: int)
    ensures "for " + DurationFormat.FormatDuration(d) != [] && Plain("for " + DurationFormat.FormatDuration(d))
  {
    FormatDurationPlain(d);
    ForTextPlain(DurationFormat.FormatDuration(d));
  }

  lemma ForTextPlain(text: string)
    requires Plain(text)
    ensures "for " + text != [] && Plain("for " + text)
  {
    assert Plain("for ") by {
      forall i | 0 <= i < 4 ensures PlainChar("for "[i]) {
      }
    }
    PlainAppend("for ", text);
  }

  lemma PermanentlyPlain()
    ensures Plain("permanently")
  {
    forall i | 0 <= i < 11 ensures PlainChar("permanently"[i]) {
    }
  }

  /** The characters of an integer's decimal text. */
  lemma IntTextChars(i: int)
    ensures forall j :: 0 <= j < |IntToString(i)| ==> IsDigit(IntToString(i)[j]) || IntToString(i)[j] == '-'
  {
    if i < 0 {
      var s := IntToString(i);
      forall j | 0 <= j < |s| ensures IsDigit(s[j]) || s[j] == '-' {
        if j > 0 {
          assert s[j] == s[1..][j - 1];
        }
      }
    }
  }

  /** The details text, regrouped around each of the three keys. */
  lemma DetailsRegrouped(t: string, r: string, d: string)
    ensures var details := "ID: " + t + ", Reason: " + r + ", Duration: " + d;
            && details == [] + (IdKey + (t + (", Reason: " + r + ", Duration: " + d)))
            && details == ("ID: " + t + ", ") + (ReasonKey + (r + (", Duration: " + d)))
            && details == ("ID: " + (t + ", Reason: ") + (r + ", ")) + (DurationKey + (d + []))
  {
    var details := "ID: " + t + ", Reason: " + r + ", Duration: " + d;
    assert ", Reason: " == ", " + ReasonKey;
    assert ", Duration: " == ", " + DurationKey;
    assert details == "ID: " + (t + (", Reason: " + (r + (", Duration: " + d))));
  }

  /** The id slot of a mute's details is the punishment id, when it is not negative. */
  lemma IdSlotReadsBack(id: int, reason: Option<string>, durationText: string)
    requires id >= 0
    ensures Find(Mute.AuditDetails(id, reason, durationText), IdKey, Digit) == Some(NatToString(id))
  {
    var rest := ", Reason: " + reason.GetOr("None") + ", Duration: " + durationText;
    DetailsRegrouped(IntToString(id), reason.GetOr("None"), durationText);
    assert IntToString(id) == NatToString(id);
    FindAfter([], IdKey, NatToString(id), rest, Digit);
  }

  /** The id part holds no capital R, so the reason key cannot start in it. */
  lemma IdPartMissesReason(id: int, back: string)
    ensures Misses("ID: " + IntToString(id) + ", ", back, ReasonKey)
  {
    var t := IntToString(id);
    var front := "ID: " + t + ", ";
    IntTextChars(id);
    forall j | 0 <= j < |front| ensures front[j] != ReasonKey[0] {
      if 4 <= j < 4 + |t| {
        assert front[j] == t[j - 4];
      }
    }
    MissesByChar(front, back, ReasonKey, 0);
  }

  /** The reason slot of a mute's details is the reason text ("None" for no reason) when that
      text is non-empty and has no comma. */
  lemma ReasonSlotReadsBack(id: int, reason: Option<string>, durationText: string)
    requires reason.GetOr("None") != [] && ',' !in reason.GetOr("None")
    ensures Find(Mute.AuditDetails(id, reason, durationText), ReasonKey, NotComma) == Some(reason.GetOr("None"))
  {
    var r := reason.GetOr("None");
    var front := "ID: " + IntToString(id) + ", ";
    var tail := ", Duration: " + durationText;
    DetailsRegrouped(IntToString(id), r, durationText);
    IdPartMissesReason(id, ReasonKey + (r + tail));
    FindAfter(front, ReasonKey, r, tail, NotComma);
  }

  /** An empty reason leaves the reason slot empty, so the details view shows "None". */
  lemma EmptyReasonSlot(id: int, durationText: string)
    requires Plain(durationText)
    ensures Find(Mute.AuditDetails(id, Some(""), durationText), ReasonKey, NotComma) == None
  {
    var front := "ID: " + IntToString(id) + ", ";
    var back := ReasonKey + ", Duration: " + durationText;
    assert Mute.AuditDetails(id, Some(""), durationText) == front + back;
    IdPartMissesReason(id, back);
    FindSkips(front, back, ReasonKey, NotComma);
    EmptyReasonTail(durationText);
  }

  /** After an empty reason the key is followed by a comma, and no capital R comes later. */
  lemma EmptyReasonTail(durationText: string)
    requires Plain(durationText)
    ensures Find(ReasonKey + ", Duration: " + durationText, ReasonKey, NotComma) == None
  {
    var back := ReasonKey + ", Duration: " + durationText;
    var rest := "eason: , Duration: " + durationText;
    assert back[1..] == rest && back[8] == ',';
    forall j | 0 <= j < |rest| ensures rest[j] != ReasonKey[0] {
      if j >= 19 {
        assert rest[j] == durationText[j - 19];
      }
    }
    MissesByChar(rest, [], ReasonKey, 0);
    assert rest + [] == rest;
    FindSkips(rest, [], ReasonKey, NotComma);
  }

  /** The duration key cannot start in the id part: "ID: " has no u in second place, the id
      text and the reason label have no capital D. */
  lemma IdPartMissesDuration(id: int, back: string)
    ensures Misses("ID: " + (IntToString(id) + ", Reason: "), back, DurationKey)
  {
    var t := IntToString(id);
    IdTextMissesDuration(id, back);
    MissesByChar("ID: ", (t + ", Reason: ") + back, DurationKey, 1);
    MissesConcat("ID: ", t + ", Reason: ", back, DurationKey);
  }

  lemma IdTextMissesDuration(id: int, back: string)
    ensures Misses(IntToString(id) + ", Reason: ", back, DurationKey)
  {
    var t := IntToString(id);
    IntTextChars(id);
    MissesByChar(", Reason: ", back, DurationKey, 0);
    MissesByChar(t, ", Reason: " + back, DurationKey, 0);
    MissesConcat(t, ", Reason: ", back, DurationKey);
  }

  /** Nor can it start in a reason without a colon: the next eight characters after the
      reason are ", Durati", which have none either. */
  lemma ReasonPartMissesDuration(id: int, r: string, back: string)
    requires ':' !in r
    requires back == DurationKey || (|back| > |DurationKey| && back[..|DurationKey|] == DurationKey)
    ensures Misses("ID: " + (IntToString(id) + ", Reason: ") + (r + ", "), back, DurationKey)
  {
    MissesByChar(", ", back, DurationKey, 0);
    forall j | 0 <= j < 8 && j < |", " + back| ensures (", " + back)[j] != DurationKey[8] {
      if j >= 2 {
        assert (", " + back)[j] == back[j - 2] == DurationKey[j - 2];
      }
    }
    MissesByChar(r, ", " + back, DurationKey, 8);
    MissesConcat(r, ", ", back, DurationKey);
    assert (r + ", ") + back == r + (", " + back);
    IdPartMissesDuration(id, (r + ", ") + back);
    MissesConcat("ID: " + (IntToString(id) + ", Reason: "), r + ", ", back, DurationKey);
  }

  /** The duration slot of a mute's details is the duration text, when the reason has no
      colon (a reason holding "Duration: x" would be read instead, see below). */
  lemma DurationSlotReadsBack(id: int, reason: Option<string>, durationText: string)
    requires durationText != [] && Plain(durationText)
    requires reason.Some? ==> ':' !in reason.value
    ensures Find(Mute.AuditDetails(id, reason, durationText), DurationKey, NotComma) == Some(durationText)
  {
    var r := reason.GetOr("None");
    var front := "ID: " + (IntToString(id) + ", Reason: ") + (r + ", ");
    DetailsRegrouped(IntToString(id), r, durationText);
    ReasonPartMissesDuration(id, r, DurationKey + (durationText + []));
    FindAfter(front, DurationKey, durationText, [], NotComma);
  }

  /** The details of a mute read back whole: the punishment id (which parses back to the id
      the evidence lookup uses), the duration text and the reason text. */
  lemma MuteDetailsRoundTrip(punishmentId: int, reason: Option<string>, expiration: Option<int>, now: int)
    requires 0 <= punishmentId <= IntMax
    requires reason.Some? ==> reason.value != [] && ',' !in reason.value && ':' !in reason.value
    ensures var slots := ExtractPunishmentDetails(Mute.AuditDetails(punishmentId, reason, Mute.FormatDurationString(expiration, now)));
            && slots == Slots(Some(NatToString(punishmentId)), Some(Mute.FormatDurationString(expiration, now)), Some(reason.GetOr("None")))
            && ParseInt(slots.punishmentId.value) == Some(punishmentId)
  {
    var text := Mute.FormatDurationString(expiration, now);
    DurationTextPlain(expiration, now);
    IdSlotReadsBack(punishmentId, reason, text);
    ReasonSlotReadsBack(punishmentId, reason, text);
    DurationSlotReadsBack(punishmentId, reason, text);
    ParseLongOfInt(punishmentId);
  }

  /** The colon condition is needed: a reason that itself says "Duration: forever" is what
      the duration slot reads, whatever the id and the real duration text. */
  lemma ReasonCanShadowDuration(id: int, durationText: string)
    ensures Find(Mute.AuditDetails(id, Some("Duration: forever"), durationText), DurationKey, NotComma) == Some("forever")
  {
    var t := IntToString(id);
    var tail := ", Duration: " + durationText;
    var front := "ID: " + (t + ", Reason: ");
    ShadowRegrouped(t, durationText);
    IdPartMissesDuration(id, DurationKey + ("forever" + tail));
    FindAfter(front, DurationKey, "forever", tail, NotComma);
  }

  lemma ShadowRegrouped(t: string, d: string)
    ensures "ID: " + t + ", Reason: " + "Duration: forever" + ", Duration: " + d ==
            ("ID: " + (t + ", Reason: ")) + (DurationKey + ("forever" + (", Duration: " + d)))
  {
    assert "Duration: forever" == DurationKey + "forever";
  }

  /** One line of the list view. The id and duration slots are spliced into the line by
      string templates, so a slot that did not match prints as "null". */
  datatype ListLine = ListLine(entryId: int, timestamp: int, action: string, moderator: string, target: string,
                               punishmentId: string, duration: string)

  function Line(entry: AuditLog): ListLine {
    var slots := ExtractPunishmentDetails(entry.details);
    ListLine(entry.id, entry.timestamp, entry.action, entry.moderator, entry.target,
             slots.punishmentId.GetOr("null"), slots.duration.GetOr("null"))
  }

  datatype ListView = NoEntries | Entries(lines: seq<ListLine>)

  /** The entries the list view reads: the named player's page, or the page of the whole
      log, with the default limit and offset. */
  function ListedEntries(log: seq<AuditLog>, player: Option<string>): seq<AuditLog> {
    match player
    case Some(name) => PlayerAuditPage(log, name, DefaultLimit, DefaultOffset)
    case None => AuditPage(log, DefaultLimit, DefaultOffset)
  }

  /** A named player's listing holds only entries that target that player, newest first. */
  lemma ListedEntriesTargetPlayer(log: seq<AuditLog>, player: Option<string>)
    ensures |ListedEntries(log, player)| <= DefaultLimit
    ensures SortedDesc(ListedEntries(log, player), Timestamp)
    ensures player.Some? ==> forall k :: 0 <= k < |ListedEntries(log, player)| ==> ListedEntries(log, player)[k].target == player.value
  {
    match player
    case Some(name) =>
      PlayerAuditPageIsRestriction(log, name, DefaultLimit, DefaultOffset);
      AuditPageNewestFirst(Filter(log, TargetIs(name)), DefaultLimit, DefaultOffset);
    case None =>
      AuditPageNewestFirst(log, DefaultLimit, DefaultOffset);
  }

  /** `onAuditLog`: one line per listed entry, in the order the store returns them; nothing
      but the "no entries" message when there are none. */
  method OnAuditLog(store: Lite.DataManager, player: Option<string>) returns (view: ListView)
    ensures ListedEntries(store.auditLog, player) == [] ==> view == NoEntries
    ensures ListedEntries(store.auditLog, player) != [] ==>
              && view.Entries?
              && |view.lines| == |ListedEntries(store.auditLog, player)|
              && forall k :: 0 <= k < |view.lines| ==> view.lines[k] == Line(ListedEntries(store.auditLog, player)[k])
  {
    var entries: seq<AuditLog>;
    if player.Some? {
      entries := store.GetAuditLogForPlayer(player.value, DefaultLimit, DefaultOffset);
    } else {
      entries := store.GetAuditLog(DefaultLimit, DefaultOffset);
    }
    if entries == [] {
      return NoEntries;
    }
    var lines: seq<ListLine> := [];
    var i := 0;
    while i < |entries|
      invariant 0 <= i <= |entries|
      invariant |lines| == i
      invariant forall k :: 0 <= k < i ==> lines[k] == Line(entries[k])
    {
      lines := lines + [Line(entries[i])];
      i := i + 1;
    }
    view := Entries(lines);
  }

  /** The list line of a mute's audit entry shows the punishment id and the duration text. */
  lemma MuteEntryLine(moderator: string, targetName: string, p: Punishments.Punishment, punishmentId: int,
                      formatNow: int, logNow: int, entryId: int)
    requires 0 <= punishmentId <= IntMax
    requires p.reason.Some? ==> p.reason.value != [] && ',' !in p.reason.value && ':' !in p.reason.value
    ensures Line(Mute.MuteEntry(moderator, targetName, p, punishmentId, formatNow, logNow).(id := entryId)) ==
            ListLine(entryId, logNow, "MUTE", moderator, targetName, NatToString(punishmentId),
                     Mute.FormatDurationString(p.expiration, formatNow))
  {
    MuteDetailsRoundTrip(punishmentId, p.reason, p.expiration, formatNow);
  }

  /** What the details view lists under the entry's fields. */
  datatype EvidenceSection =
    | NoLookup                              // no punishment id in the details
    | IdOutOfRange                          // `toInt()` throws: the digits exceed the Int range
    | NoEvidence
    | EvidenceLines(contents: seq<string>)

  datatype DetailsView =
    | EntryNotFound
    | EntryDetails(entry: AuditLog, punishmentId: string, duration: string, reason: string, evidence: EvidenceSection)

  function EvidenceText(pair: (int, string)): string { pair.1 }

  /** The evidence shown for the punishment id text of a details slot. */
  function EvidenceFor(rows: seq<Evidence>, idText: string): EvidenceSection {
    match ParseInt(idText)
    case None => IdOutOfRange
    case Some(n) =>
      var listed := EvidenceList(rows, n);
      if listed == [] then NoEvidence else EvidenceLines(Map(listed, EvidenceText))
  }

  /** The details view of the entry the store found (or did not). */
  function Details(found: Option<AuditLog>, rows: seq<Evidence>): DetailsView {
    match found
    case None => EntryNotFound
    case Some(entry) =>
      var slots := ExtractPunishmentDetails(entry.details);
      EntryDetails(entry, slots.punishmentId.GetOr("N/A"), slots.duration.GetOr("N/A"), slots.reason.GetOr("None"),
                   if slots.punishmentId.None? then NoLookup else EvidenceFor(rows, slots.punishmentId.value))
  }

  /** `onAuditLogDetails`: the entry with that id, its three slots, and the evidence of the
      punishment the id slot names. */
  method OnAuditLogDetails(store: Lite.DataManager, id: int) returns (view: DetailsView)
    requires store.Valid()
    ensures view == Details(FirstWhere(store.auditLog, AuditIdIs(id)), store.evidence)
  {
    var entry := store.GetAuditLogEntry(id);
    if entry.None? {
      return EntryNotFound;
    }
    var slots := ExtractPunishmentDetails(entry.value.details);
    var evidence := NoLookup;
    if slots.punishmentId.Some? {
      var punishmentId := ParseInt(slots.punishmentId.value);
      if punishmentId.None? {
        evidence := IdOutOfRange;
      } else {
        var listed := store.GetEvidenceForPunishment(punishmentId.value);
        evidence := if listed == [] then NoEvidence else EvidenceLines(Map(listed, EvidenceText));
      }
    }
    view := EntryDetails(entry.value, slots.punishmentId.GetOr("N/A"), slots.duration.GetOr("N/A"),
                         slots.reason.GetOr("None"), evidence);
  }

  /** The store is asked for evidence exactly when the details name a punishment id. */
  lemma EvidenceOnlyWithId(entry: AuditLog, rows: seq<Evidence>)
    ensures Details(Some(entry), rows).evidence == NoLookup <==> ExtractPunishmentDetails(entry.details).punishmentId.None?
  {
    var slots := ExtractPunishmentDetails(entry.details);
    if slots.punishmentId.Some? {
      assert EvidenceFor(rows, slots.punishmentId.value) != NoLookup;
    }
  }

  /** The details view of a mute's audit entry: its punishment id, duration text and reason,
      and exactly the evidence attached to that punishment. */
  lemma MuteEntryDetails(moderator: string, targetName: string, p: Punishments.Punishment, punishmentId: int,
                         formatNow: int, logNow: int, entryId: int, rows: seq<Evidence>)
    requires 0 <= punishmentId <= IntMax
    requires p.reason.Some? ==> p.reason.value != [] && ',' !in p.reason.value && ':' !in p.reason.value
    ensures var entry := Mute.MuteEntry(moderator, targetName, p, punishmentId, formatNow, logNow).(id := entryId);
            var listed := EvidenceList(rows, punishmentId);
            Details(Some(entry), rows) ==
            EntryDetails(entry, NatToString(punishmentId), Mute.FormatDurationString(p.expiration, formatNow),
                         p.reason.GetOr("None"),
                         if listed == [] then NoEvidence else EvidenceLines(Map(listed, EvidenceText)))
  {
    MuteDetailsRoundTrip(punishmentId, p.reason, p.expiration, formatNow);
  }

  /** A details text naming an id beyond the Int range makes the lookup throw. */
  lemma OversizedIdThrows(rows: seq<Evidence>)
    ensures EvidenceFor(rows, NatToString(IntMax + 1)) == IdOutOfRange
  {
    ParseLongOfInt(IntMax + 1);
  }
}
