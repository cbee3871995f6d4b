/** The chat listener: a player with a mute in force cannot chat. The event is cancelled,
    the player is told why, and a mute found to have run out is removed from the store. */
module ChatListener {
  import opened Wrappers
  import opened Text
  import opened Tables
  import opened Punishments
  import opened DatabaseManager
  import opened DurationFormat
  import Sql = SqlStore
  import Lite = SqliteStore

  const PermanentText: string := "You are permanently muted and cannot send messages."
  const MutedPrefix: string := "You are muted. Your mute will expire in "
  const ExpiredText: string := "Your mute has expired. You can now send messages."

  /** The three messages a muted player can be sent. */
  datatype MuteMessage =
    | PermanentlyMuted
    | MutedFor(remaining: string)
    | MuteExpired

  /** `createMuteMessage` and `createTemporaryMuteMessage`, with the clock reading as `now`. */
  function CreateMuteMessage(expiration: Option<int>, now: int): (m: MuteMessage)
    ensures m.PermanentlyMuted? <==> expiration.None?
    ensures m.MuteExpired? <==> ExpiredAt(expiration, now)
    ensures m.MutedFor? ==> (m.remaining == "" <==> expiration.value - now < MillisPerSecond)
  {
    match expiration
    case None => PermanentlyMuted
    case Some(e) =>
      var remainingTime := e - now;
      if remainingTime > 0 then
        FormatDurationEmpty(remainingTime);
        MutedFor(FormatDuration(remainingTime))
      else MuteExpired
  }

  /** The time left is named by its positive parts (days, hours, minutes, seconds),
      separated by single spaces. */
  lemma RemainingTimeParts(expiration: int, now: int)
    requires expiration > now
    ensures CreateMuteMessage(Some(expiration), now).remaining == Join(Parts(expiration - now), " ")
  {
    FormatDurationIsJoin(expiration - now);
  }

  /** The text of the message, without its colours. */
  function MessageText(m: MuteMessage): string {
    match m
    case PermanentlyMuted => PermanentText
    case MutedFor(remaining) => MutedPrefix + remaining + "."
    case MuteExpired => ExpiredText
  }

  /** Different messages read differently. */
  lemma MessageTextsDistinct(a: MuteMessage, b: MuteMessage)
    ensures MessageText(a) == MessageText(b) <==> a == b
  {
    if a != b {
      var ta, tb := MessageText(a), MessageText(b);
      if a.MutedFor? && b.MutedFor? {
        assert a.remaining == ta[|MutedPrefix|..|ta| - 1];
        assert b.remaining == tb[|MutedPrefix|..|tb| - 1];
      } else {
        assert ta[3] != tb[3] || ta[8] != tb[8];
      }
    }
  }

  /** A mute with less than a second left names no time at all: the formatted length is
      empty. */
  lemma SubSecondMuteText(expiration: int, now: int)
    requires 0 < expiration - now < MillisPerSecond
    ensures MessageText(CreateMuteMessage(Some(expiration), now)) == MutedPrefix + "."
  {
    assert MutedPrefix + "" == MutedPrefix;
  }

  /** `Punishment.hasExpired()`: it has an expiration and that instant has come. This is
      exactly the SQL store's sweep condition. */
  predicate HasExpired(p: Punishment, now: int)
    ensures HasExpired(p, now) <==> Sql.ExpiredRow(now)(p)
    ensures HasExpired(p, now) <==> !ActiveAt(p.expiration, now)
  {
    p.expiration != None && p.expiration.value <= now
  }

  /** What happens to a chat event: it goes through, or it is cancelled with a message to
      the speaker, and the mute found may then be removed. */
  datatype ChatOutcome =
    | Allowed
    | Cancelled(message: MuteMessage, removalAttempted: bool)

  /** `onPlayerChat` against the SQLite store. The source reads the clock up to four times:
      in the lookup, for the message, in `hasExpired` and in the removal; each reading is a
      parameter. The event is cancelled exactly when a mute is in force for the speaker;
      the message is that mute's; the removal runs exactly when that mute has expired by
      the third reading, and deletes what removePunishment deletes. */
  method OnPlayerChat(store: Lite.DataManager, player: Uuid,
                      lookupNow: int, messageNow: int, expiryNow: int, removeNow: int)
    returns (outcome: ChatOutcome)
    requires store.Valid()
    modifies store`punishments
    ensures store.Valid()
    ensures var found := Lite.ActivePunishment(old(store.punishments), player, Mute, lookupNow);
            && (outcome.Cancelled? <==> found.Some?)
            && (found.Some? ==> outcome.message == CreateMuteMessage(found.value.expiration, messageNow))
            && (found.Some? ==> (outcome.removalAttempted <==> HasExpired(found.value, expiryNow)))
    ensures store.punishments ==
              if outcome.Cancelled? && outcome.removalAttempted
              then Filter(old(store.punishments), Not(Lite.InForceRow(player, Mute, removeNow)))
              else old(store.punishments)
  {
    var mutePunishment := store.GetActivePunishment(player, Mute, lookupNow);
    if mutePunishment.None? {
      return Allowed;
    }
    var punishment := mutePunishment.value;
    var message := CreateMuteMessage(punishment.expiration, messageNow);
    if HasExpired(punishment, expiryNow) {
      var _ := store.RemovePunishment(player, Mute, removeNow);
      return Cancelled(message, true);
    }
    return Cancelled(message, false);
  }

  /** On a single clock reading the mute found is still in force: the expired message and
      the removal can only happen when the clock moves on between the readings. */
  lemma SingleReadingKeepsMute(rows: seq<Lite.Row>, player: Uuid, now: int)
    requires Lite.ActivePunishment(rows, player, Mute, now).Some?
    ensures var p := Lite.ActivePunishment(rows, player, Mute, now).value;
            !HasExpired(p, now) && !CreateMuteMessage(p.expiration, now).MuteExpired?
  {
  }

  /** With the clock moving forward, the removal never deletes the mute that was found, as
      it has expired by then: every row it deletes is another mute of the speaker that is
      still in force. */
  lemma RemovalSparesFoundMute(rows: seq<Lite.Row>, player: Uuid, lookupNow: int, expiryNow: int, removeNow: int)
    requires Lite.ActivePunishment(rows, player, Mute, lookupNow).Some?
    requires HasExpired(Lite.ActivePunishment(rows, player, Mute, lookupNow).value, expiryNow)
    requires expiryNow <= removeNow
    ensures forall r :: r in rows && r !in Filter(rows, Not(Lite.InForceRow(player, Mute, removeNow))) ==>
              && r.playerUuid == player && r.kind == Mute && Lite.RowActive(r, removeNow)
              && Lite.ToPunishment(r) != Lite.ActivePunishment(rows, player, Mute, lookupNow).value
  {
    FilterMember(rows, Not(Lite.InForceRow(player, Mute, removeNow)));
  }

  /** Two mutes of one player, the first about to run out: a chat message sent as it runs
      out ends the second mute, which still had most of an hour to go. */
  lemma ExpiringMuteEndsAnother()
    ensures var first := Lite.Row(1, "p", Mute, None, 600_000, "mod", 0);
            var second := Lite.Row(2, "p", Mute, None, 3_600_000, "mod", 0);
            var rows := [first, second];
            && Lite.ActivePunishment(rows, "p", Mute, 599_999) == Some(Lite.ToPunishment(first))
            && HasExpired(Lite.ToPunishment(first), 600_000)
            && Filter(rows, Not(Lite.InForceRow("p", Mute, 600_000))) == [first]
            && Lite.RowActive(second, 600_000)
  {
    var first := Lite.Row(1, "p", Mute, None, 600_000, "mod", 0);
    var second := Lite.Row(2, "p", Mute, None, 3_600_000, "mod", 0);
    var rows := [first, second];
    assert rows[1..] == [second];
    assert rows[1..][1..] == [];
  }
}
