/** A punishment record and its kinds. */
module Punishments {
  import opened Wrappers

  /** A player's UUID in its canonical text form; all stores keep and compare this text. */
  type Uuid = string

  datatype PunishmentType = Mute | Ban | Kick

  /** The enum constant's name, as stored in the `type` column or field. */
  function TypeName(t: PunishmentType): string {
    match t
    case Mute => "MUTE"
    case Ban => "BAN"
    case Kick => "KICK"
  }

  /** `Punishment.Type.valueOf`: the constant with exactly this name; None where the
      enum would throw. */
  function TypeValueOf(s: string): (r: Option<PunishmentType>)
    ensures forall t :: r == Some(t) <==> TypeName(t) == s
  {
    if s == "MUTE" then Some(Mute)
    else if s == "BAN" then Some(Ban)
    else if s == "KICK" then Some(Kick)
    else None
  }

  /** A punishment; `expiration` is an epoch-millisecond instant, None for a permanent one.
      The store assigns `id` on insertion and ignores the one passed in. */
  datatype Punishment = Punishment(
    id: int,
    playerUuid: Uuid,
    kind: PunishmentType,
    reason: Option<string>,
    expiration: Option<int>,
    issuer: string,
    issuedAt: int)
  {
    /** The same record under the store-assigned id. */
    function WithId(newId: int): (r: Punishment)
      ensures r.id == newId && r.(id := id) == this
    {
      this.(id := newId)
    }
  }
}
