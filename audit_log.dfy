/** An audit-log entry: who did what to whom, with free-text details. */
module AuditLogs {

  datatype AuditLog = AuditLog(
    id: int,
    action: string,
    moderator: string,
    target: string,
    details: string,
    timestamp: int)

  function AuditId(e: AuditLog): int { e.id }

  /** The sort key of every audit-log query (`ORDER BY timestamp DESC`). */
  function Timestamp(e: AuditLog): int { e.timestamp }

  /** The filter of the per-player queries (`WHERE target = ?`). */
  function TargetIs(playerName: string): AuditLog -> bool {
    (e: AuditLog) => e.target == playerName
  }
}
