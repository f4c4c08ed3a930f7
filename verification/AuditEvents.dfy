/** Audit events (audit/src/types.rs); ids, timestamps and AWS fields are left out. */
module AuditEvents {
  import opened Options
  import opened Rules
  import opened Engine

  datatype EventType = ConnectionAttempt | ConnectionAllowed | ConnectionDenied | QueryExecuted | QueryBlocked
    | QueryAlert | PolicyChanged

  datatype AuditEvent = AuditEvent(kind: EventType, clientIp: string, dbUser: string, dbType: string, targetDb: string,
                                   query: Option<string>, allowed: bool, reason: string, matchedRule: Option<string>)

  function ConnectionEvent(result: AccessResult, clientIp: string, dbUser: string, dbType: string,
                           targetDb: string): AuditEvent {
    AuditEvent(if result.allowed then ConnectionAllowed else ConnectionDenied,
               clientIp, dbUser, dbType, targetDb, None, result.allowed, result.reason, result.matchedRule)
  }

  function QueryEvent(result: AccessResult, clientIp: string, dbUser: string, dbType: string, targetDb: string,
                      query: string): AuditEvent {
    AuditEvent(if result.allowed then QueryExecuted else QueryBlocked,
               clientIp, dbUser, dbType, targetDb, Some(query), result.allowed, result.reason, result.matchedRule)
  }

  /** The engine as one session sees it: the k-th evaluation of the session answers a request somehow. Rules may
      change between evaluations and iteration order may vary, so nothing more is assumed. */
  type Policy = (nat, AccessRequest) -> AccessResult
}
