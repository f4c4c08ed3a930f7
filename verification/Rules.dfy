/** Access rules and the conditions they test (policy/src/rule.rs, policy/src/types.rs). */
module Rules {
  import opened Options
  import opened Texts

  datatype DbType = PostgreSQL | MySQL | MongoDB | Redis | MSSQL

  /** Request ids and timestamps play no part in a decision and are left out. */
  datatype AccessRequest = AccessRequest(clientIp: string, dbUser: string, dbType: DbType, targetDb: string,
                                         query: Option<string>, iamArn: Option<string>)

  /** `AccessRequest::new` */
  function NewRequest(clientIp: string, dbUser: string, dbType: DbType, targetDb: string): AccessRequest {
    AccessRequest(clientIp, dbUser, dbType, targetDb, None, None)
  }

  datatype RuleAction = Allow | Deny | Alert

  datatype Condition =
    | IpRange(cidr: string)
    | DbUser(userPattern: string)
    | DbKind(dbType: DbType)
    | TargetDb(dbPattern: string)
    | QueryPattern(regex: string)
    | TimeRange(startHour: nat, endHour: nat, days: seq<string>)
    | IamArn(arnPattern: string)
    | BlockDangerousQuery

  datatype AccessRule = AccessRule(id: string, name: string, description: Option<string>, priority: int,
                                   action: RuleAction, enabled: bool, conditions: seq<Condition>)

  /** What a decision depends on beside the rules and the request: `inRange(cidr, ip)` is false when either text
      does not parse, `compiles` and `isMatch` are the regex engine, `hour` and `day` the clock. */
  datatype World = World(codec: Codec, inRange: (string, string) -> bool, compiles: string -> bool,
                         isMatch: (string, string) -> bool, hour: nat, day: string)

  /** DROP, TRUNCATE, XACT_ABORT anywhere, or DELETE/UPDATE without WHERE, after upper-casing and trimming. */
  predicate IsDangerous(t: Codec, query: string) {
    var q := Trim(t.upper(query));
    || StartsWith(q, "DROP ")
    || StartsWith(q, "TRUNCATE ")
    || Contains(q, "XACT_ABORT")
    || ((StartsWith(q, "DELETE ") || StartsWith(q, "UPDATE ")) && !Contains(q, "WHERE"))
  }

  /** Padding a query with whitespace does not hide it, for a case map that leaves whitespace alone. */
  lemma PaddingDoesNotHideDanger(t: Codec, pre: string, query: string, post: string)
    requires AllDropped(pre, IsWhitespace) && AllDropped(post, IsWhitespace)
    requires t.upper(pre + query + post) == pre + t.upper(query) + post
    ensures IsDangerous(t, pre + query + post) <==> IsDangerous(t, query)
  {
    PaddingIsTrimmed(pre, t.upper(query), post);
  }

  /** Which queries are dangerous, said of the text that is left after upper-casing and trimming: those that open
      with DROP or TRUNCATE, those that hold XACT_ABORT, and of the others just the DELETEs and UPDATEs without
      a WHERE. */
  lemma DangerIsDecidedByTheText(t: Codec, query: string)
    ensures var text := Trim(t.upper(query));
            && (forall rest :: text == "DROP " + rest || text == "TRUNCATE " + rest ==> IsDangerous(t, query))
            && (forall a, b :: text == a + "XACT_ABORT" + b ==> IsDangerous(t, query))
            && ((exists rest :: text == "DELETE " + rest || text == "UPDATE " + rest)
                && (forall a, b :: text != a + "XACT_ABORT" + b)
                ==> (IsDangerous(t, query) <==> forall a, b :: text != a + "WHERE" + b))
            && ((forall rest :: text != "DROP " + rest && text != "TRUNCATE " + rest
                                && text != "DELETE " + rest && text != "UPDATE " + rest)
                && (forall a, b :: text != a + "XACT_ABORT" + b)
                ==> !IsDangerous(t, query))
  {
    var text := Trim(t.upper(query));
    StartsWithIff(text, "DROP ");
    StartsWithIff(text, "TRUNCATE ");
    StartsWithIff(text, "DELETE ");
    StartsWithIff(text, "UPDATE ");
    ContainsIff(text, "XACT_ABORT");
    ContainsIff(text, "WHERE");
    hide Contains, StartsWith, Trim;
    assert (exists rest :: text == "DELETE " + rest || text == "UPDATE " + rest) ==>
             !StartsWith(text, "DROP ") && !StartsWith(text, "TRUNCATE ") by {
      forall rest | text == "DELETE " + rest || text == "UPDATE " + rest ensures text[0] == 'D' || text[0] == 'U' {}
      assert forall rest :: text == "DROP " + rest ==> text[1] == 'R';
      assert forall rest :: text == "TRUNCATE " + rest ==> text[0] == 'T';
      assert forall rest :: text == "DELETE " + rest ==> text[1] == 'E';
    }
  }

  /** A pattern that is no regex is compared as plain text. */
  predicate PatternFits(w: World, pattern: string, text: string) {
    if w.compiles(pattern) then w.isMatch(pattern, text) else text == pattern
  }

  predicate ConditionHolds(c: Condition, req: AccessRequest, w: World) {
    match c
    case IpRange(cidr) => w.inRange(cidr, req.clientIp)
    case DbUser(pattern) => PatternFits(w, pattern, req.dbUser)
    case DbKind(dbType) => req.dbType == dbType
    case TargetDb(pattern) => PatternFits(w, pattern, req.targetDb)
    case QueryPattern(regex) => req.query.Some? && w.compiles(regex) && w.isMatch(regex, req.query.value)
    case TimeRange(startHour, endHour, days) =>
      (if startHour <= endHour then startHour <= w.hour < endHour else startHour <= w.hour || w.hour < endHour)
      && (days == [] || w.day in days)
    case IamArn(pattern) => req.iamArn.Some? && PatternFits(w, pattern, req.iamArn.value)
    case BlockDangerousQuery => req.query.Some? && IsDangerous(w.codec, req.query.value)
  }

  /** Patterns over user, database and IAM role fall back to plain text when they are no regex; a query pattern
      that is no regex fits nothing. Each looks at its own field and no other. */
  lemma BrokenPatterns(pattern: string, req: AccessRequest, w: World)
    requires !w.compiles(pattern)
    ensures ConditionHolds(DbUser(pattern), req, w) <==> req.dbUser == pattern
    ensures ConditionHolds(TargetDb(pattern), req, w) <==> req.targetDb == pattern
    ensures ConditionHolds(IamArn(pattern), req, w) <==> req.iamArn == Some(pattern)
    ensures !ConditionHolds(QueryPattern(pattern), req, w)
  {
  }

  /** Patterns that compile are matched by the regex engine against their field; a field that is absent fits
      nothing. */
  lemma WorkingPatterns(pattern: string, req: AccessRequest, w: World)
    requires w.compiles(pattern)
    ensures ConditionHolds(DbUser(pattern), req, w) <==> w.isMatch(pattern, req.dbUser)
    ensures ConditionHolds(TargetDb(pattern), req, w) <==> w.isMatch(pattern, req.targetDb)
    ensures ConditionHolds(IamArn(pattern), req, w) <==> exists arn :: req.iamArn == Some(arn) && w.isMatch(pattern, arn)
    ensures ConditionHolds(QueryPattern(pattern), req, w) <==> exists q :: req.query == Some(q) && w.isMatch(pattern, q)
  {
  }

  /** The remaining conditions: client address, database kind, and a dangerous query. */
  lemma PlainConditions(cidr: string, kind: DbType, req: AccessRequest, w: World)
    ensures ConditionHolds(IpRange(cidr), req, w) <==> w.inRange(cidr, req.clientIp)
    ensures ConditionHolds(DbKind(kind), req, w) <==> kind == req.dbType
    ensures ConditionHolds(BlockDangerousQuery, req, w) <==> exists q :: req.query == Some(q) && IsDangerous(w.codec, q)
  {
  }

  /** The hour k hours after `from`. */
  function HourAfter(from: nat, k: nat): nat {
    (from + k) % 24
  }

  /** The hours of a range are the ones counted from its start up to its end, around midnight if need be; days
      are any of those listed, or all when none is. */
  lemma HoursAreCounted(from: nat, end: nat, days: seq<string>, req: AccessRequest, w: World)
    requires from < 24 && end < 24 && w.hour < 24
    ensures ConditionHolds(TimeRange(from, end, days), req, w) <==>
            && (exists k: nat :: k < (end - from) % 24 && w.hour == HourAfter(from, k))
            && (days == [] || exists i :: 0 <= i < |days| && days[i] == w.day)
  {
    var n := (end - from) % 24;
    assert n == if from <= end then end - from else end - from + 24;
    var k := if from <= w.hour then w.hour - from else w.hour - from + 24;
    assert w.hour == HourAfter(from, k);
    forall j: nat | j < n && w.hour == HourAfter(from, j) ensures j == k {
      assert HourAfter(from, j) == if from + j < 24 then from + j else from + j - 24;
    }
  }

  predicate RuleMatches(rule: AccessRule, req: AccessRequest, w: World) {
    rule.enabled && forall c | c in rule.conditions :: ConditionHolds(c, req, w)
  }

  /** Conditions are a conjunction: a rule matches exactly when it is enabled and each part of its list would. */
  lemma ConditionsConjoin(rule: AccessRule, a: seq<Condition>, b: seq<Condition>, req: AccessRequest, w: World)
    requires rule.conditions == a + b
    ensures RuleMatches(rule, req, w) <==>
            RuleMatches(rule.(conditions := a), req, w) && RuleMatches(rule.(conditions := b), req, w)
    ensures rule.conditions == [] ==> (RuleMatches(rule, req, w) <==> rule.enabled)
    ensures |rule.conditions| == 1 ==>
              (RuleMatches(rule, req, w) <==> rule.enabled && ConditionHolds(rule.conditions[0], req, w))
  {
    hide ConditionHolds;
    assert forall c :: c in a + b <==> c in a || c in b;
  }

  /** A time range from `a` to `b` on unrestricted days and the one from `b` back to `a` split the day: exactly
      one of them holds at every hour, unless the two hours are equal. */
  lemma WrappedRangeIsComplement(a: nat, b: nat, req: AccessRequest, w: World)
    ensures a != b ==>
              (ConditionHolds(TimeRange(a, b, []), req, w) <==> !ConditionHolds(TimeRange(b, a, []), req, w))
    ensures a == b ==> !ConditionHolds(TimeRange(a, b, []), req, w)
  {
  }
}
