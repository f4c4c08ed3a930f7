/** The policy engine: a map of rules, stably sorted by priority, decided by the first match and denied by
    default (policy/src/engine.rs). */
module Engine {
  import opened Options
  import opened Rules

  type RuleMap = map<string, AccessRule>

  datatype AccessResult = AccessResult(allowed: bool, reason: string, matchedRule: Option<string>)

  const DEFAULT_DENY := AccessResult(false, "기본 차단 정책 (매칭 규칙 없음)", None)

  function ResultOf(rule: AccessRule): AccessResult {
    match rule.action
    case Allow => AccessResult(true, rule.name, Some(rule.id))
    case Deny => AccessResult(false, rule.name, Some(rule.id))
    case Alert => AccessResult(true, "[ALERT] " + rule.name, Some(rule.id))
  }

  // ---------- stable sort by priority ----------

  function Insert(rule: AccessRule, sorted: seq<AccessRule>): seq<AccessRule> {
    if sorted == [] || rule.priority <= sorted[0].priority then [rule] + sorted
    else [sorted[0]] + Insert(rule, sorted[1..])
  }

  /** `sort_by_key(|r| r.priority)`. StableSortIsTheOne shows that no other list is a stable sort. */
  function StableSort(rules: seq<AccessRule>): seq<AccessRule> {
    if rules == [] then [] else Insert(rules[0], StableSort(rules[1..]))
  }

  predicate Sorted(rules: seq<AccessRule>) {
    forall i, j | 0 <= i < j < |rules| :: rules[i].priority <= rules[j].priority
  }

  /** The rules of one priority, in their order. */
  function OfPriority(rules: seq<AccessRule>, p: int): seq<AccessRule> {
    if rules == [] then []
    else if rules[0].priority == p then [rules[0]] + OfPriority(rules[1..], p)
    else OfPriority(rules[1..], p)
  }

  lemma {:induction false} OfPriorityMember(rules: seq<AccessRule>, p: int, r: AccessRule)
    ensures r in OfPriority(rules, p) <==> r in rules && r.priority == p
  {
    if rules != [] {
      OfPriorityMember(rules[1..], p, r);
      assert rules == [rules[0]] + rules[1..];
    }
  }

  lemma {:induction false} InsertAdds(rule: AccessRule, sorted: seq<AccessRule>)
    ensures multiset(Insert(rule, sorted)) == multiset(sorted) + multiset{rule}
  {
    if sorted == [] || rule.priority <= sorted[0].priority {
    } else {
      InsertAdds(rule, sorted[1..]);
      assert sorted == [sorted[0]] + sorted[1..];
    }
  }

  lemma {:induction false} InsertSorts(rule: AccessRule, sorted: seq<AccessRule>)
    requires Sorted(sorted)
    ensures Sorted(Insert(rule, sorted))
    ensures forall i | 0 <= i < |Insert(rule, sorted)| ::
              || rule.priority <= Insert(rule, sorted)[i].priority
              || (sorted != [] && sorted[0].priority <= Insert(rule, sorted)[i].priority)
  {
    if sorted != [] && rule.priority > sorted[0].priority {
      InsertSorts(rule, sorted[1..]);
    }
  }

  lemma {:induction false} InsertKeepsPriorities(rule: AccessRule, sorted: seq<AccessRule>, p: int)
    requires Sorted(sorted)
    ensures OfPriority(Insert(rule, sorted), p) == OfPriority([rule] + sorted, p)
  {
    if sorted == [] || rule.priority <= sorted[0].priority {
    } else {
      var head, tail := sorted[0], sorted[1..];
      var out := Insert(rule, tail);
      InsertKeepsPriorities(rule, tail, p);
      assert ([rule] + tail)[1..] == tail && ([rule] + sorted)[1..] == sorted && ([head] + out)[1..] == out;
    }
  }

  /** `out` is sorted, holds the same rules, and keeps their order inside each priority. */
  ghost predicate IsStableSortOf(out: seq<AccessRule>, rules: seq<AccessRule>) {
    && Sorted(out)
    && multiset(out) == multiset(rules)
    && forall p :: OfPriority(out, p) == OfPriority(rules, p)
  }

  lemma {:induction false} StableSortSorts(rules: seq<AccessRule>)
    ensures IsStableSortOf(StableSort(rules), rules)
  {
    if rules != [] {
      var rest := StableSort(rules[1..]);
      StableSortSorts(rules[1..]);
      InsertSorts(rules[0], rest);
      InsertAdds(rules[0], rest);
      assert rules == [rules[0]] + rules[1..];
      forall p ensures OfPriority(StableSort(rules), p) == OfPriority(rules, p) {
        InsertKeepsPriorities(rules[0], rest, p);
        assert OfPriority(rest, p) == OfPriority(rules[1..], p);
        assert ([rules[0]] + rest)[1..] == rest;
      }
    }
  }

  /** There is one stable sort, so any algorithm `sort_by_key` may use computes StableSort. */
  lemma StableSortIsTheOne(rules: seq<AccessRule>, out: seq<AccessRule>)
    ensures IsStableSortOf(out, rules) <==> out == StableSort(rules)
  {
    StableSortSorts(rules);
    if IsStableSortOf(out, rules) {
      var sorted := StableSort(rules);
      forall p ensures OfPriority(out, p) == OfPriority(sorted, p) {
        assert OfPriority(sorted, p) == OfPriority(rules, p);
      }
      SortedByItsPriorities(out, sorted);
    }
  }

  lemma HeadIsLeast(a: seq<AccessRule>, b: seq<AccessRule>)
    requires a != [] && Sorted(b)
    requires forall p :: OfPriority(a, p) == OfPriority(b, p)
    ensures b != [] && b[0].priority <= a[0].priority
  {
    var p := a[0].priority;
    OfPriorityMember(a, p, a[0]);
    assert OfPriority(a, p) == OfPriority(b, p);
    OfPriorityMember(b, p, a[0]);
    assert a[0] in b;
  }

  lemma {:induction false} SortedByItsPriorities(a: seq<AccessRule>, b: seq<AccessRule>)
    requires Sorted(a) && Sorted(b)
    requires forall p :: OfPriority(a, p) == OfPriority(b, p)
    ensures a == b
  {
    if a == [] && b == [] {
    } else {
      if a == [] { HeadIsLeast(b, a); }
      HeadIsLeast(a, b);
      HeadIsLeast(b, a);
      var p := a[0].priority;
      assert OfPriority(a, p)[0] == a[0];
      assert OfPriority(b, p)[0] == b[0];
      forall q ensures OfPriority(a[1..], q) == OfPriority(b[1..], q) {
        assert OfPriority(a, q) == OfPriority(b, q);
        assert q == p ==> OfPriority(a, q)[1..] == OfPriority(a[1..], q);
        assert q == p ==> OfPriority(b, q)[1..] == OfPriority(b[1..], q);
      }
      SortedByItsPriorities(a[1..], b[1..]);
    }
  }

  // ---------- deciding ----------

  function FirstMatch(rules: seq<AccessRule>, req: AccessRequest, w: World): Option<AccessRule> {
    if rules == [] then None
    else if RuleMatches(rules[0], req, w) then Some(rules[0])
    else FirstMatch(rules[1..], req, w)
  }

  function Decide(sorted: seq<AccessRule>, req: AccessRequest, w: World): AccessResult {
    match FirstMatch(sorted, req, w)
    case Some(rule) => ResultOf(rule)
    case None => DEFAULT_DENY
  }

  /** An order in which the map can be iterated: every key once. */
  ghost predicate IsOrder(rules: RuleMap, order: seq<string>) {
    && (forall k :: k in order <==> k in rules)
    && (forall i, j | 0 <= i < j < |order| :: order[i] != order[j])
  }

  function Collect(rules: RuleMap, order: seq<string>): (r: seq<AccessRule>)
    requires forall k | k in order :: k in rules
    ensures |r| == |order| && forall i | 0 <= i < |r| :: r[i] == rules[order[i]]
  {
    if order == [] then [] else [rules[order[0]]] + Collect(rules, order[1..])
  }

  function EvaluateIn(rules: RuleMap, order: seq<string>, req: AccessRequest, w: World): AccessResult
    requires forall k | k in order :: k in rules
  {
    Decide(StableSort(Collect(rules, order)), req, w)
  }

  // ---------- what a decision means, with no order in sight ----------

  predicate Eligible(rules: RuleMap, id: string, req: AccessRequest, w: World) {
    id in rules && RuleMatches(rules[id], req, w)
  }

  /** The rule matches and no matching rule has a smaller priority. */
  ghost predicate Decides(rules: RuleMap, id: string, req: AccessRequest, w: World) {
    && Eligible(rules, id, req, w)
    && forall other :: Eligible(rules, other, req, w) ==> rules[id].priority <= rules[other].priority
  }

  ghost predicate IsVerdict(rules: RuleMap, req: AccessRequest, w: World, v: AccessResult) {
    || (exists id :: Decides(rules, id, req, w) && v == ResultOf(rules[id]))
    || (v == DEFAULT_DENY && forall id :: !Eligible(rules, id, req, w))
  }

  /** `first` wins over what the rest of the list would elect. */
  function Better(first: AccessRule, rest: Option<AccessRule>, req: AccessRequest, w: World): Option<AccessRule> {
    if RuleMatches(first, req, w) && (rest.None? || first.priority <= rest.value.priority) then Some(first) else rest
  }

  lemma {:induction false} FirstMatchIn(rules: seq<AccessRule>, req: AccessRequest, w: World)
    ensures var m := FirstMatch(rules, req, w);
            && (m.Some? ==> m.value in rules && RuleMatches(m.value, req, w))
            && (m.None? ==> forall r | r in rules :: !RuleMatches(r, req, w))
  {
    if rules != [] {
      FirstMatchIn(rules[1..], req, w);
      assert rules == [rules[0]] + rules[1..];
    }
  }

  lemma {:induction false} FirstMatchInsert(rule: AccessRule, sorted: seq<AccessRule>, req: AccessRequest, w: World)
    requires Sorted(sorted)
    ensures FirstMatch(Insert(rule, sorted), req, w) == Better(rule, FirstMatch(sorted, req, w), req, w)
  {
    if sorted == [] || rule.priority <= sorted[0].priority {
      FirstMatchIn(sorted, req, w);
      assert ([rule] + sorted)[1..] == sorted;
    } else {
      FirstMatchInsert(rule, sorted[1..], req, w);
      assert ([sorted[0]] + Insert(rule, sorted[1..]))[1..] == Insert(rule, sorted[1..]);
    }
  }

  /** The first match after sorting is a matching rule of least priority, and among those the one that came
      first before sorting. */
  lemma {:induction false} FirstMatchOfSort(rules: seq<AccessRule>, req: AccessRequest, w: World)
    ensures var m := FirstMatch(StableSort(rules), req, w);
            && (m.None? <==> forall r | r in rules :: !RuleMatches(r, req, w))
            && (m.Some? ==> m.value in rules && RuleMatches(m.value, req, w)
                            && forall r | r in rules && RuleMatches(r, req, w) :: m.value.priority <= r.priority)
    ensures rules != [] && RuleMatches(rules[0], req, w)
            && (forall r | r in rules && RuleMatches(r, req, w) :: rules[0].priority <= r.priority)
            ==> FirstMatch(StableSort(rules), req, w) == Some(rules[0])
  {
    hide RuleMatches;
    if rules != [] {
      FirstMatchOfSort(rules[1..], req, w);
      StableSortSorts(rules[1..]);
      FirstMatchInsert(rules[0], StableSort(rules[1..]), req, w);
      assert rules == [rules[0]] + rules[1..];
    }
  }

  lemma EveryOrderGivesAVerdict(rules: RuleMap, order: seq<string>, req: AccessRequest, w: World)
    requires IsOrder(rules, order)
    ensures IsVerdict(rules, req, w, EvaluateIn(rules, order, req, w))
  {
    var all := Collect(rules, order);
    FirstMatchOfSort(all, req, w);
    forall id | id in rules ensures rules[id] in all {
      var i :| 0 <= i < |order| && order[i] == id;
      assert all[i] == rules[id];
    }
    var m := FirstMatch(StableSort(all), req, w);
    if m.Some? {
      var i :| 0 <= i < |all| && all[i] == m.value;
      assert Decides(rules, order[i], req, w);
    }
  }

  /** Denied by default: in every iteration order a request is allowed only by an enabled matching Allow or Alert
      rule of least priority, which the result names; a request no rule matches is denied, with no rule named. */
  lemma AllowedOnlyByARule(rules: RuleMap, order: seq<string>, req: AccessRequest, w: World)
    requires IsOrder(rules, order)
    ensures var v := EvaluateIn(rules, order, req, w);
            && (v.allowed ==> exists id :: Decides(rules, id, req, w) && rules[id].action != Deny
                                           && v.matchedRule == Some(rules[id].id))
            && ((forall id :: !Eligible(rules, id, req, w)) ==> !v.allowed && v.matchedRule == None)
            && (v.matchedRule == None ==> forall id :: !Eligible(rules, id, req, w))
  {
    EveryOrderGivesAVerdict(rules, order, req, w);
  }

  /** A result that names a rule says what the rule says: Deny denies, Allow allows under the rule's name, Alert
      allows under the name with a mark; the default denial has a reason of its own. */
  lemma ResultsSpeakForTheirRule(rules: RuleMap, req: AccessRequest, w: World, v: AccessResult)
    requires Keyed(rules) && IsVerdict(rules, req, w, v)
    ensures match v.matchedRule
            case None => !v.allowed && v.reason == "기본 차단 정책 (매칭 규칙 없음)"
            case Some(id) =>
              && Decides(rules, id, req, w)
              && (v.allowed <==> rules[id].action == Allow || rules[id].action == Alert)
              && (rules[id].action != Alert ==> v.reason == rules[id].name)
              && (rules[id].action == Alert ==> v.reason == "[ALERT] " + rules[id].name)
  {
    if v != DEFAULT_DENY {
      var id :| Decides(rules, id, req, w) && v == ResultOf(rules[id]);
      assert id in rules && rules[id].id == id;
    }
  }

  /** Any finite set of keys can be listed. */
  lemma SomeOrder(keys: set<string>) returns (order: seq<string>)
    ensures forall k :: k in order <==> k in keys
    ensures forall i, j | 0 <= i < j < |order| :: order[i] != order[j]
  {
    if keys == {} {
      order := [];
    } else {
      var k :| k in keys;
      var rest := SomeOrder(keys - {k});
      order := [k] + rest;
    }
  }

  /** Iterating a decider first makes it the first match. */
  lemma DeciderFirst(rules: RuleMap, id: string, order: seq<string>, req: AccessRequest, w: World)
    requires Decides(rules, id, req, w)
    requires IsOrder(rules, order) && order != [] && order[0] == id
    ensures EvaluateIn(rules, order, req, w) == ResultOf(rules[id])
  {
    hide StableSort, RuleMatches;
    var all := Collect(rules, order);
    assert all[0] == rules[id];
    forall r | r in all && RuleMatches(r, req, w) ensures all[0].priority <= r.priority {
      var i :| 0 <= i < |all| && all[i] == r;
      assert Eligible(rules, order[i], req, w);
    }
    FirstMatchOfSort(all, req, w);
  }

  lemma NoMatchInAnyOrder(rules: RuleMap, order: seq<string>, req: AccessRequest, w: World)
    requires IsOrder(rules, order) && forall id :: !Eligible(rules, id, req, w)
    ensures EvaluateIn(rules, order, req, w) == DEFAULT_DENY
  {
    hide StableSort, RuleMatches;
    var all := Collect(rules, order);
    forall r | r in all ensures !RuleMatches(r, req, w) {
      var i :| 0 <= i < |all| && all[i] == r;
      assert !Eligible(rules, order[i], req, w);
    }
    FirstMatchOfSort(all, req, w);
  }

  lemma EveryVerdictHasAnOrder(rules: RuleMap, req: AccessRequest, w: World, v: AccessResult)
    returns (order: seq<string>)
    requires IsVerdict(rules, req, w, v)
    ensures IsOrder(rules, order) && EvaluateIn(rules, order, req, w) == v
  {
    hide EvaluateIn, RuleMatches;
    if id :| Decides(rules, id, req, w) && v == ResultOf(rules[id]) {
      var rest := SomeOrder(rules.Keys - {id});
      order := [id] + rest;
      DeciderFirst(rules, id, order, req, w);
    } else {
      order := SomeOrder(rules.Keys);
      NoMatchInAnyOrder(rules, order, req, w);
    }
  }

  /** Collecting in some order, sorting stably and taking the first match yields exactly the actions of the
      least-priority matching rules, or the default when none matches. */
  lemma OrdersGiveExactlyTheVerdicts(rules: RuleMap, req: AccessRequest, w: World, v: AccessResult)
    ensures (exists order :: IsOrder(rules, order) && EvaluateIn(rules, order, req, w) == v)
            <==> IsVerdict(rules, req, w, v)
  {
    if IsVerdict(rules, req, w, v) {
      var order := EveryVerdictHasAnOrder(rules, req, w, v);
    }
    if order :| IsOrder(rules, order) && EvaluateIn(rules, order, req, w) == v {
      EveryOrderGivesAVerdict(rules, order, req, w);
    }
  }

  ghost predicate OutcomeFixed(rules: RuleMap, req: AccessRequest, w: World) {
    forall o1, o2 | IsOrder(rules, o1) && IsOrder(rules, o2) ::
      EvaluateIn(rules, o1, req, w).allowed == EvaluateIn(rules, o2, req, w).allowed
  }

  ghost predicate TiesAgree(rules: RuleMap, req: AccessRequest, w: World) {
    forall i, j | Decides(rules, i, req, w) && Decides(rules, j, req, w) ::
      (rules[i].action == Deny) == (rules[j].action == Deny)
  }

  /** Whether a request is allowed is independent of the iteration order exactly when the matching rules tied at
      the least priority agree on it. */
  lemma OutcomeFixedIffTiesAgree(rules: RuleMap, req: AccessRequest, w: World)
    ensures OutcomeFixed(rules, req, w) <==> TiesAgree(rules, req, w)
  {
    if OutcomeFixed(rules, req, w) {
      forall i, j | Decides(rules, i, req, w) && Decides(rules, j, req, w)
        ensures (rules[i].action == Deny) == (rules[j].action == Deny)
      {
        var o1 := EveryVerdictHasAnOrder(rules, req, w, ResultOf(rules[i]));
        var o2 := EveryVerdictHasAnOrder(rules, req, w, ResultOf(rules[j]));
      }
    }
    if TiesAgree(rules, req, w) {
      forall o1, o2 | IsOrder(rules, o1) && IsOrder(rules, o2)
        ensures EvaluateIn(rules, o1, req, w).allowed == EvaluateIn(rules, o2, req, w).allowed
      {
        EveryOrderGivesAVerdict(rules, o1, req, w);
        EveryOrderGivesAVerdict(rules, o2, req, w);
      }
    }
  }

  ghost predicate DistinctPriorities(rules: RuleMap) {
    forall i, j | i in rules && j in rules && i != j :: rules[i].priority != rules[j].priority
  }

  /** With distinct priorities the whole result, reason and matched rule included, is fixed. */
  lemma DistinctPrioritiesFixTheResult(rules: RuleMap, o1: seq<string>, o2: seq<string>, req: AccessRequest, w: World)
    requires DistinctPriorities(rules) && IsOrder(rules, o1) && IsOrder(rules, o2)
    ensures EvaluateIn(rules, o1, req, w) == EvaluateIn(rules, o2, req, w)
  {
    EveryOrderGivesAVerdict(rules, o1, req, w);
    EveryOrderGivesAVerdict(rules, o2, req, w);
  }

  // ---------- edits that keep the meaning, and edits that move it one way ----------

  ghost predicate SameMeaning(a: RuleMap, b: RuleMap) {
    forall req, w, v :: IsVerdict(a, req, w, v) <==> IsVerdict(b, req, w, v)
  }

  /** `strong` is enabled, comes strictly earlier and asks for nothing that `weak` does not ask for. */
  predicate Shadows(strong: AccessRule, weak: AccessRule) {
    strong.enabled && strong.priority < weak.priority && forall c | c in strong.conditions :: c in weak.conditions
  }

  /** A rule that is disabled or shadowed by another can be removed without changing any verdict. */
  lemma RemovingADeadRuleKeepsTheMeaning(rules: RuleMap, id: string)
    requires id in rules
    requires !rules[id].enabled || exists s :: s in rules && s != id && Shadows(rules[s], rules[id])
    ensures SameMeaning(rules, rules - {id})
  {
    var fewer := rules - {id};
    forall req, w, v ensures IsVerdict(rules, req, w, v) <==> IsVerdict(fewer, req, w, v) {
      assert !Decides(rules, id, req, w) by {
        if Eligible(rules, id, req, w) {
          var s :| s in rules && s != id && Shadows(rules[s], rules[id]);
          assert Eligible(rules, s, req, w);
        }
      }
      DroppingANonDecider(rules, id, req, w);
    }
  }

  /** A rule that does not decide a request can go: the deciders stay the same. */
  lemma DroppingANonDecider(rules: RuleMap, id: string, req: AccessRequest, w: World)
    requires !Decides(rules, id, req, w)
    ensures forall k :: Decides(rules, k, req, w) <==> Decides(rules - {id}, k, req, w)
    ensures forall v :: IsVerdict(rules, req, w, v) <==> IsVerdict(rules - {id}, req, w, v)
  {
    var fewer := rules - {id};
    assert forall k :: Eligible(fewer, k, req, w) <==> Eligible(rules, k, req, w) && k != id;
    if Eligible(rules, id, req, w) {
      var o :| Eligible(rules, o, req, w) && rules[o].priority < rules[id].priority;
      assert Eligible(fewer, o, req, w);
      forall k | Decides(fewer, k, req, w) ensures Decides(rules, k, req, w) {
        assert fewer[k].priority <= fewer[o].priority;
      }
    }
  }

  function WithEnabled(rules: RuleMap, id: string, enabled: bool): RuleMap
    requires id in rules
  {
    rules[id := rules[id].(enabled := enabled)]
  }

  /** For evaluation, disabling a rule is the same as deleting it. */
  lemma DisablingIsDeleting(rules: RuleMap, id: string)
    requires id in rules
    ensures SameMeaning(WithEnabled(rules, id, false), rules - {id})
  {
    var off := WithEnabled(rules, id, false);
    RemovingADeadRuleKeepsTheMeaning(off, id);
    assert off - {id} == rules - {id};
  }

  /** Adding a Deny rule under a fresh id never makes a new request allowable; adding an Allow or Alert rule
      never makes a new request deniable. Read backwards, removal is dual. No assumption on priorities: the
      verdicts that survive keep their reason and matched rule. */
  lemma AddingIsMonotone(rules: RuleMap, rule: AccessRule, req: AccessRequest, w: World, v: AccessResult)
    requires rule.id !in rules
    ensures rule.action == Deny && IsVerdict(rules[rule.id := rule], req, w, v) && v.allowed
            ==> IsVerdict(rules, req, w, v)
    ensures rule.action != Deny && IsVerdict(rules[rule.id := rule], req, w, v) && !v.allowed
            ==> IsVerdict(rules, req, w, v)
  {
    var more := rules[rule.id := rule];
    assert forall k :: Eligible(rules, k, req, w) ==> Eligible(more, k, req, w) && more[k] == rules[k];
    if id :| Decides(more, id, req, w) && v == ResultOf(more[id]) {
      assert id != rule.id ==> Decides(rules, id, req, w);
    }
  }

  /** With distinct priorities `AddingIsMonotone` speaks of the decision itself. */
  lemma AddingADenyOnlyShrinks(rules: RuleMap, rule: AccessRule, before: seq<string>, after: seq<string>,
                               req: AccessRequest, w: World)
    requires rule.id !in rules && DistinctPriorities(rules[rule.id := rule])
    requires IsOrder(rules, before) && IsOrder(rules[rule.id := rule], after)
    ensures rule.action == Deny && EvaluateIn(rules[rule.id := rule], after, req, w).allowed
            ==> EvaluateIn(rules, before, req, w).allowed
    ensures rule.action != Deny && EvaluateIn(rules, before, req, w).allowed
            ==> EvaluateIn(rules[rule.id := rule], after, req, w).allowed
  {
    var more := rules[rule.id := rule];
    var v := EvaluateIn(more, after, req, w);
    EveryOrderGivesAVerdict(more, after, req, w);
    AddingIsMonotone(rules, rule, req, w, v);
    EveryOrderGivesAVerdict(rules, before, req, w);
    assert DistinctPriorities(rules) by {
      forall i, j | i in rules && j in rules && i != j ensures rules[i].priority != rules[j].priority {
        assert more[i] == rules[i] && more[j] == rules[j];
      }
    }
    if IsVerdict(rules, req, w, v) {
      var o := EveryVerdictHasAnOrder(rules, req, w, v);
      DistinctPrioritiesFixTheResult(rules, o, before, req, w);
    }
  }

  // ---------- the engine ----------

  const GUARD := "default-block-dangerous"

  const GUARD_RULE := AccessRule(GUARD, "위험 쿼리 차단 (DROP/TRUNCATE/조건없는 DELETE)",
                                 Some("개인정보보호법 \U{00A7}29 기술적 보호조치"), 1, Deny, true, [BlockDangerousQuery])

  const OFFHOURS_RULE := AccessRule("default-offhours-alert", "업무 시간 외 접근 경고", Some("ISMS-P 접근이력 관리"), 10,
                                    Alert, true, [TimeRange(18, 9, ["mon", "tue", "wed", "thu", "fri"])])

  /** Every rule is stored under its own id. */
  predicate Keyed(rules: RuleMap) {
    forall k | k in rules :: rules[k].id == k
  }

  class PolicyEngine {
    var rules: RuleMap

    constructor ()
      ensures rules == map[]
    {
      rules := map[];
    }

    method UpsertRule(rule: AccessRule)
      modifies this
      ensures rules == old(rules)[rule.id := rule]
      ensures old(Keyed(rules)) ==> Keyed(rules)
    {
      rules := rules[rule.id := rule];
    }

    method RemoveRule(id: string) returns (removed: bool)
      modifies this
      ensures removed == (id in old(rules))
      ensures rules == old(rules) - {id}
      ensures old(Keyed(rules)) ==> Keyed(rules)
    {
      removed := id in rules;
      rules := rules - {id};
    }

    /** Clones the rules in whatever order the map yields them. */
    method Snapshot() returns (all: seq<AccessRule>, ghost order: seq<string>)
      ensures IsOrder(rules, order) && all == Collect(rules, order)
    {
      all, order := [], [];
      var left := rules.Keys;
      while left != {}
        invariant left <= rules.Keys
        invariant forall k :: k in order <==> k in rules && k !in left
        invariant forall i, j | 0 <= i < j < |order| :: order[i] != order[j]
        invariant |all| == |order| && forall i | 0 <= i < |all| :: all[i] == rules[order[i]]
        decreases left
      {
        var k :| k in left;
        all, order, left := all + [rules[k]], order + [k], left - {k};
      }
      assert all == Collect(rules, order);
    }

    method ListRules() returns (list: seq<AccessRule>)
      ensures Sorted(list) && |list| == |rules|
      ensures forall r :: r in list <==> r in rules.Values
    {
      ghost var order;
      var all;
      all, order := Snapshot();
      list := StableSort(all);
      ListingIsWhole(rules, order);
    }

    /** Same verdict as the declarative reading, reached through some iteration order. */
    method Evaluate(req: AccessRequest, w: World) returns (result: AccessResult)
      ensures IsVerdict(rules, req, w, result)
      ensures exists order :: IsOrder(rules, order) && result == EvaluateIn(rules, order, req, w)
    {
      ghost var order;
      var sorted;
      sorted, order := Snapshot();
      sorted := StableSort(sorted);
      EveryOrderGivesAVerdict(rules, order, req, w);
      result := DEFAULT_DENY;
      for i := 0 to |sorted|
        invariant FirstMatch(sorted, req, w) == FirstMatch(sorted[i..], req, w)
        invariant result == DEFAULT_DENY
      {
        if RuleMatches(sorted[i], req, w) {
          result := ResultOf(sorted[i]);
          return;
        }
        assert sorted[i..][1..] == sorted[i + 1..];
      }
    }

    method LoadDefaultRules()
      modifies this
      ensures rules == old(rules)[GUARD := GUARD_RULE][OFFHOURS_RULE.id := OFFHOURS_RULE]
      ensures old(Keyed(rules)) ==> Keyed(rules)
    {
      UpsertRule(AccessRule("default-block-dangerous", "위험 쿼리 차단 (DROP/TRUNCATE/조건없는 DELETE)",
                            Some("개인정보보호법 \U{00A7}29 기술적 보호조치"), 1, Deny, true, [BlockDangerousQuery]));
      UpsertRule(AccessRule("default-offhours-alert", "업무 시간 외 접근 경고", Some("ISMS-P 접근이력 관리"), 10, Alert, true,
                            [TimeRange(18, 9, ["mon", "tue", "wed", "thu", "fri"])]));
    }
  }

  lemma ListingIsWhole(rules: RuleMap, order: seq<string>)
    requires IsOrder(rules, order)
    ensures var list := StableSort(Collect(rules, order));
            Sorted(list) && |list| == |rules| && forall r :: r in list <==> r in rules.Values
  {
    var all := Collect(rules, order);
    var list := StableSort(all);
    StableSortSorts(all);
    OrderLength(rules.Keys, order);
    assert |list| == |multiset(list)| == |multiset(all)| == |all|;
    forall r ensures r in list <==> r in rules.Values {
      assert r in list <==> r in multiset(list);
      assert r in all <==> r in multiset(all);
      if k :| k in rules && rules[k] == r {
        var i :| 0 <= i < |order| && order[i] == k;
        assert all[i] == r;
      }
    }
  }

  lemma {:induction false} OrderLength(keys: set<string>, order: seq<string>)
    requires forall k :: k in order <==> k in keys
    requires forall i, j | 0 <= i < j < |order| :: order[i] != order[j]
    ensures |order| == |keys|
  {
    if order == [] {
      assert keys == {};
    } else {
      assert order == [order[0]] + order[1..];
      OrderLength(keys - {order[0]}, order[1..]);
    }
  }
}
