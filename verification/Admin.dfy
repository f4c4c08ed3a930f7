/** The administrative steps that change the engine: the rule handlers (api/src/routes/rules.rs), the policy
    reload (api/src/routes/policy_file.rs) and the file loader (proxy/src/policy_loader.rs). */
module Admin {
  import opened Options
  import opened Rules
  import opened Engine

  // ---------- one handler at a time ----------

  datatype Status = Created | Fine | BadRequest | NotFound

  function FindById(list: seq<AccessRule>, id: string): (r: Option<AccessRule>)
    ensures r.Some? ==> r.value in list && r.value.id == id
    ensures r.None? ==> forall x | x in list :: x.id != id
  {
    if list == [] then None
    else if list[0].id == id then Some(list[0])
    else
      assert list == [list[0]] + list[1..];
      FindById(list[1..], id)
  }

  function UpsertAll(rules: RuleMap, file: seq<AccessRule>): RuleMap
    decreases |file|
  {
    if file == [] then rules else UpsertAll(rules[file[0].id := file[0]], file[1..])
  }

  /** After a reload an id holds the last rule of the file that carries it, or what it held before. */
  lemma {:induction false} LastDuplicateWins(rules: RuleMap, file: seq<AccessRule>, id: string)
    ensures (exists i :: 0 <= i < |file| && file[i].id == id)
            ==> exists i :: 0 <= i < |file| && file[i].id == id && (forall j | i < j < |file| :: file[j].id != id)
                            && id in UpsertAll(rules, file) && UpsertAll(rules, file)[id] == file[i]
    ensures (forall i | 0 <= i < |file| :: file[i].id != id)
            ==> (id in UpsertAll(rules, file) <==> id in rules)
                && (id in rules ==> UpsertAll(rules, file)[id] == rules[id])
    decreases |file|
  {
    if file != [] {
      var rest := file[1..];
      LastDuplicateWins(rules[file[0].id := file[0]], rest, id);
      if i :| 0 <= i < |rest| && rest[i].id == id && (forall j | i < j < |rest| :: rest[j].id != id)
              && id in UpsertAll(rules, file) && UpsertAll(rules, file)[id] == rest[i] {
        assert file[i + 1] == rest[i];
        forall j | i + 1 < j < |file| ensures file[j].id != id {
          assert file[j] == rest[j - 1];
        }
      } else {
        assert forall i | 0 <= i < |rest| :: rest[i].id != id;
        forall j | 0 < j < |file| ensures file[j].id != id {
          assert file[j] == rest[j - 1];
        }
      }
    }
  }

  class AdminApi {
    const policy: PolicyEngine

    constructor (policy: PolicyEngine)
      ensures this.policy == policy
    {
      this.policy := policy;
    }

    method CreateRule(rule: AccessRule) returns (status: Status)
      requires Keyed(policy.rules)
      modifies policy
      ensures Keyed(policy.rules)
      ensures rule.id in old(policy.rules) ==> status == BadRequest && policy.rules == old(policy.rules)
      ensures rule.id !in old(policy.rules) ==> status == Created && policy.rules == old(policy.rules)[rule.id := rule]
    {
      var list := policy.ListRules();
      if FindById(list, rule.id).Some? {
        return BadRequest;
      }
      policy.UpsertRule(rule);
      status := Created;
    }

    /** The id in the path replaces the one in the body. */
    method UpdateRule(id: string, rule: AccessRule) returns (status: Status)
      requires Keyed(policy.rules)
      modifies policy
      ensures Keyed(policy.rules)
      ensures id !in old(policy.rules) ==> status == NotFound && policy.rules == old(policy.rules)
      ensures id in old(policy.rules) ==> status == Fine && policy.rules == old(policy.rules)[id := rule.(id := id)]
    {
      var list := policy.ListRules();
      if FindById(list, id).None? {
        return NotFound;
      }
      policy.UpsertRule(rule.(id := id));
      status := Fine;
    }

    method DeleteRule(id: string) returns (status: Status)
      modifies policy
      ensures status == (if id in old(policy.rules) then Fine else NotFound)
      ensures policy.rules == old(policy.rules) - {id}
    {
      var removed := policy.RemoveRule(id);
      status := if removed then Fine else NotFound;
    }

    method ToggleRule(id: string) returns (status: Status)
      requires Keyed(policy.rules)
      modifies policy
      ensures Keyed(policy.rules)
      ensures id !in old(policy.rules) ==> status == NotFound && policy.rules == old(policy.rules)
      ensures id in old(policy.rules) ==>
                status == Fine && policy.rules == WithEnabled(old(policy.rules), id, !old(policy.rules)[id].enabled)
    {
      var list := policy.ListRules();
      var found := FindById(list, id);
      if found.None? {
        return NotFound;
      }
      policy.UpsertRule(found.value.(enabled := !found.value.enabled));
      status := Fine;
    }

    method Reload(file: seq<AccessRule>) returns (loaded: nat)
      modifies policy
      ensures policy.rules == UpsertAll(old(policy.rules), file)
      ensures old(Keyed(policy.rules)) ==> Keyed(policy.rules)
      ensures loaded == |file|
    {
      for i := 0 to |file|
        invariant UpsertAll(policy.rules, file[i..]) == UpsertAll(old(policy.rules), file)
        invariant old(Keyed(policy.rules)) ==> Keyed(policy.rules)
      {
        policy.UpsertRule(file[i]);
        assert file[i..][1..] == file[i + 1..];
      }
      loaded := |file|;
    }
  }

  // ---------- handlers running at once ----------

  /** Handlers first look at the engine and write later, and others may run in between. `pending` holds the
      writes that have been decided and not yet made; they may be made in any order. */
  datatype State = State(rules: RuleMap, pending: seq<AccessRule>)

  datatype Step =
    | Create(rule: AccessRule)
    | Update(id: string, rule: AccessRule)
    | Toggle(id: string)
    | Delete(id: string)
    | Reload(file: seq<AccessRule>)
    | Commit(i: nat)

  function Apply(s: State, step: Step): State {
    match step
    case Create(rule) => if rule.id in s.rules then s else s.(pending := s.pending + [rule])
    case Update(id, rule) => if id in s.rules then s.(pending := s.pending + [rule.(id := id)]) else s
    case Toggle(id) =>
      if id in s.rules then s.(pending := s.pending + [s.rules[id].(enabled := !s.rules[id].enabled)]) else s
    case Delete(id) => s.(rules := s.rules - {id})
    case Reload(file) => s.(pending := s.pending + file)
    case Commit(i) =>
      if i < |s.pending| then
        State(s.rules[s.pending[i].id := s.pending[i]], s.pending[..i] + s.pending[i + 1..])
      else s
  }

  function Run(s: State, steps: seq<Step>): State
    decreases |steps|
  {
    if steps == [] then s else Run(Apply(s, steps[0]), steps[1..])
  }

  const DEFAULT_RULES: RuleMap := map[GUARD := GUARD_RULE][OFFHOURS_RULE.id := OFFHOURS_RULE]

  /** What the default rules alone decide, in any order: allowed is what comes on a working day before nine or from
      eighteen o'clock on and is not dangerous; all else is denied. */
  lemma DefaultRulesDecide(order: seq<string>, req: AccessRequest, w: World)
    requires IsOrder(DEFAULT_RULES, order)
    ensures EvaluateIn(DEFAULT_RULES, order, req, w).allowed <==>
            && (w.hour < 9 || w.hour >= 18)
            && (w.day == "mon" || w.day == "tue" || w.day == "wed" || w.day == "thu" || w.day == "fri")
            && (forall q :: req.query == Some(q) ==> !IsDangerous(w.codec, q))
  {
    hide IsDangerous, EvaluateIn;
    EveryOrderGivesAVerdict(DEFAULT_RULES, order, req, w);
    var v := EvaluateIn(DEFAULT_RULES, order, req, w);
    var guard, late := GUARD, OFFHOURS_RULE.id;
    assert GUARD_RULE.conditions == [BlockDangerousQuery] && DEFAULT_RULES[guard] == GUARD_RULE;
    assert forall id :: Eligible(DEFAULT_RULES, id, req, w) ==> id == guard || id == late;
    assert Eligible(DEFAULT_RULES, guard, req, w) <==> ConditionHolds(BlockDangerousQuery, req, w);
    assert Eligible(DEFAULT_RULES, late, req, w) <==> ConditionHolds(OFFHOURS_RULE.conditions[0], req, w);
  }

  /** Denies, or ranks below the guard. */
  predicate Harmless(rule: AccessRule) {
    rule.action == Deny || rule.priority > 1
  }

  predicate LeavesGuardAlone(step: Step) {
    match step
    case Create(rule) => rule.id != GUARD && Harmless(rule)
    case Update(id, rule) => id != GUARD && Harmless(rule)
    case Toggle(id) => id != GUARD
    case Delete(id) => id != GUARD
    case Reload(file) => forall r | r in file :: r.id != GUARD && Harmless(r)
    case Commit(_) => true
  }

  ghost predicate Guarded(rules: RuleMap) {
    && GUARD in rules && rules[GUARD] == GUARD_RULE
    && forall k | k in rules :: Harmless(rules[k])
  }

  ghost predicate Inv(s: State) {
    && Guarded(s.rules)
    && Keyed(s.rules)
    && forall r | r in s.pending :: r.id != GUARD && Harmless(r)
  }

  lemma StepKeepsInv(s: State, step: Step)
    requires Inv(s) && LeavesGuardAlone(step)
    ensures Inv(Apply(s, step))
  {
  }

  lemma {:induction false} RunKeepsInv(s: State, steps: seq<Step>)
    requires Inv(s) && forall step | step in steps :: LeavesGuardAlone(step)
    ensures Inv(Run(s, steps))
    decreases |steps|
  {
    if steps != [] {
      StepKeepsInv(s, steps[0]);
      RunKeepsInv(Apply(s, steps[0]), steps[1..]);
    }
  }

  /** What one evaluation may collect while handlers edit the map, given the maps it held meanwhile: only rules
      that were there at some moment, and every rule that was there all the time. */
  ghost predicate CollectedDuring(maps: seq<RuleMap>, list: seq<AccessRule>) {
    && maps != []
    && (forall r | r in list :: exists m :: m in maps && r.id in m && m[r.id] == r)
    && (forall r: AccessRule | forall m | m in maps :: r.id in m && m[r.id] == r :: r in list)
  }

  /** An evaluation that no edit overlaps collects the rules of its one map. */
  lemma CollectingOneMap(rules: RuleMap, order: seq<string>)
    requires Keyed(rules) && IsOrder(rules, order)
    ensures CollectedDuring([rules], Collect(rules, order))
  {
    var list := Collect(rules, order);
    forall r | r in list ensures exists m :: m in [rules] && r.id in m && m[r.id] == r {
      var i :| 0 <= i < |list| && list[i] == r;
      assert rules in [rules] && rules[order[i]] == r;
    }
    forall r: AccessRule | forall m | m in [rules] :: r.id in m && m[r.id] == r ensures r in list {
      assert rules in [rules];
      var i :| 0 <= i < |order| && order[i] == r.id;
      assert list[i] == r;
    }
  }

  lemma CollectedIsGuarded(maps: seq<RuleMap>, list: seq<AccessRule>)
    requires (forall m | m in maps :: Guarded(m)) && CollectedDuring(maps, list)
    ensures GUARD_RULE in list && forall r | r in list :: Harmless(r)
  {
    assert forall m | m in maps :: GUARD_RULE.id in m && m[GUARD_RULE.id] == GUARD_RULE;
    forall r | r in list ensures Harmless(r) {
      var m :| m in maps && r.id in m && m[r.id] == r;
      assert Guarded(m);
    }
  }

  /** With the guard in every map and every other rule harmless, an evaluation denies a dangerous query, whatever
      it collects while the map is edited: the guard decides, or loses to other Deny rules only. */
  lemma GuardedRulesDenyDanger(maps: seq<RuleMap>, list: seq<AccessRule>, req: AccessRequest, w: World)
    requires forall m | m in maps :: Guarded(m)
    requires CollectedDuring(maps, list)
    requires req.query.Some? && IsDangerous(w.codec, req.query.value)
    ensures !Decide(StableSort(list), req, w).allowed
  {
    hide IsDangerous, StableSort, FirstMatch, CollectedDuring, Guarded;
    CollectedIsGuarded(maps, list);
    FirstMatchOfSort(list, req, w);
    assert ConditionHolds(BlockDangerousQuery, req, w);
    assert RuleMatches(GUARD_RULE, req, w);
    var m := FirstMatch(StableSort(list), req, w);
    assert Harmless(m.value) && m.value.priority <= GUARD_RULE.priority;
  }

  /** After the default rules are loaded, in every run of interleaved handlers that leaves the guard alone,
      every dangerous query is denied under every iteration order, and every rule sits under its own id. */
  lemma DangerIsDeniedInEveryRun(steps: seq<Step>, order: seq<string>, req: AccessRequest, w: World)
    requires forall step | step in steps :: LeavesGuardAlone(step)
    requires req.query.Some? && IsDangerous(w.codec, req.query.value)
    ensures Guarded(Run(State(DEFAULT_RULES, []), steps).rules)
    ensures Keyed(Run(State(DEFAULT_RULES, []), steps).rules)
    ensures var rules := Run(State(DEFAULT_RULES, []), steps).rules;
            IsOrder(rules, order) ==> !EvaluateIn(rules, order, req, w).allowed
  {
    var s := State(DEFAULT_RULES, []);
    assert Inv(s);
    RunKeepsInv(s, steps);
    var rules := Run(s, steps).rules;
    if IsOrder(rules, order) {
      CollectingOneMap(rules, order);
      GuardedRulesDenyDanger([rules], Collect(rules, order), req, w);
    }
  }

  /** The map at some point of the run. */
  ghost predicate Visited(steps: seq<Step>, rules: RuleMap) {
    exists k: nat :: k <= |steps| && rules == Run(State(DEFAULT_RULES, []), steps[..k]).rules
  }

  /** The same for an evaluation during which the map went through several of the run's states. */
  lemma DangerIsDeniedDuringEdits(steps: seq<Step>, maps: seq<RuleMap>, list: seq<AccessRule>, req: AccessRequest,
                                  w: World)
    requires forall step | step in steps :: LeavesGuardAlone(step)
    requires (forall m | m in maps :: Visited(steps, m)) && CollectedDuring(maps, list)
    requires req.query.Some? && IsDangerous(w.codec, req.query.value)
    ensures !Decide(StableSort(list), req, w).allowed
  {
    hide IsDangerous, Run, StableSort, CollectedDuring;
    forall m | m in maps ensures Guarded(m) {
      var k: nat :| k <= |steps| && m == Run(State(DEFAULT_RULES, []), steps[..k]).rules;
      assert Inv(State(DEFAULT_RULES, []));
      RunKeepsInv(State(DEFAULT_RULES, []), steps[..k]);
    }
    GuardedRulesDenyDanger(maps, list, req, w);
  }

  /** The exact line: beside the guard, a dangerous query is denied in every order if and only if no Allow or
      Alert rule of priority 1 or less matches it without being undercut by another matching rule. */
  lemma DangerIsDeniedIff(rules: RuleMap, req: AccessRequest, w: World)
    requires GUARD in rules && rules[GUARD] == GUARD_RULE
    requires req.query.Some? && IsDangerous(w.codec, req.query.value)
    ensures (forall order | IsOrder(rules, order) :: !EvaluateIn(rules, order, req, w).allowed)
            <==> !exists id :: Decides(rules, id, req, w) && rules[id].priority <= 1 && rules[id].action != Deny
  {
    assert ConditionHolds(BlockDangerousQuery, req, w);
    assert Eligible(rules, GUARD, req, w);
    if id :| Decides(rules, id, req, w) && rules[id].action != Deny {
      var order := EveryVerdictHasAnOrder(rules, req, w, ResultOf(rules[id]));
      assert IsOrder(rules, order) && EvaluateIn(rules, order, req, w).allowed;
    }
    forall order | IsOrder(rules, order) && EvaluateIn(rules, order, req, w).allowed
      ensures exists id :: Decides(rules, id, req, w) && rules[id].priority <= 1 && rules[id].action != Deny
    {
      EveryOrderGivesAVerdict(rules, order, req, w);
      var id :| Decides(rules, id, req, w) && EvaluateIn(rules, order, req, w) == ResultOf(rules[id]);
      assert rules[id].priority <= rules[GUARD].priority;
    }
  }

  /** A handler that runs alone is its two halves in a row. */
  lemma AloneIsAtomic(rules: RuleMap, rule: AccessRule, id: string)
    ensures Run(State(rules, []), [Create(rule), Commit(0)])
            == State(if rule.id in rules then rules else rules[rule.id := rule], [])
    ensures Run(State(rules, []), [Update(id, rule), Commit(0)])
            == State(if id in rules then rules[id := rule.(id := id)] else rules, [])
    ensures Keyed(rules) && id in rules ==>
              Run(State(rules, []), [Toggle(id), Commit(0)]) == State(WithEnabled(rules, id, !rules[id].enabled), [])
  {
    RunTwo(State(rules, []), Create(rule), Commit(0));
    RunTwo(State(rules, []), Update(id, rule), Commit(0));
    RunTwo(State(rules, []), Toggle(id), Commit(0));
  }

  lemma RunTwo(s: State, a: Step, b: Step)
    ensures Run(s, [a, b]) == Apply(Apply(s, a), b)
  {
    assert [a, b][1..] == [b] && [b][1..] == [];
    assert Run(s, [a, b]) == Run(Apply(s, a), [b]);
    assert Run(Apply(s, a), [b]) == Run(Apply(Apply(s, a), b), []);
  }

  /** Toggling twice, with nothing in between, restores the rules. */
  lemma ToggleTwiceRestores(rules: RuleMap, id: string)
    requires Keyed(rules) && id in rules
    ensures Run(State(rules, []), [Toggle(id), Commit(0)] + [Toggle(id), Commit(0)]) == State(rules, [])
  {
    var once := WithEnabled(rules, id, !rules[id].enabled);
    AloneIsAtomic(rules, rules[id], id);
    AloneIsAtomic(once, rules[id], id);
    RunAppend(State(rules, []), [Toggle(id), Commit(0)], [Toggle(id), Commit(0)]);
    assert WithEnabled(once, id, !once[id].enabled) == rules;
  }

  lemma {:induction false} RunAppend(s: State, a: seq<Step>, b: seq<Step>)
    ensures Run(s, a + b) == Run(Run(s, a), b)
    decreases |a|
  {
    if a == [] {
      assert a + b == b;
    } else {
      assert (a + b)[1..] == a[1..] + b;
      RunAppend(Apply(s, a[0]), a[1..], b);
    }
  }

  /** With something in between they need not: a toggle that read before a delete writes the rule back. */
  lemma ToggleCanUndoADelete(rules: RuleMap, id: string)
    requires Keyed(rules) && id in rules
    ensures Run(State(rules, []), [Toggle(id), Delete(id)] + [Commit(0)]).rules
            == WithEnabled(rules, id, !rules[id].enabled)
  {
    RunAppend(State(rules, []), [Toggle(id), Delete(id)], [Commit(0)]);
    RunTwo(State(rules, []), Toggle(id), Delete(id));
    var s := Run(State(rules, []), [Toggle(id), Delete(id)]);
    assert [Commit(0)][1..] == [];
    assert Run(s, [Commit(0)]) == Apply(s, Commit(0));
    assert Apply(s, Commit(0)).rules == WithEnabled(rules, id, !rules[id].enabled);
  }

  /** Steps that bring in a rule of this id from outside. Updates and toggles only rewrite what is there. */
  predicate BringsIn(step: Step, id: string) {
    match step
    case Create(rule) => rule.id == id
    case Reload(file) => exists r | r in file :: r.id == id
    case _ => false
  }

  /** Once deleted the id stays away, whatever handlers run later, until one brings it in again. */
  ghost predicate DeleteIsFinal(s: State, id: string) {
    forall steps | forall step | step in steps :: !BringsIn(step, id) ::
      id !in Run(Apply(s, Delete(id)), steps).rules
  }

  /** The exact line: a delete is final if and only if no write of that id was still to be made when it ran. */
  lemma DeleteIsFinalIff(s: State, id: string)
    requires Keyed(s.rules)
    ensures DeleteIsFinal(s, id) <==> forall r | r in s.pending :: r.id != id
  {
    var deleted := Apply(s, Delete(id));
    if forall r | r in s.pending :: r.id != id {
      forall steps | forall step | step in steps :: !BringsIn(step, id) ensures id !in Run(deleted, steps).rules {
        StaysAway(deleted, id, steps);
      }
    } else {
      var i :| 0 <= i < |s.pending| && s.pending[i].id == id;
      var steps := [Commit(i)];
      assert steps[1..] == [];
      assert Run(deleted, steps) == Run(Apply(deleted, Commit(i)), []);
      assert id in Run(Apply(s, Delete(id)), steps).rules;
    }
  }

  lemma {:induction false} StaysAway(s: State, id: string, steps: seq<Step>)
    requires Keyed(s.rules) && id !in s.rules && forall r | r in s.pending :: r.id != id
    requires forall step | step in steps :: !BringsIn(step, id)
    ensures id !in Run(s, steps).rules
    decreases |steps|
  {
    if steps != [] {
      assert steps[0] in steps;
      StaysAway(Apply(s, steps[0]), id, steps[1..]);
    }
  }

  /** A reload whose writes are made in file order is `UpsertAll`. */
  lemma {:induction false} ReloadAlone(rules: RuleMap, file: seq<AccessRule>)
    ensures Run(State(rules, file), seq(|file|, i => Commit(0))) == State(UpsertAll(rules, file), [])
    decreases |file|
  {
    if file != [] {
      var steps := seq(|file|, i => Commit(0));
      assert steps[1..] == seq(|file| - 1, i => Commit(0));
      assert file[..0] + file[1..] == file[1..];
      ReloadAlone(rules[file[0].id := file[0]], file[1..]);
      assert |file[1..]| == |file| - 1;
    }
  }
}
