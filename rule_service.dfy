/** RuleService: regex validation, rule creation and deletion, the
    priority-ordered rule listing, and first-match evaluation of a command
    against every stored rule. */
module RuleService {
  import opened Models
  import opened Regex
  import opened Store

  /** `validate_regex`: (True, None) when the pattern compiles, otherwise
      (False, the compiler's message). */
  function ValidateRegex(re: Engine, pattern: string): (r: (bool, Option<string>))
    ensures r.0 <==> Compiles(re, pattern)
    ensures r.0 <==> r.1.None?
    ensures !r.0 ==> r.1 == re.compileError(pattern)
  {
    match re.compileError(pattern)
    case None => (true, None)
    case Some(message) => (false, Some(message))
  }

  /** `create_rule`: an uncompilable pattern raises ValueError and inserts
      nothing; a valid one inserts exactly one rule with the given pattern,
      action, priority and description. The approval columns take the
      table's defaults and `created_by` stays empty. */
  method CreateRule(db: Database, re: Engine, rc: RuleCreate) returns (res: Result<Rule>)
    requires db.Valid()
    modifies db`rules, db`nextRuleId
    ensures db.Valid()
    ensures !Compiles(re, rc.pattern) ==>
              && res == Err(ValueError("Invalid regex pattern: " + re.compileError(rc.pattern).value))
              && db.rules == old(db.rules) && db.nextRuleId == old(db.nextRuleId)
    ensures Compiles(re, rc.pattern) ==>
              && res == Ok(Rule(old(db.nextRuleId), rc.pattern, rc.action, rc.priority, rc.description,
                                db.ruleDefaultThreshold, db.ruleDefaultStatus, None))
              && db.rules == old(db.rules) + [res.value]
              && db.nextRuleId == old(db.nextRuleId) + 1
  {
    var (isValid, error) := ValidateRegex(re, rc.pattern);
    if !isValid {
      res := Err(ValueError("Invalid regex pattern: " + error.value));
      return;
    }
    var rule := db.InsertRule(rc.pattern, rc.action, rc.priority, rc.description,
                              db.ruleDefaultThreshold, db.ruleDefaultStatus, None);
    res := Ok(rule);
  }

  // ---------------------------------------------------------------- priority order

  ghost predicate SortedByPriority(rs: seq<Rule>) {
    forall i, j :: 0 <= i < j < |rs| ==> rs[i].priority <= rs[j].priority
  }

  /** `a` is listed before `b`: lower priority value, or the same priority
      and the lower id. */
  predicate Before(a: Rule, b: Rule) {
    a.priority < b.priority || (a.priority == b.priority && a.id < b.id)
  }

  /** Ascending priority, and among equal priorities ascending id. */
  ghost predicate PriorityThenId(rs: seq<Rule>) {
    forall i, j :: 0 <= i < j < |rs| ==> Before(rs[i], rs[j])
  }

  /** Puts `x` in front of the first rule whose priority is not lower. */
  function InsertByPriority(x: Rule, s: seq<Rule>): (r: seq<Rule>)
    ensures |r| == |s| + 1
    ensures forall y :: y in r <==> y == x || y in s
  {
    if |s| == 0 then [x]
    else if x.priority <= s[0].priority then [x] + s
    else
      assert s == [s[0]] + s[1..];
      [s[0]] + InsertByPriority(x, s[1..])
  }

  lemma {:induction false} InsertKeepsSorted(x: Rule, s: seq<Rule>)
    requires SortedByPriority(s)
    ensures SortedByPriority(InsertByPriority(x, s))
  {
    if |s| > 0 && x.priority > s[0].priority {
      InsertKeepsSorted(x, s[1..]);
      var rest := InsertByPriority(x, s[1..]);
      forall k | 0 <= k < |rest| ensures s[0].priority <= rest[k].priority {
        assert rest[k] in rest;
        if rest[k] != x {
          var m :| 0 <= m < |s[1..]| && s[1..][m] == rest[k];
          assert s[m + 1] == rest[k];
        }
      }
    }
  }

  lemma {:induction false} InsertPermutes(x: Rule, s: seq<Rule>)
    ensures multiset(InsertByPriority(x, s)) == multiset(s) + multiset{x}
  {
    if |s| > 0 && x.priority > s[0].priority {
      InsertPermutes(x, s[1..]);
      assert s == [s[0]] + s[1..];
    }
  }

  /** `get_all_rules`: `order("priority")` over the rules table. The order
      of equal priorities is pinned to table (creation) order. */
  function GetAllRules(rules: seq<Rule>): (r: seq<Rule>)
    ensures |r| == |rules|
    ensures forall x :: x in r <==> x in rules
    ensures SortedByPriority(r)
  {
    if |rules| == 0 then []
    else
      var sorted := GetAllRules(rules[1..]);
      InsertKeepsSorted(rules[0], sorted);
      assert rules == [rules[0]] + rules[1..];
      InsertByPriority(rules[0], sorted)
  }

  /** The listing is a permutation of the table. */
  lemma {:induction false} GetAllRulesPermutes(rules: seq<Rule>)
    ensures multiset(GetAllRules(rules)) == multiset(rules)
  {
    if |rules| > 0 {
      GetAllRulesPermutes(rules[1..]);
      InsertPermutes(rules[0], GetAllRules(rules[1..]));
      assert rules == [rules[0]] + rules[1..];
    }
  }

  lemma {:induction false} InsertKeepsTies(x: Rule, s: seq<Rule>)
    requires PriorityThenId(s)
    requires forall y :: y in s ==> x.id < y.id
    ensures PriorityThenId(InsertByPriority(x, s))
  {
    if |s| == 0 {
    } else if x.priority <= s[0].priority {
      var r := [x] + s;
      forall i, j | 0 <= i < j < |r| ensures Before(r[i], r[j]) {
        if i == 0 {
          assert r[j] == s[j - 1];
          assert r[j] in s;
          assert s[0].priority <= s[j - 1].priority by {
            if j - 1 > 0 { assert Before(s[0], s[j - 1]); }
          }
        } else {
          assert r[i] == s[i - 1] && r[j] == s[j - 1];
        }
      }
    } else {
      InsertKeepsTies(x, s[1..]);
      var rest := InsertByPriority(x, s[1..]);
      var r := [s[0]] + rest;
      forall i, j | 0 <= i < j < |r| ensures Before(r[i], r[j]) {
        if i == 0 {
          assert r[j] == rest[j - 1] && rest[j - 1] in rest;
          if rest[j - 1] != x {
            var m :| 0 <= m < |s[1..]| && s[1..][m] == rest[j - 1];
            assert s[m + 1] == rest[j - 1];
          }
        } else {
          assert r[i] == rest[i - 1] && r[j] == rest[j - 1];
        }
      }
    }
  }

  /** Sorting is stable: when ids increase along the table, rules of equal
      priority come out in id order. */
  lemma {:induction false} GetAllRulesStable(rules: seq<Rule>)
    requires forall i, j :: 0 <= i < j < |rules| ==> rules[i].id < rules[j].id
    ensures PriorityThenId(GetAllRules(rules))
  {
    if |rules| > 0 {
      GetAllRulesStable(rules[1..]);
      var sorted := GetAllRules(rules[1..]);
      forall y | y in sorted ensures rules[0].id < y.id {
        assert y in rules[1..];
        var m :| 0 <= m < |rules[1..]| && rules[1..][m] == y;
        assert rules[m + 1] == y;
      }
      InsertKeepsTies(rules[0], sorted);
    }
  }

  /** A table already in priority order is listed as it is. */
  lemma {:induction false} GetAllRulesOfSorted(rules: seq<Rule>)
    requires SortedByPriority(rules)
    ensures GetAllRules(rules) == rules
  {
    if |rules| > 0 {
      GetAllRulesOfSorted(rules[1..]);
      assert rules == [rules[0]] + rules[1..];
    }
  }

  // ---------------------------------------------------------------- first match

  /** `re.search(rule.pattern, command_text)` finds a match; a pattern that
      does not compile never does. */
  predicate Matches(re: Engine, rule: Rule, text: string) {
    Searches(re, rule.pattern, text)
  }

  /** The loop of `match_command` over a rule list: the first rule that
      matches, skipping uncompilable patterns, or None. */
  function FirstMatch(re: Engine, rules: seq<Rule>, text: string): (r: Option<Rule>)
    ensures r.Some? ==> r.value in rules && Matches(re, r.value, text)
    ensures r.None? <==> forall i :: 0 <= i < |rules| ==> !Matches(re, rules[i], text)
  {
    if |rules| == 0 then None
    else if Matches(re, rules[0], text) then Some(rules[0])
    else
      var r := FirstMatch(re, rules[1..], text);
      assert r.None? ==> forall i :: 0 <= i < |rules| ==> !Matches(re, rules[i], text) by {
        if r.None? {
          forall i | 0 < i < |rules| ensures !Matches(re, rules[i], text) {
            assert rules[i] == rules[1..][i - 1];
          }
        }
      }
      r
  }

  /** The rule at position i is returned when it matches and no earlier
      rule does. */
  lemma {:induction false} FirstMatchAt(re: Engine, rules: seq<Rule>, text: string, i: nat)
    requires i < |rules| && Matches(re, rules[i], text)
    requires forall j :: 0 <= j < i ==> !Matches(re, rules[j], text)
    ensures FirstMatch(re, rules, text) == Some(rules[i])
  {
    if i > 0 {
      FirstMatchAt(re, rules[1..], text, i - 1);
    }
  }

  /** Whatever is returned sits at some position `i` with no matching rule
      before it. */
  lemma {:induction false} FirstMatchIsEarliest(re: Engine, rules: seq<Rule>, text: string) returns (i: nat)
    requires FirstMatch(re, rules, text).Some?
    ensures i < |rules| && rules[i] == FirstMatch(re, rules, text).value
    ensures forall j :: 0 <= j < i ==> !Matches(re, rules[j], text)
  {
    if Matches(re, rules[0], text) {
      i := 0;
    } else {
      var k := FirstMatchIsEarliest(re, rules[1..], text);
      i := k + 1;
      assert rules[i] == rules[1..][k];
      forall j | 0 < j < i ensures !Matches(re, rules[j], text) {
        assert rules[j] == rules[1..][j - 1];
      }
    }
  }

  /** `match_command` over the whole rules table: first match in priority
      order. */
  function Match(re: Engine, rules: seq<Rule>, text: string): (r: Option<Rule>)
    ensures r.Some? ==> r.value in rules && Matches(re, r.value, text)
  {
    FirstMatch(re, GetAllRules(rules), text)
  }

  /** None exactly when no stored rule matches (with a compilable pattern). */
  lemma MatchNone(re: Engine, rules: seq<Rule>, text: string)
    ensures Match(re, rules, text).None? <==> forall x :: x in rules ==> !Matches(re, x, text)
  {
    var sorted := GetAllRules(rules);
    if Match(re, rules, text).None? {
      forall x | x in rules ensures !Matches(re, x, text) {
        var k :| 0 <= k < |sorted| && sorted[k] == x;
      }
    }
  }

  /** The rule chosen is a stored, matching rule with the lowest priority
      value of all matching rules. */
  lemma MatchIsLowestPriority(re: Engine, rules: seq<Rule>, text: string)
    requires Match(re, rules, text).Some?
    ensures Match(re, rules, text).value in rules
    ensures Matches(re, Match(re, rules, text).value, text)
    ensures forall x :: x in rules && Matches(re, x, text) ==> Match(re, rules, text).value.priority <= x.priority
  {
    var sorted := GetAllRules(rules);
    var i := FirstMatchIsEarliest(re, sorted, text);
    forall x | x in rules && Matches(re, x, text) ensures sorted[i].priority <= x.priority {
      var k :| 0 <= k < |sorted| && sorted[k] == x;
      assert !(k < i);
    }
  }

  /** Between matching rules of equal priority, the one created first (the
      lower id) wins. */
  lemma MatchTieBreak(re: Engine, rules: seq<Rule>, text: string, x: Rule)
    requires forall i, j :: 0 <= i < j < |rules| ==> rules[i].id < rules[j].id
    requires x in rules && Matches(re, x, text)
    ensures Match(re, rules, text).Some?
    ensures x.priority == Match(re, rules, text).value.priority ==> Match(re, rules, text).value.id <= x.id
  {
    MatchNone(re, rules, text);
    var sorted := GetAllRules(rules);
    GetAllRulesStable(rules);
    var i := FirstMatchIsEarliest(re, sorted, text);
    var k :| 0 <= k < |sorted| && sorted[k] == x;
    assert !(k < i);
    if k > i { assert Before(sorted[i], sorted[k]); }
  }

  /** `match_command`: walks the rules in priority order and returns the
      first whose pattern searches the text; a pattern that raises `re.error`
      is skipped. What the result means is stated by MatchNone,
      MatchIsLowestPriority and MatchTieBreak. */
  method MatchCommand(db: Database, re: Engine, text: string) returns (r: Option<Rule>)
    ensures r == Match(re, db.rules, text)
  {
    var rules := GetAllRules(db.rules);
    for i := 0 to |rules|
      invariant forall j :: 0 <= j < i ==> !Matches(re, rules[j], text)
    {
      var rule := rules[i];
      match re.compileError(rule.pattern)
      case Some(_) =>
        // `re.error`: this rule is skipped
      case None =>
        if re.search(rule.pattern, text) {
          FirstMatchAt(re, rules, text, i);
          return Some(rule);
        }
    }
    return None;
  }

  // ---------------------------------------------------------------- scenarios

  /** The five-rule table the rule-engine walkthrough evaluates, stored in
      priority order with ids 1 to 5. */
  function SampleRules(): seq<Rule> {
    [ Rule(1, ":(){ :|:& };:", AutoReject, 1, Some("Block fork-bomb"), 1, Active, None),
      Rule(2, "rm\\s+-rf\\s+/", AutoReject, 2, Some("Block root delete"), 1, Active, None),
      Rule(3, "mkfs\\.", AutoReject, 3, Some("Block filesystem format"), 1, Active, None),
      Rule(4, "git\\s+(status|log|diff)", AutoAccept, 10, Some("Allow safe git"), 1, Active, None),
      Rule(5, "^(ls|cat|pwd|echo)", AutoAccept, 20, Some("Allow basic commands"), 1, Active, None) ]
  }

  /** The sample table is listed in its stored order. */
  lemma SampleRulesListed()
    ensures GetAllRules(SampleRules()) == SampleRules()
  {
    var rules := SampleRules();
    assert SortedByPriority(rules) by {
      assert forall k :: 0 <= k < |rules| ==> rules[k].priority == [1, 2, 3, 10, 20][k];
    }
    GetAllRulesOfSorted(rules);
  }

  /** "rm -rf /" is stopped by the root-delete rule even though a later
      rule might match too, given only what the engine says about the two
      highest-ranked patterns. */
  lemma SampleRootDeleteRejected(re: Engine)
    requires !Searches(re, SampleRules()[0].pattern, "rm -rf /")
    requires Searches(re, SampleRules()[1].pattern, "rm -rf /")
    ensures Match(re, SampleRules(), "rm -rf /") == Some(SampleRules()[1])
    ensures Match(re, SampleRules(), "rm -rf /").value.action == AutoReject
  {
    SampleRulesListed();
    FirstMatchAt(re, SampleRules(), "rm -rf /", 1);
  }

  /** "cat /etc/passwd" falls through the four higher-ranked rules and is
      accepted by the basic-commands rule. */
  lemma SampleCatAccepted(re: Engine)
    requires forall k :: 0 <= k < 4 ==> !Searches(re, SampleRules()[k].pattern, "cat /etc/passwd")
    requires Searches(re, SampleRules()[4].pattern, "cat /etc/passwd")
    ensures Match(re, SampleRules(), "cat /etc/passwd") == Some(SampleRules()[4])
    ensures Match(re, SampleRules(), "cat /etc/passwd").value.action == AutoAccept
  {
    SampleRulesListed();
    FirstMatchAt(re, SampleRules(), "cat /etc/passwd", 4);
  }

  /** "docker run" matches no rule. */
  lemma SampleDockerUnmatched(re: Engine)
    requires forall k :: 0 <= k < 5 ==> !Searches(re, SampleRules()[k].pattern, "docker run")
    ensures Match(re, SampleRules(), "docker run") == None
  {
    MatchNone(re, SampleRules(), "docker run");
  }

  /** A general allow rule created first and a narrower reject rule created
      later with a lower priority value: when both match, the reject rule
      decides, table order notwithstanding, and its PENDING approval status
      does not keep it out. */
  lemma NarrowRejectOverridesEarlierAllow(re: Engine, text: string)
    requires Searches(re, "^ls( .*)?$", text) && Searches(re, "^ls -la$", text)
    ensures Match(re, [Rule(1, "^ls( .*)?$", AutoAccept, 10, None, 1, Active, None),
                       Rule(2, "^ls -la$", AutoReject, 5, None, 2, Pending, Some(7))], text)
            == Some(Rule(2, "^ls -la$", AutoReject, 5, None, 2, Pending, Some(7)))
  {
    var rules := [Rule(1, "^ls( .*)?$", AutoAccept, 10, None, 1, Active, None),
                  Rule(2, "^ls -la$", AutoReject, 5, None, 2, Pending, Some(7))];
    MatchNone(re, rules, text);
    assert rules[1] in rules;
    MatchIsLowestPriority(re, rules, text);
  }

  // ---------------------------------------------------------------- deletion

  /** The rules table after `delete().eq("id", id)`. */
  function WithoutRule(rules: seq<Rule>, id: int): (r: seq<Rule>)
    ensures forall x :: x in r <==> x in rules && x.id != id
    ensures |r| <= |rules|
  {
    if |rules| == 0 then []
    else (if rules[0].id == id then [] else [rules[0]]) + WithoutRule(rules[1..], id)
  }

  /** Deleting keeps the ids of the remaining rules in table order. */
  lemma {:induction false} WithoutRuleKeepsOrder(rules: seq<Rule>, id: int, next: int)
    requires Increasing(RuleIds(rules), next)
    ensures Increasing(RuleIds(WithoutRule(rules, id)), next)
  {
    if |rules| > 0 {
      var ids := RuleIds(rules);
      assert RuleIds(rules[1..]) == ids[1..];
      WithoutRuleKeepsOrder(rules[1..], id, next);
      var rest := WithoutRule(rules[1..], id);
      var restIds := RuleIds(rest);
      if rules[0].id != id {
        forall k | 0 <= k < |rest| ensures rules[0].id < restIds[k] {
          assert rest[k] in rest;
          var m :| 0 <= m < |rules[1..]| && rules[1..][m] == rest[k];
          assert ids[m + 1] == rest[k].id;
          assert ids[0] == rules[0].id;
        }
        assert RuleIds([rules[0]] + rest) == [rules[0].id] + restIds;
        assert rules[0].id < next by { assert ids[0] == rules[0].id; }
      } else {
        assert WithoutRule(rules, id) == rest;
      }
    }
  }

  /** `delete_rule` as written: it removes every rule with that id and
      reports `response.data is not None`, which holds for any response,
      including the empty list of an id that matched nothing. */
  method DeleteRule(db: Database, id: int) returns (ok: bool)
    requires db.Valid()
    modifies db`rules
    ensures db.Valid()
    ensures db.rules == WithoutRule(old(db.rules), id)
    ensures ok
  {
    WithoutRuleKeepsOrder(db.rules, id, db.nextRuleId);
    db.rules := WithoutRule(db.rules, id);
    ok := true;
  }

  /** An id that no rule carries still reports success. */
  lemma DeleteMissingChangesNothing(rules: seq<Rule>, id: int)
    requires forall x :: x in rules ==> x.id != id
    ensures WithoutRule(rules, id) == rules
  {
    if |rules| > 0 {
      DeleteMissingChangesNothing(rules[1..], id);
      assert rules == [rules[0]] + rules[1..];
    }
  }

  /** `delete_rule` as its caller reads it (a false result becomes 404
      "Rule not found"): true exactly when some rule had the id. */
  method DeleteRuleChecked(db: Database, id: int) returns (ok: bool)
    requires db.Valid()
    modifies db`rules
    ensures db.Valid()
    ensures db.rules == WithoutRule(old(db.rules), id)
    ensures ok <==> exists x :: x in old(db.rules) && x.id == id
  {
    var deleted := exists x :: x in db.rules && x.id == id;
    WithoutRuleKeepsOrder(db.rules, id, db.nextRuleId);
    db.rules := WithoutRule(db.rules, id);
    ok := deleted;
  }
}
