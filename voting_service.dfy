/** VotingService: rules created under an approval threshold start PENDING
    (or ACTIVE when one vote suffices), admins vote once each, and the
    first threshold reached, approval checked before rejection, decides the
    rule. Notifications go to the admins concerned. */
module VotingService {
  import opened Models
  import opened Store

  /** The body of an approval-rule request; `approvalThreshold` is None when
      the key is absent. */
  datatype ApprovalRequest = ApprovalRequest(
    pattern: string,
    action: RuleAction,
    priority: int,
    description: Option<string>,
    approvalThreshold: Option<int>)

  /** What `vote_on_rule` returns. */
  datatype VoteOutcome = VoteOutcome(
    ruleId: int,
    yourVote: VoteType,
    approveCount: nat,
    rejectCount: nat,
    threshold: int,
    newStatus: ApprovalStatus,
    decisionReached: bool)

  /** A pending rule enriched with its tallies. */
  datatype PendingRule = PendingRule(rule: Rule, approvalCount: nat, rejectionCount: nat)

  // ---------------------------------------------------------------- lookups and tallies

  /** `table("rules").select("*").eq("id", id)` followed by `data[0]`. */
  function RuleById(rules: seq<Rule>, id: int): (r: Option<Rule>)
    ensures r.None? <==> forall i :: 0 <= i < |rules| ==> rules[i].id != id
    ensures r.Some? ==> r.value in rules && r.value.id == id
  {
    if |rules| == 0 then None
    else if rules[0].id == id then Some(rules[0])
    else RuleById(rules[1..], id)
  }

  /** A rule appended to the table is found by its id unless an earlier rule
      already carries that id. */
  lemma {:induction false} RuleByIdAppend(rules: seq<Rule>, r: Rule, id: int)
    ensures RuleById(rules + [r], id) ==
            if RuleById(rules, id).Some? then RuleById(rules, id)
            else if r.id == id then Some(r) else None
  {
    if |rules| > 0 {
      assert (rules + [r])[1..] == rules[1..] + [r];
      RuleByIdAppend(rules[1..], r, id);
    }
  }

  /** `sum(1 for v in votes if v["vote"] == kind)` over the votes of one rule. */
  function Count(votes: seq<Vote>, ruleId: int, kind: VoteType): (n: nat)
    ensures n <= |votes|
    ensures n == 0 <==> forall i :: 0 <= i < |votes| ==> !(votes[i].ruleId == ruleId && votes[i].vote == kind)
  {
    if |votes| == 0 then 0
    else
      var rest := Count(votes[1..], ruleId, kind);
      assert rest == 0 ==> forall i :: 1 <= i < |votes| ==> !(votes[i].ruleId == ruleId && votes[i].vote == kind) by {
        forall i | 1 <= i < |votes| ensures rest == 0 ==> !(votes[i].ruleId == ruleId && votes[i].vote == kind) {
          assert votes[i] == votes[1..][i - 1];
        }
      }
      (if votes[0].ruleId == ruleId && votes[0].vote == kind then 1 else 0) + rest
  }

  /** Recording a vote adds one to exactly the tally it belongs to. */
  lemma {:induction false} CountAppend(votes: seq<Vote>, v: Vote, ruleId: int, kind: VoteType)
    ensures Count(votes + [v], ruleId, kind) ==
            Count(votes, ruleId, kind) + (if v.ruleId == ruleId && v.vote == kind then 1 else 0)
  {
    if |votes| > 0 {
      assert (votes + [v])[1..] == votes[1..] + [v];
      CountAppend(votes[1..], v, ruleId, kind);
    }
  }

  /** The three ordered threshold checks after a vote: ACTIVE when the
      approvals reach the threshold, else REJECTED when the rejections do,
      else still PENDING. */
  function Decide(approveCount: int, rejectCount: int, threshold: int): (s: ApprovalStatus)
    ensures s == Active <==> approveCount >= threshold
    ensures s == ApprovalStatus.Rejected <==> approveCount < threshold <= rejectCount
    ensures s == Pending <==> approveCount < threshold && rejectCount < threshold
  {
    if approveCount >= threshold then Active
    else if rejectCount >= threshold then ApprovalStatus.Rejected
    else Pending
  }

  /** The rules table after `update({"approval_status": s}).eq("id", id)`. */
  function WithStatus(rules: seq<Rule>, id: int, s: ApprovalStatus): (r: seq<Rule>)
    ensures RuleIds(r) == RuleIds(rules)
  {
    var r := seq(|rules|, i requires 0 <= i < |rules| =>
                if rules[i].id == id then rules[i].(approvalStatus := s) else rules[i]);
    assert RuleIds(r) == RuleIds(rules);
    r
  }

  /** After the update the decided rule reads back with its new status and
      every other rule reads back unchanged. */
  lemma {:induction false} WithStatusLookup(rules: seq<Rule>, id: int, s: ApprovalStatus, other: int)
    ensures RuleById(WithStatus(rules, id, s), other) ==
            if other == id && RuleById(rules, id).Some?
            then Some(RuleById(rules, id).value.(approvalStatus := s))
            else RuleById(rules, other)
  {
    if |rules| > 0 {
      WithStatusLookup(rules[1..], id, s, other);
      assert WithStatus(rules, id, s)[1..] == WithStatus(rules[1..], id, s);
    }
  }

  // ---------------------------------------------------------------- notification fan-out

  /** One notification draft per admin id, in order, all with one message. */
  function Drafts(ruleId: int, adminIds: seq<int>, message: string): seq<NotificationDraft> {
    seq(|adminIds|, k requires 0 <= k < |adminIds| => NotificationDraft(ruleId, adminIds[k], message))
  }

  lemma DraftsAppend(ruleId: int, adminIds: seq<int>, adminId: int, message: string)
    ensures Drafts(ruleId, adminIds + [adminId], message) ==
            Drafts(ruleId, adminIds, message) + [NotificationDraft(ruleId, adminId, message)]
  {
  }

  /** The approval request quotes the pattern right after "New rule '". */
  function ApprovalMessage(pattern: string, threshold: int): (m: string)
    ensures |m| > 10 + |pattern| && m[..10] == "New rule '" && m[10..10 + |pattern|] == pattern
  {
    "New rule '" + pattern + "' requires your approval (" + IntToString(threshold) + " votes needed)"
  }

  /** The decision notice quotes the pattern right after "Rule '", then names
      the decision. */
  function DecisionMessage(pattern: string, decision: string, voteCount: int): (m: string)
    ensures |m| > 6 + |pattern| + 11 + |decision| && m[..6] == "Rule '" && m[6..6 + |pattern|] == pattern
    ensures m[6 + |pattern|..6 + |pattern| + 11] == "' has been " && m[6 + |pattern| + 11..6 + |pattern| + 11 + |decision|] == decision
  {
    var head := "Rule '" + pattern + "' has been " + decision;
    var m := head + (" with " + IntToString(voteCount) + " votes");
    assert m[..|head|] == head;
    assert head[6 + |pattern|..6 + |pattern| + 11] == "' has been ";
    assert head[6 + |pattern| + 11..] == decision;
    m
  }

  ghost predicate Distinct(s: seq<int>) {
    forall i, j :: 0 <= i < j < |s| ==> s[i] != s[j]
  }

  ghost predicate IdsAscending(us: seq<User>) {
    forall i, j :: 0 <= i < j < |us| ==> us[i].id < us[j].id
  }

  /** `table("users").select("id, name").eq("role", "admin")`, in table order. */
  function Admins(users: seq<User>): (r: seq<User>)
    ensures forall u :: u in r <==> u in users && u.role == Admin
  {
    if |users| == 0 then []
    else
      var init := users[..|users| - 1];
      assert users == init + [users[|users| - 1]];
      Admins(init) + (if users[|users| - 1].role == Admin then [users[|users| - 1]] else [])
  }

  lemma {:induction false} AdminsAscending(users: seq<User>)
    requires IdsAscending(users)
    ensures IdsAscending(Admins(users))
  {
    if |users| > 0 {
      var init := users[..|users| - 1];
      var last := users[|users| - 1];
      AdminsAscending(init);
      forall u | u in Admins(init) ensures u.id < last.id {
        var k :| 0 <= k < |init| && init[k] == u;
      }
    }
  }

  /** The ids of `us` other than `except`, in order. */
  function IdsExcept(us: seq<User>, except: int): (r: seq<int>)
    ensures forall x :: x in r <==> x != except && exists u :: u in us && u.id == x
  {
    if |us| == 0 then []
    else
      var init := us[..|us| - 1];
      assert us == init + [us[|us| - 1]];
      IdsExcept(init, except) + (if us[|us| - 1].id != except then [us[|us| - 1].id] else [])
  }

  lemma {:induction false} IdsExceptAscending(us: seq<User>, except: int)
    requires IdsAscending(us)
    ensures forall i, j :: 0 <= i < j < |IdsExcept(us, except)| ==> IdsExcept(us, except)[i] < IdsExcept(us, except)[j]
  {
    if |us| > 0 {
      var init := us[..|us| - 1];
      var last := us[|us| - 1];
      IdsExceptAscending(init, except);
      var front := IdsExcept(init, except);
      forall x | x in front ensures x < last.id {
        var u :| u in init && u.id == x;
        var k :| 0 <= k < |init| && init[k] == u;
      }
      var r := IdsExcept(us, except);
      forall i, j | 0 <= i < j < |r| ensures r[i] < r[j] {
        if j >= |front| {
          assert r[j] == last.id && r[i] == front[i] && front[i] in front;
        } else {
          assert r[i] == front[i] && r[j] == front[j];
        }
      }
    }
  }

  /** Pending-creation notifications go to every admin except the creator,
      exactly one each. */
  lemma ApprovalRecipients(users: seq<User>, next: int, creatorId: int)
    requires Increasing(UserIds(users), next)
    ensures Distinct(IdsExcept(Admins(users), creatorId))
    ensures forall x :: x in IdsExcept(Admins(users), creatorId) <==>
                        x != creatorId && exists u :: u in users && u.role == Admin && u.id == x
  {
    assert IdsAscending(users) by {
      forall i, j | 0 <= i < j < |users| ensures users[i].id < users[j].id {
        assert UserIds(users)[i] == users[i].id && UserIds(users)[j] == users[j].id;
      }
    }
    AdminsAscending(users);
    IdsExceptAscending(Admins(users), creatorId);
  }

  /** The loop of `notify_admins_for_approval`: one draft per
      admin other than the creator, in the order the admins come. */
  method ApprovalDrafts(admins: seq<User>, ruleId: int, creatorId: int, message: string)
      returns (drafts: seq<NotificationDraft>)
    ensures drafts == Drafts(ruleId, IdsExcept(admins, creatorId), message)
  {
    drafts := [];
    for i := 0 to |admins|
      invariant drafts == Drafts(ruleId, IdsExcept(admins[..i], creatorId), message)
    {
      assert admins[..i + 1][..i] == admins[..i];
      if admins[i].id != creatorId {
        DraftsAppend(ruleId, IdsExcept(admins[..i], creatorId), admins[i].id, message);
        drafts := drafts + [NotificationDraft(ruleId, admins[i].id, message)];
      }
    }
    assert admins[..|admins|] == admins;
  }

  /** `notify_admins_for_approval`: one unread notification for each admin
      other than the creator, carrying the rule's pattern and threshold;
      nothing is inserted when there is no such admin. */
  method NotifyAdminsForApproval(db: Database, ruleId: int, creatorId: int)
    requires db.Valid() && RuleById(db.rules, ruleId).Some?
    modifies db`notifications, db`nextNotificationId
    ensures db.Valid()
    ensures db.notifications == old(db.notifications) +
              Stamp(Drafts(ruleId, IdsExcept(Admins(db.users), creatorId),
                           ApprovalMessage(RuleById(db.rules, ruleId).value.pattern,
                                           RuleById(db.rules, ruleId).value.approvalThreshold)),
                    old(db.nextNotificationId))
    ensures db.nextNotificationId == old(db.nextNotificationId) + |IdsExcept(Admins(db.users), creatorId)|
  {
    var rule := RuleById(db.rules, ruleId).value;
    var message := ApprovalMessage(rule.pattern, rule.approvalThreshold);
    var drafts := ApprovalDrafts(Admins(db.users), ruleId, creatorId, message);
    if |drafts| > 0 {
      db.InsertNotifications(drafts);
    } else {
      assert Stamp(drafts, db.nextNotificationId) == [];
      assert db.notifications + [] == db.notifications;
    }
  }

  /** `[v["admin_id"] for v in votes]` over the votes of one rule, in table
      order. */
  function VoterIds(votes: seq<Vote>, ruleId: int): (r: seq<int>)
    ensures forall a :: a in r <==> exists i :: 0 <= i < |votes| && votes[i].ruleId == ruleId && votes[i].adminId == a
  {
    if |votes| == 0 then []
    else
      var rest := VoterIds(votes[1..], ruleId);
      assert forall a :: a in rest <==> exists i :: 1 <= i < |votes| && votes[i].ruleId == ruleId && votes[i].adminId == a by {
        forall a ensures a in rest <==> exists i :: 1 <= i < |votes| && votes[i].ruleId == ruleId && votes[i].adminId == a {
          if a in rest {
            var i :| 0 <= i < |votes[1..]| && votes[1..][i].ruleId == ruleId && votes[1..][i].adminId == a;
            assert votes[i + 1] == votes[1..][i];
          }
          if exists i :: 1 <= i < |votes| && votes[i].ruleId == ruleId && votes[i].adminId == a {
            var i :| 1 <= i < |votes| && votes[i].ruleId == ruleId && votes[i].adminId == a;
            assert votes[1..][i - 1] == votes[i];
          }
        }
      }
      (if votes[0].ruleId == ruleId then [votes[0].adminId] else []) + rest
  }

  /** `admin_ids` in `notify_rule_decision`: the rule's voters, then its
      creator when `created_by` is truthy (present and not 0). */
  function DecisionAdminIds(votes: seq<Vote>, ruleId: int, createdBy: Option<int>): (r: seq<int>)
    ensures forall a :: a in r <==>
              || (exists i :: 0 <= i < |votes| && votes[i].ruleId == ruleId && votes[i].adminId == a)
              || (createdBy == Some(a) && a != 0)
  {
    VoterIds(votes, ruleId) + (if createdBy.Some? && createdBy.value != 0 then [createdBy.value] else [])
  }

  /** The people a decision reaches: each voter on the rule and the creator
      unless `created_by` is empty or 0. */
  lemma DecisionAdminIdsMembers(votes: seq<Vote>, ruleId: int, createdBy: Option<int>, a: int)
    ensures a in DecisionAdminIds(votes, ruleId, createdBy) <==>
              || HasVoted(votes, ruleId, a)
              || (createdBy == Some(a) && a != 0)
  {
  }

  /** `for admin_id in set(admin_ids)`: each id exactly once. The order a
      Python set iterates in is unspecified; first occurrence is taken. */
  method DistinctIds(ids: seq<int>) returns (order: seq<int>)
    ensures Distinct(order)
    ensures forall a :: a in order <==> a in ids
  {
    order := [];
    for i := 0 to |ids|
      invariant Distinct(order)
      invariant forall a :: a in order <==> a in ids[..i]
    {
      assert ids[..i + 1] == ids[..i] + [ids[i]];
      if ids[i] !in order {
        order := order + [ids[i]];
      }
    }
    assert ids[..|ids|] == ids;
  }

  /** `notify_rule_decision`: one unread notification for each distinct
      voter and the creator, exactly once each; `notified` is the order they
      were sent in. */
  method NotifyRuleDecision(db: Database, ruleId: int, decision: string, voteCount: int)
      returns (notified: seq<int>)
    requires db.Valid() && RuleById(db.rules, ruleId).Some?
    modifies db`notifications, db`nextNotificationId
    ensures db.Valid()
    ensures Distinct(notified)
    ensures forall a :: a in notified <==> a in DecisionAdminIds(db.votes, ruleId, RuleById(db.rules, ruleId).value.createdBy)
    ensures db.notifications == old(db.notifications) +
              Stamp(Drafts(ruleId, notified,
                           DecisionMessage(RuleById(db.rules, ruleId).value.pattern, decision, voteCount)),
                    old(db.nextNotificationId))
    ensures db.nextNotificationId == old(db.nextNotificationId) + |notified|
  {
    var rule := RuleById(db.rules, ruleId).value;
    var message := DecisionMessage(rule.pattern, decision, voteCount);
    notified := DistinctIds(DecisionAdminIds(db.votes, ruleId, rule.createdBy));
    var drafts := Drafts(ruleId, notified, message);
    if |drafts| > 0 {
      db.InsertNotifications(drafts);
    } else {
      assert Stamp(drafts, db.nextNotificationId) == [];
      assert db.notifications + [] == db.notifications;
    }
  }

  // ---------------------------------------------------------------- the workflow

  /** `create_rule_with_approval`: the threshold defaults to 1; a threshold
      of at most 1 makes the rule ACTIVE at once, anything higher makes it
      PENDING and notifies the other admins. The pattern is not validated
      here. */
  method CreateRuleWithApproval(db: Database, req: ApprovalRequest, creatorId: int) returns (rule: Rule)
    requires db.Valid()
    modifies db`rules, db`nextRuleId, db`notifications, db`nextNotificationId
    ensures db.Valid()
    ensures rule.approvalThreshold == req.approvalThreshold.GetOr(1)
    ensures rule.approvalStatus == Active <==> rule.approvalThreshold <= 1
    ensures rule.approvalStatus == Pending <==> rule.approvalThreshold > 1
    ensures rule == Rule(old(db.nextRuleId), req.pattern, req.action, req.priority, req.description,
                         rule.approvalThreshold, rule.approvalStatus, Some(creatorId))
    ensures db.rules == old(db.rules) + [rule] && db.nextRuleId == old(db.nextRuleId) + 1
    ensures rule.approvalStatus == Active ==>
              db.notifications == old(db.notifications) && db.nextNotificationId == old(db.nextNotificationId)
    ensures rule.approvalStatus == Pending ==>
              db.notifications == old(db.notifications) +
                Stamp(Drafts(rule.id, IdsExcept(Admins(db.users), creatorId),
                             ApprovalMessage(req.pattern, rule.approvalThreshold)),
                      old(db.nextNotificationId))
              && db.nextNotificationId == old(db.nextNotificationId) + |IdsExcept(Admins(db.users), creatorId)|
  {
    var threshold := req.approvalThreshold.GetOr(1);
    var status := if threshold <= 1 then Active else Pending;
    ghost var before := db.rules;
    assert forall i :: 0 <= i < |before| ==> before[i].id == RuleIds(before)[i];
    rule := db.InsertRule(req.pattern, req.action, req.priority, req.description, threshold, status, Some(creatorId));
    RuleByIdAppend(before, rule, rule.id);
    if status == Pending {
      NotifyAdminsForApproval(db, rule.id, creatorId);
    }
  }

  /** The decision step of `vote_on_rule`: the ordered threshold checks on the
      recounted tallies; on a decision, the decision notifications, then the
      status update. `notified` is the order the notifications took. */
  method ApplyDecision(db: Database, rule: Rule, approveCount: nat, rejectCount: nat)
      returns (newStatus: ApprovalStatus, notified: seq<int>)
    requires db.Valid()
    requires RuleById(db.rules, rule.id) == Some(rule)
    modifies db`rules, db`notifications, db`nextNotificationId
    ensures db.Valid()
    ensures newStatus == Decide(approveCount, rejectCount, rule.approvalThreshold)
    ensures newStatus == Pending ==>
              db.rules == old(db.rules) && db.notifications == old(db.notifications)
              && db.nextNotificationId == old(db.nextNotificationId)
    ensures newStatus != Pending ==>
              && db.rules == WithStatus(old(db.rules), rule.id, newStatus)
              && Distinct(notified)
              && (forall a :: a in notified <==> a in DecisionAdminIds(db.votes, rule.id, rule.createdBy))
              && db.notifications == old(db.notifications) +
                   Stamp(Drafts(rule.id, notified,
                                DecisionMessage(rule.pattern,
                                                if newStatus == Active then "approved" else "rejected",
                                                if newStatus == Active then approveCount else rejectCount)),
                         old(db.nextNotificationId))
              && db.nextNotificationId == old(db.nextNotificationId) + |notified|
  {
    newStatus := Pending;
    notified := [];
    if approveCount >= rule.approvalThreshold {
      newStatus := Active;
      notified := NotifyRuleDecision(db, rule.id, "approved", approveCount);
    } else if rejectCount >= rule.approvalThreshold {
      newStatus := ApprovalStatus.Rejected;
      notified := NotifyRuleDecision(db, rule.id, "rejected", rejectCount);
    }
    if newStatus != Pending {
      db.rules := WithStatus(db.rules, rule.id, newStatus);
    }
  }

  /** The rest of `vote_on_rule` once its three checks have passed: records
      the vote, recounts both tallies (the new vote included) and decides as
      ApplyDecision states. */
  method RecordVote(db: Database, rule: Rule, adminId: int, vote: VoteType, comment: Option<string>)
      returns (outcome: VoteOutcome, ghost notified: seq<int>)
    requires db.Valid()
    requires RuleById(db.rules, rule.id) == Some(rule)
    requires !HasVoted(db.votes, rule.id, adminId)
    modifies db`rules, db`votes, db`nextVoteId, db`notifications, db`nextNotificationId
    ensures db.Valid()
    ensures db.votes == old(db.votes) + [Vote(old(db.nextVoteId), rule.id, adminId, vote, comment)]
    ensures db.nextVoteId == old(db.nextVoteId) + 1
    ensures outcome.ruleId == rule.id && outcome.yourVote == vote && outcome.threshold == rule.approvalThreshold
    ensures outcome.approveCount == Count(old(db.votes), rule.id, Approve) + (if vote == Approve then 1 else 0)
    ensures outcome.rejectCount == Count(old(db.votes), rule.id, Reject) + (if vote == Reject then 1 else 0)
    ensures outcome.newStatus == Decide(outcome.approveCount, outcome.rejectCount, rule.approvalThreshold)
    ensures outcome.decisionReached <==> outcome.newStatus != Pending
    ensures !outcome.decisionReached ==>
              db.rules == old(db.rules) && db.notifications == old(db.notifications)
              && db.nextNotificationId == old(db.nextNotificationId)
    ensures outcome.decisionReached ==>
              && db.rules == WithStatus(old(db.rules), rule.id, outcome.newStatus)
              && Distinct(notified)
              && (forall a :: a in notified <==> a in DecisionAdminIds(db.votes, rule.id, rule.createdBy))
              && db.notifications == old(db.notifications) +
                   Stamp(Drafts(rule.id, notified,
                                DecisionMessage(rule.pattern,
                                                if outcome.newStatus == Active then "approved" else "rejected",
                                                if outcome.newStatus == Active then outcome.approveCount
                                                else outcome.rejectCount)),
                         old(db.nextNotificationId))
              && db.nextNotificationId == old(db.nextNotificationId) + |notified|
  {
    ghost var votesBefore := db.votes;
    var recorded := db.InsertVote(rule.id, adminId, vote, comment);
    CountAppend(votesBefore, recorded, rule.id, Approve);
    CountAppend(votesBefore, recorded, rule.id, Reject);
    var approveCount := Count(db.votes, rule.id, Approve);
    var rejectCount := Count(db.votes, rule.id, Reject);
    var newStatus;
    newStatus, notified := ApplyDecision(db, rule, approveCount, rejectCount);
    outcome := VoteOutcome(rule.id, vote, approveCount, rejectCount, rule.approvalThreshold,
                           newStatus, newStatus != Pending);
  }

  /** `vote_on_rule`: refuses an unknown rule, a rule that is no longer
      PENDING and a second vote by the same admin, in that order, changing
      nothing; otherwise proceeds as RecordVote states. */
  method VoteOnRule(db: Database, ruleId: int, adminId: int, vote: VoteType, comment: Option<string>)
      returns (res: Result<VoteOutcome>, ghost notified: seq<int>)
    requires db.Valid()
    modifies db`rules, db`votes, db`nextVoteId, db`notifications, db`nextNotificationId
    ensures db.Valid()
    ensures RuleById(old(db.rules), ruleId).None? ==>
              && res == Err(ValueError("Rule not found"))
              && db.rules == old(db.rules) && db.votes == old(db.votes) && db.nextVoteId == old(db.nextVoteId)
              && db.notifications == old(db.notifications) && db.nextNotificationId == old(db.nextNotificationId)
    ensures RuleById(old(db.rules), ruleId).Some? && RuleById(old(db.rules), ruleId).value.approvalStatus != Pending ==>
              && res == Err(ValueError("Rule is already " + StatusValue(RuleById(old(db.rules), ruleId).value.approvalStatus)))
              && db.rules == old(db.rules) && db.votes == old(db.votes) && db.nextVoteId == old(db.nextVoteId)
              && db.notifications == old(db.notifications) && db.nextNotificationId == old(db.nextNotificationId)
    ensures RuleById(old(db.rules), ruleId).Some? && RuleById(old(db.rules), ruleId).value.approvalStatus == Pending
            && HasVoted(old(db.votes), ruleId, adminId) ==>
              && res == Err(ValueError("You have already voted on this rule"))
              && db.rules == old(db.rules) && db.votes == old(db.votes) && db.nextVoteId == old(db.nextVoteId)
              && db.notifications == old(db.notifications) && db.nextNotificationId == old(db.nextNotificationId)
    ensures RuleById(old(db.rules), ruleId).Some? && RuleById(old(db.rules), ruleId).value.approvalStatus == Pending
            && !HasVoted(old(db.votes), ruleId, adminId) ==>
              && res.Ok?
              && db.votes == old(db.votes) + [Vote(old(db.nextVoteId), ruleId, adminId, vote, comment)]
              && db.nextVoteId == old(db.nextVoteId) + 1
              && res.value.ruleId == ruleId && res.value.yourVote == vote
              && res.value.threshold == RuleById(old(db.rules), ruleId).value.approvalThreshold
              && res.value.approveCount == Count(old(db.votes), ruleId, Approve) + (if vote == Approve then 1 else 0)
              && res.value.rejectCount == Count(old(db.votes), ruleId, Reject) + (if vote == Reject then 1 else 0)
              && res.value.newStatus == Decide(res.value.approveCount, res.value.rejectCount,
                                               RuleById(old(db.rules), ruleId).value.approvalThreshold)
              && (res.value.decisionReached <==> res.value.newStatus != Pending)
    ensures RuleById(old(db.rules), ruleId).Some? && RuleById(old(db.rules), ruleId).value.approvalStatus == Pending
            && !HasVoted(old(db.votes), ruleId, adminId) && !res.value.decisionReached ==>
              && db.rules == old(db.rules)
              && db.notifications == old(db.notifications) && db.nextNotificationId == old(db.nextNotificationId)
    ensures RuleById(old(db.rules), ruleId).Some? && RuleById(old(db.rules), ruleId).value.approvalStatus == Pending
            && !HasVoted(old(db.votes), ruleId, adminId) && res.value.decisionReached ==>
              && db.rules == WithStatus(old(db.rules), ruleId, res.value.newStatus)
              && Distinct(notified)
              && (forall a :: a in notified <==>
                    a in DecisionAdminIds(db.votes, ruleId, RuleById(old(db.rules), ruleId).value.createdBy))
              && db.notifications == old(db.notifications) +
                   Stamp(Drafts(ruleId, notified,
                                DecisionMessage(RuleById(old(db.rules), ruleId).value.pattern,
                                                if res.value.newStatus == Active then "approved" else "rejected",
                                                if res.value.newStatus == Active then res.value.approveCount
                                                else res.value.rejectCount)),
                         old(db.nextNotificationId))
              && db.nextNotificationId == old(db.nextNotificationId) + |notified|
  {
    notified := [];
    var found := RuleById(db.rules, ruleId);
    if found.None? {
      res := Err(ValueError("Rule not found"));
      return;
    }
    var rule := found.value;
    if rule.approvalStatus != Pending {
      res := Err(ValueError("Rule is already " + StatusValue(rule.approvalStatus)));
      return;
    }
    if HasVoted(db.votes, ruleId, adminId) {
      res := Err(ValueError("You have already voted on this rule"));
      return;
    }
    var outcome;
    outcome, notified := RecordVote(db, rule, adminId, vote, comment);
    res := Ok(outcome);
  }

  // ---------------------------------------------------------------- listings and read marks

  /** `select("*").eq("approval_status", "PENDING").order("created_at",
      desc=True)`: the pending rules, newest first. */
  function PendingNewestFirst(rules: seq<Rule>): (r: seq<Rule>)
    ensures forall x :: x in r <==> x in rules && x.approvalStatus == Pending
  {
    if |rules| == 0 then []
    else
      var init := rules[..|rules| - 1];
      var last := rules[|rules| - 1];
      assert rules == init + [last];
      (if last.approvalStatus == Pending then [last] else []) + PendingNewestFirst(init)
  }

  /** Newest first: ids strictly decrease along the listing. */
  lemma {:induction false} PendingNewestFirstDescending(rules: seq<Rule>, next: int)
    requires Increasing(RuleIds(rules), next)
    ensures forall i, j :: 0 <= i < j < |PendingNewestFirst(rules)| ==>
              PendingNewestFirst(rules)[i].id > PendingNewestFirst(rules)[j].id
  {
    if |rules| > 0 {
      var init := rules[..|rules| - 1];
      var last := rules[|rules| - 1];
      assert RuleIds(init) == RuleIds(rules)[..|rules| - 1];
      PendingNewestFirstDescending(init, next);
      forall x | x in PendingNewestFirst(init) ensures x.id < last.id {
        var k :| 0 <= k < |init| && init[k] == x;
        assert RuleIds(rules)[k] == x.id && RuleIds(rules)[|rules| - 1] == last.id;
      }
    }
  }

  /** `get_pending_rules`: the pending rules newest first, each with the
      number of APPROVE and REJECT votes it has. */
  method GetPendingRules(db: Database) returns (r: seq<PendingRule>)
    ensures |r| == |PendingNewestFirst(db.rules)|
    ensures forall k :: 0 <= k < |r| ==>
              && r[k].rule == PendingNewestFirst(db.rules)[k]
              && r[k].approvalCount == Count(db.votes, r[k].rule.id, Approve)
              && r[k].rejectionCount == Count(db.votes, r[k].rule.id, Reject)
  {
    var pending := PendingNewestFirst(db.rules);
    r := [];
    for i := 0 to |pending|
      invariant |r| == i
      invariant forall k :: 0 <= k < i ==>
                  && r[k].rule == pending[k]
                  && r[k].approvalCount == Count(db.votes, pending[k].id, Approve)
                  && r[k].rejectionCount == Count(db.votes, pending[k].id, Reject)
    {
      var rule := pending[i];
      r := r + [PendingRule(rule, Count(db.votes, rule.id, Approve), Count(db.votes, rule.id, Reject))];
    }
  }

  /** The notifications table after `update({"is_read": True}).eq("id",
      id).eq("admin_id", adminId)`: only a row matching both is marked read,
      and nothing but the flag changes. */
  function MarkRead(ns: seq<Notification>, id: int, adminId: int): (r: seq<Notification>)
    ensures |r| == |ns|
    ensures forall k :: 0 <= k < |r| ==> r[k].(isRead := ns[k].isRead) == ns[k]
    ensures forall k :: 0 <= k < |r| ==> (r[k].isRead <==> ns[k].isRead || (ns[k].id == id && ns[k].adminId == adminId))
    ensures NotificationIds(r) == NotificationIds(ns)
  {
    var r := seq(|ns|, k requires 0 <= k < |ns| =>
                if ns[k].id == id && ns[k].adminId == adminId then ns[k].(isRead := true) else ns[k]);
    assert NotificationIds(r) == NotificationIds(ns);
    r
  }

  /** `mark_notification_read`. */
  method MarkNotificationRead(db: Database, id: int, adminId: int)
    requires db.Valid()
    modifies db`notifications
    ensures db.Valid()
    ensures db.notifications == MarkRead(old(db.notifications), id, adminId)
  {
    db.notifications := MarkRead(db.notifications, id, adminId);
  }
}
