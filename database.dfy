/** The in-memory store that stands in for the gateway's Supabase tables.
    Each table is a sequence of rows in insertion order; each table that has
    an id column takes the next id from its own counter, so table order is
    creation (`created_at`) order and ids strictly increase along a table. */
module Store {
  import opened Models

  /** Ids strictly increase along the table and all lie below the counter
      that hands out the next one. */
  ghost predicate Increasing(ids: seq<int>, next: int) {
    && (forall i, j :: 0 <= i < j < |ids| ==> ids[i] < ids[j])
    && (forall i :: 0 <= i < |ids| ==> ids[i] < next)
  }

  lemma IncreasingAppend(ids: seq<int>, next: int)
    requires Increasing(ids, next)
    ensures Increasing(ids + [next], next + 1)
  {
  }

  lemma IncreasingAppendAll(ids: seq<int>, next: int, n: nat)
    requires Increasing(ids, next)
    ensures Increasing(ids + seq(n, k => next + k), next + n)
  {
  }

  function UserIds(t: seq<User>): seq<int> {
    seq(|t|, i requires 0 <= i < |t| => t[i].id)
  }

  function RuleIds(t: seq<Rule>): seq<int> {
    seq(|t|, i requires 0 <= i < |t| => t[i].id)
  }

  function VoteIds(t: seq<Vote>): seq<int> {
    seq(|t|, i requires 0 <= i < |t| => t[i].id)
  }

  function NotificationIds(t: seq<Notification>): seq<int> {
    seq(|t|, i requires 0 <= i < |t| => t[i].id)
  }

  function CommandIds(t: seq<Command>): seq<int> {
    seq(|t|, i requires 0 <= i < |t| => t[i].id)
  }

  /** Some vote for this rule by this admin is already recorded. */
  predicate HasVoted(votes: seq<Vote>, ruleId: int, adminId: int) {
    exists i :: 0 <= i < |votes| && votes[i].ruleId == ruleId && votes[i].adminId == adminId
  }

  /** At most one vote per (rule, admin) pair. */
  ghost predicate OneVotePerAdmin(votes: seq<Vote>) {
    forall i, j :: 0 <= i < j < |votes| ==>
      !(votes[i].ruleId == votes[j].ruleId && votes[i].adminId == votes[j].adminId)
  }

  /** The rows the notifications table makes of a batch insert: consecutive
      ids from `first`, unread. */
  function Stamp(drafts: seq<NotificationDraft>, first: int): seq<Notification> {
    seq(|drafts|, k requires 0 <= k < |drafts| =>
      Notification(first + k, drafts[k].ruleId, drafts[k].adminId, drafts[k].message, false))
  }

  class Database {
    var users: seq<User>
    var rules: seq<Rule>
    var votes: seq<Vote>
    var notifications: seq<Notification>
    var commands: seq<Command>
    var audit: seq<AuditEntry>
    var nextUserId: int
    var nextRuleId: int
    var nextVoteId: int
    var nextNotificationId: int
    var nextCommandId: int

    /** The column defaults the rules table applies to the approval columns
        that a plain rule insert leaves unset. */
    const ruleDefaultThreshold: int
    const ruleDefaultStatus: ApprovalStatus

    ghost predicate Valid()
      reads this
    {
      && Increasing(UserIds(users), nextUserId)
      && Increasing(RuleIds(rules), nextRuleId)
      && Increasing(VoteIds(votes), nextVoteId)
      && Increasing(NotificationIds(notifications), nextNotificationId)
      && Increasing(CommandIds(commands), nextCommandId)
      && OneVotePerAdmin(votes)
    }

    constructor (defaultThreshold: int, defaultStatus: ApprovalStatus)
      ensures Valid()
      ensures users == [] && rules == [] && votes == [] && notifications == [] && commands == [] && audit == []
      ensures nextUserId == 1 && nextRuleId == 1 && nextVoteId == 1 && nextNotificationId == 1 && nextCommandId == 1
      ensures ruleDefaultThreshold == defaultThreshold && ruleDefaultStatus == defaultStatus
    {
      users, rules, votes, notifications, commands, audit := [], [], [], [], [], [];
      nextUserId, nextRuleId, nextVoteId, nextNotificationId, nextCommandId := 1, 1, 1, 1, 1;
      ruleDefaultThreshold, ruleDefaultStatus := defaultThreshold, defaultStatus;
    }

    /** `table("users").insert(...)`: the row gets the next user id. */
    method InsertUser(name: string, apiKey: string, role: UserRole, credits: int) returns (u: User)
      requires Valid()
      modifies this`users, this`nextUserId
      ensures Valid()
      ensures u == User(old(nextUserId), name, apiKey, role, credits)
      ensures users == old(users) + [u] && nextUserId == old(nextUserId) + 1
    {
      u := User(nextUserId, name, apiKey, role, credits);
      assert UserIds(users + [u]) == UserIds(users) + [u.id];
      IncreasingAppend(UserIds(users), nextUserId);
      users := users + [u];
      nextUserId := nextUserId + 1;
    }

    /** `table("rules").insert(...)`: the row gets the next rule id. */
    method InsertRule(pattern: string, action: RuleAction, priority: int, description: Option<string>,
                      threshold: int, status: ApprovalStatus, createdBy: Option<int>) returns (r: Rule)
      requires Valid()
      modifies this`rules, this`nextRuleId
      ensures Valid()
      ensures r == Rule(old(nextRuleId), pattern, action, priority, description, threshold, status, createdBy)
      ensures rules == old(rules) + [r] && nextRuleId == old(nextRuleId) + 1
    {
      r := Rule(nextRuleId, pattern, action, priority, description, threshold, status, createdBy);
      assert RuleIds(rules + [r]) == RuleIds(rules) + [r.id];
      IncreasingAppend(RuleIds(rules), nextRuleId);
      rules := rules + [r];
      nextRuleId := nextRuleId + 1;
    }

    /** `table("rule_votes").insert(...)`, for an admin who has not voted on
        the rule yet. */
    method InsertVote(ruleId: int, adminId: int, vote: VoteType, comment: Option<string>) returns (v: Vote)
      requires Valid() && !HasVoted(votes, ruleId, adminId)
      modifies this`votes, this`nextVoteId
      ensures Valid()
      ensures v == Vote(old(nextVoteId), ruleId, adminId, vote, comment)
      ensures votes == old(votes) + [v] && nextVoteId == old(nextVoteId) + 1
    {
      v := Vote(nextVoteId, ruleId, adminId, vote, comment);
      assert VoteIds(votes + [v]) == VoteIds(votes) + [v.id];
      IncreasingAppend(VoteIds(votes), nextVoteId);
      votes := votes + [v];
      nextVoteId := nextVoteId + 1;
    }

    /** `table("rule_notifications").insert(drafts)`: one row per draft, in
        order, each unread. */
    method InsertNotifications(drafts: seq<NotificationDraft>)
      requires Valid()
      modifies this`notifications, this`nextNotificationId
      ensures Valid()
      ensures notifications == old(notifications) + Stamp(drafts, old(nextNotificationId))
      ensures nextNotificationId == old(nextNotificationId) + |drafts|
    {
      var first := nextNotificationId;
      assert NotificationIds(notifications + Stamp(drafts, first))
          == NotificationIds(notifications) + seq(|drafts|, k => first + k);
      IncreasingAppendAll(NotificationIds(notifications), first, |drafts|);
      notifications := notifications + Stamp(drafts, nextNotificationId);
      nextNotificationId := nextNotificationId + |drafts|;
    }

    /** `table("commands").insert(...)`: the row gets the next command id. */
    method InsertCommand(userId: int, commandText: string, status: CommandStatus, action: string,
                         resultMessage: string) returns (c: Command)
      requires Valid()
      modifies this`commands, this`nextCommandId
      ensures Valid()
      ensures c == Command(old(nextCommandId), userId, commandText, status, action, resultMessage)
      ensures commands == old(commands) + [c] && nextCommandId == old(nextCommandId) + 1
    {
      c := Command(nextCommandId, userId, commandText, status, action, resultMessage);
      assert CommandIds(commands + [c]) == CommandIds(commands) + [c.id];
      IncreasingAppend(CommandIds(commands), nextCommandId);
      commands := commands + [c];
      nextCommandId := nextCommandId + 1;
    }

    /** `AuditService.log_event`: append one entry to the audit log. */
    method LogEvent(userId: int, event: AuditEvent, meta: AuditMeta)
      requires Valid()
      modifies this`audit
      ensures Valid()
      ensures audit == old(audit) + [AuditEntry(userId, event, meta)]
    {
      audit := audit + [AuditEntry(userId, event, meta)];
    }
  }
}
