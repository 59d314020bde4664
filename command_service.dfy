/** CommandService: the submit workflow. A command is refused for an unknown
    user or an empty balance, matched against the rules, rejected when no
    rule or an AUTO_REJECT rule matches, and otherwise charged one credit
    and executed (mock output). Every outcome but an unknown user writes
    exactly one command row and one audit entry; an unknown user is refused
    without a trace. */
module CommandService {
  import opened Models
  import opened Regex
  import opened Store
  import opened UserService
  import opened RuleService

  /** What `process_command` returns (the row's `created_at` is not
      modelled). */
  datatype CommandResult = CommandResult(id: int, status: string, resultMessage: string, action: string, newBalance: int)

  /** `mock_execute`: fake output naming the command. */
  function MockExecute(commandText: string): (r: string)
    ensures |r| > |commandText| && r[|r| - |commandText|..] == commandText
  {
    "Mock execution for command: " + commandText
  }

  /** `f"Command rejected by rule: {description or 'Security policy'}"`:
      Python's `or` falls back on a missing and on an empty description. */
  function RejectionMessage(description: Option<string>): (m: string)
    ensures description.Some? && description.value != "" ==> m == "Command rejected by rule: " + description.value
    ensures description.None? || description.value == "" ==> m == "Command rejected by rule: Security policy"
  {
    "Command rejected by rule: " + (if description.Some? && description.value != "" then description.value else "Security policy")
  }

  /** The common step of the three rejection branches of `process_command`
      (no credits, no matching rule, an AUTO_REJECT rule): log
      COMMAND_REJECTED with the given meta, then store a rejected command
      row. */
  method RecordRejection(db: Database, userId: int, commandText: string, meta: AuditMeta, action: string, message: string)
      returns (command: Command)
    requires db.Valid()
    modifies db`commands, db`nextCommandId, db`audit
    ensures db.Valid()
    ensures db.audit == old(db.audit) + [AuditEntry(userId, CommandRejected, meta)]
    ensures command == Command(old(db.nextCommandId), userId, commandText, CommandStatus.Rejected, action, message)
    ensures db.commands == old(db.commands) + [command] && db.nextCommandId == old(db.nextCommandId) + 1
  {
    db.LogEvent(userId, CommandRejected, meta);
    command := db.InsertCommand(userId, commandText, CommandStatus.Rejected, action, message);
  }

  /** The AUTO_ACCEPT branch of `process_command`, its try block and its
      handler: debit one credit, execute, store the executed command and log
      COMMAND_EXECUTED; when the debit raises, log COMMAND_FAILED with the
      error text and re-raise, writing no command row. */
  method ExecuteAccepted(db: Database, userId: int, commandText: string, rule: Rule) returns (res: Result<CommandResult>)
    requires db.Valid()
    modifies db`users, db`commands, db`nextCommandId, db`audit
    ensures db.Valid()
    ensures GetUserById(old(db.users), userId).None? ==>
              && res == Err(Exception("User not found"))
              && db.audit == old(db.audit) + [AuditEntry(userId, CommandFailed, Failure(commandText, "User not found"))]
              && db.commands == old(db.commands) && db.nextCommandId == old(db.nextCommandId) && db.users == old(db.users)
    ensures GetUserById(old(db.users), userId).Some? && GetUserById(old(db.users), userId).value.credits <= 0 ==>
              && res == Err(Exception("Insufficient credits"))
              && db.audit == old(db.audit) + [AuditEntry(userId, CommandFailed, Failure(commandText, "Insufficient credits"))]
              && db.commands == old(db.commands) && db.nextCommandId == old(db.nextCommandId) && db.users == old(db.users)
    ensures GetUserById(old(db.users), userId).Some? && GetUserById(old(db.users), userId).value.credits > 0 ==>
              && res == Ok(CommandResult(old(db.nextCommandId), "executed", MockExecute(commandText), ActionValue(rule.action),
                                         GetUserById(old(db.users), userId).value.credits - 1))
              && db.commands == old(db.commands) +
                   [Command(old(db.nextCommandId), userId, commandText, Executed, ActionValue(rule.action), MockExecute(commandText))]
              && db.nextCommandId == old(db.nextCommandId) + 1
              && db.audit == old(db.audit) +
                   [AuditEntry(userId, CommandExecuted,
                               Charged(commandText, rule.id, rule.description, GetUserById(old(db.users), userId).value.credits - 1))]
              && db.users == WithCredits(old(db.users), userId, GetUserById(old(db.users), userId).value.credits - 1)
  {
    ghost var user := GetUserById(db.users, userId);
    var debit := DeductCredit(db, userId);
    match debit
    case Err(e) =>
      assert user.None? || user.value.credits <= 0;
      db.LogEvent(userId, CommandFailed, Failure(commandText, e.Text()));
      res := Err(e);
    case Ok(newBalance) =>
      assert user.Some? && user.value.credits > 0 && newBalance == user.value.credits - 1;
      var output := MockExecute(commandText);
      var command := db.InsertCommand(userId, commandText, Executed, ActionValue(rule.action), output);
      db.LogEvent(userId, CommandExecuted, Charged(commandText, rule.id, rule.description, newBalance));
      res := Ok(CommandResult(command.id, "executed", output, ActionValue(rule.action), newBalance));
  }

  /** What one submission writes: the call's result, the command row and
      audit entry it appends (if any), and the balance it writes back when
      it charges a credit. */
  datatype Effect = Effect(result: Result<CommandResult>, command: Option<Command>, entry: Option<AuditEntry>, debit: Option<int>)

  /** The users table after a submission: the debited balance written to
      the user's row, or the table unchanged. */
  function Ledger(users: seq<User>, userId: int, debit: Option<int>): (r: seq<User>)
    ensures UserIds(r) == UserIds(users)
    ensures debit.None? ==> r == users
  {
    if debit.Some? then WithCredits(users, userId, debit.value) else users
  }

  /** Row by row: a debit touches only the credits of the submitter's rows. */
  lemma LedgerRows(users: seq<User>, userId: int, debit: Option<int>, i: nat)
    requires i < |users|
    ensures |Ledger(users, userId, debit)| == |users|
    ensures Ledger(users, userId, debit)[i].(credits := users[i].credits) == users[i]
    ensures users[i].id != userId ==> Ledger(users, userId, debit)[i] == users[i]
    ensures debit.Some? && users[i].id == userId ==> Ledger(users, userId, debit)[i].credits == debit.value
  {
    assert |UserIds(Ledger(users, userId, debit))| == |UserIds(users)|;
  }

  /** The rows an optional insert adds. */
  function Rows<T>(o: Option<T>): seq<T> {
    if o.Some? then [o.value] else []
  }

  /** The specification of `process_command` for a user lookup, a match
      result and the id the next command row gets: the credit check comes
      first, then no-rule, then AUTO_REJECT, then AUTO_ACCEPT. */
  function Submission(user: Option<User>, matched: Option<Rule>, userId: int, commandText: string, id: int): (r: Effect)
    ensures r.result.Err? ==> r.debit.None? && r.result.error.Exception?
    ensures r.result.Ok? ==> user.Some? && user.value.credits > 0
  {
    match user
    case None => Effect(Err(Exception("User not found")), None, None, None)
    case Some(u) =>
      if u.credits <= 0 then
        Effect(Err(Exception("Insufficient credits")),
               Some(Command(id, userId, commandText, CommandStatus.Rejected, "NO_CREDITS", "Insufficient credits")),
               Some(AuditEntry(userId, CommandRejected, Reason(commandText, "No credits"))), None)
      else match matched
        case None =>
          Effect(Ok(CommandResult(id, "rejected", "No matching rule found", "NO_RULE", u.credits)),
                 Some(Command(id, userId, commandText, CommandStatus.Rejected, "NO_RULE", "No matching rule found")),
                 Some(AuditEntry(userId, CommandRejected, Reason(commandText, "No matching rule"))), None)
        case Some(rule) =>
          if rule.action == AutoReject then
            Effect(Ok(CommandResult(id, "rejected", RejectionMessage(rule.description), "AUTO_REJECT", u.credits)),
                   Some(Command(id, userId, commandText, CommandStatus.Rejected, "AUTO_REJECT", RejectionMessage(rule.description))),
                   Some(AuditEntry(userId, CommandRejected, RuleHit(commandText, rule.id, rule.description))), None)
          else
            Effect(Ok(CommandResult(id, "executed", MockExecute(commandText), "AUTO_ACCEPT", u.credits - 1)),
                   Some(Command(id, userId, commandText, Executed, "AUTO_ACCEPT", MockExecute(commandText))),
                   Some(AuditEntry(userId, CommandExecuted, Charged(commandText, rule.id, rule.description, u.credits - 1))),
                   Some(u.credits - 1))
  }

  /** The two rejecting outcomes for a user with credits: no rule matched,
      or an AUTO_REJECT rule did. A COMMAND_REJECTED entry and a rejected
      row are written, as Submission states, and no balance changes. */
  method RejectCommand(db: Database, user: User, commandText: string, matched: Option<Rule>)
      returns (res: Result<CommandResult>)
    requires db.Valid()
    requires user.credits > 0
    requires matched.None? || matched.value.action == AutoReject
    modifies db`commands, db`nextCommandId, db`audit
    ensures db.Valid()
    ensures res == Submission(Some(user), matched, user.id, commandText, old(db.nextCommandId)).result
    ensures db.commands == old(db.commands) + Rows(Submission(Some(user), matched, user.id, commandText, old(db.nextCommandId)).command)
    ensures db.audit == old(db.audit) + Rows(Submission(Some(user), matched, user.id, commandText, old(db.nextCommandId)).entry)
    ensures Submission(Some(user), matched, user.id, commandText, old(db.nextCommandId)).debit.None?
    ensures db.nextCommandId == old(db.nextCommandId) + 1
  {
    ghost var id := db.nextCommandId;
    ghost var effect := Submission(Some(user), matched, user.id, commandText, id);
    match matched
    case None =>
      assert effect == Effect(Ok(CommandResult(id, "rejected", "No matching rule found", "NO_RULE", user.credits)),
                              Some(Command(id, user.id, commandText, CommandStatus.Rejected, "NO_RULE", "No matching rule found")),
                              Some(AuditEntry(user.id, CommandRejected, Reason(commandText, "No matching rule"))), None);
      var command := RecordRejection(db, user.id, commandText, Reason(commandText, "No matching rule"),
                                     "NO_RULE", "No matching rule found");
      res := Ok(CommandResult(command.id, "rejected", "No matching rule found", "NO_RULE", user.credits));
    case Some(rule) =>
      var message := RejectionMessage(rule.description);
      assert effect == Effect(Ok(CommandResult(id, "rejected", message, "AUTO_REJECT", user.credits)),
                              Some(Command(id, user.id, commandText, CommandStatus.Rejected, "AUTO_REJECT", message)),
                              Some(AuditEntry(user.id, CommandRejected, RuleHit(commandText, rule.id, rule.description))), None);
      var command := RecordRejection(db, user.id, commandText, RuleHit(commandText, rule.id, rule.description),
                                     ActionValue(rule.action), message);
      res := Ok(CommandResult(command.id, "rejected", message, ActionValue(rule.action), user.credits));
  }

  /** The accepting outcome for a user with credits: an AUTO_ACCEPT rule
      matched, so one credit is charged and the command executed, as
      Submission states. */
  method AcceptCommand(db: Database, user: User, commandText: string, rule: Rule) returns (res: Result<CommandResult>)
    requires db.Valid()
    requires GetUserById(db.users, user.id) == Some(user) && user.credits > 0
    requires rule.action != AutoReject
    modifies db`users, db`commands, db`nextCommandId, db`audit
    ensures db.Valid()
    ensures res == Submission(Some(user), Some(rule), user.id, commandText, old(db.nextCommandId)).result
    ensures db.commands == old(db.commands) + Rows(Submission(Some(user), Some(rule), user.id, commandText, old(db.nextCommandId)).command)
    ensures db.audit == old(db.audit) + Rows(Submission(Some(user), Some(rule), user.id, commandText, old(db.nextCommandId)).entry)
    ensures db.users == Ledger(old(db.users), user.id, Submission(Some(user), Some(rule), user.id, commandText, old(db.nextCommandId)).debit)
    ensures db.nextCommandId == old(db.nextCommandId) + 1
  {
    ghost var id := db.nextCommandId;
    ghost var users := db.users;
    ghost var effect := Submission(Some(user), Some(rule), user.id, commandText, id);
    assert effect == Effect(Ok(CommandResult(id, "executed", MockExecute(commandText), "AUTO_ACCEPT", user.credits - 1)),
                            Some(Command(id, user.id, commandText, Executed, "AUTO_ACCEPT", MockExecute(commandText))),
                            Some(AuditEntry(user.id, CommandExecuted,
                                            Charged(commandText, rule.id, rule.description, user.credits - 1))),
                            Some(user.credits - 1));
    res := ExecuteAccepted(db, user.id, commandText, rule);
    assert db.users == WithCredits(users, user.id, user.credits - 1) == Ledger(users, user.id, effect.debit);
  }

  /** `process_command` after the credit check: match the command, then
      reject it (no rule, or an AUTO_REJECT rule) or execute it, as
      Submission states for a user with a positive balance. */
  method Dispatch(db: Database, re: Engine, user: User, commandText: string) returns (res: Result<CommandResult>)
    requires db.Valid()
    requires GetUserById(db.users, user.id) == Some(user) && user.credits > 0
    modifies db`users, db`commands, db`nextCommandId, db`audit
    ensures db.Valid()
    ensures res == Submission(Some(user), Match(re, db.rules, commandText), user.id, commandText, old(db.nextCommandId)).result
    ensures db.commands == old(db.commands) +
              Rows(Submission(Some(user), Match(re, db.rules, commandText), user.id, commandText, old(db.nextCommandId)).command)
    ensures db.nextCommandId == old(db.nextCommandId) + 1
    ensures db.audit == old(db.audit) +
              Rows(Submission(Some(user), Match(re, db.rules, commandText), user.id, commandText, old(db.nextCommandId)).entry)
    ensures db.users == Ledger(old(db.users), user.id,
              Submission(Some(user), Match(re, db.rules, commandText), user.id, commandText, old(db.nextCommandId)).debit)
  {
    var matched := MatchCommand(db, re, commandText);
    if matched.Some? && matched.value.action != AutoReject {
      res := AcceptCommand(db, user, commandText, matched.value);
    } else {
      res := RejectCommand(db, user, commandText, matched);
    }
  }

  /** `process_command`: the user lookup and the credit check, then Dispatch,
      as Submission states. With the balance checked first the debit inside
      the AUTO_ACCEPT branch cannot fail, so the COMMAND_FAILED entry of
      ExecuteAccepted is never written here. */
  method ProcessCommand(db: Database, re: Engine, userId: int, commandText: string) returns (res: Result<CommandResult>)
    requires db.Valid()
    modifies db`users, db`commands, db`nextCommandId, db`audit
    ensures db.Valid()
    ensures res == Submission(GetUserById(old(db.users), userId), Match(re, db.rules, commandText),
                              userId, commandText, old(db.nextCommandId)).result
    ensures db.commands == old(db.commands) +
              Rows(Submission(GetUserById(old(db.users), userId), Match(re, db.rules, commandText),
                              userId, commandText, old(db.nextCommandId)).command)
    ensures db.nextCommandId == old(db.nextCommandId) +
              |Rows(Submission(GetUserById(old(db.users), userId), Match(re, db.rules, commandText),
                               userId, commandText, old(db.nextCommandId)).command)|
    ensures db.audit == old(db.audit) +
              Rows(Submission(GetUserById(old(db.users), userId), Match(re, db.rules, commandText),
                              userId, commandText, old(db.nextCommandId)).entry)
    ensures db.users == Ledger(old(db.users), userId,
              Submission(GetUserById(old(db.users), userId), Match(re, db.rules, commandText),
                         userId, commandText, old(db.nextCommandId)).debit)
  {
    var user := GetUserById(db.users, userId);
    ghost var matched := Match(re, db.rules, commandText);
    ghost var effect := Submission(user, matched, userId, commandText, db.nextCommandId);
    if user.None? {
      assert effect == Effect(Err(Exception("User not found")), None, None, None);
      res := Err(Exception("User not found"));
      return;
    }
    if user.value.credits <= 0 {
      assert effect == Effect(Err(Exception("Insufficient credits")),
                              Some(Command(db.nextCommandId, userId, commandText, CommandStatus.Rejected, "NO_CREDITS", "Insufficient credits")),
                              Some(AuditEntry(userId, CommandRejected, Reason(commandText, "No credits"))), None);
      var _ := RecordRejection(db, userId, commandText, Reason(commandText, "No credits"), "NO_CREDITS", "Insufficient credits");
      res := Err(Exception("Insufficient credits"));
      return;
    }
    assert effect == Submission(Some(user.value), matched, user.value.id, commandText, db.nextCommandId);
    res := Dispatch(db, re, user.value, commandText);
  }

  /** Only an unknown user writes nothing. Every other submission appends
      exactly one command row, taking the next id and naming the user and
      the command, and one audit entry, which is never COMMAND_FAILED; a
      result that returns describes that very row. */
  lemma SubmissionRows(user: Option<User>, matched: Option<Rule>, userId: int, commandText: string, id: int)
    ensures Submission(user, matched, userId, commandText, id).command.None? <==> user.None?
    ensures Submission(user, matched, userId, commandText, id).entry.None? <==> user.None?
    ensures var e := Submission(user, matched, userId, commandText, id);
            e.command.Some? ==> e.command.value.id == id && e.command.value.userId == userId &&
                                e.command.value.commandText == commandText
    ensures var e := Submission(user, matched, userId, commandText, id);
            e.entry.Some? ==> e.entry.value.userId == userId && e.entry.value.event != CommandFailed &&
                              e.entry.value.meta.command == commandText
    ensures var e := Submission(user, matched, userId, commandText, id);
            e.result.Ok? ==> && e.command.Some? && e.result.value.id == e.command.value.id
                             && e.result.value.action == e.command.value.action
                             && e.result.value.resultMessage == e.command.value.resultMessage
                             && (e.result.value.status == "executed" <==> e.command.value.status == Executed)
  {
  }

  /** A credit is charged exactly when a user with a positive balance
      submits a command whose matching rule is AUTO_ACCEPT. The balance
      written back is one less, so never negative, and the balance the call
      reports is the one the user then has; a result reports "executed"
      exactly when a credit was charged. */
  lemma SubmissionCharges(user: Option<User>, matched: Option<Rule>, userId: int, commandText: string, id: int)
    ensures var e := Submission(user, matched, userId, commandText, id);
            e.debit.Some? <==> user.Some? && user.value.credits > 0 && matched.Some? && matched.value.action == AutoAccept
    ensures var e := Submission(user, matched, userId, commandText, id);
            e.debit.Some? ==> e.debit.value == user.value.credits - 1 >= 0 && e.result.Ok? &&
                              e.result.value.newBalance == e.debit.value
    ensures var e := Submission(user, matched, userId, commandText, id);
            e.result.Ok? ==> && e.result.value.newBalance == user.value.credits - (if e.debit.Some? then 1 else 0)
                             && (e.result.value.status == "executed" <==> e.debit.Some?)
  {
    assert "rejected"[0] != "executed"[0];
  }

  /** Refusals come first: an unknown user is refused with no write, and a
      user without credits is refused before any rule is consulted, with a
      NO_CREDITS row whatever the rules say. */
  lemma SubmissionRefusals(user: Option<User>, matched: Option<Rule>, other: Option<Rule>, userId: int, commandText: string, id: int)
    ensures user.None? ==> Submission(user, matched, userId, commandText, id) ==
                           Effect(Err(Exception("User not found")), None, None, None)
    ensures user.Some? && user.value.credits <= 0 ==>
              && Submission(user, matched, userId, commandText, id) == Submission(user, other, userId, commandText, id)
              && Submission(user, matched, userId, commandText, id).result == Err(Exception("Insufficient credits"))
              && Submission(user, matched, userId, commandText, id).command.value.action == "NO_CREDITS"
  {
  }

  /** The users table after a submission: the submitting user's row reads
      back with the balance the call reported, and every other user's row
      reads back unchanged. */
  lemma SubmissionLedger(users: seq<User>, matched: Option<Rule>, userId: int, commandText: string, id: int, other: int)
    ensures var e := Submission(GetUserById(users, userId), matched, userId, commandText, id);
            e.result.Ok? ==> GetUserById(Ledger(users, userId, e.debit), userId) ==
                             Some(GetUserById(users, userId).value.(credits := e.result.value.newBalance))
    ensures var e := Submission(GetUserById(users, userId), matched, userId, commandText, id);
            other != userId ==> GetUserById(Ledger(users, userId, e.debit), other) == GetUserById(users, other)
  {
    var e := Submission(GetUserById(users, userId), matched, userId, commandText, id);
    SubmissionCharges(GetUserById(users, userId), matched, userId, commandText, id);
    if e.debit.Some? {
      WithCreditsLookup(users, userId, e.debit.value, userId);
      WithCreditsLookup(users, userId, e.debit.value, other);
    }
  }

  /** No submission drives a balance below zero: if every balance is
      non-negative before, every balance is non-negative after. */
  lemma SubmissionKeepsBalances(users: seq<User>, matched: Option<Rule>, userId: int, commandText: string, id: int)
    requires forall i :: 0 <= i < |users| ==> users[i].credits >= 0
    ensures var e := Submission(GetUserById(users, userId), matched, userId, commandText, id);
            forall i :: 0 <= i < |Ledger(users, userId, e.debit)| ==> Ledger(users, userId, e.debit)[i].credits >= 0
  {
  }

  /** `get_user_commands`: `select("*").eq("user_id", userId).order(
      "created_at", desc=True)`, the user's commands newest first. */
  function GetUserCommands(commands: seq<Command>, userId: int): (r: seq<Command>)
    ensures forall c :: c in r <==> c in commands && c.userId == userId
  {
    if |commands| == 0 then []
    else
      var init := commands[..|commands| - 1];
      var last := commands[|commands| - 1];
      assert commands == init + [last];
      (if last.userId == userId then [last] else []) + GetUserCommands(init, userId)
  }

  /** Newest first: ids strictly decrease along the history. */
  lemma {:induction false} GetUserCommandsNewestFirst(commands: seq<Command>, next: int, userId: int)
    requires Increasing(CommandIds(commands), next)
    ensures forall i, j :: 0 <= i < j < |GetUserCommands(commands, userId)| ==>
              GetUserCommands(commands, userId)[i].id > GetUserCommands(commands, userId)[j].id
  {
    if |commands| > 0 {
      var init := commands[..|commands| - 1];
      var last := commands[|commands| - 1];
      assert CommandIds(init) == CommandIds(commands)[..|commands| - 1];
      GetUserCommandsNewestFirst(init, next, userId);
      forall c | c in GetUserCommands(init, userId) ensures c.id < last.id {
        var k :| 0 <= k < |init| && init[k] == c;
        assert CommandIds(commands)[k] == c.id && CommandIds(commands)[|commands| - 1] == last.id;
      }
    }
  }
}
