# Command gateway authorization core, in Dafny

The command gateway accepts shell-like commands from users holding API keys. It checks each command against a table of regex rules and then executes it (mock output, one credit charged) or rejects it. Every outcome except an unknown user is recorded in a command history and an audit log; a submission from an unknown user id is refused without a trace.

Admins manage the rules. A plain rule is created directly. A rule created through the approval workflow starts PENDING when its approval threshold is above one; admins then vote on it until approvals (checked first) or rejections reach the threshold. Notifications go to the admins concerned.

This project models that backend core as a sequential state machine over in-memory tables and proves what each operation promises. The modules are:

- `Models` (`models.dfy`) holds the records and enumerations of the tables. It also holds the error values the services raise (`ValueError`, `Exception`, `HTTPException` with its status) and Python's `str` on integers.
- `Regex` (`regex.dfy`) stands for Python's `re`. It is an abstract engine: one function says whether a pattern compiles (and with what message if not), and another says whether `re.search` finds the pattern in a text. No regex semantics are modelled.
  - `Compiles` and `Searches` are the two predicates the rule engine uses.
  - A pattern that does not compile never searches successfully, because `re.search` raises on it.
- `Store` (`database.dfy`) replaces the database tables with the class `Store.Database`.
  - It has one sequence field per table (users, rules, votes, notifications, commands, audit log) and one id counter per table.
  - `Valid()` says that ids strictly increase along every table, so table order is creation order, and that no admin has two votes on one rule.
  - Each insert method preserves `Valid()`.
- `UserService` (`user_service.dfy`) covers API-key generation, user creation and lookup, absolute balance updates and the one-credit debit.
- `RuleService` (`rule_service.dfy`) covers regex validation, rule creation, the priority-ordered listing, first-match evaluation and deletion. It also holds the five-rule walkthrough table and its expected verdicts.
- `VotingService` (`voting_service.dfy`) covers approval-rule creation, the vote state machine, the recount, the ordered threshold checks, the two notification fan-outs, the pending listing and read marks.
- `CommandService` (`command_service.dfy`) covers the submit workflow and the per-user history.
  - `Submission` is the pure specification of one submission: its result, the command row and audit entry it appends, and the balance it writes back.
  - `ProcessCommand` is proved to do exactly what `Submission` says. The lemmas about `Submission` state the workflow's promises.
- `Auth` (`auth.dfy`) covers API-key authentication and the admin gate. It is pure.

Operations that change tables are methods on a `Database`, framed field by field (`modifies db`rules`). Each states its whole new state, every framed field (the id counters too) and every refusal included, in terms of functions on the old one (`WithCredits`, `WithStatus`, `WithoutRule`, `MarkRead`, `Stamp`, `Drafts`), and lemmas state what those functions mean. The one part not stated is the order of the decision notifications, which the methods return as a sequence (a ghost one in RecordVote and VoteOnRule) and pin only up to their set of recipients (see Left out). Lookups, orderings and tallies are functions with lemmas.

Where the gateway's design text and its code differ, the model follows the code:

- `create_rule` writes no approval columns and no audit entry.
- `match_command` consults every stored rule whatever its approval status.
- `delete_rule` writes no audit entry.
- `update_credits` accepts any balance, negative ones included.

## Model

| member | source | states |
|---|---|---|
| UserService.GenerateApiKey | backend/app/services/user_service.py:9-11 | the key is `cgw_` followed by exactly the random token, so it always begins with the prefix |
| UserService.GetUserById | backend/app/services/user_service.py:33-40 | None exactly when no row has the id; otherwise a row of the table with that id |
| UserService.GetUserByIdIsFirst | backend/app/services/user_service.py:35-40 | the row returned is the first row carrying the id (`data[0]`) |
| UserService.WithCredits | backend/app/services/user_service.py:51 | the update keeps every row's id, so the table stays id-ordered |
| UserService.WithCreditsLookup | backend/app/services/user_service.py:49-56 | after the update the target user reads back with exactly the new balance, and every other user reads back unchanged |
| UserService.WithCreditsAbsent | backend/app/services/user_service.py:51-54 | an update on an absent id changes nothing |
| UserService.GetUserByIdAppend | backend/app/services/user_service.py:25-30 | a newly inserted row is found by its id unless an earlier row carries it |
| UserService.UserCreateDefaults | backend/app/models/user.py:19-22 | a user-creation request defaults to role member and ten credits |
| UserService.CreateUser | backend/app/services/user_service.py:14-30 | stores the given name, role and credits with a key generated from the token and the next id; the new user is then found by its id |
| UserService.UpdateCredits | backend/app/services/user_service.py:49-56 | sets the balance to exactly the given value with no sign check; raises "Failed to update credits" with nothing changed when the id is absent |
| UserService.DeductCredit | backend/app/services/user_service.py:59-70 | an unknown user or a balance ≤ 0 raises with nothing changed; otherwise returns old − 1 (≥ 0), which is then the stored balance |
| RuleService.ValidateRegex | backend/app/services/rule_service.py:9-15 | valid exactly when the pattern compiles; the message is present exactly when it does not, and is the compiler's message |
| RuleService.CreateRule | backend/app/services/rule_service.py:18-36 | a non-compiling pattern raises ValueError "Invalid regex pattern: …" and inserts nothing; otherwise exactly one rule with the given pattern, action, priority and description is appended |
| RuleService.InsertByPriority | backend/app/services/rule_service.py:41 | one more element, and exactly the old elements plus the new one |
| RuleService.InsertKeepsSorted | backend/app/services/rule_service.py:41 | inserting into a priority-sorted list keeps it sorted |
| RuleService.InsertPermutes | backend/app/services/rule_service.py:41 | inserting adds the element to the multiset and nothing else |
| RuleService.InsertKeepsTies | backend/app/services/rule_service.py:41 | inserting a rule older than all others keeps (priority, id) order |
| RuleService.GetAllRules | backend/app/services/rule_service.py:39-42 | the listing holds the same rules as the table, same count, ascending by priority |
| RuleService.GetAllRulesPermutes | backend/app/services/rule_service.py:39-42 | the listing is a permutation of the table |
| RuleService.GetAllRulesStable | backend/app/services/rule_service.py:41 | with ids increasing along the table, equal priorities are listed oldest first |
| RuleService.GetAllRulesOfSorted | backend/app/services/rule_service.py:41 | a table already in priority order is listed unchanged |
| RuleService.FirstMatch | backend/app/services/rule_service.py:55-63 | a result is a listed rule whose pattern searches the text; None exactly when no listed rule's pattern does |
| RuleService.FirstMatchAt | backend/app/services/rule_service.py:55-58 | the rule at position i is returned when it matches and no earlier one does |
| RuleService.FirstMatchIsEarliest | backend/app/services/rule_service.py:55-58 | the returned rule has no matching rule before it in the list |
| RuleService.Match | backend/app/services/rule_service.py:51-63 | a returned rule is a stored rule whose pattern searches the text |
| RuleService.MatchNone | backend/app/services/rule_service.py:51-63 | no rule is returned exactly when no stored rule with a compilable pattern searches the text |
| RuleService.MatchIsLowestPriority | backend/app/services/rule_service.py:51-58 | the returned rule is stored, matches, and has the lowest priority value of all matching rules, whatever their approval status |
| RuleService.MatchTieBreak | backend/app/services/rule_service.py:41 | some rule is returned whenever one matches; among equal priorities the oldest matching rule wins |
| RuleService.MatchCommand | backend/app/services/rule_service.py:51-63 | the loop returns exactly the first match in priority order, skipping non-compiling patterns, or None |
| RuleService.SampleRulesListed | backend/test_logic.py:66-72 | the five-rule walkthrough table is listed in its stored order |
| RuleService.SampleRootDeleteRejected | backend/test_logic.py:79 | "rm -rf /" is decided by the priority-2 AUTO_REJECT rule, whatever later rules say |
| RuleService.SampleCatAccepted | backend/test_logic.py:76 | "cat /etc/passwd" is accepted by the basic-commands rule, given the engine's verdicts; matching is search, not full match |
| RuleService.SampleDockerUnmatched | backend/test_logic.py:82 | "docker run" matches no rule |
| RuleService.NarrowRejectOverridesEarlierAllow | backend/app/services/rule_service.py:51-58 | a later narrower PENDING reject rule with a lower priority value beats an earlier allow rule |
| RuleService.WithoutRule | backend/app/services/rule_service.py:47 | the table after the delete holds exactly the rules whose id differs |
| RuleService.WithoutRuleKeepsOrder | backend/app/services/rule_service.py:47 | deleting keeps the remaining ids in increasing order |
| RuleService.DeleteRule | backend/app/services/rule_service.py:45-48 | removes the rules with the id, leaves all others, and as written always reports success |
| RuleService.DeleteMissingChangesNothing | backend/app/services/rule_service.py:47-48 | deleting an id no rule has changes nothing, yet DeleteRule still reports success |
| RuleService.DeleteRuleChecked | backend/app/routes/rules.py:44-50 | the same removal, reporting success exactly when some rule had the id |
| VotingService.RuleById | backend/app/services/voting_service.py:61-65 | None exactly when no rule has the id; otherwise a stored rule with it |
| VotingService.RuleByIdAppend | backend/app/services/voting_service.py:16-26 | a newly inserted rule is found by its id unless an earlier rule carries it |
| VotingService.Count | backend/app/services/voting_service.py:87-88 | a tally is at most the number of votes, and zero exactly when no vote of that kind exists for the rule |
| VotingService.CountAppend | backend/app/services/voting_service.py:77-88 | recording a vote adds one to exactly the tally it belongs to |
| VotingService.Decide | backend/app/services/voting_service.py:91-97 | ACTIVE iff approvals reach the threshold; REJECTED iff they do not but rejections do; PENDING iff neither |
| VotingService.WithStatus | backend/app/services/voting_service.py:100-103 | the status update keeps every rule's id |
| VotingService.WithStatusLookup | backend/app/services/voting_service.py:100-103 | the decided rule reads back with the new status, every other rule unchanged |
| VotingService.Admins | backend/app/services/voting_service.py:38 | exactly the users with role admin |
| VotingService.AdminsAscending | backend/app/services/voting_service.py:38 | in the model the admin query returns admins in table (id) order, so the approval notifications are ordered by admin id; the source query has no order clause (see Left out) |
| VotingService.IdsExcept | backend/app/services/voting_service.py:46-47 | exactly the ids of the given users other than the creator |
| VotingService.IdsExceptAscending | backend/app/services/voting_service.py:46-52 | the recipient ids come out in increasing order |
| VotingService.ApprovalRecipients | backend/app/services/voting_service.py:45-52 | the recipients are every admin except the creator, each exactly once |
| VotingService.ApprovalMessage | backend/app/services/voting_service.py:51 | the approval request begins `New rule '` followed by the rule's pattern |
| VotingService.DecisionMessage | backend/app/services/voting_service.py:135 | the decision notice begins `Rule '`, the pattern, `' has been ` and the decision word |
| VotingService.ApprovalDrafts | backend/app/services/voting_service.py:45-52 | the loop builds one draft per admin other than the creator, in admin order |
| VotingService.NotifyAdminsForApproval | backend/app/services/voting_service.py:35-55 | appends one unread notification per such admin with the pattern and threshold, and nothing when there is none |
| VotingService.VoterIds | backend/app/services/voting_service.py:122-123 | exactly the admins who voted on the rule |
| VotingService.DecisionAdminIds | backend/app/services/voting_service.py:122-127 | the decision recipients are exactly the admins with a vote row on the rule plus the creator when `created_by` is present and not 0 |
| VotingService.DecisionAdminIdsMembers | backend/app/services/voting_service.py:122-127 | a decision concerns each voter and the creator unless `created_by` is empty or 0 |
| VotingService.DistinctIds | backend/app/services/voting_service.py:131 | `set(admin_ids)`: each id exactly once, the same ids |
| VotingService.NotifyRuleDecision | backend/app/services/voting_service.py:116-139 | one unread notification for each distinct voter and the creator, exactly once each, with the decision message |
| VotingService.CreateRuleWithApproval | backend/app/services/voting_service.py:8-32 | the threshold defaults to 1; the rule is ACTIVE iff the threshold is ≤ 1 and PENDING otherwise; only a PENDING rule notifies the other admins, advancing the notification counter by their number |
| VotingService.ApplyDecision | backend/app/services/voting_service.py:90-103 | the ordered threshold checks, and on a decision the notifications followed by the status update, with the notification counter advanced by their number; otherwise nothing changes |
| VotingService.RecordVote | backend/app/services/voting_service.py:76-113 | appends the vote and advances the vote counter by one; the tallies count the old votes plus the new one; the outcome is decided as Decide says, and `decision_reached` holds iff the status changed; a decision advances the notification counter by the number of recipients |
| VotingService.VoteOnRule | backend/app/services/voting_service.py:58-113 | an unknown rule, a non-PENDING rule and a repeated vote raise, in that order, changing no table and no id counter; otherwise one vote row is appended, the vote counter advances by one, and the outcome carries the rule id, the vote, the threshold, both recounts and the decision; without a decision rules and notifications are untouched; with one the rule takes the new status and each distinct voter and the truthy creator gets one notification with the decision message, the notification counter advancing by their number |
| VotingService.PendingNewestFirst | backend/app/services/voting_service.py:144 | exactly the PENDING rules |
| VotingService.PendingNewestFirstDescending | backend/app/services/voting_service.py:144 | newest first: ids strictly decrease along the listing |
| VotingService.GetPendingRules | backend/app/services/voting_service.py:142-154 | each pending rule newest first, with its current APPROVE and REJECT tallies |
| VotingService.MarkRead | backend/app/services/voting_service.py:204-206 | only a notification matching both id and admin is marked read; nothing else changes |
| VotingService.MarkNotificationRead | backend/app/services/voting_service.py:202-206 | the notifications table becomes MarkRead of the old one |
| CommandService.RejectionMessage | backend/app/services/command_service.py:99 | the rule's description, or "Security policy" when it is missing or empty |
| CommandService.RecordRejection | backend/app/services/command_service.py:35-49 | one COMMAND_REJECTED entry, then one rejected command row with the next id, and the command counter advances by one |
| CommandService.MockExecute | backend/app/services/command_service.py:11-14 | the mock output ends with the command text verbatim |
| CommandService.ExecuteAccepted | backend/app/services/command_service.py:112-158 | a successful debit gives one executed row, one COMMAND_EXECUTED entry, the balance old − 1 and the command counter advanced by one; a failed debit gives one COMMAND_FAILED entry with the error text, re-raises, and writes no row and uses no command id |
| CommandService.RejectCommand | backend/app/services/command_service.py:56-110 | for a user with credits, no match or an AUTO_REJECT match writes exactly Submission's rejected row and entry, uses one command id and charges nothing |
| CommandService.AcceptCommand | backend/app/services/command_service.py:112-149 | for a user with credits, an AUTO_ACCEPT match writes exactly Submission's executed row, entry and debited balance, and uses one command id |
| CommandService.Dispatch | backend/app/services/command_service.py:53-158 | for a user with credits, matching and the three outcomes are exactly as Submission says, and exactly one command id is used |
| CommandService.ProcessCommand | backend/app/services/command_service.py:17-158 | the result, the appended command row and audit entry, and the new users table are exactly those of Submission, and the command counter advances by the number of rows written |
| CommandService.Submission | backend/app/services/command_service.py:29-149 | a refused submission (unknown user, empty balance) raises an `Exception` and charges nothing; a returned result needs a known user with a positive balance |
| CommandService.Ledger | backend/app/services/user_service.py:68-70 | writing a submission's debit back keeps the table's ids in order, and without a debit the table is unchanged |
| CommandService.LedgerRows | backend/app/services/user_service.py:68-70 | a debit changes no field but credits, leaves every other user's row untouched, and gives the submitter's row the debited balance |
| CommandService.SubmissionRows | backend/app/services/command_service.py:54-149 | an unknown user writes nothing; every other outcome writes one command row with the next id and one audit entry (never COMMAND_FAILED); a returned result describes that row |
| CommandService.SubmissionCharges | backend/app/services/command_service.py:113-149 | a credit is charged iff the user has credits and the matching rule is AUTO_ACCEPT; then the balance drops by one to ≥ 0 and `new_balance` reports it; otherwise `new_balance` is the old credits; "executed" iff charged |
| CommandService.SubmissionRefusals | backend/app/services/command_service.py:29-51 | an unknown user is refused with no write; no credits means a NO_CREDITS row and "Insufficient credits" whatever the rules say |
| CommandService.SubmissionLedger | backend/app/services/command_service.py:113-147 | the submitting user reads back with the reported balance; every other user is unchanged |
| CommandService.SubmissionKeepsBalances | backend/app/services/user_service.py:65-70 | no submission drives a balance below zero |
| CommandService.GetUserCommands | backend/app/services/command_service.py:160-164 | exactly that user's commands |
| CommandService.GetUserCommandsNewestFirst | backend/app/services/command_service.py:163 | newest first: ids strictly decrease along the history |
| Auth.UserByApiKey | backend/app/middleware/auth.py:14-19 | None exactly when nobody holds the key; otherwise a stored user holding it |
| Auth.UserByApiKeyIsFirst | backend/app/middleware/auth.py:19 | the user returned is the first holder of the key |
| Auth.GetCurrentUser | backend/app/middleware/auth.py:7-25 | a missing or empty key gives 401 "API key is required"; an unknown key gives 401 "Invalid API key" exactly when nobody holds it; otherwise a stored user holding the key |
| Auth.RequireAdmin | backend/app/middleware/auth.py:28-32 | admits exactly admins, returning the same user; everyone else gets 403 "Admin access required" |
| Auth.AdminGate | backend/app/middleware/auth.py:28-32 | an admitted user is the authenticated one and an admin; every refusal is an HTTP 401 or 403 |
| Auth.AdminGateAdmits | backend/app/middleware/auth.py:7-32 | an admin route admits only admins holding the presented key; authentication errors pass through; 403 exactly for an authenticated non-admin |
| Auth.GetCurrentUserUnique | backend/app/middleware/auth.py:14-20 | with distinct keys, presenting a user's key authenticates exactly that user |
| Auth.GeneratedKeyAuthenticates | backend/app/middleware/auth.py:9-20 | a generated key is never empty, so the user created with it authenticates as that user |

## Left out

- Python's `re` engine: compilation and search are abstract functions, and no regex semantics are modelled. The walkthrough lemmas take the engine's verdicts on the five sample patterns as hypotheses.
- Conflict detection (the conflict-check route, the `force` flag, 409 handling): no implementation of it is part of this model.
- The database client and configuration. Tables are in-memory sequences.
  - Store failures are not modelled. These are the "Failed to create rule" and "Failed to create user" raises, the 500 "Authentication error" of `get_current_user`, and rows that fail record validation.
  - UpdateCredits does model "Failed to update credits", for an absent id.
- Timestamps: `created_at` and `voted_at` are not columns here. Every "order by created_at" is table order, which the ids track.
- `secrets.token_urlsafe`: the key suffix is a parameter of GenerateApiKey and CreateUser.
- The HTTP routes and `main.py`, except that DeleteRuleChecked follows how the delete route reads the result.
- `audit_service.py`: the audit log is an append-only sequence written through `Database.LogEvent`.
- `get_all_users`, `get_rule_votes` and `get_admin_notifications`: these read-only listings and joins are not part of this model.
- Concurrency: every operation runs alone. The non-atomic read-check-write of `deduct_credit` and racing recounts are outside a sequential model.
- The frontend and the test scripts. The walkthrough in `test_logic.py` is used only for the scenario lemmas.
- GetAllRules: the `priority` order has no tie-breaker in the store, so equal priorities are pinned to table (creation) order.
- DistinctIds: Python's set iteration order is unspecified, so it is pinned to first occurrence. Only "each id exactly once" is promised.
- UserByApiKey: the source's key lookup (`auth.py:14`) has no order clause and reads `data[0]`, so when two users share a key the store decides which one authenticates; the model returns the first holder in table order. Generated keys are distinct in practice, and GetCurrentUserUnique shows that with distinct keys the holder is unique, so the order matters only for duplicated keys.
- Admins: the source's admin query (`voting_service.py:38`) has no order clause, so the database may return admins in any order; the model returns them in table (id) order, which fixes the order of the approval notifications and their ids.
- RecordVote, VoteOnRule and NotifyRuleDecision: the recipient order of the decision notifications is a ghost out-parameter.
- NotifyAdminsForApproval and NotifyRuleDecision require the rule to exist. For a missing rule the source would fail on `data[0]`, but it only calls them right after creating or reading the rule.
- CreateRule: the approval threshold and status that a plain insert leaves to the table are constants of the Database (`ruleDefaultThreshold`, `ruleDefaultStatus`). `created_by` stays empty.
- CreateRuleWithApproval does not validate the pattern, because the source does not.
- ProcessCommand: the COMMAND_FAILED path of ExecuteAccepted cannot be reached from ProcessCommand, because the balance is checked before the debit.

## Findings

| source | as written | input that shows it | evidently intended | confidence | as-written member | corrected member |
|---|---|---|---|---|---|---|
| backend/app/services/rule_service.py:47-48 | `delete_rule` returns `response.data is not None`. A delete that matches no row returns an empty list, so the result is always true and the route's 404 "Rule not found" can never be sent | `delete_rule(id)` for an id no rule carries: nothing is removed and success is reported | report success only when a rule with the id existed, so the route answers 404 otherwise | medium, not executed | RuleService.DeleteRule (with RuleService.DeleteMissingChangesNothing) | RuleService.DeleteRuleChecked |
