/** The records and enumerations of the gateway's tables (users, rules, votes,
    notifications, commands, audit log), the error values its services raise,
    and the small formatting helpers its messages need. */
module Models {

  datatype Option<+T> = None | Some(value: T) {
    function GetOr(default: T): T {
      match this
      case Some(v) => v
      case None => default
    }
  }

  /** The exceptions the services raise: Python's ValueError, a bare
      Exception, and FastAPI's HTTPException with its status code. */
  datatype Error =
    | ValueError(message: string)
    | Exception(message: string)
    | HttpError(status: int, detail: string)
  {
    /** What `str(e)` gives for the error. */
    function Text(): string {
      match this
      case ValueError(m) => m
      case Exception(m) => m
      case HttpError(_, d) => d
    }
  }

  /** A call that returns a value or raises. */
  datatype Result<+T> = Ok(value: T) | Err(error: Error)

  // ---------------------------------------------------------------- users

  datatype UserRole = Admin | Member

  datatype User = User(id: int, name: string, apiKey: string, role: UserRole, credits: int)

  /** The body of a user-creation request; role and credits have the
      declared defaults. */
  datatype UserCreate = UserCreate(name: string, role: UserRole := Member, credits: int := 10)

  // ---------------------------------------------------------------- rules

  datatype RuleAction = AutoAccept | AutoReject

  /** The string stored for an action (`RuleAction.value`). */
  function ActionValue(a: RuleAction): string {
    match a
    case AutoAccept => "AUTO_ACCEPT"
    case AutoReject => "AUTO_REJECT"
  }

  datatype ApprovalStatus = Pending | Active | Rejected

  function StatusValue(s: ApprovalStatus): string {
    match s
    case Pending => "PENDING"
    case Active => "ACTIVE"
    case Rejected => "REJECTED"
  }

  /** A row of the rules table: the columns `Rule` declares plus the approval
      columns the voting service reads and writes. */
  datatype Rule = Rule(
    id: int,
    pattern: string,
    action: RuleAction,
    priority: int,
    description: Option<string>,
    approvalThreshold: int,
    approvalStatus: ApprovalStatus,
    createdBy: Option<int>)

  datatype RuleCreate = RuleCreate(pattern: string, action: RuleAction, priority: int, description: Option<string> := None)

  // ---------------------------------------------------------------- votes and notifications

  datatype VoteType = Approve | Reject

  datatype Vote = Vote(id: int, ruleId: int, adminId: int, vote: VoteType, comment: Option<string>)

  /** A notification as the services build it, before the table gives it an
      id and the unread flag. */
  datatype NotificationDraft = NotificationDraft(ruleId: int, adminId: int, message: string)

  datatype Notification = Notification(id: int, ruleId: int, adminId: int, message: string, isRead: bool)

  // ---------------------------------------------------------------- commands and audit

  datatype CommandStatus = Executed | Rejected

  /** A row of the commands table; `action` is the stored string
      (AUTO_ACCEPT, AUTO_REJECT, NO_RULE or NO_CREDITS). */
  datatype Command = Command(id: int, userId: int, commandText: string, status: CommandStatus, action: string, resultMessage: string)

  datatype AuditEvent = CommandRejected | CommandExecuted | CommandFailed

  /** The `meta` payloads the command service writes. */
  datatype AuditMeta =
    | Reason(command: string, reason: string)
    | RuleHit(command: string, ruleId: int, ruleDescription: Option<string>)
    | Charged(command: string, ruleId: int, ruleDescription: Option<string>, creditsRemaining: int)
    | Failure(command: string, error: string)

  datatype AuditEntry = AuditEntry(userId: int, event: AuditEvent, meta: AuditMeta)

  // ---------------------------------------------------------------- formatting

  function DigitChar(d: nat): char
    requires d < 10
  {
    "0123456789"[d]
  }

  /** Decimal digits of a natural number, as Python's `str` prints them. */
  function NatToString(n: nat): string
  {
    if n < 10 then [DigitChar(n)] else NatToString(n / 10) + [DigitChar(n % 10)]
  }

  /** Python's `str` on an int: a minus sign, then the digits. */
  function IntToString(i: int): string
  {
    if i < 0 then "-" + NatToString(-i) else NatToString(i)
  }
}
