/**
 * The data the join-request lifecycle works on: the configuration record,
 * the `requests` table rows and their statuses, the append-only `events`
 * log, the platform's answers, and the messages and actions the handlers
 * emit.
 */
module Types {

  import opened Optional

  /** Seconds in one day; the sweeper's 24-hour gates and the expiry window are counted in it. */
  const DaySeconds: int := 86400

  /** The configuration constants, passed in rather than read from a global. */
  datatype Config = Config(
    requestExpiryDays: nat,
    reminderIntervalHours: nat,  // configured, but the sweeper uses a fixed 24 hours
    spamBanAttempts: int,
    spamWarningAttemptsStart: int,
    maxMessageLength: nat)

  const Defaults: Config := Config(7, 24, 5, 3, 2000)

  /** The deployment settings the handlers consult besides the configuration. */
  datatype Env = Env(config: Config, adminUserId: Option<int>, modChatId: Option<string>)

  datatype Status =
    | Pending | Answered
    | Confirmed | Superseded | Banned | Rejected
    | TimedOut | UserMissingOrBanned | RequestNoLongerValid
  {
    /** `pending` and `answered` rows are live; every other status is terminal. */
    predicate IsLive() { Pending? || Answered? }
  }

  /** One row of the `requests` table. */
  datatype Request = Request(
    id: nat,
    chatId: string,
    userId: int,
    username: Option<string>,
    displayName: Option<string>,
    requestDate: int,
    expiresAt: int,
    status: Status,
    answerText: Option<string>,
    answerDate: Option<int>,
    confirmedDate: Option<int>,
    lastReminderTs: Option<int>)
  {
    predicate InPair(user: int, chat: string) { userId == user && chatId == chat }

    predicate SamePair(other: Request) { userId == other.userId && chatId == other.chatId }

    /** The stored answer is truthy in JavaScript: present and non-empty. */
    predicate HasAnswer() { answerText.Some? && answerText.value != "" }
  }

  /** The `event_type` of an event row together with its `data` payload. */
  datatype EventType =
    | EvSubmitted(chatId: string, chatTitle: Option<string>)
    | EvBannedSpam(attempts: int)
    | EvAnswered(answer: string)
    | EvConfirmed
    | EvRewriteRequested
    | EvReminderSent(daysLeft: int)
    | EvAutoRejected
    | EvAutoRejectedInvalid(error: string)
    | EvAutoRejectedMissing(error: string)
    | EvAdminRejected(adminId: Option<int>)
    | EvAdminRejectedMissing(adminId: Option<int>)

  /** One row of the `events` table. */
  datatype Event = Event(requestId: Option<nat>, userId: int, eventType: EventType, ts: int)

  /** The database: the request table in id order, the event log, and the next id AUTOINCREMENT hands out. */
  datatype Db = Db(rows: seq<Request>, events: seq<Event>, nextId: nat)

  /** Ids increase along the table, as AUTOINCREMENT hands them out. */
  predicate IdsIncreasing(rows: seq<Request>) {
    forall i, j | 0 <= i < j < |rows| :: rows[i].id < rows[j].id
  }

  /** What the primary key guarantees: ids are positive, increase along the table, and stay below `nextId`. */
  predicate Valid(db: Db) {
    && db.nextId > 0
    && IdsIncreasing(db.rows)
    && (forall i | 0 <= i < |db.rows| :: 0 < db.rows[i].id < db.nextId)
  }

  /**
   * How every handler may change the database: rows are never deleted and
   * keep their id and (user, chat) pair, a row in a terminal status is never
   * touched again, and events are only ever appended.
   */
  predicate Evolves(before: Db, after: Db) {
    && |before.rows| <= |after.rows|
    && (forall i | 0 <= i < |before.rows| ::
          && after.rows[i].id == before.rows[i].id
          && after.rows[i].SamePair(before.rows[i])
          && (!before.rows[i].status.IsLive() ==> after.rows[i] == before.rows[i]))
    && before.events <= after.events
    && before.nextId <= after.nextId
  }

  lemma EvolvesTransitive(a: Db, b: Db, c: Db)
    requires Evolves(a, b) && Evolves(b, c)
    ensures Evolves(a, c)
  {
  }

  /** A first-order description of a set of rows, used to count and to update rows. */
  datatype Selector =
    | AnyOfPair(userId: int, chatId: string)
    | PendingOfPair(userId: int, chatId: string)
    | LiveOfPair(userId: int, chatId: string)
    | LiveOfUser(userId: int)
    | WithStatus(status: Status)
    | ResolvedByTimeout

  predicate Matches(sel: Selector, r: Request) {
    match sel
    case AnyOfPair(u, c) => r.InPair(u, c)
    case PendingOfPair(u, c) => r.InPair(u, c) && r.status == Pending
    case LiveOfPair(u, c) => r.InPair(u, c) && r.status.IsLive()
    case LiveOfUser(u) => r.userId == u && r.status.IsLive()
    case WithStatus(st) => r.status == st
    case ResolvedByTimeout => r.status == TimedOut || r.status == UserMissingOrBanned || r.status == RequestNoLongerValid
  }

  function Indicator(b: bool): nat { if b then 1 else 0 }

  /** The number of rows the selector matches (SQL `COUNT(*) ... WHERE`). */
  function CountIf(rows: seq<Request>, sel: Selector): (n: nat)
    ensures n <= |rows|
  {
    if rows == [] then 0
    else CountIf(rows[..|rows| - 1], sel) + Indicator(Matches(sel, rows[|rows| - 1]))
  }

  lemma CountIfAppend(rows: seq<Request>, x: Request, sel: Selector)
    ensures CountIf(rows + [x], sel) == CountIf(rows, sel) + Indicator(Matches(sel, x))
  {
    assert (rows + [x])[..|rows|] == rows;
  }

  lemma {:induction false} CountIfPrepend(x: Request, rows: seq<Request>, sel: Selector)
    ensures CountIf([x] + rows, sel) == Indicator(Matches(sel, x)) + CountIf(rows, sel)
  {
    if rows == [] {
      assert [x] + rows == [x];
      assert [x][..0] == [];
    } else {
      var init := rows[..|rows| - 1];
      assert ([x] + rows)[..|rows|] == [x] + init;
      CountIfPrepend(x, init, sel);
    }
  }

  lemma {:induction false} CountIfZero(rows: seq<Request>, sel: Selector)
    ensures CountIf(rows, sel) == 0 <==> forall i | 0 <= i < |rows| :: !Matches(sel, rows[i])
  {
    if rows != [] {
      var init := rows[..|rows| - 1];
      CountIfZero(init, sel);
      assert forall i | 0 <= i < |init| :: init[i] == rows[i];
    }
  }

  /** Rows that agree on the selector index by index have the same count. */
  lemma {:induction false} CountIfPointwise(a: seq<Request>, b: seq<Request>, sel: Selector)
    requires |a| == |b|
    requires forall i | 0 <= i < |a| :: Matches(sel, a[i]) == Matches(sel, b[i])
    ensures CountIf(a, sel) == CountIf(b, sel)
  {
    if a != [] {
      CountIfPointwise(a[..|a| - 1], b[..|b| - 1], sel);
    }
  }

  /** Replacing one row changes the count by what the old and new row contribute. */
  lemma {:induction false} CountIfUpdate(rows: seq<Request>, k: nat, x: Request, sel: Selector)
    requires k < |rows|
    ensures CountIf(rows[k := x], sel) + Indicator(Matches(sel, rows[k]))
         == CountIf(rows, sel) + Indicator(Matches(sel, x))
  {
    var updated := rows[k := x];
    if k == |rows| - 1 {
      assert updated[..|rows| - 1] == rows[..|rows| - 1];
    } else {
      assert updated[..|rows| - 1] == rows[..|rows| - 1][k := x];
      CountIfUpdate(rows[..|rows| - 1], k, x, sel);
    }
  }

  /** SQL `UPDATE requests SET status = st WHERE <sel>`. */
  function SetStatusIf(rows: seq<Request>, sel: Selector, st: Status): (r: seq<Request>)
    ensures |r| == |rows|
    ensures forall i | 0 <= i < |rows| :: r[i] == rows[i].(status := r[i].status)
    ensures forall i | 0 <= i < |rows| :: r[i].status == if Matches(sel, rows[i]) then st else rows[i].status
  {
    seq(|rows|, i requires 0 <= i < |rows| => if Matches(sel, rows[i]) then rows[i].(status := st) else rows[i])
  }

  /**
   * The answer of the platform to one call: success, an error response
   * carrying its description (an absent response reads as the description
   * "Unknown"), or a failure of the request itself, where no response was
   * received or it could not be parsed.
   */
  datatype ApiResult = Ok | ApiError(description: string) | NetError

  /** The platform's answer to a decline of each request, by request id. */
  type Responses = nat -> ApiResult

  /** One entry of the sweeper's operator-visible error list. */
  datatype SweepError =
    | NetFailure(userId: int)
    | ApiFailure(userId: int, description: string)
    | MarkedUserMissing(userId: int)
    | MarkedRequestMissing(userId: int)

  /** One entry of the manual reject's error list. */
  datatype RejectError = RejectNetFailure | RejectApiFailure(description: string)

  /** The templated messages, by the template they instantiate and its arguments. */
  datatype Notice =
    | Questions(chatTitle: string)
    | SpamWarning(attempt: int)
    | BannedNotice
    | NoPendingRequest
    | Confirmation(answer: string)
    | SentToModerators
    | RewriteRequested
    | DailyReminder(daysLeft: int)
    | TimeoutNotice
    | SpamBanReport(userId: int, firstName: string, username: string, attempts: int)
    | NewRequestReport(username: string, displayName: string, userId: int, answer: string, chatId: string, requestDate: int, expiresAt: int)
    | AutoRejectReport(requestId: nat, username: string, displayName: string, userId: int)
    | StatusReport(pendingCount: nat)
    | PendingReport(listed: nat)
    | ConfigReport(modChatId: Option<string>, adminUserId: Option<int>)
    | HelpText
    | CleanupDone
    | ForceCronReport(reminders: nat, timeouts: nat, sweepErrors: seq<SweepError>)
    | RejectUsage
    | RejectNotFound(target: string)
    | RejectReport(target: string, rejected: nat, failed: nat, rejectErrors: seq<RejectError>)
    | UnknownCommand

  datatype Recipient = User(userId: int) | Moderators | Chat(chatId: int)

  /** A call the handlers make on the platform. */
  datatype Output =
    | Send(to: Recipient, notice: Notice)
    | BanChatMember(chatId: string, userId: int)
    | DeclineJoinRequest(chatId: string, userId: int)

  /** The new database and the platform calls a handler made, in order. */
  datatype Reaction = Reaction(db: Db, outputs: seq<Output>)

  /** The profile of the user an update comes from. */
  datatype Sender = Sender(id: int, isBot: bool, firstName: Option<string>, lastName: Option<string>, username: Option<string>)

  /** A `chat_join_request` update; the chat id is given in its decimal text form. */
  datatype JoinRequest = JoinRequest(chatId: string, chatTitle: Option<string>, from: Sender)

  /** A `message` update. */
  datatype Message = Message(chatId: int, isPrivate: bool, from: Sender, text: Option<string>)
}
