# Telegram join-request bot: the request lifecycle in Dafny

The bot screens people who ask to join a Telegram chat. Each join request
becomes a row of a `requests` table:

- the applicant is asked questions in a private chat;
- the first reply is stored as the answer and must be confirmed ("да" /
  "yes");
- a confirmed answer is reported to the moderators;
- a scheduled sweep reminds applicants once a day and declines requests
  whose time is up.

A pair (user, chat) that submits too often is banned. Moderators have a few
commands, among them a manual `/reject`.

This project models that lifecycle as pure functions over an immutable
database value. `Types.Db` holds the request rows in id order, the
append-only event log and the next id to hand out. Every handler takes the
database, its input, the time `now` in Unix seconds, and (where the platform
is called) an oracle `Types.Responses`. The oracle gives the platform's
answer to declining each request id. A handler returns the new database and
the platform calls it makes, in order (`Types.Reaction`). Message texts are
abstract tags (`Types.Notice`) carrying the values the templates interpolate.

The modules follow the source files:

| module | file | what |
|---|---|---|
| `Types` | `src/config.js`, table schema | configuration record, rows, events, outputs, the `Evolves` relation, counting by selector |
| `Strings` | JavaScript built-ins | `trim`, `substring`, `split(' ')[1]`, `startsWith`, `includes`, SQLite's text-to-integer comparison |
| `Markdown` | `src/services/telegram.js` | `escapeMarkdownLegacy`, `escapeMarkdown`, `fullname` |
| `Join` | `src/handlers/join.js` | `handleJoinRequest` with the spam policy |
| `Cleanup` | `src/handlers/message.js`, `src/handlers/cron.js` | `cleanupDuplicates` |
| `Sweeper` | `src/handlers/cron.js` | `processRemindersAndTimeouts` |
| `Admin` | `src/handlers/message.js` | `handleAdminCommand`, including `/reject` |
| `Messages` | `src/handlers/message.js` | `handleMessage` |
| `Lifecycle` | `src/worker.js` routing | one update at a time, runs of updates, an end-to-end scenario |

Two things in the code differ from what a reader might expect. The model
follows the code in both.

- A new submission supersedes only the pair's `pending` rows. An
  `answered` row of the same pair stays live, so a pair can have several
  live rows. What does hold is exactly one `pending` row for the pair after
  every submission that is not a ban (`Join.SubmitLeavesOnePending`). The
  duplicate cleanup restores "at most one `pending` row per pair"
  (`Cleanup.CleanupLeavesOnePending`).
- The confirmation test is the regular expression `^(да|yes)[\W]*$` with the
  `i` flag and without `u`. Its `\W` excludes only ASCII word characters.
  So any Cyrillic text after "да" still confirms: "даже" and "Да нет" both
  count as "yes" (`Messages.CyrillicTailConfirms`).

Several orders are left open by the SQL. The model fixes them as follows:

- The row a message goes to is `ORDER BY request_date DESC LIMIT 1`. Among
  rows with the same date the model takes the last one in the table.
- Loops over query results visit rows in table (id) order. The timeout
  results are proved for tables whose ids increase along the table
  (`Types.IdsIncreasing`, part of `Types.Valid`, which every handler keeps).
  The loop re-reads the table for each row, and only with that order is
  "a newer live row" the same on the table the loop started from as on the
  table at the row's turn.

## Model

| member | source | states |
|---|---|---|
| Join.HandleJoinRequest | src/handlers/join.js:5-66 | Ban branch iff the pair's earlier row count reaches `SPAM_BAN_ATTEMPTS - 1`. Then no row is added, exactly the pair's `pending`/`answered` rows become `banned`, one `banned_spam` event with no request id and `attempts = count + 1` is logged, and ban and decline calls are made (their order and the notices are in `Join.SubmitNotices`). Otherwise exactly the pair's `pending` rows become `superseded` and one `pending` row is appended with id `nextId`, `request_date = now` and `expires_at = now + days * 86400`, plus one `submitted` event naming it. A warning naming attempt `count + 1` is sent iff the count is in the warning range and not in the ban range |
| Join.SubmitNotices | src/handlers/join.js:11-65 | ban branch: the ban, the decline and the banned notice to the applicant, in that order, then the spam report to the moderators (escaped first name and username, attempt `count + 1`) exactly when `MOD_CHAT_ID` is non-empty. Otherwise the questionnaire with the escaped chat title comes first, then only the spam warning if any. The new row stores the username and the full name, each only when non-empty |
| Join.SubmitLeavesOnePending | src/handlers/join.js:46-52 | after a submission that is not a ban, the pair has exactly one `pending` row |
| Join.SubmitAttemptCounts | src/handlers/join.js:17-18 | a submission raises the count of the pair it came from by one exactly when it is not a ban; the counts of other pairs do not change |
| Join.SubmitKeepsValid | src/handlers/join.js:50-53 | the insert keeps ids positive, increasing along the table and below the next id |
| Join.FifthSubmissionBans | src/handlers/join.js:17-66 | with the default settings and no earlier row of the pair, submissions one to four each add one row and make no ban call. The first two carry no spam warning; the third and fourth carry the warnings for attempts 3 and 4. The fifth adds no row, makes the ban call and leaves the pair with no live row |
| Join.SubmitStep | src/handlers/join.js:17-66 | one submission with `n` earlier rows of the pair: below the ban threshold it adds one row, raises the count to `n + 1` and makes no ban call; at the threshold it adds no row, makes the ban call and leaves the pair no live row. The warning for attempt `n + 1` is sent iff `n` is in the warning range and not a ban |
| Join.ResubmitPolicy | src/handlers/join.js:17-66 | in a burst of submissions from one pair, the `i`-th of the burst sees `n0 + i` earlier rows and follows that rule, as long as the burst does not pass the ban threshold |
| Join.BurstFollows | src/handlers/join.js:17-66 | a burst of submissions handled by any step that follows the one-submission rule on every table follows it at each position, with the table growing one row and the pair's count one step per submission below the threshold |
| Cleanup.CleanupDuplicates | src/handlers/message.js:179-191 | a row is `pending` afterwards iff it was the largest-id `pending` row of its pair. Other `pending` rows become `superseded`; every other row is unchanged |
| Cleanup.CleanupDb | src/handlers/cron.js:97-109 | the cleanup changes only statuses, as every handler may, and leaves the event log and next id alone |
| Cleanup.CleanupLeavesOnePending | src/handlers/message.js:179-191 | with distinct ids, at most one `pending` row per pair remains |
| Cleanup.CleanupIdempotent | src/handlers/message.js:179-191 | running the cleanup twice equals running it once |
| Cleanup.NewestPendingIndex | src/handlers/message.js:186-189 | the `MAX(id)` of a pair's `pending` rows, or none iff the pair has no `pending` row |
| Cleanup.CleanupPendingCount | src/handlers/message.js:179-191 | a pair's `pending` count after the cleanup is 1 if it was positive before and 0 otherwise |
| Sweeper.CeilDiv | src/handlers/cron.js:20-21 | the integer ceiling of a quotient: `b*(q-1) < a <= b*q` |
| Sweeper.RemindFrom | src/handlers/cron.js:19-32 | each due row from `k` on gets `last_reminder_ts = now`; no other row changes. The events appended are exactly one `reminder_sent` event per due row, in table order, naming the row, its user and its days left; the outputs appended are exactly one reminder per due row to its user with the same days left. The counter grows by the number of due rows |
| Sweeper.ReminderPass | src/handlers/cron.js:11-32 | a row is reminded iff it is `pending`, submitted at least 86400 s ago, not reminded in the last 86400 s, and has a positive ceiling of days left. The pass logs one `reminder_sent` event and sends one reminder to the row's user per such row, in table order, each with the row's days left; `remindersSent` is their number |
| Sweeper.OnlyPendingReminded | src/handlers/cron.js:12-17 | a row that is not `pending` (an `answered` one in particular) is never touched by the reminder pass |
| Sweeper.ReminderPassIdempotent | src/handlers/cron.js:16-27 | within 86400 s of a reminder pass no row it reminded is due again. A second pass at the same instant changes nothing and sends nothing |
| Sweeper.Classify | src/handlers/cron.js:45-78 | decline outcome mapping: ok gives a decline; an error containing `USER_ID_INVALID` or `user is deactivated` (checked first) gives account gone; otherwise `HIDE_REQUESTER_MISSING` gives request gone. Any other error or a transport failure leaves the row |
| Sweeper.TimeoutStep | src/handlers/cron.js:36-89 | when a newer live row of the pair exists, the row becomes `superseded` with no call, event or count. Otherwise exactly one decline is made, to the row's chat and user, and the verdict applied: `timed_out`, `user_missing_or_banned` or `request_no_longer_valid`, each with its event and one processed timeout, or the row untouched. Every outcome except ok adds one error entry. The calls are exactly the decline, followed on ok by the timeout notice to the applicant and the auto-reject report (escaped username and display name) to the moderators |
| Sweeper.TimeoutFromFrame | src/handlers/cron.js:35-89 | with ids increasing along the table, each expired live row ends the loop `superseded` iff the table the loop started from has a newer live row of its pair; otherwise it ends in its verdict's status, or unchanged when the verdict settles nothing, whatever happened to the rows before it |
| Sweeper.TimeoutFrom | src/handlers/cron.js:35-89 | the loop from row `k` keeps the table size, the next id and the reminder count, and never changes a row before `k` |
| Sweeper.TimeoutFromEvolves | src/handlers/cron.js:35-89 | the loop changes the database only as every handler may and leaves every row that is not an expired live row untouched |
| Sweeper.DeclinedRows | src/handlers/cron.js:35-47 | the rows the loop declines: exactly the expired live rows with no newer live row of their pair, each once, in table order |
| Sweeper.TimeoutFromDeclines | src/handlers/cron.js:35-89 | the loop's decline calls are exactly one per declined row, in table order, to that row's chat and user |
| Sweeper.TimeoutFromCountsResolved | src/handlers/cron.js:62-83 | `timeoutsProcessed` grows by the number of rows that reach one of the three timeout statuses |
| Sweeper.TimeoutFromAccountsDeclines | src/handlers/cron.js:47-83 | every decline call is matched by a new `timed_out` row or a new error entry |
| Sweeper.NewerLiveRowSupersedes | src/handlers/cron.js:37-43 | with ids increasing along the table, an expired row whose pair has a newer live row (expired or not) ends the loop `superseded`, otherwise unchanged, and is not among the declined rows |
| Sweeper.Sweep | src/handlers/cron.js:5-94 | the sweep keeps the table size, and its `remindersSent` is the number of due rows |
| Sweeper.SweepEvolves | src/handlers/cron.js:5-94 | the sweep changes the database only as every handler may |
| Sweeper.SweepCountsTimeouts | src/handlers/cron.js:8-92 | after the whole sweep, cleanup included, `timeoutsProcessed` equals the growth in rows with a timeout status |
| Sweeper.SweepResolvesCandidates | src/handlers/cron.js:35-92 | with ids increasing along the table, after the whole sweep each expired live row is `superseded` iff its pair had a newer live row; otherwise it is in its verdict's status, or exactly as it was when the verdict settles nothing. Neither the reminders nor the cleanup change the loop's result |
| Sweeper.SweepDeclines | src/handlers/cron.js:11-89 | the sweep's decline calls are exactly one per expired live row with no newer live row of its pair, in table order, to its chat and user; the reminders make none |
| Sweeper.SweepLeavesOnePending | src/handlers/cron.js:92 | the sweep ends with at most one `pending` row per pair |
| Sweeper.SweepSupersedesOlderRow | src/handlers/cron.js:37-43 | the superseding rule for the sweep as a whole: the older expired row ends `superseded`, whether or not the newer row has expired too, and no decline call is made for it |
| Admin.ParseCommand | src/handlers/message.js:86-175 | each command is chosen iff its prefix starts the text, whatever the order of the tests; `/reject` needs the following space, and its target is the second space-separated field |
| Admin.RejectStep | src/handlers/message.js:139-169 | one decline per row. If it is ok or names `HIDE_REQUESTER_MISSING`, the row becomes `rejected` with one more rejected count and one event: `admin_rejected` on ok, `admin_rejected_missing` otherwise, naming the admin. Otherwise the row and the log stay as they are, and one failure and one error entry are added |
| Admin.RejectFrom | src/handlers/message.js:139-169 | the loop from row `k` keeps the table size and the next id, and never changes a row before `k` |
| Admin.RejectDeclines | src/handlers/message.js:139-144 | one decline call per live row of the user, to that row's chat and user, in table order; as many as the user has live rows |
| Admin.RejectFromOutputs | src/handlers/message.js:139-144 | the loop from row `k` appends exactly the decline calls for the target's live rows from `k` on |
| Admin.RejectFromFrame | src/handlers/message.js:139-169 | each live row of the target becomes `rejected` iff its decline settled; all other rows are unchanged |
| Admin.RejectFromCounts | src/handlers/message.js:135-169 | rejected plus failed grows by the number of live rows of the target; failures equal error entries |
| Admin.RejectMatches | src/handlers/message.js:129 | rows are found only for a target text that reads as an integer (digits, optionally after a minus sign), and then they are exactly the live rows of that user |
| Admin.RejectTargetOfId | src/handlers/message.js:123-129 | the decimal text of any user id, negative ids included, finds exactly that user's live rows |
| Admin.RejectCommand | src/handlers/message.js:129-173 | no matching row gives the not-found reply and no change. Otherwise the calls are the declines for the user's live rows, one each to its chat and user in table order, then the report to the admin chat |
| Admin.RejectCommandOutcome | src/handlers/message.js:129-173 | the report's rejected plus failed equals the number of live rows of the user, and failed equals the number of errors. Rows change exactly as the declines settle |
| Admin.RunCommand | src/handlers/message.js:86-175 | `/status`, `/pending`, `/config`, `/help` and unknown commands change nothing and send one reply; `/status` reports the `pending` count. `/cleanup` runs the cleanup, `/force_cron` runs the sweep, an empty `/reject` target gets the usage reply and any other target runs the reject. Rows only move forward, the table keeps its size, and the last call is a reply to the command's chat |
| Admin.RejectCommandFrame | src/handlers/message.js:123-173 | a `/reject`, whether or not it finds rows, only moves rows forward, keeps the table size and ends with a reply to the command's chat |
| Admin.HandleAdminCommand | src/handlers/message.js:82-176 | for any command text, rows only move forward, the table keeps its size and the last call is a reply to the command's chat |
| Messages.PrepareText | src/handlers/message.js:8 | the working text is the trimmed text, cut to the length limit when it is longer: a prefix of it with length `min(length, limit)`. It starts with a non-space |
| Messages.LatestLive | src/handlers/message.js:23-26 | the user's live row, in any chat, with the latest request date (the last such on a tie), or none iff the user has no live row |
| Messages.LatestLiveFrame | src/handlers/message.js:23-26 | the selection depends only on which rows are the user's live rows and their dates |
| Messages.Reply | src/handlers/message.js:23-79 | no live row: only the no-pending reply. No stored answer: store the text, mark `answered`, one `answered` event. `answered` with an affirmative text: `confirmed` with the answer kept, a moderator report and an acknowledgement. `answered` otherwise: back to `pending` with the answer cleared, one `rewrite_requested` event. `pending` with an answer: nothing |
| Messages.HandleMessage | src/handlers/message.js:6-80 | non-private chats, bots and `/` texts of non-moderators change nothing and send nothing. Moderator commands are answered in the command's chat. Any other private text goes to the user's latest live row; the table size is kept |
| Messages.AdminDispatch | src/handlers/message.js:14-17 | a moderator's private `/` text is handed to the command handler with the trimmed, truncated text |
| Messages.StoredAnswerBounded | src/handlers/message.js:8-37 | a stored answer is at most `MAX_MESSAGE_LENGTH` long |
| Messages.AffirmativeExamples | src/handlers/message.js:46 | "Да!", "yes", "YES", "да." and "Yes..." confirm; "no", "yesterday", "yes1" and "" do not |
| Messages.CyrillicTailConfirms | src/handlers/message.js:46 | "даже" and "Да нет" confirm, because `\W` without the `u` flag is ASCII-only |
| Messages.AffirmativeByUpperCase | src/handlers/message.js:46 | a text confirms iff its first two characters upper-case to "ДА", or its first three to "YES", and nothing after them is an ASCII word character |
| Messages.AffirmativeKeepsPunctuation | src/handlers/message.js:46 | appending non-word characters to a confirmation keeps it a confirmation |
| Messages.AnswerKeepsSelection | src/handlers/message.js:34-37 | storing an answer keeps the row selected for the user's next message |
| Messages.AnswerThenRewriteRestores | src/handlers/message.js:34-76 | an answer followed by a non-affirmative text restores the row exactly as it was, with two events logged |
| Messages.AnswerThenConfirm | src/handlers/message.js:34-67 | an answer followed by an affirmative text leaves the row `confirmed` with that answer and its dates. The moderators get the report of it |
| Messages.NoTextIsEmptyText | src/handlers/message.js:8 | a message without text is handled as the empty text |
| Messages.EmptyAnswerIsNoAnswer | src/handlers/message.js:8-37 | a message without text is stored as an empty answer, and the next text is again taken as the answer, even "да" |
| Markdown.EscapeMarkdownLegacy | src/services/telegram.js:18-21 | "" for a missing text. Otherwise the length grows by the number of `*` `_` `` ` `` `[`, and dropping the inserted backslashes gives the input back |
| Markdown.EscapeMarkdown | src/services/telegram.js:24-27 | the same for the larger set, backslash included, so the escape can always be undone |
| Markdown.Escape | src/services/telegram.js:20 | the escaped text is longer by exactly the number of special characters of the dialect |
| Markdown.Unescape | src/services/telegram.js:20 | removing backslashes before special characters never lengthens a text |
| Markdown.UnescapeEscape | src/services/telegram.js:20 | removing the inserted backslashes recovers the input, for both character sets |
| Markdown.EscapeInjective | src/services/telegram.js:20 | different texts never escape to the same string |
| Markdown.EscapeAppend | src/services/telegram.js:20 | escaping works character by character: it distributes over concatenation |
| Markdown.LegacyEscapeExample | src/services/telegram.js:20 | `[` and `_` gain a backslash while `]` and `!` are copied unchanged |
| Markdown.Fullname | src/services/telegram.js:29-34 | the present, non-empty first and last names joined by one space; "" iff neither is present |
| Strings.Trim | src/handlers/message.js:8 | the result is a slice of the input with only whitespace removed at both ends, and starts and ends with a non-space |
| Strings.Truncate | src/handlers/message.js:8 | `substring(0, n)`: the prefix of the text of length `min(length, n)` |
| Strings.TrimIdempotent | src/handlers/message.js:46 | trimming again changes nothing, so the confirmation test's second `trim` matters only after truncation |
| Strings.SecondField | src/handlers/message.js:123 | `split(' ')[1]`: present iff the text has a space; then it starts right after the first space and ends at the next space or at the end of the text |
| Strings.SecondFieldExamples | src/handlers/message.js:123-127 | `/reject 42` names `42`; a doubled space gives the empty target that gets the usage reply |
| Strings.ParseInteger | src/handlers/message.js:129 | a text reads as an integer iff it is one or more digits, optionally after a minus sign; digits alone give a value at least zero, and a minus sign a value at most zero |
| Strings.ParseIntegerOfIntText | src/handlers/message.js:129 | the decimal text of every integer reads back as that integer |
| Strings.ParseIntegerLeadingZeros | src/handlers/message.js:129 | leading zeros, after the minus sign if any, do not change the id a text names: `0777` reads as 777 |
| Lifecycle.Handle | src/worker.js:10-37 | every update changes the database only as `Evolves` allows and keeps the id discipline |
| Lifecycle.RunEvolves | src/worker.js:10-37 | over any run of updates, each with its own platform answers, no row is deleted or moved to another pair, no terminal row changes, no event is lost, and the id discipline holds |
| Lifecycle.EvolvesKeepsAttempts | src/handlers/join.js:17-18 | a pair's submission count never goes down as the database evolves |
| Lifecycle.RunKeepsAttempts | src/handlers/join.js:17-20 | no sequence of messages, commands or sweeps lowers a pair's count toward the spam ban |
| Lifecycle.FirstSubmission | src/handlers/join.js:46-52 | the first submission on an empty table gives one `pending` row with id 1, expiring after seven days |
| Lifecycle.SixthDaySweep | src/handlers/cron.js:11-32 | a sweep six days after the submission sends exactly one reminder, "1 day left", and keeps the row `pending` |
| Lifecycle.ExpirySweep | src/handlers/cron.js:20-23 | the sweep at the expiry sends no reminder (no day left) and, when the decline succeeds, moves the row to `timed_out` |
| Lifecycle.UnansweredRequestTimesOut | src/handlers/cron.js:5-94 | an unanswered request is reminded once on day six and timed out at day seven |

## Left out

- `sendToTelegram`, HTTP and JSON: the platform is the `Responses` oracle, and only the decline calls of the timeout sweep and of `/reject` can fail in the model. In the code, a transport exception from any other call aborts the handler or the sweep midway: a ban, a message, a reminder, or the decline of the spam-ban branch (src/handlers/join.js:23), whose throw comes before the `banned` update. The model treats those calls as always returning.
- Absent API responses and responses without a `description`: the model's error always carries a text. In the code, a missing description would make `.includes` throw.
- Webhook routing, `src/handlers/member.js` (a notification and a debug event) and the message templates of `src/messages.js`: replies are abstract `Notice` values.
- `/pending`: only the number of listed rows (at most 50) is modelled, not the listing's order or text.
- Concurrency between worker invocations and non-atomic multi-statement writes: each handler is one sequential step.
- `Date.now()`: `now` is a parameter. The manual reject's events use the same `now` as the rest of the command.
- `DAILY_REMINDER_INTERVAL_HOURS`: it is carried in the configuration record but, as in the code, never used. The reminder gate is the literal 24 hours.
- Strings.ParseInteger: models texts of digits with an optional leading minus sign. SQLite's numeric conversion of texts such as `+42`, ` 42` or `42.0` is not modelled; these are treated as never matching a user id.
- Strings.Trim: works on Dafny characters (code points), while JavaScript works on UTF-16 code units. Truncation to the length limit may therefore differ for text outside the Basic Multilingual Plane.
- Sweeper.CeilDiv: exact integer ceiling; the source divides in floating point, which agrees for the magnitudes of Unix timestamps.
- Join.HandleJoinRequest: the `last_insert_rowid` lookup is modelled as always returning the new id, so the `submitted` event never has a null request id.
- Messages.IsAdminCommand: the moderator id is compared as an integer; the source compares the decimal texts of the sender id and the configured id.
