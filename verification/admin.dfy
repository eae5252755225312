/**
 * The moderator commands (`handleAdminCommand`): recognition by prefix, the
 * read-only reports, `/cleanup`, `/force_cron`, and the manual `/reject`
 * loop with its outcome counters.
 */
module Admin {

  import opened Optional
  import opened Types
  import opened Strings
  import Cleanup
  import Sweeper

  /** The moderator commands, by the prefix that selects them. */
  datatype Command =
    | StatusCmd
    | PendingCmd
    | ConfigCmd
    | HelpCmd
    | CleanupCmd
    | ForceCronCmd
    | RejectCmd(target: string)
    | UnknownCmd

  /**
   * The prefix tests of `handleAdminCommand`, in source order. No two of
   * the prefixes can both start one text, so each command is selected
   * exactly when its own prefix matches, whatever the order of the tests.
   * `/reject` needs the space after it; its target is the second
   * space-separated field, which always exists then.
   */
  function ParseCommand(text: string): (c: Command)
    ensures c == StatusCmd <==> StartsWith(text, "/status")
    ensures c == PendingCmd <==> StartsWith(text, "/pending")
    ensures c == ConfigCmd <==> StartsWith(text, "/config")
    ensures c == HelpCmd <==> StartsWith(text, "/help")
    ensures c == CleanupCmd <==> StartsWith(text, "/cleanup")
    ensures c == ForceCronCmd <==> StartsWith(text, "/force_cron")
    ensures c.RejectCmd? <==> StartsWith(text, "/reject ")
    ensures c.RejectCmd? ==> SecondField(text) == Some(c.target)
  {
    PrefixHead(text, "/status");
    PrefixHead(text, "/pending");
    PrefixHead(text, "/config");
    PrefixHead(text, "/help");
    PrefixHead(text, "/cleanup");
    PrefixHead(text, "/force_cron");
    PrefixHead(text, "/reject ");
    if StartsWith(text, "/status") then StatusCmd
    else if StartsWith(text, "/pending") then PendingCmd
    else if StartsWith(text, "/config") then ConfigCmd
    else if StartsWith(text, "/help") then HelpCmd
    else if StartsWith(text, "/cleanup") then CleanupCmd
    else if StartsWith(text, "/force_cron") then ForceCronCmd
    else if StartsWith(text, "/reject ") then
      assert text[7] == ' ';
      RejectCmd(SecondField(text).value)
    else UnknownCmd
  }

  /** A text that starts with a command prefix agrees with it on the characters that tell the prefixes apart. */
  lemma PrefixHead(s: string, p: string)
    requires |p| >= 3
    ensures StartsWith(s, p) ==> s[1] == p[1] && s[2] == p[2]
  {
    if StartsWith(s, p) {
      assert s[..|p|][1] == p[1] && s[..|p|][2] == p[2];
    }
  }

  /** The substring in a decline error that the manual reject treats as "already gone". */
  const HideRequesterMissing: string := "HIDE_REQUESTER_MISSING"

  /** Whether the platform's answer to a decline lets the manual reject mark the row `rejected`. */
  predicate RejectSettles(res: ApiResult) {
    res.Ok? || (res.ApiError? && Contains(res.description, HideRequesterMissing))
  }

  /** The counters the manual reject reports. */
  datatype RejectTally = RejectTally(rejected: nat, failed: nat, errors: seq<RejectError>)

  /** The state threaded through the reject loop. */
  datatype RejectRun = RejectRun(db: Db, outputs: seq<Output>, tally: RejectTally)

  /** One iteration of the reject loop, on the live row `k`. */
  function RejectStep(run: RejectRun, k: nat, adminId: Option<int>, now: int, decline: Responses): (res: RejectRun)
    requires k < |run.db.rows|
    ensures res.db.nextId == run.db.nextId && |res.db.rows| == |run.db.rows|
    ensures res.outputs == run.outputs + [DeclineJoinRequest(run.db.rows[k].chatId, run.db.rows[k].userId)]
    ensures res.tally.rejected + res.tally.failed == run.tally.rejected + run.tally.failed + 1
    ensures res.tally.failed - |res.tally.errors| == run.tally.failed - |run.tally.errors|
    ensures RejectSettles(decline(run.db.rows[k].id)) ==>
      && res.db.rows == run.db.rows[k := run.db.rows[k].(status := Rejected)]
      && |res.db.events| == |run.db.events| + 1
      && res.db.events[..|run.db.events|] == run.db.events
      && res.tally.failed == run.tally.failed
    ensures var r, answer := run.db.rows[k], decline(run.db.rows[k].id);
      RejectSettles(answer) ==>
        res.db.events == run.db.events + [Event(Some(r.id), r.userId, if answer.Ok? then EvAdminRejected(adminId) else EvAdminRejectedMissing(adminId), now)]
    ensures !RejectSettles(decline(run.db.rows[k].id)) ==>
      && res.db.rows == run.db.rows
      && res.db.events == run.db.events
      && res.tally.rejected == run.tally.rejected
  {
    var r := run.db.rows[k];
    var t := run.tally;
    var outs := run.outputs + [DeclineJoinRequest(r.chatId, r.userId)];
    var answer := decline(r.id);
    if RejectSettles(answer) then
      var ev := if answer.Ok? then EvAdminRejected(adminId) else EvAdminRejectedMissing(adminId);
      var db := run.db.(rows := run.db.rows[k := r.(status := Rejected)],
                        events := run.db.events + [Event(Some(r.id), r.userId, ev, now)]);
      assert db.events[..|run.db.events|] == run.db.events;
      RejectRun(db, outs, t.(rejected := t.rejected + 1))
    else
      var err := if answer.NetError? then RejectNetFailure else RejectApiFailure(answer.description);
      RejectRun(run.db, outs, t.(failed := t.failed + 1, errors := t.errors + [err]))
  }

  /** The reject loop over rows `k..` of the table: every live row of `target` is declined once. */
  function RejectFrom(run: RejectRun, k: nat, target: int, adminId: Option<int>, now: int, decline: Responses): (res: RejectRun)
    requires k <= |run.db.rows|
    decreases |run.db.rows| - k
    ensures |res.db.rows| == |run.db.rows| && res.db.nextId == run.db.nextId
    ensures res.db.rows[..k] == run.db.rows[..k]
  {
    if k == |run.db.rows| then run
    else if Matches(LiveOfUser(target), run.db.rows[k]) then
      var q := RejectStep(run, k, adminId, now, decline);
      assert q.db.rows[..k] == run.db.rows[..k];
      RejectFrom(q, k + 1, target, adminId, now, decline)
    else RejectFrom(run, k + 1, target, adminId, now, decline)
  }

  /** What the loop leaves in row `i` of the table it started from. */
  predicate RejectResult(before: Request, after: Request, target: int, decline: Responses) {
    if Matches(LiveOfUser(target), before) && RejectSettles(decline(before.id)) then
      after == before.(status := Rejected)
    else after == before
  }

  /** One iteration of the reject loop on a live row of the target changes only that row, as `RejectResult` says. */
  lemma RejectStepFrame(run: RejectRun, k: nat, target: int, adminId: Option<int>, now: int, decline: Responses)
    requires k < |run.db.rows| && Matches(LiveOfUser(target), run.db.rows[k])
    ensures var q := RejectStep(run, k, adminId, now, decline);
      && Evolves(run.db, q.db)
      && RejectResult(run.db.rows[k], q.db.rows[k], target, decline)
      && forall i | 0 <= i < |run.db.rows| && i != k :: q.db.rows[i] == run.db.rows[i]
  {
  }

  /** Row `k` settled by one step and rows after it settled by the rest of the loop settle rows `k..`. */
  lemma RejectFrameCons(db: Db, mid: Db, last: Db, k: nat, target: int, decline: Responses)
    requires k < |db.rows| == |mid.rows| == |last.rows|
    requires Evolves(db, mid) && Evolves(mid, last)
    requires RejectResult(db.rows[k], mid.rows[k], target, decline)
    requires forall i | 0 <= i < |db.rows| && i != k :: mid.rows[i] == db.rows[i]
    requires last.rows[..k + 1] == mid.rows[..k + 1]
    requires forall i | k + 1 <= i < |mid.rows| :: RejectResult(mid.rows[i], last.rows[i], target, decline)
    ensures Evolves(db, last)
    ensures forall i | k <= i < |db.rows| :: RejectResult(db.rows[i], last.rows[i], target, decline)
  {
    EvolvesTransitive(db, mid, last);
    assert last.rows[k] == mid.rows[k];
  }

  /** A row the loop skips is left as it was, so rows after it settled settle rows `k..`. */
  lemma RejectFrameSkip(db: Db, last: Db, k: nat, target: int, decline: Responses)
    requires k < |db.rows| == |last.rows|
    requires !Matches(LiveOfUser(target), db.rows[k])
    requires Evolves(db, last)
    requires last.rows[..k + 1] == db.rows[..k + 1]
    requires forall i | k + 1 <= i < |db.rows| :: RejectResult(db.rows[i], last.rows[i], target, decline)
    ensures forall i | k <= i < |db.rows| :: RejectResult(db.rows[i], last.rows[i], target, decline)
  {
    assert last.rows[k] == db.rows[k];
  }

  /**
   * Each live row of the target user is marked `rejected` exactly when its
   * decline succeeded or found the request already gone; every other row,
   * and every row that failed, is left as it was. Events are only appended.
   */
  lemma {:induction false} RejectFromFrame(run: RejectRun, k: nat, target: int, adminId: Option<int>, now: int, decline: Responses)
    requires k <= |run.db.rows|
    decreases |run.db.rows| - k, 1
    ensures var res := RejectFrom(run, k, target, adminId, now, decline);
      && Evolves(run.db, res.db)
      && forall i | k <= i < |run.db.rows| :: RejectResult(run.db.rows[i], res.db.rows[i], target, decline)
  {
    if k < |run.db.rows| {
      if Matches(LiveOfUser(target), run.db.rows[k]) {
        RejectFromFrameAt(run, k, target, adminId, now, decline);
      } else {
        RejectFromFrame(run, k + 1, target, adminId, now, decline);
        RejectFrameSkip(run.db, RejectFrom(run, k + 1, target, adminId, now, decline).db, k, target, decline);
      }
    }
  }

  /** `RejectFromFrame` when row `k` is a live row of the target. */
  lemma {:induction false} RejectFromFrameAt(run: RejectRun, k: nat, target: int, adminId: Option<int>, now: int, decline: Responses)
    requires k < |run.db.rows| && Matches(LiveOfUser(target), run.db.rows[k])
    decreases |run.db.rows| - k, 0
    ensures var res := RejectFrom(run, k, target, adminId, now, decline);
      && Evolves(run.db, res.db)
      && forall i | k <= i < |run.db.rows| :: RejectResult(run.db.rows[i], res.db.rows[i], target, decline)
  {
    var q := RejectStep(run, k, adminId, now, decline);
    RejectFromFrame(q, k + 1, target, adminId, now, decline);
    RejectStepFrame(run, k, target, adminId, now, decline);
    RejectFrameCons(run.db, q.db, RejectFrom(q, k + 1, target, adminId, now, decline).db, k, target, decline);
  }

  /**
   * Every live row of the target is counted once, as rejected or as failed,
   * and every failure leaves one entry in the error list.
   */
  lemma {:induction false} RejectFromCounts(run: RejectRun, k: nat, target: int, adminId: Option<int>, now: int, decline: Responses)
    requires k <= |run.db.rows|
    decreases |run.db.rows| - k
    ensures var res := RejectFrom(run, k, target, adminId, now, decline);
      && res.tally.rejected + res.tally.failed == run.tally.rejected + run.tally.failed + CountIf(run.db.rows[k..], LiveOfUser(target))
      && res.tally.failed - |res.tally.errors| == run.tally.failed - |run.tally.errors|
  {
    if k < |run.db.rows| {
      var rest := run.db.rows[k + 1..];
      assert run.db.rows[k..] == [run.db.rows[k]] + rest;
      CountIfPrepend(run.db.rows[k], rest, LiveOfUser(target));
      if Matches(LiveOfUser(target), run.db.rows[k]) {
        var q := RejectStep(run, k, adminId, now, decline);
        RejectFromCounts(q, k + 1, target, adminId, now, decline);
        assert q.db.rows[k + 1..] == rest;
      } else {
        RejectFromCounts(run, k + 1, target, adminId, now, decline);
      }
    } else {
      assert run.db.rows[k..] == [];
    }
  }

  /** The live rows a `/reject <target>` selects, as SQLite compares the text target with the integer column. */
  function RejectMatches(rows: seq<Request>, target: string): (n: nat)
    ensures n > 0 ==> ParseInteger(target).Some?
    ensures ParseInteger(target).Some? ==> n == CountIf(rows, LiveOfUser(ParseInteger(target).value))
  {
    match ParseInteger(target)
    case None => 0
    case Some(u) => CountIf(rows, LiveOfUser(u))
  }

  /** A target typed as the decimal text of a user id selects exactly that user's live rows. */
  lemma RejectTargetOfId(rows: seq<Request>, u: int)
    ensures RejectMatches(rows, IntText(u)) == CountIf(rows, LiveOfUser(u))
  {
    ParseIntegerOfIntText(u);
  }

  /** `/reject <target>` with a non-empty target. */
  function RejectCommand(env: Env, db: Db, target: string, chatId: int, now: int, decline: Responses): (res: Reaction)
    ensures RejectMatches(db.rows, target) == 0 ==> res == Reaction(db, [Send(Chat(chatId), RejectNotFound(target))])
    ensures |res.outputs| == RejectMatches(db.rows, target) + 1
    ensures var n := RejectMatches(db.rows, target);
      n > 0 ==>
        && res.outputs[..n] == RejectDeclines(db.rows, ParseInteger(target).value)
        && res.outputs[n].Send? && res.outputs[n].to == Chat(chatId) && res.outputs[n].notice.RejectReport?
  {
    if RejectMatches(db.rows, target) == 0 then
      Reaction(db, [Send(Chat(chatId), RejectNotFound(target))])
    else
      var u := ParseInteger(target).value;
      var run := RejectFrom(RejectRun(db, [], RejectTally(0, 0, [])), 0, u, env.adminUserId, now, decline);
      assert run.outputs == RejectDeclines(db.rows, u) by {
        RejectFromOutputs(RejectRun(db, [], RejectTally(0, 0, [])), 0, u, env.adminUserId, now, decline);
        assert db.rows[0..] == db.rows;
      }
      Reaction(run.db, run.outputs + [Send(Chat(chatId), RejectReport(target, run.tally.rejected, run.tally.failed, run.tally.errors))])
  }

  /** The decline calls of a manual reject: one per live row of `u`, in table order, to that row's chat and user. */
  function RejectDeclines(rows: seq<Request>, u: int): (ds: seq<Output>)
    ensures |ds| == CountIf(rows, LiveOfUser(u))
    ensures forall d | d in ds :: d.DeclineJoinRequest? && d.userId == u
    decreases |rows|
  {
    if rows == [] then []
    else
      CountIfPrepend(rows[0], rows[1..], LiveOfUser(u));
      assert rows == [rows[0]] + rows[1..];
      (if Matches(LiveOfUser(u), rows[0]) then [DeclineJoinRequest(rows[0].chatId, rows[0].userId)] else [])
      + RejectDeclines(rows[1..], u)
  }

  /** The loop from row `k` appends exactly the decline calls for the target's live rows from `k` on. */
  lemma {:induction false} RejectFromOutputs(run: RejectRun, k: nat, target: int, adminId: Option<int>, now: int, decline: Responses)
    requires k <= |run.db.rows|
    decreases |run.db.rows| - k
    ensures RejectFrom(run, k, target, adminId, now, decline).outputs == run.outputs + RejectDeclines(run.db.rows[k..], target)
  {
    if k < |run.db.rows| {
      var r, rest := run.db.rows[k], run.db.rows[k + 1..];
      assert run.db.rows[k..][0] == r && run.db.rows[k..][1..] == rest;
      if Matches(LiveOfUser(target), r) {
        var q := RejectStep(run, k, adminId, now, decline);
        RejectFromOutputs(q, k + 1, target, adminId, now, decline);
        assert q.db.rows[k + 1..] == rest;
        var d := DeclineJoinRequest(r.chatId, r.userId);
        assert RejectDeclines(run.db.rows[k..], target) == [d] + RejectDeclines(rest, target);
        Sweeper.AppendAssoc(run.outputs, [d], RejectDeclines(rest, target));
      } else {
        RejectFromOutputs(run, k + 1, target, adminId, now, decline);
        assert RejectDeclines(run.db.rows[k..], target) == RejectDeclines(rest, target);
      }
    } else {
      assert run.db.rows[k..] == [];
    }
  }

  /**
   * The outcome of a `/reject` that found rows: the report's two counters
   * add up to the number of live rows of the user, the failures are the
   * error entries, each of those rows is `rejected` exactly when its decline
   * settled, and nothing else changes.
   */
  lemma RejectCommandOutcome(env: Env, db: Db, target: string, chatId: int, now: int, decline: Responses)
    requires RejectMatches(db.rows, target) > 0
    ensures var res := RejectCommand(env, db, target, chatId, now, decline);
      var u := ParseInteger(target).value;
      && Evolves(db, res.db)
      && res.db.nextId == db.nextId
      && (forall i | 0 <= i < |db.rows| :: RejectResult(db.rows[i], res.db.rows[i], u, decline))
      && res.outputs[|res.outputs| - 1].Send?
      && var report := res.outputs[|res.outputs| - 1].notice;
      && report.RejectReport?
      && report.rejected + report.failed == CountIf(db.rows, LiveOfUser(u))
      && report.failed == |report.rejectErrors|
  {
    var u := ParseInteger(target).value;
    var run0 := RejectRun(db, [], RejectTally(0, 0, []));
    RejectFromFrame(run0, 0, u, env.adminUserId, now, decline);
    RejectFromCounts(run0, 0, u, env.adminUserId, now, decline);
    assert db.rows[0..] == db.rows;
  }

  /** A `/reject` only moves rows forward, keeps the table size and ends with a reply to the admin chat. */
  lemma RejectCommandFrame(env: Env, db: Db, target: string, chatId: int, now: int, decline: Responses)
    ensures var res := RejectCommand(env, db, target, chatId, now, decline);
      && Evolves(db, res.db) && |res.db.rows| == |db.rows|
      && res.outputs != [] && res.outputs[|res.outputs| - 1].Send? && res.outputs[|res.outputs| - 1].to == Chat(chatId)
  {
    if RejectMatches(db.rows, target) > 0 {
      var u := ParseInteger(target).value;
      RejectFromFrame(RejectRun(db, [], RejectTally(0, 0, [])), 0, u, env.adminUserId, now, decline);
    }
  }

  /** The reply to an admin command once parsed; the reply goes to the chat the command came from. */
  function RunCommand(env: Env, db: Db, c: Command, chatId: int, now: int, decline: Responses): (res: Reaction)
    ensures (c.StatusCmd? || c.PendingCmd? || c.ConfigCmd? || c.HelpCmd? || c.UnknownCmd?) ==> res.db == db && |res.outputs| == 1
    ensures c == StatusCmd ==> res.outputs == [Send(Chat(chatId), StatusReport(CountIf(db.rows, WithStatus(Pending))))]
    ensures c == CleanupCmd ==> res.db == Cleanup.CleanupDb(db)
    ensures c == ForceCronCmd ==> res.db == Sweeper.Sweep(db, now, decline).db
    ensures c.RejectCmd? && c.target == "" ==> res == Reaction(db, [Send(Chat(chatId), RejectUsage)])
    ensures c.RejectCmd? && c.target != "" ==> res == RejectCommand(env, db, c.target, chatId, now, decline)
    ensures Evolves(db, res.db) && |res.db.rows| == |db.rows|
    ensures res.outputs != [] && res.outputs[|res.outputs| - 1].Send? && res.outputs[|res.outputs| - 1].to == Chat(chatId)
  {
    match c
    case StatusCmd => Reaction(db, [Send(Chat(chatId), StatusReport(CountIf(db.rows, WithStatus(Pending))))])
    case PendingCmd =>
      var n := CountIf(db.rows, WithStatus(Pending));
      Reaction(db, [Send(Chat(chatId), PendingReport(if n < 50 then n else 50))])
    case ConfigCmd => Reaction(db, [Send(Chat(chatId), ConfigReport(env.modChatId, env.adminUserId))])
    case HelpCmd => Reaction(db, [Send(Chat(chatId), HelpText)])
    case CleanupCmd => Reaction(Cleanup.CleanupDb(db), [Send(Chat(chatId), CleanupDone)])
    case ForceCronCmd =>
      var p := Sweeper.Sweep(db, now, decline);
      Sweeper.SweepEvolves(db, now, decline);
      Reaction(p.db, p.outputs + [Send(Chat(chatId), ForceCronReport(p.stats.remindersSent, p.stats.timeoutsProcessed, p.stats.errors))])
    case RejectCmd(target) =>
      if target == "" then Reaction(db, [Send(Chat(chatId), RejectUsage)])
      else
        RejectCommandFrame(env, db, target, chatId, now, decline);
        RejectCommand(env, db, target, chatId, now, decline)
    case UnknownCmd => Reaction(db, [Send(Chat(chatId), UnknownCommand)])
  }

  /** `handleAdminCommand`: whatever the text, rows only move forward, the table keeps its size and the last output is a reply to the chat the command came from. */
  function HandleAdminCommand(env: Env, db: Db, text: string, chatId: int, now: int, decline: Responses): (res: Reaction)
    ensures Evolves(db, res.db) && |res.db.rows| == |db.rows|
    ensures res.outputs != [] && res.outputs[|res.outputs| - 1].Send? && res.outputs[|res.outputs| - 1].to == Chat(chatId)
  {
    RunCommand(env, db, ParseCommand(text), chatId, now, decline)
  }
}
