/**
 * The scheduled sweep (`processRemindersAndTimeouts`): a reminder pass over
 * `pending` rows, a timeout pass over expired live rows that re-reads the
 * table for every row, and a final duplicate cleanup.
 */
module Sweeper {

  import opened Optional
  import opened Types
  import Strings
  import Markdown
  import Cleanup

  /** JavaScript `Math.ceil(a / b)` for a positive divisor, computed exactly. */
  function CeilDiv(a: int, b: int): (q: int)
    requires b > 0
    ensures b * (q - 1) < a <= b * q
  {
    -((-a) / b)
  }

  /** Whole days left until the row expires, rounded up. */
  function DaysLeft(r: Request, now: int): int {
    CeilDiv(r.expiresAt - now, DaySeconds)
  }

  /** The reminder query: `pending`, submitted at least a day ago, and not reminded in the last day. */
  predicate ReminderCandidate(r: Request, now: int) {
    && r.requestDate <= now - DaySeconds
    && r.status == Pending
    && (r.lastReminderTs.None? || r.lastReminderTs.value <= now - DaySeconds)
  }

  /** A candidate is reminded unless it has no whole day left. */
  predicate ReminderDue(r: Request, now: int) {
    ReminderCandidate(r, now) && DaysLeft(r, now) > 0
  }

  function CountDue(rows: seq<Request>, now: int): (n: nat)
    ensures n <= |rows|
  {
    if rows == [] then 0 else Indicator(ReminderDue(rows[0], now)) + CountDue(rows[1..], now)
  }

  /** The counters `processRemindersAndTimeouts` returns. */
  datatype SweepStats = SweepStats(remindersSent: nat, timeoutsProcessed: nat, errors: seq<SweepError>)

  /** The state threaded through a pass: the database, the calls made so far, the counters. */
  datatype Pass = Pass(db: Db, outputs: seq<Output>, stats: SweepStats)

  /** One iteration of the reminder loop, on row `k`. */
  function RemindStep(p: Pass, k: nat, now: int): Pass
    requires k < |p.db.rows|
  {
    var r := p.db.rows[k];
    if !ReminderDue(r, now) then p
    else
      var d := DaysLeft(r, now);
      Pass(
        p.db.(rows := p.db.rows[k := r.(lastReminderTs := Some(now))],
              events := p.db.events + [Event(Some(r.id), r.userId, EvReminderSent(d), now)]),
        p.outputs + [Send(User(r.userId), DailyReminder(d))],
        p.stats.(remindersSent := p.stats.remindersSent + 1))
  }

  /** The `reminder_sent` events for the due rows of `rows`, one per row in table order, each naming its days left. */
  function ReminderEvents(rows: seq<Request>, now: int): (evs: seq<Event>)
    ensures |evs| == CountDue(rows, now)
  {
    if rows == [] then []
    else
      var r := rows[0];
      (if ReminderDue(r, now) then [Event(Some(r.id), r.userId, EvReminderSent(DaysLeft(r, now)), now)] else [])
      + ReminderEvents(rows[1..], now)
  }

  /** The reminders for the due rows of `rows`, one per row in table order, each to the row's user with its days left. */
  function Reminders(rows: seq<Request>, now: int): (outs: seq<Output>)
    ensures |outs| == CountDue(rows, now)
  {
    if rows == [] then []
    else
      var r := rows[0];
      (if ReminderDue(r, now) then [Send(User(r.userId), DailyReminder(DaysLeft(r, now)))] else [])
      + Reminders(rows[1..], now)
  }

  /** The reminder loop from row `k` to the end of the table. */
  function RemindFrom(p: Pass, k: nat, now: int): (res: Pass)
    requires k <= |p.db.rows|
    decreases |p.db.rows| - k
    ensures |res.db.rows| == |p.db.rows|
    ensures forall i | 0 <= i < k :: res.db.rows[i] == p.db.rows[i]
    ensures forall i | k <= i < |p.db.rows| ::
              res.db.rows[i] == if ReminderDue(p.db.rows[i], now) then p.db.rows[i].(lastReminderTs := Some(now)) else p.db.rows[i]
    ensures res.stats == p.stats.(remindersSent := p.stats.remindersSent + CountDue(p.db.rows[k..], now))
    ensures res.db.events == p.db.events + ReminderEvents(p.db.rows[k..], now)
    ensures res.outputs == p.outputs + Reminders(p.db.rows[k..], now)
    ensures res.db.nextId == p.db.nextId
  {
    if k == |p.db.rows| then p
    else
      var q := RemindStep(p, k, now);
      assert p.db.rows[k..][1..] == p.db.rows[k + 1..];
      RemindStepAppends(p, k, now);
      RemindFrom(q, k + 1, now)
  }

  /** One reminder step appends exactly the head of what the rest of the loop is expected to append. */
  lemma RemindStepAppends(p: Pass, k: nat, now: int)
    requires k < |p.db.rows|
    ensures var q := RemindStep(p, k, now);
      && q.db.rows[k + 1..] == p.db.rows[k + 1..]
      && q.db.events + ReminderEvents(q.db.rows[k + 1..], now) == p.db.events + ReminderEvents(p.db.rows[k..], now)
      && q.outputs + Reminders(q.db.rows[k + 1..], now) == p.outputs + Reminders(p.db.rows[k..], now)
  {
    var q := RemindStep(p, k, now);
    var r, rest := p.db.rows[k], p.db.rows[k..];
    assert rest[0] == r && rest[1..] == p.db.rows[k + 1..];
    assert q.db.rows[k + 1..] == p.db.rows[k + 1..];
    var evs := if ReminderDue(r, now) then [Event(Some(r.id), r.userId, EvReminderSent(DaysLeft(r, now)), now)] else [];
    var outs := if ReminderDue(r, now) then [Send(User(r.userId), DailyReminder(DaysLeft(r, now)))] else [];
    assert q.db.events == p.db.events + evs && q.outputs == p.outputs + outs;
    assert ReminderEvents(rest, now) == evs + ReminderEvents(p.db.rows[k + 1..], now);
    assert Reminders(rest, now) == outs + Reminders(p.db.rows[k + 1..], now);
    AppendAssoc(p.db.events, evs, ReminderEvents(p.db.rows[k + 1..], now));
    AppendAssoc(p.outputs, outs, Reminders(p.db.rows[k + 1..], now));
  }

  function EmptyStats(): SweepStats { SweepStats(0, 0, []) }

  /**
   * The reminder pass: every due row gets `last_reminder_ts = now`, one
   * `reminder_sent` event and one reminder naming its days left; no other
   * row changes.
   */
  function ReminderPass(db: Db, now: int): (res: Pass)
    ensures Evolves(db, res.db)
    ensures |res.db.rows| == |db.rows|
    ensures forall i | 0 <= i < |db.rows| ::
              res.db.rows[i] == if ReminderDue(db.rows[i], now) then db.rows[i].(lastReminderTs := Some(now)) else db.rows[i]
    ensures res.stats == SweepStats(CountDue(db.rows, now), 0, [])
    ensures res.db.events == db.events + ReminderEvents(db.rows, now)
    ensures res.outputs == Reminders(db.rows, now)
  {
    var res := RemindFrom(Pass(db, [], EmptyStats()), 0, now);
    assert db.rows[0..] == db.rows;
    res
  }

  /** Answered rows and rows of other terminal statuses are never reminded. */
  lemma OnlyPendingReminded(db: Db, now: int, i: nat)
    requires i < |db.rows| && db.rows[i].status != Pending
    ensures ReminderPass(db, now).db.rows[i] == db.rows[i]
  {
  }

  lemma {:induction false} CountDueZero(rows: seq<Request>, now: int)
    ensures CountDue(rows, now) == 0 <==> forall i | 0 <= i < |rows| :: !ReminderDue(rows[i], now)
  {
    if rows != [] {
      CountDueZero(rows[1..], now);
      assert forall i | 1 <= i < |rows| :: rows[i] == rows[1..][i - 1];
    }
  }

  /**
   * A second reminder pass less than a day after the first reminds none of
   * the rows the first one reminded; at the same instant it does nothing at all.
   */
  lemma ReminderPassIdempotent(db: Db, now: int, later: int)
    requires now <= later < now + DaySeconds
    ensures var first := ReminderPass(db, now).db;
            forall i | 0 <= i < |db.rows| && ReminderDue(db.rows[i], now) :: !ReminderDue(first.rows[i], later)
    ensures var first := ReminderPass(db, now).db;
            ReminderPass(first, now) == Pass(first, [], EmptyStats())
  {
    var first := ReminderPass(db, now).db;
    forall i | 0 <= i < |first.rows| ensures !ReminderDue(first.rows[i], now) {
    }
    CountDueZero(first.rows, now);
    var second := ReminderPass(first, now);
    assert second.db.rows == first.rows;
  }

  /** A newer live row of the same pair exists (the source's `id > ?` query). */
  predicate HasNewerLive(rows: seq<Request>, k: int)
    requires 0 <= k < |rows|
  {
    exists j | 0 <= j < |rows| :: rows[j].SamePair(rows[k]) && rows[j].status.IsLive() && rows[j].id > rows[k].id
  }

  /** The timeout query: live and past its expiry. */
  predicate TimeoutCandidate(r: Request, now: int) {
    r.expiresAt <= now && r.status.IsLive()
  }

  /** What a decline attempt on an expired row amounts to. */
  datatype Verdict =
    | Declined
    | AccountGone(description: string)
    | RequestGone(description: string)
    | Unresolved(error: SweepError)

  /**
   * The classification of the decline response: account errors are checked
   * before the missing-request error; anything else, and a transport
   * failure, leaves the row for the next sweep.
   */
  function Classify(res: ApiResult, userId: int): (v: Verdict)
    ensures res.Ok? <==> v.Declined?
    ensures res.NetError? <==> v == Unresolved(NetFailure(userId))
    ensures v.AccountGone? <==>
              res.ApiError? && (Strings.Contains(res.description, "USER_ID_INVALID") || Strings.Contains(res.description, "user is deactivated"))
    ensures v.RequestGone? <==>
              && res.ApiError? && Strings.Contains(res.description, "HIDE_REQUESTER_MISSING")
              && !Strings.Contains(res.description, "USER_ID_INVALID") && !Strings.Contains(res.description, "user is deactivated")
    ensures v.Unresolved? && res.ApiError? ==> v.error == ApiFailure(userId, res.description)
  {
    match res
    case Ok => Declined
    case NetError => Unresolved(NetFailure(userId))
    case ApiError(d) =>
      if Strings.Contains(d, "USER_ID_INVALID") || Strings.Contains(d, "user is deactivated") then AccountGone(d)
      else if Strings.Contains(d, "HIDE_REQUESTER_MISSING") then RequestGone(d)
      else Unresolved(ApiFailure(userId, d))
  }

  /** The terminal status a verdict moves the row to, if any. */
  function VerdictStatus(v: Verdict): Option<Status> {
    match v
    case Declined => Some(TimedOut)
    case AccountGone(_) => Some(UserMissingOrBanned)
    case RequestGone(_) => Some(RequestNoLongerValid)
    case Unresolved(_) => None
  }

  function VerdictEvent(v: Verdict): EventType
    requires !v.Unresolved?
  {
    match v
    case Declined => EvAutoRejected
    case AccountGone(d) => EvAutoRejectedInvalid(d)
    case RequestGone(d) => EvAutoRejectedMissing(d)
  }

  /** The decline calls among `outs`, in order. */
  function Declines(outs: seq<Output>): (ds: seq<Output>)
    ensures |ds| <= |outs|
    ensures forall n | 0 <= n < |ds| :: ds[n].DeclineJoinRequest?
  {
    if outs == [] then []
    else (if outs[0].DeclineJoinRequest? then [outs[0]] else []) + Declines(outs[1..])
  }

  function CountDeclines(outs: seq<Output>): nat { |Declines(outs)| }

  lemma {:induction false} DeclinesAppend(a: seq<Output>, b: seq<Output>)
    ensures Declines(a + b) == Declines(a) + Declines(b)
  {
    if a != [] {
      assert (a + b)[1..] == a[1..] + b;
      DeclinesAppend(a[1..], b);
    } else {
      assert a + b == b;
    }
  }

  /**
   * What the timeout loop does to a candidate `before`: with a newer live
   * row of its pair (`newer`) it becomes `superseded`; otherwise it takes the
   * terminal status its decline answer dictates, or stays exactly as it was
   * when the answer settles nothing.
   */
  predicate TimeoutResult(before: Request, after: Request, decline: Responses, newer: bool) {
    var v := Classify(decline(before.id), before.userId);
    if newer then after == before.(status := Superseded)
    else if VerdictStatus(v).Some? then after == before.(status := VerdictStatus(v).value)
    else after == before
  }

  /** After a successful decline: the timeout notice to the applicant, then the auto-reject report to the moderators. */
  function TimeoutNotices(r: Request): seq<Output> {
    [Send(User(r.userId), TimeoutNotice),
     Send(Moderators, AutoRejectReport(r.id, Markdown.EscapeMarkdownLegacy(r.username),
                                       Markdown.EscapeMarkdownLegacy(r.displayName), r.userId))]
  }

  /**
   * One iteration of the timeout loop, on the live expired row `k`. When a
   * newer live row of its pair exists the row becomes `superseded` with no
   * platform call and no event. Otherwise one decline call is made and its
   * verdict applied: a terminal status with its event and a count, or the
   * row left untouched; every outcome but success adds one error entry.
   */
  function TimeoutStep(p: Pass, k: nat, now: int, decline: Responses): (res: Pass)
    requires k < |p.db.rows| && p.db.rows[k].status.IsLive()
    ensures |res.db.rows| == |p.db.rows|
    ensures forall i | 0 <= i < |p.db.rows| && i != k :: res.db.rows[i] == p.db.rows[i]
    ensures res.stats.remindersSent == p.stats.remindersSent
    ensures res.db.nextId == p.db.nextId
    ensures var r := p.db.rows[k];
      HasNewerLive(p.db.rows, k) ==>
        && res.db.rows[k] == r.(status := Superseded)
        && res.db.events == p.db.events && res.outputs == p.outputs && res.stats == p.stats
    ensures var r, v := p.db.rows[k], Classify(decline(p.db.rows[k].id), p.db.rows[k].userId);
      !HasNewerLive(p.db.rows, k) ==>
        && |res.outputs| > |p.outputs|
        && res.outputs[..|p.outputs| + 1] == p.outputs + [DeclineJoinRequest(r.chatId, r.userId)]
        && (VerdictStatus(v).Some? ==>
              && res.db.rows[k] == r.(status := VerdictStatus(v).value)
              && res.db.events == p.db.events + [Event(Some(r.id), r.userId, VerdictEvent(v), now)]
              && res.stats.timeoutsProcessed == p.stats.timeoutsProcessed + 1)
        && (VerdictStatus(v).None? ==>
              && res.db.rows[k] == r
              && res.db.events == p.db.events
              && res.stats.timeoutsProcessed == p.stats.timeoutsProcessed)
        && (v.Declined? <==> res.stats.errors == p.stats.errors)
        && (!v.Declined? ==> |res.stats.errors| == |p.stats.errors| + 1)
    ensures var r, v := p.db.rows[k], Classify(decline(p.db.rows[k].id), p.db.rows[k].userId);
      !HasNewerLive(p.db.rows, k) ==>
        res.outputs == p.outputs + [DeclineJoinRequest(r.chatId, r.userId)] + if v.Declined? then TimeoutNotices(r) else []
    ensures TimeoutResult(p.db.rows[k], res.db.rows[k], decline, HasNewerLive(p.db.rows, k))
    ensures Declines(res.outputs) == Declines(p.outputs) +
              if HasNewerLive(p.db.rows, k) then [] else [DeclineJoinRequest(p.db.rows[k].chatId, p.db.rows[k].userId)]
    ensures CountDeclines(res.outputs) + |p.stats.errors|
         == CountDeclines(p.outputs) + |res.stats.errors| + Indicator(res.db.rows[k].status == TimedOut)
  {
    var rows := p.db.rows;
    var r := rows[k];
    if HasNewerLive(rows, k) then
      p.(db := p.db.(rows := rows[k := r.(status := Superseded)]))
    else
      var v := Classify(decline(r.id), r.userId);
      var d := DeclineJoinRequest(r.chatId, r.userId);
      var call := p.outputs + [d];
      DeclinesAppend(p.outputs, [d]);
      assert Declines([d]) == [d] by { assert [d][1..] == []; }
      if v.Unresolved? then
        p.(outputs := call, stats := p.stats.(errors := p.stats.errors + [v.error]))
      else
        var db := p.db.(rows := rows[k := r.(status := VerdictStatus(v).value)],
                        events := p.db.events + [Event(Some(r.id), r.userId, VerdictEvent(v), now)]);
        var stats := p.stats.(timeoutsProcessed := p.stats.timeoutsProcessed + 1);
        if v.Declined? then
          var notices := TimeoutNotices(r);
          assert (call + notices)[..|p.outputs| + 1] == call;
          DeclinesAppend(call, notices);
          assert Declines(notices) == [] by { assert notices[1..][1..] == []; }
          Pass(db, call + notices, stats)
        else
          var marked := if v.AccountGone? then MarkedUserMissing(r.userId) else MarkedRequestMissing(r.userId);
          Pass(db, call, stats.(errors := stats.errors + [marked]))
  }

  /**
   * The timeout loop from row `k` on. Rows are visited in table order and
   * each candidate is judged against the table as it stands at its turn.
   */
  function TimeoutFrom(p: Pass, k: nat, now: int, decline: Responses): (res: Pass)
    requires k <= |p.db.rows|
    decreases |p.db.rows| - k
    ensures |res.db.rows| == |p.db.rows|
    ensures forall i | 0 <= i < k :: res.db.rows[i] == p.db.rows[i]
    ensures res.db.nextId == p.db.nextId
    ensures res.stats.remindersSent == p.stats.remindersSent
  {
    if k == |p.db.rows| then p
    else if TimeoutCandidate(p.db.rows[k], now) then TimeoutFrom(TimeoutStep(p, k, now, decline), k + 1, now, decline)
    else TimeoutFrom(p, k + 1, now, decline)
  }

  /** The timeout loop changes the table only as every handler may, and touches only candidates. */
  lemma {:induction false} TimeoutFromEvolves(p: Pass, k: nat, now: int, decline: Responses)
    requires k <= |p.db.rows|
    decreases |p.db.rows| - k
    ensures var res := TimeoutFrom(p, k, now, decline);
      && Evolves(p.db, res.db)
      && (forall i | k <= i < |p.db.rows| && !TimeoutCandidate(p.db.rows[i], now) :: res.db.rows[i] == p.db.rows[i])
  {
    if k < |p.db.rows| {
      if TimeoutCandidate(p.db.rows[k], now) {
        var q := TimeoutStep(p, k, now, decline);
        TimeoutFromEvolves(q, k + 1, now, decline);
        assert TimeoutFrom(p, k, now, decline) == TimeoutFrom(q, k + 1, now, decline);
      } else {
        TimeoutFromEvolves(p, k + 1, now, decline);
      }
    }
  }

  /** Changing a row older than row `i` (keeping its id) changes nothing about the newer live rows of row `i`. */
  lemma NewerLiveUnaffected(rows: seq<Request>, k: nat, x: Request, i: nat)
    requires IdsIncreasing(rows) && k < i < |rows| && x.id == rows[k].id
    ensures HasNewerLive(rows[k := x], i) <==> HasNewerLive(rows, i)
  {
    var a := rows[k := x];
    if HasNewerLive(a, i) {
      var j :| 0 <= j < |a| && a[j].SamePair(a[i]) && a[j].status.IsLive() && a[j].id > a[i].id;
      assert j != k;
      assert rows[j].SamePair(rows[i]) && rows[j].status.IsLive() && rows[j].id > rows[i].id;
    }
    if HasNewerLive(rows, i) {
      var j :| 0 <= j < |rows| && rows[j].SamePair(rows[i]) && rows[j].status.IsLive() && rows[j].id > rows[i].id;
      assert j > i;
      assert a[j].SamePair(a[i]) && a[j].status.IsLive() && a[j].id > a[i].id;
    }
  }

  /** Whether a row has a newer live row depends only on the ids, pairs and statuses of the table. */
  lemma HasNewerLiveSameKeys(a: seq<Request>, b: seq<Request>, i: nat)
    requires |a| == |b| && i < |a|
    requires forall m | 0 <= m < |a| :: a[m].id == b[m].id && a[m].SamePair(b[m]) && a[m].status == b[m].status
    ensures HasNewerLive(a, i) <==> HasNewerLive(b, i)
  {
    if HasNewerLive(a, i) {
      var j :| 0 <= j < |a| && a[j].SamePair(a[i]) && a[j].status.IsLive() && a[j].id > a[i].id;
      assert b[j].SamePair(b[i]) && b[j].status.IsLive() && b[j].id > b[i].id;
    }
    if HasNewerLive(b, i) {
      var j :| 0 <= j < |b| && b[j].SamePair(b[i]) && b[j].status.IsLive() && b[j].id > b[i].id;
      assert a[j].SamePair(a[i]) && a[j].status.IsLive() && a[j].id > a[i].id;
    }
  }

  /** One iteration changes only row `k` and keeps its id, so ids stay increasing and later rows keep their newer live rows. */
  lemma StepKeepsOrder(p: Pass, k: nat, now: int, decline: Responses)
    requires k < |p.db.rows| && p.db.rows[k].status.IsLive() && IdsIncreasing(p.db.rows)
    ensures var q := TimeoutStep(p, k, now, decline);
      && q.db.rows == p.db.rows[k := q.db.rows[k]]
      && q.db.rows[k].id == p.db.rows[k].id
      && IdsIncreasing(q.db.rows)
      && forall i | k < i < |p.db.rows| :: HasNewerLive(q.db.rows, i) == HasNewerLive(p.db.rows, i)
  {
    var q := TimeoutStep(p, k, now, decline);
    assert q.db.rows == p.db.rows[k := q.db.rows[k]];
    forall i | k < i < |p.db.rows| ensures HasNewerLive(q.db.rows, i) == HasNewerLive(p.db.rows, i) {
      NewerLiveUnaffected(p.db.rows, k, q.db.rows[k], i);
    }
  }

  /**
   * Each candidate ends the timeout loop as its own situation on the table
   * the loop started from dictates: superseded when a newer live row of its
   * pair exists, otherwise as its decline answer says, whatever happened to
   * the rows before it. A failure on one row never holds up the next.
   */
  lemma {:induction false} TimeoutFromFrame(p: Pass, k: nat, now: int, decline: Responses)
    requires k <= |p.db.rows| && IdsIncreasing(p.db.rows)
    decreases |p.db.rows| - k
    ensures var res := TimeoutFrom(p, k, now, decline);
      forall i | k <= i < |p.db.rows| && TimeoutCandidate(p.db.rows[i], now) ::
        TimeoutResult(p.db.rows[i], res.db.rows[i], decline, HasNewerLive(p.db.rows, i))
  {
    if k < |p.db.rows| {
      if TimeoutCandidate(p.db.rows[k], now) {
        var q := TimeoutStep(p, k, now, decline);
        StepKeepsOrder(p, k, now, decline);
        TimeoutFromFrame(q, k + 1, now, decline);
        assert TimeoutFrom(p, k, now, decline) == TimeoutFrom(q, k + 1, now, decline);
      } else {
        TimeoutFromFrame(p, k + 1, now, decline);
      }
    }
  }

  /** The rows from `k` on that the timeout loop declines, in table order: the candidates with no newer live row. */
  function DeclinedRows(rows: seq<Request>, k: nat, now: int): (ds: seq<nat>)
    requires k <= |rows|
    decreases |rows| - k
    ensures forall n | 0 <= n < |ds| :: k <= ds[n] < |rows| && TimeoutCandidate(rows[ds[n]], now) && !HasNewerLive(rows, ds[n])
    ensures forall i | k <= i < |rows| && TimeoutCandidate(rows[i], now) && !HasNewerLive(rows, i) :: i in ds
    ensures forall n, m | 0 <= n < m < |ds| :: ds[n] < ds[m]
  {
    if k == |rows| then []
    else (if TimeoutCandidate(rows[k], now) && !HasNewerLive(rows, k) then [k] else []) + DeclinedRows(rows, k + 1, now)
  }

  /** The decline calls for the rows at positions `ds`, in that order, each to the row's chat and user. */
  function DeclineCalls(rows: seq<Request>, ds: seq<nat>): (calls: seq<Output>)
    requires forall n | 0 <= n < |ds| :: ds[n] < |rows|
    ensures |calls| == |ds|
    ensures forall n | 0 <= n < |ds| :: calls[n] == DeclineJoinRequest(rows[ds[n]].chatId, rows[ds[n]].userId)
  {
    if ds == [] then [] else [DeclineJoinRequest(rows[ds[0]].chatId, rows[ds[0]].userId)] + DeclineCalls(rows, ds[1..])
  }

  lemma {:induction false} DeclinedRowsUnaffected(rows: seq<Request>, k: nat, x: Request, m: nat, now: int)
    requires IdsIncreasing(rows) && k < m <= |rows| && x.id == rows[k].id
    decreases |rows| - m
    ensures DeclinedRows(rows[k := x], m, now) == DeclinedRows(rows, m, now)
  {
    if m < |rows| {
      NewerLiveUnaffected(rows, k, x, m);
      DeclinedRowsUnaffected(rows, k, x, m + 1, now);
    }
  }

  lemma {:induction false} DeclinedRowsSameKeys(a: seq<Request>, b: seq<Request>, k: nat, now: int)
    requires |a| == |b| && k <= |a|
    requires forall m | 0 <= m < |a| ::
      a[m].id == b[m].id && a[m].SamePair(b[m]) && a[m].status == b[m].status && a[m].expiresAt == b[m].expiresAt
    decreases |a| - k
    ensures DeclinedRows(a, k, now) == DeclinedRows(b, k, now)
  {
    if k < |a| {
      HasNewerLiveSameKeys(a, b, k);
      DeclinedRowsSameKeys(a, b, k + 1, now);
    }
  }

  lemma DeclineCallsSamePairs(a: seq<Request>, b: seq<Request>, ds: seq<nat>)
    requires |a| == |b| && forall m | 0 <= m < |a| :: a[m].SamePair(b[m])
    requires forall n | 0 <= n < |ds| :: ds[n] < |a|
    ensures DeclineCalls(a, ds) == DeclineCalls(b, ds)
  {
  }

  /**
   * The decline calls of the timeout loop: one per candidate without a newer
   * live row on the table the loop started from, in table order, to that
   * row's chat and user; every other output is a message.
   */
  lemma {:induction false} TimeoutFromDeclines(p: Pass, k: nat, now: int, decline: Responses)
    requires k <= |p.db.rows| && IdsIncreasing(p.db.rows)
    decreases |p.db.rows| - k
    ensures Declines(TimeoutFrom(p, k, now, decline).outputs)
         == Declines(p.outputs) + DeclineCalls(p.db.rows, DeclinedRows(p.db.rows, k, now))
  {
    if k < |p.db.rows| {
      if TimeoutCandidate(p.db.rows[k], now) {
        var q := TimeoutStep(p, k, now, decline);
        StepKeepsOrder(p, k, now, decline);
        TimeoutFromDeclines(q, k + 1, now, decline);
        StepDeclines(p, k, now, decline);
        assert TimeoutFrom(p, k, now, decline) == TimeoutFrom(q, k + 1, now, decline);
      } else {
        TimeoutFromDeclines(p, k + 1, now, decline);
        assert DeclinedRows(p.db.rows, k, now) == DeclinedRows(p.db.rows, k + 1, now);
      }
    }
  }

  /** One iteration makes the decline call the declined-row list predicts for row `k`, and leaves the rest of the list as it was. */
  lemma StepDeclines(p: Pass, k: nat, now: int, decline: Responses)
    requires k < |p.db.rows| && IdsIncreasing(p.db.rows) && TimeoutCandidate(p.db.rows[k], now)
    ensures var q := TimeoutStep(p, k, now, decline);
      Declines(q.outputs) + DeclineCalls(q.db.rows, DeclinedRows(q.db.rows, k + 1, now))
      == Declines(p.outputs) + DeclineCalls(p.db.rows, DeclinedRows(p.db.rows, k, now))
  {
    var rows := p.db.rows;
    var q := TimeoutStep(p, k, now, decline);
    var head := if HasNewerLive(rows, k) then [] else [DeclineJoinRequest(rows[k].chatId, rows[k].userId)];
    var tail := DeclineCalls(rows, DeclinedRows(rows, k + 1, now));
    assert Declines(q.outputs) == Declines(p.outputs) + head;
    StepKeepsDeclinedRows(p, k, now, decline);
    DeclineCallsHead(rows, k, now);
    assert DeclineCalls(rows, DeclinedRows(rows, k, now)) == head + tail;
    AppendAssoc(Declines(p.outputs), head, tail);
  }

  lemma AppendAssoc<T>(a: seq<T>, b: seq<T>, c: seq<T>)
    ensures a + b + c == a + (b + c)
  {
  }

  /** One iteration leaves the declines still to come from row `k + 1` on unchanged. */
  lemma StepKeepsDeclinedRows(p: Pass, k: nat, now: int, decline: Responses)
    requires k < |p.db.rows| && IdsIncreasing(p.db.rows) && p.db.rows[k].status.IsLive()
    ensures var q := TimeoutStep(p, k, now, decline);
      DeclineCalls(q.db.rows, DeclinedRows(q.db.rows, k + 1, now))
      == DeclineCalls(p.db.rows, DeclinedRows(p.db.rows, k + 1, now))
  {
    var q := TimeoutStep(p, k, now, decline);
    StepKeepsOrder(p, k, now, decline);
    DeclinedRowsUnaffected(p.db.rows, k, q.db.rows[k], k + 1, now);
    DeclineCallsSamePairs(q.db.rows, p.db.rows, DeclinedRows(p.db.rows, k + 1, now));
  }

  /** The declines from row `k` on: row `k`'s own, if it is declined, then the rest. */
  lemma DeclineCallsHead(rows: seq<Request>, k: nat, now: int)
    requires k < |rows|
    ensures DeclineCalls(rows, DeclinedRows(rows, k, now))
         == (if TimeoutCandidate(rows[k], now) && !HasNewerLive(rows, k) then [DeclineJoinRequest(rows[k].chatId, rows[k].userId)] else [])
            + DeclineCalls(rows, DeclinedRows(rows, k + 1, now))
  {
    var rest := DeclinedRows(rows, k + 1, now);
    if TimeoutCandidate(rows[k], now) && !HasNewerLive(rows, k) {
      assert DeclinedRows(rows, k, now) == [k] + rest;
      assert ([k] + rest)[1..] == rest;
      assert DeclineCalls(rows, [k] + rest) == [DeclineJoinRequest(rows[k].chatId, rows[k].userId)] + DeclineCalls(rows, rest);
    } else {
      assert DeclinedRows(rows, k, now) == rest;
    }
  }

  /** One iteration counts a timeout exactly when its row reaches a timeout status. */
  lemma StepCountsResolved(p: Pass, k: nat, now: int, decline: Responses)
    requires k < |p.db.rows| && p.db.rows[k].status.IsLive()
    ensures var q := TimeoutStep(p, k, now, decline);
      q.stats.timeoutsProcessed + CountIf(p.db.rows, ResolvedByTimeout)
      == p.stats.timeoutsProcessed + CountIf(q.db.rows, ResolvedByTimeout)
  {
    var q := TimeoutStep(p, k, now, decline);
    assert q.db.rows == p.db.rows[k := q.db.rows[k]];
    CountIfUpdate(p.db.rows, k, q.db.rows[k], ResolvedByTimeout);
  }

  /**
   * `timeoutsProcessed` grows by the number of rows that newly reach one of
   * the three timeout statuses.
   */
  lemma {:induction false} TimeoutFromCountsResolved(p: Pass, k: nat, now: int, decline: Responses)
    requires k <= |p.db.rows|
    decreases |p.db.rows| - k
    ensures var res := TimeoutFrom(p, k, now, decline);
      res.stats.timeoutsProcessed + CountIf(p.db.rows, ResolvedByTimeout)
      == p.stats.timeoutsProcessed + CountIf(res.db.rows, ResolvedByTimeout)
  {
    if k < |p.db.rows| {
      if TimeoutCandidate(p.db.rows[k], now) {
        var q := TimeoutStep(p, k, now, decline);
        StepCountsResolved(p, k, now, decline);
        TimeoutFromCountsResolved(q, k + 1, now, decline);
        assert TimeoutFrom(p, k, now, decline) == TimeoutFrom(q, k + 1, now, decline);
      } else {
        TimeoutFromCountsResolved(p, k + 1, now, decline);
      }
    }
  }

  /** One iteration's decline call is matched by a `timed_out` row or an error entry. */
  lemma StepAccountsDeclines(p: Pass, k: nat, now: int, decline: Responses)
    requires k < |p.db.rows| && p.db.rows[k].status.IsLive()
    ensures var q := TimeoutStep(p, k, now, decline);
      CountDeclines(q.outputs) + |p.stats.errors| + CountIf(p.db.rows, WithStatus(TimedOut))
      == CountDeclines(p.outputs) + |q.stats.errors| + CountIf(q.db.rows, WithStatus(TimedOut))
  {
    var q := TimeoutStep(p, k, now, decline);
    assert q.db.rows == p.db.rows[k := q.db.rows[k]];
    CountIfUpdate(p.db.rows, k, q.db.rows[k], WithStatus(TimedOut));
  }

  /**
   * No failure goes unreported: every decline call the timeout loop makes
   * is matched by a new `timed_out` row or by a new error entry.
   */
  lemma {:induction false} TimeoutFromAccountsDeclines(p: Pass, k: nat, now: int, decline: Responses)
    requires k <= |p.db.rows|
    decreases |p.db.rows| - k, 1
    ensures var res := TimeoutFrom(p, k, now, decline);
      CountDeclines(res.outputs) + |p.stats.errors| + CountIf(p.db.rows, WithStatus(TimedOut))
      == CountDeclines(p.outputs) + |res.stats.errors| + CountIf(res.db.rows, WithStatus(TimedOut))
  {
    if k < |p.db.rows| {
      if TimeoutCandidate(p.db.rows[k], now) {
        AccountsDeclinesAt(p, k, now, decline);
      } else {
        TimeoutFromAccountsDeclines(p, k + 1, now, decline);
      }
    }
  }

  /** `TimeoutFromAccountsDeclines` when row `k` is a candidate. */
  lemma {:induction false} AccountsDeclinesAt(p: Pass, k: nat, now: int, decline: Responses)
    requires k < |p.db.rows| && TimeoutCandidate(p.db.rows[k], now)
    decreases |p.db.rows| - k, 0
    ensures var res := TimeoutFrom(p, k, now, decline);
      CountDeclines(res.outputs) + |p.stats.errors| + CountIf(p.db.rows, WithStatus(TimedOut))
      == CountDeclines(p.outputs) + |res.stats.errors| + CountIf(res.db.rows, WithStatus(TimedOut))
  {
    var q := TimeoutStep(p, k, now, decline);
    StepAccountsDeclines(p, k, now, decline);
    TimeoutFromAccountsDeclines(q, k + 1, now, decline);
    assert TimeoutFrom(p, k, now, decline) == TimeoutFrom(q, k + 1, now, decline);
  }

  /**
   * `processRemindersAndTimeouts`: the reminder pass, then the timeout pass
   * over the table the reminders left, then duplicate cleanup. The count of
   * processed timeouts is the number of rows that newly reached one of the
   * three timeout statuses.
   */
  function Sweep(db: Db, now: int, decline: Responses): (res: Pass)
    ensures |res.db.rows| == |db.rows|
    ensures res.stats.remindersSent == CountDue(db.rows, now)
  {
    var p1 := ReminderPass(db, now);
    var p2 := TimeoutFrom(p1, 0, now, decline);
    Pass(Cleanup.CleanupDb(p2.db), p2.outputs, p2.stats)
  }

  /** A sweep only changes the database in the ways every handler may. */
  lemma SweepEvolves(db: Db, now: int, decline: Responses)
    ensures Evolves(db, Sweep(db, now, decline).db)
  {
    var p1 := ReminderPass(db, now);
    var p2 := TimeoutFrom(p1, 0, now, decline);
    TimeoutFromEvolves(p1, 0, now, decline);
    EvolvesTransitive(db, p1.db, p2.db);
    EvolvesTransitive(db, p2.db, Cleanup.CleanupDb(p2.db));
  }

  /** `timeoutsProcessed` is the number of rows the sweep moved to a timeout status. */
  lemma SweepCountsTimeouts(db: Db, now: int, decline: Responses)
    ensures var res := Sweep(db, now, decline);
      res.stats.timeoutsProcessed + CountIf(db.rows, ResolvedByTimeout) == CountIf(res.db.rows, ResolvedByTimeout)
  {
    var p1 := ReminderPass(db, now);
    assert CountIf(p1.db.rows, ResolvedByTimeout) == CountIf(db.rows, ResolvedByTimeout) by {
      ReminderKeepsResolved(db, now);
    }
    var p2 := TimeoutFrom(p1, 0, now, decline);
    assert p2.stats.timeoutsProcessed + CountIf(p1.db.rows, ResolvedByTimeout) == CountIf(p2.db.rows, ResolvedByTimeout) by {
      TimeoutFromCountsResolved(p1, 0, now, decline);
    }
    assert CountIf(Sweep(db, now, decline).db.rows, ResolvedByTimeout) == CountIf(p2.db.rows, ResolvedByTimeout) by {
      CleanupKeepsResolved(p2.db.rows);
    }
  }

  /** Reminders never change a status. */
  lemma ReminderKeepsResolved(db: Db, now: int)
    ensures CountIf(ReminderPass(db, now).db.rows, ResolvedByTimeout) == CountIf(db.rows, ResolvedByTimeout)
  {
    CountIfPointwise(ReminderPass(db, now).db.rows, db.rows, ResolvedByTimeout);
  }

  lemma CleanupKeepsResolved(rows: seq<Request>)
    ensures CountIf(Cleanup.CleanupDuplicates(rows), ResolvedByTimeout) == CountIf(rows, ResolvedByTimeout)
  {
    var r := Cleanup.CleanupDuplicates(rows);
    assert forall i | 0 <= i < |rows| :: Matches(ResolvedByTimeout, r[i]) == Matches(ResolvedByTimeout, rows[i]);
    CountIfPointwise(r, rows, ResolvedByTimeout);
  }

  /** An expired row has no whole day left, so the reminder pass never touches a timeout candidate. */
  lemma ExpiredNotDue(r: Request, now: int)
    requires r.expiresAt <= now
    ensures DaysLeft(r, now) <= 0
  {
  }

  /**
   * A `pending` row with no newer live row is still the newest `pending` row
   * of its pair after changes that only end live rows.
   */
  lemma NoNewerLiveIsNewest(before: Db, after: Db, i: nat)
    requires Evolves(before, after) && |after.rows| == |before.rows| && i < |before.rows|
    requires !HasNewerLive(before.rows, i) && after.rows[i] == before.rows[i] && before.rows[i].status == Pending
    ensures Cleanup.IsNewestPending(after.rows, i)
  {
    forall j | 0 <= j < |after.rows| && after.rows[j].status == Pending && after.rows[j].SamePair(after.rows[i])
      ensures after.rows[j].id <= after.rows[i].id
    {
      assert before.rows[j].status.IsLive() && before.rows[j].SamePair(before.rows[i]);
    }
  }

  /** The reminder pass leaves a candidate, its newer live rows and the order of ids as they were. */
  lemma ReminderKeepsCandidate(db: Db, now: int, i: nat)
    requires IdsIncreasing(db.rows) && i < |db.rows| && TimeoutCandidate(db.rows[i], now)
    ensures var p1 := ReminderPass(db, now);
      && p1.db.rows[i] == db.rows[i]
      && IdsIncreasing(p1.db.rows)
      && (HasNewerLive(p1.db.rows, i) <==> HasNewerLive(db.rows, i))
  {
    var p1 := ReminderPass(db, now);
    ExpiredNotDue(db.rows[i], now);
    HasNewerLiveSameKeys(p1.db.rows, db.rows, i);
  }

  /** The cleanup never overrides what the timeout loop did to a candidate. */
  lemma CleanupKeepsResult(before: Db, after: Db, i: nat, decline: Responses)
    requires Evolves(before, after) && |after.rows| == |before.rows| && i < |before.rows|
    requires TimeoutResult(before.rows[i], after.rows[i], decline, HasNewerLive(before.rows, i))
    ensures Cleanup.CleanupDuplicates(after.rows)[i] == after.rows[i]
  {
    if after.rows[i].status == Pending {
      NoNewerLiveIsNewest(before, after, i);
    }
  }

  /** One candidate's fate over a whole sweep. */
  lemma SweepResolvesOne(db: Db, now: int, decline: Responses, i: nat)
    requires IdsIncreasing(db.rows) && i < |db.rows| && TimeoutCandidate(db.rows[i], now)
    ensures TimeoutResult(db.rows[i], Sweep(db, now, decline).db.rows[i], decline, HasNewerLive(db.rows, i))
  {
    var p1 := ReminderPass(db, now);
    var p2 := TimeoutFrom(p1, 0, now, decline);
    ReminderKeepsCandidate(db, now, i);
    TimeoutFromFrame(p1, 0, now, decline);
    TimeoutFromEvolves(p1, 0, now, decline);
    CleanupKeepsResult(p1.db, p2.db, i, decline);
  }

  /**
   * After a sweep every expired live row is superseded if its pair had a
   * newer live row, and otherwise in the terminal status its decline answer
   * dictates, or (on a transport failure or an unrecognised error) exactly as
   * it was, for the next sweep: neither the reminders nor the cleanup change it.
   */
  lemma SweepResolvesCandidates(db: Db, now: int, decline: Responses)
    requires IdsIncreasing(db.rows)
    ensures var res := Sweep(db, now, decline);
      forall i | 0 <= i < |db.rows| && TimeoutCandidate(db.rows[i], now) ::
        TimeoutResult(db.rows[i], res.db.rows[i], decline, HasNewerLive(db.rows, i))
  {
    forall i | 0 <= i < |db.rows| && TimeoutCandidate(db.rows[i], now)
      ensures TimeoutResult(db.rows[i], Sweep(db, now, decline).db.rows[i], decline, HasNewerLive(db.rows, i))
    {
      SweepResolvesOne(db, now, decline, i);
    }
  }

  /**
   * The decline calls of a whole sweep: one per expired live row without a
   * newer live row of its pair, in table order.
   */
  lemma SweepDeclines(db: Db, now: int, decline: Responses)
    requires IdsIncreasing(db.rows)
    ensures Declines(Sweep(db, now, decline).outputs) == DeclineCalls(db.rows, DeclinedRows(db.rows, 0, now))
  {
    var p1 := ReminderPass(db, now);
    ReminderKeepsDeclines(db, now);
    TimeoutFromDeclines(p1, 0, now, decline);
    assert Sweep(db, now, decline).outputs == TimeoutFrom(p1, 0, now, decline).outputs;
  }

  /** The reminder pass makes no decline call and changes nothing the timeout loop's declines depend on. */
  lemma ReminderKeepsDeclines(db: Db, now: int)
    requires IdsIncreasing(db.rows)
    ensures var p1 := ReminderPass(db, now);
      && IdsIncreasing(p1.db.rows)
      && Declines(p1.outputs) == []
      && DeclineCalls(p1.db.rows, DeclinedRows(p1.db.rows, 0, now)) == DeclineCalls(db.rows, DeclinedRows(db.rows, 0, now))
  {
    var p1 := ReminderPass(db, now);
    RemindersHaveNoDeclines(db.rows, now);
    DeclinedRowsSameKeys(p1.db.rows, db.rows, 0, now);
    DeclineCallsSamePairs(p1.db.rows, db.rows, DeclinedRows(db.rows, 0, now));
  }

  lemma {:induction false} RemindersHaveNoDeclines(rows: seq<Request>, now: int)
    ensures Declines(Reminders(rows, now)) == []
  {
    if rows != [] {
      var r := rows[0];
      var head := if ReminderDue(r, now) then [Send(User(r.userId), DailyReminder(DaysLeft(r, now)))] else [];
      assert Reminders(rows, now) == head + Reminders(rows[1..], now);
      RemindersHaveNoDeclines(rows[1..], now);
      DeclinesAppend(head, Reminders(rows[1..], now));
      assert Declines(head) == [] by { if head != [] { assert head[1..] == []; } }
    }
  }

  /** With distinct ids, a sweep leaves at most one `pending` row per pair. */
  lemma SweepLeavesOnePending(db: Db, now: int, decline: Responses)
    requires Cleanup.DistinctIds(db.rows)
    ensures Cleanup.AtMostOnePendingPerPair(Sweep(db, now, decline).db.rows)
  {
    var p1 := ReminderPass(db, now);
    var p2 := TimeoutFrom(p1, 0, now, decline);
    TimeoutFromEvolves(p1, 0, now, decline);
    assert Cleanup.DistinctIds(p2.db.rows);
    Cleanup.CleanupLeavesOnePending(p2.db.rows);
  }

  /**
   * An expired row whose pair has a newer live row ends the timeout loop
   * `superseded` and is never declined, whether or not the newer row has
   * expired too.
   */
  lemma NewerLiveRowSupersedes(p: Pass, k: nat, now: int, decline: Responses, i: nat, j: nat)
    requires IdsIncreasing(p.db.rows) && k <= i < |p.db.rows| && j < |p.db.rows|
    requires TimeoutCandidate(p.db.rows[i], now)
    requires p.db.rows[j].SamePair(p.db.rows[i]) && p.db.rows[j].status.IsLive() && p.db.rows[j].id > p.db.rows[i].id
    ensures TimeoutFrom(p, k, now, decline).db.rows[i] == p.db.rows[i].(status := Superseded)
    ensures i !in DeclinedRows(p.db.rows, k, now)
  {
    TimeoutFromFrame(p, k, now, decline);
    assert HasNewerLive(p.db.rows, i);
  }

  /** The same for a whole sweep: the expired row ends `superseded` and no decline call is made for it. */
  lemma SweepSupersedesOlderRow(db: Db, now: int, decline: Responses, i: nat, j: nat)
    requires IdsIncreasing(db.rows) && i < |db.rows| && j < |db.rows|
    requires TimeoutCandidate(db.rows[i], now)
    requires db.rows[j].SamePair(db.rows[i]) && db.rows[j].status.IsLive() && db.rows[j].id > db.rows[i].id
    ensures Sweep(db, now, decline).db.rows[i].status == Superseded
    ensures i !in DeclinedRows(db.rows, 0, now)
  {
    SweepResolvesOne(db, now, decline, i);
    assert HasNewerLive(db.rows, i);
  }
}
