/**
 * The worker as a whole: every update is a join request, a message, or the
 * scheduled sweep, handled one at a time against the same database. The
 * lemmas here are about runs of updates: the table's id discipline holds
 * throughout, terminal rows stay as they are, and a pair's submission count
 * (which drives the spam ban) never goes down.
 */
module Lifecycle {

  import opened Optional
  import opened Types
  import Join
  import Messages
  import Sweeper
  import Cleanup

  /** What the worker reacts to. */
  datatype Update =
    | JoinUpdate(request: JoinRequest)
    | MessageUpdate(message: Message)
    | Scheduled

  /** One update at time `now`; `decline` is the platform's answer to every decline the handler makes. */
  function Handle(env: Env, db: Db, upd: Update, now: int, decline: Responses): (res: Reaction)
    ensures Evolves(db, res.db)
    ensures !upd.JoinUpdate? ==> |res.db.rows| == |db.rows|
    ensures Valid(db) ==> Valid(res.db)
  {
    match upd
    case JoinUpdate(jr) =>
      var res := Join.HandleJoinRequest(env, db, jr, now);
      if Valid(db) then
        Join.SubmitKeepsValid(env, db, jr, now);
        res
      else res
    case MessageUpdate(m) =>
      var res := Messages.HandleMessage(env, db, m, now, decline);
      if Valid(db) then
        SameLengthKeepsValid(db, res.db);
        res
      else res
    case Scheduled =>
      var p := Sweeper.Sweep(db, now, decline);
      Sweeper.SweepEvolves(db, now, decline);
      if Valid(db) then
        SameLengthKeepsValid(db, p.db);
        Reaction(p.db, p.outputs)
      else Reaction(p.db, p.outputs)
  }

  /** A change that adds no rows keeps the id discipline, since ids never change. */
  lemma SameLengthKeepsValid(a: Db, b: Db)
    requires Valid(a) && Evolves(a, b) && |b.rows| == |a.rows|
    ensures Valid(b)
  {
  }

  /** An update with the time it arrives at and the platform's answers to the declines made while handling it. */
  datatype Step = Step(update: Update, now: int, decline: Responses)

  /** The database after handling `steps` in order. */
  function Run(env: Env, db: Db, steps: seq<Step>): Db
    decreases |steps|
  {
    if steps == [] then db
    else Run(env, Handle(env, db, steps[0].update, steps[0].now, steps[0].decline).db, steps[1..])
  }

  /**
   * Over any run the id discipline is kept and the database only evolves:
   * no row is deleted or moved to another pair, no terminal row changes,
   * no event is lost.
   */
  lemma {:induction false} RunEvolves(env: Env, db: Db, steps: seq<Step>)
    decreases |steps|
    ensures Evolves(db, Run(env, db, steps))
    ensures Valid(db) ==> Valid(Run(env, db, steps))
  {
    if steps != [] {
      var next := Handle(env, db, steps[0].update, steps[0].now, steps[0].decline).db;
      RunEvolves(env, next, steps[1..]);
      EvolvesTransitive(db, next, Run(env, db, steps));
    }
  }

  /** A count over a prefix of the table is at most the count over the table. */
  lemma {:induction false} CountIfPrefix(rows: seq<Request>, n: nat, sel: Selector)
    requires n <= |rows|
    ensures CountIf(rows[..n], sel) <= CountIf(rows, sel)
  {
    if n < |rows| {
      var init := rows[..|rows| - 1];
      assert init[..n] == rows[..n];
      CountIfPrefix(init, n, sel);
    } else {
      assert rows[..n] == rows;
    }
  }

  /** A pair's submission count never goes down as the database evolves. */
  lemma EvolvesKeepsAttempts(a: Db, b: Db, u: int, c: string)
    requires Evolves(a, b)
    ensures Join.AttemptCount(a.rows, u, c) <= Join.AttemptCount(b.rows, u, c)
  {
    var prefix := b.rows[..|a.rows|];
    assert forall i | 0 <= i < |a.rows| :: prefix[i].SamePair(a.rows[i]);
    CountIfPointwise(a.rows, prefix, AnyOfPair(u, c));
    CountIfPrefix(b.rows, |a.rows|, AnyOfPair(u, c));
  }

  /**
   * No sequence of updates lowers a pair's submission count, so no message,
   * command or sweep can reset the road to the spam ban.
   */
  lemma RunKeepsAttempts(env: Env, db: Db, steps: seq<Step>, u: int, c: string)
    ensures Join.AttemptCount(db.rows, u, c) <= Join.AttemptCount(Run(env, db, steps).rows, u, c)
  {
    RunEvolves(env, db, steps);
    EvolvesKeepsAttempts(db, Run(env, db, steps), u, c);
  }

  /**
   * The table after the first submission of a pair, on an empty database,
   * holds exactly the new `pending` row, expiring after the default seven days.
   */
  lemma FirstSubmission(env: Env, jr: JoinRequest, t0: int)
    requires env.config == Defaults
    ensures var rows := Join.HandleJoinRequest(env, Db([], [], 1), jr, t0).db.rows;
      && |rows| == 1
      && rows[0].id == 1 && rows[0].InPair(jr.from.id, jr.chatId)
      && rows[0].status == Pending && rows[0].requestDate == t0
      && rows[0].expiresAt == t0 + 7 * DaySeconds && rows[0].lastReminderTs.None?
  {
    assert Join.AttemptCount([], jr.from.id, jr.chatId) == 0;
  }

  /** A sweep six days after the submission sends the one reminder, "1 day left", and keeps the row `pending`. */
  lemma SixthDaySweep(db: Db, t0: int, decline: Responses)
    requires |db.rows| == 1 && db.rows[0].status == Pending && db.rows[0].requestDate == t0
    requires db.rows[0].expiresAt == t0 + 7 * DaySeconds && db.rows[0].lastReminderTs.None?
    ensures var s := Sweeper.Sweep(db, t0 + 6 * DaySeconds, decline);
      && s.outputs == [Send(User(db.rows[0].userId), DailyReminder(1))]
      && |s.db.rows| == 1
      && s.db.rows[0] == db.rows[0].(lastReminderTs := Some(t0 + 6 * DaySeconds))
  {
    var now := t0 + 6 * DaySeconds;
    var r := db.rows[0];
    assert Sweeper.DaysLeft(r, now) == 1;
    var p0 := Sweeper.Pass(db, [], Sweeper.EmptyStats());
    var q := Sweeper.RemindStep(p0, 0, now);
    assert q.outputs == [Send(User(r.userId), DailyReminder(1))];
    var p1 := Sweeper.ReminderPass(db, now);
    assert p1 == Sweeper.RemindFrom(q, 1, now);
    assert p1 == q;
    assert !Sweeper.TimeoutCandidate(p1.db.rows[0], now);
    var p2 := Sweeper.TimeoutFrom(p1, 0, now, decline);
    assert p2 == Sweeper.TimeoutFrom(p1, 1, now, decline);
    assert p2 == p1;
    var rows := p2.db.rows;
    assert Cleanup.IsNewestPending(rows, 0);
  }

  /**
   * The first sweep at or after the expiry, when the decline succeeds,
   * sends no further reminder and moves the row to `timed_out`.
   */
  lemma ExpirySweep(db: Db, t0: int, decline: Responses)
    requires |db.rows| == 1 && db.rows[0].status == Pending
    requires db.rows[0].expiresAt == t0 + 7 * DaySeconds
    requires decline(db.rows[0].id) == Ok
    ensures var s := Sweeper.Sweep(db, t0 + 7 * DaySeconds, decline);
      && |s.db.rows| == 1
      && s.db.rows[0] == db.rows[0].(status := TimedOut)
      && s.stats.remindersSent == 0 && s.stats.timeoutsProcessed == 1
  {
    var now := t0 + 7 * DaySeconds;
    var r := db.rows[0];
    assert Sweeper.DaysLeft(r, now) == 0;
    var p1 := Sweeper.ReminderPass(db, now);
    assert p1.db.rows == db.rows;
    assert !Sweeper.HasNewerLive(p1.db.rows, 0);
    var q := Sweeper.TimeoutStep(p1, 0, now, decline);
    assert q.db.rows[0] == r.(status := TimedOut);
    var p2 := Sweeper.TimeoutFrom(p1, 0, now, decline);
    assert p2 == Sweeper.TimeoutFrom(q, 1, now, decline);
    assert p2 == q;
  }

  /**
   * A request nobody answers: submitted at `t0`, reminded once with one day
   * left by the sweep six days later, and timed out by the sweep at its
   * expiry when the platform accepts the decline.
   */
  lemma UnansweredRequestTimesOut(env: Env, jr: JoinRequest, t0: int, decline: Responses)
    requires env.config == Defaults
    requires decline(1) == Ok
    ensures var db1 := Join.HandleJoinRequest(env, Db([], [], 1), jr, t0).db;
      var s1 := Sweeper.Sweep(db1, t0 + 6 * DaySeconds, decline);
      var s2 := Sweeper.Sweep(s1.db, t0 + 7 * DaySeconds, decline);
      && s1.outputs == [Send(User(jr.from.id), DailyReminder(1))]
      && s1.db.rows[0].status == Pending
      && s2.db.rows[0].status == TimedOut
  {
    var db1 := Join.HandleJoinRequest(env, Db([], [], 1), jr, t0).db;
    FirstSubmission(env, jr, t0);
    SixthDaySweep(db1, t0, decline);
    var s1 := Sweeper.Sweep(db1, t0 + 6 * DaySeconds, decline);
    ExpirySweep(s1.db, t0, decline);
  }
}
