/**
 * Submission of a join request (`handleJoinRequest`): spam counting over
 * the pair's whole history, the ban branch, and otherwise superseding the
 * pair's `pending` rows and inserting a fresh `pending` row.
 */
module Join {

  import opened Optional
  import opened Types
  import Markdown

  /** Every row ever created for the pair, whatever its status. */
  function AttemptCount(rows: seq<Request>, userId: int, chatId: string): nat {
    CountIf(rows, AnyOfPair(userId, chatId))
  }

  /** This submission, preceded by `attempts` earlier ones, reaches the ban threshold. */
  predicate IsBanAttempt(cfg: Config, attempts: nat) {
    attempts >= cfg.spamBanAttempts - 1
  }

  /** This submission, preceded by `attempts` earlier ones, is in the warning range. */
  predicate IsWarnAttempt(cfg: Config, attempts: nat) {
    attempts >= cfg.spamWarningAttemptsStart - 1
  }

  /** JavaScript `s || null` on an optional string. */
  function Truthy(s: Option<string>): Option<string> {
    if Markdown.Present(s) then s else None
  }

  /** The row inserted for a submission at `now`, with the next free id. */
  function NewRow(cfg: Config, db: Db, jr: JoinRequest, now: int): Request {
    var name := Markdown.Fullname(Markdown.Profile(jr.from.firstName, jr.from.lastName));
    Request(
      db.nextId, jr.chatId, jr.from.id,
      Truthy(jr.from.username), if name == "" then None else Some(name),
      now, now + cfg.requestExpiryDays * DaySeconds,
      Pending, None, None, None, None)
  }

  /** The platform calls of the ban branch. */
  function BanOutputs(env: Env, jr: JoinRequest, attempts: nat): seq<Output> {
    var u := jr.from.id;
    [BanChatMember(jr.chatId, u), DeclineJoinRequest(jr.chatId, u), Send(User(u), BannedNotice)]
    + (if Markdown.Present(env.modChatId) then
         [Send(Moderators, SpamBanReport(u, Markdown.EscapeMarkdownLegacy(jr.from.firstName),
                                         Markdown.EscapeMarkdownLegacy(jr.from.username), attempts + 1))]
       else [])
  }

  /** The platform calls of a normal submission. */
  function SubmitOutputs(cfg: Config, jr: JoinRequest, attempts: nat): seq<Output> {
    var u := jr.from.id;
    [Send(User(u), Questions(Markdown.EscapeMarkdownLegacy(jr.chatTitle)))]
    + (if IsWarnAttempt(cfg, attempts) then [Send(User(u), SpamWarning(attempts + 1))] else [])
  }

  /**
   * `handleJoinRequest`. At the ban threshold the pair's live rows become
   * `banned` and only a `banned_spam` event is logged; otherwise the pair's
   * `pending` rows (not its `answered` ones) become `superseded`, one new
   * `pending` row is inserted and a `submitted` event names it.
   */
  function HandleJoinRequest(env: Env, db: Db, jr: JoinRequest, now: int): (res: Reaction)
    ensures Evolves(db, res.db)
    ensures var u, c, n := jr.from.id, jr.chatId, AttemptCount(db.rows, jr.from.id, jr.chatId);
      IsBanAttempt(env.config, n) ==>
        && |res.db.rows| == |db.rows|
        && (forall i | 0 <= i < |db.rows| ::
              res.db.rows[i] == if db.rows[i].InPair(u, c) && db.rows[i].status.IsLive()
                                then db.rows[i].(status := Banned) else db.rows[i])
        && res.db.events == db.events + [Event(None, u, EvBannedSpam(n + 1), now)]
        && res.db.nextId == db.nextId
        && BanChatMember(c, u) in res.outputs
        && DeclineJoinRequest(c, u) in res.outputs
    ensures var u, c, n := jr.from.id, jr.chatId, AttemptCount(db.rows, jr.from.id, jr.chatId);
      !IsBanAttempt(env.config, n) ==>
        && |res.db.rows| == |db.rows| + 1
        && (forall i | 0 <= i < |db.rows| ::
              res.db.rows[i] == if db.rows[i].InPair(u, c) && db.rows[i].status == Pending
                                then db.rows[i].(status := Superseded) else db.rows[i])
        && res.db.rows[|db.rows|].id == db.nextId
        && res.db.rows[|db.rows|].InPair(u, c)
        && res.db.rows[|db.rows|].status == Pending
        && res.db.rows[|db.rows|].requestDate == now
        && res.db.rows[|db.rows|].expiresAt == now + env.config.requestExpiryDays * DaySeconds
        && res.db.rows[|db.rows|].answerText.None?
        && res.db.rows[|db.rows|].lastReminderTs.None?
        && res.db.events == db.events + [Event(Some(db.nextId), u, EvSubmitted(c, jr.chatTitle), now)]
        && res.db.nextId == db.nextId + 1
    ensures var n := AttemptCount(db.rows, jr.from.id, jr.chatId);
      var warned := Send(User(jr.from.id), SpamWarning(n + 1)) in res.outputs;
      warned <==> !IsBanAttempt(env.config, n) && IsWarnAttempt(env.config, n)
  {
    var u, c := jr.from.id, jr.chatId;
    var n := AttemptCount(db.rows, u, c);
    if IsBanAttempt(env.config, n) then
      var rows := SetStatusIf(db.rows, LiveOfPair(u, c), Banned);
      var ev := Event(None, u, EvBannedSpam(n + 1), now);
      var outs := BanOutputs(env, jr, n);
      assert outs[0] == BanChatMember(c, u) && outs[1] == DeclineJoinRequest(c, u);
      Reaction(Db(rows, db.events + [ev], db.nextId), outs)
    else
      var rows := SetStatusIf(db.rows, PendingOfPair(u, c), Superseded);
      var row := NewRow(env.config, db, jr, now);
      var ev := Event(Some(db.nextId), u, EvSubmitted(c, jr.chatTitle), now);
      var outs := SubmitOutputs(env.config, jr, n);
      assert IsWarnAttempt(env.config, n) ==> outs[1] == Send(User(u), SpamWarning(n + 1));
      Reaction(Db(rows + [row], db.events + [ev], db.nextId + 1), outs)
  }

  /**
   * The messages of each branch and the names stored in the new row. The
   * ban branch bans, declines and tells the applicant, then reports to the
   * moderators only when their chat is configured. A normal submission
   * first sends the questionnaire with the chat title escaped, then at most
   * the spam warning. The row keeps the username and the full name only
   * when they are non-empty.
   */
  lemma SubmitNotices(env: Env, db: Db, jr: JoinRequest, now: int)
    ensures var res, u, c, n := HandleJoinRequest(env, db, jr, now), jr.from.id, jr.chatId, AttemptCount(db.rows, jr.from.id, jr.chatId);
      IsBanAttempt(env.config, n) ==>
        && |res.outputs| == (if Markdown.Present(env.modChatId) then 4 else 3)
        && res.outputs[..3] == [BanChatMember(c, u), DeclineJoinRequest(c, u), Send(User(u), BannedNotice)]
        && (Markdown.Present(env.modChatId) ==>
              res.outputs[3] == Send(Moderators, SpamBanReport(u, Markdown.EscapeMarkdownLegacy(jr.from.firstName),
                                                              Markdown.EscapeMarkdownLegacy(jr.from.username), n + 1)))
    ensures var res, u, n := HandleJoinRequest(env, db, jr, now), jr.from.id, AttemptCount(db.rows, jr.from.id, jr.chatId);
      !IsBanAttempt(env.config, n) ==>
        && |res.outputs| == (if IsWarnAttempt(env.config, n) then 2 else 1)
        && res.outputs[0] == Send(User(u), Questions(Markdown.EscapeMarkdownLegacy(jr.chatTitle)))
        && res.db.rows[|db.rows|].username == (if Markdown.Present(jr.from.username) then jr.from.username else None)
        && res.db.rows[|db.rows|].displayName ==
             (if Markdown.Present(jr.from.firstName) || Markdown.Present(jr.from.lastName)
              then Some(Markdown.Fullname(Markdown.Profile(jr.from.firstName, jr.from.lastName))) else None)
  {
  }

  /** After a submission that is not banned the pair has exactly one `pending` row: the new one. */
  lemma SubmitLeavesOnePending(env: Env, db: Db, jr: JoinRequest, now: int)
    requires !IsBanAttempt(env.config, AttemptCount(db.rows, jr.from.id, jr.chatId))
    ensures CountIf(HandleJoinRequest(env, db, jr, now).db.rows, PendingOfPair(jr.from.id, jr.chatId)) == 1
  {
    var u, c := jr.from.id, jr.chatId;
    var rows := HandleJoinRequest(env, db, jr, now).db.rows;
    var prior := rows[..|db.rows|];
    assert rows == prior + [rows[|db.rows|]];
    CountIfZero(prior, PendingOfPair(u, c));
    CountIfAppend(prior, rows[|db.rows|], PendingOfPair(u, c));
  }

  /**
   * The attempt count of the submitting pair grows by one on a normal
   * submission and stays put on a ban; every other pair's count is unchanged.
   */
  lemma SubmitAttemptCounts(env: Env, db: Db, jr: JoinRequest, now: int, u: int, c: string)
    ensures var n := AttemptCount(db.rows, u, c);
            var grows := u == jr.from.id && c == jr.chatId
                         && !IsBanAttempt(env.config, AttemptCount(db.rows, jr.from.id, jr.chatId));
            AttemptCount(HandleJoinRequest(env, db, jr, now).db.rows, u, c) == n + Indicator(grows)
  {
    var rows := HandleJoinRequest(env, db, jr, now).db.rows;
    var prior := rows[..|db.rows|];
    CountIfPointwise(prior, db.rows, AnyOfPair(u, c));
    if |rows| == |db.rows| + 1 {
      assert rows == prior + [rows[|db.rows|]];
      CountIfAppend(prior, rows[|db.rows|], AnyOfPair(u, c));
    } else {
      assert rows == prior;
    }
  }

  /** A submission keeps the table's id discipline. */
  lemma SubmitKeepsValid(env: Env, db: Db, jr: JoinRequest, now: int)
    requires Valid(db)
    ensures Valid(HandleJoinRequest(env, db, jr, now).db)
  {
  }

  /** The reactions to successive submissions of the same request at the times `ts`, each on the table the previous one left. */
  /** Submissions at the times `ts`, each handled by `step` on the table the previous one left. */
  function Burst(step: (Db, int) -> Reaction, db: Db, ts: seq<int>): (rs: seq<Reaction>)
    ensures |rs| == |ts|
    decreases |ts|
  {
    if ts == [] then []
    else
      var r := step(db, ts[0]);
      [r] + Burst(step, r.db, ts[1..])
  }

  /** The reactions to successive submissions of the same request at the times `ts`. */
  function Resubmit(env: Env, db: Db, jr: JoinRequest, ts: seq<int>): (rs: seq<Reaction>)
    ensures |rs| == |ts|
  {
    Burst((d: Db, t: int) => HandleJoinRequest(env, d, jr, t), db, ts)
  }

  lemma SubmitStep(env: Env, db: Db, jr: JoinRequest, now: int)
    ensures var u, c := jr.from.id, jr.chatId;
      var n, r := AttemptCount(db.rows, u, c), HandleJoinRequest(env, db, jr, now);
      && (!IsBanAttempt(env.config, n) ==>
            && |r.db.rows| == |db.rows| + 1 && AttemptCount(r.db.rows, u, c) == n + 1
            && BanChatMember(c, u) !in r.outputs)
      && (IsBanAttempt(env.config, n) ==>
            && |r.db.rows| == |db.rows| && BanChatMember(c, u) in r.outputs
            && CountIf(r.db.rows, LiveOfPair(u, c)) == 0)
      && (Send(User(u), SpamWarning(n + 1)) in r.outputs <==> !IsBanAttempt(env.config, n) && IsWarnAttempt(env.config, n))
  {
    var u, c := jr.from.id, jr.chatId;
    var n := AttemptCount(db.rows, u, c);
    SubmitAttemptCounts(env, db, jr, now, u, c);
    if IsBanAttempt(env.config, n) {
      BanClearsPair(env, db, jr, now);
    } else {
      var outs := SubmitOutputs(env.config, jr, n);
      assert forall i | 0 <= i < |outs| :: outs[i].Send?;
    }
  }

  /**
   * The standing after the `i`-th submission of a burst on a table of
   * `baseRows` rows, that submission being the pair's attempt `n + 1`: below
   * the threshold it has added a row and is not a ban; at the threshold it
   * bans and leaves the pair no live row; it warns with its attempt number
   * exactly in the warning range below the ban.
   */
  predicate PolicyAt(cfg: Config, baseRows: nat, u: int, c: string, i: nat, n: nat, r: Reaction) {
    var ban, warn := cfg.spamBanAttempts - 1, cfg.spamWarningAttemptsStart - 1;
    && (n < ban ==> |r.db.rows| == baseRows + i + 1 && BanChatMember(c, u) !in r.outputs)
    && (n == ban ==>
          && |r.db.rows| == baseRows + i && BanChatMember(c, u) in r.outputs
          && CountIf(r.db.rows, LiveOfPair(u, c)) == 0)
    && (Send(User(u), SpamWarning(n + 1)) in r.outputs <==> warn <= n < ban)
  }

  /** `PolicyAt` for every submission of a burst, stated one submission at a time. */
  predicate PolicyFrom(cfg: Config, baseRows: nat, u: int, c: string, n: nat, rs: seq<Reaction>)
    decreases |rs|
  {
    rs != [] ==>
      && PolicyAt(cfg, baseRows, u, c, 0, n, rs[0])
      && (|rs| > 1 ==> |rs[0].db.rows| == baseRows + 1)
      && PolicyFrom(cfg, baseRows + 1, u, c, n + 1, rs[1..])
  }

  /**
   * The spam policy over a burst of submissions from a pair with `n0`
   * earlier ones, none of them past the ban: submission `i` is the pair's
   * attempt `n0 + i + 1` and is handled as `PolicyAt` says.
   */
  lemma ResubmitPolicy(env: Env, db: Db, jr: JoinRequest, ts: seq<int>, n0: nat)
    requires AttemptCount(db.rows, jr.from.id, jr.chatId) == n0
    requires n0 + |ts| <= env.config.spamBanAttempts
    ensures forall i | 0 <= i < |ts| ::
      PolicyAt(env.config, |db.rows|, jr.from.id, jr.chatId, i, n0 + i, Resubmit(env, db, jr, ts)[i])
  {
    var step := (d: Db, t: int) => HandleJoinRequest(env, d, jr, t);
    forall d: Db, t: int
      ensures StepFollows(env.config, jr.from.id, jr.chatId, step, d, t)
    {
      SubmitStep(env, d, jr, t);
    }
    BurstFollows(env.config, jr.from.id, jr.chatId, step, db, ts, n0);
    PolicyFromAt(env.config, |db.rows|, jr.from.id, jr.chatId, n0, Resubmit(env, db, jr, ts));
  }

  /** One submission handled by `step` on table `d` meets `PolicyAt` and, below the ban, adds one to the pair's count. */
  predicate StepFollows(cfg: Config, u: int, c: string, step: (Db, int) -> Reaction, d: Db, t: int) {
    var r, n := step(d, t), AttemptCount(d.rows, u, c);
    && PolicyAt(cfg, |d.rows|, u, c, 0, n, r)
    && (!IsBanAttempt(cfg, n) ==> AttemptCount(r.db.rows, u, c) == n + 1)
  }

  /** A burst of steps that each follow the policy follows it submission by submission. */
  lemma {:induction false} BurstFollows(cfg: Config, u: int, c: string, step: (Db, int) -> Reaction, db: Db, ts: seq<int>, n0: nat)
    requires forall d: Db, t: int :: StepFollows(cfg, u, c, step, d, t)
    requires AttemptCount(db.rows, u, c) == n0 && n0 + |ts| <= cfg.spamBanAttempts
    decreases |ts|
    ensures PolicyFrom(cfg, |db.rows|, u, c, n0, Burst(step, db, ts))
  {
    if ts != [] {
      var rs := Burst(step, db, ts);
      var r := step(db, ts[0]);
      assert StepFollows(cfg, u, c, step, db, ts[0]);
      assert rs[0] == r && rs[1..] == Burst(step, r.db, ts[1..]);
      if |ts| > 1 {
        BurstFollows(cfg, u, c, step, r.db, ts[1..], n0 + 1);
      }
    }
  }

  /** The one-at-a-time statement gives `PolicyAt` at every index. */
  lemma {:induction false} PolicyFromAt(cfg: Config, baseRows: nat, u: int, c: string, n: nat, rs: seq<Reaction>)
    requires PolicyFrom(cfg, baseRows, u, c, n, rs)
    decreases |rs|
    ensures forall i | 0 <= i < |rs| :: PolicyAt(cfg, baseRows, u, c, i, n + i, rs[i])
  {
    if rs != [] {
      PolicyFromAt(cfg, baseRows + 1, u, c, n + 1, rs[1..]);
      forall i | 1 <= i < |rs|
        ensures PolicyAt(cfg, baseRows, u, c, i, n + i, rs[i])
      {
        assert rs[1..][i - 1] == rs[i];
        assert PolicyAt(cfg, baseRows + 1, u, c, i - 1, n + 1 + (i - 1), rs[1..][i - 1]);
      }
    }
  }

  /**
   * With the default thresholds, of five submissions by a pair with no
   * history the first four each add a row, the third and fourth carry the
   * warnings for attempts 3 and 4 and the first two carry none, and the
   * fifth is the ban: no row is added and the pair has no live row left.
   */
  lemma FifthSubmissionBans(env: Env, db0: Db, jr: JoinRequest, t: seq<int>)
    requires env.config == Defaults
    requires |t| == 5
    requires AttemptCount(db0.rows, jr.from.id, jr.chatId) == 0
    ensures var rs, u, c := Resubmit(env, db0, jr, t), jr.from.id, jr.chatId;
      && (forall i | 0 <= i < 4 :: |rs[i].db.rows| == |db0.rows| + i + 1 && BanChatMember(c, u) !in rs[i].outputs)
      && Send(User(u), SpamWarning(1)) !in rs[0].outputs
      && Send(User(u), SpamWarning(2)) !in rs[1].outputs
      && Send(User(u), SpamWarning(3)) in rs[2].outputs
      && Send(User(u), SpamWarning(4)) in rs[3].outputs
      && |rs[4].db.rows| == |rs[3].db.rows|
      && BanChatMember(c, u) in rs[4].outputs
      && CountIf(rs[4].db.rows, LiveOfPair(u, c)) == 0
  {
    ResubmitPolicy(env, db0, jr, t, 0);
    var rs := Resubmit(env, db0, jr, t);
    assert PolicyAt(env.config, |db0.rows|, jr.from.id, jr.chatId, 3, 3, rs[3]);
    assert PolicyAt(env.config, |db0.rows|, jr.from.id, jr.chatId, 4, 4, rs[4]);
  }

  /** A ban leaves the pair with no live row and adds no row. */
  lemma BanClearsPair(env: Env, db: Db, jr: JoinRequest, now: int)
    requires IsBanAttempt(env.config, AttemptCount(db.rows, jr.from.id, jr.chatId))
    ensures var rows := HandleJoinRequest(env, db, jr, now).db.rows;
      CountIf(rows, LiveOfPair(jr.from.id, jr.chatId)) == 0 && |rows| == |db.rows|
  {
    CountIfZero(HandleJoinRequest(env, db, jr, now).db.rows, LiveOfPair(jr.from.id, jr.chatId));
  }
}
