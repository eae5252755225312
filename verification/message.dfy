/**
 * Private messages (`handleMessage`): the moderator's commands are handed to
 * `Admin`; every other private text from a person is either the answer to
 * the user's latest live request, or the confirmation or rejection of an
 * answer already given.
 */
module Messages {

  import opened Optional
  import opened Types
  import opened Strings
  import Markdown
  import Admin

  /** The text the handler works on: trimmed, then cut to the length limit. */
  function PrepareText(cfg: Config, raw: Option<string>): (t: string)
    ensures var trimmed := Trim(raw.GetOr(""));
      && StartsWith(trimmed, t)
      && |t| == if |trimmed| <= cfg.maxMessageLength then |trimmed| else cfg.maxMessageLength
    ensures |t| <= |raw.GetOr("")|
    ensures t != "" ==> !IsJsSpace(t[0])
  {
    var trimmed := Trim(raw.GetOr(""));
    var t := Truncate(trimmed, cfg.maxMessageLength);
    assert t != "" ==> t[0] == trimmed[0];
    t
  }

  /**
   * The row `handleMessage` acts on: among the user's live rows (in any
   * chat), one with the latest request date; of rows submitted in the same
   * second, the last in the table. -1 when the user has no live row.
   */
  function LatestLive(rows: seq<Request>, u: int): (k: int)
    ensures -1 <= k < |rows|
    ensures k == -1 <==> forall i | 0 <= i < |rows| :: !Matches(LiveOfUser(u), rows[i])
    ensures k >= 0 ==> Matches(LiveOfUser(u), rows[k])
    ensures k >= 0 ==> forall i | 0 <= i < |rows| && Matches(LiveOfUser(u), rows[i]) ::
      rows[i].requestDate < rows[k].requestDate || (rows[i].requestDate == rows[k].requestDate && i <= k)
  {
    if rows == [] then -1
    else
      var init := rows[..|rows| - 1];
      var j := LatestLive(init, u);
      var last := rows[|rows| - 1];
      assert forall i | 0 <= i < |init| :: rows[i] == init[i];
      if Matches(LiveOfUser(u), last) && (j == -1 || init[j].requestDate <= last.requestDate) then |rows| - 1
      else j
  }

  /**
   * The selection depends only on which rows are live rows of the user and
   * on their request dates: changing anything else leaves it where it was.
   */
  lemma {:induction false} LatestLiveFrame(a: seq<Request>, b: seq<Request>, u: int)
    requires |a| == |b|
    requires forall i | 0 <= i < |a| :: Matches(LiveOfUser(u), a[i]) == Matches(LiveOfUser(u), b[i])
    requires forall i | 0 <= i < |a| && Matches(LiveOfUser(u), a[i]) :: a[i].requestDate == b[i].requestDate
    ensures LatestLive(a, u) == LatestLive(b, u)
  {
    if a != [] {
      LatestLiveFrame(a[..|a| - 1], b[..|b| - 1], u);
    }
  }

  /** ASCII letters, digits and `_`: the characters the pattern's `\W` excludes. */
  predicate IsAsciiWordChar(c: char) {
    ('a' <= c <= 'z') || ('A' <= c <= 'Z') || ('0' <= c <= '9') || c == '_'
  }

  predicate NoWordChars(s: string) {
    forall i | 0 <= i < |s| :: !IsAsciiWordChar(s[i])
  }

  /**
   * The confirmation pattern `^(да|yes)[\W]*$` with the `i` flag and
   * without `u`: "да" or "yes" in any letter case, followed by nothing but
   * non-word characters. Case folding of a non-unicode pattern compares
   * upper-case forms, so CYRILLIC SMALL LETTER LONG-LEGGED DE (U+1C81),
   * whose upper case is "Д", also stands for "д". `\W` counts only ASCII
   * as word characters, so Cyrillic letters after "да" do not stop a match.
   */
  predicate IsAffirmative(t: string) {
    || (&& |t| >= 2
        && (t[0] == 'д' || t[0] == 'Д' || t[0] == '\U{1C81}')
        && (t[1] == 'а' || t[1] == 'А')
        && NoWordChars(t[2..]))
    || (&& |t| >= 3
        && (t[0] == 'y' || t[0] == 'Y')
        && (t[1] == 'e' || t[1] == 'E')
        && (t[2] == 's' || t[2] == 'S')
        && NoWordChars(t[3..]))
  }

  /**
   * The upper-case form the case-insensitive comparison uses, for every
   * character whose upper case can be one of the pattern's letters: ASCII
   * letters, the basic Cyrillic block and U+1C81. A non-ASCII character is
   * never folded onto an ASCII one, as section 22.2.2.7.3 (Canonicalize) of
   * ECMA-262 prescribes for patterns without the `u` flag. Every other
   * character stands for itself, which is exact for the comparisons here.
   */
  function Upper(c: char): char {
    if 'a' <= c <= 'z' then (c as int - 32) as char
    else if '\U{0430}' <= c <= '\U{044F}' then (c as int - 32) as char
    else if '\U{0450}' <= c <= '\U{045F}' then (c as int - 80) as char
    else if c == '\U{1C81}' then '\U{0414}'
    else c
  }

  /** The pattern read literally: "ДА" or "YES" after upper-casing, then only non-word characters. */
  lemma {:induction false} AffirmativeByUpperCase(t: string)
    ensures IsAffirmative(t) <==>
      || (|t| >= 2 && Upper(t[0]) == 'Д' && Upper(t[1]) == 'А' && NoWordChars(t[2..]))
      || (|t| >= 3 && Upper(t[0]) == 'Y' && Upper(t[1]) == 'E' && Upper(t[2]) == 'S' && NoWordChars(t[3..]))
  {
    if |t| >= 2 {
      UpperOfPatternLetters(t[0]);
      UpperOfPatternLetters(t[1]);
    }
    if |t| >= 3 {
      UpperOfPatternLetters(t[2]);
    }
  }

  /** Which characters fold onto each letter of the pattern. */
  lemma UpperOfPatternLetters(c: char)
    ensures Upper(c) == 'Д' <==> c == 'д' || c == 'Д' || c == '\U{1C81}'
    ensures Upper(c) == 'А' <==> c == 'а' || c == 'А'
    ensures Upper(c) == 'Y' <==> c == 'y' || c == 'Y'
    ensures Upper(c) == 'E' <==> c == 'e' || c == 'E'
    ensures Upper(c) == 'S' <==> c == 's' || c == 'S'
  {
  }

  /** Trailing non-word characters never turn a confirmation into a rewrite. */
  lemma AffirmativeKeepsPunctuation(t: string, tail: string)
    requires IsAffirmative(t) && NoWordChars(tail)
    ensures IsAffirmative(t + tail)
  {
    if |t| >= 2 && (t[0] == 'д' || t[0] == 'Д' || t[0] == '\U{1C81}') && (t[1] == 'а' || t[1] == 'А') && NoWordChars(t[2..]) {
      assert (t + tail)[2..] == t[2..] + tail;
    } else {
      assert (t + tail)[3..] == t[3..] + tail;
    }
  }

  /** The confirmations the handler accepts, and texts it treats as a request to rewrite. */
  lemma AffirmativeExamples()
    ensures IsAffirmative("Да!") && IsAffirmative("yes") && IsAffirmative("YES")
    ensures IsAffirmative("да.") && IsAffirmative("Yes...")
    ensures !IsAffirmative("no") && !IsAffirmative("yesterday") && !IsAffirmative("yes1") && !IsAffirmative("")
  {
    assert IsAsciiWordChar('t');
    assert "yesterday"[3..][0] == 't';
    assert "yes1"[3..][0] == '1';
  }

  /**
   * Because `\W` is ASCII-only, any Cyrillic continuation of "да" still
   * confirms: "даже" ("even") and "Да нет" ("well, no") are both read as
   * "yes".
   */
  lemma CyrillicTailConfirms()
    ensures IsAffirmative("даже")
    ensures IsAffirmative("Да нет")
  {
  }

  /** Whether the handler dispatches the text to the moderator commands. */
  predicate IsAdminCommand(env: Env, msg: Message, t: string) {
    msg.isPrivate && env.adminUserId == Some(msg.from.id) && StartsWith(t, "/")
  }

  /** Whether the handler goes on to look up the sender's request. */
  predicate Screened(msg: Message, t: string) {
    msg.isPrivate && !msg.from.isBot && !StartsWith(t, "/")
  }

  /** The message was the answer: it is stored and the row becomes `answered`. */
  function RecordAnswer(db: Db, k: nat, t: string, now: int): (r: Db)
    requires k < |db.rows|
    ensures |r.rows| == |db.rows| && forall i | 0 <= i < |db.rows| && i != k :: r.rows[i] == db.rows[i]
    ensures r.rows[k].status == Answered && r.rows[k].answerText == Some(t) && r.rows[k].answerDate == Some(now)
    ensures r.rows[k].(status := db.rows[k].status, answerText := db.rows[k].answerText, answerDate := db.rows[k].answerDate) == db.rows[k]
    ensures db.events <= r.events && r.events[|db.events|..] == [Event(Some(db.rows[k].id), db.rows[k].userId, EvAnswered(t), now)]
    ensures r.nextId == db.nextId
  {
    var row := db.rows[k];
    Db(db.rows[k := row.(status := Answered, answerText := Some(t), answerDate := Some(now))],
       db.events + [Event(Some(row.id), row.userId, EvAnswered(t), now)], db.nextId)
  }

  /** The answer was confirmed. */
  function RecordConfirm(db: Db, k: nat, now: int): (r: Db)
    requires k < |db.rows|
    ensures |r.rows| == |db.rows| && forall i | 0 <= i < |db.rows| && i != k :: r.rows[i] == db.rows[i]
    ensures r.rows[k].status == Confirmed && r.rows[k].confirmedDate == Some(now)
    ensures r.rows[k].(status := db.rows[k].status, confirmedDate := db.rows[k].confirmedDate) == db.rows[k]
    ensures db.events <= r.events && r.events[|db.events|..] == [Event(Some(db.rows[k].id), db.rows[k].userId, EvConfirmed, now)]
    ensures r.nextId == db.nextId
  {
    var row := db.rows[k];
    Db(db.rows[k := row.(status := Confirmed, confirmedDate := Some(now))],
       db.events + [Event(Some(row.id), row.userId, EvConfirmed, now)], db.nextId)
  }

  /** The answer was not confirmed: it is cleared and the row is `pending` again. */
  function RecordRewrite(db: Db, k: nat, now: int): (r: Db)
    requires k < |db.rows|
    ensures |r.rows| == |db.rows| && forall i | 0 <= i < |db.rows| && i != k :: r.rows[i] == db.rows[i]
    ensures r.rows[k].status == Pending && r.rows[k].answerText.None? && r.rows[k].answerDate.None?
    ensures r.rows[k].(status := db.rows[k].status, answerText := db.rows[k].answerText, answerDate := db.rows[k].answerDate) == db.rows[k]
    ensures db.events <= r.events && r.events[|db.events|..] == [Event(Some(db.rows[k].id), db.rows[k].userId, EvRewriteRequested, now)]
    ensures r.nextId == db.nextId
  {
    var row := db.rows[k];
    Db(db.rows[k := row.(status := Pending, answerText := None, answerDate := None)],
       db.events + [Event(Some(row.id), row.userId, EvRewriteRequested, now)], db.nextId)
  }

  /** Replacing a live row by one with the same id and pair, and appending events, is an allowed change. */
  lemma LiveRowUpdateEvolves(db: Db, k: nat, row: Request, evs: seq<Event>)
    requires k < |db.rows| && db.rows[k].status.IsLive()
    requires row.id == db.rows[k].id && row.SamePair(db.rows[k])
    ensures Evolves(db, Db(db.rows[k := row], db.events + evs, db.nextId))
  {
  }

  /** The moderators' notice for a confirmed row; every text field is escaped for legacy Markdown. */
  function ModeratorReport(row: Request): Notice {
    var esc := Markdown.EscapeMarkdownLegacy;
    NewRequestReport(esc(row.username), esc(row.displayName), row.userId, esc(row.answerText),
                     esc(Some(row.chatId)), row.requestDate, row.expiresAt)
  }

  /**
   * What a screened text `t` from user `u` does: it answers the user's
   * latest live request, or confirms or withdraws the answer given to it.
   */
  function Reply(db: Db, u: int, t: string, now: int): (res: Reaction)
    ensures Evolves(db, res.db) && |res.db.rows| == |db.rows|
    ensures var k := LatestLive(db.rows, u);
      && (k == -1 ==> res == Reaction(db, [Send(User(u), NoPendingRequest)]))
      && (k >= 0 && !db.rows[k].HasAnswer() ==>
            && res.db == RecordAnswer(db, k, t, now)
            && res.outputs == [Send(User(u), Confirmation(Markdown.EscapeMarkdownLegacy(Some(t))))])
      && (k >= 0 && db.rows[k].HasAnswer() && db.rows[k].status == Answered && IsAffirmative(Trim(t)) ==>
            && res.db == RecordConfirm(db, k, now)
            && res.outputs == [Send(Moderators, ModeratorReport(db.rows[k])), Send(User(u), SentToModerators)])
      && (k >= 0 && db.rows[k].HasAnswer() && db.rows[k].status == Answered && !IsAffirmative(Trim(t)) ==>
            && res.db == RecordRewrite(db, k, now)
            && res.outputs == [Send(User(u), RewriteRequested)])
      && (k >= 0 && db.rows[k].HasAnswer() && db.rows[k].status == Pending ==> res == Reaction(db, []))
  {
    var k := LatestLive(db.rows, u);
    if k == -1 then Reaction(db, [Send(User(u), NoPendingRequest)])
    else
      var row := db.rows[k];
      LiveRowUpdateEvolves(db, k, row.(status := Answered, answerText := Some(t), answerDate := Some(now)),
                           [Event(Some(row.id), row.userId, EvAnswered(t), now)]);
      LiveRowUpdateEvolves(db, k, row.(status := Confirmed, confirmedDate := Some(now)),
                           [Event(Some(row.id), row.userId, EvConfirmed, now)]);
      LiveRowUpdateEvolves(db, k, row.(status := Pending, answerText := None, answerDate := None),
                           [Event(Some(row.id), row.userId, EvRewriteRequested, now)]);
      if !row.HasAnswer() then
        Reaction(RecordAnswer(db, k, t, now), [Send(User(u), Confirmation(Markdown.EscapeMarkdownLegacy(Some(t))))])
      else if row.status == Answered then
        if IsAffirmative(Trim(t)) then
          Reaction(RecordConfirm(db, k, now), [Send(Moderators, ModeratorReport(row)), Send(User(u), SentToModerators)])
        else
          Reaction(RecordRewrite(db, k, now), [Send(User(u), RewriteRequested)])
      else Reaction(db, [])
  }

  /** `handleMessage` on one message at time `now`. */
  function HandleMessage(env: Env, db: Db, msg: Message, now: int, decline: Responses): (res: Reaction)
    ensures Evolves(db, res.db) && |res.db.rows| == |db.rows|
    ensures var t := PrepareText(env.config, msg.text);
      && (IsAdminCommand(env, msg, t) ==> res.outputs != [] && res.outputs[|res.outputs| - 1].Send? && res.outputs[|res.outputs| - 1].to == Chat(msg.chatId))
      && (!IsAdminCommand(env, msg, t) && !Screened(msg, t) ==> res == Reaction(db, []))
      && (Screened(msg, t) ==> res == Reply(db, msg.from.id, t, now))
  {
    var t := PrepareText(env.config, msg.text);
    if IsAdminCommand(env, msg, t) then Admin.HandleAdminCommand(env, db, t, msg.chatId, now, decline)
    else if !Screened(msg, t) then Reaction(db, [])
    else Reply(db, msg.from.id, t, now)
  }

  /** The moderator's commands in the private chat are handed to the command handler, with the prepared text. */
  lemma AdminDispatch(env: Env, db: Db, msg: Message, now: int, decline: Responses)
    requires IsAdminCommand(env, msg, PrepareText(env.config, msg.text))
    ensures HandleMessage(env, db, msg, now, decline)
         == Admin.HandleAdminCommand(env, db, PrepareText(env.config, msg.text), msg.chatId, now, decline)
  {
  }

  /** A stored answer never exceeds the length limit. */
  lemma StoredAnswerBounded(env: Env, db: Db, msg: Message, now: int, decline: Responses)
    requires Screened(msg, PrepareText(env.config, msg.text))
    requires var k := LatestLive(db.rows, msg.from.id); k >= 0 && !db.rows[k].HasAnswer()
    ensures var k := LatestLive(db.rows, msg.from.id);
      var r := HandleMessage(env, db, msg, now, decline).db.rows[k];
      r.status == Answered && r.answerText.Some? && |r.answerText.value| <= env.config.maxMessageLength
  {
  }

  /** Storing an answer keeps the answered row the one the user's next message goes to. */
  lemma AnswerKeepsSelection(db: Db, u: int, t: string, now: int)
    requires var k := LatestLive(db.rows, u); k >= 0 && !db.rows[k].HasAnswer()
    ensures var k := LatestLive(db.rows, u);
      && Reply(db, u, t, now).db == RecordAnswer(db, k, t, now)
      && LatestLive(RecordAnswer(db, k, t, now).rows, u) == k
  {
    var k := LatestLive(db.rows, u);
    var rows := RecordAnswer(db, k, t, now).rows;
    assert forall i | 0 <= i < |db.rows| && i != k :: rows[i] == db.rows[i];
    LatestLiveFrame(db.rows, rows, u);
  }

  /**
   * Answering and then declining to confirm puts the row back exactly as it
   * was before the answer; only the two events remain.
   */
  lemma AnswerThenRewriteRestores(db: Db, u: int, ta: string, tb: string, t1: int, t2: int)
    requires var k := LatestLive(db.rows, u);
      k >= 0 && db.rows[k].status == Pending && db.rows[k].answerText.None? && db.rows[k].answerDate.None?
    requires ta != "" && !IsAffirmative(Trim(tb))
    ensures var r1 := Reply(db, u, ta, t1);
      var r2 := Reply(r1.db, u, tb, t2);
      && r2.db.rows == db.rows
      && |r2.db.events| == |db.events| + 2
  {
    var k := LatestLive(db.rows, u);
    AnswerKeepsSelection(db, u, ta, t1);
    var db1 := RecordAnswer(db, k, ta, t1);
    var restored := db1.rows[k].(status := Pending, answerText := None, answerDate := None);
    assert restored == db.rows[k];
    assert db1.rows[k := restored] == db.rows;
  }

  /**
   * Answering and then confirming with an affirmative text leaves the row
   * `confirmed` with the answer stored, and reports it to the moderators.
   */
  lemma AnswerThenConfirm(db: Db, u: int, ta: string, tb: string, t1: int, t2: int)
    requires var k := LatestLive(db.rows, u); k >= 0 && !db.rows[k].HasAnswer()
    requires ta != "" && IsAffirmative(Trim(tb))
    ensures var k := LatestLive(db.rows, u);
      var r1 := Reply(db, u, ta, t1);
      var r2 := Reply(r1.db, u, tb, t2);
      && r1.db.rows[k].answerText == Some(ta)
      && r2.db.rows == db.rows[k := db.rows[k].(status := Confirmed, answerText := Some(ta), answerDate := Some(t1), confirmedDate := Some(t2))]
      && r2.outputs[0] == Send(Moderators, ModeratorReport(r1.db.rows[k]))
  {
    AnswerKeepsSelection(db, u, ta, t1);
  }

  /** A message without text from a person, in the private chat, is handled as the empty text. */
  lemma NoTextIsEmptyText(env: Env, db: Db, u: Sender, now: int, decline: Responses)
    requires !u.isBot
    ensures HandleMessage(env, db, Message(u.id, true, u, None), now, decline) == Reply(db, u.id, "", now)
  {
    var msg := Message(u.id, true, u, None);
    var t := PrepareText(env.config, msg.text);
    assert t == "" by {
      assert Trim("") == "";
    }
    assert Screened(msg, t) by {
      assert !StartsWith(t, "/");
    }
    var res := HandleMessage(env, db, msg, now, decline);
    assert res == Reply(db, msg.from.id, t, now);
  }

  /**
   * A message without text (a sticker, a photo) is stored as an empty
   * answer. An empty answer counts as no answer, so the user's next text,
   * even "да", is taken as the answer rather than as its confirmation.
   */
  lemma EmptyAnswerIsNoAnswer(env: Env, db: Db, u: Sender, tb: string, t1: int, t2: int, decline: Responses)
    requires !u.isBot
    requires var k := LatestLive(db.rows, u.id); k >= 0 && !db.rows[k].HasAnswer()
    ensures var k := LatestLive(db.rows, u.id);
      var r1 := HandleMessage(env, db, Message(u.id, true, u, None), t1, decline);
      var r2 := Reply(r1.db, u.id, tb, t2);
      && r1.db.rows[k].status == Answered && r1.db.rows[k].answerText == Some("")
      && r2.db.rows[k].status == Answered && r2.db.rows[k].answerText == Some(tb)
  {
    var k := LatestLive(db.rows, u.id);
    var db1 := RecordAnswer(db, k, "", t1);
    assert HandleMessage(env, db, Message(u.id, true, u, None), t1, decline).db == db1 by {
      NoTextIsEmptyText(env, db, u, t1, decline);
      AnswerKeepsSelection(db, u.id, "", t1);
    }
    assert LatestLive(db1.rows, u.id) == k by {
      AnswerKeepsSelection(db, u.id, "", t1);
    }
    assert db1.rows[k].answerText == Some("");
    AnswerKeepsSelection(db1, u.id, tb, t2);
  }
}
