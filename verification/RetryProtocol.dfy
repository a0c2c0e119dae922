/** redis_command of the cluster client: a bounded retry loop around a server that may answer
    anything, or not at all. */
module RetryProtocol {
  import opened Options

  type kind = x: int | 1 <= x <= 6 witness 1

  const REPLY_INTEGER: kind := 3
  const REPLY_NIL: kind := 4
  const REPLY_STATUS: kind := 5
  const REPLY_ERROR: kind := 6
  const REDIS_ERR_IO := 1
  const ERR_INIT_REDIS_CONN := -2
  const ERROR_COMMAND := -3
  const ERROR_NOSCRIPT := -8

  type errcode = x: int | x != 0 witness 1

  datatype Reply = Reply(kind: kind, text: Option<string>)

  /** What one turn of the loop meets: no connection, a connection in error, a command without a reply
      (because of a timeout or not), or a reply; and whether reading the cluster layout anew throws. */
  datatype Attempt =
    | NoConnection
    | ConnectionError(code: errcode, message: string)
    | NoReply(timeout: bool)
    | Replies(reply: Reply)

  datatype Turn = Turn(attempt: Attempt, initThrows: bool)

  /** What the loop does in turn `i`. */
  datatype Action = Send(i: nat) | FreeReply(i: nat) | Init(i: nat)

  datatype Outcome =
    | Returned(reply: Option<Reply>)
    | Threw(code: int, message: string)
    | InitThrew

  predicate StartsWith(s: string, prefix: string) { prefix <= s }

  /** WRONGTYPE, ERR and NOSCRIPT are not worth a retry. */
  predicate IsFinal(message: string) {
    StartsWith(message, "WRONGTYPE") || StartsWith(message, "ERR") || StartsWith(message, "NOSCRIPT")
  }

  predicate Acceptable(reply: Reply, expected: int) {
    reply.kind == REPLY_NIL || reply.kind == expected || (expected == -1 && reply.kind != REPLY_ERROR)
  }

  // ---------- one turn ----------

  /** The text of the last error after a turn.  A reply without a text does not replace it. */
  function TextOf(attempt: Attempt, expected: int, command: string, before: string): string {
    match attempt
    case NoConnection => "connect redis cluster failed"
    case ConnectionError(_, message) => message
    case NoReply(_) => "redis `" + command + "` error"
    case Replies(reply) => if Acceptable(reply, expected) || reply.text.None? then before else reply.text.value
  }

  /** What went wrong is worth a retry; `text` is the text of the last error by then. */
  predicate WorthRetry(attempt: Attempt, expected: int, text: string) {
    match attempt
    case NoConnection => true
    case ConnectionError(code, _) => code == REDIS_ERR_IO
    case NoReply(timeout) => !timeout
    case Replies(reply) => !Acceptable(reply, expected) && !IsFinal(text)
  }

  predicate Answers(attempt: Attempt, expected: int) {
    attempt.Replies? && Acceptable(attempt.reply, expected)
  }

  /** What turn `i` does up to the decision. */
  function ActionsOf(attempt: Attempt, expected: int, i: nat): seq<Action> {
    match attempt
    case NoReply(_) => [Send(i)]
    case Replies(reply) => if Acceptable(reply, expected) then [Send(i)] else [Send(i), FreeReply(i)]
    case _ => []
  }

  /** The error code a turn leaves. */
  function CodeOf(attempt: Attempt, text: string): (code: int)
    ensures code != 0
  {
    match attempt
    case NoConnection => ERR_INIT_REDIS_CONN
    case ConnectionError(code, _) => if code == REDIS_ERR_IO then code else ERR_INIT_REDIS_CONN
    case NoReply(_) => ERROR_COMMAND
    case Replies(reply) => ReplyError(reply, text)
  }

  function ReplyError(reply: Reply, text: string): (code: int)
    ensures code != 0
  {
    if StartsWith(text, "NOSCRIPT") && !StartsWith(text, "WRONGTYPE") && !StartsWith(text, "ERR") then ERROR_NOSCRIPT
    else reply.kind
  }

  // ---------- a list of turns ----------

  function MessageAfter(turns: seq<Turn>, expected: int, command: string, n: nat): string
    requires n <= |turns|
  {
    if n == 0 then ""
    else TextOf(turns[n - 1].attempt, expected, command, MessageAfter(turns, expected, command, n - 1))
  }

  predicate Retries(turns: seq<Turn>, expected: int, command: string, i: nat)
    requires i < |turns|
  {
    WorthRetry(turns[i].attempt, expected, MessageAfter(turns, expected, command, i + 1))
  }

  /** Turn `i` ends with the layout read anew and the next turn. */
  predicate Continues(turns: seq<Turn>, expected: int, command: string, i: nat)
    requires i < |turns|
  {
    Retries(turns, expected, command, i) && !turns[i].initThrows
  }

  function TurnActions(turns: seq<Turn>, expected: int, i: nat): seq<Action>
    requires i < |turns|
  {
    ActionsOf(turns[i].attempt, expected, i)
  }

  function AllActions(turns: seq<Turn>, expected: int, n: nat): seq<Action>
    requires n <= |turns|
  {
    if n == 0 then []
    else AllActions(turns, expected, n - 1) + TurnActions(turns, expected, n - 1) + [Init(n - 1)]
  }

  function ErrorCode(turns: seq<Turn>, expected: int, command: string, i: nat): (code: int)
    requires i < |turns|
    ensures code != 0
  {
    CodeOf(turns[i].attempt, MessageAfter(turns, expected, command, i + 1))
  }

  /** A run: `n` turns that continue, and then either no turn is left or turn `n` ends the loop. */
  ghost predicate IsRun(turns: seq<Turn>, expected: int, command: string, retryTimes: nat,
                        n: nat, outcome: Outcome, log: seq<Action>)
    requires retryTimes <= |turns|
  {
    && n <= retryTimes
    && (forall i :: 0 <= i < n ==> Continues(turns, expected, command, i))
    && if n == retryTimes then
         log == AllActions(turns, expected, n)
         && outcome == if n == 0 then Returned(None) else
              Threw(ErrorCode(turns, expected, command, n - 1), MessageAfter(turns, expected, command, n))
       else
         && !Continues(turns, expected, command, n)
         && log == AllActions(turns, expected, n) + TurnActions(turns, expected, n)
                   + (if Retries(turns, expected, command, n) then [Init(n)] else [])
         && if Retries(turns, expected, command, n) then outcome == InitThrew
            else if Answers(turns[n].attempt, expected) then
              outcome == Returned(Some(turns[n].attempt.reply))
            else outcome == Threw(ErrorCode(turns, expected, command, n), MessageAfter(turns, expected, command, n + 1))
  }

  /** The part of the loop that looks at a reply: is it the answer, and if not, does it end the loop,
      and with which error. */
  method Inspect(reply: Reply, expected: int, before: string)
    returns (accepted: bool, final: bool, code: int, message: string)
    ensures accepted == Acceptable(reply, expected)
    ensures accepted ==> code == 0 && message == before
    ensures !accepted ==> message == if reply.text.None? then before else reply.text.value
    ensures !accepted ==> final == IsFinal(message)
    ensures !accepted ==> code == ReplyError(reply, message)
  {
    accepted, final, code, message := true, true, 0, before;
    if REPLY_NIL == reply.kind {
      return;
    }
    if reply.kind != REPLY_ERROR && -1 == expected {
      return;
    }
    if reply.kind != expected {
      accepted, code := false, reply.kind;
      if reply.text.Some? {
        message := reply.text.value;
      }
      if StartsWith(message, "WRONGTYPE") || StartsWith(message, "ERR") {
        return;
      }
      if StartsWith(message, "NOSCRIPT") {
        code := ERROR_NOSCRIPT;
        return;
      }
      final := false;
    }
  }

  /** How a turn ends: with the answer, with an error that ends the loop, or with one worth a retry. */
  datatype Verdict = Answered | GaveUp | Again

  /** One turn of the loop up to the decision. */
  method TakeTurn(attempt: Attempt, expected: int, command: string, i: nat, before: string)
    returns (verdict: Verdict, code: int, message: string, actions: seq<Action>)
    ensures actions == ActionsOf(attempt, expected, i)
    ensures message == TextOf(attempt, expected, command, before)
    ensures verdict == if Answers(attempt, expected) then Answered
                       else if WorthRetry(attempt, expected, message) then Again else GaveUp
    ensures verdict != Answered ==> code == CodeOf(attempt, message)
    ensures verdict == Answered ==> code == 0
  {
    hide IsFinal, StartsWith, Acceptable, ReplyError;
    verdict, code, actions := Again, 0, [];
    match attempt {
      case NoConnection =>
        code, message := ERR_INIT_REDIS_CONN, "connect redis cluster failed";
      case ConnectionError(err, errstr) =>
        code, message := err, errstr;
        if REDIS_ERR_IO != code {
          verdict, code := GaveUp, ERR_INIT_REDIS_CONN;
        }
      case NoReply(timeout) =>
        actions := [Send(i)];
        code, message := ERROR_COMMAND, "redis `" + command + "` error";
        if timeout {
          verdict := GaveUp;
        }
      case Replies(r) =>
        actions := [Send(i)];
        var accepted, final;
        accepted, final, code, message := Inspect(r, expected, before);
        if accepted {
          verdict := Answered;
        } else {
          actions := actions + [FreeReply(i)];
          if final {
            verdict := GaveUp;
          }
        }
    }
  }

  /** redis_command.  `turns` is what the loop is going to meet; the last result counts the turns
      that were followed by another one. */
  method RedisCommand(turns: seq<Turn>, expected: int, command: string, retryTimes: nat)
    returns (outcome: Outcome, log: seq<Action>, n: nat)
    requires retryTimes <= |turns|
    ensures IsRun(turns, expected, command, retryTimes, n, outcome, log)
  {
    hide TextOf, WorthRetry, Answers, ActionsOf, CodeOf;
    var reply: Option<Reply> := None;
    var code, message := 0, "";
    var i := 0;
    log, n := [], 0;
    while i < retryTimes
      invariant 0 <= i <= retryTimes && n == i && reply == None
      invariant forall j :: 0 <= j < i ==> Continues(turns, expected, command, j)
      invariant log == AllActions(turns, expected, i) && message == MessageAfter(turns, expected, command, i)
      invariant code == if i == 0 then 0 else ErrorCode(turns, expected, command, i - 1)
    {
      var verdict, actions;
      verdict, code, message, actions := TakeTurn(turns[i].attempt, expected, command, i, message);
      log := log + actions;
      if verdict.Answered? {
        AnswerIsReply(turns[i].attempt, expected, message);
        reply := Some(turns[i].attempt.reply);
        break;
      }
      if verdict.GaveUp? {
        break;
      }
      log := log + [Init(i)];
      if turns[i].initThrows {
        return InitThrew, log, n;
      }
      i, n := i + 1, n + 1;
    }
    if code != 0 {
      return Threw(code, message), log, n;
    }
    return Returned(reply), log, n;
  }

  lemma AnswerIsReply(attempt: Attempt, expected: int, text: string)
    requires Answers(attempt, expected)
    ensures attempt.Replies? && !WorthRetry(attempt, expected, text)
  {
  }

  // ---------- a reply without a text ----------

  function OwnText(reply: Reply): string {
    if reply.text.Some? then reply.text.value else ""
  }

  /** A reply of an unexpected type is judged by its own text exactly when it has one or the text of
      the turns before would not end the loop either. */
  lemma JudgedByOwnTextIff(turns: seq<Turn>, expected: int, command: string, i: nat)
    requires i < |turns| && turns[i].attempt.Replies? && !Acceptable(turns[i].attempt.reply, expected)
    ensures var reply := turns[i].attempt.reply;
            (Retries(turns, expected, command, i) <==> !IsFinal(OwnText(reply))) <==>
            (reply.text.Some? || !IsFinal(MessageAfter(turns, expected, command, i)))
  {
  }

  /** The text thrown is its own exactly when it has one or there was none before, and the code is
      its own exactly when it has a text or the one before is no NOSCRIPT error. */
  lemma ThrownAsOwnIff(turns: seq<Turn>, expected: int, command: string, i: nat)
    requires i < |turns| && turns[i].attempt.Replies? && !Acceptable(turns[i].attempt.reply, expected)
    ensures var reply, before := turns[i].attempt.reply, MessageAfter(turns, expected, command, i);
            && (MessageAfter(turns, expected, command, i + 1) == OwnText(reply) <==> reply.text.Some? || before == "")
            && (ErrorCode(turns, expected, command, i) == ReplyError(reply, OwnText(reply)) <==>
                reply.text.Some? || !StartsWith(before, "NOSCRIPT"))
  {
    if StartsWith(MessageAfter(turns, expected, command, i), "NOSCRIPT") {
      NoscriptIsNoOther(MessageAfter(turns, expected, command, i));
    }
  }

  lemma NoscriptIsNoOther(text: string)
    requires StartsWith(text, "NOSCRIPT")
    ensures !StartsWith(text, "WRONGTYPE") && !StartsWith(text, "ERR")
  {
    assert text[0] == 'N';
  }

  /** An integer without a text, where a status was expected, after the given first turn. */
  function Textless(first: Attempt): seq<Turn> {
    [Turn(first, false), Turn(Replies(Reply(REPLY_INTEGER, None)), false)]
  }

  /** After a MOVED error, the text of that error is thrown. */
  lemma EarlierTextIsThrown()
    ensures IsRun(Textless(Replies(Reply(REPLY_ERROR, Some("MOVED 1 a")))), REPLY_STATUS, "SET", 2, 2,
                  Threw(REPLY_INTEGER, "MOVED 1 a"),
                  [Send(0), FreeReply(0), Init(0), Send(1), FreeReply(1), Init(1)])
  {
    var turns := Textless(Replies(Reply(REPLY_ERROR, Some("MOVED 1 a"))));
    assert "MOVED 1 a"[0] == 'M';
    assert MessageAfter(turns, REPLY_STATUS, "SET", 0) == "";
    assert MessageAfter(turns, REPLY_STATUS, "SET", 1) == "MOVED 1 a";
    assert MessageAfter(turns, REPLY_STATUS, "SET", 2) == "MOVED 1 a";
    assert AllActions(turns, REPLY_STATUS, 0) == [];
    assert AllActions(turns, REPLY_STATUS, 1) == [Send(0), FreeReply(0), Init(0)];
    assert AllActions(turns, REPLY_STATUS, 2) == [Send(0), FreeReply(0), Init(0)] + [Send(1), FreeReply(1)] + [Init(1)];
  }

  /** After a connection error with a text like a final one, the reply ends the loop, which it would
      not do by itself. */
  lemma EarlierTextEndsLoop()
    ensures var turns := Textless(ConnectionError(REDIS_ERR_IO, "ERR x"));
            && Continues(turns, REPLY_STATUS, "SET", 0) && !Retries(turns, REPLY_STATUS, "SET", 1)
            && !IsFinal(OwnText(turns[1].attempt.reply))
  {
    var turns := Textless(ConnectionError(REDIS_ERR_IO, "ERR x"));
    assert MessageAfter(turns, REPLY_STATUS, "SET", 1) == "ERR x";
    assert MessageAfter(turns, REPLY_STATUS, "SET", 2) == "ERR x";
    assert "ERR" == "ERR x"[..3];
  }

  // ---------- what every run obeys ----------

  /** No connection, an I/O error of the connection (its code is 1), no reply without a time-out, and a
      reply that is neither NIL (type 4) nor of the expected type nor, when any type will do, something
      else than an error (type 6), under a text that does not start like a final error. */
  ghost predicate AsksForRetry(attempt: Attempt, expected: int, text: string) {
    match attempt
    case NoConnection => true
    case ConnectionError(code, _) => code == 1
    case NoReply(timeout) => !timeout
    case Replies(reply) =>
      && reply.kind != 4 && reply.kind != expected && (expected == -1 ==> reply.kind == 6)
      && !("WRONGTYPE" <= text) && !("ERR" <= text) && !("NOSCRIPT" <= text)
  }

  lemma ContinuesIff(turns: seq<Turn>, expected: int, command: string, i: nat)
    requires i < |turns|
    ensures var asks := AsksForRetry(turns[i].attempt, expected, MessageAfter(turns, expected, command, i + 1));
            && (Retries(turns, expected, command, i) <==> asks)
            && (Continues(turns, expected, command, i) <==> asks && !turns[i].initThrows)
  {
    hide MessageAfter;
  }

  /** The text that the attempt comes with. */
  ghost predicate Says(attempt: Attempt, command: string, text: string) {
    match attempt
    case NoConnection => text == "connect redis cluster failed"
    case ConnectionError(_, message) => text == message
    case NoReply(_) => text == "redis `" + command + "` error"
    case Replies(reply) => reply.text == Some(text)
  }

  ghost predicate IsTextless(attempt: Attempt) {
    attempt.Replies? && attempt.reply.text.None?
  }

  /** After turns without an answer the text in force is the last one said, or empty if none has been
      said. */
  lemma {:induction false} TextInForce(turns: seq<Turn>, expected: int, command: string, n: nat)
    requires n <= |turns| && forall i :: 0 <= i < n ==> !Answers(turns[i].attempt, expected)
    ensures var text := MessageAfter(turns, expected, command, n);
            || (text == "" && forall i :: 0 <= i < n ==> IsTextless(turns[i].attempt))
            || exists j :: 0 <= j < n && Says(turns[j].attempt, command, text)
                           && forall i :: j < i < n ==> IsTextless(turns[i].attempt)
    decreases n
  {
    if 0 < n {
      TextInForce(turns, expected, command, n - 1);
      var text := MessageAfter(turns, expected, command, n);
      if !IsTextless(turns[n - 1].attempt) {
        assert Says(turns[n - 1].attempt, command, text);
      }
    }
  }

  /** The send at `q` comes after the turn of the one at `p`, which asked for a retry, and with the
      layout read anew in between. */
  ghost predicate Resent(turns: seq<Turn>, expected: int, command: string, log: seq<Action>, p: nat, q: nat)
    requires p < q < |log|
  {
    && log[p].i < log[q].i && log[p].i < |turns| && !turns[log[p].i].initThrows
    && AsksForRetry(turns[log[p].i].attempt, expected, MessageAfter(turns, expected, command, log[p].i + 1))
    && exists r :: p < r < q && log[r] == Init(log[q].i - 1)
  }

  ghost predicate Disciplined(turns: seq<Turn>, expected: int, command: string, log: seq<Action>) {
    forall p, q :: 0 <= p < q < |log| && log[p].Send? && log[q].Send? ==>
      Resent(turns, expected, command, log, p, q)
  }

  /** The actions of a turn carry its number, and each turn sends at most once. */
  lemma {:induction false} ActionsOfTurns(turns: seq<Turn>, expected: int, n: nat)
    requires n <= |turns|
    ensures var log := AllActions(turns, expected, n);
            && (forall p :: 0 <= p < |log| ==> log[p].i < n)
            && if n == 0 then log == [] else log != [] && log[|log| - 1] == Init(n - 1)
    decreases n
  {
    if 0 < n {
      ActionsOfTurns(turns, expected, n - 1);
    }
  }

  /** Complete turns stay disciplined when a turn follows that sends first, if at all. */
  lemma MoreIsDisciplined(turns: seq<Turn>, expected: int, command: string, n: nat,
                          before: seq<Action>, more: seq<Action>)
    requires n <= |turns| && Disciplined(turns, expected, command, before)
    requires forall i :: 0 <= i < n ==> Continues(turns, expected, command, i)
    requires forall p :: 0 <= p < |before| ==> before[p].i < n
    requires if n == 0 then before == [] else before != [] && before[|before| - 1] == Init(n - 1)
    requires forall p :: 0 <= p < |more| && more[p].Send? ==> p == 0 && more[p].i == n
    ensures Disciplined(turns, expected, command, before + more)
  {
    hide Continues, Disciplined, AsksForRetry, MessageAfter;
    var log := before + more;
    forall p, q | 0 <= p < q < |log| && log[p].Send? && log[q].Send?
      ensures Resent(turns, expected, command, log, p, q)
    {
      if q < |before| {
        ResentBefore(turns, expected, command, before, more, p, q);
      } else {
        assert log[q] == more[q - |before|];
        assert p < |before| && log[p] == before[p] && log[|before| - 1] == Init(n - 1);
        ContinuesIff(turns, expected, command, log[p].i);
      }
    }
    AllResent(turns, expected, command, log);
  }

  lemma ResentBefore(turns: seq<Turn>, expected: int, command: string, before: seq<Action>, more: seq<Action>,
                     p: nat, q: nat)
    requires Disciplined(turns, expected, command, before)
    requires p < q < |before| && before[p].Send? && before[q].Send?
    ensures Resent(turns, expected, command, before + more, p, q)
  {
    hide Continues;
    assert Resent(turns, expected, command, before, p, q);
    var r :| p < r < q && before[r] == Init(before[q].i - 1);
    assert (before + more)[r] == before[r];
  }

  lemma AllResent(turns: seq<Turn>, expected: int, command: string, log: seq<Action>)
    requires forall p, q :: 0 <= p < q < |log| && log[p].Send? && log[q].Send? ==>
               Resent(turns, expected, command, log, p, q)
    ensures Disciplined(turns, expected, command, log)
  {
  }

  lemma TurnSendsFirst(turns: seq<Turn>, expected: int, n: nat, p: nat)
    requires n < |turns|
    ensures var actions := TurnActions(turns, expected, n) + [Init(n)];
            p < |actions| && actions[p].Send? ==> p == 0 && actions[p].i == n
  {
  }

  lemma {:induction false} TurnsAreDisciplined(turns: seq<Turn>, expected: int, command: string, n: nat)
    requires n <= |turns|
    requires forall i :: 0 <= i < n ==> Continues(turns, expected, command, i)
    ensures Disciplined(turns, expected, command, AllActions(turns, expected, n))
    decreases n
  {
    if 0 < n {
      hide Disciplined, Continues, TurnActions;
      var last := TurnActions(turns, expected, n - 1) + [Init(n - 1)];
      forall p: nat | p < |last| && last[p].Send? ensures p == 0 && last[p].i == n - 1 {
        TurnSendsFirst(turns, expected, n - 1, p);
      }
      TurnsAreDisciplined(turns, expected, command, n - 1);
      ActionsOfTurns(turns, expected, n - 1);
      MoreIsDisciplined(turns, expected, command, n - 1, AllActions(turns, expected, n - 1), last);
      assert AllActions(turns, expected, n) == AllActions(turns, expected, n - 1) + last;
    }
  }

  /** For every behaviour of the server: no send after a timed-out send or a final error, and the
      layout is read anew before every resend. */
  lemma RunIsDisciplined(turns: seq<Turn>, expected: int, command: string, retryTimes: nat,
                         n: nat, outcome: Outcome, log: seq<Action>)
    requires retryTimes <= |turns| && IsRun(turns, expected, command, retryTimes, n, outcome, log)
    ensures Disciplined(turns, expected, command, log)
  {
    hide IsRun, Disciplined, Continues, AllActions, TurnActions;
    var more := RunLog(turns, expected, command, retryTimes, n, outcome, log);
    var all := AllActions(turns, expected, n);
    TurnsAreDisciplined(turns, expected, command, n);
    ActionsOfTurns(turns, expected, n);
    MoreIsDisciplined(turns, expected, command, n, all, more);
  }

  /** The log of a run: `n` complete turns, and what the last one does behind them. */
  lemma RunLog(turns: seq<Turn>, expected: int, command: string, retryTimes: nat,
               n: nat, outcome: Outcome, log: seq<Action>) returns (more: seq<Action>)
    requires retryTimes <= |turns| && IsRun(turns, expected, command, retryTimes, n, outcome, log)
    ensures n <= |turns| && log == AllActions(turns, expected, n) + more
    ensures forall i :: 0 <= i < n ==> Continues(turns, expected, command, i)
    ensures forall p :: 0 <= p < |more| && more[p].Send? ==> p == 0 && more[p].i == n
  {
    hide AllActions, WorthRetry, Continues, Acceptable;
    more := [];
    if n < retryTimes {
      var turn := TurnActions(turns, expected, n);
      var end := if Retries(turns, expected, command, n) then [Init(n)] else [];
      more := turn + end;
      assert log == AllActions(turns, expected, n) + more;
    } else {
      assert log == log + [];
    }
  }

  function Count(log: seq<Action>, a: Action): nat {
    if log == [] then 0 else (if log[0] == a then 1 else 0) + Count(log[1..], a)
  }

  function SendCount(log: seq<Action>): nat {
    if log == [] then 0 else (if log[0].Send? then 1 else 0) + SendCount(log[1..])
  }

  lemma {:induction false} CountAppend(a: seq<Action>, b: seq<Action>, x: Action)
    ensures Count(a + b, x) == Count(a, x) + Count(b, x)
    ensures SendCount(a + b) == SendCount(a) + SendCount(b)
    decreases |a|
  {
    if a == [] {
      assert a + b == b;
    } else {
      assert (a + b)[0] == a[0] && (a + b)[1..] == a[1..] + b;
      CountAppend(a[1..], b, x);
    }
  }

  /** How often turn `i` frees a reply. */
  function Frees(turns: seq<Turn>, expected: int, i: nat): nat
    requires i < |turns|
  {
    if turns[i].attempt.Replies? && !Acceptable(turns[i].attempt.reply, expected) then 1 else 0
  }

  lemma CountOne(a: Action, x: Action)
    ensures Count([a], x) == if a == x then 1 else 0
    ensures SendCount([a]) == if a.Send? then 1 else 0
  {
    assert [a][1..] == [];
    var none: seq<Action> := [a][1..];
    assert Count(none, x) == 0 && SendCount(none) == 0;
  }

  lemma TurnCounts(turns: seq<Turn>, expected: int, n: nat, i: nat)
    requires n < |turns| && i < |turns|
    ensures var actions := TurnActions(turns, expected, n);
            && SendCount(actions) <= 1 && SendCount([Init(n)]) == 0 && Count([Init(n)], FreeReply(i)) == 0
            && Count(actions, FreeReply(i)) == if i == n then Frees(turns, expected, n) else 0
  {
    hide Count, SendCount, Acceptable;
    CountNothing(FreeReply(i));
    CountOne(Init(n), FreeReply(i));
    CountOne(Send(n), FreeReply(i));
    CountOne(FreeReply(n), FreeReply(i));
    CountAppend([Send(n)], [FreeReply(n)], FreeReply(i));
    assert [Send(n)] + [FreeReply(n)] == [Send(n), FreeReply(n)];
  }

  lemma CountNothing(x: Action)
    ensures Count([], x) == 0 && SendCount([]) == 0
  {
  }

  lemma {:induction false} TurnsCounted(turns: seq<Turn>, expected: int, n: nat, i: nat)
    requires n <= |turns| && i < |turns|
    ensures var log := AllActions(turns, expected, n);
            SendCount(log) <= n && Count(log, FreeReply(i)) == if i < n then Frees(turns, expected, i) else 0
    decreases n
  {
    if 0 < n {
      var before, turn := AllActions(turns, expected, n - 1), TurnActions(turns, expected, n - 1);
      TurnsCounted(turns, expected, n - 1, i);
      TurnCounts(turns, expected, n - 1, i);
      CountAppend(before + turn, [Init(n - 1)], FreeReply(i));
      CountAppend(before, turn, FreeReply(i));
    }
  }

  /** For every behaviour of the server: at most `retryTimes` sends, and each reply received is freed
      exactly once or is the one returned. */
  lemma RunIsAccounted(turns: seq<Turn>, expected: int, command: string, retryTimes: nat,
                       n: nat, outcome: Outcome, log: seq<Action>, i: nat)
    requires retryTimes <= |turns| && IsRun(turns, expected, command, retryTimes, n, outcome, log)
    requires i < |turns|
    ensures SendCount(log) <= retryTimes
    ensures Send(i) in log && turns[i].attempt.Replies? ==>
              Count(log, FreeReply(i)) == if outcome == Returned(Some(turns[i].attempt.reply)) && i == n then 0 else 1
    ensures !turns[i].attempt.Replies? ==> Count(log, FreeReply(i)) == 0
  {
    var all := AllActions(turns, expected, n);
    TurnsCounted(turns, expected, n, i);
    ActionsOfTurns(turns, expected, n);
    assert i >= n ==> Send(i) !in all;
    if n < retryTimes {
      var turn, end := TurnActions(turns, expected, n), if Retries(turns, expected, command, n) then [Init(n)] else [];
      TurnCounts(turns, expected, n, i);
      CountAppend(all + turn, end, FreeReply(i));
      CountAppend(all, turn, FreeReply(i));
      assert log == all + turn + end;
      assert Send(i) in turn ==> i == n;
    }
    if i < n {
      assert Continues(turns, expected, command, i);
    }
  }

  lemma {:induction false} TurnsHave(turns: seq<Turn>, expected: int, n: nat, a: Action)
    requires n <= |turns|
    ensures a in AllActions(turns, expected, n) <==>
            a.i < n && (a.Init? || a in TurnActions(turns, expected, a.i))
    decreases n
  {
    if 0 < n {
      TurnsHave(turns, expected, n - 1, a);
      var before, turn := AllActions(turns, expected, n - 1), TurnActions(turns, expected, n - 1);
      assert a in before + turn + [Init(n - 1)] <==> a in before || a in turn || a == Init(n - 1);
    }
  }

  /** What a run does: it sends in exactly those of its turns that had a connection, and reads the
      layout anew at the end of exactly those that asked for a retry. */
  lemma RunDoes(turns: seq<Turn>, expected: int, command: string, retryTimes: nat,
                n: nat, outcome: Outcome, log: seq<Action>, i: nat)
    requires retryTimes <= |turns| && IsRun(turns, expected, command, retryTimes, n, outcome, log)
    requires i < |turns|
    ensures Send(i) in log <==> i <= n && i < retryTimes && (turns[i].attempt.NoReply? || turns[i].attempt.Replies?)
    ensures Init(i) in log <==>
            && i <= n && i < retryTimes
            && AsksForRetry(turns[i].attempt, expected, MessageAfter(turns, expected, command, i + 1))
  {
    hide AllActions, AsksForRetry, MessageAfter, WorthRetry;
    TurnsHave(turns, expected, n, Send(i));
    TurnsHave(turns, expected, n, Init(i));
    ContinuesIff(turns, expected, command, i);
    if n < retryTimes {
      ContinuesIff(turns, expected, command, n);
    }
  }

  /** The loop goes on after exactly those turns that asked for a retry and whose layout could be read:
      it gives up only when it is told to, when no turn is left, or when reading the layout throws. */
  lemma GoesOnIff(turns: seq<Turn>, expected: int, command: string, retryTimes: nat,
                  n: nat, outcome: Outcome, log: seq<Action>, i: nat)
    requires retryTimes <= |turns| && IsRun(turns, expected, command, retryTimes, n, outcome, log)
    requires i <= n && i < retryTimes
    ensures i < n <==>
            && AsksForRetry(turns[i].attempt, expected, MessageAfter(turns, expected, command, i + 1))
            && !turns[i].initThrows
    ensures outcome.InitThrew? <==>
            && n < retryTimes && turns[n].initThrows
            && AsksForRetry(turns[n].attempt, expected, MessageAfter(turns, expected, command, n + 1))
  {
    hide AllActions, TurnActions, AsksForRetry, MessageAfter, WorthRetry;
    ContinuesIff(turns, expected, command, i);
    if n < retryTimes {
      ContinuesIff(turns, expected, command, n);
    }
  }

  /** What is thrown by the loop: the text in force after the last turn, with a code of its own for
      each kind of failure, and for an error reply with the text of a NOSCRIPT error. */
  lemma RunThrows(turns: seq<Turn>, expected: int, command: string, retryTimes: nat,
                  n: nat, outcome: Outcome, log: seq<Action>)
    requires retryTimes <= |turns| && IsRun(turns, expected, command, retryTimes, n, outcome, log)
    requires outcome.Threw?
    ensures var last := if n == retryTimes then n - 1 else n;
            && 0 <= last < retryTimes && outcome.message == MessageAfter(turns, expected, command, last + 1)
            && outcome.code == match turns[last].attempt
                               case NoConnection => -2
                               case ConnectionError(code, _) => if code == 1 then 1 else -2
                               case NoReply(_) => -3
                               case Replies(reply) => if "NOSCRIPT" <= outcome.message then -8 else reply.kind
  {
    hide AllActions, TurnActions, MessageAfter, Continues, Retries;
    if "NOSCRIPT" <= outcome.message {
      NoscriptIsNoOther(outcome.message);
    }
  }

  /** What is returned: nothing exactly when no attempt is allowed, and otherwise exactly the reply of
      the last turn if it is NIL, of the expected type or, when any type will do, no error. */
  lemma RunReturns(turns: seq<Turn>, expected: int, command: string, retryTimes: nat,
                   n: nat, outcome: Outcome, log: seq<Action>, reply: Reply)
    requires retryTimes <= |turns| && IsRun(turns, expected, command, retryTimes, n, outcome, log)
    ensures outcome == Returned(None) <==> retryTimes == 0
    ensures outcome == Returned(Some(reply)) <==>
            && n < retryTimes && turns[n].attempt == Replies(reply)
            && (reply.kind == 4 || reply.kind == expected || (expected == -1 && reply.kind != 6))
  {
    hide AllActions, TurnActions, MessageAfter;
  }
}
