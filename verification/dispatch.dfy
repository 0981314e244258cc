/**
  The batch loop: walk the rows in order, and for each due row make one send
  attempt whose transport outcome comes from an oracle. A failure inside the
  SMTP session is caught and the loop goes on; an exception raised from the
  `finally` clause escapes `send_email` and ends the run.
 */
module Dispatch {
  import opened Wrappers
  import opened DueCheck
  import opened Messages

  /** One row of the patient table, already parsed. */
  datatype Record = Record(id: PatientId, name: string, lastCheckup: CheckupTime)

  /** The steps inside the `try` after the connection object exists. */
  datatype Stage = StartTls | Login | Serialise | SendMail

  /**
    What the transport does on one attempt.
    - ConnectFails: `smtplib.SMTP(...)` raised, so `server` is never bound.
    - SessionFails: starttls, login, `msg.as_string()` or sendmail raised `error` at `stage`.
    - Delivered: sendmail returned.
    In the last two, `quitError` is what `server.quit()` raised, if anything.
   */
  datatype TransportOutcome =
    | ConnectFails(error: string)
    | SessionFails(stage: Stage, error: string, quitError: Option<string>)
    | Delivered(quitError: Option<string>)

  /** An exception that escapes `send_email` and ends the run. */
  datatype Abort = ServerUnbound | QuitRaised(error: string)

  /**
    AsWritten: the `finally` clause calls `server.quit()` unconditionally.
    ServerGuarded: it quits only a connection that was opened.
   */
  datatype Variant = AsWritten | ServerGuarded

  /** One call of `send_email`: the row it was made for and what the transport did. */
  datatype Attempt = Attempt(row: Record, outcome: TransportOutcome) {

    /** The message `send_email` builds for this row. */
    function Message(): Email {
      EmailFor(row)
    }
  }

  /** The attempts made, in order, and the exception that ended the run early, if any. */
  datatype RunResult = RunResult(attempts: seq<Attempt>, abort: Option<Abort>)

  /**
    The exception, if any, that escapes `send_email` after the given outcome.
    The unbound-`server` error arises only from a failed connection, and only
    as written; whatever fails inside the session is caught, so only `quit()`
    can raise out of it.
   */
  function Escape(v: Variant, o: TransportOutcome): (x: Option<Abort>)
    ensures x == Some(ServerUnbound) <==> v == AsWritten && o.ConnectFails?
    ensures o.ConnectFails? ==> (x.Some? <==> v == AsWritten)
    ensures !o.ConnectFails? ==> (x.Some? <==> o.quitError.Some?)
    ensures !o.ConnectFails? && o.quitError.Some? ==> x == Some(QuitRaised(o.quitError.value))
  {
    match o
    case ConnectFails(_) => if v == AsWritten then Some(ServerUnbound) else None
    case SessionFails(_, _, q) => if q.Some? then Some(QuitRaised(q.value)) else None
    case Delivered(q) => if q.Some? then Some(QuitRaised(q.value)) else None
  }

  /** The message sent for a row: to the derived address, greeting the row's name. */
  function EmailFor(r: Record): (e: Email)
    ensures e.from == FromEmail && e.subject == Subject
    ensures LocalPart(e.to) == Some(FormatId(r.id))
    ensures NameInBody(e.body) == Some(r.name)
  {
    Compose(Address(r.id), r.name)
  }

  /** The rows that are due against `today`, in their original order. */
  function DueRows(rows: seq<Record>, today: int): (due: seq<Record>)
    ensures |due| <= |rows|
    ensures forall r :: r in due ==> r in rows && IsDue(today, r.lastCheckup)
  {
    if |rows| == 0 then []
    else if IsDue(today, rows[0].lastCheckup) then [rows[0]] + DueRows(rows[1..], today)
    else DueRows(rows[1..], today)
  }

  /**
    The run `r` sends to the rows `due` in order from attempt number `n`: the
    i-th of them gets the i-th attempt, with outcome `oracle(n + i)`; the run
    stops right after the first attempt whose outcome escapes; otherwise every
    row of `due` is attempted.
   */
  predicate SendsInOrder(v: Variant, due: seq<Record>, oracle: nat -> TransportOutcome, n: nat, r: RunResult) {
    && |r.attempts| <= |due|
    && (forall i :: 0 <= i < |r.attempts| ==> r.attempts[i] == Attempt(due[i], oracle(n + i)))
    && (forall i :: 0 <= i < |r.attempts| - 1 ==> Escape(v, r.attempts[i].outcome).None?)
    && (r.abort.Some? ==> |r.attempts| > 0 && r.abort == Escape(v, r.attempts[|r.attempts| - 1].outcome))
    && (r.abort.None? ==> |r.attempts| == |due|)
    && (r.abort.None? ==> forall i :: 0 <= i < |r.attempts| ==> Escape(v, r.attempts[i].outcome).None?)
  }

  /**
    The loop from attempt number `n` on: each row is judged against the one
    `today`, a due row gets an attempt whose outcome is `oracle(n)`, and an
    outcome that escapes ends the run. So exactly the due rows are attempted,
    in order, until an exception escapes.
   */
  function RunFrom(v: Variant, rows: seq<Record>, today: int, oracle: nat -> TransportOutcome, n: nat): (r: RunResult)
    ensures SendsInOrder(v, DueRows(rows, today), oracle, n, r)
    decreases |rows|
  {
    if |rows| == 0 then RunResult([], None)
    else if !IsDue(today, rows[0].lastCheckup) then RunFrom(v, rows[1..], today, oracle, n)
    else
      var a := Attempt(rows[0], oracle(n));
      if Escape(v, a.outcome).Some? then RunResult([a], Escape(v, a.outcome))
      else
        var rest := RunFrom(v, rows[1..], today, oracle, n + 1);
        ShiftSends(v, rows[0], DueRows(rows[1..], today), oracle, n, rest);
        RunResult([a] + rest.attempts, rest.abort)
  }

  /** Prepending one attempt that does not escape extends a run by one row. */
  lemma ShiftSends(v: Variant, first: Record, due: seq<Record>, oracle: nat -> TransportOutcome, n: nat, rest: RunResult)
    requires Escape(v, oracle(n)).None?
    requires SendsInOrder(v, due, oracle, n + 1, rest)
    ensures SendsInOrder(v, [first] + due, oracle, n,
                         RunResult([Attempt(first, oracle(n))] + rest.attempts, rest.abort))
  {
    var d := [first] + due;
    var r := RunResult([Attempt(first, oracle(n))] + rest.attempts, rest.abort);
    assert |r.attempts| == |rest.attempts| + 1 && |d| == |due| + 1;
    forall i | 1 <= i < |r.attempts|
      ensures r.attempts[i] == rest.attempts[i - 1] && d[i] == due[i - 1]
    {
    }
    forall i | 0 <= i < |r.attempts|
      ensures r.attempts[i] == Attempt(d[i], oracle(n + i))
      ensures r.abort.None? || i < |r.attempts| - 1 ==> Escape(v, r.attempts[i].outcome).None?
    {
      if i > 0 {
        assert rest.attempts[i - 1] == Attempt(due[i - 1], oracle(n + 1 + (i - 1)));
      }
    }
    if r.abort.Some? {
      assert r.attempts[|r.attempts| - 1] == rest.attempts[|rest.attempts| - 1];
    }
  }

  /**
    The whole batch run, attempts numbered from 0: exactly the due rows are
    attempted, in row order, until an exception escapes `send_email`.
   */
  function Run(v: Variant, rows: seq<Record>, today: int, oracle: nat -> TransportOutcome): (r: RunResult)
    ensures SendsInOrder(v, DueRows(rows, today), oracle, 0, r)
  {
    RunFrom(v, rows, today, oracle, 0)
  }

  /** Filtering commutes with concatenation: row order is kept. */
  lemma {:induction false} DueRowsAppend(a: seq<Record>, b: seq<Record>, today: int)
    ensures DueRows(a + b, today) == DueRows(a, today) + DueRows(b, today)
    decreases |a|
  {
    if |a| > 0 {
      assert (a + b)[1..] == a[1..] + b;
      DueRowsAppend(a[1..], b, today);
    } else {
      assert a + b == b;
    }
  }

  /**
    A due row appears among the due rows as often as in the input (repeated
    rows are not merged); a row that is not due does not appear at all.
   */
  lemma {:induction false} DueRowsCount(rows: seq<Record>, today: int, x: Record)
    ensures multiset(DueRows(rows, today))[x] == if IsDue(today, x.lastCheckup) then multiset(rows)[x] else 0
    decreases |rows|
  {
    if |rows| > 0 {
      DueRowsCount(rows[1..], today, x);
      assert rows == [rows[0]] + rows[1..];
    }
  }

  /** When no outcome escapes, every due row gets exactly its one message, in order. */
  lemma BatchCompletes(v: Variant, rows: seq<Record>, today: int, oracle: nat -> TransportOutcome)
    requires forall i :: 0 <= i < |DueRows(rows, today)| ==> Escape(v, oracle(i)).None?
    ensures Run(v, rows, today, oracle).abort == None
    ensures |Run(v, rows, today, oracle).attempts| == |DueRows(rows, today)|
    ensures forall i :: 0 <= i < |DueRows(rows, today)| ==>
              Run(v, rows, today, oracle).attempts[i].row == DueRows(rows, today)[i]
  {
  }

  /** The first attempt whose outcome escapes is the last attempt of the run. */
  lemma FirstEscapeEndsRun(v: Variant, rows: seq<Record>, today: int, oracle: nat -> TransportOutcome, k: nat)
    requires k < |DueRows(rows, today)|
    requires Escape(v, oracle(k)).Some?
    requires forall i :: 0 <= i < k ==> Escape(v, oracle(i)).None?
    ensures |Run(v, rows, today, oracle).attempts| == k + 1
    ensures Run(v, rows, today, oracle).abort == Escape(v, oracle(k))
  {
    var r := Run(v, rows, today, oracle);
    var m := |r.attempts|;
    if r.abort.Some? {
      assert r.attempts[m - 1].outcome == oracle(m - 1);
    }
    assert m > k;
    assert r.attempts[k].outcome == oracle(k);
  }

  /**
    Sequential isolation: as long as no earlier outcome escapes, a failure
    that is caught inside `send_email` does not keep the next due row from
    its attempt.
   */
  lemma CaughtFailureContinues(v: Variant, rows: seq<Record>, today: int, oracle: nat -> TransportOutcome, k: nat)
    requires k + 1 < |DueRows(rows, today)|
    requires forall i :: 0 <= i <= k ==> Escape(v, oracle(i)).None?
    ensures |Run(v, rows, today, oracle).attempts| > k + 1
    ensures Run(v, rows, today, oracle).attempts[k + 1].row == DueRows(rows, today)[k + 1]
  {
  }

  /** As written, a failure to open the connection ends the batch: no later row is attempted. */
  lemma ConnectFailureEndsBatch(rows: seq<Record>, today: int, oracle: nat -> TransportOutcome, k: nat)
    requires k < |DueRows(rows, today)|
    requires oracle(k).ConnectFails?
    requires forall i :: 0 <= i < k ==> Escape(AsWritten, oracle(i)).None?
    ensures |Run(AsWritten, rows, today, oracle).attempts| == k + 1
    ensures Run(AsWritten, rows, today, oracle).abort == Some(ServerUnbound)
  {
    FirstEscapeEndsRun(AsWritten, rows, today, oracle, k);
  }

  /**
    With the `finally` clause guarded, only an exception from `quit()` can end
    the batch: if `quit()` never raises, every due row is attempted.
   */
  lemma GuardedBatchCompletes(rows: seq<Record>, today: int, oracle: nat -> TransportOutcome)
    requires forall i :: 0 <= i < |DueRows(rows, today)| ==> oracle(i).ConnectFails? || oracle(i).quitError.None?
    ensures Run(ServerGuarded, rows, today, oracle).abort == None
    ensures |Run(ServerGuarded, rows, today, oracle).attempts| == |DueRows(rows, today)|
  {
  }

  /**
    The transport's outcomes matter to the sequence of messages only through
    whether they escape: two oracles that escape alike give the same messages
    and end the run alike.
   */
  lemma OnlyEscapesSteer(v: Variant, rows: seq<Record>, today: int, o1: nat -> TransportOutcome, o2: nat -> TransportOutcome)
    requires forall i :: 0 <= i < |DueRows(rows, today)| ==> Escape(v, o1(i)) == Escape(v, o2(i))
    ensures |Run(v, rows, today, o1).attempts| == |Run(v, rows, today, o2).attempts|
    ensures Run(v, rows, today, o1).abort == Run(v, rows, today, o2).abort
    ensures forall i :: 0 <= i < |Run(v, rows, today, o1).attempts| ==>
              Run(v, rows, today, o1).attempts[i].row == Run(v, rows, today, o2).attempts[i].row
  {
  }

  /**
    Two due rows, and opening the first connection fails: as written the
    second patient gets no reminder; with the guard it does.
   */
  lemma ConnectFailureCounterexample(p1: Record, p2: Record, today: int, oracle: nat -> TransportOutcome)
    requires IsDue(today, p1.lastCheckup) && IsDue(today, p2.lastCheckup)
    requires oracle(0).ConnectFails? && oracle(1) == Delivered(None)
    ensures Run(AsWritten, [p1, p2], today, oracle) == RunResult([Attempt(p1, oracle(0))], Some(ServerUnbound))
    ensures Run(ServerGuarded, [p1, p2], today, oracle)
         == RunResult([Attempt(p1, oracle(0)), Attempt(p2, oracle(1))], None)
  {
  }

  /** A row listed twice is reminded twice: there is no deduplication. */
  lemma RepeatedRowRemindedTwice(v: Variant, x: Record, today: int, oracle: nat -> TransportOutcome)
    requires IsDue(today, x.lastCheckup)
    requires Escape(v, oracle(0)).None? && Escape(v, oracle(1)).None?
    ensures |Run(v, [x, x], today, oracle).attempts| == 2
    ensures Run(v, [x, x], today, oracle).attempts[0].row == x
    ensures Run(v, [x, x], today, oracle).attempts[1].row == x
  {
  }

  const SentPrefix: string := "Email sent to "
  const FailedPrefix: string := "Failed to send email to "
  const ErrorSeparator: string := ". Error: "

  /**
    The line printed for an attempt. It starts with "Email sent to " exactly
    when the send succeeded; a success line holds the recipient and nothing
    else, and a failure line holds the recipient, then the error text.
   */
  function LogLine(a: Attempt): (line: string)
    ensures |line| >= |SentPrefix| + |a.Message().to|
    ensures !a.outcome.Delivered? ==> |line| == |FailedPrefix| + |a.Message().to| + |ErrorSeparator| + |a.outcome.error|
    ensures line[..|SentPrefix|] == SentPrefix <==> a.outcome.Delivered?
    ensures a.outcome.Delivered? ==> line[|SentPrefix|..] == a.Message().to
    ensures !a.outcome.Delivered? ==>
              && line[..|FailedPrefix|] == FailedPrefix
              && line[|FailedPrefix|..|FailedPrefix| + |a.Message().to|] == a.Message().to
              && line[|FailedPrefix| + |a.Message().to|..|FailedPrefix| + |a.Message().to| + |ErrorSeparator|] == ErrorSeparator
              && line[|FailedPrefix| + |a.Message().to| + |ErrorSeparator|..] == a.outcome.error
  {
    if a.outcome.Delivered? then
      var line := SentPrefix + a.Message().to;
      assert line[..|SentPrefix|] == SentPrefix;
      assert line[|SentPrefix|..] == a.Message().to;
      line
    else
      var to, e := a.Message().to, a.outcome.error;
      var line := FailedPrefix + to + ErrorSeparator + e;
      assert line[0] == 'F';
      assert line[..|FailedPrefix|] == FailedPrefix;
      assert line[|FailedPrefix|..|FailedPrefix| + |to|] == to;
      assert line[|FailedPrefix| + |to|..|FailedPrefix| + |to| + |ErrorSeparator|] == ErrorSeparator;
      assert line[|FailedPrefix| + |to| + |ErrorSeparator|..] == e;
      line
  }
}
