/** Rate limiting of e-mail clients (bridgedb/distributors/email/distributor.py). */
module EmailDistributor {
  import opened Common
  import opened Storage

  const MAX_EMAIL_RATE := 10800

  /** The two tables that the rate limit lives in. */
  datatype Tables = Tables(emailed: map<string, int>, warned: map<string, int>)

  datatype Outcome =
    | BadClient   // raised BadEmail
    | Ignored     // raised IgnoreEmail
    | Warned      // raised TooSoonEmail
    | Answered
    | Cleaned

  predicate BadAddress(client: string) { client == "" || client == "default" }

  // ---------------------------------------------------------------- one call

  predicate TooSoon(t: Tables, whitelist: set<string>, client: string, now: real)
  {
    client in t.emailed && client !in whitelist &&
    (t.emailed[client] + MAX_EMAIL_RATE) as real >= now
  }

  /** getBridges, as far as the tables go. */
  function Request(t: Tables, whitelist: set<string>, client: string, now: real)
    : (Tables, Outcome)
  {
    if BadAddress(client) then (t, BadClient)
    else if TooSoon(t, whitelist, client, now) then
      if client in t.warned then (t, Ignored)
      else (t.(warned := t.warned[client := Minute(now)]), Warned)
    else
      var warned := if client !in t.emailed then t.warned - {client} else t.warned;
      (Tables(t.emailed[client := Minute(now)], warned), Answered)
  }

  /** The first second of the minutes that cleanDatabase keeps. */
  function CleaningBound(now: real): int { Minute(now - MAX_EMAIL_RATE as real) }

  function CleanAnswers(t: Tables, now: real): Tables
  {
    t.(emailed := NotBefore(t.emailed, CleaningBound(now)))
  }

  function CleanWarnings(t: Tables, now: real): Tables
  {
    t.(warned := NotBefore(t.warned, CleaningBound(now)))
  }

  class EmailDistributor {
    const db: Database
    const whitelist: set<string>

    constructor (db: Database, whitelist: set<string>)
      ensures this.db == db && this.whitelist == whitelist
    {
      this.db, this.whitelist := db, whitelist;
    }

    ghost function State(): Tables
      reads this, db
    {
      Tables(db.emailed, db.warned)
    }

    method GetBridges(client: string, now: real) returns (outcome: Outcome)
      modifies db
      ensures (State(), outcome) == Request(old(State()), whitelist, client, now)
      ensures db.bridges == old(db.bridges)
    {
      if BadAddress(client) {
        return BadClient;
      }
      var wasWarned := db.GetWarnedEmail(client);
      var lastSaw := db.GetEmailTime(client);
      if lastSaw.Some? {
        if client in whitelist {
        } else if (lastSaw.value + MAX_EMAIL_RATE) as real >= now {
          if wasWarned {
            return Ignored;
          } else {
            var conflict := db.SetWarnedEmail(client, true, now);
            assert !conflict;
            return Warned;
          }
        }
      } else if wasWarned {
        var _ := db.SetWarnedEmail(client, false, now);
      } else {
        assert db.warned - {client} == db.warned;
      }
      db.SetEmailTime(client, now);
      outcome := Answered;
    }

    /** The clock is read once for each table. */
    method CleanDatabase(now: real, later: real)
      modifies db
      ensures State() == CleanWarnings(CleanAnswers(old(State()), now), later)
      ensures db.bridges == old(db.bridges)
    {
      db.CleanEmailedBridges(now - MAX_EMAIL_RATE as real);
      db.CleanWarnedEmails(later - MAX_EMAIL_RATE as real);
    }
  }

  // ---------------------------------------------------------------- whole runs

  /** A cleaning is two events, one for each clock reading. */
  datatype Event =
    | Mail(client: string, time: real)
    | AnswersCleaned(time: real)
    | WarningsCleaned(time: real)

  function Step(t: Tables, whitelist: set<string>, e: Event): (Tables, Outcome)
  {
    match e
    case Mail(client, now) => Request(t, whitelist, client, now)
    case AnswersCleaned(now) => (CleanAnswers(t, now), Cleaned)
    case WarningsCleaned(now) => (CleanWarnings(t, now), Cleaned)
  }

  /** The tables after a run that starts with empty ones. */
  function After(run: seq<Event>, whitelist: set<string>): Tables
  {
    if run == [] then Tables(map[], map[])
    else Step(After(run[..|run| - 1], whitelist), whitelist, run[|run| - 1]).0
  }

  /** What event i of a run leads to. */
  function OutcomeOf(run: seq<Event>, whitelist: set<string>, i: nat): Outcome
    requires i < |run|
  {
    Step(After(run[..i], whitelist), whitelist, run[i]).1
  }

  predicate AnsweredAt(run: seq<Event>, whitelist: set<string>, i: nat, client: string)
    requires i < |run|
  {
    run[i].Mail? && run[i].client == client && OutcomeOf(run, whitelist, i) == Answered
  }

  predicate WarnedAt(run: seq<Event>, whitelist: set<string>, i: nat, client: string)
    requires i < |run|
  {
    run[i].Mail? && run[i].client == client && OutcomeOf(run, whitelist, i) == Warned
  }

  /** The clock never goes back. */
  predicate Monotone(run: seq<Event>)
  {
    forall i, j :: 0 <= i < j < |run| ==> run[i].time <= run[j].time
  }

  /** The time of the last answer to a client. */
  function LastAnswer(run: seq<Event>, whitelist: set<string>, client: string): Option<real>
  {
    if run == [] then None
    else
      var n := |run| - 1;
      if AnsweredAt(run, whitelist, n, client) then Some(run[n].time)
      else LastAnswer(run[..n], whitelist, client)
  }

  // ---------------------------------------------------------------- what the tables remember

  /** A client's row holds the minute of the last answer; a missing row means that there was no
      answer or that the waiting time is over. */
  ghost predicate Remembered(t: Tables, client: string, last: Option<real>, now: real)
  {
    if client in t.emailed then last.Some? && t.emailed[client] == Minute(last.value)
    else last.Some? ==> (Minute(last.value) + MAX_EMAIL_RATE) as real < now
  }

  lemma {:induction false} TablesRemember(run: seq<Event>, whitelist: set<string>, client: string, now: real)
    requires Monotone(run)
    requires forall i :: 0 <= i < |run| ==> run[i].time <= now
    ensures Remembered(After(run, whitelist), client, LastAnswer(run, whitelist, client), now)
    ensures LastAnswer(run, whitelist, client).Some? ==>
      LastAnswer(run, whitelist, client).value <= now
    decreases |run|
  {
    if run != [] {
      var n := |run| - 1;
      var before := run[..n];
      TablesRemember(before, whitelist, client, run[n].time);
      assert run[..n] == before;
      if run[n].AnswersCleaned? {
        MinuteBounds(run[n].time - MAX_EMAIL_RATE as real);
      }
    }
  }

  /** When a request may be answered, told from the history alone. */
  ghost predicate Due(last: Option<real>, whitelist: set<string>, client: string, now: real)
  {
    client in whitelist || last.None? ||
    (Minute(last.value) + MAX_EMAIL_RATE) as real < now
  }

  /** Only the last answer decides: neither refused requests nor cleanings enter. */
  lemma AnsweredIffDue(run: seq<Event>, whitelist: set<string>, i: nat)
    requires Monotone(run) && i < |run| && run[i].Mail? && !BadAddress(run[i].client)
    ensures OutcomeOf(run, whitelist, i) == Answered <==>
      Due(LastAnswer(run[..i], whitelist, run[i].client), whitelist, run[i].client, run[i].time)
  {
    TablesRemember(run[..i], whitelist, run[i].client, run[i].time);
  }

  // ---------------------------------------------------------------- the rate limit

  lemma {:induction false} LastAnswerIsLatest(run: seq<Event>, whitelist: set<string>, i: nat, client: string)
    requires Monotone(run) && i < |run| && AnsweredAt(run, whitelist, i, client)
    ensures LastAnswer(run, whitelist, client).Some?
    ensures run[i].time <= LastAnswer(run, whitelist, client).value
    decreases |run|
  {
    var n := |run| - 1;
    if i < n && !AnsweredAt(run, whitelist, n, client) {
      assert run[..n][..i] == run[..i];
      LastAnswerIsLatest(run[..n], whitelist, i, client);
    }
  }

  /** Two answers to a client who is not whitelisted are more than three hours apart, counted from
      the start of the minute of the first. */
  lemma RateLimit(run: seq<Event>, whitelist: set<string>, i: nat, j: nat, client: string)
    requires Monotone(run) && i < j < |run| && client !in whitelist
    requires AnsweredAt(run, whitelist, i, client) && AnsweredAt(run, whitelist, j, client)
    ensures (Minute(run[i].time) + 3 * 60 * 60) as real < run[j].time
  {
    AnsweredIffDue(run, whitelist, j);
    assert run[..j][..i] == run[..i];
    LastAnswerIsLatest(run[..j], whitelist, i, client);
    MinuteMonotone(run[i].time, LastAnswer(run[..j], whitelist, client).value);
  }

  // ---------------------------------------------------------------- thinning a run

  /** The events of a run that a selection keeps. */
  function Thin(run: seq<Event>, keep: seq<bool>): seq<Event>
    requires |keep| == |run|
  {
    if run == [] then []
    else
      var n := |run| - 1;
      Thin(run[..n], keep[..n]) + (if keep[n] then [run[n]] else [])
  }

  /** The answered requests of a run, in order. */
  function Answers(run: seq<Event>, whitelist: set<string>): seq<Event>
  {
    if run == [] then []
    else
      var n := |run| - 1;
      Answers(run[..n], whitelist) +
      (if OutcomeOf(run, whitelist, n) == Answered then [run[n]] else [])
  }

  lemma {:induction false} ThinKeepsOrder(run: seq<Event>, keep: seq<bool>)
    requires |keep| == |run| && Monotone(run)
    ensures Monotone(Thin(run, keep))
    ensures forall e :: e in Thin(run, keep) ==> e in run
    decreases |run|
  {
    if run != [] {
      var n := |run| - 1;
      ThinKeepsOrder(run[..n], keep[..n]);
      var thin := Thin(run[..n], keep[..n]);
      forall k | 0 <= k < |thin|
        ensures thin[k].time <= run[n].time
      {
        assert thin[k] in run[..n];
      }
    }
  }

  /** One more event, in terms of the run before it. */
  lemma OneMoreEvent(run: seq<Event>, whitelist: set<string>, e: Event)
    ensures
      var longer, answered := run + [e], Step(After(run, whitelist), whitelist, e).1 == Answered;
      && OutcomeOf(longer, whitelist, |run|) == Step(After(run, whitelist), whitelist, e).1
      && Answers(longer, whitelist) == Answers(run, whitelist) + (if answered then [e] else [])
      && forall c :: LastAnswer(longer, whitelist, c) ==
           if answered && e.Mail? && e.client == c then Some(e.time)
           else LastAnswer(run, whitelist, c)
  {
    var longer := run + [e];
    assert longer[..|run|] == run && longer[|run|] == e;
  }

  /** Runs that agree on every last answer agree on whether the next event is answered. */
  lemma SameHistorySameAnswer(run: seq<Event>, thin: seq<Event>, whitelist: set<string>, e: Event)
    requires Monotone(run + [e]) && Monotone(thin + [e])
    requires forall c :: LastAnswer(thin, whitelist, c) == LastAnswer(run, whitelist, c)
    ensures Step(After(run, whitelist), whitelist, e).1 == Answered <==>
            Step(After(thin, whitelist), whitelist, e).1 == Answered
  {
    if e.Mail? && !BadAddress(e.client) {
      AnsweredIffDue(run + [e], whitelist, |run|);
      AnsweredIffDue(thin + [e], whitelist, |thin|);
      assert (run + [e])[..|run|] == run && (thin + [e])[..|thin|] == thin;
    }
  }

  /** Dropping cleanings and refused requests, in any number and at any places, changes neither
      which requests are answered nor what a client's last answer is. */
  lemma {:induction false} ThinningKeepsAnswers(run: seq<Event>, whitelist: set<string>, keep: seq<bool>)
    requires |keep| == |run| && Monotone(run)
    requires forall i :: 0 <= i < |run| && OutcomeOf(run, whitelist, i) == Answered ==> keep[i]
    ensures Answers(Thin(run, keep), whitelist) == Answers(run, whitelist)
    ensures forall c :: LastAnswer(Thin(run, keep), whitelist, c) == LastAnswer(run, whitelist, c)
    decreases |run|
  {
    if run != [] {
      var n := |run| - 1;
      var before, e := run[..n], run[n];
      forall i | 0 <= i < n
        ensures OutcomeOf(before, whitelist, i) == OutcomeOf(run, whitelist, i)
      {
        assert before[..i] == run[..i];
      }
      assert before + [e] == run && keep[..n] + [keep[n]] == keep;
      assert OutcomeOf(run, whitelist, n) == Step(After(before, whitelist), whitelist, e).1;
      hide Thin, Answers, LastAnswer, Step, OutcomeOf;
      ThinningKeepsAnswers(before, whitelist, keep[..n]);
      ThinKeepsOrder(run, keep);
      KeptOrDropped(before, whitelist, keep[..n], e, keep[n]);
    }
  }

  lemma KeptOrDropped(before: seq<Event>, whitelist: set<string>, keep: seq<bool>, e: Event, kept: bool)
    requires |keep| == |before| && Monotone(before + [e])
    requires Monotone(Thin(before + [e], keep + [kept]))
    requires Step(After(before, whitelist), whitelist, e).1 == Answered ==> kept
    requires Answers(Thin(before, keep), whitelist) == Answers(before, whitelist)
    requires forall c :: LastAnswer(Thin(before, keep), whitelist, c) == LastAnswer(before, whitelist, c)
    ensures
      var run, thin := before + [e], Thin(before + [e], keep + [kept]);
      && Answers(thin, whitelist) == Answers(run, whitelist)
      && forall c :: LastAnswer(thin, whitelist, c) == LastAnswer(run, whitelist, c)
  {
    var run, all, shorter := before + [e], keep + [kept], Thin(before, keep);
    assert run[..|before|] == before && all[..|before|] == keep;
    assert Thin(run, all) == shorter + (if kept then [e] else []);
    hide Thin, Answers, LastAnswer, Step;
    OneMoreEvent(before, whitelist, e);
    if kept {
      OneMoreEvent(shorter, whitelist, e);
      SameHistorySameAnswer(before, shorter, whitelist, e);
    } else {
      assert Thin(run, all) == shorter;
    }
  }

  // ---------------------------------------------------------------- warnings

  /** Whether a client was warned after the last answer. */
  function WarnedSince(run: seq<Event>, whitelist: set<string>, client: string): bool
  {
    if run == [] then false
    else
      var n := |run| - 1;
      if AnsweredAt(run, whitelist, n, client) then false
      else WarnedAt(run, whitelist, n, client) || WarnedSince(run[..n], whitelist, client)
  }

  /** While the waiting time runs, a warning row outlives the answer row that it is about. */
  lemma {:induction false} WarningRemembered(run: seq<Event>, whitelist: set<string>, client: string, now: real)
    requires Monotone(run) && WarnedSince(run, whitelist, client)
    requires forall i :: 0 <= i < |run| ==> run[i].time <= now
    ensures
      var t := After(run, whitelist);
      client in t.emailed && (t.emailed[client] + MAX_EMAIL_RATE) as real >= now ==>
        client in t.warned && t.warned[client] >= t.emailed[client]
    decreases |run|
  {
    var n := |run| - 1;
    var before := run[..n];
    if WarnedAt(run, whitelist, n, client) {
      TablesRemember(before, whitelist, client, run[n].time);
      MinuteMonotone(LastAnswer(before, whitelist, client).value, run[n].time);
    } else {
      WarningRemembered(before, whitelist, client, now);
      if run[n].WarningsCleaned? {
        MinuteBounds(run[n].time - MAX_EMAIL_RATE as real);
      }
    }
  }

  lemma {:induction false} WarnedSinceUntilAnswer(run: seq<Event>, whitelist: set<string>, i: nat, client: string)
    requires i < |run| && WarnedAt(run, whitelist, i, client)
    requires forall k :: i < k < |run| ==> !AnsweredAt(run, whitelist, k, client)
    ensures WarnedSince(run, whitelist, client)
    decreases |run|
  {
    var n := |run| - 1;
    if i < n {
      var before := run[..n];
      forall k | i <= k < n
        ensures AnsweredAt(before, whitelist, k, client) == AnsweredAt(run, whitelist, k, client)
        ensures WarnedAt(before, whitelist, k, client) == WarnedAt(run, whitelist, k, client)
      {
        assert before[..k] == run[..k];
      }
      WarnedSinceUntilAnswer(before, whitelist, i, client);
    }
  }

  /** Between two warnings to a client there is an answer, whatever was cleaned in between. */
  lemma OneWarningBetweenAnswers(run: seq<Event>, whitelist: set<string>, i: nat, j: nat, client: string)
    requires Monotone(run) && i < j < |run|
    requires WarnedAt(run, whitelist, i, client) && WarnedAt(run, whitelist, j, client)
    ensures exists k :: i < k < j && AnsweredAt(run, whitelist, k, client)
  {
    if forall k :: i < k < j ==> !AnsweredAt(run, whitelist, k, client) {
      var before := run[..j];
      forall k | i <= k < j
        ensures AnsweredAt(before, whitelist, k, client) == AnsweredAt(run, whitelist, k, client)
        ensures WarnedAt(before, whitelist, k, client) == WarnedAt(run, whitelist, k, client)
      {
        assert before[..k] == run[..k];
      }
      WarnedSinceUntilAnswer(before, whitelist, i, client);
      WarningRemembered(before, whitelist, client, run[j].time);
      assert false;
    }
  }
}
