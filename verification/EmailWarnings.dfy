/** When a client who mails too soon is warned and when ignored (bridgedb/distributors/email/distributor.py),
    told by the history of a run alone. */
module EmailWarnings {
  import opened Common
  import opened Storage
  import opened EmailDistributor

  /** The first second of the minutes that a cleaning at some time leaves: three hours before. */
  function Kept(time: real): int { Minute(time - 10800.0) }

  // ---------------------------------------------------------------- what is on record

  /** Whether a cleaning of answers takes out the row that event i wrote. */
  predicate ForgetsAnswer(run: seq<Event>, i: nat, k: nat)
    requires i < |run| && k < |run|
  {
    run[k].AnswersCleaned? && Minute(run[i].time) < Kept(run[k].time)
  }

  predicate ForgetsWarning(run: seq<Event>, i: nat, k: nat)
    requires i < |run| && k < |run|
  {
    run[k].WarningsCleaned? && Minute(run[i].time) < Kept(run[k].time)
  }

  /** The last answer to a client before event j, unless it was cleaned since. */
  function AnswerOnRecord(run: seq<Event>, whitelist: set<string>, client: string, j: nat): (i: Option<nat>)
    requires j <= |run|
    ensures i.Some? ==> i.value < j && AnsweredAt(run, whitelist, i.value, client)
  {
    if j == 0 then None
    else
      var k, i := j - 1, AnswerOnRecord(run, whitelist, client, j - 1);
      if AnsweredAt(run, whitelist, k, client) then Some(k)
      else if i.Some? && ForgetsAnswer(run, i.value, k) then None
      else i
  }

  /** An answer to a client of whom no answer is on record. */
  predicate FreshAnswer(run: seq<Event>, whitelist: set<string>, client: string, k: nat)
    requires k < |run|
  {
    AnsweredAt(run, whitelist, k, client) && AnswerOnRecord(run, whitelist, client, k).None?
  }

  /** The last warning to a client before event j, unless it was cleaned or a fresh answer was given since. */
  function WarningOnRecord(run: seq<Event>, whitelist: set<string>, client: string, j: nat): (i: Option<nat>)
    requires j <= |run|
    ensures i.Some? ==> i.value < j && WarnedAt(run, whitelist, i.value, client)
  {
    if j == 0 then None
    else
      var k, i := j - 1, WarningOnRecord(run, whitelist, client, j - 1);
      if WarnedAt(run, whitelist, k, client) then Some(k)
      else if FreshAnswer(run, whitelist, client, k) then None
      else if i.Some? && ForgetsWarning(run, i.value, k) then None
      else i
  }

  /** A table has a client's row with the minute of an event, or no row if there is no event. */
  predicate Holds(table: map<string, int>, client: string, run: seq<Event>, i: Option<nat>)
    requires i.Some? ==> i.value < |run|
  {
    match i
    case None => client !in table
    case Some(k) => client in table && table[client] == Minute(run[k].time)
  }

  /** At every point of every run the tables hold exactly what is on record. */
  lemma {:induction false} TablesHoldRecord(run: seq<Event>, whitelist: set<string>, client: string, j: nat)
    requires j <= |run|
    ensures Holds(After(run[..j], whitelist).emailed, client, run, AnswerOnRecord(run, whitelist, client, j))
    ensures Holds(After(run[..j], whitelist).warned, client, run, WarningOnRecord(run, whitelist, client, j))
    decreases j
  {
    if j > 0 {
      TablesHoldRecord(run, whitelist, client, j - 1);
      assert run[..j][..j - 1] == run[..j - 1];
      hide Holds, AnsweredAt, WarnedAt, ForgetsAnswer, ForgetsWarning, FreshAnswer, Step;
      AnswersStep(run, whitelist, client, j - 1, AnswerOnRecord(run, whitelist, client, j - 1));
      WarningsStep(run, whitelist, client, j - 1, WarningOnRecord(run, whitelist, client, j - 1));
    }
  }

  lemma AnswersStep(run: seq<Event>, whitelist: set<string>, client: string, k: nat, i: Option<nat>)
    requires k < |run| && (i.Some? ==> i.value < k)
    requires Holds(After(run[..k], whitelist).emailed, client, run, i)
    ensures Holds(Step(After(run[..k], whitelist), whitelist, run[k]).0.emailed, client, run,
                  if AnsweredAt(run, whitelist, k, client) then Some(k)
                  else if i.Some? && ForgetsAnswer(run, i.value, k) then None
                  else i)
  {
    hide After, Minute;
  }

  lemma WarningsStep(run: seq<Event>, whitelist: set<string>, client: string, k: nat, i: Option<nat>)
    requires k < |run| && (i.Some? ==> i.value < k)
    requires Holds(After(run[..k], whitelist).warned, client, run, i)
    requires Holds(After(run[..k], whitelist).emailed, client, run, AnswerOnRecord(run, whitelist, client, k))
    ensures Holds(Step(After(run[..k], whitelist), whitelist, run[k]).0.warned, client, run,
                  if WarnedAt(run, whitelist, k, client) then Some(k)
                  else if FreshAnswer(run, whitelist, client, k) then None
                  else if i.Some? && ForgetsWarning(run, i.value, k) then None
                  else i)
  {
    hide After, Minute, AnswerOnRecord;
  }

  // ---------------------------------------------------------------- refused mails

  predicate Refused(outcome: Outcome) { outcome == Warned || outcome == Ignored }

  /** Every mail from a good address is answered, if the client is whitelisted or the waiting time since
      the minute of the last answer is over, or refused; a refused client is ignored if
      a warning is on record and warned otherwise. */
  lemma WhatMailsGet(run: seq<Event>, whitelist: set<string>, j: nat)
    requires Monotone(run) && j < |run| && run[j].Mail?
    ensures
      var client, outcome := run[j].client, OutcomeOf(run, whitelist, j);
      var last := LastAnswer(run[..j], whitelist, client);
      && (outcome == BadClient <==> client == "" || client == "default")
      && (outcome == Answered <==>
            outcome != BadClient &&
            (client in whitelist || last.None? || (Minute(last.value) + 10800) as real < run[j].time))
      && (Refused(outcome) <==> outcome != BadClient && outcome != Answered)
      && (Refused(outcome) ==>
            (outcome == Ignored <==> WarningOnRecord(run, whitelist, client, j).Some?))
  {
    TablesHoldRecord(run, whitelist, run[j].client, j);
    if !BadAddress(run[j].client) {
      AnsweredIffDue(run, whitelist, j);
    }
  }

  // ---------------------------------------------------------------- warnings that count

  /** A warning counts at event j: since it was given, no cleaning has forgotten it and no fresh answer
      was given. */
  ghost predicate Counts(run: seq<Event>, whitelist: set<string>, client: string, i: nat, j: nat)
    requires j <= |run|
  {
    && i < j && WarnedAt(run, whitelist, i, client)
    && forall k :: i < k < j ==> !ForgetsWarning(run, i, k) && !FreshAnswer(run, whitelist, client, k)
  }

  lemma CountsStep(run: seq<Event>, whitelist: set<string>, client: string, i: nat, j: nat)
    requires j < |run|
    ensures Counts(run, whitelist, client, i, j + 1) <==>
      if i == j then WarnedAt(run, whitelist, j, client)
      else
        && Counts(run, whitelist, client, i, j)
        && !ForgetsWarning(run, i, j) && !FreshAnswer(run, whitelist, client, j)
  {
    hide WarnedAt, FreshAnswer, ForgetsWarning;
  }

  /** The warning on record counts. */
  lemma {:induction false} RecordCounts(run: seq<Event>, whitelist: set<string>, client: string, i: nat, j: nat)
    requires j <= |run| && WarningOnRecord(run, whitelist, client, j) == Some(i)
    ensures Counts(run, whitelist, client, i, j)
    decreases j
  {
    hide Counts, WarnedAt, FreshAnswer, ForgetsWarning;
    if i < j - 1 {
      RecordCounts(run, whitelist, client, i, j - 1);
    }
    CountsStep(run, whitelist, client, i, j - 1);
  }

  /** It is the last one that does. */
  lemma {:induction false} RecordIsLast(run: seq<Event>, whitelist: set<string>, client: string, i: nat, j: nat)
    requires Monotone(run) && j <= |run| && Counts(run, whitelist, client, i, j)
    ensures
      var last := WarningOnRecord(run, whitelist, client, j);
      last.Some? && i <= last.value
    decreases j
  {
    CountsStep(run, whitelist, client, i, j - 1);
    if i < j - 1 {
      RecordIsLast(run, whitelist, client, i, j - 1);
      hide Counts, WarnedAt, FreshAnswer, ForgetsWarning, Monotone;
      ForgetsEarlier(run, i, WarningOnRecord(run, whitelist, client, j - 1).value, j - 1);
    }
  }

  /** A cleaning that forgets a warning forgets the earlier ones. */
  lemma ForgetsEarlier(run: seq<Event>, i: nat, l: nat, k: nat)
    requires Monotone(run) && i <= l < |run| && k < |run|
    ensures ForgetsWarning(run, l, k) ==> ForgetsWarning(run, i, k)
  {
    hide Minute;
    MinuteMonotone(run[i].time, run[l].time);
  }

  lemma EitherOr(run: seq<Event>, whitelist: set<string>, client: string, j: nat)
    requires j < |run|
    ensures !(WarnedAt(run, whitelist, j, client) && AnsweredAt(run, whitelist, j, client))
  {
  }

  /** A refused client is ignored if and only if an earlier warning still counts, and warned otherwise. */
  lemma IgnoredIffWarningCounts(run: seq<Event>, whitelist: set<string>, j: nat)
    requires Monotone(run) && j < |run| && run[j].Mail? && Refused(OutcomeOf(run, whitelist, j))
    ensures OutcomeOf(run, whitelist, j) == Ignored <==>
      exists i :: 0 <= i < j && Counts(run, whitelist, run[j].client, i, j)
  {
    var client := run[j].client;
    WhatMailsGet(run, whitelist, j);
    hide WarningOnRecord, Counts;
    forall i | 0 <= i < j
      ensures
        var last := WarningOnRecord(run, whitelist, client, j);
        && (last == Some(i) ==> Counts(run, whitelist, client, i, j))
        && (Counts(run, whitelist, client, i, j) ==> last.Some?)
    {
      if WarningOnRecord(run, whitelist, client, j) == Some(i) {
        RecordCounts(run, whitelist, client, i, j);
      }
      if Counts(run, whitelist, client, i, j) {
        RecordIsLast(run, whitelist, client, i, j);
      }
    }
  }

  /** The first refusal after a fresh answer is a warning, whatever was warned and cleaned before. */
  lemma FirstRefusalIsWarned(run: seq<Event>, whitelist: set<string>, i: nat, j: nat)
    requires Monotone(run) && i < j < |run| && run[j].Mail? && Refused(OutcomeOf(run, whitelist, j))
    requires FreshAnswer(run, whitelist, run[j].client, i)
    requires forall k :: i < k < j ==> !WarnedAt(run, whitelist, k, run[j].client)
    ensures OutcomeOf(run, whitelist, j) == Warned
  {
    var client := run[j].client;
    IgnoredIffWarningCounts(run, whitelist, j);
    EitherOr(run, whitelist, client, i);
    hide OutcomeOf, FreshAnswer, WarnedAt;
    assert forall k :: 0 <= k < j ==> !Counts(run, whitelist, client, k, j);
  }

  // ---------------------------------------------------------------- the answer on record

  /** An answer is on record at event j: it is the last one, and no cleaning has forgotten it. */
  ghost predicate IsOnRecord(run: seq<Event>, whitelist: set<string>, client: string, i: nat, j: nat)
    requires j <= |run|
  {
    && i < j && AnsweredAt(run, whitelist, i, client)
    && forall k :: i < k < j ==> !ForgetsAnswer(run, i, k) && !AnsweredAt(run, whitelist, k, client)
  }

  lemma OnRecordStep(run: seq<Event>, whitelist: set<string>, client: string, i: nat, j: nat)
    requires j < |run|
    ensures IsOnRecord(run, whitelist, client, i, j + 1) <==>
      if i == j then AnsweredAt(run, whitelist, j, client)
      else
        && IsOnRecord(run, whitelist, client, i, j)
        && !ForgetsAnswer(run, i, j) && !AnsweredAt(run, whitelist, j, client)
  {
    hide AnsweredAt, ForgetsAnswer;
  }

  /** AnswerOnRecord finds it. */
  lemma {:induction false} AnswerOnRecordIs(run: seq<Event>, whitelist: set<string>, client: string, i: nat, j: nat)
    requires j <= |run|
    ensures AnswerOnRecord(run, whitelist, client, j) == Some(i) <==> IsOnRecord(run, whitelist, client, i, j)
    decreases j
  {
    if j > 0 {
      AnswerOnRecordIs(run, whitelist, client, i, j - 1);
      OnRecordStep(run, whitelist, client, i, j - 1);
      hide IsOnRecord, AnsweredAt, ForgetsAnswer;
    }
  }
}
