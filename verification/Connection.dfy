/** The reentrant connection protocol of getDB in bridgedb/Storage.py, as single steps of many
    threads: `x += 1` is a read and a write, and another thread may run between any two steps. */
module Connection {
  import opened Common

  type Tid = nat

  /** Where a thread is in getDB. AtBoundary is everywhere else: before, between and inside the
      with-blocks. */
  datatype Pc =
    | AtBoundary
    // entering
    | GotLock
    | ReadLocked(v: int)
    | Counted
    | NoConnection
    | MayOpen
    | HasConnection
    | ReadRefcount(v: int)
    // leaving, in the finally clause
    | Leaving
    | LeavingRead(v: int)
    | Released
    | MustClose
    | ClosedIt
    | Unreferenced
    | UnreferencedRead(v: int)
    | MustRelease

  /** A thread and the number of blocks it is inside. */
  datatype Thread = Thread(depth: nat, pc: Pc)

  datatype Event = Open(tid: Tid) | Close(tid: Tid)

  datatype State = State(
    threads: seq<Thread>,
    owner: Option<Tid>,   // of _LOCK
    holds: nat,           // how often the owner has acquired it
    locked: int,          // _LOCKED
    refcount: int,        // _REFCOUNT
    stored: bool,         // _OPENED_DB is not None
    live: bool,           // the connection is open
    failed: bool,         // the assertion on _REFCOUNT has failed
    log: seq<Event>)

  datatype Action = Enter | Leave | Continue

  function Moved(s: State, t: Tid, pc: Pc): State
    requires t < |s.threads|
  {
    s.(threads := s.threads[t := s.threads[t].(pc := pc)])
  }

  predicate IsEntering(pc: Pc)
  {
    pc.GotLock? || pc.ReadLocked? || pc.Counted? || pc.NoConnection? || pc.MayOpen? ||
    pc.HasConnection? || pc.ReadRefcount?
  }

  /** The next step of a thread that has acquired the lock and is not yet in its block. */
  function StepIn(s: State, t: Tid): State
    requires t < |s.threads| && IsEntering(s.threads[t].pc)
  {
    var th := s.threads[t];
    match th.pc
    // _LOCKED += 1
    case GotLock => Moved(s, t, ReadLocked(s.locked))
    case ReadLocked(v) => Moved(s, t, Counted).(locked := v + 1)
    // if not _OPENED_DB
    case Counted => Moved(s, t, if s.stored then HasConnection else NoConnection)
    // assert _REFCOUNT == 0
    case NoConnection => if s.refcount == 0 then Moved(s, t, MayOpen) else s.(failed := true)
    // _OPENED_DB = Database(_DB_FNAME)
    case MayOpen =>
      Moved(s, t, HasConnection).(stored := true, live := true, log := s.log + [Open(t)])
    // _REFCOUNT += 1, and into the block
    case HasConnection => Moved(s, t, ReadRefcount(s.refcount))
    case ReadRefcount(v) =>
      s.(threads := s.threads[t := Thread(th.depth + 1, AtBoundary)], refcount := v + 1)
  }

  /** The next step of a thread in the finally clause. */
  function StepOut(s: State, t: Tid): Option<State>
    requires t < |s.threads| && !IsEntering(s.threads[t].pc) && s.threads[t].pc != AtBoundary
  {
    var th := s.threads[t];
    match th.pc
    // _REFCOUNT -= 1
    case Leaving => Some(Moved(s, t, LeavingRead(s.refcount)))
    case LeavingRead(v) => Some(Moved(s, t, Released).(refcount := v - 1))
    // if _REFCOUNT == 0
    case Released => Some(Moved(s, t, if s.refcount == 0 then MustClose else Unreferenced))
    // _OPENED_DB.close()
    case MustClose => Some(Moved(s, t, ClosedIt).(live := false, log := s.log + [Close(t)]))
    // _OPENED_DB = None
    case ClosedIt => Some(Moved(s, t, Unreferenced).(stored := false))
    // _LOCKED -= 1
    case Unreferenced => Some(Moved(s, t, UnreferencedRead(s.locked)))
    case UnreferencedRead(v) => Some(Moved(s, t, MustRelease).(locked := v - 1))
    // _LOCK.release()
    case MustRelease =>
      if s.holds > 0 && th.depth > 0 then
        Some(s.(threads := s.threads[t := Thread(th.depth - 1, AtBoundary)],
                holds := s.holds - 1,
                owner := if s.holds == 1 then None else s.owner))
      else None
  }

  /** A thread calls getDB, or its block ends, normally or by an exception. */
  function StepAtBoundary(s: State, t: Tid, a: Action): Option<State>
    requires t < |s.threads|
  {
    match a
    // _LOCK.acquire(block)
    case Enter =>
      if s.owner == None || s.owner == Some(t) then
        Some(Moved(s, t, GotLock).(owner := Some(t), holds := s.holds + 1))
      else None
    case Leave => if s.threads[t].depth > 0 then Some(Moved(s, t, Leaving)) else None
    case Continue => None
  }

  /** One step of a thread; None where it cannot move like this now. */
  function Step(s: State, t: Tid, a: Action): Option<State>
    requires t < |s.threads|
  {
    var pc := s.threads[t].pc;
    if pc == AtBoundary then StepAtBoundary(s, t, a)
    else if a != Continue then None
    else if IsEntering(pc) then Some(StepIn(s, t))
    else StepOut(s, t)
  }

  predicate Initial(s: State)
  {
    && (forall t :: 0 <= t < |s.threads| ==> s.threads[t] == Thread(0, AtBoundary))
    && s.owner == None && s.holds == 0 && s.locked == 0 && s.refcount == 0
    && !s.stored && !s.live && !s.failed && s.log == []
  }

  ghost predicate Next(s: State, s': State)
  {
    exists t: Tid, a: Action | t < |s.threads| :: Step(s, t, a) == Some(s')
  }

  /** A run of any length, with any interleaving. */
  ghost predicate Run(states: seq<State>)
  {
    |states| > 0 && Initial(states[0]) &&
    forall i :: 0 <= i < |states| - 1 ==> Next(states[i], states[i + 1])
  }

  // ---------------------------------------------------------------- the invariant

  /** What the globals are when the owner of the lock is at a given place. */
  ghost predicate OwnerAgrees(s: State, th: Thread)
  {
    var d := th.depth;
    match th.pc
    case AtBoundary => d > 0 && Globals(s, d, d, d, true, true)
    case GotLock => Globals(s, d + 1, d, d, d > 0, d > 0)
    case ReadLocked(v) => v == d && Globals(s, d + 1, d, d, d > 0, d > 0)
    case Counted => Globals(s, d + 1, d + 1, d, d > 0, d > 0)
    case NoConnection => d == 0 && Globals(s, 1, 1, 0, false, false)
    case MayOpen => d == 0 && Globals(s, 1, 1, 0, false, false)
    case HasConnection => Globals(s, d + 1, d + 1, d, true, true)
    case ReadRefcount(v) => v == d && Globals(s, d + 1, d + 1, d, true, true)
    case Leaving => d > 0 && Globals(s, d, d, d, true, true)
    case LeavingRead(v) => d > 0 && v == d && Globals(s, d, d, d, true, true)
    case Released => d > 0 && Globals(s, d, d, d - 1, true, true)
    case MustClose => d == 1 && Globals(s, 1, 1, 0, true, true)
    case ClosedIt => d == 1 && Globals(s, 1, 1, 0, true, false)
    case Unreferenced => d > 0 && Globals(s, d, d, d - 1, d > 1, d > 1)
    case UnreferencedRead(v) => d > 0 && v == d && Globals(s, d, d, d - 1, d > 1, d > 1)
    case MustRelease => d > 0 && Globals(s, d, d - 1, d - 1, d > 1, d > 1)
  }

  ghost predicate Globals(s: State, holds: int, locked: int, refcount: int, stored: bool, live: bool)
  {
    s.holds == holds && s.locked == locked && s.refcount == refcount &&
    s.stored == stored && s.live == live
  }

  /** Opens and closes alternate, each close by the thread that opened; the last open is
      unmatched exactly while the connection is live. */
  ghost predicate Matched(log: seq<Event>, live: bool, owner: Option<Tid>)
    decreases |log|
  {
    if live then
      |log| > 0 && owner.Some? && log[|log| - 1] == Open(owner.value) &&
      Matched(log[..|log| - 1], false, None)
    else
      log == [] ||
      (|log| >= 2 && log[|log| - 1].Close? && log[|log| - 2] == Open(log[|log| - 1].tid) &&
       Matched(log[..|log| - 2], false, None))
  }

  ghost predicate Invariant(s: State)
  {
    && !s.failed
    && (s.owner.Some? ==> s.owner.value < |s.threads| && OwnerAgrees(s, s.threads[s.owner.value]))
    && (s.owner.None? ==> Globals(s, 0, 0, 0, false, false))
    && (forall t: nat :: t < |s.threads| && s.owner != Some(t) ==> s.threads[t] == Thread(0, AtBoundary))
    && Matched(s.log, s.live, if s.live then s.owner else None)
  }

  lemma BoundaryStepKeepsInvariant(s: State, t: Tid, a: Action, s': State)
    requires t < |s.threads| && Invariant(s)
    requires s.threads[t].pc == AtBoundary && StepAtBoundary(s, t, a) == Some(s')
    ensures Invariant(s')
  {
    hide Matched;
    assert a == Leave ==> s.owner == Some(t);
  }

  lemma StepInKeepsInvariant(s: State, t: Tid)
    requires t < |s.threads| && Invariant(s) && IsEntering(s.threads[t].pc)
    ensures Invariant(StepIn(s, t))
  {
    OpenMatches(s.log, t);
    hide Matched;
    assert s.owner == Some(t);
  }

  lemma StepOutKeepsInvariant(s: State, t: Tid, s': State)
    requires t < |s.threads| && Invariant(s)
    requires !IsEntering(s.threads[t].pc) && s.threads[t].pc != AtBoundary
    requires StepOut(s, t) == Some(s')
    ensures Invariant(s')
  {
    CloseMatches(s.log, t);
    hide Matched;
    assert s.owner == Some(t);
  }

  lemma OpenMatches(log: seq<Event>, t: Tid)
    ensures Matched(log, false, None) ==> Matched(log + [Open(t)], true, Some(t))
  {
    assert (log + [Open(t)])[..|log|] == log;
  }

  lemma CloseMatches(log: seq<Event>, t: Tid)
    ensures Matched(log, true, Some(t)) ==> Matched(log + [Close(t)], false, None)
  {
    if Matched(log, true, Some(t)) {
      var longer := log + [Close(t)];
      assert longer[..|longer| - 2] == log[..|log| - 1];
    }
  }

  lemma StepKeepsInvariant(s: State, t: Tid, a: Action, s': State)
    requires t < |s.threads| && Invariant(s) && Step(s, t, a) == Some(s')
    ensures Invariant(s')
  {
    hide Invariant, StepIn, StepOut, StepAtBoundary;
    if s.threads[t].pc == AtBoundary {
      BoundaryStepKeepsInvariant(s, t, a, s');
    } else if IsEntering(s.threads[t].pc) {
      StepInKeepsInvariant(s, t);
    } else {
      StepOutKeepsInvariant(s, t, s');
    }
  }

  lemma {:induction false} RunsKeepInvariant(states: seq<State>, i: nat)
    requires Run(states) && i < |states|
    ensures Invariant(states[i])
  {
    if i > 0 {
      RunsKeepInvariant(states, i - 1);
      var s, s' := states[i - 1], states[i];
      assert Next(states[i - 1], states[i - 1 + 1]);
      var t: Tid, a :| t < |s.threads| && Step(s, t, a) == Some(s');
      StepKeepsInvariant(s, t, a, s');
    }
  }

  // ---------------------------------------------------------------- what users rely on

  predicate Inside(s: State, t: Tid)
    requires t < |s.threads|
  {
    s.threads[t].depth > 0
  }

  /** In every state of every run all threads inside a block are the same thread. */
  lemma OneThreadInside(states: seq<State>, i: nat, t: Tid, u: Tid)
    requires Run(states) && i < |states|
    requires t < |states[i].threads| && u < |states[i].threads|
    requires Inside(states[i], t) && Inside(states[i], u)
    ensures t == u
  {
    RunsKeepInvariant(states, i);
  }

  /** Between two calls of getDB's own code: the counters and the connection tell the depth of
      the one thread that may be inside, and all is at rest when none is. */
  lemma BoundariesAgree(states: seq<State>, i: nat, t: Tid)
    requires Run(states) && i < |states|
    requires t < |states[i].threads| && states[i].threads[t].pc == AtBoundary
    ensures
      var s := states[i];
      var d := s.threads[t].depth;
      && (d > 0 ==> s.locked == d && s.refcount == d && s.stored && s.live)
      && (d == 0 && (forall u :: 0 <= u < |s.threads| ==> s.threads[u] == Thread(0, AtBoundary)) ==>
            s.locked == 0 && s.refcount == 0 && !s.stored && !s.live)
  {
    RunsKeepInvariant(states, i);
  }

  /** The connection is live whenever some block is being executed. */
  lemma LiveWhileInside(states: seq<State>, i: nat)
    requires Run(states) && i < |states|
    requires forall t: nat :: t < |states[i].threads| ==> states[i].threads[t].pc == AtBoundary
    ensures states[i].live <==> exists t: nat :: t < |states[i].threads| && Inside(states[i], t)
  {
    RunsKeepInvariant(states, i);
    var s := states[i];
    if s.live {
      assert Inside(s, s.owner.value);
    }
  }

  /** The assertion never fails, and opens and closes match. */
  lemma OpensMatchCloses(states: seq<State>, i: nat)
    requires Run(states) && i < |states|
    ensures !states[i].failed
    ensures Matched(states[i].log, states[i].live, if states[i].live then states[i].owner else None)
  {
    RunsKeepInvariant(states, i);
  }

  /** A step that opens starts an outermost block and a step that closes ends one. */
  lemma OpenAndCloseAreOutermost(states: seq<State>, i: nat, t: Tid, a: Action)
    requires Run(states) && i < |states| - 1 && t < |states[i].threads|
    requires Step(states[i], t, a) == Some(states[i + 1])
    ensures
      var s, s' := states[i], states[i + 1];
      && (s'.log != s.log && !s.live ==> s'.log == s.log + [Open(t)] && s.threads[t].depth == 0)
      && (s'.log != s.log && s.live ==> s'.log == s.log + [Close(t)] && s.threads[t].depth == 1)
      && (s.threads[t].pc == Released && s.threads[t].depth == 1 ==> s'.threads[t].pc == MustClose)
      && (s.threads[t].pc == Counted && s.threads[t].depth == 0 ==> s'.threads[t].pc == NoConnection)
  {
    RunsKeepInvariant(states, i);
  }

  /** The lock never blocks its owner: every thread that has entered can go on. */
  lemma OwnerCanContinue(states: seq<State>, i: nat, t: Tid)
    requires Run(states) && i < |states| && t < |states[i].threads|
    requires states[i].threads[t].pc != AtBoundary || Inside(states[i], t)
    ensures exists a :: Step(states[i], t, a).Some?
    ensures states[i].threads[t].pc == AtBoundary ==> Step(states[i], t, Enter).Some?
  {
    RunsKeepInvariant(states, i);
    var s := states[i];
    var a := if s.threads[t].pc == AtBoundary then Enter else Continue;
    assert Step(s, t, a).Some?;
  }
}
