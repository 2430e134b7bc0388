/**
  * The watch-mode build scheduler `WatchUtils` of scripts/buildTools.ts: file events collect in
  * a map and restart a debounce timer; `applyChanges` waits for a build under way, then takes
  * the whole map as one batch. One macrotask (a file event, the timer, the end of a batch) runs
  * at a time, and the microtasks it queued - calls resumed from `await` - run before the next.
  */
module BuildWatch {
  import opened Common

  datatype Kind = Added | Changed | Removed

  datatype Change = Change(path: string, kind: Kind)

  type Pending = map<string, Kind>

  datatype Event =
    | FileEvent(change: Change)
    | TimerFires
    | BatchEnds
    | Resume  // the next call that was waiting for the mutex goes on

  /**
    * `running` counts the calls between taking a batch and their `finally`; `waiters` the
    * calls awaiting the current mutex, `ready` those resumed but not yet run. `log` is every
    * change recorded, `batches` what was taken, `cuts` how much of the log had been recorded
    * when each batch was taken.
    */
  datatype State = State(
    pending: Pending, timerArmed: bool, mutexPending: bool, running: nat, waiters: nat, ready: nat,
    log: seq<Change>, batches: seq<Pending>, cuts: seq<nat>)

  // ---------- the protocol ----------

  function Record(s: State, c: Change): State {
    s.(pending := s.pending[c.path := c.kind], log := s.log + [c])
  }

  function RecordAll(s: State, cs: seq<Change>): State {
    if cs == [] then s else Record(RecordAll(s, cs[..|cs| - 1]), cs[|cs| - 1])
  }

  /** applyChanges once it need not wait (any more). */
  function TakeBatch(s: State): State {
    if s.pending == map[] then s
    else s.(pending := map[], mutexPending := true, running := s.running + 1,
            batches := s.batches + [s.pending], cuts := s.cuts + [|s.log|])
  }

  function ApplyChanges(s: State): State {
    if s.mutexPending then s.(waiters := s.waiters + 1) else TakeBatch(s)
  }

  const IDLE := State(map[], false, false, 0, 0, 0, [], [], [])

  /** `start`: the files changed since the last session, applied at once if there are any. */
  function Started(changed: seq<Change>): State {
    var s := RecordAll(IDLE, changed);
    if s.pending != map[] then ApplyChanges(s) else s
  }

  predicate Enabled(s: State, e: Event) {
    match e
    case FileEvent(_) => s.ready == 0
    case TimerFires => s.ready == 0 && s.timerArmed
    case BatchEnds => s.ready == 0 && s.running > 0
    case Resume => s.ready > 0
  }

  function Step(s: State, e: Event): State
    requires Enabled(s, e)
  {
    match e
    case FileEvent(c) => Record(s, c).(timerArmed := true)
    case TimerFires => ApplyChanges(s.(timerArmed := false))
    case BatchEnds => s.(running := s.running - 1, mutexPending := false, ready := s.waiters, waiters := 0)
    case Resume => TakeBatch(s.(ready := s.ready - 1))
  }

  /** The state after a run of events, if each is enabled in turn. */
  function Run(s: State, events: seq<Event>): Option<State> {
    if events == [] then Some(s)
    else
      var before := Run(s, events[..|events| - 1]);
      if before.Some? && Enabled(before.value, events[|events| - 1])
      then Some(Step(before.value, events[|events| - 1])) else None
  }

  // ---------- the class ----------

  class WatchUtils {
    var pendingChanges: Pending
    var timerArmed: bool
    var mutexPending: bool
    var running: nat
    var waiters: nat
    var ready: nat
    ghost var log: seq<Change>
    ghost var batches: seq<Pending>
    ghost var cuts: seq<nat>

    ghost function Now(): State
      reads this
    {
      State(pendingChanges, timerArmed, mutexPending, running, waiters, ready, log, batches, cuts)
    }

    constructor Start(changed: seq<Change>)
      ensures Now() == Started(changed)
    {
      pendingChanges := map[];
      timerArmed, mutexPending, running, waiters, ready := false, false, 0, 0, 0;
      log, batches, cuts := [], [], [];
      new;
      for i := 0 to |changed|
        invariant Now() == RecordAll(IDLE, changed[..i])
      {
        assert changed[..i + 1][..i] == changed[..i];
        pendingChanges := pendingChanges[changed[i].path := changed[i].kind];
        log := log + [changed[i]];
      }
      assert changed[..|changed|] == changed;
      if pendingChanges != map[] {
        ApplyChangesCall();
      }
    }

    method OnFileEvent(c: Change)
      requires Enabled(Now(), FileEvent(c))
      modifies this
      ensures Now() == Step(old(Now()), FileEvent(c))
    {
      pendingChanges := pendingChanges[c.path := c.kind];
      log := log + [c];
      timerArmed := true;
    }

    method OnTimer()
      requires Enabled(Now(), TimerFires)
      modifies this
      ensures Now() == Step(old(Now()), TimerFires)
    {
      timerArmed := false;
      ApplyChangesCall();
    }

    /** applyChanges up to its first suspension. */
    method ApplyChangesCall()
      modifies this
      ensures Now() == ApplyChanges(old(Now()))
    {
      if mutexPending {
        waiters := waiters + 1;
      } else {
        AfterWait();
      }
    }

    /** applyChanges behind the `await`: the mutex is not looked at again. */
    method AfterWait()
      modifies this
      ensures Now() == TakeBatch(old(Now()))
    {
      if |pendingChanges| == 0 {
        return;
      }
      mutexPending := true;
      running := running + 1;
      batches, cuts := batches + [pendingChanges], cuts + [|log|];
      pendingChanges := map[];
    }

    /** The `finally` of a batch: every waiter becomes a microtask. */
    method OnBatchEnd()
      requires Enabled(Now(), BatchEnds)
      modifies this
      ensures Now() == Step(old(Now()), BatchEnds)
    {
      running := running - 1;
      mutexPending := false;
      ready, waiters := waiters, 0;
    }

    method OnResume()
      requires Enabled(Now(), Resume)
      modifies this
      ensures Now() == Step(old(Now()), Resume)
    {
      ready := ready - 1;
      AfterWait();
    }
  }

  // ---------- what holds in every reachable state ----------

  /** The last kind seen for each path of a stretch of the log. */
  function LastKinds(cs: seq<Change>): Pending {
    if cs == [] then map[] else LastKinds(cs[..|cs| - 1])[cs[|cs| - 1].path := cs[|cs| - 1].kind]
  }

  function CutBefore(s: State, i: nat): nat
    requires i <= |s.cuts|
  {
    if i == 0 then 0 else s.cuts[i - 1]
  }

  /** Batch `i` is the stretch of the log between its cut and the one before. */
  ghost predicate BatchIsStretch(s: State, i: nat) {
    && i < |s.cuts| && i < |s.batches|
    && CutBefore(s, i) < s.cuts[i] <= |s.log|
    && s.batches[i] == LastKinds(s.log[CutBefore(s, i)..s.cuts[i]])
  }

  /** Each batch is its own stretch of the log, and the pending map the rest of it. */
  ghost predicate Accounted(s: State) {
    && |s.batches| == |s.cuts|
    && (forall i: nat :: i < |s.cuts| ==> BatchIsStretch(s, i))
    && CutBefore(s, |s.cuts|) <= |s.log|
    && s.pending == LastKinds(s.log[CutBefore(s, |s.cuts|)..])
  }

  ghost predicate Scheduled(s: State) {
    && s.running == (if s.mutexPending then 1 else 0)
    && (s.waiters > 0 ==> s.mutexPending)
    && (s.ready > 0 && s.mutexPending ==> s.pending == map[])
    && (s.ready > 0 ==> s.waiters == 0)
    && (s.pending != map[] ==> s.timerArmed || s.waiters > 0 || s.ready > 0)
  }

  ghost predicate Inv(s: State) { Scheduled(s) && Accounted(s) }

  lemma {:induction false} LastKindsSnoc(cs: seq<Change>, c: Change)
    ensures LastKinds(cs + [c]) == LastKinds(cs)[c.path := c.kind]
  {
    assert (cs + [c])[..|cs|] == cs;
  }

  lemma {:induction false} RecordKeepsAccounts(s: State, c: Change)
    requires Accounted(s)
    ensures Accounted(Record(s, c))
  {
    var t := Record(s, c);
    var cut := CutBefore(s, |s.cuts|);
    assert t.log[cut..] == s.log[cut..] + [c];
    LastKindsSnoc(s.log[cut..], c);
    forall i: nat | i < |t.cuts|
      ensures BatchIsStretch(t, i)
    {
      assert BatchIsStretch(s, i);
      assert t.log[CutBefore(t, i)..t.cuts[i]] == s.log[CutBefore(s, i)..s.cuts[i]];
    }
  }

  lemma {:induction false} TakeKeepsAccounts(s: State)
    requires Accounted(s)
    ensures Accounted(TakeBatch(s))
  {
    if s.pending != map[] {
      var t := TakeBatch(s);
      var n := |s.cuts|;
      var cut := CutBefore(s, n);
      assert s.log[cut..] != [];
      assert s.log[cut..|s.log|] == s.log[cut..];
      assert t.log[|t.log|..] == [];
      assert BatchIsStretch(t, n);
      forall i: nat | i < n
        ensures BatchIsStretch(t, i)
      {
        assert BatchIsStretch(s, i);
      }
    }
  }

  lemma {:induction false} RecordAllKeepsAccounts(cs: seq<Change>)
    ensures Accounted(RecordAll(IDLE, cs))
    ensures RecordAll(IDLE, cs) == IDLE.(pending := RecordAll(IDLE, cs).pending, log := cs)
  {
    if cs == [] {
      NothingRecorded();
    } else {
      var init, last := cs[..|cs| - 1], cs[|cs| - 1];
      assert cs == init + [last];
      RecordAllKeepsAccounts(init);
      RecordKeepsAccounts(RecordAll(IDLE, init), last);
    }
  }

  lemma {:induction false} NothingRecorded()
    ensures Accounted(IDLE) && IDLE.log == []
  {
  }

  lemma {:induction false} StartedHolds(changed: seq<Change>)
    ensures Inv(Started(changed))
  {
    RecordAllKeepsAccounts(changed);
    TakeKeepsAccounts(RecordAll(IDLE, changed));
  }

  /** Accounts depend on the map and the histories only. */
  lemma {:induction false} SameAccounts(s: State, t: State)
    requires Accounted(s)
    requires t.pending == s.pending && t.log == s.log && t.batches == s.batches && t.cuts == s.cuts
    ensures Accounted(t)
  {
    forall i: nat | i < |t.cuts|
      ensures BatchIsStretch(t, i)
    {
      assert BatchIsStretch(s, i);
    }
  }

  lemma {:induction false} StepKeepsAccounts(s: State, e: Event)
    requires Accounted(s) && Enabled(s, e)
    ensures Accounted(Step(s, e))
  {
    match e
    case FileEvent(c) =>
      RecordKeepsAccounts(s, c);
      SameAccounts(Record(s, c), Step(s, e));
    case TimerFires =>
      var t := s.(timerArmed := false);
      SameAccounts(s, t);
      TakeKeepsAccounts(t);
      if t.mutexPending {
        SameAccounts(s, Step(s, e));
      }
    case BatchEnds =>
      SameAccounts(s, Step(s, e));
    case Resume =>
      SameAccounts(s, s.(ready := s.ready - 1));
      TakeKeepsAccounts(s.(ready := s.ready - 1));
  }

  lemma {:induction false} StepKeepsSchedule(s: State, e: Event)
    requires Scheduled(s) && Enabled(s, e)
    ensures Scheduled(Step(s, e))
  {
  }

  lemma {:induction false} StepKeeps(s: State, e: Event)
    requires Inv(s) && Enabled(s, e)
    ensures Inv(Step(s, e))
  {
    StepKeepsAccounts(s, e);
    StepKeepsSchedule(s, e);
  }

  /** In every state of every run: one batch at most, and nobody forgets a pending change. */
  lemma {:induction false} AlwaysScheduled(changed: seq<Change>, events: seq<Event>)
    requires Run(Started(changed), events).Some?
    ensures var s := Run(Started(changed), events).value;
            && Inv(s)
            && s.running <= 1
            && (s.pending != map[] ==> s.timerArmed || s.waiters > 0 || s.ready > 0)
    decreases |events|
  {
    if events == [] {
      StartedHolds(changed);
    } else {
      AlwaysScheduled(changed, events[..|events| - 1]);
      StepKeeps(Run(Started(changed), events[..|events| - 1]).value, events[|events| - 1]);
    }
  }

  // ---------- the log is what happened ----------

  /** The changes that the file events among `events` bring, in order. */
  function ChangesOf(events: seq<Event>): seq<Change> {
    if events == [] then []
    else
      ChangesOf(events[..|events| - 1])
      + if events[|events| - 1].FileEvent? then [events[|events| - 1].change] else []
  }

  /** All changes there have been: those since the last session, then those of the file events. */
  function History(changed: seq<Change>, events: seq<Event>): seq<Change> { changed + ChangesOf(events) }

  /** A file event is never ignored: it is pending under its kind, nothing else changes, and the timer runs. */
  lemma {:induction false} FileEventIsTaken(s: State, c: Change)
    requires Enabled(s, FileEvent(c))
    ensures var t := Step(s, FileEvent(c));
            && t.timerArmed && c.path in t.pending && t.pending[c.path] == c.kind
            && (forall path :: path != c.path ==> (path in t.pending <==> path in s.pending))
            && (forall path :: path != c.path && path in s.pending ==> t.pending[path] == s.pending[path])
            && t.log == s.log + [c] && t.batches == s.batches && t.running == s.running
  {
  }

  /** After any run the log holds just those changes, in order. */
  lemma {:induction false} LogIsHistory(changed: seq<Change>, events: seq<Event>)
    requires Run(Started(changed), events).Some?
    ensures Run(Started(changed), events).value.log == History(changed, events)
    decreases |events|
  {
    if events == [] {
      RecordAllKeepsAccounts(changed);
      assert changed + [] == changed;
    } else {
      var init, last := events[..|events| - 1], events[|events| - 1];
      LogIsHistory(changed, init);
      if last.FileEvent? {
        FileEventIsTaken(Run(Started(changed), init).value, last.change);
        AppendAssoc(changed, ChangesOf(init), [last.change]);
      }
    }
  }

  /** The place of a file event in the history. */
  lemma {:induction false} EventInHistory(changed: seq<Change>, events: seq<Event>, k: nat)
    requires k < |events| && events[k].FileEvent?
    ensures var r := |changed| + |ChangesOf(events[..k])|;
            r < |History(changed, events)| && History(changed, events)[r] == events[k].change
    decreases |events|
  {
    if k < |events| - 1 {
      EventInHistory(changed, events[..|events| - 1], k);
      assert events[..|events| - 1][..k] == events[..k];
    } else {
      assert events[..|events| - 1] == events[..k];
    }
  }

  // ---------- every change in exactly one batch ----------

  /** Batch `i` was taken from the stretch of the log that record `r` lies in. */
  ghost predicate BatchOf(s: State, r: nat, i: nat)
    requires r < |s.log|
  {
    i < |s.cuts| && i < |s.batches| && CutBefore(s, i) <= r < s.cuts[i]
  }

  /** Nothing more was recorded for this path before position `to`. */
  ghost predicate LastOfItsPath(log: seq<Change>, r: nat, to: nat)
    requires r < |log|
  {
    forall q :: r < q < |log| && q < to ==> log[q].path != log[r].path
  }

  lemma {:induction false} LastKindsMeaning(cs: seq<Change>, r: nat)
    requires r < |cs|
    ensures cs[r].path in LastKinds(cs)
    ensures (forall q :: r < q < |cs| ==> cs[q].path != cs[r].path) ==> LastKinds(cs)[cs[r].path] == cs[r].kind
  {
    var init := cs[..|cs| - 1];
    if r < |cs| - 1 {
      LastKindsMeaning(init, r);
      assert cs[|cs| - 1].path == cs[|cs| - 1].path;
    }
  }

  lemma {:induction false} LastKindsOnly(cs: seq<Change>, path: string)
    requires path in LastKinds(cs)
    ensures exists r :: 0 <= r < |cs| && cs[r].path == path
  {
    var last := cs[|cs| - 1];
    if last.path != path {
      LastKindsOnly(cs[..|cs| - 1], path);
      var r :| 0 <= r < |cs| - 1 && cs[..|cs| - 1][r].path == path;
      assert cs[r].path == path;
    }
  }

  lemma {:induction false} FindBatch(s: State, r: nat, n: nat) returns (i: nat)
    requires Accounted(s) && r < |s.log| && n <= |s.cuts| && r < CutBefore(s, n)
    ensures BatchOf(s, r, i)
  {
    if CutBefore(s, n - 1) <= r {
      i := n - 1;
    } else {
      i := FindBatch(s, r, n - 1);
    }
  }

  /**
    * Every recorded change that is no longer pending is in exactly one batch, under the last
    * kind recorded for its path before that batch was taken; and whatever a batch holds was
    * recorded in its own stretch of the log.
    */
  lemma {:induction false} EveryChangeInOneBatch(changed: seq<Change>, events: seq<Event>, r: nat)
    requires Run(Started(changed), events).Some? && r < |History(changed, events)|
    ensures var s, history := Run(Started(changed), events).value, History(changed, events);
            && s.log == history
            && if r >= CutBefore(s, |s.cuts|) then
                 && history[r].path in s.pending
                 && (forall i: nat :: !BatchOf(s, r, i))
               else
                 exists i: nat :: && BatchOf(s, r, i) && history[r].path in s.batches[i]
                             && (forall j: nat :: BatchOf(s, r, j) ==> j == i)
                             && (LastOfItsPath(history, r, s.cuts[i]) ==>
                                   s.batches[i][history[r].path] == history[r].kind)
  {
    LogIsHistory(changed, events);
    AlwaysScheduled(changed, events);
    var s := Run(Started(changed), events).value;
    var n := |s.cuts|;
    if r >= CutBefore(s, n) {
      LastKindsMeaning(s.log[CutBefore(s, n)..], r - CutBefore(s, n));
      assert s.log[CutBefore(s, n)..][r - CutBefore(s, n)] == s.log[r];
      forall i: nat
        ensures !BatchOf(s, r, i)
      {
        if i < n {
          CutsInOrder(s, i, n - 1);
        }
      }
    } else {
      var i := FindBatch(s, r, n);
      InOneBatch(s, r, i);
    }
  }

  /** The batches that have taken a change of the history, in which it is found under its path. */
  ghost predicate TakenIn(s: State, r: nat, i: nat)
    requires r < |s.log|
  {
    BatchOf(s, r, i) && s.log[r].path in s.batches[i]
  }

  /**
    * Every file event of every run: its change is in exactly one batch, under the last kind seen for
    * its path before that batch was taken, or it is still pending and in none.
    */
  lemma {:induction false} EveryFileEventInOneBatch(changed: seq<Change>, events: seq<Event>, k: nat)
    requires Run(Started(changed), events).Some? && k < |events| && events[k].FileEvent?
    ensures var s := Run(Started(changed), events).value;
            var history, r := History(changed, events), |changed| + |ChangesOf(events[..k])|;
            && s.log == history && r < |history| && history[r] == events[k].change
            && if r >= CutBefore(s, |s.cuts|) then
                 events[k].change.path in s.pending && forall i: nat :: !TakenIn(s, r, i)
               else
                 exists i: nat :: && TakenIn(s, r, i) && (forall j: nat :: TakenIn(s, r, j) ==> j == i)
                             && (LastOfItsPath(history, r, s.cuts[i]) ==>
                                   s.batches[i][events[k].change.path] == events[k].change.kind)
  {
    LogIsHistory(changed, events);
    EventInHistory(changed, events, k);
    EveryChangeInOneBatch(changed, events, |changed| + |ChangesOf(events[..k])|);
  }

  lemma {:induction false} CutsInOrder(s: State, i: nat, j: nat)
    requires Accounted(s) && i <= j < |s.cuts|
    ensures s.cuts[i] <= s.cuts[j]
    ensures i < j ==> s.cuts[i] <= CutBefore(s, j)
  {
    if i < j {
      CutsInOrder(s, i, j - 1);
      assert BatchIsStretch(s, j);
    }
  }

  lemma {:induction false} InOneBatch(s: State, r: nat, i: nat)
    requires Accounted(s) && r < |s.log| && BatchOf(s, r, i)
    ensures s.log[r].path in s.batches[i]
    ensures forall j: nat :: BatchOf(s, r, j) ==> j == i
    ensures LastOfItsPath(s.log, r, s.cuts[i]) ==>
              s.batches[i][s.log[r].path] == s.log[r].kind
  {
    forall j: nat | BatchOf(s, r, j)
      ensures j == i
    {
      if i < j {
        CutsInOrder(s, i, j);
      } else if j < i {
        CutsInOrder(s, j, i);
      }
    }
    assert BatchIsStretch(s, i);
    StretchMeaning(s.log, CutBefore(s, i), s.cuts[i], r);
  }

  lemma {:induction false} StretchMeaning(log: seq<Change>, from: nat, to: nat, r: nat)
    requires from <= r < to <= |log|
    ensures log[r].path in LastKinds(log[from..to])
    ensures LastOfItsPath(log, r, to) ==>
              LastKinds(log[from..to])[log[r].path] == log[r].kind
  {
    var stretch := log[from..to];
    assert stretch[r - from] == log[r];
    LastKindsMeaning(stretch, r - from);
    if LastOfItsPath(log, r, to) {
      forall q | r - from < q < |stretch|
        ensures stretch[q].path != stretch[r - from].path
      {
        assert stretch[q] == log[from + q];
      }
    }
  }

  lemma {:induction false} BatchesHoldOnlyChanges(changed: seq<Change>, events: seq<Event>, i: nat, path: string)
    requires Run(Started(changed), events).Some?
    requires i < |Run(Started(changed), events).value.batches|
    requires path in Run(Started(changed), events).value.batches[i]
    ensures var s, history := Run(Started(changed), events).value, History(changed, events);
            s.log == history && exists r: nat :: r < |history| && BatchOf(s, r, i) && history[r].path == path
  {
    LogIsHistory(changed, events);
    AlwaysScheduled(changed, events);
    var s := Run(Started(changed), events).value;
    assert BatchIsStretch(s, i);
    var from := CutBefore(s, i);
    var stretch := s.log[from..s.cuts[i]];
    LastKindsOnly(stretch, path);
    var r :| 0 <= r < |stretch| && stretch[r].path == path;
    assert stretch[r] == s.log[from + r];
    assert BatchOf(s, from + r, i);
  }

  // ---------- without new file events everything gets applied ----------

  /** An upper bound of the events still to come if no file changes any more. */
  function Effort(s: State): nat {
    3 * (if s.timerArmed then 1 else 0) + 2 * s.waiters + 2 * s.ready + s.running
  }

  lemma {:induction false} EffortDecreases(s: State, e: Event)
    requires Enabled(s, e) && !e.FileEvent?
    ensures Effort(Step(s, e)) < Effort(s)
  {
  }

  /** However the scheduler orders the rest: it ends, and then nothing is pending or running. */
  lemma {:induction false} Settles(s: State, events: seq<Event>)
    requires Inv(s) && Run(s, events).Some?
    requires forall e <- events :: !e.FileEvent?
    ensures var t := Run(s, events).value;
            && Inv(t) && |events| + Effort(t) <= Effort(s)
            && t.log == s.log
            && ((forall e :: Enabled(t, e) ==> e.FileEvent?) ==>
                  t.pending == map[] && t.running == 0 && CutBefore(t, |t.cuts|) == |t.log|)
    decreases |events|
  {
    if events != [] {
      var init, last := events[..|events| - 1], events[|events| - 1];
      Settles(s, init);
      StepKeeps(Run(s, init).value, last);
      EffortDecreases(Run(s, init).value, last);
    }
    var t := Run(s, events).value;
    if forall e :: Enabled(t, e) ==> e.FileEvent? {
      assert !Enabled(t, TimerFires) && !Enabled(t, BatchEnds) && !Enabled(t, Resume);
      assert t.pending == map[];
      var rest := t.log[CutBefore(t, |t.cuts|)..];
      if rest != [] {
        LastKindsMeaning(rest, 0);
        assert false;
      }
    }
  }

  /** Nothing but a file event can happen any more. */
  ghost predicate AtRest(s: State) { forall e :: Enabled(s, e) ==> e.FileEvent? }

  /** After a run that has come to rest every change there has been is in exactly one batch. */
  lemma {:induction false} AtRestAllTaken(changed: seq<Change>, events: seq<Event>, r: nat)
    requires Run(Started(changed), events).Some? && AtRest(Run(Started(changed), events).value)
    requires r < |History(changed, events)|
    ensures var s, history := Run(Started(changed), events).value, History(changed, events);
            && s.pending == map[] && s.running == 0 && s.log == history
            && exists i: nat :: && TakenIn(s, r, i) && (forall j: nat :: TakenIn(s, r, j) ==> j == i)
                           && (LastOfItsPath(history, r, s.cuts[i]) ==>
                                 s.batches[i][history[r].path] == history[r].kind)
  {
    AlwaysScheduled(changed, events);
    Settles(Run(Started(changed), events).value, []);
    EveryChangeInOneBatch(changed, events, r);
  }
}
