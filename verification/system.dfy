/**
 The service as a transition system. Every step is one critical section of the
 store, one reading of the clock, or one move of the single retention sweep, so a
 sequence of actions is an interleaving of requests with the sweep at the
 granularity of the store's lock. An action that is not possible in a state leaves
 it as it is; all sequences of actions are therefore runs.
 */
module System {
  import opened Seqs
  import opened Text
  import opened Calendar
  import opened Store
  import opened Retention

  /** Where `runOnce` stands, with its local variables. */
  datatype Task =
    | Idle
    | Begun(now: Instant)
    | Sealing(now: Instant, pending: seq<string>)
    | Holding(now: Instant, pending: seq<string>, seals: seq<string>, count: nat)

  datatype Sys = Sys(clock: Instant, store: State, task: Task)

  datatype Action =
    | Tick(to: Instant)
    | Post(rec: Record, rowId: string)
    | Hold(subject: string, on: bool)
    | ManualPurge(readAt: Instant)
    | SweepBegin
    | SweepList
    | SweepRead
    | SweepSave
    | SweepPurge

  function Step(svc: Service, s: Sys, a: Action): Sys
  {
    match a
    case Tick(to) => if to > s.clock then s.(clock := to) else s
    case Post(rec, rowId) => s.(store := Append(s.store, rec, rowId))
    case Hold(subject, on) => s.(store := SetHold(s.store, subject, on))
    case ManualPurge(readAt) =>
      // The handler read the clock some time before the store took the lock.
      if readAt <= s.clock then s.(store := Purge(svc.bucketOf, s.store, svc.CutoffAt(readAt))) else s
    case SweepBegin => if s.task.Idle? then s.(task := Begun(s.clock)) else s
    case SweepList =>
      if s.task.Begun?
      then s.(task := Sealing(s.task.now, Pending(svc.bucketOf, s.store, svc.Before(s.task.now))))
      else s
    case SweepRead =>
      if s.task.Sealing? && s.task.pending != []
      then
        var seals := SealsFor(svc.bucketOf, s.store, s.task.pending[0]);
        s.(task := Holding(s.task.now, s.task.pending, seals, |seals|))
      else s
    case SweepSave =>
      if s.task.Holding? && s.task.pending != []
      then
        var cp := Checkpoint(s.task.pending[0], s.task.count, svc.attest(s.task.seals, s.task.count), 0);
        s.(store := SaveCheckpoint(s.store, cp, s.clock), task := Sealing(s.task.now, s.task.pending[1..]))
      else s
    case SweepPurge =>
      if s.task.Sealing? && s.task.pending == []
      then s.(store := Purge(svc.bucketOf, s.store, svc.CutoffAt(s.task.now)), task := Idle)
      else s
  }

  /** What the steps of requests do to the whole state: the clock never goes back, and each handler is one store operation. */
  lemma RequestSteps(svc: Service, s: Sys, to: Instant, rec: Record, rowId: string, subject: string, on: bool, readAt: Instant)
    ensures Step(svc, s, Tick(to)) == Sys(if to > s.clock then to else s.clock, s.store, s.task)
    ensures Step(svc, s, Post(rec, rowId)) == Sys(s.clock, Append(s.store, rec, rowId), s.task)
    ensures var t := Step(svc, s, Hold(subject, on));
      && t == Sys(s.clock, t.store, s.task) && t.store == s.store.(holds := t.store.holds)
      && forall x :: x in t.store.holds <==> if x == subject then on else x in s.store.holds
    ensures Step(svc, s, ManualPurge(readAt))
         == if readAt > s.clock then s
            else Sys(s.clock, Purge(svc.bucketOf, s.store, svc.bucketOf(readAt - svc.window)), s.task)
  {
    hide Purge, Append;
  }

  function Run(svc: Service, s: Sys, acts: seq<Action>): Sys
  {
    if acts == [] then s else Step(svc, Run(svc, s, acts[..|acts| - 1]), acts[|acts| - 1])
  }

  function Start(clock: Instant): Sys
  {
    Sys(clock, EMPTY, Idle)
  }

  /** The state in which action `i` happens. */
  function At(svc: Service, s: Sys, acts: seq<Action>, i: nat): Sys
    requires i <= |acts|
  {
    Run(svc, s, acts[..i])
  }

  lemma {:induction false} RunAppends(svc: Service, s: Sys, a: seq<Action>, b: seq<Action>)
    ensures Run(svc, s, a + b) == Run(svc, Run(svc, s, a), b)
  {
    hide Step;
    if b == [] {
      assert a + b == a;
    } else {
      assert (a + b)[..|a + b| - 1] == a + b[..|b| - 1];
      RunAppends(svc, s, a, b[..|b| - 1]);
    }
  }

  lemma AtPrefix(svc: Service, s: Sys, acts: seq<Action>, n: nat, i: nat)
    requires i <= n <= |acts|
    ensures At(svc, s, acts[..n], i) == At(svc, s, acts, i)
  {
    assert acts[..n][..i] == acts[..i];
  }

  // ---- What every run keeps ----

  /** The sweep's variables are consistent with the clock and the store. */
  predicate TaskOk(svc: Service, s: Sys)
  {
    && (!s.task.Idle? ==> s.task.now <= s.clock)
    && (s.task.Sealing? || s.task.Holding? ==>
          && Ascending(s.task.pending) && Distinct(s.task.pending)
          && forall p :: p in s.task.pending ==> Lt(p, svc.Before(s.task.now)))
    && (s.task.Holding? ==> s.task.pending != [] && s.task.count == |s.task.seals|)
  }

  predicate Invariant(svc: Service, s: Sys)
  {
    Valid(s.store) && TaskOk(svc, s)
  }

  lemma StepKeepsStoreValid(svc: Service, s: Sys, a: Action)
    requires Valid(s.store)
    ensures Valid(Step(svc, s, a).store)
  {
    match a
    case Post(rec, rowId) => AppendValid(s.store, rec, rowId);
    case ManualPurge(readAt) => PurgeValid(svc.bucketOf, s.store, svc.CutoffAt(readAt));
    case SweepPurge => if s.task.Sealing? { PurgeValid(svc.bucketOf, s.store, svc.CutoffAt(s.task.now)); }
    case _ =>
  }

  lemma TailOk(pending: seq<string>)
    requires pending != [] && Ascending(pending) && Distinct(pending)
    ensures Ascending(pending[1..]) && Distinct(pending[1..])
    ensures forall p :: p in pending[1..] ==> p in pending
  {
    hide Le;
  }

  lemma StepKeepsTaskOk(svc: Service, s: Sys, a: Action)
    requires TaskOk(svc, s)
    ensures TaskOk(svc, Step(svc, s, a))
  {
    hide Ascending, Distinct, Lt, Append, Purge, SealsFor, SaveCheckpoint, Pending;
    match a
    case SweepList => if s.task.Begun? { PendingExact(svc.bucketOf, s.store, svc.Before(s.task.now)); }
    case SweepSave => if s.task.Holding? { TailOk(s.task.pending); }
    case _ =>
  }

  /** Over any interleaving the store stays well-formed and the sweep's variables stay consistent. */
  lemma {:induction false} RunKeepsInvariant(svc: Service, s: Sys, acts: seq<Action>)
    requires Invariant(svc, s)
    ensures Invariant(svc, Run(svc, s, acts))
  {
    hide Store.Valid, TaskOk, Step;
    if acts != [] {
      var was := Run(svc, s, acts[..|acts| - 1]);
      RunKeepsInvariant(svc, s, acts[..|acts| - 1]);
      StepKeepsStoreValid(svc, was, acts[|acts| - 1]);
      StepKeepsTaskOk(svc, was, acts[|acts| - 1]);
    }
  }

  lemma StartInvariant(svc: Service, clock: Instant)
    ensures Invariant(svc, Start(clock))
  {
  }

  // ---- Checkpoints are written once ----

  lemma StepKeepsCheckpoints(svc: Service, s: Sys, a: Action, p: string)
    requires p in s.store.checkpoints
    ensures p in Step(svc, s, a).store.checkpoints
    ensures Step(svc, s, a).store.checkpoints[p] == s.store.checkpoints[p]
  {
    hide SealsFor, Pending, Filter;
  }

  /** A checkpoint that has been stored is the same in every later state. */
  lemma {:induction false} CheckpointsPermanent(svc: Service, s: Sys, acts: seq<Action>, p: string)
    requires p in s.store.checkpoints
    ensures p in Run(svc, s, acts).store.checkpoints
    ensures Run(svc, s, acts).store.checkpoints[p] == s.store.checkpoints[p]
  {
    hide Step;
    if acts != [] {
      CheckpointsPermanent(svc, s, acts[..|acts| - 1], p);
      StepKeepsCheckpoints(svc, Run(svc, s, acts[..|acts| - 1]), acts[|acts| - 1], p);
    }
  }

  // ---- A checkpoint is over the rows its sweep read ----

  /** Action `i` is the sweep's reading of period `p`, and `seals` is what it read. */
  predicate ReadsPeriod(svc: Service, s: Sys, acts: seq<Action>, i: nat, p: string, seals: seq<string>)
  {
    && i < |acts| && acts[i].SweepRead?
    && var st := At(svc, s, acts, i);
       st.task.Sealing? && st.task.pending != [] && st.task.pending[0] == p
       && seals == SealsFor(svc.bucketOf, st.store, p)
  }

  predicate HasRead(svc: Service, s: Sys, acts: seq<Action>, p: string, seals: seq<string>)
  {
    exists i :: 0 <= i < |acts| && ReadsPeriod(svc, s, acts, i, p, seals)
  }

  /** The checkpoint attests what some reading of its period saw. */
  ghost predicate FromReading(svc: Service, s: Sys, acts: seq<Action>, p: string, cp: Checkpoint)
  {
    exists seals :: HasRead(svc, s, acts, p, seals) && cp.period == p && cp.rowCount == |seals|
      && cp.seal == svc.attest(seals, |seals|)
  }

  lemma HasReadGrows(svc: Service, s: Sys, acts: seq<Action>, p: string, seals: seq<string>)
    requires acts != [] && HasRead(svc, s, acts[..|acts| - 1], p, seals)
    ensures HasRead(svc, s, acts, p, seals)
  {
    hide SealsFor, Run;
    var front := acts[..|acts| - 1];
    var i :| 0 <= i < |front| && ReadsPeriod(svc, s, front, i, p, seals);
    AtPrefix(svc, s, acts, |acts| - 1, i);
    assert ReadsPeriod(svc, s, acts, i, p, seals);
  }

  lemma FromReadingGrows(svc: Service, s: Sys, acts: seq<Action>, p: string, cp: Checkpoint)
    requires acts != [] && FromReading(svc, s, acts[..|acts| - 1], p, cp)
    ensures FromReading(svc, s, acts, p, cp)
  {
    hide HasRead;
    var seals :| HasRead(svc, s, acts[..|acts| - 1], p, seals) && cp.period == p && cp.rowCount == |seals|
      && cp.seal == svc.attest(seals, |seals|);
    HasReadGrows(svc, s, acts, p, seals);
  }

  lemma BecomesHolding(svc: Service, s: Sys, a: Action)
    requires Step(svc, s, a).task.Holding?
    ensures var t := Step(svc, s, a).task;
      || (s.task.Holding? && t == s.task)
      || (&& a.SweepRead? && s.task.Sealing? && s.task.pending != []
          && var seals := SealsFor(svc.bucketOf, s.store, s.task.pending[0]);
             t == Holding(s.task.now, s.task.pending, seals, |seals|))
  {
    hide SealsFor, Append, Purge, SaveCheckpoint, SetHold, Pending;
  }

  /** What the sweep holds between reading and saving is what it read. */
  lemma {:induction false} HoldingWasRead(svc: Service, s: Sys, acts: seq<Action>)
    requires s.task.Idle?
    ensures var t := Run(svc, s, acts).task;
      t.Holding? ==> t.pending != [] && t.count == |t.seals| && HasRead(svc, s, acts, t.pending[0], t.seals)
  {
    hide Step, HasRead, SealsFor;
    if acts != [] {
      var front, a := acts[..|acts| - 1], acts[|acts| - 1];
      var was := Run(svc, s, front);
      HoldingWasRead(svc, s, front);
      if Step(svc, was, a).task.Holding? {
        BecomesHolding(svc, was, a);
        if was.task.Holding? {
          HasReadGrows(svc, s, acts, was.task.pending[0], was.task.seals);
        } else {
          ReadingHere(svc, s, acts, was.task.pending[0]);
        }
      }
    }
  }

  lemma ReadingHere(svc: Service, s: Sys, acts: seq<Action>, p: string)
    requires acts != [] && acts[|acts| - 1].SweepRead?
    requires var t := Run(svc, s, acts[..|acts| - 1]).task; t.Sealing? && t.pending != [] && t.pending[0] == p
    ensures HasRead(svc, s, acts, p, SealsFor(svc.bucketOf, Run(svc, s, acts[..|acts| - 1]).store, p))
  {
    hide SealsFor, Run;
    var st := Run(svc, s, acts[..|acts| - 1]);
    assert ReadsPeriod(svc, s, acts, |acts| - 1, p, SealsFor(svc.bucketOf, st.store, p));
  }

  lemma SaveStores(svc: Service, s: Sys, p: string)
    requires s.task.Holding? && s.task.pending != []
    requires p in Step(svc, s, SweepSave).store.checkpoints && p !in s.store.checkpoints
    ensures p == s.task.pending[0]
    ensures var cp := Step(svc, s, SweepSave).store.checkpoints[p];
      && cp.period == p && cp.rowCount == s.task.count && cp.seal == svc.attest(s.task.seals, s.task.count)
      && cp.sealedAt == s.clock
  {
  }

  lemma OnlySaveStores(svc: Service, s: Sys, a: Action, p: string)
    requires p in Step(svc, s, a).store.checkpoints && p !in s.store.checkpoints
    ensures a.SweepSave? && s.task.Holding? && s.task.pending != []
  {
    hide SealsFor, Pending, Filter;
  }

  /**
   In every interleaving, each stored checkpoint attests exactly the rows that its
   period had when a sweep read them.
   */
  lemma {:induction false} CheckpointIsSnapshot(svc: Service, s: Sys, acts: seq<Action>, p: string)
    requires s.task.Idle? && p !in s.store.checkpoints
    requires p in Run(svc, s, acts).store.checkpoints
    ensures FromReading(svc, s, acts, p, Run(svc, s, acts).store.checkpoints[p])
  {
    hide Step, FromReading, HasRead;
    if acts != [] {
      var front, a := acts[..|acts| - 1], acts[|acts| - 1];
      var was := Run(svc, s, front);
      if p in was.store.checkpoints {
        CheckpointIsSnapshot(svc, s, front, p);
        FromReadingGrows(svc, s, acts, p, was.store.checkpoints[p]);
        StepKeepsCheckpoints(svc, was, a, p);
      } else {
        OnlySaveStores(svc, was, a, p);
        SaveStores(svc, was, p);
        HoldingWasRead(svc, s, front);
        HasReadGrows(svc, s, acts, p, was.task.seals);
        SavedFromReading(svc, s, acts, p, was.task.seals, Run(svc, s, acts).store.checkpoints[p]);
      }
    }
  }

  lemma SavedFromReading(svc: Service, s: Sys, acts: seq<Action>, p: string, seals: seq<string>, cp: Checkpoint)
    requires HasRead(svc, s, acts, p, seals)
    requires cp.period == p && cp.rowCount == |seals| && cp.seal == svc.attest(seals, |seals|)
    ensures FromReading(svc, s, acts, p, cp)
  {
    hide HasRead;
  }

  // ---- When periods are sealed ----

  /** Buckets of later instants are no smaller, between two instants. */
  ghost predicate OrderedBuckets(bucketOf: Bucketing, first: Instant, last: Instant)
  {
    forall t, u :: first <= t <= u <= last ==> Le(bucketOf(t), bucketOf(u))
  }

  lemma StepClock(svc: Service, s: Sys, a: Action)
    ensures Step(svc, s, a).clock >= s.clock
    ensures !Step(svc, s, a).task.Idle? && !s.task.Idle? ==> Step(svc, s, a).task.now == s.task.now
    ensures !Step(svc, s, a).task.Idle? && s.task.Idle? ==> Step(svc, s, a).task.now == s.clock
  {
    hide Append, Purge, SealsFor, SaveCheckpoint, SetHold, Pending;
  }

  /** The clock, and the sweep's reading of it, are not before `first`. */
  predicate RunsSince(s: Sys, first: Instant)
  {
    first <= s.clock && (!s.task.Idle? ==> first <= s.task.now)
  }

  /** The checkpoint was stored by now, and its period is below the bucket of that instant. */
  predicate WasBelow(svc: Service, first: Instant, s: Sys, p: string)
    requires p in s.store.checkpoints
  {
    var at := s.store.checkpoints[p].sealedAt;
    first <= at <= s.clock && Lt(p, svc.bucketOf(at))
  }

  predicate SealedBelow(svc: Service, first: Instant, s: Sys)
  {
    && RunsSince(s, first)
    && forall p :: p in s.store.checkpoints ==> WasBelow(svc, first, s, p)
  }

  lemma StepSealsBelow(svc: Service, s: Sys, a: Action, first: Instant, last: Instant)
    requires SealedBelow(svc, first, s) && TaskOk(svc, s)
    requires s.clock <= last && OrderedBuckets(svc.bucketOf, first, last)
    ensures SealedBelow(svc, first, Step(svc, s, a))
  {
    hide Le, Lt, Ascending, Distinct, Step;
    var t := Step(svc, s, a);
    StepClock(svc, s, a);
    forall p | p in t.store.checkpoints ensures WasBelow(svc, first, t, p) {
      if p in s.store.checkpoints {
        StepKeepsCheckpoints(svc, s, a, p);
        assert WasBelow(svc, first, s, p);
      } else {
        OnlySaveStores(svc, s, a, p);
        assert a == SweepSave;
        SaveStores(svc, s, p);
        assert p in s.task.pending;
        LtLeTransitive(p, svc.bucketOf(s.task.now), svc.bucketOf(s.clock));
      }
    }
  }

  /** Under a clock that never goes back, a period is sealed only at an instant whose bucket it is below. */
  lemma {:induction false} SealedBelowPresent(svc: Service, first: Instant, acts: seq<Action>)
    requires OrderedBuckets(svc.bucketOf, first, Run(svc, Start(first), acts).clock)
    ensures SealedBelow(svc, first, Run(svc, Start(first), acts))
  {
    hide Step, TaskOk, Store.Valid;
    if acts != [] {
      var front, a := acts[..|acts| - 1], acts[|acts| - 1];
      var was := Run(svc, Start(first), front);
      var last := Run(svc, Start(first), acts).clock;
      StepClock(svc, was, a);
      assert OrderedBuckets(svc.bucketOf, first, was.clock);
      SealedBelowPresent(svc, first, front);
      StartInvariant(svc, first);
      RunKeepsInvariant(svc, Start(first), front);
      StepSealsBelow(svc, was, a, first, last);
    }
  }

  // ---- Which actions purge ----

  /** The action purges: the manual one, or the end of the sweep. */
  predicate Purges(s: Sys, a: Action)
  {
    (a.ManualPurge? && a.readAt <= s.clock) || (a.SweepPurge? && s.task.Sealing? && s.task.pending == [])
  }

  /** The reading of the clock from which the purge's cutoff is computed. */
  function PurgeInstant(s: Sys, a: Action): Instant
    requires Purges(s, a)
  {
    if a.ManualPurge? then a.readAt else s.task.now
  }

  lemma StepPurges(svc: Service, s: Sys, a: Action)
    requires Purges(s, a)
    ensures Step(svc, s, a).store == Purge(svc.bucketOf, s.store, svc.CutoffAt(PurgeInstant(s, a)))
  {
    hide Purge;
  }

  // ---- Purging leaves the other periods verifiable ----

  /** What a period verification compares: `attest` of the current rows against the checkpoint. */
  predicate Verifies(svc: Service, s: State, p: string)
  {
    p in s.checkpoints
    && svc.attest(SealsFor(svc.bucketOf, s, p), |SealsFor(svc.bucketOf, s, p)|) == s.checkpoints[p].seal
  }

  /** Actions that cannot touch the rows of period `p`. */
  predicate SparesPeriod(svc: Service, s: Sys, a: Action, p: string)
  {
    && (a.Post? ==> a.rec.Id() in s.store.index || svc.bucketOf(a.rec.At()) != p)
    && (Purges(s, a) ==> Le(svc.CutoffAt(PurgeInstant(s, a)), p))
  }

  predicate AllSpare(svc: Service, s: Sys, acts: seq<Action>, p: string)
  {
    forall i :: 0 <= i < |acts| ==> SparesPeriod(svc, At(svc, s, acts, i), acts[i], p)
  }

  lemma PurgeSparesPeriod(bucketOf: Bucketing, s: State, cutoff: string, p: string)
    requires Le(cutoff, p)
    ensures PeriodRows(bucketOf, Purge(bucketOf, s, cutoff), p) == PeriodRows(bucketOf, s, p)
  {
    hide Held, Le;
    FilterTwice(s.records, Keeps(bucketOf, s.holds, cutoff), InPeriod(bucketOf, p), InPeriod(bucketOf, p));
  }

  lemma PostSparesPeriod(bucketOf: Bucketing, s: State, rec: Record, rowId: string, p: string)
    requires rec.Id() in s.index || bucketOf(rec.At()) != p
    ensures PeriodRows(bucketOf, Append(s, rec, rowId), p) == PeriodRows(bucketOf, s, p)
  {
    if rec.Id() !in s.index {
      assert Listed(s, rec, rowId).At() == rec.At();
      FilterAppend(s.records, Listed(s, rec, rowId), InPeriod(bucketOf, p));
    }
  }

  lemma StepSparesPeriod(svc: Service, s: Sys, a: Action, p: string)
    requires SparesPeriod(svc, s, a, p)
    ensures PeriodRows(svc.bucketOf, Step(svc, s, a).store, p) == PeriodRows(svc.bucketOf, s.store, p)
  {
    hide Purge, Append, Le, SealsFor, Pending, Filter;
    if Purges(s, a) {
      PurgeSparesPeriod(svc.bucketOf, s.store, svc.CutoffAt(PurgeInstant(s, a)), p);
    } else if a.Post? {
      PostSparesPeriod(svc.bucketOf, s.store, a.rec, a.rowId, p);
    }
  }

  lemma {:induction false} RunSparesPeriod(svc: Service, s: Sys, acts: seq<Action>, p: string)
    requires AllSpare(svc, s, acts, p)
    ensures PeriodRows(svc.bucketOf, Run(svc, s, acts).store, p) == PeriodRows(svc.bucketOf, s.store, p)
  {
    hide Step, SparesPeriod, PeriodRows, Le;
    if acts != [] {
      var front := acts[..|acts| - 1];
      forall i | 0 <= i < |front| ensures SparesPeriod(svc, At(svc, s, front, i), front[i], p) {
        AtPrefix(svc, s, acts, |acts| - 1, i);
        assert SparesPeriod(svc, At(svc, s, acts, i), acts[i], p);
      }
      RunSparesPeriod(svc, s, front, p);
      assert At(svc, s, acts, |acts| - 1) == Run(svc, s, front);
      StepSparesPeriod(svc, Run(svc, s, front), acts[|acts| - 1], p);
    }
  }

  /**
   Purge-compatible integrity: a period that verifies keeps verifying, and one that
   does not is not repaired, through any run of holds, retries, appends into other
   periods, sweeps and purges whose cutoff does not pass it, however many older rows
   are deleted.
   */
  lemma VerdictSurvives(svc: Service, s: Sys, acts: seq<Action>, p: string)
    requires p in s.store.checkpoints && AllSpare(svc, s, acts, p)
    ensures Verifies(svc, Run(svc, s, acts).store, p) == Verifies(svc, s.store, p)
  {
    hide Run, SparesPeriod, PeriodRows, InIdOrder;
    RunSparesPeriod(svc, s, acts, p);
    CheckpointsPermanent(svc, s, acts, p);
  }

  // ---- Deletion happens only by purges, past the window ----

  lemma OnlyPurgesRemove(svc: Service, s: Sys, a: Action, r: Record)
    requires r in s.store.records && r !in Step(svc, s, a).store.records
    ensures Purges(s, a)
  {
    hide Purge, SealsFor, Pending, Listed;
  }

  /**
   A record disappears exactly in a purge whose own reading of the clock, not after
   the present, gives a cutoff past it, and only if no subject of it is held.
   */
  lemma RemovalIsPurge(svc: Service, s: Sys, a: Action, r: Record)
    requires TaskOk(svc, s) && r in s.store.records
    ensures (r !in Step(svc, s, a).store.records
             <==> Purges(s, a) && Dropped(svc.bucketOf, s.store.holds, svc.CutoffAt(PurgeInstant(s, a)), r))
    ensures Purges(s, a) ==> PurgeInstant(s, a) <= s.clock
  {
    hide Dropped, Ascending, Distinct, Lt, Step;
    if Purges(s, a) {
      StepPurges(svc, s, a);
      PurgeMembers(svc.bucketOf, s.store, svc.CutoffAt(PurgeInstant(s, a)), r);
    } else if r !in Step(svc, s, a).store.records {
      OnlyPurgesRemove(svc, s, a, r);
    }
  }

  lemma SurvivorsAreYoungOrHeld(svc: Service, s: Sys, a: Action, r: Record)
    requires Purges(s, a) && r in Step(svc, s, a).store.records
    ensures Le(svc.CutoffAt(PurgeInstant(s, a)), svc.bucketOf(r.At())) || Held(s.store.holds, r)
  {
    hide Le, Held, Step;
    StepPurges(svc, s, a);
    PurgeMembers(svc.bucketOf, s.store, svc.CutoffAt(PurgeInstant(s, a)), r);
  }

  /** No handler acts on a reading of the clock older than `first`. */
  predicate ReadsSince(acts: seq<Action>, first: Instant)
  {
    forall i :: 0 <= i < |acts| && acts[i].ManualPurge? ==> acts[i].readAt >= first
  }

  /** No purge at an instant of this interval reaches the record. */
  ghost predicate OutOfReach(svc: Service, r: Record, first: Instant, last: Instant)
  {
    forall now :: first <= now <= last ==> !Expired(svc.bucketOf, svc.CutoffAt(now), r)
  }

  lemma StepKeepsOutOfReach(svc: Service, s: Sys, a: Action, first: Instant, r: Record)
    requires TaskOk(svc, s) && RunsSince(s, first) && ReadsSince([a], first)
    requires OutOfReach(svc, r, first, s.clock) && r in s.store.records
    ensures RunsSince(Step(svc, s, a), first) && r in Step(svc, s, a).store.records
  {
    hide Step, Expired, Ascending, Distinct, Lt;
    StepClock(svc, s, a);
    if r !in Step(svc, s, a).store.records {
      OnlyPurgesRemove(svc, s, a, r);
      StepPurges(svc, s, a);
      assert [a][0] == a;
      var now := PurgeInstant(s, a);
      assert first <= now <= s.clock && !Expired(svc.bucketOf, svc.CutoffAt(now), r);
      PurgeMembers(svc.bucketOf, s.store, svc.CutoffAt(now), r);
    }
  }

  /** A record that no cutoff has reached by the end of a run is still there, unchanged. */
  lemma {:induction false} YoungRecordsStay(svc: Service, s: Sys, acts: seq<Action>, first: Instant, r: Record)
    requires Invariant(svc, s) && RunsSince(s, first) && ReadsSince(acts, first) && r in s.store.records
    requires OutOfReach(svc, r, first, Run(svc, s, acts).clock)
    ensures RunsSince(Run(svc, s, acts), first) && r in Run(svc, s, acts).store.records
  {
    hide Step, TaskOk, Store.Valid, RunsSince, Expired;
    if acts != [] {
      var front, a := acts[..|acts| - 1], acts[|acts| - 1];
      var was := Run(svc, s, front);
      StepClock(svc, was, a);
      assert forall i :: 0 <= i < |front| ==> front[i] == acts[i];
      YoungRecordsStay(svc, s, front, first, r);
      RunKeepsInvariant(svc, s, front);
      StepKeepsOutOfReach(svc, was, a, first, r);
    }
  }

  // ---- Legal holds ----

  predicate KeepsHold(a: Action, subject: string)
  {
    !(a.Hold? && a.subject == subject && !a.on)
  }

  lemma StepKeepsHeld(svc: Service, s: Sys, a: Action, subject: string, r: Record)
    requires subject in s.store.holds && KeepsHold(a, subject)
    requires r in s.store.records && subject in r.envelope.dataSubjects
    ensures subject in Step(svc, s, a).store.holds && r in Step(svc, s, a).store.records
  {
    hide SealsFor, Pending, Le, Filter;
    var i :| 0 <= i < |r.envelope.dataSubjects| && r.envelope.dataSubjects[i] == subject;
    assert Held(s.store.holds, r);
    match a
    case ManualPurge(readAt) => PurgeMembers(svc.bucketOf, s.store, svc.CutoffAt(readAt), r);
    case SweepPurge => if s.task.Sealing? { PurgeMembers(svc.bucketOf, s.store, svc.CutoffAt(s.task.now), r); }
    case _ =>
  }

  /**
   While a subject stays held, every record touching it stays, unchanged, whatever is
   purged and whichever other holds are placed or cleared.
   */
  lemma {:induction false} HeldRecordsStay(svc: Service, s: Sys, acts: seq<Action>, subject: string, r: Record)
    requires subject in s.store.holds && forall i :: 0 <= i < |acts| ==> KeepsHold(acts[i], subject)
    requires r in s.store.records && subject in r.envelope.dataSubjects
    ensures subject in Run(svc, s, acts).store.holds && r in Run(svc, s, acts).store.records
  {
    hide Step, KeepsHold;
    if acts != [] {
      var front := acts[..|acts| - 1];
      assert forall i :: 0 <= i < |front| ==> front[i] == acts[i];
      HeldRecordsStay(svc, s, front, subject, r);
      StepKeepsHeld(svc, Run(svc, s, front), acts[|acts| - 1], subject, r);
    }
  }

  // ---- Checkpoint before deletion ----

  /** Records the sweep in progress will delete are in sealed periods or ones it still has to seal. */
  predicate Covers(svc: Service, s: Sys)
  {
    (s.task.Sealing? || s.task.Holding?) ==>
      forall r :: r in s.store.records && Lt(svc.bucketOf(r.At()), svc.CutoffAt(s.task.now)) ==>
        svc.bucketOf(r.At()) in s.store.checkpoints || svc.bucketOf(r.At()) in s.task.pending
  }

  /** An append that does not slip an unsealed row under the cutoff of the sweep in progress. */
  predicate Timely(svc: Service, s: Sys, a: Action)
  {
    a.Post? && (s.task.Sealing? || s.task.Holding?) ==>
      var p := svc.bucketOf(a.rec.At());
      || a.rec.Id() in s.store.index
      || !Lt(p, svc.CutoffAt(s.task.now))
      || p in s.store.checkpoints || p in s.task.pending
  }

  lemma ListingCovers(svc: Service, s: Sys)
    requires s.task.Begun? && Le(svc.CutoffAt(s.task.now), svc.Before(s.task.now))
    ensures Covers(svc, Step(svc, s, SweepList))
  {
    hide Le, Lt, Pending, Ascending, Distinct;
    var now := s.task.now;
    PendingExact(svc.bucketOf, s.store, svc.Before(now));
    forall r | r in s.store.records && Lt(svc.bucketOf(r.At()), svc.CutoffAt(now))
      ensures svc.bucketOf(r.At()) in s.store.checkpoints
           || svc.bucketOf(r.At()) in Pending(svc.bucketOf, s.store, svc.Before(now))
    {
      LtLeTransitive(svc.bucketOf(r.At()), svc.CutoffAt(now), svc.Before(now));
      assert Occurs(svc.bucketOf, s.store, svc.bucketOf(r.At()));
    }
  }

  predicate Sweeping(s: Sys)
  {
    s.task.Sealing? || s.task.Holding?
  }

  predicate Unfinished(acts: seq<Action>)
  {
    forall i :: 0 <= i < |acts| ==> !acts[i].SweepPurge?
  }

  /** The row's period is past the cutoff of the sweep in progress, not sealed, and not listed to be sealed. */
  predicate Missed(svc: Service, s: Sys, r: Record)
  {
    && Sweeping(s)
    && Lt(svc.bucketOf(r.At()), svc.CutoffAt(s.task.now))
    && svc.bucketOf(r.At()) !in s.store.checkpoints
    && svc.bucketOf(r.At()) !in s.task.pending
  }

  /** Action `i` is an untimely append, and `r` the row it adds. */
  predicate Untimely(svc: Service, s: Sys, acts: seq<Action>, i: nat, r: Record)
  {
    && i < |acts| && acts[i].Post?
    && var st := At(svc, s, acts, i);
       !Timely(svc, st, acts[i]) && r == Listed(st.store, acts[i].rec, acts[i].rowId)
  }

  predicate CameLate(svc: Service, s: Sys, acts: seq<Action>, r: Record)
  {
    exists i :: 0 <= i < |acts| && Untimely(svc, s, acts, i, r)
  }

  lemma CameLateNext(svc: Service, s: Sys, acts: seq<Action>, r: Record)
    requires acts != []
    ensures CameLate(svc, s, acts, r)
       <==> CameLate(svc, s, acts[..|acts| - 1], r) || Untimely(svc, s, acts, |acts| - 1, r)
  {
    hide Run, Timely, Listed;
    var front := acts[..|acts| - 1];
    forall i: nat | i < |front| ensures Untimely(svc, s, front, i, r) == Untimely(svc, s, acts, i, r) {
      AtPrefix(svc, s, acts, |acts| - 1, i);
    }
  }

  /** Until it purges, a sweep misses the periods it missed, and no others. */
  lemma StepKeepsMissed(svc: Service, s: Sys, a: Action, r: Record)
    requires Sweeping(s) && !a.SweepPurge?
    ensures Sweeping(Step(svc, s, a)) && Step(svc, s, a).task.now == s.task.now
    ensures Missed(svc, Step(svc, s, a), r) <==> Missed(svc, s, r)
  {
    hide Lt, SealsFor, Pending, Filter;
    if s.task.pending != [] {
      assert s.task.pending == [s.task.pending[0]] + s.task.pending[1..];
    }
  }

  lemma ListingMissesNone(svc: Service, s: Sys, r: Record)
    requires Sweeping(s) && Covers(svc, s) && r in s.store.records
    ensures !Missed(svc, s, r)
  {
    hide Lt;
  }

  /** A row that a step adds is a late one exactly if the sweep misses it. */
  lemma AddedRowLate(svc: Service, s: Sys, acts: seq<Action>, r: Record)
    requires acts != [] && Sweeping(Run(svc, s, acts[..|acts| - 1]))
    requires var was := Run(svc, s, acts[..|acts| - 1]);
      || Untimely(svc, s, acts, |acts| - 1, r)
      || (r !in was.store.records && r in Step(svc, was, acts[|acts| - 1]).store.records)
    ensures Untimely(svc, s, acts, |acts| - 1, r)
       <==> Missed(svc, Run(svc, s, acts[..|acts| - 1]), r)
  {
    hide Run, Lt, SealsFor, Pending;
    var was, a := Run(svc, s, acts[..|acts| - 1]), acts[|acts| - 1];
    assert At(svc, s, acts, |acts| - 1) == was;
    if !a.Post? {
      NothingAdded(svc, was, a, r);
    }
    hide Purge;
  }

  lemma NothingAdded(svc: Service, s: Sys, a: Action, r: Record)
    requires !a.Post? && r in Step(svc, s, a).store.records
    ensures r in s.store.records
  {
    hide Purge, Dropped, SealsFor, Pending;
    if Purges(s, a) {
      PurgeDropsOnly(svc.bucketOf, s.store, svc.CutoffAt(PurgeInstant(s, a)));
    }
  }

  /** In every interleaving, the rows a sweep misses are the ones that untimely appends added. */
  lemma {:induction false} MissedCameLate(svc: Service, s: Sys, acts: seq<Action>, r: Record)
    requires Sweeping(s) && Covers(svc, s) && Unfinished(acts)
    ensures var t := Run(svc, s, acts);
      && Sweeping(t) && t.task.now == s.task.now
      && (CameLate(svc, s, acts, r) ==> Missed(svc, t, r))
      && (r in t.store.records && Missed(svc, t, r) ==> CameLate(svc, s, acts, r))
  {
    hide Step, Missed, Untimely, CameLate, Covers, Sweeping;
    if acts == [] {
      NoneLate(svc, s, r);
      if r in s.store.records { ListingMissesNone(svc, s, r); }
    } else {
      var front, a := acts[..|acts| - 1], acts[|acts| - 1];
      var was := Run(svc, s, front);
      assert forall i :: 0 <= i < |front| ==> front[i] == acts[i];
      MissedCameLate(svc, s, front, r);
      StepKeepsMissed(svc, was, a, r);
      CameLateNext(svc, s, acts, r);
      if Untimely(svc, s, acts, |acts| - 1, r)
        || (r !in was.store.records && r in Step(svc, was, a).store.records)
      {
        AddedRowLate(svc, s, acts, r);
      }
    }
  }

  lemma NoneLate(svc: Service, s: Sys, r: Record)
    ensures !CameLate(svc, s, [], r)
  {
  }

  lemma ListingLists(svc: Service, s: Sys)
    requires s.task.Begun?
    ensures Sweeping(Step(svc, s, SweepList))
  {
    hide Pending;
  }

  lemma PurgeDeletesMissed(svc: Service, t: Sys, r: Record)
    requires t.task.Sealing? && t.task.pending == [] && r in t.store.records
    ensures (r !in Step(svc, t, SweepPurge).store.records && svc.bucketOf(r.At()) !in t.store.checkpoints)
       <==> !Held(t.store.holds, r) && Missed(svc, t, r)
  {
    hide Le, Lt, Held, Step;
    StepPurges(svc, t, SweepPurge);
    PurgeMembers(svc.bucketOf, t.store, svc.CutoffAt(t.task.now), r);
    NotLe(svc.bucketOf(r.At()), svc.CutoffAt(t.task.now));
  }

  /**
   Checkpoint before deletion, row by row and in every interleaving: what a sweep's
   purge deletes from a period without a checkpoint is exactly the unheld rows that an
   untimely append added after the sweep listed what to seal.
   */
  lemma DeletedUnsealedExactly(svc: Service, s: Sys, acts: seq<Action>, r: Record)
    requires s.task.Begun? && Le(svc.CutoffAt(s.task.now), svc.Before(s.task.now)) && Unfinished(acts)
    requires var t := Run(svc, Step(svc, s, SweepList), acts);
      t.task.Sealing? && t.task.pending == [] && r in t.store.records
    ensures var listed := Step(svc, s, SweepList); var t := Run(svc, listed, acts);
      (r !in Step(svc, t, SweepPurge).store.records && svc.bucketOf(r.At()) !in t.store.checkpoints)
       <==> !Held(t.store.holds, r) && CameLate(svc, listed, acts, r)
  {
    hide Covers, Step, Run, Unfinished, Missed, CameLate, Sweeping, Held, Le;
    ListingCovers(svc, s);
    ListingLists(svc, s);
    var listed := Step(svc, s, SweepList);
    MissedCameLate(svc, listed, acts, r);
    PurgeDeletesMissed(svc, Run(svc, listed, acts), r);
  }

  /** So if no append is untimely, a sweep deletes only rows of sealed periods. */
  lemma SweepDeletesOnlySealed(svc: Service, s: Sys, acts: seq<Action>, r: Record)
    requires s.task.Begun? && Le(svc.CutoffAt(s.task.now), svc.Before(s.task.now))
    requires var listed := Step(svc, s, SweepList);
      Unfinished(acts) && forall i :: 0 <= i < |acts| ==> Timely(svc, At(svc, listed, acts, i), acts[i])
    requires var t := Run(svc, Step(svc, s, SweepList), acts);
      && t.task.Sealing? && t.task.pending == []
      && r in t.store.records && r !in Step(svc, t, SweepPurge).store.records
    ensures svc.bucketOf(r.At()) in Run(svc, Step(svc, s, SweepList), acts).store.checkpoints
  {
    hide Step, Run, Unfinished, Timely, Le, Held, Listed;
    DeletedUnsealedExactly(svc, s, acts, r);
  }

  lemma RunOne(svc: Service, s: Sys, a: Action)
    ensures Run(svc, s, [a]) == Step(svc, s, a)
  {
    hide Step;
    assert [a][..0] == [];
  }

  lemma RunTwo(svc: Service, s: Sys, a: Action, b: Action)
    ensures Run(svc, s, [a, b]) == Step(svc, Step(svc, s, a), b)
  {
    hide Step;
    assert [a, b][..1] == [a] && [a][..0] == [];
    assert Run(svc, s, [a]) == Step(svc, s, a);
  }

  lemma ListedKeeps(s: State, rec: Record, rowId: string)
    ensures var r := Listed(s, rec, rowId); r.envelope == rec.envelope && r.seal == rec.seal
  {
  }

  /**
   The manual purge is the sweep exactly when no period waits for a checkpoint, at any
   reading of the clock; it never adds a checkpoint.
   */
  lemma ManualPurgeIsSweep(svc: Service, s: Sys, readAt: Instant)
    requires readAt <= s.clock
    ensures var t := Step(svc, s, ManualPurge(readAt));
      && t.store.checkpoints == s.store.checkpoints
      && (t.store == Sweep(svc, s.store, readAt) <==> Pending(svc.bucketOf, s.store, svc.Before(readAt)) == [])
  {
    hide Sweep, Pending, Purge;
    StepPurges(svc, s, ManualPurge(readAt));
    PurgeKeepsCheckpoints(svc.bucketOf, s.store, svc.CutoffAt(readAt));
    PurgeIsSweep(svc, s.store, readAt);
  }

  /**
   When a period waits, rows can be lost that the sweep would have sealed: in a new
   service, a first record of an expired period is purged by hand and leaves no trace,
   while a sweep in its place deletes it too but leaves the period's checkpoint.
   */
  lemma ManualPurgeLosesUnsealed(svc: Service, first: Instant, rec: Record, rowId: string)
    requires Lt(svc.bucketOf(rec.At()), svc.CutoffAt(first)) && Le(svc.CutoffAt(first), svc.Before(first))
    ensures var posted := Run(svc, Start(first), [Post(rec, rowId)]);
      var t := Run(svc, Start(first), [Post(rec, rowId), ManualPurge(first)]);
      && posted.store.records == [Listed(EMPTY, rec, rowId)]
      && t.store.records == [] && t.store.checkpoints == map[]
      && Sweep(svc, posted.store, first).records == []
      && svc.bucketOf(rec.At()) in Sweep(svc, posted.store, first).checkpoints
  {
    hide Le, Lt, Purge, Sweep, Run, SealsFor;
    RunOne(svc, Start(first), Post(rec, rowId));
    RunTwo(svc, Start(first), Post(rec, rowId), ManualPurge(first));
    var posted := Step(svc, Start(first), Post(rec, rowId));
    var r, cutoff := Listed(EMPTY, rec, rowId), svc.CutoffAt(first);
    ListedKeeps(EMPTY, rec, rowId);
    assert posted.store.records == [r] && r.At() == rec.At();
    StepPurges(svc, posted, ManualPurge(first));
    PurgeKeepsCheckpoints(svc.bucketOf, posted.store, cutoff);
    hide Step;
    NotLe(svc.bucketOf(rec.At()), cutoff);
    assert !Held({}, r);
    SweepDeletesAll(svc, posted.store, first, r);
  }

  lemma SweepDeletesAll(svc: Service, s: State, now: Instant, r: Record)
    requires s.records == [r] && Dropped(svc.bucketOf, s.holds, svc.CutoffAt(now), r)
    requires Le(svc.CutoffAt(now), svc.Before(now))
    ensures Purge(svc.bucketOf, s, svc.CutoffAt(now)).records == []
    ensures Sweep(svc, s, now).records == [] && svc.bucketOf(r.At()) in Sweep(svc, s, now).checkpoints
  {
    hide Le, Dropped, SealAll, Attests, Pending, Purge;
    var t := SealAll(svc, s, Pending(svc.bucketOf, s, svc.Before(now)), now);
    SealAllAdds(svc, s, Pending(svc.bucketOf, s, svc.Before(now)), now);
    OnlyRowPurged(svc.bucketOf, s, svc.CutoffAt(now), r);
    OnlyRowPurged(svc.bucketOf, t, svc.CutoffAt(now), r);
    SweepSealsBeforeDeleting(svc, s, now, r);
  }

  lemma OnlyRowPurged(bucketOf: Bucketing, s: State, cutoff: string, r: Record)
    requires s.records == [r] && Dropped(bucketOf, s.holds, cutoff, r)
    ensures Purge(bucketOf, s, cutoff).records == []
  {
    hide Dropped;
    assert s.records[..0] == [];
  }
}
