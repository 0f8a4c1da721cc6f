/** The retention sweep run by itself: seal what is closed, then purge what has expired. */
module Retention {
  import opened Seqs
  import opened Text
  import opened Calendar
  import opened Store
  import opened MemoryStore
  import opened Seals

  /**
   What the sweep needs of the rest of the service: the bucketing of instants, the
   checkpoint over a list of seals, and the accountability window.
   */
  datatype Service = Service(bucketOf: Bucketing, attest: (seq<string>, nat) -> string, window: int) {

    /** The bound of the closed periods. */
    function Before(now: Instant): string
    {
      bucketOf(now)
    }

    /** The bound of the purge. */
    function CutoffAt(now: Instant): string
    {
      bucketOf(now - window)
    }
  }

  function CheckpointFor(svc: Service, period: string, seals: seq<string>): Checkpoint
  {
    Checkpoint(period, |seals|, svc.attest(seals, |seals|), 0)
  }

  function SealPeriod(svc: Service, s: State, period: string, now: Instant): State
  {
    SaveCheckpoint(s, CheckpointFor(svc, period, SealsFor(svc.bucketOf, s, period)), now)
  }

  function SealAll(svc: Service, s: State, periods: seq<string>, now: Instant): State
  {
    if periods == [] then s
    else SealPeriod(svc, SealAll(svc, s, periods[..|periods| - 1], now), periods[|periods| - 1], now)
  }

  /** One sweep with nothing in between its steps. */
  function Sweep(svc: Service, s: State, now: Instant): State
  {
    Purge(svc.bucketOf, SealAll(svc, s, Pending(svc.bucketOf, s, svc.Before(now)), now), svc.CutoffAt(now))
  }

  predicate SameRows(s: State, t: State)
  {
    t.records == s.records && t.index == s.index && t.holds == s.holds
  }

  lemma SameRowsSameSeals(bucketOf: Bucketing, s: State, t: State, period: string)
    requires SameRows(s, t)
    ensures SealsFor(bucketOf, t, period) == SealsFor(bucketOf, s, period)
  {
  }

  predicate Attests(svc: Service, s: State, cp: Checkpoint, period: string)
  {
    var seals := SealsFor(svc.bucketOf, s, period);
    cp.period == period && cp.rowCount == |seals| && cp.seal == svc.attest(seals, |seals|)
  }

  lemma SealPeriodAdds(svc: Service, s: State, period: string, now: Instant)
    ensures var t := SealPeriod(svc, s, period, now);
      && SameRows(s, t)
      && t.checkpoints.Keys == s.checkpoints.Keys + {period}
      && (forall p :: p in s.checkpoints ==> t.checkpoints[p] == s.checkpoints[p])
      && (period !in s.checkpoints ==> Attests(svc, s, t.checkpoints[period], period))
  {
    hide SealsFor;
  }

  /** `t` has one checkpoint more than `s` per listed period that had none, over that period's rows. */
  ghost predicate Sealed(svc: Service, s: State, t: State, periods: seq<string>)
  {
    && SameRows(s, t)
    && (forall p :: p in t.checkpoints <==> p in s.checkpoints || p in periods)
    && (forall p :: p in s.checkpoints ==> t.checkpoints[p] == s.checkpoints[p])
    && (forall p :: p in periods && p !in s.checkpoints ==> Attests(svc, s, t.checkpoints[p], p))
  }

  lemma SealedMore(svc: Service, s: State, t: State, u: State, front: seq<string>, last: string, now: Instant)
    requires Sealed(svc, s, t, front) && u == SealPeriod(svc, t, last, now)
    ensures Sealed(svc, s, u, front + [last])
  {
    hide SealPeriod, Attests;
    SealPeriodAdds(svc, t, last, now);
    AttestsRowsOnly(svc, s, t, last);
    forall p ensures p in front + [last] <==> p in front || p == last {
    }
    forall p | p in u.checkpoints ensures p in t.checkpoints || p == last {
      assert p in u.checkpoints.Keys;
    }
    forall p | p in t.checkpoints || p == last ensures p in u.checkpoints {
      assert p in u.checkpoints.Keys;
    }
  }

  /** Sealing adds one checkpoint per listed period, over that period's rows, and changes nothing else. */
  lemma {:induction false} SealAllAdds(svc: Service, s: State, periods: seq<string>, now: Instant)
    ensures Sealed(svc, s, SealAll(svc, s, periods, now), periods)
  {
    hide SealPeriod, Attests;
    if periods != [] {
      var front, last := periods[..|periods| - 1], periods[|periods| - 1];
      SealAllAdds(svc, s, front, now);
      hide Sealed;
      SealedMore(svc, s, SealAll(svc, s, front, now), SealAll(svc, s, periods, now), front, last, now);
      assert periods == front + [last];
    }
  }

  lemma SealAllKeepsRows(svc: Service, s: State, periods: seq<string>, now: Instant)
    ensures SealAll(svc, s, periods, now).records == s.records
  {
    hide SealAll, Attests;
    SealAllAdds(svc, s, periods, now);
  }

  lemma AttestsRowsOnly(svc: Service, s: State, t: State, period: string)
    requires SameRows(s, t)
    ensures forall cp :: Attests(svc, s, cp, period) == Attests(svc, t, cp, period)
  {
    hide SealsFor;
    SameRowsSameSeals(svc.bucketOf, s, t, period);
  }

  lemma PurgeDropsOnly(bucketOf: Bucketing, s: State, cutoff: string)
    ensures forall r :: r in Purge(bucketOf, s, cutoff).records ==> r in s.records
    ensures forall r :: r in s.records && r !in Purge(bucketOf, s, cutoff).records
                    ==> Dropped(bucketOf, s.holds, cutoff, r)
  {
    hide Dropped;
    forall r: Record ensures r in Purge(bucketOf, s, cutoff).records
        <==> r in s.records && !Dropped(bucketOf, s.holds, cutoff, r) {
      PurgeMembers(bucketOf, s, cutoff, r);
    }
  }

  /** After a sweep no closed period waits for a checkpoint. */
  lemma SweepLeavesNonePending(svc: Service, s: State, now: Instant)
    ensures Pending(svc.bucketOf, Sweep(svc, s, now), svc.Before(now)) == []
  {
    hide Le, Attests, Purge, SealAll, Sorted, Ascending, Distinct;
    var before, after := svc.Before(now), Sweep(svc, s, now);
    var pending := Pending(svc.bucketOf, s, before);
    var t := SealAll(svc, s, pending, now);
    SealAllAdds(svc, s, pending, now);
    PurgeDropsOnly(svc.bucketOf, t, svc.CutoffAt(now));
    PurgeKeepsCheckpoints(svc.bucketOf, t, svc.CutoffAt(now));
    SortedListsSet(PendingSet(svc.bucketOf, s, before));
    forall r | r in after.records ensures !Waits(svc.bucketOf, after, before, r) {
      assert r in s.records;
      if Waits(svc.bucketOf, s, before, r) {
        assert svc.bucketOf(r.At()) in PendingSet(svc.bucketOf, s, before);
      }
    }
    assert PendingSet(svc.bucketOf, after, before) == {};
    SortedNone();
  }

  /** Purging without sealing, as the manual purge does, is the whole sweep exactly when no period waits for a checkpoint. */
  lemma PurgeIsSweep(svc: Service, s: State, now: Instant)
    ensures Purge(svc.bucketOf, s, svc.CutoffAt(now)) == Sweep(svc, s, now)
       <==> Pending(svc.bucketOf, s, svc.Before(now)) == []
  {
    hide Purge, Pending, Attests, Ascending, Distinct, Lt;
    var before := svc.Before(now);
    var pending := Pending(svc.bucketOf, s, before);
    if pending != [] {
      var p := pending[0];
      PendingExact(svc.bucketOf, s, before);
      assert p in pending;
      SealAllAdds(svc, s, pending, now);
      PurgeKeepsCheckpoints(svc.bucketOf, SealAll(svc, s, pending, now), svc.CutoffAt(now));
      PurgeKeepsCheckpoints(svc.bucketOf, s, svc.CutoffAt(now));
    }
  }

  lemma SortedNone()
    ensures Sorted({}) == []
  {
  }

  lemma PurgeKeepsCheckpoints(bucketOf: Bucketing, s: State, cutoff: string)
    ensures Purge(bucketOf, s, cutoff).checkpoints == s.checkpoints
  {
  }

  /** A sweep deletes only rows of periods it leaves with a checkpoint, if its cutoff is no later than its own month. */
  lemma SweepSealsBeforeDeleting(svc: Service, s: State, now: Instant, r: Record)
    requires Le(svc.CutoffAt(now), svc.Before(now))
    requires r in s.records && r !in Sweep(svc, s, now).records
    ensures svc.bucketOf(r.At()) in Sweep(svc, s, now).checkpoints
  {
    hide Ascending, Distinct, Le, Attests, Purge, SealAll, Held;
    var before, cutoff := svc.Before(now), svc.CutoffAt(now);
    var pending := Pending(svc.bucketOf, s, before);
    var t := SealAll(svc, s, pending, now);
    SealAllAdds(svc, s, pending, now);
    PurgeDropsOnly(svc.bucketOf, t, cutoff);
    PurgeKeepsCheckpoints(svc.bucketOf, t, cutoff);
    PendingExact(svc.bucketOf, s, before);
    hide Pending;
    var p := svc.bucketOf(r.At());
    NotLe(p, cutoff);
    LtLeTransitive(p, cutoff, before);
    assert Occurs(svc.bucketOf, s, p);
  }

  // ---- The background sweep ----

  /** A service whose checkpoints are a sealer's. */
  function ServiceWith(bucketOf: Bucketing, sealer: Sealer, window: int): Service
  {
    Service(bucketOf, (seals: seq<string>, count: nat) => sealer.CheckpointOf(seals, count), window)
  }

  /** The service as deployed: its buckets are the calendar's months. */
  function ServiceOf(sealer: Sealer, window: int): Service
  {
    ServiceWith(Period, sealer, window)
  }

  class RetentionTask {
    const memory: Memory
    const sealer: Sealer
    const window: int
    const verifyRetentionDays: int

    constructor (memory: Memory, sealer: Sealer, window: int, verifyRetentionDays: int)
      ensures this.memory == memory && this.sealer == sealer
      ensures this.window == window && this.verifyRetentionDays == verifyRetentionDays
    {
      this.memory := memory;
      this.sealer := sealer;
      this.window := window;
      this.verifyRetentionDays := verifyRetentionDays;
    }

    /** `checkpoint`: read the seals of a period, then save a checkpoint over them. */
    method SealOne(period: string, now: Instant)
      requires memory.Valid()
      modifies memory`checkpoints
      ensures memory.Valid()
      ensures memory.Abs() == SealPeriod(ServiceOf(sealer, window), old(memory.Abs()), period, now)
    {
      hide Period, Store.Valid, HoldSet, Seals.CheckpointText, Hex, InIdOrder, SealMap, Filter, IsZero;
      var seals, count := memory.SealsForPeriod(period);
      var created := memory.SaveCheckpoint(
        Checkpoint(period, count, sealer.CheckpointOf(seals, count), 0), now);
    }

    /** The first half of `runOnce`. */
    method SealClosed(now: Instant)
      requires memory.Valid()
      modifies memory`checkpoints
      ensures memory.Valid()
      ensures var svc := ServiceOf(sealer, window);
        memory.Abs() == SealAll(svc, old(memory.Abs()), Pending(Period, old(memory.Abs()), Period(now)), now)
    {
      hide Period, Store.Valid, HoldSet, SealPeriod, Store.Pending;
      ghost var svc, s := ServiceOf(sealer, window), memory.Abs();
      var pending := memory.PendingCheckpointPeriods(Period(now));
      for i := 0 to |pending|
        modifies memory`checkpoints
        invariant memory.Valid() && memory.Abs() == SealAll(svc, s, pending[..i], now)
      {
        assert pending[..i + 1][..i] == pending[..i];
        SealOne(pending[i], now);
      }
      assert pending[..|pending|] == pending;
    }

    /** `runOnce`: seal every closed period, purge, then sweep the verify events. */
    method RunOnce(now: Instant) returns (res: PurgeResult)
      requires memory.Valid()
      modifies memory, memory.verifyEvents
      ensures memory.Valid()
      ensures memory.Abs() == Sweep(ServiceOf(sealer, window), old(memory.Abs()), now)
      ensures memory.Events()
           == if verifyRetentionDays > 0
              then Filter(old(memory.Events()), NotBefore(now - verifyRetentionDays * DAY))
              else old(memory.Events())
      ensures verifyRetentionDays > 0
          ==> forall ev :: (ev in memory.Events()
                            <==> ev in old(memory.Events()) && ev.ts >= now - verifyRetentionDays * DAY)
      ensures res.cutoff == Cutoff(now, window)
      ensures res.purged + |memory.Abs().records| == old(|memory.Abs().records|)
      ensures res.retainedUnderHold == |Filter(memory.Abs().records, IsExpired(Period, Cutoff(now, window)))|
    {
      hide Period, Store.Valid, HoldSet, Purge, PurgeAnswer, SealAll, Store.Pending, Filter;
      ghost var s := memory.Abs();
      SealClosed(now);
      SealAllKeepsRows(ServiceOf(sealer, window), s, Pending(Period, s, Period(now)), now);
      var cutoff := Period(now - window);
      PurgeConserves(Period, memory.Abs(), cutoff);
      PurgeAnswerNames(Period, memory.Abs(), cutoff);
      RetainedAreExpiredSurvivors(Period, memory.Abs(), cutoff);
      res := memory.PurgeExpired(cutoff);
      if verifyRetentionDays > 0 {
        var vres := memory.SweepVerifyExpired(now, verifyRetentionDays);
      }
    }
  }

  lemma PurgeAnswerNames(bucketOf: Bucketing, s: State, cutoff: string)
    ensures PurgeAnswer(bucketOf, s, cutoff).cutoff == cutoff
  {
  }
}
