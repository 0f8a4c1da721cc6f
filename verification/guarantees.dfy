/** What the service promises, with its own calendar and its own sealer. */
module Guarantees {
  import opened Wrappers
  import opened Seqs
  import opened Text
  import opened Decimal
  import opened JsonText
  import opened Calendar
  import opened Rfc3339
  import opened Envelopes
  import opened Requests
  import opened Seals
  import opened Store
  import opened Retention
  import opened System
  import opened History
  import opened Evidence
  import opened Routes
  import Queries

  // ---- Months in order ----

  /** Years are four-digit between two instants whose years are. */
  lemma FourDigitBetween(first: Instant, t: Instant, last: Instant)
    requires first <= t <= last && FourDigitYear(first) && FourDigitYear(last)
    ensures FourDigitYear(t)
  {
    hide DateOf, DayOf, ValidDate;
    MonthIndexAscends(first, t);
    MonthIndexAscends(t, last);
    DateFields(DateOf(DayOf(first)));
    DateFields(DateOf(DayOf(t)));
    DateFields(DateOf(DayOf(last)));
  }

  lemma MonthsOrdered(first: Instant, last: Instant)
    requires FourDigitYear(first) && FourDigitYear(last)
    ensures OrderedBuckets(Period, first, last)
  {
    hide Period, FourDigitYear, MonthIndex, Le;
    forall t, u | first <= t <= u <= last ensures Le(Period(t), Period(u)) {
      FourDigitBetween(first, t, last);
      FourDigitBetween(first, u, last);
      PeriodOrder(t, u);
    }
  }

  /** In every run, a period is sealed only at an instant whose bucket it is below, as strings, no later than now. */
  lemma SealedBelowOwnInstant(sealer: Sealer, window: int, first: Instant, acts: seq<Action>, p: string)
    requires var t := Run(ServiceOf(sealer, window), Start(first), acts);
      FourDigitYear(first) && FourDigitYear(t.clock) && p in t.store.checkpoints
    ensures var t := Run(ServiceOf(sealer, window), Start(first), acts);
      var at := t.store.checkpoints[p].sealedAt;
      first <= at <= t.clock && FourDigitYear(at) && Lt(p, Period(at))
  {
    hide Period, FourDigitYear, Le, Lt, Run, RunsSince;
    var svc := ServiceOf(sealer, window);
    var t := Run(svc, Start(first), acts);
    MonthsOrdered(first, t.clock);
    SealedBelowPresent(svc, first, acts);
    assert WasBelow(svc, first, t, p);
    FourDigitBetween(first, t.store.checkpoints[p].sealedAt, t.clock);
  }

  /**
   When a month with a checkpoint was over as it was sealed: exactly if its year has no
   more than four digits. Of the times a request can carry, the ones in UTC year 10000
   are in months that are sealed before they begin.
   */
  lemma SealedMonthOverExactly(sealer: Sealer, window: int, first: Instant, acts: seq<Action>, time: Time)
    requires var t := Run(ServiceOf(sealer, window), Start(first), acts);
      FourDigitYear(first) && FourDigitYear(t.clock) && Period(time.instant) in t.store.checkpoints
    ensures var at := Run(ServiceOf(sealer, window), Start(first), acts).store.checkpoints[Period(time.instant)].sealedAt;
      && (MonthIndex(time.instant) < MonthIndex(at) <==> YearAt(time.instant) <= 9999)
      && (YearAt(time.instant) > 9999 ==> at < MonthStart(time.instant))
      && (time.Printable() ==> (MonthIndex(time.instant) < MonthIndex(at) <==> YearAt(time.instant) != 10000))
  {
    hide Period, DateOf, DayOf, Le, Lt, Run, Leading, MonthStart, Time.Printable;
    SealedBelowOwnInstant(sealer, window, first, acts, Period(time.instant));
    var at := Run(ServiceOf(sealer, window), Start(first), acts).store.checkpoints[Period(time.instant)].sealedAt;
    BucketBelow(time.instant, at);
    DateFields(DateOf(DayOf(time.instant)));
    DateFields(DateOf(DayOf(at)));
    if time.Printable() {
      PrintableYears(time);
    }
    if YearAt(time.instant) > 9999 {
      EarlierMonthEnds(at, time.instant);
    }
  }

  /** An instant of an earlier month comes before the month starts. */
  lemma EarlierMonthEnds(t: Instant, u: Instant)
    requires MonthIndex(t) < MonthIndex(u)
    ensures t < MonthStart(u)
  {
    hide DateOf, DaysOf, ValidDate, DayOf;
    var e := DateOf(DayOf(u));
    if MonthStart(u) <= t {
      MonthIndexAscends(MonthStart(u), t);
      DaysOnTheHour(DaysOf(FirstDay(e)));
      DateOfDaysOf(FirstDay(e));
      FirstDayMonth(e);
    }
  }

  lemma DaysOnTheHour(d: int)
    ensures DayOf(d * DAY) == d
  {
  }

  /** A sweep leaves a checkpoint for every month before its own that has rows, in years of up to four digits. */
  lemma EveryPastMonthSealed(sealer: Sealer, window: int, s: State, now: Instant, r: Record)
    requires FourDigitYear(now) && r in s.records
    requires YearAt(r.At()) <= 9999 && MonthIndex(r.At()) < MonthIndex(now)
    ensures Period(r.At()) in Sweep(ServiceOf(sealer, window), s, now).checkpoints
  {
    hide Period, DateOf, DayOf, Lt, Leading, Pending, SealAll, Purge, Attests, Ascending, Distinct, MonthIndex;
    BucketBelow(r.At(), now);
    var svc := ServiceOf(sealer, window);
    var pending := Pending(svc.bucketOf, s, svc.Before(now));
    PendingExact(svc.bucketOf, s, svc.Before(now));
    assert Occurs(svc.bucketOf, s, Period(r.At()));
    SealAllAdds(svc, s, pending, now);
    PurgeKeepsCheckpoints(svc.bucketOf, SealAll(svc, s, pending, now), svc.CutoffAt(now));
  }

  // ---- The retention window, from both sides ----

  /** The bucket of a year with more than four digits, against a cutoff in year `edge`. */
  predicate SortsEarly(t: Instant, edge: int)
  {
    YearAt(t) > 9999 && Leading(YearAt(t)) < edge
  }

  /**
   Over any run, whatever is swept, purged by hand, held or released, a record no
   older than the window is still there, unchanged, unless its year has more than
   four digits and sorts early.
   */
  lemma KeptWithinWindow(sealer: Sealer, window: int, s: Sys, acts: seq<Action>, first: Instant, r: Record)
    requires var svc := ServiceOf(sealer, window); var last := Run(svc, s, acts).clock;
      && Invariant(svc, s) && RunsSince(s, first) && ReadsSince(acts, first) && r in s.store.records
      && FourDigitYear(first - window) && FourDigitYear(last - window)
      && last - r.At() <= window && !SortsEarly(r.At(), YearAt(last - window))
    ensures r in Run(ServiceOf(sealer, window), s, acts).store.records
  {
    hide Period, DateOf, DayOf, Leading, Le, Run, Invariant, RunsSince, ReadsSince, MonthIndex, MonthStart;
    var svc := ServiceOf(sealer, window);
    var last := Run(svc, s, acts).clock;
    forall now | first <= now <= last ensures !Expired(svc.bucketOf, svc.CutoffAt(now), r) {
      FourDigitBetween(first - window, now - window, last - window);
      LaterIsNotEarlierMonth(last - window, now - window);
      CutoffBrackets(r.At(), now, window);
      NotLe(Period(r.At()), Cutoff(now, window));
    }
    YoungRecordsStay(svc, s, acts, first, r);
  }

  /**
   Which records within the window a purge deletes all the same: exactly the unheld
   ones whose long year sorts early. Of the times that a request can carry, these are
   the ones in UTC year 10000, under any cutoff after year 1000.
   */
  lemma YoungDeletedExactly(sealer: Sealer, window: int, s: Sys, a: Action, r: Record)
    requires TaskOk(ServiceOf(sealer, window), s) && Purges(s, a) && r in s.store.records
    requires FourDigitYear(PurgeInstant(s, a) - window) && PurgeInstant(s, a) - r.At() <= window
    ensures var gone := r !in Step(ServiceOf(sealer, window), s, a).store.records;
      var edge := YearAt(PurgeInstant(s, a) - window);
      && (gone <==> !Held(s.store.holds, r) && SortsEarly(r.At(), edge))
      && (r.envelope.occurredAt.Printable()
          ==> (gone <==> !Held(s.store.holds, r) && YearAt(r.At()) == 10000 && edge > 1000))
  {
    hide Period, DateOf, DayOf, Le, Step, Held, TaskOk;
    var now := PurgeInstant(s, a);
    RemovalIsPurge(ServiceOf(sealer, window), s, a, r);
    CutoffBrackets(r.At(), now, window);
    NotLe(Period(r.At()), Cutoff(now, window));
    if r.envelope.occurredAt.Printable() {
      PrintableYears(r.envelope.occurredAt);
      assert Leading(10000) == 1000;
    }
  }

  /** Right after a purge, a record that is still there is held or younger than the window and a month, whatever its year. */
  lemma GonePastWindow(sealer: Sealer, window: int, s: Sys, a: Action, r: Record)
    requires Purges(s, a) && FourDigitYear(PurgeInstant(s, a) - window)
    requires r in Step(ServiceOf(sealer, window), s, a).store.records
    ensures Held(s.store.holds, r) || PurgeInstant(s, a) - r.At() < window + 31 * DAY
  {
    hide Period, FourDigitYear, Le, Step, Held, YearAt, Leading;
    var now := PurgeInstant(s, a);
    SurvivorsAreYoungOrHeld(ServiceOf(sealer, window), s, a, r);
    CutoffBrackets(r.At(), now, window);
    NotLe(Period(r.At()), Cutoff(now, window));
  }

  // ---- A record the service accepts and deletes too early ----

  /** 9999-12-31T23:00:00-01:00, which is the first instant of year 10000 in UTC. */
  const FUTURE_TIME: Time := Time(3652059 * DAY, -60)

  const FUTURE: Envelope := Envelope(
    "e", FUTURE_TIME, [GDPR_ACCESS], "t", None, ["s"], None, "", "", "", "o", "", "", map[], "", "")

  lemma LastDayOfYear9999()
    ensures ValidDate(Date(9999, 12, 31)) && DaysOf(Date(9999, 12, 31)) == 3652058
  {
  }

  lemma FutureTimePrintable()
    ensures FUTURE_TIME.Printable() && YearAt(FUTURE_TIME.instant) == 10000
  {
    LastDayOfYear9999();
    DayOfYear10000();
    hide DaysOf, DateOf, ValidDate;
    assert FUTURE_TIME.Local() == 3652058 * DAY + 23 * 60 * MINUTE;
    DayOfDate(Date(9999, 12, 31), 23 * 60 * MINUTE);
  }

  lemma ShortRefValid()
    ensures ValidSubjectRef("s")
  {
    assert "s"[..0] == "";
    assert Utf8Length("s") == 1;
  }

  /** It decodes from its own JSON form, passes validation, and is clean as it stands. */
  lemma FutureRecordAccepted()
    ensures Unmarshal(Write(EnvelopeDoc(FUTURE), "", "")) == Some(FUTURE)
    ensures Validation(FUTURE) == None && Sanitized(FUTURE) == FUTURE
  {
    FutureTimePrintable();
    ShortRefValid();
    hide Unmarshal, Write, EnvelopeDoc, Time.Printable, ValidSubjectRef;
    EnvelopeSurvivesStorage(FUTURE, EnvelopeDoc(FUTURE), "");
    assert FUTURE.occurredAt.instant > 0;
    assert GDPR_ACCESS in FUTURE.categories;
    assert SanitizedAttributes(map[]) == map[];
  }

  /**
   The retention promise fails on it: posted to a new service and purged at once, it is
   gone, although it lies in the future of any cutoff between years 1001 and 9999.
   */
  lemma FutureRecordDeleted(sealer: Sealer, window: int, first: Instant, caller: string, system: string, rowId: string)
    requires FourDigitYear(first - window) && YearAt(first - window) > 1000
    ensures var svc := ServiceOf(sealer, window);
      var post := Post(RecordOf(sealer, FUTURE, caller, system), rowId);
      && |Run(svc, Start(first), [post]).store.records| == 1
      && Run(svc, Start(first), [post, ManualPurge(first)]).store.records == []
      && first - FUTURE.occurredAt.instant < window
  {
    hide Run, Step, YearAt, FourDigitYear, ServiceOf, Sanitized, Sealer.SealOf;
    FutureRecordAccepted();
    PostedThenPurged(sealer, window, first, RecordOf(sealer, FUTURE, caller, system), rowId);
  }

  lemma PostedThenPurged(sealer: Sealer, window: int, first: Instant, rec: Record, rowId: string)
    requires rec.envelope.occurredAt == FUTURE_TIME
    requires FourDigitYear(first - window) && YearAt(first - window) > 1000
    ensures var svc := ServiceOf(sealer, window);
      && |Run(svc, Start(first), [Post(rec, rowId)]).store.records| == 1
      && Run(svc, Start(first), [Post(rec, rowId), ManualPurge(first)]).store.records == []
      && first - FUTURE_TIME.instant < window
  {
    hide Period, YearAt, FourDigitYear, Run;
    var svc := ServiceOf(sealer, window);
    RunOne(svc, Start(first), Post(rec, rowId));
    RunTwo(svc, Start(first), Post(rec, rowId), ManualPurge(first));
    ListedKeeps(EMPTY, rec, rowId);
    PostedAlone(svc, first, rec, rowId);
    hide Step, Listed;
    FutureRowDeleted(sealer, window, Step(svc, Start(first), Post(rec, rowId)), Listed(EMPTY, rec, rowId));
  }

  lemma PostedAlone(svc: Service, first: Instant, rec: Record, rowId: string)
    ensures var posted := Step(svc, Start(first), Post(rec, rowId));
      && posted.store.records == [Listed(EMPTY, rec, rowId)] && posted.store.holds == {}
      && posted.task.Idle? && posted.clock == first
  {
    hide Listed;
  }

  lemma FutureRowDeleted(sealer: Sealer, window: int, s: Sys, r: Record)
    requires s.store.records == [r] && s.store.holds == {} && s.task.Idle?
    requires r.envelope.occurredAt == FUTURE_TIME
    requires FourDigitYear(s.clock - window) && YearAt(s.clock - window) > 1000
    ensures Step(ServiceOf(sealer, window), s, ManualPurge(s.clock)).store.records == []
    ensures s.clock - FUTURE_TIME.instant < window
  {
    FutureTimePrintable();
    hide Period, DateOf, DayOf, Le, Step, MonthIndex, MonthStart, Time.Printable;
    LaterIsNotEarlierMonth(FUTURE_TIME.instant, s.clock - window);
    YoungDeletedExactly(sealer, window, s, ManualPurge(s.clock), r);
    OnlyRowGone(ServiceOf(sealer, window), s, ManualPurge(s.clock), r);
  }

  lemma OnlyRowGone(svc: Service, s: Sys, a: Action, r: Record)
    requires s.store.records == [r] && !a.Post? && r !in Step(svc, s, a).store.records
    ensures Step(svc, s, a).store.records == []
  {
    hide Step;
    var rows := Step(svc, s, a).store.records;
    if rows != [] {
      NothingAdded(svc, s, a, rows[0]);
    }
  }

  lemma ListingSealsAll(svc: Service, s: Sys)
    requires s.task.Idle?
    ensures var pending := Pending(svc.bucketOf, s.store, svc.Before(s.clock));
      Run(svc, s, [SweepBegin, SweepList] + Rounds(|pending|))
      == Sys(s.clock, SealAll(svc, s.store, pending, s.clock), Sealing(s.clock, []))
  {
    hide Run, Step, Pending, SealAll, Rounds;
    var pending := Pending(svc.bucketOf, s.store, svc.Before(s.clock));
    RunAppends(svc, s, [SweepBegin, SweepList], Rounds(|pending|));
    OpeningLists(svc, s);
    RoundsSeal(svc, s.(task := Sealing(s.clock, pending)), s.clock, pending, |pending|);
    assert pending[..|pending|] == pending && pending[|pending|..] == [];
  }

  /** The actions of a new service that receives the record and runs the sealing half of a sweep. */
  function PostAndSeal(post: Action, n: nat): seq<Action>
  {
    [post] + ([SweepBegin, SweepList] + Rounds(n))
  }

  lemma PostedThenSealed(svc: Service, first: Instant, rec: Record, rowId: string)
    requires Lt(svc.bucketOf(rec.At()), svc.Before(first))
    ensures var s := Step(svc, Start(first), Post(rec, rowId));
      var n := |Pending(svc.bucketOf, s.store, svc.Before(first))|;
      var t := Run(svc, Start(first), PostAndSeal(Post(rec, rowId), n));
      t.clock == first && svc.bucketOf(rec.At()) in t.store.checkpoints
  {
    hide Run, Lt, Pending, SealAll, Rounds, Attests, Ascending, Distinct;
    var post := Post(rec, rowId);
    var s := Step(svc, Start(first), post);
    var pending := Pending(svc.bucketOf, s.store, svc.Before(first));
    RunOne(svc, Start(first), post);
    RunAppends(svc, Start(first), [post], [SweepBegin, SweepList] + Rounds(|pending|));
    PostedAlone(svc, first, rec, rowId);
    ListedKeeps(EMPTY, rec, rowId);
    var r := Listed(EMPTY, rec, rowId);
    assert r in s.store.records && r.At() == rec.At();
    assert s.store.checkpoints == map[];
    hide Step;
    ListingSealsAll(svc, s);
    assert Occurs(svc.bucketOf, s.store, svc.bucketOf(rec.At()));
    PendingExact(svc.bucketOf, s.store, svc.Before(first));
    SealAllAdds(svc, s.store, pending, first);
  }

  /**
   So a month is sealed before it begins: posted to a new service in any of the years
   1001 to 9999, the record's month, January 10000, has a checkpoint after the next
   listing and sealing.
   */
  lemma FutureMonthSealed(sealer: Sealer, window: int, first: Instant, caller: string, system: string, rowId: string)
    returns (acts: seq<Action>)
    requires FourDigitYear(first) && YearAt(first) > 1000
    ensures var t := Run(ServiceOf(sealer, window), Start(first), acts); var p := Period(FUTURE_TIME.instant);
      && Honest(sealer, acts)
      && t.clock == first && p in t.store.checkpoints
      && t.store.checkpoints[p].sealedAt == first < MonthStart(FUTURE_TIME.instant)
  {
    hide Run, Period, Step, Rounds, ServiceOf, Pending, Sanitized, Validation, Sealer.SealOf, FourDigitYear, YearAt, Lt;
    hide MonthStart, PostAndSeal, RecordOf, Honest;
    var svc := ServiceOf(sealer, window);
    var rec := RecordOf(sealer, FUTURE, caller, system);
    var n := |Pending(svc.bucketOf, Step(svc, Start(first), Post(rec, rowId)).store, svc.Before(first))|;
    FutureBelow(sealer, window, first, caller, system);
    PostedThenSealed(svc, first, rec, rowId);
    acts := PostAndSeal(Post(rec, rowId), n);
    FuturePostHonest(sealer, caller, system, rowId, n);
    FutureSealedAt(sealer, window, first, acts);
  }

  lemma FutureBelow(sealer: Sealer, window: int, first: Instant, caller: string, system: string)
    requires FourDigitYear(first) && YearAt(first) > 1000
    ensures var rec := RecordOf(sealer, FUTURE, caller, system); var svc := ServiceOf(sealer, window);
      && svc.bucketOf(rec.At()) == Period(FUTURE_TIME.instant)
      && Lt(svc.bucketOf(rec.At()), svc.Before(first))
  {
    hide Period, DateOf, DayOf, Lt, Sanitized, Sealer.SealOf, MonthIndex;
    FutureRecordAccepted();
    FutureTimePrintable();
    BucketBelow(FUTURE_TIME.instant, first);
    assert Leading(10000) == 1000;
  }

  lemma FuturePostHonest(sealer: Sealer, caller: string, system: string, rowId: string, n: nat)
    ensures Honest(sealer, PostAndSeal(Post(RecordOf(sealer, FUTURE, caller, system), rowId), n))
  {
    hide Validation, RecordOf, PostAndSeal;
    FutureRecordAccepted();
    var rec := RecordOf(sealer, FUTURE, caller, system);
    assert FromRequest(sealer, rec);
    hide FromRequest;
    PostsOnce(Post(rec, rowId), n);
  }

  lemma PostsOnce(post: Action, n: nat)
    ensures var acts := PostAndSeal(post, n);
      acts != [] && acts[0] == post && forall i :: 0 < i < |acts| ==> !acts[i].Post?
  {
    RoundsPostNothing(n);
    hide Rounds;
    var acts, rounds := PostAndSeal(post, n), Rounds(n);
    assert acts[3..] == rounds;
    forall i | 0 < i < |acts| ensures !acts[i].Post? {
      assert i >= 3 ==> acts[i] == rounds[i - 3];
    }
  }

  lemma {:induction false} RoundsPostNothing(n: nat)
    ensures forall i :: 0 <= i < |Rounds(n)| ==> !Rounds(n)[i].Post?
  {
    if n > 0 {
      RoundsPostNothing(n - 1);
    }
  }

  lemma FutureSealedAt(sealer: Sealer, window: int, first: Instant, acts: seq<Action>)
    requires FourDigitYear(first)
    requires var t := Run(ServiceOf(sealer, window), Start(first), acts);
      t.clock == first && Period(FUTURE_TIME.instant) in t.store.checkpoints
    ensures var t := Run(ServiceOf(sealer, window), Start(first), acts);
      t.store.checkpoints[Period(FUTURE_TIME.instant)].sealedAt == first < MonthStart(FUTURE_TIME.instant)
  {
    hide Run, Period, ServiceOf, FourDigitYear, YearAt, MonthStart, MonthIndex, Lt, Time.Printable;
    FutureTimePrintable();
    SealedBelowOwnInstant(sealer, window, first, acts, Period(FUTURE_TIME.instant));
    SealedMonthOverExactly(sealer, window, first, acts, FUTURE_TIME);
  }

  // ---- Checkpoint before deletion ----

  /**
   With calendar months and a non-negative window, what a sweep's purge deletes from a
   month without a checkpoint is exactly the unheld rows of untimely appends.
   */
  lemma SealedBeforeDeleted(sealer: Sealer, window: nat, s: Sys, acts: seq<Action>, r: Record)
    requires s.task.Begun? && FourDigitYear(s.task.now) && FourDigitYear(s.task.now - window) && Unfinished(acts)
    requires var svc := ServiceOf(sealer, window); var t := Run(svc, Step(svc, s, SweepList), acts);
      t.task.Sealing? && t.task.pending == [] && r in t.store.records
    ensures var svc := ServiceOf(sealer, window);
      var listed := Step(svc, s, SweepList); var t := Run(svc, listed, acts);
      (r !in Step(svc, t, SweepPurge).store.records && Period(r.At()) !in t.store.checkpoints)
       <==> !Held(t.store.holds, r) && CameLate(svc, listed, acts, r)
  {
    hide Period, FourDigitYear, Le, Step, Run, Unfinished, MonthIndex, Held, CameLate;
    PeriodOrder(s.task.now - window, s.task.now);
    DeletedUnsealedExactly(ServiceOf(sealer, window), s, acts, r);
  }

  /** An append dated within the window is untimely only if its long year sorts early. */
  lemma RecentPostsTimely(sealer: Sealer, window: int, s: Sys, rec: Record, rowId: string)
    requires s.task.Sealing? || s.task.Holding?
    requires rec.At() >= s.task.now - window && FourDigitYear(s.task.now - window)
    ensures Timely(ServiceOf(sealer, window), s, Post(rec, rowId)) || SortsEarly(rec.At(), YearAt(s.task.now - window))
  {
    hide Period, FourDigitYear, Le, MonthIndex, YearAt, Leading;
    CutoffBrackets(rec.At(), s.task.now, window);
    NotLe(Period(rec.At()), Cutoff(s.task.now, window));
  }

  /**
   The manual purge can lose a month: in a new service, a record older than the window
   and a month is deleted by hand without a trace, where a sweep would have left the
   checkpoint of its month.
   */
  lemma HandPurgeLosesMonth(sealer: Sealer, window: nat, first: Instant, rec: Record, rowId: string)
    requires FourDigitYear(first) && FourDigitYear(first - window) && first - rec.At() >= window + 31 * DAY
    ensures var svc := ServiceOf(sealer, window);
      var posted := Run(svc, Start(first), [Post(rec, rowId)]).store;
      var t := Run(svc, Start(first), [Post(rec, rowId), ManualPurge(first)]).store;
      && posted.records == [Listed(EMPTY, rec, rowId)] && t.records == [] && t.checkpoints == map[]
      && Sweep(svc, posted, first).records == [] && Period(rec.At()) in Sweep(svc, posted, first).checkpoints
  {
    hide Period, FourDigitYear, Le, Run, Sweep, MonthIndex, YearAt, Leading, Listed;
    CutoffBrackets(rec.At(), first, window);
    PeriodOrder(first - window, first);
    ManualPurgeLosesUnsealed(ServiceOf(sealer, window), first, rec, rowId);
  }

  // ---- Honest runs ----

  /** What `recordAccess` stores: sanitized, valid, and under the seal of its own envelope. */
  function Proper(sealer: Sealer): Property
  {
    (e: Envelope, seal: string) =>
      Clean(e.attributes) && Validation(e) == None && seal == sealer.SealOf(e)
  }

  /** Every append of the run comes from a request that passed validation. */
  ghost predicate Honest(sealer: Sealer, acts: seq<Action>)
  {
    forall i :: 0 <= i < |acts| && acts[i].Post? ==> FromRequest(sealer, acts[i].rec)
  }

  ghost predicate FromRequest(sealer: Sealer, rec: Record)
  {
    exists body, caller, system :: Validation(body) == None && rec == RecordOf(sealer, body, caller, system)
  }

  lemma RequestsAreProper(sealer: Sealer, rec: Record)
    requires FromRequest(sealer, rec)
    ensures Proper(sealer)(rec.envelope, rec.seal)
  {
    hide Clean, Validation, Sanitized, Sealer.SealOf;
    var body, caller, system :| Validation(body) == None && rec == RecordOf(sealer, body, caller, system);
    SanitizedIsClean(body);
  }

  /** In every state of an honest run, each row is sanitized, valid and under its own seal. */
  lemma HonestRowsProper(svc: Service, sealer: Sealer, first: Instant, acts: seq<Action>)
    requires Honest(sealer, acts)
    ensures AllRows(Proper(sealer), Run(svc, Start(first), acts).store)
    ensures AllPosts(SealedBy(sealer), acts)
  {
    hide Run, FromRequest, Clean, Validation, Sealer.SealOf;
    forall i | 0 <= i < |acts| && acts[i].Post? ensures Proper(sealer)(acts[i].rec.envelope, acts[i].rec.seal) {
      RequestsAreProper(sealer, acts[i].rec);
    }
    RunKeepsRows(svc, Start(first), acts, Proper(sealer));
  }

  /** The eleven digits, alone or with a dash after the first `k` of them. */
  predicate IsPersonalCode(x: string, d: string, k: nat)
    requires k <= |d|
  {
    x == d || x == d[..k] + "-" + d[k..]
  }

  /** In no state of an honest run does a row name a personal code as a data subject. */
  lemma NoPersonalCodeStored(svc: Service, sealer: Sealer, first: Instant, acts: seq<Action>, r: Record, d: string, k: nat)
    requires Honest(sealer, acts) && r in Run(svc, Start(first), acts).store.records
    requires |d| == 11 && AllDigits(d) && k <= 11
    ensures forall x :: x in r.envelope.dataSubjects ==> !IsPersonalCode(x, d, k)
  {
    hide Run, Honest, Sealer.SealOf, ValidSubjectRef, Clean, Validation;
    HonestRowsProper(svc, sealer, first, acts);
    assert Proper(sealer)(r.envelope, r.seal);
    AcceptedMeans(r.envelope);
    PersonalCodesRefused(d, k);
    forall x | x in r.envelope.dataSubjects ensures ValidSubjectRef(x) {
      var i :| 0 <= i < |r.envelope.dataSubjects| && r.envelope.dataSubjects[i] == x;
    }
  }

  /** The record touches the subject. */
  function Concerns(subject: string): Record -> bool
  {
    (r: Record) => subject in r.envelope.dataSubjects
  }

  /**
   End-to-end honesty: a subject's verification passes over the first 10000 of its
   records, and a subject's own request reports every row intact.
   */
  lemma HonestRunsVerify(svc: Service, sealer: Sealer, first: Instant, acts: seq<Action>, subject: string)
    requires Honest(sealer, acts)
    ensures var t := Run(svc, Start(first), acts).store; var rep := SubjectReport(sealer, t, subject);
      && rep.ok && rep.mismatches == []
      && rep.target == subject
      && rep.checked == Queries.MinNat(10000, |Filter(t.records, Concerns(subject))|)
  {
    hide Run, Proper, Sealer.Verify, Queries.BySubject, Filter;
    var t := Run(svc, Start(first), acts).store;
    FilterAgree(t.records, Queries.Asked(subject, 0, 0), Concerns(subject));
    HonestRowsProper(svc, sealer, first, acts);
    hide Honest;
    SubjectReportMeans(sealer, t, subject);
    var rows := Queries.BySubject(t, subject, 0, 0, VERIFY_LIMIT);
    forall r | r in rows ensures sealer.Verify(r.envelope, r.seal) {
      Queries.AnswersMatch(t, subject, 0, 0, VERIFY_LIMIT, r);
      ProperVerifies(sealer, r);
    }
    Queries.AnswerLength(t, subject, 0, 0, VERIFY_LIMIT);
  }

  lemma ProperVerifies(sealer: Sealer, r: Record)
    requires Proper(sealer)(r.envelope, r.seal)
    ensures sealer.Verify(r.envelope, r.seal)
  {
    hide Clean, Validation, Sealer.SealOf;
  }

  lemma HonestRunsAnswer(svc: Service, sealer: Sealer, first: Instant, acts: seq<Action>,
                         subject: string, from: Instant, to: Instant, limit: int)
    requires Honest(sealer, acts)
    ensures var answer := Dsar(sealer, Run(svc, Start(first), acts).store, subject, from, to, limit);
      && answer.count == |answer.records|
      && forall i :: 0 <= i < |answer.records| ==> answer.records[i].integrity == "ok"
  {
    hide Run, Proper, Sealer.Verify, Queries.BySubject;
    var t := Run(svc, Start(first), acts).store;
    HonestRowsProper(svc, sealer, first, acts);
    hide Honest;
    var rows := Queries.BySubject(t, subject, from, to, limit);
    forall i | 0 <= i < |rows| ensures sealer.Verify(rows[i].envelope, rows[i].seal) {
      Queries.AnswersMatch(t, subject, from, to, limit, rows[i]);
      ProperVerifies(sealer, rows[i]);
    }
  }

  /**
   What the period endpoint's answer means after any honest run: nothing is sealed for
   the month, or the answer counts the month's rows and is positive exactly while they
   are the same accesses, in event-id order, as when a sweep read them, unless a
   collision of the MAC is at hand.
   */
  lemma PeriodAnswerMeans(bucketOf: Bucketing, sealer: Sealer, window: int, first: Instant, acts: seq<Action>,
                          raw: string, p: string)
    returns (i: nat, was: seq<Envelope>)
    requires Honest(sealer, acts) && NormalizePeriod(raw) == Some(p)
    ensures var svc := ServiceWith(bucketOf, sealer, window);
      var t := Run(svc, Start(first), acts).store;
      var answer := PeriodAnswer(bucketOf, sealer, t, raw);
      && Valid(t)
      && (answer == Err(NotFound("checkpoint")) <==> p !in t.checkpoints)
      && (p in t.checkpoints ==>
            && answer.Ok? && answer.value.target == p && answer.value.checked == |Contents(bucketOf, t, p)|
            && Snapshot(svc, Start(first), acts, i, p, was)
            && (answer.value.ok <==> Verifies(svc, t, p)) && Compares(svc, sealer, t, p, was))
  {
    hide Run, SealsFor, Contents, SameContents, Collision, Snapshot, NormalizePeriod, Sealer.CheckpointOf, TaskOk;
    var svc := ServiceWith(bucketOf, sealer, window);
    var t := Run(svc, Start(first), acts).store;
    StartInvariant(svc, first);
    RunKeepsInvariant(svc, Start(first), acts);
    i, was := 0, [];
    if p in t.checkpoints {
      HonestRowsProper(svc, sealer, first, acts);
      ProperIsSealed(sealer, t);
      hide Store.Valid, AllRows, AllPosts, Honest, PeriodPasses;
      assert AllRows(SealedBy(sealer), Start(first).store) by { NoRows(SealedBy(sealer), first); }
      SealedPasses(bucketOf, sealer, t, p);
      SealsForContents(bucketOf, sealer, t, p);
      i, was := VerdictComparesContents(bucketOf, sealer, window, Start(first), acts, p);
    }
  }

  lemma ProperIsSealed(sealer: Sealer, t: State)
    requires AllRows(Proper(sealer), t)
    ensures AllRows(SealedBy(sealer), t)
  {
    hide Clean, Validation, Sealer.SealOf;
  }

  lemma NoRows(good: Property, first: Instant)
    ensures AllRows(good, Start(first).store)
  {
  }
}
