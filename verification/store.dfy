/**
 The contract of the record store, on values: what each operation answers and
 what it leaves behind.

 The operations see a record's time only through its retention bucket, so the
 bucketing is a parameter; the service's is `Calendar.Period`.
 */
module Store {
  import opened Wrappers
  import opened Seqs
  import opened Text
  import opened Calendar
  import opened Envelopes

  type Bucketing = Instant -> string

  datatype Record = Record(
    rowId: string,
    envelope: Envelope,
    seal: string,
    seqNo: nat,
    sourceService: string,
    system: string)
  {
    function Id(): string
    {
      envelope.eventId
    }

    function At(): Instant
    {
      envelope.occurredAt.instant
    }
  }

  datatype AppendResult = AppendResult(recordId: string, eventId: string, duplicate: bool)

  datatype Checkpoint = Checkpoint(period: string, rowCount: nat, seal: string, sealedAt: Instant)

  datatype PurgeResult = PurgeResult(cutoff: string, purged: nat, retainedUnderHold: nat)

  datatype State = State(
    records: seq<Record>,
    index: map<string, Record>,
    checkpoints: map<string, Checkpoint>,
    holds: set<string>)

  const EMPTY: State := State([], map[], map[], {})

  // ---- What every operation keeps ----

  predicate UniqueIds(records: seq<Record>)
  {
    forall i, j :: 0 <= i < j < |records| ==> records[i].Id() != records[j].Id()
  }

  /** The index holds exactly the listed records, each under its event id. */
  predicate Indexed(records: seq<Record>, index: map<string, Record>)
  {
    && (forall r :: r in records ==> r.Id() in index && index[r.Id()] == r)
    && (forall k :: k in index ==> index[k] in records && index[k].Id() == k)
  }

  predicate Valid(s: State)
  {
    UniqueIds(s.records) && Indexed(s.records, s.index)
  }

  // ---- Appending ----

  /** The record as listed: with its row id and the next sequence number. */
  function Listed(s: State, rec: Record, rowId: string): Record
  {
    rec.(rowId := rowId, seqNo := |s.records| + 1)
  }

  function Append(s: State, rec: Record, rowId: string): State
  {
    if rec.Id() in s.index then s
    else
      var r := Listed(s, rec, rowId);
      s.(records := s.records + [r], index := s.index[rec.Id() := r])
  }

  function AppendAnswer(s: State, rec: Record, rowId: string): AppendResult
  {
    if rec.Id() in s.index then AppendResult(s.index[rec.Id()].rowId, rec.Id(), true)
    else AppendResult(rowId, rec.Id(), false)
  }

  lemma AppendValid(s: State, rec: Record, rowId: string)
    requires Valid(s)
    ensures Valid(Append(s, rec, rowId))
  {
    if rec.Id() !in s.index {
      var r := Listed(s, rec, rowId);
      forall i | 0 <= i < |s.records| ensures s.records[i].Id() != r.Id() {
        assert s.records[i] in s.records;
      }
      assert forall x :: x in s.records + [r] <==> x in s.records || x == r;
    }
  }

  /** A retry is answered with the first attempt's row and changes nothing. */
  lemma AppendIdempotent(s: State, rec: Record, rowId: string, again: string)
    ensures Append(Append(s, rec, rowId), rec, again) == Append(s, rec, rowId)
    ensures var a, b := AppendAnswer(s, rec, rowId), AppendAnswer(Append(s, rec, rowId), rec, again);
      b.duplicate && b.recordId == a.recordId && b.eventId == a.eventId
  {
  }

  // ---- Checkpoints and holds ----

  function SaveCheckpoint(s: State, cp: Checkpoint, now: Instant): State
  {
    if cp.period in s.checkpoints then s
    else
      var stored := if IsZero(cp.sealedAt) then cp.(sealedAt := now) else cp;
      s.(checkpoints := s.checkpoints[cp.period := stored])
  }

  function LoadCheckpoint(s: State, period: string): Option<Checkpoint>
  {
    if period in s.checkpoints then Some(s.checkpoints[period]) else None
  }

  /** What is loaded for a period is what was saved for it first, stamped if it had no time; other periods are untouched. */
  lemma FirstSaveIsLoaded(s: State, first: Checkpoint, now: Instant, second: Checkpoint, later: Instant, p: string)
    requires first.period !in s.checkpoints
    ensures var t := SaveCheckpoint(SaveCheckpoint(s, first, now), second, later);
      && LoadCheckpoint(t, first.period)
         == Some(first.(sealedAt := if IsZero(first.sealedAt) then now else first.sealedAt))
      && (p != first.period && p != second.period ==> LoadCheckpoint(t, p) == LoadCheckpoint(s, p))
  {
  }

  function SetHold(s: State, subject: string, hold: bool): State
  {
    s.(holds := if hold then s.holds + {subject} else s.holds - {subject})
  }

  predicate Held(holds: set<string>, r: Record)
  {
    exists i :: 0 <= i < |r.envelope.dataSubjects| && r.envelope.dataSubjects[i] in holds
  }

  // ---- Purging ----

  predicate Expired(bucketOf: Bucketing, cutoff: string, r: Record)
  {
    !Le(cutoff, bucketOf(r.At()))
  }

  predicate Dropped(bucketOf: Bucketing, holds: set<string>, cutoff: string, r: Record)
  {
    Expired(bucketOf, cutoff, r) && !Held(holds, r)
  }

  function Drops(bucketOf: Bucketing, holds: set<string>, cutoff: string): Record -> bool
  {
    (r: Record) => Dropped(bucketOf, holds, cutoff, r)
  }

  function Keeps(bucketOf: Bucketing, holds: set<string>, cutoff: string): Record -> bool
  {
    (r: Record) => !Dropped(bucketOf, holds, cutoff, r)
  }

  function Retains(bucketOf: Bucketing, holds: set<string>, cutoff: string): Record -> bool
  {
    (r: Record) => Expired(bucketOf, cutoff, r) && Held(holds, r)
  }

  function Purge(bucketOf: Bucketing, s: State, cutoff: string): State
  {
    s.(records := Filter(s.records, Keeps(bucketOf, s.holds, cutoff)),
       index := map k | k in s.index && !Dropped(bucketOf, s.holds, cutoff, s.index[k]) :: s.index[k])
  }

  function PurgeAnswer(bucketOf: Bucketing, s: State, cutoff: string): PurgeResult
  {
    PurgeResult(cutoff, |Filter(s.records, Drops(bucketOf, s.holds, cutoff))|,
                |Filter(s.records, Retains(bucketOf, s.holds, cutoff))|)
  }

  lemma PurgeMembers(bucketOf: Bucketing, s: State, cutoff: string, r: Record)
    ensures r in Purge(bucketOf, s, cutoff).records <==> r in s.records && !Dropped(bucketOf, s.holds, cutoff, r)
  {
    FilterMember(s.records, Keeps(bucketOf, s.holds, cutoff), r);
  }

  lemma PurgeValid(bucketOf: Bucketing, s: State, cutoff: string)
    requires Valid(s)
    ensures Valid(Purge(bucketOf, s, cutoff))
  {
    hide Dropped;
    FilterKeepsDistinct(s.records, Keeps(bucketOf, s.holds, cutoff), (r: Record) => r.Id());
    forall r: Record
      ensures r in Purge(bucketOf, s, cutoff).records
        <==> r in s.records && !Dropped(bucketOf, s.holds, cutoff, r)
    {
      PurgeMembers(bucketOf, s, cutoff, r);
    }
  }

  /** A purged event id is forgotten, and only a purged one: recorded again, it is new. */
  lemma PurgedIdIsNew(bucketOf: Bucketing, s: State, cutoff: string, r: Record, again: Record, rowId: string)
    requires Valid(s) && r in s.records && again.Id() == r.Id()
    ensures var t := Purge(bucketOf, s, cutoff);
      !AppendAnswer(t, again, rowId).duplicate <==> Dropped(bucketOf, s.holds, cutoff, r)
  {
    hide UniqueIds, Dropped;
  }

  /** Every record is either still there or counted as purged. */
  lemma PurgeConserves(bucketOf: Bucketing, s: State, cutoff: string)
    ensures |Purge(bucketOf, s, cutoff).records| + PurgeAnswer(bucketOf, s, cutoff).purged == |s.records|
  {
    FilterSplits(s.records, Drops(bucketOf, s.holds, cutoff), Keeps(bucketOf, s.holds, cutoff));
  }

  function IsExpired(bucketOf: Bucketing, cutoff: string): Record -> bool
  {
    (r: Record) => Expired(bucketOf, cutoff, r)
  }

  /** What is reported as retained are the records past the cutoff that are still there. */
  lemma RetainedAreExpiredSurvivors(bucketOf: Bucketing, s: State, cutoff: string)
    ensures |Filter(Purge(bucketOf, s, cutoff).records, IsExpired(bucketOf, cutoff))|
         == PurgeAnswer(bucketOf, s, cutoff).retainedUnderHold
  {
    hide Expired, Held;
    FilterTwice(s.records, Keeps(bucketOf, s.holds, cutoff), IsExpired(bucketOf, cutoff),
                Retains(bucketOf, s.holds, cutoff));
  }

  /** The last hold on an expired record decides whether a purge leaves it: placed, it stays; cleared, it goes. */
  lemma LastHoldDecides(bucketOf: Bucketing, s: State, cutoff: string, subject: string, on: bool, r: Record)
    requires r in s.records && Expired(bucketOf, cutoff, r) && subject in r.envelope.dataSubjects
    requires forall x :: x in r.envelope.dataSubjects && x != subject ==> x !in s.holds
    ensures r in Purge(bucketOf, SetHold(s, subject, on), cutoff).records <==> on
  {
    hide Expired, Purge;
    var t := SetHold(s, subject, on);
    PurgeMembers(bucketOf, t, cutoff, r);
    if on {
      var i :| 0 <= i < |r.envelope.dataSubjects| && r.envelope.dataSubjects[i] == subject;
      assert r.envelope.dataSubjects[i] in t.holds;
    }
  }

  function Later(c: string, d: string): string
  {
    if Le(c, d) then d else c
  }

  lemma ExpiredByLater(bucketOf: Bucketing, c: string, d: string, r: Record)
    ensures Expired(bucketOf, Later(c, d), r) <==> Expired(bucketOf, c, r) || Expired(bucketOf, d, r)
  {
    hide Le;
    var p := bucketOf(r.At());
    LeTotal(c, d);
    if Le(c, d) {
      if Le(d, p) { LeTransitive(c, d, p); }
    } else {
      if Le(c, p) { LeTransitive(d, c, p); }
    }
  }

  /**
   Purges compose: two in a row leave the records, order and index that one with
   the later cutoff leaves, and their counts add up to its count.
   */
  lemma PurgesCompose(bucketOf: Bucketing, s: State, c: string, d: string)
    ensures var once := Purge(bucketOf, s, c);
      && Purge(bucketOf, once, d) == Purge(bucketOf, s, Later(c, d))
      && PurgeAnswer(bucketOf, s, c).purged + PurgeAnswer(bucketOf, once, d).purged
         == PurgeAnswer(bucketOf, s, Later(c, d)).purged
  {
    hide Later, Expired, Held;
    var once, e := Purge(bucketOf, s, c), Later(c, d);
    forall r: Record
      ensures Dropped(bucketOf, s.holds, e, r)
        <==> Dropped(bucketOf, s.holds, c, r) || Dropped(bucketOf, s.holds, d, r)
    {
      ExpiredByLater(bucketOf, c, d, r);
    }
    FilterTwice(s.records, Keeps(bucketOf, s.holds, c), Keeps(bucketOf, s.holds, d), Keeps(bucketOf, s.holds, e));
    assert Purge(bucketOf, once, d).index == Purge(bucketOf, s, e).index;
    PurgeConserves(bucketOf, s, c);
    PurgeConserves(bucketOf, once, d);
    PurgeConserves(bucketOf, s, e);
  }

  /** Purging again deletes nothing and reports the same records as held. */
  lemma PurgeAgain(bucketOf: Bucketing, s: State, c: string)
    ensures var once := Purge(bucketOf, s, c);
      && Purge(bucketOf, once, c) == once
      && PurgeAnswer(bucketOf, once, c) == PurgeAnswer(bucketOf, s, c).(purged := 0)
  {
    hide Expired, Held;
    var once := Purge(bucketOf, s, c);
    assert Later(c, c) == c;
    PurgesCompose(bucketOf, s, c, c);
    FilterTwice(s.records, Keeps(bucketOf, s.holds, c), Retains(bucketOf, s.holds, c), Retains(bucketOf, s.holds, c));
  }

  // ---- The rows of a period ----

  function InPeriod(bucketOf: Bucketing, period: string): Record -> bool
  {
    (r: Record) => bucketOf(r.At()) == period
  }

  function PeriodRows(bucketOf: Bucketing, s: State, period: string): seq<Record>
  {
    Filter(s.records, InPeriod(bucketOf, period))
  }

  function SealMap(rows: seq<Record>): map<string, string>
  {
    if rows == [] then map[] else SealMap(rows[..|rows| - 1])[rows[|rows| - 1].Id() := rows[|rows| - 1].seal]
  }

  function Select(keys: seq<string>, m: map<string, string>): seq<string>
    requires forall k :: k in keys ==> k in m
  {
    seq(|keys|, i requires 0 <= i < |keys| => assert keys[i] in keys; m[keys[i]])
  }

  /** Seals in the order of their event ids. */
  function InIdOrder(m: map<string, string>): seq<string>
  {
    SortedListsSet(m.Keys);
    Select(Sorted(m.Keys), m)
  }

  function SealsFor(bucketOf: Bucketing, s: State, period: string): seq<string>
  {
    InIdOrder(SealMap(PeriodRows(bucketOf, s, period)))
  }

  function IdsOf(rows: seq<Record>): set<string>
  {
    set r | r in rows :: r.Id()
  }

  lemma LastIsNew(rows: seq<Record>)
    requires UniqueIds(rows) && rows != []
    ensures var front, last := rows[..|rows| - 1], rows[|rows| - 1];
      && (forall r :: r in rows <==> r in front || r == last)
      && (forall r :: r in front ==> r.Id() != last.Id())
      && UniqueIds(front)
  {
    assert rows == rows[..|rows| - 1] + [rows[|rows| - 1]];
  }

  lemma {:induction false} SealMapHolds(rows: seq<Record>)
    requires UniqueIds(rows)
    ensures SealMap(rows).Keys == IdsOf(rows)
    ensures forall r :: r in rows ==> SealMap(rows)[r.Id()] == r.seal
  {
    if rows != [] {
      LastIsNew(rows);
      hide UniqueIds;
      SealMapHolds(rows[..|rows| - 1]);
    }
  }

  lemma PeriodRowsUnique(bucketOf: Bucketing, s: State, period: string)
    requires Valid(s)
    ensures UniqueIds(PeriodRows(bucketOf, s, period))
  {
    FilterKeepsDistinct(s.records, InPeriod(bucketOf, period), (r: Record) => r.Id());
  }

  /** The period has a row with this event id and this seal. */
  predicate HasRow(bucketOf: Bucketing, s: State, period: string, id: string, seal: string)
  {
    exists r :: r in s.records && bucketOf(r.At()) == period && r.Id() == id && r.seal == seal
  }

  lemma SealMapIsHasRow(bucketOf: Bucketing, s: State, period: string, id: string, seal: string)
    requires Valid(s)
    ensures var m := SealMap(PeriodRows(bucketOf, s, period));
      (id in m && m[id] == seal) <==> HasRow(bucketOf, s, period, id, seal)
  {
    hide Indexed, UniqueIds, SealMap;
    var rows := PeriodRows(bucketOf, s, period);
    PeriodRowsUnique(bucketOf, s, period);
    SealMapHolds(rows);
    FilterMembers(s.records, InPeriod(bucketOf, period));
    hide PeriodRows, Filter;
    if id in SealMap(rows) {
      assert id in IdsOf(rows);
    }
    if HasRow(bucketOf, s, period, id, seal) {
      var r :| r in s.records && bucketOf(r.At()) == period && r.Id() == id && r.seal == seal;
      assert InPeriod(bucketOf, period)(r);
      assert r in rows && id in IdsOf(rows);
    }
  }

  /**
   The seals of a period are a function of its set of event ids with their seals: two
   stores that agree on it list the same seals, whatever order their rows came in and
   whatever numbers and row ids they were given.
   */
  lemma SealsIgnoreHistory(bucketOf: Bucketing, s: State, t: State, period: string)
    requires Valid(s) && Valid(t)
    requires forall id, seal :: HasRow(bucketOf, s, period, id, seal) <==> HasRow(bucketOf, t, period, id, seal)
    ensures SealsFor(bucketOf, s, period) == SealsFor(bucketOf, t, period)
  {
    hide Valid, SealMap, HasRow, PeriodRows;
    var a, b := SealMap(PeriodRows(bucketOf, s, period)), SealMap(PeriodRows(bucketOf, t, period));
    forall id | id in a ensures id in b && b[id] == a[id] {
      SealMapIsHasRow(bucketOf, s, period, id, a[id]);
      SealMapIsHasRow(bucketOf, t, period, id, a[id]);
    }
    forall id | id in b ensures id in a {
      SealMapIsHasRow(bucketOf, s, period, id, b[id]);
      SealMapIsHasRow(bucketOf, t, period, id, b[id]);
    }
    assert a == b;
  }

  /** In particular, two rows of a period may be appended in either order. */
  lemma OrderOfAppendsIrrelevant(bucketOf: Bucketing, s: State, a: Record, b: Record, rowA: string, rowB: string, p: string)
    requires Valid(s) && a.Id() != b.Id()
    ensures SealsFor(bucketOf, Append(Append(s, a, rowA), b, rowB), p)
         == SealsFor(bucketOf, Append(Append(s, b, rowB), a, rowA), p)
  {
    hide UniqueIds, Indexed, SealsFor, HasRow;
    var sa, sb := Append(s, a, rowA), Append(s, b, rowB);
    AppendValid(s, a, rowA);
    AppendValid(s, b, rowB);
    AppendValid(sa, b, rowB);
    AppendValid(sb, a, rowA);
    forall id, seal ensures HasRow(bucketOf, Append(sa, b, rowB), p, id, seal)
                       <==> HasRow(bucketOf, Append(sb, a, rowA), p, id, seal) {
      AppendedRow(bucketOf, s, a, rowA, p, id, seal);
      AppendedRow(bucketOf, s, b, rowB, p, id, seal);
      AppendedRow(bucketOf, sa, b, rowB, p, id, seal);
      AppendedRow(bucketOf, sb, a, rowA, p, id, seal);
    }
    SealsIgnoreHistory(bucketOf, Append(sa, b, rowB), Append(sb, a, rowA), p);
  }

  lemma AppendedRow(bucketOf: Bucketing, s: State, rec: Record, rowId: string, p: string, id: string, seal: string)
    ensures HasRow(bucketOf, Append(s, rec, rowId), p, id, seal)
       <==> (HasRow(bucketOf, s, p, id, seal)
             || (rec.Id() !in s.index && bucketOf(rec.At()) == p && rec.Id() == id && rec.seal == seal))
  {
    var t, r := Append(s, rec, rowId), Listed(s, rec, rowId);
    assert r.Id() == rec.Id() && r.At() == rec.At() && r.seal == rec.seal;
    assert forall x :: x in s.records ==> x in t.records;
    if rec.Id() !in s.index {
      assert r in t.records;
    }
  }

  // ---- Periods waiting for a checkpoint ----

  predicate Waits(bucketOf: Bucketing, s: State, before: string, r: Record)
  {
    !Le(before, bucketOf(r.At())) && bucketOf(r.At()) !in s.checkpoints
  }

  function PendingIn(bucketOf: Bucketing, s: State, before: string, rows: seq<Record>): set<string>
  {
    set r | r in rows && Waits(bucketOf, s, before, r) :: bucketOf(r.At())
  }

  function PendingSet(bucketOf: Bucketing, s: State, before: string): set<string>
  {
    PendingIn(bucketOf, s, before, s.records)
  }

  function Pending(bucketOf: Bucketing, s: State, before: string): seq<string>
  {
    Sorted(PendingSet(bucketOf, s, before))
  }

  predicate Occurs(bucketOf: Bucketing, s: State, period: string)
  {
    exists r :: r in s.records && bucketOf(r.At()) == period
  }

  /** The closed periods that hold records and lack a checkpoint: each once, in order, no others. */
  lemma PendingExact(bucketOf: Bucketing, s: State, before: string)
    ensures Ascending(Pending(bucketOf, s, before)) && Distinct(Pending(bucketOf, s, before))
    ensures forall p :: (p in Pending(bucketOf, s, before)
                         <==> Lt(p, before) && p !in s.checkpoints && Occurs(bucketOf, s, p))
  {
    hide Ascending, Distinct, Le, Lt;
    SortedListsSet(PendingSet(bucketOf, s, before));
    forall p: string ensures !Le(before, p) <==> Lt(p, before) {
      NotLe(p, before);
    }
    forall p | Lt(p, before) && p !in s.checkpoints && Occurs(bucketOf, s, p)
      ensures p in PendingSet(bucketOf, s, before)
    {
      var r :| r in s.records && bucketOf(r.At()) == p;
      assert Waits(bucketOf, s, before, r);
    }
  }
}
