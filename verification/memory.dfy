/** The in-memory store: each method is one critical section of the source's mutex. */
module MemoryStore {
  import opened Wrappers
  import opened Seqs
  import opened Text
  import opened Calendar
  import opened Store
  import Queries

  datatype VerifyEvent = VerifyEvent(
    ts: Instant,
    ip: string,
    userAgent: string,
    sizeBytes: int,
    sha256: string,
    verdict: string,
    correlationId: string,
    sessionId: string,
    sourceService: string)

  datatype VerifySweepResult = VerifySweepResult(cutoff: Instant, purged: nat)

  /** What a retention sweep of the verify events keeps. */
  function NotBefore(cutoff: Instant): VerifyEvent -> bool
  {
    (ev: VerifyEvent) => !(ev.ts < cutoff)
  }

  // ---- Library sorts, known only by what they promise ----

  /** `sort.SliceStable` with the order of `BySubject`. */
  method SliceStable(s: seq<Record>) returns (out: seq<Record>)
    ensures Queries.StablySorts(out, s)
  {
    Queries.StableSortCorrect(s);
    out := Queries.StableSort(s);
  }

  datatype IdSeal = IdSeal(eventId: string, seal: string)

  function Ids(rows: seq<IdSeal>): (ids: seq<string>)
    ensures |ids| == |rows|
  {
    seq(|rows|, i requires 0 <= i < |rows| => rows[i].eventId)
  }

  function SealsIn(rows: seq<IdSeal>): seq<string>
  {
    seq(|rows|, i requires 0 <= i < |rows| => rows[i].seal)
  }

  function IdSeals(rows: seq<Record>): seq<IdSeal>
  {
    seq(|rows|, i requires 0 <= i < |rows| => IdSeal(rows[i].Id(), rows[i].seal))
  }

  function InsertById(x: IdSeal, s: seq<IdSeal>): seq<IdSeal>
  {
    if s == [] || Le(x.eventId, s[0].eventId) then [x] + s else [s[0]] + InsertById(x, s[1..])
  }

  lemma IdsCons(x: IdSeal, s: seq<IdSeal>)
    ensures Ids([x] + s) == [x.eventId] + Ids(s)
  {
  }

  lemma {:induction false} InsertByIdSorts(x: IdSeal, s: seq<IdSeal>)
    ensures Ids(InsertById(x, s)) == Insert(x.eventId, Ids(s))
    ensures multiset(InsertById(x, s)) == multiset{x} + multiset(s)
  {
    hide Le, Ids;
    if s == [] || Le(x.eventId, s[0].eventId) {
      IdsCons(x, s);
      assert |Ids(s)| == |s|;
      if s != [] {
        IdsCons(s[0], s[1..]);
        assert s == [s[0]] + s[1..];
      }
    } else {
      InsertByIdSorts(x, s[1..]);
      IdsCons(s[0], s[1..]);
      IdsCons(s[0], InsertById(x, s[1..]));
      assert s == [s[0]] + s[1..];
      assert Ids(s)[1..] == Ids(s[1..]);
    }
  }

  lemma InsertByIdAscends(x: IdSeal, s: seq<IdSeal>)
    requires Ascending(Ids(s))
    ensures Ascending(Ids(InsertById(x, s)))
    ensures multiset(InsertById(x, s)) == multiset{x} + multiset(s)
  {
    hide Le, Ascending, InsertById, Ids;
    InsertByIdSorts(x, s);
    InsertSorts(x.eventId, Ids(s));
  }

  /** `sort.Slice` by event id: rows with one id may come out in either order. */
  method SliceByEventId(rows: seq<IdSeal>) returns (out: seq<IdSeal>)
    ensures multiset(out) == multiset(rows) && Ascending(Ids(out))
  {
    hide Le, InsertById;
    out := [];
    assert Ids(out) == [];
    hide Ids, Ascending;
    for i := 0 to |rows|
      invariant multiset(out) == multiset(rows[..i]) && Ascending(Ids(out))
    {
      InsertByIdAscends(rows[i], out);
      out := InsertById(rows[i], out);
      assert rows[..i + 1] == rows[..i] + [rows[i]];
    }
    assert rows[..|rows|] == rows;
  }

  lemma RemoveAt(s: seq<IdSeal>, j: nat)
    requires j < |s|
    ensures multiset(s) == multiset(s[..j] + s[j + 1..]) + multiset{s[j]}
    ensures multiset(Ids(s)) == multiset(Ids(s[..j] + s[j + 1..])) + multiset{s[j].eventId}
  {
    assert s == s[..j] + [s[j]] + s[j + 1..];
    var ids := Ids(s);
    assert ids == ids[..j] + [ids[j]] + ids[j + 1..];
    assert Ids(s[..j] + s[j + 1..]) == ids[..j] + ids[j + 1..];
  }

  lemma DropsAlike(a: seq<IdSeal>, b: seq<IdSeal>, j: nat)
    requires a != [] && multiset(a) == multiset(b) && j < |b| && b[j] == a[0]
    ensures multiset(a[1..]) == multiset(b[..j] + b[j + 1..])
  {
    RemoveAt(b, j);
    assert a == [a[0]] + a[1..];
    assert multiset(a[1..]) == multiset(a) - multiset{a[0]};
    assert multiset(b[..j] + b[j + 1..]) == multiset(b) - multiset{b[j]};
  }

  lemma IdsOfTail(a: seq<IdSeal>)
    requires a != []
    ensures multiset(Ids(a)) == multiset{a[0].eventId} + multiset(Ids(a[1..]))
  {
    assert Ids(a) == [a[0].eventId] + Ids(a[1..]);
  }

  lemma {:induction false} SameRowsSameIds(a: seq<IdSeal>, b: seq<IdSeal>)
    requires multiset(a) == multiset(b)
    ensures multiset(Ids(a)) == multiset(Ids(b))
    decreases |a|
  {
    if a != [] {
      assert a[0] in multiset(b);
      var j :| 0 <= j < |b| && b[j] == a[0];
      hide Ids;
      IdsOfTail(a);
      RemoveAt(b, j);
      DropsAlike(a, b, j);
      SameRowsSameIds(a[1..], b[..j] + b[j + 1..]);
    } else {
      assert |multiset(b)| == 0;
    }
  }

  lemma IdsAppend(rows: seq<Record>)
    requires rows != []
    ensures Ids(IdSeals(rows)) == Ids(IdSeals(rows[..|rows| - 1])) + [rows[|rows| - 1].Id()]
  {
  }

  lemma KeysAppend(rows: seq<Record>)
    requires rows != [] && UniqueIds(rows)
    ensures var front, last := rows[..|rows| - 1], rows[|rows| - 1];
      UniqueIds(front) && last.Id() !in SealMap(front) && SealMap(rows).Keys == SealMap(front).Keys + {last.Id()}
  {
    var front, last := rows[..|rows| - 1], rows[|rows| - 1];
    LastIsNew(rows);
    hide UniqueIds;
    SealMapHolds(front);
    assert last.Id() !in IdsOf(front);
  }

  lemma {:induction false} IdsAreKeys(rows: seq<Record>)
    requires UniqueIds(rows)
    ensures multiset(Ids(IdSeals(rows))) == multiset(SealMap(rows).Keys)
  {
    if rows == [] {
      assert Ids(IdSeals(rows)) == [];
    } else {
      hide Ids, IdSeals, SealMap, UniqueIds;
      KeysAppend(rows);
      IdsAppend(rows);
      IdsAreKeys(rows[..|rows| - 1]);
      DisjointKey(SealMap(rows[..|rows| - 1]).Keys, rows[|rows| - 1].Id());
    }
  }

  lemma DisjointKey(keys: set<string>, k: string)
    requires k !in keys
    ensures multiset(keys + {k}) == multiset(keys) + multiset{k}
  {
  }

  lemma RowHasItsSeal(rows: seq<Record>, x: IdSeal)
    requires UniqueIds(rows) && x in multiset(IdSeals(rows))
    ensures x.eventId in SealMap(rows) && SealMap(rows)[x.eventId] == x.seal
  {
    hide SealMap, UniqueIds;
    SealMapHolds(rows);
    var i :| 0 <= i < |IdSeals(rows)| && IdSeals(rows)[i] == x;
    assert rows[i] in rows && rows[i].Id() in IdsOf(rows);
  }

  /** Any arrangement `sort.Slice` may produce has the same seals, because no two rows share an id. */
  lemma ArrangementIrrelevant(rows: seq<Record>, out: seq<IdSeal>)
    requires UniqueIds(rows)
    requires multiset(out) == multiset(IdSeals(rows)) && Ascending(Ids(out))
    ensures SealsIn(out) == InIdOrder(SealMap(rows))
  {
    hide SealMap, UniqueIds, Sorted, Ascending, Distinct;
    var m := SealMap(rows);
    SameRowsSameIds(out, IdSeals(rows));
    IdsAreKeys(rows);
    SortedUnique(Ids(out), m.Keys);
    SortedListsSet(m.Keys);
    forall i | 0 <= i < |out| ensures out[i].eventId in m && m[out[i].eventId] == out[i].seal {
      assert out[i] in multiset(out);
      RowHasItsSeal(rows, out[i]);
    }
  }

  /** Subjects under legal hold: a hold is a key with a true value. */
  function HoldSet(holds: map<string, bool>): set<string>
  {
    set s | s in holds && holds[s]
  }

  class Memory {
    var byEventId: map<string, Record>
    var records: seq<Record>
    var checkpoints: map<string, Checkpoint>
    var holds: map<string, bool>
    var verifyEvents: array<VerifyEvent>
    var verifyLen: nat

    /** The store's contents as a value. */
    ghost function Abs(): State
      reads this
    {
      State(records, byEventId, checkpoints, HoldSet(holds))
    }

    ghost predicate Valid()
      reads this
    {
      Store.Valid(Abs()) && verifyLen <= verifyEvents.Length
    }

    ghost function Events(): seq<VerifyEvent>
      requires Valid()
      reads this, verifyEvents
    {
      verifyEvents[..verifyLen]
    }

    constructor ()
      ensures Valid() && Abs() == EMPTY && Events() == []
      ensures fresh(verifyEvents)
    {
      byEventId, records, checkpoints, holds := map[], [], map[], map[];
      verifyEvents, verifyLen := new VerifyEvent[0], 0;
    }

    method Append(rec: Record, rowId: string) returns (res: AppendResult)
      requires Valid()
      modifies `byEventId, `records
      ensures Valid() && Abs() == Store.Append(old(Abs()), rec, rowId)
      ensures res == AppendAnswer(old(Abs()), rec, rowId)
    {
      AppendValid(Abs(), rec, rowId);
      hide Store.Valid;
      var eid := rec.envelope.eventId;
      if eid in byEventId {
        return AppendResult(byEventId[eid].rowId, eid, true);
      }
      var cp := rec.(rowId := rowId, seqNo := |records| + 1);
      records := records + [cp];
      byEventId := byEventId[eid := cp];
      res := AppendResult(cp.rowId, eid, false);
    }

    method BySubject(subject: string, from: Instant, to: Instant, limit: int) returns (out: seq<Record>)
      requires Valid()
      ensures out == Queries.BySubject(Abs(), subject, from, to, limit)
    {
      hide Store.Valid, HoldSet, Queries.StableSort, Queries.StablySorts;
      var effective := if limit <= 0 then 1000 else limit;
      var found := [];
      for i := 0 to |records|
        invariant found == Filter(records[..i], Queries.Matches(subject, from, to))
      {
        FilterStep(records, i, Queries.Matches(subject, from, to));
        var r := records[i];
        if subject !in r.envelope.dataSubjects { continue; }
        if !IsZero(from) && r.At() < from { continue; }
        if !IsZero(to) && r.At() > to { continue; }
        found := found + [r];
      }
      assert records[..|records|] == records;
      out := SliceStable(found);
      Queries.StablySortsUnique(out, found);
      if |out| > effective {
        out := out[..effective];
      }
    }

    method SealsForPeriod(period: string) returns (seals: seq<string>, count: nat)
      requires Valid()
      ensures seals == SealsFor(Period, Abs(), period) && count == |seals|
    {
      PeriodRowsUnique(Period, Abs(), period);
      hide Store.Valid, HoldSet, Period, SealMap, UniqueIds, Ascending, InIdOrder, RowsIn, Filter;
      var rows := RowsOfPeriod(period);
      RowsAll(Period, Abs(), period);
      rows := SliceByEventId(rows);
      seals := [];
      for i := 0 to |rows|
        invariant seals == SealsIn(rows)[..i]
      {
        seals := seals + [rows[i].seal];
      }
      ArrangementIrrelevant(PeriodRows(Period, Abs(), period), rows);
      count := |seals|;
    }

    /** The first loop of `SealsForPeriod`. */
    method RowsOfPeriod(period: string) returns (rows: seq<IdSeal>)
      ensures rows == RowsIn(Period, records, period)
    {
      hide Period, RowsIn;
      rows := [];
      RowsNone(Period, records[..0], period);
      for i := 0 to |records|
        invariant rows == RowsIn(Period, records[..i], period)
      {
        RowsStep(Period, records, i, period);
        if Period(records[i].envelope.occurredAt.instant) == period {
          rows := rows + [IdSeal(records[i].envelope.eventId, records[i].seal)];
        }
      }
      assert records[..|records|] == records;
    }

    method PendingCheckpointPeriods(before: string) returns (out: seq<string>)
      requires Valid()
      ensures out == Pending(Period, Abs(), before)
    {
      hide Store.Valid, HoldSet, Period, Le, Sorted, Sort, PendingIn;
      var seen: map<string, bool> := map[];
      ghost var s := Abs();
      PendingNone(Period, s, before);
      for i := 0 to |records|
        invariant seen.Keys == PendingIn(Period, s, before, records[..i])
      {
        PendingStep(Period, s, before, records, i);
        var p := Period(records[i].envelope.occurredAt.instant);
        if Le(before, p) { continue; }
        if p in checkpoints { continue; }
        seen := seen[p := true];
      }
      assert records[..|records|] == records;
      out := KeysOf(seen);
      out := SortStrings(out);
      SortedUnique(out, seen.Keys);
    }

    method SaveCheckpoint(cp: Checkpoint, now: Instant) returns (created: bool)
      requires Valid()
      modifies `checkpoints
      ensures Valid() && Abs() == Store.SaveCheckpoint(old(Abs()), cp, now)
      ensures created == (cp.period !in old(Abs()).checkpoints)
    {
      if cp.period in checkpoints {
        return false;
      }
      var stored := cp;
      if IsZero(stored.sealedAt) {
        stored := stored.(sealedAt := now);
      }
      checkpoints := checkpoints[cp.period := stored];
      created := true;
    }

    method LoadCheckpoint(period: string) returns (cp: Option<Checkpoint>)
      requires Valid()
      ensures cp == Store.LoadCheckpoint(Abs(), period)
    {
      cp := if period in checkpoints then Some(checkpoints[period]) else None;
    }

    method SetLegalHold(subject: string, hold: bool)
      requires Valid()
      modifies `holds
      ensures Valid() && Abs() == SetHold(old(Abs()), subject, hold)
    {
      if hold {
        holds := holds[subject := true];
      } else {
        holds := holds - {subject};
      }
    }

    method HeldLocked(r: Record) returns (held: bool)
      ensures held == Held(HoldSet(holds), r)
    {
      var subjects := r.envelope.dataSubjects;
      for i := 0 to |subjects|
        invariant forall j :: 0 <= j < i ==> subjects[j] !in HoldSet(holds)
      {
        if subjects[i] in holds && holds[subjects[i]] {
          return true;
        }
      }
      held := false;
    }

    method PurgeExpired(cutoff: string) returns (res: PurgeResult)
      requires Valid()
      modifies `byEventId, `records
      ensures Valid() && Abs() == Purge(Period, old(Abs()), cutoff)
      ensures res == PurgeAnswer(Period, old(Abs()), cutoff)
    {
      ghost var s := Abs();
      PurgeValid(Period, s, cutoff);
      PurgedAll(Period, s, cutoff);
      hide Period, Store.Valid, Purged, Purge, PurgeAnswer, HoldSet;
      var kept, purged, retained := PurgeRows(cutoff);
      records := kept;
      res := PurgeResult(cutoff, purged, retained);
    }

    /** The loop of `PurgeExpired`: counts, collects what stays, and deletes from the index as it goes. */
    method PurgeRows(cutoff: string) returns (kept: seq<Record>, purged: nat, retained: nat)
      requires Valid()
      modifies `byEventId
      ensures Progress(kept, byEventId, purged, retained) == Purged(Period, old(Abs()), cutoff, |records|)
    {
      hide Period, Le, Store.Valid, Purged, Held, HoldSet;
      ghost var s := Abs();
      kept, purged, retained := [], 0, 0;
      PurgedNone(Period, s, cutoff);
      for i := 0 to |records|
        modifies `byEventId
        invariant Purged(Period, s, cutoff, i) == Progress(kept, byEventId, purged, retained)
      {
        var r := records[i];
        PurgedStep(Period, s, cutoff, i, r, Purged(Period, s, cutoff, i));
        var period := Period(r.envelope.occurredAt.instant);
        if Le(cutoff, period) {
          kept := kept + [r];
          continue;
        }
        var held := HeldLocked(r);
        if held {
          retained := retained + 1;
          kept := kept + [r];
          continue;
        }
        purged := purged + 1;
        byEventId := byEventId - {r.envelope.eventId};
      }
    }

    method AppendVerifyEvent(ev: VerifyEvent, id: string) returns (answer: string)
      requires Valid()
      modifies this`verifyEvents, this`verifyLen, verifyEvents
      ensures Valid() && Events() == old(Events()) + [ev] && Abs() == old(Abs())
      ensures verifyEvents == old(verifyEvents) || fresh(verifyEvents)
      ensures answer == id
    {
      hide Store.Valid;
      if verifyLen == verifyEvents.Length {
        var bigger := new VerifyEvent[2 * verifyLen + 1](_ => ev);
        forall i | 0 <= i < verifyLen {
          bigger[i] := verifyEvents[i];
        }
        verifyEvents := bigger;
      }
      verifyEvents[verifyLen] := ev;
      verifyLen := verifyLen + 1;
      assert verifyEvents[..verifyLen] == verifyEvents[..verifyLen - 1] + [ev];
      answer := id;
    }

    /** Compacts in place: survivors move down in the same backing array. */
    method SweepVerifyExpired(now: Instant, retentionDays: int) returns (res: VerifySweepResult)
      requires Valid()
      modifies this`verifyLen, verifyEvents
      ensures Valid() && Abs() == old(Abs())
      ensures res.cutoff == now - retentionDays * DAY
      ensures Events() == Filter(old(Events()), NotBefore(res.cutoff))
      ensures forall ev :: ev in Events() <==> ev in old(Events()) && ev.ts >= now - retentionDays * DAY
      ensures res.purged + |Events()| == old(|Events()|)
      ensures verifyEvents[old(verifyLen)..] == old(verifyEvents[verifyLen..])
    {
      hide Store.Valid, Filter, HoldSet;
      var cutoff := now - retentionDays * DAY;
      ghost var was := Events();
      ghost var keep := NotBefore(cutoff);
      var n := verifyLen;
      var write, purged := 0, 0;
      FilterNone(keep);
      for read := 0 to n
        invariant verifyLen == n && Abs() == old(Abs())
        invariant write <= read && write + purged == read
        invariant verifyEvents[..write] == Filter(was[..read], keep)
        invariant forall j :: read <= j < verifyEvents.Length ==> verifyEvents[j] == old(verifyEvents[j])
      {
        FilterStep(was, read, keep);
        var ev := verifyEvents[read];
        assert ev == was[read];
        if ev.ts < cutoff {
          purged := purged + 1;
        } else {
          ghost var moved := verifyEvents[..write];
          verifyEvents[write] := ev;
          assert verifyEvents[..write] == moved;
          write := write + 1;
          assert verifyEvents[..write] == moved + [ev];
        }
      }
      assert was[..n] == was;
      FilterMembers(was, keep);
      verifyLen := write;
      res := VerifySweepResult(cutoff, purged);
    }
  }

  // ---- What the loops have done so far ----

  function RowsIn(bucketOf: Bucketing, records: seq<Record>, period: string): seq<IdSeal>
  {
    IdSeals(Filter(records, InPeriod(bucketOf, period)))
  }

  lemma RowsNone(bucketOf: Bucketing, none: seq<Record>, period: string)
    requires none == []
    ensures RowsIn(bucketOf, none, period) == []
  {
  }

  lemma RowsStep(bucketOf: Bucketing, records: seq<Record>, i: nat, period: string)
    requires i < |records|
    ensures RowsIn(bucketOf, records[..i + 1], period)
         == RowsIn(bucketOf, records[..i], period)
            + if bucketOf(records[i].At()) == period then [IdSeal(records[i].Id(), records[i].seal)] else []
  {
    FilterStep(records, i, InPeriod(bucketOf, period));
    hide Filter;
  }

  lemma RowsAll(bucketOf: Bucketing, s: State, period: string)
    ensures RowsIn(bucketOf, s.records, period) == IdSeals(PeriodRows(bucketOf, s, period))
  {
  }

  lemma PendingNone(bucketOf: Bucketing, s: State, before: string)
    ensures PendingIn(bucketOf, s, before, s.records[..0]) == {}
  {
  }

  lemma PendingStep(bucketOf: Bucketing, s: State, before: string, rows: seq<Record>, i: nat)
    requires i < |rows|
    ensures PendingIn(bucketOf, s, before, rows[..i + 1])
         == PendingIn(bucketOf, s, before, rows[..i])
            + if Waits(bucketOf, s, before, rows[i]) then {bucketOf(rows[i].At())} else {}
  {
    hide Waits;
    assert rows[..i + 1] == rows[..i] + [rows[i]];
    assert forall r :: r in rows[..i + 1] <==> r in rows[..i] || r == rows[i];
  }

  /** The keys of a map in the order a range over it happens to take. */
  method KeysOf(seen: map<string, bool>) returns (out: seq<string>)
    ensures multiset(out) == multiset(seen.Keys)
  {
    out := [];
    var todo := seen.Keys;
    while todo != {}
      invariant todo <= seen.Keys && multiset(out) == multiset(seen.Keys - todo)
    {
      var p :| p in todo;
      assert seen.Keys - (todo - {p}) == (seen.Keys - todo) + {p};
      todo := todo - {p};
      out := out + [p];
    }
    assert seen.Keys - todo == seen.Keys;
  }

  datatype Progress = Progress(kept: seq<Record>, index: map<string, Record>, purged: nat, retained: nat)

  ghost function DroppedIds(bucketOf: Bucketing, s: State, cutoff: string, rows: seq<Record>): set<string>
  {
    set r | r in rows && Dropped(bucketOf, s.holds, cutoff, r) :: r.Id()
  }

  /** The purge of the first `i` records: the others are still indexed. */
  ghost function Purged(bucketOf: Bucketing, s: State, cutoff: string, i: nat): Progress
    requires i <= |s.records|
  {
    var rows := s.records[..i];
    Progress(Filter(rows, Keeps(bucketOf, s.holds, cutoff)),
             s.index - DroppedIds(bucketOf, s, cutoff, rows),
             |Filter(rows, Drops(bucketOf, s.holds, cutoff))|,
             |Filter(rows, Retains(bucketOf, s.holds, cutoff))|)
  }

  lemma PurgedNone(bucketOf: Bucketing, s: State, cutoff: string)
    ensures Purged(bucketOf, s, cutoff, 0) == Progress([], s.index, 0, 0)
  {
    hide Dropped;
    assert s.records[..0] == [];
    assert DroppedIds(bucketOf, s, cutoff, []) == {};
  }

  lemma PurgedStep(bucketOf: Bucketing, s: State, cutoff: string, i: nat, r: Record, was: Progress)
    requires i < |s.records| && r == s.records[i] && was == Purged(bucketOf, s, cutoff, i)
    ensures Le(cutoff, bucketOf(r.At()))
        ==> Purged(bucketOf, s, cutoff, i + 1) == was.(kept := was.kept + [r])
    ensures !Le(cutoff, bucketOf(r.At())) && Held(s.holds, r)
        ==> Purged(bucketOf, s, cutoff, i + 1) == was.(kept := was.kept + [r], retained := was.retained + 1)
    ensures !Le(cutoff, bucketOf(r.At())) && !Held(s.holds, r)
        ==> Purged(bucketOf, s, cutoff, i + 1) == was.(index := was.index - {r.Id()}, purged := was.purged + 1)
  {
    FilterStep(s.records, i, Keeps(bucketOf, s.holds, cutoff));
    FilterStep(s.records, i, Drops(bucketOf, s.holds, cutoff));
    FilterStep(s.records, i, Retains(bucketOf, s.holds, cutoff));
    hide Filter, Held, Le, DroppedIds;
    DroppedIdsStep(bucketOf, s, cutoff, i);
    RemoveOneMore(s.index, DroppedIds(bucketOf, s, cutoff, s.records[..i]), r.Id());
  }

  lemma RemoveOneMore(index: map<string, Record>, gone: set<string>, id: string)
    ensures index - (gone + {id}) == (index - gone) - {id}
    ensures gone + {} == gone
  {
  }

  lemma DroppedIdsStep(bucketOf: Bucketing, s: State, cutoff: string, i: nat)
    requires i < |s.records|
    ensures DroppedIds(bucketOf, s, cutoff, s.records[..i + 1])
         == DroppedIds(bucketOf, s, cutoff, s.records[..i])
            + if Dropped(bucketOf, s.holds, cutoff, s.records[i]) then {s.records[i].Id()} else {}
  {
    hide Dropped;
    var rows, r := s.records[..i], s.records[i];
    assert s.records[..i + 1] == rows + [r];
    assert forall x :: x in rows + [r] <==> x in rows || x == r;
  }

  lemma PurgedAll(bucketOf: Bucketing, s: State, cutoff: string)
    requires Valid(s)
    ensures var p := Purged(bucketOf, s, cutoff, |s.records|);
      && s.(records := p.kept, index := p.index) == Purge(bucketOf, s, cutoff)
      && PurgeResult(cutoff, p.purged, p.retained) == PurgeAnswer(bucketOf, s, cutoff)
  {
    hide Filter, Dropped, UniqueIds;
    assert s.records[..|s.records|] == s.records;
    assert s.index - DroppedIds(bucketOf, s, cutoff, s.records) == Purge(bucketOf, s, cutoff).index;
  }
}
