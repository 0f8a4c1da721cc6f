/** What a run leaves of what went into it, and the sweep by itself as one of the runs. */
module History {
  import opened Seqs
  import opened Text
  import opened Calendar
  import opened Envelopes
  import opened Store
  import opened Retention
  import opened System

  // ---- Nothing is lost or invented ----

  /** The action adds a record. */
  predicate Accepts(s: Sys, a: Action)
  {
    a.Post? && a.rec.Id() !in s.store.index
  }

  /** How many records the action adds, and how many it reports as purged. */
  function Added(s: Sys, a: Action): nat
  {
    if Accepts(s, a) then 1 else 0
  }

  function Purged(svc: Service, s: Sys, a: Action): nat
  {
    if Purges(s, a) then PurgeAnswer(svc.bucketOf, s.store, svc.CutoffAt(PurgeInstant(s, a))).purged else 0
  }

  function TotalAdded(svc: Service, s: Sys, acts: seq<Action>): nat
  {
    if acts == [] then 0
    else TotalAdded(svc, s, acts[..|acts| - 1]) + Added(Run(svc, s, acts[..|acts| - 1]), acts[|acts| - 1])
  }

  function TotalPurged(svc: Service, s: Sys, acts: seq<Action>): nat
  {
    if acts == [] then 0
    else TotalPurged(svc, s, acts[..|acts| - 1]) + Purged(svc, Run(svc, s, acts[..|acts| - 1]), acts[|acts| - 1])
  }

  lemma StepAdds(svc: Service, s: Sys, a: Action)
    requires Accepts(s, a)
    ensures Step(svc, s, a).store.records == s.store.records + [Listed(s.store, a.rec, a.rowId)]
    ensures Step(svc, s, a).store.holds == s.store.holds
  {
    hide Listed;
  }

  lemma StepLeavesRecords(svc: Service, s: Sys, a: Action)
    requires !Accepts(s, a) && !Purges(s, a)
    ensures Step(svc, s, a).store.records == s.store.records
  {
    hide Listed, SealsFor, Pending, Purge;
  }

  lemma StepConserves(svc: Service, s: Sys, a: Action)
    ensures |Step(svc, s, a).store.records| + Purged(svc, s, a) == |s.store.records| + Added(s, a)
  {
    hide Step, Purge, PurgeAnswer;
    if Accepts(s, a) {
      StepAdds(svc, s, a);
    } else if Purges(s, a) {
      StepPurges(svc, s, a);
      PurgeConserves(svc.bucketOf, s.store, svc.CutoffAt(PurgeInstant(s, a)));
    } else {
      StepLeavesRecords(svc, s, a);
    }
  }

  /** Over any run, the new records are the ones still listed or the ones reported as purged. */
  lemma {:induction false} RunConserves(svc: Service, s: Sys, acts: seq<Action>)
    ensures |Run(svc, s, acts).store.records| + TotalPurged(svc, s, acts)
         == |s.store.records| + TotalAdded(svc, s, acts)
  {
    hide Step, Purged, Added;
    if acts != [] {
      RunConserves(svc, s, acts[..|acts| - 1]);
      StepConserves(svc, Run(svc, s, acts[..|acts| - 1]), acts[|acts| - 1]);
    }
  }

  // ---- The list is the journal without what was purged ----

  /** A record as it was appended, with the position of its append in the run. */
  datatype Entry = Entry(at: nat, rec: Record)

  function RecordsOf(es: seq<Entry>): seq<Record>
  {
    if es == [] then [] else RecordsOf(es[..|es| - 1]) + [es[|es| - 1].rec]
  }

  /** Every accepted append of the run, in order. */
  function Journal(svc: Service, s: Sys, acts: seq<Action>): seq<Entry>
  {
    if acts == [] then []
    else
      var was, a := Run(svc, s, acts[..|acts| - 1]), acts[|acts| - 1];
      Journal(svc, s, acts[..|acts| - 1])
      + if Accepts(was, a) then [Entry(|acts| - 1, Listed(was.store, a.rec, a.rowId))] else []
  }

  /** Action `j` is a purge that drops the record. */
  predicate DroppedAt(svc: Service, s: Sys, acts: seq<Action>, j: nat, r: Record)
  {
    && j < |acts|
    && var st := At(svc, s, acts, j);
       && Purges(st, acts[j])
       && Dropped(svc.bucketOf, st.store.holds, svc.CutoffAt(PurgeInstant(st, acts[j])), r)
  }

  predicate Survives(svc: Service, s: Sys, acts: seq<Action>, e: Entry)
  {
    !exists j :: e.at < j < |acts| && DroppedAt(svc, s, acts, j, e.rec)
  }

  function Surviving(svc: Service, s: Sys, acts: seq<Action>): Entry -> bool
  {
    (e: Entry) => Survives(svc, s, acts, e)
  }

  lemma DroppedAtPrefix(svc: Service, s: Sys, acts: seq<Action>, j: nat, r: Record)
    requires acts != [] && j < |acts| - 1
    ensures DroppedAt(svc, s, acts[..|acts| - 1], j, r) == DroppedAt(svc, s, acts, j, r)
  {
    hide Run, Dropped;
    AtPrefix(svc, s, acts, |acts| - 1, j);
  }

  /** Surviving one more action is surviving until then and not being dropped by it. */
  lemma SurvivesNext(svc: Service, s: Sys, acts: seq<Action>, e: Entry)
    requires acts != [] && e.at < |acts| - 1
    ensures Survives(svc, s, acts, e)
       <==> Survives(svc, s, acts[..|acts| - 1], e) && !DroppedAt(svc, s, acts, |acts| - 1, e.rec)
  {
    hide DroppedAt;
    var front := acts[..|acts| - 1];
    forall j: nat | j < |front| ensures DroppedAt(svc, s, front, j, e.rec) == DroppedAt(svc, s, acts, j, e.rec) {
      DroppedAtPrefix(svc, s, acts, j, e.rec);
    }
  }

  lemma {:induction false} JournalPositions(svc: Service, s: Sys, acts: seq<Action>)
    ensures forall e :: e in Journal(svc, s, acts) ==> e.at < |acts|
  {
    hide Run, Listed;
    if acts != [] {
      JournalPositions(svc, s, acts[..|acts| - 1]);
    }
  }

  lemma RecordsOfAppend(es: seq<Entry>, e: Entry)
    ensures RecordsOf(es + [e]) == RecordsOf(es) + [e.rec]
  {
    assert (es + [e])[..|es|] == es;
  }

  lemma {:induction false} RecordsOfFilter(es: seq<Entry>, p: Entry -> bool, q: Record -> bool)
    requires forall e: Entry :: p(e) == q(e.rec)
    ensures RecordsOf(Filter(es, p)) == Filter(RecordsOf(es), q)
  {
    if es != [] {
      var front, last := es[..|es| - 1], es[|es| - 1];
      RecordsOfFilter(front, p, q);
      var recs := RecordsOf(front);
      FilterStep(recs + [last.rec], |recs|, q);
      assert (recs + [last.rec])[..|recs|] == recs && (recs + [last.rec])[..|recs| + 1] == recs + [last.rec];
      RecordsOfAppend(Filter(front, p), last);
    }
  }

  lemma JournalNext(svc: Service, s: Sys, acts: seq<Action>)
    requires acts != []
    requires var front := acts[..|acts| - 1];
      Run(svc, s, front).store.records
      == RecordsOf(Filter(Journal(svc, s, front), Surviving(svc, s, front)))
    ensures Run(svc, s, acts).store.records
         == RecordsOf(Filter(Journal(svc, s, acts), Surviving(svc, s, acts)))
  {
    hide Step, Listed, DroppedAt, Filter, Survives, Purges;
    var front, a := acts[..|acts| - 1], acts[|acts| - 1];
    var was := Run(svc, s, front);
    var j, p, q := Journal(svc, s, front), Surviving(svc, s, front), Surviving(svc, s, acts);
    JournalPositions(svc, s, front);
    forall e | e in j ensures q(e) == (p(e) && !DroppedAt(svc, s, acts, |acts| - 1, e.rec)) {
      SurvivesNext(svc, s, acts, e);
    }
    if Purges(was, a) {
      JournalPurged(svc, s, acts, j, p, q);
      assert Journal(svc, s, acts) == j;
    } else {
      forall e | e in j ensures q(e) == p(e) {
        NotDroppedAt(svc, s, acts, e.rec);
      }
      FilterAgree(j, p, q);
      if Accepts(was, a) {
        var e := Entry(|acts| - 1, Listed(was.store, a.rec, a.rowId));
        StepAdds(svc, was, a);
        NewSurvives(svc, s, acts, e);
        FilterAppend(j, e, q);
        RecordsOfAppend(Filter(j, q), e);
        assert Journal(svc, s, acts) == j + [e];
      } else {
        StepLeavesRecords(svc, was, a);
        assert Journal(svc, s, acts) == j;
      }
    }
  }

  lemma NotDroppedAt(svc: Service, s: Sys, acts: seq<Action>, r: Record)
    requires acts != [] && !Purges(Run(svc, s, acts[..|acts| - 1]), acts[|acts| - 1])
    ensures !DroppedAt(svc, s, acts, |acts| - 1, r)
  {
    hide Run, Purges, Dropped;
  }

  lemma NewSurvives(svc: Service, s: Sys, acts: seq<Action>, e: Entry)
    requires e.at == |acts| - 1
    ensures Survives(svc, s, acts, e)
  {
    hide DroppedAt;
  }

  lemma JournalPurged(svc: Service, s: Sys, acts: seq<Action>, j: seq<Entry>, p: Entry -> bool, q: Entry -> bool)
    requires acts != [] && Purges(Run(svc, s, acts[..|acts| - 1]), acts[|acts| - 1])
    requires forall e :: e in j ==> q(e) == (p(e) && !DroppedAt(svc, s, acts, |acts| - 1, e.rec))
    requires Run(svc, s, acts[..|acts| - 1]).store.records == RecordsOf(Filter(j, p))
    ensures Run(svc, s, acts).store.records == RecordsOf(Filter(j, q))
    ensures !Accepts(Run(svc, s, acts[..|acts| - 1]), acts[|acts| - 1])
  {
    hide Step, Dropped, Filter;
    var front, a := acts[..|acts| - 1], acts[|acts| - 1];
    var was := Run(svc, s, front);
    StepPurges(svc, was, a);
    var cutoff := svc.CutoffAt(PurgeInstant(was, a));
    var kept := Keeps(svc.bucketOf, was.store.holds, cutoff);
    var keptEntry := (e: Entry) => kept(e.rec);
    FilterTwice(j, p, keptEntry, q);
    RecordsOfFilter(Filter(j, p), keptEntry, kept);
  }

  /**
   In every state the list is the journal of accepted appends, in order, without the
   entries that a later purge dropped.
   */
  lemma {:induction false} RecordsAreSurvivingJournal(svc: Service, s: Sys, acts: seq<Action>)
    requires s.store.records == []
    ensures Run(svc, s, acts).store.records
         == RecordsOf(Filter(Journal(svc, s, acts), Surviving(svc, s, acts)))
  {
    hide Step, Filter, Surviving;
    if acts == [] {
      FilterNone(Surviving(svc, s, acts));
    } else {
      RecordsAreSurvivingJournal(svc, s, acts[..|acts| - 1]);
      JournalNext(svc, s, acts);
    }
  }

  // ---- Sequence numbers ----

  /** Position `i` has sequence number `i + 1`. */
  predicate Numbered(records: seq<Record>)
  {
    forall i :: 0 <= i < |records| ==> records[i].seqNo == i + 1
  }

  /** Whatever the purge drops, it drops everything after it too. */
  predicate DropsSuffix(bucketOf: Bucketing, s: State, cutoff: string)
  {
    forall i, j :: 0 <= i < j < |s.records| && !Dropped(bucketOf, s.holds, cutoff, s.records[j])
               ==> !Dropped(bucketOf, s.holds, cutoff, s.records[i])
  }

  lemma {:induction false} FilterPrefix<T>(s: seq<T>, j: nat, p: T -> bool)
    requires j <= |s|
    ensures Filter(s[..j], p) <= Filter(s, p)
  {
    if j < |s| {
      FilterPrefix(s[..|s| - 1], j, p);
      assert s[..|s| - 1][..j] == s[..j];
    } else {
      assert s[..j] == s;
    }
  }

  /** A selected element stands after the elements selected before it. */
  lemma FilterPlace<T>(s: seq<T>, j: nat, p: T -> bool)
    requires j < |s| && p(s[j])
    ensures |Filter(s[..j], p)| < |Filter(s, p)| && Filter(s, p)[|Filter(s[..j], p)|] == s[j]
  {
    FilterStep(s, j, p);
    FilterPrefix(s, j + 1, p);
  }

  lemma {:induction false} FilterOfPrefix<T>(s: seq<T>, p: T -> bool)
    requires forall i, j :: 0 <= i < j < |s| && p(s[j]) ==> p(s[i])
    ensures Filter(s, p) <= s
  {
    if s != [] {
      var front := s[..|s| - 1];
      FilterOfPrefix(front, p);
      if p(s[|s| - 1]) {
        forall x | x in front ensures p(x) {
          var i :| 0 <= i < |front| && front[i] == x;
          assert s[i] == x;
        }
        FilterAll(front, p);
        assert s == front + [s[|s| - 1]];
      }
    }
  }

  /** A purge of a numbered list leaves it numbered exactly if what it drops is at the end. */
  lemma PurgeNumbers(bucketOf: Bucketing, s: State, cutoff: string)
    requires Numbered(s.records)
    ensures Numbered(Purge(bucketOf, s, cutoff).records) <==> DropsSuffix(bucketOf, s, cutoff)
  {
    hide Dropped, Filter;
    var keeps := Keeps(bucketOf, s.holds, cutoff);
    if DropsSuffix(bucketOf, s, cutoff) {
      FilterOfPrefix(s.records, keeps);
    } else {
      var i, j :| 0 <= i < j < |s.records| && !Dropped(bucketOf, s.holds, cutoff, s.records[j])
        && Dropped(bucketOf, s.holds, cutoff, s.records[i]);
      FilterPlace(s.records, j, keeps);
      assert s.records[..j][i] == s.records[i];
      FilterShorter(s.records[..j], keeps, s.records[i]);
    }
  }

  /** If the action purges, what it drops is at the end of the list. */
  predicate PurgesSuffix(svc: Service, s: Sys, a: Action)
  {
    Purges(s, a) ==> DropsSuffix(svc.bucketOf, s.store, svc.CutoffAt(PurgeInstant(s, a)))
  }

  lemma StepNumbers(svc: Service, s: Sys, a: Action)
    requires Numbered(s.store.records)
    ensures Numbered(Step(svc, s, a).store.records) <==> PurgesSuffix(svc, s, a)
  {
    hide Step, Purge, DropsSuffix;
    if Purges(s, a) {
      StepPurges(svc, s, a);
      PurgeNumbers(svc.bucketOf, s.store, svc.CutoffAt(PurgeInstant(s, a)));
    } else if Accepts(s, a) {
      StepAdds(svc, s, a);
    } else {
      StepLeavesRecords(svc, s, a);
    }
  }

  predicate NumberedAt(svc: Service, s: Sys, acts: seq<Action>, i: nat)
    requires i <= |acts|
  {
    Numbered(At(svc, s, acts, i).store.records)
  }

  predicate SuffixAt(svc: Service, s: Sys, acts: seq<Action>, i: nat)
    requires i < |acts|
  {
    PurgesSuffix(svc, At(svc, s, acts, i), acts[i])
  }

  /**
   Over a run: in every state the record at index i has number i + 1 if and only if
   every purge of the run dropped only what was at the end of the list.
   */
  lemma {:induction false} RunNumbers(svc: Service, s: Sys, acts: seq<Action>)
    requires Numbered(s.store.records)
    ensures (forall i :: 0 <= i <= |acts| ==> NumberedAt(svc, s, acts, i))
       <==> (forall i :: 0 <= i < |acts| ==> SuffixAt(svc, s, acts, i))
  {
    hide Step, Numbered, PurgesSuffix;
    if acts == [] {
      forall i | 0 <= i <= |acts| ensures NumberedAt(svc, s, acts, i) {
        assert acts[..i] == [];
      }
    } else {
      var front, n := acts[..|acts| - 1], |acts| - 1;
      RunNumbers(svc, s, front);
      forall i: nat | i <= n ensures NumberedAt(svc, s, front, i) == NumberedAt(svc, s, acts, i) {
        AtPrefix(svc, s, acts, n, i);
      }
      forall i: nat | i < n ensures SuffixAt(svc, s, front, i) == SuffixAt(svc, s, acts, i) {
        AtPrefix(svc, s, acts, n, i);
      }
      LastNumbered(svc, s, acts);
      SplitLast(svc, s, acts);
    }
  }

  lemma LastNumbered(svc: Service, s: Sys, acts: seq<Action>)
    requires acts != []
    ensures NumberedAt(svc, s, acts, |acts| - 1)
        ==> (NumberedAt(svc, s, acts, |acts|) <==> SuffixAt(svc, s, acts, |acts| - 1))
  {
    hide Step, Numbered, PurgesSuffix;
    var was := At(svc, s, acts, |acts| - 1);
    assert acts[..|acts|] == acts;
    if Numbered(was.store.records) {
      StepNumbers(svc, was, acts[|acts| - 1]);
    }
  }

  lemma SplitLast(svc: Service, s: Sys, acts: seq<Action>)
    requires acts != []
    ensures (forall i :: 0 <= i <= |acts| ==> NumberedAt(svc, s, acts, i))
       <==> (forall i :: 0 <= i <= |acts| - 1 ==> NumberedAt(svc, s, acts, i)) && NumberedAt(svc, s, acts, |acts|)
    ensures (forall i :: 0 <= i < |acts| ==> SuffixAt(svc, s, acts, i))
       <==> (forall i :: 0 <= i < |acts| - 1 ==> SuffixAt(svc, s, acts, i)) && SuffixAt(svc, s, acts, |acts| - 1)
  {
    hide NumberedAt, SuffixAt;
  }

  predicate HasNumber(records: seq<Record>, n: nat)
  {
    exists r :: r in records && r.seqNo == n
  }

  /**
   Numbers are not identities. After a purge of any list, numbered or not, the next
   record repeats a number in use exactly if a kept row has the number that follows
   the count of kept rows; in a numbered list, if the row at that position was kept.
   */
  lemma NumberRepeatsAfterPurge(bucketOf: Bucketing, s: State, cutoff: string, rec: Record, rowId: string)
    ensures var t := Purge(bucketOf, s, cutoff);
      var kept := |s.records| - PurgeAnswer(bucketOf, s, cutoff).purged;
      && kept >= 0
      && (HasNumber(t.records, Listed(t, rec, rowId).seqNo)
          <==> exists r :: r in s.records && r.seqNo == kept + 1 && !Dropped(bucketOf, s.holds, cutoff, r))
      && (Numbered(s.records)
          ==> (HasNumber(t.records, Listed(t, rec, rowId).seqNo)
               <==> kept < |s.records| && !Dropped(bucketOf, s.holds, cutoff, s.records[kept])))
  {
    hide Dropped, Filter, Purge, PurgeAnswer;
    var t := Purge(bucketOf, s, cutoff);
    PurgeConserves(bucketOf, s, cutoff);
    var n := |t.records|;
    forall r ensures r in t.records <==> r in s.records && !Dropped(bucketOf, s.holds, cutoff, r) {
      PurgeMembers(bucketOf, s, cutoff, r);
    }
    if Numbered(s.records) {
      forall r | r in s.records && r.seqNo == n + 1 ensures n < |s.records| && s.records[n] == r {
        var k :| 0 <= k < |s.records| && s.records[k] == r;
      }
      assert n < |s.records| ==> s.records[n] in s.records;
    }
  }

  // ---- What every append establishes, every row has ----

  type Property = (Envelope, string) -> bool

  predicate AllRows(good: Property, s: State)
  {
    forall r :: r in s.records ==> good(r.envelope, r.seal)
  }

  predicate AllPosts(good: Property, acts: seq<Action>)
  {
    forall i :: 0 <= i < |acts| && acts[i].Post? ==> good(acts[i].rec.envelope, acts[i].rec.seal)
  }

  lemma StepKeepsRows(svc: Service, s: Sys, a: Action, good: Property)
    requires AllRows(good, s.store) && (a.Post? ==> good(a.rec.envelope, a.rec.seal))
    ensures AllRows(good, Step(svc, s, a).store)
  {
    hide Step, Purge;
    if Accepts(s, a) {
      StepAdds(svc, s, a);
    } else if Purges(s, a) {
      StepPurges(svc, s, a);
      PurgeDropsOnly(svc.bucketOf, s.store, svc.CutoffAt(PurgeInstant(s, a)));
    } else {
      StepLeavesRecords(svc, s, a);
    }
  }

  /** No step alters the envelope or the seal of a row: what holds of every row posted holds of every row stored. */
  lemma {:induction false} RunKeepsRows(svc: Service, s: Sys, acts: seq<Action>, good: Property)
    requires AllRows(good, s.store) && AllPosts(good, acts)
    ensures AllRows(good, Run(svc, s, acts).store)
  {
    hide Step, AllRows;
    if acts != [] {
      var front := acts[..|acts| - 1];
      assert forall i :: 0 <= i < |front| ==> front[i] == acts[i];
      RunKeepsRows(svc, s, front, good);
      StepKeepsRows(svc, Run(svc, s, front), acts[|acts| - 1], good);
    }
  }

  // ---- The sweep by itself is a run ----

  function Rounds(n: nat): seq<Action>
  {
    if n == 0 then [] else Rounds(n - 1) + [SweepRead, SweepSave]
  }

  /** The steps of one sweep that seals `n` periods. */
  function Script(n: nat): seq<Action>
  {
    [SweepBegin, SweepList] + Rounds(n) + [SweepPurge]
  }

  lemma RoundSeals(svc: Service, s: Sys, now: Instant, pending: seq<string>)
    requires s.task == Sealing(now, pending) && pending != []
    ensures Run(svc, s, [SweepRead, SweepSave])
         == Sys(s.clock, SealPeriod(svc, s.store, pending[0], s.clock), Sealing(now, pending[1..]))
  {
    hide SealsFor, Run;
    RunTwo(svc, s, SweepRead, SweepSave);
  }

  lemma {:induction false} RoundsSeal(svc: Service, s: Sys, now: Instant, pending: seq<string>, n: nat)
    requires s.task == Sealing(now, pending) && n <= |pending|
    ensures Run(svc, s, Rounds(n))
         == Sys(s.clock, SealAll(svc, s.store, pending[..n], s.clock), Sealing(now, pending[n..]))
  {
    if n == 0 {
      hide Step;
    } else {
      hide Run, Step, SealPeriod;
      RoundsSeal(svc, s, now, pending, n - 1);
      var was := Run(svc, s, Rounds(n - 1));
      RunAppends(svc, s, Rounds(n - 1), [SweepRead, SweepSave]);
      RoundSeals(svc, was, now, pending[n - 1..]);
      assert pending[..n][..n - 1] == pending[..n - 1] && pending[n - 1..][1..] == pending[n..];
    }
  }

  lemma OpeningLists(svc: Service, s: Sys)
    requires s.task.Idle?
    ensures Run(svc, s, [SweepBegin, SweepList])
         == s.(task := Sealing(s.clock, Pending(svc.bucketOf, s.store, svc.Before(s.clock))))
  {
    hide Pending, Run;
    RunTwo(svc, s, SweepBegin, SweepList);
  }

  lemma ClosingPurges(svc: Service, s: Sys, now: Instant)
    requires s.task == Sealing(now, [])
    ensures Run(svc, s, [SweepPurge])
         == Sys(s.clock, Purge(svc.bucketOf, s.store, svc.CutoffAt(now)), Idle)
  {
    hide Purge;
    assert [SweepPurge][..0] == [];
  }

  /** A sweep that is left alone once it has listed `pending` seals the rest and purges. */
  lemma RestOfSweep(svc: Service, s: Sys, now: Instant, pending: seq<string>)
    requires s.task == Sealing(now, pending)
    ensures Run(svc, s, Rounds(|pending|) + [SweepPurge])
         == Sys(s.clock, Purge(svc.bucketOf, SealAll(svc, s.store, pending, s.clock), svc.CutoffAt(now)), Idle)
  {
    hide Run, Step, SealAll, Purge, Rounds;
    RunAppends(svc, s, Rounds(|pending|), [SweepPurge]);
    RoundsSeal(svc, s, now, pending, |pending|);
    assert pending[..|pending|] == pending && pending[|pending|..] == [];
    ClosingPurges(svc, Run(svc, s, Rounds(|pending|)), now);
  }

  /** With nothing in between, the steps of the sweep do what the sweep as one operation does. */
  lemma ScriptIsSweep(svc: Service, s: Sys)
    requires s.task.Idle?
    ensures Run(svc, s, Script(|Pending(svc.bucketOf, s.store, svc.Before(s.clock))|))
         == Sys(s.clock, Sweep(svc, s.store, s.clock), Idle)
  {
    hide Run, Step, Pending, SealAll, Purge, Rounds;
    var pending := Pending(svc.bucketOf, s.store, svc.Before(s.clock));
    var n := |pending|;
    assert [SweepBegin, SweepList] + Rounds(n) + [SweepPurge] == [SweepBegin, SweepList] + (Rounds(n) + [SweepPurge]);
    RunAppends(svc, s, [SweepBegin, SweepList], Rounds(n) + [SweepPurge]);
    OpeningLists(svc, s);
    RestOfSweep(svc, s.(task := Sealing(s.clock, pending)), s.clock, pending);
  }

  // ---- An untimely append ----

  /** What is left of a sweep that is sealing. */
  function Rest(s: Sys): seq<Action>
    requires s.task.Sealing? || (s.task.Holding? && s.task.pending != [])
  {
    (if s.task.Holding? then [SweepSave] + Rounds(|s.task.pending| - 1) else Rounds(|s.task.pending|)) + [SweepPurge]
  }

  /**
   The condition on appends cannot be dropped: at whatever point of its sealing an
   untimely, unheld row arrives, the rest of the sweep deletes it from a period that
   still has no checkpoint.
   */
  lemma UntimelyRowDeletedUnsealed(svc: Service, s: Sys, rec: Record, rowId: string)
    requires Invariant(svc, s) && (s.task.Sealing? || s.task.Holding?)
    requires !Timely(svc, s, Post(rec, rowId)) && !Held(s.store.holds, rec)
    ensures var posted := Step(svc, s, Post(rec, rowId)); var t := Run(svc, posted, Rest(s));
      && posted.store.records == s.store.records + [Listed(s.store, rec, rowId)]
      && Listed(s.store, rec, rowId) !in t.store.records
      && svc.bucketOf(rec.At()) !in t.store.checkpoints
  {
    hide Run, Rounds, SealsFor, Lt, Held, Purge, SealAll, Store.Valid, Listed;
    var posted, r, p := Step(svc, s, Post(rec, rowId)), Listed(s.store, rec, rowId), svc.bucketOf(rec.At());
    ListedKeeps(s.store, rec, rowId);
    var sealing := posted;
    if s.task.Holding? {
      sealing := Step(svc, posted, SweepSave);
      RunOne(svc, posted, SweepSave);
      assert Rest(s) == [SweepSave] + (Rounds(|s.task.pending| - 1) + [SweepPurge]);
      RunAppends(svc, posted, [SweepSave], Rounds(|s.task.pending| - 1) + [SweepPurge]);
    }
    assert s.task.pending != [] ==> s.task.pending[0] in s.task.pending;
    assert forall q :: q in sealing.task.pending ==> q in s.task.pending;
    RestOfSweep(svc, sealing, s.task.now, sealing.task.pending);
    RowDeletedUnsealed(svc, sealing.store, sealing.task.pending, sealing.clock, svc.CutoffAt(s.task.now), rec, r);
  }

  lemma RowDeletedUnsealed(svc: Service, s: State, pending: seq<string>, at: Instant, cutoff: string, rec: Record, r: Record)
    requires r.envelope == rec.envelope && !Held(s.holds, rec)
    requires Lt(svc.bucketOf(rec.At()), cutoff)
    requires svc.bucketOf(rec.At()) !in s.checkpoints && svc.bucketOf(rec.At()) !in pending
    ensures var t := Purge(svc.bucketOf, SealAll(svc, s, pending, at), cutoff);
      r !in t.records && svc.bucketOf(rec.At()) !in t.checkpoints
  {
    hide Le, Lt, SealAll, Attests;
    var sealed := SealAll(svc, s, pending, at);
    SealAllAdds(svc, s, pending, at);
    NotLe(svc.bucketOf(rec.At()), cutoff);
    PurgeMembers(svc.bucketOf, sealed, cutoff, r);
    PurgeKeepsCheckpoints(svc.bucketOf, sealed, cutoff);
  }
}
