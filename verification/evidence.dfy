/** What a period verification proves about the rows, in every run. */
module Evidence {
  import opened Seqs
  import opened Text
  import opened Envelopes
  import opened Seals
  import opened Store
  import opened MemoryStore
  import opened Retention
  import opened System
  import opened History

  // ---- Rows that carry the seal of their own envelope ----

  /** The row was sealed by this sealer. */
  function SealedBy(sealer: Sealer): Property
  {
    (e: Envelope, seal: string) => seal == sealer.SealOf(e)
  }

  /** Every row of the period passes the check of its own seal. */
  predicate PeriodPasses(bucketOf: Bucketing, sealer: Sealer, s: State, p: string)
  {
    forall r :: r in s.records && bucketOf(r.At()) == p ==> sealer.Verify(r.envelope, r.seal)
  }

  lemma SealedPasses(bucketOf: Bucketing, sealer: Sealer, s: State, p: string)
    requires AllRows(SealedBy(sealer), s)
    ensures PeriodPasses(bucketOf, sealer, s, p)
  {
    hide Sealer.SealOf;
  }

  /** The envelopes of a period's rows, in the order of their event ids. */
  function Contents(bucketOf: Bucketing, s: State, p: string): seq<Envelope>
    requires Valid(s)
  {
    var keys := SealMap(PeriodRows(bucketOf, s, p)).Keys;
    PeriodKeysIndexed(bucketOf, s, p);
    SortedListsSet(keys);
    seq(|Sorted(keys)|, i requires 0 <= i < |Sorted(keys)| => assert Sorted(keys)[i] in Sorted(keys);
      s.index[Sorted(keys)[i]].envelope)
  }

  lemma PeriodKeysIndexed(bucketOf: Bucketing, s: State, p: string)
    requires Valid(s)
    ensures forall k :: (k in SealMap(PeriodRows(bucketOf, s, p))
                         <==> k in s.index && bucketOf(s.index[k].At()) == p)
    ensures forall k :: k in SealMap(PeriodRows(bucketOf, s, p))
                    ==> SealMap(PeriodRows(bucketOf, s, p))[k] == s.index[k].seal
  {
    hide SealMap, UniqueIds;
    var rows := PeriodRows(bucketOf, s, p);
    PeriodRowsUnique(bucketOf, s, p);
    SealMapHolds(rows);
    forall r: Record ensures r in rows <==> r in s.records && bucketOf(r.At()) == p {
      FilterMember(s.records, InPeriod(bucketOf, p), r);
    }
    forall k | k in s.index && bucketOf(s.index[k].At()) == p ensures k in SealMap(rows) {
      assert s.index[k] in rows && s.index[k].Id() == k;
    }
  }

  /** The listed seals are the seals of the period's contents. */
  lemma SealsOfContents(bucketOf: Bucketing, sealer: Sealer, s: State, p: string)
    requires Valid(s) && PeriodPasses(bucketOf, sealer, s, p)
    ensures |SealsFor(bucketOf, s, p)| == |Contents(bucketOf, s, p)|
    ensures forall i :: 0 <= i < |Contents(bucketOf, s, p)|
                    ==> SealsFor(bucketOf, s, p)[i] == sealer.SealOf(Contents(bucketOf, s, p)[i])
  {
    hide SealMap, PeriodRows, UniqueIds, Sorted, Sealer.SealOf, Distinct, Ascending;
    var m := SealMap(PeriodRows(bucketOf, s, p));
    PeriodKeysIndexed(bucketOf, s, p);
    SortedListsSet(m.Keys);
    var keys, contents := Sorted(m.Keys), Contents(bucketOf, s, p);
    forall i | 0 <= i < |contents| ensures SealsFor(bucketOf, s, p)[i] == sealer.SealOf(contents[i]) {
      assert keys[i] in keys;
      assert s.index[keys[i]] in s.records;
    }
  }

  lemma SealedRowsNewlineFree(bucketOf: Bucketing, sealer: Sealer, s: State, p: string)
    requires Valid(s) && PeriodPasses(bucketOf, sealer, s, p)
    ensures AllNewlineFree(SealsFor(bucketOf, s, p))
  {
    hide SealsFor, Contents, NewlineFree, Sealer.SealOf, PeriodPasses;
    SealsOfContents(bucketOf, sealer, s, p);
    forall i | 0 <= i < |SealsFor(bucketOf, s, p)| ensures NewlineFree(SealsFor(bucketOf, s, p)[i]) {
      sealer.SealShape(Contents(bucketOf, s, p)[i]);
    }
  }

  lemma CountsRows(bucketOf: Bucketing, s: State, p: string)
    requires Valid(s)
    ensures |SealsFor(bucketOf, s, p)| == |PeriodRows(bucketOf, s, p)|
  {
    hide UniqueIds, Filter, SealMap, Sorted, Distinct, Ascending;
    var rows := PeriodRows(bucketOf, s, p);
    PeriodRowsUnique(bucketOf, s, p);
    IdsAreKeys(rows);
    SortedListsSet(SealMap(rows).Keys);
    var keys := SealMap(rows).Keys;
    assert |multiset(keys)| == |keys| == |rows|;
    SortedCounts(keys);
  }

  lemma SortedCounts(keys: set<string>)
    ensures |Sorted(keys)| == |keys|
  {
    hide Ascending, Sorted;
    SortedListsSet(keys);
    DistinctCounts(Sorted(keys), keys);
  }

  lemma {:induction false} DistinctCounts(s: seq<string>, keys: set<string>)
    requires Distinct(s) && forall k :: k in s <==> k in keys
    ensures |s| == |keys|
  {
    if s == [] {
      assert keys == {};
    } else {
      var front, last := s[..|s| - 1], s[|s| - 1];
      assert s == front + [last];
      DistinctCounts(front, keys - {last});
    }
  }

  // ---- Contents against contents ----

  /** The same accesses, one by one. */
  predicate SameContents(a: seq<Envelope>, b: seq<Envelope>)
  {
    |a| == |b| && forall i :: 0 <= i < |a| ==> SameRecord(a[i], b[i])
  }

  function SealsOf(sealer: Sealer, es: seq<Envelope>): seq<string>
  {
    seq(|es|, i requires 0 <= i < |es| => sealer.SealOf(es[i]))
  }

  predicate RowCollides(sealer: Sealer, a: seq<Envelope>, b: seq<Envelope>, i: nat)
  {
    i < |a| && i < |b| && sealer.Collides(Canonical(a[i]), Canonical(b[i]))
  }

  /** Two different texts with one digest: the checkpoint texts of the lists, or two canonical texts in them. */
  predicate Collision(sealer: Sealer, a: seq<Envelope>, b: seq<Envelope>)
  {
    || sealer.Collides(CheckpointText(SealsOf(sealer, a), |a|), CheckpointText(SealsOf(sealer, b), |b|))
    || exists i :: 0 <= i < |a| && RowCollides(sealer, a, b, i)
  }

  lemma SealsOfInjective(sealer: Sealer, a: seq<Envelope>, b: seq<Envelope>)
    ensures SameContents(a, b) ==> SealsOf(sealer, a) == SealsOf(sealer, b)
    ensures SealsOf(sealer, a) == SealsOf(sealer, b)
        ==> SameContents(a, b) || exists i :: 0 <= i < |a| && RowCollides(sealer, a, b, i)
  {
    hide Canonical, SameRecord, Sealer.SealOf, Sealer.Collides;
    forall i | 0 <= i < |a| && i < |b|
      ensures sealer.SealOf(a[i]) == sealer.SealOf(b[i])
         <==> SameRecord(a[i], b[i]) || RowCollides(sealer, a, b, i)
    {
      sealer.SealIdentity(a[i], b[i]);
    }
    if SealsOf(sealer, a) == SealsOf(sealer, b) {
      assert |a| == |SealsOf(sealer, a)| == |b|;
      forall i | 0 <= i < |a| ensures sealer.SealOf(a[i]) == sealer.SealOf(b[i]) {
        assert SealsOf(sealer, a)[i] == SealsOf(sealer, b)[i];
      }
    }
  }

  /** A checkpoint over `b` fits the rows `a` exactly if they are the same accesses, collisions aside. */
  lemma CheckpointFitsContents(sealer: Sealer, a: seq<Envelope>, b: seq<Envelope>)
    ensures var fits := sealer.VerifyCheckpoint(SealsOf(sealer, a), |a|, sealer.CheckpointOf(SealsOf(sealer, b), |b|));
      && (SameContents(a, b) ==> fits)
      && (fits ==> SameContents(a, b) || Collision(sealer, a, b))
  {
    hide Sealer.CheckpointOf, Sealer.SealOf, Sealer.Collides, Sealer.VerifyCheckpoint, CheckpointText, NewlineFree;
    hide SameContents, RowCollides;
    forall es ensures AllNewlineFree(SealsOf(sealer, es)) {
      SealListNewlineFree(sealer, es);
    }
    hide SealsOf;
    assert |SealsOf(sealer, a)| == |a| && |SealsOf(sealer, b)| == |b| by {
      SealListNewlineFree(sealer, a);
      SealListNewlineFree(sealer, b);
    }
    SealsOfInjective(sealer, a, b);
    SameContentsCount(a, b);
    sealer.CheckpointIdentity(SealsOf(sealer, a), |a|, SealsOf(sealer, b), |b|);
  }

  lemma SameContentsCount(a: seq<Envelope>, b: seq<Envelope>)
    ensures SameContents(a, b) ==> |a| == |b|
  {
  }

  lemma SealListNewlineFree(sealer: Sealer, es: seq<Envelope>)
    ensures AllNewlineFree(SealsOf(sealer, es)) && |SealsOf(sealer, es)| == |es|
  {
    hide NewlineFree, Sealer.SealOf;
    forall i | 0 <= i < |es| ensures NewlineFree(SealsOf(sealer, es)[i]) {
      sealer.SealShape(es[i]);
    }
  }

  lemma SealsForContents(bucketOf: Bucketing, sealer: Sealer, s: State, p: string)
    requires Valid(s) && PeriodPasses(bucketOf, sealer, s, p)
    ensures SealsFor(bucketOf, s, p) == SealsOf(sealer, Contents(bucketOf, s, p))
    ensures |SealsFor(bucketOf, s, p)| == |Contents(bucketOf, s, p)|
  {
    hide SealsFor, Contents, Sealer.SealOf, Store.Valid, PeriodPasses;
    SealsOfContents(bucketOf, sealer, s, p);
  }

  // ---- The verdict of a period over any run ----

  /** Action `i` is a sweep's reading of `p`, and `was` the contents it saw. */
  ghost predicate Snapshot(svc: Service, s: Sys, acts: seq<Action>, i: nat, p: string, was: seq<Envelope>)
  {
    && i < |acts|
    && ReadsPeriod(svc, s, acts, i, p, SealsFor(svc.bucketOf, At(svc, s, acts, i).store, p))
    && Valid(At(svc, s, acts, i).store)
    && was == Contents(svc.bucketOf, At(svc, s, acts, i).store, p)
  }

  lemma RowsAt(svc: Service, s: Sys, acts: seq<Action>, i: nat, good: Property)
    requires Invariant(svc, s) && AllRows(good, s.store) && AllPosts(good, acts) && i <= |acts|
    ensures Invariant(svc, At(svc, s, acts, i)) && AllRows(good, At(svc, s, acts, i).store)
  {
    hide Run, AllRows, Invariant;
    assert forall j :: 0 <= j < i ==> acts[..i][j] == acts[j];
    RunKeepsInvariant(svc, s, acts[..i]);
    RunKeepsRows(svc, s, acts[..i], good);
  }

  lemma ReadingIsSnapshot(svc: Service, s: Sys, acts: seq<Action>, i: nat, p: string, seals: seq<string>, sealer: Sealer)
    requires Invariant(svc, s) && AllRows(SealedBy(sealer), s.store) && AllPosts(SealedBy(sealer), acts)
    requires 0 <= i < |acts| && ReadsPeriod(svc, s, acts, i, p, seals)
    ensures Valid(At(svc, s, acts, i).store)
    ensures var was := Contents(svc.bucketOf, At(svc, s, acts, i).store, p);
      Snapshot(svc, s, acts, i, p, was) && seals == SealsOf(sealer, was) && |seals| == |was|
  {
    hide Run, AllRows, SealsFor, Contents, SealsOf, TaskOk, PeriodPasses;
    RowsAt(svc, s, acts, i, SealedBy(sealer));
    SealedPasses(svc.bucketOf, sealer, At(svc, s, acts, i).store, p);
    SealsForContents(svc.bucketOf, sealer, At(svc, s, acts, i).store, p);
  }

  /** What a period verification says of rows that pass their own checks, against the contents a checkpoint stands for. */
  ghost predicate Compares(svc: Service, sealer: Sealer, t: State, p: string, was: seq<Envelope>)
    requires Valid(t)
  {
    && (SameContents(Contents(svc.bucketOf, t, p), was) ==> Verifies(svc, t, p))
    && (Verifies(svc, t, p)
        ==> SameContents(Contents(svc.bucketOf, t, p), was) || Collision(sealer, Contents(svc.bucketOf, t, p), was))
  }

  /** The listed seals are the snapshot's, or the two checkpoint texts collide. */
  predicate SealsFit(bucketOf: Bucketing, sealer: Sealer, t: State, p: string, seals: seq<string>)
  {
    var now := SealsFor(bucketOf, t, p);
    now == seals || sealer.Collides(CheckpointText(now, |now|), CheckpointText(seals, |seals|))
  }

  /**
   Tamper evidence: let anyone replace the whole store, rows, envelopes and seals, of
   any state of any run, except the checkpoint of `p`. Then `p` verifies exactly if it
   lists the seals that a sweep read, whatever is in them, or the texts collide; and
   if besides every row of `p` passes the check of its own seal, the contents of `p`
   are the same accesses as the sweep read, or a collision is at hand.
   */
  lemma AlteredStoreVerdict(bucketOf: Bucketing, sealer: Sealer, window: int, s: Sys, acts: seq<Action>, p: string, t: State)
    returns (i: nat, was: seq<Envelope>)
    requires var svc := ServiceWith(bucketOf, sealer, window);
      && Invariant(svc, s) && s.task.Idle? && p !in s.store.checkpoints
      && AllRows(SealedBy(sealer), s.store) && AllPosts(SealedBy(sealer), acts)
      && p in Run(svc, s, acts).store.checkpoints
      && Valid(t) && p in t.checkpoints && t.checkpoints[p] == Run(svc, s, acts).store.checkpoints[p]
    ensures var svc := ServiceWith(bucketOf, sealer, window);
      && Snapshot(svc, s, acts, i, p, was) && t.checkpoints[p].rowCount == |was|
      && (Verifies(svc, t, p) <==> SealsFit(bucketOf, sealer, t, p, SealsOf(sealer, was)))
      && (PeriodPasses(bucketOf, sealer, t, p) ==> Compares(svc, sealer, t, p, was))
  {
    hide Run, AllRows, AllPosts, SealsFor, Contents, SealsOf, TaskOk, Store.Valid, SameContents, Collision;
    hide Sealer.CheckpointOf, Snapshot, ReadsPeriod, PeriodPasses, SealsFit;
    var svc := ServiceWith(bucketOf, sealer, window);
    CheckpointIsSnapshot(svc, s, acts, p);
    var cp := t.checkpoints[p];
    var seals :| HasRead(svc, s, acts, p, seals) && cp.period == p && cp.rowCount == |seals|
      && cp.seal == svc.attest(seals, |seals|);
    i :| 0 <= i < |acts| && ReadsPeriod(svc, s, acts, i, p, seals);
    ReadingIsSnapshot(svc, s, acts, i, p, seals, sealer);
    was := Contents(bucketOf, At(svc, s, acts, i).store, p);
    SealsFitExactly(bucketOf, sealer, window, t, p, was);
    if PeriodPasses(bucketOf, sealer, t, p) {
      SealsForContents(bucketOf, sealer, t, p);
      CheckpointFitsContents(sealer, Contents(bucketOf, t, p), was);
    }
  }

  lemma SealsFitExactly(bucketOf: Bucketing, sealer: Sealer, window: int, t: State, p: string, was: seq<Envelope>)
    requires p in t.checkpoints && t.checkpoints[p].seal == sealer.CheckpointOf(SealsOf(sealer, was), |was|)
    ensures Verifies(ServiceWith(bucketOf, sealer, window), t, p) <==> SealsFit(bucketOf, sealer, t, p, SealsOf(sealer, was))
  {
    hide SealsFor, SealsOf, CheckpointText, Sealer.Collides, Sealer.Mac, AllNewlineFree;
    SealListNewlineFree(sealer, was);
    var now := SealsFor(bucketOf, t, p);
    sealer.CheckpointIdentity(now, |now|, SealsOf(sealer, was), |was|);
  }

  /**
   Over every run and interleaving, as long as the store is only used through its
   operations: a stored checkpoint stands for the contents some sweep read, and the
   period verifies from then on exactly while its rows, in event-id order, are the same
   accesses as those, or a collision of the MAC is at hand.
   */
  lemma VerdictComparesContents(bucketOf: Bucketing, sealer: Sealer, window: int, s: Sys, acts: seq<Action>, p: string)
    returns (i: nat, was: seq<Envelope>)
    requires var svc := ServiceWith(bucketOf, sealer, window);
      && Invariant(svc, s) && s.task.Idle? && p !in s.store.checkpoints
      && AllRows(SealedBy(sealer), s.store) && AllPosts(SealedBy(sealer), acts)
      && p in Run(svc, s, acts).store.checkpoints
    ensures var svc := ServiceWith(bucketOf, sealer, window); var t := Run(svc, s, acts).store;
      && Snapshot(svc, s, acts, i, p, was) && Valid(t)
      && t.checkpoints[p].rowCount == |was| && Compares(svc, sealer, t, p, was)
  {
    hide Run, AllRows, AllPosts, TaskOk, Store.Valid, Snapshot, PeriodPasses, Compares, SealsFit;
    var svc := ServiceWith(bucketOf, sealer, window);
    RunKeepsInvariant(svc, s, acts);
    RunKeepsRows(svc, s, acts, SealedBy(sealer));
    SealedPasses(bucketOf, sealer, Run(svc, s, acts).store, p);
    i, was := AlteredStoreVerdict(bucketOf, sealer, window, s, acts, p, Run(svc, s, acts).store);
  }

  // ---- What the period check alone does not see ----

  /** The store with the envelope of row `k` replaced under its old seal. */
  function Altered(s: State, k: nat, e: Envelope): State
    requires k < |s.records|
  {
    var r := s.records[k].(envelope := e);
    s.(records := s.records[k := r], index := s.index[r.Id() := r])
  }

  lemma AlteredAt(bucketOf: Bucketing, s: State, k: nat, e: Envelope, i: nat)
    requires k < |s.records| && i < |s.records| && e.eventId == s.records[k].Id()
    requires bucketOf(e.occurredAt.instant) == bucketOf(s.records[k].At())
    ensures |Altered(s, k, e).records| == |s.records|
    ensures var x, y := s.records[i], Altered(s, k, e).records[i];
      && y.Id() == x.Id() && y.seal == x.seal && bucketOf(y.At()) == bucketOf(x.At())
      && (i != k ==> y == x)
  {
  }

  lemma AlteredIndexed(s: State, k: nat, e: Envelope, i: nat)
    requires Valid(s) && k < |s.records| && i < |s.records| && e.eventId == s.records[k].Id()
    ensures var t := Altered(s, k, e); var x := t.records[i]; x.Id() in t.index && t.index[x.Id()] == x
  {
    assert s.records[i] in s.records && s.records[k] in s.records;
    if i != k {
      assert s.records[i].Id() != s.records[k].Id();
    }
  }

  lemma AlteredListed(s: State, k: nat, e: Envelope, id: string)
    requires Valid(s) && k < |s.records| && e.eventId == s.records[k].Id() && id in Altered(s, k, e).index
    ensures var t := Altered(s, k, e); t.index[id] in t.records && t.index[id].Id() == id
  {
    hide UniqueIds;
    var t := Altered(s, k, e);
    if id == e.eventId {
      assert t.records[k] == t.index[id];
    } else {
      var i :| 0 <= i < |s.records| && s.records[i] == s.index[id];
      assert t.records[i] == s.records[i];
    }
  }

  lemma AlteredValid(s: State, k: nat, e: Envelope)
    requires Valid(s) && k < |s.records| && e.eventId == s.records[k].Id()
    ensures Valid(Altered(s, k, e))
  {
    var t := Altered(s, k, e);
    assert UniqueIds(t.records) by {
      hide Indexed;
      assert forall i :: 0 <= i < |s.records| ==> t.records[i].Id() == s.records[i].Id();
    }
    hide UniqueIds, Altered;
    forall x | x in t.records ensures x.Id() in t.index && t.index[x.Id()] == x {
      var i :| 0 <= i < |t.records| && t.records[i] == x;
      AlteredAt(_ => "", s, k, e, k);
      AlteredIndexed(s, k, e, i);
    }
    forall id | id in t.index ensures t.index[id] in t.records && t.index[id].Id() == id {
      AlteredListed(s, k, e, id);
    }
  }

  lemma AlteredRows(bucketOf: Bucketing, s: State, k: nat, e: Envelope, p: string, id: string, seal: string)
    requires k < |s.records| && e.eventId == s.records[k].Id()
    requires bucketOf(e.occurredAt.instant) == bucketOf(s.records[k].At())
    ensures HasRow(bucketOf, Altered(s, k, e), p, id, seal) <==> HasRow(bucketOf, s, p, id, seal)
  {
    hide Altered;
    var t := Altered(s, k, e);
    AlteredAt(bucketOf, s, k, e, k);
    if HasRow(bucketOf, t, p, id, seal) {
      var r :| r in t.records && bucketOf(r.At()) == p && r.Id() == id && r.seal == seal;
      var i :| 0 <= i < |t.records| && t.records[i] == r;
      AlteredAt(bucketOf, s, k, e, i);
      assert s.records[i] in s.records;
    }
    if HasRow(bucketOf, s, p, id, seal) {
      var r :| r in s.records && bucketOf(r.At()) == p && r.Id() == id && r.seal == seal;
      var i :| 0 <= i < |s.records| && s.records[i] == r;
      AlteredAt(bucketOf, s, k, e, i);
      assert t.records[i] in t.records;
    }
  }

  /**
   The period check alone cannot see an envelope altered under its old seal, as long as
   its event id and its month stay: no period's verdict changes. The check of the row's
   own seal sees it, unless the alteration changes nothing recorded or collides.
   */
  lemma AlteredEnvelopeUnseen(bucketOf: Bucketing, sealer: Sealer, window: int, s: State, k: nat, e: Envelope, p: string)
    requires Valid(s) && k < |s.records| && e.eventId == s.records[k].Id()
    requires bucketOf(e.occurredAt.instant) == bucketOf(s.records[k].At())
    ensures var svc := ServiceWith(bucketOf, sealer, window);
      Valid(Altered(s, k, e)) && Verifies(svc, Altered(s, k, e), p) == Verifies(svc, s, p)
    ensures s.records[k].seal == sealer.SealOf(s.records[k].envelope)
        ==> (sealer.Verify(e, s.records[k].seal)
             <==> (SameRecord(e, s.records[k].envelope)
                   || sealer.Collides(Canonical(e), Canonical(s.records[k].envelope))))
  {
    hide HasRow, SealsFor, Store.Valid, Canonical, SameRecord, Sealer.CheckpointOf, Sealer.SealOf, Sealer.Collides;
    AlteredValid(s, k, e);
    forall id, seal ensures HasRow(bucketOf, s, p, id, seal) <==> HasRow(bucketOf, Altered(s, k, e), p, id, seal) {
      AlteredRows(bucketOf, s, k, e, p, id, seal);
    }
    SealsIgnoreHistory(bucketOf, s, Altered(s, k, e), p);
    sealer.SealIdentity(e, s.records[k].envelope);
  }

  /**
   `verifyPeriod` loads the checkpoint under one lock and lists the seals under
   another; whatever runs in between, the verdict is that of the later state.
   */
  lemma TornReadIsAtomic(bucketOf: Bucketing, sealer: Sealer, window: int, s: Sys, acts: seq<Action>, p: string)
    requires p in s.store.checkpoints
    ensures var svc := ServiceWith(bucketOf, sealer, window);
      var t := Run(svc, s, acts).store;
      sealer.VerifyCheckpoint(SealsFor(bucketOf, t, p), |SealsFor(bucketOf, t, p)|, s.store.checkpoints[p].seal)
      == Verifies(svc, t, p)
  {
    hide Run, SealsFor, Sealer.CheckpointOf;
    CheckpointsPermanent(ServiceWith(bucketOf, sealer, window), s, acts, p);
  }

  // ---- Rows added or removed after sealing ----

  /** Once a period verifies, another list of seals fits its checkpoint only if it is the same list, collisions aside. */
  lemma OtherSealsFail(bucketOf: Bucketing, sealer: Sealer, window: int, s: State, t: State, p: string)
    requires Verifies(ServiceWith(bucketOf, sealer, window), s, p)
    requires p in t.checkpoints && t.checkpoints[p] == s.checkpoints[p]
    requires AllNewlineFree(SealsFor(bucketOf, s, p))
    ensures var a, b := SealsFor(bucketOf, s, p), SealsFor(bucketOf, t, p);
      (Verifies(ServiceWith(bucketOf, sealer, window), t, p)
       <==> a == b || sealer.Collides(CheckpointText(b, |b|), CheckpointText(a, |a|)))
  {
    hide SealsFor, CheckpointText, Sealer.Collides, Sealer.Mac;
    var a, b := SealsFor(bucketOf, s, p), SealsFor(bucketOf, t, p);
    sealer.CheckpointIdentity(b, |b|, a, |a|);
  }

  function SealsCollide(bucketOf: Bucketing, sealer: Sealer, s: State, t: State, p: string): bool
  {
    var a, b := SealsFor(bucketOf, s, p), SealsFor(bucketOf, t, p);
    sealer.Collides(CheckpointText(b, |b|), CheckpointText(a, |a|))
  }

  lemma CountDecides(bucketOf: Bucketing, sealer: Sealer, window: int, s: State, t: State, p: string)
    requires Valid(s) && Valid(t) && PeriodPasses(bucketOf, sealer, s, p)
    requires Verifies(ServiceWith(bucketOf, sealer, window), s, p)
    requires p in t.checkpoints && t.checkpoints[p] == s.checkpoints[p]
    requires |PeriodRows(bucketOf, t, p)| != |PeriodRows(bucketOf, s, p)|
    ensures Verifies(ServiceWith(bucketOf, sealer, window), t, p) <==> SealsCollide(bucketOf, sealer, s, t, p)
  {
    hide SealsFor, Store.Valid, PeriodPasses, PeriodRows, CheckpointText, Sealer.Collides, Verifies;
    CountsRows(bucketOf, s, p);
    CountsRows(bucketOf, t, p);
    SealedRowsNewlineFree(bucketOf, sealer, s, p);
    OtherSealsFail(bucketOf, sealer, window, s, t, p);
  }

  /** A new row, under any seal, in a period that is already sealed makes its verification fail, unless by a collision. */
  lemma LateRowDetected(bucketOf: Bucketing, sealer: Sealer, window: int, s: State, rec: Record, rowId: string)
    requires Valid(s) && PeriodPasses(bucketOf, sealer, s, bucketOf(rec.At())) && rec.Id() !in s.index
    requires Verifies(ServiceWith(bucketOf, sealer, window), s, bucketOf(rec.At()))
    ensures var t, p := Append(s, rec, rowId), bucketOf(rec.At());
      (Verifies(ServiceWith(bucketOf, sealer, window), t, p) <==> SealsCollide(bucketOf, sealer, s, t, p))
  {
    hide Verifies, SealsCollide, PeriodPasses;
    var t, p := Append(s, rec, rowId), bucketOf(rec.At());
    AppendValid(s, rec, rowId);
    hide Store.Valid, Filter, PeriodRows;
    assert t.checkpoints == s.checkpoints;
    PeriodRowsAppended(bucketOf, s, rec, rowId);
    VerifiesHasCheckpoint(ServiceWith(bucketOf, sealer, window), s, p);
    CountDecides(bucketOf, sealer, window, s, t, p);
  }

  lemma PeriodRowsAppended(bucketOf: Bucketing, s: State, rec: Record, rowId: string)
    requires rec.Id() !in s.index
    ensures PeriodRows(bucketOf, Append(s, rec, rowId), bucketOf(rec.At()))
         == PeriodRows(bucketOf, s, bucketOf(rec.At())) + [Listed(s, rec, rowId)]
  {
    hide Filter;
    assert Listed(s, rec, rowId).At() == rec.At();
    FilterAppend(s.records, Listed(s, rec, rowId), InPeriod(bucketOf, bucketOf(rec.At())));
  }

  lemma VerifiesHasCheckpoint(svc: Service, s: State, p: string)
    requires Verifies(svc, s, p)
    ensures p in s.checkpoints
  {
    hide SealsFor;
  }

  /** The purge deletes a row of the period. */
  predicate Touches(bucketOf: Bucketing, s: State, cutoff: string, p: string)
  {
    exists r :: r in s.records && bucketOf(r.At()) == p && Dropped(bucketOf, s.holds, cutoff, r)
  }

  lemma PurgedPeriodRows(bucketOf: Bucketing, s: State, cutoff: string, p: string)
    ensures PeriodRows(bucketOf, Purge(bucketOf, s, cutoff), p)
         == Filter(PeriodRows(bucketOf, s, p), Keeps(bucketOf, s.holds, cutoff))
  {
    hide Dropped;
    var keeps, inPeriod := Keeps(bucketOf, s.holds, cutoff), InPeriod(bucketOf, p);
    var both := (r: Record) => keeps(r) && inPeriod(r);
    FilterTwice(s.records, keeps, inPeriod, both);
    FilterTwice(s.records, inPeriod, keeps, both);
  }

  /**
   What a purge does to a sealed period: it still verifies exactly if none of its rows
   was deleted. A period kept in part, by a legal hold, no longer verifies.
   */
  lemma PurgeVerdict(bucketOf: Bucketing, sealer: Sealer, window: int, s: State, cutoff: string, p: string)
    requires Valid(s) && PeriodPasses(bucketOf, sealer, s, p)
    requires Verifies(ServiceWith(bucketOf, sealer, window), s, p)
    ensures var t := Purge(bucketOf, s, cutoff);
      (Verifies(ServiceWith(bucketOf, sealer, window), t, p)
       <==> !Touches(bucketOf, s, cutoff, p) || SealsCollide(bucketOf, sealer, s, t, p))
  {
    hide SealsCollide, Store.Valid, PeriodRows, Sealer.CheckpointOf, Touches, Purge, PeriodPasses;
    var t := Purge(bucketOf, s, cutoff);
    PurgeKeepsCheckpoints(bucketOf, s, cutoff);
    TouchedRows(bucketOf, s, cutoff, p);
    if Touches(bucketOf, s, cutoff, p) {
      hide Verifies;
      PurgeValid(bucketOf, s, cutoff);
      VerifiesHasCheckpoint(ServiceWith(bucketOf, sealer, window), s, p);
      CountDecides(bucketOf, sealer, window, s, t, p);
    }
  }

  /** A purge leaves a period's rows alone, or makes them fewer. */
  lemma TouchedRows(bucketOf: Bucketing, s: State, cutoff: string, p: string)
    ensures var a, b := PeriodRows(bucketOf, s, p), PeriodRows(bucketOf, Purge(bucketOf, s, cutoff), p);
      if Touches(bucketOf, s, cutoff, p) then |b| < |a| else b == a
  {
    hide Dropped, Filter;
    PurgedPeriodRows(bucketOf, s, cutoff, p);
    PeriodMembers(bucketOf, s, p);
    hide PeriodRows, Purge;
    var rows, keeps := PeriodRows(bucketOf, s, p), Keeps(bucketOf, s.holds, cutoff);
    if Touches(bucketOf, s, cutoff, p) {
      var r :| r in s.records && bucketOf(r.At()) == p && Dropped(bucketOf, s.holds, cutoff, r);
      FilterShorter(rows, keeps, r);
    } else {
      FilterAll(rows, keeps);
    }
  }

  lemma PeriodMembers(bucketOf: Bucketing, s: State, p: string)
    ensures forall r :: r in PeriodRows(bucketOf, s, p) <==> r in s.records && bucketOf(r.At()) == p
  {
    forall r ensures r in PeriodRows(bucketOf, s, p) <==> r in s.records && bucketOf(r.At()) == p {
      FilterMember(s.records, InPeriod(bucketOf, p), r);
    }
  }
}
