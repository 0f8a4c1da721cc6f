/** Reading a subject's records: selection, stable order by time, truncation. */
module Queries {
  import opened Seqs
  import opened Calendar
  import opened Store

  /** A zero bound is no bound. */
  predicate Within(from: Instant, to: Instant, r: Record)
  {
    (IsZero(from) || from <= r.At()) && (IsZero(to) || r.At() <= to)
  }

  function Matches(subject: string, from: Instant, to: Instant): Record -> bool
  {
    (r: Record) => subject in r.envelope.dataSubjects && Within(from, to, r)
  }

  // ---- The order of answers ----

  /** By time, then by sequence number. */
  predicate Precedes(a: Record, b: Record)
  {
    a.At() < b.At() || (a.At() == b.At() && a.seqNo < b.seqNo)
  }

  predicate Ordered(s: seq<Record>)
  {
    forall i, j :: 0 <= i < j < |s| ==> !Precedes(s[j], s[i])
  }

  /** Records the order cannot tell apart; after a purge, distinct records may be such. */
  function TiesWith(k: Record): Record -> bool
  {
    (r: Record) => r.At() == k.At() && r.seqNo == k.seqNo
  }

  /** What `sort.SliceStable` promises: the same elements, in order, ties in their old order. */
  ghost predicate StablySorts(out: seq<Record>, s: seq<Record>)
  {
    Ordered(out) && forall k :: Filter(out, TiesWith(k)) == Filter(s, TiesWith(k))
  }

  function InsertStable(x: Record, s: seq<Record>): seq<Record>
  {
    if s == [] || !Precedes(s[0], x) then [x] + s else [s[0]] + InsertStable(x, s[1..])
  }

  function StableSort(s: seq<Record>): seq<Record>
  {
    if s == [] then [] else InsertStable(s[0], StableSort(s[1..]))
  }

  lemma {:induction false} FilterHead<T>(s: seq<T>, p: T -> bool)
    requires s != []
    ensures Filter(s, p) == (if p(s[0]) then [s[0]] else []) + Filter(s[1..], p)
  {
    if |s| > 1 {
      FilterHead(s[..|s| - 1], p);
      assert s[..|s| - 1][1..] == s[1..][..|s| - 2];
      assert s[1..][|s| - 2] == s[|s| - 1];
    } else {
      assert s[..0] == [] && s[1..] == [];
    }
  }

  lemma FilterCons<T>(x: T, s: seq<T>, p: T -> bool)
    ensures Filter([x] + s, p) == (if p(x) then [x] else []) + Filter(s, p)
  {
    FilterHead([x] + s, p);
    assert ([x] + s)[1..] == s;
  }

  lemma {:induction false} InsertKeeps(x: Record, s: seq<Record>, k: Record)
    ensures Filter(InsertStable(x, s), TiesWith(k)) == Filter([x] + s, TiesWith(k))
  {
    if s != [] && Precedes(s[0], x) {
      var p := TiesWith(k);
      assert !p(s[0]) || !p(x);
      hide Filter, TiesWith, Precedes;
      InsertKeeps(x, s[1..], k);
      FilterCons(s[0], InsertStable(x, s[1..]), p);
      FilterCons(x, s[1..], p);
      FilterCons(x, s, p);
      FilterHead(s, p);
    }
  }

  lemma {:induction false} InsertMembers(x: Record, s: seq<Record>)
    ensures multiset(InsertStable(x, s)) == multiset{x} + multiset(s)
  {
    if s != [] && Precedes(s[0], x) {
      InsertMembers(x, s[1..]);
      assert s == [s[0]] + s[1..];
    }
  }

  lemma OrderedPrepend(x: Record, s: seq<Record>)
    requires Ordered(s) && forall r :: r in multiset(s) ==> !Precedes(r, x)
    ensures Ordered([x] + s)
  {
    hide Precedes;
    forall i | 0 <= i < |s| ensures !Precedes(s[i], x) {
      assert s[i] in multiset(s);
    }
  }

  lemma {:induction false} InsertOrders(x: Record, s: seq<Record>)
    requires Ordered(s)
    ensures Ordered(InsertStable(x, s))
  {
    if s == [] {
    } else if !Precedes(s[0], x) {
      forall r | r in multiset(s) ensures !Precedes(r, x) {
        var i :| 0 <= i < |s| && s[i] == r;
        assert i > 0 ==> !Precedes(s[i], s[0]);
      }
      OrderedPrepend(x, s);
    } else {
      InsertOrders(x, s[1..]);
      InsertMembers(x, s[1..]);
      forall r | r in multiset{x} + multiset(s[1..]) ensures !Precedes(r, s[0]) {
        if r != x {
          var i :| 0 <= i < |s[1..]| && s[1..][i] == r;
          assert s[i + 1] == r;
        }
      }
      OrderedPrepend(s[0], InsertStable(x, s[1..]));
    }
  }

  lemma {:induction false} SortKeeps(s: seq<Record>, k: Record)
    ensures Filter(StableSort(s), TiesWith(k)) == Filter(s, TiesWith(k))
  {
    if s != [] {
      var p, t := TiesWith(k), StableSort(s[1..]);
      SortKeeps(s[1..], k);
      InsertKeeps(s[0], t, k);
      FilterHead([s[0]] + t, p);
      assert ([s[0]] + t)[1..] == t;
      FilterHead(s, p);
    }
  }

  lemma {:induction false} SortOrders(s: seq<Record>)
    ensures Ordered(StableSort(s)) && multiset(StableSort(s)) == multiset(s)
  {
    if s != [] {
      SortOrders(s[1..]);
      InsertOrders(s[0], StableSort(s[1..]));
      InsertMembers(s[0], StableSort(s[1..]));
      assert s == [s[0]] + s[1..];
    }
  }

  lemma StableSortCorrect(s: seq<Record>)
    ensures StablySorts(StableSort(s), s)
  {
    hide Ordered, TiesWith, StableSort;
    SortOrders(s);
    forall k ensures Filter(StableSort(s), TiesWith(k)) == Filter(s, TiesWith(k)) {
      SortKeeps(s, k);
    }
  }

  lemma TieExists(a: seq<Record>, b: seq<Record>)
    requires Ordered(a) && b != []
    requires Filter(a, TiesWith(b[0])) == Filter(b, TiesWith(b[0]))
    ensures a != [] && !Precedes(b[0], a[0])
    ensures Filter(b, TiesWith(b[0])) != [] && Filter(b, TiesWith(b[0]))[0] == b[0]
  {
    var p := TiesWith(b[0]);
    FilterHead(b, p);
    var x := Filter(a, p)[0];
    FilterMember(a, p, x);
    var i :| 0 <= i < |a| && a[i] == x;
    assert i > 0 ==> !Precedes(a[i], a[0]);
  }

  lemma TailFilters(a: seq<Record>, b: seq<Record>, k: Record)
    requires a != [] && b != [] && a[0] == b[0]
    requires Filter(a, TiesWith(k)) == Filter(b, TiesWith(k))
    ensures Filter(a[1..], TiesWith(k)) == Filter(b[1..], TiesWith(k))
  {
    hide Filter;
    var p := TiesWith(k);
    FilterHead(a, p);
    FilterHead(b, p);
    hide TiesWith;
    var head := if p(a[0]) then [a[0]] else [];
    assert Filter(a, p)[|head|..] == Filter(a[1..], p);
    assert Filter(b, p)[|head|..] == Filter(b[1..], p);
  }

  lemma SameHeads(a: seq<Record>, b: seq<Record>)
    requires a != [] && Ordered(a) && StablySorts(b, a)
    ensures b != [] && a[0] == b[0]
  {
    TieExists(b, a);
    assert Filter(b, TiesWith(b[0])) == Filter(a, TiesWith(b[0]));
    TieExists(a, b);
    assert forall r: Record :: TiesWith(a[0])(r) == TiesWith(b[0])(r);
    FilterAgree(a, TiesWith(a[0]), TiesWith(b[0]));
  }

  /** Order and stability leave no choice: there is one stable arrangement. */
  lemma {:induction false} StableUnique(a: seq<Record>, b: seq<Record>)
    requires Ordered(a) && StablySorts(b, a)
    ensures a == b
  {
    hide Precedes, TiesWith;
    if a == [] {
      if b != [] {
        assert Filter(b, TiesWith(b[0])) == Filter(a, TiesWith(b[0]));
        TieExists(a, b);
      }
    } else {
      SameHeads(a, b);
      forall k ensures Filter(b[1..], TiesWith(k)) == Filter(a[1..], TiesWith(k)) {
        TailFilters(b, a, k);
      }
      StableUnique(a[1..], b[1..]);
      assert a == [a[0]] + a[1..] && b == [b[0]] + b[1..];
    }
  }

  lemma StablySortsUnique(out: seq<Record>, s: seq<Record>)
    requires StablySorts(out, s)
    ensures out == StableSort(s)
  {
    StableSortCorrect(s);
    StableUnique(StableSort(s), out);
  }

  // ---- Answers ----

  /** Every matching record in the order of the answer, before truncation. */
  function AllMatching(s: State, subject: string, from: Instant, to: Instant): seq<Record>
  {
    StableSort(Filter(s.records, Matches(subject, from, to)))
  }

  /** A limit that is not positive stands for 1000; the in-memory store has no upper cap. */
  function EffectiveLimit(limit: int): nat
  {
    if limit <= 0 then 1000 else limit
  }

  function First(s: seq<Record>, n: nat): seq<Record>
  {
    if |s| > n then s[..n] else s
  }

  function BySubject(s: State, subject: string, from: Instant, to: Instant, limit: int): seq<Record>
  {
    First(AllMatching(s, subject, from, to), EffectiveLimit(limit))
  }

  /** What a caller asks for: the subject's records, not before `from` and not after `to`, each unless it is zero. */
  function Asked(subject: string, from: Instant, to: Instant): Record -> bool
  {
    (r: Record) =>
      subject in r.envelope.dataSubjects && (from != 0 ==> r.At() >= from) && (to != 0 ==> r.At() <= to)
  }

  lemma MatchingIsAsked(s: State, subject: string, from: Instant, to: Instant)
    ensures Filter(s.records, Matches(subject, from, to)) == Filter(s.records, Asked(subject, from, to))
  {
    FilterAgree(s.records, Matches(subject, from, to), Asked(subject, from, to));
  }

  lemma SortedMembers(s: seq<Record>)
    ensures forall r :: r in StableSort(s) <==> r in s
  {
    hide StableSort, Ordered;
    SortOrders(s);
    forall r ensures r in StableSort(s) <==> r in s {
      assert r in StableSort(s) <==> r in multiset(StableSort(s));
    }
  }

  lemma MatchingMembers(s: State, subject: string, from: Instant, to: Instant)
    ensures forall r :: r in AllMatching(s, subject, from, to) <==> r in s.records && Asked(subject, from, to)(r)
  {
    hide StableSort;
    SortedMembers(Filter(s.records, Matches(subject, from, to)));
    MatchingIsAsked(s, subject, from, to);
    FilterMembers(s.records, Asked(subject, from, to));
    hide Asked;
  }

  /** An answer holds only records of the subject within the bounds. */
  lemma AnswersMatch(s: State, subject: string, from: Instant, to: Instant, limit: int, r: Record)
    requires r in BySubject(s, subject, from, to, limit)
    ensures r in s.records && subject in r.envelope.dataSubjects
    ensures (from == 0 || r.At() >= from) && (to == 0 || r.At() <= to)
  {
    hide AllMatching;
    MatchingMembers(s, subject, from, to);
    assert r in AllMatching(s, subject, from, to);
  }

  lemma SameCount(a: seq<Record>, b: seq<Record>)
    requires multiset(a) == multiset(b)
    ensures |a| == |b|
  {
    assert |multiset(a)| == |a| && |multiset(b)| == |b|;
  }

  /** An answer that is not truncated holds all that was asked for, as often as the store does. */
  lemma AnswersComplete(s: State, subject: string, from: Instant, to: Instant, limit: int)
    requires |Filter(s.records, Asked(subject, from, to))| <= if limit <= 0 then 1000 else limit
    ensures multiset(BySubject(s, subject, from, to, limit))
         == multiset(Filter(s.records, Asked(subject, from, to)))
  {
    hide StableSort, Filter;
    MatchingIsAsked(s, subject, from, to);
    var f := Filter(s.records, Matches(subject, from, to));
    SortOrders(f);
    SameCount(StableSort(f), f);
  }

  /**
   Which records an untruncated answer lists, outright: all of the subject without
   bounds, those from an instant on, those up to an instant, or those in between.
   */
  lemma ListedExactly(s: State, subject: string, from: Instant, to: Instant, limit: int, r: Record)
    requires |Filter(s.records, Asked(subject, from, to))| <= if limit <= 0 then 1000 else limit
    ensures var listed := r in BySubject(s, subject, from, to, limit);
      var concerned := r in s.records && subject in r.envelope.dataSubjects;
      && (from == 0 && to == 0 ==> (listed <==> concerned))
      && (from != 0 && to == 0 ==> (listed <==> concerned && r.At() >= from))
      && (from == 0 && to != 0 ==> (listed <==> concerned && r.At() <= to))
      && (from != 0 && to != 0 ==> (listed <==> concerned && from <= r.At() <= to))
  {
    hide BySubject, Filter;
    AnswersComplete(s, subject, from, to, limit);
    var answer, asked := BySubject(s, subject, from, to, limit), Filter(s.records, Asked(subject, from, to));
    assert r in answer <==> r in multiset(answer);
    assert r in asked <==> r in multiset(asked);
    FilterMember(s.records, Asked(subject, from, to), r);
  }

  /** An answer is in the order of time, and of sequence numbers at the same instant. */
  lemma AnswersInOrder(s: State, subject: string, from: Instant, to: Instant, limit: int, i: nat, j: nat)
    requires i < j < |BySubject(s, subject, from, to, limit)|
    ensures var a, b := BySubject(s, subject, from, to, limit)[i], BySubject(s, subject, from, to, limit)[j];
      a.At() < b.At() || (a.At() == b.At() && a.seqNo <= b.seqNo)
  {
    hide StableSort, Filter;
    var f := Filter(s.records, Matches(subject, from, to));
    SortOrders(f);
    assert !Precedes(StableSort(f)[j], StableSort(f)[i]);
  }

  /** What truncation leaves out comes no earlier than what it keeps. */
  lemma TruncationKeepsEarliest(s: State, subject: string, from: Instant, to: Instant, limit: int, r: Record, q: Record)
    requires r in BySubject(s, subject, from, to, limit) && q !in BySubject(s, subject, from, to, limit)
    requires q in s.records && Asked(subject, from, to)(q)
    ensures r.At() < q.At() || (r.At() == q.At() && r.seqNo <= q.seqNo)
  {
    hide StableSort, Filter, Asked;
    var f := Filter(s.records, Matches(subject, from, to));
    var all, n := StableSort(f), EffectiveLimit(limit);
    SortOrders(f);
    MatchingMembers(s, subject, from, to);
    var i :| 0 <= i < |First(all, n)| && First(all, n)[i] == r;
    var j :| 0 <= j < |all| && all[j] == q;
    assert !Precedes(all[j], all[i]);
  }

  function MinNat(a: nat, b: nat): nat
  {
    if a < b then a else b
  }

  /** An answer is as long as the limit, 1000 by default, and the matches allow, also for limits above 10000. */
  lemma AnswerLength(s: State, subject: string, from: Instant, to: Instant, limit: int)
    ensures |BySubject(s, subject, from, to, limit)|
         == MinNat(if limit <= 0 then 1000 else limit, |Filter(s.records, Asked(subject, from, to))|)
  {
    hide StableSort, Filter;
    MatchingIsAsked(s, subject, from, to);
    var f := Filter(s.records, Matches(subject, from, to));
    SortOrders(f);
    SameCount(StableSort(f), f);
  }

  lemma SmallerLimitIsPrefix(s: State, subject: string, from: Instant, to: Instant, small: int, large: int)
    requires 0 < small <= large
    ensures BySubject(s, subject, from, to, small) <= BySubject(s, subject, from, to, large)
  {
    hide AllMatching;
  }

  function UpTo(mid: Instant): Record -> bool
  {
    (r: Record) => r.At() <= mid
  }

  function After(mid: Instant): Record -> bool
  {
    (r: Record) => r.At() > mid
  }

  predicate AllUpTo(s: seq<Record>, mid: Instant)
  {
    forall r :: r in s ==> r.At() <= mid
  }

  predicate AllAfter(s: seq<Record>, mid: Instant)
  {
    forall r :: r in s ==> r.At() > mid
  }

  lemma {:induction false} InsertEarly(x: Record, a: seq<Record>, b: seq<Record>, mid: Instant)
    requires AllAfter(b, mid) && x.At() <= mid
    ensures InsertStable(x, a + b) == InsertStable(x, a) + b
  {
    if a == [] {
      assert a + b == b;
      assert b != [] ==> b[0] in b;
    } else {
      assert (a + b)[0] == a[0] && (a + b)[1..] == a[1..] + b;
      if Precedes(a[0], x) {
        InsertEarly(x, a[1..], b, mid);
      } else {
        assert [x] + (a + b) == ([x] + a) + b;
      }
    }
  }

  lemma {:induction false} InsertLate(x: Record, a: seq<Record>, b: seq<Record>, mid: Instant)
    requires AllUpTo(a, mid) && x.At() > mid
    ensures InsertStable(x, a + b) == a + InsertStable(x, b)
  {
    if a == [] {
      assert a + b == b;
    } else {
      assert a[0] in a && (a + b)[0] == a[0] && (a + b)[1..] == a[1..] + b;
      InsertLate(x, a[1..], b, mid);
      assert [a[0]] + (a[1..] + InsertStable(x, b)) == a + InsertStable(x, b);
    }
  }

  lemma SortedHalves(s: seq<Record>, mid: Instant)
    ensures AllUpTo(StableSort(Filter(s, UpTo(mid))), mid)
    ensures AllAfter(StableSort(Filter(s, After(mid))), mid)
  {
    hide StableSort, Filter, Ordered;
    var early, late := Filter(s, UpTo(mid)), Filter(s, After(mid));
    SortOrders(early);
    SortOrders(late);
    forall r | r in StableSort(early) ensures r.At() <= mid {
      assert r in multiset(StableSort(early));
      FilterMember(s, UpTo(mid), r);
    }
    forall r | r in StableSort(late) ensures r.At() > mid {
      assert r in multiset(StableSort(late));
      FilterMember(s, After(mid), r);
    }
  }

  lemma SortHead(x: Record, s: seq<Record>)
    ensures StableSort([x] + s) == InsertStable(x, StableSort(s))
  {
    assert ([x] + s)[1..] == s;
  }

  lemma {:induction false} SortInHalves(s: seq<Record>, mid: Instant)
    ensures StableSort(s) == StableSort(Filter(s, UpTo(mid))) + StableSort(Filter(s, After(mid)))
  {
    if s == [] {
    } else {
      hide Filter, StableSort, InsertStable, Precedes, AllUpTo, AllAfter;
      var rest := s[1..];
      var early, late := Filter(rest, UpTo(mid)), Filter(rest, After(mid));
      SortInHalves(rest, mid);
      SortedHalves(rest, mid);
      FilterHead(s, UpTo(mid));
      FilterHead(s, After(mid));
      SortHead(s[0], rest);
      assert [s[0]] + rest == s;
      if s[0].At() <= mid {
        InsertEarly(s[0], StableSort(early), StableSort(late), mid);
        SortHead(s[0], early);
        assert Filter(s, After(mid)) == late;
      } else {
        InsertLate(s[0], StableSort(early), StableSort(late), mid);
        SortHead(s[0], late);
        assert Filter(s, UpTo(mid)) == early;
      }
    }
  }

  /**
   Adjacent windows concatenate: when the whole answer fits the limit, the answers
   for [from, mid] and [mid + 1ns, to] are its two parts.
   */
  lemma WindowsConcatenate(s: State, subject: string, from: Instant, mid: Instant, to: Instant, limit: int)
    requires !IsZero(from) && !IsZero(mid) && !IsZero(mid + 1) && !IsZero(to) && from <= mid <= to
    requires |AllMatching(s, subject, from, to)| <= EffectiveLimit(limit)
    ensures BySubject(s, subject, from, to, limit)
         == BySubject(s, subject, from, mid, limit) + BySubject(s, subject, mid + 1, to, limit)
  {
    hide StableSort;
    var whole := Filter(s.records, Matches(subject, from, to));
    FilterTwice(s.records, Matches(subject, from, to), UpTo(mid), Matches(subject, from, mid));
    FilterTwice(s.records, Matches(subject, from, to), After(mid), Matches(subject, mid + 1, to));
    SortInHalves(whole, mid);
  }
}
