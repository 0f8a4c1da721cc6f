/** The handlers: recording an access, answering data subjects, verifying, purging. */
module Routes {
  import opened Wrappers
  import opened Seqs
  import opened Decimal
  import opened Calendar
  import opened Rfc3339
  import opened Envelopes
  import opened Requests
  import opened Seals
  import opened Store
  import opened MemoryStore
  import Queries

  datatype Failure = Rejected(refusal: Refusal) | NotFound(resource: string)

  // ---- Period parameters ----

  /** `YYYY-MM` or `YYYY-MM-DD`, as the bucket of its month. */
  function NormalizePeriod(raw: string): Option<string>
  {
    var s := if Utf8Length(raw) == 7 then raw + "-01" else raw;
    var c :- ParseDate(s);
    Some(DateText(FirstDay(c)))
  }

  predicate IsAscii(s: string)
  {
    forall i :: 0 <= i < |s| ==> s[i] as int < 0x80
  }

  lemma {:induction false} AsciiLength(s: string)
    requires IsAscii(s)
    ensures Utf8Length(s) == |s|
  {
    if s != [] {
      AsciiLength(s[..|s| - 1]);
    }
  }

  lemma DateTextShape(c: Date)
    requires ValidDate(c) && 0 <= c.year <= 9999
    ensures IsAscii(DateText(c)) && |DateText(c)| == 10
    ensures DateText(c)[..7] + "-" + Fixed(c.day, 2) == DateText(c)
    ensures DateText(FirstDay(c))[..7] == DateText(c)[..7]
  {
    DateFields(c);
    hide ValidDate, Fixed;
    DateShape(Fixed(c.year, 4), Fixed(c.month, 2), Fixed(c.day, 2));
    DateShape(Fixed(c.year, 4), Fixed(c.month, 2), Fixed(1, 2));
  }

  lemma DateShape(y: string, m: string, d: string)
    requires |y| == 4 && |m| == 2 && |d| == 2 && AllDigits(y) && AllDigits(m) && AllDigits(d)
    ensures var s := y + ("-" + (m + ("-" + d)));
      IsAscii(s) && |s| == 10 && s[..7] == y + "-" + m && s[..7] + "-" + d == s
  {
  }

  /** A date or a month, as text, is sent to the bucket of the instants of that month. */
  lemma DateNormalizes(c: Date, t: Instant)
    requires ValidDate(c) && 0 <= c.year <= 9999
    requires DateOf(DayOf(t)).year == c.year && DateOf(DayOf(t)).month == c.month
    ensures NormalizePeriod(DateText(c)) == Some(Period(t))
    ensures NormalizePeriod(DateText(c)[..7]) == Some(Period(t))
  {
    hide ParseDate, ValidDate, DateOf, DayOf, DateText, Fixed, Utf8Length;
    assert FirstDay(DateOf(DayOf(t))) == FirstDay(c);
    DateTextShape(c);
    AsciiLength(DateText(c));
    AsciiLength(DateText(c)[..7]);
    ParseDateText(c);
    DateTextShape(FirstDay(c));
    FirstDayText();
    ParseDateText(FirstDay(c));
    assert DateText(c)[..7] + "-01" == DateText(FirstDay(c));
  }

  /** Buckets are fixed points, and a bucket's month part names it. */
  lemma PeriodNormalizes(t: Instant)
    requires FourDigitYear(t)
    ensures NormalizePeriod(Period(t)) == Some(Period(t))
    ensures NormalizePeriod(Period(t)[..7]) == Some(Period(t))
  {
    hide NormalizePeriod, ValidDate, DateText, DateOf, DayOf;
    FirstsKeepMonth(t);
    DateNormalizes(FirstDay(DateOf(DayOf(t))), t);
  }

  lemma FirstsKeepMonth(t: Instant)
    ensures var c := DateOf(DayOf(t)); FirstDay(c).year == c.year && FirstDay(c).month == c.month
    ensures |Period(t)| >= 7
  {
    hide DateOf, DayOf, ValidDate, Fixed;
  }

  lemma TakeIsFixed(s: string, w: nat)
    requires Take(s, w).Some?
    ensures var (n, rest) := Take(s, w).value; n < Pow10(w) && s == Fixed(n, w) + rest
  {
    ValueFixed(s[..w]);
    assert s == s[..w] + s[w..];
  }

  lemma SkipIsChar(s: string, c: char)
    requires Skip(s, c).Some?
    ensures s == [c] + Skip(s, c).value
  {
  }

  lemma ReadMonthDayShape(s: string)
    requires ReadMonthDay(s).Some?
    ensures var (m, d, rest) := ReadMonthDay(s).value; s == MonthDayText(m, d, rest)
  {
    hide Take, Skip, Fixed, Pow10;
    SkipIsChar(s, '-');
    var s0 := Skip(s, '-').value;
    TakeIsFixed(s0, 2);
    var (m, s1) := Take(s0, 2).value;
    SkipIsChar(s1, '-');
    var s2 := Skip(s1, '-').value;
    TakeIsFixed(s2, 2);
  }

  /** Only the text of a date is read as that date. */
  lemma ParsedIsText(s: string)
    requires ParseDate(s).Some?
    ensures var c := ParseDate(s).value; ValidDate(c) && 0 <= c.year <= 9999 && s == DateText(c)
  {
    assert Pow10(4) == 10000;
    hide Take, Fixed, Pow10, ValidDate, ReadMonthDay;
    TakeIsFixed(s, 4);
    var (y, s0) := Take(s, 4).value;
    ReadMonthDayShape(s0);
    var (m, d, rest) := ReadMonthDay(s0).value;
    assert Fixed(d, 2) + "" == Fixed(d, 2);
  }

  predicate NamesMonthOf(raw: string, c: Date)
  {
    ValidDate(c) && 0 <= c.year <= 9999 && (raw == DateText(c) || raw + "-01" == DateText(c))
  }

  /** What is accepted is exactly a date, or a date's year and month, in four-digit years. */
  lemma NormalizeAccepts(raw: string)
    ensures NormalizePeriod(raw).Some? <==> exists c :: NamesMonthOf(raw, c)
    ensures forall c :: NamesMonthOf(raw, c) ==> NormalizePeriod(raw) == Some(DateText(FirstDay(c)))
  {
    hide ParseDate, ValidDate, DateText, FirstDay;
    if NormalizePeriod(raw).Some? {
      var s := if Utf8Length(raw) == 7 then raw + "-01" else raw;
      ParsedIsText(s);
      assert NamesMonthOf(raw, ParseDate(s).value);
    }
    forall c | NamesMonthOf(raw, c) ensures NormalizePeriod(raw) == Some(DateText(FirstDay(c))) {
      NamedNormalizes(raw, c);
    }
  }

  lemma NamedNormalizes(raw: string, c: Date)
    requires NamesMonthOf(raw, c)
    ensures NormalizePeriod(raw) == Some(DateText(FirstDay(c)))
  {
    hide ParseDate, ValidDate, DateText, FirstDay, Utf8Length;
    DateTextShape(c);
    AsciiLength(DateText(c));
    ParseDateText(c);
    if raw + "-01" == DateText(c) {
      assert raw == DateText(c)[..|raw|];
      AsciiLength(raw);
    }
  }

  /** The buckets that a period parameter can name are those of four-digit years, no others. */
  lemma NameablePeriods(t: Instant)
    ensures (exists raw :: NormalizePeriod(raw) == Some(Period(t))) <==> FourDigitYear(t)
  {
    hide NormalizePeriod, ValidDate, DateText, DateOf, DayOf;
    if FourDigitYear(t) {
      PeriodNormalizes(t);
    }
    if raw :| NormalizePeriod(raw) == Some(Period(t)) {
      NormalizeAccepts(raw);
      var c :| NamesMonthOf(raw, c);
      DateTextDetermines(FirstDay(c), FirstDay(DateOf(DayOf(t))));
      FirstDayMonth(c);
      FirstsKeepMonth(t);
    }
  }

  // ---- Verification ----

  datatype Report = Report(scope: string, target: string, checked: nat, ok: bool, mismatches: seq<string>)

  function Broken(sealer: Sealer): Record -> bool
  {
    (r: Record) => !sealer.Verify(r.envelope, r.seal)
  }

  function EventIds(rows: seq<Record>): (ids: seq<string>)
    ensures |ids| == |rows|
  {
    seq(|rows|, i requires 0 <= i < |rows| => rows[i].Id())
  }

  const VERIFY_LIMIT: int := 10000

  function SubjectReport(sealer: Sealer, s: State, subject: string): Report
  {
    var rows := Queries.BySubject(s, subject, 0, 0, VERIFY_LIMIT);
    var bad := Filter(rows, Broken(sealer));
    Report("subject", subject, |rows|, bad == [], EventIds(bad))
  }

  function PeriodReport(bucketOf: Bucketing, sealer: Sealer, s: State, p: string): Result<Report, Failure>
  {
    if p !in s.checkpoints then Err(NotFound("checkpoint"))
    else
      var seals := SealsFor(bucketOf, s, p);
      var ok := sealer.VerifyCheckpoint(seals, |seals|, s.checkpoints[p].seal);
      Result.Ok(Report("period", p, |seals|, ok, if ok then [] else [p]))
  }

  function PeriodAnswer(bucketOf: Bucketing, sealer: Sealer, s: State, raw: string): Result<Report, Failure>
  {
    var p := NormalizePeriod(raw);
    if p.None? then Err(Rejected(Invalid("period", "yyyy-mm")))
    else PeriodReport(bucketOf, sealer, s, p.value)
  }

  /** A parameter that is absent or empty is not given. */
  predicate Given(param: Option<string>)
  {
    param.Some? && param.value != ""
  }

  function VerifyAnswer(sealer: Sealer, s: State, subject: Option<string>, period: Option<string>): Result<Report, Failure>
  {
    if Given(subject) then Result.Ok(SubjectReport(sealer, s, subject.value))
    else if Given(period) then PeriodAnswer(Period, sealer, s, period.value)
    else Err(Rejected(BadRequest("one of ?subject= or ?period= is required")))
  }

  /** The bucket of a date's month. */
  function MonthText(c: Date): string
  {
    if ValidDate(c) then DateText(FirstDay(c)) else ""
  }

  lemma NormalizesToMonth(raw: string)
    ensures NormalizePeriod(raw).Some? <==> exists c :: NamesMonthOf(raw, c)
    ensures forall c :: NamesMonthOf(raw, c) ==> NormalizePeriod(raw) == Some(MonthText(c))
  {
    hide NormalizePeriod, ValidDate, DateText, FirstDay;
    NormalizeAccepts(raw);
  }

  /** The subject's first 10000 records are checked: all of them pass, or the ids of those that do not are listed. */
  lemma SubjectReportMeans(sealer: Sealer, s: State, subject: string)
    ensures var rows, rep := Queries.BySubject(s, subject, 0, 0, VERIFY_LIMIT), SubjectReport(sealer, s, subject);
      && rep.checked == |rows|
      && (rep.ok <==> forall r :: r in rows ==> sealer.Verify(r.envelope, r.seal))
      && (rep.ok <==> rep.mismatches == [])
      && (forall r :: r in rows && !sealer.Verify(r.envelope, r.seal) ==> r.Id() in rep.mismatches)
      && (forall id :: id in rep.mismatches ==> Blames(sealer, rows, id))
  {
    hide Sealer.Verify, Queries.BySubject;
    var rows := Queries.BySubject(s, subject, 0, 0, VERIFY_LIMIT);
    var bad := Filter(rows, Broken(sealer));
    FilterMembers(rows, Broken(sealer));
    assert forall r :: r in bad <==> r in rows && Broken(sealer)(r);
    hide Filter;
    forall r | r in bad ensures r.Id() in EventIds(bad) {
      var i :| 0 <= i < |bad| && bad[i] == r;
      assert EventIds(bad)[i] == r.Id();
    }
    forall id | id in EventIds(bad) ensures Blames(sealer, rows, id) {
      var i :| 0 <= i < |bad| && EventIds(bad)[i] == id;
      assert bad[i] in bad;
    }
    if bad == [] {
      forall r | r in rows ensures sealer.Verify(r.envelope, r.seal) {
        assert r !in bad;
      }
    } else {
      assert bad[0] in bad;
    }
  }

  predicate Blames(sealer: Sealer, rows: seq<Record>, id: string)
  {
    exists r :: r in rows && r.Id() == id && !sealer.Verify(r.envelope, r.seal)
  }

  /**
   What `verify` answers for a given subject, whatever period is asked for besides: a
   report on that subject, over the first 10000 of its records, positive exactly if each
   of them passes the check of its own seal, with the ids of those that do not.
   */
  lemma VerifyAnswersSubject(sealer: Sealer, s: State, subject: Option<string>, period: Option<string>)
    requires subject.Some? && subject.value != ""
    ensures var a := VerifyAnswer(sealer, s, subject, period);
      var rows := Queries.BySubject(s, subject.value, 0, 0, 10000);
      && a.Ok? && a.value.scope == "subject" && a.value.target == subject.value && a.value.checked == |rows|
      && (a.value.ok <==> forall r :: r in rows ==> sealer.Verify(r.envelope, r.seal))
      && (a.value.ok <==> a.value.mismatches == [])
      && (forall id :: id in a.value.mismatches <==> Blames(sealer, rows, id))
  {
    hide Sealer.Verify, Queries.BySubject, Filter;
    SubjectReportMeans(sealer, s, subject.value);
    var rows := Queries.BySubject(s, subject.value, 0, 0, 10000);
    var rep := SubjectReport(sealer, s, subject.value);
    forall id | Blames(sealer, rows, id) ensures id in rep.mismatches {
      var r :| r in rows && r.Id() == id && !sealer.Verify(r.envelope, r.seal);
    }
  }

  /**
   And for a given period without a subject: refused unless it names a month; not found
   unless that month has a checkpoint; otherwise a report on the month's bucket, over its
   listed seals, positive exactly if they fit the stored checkpoint. Neither given is
   refused.
   */
  lemma VerifyAnswersPeriod(sealer: Sealer, s: State, period: Option<string>, c: Date)
    ensures VerifyAnswer(sealer, s, None, None).Err? && VerifyAnswer(sealer, s, Some(""), Some("")).Err?
    ensures period.Some? && period.value != "" && !(exists d :: NamesMonthOf(period.value, d))
        ==> VerifyAnswer(sealer, s, None, period) == Err(Rejected(Invalid("period", "yyyy-mm")))
    ensures period.Some? && NamesMonthOf(period.value, c) ==>
      var a := VerifyAnswer(sealer, s, None, period); var p := MonthText(c);
      && VerifyAnswer(sealer, s, Some(""), period) == a
      && (p !in s.checkpoints ==> a == Err(NotFound("checkpoint")))
      && (p in s.checkpoints ==>
            var seals := SealsFor(Period, s, p);
            && a.Ok? && a.value.scope == "period" && a.value.target == p && a.value.checked == |seals|
            && (a.value.ok <==> sealer.VerifyCheckpoint(seals, |seals|, s.checkpoints[p].seal))
            && a.value.mismatches == if a.value.ok then [] else [p])
  {
    hide Period, NormalizePeriod, SealsFor, MonthText, Sealer.VerifyCheckpoint;
    if period.Some? {
      NormalizesToMonth(period.value);
      NamesNotEmpty(period.value, c);
    }
    hide NamesMonthOf;
  }

  lemma NamesNotEmpty(raw: string, c: Date)
    ensures NamesMonthOf(raw, c) ==> raw != ""
  {
    hide ValidDate, Fixed;
    if NamesMonthOf(raw, c) {
      DateTextShape(c);
    }
  }

  /** A row altered under its old seal is listed, unless the alteration changes nothing recorded or collides. */
  lemma AlteredRowListed(sealer: Sealer, s: State, subject: string, r: Record, original: Envelope)
    requires r in Queries.BySubject(s, subject, 0, 0, VERIFY_LIMIT) && r.seal == sealer.SealOf(original)
    ensures r.Id() in SubjectReport(sealer, s, subject).mismatches
      || SameRecord(r.envelope, original)
      || sealer.Collides(Canonical(r.envelope), Canonical(original))
  {
    hide SubjectReport, Queries.BySubject, Canonical, SameRecord, Sealer.Verify, Sealer.SealOf, Sealer.Collides;
    SubjectReportMeans(sealer, s, subject);
    sealer.SealIdentity(r.envelope, original);
  }

  lemma RefsByContent(a: seq<string>, b: seq<string>)
    requires multiset(a) == multiset(b)
    ensures AllValidRefs(a) ==> AllValidRefs(b)
    ensures a == [] <==> b == []
    ensures forall x :: x in a <==> x in b
  {
    hide ValidSubjectRef;
    forall x ensures x in a <==> x in b {
      assert x in multiset(a) <==> x in multiset(b);
    }
    assert |multiset(a)| == |a| && |multiset(b)| == |b|;
    if AllValidRefs(a) {
      forall i | 0 <= i < |b| ensures ValidSubjectRef(b[i]) {
        assert b[i] in a;
      }
    }
  }

  /** Validation looks at nothing the seal does not cover: the same access gets the same verdict. */
  lemma SameRecordSameVerdict(a: Envelope, b: Envelope)
    requires SameRecord(a, b)
    ensures Validation(a) == Validation(b)
  {
    hide AllValidRefs;
    RefsByContent(a.categories, b.categories);
    RefsByContent(a.dataSubjects, b.dataSubjects);
    RefsByContent(b.dataSubjects, a.dataSubjects);
  }

  /** A row that passes its seal check is still one that validation treats as it treated the original, collisions aside. */
  lemma SealCoversVerdict(sealer: Sealer, stored: Envelope, original: Envelope)
    requires sealer.Verify(stored, sealer.SealOf(original))
    ensures Validation(stored) == Validation(original) || sealer.Collides(Canonical(stored), Canonical(original))
  {
    hide Canonical, SameRecord, Validation, Sealer.Verify, Sealer.SealOf, Sealer.Collides;
    sealer.SealIdentity(stored, original);
    if SameRecord(stored, original) {
      SameRecordSameVerdict(stored, original);
    }
  }

  // ---- Data subject access requests ----

  datatype SubjectRecord = SubjectRecord(envelope: Envelope, integrity: string)

  datatype SubjectRecords = SubjectRecords(subject: string, count: nat, records: seq<SubjectRecord>)

  function Integrity(sealer: Sealer, r: Record): string
  {
    if sealer.Verify(r.envelope, r.seal) then "ok" else "failed"
  }

  function Checked(sealer: Sealer, rows: seq<Record>): (out: seq<SubjectRecord>)
    ensures |out| == |rows|
  {
    seq(|rows|, i requires 0 <= i < |rows| => SubjectRecord(rows[i].envelope, Integrity(sealer, rows[i])))
  }

  function Dsar(sealer: Sealer, s: State, subject: string, from: Instant, to: Instant, limit: int): SubjectRecords
  {
    var rows := Queries.BySubject(s, subject, from, to, limit);
    SubjectRecords(subject, |rows|, Checked(sealer, rows))
  }

  /**
   What a subject is told: each row of the store's answer, in its order, with the
   verdict on the row's own seal.
   */
  lemma DsarMeans(sealer: Sealer, s: State, subject: string, from: Instant, to: Instant, limit: int)
    ensures var rows := Queries.BySubject(s, subject, from, to, limit);
      var d := Dsar(sealer, s, subject, from, to, limit);
      && d.subject == subject && d.count == |rows| && |d.records| == |rows|
      && forall i :: 0 <= i < |rows| ==>
           && d.records[i].envelope == rows[i].envelope
           && (d.records[i].integrity == "ok" <==> sealer.Verify(rows[i].envelope, rows[i].seal))
           && (d.records[i].integrity == "failed" <==> !sealer.Verify(rows[i].envelope, rows[i].seal))
  {
    hide Queries.BySubject, Sealer.Verify;
    assert |"ok"| == 2 && |"failed"| == 6;
  }

  /** A row altered under its old seal reads "failed", unless the alteration changes nothing recorded or collides. */
  lemma AlteredRowFails(sealer: Sealer, s: State, subject: string, from: Instant, to: Instant, limit: int,
                        i: nat, original: Envelope)
    requires var rows := Queries.BySubject(s, subject, from, to, limit);
      i < |rows| && rows[i].seal == sealer.SealOf(original)
    ensures var e := Queries.BySubject(s, subject, from, to, limit)[i].envelope;
      |Dsar(sealer, s, subject, from, to, limit).records| > i
      && (Dsar(sealer, s, subject, from, to, limit).records[i].integrity == "failed"
          <==> !SameRecord(e, original) && !sealer.Collides(Canonical(e), Canonical(original)))
  {
    hide Dsar, Queries.BySubject, Canonical, SameRecord, Sealer.Verify, Sealer.SealOf, Sealer.Collides;
    DsarMeans(sealer, s, subject, from, to, limit);
    sealer.SealIdentity(Queries.BySubject(s, subject, from, to, limit)[i].envelope, original);
  }

  // ---- Recording ----

  datatype Recorded = Recorded(status: int, recordId: string, eventId: string, duplicate: bool)

  /** The record of a request: sanitized, sealed, and attributed to the authenticated caller. */
  function RecordOf(sealer: Sealer, e: Envelope, caller: string, system: string): Record
  {
    Record("", Sanitized(e), sealer.SealOf(Sanitized(e)), 0, caller, system)
  }

  function RecordedAs(res: AppendResult): Recorded
  {
    Recorded(if res.duplicate then 200 else 201, res.recordId, res.eventId, res.duplicate)
  }

  /** The access is on record: some row records it. */
  predicate OnRecord(s: State, e: Envelope)
  {
    exists r :: r in s.records && SameRecord(r.envelope, e)
  }

  /**
   What a successful answer means: the row it names is the one listed under the event
   id, and the posted access is on record exactly if that row records the same access,
   that is, if the id was new or was used for the same access before. Otherwise the
   answer is 200, the store is unchanged, and the first caller's row stays.
   */
  lemma RecordedExactly(sealer: Sealer, s: State, body: Envelope, caller: string, system: string, rowId: string)
    requires Valid(s)
    ensures var rec := RecordOf(sealer, body, caller, system);
      var t := Append(s, rec, rowId); var answer := RecordedAs(AppendAnswer(s, rec, rowId)); var id := body.eventId;
      && id in t.index && t.index[id] in t.records
      && answer.eventId == id && answer.recordId == t.index[id].rowId
      && (answer.status == 200 <==> id in s.index) && (answer.status == 201 <==> id !in s.index)
      && (answer.duplicate <==> id in s.index)
      && (id in s.index ==> t == s)
      && (id !in s.index ==>
            var r := t.index[id];
            && t.records == s.records + [r] && r.rowId == rowId
            && r.envelope == Sanitized(body) && r.seal == sealer.SealOf(Sanitized(body))
            && r.sourceService == caller && r.system == system)
      && (OnRecord(t, Sanitized(body)) <==> SameRecord(t.index[id].envelope, Sanitized(body)))
      && (OnRecord(t, Sanitized(body)) <==> id !in s.index || SameRecord(s.index[id].envelope, Sanitized(body)))
  {
    hide UniqueIds, SanitizedAttributes, Sealer.SealOf, SameContent;
    var rec := RecordOf(sealer, body, caller, system);
    var t, id := Append(s, rec, rowId), body.eventId;
    AppendValid(s, rec, rowId);
    assert rec.Id() == id;
    ListedCarries(s, rec, rowId);
    OnlyItsId(t, Sanitized(body));
    SameAsItself(Sanitized(body));
  }

  lemma ListedCarries(s: State, rec: Record, rowId: string)
    ensures Listed(s, rec, rowId).envelope == rec.envelope && Listed(s, rec, rowId).rowId == rowId
  {
  }

  lemma SameAsItself(e: Envelope)
    ensures SameRecord(e, e)
  {
  }

  /** Only the row listed under its event id can record an access. */
  lemma OnlyItsId(s: State, e: Envelope)
    requires Valid(s) && e.eventId in s.index
    ensures OnRecord(s, e) <==> SameRecord(s.index[e.eventId].envelope, e)
  {
    hide UniqueIds;
    if OnRecord(s, e) {
      var r :| r in s.records && SameRecord(r.envelope, e);
      assert r.Id() == e.eventId;
    }
  }

  class Router {
    const memory: Memory
    const sealer: Sealer
    const system: string
    const window: int

    constructor (memory: Memory, sealer: Sealer, system: string, window: int)
      ensures this.memory == memory && this.sealer == sealer && this.system == system && this.window == window
    {
      this.memory := memory;
      this.sealer := sealer;
      this.system := system;
      this.window := window;
    }

    /** `recordAccess`: validate, sanitize, seal, append. A refused record changes nothing. */
    method RecordAccess(body: Envelope, caller: string, rowId: string) returns (res: Result<Recorded, Failure>)
      requires memory.Valid()
      modifies memory`byEventId, memory`records
      ensures memory.Valid()
      ensures Validation(body).Some?
          ==> res == Err(Rejected(Validation(body).value)) && memory.Abs() == old(memory.Abs())
      ensures Validation(body).None?
          ==> var rec := RecordOf(sealer, body, caller, system);
              && memory.Abs() == Store.Append(old(memory.Abs()), rec, rowId)
              && res == Result.Ok(RecordedAs(AppendAnswer(old(memory.Abs()), rec, rowId)))
    {
      hide Store.Valid, Validation, Sanitized, Canonical, Hex, HoldSet;
      var req := new AccessRecord(body);
      var refusal := req.Validate();
      if refusal.Some? {
        return Err(Rejected(refusal.value));
      }
      req.Sanitize();
      var env := req.envelope;
      var sealHex := sealer.SealOf(env);
      var appended := memory.Append(Record("", env, sealHex, 0, caller, system), rowId);
      var status := 200;
      if !appended.duplicate {
        status := 201;
      }
      res := Result.Ok(Recorded(status, appended.recordId, appended.eventId, appended.duplicate));
    }

    method VerifySubject(subject: string) returns (out: Report)
      requires memory.Valid()
      ensures out == SubjectReport(sealer, memory.Abs(), subject)
    {
      hide Store.Valid, HoldSet, Queries.BySubject, Sealer.Verify;
      var recs := memory.BySubject(subject, 0, 0, VERIFY_LIMIT);
      var ok, mismatches := true, [];
      for i := 0 to |recs|
        invariant mismatches == EventIds(Filter(recs[..i], Broken(sealer)))
        invariant ok == (Filter(recs[..i], Broken(sealer)) == [])
      {
        FilterStep(recs, i, Broken(sealer));
        if !sealer.Verify(recs[i].envelope, recs[i].seal) {
          ok := false;
          mismatches := mismatches + [recs[i].envelope.eventId];
        }
      }
      assert recs[..|recs|] == recs;
      out := Report("subject", subject, |recs|, ok, mismatches);
    }

    method VerifyPeriod(period: string) returns (res: Result<Report, Failure>)
      requires memory.Valid()
      ensures res == PeriodAnswer(Period, sealer, memory.Abs(), period)
    {
      hide Store.Valid, HoldSet, Period, NormalizePeriod, SealsFor, Sealer.CheckpointOf;
      var normalized := NormalizePeriod(period);
      if normalized.None? {
        return Err(Rejected(Invalid("period", "yyyy-mm")));
      }
      var p := normalized.value;
      var cp := memory.LoadCheckpoint(p);
      if cp.None? {
        return Err(NotFound("checkpoint"));
      }
      var seals, count := memory.SealsForPeriod(p);
      var ok := sealer.VerifyCheckpoint(seals, count, cp.value.seal);
      var mismatches := [];
      if !ok {
        mismatches := mismatches + [p];
      }
      assert mismatches == if ok then [] else [p];
      assert cp.value == memory.Abs().checkpoints[p];
      res := Result.Ok(Report("period", p, count, ok, mismatches));
    }

    method Verify(subject: Option<string>, period: Option<string>) returns (res: Result<Report, Failure>)
      requires memory.Valid()
      ensures res == VerifyAnswer(sealer, memory.Abs(), subject, period)
    {
      hide Store.Valid, HoldSet, Period, SubjectReport, PeriodAnswer;
      if subject.Some? && subject.value != "" {
        var out := VerifySubject(subject.value);
        return Result.Ok(out);
      }
      if period.Some? && period.value != "" {
        res := VerifyPeriod(period.value);
        return;
      }
      res := Err(Rejected(BadRequest("one of ?subject= or ?period= is required")));
    }

    /** `subjectRecords`: a subject is required; every returned row is re-verified. */
    method SubjectAccessRecords(subject: string, from: Instant, to: Instant, limit: Option<int>)
      returns (res: Result<SubjectRecords, Failure>)
      requires memory.Valid()
      ensures res == if subject == "" then Err(Rejected(Required("subject")))
                     else Result.Ok(Dsar(sealer, memory.Abs(), subject, from, to, if limit.Some? then limit.value else 0))
    {
      hide Store.Valid, HoldSet, Queries.BySubject, Sealer.Verify;
      if subject == "" {
        return Err(Rejected(Required("subject")));
      }
      var l := 0;
      if limit.Some? {
        l := limit.value;
      }
      var recs := memory.BySubject(subject, from, to, l);
      var records := [];
      for i := 0 to |recs|
        invariant records == Checked(sealer, recs[..i])
      {
        var integrity := "ok";
        if !sealer.Verify(recs[i].envelope, recs[i].seal) {
          integrity := "failed";
        }
        records := records + [SubjectRecord(recs[i].envelope, integrity)];
      }
      assert recs[..|recs|] == recs;
      res := Result.Ok(SubjectRecords(subject, |recs|, records));
    }

    /** The manual purge: the same cutoff as the sweep's, and nothing is sealed first. */
    method TriggerPurge(now: Instant) returns (res: PurgeResult)
      requires memory.Valid()
      modifies memory`byEventId, memory`records
      ensures memory.Valid() && memory.Abs() == Purge(Period, old(memory.Abs()), Cutoff(now, window))
      ensures res == PurgeAnswer(Period, old(memory.Abs()), Cutoff(now, window))
    {
      hide Store.Valid, HoldSet, Period, Purge, PurgeAnswer;
      var cutoff := Period(now - window);
      res := memory.PurgeExpired(cutoff);
    }
  }
}
